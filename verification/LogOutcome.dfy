/** What becomes of a message the consumer pops: written, filtered or lost to a file that does not open. */
module LogOutcome {
  import opened LogState
  import opened LogSafety
  import opened LogDrain

  /** The outcome a message deserves, given its logger's record when its turn comes and whether a file can be opened. */
  predicate Deserves(g: LoggerInfo, level: int, openOk: bool, o: Outcome) {
    match o
    case Filtered => !g.enable || level < g.level
    case OpenFailed => g.enable && level >= g.level && g.outfile && !openOk
    case Written => g.enable && level >= g.level && (g.outfile ==> openOk)
  }

  /** In state s the consumer takes on the message d. */
  predicate TakesOn(s: State, d: LogData) {
    s.logs != [] && s.logs[0] == d && d.kind.General? && ValidId(s, d.id)
  }

  /** One round handles the message at the head of the queue, and counts it as written exactly when it is. */
  lemma RoundOutcome(s: State, openOk: bool)
    requires s.logs != [] && TakesOn(s, s.logs[0])
    ensures var t, n := Consume(s, openOk), |s.handled|;
            && |t.handled| == n + 1 && t.handled[..n] == s.handled && t.handled[n].log == s.logs[0]
            && Deserves(s.loggers[s.logs[0].id], s.logs[0].level, openOk, t.handled[n].outcome)
            && t.written == s.written + (if t.handled[n].outcome.Written? then 1 else 0)
  {
  }

  /** No other operation handles a message, and neither does a round on a request. */
  lemma OnlyMessagesAreHandled(s: State, op: Op)
    requires Conserved(s) && Enabled(s, op)
    ensures Step(s, op).handled != s.handled ==> op.DoConsume? && TakesOn(s, s.logs[0])
    ensures Step(s, op).handled == s.handled ==> Step(s, op).written == s.written
  {
    hide Announce, OnHotChange, Messages, LogsOf, Count;
    match op {
      case DoStart => AnnounceOnlyQueues(PushLog(s.(running := true, alive := true), MAIN_ID, ALARM, "").1, 0);
      case DoConsume(_) => assert s.logs[0] in s.logs;
      case _ =>
    }
  }

  /** The point of a run at which message number n was handled. */
  ghost predicate HandledAt(s: State, ops: seq<Op>, n: nat, k: nat)
    requires IsRun(s, ops)
  {
    && k < |ops| && ops[k].DoConsume? && IsRun(s, ops[..k])
    && var u, t := After(s, ops[..k]), After(s, ops);
    && n == |u.handled| && n < |t.handled| && TakesOn(u, t.handled[n].log)
    && Deserves(u.loggers[t.handled[n].log.id], t.handled[n].log.level, ops[k].openOk, t.handled[n].outcome)
  }

  /**
   In every run: each message handled was handled at some round, and its outcome is the one its logger's
   record at that moment and the attempt to open a file called for.
   */
  lemma {:induction false} OutcomeIsDeserved(s: State, ops: seq<Op>, n: nat)
    requires Conserved(s) && IsRun(s, ops) && |s.handled| <= n < |After(s, ops).handled|
    ensures exists k: nat :: HandledAt(s, ops, n, k)
    decreases |ops|
  {
    hide Conserved, Step, Enabled, Deserves;
    var op := ops[0];
    var s1 := Step(s, op);
    Conserves(s, op);
    HistoryGrows(s, op);
    HistoryGrowsAfter(s1, ops[1..]);
    if n < |s1.handled| {
      HandledNow(s, ops, n);
    } else {
      OutcomeIsDeserved(s1, ops[1..], n);
      var k: nat :| HandledAt(s1, ops[1..], n, k);
      HandledLater(s, ops, n, k);
    }
  }

  lemma HandledNow(s: State, ops: seq<Op>, n: nat)
    requires Conserved(s) && IsRun(s, ops) && ops != [] && Enabled(s, ops[0])
    requires |s.handled| <= n < |Step(s, ops[0]).handled|
    requires Step(s, ops[0]).handled <= After(s, ops).handled
    ensures HandledAt(s, ops, n, 0)
  {
    hide Conserved, Deserves, Consume, IsRun, After;
    OnlyMessagesAreHandled(s, ops[0]);
    RoundOutcome(s, ops[0].openOk);
    NoOps(s);
    assert ops[..0] == [];
  }

  lemma NoOps(s: State)
    ensures IsRun(s, []) && After(s, []) == s
  {
  }

  lemma HandledLater(s: State, ops: seq<Op>, n: nat, k: nat)
    requires IsRun(s, ops) && ops != [] && HandledAt(Step(s, ops[0]), ops[1..], n, k)
    ensures HandledAt(s, ops, n, k + 1)
  {
    hide Step, Enabled, Deserves, TakesOn;
    assert ops[..k + 1][0] == ops[0] && ops[..k + 1][1..] == ops[1..][..k];
  }

  predicate AllOpen(ops: seq<Op>) {
    forall k :: 0 <= k < |ops| && ops[k].DoConsume? ==> ops[k].openOk
  }

  /**
   A message accepted while no request for its logger waits is written, in every run in which the log files
   can be opened.
   */
  lemma AcceptedIsWritten(s: State, id: int, level: int, content: string, ops: seq<Op>)
    requires Reachable(s) && PushLog(s, id, level, content).0 && NoRequests(s.logs, id)
    requires IsRun(PushLog(s, id, level, content).1, ops) && AllOpen(ops)
    ensures var t, n := After(PushLog(s, id, level, content).1, ops), |s.accepted|;
            && (n < |t.handled| ==>
                  t.handled[n] == Handled(LogData(id, General, 0, level, content), Written))
            && (!t.alive ==> n < |t.handled|)
  {
    hide Messages, Fate, IsRun, After, Reachable, Registry, Count, LogsOf, HandledAt;
    var s1, n := PushLog(s, id, level, content).1, |s.accepted|;
    var t := After(s1, ops);
    NoRetroactiveDrop(s, id, level, content, ops);
    ReachableIsSafe(s);
    PushConserved(s, id, level, content);
    if n < |t.handled| {
      OutcomeIsDeserved(s1, ops, n);
      var k: nat :| HandledAt(s1, ops, n, k);
      NotOpenFailed(s1, ops, n, k);
    }
  }

  lemma NotOpenFailed(s: State, ops: seq<Op>, n: nat, k: nat)
    requires IsRun(s, ops) && HandledAt(s, ops, n, k) && AllOpen(ops)
    ensures n < |After(s, ops).handled| && After(s, ops).handled[n].outcome != OpenFailed
  {
    hide IsRun, After;
  }

  /** A message whose logger has its file output off when its turn comes is written whatever becomes of files. */
  lemma NoFileNoFailure(s: State, ops: seq<Op>, n: nat)
    requires Conserved(s) && IsRun(s, ops) && |s.handled| <= n < |After(s, ops).handled|
    ensures exists k: nat :: HandledAt(s, ops, n, k) &&
              var u, h := After(s, ops[..k]), After(s, ops).handled[n];
              && (Passes(u.loggers[h.log.id], h.log.level) && !u.loggers[h.log.id].outfile ==> h.outcome == Written)
              && (h.outcome == OpenFailed <==>
                    Passes(u.loggers[h.log.id], h.log.level) && u.loggers[h.log.id].outfile && !ops[k].openOk)
  {
    hide Conserved, IsRun, After, HandledAt, Passes;
    OutcomeIsDeserved(s, ops, n);
    var k: nat :| HandledAt(s, ops, n, k);
    AtThatPoint(s, ops, n, k);
  }

  lemma AtThatPoint(s: State, ops: seq<Op>, n: nat, k: nat)
    requires IsRun(s, ops) && HandledAt(s, ops, n, k)
    ensures var u, h := After(s, ops[..k]), After(s, ops).handled[n];
            && (Passes(u.loggers[h.log.id], h.log.level) && !u.loggers[h.log.id].outfile ==> h.outcome == Written)
            && (h.outcome == OpenFailed <==>
                  Passes(u.loggers[h.log.id], h.log.level) && u.loggers[h.log.id].outfile && !ops[k].openOk)
  {
    hide IsRun, After;
  }

  /** When every file opens, draining writes exactly the messages whose logger lets them through in their turn. */
  lemma DrainWrites(s: State, n: nat)
    requires Conserved(s) && s.alive && n < |Messages(s.logs)|
    ensures var t, k := Drained(s, d => true), |s.handled| + n;
            && k < |t.handled| && t.handled[k].log == Messages(s.logs)[n]
            && (t.handled[k].outcome == Written <==> Fate(s.loggers, s.logs, n))
  {
    hide Messages, Fate, IsRun, After, Drained, Count, LogsOf, HandledAt, Conserved;
    var ops, k := Consumes(|s.logs|), |s.handled| + n;
    DrainIsRun(s);
    DrainFollowsFate(s, d => true, n);
    OutcomeIsDeserved(s, ops, k);
    var j: nat :| HandledAt(s, ops, k, j);
    ConsumesOpen(|s.logs|);
    NotOpenFailed(s, ops, k, j);
  }

  lemma {:induction false} ConsumesOpen(k: nat)
    ensures AllOpen(Consumes(k))
  {
    if k > 0 {
      ConsumesOpen(k - 1);
      forall j | 0 <= j < k && Consumes(k)[j].DoConsume? ensures Consumes(k)[j].openOk {
        assert j > 0 ==> Consumes(k)[j] == Consumes(k - 1)[j - 1];
      }
    }
  }
}
