/**
 What the consumer makes of a queue when nobody interferes: exactly which messages it filters, and the records
 it leaves.
 */
module LogDrain {
  import opened LogState
  import opened LogSafety
  import opened LogHotChange

  /** One round, and the first message of the queue. */
  lemma OneRound(s: State, openOk: bool)
    requires Conserved(s) && s.alive && s.logs != []
    ensures var t, d := Consume(s, openOk), s.logs[0];
            && Conserved(t) && t.alive && t.asked == s.asked && t.accepted == s.accepted
            && (if d.kind.General? then
                  && NoStricter(s.loggers, t.loggers) && NoStricter(t.loggers, s.loggers)
                  && |t.handled| == |s.handled| + 1 && s.handled <= t.handled
                  && t.handled[|s.handled|].log == d
                  && (t.handled[|s.handled|].outcome != Filtered <==> Fate(s.loggers, s.logs, 0))
                else t.handled == s.handled && t.loggers == Replaced(s.loggers, d))
  {
    hide Messages, LogsOf, Count, OnHotChange;
    ConsumeConserved(s, openOk);
    assert s.logs[0] in s.logs;
  }

  lemma {:induction false} DrainGrows(s: State, openOk: LogData -> bool)
    requires Conserved(s) && s.alive
    ensures var t := Drained(s, openOk);
            s.handled <= t.handled && t.logs == [] && Conserved(t) && t.asked == s.asked && t.accepted == s.accepted
    decreases |s.logs|
  {
    hide Conserved, Consume, Fate;
    if s.logs != [] {
      OneRound(s, openOk(s.logs[0]));
      DrainGrows(Consume(s, openOk(s.logs[0])), openOk);
    }
  }

  lemma FateIsShared(gs: seq<LoggerInfo>, hs: seq<LoggerInfo>, q: seq<LogData>, n: nat)
    requires NoStricter(gs, hs) && NoStricter(hs, gs)
    ensures Fate(gs, q, n) <==> Fate(hs, q, n)
  {
    hide Fate;
    if Fate(gs, q, n) {
      FateImproves(gs, hs, q, n);
    }
    if Fate(hs, q, n) {
      FateImproves(hs, gs, q, n);
    }
  }

  /**
   The n-th message of the queue is filtered exactly when its logger, brought up to date by the requests before
   it, rejects it.
   */
  lemma {:induction false} DrainFollowsFate(s: State, openOk: LogData -> bool, n: nat)
    requires Conserved(s) && s.alive && n < |Messages(s.logs)|
    ensures var t, k := Drained(s, openOk), |s.handled| + n;
            && k < |t.handled| && t.handled[k].log == Messages(s.logs)[n]
            && (t.handled[k].outcome != Filtered <==> Fate(s.loggers, s.logs, n))
    decreases |s.logs|
  {
    hide Conserved, Consume, NoStricter, Replaced, Passes;
    var d := s.logs[0];
    var s1 := Consume(s, openOk(d));
    OneRound(s, openOk(d));
    MessagesPop(s.logs);
    DrainGrows(s1, openOk);
    if !d.kind.General? {
      DrainFollowsFate(s1, openOk, n);
    } else if n > 0 {
      DrainFollowsFate(s1, openOk, n - 1);
      FateIsShared(s.loggers, s1.loggers, s.logs[1..], n - 1);
    }
  }

  /** A drained queue leaves every accepted message handled and every record as asked for. */
  lemma {:induction false} DrainCatchesUp(s: State, openOk: LogData -> bool)
    requires Conserved(s) && Consistent(s) && s.alive
    ensures var t := Drained(s, openOk);
            && LogsOf(t.handled) == s.accepted
            && forall i :: 0 <= i < LOGGER_MAX ==> Agrees(t.loggers[i], s.asked[i], i in t.failed)
    decreases |s.logs|
  {
    hide Consume, Fate, LogsOf, Count;
    if s.logs == [] {
      EmptyReplay();
    } else {
      OneRound(s, openOk(s.logs[0]));
      ConsistentByConsumer(s, openOk(s.logs[0]));
      DrainCatchesUp(Consume(s, openOk(s.logs[0])), openOk);
    }
  }

  // ---- which accepted messages are safe ----

  /** Every run from s that has handled message number n of those accepted did not filter it. */
  ghost predicate NeverFiltered(s: State, n: nat) {
    forall ops :: IsRun(s, ops) && n < |After(s, ops).handled| ==> After(s, ops).handled[n].outcome != Filtered
  }

  function Consumes(k: nat): (ops: seq<Op>)
    ensures |ops| == k
  {
    if k == 0 then [] else [DoConsume(true)] + Consumes(k - 1)
  }

  /** Draining the queue is one of the runs. */
  lemma {:induction false} DrainIsRun(s: State)
    requires s.alive
    ensures IsRun(s, Consumes(|s.logs|)) && After(s, Consumes(|s.logs|)) == Drained(s, d => true)
    decreases |s.logs|
  {
    hide Consume;
    if s.logs != [] {
      var ops := Consumes(|s.logs|);
      StaysAlive(s);
      assert ops[1..] == Consumes(|s.logs| - 1);
      DrainIsRun(Consume(s, true));
    }
  }

  lemma StaysAlive(s: State)
    requires s.logs != [] && s.alive
    ensures Consume(s, true).alive
  {
    hide OnHotChange;
  }

  /**
   An accepted message is safe from being dropped, in every continuation, exactly when its logger, with the
   requests queued ahead of it applied, would let it through.
   */
  lemma SafeIff(s: State, id: int, level: int, content: string)
    requires Reachable(s) && PushLog(s, id, level, content).0
    ensures var t := PushLog(s, id, level, content).1;
            NeverFiltered(t, |s.accepted|) <==> Fate(s.loggers, t.logs, |Messages(s.logs)|)
  {
    hide Messages, Fate, IsRun, After, Drained, Reachable, Registry, Count, LogsOf;
    var t, n := PushLog(s, id, level, content).1, |s.accepted|;
    ReachableIsSafe(s);
    PushConserved(s, id, level, content);
    assert n == |s.handled| + |Messages(s.logs)|;
    if Fate(s.loggers, t.logs, |Messages(s.logs)|) {
      forall ops | IsRun(t, ops) && n < |After(t, ops).handled|
        ensures After(t, ops).handled[n].outcome != Filtered {
        KeptAfter(t, n, ops);
      }
    } else {
      MessagesAppend(s.logs, LogData(id, General, 0, level, content));
      DrainIsRun(t);
      DrainFollowsFate(t, d => true, |Messages(s.logs)|);
    }
  }

  /** A queued request that only renames the logger leaves it safe, so NoRequests is not needed for that. */
  lemma RenameIsHarmless(s: State, id: int, name: string, level: int, content: string)
    requires Reachable(s) && s.logs == [] && ValidId(s, id) && 0 < |name| < BUF_SIZE
    requires s.running && Passes(s.loggers[id], level)
    ensures var t := PushLog(ChangeText(s, id, SetName, name).1, id, level, content);
            t.0 && !NoRequests(ChangeText(s, id, SetName, name).1.logs, id) && NeverFiltered(t.1, |s.accepted|)
  {
    hide Reachable, NeverFiltered, Registry, Count, LogsOf;
    var s1 := ChangeText(s, id, SetName, name).1;
    ReachableNext(s, DoText(id, SetName, name));
    SafeIff(s1, id, level, content);
  }

  lemma ReachableNext(s: State, op: Op)
    requires Reachable(s) && Enabled(s, op)
    ensures Reachable(Step(s, op))
  {
    hide IsRun, After, Step, Enabled;
    var path: string, ops: seq<Op> :| IsRun(Initial(path), ops) && After(Initial(path), ops) == s;
    OneMoreOp(Initial(path), ops, op);
  }

  lemma {:induction false} OneMoreOp(s: State, ops: seq<Op>, op: Op)
    requires IsRun(s, ops) && Enabled(After(s, ops), op)
    ensures IsRun(s, ops + [op]) && After(s, ops + [op]) == Step(After(s, ops), op)
    decreases |ops|
  {
    hide Step, Enabled;
    if ops == [] {
      assert [op][1..] == [];
      assert [] + [op] == [op];
    } else {
      assert (ops + [op])[1..] == ops[1..] + [op];
      OneMoreOp(Step(s, ops[0]), ops[1..], op);
    }
  }
}
