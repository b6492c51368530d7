/** What every interleaving of log4z's operations keeps: the registry, the messages, and the fate of each message. */
module LogSafety {
  import opened LogState

  // ---- the registry ----

  /** Keys map one-to-one onto the ids 0..lastId, and each record carries its own key. */
  predicate Registry(s: State) {
    && MAIN_KEY in s.ids && s.ids[MAIN_KEY] == MAIN_ID
    && (forall k :: k in s.ids ==> 0 <= s.ids[k] <= s.lastId && s.loggers[s.ids[k]].key == k)
    && (forall i :: 0 <= i <= s.lastId ==> s.loggers[i].key in s.ids && s.ids[s.loggers[i].key] == i)
  }

  /** Only createLogger touches keys and ids. */
  predicate SameKeys(s: State, t: State) {
    t.ids == s.ids && t.lastId == s.lastId && forall i :: 0 <= i <= s.lastId ==> t.loggers[i].key == s.loggers[i].key
  }

  lemma KeyKept()
    ensures forall g, kind, num, text :: OnHotChange(g, kind, num, text).key == g.key
  {
  }

  lemma KeysKeptByConsumer(s: State, openOk: bool)
    requires s.logs != []
    ensures SameKeys(s, Consume(s, openOk))
  {
    hide OnHotChange;
    KeyKept();
  }

  lemma KeysKept(s: State, op: Op)
    requires Enabled(s, op) && !op.DoCreate?
    ensures SameKeys(s, Step(s, op))
  {
    hide Announce, OnHotChange, CreateLogger, Consume;
    match op {
      case DoStart => AnnounceOnlyQueues(PushLog(s.(running := true, alive := true), MAIN_ID, ALARM, "").1, 0);
      case DoConsume(openOk) => KeysKeptByConsumer(s, openOk);
      case _ =>
    }
  }

  lemma RegistryByCreate(s: State, key: string)
    requires Registry(s)
    ensures Registry(CreateLogger(s, key).1)
  {
  }

  lemma RegistryKept(s: State, op: Op)
    requires Registry(s) && Enabled(s, op)
    ensures Registry(Step(s, op))
  {
    hide CreateLogger, PushLog, HotChange, Consume, Exit, Announce;
    if op.DoCreate? {
      RegistryByCreate(s, op.key);
    } else {
      KeysKept(s, op);
    }
  }

  /** The announcements of run change the queue and its counters only. */
  lemma {:induction false} AnnounceOnlyQueues(s: State, i: int)
    requires 0 <= i
    ensures var t := Announce(s, i);
            && t == s.(logs := t.logs, pushed := t.pushed, accepted := t.accepted)
    decreases s.lastId + 1 - i
  {
    if i <= s.lastId {
      AnnounceOnlyQueues(if s.loggers[i].enable then PushLog(s, MAIN_ID, ALARM, "").1 else s, i + 1);
    }
  }

  lemma IdKept(s: State, op: Op, key: string)
    requires Enabled(s, op) && key in s.ids
    ensures s.lastId <= Step(s, op).lastId && key in Step(s, op).ids && Step(s, op).ids[key] == s.ids[key]
  {
    hide PushLog, HotChange, Consume, Exit, Announce;
    if !op.DoCreate? {
      KeysKept(s, op);
    }
  }

  /** An id once given to a key stays its id, and ids are never taken back. */
  lemma {:induction false} IdsAreStable(s: State, ops: seq<Op>, key: string)
    requires IsRun(s, ops) && key in s.ids
    ensures s.lastId <= After(s, ops).lastId && key in After(s, ops).ids && After(s, ops).ids[key] == s.ids[key]
    decreases |ops|
  {
    hide Step;
    if ops != [] {
      IdKept(s, ops[0], key);
      IdsAreStable(Step(s, ops[0]), ops[1..], key);
    }
  }

  // ---- the messages ----

  /** The ordinary messages of a queue, in order. */
  function Messages(q: seq<LogData>): seq<LogData> {
    if q == [] then [] else (if q[0].kind.General? then [q[0]] else []) + Messages(q[1..])
  }

  function LogsOf(hs: seq<Handled>): (ls: seq<LogData>)
    ensures |ls| == |hs|
  {
    seq(|hs|, i requires 0 <= i < |hs| => hs[i].log)
  }

  function Count(hs: seq<Handled>, o: Outcome): nat {
    if hs == [] then 0 else Count(hs[..|hs| - 1], o) + if hs[|hs| - 1].outcome == o then 1 else 0
  }

  /** No message is lost, doubled or reordered, and the counters tell the truth. */
  predicate Conserved(s: State) {
    && s.accepted == LogsOf(s.handled) + Messages(s.logs)
    && s.pushed == |s.accepted| && s.popped == |s.handled| && s.written == Count(s.handled, Written)
    && (s.alive || (Messages(s.logs) == [] && !s.running))
    && (forall d :: d in s.logs ==> 0 <= d.id <= s.lastId)
  }

  lemma {:induction false} MessagesAppend(q: seq<LogData>, d: LogData)
    ensures Messages(q + [d]) == Messages(q) + if d.kind.General? then [d] else []
  {
    if q != [] {
      assert (q + [d])[1..] == q[1..] + [d];
      MessagesAppend(q[1..], d);
    }
  }

  lemma PushConserved(s: State, id: int, level: int, content: string)
    requires Conserved(s)
    ensures Conserved(PushLog(s, id, level, content).1)
  {
    hide Messages;
    MessagesAppend(s.logs, LogData(id, General, 0, level, content));
  }

  lemma {:induction false} AnnounceConserved(s: State, i: int)
    requires Conserved(s) && 0 <= i
    ensures Conserved(Announce(s, i))
    decreases s.lastId + 1 - i
  {
    hide Conserved;
    if i <= s.lastId {
      PushConserved(s, MAIN_ID, ALARM, "");
      AnnounceConserved(if s.loggers[i].enable then PushLog(s, MAIN_ID, ALARM, "").1 else s, i + 1);
    }
  }

  lemma ChangeConserved(s: State, id: int, kind: Kind, num: int, text: string)
    requires Conserved(s) && !kind.General?
    ensures Conserved(HotChange(s, id, kind, num, text).1)
  {
    hide Messages;
    MessagesAppend(s.logs, LogData(id, kind, num, 0, text));
  }

  lemma ConsumeConserved(s: State, openOk: bool)
    requires Conserved(s) && s.alive && s.logs != []
    ensures Conserved(Consume(s, openOk))
  {
    hide LogsOf, Count, OnHotChange, Messages;
    var t, d := Consume(s, openOk), s.logs[0];
    assert d in s.logs;
    MessagesPop(s.logs);
    if d.kind.General? {
      var h := t.handled[|s.handled|];
      HandledGrows(s.handled, h);
      assert t.handled == s.handled + [h] && h.log == d;
      assert LogsOf(s.handled) + Messages(s.logs) == LogsOf(s.handled) + [d] + Messages(s.logs[1..]);
    }
  }

  lemma MessagesPop(q: seq<LogData>)
    requires q != []
    ensures Messages(q) == (if q[0].kind.General? then [q[0]] else []) + Messages(q[1..])
  {
  }

  lemma HandledGrows(hs: seq<Handled>, h: Handled)
    ensures LogsOf(hs + [h]) == LogsOf(hs) + [h.log]
    ensures Count(hs + [h], Written) == Count(hs, Written) + if h.outcome == Written then 1 else 0
  {
    assert (hs + [h])[..|hs|] == hs;
  }

  lemma Conserves(s: State, op: Op)
    requires Conserved(s) && Enabled(s, op)
    ensures Conserved(Step(s, op))
  {
    hide Messages, Announce;
    match op {
      case DoPush(id, level, content) => PushConserved(s, id, level, content);
      case DoEnable(id, on) => EnableConserved(s, id, on);
      case DoLevel(id, level) => LevelConserved(s, id, level);
      case DoSwitch(id, kind, on) => ChangeConserved(s, id, kind, Num(on), "");
      case DoLimitSize(id, n) => ChangeConserved(s, id, SetLimitSize, ToInt(if n == 0 then WORD - 1 else n), "");
      case DoText(id, kind, text) => ChangeConserved(s, id, kind, 0, text);
      case DoStart => StartConserved(s);
      case DoConsume(openOk) => ConsumeConserved(s, openOk);
      case DoExit => NoMessages();
      case _ =>
    }
  }

  lemma NoMessages()
    ensures Messages([]) == []
  {
  }

  lemma EnableConserved(s: State, id: int, on: bool)
    requires Conserved(s)
    ensures Conserved(Enable(s, id, on).1)
  {
    hide Messages, HotChange;
    if ValidId(s, id) {
      ChangeConserved(if on then s.(loggers := s.loggers[id := s.loggers[id].(enable := true)]) else s,
                      id, EnableLogger, Num(on), "");
    }
  }

  lemma LevelConserved(s: State, id: int, level: int)
    requires Conserved(s)
    ensures Conserved(ChangeLevel(s, id, level).1)
  {
    hide Messages, HotChange;
    if ValidId(s, id) {
      ChangeConserved(s.(loggers := s.loggers[id := s.loggers[id].(level := level)]), id, SetLevel, level, "");
      ChangeConserved(s, id, SetLevel, level, "");
    }
  }

  lemma StartConserved(s: State)
    requires Conserved(s) && (s.alive ==> s.running)
    ensures Conserved(Start(s).1)
  {
    hide Messages, Announce, PushLog;
    if !s.running {
      var s1: State := s.(running := true, alive := true);
      PushConserved(s1, MAIN_ID, ALARM, "");
      AnnounceConserved(PushLog(s1, MAIN_ID, ALARM, "").1, 0);
    }
  }

  // ---- the fate of a message ----

  function Replaced(gs: seq<LoggerInfo>, d: LogData): (r: seq<LoggerInfo>)
    ensures |r| == |gs|
  {
    if 0 <= d.id < |gs| then gs[d.id := OnHotChange(gs[d.id], d.kind, d.typeval, d.content)] else gs
  }

  /** The n-th message of the queue will get past its logger, once the requests before it are applied. */
  predicate Fate(gs: seq<LoggerInfo>, q: seq<LogData>, n: nat)
    decreases |q|
  {
    q != [] &&
    if !q[0].kind.General? then Fate(Replaced(gs, q[0]), q[1..], n)
    else if n > 0 then Fate(gs, q[1..], n - 1)
    else 0 <= q[0].id < |gs| && Passes(gs[q[0].id], q[0].level)
  }

  /** Every logger lets through at least what it let through before. */
  predicate NoStricter(gs: seq<LoggerInfo>, hs: seq<LoggerInfo>) {
    |gs| == |hs| && forall i :: 0 <= i < |gs| ==> LetsThrough(gs[i], hs[i])
  }

  predicate LetsThrough(g: LoggerInfo, h: LoggerInfo) {
    (g.enable ==> h.enable) && h.level <= g.level
  }

  lemma StillLetsThrough(g: LoggerInfo, h: LoggerInfo, kind: Kind, num: int, text: string)
    requires LetsThrough(g, h)
    ensures LetsThrough(OnHotChange(g, kind, num, text), OnHotChange(h, kind, num, text))
  {
  }

  lemma StillNoStricter(gs: seq<LoggerInfo>, hs: seq<LoggerInfo>, d: LogData)
    requires NoStricter(gs, hs)
    ensures NoStricter(Replaced(gs, d), Replaced(hs, d))
  {
    hide OnHotChange, LetsThrough;
    if 0 <= d.id < |gs| {
      StillLetsThrough(gs[d.id], hs[d.id], d.kind, d.typeval, d.content);
    }
  }

  lemma PassesStill(gs: seq<LoggerInfo>, hs: seq<LoggerInfo>, id: int, level: int)
    requires NoStricter(gs, hs) && 0 <= id < |gs| && Passes(gs[id], level)
    ensures id < |hs| && Passes(hs[id], level)
  {
  }

  lemma {:induction false} FateImproves(gs: seq<LoggerInfo>, hs: seq<LoggerInfo>, q: seq<LogData>, n: nat)
    requires Fate(gs, q, n) && NoStricter(gs, hs)
    ensures Fate(hs, q, n)
    decreases |q|
  {
    hide OnHotChange, Replaced, NoStricter;
    if !q[0].kind.General? {
      StillNoStricter(gs, hs, q[0]);
      FateImproves(Replaced(gs, q[0]), Replaced(hs, q[0]), q[1..], n);
    } else if n > 0 {
      FateImproves(gs, hs, q[1..], n - 1);
    } else {
      PassesStill(gs, hs, q[0].id, q[0].level);
    }
  }

  lemma {:induction false} FateOfEarlier(gs: seq<LoggerInfo>, q: seq<LogData>, n: nat, d: LogData)
    requires Fate(gs, q, n)
    ensures Fate(gs, q + [d], n)
    decreases |q|
  {
    assert (q + [d])[1..] == q[1..] + [d];
    if !q[0].kind.General? {
      FateOfEarlier(Replaced(gs, q[0]), q[1..], n, d);
    } else if n > 0 {
      FateOfEarlier(gs, q[1..], n - 1, d);
    }
  }

  /** No request for this logger waits in the queue. */
  predicate NoRequests(q: seq<LogData>, id: int) {
    q == [] || ((q[0].id == id ==> q[0].kind.General?) && NoRequests(q[1..], id))
  }

  lemma {:induction false} FateWhenAccepted(gs: seq<LoggerInfo>, q: seq<LogData>, d: LogData)
    requires d.kind.General? && 0 <= d.id < |gs| && Passes(gs[d.id], d.level) && NoRequests(q, d.id)
    ensures Fate(gs, q + [d], |Messages(q)|)
    decreases |q|
  {
    if q != [] {
      assert (q + [d])[1..] == q[1..] + [d];
      FateWhenAccepted(if q[0].kind.General? then gs else Replaced(gs, q[0]), q[1..], d);
    }
  }

  /** Message number pos of those accepted has been kept, or is going to be. */
  predicate Kept(s: State, pos: nat) {
    if pos < |s.handled| then s.handled[pos].outcome != Filtered
    else Fate(s.loggers, s.logs, pos - |s.handled|)
  }

  lemma KeptByPush(s: State, pos: nat, id: int, level: int, content: string)
    requires Kept(s, pos)
    ensures Kept(PushLog(s, id, level, content).1, pos)
  {
    hide Fate;
    if pos >= |s.handled| {
      FateOfEarlier(s.loggers, s.logs, pos - |s.handled|, LogData(id, General, 0, level, content));
    }
  }

  /** A request together with an immediate change of the records that makes none of them stricter. */
  lemma KeptByChange(s: State, pos: nat, gs: seq<LoggerInfo>, id: int, kind: Kind, num: int, text: string)
    requires Kept(s, pos) && NoStricter(s.loggers, gs) && |gs| == LOGGER_MAX
    ensures Kept(HotChange(s.(loggers := gs), id, kind, num, text).1, pos)
  {
    hide Fate;
    if pos >= |s.handled| {
      FateImproves(s.loggers, gs, s.logs, pos - |s.handled|);
      FateOfEarlier(gs, s.logs, pos - |s.handled|, LogData(id, kind, num, 0, text));
    }
  }

  lemma KeptByConsumer(s: State, pos: nat, openOk: bool)
    requires Kept(s, pos) && Conserved(s) && s.logs != []
    ensures Kept(Consume(s, openOk), pos)
  {
    hide Messages, OnHotChange, LogsOf, Count;
    var d := s.logs[0];
    assert d in s.logs;
    if pos > |s.handled| && d.kind.General? {
      FateImproves(s.loggers, Consume(s, openOk).loggers, s.logs[1..], pos - |s.handled| - 1);
    }
  }

  lemma {:induction false} KeptByAnnounce(s: State, pos: nat, i: int)
    requires Kept(s, pos) && 0 <= i
    ensures Kept(Announce(s, i), pos)
    decreases s.lastId + 1 - i
  {
    hide Kept;
    if i <= s.lastId {
      KeptByPush(s, pos, MAIN_ID, ALARM, "");
      KeptByAnnounce(if s.loggers[i].enable then PushLog(s, MAIN_ID, ALARM, "").1 else s, pos, i + 1);
    }
  }

  lemma StaysKept(s: State, pos: nat, op: Op)
    requires Kept(s, pos) && Conserved(s) && Enabled(s, op)
    ensures Kept(Step(s, op), pos)
  {
    hide Messages, Announce, Fate, Kept, HotChange, PushLog;
    match op {
      case DoCreate(key) => KeptByCreate(s, pos, key);
      case DoPush(id, level, content) => KeptByPush(s, pos, id, level, content);
      case DoEnable(id, on) => KeptByEnable(s, pos, id, on);
      case DoLevel(id, level) => KeptByLevel(s, pos, id, level);
      case DoSwitch(id, kind, on) => KeptByChange(s, pos, s.loggers, id, kind, Num(on), "");
      case DoLimitSize(id, n) =>
        KeptByChange(s, pos, s.loggers, id, SetLimitSize, ToInt(if n == 0 then WORD - 1 else n), "");
      case DoText(id, kind, text) => KeptByText(s, pos, id, kind, text);
      case DoStart => KeptByStart(s, pos);
      case DoStop => SameQueue(s, Stop(s).1, pos);
      case DoConsume(openOk) => KeptByConsumer(s, pos, openOk);
      case DoExit => KeptByExit(s, pos);
    }
  }

  lemma SameQueue(s: State, t: State, pos: nat)
    requires Kept(s, pos) && t.handled == s.handled && t.logs == s.logs && NoStricter(s.loggers, t.loggers)
    ensures Kept(t, pos)
  {
    hide Fate;
    if pos >= |s.handled| {
      FateImproves(s.loggers, t.loggers, s.logs, pos - |s.handled|);
    }
  }

  lemma KeptByCreate(s: State, pos: nat, key: string)
    requires Kept(s, pos)
    ensures Kept(CreateLogger(s, key).1, pos)
  {
    hide Kept;
    SameQueue(s, CreateLogger(s, key).1, pos);
  }

  lemma KeptByEnable(s: State, pos: nat, id: int, on: bool)
    requires Kept(s, pos)
    ensures Kept(Enable(s, id, on).1, pos)
  {
    hide Kept, HotChange;
    if ValidId(s, id) {
      KeptByChange(s, pos, if on then s.loggers[id := s.loggers[id].(enable := true)] else s.loggers,
                   id, EnableLogger, Num(on), "");
    }
  }

  lemma KeptByLevel(s: State, pos: nat, id: int, level: int)
    requires Kept(s, pos)
    ensures Kept(ChangeLevel(s, id, level).1, pos)
  {
    hide Kept, HotChange;
    if ValidId(s, id) {
      var gs := if level < s.loggers[id].level then s.loggers[id := s.loggers[id].(level := level)] else s.loggers;
      KeptByChange(s, pos, gs, id, SetLevel, level, "");
    }
  }

  lemma KeptByText(s: State, pos: nat, id: int, kind: Kind, text: string)
    requires Kept(s, pos) && (kind.SetName? || kind.SetPath?)
    ensures Kept(ChangeText(s, id, kind, text).1, pos)
  {
    hide Kept, HotChange;
    KeptByChange(s, pos, s.loggers, id, kind, 0, text);
  }

  lemma KeptByStart(s: State, pos: nat)
    requires Kept(s, pos) && (s.alive ==> s.running)
    ensures Kept(Start(s).1, pos)
  {
    hide Kept, PushLog, Announce;
    if !s.running {
      var s1: State := s.(running := true, alive := true);
      SameQueue(s, s1, pos);
      KeptByPush(s1, pos, MAIN_ID, ALARM, "");
      KeptByAnnounce(PushLog(s1, MAIN_ID, ALARM, "").1, pos, 0);
    }
  }

  lemma KeptByExit(s: State, pos: nat)
    requires Kept(s, pos) && s.alive && !s.running && s.logs == []
    ensures Kept(Exit(s), pos)
  {
  }

  // ---- over whole runs ----

  lemma {:induction false} ConservedAfter(s: State, ops: seq<Op>)
    requires Conserved(s) && Registry(s) && IsRun(s, ops)
    ensures Conserved(After(s, ops)) && Registry(After(s, ops))
    decreases |ops|
  {
    hide Conserved, Registry, Step, Enabled;
    if ops != [] {
      Conserves(s, ops[0]);
      RegistryKept(s, ops[0]);
      ConservedAfter(Step(s, ops[0]), ops[1..]);
    }
  }

  lemma {:induction false} KeptAfter(s: State, pos: nat, ops: seq<Op>)
    requires Conserved(s) && Kept(s, pos) && IsRun(s, ops)
    ensures Kept(After(s, ops), pos)
    decreases |ops|
  {
    hide Conserved, Kept, Step, Enabled;
    if ops != [] {
      Conserves(s, ops[0]);
      StaysKept(s, pos, ops[0]);
      KeptAfter(Step(s, ops[0]), pos, ops[1..]);
    }
  }

  /** The states any sequence of operations can reach from a new manager. */
  ghost predicate Reachable(s: State) {
    exists path: string, ops: seq<Op> :: IsRun(Initial(path), ops) && After(Initial(path), ops) == s
  }

  lemma ReachableIsSafe(s: State)
    requires Reachable(s)
    ensures Conserved(s) && Registry(s)
  {
    hide IsRun, After;
    var path: string, ops: seq<Op> :| IsRun(Initial(path), ops) && After(Initial(path), ops) == s;
    ConservedAfter(Initial(path), ops);
  }

  lemma {:induction false} CountAll(hs: seq<Handled>)
    ensures Count(hs, Written) + Count(hs, Filtered) + Count(hs, OpenFailed) == |hs|
  {
    if hs != [] {
      CountAll(hs[..|hs| - 1]);
    }
  }

  /**
   The messages handled, followed by those still queued, are the messages accepted, in order; the
   status counters agree with them; and when the consumer has exited nothing is left over.
   */
  lemma NothingIsLost(s: State)
    requires Reachable(s)
    ensures LogsOf(s.handled) + Messages(s.logs) == s.accepted
    ensures s.pushed - s.popped == |Messages(s.logs)|
    ensures s.popped == s.written + Count(s.handled, Filtered) + Count(s.handled, OpenFailed)
    ensures !s.alive ==> LogsOf(s.handled) == s.accepted
  {
    hide Messages, LogsOf, Registry;
    ReachableIsSafe(s);
    CountAll(s.handled);
  }

  /** History is never rewritten. */
  lemma HistoryGrows(s: State, op: Op)
    requires Enabled(s, op)
    ensures s.accepted <= Step(s, op).accepted && s.handled <= Step(s, op).handled
  {
    hide Announce, OnHotChange;
    match op {
      case DoStart => AnnounceGrows(PushLog(s.(running := true, alive := true), MAIN_ID, ALARM, "").1, 0);
      case _ =>
    }
  }

  lemma {:induction false} AnnounceGrows(s: State, i: int)
    requires 0 <= i
    ensures s.accepted <= Announce(s, i).accepted && s.handled == Announce(s, i).handled
    decreases s.lastId + 1 - i
  {
    if i <= s.lastId {
      AnnounceGrows(if s.loggers[i].enable then PushLog(s, MAIN_ID, ALARM, "").1 else s, i + 1);
    }
  }

  lemma {:induction false} HistoryGrowsAfter(s: State, ops: seq<Op>)
    requires IsRun(s, ops)
    ensures s.accepted <= After(s, ops).accepted && s.handled <= After(s, ops).handled
    decreases |ops|
  {
    hide Step, Enabled;
    if ops != [] {
      HistoryGrows(s, ops[0]);
      HistoryGrowsAfter(Step(s, ops[0]), ops[1..]);
    }
  }

  /**
   A message accepted while no request for its logger waits is never filtered, whatever happens next:
   once handled it was written or its file failed to open, and once the consumer exits it was handled.
   */
  lemma NoRetroactiveDrop(s: State, id: int, level: int, content: string, ops: seq<Op>)
    requires Reachable(s) && PushLog(s, id, level, content).0 && NoRequests(s.logs, id)
    requires IsRun(PushLog(s, id, level, content).1, ops)
    ensures var t, n := After(PushLog(s, id, level, content).1, ops), |s.accepted|;
            && n < |t.accepted| && t.accepted[n] == LogData(id, General, 0, level, content)
            && (n < |t.handled| ==> t.handled[n].log == t.accepted[n] && t.handled[n].outcome != Filtered)
            && (!t.alive ==> n < |t.handled|)
  {
    hide Messages, Fate, IsRun, After, Reachable, Registry, Count;
    var s1, n := PushLog(s, id, level, content).1, |s.accepted|;
    ReachableIsSafe(s);
    FateWhenAccepted(s.loggers, s.logs, LogData(id, General, 0, level, content));
    PushConserved(s, id, level, content);
    RegistryKept(s, DoPush(id, level, content));
    KeptAfter(s1, n, ops);
    ConservedAfter(s1, ops);
    HistoryGrowsAfter(s1, ops);
  }

  /** Without that condition it can be dropped: behind a queued disable, an accepted message is filtered. */
  lemma QueuedDisableDrops(s: State, id: int, level: int, content: string)
    requires s.alive && s.running && s.logs == [] && ValidId(s, id) && Passes(s.loggers[id], level)
    ensures var s1 := Enable(s, id, false).1;
            PushLog(s1, id, level, content).0 &&
            Consume(Consume(PushLog(s1, id, level, content).1, true), true).handled
            == s.handled + [Handled(LogData(id, General, 0, level, content), Filtered)]
  {
  }

  /** prePushLog predicts exactly what pushLog accepts. */
  lemma PrePushPredicts(s: State, id: int, level: int, content: string)
    ensures PrePushLog(s, id, level) <==> PushLog(s, id, level, content).0
    ensures PrePushLog(s, id, level) <==> ValidId(s, id) && s.running && Passes(s.loggers[id], level)
  {
  }
}
