/**
 Hot changes: the current record of a logger, with the queued requests applied to it, is always the
 record the accepted requests ask for.
 */
module LogHotChange {
  import opened LogState
  import opened LogSafety

  /** A record after the queued requests for its logger. */
  function Replay(g: LoggerInfo, q: seq<LogData>, id: int): LoggerInfo
    decreases |q|
  {
    if q == [] then g
    else Replay(if q[0].id == id then OnHotChange(g, q[0].kind, q[0].typeval, q[0].content) else g, q[1..], id)
  }

  lemma {:induction false} ReplayAppend(g: LoggerInfo, q: seq<LogData>, id: int, d: LogData)
    ensures Replay(g, q + [d], id)
            == if d.id == id then OnHotChange(Replay(g, q, id), d.kind, d.typeval, d.content) else Replay(g, q, id)
    decreases |q|
  {
    hide OnHotChange;
    if q == [] {
      assert (q + [d])[1..] == [];
    } else {
      assert (q + [d])[1..] == q[1..] + [d];
      ReplayAppend(if q[0].id == id then OnHotChange(g, q[0].kind, q[0].typeval, q[0].content) else g, q[1..], id, d);
    }
  }

  // ---- per attribute, the last request wins ----

  datatype Value = Text(s: string) | Switch(on: bool) | Number(n: int)

  /** The attribute a request of this kind sets. */
  function Attribute(g: LoggerInfo, kind: Kind): Value
    requires !kind.General?
  {
    match kind
    case EnableLogger => Switch(g.enable)
    case SetName => Text(g.name)
    case SetPath => Text(g.path)
    case SetLevel => Number(g.level)
    case SetFileLine => Switch(g.fileLine)
    case SetDisplay => Switch(g.display)
    case SetOutFile => Switch(g.outfile)
    case SetLimitSize => Number(g.limitsize)
    case SetMonthDir => Switch(g.monthdir)
  }

  /** The value a request asks for. */
  function Requested(d: LogData): Value
    requires !d.kind.General?
  {
    match d.kind
    case SetName => Text(d.content)
    case SetPath => Text(d.content)
    case SetLevel => Number(d.typeval)
    case SetLimitSize => Number(ToUnsigned(d.typeval))
    case _ => Switch(d.typeval != 0)
  }

  /** The last request in a queue for this attribute of a logger, if there is one. */
  function LastRequest(q: seq<LogData>, id: int, kind: Kind): (r: seq<LogData>)
    ensures r != [] ==> r[0].kind == kind && r[0].id == id
  {
    if q == [] then []
    else if q[|q| - 1].id == id && q[|q| - 1].kind == kind then [q[|q| - 1]]
    else LastRequest(q[..|q| - 1], id, kind)
  }

  lemma {:induction false} LastRequestWins(g: LoggerInfo, q: seq<LogData>, id: int, kind: Kind)
    requires !kind.General?
    ensures var last := LastRequest(q, id, kind);
            Attribute(Replay(g, q, id), kind)
            == if last == [] then Attribute(g, kind) else Requested(last[0])
  {
    if q != [] {
      var n := |q| - 1;
      LastRequestWins(g, q[..n], id, kind);
      ReplayAppend(g, q[..n], id, q[n]);
      assert q[..n] + [q[n]] == q;
      OneRequest(Replay(g, q[..n], id), q[n], kind);
    }
  }

  lemma OneRequest(g: LoggerInfo, d: LogData, kind: Kind)
    requires !kind.General?
    ensures Attribute(OnHotChange(g, d.kind, d.typeval, d.content), kind)
            == if d.kind == kind then Requested(d) else Attribute(g, kind)
  {
  }

  // ---- consistency ----

  /** g is the record asked for, except that outfile may have been switched off by a file that failed to open. */
  predicate Agrees(g: LoggerInfo, want: LoggerInfo, failed: bool) {
    g == want || (failed && g == want.(outfile := false))
  }

  predicate Consistent(s: State) {
    forall i :: 0 <= i < LOGGER_MAX ==> Agrees(Replay(s.loggers[i], s.logs, i), s.asked[i], i in s.failed)
  }

  /** A change made at once that the request behind it repeats does no harm. */
  lemma EnableSet(g: LoggerInfo, kind: Kind, num: int, text: string, on: bool)
    ensures OnHotChange(g.(enable := on), kind, num, text)
            == if kind.EnableLogger? then OnHotChange(g, kind, num, text)
               else OnHotChange(g, kind, num, text).(enable := on)
  {
  }

  lemma {:induction false} EnableErased(g: LoggerInfo, q: seq<LogData>, id: int, on: bool)
    ensures Replay(g.(enable := on), q, id).(enable := on) == Replay(g, q, id).(enable := on)
    decreases |q|
  {
    hide OnHotChange;
    if q != [] {
      var d := q[0];
      EnableSet(g, d.kind, d.typeval, d.content, on);
      EnableErased(if d.id == id then OnHotChange(g, d.kind, d.typeval, d.content) else g, q[1..], id, on);
    }
  }

  lemma LevelSet(g: LoggerInfo, kind: Kind, num: int, text: string, level: int)
    ensures OnHotChange(g.(level := level), kind, num, text)
            == if kind.SetLevel? then OnHotChange(g, kind, num, text)
               else OnHotChange(g, kind, num, text).(level := level)
  {
  }

  lemma {:induction false} LevelErased(g: LoggerInfo, q: seq<LogData>, id: int, level: int)
    ensures Replay(g.(level := level), q, id).(level := level) == Replay(g, q, id).(level := level)
    decreases |q|
  {
    hide OnHotChange;
    if q != [] {
      var d := q[0];
      LevelSet(g, d.kind, d.typeval, d.content, level);
      LevelErased(if d.id == id then OnHotChange(g, d.kind, d.typeval, d.content) else g, q[1..], id, level);
    }
  }

  /** A failed open shows only until the next outfile request. */
  lemma OutFileSet(g: LoggerInfo, kind: Kind, num: int, text: string)
    ensures OnHotChange(g.(outfile := false), kind, num, text)
            == if kind.SetOutFile? then OnHotChange(g, kind, num, text)
               else OnHotChange(g, kind, num, text).(outfile := false)
  {
  }

  lemma {:induction false} OutFileErased(g: LoggerInfo, q: seq<LogData>, id: int)
    ensures var off := Replay(g.(outfile := false), q, id);
            off == Replay(g, q, id) || off == Replay(g, q, id).(outfile := false)
    decreases |q|
  {
    hide OnHotChange;
    if q != [] {
      var d := q[0];
      OutFileSet(g, d.kind, d.typeval, d.content);
      OutFileErased(if d.id == id then OnHotChange(g, d.kind, d.typeval, d.content) else g, q[1..], id);
    }
  }

  lemma AgreesStill(g: LoggerInfo, want: LoggerInfo, failed: bool, kind: Kind, num: int, text: string)
    requires Agrees(g, want, failed)
    ensures Agrees(OnHotChange(g, kind, num, text), OnHotChange(want, kind, num, text), failed)
  {
  }

  /** Queueing a request. */
  lemma ConsistentByChange(s: State, id: int, kind: Kind, num: int, text: string)
    requires Consistent(s)
    ensures Consistent(HotChange(s, id, kind, num, text).1)
  {
    hide Replay, OnHotChange, Agrees;
    var t, d := HotChange(s, id, kind, num, text).1, LogData(id, kind, num, 0, text);
    forall i | 0 <= i < LOGGER_MAX ensures Agrees(Replay(t.loggers[i], t.logs, i), t.asked[i], i in t.failed) {
      ReplayAppend(s.loggers[i], s.logs, i, d);
      AgreesStill(Replay(s.loggers[i], s.logs, i), s.asked[i], i in s.failed, kind, num, text);
    }
  }

  /** Enabling or lowering at once as well. */
  lemma ConsistentByImmediate(s: State, id: int, g: LoggerInfo, kind: Kind, num: int)
    requires Consistent(s) && ValidId(s, id)
    requires (kind.EnableLogger? && g == s.loggers[id].(enable := num != 0)) ||
             (kind.SetLevel? && g == s.loggers[id].(level := num))
    ensures Consistent(HotChange(s.(loggers := s.loggers[id := g]), id, kind, num, "").1)
  {
    hide Replay;
    var s1: State := s.(loggers := s.loggers[id := g]);
    var t, d := HotChange(s1, id, kind, num, "").1, LogData(id, kind, num, 0, "");
    forall i | 0 <= i < LOGGER_MAX ensures Agrees(Replay(t.loggers[i], t.logs, i), t.asked[i], i in t.failed) {
      ReplayAppend(s1.loggers[i], s.logs, i, d);
      if i == id {
        if kind.EnableLogger? {
          EnableErased(s.loggers[i], s.logs, i, num != 0);
        } else {
          LevelErased(s.loggers[i], s.logs, i, num);
        }
      }
    }
  }

  /** Queueing a message. */
  lemma ConsistentByPush(s: State, id: int, level: int, content: string)
    requires Consistent(s)
    ensures Consistent(PushLog(s, id, level, content).1)
  {
    hide Replay, Agrees;
    var t := PushLog(s, id, level, content).1;
    forall i | 0 <= i < LOGGER_MAX ensures Agrees(Replay(t.loggers[i], t.logs, i), t.asked[i], i in t.failed) {
      ReplayAppend(s.loggers[i], s.logs, i, LogData(id, General, 0, level, content));
    }
  }

  lemma {:induction false} ConsistentByAnnounce(s: State, i: int)
    requires Consistent(s) && 0 <= i
    ensures Consistent(Announce(s, i))
    decreases s.lastId + 1 - i
  {
    hide Consistent;
    if i <= s.lastId {
      ConsistentByPush(s, MAIN_ID, ALARM, "");
      ConsistentByAnnounce(if s.loggers[i].enable then PushLog(s, MAIN_ID, ALARM, "").1 else s, i + 1);
    }
  }

  lemma ConsistentByStart(s: State)
    requires Consistent(s) && (s.alive ==> s.running)
    ensures Consistent(Start(s).1)
  {
    hide PushLog, Announce, Replay, Agrees;
    if !s.running {
      var s1: State := s.(running := true, alive := true);
      ConsistentByPush(s1, MAIN_ID, ALARM, "");
      ConsistentByAnnounce(PushLog(s1, MAIN_ID, ALARM, "").1, 0);
    }
  }

  lemma ConsistentByConsumer(s: State, openOk: bool)
    requires Consistent(s) && Conserved(s) && s.logs != []
    ensures Consistent(Consume(s, openOk))
  {
    hide OnHotChange, Messages, LogsOf, Count;
    var t, d := Consume(s, openOk), s.logs[0];
    assert d in s.logs;
    forall i | 0 <= i < LOGGER_MAX ensures Agrees(Replay(t.loggers[i], t.logs, i), t.asked[i], i in t.failed) {
      PopOne(s.loggers[i], s.logs, i);
      OutFileErased(s.loggers[i], t.logs, i);
    }
  }

  lemma PopOne(g: LoggerInfo, q: seq<LogData>, id: int)
    requires q != []
    ensures Replay(g, q, id)
            == if q[0].id == id && !q[0].kind.General?
               then Replay(OnHotChange(g, q[0].kind, q[0].typeval, q[0].content), q[1..], id)
               else Replay(g, q[1..], id)
  {
  }

  /** Requests name existing loggers only, so a logger about to be created has none waiting. */
  lemma {:induction false} NoneWaiting(g: LoggerInfo, q: seq<LogData>, id: int)
    requires forall d :: d in q ==> d.id != id
    ensures Replay(g, q, id) == g
  {
    if q != [] {
      assert q[0] in q;
      NoneWaiting(g, q[1..], id);
    }
  }

  lemma ConsistentByCreate(s: State, key: string)
    requires Consistent(s) && Conserved(s)
    ensures Consistent(CreateLogger(s, key).1)
  {
    hide Replay, Messages, LogsOf, Count;
    var t := CreateLogger(s, key).1;
    var id := s.lastId + 1;
    forall i | 0 <= i < LOGGER_MAX ensures Agrees(Replay(t.loggers[i], t.logs, i), t.asked[i], i in t.failed) {
      if i == id {
        NoneWaiting(s.loggers[i], s.logs, i);
        NoneWaiting(t.loggers[i], s.logs, i);
      }
    }
  }

  lemma ConsistentByExit(s: State)
    requires Consistent(s) && s.alive && !s.running && s.logs == []
    ensures Consistent(Exit(s))
  {
    var t := Exit(s);
    forall i | 0 <= i < LOGGER_MAX ensures Agrees(Replay(t.loggers[i], t.logs, i), t.asked[i], i in t.failed) {
      assert Agrees(Replay(s.loggers[i], s.logs, i), s.asked[i], i in s.failed);
    }
  }

  lemma StaysConsistent(s: State, op: Op)
    requires Consistent(s) && Conserved(s) && Enabled(s, op)
    ensures Consistent(Step(s, op))
  {
    hide Consistent, Conserved, HotChange, PushLog, Consume, Start, Exit, CreateLogger;
    match op {
      case DoCreate(key) => ConsistentByCreate(s, key);
      case DoPush(id, level, content) => ConsistentByPush(s, id, level, content);
      case DoEnable(id, on) =>
        if ValidId(s, id) {
          ConsistentByChange(s, id, EnableLogger, Num(on), "");
          ConsistentByImmediate(s, id, s.loggers[id].(enable := on), EnableLogger, Num(on));
        }
      case DoLevel(id, level) =>
        if ValidId(s, id) {
          ConsistentByChange(s, id, SetLevel, level, "");
          ConsistentByImmediate(s, id, s.loggers[id].(level := level), SetLevel, level);
        }
      case DoSwitch(id, kind, on) => ConsistentByChange(s, id, kind, Num(on), "");
      case DoLimitSize(id, n) => ConsistentByChange(s, id, SetLimitSize, ToInt(if n == 0 then WORD - 1 else n), "");
      case DoText(id, kind, text) => ConsistentByChange(s, id, kind, 0, text);
      case DoStart => ConsistentByStart(s);
      case DoStop => ConsistentByStop(s);
      case DoConsume(openOk) => ConsistentByConsumer(s, openOk);
      case DoExit => ConsistentByExit(s);
    }
  }

  lemma ConsistentByStop(s: State)
    requires Consistent(s)
    ensures Consistent(Stop(s).1)
  {
    hide Replay, Agrees;
  }

  lemma {:induction false} ConsistentAfter(s: State, ops: seq<Op>)
    requires Consistent(s) && Conserved(s) && IsRun(s, ops)
    ensures Consistent(After(s, ops))
    decreases |ops|
  {
    hide Consistent, Conserved, Step, Enabled;
    if ops != [] {
      StaysConsistent(s, ops[0]);
      Conserves(s, ops[0]);
      ConsistentAfter(Step(s, ops[0]), ops[1..]);
    }
  }

  /**
   In every reachable state, for every logger: the record with the waiting requests applied is the
   record asked for, outfile excepted where a file failed to open.
   */
  lemma HotChangesConverge(s: State)
    requires Reachable(s)
    ensures Consistent(s)
  {
    hide IsRun, After, Replay;
    var path: string, ops: seq<Op> :| IsRun(Initial(path), ops) && After(Initial(path), ops) == s;
    EmptyReplay();
    ConsistentAfter(Initial(path), ops);
  }

  lemma EmptyReplay()
    ensures forall g, id :: Replay(g, [], id) == g
  {
  }

  /** So with no request waiting for it, a logger's record is up to date. */
  lemma {:induction false} UpToDate(s: State, id: int)
    requires Reachable(s) && 0 <= id < LOGGER_MAX && NoRequests(s.logs, id)
    ensures Agrees(s.loggers[id], s.asked[id], id in s.failed)
  {
    HotChangesConverge(s);
    NothingToReplay(s.loggers[id], s.logs, id);
  }

  lemma {:induction false} NothingToReplay(g: LoggerInfo, q: seq<LogData>, id: int)
    requires NoRequests(q, id)
    ensures Replay(g, q, id) == g
  {
    if q != [] {
      NothingToReplay(g, q[1..], id);
    }
  }

  /** setLoggerLimitsize: the unsigned limit survives its trip through an int; 0 means the largest limit. */
  lemma LimitSizeArrives(g: LoggerInfo, limitsize: nat)
    requires limitsize < WORD
    ensures OnHotChange(g, SetLimitSize, ToInt(limitsize), "").limitsize == limitsize
  {
  }

  /** What is asked for: each accepted setter call sets its own attribute to its argument. */
  lemma AskedByNumbers(s: State, id: int, on: bool, level: int, limitsize: nat)
    requires ValidId(s, id) && limitsize < WORD
    ensures Enable(s, id, on).0 && Enable(s, id, on).1.asked == s.asked[id := s.asked[id].(enable := on)]
    ensures ChangeLevel(s, id, level).0 && ChangeLevel(s, id, level).1.asked ==
            s.asked[id := s.asked[id].(level := level)]
    ensures ChangeLimitSize(s, id, limitsize).1.asked
            == s.asked[id := s.asked[id].(limitsize := if limitsize == 0 then WORD - 1 else limitsize)]
  {
  }

  lemma AskedByOthers(s: State, id: int, k: Kind, on: bool, text: string)
    requires ValidId(s, id) && IsSwitch(k)
    ensures ChangeSwitch(s, id, k, on).0 && Attribute(ChangeSwitch(s, id, k, on).1.asked[id], k) == Switch(on)
    ensures ChangeText(s, id, SetName, text).0 <==> 0 < |text| < BUF_SIZE
    ensures 0 < |text| < BUF_SIZE ==>
     ChangeText(s, id, SetName, text).1.asked == s.asked[id := s.asked[id].(name := text)]
    ensures 0 < |text| < BUF_SIZE ==>
     ChangeText(s, id, SetPath, text).1.asked == s.asked[id := s.asked[id].(path := text)]
  {
  }
}
