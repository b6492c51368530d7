/**
 LogerManager of log4z.cpp: the logger registry, the queue that messages and configuration changes
 share, the setters, and the consumer. Each operation is one atomic step from a state to the next.
 */
module LogState {

  /** LOG4Z_LOGGER_MAX, LOG4Z_LOG_BUF_SIZE, LOG4Z_MAIN_LOGGER_ID, LOG4Z_MAIN_LOGGER_KEY, LOG_LEVEL_ALARM */
  const LOGGER_MAX := 10
  const BUF_SIZE := 2048
  const MAIN_ID := 0
  const MAIN_KEY := "Main"
  const ALARM := 5
  const INVALID_ID := -1

  /** enum LogDataType */
  datatype Kind =
    | General
    | EnableLogger
    | SetName
    | SetPath
    | SetLevel
    | SetFileLine
    | SetDisplay
    | SetOutFile
    | SetLimitSize
    | SetMonthDir

  /** struct LogData: an ordinary message (General) or a configuration change for logger id. */
  datatype LogData = LogData(id: int, kind: Kind, typeval: int, level: int, content: string)

  /** The attributes of struct LoggerInfo; limitsize is an unsigned 32-bit number. */
  datatype LoggerInfo = LoggerInfo(
    key: string, name: string, path: string, level: int, display: bool, outfile: bool,
    monthdir: bool, limitsize: nat, enable: bool, fileLine: bool)

  /** What the consumer did with a message it popped. */
  datatype Outcome = Written | Filtered | OpenFailed
  datatype Handled = Handled(log: LogData, outcome: Outcome)

  /**
   The fields of LogerManager, and a history: the messages pushLog accepted, the messages popped with
   their outcome, each logger's record as the accepted requests ask for it, and the loggers that had
   a file fail to open.
   */
  datatype Fields = Fields(
    loggers: seq<LoggerInfo>, ids: map<string, int>, lastId: int, logs: seq<LogData>, running: bool, alive: bool,
    pushed: nat, popped: nat, written: nat,
    accepted: seq<LogData>, handled: seq<Handled>, asked: seq<LoggerInfo>, failed: set<int>)

  predicate Sized(f: Fields) {
    |f.loggers| == LOGGER_MAX && |f.asked| == LOGGER_MAX && 0 <= f.lastId < LOGGER_MAX
  }

  type State = f: Fields | Sized(f) witness Initial("./log/")

  /** A LoggerInfo as constructed. */
  function DefaultLogger(path: string): LoggerInfo {
    LoggerInfo("", "", path, 1, true, true, false, 100, false, true)
  }

  /** The LogerManager constructor; path is LOG4Z_DEFAULT_PATH(). */
  function Initial(path: string): Fields {
    var main := DefaultLogger(path).(enable := true, key := MAIN_KEY, name := MAIN_KEY);
    var loggers := seq(LOGGER_MAX, i => if i == MAIN_ID then main else DefaultLogger(path));
    Fields(loggers, map[MAIN_KEY := MAIN_ID], MAIN_ID, [], false, false, 0, 0, 0, [], [], loggers, {})
  }

  /** Conversions between int and unsigned int, both of 32 bits. */
  const WORD := 0x1_0000_0000

  function ToInt(u: nat): int
    requires u < WORD
  {
    if u < WORD / 2 then u else u - WORD
  }

  function ToUnsigned(i: int): nat {
    i % WORD
  }

  predicate ValidId(s: State, id: int) {
    0 <= id <= s.lastId
  }

  /** createLogger, given the trimmed key. */
  function CreateLogger(s: State, key: string): (r: (int, State)) {
    if key in s.ids then (s.ids[key], s)
    else if s.lastId + 1 >= LOGGER_MAX then (INVALID_ID, s)
    else
      var id := s.lastId + 1;
      (id, s.(lastId := id, ids := s.ids[key := id],
              loggers := s.loggers[id := Created(s.loggers[id], key)],
              asked := s.asked[id := Created(s.asked[id], key)]))
  }

  function Created(g: LoggerInfo, key: string): LoggerInfo {
    g.(enable := true, key := key, name := key)
  }

  /** A message of this level gets past a logger's switch and level. */
  predicate Passes(g: LoggerInfo, level: int) {
    g.enable && level >= g.level
  }

  /** prePushLog */
  predicate PrePushLog(s: State, id: int, level: int) {
    if !ValidId(s, id) || !s.running || !s.loggers[id].enable then false
    else !(level < s.loggers[id].level)
  }

  /** pushLog, given the formatted text. */
  function PushLog(s: State, id: int, level: int, content: string): (r: (bool, State))
    ensures r.1.lastId == s.lastId && r.1.loggers == s.loggers
  {
    if !ValidId(s, id) || !s.running || !s.loggers[id].enable then (false, s)
    else if level < s.loggers[id].level then (false, s)
    else
      var log := LogData(id, General, 0, level, content);
      (true, s.(logs := s.logs + [log], pushed := s.pushed + 1, accepted := s.accepted + [log]))
  }

  /** onHotChange */
  function OnHotChange(g: LoggerInfo, kind: Kind, num: int, text: string): LoggerInfo {
    match kind
    case General => g
    case EnableLogger => g.(enable := num != 0)
    case SetName => g.(name := text)
    case SetPath => g.(path := text)
    case SetLevel => g.(level := num)
    case SetFileLine => g.(fileLine := num != 0)
    case SetDisplay => g.(display := num != 0)
    case SetOutFile => g.(outfile := num != 0)
    case SetLimitSize => g.(limitsize := ToUnsigned(num))
    case SetMonthDir => g.(monthdir := num != 0)
  }

  /** hotChange: queue a request. */
  function HotChange(s: State, id: int, kind: Kind, num: int, text: string): (r: (bool, State)) {
    if !ValidId(s, id) then (false, s)
    else if |text| >= BUF_SIZE then (false, s)
    else
      (true, s.(logs := s.logs + [LogData(id, kind, num, 0, text)],
                asked := s.asked[id := OnHotChange(s.asked[id], kind, num, text)]))
  }

  function Num(on: bool): int {
    if on then 1 else 0
  }

  /** enableLogger */
  function Enable(s: State, id: int, on: bool): (r: (bool, State)) {
    if !ValidId(s, id) then (false, s)
    else
      var s1: State := if on then s.(loggers := s.loggers[id := s.loggers[id].(enable := true)]) else s;
      HotChange(s1, id, EnableLogger, Num(on), "")
  }

  /** setLoggerLevel */
  function ChangeLevel(s: State, id: int, level: int): (r: (bool, State)) {
    if !ValidId(s, id) then (false, s)
    else
      var g := s.loggers[id];
      var s1: State := if level < g.level then s.(loggers := s.loggers[id := g.(level := level)]) else s;
      HotChange(s1, id, SetLevel, level, "")
  }

  /** The attributes whose setters only queue a switch: setLoggerDisplay, OutFile, Monthdir, FileLine. */
  predicate IsSwitch(k: Kind) {
    k.SetDisplay? || k.SetOutFile? || k.SetMonthDir? || k.SetFileLine?
  }

  function ChangeSwitch(s: State, id: int, kind: Kind, on: bool): (r: (bool, State))
    requires IsSwitch(kind)
  {
    HotChange(s, id, kind, Num(on), "")
  }

  /** setLoggerLimitsize */
  function ChangeLimitSize(s: State, id: int, limitsize: nat): (r: (bool, State))
    requires limitsize < WORD
  {
    HotChange(s, id, SetLimitSize, ToInt(if limitsize == 0 then WORD - 1 else limitsize), "")
  }

  /** setLoggerName and setLoggerPath; the latter queues the path as given, without the slash it appends to a copy. */
  function ChangeText(s: State, id: int, kind: Kind, text: string): (r: (bool, State))
    requires kind.SetName? || kind.SetPath?
  {
    if !ValidId(s, id) then (false, s)
    else if text == "" then (false, s)
    else HotChange(s, id, kind, 0, text)
  }

  /**
   start: not to be called while a stopped consumer is still draining. The prologue of run announces every
   enabled logger.
   */
  function Start(s: State): (r: (bool, State))
    requires s.alive ==> s.running
  {
    if s.running then (false, s)
    else
      var s1: State := s.(running := true, alive := true);
      (true, Announce(PushLog(s1, MAIN_ID, ALARM, "").1, 0))
  }

  function Announce(s: State, i: int): State
    requires 0 <= i
    decreases s.lastId + 1 - i
  {
    if i > s.lastId then s
    else Announce(if s.loggers[i].enable then PushLog(s, MAIN_ID, ALARM, "").1 else s, i + 1)
  }

  /** stop, without the wait for the consumer. */
  function Stop(s: State): (r: (bool, State)) {
    if s.running then (true, s.(running := false)) else (false, s)
  }

  /**
   One round of the consumer's inner loop, for a queue that is not empty; openOk says whether the log file can
   be opened.
   */
  function Consume(s: State, openOk: bool): (t: State)
    requires s.logs != []
    ensures t.logs == s.logs[1..]
  {
    var log := s.logs[0];
    var s1: State := s.(logs := s.logs[1..]);
    if !ValidId(s, log.id) then s1
    else
      var g := s.loggers[log.id];
      if !log.kind.General? then s1.(loggers := s.loggers[log.id := OnHotChange(g, log.kind, log.typeval, log.content)])
      else
        var s2: State := s1.(popped := s.popped + 1);
        if !Passes(g, log.level) then s2.(handled := s.handled + [Handled(log, Filtered)])
        else if g.outfile && !openOk then
          s2.(loggers := s.loggers[log.id := g.(outfile := false)], failed := s.failed + {log.id},
              handled := s.handled + [Handled(log, OpenFailed)])
        else s2.(written := s.written + 1, handled := s.handled + [Handled(log, Written)])
  }

  /**
   The inner loop of run, when no producer interferes; openOk tells for each message whether its file can be
   opened.
   */
  function Drained(s: State, openOk: LogData -> bool): State
    decreases |s.logs|
  {
    if s.logs == [] then s else Drained(Consume(s, openOk(s.logs[0])), openOk)
  }

  /** The end of run, entered when the consumer finds itself stopped and the queue empty: switch every logger off. */
  function Exit(s: State): State
    requires s.alive && !s.running && s.logs == []
  {
    s.(alive := false, loggers := SwitchedOff(s.loggers, s.lastId), asked := SwitchedOff(s.asked, s.lastId))
  }

  function SwitchedOff(gs: seq<LoggerInfo>, lastId: int): seq<LoggerInfo> {
    seq(|gs|, i requires 0 <= i < |gs| => if i <= lastId then gs[i].(enable := false) else gs[i])
  }

  /** The atomic steps of producers, configuring threads and the consumer. */
  datatype Op =
    | DoCreate(key: string)
    | DoPush(id: int, level: int, content: string)
    | DoEnable(id: int, on: bool)
    | DoLevel(id: int, level: int)
    | DoSwitch(id: int, kind: Kind, on: bool)
    | DoLimitSize(id: int, limitsize: nat)
    | DoText(id: int, kind: Kind, content: string)
    | DoStart
    | DoStop
    | DoConsume(openOk: bool)
    | DoExit

  predicate Enabled(s: State, op: Op) {
    match op
    case DoSwitch(_, kind, _) => IsSwitch(kind)
    case DoLimitSize(_, n) => n < WORD
    case DoText(_, kind, _) => kind.SetName? || kind.SetPath?
    case DoStart => s.alive ==> s.running
    case DoConsume(_) => s.alive && s.logs != []
    case DoExit => s.alive && !s.running && s.logs == []
    case _ => true
  }

  function Step(s: State, op: Op): State
    requires Enabled(s, op)
  {
    match op
    case DoCreate(key) => CreateLogger(s, key).1
    case DoPush(id, level, content) => PushLog(s, id, level, content).1
    case DoEnable(id, on) => Enable(s, id, on).1
    case DoLevel(id, level) => ChangeLevel(s, id, level).1
    case DoSwitch(id, kind, on) => ChangeSwitch(s, id, kind, on).1
    case DoLimitSize(id, n) => ChangeLimitSize(s, id, n).1
    case DoText(id, kind, text) => ChangeText(s, id, kind, text).1
    case DoStart => Start(s).1
    case DoStop => Stop(s).1
    case DoConsume(openOk) => Consume(s, openOk)
    case DoExit => Exit(s)
  }

  predicate IsRun(s: State, ops: seq<Op>)
    decreases |ops|
  {
    ops == [] || (Enabled(s, ops[0]) && IsRun(Step(s, ops[0]), ops[1..]))
  }

  function After(s: State, ops: seq<Op>): State
    requires IsRun(s, ops)
    decreases |ops|
  {
    if ops == [] then s else After(Step(s, ops[0]), ops[1..])
  }
}
