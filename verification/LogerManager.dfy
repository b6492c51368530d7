/** class LogerManager in its imperative form, each method proved to take the step LogState defines. */
module LogerManagerClass {
  import opened LogState

  class LogerManager {
    const loggers: array<LoggerInfo>
    var ids: map<string, int>
    var lastId: int
    var logs: seq<LogData>
    var running: bool
    var pushed: nat
    var popped: nat
    var written: nat

    ghost var alive: bool
    ghost var accepted: seq<LogData>
    ghost var handled: seq<Handled>
    ghost var asked: seq<LoggerInfo>
    ghost var failed: set<int>

    ghost predicate Valid()
      reads this
    {
      loggers.Length == LOGGER_MAX && |asked| == LOGGER_MAX && 0 <= lastId < LOGGER_MAX
    }

    ghost function View(): State
      reads this, loggers
      requires Valid()
    {
      Fields(loggers[..], ids, lastId, logs, running, alive, pushed, popped, written, accepted, handled, asked, failed)
    }

    constructor (path: string)
      ensures Valid() && fresh(loggers) && View() == Initial(path)
    {
      var main := DefaultLogger(path).(enable := true, key := MAIN_KEY, name := MAIN_KEY);
      loggers := new LoggerInfo[LOGGER_MAX](i => if i == MAIN_ID then main else DefaultLogger(path));
      ids, lastId, logs, running := map[MAIN_KEY := MAIN_ID], MAIN_ID, [], false;
      pushed, popped, written := 0, 0, 0;
      alive, accepted, handled, failed := false, [], [], {};
      asked := Initial(path).loggers;
      new;
      assert loggers[..] == Initial(path).loggers;
    }

    method CreateLogger(key: string) returns (id: int)
      requires Valid()
      modifies this, loggers
      ensures Valid() && (id, View()) == LogState.CreateLogger(old(View()), key)
    {
      if key in ids {
        return ids[key];
      }
      if lastId + 1 >= LOGGER_MAX {
        return INVALID_ID;
      }
      lastId := lastId + 1;
      id := lastId;
      ids := ids[key := id];
      loggers[id] := loggers[id].(enable := true, key := key, name := key);
      asked := asked[id := Created(asked[id], key)];
    }

    method PrePushLog(id: int, level: int) returns (ok: bool)
      requires Valid()
      ensures ok == LogState.PrePushLog(View(), id, level)
    {
      if id < 0 || id > lastId || !running || !loggers[id].enable {
        return false;
      }
      if level < loggers[id].level {
        return false;
      }
      return true;
    }

    method PushLog(id: int, level: int, content: string) returns (ok: bool)
      requires Valid()
      modifies this
      ensures Valid() && (ok, View()) == LogState.PushLog(old(View()), id, level, content)
    {
      if id < 0 || id > lastId || !running || !loggers[id].enable {
        return false;
      }
      if level < loggers[id].level {
        return false;
      }
      var log := LogData(id, General, 0, level, content);
      logs := logs + [log];
      pushed := pushed + 1;
      accepted := accepted + [log];
      return true;
    }

    method HotChange(id: int, kind: Kind, num: int, text: string) returns (ok: bool)
      requires Valid()
      modifies this
      ensures Valid() && (ok, View()) == LogState.HotChange(old(View()), id, kind, num, text)
    {
      if id < 0 || id > lastId {
        return false;
      }
      if |text| >= BUF_SIZE {
        return false;
      }
      logs := logs + [LogData(id, kind, num, 0, text)];
      asked := asked[id := OnHotChange(asked[id], kind, num, text)];
      return true;
    }

    method EnableLogger(id: int, enable: bool) returns (ok: bool)
      requires Valid()
      modifies this, loggers
      ensures Valid() && (ok, View()) == LogState.Enable(old(View()), id, enable)
    {
      hide OnHotChange;
      if id < 0 || id > lastId {
        return false;
      }
      if enable {
        loggers[id] := loggers[id].(enable := true);
      }
      ok := HotChange(id, Kind.EnableLogger, Num(enable), "");
    }

    method SetLoggerLevel(id: int, level: int) returns (ok: bool)
      requires Valid()
      modifies this, loggers
      ensures Valid() && (ok, View()) == LogState.ChangeLevel(old(View()), id, level)
    {
      hide OnHotChange;
      if id < 0 || id > lastId {
        return false;
      }
      if level < loggers[id].level {
        loggers[id] := loggers[id].(level := level);
      }
      ok := HotChange(id, SetLevel, level, "");
    }

    /** setLoggerDisplay, setLoggerOutFile, setLoggerMonthdir and setLoggerFileLine. */
    method SetLoggerSwitch(id: int, kind: Kind, on: bool) returns (ok: bool)
      requires Valid() && IsSwitch(kind)
      modifies this
      ensures Valid() && (ok, View()) == LogState.ChangeSwitch(old(View()), id, kind, on)
    {
      ok := HotChange(id, kind, Num(on), "");
    }

    method SetLoggerLimitsize(id: int, limitsize: nat) returns (ok: bool)
      requires Valid() && limitsize < WORD
      modifies this
      ensures Valid() && (ok, View()) == LogState.ChangeLimitSize(old(View()), id, limitsize)
    {
      var limit := limitsize;
      if limit == 0 {
        limit := WORD - 1;
      }
      ok := HotChange(id, SetLimitSize, ToInt(limit), "");
    }

    method SetLoggerText(id: int, kind: Kind, text: string) returns (ok: bool)
      requires Valid() && (kind.SetName? || kind.SetPath?)
      modifies this
      ensures Valid() && (ok, View()) == LogState.ChangeText(old(View()), id, kind, text)
    {
      if id < 0 || id > lastId {
        return false;
      }
      if |text| == 0 {
        return false;
      }
      ok := HotChange(id, kind, 0, text);
    }

    /** start, with the prologue of run. */
    method Start() returns (ok: bool)
      requires Valid() && (alive ==> running)
      modifies this
      ensures Valid() && (ok, View()) == LogState.Start(old(View()))
    {
      if running {
        return false;
      }
      running, alive := true, true;
      var pushedOk := PushLog(MAIN_ID, ALARM, "");
      var i := 0;
      while i <= lastId
        invariant Valid() && 0 <= i <= lastId + 1
        invariant Announce(View(), i) == LogState.Start(old(View())).1
        decreases LOGGER_MAX - i
      {
        if loggers[i].enable {
          pushedOk := PushLog(MAIN_ID, ALARM, "");
        }
        i := i + 1;
      }
      return true;
    }

    /** stop, without the wait. */
    method Stop() returns (ok: bool)
      requires Valid()
      modifies this
      ensures Valid() && (ok, View()) == LogState.Stop(old(View()))
    {
      if running {
        running := false;
        return true;
      }
      return false;
    }

    /** popLog, then the body of the consumer's inner loop. */
    method ConsumeOne(openOk: bool) returns (found: bool)
      requires Valid()
      modifies this, loggers
      ensures Valid() && found == (old(logs) != [])
      ensures View() == if found then Consume(old(View()), openOk) else old(View())
    {
      hide OnHotChange;
      if |logs| == 0 {
        return false;
      }
      found := true;
      var log := logs[0];
      logs := logs[1..];
      if log.id < 0 || log.id > lastId {
        return;
      }
      if log.kind != General {
        loggers[log.id] := OnHotChange(loggers[log.id], log.kind, log.typeval, log.content);
        return;
      }
      popped := popped + 1;
      var cur := loggers[log.id];
      if !cur.enable || log.level < cur.level {
        handled := handled + [Handled(log, Filtered)];
        return;
      }
      if cur.outfile {
        if !openOk {
          loggers[log.id] := cur.(outfile := false);
          failed := failed + {log.id};
          handled := handled + [Handled(log, OpenFailed)];
          return;
        }
        written := written + 1;
      } else {
        written := written + 1;
      }
      handled := handled + [Handled(log, Written)];
    }

    /**
     The inner loop of run, when no producer interferes; openOk tells for each message whether its file can be
     opened.
     */
    method Drain(openOk: LogData -> bool)
      requires Valid()
      modifies this, loggers
      ensures Valid() && logs == [] && View() == Drained(old(View()), openOk)
    {
      hide Consume;
      while |logs| > 0
        invariant Valid() && Drained(View(), openOk) == Drained(old(View()), openOk)
        decreases |logs|
      {
        var found := ConsumeOne(openOk(logs[0]));
      }
    }

    /** The end of run. */
    method FinishRun()
      requires Valid() && alive && !running && logs == []
      modifies this, loggers
      ensures Valid() && View() == Exit(old(View()))
    {
      var i := 0;
      while i <= lastId
        invariant Valid() && 0 <= i <= lastId + 1
        invariant forall k :: 0 <= k < i ==> loggers[k] == old(loggers[k]).(enable := false)
        invariant forall k :: i <= k < LOGGER_MAX ==> loggers[k] == old(loggers[k])
        invariant unchanged(this)
        decreases LOGGER_MAX - i
      {
        if loggers[i].enable {
          loggers[i] := loggers[i].(enable := false);
        }
        i := i + 1;
      }
      alive := false;
      asked := SwitchedOff(asked, lastId);
      assert loggers[..] == SwitchedOff(old(loggers[..]), lastId);
    }
  }
}
