/** What the single operations of the log manager do at once, in the numbers log4z.h and log4z.cpp give. */
module LogEffects {
  import opened LogState
  import opened LogSafety

  /** A new manager: the logger Main has id 0 and is enabled, the other nine records wait for their keys. */
  lemma NewManager(path: string, i: nat)
    requires i < 10
    ensures var s := Initial(path); var g := s.loggers[i];
            && |s.loggers| == 10 && s.ids == map["Main" := 0] && s.lastId == 0
            && s.logs == [] && !s.running && !s.alive && s.pushed == s.popped == s.written == 0
            && g.path == path && g.level == 1 && g.limitsize == 100
            && g.display && g.outfile && !g.monthdir && g.fileLine
            && g.enable == (i == 0) && g.key == g.name == if i == 0 then "Main" else ""
  {
  }

  /** createLogger: a known key keeps its id, an eleventh is refused, a new one gets the next id and is enabled. */
  lemma CreateGivesLoggers(s: State, key: string)
    ensures key in s.ids ==> CreateLogger(s, key) == (s.ids[key], s)
    ensures key !in s.ids && s.lastId == 9 ==> CreateLogger(s, key) == (-1, s)
    ensures key !in s.ids && s.lastId < 9 ==>
              var (id, t) := CreateLogger(s, key);
              && id == s.lastId + 1 == t.lastId && t.ids == s.ids[key := id] && t.logs == s.logs
              && t.loggers[id].enable && t.loggers[id].key == key && t.loggers[id].name == key
              && t.loggers[id].level == s.loggers[id].level
              && (forall j :: 0 <= j < 10 && j != id ==> t.loggers[j] == s.loggers[j])
              && (t.running ==> forall level :: level >= t.loggers[id].level ==> PrePushLog(t, id, level))
  {
  }

  /** Enabling takes effect at once; disabling changes no record yet. */
  lemma EnableEffects(s: State, id: int)
    requires 0 <= id <= s.lastId
    ensures Enable(s, id, true).1.loggers == s.loggers[id := s.loggers[id].(enable := true)]
    ensures Enable(s, id, false).1.loggers == s.loggers
    ensures forall level :: s.running && level >= s.loggers[id].level ==> PrePushLog(Enable(s, id, true).1, id, level)
    ensures forall level :: PrePushLog(Enable(s, id, false).1, id, level) <==> PrePushLog(s, id, level)
  {
  }

  /** Lowering the level takes effect at once; raising it changes no record yet. */
  lemma LevelEffects(s: State, id: int, level: int)
    requires 0 <= id <= s.lastId
    ensures var low := if level < s.loggers[id].level then level else s.loggers[id].level;
            ChangeLevel(s, id, level).1.loggers == s.loggers[id := s.loggers[id].(level := low)]
  {
    assert s.loggers[id := s.loggers[id]] == s.loggers;
  }

  /** Every accepted request is queued, last, with its kind and its argument; no other setter touches a record. */
  lemma RequestsAreQueued(s: State, id: int, kind: Kind, on: bool, level: int, limit: nat, text: string)
    requires 0 <= id <= s.lastId && IsSwitch(kind) && limit < 0x1_0000_0000
    ensures Enable(s, id, on).1.logs == s.logs + [LogData(id, EnableLogger, if on then 1 else 0, 0, "")]
    ensures ChangeLevel(s, id, level).1.logs == s.logs + [LogData(id, SetLevel, level, 0, "")]
    ensures ChangeSwitch(s, id, kind, on).1.logs == s.logs + [LogData(id, kind, if on then 1 else 0, 0, "")]
    ensures ChangeSwitch(s, id, kind, on).1.loggers == s.loggers
    ensures ChangeLimitSize(s, id, limit).1.loggers == s.loggers
    ensures var n := if limit == 0 then -1 else if limit < 0x8000_0000 then limit else limit - 0x1_0000_0000;
            ChangeLimitSize(s, id, limit).1.logs == s.logs + [LogData(id, SetLimitSize, n, 0, "")]
    ensures 0 < |text| < 2048 ==> ChangeText(s, id, SetName, text).1.logs == s.logs + [LogData(id, SetName, 0, 0, text)]
    ensures 0 < |text| < 2048 ==> ChangeText(s, id, SetPath, text).1.logs == s.logs + [LogData(id, SetPath, 0, 0, text)]
    ensures !(0 < |text| < 2048) ==> ChangeText(s, id, SetName, text) == ChangeText(s, id, SetPath, text) == (false, s)
  {
  }

  /** An id outside 0..lastId is refused by every operation, and nothing changes. */
  lemma UnknownIdsAreRefused(s: State, id: int, kind: Kind, on: bool, level: int, limit: nat, text: string)
    requires (id < 0 || id > s.lastId) && IsSwitch(kind) && limit < 0x1_0000_0000
    ensures PushLog(s, id, level, text) == Enable(s, id, on) == ChangeLevel(s, id, level) == (false, s)
    ensures ChangeSwitch(s, id, kind, on) == ChangeLimitSize(s, id, limit) == (false, s)
    ensures ChangeText(s, id, SetName, text) == ChangeText(s, id, SetPath, text) == (false, s)
    ensures !PrePushLog(s, id, level)
  {
  }

  function EnabledFrom(s: State, i: int): nat
    requires 0 <= i
    decreases s.lastId + 1 - i
  {
    if i > s.lastId then 0 else (if s.loggers[i].enable then 1 else 0) + EnabledFrom(s, i + 1)
  }

  function Announcements(k: nat): seq<LogData> {
    if k == 0 then [] else [LogData(0, General, 0, 5, "")] + Announcements(k - 1)
  }

  lemma {:induction false} AnnouncementsAdd(k: nat)
    ensures Announcements(k) + [LogData(0, General, 0, 5, "")] == Announcements(k + 1)
  {
    if k > 0 {
      AnnouncementsAdd(k - 1);
    }
  }

  lemma {:induction false} AnnounceQueues(s: State, i: int)
    requires 0 <= i && s.running && Passes(s.loggers[0], 5)
    ensures Announce(s, i).logs == s.logs + Announcements(EnabledFrom(s, i))
    decreases s.lastId + 1 - i
  {
    if i <= s.lastId {
      var t := if s.loggers[i].enable then PushLog(s, MAIN_ID, ALARM, "").1 else s;
      AnnounceQueues(t, i + 1);
      SameEnabled(s, t, i + 1);
      if s.loggers[i].enable {
        assert t.logs == s.logs + [LogData(0, General, 0, 5, "")];
        var n := EnabledFrom(s, i + 1);
        assert Announcements(1 + n) == [LogData(0, General, 0, 5, "")] + Announcements(n);
      }
    }
  }

  lemma {:induction false} SameEnabled(s: State, t: State, i: int)
    requires 0 <= i && t.loggers == s.loggers && t.lastId == s.lastId
    ensures EnabledFrom(t, i) == EnabledFrom(s, i)
    decreases s.lastId + 1 - i
  {
    if i <= s.lastId {
      SameEnabled(s, t, i + 1);
    }
  }

  /** start announces the thread and every enabled logger on Main, at level 5; a second start is refused. */
  lemma StartAnnounces(s: State)
    requires s.alive ==> s.running
    ensures s.running ==> Start(s) == (false, s)
    ensures !s.running ==> Start(s).0 && Start(s).1.running && Start(s).1.alive && Start(s).1.loggers == s.loggers
    ensures !s.running && Passes(s.loggers[0], 5) ==> Start(s).1.logs == s.logs + Announcements(1 + EnabledFrom(s, 0))
  {
    hide Passes;
    if !s.running {
      var s1: State := s.(running := true, alive := true);
      var s2 := PushLog(s1, MAIN_ID, ALARM, "").1;
      AnnounceOnlyQueues(s2, 0);
      if Passes(s.loggers[0], 5) {
        FirstAnnouncement(s1);
        AnnounceQueues(s2, 0);
        SameEnabled(s, s2, 0);
        var n := EnabledFrom(s, 0);
        assert Announcements(1 + n) == [LogData(0, General, 0, 5, "")] + Announcements(n);
      }
    }
  }

  lemma FirstAnnouncement(s: State)
    requires s.running && Passes(s.loggers[0], 5)
    ensures PushLog(s, MAIN_ID, ALARM, "").1 ==
            s.(logs := s.logs + [LogData(0, General, 0, 5, "")], pushed := s.pushed + 1,
               accepted := s.accepted + [LogData(0, General, 0, 5, "")])
  {
  }

  /** stop refuses new messages at once; at the end of run every logger is off. */
  lemma StopAndExit(s: State, id: int, level: int, content: string)
    ensures Stop(s).0 == s.running && Stop(s).1 == s.(running := false)
    ensures !PushLog(Stop(s).1, id, level, content).0
    ensures s.alive && !s.running && s.logs == [] && 0 <= id <= s.lastId ==>
              !Exit(s).alive && !Exit(s).loggers[id].enable && Exit(s).loggers[id] == s.loggers[id].(enable := false)
  {
  }
}
