/**
 The four functions of ReadWriteLock.cpp in their imperative form. Between any two statements, and
 while a call waits, the other threads make the moves of a schedule; each function is proved to be
 the run of the transition system that its statements and the schedule stand for.
 */
module ReadWriteLockCalls {
  import opened Options
  import opened ReadWriteLock

  /** Moves that thread i does not make itself; it may be woken, by notification or spuriously. */
  predicate Others(i: nat, ls: seq<Label>) {
    forall l :: l in ls ==> l.i != i || l.Spurious?
  }

  /** In every turn the others make their moves, then thread i takes a step, notifying w where it notifies. */
  function Turns(i: nat, w: nat, env: seq<seq<Label>>): seq<Label> {
    if env == [] then [] else env[0] + ([Run(i, w)] + Turns(i, w, env[1..]))
  }

  /** The moves made by the end of a call. */
  predicate Schedule(s: State, i: nat, w: nat, first: Label, env: seq<seq<Label>>) {
    && first.i == i && i < |s.pcs| && (forall k :: 0 <= k < |env| ==> Others(i, env[k]))
    && IsRun(s, [first] + Turns(i, w, env))
  }

  lemma {:induction false} RunSplit(s: State, a: seq<Label>, b: seq<Label>)
    ensures IsRun(s, a + b) <==> IsRun(s, a) && IsRun(After(s, a), b)
    ensures IsRun(s, a + b) ==> After(s, a + b) == After(After(s, a), b)
    decreases |a|
  {
    hide Step, Enabled;
    if a == [] {
      assert a + b == b;
    } else {
      assert (a + b)[1..] == a[1..] + b;
      if Enabled(s, a[0]) {
        RunSplit(Step(s, a[0]), a[1..], b);
      }
    }
  }

  lemma OneStep(s: State, l: Label, ls: seq<Label>)
    requires IsRun(s, [l] + ls)
    ensures Enabled(s, l) && IsRun(Step(s, l), ls) && After(s, [l] + ls) == After(Step(s, l), ls)
  {
    hide Step, Enabled;
    assert ([l] + ls)[1..] == ls;
  }

  lemma {:induction false} OthersKeep(s: State, i: nat, ls: seq<Label>)
    requires i < |s.pcs| && IsRun(s, ls) && Others(i, ls)
    ensures var t := After(s, ls);
            |t.pcs| == |s.pcs| && (t.pcs[i] == s.pcs[i] || (s.pcs[i].Sleeping? && t.pcs[i].Woken?))
    decreases |ls|
  {
    hide Step, Enabled;
    if ls != [] {
      assert ls[0] in ls;
      OneKeeps(s, i, ls[0]);
      OthersKeep(Step(s, ls[0]), i, ls[1..]);
    }
  }

  lemma OneKeeps(s: State, i: nat, l: Label)
    requires i < |s.pcs| && Enabled(s, l) && (l.i != i || l.Spurious?)
    ensures var t := Step(s, l);
            |t.pcs| == |s.pcs| && (t.pcs[i] == s.pcs[i] || (s.pcs[i].Sleeping? && t.pcs[i].Woken?))
  {
    hide RunStep, CanRun;
    Moves(s, l);
  }

  /** The schedule from turn k on is a run from s that ends in final. */
  ghost predicate Pending(s: State, i: nat, w: nat, env: seq<seq<Label>>, k: nat, final: State) {
    && i < |s.pcs| && k <= |env| && (forall j :: 0 <= j < |env| ==> Others(i, env[j]))
    && IsRun(s, Turns(i, w, env[k..])) && After(s, Turns(i, w, env[k..])) == final
  }

  /** Thread i takes its step now, and then the schedule goes on with turn k. */
  ghost predicate Ready(s: State, i: nat, w: nat, env: seq<seq<Label>>, k: nat, final: State) {
    Enabled(s, Run(i, w)) && Pending(Step(s, Run(i, w)), i, w, env, k, final)
  }

  /** What thread i finds after the others have moved: itself where it was, or woken. */
  predicate Found(s: State, t: State, i: nat)
    requires i < |s.pcs|
  {
    |t.pcs| == |s.pcs| && (t.pcs[i] == s.pcs[i] || (s.pcs[i].Sleeping? && t.pcs[i].Woken?))
  }

  lemma Turn(s: State, i: nat, w: nat, env: seq<seq<Label>>, k: nat, final: State)
    requires Pending(s, i, w, env, k, final) && k < |env|
    ensures IsRun(s, env[k])
    ensures Found(s, After(s, env[k]), i) && Ready(After(s, env[k]), i, w, env, k + 1, final)
  {
    hide Step, Enabled, IsRun, After;
    var rest := Turns(i, w, env[k + 1..]);
    assert env[k..][0] == env[k] && env[k..][1..] == env[k + 1..];
    RunSplit(s, env[k], [Run(i, w)] + rest);
    OthersKeep(s, i, env[k]);
    OneStep(After(s, env[k]), Run(i, w), rest);
    StepKeepsThreads(After(s, env[k]), Run(i, w));
  }

  lemma StepKeepsThreads(s: State, l: Label)
    requires Enabled(s, l)
    ensures |Step(s, l).pcs| == |s.pcs|
  {
    hide Step;
    Moves(s, l);
  }

  lemma CallStarts(s: State, i: nat, w: nat, first: Label, env: seq<seq<Label>>)
    requires Schedule(s, i, w, first, env)
    ensures Enabled(s, first)
    ensures Pending(Step(s, first), i, w, env, 0, After(s, [first] + Turns(i, w, env)))
  {
    hide Step, Enabled, IsRun, After;
    OneStep(s, first, Turns(i, w, env));
    StepKeepsThreads(s, first);
    assert env[0..] == env;
  }

  lemma ScheduleEnds(s: State, i: nat, w: nat, env: seq<seq<Label>>, final: State)
    requires Pending(s, i, w, env, |env|, final)
    ensures s == final
  {
  }

  /** A thread that is inside takes no more turns. */
  lemma NoTurnLeft(s: State, i: nat, w: nat, env: seq<seq<Label>>, k: nat, final: State)
    requires Pending(s, i, w, env, k, final) && s.pcs[i].Writing?
    ensures k == |env|
  {
    hide IsRun, After, Turns;
    if k < |env| {
      Turn(s, i, w, env, k, final);
    }
  }

  class Lock {
    var numReaders: int
    var writer: Option<nat>
    var num: Option<nat>
    var pcs: seq<Pc>

    function View(): State
      reads this
    {
      State(pcs, numReaders, writer, num)
    }

    constructor (n: nat)
      ensures View() == Init(n)
    {
      numReaders, writer, num := 0, None, None;
      pcs := Init(n).pcs;
    }

    /** The moves of the other threads while this one waits, or merely does not move. */
    method Interfere(ls: seq<Label>)
      requires IsRun(View(), ls)
      modifies this
      ensures View() == After(old(View()), ls)
    {
      hide Step, Enabled;
      for k := 0 to |ls|
        invariant IsRun(View(), ls[k..]) && After(View(), ls[k..]) == After(old(View()), ls)
      {
        assert ls[k..][0] == ls[k] && ls[k..][1..] == ls[k + 1..];
        var t := Step(View(), ls[k]);
        numReaders, writer, num, pcs := t.numReaders, t.writer, t.num, t.pcs;
      }
    }

    /** Turn k of the others. */
    method LetOthers(i: nat, ghost w: nat, env: seq<seq<Label>>, k: nat, ghost final: State)
      requires k < |env| && Pending(View(), i, w, env, k, final)
      modifies this
      ensures i < |old(View()).pcs| && Found(old(View()), View(), i) && Ready(View(), i, w, env, k + 1, final)
    {
      hide IsRun, After, Ready, Found;
      Turn(View(), i, w, env, k, final);
      Interfere(env[k]);
    }

    method AcquireReader(i: nat, ghost w: nat, env: seq<seq<Label>>)
      requires |env| == 4 && Schedule(View(), i, w, Acquire(i, false), env)
      modifies this
      ensures View() == After(old(View()), [Acquire(i, false)] + Turns(i, w, env))
      ensures i < |pcs| && pcs[i].Reading?
    {
      hide IsRun, After, Pending, MayNotify, Turns;
      ghost var final := After(View(), [Acquire(i, false)] + Turns(i, w, env));
      CallStarts(View(), i, w, Acquire(i, false), env);
      pcs := pcs[i := WantBoth];
      LetOthers(i, w, env, 0, final);
      writer, num, pcs := Some(i), Some(i), pcs[i := GotBoth];
      LetOthers(i, w, env, 1, final);
      numReaders, pcs := numReaders + 1, pcs[i := Counted];
      LetOthers(i, w, env, 2, final);
      writer, pcs := None, pcs[i := LeftWriterMutex];
      LetOthers(i, w, env, 3, final);
      num, pcs := None, pcs[i := Reading];
      ScheduleEnds(View(), i, w, env, final);
    }

    method ReleaseReader(i: nat, w: nat, env: seq<seq<Label>>)
      requires |env| == 4 && Schedule(View(), i, w, Release(i), env) && pcs[i].Reading?
      modifies this
      ensures View() == After(old(View()), [Release(i)] + Turns(i, w, env))
      ensures i < |pcs| && pcs[i].Idle?
    {
      hide IsRun, After, Pending, MayNotify, Turns;
      ghost var final := After(View(), [Release(i)] + Turns(i, w, env));
      CallStarts(View(), i, w, Release(i), env);
      pcs := pcs[i := WantCount];
      LetOthers(i, w, env, 0, final);
      num, pcs := Some(i), pcs[i := GotCount];
      LetOthers(i, w, env, 1, final);
      numReaders, pcs := numReaders - 1, pcs[i := Uncounted];
      NotifyAtZero(i, w, env, final);
    }

    /** releaseReader from the test of the counter on; the mutex is unlocked by the guard's destructor. */
    method NotifyAtZero(i: nat, w: nat, env: seq<seq<Label>>, ghost final: State)
      requires |env| == 4 && Pending(View(), i, w, env, 2, final) && pcs[i].Uncounted?
      modifies this
      ensures View() == final && i < |pcs| && pcs[i].Idle?
    {
      hide IsRun, After, Pending, MayNotify, Turns;
      LetOthers(i, w, env, 2, final);
      pcs := pcs[i := Notified];
      if numReaders == 0 {
        pcs := Notify(View(), w).pcs;
      }
      LetOthers(i, w, env, 3, final);
      num, pcs := None, pcs[i := Idle];
      ScheduleEnds(View(), i, w, env, final);
    }

    /** wait without a predicate: release the mutex and sleep, and take it again when woken. */
    method Wait(i: nat, ghost w: nat, env: seq<seq<Label>>, k: nat, ghost final: State)
      requires k <= |env| && i < |pcs| && pcs[i].Checking? && numReaders != 0 && Ready(View(), i, w, env, k, final)
      requires i < |final.pcs| && final.pcs[i].Writing?
      modifies this
      ensures k + 2 <= |env| && i < |pcs| && pcs[i].Checking? && Ready(View(), i, w, env, k + 2, final)
    {
      hide IsRun, After, Pending, MayNotify, Turns;
      num, pcs := None, pcs[i := Sleeping];
      StillToGo(View(), i, w, env, k, final);
      LetOthers(i, w, env, k, final);
      num, pcs := Some(i), pcs[i := Checking];
      StillToGo(View(), i, w, env, k + 1, final);
      LetOthers(i, w, env, k + 1, final);
    }

    /** The loop is that of wait with a predicate: look, wait, look again. */
    method AcquireWriter(i: nat, ghost w: nat, env: seq<seq<Label>>)
      requires Schedule(View(), i, w, Acquire(i, true), env)
      requires var t := After(View(), [Acquire(i, true)] + Turns(i, w, env)); i < |t.pcs| && t.pcs[i].Writing?
      modifies this
      ensures View() == After(old(View()), [Acquire(i, true)] + Turns(i, w, env))
      ensures i < |pcs| && pcs[i].Writing?
    {
      hide IsRun, After, Pending, MayNotify, Turns;
      ghost var final := After(View(), [Acquire(i, true)] + Turns(i, w, env));
      CallStarts(View(), i, w, Acquire(i, true), env);
      pcs := pcs[i := WriterWantBoth];
      StillToGo(View(), i, w, env, 0, final);
      LetOthers(i, w, env, 0, final);
      writer, num, pcs := Some(i), Some(i), pcs[i := Checking];
      StillToGo(View(), i, w, env, 1, final);
      LetOthers(i, w, env, 1, final);
      var k := 2;
      while numReaders != 0
        invariant k <= |env| && i < |pcs| && pcs[i].Checking? && Ready(View(), i, w, env, k, final)
        decreases |env| - k
      {
        Wait(i, w, env, k, final);
        k := k + 2;
      }
      pcs := pcs[i := Writing];
      NoTurnLeft(View(), i, w, env, k, final);
      ScheduleEnds(View(), i, w, env, final);
    }

    method ReleaseWriter(i: nat, w: nat, env: seq<seq<Label>>)
      requires |env| == 3 && Schedule(View(), i, w, Release(i), env) && pcs[i].Writing?
      modifies this
      ensures View() == After(old(View()), [Release(i)] + Turns(i, w, env))
      ensures i < |pcs| && pcs[i].Idle?
    {
      hide IsRun, After, Pending, MayNotify, Turns;
      ghost var final := After(View(), [Release(i)] + Turns(i, w, env));
      CallStarts(View(), i, w, Release(i), env);
      pcs := pcs[i := Releasing];
      LetOthers(i, w, env, 0, final);
      pcs := pcs[i := ReleaseNotified];
      pcs := Notify(View(), w).pcs;
      LetOthers(i, w, env, 1, final);
      writer, pcs := None, pcs[i := ReleaseLeftWriter];
      LetOthers(i, w, env, 2, final);
      num, pcs := None, pcs[i := Idle];
      ScheduleEnds(View(), i, w, env, final);
    }
  }

  /** A schedule that lets thread i write in the end has turns left while it does not. */
  lemma StillToGo(s: State, i: nat, w: nat, env: seq<seq<Label>>, k: nat, final: State)
    requires Pending(s, i, w, env, k, final) && i < |final.pcs| && final.pcs[i].Writing? && !s.pcs[i].Writing?
    ensures k < |env|
  {
    if k == |env| {
      ScheduleEnds(s, i, w, env, final);
    }
  }
}
