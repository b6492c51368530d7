/**
 ReadWriteLock.cpp as a transition system: any number of threads, each somewhere inside one of the
 four calls, sharing two mutexes, a counter and a condition variable. std::lock takes both mutexes in
 one step; wait releases and sleeps in one step, and takes the mutex again after waking.
 */
module ReadWriteLock {
  import opened Options

  /** Where a thread stands. The names tell what it does next, or what it has just done. */
  datatype Pc =
    | Idle
    // acquireReader
    | WantBoth | GotBoth | Counted | LeftWriterMutex
    | Reading
    // releaseReader
    | WantCount | GotCount | Uncounted | Notified
    // acquireWriter
    | WriterWantBoth | Checking | Sleeping | Woken
    | Writing
    // releaseWriter
    | Releasing | ReleaseNotified | ReleaseLeftWriter

  /** writer and num are the owners of mtx_writer_ and mtx_numReaders_. */
  datatype State = State(pcs: seq<Pc>, numReaders: int, writer: Option<nat>, num: Option<nat>)

  /** Acquire and Release are the callers' moves; Run is a step inside a call, notifying thread w where it notifies. */
  datatype Label = Acquire(i: nat, forWriting: bool) | Release(i: nat) | Run(i: nat, w: nat) | Spurious(i: nat)

  function Init(n: nat): State {
    State(seq(n, _ => Idle), 0, None, None)
  }

  /** notify_one wakes some sleeper when there is one. */
  predicate MayNotify(s: State, w: nat) {
    (exists j :: 0 <= j < |s.pcs| && s.pcs[j].Sleeping?) ==> w < |s.pcs| && s.pcs[w].Sleeping?
  }

  predicate CanRun(s: State, i: nat, w: nat)
    requires i < |s.pcs|
  {
    match s.pcs[i]
    case Idle => false
    case Reading => false
    case Writing => false
    case Sleeping => false
    case WantBoth => s.writer.None? && s.num.None?
    case WriterWantBoth => s.writer.None? && s.num.None?
    case WantCount => s.num.None?
    case Woken => s.num.None?
    case Uncounted => s.numReaders == 0 ==> MayNotify(s, w)
    case Releasing => MayNotify(s, w)
    case _ => true
  }

  predicate Enabled(s: State, l: Label) {
    l.i < |s.pcs| &&
    match l
    case Acquire(i, _) => s.pcs[i].Idle?
    case Release(i) => s.pcs[i].Reading? || s.pcs[i].Writing?
    case Run(i, w) => CanRun(s, i, w)
    case Spurious(i) => s.pcs[i].Sleeping?
  }

  function Goto(s: State, i: nat, p: Pc): State
    requires i < |s.pcs|
  {
    s.(pcs := s.pcs[i := p])
  }

  function Notify(s: State, w: nat): State {
    if w < |s.pcs| && s.pcs[w].Sleeping? then Goto(s, w, Woken) else s
  }

  /** One step inside a call. */
  function RunStep(s: State, i: nat, w: nat): State
    requires i < |s.pcs| && CanRun(s, i, w)
  {
    match s.pcs[i]
    case WantBoth => Goto(s, i, GotBoth).(writer := Some(i), num := Some(i))
    case GotBoth => Goto(s, i, Counted).(numReaders := s.numReaders + 1)
    case Counted => Goto(s, i, LeftWriterMutex).(writer := None)
    case LeftWriterMutex => Goto(s, i, Reading).(num := None)
    case WantCount => Goto(s, i, GotCount).(num := Some(i))
    case GotCount => Goto(s, i, Uncounted).(numReaders := s.numReaders - 1)
    case Uncounted => if s.numReaders == 0 then Notify(Goto(s, i, Notified), w) else Goto(s, i, Notified)
    case Notified => Goto(s, i, Idle).(num := None)
    case WriterWantBoth => Goto(s, i, Checking).(writer := Some(i), num := Some(i))
    case Checking => if s.numReaders == 0 then Goto(s, i, Writing) else Goto(s, i, Sleeping).(num := None)
    case Woken => Goto(s, i, Checking).(num := Some(i))
    case Releasing => Notify(Goto(s, i, ReleaseNotified), w)
    case ReleaseNotified => Goto(s, i, ReleaseLeftWriter).(writer := None)
    case ReleaseLeftWriter => Goto(s, i, Idle).(num := None)
  }

  function Step(s: State, l: Label): State
    requires Enabled(s, l)
  {
    match l
    case Acquire(i, forWriting) => Goto(s, i, if forWriting then WriterWantBoth else WantBoth)
    case Release(i) => Goto(s, i, if s.pcs[i].Reading? then WantCount else Releasing)
    case Run(i, w) => RunStep(s, i, w)
    case Spurious(i) => Goto(s, i, Woken)
  }

  /** ls is a possible interleaving from s. */
  predicate IsRun(s: State, ls: seq<Label>)
    decreases |ls|
  {
    ls == [] || (Enabled(s, ls[0]) && IsRun(Step(s, ls[0]), ls[1..]))
  }

  function After(s: State, ls: seq<Label>): State
    requires IsRun(s, ls)
    decreases |ls|
  {
    if ls == [] then s else After(Step(s, ls[0]), ls[1..])
  }

  // ---- what every step keeps ----

  predicate HoldsWriter(p: Pc) {
    || p.GotBoth? || p.Counted? || p.Checking? || p.Sleeping? || p.Woken?
    || p.Writing? || p.Releasing? || p.ReleaseNotified?
  }

  predicate HoldsNum(p: Pc) {
    || p.GotBoth? || p.Counted? || p.LeftWriterMutex? || p.GotCount? || p.Uncounted? || p.Notified?
    || p.Checking? || WriterActive(p)
  }

  /** From the return of acquireWriter to the last unlock. */
  predicate WriterActive(p: Pc) {
    p.Writing? || p.Releasing? || p.ReleaseNotified? || p.ReleaseLeftWriter?
  }

  /** A reader that has entered and not yet left. */
  predicate ReaderActive(p: Pc) {
    p.Counted? || p.LeftWriterMutex? || p.Reading? || p.WantCount? || p.GotCount?
  }

  function Total(weight: Pc -> nat, pcs: seq<Pc>): nat {
    if pcs == [] then 0 else weight(pcs[0]) + Total(weight, pcs[1..])
  }

  function One(p: Pc): nat {
    if ReaderActive(p) then 1 else 0
  }

  /** Who holds a mutex follows from where the threads stand. */
  predicate OwnerAgrees(p: Pc, i: nat, s: State) {
    (HoldsWriter(p) <==> s.writer == Some(i)) && (HoldsNum(p) <==> s.num == Some(i))
  }

  predicate OwnersAgree(s: State) {
    && (forall i :: 0 <= i < |s.pcs| ==> OwnerAgrees(s.pcs[i], i, s))
    && (s.writer.Some? ==> s.writer.value < |s.pcs|)
    && (s.num.Some? ==> s.num.value < |s.pcs|)
  }

  /** A writer gets in only while nobody reads. */
  predicate WritersAlone(s: State) {
    forall i :: 0 <= i < |s.pcs| && WriterActive(s.pcs[i]) ==> s.numReaders == 0
  }

  /** A writer sleeps only while somebody is bound to wake it: a reader inside, or the last one about to notify. */
  predicate SleepersWoken(s: State) {
    forall i :: 0 <= i < |s.pcs| && s.pcs[i].Sleeping? ==>
      s.numReaders > 0 || (s.num.Some? && s.num.value < |s.pcs| && s.pcs[s.num.value].Uncounted?)
  }

  predicate Inv(s: State) {
    OwnersAgree(s) && WritersAlone(s) && SleepersWoken(s) && s.numReaders == Total(One, s.pcs)
  }

  lemma {:induction false} TotalUpdate(weight: Pc -> nat, pcs: seq<Pc>, i: nat, p: Pc)
    requires i < |pcs|
    ensures Total(weight, pcs[i := p]) == Total(weight, pcs) - weight(pcs[i]) + weight(p)
  {
    if i == 0 {
      assert pcs[0 := p][1..] == pcs[1..];
    } else {
      assert pcs[i := p][1..] == pcs[1..][i - 1 := p];
      TotalUpdate(weight, pcs[1..], i - 1, p);
    }
  }

  lemma {:induction false} NobodyReads(n: nat)
    ensures Total(One, Init(n).pcs) == 0
  {
    if n > 0 {
      assert Init(n).pcs[1..] == Init(n - 1).pcs;
      NobodyReads(n - 1);
    }
  }

  /** The step notifies a thread that sleeps. */
  predicate Wakes(s: State, l: Label)
    requires Enabled(s, l)
  {
    && l.Run? && (s.pcs[l.i].Releasing? || (s.pcs[l.i].Uncounted? && s.numReaders == 0))
    && l.w < |s.pcs| && s.pcs[l.w].Sleeping?
  }

  /** A step moves its own thread, and a sleeper if it wakes one. */
  lemma Moves(s: State, l: Label)
    requires Enabled(s, l)
    ensures var t := Step(s, l);
            && |t.pcs| == |s.pcs|
            && t.pcs == (if Wakes(s, l) then s.pcs[l.i := t.pcs[l.i]][l.w := Woken] else s.pcs[l.i := t.pcs[l.i]])
            && (Wakes(s, l) ==> l.w != l.i && s.pcs[l.w].Sleeping?)
  {
  }

  lemma TotalStep(weight: Pc -> nat, s: State, l: Label)
    requires Enabled(s, l)
    ensures |Step(s, l).pcs| == |s.pcs|
    ensures Total(weight, Step(s, l).pcs)
            == Total(weight, s.pcs) - weight(s.pcs[l.i]) + weight(Step(s, l).pcs[l.i])
               + if Wakes(s, l) then weight(Woken) - weight(Sleeping) else 0
  {
    hide Total, RunStep, CanRun;
    Moves(s, l);
    var p := Step(s, l).pcs[l.i];
    TotalUpdate(weight, s.pcs, l.i, p);
    if Wakes(s, l) {
      TotalUpdate(weight, s.pcs[l.i := p], l.w, Woken);
    }
  }

  lemma CountKept(s: State, l: Label)
    requires Inv(s) && Enabled(s, l)
    ensures Step(s, l).numReaders == Total(One, Step(s, l).pcs)
  {
    hide Total, OwnersAgree, WritersAlone, SleepersWoken;
    TotalStep(One, s, l);
  }

  lemma OwnersKept(s: State, l: Label)
    requires OwnersAgree(s) && Enabled(s, l)
    ensures OwnersAgree(Step(s, l))
  {
    Moves(s, l);
    forall k: nat | k < |s.pcs| ensures OwnerAgrees(Step(s, l).pcs[k], k, Step(s, l)) {
      OwnerKept(s, l, k);
    }
  }

  lemma OwnerKept(s: State, l: Label, k: nat)
    requires OwnersAgree(s) && Enabled(s, l) && k < |s.pcs|
    ensures k < |Step(s, l).pcs| && OwnerAgrees(Step(s, l).pcs[k], k, Step(s, l))
  {
    assert OwnerAgrees(s.pcs[l.i], l.i, s) && OwnerAgrees(s.pcs[k], k, s);
  }

  lemma WritersAloneKept(s: State, l: Label)
    requires OwnersAgree(s) && WritersAlone(s) && Enabled(s, l)
    ensures WritersAlone(Step(s, l))
  {
  }

  lemma SleepersWokenKept(s: State, l: Label)
    requires OwnersAgree(s) && SleepersWoken(s) && s.numReaders >= 0 && Enabled(s, l)
    ensures SleepersWoken(Step(s, l))
  {
  }

  lemma InvKept(s: State, l: Label)
    requires Inv(s) && Enabled(s, l)
    ensures Inv(Step(s, l))
  {
    hide Total, OwnersAgree, WritersAlone, SleepersWoken, Step;
    CountKept(s, l);
    OwnersKept(s, l);
    WritersAloneKept(s, l);
    SleepersWokenKept(s, l);
  }

  lemma {:induction false} InvAfter(s: State, ls: seq<Label>)
    requires Inv(s) && IsRun(s, ls)
    ensures Inv(After(s, ls))
    decreases |ls|
  {
    hide Inv, Step, Enabled;
    if ls != [] {
      InvKept(s, ls[0]);
      InvAfter(Step(s, ls[0]), ls[1..]);
    }
  }

  /** The states any number of threads can reach from a fresh lock. */
  ghost predicate Reachable(s: State) {
    exists n: nat, ls: seq<Label> :: IsRun(Init(n), ls) && After(Init(n), ls) == s
  }

  lemma ReachableInv(s: State)
    requires Reachable(s)
    ensures Inv(s)
  {
    hide Total, IsRun, After;
    var n: nat, ls: seq<Label> :| IsRun(Init(n), ls) && After(Init(n), ls) == s;
    NobodyReads(n);
    InvAfter(Init(n), ls);
  }

  // ---- exclusion ----

  lemma {:induction false} TotalBounds(weight: Pc -> nat, pcs: seq<Pc>, i: nat)
    requires i < |pcs|
    ensures weight(pcs[i]) <= Total(weight, pcs)
  {
    if i > 0 {
      TotalBounds(weight, pcs[1..], i - 1);
    }
  }

  /** At most one writer, none together with a reader, and the counter is the number of readers inside. */
  lemma Exclusion(s: State, i: nat, j: nat)
    requires Reachable(s) && i < |s.pcs| && j < |s.pcs|
    ensures WriterActive(s.pcs[i]) && WriterActive(s.pcs[j]) ==> i == j
    ensures !(WriterActive(s.pcs[i]) && ReaderActive(s.pcs[j]))
    ensures s.numReaders == Total(One, s.pcs)
  {
    hide Reachable, Total;
    ReachableInv(s);
    TotalBounds(One, s.pcs, j);
  }

  /** What a client sees: who reads and who writes. */
  datatype Abstract = Abstract(readers: set<nat>, writers: set<nat>)

  function View(s: State): Abstract {
    Abstract(set i: nat | i < |s.pcs| && ReaderActive(s.pcs[i]), set i: nat | i < |s.pcs| && WriterActive(s.pcs[i]))
  }

  /** The reader/writer lock as a client would specify it. */
  predicate LegalMove(a: Abstract, b: Abstract, i: nat) {
    || b == a
    || (a.writers == {} && i !in a.readers && b == a.(readers := a.readers + {i}))
    || (i in a.readers && b == a.(readers := a.readers - {i}))
    || (a.writers == {} && a.readers == {} && b == a.(writers := {i}))
    || (a.writers == {i} && b == a.(writers := {}))
  }

  /** A step changes what a client sees of its own thread only. */
  lemma ViewMoves(s: State, l: Label)
    requires Enabled(s, l)
    ensures l.i < |Step(s, l).pcs|
    ensures var p, a, b := Step(s, l).pcs[l.i], View(s), View(Step(s, l));
            && b.readers == (if ReaderActive(p) then a.readers + {l.i} else a.readers - {l.i})
            && b.writers == (if WriterActive(p) then a.writers + {l.i} else a.writers - {l.i})
  {
    hide RunStep, CanRun;
    Moves(s, l);
    var t := Step(s, l);
    assert forall j :: 0 <= j < |s.pcs| && j != l.i ==> ReaderActive(t.pcs[j]) == ReaderActive(s.pcs[j]);
    assert forall j :: 0 <= j < |s.pcs| && j != l.i ==> WriterActive(t.pcs[j]) == WriterActive(s.pcs[j]);
  }

  /** Every step of every interleaving is a legal move of the simple lock, or invisible. */
  lemma StepsAreLegal(s: State, l: Label)
    requires Reachable(s) && Enabled(s, l)
    ensures LegalMove(View(s), View(Step(s, l)), l.i)
  {
    hide Reachable, Total;
    ReachableInv(s);
    ViewMoves(s, l);
    var p, q := s.pcs[l.i], Step(s, l).pcs[l.i];
    if s.num == Some(l.i) {
      OnlyWriter(s, l.i);
    }
    if p.Checking? && q.Writing? {
      NoReaders(s);
    }
  }

  /** Whoever holds mtx_numReaders_ is the only one that can be writing. */
  lemma OnlyWriter(s: State, i: nat)
    requires OwnersAgree(s) && i < |s.pcs| && s.num == Some(i)
    ensures View(s).writers == if WriterActive(s.pcs[i]) then {i} else {}
  {
    forall j: nat | j < |s.pcs| && WriterActive(s.pcs[j]) ensures j == i {
      assert OwnerAgrees(s.pcs[j], j, s);
    }
  }

  lemma NoReaders(s: State)
    requires Total(One, s.pcs) == 0
    ensures View(s).readers == {}
  {
    forall j: nat | j < |s.pcs| ensures !ReaderActive(s.pcs[j]) {
      TotalBounds(One, s.pcs, j);
    }
  }

  // ---- the calls ----

  /** The call a thread is in, or what it holds. */
  datatype Phase = Free | EnteringToRead | Inside | LeavingReader | EnteringToWrite | InsideAlone | LeavingWriter

  function PhaseOf(p: Pc): Phase {
    match p
    case Idle => Free
    case WantBoth | GotBoth | Counted | LeftWriterMutex => EnteringToRead
    case Reading => Inside
    case WantCount | GotCount | Uncounted | Notified => LeavingReader
    case WriterWantBoth | Checking | Sleeping | Woken => EnteringToWrite
    case Writing => InsideAlone
    case Releasing | ReleaseNotified | ReleaseLeftWriter => LeavingWriter
  }

  /** The way into each phase but the first: from the call that leads there, and from nowhere else. */
  predicate Follows(a: Phase, b: Phase) {
    || a == b
    || (a == Free && (b == EnteringToRead || b == EnteringToWrite))
    || (a == EnteringToRead && b == Inside) || (a == Inside && b == LeavingReader) || (a == LeavingReader && b == Free)
    || (a == EnteringToWrite && b == InsideAlone) || (a == InsideAlone && b == LeavingWriter)
    || (a == LeavingWriter && b == Free)
  }

  /** Every thread goes through its calls in order: each acquire returns to one who reads or writes. */
  lemma CallsInOrder(s: State, l: Label, i: nat)
    requires Enabled(s, l) && i < |s.pcs|
    ensures i < |Step(s, l).pcs|
    ensures var a, b := PhaseOf(s.pcs[i]), PhaseOf(Step(s, l).pcs[i]);
            && Follows(a, b)
            && (l.Acquire? && l.i == i ==> b == if l.forWriting then EnteringToWrite else EnteringToRead)
            && (l.Release? && l.i == i ==> a != b)
  {
    hide RunStep, CanRun;
    Moves(s, l);
    if l.Run? && l.i == i {
      RunsInOrder(s, i, l.w);
    }
  }

  lemma RunsInOrder(s: State, i: nat, w: nat)
    requires i < |s.pcs| && CanRun(s, i, w)
    ensures i < |RunStep(s, i, w).pcs| && Follows(PhaseOf(s.pcs[i]), PhaseOf(RunStep(s, i, w).pcs[i]))
  {
  }

  // ---- progress ----

  lemma OneSleeper(s: State, i: nat, j: nat)
    requires Reachable(s) && i < |s.pcs| && j < |s.pcs| && s.pcs[i].Sleeping? && s.pcs[j].Sleeping?
    ensures i == j
  {
    hide Reachable, Total;
    ReachableInv(s);
  }

  /** While a writer sleeps no reader gets in, whatever is done next. */
  lemma NoRiseWhileSleeping(s: State, i: nat, l: Label)
    requires Reachable(s) && i < |s.pcs| && s.pcs[i].Sleeping? && Enabled(s, l)
    ensures Step(s, l).numReaders <= s.numReaders
  {
    hide Reachable, Total;
    ReachableInv(s);
  }

  /** The last reader to leave wakes the sleeping writer; so nobody sleeps over a free lock. */
  lemma NoLostWakeup(s: State, i: nat, w: nat)
    requires Reachable(s) && i < |s.pcs| && s.pcs[i].Uncounted? && s.numReaders == 0 && Enabled(s, Run(i, w))
    ensures forall j :: 0 <= j < |s.pcs| ==> !Step(s, Run(i, w)).pcs[j].Sleeping?
    ensures forall j :: 0 <= j < |s.pcs| && s.pcs[j].Sleeping? ==> Step(s, Run(i, w)).pcs[j].Woken?
  {
    hide Reachable, Total;
    ReachableInv(s);
  }

  /** While a writer is inside nobody sleeps, so the notification in releaseWriter never wakes anyone. */
  lemma WriterNotifiesNobody(s: State, i: nat, j: nat)
    requires Reachable(s) && i < |s.pcs| && j < |s.pcs|
    ensures !(WriterActive(s.pcs[i]) && s.pcs[j].Sleeping?)
  {
    hide Reachable, Total;
    ReachableInv(s);
  }

  /** A writer asleep while the counter is free to take has a reader inside to wait for. */
  lemma SleepsForAReason(s: State, i: nat)
    requires Reachable(s) && i < |s.pcs| && s.pcs[i].Sleeping? && s.num.None?
    ensures s.numReaders > 0
  {
    hide Reachable, Total;
    ReachableInv(s);
  }

  /** A thread to notify: the sleeper, if there is one. */
  lemma SomeoneToNotify(s: State) returns (w: nat)
    ensures MayNotify(s, w)
  {
    if j :| 0 <= j < |s.pcs| && s.pcs[j].Sleeping? {
      w := j;
    } else {
      w := 0;
    }
  }

  lemma {:induction false} SomeReader(pcs: seq<Pc>) returns (i: nat)
    requires Total(One, pcs) > 0
    ensures i < |pcs| && ReaderActive(pcs[i])
  {
    if ReaderActive(pcs[0]) {
      i := 0;
    } else {
      i := SomeReader(pcs[1..]);
      i := i + 1;
    }
  }

  /** The moves that complete calls already made: steps inside them, and the releases readers and writers owe. */
  predicate Completes(l: Label) {
    l.Run? || l.Release?
  }

  predicate InsideCall(p: Pc) {
    !p.Idle? && !p.Reading? && !p.Writing?
  }

  /** A thread whose next step, or whose owed release, is possible now. */
  lemma Progress(s: State, i: nat) returns (l: Label)
    requires Inv(s) && i < |s.pcs| && !s.pcs[i].Idle?
    ensures Enabled(s, l) && Completes(l)
  {
    hide Total;
    var w := SomeoneToNotify(s);
    if s.num.Some? {
      var k := s.num.value;
      l := if s.pcs[k].Writing? then Release(k) else Run(k, w);
    } else {
      var k := i;
      if (s.pcs[k].WantBoth? || s.pcs[k].WriterWantBoth?) && s.writer.Some? {
        k := s.writer.value;
      }
      if s.pcs[k].Sleeping? {
        k := SomeReader(s.pcs);
      }
      l := if s.pcs[k].Reading? then Release(k) else Run(k, w);
    }
  }

  /** How many steps a thread is from Idle, with the price of one notification in its releases. */
  function Rank(p: Pc): nat {
    match p
    case Idle => 0
    case WantBoth => 11
    case GotBoth => 10
    case Counted => 9
    case LeftWriterMutex => 8
    case Reading => 7
    case WantCount => 6
    case GotCount => 5
    case Uncounted => 4
    case Notified => 1
    case WriterWantBoth => 9
    case Woken => 9
    case Checking => 8
    case Sleeping => 7
    case Writing => 6
    case Releasing => 5
    case ReleaseNotified => 2
    case ReleaseLeftWriter => 1
  }

  function Measure(s: State): nat {
    Total(Rank, s.pcs)
  }

  lemma MeasureStep(s: State, l: Label)
    requires Enabled(s, l)
    ensures Completes(l) ==> Measure(Step(s, l)) < Measure(s)
    ensures l.Acquire? ==> Measure(Step(s, l)) <= Measure(s) + 11
    ensures l.Spurious? ==> Measure(Step(s, l)) <= Measure(s) + 2
  {
    hide Total;
    TotalStep(Rank, s, l);
  }

  function Acquires(ls: seq<Label>): nat {
    if ls == [] then 0 else (if ls[0].Acquire? then 1 else 0) + Acquires(ls[1..])
  }

  function Spurious(ls: seq<Label>): nat {
    if ls == [] then 0 else (if ls[0].Spurious? then 1 else 0) + Spurious(ls[1..])
  }

  /** However threads are scheduled, a call costs a bounded number of steps: 12 for each acquire with its release. */
  lemma {:induction false} BoundedRun(s: State, ls: seq<Label>)
    requires IsRun(s, ls)
    ensures |ls| + Measure(After(s, ls)) <= Measure(s) + 12 * Acquires(ls) + 3 * Spurious(ls)
    decreases |ls|
  {
    hide Measure, Step, Enabled;
    if ls != [] {
      MeasureStep(s, ls[0]);
      BoundedRun(Step(s, ls[0]), ls[1..]);
    }
  }

  /** With every call completed the lock is as it was made. */
  lemma AllIdle(s: State)
    requires Inv(s) && (forall i :: 0 <= i < |s.pcs| ==> s.pcs[i].Idle?)
    ensures s.numReaders == 0 && s.writer.None? && s.num.None?
  {
    hide Total;
    if s.numReaders > 0 {
      var k := SomeReader(s.pcs);
      assert false;
    }
    OwnersBusy(s);
  }

  lemma OwnersBusy(s: State)
    requires OwnersAgree(s)
    ensures s.writer.Some? ==> !s.pcs[s.writer.value].Idle?
    ensures s.num.Some? ==> !s.pcs[s.num.value].Idle?
  {
  }

  /** A run that cannot be continued without a new call or a spurious wake-up has completed every call. */
  lemma FinishedRun(s: State)
    requires Reachable(s) && (forall l :: Enabled(s, l) ==> !Completes(l))
    ensures s == Init(|s.pcs|)
  {
    hide Reachable, Total, Enabled;
    ReachableInv(s);
    forall i: nat | i < |s.pcs| ensures s.pcs[i].Idle? {
      if !s.pcs[i].Idle? {
        var l := Progress(s, i);
        assert false;
      }
    }
    AllIdle(s);
  }

  /** From every reachable state the calls under way can all be completed, with no help from new callers. */
  lemma {:induction false} CanFinish(s: State) returns (ls: seq<Label>)
    requires Inv(s)
    ensures IsRun(s, ls) && (forall k :: 0 <= k < |ls| ==> Completes(ls[k]))
    ensures After(s, ls) == Init(|s.pcs|) && |ls| <= Measure(s)
    decreases Measure(s)
  {
    hide Inv, Measure, Step, Enabled;
    if i :| 0 <= i < |s.pcs| && !s.pcs[i].Idle? {
      var l := Progress(s, i);
      MeasureStep(s, l);
      InvKept(s, l);
      var rest := CanFinish(Step(s, l));
      SameThreads(s, l);
      ls := [l] + rest;
      assert ls[1..] == rest;
    } else {
      AllIdle(s);
      ls := [];
    }
  }

  lemma SameThreads(s: State, l: Label)
    requires Enabled(s, l)
    ensures |Step(s, l).pcs| == |s.pcs|
  {
  }

  /** Calls that cannot move wait for a caller: someone reads or writes and has not released. */
  lemma BlockedOnlyByHolders(s: State, i: nat)
    requires Reachable(s) && i < |s.pcs| && InsideCall(s.pcs[i])
    requires forall k: nat, w: nat :: !Enabled(s, Run(k, w))
    ensures exists k :: 0 <= k < |s.pcs| && (s.pcs[k].Reading? || s.pcs[k].Writing?)
  {
    hide Reachable, Total;
    ReachableInv(s);
    var l := Progress(s, i);
    assert l.Release?;
  }
}
