/** The units of semaphores, counted from what happens in a run: from the calls that return and
    from the waiters that are notified. */
module UserMutexUnits {
  import opened UserMutexMachine
  import opened UserMutexTable
  import opened UserMutexEffects
  import opened UserMutexRuns

  ghost function Units(s: State, a: Address): nat { if Word(s, a) > 0 then Word(s, a) else 0 }

  /** The threads that wait for a unit of a and are notified between s and r. */
  ghost function Served(s: State, r: State, a: Address): set<Thread> {
    set t | t in r.pcs && PcIn(s.pcs, t).Blocked? && PcIn(s.pcs, t).kind.SemWait? && PcIn(s.pcs, t).address == a
            && !PcIn(s.pcs, t).notified && PcIn(r.pcs, t) == PcIn(s.pcs, t).(notified := true)
  }

  /** A sem_acquire of a returns B_OK without having waited. */
  ghost predicate AcquireReturns(s: State, e: Event, r: State, a: Address) {
    || (e.SemAcquire? && e.sem == a && PcOf(r, e.thread) == User(Ok))
    || (e.Continue? && s.section.SemTry? && s.section.sem == a && PcOf(r, s.section.thread) == User(Ok))
  }

  ghost predicate ReleaseReturns(s: State, e: Event, r: State, a: Address) {
    || (e.SemRelease? && e.sem == a && PcOf(r, e.thread) == User(Ok))
    || (e.Continue? && s.section.SemGive? && s.section.sem == a && PcOf(r, s.section.thread) == User(Ok))
  }

  /** How many acquisitions the step e from s to r grants. */
  ghost function Grants(s: State, e: Event, r: State, a: Address): nat {
    |Served(s, r, a)| + (if AcquireReturns(s, e, r, a) then 1 else 0) + (if e.UserTake? && e.sem == a then 1 else 0)
  }

  /** How many releases it completes. */
  ghost function Releases(s: State, e: Event, r: State, a: Address): nat {
    (if ReleaseReturns(s, e, r, a) then 1 else 0) + (if e.UserGive? && e.sem == a then 1 else 0)
  }

  ghost predicate Conserves(s: State, e: Event, r: State, a: Address) {
    Units(r, a) + Grants(s, e, r, a) == Units(s, a) + Releases(s, e, r, a)
  }

  // ----- one step

  lemma NobodyServed(s: State, r: State, a: Address, t: Thread)
    requires forall x :: x != t ==> PcIn(r.pcs, x) == PcIn(s.pcs, x)
    requires !PcIn(r.pcs, t).Blocked? || !PcIn(s.pcs, t).Blocked?
    ensures Served(s, r, a) == {}
  {
  }

  lemma ElsewhereConserves(s: State, e: Event, r: State, a: Address)
    requires ElsewhereOnly(s, r, a)
    requires e.SemAcquire? || e.SemRelease? || e.UserTake? || e.UserGive? ==> e.sem != a
    requires e.Continue? && (s.section.SemTry? || s.section.SemGive?) ==> s.section.sem != a
    ensures Conserves(s, e, r, a)
  {
    SameViewMeans(s, r, a);
    hide Seen;
    assert Served(s, r, a) == {};
  }

  lemma SemTryConserves(s: State, a: Address)
    requires TableInv(s) && SemInv(s, a) && s.section.SemTry? && s.section.sem == a
    ensures Conserves(s, Continue, ContinueStep(s), a)
  {
    hide Agree, TryAgain, Leave;
    var SemTry(t, _, oldValue) := s.section;
    var s0, value, r := s.(section := Free), Word(s, a), ContinueStep(s);
    if value == oldValue && value > 0 {
      var s1 := SetWord(s0, a, value - 1);
      LeaveEffect(s1, t, Ok, a, a);
      SameViewMeans(s1, r, a);
      hide Seen;
      assert forall x :: x != t ==> PcIn(r.pcs, x) == PcIn(s.pcs, x);
    } else {
      var s1 := if value == oldValue then SetWord(s0, a, value - 1) else s0;
      TryAgainEffect(s1, t, a, value);
      assert forall x :: x != t ==> PcIn(r.pcs, x) == PcIn(s.pcs, x);
    }
    NobodyServed(s, r, a, t);
  }

  lemma TryAgainEffect(s: State, t: Thread, a: Address, value: int)
    requires At(s, a).entry.Some?
    ensures var r := TryAgain(s, t, a, value);
            && Word(r, a) == Word(s, a) && !PcOf(r, t).User?
            && forall x :: x != t ==> PcIn(r.pcs, x) == PcIn(s.pcs, x)
  {
    EnqueueEffect(s, t, SemWait, a, a);
    hide Enqueue;
  }

  lemma SemAcquireConserves(s: State, t: Thread, a: Address)
    requires TableInv(s) && s.section.Free? && Idle(s, t)
    ensures Conserves(s, SemAcquire(t, a), SemAcquireStep(s, t, a), a)
  {
    hide Agree, TryAgain;
    var s1, r := GetEntry(s, a), SemAcquireStep(s, t, a);
    assert s1.pcs == s.pcs && Word(s1, a) == Word(s, a) && At(s1, a).entry.Some?;
    hide GetEntry;
    TryAgainEffect(s1, t, a, Word(s1, a));
    NobodyServed(s, r, a, t);
  }

  lemma SemReleaseConserves(s: State, t: Thread, a: Address)
    requires TableInv(s) && SemInv(s, a) && s.section.Free? && Idle(s, t)
    ensures Conserves(s, SemRelease(t, a), SemReleaseStep(s, t, a), a)
  {
    hide Agree, HandUnit, Conserves;
    var s1 := GetEntry(s, a);
    GetEntryAgrees(s, a, {});
    assert {} + {a} == {a};
    assert s1.pcs == s.pcs && Word(s1, a) == Word(s, a) && Queue(s1, a) == Queue(s, a) && s1.section.Free?;
    hide GetEntry;
    if Queue(s1, a) == [] {
      BeginningConserves(s, s1, t, a);
    } else {
      HandOverConserves(s, s1, t, a);
    }
  }

  lemma BeginningConserves(s: State, s1: State, t: Thread, a: Address)
    requires Word(s1, a) == Word(s, a) && s1.pcs == s.pcs && Idle(s, t)
    ensures Conserves(s, SemRelease(t, a), SetPc(s1, t, Kernel).(section := SemGive(t, a, Word(s1, a))), a)
  {
    var r := SetPc(s1, t, Kernel).(section := SemGive(t, a, Word(s1, a)));
    assert Word(r, a) == Word(s1, a);
    assert forall x :: x != t ==> PcIn(r.pcs, x) == PcIn(s.pcs, x);
    NobodyServed(s, r, a, t);
  }

  /** The first waiter is served, and nobody else. */
  lemma HandOverConserves(s: State, s1: State, t: Thread, a: Address)
    requires Agree(s1, {a}) && s1.pcs == s.pcs && Idle(s, t) && SemInv(s, a)
    requires Word(s1, a) == Word(s, a) && Queue(s1, a) == Queue(s, a) != []
    ensures Conserves(s, SemRelease(t, a), Leave(HandUnit(s1, a), t, Ok, a), a)
  {
    var first, q, r := Queue(s1, a)[0], HandUnit(s1, a), Leave(HandUnit(s1, a), t, Ok, a);
    QueueBelongs(s1, a, {a});
    hide Agree;
    assert first in Queue(s1, a);
    HandUnitCell(s1, a);
    assert q.pcs == s.pcs[first := Notified(PcOf(s, first))];
    hide HandUnit;
    LeaveEffect(q, t, Ok, a, a);
    SameViewMeans(q, r, a);
    hide Seen, Leave;
    FirstServed(s, r, a, first, t);
  }

  lemma FirstServed(s: State, r: State, a: Address, first: Thread, t: Thread)
    requires PcIn(s.pcs, first).Blocked? && PcIn(s.pcs, first).kind.SemWait? && PcIn(s.pcs, first).address == a
    requires !PcIn(s.pcs, first).notified && !PcIn(s.pcs, t).Blocked?
    requires r.pcs == s.pcs[first := Notified(PcIn(s.pcs, first))][t := User(Ok)]
    ensures Served(s, r, a) == {first}
  {
    assert forall x :: x != first && x != t ==> PcIn(r.pcs, x) == PcIn(s.pcs, x);
  }

  lemma SemGiveConserves(s: State, a: Address)
    requires TableInv(s) && SemInv(s, a) && s.section.SemGive? && s.section.sem == a
    ensures Conserves(s, Continue, ContinueStep(s), a)
  {
    hide Agree, Leave;
    var SemGive(t, _, oldValue) := s.section;
    var r := ContinueStep(s);
    if Word(s, a) == oldValue {
      var s1 := SetWord(s.(section := Free), a, OneMore(oldValue));
      LeaveEffect(s1, t, Ok, a, a);
      SameViewMeans(s1, r, a);
      hide Seen;
    }
    assert forall x :: x != t ==> PcIn(r.pcs, x) == PcIn(s.pcs, x);
    NobodyServed(s, r, a, t);
  }

  lemma WakeConserves(s: State, t: Thread, expired: bool, a: Address)
    requires TableInv(s) && SemInv(s, a) && s.section.Free? && PcOf(s, t).Blocked? && PcOf(s, t).address == a
    ensures Conserves(s, Wake(t, expired), WakeStep(s, t), a)
  {
    hide Agree;
    var r := WakeStep(s, t);
    if PcOf(s, t).notified {
      LeaveEffect(s, t, Ok, a, a);
      SameViewMeans(s, r, a);
    } else {
      RemoveAgrees(s, t, Kernel);
      var s1 := SetCell(s, a, WithQueue(At(s, a), Without(Queue(s, a), t)));
      LeaveEffect(s1, t, TimedOut, a, a);
      SameViewMeans(s1, r, a);
    }
    hide Seen, Leave;
    assert forall x :: x != t ==> PcIn(r.pcs, x) == PcIn(s.pcs, x);
    NobodyServed(s, r, a, t);
  }

  lemma UserSemConserves(s: State, e: Event, a: Address)
    requires IsPossible(s, e) && (e.UserTake? || e.UserGive?) && e.sem == a
    ensures Conserves(s, e, Next(s, e), a)
  {
    NobodyServed(s, Next(s, e), a, e.thread);
  }

  lemma StepConserves(s: State, e: Event, u: Usage, a: Address)
    requires TableInv(s) && SemInv(s, a) && Enabled(s, e, u) && a in u.sems && a !in u.mutexes
    ensures Conserves(s, e, Next(s, e), a)
  {
    hide Agree, Conserves, Seen;
    if Target(s, e) != a {
      StepElsewhere(s, e, u, a);
      ElsewhereConserves(s, e, Next(s, e), a);
    } else {
      match e
      case SemAcquire(t, _) => SemAcquireConserves(s, t, a);
      case SemRelease(t, _) => SemReleaseConserves(s, t, a);
      case Wake(t, expired) => WakeConserves(s, t, expired, a);
      case Continue =>
        if s.section.SemTry? {
          SemTryConserves(s, a);
        } else {
          assert s.section.SemGive?;
          SemGiveConserves(s, a);
        }
      case UserTake(_, _) => UserSemConserves(s, e, a);
      case UserGive(_, _) => UserSemConserves(s, e, a);
      case _ =>
    }
  }

  // ----- runs

  /** The acquisitions granted in the first i steps. */
  ghost function GrantsBefore(states: seq<State>, events: seq<Event>, i: nat, a: Address): nat
    requires i <= |events| < |states|
  {
    if i == 0 then 0
    else GrantsBefore(states, events, i - 1, a) + Grants(states[i - 1], events[i - 1], states[i], a)
  }

  ghost function ReleasesBefore(states: seq<State>, events: seq<Event>, i: nat, a: Address): nat
    requires i <= |events| < |states|
  {
    if i == 0 then 0
    else ReleasesBefore(states, events, i - 1, a) + Releases(states[i - 1], events[i - 1], states[i], a)
  }

  /** Over every run no unit is lost or made up: what is in the word and what was granted is what
      was there at the beginning and what was released. */
  lemma {:induction false} SemaphoreConservation(u: Usage, states: seq<State>, events: seq<Event>, i: nat, a: Address)
    requires IsRun(u, states, events) && i <= |events| && a in u.sems
    ensures Units(states[i], a) + GrantsBefore(states, events, i, a) == u.sems[a] + ReleasesBefore(states, events, i, a)
    ensures Word(states[i], a) >= -1 && (Queue(states[i], a) != [] ==> Word(states[i], a) == -1)
  {
    hide Safe, Next, Enabled, Grants, Releases;
    RunSafe(u, states, events, i);
    SafeMeans(states[i], u, a);
    if i > 0 {
      SemaphoreConservation(u, states, events, i - 1, a);
      RunSafe(u, states, events, i - 1);
      SafeMeans(states[i - 1], u, a);
      NotAMutex(u, states, events, a);
      StepConserves(states[i - 1], events[i - 1], u, a);
    }
  }

  lemma NotAMutex(u: Usage, states: seq<State>, events: seq<Event>, a: Address)
    requires IsRun(u, states, events) && a in u.sems
    ensures a !in u.mutexes
  {
  }
}
