/** The main theorems about user mutexes and user semaphores: what holds in every state of
    every run, for any interleaving of kernel sections, word changes and timeouts. */
module UserMutexRuns {
  import opened UserMutexWord
  import opened UserMutexMachine
  import opened UserMutexTable
  import opened UserMutexEffects
  import opened UserMutexOwnership

  // ----- one step

  lemma MutexStepAt(s: State, e: Event, u: Usage, m: Address)
    requires TableInv(s) && MutexInv(s, m) && Enabled(s, e, u) && m in u.mutexes && m !in u.sems
    requires Target(s, e) == m
    ensures MutexInv(Next(s, e), m)
  {
    hide Agree, MutexCore;
    match e
    case Lock(t, a) => LockAtMutex(s, t, m);
    case Unblock(t, a, all) => UnblockAtMutex(s, t, m);
    case Switch(t, from, to, all) => SwitchToMutex(s, t, from, all, m);
    case Continue => ContinueAtMutex(s, m);
    case Wake(t, expired) =>
      if PcOf(s, t).notified {
        WakeElsewhere(s, t, m);
        MutexFrame(s, Next(s, e), m);
      } else {
        WakeAtMutex(s, t, m);
      }
    case UserLock(t, a) => UserLockAtMutex(s, t, m);
    case UserUnlock(t, a) => UserUnlockAtMutex(s, t, m);
    case _ =>
  }

  /** A step that acts elsewhere schedules nothing harmful for m. */
  lemma SectionStaysSafe(s: State, e: Event, u: Usage, r: State, m: Address)
    requires TableInv(s) && SectionSafe(s, m) && Enabled(s, e, u) && m in u.mutexes && Target(s, e) != m
    requires SectionFollows(s, e, r.section) && Holders(r, m) == Holders(s, m) && Queue(r, m) == Queue(s, m)
    ensures SectionSafe(r, m)
  {
    hide Agree, At;
  }

  lemma MutexStep(s: State, e: Event, u: Usage, m: Address)
    requires TableInv(s) && MutexInv(s, m) && Enabled(s, e, u) && m in u.mutexes && m !in u.sems
    ensures MutexInv(Next(s, e), m)
  {
    hide Next, Agree, MutexCore, SectionFollows, SectionSafe, Seen, NoLostWakeUp;
    if Target(s, e) == m {
      MutexStepAt(s, e, u, m);
    } else {
      StepElsewhere(s, e, u, m);
      StepSection(s, e, u);
      SameViewMeans(s, Next(s, e), m);
      SectionStaysSafe(s, e, u, Next(s, e), m);
      MutexFrame(s, Next(s, e), m);
    }
  }

  // ----- semaphores

  /** No mutex operation on a is under way. */
  ghost predicate Avoids(section: Section, a: Address) {
    match section
    case ClearContended(_, w, after) => w != a && (after.UnlockFrom? ==> after.from != a && after.to != a)
    case SwitchUnlock(_, from, to, _) => from != a && to != a
    case SwitchUnblock(_, from, to, _) => from != a && to != a
    case _ => true
  }

  /** The count is -1 whenever somebody waits. */
  ghost predicate SemInv(s: State, a: Address) {
    && Word(s, a) >= -1
    && (Queue(s, a) != [] ==> Word(s, a) == -1)
    && (forall t :: PcIn(s.pcs, t).Blocked? && PcIn(s.pcs, t).address == a ==> PcIn(s.pcs, t).kind.SemWait?)
    && Avoids(s.section, a)
  }

  lemma SemFrame(s: State, r: State, a: Address)
    requires SemInv(s, a) && ElsewhereOnly(s, r, a) && Avoids(r.section, a)
    ensures SemInv(r, a)
  {
    SameViewMeans(s, r, a);
    hide Seen;
  }

  lemma TryAgainAt(s: State, t: Thread, a: Address, value: int)
    requires SemInv(s, a) && s.section.Free? && At(s, a).entry.Some? && !PcOf(s, t).Blocked?
    requires value <= -1 ==> Word(s, a) == -1
    ensures SemInv(TryAgain(s, t, a, value), a)
  {
    var r := TryAgain(s, t, a, value);
    if value <= -1 {
      EnqueueEffect(s, t, SemWait, a, a);
      hide Enqueue;
    }
    assert forall x :: x != t ==> PcIn(r.pcs, x) == PcIn(s.pcs, x);
  }

  lemma SemAcquireAt(s: State, t: Thread, a: Address)
    requires SemInv(s, a) && s.section.Free? && Idle(s, t)
    ensures SemInv(SemAcquireStep(s, t, a), a)
  {
    var s1 := GetEntry(s, a);
    assert SameViewAt(s, s1, a) && s1.pcs == s.pcs && s1.section.Free? && At(s1, a).entry.Some?;
    SameViewMeans(s, s1, a);
    hide GetEntry, Seen, TryAgain;
    TryAgainAt(s1, t, a, Word(s1, a));
  }

  /** Taking a unit, or marking the semaphore contended when there is none. */
  lemma SemTryAt(s: State, a: Address)
    requires TableInv(s) && SemInv(s, a) && s.section.SemTry? && s.section.sem == a
    ensures SemInv(ContinueStep(s), a)
  {
    hide Agree, TryAgain, Leave;
    var SemTry(t, _, oldValue) := s.section;
    var s0, value := s.(section := Free), Word(s, a);
    if value == oldValue && value > 0 {
      var s1 := SetWord(s0, a, value - 1);
      assert SemInv(s1, a);
      LeaveKeepsSem(s1, t, Ok, a);
    } else {
      var s1 := if value == oldValue then SetWord(s0, a, value - 1) else s0;
      assert SemInv(s1, a);
      TryAgainAt(s1, t, a, value);
    }
  }

  lemma LeaveKeepsSem(s: State, t: Thread, status: Status, a: Address)
    requires SemInv(s, a)
    ensures SemInv(Leave(s, t, status, a), a)
  {
    LeaveEffect(s, t, status, a, a);
    var r := Leave(s, t, status, a);
    SameViewMeans(s, r, a);
    hide Leave, Seen;
    assert forall x :: x != t ==> PcIn(r.pcs, x) == PcIn(s.pcs, x);
  }

  lemma SemReleaseAt(s: State, t: Thread, a: Address)
    requires TableInv(s) && SemInv(s, a) && s.section.Free?
    ensures SemInv(SemReleaseStep(s, t, a), a)
  {
    var s1 := GetEntry(s, a);
    GetEntryAgrees(s, a, {});
    assert {} + {a} == {a};
    assert SameViewAt(s, s1, a) && s1.pcs == s.pcs && s1.section.Free?;
    SameViewMeans(s, s1, a);
    if Queue(s1, a) == [] {
      hide Agree, GetEntry, Seen;
      var r := SemReleaseStep(s, t, a);
      assert forall x :: x != t ==> PcIn(r.pcs, x) == PcIn(s.pcs, x);
    } else {
      HandUnitAgrees(s1, a);
      hide Agree, GetEntry, HandUnit, Seen;
      assert SemInv(HandUnit(s1, a), a);
      LeaveKeepsSem(HandUnit(s1, a), t, Ok, a);
    }
  }

  /** The word takes the unit: nobody has queued since the loop began. */
  lemma SemGiveAt(s: State, a: Address)
    requires TableInv(s) && SemInv(s, a) && s.section.SemGive? && s.section.sem == a
    ensures SemInv(ContinueStep(s), a)
  {
    hide Agree, Leave;
    var SemGive(t, _, oldValue) := s.section;
    if Word(s, a) == oldValue {
      var s1 := SetWord(s.(section := Free), a, OneMore(oldValue));
      assert SemInv(s1, a);
      LeaveKeepsSem(s1, t, Ok, a);
    }
  }

  /** User space takes only what there is, and gives only while the word does not stand for
      waiters. */
  lemma UserSemAt(s: State, e: Event, a: Address)
    requires SemInv(s, a) && IsPossible(s, e) && (e.UserTake? || e.UserGive?) && e.sem == a
    ensures SemInv(Next(s, e), a)
  {
    assert Next(s, e).pcs == s.pcs && Next(s, e).section == s.section;
  }

  lemma SemWakeAt(s: State, t: Thread, a: Address)
    requires TableInv(s) && SemInv(s, a) && s.section.Free?
    requires PcOf(s, t).Blocked? && PcOf(s, t).address == a
    ensures SemInv(WakeStep(s, t), a)
  {
    if PcOf(s, t).notified {
      LeaveKeepsSem(s, t, Ok, a);
    } else {
      RemoveAgrees(s, t, Kernel);
      hide Agree;
      var s1 := SetCell(s, a, WithQueue(At(s, a), Without(Queue(s, a), t)));
      assert Queue(s1, a) != [] ==> Queue(s, a) != [];
      assert SemInv(s1, a);
      LeaveKeepsSem(s1, t, TimedOut, a);
    }
  }

  lemma SectionStillAvoids(s: State, e: Event, u: Usage, next: Section, a: Address)
    requires TableInv(s) && Avoids(s.section, a) && Enabled(s, e, u) && a in u.sems && Target(s, e) != a
    requires SectionFollows(s, e, next)
    ensures Avoids(next, a)
  {
    hide Agree, At;
  }

  lemma SemContinueAt(s: State, a: Address)
    requires TableInv(s) && SemInv(s, a) && !s.section.Free? && ActsOn(s.section) == a
    ensures SemInv(ContinueStep(s), a)
  {
    hide Agree, ContinueStep;
    match s.section
    case SemTry(_, _, _) => SemTryAt(s, a);
    case SemGive(_, _, _) => SemGiveAt(s, a);
    case _ =>
  }

  lemma SemStepAt(s: State, e: Event, u: Usage, a: Address)
    requires TableInv(s) && Enabled(s, e, u) && a in u.sems && a !in u.mutexes && SemInv(s, a)
    requires Target(s, e) == a
    ensures SemInv(Next(s, e), a)
  {
    hide Agree;
    match e
    case SemAcquire(t, x) => SemAcquireAt(s, t, a);
    case SemRelease(t, x) => SemReleaseAt(s, t, a);
    case Wake(t, expired) => SemWakeAt(s, t, a);
    case Continue => SemContinueAt(s, a);
    case UserTake(_, _) => UserSemAt(s, e, a);
    case UserGive(_, _) => UserSemAt(s, e, a);
    case _ =>
  }

  lemma SemStep(s: State, e: Event, u: Usage, a: Address)
    requires TableInv(s) && Enabled(s, e, u) && a in u.sems && a !in u.mutexes && SemInv(s, a)
    ensures SemInv(Next(s, e), a)
  {
    hide Next, Agree, SectionFollows, Seen, Avoids;
    if Target(s, e) == a {
      SemStepAt(s, e, u, a);
    } else {
      StepElsewhere(s, e, u, a);
      StepSection(s, e, u);
      SectionStillAvoids(s, e, u, Next(s, e).section, a);
      SemFrame(s, Next(s, e), a);
    }
  }

  // ----- runs

  ghost predicate Safe(s: State, u: Usage) {
    && TableInv(s)
    && (forall m :: m in u.mutexes ==> MutexInv(s, m))
    && (forall a :: a in u.sems ==> SemInv(s, a))
  }

  lemma InitialSafe(s: State, u: Usage)
    requires Initial(s, u)
    ensures Safe(s, u)
  {
    assert forall t :: PcIn(s.pcs, t) == PcOf(s, t) && Idle(s, t);
    assert forall a :: CellIn(s.cells, a).entry.None?;
    assert Agree(s, {});
    hide Agree;
  }

  lemma StepSafe(s: State, e: Event, u: Usage)
    requires Safe(s, u) && Enabled(s, e, u) && (forall m :: m in u.mutexes ==> m !in u.sems)
    ensures Safe(Next(s, e), u)
  {
    hide TableInv, MutexInv, SemInv, Next, Enabled;
    StepKeepsTable(s, e, u);
    forall m | m in u.mutexes ensures MutexInv(Next(s, e), m) { MutexStep(s, e, u, m); }
    forall a | a in u.sems ensures SemInv(Next(s, e), a) { SemStep(s, e, u, a); }
  }

  lemma {:induction false} RunSafe(u: Usage, states: seq<State>, events: seq<Event>, i: nat)
    requires IsRun(u, states, events) && i < |states|
    ensures Safe(states[i], u)
  {
    hide Safe, Next, Enabled;
    if i == 0 {
      InitialSafe(states[0], u);
    } else {
      RunSafe(u, states, events, i - 1);
      StepSafe(states[i - 1], events[i - 1], u);
    }
  }

  // ----- what the invariant means in every state of every run

  /** LOCKED is set exactly when some thread owns m, and no second thread ever does. */
  lemma MutualExclusion(u: Usage, states: seq<State>, events: seq<Event>, i: nat, m: Address)
    requires IsRun(u, states, events) && i < |states| && m in u.mutexes
    ensures var s := states[i];
            if Locked(Word(s, m)) then exists t :: Holders(s, m) == multiset{t} else Holders(s, m) == multiset{}
    ensures forall t :: var s := states[i];
            PcOf(s, t).Blocked? && PcOf(s, t).address == m && PcOf(s, t).notified ==> Holders(s, m) == multiset{t}
  {
    RunSafe(u, states, events, i);
    var s := states[i];
    if Locked(Word(s, m)) {
      var t := SomeMember(Holders(s, m));
      OnlyMember(Holders(s, m), t);
    }
    forall t | PcOf(s, t).Blocked? && PcOf(s, t).address == m && PcOf(s, t).notified
        ensures Holders(s, m) == multiset{t} {
      assert PcOf(s, t) == PcIn(s.pcs, t);
      OnlyMember(Holders(s, m), t);
    }
  }

  lemma SomeMember(h: multiset<Thread>) returns (t: Thread)
    requires |h| > 0
    ensures t in h
  {
    assert (forall x :: x !in h) ==> h == multiset{};
    t :| t in h;
  }

  lemma OnlyMember(h: multiset<Thread>, t: Thread)
    requires |h| <= 1 && t in h
    ensures h == multiset{t}
  {
    var rest := h - multiset{t};
    assert h == rest + multiset{t};
    assert rest == multiset{};
  }

  /** Waiters imply WAITING, and waiters of a free mutex imply an unblock still to run. */
  lemma NoLostWakeUps(u: Usage, states: seq<State>, events: seq<Event>, i: nat, m: Address)
    requires IsRun(u, states, events) && i < |states| && m in u.mutexes && Queue(states[i], m) != []
    ensures Contended(Word(states[i], m))
    ensures !Locked(Word(states[i], m)) ==> Pending(states[i], m)
  {
    RunSafe(u, states, events, i);
  }

  /** Whenever the table lock is free and m is free but waited for, some thread can run an
      unblock, and that makes the thread that has waited longest the owner. */
  lemma WaiterIsServed(u: Usage, states: seq<State>, events: seq<Event>, i: nat, m: Address) returns (t: Thread)
    requires IsRun(u, states, events) && i < |states| && m in u.mutexes
    requires states[i].section.Free? && Queue(states[i], m) != [] && !Locked(Word(states[i], m))
    ensures Enabled(states[i], Unblock(t, m, false), u)
    ensures var r := Next(states[i], Unblock(t, m, false)); var first := Queue(states[i], m)[0];
            && Holders(r, m) == multiset{first} && Locked(Word(r, m))
            && PcOf(r, first).Blocked? && PcOf(r, first).notified && Queue(r, m) == Queue(states[i], m)[1..]
  {
    hide Agree, Safe, IsRun, MutexCore;
    var s := states[i];
    RunSafe(u, states, events, i);
    NotASemaphore(u, states, events, m);
    t := PendingThread(s, u, m);
    var s0 := SetPc(s, t, Kernel);
    HandOffAtMutex(s0, m, {});
    QueueBelongs(s0, m, {});
    assert Queue(s0, m)[0] in Queue(s0, m);
    UnblockHandsOver(s0, t, m);
  }

  lemma NotASemaphore(u: Usage, states: seq<State>, events: seq<Event>, m: Address)
    requires IsRun(u, states, events) && m in u.mutexes
    ensures m !in u.sems
  {
  }

  /** A thread that still has its unblock to run, about to run it. */
  lemma PendingThread(s: State, u: Usage, m: Address) returns (t: Thread)
    requires Safe(s, u) && m in u.mutexes && s.section.Free? && Queue(s, m) != [] && !Locked(Word(s, m))
    ensures PcOf(s, t) == Unblocking(m)
    ensures var s0 := SetPc(s, t, Kernel);
            && Agree(s0, {}) && MutexCore(s0, m) && SameAt(s, s0, m)
            && (forall x :: x != t ==> PcIn(s0.pcs, x) == PcIn(s.pcs, x))
  {
    hide Agree;
    t :| PcIn(s.pcs, t) == Unblocking(m);
    SetPcAgrees(s, t, Kernel, {});
    var s0 := SetPc(s, t, Kernel);
    assert MutexCore(s, m);
    assert SameAt(s, s0, m);
    assert forall x :: x != t ==> PcIn(s0.pcs, x) == PcIn(s.pcs, x);
    assert MutexCore(s0, m);
  }

  lemma UnblockHandsOver(s: State, t: Thread, m: Address)
    requires PcOf(s, t).Kernel? && s.section.Free? && Queue(s, m) != [] && PcOf(s, Queue(s, m)[0]).Blocked?
    requires var r := UnblockFirst(s, m, false).0; var first := Queue(s, m)[0];
             PcOf(r, first) == Notified(PcOf(s, first))
    ensures var q := AfterUnblock(s, t, m, false, Return(m, Ok)); var r := UnblockFirst(s, m, false).0;
            SameViewAt(r, q, m) && PcOf(q, Queue(s, m)[0]) == PcOf(r, Queue(s, m)[0])
            && Word(q, m) == Word(r, m) && Queue(q, m) == Queue(r, m) && Holders(q, m) == Holders(r, m)
  {
    var r := UnblockFirst(s, m, false).0;
    hide UnblockFirst, Seen;
    ResumeEffect(r, t, Return(m, Ok), m);
    SameViewMeans(r, AfterUnblock(s, t, m, false, Return(m, Ok)), m);
  }

  /** A blocked waiter is un-notified and queued at exactly one place, on the entry it
      queued on, or notified and queued nowhere; a free table lock means no empty queue. */
  lemma TableAgreement(u: Usage, states: seq<State>, events: seq<Event>, i: nat)
    requires IsRun(u, states, events) && i < |states|
    ensures var s := states[i]; forall a, k :: 0 <= k < |Queue(s, a)| ==>
              QueuedAt(PcOf(s, Queue(s, a)[k]), a, At(s, a)) && forall l :: 0 <= l < |Queue(s, a)| && l != k ==>
                  Queue(s, a)[l] != Queue(s, a)[k]
    ensures var s := states[i]; forall t :: PcOf(s, t).Blocked? && !PcOf(s, t).notified ==>
              t in Queue(s, PcOf(s, t).address)
    ensures var s := states[i]; s.section.Free? ==> forall a :: At(s, a).entry.Some? ==> Queue(s, a) != []
  {
    RunSafe(u, states, events, i);
    var s := states[i];
    assert Agree(s, Open(s));
    hide IsRun, Safe;
    forall a, k | 0 <= k < |Queue(s, a)|
      ensures QueuedAt(PcOf(s, Queue(s, a)[k]), a, At(s, a)) && forall l :: 0 <= l < |Queue(s, a)| && l != k ==>
                Queue(s, a)[l] != Queue(s, a)[k]
    {
      assert Distinct(Waiters(CellIn(s.cells, a)));
      assert Queue(s, a)[k] in Waiters(CellIn(s.cells, a));
    }
    assert s.section.Free? ==> EntriesAreInUse(s, {});
  }

  /** Timing out: the entry the waiter queued on is the live one, and it leaves no trace;
      a notified waiter returns B_OK although its deadline has passed. */
  lemma WakeUpOutcome(u: Usage, states: seq<State>, events: seq<Event>, i: nat, t: Thread)
    requires IsRun(u, states, events) && i < |states|
    requires states[i].section.Free? && PcOf(states[i], t).Blocked?
    ensures var s := states[i]; var Blocked(kind, a, e, notified) := PcOf(s, t); var r := Next(s, Wake(t, true));
            if notified then PcOf(r, t) == User(Ok) && (forall x :: SameViewAt(s, r, x))
            else
              && At(s, a).entry.Some? && At(s, a).entry.value.id == e
              && Queue(r, a) == Without(Queue(s, a), t) && t !in Queue(r, a) && |Queue(r, a)| == |Queue(s, a)| - 1
              && (PcOf(r, t) == User(TimedOut) || r.section == ClearContended(t, a, Return(a, TimedOut)))
  {
    RunSafe(u, states, events, i);
    var s := states[i];
    var Blocked(kind, a, e, notified) := PcOf(s, t);
    hide IsRun, Safe;
    if notified {
      forall x ensures SameViewAt(s, Next(s, Wake(t, true)), x) { LeaveEffect(s, t, Ok, a, x); }
    } else {
      QueueBelongs(s, a, {});
      assert t in Queue(s, a);
      WithoutDistinct(Queue(s, a), t);
      var s1 := SetCell(s, a, WithQueue(At(s, a), Without(Queue(s, a), t)));
      LeaveEffect(s1, t, TimedOut, a, a);
      SameViewMeans(s1, Leave(s1, t, TimedOut, a), a);
      hide Agree, Leave, Seen;
    }
  }

  /** While threads wait for a semaphore nobody takes or gives a unit without the kernel, and a
      release serves the thread that has waited longest. */
  lemma SemWaiterIsServed(u: Usage, states: seq<State>, events: seq<Event>, i: nat, a: Address, t: Thread)
    requires IsRun(u, states, events) && i < |states| && a in u.sems
    requires states[i].section.Free? && Queue(states[i], a) != [] && Idle(states[i], t)
    ensures forall x :: !IsPossible(states[i], UserTake(x, a)) && !IsPossible(states[i], UserGive(x, a))
    ensures var s, r := states[i], Next(states[i], SemRelease(t, a)); var first := Queue(s, a)[0];
            && PcOf(s, first).Blocked? && PcOf(r, first) == Notified(PcOf(s, first)) && Queue(r, a) == Queue(s, a)[1..]
            && Word(r, a) == (if |Queue(s, a)| == 1 then 0 else -1)
  {
    hide Agree, IsRun, Safe;
    var s := states[i];
    RunSafe(u, states, events, i);
    SafeMeans(s, u, a);
    QueueBelongs(s, a, {});
    var first := Queue(s, a)[0];
    assert first in Queue(s, a);
    var s1 := GetEntry(s, a);
    assert s1 == s;
    var q := HandUnit(s, a);
    assert PcOf(s, first).Blocked? && PcOf(q, first) == Notified(PcOf(s, first));
    hide HandUnit, Leave, GetEntry;
    HandUnitCell(s, a);
    LeaveEffect(q, t, Ok, a, a);
    SameViewMeans(q, Leave(q, t, Ok, a), a);
    hide Seen;
  }

  lemma SafeMeans(s: State, u: Usage, a: Address)
    requires Safe(s, u) && a in u.sems
    ensures TableInv(s) && SemInv(s, a)
  {
  }

  lemma HandUnitCell(s: State, a: Address)
    requires Queue(s, a) != []
    ensures At(HandUnit(s, a), a) == HandedCell(At(s, a))
  {
  }
}
