/** Who owns a mutex, told by what happens in a run: by the calls that get it, the waiters that
    are notified, and the unlocks. */
module UserMutexOwners {
  import opened UserMutexWord
  import opened UserMutexMachine
  import opened UserMutexTable
  import opened UserMutexEffects
  import opened UserMutexOwnership
  import opened UserMutexRuns

  /** The waiters of m that are notified between s and r. */
  ghost function Chosen(s: State, r: State, m: Address): set<Thread> {
    set t | t in r.pcs && PcIn(s.pcs, t).Blocked? && PcIn(s.pcs, t).kind.MutexWait? && PcIn(s.pcs, t).address == m
            && !PcIn(s.pcs, t).notified && PcIn(r.pcs, t) == PcIn(s.pcs, t).(notified := true)
  }

  /** The thread of the step e gets m without having to wait. */
  ghost predicate Gets(e: Event, r: State, m: Address) {
    || (e.UserLock? && e.mutex == m)
    || (e.Lock? && e.mutex == m && !PcOf(r, e.thread).Blocked?)
    || (e.Switch? && e.to == m && !PcOf(r, e.thread).Blocked?)
  }

  ghost function Gained(s: State, e: Event, r: State, m: Address): multiset<Thread> {
    multiset(Chosen(s, r, m)) + if Gets(e, r, m) then multiset{e.thread} else multiset{}
  }

  ghost function Lost(s: State, e: Event, m: Address): multiset<Thread> {
    if e.UserUnlock? && e.mutex == m then multiset{e.thread}
    else if e.Continue? && s.section.SwitchUnlock? && s.section.from == m then multiset{s.section.thread}
    else multiset{}
  }

  ghost predicate Changes(s: State, e: Event, r: State, m: Address) {
    Holders(r, m) == Holders(s, m) - Lost(s, e, m) + Gained(s, e, r, m)
  }

  // ----- one step

  lemma NobodyChosen(s: State, r: State, m: Address, t: Thread)
    requires forall x :: x != t ==> PcIn(r.pcs, x) == PcIn(s.pcs, x)
    requires !PcIn(r.pcs, t).Blocked? || !PcIn(s.pcs, t).Blocked? || PcIn(r.pcs, t) == PcIn(s.pcs, t)
    ensures Chosen(s, r, m) == {}
  {
  }

  /** Nobody is notified, and only the thread t moves. */
  lemma OneChanges(s: State, e: Event, r: State, m: Address, t: Thread)
    requires forall x :: x != t ==> PcIn(r.pcs, x) == PcIn(s.pcs, x)
    requires !PcIn(r.pcs, t).Blocked? || !PcIn(s.pcs, t).Blocked? || PcIn(r.pcs, t) == PcIn(s.pcs, t)
    requires Holders(r, m) == Holders(s, m) - Lost(s, e, m) + if Gets(e, r, m) then multiset{e.thread} else multiset{}
    ensures Changes(s, e, r, m)
  {
    hide Chosen, Lost, Gets;
    NobodyChosen(s, r, m, t);
    assert multiset(Chosen(s, r, m)) == multiset{};
  }

  lemma ElsewhereChanges(s: State, e: Event, r: State, m: Address)
    requires ElsewhereOnly(s, r, m) && Lost(s, e, m) == multiset{} && !Gets(e, r, m)
    ensures Changes(s, e, r, m)
  {
    SameViewMeans(s, r, m);
    hide Seen;
    assert Chosen(s, r, m) == {};
  }

  lemma LockChanges(s: State, t: Thread, m: Address)
    requires s.section.Free? && Idle(s, t)
    ensures Changes(s, Lock(t, m), LockStep(s, t, m), m)
  {
    hide LockStep, Changes, Chosen;
    LockEffect(s, t, m);
    OneChanges(s, Lock(t, m), LockStep(s, t, m), m, t);
  }

  /** t gets m, or waits for it. */
  lemma LockEffect(s: State, t: Thread, m: Address)
    requires s.section.Free? && Idle(s, t)
    ensures var r := LockStep(s, t, m);
            && (forall x :: x != t ==> PcIn(r.pcs, x) == PcIn(s.pcs, x))
            && Holders(r, m) == Holders(s, m) + if PcOf(r, t).Blocked? then multiset{} else multiset{t}
  {
    hide PrepareToLock, GetEntry, Leave, Enqueue, SetCell, Seen, Waiters, Locked, Contended, Disabled;
    PrepareEffect(s, t, m, m);
    var p := PrepareToLock(At(GetEntry(s, m), m), t);
    var s1 := SetCell(GetEntry(s, m), m, p.cell);
    LeaveEffect(s1, t, Ok, m, m);
    EnqueueEffect(s1, t, MutexWait, m, m);
    if p.acquired && !p.settle {
      SameViewMeans(s1, LockStep(s, t, m), m);
    }
  }

  lemma SwitchChanges(s: State, t: Thread, from: Address, m: Address, all: bool)
    requires s.section.Free? && Idle(s, t)
    ensures Changes(s, Switch(t, from, m, all), SwitchStep(s, t, from, m, all), m)
  {
    hide SwitchStep, Changes, Chosen;
    SwitchEffect(s, t, from, m, all);
    OneChanges(s, Switch(t, from, m, all), SwitchStep(s, t, from, m, all), m, t);
  }

  /** The first step of a switch: t gets m, or waits for it. */
  lemma SwitchEffect(s: State, t: Thread, from: Address, m: Address, all: bool)
    requires s.section.Free? && Idle(s, t)
    ensures var r := SwitchStep(s, t, from, m, all);
            && (forall x :: x != t ==> PcIn(r.pcs, x) == PcIn(s.pcs, x))
            && Holders(r, m) == Holders(s, m) + if PcOf(r, t).Blocked? then multiset{} else multiset{t}
  {
    hide PrepareToLock, GetEntry, Enqueue, SetCell, Waiters, Locked, Contended, Disabled;
    PrepareEffect(s, t, m, m);
    var p := PrepareToLock(At(GetEntry(s, m), m), t);
    var s1 := SetCell(GetEntry(s, m), m, p.cell);
    EnqueueEffect(s1, t, MutexWait, m, m);
  }

  // ----- unblocking

  /** The first waiter of a free mutex is chosen, and nobody else. */
  lemma UnblockChooses(s: State, m: Address, open: set<Address>)
    requires Agree(s, open) && MutexCore(s, m)
    ensures var r := UnblockFirst(s, m, false).0;
            && Holders(r, m) == Holders(s, m) + multiset(Chosen(s, r, m))
            && forall x :: PcIn(r.pcs, x) == PcIn(s.pcs, x) || PcIn(r.pcs, x) == Notified(PcIn(s.pcs, x))
  {
    var r := UnblockFirst(s, m, false).0;
    if Queue(s, m) != [] && !Locked(Word(s, m)) {
      var first := Queue(s, m)[0];
      HandOffAtMutex(s, m, open);
      QueueBelongs(s, m, open);
      hide Agree, MutexCore;
      assert first in Queue(s, m);
      assert r.pcs == s.pcs[first := Notified(PcIn(s.pcs, first))];
      FirstChosen(s, r, m, first);
      assert Holders(s, m) == multiset{};
    } else {
      assert r.pcs == s.pcs && Holders(r, m) == Holders(s, m);
      assert Chosen(s, r, m) == {};
    }
  }

  lemma FirstChosen(s: State, r: State, m: Address, first: Thread)
    requires PcIn(s.pcs, first).Blocked? && PcIn(s.pcs, first).kind.MutexWait? && PcIn(s.pcs, first).address == m
    requires !PcIn(s.pcs, first).notified && r.pcs == s.pcs[first := Notified(PcIn(s.pcs, first))]
    ensures Chosen(s, r, m) == {first}
  {
    assert forall x :: x != first ==> PcIn(r.pcs, x) == PcIn(s.pcs, x);
  }

  /** What follows an unblock in its section chooses nobody. */
  lemma AfterChanges(s: State, r: State, q: State, m: Address, t: Thread)
    requires forall x :: x != t ==> PcIn(q.pcs, x) == PcIn(r.pcs, x)
    requires PcIn(q.pcs, t) == PcIn(r.pcs, t) || (PcIn(q.pcs, t).User? && !PcIn(r.pcs, t).Blocked?)
    ensures Chosen(s, q, m) == Chosen(s, r, m)
  {
    forall x ensures x in Chosen(s, q, m) <==> x in Chosen(s, r, m) {
      if x == t && !PcIn(r.pcs, t).Blocked? {
        assert !PcIn(q.pcs, t).Blocked?;
      }
    }
  }

  lemma AfterUnblockChanges(s: State, t: Thread, after: After, m: Address, open: set<Address>)
    requires Agree(s, open) && MutexCore(s, m) && s.section.Free? && !after.UnlockFrom?
    requires PcOf(s, t).Kernel? || (PcOf(s, t).Blocked? && after.FinishSwitch?)
    ensures var q := AfterUnblock(s, t, m, false, after);
            Holders(q, m) == Holders(s, m) + multiset(Chosen(s, q, m))
  {
    UnblockChooses(s, m, open);
    var (r, clear) := UnblockFirst(s, m, false);
    var q := AfterUnblock(s, t, m, false, after);
    hide UnblockFirst, Agree, MutexCore;
    assert PcIn(r.pcs, t).Blocked? == PcIn(s.pcs, t).Blocked?;
    if clear {
      assert q.pcs == r.pcs && Holders(q, m) == Holders(r, m);
    } else {
      ResumeEffect(r, t, after, m);
      SameViewMeans(r, q, m);
      ResumePc(r, t, after);
    }
    hide Resume, Seen;
    AfterChanges(s, r, q, m, t);
  }

  /** A blocked thread is not resumed to user space. */
  lemma ResumePc(s: State, t: Thread, after: After)
    requires !after.UnlockFrom? && (after.Return? ==> !PcOf(s, t).Blocked?)
    ensures var r := Resume(s, t, after);
            && (forall x :: x != t ==> PcIn(r.pcs, x) == PcIn(s.pcs, x))
            && (PcIn(r.pcs, t) == PcIn(s.pcs, t) || (PcIn(r.pcs, t).User? && !PcIn(s.pcs, t).Blocked?))
  {
    match after
    case Return(a, status) => LeaveEffect(s, t, status, a, a);
    case FinishSwitch(from, to) =>
      PutEntryEffect(s, from, from);
      EndSwitchEffect(PutEntry(s, from), t, to, to);
      hide PutEntry, EndSwitch;
  }

  lemma UnblockChanges(s: State, t: Thread, m: Address)
    requires TableInv(s) && MutexInv(s, m) && s.section.Free? && (Idle(s, t) || PcOf(s, t) == Unblocking(m))
    ensures Changes(s, Unblock(t, m, false), UnblockStep(s, t, m, false), m)
  {
    hide Agree, Chosen, MutexCore, AfterUnblock, SetWord;
    var s0, r := SetPc(s, t, Kernel), UnblockStep(s, t, m, false);
    if At(s, m).entry.Some? {
      EnterKeepsCore(s, t, m);
      AfterUnblockChanges(s0, t, Return(m, Ok), m, {});
      ChosenFrom(s, s0, r, m, t);
    } else {
      NoEntryChanges(s, t, m);
    }
  }

  lemma NoEntryChanges(s: State, t: Thread, m: Address)
    requires !PcOf(s, t).Blocked? && At(s, m).entry.None?
    ensures Changes(s, Unblock(t, m, false), UnblockStep(s, t, m, false), m)
  {
    hide Changes, Chosen;
    var r := UnblockStep(s, t, m, false);
    assert Holders(r, m) == Holders(s, m);
    assert forall x :: x != t ==> PcIn(r.pcs, x) == PcIn(s.pcs, x);
    OneChanges(s, Unblock(t, m, false), r, m, t);
  }

  /** A thread that enters the kernel changes nothing about m. */
  lemma EnterKeepsCore(s: State, t: Thread, m: Address)
    requires TableInv(s) && MutexInv(s, m) && s.section.Free? && (Idle(s, t) || PcOf(s, t) == Unblocking(m))
    ensures var s0 := SetPc(s, t, Kernel); Agree(s0, {}) && MutexCore(s0, m) && Holders(s0, m) == Holders(s, m)
  {
    hide Agree;
    var s0 := SetPc(s, t, Kernel);
    SetPcAgrees(s, t, Kernel, {});
    assert SameAt(s, s0, m);
    assert forall x :: x != t ==> PcIn(s0.pcs, x) == PcIn(s.pcs, x);
  }

  lemma ChosenFrom(s: State, s0: State, r: State, m: Address, t: Thread)
    requires s0 == SetPc(s, t, Kernel) && !PcOf(s, t).Blocked?
    ensures Chosen(s, r, m) == Chosen(s0, r, m)
  {
    assert forall x :: x != t ==> PcIn(s0.pcs, x) == PcIn(s.pcs, x);
  }

  // ----- sections

  lemma SettleChanges(s: State, m: Address)
    requires TableInv(s) && s.section.ClearContended? && s.section.word == m
    ensures Changes(s, Continue, ContinueStep(s), m)
  {
    hide Agree, Resume, Seen, Changes, Chosen;
    var ClearContended(t, a, after) := s.section;
    var s1, r := SetWord(s.(section := Free), m, AndNotContended(Word(s, m))), ContinueStep(s);
    assert s1.pcs == s.pcs && Holders(s1, m) == Holders(s, m);
    ResumeEffect(s1, t, after, m);
    SameViewMeans(s1, r, m);
    assert forall x :: x != t ==> PcIn(r.pcs, x) == PcIn(s.pcs, x);
    OneChanges(s, Continue, r, m, t);
  }

  lemma SwitchUnlockChanges(s: State, m: Address)
    requires TableInv(s) && s.section.SwitchUnlock? && s.section.from == m
    ensures Changes(s, Continue, ContinueStep(s), m)
  {
    hide Agree, EndSwitch, Seen, Changes, Chosen, Release;
    var SwitchUnlock(t, from, to, all) := s.section;
    var s1, r := Release(s.(section := Free), t, from), ContinueStep(s);
    ReleaseAt(s, t, m);
    EndSwitchEffect(s1, t, to, m);
    if !(Contended(Word(s, from)) && At(s, from).entry.Some?) {
      SameViewMeans(s1, r, m);
    }
    assert forall x :: x != t ==> PcIn(r.pcs, x) == PcIn(s.pcs, x);
    OneChanges(s, Continue, r, m, t);
  }

  lemma ReleaseAt(s: State, t: Thread, m: Address)
    ensures var r := Release(s.(section := Free), t, m);
            r.pcs == s.pcs && Holders(r, m) == Holders(s, m) - multiset{t} && r.section.Free?
  {
  }

  lemma ContinueChanges(s: State, m: Address)
    requires TableInv(s) && MutexInv(s, m) && !s.section.Free? && ActsOn(s.section) == m
    ensures Changes(s, Continue, ContinueStep(s), m)
  {
    hide Agree;
    match s.section
    case ClearContended(t, a, after) => SettleChanges(s, m);
    case SwitchUnlock(t, from, to, all) => SwitchUnlockChanges(s, m);
    case SwitchUnblock(t, from, to, all) =>
      var s0 := s.(section := Free);
      AgreeFrame(s, s0, Open(s));
      assert SameAt(s, s0, m);
      assert MutexCore(s0, m);
      hide MutexCore;
      AfterUnblockChanges(s0, t, FinishSwitch(from, to), m, Open(s));
  }

  lemma WakeChanges(s: State, t: Thread, expired: bool, m: Address)
    requires TableInv(s) && s.section.Free? && PcOf(s, t).Blocked? && PcOf(s, t).address == m
    ensures Changes(s, Wake(t, expired), WakeStep(s, t), m)
  {
    hide Agree, Seen, Leave, Changes, Chosen;
    var r := WakeStep(s, t);
    if PcOf(s, t).notified {
      LeaveEffect(s, t, Ok, m, m);
      SameViewMeans(s, r, m);
    } else {
      RemoveAgrees(s, t, Kernel);
      var s1 := SetCell(s, m, WithQueue(At(s, m), Without(Queue(s, m), t)));
      LeaveEffect(s1, t, TimedOut, m, m);
      SameViewMeans(s1, Leave(s1, t, TimedOut, m), m);
    }
    assert forall x :: x != t ==> PcIn(r.pcs, x) == PcIn(s.pcs, x);
    OneChanges(s, Wake(t, expired), r, m, t);
  }

  lemma UserChanges(s: State, e: Event, m: Address)
    requires IsPossible(s, e) && (e.UserLock? || e.UserUnlock?) && e.mutex == m
    ensures Changes(s, e, Next(s, e), m)
  {
    hide Changes, Chosen, OrLocked, AndNotLocked;
    var r := Next(s, e);
    assert forall x :: x != e.thread ==> PcIn(r.pcs, x) == PcIn(s.pcs, x);
    OneChanges(s, e, r, m, e.thread);
  }

  lemma StepChanges(s: State, e: Event, u: Usage, m: Address)
    requires TableInv(s) && MutexInv(s, m) && Enabled(s, e, u) && m in u.mutexes && m !in u.sems
    ensures Changes(s, e, Next(s, e), m)
  {
    hide Agree, Changes, MutexCore, Seen, SameThreadsAt, NoLostWakeUp;
    if Target(s, e) != m {
      StepElsewhere(s, e, u, m);
      ElsewhereChanges(s, e, Next(s, e), m);
    } else {
      match e
      case Lock(t, _) => LockChanges(s, t, m);
      case Unblock(t, _, all) => UnblockChanges(s, t, m);
      case Switch(t, from, _, all) => SwitchChanges(s, t, from, m, all);
      case Wake(t, expired) => WakeChanges(s, t, expired, m);
      case Continue => ContinueChanges(s, m);
      case UserLock(_, _) => UserChanges(s, e, m);
      case UserUnlock(_, _) => UserChanges(s, e, m);
      case _ =>
    }
  }

  // ----- runs

  /** Who has got m in the first i steps and has not unlocked it since. */
  ghost function Owners(states: seq<State>, events: seq<Event>, i: nat, m: Address): multiset<Thread>
    requires i <= |events| < |states|
  {
    if i == 0 then multiset{}
    else
      Owners(states, events, i - 1, m) - Lost(states[i - 1], events[i - 1], m)
      + Gained(states[i - 1], events[i - 1], states[i], m)
  }

  lemma {:induction false} HoldersAreOwners(u: Usage, states: seq<State>, events: seq<Event>, i: nat, m: Address)
    requires IsRun(u, states, events) && i <= |events| && m in u.mutexes
    ensures Holders(states[i], m) == Owners(states, events, i, m)
  {
    hide Safe, Next, Enabled, Gained, Lost;
    if i > 0 {
      HoldersAreOwners(u, states, events, i - 1, m);
      RunSafe(u, states, events, i - 1);
      SafeMutex(states[i - 1], u, m);
      NotASemaphore(u, states, events, m);
      StepChanges(states[i - 1], events[i - 1], u, m);
    } else {
      assert At(states[0], m) == CellIn(states[0].cells, m);
    }
  }

  lemma SafeMutex(s: State, u: Usage, m: Address)
    requires Safe(s, u) && m in u.mutexes
    ensures TableInv(s) && MutexInv(s, m)
  {
  }

  /** Never do two threads have the mutex at a time, and LOCKED is set exactly while one has it. */
  lemma OneOwner(u: Usage, states: seq<State>, events: seq<Event>, i: nat, m: Address)
    requires IsRun(u, states, events) && i <= |events| && m in u.mutexes
    ensures |Owners(states, events, i, m)| == if Locked(Word(states[i], m)) then 1 else 0
  {
    RunSafe(u, states, events, i);
    SafeMutex(states[i], u, m);
    HoldersAreOwners(u, states, events, i, m);
    hide Safe, IsRun;
  }
}
