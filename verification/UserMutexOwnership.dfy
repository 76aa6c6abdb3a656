/** Every step keeps a mutex owned by at most one thread and loses no wake-up. */
module UserMutexOwnership {
  import opened UserMutexWord
  import opened UserMutexMachine
  import opened UserMutexTable
  import opened UserMutexEffects

  /** Somebody has cleared LOCKED, has seen WAITING and still has the unblock to run. */
  ghost predicate Pending(s: State, m: Address) {
    || (exists t :: PcIn(s.pcs, t) == Unblocking(m))
    || (s.section.SwitchUnblock? && s.section.from == m)
  }

  /** LOCKED is set exactly when one thread owns m, and then no other does. */
  ghost predicate Owned(s: State, m: Address) {
    |Holders(s, m)| == if Locked(Word(s, m)) then 1 else 0
  }

  /** A queue means WAITING is set, and if nobody owns m then an unblock is on its way. */
  ghost predicate NoLostWakeUp(s: State, m: Address) {
    Queue(s, m) != [] ==> Contended(Word(s, m)) && (Locked(Word(s, m)) || Pending(s, m))
  }

  /** A waiter of m that was notified owns m although it has not run yet. */
  ghost predicate HandedOver(s: State, m: Address) {
    forall t :: PcIn(s.pcs, t).Blocked? && PcIn(s.pcs, t).address == m ==>
      PcIn(s.pcs, t).kind.MutexWait? && (PcIn(s.pcs, t).notified ==> t in Holders(s, m))
  }

  /** What the section still has to do to m is harmless. */
  ghost predicate SectionSafe(s: State, m: Address) {
    match s.section
    case Free => true
    case ClearContended(t, w, after) =>
      && (w == m ==> Queue(s, m) == [])
      && (after.UnlockFrom? && after.from == m ==> t in Holders(s, m) && !after.all)
    case SwitchUnlock(t, from, to, all) => from == m ==> t in Holders(s, m) && !all
    case SwitchUnblock(t, from, to, all) => from == m ==> !all
    case SemTry(t, a, oldValue) => a != m
    case SemGive(t, a, oldValue) => a != m
  }

  ghost predicate MutexCore(s: State, m: Address) {
    && !Disabled(Word(s, m))
    && Owned(s, m)
    && (Queue(s, m) != [] ==> Contended(Word(s, m)))
    && HandedOver(s, m)
  }

  ghost predicate MutexInv(s: State, m: Address) {
    MutexCore(s, m) && NoLostWakeUp(s, m) && SectionSafe(s, m)
  }

  lemma OnlyHolder(h: multiset<Thread>, t: Thread, x: Thread)
    requires |h| == 1 && t in h && x in h
    ensures t == x
  {
    var rest := h - multiset{t};
    assert h == rest + multiset{t};
    assert rest == multiset{};
  }

  lemma MutexFrame(s: State, r: State, m: Address)
    requires MutexInv(s, m) && ElsewhereOnly(s, r, m) && SectionSafe(r, m)
    ensures MutexInv(r, m)
  {
    SameViewMeans(s, r, m);
    hide Seen;
    if exists t :: PcIn(s.pcs, t) == Unblocking(m) {
      var t :| PcIn(s.pcs, t) == Unblocking(m);
      assert PcIn(r.pcs, t) == Unblocking(m);
    }
  }

  lemma LockAtMutex(s: State, t: Thread, m: Address)
    requires MutexInv(s, m) && s.section.Free? && Idle(s, t)
    ensures MutexInv(LockStep(s, t, m), m)
  {
    PrepareEffect(s, t, m, m);
    var p := PrepareToLock(At(GetEntry(s, m), m), t);
    var s1 := SetCell(GetEntry(s, m), m, p.cell);
    hide PrepareToLock, GetEntry, Leave, Enqueue;
    var r := LockStep(s, t, m);
    LeaveEffect(s1, t, Ok, m, m);
    EnqueueEffect(s1, t, MutexWait, m, m);
    assert forall x :: x != t ==> PcIn(r.pcs, x) == PcIn(s.pcs, x);
    hide SetCell;
    if p.acquired && !p.settle {
      SameViewMeans(s1, r, m);
    }
  }

  // ----- unblocking

  /** The hand-off makes the first waiter the owner. */
  lemma HandOffAtMutex(s: State, m: Address, open: set<Address>)
    requires Agree(s, open) && Queue(s, m) != [] && MutexCore(s, m) && !Locked(Word(s, m))
    ensures var r := UnblockFirst(s, m, false).0; var first := Queue(s, m)[0];
            && MutexCore(r, m) && Locked(Word(r, m)) && Queue(r, m) == Queue(s, m)[1..]
            && Holders(r, m) == multiset{first} && PcOf(r, first) == Notified(PcOf(s, first))
  {
    var first := Queue(s, m)[0];
    assert first in Queue(s, m);
    var c := At(s, m).(word := OrLocked(Word(s, m)), holders := Holders(s, m) + multiset{first});
    var s1 := SetCell(s, m, c);
    HandOffAgrees(s, m, c, open);
    var r := NotifyOne(s1, m);
    assert r.pcs == s.pcs[first := Notified(PcOf(s, first))];
    hide Agree, NotifyOne;
    assert Holders(s, m) == multiset{};
    assert forall x :: x != first ==> PcIn(r.pcs, x) == PcIn(s.pcs, x);
  }

  lemma UnblockFirstAtMutex(s: State, m: Address, open: set<Address>)
    requires Agree(s, open) && MutexCore(s, m)
    ensures var (r, clear) := UnblockFirst(s, m, false);
            && MutexCore(r, m) && (Queue(r, m) == [] || Locked(Word(r, m)))
            && (clear ==> Queue(r, m) == [])
  {
    UnblockFirstAgrees(s, m, false, open);
    if Queue(s, m) != [] && !Locked(Word(s, m)) {
      HandOffAtMutex(s, m, open);
    }
    hide Agree;
  }

  // ----- leaving a section

  lemma LeaveKeepsMutex(s: State, t: Thread, status: Status, a: Address, m: Address)
    requires MutexCore(s, m) && NoLostWakeUp(s, m) && !s.section.SwitchUnblock? && PcOf(s, t) != Unblocking(m)
    ensures MutexInv(Leave(s, t, status, a), m)
  {
    LeaveEffect(s, t, status, a, m);
    var s0 := s.(section := Free);
    assert MutexInv(s0, m);
    hide Leave, MutexInv, Seen;
    MutexFrame(s0, Leave(s, t, status, a), m);
  }

  lemma EndSwitchKeepsMutex(s: State, t: Thread, to: Address, m: Address)
    requires MutexInv(s, m) && s.section.Free? && PcOf(s, t) != Unblocking(m)
    ensures MutexInv(EndSwitch(s, t, to), m)
  {
    if !PcOf(s, t).Blocked? {
      LeaveKeepsMutex(s, t, Ok, to, m);
    }
  }

  lemma ResumeKeepsMutex(s: State, t: Thread, after: After, m: Address)
    requires MutexCore(s, m) && NoLostWakeUp(s, m) && s.section.Free? && PcOf(s, t) != Unblocking(m)
    requires after.UnlockFrom? && after.from == m ==> t in Holders(s, m) && !after.all
    ensures MutexInv(Resume(s, t, after), m)
  {
    match after
    case Return(a, status) => LeaveKeepsMutex(s, t, status, a, m);
    case UnlockFrom(from, to, all) =>
      assert SameAt(s, s.(section := SwitchUnlock(t, from, to, all)), m);
    case FinishSwitch(from, to) =>
      PutEntryEffect(s, from, m);
      hide PutEntry, Seen;
      assert MutexInv(s, m);
      MutexFrame(s, PutEntry(s, from), m);
      EndSwitchKeepsMutex(PutEntry(s, from), t, to, m);
  }

  lemma ClearSectionKeepsMutex(s: State, t: Thread, a: Address, after: After, m: Address)
    requires MutexCore(s, m) && NoLostWakeUp(s, m) && s.section.Free?
    requires a == m ==> Queue(s, m) == []
    requires after.UnlockFrom? && after.from == m ==> t in Holders(s, m) && !after.all
    ensures MutexInv(s.(section := ClearContended(t, a, after)), m)
  {
    assert SameAt(s, s.(section := ClearContended(t, a, after)), m);
  }

  // ----- the other steps

  /** A section step that unblocks m; `s` already has the thread in the kernel. */
  lemma AfterUnblockAtMutex(s: State, t: Thread, after: After, m: Address, open: set<Address>)
    requires Agree(s, open) && s.section.Free? && MutexCore(s, m)
    requires PcOf(s, t).Kernel? || PcOf(s, t).Blocked?
    requires !after.UnlockFrom?
    ensures MutexInv(AfterUnblock(s, t, m, false, after), m)
  {
    UnblockFirstAtMutex(s, m, open);
    UnblockFirstAgrees(s, m, false, open);
    var (r, clear) := UnblockFirst(s, m, false);
    assert PcIn(r.pcs, t) == PcIn(s.pcs, t) || PcIn(r.pcs, t) == Notified(PcIn(s.pcs, t));
    hide UnblockFirst, Agree, MutexCore, UnblockedCell;
    if clear {
      ClearSectionKeepsMutex(r, t, m, after, m);
    } else {
      ResumeKeepsMutex(r, t, after, m);
    }
  }

  lemma UnblockAtMutex(s: State, t: Thread, m: Address)
    requires TableInv(s) && MutexInv(s, m) && s.section.Free? && (Idle(s, t) || PcOf(s, t) == Unblocking(m))
    ensures MutexInv(UnblockStep(s, t, m, false), m)
  {
    hide Agree;
    var s0 := SetPc(s, t, Kernel);
    assert forall x :: x != t ==> PcIn(s0.pcs, x) == PcIn(s.pcs, x);
    SetPcAgrees(s, t, Kernel, {});
    assert SameAt(s, s0, m);
    assert MutexCore(s0, m);
    if At(s, m).entry.Some? {
      hide MutexCore;
      AfterUnblockAtMutex(s0, t, Return(m, Ok), m, {});
    } else {
      var r := UnblockStep(s, t, m, false);
      assert forall x :: x != t ==> PcIn(r.pcs, x) == PcIn(s.pcs, x);
    }
  }

  lemma SwitchToMutex(s: State, t: Thread, from: Address, all: bool, m: Address)
    requires MutexInv(s, m) && s.section.Free? && Idle(s, t)
    requires from == m ==> t in Holders(s, m) && !all
    ensures MutexInv(SwitchStep(s, t, from, m, all), m)
  {
    PrepareEffect(s, t, m, m);
    var p := PrepareToLock(At(GetEntry(s, m), m), t);
    var s1 := SetCell(GetEntry(s, m), m, p.cell);
    hide PrepareToLock, GetEntry, Enqueue;
    EnqueueEffect(s1, t, MutexWait, m, m);
    var r := SwitchStep(s, t, from, m, all);
    assert forall x :: x != t ==> PcIn(r.pcs, x) == PcIn(s.pcs, x);
    hide SetCell;
  }

  /** The owner clears LOCKED: nobody owns m any more, and no waiter of m had been notified. */
  lemma ReleaseKeepsCore(s: State, t: Thread, m: Address)
    requires MutexCore(s, m) && t in Holders(s, m)
    requires PcOf(s, t).Blocked? && PcOf(s, t).address == m ==> !PcOf(s, t).notified
    ensures MutexCore(Release(s, t, m), m)
  {
    forall x | x in Holders(s, m) ensures x == t {
      OnlyHolder(Holders(s, m), t, x);
    }
  }

  lemma SwitchUnlockAtMutex(s: State, m: Address)
    requires MutexInv(s, m) && s.section.SwitchUnlock? && s.section.from == m
    requires PcOf(s, s.section.thread).Blocked? ==> !PcOf(s, s.section.thread).notified
    requires PcOf(s, s.section.thread) != Unblocking(m)
    ensures MutexInv(ContinueStep(s), m)
  {
    var SwitchUnlock(t, from, to, all) := s.section;
    var s0 := s.(section := Free);
    var s1 := Release(s0, t, from);
    assert SameAt(s, s0, m);
    assert Queue(s1, m) == Queue(s, m) && Contended(Word(s1, m)) == Contended(Word(s, m));
    assert MutexCore(s0, m);
    ReleaseKeepsCore(s0, t, m);
    if Contended(Word(s, m)) && At(s, m).entry.Some? {
      assert MutexCore(s1.(section := SwitchUnblock(t, from, to, all)), m);
      hide Release, MutexCore;
    } else {
      assert Queue(s, m) == [];
      hide Release, MutexCore;
      EndSwitchKeepsMutex(s1, t, to, m);
    }
  }

  lemma SettleAtMutex(s: State, m: Address)
    requires MutexInv(s, m) && s.section.ClearContended? && s.section.word == m
    requires PcOf(s, s.section.thread) != Unblocking(m)
    ensures MutexInv(ContinueStep(s), m)
  {
    var ClearContended(t, a, after) := s.section;
    var s1 := SetWord(s.(section := Free), m, AndNotContended(Word(s, m)));
    assert MutexCore(s1, m) && NoLostWakeUp(s1, m) && Holders(s1, m) == Holders(s, m);
    hide SetWord, MutexCore;
    ResumeKeepsMutex(s1, t, after, m);
  }

  lemma ContinueAtMutex(s: State, m: Address)
    requires TableInv(s) && MutexInv(s, m) && !s.section.Free? && ActsOn(s.section) == m
    ensures MutexInv(ContinueStep(s), m)
  {
    hide Agree;
    match s.section
    case ClearContended(t, a, after) => SettleAtMutex(s, m);
    case SwitchUnlock(t, from, to, all) => SwitchUnlockAtMutex(s, m);
    case SwitchUnblock(t, from, to, all) =>
      var s0 := s.(section := Free);
      AgreeFrame(s, s0, Open(s));
      assert SameAt(s, s0, m);
      assert MutexCore(s0, m);
      hide MutexCore;
      AfterUnblockAtMutex(s0, t, FinishSwitch(from, to), m, Open(s));
  }

  lemma WakeAtMutex(s: State, t: Thread, m: Address)
    requires TableInv(s) && MutexInv(s, m) && s.section.Free?
    requires PcOf(s, t).Blocked? && PcOf(s, t).address == m && !PcOf(s, t).notified
    ensures MutexInv(WakeStep(s, t), m)
  {
    RemoveAgrees(s, t, Kernel);
    hide Agree;
    var s1 := SetCell(s, m, WithQueue(At(s, m), Without(Queue(s, m), t)));
    assert Word(s1, m) == Word(s, m) && Holders(s1, m) == Holders(s, m);
    assert Queue(s1, m) != [] ==> Queue(s, m) != [];
    assert MutexInv(s1, m);
    assert s1.pcs == s.pcs && s1.section.Free?;
    hide SetCell, MutexCore;
    if Queue(s1, m) == [] {
      var s2 := SetPc(s1, t, Kernel);
      assert forall x :: x != t ==> PcIn(s2.pcs, x) == PcIn(s1.pcs, x);
      assert SameAt(s1, s2, m);
      MutexFrame(s1, s2, m);
      ClearSectionKeepsMutex(s2, t, m, Return(m, TimedOut), m);
    } else {
      LeaveKeepsMutex(s1, t, TimedOut, m, m);
    }
  }

  lemma UserUnlockAtMutex(s: State, t: Thread, m: Address)
    requires TableInv(s) && MutexInv(s, m) && Idle(s, t) && t in Holders(s, m)
    ensures MutexInv(UserUnlockStep(s, t, m), m)
  {
    hide Agree;
    var s1 := Release(s, t, m);
    var r := UserUnlockStep(s, t, m);
    assert forall x :: x != t ==> PcIn(r.pcs, x) == PcIn(s.pcs, x);
    assert SameAt(s1, r, m) && r.section == s.section && s1.pcs == s.pcs;
    assert Contended(Word(s, m)) ==> PcIn(r.pcs, t) == Unblocking(m);
    ReleaseKeepsCore(s, t, m);
    assert Queue(s1, m) == Queue(s, m) && Contended(Word(s1, m)) == Contended(Word(s, m));
    forall x | x in Holders(s, m) ensures x == t {
      OnlyHolder(Holders(s, m), t, x);
    }
    hide UserUnlockStep, Release;
  }

  /** A mutex whose word is 0 is free, and nobody queues for it. */
  lemma UserLockAtMutex(s: State, t: Thread, m: Address)
    requires MutexInv(s, m) && Idle(s, t) && Word(s, m) == 0
    ensures MutexInv(UserLockStep(s, t, m), m)
  {
    var r := UserLockStep(s, t, m);
    assert r.pcs == s.pcs && Queue(r, m) == Queue(s, m) == [];
    hide UserLockStep;
  }
}
