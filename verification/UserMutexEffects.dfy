/** What each step leaves alone: the cell of every address it does not act on, and every
    thread that is blocked on such an address. */
module UserMutexEffects {
  import opened UserMutexWord
  import opened UserMutexMachine
  import opened Collections
  import opened UserMutexTable

  /** Word, table entry and owners of m. */
  ghost predicate SameAt(s: State, r: State, m: Address) {
    CellIn(r.cells, m) == CellIn(s.cells, m)
  }

  /** No thread of interest to m starts or stops being so. */
  ghost predicate SameThreadsAt(s: State, r: State, m: Address) {
    forall x :: PcIn(r.pcs, x) == PcIn(s.pcs, x)
                || (PcIn(s.pcs, x) != Unblocking(m) && !(PcIn(r.pcs, x).Blocked? && PcIn(r.pcs, x).address == m))
  }

  /** A cell without the empty entry that put_entry may or may not have dropped yet. */
  ghost function Seen(c: Cell): Cell {
    if Waiters(c) == [] then c.(entry := None) else c
  }

  /** Words, owners and waiters of m are the same. */
  ghost predicate SameViewAt(s: State, r: State, m: Address) {
    Seen(CellIn(r.cells, m)) == Seen(CellIn(s.cells, m))
  }

  lemma SameViewMeans(s: State, r: State, m: Address)
    requires SameViewAt(s, r, m)
    ensures Word(r, m) == Word(s, m) && Queue(r, m) == Queue(s, m) && Holders(r, m) == Holders(s, m)
  {
  }

  /** The step from s to r did not act on m. */
  ghost predicate ElsewhereOnly(s: State, r: State, m: Address) {
    && SameViewAt(s, r, m) && SameThreadsAt(s, r, m)
    && (s.section.SwitchUnblock? && s.section.from == m ==> r.section == s.section)
  }

  // ----- the pieces

  lemma PutEntryEffect(s: State, a: Address, m: Address)
    ensures var r := PutEntry(s, a); SameViewAt(s, r, m) && r.pcs == s.pcs && r.section == s.section
  {
  }

  lemma LeaveEffect(s: State, t: Thread, status: Status, a: Address, m: Address)
    ensures var r := Leave(s, t, status, a);
            && r.section.Free? && r.pcs == s.pcs[t := User(status)] && SameViewAt(s, r, m)
  {
  }

  lemma EndSwitchEffect(s: State, t: Thread, to: Address, m: Address)
    ensures var r := EndSwitch(s, t, to);
            SameViewAt(s, r, m) && r.section.Free?
                && (r.pcs == s.pcs || (!PcOf(s, t).Blocked? && r.pcs == s.pcs[t := User(Ok)]))
  {
    if !PcOf(s, t).Blocked? {
      LeaveEffect(s, t, Ok, to, m);
    }
  }

  /** Resuming a section changes no word, queue or owner, only the running thread. */
  lemma ResumeEffect(s: State, t: Thread, after: After, m: Address)
    ensures var r := Resume(s, t, after);
            SameViewAt(s, r, m) && (r.pcs == s.pcs || (t in r.pcs && r.pcs[t].User? && r.pcs == s.pcs[t := r.pcs[t]]))
  {
    match after
    case Return(a, status) => LeaveEffect(s, t, status, a, m);
    case UnlockFrom(from, to, all) =>
    case FinishSwitch(from, to) =>
      PutEntryEffect(s, from, m);
      EndSwitchEffect(PutEntry(s, from), t, to, m);
      hide PutEntry, EndSwitch;
  }

  /** lock and switch_lock up to where they wait or know that they need not. */
  lemma PrepareEffect(s: State, t: Thread, a: Address, m: Address)
    ensures var s0, c := GetEntry(s, a), At(s, a);
            var p := PrepareToLock(At(s0, a), t);
            var s1 := SetCell(s0, a, p.cell);
            && s1.pcs == s.pcs && s1.section == s.section && (m != a ==> SameAt(s, s1, m))
            && At(s1, a) == p.cell && p.cell.entry.Some?
            && p.acquired == (!Locked(c.word) || Disabled(c.word))
            && p.settle == (p.acquired && !Contended(c.word) && Waiters(c) == [])
            && p.cell.word == OrContended(OrLocked(c.word)) && Waiters(p.cell) == Waiters(c)
            && p.cell.holders == (if p.acquired then c.holders + multiset{t} else c.holders)
  {
  }

  lemma EnqueueEffect(s: State, t: Thread, kind: Kind, a: Address, m: Address)
    requires At(s, a).entry.Some?
    ensures var r := Enqueue(s, t, kind, a); var c := At(s, a);
            && r.section == s.section && r.pcs == s.pcs[t := Blocked(kind, a, c.entry.value.id, false)]
            && At(r, a) == WithQueue(c, Waiters(c) + [t]) && (m != a ==> SameAt(s, r, m))
  {
  }

  lemma UnblockFirstElsewhere(s: State, a: Address, all: bool, m: Address, open: set<Address>)
    requires Agree(s, open) && a != m
    ensures var r := UnblockFirst(s, a, all).0; SameAt(s, r, m) && SameThreadsAt(s, r, m)
  {
    UnblockFirstAgrees(s, a, all, open);
    QueueBelongs(s, a, open);
    hide UnblockFirst, Agree;
  }

  lemma AfterUnblockElsewhere(s: State, t: Thread, a: Address, all: bool, after: After, m: Address, open: set<Address>)
    requires Agree(s, open) && a != m && PcOf(s, t) != Unblocking(m)
    ensures var r := AfterUnblock(s, t, a, all, after); SameViewAt(s, r, m) && SameThreadsAt(s, r, m)
  {
    hide Seen, UnblockFirst, Agree, Resume;
    UnblockFirstElsewhere(s, a, all, m, open);
    ResumeEffect(UnblockFirst(s, a, all).0, t, after, m);
  }

  /** A queue holds threads blocked at its address. */
  lemma QueueBelongs(s: State, a: Address, open: set<Address>)
    requires Agree(s, open)
    ensures forall x :: x in Queue(s, a) ==> QueuedAt(PcIn(s.pcs, x), a, CellIn(s.cells, a))
  {
  }

  // ----- the steps

  lemma LockElsewhere(s: State, t: Thread, a: Address, m: Address)
    requires s.section.Free? && Idle(s, t) && a != m
    ensures ElsewhereOnly(s, LockStep(s, t, a), m)
  {
    hide Seen;
    PrepareEffect(s, t, a, m);
    var p := PrepareToLock(At(GetEntry(s, a), a), t);
    var s1 := SetCell(GetEntry(s, a), a, p.cell);
    hide PrepareToLock, GetEntry, Leave, Enqueue;
    LeaveEffect(s1, t, Ok, a, m);
    EnqueueEffect(s1, t, MutexWait, a, m);
  }

  lemma SwitchElsewhere(s: State, t: Thread, from: Address, to: Address, all: bool, m: Address)
    requires s.section.Free? && Idle(s, t) && to != m
    ensures ElsewhereOnly(s, SwitchStep(s, t, from, to, all), m)
  {
    hide Seen, PrepareToLock, GetEntry, Enqueue, SetCell, Waiters;
    PrepareEffect(s, t, to, m);
    var p := PrepareToLock(At(GetEntry(s, to), to), t);
    var s1 := SetCell(GetEntry(s, to), to, p.cell);
    EnqueueEffect(s1, t, MutexWait, to, m);
  }

  lemma UnblockElsewhere(s: State, t: Thread, a: Address, all: bool, m: Address)
    requires TableInv(s) && s.section.Free? && a != m && (Idle(s, t) || PcOf(s, t) == Unblocking(a))
    ensures ElsewhereOnly(s, UnblockStep(s, t, a, all), m)
  {
    hide Seen;
    var s0 := SetPc(s, t, Kernel);
    assert forall x :: x != t ==> PcIn(s0.pcs, x) == PcIn(s.pcs, x);
    SetPcAgrees(s, t, Kernel, {});
    hide Agree;
    if At(s, a).entry.Some? {
      AfterUnblockElsewhere(s0, t, a, all, Return(a, Ok), m, {});
      hide AfterUnblock;
    } else {
      var r := UnblockStep(s, t, a, all);
      assert forall x :: x != t ==> PcIn(r.pcs, x) == PcIn(s.pcs, x);
    }
  }

  /** The word a section acts on next. */
  ghost function ActsOn(section: Section): Address
    requires !section.Free?
  {
    match section
    case ClearContended(_, w, _) => w
    case SwitchUnlock(_, from, _, _) => from
    case SwitchUnblock(_, from, _, _) => from
    case SemTry(_, a, _) => a
    case SemGive(_, a, _) => a
  }

  lemma SettleElsewhere(s: State, m: Address)
    requires s.section.ClearContended? && s.section.word != m && PcOf(s, s.section.thread) != Unblocking(m)
    ensures ElsewhereOnly(s, ContinueStep(s), m)
  {
    var ClearContended(t, a, after) := s.section;
    var s1 := SetWord(s.(section := Free), a, AndNotContended(Word(s, a)));
    assert SameAt(s, s1, m) && s1.pcs == s.pcs;
    hide Resume, SetWord, Seen;
    ResumeEffect(s1, t, after, m);
  }

  lemma ReleaseEffect(s: State, t: Thread, from: Address, m: Address)
    requires from != m
    ensures var r := Release(s.(section := Free), t, from); SameAt(s, r, m) && r.pcs == s.pcs
  {
  }

  lemma SwitchUnlockElsewhere(s: State, m: Address)
    requires s.section.SwitchUnlock? && s.section.from != m && PcOf(s, s.section.thread) != Unblocking(m)
    ensures ElsewhereOnly(s, ContinueStep(s), m)
  {
    hide EndSwitch, Release, Seen;
    var SwitchUnlock(t, from, to, all) := s.section;
    ReleaseEffect(s, t, from, m);
    EndSwitchEffect(Release(s.(section := Free), t, from), t, to, m);
  }

  lemma TryAgainElsewhere(s: State, t: Thread, a: Address, value: int, m: Address)
    requires a != m && (PcOf(s, t).Kernel? || Idle(s, t)) && s.section.Free?
    ensures ElsewhereOnly(s, TryAgain(s, t, a, value), m)
  {
    hide Seen;
    if At(s, a).entry.Some? {
      EnqueueEffect(s, t, SemWait, a, m);
    }
    hide Enqueue;
  }

  lemma SemTryElsewhere(s: State, m: Address)
    requires TableInv(s) && s.section.SemTry? && s.section.sem != m
    ensures ElsewhereOnly(s, ContinueStep(s), m)
  {
    hide Agree, Seen;
    var SemTry(t, a, oldValue) := s.section;
    var s0, value := s.(section := Free), Word(s, a);
    var s1 := SetWord(s0, a, value - 1);
    assert SameAt(s, s1, m) && s1.pcs == s.pcs;
    LeaveEffect(s1, t, Ok, a, m);
    var s2 := if value == oldValue then SetWord(s0, a, value - 1) else s0;
    assert SameAt(s, s2, m) && s2.pcs == s.pcs;
    hide SetCell, Leave, TryAgain;
    TryAgainElsewhere(s2, t, a, value, m);
  }

  lemma SemGiveElsewhere(s: State, m: Address)
    requires TableInv(s) && s.section.SemGive? && s.section.sem != m
    ensures ElsewhereOnly(s, ContinueStep(s), m)
  {
    hide Agree, Seen;
    var SemGive(t, a, oldValue) := s.section;
    var s1 := SetWord(s.(section := Free), a, OneMore(oldValue));
    assert SameAt(s, s1, m) && s1.pcs == s.pcs;
    hide SetCell, Leave;
    LeaveEffect(s1, t, Ok, a, m);
  }

  lemma ContinueElsewhere(s: State, m: Address)
    requires TableInv(s) && !s.section.Free? && ActsOn(s.section) != m
    ensures ElsewhereOnly(s, ContinueStep(s), m)
  {
    hide Agree;
    match s.section
    case ClearContended(t, a, after) => SettleElsewhere(s, m);
    case SwitchUnlock(t, from, to, all) => SwitchUnlockElsewhere(s, m);
    case SwitchUnblock(t, from, to, all) =>
      var s0 := s.(section := Free);
      AgreeFrame(s, s0, Open(s));
      AfterUnblockElsewhere(s0, t, from, all, FinishSwitch(from, to), m, Open(s));
      hide AfterUnblock;
    case SemTry(t, a, oldValue) => SemTryElsewhere(s, m);
    case SemGive(t, a, oldValue) => SemGiveElsewhere(s, m);
  }

  lemma WakeElsewhere(s: State, t: Thread, m: Address)
    requires TableInv(s) && s.section.Free? && PcOf(s, t).Blocked?
    requires PcOf(s, t).address == m ==> PcOf(s, t).notified
    ensures ElsewhereOnly(s, WakeStep(s, t), m)
  {
    hide Seen;
    var Blocked(kind, a, e, notified) := PcOf(s, t);
    if notified {
      LeaveEffect(s, t, Ok, a, m);
      hide Leave;
    } else {
      RemoveAgrees(s, t, Kernel);
      hide Agree;
      var s1 := SetCell(s, a, WithQueue(At(s, a), Without(Queue(s, a), t)));
      assert SameAt(s, s1, m) && s1.pcs == s.pcs;
      LeaveEffect(s1, t, TimedOut, a, m);
      hide Leave, SetCell;
    }
  }

  lemma UserUnlockElsewhere(s: State, t: Thread, a: Address, m: Address)
    requires Idle(s, t) && a != m
    ensures ElsewhereOnly(s, UserUnlockStep(s, t, a), m)
  {
    var s1 := Release(s, t, a);
    assert SameAt(s, s1, m) && s1.pcs == s.pcs && s1.section == s.section;
    hide Release;
  }

  lemma GetEntryEffect(s: State, a: Address, m: Address)
    requires a != m
    ensures var r := GetEntry(s, a); SameAt(s, r, m) && r.pcs == s.pcs && r.section == s.section && At(r, a).entry.Some?
  {
  }

  lemma SemAcquireElsewhere(s: State, t: Thread, a: Address, m: Address)
    requires s.section.Free? && Idle(s, t) && a != m
    ensures ElsewhereOnly(s, SemAcquireStep(s, t, a), m)
  {
    hide Seen, GetEntry, TryAgain;
    GetEntryEffect(s, a, m);
    TryAgainElsewhere(GetEntry(s, a), t, a, Word(GetEntry(s, a), a), m);
  }

  lemma SemReleaseElsewhere(s: State, t: Thread, a: Address, m: Address)
    requires TableInv(s) && s.section.Free? && Idle(s, t) && a != m
    ensures ElsewhereOnly(s, SemReleaseStep(s, t, a), m)
  {
    hide Seen;
    var s1 := GetEntry(s, a);
    GetEntryAgrees(s, a, {});
    assert {} + {a} == {a};
    assert SameAt(s, s1, m) && s1.pcs == s.pcs && s1.section == s.section;
    if Queue(s1, a) != [] {
      HandUnitAgrees(s1, a);
      QueueBelongs(s1, a, {a});
      hide Agree, GetEntry, HandUnit;
      LeaveEffect(HandUnit(s1, a), t, Ok, a, m);
      hide Leave;
    } else {
      hide Agree, GetEntry, HandUnit;
    }
  }

  /** An event in user space changes one word. */
  lemma OutsideElsewhere(s: State, e: Event, m: Address)
    requires IsOutside(e) && IsPossible(s, e) && Target(s, e) != m
    ensures ElsewhereOnly(s, Next(s, e), m)
  {
    hide ElsewhereOnly;
    match e
    case UserLock(t, a) => WordElsewhere(s, a, At(UserLockStep(s, t, a), a), m);
    case UserUnlock(t, a) => UserUnlockElsewhere(s, t, a, m);
    case UserTake(_, a) => WordElsewhere(s, a, At(s, a).(word := Word(s, a) - 1), m);
    case UserGive(_, a) => WordElsewhere(s, a, At(s, a).(word := Word(s, a) + 1), m);
    case Poke(a, v) => WordElsewhere(s, a, At(s, a).(word := v), m);
  }

  lemma WordElsewhere(s: State, a: Address, c: Cell, m: Address)
    requires a != m
    ensures ElsewhereOnly(s, SetCell(s, a, c), m)
  {
    assert SameAt(s, SetCell(s, a, c), m);
  }

  /** The word an event acts on first, if it is not the continuation of a section. */
  ghost function Target(s: State, e: Event): Address
    requires e.Continue? ==> !s.section.Free?
    requires e.Wake? ==> PcOf(s, e.thread).Blocked?
  {
    match e
    case Lock(_, m) => m
    case Unblock(_, m, _) => m
    case Switch(_, _, to, _) => to
    case SemAcquire(_, a) => a
    case SemRelease(_, a) => a
    case Continue => ActsOn(s.section)
    case Wake(t, _) => PcOf(s, t).address
    case UserLock(_, m) => m
    case UserUnlock(_, m) => m
    case UserTake(_, a) => a
    case UserGive(_, a) => a
    case Poke(a, _) => a
  }

  lemma StepElsewhere(s: State, e: Event, u: Usage, m: Address)
    requires TableInv(s) && Enabled(s, e, u) && Target(s, e) != m
    ensures ElsewhereOnly(s, Next(s, e), m)
  {
    hide Agree;
    match e
    case Lock(t, a) => LockElsewhere(s, t, a, m);
    case Unblock(t, a, all) => UnblockElsewhere(s, t, a, all, m);
    case Switch(t, from, to, all) => SwitchElsewhere(s, t, from, to, all, m);
    case SemAcquire(t, a) => SemAcquireElsewhere(s, t, a, m);
    case SemRelease(t, a) => SemReleaseElsewhere(s, t, a, m);
    case Continue => ContinueElsewhere(s, m);
    case Wake(t, expired) => WakeElsewhere(s, t, m);
    case _ => OutsideElsewhere(s, e, m);
  }

  // ----- sections

  /** Which section may follow an event. */
  ghost predicate SectionFollows(s: State, e: Event, next: Section)
    requires e.Continue? ==> !s.section.Free?
    requires e.Wake? ==> PcOf(s, e.thread).Blocked?
  {
    match next
    case Free => true
    case ClearContended(t, w, after) =>
      || (next == s.section && IsOutside(e))
      || (w == Target(s, e)
          && (after.UnlockFrom? ==> e.Switch? && t == e.thread && after == UnlockFrom(e.from, e.to, e.all)))
    case SwitchUnlock(t, from, to, all) =>
      || (next == s.section && IsOutside(e))
      || e == Switch(t, from, to, all)
      || (e.Continue? && s.section.ClearContended? && s.section.thread == t
          && s.section.after == UnlockFrom(from, to, all))
    case SwitchUnblock(t, from, to, all) =>
      || (next == s.section && IsOutside(e))
      || (e.Continue? && s.section == SwitchUnlock(t, from, to, all))
    case SemTry(t, a, _) =>
      || (next == s.section && IsOutside(e))
      || e == SemAcquire(t, a)
      || (e.Continue? && s.section.SemTry? && s.section.sem == a)
    case SemGive(t, a, _) =>
      || (next == s.section && IsOutside(e))
      || e == SemRelease(t, a)
      || (e.Continue? && s.section.SemGive? && s.section.sem == a)
  }

  lemma ContinueSection(s: State)
    requires !s.section.Free?
    ensures SectionFollows(s, Continue, ContinueStep(s).section)
  {
    hide UnblockFirst, At, PutEntry, Release, Enqueue;
  }

  lemma UnblockSection(s: State, t: Thread, a: Address, all: bool)
    requires s.section.Free?
    ensures SectionFollows(s, Unblock(t, a, all), UnblockStep(s, t, a, all).section)
  {
    hide UnblockFirst, PutEntry;
  }

  lemma LockSection(s: State, t: Thread, m: Address)
    requires s.section.Free?
    ensures SectionFollows(s, Lock(t, m), LockStep(s, t, m).section)
  {
    PrepareEffect(s, t, m, m);
    hide PrepareToLock, GetEntry, PutEntry, Waiters;
  }

  lemma SwitchSection(s: State, t: Thread, from: Address, to: Address, all: bool)
    requires s.section.Free?
    ensures SectionFollows(s, Switch(t, from, to, all), SwitchStep(s, t, from, to, all).section)
  {
    PrepareEffect(s, t, to, to);
    hide PrepareToLock, GetEntry, Waiters;
  }

  lemma SemSection(s: State, t: Thread, a: Address)
    requires s.section.Free?
    ensures SectionFollows(s, SemAcquire(t, a), SemAcquireStep(s, t, a).section)
    ensures SectionFollows(s, SemRelease(t, a), SemReleaseStep(s, t, a).section)
  {
    hide PutEntry, HandUnit;
  }

  lemma StepSection(s: State, e: Event, u: Usage)
    requires TableInv(s) && Enabled(s, e, u)
    ensures SectionFollows(s, e, Next(s, e).section)
  {
    hide Agree;
    match e
    case Lock(t, a) => LockSection(s, t, a);
    case Switch(t, from, to, all) => SwitchSection(s, t, from, to, all);
    case SemAcquire(t, a) => SemSection(s, t, a);
    case SemRelease(t, a) => SemSection(s, t, a);
    case Unblock(t, a, all) => UnblockSection(s, t, a, all);
    case Continue => ContinueSection(s);
    case Wake(t, expired) =>
      if !PcOf(s, t).notified { RemoveAgrees(s, t, Kernel); }
      hide PutEntry;
    case _ =>
  }
}
