/** The mutex table agrees with the blocked threads in every reachable state, whatever
    the words hold and whichever flags are passed. */
module UserMutexTable {
  import opened UserMutexWord
  import opened UserMutexMachine

  ghost predicate Distinct(q: seq<Thread>) {
    forall i, j :: 0 <= i < j < |q| ==> q[i] != q[j]
  }

  /** t waits, un-notified, on the entry that is now in the table at a. */
  ghost predicate QueuedAt(pc: Pc, a: Address, c: Cell) {
    pc.Blocked? && !pc.notified && pc.address == a && c.entry.Some? && c.entry.value.id == pc.entry
  }

  ghost predicate QueuesAreDistinct(s: State) {
    forall a :: Distinct(Waiters(CellIn(s.cells, a)))
  }

  ghost predicate EntriesAreInUse(s: State, open: set<Address>) {
    forall a :: CellIn(s.cells, a).entry.Some? ==>
      CellIn(s.cells, a).entry.value.id < s.nextEntry && (Waiters(CellIn(s.cells, a)) == [] ==> a in open)
  }

  ghost predicate QueuesHoldWaiters(s: State) {
    forall a, t :: t in Waiters(CellIn(s.cells, a)) ==> QueuedAt(PcIn(s.pcs, t), a, CellIn(s.cells, a))
  }

  ghost predicate WaitersAreQueued(s: State) {
    forall t :: PcIn(s.pcs, t).Blocked? && !PcIn(s.pcs, t).notified ==>
      t in Waiters(CellIn(s.cells, PcIn(s.pcs, t).address))
  }

  /** An un-notified waiter is queued once, on the entry it queued on; a queue holds
      nothing else; only entries of `open` addresses may have an empty queue. */
  ghost predicate Agree(s: State, open: set<Address>) {
    QueuesAreDistinct(s) && EntriesAreInUse(s, open) && QueuesHoldWaiters(s) && WaitersAreQueued(s)
  }

  /** The switching thread either acquired `to` or is queued on it; unblocking `from`
      can hand it the lock only when the two are the same mutex. */
  ghost predicate SwitchingPc(pc: Pc, from: Address, to: Address, unblocked: bool) {
    || pc.Kernel?
    || (pc.Blocked? && pc.address == to && pc.kind.MutexWait? && (pc.notified ==> unblocked && from == to))
  }

  ghost predicate SectionOk(s: State) {
    match s.section
    case Free => true
    case ClearContended(t, w, Return(a, _)) => w == a && PcOf(s, t).Kernel?
    case ClearContended(t, w, UnlockFrom(from, to, _)) => w == to && PcOf(s, t).Kernel?
    case ClearContended(t, w, FinishSwitch(from, to)) => w == from && SwitchingPc(PcOf(s, t), from, to, true)
    case SwitchUnlock(t, from, to, _) => SwitchingPc(PcOf(s, t), from, to, false)
    case SwitchUnblock(t, from, to, _) => SwitchingPc(PcOf(s, t), from, to, false)
    case SemTry(t, a, oldValue) => PcOf(s, t).Kernel? && oldValue > -1 && At(s, a).entry.Some?
    case SemGive(t, a, _) => PcOf(s, t).Kernel? && Queue(s, a) == []
  }

  /** The entries the holder of the table lock still has to put back. */
  ghost function Open(s: State): set<Address> {
    match s.section
    case Free => {}
    case ClearContended(t, w, Return(a, _)) => {a}
    case ClearContended(t, w, UnlockFrom(from, to, _)) => {to}
    case ClearContended(t, w, FinishSwitch(from, to)) => if PcOf(s, t).Kernel? then {from, to} else {from}
    case SwitchUnlock(t, from, to, _) => if PcOf(s, t).Kernel? then {to} else {}
    case SwitchUnblock(t, from, to, _) => if PcOf(s, t).Kernel? then {to} else {}
    case SemTry(_, a, _) => {a}
    case SemGive(_, a, _) => {a}
  }

  ghost predicate TableInv(s: State) {
    Agree(s, Open(s)) && SectionOk(s)
  }

  // ----- the pieces

  /** Words, owners and history may change; entries and pcs do not. */
  ghost predicate SameEntries(s: State, r: State) {
    && r.pcs == s.pcs && r.nextEntry == s.nextEntry
    && forall a :: CellIn(r.cells, a).entry == CellIn(s.cells, a).entry
  }

  lemma AgreeFrame(s: State, r: State, open: set<Address>)
    requires Agree(s, open) && SameEntries(s, r)
    ensures Agree(r, open)
  {
    assert forall a :: Waiters(CellIn(r.cells, a)) == Waiters(CellIn(s.cells, a));
  }

  lemma AgreeWidens(s: State, open: set<Address>, wider: set<Address>)
    requires Agree(s, open) && open <= wider
    ensures Agree(s, wider)
  {
  }

  lemma CellAgrees(s: State, a: Address, c: Cell, open: set<Address>)
    requires Agree(s, open) && c.entry == At(s, a).entry
    ensures Agree(SetCell(s, a, c), open)
  {
    var r := SetCell(s, a, c);
    assert forall b :: CellIn(r.cells, b).entry == CellIn(s.cells, b).entry;
    AgreeFrame(s, r, open);
  }

  lemma GetEntryAgrees(s: State, a: Address, open: set<Address>)
    requires Agree(s, open)
    ensures Agree(GetEntry(s, a), open + {a})
  {
    if At(s, a).entry.None? {
      var r := GetEntry(s, a);
      assert forall b :: b != a ==> CellIn(r.cells, b) == CellIn(s.cells, b);
      assert forall b :: Waiters(CellIn(r.cells, b)) == Waiters(CellIn(s.cells, b));
    }
  }

  lemma PutEntryAgrees(s: State, a: Address, open: set<Address>)
    requires Agree(s, open)
    ensures Agree(PutEntry(s, a), open - {a})
  {
    var r := PutEntry(s, a);
    assert forall b :: b != a ==> CellIn(r.cells, b) == CellIn(s.cells, b);
    assert forall b :: Waiters(CellIn(r.cells, b)) == Waiters(CellIn(s.cells, b));
  }

  lemma SetPcAgrees(s: State, t: Thread, pc: Pc, open: set<Address>)
    requires Agree(s, open) && !pc.Blocked?
    requires PcOf(s, t).Blocked? ==> PcOf(s, t).notified
    ensures Agree(SetPc(s, t, pc), open)
  {
    var r := SetPc(s, t, pc);
    assert forall x :: x != t ==> PcIn(r.pcs, x) == PcIn(s.pcs, x);
  }

  lemma EnqueueAgrees(s: State, t: Thread, kind: Kind, a: Address, open: set<Address>)
    requires Agree(s, open) && At(s, a).entry.Some? && !PcOf(s, t).Blocked?
    ensures Agree(Enqueue(s, t, kind, a), open - {a})
  {
    var r := Enqueue(s, t, kind, a);
    var q := Queue(s, a);
    QueuedNowhereElse(s, t, a, open);
    assert Distinct(q + [t]);
    assert Waiters(CellIn(r.cells, a)) == q + [t];
    assert forall b :: b != a ==> CellIn(r.cells, b) == CellIn(s.cells, b);
    assert forall x :: x != t ==> PcIn(r.pcs, x) == PcIn(s.pcs, x);
    hide Distinct, Enqueue;
    forall b, x | x in Waiters(CellIn(r.cells, b)) ensures QueuedAt(PcIn(r.pcs, x), b, CellIn(r.cells, b)) {
      if x != t {
        assert x in Waiters(CellIn(s.cells, b));
      }
    }
  }

  /** A thread is queued at most where its pc says. */
  lemma QueuedNowhereElse(s: State, t: Thread, a: Address, open: set<Address>)
    requires Agree(s, open)
    ensures forall b :: t in Waiters(CellIn(s.cells, b)) ==> PcOf(s, t).Blocked? && PcOf(s, t).address == b
  {
    hide QueuesAreDistinct, EntriesAreInUse, WaitersAreQueued;
  }

  /** What NotifyOne and NotifyAll may change. */
  ghost predicate NotifiesSome(s: State, r: State, m: Address) {
    && r.section == s.section && r.nextEntry == s.nextEntry
    && (forall t :: PcIn(r.pcs, t) == PcIn(s.pcs, t)
                    || (t in Queue(s, m) && PcIn(s.pcs, t).Blocked? && PcIn(r.pcs, t) == Notified(PcIn(s.pcs, t))))
    && (forall x :: x != m ==> CellIn(r.cells, x) == CellIn(s.cells, x))
    && At(r, m).entry.Some? == At(s, m).entry.Some?
  }

  lemma NotifyOneEffect(s: State, a: Address)
    requires Queue(s, a) != [] && PcIn(s.pcs, Queue(s, a)[0]).Blocked?
    ensures var r, q := NotifyOne(s, a), Queue(s, a);
            && NotifiesSome(s, r, a) && At(r, a) == WithQueue(At(s, a), q[1..])
            && Waiters(CellIn(r.cells, a)) == q[1..]
            && (forall b :: b != a ==> CellIn(r.cells, b) == CellIn(s.cells, b))
            && (forall x :: x != q[0] ==> PcIn(r.pcs, x) == PcIn(s.pcs, x))
            && PcIn(r.pcs, q[0]) == Notified(PcIn(s.pcs, q[0]))
  {
  }

  lemma NotifyOneAgrees(s: State, a: Address, open: set<Address>)
    requires Agree(s, open) && Queue(s, a) != []
    ensures Agree(NotifyOne(s, a), open + {a})
    ensures NotifiesSome(s, NotifyOne(s, a), a)
    ensures At(NotifyOne(s, a), a) == WithQueue(At(s, a), Queue(s, a)[1..])
  {
    var r := NotifyOne(s, a);
    var q := Queue(s, a);
    assert q == [q[0]] + q[1..];
    assert q[0] in q && q[0] !in q[1..] && Distinct(q[1..]);
    QueuedNowhereElse(s, q[0], a, open);
    NotifyOneEffect(s, a);
    hide Distinct, NotifyOne, NotifiesSome;
    forall b, x | x in Waiters(CellIn(r.cells, b)) ensures QueuedAt(PcIn(r.pcs, x), b, CellIn(r.cells, b)) {
      assert x in Waiters(CellIn(s.cells, b)) && x != q[0];
    }
  }

  lemma NotifyTransitive(s: State, r: State, q: State, m: Address)
    requires NotifiesSome(s, r, m) && NotifiesSome(r, q, m)
    requires forall x :: x in Queue(r, m) ==> x in Queue(s, m)
    ensures NotifiesSome(s, q, m)
  {
  }

  lemma {:induction false} NotifyAllAgrees(s: State, a: Address, open: set<Address>)
    requires Agree(s, open)
    ensures Agree(NotifyAll(s, a), open + {a})
    ensures NotifiesSome(s, NotifyAll(s, a), a)
    ensures Queue(s, a) != [] ==> At(NotifyAll(s, a), a) == WithQueue(At(s, a), [])
    decreases |Queue(s, a)|
  {
    if Queue(s, a) == [] {
      AgreeWidens(s, open, open + {a});
    } else {
      NotifyOneAgrees(s, a, open);
      var r := NotifyOne(s, a);
      hide Agree, NotifyOne, NotifiesSome;
      NotifyAllAgrees(r, a, open + {a});
      assert open + {a} + {a} == open + {a};
      NotifyTransitive(s, r, NotifyAll(r, a), a);
    }
  }

  lemma {:induction false} WithoutDistinct(q: seq<Thread>, t: Thread)
    requires Distinct(q)
    ensures Distinct(Without(q, t))
    ensures forall x :: x in Without(q, t) <==> x in q && x != t
    ensures t in q ==> |Without(q, t)| == |q| - 1
  {
    if q == [] {
    } else {
      assert q == [q[0]] + q[1..];
      assert q[0] !in q[1..];
      if q[0] != t {
        WithoutDistinct(q[1..], t);
        assert t in q ==> t in q[1..];
        assert q[0] !in Without(q[1..], t);
      }
    }
  }

  lemma HandOffAgrees(s: State, m: Address, c: Cell, open: set<Address>)
    requires Agree(s, open) && Queue(s, m) != [] && c.entry == At(s, m).entry
    ensures var r := NotifyOne(SetCell(s, m, c), m);
            Agree(r, open + {m}) && NotifiesSome(s, r, m) && At(r, m) == WithQueue(c, Queue(s, m)[1..])
  {
    CellAgrees(s, m, c, open);
    var s1 := SetCell(s, m, c);
    NotifyOneAgrees(s1, m, open);
    assert forall x :: x != m ==> CellIn(s1.cells, x) == CellIn(s.cells, x);
    hide Agree, NotifyOne;
  }

  /** What the first atomic of unblock_locked leaves in m's cell. */
  ghost function UnblockedCell(c: Cell, all: bool): Cell {
    if Waiters(c) == [] then c.(word := AndNotContended(c.word))
    else if all then WithQueue(c, [])
    else if Locked(c.word) then c
    else if Disabled(c.word) then WithQueue(c, []).(word := OrLocked(c.word))
    else WithQueue(c, Waiters(c)[1..]).(word := OrLocked(c.word), holders := c.holders + multiset{Waiters(c)[0]})
  }

  lemma UnblockFirstAgrees(s: State, m: Address, all: bool, open: set<Address>)
    requires Agree(s, open)
    ensures var (r, clear) := UnblockFirst(s, m, all);
            && Agree(r, open + {m}) && NotifiesSome(s, r, m)
            && At(r, m) == UnblockedCell(At(s, m), all)
            && (clear ==> Queue(r, m) == [])
  {
    hide Agree, NotifyAll, NotifyOne;
    var c := At(s, m);
    var c1 := c.(word := OrLocked(c.word));
    AgreeWidens(s, open, open + {m});
    if Waiters(c) == [] {
      CellAgrees(s, m, c.(word := AndNotContended(c.word)), open + {m});
    } else if all {
      NotifyAllAgrees(s, m, open);
    } else if !Locked(c.word) {
      CellAgrees(s, m, c1, open);
      if Disabled(c.word) {
        NotifyAllAgrees(SetCell(s, m, c1), m, open);
        assert forall x :: x != m ==> CellIn(SetCell(s, m, c1).cells, x) == CellIn(s.cells, x);
      } else {
        HandOffAgrees(s, m, c1.(holders := c.holders + multiset{Waiters(c)[0]}), open);
      }
    }
  }

  // ----- the steps

  lemma LeaveKeeps(s: State, t: Thread, status: Status, a: Address, open: set<Address>)
    requires Agree(s, open) && open <= {a}
    requires PcOf(s, t).Blocked? ==> PcOf(s, t).notified
    ensures TableInv(Leave(s, t, status, a))
  {
    PutEntryAgrees(s, a, open);
    assert open - {a} == {};
    var s1 := PutEntry(s, a).(section := Free);
    AgreeFrame(PutEntry(s, a), s1, {});
    SetPcAgrees(s1, t, User(status), {});
    hide Agree;
  }

  lemma EndSwitchKeeps(s: State, t: Thread, from: Address, to: Address, open: set<Address>)
    requires Agree(s, open) && SwitchingPc(PcOf(s, t), from, to, true)
    requires open <= if PcOf(s, t).Kernel? then {to} else {}
    ensures TableInv(EndSwitch(s, t, to))
  {
    if PcOf(s, t).Kernel? {
      LeaveKeeps(s, t, Ok, to, open);
    } else {
      assert open == {};
      AgreeFrame(s, EndSwitch(s, t, to), {});
    }
  }

  lemma PrepareAgrees(s: State, t: Thread, m: Address)
    requires Agree(s, {})
    ensures var s0 := GetEntry(s, m); var p := PrepareToLock(At(s0, m), t); var s1 := SetCell(s0, m, p.cell);
            && Agree(s1, {m}) && At(s1, m) == p.cell && p.cell.entry.Some?
            && s1.pcs == s.pcs && s1.section == s.section && (p.settle ==> p.acquired)
  {
    hide Agree;
    GetEntryAgrees(s, m, {});
    assert {} + {m} == {m};
    CellAgrees(GetEntry(s, m), m, PrepareToLock(At(GetEntry(s, m), m), t).cell, {m});
  }

  lemma LockKeepsTable(s: State, t: Thread, m: Address)
    requires TableInv(s) && s.section.Free? && Idle(s, t)
    ensures TableInv(LockStep(s, t, m))
  {
    hide Agree, PrepareToLock, GetEntry;
    PrepareAgrees(s, t, m);
    var p := PrepareToLock(At(GetEntry(s, m), m), t);
    var s1 := SetCell(GetEntry(s, m), m, p.cell);
    if p.settle {
      SetPcAgrees(s1, t, Kernel, {m});
      AgreeFrame(SetPc(s1, t, Kernel), LockStep(s, t, m), {m});
    } else if p.acquired {
      LeaveKeeps(s1, t, Ok, m, {m});
    } else {
      EnqueueAgrees(s1, t, MutexWait, m, {m});
      assert {m} - {m} == {};
    }
  }

  lemma SwitchKeepsTable(s: State, t: Thread, from: Address, to: Address, all: bool)
    requires TableInv(s) && s.section.Free? && Idle(s, t)
    ensures TableInv(SwitchStep(s, t, from, to, all))
  {
    hide Agree, PrepareToLock, GetEntry;
    PrepareAgrees(s, t, to);
    var p := PrepareToLock(At(GetEntry(s, to), to), t);
    var s1 := SetCell(GetEntry(s, to), to, p.cell);
    var r := SwitchStep(s, t, from, to, all);
    if p.acquired {
      SetPcAgrees(s1, t, Kernel, {to});
      AgreeFrame(SetPc(s1, t, Kernel), r, {to});
    } else {
      EnqueueAgrees(s1, t, MutexWait, to, {to});
      assert {to} - {to} == {};
      AgreeFrame(Enqueue(s1, t, MutexWait, to), r, {});
    }
  }

  lemma UnblockKeepsTable(s: State, t: Thread, m: Address, all: bool)
    requires TableInv(s) && s.section.Free? && !PcOf(s, t).Blocked?
    ensures TableInv(UnblockStep(s, t, m, all))
  {
    var s0 := SetPc(s, t, Kernel);
    var c := At(s, m).(word := AndNotContended(Word(s, m)));
    SetPcAgrees(s, t, Kernel, {});
    CellAgrees(s, m, c, {});
    SetPcAgrees(SetCell(s, m, c), t, User(Ok), {});
    UnblockFirstAgrees(s0, m, all, {});
    assert {} + {m} == {m};
    assert t !in Queue(s0, m);
    hide Agree, UnblockFirst;
    var (s1, clear) := UnblockFirst(s0, m, all);
    if At(s, m).entry.Some? {
      if clear {
        AgreeFrame(s1, UnblockStep(s, t, m, all), {m});
      } else {
        LeaveKeeps(s1, t, Ok, m, {m});
      }
    }
  }

  ghost function SettlingWord(after: After): Address {
    match after case Return(a, _) => a case UnlockFrom(_, to, _) => to case FinishSwitch(from, _) => from
  }

  lemma ResumeKeepsTable(s: State, t: Thread, after: After, open: set<Address>)
    requires Agree(s, open) && s.section.Free?
    requires var s0 := s.(section := ClearContended(t, SettlingWord(after), after)); SectionOk(s0) && open == Open(s0)
    ensures TableInv(Resume(s, t, after))
  {
    match after
    case Return(a, status) => LeaveKeeps(s, t, status, a, {a});
    case UnlockFrom(from, to, all) => AgreeFrame(s, Resume(s, t, after), open);
    case FinishSwitch(from, to) =>
      PutEntryAgrees(s, from, open);
      hide Agree;
      EndSwitchKeeps(PutEntry(s, from), t, from, to, open - {from});
  }

  lemma SwitchUnblockKeepsTable(s: State)
    requires TableInv(s) && s.section.SwitchUnblock?
    ensures TableInv(ContinueStep(s))
  {
    var SwitchUnblock(t, from, to, all) := s.section;
    var s0 := s.(section := Free);
    AgreeFrame(s, s0, Open(s));
    UnblockFirstAgrees(s0, from, all, Open(s));
    var (s1, clear) := UnblockFirst(s0, from, all);
    var s2 := s1.(section := ClearContended(t, from, FinishSwitch(from, to)));
    assert t in Queue(s0, from) ==> QueuedAt(PcIn(s.pcs, t), from, At(s, from));
    hide UnblockFirst, Agree;
    assert SwitchingPc(PcOf(s2, t), from, to, true);
    AgreeWidens(s1, Open(s) + {from}, Open(s2));
    AgreeFrame(s1, s2, Open(s2));
    if !clear {
      ResumeKeepsTable(s1, t, FinishSwitch(from, to), Open(s2));
    }
  }

  lemma SwitchUnlockKeepsTable(s: State)
    requires TableInv(s) && s.section.SwitchUnlock?
    ensures TableInv(ContinueStep(s))
  {
    hide Agree, EndSwitch;
    var SwitchUnlock(t, from, to, all) := s.section;
    var s0 := s.(section := Free);
    var s1 := Release(s0, t, from);
    AgreeFrame(s, s0, Open(s));
    CellAgrees(s0, from, At(s1, from), Open(s));
    if Contended(Word(s, from)) && At(s, from).entry.Some? {
      AgreeFrame(s1, ContinueStep(s), Open(s));
    } else {
      EndSwitchKeeps(s1, t, from, to, Open(s));
    }
  }

  // ----- semaphores

  lemma TryAgainKeeps(s: State, t: Thread, a: Address, value: int)
    requires Agree(s, {a}) && At(s, a).entry.Some? && !PcOf(s, t).Blocked?
    ensures TableInv(TryAgain(s, t, a, value))
  {
    hide Agree;
    var r := TryAgain(s, t, a, value);
    if value > -1 {
      SetPcAgrees(s, t, Kernel, {a});
      AgreeFrame(SetPc(s, t, Kernel), r, {a});
    } else {
      EnqueueAgrees(s, t, SemWait, a, {a});
      assert {a} - {a} == {};
      AgreeFrame(Enqueue(s, t, SemWait, a), r, {});
    }
  }

  lemma SemAcquireKeepsTable(s: State, t: Thread, a: Address)
    requires TableInv(s) && s.section.Free? && Idle(s, t)
    ensures TableInv(SemAcquireStep(s, t, a))
  {
    hide Agree;
    var s1 := GetEntry(s, a);
    GetEntryAgrees(s, a, {});
    assert {} + {a} == {a};
    assert At(s1, a).entry.Some? && s1.pcs == s.pcs;
    TryAgainKeeps(s1, t, a, Word(s1, a));
  }

  lemma SemTryKeepsTable(s: State)
    requires TableInv(s) && s.section.SemTry?
    ensures TableInv(ContinueStep(s))
  {
    hide Agree, TryAgain, Leave;
    var SemTry(t, a, oldValue) := s.section;
    var s0, value := s.(section := Free), Word(s, a);
    AgreeFrame(s, s0, {a});
    if value == oldValue && value > 0 {
      CellAgrees(s0, a, At(s, a).(word := value - 1), {a});
      LeaveKeeps(SetWord(s0, a, value - 1), t, Ok, a, {a});
    } else {
      CellAgrees(s0, a, At(s, a).(word := value - 1), {a});
      var s1 := if value == oldValue then SetWord(s0, a, value - 1) else s0;
      assert At(s1, a).entry == At(s, a).entry && s1.pcs == s.pcs;
      TryAgainKeeps(s1, t, a, value);
    }
  }

  lemma HandUnitAgrees(s: State, a: Address)
    requires Agree(s, {a}) && Queue(s, a) != []
    ensures var r := HandUnit(s, a); Agree(r, {a}) && NotifiesSome(s, r, a) && At(r, a) == HandedCell(At(s, a))
  {
    hide Agree;
    assert {a} + {a} == {a};
    var c := At(s, a);
    var word := if |Waiters(c)| == 1 && c.word == -1 then 0 else c.word;
    HandOffAgrees(s, a, c.(word := word), {a});
  }

  /** What a release with waiters leaves in the semaphore's cell. */
  ghost function HandedCell(c: Cell): Cell
    requires Waiters(c) != []
  {
    var q := Waiters(c);
    var word := if |q| == 1 && c.word == -1 then 0 else c.word;
    WithQueue(c.(word := word), q[1..])
  }

  lemma SemReleaseKeepsTable(s: State, t: Thread, a: Address)
    requires TableInv(s) && s.section.Free? && Idle(s, t)
    ensures TableInv(SemReleaseStep(s, t, a))
  {
    var s1 := GetEntry(s, a);
    GetEntryAgrees(s, a, {});
    assert {} + {a} == {a};
    assert s1.pcs == s.pcs && t !in Queue(s1, a);
    if Queue(s1, a) == [] {
      SetPcAgrees(s1, t, Kernel, {a});
      AgreeFrame(SetPc(s1, t, Kernel), SemReleaseStep(s, t, a), {a});
      hide Agree, GetEntry;
    } else {
      HandUnitAgrees(s1, a);
      hide Agree, GetEntry, HandUnit;
      LeaveKeeps(HandUnit(s1, a), t, Ok, a, {a});
    }
  }

  lemma SemGiveKeepsTable(s: State)
    requires TableInv(s) && s.section.SemGive?
    ensures TableInv(ContinueStep(s))
  {
    hide Agree, Leave;
    var SemGive(t, a, oldValue) := s.section;
    var s0, c := s.(section := Free), At(s, a).(word := OneMore(Word(s, a)));
    AgreeFrame(s, s0, {a});
    if Word(s, a) == oldValue {
      CellAgrees(s0, a, c, {a});
      LeaveKeeps(SetCell(s0, a, c), t, Ok, a, {a});
    } else {
      AgreeFrame(s, ContinueStep(s), {a});
    }
  }

  // ----- all of them

  lemma ContinueKeepsTable(s: State)
    requires TableInv(s)
    ensures TableInv(ContinueStep(s))
  {
    hide Agree;
    match s.section
    case Free =>
    case ClearContended(t, a, after) =>
      var s0 := s.(section := Free);
      var c := At(s, a).(word := AndNotContended(Word(s, a)));
      AgreeFrame(s, s0, Open(s));
      CellAgrees(s0, a, c, Open(s));
      ResumeKeepsTable(SetCell(s0, a, c), t, after, Open(s));
    case SwitchUnlock(t, from, to, all) => SwitchUnlockKeepsTable(s);
    case SwitchUnblock(t, from, to, all) => SwitchUnblockKeepsTable(s);
    case SemTry(t, a, oldValue) => SemTryKeepsTable(s);
    case SemGive(t, a, oldValue) => SemGiveKeepsTable(s);
  }

  lemma RemoveAgrees(s: State, t: Thread, pc: Pc)
    requires Agree(s, {}) && PcOf(s, t).Blocked? && !PcOf(s, t).notified && !pc.Blocked?
    ensures var a := PcOf(s, t).address;
            && At(s, a).entry.Some?
            && Agree(SetPc(SetCell(s, a, WithQueue(At(s, a), Without(Queue(s, a), t))), t, pc), {a})
  {
    var a := PcOf(s, t).address;
    var q := Queue(s, a);
    assert t in q;
    WithoutDistinct(q, t);
    var r := SetPc(SetCell(s, a, WithQueue(At(s, a), Without(q, t))), t, pc);
    assert forall x :: x != t ==> PcIn(r.pcs, x) == PcIn(s.pcs, x);
    assert forall b :: b != a ==> CellIn(r.cells, b) == CellIn(s.cells, b);
    assert Waiters(CellIn(r.cells, a)) == Without(q, t);
    QueuedNowhereElse(s, t, a, {});
  }

  lemma WakeKeepsTable(s: State, t: Thread)
    requires TableInv(s) && s.section.Free? && PcOf(s, t).Blocked?
    ensures TableInv(WakeStep(s, t))
  {
    hide Agree;
    var Blocked(kind, a, e, notified) := PcOf(s, t);
    if notified {
      LeaveKeeps(s, t, Ok, a, {});
    } else {
      RemoveAgrees(s, t, Kernel);
      var s1 := SetCell(s, a, WithQueue(At(s, a), Without(Queue(s, a), t)));
      var s2 := SetPc(s1, t, Kernel);
      if kind.MutexWait? && Queue(s1, a) == [] {
        AgreeFrame(s2, WakeStep(s, t), {a});
      } else {
        LeaveKeeps(s2, t, TimedOut, a, {a});
        assert s1.pcs[t := Kernel][t := User(TimedOut)] == s1.pcs[t := User(TimedOut)];
        assert Leave(s2, t, TimedOut, a) == Leave(s1, t, TimedOut, a);
      }
    }
  }

  lemma WordKeepsTable(s: State, a: Address, c: Cell)
    requires TableInv(s) && c.entry == At(s, a).entry
    ensures TableInv(SetCell(s, a, c))
  {
    CellAgrees(s, a, c, Open(s));
    var r := SetCell(s, a, c);
    assert forall b :: Queue(r, b) == Queue(s, b) && At(r, b).entry == At(s, b).entry;
    assert forall t :: PcOf(r, t) == PcOf(s, t);
    hide Agree, SetCell, At, PcOf, Queue;
  }

  lemma UserPcKeepsTable(s: State, t: Thread, m: Address)
    requires TableInv(s) && Idle(s, t)
    ensures TableInv(SetPc(s, t, Unblocking(m)))
  {
    SetPcAgrees(s, t, Unblocking(m), Open(s));
    var r := SetPc(s, t, Unblocking(m));
    assert forall x :: x != t ==> PcOf(r, x) == PcOf(s, x);
    assert forall b :: Queue(r, b) == Queue(s, b) && At(r, b) == At(s, b);
    hide Agree, SetPc, At, PcOf, Queue;
  }

  /** An event in user space changes no entry, and starts or ends no wait. */
  lemma OutsideKeepsTable(s: State, e: Event)
    requires TableInv(s) && IsOutside(e) && IsPossible(s, e)
    ensures TableInv(Next(s, e))
  {
    hide TableInv;
    match e
    case UserLock(t, m) => WordKeepsTable(s, m, At(UserLockStep(s, t, m), m));
    case UserUnlock(t, m) =>
      WordKeepsTable(s, m, At(Release(s, t, m), m));
      UserPcKeepsTable(Release(s, t, m), t, m);
    case UserTake(_, a) => WordKeepsTable(s, a, At(s, a).(word := Word(s, a) - 1));
    case UserGive(_, a) => WordKeepsTable(s, a, At(s, a).(word := Word(s, a) + 1));
    case Poke(a, v) => WordKeepsTable(s, a, At(s, a).(word := v));
  }

  lemma StepKeepsTable(s: State, e: Event, u: Usage)
    requires TableInv(s) && Enabled(s, e, u)
    ensures TableInv(Next(s, e))
  {
    hide Agree;
    match e
    case Lock(t, m) => LockKeepsTable(s, t, m);
    case Unblock(t, m, all) => UnblockKeepsTable(s, t, m, all);
    case Switch(t, from, to, all) => SwitchKeepsTable(s, t, from, to, all);
    case SemAcquire(t, a) => SemAcquireKeepsTable(s, t, a);
    case SemRelease(t, a) => SemReleaseKeepsTable(s, t, a);
    case Continue => ContinueKeepsTable(s);
    case Wake(t, expired) => WakeKeepsTable(s, t);
    case _ => OutsideKeepsTable(s, e);
  }
}
