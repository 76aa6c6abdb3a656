/** The loader's mutex calls as they mutate the lock words and the mutex table. Each call
    is proved to be a run of steps of the machine: its first step, then the section run to
    its end, while other threads change words from user space before every later atomic
    (`outside` says how). */
module LoaderMutex {
  import opened UserMutexWord
  import opened UserMutexMachine
  import opened Collections
  import opened UserMutexTable
  import opened UserMutexCalls

  lemma {:induction false} WithoutFrom(q: seq<Thread>, t: Thread, i: nat)
    requires i <= |q| && forall j :: 0 <= j < i ==> q[j] != t
    ensures Without(q, t) == q[..i] + Without(q[i..], t)
  {
    if i == 0 {
      assert q[0..] == q && q[..0] == [];
    } else {
      WithoutFrom(q, t, i - 1);
      assert q[i - 1..][1..] == q[i..] && q[i - 1..][0] == q[i - 1];
      assert Without(q[i - 1..], t) == [q[i - 1]] + Without(q[i..], t);
      assert q[..i] == q[..i - 1] + [q[i - 1]];
    }
  }

  /** The search and the erase of UserMutexEntry::Remove. */
  method Erased(q: seq<Thread>, t: Thread) returns (r: seq<Thread>)
    ensures r == Without(q, t)
  {
    var i := 0;
    while i < |q| && q[i] != t
      invariant 0 <= i <= |q| && forall j :: 0 <= j < i ==> q[j] != t
    {
      i := i + 1;
    }
    WithoutFrom(q, t, i);
    if i < |q| {
      assert q[i..][1..] == q[i + 1..];
      r := q[..i] + q[i + 1..];
    } else {
      assert q[i..] == [] && q[..i] == q;
      r := q;
    }
  }

  class MutexTable {
    var cells: map<Address, Cell>
    var pcs: map<Thread, Pc>
    var nextEntry: nat

    function View(): State
      reads this
    {
      State(cells, pcs, Free, nextEntry)
    }

    constructor ()
      ensures forall u: Usage :: u.sems == map[] ==> Initial(View(), u)
    {
      cells, pcs, nextEntry := map[], map[], 0;
    }

    /** What other threads do in user space before the next atomic of a call. */
    method Meet(outside: Schedule) returns (rest: Schedule)
      modifies this`cells, this`pcs
      ensures View() == Meddled(old(View()), outside) && rest == Rest(outside)
    {
      MeddledKeeps(View(), outside, 0);
      var s := Meddled(View(), outside);
      cells, pcs, rest := s.cells, s.pcs, Rest(outside);
    }

    /** The thread is in the kernel. */
    method Enter(t: Thread)
      modifies this`pcs
      ensures View() == SetPc(old(View()), t, Kernel)
    {
      pcs := pcs[t := Kernel];
    }

    /** put_entry, and the thread returns to user space */
    method Exit(t: Thread, status: Status, a: Address)
      modifies this`cells, this`pcs
      ensures View() == Leave(old(View()), t, status, a)
    {
      Put(a);
      pcs := pcs[t := User(status)];
    }

    function Load(a: Address): (w: int)
      reads this
      ensures w == Word(View(), a)
    {
      CellIn(cells, a).word
    }

    function Waiting(a: Address): (q: seq<Thread>)
      reads this
      ensures q == Queue(View(), a)
    {
      Waiters(CellIn(cells, a))
    }

    method Store(a: Address, w: int)
      modifies this`cells
      ensures View() == SetWord(old(View()), a, w)
    {
      cells := cells[a := CellIn(cells, a).(word := w)];
    }

    /** compare_exchange_strong; returns the value found */
    method TestAndSet(a: Address, newValue: int, testAgainst: int) returns (found: int)
      modifies this`cells
      ensures found == Word(old(View()), a)
      ensures View() == if found == testAgainst then SetWord(old(View()), a, newValue) else old(View())
    {
      found := Load(a);
      if found == testAgainst {
        Store(a, newValue);
      }
    }

    method GetOrCreate(a: Address)
      modifies this`cells, this`nextEntry
      ensures View() == GetEntry(old(View()), a)
    {
      var c := CellIn(cells, a);
      if c.entry.None? {
        cells := cells[a := c.(entry := Some(Entry(nextEntry, [])))];
        nextEntry := nextEntry + 1;
      }
    }

    method Put(a: Address)
      modifies this`cells
      ensures View() == PutEntry(old(View()), a)
    {
      var c := CellIn(cells, a);
      if c.entry.Some? && c.entry.value.waiters == [] {
        cells := cells[a := c.(entry := None)];
      }
    }

    method Add(a: Address, t: Thread, kind: Kind)
      requires CellIn(cells, a).entry.Some?
      modifies this`cells, this`pcs
      ensures View() == Enqueue(old(View()), t, kind, a)
    {
      var c := CellIn(cells, a);
      cells := cells[a := WithQueue(c, Waiters(c) + [t])];
      pcs := pcs[t := Blocked(kind, a, c.entry.value.id, false)];
    }

    method NotifyFirst(a: Address) returns (any: bool)
      modifies this`cells, this`pcs
      ensures any == (Queue(old(View()), a) != [])
      ensures View() == if any then NotifyOne(old(View()), a) else old(View())
    {
      var c := CellIn(cells, a);
      var q := Waiters(c);
      if q == [] {
        return false;
      }
      cells := cells[a := WithQueue(c, q[1..])];
      pcs := pcs[q[0] := Notified(PcIn(pcs, q[0]))];
      return true;
    }

    method NotifyEach(a: Address)
      modifies this`cells, this`pcs
      ensures View() == NotifyAll(old(View()), a) && Waiting(a) == []
    {
      var more := true;
      while more
        invariant NotifyAll(View(), a) == NotifyAll(old(View()), a)
        invariant !more ==> Waiting(a) == []
        decreases |Waiting(a)|, more
      {
        more := NotifyFirst(a);
      }
    }

    /** UserMutexEntry::Remove */
    method RemoveWaiter(a: Address, t: Thread)
      requires CellIn(cells, a).entry.Some?
      modifies this`cells
      ensures View() == SetCell(old(View()), a, WithQueue(At(old(View()), a), Without(Queue(old(View()), a), t)))
    {
      var q := Erased(Waiting(a), t);
      cells := cells[a := WithQueue(CellIn(cells, a), q)];
    }

    /** atomic_and(~WAITING), when it is a later atomic of its call */
    method Settle(m: Address, outside: Schedule) returns (rest: Schedule)
      modifies this`cells, this`pcs
      ensures View() == Settled(old(View()), m, outside) && rest == Rest(outside)
    {
      rest := Meet(outside);
      Store(m, AndNotContended(Load(m)));
    }

    /** loader_mutex_prepare_to_lock */
    method PrepareToLock(t: Thread, m: Address, outside: Schedule) returns (acquired: bool, rest: Schedule)
      modifies this`cells, this`pcs
      ensures acquired == UserMutexMachine.PrepareToLock(At(old(View()), m), t).acquired
      ensures Reached(View(), rest) == Prepared(old(View()), t, m, outside)
    {
      hide Settled;
      rest := outside;
      var oldValue := Load(m);
      Store(m, OrContended(OrLocked(oldValue)));
      if !Locked(oldValue) || Disabled(oldValue) {
        cells := cells[m := CellIn(cells, m).(holders := CellIn(cells, m).holders + multiset{t})];
        assert View() == SetCell(old(View()), m, UserMutexMachine.PrepareToLock(At(old(View()), m), t).cell);
        if !Contended(oldValue) && Waiting(m) == [] {
          rest := Settle(m, outside);
        }
        return true, rest;
      }
      return false, rest;
    }

    /** loader_mutex_unblock_locked */
    method UnblockLocked(m: Address, all: bool, outside: Schedule) returns (rest: Schedule)
      modifies this`cells, this`pcs
      ensures Reached(View(), rest) == Unblocked(old(View()), m, all, outside)
    {
      hide Settled;
      rest := outside;
      if Waiting(m) == [] {
        Store(m, AndNotContended(Load(m)));
        return;
      }
      var oldValue := 0;
      if !all {
        oldValue := Load(m);
        Store(m, OrLocked(oldValue));
        if Locked(oldValue) {
          assert cells == old(cells);
          return;
        }
      }
      if all || Disabled(oldValue) {
        NotifyEach(m);
        assert View() == UnblockFirst(old(View()), m, all).0 && UnblockFirst(old(View()), m, all).1;
      } else {
        cells := cells[m := CellIn(cells, m).(holders := CellIn(cells, m).holders + multiset{Waiting(m)[0]})];
        var any := NotifyFirst(m);
        assert any && |Waiting(m)| == |Queue(old(View()), m)| - 1;
        assert View() == UnblockFirst(old(View()), m, all).0;
      }
      assert (View(), Waiting(m) == []) == UnblockFirst(old(View()), m, all);
      if Waiting(m) == [] {
        rest := Settle(m, outside);
      }
    }

    /** loader_mutex_lock up to its return or, when `blocked`, up to its wait */
    method Lock(t: Thread, m: Address, outside: Schedule) returns (error: Status, blocked: bool)
      requires PcIn(pcs, t).User?
      modifies this
      ensures m == 0 || m % 4 != 0 ==> error == BadAddress && !blocked && View() == old(View())
      ensures m != 0 && m % 4 == 0 ==> View() == Finish(Next(old(View()), Event.Lock(t, m)), outside)
      ensures m != 0 && m % 4 == 0 ==> error == Ok && blocked == PcIn(pcs, t).Blocked?
      ensures old(TableInv(View())) ==> TableInv(View())
    {
      if m == 0 || m % 4 != 0 {
        return BadAddress, false;
      }
      hide Finish, TableInv, Prepared;
      KeepTable(View(), Event.Lock(t, m), outside);
      LockFinishes(View(), t, m, outside);
      GetOrCreate(m);
      Enter(t);
      var acquired, _ := PrepareToLock(t, m, outside);
      if acquired {
        Exit(t, Ok, m);
        return Ok, false;
      }
      Add(m, t, MutexWait);
      return Ok, true;
    }

    /** What lock, switch_lock and sem_acquire do once wait_for_notification returns. */
    method Resume(t: Thread, expired: bool, outside: Schedule) returns (error: Status)
      requires TableInv(View())
      requires PcIn(pcs, t).Blocked? && (PcIn(pcs, t).notified || expired)
      modifies this
      ensures View() == Finish(Next(old(View()), Wake(t, expired)), outside)
      ensures error == if old(PcIn(pcs, t).notified) then Ok else TimedOut
      ensures PcIn(pcs, t) == User(error)
      ensures TableInv(View())
    {
      KeepTable(View(), Wake(t, expired), outside);
      var waiter := PcIn(pcs, t);
      var a := waiter.address;
      if waiter.notified {
        hide TableInv;
        Exit(t, Ok, a);
        FinishFree(View(), outside);
        return Ok;
      }
      WaiterIsQueued(View(), t);
      hide TableInv, Finish, Without;
      WakeFinishes(View(), t, expired, outside);
      RemoveWaiter(a, t);
      Enter(t);
      if waiter.kind.MutexWait? && Waiting(a) == [] {
        var _ := Settle(a, outside);
      }
      Exit(t, TimedOut, a);
      return TimedOut;
    }

    /** loader_mutex_unblock */
    method Unblock(t: Thread, m: Address, all: bool, outside: Schedule) returns (error: Status)
      requires PcIn(pcs, t).User? || PcIn(pcs, t) == Unblocking(m)
      modifies this
      ensures m == 0 || m % 4 != 0 ==> error == BadAddress && View() == old(View())
      ensures m != 0 && m % 4 == 0 ==>
                error == Ok && View() == Finish(Next(old(View()), Event.Unblock(t, m, all)), outside)
      ensures old(TableInv(View())) ==> TableInv(View())
    {
      if m == 0 || m % 4 != 0 {
        return BadAddress;
      }
      hide TableInv;
      KeepTable(View(), Event.Unblock(t, m, all), outside);
      if CellIn(cells, m).entry.None? {
        Store(m, AndNotContended(Load(m)));
        pcs := pcs[t := User(Ok)];
        FinishFree(View(), outside);
      } else {
        hide Finish, Unblocked;
        UnblockFinishes(View(), t, m, all, outside);
        Enter(t);
        var _ := UnblockLocked(m, all, outside);
        Exit(t, Ok, m);
      }
      return Ok;
    }

    /** The middle of switch_lock: unlock the first mutex and unblock its waiters, if any. */
    method UnlockFrom(t: Thread, from: Address, all: bool, outside: Schedule)
      modifies this`cells, this`pcs
      ensures View() == Switched(old(View()), t, from, all, outside).state
    {
      hide Meddled, Unblocked, PutEntry, AndNotLocked;
      var rest := Meet(outside);
      var oldValue := Load(from);
      ghost var s := View();
      Store(from, AndNotLocked(oldValue));
      cells := cells[from := CellIn(cells, from).(holders := CellIn(cells, from).holders - multiset{t})];
      assert View() == Release(s, t, from);
      if Contended(oldValue) && CellIn(cells, from).entry.Some? {
        rest := Meet(rest);
        rest := UnblockLocked(from, all, rest);
        Put(from);
      }
    }

    /** loader_mutex_switch_lock up to its return or, when `blocked`, up to its wait */
    method SwitchLock(t: Thread, from: Address, to: Address, all: bool, outside: Schedule)
        returns (error: Status, blocked: bool)
      requires PcIn(pcs, t).User?
      modifies this
      ensures from == 0 || from % 4 != 0 || to == 0 || to % 4 != 0 ==>
                error == BadAddress && !blocked && View() == old(View())
      ensures from != 0 && from % 4 == 0 && to != 0 && to % 4 == 0 ==>
                && View() == Finish(Next(old(View()), Switch(t, from, to, all)), outside)
                && error == Ok && blocked == PcIn(pcs, t).Blocked?
      ensures old(TableInv(View())) ==> TableInv(View())
    {
      if from == 0 || from % 4 != 0 || to == 0 || to % 4 != 0 {
        return BadAddress, false;
      }
      hide TableInv, Finish, Switched, SwitchStep;
      KeepTable(View(), Switch(t, from, to, all), outside);
      SwitchFinishes(View(), t, from, to, all, outside);
      PreparedPc(View(), t, to, outside);
      GetOrCreate(to);
      Enter(t);
      var alreadyLocked, rest := PrepareToLock(t, to, outside);
      if !alreadyLocked {
        Add(to, t, MutexWait);
      }
      assert Reached(View(), rest) == PreparedSwitch(old(View()), t, to, outside);
      SwitchedPc(View(), t, from, all, rest);
      UnlockFrom(t, from, all, rest);
      if alreadyLocked {
        Exit(t, Ok, to);
      }
      return Ok, !alreadyLocked;
    }

    /** The compare-and-set loop of sem_acquire: take a unit, or find the semaphore contended.
        `s` is the state of the machine in which the loop ends, and `found` what its last turn
        finds. */
    method TakeUnit(t: Thread, sem: Address, outside: Schedule, ghost s: State)
        returns (acquired: bool, ghost found: State)
      requires t in pcs && pcs[t] == Kernel && CellIn(cells, sem).entry.Some?
      requires s == Finish(TryAgain(View(), t, sem, Word(View(), sem)), outside)
      modifies this`cells, this`pcs
      ensures if acquired then Word(found, sem) > 0 && View() == SetWord(found, sem, Word(found, sem) - 1)
              else Load(sem) <= -1
      ensures if acquired then s == Leave(View(), t, Ok, sem)
              else CellIn(cells, sem).entry.Some? && s == Enqueue(View(), t, SemWait, sem)
    {
      hide Finish, Meddled, Enqueue, Leave;
      acquired := false;
      var rest := outside;
      var oldValue := Load(sem);
      found := View();
      TryAgainIs(View(), t, sem, oldValue, rest);
      while oldValue > -1 && !acquired
        invariant t in pcs && pcs[t] == Kernel && CellIn(cells, sem).entry.Some?
        invariant acquired ==> s == Leave(View(), t, Ok, sem)
        invariant acquired ==> Word(found, sem) > 0 && View() == SetWord(found, sem, Word(found, sem) - 1)
        invariant !acquired && oldValue <= -1 ==> Load(sem) <= -1
        invariant !acquired && oldValue > -1 ==> s == Finish(View().(section := SemTry(t, sem, oldValue)), rest)
        invariant !acquired && oldValue <= -1 ==> s == Enqueue(View(), t, SemWait, sem)
        decreases oldValue > -1 && !acquired, |rest|, Rank(View().(section := SemTry(t, sem, oldValue)))
      {
        SemTryTurn(View(), t, sem, oldValue, rest);
        MeddledKeeps(View(), rest, t);
        MeddledByNobody(View(), rest);
        rest := Meet(rest);
        found := View();
        var value := TestAndSet(sem, oldValue - 1, oldValue);
        if value == oldValue && value > 0 {
          acquired := true;
        } else {
          TryAgainIs(View(), t, sem, value, rest);
          oldValue := value;
        }
      }
    }

    /** loader_mutex_sem_acquire up to its return or, when `blocked`, up to its wait */
    method SemAcquire(t: Thread, sem: Address, outside: Schedule) returns (error: Status, blocked: bool)
      requires PcIn(pcs, t).User?
      modifies this
      ensures sem == 0 || sem % 4 != 0 ==> error == BadAddress && !blocked && View() == old(View())
      ensures sem != 0 && sem % 4 == 0 ==> View() == Finish(Next(old(View()), Event.SemAcquire(t, sem)), outside)
      ensures sem != 0 && sem % 4 == 0 ==> error == Ok && blocked == PcIn(pcs, t).Blocked?
      ensures blocked ==> Load(sem) <= -1 && Waiting(sem) != [] && Waiting(sem)[|Waiting(sem)| - 1] == t
      ensures sem != 0 && sem % 4 == 0 && !blocked ==> PcIn(pcs, t) == User(Ok)
      ensures old(TableInv(View())) ==> TableInv(View())
    {
      if sem == 0 || sem % 4 != 0 {
        return BadAddress, false;
      }
      hide TableInv, Finish, TryAgain;
      KeepTable(View(), Event.SemAcquire(t, sem), outside);
      TryAgainForgets(GetEntry(View(), sem), t, sem);
      GetOrCreate(sem);
      Enter(t);
      var acquired, _ := TakeUnit(t, sem, outside, Finish(SemAcquireStep(old(View()), t, sem), outside));
      if !acquired {
        Add(sem, t, SemWait);
        return Ok, true;
      }
      Exit(t, Ok, sem);
      return Ok, false;
    }

    /** The compare-and-set loop of sem_release: no waiters, so the word takes the unit. */
    method GiveUnit(t: Thread, sem: Address, outside: Schedule, ghost s: State) returns (ghost found: State)
      requires s == Finish(View().(section := SemGive(t, sem, Word(View(), sem))), outside)
      modifies this`cells, this`pcs
      ensures s == Leave(View(), t, Ok, sem)
      ensures var w := Word(found, sem); View() == SetWord(found, sem, if w < 0 then w + 2 else w + 1)
    {
      hide Finish, Meddled, Leave;
      var rest := outside;
      var oldValue := Load(sem);
      var done := false;
      found := View();
      while !done
        invariant var w := Word(found, sem); done ==> View() == SetWord(found, sem, if w < 0 then w + 2 else w + 1)
        invariant s == if done then Leave(View(), t, Ok, sem)
                       else Finish(View().(section := SemGive(t, sem, oldValue)), rest)
        decreases !done, |rest|, oldValue != Word(View(), sem)
      {
        SemGiveTurn(View(), t, sem, oldValue, rest);
        MeddledByNobody(View(), rest);
        rest := Meet(rest);
        found := View();
        var inc := if oldValue < 0 then 2 else 1;
        var value := TestAndSet(sem, oldValue + inc, oldValue);
        if value == oldValue {
          done := true;
        } else {
          oldValue := value;
        }
      }
    }

    /** loader_mutex_sem_release */
    method SemRelease(t: Thread, sem: Address, outside: Schedule) returns (error: Status)
      requires PcIn(pcs, t).User?
      modifies this
      ensures sem == 0 || sem % 4 != 0 ==> error == BadAddress && View() == old(View())
      ensures sem != 0 && sem % 4 == 0 ==>
                error == Ok && View() == Finish(Next(old(View()), Event.SemRelease(t, sem)), outside)
      ensures old(TableInv(View())) ==> TableInv(View())
    {
      if sem == 0 || sem % 4 != 0 {
        return BadAddress;
      }
      hide TableInv, Finish, Leave, HandUnit;
      KeepTable(View(), Event.SemRelease(t, sem), outside);
      ghost var s := Finish(SemReleaseStep(View(), t, sem), outside);
      GetOrCreate(sem);
      var any := HandToFirst(sem);
      if !any {
        Enter(t);
        var _ := GiveUnit(t, sem, outside, s);
      } else {
        LeaveFree(View(), t, Ok, sem);
        FinishFree(Leave(View(), t, Ok, sem), outside);
      }
      Exit(t, Ok, sem);
      return Ok;
    }

    /** A unit for the first waiter; the last one to go leaves the semaphore uncontended. */
    method HandToFirst(sem: Address) returns (any: bool)
      modifies this`cells, this`pcs
      ensures any == (Queue(old(View()), sem) != [])
      ensures View() == if any then HandUnit(old(View()), sem) else old(View())
    {
      any := NotifyFirst(sem);
      if any {
        if Waiting(sem) == [] {
          var _ := TestAndSet(sem, 0, -1);
        }
      }
    }
  }

  lemma MeddledByNobody(s: State, o: Schedule)
    ensures o == [] ==> Meddled(s, o) == s
  {
  }

  /** TableInv holds after a call if it held before. */
  lemma KeepTable(s: State, e: Event, o: Schedule)
    requires Enabled(s, e, Usage({}, map[]))
    ensures TableInv(s) ==> TableInv(Finish(Next(s, e), o))
  {
    hide *;
    if TableInv(s) {
      CallTable(s, e, o);
    }
  }

  lemma WaiterIsQueued(s: State, t: Thread)
    requires TableInv(s) && s.section.Free? && PcOf(s, t).Blocked? && !PcOf(s, t).notified
    ensures At(s, PcOf(s, t).address).entry.Some?
  {
    assert PcIn(s.pcs, t) == PcOf(s, t);
  }

  /** What the loop of sem_acquire does with the value it found. */
  lemma TryAgainIs(s: State, t: Thread, a: Address, value: int, o: Schedule)
    requires s.section.Free? && t in s.pcs && s.pcs[t] == Kernel && At(s, a).entry.Some?
    ensures Finish(TryAgain(s, t, a, value), o) ==
            if value > -1 then Finish(s.(section := SemTry(t, a, value)), o) else Enqueue(s, t, SemWait, a)
  {
    hide Finish, Enqueue;
    if value > -1 {
      assert s.pcs[t := Kernel] == s.pcs;
    } else {
      EnqueueFree(s, t, SemWait, a);
      FinishFree(Enqueue(s, t, SemWait, a), o);
    }
  }

  lemma TryAgainForgets(s: State, t: Thread, a: Address)
    requires At(s, a).entry.Some?
    ensures TryAgain(SetPc(s, t, Kernel), t, a, Word(s, a)) == TryAgain(s, t, a, Word(s, a))
  {
    EnqueueForgets(s, t, Kernel, SemWait, a);
    assert s.pcs[t := Kernel][t := Kernel] == s.pcs[t := Kernel];
    hide Enqueue;
  }

  lemma PreparedPc(s: State, t: Thread, to: Address, o: Schedule)
    ensures var r := PreparedSwitch(s, t, to, o).state;
            !Idle(r, t) && PcOf(r, t).Blocked? == !UserMutexMachine.PrepareToLock(At(GetEntry(s, to), to), t).acquired
    ensures At(Prepared(SetPc(GetEntry(s, to), t, Kernel), t, to, o).state, to).entry.Some?
  {
    hide Meddled;
    var s0 := SetPc(GetEntry(s, to), t, Kernel);
    var p := UserMutexMachine.PrepareToLock(At(s0, to), t);
    MeddledKeeps(SetCell(s0, to, p.cell), o, t);
    assert p.cell.entry.Some? && At(GetEntry(s, to), to) == At(s0, to);
    hide UserMutexMachine.PrepareToLock, GetEntry;
  }
}
