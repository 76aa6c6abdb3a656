/** Whole calls: a first step and the rest of its section, while other threads of the process
    change words from user space before every later atomic of the call. */
module UserMutexCalls {
  import opened UserMutexWord
  import opened UserMutexMachine
  import opened UserMutexTable
  import opened UserMutexRuns

  /** What happens in user space before the next atomics of a call, one batch for each; when
      it is used up nobody interferes any more. A call that ends has met a finite number. */
  type Schedule = seq<seq<Event>>

  function Rest(o: Schedule): Schedule { if o == [] then [] else o[1..] }

  /** The events of a batch, as far as user space gets to do them. */
  function Outside(s: State, batch: seq<Event>): State
    decreases |batch|
  {
    if batch == [] then s
    else Outside(if IsPossible(s, batch[0]) then Next(s, batch[0]) else s, batch[1..])
  }

  function Meddled(s: State, o: Schedule): State { if o == [] then s else Outside(s, o[0]) }

  /** Steps a section needs at most when nobody interferes. */
  function Rank(s: State): nat {
    match s.section
    case Free => 0
    case ClearContended(_, _, after) => if after.UnlockFrom? then 4 else 1
    case SwitchUnlock(_, _, _, _) => 3
    case SwitchUnblock(_, _, _, _) => 2
    case SemTry(_, a, oldValue) =>
      if Word(s, a) < 0 then 1
      else (if Word(s, a) == 0 then 2 else 1) + (if Word(s, a) == oldValue then 0 else 1)
    case SemGive(_, a, oldValue) => if Word(s, a) == oldValue then 1 else 2
  }

  lemma RankFalls(s: State)
    requires !s.section.Free?
    ensures Rank(ContinueStep(s)) < Rank(s)
  {
    hide UnblockFirst, PutEntry, Enqueue, Release;
  }

  /** Continue until the table lock is free. */
  function Finish(s: State, o: Schedule): State
    decreases |o|, Rank(s)
  {
    if s.section.Free? then s
    else
      RankFalls(s);
      Finish(ContinueStep(Meddled(s, o)), Rest(o))
  }

  // ----- what happens outside

  /** A thread in the kernel stays where it is, and so does the section. */
  lemma {:induction false} OutsideKeeps(s: State, batch: seq<Event>, t: Thread)
    ensures var r := Outside(s, batch);
            && r.section == s.section && r.nextEntry == s.nextEntry
            && (!Idle(s, t) ==> t in r.pcs && t in s.pcs && r.pcs[t] == s.pcs[t])
            && (forall a :: CellIn(r.cells, a).entry == CellIn(s.cells, a).entry)
    decreases |batch|
  {
    if batch != [] {
      var s1 := if IsPossible(s, batch[0]) then Next(s, batch[0]) else s;
      if IsPossible(s, batch[0]) {
        OutsideKeepsOne(s, batch[0], t);
      }
      OutsideKeeps(s1, batch[1..], t);
      hide Next, IsPossible;
    }
  }

  lemma OutsideKeepsOne(s: State, e: Event, t: Thread)
    requires IsPossible(s, e)
    ensures var r := Next(s, e);
            && r.section == s.section && r.nextEntry == s.nextEntry
            && (!Idle(s, t) ==> t in r.pcs && t in s.pcs && r.pcs[t] == s.pcs[t])
            && (forall a :: CellIn(r.cells, a).entry == CellIn(s.cells, a).entry)
  {
  }

  /** User space does not look at the section. */
  lemma {:induction false} OutsideIgnores(s: State, batch: seq<Event>, section: Section)
    ensures Outside(s.(section := section), batch) == Outside(s, batch).(section := section)
    decreases |batch|
  {
    if batch != [] {
      var s1 := if IsPossible(s, batch[0]) then Next(s, batch[0]) else s;
      OutsideIgnores(s1, batch[1..], section);
      OutsideIgnoresOne(s, batch[0], section);
      hide Next, IsPossible;
    }
  }

  lemma OutsideIgnoresOne(s: State, e: Event, section: Section)
    ensures IsPossible(s.(section := section), e) == IsPossible(s, e)
    ensures IsPossible(s, e) ==> Next(s.(section := section), e) == Next(s, e).(section := section)
  {
  }

  lemma MeddledKeeps(s: State, o: Schedule, t: Thread)
    ensures var r := Meddled(s, o);
            && r.section == s.section && r.nextEntry == s.nextEntry
            && (!Idle(s, t) ==> t in r.pcs && t in s.pcs && r.pcs[t] == s.pcs[t])
            && (forall a :: CellIn(r.cells, a).entry == CellIn(s.cells, a).entry)
  {
    if o != [] {
      OutsideKeeps(s, o[0], t);
    }
    hide Outside;
    if o == [] && !Idle(s, t) {
      assert t in s.pcs;
    }
  }

  lemma MeddledIgnores(s: State, o: Schedule, section: Section)
    ensures Meddled(s.(section := section), o) == Meddled(s, o).(section := section)
  {
    if o != [] {
      OutsideIgnores(s, o[0], section);
    }
  }

  /** The batches are met in order: the last event of one happens if user space gets to do it
      after the others, and behind each batch the section takes one step. */
  lemma BatchesAreMet(s: State, batch: seq<Event>, e: Event, o: Schedule)
    ensures var r := Outside(s, batch); Outside(s, batch + [e]) == if IsPossible(r, e) then Next(r, e) else r
    ensures !s.section.Free? ==> Finish(s, [batch] + o) == Finish(Next(Outside(s, batch), Continue), o)
    ensures !s.section.Free? ==> Finish(s, []) == Finish(Next(s, Continue), [])
    ensures s.section.Free? ==> Finish(s, o) == s
  {
    OutsideLast(s, batch, e);
    OutsideKeeps(s, batch, 0);
    hide Outside;
    assert ([batch] + o)[1..] == o;
  }

  lemma {:induction false} OutsideLast(s: State, batch: seq<Event>, e: Event)
    ensures var r := Outside(s, batch); Outside(s, batch + [e]) == if IsPossible(r, e) then Next(r, e) else r
    decreases |batch|
  {
    hide Next, IsPossible;
    if batch == [] {
      assert [] + [e] == [e] && [e][1..] == [];
    } else {
      assert (batch + [e])[1..] == batch[1..] + [e];
      OutsideLast(if IsPossible(s, batch[0]) then Next(s, batch[0]) else s, batch[1..], e);
    }
  }

  // ----- what calls keep

  lemma {:induction false} OutsideSafe(s: State, batch: seq<Event>, u: Usage)
    requires Safe(s, u) && (forall m :: m in u.mutexes ==> m !in u.sems) && forall e <- batch :: Respects(e, u)
    ensures Safe(Outside(s, batch), u)
    decreases |batch|
  {
    hide Safe, Next, IsPossible, Respects;
    if batch != [] {
      assert batch[0] in batch;
      if IsPossible(s, batch[0]) {
        PossibleIsEnabled(s, batch[0], u);
        StepSafe(s, batch[0], u);
      }
      OutsideSafe(if IsPossible(s, batch[0]) then Next(s, batch[0]) else s, batch[1..], u);
    }
  }

  lemma PossibleIsEnabled(s: State, e: Event, u: Usage)
    requires IsPossible(s, e) && Respects(e, u)
    ensures Enabled(s, e, u)
  {
  }

  ghost predicate AllRespect(o: Schedule, u: Usage) {
    forall batch <- o :: forall e <- batch :: Respects(e, u)
  }

  lemma RestRespects(o: Schedule, u: Usage)
    requires AllRespect(o, u)
    ensures AllRespect(Rest(o), u)
    ensures o != [] ==> forall e <- o[0] :: Respects(e, u)
  {
    if o != [] {
      assert o[0] in o && forall batch <- o[1..] :: batch in o;
    }
  }

  lemma {:induction false} FinishSafe(s: State, o: Schedule, u: Usage)
    requires Safe(s, u) && (forall m :: m in u.mutexes ==> m !in u.sems) && AllRespect(o, u)
    ensures Safe(Finish(s, o), u) && Finish(s, o).section.Free?
    decreases |o|, Rank(s)
  {
    hide Safe, ContinueStep, AllRespect, Respects, Rank;
    if !s.section.Free? {
      var s1 := Meddled(s, o);
      RestRespects(o, u);
      if o != [] {
        OutsideSafe(s, o[0], u);
      }
      MeddledKeeps(s, o, 0);
      assert Enabled(s1, Continue, u);
      StepSafe(s1, Continue, u);
      RankFalls(s);
      FinishSafe(ContinueStep(s1), Rest(o), u);
    }
  }

  /** A whole call that is allowed keeps the invariant of the runs, and ends with the table lock
      free, whatever the other threads do to the words meanwhile. */
  lemma CallSafe(s: State, e: Event, o: Schedule, u: Usage)
    requires Safe(s, u) && Enabled(s, e, u) && (forall m :: m in u.mutexes ==> m !in u.sems) && AllRespect(o, u)
    ensures Safe(Finish(Next(s, e), o), u) && Finish(Next(s, e), o).section.Free?
  {
    hide *;
    StepSafe(s, e, u);
    FinishSafe(Next(s, e), o, u);
  }

  /** The table stays in agreement even if nothing is promised about the words. */
  lemma {:induction false} OutsideTable(s: State, batch: seq<Event>)
    requires TableInv(s)
    ensures TableInv(Outside(s, batch))
    decreases |batch|
  {
    hide TableInv, Next;
    if batch != [] {
      if IsPossible(s, batch[0]) {
        OutsideKeepsTable(s, batch[0]);
      }
      OutsideTable(if IsPossible(s, batch[0]) then Next(s, batch[0]) else s, batch[1..]);
    }
  }

  lemma {:induction false} FinishTable(s: State, o: Schedule)
    requires TableInv(s)
    ensures TableInv(Finish(s, o))
    decreases |o|, Rank(s)
  {
    hide TableInv, ContinueStep, Rank;
    if !s.section.Free? {
      if o != [] {
        OutsideTable(s, o[0]);
      }
      ContinueKeepsTable(Meddled(s, o));
      RankFalls(s);
      FinishTable(ContinueStep(Meddled(s, o)), Rest(o));
    }
  }

  lemma CallTable(s: State, e: Event, o: Schedule)
    requires TableInv(s) && Enabled(s, e, Usage({}, map[]))
    ensures TableInv(Finish(Next(s, e), o))
  {
    hide *;
    StepKeepsTable(s, e, Usage({}, map[]));
    FinishTable(Next(s, e), o);
  }

  // ----- the pieces of calls, as they are met by others

  /** Where a piece of a call ends, and what is left of the schedule. */
  datatype Reached = Reached(state: State, rest: Schedule)

  /** atomic_and(~WAITING), a later atomic of its call */
  function Settled(s: State, m: Address, o: Schedule): State {
    var s1 := Meddled(s, o);
    SetWord(s1, m, AndNotContended(Word(s1, m)))
  }

  /** prepare_to_lock as a whole */
  function Prepared(s: State, t: Thread, m: Address, o: Schedule): Reached {
    var p := PrepareToLock(At(s, m), t);
    var s1 := SetCell(s, m, p.cell);
    if p.settle then Reached(Settled(s1, m, o), Rest(o)) else Reached(s1, o)
  }

  /** unblock_locked as a whole */
  function Unblocked(s: State, m: Address, all: bool, o: Schedule): Reached {
    var (s1, clear) := UnblockFirst(s, m, all);
    if clear then Reached(Settled(s1, m, o), Rest(o)) else Reached(s1, o)
  }

  /** switch_lock up to its own wait */
  function PreparedSwitch(s: State, t: Thread, to: Address, o: Schedule): Reached {
    var r := Prepared(SetPc(GetEntry(s, to), t, Kernel), t, to, o);
    if PrepareToLock(At(GetEntry(s, to), to), t).acquired then r
    else if At(r.state, to).entry.Some? then Reached(Enqueue(r.state, t, MutexWait, to), r.rest)
    else r
  }

  /** switch_lock after it has prepared `to`: unlock `from` and unblock its waiters */
  function Switched(s: State, t: Thread, from: Address, all: bool, o: Schedule): Reached {
    var s1, o1 := Meddled(s, o), Rest(o);
    var s2 := Release(s1, t, from);
    if Contended(Word(s1, from)) && At(s2, from).entry.Some? then
      var r := Unblocked(Meddled(s2, o1), from, all, Rest(o1));
      Reached(PutEntry(r.state, from), r.rest)
    else
      Reached(s2, o1)
  }

  // ----- how sections end

  lemma FinishFree(s: State, o: Schedule)
    requires s.section.Free?
    ensures Finish(s, o) == s
  {
  }

  lemma FinishStep(s: State, o: Schedule, section: Section)
    requires s.section.Free? && !section.Free?
    ensures Finish(s.(section := section), o) == Finish(ContinueStep(Meddled(s, o).(section := section)), Rest(o))
  {
    MeddledIgnores(s, o, section);
  }

  lemma MeddledFree(s: State, o: Schedule)
    ensures Meddled(s, o).section == s.section
  {
    MeddledKeeps(s, o, 0);
  }

  /** Clearing WAITING and returning. */
  lemma ReturnFinishes(s: State, t: Thread, m: Address, a: Address, status: Status, o: Schedule)
    requires s.section.Free?
    ensures Finish(s.(section := ClearContended(t, m, Return(a, status))), o) == Leave(Settled(s, m, o), t, status, a)
  {
    hide Finish, Meddled;
    FinishStep(s, o, ClearContended(t, m, Return(a, status)));
    MeddledFree(s, o);
    FinishFree(Leave(Settled(s, m, o), t, status, a), Rest(o));
    hide Leave;
  }

  /** The pc that a thread had in the kernel does not matter when it leaves. */
  lemma LeaveForgets(s: State, t: Thread, pc: Pc, status: Status, a: Address)
    ensures Leave(SetPc(s, t, pc), t, status, a) == Leave(s, t, status, a)
  {
    assert s.pcs[t := pc][t := User(status)] == s.pcs[t := User(status)];
  }

  lemma EnqueueForgets(s: State, t: Thread, pc: Pc, kind: Kind, a: Address)
    requires At(s, a).entry.Some?
    ensures Enqueue(SetPc(s, t, pc), t, kind, a) == Enqueue(s, t, kind, a)
  {
    var c := At(s, a);
    var w := Blocked(kind, a, c.entry.value.id, false);
    assert s.pcs[t := pc][t := w] == s.pcs[t := w];
  }

  /** Either way, the thread is in the kernel while lock prepares. */
  lemma LockFinishes(s: State, t: Thread, m: Address, o: Schedule)
    requires s.section.Free?
    ensures var r := Prepared(SetPc(GetEntry(s, m), t, Kernel), t, m, o);
            && At(r.state, m).entry.Some?
            && Finish(LockStep(s, t, m), o) ==
                 if PrepareToLock(At(GetEntry(s, m), m), t).acquired then Leave(r.state, t, Ok, m)
                 else Enqueue(r.state, t, MutexWait, m)
  {
    hide Finish, Leave, Enqueue, Meddled;
    var s0 := GetEntry(s, m);
    var p := PrepareToLock(At(s0, m), t);
    var s1 := SetCell(s0, m, p.cell);
    assert SetCell(SetPc(s0, t, Kernel), m, p.cell) == SetPc(s1, t, Kernel);
    assert p.cell.entry.Some? && At(s1, m) == p.cell;
    if p.settle {
      ReturnFinishes(SetPc(s1, t, Kernel), t, m, m, Ok, o);
      MeddledKeeps(SetPc(s1, t, Kernel), o, t);
    } else if p.acquired {
      LeaveForgets(s1, t, Kernel, Ok, m);
      LeaveFree(s1, t, Ok, m);
      FinishFree(Leave(s1, t, Ok, m), o);
    } else {
      EnqueueForgets(s1, t, Kernel, MutexWait, m);
      EnqueueFree(s1, t, MutexWait, m);
      FinishFree(Enqueue(s1, t, MutexWait, m), o);
    }
  }

  lemma LeaveFree(s: State, t: Thread, status: Status, a: Address)
    ensures Leave(s, t, status, a).section.Free?
  {
  }

  lemma EnqueueFree(s: State, t: Thread, kind: Kind, a: Address)
    requires At(s, a).entry.Some?
    ensures Enqueue(s, t, kind, a).section == s.section
  {
  }

  lemma UnblockFinishes(s: State, t: Thread, m: Address, all: bool, o: Schedule)
    requires s.section.Free? && At(s, m).entry.Some?
    ensures Finish(UnblockStep(s, t, m, all), o) == Leave(Unblocked(SetPc(s, t, Kernel), m, all, o).state, t, Ok, m)
  {
    hide Finish, Leave, UnblockFirst, Meddled;
    var s0 := SetPc(s, t, Kernel);
    var (s1, clear) := UnblockFirst(s0, m, all);
    UnblockFirstFree(s0, m, all);
    if clear {
      ReturnFinishes(s1, t, m, m, Ok, o);
    } else {
      LeaveFree(s1, t, Ok, m);
      FinishFree(Leave(s1, t, Ok, m), o);
    }
  }

  lemma {:induction false} NotifyAllKeeps(s: State, a: Address, t: Thread)
    ensures var r := NotifyAll(s, a); r.section == s.section && PcOf(r, t).Blocked? == PcOf(s, t).Blocked?
    ensures Idle(NotifyAll(s, a), t) == Idle(s, t)
    decreases |Queue(s, a)|
  {
    if Queue(s, a) == [] {
    } else {
      NotifyAllKeeps(NotifyOne(s, a), a, t);
    }
  }

  lemma UnblockFirstKeeps(s: State, m: Address, all: bool, t: Thread)
    ensures var r := UnblockFirst(s, m, all).0;
            r.section == s.section && PcOf(r, t).Blocked? == PcOf(s, t).Blocked? && Idle(r, t) == Idle(s, t)
  {
    NotifyAllKeeps(s, m, t);
    NotifyAllKeeps(SetWord(s, m, OrLocked(Word(s, m))), m, t);
    hide NotifyAll;
  }

  lemma UnblockFirstFree(s: State, m: Address, all: bool)
    ensures UnblockFirst(s, m, all).0.section == s.section
  {
    UnblockFirstKeeps(s, m, all, 0);
  }

  lemma WakeFinishes(s: State, t: Thread, expired: bool, o: Schedule)
    requires s.section.Free? && PcOf(s, t).Blocked? && !PcOf(s, t).notified && At(s, PcOf(s, t).address).entry.Some?
    ensures var Blocked(kind, a, _, _) := PcOf(s, t);
            var s1 := SetPc(SetCell(s, a, WithQueue(At(s, a), Without(Queue(s, a), t))), t, Kernel);
            Finish(Next(s, Wake(t, expired)), o) ==
            Leave(if kind.MutexWait? && Queue(s1, a) == [] then Settled(s1, a, o) else s1, t, TimedOut, a)
  {
    hide Finish, Leave, Meddled, Without;
    var Blocked(kind, a, _, _) := PcOf(s, t);
    var s1 := SetCell(s, a, WithQueue(At(s, a), Without(Queue(s, a), t)));
    if kind.MutexWait? && Queue(s1, a) == [] {
      ReturnFinishes(SetPc(s1, t, Kernel), t, a, a, TimedOut, o);
    } else {
      LeaveForgets(s1, t, Kernel, TimedOut, a);
      LeaveFree(s1, t, TimedOut, a);
      FinishFree(Leave(s1, t, TimedOut, a), o);
    }
  }

  // ----- switch_lock

  lemma EndSwitchFree(s: State, t: Thread, to: Address)
    ensures EndSwitch(s, t, to).section.Free?
  {
  }

  lemma SwitchUnblockFinishes(s: State, t: Thread, from: Address, to: Address, all: bool, o: Schedule)
    requires s.section.Free?
    ensures var r := Unblocked(Meddled(s, o), from, all, Rest(o));
            Finish(s.(section := SwitchUnblock(t, from, to, all)), o) == EndSwitch(PutEntry(r.state, from), t, to)
  {
    hide Finish, UnblockFirst, PutEntry, EndSwitch, Meddled;
    FinishStep(s, o, SwitchUnblock(t, from, to, all));
    MeddledFree(s, o);
    var s1 := Meddled(s, o);
    assert s1.(section := SwitchUnblock(t, from, to, all)).(section := Free) == s1;
    var (s2, clear) := UnblockFirst(s1, from, all);
    UnblockFirstFree(s1, from, all);
    if clear {
      FinishStep(s2, Rest(o), ClearContended(t, from, FinishSwitch(from, to)));
      MeddledFree(s2, Rest(o));
      var s3 := EndSwitch(PutEntry(Settled(s2, from, Rest(o)), from), t, to);
      EndSwitchFree(PutEntry(Settled(s2, from, Rest(o)), from), t, to);
      FinishFree(s3, Rest(Rest(o)));
    } else {
      EndSwitchFree(PutEntry(s2, from), t, to);
      FinishFree(EndSwitch(PutEntry(s2, from), t, to), Rest(o));
    }
  }

  lemma SwitchUnlockFinishes(s: State, t: Thread, from: Address, to: Address, all: bool, o: Schedule)
    requires s.section.Free?
    ensures Finish(s.(section := SwitchUnlock(t, from, to, all)), o)
              == EndSwitch(Switched(s, t, from, all, o).state, t, to)
  {
    hide Finish, PutEntry, EndSwitch, Unblocked, Meddled;
    FinishStep(s, o, SwitchUnlock(t, from, to, all));
    MeddledFree(s, o);
    var s1 := Meddled(s, o);
    var s2 := Release(s1, t, from);
    if Contended(Word(s1, from)) && At(s2, from).entry.Some? {
      SwitchUnblockFinishes(s2, t, from, to, all, Rest(o));
    } else {
      EndSwitchFree(s2, t, to);
      FinishFree(EndSwitch(s2, t, to), Rest(o));
    }
  }

  /** The whole of switch_lock, up to its wait. */
  lemma SwitchFinishes(s: State, t: Thread, from: Address, to: Address, all: bool, o: Schedule)
    requires s.section.Free?
    ensures var p := PreparedSwitch(s, t, to, o);
            Finish(SwitchStep(s, t, from, to, all), o)
                == EndSwitch(Switched(p.state, t, from, all, p.rest).state, t, to)
  {
    hide Finish, Switched, EndSwitch, Meddled, Enqueue;
    var s0 := GetEntry(s, to);
    var p := PrepareToLock(At(s0, to), t);
    var s1 := SetCell(s0, to, p.cell);
    var s2 := SetPc(s1, t, Kernel);
    assert SetCell(SetPc(s0, t, Kernel), to, p.cell) == s2;
    assert p.cell.entry.Some? && At(s1, to) == p.cell;
    if p.settle {
      FinishStep(s2, o, ClearContended(t, to, UnlockFrom(from, to, all)));
      MeddledFree(s2, o);
      SwitchUnlockFinishes(Settled(s2, to, o), t, from, to, all, Rest(o));
    } else if p.acquired {
      SwitchUnlockFinishes(s2, t, from, to, all, o);
    } else {
      EnqueueForgets(s1, t, Kernel, MutexWait, to);
      EnqueueFree(s1, t, MutexWait, to);
      SwitchUnlockFinishes(Enqueue(s1, t, MutexWait, to), t, from, to, all, o);
    }
  }

  /** The switching thread is in the kernel or queued until it is done. */
  lemma SwitchedPc(s: State, t: Thread, from: Address, all: bool, o: Schedule)
    requires !Idle(s, t)
    ensures PcOf(Switched(s, t, from, all, o).state, t).Blocked? == PcOf(s, t).Blocked?
  {
    hide UnblockFirst, At, PutEntry, Meddled;
    var s1, o1 := Meddled(s, o), Rest(o);
    MeddledKeeps(s, o, t);
    var s2 := Release(s1, t, from);
    MeddledKeeps(s2, o1, t);
    UnblockFirstKeeps(Meddled(s2, o1), from, all, t);
    var (s3, clear) := UnblockFirst(Meddled(s2, o1), from, all);
    MeddledKeeps(s3, Rest(o1), t);
    PutEntryPcs(Unblocked(Meddled(s2, o1), from, all, Rest(o1)).state, from);
  }

  lemma PutEntryPcs(s: State, a: Address)
    ensures PutEntry(s, a).pcs == s.pcs
  {
  }

  // ----- compare-and-set loops

  /** One turn of the loop of sem_acquire, from a state in which the thread is in the kernel. */
  lemma SemTryTurn(s: State, t: Thread, a: Address, oldValue: int, o: Schedule)
    requires s.section.Free? && t in s.pcs && s.pcs[t] == Kernel
    ensures var s1 := Meddled(s, o); var value := Word(s1, a); var z := s.(section := SemTry(t, a, oldValue));
            Finish(z, o) ==
            if value == oldValue && value > 0 then Leave(SetWord(s1, a, value - 1), t, Ok, a)
            else Finish(TryAgain(if value == oldValue then SetWord(s1, a, value - 1) else s1, t, a, value), Rest(o))
  {
    hide Finish, Meddled, TryAgain, Leave;
    FinishStep(s, o, SemTry(t, a, oldValue));
    MeddledKeeps(s, o, t);
    var s1 := Meddled(s, o);
    assert s1.(section := SemTry(t, a, oldValue)).(section := Free) == s1;
    var s2 := SetWord(s1, a, Word(s1, a) - 1);
    LeaveFree(s2, t, Ok, a);
    FinishFree(Leave(s2, t, Ok, a), Rest(o));
  }

  /** One turn of the loop of sem_release. */
  lemma SemGiveTurn(s: State, t: Thread, a: Address, oldValue: int, o: Schedule)
    requires s.section.Free?
    ensures var s1 := Meddled(s, o); var value := Word(s1, a); var z := s.(section := SemGive(t, a, oldValue));
            Finish(z, o) ==
            if value == oldValue then Leave(SetWord(s1, a, OneMore(value)), t, Ok, a)
            else Finish(s1.(section := SemGive(t, a, value)), Rest(o))
  {
    hide Finish, Meddled, Leave;
    FinishStep(s, o, SemGive(t, a, oldValue));
    MeddledFree(s, o);
    var s1 := Meddled(s, o);
    assert s1.(section := SemGive(t, a, oldValue)).(section := Free) == s1;
    var s2 := SetWord(s1, a, OneMore(Word(s1, a)));
    LeaveFree(s2, t, Ok, a);
    FinishFree(Leave(s2, t, Ok, a), Rest(o));
  }
}
