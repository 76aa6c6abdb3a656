/** The lock of a messaging area: an atomic counter in front of a semaphore.

    The counter and the semaphore are separate words, so a thread that has counted itself in
    may not have reached the semaphore yet, and an unlocker that has counted itself out may
    not have released the semaphore yet. */
module Benaphore {
  import opened Collections
  import opened HaikuTypes

  // ----- the protocol

  type Thread = nat

  datatype PC =
    | Idle
    | Arriving    // counted in and found the lock taken; Semaphore::Acquire comes next
    | Waiting     // inside Semaphore::Acquire, on the condition variable
    | Holding
    | Leaving     // counted out and saw others; Semaphore::Release comes next

  /** counter is lock_counter; units and waiters are _count and _waitCount of the semaphore. */
  datatype State = State(counter: int, units: int, waiters: int, pcs: map<Thread, PC>)

  datatype Event = CountIn(t: Thread) | Arrive(t: Thread) | Wake(t: Thread) | CountOut(t: Thread) | Leave(t: Thread)

  function At(s: State, t: Thread): PC { if t in s.pcs then s.pcs[t] else Idle }

  predicate Enabled(s: State, e: Event) {
    match e
    case CountIn(t) => At(s, t) == Idle
    case Arrive(t) => At(s, t) == Arriving
    case Wake(t) => At(s, t) == Waiting && s.units >= 1
    case CountOut(t) => At(s, t) == Holding
    case Leave(t) => At(s, t) == Leaving
  }

  function Next(s: State, e: Event): State {
    match e
    case CountIn(t) =>
      s.(counter := s.counter + 1, pcs := s.pcs[t := if s.counter == 0 then Holding else Arriving])
    case Arrive(t) =>
      if s.units >= 1 then s.(units := s.units - 1, pcs := s.pcs[t := Holding])
      else s.(waiters := s.waiters + 1, pcs := s.pcs[t := Waiting])
    case Wake(t) => s.(units := s.units - 1, waiters := s.waiters - 1, pcs := s.pcs[t := Holding])
    case CountOut(t) =>
      s.(counter := s.counter - 1, pcs := s.pcs[t := if s.counter > 1 then Leaving else Idle])
    case Leave(t) => s.(units := s.units + 1, pcs := s.pcs[t := Idle])
  }

  /** InitHeader creates the lock held by the creator, the semaphore starts at 0. */
  ghost predicate Initial(s: State) {
    exists creator :: s == State(1, 0, 0, map[creator := Holding])
  }

  ghost predicate IsRun(states: seq<State>, events: seq<Event>) {
    && |states| == |events| + 1 && Initial(states[0])
    && forall i :: 0 <= i < |events| ==> Enabled(states[i], events[i]) && states[i + 1] == Next(states[i], events[i])
  }

  // ----- the invariant

  ghost function Threads(pcs: map<Thread, PC>, p: PC): set<Thread> {
    set t | t in pcs && pcs[t] == p
  }

  ghost function Count(s: State, p: PC): nat { |Threads(s.pcs, p)| }

  /** Everyone counted in holds the lock or is on the way to it; while someone is counted in,
      the right to hold is in exactly one place: with a holder, in the semaphore, or with an
      unlocker that is about to put it there. */
  ghost predicate Inv(s: State) {
    && s.units >= 0 && s.waiters == Count(s, Waiting)
    && s.counter == Count(s, Holding) + Count(s, Arriving) + Count(s, Waiting)
    && Count(s, Holding) + s.units + Count(s, Leaving) == (if s.counter > 0 then 1 else 0)
  }

  lemma MovesTo(pcs: map<Thread, PC>, t: Thread, p: PC, q: PC)
    ensures Threads(pcs[t := p], q) == if p == q then Threads(pcs, q) + {t} else Threads(pcs, q) - {t}
  {
  }

  lemma Moves(pcs: map<Thread, PC>, t: Thread, p: PC, q: PC)
    requires q != Idle
    ensures var before := if t in pcs then pcs[t] else Idle;
            |Threads(pcs[t := p], q)| == |Threads(pcs, q)| + (if p == q then 1 else 0) - (if before == q then 1 else 0)
  {
    MovesTo(pcs, t, p, q);
    var a := Threads(pcs, q);
    assert t in a <==> t in pcs && pcs[t] == q;
    hide Threads;
    assert t in a ==> a + {t} == a;
    assert t !in a ==> a - {t} == a;
  }

  lemma InitialInv(s: State)
    requires Initial(s)
    ensures Inv(s)
  {
    var creator :| s == State(1, 0, 0, map[creator := Holding]);
    assert Threads(s.pcs, Holding) == {creator};
    forall p | p != Holding ensures Threads(s.pcs, p) == {} {
    }
  }

  lemma StepInv(s: State, e: Event)
    requires Inv(s) && Enabled(s, e)
    ensures Inv(Next(s, e))
  {
    var n := Next(s, e);
    forall q: PC | q != Idle
      ensures Count(n, q) == Count(s, q) + (if At(n, e.t) == q then 1 else 0) - (if At(s, e.t) == q then 1 else 0)
    {
      Moves(s.pcs, e.t, At(n, e.t), q);
    }
    if At(s, e.t) != Idle {
      assert e.t in Threads(s.pcs, At(s, e.t));
    }
  }

  lemma {:induction false} RunInv(states: seq<State>, events: seq<Event>, k: nat)
    requires IsRun(states, events) && k < |states|
    ensures Inv(states[k])
  {
    if k == 0 {
      InitialInv(states[0]);
    } else {
      RunInv(states, events, k - 1);
      StepInv(states[k - 1], events[k - 1]);
    }
  }

  /** At most one thread holds the area in any interleaving. */
  lemma MutualExclusion(states: seq<State>, events: seq<Event>, k: nat, a: Thread, b: Thread)
    requires IsRun(states, events) && k < |states|
    requires At(states[k], a) == Holding && At(states[k], b) == Holding
    ensures a == b
  {
    RunInv(states, events, k);
    var holders := Threads(states[k].pcs, Holding);
    if a != b {
      assert {a, b} <= holders;
      SubsetSize({a, b}, holders);
    }
  }

  /** While the counter is positive there is exactly one of: a holder, one semaphore unit, one
      unlocker about to release; otherwise there is none of them and nobody on the way in. */
  lemma OneRightToHold(states: seq<State>, events: seq<Event>, k: nat)
    requires IsRun(states, events) && k < |states|
    ensures var s := states[k];
            && s.counter >= 0 && s.units >= 0
            && Count(s, Holding) + s.units + Count(s, Leaving) == (if s.counter > 0 then 1 else 0)
            && (s.counter == 0 ==> Count(s, Arriving) == 0 && Count(s, Waiting) == 0)
  {
    RunInv(states, events, k);
  }

  /** Whoever waits is not forgotten: if nobody holds the area and no release is under way,
      the waiter itself can go on. */
  lemma WaiterGoesOn(states: seq<State>, events: seq<Event>, k: nat, t: Thread)
    requires IsRun(states, events) && k < |states| && At(states[k], t) == Waiting
    requires forall u :: At(states[k], u) != Holding && At(states[k], u) != Leaving
    ensures Enabled(states[k], Wake(t))
  {
    RunInv(states, events, k);
    var s := states[k];
    assert t in Threads(s.pcs, Waiting);
    forall p | p == Holding || p == Leaving ensures Threads(s.pcs, p) == {} {
      forall u ensures u !in Threads(s.pcs, p) {
        assert At(s, u) != p;
      }
    }
  }

  // ----- the implementation

  class Semaphore {
    var count: int
    var waitCount: int
    var registered: bool

    constructor (initial: nat)
      ensures count == initial && waitCount == 0 && registered
    {
      count, waitCount, registered := initial, 0, true;
    }

    /** Semaphore::Acquire up to the wait: done, or counted among the waiters. */
    method Acquire(n: int) returns (waits: bool)
      modifies this
      ensures waits == (old(count) < n) && registered == old(registered)
      ensures count == (if waits then old(count) else old(count) - n)
      ensures waitCount == (if waits then old(waitCount) + 1 else old(waitCount))
    {
      if count >= n {
        count := count - n;
        return false;
      }
      waitCount := waitCount + 1;
      waits := true;
    }

    /** The rest of Acquire, once the condition holds. */
    method Wake(n: int) returns (status: int)
      requires !registered || count >= n
      modifies this
      ensures waitCount == old(waitCount) - 1 && registered == old(registered)
      ensures if registered then status == B_OK && count == old(count) - n
              else status == B_BAD_SEM_ID && count == old(count)
    {
      waitCount := waitCount - 1;
      if !registered {
        return B_BAD_SEM_ID;
      }
      count := count - n;
      status := B_OK;
    }

    /** Semaphore::Release; it wakes all waiters, each of which looks again. */
    method Release(n: int)
      modifies this
      ensures count == old(count) + n && waitCount == old(waitCount) && registered == old(registered)
    {
      count := count + n;
    }
  }

  /** MessagingArea::Lock and Unlock, cut where other threads can get in between. */
  class AreaLock {
    var lockCounter: int
    const lockSem: Semaphore
    ghost var pcs: map<Thread, PC>

    ghost function View(): State
      reads this, lockSem
    {
      State(lockCounter, lockSem.count, lockSem.waitCount, pcs)
    }

    constructor (sem: Semaphore, ghost creator: Thread)
      requires sem.count == 0 && sem.waitCount == 0 && sem.registered
      ensures lockSem == sem && sem.registered && Initial(View())
    {
      lockCounter, lockSem, pcs := 1, sem, map[creator := Holding];
      new;
      assert View() == State(1, 0, 0, map[creator := Holding]);
    }

    /** The first step of Lock: true if the lock was free. */
    method CountIn(ghost t: Thread) returns (locked: bool)
      requires At(View(), t) == Idle
      modifies this
      ensures Enabled(old(View()), Event.CountIn(t)) && View() == Next(old(View()), Event.CountIn(t))
      ensures locked == (old(lockCounter) == 0)
      ensures lockCounter == old(lockCounter) + 1 && At(View(), t) == if locked then Holding else Arriving
    {
      locked := lockCounter == 0;
      lockCounter := lockCounter + 1;
      pcs := pcs[t := if locked then Holding else Arriving];
    }

    /** Lock reaches the semaphore. */
    method Arrive(ghost t: Thread) returns (waits: bool)
      requires At(View(), t) == Arriving
      modifies this, lockSem
      ensures Enabled(old(View()), Event.Arrive(t)) && View() == Next(old(View()), Event.Arrive(t))
      ensures waits == (old(lockSem.count) < 1)
      ensures At(View(), t) == (if waits then Waiting else Holding) && lockCounter == old(lockCounter)
      ensures lockSem.count == old(lockSem.count) - (if waits then 0 else 1)
      ensures lockSem.registered == old(lockSem.registered)
    {
      waits := lockSem.Acquire(1);
      pcs := pcs[t := if waits then Waiting else Holding];
    }

    method Wake(ghost t: Thread) returns (status: int)
      requires lockSem.registered && At(View(), t) == Waiting && lockSem.count >= 1
      modifies this, lockSem
      ensures Enabled(old(View()), Event.Wake(t)) && View() == Next(old(View()), Event.Wake(t))
      ensures status == B_OK && At(View(), t) == Holding
      ensures lockSem.count == old(lockSem.count) - 1 && lockCounter == old(lockCounter) && lockSem.registered
    {
      status := lockSem.Wake(1);
      pcs := pcs[t := Holding];
    }

    /** The first step of Unlock: true if the semaphore must be released. */
    method CountOut(ghost t: Thread) returns (others: bool)
      requires At(View(), t) == Holding
      modifies this
      ensures Enabled(old(View()), Event.CountOut(t)) && View() == Next(old(View()), Event.CountOut(t))
      ensures others == (old(lockCounter) > 1)
      ensures lockCounter == old(lockCounter) - 1 && At(View(), t) == if others then Leaving else Idle
    {
      others := lockCounter > 1;
      lockCounter := lockCounter - 1;
      pcs := pcs[t := if others then Leaving else Idle];
    }

    method Leave(ghost t: Thread)
      requires At(View(), t) == Leaving
      modifies this, lockSem
      ensures Enabled(old(View()), Event.Leave(t)) && View() == Next(old(View()), Event.Leave(t))
      ensures At(View(), t) == Idle
      ensures lockSem.count == old(lockSem.count) + 1 && lockCounter == old(lockCounter)
      ensures lockSem.registered == old(lockSem.registered)
    {
      lockSem.Release(1);
      pcs := pcs[t := Idle];
    }
  }
}
