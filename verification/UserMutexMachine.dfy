/** The user mutex and user semaphore protocol as a step system.

    The table lock serialises kernel sections, but a lock word can be changed from
    outside while a section runs, so a section is broken into one step per atomic
    access to a word, compare-and-set loops included. `Section` says where the holder
    of the table lock stands; `Next` gives the state after one event and `Enabled` says
    when it may happen. */
module UserMutexMachine {
  import opened UserMutexWord
  import opened Collections

  type Thread = int
  type Address = int

  datatype Status = Ok | TimedOut | BadAddress

  datatype Kind = MutexWait | SemWait

  /** What a thread is doing.  A blocked thread is its own waiter record: the entry it
      queued on (by identity, since entries are erased and created again) and the
      notified flag. */
  datatype Pc =
    | User(last: Status)
    | Unblocking(mutex: Address)
    | Kernel
    | Blocked(kind: Kind, address: Address, entry: nat, notified: bool)

  datatype Entry = Entry(id: nat, waiters: seq<Thread>)

  /** What there is at one address: the int32 in memory, its entry in the mutex table if it
      has one, and who owns it as a mutex. */
  datatype Cell = Cell(word: int, entry: Option<Entry>, holders: multiset<Thread>)

  /** What is left of a kernel section after its pending atomic_and(~WAITING). */
  datatype After =
    | Return(address: Address, status: Status)
    | UnlockFrom(from: Address, to: Address, all: bool)
    | FinishSwitch(from: Address, to: Address)

  datatype Section =
    | Free
    | ClearContended(thread: Thread, word: Address, after: After)
    | SwitchUnlock(thread: Thread, from: Address, to: Address, all: bool)
    | SwitchUnblock(thread: Thread, from: Address, to: Address, all: bool)
    | SemTry(thread: Thread, sem: Address, oldValue: int)
    | SemGive(thread: Thread, sem: Address, oldValue: int)

  datatype State = State(cells: map<Address, Cell>, pcs: map<Thread, Pc>, section: Section, nextEntry: nat)

  datatype Event =
    | Lock(thread: Thread, mutex: Address)
    | Unblock(thread: Thread, mutex: Address, all: bool)
    | Switch(thread: Thread, from: Address, to: Address, all: bool)
    | SemAcquire(thread: Thread, sem: Address)
    | SemRelease(thread: Thread, sem: Address)
    | Continue
    | Wake(thread: Thread, expired: bool)
    | UserLock(thread: Thread, mutex: Address)
    | UserUnlock(thread: Thread, mutex: Address)
    | UserTake(thread: Thread, sem: Address)
    | UserGive(thread: Thread, sem: Address)
    | Poke(word: Address, value: int)

  // ----- reading a state

  function CellIn(cells: map<Address, Cell>, a: Address): Cell {
    if a in cells then cells[a] else Cell(0, None, multiset{})
  }

  function At(s: State, a: Address): Cell { CellIn(s.cells, a) }

  function PcIn(pcs: map<Thread, Pc>, t: Thread): Pc { if t in pcs then pcs[t] else User(Ok) }

  function PcOf(s: State, t: Thread): Pc { PcIn(s.pcs, t) }

  function Waiters(c: Cell): seq<Thread> { if c.entry.Some? then c.entry.value.waiters else [] }

  function Word(s: State, a: Address): int { At(s, a).word }

  function Queue(s: State, a: Address): seq<Thread> { Waiters(At(s, a)) }

  function Holders(s: State, a: Address): multiset<Thread> { At(s, a).holders }

  // ----- the pieces kernel sections are made of

  function SetCell(s: State, a: Address, c: Cell): State { s.(cells := s.cells[a := c]) }

  function SetPc(s: State, t: Thread, pc: Pc): State { s.(pcs := s.pcs[t := pc]) }

  function SetWord(s: State, a: Address, w: int): State { SetCell(s, a, At(s, a).(word := w)) }

  function WithQueue(c: Cell, q: seq<Thread>): Cell
    requires c.entry.Some?
  {
    c.(entry := Some(c.entry.value.(waiters := q)))
  }

  /** atomic_and(~LOCKED) by an owner */
  function Release(s: State, t: Thread, a: Address): State {
    var c := At(s, a);
    SetCell(s, a, c.(word := AndNotLocked(c.word), holders := c.holders - multiset{t}))
  }

  function GetEntry(s: State, a: Address): State {
    var c := At(s, a);
    if c.entry.Some? then s
    else SetCell(s, a, c.(entry := Some(Entry(s.nextEntry, [])))).(nextEntry := s.nextEntry + 1)
  }

  function PutEntry(s: State, a: Address): State {
    var c := At(s, a);
    if c.entry.Some? && c.entry.value.waiters == [] then SetCell(s, a, c.(entry := None)) else s
  }

  function Enqueue(s: State, t: Thread, kind: Kind, a: Address): State
    requires At(s, a).entry.Some?
  {
    var c := At(s, a);
    SetPc(SetCell(s, a, WithQueue(c, Waiters(c) + [t])), t, Blocked(kind, a, c.entry.value.id, false))
  }

  function Notified(pc: Pc): Pc { if pc.Blocked? then pc.(notified := true) else pc }

  function NotifyOne(s: State, a: Address): State
    requires Queue(s, a) != []
  {
    var c := At(s, a);
    var q := Waiters(c);
    SetPc(SetCell(s, a, WithQueue(c, q[1..])), q[0], Notified(PcOf(s, q[0])))
  }

  function NotifyAll(s: State, a: Address): (r: State)
    decreases |Queue(s, a)|
  {
    if Queue(s, a) == [] then s else NotifyAll(NotifyOne(s, a), a)
  }

  function Without(q: seq<Thread>, t: Thread): seq<Thread> {
    if q == [] then [] else if q[0] == t then q[1..] else [q[0]] + Without(q[1..], t)
  }

  /** put_entry, release the table lock and return to user space */
  function Leave(s: State, t: Thread, status: Status, a: Address): State {
    SetPc(PutEntry(s, a).(section := Free), t, User(status))
  }

  /** The last lines of switch_lock before it waits or returns. */
  function EndSwitch(s: State, t: Thread, to: Address): State {
    if PcOf(s, t).Blocked? then s.(section := Free) else Leave(s, t, Ok, to)
  }

  datatype Attempt = Attempt(cell: Cell, acquired: bool, settle: bool)

  /** prepare_to_lock up to its first atomic; `settle` says that the WAITING bit it set
      has to be cleared again. */
  function PrepareToLock(c: Cell, t: Thread): Attempt {
    var c1 := c.(word := OrContended(OrLocked(c.word)));
    if !Locked(c.word) || Disabled(c.word) then
      Attempt(c1.(holders := c.holders + multiset{t}), true, !Contended(c.word) && Waiters(c) == [])
    else
      Attempt(c1, false, false)
  }

  /** unblock_locked up to and including its first atomic on the word, and whether it still
      has to clear WAITING */
  function UnblockFirst(s: State, m: Address, all: bool): (State, bool) {
    var c := At(s, m);
    if Waiters(c) == [] then
      (SetCell(s, m, c.(word := AndNotContended(c.word))), false)
    else if all then
      (NotifyAll(s, m), true)
    else if Locked(c.word) then
      (s, false)
    else if Disabled(c.word) then
      (NotifyAll(SetCell(s, m, c.(word := OrLocked(c.word))), m), true)
    else
      var c1 := c.(word := OrLocked(c.word), holders := c.holders + multiset{Waiters(c)[0]});
      (NotifyOne(SetCell(s, m, c1), m), |Waiters(c)| == 1)
  }

  function AfterUnblock(s: State, t: Thread, m: Address, all: bool, after: After): State {
    var (s1, clear) := UnblockFirst(s, m, all);
    if clear then s1.(section := ClearContended(t, m, after)) else Resume(s1, t, after)
  }

  function Resume(s: State, t: Thread, after: After): State {
    match after
    case Return(a, status) => Leave(s, t, status, a)
    case UnlockFrom(from, to, all) => s.(section := SwitchUnlock(t, from, to, all))
    case FinishSwitch(from, to) => EndSwitch(PutEntry(s, from), t, to)
  }

  // ----- the steps

  function LockStep(s: State, t: Thread, m: Address): State {
    var s0 := GetEntry(s, m);
    var p := PrepareToLock(At(s0, m), t);
    var s1 := SetCell(s0, m, p.cell);
    if p.settle then SetPc(s1, t, Kernel).(section := ClearContended(t, m, Return(m, Ok)))
    else if p.acquired then Leave(s1, t, Ok, m)
    else if p.cell.entry.Some? then Enqueue(s1, t, MutexWait, m)
    else s1
  }

  function UnblockStep(s: State, t: Thread, m: Address, all: bool): State {
    if At(s, m).entry.None? then SetPc(SetWord(s, m, AndNotContended(Word(s, m))), t, User(Ok))
    else AfterUnblock(SetPc(s, t, Kernel), t, m, all, Return(m, Ok))
  }

  function SwitchStep(s: State, t: Thread, from: Address, to: Address, all: bool): State {
    var s0 := GetEntry(s, to);
    var p := PrepareToLock(At(s0, to), t);
    var s1 := SetCell(s0, to, p.cell);
    if p.settle then SetPc(s1, t, Kernel).(section := ClearContended(t, to, UnlockFrom(from, to, all)))
    else if p.acquired then SetPc(s1, t, Kernel).(section := SwitchUnlock(t, from, to, all))
    else if p.cell.entry.Some? then Enqueue(s1, t, MutexWait, to).(section := SwitchUnlock(t, from, to, all))
    else s1
  }

  /** The holder of the table lock goes on; each step replaces the section it takes up. */
  function ContinueStep(s: State): State {
    var s0 := s.(section := Free);
    match s.section
    case Free => s
    case ClearContended(t, a, after) => Resume(SetWord(s0, a, AndNotContended(Word(s, a))), t, after)
    case SwitchUnlock(t, from, to, all) =>
      var s1 := Release(s0, t, from);
      if Contended(Word(s, from)) && At(s, from).entry.Some? then s1.(section := SwitchUnblock(t, from, to, all))
      else EndSwitch(s1, t, to)
    case SwitchUnblock(t, from, to, all) => AfterUnblock(s0, t, from, all, FinishSwitch(from, to))
    case SemTry(t, a, oldValue) => SemTryStep(s0, t, a, oldValue)
    case SemGive(t, a, oldValue) => SemGiveStep(s0, t, a, oldValue)
  }

  function WakeStep(s: State, t: Thread): State {
    match PcOf(s, t)
    case Blocked(kind, a, e, notified) =>
      if notified then Leave(s, t, Ok, a)
      else if At(s, a).entry.None? then s
      else
        var s1 := SetCell(s, a, WithQueue(At(s, a), Without(Queue(s, a), t)));
        if kind.MutexWait? && Queue(s1, a) == [] then
          SetPc(s1, t, Kernel).(section := ClearContended(t, a, Return(a, TimedOut)))
        else Leave(s1, t, TimedOut, a)
    case _ => s
  }

  function UserUnlockStep(s: State, t: Thread, m: Address): State {
    var s1 := Release(s, t, m);
    if Contended(Word(s, m)) then SetPc(s1, t, Unblocking(m)) else s1
  }

  /** Locking a free mutex without a system call: compare-and-set from 0 to LOCKED. */
  function UserLockStep(s: State, t: Thread, m: Address): State {
    var c := At(s, m);
    SetCell(s, m, c.(word := OrLocked(c.word), holders := c.holders + multiset{t}))
  }

  /** The word after sem_release gave it a unit; a negative word stands for no units. */
  function OneMore(w: int): int { w + if w < 0 then 2 else 1 }

  /** Taking and giving a unit without a system call. */
  function UserTakeStep(s: State, a: Address): State { SetWord(s, a, Word(s, a) - 1) }

  function UserGiveStep(s: State, a: Address): State { SetWord(s, a, Word(s, a) + 1) }

  /** The compare-and-set loop of sem_acquire when it has just found `value` in the word; it
      ends with a wait if that is negative. */
  function TryAgain(s: State, t: Thread, a: Address, value: int): State {
    if value > -1 then SetPc(s, t, Kernel).(section := SemTry(t, a, value))
    else if At(s, a).entry.Some? then Enqueue(s, t, SemWait, a).(section := Free)
    else s
  }

  function SemAcquireStep(s: State, t: Thread, a: Address): State {
    var s1 := GetEntry(s, a);
    TryAgain(s1, t, a, Word(s1, a))
  }

  /** One compare-and-set of that loop. From 0 it marks the semaphore contended, by -1, and
      goes on with the value it found. */
  function SemTryStep(s: State, t: Thread, a: Address, oldValue: int): State {
    var value := Word(s, a);
    if value == oldValue && value > 0 then Leave(SetWord(s, a, value - 1), t, Ok, a)
    else TryAgain(if value == oldValue then SetWord(s, a, value - 1) else s, t, a, value)
  }

  /** Hand a unit to the first waiter; the last waiter to go marks the semaphore uncontended. */
  function HandUnit(s: State, a: Address): State
    requires Queue(s, a) != []
  {
    var c := At(s, a);
    var word := if |Waiters(c)| == 1 && c.word == -1 then 0 else c.word;
    NotifyOne(SetCell(s, a, c.(word := word)), a)
  }

  /** Without waiters the word is read, and the loop of sem_release begins. */
  function SemReleaseStep(s: State, t: Thread, a: Address): State {
    var s1 := GetEntry(s, a);
    if Queue(s1, a) == [] then SetPc(s1, t, Kernel).(section := SemGive(t, a, Word(s1, a)))
    else Leave(HandUnit(s1, a), t, Ok, a)
  }

  /** One compare-and-set of that loop. */
  function SemGiveStep(s: State, t: Thread, a: Address, oldValue: int): State {
    var value := Word(s, a);
    if value == oldValue then Leave(SetWord(s, a, OneMore(value)), t, Ok, a)
    else s.(section := SemGive(t, a, value))
  }

  function Next(s: State, e: Event): State {
    match e
    case Lock(t, m) => LockStep(s, t, m)
    case Unblock(t, m, all) => UnblockStep(s, t, m, all)
    case Switch(t, from, to, all) => SwitchStep(s, t, from, to, all)
    case SemAcquire(t, a) => SemAcquireStep(s, t, a)
    case SemRelease(t, a) => SemReleaseStep(s, t, a)
    case Continue => ContinueStep(s)
    case Wake(t, expired) => WakeStep(s, t)
    case UserLock(t, m) => UserLockStep(s, t, m)
    case UserUnlock(t, m) => UserUnlockStep(s, t, m)
    case UserTake(t, a) => UserTakeStep(s, a)
    case UserGive(t, a) => UserGiveStep(s, a)
    case Poke(a, v) => SetWord(s, a, v)
  }

  /** An event in user space, which needs no table lock and changes one word. */
  predicate IsOutside(e: Event) { e.UserLock? || e.UserUnlock? || e.UserTake? || e.UserGive? || e.Poke? }

  /** Whether user space gets to do it: the compare-and-set calls go through, and only the
      owner unlocks. */
  predicate IsPossible(s: State, e: Event) {
    match e
    case UserLock(t, m) => Idle(s, t) && Word(s, m) == 0
    case UserUnlock(t, m) => Idle(s, t) && t in Holders(s, m)
    case UserTake(t, a) => Idle(s, t) && Word(s, a) > 0
    case UserGive(t, a) => Idle(s, t) && Word(s, a) > -1
    case Poke(_, _) => true
    case _ => false
  }

  /** What the rest of the process promises: `sems` are used only as semaphores,
      `mutexes` only as mutexes that are unlocked by their owner, are never unblocked
      with UNBLOCK_ALL and never DISABLED.  Every other word may be poked at will. */
  datatype Usage = Usage(mutexes: set<Address>, sems: map<Address, nat>)

  /** The promise, for what happens in user space. */
  predicate Respects(e: Event, u: Usage) {
    match e
    case UserLock(_, m) => m !in u.sems
    case UserUnlock(_, m) => m !in u.sems
    case UserTake(_, a) => a !in u.mutexes
    case UserGive(_, a) => a !in u.mutexes
    case Poke(a, _) => a !in u.mutexes && a !in u.sems
    case _ => false
  }

  predicate Idle(s: State, t: Thread) { PcOf(s, t).User? }

  ghost predicate Enabled(s: State, e: Event, u: Usage) {
    match e
    case Lock(t, m) => s.section.Free? && Idle(s, t) && m !in u.sems
    case Unblock(t, m, all) =>
      s.section.Free? && (Idle(s, t) || PcOf(s, t) == Unblocking(m)) && m !in u.sems && !(all && m in u.mutexes)
    case Switch(t, from, to, all) =>
      && s.section.Free? && Idle(s, t) && from !in u.sems && to !in u.sems
      && (from in u.mutexes ==> t in Holders(s, from) && !all)
    case SemAcquire(t, a) => s.section.Free? && Idle(s, t) && a !in u.mutexes
    case SemRelease(t, a) => s.section.Free? && Idle(s, t) && a !in u.mutexes
    case Continue => !s.section.Free?
    case Wake(t, expired) => s.section.Free? && PcOf(s, t).Blocked? && (PcOf(s, t).notified || expired)
    case _ => IsPossible(s, e) && Respects(e, u)
  }

  /** Nobody is in the kernel; mutexes are free and not disabled, semaphores at their
      initial counts. */
  ghost predicate Initial(s: State, u: Usage) {
    && s.section.Free?
    && (forall t :: Idle(s, t))
    && (forall a :: CellIn(s.cells, a) == Cell(Word(s, a), None, multiset{}))
    && (forall m :: m in u.mutexes ==> Word(s, m) == 0)
    && (forall a :: a in u.sems ==> Word(s, a) == u.sems[a])
    && (forall m :: m in u.mutexes ==> m !in u.sems)
  }

  /** states[0], states[1], ... where events[i] takes states[i] to states[i + 1] */
  ghost predicate IsRun(u: Usage, states: seq<State>, events: seq<Event>) {
    && |states| == |events| + 1
    && Initial(states[0], u)
    && (forall i :: 0 <= i < |events| ==>
          Enabled(states[i], events[i], u) && states[i + 1] == Next(states[i], events[i]))
  }

  /** What the runs cover: at any time, also while somebody is in the kernel, user space may lock a
      mutex whose word is 0, unlock one of its own, take a unit that is there, give one, and change
      any other word; and while nobody is in the kernel each call may begin and each wait may end. */
  lemma RunsCover(s: State, u: Usage, t: Thread, a: Address, b: Address, value: int, all: bool)
    requires Idle(s, t)
    ensures a !in u.sems ==>
              && (Word(s, a) == 0 ==> Enabled(s, UserLock(t, a), u))
              && (t in Holders(s, a) ==> Enabled(s, UserUnlock(t, a), u))
    ensures a !in u.mutexes ==>
              && (Word(s, a) > 0 ==> Enabled(s, UserTake(t, a), u))
              && (Word(s, a) >= 0 ==> Enabled(s, UserGive(t, a), u))
    ensures a !in u.mutexes && a !in u.sems ==> Enabled(s, Poke(a, value), u)
    ensures !s.section.Free? ==> Enabled(s, Continue, u)
    ensures s.section.Free? && a !in u.sems ==>
              && Enabled(s, Lock(t, a), u)
              && ((a in u.mutexes ==> !all) ==> Enabled(s, Unblock(t, a, all), u))
    ensures s.section.Free? && a !in u.sems && b !in u.sems && (a in u.mutexes ==> t in Holders(s, a) && !all) ==>
              Enabled(s, Switch(t, a, b, all), u)
    ensures s.section.Free? && a !in u.mutexes ==> Enabled(s, SemAcquire(t, a), u) && Enabled(s, SemRelease(t, a), u)
    ensures s.section.Free? ==>
              && (forall x :: PcOf(s, x).Blocked? ==> Enabled(s, Wake(x, true), u))
              && (forall x :: PcOf(s, x).Blocked? && PcOf(s, x).notified ==> Enabled(s, Wake(x, false), u))
              && (forall x, m :: PcOf(s, x) == Unblocking(m) && m !in u.sems ==> Enabled(s, Unblock(x, m, false), u))
  {    hide Word, Holders, PcIn;
  }

  /** Every assignment of words may be the first in which the mutexes are free and not disabled,
      and the semaphores at the counts that are asked for. */
  lemma StartsCover(u: Usage, words: map<Address, int>)
    requires forall m :: m in u.mutexes ==> m in words && words[m] == 0 && m !in u.sems
    requires forall a :: a in u.sems ==> a in words && words[a] == u.sems[a]
    ensures Initial(State(map a | a in words :: Cell(words[a], None, multiset{}), map[], Free, 0), u)
  {
  }
}
