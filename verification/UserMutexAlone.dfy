/** What each call does when nobody interferes, said about words, queues and threads. */
module UserMutexAlone {
  import opened UserMutexWord
  import opened UserMutexMachine
  import opened Collections
  import opened UserMutexTable
  import opened UserMutexEffects
  import opened UserMutexCalls

  /** The bits that no call changes. */
  ghost predicate SameUpper(w: int, v: int) { w / 4 == v / 4 }

  /** t waits for m, at the end of the queue. */
  ghost predicate WaitsLast(s: State, r: State, t: Thread, kind: Kind, m: Address) {
    && PcOf(r, t).Blocked? && PcOf(r, t).kind == kind && PcOf(r, t).address == m && !PcOf(r, t).notified
    && Queue(r, m) == Queue(s, m) + [t]
  }

  /** What getting m, or waiting for it, makes of the state. */
  ghost predicate Locks(s: State, r: State, t: Thread, m: Address) {
    var w, v := Word(s, m), Word(r, m);
    && Locked(v) && SameUpper(w, v)
    && (if Locked(w) && !Disabled(w) then
          Contended(v) && WaitsLast(s, r, t, MutexWait, m)
        else
          && (Contended(v) <==> Contended(w) || Queue(s, m) != [])
          && !PcOf(r, t).Blocked? && Queue(r, m) == Queue(s, m))
  }

  ghost predicate AllNotified(s: State, r: State, q: seq<Thread>) {
    forall x <- q :: PcOf(r, x) == Notified(PcOf(s, x))
  }

  /** What unblocking m makes of the state. */
  ghost predicate Unblocks(s: State, r: State, m: Address, all: bool) {
    var w, v, q := Word(s, m), Word(r, m), Queue(s, m);
    && SameUpper(w, v)
    && (if q == [] then
          !Contended(v) && Locked(v) == Locked(w) && Queue(r, m) == []
        else if all then
          !Contended(v) && Locked(v) == Locked(w) && Queue(r, m) == [] && AllNotified(s, r, q)
        else if Locked(w) then
          v == w && Queue(r, m) == q
        else if Disabled(w) then
          !Contended(v) && Locked(v) && Queue(r, m) == [] && AllNotified(s, r, q)
        else
          && Locked(v) && (Contended(v) <==> Contended(w) && |q| > 1)
          && Queue(r, m) == q[1..] && AllNotified(s, r, [q[0]]))
  }

  // ----- user space

  /** What happens in user space changes one word, and no queue; an unlock of a contended mutex
      goes on with an unblock. */
  lemma UserAlone(s: State, e: Event, x: Address)
    requires IsPossible(s, e)
    ensures var r := Next(s, e); var w, v := Word(s, x), Word(r, x);
            && Queue(r, x) == Queue(s, x)
            && match e
               case UserLock(t, m) => v == (if x == m then 1 else w) && (x == m ==> w == 0) && r.pcs == s.pcs
               case UserUnlock(t, m) =>
                 && t in Holders(s, m) && SameUpper(w, v) && (Locked(v) <==> x != m && Locked(w))
                 && (Contended(v) <==> Contended(w))
                 && r.pcs == if Contended(Word(s, m)) then s.pcs[t := Unblocking(m)] else s.pcs
               case UserTake(_, a) => v == w - (if x == a then 1 else 0) && (x == a ==> w > 0) && r.pcs == s.pcs
               case UserGive(_, a) => v == w + (if x == a then 1 else 0) && (x == a ==> w >= 0) && r.pcs == s.pcs
               case Poke(a, value) => v == (if x == a then value else w) && r.pcs == s.pcs
               case _ => false
  {
    match e
    case UserLock(t, m) => UserLockAlone(s, t, m, x);
    case UserUnlock(t, m) => UserUnlockAlone(s, t, m, x);
    case UserTake(_, a) => SetWordAlone(s, a, Word(s, a) - 1, x);
    case UserGive(_, a) => SetWordAlone(s, a, Word(s, a) + 1, x);
    case Poke(a, v) => SetWordAlone(s, a, v, x);
    case _ =>
    hide Queue, Word;
  }

  lemma SetWordAlone(s: State, a: Address, w: int, x: Address)
    ensures var r := SetWord(s, a, w);
            Queue(r, x) == Queue(s, x) && Word(r, x) == (if x == a then w else Word(s, x)) && r.pcs == s.pcs
  {
  }

  lemma UserLockAlone(s: State, t: Thread, m: Address, x: Address)
    requires Word(s, m) == 0
    ensures var r := UserLockStep(s, t, m);
            Queue(r, x) == Queue(s, x) && Word(r, x) == (if x == m then 1 else Word(s, x)) && r.pcs == s.pcs
  {
  }

  lemma UserUnlockAlone(s: State, t: Thread, m: Address, x: Address)
    ensures var r := UserUnlockStep(s, t, m); var w, v := Word(s, x), Word(r, x);
            && Queue(r, x) == Queue(s, x) && SameUpper(w, v) && (Locked(v) <==> x != m && Locked(w))
            && (Contended(v) <==> Contended(w))
            && r.pcs == if Contended(Word(s, m)) then s.pcs[t := Unblocking(m)] else s.pcs
  {
    hide Contended, Locked, AndNotLocked;
  }

  // ----- mutexes

  lemma LockAlone(s: State, t: Thread, m: Address)
    requires s.section.Free? && Idle(s, t)
    ensures var r := Finish(Next(s, Lock(t, m)), []);
            Locks(s, r, t, m) && (!PcOf(r, t).Blocked? ==> PcOf(r, t) == User(Ok))
  {
    hide Finish, Leave, Enqueue, Seen;
    LockFinishes(s, t, m, []);
    var s0 := SetPc(GetEntry(s, m), t, Kernel);
    var p := Prepared(s0, t, m, []).state;
    PreparedAlone(s, t, m);
    LeaveEffect(p, t, Ok, m, m);
    SameViewMeans(p, Leave(p, t, Ok, m), m);
    EnqueueEffect(p, t, MutexWait, m, m);
  }

  lemma PreparedAlone(s: State, t: Thread, m: Address)
    ensures var s0 := SetPc(GetEntry(s, m), t, Kernel); var p := Prepared(s0, t, m, []).state;
            var w, v := Word(s, m), Word(p, m);
            && p.pcs == s.pcs[t := Kernel] && Queue(p, m) == Queue(s, m) && Locked(v) && SameUpper(w, v)
            && PrepareToLock(At(GetEntry(s, m), m), t).acquired == (!Locked(w) || Disabled(w))
            && (Contended(v) <==> (Locked(w) && !Disabled(w)) || Contended(w) || Queue(s, m) != [])
            && At(p, m).entry.Some? && p.section == s.section
            && (forall x :: x != m ==> At(p, x) == At(s, x))
  {
    hide PrepareToLock, GetEntry, Locked, Contended, Disabled, OrLocked, OrContended, AndNotContended;
    var s0 := SetPc(GetEntry(s, m), t, Kernel);
    var p := PrepareToLock(At(s0, m), t);
    GetEntrySame(s, m);
    PrepareEffect(s, t, m, m);
    assert At(s0, m) == At(GetEntry(s, m), m);
    forall x | x != m ensures At(GetEntry(s, m), x) == At(s, x) {
      GetEntryEffect(s, m, x);
      assert CellIn(s.cells, x) == At(s, x);
    }
  }

  lemma {:induction false} NotifyAllNotifies(s: State, a: Address)
    requires Distinct(Queue(s, a))
    ensures var r := NotifyAll(s, a);
            && Queue(r, a) == [] && Word(r, a) == Word(s, a) && r.section == s.section
            && (forall x :: PcOf(r, x) == if x in Queue(s, a) then Notified(PcOf(s, x)) else PcOf(s, x))
    decreases |Queue(s, a)|
  {
    var q := Queue(s, a);
    if q != [] {
      var n := NotifyOne(s, a);
      assert q == [q[0]] + q[1..] && Queue(n, a) == q[1..] && Distinct(q[1..]) && q[0] !in q[1..];
      NotifyAllNotifies(n, a);
    }
  }

  /** The first atomic of an unblock, and the waiters it notifies. */
  lemma UnblockFirstAlone(s: State, m: Address, all: bool)
    requires Distinct(Queue(s, m))
    ensures var (r, clear) := UnblockFirst(s, m, all); var w, v, q := Word(s, m), Word(r, m), Queue(s, m);
            && r.section == s.section && SameUpper(w, v)
            && (forall x :: x !in q ==> PcOf(r, x) == PcOf(s, x))
            && (forall x :: PcOf(r, x).Blocked? == PcOf(s, x).Blocked?)
            && (if q == [] then !clear && !Contended(v) && Locked(v) == Locked(w) && Queue(r, m) == []
                else if all then clear && v == w && Queue(r, m) == [] && AllNotified(s, r, q)
                else if Locked(w) then !clear && v == w && Queue(r, m) == q
                else if Disabled(w) then
                  clear && Locked(v) && Queue(r, m) == [] && AllNotified(s, r, q)
                else
                  && clear == (|q| == 1) && Locked(v) && Contended(v) == Contended(w)
                  && Queue(r, m) == q[1..] && AllNotified(s, r, [q[0]]))
  {
    hide NotifyAll;
    var c := At(s, m);
    if Waiters(c) != [] && all {
      NotifyAllNotifies(s, m);
    } else if Waiters(c) != [] && !Locked(c.word) && Disabled(c.word) {
      var s1 := SetCell(s, m, c.(word := OrLocked(c.word)));
      assert Queue(s1, m) == Queue(s, m) && s1.pcs == s.pcs;
      NotifyAllNotifies(s1, m);
    }
  }

  lemma UnblockedAlone(s: State, m: Address, all: bool)
    requires Distinct(Queue(s, m))
    ensures var r := Unblocked(s, m, all, []).state;
            && Unblocks(s, r, m, all) && r.section == s.section
            && (forall x :: x !in Queue(s, m) ==> PcOf(r, x) == PcOf(s, x))
            && (forall x :: PcOf(r, x).Blocked? == PcOf(s, x).Blocked?)
  {
    hide UnblockFirst, AllNotified, Distinct;
    UnblockFirstAlone(s, m, all);
    var (s1, clear) := UnblockFirst(s, m, all);
    assert clear ==> Unblocked(s, m, all, []).state.pcs == s1.pcs;
    AllNotifiedStays(s, s1, Unblocked(s, m, all, []).state, Queue(s, m));
    if Queue(s, m) != [] {
      AllNotifiedStays(s, s1, Unblocked(s, m, all, []).state, [Queue(s, m)[0]]);
    }
  }

  lemma AllNotifiedStays(s: State, a: State, b: State, q: seq<Thread>)
    requires forall x <- q :: PcOf(b, x) == PcOf(a, x)
    ensures AllNotified(s, a, q) ==> AllNotified(s, b, q)
  {
  }

  /** Unblocking, whether m has an entry in the table or not. */
  lemma UnblockAlone(s: State, t: Thread, m: Address, all: bool)
    requires TableInv(s) && s.section.Free? && (Idle(s, t) || PcOf(s, t) == Unblocking(m))
    ensures var r := Finish(Next(s, Unblock(t, m, all)), []);
            Unblocks(s, r, m, all) && PcOf(r, t) == User(Ok)
  {
    hide Finish, Leave, Seen, Unblocked, AllNotified, Agree;
    var s0 := SetPc(s, t, Kernel);
    QueueIsDistinct(s, t, m);
    if At(s, m).entry.Some? {
      UnblockFinishes(s, t, m, all, []);
      UnblockedAlone(s0, m, all);
      var p := Unblocked(s0, m, all, []).state;
      var r := Leave(p, t, Ok, m);
      LeaveEffect(p, t, Ok, m, m);
      SameViewMeans(p, r, m);
      NotifiedAcross(s, s0, p, r, t, Queue(s, m));
      if Queue(s, m) != [] {
        NotifiedAcross(s, s0, p, r, t, [Queue(s, m)[0]]);
      }
    } else {
      FinishFree(UnblockStep(s, t, m, all), []);
    }
  }

  lemma QueueIsDistinct(s: State, t: Thread, m: Address)
    requires TableInv(s) && s.section.Free? && !PcOf(s, t).Blocked?
    ensures Distinct(Queue(s, m)) && t !in Queue(s, m) && Queue(SetPc(s, t, Kernel), m) == Queue(s, m)
  {
    assert Distinct(Waiters(CellIn(s.cells, m)));
    QueueBelongs(s, m, {});
  }

  lemma NotifiedAcross(s: State, s0: State, p: State, r: State, t: Thread, q: seq<Thread>)
    requires s0 == SetPc(s, t, Kernel) && t !in q && r.pcs == p.pcs[t := User(Ok)]
    ensures AllNotified(s0, p, q) ==> AllNotified(s, r, q)
  {
    if AllNotified(s0, p, q) {
      forall x | x in q ensures PcOf(r, x) == Notified(PcOf(s, x)) {
        assert PcOf(s0, x) == PcOf(s, x) && PcOf(r, x) == PcOf(p, x);
      }
    }
  }

  /** The end of a wait: a notified waiter leaves everything as it is; one that timed out leaves
      the queue, and WAITING goes with the last waiter of a mutex. */
  lemma WakeAlone(s: State, t: Thread)
    requires TableInv(s) && s.section.Free? && PcOf(s, t).Blocked?
    ensures var r := Finish(Next(s, Wake(t, true)), []); var Blocked(kind, a, _, notified) := PcOf(s, t);
            var w, v := Word(s, a), Word(r, a);
            if notified then PcOf(r, t) == User(Ok) && v == w && Queue(r, a) == Queue(s, a)
            else
              && PcOf(r, t) == User(TimedOut) && t in Queue(s, a) && Queue(r, a) == Without(Queue(s, a), t)
              && (if kind.MutexWait? && |Queue(s, a)| == 1 then
                    !Contended(v) && Locked(v) == Locked(w) && SameUpper(w, v)
                  else v == w)
  {
    hide Finish, Leave, Seen, Agree;
    var Blocked(kind, a, _, notified) := PcOf(s, t);
    if notified {
      LeaveEffect(s, t, Ok, a, a);
      SameViewMeans(s, Leave(s, t, Ok, a), a);
      FinishFree(Leave(s, t, Ok, a), []);
    } else {
      RemoveAgrees(s, t, Kernel);
      WaiterInQueue(s, t);
      WakeFinishes(s, t, true, []);
      var s1 := SetPc(SetCell(s, a, WithQueue(At(s, a), Without(Queue(s, a), t))), t, Kernel);
      var p := if kind.MutexWait? && Queue(s1, a) == [] then Settled(s1, a, []) else s1;
      LeaveEffect(p, t, TimedOut, a, a);
      SameViewMeans(p, Leave(p, t, TimedOut, a), a);
    }
  }

  lemma WaiterInQueue(s: State, t: Thread)
    requires TableInv(s) && s.section.Free? && PcOf(s, t).Blocked? && !PcOf(s, t).notified
    ensures var q := Queue(s, PcOf(s, t).address);
            && t in q && At(s, PcOf(s, t).address).entry.Some? && (Without(q, t) == [] <==> |q| == 1)
  {
    var a := PcOf(s, t).address;
    assert PcOf(s, t) == PcIn(s.pcs, t) && Queue(s, a) == Waiters(CellIn(s.cells, a));
    WithoutDistinct(Queue(s, a), t);
  }

  // ----- semaphores

  lemma SemAcquireAlone(s: State, t: Thread, a: Address)
    requires s.section.Free? && Idle(s, t)
    ensures var r := Finish(Next(s, SemAcquire(t, a)), []); var w := Word(s, a);
            && Word(r, a) == (if w >= 0 then w - 1 else w)
            && (if w > 0 then PcOf(r, t) == User(Ok) && Queue(r, a) == Queue(s, a)
                else WaitsLast(s, r, t, SemWait, a))
  {
    hide Finish, Leave, Enqueue, Seen, GetEntry;
    var s1, w := GetEntry(s, a), Word(s, a);
    GetEntrySame(s, a);
    var k := SetPc(s1, t, Kernel);
    if w > -1 {
      SemTryTurn(k, t, a, w, []);
      if w > 0 {
        var s2 := SetWord(k, a, w - 1);
        LeaveEffect(s2, t, Ok, a, a);
        SameViewMeans(s2, Leave(s2, t, Ok, a), a);
      } else {
        var s2 := SetWord(k, a, -1);
        assert s2.pcs[t := Kernel] == s2.pcs;
        SemTryTurn(s2, t, a, 0, []);
        WaitAlone(s, s2, t, a);
      }
    } else {
      WaitAlone(s, s1, t, a);
    }
  }

  lemma GetEntrySame(s: State, a: Address)
    ensures var r := GetEntry(s, a);
            && Word(r, a) == Word(s, a) && Queue(r, a) == Queue(s, a) && At(r, a).entry.Some?
            && r.pcs == s.pcs && r.section == s.section
  {
  }

  lemma WaitAlone(s: State, p: State, t: Thread, a: Address)
    requires At(p, a).entry.Some? && p.section.Free? && Queue(p, a) == Queue(s, a) && Word(p, a) <= -1
    ensures var r := Finish(TryAgain(p, t, a, Word(p, a)), []);
            Word(r, a) == Word(p, a) && WaitsLast(s, r, t, SemWait, a)
  {
    EnqueueEffect(p, t, SemWait, a, a);
    var r := Enqueue(p, t, SemWait, a);
    assert r.(section := Free) == r;
    FinishFree(r, []);
  }

  lemma SemReleaseAlone(s: State, t: Thread, a: Address)
    requires TableInv(s) && s.section.Free? && Idle(s, t)
    ensures var r := Finish(Next(s, SemRelease(t, a)), []); var w, q := Word(s, a), Queue(s, a);
            && PcOf(r, t) == User(Ok)
            && (if q == [] then
                  Word(r, a) == (if w < 0 then w + 2 else w + 1) && Queue(r, a) == []
                else
                  && Word(r, a) == (if |q| == 1 && w == -1 then 0 else w)
                  && Queue(r, a) == q[1..] && PcOf(r, q[0]) == Notified(PcOf(s, q[0])))
  {
    hide Finish, Leave, Seen, GetEntry, Agree;
    var s1, w, q := GetEntry(s, a), Word(s, a), Queue(s, a);
    GetEntrySame(s, a);
    QueueIsDistinct(s, t, a);
    if q == [] {
      var k := SetPc(s1, t, Kernel);
      SemGiveTurn(k, t, a, w, []);
      var s2 := SetWord(k, a, OneMore(w));
      LeaveEffect(s2, t, Ok, a, a);
      SameViewMeans(s2, Leave(s2, t, Ok, a), a);
    } else {
      var s2 := HandUnit(s1, a);
      assert t != q[0] by { assert q[0] in q; }
      assert Queue(s2, a) == q[1..] && s2.pcs == s.pcs[q[0] := Notified(PcOf(s, q[0]))];
      assert Word(s2, a) == if |q| == 1 && w == -1 then 0 else w;
      hide HandUnit;
      LeaveEffect(s2, t, Ok, a, a);
      SameViewMeans(s2, Leave(s2, t, Ok, a), a);
      FinishFree(Leave(s2, t, Ok, a), []);
    }
  }

  // ----- switch_lock

  /** switch_lock up to its unlock: `to` is locked, or t waits for it. */
  lemma PreparedSwitchAlone(s: State, t: Thread, to: Address)
    requires s.section.Free? && Idle(s, t)
    ensures var p := PreparedSwitch(s, t, to, []);
            && Locks(s, p.state, t, to) && p.rest == [] && p.state.section.Free? && !PcOf(p.state, t).User?
            && (forall x :: x != t ==> PcOf(p.state, x) == PcOf(s, x))
            && (forall x :: x != to ==> At(p.state, x) == At(s, x))
  {
    hide Prepared, Enqueue, GetEntry, PrepareToLock;
    var p := Prepared(SetPc(GetEntry(s, to), t, Kernel), t, to, []);
    PreparedAlone(s, t, to);
    PreparedRest(s, t, to);
    forall x ensures x != to ==> At(Enqueue(p.state, t, MutexWait, to), x) == At(p.state, x) {
      EnqueueEffect(p.state, t, MutexWait, to, x);
      assert At(p.state, x) == CellIn(p.state.cells, x);
    }
    EnqueueEffect(p.state, t, MutexWait, to, to);
  }

  lemma PreparedRest(s: State, t: Thread, to: Address)
    ensures Prepared(SetPc(GetEntry(s, to), t, Kernel), t, to, []).rest == []
  {
    hide PrepareToLock, GetEntry;
  }

  /** The unlock of `from`, with its unblock; what waits elsewhere does not notice. */
  lemma SwitchedAlone(s: State, t: Thread, from: Address, all: bool)
    requires s.section.Free? && Distinct(Queue(s, from))
    ensures var c, u := Switched(s, t, from, all, []).state, SetWord(s, from, AndNotLocked(Word(s, from)));
            && c.section.Free?
            && (forall x :: x !in Queue(s, from) ==> PcOf(c, x) == PcOf(s, x))
            && (forall x :: PcOf(c, x).Blocked? == PcOf(s, x).Blocked?)
            && (if Contended(Word(s, from)) && At(s, from).entry.Some? then Unblocks(u, c, from, all)
                else Word(c, from) == Word(u, from) && Queue(c, from) == Queue(s, from))
  {
    hide Unblocked, AllNotified, AndNotLocked, Contended, Locked, Disabled, PutEntry, Seen, Distinct;
    var b, u := Release(s, t, from), SetWord(s, from, AndNotLocked(Word(s, from)));
    assert b.pcs == s.pcs && Queue(b, from) == Queue(s, from) && Word(b, from) == Word(u, from) && b.section.Free?;
    if Contended(Word(s, from)) && At(b, from).entry.Some? {
      UnblockedAlone(b, from, all);
      var d := Unblocked(b, from, all, []).state;
      PutEntryEffect(d, from, from);
      SameViewMeans(d, PutEntry(d, from), from);
      UnblocksAcross(b, u, d, PutEntry(d, from), from, all);
      assert forall x :: PcOf(PutEntry(d, from), x) == PcOf(d, x) && PcOf(b, x) == PcOf(s, x);
    }
  }

  /** Only words, queues and pcs matter. */
  lemma UnblocksAcross(s: State, u: State, d: State, c: State, m: Address, all: bool)
    requires Unblocks(s, d, m, all) && u.pcs == s.pcs && Word(u, m) == Word(s, m) && Queue(u, m) == Queue(s, m)
    requires c.pcs == d.pcs && Word(c, m) == Word(d, m) && Queue(c, m) == Queue(d, m)
    ensures Unblocks(u, c, m, all)
  {
    hide Locked, Contended, Disabled;
    assert forall q :: AllNotified(s, d, q) ==> AllNotified(u, c, q);
  }

  /** The unlock of `from` and its unblock leave `to` alone. */
  lemma SwitchedElsewhere(s: State, t: Thread, from: Address, all: bool, to: Address)
    requires from != to
    ensures var c := Switched(s, t, from, all, []).state;
            Word(c, to) == Word(s, to) && Queue(c, to) == Queue(s, to)
  {
    hide UnblockFirst, PutEntry, Seen;
    var b := Release(s, t, from);
    UnblockFirstFar(b, from, all, to);
    var d := Unblocked(b, from, all, []).state;
    PutEntryEffect(d, from, to);
    SameViewMeans(d, PutEntry(d, from), to);
  }

  lemma UnblockFirstFar(s: State, m: Address, all: bool, x: Address)
    requires x != m
    ensures At(UnblockFirst(s, m, all).0, x) == At(s, x)
  {
    NotifyAllFar(s, m, x);
    NotifyAllFar(SetWord(s, m, OrLocked(Word(s, m))), m, x);
    hide NotifyAll;
  }

  lemma {:induction false} NotifyAllFar(s: State, m: Address, x: Address)
    requires x != m
    ensures At(NotifyAll(s, m), x) == At(s, x)
    decreases |Queue(s, m)|
  {
    if Queue(s, m) != [] {
      NotifyAllFar(NotifyOne(s, m), m, x);
    }
  }

  /** Switching from one mutex to another: `to` is locked or waited for, then `from` is unlocked,
      and unblocked if it was contended and somebody waits. */
  lemma SwitchAlone(s: State, t: Thread, from: Address, to: Address, all: bool)
    requires TableInv(s) && s.section.Free? && Idle(s, t) && from != to
    ensures var r := Finish(Next(s, Switch(t, from, to, all)), []);
            && Locks(s, r, t, to) && (!PcOf(r, t).Blocked? ==> PcOf(r, t) == User(Ok))
            && var u := SetWord(s, from, AndNotLocked(Word(s, from)));
               if Contended(Word(s, from)) && Queue(s, from) != [] then Unblocks(u, r, from, all)
               else Word(r, from) == Word(u, from) && Queue(r, from) == Queue(s, from)
  {
    hide Finish, PreparedSwitch, Switched, AllNotified, Agree, Contended, Locked, Disabled, AndNotLocked, EndSwitch,
         Unblocks, SwitchStep;
    SwitchFinishes(s, t, from, to, all, []);
    PreparedSwitchAlone(s, t, to);
    var a := PreparedSwitch(s, t, to, []).state;
    FromIsSound(s, t, from);
    assert Queue(a, from) == Queue(s, from) && Word(a, from) == Word(s, from) && At(a, from) == At(s, from);
    SwitchedAlone(a, t, from, all);
    SwitchedElsewhere(a, t, from, all, to);
    var c := Switched(a, t, from, all, []).state;
    EndSwitchAlone(c, t, from, to);
    SwitchedPcs(s, a, c, EndSwitch(c, t, to), t, from, all);
  }

  /** Switching from a mutex to itself: t gets m or queues for it, and then unlocks it, so that t
      may be the one that is notified. */
  lemma SwitchToItself(s: State, t: Thread, m: Address, all: bool)
    requires TableInv(s) && s.section.Free? && Idle(s, t)
    ensures var r := Finish(Next(s, Switch(t, m, m, all)), []);
            && (!PcOf(r, t).Blocked? ==> PcOf(r, t) == User(Ok))
            && exists a: State ::
                 && Locks(s, a, t, m) && (forall x :: x != t ==> PcOf(a, x) == PcOf(s, x))
                 && PcOf(r, t).Blocked? == PcOf(a, t).Blocked?
                 && var u := SetWord(a, m, AndNotLocked(Word(a, m)));
                    if Contended(Word(a, m)) then Unblocks(u, r, m, all)
                    else Word(r, m) == Word(u, m) && Queue(r, m) == Queue(a, m)
  {
    hide Finish, PreparedSwitch, Switched, AllNotified, Agree, Contended, Locked, Disabled, AndNotLocked, EndSwitch,
         Unblocks, SwitchStep, Distinct;
    SwitchFinishes(s, t, m, m, all, []);
    PreparedSwitchAlone(s, t, m);
    var a := PreparedSwitch(s, t, m, []).state;
    FromIsSound(s, t, m);
    PreparedEntry(s, t, m);
    assert t in Queue(a, m) ==> PcOf(a, t).Blocked?;
    DistinctMore(Queue(s, m), t);
    SwitchedAlone(a, t, m, all);
    var c := Switched(a, t, m, all, []).state;
    EndSwitchAlone(c, t, m, m);
    SelfPcs(a, c, EndSwitch(c, t, m), t, m, all);
  }

  lemma DistinctMore(q: seq<Thread>, t: Thread)
    requires Distinct(q) && t !in q
    ensures Distinct(q + [t])
  {
  }

  /** With an entry of its own m is unblocked whenever it is contended. */
  lemma PreparedEntry(s: State, t: Thread, m: Address)
    requires s.section.Free? && Idle(s, t)
    ensures At(PreparedSwitch(s, t, m, []).state, m).entry.Some?
  {
    hide Prepared, Enqueue, GetEntry, PrepareToLock;
    PreparedAlone(s, t, m);
    EnqueueEffect(Prepared(SetPc(GetEntry(s, m), t, Kernel), t, m, []).state, t, MutexWait, m, m);
  }

  lemma SelfPcs(a: State, c: State, r: State, t: Thread, m: Address, all: bool)
    requires PcOf(c, t).Blocked? ==> PcOf(r, t) == PcOf(c, t)
    requires t in Queue(a, m) ==> PcOf(c, t).Blocked?
    requires forall x :: x != t ==> PcOf(r, x) == PcOf(c, x)
    requires Word(r, m) == Word(c, m) && Queue(r, m) == Queue(c, m)
    ensures var u := SetWord(a, m, AndNotLocked(Word(a, m))); Unblocks(u, c, m, all) ==> Unblocks(u, r, m, all)
  {
    hide Locked, Contended, Disabled, AndNotLocked;
    var u, q := SetWord(a, m, AndNotLocked(Word(a, m))), Queue(a, m);
    assert Queue(u, m) == q;
    AllNotifiedStays(u, c, r, q);
    if q != [] {
      AllNotifiedStays(u, c, r, [q[0]]);
    }
  }

  lemma FromIsSound(s: State, t: Thread, from: Address)
    requires TableInv(s) && s.section.Free? && Idle(s, t)
    ensures Distinct(Queue(s, from)) && (At(s, from).entry.Some? ==> Queue(s, from) != []) && t !in Queue(s, from)
  {
    QueueIsDistinct(s, t, from);
    assert At(s, from) == CellIn(s.cells, from);
  }

  lemma EndSwitchAlone(s: State, t: Thread, from: Address, to: Address)
    ensures var r := EndSwitch(s, t, to);
            && Word(r, to) == Word(s, to) && Queue(r, to) == Queue(s, to)
            && Word(r, from) == Word(s, from) && Queue(r, from) == Queue(s, from)
            && (forall x :: x != t ==> PcOf(r, x) == PcOf(s, x))
            && PcOf(r, t) == if PcOf(s, t).Blocked? then PcOf(s, t) else User(Ok)
  {
    hide Seen, Leave;
    EndSwitchEffect(s, t, to, from);
    EndSwitchEffect(s, t, to, to);
    SameViewMeans(s, EndSwitch(s, t, to), from);
    SameViewMeans(s, EndSwitch(s, t, to), to);
    LeaveEffect(s, t, Ok, to, to);
  }

  /** The waiters that were notified still are when t is done. */
  lemma SwitchedPcs(s: State, a: State, c: State, r: State, t: Thread, from: Address, all: bool)
    requires t !in Queue(s, from) && Queue(a, from) == Queue(s, from) && Word(a, from) == Word(s, from)
    requires forall x :: x != t ==> PcOf(a, x) == PcOf(s, x) && PcOf(r, x) == PcOf(c, x)
    requires Word(r, from) == Word(c, from) && Queue(r, from) == Queue(c, from)
    ensures Unblocks(SetWord(a, from, AndNotLocked(Word(a, from))), c, from, all)
            ==> Unblocks(SetWord(s, from, AndNotLocked(Word(s, from))), r, from, all)
  {
    hide Locked, Contended, Disabled, AndNotLocked;
    var u, v := SetWord(a, from, AndNotLocked(Word(a, from))), SetWord(s, from, AndNotLocked(Word(s, from)));
    assert Queue(u, from) == Queue(s, from) == Queue(v, from) && Word(u, from) == Word(v, from);
    assert forall x :: PcOf(u, x) == PcOf(a, x) && PcOf(v, x) == PcOf(s, x);
    var q := Queue(s, from);
    assert AllNotified(u, c, q) ==> AllNotified(v, r, q);
    if q != [] {
      assert q[0] in q;
      assert AllNotified(u, c, [q[0]]) ==> AllNotified(v, r, [q[0]]);
    }
  }
}
