/** The messaging service: a chain of messaging areas that is one queue.

    The consumer works on the shared memory of unlocked areas at any time; it takes the oldest
    message of the first area that has one. Its steps are placed where the service waits for
    the lock of an area. */
module MessagingChain {
  import opened Collections
  import opened MessagingRing
  import opened HaikuTypes

  const MESSAGING_COMMAND_SEND_MESSAGE: int := 0

  datatype Message = Message(what: int, size: int, data: seq<int>)
  datatype Target = Target(port: int, token: int)

  // ----- the queue

  function MessageOf(c: Command): Message { Message(c.what, c.size, c.data) }

  function Messages(cmds: seq<Command>): seq<Message> {
    seq(|cmds|, i requires 0 <= i < |cmds| => MessageOf(cmds[i]))
  }

  /** The messages of a chain of rings, oldest first. */
  function Queue(rings: seq<seq<Command>>): seq<Message> {
    if rings == [] then [] else Messages(rings[0]) + Queue(rings[1..])
  }

  lemma {:induction false} QueueOfTwo(a: seq<seq<Command>>, b: seq<seq<Command>>)
    ensures Queue(a + b) == Queue(a) + Queue(b)
  {
    if a == [] {
      assert a + b == b;
    } else {
      assert (a + b)[1..] == a[1..] + b;
      QueueOfTwo(a[1..], b);
    }
  }

  lemma QueueOfOne(ring: seq<Command>)
    ensures Queue([ring]) == Messages(ring)
  {
    assert Queue([ring]) == Messages(ring) + Queue([]);
  }

  /** What happens to the newest ring happens to the end of the queue. */
  lemma QueueLast(rings: seq<seq<Command>>)
    requires rings != []
    ensures Queue(rings) == Queue(rings[..|rings| - 1]) + Messages(rings[|rings| - 1])
  {
    assert rings == rings[..|rings| - 1] + [rings[|rings| - 1]];
    QueueOfTwo(rings[..|rings| - 1], [rings[|rings| - 1]]);
    QueueOfOne(rings[|rings| - 1]);
  }

  lemma QueueAppend(rings: seq<seq<Command>>, after: seq<seq<Command>>, c: Command)
    requires rings != [] && |after| == |rings| && after[..|rings| - 1] == rings[..|rings| - 1]
    requires after[|rings| - 1] == rings[|rings| - 1] + [c]
    ensures Queue(after) == Queue(rings) + [MessageOf(c)]
  {
    QueueLast(rings);
    QueueLast(after);
    assert Messages(after[|rings| - 1]) == Messages(rings[|rings| - 1]) + [MessageOf(c)];
  }

  /** Rewriting the newest command rewrites the end of the queue. */
  lemma QueueRewrite(rings: seq<seq<Command>>, after: seq<seq<Command>>, c: Command)
    requires rings != [] && |after| == |rings| && after[..|rings| - 1] == rings[..|rings| - 1]
    requires var ring := rings[|rings| - 1]; ring != [] && after[|rings| - 1] == ring[|ring| - 1 := c]
    ensures Queue(rings) != [] && Queue(after) == Queue(rings)[..|Queue(rings)| - 1] + [MessageOf(c)]
  {
    QueueLast(rings);
    QueueLast(after);
    var ring := rings[|rings| - 1];
    assert Messages(after[|rings| - 1]) == Messages(ring)[..|ring| - 1] + [MessageOf(c)];
  }

  /** Taking from the first ring that has something takes the oldest message. */
  lemma {:induction false} QueueTake(rings: seq<seq<Command>>, k: nat)
    requires k < |rings| && rings[k] != [] && forall i :: 0 <= i < k ==> rings[i] == []
    ensures Queue(rings) != [] && Queue(rings)[0] == MessageOf(rings[k][0])
    ensures Queue(rings[k := rings[k][1..]]) == Queue(rings)[1..]
  {
    var after := rings[k := rings[k][1..]];
    if k == 0 {
      assert Messages(after[0]) == Messages(rings[0])[1..];
      assert after[1..] == rings[1..];
    } else {
      assert after[1..] == rings[1..][k - 1 := rings[k][1..]] && Messages(rings[0]) == [];
      QueueTake(rings[1..], k - 1);
    }
  }

  lemma {:induction false} QueueNone(rings: seq<seq<Command>>)
    requires forall i :: 0 <= i < |rings| ==> rings[i] == []
    ensures Queue(rings) == []
  {
    if rings != [] {
      QueueNone(rings[1..]);
    }
  }

  lemma {:induction false} QueueSize(rings: seq<seq<Command>>)
    requires rings != []
    ensures |rings[|rings| - 1]| <= |Queue(rings)|
  {
    QueueLast(rings);
  }

  /** The newest n commands of a ring, or all of them. */
  function Youngest(ring: seq<Command>, n: nat): seq<Command> { if n < |ring| then ring[|ring| - n..] else ring }

  /** Of the last ring there is left what is not older than the queue reaches back. */
  ghost predicate LastIsLeft(before: seq<seq<Command>>, after: seq<seq<Command>>) {
    && before != [] && after != [] && |Queue(after)| <= |Queue(before)|
    && after[|after| - 1] == Youngest(before[|before| - 1], |Queue(after)|)
  }

  lemma LastIsLeftSame(before: seq<seq<Command>>, after: seq<seq<Command>>)
    requires before != [] && after != [] && after[|after| - 1] == before[|before| - 1] && Queue(after) == Queue(before)
    ensures LastIsLeft(before, after)
  {
    QueueSize(after);
  }

  lemma LastIsLeftMore(a: seq<seq<Command>>, b: seq<seq<Command>>, c: seq<seq<Command>>)
    requires LastIsLeft(a, b) && LastIsLeft(b, c)
    ensures LastIsLeft(a, c)
  {
    hide Queue;
  }

  /** Taking the oldest message shortens the last ring only if all others are empty. */
  lemma LastIsLeftTake(rings: seq<seq<Command>>, k: nat)
    requires k < |rings| && rings[k] != [] && forall i :: 0 <= i < k ==> rings[i] == []
    ensures LastIsLeft(rings, rings[k := rings[k][1..]])
  {
    var after := rings[k := rings[k][1..]];
    QueueTake(rings, k);
    QueueSize(after);
    if k == |rings| - 1 {
      QueueNone(rings[..k]);
      QueueLast(rings);
    }
  }

  // ----- what is sent

  function TargetWords(targets: seq<Target>): (words: seq<int>)
    ensures |words| == 2 * |targets|
    ensures forall i :: 0 <= i < |targets| ==> words[2 * i] == targets[i].port && words[2 * i + 1] == targets[i].token
  {
    if targets == [] then [] else [targets[0].port, targets[0].token] + TargetWords(targets[1..])
  }

  function DataSize(targets: seq<Target>, messageSize: int): int { 8 + 8 * |targets| + messageSize }

  /** messaging_command_send_message, its targets and the message itself */
  function SendMessageWords(targets: seq<Target>, messageSize: int, message: seq<int>): seq<int> {
    [messageSize, |targets|] + TargetWords(targets) + message
  }

  /** What the consumer reads in the data of a message: its size, how many targets there are, port
      and token of each, and the message. */
  ghost predicate Says(data: seq<int>, targets: seq<Target>, messageSize: int, message: seq<int>) {
    && |data| == 2 + 2 * |targets| + |message| && data[0] == messageSize && data[1] == |targets|
    && (forall i :: 0 <= i < |targets| ==> data[2 + 2 * i] == targets[i].port && data[3 + 2 * i] == targets[i].token)
    && data[2 + 2 * |targets|..] == message
  }

  lemma WordsSay(targets: seq<Target>, messageSize: int, message: seq<int>)
    ensures Says(SendMessageWords(targets, messageSize, message), targets, messageSize, message)
  {
    var words := TargetWords(targets);
    hide TargetWords;
    assert SendMessageWords(targets, messageSize, message)[2..2 + |words|] == words;
  }

  lemma WordsFill(targets: seq<Target>, messageSize: int, message: seq<int>)
    requires messageSize > 0 && |message| == Align(messageSize) / 4
    ensures |SendMessageWords(targets, messageSize, message)|
              == Align(COMMAND_SIZE + DataSize(targets, messageSize)) / 4 - DATA
  {
  }

  /** The data size as it goes through an int32: right unless the sum is too large. */
  lemma DataSizeIs(total: int)
    requires total >= 0
    ensures IsInt32(ToInt32(total)) && (total <= INT32_MAX <==> ToInt32(total) == total)
    ensures ToInt32(total) > INT32_MAX - COMMAND_SIZE ==> total > INT32_MAX - COMMAND_SIZE
  {
  }

  // ----- the service

  ghost predicate Distinct(areas: seq<MessagingArea>) {
    forall i, j :: 0 <= i < j < |areas| ==> areas[i] != areas[j] && areas[i].header != areas[j].header
  }

  /** How many messages the consumer takes before the first n locks of a call, if there are as
      many. */
  function Wanted(consumer: nat -> nat, n: nat): nat {
    if n == 0 then 0 else Wanted(consumer, n - 1) + consumer(n - 1)
  }

  /** What the consumer has got after it wanted so many more of all that was sent. */
  function GotAfter(before: seq<Message>, wanted: nat, all: seq<Message>): seq<Message> {
    if |before| + wanted <= |all| then all[..|before| + wanted] else all
  }

  /** What it wants before a + b locks it wants before the first a and before the next b. */
  lemma {:induction false} WantedSplit(consumer: nat -> nat, a: nat, b: nat)
    ensures Wanted(consumer, 0) == 0 && Wanted(consumer, 1) == consumer(0)
    ensures Wanted(consumer, a + b) == Wanted(consumer, a) + Wanted((i: nat) => consumer(a + i), b)
    decreases b
  {
    if b > 0 {
      WantedSplit(consumer, a, b - 1);
      assert a + b - 1 == a + (b - 1);
    }
  }

  /** It gets the messages in the order in which they were sent, as many as it wants and there are. */
  lemma GotMeans(before: seq<Message>, wanted: nat, all: seq<Message>)
    requires |before| <= |all| && before == all[..|before|]
    ensures var got := GotAfter(before, wanted, all);
            && got == all[..|got|] && |before| <= |got| && (|got| == |before| + wanted || |got| == |all|)
            && |got| <= |before| + wanted
  {
  }

  lemma GotMore(before: seq<Message>, wanted: nat, more: nat, all: seq<Message>)
    requires |before| <= |all|
    ensures GotAfter(GotAfter(before, wanted, all), more, all) == GotAfter(before, wanted + more, all)
  {
  }

  /** How a call that locked areas ends, when `ring` is what the last of `before` holds at the end:
      the first `dropped` areas are gone; another area is used only if the ring has no room for
      the data, and that is the last one dropped, or a new one if none was dropped. */
  ghost predicate Places(ok: bool, before: seq<MessagingArea>, after: seq<MessagingArea>, ring: seq<Command>,
                         dataSize: int, dropped: nat, canCreate: bool) {
    && dropped < |before|
    && var rest := before[dropped..];
       if dataSize > INT32_MAX - COMMAND_SIZE || HasRoom(ring, COMMAND_SIZE + dataSize, AREA_SIZE) then
         ok && after == rest
       else if dropped > 0 then
         ok && after == rest + [before[dropped - 1]]
       else if canCreate then
         ok && |after| == |rest| + 1 && after[..|rest|] == rest && after[|rest|] !in before
       else
         !ok && after == rest
  }

  // ----- the system's table

  ghost function Ids(areas: seq<MessagingArea>): set<int> { set a <- areas :: a.id }

  ghost function IdOf(area: MessagingArea?): set<int> { if area == null then {} else {area.id} }

  /** Of the messaging areas exactly those of the chain are registered with the system, and
      `extra` if there is one, all under ids of their own. */
  ghost predicate IsTidy(registered: set<int>, areas: seq<MessagingArea>, extra: MessagingArea?) {
    && registered == Ids(areas) + IdOf(extra) && IdOf(extra) !! Ids(areas)
    && forall i, j :: 0 <= i < j < |areas| ==> areas[i].id != areas[j].id
  }

  /** What is registered after an area was destroyed. */
  ghost function Destroyed(registered: set<int>, area: MessagingArea?): set<int> { registered - IdOf(area) }

  lemma IdsAppend(areas: seq<MessagingArea>, area: MessagingArea)
    ensures Ids(areas + [area]) == Ids(areas) + {area.id}
  {
    assert area in areas + [area];
    assert forall a <- areas :: a in areas + [area];
  }

  /** The first area becomes the extra one, and the extra one goes. */
  lemma TidyDrop(registered: set<int>, areas: seq<MessagingArea>, extra: MessagingArea?)
    requires IsTidy(registered, areas, extra) && areas != []
    ensures IsTidy(Destroyed(registered, extra), areas[1..], areas[0])
  {
    assert areas == [areas[0]] + areas[1..];
    assert Ids(areas) == {areas[0].id} + Ids(areas[1..]) by {
      assert forall a <- areas :: a == areas[0] || a in areas[1..];
    }
    assert areas[0].id !in Ids(areas[1..]);
  }

  /** An area enters at the end: the extra one, or a new one if there is none. */
  lemma TidyAppend(registered: set<int>, areas: seq<MessagingArea>, extra: MessagingArea?, area: MessagingArea)
    requires IsTidy(registered, areas, extra) && (if extra == null then area.id !in registered else area == extra)
    ensures IsTidy(registered + {area.id}, areas + [area], null)
  {
    IdsAppend(areas, area);
    assert forall a <- areas :: a.id in Ids(areas);
  }

  lemma TidyLess(registered: set<int>, areas: seq<MessagingArea>, extra: MessagingArea?)
    requires IsTidy(registered, areas, extra)
    ensures IsTidy(Destroyed(registered, extra), areas, null)
  {
  }

  /** An empty ring has room for every size that is accepted. */
  lemma EmptyHasRoom(dataSize: int)
    requires 0 <= dataSize
    ensures dataSize <= AREA_SIZE - HEADER_SIZE - COMMAND_SIZE ==> HasRoom([], COMMAND_SIZE + dataSize, AREA_SIZE)
  {
    if dataSize <= AREA_SIZE - HEADER_SIZE - COMMAND_SIZE {
      PlaceMeansRoom([], 0, COMMAND_SIZE + dataSize, AREA_SIZE);
    }
  }

  class MessagingService {
    var firstArea: MessagingArea?
    var lastArea: MessagingArea?
    var serverTeam: int
    var signals: nat                  // units released to the counter semaphore
    ghost var areas: seq<MessagingArea>
    ghost var rings: seq<seq<Command>>
    ghost var sent: seq<Message>      // everything ever sent ...
    ghost var received: seq<Message>  // ... and what the consumer has got

    ghost function Headers(): set<array<int>>
      reads this`areas
    {
      set a <- areas :: a.header
    }

    /** The k-th area of the chain: its ring, and its link both as the service and as the
        consumer reads it. */
    ghost predicate At(k: nat)
      requires k < |areas| == |rings|
      reads this`firstArea, this`lastArea, this`areas, this`rings, this`sent, this`received
      reads areas`next, areas`commands, areas`turn, Headers()
    {
      && areas[k].Valid() && areas[k].commands == rings[k]
      && areas[k].next == (if k + 1 < |areas| then areas[k + 1] else null)
      && areas[k].NextId() == (if k + 1 < |areas| then areas[k + 1].id else -1)
    }

    /** The areas are a finite chain without a cycle. */
    ghost predicate Chained()
      reads this`firstArea, this`lastArea, this`areas, this`rings, this`sent, this`received
      reads areas`next, areas`commands, areas`turn, Headers()
    {
      && |rings| == |areas|
      && (areas == [] ==> firstArea == null && lastArea == null)
      && (areas != [] ==> firstArea == areas[0] && lastArea == areas[|areas| - 1])
      && Distinct(areas)
      && (forall k: nat :: k < |areas| ==> At(k))
    }

    /** The consumer has got the first of what was sent, and the chain holds exactly the rest, in
        order. */
    ghost predicate Valid()
      reads this`firstArea, this`lastArea, this`areas, this`rings, this`sent, this`received
      reads areas`next, areas`commands, areas`turn, Headers()
    {
      Chained() && sent == received + Queue(rings)
    }

    ghost predicate Unlocked()
      reads this`areas, areas`held
    {
      forall a <- areas :: !a.held
    }

    /** An empty area that is not in the chain. */
    ghost predicate Loose(a: MessagingArea)
      reads this`areas, a, a.header
    {
      a !in areas && a.header !in Headers() && 4 * a.header.Length == AREA_SIZE && a.Valid() && a.commands == []
          && a.next == null
    }

    constructor ()
      ensures Valid() && Unlocked() && areas == [] && sent == []
    {
      firstArea, lastArea, serverTeam, signals := null, null, -1, 0;
      areas, rings, sent, received := [], [], [], [];
    }

    /** The first area that has a command, if any. */
    method FirstFilled() returns (area: MessagingArea?, ghost k: nat)
      requires Valid()
      ensures area == null ==> Queue(rings) == []
      ensures area != null ==> k < |areas| && area == areas[k] && rings[k] != []
      ensures area != null ==> forall i :: 0 <= i < k ==> rings[i] == []
    {
      hide Queue, MessagingArea.Valid, MessagingArea.NextId;
      area, k := firstArea, 0;
      if area == null {
        QueueNone(rings);
        return;
      }
      assert At(0);
      var empty := area.IsEmpty();
      while empty && area.next != null
        invariant k < |areas| && area == areas[k] && At(k) && empty == (rings[k] == [])
        invariant forall i :: 0 <= i < k ==> rings[i] == []
        decreases |areas| - k
      {
        k := k + 1;
        area := area.next;
        assert At(k);
        empty := area.IsEmpty();
      }
      if empty {
        QueueNone(rings);
        area := null;
      }
    }

    /** The consumer takes the oldest message, if there is one. */
    method Take() returns (ghost got: seq<Message>)
      requires Valid() && Unlocked()
      modifies this`received, this`rings, areas`commands, areas`turn, Headers()
      ensures Valid() && Unlocked()
      ensures received == old(received) + got
      ensures got == if |old(received)| < |sent| then [sent[|old(received)|]] else []
      ensures areas != [] ==> LastIsLeft(old(rings), rings)
    {
      hide Queue, MessagingArea.Valid, MessagingArea.NextId, Distinct, LastIsLeft;
      got := [];
      if areas != [] {
        LastIsLeftSame(rings, rings);
      }
      var area, k := FirstFilled();
      if area != null {
        assert At(k);
        Others(k);
        QueueTake(rings, k);
        LastIsLeftTake(rings, k);
        ghost var all := Queue(rings);
        var what, size, data := area.Pop();
        got := [Message(what, size, data)];
        rings := rings[k := rings[k][1..]];
        received := received + got;
        StillChained(k);
        assert all == [all[0]] + Queue(rings);
      }
    }

    /** Only the k-th ring has changed. */
    twostate lemma StillChained(k: nat)
      requires old(Chained()) && k < |areas|
      requires areas == old(areas) && firstArea == old(firstArea) && lastArea == old(lastArea)
      requires areas[k].Valid() && rings == old(rings)[k := areas[k].commands]
      requires areas[k].next == old(areas[k].next)
      requires areas[k].NextId() == if k + 1 < |areas| then areas[k + 1].id else -1
      requires forall a: MessagingArea :: a in areas && a != areas[k] ==>
                 unchanged(a`next, a`commands, a`turn) && unchanged(a.header)
      ensures Chained()
    {
      hide MessagingArea.Valid, MessagingArea.NextId;
      forall i: nat | i < |areas| ensures At(i) {
        assert old(At(i));
      }
    }

    /** The consumer takes n messages, or all there are. */
    method TakeSome(n: nat)
      requires Valid() && Unlocked()
      modifies this`received, this`rings, areas`commands, areas`turn, Headers()
      ensures Valid() && Unlocked() && received == GotAfter(old(received), n, sent)
      ensures areas != [] ==> LastIsLeft(old(rings), rings)
    {
      hide Valid, Unlocked, LastIsLeft;
      var k := 0;
      Got();
      if areas != [] {
        LastIsLeftSelf();
      }
      while k < n
        invariant k <= n && Valid() && Unlocked() && received == GotAfter(old(received), k, sent)
        invariant areas != [] ==> LastIsLeft(old(rings), rings)
      {
        ghost var before := rings;
        var _ := Take();
        if areas != [] {
          LastIsLeftMore(old(rings), before, rings);
        }
        k := k + 1;
      }
    }

    lemma LastIsLeftSelf()
      requires Valid() && areas != []
      ensures LastIsLeft(rings, rings)
    {
      LastIsLeftSame(rings, rings);
    }

    lemma Got()
      requires Valid()
      ensures |received| <= |sent| && received == sent[..|received|]
      ensures received == GotAfter(received, 0, sent)
    {
    }

    /** The k-th area shares nothing with the others. */
    lemma Others(k: nat)
      requires Chained() && k < |areas|
      ensures forall i :: 0 <= i < |areas| && i != k ==> areas[i] != areas[k] && areas[i].header != areas[k].header
    {
      hide At;
    }

    lemma FirstArea()
      requires Valid() && areas != []
      ensures |rings| == |areas| && At(0) && 4 * areas[0].header.Length == AREA_SIZE
    {
      assert At(0);
    }

    /** Take the locked, empty first area out of the chain. */
    method DiscardFirst(area: MessagingArea)
      requires Valid() && |areas| > 1 && area == areas[0] && rings[0] == [] && area.held
      modifies this`firstArea, this`areas, this`rings, area`next, area.header
      ensures Valid() && areas == old(areas)[1..] && rings == old(rings)[1..] && Loose(area)
    {
      hide MessagingArea.Valid, MessagingArea.NextId, Queue;
      FirstArea();
      firstArea := area.next;
      area.SetNextArea(null);
      QueueSkip(rings);
      areas, rings := areas[1..], rings[1..];
      forall i: nat | i < |areas| ensures At(i) {
        assert old(At(i + 1));
      }
    }

    /** Lock the first area, and drop it if it is empty. */
    method DropIfEmpty(take: nat) returns (dropped: MessagingArea?)
      requires Valid() && Unlocked() && |areas| > 1
      modifies this`firstArea, this`areas, this`rings, this`received, areas, Headers()
      ensures Valid() && Unlocked() && received == GotAfter(old(received), take, sent)
      ensures LastIsLeft(old(rings), rings)
      ensures dropped == null ==> areas == old(areas) && |rings| > 0 && rings[0] != []
      ensures dropped != null ==> dropped == old(areas)[0] && areas == old(areas)[1..]
      ensures dropped != null ==> Loose(dropped) && dropped.header in old(Headers())
      ensures Headers() <= old(Headers())
    {
      hide MessagingArea.Valid, MessagingArea.NextId, Queue, At, LastIsLeft;
      dropped := null;
      TakeSome(take);
      var area := firstArea;
      var empty := LockFirst(area);
      if !empty {
        area.Unlock();
      } else {
        ghost var before := rings;
        DiscardFirst(area);
        dropped := area;
        QueueSkip(before);
        LastIsLeftSame(before, rings);
        LastIsLeftMore(old(rings), before, rings);
      }
    }

    lemma Ends()
      requires Valid() && areas != []
      ensures firstArea == areas[0] && lastArea == areas[|areas| - 1] && |rings| == |areas|
      ensures firstArea == lastArea <==> |areas| == 1
    {
    }

    /** What holds while empty areas are dropped: `all` were the areas, with their headers, and
        the first `dropped` of them are gone; the last one gone is `discarded`. */
    ghost predicate Dropping(all: seq<MessagingArea>, headers: set<array<int>>, discarded: MessagingArea?, dropped: nat)
      reads this`areas
      reads if discarded == null then {} else {discarded, discarded.header}
    {
      && dropped < |all| && areas == all[dropped..] && Headers() <= headers
      && (discarded == null <==> dropped == 0)
      && (discarded != null ==>
            Loose(discarded) && dropped > 0 && discarded == all[dropped - 1] && discarded.header in headers)
    }

    /** The service drops empty areas from the front, up to the last area; the last one dropped
        can be reused. Before its n-th lock the consumer takes as many messages as `consumer`
        says, and nothing else leaves the queue. */
    method DropEmptyAreas(consumer: nat -> nat, ghost registered: set<int>)
        returns (discarded: MessagingArea?, locks: nat, ghost dropped: nat, ghost left: set<int>)
      requires Valid() && Unlocked() && areas != [] && IsTidy(registered, areas, null)
      modifies this`firstArea, this`areas, this`rings, this`received, areas, Headers()
      ensures Valid() && Unlocked() && IsTidy(left, areas, discarded) && left <= registered
      ensures received == GotAfter(old(received), Wanted(consumer, locks), sent) && LastIsLeft(old(rings), rings)
      ensures locks == dropped + if |areas| > 1 then 1 else 0
      ensures Dropping(old(areas), old(Headers()), discarded, dropped)
      ensures |areas| > 1 ==> |rings| > 0 && rings[0] != []
    {
      hide MessagingArea.Valid, MessagingArea.NextId, Queue, At, Valid, Unlocked, Headers, Dropping, GotAfter,
           IsTidy, LastIsLeft;
      discarded, locks, dropped, left := null, 0, 0, registered;
      var done := false;
      ghost var all, headers := areas, Headers();
      NothingDropped();
      Ends();
      Got();
      LastIsLeftSelf();
      while firstArea != lastArea && !done
        invariant Valid() && Unlocked() && areas != [] && |areas| <= |all|
        invariant received == GotAfter(old(received), Wanted(consumer, locks), sent) && LastIsLeft(old(rings), rings)
        invariant locks == dropped + (if done then 1 else 0) && (done ==> |areas| > 1)
        invariant Dropping(all, headers, discarded, dropped)
        invariant IsTidy(left, areas, discarded) && left <= registered
        invariant firstArea == lastArea <==> |areas| == 1
        invariant done ==> |rings| > 0 && rings[0] != []
        decreases |areas|, !done
      {
        RestIsOld(all, headers, discarded, dropped);
        GotMore(old(received), Wanted(consumer, locks), consumer(locks), sent);
        TidyDrop(left, areas, discarded);
        ghost var before := rings;
        var first := DropNext(consumer(locks), all, headers, discarded, dropped);
        LastIsLeftMore(old(rings), before, rings);
        locks := locks + 1;
        done := first == null;
        if !done {
          left := Destroyed(left, discarded);
          discarded, dropped := first, dropped + 1;
        }
        Ends();
      }
    }

    lemma NothingDropped()
      requires areas != []
      ensures Dropping(areas, Headers(), null, 0)
    {
    }

    lemma RestIsOld(all: seq<MessagingArea>, headers: set<array<int>>, discarded: MessagingArea?, dropped: nat)
      requires Dropping(all, headers, discarded, dropped)
      ensures Headers() <= headers && dropped < |all| && areas == all[dropped..]
    {
    }

    /** One turn of the loop. */
    method DropNext(take: nat, ghost all: seq<MessagingArea>, ghost headers: set<array<int>>,
                    ghost discarded: MessagingArea?, ghost dropped: nat)
        returns (first: MessagingArea?)
      requires Valid() && Unlocked() && |areas| > 1 && Dropping(all, headers, discarded, dropped)
      modifies this`firstArea, this`areas, this`rings, this`received, areas, Headers()
      ensures Valid() && Unlocked() && areas != []
      ensures received == GotAfter(old(received), take, sent) && LastIsLeft(old(rings), rings)
      ensures first == null ==>
                areas == old(areas) && |rings| > 0 && rings[0] != [] && Dropping(all, headers, discarded, dropped)
      ensures first != null ==>
                first == old(areas)[0] && areas == old(areas)[1..] && Dropping(all, headers, first, dropped + 1)
    {
      hide MessagingArea.Valid, MessagingArea.NextId, Queue, At, Unlocked;
      first := DropIfEmpty(take);
    }

    method LockFirst(area: MessagingArea) returns (empty: bool)
      requires Valid() && areas != [] && area == areas[0] && !area.held
      modifies area`held
      ensures area.held && empty == (rings[0] == [])
    {
      assert At(0);
      area.Lock();
      empty := area.IsEmpty();
    }

    /** The newest command of the chain. */
    ghost function Newest(): Command
      requires rings != [] && rings[|rings| - 1] != []
      reads this`rings
    {
      rings[|rings| - 1][|rings[|rings| - 1]| - 1]
    }

    /** Allocate in the last area: the message enters the queue, with whatever the memory holds
        as its data. A size that wraps around damages the area instead. */
    method AllocateInLast(what: int, size: int) returns (data: int, wasEmpty: bool)
      requires Valid() && areas != [] && lastArea.held && IsInt32(size) && CheckCommandSize(size)
      modifies this`rings, this`sent, lastArea`commands, lastArea`turn, lastArea.header
      ensures size > INT32_MAX - COMMAND_SIZE ==> data > 0 && lastArea.Damaged() && sent == old(sent)
      ensures size <= INT32_MAX - COMMAND_SIZE ==> Valid()
      ensures size <= INT32_MAX - COMMAND_SIZE ==>
                (data == -1 <==> !HasRoom(old(rings)[|areas| - 1], COMMAND_SIZE + size, AREA_SIZE))
      ensures data == -1 ==> sent == old(sent) && rings == old(rings)
      ensures data != -1 && size <= INT32_MAX - COMMAND_SIZE ==>
                && |rings| == |areas| && rings[|rings| - 1] != []
                && data == Newest().offset / 4 + DATA && Newest().what == what && Newest().size == COMMAND_SIZE + size
                && sent == old(sent) + [MessageOf(Newest())] && wasEmpty == (|rings[|rings| - 1]| == 1)
    {
      hide MessagingArea.Valid, MessagingArea.NextId, MessagingArea.Damaged, Queue, PlaceFor, ToInt32, CheckCommandSize,
           Distinct;
      CheckCommandSizeMeans(size);
      CommandSizeIs(size);
      ghost var last := |areas| - 1;
      assert At(last);
      Others(last);
      LastRoom(COMMAND_SIZE + size);
      data, wasEmpty := lastArea.AllocateCommand(what, size);
      if size > INT32_MAX - COMMAND_SIZE {
        return;
      }
      if data != -1 {
        ghost var now := rings[last := lastArea.commands];
        ghost var c := now[last][|rings[last]|];
        assert now[last] == rings[last] + [c];
        QueueAppend(rings, now, c);
        assert sent + [MessageOf(c)] == received + (Queue(rings) + [MessageOf(c)]);
        rings := now;
        sent := sent + [MessageOf(Newest())];
      }
      forall i: nat | i < |areas| ensures At(i) {
        assert old(At(i));
      }
    }

    lemma LastRoom(size: int)
      requires Valid() && areas != []
      ensures |rings| == |areas|
      ensures COMMAND_SIZE <= size <= AREA_SIZE - HEADER_SIZE ==>
                (PlaceFor(rings[|areas| - 1], size, AREA_SIZE) != -1
                 <==> HasRoom(rings[|areas| - 1], size, AREA_SIZE))
    {
      var last := |areas| - 1;
      assert At(last);
      if COMMAND_SIZE <= size <= AREA_SIZE - HEADER_SIZE {
        PlaceMeansRoom(rings[last], areas[last].turn, size, AREA_SIZE);
      }
    }

    /** Append an empty area to the chain; the area that was last is released. */
    method AddArea(area: MessagingArea)
      requires Valid() && areas != [] && lastArea.held && Loose(area) && area.NextId() == -1
      modifies this`areas, this`rings, this`lastArea, lastArea`next, lastArea`held, lastArea.header
      ensures Valid() && areas == old(areas) + [area] && rings == old(rings) + [[]]
      ensures !old(lastArea).held
    {
      hide MessagingArea.Valid, MessagingArea.NextId, Queue, Distinct, Headers;
      ghost var last := |areas| - 1;
      assert At(last);
      AddedIsDistinct(area);
      lastArea.SetNextArea(area);
      lastArea.Unlock();
      lastArea := area;
      QueueAddRing(rings);
      areas, rings := areas + [area], rings + [[]];
      OneAdded(area);
    }

    /** The chain is longer by one area, which the area that was last is linked to. */
    twostate lemma OneAdded(new area: MessagingArea)
      requires old(Chained()) && old(areas) != [] && areas == old(areas) + [area] && rings == old(rings) + [[]]
      requires firstArea == old(firstArea) && lastArea == area && Distinct(areas)
      requires area.Valid() && area.commands == [] && area.next == null && area.NextId() == -1
      requires var last := areas[|areas| - 2];
               && last.Valid() && last.commands == old(last.commands) && last.next == area && last.NextId() == area.id
      requires forall a: MessagingArea :: a in old(areas) && a != areas[|areas| - 2] ==>
                 unchanged(a`next, a`commands, a`turn) && unchanged(a.header)
      ensures Chained()
    {
      hide MessagingArea.Valid, MessagingArea.NextId;
      forall i: nat | i < |areas| ensures At(i) {
        if i < |areas| - 1 {
          assert old(At(i));
        }
      }
    }

    lemma AddedIsDistinct(area: MessagingArea)
      requires Chained() && areas != [] && Loose(area)
      ensures Distinct(areas + [area]) && lastArea != area && lastArea.header != area.header
      ensures forall i :: 0 <= i < |areas| - 1 ==> areas[i] != lastArea && areas[i].header != lastArea.header
    {
      hide At;
      forall i | 0 <= i < |areas| ensures areas[i] != area && areas[i].header != area.header {
        assert areas[i] in areas && areas[i].header in Headers();
      }
    }

    /** The last area is locked by the service, the others are not. */
    ghost predicate LastLocked()
      requires areas != []
      reads this`areas, areas`held
    {
      areas[|areas| - 1].held && forall i :: 0 <= i < |areas| - 1 ==> !areas[i].held
    }

    /** The newest command is the one just allocated at word `data`. */
    ghost predicate Allocated(what: int, size: int, data: int, wasEmpty: bool, before: seq<Message>)
      reads this
    {
      && areas != [] && |rings| == |areas| && rings[|rings| - 1] != []
      && data == Newest().offset / 4 + DATA && Newest().what == what && Newest().size == COMMAND_SIZE + size
      && sent == before + [MessageOf(Newest())] && wasEmpty == (|rings[|rings| - 1]| == 1)
    }

    /** Make room at the end of the chain: reuse the discarded area or create one. */
    method Extend(discarded: MessagingArea?, newId: int, canCreate: bool, ghost registered: set<int>)
        returns (ok: bool, ghost now: set<int>)
      requires IsTidy(registered, areas, discarded) && newId !in registered
      requires Valid() && areas != [] && LastLocked() && (discarded != null ==> Loose(discarded))
      modifies this`areas, this`rings, this`lastArea, areas, Headers()
      modifies if discarded == null then {} else {discarded, discarded.header}
      ensures Valid() && ok == (discarded != null || canCreate) && IsTidy(now, areas, null)
      ensures !ok ==> areas == old(areas) && rings == old(rings) && Unlocked()
      ensures ok ==>
                LastLocked() && rings == old(rings) + [[]] && |areas| == |rings| && areas[..|areas| - 1] == old(areas)
      ensures ok && discarded == null ==> fresh(lastArea) && fresh(lastArea.header)
      ensures ok && discarded != null ==> lastArea == discarded
    {
      hide MessagingArea.Valid, MessagingArea.NextId, Queue, At, IsTidy;
      var area := discarded;
      if area != null {
        area.InitHeader();
      } else if canCreate {
        area := new MessagingArea(newId);
      }
      ok, now := area != null, registered;
      if ok {
        TidyAppend(registered, areas, discarded, area);
        now := registered + {area.id};
        AddArea(area);
      } else {
        lastArea.Unlock();
      }
    }

    /** Allocate in the last area, or else in one appended to the chain. */
    method AllocateAtEnd(what: int, size: int, discarded: MessagingArea?, newId: int, canCreate: bool,
                         ghost frame: set<object>, ghost registered: set<int>)
        returns (ok: bool, data: int, wasEmpty: bool, ghost now: set<int>)
      requires forall a <- areas :: a in frame && a.header in frame
      requires discarded != null ==> discarded in frame && discarded.header in frame
      requires Valid() && areas != [] && LastLocked() && (discarded != null ==> Loose(discarded))
      requires IsInt32(size) && CheckCommandSize(size)
      requires IsTidy(registered, areas, discarded) && newId !in registered
      modifies this`areas, this`rings, this`lastArea, this`sent, frame
      ensures IsTidy(now, areas, null)
      ensures ok || (discarded == null && !canCreate)
      ensures size > INT32_MAX - COMMAND_SIZE ==> ok && data > 0 && lastArea != null && lastArea.Damaged()
      ensures size <= INT32_MAX - COMMAND_SIZE ==> Valid()
      ensures ok && size <= INT32_MAX - COMMAND_SIZE ==>
                Allocated(what, size, data, wasEmpty, old(sent)) && LastLocked()
      ensures !ok ==> sent == old(sent) && Unlocked()
      ensures |old(rings)| == |old(areas)|
      ensures if size > INT32_MAX - COMMAND_SIZE
                 || HasRoom(old(rings)[|old(areas)| - 1], COMMAND_SIZE + size, AREA_SIZE) then
                ok && areas == old(areas)
              else if discarded != null then ok && areas == old(areas) + [discarded]
              else if canCreate then
                && ok && |areas| == |old(areas)| + 1 && areas[..|old(areas)|] == old(areas)
                && fresh(areas[|old(areas)|])
              else !ok && areas == old(areas)
      ensures forall a <- areas :: a in old(areas) || a == discarded || (fresh(a) && fresh(a.header))
    {
      hide MessagingArea.Valid, MessagingArea.NextId, MessagingArea.Damaged, Queue, At, CheckCommandSize, HasRoom,
           IsTidy;
      CheckCommandSizeMeans(size);
      EmptyHasRoom(size);
      Ends();
      data, wasEmpty := AllocateInLast(what, size);
      ok := true;
      if data == -1 {
        ok, now := Extend(discarded, newId, canCreate, registered);
        if ok {
          data, wasEmpty := AllocateInLast(what, size);
        }
      } else {
        TidyLess(registered, areas, discarded);
        now := Destroyed(registered, discarded);
      }
    }

    method LockLast(take: nat)
      requires Valid() && Unlocked() && areas != []
      modifies this`received, this`rings, areas, Headers()
      ensures Valid() && LastLocked() && received == GotAfter(old(received), take, sent)
      ensures LastIsLeft(old(rings), rings)
    {
      hide MessagingArea.Valid, MessagingArea.NextId, Queue, At;
      TakeSome(take);
      lastArea.Lock();
    }

    /** MessagingService::_AllocateCommand. It locks areas `locks` times, the first `dropped` of
        them leave the chain, and `ring` is what the last one holds when it is locked. */
    method AllocateCommand(what: int, size: int, consumer: nat -> nat, newId: int, canCreate: bool,
                           ghost registered: set<int>)
        returns (status: int, data: int, wasEmpty: bool, ghost locks: nat, ghost dropped: nat, ghost now: set<int>)
      requires Valid() && Unlocked() && IsInt32(size) && IsTidy(registered, areas, null) && newId !in registered
      modifies this`firstArea, this`lastArea, this`areas, this`rings, this`received, this`sent, areas, Headers()
      ensures received == GotAfter(old(received), Wanted(consumer, locks), old(sent))
      ensures status == B_OK && size > INT32_MAX - COMMAND_SIZE ==> data > 0 && lastArea != null && lastArea.Damaged()
      ensures status != B_OK || size <= INT32_MAX - COMMAND_SIZE ==> Valid()
      ensures status == B_OK && size <= INT32_MAX - COMMAND_SIZE ==>
                Allocated(what, size, data, wasEmpty, old(sent)) && LastLocked()
      ensures status != B_OK ==> sent == old(sent) && Unlocked()
      ensures IsTidy(now, areas, null)
      ensures if old(areas) == [] then status == B_NO_INIT && locks == 0 && areas == old(areas)
              else if !CheckCommandSize(size) then status == B_BAD_VALUE && locks == 0 && areas == old(areas)
              else
                && status in {B_OK, B_NO_MEMORY} && |old(rings)| == |old(areas)| && |received| <= |old(sent)|
                && Places(status == B_OK, old(areas), areas,
                          Youngest(old(rings)[|old(areas)| - 1], |old(sent)| - |received|), size, dropped, canCreate)
                && locks == dropped + if |old(areas)| - dropped > 1 then 2 else 1
      ensures forall a <- areas :: a in old(areas) || (fresh(a) && fresh(a.header))
    {
      hide MessagingArea.Valid, MessagingArea.NextId, MessagingArea.Damaged, Queue, At, CheckCommandSize;
      hide GotAfter;
      data, wasEmpty, locks, dropped, now := -1, false, 0, 0, registered;
      Got();
      if firstArea == null {
        return B_NO_INIT, data, wasEmpty, locks, dropped, now;
      }
      if !CheckCommandSize(size) {
        return B_BAD_VALUE, data, wasEmpty, locks, dropped, now;
      }
      status, data, wasEmpty, locks, dropped, now :=
        AllocateChecked(what, size, consumer, newId, canCreate, registered);
    }

    /** Drop empty areas and allocate at the end, when the service runs and the size is accepted. */
    method AllocateChecked(what: int, size: int, consumer: nat -> nat, newId: int, canCreate: bool,
                           ghost registered: set<int>)
        returns (status: int, data: int, wasEmpty: bool, ghost locks: nat, ghost dropped: nat, ghost now: set<int>)
      requires Valid() && Unlocked() && IsInt32(size) && areas != [] && CheckCommandSize(size)
      requires IsTidy(registered, areas, null) && newId !in registered
      modifies this`firstArea, this`lastArea, this`areas, this`rings, this`received, this`sent, areas, Headers()
      ensures received == GotAfter(old(received), Wanted(consumer, locks), old(sent))
      ensures status == B_OK && size > INT32_MAX - COMMAND_SIZE ==> data > 0 && lastArea != null && lastArea.Damaged()
      ensures status != B_OK || size <= INT32_MAX - COMMAND_SIZE ==> Valid()
      ensures status == B_OK && size <= INT32_MAX - COMMAND_SIZE ==>
                Allocated(what, size, data, wasEmpty, old(sent)) && LastLocked()
      ensures status != B_OK ==> sent == old(sent) && Unlocked()
      ensures IsTidy(now, areas, null) && status in {B_OK, B_NO_MEMORY}
      ensures |old(rings)| == |old(areas)| && |received| <= |old(sent)|
      ensures Places(status == B_OK, old(areas), areas,
                     Youngest(old(rings)[|old(areas)| - 1], |old(sent)| - |received|), size, dropped, canCreate)
      ensures locks == dropped + if |old(areas)| - dropped > 1 then 2 else 1
      ensures forall a <- areas :: a in old(areas) || (fresh(a) && fresh(a.header))
    {
      hide GotAfter, LastIsLeft, HasRoom, Youngest, Valid, Unlocked, LastLocked, Allocated, MessagingArea.Valid,
           MessagingArea.NextId, MessagingArea.Damaged, CheckCommandSize, IsTidy;
      Ends();
      ghost var frame := Frame();
      var discarded;
      ghost var left;
      discarded, locks, dropped, left := Prepare(consumer, registered);
      var ok;
      RingIsLeft(old(rings), discarded);
      ok, data, wasEmpty, now := AllocateAtEnd(what, size, discarded, newId, canCreate, frame, left);
      status := if ok then B_OK else B_NO_MEMORY;
    }

    /** What the last area holds after the consumer's last steps. */
    lemma RingIsLeft(before: seq<seq<Command>>, discarded: MessagingArea?)
      requires Valid() && areas != [] && LastIsLeft(before, rings)
      ensures |rings| == |areas| && |received| <= |sent|
      ensures rings[|areas| - 1] == Youngest(before[|before| - 1], |sent| - |received|)
      ensures discarded != null && Loose(discarded) ==> discarded !in areas
    {
      hide Queue;
      assert |Queue(rings)| == |sent| - |received|;
      assert |rings| == |areas|;
    }

    /** The areas with their memory. */
    ghost function Frame(): (frame: set<object>)
      reads this`areas
      ensures forall a <- areas :: a in frame && a.header in frame
    {
      var cells: set<object> := set a <- areas :: a;
      var memory: set<object> := Headers();
      assert forall a <- areas :: a.header in Headers();
      cells + memory
    }

    /** Drop the empty areas and lock the last one. */
    method Prepare(consumer: nat -> nat, ghost registered: set<int>)
        returns (discarded: MessagingArea?, ghost locks: nat, ghost dropped: nat, ghost left: set<int>)
      requires Valid() && Unlocked() && areas != [] && IsTidy(registered, areas, null)
      modifies this`firstArea, this`areas, this`rings, this`received, areas, Headers()
      ensures dropped < |old(areas)| && areas == old(areas)[dropped..] && forall a <- areas :: a in old(areas)
      ensures Valid() && LastLocked() && locks == dropped + if |areas| > 1 then 2 else 1
      ensures IsTidy(left, areas, discarded) && left <= registered
      ensures received == GotAfter(old(received), Wanted(consumer, locks), sent)
      ensures |rings| == |areas| && LastIsLeft(old(rings), rings)
      ensures if dropped == 0 then discarded == null
              else discarded != null && discarded == old(areas)[dropped - 1] && Loose(discarded)
    {
      hide MessagingArea.Valid, MessagingArea.NextId, Queue, At, Valid, Unlocked, LastLocked, Headers, GotAfter,
           IsTidy, LastIsLeft;
      Got();
      var turns;
      ghost var headers := Headers();
      discarded, turns, dropped, left := DropEmptyAreas(consumer, registered);
      RestIsOld(old(areas), headers, discarded, dropped);
      GotMore(old(received), Wanted(consumer, turns), consumer(turns), sent);
      ghost var before := rings;
      LockLast(consumer(turns));
      LastIsLeftMore(old(rings), before, rings);
      Ends();
      locks := turns + 1;
    }

    /** The newest command has room for its data and has not been taken. */
    lemma NewestPending()
      requires Valid() && areas != [] && |rings| == |areas| && rings[|rings| - 1] != []
      ensures |Newest().data| == Align(Newest().size) / 4 - DATA && |received| < |sent|
      ensures HEADER_SIZE <= Newest().offset && Newest().offset % 4 == 0 && Newest().offset + Newest().size <= AREA_SIZE
    {
      var last := |areas| - 1;
      assert At(last) && Fits(Newest(), AREA_SIZE);
      QueueLast(rings);
      assert Messages(rings[last]) != [];
    }

    /** Fill in the message that was just allocated, and release the last area. */
    method FinishMessage(data: int, words: seq<int>)
      requires Valid() && areas != [] && LastLocked() && |rings| == |areas| && rings[|rings| - 1] != []
      requires data == Newest().offset / 4 + DATA && |words| == |Newest().data|
      requires sent != [] && sent[|sent| - 1] == MessageOf(Newest()) && |received| < |sent|
      modifies this`rings, this`sent, lastArea`commands, lastArea`held, lastArea.header
      ensures Valid() && Unlocked()
      ensures sent == old(sent)[..|old(sent)| - 1] + [MessageOf(old(Newest())).(data := words)]
      ensures |rings| == |old(rings)| && |rings[|rings| - 1]| == |old(rings)[|old(rings)| - 1]|
    {
      hide MessagingArea.Valid, MessagingArea.NextId, Queue, Distinct;
      ghost var last, ring, c := |areas| - 1, rings[|rings| - 1], Newest().(data := words);
      assert At(last);
      Others(last);
      lastArea.WriteData(data, words);
      lastArea.Unlock();
      ghost var now := rings[last := ring[|ring| - 1 := c]];
      assert lastArea.commands == now[last];
      QueueRewrite(rings, now, c);
      ghost var all := sent[..|sent| - 1] + [MessageOf(c)];
      assert all == received + (Queue(rings)[..|Queue(rings)| - 1] + [MessageOf(c)]);
      rings, sent := now, all;
      StillChained(last);
    }

    /** MessagingService::SendMessage. The size of all the data goes through an int32; if that or
        the size of the command wraps around and is accepted, the copy `overruns` the area, and
        what happens then is not modelled. */
    method SendMessage(message: seq<int>, messageSize: int, targets: seq<Target>, consumer: nat -> nat, newId: int,
                       canCreate: bool, ghost registered: set<int>)
        returns (status: int, overruns: bool, ghost locks: nat, ghost dropped: nat, ghost now: set<int>)
      requires Valid() && Unlocked() && IsInt32(messageSize) && IsTidy(registered, areas, null) && newId !in registered
      requires messageSize > 0 ==> |message| == Align(messageSize) / 4
      modifies this, areas, Headers()
      ensures var total := 8 + 8 * |targets| + messageSize;
              && overruns == (status == B_OK && total > INT32_MAX - COMMAND_SIZE)
              && if messageSize <= 0 || targets == [] then status == B_BAD_VALUE && locks == 0 && areas == old(areas)
                 else if old(areas) == [] then status == B_NO_INIT && locks == 0 && areas == old(areas)
                 else if !CheckCommandSize(ToInt32(total)) then
                   status == B_BAD_VALUE && locks == 0 && areas == old(areas)
                 else
                   && status in {B_OK, B_NO_MEMORY} && |old(rings)| == |old(areas)| && |received| <= |old(sent)|
                   && Places(status == B_OK, old(areas), areas,
                             Youngest(old(rings)[|old(areas)| - 1], |old(sent)| - |received|), ToInt32(total), dropped,
                             canCreate)
                   && locks == dropped + if |old(areas)| - dropped > 1 then 2 else 1
      ensures received == GotAfter(old(received), Wanted(consumer, locks), old(sent))
      ensures !overruns ==> Valid() && Unlocked()
      ensures IsTidy(now, areas, null)
      ensures status != B_OK ==> sent == old(sent) && signals == old(signals)
      ensures status == B_OK && !overruns ==>
                && |sent| == |old(sent)| + 1 && sent[..|old(sent)|] == old(sent)
                && var m := sent[|old(sent)|];
                && m.what == MESSAGING_COMMAND_SEND_MESSAGE && m.size == COMMAND_SIZE + 8 + 8 * |targets| + messageSize
                && Says(m.data, targets, messageSize, message)
                && |rings| == |areas| && areas != []
                && signals == old(signals) + if |rings[|rings| - 1]| == 1 then 1 else 0
      ensures forall a <- areas :: a in old(areas) || (fresh(a) && fresh(a.header))
    {
      hide GotAfter, Valid, Unlocked, LastLocked, Allocated, MessagingArea.Damaged, CheckCommandSize, ToInt32, IsTidy,
           Places, Youngest, Says;
      overruns, locks, dropped, now := false, 0, 0, registered;
      Got();
      if messageSize <= 0 || targets == [] {
        return B_BAD_VALUE, overruns, locks, dropped, now;
      }
      var total := DataSize(targets, messageSize);
      var dataSize := ToInt32(total);
      DataSizeIs(total);
      var data, wasEmpty;
      status, data, wasEmpty, locks, dropped, now :=
        AllocateCommand(MESSAGING_COMMAND_SEND_MESSAGE, dataSize, consumer, newId, canCreate, registered);
      if status == B_OK {
        if dataSize <= INT32_MAX - COMMAND_SIZE {
          AllocatedFits(MESSAGING_COMMAND_SEND_MESSAGE, dataSize, data, wasEmpty, old(sent));
        }
        if 4 * data + total > AREA_SIZE {
          overruns := true;
          return;
        }
        assert lastArea in areas;
        WordsSay(targets, messageSize, message);
        SendAllocated(targets, messageSize, message, data, wasEmpty, old(sent));
      }
    }

    /** What was allocated lies inside the area. */
    lemma AllocatedFits(what: int, size: int, data: int, wasEmpty: bool, before: seq<Message>)
      requires Valid() && Allocated(what, size, data, wasEmpty, before)
      ensures 0 <= data && 4 * data + size <= AREA_SIZE
      ensures areas != [] && lastArea == areas[|areas| - 1]
    {
      NewestPending();
    }

    /** Copy the message into the command allocated for it, and tell the consumer if its area
        was empty. */
    method SendAllocated(targets: seq<Target>, messageSize: int, message: seq<int>, data: int, wasEmpty: bool,
                         ghost before: seq<Message>)
      requires Valid() && messageSize > 0 && |message| == Align(messageSize) / 4
      requires Allocated(MESSAGING_COMMAND_SEND_MESSAGE, DataSize(targets, messageSize), data, wasEmpty, before)
                 && LastLocked()
      modifies this`rings, this`sent, this`signals, lastArea`commands, lastArea`held, lastArea.header
      ensures Valid() && Unlocked()
      ensures var size := COMMAND_SIZE + DataSize(targets, messageSize);
              sent == before + [Message(MESSAGING_COMMAND_SEND_MESSAGE, size,
                                        SendMessageWords(targets, messageSize, message))]
      ensures |rings| == |areas| && signals == old(signals) + if |rings[|rings| - 1]| == 1 then 1 else 0
    {
      hide Unlocked, LastLocked;
      NewestPending();
      WordsFill(targets, messageSize, message);
      ghost var n := |rings[|rings| - 1]|;
      assert sent[..|sent| - 1] == before && |rings| == |areas| && wasEmpty == (n == 1);
      hide SendMessageWords, Valid, Newest, Allocated;
      FinishMessage(data, SendMessageWords(targets, messageSize, message));
      assert |rings| == |areas| && |rings[|rings| - 1]| == n;
      if wasEmpty {
        CommitCommand();
      }
    }

    /** MessagingArea::CommitCommand */
    method CommitCommand()
      requires Valid() && Unlocked()
      modifies this`signals
      ensures Valid() && Unlocked() && signals == old(signals) + 1
    {
      hide MessagingArea.Valid, MessagingArea.NextId, Queue;
      signals := signals + 1;
      forall i: nat | i < |areas| ensures At(i) {
        assert old(At(i));
      }
    }

    /** MessagingService::RegisterService */
    method RegisterService(team: nat, lockSemTeam: int, counterSemTeam: int, newId: int, canCreate: bool,
                           ghost registered: set<int>)
        returns (status: int, areaId: int, ghost now: set<int>)
      requires Valid() && Unlocked() && IsTidy(registered, areas, null) && newId !in registered
      modifies this
      ensures IsTidy(now, areas, null)
      ensures Valid() && Unlocked() && sent == old(sent) && received == old(received)
      ensures status == if old(areas) != [] || team != lockSemTeam || team != counterSemTeam then B_BAD_VALUE
                        else if !canCreate then B_NO_MEMORY else B_OK
      ensures if status == B_OK then
                |areas| == 1 && fresh(areas[0]) && fresh(areas[0].header) && areaId == areas[0].id && serverTeam == team
              else areas == old(areas) && serverTeam == old(serverTeam)
    {
      hide Valid, Unlocked, IsTidy;
      NoAreas();
      areaId, now := 0, registered;
      if firstArea != null || team != lockSemTeam || team != counterSemTeam {
        return B_BAD_VALUE, areaId, now;
      }
      if !canCreate {
        return B_NO_MEMORY, areaId, now;
      }
      var area := FreshArea(newId);
      areaId := area.id;
      assert areas + [area] == [area];
      TidyAppend(registered, areas, null, area);
      now := registered + {areaId};
      Start(area, team);
      status := B_OK;
    }

    lemma NoAreas()
      requires Valid()
      ensures firstArea == null <==> areas == []
    {
    }

    /** A new area, unlocked. */
    method FreshArea(newId: int) returns (area: MessagingArea)
      requires Valid() && areas == []
      ensures Valid() && fresh(area) && fresh(area.header) && Loose(area) && area.NextId() == -1 && !area.held
      ensures area.id == newId
    {
      hide MessagingArea.Valid, MessagingArea.NextId, Queue, At;
      area := new MessagingArea(newId);
      area.Unlock();
    }

    /** The first area of a chain. */
    method Start(area: MessagingArea, team: int)
      requires Valid() && areas == [] && Loose(area) && area.NextId() == -1 && !area.held
      modifies this`firstArea, this`lastArea, this`serverTeam, this`areas, this`rings
      ensures Valid() && Unlocked() && areas == [area] && serverTeam == team
    {
      hide MessagingArea.Valid, MessagingArea.NextId, Queue;
      firstArea, lastArea, serverTeam := area, area, team;
      QueueAddRing(rings);
      areas, rings := areas + [area], rings + [[]];
      assert At(0);
    }

    /** MessagingService::UnregisterService: every area is let go of and unregistered, from the first
        to the last, and what the consumer has not got is lost. */
    method UnregisterService(team: nat, ghost registered: set<int>)
        returns (status: int, ghost deleted: seq<MessagingArea>, ghost now: set<int>)
      requires Valid() && Unlocked() && IsTidy(registered, areas, null)
      modifies this
      ensures Valid() && Unlocked() && received == old(received) && IsTidy(now, areas, null)
      ensures if team != old(serverTeam) then
                status == B_BAD_VALUE && areas == old(areas) && sent == old(sent) && deleted == []
              else
                status == B_OK && areas == [] && sent == received && deleted == old(areas)
    {
      now := registered;
      if team != serverTeam {
        return B_BAD_VALUE, [], now;
      }
      deleted, now := DestroyAll(registered);
      lastArea, serverTeam := null, -1;
      areas, rings, sent := [], [], received;
      status := B_OK;
    }

    /** The loop over the areas; each is destroyed when firstArea leaves it. */
    method DestroyAll(ghost registered: set<int>) returns (ghost deleted: seq<MessagingArea>, ghost now: set<int>)
      requires Valid() && IsTidy(registered, areas, null)
      modifies this`firstArea
      ensures firstArea == null && deleted == areas && IsTidy(now, [], null)
    {
      hide IsTidy, Valid, Destroyed;
      Links();
      ghost var all := areas;
      deleted, now := [], registered;
      assert all[0..] == all;
      while firstArea != null
        invariant |deleted| <= |all| && deleted == all[..|deleted|] && areas == all
        invariant firstArea == (if |deleted| < |all| then all[|deleted|] else null)
        invariant forall k: nat :: k < |all| ==> IsLinked(all, k)
        invariant IsTidy(now, all[|deleted|..], null)
        decreases |all| - |deleted|
      {
        ghost var n := |deleted|;
        assert all[..n + 1] == all[..n] + [all[n]] && IsLinked(all, n);
        TidyDrop(now, all[n..], null);
        assert all[n..][1..] == all[n + 1..];
        now := Destroyed(now, null);
        TidyLess(now, all[n + 1..], firstArea);
        now := Destroyed(now, firstArea);
        deleted := deleted + [firstArea];
        firstArea := firstArea.next;
      }
    }

    lemma Links()
      requires Valid()
      ensures firstArea == (if areas == [] then null else areas[0])
      ensures forall k: nat :: k < |areas| ==> IsLinked(areas, k)
    {
      hide MessagingArea.Valid, MessagingArea.NextId, Queue;
      forall k: nat | k < |areas| ensures IsLinked(areas, k) {
        assert At(k);
      }
    }
  }

  ghost predicate IsLinked(areas: seq<MessagingArea>, k: nat)
    requires k < |areas|
    reads areas`next
  {
    areas[k].next == if k + 1 < |areas| then areas[k + 1] else null
  }

  lemma QueueSkip(rings: seq<seq<Command>>)
    requires rings != [] && rings[0] == []
    ensures Queue(rings[1..]) == Queue(rings)
  {
    assert Messages(rings[0]) == [];
  }

  lemma QueueAddRing(rings: seq<seq<Command>>)
    ensures Queue(rings + [[]]) == Queue(rings)
  {
    QueueOfTwo(rings, [[]]);
    QueueOfOne([]);
  }
}
