/** One messaging area: shared memory used as a ring of variable-size commands.

    The memory is kept as int32 words; every offset into it is a multiple of four. */
module MessagingRing {
  import opened Collections
  import opened HaikuTypes

  const AREA_SIZE: int := 4 * 4096
  const HEADER_SIZE: int := 28
  const COMMAND_SIZE: int := 12

  // words of messaging_area_header
  const KERNEL_AREA: int := 2
  const NEXT_KERNEL_AREA: int := 3
  const COMMAND_COUNT: int := 4
  const FIRST_COMMAND: int := 5
  const LAST_COMMAND: int := 6

  // words of messaging_command
  const NEXT: int := 0
  const WHAT: int := 1
  const SIZE: int := 2
  const DATA: int := 3

  /** What an int32 holds after v was stored into it. */
  function ToInt32(v: int): (r: int)
    ensures IsInt32(r) && (v - r) % 0x1_0000_0000 == 0
  {
    var u := v % 0x1_0000_0000;
    if u < 0x8000_0000 then u else u - 0x1_0000_0000
  }

  /** What fits into an aligned gap unrounded fits rounded. */
  lemma AlignedFits(size: int, room: int)
    requires room % 4 == 0 && size <= room
    ensures Align(size) <= room
  {
  }

  /** MessagingArea::CheckCommandSize */
  predicate CheckCommandSize(dataSize: int) {
    dataSize >= 0 && ToInt32(COMMAND_SIZE + dataSize) <= AREA_SIZE - HEADER_SIZE
  }

  /** The check accepts what an empty area can hold, and also the sizes so large that adding
      the command header wraps around. */
  lemma CheckCommandSizeMeans(dataSize: int)
    requires IsInt32(dataSize)
    ensures CheckCommandSize(dataSize) <==>
              0 <= dataSize <= AREA_SIZE - HEADER_SIZE - COMMAND_SIZE || dataSize > INT32_MAX - COMMAND_SIZE
  {
  }

  /** A command in the ring; data are the words after its header. */
  datatype Command = Command(offset: int, what: int, size: int, data: seq<int>)

  function End(c: Command): int { c.offset + Align(c.size) }

  /** c lies between the header and the end of an area of `size` bytes. */
  predicate Fits(c: Command, size: int) {
    && c.offset % 4 == 0 && End(c) % 4 == 0 && HEADER_SIZE <= c.offset && COMMAND_SIZE <= c.size && End(c) <= size
    && |c.data| == Align(c.size) / 4 - DATA
  }

  /** Command j is younger than command i: it lies after it, unless the ring wrapped between
      the two; then it lies before it. */
  predicate Apart(i: int, j: int, turn: int, ci: Command, cj: Command) {
    if i < turn <= j then End(cj) <= ci.offset else End(ci) <= cj.offset
  }

  /** The ring has wrapped after `turn` commands, or not yet if turn == |cmds|. */
  ghost predicate Placed(cmds: seq<Command>, turn: nat, size: int) {
    && turn <= |cmds| && (cmds != [] ==> turn > 0)
    && (forall i :: 0 <= i < |cmds| ==> Fits(cmds[i], size))
    && (forall i, j :: 0 <= i < j < |cmds| ==> Apart(i, j, turn, cmds[i], cmds[j]))
  }

  /** The words of one command, without its link. */
  ghost predicate Holds(m: seq<int>, c: Command)
    requires Fits(c, 4 * |m|)
  {
    var w := c.offset / 4;
    m[w + WHAT] == c.what && m[w + SIZE] == c.size && m[w + DATA..w + Align(c.size) / 4] == c.data
  }

  /** The memory m is a ring that holds cmds, oldest first. */
  ghost predicate Layout(m: seq<int>, cmds: seq<Command>, turn: nat) {
    && |m| >= HEADER_SIZE / 4
    && Placed(cmds, turn, 4 * |m|)
    && m[COMMAND_COUNT] == |cmds|
    && (cmds != [] ==> m[FIRST_COMMAND] == cmds[0].offset && m[LAST_COMMAND] == cmds[|cmds| - 1].offset)
    && (forall i :: 0 <= i < |cmds| ==> Holds(m, cmds[i]))
    && (forall i :: 0 <= i < |cmds| - 1 ==> m[cmds[i].offset / 4 + NEXT] == cmds[i + 1].offset)
  }

  /** Where the ring would put `size` more bytes, if anywhere: after the newest command, or
      at the start once the rest is too short, but never beyond the oldest command. */
  function PlaceFor(cmds: seq<Command>, size: int, areaSize: int): (offset: int)
    ensures cmds == [] ==> offset == HEADER_SIZE
  {
    if cmds == [] then HEADER_SIZE
    else
      var first, after := cmds[0].offset, End(cmds[|cmds| - 1]);
      if first <= cmds[|cmds| - 1].offset then
        if size <= areaSize - after then after
        else if size <= first - HEADER_SIZE then HEADER_SIZE
        else -1
      else if size <= first - after then after else -1
  }

  function TurnAfter(cmds: seq<Command>, turn: nat, offset: int): nat {
    if cmds == [] then 1
    else if turn == |cmds| && offset == End(cmds[|cmds| - 1]) then turn + 1
    else turn
  }

  /** A fresh place keeps the ring in order although only the unrounded size was tested. */
  lemma PlacedAppend(cmds: seq<Command>, turn: nat, areaSize: int, c: Command)
    requires Placed(cmds, turn, areaSize) && areaSize % 4 == 0
    requires COMMAND_SIZE <= c.size <= areaSize - HEADER_SIZE && |c.data| == Align(c.size) / 4 - DATA
    requires c.offset == PlaceFor(cmds, c.size, areaSize) && c.offset != -1
    ensures Placed(cmds + [c], TurnAfter(cmds, turn, c.offset), areaSize)
  {
    var r, t, last := cmds + [c], TurnAfter(cmds, turn, c.offset), |cmds| - 1;
    hide Align;
    PlaceFits(cmds, turn, areaSize, c);
    hide Fits;
    forall i, j | 0 <= i < j < |r| ensures Apart(i, j, t, r[i], r[j]) {
      if j < |cmds| {
        assert Apart(i, j, turn, cmds[i], cmds[j]);
      } else {
        PlaceApart(cmds, turn, areaSize, c, i);
      }
    }
  }

  lemma PlaceFits(cmds: seq<Command>, turn: nat, areaSize: int, c: Command)
    requires Placed(cmds, turn, areaSize) && areaSize % 4 == 0
    requires COMMAND_SIZE <= c.size <= areaSize - HEADER_SIZE && |c.data| == Align(c.size) / 4 - DATA
    requires c.offset == PlaceFor(cmds, c.size, areaSize) && c.offset != -1
    ensures Fits(c, areaSize)
    ensures cmds != [] && c.offset < cmds[0].offset ==> End(c) <= cmds[0].offset
  {
    hide Align;
    EndAligned(c.offset, c.size);
    if cmds == [] {
      AlignedFits(c.size, areaSize - HEADER_SIZE);
    } else {
      assert Fits(cmds[0], areaSize) && Fits(cmds[|cmds| - 1], areaSize);
      GapFits(c.offset, c.size, areaSize);
      GapFits(c.offset, c.size, cmds[0].offset);
    }
  }

  /** An aligned place stays aligned and within an aligned limit. */
  lemma GapFits(offset: int, size: int, limit: int)
    requires offset % 4 == 0 && limit % 4 == 0
    ensures size <= limit - offset ==> offset + Align(size) <= limit
  {
    if size <= limit - offset {
      AlignedFits(size, limit - offset);
    }
  }

  lemma EndAligned(offset: int, size: int)
    ensures offset % 4 == 0 ==> (offset + Align(size)) % 4 == 0
  {
  }

  lemma PlaceApart(cmds: seq<Command>, turn: nat, areaSize: int, c: Command, i: nat)
    requires Placed(cmds, turn, areaSize) && i < |cmds| && Fits(c, areaSize)
    requires c.offset == PlaceFor(cmds, c.size, areaSize) && c.offset != -1
    requires c.offset < cmds[0].offset ==> End(c) <= cmds[0].offset
    ensures Apart(i, |cmds|, TurnAfter(cmds, turn, c.offset), cmds[i], c)
  {
    var last := |cmds| - 1;
    hide Align;
    assert Fits(cmds[0], areaSize) && Fits(cmds[last], areaSize) && Fits(cmds[i], areaSize);
    assert last > 0 ==> Apart(0, last, turn, cmds[0], cmds[last]);
    assert i < last ==> Apart(i, last, turn, cmds[i], cmds[last]);
    assert 0 < i ==> Apart(0, i, turn, cmds[0], cmds[i]);
  }

  function TurnPopped(cmds: seq<Command>, turn: nat): nat {
    if turn > 1 then turn - 1 else if cmds == [] then 0 else |cmds| - 1
  }

  lemma PlacedTail(cmds: seq<Command>, turn: nat, areaSize: int)
    requires Placed(cmds, turn, areaSize) && cmds != []
    ensures Placed(cmds[1..], TurnPopped(cmds, turn), areaSize)
  {
    var r := cmds[1..];
    forall i, j | 0 <= i < j < |r| ensures Apart(i, j, TurnPopped(cmds, turn), r[i], r[j]) {
      assert Apart(i + 1, j + 1, turn, cmds[i + 1], cmds[j + 1]);
    }
  }

  /** When the ring reports no room, no place for the command would have continued it. */
  lemma NoPlaceMeansNoRoom(cmds: seq<Command>, turn: nat, areaSize: int, c: Command, t: nat)
    requires Placed(cmds, turn, areaSize) && Placed(cmds + [c], t, areaSize)
    ensures PlaceFor(cmds, c.size, areaSize) != -1
  {
    var r, last := cmds + [c], |cmds| - 1;
    if cmds != [] {
      assert r[0] == cmds[0] && r[last] == cmds[last] && r[|cmds|] == c;
      assert Fits(r[|cmds|], areaSize) && Fits(cmds[0], areaSize) && Fits(cmds[last], areaSize);
      assert Apart(last, |cmds|, t, r[last], r[|cmds|]) && Apart(0, |cmds|, t, r[0], r[|cmds|]);
      assert last > 0 ==> Apart(0, last, t, r[0], r[last]) && Apart(0, last, turn, cmds[0], cmds[last]);
    }
  }

  /** Some command of this size would continue the ring. */
  ghost predicate HasRoom(cmds: seq<Command>, size: int, areaSize: int) {
    exists c: Command, t: nat :: c.size == size && Placed(cmds + [c], t, areaSize)
  }

  /** The search finds a place exactly if there is one. */
  lemma PlaceMeansRoom(cmds: seq<Command>, turn: nat, size: int, areaSize: int)
    requires Placed(cmds, turn, areaSize) && areaSize % 4 == 0 && COMMAND_SIZE <= size <= areaSize - HEADER_SIZE
    ensures PlaceFor(cmds, size, areaSize) != -1 <==> HasRoom(cmds, size, areaSize)
  {
    hide Placed, PlaceFor;
    if PlaceFor(cmds, size, areaSize) != -1 {
      var offset := PlaceFor(cmds, size, areaSize);
      var c := Command(offset, 0, size, seq(Align(size) / 4 - DATA, _ => 0));
      PlacedAppend(cmds, turn, areaSize, c);
    }
    if HasRoom(cmds, size, areaSize) {
      var c: Command, t: nat :| c.size == size && Placed(cmds + [c], t, areaSize);
      NoPlaceMeansNoRoom(cmds, turn, areaSize, c, t);
    }
  }

  /** The ring only wraps when it has to: a place right behind the newest command is taken if it
      would continue the ring. */
  lemma WrapsOnlyIfNeeded(cmds: seq<Command>, turn: nat, areaSize: int, c: Command, t: nat)
    requires Placed(cmds, turn, areaSize) && cmds != [] && c.offset == End(cmds[|cmds| - 1])
    requires Placed(cmds + [c], t, areaSize)
    ensures PlaceFor(cmds, c.size, areaSize) == c.offset
  {
    var r, last := cmds + [c], |cmds| - 1;
    assert r[0] == cmds[0] && r[last] == cmds[last] && r[|cmds|] == c;
    assert Fits(r[|cmds|], areaSize) && Fits(cmds[0], areaSize) && Fits(cmds[last], areaSize);
    assert Apart(last, |cmds|, t, r[last], r[|cmds|]) && Apart(0, |cmds|, t, r[0], r[|cmds|]);
    assert last > 0 ==> Apart(0, last, t, r[0], r[last]) && Apart(0, last, turn, cmds[0], cmds[last]);
  }

  // ----- the memory

  /** Word k belongs to no command of cmds. */
  ghost predicate Outside(c: Command, k: int) { k < c.offset / 4 || End(c) / 4 <= k }

  /** Writes outside a command do not touch it. */
  lemma HoldsFrame(m: seq<int>, n: seq<int>, c: Command)
    requires |m| == |n| && Fits(c, 4 * |m|) && Holds(m, c)
    requires forall k :: c.offset / 4 + WHAT <= k < End(c) / 4 ==> n[k] == m[k]
    ensures Holds(n, c)
  {
    var w := c.offset / 4;
    assert End(c) / 4 == w + Align(c.size) / 4;
    assert n[w + DATA..w + Align(c.size) / 4] == m[w + DATA..w + Align(c.size) / 4];
  }

  /** The memory once c was linked in as the newest command. */
  ghost predicate Linked(m: seq<int>, n: seq<int>, cmds: seq<Command>, c: Command)
    requires |m| == |n| && |m| >= HEADER_SIZE / 4 && Fits(c, 4 * |m|)
  {
    && n[COMMAND_COUNT] == |cmds| + 1 && n[LAST_COMMAND] == c.offset
    && n[FIRST_COMMAND] == (if cmds == [] then c.offset else m[FIRST_COMMAND])
    && Holds(n, c)
    && (forall k :: HEADER_SIZE / 4 <= k < |m| && Outside(c, k) ==>
          n[k] == if cmds != [] && k == cmds[|cmds| - 1].offset / 4 then c.offset else m[k])
  }

  lemma LayoutAppend(m: seq<int>, n: seq<int>, cmds: seq<Command>, turn: nat, t: nat, c: Command)
    requires Layout(m, cmds, turn) && |m| == |n| && Placed(cmds + [c], t, 4 * |m|) && Fits(c, 4 * |m|)
    requires Linked(m, n, cmds, c)
    ensures Layout(n, cmds + [c], t)
  {
    hide Align, Holds, Apart;
    var r := cmds + [c];
    assert r[|cmds|] == c;
    forall i | 0 <= i < |cmds|
      ensures Holds(n, r[i]) && n[r[i].offset / 4 + NEXT] == r[i + 1].offset
    {
      AppendHolds(m, n, cmds, turn, t, c, i);
    }
  }

  /** The i-th command stays, and is linked to the next one or to c. */
  lemma AppendHolds(m: seq<int>, n: seq<int>, cmds: seq<Command>, turn: nat, t: nat, c: Command, i: nat)
    requires Layout(m, cmds, turn) && |m| == |n| && Placed(cmds + [c], t, 4 * |m|) && Fits(c, 4 * |m|)
    requires Linked(m, n, cmds, c) && i < |cmds|
    ensures Fits(cmds[i], 4 * |m|) && Holds(n, cmds[i])
    ensures n[cmds[i].offset / 4 + NEXT] == (cmds + [c])[i + 1].offset
  {
    hide Align, Holds;
    var r, last := cmds + [c], |cmds| - 1;
    assert r[|cmds|] == c && r[i] == cmds[i] && Fits(cmds[i], 4 * |m|);
    assert Apart(i, |cmds|, t, r[i], r[|cmds|]);
    assert forall k :: cmds[i].offset / 4 <= k < End(cmds[i]) / 4 ==> Outside(c, k);
    if i < last {
      assert Fits(cmds[last], 4 * |m|) && Apart(i, last, turn, cmds[i], cmds[last]);
      assert r[i + 1] == cmds[i + 1];
    }
    HoldsFrame(m, n, cmds[i]);
  }

  /** Where the header says the oldest command is. */
  lemma FirstCommand(m: seq<int>, cmds: seq<Command>, turn: nat)
    requires Layout(m, cmds, turn) && cmds != []
    ensures var c, w := cmds[0], m[FIRST_COMMAND] / 4;
            && Fits(c, 4 * |m|) && c.offset == m[FIRST_COMMAND] && m[COMMAND_COUNT] == |cmds|
            && HEADER_SIZE / 4 <= w && w + SIZE < |m| && w + DATA <= w + Align(c.size) / 4 <= |m|
            && m[w + WHAT] == c.what && m[w + SIZE] == c.size && m[w + DATA..w + Align(c.size) / 4] == c.data
  {
    hide Placed;
    PlacedFits(cmds, turn, 4 * |m|);
    assert Holds(m, cmds[0]);
    assert End(cmds[0]) / 4 == cmds[0].offset / 4 + Align(cmds[0].size) / 4;
  }

  lemma PlacedFits(cmds: seq<Command>, turn: nat, size: int)
    requires Placed(cmds, turn, size)
    ensures forall i :: 0 <= i < |cmds| ==> Fits(cmds[i], size)
  {
  }

  lemma LayoutTail(m: seq<int>, n: seq<int>, cmds: seq<Command>, turn: nat)
    requires Layout(m, cmds, turn) && cmds != [] && |n| == |m|
    requires n == m[COMMAND_COUNT := m[COMMAND_COUNT] - 1][FIRST_COMMAND := m[cmds[0].offset / 4 + NEXT]]
    ensures Layout(n, cmds[1..], TurnPopped(cmds, turn))
  {
    var r := cmds[1..];
    PlacedTail(cmds, turn, 4 * |m|);
    hide Align;
    forall i | 0 <= i < |r| ensures Holds(n, r[i]) && (i + 1 < |r| ==> n[r[i].offset / 4 + NEXT] == r[i + 1].offset) {
      assert r[i] == cmds[i + 1] && Fits(cmds[i + 1], 4 * |m|);
      HoldsFrame(m, n, cmds[i + 1]);
      assert i + 1 < |r| ==> m[cmds[i + 1].offset / 4 + NEXT] == cmds[i + 2].offset;
    }
    hide Holds, Fits;
  }

  lemma NextKeepsLayout(m: seq<int>, n: seq<int>, cmds: seq<Command>, turn: nat)
    requires Layout(m, cmds, turn) && |n| == |m| && n == m[NEXT_KERNEL_AREA := n[NEXT_KERNEL_AREA]]
    ensures Layout(n, cmds, turn)
  {
    hide Align;
    forall i | 0 <= i < |cmds| ensures Holds(n, cmds[i]) {
      assert Fits(cmds[i], 4 * |m|);
      HoldsFrame(m, n, cmds[i]);
    }
    hide Holds;
    assert forall i :: 0 <= i < |cmds| - 1 ==> Fits(cmds[i], 4 * |m|);
  }

  /** n is m with the data of command c overwritten. */
  ghost predicate Overwrites(m: seq<int>, n: seq<int>, c: Command, data: seq<int>)
    requires Fits(c, 4 * |m|) && |n| == |m|
  {
    var from, to := c.offset / 4 + DATA, End(c) / 4;
    n[from..to] == data && forall k :: 0 <= k < |m| && !(from <= k < to) ==> n[k] == m[k]
  }

  /** m with the words from `at` on replaced. */
  function Spliced(m: seq<int>, at: nat, words: seq<int>): (n: seq<int>)
    requires at + |words| <= |m|
    ensures |n| == |m|
  {
    m[..at] + words + m[at + |words|..]
  }

  lemma CommandFits(m: seq<int>, cmds: seq<Command>, turn: nat, k: nat)
    requires Layout(m, cmds, turn) && k < |cmds|
    ensures Fits(cmds[k], 4 * |m|) && cmds[k].offset >= HEADER_SIZE
  {
    hide Holds, Apart;
  }

  lemma SplicedOverwrites(m: seq<int>, c: Command, words: seq<int>)
    requires Fits(c, 4 * |m|) && |words| == |c.data|
    ensures var at := c.offset / 4 + DATA;
            && at + |words| <= |m|
            && Overwrites(m, Spliced(m, at, words), c, words)
            && Spliced(m, at, words)[NEXT_KERNEL_AREA] == m[NEXT_KERNEL_AREA]
  {
    assert End(c) / 4 == c.offset / 4 + DATA + |words|;
  }

  lemma OverwriteHolds(m: seq<int>, n: seq<int>, c: Command, data: seq<int>)
    requires Fits(c, 4 * |m|) && |n| == |m| && Overwrites(m, n, c, data) && Holds(m, c)
    ensures |data| == |c.data| && Holds(n, c.(data := data)) && n[c.offset / 4 + NEXT] == m[c.offset / 4 + NEXT]
  {
    assert End(c) / 4 == c.offset / 4 + Align(c.size) / 4;
  }

  lemma OverwriteMisses(m: seq<int>, n: seq<int>, c: Command, data: seq<int>, o: Command)
    requires Fits(c, 4 * |m|) && Fits(o, 4 * |m|) && |n| == |m| && Overwrites(m, n, c, data) && Holds(m, o)
    requires End(c) <= o.offset || End(o) <= c.offset
    ensures Holds(n, o) && n[o.offset / 4 + NEXT] == m[o.offset / 4 + NEXT]
  {
    HoldsFrame(m, n, o);
  }

  lemma WriteKeepsCommand(m: seq<int>, n: seq<int>, cmds: seq<Command>, turn: nat, k: nat, data: seq<int>, i: nat)
    requires Layout(m, cmds, turn) && k < |cmds| && i < |cmds| && |n| == |m| && Fits(cmds[k], 4 * |m|)
               && Fits(cmds[i], 4 * |m|)
    requires Overwrites(m, n, cmds[k], data) && |data| == |cmds[k].data|
    ensures Holds(n, if i == k then cmds[k].(data := data) else cmds[i])
    ensures n[cmds[i].offset / 4 + NEXT] == m[cmds[i].offset / 4 + NEXT]
  {
    hide Align;
    if i == k {
      OverwriteHolds(m, n, cmds[k], data);
    } else {
      assert if i < k then Apart(i, k, turn, cmds[i], cmds[k]) else Apart(k, i, turn, cmds[k], cmds[i]);
      hide Fits;
      OverwriteMisses(m, n, cmds[k], data, cmds[i]);
    }
  }

  /** Writing into the data of one command disturbs neither the others nor the header. */
  lemma LayoutWrite(m: seq<int>, n: seq<int>, cmds: seq<Command>, turn: nat, k: nat, data: seq<int>)
    requires Layout(m, cmds, turn) && k < |cmds| && |n| == |m| && Fits(cmds[k], 4 * |m|)
    requires Overwrites(m, n, cmds[k], data)
    ensures |data| == |cmds[k].data| && Layout(n, cmds[k := cmds[k].(data := data)], turn)
  {
    hide Holds, Overwrites, Align, Apart;
    OverwriteHolds(m, n, cmds[k], data);
    OverwriteHeader(m, n, cmds[k], data);
    WritePlaced(cmds, turn, 4 * |m|, k, data);
    var r := cmds[k := cmds[k].(data := data)];
    forall i | 0 <= i < |r|
      ensures Fits(r[i], 4 * |n|) && Holds(n, r[i]) && (i < |r| - 1 ==> n[r[i].offset / 4 + NEXT] == r[i + 1].offset)
    {
      assert Fits(cmds[i], 4 * |m|);
      WriteKeepsCommand(m, n, cmds, turn, k, data, i);
    }
    hide Fits, Placed;
  }

  lemma OverwriteHeader(m: seq<int>, n: seq<int>, c: Command, data: seq<int>)
    requires Fits(c, 4 * |m|) && |n| == |m| && Overwrites(m, n, c, data)
    ensures forall k :: 0 <= k < HEADER_SIZE / 4 ==> n[k] == m[k]
  {
  }

  lemma WritePlaced(cmds: seq<Command>, turn: nat, size: int, k: nat, data: seq<int>)
    requires Placed(cmds, turn, size) && k < |cmds| && |data| == |cmds[k].data|
    ensures Placed(cmds[k := cmds[k].(data := data)], turn, size)
  {
    var r := cmds[k := cmds[k].(data := data)];
    forall i, j | 0 <= i < j < |r| ensures Apart(i, j, turn, r[i], r[j]) {
      assert Apart(i, j, turn, cmds[i], cmds[j]);
    }
    forall i | 0 <= i < |r| ensures Fits(r[i], size) {
      assert Fits(cmds[i], size);
    }
  }

  /** The newest command can be linked to one at `offset`. */
  predicate Writable(m: seq<int>, offset: int) {
    && |m| >= HEADER_SIZE / 4 && 0 <= offset / 4
    && (m[COMMAND_COUNT] != 0 ==> 0 <= m[LAST_COMMAND] / 4 + NEXT < |m|)
  }

  /** A write to word k; one beyond the area changes none of its words. */
  function Poke(m: seq<int>, k: nat, v: int): (n: seq<int>)
    ensures |n| == |m|
  {
    if k < |m| then m[k := v] else m
  }

  /** The writes of AllocateCommand, in order. */
  function LinkedMemory(m: seq<int>, offset: int, what: int, size: int): (n: seq<int>)
    requires Writable(m, offset)
    ensures |n| == |m|
  {
    var w, last := offset / 4, m[LAST_COMMAND] / 4;
    var m1 := m[COMMAND_COUNT := m[COMMAND_COUNT] + 1];
    var m2 := if m[COMMAND_COUNT] == 0 then m1[FIRST_COMMAND := offset] else m1[last + NEXT := offset];
    Poke(Poke(Poke(m2[LAST_COMMAND := offset], w + NEXT, 0), w + WHAT, what), w + SIZE, size)
  }

  /** What the writes of AllocateCommand leave at word k. */
  lemma LinkedMemoryAt(m: seq<int>, offset: int, what: int, size: int, k: nat)
    requires Writable(m, offset) && k < |m| && HEADER_SIZE <= offset
    requires m[COMMAND_COUNT] != 0 ==> HEADER_SIZE <= m[LAST_COMMAND]
    ensures var n, w, last := LinkedMemory(m, offset, what, size), offset / 4, m[LAST_COMMAND] / 4;
            n[k] ==
              if k == w + NEXT then 0
              else if k == w + WHAT then what
              else if k == w + SIZE then size
              else if k == LAST_COMMAND then offset
              else if k == COMMAND_COUNT then m[COMMAND_COUNT] + 1
              else if m[COMMAND_COUNT] == 0 && k == FIRST_COMMAND then offset
              else if m[COMMAND_COUNT] != 0 && k == last + NEXT then offset
              else m[k]
  {
  }

  /** The same, told from the commands of the ring. */
  lemma LinkedWord(m: seq<int>, cmds: seq<Command>, c: Command, k: nat)
    requires Writable(m, c.offset) && k < |m| && Fits(c, 4 * |m|) && m[COMMAND_COUNT] == |cmds|
    requires cmds != [] ==> Fits(cmds[|cmds| - 1], 4 * |m|) && m[LAST_COMMAND] == cmds[|cmds| - 1].offset
    requires cmds != [] ==> End(cmds[|cmds| - 1]) <= c.offset || End(c) <= cmds[|cmds| - 1].offset
    ensures var n, w := LinkedMemory(m, c.offset, c.what, c.size), c.offset / 4;
            && (k < HEADER_SIZE / 4 ==>
                  n[k] == if k == LAST_COMMAND then c.offset else if k == COMMAND_COUNT then |cmds| + 1
                          else if k == FIRST_COMMAND && cmds == [] then c.offset else m[k])
            && (k == w + WHAT ==> n[k] == c.what)
            && (k == w + SIZE ==> n[k] == c.size)
            && (w + DATA <= k < End(c) / 4 ==> n[k] == m[k])
            && (HEADER_SIZE / 4 <= k && Outside(c, k) ==>
                n[k] == if cmds != [] && k == cmds[|cmds| - 1].offset / 4 then c.offset else m[k])
  {
    LinkedMemoryAt(m, c.offset, c.what, c.size, k);
    hide LinkedMemory;
  }

  lemma EndWords(c: Command, size: int)
    requires Fits(c, size)
    ensures End(c) / 4 == c.offset / 4 + Align(c.size) / 4 && Align(c.size) >= COMMAND_SIZE
  {
  }

  lemma LinkedMemoryIsLinked(m: seq<int>, cmds: seq<Command>, c: Command)
    requires Writable(m, c.offset) && Fits(c, 4 * |m|) && m[COMMAND_COUNT] == |cmds|
    requires cmds != [] ==> Fits(cmds[|cmds| - 1], 4 * |m|) && m[LAST_COMMAND] == cmds[|cmds| - 1].offset
    requires cmds != [] ==> End(cmds[|cmds| - 1]) <= c.offset || End(c) <= cmds[|cmds| - 1].offset
    requires c.data == m[c.offset / 4 + DATA..c.offset / 4 + Align(c.size) / 4]
    ensures Linked(m, LinkedMemory(m, c.offset, c.what, c.size), cmds, c)
    ensures LinkedMemory(m, c.offset, c.what, c.size)[NEXT_KERNEL_AREA] == m[NEXT_KERNEL_AREA]
  {
    hide Align, LinkedMemory, Writable;
    EndWords(c, 4 * |m|);
    var n, w, to := LinkedMemory(m, c.offset, c.what, c.size), c.offset / 4, End(c) / 4;
    LinkedWord(m, cmds, c, COMMAND_COUNT);
    LinkedWord(m, cmds, c, FIRST_COMMAND);
    LinkedWord(m, cmds, c, LAST_COMMAND);
    LinkedWord(m, cmds, c, NEXT_KERNEL_AREA);
    LinkedWord(m, cmds, c, w + WHAT);
    LinkedWord(m, cmds, c, w + SIZE);
    forall k: nat | w + DATA <= k < to ensures n[k] == m[k] {
      LinkedWord(m, cmds, c, k);
    }
    assert n[w + DATA..to] == m[w + DATA..to];
    assert Holds(n, c);
    hide Holds;
    forall k | HEADER_SIZE / 4 <= k < |m| && Outside(c, k)
      ensures n[k] == if cmds != [] && k == cmds[|cmds| - 1].offset / 4 then c.offset else m[k]
    {
      LinkedWord(m, cmds, c, k);
    }
    hide Outside, Fits;
  }

  /** The command that the writes of AllocateCommand create. */
  function NewCommand(m: seq<int>, offset: int, what: int, size: int): Command {
    var from, to := offset / 4 + DATA, offset / 4 + Align(size) / 4;
    Command(offset, what, size, if 0 <= from <= to <= |m| then m[from..to] else [])
  }

  lemma NewCommandFits(m: seq<int>, cmds: seq<Command>, turn: nat, what: int, size: int)
    requires Placed(cmds, turn, 4 * |m|) && COMMAND_SIZE <= size <= 4 * |m| - HEADER_SIZE
    requires PlaceFor(cmds, size, 4 * |m|) != -1
    ensures var offset := PlaceFor(cmds, size, 4 * |m|); var c := NewCommand(m, offset, what, size);
            && 0 <= offset / 4 && Fits(c, 4 * |m|)
            && (cmds != [] && offset < cmds[0].offset ==> End(c) <= cmds[0].offset)
            && c.data == m[offset / 4 + DATA..offset / 4 + Align(size) / 4]
  {
    hide Align, PlaceFor, Placed, Apart;
    var offset := PlaceFor(cmds, size, 4 * |m|);
    var c0 := Command(offset, what, size, seq(Align(size) / 4 - DATA, _ => 0));
    PlaceFits(cmds, turn, 4 * |m|, c0);
    assert End(c0) / 4 == offset / 4 + Align(size) / 4;
  }

  /** AllocateCommand's writes extend the ring by one command. */
  lemma LinkKeeps(m: seq<int>, cmds: seq<Command>, turn: nat, offset: int, what: int, size: int)
    requires Layout(m, cmds, turn) && COMMAND_SIZE <= size <= 4 * |m| - HEADER_SIZE
    requires offset == PlaceFor(cmds, size, 4 * |m|) && offset != -1
    ensures offset >= HEADER_SIZE && Writable(m, offset)
    ensures Layout(LinkedMemory(m, offset, what, size), cmds + [NewCommand(m, offset, what, size)],
                   TurnAfter(cmds, turn, offset))
    ensures LinkedMemory(m, offset, what, size)[NEXT_KERNEL_AREA] == m[NEXT_KERNEL_AREA]
  {
    hide Align, Holds, NewCommand;
    NewCommandFits(m, cmds, turn, what, size);
    NewCommandIs(m, offset, what, size);
    var c := NewCommand(m, offset, what, size);
    assert c.offset >= HEADER_SIZE && (cmds != [] ==> Fits(cmds[|cmds| - 1], 4 * |m|));
    PlacedAppend(cmds, turn, 4 * |m|, c);
    if cmds != [] {
      PlaceApart(cmds, turn, 4 * |m|, c, |cmds| - 1);
    }
    hide PlaceFor, TurnAfter;
    LinkedMemoryIsLinked(m, cmds, c);
    hide Fits, Placed, NewCommand, LinkedMemory, Writable, Linked;
    LayoutAppend(m, LinkedMemory(m, offset, what, size), cmds, turn, TurnAfter(cmds, turn, offset), c);
  }

  /** The size of a command, as it is stored. */
  lemma CommandSizeIs(dataSize: int)
    requires IsInt32(dataSize)
    ensures ToInt32(COMMAND_SIZE + dataSize) ==
              COMMAND_SIZE + dataSize - if dataSize <= INT32_MAX - COMMAND_SIZE then 0 else 0x1_0000_0000
  {
  }

  lemma NewCommandIs(m: seq<int>, offset: int, what: int, size: int)
    ensures var c := NewCommand(m, offset, what, size); c.offset == offset && c.what == what && c.size == size
  {
  }

  // ----- a command size that wrapped around

  /** A negative size always finds a place. */
  lemma NegativeSizeFindsPlace(cmds: seq<Command>, turn: nat, size: int, areaSize: int)
    requires Placed(cmds, turn, areaSize) && size < 0
    ensures PlaceFor(cmds, size, areaSize) >= HEADER_SIZE
  {
    if cmds != [] {
      var last := |cmds| - 1;
      assert Fits(cmds[0], areaSize) && Fits(cmds[last], areaSize);
      assert last > 0 ==> Apart(0, last, turn, cmds[0], cmds[last]);
    }
  }

  /** The newest command of a ring has a sane size. */
  lemma NewestHasSize(m: seq<int>, cmds: seq<Command>, turn: nat)
    requires Layout(m, cmds, turn) && m[COMMAND_COUNT] > 0
    ensures var w := m[LAST_COMMAND] / 4; 0 <= w + SIZE < |m| && m[w + SIZE] >= COMMAND_SIZE
  {
    hide Apart;
    assert Fits(cmds[|cmds| - 1], 4 * |m|) && Holds(m, cmds[|cmds| - 1]);
  }

  /** Memory whose newest command has none is no ring, whatever it may hold. */
  lemma NoRing(n: seq<int>, cmds: seq<Command>, turn: nat)
    requires |n| >= HEADER_SIZE / 4 && n[COMMAND_COUNT] > 0
    requires var w := n[LAST_COMMAND] / 4; 0 <= w + SIZE < |n| ==> n[w + SIZE] < COMMAND_SIZE
    ensures !Layout(n, cmds, turn)
  {
    hide Layout;
    if Layout(n, cmds, turn) {
      NewestHasSize(n, cmds, turn);
    }
  }

  /** After AllocateCommand with a negative size the memory is no ring any more. */
  lemma WrappedSizeDamages(m: seq<int>, cmds: seq<Command>, turn: nat, offset: int, what: int, size: int)
    requires Layout(m, cmds, turn) && size < 0 && offset == PlaceFor(cmds, size, 4 * |m|)
    ensures offset >= HEADER_SIZE && Writable(m, offset)
    ensures forall c, t :: !Layout(LinkedMemory(m, offset, what, size), c, t)
  {
    hide Holds, PlaceFor;
    NegativeSizeFindsPlace(cmds, turn, size, 4 * |m|);
    assert cmds != [] ==> Fits(cmds[|cmds| - 1], 4 * |m|);
    var n := LinkedMemory(m, offset, what, size);
    LinkedMemoryAt(m, offset, what, size, COMMAND_COUNT);
    LinkedMemoryAt(m, offset, what, size, LAST_COMMAND);
    if offset / 4 + SIZE < |m| {
      LinkedMemoryAt(m, offset, what, size, offset / 4 + SIZE);
    }
    hide LinkedMemory, Layout, Fits, Placed;
    forall c, t ensures !Layout(n, c, t) {
      NoRing(n, c, t);
    }
  }

  // ----- what a reader of the shared memory sees

  /** The offsets met when following `steps` links from `offset` on. */
  function Walk(m: seq<int>, offset: int, steps: nat): seq<int>
    decreases steps
  {
    if steps == 0 then [] else
      [offset] + if 0 <= offset / 4 + NEXT < |m| then Walk(m, m[offset / 4 + NEXT], steps - 1) else []
  }

  /** Following the links visits the commands, oldest first, wrapping at most once. */
  lemma WalkVisitsTheRing(m: seq<int>, cmds: seq<Command>, turn: nat)
    requires Layout(m, cmds, turn)
    ensures var w := Walk(m, m[FIRST_COMMAND], m[COMMAND_COUNT]);
            && |w| == |cmds| && (forall i :: 0 <= i < |w| ==> w[i] == cmds[i].offset)
            && (w != [] ==> w[|w| - 1] == m[LAST_COMMAND])
            && (forall i, j :: 0 <= i < j < |w| ==> if i < turn <= j then w[j] < w[i] else w[i] < w[j])
  {
    if cmds != [] {
      var offsets := seq(|cmds|, i requires 0 <= i < |cmds| => cmds[i].offset);
      forall i | 0 <= i < |cmds| ensures 0 <= offsets[i] / 4 < |m| {
        assert Fits(cmds[i], 4 * |m|);
      }
      forall i, j | 0 <= i < j < |cmds|
          ensures if i < turn <= j then offsets[j] < offsets[i] else offsets[i] < offsets[j] {
        assert Fits(cmds[i], 4 * |m|) && Fits(cmds[j], 4 * |m|) && Apart(i, j, turn, cmds[i], cmds[j]);
      }
      hide Placed, Holds;
      WalkFollows(m, offsets);
    }
  }

  lemma {:induction false} WalkFollows(m: seq<int>, offsets: seq<int>)
    requires offsets != [] && forall i :: 0 <= i < |offsets| ==> 0 <= offsets[i] / 4 < |m|
    requires forall i :: 0 <= i < |offsets| - 1 ==> m[offsets[i] / 4 + NEXT] == offsets[i + 1]
    ensures Walk(m, offsets[0], |offsets|) == offsets
  {
    if |offsets| > 1 {
      assert m[offsets[0] / 4 + NEXT] == offsets[1];
      WalkFollows(m, offsets[1..]);
    }
  }

  // ----- runs of senders and the consumer

  datatype RingEvent = Send(what: int, data: seq<int>, dataSize: int) | Take

  /** _CheckCommand of a command in the ring */
  predicate Checked(c: Command, areaSize: int) {
    && HEADER_SIZE <= c.offset && c.offset + COMMAND_SIZE <= areaSize && c.offset % 4 == 0
    && c.size >= COMMAND_SIZE && c.offset + Align(c.size) <= areaSize
  }

  /** The first n words of data. */
  function Filled(data: seq<int>, n: int): (words: seq<int>)
    ensures n >= 0 ==> |words| == n
  {
    seq(if n < 0 then 0 else n, i requires i >= 0 => if i < |data| then data[i] else 0)
  }

  /** The ring after one event. Taking from an empty ring changes nothing, and neither does an
      allocation that is refused: for its size, for a ring that is damaged, for want of room. */
  function RingStep(cmds: seq<Command>, turn: nat, e: RingEvent, areaSize: int): (r: (seq<Command>, nat)) {
    match e
    case Take => if cmds == [] then (cmds, turn) else (cmds[1..], TurnPopped(cmds, turn))
    case Send(what, data, dataSize) =>
      var size := ToInt32(COMMAND_SIZE + dataSize);
      var place := PlaceFor(cmds, size, areaSize);
      if dataSize < 0 || size > areaSize - HEADER_SIZE then (cmds, turn)
      else if cmds != [] && !(Checked(cmds[0], areaSize) && Checked(cmds[|cmds| - 1], areaSize)) then (cmds, turn)
      else if place == -1 then (cmds, turn)
      else (cmds + [Command(place, what, size, Filled(data, Align(size) / 4 - DATA))], TurnAfter(cmds, turn, place))
  }

  function RingAfter(events: seq<RingEvent>, areaSize: int): (seq<Command>, nat) {
    if events == [] then ([], 0) else
      var (cmds, turn) := RingAfter(events[..|events| - 1], areaSize);
      RingStep(cmds, turn, events[|events| - 1], areaSize)
  }

  /** The size of the command fits int32. */
  predicate SizeFits(e: RingEvent) { e.Send? ==> e.dataSize <= INT32_MAX - COMMAND_SIZE }

  /** After the first k events the commands are aligned, inside the area, apart from each other,
      and wrapped at most once. */
  ghost predicate PlacedAfter(events: seq<RingEvent>, k: nat, areaSize: int)
    requires k <= |events|
  {
    var (cmds, turn) := RingAfter(events[..k], areaSize);
    Placed(cmds, turn, areaSize)
  }

  /** One event keeps the ring in order if and only if it sends no size that wraps around. */
  lemma RingStepIsSafe(cmds: seq<Command>, turn: nat, e: RingEvent, areaSize: nat)
    requires Placed(cmds, turn, areaSize) && areaSize % 4 == 0 && (e.Send? ==> IsInt32(e.dataSize))
    ensures var (c, t) := RingStep(cmds, turn, e, areaSize);
            Placed(c, t, areaSize) <==> SizeFits(e)
  {
    hide Apart, Align, PlaceFor, TurnAfter;
    var (r, t) := RingStep(cmds, turn, e, areaSize);
    match e
    case Take =>
      if cmds != [] {
        PlacedTail(cmds, turn, areaSize);
      }
    case Send(what, data, dataSize) =>
      if cmds != [] {
        PlacedChecked(cmds, turn, areaSize);
      }
      if !SizeFits(e) {
        NegativeSizeFindsPlace(cmds, turn, ToInt32(COMMAND_SIZE + dataSize), areaSize);
        assert r[|cmds|].size < 0;
      } else if r != cmds {
        PlacedAppend(cmds, turn, areaSize, r[|cmds|]);
      }
  }

  /** In a ring in order no command is found damaged. */
  lemma PlacedChecked(cmds: seq<Command>, turn: nat, areaSize: int)
    requires Placed(cmds, turn, areaSize) && cmds != []
    ensures Checked(cmds[0], areaSize) && Checked(cmds[|cmds| - 1], areaSize)
  {
    assert Fits(cmds[0], areaSize) && Fits(cmds[|cmds| - 1], areaSize);
  }

  /** The ring is in order throughout a run of senders and the consumer if and only if no size
      was sent that wraps around. */
  lemma RingRunsAreSafe(events: seq<RingEvent>, areaSize: nat)
    requires areaSize % 4 == 0 && forall e <- events :: e.Send? ==> IsInt32(e.dataSize)
    ensures (forall k: nat :: k <= |events| ==> PlacedAfter(events, k, areaSize)) <==> forall e <- events :: SizeFits(e)
  {
    hide Placed, RingStep, SizeFits;
    if forall e <- events :: SizeFits(e) {
      forall k: nat | k <= |events| ensures PlacedAfter(events, k, areaSize) {
        SafePrefix(events, k, areaSize);
      }
    }
    if forall k: nat :: k <= |events| ==> PlacedAfter(events, k, areaSize) {
      forall k: nat | k < |events| ensures SizeFits(events[k]) {
        assert PlacedAfter(events, k, areaSize) && PlacedAfter(events, k + 1, areaSize);
        PrefixStep(events, k, areaSize);
      }
    }
  }

  lemma {:induction false} SafePrefix(events: seq<RingEvent>, k: nat, areaSize: nat)
    requires areaSize % 4 == 0 && k <= |events|
    requires forall e <- events :: SizeFits(e) && (e.Send? ==> IsInt32(e.dataSize))
    ensures PlacedAfter(events, k, areaSize)
  {
    hide RingStep, SizeFits;
    if k > 0 {
      SafePrefix(events, k - 1, areaSize);
      assert events[k - 1] in events;
      PrefixStep(events, k - 1, areaSize);
    }
  }

  lemma PrefixStep(events: seq<RingEvent>, k: nat, areaSize: nat)
    requires areaSize % 4 == 0 && k < |events| && PlacedAfter(events, k, areaSize)
    requires events[k].Send? ==> IsInt32(events[k].dataSize)
    ensures PlacedAfter(events, k + 1, areaSize) <==> SizeFits(events[k])
  {
    hide Placed, RingStep, SizeFits;
    assert events[..k + 1][..k] == events[..k] && events[..k + 1][k] == events[k];
    var (cmds, turn) := RingAfter(events[..k], areaSize);
    RingStepIsSafe(cmds, turn, events[k], areaSize);
  }

  /** The least size that wraps around is accepted by the check, and sent into an empty ring it
      puts a command of negative size there. */
  lemma WrappingSendDamages()
    ensures var (cmds, turn) := RingAfter([Send(0, [], 0x7FFF_FFF4)], AREA_SIZE);
            && CheckCommandSize(0x7FFF_FFF4)
            && |cmds| == 1 && cmds[0].offset == HEADER_SIZE && cmds[0].size == -0x8000_0000
            && !Placed(cmds, turn, AREA_SIZE)
  {
    var send := Send(0, [], 0x7FFF_FFF4);
    assert RingAfter([send][..0], AREA_SIZE) == ([], 0);
    assert RingAfter([send], AREA_SIZE) == RingStep([], 0, send, AREA_SIZE);
  }

  /** Behind a damaged newest command nothing can be sent. */
  lemma DamagedRingRefuses(cmds: seq<Command>, turn: nat, what: int, data: seq<int>, dataSize: int, areaSize: int)
    requires cmds != [] && cmds[|cmds| - 1].size < COMMAND_SIZE
    ensures RingStep(cmds, turn, Send(what, data, dataSize), areaSize) == (cmds, turn)
  {
  }

  // ----- the area

  class MessagingArea {
    const id: int
    const header: array<int>  // the whole area, header and commands, in words
    var next: MessagingArea?
    var held: bool            // the service holds the area's lock
    ghost var commands: seq<Command>
    ghost var turn: nat

    ghost predicate Valid()
      reads this`commands, this`turn, header
    {
      4 * header.Length == AREA_SIZE && Layout(header[..], commands, turn)
    }

    /** The id of the next area as the consumer reads it. */
    ghost function NextId(): int
      requires Valid()
      reads this`commands, this`turn, header
    {
      header[NEXT_KERNEL_AREA]
    }

    /** MessagingArea::Create: a fresh area after InitHeader. */
    constructor (id: int)
      ensures Valid() && fresh(header) && this.id == id
      ensures commands == [] && next == null && held && NextId() == -1
    {
      this.id := id;
      header := new int[AREA_SIZE / 4];
      next, held := null, true;
      commands, turn := [], 0;
      new;
      InitHeader();
    }

    /** MessagingArea::InitHeader: the area is empty again, and locked. */
    method InitHeader()
      requires 4 * header.Length == AREA_SIZE && next == null
      modifies this`commands, this`turn, this`held, header
      ensures Valid() && commands == [] && held && NextId() == -1 && header[KERNEL_AREA] == id
    {
      held := true;
      header[KERNEL_AREA] := id;
      header[NEXT_KERNEL_AREA] := -1;
      header[COMMAND_COUNT] := 0;
      header[FIRST_COMMAND] := 0;
      header[LAST_COMMAND] := 0;
      commands, turn := [], 0;
    }

    method Lock()
      requires !held
      modifies this`held
      ensures held
    {
      held := true;
    }

    method Unlock()
      requires held
      modifies this`held
      ensures !held
    {
      held := false;
    }

    function IsEmpty(): (empty: bool)
      requires Valid()
      reads this`commands, this`turn, header
      ensures empty <==> commands == []
    {
      header[COMMAND_COUNT] == 0
    }

    /** MessagingArea::SetNextArea */
    method SetNextArea(area: MessagingArea?)
      requires Valid() && held
      modifies this`next, header
      ensures Valid() && next == area && NextId() == if area == null then 0 else area.id
    {
      ghost var m := header[..];
      next := area;
      Put(NEXT_KERNEL_AREA, if area == null then 0 else area.id);
      NextKeepsLayout(m, header[..], commands, turn);
      hide Layout;
    }

    /** The consumer takes the oldest command out of the ring. */
    method Pop() returns (what: int, size: int, data: seq<int>)
      requires Valid() && commands != [] && !held
      modifies this`commands, this`turn, header
      ensures Valid() && commands == old(commands)[1..] && NextId() == old(NextId())
      ensures var c := old(commands)[0]; what == c.what && size == c.size && data == c.data
    {
      hide Layout, Fits, Holds, Align, TurnPopped;
      ghost var m := header[..];
      FirstCommand(m, commands, turn);
      var first := header[FIRST_COMMAND] / 4;
      what, size := header[first + WHAT], header[first + SIZE];
      data := header[first + DATA..first + Align(size) / 4];
      Put(COMMAND_COUNT, header[COMMAND_COUNT] - 1);
      Put(FIRST_COMMAND, header[first + NEXT]);
      LayoutTail(m, header[..], commands, turn);
      turn := TurnPopped(commands, turn);
      commands := commands[1..];
    }

    /** memcpy into the area */
    method CopyWords(at: nat, words: seq<int>)
      requires at + |words| <= header.Length
      modifies header
      ensures header[..] == Spliced(old(header[..]), at, words)
    {
      ghost var m := header[..];
      var k := 0;
      while k < |words|
        invariant 0 <= k <= |words|
        invariant header[..] == Spliced(m, at, words[..k])
      {
        Put(at + k, words[k]);
        k := k + 1;
      }
      assert words[..k] == words;
    }

    /** The words that the sender copies into the newest command. */
    method WriteData(at: int, words: seq<int>)
      requires Valid() && held && commands != []
      requires var c := commands[|commands| - 1]; at == c.offset / 4 + DATA && |words| == |c.data|
      modifies this`commands, header
      ensures Valid() && NextId() == old(NextId())
      ensures var last := |commands| - 1;
              |commands| == |old(commands)| && commands[..last] == old(commands)[..last] &&
              commands[last] == old(commands)[last].(data := words)
    {
      hide Layout, Align, Fits, Spliced, Overwrites;
      ghost var m, last := header[..], |commands| - 1;
      ghost var c := commands[last];
      CommandFits(m, commands, turn, last);
      SplicedOverwrites(m, c, words);
      CopyWords(at, words);
      LayoutWrite(m, header[..], commands, turn, last, words);
      commands := commands[last := c.(data := words)];
    }

    /** MessagingArea::_CheckCommand: the size rounded, if there is a command at offset */
    method CheckCommand(offset: int) returns (ok: bool, size: int)
      requires 4 * header.Length == AREA_SIZE
      ensures ok <==> HEADER_SIZE <= offset && offset + COMMAND_SIZE <= AREA_SIZE && offset % 4 == 0 &&
                      header[offset / 4 + SIZE] >= COMMAND_SIZE
                          && offset + Align(header[offset / 4 + SIZE]) <= AREA_SIZE
      ensures ok ==> size == Align(header[offset / 4 + SIZE])
    {
      if offset < HEADER_SIZE || offset + COMMAND_SIZE > AREA_SIZE || offset % 4 != 0 {
        return false, 0;
      }
      size := header[offset / 4 + SIZE];
      if size < COMMAND_SIZE {
        return false, size;
      }
      size := Align(size);
      ok := offset + size <= AREA_SIZE;
    }

    /** The search for space in a ring that is not empty; nothing is ever "screwed up". */
    method FindPlace(size: int) returns (offset: int)
      requires Valid() && commands != []
      ensures offset == PlaceFor(commands, size, AREA_SIZE)
    {
      var first, last := header[FIRST_COMMAND], header[LAST_COMMAND];
      ghost var newest := commands[|commands| - 1];
      assert Fits(commands[0], AREA_SIZE) && Fits(newest, AREA_SIZE);
      assert Holds(header[..], commands[0]) && Holds(header[..], newest);
      var firstOk, firstSize := CheckCommand(first);
      var lastOk, lastSize := CheckCommand(last);
      assert firstOk && lastOk && last + lastSize == End(newest);
      if first <= last {
        if size <= AREA_SIZE - (last + lastSize) {
          return last + lastSize;
        }
        if size > first - HEADER_SIZE {
          return -1;
        }
        return HEADER_SIZE;
      }
      offset := last + lastSize;
      if size > first - offset {
        return -1;
      }
    }

    /** The words of the area are no ring, whatever commands one may look for. */
    ghost predicate Damaged()
      reads header
    {
      forall cmds, t :: !Layout(header[..], cmds, t)
    }

    /** MessagingArea::AllocateCommand: the word where the data of the new command starts. A size
        that wraps around is given a place, and damages the ring. */
    method AllocateCommand(what: int, dataSize: int) returns (data: int, wasEmpty: bool)
      requires Valid() && held && IsInt32(dataSize)
      modifies this`commands, this`turn, header
      ensures dataSize <= INT32_MAX - COMMAND_SIZE ==> Valid() && NextId() == old(NextId())
      ensures var place := PlaceFor(old(commands), ToInt32(COMMAND_SIZE + dataSize), AREA_SIZE);
              if dataSize > INT32_MAX - COMMAND_SIZE then
                && Damaged() && data == place / 4 + DATA > 0 && wasEmpty == (old(commands) == [])
                && commands == old(commands)
              else if dataSize < 0 || COMMAND_SIZE + dataSize > AREA_SIZE - HEADER_SIZE || place == -1 then
                data == -1 && commands == old(commands) && header[..] == old(header[..])
              else
                && |commands| == |old(commands)| + 1 && commands[..|old(commands)|] == old(commands)
                && var c := commands[|old(commands)|];
                && c.offset == place && data == place / 4 + DATA > 0
                && c.what == what && c.size == COMMAND_SIZE + dataSize && wasEmpty == (old(commands) == [])
    {
      hide ToInt32, Layout, PlaceFor, Placed, Valid, NextId, Damaged;
      CommandSizeIs(dataSize);
      var size := ToInt32(COMMAND_SIZE + dataSize);
      if dataSize < 0 || size > AREA_SIZE - HEADER_SIZE {
        return -1, false;
      }
      if size < 0 {
        WrappedFindsPlace(size);
      }
      var commandOffset := HEADER_SIZE;
      wasEmpty := IsEmpty();
      if !wasEmpty {
        commandOffset := FindPlace(size);
        if commandOffset == -1 {
          return -1, wasEmpty;
        }
      }
      LinkCommand(commandOffset, what, size);
      data := commandOffset / 4 + DATA;
    }

    lemma WrappedFindsPlace(size: int)
      requires Valid() && size < 0
      ensures PlaceFor(commands, size, AREA_SIZE) >= HEADER_SIZE
    {
      hide PlaceFor, Holds;
      NegativeSizeFindsPlace(commands, turn, size, AREA_SIZE);
    }

    /** The rest of AllocateCommand: a command of this size is put where the search said. */
    method LinkCommand(offset: int, what: int, size: int)
      requires Valid() && offset == PlaceFor(commands, size, AREA_SIZE) && offset != -1
      requires size < 0 || COMMAND_SIZE <= size <= AREA_SIZE - HEADER_SIZE
      modifies this`commands, this`turn, header
      ensures offset >= HEADER_SIZE
      ensures size < 0 ==> Damaged() && commands == old(commands)
      ensures size >= 0 ==>
                && Valid() && NextId() == old(NextId())
                && |commands| == |old(commands)| + 1 && commands[..|old(commands)|] == old(commands)
                && var c := commands[|old(commands)|]; c.offset == offset && c.what == what && c.size == size
    {
      hide Layout, PlaceFor, LinkedMemory, NewCommand, TurnAfter, Writable;
      ghost var m := header[..];
      if size < 0 {
        WrappedSizeDamages(m, commands, turn, offset, what, size);
      } else {
        LinkKeeps(m, commands, turn, offset, what, size);
      }
      WriteCommand(offset, what, size);
      if size >= 0 {
        NewCommandIs(m, offset, what, size);
        turn, commands := TurnAfter(commands, turn, offset), commands + [NewCommand(m, offset, what, size)];
      }
    }

    method Put(k: int, v: int)
      requires 0 <= k < header.Length
      modifies header
      ensures header[..] == old(header[..])[k := v]
    {
      header[k] := v;
    }

    /** A write that may lie beyond the area: what it does there is not modelled. */
    method PutInside(k: nat, v: int)
      modifies header
      ensures header[..] == Poke(old(header[..]), k, v)
    {
      if k < header.Length {
        header[k] := v;
      }
    }

    /** Update the header and the last command, and write the new command's header. */
    method WriteCommand(offset: int, what: int, size: int)
      requires Writable(header[..], offset)
      modifies header
      ensures header[..] == LinkedMemory(old(header[..]), offset, what, size)
    {
      if header[COMMAND_COUNT] == 0 {
        Put(FIRST_COMMAND, offset);
        Put(COMMAND_COUNT, header[COMMAND_COUNT] + 1);
      } else {
        var last := header[LAST_COMMAND] / 4;
        Put(COMMAND_COUNT, header[COMMAND_COUNT] + 1);
        Put(last + NEXT, offset);
      }
      Put(LAST_COMMAND, offset);
      PutInside(offset / 4 + NEXT, 0);
      PutInside(offset / 4 + WHAT, what);
      PutInside(offset / 4 + SIZE, size);
    }
  }
}
