/** The loader's reserved address ranges and the mappings inside them. */
module ReservedRanges {
  import opened IntervalSets
  import opened MappingSets

  /** The mappings of each range, in the order of the ranges. */
  type Mappings = seq<seq<RangeInfo>>

  ghost function MappedIn(maps: Mappings): iset<int> {
    iset x, r | 0 <= r < |maps| && x in Cover(maps[r]) :: x
  }

  /** What the mappings that begin before a cover from b on. */
  ghost function TailOf(m: seq<RangeInfo>, a: int, b: int): iset<int> {
    iset x, i | 0 <= i < |m| && m[i].address < a && x in Points(m[i]) && b <= x :: x
  }

  /** A mapping begins before a and ends after b. */
  ghost predicate Overhangs(m: seq<RangeInfo>, a: int, b: int) {
    exists i :: 0 <= i < |m| && m[i].address < a && b < End(m[i])
  }

  ghost predicate Consistent(keys: seq<RangeInfo>, maps: Mappings) {
    && |keys| == |maps|
    && Ordered(keys)
    && (forall r :: 0 <= r < |maps| ==> Separated(maps[r]) && Within(maps[r], keys[r].address, End(keys[r])))
  }

  // ----- the union over all ranges

  lemma MappedAppend(a: Mappings, b: Mappings)
    ensures MappedIn(a + b) == MappedIn(a) + MappedIn(b)
  {
    var c := a + b;
    forall x ensures x in MappedIn(c) <==> x in MappedIn(a) || x in MappedIn(b) {
      if x in MappedIn(a) {
        var i :| 0 <= i < |a| && x in Cover(a[i]);
        assert c[i] == a[i];
      }
      if x in MappedIn(b) {
        var i :| 0 <= i < |b| && x in Cover(b[i]);
        assert c[|a| + i] == b[i];
      }
      if x in MappedIn(c) {
        var i :| 0 <= i < |c| && x in Cover(c[i]);
        assert c[i] == if i < |a| then a[i] else b[i - |a|];
      }
    }
  }

  lemma MappedOne(m: seq<RangeInfo>)
    ensures MappedIn([m]) == Cover(m)
  {
    assert forall x :: x in Cover([m][0]) ==> x in MappedIn([m]);
  }

  /** Everything mapped outside range k. */
  ghost function Others(maps: Mappings, k: nat): iset<int>
    requires k < |maps|
  {
    MappedIn(maps[..k]) + MappedIn(maps[k + 1..])
  }

  lemma MappedReplace(maps: Mappings, k: nat, x: Mappings)
    requires k < |maps|
    ensures MappedIn(maps[..k] + x + maps[k + 1..]) == Others(maps, k) + MappedIn(x)
    ensures MappedIn(maps) == Others(maps, k) + Cover(maps[k])
  {
    MappedAppend(maps[..k] + x, maps[k + 1..]);
    MappedAppend(maps[..k], x);
    assert maps == maps[..k] + [maps[k]] + maps[k + 1..];
    MappedAppend(maps[..k] + [maps[k]], maps[k + 1..]);
    MappedAppend(maps[..k], [maps[k]]);
    MappedOne(maps[k]);
  }

  lemma CoverWithin(m: seq<RangeInfo>, lo: int, hi: int)
    requires Within(m, lo, hi)
    ensures forall x :: x in Cover(m) ==> lo <= x < hi
  {
  }

  /** Mappings of other ranges stay clear of range k. */
  lemma OthersApart(keys: seq<RangeInfo>, maps: Mappings, k: nat)
    requires Consistent(keys, maps) && k < |maps|
    ensures forall x :: x in Others(maps, k) ==> !Inside(x, keys[k].address, keys[k].size)
  {
    forall x | x in Others(maps, k) ensures !Inside(x, keys[k].address, keys[k].size) {
      if x in MappedIn(maps[..k]) {
        var r :| 0 <= r < |maps[..k]| && x in Cover(maps[..k][r]);
        assert maps[..k][r] == maps[r];
        CoverWithin(maps[r], keys[r].address, End(keys[r]));
      } else {
        var r :| 0 <= r < |maps[k + 1..]| && x in Cover(maps[k + 1..][r]);
        assert maps[k + 1..][r] == maps[k + 1 + r];
        CoverWithin(maps[k + 1 + r], keys[k + 1 + r].address, End(keys[k + 1 + r]));
      }
    }
  }

  /** Ranges and the set of mapped addresses determine the representation. */
  lemma RepresentationIsCanonical(keys: seq<RangeInfo>, a: Mappings, b: Mappings)
    requires Consistent(keys, a) && Consistent(keys, b) && MappedIn(a) == MappedIn(b)
    ensures a == b
  {
    forall k | 0 <= k < |a| ensures a[k] == b[k] {
      MappedReplace(a, k, []);
      MappedReplace(b, k, []);
      OthersApart(keys, a, k);
      OthersApart(keys, b, k);
      CoverWithin(a[k], keys[k].address, End(keys[k]));
      CoverWithin(b[k], keys[k].address, End(keys[k]));
      hide Cover, MappedIn, Others;
      forall x ensures x in Cover(a[k]) <==> x in Cover(b[k]) {
        assert x in MappedIn(a) <==> x in MappedIn(b);
        assert Inside(x, keys[k].address, keys[k].size) <==> keys[k].address <= x < End(keys[k]);
      }
      Canonical(a[k], b[k]);
    }
  }

  // ----- replacing ranges

  lemma ConsistentSlice(keys: seq<RangeInfo>, maps: Mappings, i: nat, j: nat)
    requires Consistent(keys, maps) && i <= j <= |keys|
    ensures Consistent(keys[i..j], maps[i..j])
  {
  }

  lemma ConsistentJoin(aKeys: seq<RangeInfo>, aMaps: Mappings, bKeys: seq<RangeInfo>, bMaps: Mappings)
    requires Consistent(aKeys, aMaps) && Consistent(bKeys, bMaps)
    requires aKeys != [] && bKeys != [] ==> End(aKeys[|aKeys| - 1]) <= bKeys[0].address
    ensures Consistent(aKeys + bKeys, aMaps + bMaps)
  {
    var keys, maps := aKeys + bKeys, aMaps + bMaps;
    forall i, j | 0 <= i < j < |keys| ensures End(keys[i]) <= keys[j].address {
      if i < |aKeys| <= j {
        assert End(aKeys[i]) <= End(aKeys[|aKeys| - 1]);
        assert bKeys[0].address <= bKeys[j - |aKeys|].address;
      }
    }
    forall r | 0 <= r < |keys| ensures Separated(maps[r]) && Within(maps[r], keys[r].address, End(keys[r])) {
      assert maps[r] == if r < |aKeys| then aMaps[r] else bMaps[r - |aKeys|];
      assert keys[r] == if r < |aKeys| then aKeys[r] else bKeys[r - |aKeys|];
    }
  }

  /** keys[p..q] may make way for other ranges that fit between its neighbours. */
  lemma ConsistentReplace(keys: seq<RangeInfo>, maps: Mappings, p: nat, q: nat, xKeys: seq<RangeInfo>, xMaps: Mappings)
    requires Consistent(keys, maps) && p <= q <= |keys| && Consistent(xKeys, xMaps)
    requires xKeys != [] && p > 0 ==> End(keys[p - 1]) <= xKeys[0].address
    requires xKeys != [] && q < |keys| ==> End(xKeys[|xKeys| - 1]) <= keys[q].address
    ensures Consistent(keys[..p] + xKeys + keys[q..], maps[..p] + xMaps + maps[q..])
  {
    ConsistentSlice(keys, maps, 0, p);
    ConsistentSlice(keys, maps, q, |keys|);
    assert keys[..p] == keys[0..p] && maps[..p] == maps[0..p] && keys[q..] == keys[q..|keys|]
           && maps[q..] == maps[q..|maps|];
    assert p > 0 && q < |keys| ==> End(keys[p - 1]) <= keys[q].address;
    assert xKeys == [] ==> keys[..p] + xKeys == keys[..p];
    assert p > 0 ==> keys[..p][p - 1] == keys[p - 1];
    ConsistentJoin(keys[..p], maps[..p], xKeys, xMaps);
    hide Consistent;
    ConsistentJoin(keys[..p] + xKeys, maps[..p] + xMaps, keys[q..], maps[q..]);
  }

  lemma OneRange(keys: seq<RangeInfo>, maps: Mappings, k: nat)
    requires Consistent(keys, maps) && k < |keys|
    ensures Separated(maps[k]) && Within(maps[k], keys[k].address, End(keys[k])) && 0 < keys[k].size <= SIZE_MAX
  {
  }

  lemma UpdateConsistent(keys: seq<RangeInfo>, maps: Mappings, k: nat, m: seq<RangeInfo>)
    requires Consistent(keys, maps) && k < |maps|
    requires Separated(m) && Within(m, keys[k].address, End(keys[k]))
    ensures Consistent(keys, maps[k := m])
  {
    hide Separated, Within;
  }

  lemma UpdateKeeps(keys: seq<RangeInfo>, maps: Mappings, k: nat, m: seq<RangeInfo>)
    requires Consistent(keys, maps) && k < |maps|
    requires Separated(m) && Within(m, keys[k].address, End(keys[k]))
    ensures Consistent(keys, maps[k := m])
    ensures MappedIn(maps[k := m]) == Others(maps, k) + Cover(m)
    ensures MappedIn(maps) == Others(maps, k) + Cover(maps[k])
  {
    UpdateConsistent(keys, maps, k, m);
    hide Consistent, MappedIn, Others, Cover, Separated, Within;
    assert maps[k := m] == maps[..k] + [m] + maps[k + 1..];
    MappedReplace(maps, k, [m]);
    MappedOne(m);
  }

  // ----- cutting the mappings of a range that loses a hole

  /** The first loop of loader_unregister_reserved_range: the mappings that begin before a,
      clipped to it. */
  method CutLeft(m: seq<RangeInfo>, a: int, ghost lo: int) returns (r: seq<RangeInfo>, it: nat)
    requires Separated(m) && forall i :: 0 <= i < |m| ==> lo <= m[i].address
    ensures it <= |m| && (forall i :: 0 <= i < |m| ==> (m[i].address < a <==> i < it))
    ensures Separated(r) && Within(r, lo, a)
    ensures forall x :: x in Cover(r) <==> x in Cover(m) && x < a
  {
    r, it := [], 0;
    while it < |m| && m[it].address < a
      invariant it <= |m| && |r| == it
      invariant forall i :: 0 <= i < it ==> m[i].address < a
      invariant forall i :: 0 <= i < it ==> r[i] == Clipped(m[i], a)
    {
      var size := if m[it].size < a - m[it].address then m[it].size else a - m[it].address;
      r := r + [RangeInfo(m[it].address, size)];
      it := it + 1;
    }
    ClippedCover(m, r, it, a);
  }

  function Clipped(o: RangeInfo, a: int): RangeInfo
    requires o.address < a
  {
    RangeInfo(o.address, if End(o) <= a then o.size else a - o.address)
  }

  lemma ClippedCover(m: seq<RangeInfo>, r: seq<RangeInfo>, it: nat, a: int)
    requires it == |r| <= |m| && forall i :: 0 <= i < it ==> m[i].address < a && r[i] == Clipped(m[i], a)
    requires forall i :: it <= i < |m| ==> a <= m[i].address
    ensures forall x :: x in Cover(r) <==> x in Cover(m) && x < a
  {
    forall x ensures x in Cover(r) <==> x in Cover(m) && x < a {
      if x in Cover(r) {
        var i :| 0 <= i < |r| && x in Points(r[i]);
        assert Inside(x, r[i].address, r[i].size) && x in Points(m[i]);
      }
      if x in Cover(m) && x < a {
        var i :| 0 <= i < |m| && x in Points(m[i]);
        assert Inside(x, m[i].address, m[i].size);
        assert i < it && x in Points(r[i]);
      }
    }
  }

  /** The second part: the mappings from `from` on that end after b, clipped to it. */
  method CutRight(m: seq<RangeInfo>, from: nat, b: int, ghost hi: int) returns (r: seq<RangeInfo>)
    requires Separated(m) && from <= |m| && forall i :: 0 <= i < |m| ==> End(m[i]) <= hi
    ensures Separated(r) && Within(r, b, hi)
    ensures forall x :: x in Cover(r) <==> x in Cover(m[from..]) && b <= x
  {
    hide Cover, Separated, Within;
    var it := from;
    while it < |m| && End(m[it]) <= b
      invariant from <= it <= |m|
      invariant forall i :: from <= i < it ==> End(m[i]) <= b
    {
      it := it + 1;
    }
    ghost var skip := it;
    EndsAfter(m, skip, b);
    r := [];
    while it < |m|
      invariant skip <= it <= |m| && |r| == it - skip
      invariant forall i :: 0 <= i < |r| ==> b < End(m[skip + i]) && r[i] == ClippedUp(m[skip + i], b)
    {
      var address := if m[it].address < b then b else m[it].address;
      r := r + [RangeInfo(address, End(m[it]) - address)];
      it := it + 1;
    }
    ClippedUpCover(m, r, from, skip, b);
    ClippedUpSeparated(m, r, skip, b, hi);
  }

  /** From the first mapping that ends after b on, all do. */
  lemma EndsAfter(m: seq<RangeInfo>, skip: nat, b: int)
    requires Separated(m) && skip <= |m| && (skip < |m| ==> b < End(m[skip]))
    ensures forall i :: skip <= i < |m| ==> b < End(m[i])
  {
    forall i | skip < i < |m| ensures b < End(m[i]) {
      assert End(m[skip]) < m[i].address;
    }
  }

  lemma ClippedUpSeparated(m: seq<RangeInfo>, r: seq<RangeInfo>, skip: nat, b: int, hi: int)
    requires Separated(m) && skip <= |m| && |r| == |m| - skip && forall i :: 0 <= i < |m| ==> End(m[i]) <= hi
    requires forall i :: 0 <= i < |r| ==> b < End(m[skip + i]) && r[i] == ClippedUp(m[skip + i], b)
    ensures Separated(r) && Within(r, b, hi)
  {
    forall i, j | 0 <= i < j < |r| ensures End(r[i]) < r[j].address {
      assert End(m[skip + i]) < m[skip + j].address;
    }
  }

  function ClippedUp(o: RangeInfo, b: int): RangeInfo
    requires b < End(o)
  {
    if o.address < b then RangeInfo(b, End(o) - b) else o
  }

  lemma ClippedUpCover(m: seq<RangeInfo>, r: seq<RangeInfo>, from: nat, skip: nat, b: int)
    requires from <= skip <= |m| && |r| == |m| - skip
    requires forall i :: from <= i < skip ==> End(m[i]) <= b
    requires forall i :: 0 <= i < |r| ==> b < End(m[skip + i]) && r[i] == ClippedUp(m[skip + i], b)
    ensures forall x :: x in Cover(r) <==> x in Cover(m[from..]) && b <= x
  {
    forall x ensures x in Cover(r) <==> x in Cover(m[from..]) && b <= x {
      if x in Cover(r) {
        var i :| 0 <= i < |r| && x in Points(r[i]);
        assert Inside(x, r[i].address, r[i].size);
        assert m[from..][i + skip - from] == m[skip + i];
        assert x in Points(m[skip + i]);
      }
      if x in Cover(m[from..]) && b <= x {
        var i :| 0 <= i < |m[from..]| && x in Points(m[from..][i]);
        assert m[from..][i] == m[from + i];
        assert Inside(x, m[from + i].address, m[from + i].size);
        var j := from + i - skip;
        assert j >= 0 ==> r[j] == ClippedUp(m[skip + j], b);
        assert x in Points(r[j]);
      }
    }
  }

  // ----- what callers may ask

  ghost predicate InReserved(keys: seq<RangeInfo>, a: int, n: nat) {
    exists k :: 0 <= k < |keys| && keys[k].address <= a && a + n <= End(keys[k])
  }

  /** [a, a + n) lies in one range and nothing in it is mapped. */
  ghost predicate Mappable(keys: seq<RangeInfo>, maps: Mappings, a: int, n: nat) {
    InReserved(keys, a, n) && MappedIn(maps) !! Interval(a, n)
  }

  /** The linear scan of the source's debug build. */
  ghost predicate ReallyCollides(keys: seq<RangeInfo>, a: int, n: nat) {
    exists k :: 0 <= k < |keys| &&
      ((keys[k].address <= a && End(keys[k]) > a) || (a <= keys[k].address && a + n > keys[k].address))
  }

  /** The range that begins last at or before a. */
  ghost predicate IsLastUpTo(keys: seq<RangeInfo>, k: nat, a: int) {
    && k < |keys| && keys[k].address <= a
    && forall i :: k < i < |keys| ==> a < keys[i].address
  }

  /** [a, a + n) can only lie in the range that begins last at or before a. */
  lemma OnlyThatRange(keys: seq<RangeInfo>, k: nat, a: int, n: nat)
    requires Ordered(keys) && IsLastUpTo(keys, k, a)
    ensures InReserved(keys, a, n) <==> a + n <= End(keys[k])
  {
    if InReserved(keys, a, n) {
      var i :| 0 <= i < |keys| && keys[i].address <= a && a + n <= End(keys[i]);
      assert i < k ==> End(keys[i]) <= keys[k].address;
    }
  }

  /** Within a range, unmapped means unmapped by that range's own mappings. */
  lemma MappedInRange(keys: seq<RangeInfo>, maps: Mappings, k: nat, x: int)
    requires Consistent(keys, maps) && k < |keys| && keys[k].address <= x < End(keys[k])
    ensures x in MappedIn(maps) <==> x in Cover(maps[k])
  {
    MappedReplace(maps, k, []);
    OthersApart(keys, maps, k);
    assert Inside(x, keys[k].address, keys[k].size);
    hide MappedIn, Others, Cover;
  }

  lemma MappableInRange(keys: seq<RangeInfo>, maps: Mappings, k: nat, a: int, n: nat)
    requires Consistent(keys, maps) && IsLastUpTo(keys, k, a)
    ensures Mappable(keys, maps, a, n) <==> a + n <= End(keys[k]) && Cover(maps[k]) !! Interval(a, n)
  {
    OnlyThatRange(keys, k, a, n);
    if a + n <= End(keys[k]) {
      forall x | Inside(x, a, n) ensures x in MappedIn(maps) <==> x in Cover(maps[k]) {
        MappedInRange(keys, maps, k, x);
      }
      hide MappedIn, Cover;
    }
  }

  /** Up to the first mapping after a (or the end of the range) everything is free, and no
      further, provided the mappings before it end at or before a. */
  lemma FreeUpTo(m: seq<RangeInfo>, it: nat, a: int, hi: int, n: nat)
    requires Separated(m) && it <= |m| && Within(m, hi - SIZE_MAX, hi) && a <= hi
    requires forall i :: 0 <= i < it ==> m[i].address <= a
    requires forall i :: it <= i < |m| ==> a < m[i].address
    ensures var free := if it > 0 && End(m[it - 1]) > a then 0 else (if it < |m| then m[it].address else hi) - a;
            a + n <= hi && Cover(m) !! Interval(a, n) <==> n <= free
  {
    var free := if it > 0 && End(m[it - 1]) > a then 0 else (if it < |m| then m[it].address else hi) - a;
    if n <= free && n > 0 {
      forall x | x in Cover(m) ensures !Inside(x, a, n) {
        var i :| 0 <= i < |m| && x in Points(m[i]);
        assert Inside(x, m[i].address, m[i].size);
        assert i < it - 1 ==> End(m[i]) < m[it - 1].address;
        assert i > it ==> m[it].address <= m[i].address;
      }
    }
    if a + n <= hi && Cover(m) !! Interval(a, n) && n > 0 {
      Apart(m, a, n);
      assert it > 0 ==> m[it - 1].address <= a;
    }
  }

  class RangeTable {
    var keys: seq<RangeInfo>
    var maps: Mappings

    ghost predicate Valid()
      reads this
    {
      Consistent(keys, maps)
    }

    /** The reserved addresses. */
    ghost function Reserved(): iset<int>
      reads this
    {
      Cover(keys)
    }

    /** The mapped addresses. */
    ghost function Mapped(): iset<int>
      reads this
    {
      MappedIn(maps)
    }

    constructor ()
      ensures Valid() && keys == [] && maps == []
    {
      keys, maps := [], [];
    }

    /** upper_bound(address) stepped back by one */
    method LastUpTo(a: int) returns (k: nat, found: bool)
      requires Valid()
      ensures found ==> IsLastUpTo(keys, k, a)
      ensures !found ==> forall i :: 0 <= i < |keys| ==> a < keys[i].address
    {
      var it := UpperBound(keys, a);
      if it == 0 {
        return 0, false;
      }
      return it - 1, true;
    }

    /** loader_is_in_reserved_range */
    method IsInReservedRange(a: int, n: nat) returns (b: bool)
      requires Valid()
      ensures b <==> InReserved(keys, a, n)
    {
      var k, found := LastUpTo(a);
      if !found {
        return false;
      }
      OnlyThatRange(keys, k, a, n);
      return keys[k].address <= a && a + n <= End(keys[k]);
    }

    /** loader_collides_with_reserved_range */
    method Collides(a: int, n: nat) returns (collides: bool)
      requires Valid()
      ensures collides <==> ReallyCollides(keys, a, n)
    {
      collides := false;
      var after := UpperBound(keys, a);
      if after != |keys| {
        if a + n > keys[after].address {
          collides := true;
        }
      }
      if after != 0 {
        if a < End(keys[after - 1]) {
          collides := true;
        }
      }
      if ReallyCollides(keys, a, n) {
        var k :| 0 <= k < |keys| &&
          ((keys[k].address <= a && End(keys[k]) > a) || (a <= keys[k].address && a + n > keys[k].address));
        assert k + 1 < after ==> End(keys[k]) <= keys[after - 1].address;
        assert k > after ==> End(keys[after]) <= keys[k].address;
      }
    }

    /** loader_reserved_range_longest_mappable_from: the greatest n up to maxSize for which
        [a, a + n) can be mapped. */
    method LongestMappableFrom(a: int, maxSize: nat) returns (n: nat)
      requires Valid() && InReserved(keys, a, 0)
      ensures n <= maxSize
      ensures forall k: nat :: k <= maxSize ==> (k <= n <==> Mappable(keys, maps, a, k))
    {
      n := 0;
      var r, found := LastUpTo(a);
      if !found {
        return;
      }
      OnlyThatRange(keys, r, a, 0);
      forall k: nat ensures Mappable(keys, maps, a, k) <==> a + k <= End(keys[r]) && Cover(maps[r]) !! Interval(a, k) {
        MappableInRange(keys, maps, r, a, k);
      }
      var m := maps[r];
      var rest := End(keys[r]) - a;
      var it := UpperBound(m, a);
      forall k: nat
        ensures a + k <= End(keys[r]) && Cover(m) !! Interval(a, k)
                <==> k <= if it > 0 && End(m[it - 1]) > a then 0
                          else (if it < |m| then m[it].address else End(keys[r])) - a
      {
        FreeUpTo(m, it, a, End(keys[r]), k);
      }
      hide Cover, Mappable;
      if m == [] {
        return if maxSize < rest then maxSize else rest;
      }
      if it == 0 {
        var gap := m[0].address - a;
        return if maxSize < gap then maxSize else gap;
      }
      it := it - 1;
      if End(m[it]) > a {
        return 0;
      }
      it := it + 1;
      if it == |m| {
        return if maxSize < rest then maxSize else rest;
      }
      var gap := m[it].address - a;
      n := if maxSize < gap then maxSize else gap;
    }

    /** loader_register_reserved_range */
    method Register(a: int, n: nat)
      requires Valid() && 0 < n <= SIZE_MAX && Cover(keys) !! Interval(a, n)
      modifies this
      ensures Valid()
      ensures Reserved() == old(Reserved()) + Interval(a, n)
      ensures Mapped() == old(Mapped())
      ensures InReserved(keys, a, n)
    {
      Apart(keys, a, n);
      var it := UpperBound(keys, a);
      assert forall i :: 0 <= i < it ==> End(keys[i]) <= a;
      assert forall i :: it <= i < |keys| ==> a + n <= keys[i].address;
      RegisterKeeps(keys, maps, it, a, n);
      hide Consistent, Cover, MappedIn;
      keys := keys[..it] + [RangeInfo(a, n)] + keys[it..];
      maps := maps[..it] + [[]] + maps[it..];
      // the assertions of the source about the neighbours
      assert it == 0 || keys[it].address >= End(keys[it - 1]);
      assert it == |keys| - 1 || End(keys[it]) <= keys[it + 1].address;
      assert keys[it] == RangeInfo(a, n);
    }

    /** loader_map_reserved_range */
    method Map(a: int, n: nat)
      requires Valid() && 0 < n && Mappable(keys, maps, a, n)
      modifies this`maps
      ensures Valid()
      ensures Mapped() == old(Mapped()) + Interval(a, n)
    {
      var k, found := LastUpTo(a);
      assert found;
      MappableInRange(keys, maps, k, a, n);
      OneRange(keys, maps, k);
      hide Cover, MappedIn, Others, Consistent;
      var m := MapInto(maps[k], a, n, keys[k].address, End(keys[k]));
      maps := maps[k := m];
      UpdateKeeps(keys, old(maps), k, m);
    }

    /** loader_unmap_reserved_range */
    method Unmap(a: int, n: nat)
      requires Valid() && 0 < n && InReserved(keys, a, n)
      modifies this`maps
      ensures Valid()
      ensures Mapped() == old(Mapped()) - Interval(a, n)
    {
      var k, found := LastUpTo(a);
      assert found;
      OnlyThatRange(keys, k, a, n);
      OthersMissInterval(keys, maps, k, a, n);
      OneRange(keys, maps, k);
      hide Cover, MappedIn, Others, Consistent;
      var m := UnmapFrom(maps[k], a, a + n, keys[k].address, End(keys[k]));
      maps := maps[k := m];
      UpdateKeeps(keys, old(maps), k, m);
    }

    /** Mapping a free interval and unmapping it again restores the very same sets. */
    method MapThenUnmap(a: int, n: nat)
      requires Valid() && 0 < n && Mappable(keys, maps, a, n)
      modifies this`maps
      ensures Valid() && maps == old(maps)
    {
      Map(a, n);
      Unmap(a, n);
      RepresentationIsCanonical(keys, maps, old(maps));
    }

    /** loader_unregister_reserved_range: the hole leaves the range and its mappings, but so
        does, on the far side of the hole, the rest of a mapping that overhangs both sides. */
    method Unregister(a: int, n: nat)
      requires Valid() && 0 < n && InReserved(keys, a, n)
      modifies this
      ensures Valid()
      ensures Reserved() == old(Reserved()) - Interval(a, n)
      ensures Mapped() == old(Mapped()) - Interval(a, n) - LostBy(old(maps), a, a + n)
      ensures Mapped() == old(Mapped()) - Interval(a, n) <==> !OverhangsSome(old(maps), a, a + n)
    {
      var k, found := LastUpTo(a);
      assert found;
      OnlyThatRange(keys, k, a, n);
      var newKeys, newMaps := CutHole(keys[k], maps[k], a, n);
      UnregisterKeeps(keys, maps, k, a, n, newKeys, newMaps);
      LossMeansOverhang(maps, a, a + n);
      hide Consistent, MappedIn, Cover, LostBy, OverhangsSome;
      keys := keys[..k] + newKeys + keys[k + 1..];
      maps := maps[..k] + newMaps + maps[k + 1..];
    }
  }

  /** What unregistering the hole [a, b) loses beyond the hole. */
  ghost function LostBy(maps: Mappings, a: int, b: int): iset<int> {
    iset x, r | 0 <= r < |maps| && x in TailOf(maps[r], a, b) :: x
  }

  ghost predicate OverhangsSome(maps: Mappings, a: int, b: int) {
    exists r :: 0 <= r < |maps| && Overhangs(maps[r], a, b)
  }

  lemma RegisterKeeps(keys: seq<RangeInfo>, maps: Mappings, it: nat, a: int, n: nat)
    requires Consistent(keys, maps) && it <= |keys| && 0 < n <= SIZE_MAX
    requires forall i :: 0 <= i < it ==> End(keys[i]) <= a
    requires forall i :: it <= i < |keys| ==> a + n <= keys[i].address
    ensures var newKeys, newMaps := keys[..it] + [RangeInfo(a, n)] + keys[it..], maps[..it] + [[]] + maps[it..];
            && Consistent(newKeys, newMaps) && Cover(newKeys) == Cover(keys) + Interval(a, n)
            && MappedIn(newMaps) == MappedIn(maps)
  {
    var x := RangeInfo(a, n);
    assert Consistent([x], [[]]);
    ConsistentReplace(keys, maps, it, it, [x], [[]]);
    hide Consistent;
    ReplacedCover(keys, it, it, [x]);
    CoverOne(x);
    EmptyCover([]);
    assert keys[it..it] == [];
    assert Points(x) == Interval(a, n);
    hide Cover, Points;
    InsertEmpty(maps, it);
  }

  lemma InsertEmpty(maps: Mappings, it: nat)
    requires it <= |maps|
    ensures MappedIn(maps[..it] + [[]] + maps[it..]) == MappedIn(maps)
  {
    hide Cover, MappedIn;
    MappedAppend(maps[..it] + [[]], maps[it..]);
    MappedAppend(maps[..it], [[]]);
    MappedOne([]);
    EmptyCover([]);
    assert maps == maps[..it] + maps[it..];
    MappedAppend(maps[..it], maps[it..]);
  }

  lemma OthersMissInterval(keys: seq<RangeInfo>, maps: Mappings, k: nat, a: int, n: nat)
    requires Consistent(keys, maps) && k < |keys| && keys[k].address <= a && a + n <= End(keys[k])
    ensures Others(maps, k) !! Interval(a, n)
  {
    OthersApart(keys, maps, k);
    assert forall x :: Inside(x, a, n) ==> Inside(x, keys[k].address, keys[k].size);
    hide Others;
  }

  /** The half of the range before its hole at a, and how many mappings begin there. */
  method CutHoleLeft(oldRange: RangeInfo, m: seq<RangeInfo>, a: int)
      returns (keys: seq<RangeInfo>, maps: Mappings, it: nat)
    requires Separated(m) && Within(m, oldRange.address, End(oldRange))
    requires oldRange.address <= a <= End(oldRange) && oldRange.size <= SIZE_MAX
    ensures keys == (if oldRange.address < a then [RangeInfo(oldRange.address, a - oldRange.address)] else [])
    ensures Consistent(keys, maps)
    ensures it <= |m| && (forall i :: 0 <= i < |m| ==> (m[i].address < a <==> i < it))
    ensures forall x :: x in MappedIn(maps) <==> x in Cover(m) && x < a
  {
    CoverWithin(m, oldRange.address, End(oldRange));
    hide Cover;
    if oldRange.address < a {
      var left;
      left, it := CutLeft(m, a, oldRange.address);
      MappedOne(left);
      return [RangeInfo(oldRange.address, a - oldRange.address)], [left], it;
    }
    return [], [], 0;
  }

  /** The half of the range after its hole, which ends at b. */
  method CutHoleRight(oldRange: RangeInfo, m: seq<RangeInfo>, it: nat, ghost a: int, b: int)
      returns (keys: seq<RangeInfo>, maps: Mappings)
    requires Separated(m) && Within(m, oldRange.address, End(oldRange))
    requires oldRange.address <= b <= End(oldRange) && oldRange.size <= SIZE_MAX
    requires it <= |m| && (forall i :: 0 <= i < |m| ==> (m[i].address < a <==> i < it))
    ensures keys == (if End(oldRange) > b then [RangeInfo(b, End(oldRange) - b)] else [])
    ensures Consistent(keys, maps)
    ensures forall x :: x in MappedIn(maps) <==> x in Cover(m) && b <= x && x !in TailOf(m, a, b)
  {
    CoverWithin(m, oldRange.address, End(oldRange));
    TailSplit(m, it, a, b);
    hide Cover, TailOf;
    if End(oldRange) > b {
      var right := CutRight(m, it, b, End(oldRange));
      MappedOne(right);
      return [RangeInfo(b, End(oldRange) - b)], [right];
    }
    return [], [];
  }

  /** Both halves of a range around its hole, with their mappings. */
  method CutHole(oldRange: RangeInfo, m: seq<RangeInfo>, a: int, n: nat)
      returns (newKeys: seq<RangeInfo>, newMaps: Mappings)
    requires Separated(m) && Within(m, oldRange.address, End(oldRange)) && oldRange.size <= SIZE_MAX
    requires 0 < n && oldRange.address <= a && a + n <= End(oldRange)
    ensures newKeys == Pieces(oldRange, a, a + n) && Consistent(newKeys, newMaps)
    ensures MappedIn(newMaps) == Cover(m) - Interval(a, n) - TailOf(m, a, a + n)
  {
    hide Cover, TailOf, MappedIn, Consistent, Separated, Within;
    var leftKeys, leftMaps, it := CutHoleLeft(oldRange, m, a);
    var rightKeys, rightMaps := CutHoleRight(oldRange, m, it, a, a + n);
    newKeys := leftKeys + rightKeys;
    newMaps := leftMaps + rightMaps;
    TailIsLate(m, a, a + n);
    ConsistentJoin(leftKeys, leftMaps, rightKeys, rightMaps);
    MappedAppend(leftMaps, rightMaps);
    forall x ensures x in MappedIn(newMaps) <==> x in Cover(m) - Interval(a, n) - TailOf(m, a, a + n) {
      assert Inside(x, a, n) <==> a <= x < a + n;
    }
  }

  lemma TailIsLate(m: seq<RangeInfo>, a: int, b: int)
    ensures forall x :: x in TailOf(m, a, b) ==> b <= x && x in Cover(m)
  {
  }

  /** From b on, a mapping that begins at or after a, or the tail of an earlier one. */
  lemma TailSplit(m: seq<RangeInfo>, it: nat, a: int, b: int)
    requires Separated(m) && it <= |m| && forall i :: 0 <= i < |m| ==> (m[i].address < a <==> i < it)
    ensures forall x :: b <= x ==> (x in Cover(m[it..]) <==> x in Cover(m) && x !in TailOf(m, a, b))
  {
    forall x | b <= x ensures x in Cover(m[it..]) <==> x in Cover(m) && x !in TailOf(m, a, b) {
      if x in Cover(m[it..]) {
        var i :| 0 <= i < |m[it..]| && x in Points(m[it..][i]);
        assert m[it..][i] == m[it + i];
        assert Inside(x, m[it + i].address, m[it + i].size);
        forall j | 0 <= j < it ensures x !in Points(m[j]) {
          assert End(m[j]) < m[it + i].address;
        }
      }
      if x in Cover(m) && x !in TailOf(m, a, b) {
        var i :| 0 <= i < |m| && x in Points(m[i]);
        assert it <= i && m[it..][i - it] == m[i];
      }
    }
  }

  lemma UnregisterKeeps(keys: seq<RangeInfo>, maps: Mappings, k: nat, a: int, n: nat, newKeys: seq<RangeInfo>,
                        newMaps: Mappings)
    requires Consistent(keys, maps) && k < |keys| && 0 < n && keys[k].address <= a && a + n <= End(keys[k])
    requires newKeys == Pieces(keys[k], a, a + n) && Consistent(newKeys, newMaps)
    requires MappedIn(newMaps) == Cover(maps[k]) - Interval(a, n) - TailOf(maps[k], a, a + n)
    ensures var ks, ms := keys[..k] + newKeys + keys[k + 1..], maps[..k] + newMaps + maps[k + 1..];
            && Consistent(ks, ms)
            && Cover(ks) == Cover(keys) - Interval(a, n)
            && MappedIn(ms) == MappedIn(maps) - Interval(a, n) - LostBy(maps, a, a + n)
  {
    hide Cover, MappedIn, Consistent, Others, TailOf, LostBy, Pieces;
    RangeInTable(keys, maps, k);
    RangeReplaced(keys, maps, k, a, n, newKeys, newMaps);
    KeysLoseHole(keys, k, a, n);
    MappedReplace(maps, k, newMaps);
    OthersMissInterval(keys, maps, k, a, n);
    LostIsTail(keys, maps, k, a, a + n);
    OthersApart(keys, maps, k);
    TailIsLate(maps[k], a, a + n);
  }

  lemma RangeInTable(keys: seq<RangeInfo>, maps: Mappings, k: nat)
    requires Consistent(keys, maps) && k < |keys|
    ensures |maps| == |keys| && Ordered(keys)
    ensures forall x :: x in Cover(maps[k]) ==> Inside(x, keys[k].address, keys[k].size)
  {
    hide Cover;
    CoverWithin(maps[k], keys[k].address, End(keys[k]));
  }

  /** The remaining pieces of a range take its place. */
  lemma RangeReplaced(keys: seq<RangeInfo>, maps: Mappings, k: nat, a: int, n: nat, newKeys: seq<RangeInfo>,
                      newMaps: Mappings)
    requires Consistent(keys, maps) && k < |keys| && 0 < n && keys[k].address <= a && a + n <= End(keys[k])
    requires newKeys == Pieces(keys[k], a, a + n) && Consistent(newKeys, newMaps)
    ensures Consistent(keys[..k] + newKeys + keys[k + 1..], maps[..k] + newMaps + maps[k + 1..])
  {
    hide MappedIn, Separated, Within;
    assert newKeys != [] ==> keys[k].address <= newKeys[0].address && End(newKeys[|newKeys| - 1]) <= End(keys[k]);
    ConsistentReplace(keys, maps, k, k + 1, newKeys, newMaps);
  }

  lemma KeysLoseHole(keys: seq<RangeInfo>, k: nat, a: int, n: nat)
    requires Ordered(keys) && k < |keys| && 0 < n && keys[k].address <= a && a + n <= End(keys[k])
    ensures Cover(keys[..k] + Pieces(keys[k], a, a + n) + keys[k + 1..]) == Cover(keys) - Interval(a, n)
  {
    ReplacedCover(keys, k, k + 1, Pieces(keys[k], a, a + n));
    PiecesCover(keys[k], a, a + n);
    assert keys[k..k + 1] == [keys[k]];
    CoverOne(keys[k]);
    CoverUntouched(keys[..k], a, a + n);
    CoverUntouched(keys[k + 1..], a, a + n);
    hide Cover, Pieces;
  }

  /** Only the range with the hole can lose anything. */
  lemma LostIsTail(keys: seq<RangeInfo>, maps: Mappings, k: nat, a: int, b: int)
    requires Consistent(keys, maps) && k < |keys| && a < b && keys[k].address <= a && b <= End(keys[k])
    ensures LostBy(maps, a, b) == TailOf(maps[k], a, b)
  {
    forall x, r | 0 <= r < |maps| && x in TailOf(maps[r], a, b) ensures r == k {
      var i :| 0 <= i < |maps[r]| && maps[r][i].address < a && x in Points(maps[r][i]) && b <= x;
      assert Inside(x, maps[r][i].address, maps[r][i].size);
    }
    assert forall x :: x in TailOf(maps[k], a, b) ==> x in LostBy(maps, a, b);
  }

  /** Losing something takes a mapping that overhangs both sides, and such a mapping loses. */
  lemma LossMeansOverhang(maps: Mappings, a: int, b: int)
    requires a < b
    ensures var kept := MappedIn(maps) - Interval(a, b - a);
            kept - LostBy(maps, a, b) == kept <==> !OverhangsSome(maps, a, b)
  {
    var kept := MappedIn(maps) - Interval(a, b - a);
    if OverhangsSome(maps, a, b) {
      var r :| 0 <= r < |maps| && Overhangs(maps[r], a, b);
      var i :| 0 <= i < |maps[r]| && maps[r][i].address < a && b < End(maps[r][i]);
      assert Inside(b, maps[r][i].address, maps[r][i].size) && b in Points(maps[r][i]);
      assert b in Cover(maps[r]) && b in TailOf(maps[r], a, b);
      assert b in kept && b in LostBy(maps, a, b) by { assert !Inside(b, a, b - a); }
    }
    forall x | x in LostBy(maps, a, b) ensures OverhangsSome(maps, a, b) {
      var r :| 0 <= r < |maps| && x in TailOf(maps[r], a, b);
      var i :| 0 <= i < |maps[r]| && maps[r][i].address < a && x in Points(maps[r][i]) && b <= x;
      assert Inside(x, maps[r][i].address, maps[r][i].size);
      assert Overhangs(maps[r], a, b);
    }
  }

  /** Unregistering [20, 30) of a range with [10, 60) mapped forgets that [30, 60) is mapped. */
  lemma UnregisterForgets()
    ensures var maps := [[RangeInfo(10, 50)]];
            OverhangsSome(maps, 20, 30) && 45 in MappedIn(maps) && 45 !in Interval(20, 10) && 45 in LostBy(maps, 20, 30)
  {
    var m := [RangeInfo(10, 50)];
    assert Inside(45, 10, 50) && m[0].address < 20 && 45 in Points(m[0]);
    assert 45 in Cover(m) && 45 in TailOf(m, 20, 30) && Overhangs(m, 20, 30);
    assert [m][0] == m;
  }
}
