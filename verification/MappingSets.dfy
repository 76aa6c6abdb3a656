/** The mappings of one reserved range: adding, removing and cutting intervals in place. */
module MappingSets {
  import opened IntervalSets

  /** An interval disjoint from all of m lies before or after each of its members. */
  lemma Apart(m: seq<RangeInfo>, a: int, n: nat)
    requires SizesFit(m) && 0 < n && Cover(m) !! Interval(a, n)
    ensures forall i :: 0 <= i < |m| ==> End(m[i]) <= a || a + n <= m[i].address
  {
    forall i | 0 <= i < |m| ensures End(m[i]) <= a || a + n <= m[i].address {
      assert m[i].address in Points(m[i]) && m[i].address in Cover(m);
      assert Inside(a, a, n) && a in Interval(a, n);
      assert a in Points(m[i]) ==> a in Cover(m);
    }
  }

  /** insert() puts x where the order says, once that place is known. */
  method InsertAt(m: seq<RangeInfo>, x: RangeInfo, ghost k: nat) returns (r: seq<RangeInfo>)
    requires k <= |m|
    requires forall i :: 0 <= i < k ==> Less(m[i], x)
    requires k < |m| ==> !Less(m[k], x)
    ensures r == m[..k] + [x] + m[k..]
  {
    var at;
    r, at := InsertInto(m, x);
    assert at == k;
  }

  /** m with m[p..q] replaced by x */
  ghost function Replaced(m: seq<RangeInfo>, p: nat, q: nat, x: seq<RangeInfo>): seq<RangeInfo>
    requires p <= q <= |m|
  {
    m[..p] + x + m[q..]
  }

  lemma ReplacedCover(m: seq<RangeInfo>, p: nat, q: nat, x: seq<RangeInfo>)
    requires p <= q <= |m|
    ensures Cover(Replaced(m, p, q, x)) == Cover(m[..p]) + Cover(x) + Cover(m[q..])
    ensures Cover(m) == Cover(m[..p]) + Cover(m[p..q]) + Cover(m[q..])
  {
    hide Cover;
    CoverAppend(m[..p] + x, m[q..]);
    CoverAppend(m[..p], x);
    CoverSplit(m, q);
    assert m[..q] == m[..p] + m[p..q];
    CoverAppend(m[..p], m[p..q]);
  }

  lemma ReplacedSeparated(m: seq<RangeInfo>, p: nat, q: nat, x: seq<RangeInfo>, lo: int, hi: int)
    requires p <= q <= |m| && Separated(m) && Within(m, lo, hi) && Separated(x) && Within(x, lo, hi)
    requires x != [] && p > 0 ==> End(m[p - 1]) < x[0].address
    requires x != [] && q < |m| ==> End(x[|x| - 1]) < m[q].address
    ensures Separated(Replaced(m, p, q, x)) && Within(Replaced(m, p, q, x), lo, hi)
  {
    SeparatedSlice(m, 0, p, lo, hi);
    SeparatedSlice(m, q, |m|, lo, hi);
    assert m[..p] == m[0..p] && m[q..] == m[q..|m|];
    assert p > 0 && q < |m| ==> End(m[p - 1]) < m[q].address;
    SeparatedJoin(m[..p], x, lo, hi);
    assert p > 0 ==> m[..p][p - 1] == m[p - 1];
    assert x == [] ==> m[..p] + x == m[..p];
    hide Separated;
    SeparatedJoin(m[..p] + x, m[q..], lo, hi);
  }

  /** x takes the place of m[p..q]: the new mapping [a, a + n), merged with the member that
      ends at a (if p < at) and with the one that starts at a + n (if at < q). */
  ghost predicate Merges(m: seq<RangeInfo>, p: nat, at: nat, q: nat, x: RangeInfo, a: int, n: nat) {
    && p <= at <= q <= |m| && at - p <= 1 && q - at <= 1
    && (if p < at then x.address == m[p].address && End(m[p]) == a else x.address == a)
    && (if at < q then End(x) == End(m[at]) && m[at].address == a + n else End(x) == a + n)
    && (p > 0 ==> End(m[p - 1]) < x.address)
    && (q < |m| ==> End(x) < m[q].address)
  }

  /** The new mapping, grown by the neighbours it touches, and where it goes. */
  method MergeNeighbours(m: seq<RangeInfo>, a: int, n: nat)
    returns (newMapping: RangeInfo, it: nat, deletePrev: bool, deleteNext: bool)
    requires Separated(m) && 0 < n
    requires forall i :: 0 <= i < |m| ==> End(m[i]) <= a || a + n <= m[i].address
    ensures it <= |m| && (deletePrev ==> it > 0) && (deleteNext ==> it < |m|)
    ensures Merges(m, if deletePrev then it - 1 else it, it, if deleteNext then it + 1 else it, newMapping, a, n)
    ensures forall i :: 0 <= i < it ==> Less(m[i], newMapping)
    ensures it < |m| ==> !Less(m[it], newMapping)
  {
    newMapping := RangeInfo(a, n);
    deleteNext, deletePrev := false, false;
    it := UpperBound(m, a);
    if it < |m| && m[it].address == a + n {
      newMapping := RangeInfo(newMapping.address, newMapping.size + m[it].size);
      deleteNext := true;
    }
    if it != 0 && End(m[it - 1]) == a {
      newMapping := RangeInfo(m[it - 1].address, newMapping.size + m[it - 1].size);
      deletePrev := true;
    }
  }

  method MergeInsert(m: seq<RangeInfo>, a: int, n: nat)
    returns (r: seq<RangeInfo>, ghost p: nat, ghost at: nat, ghost q: nat, ghost x: RangeInfo)
    requires Separated(m) && 0 < n
    requires forall i :: 0 <= i < |m| ==> End(m[i]) <= a || a + n <= m[i].address
    ensures Merges(m, p, at, q, x, a, n) && r == Replaced(m, p, q, [x])
  {
    if m == [] {
      return [RangeInfo(a, n)], 0, 0, 0, RangeInfo(a, n);
    }
    hide Separated, Merges, Replaced, Less;
    var newMapping, it, deletePrev, deleteNext := MergeNeighbours(m, a, n);
    x := newMapping;
    p, at, q := if deletePrev then it - 1 else it, it, if deleteNext then it + 1 else it;
    r := InsertAt(m, newMapping, it);
    r := DropMerged(m, r, it, deletePrev, deleteNext, newMapping);
  }

  /** Erase the neighbours that went into the mapping inserted at `it`. */
  method DropMerged(ghost m: seq<RangeInfo>, inserted: seq<RangeInfo>, it: nat, deletePrev: bool, deleteNext: bool,
                    ghost x: RangeInfo)
    returns (r: seq<RangeInfo>)
    requires it <= |m| && inserted == m[..it] + [x] + m[it..]
    requires (deletePrev ==> it > 0) && (deleteNext ==> it < |m|)
    ensures r == Replaced(m, if deletePrev then it - 1 else it, if deleteNext then it + 1 else it, [x])
  {
    r := inserted;
    if deleteNext {
      r := r[..it + 1] + r[it + 2..];
    }
    ghost var rest := if deleteNext then m[it + 1..] else m[it..];
    assert r == m[..it] + [x] + rest;
    if deletePrev {
      r := r[..it - 1] + r[it..];
      assert r == m[..it - 1] + [x] + rest;
    }
  }

  /** The insertion half of loader_map_reserved_range: add [a, a + n), merging it with the
      mappings it touches. */
  method MapInto(m: seq<RangeInfo>, a: int, n: nat, ghost lo: int, ghost hi: int) returns (r: seq<RangeInfo>)
    requires Separated(m) && Within(m, lo, hi) && hi - lo <= SIZE_MAX
    requires 0 < n && lo <= a && a + n <= hi && Cover(m) !! Interval(a, n)
    ensures Separated(r) && Within(r, lo, hi)
    ensures Cover(r) == Cover(m) + Interval(a, n)
  {
    Apart(m, a, n);
    ghost var p, at, q, x;
    r, p, at, q, x := MergeInsert(m, a, n);
    MergedCover(m, p, at, q, x, a, n);
    assert Separated([x]) && Within([x], lo, hi);
    hide Cover;
    ReplacedSeparated(m, p, q, [x], lo, hi);
  }

  lemma MergedCover(m: seq<RangeInfo>, p: nat, it: nat, q: nat, x: RangeInfo, a: int, n: nat)
    requires Merges(m, p, it, q, x, a, n)
    ensures Cover(Replaced(m, p, q, [x])) == Cover(m) + Interval(a, n)
  {
    ReplacedCover(m, p, q, [x]);
    CoverOne(x);
    assert Points(x) == Cover(m[p..q]) + Interval(a, n) by {
      assert m[p..q] == m[p..it] + m[it..q];
      CoverAppend(m[p..it], m[it..q]);
      if p < it { assert m[p..it] == [m[p]]; CoverOne(m[p]); }
      if it < q { assert m[it..q] == [m[it]]; CoverOne(m[it]); }
      assert forall y :: y in Points(x) <==> Inside(y, x.address, x.size);
      assert p < it ==> forall y :: y in Points(m[p]) <==> Inside(y, m[p].address, m[p].size);
      assert it < q ==> forall y :: y in Points(m[it]) <==> Inside(y, m[it].address, m[it].size);
    }
    hide Cover, Points, Interval;
  }

  /** The pieces of one mapping outside [b, e). */
  function Pieces(o: RangeInfo, b: int, e: int): (p: seq<RangeInfo>)
    requires b < e && o.address < e && b < End(o)
  {
    (if o.address < b then [RangeInfo(o.address, b - o.address)] else []) +
    (if End(o) > e then [RangeInfo(e, End(o) - e)] else [])
  }

  lemma PiecesCover(o: RangeInfo, b: int, e: int)
    requires b < e && o.address < e && b < End(o)
    ensures Cover(Pieces(o, b, e)) == Points(o) - Interval(b, e - b)
  {
    var l, h := RangeInfo(o.address, if o.address < b then b - o.address else 0),
        RangeInfo(e, if End(o) > e then End(o) - e else 0);
    CoverOne(l);
    CoverOne(h);
    CoverAppend([l], [h]);
    assert Pieces(o, b, e) == (if o.address < b then [l] else []) + (if End(o) > e then [h] else []);
    CoverAppend(if o.address < b then [l] else [], if End(o) > e then [h] else []);
    assert Points(l) + Points(h) == Points(o) - Interval(b, e - b) by {
      assert forall x :: x in Points(o) <==> Inside(x, o.address, o.size);
      assert forall x :: x in Points(l) <==> Inside(x, l.address, l.size);
      assert forall x :: x in Points(h) <==> Inside(x, h.address, h.size);
    }
  }

  /** Replacing a member by its pieces keeps the gaps. */
  lemma PiecesSeparated(m: seq<RangeInfo>, k: nat, b: int, e: int, lo: int, hi: int)
    requires Separated(m) && Within(m, lo, hi) && k < |m| && b < e && m[k].address < e && b < End(m[k])
    ensures var r := Replaced(m, k, k + 1, Pieces(m[k], b, e)); Separated(r) && Within(r, lo, hi)
  {
    var x := Pieces(m[k], b, e);
    assert x != [] ==> m[k].address <= x[0].address && End(x[|x| - 1]) <= End(m[k]);
    assert Separated(x) && Within(x, lo, hi);
    hide Pieces;
    ReplacedSeparated(m, k, k + 1, x, lo, hi);
  }

  /** One round of the loop: erase the mapping at `it` and insert what is left of it. */
  method CutOne(m: seq<RangeInfo>, it: nat, b: int, e: int) returns (r: seq<RangeInfo>, next: nat)
    requires Separated(m) && it < |m| && b < e && m[it].address < e && b < End(m[it])
    ensures r == m[..it] + Pieces(m[it], b, e) + m[it + 1..]
    ensures next == it + |Pieces(m[it], b, e)|
  {
    hide Separated;
    var oldRange := m[it];
    ghost var before, after := m[..it], m[it + 1..];
    Neighbours(m, it);
    r := m[..it] + m[it + 1..];
    next := it;
    ghost var low: seq<RangeInfo> := [];
    if oldRange.address < b {
      var rest := RangeInfo(oldRange.address, b - oldRange.address);
      r := InsertAt(r, rest, next);
      next := next + 1;
      low := [rest];
    }
    assert r == (before + low) + after && next == |before + low|;
    if End(oldRange) > e {
      var rest := RangeInfo(e, End(oldRange) - e);
      r := InsertAt(r, rest, next);
      next := next + 1;
    }
  }

  /** All mappings before the one at `it` end before it, and all behind it begin behind it. */
  lemma Neighbours(m: seq<RangeInfo>, it: nat)
    requires Separated(m) && it < |m|
    ensures forall i :: 0 <= i < it ==> m[i].address <= End(m[i]) < m[it].address
    ensures forall i :: it < i < |m| ==> End(m[it]) < m[i].address
  {
  }

  /** The loop of loader_unmap_reserved_range: remove [b, e) from the mappings. */
  method UnmapFrom(m: seq<RangeInfo>, b: int, e: int, ghost lo: int, ghost hi: int) returns (r: seq<RangeInfo>)
    requires Separated(m) && Within(m, lo, hi) && b < e
    ensures Separated(r) && Within(r, lo, hi)
    ensures Cover(r) == Cover(m) - Interval(b, e - b)
  {
    hide Cover, Pieces;
    r := m;
    var it := UpperBound(r, b);
    if it != 0 && End(r[it - 1]) > b {
      it := it - 1;
    }
    ghost var j: nat := it;
    CoverUntouched(m[..it], b, e);
    while it < |r| && r[it].address < e
      invariant it <= |r| && j <= |m| && r[it..] == m[j..]
      invariant Separated(r) && Within(r, lo, hi)
      invariant forall i :: j <= i < |m| ==> b < End(m[i])
      invariant Cover(r[..it]) == Cover(m[..j]) - Interval(b, e - b)
      decreases |r| - it
    {
      ghost var before, pieces, after := r[..it], Pieces(r[it], b, e), r[it + 1..];
      assert r[it] == r[it..][0] == m[j] && after == r[it..][1..] == m[j + 1..];
      PiecesSeparated(r, it, b, e, lo, hi);
      PiecesCover(r[it], b, e);
      CoverAppend(before, pieces);
      assert m[..j + 1] == m[..j] + [m[j]];
      CoverAppend(m[..j], [m[j]]);
      CoverOne(m[j]);
      assert Replaced(r, it, it + 1, pieces) == before + pieces + after;
      r, it := CutOne(r, it, b, e);
      assert r[..it] == before + pieces && r[it..] == after;
      j := j + 1;
    }
    CoverSplit(r, it);
    CoverSplit(m, j);
    CoverUntouched(m[j..], b, e);
  }

  lemma CoverUntouched(m: seq<RangeInfo>, b: int, e: int)
    requires b < e && forall i :: 0 <= i < |m| ==> End(m[i]) <= b || e <= m[i].address
    ensures Cover(m) == Cover(m) - Interval(b, e - b)
  {
    forall x | x in Cover(m) ensures x !in Interval(b, e - b) {
      var i :| 0 <= i < |m| && x in Points(m[i]);
    }
  }
}
