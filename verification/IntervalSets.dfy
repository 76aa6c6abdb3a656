/** Ordered sets of address intervals, as std::set<RangeInfo> keeps them. */
module IntervalSets {

  const SIZE_MAX: nat := 0xFFFF_FFFF_FFFF_FFFF

  datatype RangeInfo = RangeInfo(address: int, size: nat)

  /** RangeInfo::operator< */
  predicate Less(a: RangeInfo, b: RangeInfo) {
    if a.address != b.address then a.address < b.address else a.size < b.size
  }

  function End(i: RangeInfo): int { i.address + i.size }

  predicate Inside(x: int, a: int, n: nat) { a <= x < a + n }

  ghost function Interval(a: int, n: nat): iset<int> { iset x | Inside(x, a, n) }

  ghost function Points(i: RangeInfo): iset<int> { Interval(i.address, i.size) }

  /** The addresses a sequence of intervals covers. */
  ghost function Cover(m: seq<RangeInfo>): iset<int> {
    iset x, i | 0 <= i < |m| && x in Points(m[i]) :: x
  }

  ghost predicate SizesFit(m: seq<RangeInfo>) {
    forall i :: 0 <= i < |m| ==> 0 < m[i].size <= SIZE_MAX
  }

  /** In address order and disjoint; neighbours may touch. */
  ghost predicate Ordered(m: seq<RangeInfo>) {
    SizesFit(m) && forall i, j :: 0 <= i < j < |m| ==> End(m[i]) <= m[j].address
  }

  /** In address order with a gap between neighbours. */
  ghost predicate Separated(m: seq<RangeInfo>) {
    SizesFit(m) && forall i, j :: 0 <= i < j < |m| ==> End(m[i]) < m[j].address
  }

  ghost predicate Within(m: seq<RangeInfo>, lo: int, hi: int) {
    forall i :: 0 <= i < |m| ==> lo <= m[i].address && End(m[i]) <= hi
  }

  lemma CoverAppend(a: seq<RangeInfo>, b: seq<RangeInfo>)
    ensures Cover(a + b) == Cover(a) + Cover(b)
  {
    var c := a + b;
    forall x ensures x in Cover(c) <==> x in Cover(a) || x in Cover(b) {
      if x in Cover(a) {
        var i :| 0 <= i < |a| && x in Points(a[i]);
        assert c[i] == a[i];
      }
      if x in Cover(b) {
        var i :| 0 <= i < |b| && x in Points(b[i]);
        assert c[|a| + i] == b[i];
      }
      if x in Cover(c) {
        var i :| 0 <= i < |c| && x in Points(c[i]);
        assert c[i] == if i < |a| then a[i] else b[i - |a|];
      }
    }
  }

  lemma CoverOne(i: RangeInfo)
    ensures Cover([i]) == Points(i)
  {
    assert forall x :: x in Points([i][0]) ==> x in Cover([i]);
  }

  lemma CoverSplit(m: seq<RangeInfo>, k: nat)
    requires k <= |m|
    ensures Cover(m) == Cover(m[..k]) + Cover(m[k..])
  {
    assert m == m[..k] + m[k..];
    CoverAppend(m[..k], m[k..]);
  }

  lemma SeparatedSlice(m: seq<RangeInfo>, i: nat, j: nat, lo: int, hi: int)
    requires i <= j <= |m| && Separated(m) && Within(m, lo, hi)
    ensures Separated(m[i..j]) && Within(m[i..j], lo, hi)
  {
  }

  lemma SeparatedJoin(a: seq<RangeInfo>, b: seq<RangeInfo>, lo: int, hi: int)
    requires Separated(a) && Separated(b) && Within(a, lo, hi) && Within(b, lo, hi)
    requires a != [] && b != [] ==> End(a[|a| - 1]) < b[0].address
    ensures Separated(a + b) && Within(a + b, lo, hi)
  {
    var c := a + b;
    forall i, j | 0 <= i < j < |c| ensures End(c[i]) < c[j].address { JoinedPair(a, b, i, j); }
    forall i | 0 <= i < |c| ensures 0 < c[i].size <= SIZE_MAX && lo <= c[i].address && End(c[i]) <= hi {
      assert c[i] == if i < |a| then a[i] else b[i - |a|];
    }
  }

  lemma JoinedPair(a: seq<RangeInfo>, b: seq<RangeInfo>, i: nat, j: nat)
    requires Separated(a) && Separated(b) && i < j < |a + b|
    requires a != [] && b != [] ==> End(a[|a| - 1]) < b[0].address
    ensures End((a + b)[i]) < (a + b)[j].address
  {
    if i < |a| <= j {
      assert End(a[i]) <= End(a[|a| - 1]);
      assert b[0].address <= b[j - |a|].address;
    }
  }

  /** A set of intervals with gaps has only one representation. */
  lemma {:induction false} Canonical(a: seq<RangeInfo>, b: seq<RangeInfo>)
    requires Separated(a) && Separated(b) && Cover(a) == Cover(b)
    ensures a == b
  {
    EmptyCover(a);
    EmptyCover(b);
    hide Cover;
    if a == [] {
    } else {
      FirstReaches(a, b);
      FirstReaches(b, a);
      TailCover(a);
      TailCover(b);
      Canonical(a[1..], b[1..]);
      assert a == [a[0]] + a[1..] && b == [b[0]] + b[1..];
    }
  }

  lemma EmptyCover(a: seq<RangeInfo>)
    requires SizesFit(a)
    ensures Cover(a) == iset{} <==> a == []
  {
    assert a != [] ==> a[0].address in Points(a[0]) && a[0].address in Cover(a);
  }

  /** The gap after the first interval. */
  lemma EndNotCovered(a: seq<RangeInfo>)
    requires Separated(a) && a != []
    ensures End(a[0]) !in Cover(a)
  {
    assert forall i :: 0 <= i < |a| ==> End(a[0]) !in Points(a[i]);
  }

  /** The first interval of b starts no later and, if it starts with a's, ends no sooner. */
  lemma FirstReaches(a: seq<RangeInfo>, b: seq<RangeInfo>)
    requires Separated(a) && Separated(b) && Cover(a) == Cover(b) && a != [] && b != []
    ensures b[0].address <= a[0].address
    ensures b[0].address == a[0].address ==> End(a[0]) <= End(b[0])
  {
    assert a[0].address in Points(a[0]);
    assert a[0].address in Cover(b);
    var i :| 0 <= i < |b| && a[0].address in Points(b[i]);
    EndNotCovered(b);
    assert forall x :: x in Points(a[0]) ==> x in Cover(a);
  }

  lemma TailCover(a: seq<RangeInfo>)
    requires Separated(a) && a != []
    ensures Cover(a[1..]) == Cover(a) - Points(a[0])
    ensures Separated(a[1..])
  {
    assert a == [a[0]] + a[1..];
    CoverAppend([a[0]], a[1..]);
    CoverOne(a[0]);
    assert forall x, i :: 0 <= i < |a[1..]| && x in Points(a[1..][i]) ==> x !in Points(a[0]);
  }

  // ----- std::set operations

  /** upper_bound(RangeInfo { address, SIZE_MAX }): the first element past that key */
  method UpperBound(m: seq<RangeInfo>, address: int) returns (k: nat)
    requires Ordered(m)
    ensures k <= |m|
    ensures forall i :: 0 <= i < k ==> m[i].address <= address
    ensures forall i :: k <= i < |m| ==> address < m[i].address
  {
    k := 0;
    while k < |m| && !Less(RangeInfo(address, SIZE_MAX), m[k])
      invariant k <= |m|
      invariant forall i :: 0 <= i < k ==> m[i].address <= address
    {
      k := k + 1;
    }
  }

  /** insert(x); `at` is where x ends up. */
  method InsertInto(m: seq<RangeInfo>, x: RangeInfo) returns (r: seq<RangeInfo>, at: nat)
    ensures at <= |m| && r == m[..at] + [x] + m[at..]
    ensures forall i :: 0 <= i < at ==> Less(m[i], x)
    ensures at < |m| ==> !Less(m[at], x)
  {
    at := 0;
    while at < |m| && Less(m[at], x)
      invariant at <= |m|
      invariant forall i :: 0 <= i < at ==> Less(m[i], x)
    {
      at := at + 1;
    }
    r := m[..at] + [x] + m[at..];
  }
}
