/** Tables of areas: which addresses they map and with what, and what unmapping a hole does. */
module AreaTables {
  import opened Collections

  datatype EntryRef = EntryRef(device: int, inode: int)

  const SIZE_MAX: int := 0xFFFF_FFFF_FFFF_FFFF

  /** What an area records; offset == SIZE_MAX stands for "not shared". */
  datatype Info = Info(address: int, size: int, protection: int, team: int, mapping: int, file: EntryRef, offset: int)

  predicate IsShared(i: Info) { i.offset != SIZE_MAX }

  /** Sizes are sizes, and a shared area lies within the offsets of a file. */
  predicate IsSane(i: Info) {
    0 <= i.size && 0 <= i.offset && (IsShared(i) ==> i.offset + i.size <= SIZE_MAX)
  }

  predicate Covers(i: Info, a: int) { i.address <= a < i.address + i.size }

  /** What one address is mapped to. */
  datatype Attr = Attr(protection: int, team: int, mapping: int, backing: Option<(EntryRef, int)>)

  function AttrAt(i: Info, a: int): Attr {
    Attr(i.protection, i.team, i.mapping, if IsShared(i) then Some((i.file, i.offset + (a - i.address))) else None)
  }

  /** Some area of the table maps address a to this. */
  ghost predicate Maps(t: map<int, Info>, a: int, attr: Attr) {
    exists id :: id in t && Covers(t[id], a) && AttrAt(t[id], a) == attr
  }

  ghost predicate Disjoint(t: map<int, Info>) {
    forall i, j, a :: i in t && j in t && Covers(t[i], a) && Covers(t[j], a) ==> i == j
  }

  // ----- cutting one area

  function Piece(i: Info, start: int, end: int): Info {
    i.(address := start, size := end - start,
       offset := if IsShared(i) then i.offset + (start - i.address) else i.offset)
  }

  /** The parts of the area from `start` to `end` outside the hole from h to e. */
  function Surviving(start: int, end: int, h: int, e: int): seq<(int, int)> {
    (if start < (if h < end then h else end) then [(start, if h < end then h else end)] else []) +
    (if (if e < start then start else e) < end then [(if e < start then start else e, end)] else [])
  }

  function SurvivingOf(i: Info, h: int, e: int): (r: seq<(int, int)>)
    ensures |r| <= 2
  {
    Surviving(i.address, i.address + i.size, h, e)
  }

  lemma SurvivingCovers(i: Info, h: int, e: int, a: int)
    requires h <= e && 0 <= i.size
    ensures Covers(i, a) && !(h <= a < e) <==>
              exists k :: 0 <= k < |SurvivingOf(i, h, e)| && SurvivingOf(i, h, e)[k].0 <= a < SurvivingOf(i, h, e)[k].1
  {
    var r := SurvivingOf(i, h, e);
    if Covers(i, a) && !(h <= a < e) {
      var k := if a < h then 0 else |r| - 1;
      assert r[k].0 <= a < r[k].1;
    }
  }

  /** The pieces are proper parts of the area, in order, outside the hole. */
  lemma SurvivingPieces(i: Info, h: int, e: int, k: nat)
    requires h <= e && 0 <= i.size && k < |SurvivingOf(i, h, e)|
    ensures var r := SurvivingOf(i, h, e);
            && i.address <= r[k].0 < r[k].1 <= i.address + i.size
            && (r[k].1 <= h || e <= r[k].0) && (k == 1 ==> r[0].1 <= r[1].0)
  {
  }

  /** Nothing is unmapped by a hole of no bytes, and yet it splits the area it is inside of. */
  lemma EmptyHoleSplits(i: Info, h: int)
    requires IsSane(i)
    ensures |SurvivingOf(i, h, h)| == 2 <==> i.address < h < i.address + i.size
    ensures |SurvivingOf(i, h, h)| == 2 ==> SurvivingOf(i, h, h) == [(i.address, h), (h, i.address + i.size)]
    ensures forall a :: Covers(i, a) <==> exists r <- SurvivingOf(i, h, h) :: r.0 <= a < r.1
  {
    var s := SurvivingOf(i, h, h);
    forall a ensures Covers(i, a) <==> exists r <- s :: r.0 <= a < r.1 {
      SurvivingCovers(i, h, h, a);
      assert forall k :: 0 <= k < |s| ==> s[k] in s;
    }
  }

  lemma PieceIs(i: Info, start: int, end: int, a: int)
    requires IsSane(i) && i.address <= start < end <= i.address + i.size
    ensures IsSane(Piece(i, start, end)) && IsShared(Piece(i, start, end)) == IsShared(i)
              && Piece(i, start, end).file == i.file
    ensures Covers(Piece(i, start, end), a) <==> start <= a < end
    ensures start <= a < end ==> AttrAt(Piece(i, start, end), a) == AttrAt(i, a)
  {
  }

  // ----- cutting one area of a table

  /** The table after area id was cut at the hole: the first piece stays under id, a second one
      goes under `extra`. Without a piece the area stays until the end. */
  function Cut(t: map<int, Info>, id: int, extra: int, h: int, e: int): map<int, Info>
    requires id in t
  {
    var i := t[id];
    var r := SurvivingOf(i, h, e);
    if |r| == 0 then t
    else if |r| == 1 then t[id := Piece(i, r[0].0, r[0].1)]
    else t[id := Piece(i, r[0].0, r[0].1)][extra := Piece(i, r[1].0, r[1].1)]
  }

  ghost predicate Sane(t: map<int, Info>) { forall id <- t :: IsSane(t[id]) }

  ghost predicate InHole(i: Info, h: int, e: int) { forall a :: Covers(i, a) ==> h <= a < e }

  ghost predicate Clear(i: Info, h: int, e: int) { forall a :: Covers(i, a) ==> !(h <= a < e) }

  /** Before and after a cut: who covers an address outside the hole. */
  lemma CutCovers(t: map<int, Info>, id: int, extra: int, h: int, e: int, a: int, k: int)
    requires id in t && extra !in t && h <= e && Sane(t) && k in Cut(t, id, extra, h, e)
    requires Covers(Cut(t, id, extra, h, e)[k], a)
    ensures var o := if k == extra then id else k;
            && Covers(t[o], a)
            && (SurvivingOf(t[id], h, e) != [] ==> AttrAt(t[o], a) == AttrAt(Cut(t, id, extra, h, e)[k], a))
            && (SurvivingOf(t[id], h, e) != [] && (k == id || k == extra) ==> !(h <= a < e))
  {
    var r := SurvivingOf(t[id], h, e);
    if k == id && |r| > 0 {
      SurvivingPieces(t[id], h, e, 0);
      PieceIs(t[id], r[0].0, r[0].1, a);
    } else if k == extra {
      SurvivingPieces(t[id], h, e, 1);
      PieceIs(t[id], r[1].0, r[1].1, a);
    }
  }

  /** A cut keeps what is mapped outside the hole. */
  lemma CutKeeps(t: map<int, Info>, id: int, extra: int, h: int, e: int, a: int, attr: Attr)
    requires id in t && extra !in t && h <= e && Sane(t) && !(h <= a < e)
    ensures Maps(Cut(t, id, extra, h, e), a, attr) <==> Maps(t, a, attr)
  {
    var c, r := Cut(t, id, extra, h, e), SurvivingOf(t[id], h, e);
    hide Cut, AttrAt, SurvivingOf;
    if Maps(c, a, attr) {
      var k :| k in c && Covers(c[k], a) && AttrAt(c[k], a) == attr;
      CutCovers(t, id, extra, h, e, a, k);
      NoPiece(t, id, extra, h, e);
      assert Maps(t, a, attr);
    }
    if Maps(t, a, attr) {
      var k :| k in t && Covers(t[k], a) && AttrAt(t[k], a) == attr;
      CutKeepsOne(t, id, extra, h, e, a, k);
    }
  }

  lemma NoPiece(t: map<int, Info>, id: int, extra: int, h: int, e: int)
    requires id in t
    ensures SurvivingOf(t[id], h, e) == [] ==> Cut(t, id, extra, h, e) == t
  {
  }

  lemma CutKeepsOne(t: map<int, Info>, id: int, extra: int, h: int, e: int, a: int, k: int)
    requires id in t && extra !in t && h <= e && Sane(t) && !(h <= a < e) && k in t && Covers(t[k], a)
    ensures Maps(Cut(t, id, extra, h, e), a, AttrAt(t[k], a))
  {
    var c, r := Cut(t, id, extra, h, e), SurvivingOf(t[id], h, e);
    if k == id {
      SurvivingCovers(t[id], h, e, a);
      var n :| 0 <= n < |r| && r[n].0 <= a < r[n].1;
      SurvivingPieces(t[id], h, e, n);
      PieceIs(t[id], r[n].0, r[n].1, a);
      var j := if n == 0 then id else extra;
      assert j in c && Covers(c[j], a) && AttrAt(c[j], a) == AttrAt(t[k], a);
    } else {
      assert k in c && c[k] == t[k];
    }
  }

  lemma CutDisjoint(t: map<int, Info>, id: int, extra: int, h: int, e: int)
    requires id in t && extra !in t && h <= e && Sane(t) && Disjoint(t)
    ensures Disjoint(Cut(t, id, extra, h, e))
  {
    var c := Cut(t, id, extra, h, e);
    forall i, j, a | i in c && j in c && Covers(c[i], a) && Covers(c[j], a) ensures i == j {
      CutCovers(t, id, extra, h, e, a, i);
      CutCovers(t, id, extra, h, e, a, j);
      CutApart(t, id, extra, h, e, a);
    }
  }

  lemma CutApart(t: map<int, Info>, id: int, extra: int, h: int, e: int, a: int)
    requires id in t && extra !in t && h <= e && Sane(t)
    ensures var c := Cut(t, id, extra, h, e); extra in c && Covers(c[extra], a) ==> !Covers(c[id], a)
  {
    var r := SurvivingOf(t[id], h, e);
    if |r| == 2 {
      SurvivingPieces(t[id], h, e, 1);
    }
  }

  lemma CutSane(t: map<int, Info>, id: int, extra: int, h: int, e: int)
    requires id in t && extra !in t && h <= e && Sane(t)
    ensures Sane(Cut(t, id, extra, h, e))
  {
    var r := SurvivingOf(t[id], h, e);
    forall k: nat | k < |r| ensures IsSane(Piece(t[id], r[k].0, r[k].1)) {
      SurvivingPieces(t[id], h, e, k);
      PieceIs(t[id], r[k].0, r[k].1, 0);
    }
  }

  // ----- unmapping

  /** While the areas are passed in the order of their ids: those up to `id` are clear of the
      hole, or waiting in `gone` to be removed because nothing of them is left. */
  ghost predicate Unmapping(before: map<int, Info>, t: map<int, Info>, id: int, gone: set<int>, h: int, e: int) {
    && Sane(t) && (forall g <- gone :: g in t && g <= id && InHole(t[g], h, e))
    && (forall k <- t :: k <= id && k !in gone ==> Clear(t[k], h, e))
    && (forall a, attr :: !(h <= a < e) ==> (Maps(t, a, attr) <==> Maps(before, a, attr)))
    && (Disjoint(before) ==> Disjoint(t))
  }

  lemma UnmappingStep(before: map<int, Info>, t: map<int, Info>, last: int, gone: set<int>, h: int, e: int, id: int,
                      extra: int)
    requires Unmapping(before, t, last, gone, h, e) && h <= e
    requires id in t && last < id && (forall k <- t :: k <= last || id <= k) && extra !in t
    ensures var r := SurvivingOf(t[id], h, e);
            Unmapping(before, Cut(t, id, extra, h, e), id, if r == [] then gone + {id} else gone, h, e)
  {
    var c, r := Cut(t, id, extra, h, e), SurvivingOf(t[id], h, e);
    var now := if r == [] then gone + {id} else gone;
    CutSane(t, id, extra, h, e);
    if Disjoint(before) {
      CutDisjoint(t, id, extra, h, e);
    }
    forall a, attr | !(h <= a < e) ensures Maps(c, a, attr) <==> Maps(before, a, attr) {
      CutKeeps(t, id, extra, h, e, a, attr);
    }
    hide Maps, Disjoint;
    forall g | g in now ensures g in c && g <= id && InHole(c[g], h, e) {
      CutGone(t, id, extra, h, e, g);
    }
    forall k | k in c && k <= id && k !in now ensures Clear(c[k], h, e) {
      CutClear(t, id, extra, h, e, k);
    }
  }

  lemma CutGone(t: map<int, Info>, id: int, extra: int, h: int, e: int, g: int)
    requires id in t && extra !in t && h <= e && Sane(t) && g in t
    ensures g in Cut(t, id, extra, h, e)
    ensures g != id && InHole(t[g], h, e) ==> InHole(Cut(t, id, extra, h, e)[g], h, e)
    ensures g == id && SurvivingOf(t[id], h, e) == [] ==> InHole(Cut(t, id, extra, h, e)[g], h, e)
  {
    if g == id && SurvivingOf(t[id], h, e) == [] {
      forall a | Covers(t[id], a) ensures h <= a < e {
        SurvivingCovers(t[id], h, e, a);
      }
    }
  }

  lemma CutClear(t: map<int, Info>, id: int, extra: int, h: int, e: int, k: int)
    requires id in t && extra !in t && h <= e && Sane(t) && k in Cut(t, id, extra, h, e)
    ensures (k == id || k == extra) && SurvivingOf(t[id], h, e) != [] ==> Clear(Cut(t, id, extra, h, e)[k], h, e)
    ensures k != id && k != extra ==> Cut(t, id, extra, h, e)[k] == t[k]
  {
    if (k == id || k == extra) && SurvivingOf(t[id], h, e) != [] {
      forall a | Covers(Cut(t, id, extra, h, e)[k], a) ensures !(h <= a < e) {
        CutCovers(t, id, extra, h, e, a, k);
      }
    }
  }

  /** What unmapping [h, e) promises: every address outside keeps what it was mapped to, nothing
      is mapped inside, and disjoint areas stay disjoint. */
  ghost predicate Unmapped(before: map<int, Info>, after: map<int, Info>, h: int, e: int) {
    && (forall a, attr :: Maps(after, a, attr) <==> Maps(before, a, attr) && !(h <= a < e))
    && (Disjoint(before) ==> Disjoint(after)) && Sane(after)
  }

  lemma UnmappingEnds(before: map<int, Info>, t: map<int, Info>, last: int, gone: set<int>, h: int, e: int)
    requires Unmapping(before, t, last, gone, h, e) && forall k <- t :: k <= last
    ensures Unmapped(before, t - gone, h, e)
  {
    var r := t - gone;
    forall a, attr ensures Maps(r, a, attr) <==> Maps(before, a, attr) && !(h <= a < e) {
      if Maps(r, a, attr) {
        var k :| k in r && Covers(r[k], a) && AttrAt(r[k], a) == attr;
        assert k in t && t[k] == r[k] && Clear(t[k], h, e);
        assert Maps(t, a, attr);
      }
      if Maps(before, a, attr) && !(h <= a < e) {
        assert Maps(t, a, attr);
        var k :| k in t && Covers(t[k], a) && AttrAt(t[k], a) == attr;
        assert !InHole(t[k], h, e);
        assert k in r && r[k] == t[k];
      }
    }
  }

  // ----- counting references

  ghost function References(t: map<int, Info>, f: EntryRef): set<int> {
    set id | id in t && IsShared(t[id]) && t[id].file == f
  }

  ghost predicate Refers(i: Info, f: EntryRef) { IsShared(i) && i.file == f }

  lemma ReferencesWith(t: map<int, Info>, id: int, i: Info, f: EntryRef)
    ensures |References(t[id := i], f)| ==
              |References(t, f)| + (if Refers(i, f) then 1 else 0) - (if id in t && Refers(t[id], f) then 1 else 0)
  {
    ReferencesSet(t, id, i, f);
    var s := References(t, f);
    assert id in s <==> id in t && Refers(t[id], f);
    hide References;
    assert id in s ==> s + {id} == s;
    assert id !in s ==> s - {id} == s;
  }

  lemma ReferencesSet(t: map<int, Info>, id: int, i: Info, f: EntryRef)
    ensures References(t[id := i], f) == if Refers(i, f) then References(t, f) + {id} else References(t, f) - {id}
  {
  }

  lemma ReferencesWithout(t: map<int, Info>, id: int, f: EntryRef)
    requires id in t
    ensures |References(t - {id}, f)| == |References(t, f)| - (if Refers(t[id], f) then 1 else 0)
  {
    var s := References(t, f);
    assert References(t - {id}, f) == s - {id};
    assert id in s <==> Refers(t[id], f);
  }
}
