/** How edits of the bytes of a message change the fields it holds. */
module KMessageEdits {
  import opened Collections
  import opened KMessageBytes
  import opened KMessageParser
  import opened KMessageFields
  import opened HaikuTypes

  // ----- among fields

  /** Bytes equal from a to b are equal in every part. */
  lemma SamePart(m: seq<byte>, n: seq<byte>, a: nat, b: nat, i: nat, j: nat)
    requires a <= i <= j <= b <= |m| && b <= |n| && m[a..b] == n[a..b]
    ensures m[i..j] == n[i..j]
  {
    Within(m, a, b, i - a, j - a);
    Within(n, a, b, i - a, j - a);
  }

  /** A field whose bytes and whose place stay the same is still there. */
  lemma StaysInPlace(m: seq<byte>, n: seq<byte>, fields: seq<Field>, after: seq<Field>, k: nat)
    requires Encodes(m, fields) && k < |fields| && k < |after| && after[..k + 1] == fields[..k + 1]
    requires Start(fields, k) <= End(fields, k + 1) <= |m| && End(fields, k + 1) <= |n|
    requires n[Start(fields, k)..End(fields, k + 1)] == m[Start(fields, k)..End(fields, k + 1)]
    ensures FieldInPlace(n, after, k)
  {
    hide HoldsField, FieldSize, Align, Encodes, End;
    InPlace(m, fields, k);
    SamePrefix(after, fields, k);
    EndOfPrefix(after, fields, k);
    var o, e := Start(fields, k), End(fields, k + 1);
    assert Start(after, k) == o && after[k] == fields[k] && n[o..e] == m[o..e];
    hide Start;
  }

  lemma SamePrefix<T>(a: seq<T>, b: seq<T>, k: nat)
    requires k < |a| && k < |b| && a[..k + 1] == b[..k + 1]
    ensures a[..k] == b[..k] && a[k] == b[k]
  {
    assert a[..k] == a[..k + 1][..k] && b[..k] == b[..k + 1][..k];
    assert a[k] == a[..k + 1][k] && b[k] == b[..k + 1][k];
  }

  lemma EndNext(fields: seq<Field>, k: nat)
    requires k < |fields|
    ensures End(fields, k + 1) == Start(fields, k) + FieldSize(fields[k])
  {
  }

  /** The first k fields of a message are a message. */
  lemma EncodesPrefix(m: seq<byte>, fields: seq<Field>, k: nat)
    requires Encodes(m, fields) && k <= |fields|
    ensures End(fields, k) <= |m| && Encodes(m[..End(fields, k)], fields[..k])
  {
    hide HoldsField, FieldSize, Align, FieldInPlace, End;
    EndsInOrder(fields, k, |fields|);
    EndOfPrefix(fields[..k], fields, k);
    forall i: nat | i < k ensures FieldInPlace(m[..End(fields, k)], fields[..k], i) {
      PrefixInPlace(m, fields, k, i);
    }
  }

  lemma PrefixInPlace(m: seq<byte>, fields: seq<Field>, k: nat, i: nat)
    requires Encodes(m, fields) && i < k <= |fields| && End(fields, k) <= |m|
    ensures FieldInPlace(m[..End(fields, k)], fields[..k], i)
  {
    hide HoldsField, FieldSize, Align, FieldInPlace, End, Encodes;
    var p, e := fields[..k], End(fields, k);
    EndsInOrder(fields, i + 1, k);
    InPlace(m, fields, i);
    assert p[..i + 1] == fields[..i + 1];
    SamePart(m, m[..e], 0, e, Start(fields, i), End(fields, i + 1));
    StaysInPlace(m, m[..e], fields, p, i);
  }

  /** A field written behind a message extends it. */
  lemma EncodesAppend(m: seq<byte>, n: seq<byte>, fields: seq<Field>, f: Field)
    requires Encodes(m, fields) && |n| == Start(fields, |fields|) + FieldSize(f)
    requires |m| <= |n| && n[HEADER_SIZE..|m|] == m[HEADER_SIZE..]
    requires HoldsField(n[Start(fields, |fields|)..], f)
    ensures Encodes(n, fields + [f])
  {
    hide HoldsField, FieldSize, Align, FieldInPlace, End;
    AppendedInPlace(n, fields, f);
    forall i: nat | i < |fields| ensures FieldInPlace(n, fields + [f], i) {
      OldFieldInPlace(m, n, fields, f, i);
    }
  }

  lemma OldFieldInPlace(m: seq<byte>, n: seq<byte>, fields: seq<Field>, f: Field, i: nat)
    requires Encodes(m, fields) && HEADER_SIZE <= |m| <= |n| && n[HEADER_SIZE..|m|] == m[HEADER_SIZE..] && i < |fields|
    ensures FieldInPlace(n, fields + [f], i)
  {
    hide HoldsField, FieldSize, Align, FieldInPlace, Encodes, End;
    EndsInOrder(fields, i + 1, |fields|);
    InPlace(m, fields, i);
    assert (fields + [f])[..i + 1] == fields[..i + 1];
    assert m[HEADER_SIZE..] == m[HEADER_SIZE..|m|];
    SamePart(m, n, HEADER_SIZE, |m|, Start(fields, i), End(fields, i + 1));
    StaysInPlace(m, n, fields, fields + [f], i);
  }

  lemma AppendedInPlace(n: seq<byte>, fields: seq<Field>, f: Field)
    requires |n| == Start(fields, |fields|) + FieldSize(f) && HoldsField(n[Start(fields, |fields|)..], f)
    ensures FieldInPlace(n, fields + [f], |fields|) && ContentSize(fields + [f]) == |n|
  {
    hide HoldsField, FieldSize, Align, End;
    var r, k := fields + [f], |fields|;
    assert r[..k] == fields[..k];
    EndOfPrefix(r, fields, k);
    EndNext(r, k);
    assert n[Start(fields, k)..] == n[Start(fields, k)..Start(fields, k) + FieldSize(f)];
  }

  /** Rewriting the last field, which may grow, keeps the others. */
  lemma EncodesReplaceLast(m: seq<byte>, n: seq<byte>, fields: seq<Field>, f: Field)
    requires Encodes(m, fields) && fields != []
    requires var o := Start(fields, |fields| - 1);
             o <= |m| && |n| == o + FieldSize(f) && n[HEADER_SIZE..o] == m[HEADER_SIZE..o]
    requires HoldsField(n[Start(fields, |fields| - 1)..], f)
    ensures Encodes(n, fields[..|fields| - 1] + [f])
  {
    hide HoldsField, FieldSize, Align, Encodes;
    var k := |fields| - 1;
    var p, e := fields[..k], End(fields, k);
    EncodesPrefix(m, fields, k);
    EndOfPrefix(p, fields, k);
    SamePart(m, n, HEADER_SIZE, Start(fields, k), HEADER_SIZE, e);
    assert m[..e][HEADER_SIZE..] == m[HEADER_SIZE..e];
    SameSize(m, e, p);
    EncodesAppend(m[..e], n, p, f);
  }

  lemma SameSize(m: seq<byte>, e: nat, p: seq<Field>)
    requires e <= |m| && Encodes(m[..e], p)
    ensures End(p, |p|) == e
  {
  }

  /** Rewriting a field in place keeps the others. */
  lemma EncodesReplace(m: seq<byte>, n: seq<byte>, fields: seq<Field>, k: nat, f: Field)
    requires Encodes(m, fields) && k < |fields| && |n| == |m| && FieldSize(f) == FieldSize(fields[k])
    requires End(fields, k + 1) <= |m|
    requires n[HEADER_SIZE..Start(fields, k)] == m[HEADER_SIZE..Start(fields, k)]
               && n[End(fields, k + 1)..] == m[End(fields, k + 1)..]
    requires HoldsField(n[Start(fields, k)..End(fields, k + 1)], f)
    ensures Encodes(n, fields[k := f])
  {
    hide HoldsField, FieldSize, Align, FieldInPlace, End;
    ReplaceKeepsEnds(fields, k, f, |fields|);
    var r := fields[k := f];
    forall i: nat | i < |r| ensures FieldInPlace(n, r, i) {
      ReplacedInPlace(m, n, fields, k, f, i);
    }
  }

  lemma ReplacedInPlace(m: seq<byte>, n: seq<byte>, fields: seq<Field>, k: nat, f: Field, i: nat)
    requires Encodes(m, fields) && k < |fields| && |n| == |m| && FieldSize(f) == FieldSize(fields[k])
    requires End(fields, k + 1) <= |m|
    requires n[HEADER_SIZE..Start(fields, k)] == m[HEADER_SIZE..Start(fields, k)]
               && n[End(fields, k + 1)..] == m[End(fields, k + 1)..]
    requires HoldsField(n[Start(fields, k)..End(fields, k + 1)], f) && i < |fields|
    ensures FieldInPlace(n, fields[k := f], i)
  {
    hide HoldsField, FieldSize, Align, Encodes, End;
    var e := End(fields, k + 1);
    InPlace(m, fields, i);
    InPlace(m, fields, k);
    ReplaceKeepsEnds(fields, k, f, i);
    if i < k {
      EndsInOrder(fields, i + 1, k);
      SamePart(m, n, HEADER_SIZE, Start(fields, k), Start(fields, i), End(fields, i + 1));
    } else if i > k {
      EndsInOrder(fields, k + 1, i);
      assert n[e..] == n[e..|m|] && m[e..] == m[e..|m|];
      SamePart(m, n, e, |m|, Start(fields, i), End(fields, i + 1));
    }
  }

  lemma {:induction false} ReplaceKeepsEnds(fields: seq<Field>, k: nat, f: Field, i: nat)
    requires k < |fields| && FieldSize(f) == FieldSize(fields[k]) && i <= |fields|
    ensures End(fields[k := f], i) == End(fields, i)
  {
    hide FieldSize, Align;
    if i > 0 {
      ReplaceKeepsEnds(fields, k, f, i - 1);
    }
  }

  // ----- inside one field

  /** The header of a field after its count and its size were rewritten. */
  lemma HeaderRewritten(s: seq<byte>, t: seq<byte>, f: Field, values: seq<seq<byte>>)
    requires HoldsHeader(s, f) && |t| >= HeaderSize(f)
    requires var g := f.(values := values);
             GetInt32(t, ELEMENT_COUNT_AT) == |values| && GetInt32(t, FIELD_SIZE_AT) == FieldSize(g)
    requires t[..ELEMENT_COUNT_AT] == s[..ELEMENT_COUNT_AT]
               && t[HEADER_SIZE_AT..HeaderSize(f)] == s[HEADER_SIZE_AT..HeaderSize(f)]
    ensures HoldsHeader(t, f.(values := values))
  {
    hide GetInt32, GetInt16, FieldSize, Align;
    var h := HeaderSize(f);
    SamePart(s, t, 0, ELEMENT_COUNT_AT, TYPE_AT, TYPE_AT + 4);
    SamePart(s, t, 0, ELEMENT_COUNT_AT, ELEMENT_SIZE_AT, ELEMENT_SIZE_AT + 4);
    SamePart(s, t, HEADER_SIZE_AT, h, HEADER_SIZE_AT, HEADER_SIZE_AT + 2);
    SamePart(s, t, HEADER_SIZE_AT, h, NAME_AT, NAME_AT + |f.name|);
    SamePart(s, t, HEADER_SIZE_AT, h, NAME_AT + |f.name|, NAME_AT + |f.name| + 1);
    GetSame32(s, TYPE_AT, t, TYPE_AT);
    GetSame32(s, ELEMENT_SIZE_AT, t, ELEMENT_SIZE_AT);
    GetSame16(s, HEADER_SIZE_AT, t, HEADER_SIZE_AT);
    assert s[NAME_AT + |f.name|] == s[NAME_AT + |f.name|..NAME_AT + |f.name| + 1][0];
    assert t[NAME_AT + |f.name|] == t[NAME_AT + |f.name|..NAME_AT + |f.name| + 1][0];
  }

  lemma {:induction false} ConcatAppend(a: seq<seq<byte>>, b: seq<seq<byte>>)
    ensures Concat(a + b) == Concat(a) + Concat(b)
  {
    if b == [] {
      assert a + b == a;
    } else {
      hide Concat;
      var init, last := b[..|b| - 1], b[|b| - 1];
      assert a + b == (a + init) + [last] && b == init + [last];
      ConcatAppend(a, init);
      ConcatOneMore(a + init, last);
      ConcatOneMore(init, last);
    }
  }

  lemma ConcatOneMore(values: seq<seq<byte>>, v: seq<byte>)
    ensures Concat(values + [v]) == Concat(values) + v
  {
    assert (values + [v])[..|values|] == values;
  }

  /** Values of a fixed size written behind those of a field. */
  lemma DataAppendFixed(s: seq<byte>, t: seq<byte>, f: Field, more: seq<seq<byte>>)
    requires IsFixed(f) && HoldsData(s, f) && t == s + Concat(more) && forall v <- more :: |v| == f.elementSize
    ensures HoldsData(t, f.(values := f.values + more)) && DataSize(f.(values := f.values + more)) == |t|
  {
    ConcatAppend(f.values, more);
  }

  /** One value of any size written behind those of a field, at the next multiple of four. */
  lemma DataAppendVariable(s: seq<byte>, t: seq<byte>, f: Field, v: seq<byte>)
    requires !IsFixed(f) && HoldsData(s, f)
    requires var at := Align(|s|);
             |t| == at + 4 + |v| && t[..|s|] == s && GetInt32(t, at) == |v| && t[at + 4..] == v
    ensures HoldsData(t, f.(values := f.values + [v])) && DataSize(f.(values := f.values + [v])) == |t|
  {
    hide GetInt32, Align, HoldsValue;
    var a, r := f.values, f.values + [v];
    assert r[..|a|] == a[..|a|];
    ValueEndOfPrefix(r, a, |a|);
    forall k: nat | k < |r| ensures HoldsValue(t, r, k) {
      if k < |a| {
        ValueStays(s, t, a, r, k);
      } else {
        ValueAtEnd(t, a, v);
      }
    }
  }

  lemma ValueAtEnd(t: seq<byte>, a: seq<seq<byte>>, v: seq<byte>)
    requires var at := Align(ValuesSize(a)); |t| == at + 4 + |v| && GetInt32(t, at) == |v| && t[at + 4..] == v
    ensures HoldsValue(t, a + [v], |a|)
  {
    hide GetInt32, Align;
    assert (a + [v])[..|a|] == a[..|a|];
    ValueEndOfPrefix(a + [v], a, |a|);
    var at := Align(ValuesSize(a));
    assert t[at + 4..] == t[at + 4..at + 4 + |v|];
  }

  lemma ValueStays(s: seq<byte>, t: seq<byte>, a: seq<seq<byte>>, r: seq<seq<byte>>, k: nat)
    requires k < |a| && k < |r| && r[..k + 1] == a[..k + 1] && HoldsValues(s, a) && |s| <= |t| && t[..|s|] == s
    ensures HoldsValue(t, r, k)
  {
    hide GetInt32, Align;
    assert HoldsValue(s, a, k);
    SamePrefix(r, a, k);
    ValueEndOfPrefix(r, a, k);
    var at := Align(ValueEnd(a, k));
    assert s == s[0..|s|] && t[..|s|] == t[0..|s|];
    SamePart(s, t, 0, |s|, at, at + 4);
    SamePart(s, t, 0, |s|, at + 4, at + 4 + |a[k]|);
    GetSame32(s, at, t, at);
  }

  /** The first value of a fixed-size field overwritten. */
  lemma DataReplaceFirst(s: seq<byte>, t: seq<byte>, f: Field, v: seq<byte>)
    requires IsFixed(f) && f.values != [] && HoldsData(s, f) && |v| == f.elementSize
    requires |v| <= |s| && t == v + s[|v|..]
    ensures HoldsData(t, f.(values := f.values[0 := v])) && DataSize(f.(values := f.values[0 := v])) == |s|
  {
    var first, rest := f.values[..1], f.values[1..];
    assert f.values == first + rest && f.values[0 := v] == [v] + rest;
    ConcatAppend(first, rest);
    ConcatAppend([v], rest);
    ConcatOne(f.values[0]);
    ConcatOne(v);
    assert first == [f.values[0]];
  }

  lemma FirstValueFits(s: seq<byte>, f: Field)
    requires IsFixed(f) && f.values != [] && HoldsData(s, f)
    ensures f.elementSize <= |s|
  {
    ElementOfConcat(f.values, f.elementSize, 0);
  }

  lemma ConcatOne(v: seq<byte>)
    ensures Concat([v]) == v
  {
    assert Concat([v]) == Concat([v][..0]) + v;
  }

  // ----- what the builder writes

  /** Count and size of a field, which are next to each other. */
  function CountWords(count: nat, size: nat): (words: seq<byte>)
    ensures |words| == 8
  {
    Bytes32(count) + Bytes32(size)
  }

  /** A field header without its padding. */
  function FieldHeaderBytes(f: Field): (s: seq<byte>)
    requires IsName(f.name)
    ensures |s| == NAME_AT + |f.name| + 1
  {
    Bytes32(f.typeCode) + Bytes32(f.elementSize) + CountWords(|f.values|, FieldSize(f)) + Bytes16(HeaderSize(f))
        + f.name + [0]
  }

  predicate FitsHeader(f: Field) {
    && IsName(f.name) && IsInt32(f.typeCode) && IsInt32(f.elementSize)
    && |f.values| <= INT32_MAX && FieldSize(f) <= INT32_MAX && HeaderSize(f) <= INT16_MAX
  }

  lemma CountWordsHold(t: seq<byte>, count: nat, size: nat)
    requires |t| >= HEADER_SIZE_AT && count <= INT32_MAX && size <= INT32_MAX
    requires t[ELEMENT_COUNT_AT..HEADER_SIZE_AT] == CountWords(count, size)
    ensures GetInt32(t, ELEMENT_COUNT_AT) == count && GetInt32(t, FIELD_SIZE_AT) == size
  {
    hide GetInt32, Bytes32;
    Within(t, ELEMENT_COUNT_AT, HEADER_SIZE_AT, 0, 4);
    Within(t, ELEMENT_COUNT_AT, HEADER_SIZE_AT, 4, 8);
    Int32RoundTrip(t, ELEMENT_COUNT_AT, count);
    Int32RoundTrip(t, FIELD_SIZE_AT, size);
  }

  lemma HeaderBytesParts(f: Field)
    requires IsName(f.name)
    ensures var h := FieldHeaderBytes(f);
            && h[TYPE_AT..TYPE_AT + 4] == Bytes32(f.typeCode)
            && h[ELEMENT_SIZE_AT..ELEMENT_SIZE_AT + 4] == Bytes32(f.elementSize)
            && h[ELEMENT_COUNT_AT..HEADER_SIZE_AT] == CountWords(|f.values|, FieldSize(f))
            && h[HEADER_SIZE_AT..NAME_AT] == Bytes16(HeaderSize(f))
            && h[NAME_AT..NAME_AT + |f.name|] == f.name && h[NAME_AT + |f.name|] == 0
  {
    hide Bytes32, Bytes16, CountWords, FieldSize, HeaderSize;
  }

  /** A new field has no values yet. */
  lemma NewFieldHolds(s: seq<byte>, f: Field)
    requires FitsHeader(f) && f.values == [] && |s| == HeaderSize(f)
               && s[..NAME_AT + |f.name| + 1] == FieldHeaderBytes(f)
    ensures HoldsField(s, f) && FieldSize(f) == HeaderSize(f)
  {
    var h, e := FieldHeaderBytes(f), NAME_AT + |f.name| + 1;
    assert s[..e] == s[0..e] && h == h[0..e];
    hide GetInt32, GetInt16, Bytes32, Bytes16, CountWords, FieldHeaderBytes, Align, HeaderSize;
    HeaderBytesParts(f);
    SamePart(h, s, 0, e, TYPE_AT, TYPE_AT + 4);
    SamePart(h, s, 0, e, ELEMENT_SIZE_AT, ELEMENT_SIZE_AT + 4);
    SamePart(h, s, 0, e, ELEMENT_COUNT_AT, HEADER_SIZE_AT);
    SamePart(h, s, 0, e, HEADER_SIZE_AT, NAME_AT);
    SamePart(h, s, 0, e, NAME_AT, NAME_AT + |f.name|);
    Int32RoundTrip(s, TYPE_AT, f.typeCode);
    Int32RoundTrip(s, ELEMENT_SIZE_AT, f.elementSize);
    CountWordsHold(s, |f.values|, FieldSize(f));
    Int16RoundTrip(s, HEADER_SIZE_AT, HeaderSize(f));
    assert s[e - 1] == s[..e][e - 1];
  }

  /** A field whose count and size were rewritten, and whose data is that of more values. */
  lemma FieldRewritten(s: seq<byte>, t: seq<byte>, f: Field, values: seq<seq<byte>>)
    requires HoldsField(s, f) && |values| <= INT32_MAX && |t| <= INT32_MAX && |t| >= HeaderSize(f)
    requires t[..ELEMENT_COUNT_AT] == s[..ELEMENT_COUNT_AT]
               && t[HEADER_SIZE_AT..HeaderSize(f)] == s[HEADER_SIZE_AT..HeaderSize(f)]
    requires t[ELEMENT_COUNT_AT..HEADER_SIZE_AT] == CountWords(|values|, |t|)
    requires var g := f.(values := values); HoldsData(t[HeaderSize(f)..], g) && DataSize(g) == |t| - HeaderSize(f)
    ensures HoldsField(t, f.(values := values))
  {
    hide GetInt32, CountWords, HoldsHeader, HoldsData, DataSize, Align;
    CountWordsHold(t, |values|, |t|);
    HeaderRewritten(s, t, f, values);
  }

  /** The last field of a message with more values. */
  function WithMore(fields: seq<Field>, more: seq<seq<byte>>): (r: seq<Field>)
    requires fields != []
    ensures |r| == |fields|
  {
    var last := fields[|fields| - 1];
    fields[..|fields| - 1] + [last.(values := last.values + more)]
  }

  /** n is m with the last field, at o, rewritten from its count on up to `from`, where the new
      data starts. */
  ghost predicate Extends(m: seq<byte>, n: seq<byte>, o: nat, count: nat) {
    && HEADER_SIZE <= o && o + FIELD_HEADER_SIZE <= |m| <= |n|
    && n[HEADER_SIZE..o + ELEMENT_COUNT_AT] == m[HEADER_SIZE..o + ELEMENT_COUNT_AT]
    && n[o + ELEMENT_COUNT_AT..o + HEADER_SIZE_AT] == CountWords(count, |n| - o)
    && n[o + HEADER_SIZE_AT..|m|] == m[o + HEADER_SIZE_AT..|m|]
  }

  /** The last field of a message. */
  lemma LastField(m: seq<byte>, fields: seq<Field>)
    requires Encodes(m, fields) && fields != []
    ensures var o, f := Start(fields, |fields| - 1), fields[|fields| - 1];
            o + FieldSize(f) == |m| && HoldsField(m[o..], f) && HoldsData(m[o..][HeaderSize(f)..], f)
  {
    hide HoldsField, FieldSize, Align, HoldsData, HeaderSize, End;
    var o, f := Start(fields, |fields| - 1), fields[|fields| - 1];
    InPlace(m, fields, |fields| - 1);
    assert m[o..] == m[o..|m|];
    FieldData(m, o, f);
    assert m[o..][HeaderSize(f)..] == m[o + HeaderSize(f)..|m|];
  }

  /** What Extends says about the last field alone; h is the size of its header. */
  lemma ExtendsParts(m: seq<byte>, n: seq<byte>, o: nat, count: nat, h: nat)
    requires Extends(m, n, o, count) && FIELD_HEADER_SIZE <= h && o + h <= |m|
    ensures |m| <= |n|
    ensures var s, t := m[o..], n[o..];
            && t[..ELEMENT_COUNT_AT] == s[..ELEMENT_COUNT_AT] && t[HEADER_SIZE_AT..h] == s[HEADER_SIZE_AT..h]
            && t[ELEMENT_COUNT_AT..HEADER_SIZE_AT] == CountWords(count, |t|)
            && t[h..] == s[h..] + t[|s|..] && n[HEADER_SIZE..o] == m[HEADER_SIZE..o]
  {
    hide CountWords;
    SamePart(m, n, HEADER_SIZE, o + ELEMENT_COUNT_AT, HEADER_SIZE, o);
    SameTail(m, n, HEADER_SIZE, o + ELEMENT_COUNT_AT, o, 0, ELEMENT_COUNT_AT);
    SameTail(m, n, o + HEADER_SIZE_AT, |m|, o, HEADER_SIZE_AT, h);
    SameTail(m, n, o + HEADER_SIZE_AT, |m|, o, h, |m| - o);
    TailPart(n, o, ELEMENT_COUNT_AT, HEADER_SIZE_AT);
    hide Extends;
    var s, t := m[o..], n[o..];
    assert t[h..] == t[h..|s|] + t[|s|..] && s[h..] == s[h..|s|];
  }

  lemma SameTail(m: seq<byte>, n: seq<byte>, a: nat, b: nat, o: nat, i: nat, j: nat)
    requires a <= o + i <= o + j <= b <= |m| && b <= |n| && m[a..b] == n[a..b]
    ensures m[o..][i..j] == n[o..][i..j]
  {
    SamePart(m, n, a, b, o + i, o + j);
    TailPart(m, o, i, j);
    TailPart(n, o, i, j);
  }

  lemma TailPart(m: seq<byte>, o: nat, i: nat, j: nat)
    requires o <= |m| && i <= j <= |m| - o
    ensures m[o..][i..j] == m[o + i..o + j]
  {
    Within(m, o, |m|, i, j);
    assert m[o..] == m[o..|m|];
  }

  /** _AddFieldData for values of a fixed size. */
  lemma MessageAppendFixed(m: seq<byte>, n: seq<byte>, fields: seq<Field>, more: seq<seq<byte>>)
    requires Encodes(m, fields) && fields != [] && |n| <= INT32_MAX
    requires var f := fields[|fields| - 1];
             && IsFixed(f) && (forall v <- more :: |v| == f.elementSize) && |f.values| + |more| <= INT32_MAX
             && Extends(m, n, Start(fields, |fields| - 1), |f.values| + |more|)
    requires n[|m|..] == Concat(more)
    ensures Encodes(n, WithMore(fields, more))
  {
    hide Encodes, Align, CountWords, HoldsHeader, HeaderSize, Concat, HoldsData, DataSize, Extends;
    var o, f := Start(fields, |fields| - 1), fields[|fields| - 1];
    LastField(m, fields);
    ExtendsParts(m, n, o, |f.values| + |more|, HeaderSize(f));
    var s, t := m[o..], n[o..];
    assert t[|s|..] == n[|m|..];
    DataAppendFixed(s[HeaderSize(f)..], t[HeaderSize(f)..], f, more);
    FieldRewritten(s, t, f, f.values + more);
    EncodesReplaceLast(m, n, fields, f.(values := f.values + more));
  }

  /** A word and what follows it, in the tail of a message. */
  lemma TailWord(n: seq<byte>, k: nat, at: nat)
    requires k <= at && at + 4 <= |n|
    ensures GetInt32(n[k..], at - k) == GetInt32(n, at) && n[k..][at - k + 4..] == n[at + 4..]
  {
    hide GetInt32;
    assert n[k..][at - k..at - k + 4] == n[at..at + 4];
    GetSame32(n, at, n[k..], at - k);
  }

  /** One turn of _AddFieldData for values of variable size. */
  lemma MessageAppendVariable(m: seq<byte>, n: seq<byte>, fields: seq<Field>, v: seq<byte>)
    requires Encodes(m, fields) && fields != [] && |n| <= INT32_MAX
    requires var f := fields[|fields| - 1];
             !IsFixed(f) && |f.values| < INT32_MAX && Extends(m, n, Start(fields, |fields| - 1), |f.values| + 1)
    requires var at := Align(|m|); |n| == at + 4 + |v| && n[at..at + 4] == Bytes32(|v|) && n[at + 4..] == v
    ensures Encodes(n, WithMore(fields, [v]))
  {
    hide Encodes, Align, CountWords, HoldsHeader, HeaderSize, HoldsData, DataSize, Extends, Bytes32, GetInt32;
    var o, f := Start(fields, |fields| - 1), fields[|fields| - 1];
    LastField(m, fields);
    ExtendsParts(m, n, o, |f.values| + 1, HeaderSize(f));
    var s, t := m[o..], n[o..];
    var h, at := HeaderSize(f), Align(|m|);
    AlignSum(o, |s|);
    AlignSum(h, |s| - h);
    Int32RoundTrip(n, at, |v|);
    var x := t[h..];
    assert x == n[o + h..];
    TailWord(n, o + h, at);
    assert x[..|s| - h] == s[h..];
    DataAppendVariable(s[h..], x, f, v);
    FieldRewritten(s, t, f, f.values + [v]);
    EncodesReplaceLast(m, n, fields, f.(values := f.values + [v]));
  }

  /** SetData on a field that has a value. */
  lemma MessageReplaceFirst(m: seq<byte>, n: seq<byte>, fields: seq<Field>, k: nat, v: seq<byte>)
    requires Encodes(m, fields) && k < |fields|
    requires var f := fields[k];
             && IsFixed(f) && f.values != [] && |v| == f.elementSize
             && var at := Start(fields, k) + HeaderSize(f);
                at + |v| <= |m| ==> |n| == |m| && n == m[..at] + v + m[at + |v|..]
    ensures var f := fields[k]; Start(fields, k) + HeaderSize(f) + |v| <= |m|
    ensures Encodes(n, fields[k := fields[k].(values := fields[k].values[0 := v])])
  {
    hide Encodes, Align, CountWords, HoldsHeader, HoldsData, DataSize, End;
    var o, f := Start(fields, k), fields[k];
    var h, e, g := HeaderSize(f), End(fields, k + 1), f.(values := f.values[0 := v]);
    InPlace(m, fields, k);
    FieldData(m, o, f);
    var s, d := m[o..e], m[o + h..e];
    assert s[h..] == d;
    FirstValueFits(d, f);
    DataReplaceFirst(d, v + d[|v|..], f, v);
    ReplacedParts(m, n, o, e, h, v);
    var t := n[o..e];
    HeaderKept(s, t, f, g);
    EncodesReplace(m, n, fields, k, g);
  }

  lemma ReplacedParts(m: seq<byte>, n: seq<byte>, o: nat, e: nat, h: nat, v: seq<byte>)
    requires HEADER_SIZE <= o && o + h + |v| <= e <= |m| && n == m[..o + h] + v + m[o + h + |v|..]
    ensures |n| == |m| && n[HEADER_SIZE..o] == m[HEADER_SIZE..o] && n[e..] == m[e..]
    ensures n[o..e][..h] == m[o..e][..h] && n[o..e][h..] == v + m[o + h..e][|v|..]
  {
    forall i | 0 <= i < |m| ensures n[i] == if o + h <= i < o + h + |v| then v[i - o - h] else m[i] {
    }
    var d, x := m[o + h..e][|v|..], n[o..e][h..];
    forall i | 0 <= i < |x| ensures x[i] == (v + d)[i] {
      assert x[i] == n[o + h + i];
    }
    assert x == v + d;
    forall i | 0 <= i < h ensures n[o..e][..h][i] == m[o..e][..h][i] {
      assert n[o + i] == m[o + i];
    }
    assert n[o..e][..h] == m[o..e][..h];
  }

  lemma HeaderKept(s: seq<byte>, t: seq<byte>, f: Field, g: Field)
    requires HoldsHeader(s, f) && g == f.(values := g.values) && |g.values| == |f.values|
               && FieldSize(g) == FieldSize(f)
    requires |t| == |s| && t[..HeaderSize(f)] == s[..HeaderSize(f)]
    ensures HoldsHeader(t, g)
  {
    hide FieldSize, GetInt32, GetInt16, Align;
    var h := HeaderSize(f);
    assert t[..h] == t[0..h] && s[..h] == s[0..h];
    SamePart(s, t, 0, h, ELEMENT_COUNT_AT, ELEMENT_COUNT_AT + 4);
    SamePart(s, t, 0, h, FIELD_SIZE_AT, FIELD_SIZE_AT + 4);
    SamePart(s, t, 0, h, 0, ELEMENT_COUNT_AT);
    SamePart(s, t, 0, h, HEADER_SIZE_AT, h);
    GetSame32(s, ELEMENT_COUNT_AT, t, ELEMENT_COUNT_AT);
    GetSame32(s, FIELD_SIZE_AT, t, FIELD_SIZE_AT);
    assert t[..ELEMENT_COUNT_AT] == t[0..ELEMENT_COUNT_AT] && s[..ELEMENT_COUNT_AT] == s[0..ELEMENT_COUNT_AT];
    HeaderRewritten(s, t, f, g.values);
  }

  /** _AddField */
  lemma MessageAddField(m: seq<byte>, n: seq<byte>, fields: seq<Field>, f: Field)
    requires Encodes(m, fields) && FitsHeader(f) && f.values == []
    requires var o := Align(|m|);
             && |n| == o + HeaderSize(f) && HEADER_SIZE <= |m| && n[HEADER_SIZE..|m|] == m[HEADER_SIZE..]
             && n[o..o + NAME_AT + |f.name| + 1] == FieldHeaderBytes(f)
    ensures Start(fields, |fields|) == Align(|m|) && Encodes(n, fields + [f])
  {
    hide Encodes, Align, FieldHeaderBytes, HoldsField, FieldSize, HeaderSize, End;
    var o := Align(|m|);
    assert m[..|m|] == m;
    SameSize(m, |m|, fields);
    TailPart(n, o, 0, NAME_AT + |f.name| + 1);
    NewFieldHolds(n[o..], f);
    EncodesAppend(m, n, fields, f);
  }

  // ----- writes and the parts they leave alone

  lemma WriteMisses(s: seq<byte>, at: nat, w: seq<byte>, i: nat, j: nat)
    requires at + |w| <= |s| && i <= j <= |s| && (j <= at || at + |w| <= i)
    ensures Write(s, at, w)[i..j] == s[i..j]
  {
  }

  lemma WriteContent(b: seq<byte>, at: nat, w: seq<byte>)
    requires HeaderIsGood(b) && HEADER_SIZE <= at && at + |w| <= |Content(b)|
    ensures var c := Write(b, at, w); HeaderIsGood(c) && Content(c) == Write(Content(b), at, w)
  {
    hide GetInt32;
    var c := Write(b, at, w);
    WriteMisses(b, at, w, MAGIC_AT, MAGIC_AT + 4);
    WriteMisses(b, at, w, SIZE_AT, SIZE_AT + 4);
    GetSame32(b, MAGIC_AT, c, MAGIC_AT);
    GetSame32(b, SIZE_AT, c, SIZE_AT);
  }

  /** c is b with room for newSize bytes of content; what was there is kept. */
  ghost predicate Grown(b: seq<byte>, c: seq<byte>, newSize: nat)
    requires HeaderIsGood(b)
  {
    var size := |Content(b)|;
    && size <= newSize <= |c| && HeaderIsGood(c) && |Content(c)| == newSize
    && Content(c)[HEADER_SIZE..size] == Content(b)[HEADER_SIZE..] && c[WHAT_AT..HEADER_SIZE] == b[WHAT_AT..HEADER_SIZE]
  }

  lemma GrownBy(b: seq<byte>, more: seq<byte>, newSize: nat)
    requires HeaderIsGood(b) && |Content(b)| <= newSize <= |b| + |more| && newSize <= INT32_MAX
    ensures Grown(b, Write(b + more, SIZE_AT, Bytes32(newSize)), newSize)
  {
    hide GetInt32, Bytes32;
    var d := b + more;
    var c := Write(d, SIZE_AT, Bytes32(newSize));
    var size := |Content(b)|;
    Int32RoundTrip(c, SIZE_AT, newSize);
    WriteMisses(d, SIZE_AT, Bytes32(newSize), MAGIC_AT, MAGIC_AT + 4);
    assert d[MAGIC_AT..MAGIC_AT + 4] == b[MAGIC_AT..MAGIC_AT + 4];
    GetSame32(b, MAGIC_AT, c, MAGIC_AT);
    WriteMisses(d, SIZE_AT, Bytes32(newSize), HEADER_SIZE, size);
    assert c[..newSize][HEADER_SIZE..size] == c[HEADER_SIZE..size]
           && d[HEADER_SIZE..size] == b[HEADER_SIZE..size] == b[..size][HEADER_SIZE..];
    WriteMisses(d, SIZE_AT, Bytes32(newSize), WHAT_AT, HEADER_SIZE);
    assert d[WHAT_AT..HEADER_SIZE] == b[WHAT_AT..HEADER_SIZE];
  }

  /** Writing new data at the end and then count and size of the last field extends it. */
  lemma WritesExtend(m: seq<byte>, m1: seq<byte>, o: nat, at: nat, data: seq<byte>, count: nat)
    requires HEADER_SIZE <= o && o + FIELD_HEADER_SIZE <= |m| <= at && at + |data| == |m1|
    requires m1[HEADER_SIZE..|m|] == m[HEADER_SIZE..]
    ensures var n := Write(Write(m1, at, data), o + ELEMENT_COUNT_AT, CountWords(count, |m1| - o));
            Extends(m, n, o, count) && n[at..] == data
  {
    hide CountWords, Write;
    var w := CountWords(count, |m1| - o);
    var m2 := Write(m1, at, data);
    var n := Write(m2, o + ELEMENT_COUNT_AT, w);
    WriteMisses(m1, at, data, HEADER_SIZE, o + ELEMENT_COUNT_AT);
    WriteMisses(m1, at, data, o + HEADER_SIZE_AT, |m|);
    WriteMisses(m2, o + ELEMENT_COUNT_AT, w, HEADER_SIZE, o + ELEMENT_COUNT_AT);
    WriteMisses(m2, o + ELEMENT_COUNT_AT, w, o + HEADER_SIZE_AT, |m|);
    WriteMisses(m2, o + ELEMENT_COUNT_AT, w, at, |n|);
    assert m[HEADER_SIZE..] == m[HEADER_SIZE..|m|];
    SamePart(m, m1, HEADER_SIZE, |m|, HEADER_SIZE, o + ELEMENT_COUNT_AT);
    SamePart(m, m1, HEADER_SIZE, |m|, o + HEADER_SIZE_AT, |m|);
    assert n[at..] == n[at..|n|] && m2[at..|n|] == data;
  }

  // ----- reading elements

  lemma {:induction false} ConcatSize(values: seq<seq<byte>>, size: nat)
    requires forall v <- values :: |v| == size
    ensures |Concat(values)| == size * |values|
  {
    if values != [] {
      var n := |values| - 1;
      assert |values[n]| == size;
      ConcatSize(values[..n], size);
      OneMore(size, n);
    }
  }

  lemma OneMore(size: nat, n: nat)
    ensures size * n + size == size * (n + 1)
  {
  }

  /** The i-th value of a fixed size is where ElementAt looks for it. */
  lemma ElementOfConcat(values: seq<seq<byte>>, size: nat, i: nat)
    requires i < |values| && forall v <- values :: |v| == size
    ensures 0 <= size * i <= size * i + size <= |Concat(values)|
              && Concat(values)[size * i..size * i + size] == values[i]
  {
    var a, b := values[..i], values[i..];
    ConcatSize(a, size);
    ConcatAt(values, i);
    assert |values[i]| == size;
    hide Concat;
    var n := size * i;
    assert |Concat(a)| == n;
  }

  lemma ConcatAt(values: seq<seq<byte>>, i: nat)
    requires i < |values|
    ensures var at := |Concat(values[..i])|;
            at + |values[i]| <= |Concat(values)| && Concat(values)[at..at + |values[i]|] == values[i]
  {
    var a, b := values[..i], values[i + 1..];
    assert values == a + ([values[i]] + b);
    ConcatAppend(a, [values[i]] + b);
    ConcatAppend([values[i]], b);
    ConcatOne(values[i]);
    hide Concat;
    assert Concat(values) == Concat(a) + (values[i] + Concat(b));
  }
}
