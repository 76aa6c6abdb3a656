/** The message class: a buffer that grows, with a builder, an editor, a walker and a parser. */
module KMessages {
  import opened Collections
  import opened KMessageBytes
  import opened KMessageParser
  import opened KMessageFields
  import opened KMessageEdits
  import opened HaikuTypes

  const CHUNK: int := 64

  /** _CapacityFor */
  function CapacityFor(size: nat): (capacity: nat)
    ensures size <= capacity < size + CHUNK && capacity % CHUNK == 0
  {
    (size + CHUNK - 1) / CHUNK * CHUNK
  }

  // ----- looking for a field

  predicate Matches(f: Field, name: seq<byte>, typeCode: int) {
    (typeCode == B_ANY_TYPE || f.typeCode == typeCode) && f.name == name
  }

  /** The first field with this name and type; |fields| if there is none. */
  function IndexOf(fields: seq<Field>, name: seq<byte>, typeCode: int): (k: nat)
    ensures k <= |fields| && (k < |fields| ==> Matches(fields[k], name, typeCode))
    ensures forall i :: 0 <= i < k ==> !Matches(fields[i], name, typeCode)
  {
    if fields == [] then 0
    else
      var k := IndexOf(fields[..|fields| - 1], name, typeCode);
      if k < |fields| - 1 || Matches(fields[|fields| - 1], name, typeCode) then k else |fields|
  }

  lemma IndexOfIs(fields: seq<Field>, name: seq<byte>, typeCode: int, k: nat)
    requires k <= |fields| && (k < |fields| ==> Matches(fields[k], name, typeCode))
    requires forall i :: 0 <= i < k ==> !Matches(fields[i], name, typeCode)
    ensures IndexOf(fields, name, typeCode) == k
  {
  }

  /** Headers that can be walked by NextFieldHeader. */
  ghost predicate Linked(m: seq<byte>, offsets: seq<nat>) {
    && (offsets != [] ==> offsets[0] == HEADER_SIZE)
    && (forall i :: 0 <= i < |offsets| ==> HasHeader(m, offsets[i]) && HEADER_SIZE <= offsets[i])
    && (forall i, j :: 0 <= i < j < |offsets| ==> offsets[i] < offsets[j])
    && (forall i, j :: 0 <= i < j < |offsets| && j == i + 1 ==> offsets[j] == NextAt(m, offsets[i]))
  }

  /** What the parser accepts can be walked. */
  lemma WalksLinked(m: seq<byte>, offsets: seq<nat>)
    requires Walks(m, HEADER_SIZE, offsets)
    ensures Linked(m, offsets)
  {
    hide FieldInside, NextAt;
    forall i: nat | i < |offsets| ensures HasHeader(m, offsets[i]) && HEADER_SIZE <= offsets[i]
        && (i + 1 < |offsets| ==> offsets[i + 1] == NextAt(m, offsets[i])) {
      assert Step(m, offsets, i);
      InsideHasHeader(m, offsets[i]);
      if i > 0 {
        WalkIncreases(m, HEADER_SIZE, offsets, 0, i);
      }
    }
    forall i: nat, j: nat | i < j < |offsets| ensures offsets[i] < offsets[j] {
      WalkIncreases(m, HEADER_SIZE, offsets, i, j);
    }
  }

  lemma InsideHasHeader(m: seq<byte>, o: nat)
    requires FieldInside(m, o)
    ensures HasHeader(m, o)
  {
  }

  /** What the builder makes can be walked. */
  lemma StartsLinked(m: seq<byte>, fields: seq<Field>)
    requires Encodes(m, fields)
    ensures Linked(m, Starts(fields))
  {
    hide Encodes, NextAt, HoldsField, FieldSize, Align, IsParsable, CheckField, HasHeader, End;
    forall i: nat | i < |fields| ensures HasHeader(m, Start(fields, i))
        && NextAt(m, Start(fields, i)) == Start(fields, i + 1) {
      ParseField(m, fields, i);
    }
    forall i: nat, j: nat | i < j < |fields| ensures Start(fields, i) < Start(fields, j) {
      StartsIncrease(m, fields, i, j);
    }
    FirstStart(fields);
    hide Start;
  }

  lemma FirstStart(fields: seq<Field>)
    ensures Start(fields, 0) == HEADER_SIZE
  {
  }

  lemma StartsIncrease(m: seq<byte>, fields: seq<Field>, i: nat, j: nat)
    requires Encodes(m, fields) && i < j < |fields|
    ensures Start(fields, i) < Start(fields, j) < |m|
  {
    hide Encodes, HoldsField, FieldSize, End;
    InPlace(m, fields, i);
    InPlace(m, fields, j);
    EndsInOrder(fields, i + 1, j);
  }

  /** A value of a fixed size, in the whole message. */
  lemma FixedElement(m: seq<byte>, o: nat, f: Field, i: nat)
    requires o + FieldSize(f) <= |m| && HoldsField(m[o..o + FieldSize(f)], f) && IsFixed(f) && i < |f.values|
    ensures var at := o + HeaderSize(f) + f.elementSize * i;
            && 0 <= f.elementSize * i && at + f.elementSize <= |m| && |f.values[i]| == f.elementSize
            && m[at..at + f.elementSize] == f.values[i]
  {
    hide HoldsField, HeaderSize, Concat, Align;
    FieldData(m, o, f);
    ElementOfConcat(f.values, f.elementSize, i);
    assert |f.values[i]| == f.elementSize;
    var n := f.elementSize * i;
    Within(m, o + HeaderSize(f), o + FieldSize(f), n, n + f.elementSize);
  }

  /** The values of variable size of a field, in the whole message. */
  lemma VariableElement(m: seq<byte>, o: nat, f: Field, i: nat)
    requires o + FieldSize(f) <= |m| && HoldsField(m[o..o + FieldSize(f)], f) && !IsFixed(f) && i < |f.values|
               && o % 4 == 0
    ensures var at := o + HeaderSize(f) + Align(ValueEnd(f.values, i));
            && at % 4 == 0 && at + 4 + |f.values[i]| <= |m| && GetInt32(m, at) == |f.values[i]|
            && m[at + 4..at + 4 + |f.values[i]|] == f.values[i]
            && Align(at + 4 + |f.values[i]|) == o + HeaderSize(f) + Align(ValueEnd(f.values, i + 1))
  {
    hide HoldsField, HeaderSize, Concat, Align, HoldsValues, GetInt32, ValueEnd;
    FieldData(m, o, f);
    ValueWord(m, o + HeaderSize(f), f.values, i);
    AlignSum(o + HeaderSize(f), ValueEnd(f.values, i + 1));
  }

  lemma FirstValue(values: seq<seq<byte>>)
    ensures Align(ValueEnd(values, 0)) == 0
  {
  }

  // ----- writing

  /** _AddField: the header of f written behind a message that was given room for it. */
  lemma FieldAdded(b: seq<byte>, c: seq<byte>, fields: seq<Field>, f: Field)
    requires HeaderIsGood(b) && Encodes(Content(b), fields) && FitsHeader(f) && f.values == []
    requires Grown(b, c, Align(|Content(b)|) + HeaderSize(f))
    ensures var o := Align(|Content(b)|); var d := Write(c, o, FieldHeaderBytes(f));
            && HeaderIsGood(d) && |Content(d)| == o + HeaderSize(f) && Encodes(Content(d), fields + [f])
            && Start(fields + [f], |fields|) == o && |d| == |c| && d[WHAT_AT..HEADER_SIZE] == c[WHAT_AT..HEADER_SIZE]
  {
    hide Encodes, Align, FieldHeaderBytes, GetInt32, MAGIC, HeaderSize, Start, Write;
    var o, w := Align(|Content(b)|), FieldHeaderBytes(f);
    WriteContent(c, o, w);
    var m, n := Content(b), Write(Content(c), o, w);
    WriteMisses(Content(c), o, w, HEADER_SIZE, |m|);
    MessageAddField(m, n, fields, f);
    StartOfPrefix(fields, f);
    WriteKeepsEnvelope(c, o, w);
  }

  lemma NewHeaderBytes(f: Field, size: nat)
    requires FitsHeader(f) && f.values == [] && size == HeaderSize(f) == FieldSize(f)
    ensures FieldHeaderBytes(f) == Bytes32(f.typeCode) + Bytes32(f.elementSize) + CountWords(0, size) + Bytes16(size)
                                     + f.name + [0]
  {
    hide Bytes32, Bytes16;
  }

  lemma StartOfPrefix(fields: seq<Field>, f: Field)
    ensures Start(fields + [f], |fields|) == Start(fields, |fields|)
  {
    hide End;
    assert (fields + [f])[..|fields|] == fields[..|fields|];
    EndOfPrefix(fields + [f], fields, |fields|);
  }

  lemma FixedWritten(b: seq<byte>, c: seq<byte>, fields: seq<Field>, more: seq<seq<byte>>, o: nat, size: nat,
                     count: nat)
    requires HeaderIsGood(b) && Encodes(Content(b), fields) && fields != [] && o == Start(fields, |fields| - 1)
    requires var f := fields[|fields| - 1];
             IsFixed(f) && (forall v <- more :: |v| == f.elementSize) && count == |f.values| + |more| <= INT32_MAX
    requires size == |Content(b)| + |Concat(more)| && Grown(b, c, size)
    ensures HEADER_SIZE <= o && o + FIELD_HEADER_SIZE <= |Content(b)| && size <= |c|
    ensures var d := Write(Write(c, |Content(b)|, Concat(more)), o + ELEMENT_COUNT_AT, CountWords(count, size - o));
            HeaderIsGood(d) && Encodes(Content(d), WithMore(fields, more))
  {
    hide Encodes, Align, GetInt32, MAGIC, HeaderSize, Start, Write, Concat, CountWords, Extends, HoldsField, HoldsData,
         WithMore, Grown;
    LastField(Content(b), fields);
    GrownRoom(b, c, size);
    var m, data, w := Content(b), Concat(more), CountWords(count, size - o);
    WriteContent(c, |m|, data);
    WriteContent(Write(c, |m|, data), o + ELEMENT_COUNT_AT, w);
    WritesExtend(m, Content(c), o, |m|, data, count);
    MessageAppendFixed(m, Write(Write(Content(c), |m|, data), o + ELEMENT_COUNT_AT, w), fields, more);
  }

  /** _AddFieldData, fixed size: the values and then count and size of the last field, which is
      at o, are written. */
  lemma FixedAdded(b: seq<byte>, c: seq<byte>, fields: seq<Field>, more: seq<seq<byte>>, o: nat, size: nat, count: nat)
    requires HoldsFields(b, fields, o) && fields != []
    requires var f := fields[|fields| - 1];
             IsFixed(f) && (forall v <- more :: |v| == f.elementSize) && count == |f.values| + |more| <= INT32_MAX
    requires size == |Content(b)| + |Concat(more)| && Grown(b, c, size)
    ensures HEADER_SIZE <= o && o + FIELD_HEADER_SIZE <= |Content(b)| && size <= |c|
    ensures var d := Write(Write(c, |Content(b)|, Concat(more)), o + ELEMENT_COUNT_AT, CountWords(count, size - o));
            && HoldsFields(d, WithMore(fields, more), o)
            && |d| == |c| && d[WHAT_AT..HEADER_SIZE] == c[WHAT_AT..HEADER_SIZE]
  {
    hide Encodes, Align, GetInt32, MAGIC, Start, Write, Concat, CountWords, WithMore, Grown, Content, HeaderIsGood;
    FixedWritten(b, c, fields, more, o, size, count);
    LastMoves(fields, more);
    WriteKeepsEnvelope(c, |Content(b)|, Concat(more));
    WriteKeepsEnvelope(Write(c, |Content(b)|, Concat(more)), o + ELEMENT_COUNT_AT, CountWords(count, size - o));
  }

  /** _AddFieldData, variable size: one value behind its size, and then count and size of the
      last field, are written. */
  lemma VariableAdded(b: seq<byte>, c: seq<byte>, fields: seq<Field>, v: seq<byte>, o: nat, at: nat)
    requires HeaderIsGood(b) && Encodes(Content(b), fields) && fields != [] && o == Start(fields, |fields| - 1)
    requires var f := fields[|fields| - 1]; !IsFixed(f) && |f.values| < INT32_MAX
    requires at == Align(|Content(b)|) && Grown(b, c, at + 4 + |v|)
    ensures o + FIELD_HEADER_SIZE <= |Content(b)| && at + 4 + |v| <= |c|
    ensures var w := CountWords(|fields[|fields| - 1].values| + 1, at + 4 + |v| - o);
            var d := Write(Write(c, at, Bytes32(|v|) + v), o + ELEMENT_COUNT_AT, w);
            && HeaderIsGood(d) && |Content(d)| == at + 4 + |v| && Encodes(Content(d), WithMore(fields, [v]))
            && |d| == |c| && d[WHAT_AT..HEADER_SIZE] == c[WHAT_AT..HEADER_SIZE]
  {
    hide Encodes, Align, GetInt32, MAGIC, HeaderSize, Start, Write, CountWords, Extends, Bytes32, HoldsField, HoldsData,
         WithMore, Grown;
    LastField(Content(b), fields);
    GrownRoom(b, c, at + 4 + |v|);
    var m, data := Content(b), Bytes32(|v|) + v;
    var w := CountWords(|fields[|fields| - 1].values| + 1, at + 4 + |v| - o);
    WriteContent(c, at, data);
    WriteContent(Write(c, at, data), o + ELEMENT_COUNT_AT, w);
    WritesExtend(m, Content(c), o, at, data, |fields[|fields| - 1].values| + 1);
    var n := Write(Write(Content(c), at, data), o + ELEMENT_COUNT_AT, w);
    assert n[at..at + 4] == n[at..][..4] && n[at + 4..] == n[at..][4..];
    MessageAppendVariable(m, n, fields, v);
    WriteKeepsEnvelope(c, at, data);
    WriteKeepsEnvelope(Write(c, at, data), o + ELEMENT_COUNT_AT, w);
  }

  /** The content is aligned while the last field has no values. */
  lemma EmptyFieldIsAligned(m: seq<byte>, fields: seq<Field>)
    requires Encodes(m, fields) && fields != [] && fields[|fields| - 1].values == []
    ensures Align(|m|) == |m|
  {
    hide HoldsField, Align, End;
    LastField(m, fields);
    AlignAligned(|m|);
  }

  // ----- the header

  function HeaderBytes(what: int): (s: seq<byte>)
    ensures |s| == HEADER_SIZE
  {
    Bytes32(MAGIC) + Bytes32(HEADER_SIZE) + Bytes32(what) + Bytes32(-1) + Bytes32(-1) + Bytes32(-1) + Bytes32(-1)
  }

  /** The words of a message header that are about its delivery. */
  ghost predicate HasEnvelope(b: seq<byte>, what: int)
    requires |b| >= HEADER_SIZE
  {
    && GetInt32(b, WHAT_AT) == what && GetInt32(b, SENDER_AT) == -1 && GetInt32(b, TARGET_TOKEN_AT) == -1
    && GetInt32(b, REPLY_PORT_AT) == -1 && GetInt32(b, REPLY_TOKEN_AT) == -1
  }

  lemma HeaderWords(b: seq<byte>, what: int)
    requires |b| >= HEADER_SIZE && b[..HEADER_SIZE] == HeaderBytes(what)
    ensures IsInt32(what) ==> HasEnvelope(b, what)
  {
    hide GetInt32, Bytes32;
    var h := b[..HEADER_SIZE];
    if IsInt32(what) {
      assert b[WHAT_AT..WHAT_AT + 4] == h[WHAT_AT..WHAT_AT + 4] == Bytes32(what);
      Int32RoundTrip(b, WHAT_AT, what);
    }
    assert b[SENDER_AT..SENDER_AT + 4] == h[SENDER_AT..SENDER_AT + 4] == Bytes32(-1);
    assert b[TARGET_TOKEN_AT..TARGET_TOKEN_AT + 4] == h[TARGET_TOKEN_AT..TARGET_TOKEN_AT + 4] == Bytes32(-1);
    assert b[REPLY_PORT_AT..REPLY_PORT_AT + 4] == h[REPLY_PORT_AT..REPLY_PORT_AT + 4] == Bytes32(-1);
    assert b[REPLY_TOKEN_AT..REPLY_TOKEN_AT + 4] == h[REPLY_TOKEN_AT..REPLY_TOKEN_AT + 4] == Bytes32(-1);
    Int32RoundTrip(b, SENDER_AT, -1);
    Int32RoundTrip(b, TARGET_TOKEN_AT, -1);
    Int32RoundTrip(b, REPLY_PORT_AT, -1);
    Int32RoundTrip(b, REPLY_TOKEN_AT, -1);
  }

  /** Writing behind the header leaves it as it is. */
  lemma WriteKeepsEnvelope(b: seq<byte>, at: nat, w: seq<byte>)
    requires HEADER_SIZE <= at && at + |w| <= |b|
    ensures Write(b, at, w)[WHAT_AT..HEADER_SIZE] == b[WHAT_AT..HEADER_SIZE]
  {
    WriteMisses(b, at, w, WHAT_AT, HEADER_SIZE);
  }

  // ----- how large a message gets

  lemma SizeWithField(fields: seq<Field>, f: Field)
    ensures ContentSize(fields + [f]) == Align(ContentSize(fields)) + FieldSize(f)
  {
    StartOfPrefix(fields, f);
  }

  lemma SizeOfLast(fields: seq<Field>)
    requires fields != []
    ensures ContentSize(fields) == Start(fields, |fields| - 1) + FieldSize(fields[|fields| - 1])
  {
    hide Start, FieldSize;
  }

  /** What the last field takes grows with its values. */
  lemma SizeWithMore(fields: seq<Field>, more: seq<seq<byte>>, i: nat)
    requires fields != [] && i <= |more|
    ensures ContentSize(WithMore(fields, more[..i])) <= ContentSize(WithMore(fields, more))
  {
    hide Start, ContentSize, Concat, ValueEnd;
    var last := fields[|fields| - 1];
    SizeOfLast(WithMore(fields, more));
    SizeOfLast(WithMore(fields, more[..i]));
    LastMoves(fields, more);
    LastMoves(fields, more[..i]);
    assert last.values + more == (last.values + more[..i]) + more[i..];
    ConcatAppend(last.values + more[..i], more[i..]);
    ValuesGrow(last.values + more[..i], more[i..]);
  }

  lemma SizeWithFixed(fields: seq<Field>, more: seq<seq<byte>>)
    requires fields != [] && IsFixed(fields[|fields| - 1])
    ensures ContentSize(WithMore(fields, more)) == ContentSize(fields) + |Concat(more)|
  {
    hide Start, ContentSize, Concat, ValueEnd, Align;
    SizeOfLast(fields);
    SizeOfLast(WithMore(fields, more));
    LastMoves(fields, more);
    ConcatAppend(fields[|fields| - 1].values, more);
  }

  lemma SizeWithVariable(fields: seq<Field>, v: seq<byte>)
    requires fields != [] && !IsFixed(fields[|fields| - 1])
    ensures ContentSize(WithMore(fields, [v])) == Align(ContentSize(fields)) + 4 + |v|
  {
    hide Start, ContentSize, Concat, Align, ValueEnd;
    var last := fields[|fields| - 1];
    SizeOfLast(fields);
    SizeOfLast(WithMore(fields, [v]));
    LastMoves(fields, [v]);
    OneValueMore(last.values, v);
    AlignSum(Start(fields, |fields| - 1) + HeaderSize(last), ValuesSize(last.values));
  }

  lemma OneValueMore(values: seq<seq<byte>>, v: seq<byte>)
    ensures ValuesSize(values + [v]) == Align(ValuesSize(values)) + 4 + |v|
  {
    var n := |values|;
    assert (values + [v])[..n] == values[..n];
    ValueEndOfPrefix(values + [v], values, n);
  }

  lemma SizeOfNew(fields: seq<Field>, f: Field, values: seq<seq<byte>>)
    requires f.values == []
    ensures ContentSize(fields + [f]) <= ContentSize(fields + [f.(values := values)])
  {
    SizeWithField(fields, f);
    SizeWithField(fields, f.(values := values));
  }

  lemma {:induction false} ValuesGrow(a: seq<seq<byte>>, b: seq<seq<byte>>)
    ensures ValuesSize(a) <= ValuesSize(a + b)
  {
    if b == [] {
      assert a + b == a;
    } else {
      var init := b[..|b| - 1];
      ValuesGrow(a, init);
      assert (a + b)[..|a + init|] == (a + init)[..|a + init|];
      ValueEndOfPrefix(a + b, a + init, |a + init|);
    }
  }

  /** The content of a buffer is a message by itself. */
  lemma ContentOfContent(b: seq<byte>)
    requires HeaderIsGood(b)
    ensures HeaderIsGood(Content(b)) && Content(Content(b)) == Content(b)
  {
    hide GetInt32, MAGIC;
    var m := Content(b);
    assert m[MAGIC_AT..MAGIC_AT + 4] == b[MAGIC_AT..MAGIC_AT + 4] && m[SIZE_AT..SIZE_AT + 4] == b[SIZE_AT..SIZE_AT + 4];
    GetSame32(b, MAGIC_AT, m, MAGIC_AT);
    GetSame32(b, SIZE_AT, m, SIZE_AT);
  }

  /** _InitBuffer makes an empty message. */
  lemma EmptyMessage(b: seq<byte>, what: int)
    requires |b| >= HEADER_SIZE && b[..HEADER_SIZE] == HeaderBytes(what)
    ensures HeaderIsGood(b) && Encodes(Content(b), [])
    ensures IsInt32(what) ==> HasEnvelope(b, what)
  {
    hide GetInt32, Bytes32;
    HeaderWords(b, what);
    assert b[MAGIC_AT..MAGIC_AT + 4] == b[..HEADER_SIZE][MAGIC_AT..MAGIC_AT + 4] == Bytes32(MAGIC);
    assert b[SIZE_AT..SIZE_AT + 4] == b[..HEADER_SIZE][SIZE_AT..SIZE_AT + 4] == Bytes32(HEADER_SIZE);
    Int32RoundTrip(b, MAGIC_AT, MAGIC);
    Int32RoundTrip(b, SIZE_AT, HEADER_SIZE);
  }

  /** The other words of the header are not part of the format. */
  lemma HeaderWordWritten(b: seq<byte>, at: nat, w: seq<byte>, fields: seq<Field>)
    requires HeaderIsGood(b) && Encodes(Content(b), fields) && WHAT_AT <= at && at + |w| <= HEADER_SIZE
    ensures HeaderIsGood(Write(b, at, w)) && Encodes(Content(Write(b, at, w)), fields)
  {
    hide GetInt32, Write, FieldInPlace, MAGIC, HoldsField, FieldSize, Align, Start, End;
    var c := Write(b, at, w);
    WriteMisses(b, at, w, MAGIC_AT, MAGIC_AT + 4);
    WriteMisses(b, at, w, SIZE_AT, SIZE_AT + 4);
    GetSame32(b, MAGIC_AT, c, MAGIC_AT);
    GetSame32(b, SIZE_AT, c, SIZE_AT);
    var m, n := Content(b), Content(c);
    WriteMisses(b, at, w, HEADER_SIZE, |m|);
    assert m[HEADER_SIZE..] == b[HEADER_SIZE..|m|] && n[HEADER_SIZE..] == c[HEADER_SIZE..|m|];
    forall k: nat | k < |fields| ensures FieldInPlace(n, fields, k) {
      InPlace(m, fields, k);
      SamePart(m, n, HEADER_SIZE, |m|, Start(fields, k), End(fields, k + 1));
      StaysInPlace(m, n, fields, fields, k);
    }
  }

  // ----- parsing in steps

  /** The check of the values of a field whose values have any size. It strays if a negative size
      leads it to read before the message; what happens then is not modelled. */
  method CheckValuesOf(m: seq<byte>, data: nat, count: nat) returns (strays: bool, ok: bool, end: int)
    ensures CheckValues(m, data, count, data) == if strays then ReadsBefore else if ok then EndAt(end) else BadValues
  {
    hide GetInt32, Align;
    strays, ok, end := false, true, data;
    var valueHeader: int, i := data, 0;
    while i < count
      invariant 0 <= i <= count
      invariant CheckValues(m, data, count, data) == CheckValues(m, valueHeader, count - i, end)
    {
      if valueHeader < 0 {
        return true, false, end;
      }
      if |m| - valueHeader < 4 {
        return false, false, end;
      }
      var value, size := Align(valueHeader + 4), GetInt32(m, valueHeader);
      if |m| - value < size {
        return false, false, end;
      }
      end := value + size;
      valueHeader := Align(end);
      i := i + 1;
    }
  }

  /** The checks that _InitFromBuffer makes of the field at o. */
  method CheckFieldAt(m: seq<byte>, o: nat) returns (strays: bool, ok: bool)
    requires o < |m|
    ensures CheckField(m, o) == if strays then StrayField else if ok then GoodField else BadField
  {
    hide GetInt32, GetInt16, StrNLen, CheckValues;
    if |m| - o < FIELD_HEADER_SIZE {
      return false, false;
    }
    if TypeAt(m, o) == B_ANY_TYPE || ElementCountAt(m, o) < 0 {
      return false, false;
    }
    var fieldSize, headerSize := FieldSizeAt(m, o), HeaderSizeAt(m, o);
    if fieldSize < FIELD_HEADER_SIZE || fieldSize > |m| - o || headerSize < FIELD_HEADER_SIZE
        || headerSize > fieldSize {
      return false, false;
    }
    var maxNameLen := headerSize - NAME_AT;
    var nameLen := StrNLen(m, o + NAME_AT, maxNameLen);
    if nameLen == maxNameLen || nameLen == 0 {
      return false, false;
    }
    if ElementSizeAt(m, o) >= 0 {
      return false, true;
    }
    var end;
    strays, ok, end := CheckValuesOf(m, o + headerSize, ElementCountAt(m, o));
    ok := ok && end - o <= fieldSize;
  }

  function LastOf(offsets: seq<nat>): int { if offsets == [] then -1 else offsets[|offsets| - 1] }

  /** The loop of _InitFromBuffer: the offset of the last field, or -1 */
  method ParseContent(m: seq<byte>) returns (strays: bool, ok: bool, last: int)
    requires |m| >= HEADER_SIZE
    ensures strays <==> ParseFields(m, HEADER_SIZE).Strays?
    ensures ok <==> ParseFields(m, HEADER_SIZE).Accepted?
    ensures ok ==> last == LastOf(ParseFields(m, HEADER_SIZE).offsets)
  {
    hide CheckField, ParseFields, NextAt;
    var data := HEADER_SIZE;
    ghost var seen: seq<nat> := [];
    strays, ok, last := false, true, -1;
    while data < |m|
      invariant ParseFields(m, HEADER_SIZE) == After(seen, ParseFields(m, data))
      invariant last == if seen == [] then -1 else seen[|seen| - 1]
      decreases |m| - data
    {
      OneField(m, data, seen);
      var stray, good := CheckFieldAt(m, data);
      if stray || !good {
        return stray, false, -1;
      }
      last := data;
      seen := seen + [data];
      data := NextAt(m, data);
    }
    NoMoreFields(m, data, seen);
  }

  /** The result for the rest, behind the headers already seen. */
  function After(seen: seq<nat>, rest: ParseResult): ParseResult {
    match rest
    case Accepted(offsets) => Accepted(seen + offsets)
    case other => other
  }

  lemma OneField(m: seq<byte>, o: nat, seen: seq<nat>)
    requires o < |m|
    ensures CheckField(m, o) == BadField ==> After(seen, ParseFields(m, o)) == Rejected
    ensures CheckField(m, o) == StrayField ==> After(seen, ParseFields(m, o)) == Strays
    ensures CheckField(m, o) == GoodField ==>
              && HasHeader(m, o) && NextAt(m, o) >= o + FIELD_HEADER_SIZE
              && After(seen, ParseFields(m, o)) == After(seen + [o], ParseFields(m, NextAt(m, o)))
  {
    if CheckField(m, o) == GoodField {
      GoodAdvances(m, o);
      hide CheckField;
      var rest := ParseFields(m, NextAt(m, o));
      assert rest.Accepted? ==> seen + ([o] + rest.offsets) == (seen + [o]) + rest.offsets;
    }
  }

  lemma NoMoreFields(m: seq<byte>, o: nat, seen: seq<nat>)
    requires |m| <= o
    ensures After(seen, ParseFields(m, o)) == Accepted(seen)
  {
    assert seen + [] == seen;
  }

  lemma GoodAdvances(m: seq<byte>, o: nat)
    requires CheckField(m, o) == GoodField
    ensures HasHeader(m, o) && NextAt(m, o) >= o + FIELD_HEADER_SIZE
  {
  }

  // ----- the message

  /** Whether the buffer is the built-in header, or owned; its size; and the allocations so far. */
  datatype Memory = Memory(inline: bool, owned: bool, capacity: nat, mallocs: nat)

  /** The buffer holds exactly `fields`, and the last one is at `last`. */
  ghost predicate HoldsFields(b: seq<byte>, fields: seq<Field>, last: int) {
    && HeaderIsGood(b) && Encodes(Content(b), fields)
    && (if fields == [] then last <= 0 else last == Start(fields, |fields| - 1))
  }

  class KMessage {
    const mallocFails: nat -> bool   // the outcome of the n-th allocation
    const garbage: nat -> byte       // what fresh memory holds
    var mallocs: nat

    var fBuffer: seq<byte>           // its length is fBufferCapacity
    var isInline: bool               // fBuffer is the built-in header
    var ownsBuffer: bool
    var readOnly: bool
    var cloneBuffer: bool
    var fLastFieldOffset: int
    ghost var fields: seq<Field>

    /** The buffer holds exactly `fields`. */
    ghost predicate Valid()
      reads this
    {
      HoldsFields(fBuffer, fields, fLastFieldOffset) && (isInline ==> |fBuffer| == HEADER_SIZE)
    }

    /** The memory the message has. */
    ghost function Held(): Memory
      reads this`isInline, this`ownsBuffer, this`fBuffer, this`mallocs
    {
      Memory(isInline, ownsBuffer, |fBuffer|, mallocs)
    }

    /** Why there may be no space for `size` bytes: only a read-only message that has a buffer is
        refused, only a buffer of somebody else that is too small overflows, and memory runs out only
        if more was needed and an allocation failed. */
    ghost predicate LacksSpace(status: int, before: Memory, size: nat)
      reads this`readOnly, this`mallocs
    {
      || (status == B_NOT_ALLOWED && readOnly && !before.inline)
      || (status == B_BUFFER_OVERFLOW && !before.inline && !before.owned && before.capacity < size)
      || (status == B_NO_MEMORY && (before.inline || before.capacity < size)
          && exists i: nat :: before.mallocs <= i < mallocs && mallocFails(i))
    }

    /** Why a call may fail that was to make the message hold `target`, when it had `before`; one
        that adds more than once may also meet the read-only buffer it has got itself. */
    ghost predicate Explains(status: int, before: Memory, target: seq<Field>)
      reads this`readOnly, this`mallocs, this`fields
    {
      LacksSpace(status, before, ContentSize(target)) || (status == B_NOT_ALLOWED && readOnly && fields != [])
    }

    /** A later part of a call explains the failure of the whole. */
    lemma ExplainsWhole(status: int, before: Memory, target: seq<Field>, later: Memory, part: seq<Field>)
      requires Explains(status, later, part) && ContentSize(part) <= ContentSize(target)
      requires before.mallocs <= later.mallocs && before.capacity <= later.capacity
      requires (later.inline ==> before.inline) && (!later.inline && !later.owned ==> !before.inline && !before.owned)
      requires before.inline ==> later.inline || fields != []
      ensures Explains(status, before, target) && status in {B_NOT_ALLOWED, B_BUFFER_OVERFLOW, B_NO_MEMORY}
    {
    }

    /** What, and the words about the delivery of the message. */
    ghost function Envelope(): seq<byte>
      requires |fBuffer| >= HEADER_SIZE
      reads this`fBuffer
    {
      fBuffer[WHAT_AT..HEADER_SIZE]
    }

    constructor (mallocFails: nat -> bool, garbage: nat -> byte)
      ensures Valid() && fields == [] && isInline && !readOnly && !cloneBuffer && HasEnvelope(fBuffer, 0)
      ensures this.mallocFails == mallocFails && this.garbage == garbage
    {
      this.mallocFails, this.garbage, mallocs := mallocFails, garbage, 0;
      isInline, ownsBuffer, readOnly, cloneBuffer := true, false, false, false;
      fBuffer := HeaderBytes(0);
      fLastFieldOffset, fields := 0, [];
      new;
      assert fBuffer[..HEADER_SIZE] == fBuffer;
      EmptyMessage(fBuffer, 0);
    }

    /** Unset; the flags of the last buffer stay behind. */
    method Unset()
      modifies this`fBuffer, this`isInline, this`fLastFieldOffset, this`fields
      ensures Valid() && fields == [] && isInline && HasEnvelope(fBuffer, 0)
    {
      isInline := true;
      fBuffer := HeaderBytes(0);
      fLastFieldOffset, fields := 0, [];
      assert fBuffer[..HEADER_SIZE] == fBuffer;
      EmptyMessage(fBuffer, 0);
    }

    method SetWhat(what: int)
      requires Valid() && IsInt32(what)
      modifies this`fBuffer
      ensures Valid() && GetInt32(fBuffer, WHAT_AT) == what
      ensures |fBuffer| == |old(fBuffer)| && fBuffer[SENDER_AT..] == old(fBuffer)[SENDER_AT..]
    {
      hide Encodes, Write, GetInt32, MAGIC, Content, Bytes32;
      HeaderWordWritten(fBuffer, WHAT_AT, Bytes32(what), fields);
      fBuffer := Write(fBuffer, WHAT_AT, Bytes32(what));
      Int32RoundTrip(fBuffer, WHAT_AT, what);
    }

    /** SetTo with a what only */
    method SetToWhat(what: int)
      requires IsInt32(what)
      modifies this`fBuffer, this`isInline, this`fLastFieldOffset, this`fields
      ensures Valid() && fields == [] && isInline && |fBuffer| == HEADER_SIZE && HasEnvelope(fBuffer, what)
    {
      hide Encodes, GetInt32, MAGIC, Content;
      Unset();
      ghost var b := fBuffer;
      SetWhat(what);
      DeliveryStays(b, fBuffer, SENDER_AT);
      DeliveryStays(b, fBuffer, TARGET_TOKEN_AT);
      DeliveryStays(b, fBuffer, REPLY_PORT_AT);
      DeliveryStays(b, fBuffer, REPLY_TOKEN_AT);
    }

    lemma DeliveryStays(b: seq<byte>, c: seq<byte>, at: nat)
      requires SENDER_AT <= at && at + 4 <= |b| == |c| && c[SENDER_AT..] == b[SENDER_AT..]
      ensures GetInt32(c, at) == GetInt32(b, at)
    {
      var i := at - SENDER_AT;
      assert c[at..at + 4] == c[SENDER_AT..][i..i + 4] == b[SENDER_AT..][i..i + 4] == b[at..at + 4];
      GetSame32(b, at, c, at);
    }

    // ----- taking over a buffer

    /** The bytes that a buffer of this size stands for; a negative size is read from it. */
    function Given(buffer: seq<byte>, bufferSize: int): seq<byte>
      requires HasSize(buffer, bufferSize)
    {
      if bufferSize >= 0 then buffer[..bufferSize]
      else if GetInt32(buffer, SIZE_AT) < 0 then []
      else buffer[..GetInt32(buffer, SIZE_AT)]
    }

    /** The caller's memory is as large as the call says, or as the buffer itself says. */
    predicate HasSize(buffer: seq<byte>, bufferSize: int) {
      if bufferSize < 0 then |buffer| >= SIZE_AT + 4 && GetInt32(buffer, SIZE_AT) <= |buffer|
      else bufferSize <= |buffer|
    }

    /** The size is read from the buffer, and is negative. */
    predicate SizeIsNegative(buffer: seq<byte>, bufferSize: int)
      requires HasSize(buffer, bufferSize)
    {
      bufferSize < 0 && GetInt32(buffer, SIZE_AT) < 0
    }

    /** Taking over this buffer reads outside the caller's memory, unless memory runs out before. */
    predicate LeadsAstray(buffer: seq<byte>, bufferSize: int) {
      !HasSize(buffer, bufferSize) || Parse(Given(buffer, bufferSize)).Strays?
    }

    /** _InitFromBuffer; `given` may say what the buffer holds. Nothing is promised if it strays,
        which is to read outside the memory of the buffer. */
    method InitFromBuffer(sizeFromBuffer: bool, ghost given: seq<Field>) returns (strays: bool, status: int)
      modifies this`mallocs, this`fBuffer, this`isInline, this`ownsBuffer, this`readOnly, this`cloneBuffer,
               this`fLastFieldOffset, this`fields
      ensures var size := if sizeFromBuffer then -1 else |old(fBuffer)|;
              && (strays ==> LeadsAstray(old(fBuffer), size))
              && (!strays ==> HasSize(old(fBuffer), size))
              && (!strays && status != B_NO_MEMORY ==> !LeadsAstray(old(fBuffer), size))
      ensures !strays ==>
              var b := Given(old(fBuffer), if sizeFromBuffer then -1 else |old(fBuffer)|);
              if status == B_NO_MEMORY then
                old(cloneBuffer) && (mallocFails(old(mallocs))
                                     || SizeIsNegative(old(fBuffer), if sizeFromBuffer then -1 else |old(fBuffer)|))
              else
                && fBuffer == b && status == (if Parse(b).Accepted? then B_OK else B_BAD_DATA)
                && !cloneBuffer && isInline == (old(isInline) && !old(cloneBuffer))
                && readOnly == (old(readOnly) && !old(cloneBuffer))
      ensures !strays && status == B_OK ==> fLastFieldOffset == LastOf(Parse(fBuffer).offsets)
      ensures !strays && status == B_OK ==> fields == given
      ensures !strays && status != B_OK ==> fields == old(fields) && fLastFieldOffset == old(fLastFieldOffset)
    {
      hide ParseFields, GetInt32, MAGIC;
      strays := !HasSize(fBuffer, if sizeFromBuffer then -1 else |fBuffer|);
      if strays {
        return strays, B_BAD_DATA;
      }
      assert fBuffer[..|fBuffer|] == fBuffer;
      var b := Given(fBuffer, if sizeFromBuffer then -1 else |fBuffer|);
      if cloneBuffer {
        var ok, _ := Malloc(|b|, 0);
        if !ok || (sizeFromBuffer && GetInt32(fBuffer, SIZE_AT) < 0) {  // no memory is that large
          return false, B_NO_MEMORY;
        }
        readOnly, cloneBuffer, ownsBuffer, isInline := false, false, true, false;
      }
      fBuffer := b;
      if !HeaderIsGood(b) {
        return false, B_BAD_DATA;
      }
      var ok, last;
      strays, ok, last := ParseContent(Content(b));
      if strays || !ok {
        return strays, B_BAD_DATA;
      }
      fLastFieldOffset := last;
      fields := given;
      status := B_OK;
    }

    /** _CheckBuffer: whether it panics. The empty message may panic too, since 0 and -1 both
        stand for no field. */
    method CheckBuffer() returns (panics: bool)
      requires Valid() && !cloneBuffer
      modifies this`mallocs, this`fBuffer, this`isInline, this`ownsBuffer, this`readOnly, this`cloneBuffer,
               this`fLastFieldOffset, this`fields
      ensures Valid() && fields == old(fields) && fBuffer == old(fBuffer)
      ensures panics <==> (exists f <- fields :: !IsParsable(f)) || (fields == [] && old(fLastFieldOffset) != -1)
    {
      hide ParseFields, GetInt32, MAGIC, Encodes, IsParsable, Content, HeaderIsGood;
      assert fBuffer[..|fBuffer|] == fBuffer;
      RoundTrip(fBuffer, fields);
      var lastFieldOffset := fLastFieldOffset;
      var _, status := InitFromBuffer(false, fields);
      panics := status != B_OK || fLastFieldOffset != lastFieldOffset;
    }

    /** SetTo with a buffer */
    method SetToBuffer(buffer: seq<byte>, bufferSize: int, what: int, owns: bool, initFromBuffer: bool, clone: bool,
                       only: bool, ghost given: seq<Field>)
        returns (strays: bool, status: int)
      requires bufferSize <= |buffer| && IsInt32(what)
      modifies this
      ensures if (bufferSize < 0 && !initFromBuffer) || 0 <= bufferSize < HEADER_SIZE
                || ((only || clone) && !initFromBuffer) then
                status == B_BAD_VALUE && !strays
              else if !initFromBuffer then
                && status == B_OK && Valid() && fields == [] && !strays
                && HasEnvelope(fBuffer, what) && |fBuffer| == bufferSize
                && fBuffer[HEADER_SIZE..] == buffer[HEADER_SIZE..bufferSize]
                && !isInline && ownsBuffer == owns && !readOnly && !cloneBuffer
              else if strays then
                LeadsAstray(buffer, bufferSize)
              else if status == B_NO_MEMORY then
                clone && HasSize(buffer, bufferSize)
              else
                && !LeadsAstray(buffer, bufferSize)
                && status == if Parse(Given(buffer, bufferSize)).Accepted? then B_OK else B_BAD_DATA
      ensures !strays && status != B_OK ==> Valid() && fields == []
      ensures !strays && status == B_OK && initFromBuffer ==>
                && fBuffer == Given(buffer, bufferSize) && HeaderIsGood(fBuffer)
                && (Encodes(Content(fBuffer), given) ==> Valid() && fields == given && readOnly == (only && !clone))
                && fLastFieldOffset == LastOf(Parse(fBuffer).offsets)
    {
      hide ParseFields, GetInt32, MAGIC, Encodes, Content, HeaderBytes;
      Unset();
      strays := false;
      if bufferSize < 0 {
        if !initFromBuffer {
          return strays, B_BAD_VALUE;
        }
      } else if bufferSize < HEADER_SIZE {
        return strays, B_BAD_VALUE;
      }
      if (only || clone) && !initFromBuffer {
        return strays, B_BAD_VALUE;
      }
      fBuffer := if bufferSize < 0 then buffer else buffer[..bufferSize];
      isInline, ownsBuffer, cloneBuffer, readOnly := false, owns, clone, only;
      if initFromBuffer {
        assert fBuffer[..|fBuffer|] == fBuffer;
        strays, status := InitFromBuffer(bufferSize < 0, given);
        if strays {
          return;
        }
        if status == B_OK {
          GivenRoundTrip(given);
        } else {
          Unset();
        }
      } else {
        fBuffer := Write(fBuffer, 0, HeaderBytes(what));
        EmptyMessage(fBuffer, what);
        status := B_OK;
      }
    }

    /** SetTo with a constant buffer: it is parsed, and read-only unless it is cloned. */
    method SetToConst(buffer: seq<byte>, bufferSize: int, clone: bool, ghost given: seq<Field>)
        returns (strays: bool, status: int)
      requires bufferSize <= |buffer|
      modifies this
      ensures if 0 <= bufferSize < HEADER_SIZE then status == B_BAD_VALUE && !strays
              else if strays then LeadsAstray(buffer, bufferSize)
              else if status == B_NO_MEMORY then clone && HasSize(buffer, bufferSize)
              else
                && !LeadsAstray(buffer, bufferSize)
                && status == if Parse(Given(buffer, bufferSize)).Accepted? then B_OK else B_BAD_DATA
      ensures !strays && status != B_OK ==> Valid() && fields == []
      ensures !strays && status == B_OK ==>
                && fBuffer == Given(buffer, bufferSize) && HeaderIsGood(fBuffer)
                && (Encodes(Content(fBuffer), given) ==> Valid() && fields == given && readOnly == !clone)
    {
      hide ParseFields, GetInt32, MAGIC, Encodes, Content, HeaderIsGood, LeadsAstray, Given, HasSize, HasEnvelope;
      strays, status := SetToBuffer(buffer, bufferSize, 0, false, true, clone, true, given);
    }

    /** The round trip through the public calls: a message set to the content of another one has
        exactly its fields, unless one of them cannot be parsed. */
    method SetToContentOf(other: KMessage, clone: bool) returns (status: int)
      requires other.Valid() && other != this
      modifies this
      ensures Valid() && fields == if status == B_OK then other.fields else []
      ensures status != B_NO_MEMORY || !clone ==> status == if other.Parsable() then B_OK else B_BAD_DATA
      ensures status == B_OK ==> readOnly == !clone
    {
      hide Encodes, ParseFields, GetInt32, MAGIC, IsParsable;
      var content := Content(other.fBuffer);
      ContentOfContent(other.fBuffer);
      RoundTrip(content, other.fields);
      assert content[..|content|] == content;
      var strays;
      strays, status := SetToConst(content, |content|, clone, other.fields);
    }

    lemma GivenRoundTrip(given: seq<Field>)
      requires HeaderIsGood(fBuffer) && Encodes(Content(fBuffer), given) ==> Parse(fBuffer).Accepted?
      ensures HeaderIsGood(fBuffer) && Encodes(Content(fBuffer), given) ==>
                Parse(fBuffer).offsets == Starts(given)
    {
      hide Encodes, Content, ParseFields, Parse;
      if HeaderIsGood(fBuffer) && Encodes(Content(fBuffer), given) {
        RoundTrip(fBuffer, given);
      }
    }

    // ----- memory

    method Malloc(size: nat, have: nat) returns (ok: bool, more: seq<byte>)
      requires have <= size
      modifies this`mallocs
      ensures mallocs == old(mallocs) + 1 && ok == !mallocFails(old(mallocs)) && |more| == size - have
    {
      ok := !mallocFails(mallocs);
      mallocs := mallocs + 1;
      more := seq(size - have, i requires 0 <= i => garbage(i));
    }

    /** _AllocateSpace */
    method AllocateSpace(size: nat, alignAddress: bool, alignSize: bool)
        returns (status: int, address: nat, alignedSize: nat)
      requires HeaderIsGood(fBuffer) && (isInline ==> |fBuffer| == HEADER_SIZE)
      requires |Content(fBuffer)| + size + 6 <= INT32_MAX
      modifies this`mallocs, this`fBuffer, this`isInline, this`ownsBuffer
      ensures status != B_OK ==> fBuffer == old(fBuffer) && isInline == old(isInline) && ownsBuffer == old(ownsBuffer)
      ensures var content := |old(Content(fBuffer))|;
              var at := if alignAddress then Align(content) else content;
              var newSize := if alignSize then Align(at + size) else at + size;
              var more := old(isInline) || newSize > |old(fBuffer)|;
              && status == (if !old(isInline) && readOnly then B_NOT_ALLOWED
                            else if !more then B_OK
                            else if !old(isInline) && !old(ownsBuffer) then B_BUFFER_OVERFLOW
                            else if mallocFails(old(mallocs)) then B_NO_MEMORY
                            else B_OK)
              && old(mallocs) <= mallocs && (status == B_NO_MEMORY ==> mallocs == old(mallocs) + 1)
              && (status == B_OK ==>
                    && address == at && address + alignedSize == newSize && Grown(old(fBuffer), fBuffer, newSize)
                    && |fBuffer| == (if more then CapacityFor(newSize) else |old(fBuffer)|)
                    && !isInline && ownsBuffer == old(isInline || ownsBuffer))
              && (status != B_OK ==> LacksSpace(status, old(Held()), newSize))
      ensures |fBuffer| >= HEADER_SIZE && Envelope() == old(Envelope())
    {
      hide GetInt32, Bytes32, Grown, MAGIC, CapacityFor;
      address, alignedSize := 0, 0;
      if !isInline && readOnly {
        return B_NOT_ALLOWED, 0, 0;
      }
      var offset := |Content(fBuffer)|;
      if alignAddress {
        offset := Align(offset);
      }
      var newSize := offset + size;
      if alignSize {
        newSize := Align(newSize);
      }
      var more: seq<byte> := [];
      if isInline || newSize > |fBuffer| {
        if !isInline && !ownsBuffer {
          return B_BUFFER_OVERFLOW, 0, 0;
        }
        var capacity := CapacityFor(newSize);
        var ok;
        ok, more := Malloc(capacity, |fBuffer|);
        if !ok {
          return B_NO_MEMORY, 0, 0;
        }
        ownsBuffer := true;
        isInline := false;
      }
      GrownBy(fBuffer, more, newSize);
      GrownEnvelope(fBuffer, Write(fBuffer + more, SIZE_AT, Bytes32(newSize)), newSize);
      fBuffer := Write(fBuffer + more, SIZE_AT, Bytes32(newSize));
      status, address, alignedSize := B_OK, offset, newSize - offset;
    }

    // ----- walking

    /** KMessageField::_Header: a header at this offset, if it is inside the content. */
    predicate IsHeader(offset: int)
      requires HeaderIsGood(fBuffer)
      reads this
    {
      0 < offset < |Content(fBuffer)|
    }

    /** GetNextField; `offsets` are the headers. From an offset between them it goes where the
        word there says. */
    method GetNextField(header: int, ghost offsets: seq<nat>) returns (status: int, next: int)
      requires HeaderIsGood(fBuffer) && Linked(Content(fBuffer), offsets)
      requires if offsets == [] then fLastFieldOffset <= 0 else fLastFieldOffset == offsets[|offsets| - 1]
      ensures offsets == [] ==> status == B_NAME_NOT_FOUND
      ensures offsets != [] && !IsHeader(header) ==> status == B_OK && next == offsets[0]
      ensures offsets != [] && IsHeader(header) && !(HEADER_SIZE <= header <= fLastFieldOffset) ==>
                status == B_BAD_VALUE
      ensures offsets != [] && header == fLastFieldOffset ==> status == B_NAME_NOT_FOUND
      ensures offsets != [] && HEADER_SIZE <= header < fLastFieldOffset ==>
                status == B_OK && HasHeader(Content(fBuffer), header) && next == NextAt(Content(fBuffer), header)
      ensures forall k :: 0 <= k < |offsets| - 1 && offsets[k] == header ==> status == B_OK && next == offsets[k + 1]
    {
      hide NextAt;
      next := header;
      if !IsHeader(fLastFieldOffset) {
        return B_NAME_NOT_FOUND, next;
      }
      if !IsHeader(header) {
        next := HEADER_SIZE;
      } else {
        if header < HEADER_SIZE || header > fLastFieldOffset {
          return B_BAD_VALUE, next;
        }
        if header == fLastFieldOffset {
          return B_NAME_NOT_FOUND, next;
        }
        next := NextAt(Content(fBuffer), header);
      }
      status := B_OK;
    }

    /** The loop `while (GetNextField(&field) == B_OK)`: it meets every header once, in order, and
        ends at the last field. */
    method AllFields(ghost offsets: seq<nat>) returns (headers: seq<int>)
      requires HeaderIsGood(fBuffer) && Linked(Content(fBuffer), offsets)
      requires if offsets == [] then fLastFieldOffset <= 0 else fLastFieldOffset == offsets[|offsets| - 1]
      ensures headers == offsets && (headers != [] ==> headers[|headers| - 1] == fLastFieldOffset)
    {
      hide NextAt, GetInt32, MAGIC;
      headers := [];
      var status, header := GetNextField(0, offsets);
      while status == B_OK
        invariant |headers| <= |offsets| && headers == offsets[..|headers|]
        invariant status == if |headers| < |offsets| then B_OK else B_NAME_NOT_FOUND
        invariant status == B_OK ==> header == offsets[|headers|]
        decreases |offsets| - |headers|
      {
        headers := headers + [header];
        status, header := GetNextField(header, offsets);
      }
    }

    /** GetNextField on the fields that were added: k is the field at `header`, or -1. */
    method NextOf(header: int, ghost k: int) returns (status: int, next: int)
      requires Valid() && -1 <= k < |fields| && header == (if k == -1 then 0 else Start(fields, k))
      ensures HeaderIsGood(fBuffer)
      ensures if k + 1 < |fields| then status == B_OK && next == Start(fields, k + 1) else status == B_NAME_NOT_FOUND
    {
      hide Valid, Linked, NextAt, Start, HeaderIsGood, Content;
      ValidLinked();
      ghost var offsets := Starts(fields);
      assert |offsets| == |fields| && (k >= 0 ==> offsets[k] == header)
             && (k + 1 < |fields| ==> offsets[k + 1] == Start(fields, k + 1));
      assert fields != [] ==> offsets[|offsets| - 1] == Start(fields, |fields| - 1);
      status, next := GetNextField(header, offsets);
    }

    /** FindField; the wildcard type finds a field of any type. */
    method FindField(name: seq<byte>, typeCode: int) returns (status: int, header: int, ghost k: nat)
      requires Valid()
      ensures k == IndexOf(fields, name, typeCode)
      ensures if IndexOf(fields, name, typeCode) == |fields| then status == B_NAME_NOT_FOUND
              else status == B_OK && header == Start(fields, IndexOf(fields, name, typeCode))
    {
      hide Valid;
      k := 0;
      status, header := NextOf(0, -1);
      while status == B_OK && !FieldMatches(header, name, typeCode)
        invariant k <= |fields| && forall i :: 0 <= i < k ==> !Matches(fields[i], name, typeCode)
        invariant status == if k < |fields| then B_OK else B_NAME_NOT_FOUND
        invariant k < |fields| ==> header == Start(fields, k)
        decreases |fields| - k
      {
        MatchesField(k, name, typeCode);
        status, header := NextOf(header, k);
        k := k + 1;
      }
      if k < |fields| {
        MatchesField(k, name, typeCode);
      }
      IndexOfIs(fields, name, typeCode, k);
    }

    function FieldMatches(header: int, name: seq<byte>, typeCode: int): bool
      requires HeaderIsGood(fBuffer)
      reads this
    {
      && 0 <= header && HasHeader(Content(fBuffer), header)
      && (typeCode == B_ANY_TYPE || TypeAt(Content(fBuffer), header) == typeCode)
      && NameAt(Content(fBuffer), header) == name
    }

    lemma ValidLinked()
      requires Valid()
      ensures HeaderIsGood(fBuffer) && Linked(Content(fBuffer), Starts(fields))
      ensures if fields == [] then fLastFieldOffset <= 0 else fLastFieldOffset == Start(fields, |fields| - 1)
    {
      StartsLinked(Content(fBuffer), fields);
    }

    lemma HeaderInside(k: nat)
      requires Valid() && k < |fields|
      ensures HeaderIsGood(fBuffer) && Start(fields, k) < |Content(fBuffer)| && Start(fields, k) <= fLastFieldOffset
    {
      hide Encodes, End, FieldSize, HoldsField, Align, GetInt32, MAGIC;
      var m := Content(fBuffer);
      InPlace(m, fields, k);
      if k < |fields| - 1 {
        StartsIncrease(m, fields, k, |fields| - 1);
      }
    }

    lemma MatchesField(k: nat, name: seq<byte>, typeCode: int)
      requires Valid() && k < |fields|
      ensures HeaderIsGood(fBuffer) && FieldMatches(Start(fields, k), name, typeCode)
                == Matches(fields[k], name, typeCode)
    {
      hide Encodes, End, FieldSize, HoldsField, Align, GetInt32, MAGIC, TypeAt, NameAt, Start, HeaderSizeAt;
      var m := Content(fBuffer);
      InPlace(m, fields, k);
      FieldWords(m, Start(fields, k), fields[k]);
    }

    // ----- reading values

    /** The part of FieldHeader::ElementAt for values of variable size: they are passed one by
        one. */
    method VariableElementAt(m: seq<byte>, header: nat, ghost f: Field, index: nat) returns (at: nat, size: nat)
      requires header % 4 == 0 && header + FieldSize(f) <= |m| && HoldsField(m[header..header + FieldSize(f)], f)
      requires !IsFixed(f) && index < |f.values|
      ensures at + size <= |m| && m[at..at + size] == f.values[index]
    {
      hide *;
      FieldWords(m, header, f);
      FirstValue(f.values);
      var valueHeader: nat, i := header + HeaderSizeAt(m, header), 0;
      while i < index
        invariant 0 <= i <= index && valueHeader == header + HeaderSize(f) + Align(ValueEnd(f.values, i))
      {
        VariableElement(m, header, f, i);
        AlignAligned(valueHeader + 4);
        valueHeader := Align(Align(valueHeader + 4) + GetInt32(m, valueHeader));
        i := i + 1;
      }
      VariableElement(m, header, f, i);
      AlignAligned(valueHeader + 4);
      size, at := GetInt32(m, valueHeader), Align(valueHeader + 4);
    }

    /** FieldHeader::ElementAt for the k-th field */
    method ElementAt(header: nat, ghost k: nat, index: int) returns (found: bool, at: nat, size: nat)
      requires Valid() && k < |fields| && header == Start(fields, k)
      ensures found <==> 0 <= index < |fields[k].values|
      ensures found ==> at + size <= |Content(fBuffer)| && Content(fBuffer)[at..at + size] == fields[k].values[index]
    {
      hide Encodes, End, FieldSize, HoldsField, Align, GetInt32, MAGIC, HeaderSize, Start, ValueEnd, TypeAt, NameAt,
           ElementSizeAt, ElementCountAt, HeaderSizeAt, FieldSizeAt;
      var m := Content(fBuffer);
      ghost var f := fields[k];
      InPlace(m, fields, k);
      FieldWords(m, header, f);
      hide Valid, Content;
      found, at, size := false, 0, 0;
      if index < 0 || index >= ElementCountAt(m, header) {
        return;
      }
      found := true;
      if ElementSizeAt(m, header) >= 0 {
        FixedElement(m, header, f, index);
        size := ElementSizeAt(m, header);
        at := header + HeaderSizeAt(m, header) + size * index;
      } else {
        at, size := VariableElementAt(m, header, f, index);
      }
    }

    /** FindData: where the value is, and how long it is */
    method FindData(name: seq<byte>, typeCode: int, index: int) returns (status: int, data: nat, numBytes: nat)
      requires Valid()
      ensures var k := IndexOf(fields, name, typeCode);
              if k == |fields| then status == B_NAME_NOT_FOUND
              else if !(0 <= index < |fields[k].values|) then status == B_BAD_INDEX
              else
                && status == B_OK && data + numBytes <= |Content(fBuffer)|
                && Content(fBuffer)[data..data + numBytes] == fields[k].values[index]
    {
      hide Valid;
      var header;
      ghost var k;
      data, numBytes := 0, 0;
      status, header, k := FindField(name, typeCode);
      if status == B_OK {
        var found;
        found, data, numBytes := ElementAt(header, k, index);
        if !found {
          status := B_BAD_INDEX;
        }
      }
    }

    // ----- building

    /** _AddField */
    method AppendField(name: seq<byte>, typeCode: int, elementSize: int) returns (status: int)
      requires Valid() && IsName(name) && IsInt32(typeCode) && IsInt32(elementSize)
      requires |name| + FIELD_HEADER_SIZE + 3 <= INT16_MAX
                 && |Content(fBuffer)| + |name| + FIELD_HEADER_SIZE + 6 <= INT32_MAX
      modifies this`mallocs, this`fBuffer, this`isInline, this`ownsBuffer, this`fLastFieldOffset, this`fields
      ensures Valid() && mallocs >= old(mallocs)
      ensures status == B_OK ==> fields == old(fields) + [Field(name, typeCode, elementSize, [])] && !isInline
      ensures |fBuffer| >= |old(fBuffer)| && Envelope() == old(Envelope())
      ensures |Content(fBuffer)| <= |old(Content(fBuffer))| + |name| + FIELD_HEADER_SIZE + 6
      ensures ownsBuffer == (old(ownsBuffer) || (status == B_OK && old(isInline)))
      ensures status != B_OK ==>
                && fields == old(fields) && fBuffer == old(fBuffer)
                && Explains(status, old(Held()), old(fields) + [Field(name, typeCode, elementSize, [])])
    {
      hide Encodes, Align, GetInt32, MAGIC, Start, Write, Grown, Bytes16, Bytes32, CountWords, HeaderSize, End,
           FieldSize, ContentSize, FieldHeaderBytes, HeaderIsGood, LacksSpace;
      ghost var b, f := fBuffer, Field(name, typeCode, elementSize, []);
      NewFieldFits(f);
      SizeWithField(fields, f);
      ContentIs();
      AlignSum(Align(|Content(fBuffer)|), FIELD_HEADER_SIZE + |name|);
      var at, alignedSize;
      status, at, alignedSize := AllocateSpace(FIELD_HEADER_SIZE + |name|, true, true);
      if status != B_OK {
        return;
      }
      GrownRoom(b, fBuffer, at + alignedSize);
      FieldAdded(b, fBuffer, fields, f);
      NewHeaderBytes(f, alignedSize);
      fBuffer := Write(fBuffer, at, Bytes32(typeCode) + Bytes32(elementSize) + CountWords(0, alignedSize)
                                      + Bytes16(alignedSize) + name + [0]);
      fLastFieldOffset := at;
      fields := fields + [f];
    }

    lemma BufferIsLarge()
      requires Valid()
      ensures |fBuffer| >= HEADER_SIZE
    {
    }

    lemma ContentIs()
      requires Valid()
      ensures |Content(fBuffer)| == ContentSize(fields) && Align(|Content(fBuffer)|) % 4 == 0
      ensures isInline ==> fields == []
    {
      hide FieldInPlace;
      if fields != [] {
        LastField(Content(fBuffer), fields);
      }
    }

    /** The last field, where _AddFieldData adds. */
    lemma LastInside()
      requires Valid() && fields != []
      ensures HeaderIsGood(fBuffer)
      ensures var m, o, f := Content(fBuffer), fLastFieldOffset, fields[|fields| - 1];
              && o == Start(fields, |fields| - 1) && HEADER_SIZE <= o && HasHeader(m, o) && o + FIELD_HEADER_SIZE <= |m|
              && ElementCountAt(m, o) == |f.values| && ElementSizeAt(m, o) == f.elementSize
      ensures !isInline && (fields[|fields| - 1].values == [] ==> Align(|Content(fBuffer)|) == |Content(fBuffer)|)
    {
      hide Encodes, Align, GetInt32, MAGIC, Start, HoldsField, FieldSize, HeaderSize, ElementSizeAt, ElementCountAt;
      var m, o, f := Content(fBuffer), Start(fields, |fields| - 1), fields[|fields| - 1];
      LastField(m, fields);
      assert m[o..] == m[o..o + FieldSize(f)];
      FieldWords(m, o, f);
      if f.values == [] {
        EmptyFieldIsAligned(m, fields);
      }
    }

    /** _AddFieldData for values of a fixed size. */
    method AppendFixed(elements: seq<seq<byte>>) returns (status: int)
      requires Valid() && fields != [] && IsFixed(fields[|fields| - 1])
      requires forall v <- elements :: |v| == fields[|fields| - 1].elementSize
      requires |Content(fBuffer)| + |Concat(elements)| + 6 <= INT32_MAX
      requires |fields[|fields| - 1].values| + |elements| <= INT32_MAX
      modifies this`mallocs, this`fBuffer, this`isInline, this`ownsBuffer, this`fields
      ensures Valid() && mallocs >= old(mallocs) && !isInline && ownsBuffer == old(ownsBuffer)
      ensures status == B_OK ==> fields == WithMore(old(fields), elements)
      ensures |fBuffer| >= |old(fBuffer)| && Envelope() == old(Envelope())
      ensures status != B_OK ==>
                && fields == old(fields) && fBuffer == old(fBuffer)
                && Explains(status, old(Held()), WithMore(old(fields), elements))
    {
      hide Encodes, Align, GetInt32, MAGIC, Start, Write, Grown, CountWords, End, FieldSize, Concat, HasHeader,
           ElementCountAt, WithMore, ContentSize, HeaderIsGood, LacksSpace, HoldsFields, Content;
      LastInside();
      ContentIs();
      SizeWithFixed(fields, elements);
      ghost var b := fBuffer;
      var header := fLastFieldOffset;
      var count := ElementCountAt(Content(fBuffer), header);
      var data := Concat(elements);
      var address, alignedSize;
      status, address, alignedSize := AllocateSpace(|data|, count == 0, false);
      if status != B_OK {
        return;
      }
      FixedAdded(b, fBuffer, fields, elements, header, address + alignedSize, count + |elements|);
      fBuffer := Write(fBuffer, address, data);
      var words := CountWords(count + |elements|, address + alignedSize - header);
      fBuffer := Write(fBuffer, header + ELEMENT_COUNT_AT, words);
      fields := WithMore(fields, elements);
    }

    /** One turn of _AddFieldData for values of variable size. */
    method AppendVariable(element: seq<byte>) returns (status: int)
      requires Valid() && fields != [] && !IsFixed(fields[|fields| - 1])
      requires |Content(fBuffer)| + |element| + 10 <= INT32_MAX
      requires |fields[|fields| - 1].values| < INT32_MAX
      modifies this`mallocs, this`fBuffer, this`isInline, this`ownsBuffer, this`fields
      ensures Valid() && mallocs >= old(mallocs) && !isInline && ownsBuffer == old(ownsBuffer)
      ensures status == B_OK ==>
                && fields == WithMore(old(fields), [element])
                && |Content(fBuffer)| <= |old(Content(fBuffer))| + |element| + 7
      ensures |fBuffer| >= |old(fBuffer)| && Envelope() == old(Envelope())
      ensures status != B_OK ==>
                && fields == old(fields) && fBuffer == old(fBuffer)
                && Explains(status, old(Held()), WithMore(old(fields), [element]))
    {
      hide Encodes, Align, GetInt32, MAGIC, Start, Write, Grown, CountWords, End, FieldSize, HasHeader, ElementCountAt,
           WithMore, Bytes32, ContentSize, LacksSpace;
      LastInside();
      ContentIs();
      SizeWithVariable(fields, element);
      ghost var b := fBuffer;
      var header := fLastFieldOffset;
      var count := ElementCountAt(Content(fBuffer), header);
      var address, alignedSize;
      status, address, alignedSize := AllocateSpace(4 + |element|, true, false);
      if status != B_OK {
        return;
      }
      GrownRoom(b, fBuffer, address + alignedSize);
      VariableAdded(b, fBuffer, fields, element, header, address);
      LastMoves(fields, [element]);
      fBuffer := Write(fBuffer, address, Bytes32(|element|) + element);
      var words := CountWords(count + 1, address + alignedSize - header);
      fBuffer := Write(fBuffer, header + ELEMENT_COUNT_AT, words);
      fields := WithMore(fields, [element]);
    }

    // ----- adding values

    /** There is room for one more field and these elements within int32. */
    ghost predicate HasRoom(name: seq<byte>, elements: seq<seq<byte>>)
      requires HeaderIsGood(fBuffer)
      reads this
    {
      && |name| + FIELD_HEADER_SIZE + 3 <= INT16_MAX
      && |Content(fBuffer)| + |name| + FIELD_HEADER_SIZE + |Concat(elements)| + 7 * |elements| + 16 <= INT32_MAX
      && (fields != [] ==> |fields[|fields| - 1].values| + |elements| <= INT32_MAX)
    }

    /** The loop of _AddFieldData over values of variable size. */
    method AppendVariables(elements: seq<seq<byte>>) returns (status: int, ghost added: nat)
      requires Valid() && fields != [] && !IsFixed(fields[|fields| - 1])
      requires |Content(fBuffer)| + |Concat(elements)| + 7 * |elements| + 10 <= INT32_MAX
      requires |fields[|fields| - 1].values| + |elements| <= INT32_MAX
      modifies this`mallocs, this`fBuffer, this`isInline, this`ownsBuffer, this`fields
      ensures Valid() && mallocs >= old(mallocs) && ownsBuffer == old(ownsBuffer)
      ensures added <= |elements| && fields == WithMore(old(fields), elements[..added])
      ensures |fBuffer| >= |old(fBuffer)| && Envelope() == old(Envelope())
      ensures if status == B_OK then added == |elements|
              else added < |elements| && Explains(status, old(Held()), WithMore(old(fields), elements))
    {
      hide Valid, Content, HeaderIsGood, Concat, Explains, ContentSize;
      added := 0;
      var i := 0;
      MoreNone(fields);
      ConcatNone();
      BufferIsLarge();
      InlineIsEmpty();
      ghost var held := Held();
      assert elements[..0] == [];
      ghost var start, from := fields, ValidContent();
      while i < |elements|
        invariant i <= |elements| && added == i
        invariant Valid() && ValidContent() <= from + |Concat(elements[..i])| + 7 * i
        invariant fields == WithMore(start, elements[..i]) && mallocs >= old(mallocs) && ownsBuffer == old(ownsBuffer)
        invariant |fBuffer| >= |old(fBuffer)| >= HEADER_SIZE && Envelope() == old(Envelope())
        invariant !isInline || isInline == old(isInline)
      {
        ConcatStep(elements, i);
        MoreTwice(start, elements[..i], elements[i]);
        assert elements[..i + 1] == elements[..i] + [elements[i]];
        SizeWithMore(start, elements, i + 1);
        ghost var later := Held();
        status := AppendVariable(elements[i]);
        if status != B_OK {
          ExplainsWhole(status, held, WithMore(start, elements), later, WithMore(start, elements[..i + 1]));
          return;
        }
        i := i + 1;
        added := i;
      }
      assert elements[..i] == elements;
      status := B_OK;
    }

    ghost function ValidContent(): nat
      requires Valid()
      reads this
    {
      |Content(fBuffer)|
    }

    /** _AddFieldData */
    method AddFieldData(header: int, elements: seq<seq<byte>>, elementSize: int, elementCount: int)
        returns (status: int, ghost added: nat)
      requires Valid() && |elements| == (if elementCount < 0 then 0 else elementCount)
      requires elementSize >= 0 ==> forall v <- elements :: |v| == elementSize
      requires |Content(fBuffer)| + |Concat(elements)| + 7 * |elements| + 10 <= INT32_MAX
      requires fields != [] ==> |fields[|fields| - 1].values| + |elements| <= INT32_MAX
      modifies this`mallocs, this`fBuffer, this`isInline, this`ownsBuffer, this`fields
      ensures Valid() && mallocs >= old(mallocs) && ownsBuffer == old(ownsBuffer) && added <= |elements|
      ensures fields == if old(fields) == [] then [] else WithMore(old(fields), elements[..added])
      ensures |fBuffer| >= |old(fBuffer)| && Envelope() == old(Envelope())
      ensures if old(fields) == [] || header != old(Start(fields, |fields| - 1)) || elementSize < 0
                || elementCount < 0 then
                status == B_BAD_VALUE && added == 0
              else if elementCount == 0 then
                status == B_OK
              else if IsFixed(old(fields)[|fields| - 1]) && old(fields)[|fields| - 1].elementSize != elementSize then
                status == B_BAD_VALUE && added == 0
              else if status == B_OK then
                added == elementCount
              else
                added < elementCount && Explains(status, old(Held()), WithMore(old(fields), elements))
    {
      hide Valid, Concat, IsHeader, Content, HeaderIsGood, Start, WithMore, Explains;
      BufferIsLarge();
      LastIsHeader(header);
      added := 0;
      if fields != [] {
        MoreNone(fields);
      }
      assert elements[..0] == [];
      if !IsHeader(header) || header != fLastFieldOffset || elementSize < 0 || elementCount < 0 {
        return B_BAD_VALUE, 0;
      }
      if elementCount == 0 {
        return B_OK, 0;
      }
      var size := LastElementSize(header);
      if size >= 0 {
        if elementSize != size {
          return B_BAD_VALUE, 0;
        }
        status := AppendFixed(elements);
        if status == B_OK {
          added := elementCount;
          assert elements[..added] == elements;
        }
      } else {
        status, added := AppendVariables(elements);
      }
    }

    /** The header given to _AddFieldData is that of the last field. */
    lemma LastIsHeader(header: int)
      requires Valid()
      ensures HeaderIsGood(fBuffer)
      ensures IsHeader(header) && header == fLastFieldOffset <==> fields != [] && header == Start(fields, |fields| - 1)
    {
      hide Encodes, HeaderIsGood, FieldSize, End;
      if fields != [] {
        HeaderInside(|fields| - 1);
      }
    }

    method LastElementSize(header: int) returns (size: int)
      requires Valid() && fields != [] && header == Start(fields, |fields| - 1)
      ensures size == fields[|fields| - 1].elementSize
    {
      hide Encodes, Align, GetInt32, MAGIC, Start, ElementSizeAt, ElementCountAt, HasHeader;
      LastInside();
      size := ElementSizeAt(Content(fBuffer), header);
    }

    // ----- the public calls

    /** What is built can be parsed again (RoundTrip). */
    ghost predicate Parsable()
      reads this`fields
    {
      forall f <- fields :: IsParsable(f)
    }

    lemma AddOutcomeParsable(status: int, before: seq<Field>, name: seq<byte>, typeCode: int, newElementSize: int,
                             elements: seq<seq<byte>>, elementSize: int, held: Memory)
      requires AddOutcome(status, before, name, typeCode, newElementSize, elements, elementSize, held)
      requires (forall f <- before :: IsParsable(f)) && name != [] && typeCode != B_ANY_TYPE
      ensures Parsable()
    {
      hide IndexOf, Explains;
      if fields != before {
        var values :| Added(before, name, typeCode, newElementSize, values);
        AddedParsable(before, name, typeCode, newElementSize, values);
      }
    }

    lemma AddedParsable(before: seq<Field>, name: seq<byte>, typeCode: int, newElementSize: int, values: seq<seq<byte>>)
      requires Added(before, name, typeCode, newElementSize, values)
      requires (forall f <- before :: IsParsable(f)) && name != [] && typeCode != B_ANY_TYPE
      ensures Parsable()
    {
      hide IndexOf;
      forall f | f in fields ensures IsParsable(f) {
        var i :| 0 <= i < |fields| && fields[i] == f;
        assert i < |before| ==> IsParsable(before[i]);
      }
    }

    /** AddField */
    method AddField(name: seq<byte>, typeCode: int, elementSize: int) returns (status: int)
      requires Valid() && IsName(name) && IsInt32(typeCode) && IsInt32(elementSize) && HasRoom(name, [])
      modifies this`mallocs, this`fBuffer, this`isInline, this`ownsBuffer, this`fLastFieldOffset, this`fields
      ensures Valid() && mallocs >= old(mallocs)
      ensures if typeCode == B_ANY_TYPE then
                status == B_BAD_VALUE
              else if IndexOf(old(fields), name, B_ANY_TYPE) < |old(fields)| then
                status == B_NAME_IN_USE
              else
                status == B_OK || Explains(status, old(Held()), old(fields) + [Field(name, typeCode, elementSize, [])])
      ensures status == B_OK ==> fields == old(fields) + [Field(name, typeCode, elementSize, [])]
      ensures status != B_OK ==> fields == old(fields) && fBuffer == old(fBuffer)
      ensures old(Parsable()) && name != [] ==> Parsable()
      ensures |fBuffer| >= HEADER_SIZE && Envelope() == old(Envelope())
    {
      if typeCode == B_ANY_TYPE {
        return B_BAD_VALUE;
      }
      ConcatNone();
      BufferIsLarge();
      hide Valid, Concat, HeaderIsGood, Content;
      var found, _, _ := FindField(name, B_ANY_TYPE);
      if found == B_OK {
        return B_NAME_IN_USE;
      }
      status := AppendField(name, typeCode, elementSize);
    }

    /** The fields when nothing fails. */
    ghost function TargetOf(before: seq<Field>, name: seq<byte>, typeCode: int, newElementSize: int,
                            elements: seq<seq<byte>>): seq<Field>
    {
      if IndexOf(before, name, B_ANY_TYPE) < |before| then WithMore(before, elements)
      else before + [Field(name, typeCode, newElementSize, elements)]
    }

    /** What AddData and AddArray do to the fields when nothing fails. */
    ghost predicate Added(before: seq<Field>, name: seq<byte>, typeCode: int, newElementSize: int,
                          elements: seq<seq<byte>>)
      reads this
    {
      var k := IndexOf(before, name, B_ANY_TYPE);
      if k < |before| then fields == WithMore(before, elements)
      else fields == before + [Field(name, typeCode, newElementSize, elements)]
    }

    /** How a call that adds values may end. Only the last field takes more values, and only of
        its own type and size; a call that runs out of memory may have added some of them. */
    ghost predicate AddOutcome(status: int, before: seq<Field>, name: seq<byte>, typeCode: int, newElementSize: int,
                               elements: seq<seq<byte>>, elementSize: int, held: Memory)
      reads this
    {
      var n, k := |before|, IndexOf(before, name, B_ANY_TYPE);
      if k < n && before[k].typeCode != typeCode then
        status == B_BAD_TYPE && fields == before
      else if k < n - 1 then
        status == B_BAD_VALUE && fields == before
      else if k == n - 1 && elements != [] && IsFixed(before[k]) && before[k].elementSize != elementSize then
        status == B_BAD_VALUE && fields == before
      else if status == B_OK then
        Added(before, name, typeCode, newElementSize, elements)
      else
        && Explains(status, held, TargetOf(before, name, typeCode, newElementSize, elements))
        && (fields == before
            || exists i: nat :: i < |elements| && Added(before, name, typeCode, newElementSize, elements[..i]))
    }

    /** AddData */
    method AddData(name: seq<byte>, typeCode: int, data: seq<byte>, numBytes: int, isFixedSize: bool)
        returns (status: int)
      requires Valid() && IsName(name) && IsInt32(typeCode) && IsInt32(numBytes) && HasRoom(name, [data])
      requires numBytes >= 0 ==> |data| == numBytes
      modifies this`mallocs, this`fBuffer, this`isInline, this`ownsBuffer, this`fLastFieldOffset, this`fields
      ensures Valid() && mallocs >= old(mallocs)
      ensures if typeCode == B_ANY_TYPE || numBytes < 0 then
                status == B_BAD_VALUE && fields == old(fields)
              else
                AddOutcome(status, old(fields), name, typeCode, if isFixedSize then numBytes else -1, [data], numBytes,
                           old(Held()))
      ensures old(Parsable()) && name != [] ==> Parsable()
      ensures |fBuffer| >= HEADER_SIZE && Envelope() == old(Envelope())
    {
      hide Valid, AddOutcome, HasRoom;
      BufferIsLarge();
      if typeCode == B_ANY_TYPE || numBytes < 0 {
        return B_BAD_VALUE;
      }
      status := AddValues(name, typeCode, if isFixedSize then numBytes else -1, [data], numBytes);
      if old(Parsable()) && name != [] {
        AddOutcomeParsable(status, old(fields), name, typeCode, if isFixedSize then numBytes else -1, [data], numBytes,
                           old(Held()));
      }
    }

    /** AddArray */
    method AddArray(name: seq<byte>, typeCode: int, elements: seq<seq<byte>>, elementSize: int, elementCount: int)
        returns (status: int)
      requires Valid() && IsName(name) && IsInt32(typeCode) && IsInt32(elementSize) && HasRoom(name, elements)
      requires elementSize >= 0 && elementCount >= 0 ==>
                 |elements| == elementCount && forall v <- elements :: |v| == elementSize
      modifies this`mallocs, this`fBuffer, this`isInline, this`ownsBuffer, this`fLastFieldOffset, this`fields
      ensures Valid() && mallocs >= old(mallocs)
      ensures if typeCode == B_ANY_TYPE || elementSize < 0 || elementCount < 0 then
                status == B_BAD_VALUE && fields == old(fields)
              else
                AddOutcome(status, old(fields), name, typeCode, elementSize, elements, elementSize, old(Held()))
      ensures old(Parsable()) && name != [] ==> Parsable()
      ensures |fBuffer| >= HEADER_SIZE && Envelope() == old(Envelope())
    {
      hide Valid, AddOutcome, HasRoom;
      BufferIsLarge();
      if typeCode == B_ANY_TYPE || elementSize < 0 || elementCount < 0 {
        return B_BAD_VALUE;
      }
      status := AddValues(name, typeCode, elementSize, elements, elementSize);
      if old(Parsable()) && name != [] {
        AddOutcomeParsable(status, old(fields), name, typeCode, elementSize, elements, elementSize, old(Held()));
      }
    }

    /** SetData. Replacing a value stores its size through a null pointer on the way: where such
        a store traps, the call does not come back. */
    method SetData(name: seq<byte>, typeCode: int, data: seq<byte>, numBytes: int, nullStoreTraps: bool)
        returns (trapped: bool, status: int)
      requires Valid() && IsName(name) && IsInt32(typeCode) && IsInt32(numBytes) && HasRoom(name, [data])
      requires numBytes >= 0 ==> |data| == numBytes
      modifies this`mallocs, this`fBuffer, this`isInline, this`ownsBuffer, this`fLastFieldOffset, this`fields
      ensures Valid() && mallocs >= old(mallocs)
      ensures var n, k := |old(fields)|, IndexOf(old(fields), name, B_ANY_TYPE);
              if !old(isInline) && readOnly then
                !trapped && status == B_NOT_ALLOWED && fields == old(fields)
              else if k == n then
                !trapped && SetNewOutcome(status, old(fields), name, typeCode, data, numBytes, old(Held()))
              else if old(fields)[k].typeCode != typeCode || !IsFixed(old(fields)[k])
                  || old(fields)[k].elementSize != numBytes then
                !trapped && status == B_BAD_VALUE && fields == old(fields)
              else if old(fields)[k].values != [] then
                if nullStoreTraps then trapped && fields == old(fields)
                else
                  && !trapped && status == B_OK
                  && fields == old(fields)[k := old(fields)[k].(values := old(fields)[k].values[0 := data])]
              else
                !trapped && AddOutcome(status, old(fields), name, typeCode, numBytes, [data], numBytes, old(Held()))
      ensures var new_ := IndexOf(old(fields), name, B_ANY_TYPE) == |old(fields)|;
              && (old(Parsable()) && name != [] && (typeCode != B_ANY_TYPE || !new_) ==> Parsable())
              && (new_ && typeCode == B_ANY_TYPE && fields != old(fields) ==> !Parsable())
      ensures |fBuffer| >= HEADER_SIZE && Envelope() == old(Envelope())
    {
      hide Valid, HasRoom, AddOutcome, SetNewOutcome, IndexOf, Content, HeaderIsGood, Concat, Start;
      BufferIsLarge();
      RoomFor(name, [data]);
      trapped, status := false, B_OK;
      if !isInline && readOnly {
        return false, B_NOT_ALLOWED;
      }
      var header;
      ghost var k;
      status, header, k := FindField(name, B_ANY_TYPE);
      if status == B_OK {
        trapped, status := SetExisting(header, k, name, typeCode, data, numBytes, nullStoreTraps);
      } else {
        status := SetNew(name, typeCode, data, numBytes);
        SetNewParsable(status, old(fields), name, typeCode, data, numBytes, old(Held()));
      }
    }

    /** SetData with a new name checks neither the type nor the size: a negative size leaves
        an empty field behind. */
    ghost predicate SetNewOutcome(status: int, before: seq<Field>, name: seq<byte>, typeCode: int, data: seq<byte>,
                                  numBytes: int,
                                  held: Memory)
      reads this
    {
      if status == B_OK then
        numBytes >= 0 && fields == before + [Field(name, typeCode, numBytes, [data])]
      else if status == B_BAD_VALUE then
        numBytes < 0 && fields == before + [Field(name, typeCode, numBytes, [])]
      else
        && Explains(status, held, before + [Field(name, typeCode, numBytes, if numBytes < 0 then [] else [data])])
        && (fields == before || (numBytes >= 0 && fields == before + [Field(name, typeCode, numBytes, [])]))
    }

    lemma SetNewParsable(status: int, before: seq<Field>, name: seq<byte>, typeCode: int, data: seq<byte>,
                         numBytes: int,
                         held: Memory)
      requires SetNewOutcome(status, before, name, typeCode, data, numBytes, held)
      ensures (forall f <- before :: IsParsable(f)) && name != [] && typeCode != B_ANY_TYPE ==> Parsable()
      ensures typeCode == B_ANY_TYPE && fields != before ==> !Parsable()
    {
      hide Explains;
      if fields != before {
        assert fields[|before|] in fields && fields[|before|].typeCode == typeCode;
      }
    }

    method SetNew(name: seq<byte>, typeCode: int, data: seq<byte>, numBytes: int) returns (status: int)
      requires Valid() && IsName(name) && IsInt32(typeCode) && IsInt32(numBytes) && HasRoom(name, [data])
      requires IndexOf(fields, name, B_ANY_TYPE) == |fields|
      requires numBytes >= 0 ==> |data| == numBytes
      modifies this`mallocs, this`fBuffer, this`isInline, this`ownsBuffer, this`fLastFieldOffset, this`fields
      ensures Valid() && mallocs >= old(mallocs)
      ensures SetNewOutcome(status, old(fields), name, typeCode, data, numBytes, old(Held()))
      ensures |fBuffer| >= HEADER_SIZE && Envelope() == old(Envelope())
    {
      hide Valid, Concat, HeaderIsGood, Content, HasRoom, Start, IndexOf, WithMore, ContentSize, Explains;
      BufferIsLarge();
      RoomFor(name, [data]);
      ghost var before, held, empty := fields, Held(), Field(name, typeCode, numBytes, []);
      ghost var whole := before + [empty.(values := if numBytes < 0 then [] else [data])];
      InlineIsEmpty();
      SizeOfNew(before, empty, if numBytes < 0 then [] else [data]);
      status := AppendField(name, typeCode, numBytes);
      if status != B_OK {
        ExplainsWhole(status, held, whole, held, before + [empty]);
        return;
      }
      LastOffset();
      ghost var later := Held();
      ghost var target, added := fields, 0;
      status, added := AddFieldData(fLastFieldOffset, [data], numBytes, 1);
      MoreNone(target);
      MoreOfNew(before, empty, [data]);
      assert [data][..0] == [] && [data][..1] == [data];
      if status != B_OK && numBytes >= 0 {
        ExplainsWhole(status, held, whole, later, WithMore(target, [data]));
      }
    }

    method SetExisting(header: int, ghost k: nat, name: seq<byte>, typeCode: int, data: seq<byte>, numBytes: int,
                       nullStoreTraps: bool)
        returns (trapped: bool, status: int)
      requires Valid() && k == IndexOf(fields, name, B_ANY_TYPE) < |fields| && header == Start(fields, k)
      requires numBytes >= 0 ==> |data| == numBytes
      requires |Content(fBuffer)| + |Concat([data])| + 17 <= INT32_MAX
      requires |fields[|fields| - 1].values| + 1 <= INT32_MAX
      modifies this`mallocs, this`fBuffer, this`isInline, this`ownsBuffer, this`fields
      ensures Valid() && mallocs >= old(mallocs)
      ensures |fBuffer| >= HEADER_SIZE && Envelope() == old(Envelope())
      ensures if old(fields)[k].typeCode != typeCode || !IsFixed(old(fields)[k])
                || old(fields)[k].elementSize != numBytes then
                !trapped && status == B_BAD_VALUE && fields == old(fields)
              else if old(fields)[k].values != [] then
                if nullStoreTraps then trapped && fields == old(fields)
                else
                  && !trapped && status == B_OK
                  && fields == old(fields)[k := old(fields)[k].(values := old(fields)[k].values[0 := data])]
              else
                !trapped && AddOutcome(status, old(fields), name, typeCode, numBytes, [data], numBytes, old(Held()))
      ensures old(Parsable()) ==> Parsable()
    {
      hide Valid, Concat, HeaderIsGood, Content, Start, IndexOf, Added, Explains, WithMore;
      BufferIsLarge();
      trapped, status := false, B_OK;
      var type_ := TypeOf(header, k);
      var size, count := SizesOf(header, k);
      if type_ != typeCode || size < 0 || size != numBytes {
        return false, B_BAD_VALUE;
      }
      if count > 0 {
        if nullStoreTraps {
          return true, B_OK;
        }
        ReplaceFirst(header, k, data);
        ReplacedParsable(old(fields), k);
        return;
      }
      status := AddToField(header, k, name, typeCode, numBytes, [data], numBytes);
      SetEmptyParsable(status, old(fields), k, name, typeCode, data, numBytes, old(Held()));
    }

    lemma ReplacedParsable(before: seq<Field>, k: nat)
      requires k < |before| == |fields| && fields == before[k := fields[k]] && fields[k].typeCode == before[k].typeCode
                 && fields[k].name == before[k].name
      ensures (forall f <- before :: IsParsable(f)) ==> Parsable()
    {
      assert before[k] in before;
    }

    lemma SetEmptyParsable(status: int, before: seq<Field>, k: nat, name: seq<byte>, typeCode: int, data: seq<byte>,
                           numBytes: int,
                           held: Memory)
      requires AddOutcome(status, before, name, typeCode, numBytes, [data], numBytes, held)
      requires k == IndexOf(before, name, B_ANY_TYPE) < |before| && before[k].typeCode == typeCode
      ensures (forall f <- before :: IsParsable(f)) ==> Parsable()
    {
      if forall f <- before :: IsParsable(f) {
        assert IsParsable(before[k]);
        AddOutcomeParsable(status, before, name, typeCode, numBytes, [data], numBytes, held);
      }
    }

    method SizesOf(header: int, ghost k: nat) returns (elementSize: int, elementCount: int)
      requires Valid() && k < |fields| && header == Start(fields, k)
      ensures elementSize == fields[k].elementSize && elementCount == |fields[k].values|
    {
      hide Encodes, End, FieldSize, HoldsField, Align, GetInt32, MAGIC, ElementSizeAt, ElementCountAt, TypeAt, NameAt,
           Start, HeaderSizeAt;
      InPlace(Content(fBuffer), fields, k);
      FieldWords(Content(fBuffer), header, fields[k]);
      elementSize, elementCount := ElementSizeAt(Content(fBuffer), header), ElementCountAt(Content(fBuffer), header);
    }

    /** memcpy over the first value of the k-th field */
    method ReplaceFirst(header: nat, ghost k: nat, data: seq<byte>)
      requires Valid() && k < |fields| && header == Start(fields, k)
      requires IsFixed(fields[k]) && fields[k].values != [] && |data| == fields[k].elementSize
      modifies this`fBuffer, this`fields
      ensures Valid() && fields == old(fields)[k := old(fields)[k].(values := old(fields)[k].values[0 := data])]
      ensures |fBuffer| >= HEADER_SIZE && Envelope() == old(Envelope())
    {
      hide Encodes, End, FieldSize, HoldsField, Align, GetInt32, MAGIC, ElementSizeAt, ElementCountAt, TypeAt, NameAt,
           Start, HeaderSizeAt, HeaderSize, Write;
      InPlace(Content(fBuffer), fields, k);
      FieldWords(Content(fBuffer), header, fields[k]);
      var m := Content(fBuffer);
      var at := header + HeaderSizeAt(m, header);
      var f := fields[k];
      FirstReplaced(m, fields, k, data);
      ReplacedStart(m, fields, k, data);
      WriteContent(fBuffer, at, data);
      WriteKeepsEnvelope(fBuffer, at, data);
      fBuffer := Write(fBuffer, at, data);
      fields := fields[k := f.(values := f.values[0 := data])];
    }

    /** The common part of AddData and AddArray: find or add the field, then add the values.
        Only the last field takes more values. */
    method AddValues(name: seq<byte>, typeCode: int, newElementSize: int, elements: seq<seq<byte>>, elementSize: nat)
        returns (status: int)
      requires Valid() && IsName(name) && IsInt32(typeCode) && IsInt32(newElementSize) && HasRoom(name, elements)
      requires forall v <- elements :: |v| == elementSize
      requires newElementSize == elementSize || newElementSize < 0
      modifies this`mallocs, this`fBuffer, this`isInline, this`ownsBuffer, this`fLastFieldOffset, this`fields
      ensures Valid() && mallocs >= old(mallocs)
      ensures AddOutcome(status, old(fields), name, typeCode, newElementSize, elements, elementSize, old(Held()))
      ensures |fBuffer| >= HEADER_SIZE && Envelope() == old(Envelope())
    {
      hide Valid, Concat, HeaderIsGood, Content, HasRoom, Start, Explains, IndexOf, Added;
      BufferIsLarge();
      RoomFor(name, elements);
      var header;
      ghost var k;
      status, header, k := FindField(name, B_ANY_TYPE);
      if status == B_OK {
        status := AddToField(header, k, name, typeCode, newElementSize, elements, elementSize);
      } else {
        status := AddToNewField(name, typeCode, newElementSize, elements, elementSize);
      }
    }

    method AddToField(header: int, ghost k: nat, name: seq<byte>, typeCode: int, newElementSize: int,
                      elements: seq<seq<byte>>, elementSize: nat)
        returns (status: int)
      requires Valid() && k == IndexOf(fields, name, B_ANY_TYPE) < |fields| && header == Start(fields, k)
      requires forall v <- elements :: |v| == elementSize
      requires |Content(fBuffer)| + |Concat(elements)| + 7 * |elements| + 10 <= INT32_MAX
      requires |fields[|fields| - 1].values| + |elements| <= INT32_MAX
      modifies this`mallocs, this`fBuffer, this`isInline, this`ownsBuffer, this`fields
      ensures Valid() && mallocs >= old(mallocs)
      ensures |fBuffer| >= HEADER_SIZE && Envelope() == old(Envelope())
      ensures var n := |old(fields)|;
              if old(fields)[k].typeCode != typeCode then
                status == B_BAD_TYPE && fields == old(fields)
              else if k < n - 1 then
                status == B_BAD_VALUE && fields == old(fields)
              else if elements != [] && IsFixed(old(fields)[k]) && old(fields)[k].elementSize != elementSize then
                status == B_BAD_VALUE && fields == old(fields)
              else if status == B_OK then
                Added(old(fields), name, typeCode, newElementSize, elements)
              else
                && Explains(status, old(Held()), WithMore(old(fields), elements))
                && exists i: nat :: i < |elements| && Added(old(fields), name, typeCode, newElementSize, elements[..i])
    {
      hide *;
      BufferIsLarge();
      LastInside();
      NotLast(k);
      var type_ := TypeOf(header, k);
      if type_ != typeCode {
        return B_BAD_TYPE;
      }
      ghost var before, added := fields, 0;
      status, added := AddFieldData(header, elements, elementSize, |elements|);
      MoreNone(before);
      AddedIs(before, before, name, typeCode, newElementSize, elements[..added]);
      assert elements[..0] == [];
      assert elements[..|elements|] == elements;
    }

    lemma NotLast(k: nat)
      requires Valid() && k < |fields|
      ensures k < |fields| - 1 ==> Start(fields, k) != Start(fields, |fields| - 1)
    {
      hide Encodes, Start;
      if k < |fields| - 1 {
        StartsIncrease(Content(fBuffer), fields, k, |fields| - 1);
      }
    }

    method AddToNewField(name: seq<byte>, typeCode: int, newElementSize: int, elements: seq<seq<byte>>,
                         elementSize: nat)
        returns (status: int)
      requires Valid() && IsName(name) && IsInt32(typeCode) && IsInt32(newElementSize) && HasRoom(name, elements)
      requires IndexOf(fields, name, B_ANY_TYPE) == |fields|
      requires forall v <- elements :: |v| == elementSize
      requires newElementSize == elementSize || newElementSize < 0
      modifies this`mallocs, this`fBuffer, this`isInline, this`ownsBuffer, this`fLastFieldOffset, this`fields
      ensures Valid() && mallocs >= old(mallocs)
      ensures |fBuffer| >= HEADER_SIZE && Envelope() == old(Envelope())
      ensures if status == B_OK then
                Added(old(fields), name, typeCode, newElementSize, elements)
              else
                && Explains(status, old(Held()), old(fields) + [Field(name, typeCode, newElementSize, elements)])
                && (fields == old(fields)
                    || exists i: nat :: i < |elements|
                         && Added(old(fields), name, typeCode, newElementSize, elements[..i]))
    {
      hide Valid, Concat, HeaderIsGood, Content, HasRoom, Start, IndexOf, Added, WithMore, ContentSize, Explains;
      BufferIsLarge();
      RoomFor(name, elements);
      ghost var before, held, empty := fields, Held(), Field(name, typeCode, newElementSize, []);
      ghost var whole := before + [empty.(values := elements)];
      InlineIsEmpty();
      SizeOfNew(before, empty, elements);
      status := AppendField(name, typeCode, newElementSize);
      if status != B_OK {
        ExplainsWhole(status, held, whole, held, before + [empty]);
        return;
      }
      LastOffset();
      ghost var later := Held();
      ghost var target, added := fields, 0;
      status, added := AddFieldData(fLastFieldOffset, elements, elementSize, |elements|);
      AddedIs(before, target, name, typeCode, newElementSize, elements[..added]);
      assert elements[..|elements|] == elements;
      if status != B_OK {
        MoreOfNew(before, empty, elements);
        ExplainsWhole(status, held, whole, later, WithMore(target, elements));
      }
    }

    lemma InlineIsEmpty()
      requires Valid()
      ensures isInline ==> fields == []
    {
      ContentIs();
    }

    lemma RoomFor(name: seq<byte>, elements: seq<seq<byte>>)
      requires Valid() && HasRoom(name, elements)
      ensures |name| + FIELD_HEADER_SIZE + 3 <= INT16_MAX
      ensures |Content(fBuffer)| + |name| + FIELD_HEADER_SIZE + |Concat(elements)| + 7 * |elements| + 16 <= INT32_MAX
      ensures fields != [] ==> |fields[|fields| - 1].values| + |elements| <= INT32_MAX
    {
    }

    method TypeOf(header: int, ghost k: nat) returns (typeCode: int)
      requires Valid() && k < |fields| && header == Start(fields, k)
      ensures typeCode == fields[k].typeCode
    {
      hide Encodes, End, FieldSize, HoldsField, Align, GetInt32, MAGIC, TypeAt, NameAt, Start, HeaderSizeAt;
      InPlace(Content(fBuffer), fields, k);
      FieldWords(Content(fBuffer), header, fields[k]);
      typeCode := TypeAt(Content(fBuffer), header);
    }

    lemma LastOffset()
      requires Valid() && fields != []
      ensures fLastFieldOffset == Start(fields, |fields| - 1)
    {
    }

    /** The values that went into the field that was found or added. */
    lemma AddedIs(before: seq<Field>, target: seq<Field>, name: seq<byte>, typeCode: int, newElementSize: int,
                  values: seq<seq<byte>>)
      requires target != [] && fields == WithMore(target, values)
      requires target == if IndexOf(before, name, B_ANY_TYPE) < |before| then before
                         else before + [Field(name, typeCode, newElementSize, [])]
      ensures Added(before, name, typeCode, newElementSize, values)
    {
      hide IndexOf;
      assert [] + values == values;
      assert (before + [Field(name, typeCode, newElementSize, [])])[..|before|] == before;
    }
  }

  lemma FirstReplaced(m: seq<byte>, fields: seq<Field>, k: nat, v: seq<byte>)
    requires Encodes(m, fields) && k < |fields| && IsFixed(fields[k]) && fields[k].values != []
               && |v| == fields[k].elementSize
    ensures var at, f := Start(fields, k) + HeaderSize(fields[k]), fields[k];
            at + |v| <= |m| && Encodes(Write(m, at, v), fields[k := f.(values := f.values[0 := v])])
  {
    hide Encodes, End, FieldSize, HoldsField, Align, HeaderSize, HoldsValues, Concat, Start, Write;
    var at := Start(fields, k) + HeaderSize(fields[k]);
    var n := if at + |v| <= |m| then m[..at] + v + m[at + |v|..] else m;
    MessageReplaceFirst(m, n, fields, k, v);
    ReplacedIs(m, at, v);
  }

  /** Replacing a value moves no field. */
  lemma ReplacedStart(m: seq<byte>, fields: seq<Field>, k: nat, v: seq<byte>)
    requires Encodes(m, fields) && k < |fields| && IsFixed(fields[k]) && fields[k].values != []
               && |v| == fields[k].elementSize
    ensures Start(fields[k := fields[k].(values := fields[k].values[0 := v])], |fields| - 1)
              == Start(fields, |fields| - 1)
  {
    hide Encodes, End, FieldSize, HoldsField, Align, HeaderSize, HoldsValues, Concat;
    var f, last := fields[k], |fields| - 1;
    var g := f.(values := f.values[0 := v]);
    InPlace(m, fields, k);
    FieldData(m, Start(fields, k), f);
    ReplacedSize(f, v);
    ReplaceKeepsEnds(fields, k, g, last);
  }

  lemma ReplacedIs(m: seq<byte>, at: nat, v: seq<byte>)
    requires at + |v| <= |m|
    ensures Write(m, at, v) == m[..at] + v + m[at + |v|..]
  {
  }

  lemma ReplacedSize(f: Field, v: seq<byte>)
    requires IsFixed(f) && f.values != [] && (forall w <- f.values :: |w| == f.elementSize) && |v| == f.elementSize
    ensures FieldSize(f.(values := f.values[0 := v])) == FieldSize(f)
  {
    ConcatSize(f.values, f.elementSize);
    ConcatSize(f.values[0 := v], f.elementSize);
  }

  lemma MoreNone(fields: seq<Field>)
    requires fields != []
    ensures WithMore(fields, []) == fields
  {
    var last := fields[|fields| - 1];
    assert last.values + [] == last.values;
  }

  lemma MoreOfNew(fields: seq<Field>, f: Field, values: seq<seq<byte>>)
    requires f.values == []
    ensures WithMore(fields + [f], values) == fields + [f.(values := values)]
  {
    assert [] + values == values;
    assert (fields + [f])[..|fields|] == fields;
  }

  lemma MoreTwice(fields: seq<Field>, a: seq<seq<byte>>, v: seq<byte>)
    requires fields != []
    ensures WithMore(WithMore(fields, a), [v]) == WithMore(fields, a + [v])
  {
    var last := fields[|fields| - 1];
    assert (last.values + a) + [v] == last.values + (a + [v]);
  }

  lemma ConcatNone()
    ensures Concat([]) == []
  {
  }

  lemma ConcatStep(elements: seq<seq<byte>>, i: nat)
    requires i < |elements|
    ensures |Concat(elements[..i + 1])| == |Concat(elements[..i])| + |elements[i]| <= |Concat(elements)|
  {
    ConcatAppend(elements[..i], [elements[i]]);
    ConcatOne(elements[i]);
    assert elements[..i + 1] == elements[..i] + [elements[i]];
    ConcatAppend(elements[..i + 1], elements[i + 1..]);
    assert elements == elements[..i + 1] + elements[i + 1..];
  }

  /** More values do not move the field. */
  lemma LastMoves(fields: seq<Field>, more: seq<seq<byte>>)
    requires fields != []
    ensures Start(WithMore(fields, more), |fields| - 1) == Start(fields, |fields| - 1)
  {
    hide End;
    var k := |fields| - 1;
    assert WithMore(fields, more)[..k] == fields[..k];
    EndOfPrefix(WithMore(fields, more), fields, k);
  }

  lemma NewFieldFits(f: Field)
    requires IsName(f.name) && IsInt32(f.typeCode) && IsInt32(f.elementSize) && f.values == []
    requires |f.name| + FIELD_HEADER_SIZE + 3 <= INT16_MAX
    ensures FitsHeader(f) && FieldSize(f) == HeaderSize(f) == Align(FIELD_HEADER_SIZE + |f.name|)
  {
  }

  lemma GrownEnvelope(b: seq<byte>, c: seq<byte>, newSize: nat)
    requires HeaderIsGood(b) && Grown(b, c, newSize)
    ensures |c| >= HEADER_SIZE && c[WHAT_AT..HEADER_SIZE] == b[WHAT_AT..HEADER_SIZE]
  {
  }

  lemma GrownRoom(b: seq<byte>, c: seq<byte>, newSize: nat)
    requires HeaderIsGood(b) && Grown(b, c, newSize)
    ensures newSize <= |c| && newSize >= |Content(b)| && HeaderIsGood(c) && |Content(c)| == newSize
    ensures Content(c)[HEADER_SIZE..|Content(b)|] == Content(b)[HEADER_SIZE..]
  {
  }

  /** A message that its own check does not accept: one field of the wildcard type, with which
      SetData succeeds. */
  method SetWildcard(mallocFails: nat -> bool, garbage: nat -> byte)
      returns (message: KMessage, status: int, panics: bool)
    requires forall n :: !mallocFails(n)
    ensures fresh(message) && status == B_OK && message.fields == [Field([65], B_ANY_TYPE, 1, [[7]])] && panics
  {
    hide Encodes, GetInt32, MAGIC, KMessage.AddOutcome;
    message := new KMessage(mallocFails, garbage);
    assert Concat([[7]]) == Concat([]) + [7];
    var trapped;
    trapped, status := message.SetData([65], B_ANY_TYPE, [7], 1, true);
    assert !IsParsable(message.fields[0]);
    panics := message.CheckBuffer();
  }
}
