/** What a flattened message holds: an ordered list of named fields with their values. */
module KMessageFields {
  import opened Collections
  import opened KMessageBytes
  import opened KMessageParser

  /** elementSize < 0: values of any size. */
  datatype Field = Field(name: seq<byte>, typeCode: int, elementSize: int, values: seq<seq<byte>>)

  predicate IsFixed(f: Field) { f.elementSize >= 0 }

  // ----- sizes

  function HeaderSize(f: Field): (n: nat)
    ensures n % 4 == 0 && n >= FIELD_HEADER_SIZE && NAME_AT + |f.name| < n
  {
    Align(FIELD_HEADER_SIZE + |f.name|)
  }

  function Concat(values: seq<seq<byte>>): (s: seq<byte>) {
    if values == [] then [] else Concat(values[..|values| - 1]) + values[|values| - 1]
  }

  /** Where the first k values of variable size end, from the first one on. */
  function ValueEnd(values: seq<seq<byte>>, k: nat): nat
    requires k <= |values|
  {
    if k == 0 then 0 else Align(ValueEnd(values, k - 1)) + 4 + |values[k - 1]|
  }

  function ValuesSize(values: seq<seq<byte>>): nat { ValueEnd(values, |values|) }

  function DataSize(f: Field): nat {
    if IsFixed(f) then |Concat(f.values)| else ValuesSize(f.values)
  }

  function FieldSize(f: Field): (n: nat)
    ensures n >= HeaderSize(f)
  {
    HeaderSize(f) + DataSize(f)
  }

  /** Where the first k fields end. */
  function End(fields: seq<Field>, k: nat): (o: nat)
    requires k <= |fields|
    ensures o >= HEADER_SIZE
    decreases k, 0
  {
    if k == 0 then HEADER_SIZE else Start(fields, k - 1) + FieldSize(fields[k - 1])
  }

  /** Where the k-th field starts. */
  function Start(fields: seq<Field>, k: nat): (o: nat)
    requires k <= |fields|
    ensures o >= HEADER_SIZE && o % 4 == 0
    decreases k, 1
  {
    Align(End(fields, k))
  }

  function ContentSize(fields: seq<Field>): nat { End(fields, |fields|) }

  lemma {:induction false} EndOfPrefix(a: seq<Field>, b: seq<Field>, k: nat)
    requires k <= |a| && k <= |b| && a[..k] == b[..k]
    ensures End(a, k) == End(b, k)
  {
    if k > 0 {
      assert a[..k][..k - 1] == a[..k - 1] && b[..k][..k - 1] == b[..k - 1];
      assert a[k - 1] == a[..k][k - 1] && b[k - 1] == b[..k][k - 1];
      EndOfPrefix(a, b, k - 1);
    }
  }

  lemma {:induction false} EndsInOrder(fields: seq<Field>, i: nat, j: nat)
    requires i <= j <= |fields|
    ensures End(fields, i) <= End(fields, j)
    decreases j
  {
    hide FieldSize, Align;
    if i < j {
      EndsInOrder(fields, i, j - 1);
    }
  }

  lemma {:induction false} ValueEndOfPrefix(a: seq<seq<byte>>, b: seq<seq<byte>>, k: nat)
    requires k <= |a| && k <= |b| && a[..k] == b[..k]
    ensures ValueEnd(a, k) == ValueEnd(b, k)
  {
    if k > 0 {
      assert a[..k][..k - 1] == a[..k - 1] && b[..k][..k - 1] == b[..k - 1];
      assert a[k - 1] == a[..k][k - 1] && b[k - 1] == b[..k][k - 1];
      ValueEndOfPrefix(a, b, k - 1);
    }
  }

  // ----- which bytes hold which fields

  ghost predicate HoldsValue(s: seq<byte>, values: seq<seq<byte>>, k: nat)
    requires k < |values|
  {
    var at := Align(ValueEnd(values, k));
    && at + 4 + |values[k]| <= |s| && GetInt32(s, at) == |values[k]|
    && s[at + 4..at + 4 + |values[k]|] == values[k]
  }

  /** s is the data of a field with values of variable size; padding holds anything. */
  ghost predicate HoldsValues(s: seq<byte>, values: seq<seq<byte>>) {
    |s| == ValuesSize(values) && forall k: nat :: k < |values| ==> HoldsValue(s, values, k)
  }

  ghost predicate HoldsData(s: seq<byte>, f: Field) {
    if IsFixed(f) then s == Concat(f.values) && forall v <- f.values :: |v| == f.elementSize
    else HoldsValues(s, f.values)
  }

  ghost predicate HoldsHeader(s: seq<byte>, f: Field) {
    && |s| >= HeaderSize(f) && IsName(f.name)
    && TypeAt(s, 0) == f.typeCode && ElementSizeAt(s, 0) == f.elementSize && ElementCountAt(s, 0) == |f.values|
    && FieldSizeAt(s, 0) == FieldSize(f) && HeaderSizeAt(s, 0) == HeaderSize(f)
    && s[NAME_AT..NAME_AT + |f.name|] == f.name && s[NAME_AT + |f.name|] == 0
  }

  /** s is the header and the data of f. */
  ghost predicate HoldsField(s: seq<byte>, f: Field) {
    |s| == FieldSize(f) && HoldsHeader(s, f) && HoldsData(s[HeaderSize(f)..], f)
  }

  ghost predicate FieldInPlace(m: seq<byte>, fields: seq<Field>, k: nat)
    requires k < |fields|
  {
    var o := Start(fields, k);
    o + FieldSize(fields[k]) <= |m| && HoldsField(m[o..o + FieldSize(fields[k])], fields[k])
  }

  /** The message m, after its header, holds exactly these fields. */
  ghost predicate Encodes(m: seq<byte>, fields: seq<Field>) {
    |m| == ContentSize(fields) && forall k: nat :: k < |fields| ==> FieldInPlace(m, fields, k)
  }

  // ----- parsing what was built

  /** What the builder lets through and the parser does not. */
  predicate IsParsable(f: Field) { f.typeCode != B_ANY_TYPE && f.name != [] }

  function Starts(fields: seq<Field>): (offsets: seq<nat>)
    ensures |offsets| == |fields|
  {
    seq(|fields|, k requires 0 <= k < |fields| => Start(fields, k))
  }

  /** The header words of a field, read in the whole message. */
  lemma FieldWords(m: seq<byte>, o: nat, f: Field)
    requires o + FieldSize(f) <= |m| && HoldsField(m[o..o + FieldSize(f)], f)
    ensures HasHeader(m, o)
    ensures TypeAt(m, o) == f.typeCode && ElementSizeAt(m, o) == f.elementSize && ElementCountAt(m, o) == |f.values|
    ensures FieldSizeAt(m, o) == FieldSize(f) && HeaderSizeAt(m, o) == HeaderSize(f) && NameAt(m, o) == f.name
  {
    hide GetInt32, GetInt16, HoldsData, FieldSize, CString;
    var e := o + FieldSize(f);
    HoldsHeaderOf(m[o..e], f);
    HeaderSizeWord(m, o, f);
    FieldNameAt(m, o, f);
    Word32(m, o, e, TYPE_AT);
    Word32(m, o, e, ELEMENT_SIZE_AT);
    Word32(m, o, e, ELEMENT_COUNT_AT);
    Word32(m, o, e, FIELD_SIZE_AT);
  }

  lemma HoldsHeaderOf(s: seq<byte>, f: Field)
    requires HoldsField(s, f)
    ensures |s| == FieldSize(f) >= HeaderSize(f) >= FIELD_HEADER_SIZE && HoldsHeader(s, f)
  {
    hide HoldsData, GetInt32, GetInt16;
  }

  lemma HeaderSizeWord(m: seq<byte>, o: nat, f: Field)
    requires o + FieldSize(f) <= |m| && HoldsField(m[o..o + FieldSize(f)], f)
    ensures HasHeader(m, o) && HeaderSizeAt(m, o) == HeaderSize(f)
  {
    hide GetInt32, GetInt16, HoldsData, FieldSize;
    var e := o + FieldSize(f);
    HoldsHeaderOf(m[o..e], f);
    Within(m, o, e, HEADER_SIZE_AT, HEADER_SIZE_AT + 2);
    GetSame16(m[o..e], HEADER_SIZE_AT, m, o + HEADER_SIZE_AT);
  }

  lemma FieldNameAt(m: seq<byte>, o: nat, f: Field)
    requires o + FieldSize(f) <= |m| && HoldsField(m[o..o + FieldSize(f)], f)
    ensures HasHeader(m, o) && NameAt(m, o) == f.name
  {
    hide GetInt32, GetInt16, HoldsData, FieldSize;
    var e := o + FieldSize(f);
    HoldsHeaderOf(m[o..e], f);
    Within(m, o, e, NAME_AT, NAME_AT + |f.name|);
    CStringIs(m, o + NAME_AT, f.name);
  }

  lemma Word32(m: seq<byte>, a: nat, b: nat, at: nat)
    requires a <= b <= |m| && at + 4 <= b - a
    ensures GetInt32(m[a..b], at) == GetInt32(m, a + at)
  {
    Within(m, a, b, at, at + 4);
    GetSame32(m[a..b], at, m, a + at);
  }

  lemma OneValue(s: seq<byte>, values: seq<seq<byte>>, k: nat)
    requires HoldsValues(s, values) && k < |values|
    ensures HoldsValue(s, values, k)
  {
    hide HoldsValue;
  }

  /** The k-th value, read in the whole message. */
  lemma ValueWord(m: seq<byte>, data: nat, values: seq<seq<byte>>, k: nat)
    requires k < |values| && data % 4 == 0 && data + ValuesSize(values) <= |m|
    requires HoldsValues(m[data..data + ValuesSize(values)], values)
    ensures var at := data + Align(ValueEnd(values, k));
            && at % 4 == 0 && at + 4 + |values[k]| <= |m| && GetInt32(m, at) == |values[k]|
            && at + 4 + |values[k]| == data + ValueEnd(values, k + 1)
            && m[at + 4..at + 4 + |values[k]|] == values[k]
  {
    hide HoldsValues, ValuesSize, GetInt32;
    var size, at, n := ValuesSize(values), Align(ValueEnd(values, k)), |values[k]|;
    OneValue(m[data..data + size], values, k);
    Word32(m, data, data + size, at);
    Within(m, data, data + size, at + 4, at + 4 + n);
  }

  /** The check walks over the values exactly as they were laid out. */
  lemma {:induction false} ValuesCheck(m: seq<byte>, data: nat, values: seq<seq<byte>>, k: nat)
    requires k <= |values| && data % 4 == 0 && data + ValuesSize(values) <= |m|
    requires HoldsValues(m[data..data + ValuesSize(values)], values)
    ensures CheckValues(m, data + Align(ValueEnd(values, k)), |values| - k, data + ValueEnd(values, k))
              == EndAt(data + ValuesSize(values))
    decreases |values| - k
  {
    hide HoldsValues, ValueEnd, GetInt32, Align;
    if k < |values| {
      ValueWord(m, data, values, k);
      ValuesCheck(m, data, values, k + 1);
      AlignSum(data, ValueEnd(values, k + 1));
      AlignAligned(data + Align(ValueEnd(values, k)) + 4);
      hide ValuesSize;
    }
  }

  lemma AlignSum(a: nat, b: nat)
    requires a % 4 == 0
    ensures Align(a + b) == a + Align(b)
  {
  }

  lemma AlignAligned(a: nat)
    requires a % 4 == 0
    ensures Align(a) == a
  {
  }

  lemma HeaderFits(f: Field)
    ensures FIELD_HEADER_SIZE <= HeaderSize(f) <= FieldSize(f) && |f.name| < HeaderSize(f) - NAME_AT
  {
  }

  lemma FieldCheck(m: seq<byte>, o: nat, f: Field)
    requires o % 4 == 0 && o + FieldSize(f) <= |m| && HoldsField(m[o..o + FieldSize(f)], f)
    ensures CheckField(m, o) == if IsParsable(f) then GoodField else BadField
  {
    hide GetInt32, GetInt16, HoldsValues, HoldsField, CheckValues, StrNLen;
    HeaderFits(f);
    FieldWords(m, o, f);
    FieldName(m, o, f);
    FieldValuesCheck(m, o, f);
  }

  lemma FieldName(m: seq<byte>, o: nat, f: Field)
    requires o + FieldSize(f) <= |m| && HoldsField(m[o..o + FieldSize(f)], f)
    ensures StrNLen(m, o + NAME_AT, HeaderSize(f) - NAME_AT) == |f.name|
  {
    hide GetInt32, GetInt16, HoldsData, DataSize;
    Within(m, o, o + FieldSize(f), NAME_AT, NAME_AT + |f.name|);
    NameLength(m, o, HeaderSize(f) - NAME_AT, f.name);
  }

  lemma FieldValuesCheck(m: seq<byte>, o: nat, f: Field)
    requires o % 4 == 0 && o + FieldSize(f) <= |m| && HoldsField(m[o..o + FieldSize(f)], f)
    ensures var data := o + HeaderSize(f);
            !IsFixed(f) ==> CheckValues(m, data, |f.values|, data) == EndAt(o + FieldSize(f))
  {
    hide HoldsField, HoldsValues, HoldsHeader, CheckValues, HeaderSize, Align;
    if !IsFixed(f) {
      FieldData(m, o, f);
      AlignAligned(0);
      ValuesCheck(m, o + HeaderSize(f), f.values, 0);
    }
  }

  /** The data of a field, in the whole message. */
  lemma FieldData(m: seq<byte>, o: nat, f: Field)
    requires o + FieldSize(f) <= |m| && HoldsField(m[o..o + FieldSize(f)], f)
    ensures HoldsData(m[o + HeaderSize(f)..o + FieldSize(f)], f)
  {
    hide HoldsData, HoldsHeader;
    assert m[o..o + FieldSize(f)][HeaderSize(f)..] == m[o + HeaderSize(f)..o + FieldSize(f)];
  }

  lemma NameLength(m: seq<byte>, o: nat, max: nat, name: seq<byte>)
    requires o + NAME_AT + max <= |m| && |name| < max && IsName(name)
    requires m[o + NAME_AT..o + NAME_AT + |name|] == name && m[o + NAME_AT + |name|] == 0
    ensures StrNLen(m, o + NAME_AT, max) == |name|
  {
    var at := o + NAME_AT;
    forall i | at <= i < at + |name| ensures m[i] != 0 {
      assert m[i] == m[at..at + |name|][i - at];
    }
    StrNLenIs(m, at, max, |name|);
  }

  /** One field of a message, as the parser meets it. */
  lemma ParseField(m: seq<byte>, fields: seq<Field>, k: nat)
    requires Encodes(m, fields) && k < |fields|
    ensures Start(fields, k) < |m|
    ensures CheckField(m, Start(fields, k)) == if IsParsable(fields[k]) then GoodField else BadField
    ensures HasHeader(m, Start(fields, k)) && NextAt(m, Start(fields, k)) == Start(fields, k + 1)
  {
    hide HoldsField, FieldSize, CheckField, IsParsable, Align, Encodes, End;
    var o, f := Start(fields, k), fields[k];
    InPlace(m, fields, k);
    FieldCheck(m, o, f);
    FieldWords(m, o, f);
    hide HeaderSizeAt, TypeAt, ElementSizeAt, ElementCountAt, NameAt, FieldSizeAt;
  }

  /** Where the k-th field is. */
  lemma InPlace(m: seq<byte>, fields: seq<Field>, k: nat)
    requires Encodes(m, fields) && k < |fields|
    ensures var o, f := Start(fields, k), fields[k];
            && FieldSize(f) > 0 && o + FieldSize(f) == End(fields, k + 1) <= |m|
            && Align(o + FieldSize(f)) == Start(fields, k + 1)
            && HoldsField(m[o..o + FieldSize(f)], f)
  {
    hide HoldsField, FieldSize, Align;
    assert FieldInPlace(m, fields, k);
  }

  /** The fields from the k-th on are parsed as they were built ... */
  lemma {:induction false} ParseFrom(m: seq<byte>, fields: seq<Field>, k: nat)
    requires Encodes(m, fields) && k <= |fields|
    requires forall i :: k <= i < |fields| ==> IsParsable(fields[i])
    ensures ParseFields(m, Start(fields, k)) == Accepted(Starts(fields)[k..])
    decreases |fields| - k
  {
    hide FieldSize, Encodes, CheckField, IsParsable, Start, NextAt;
    if k < |fields| {
      ParseField(m, fields, k);
      ParseFrom(m, fields, k + 1);
      assert Starts(fields)[k..] == [Start(fields, k)] + Starts(fields)[k + 1..];
    } else {
      PastTheEnd(m, fields);
    }
  }

  lemma PastTheEnd(m: seq<byte>, fields: seq<Field>)
    requires Encodes(m, fields)
    ensures |m| <= Start(fields, |fields|)
  {
  }

  /** ... unless one of them, the j-th, has the wildcard type or no name. */
  lemma {:induction false} RejectFrom(m: seq<byte>, fields: seq<Field>, k: nat, j: nat)
    requires Encodes(m, fields) && k <= j < |fields| && !IsParsable(fields[j])
    ensures ParseFields(m, Start(fields, k)) == Rejected
    decreases j - k
  {
    hide FieldSize, Encodes, CheckField, IsParsable, Start, NextAt;
    ParseField(m, fields, k);
    if k < j {
      RejectFrom(m, fields, k + 1, j);
    }
  }

  /** The round trip: what was built is parsed again, with the same headers, if and only if
      every field has a proper type and a name. */
  lemma RoundTrip(b: seq<byte>, fields: seq<Field>)
    requires HeaderIsGood(b) && Encodes(Content(b), fields)
    ensures Parse(b).Accepted? <==> forall f <- fields :: IsParsable(f)
    ensures Parse(b).Accepted? ==> Parse(b).offsets == Starts(fields)
    ensures !Parse(b).Strays?
  {
    var m := Content(b);
    hide Encodes, IsParsable, ParseFields, Content, HeaderIsGood;
    assert Start(fields, 0) == HEADER_SIZE;
    if j: nat :| j < |fields| && !IsParsable(fields[j]) {
      RejectFrom(m, fields, 0, j);
    } else {
      ParseFrom(m, fields, 0);
      assert Starts(fields)[0..] == Starts(fields);
    }
  }
}
