/** The format of a flattened message, and which buffers are messages.

    A message is its header followed by fields; each field starts at a multiple of four with a
    field header that holds its name, and its values follow. Offsets are offsets into the
    message; its length is the content size. */
module KMessageParser {
  import opened Collections
  import opened KMessageBytes

  const MAGIC: int := 0x6B4D_7347            // 'kMsG'
  const B_ANY_TYPE: int := 0x414E_5954       // 'ANYT'

  // struct Header
  const HEADER_SIZE: nat := 28
  const MAGIC_AT: nat := 0
  const SIZE_AT: nat := 4
  const WHAT_AT: nat := 8
  const SENDER_AT: nat := 12
  const TARGET_TOKEN_AT: nat := 16
  const REPLY_PORT_AT: nat := 20
  const REPLY_TOKEN_AT: nat := 24

  // struct FieldHeader
  const FIELD_HEADER_SIZE: nat := 20
  const TYPE_AT: nat := 0
  const ELEMENT_SIZE_AT: nat := 4
  const ELEMENT_COUNT_AT: nat := 8
  const FIELD_SIZE_AT: nat := 12
  const HEADER_SIZE_AT: nat := 16
  const NAME_AT: nat := 18

  /** There is room for a field header at o. */
  predicate HasHeader(m: seq<byte>, o: nat) { o + FIELD_HEADER_SIZE <= |m| }

  function TypeAt(m: seq<byte>, o: nat): int requires HasHeader(m, o) { GetInt32(m, o + TYPE_AT) }
  function ElementSizeAt(m: seq<byte>, o: nat): int requires HasHeader(m, o) { GetInt32(m, o + ELEMENT_SIZE_AT) }
  function ElementCountAt(m: seq<byte>, o: nat): int requires HasHeader(m, o) { GetInt32(m, o + ELEMENT_COUNT_AT) }
  function FieldSizeAt(m: seq<byte>, o: nat): int requires HasHeader(m, o) { GetInt32(m, o + FIELD_SIZE_AT) }
  function HeaderSizeAt(m: seq<byte>, o: nat): int requires HasHeader(m, o) { GetInt16(m, o + HEADER_SIZE_AT) }
  function NameAt(m: seq<byte>, o: nat): seq<byte> requires HasHeader(m, o) { CString(m, o + NAME_AT) }

  /** FieldHeader::NextFieldHeader */
  function NextAt(m: seq<byte>, o: nat): int requires HasHeader(m, o) { Align(o + FieldSizeAt(m, o)) }

  // ----- the checks

  datatype ValuesCheck = BadValues | ReadsBefore | EndAt(end: int)

  /** The check of n values of variable size from `at` on; `end` is where the value before ends.
      A negative size leads back, and the result is ReadsBefore if it leads to a read before the
      message. */
  function CheckValues(m: seq<byte>, at: int, n: nat, end: int): ValuesCheck
    decreases n
  {
    if n == 0 then EndAt(end)
    else if at < 0 then ReadsBefore
    else if |m| - at < 4 then BadValues
    else
      var value, size := Align(at + 4), GetInt32(m, at);
      if |m| - value < size then BadValues else CheckValues(m, Align(value + size), n - 1, value + size)
  }

  datatype FieldCheck = BadField | StrayField | GoodField

  function CheckField(m: seq<byte>, o: nat): FieldCheck {
    if !HasHeader(m, o) then BadField
    else if TypeAt(m, o) == B_ANY_TYPE || ElementCountAt(m, o) < 0 then BadField
    else if FieldSizeAt(m, o) < FIELD_HEADER_SIZE || FieldSizeAt(m, o) > |m| - o then BadField
    else if HeaderSizeAt(m, o) < FIELD_HEADER_SIZE || HeaderSizeAt(m, o) > FieldSizeAt(m, o) then BadField
    else
      var maxNameLen := HeaderSizeAt(m, o) - NAME_AT;
      var nameLen := StrNLen(m, o + NAME_AT, maxNameLen);
      if nameLen == maxNameLen || nameLen == 0 then BadField
      else if ElementSizeAt(m, o) >= 0 then GoodField
      else
        var data := o + HeaderSizeAt(m, o);
        match CheckValues(m, data, ElementCountAt(m, o), data)
        case BadValues => BadField
        case ReadsBefore => StrayField
        case EndAt(end) => if end - o > FieldSizeAt(m, o) then BadField else GoodField
  }

  datatype ParseResult = Accepted(offsets: seq<nat>) | Rejected | Strays

  /** The fields from o on: where their headers are, if all of them are good. It strays if it
      reads before the message. */
  function ParseFields(m: seq<byte>, o: nat): ParseResult
    decreases |m| - o
  {
    if |m| <= o then Accepted([])
    else match CheckField(m, o)
      case BadField => Rejected
      case StrayField => Strays
      case GoodField =>
        match ParseFields(m, NextAt(m, o))
        case Accepted(offsets) => Accepted([o] + offsets)
        case other => other
  }

  predicate HeaderIsGood(b: seq<byte>) {
    |b| >= HEADER_SIZE && GetInt32(b, MAGIC_AT) == MAGIC && HEADER_SIZE <= GetInt32(b, SIZE_AT) <= |b|
  }

  /** The bytes of the message in a buffer. */
  function Content(b: seq<byte>): (m: seq<byte>)
    requires HeaderIsGood(b)
    ensures |m| >= HEADER_SIZE
  {
    b[..GetInt32(b, SIZE_AT)]
  }

  function Parse(b: seq<byte>): ParseResult {
    if HeaderIsGood(b) then ParseFields(Content(b), HEADER_SIZE) else Rejected
  }

  // ----- what acceptance means

  /** The field at o lies inside the message, and so does its name inside its header. */
  ghost predicate FieldInside(m: seq<byte>, o: nat) {
    && HasHeader(m, o) && o % 4 == 0
    && FIELD_HEADER_SIZE <= HeaderSizeAt(m, o) <= FieldSizeAt(m, o) <= |m| - o
    && TypeAt(m, o) != B_ANY_TYPE && ElementCountAt(m, o) >= 0
    && |NameAt(m, o)| > 0 && NAME_AT + |NameAt(m, o)| < HeaderSizeAt(m, o) && m[o + NAME_AT + |NameAt(m, o)|] == 0
  }

  /** Where a value of variable size ends whose size word is at `at`. */
  function ValueEndsAt(m: seq<byte>, at: nat): int requires at + 4 <= |m| { Align(at + 4) + GetInt32(m, at) }

  /** The value at `at` ends inside the message, and the next one is behind it. */
  ghost predicate ValueFollows(m: seq<byte>, at: int, next: int) {
    0 <= at && at + 4 <= |m| && ValueEndsAt(m, at) <= |m| && next == Align(ValueEndsAt(m, at))
  }

  /** The size words of values that follow one another from `at` on; the last of these places is
      the one behind the last value. */
  ghost predicate ValuesFollow(m: seq<byte>, at: int, ats: seq<int>) {
    && ats != [] && ats[0] == at
    && forall k: nat :: k + 1 < |ats| ==> ValueFollows(m, ats[k], ats[k + 1])
  }

  /** The values of the field at o, which are of variable size, follow one another inside the
      message, and the last one ends within the field. */
  ghost predicate ValuesInside(m: seq<byte>, o: nat, ats: seq<int>)
    requires HasHeader(m, o)
  {
    var n := ElementCountAt(m, o);
    && |ats| == n + 1 && ValuesFollow(m, o + HeaderSizeAt(m, o), ats)
    && (n > 0 ==> ValueFollows(m, ats[n - 1], ats[n]) && ValueEndsAt(m, ats[n - 1]) <= o + FieldSizeAt(m, o))
  }

  ghost predicate GoodValues(m: seq<byte>, o: nat)
    requires HasHeader(m, o)
  {
    ElementSizeAt(m, o) < 0 ==> exists ats: seq<int> :: ValuesInside(m, o, ats)
  }

  /** One of the values of the field at o is before the message, behind a value of negative size. */
  ghost predicate StrayValues(m: seq<byte>, o: nat)
    requires HasHeader(m, o)
  {
    ElementSizeAt(m, o) < 0 && exists ats: seq<int> ::
      |ats| <= ElementCountAt(m, o) && ValuesFollow(m, o + HeaderSizeAt(m, o), ats) && ats[|ats| - 1] < 0
  }

  /** The i-th header is a good one, and the next one follows it, or the message ends. */
  ghost predicate Step(m: seq<byte>, offsets: seq<nat>, i: nat)
    requires i < |offsets|
  {
    && FieldInside(m, offsets[i]) && GoodValues(m, offsets[i])
    && if i + 1 < |offsets| then offsets[i + 1] == NextAt(m, offsets[i]) else NextAt(m, offsets[i]) >= |m|
  }

  /** offsets are the headers met when walking from o to the end of the message. */
  ghost predicate Walks(m: seq<byte>, o: nat, offsets: seq<nat>) {
    && (offsets == [] <==> |m| <= o) && (offsets != [] ==> offsets[0] == o)
    && (forall i: nat :: i < |offsets| ==> Step(m, offsets, i))
  }

  /** The walk strays in the last of these fields. */
  ghost predicate WalksAstray(m: seq<byte>, o: nat, offsets: seq<nat>) {
    && offsets != [] && offsets[0] == o
    && (forall i: nat :: i + 1 < |offsets| ==> Step(m, offsets, i))
    && HasHeader(m, offsets[|offsets| - 1]) && FieldInside(m, offsets[|offsets| - 1])
    && StrayValues(m, offsets[|offsets| - 1])
  }

  lemma NameIsInside(m: seq<byte>, o: nat)
    requires HasHeader(m, o) && FIELD_HEADER_SIZE <= HeaderSizeAt(m, o) <= |m| - o
    ensures var max := HeaderSizeAt(m, o) - NAME_AT; var n := |NameAt(m, o)|;
            StrNLen(m, o + NAME_AT, max) == if n < max && m[o + NAME_AT + n] == 0 then n else max
  {
    hide GetInt32, GetInt16;
    var at, max, rest := o + NAME_AT, HeaderSizeAt(m, o) - NAME_AT, |m| - (o + NAME_AT);
    var n, l := StrNLen(m, at, rest), StrNLen(m, at, max);
    if l < max {
      StrNLenIs(m, at, rest, l);
    }
  }

  // ----- the values, one after another

  /** Where the values that lead to the last of these places end. */
  function LastEnd(m: seq<byte>, ats: seq<int>, end: int): int {
    if |ats| > 1 && 0 <= ats[|ats| - 2] <= |m| - 4 then ValueEndsAt(m, ats[|ats| - 2]) else end
  }

  lemma {:induction false} FollowPrepend(m: seq<byte>, at: int, next: int, rest: seq<int>, end: int)
    requires ValueFollows(m, at, next) && ValuesFollow(m, next, rest)
    ensures ValuesFollow(m, at, [at] + rest)
    ensures LastEnd(m, [at] + rest, end) == LastEnd(m, rest, ValueEndsAt(m, at))
  {
    var ats := [at] + rest;
    assert |rest| > 1 ==> ValueFollows(m, rest[|rest| - 2], rest[|rest| - 2 + 1]);
    hide ValueFollows;
    forall k: nat | k + 1 < |ats| ensures ValueFollows(m, ats[k], ats[k + 1]) {
      assert k > 0 ==> ValueFollows(m, rest[k - 1], rest[k]);
    }
  }

  /** The check follows the values ... */
  lemma {:induction false} CheckFollows(m: seq<byte>, at: int, n: nat, end: int) returns (ats: seq<int>)
    ensures ValuesFollow(m, at, ats) && |ats| <= n + 1
    ensures match CheckValues(m, at, n, end)
      case EndAt(e) => |ats| == n + 1 && e == LastEnd(m, ats, end)
      case ReadsBefore => |ats| <= n && ats[|ats| - 1] < 0
      case BadValues => true
    decreases n
  {
    ats := [at];
    if n > 0 && 0 <= at <= |m| - 4 && ValueEndsAt(m, at) <= |m| {
      hide GetInt32, Align;
      var next := Align(ValueEndsAt(m, at));
      var rest := CheckFollows(m, next, n - 1, ValueEndsAt(m, at));
      FollowPrepend(m, at, next, rest, end);
      ats := [at] + rest;
    }
  }

  /** ... and gets to the end of any that follow one another. */
  lemma {:induction false} FollowsChecked(m: seq<byte>, at: int, ats: seq<int>, n: nat, end: int)
    requires ValuesFollow(m, at, ats) && |ats| <= n + 1
    ensures CheckValues(m, at, n, end) == CheckValues(m, ats[|ats| - 1], n + 1 - |ats|, LastEnd(m, ats, end))
    decreases n
  {
    hide GetInt32, Align;
    if |ats| > 1 {
      var rest := ats[1..];
      assert ValueFollows(m, ats[0], ats[1]);
      forall k: nat | k + 1 < |rest| ensures ValueFollows(m, rest[k], rest[k + 1]) {
        assert ValueFollows(m, ats[k + 1], ats[k + 2]);
      }
      FollowPrepend(m, at, ats[1], rest, end);
      assert ats == [at] + rest;
      FollowsChecked(m, ats[1], rest, n - 1, ValueEndsAt(m, at));
    }
  }

  /** What the check of the values decides. */
  lemma ValuesMean(m: seq<byte>, o: nat)
    requires HasHeader(m, o) && ElementSizeAt(m, o) < 0 && ElementCountAt(m, o) >= 0
    requires 0 <= HeaderSizeAt(m, o) <= FieldSizeAt(m, o)
    ensures var data := o + HeaderSizeAt(m, o);
            var check := CheckValues(m, data, ElementCountAt(m, o), data);
            && (GoodValues(m, o) <==> check.EndAt? && check.end - o <= FieldSizeAt(m, o))
            && (StrayValues(m, o) <==> check.ReadsBefore?)
  {
    hide CheckValues, HeaderSizeAt, FieldSizeAt, ElementCountAt, ElementSizeAt;
    var data, n := o + HeaderSizeAt(m, o), ElementCountAt(m, o);
    var ats := CheckFollows(m, data, n, data);
    GoodMeans(m, o, ats);
    forall ats: seq<int> | ValuesFollow(m, data, ats) && |ats| <= n && ats[|ats| - 1] < 0
      ensures CheckValues(m, data, n, data).ReadsBefore? {
      FollowsChecked(m, data, ats, n, data);
      BeforeReads(m, ats[|ats| - 1], n + 1 - |ats|, LastEnd(m, ats, data));
    }
  }

  lemma BeforeReads(m: seq<byte>, at: int, n: nat, end: int)
    requires at < 0 < n
    ensures CheckValues(m, at, n, end).ReadsBefore?
  {
  }

  lemma GoodMeans(m: seq<byte>, o: nat, ats: seq<int>)
    requires HasHeader(m, o) && ElementSizeAt(m, o) < 0 && ElementCountAt(m, o) >= 0
    requires 0 <= HeaderSizeAt(m, o) <= FieldSizeAt(m, o)
    requires ValuesFollow(m, o + HeaderSizeAt(m, o), ats)
    requires var data := o + HeaderSizeAt(m, o);
             var check := CheckValues(m, data, ElementCountAt(m, o), data);
             check.EndAt? ==> |ats| == ElementCountAt(m, o) + 1 && check.end == LastEnd(m, ats, data)
    ensures var data := o + HeaderSizeAt(m, o);
            var check := CheckValues(m, data, ElementCountAt(m, o), data);
            GoodValues(m, o) <==> check.EndAt? && check.end - o <= FieldSizeAt(m, o)
  {
    hide HeaderSizeAt, FieldSizeAt, ElementCountAt, ElementSizeAt;
    var data, n := o + HeaderSizeAt(m, o), ElementCountAt(m, o);
    if CheckValues(m, data, n, data).EndAt? && CheckValues(m, data, n, data).end - o <= FieldSizeAt(m, o) {
      assert n > 0 ==> ValueFollows(m, ats[n - 1], ats[n - 1 + 1]);
      assert ValuesInside(m, o, ats);
    }
    forall ats: seq<int> | ValuesInside(m, o, ats)
      ensures CheckValues(m, data, n, data).EndAt? && CheckValues(m, data, n, data).end - o <= FieldSizeAt(m, o) {
      FollowsChecked(m, data, ats, n, data);
    }
  }

  /** Without negative sizes, every value ends within the field. */
  lemma {:induction false} EveryValueInside(m: seq<byte>, o: nat, ats: seq<int>, k: nat)
    requires HasHeader(m, o) && ValuesInside(m, o, ats) && k < ElementCountAt(m, o)
    requires forall i: nat :: i < ElementCountAt(m, o) ==> 0 <= ats[i] <= |m| - 4 && GetInt32(m, ats[i]) >= 0
    ensures 0 <= ats[k] <= |m| - 4 && ValueEndsAt(m, ats[k]) <= o + FieldSizeAt(m, o)
    decreases ElementCountAt(m, o) - k
  {
    hide GetInt32, GetInt16;
    if k + 1 < ElementCountAt(m, o) {
      assert ValueFollows(m, ats[k], ats[k + 1]);
      EveryValueInside(m, o, ats, k + 1);
    }
  }

  // ----- the fields, one after another

  /** The check of a field says exactly this. */
  lemma FieldMeans(m: seq<byte>, o: nat)
    requires o % 4 == 0
    ensures CheckField(m, o) == GoodField <==> FieldInside(m, o) && GoodValues(m, o)
    ensures CheckField(m, o) == StrayField <==> FieldInside(m, o) && StrayValues(m, o)
  {
    hide CheckValues, GoodValues, StrayValues, NameAt, TypeAt, GetInt32, GetInt16;
    if HasHeader(m, o) && FIELD_HEADER_SIZE <= HeaderSizeAt(m, o) <= FieldSizeAt(m, o) <= |m| - o {
      NameIsInside(m, o);
      FixedValues(m, o);
      if ElementSizeAt(m, o) < 0 && ElementCountAt(m, o) >= 0 {
        ValuesMean(m, o);
      }
    }
  }

  lemma FixedValues(m: seq<byte>, o: nat)
    requires HasHeader(m, o)
    ensures ElementSizeAt(m, o) >= 0 ==> GoodValues(m, o) && !StrayValues(m, o)
  {
  }

  /** The walk of the parser ... */
  lemma {:induction false} ParseWalks(m: seq<byte>, o: nat) returns (offsets: seq<nat>)
    requires o % 4 == 0
    ensures match ParseFields(m, o)
      case Accepted(found) => found == offsets && Walks(m, o, offsets)
      case Strays => WalksAstray(m, o, offsets)
      case Rejected => true
    decreases |m| - o
  {
    hide FieldInside, GoodValues, StrayValues, CheckField;
    offsets := [];
    if o < |m| {
      FieldMeans(m, o);
      if CheckField(m, o) == GoodField {
        FieldHasHeader(m, o);
        var rest := ParseWalks(m, NextAt(m, o));
        offsets := [o] + rest;
        WalksOn(m, o, rest);
      } else {
        offsets := [o];
        if CheckField(m, o) == StrayField {
          FieldHasHeader(m, o);
        }
      }
    }
  }

  lemma FieldHasHeader(m: seq<byte>, o: nat)
    requires FieldInside(m, o)
    ensures HasHeader(m, o) && NextAt(m, o) >= o + FIELD_HEADER_SIZE && NextAt(m, o) % 4 == 0
  {
    hide GetInt32, GetInt16, NameAt, TypeAt, ElementCountAt;
  }

  lemma WalksOn(m: seq<byte>, o: nat, rest: seq<nat>)
    requires HasHeader(m, o) && FieldInside(m, o) && GoodValues(m, o) && NextAt(m, o) >= 0
    ensures Walks(m, NextAt(m, o), rest) && o < |m| ==> Walks(m, o, [o] + rest)
    ensures WalksAstray(m, NextAt(m, o), rest) ==> WalksAstray(m, o, [o] + rest)
  {
    hide FieldInside, GoodValues, StrayValues, NextAt;
    var offsets := [o] + rest;
    if Walks(m, NextAt(m, o), rest) {
      forall i: nat | i < |offsets| ensures Step(m, offsets, i) {
        assert i > 0 ==> Step(m, rest, i - 1);
      }
    }
    if WalksAstray(m, NextAt(m, o), rest) {
      forall i: nat | i + 1 < |offsets| ensures Step(m, offsets, i) {
        assert i > 0 ==> Step(m, rest, i - 1);
      }
    }
  }

  lemma InsideMessage(m: seq<byte>, o: nat)
    requires FieldInside(m, o)
    ensures o < |m|
  {
    hide NameAt, TypeAt;
  }

  /** ... and any walk is the one of the parser. */
  lemma {:induction false} WalksParse(m: seq<byte>, o: nat, offsets: seq<nat>)
    requires o % 4 == 0
    ensures Walks(m, o, offsets) ==> ParseFields(m, o) == Accepted(offsets)
    ensures WalksAstray(m, o, offsets) ==> ParseFields(m, o).Strays?
    decreases |offsets|
  {
    hide FieldInside, GoodValues, StrayValues, CheckField;
    if offsets != [] && (Walks(m, o, offsets) || WalksAstray(m, o, offsets)) {
      FieldMeans(m, o);
      assert |offsets| > 1 || Walks(m, o, offsets) ==> Step(m, offsets, 0);
      if |offsets| > 1 || Walks(m, o, offsets) {
        FieldHasHeader(m, o);
        WalksTail(m, o, offsets);
        WalksParse(m, NextAt(m, o), offsets[1..]);
      }
      InsideMessage(m, o);
    }
  }

  lemma WalksTail(m: seq<byte>, o: nat, offsets: seq<nat>)
    requires offsets != [] && HasHeader(m, o) && NextAt(m, o) >= 0
    ensures Walks(m, o, offsets) ==> Walks(m, NextAt(m, o), offsets[1..])
    ensures WalksAstray(m, o, offsets) && |offsets| > 1 ==> WalksAstray(m, NextAt(m, o), offsets[1..])
  {
    hide FieldInside, GoodValues, StrayValues, NextAt;
    var rest := offsets[1..];
    if Walks(m, o, offsets) || WalksAstray(m, o, offsets) {
      assert |offsets| > 1 || Walks(m, o, offsets) ==> Step(m, offsets, 0);
      if |offsets| > 1 && Walks(m, o, offsets) {
        assert Step(m, offsets, 1);
        InsideMessage(m, offsets[1]);
      }
      forall i: nat | i < |rest| && (Walks(m, o, offsets) || i + 1 < |rest|) ensures Step(m, rest, i) {
        assert Step(m, offsets, i + 1);
      }
    }
  }

  /** A buffer is accepted exactly if it starts with the header of a message that is inside it,
      and its fields follow one another to its end, each with all of its values. */
  lemma AcceptedExactly(b: seq<byte>, m: seq<byte>)
    requires |b| >= 8 && 28 <= GetInt32(b, 4) <= |b| ==> m == b[..GetInt32(b, 4)]
    ensures Parse(b).Accepted? <==>
            && |b| >= 28 && GetInt32(b, 0) == 0x6B4D_7347 && 28 <= GetInt32(b, 4) <= |b|
            && exists offsets: seq<nat> :: Walks(m, 28, offsets)
    ensures Parse(b).Accepted? ==> Walks(m, 28, Parse(b).offsets)
  {
    hide ParseFields, GetInt32, Walks;
    var found := ParseWalks(m, 28);
    forall offsets: seq<nat> | Walks(m, 28, offsets) ensures ParseFields(m, 28) == Accepted(offsets) {
      WalksParse(m, 28, offsets);
    }
  }

  /** It strays exactly if the fields lead to one with a value before the message. */
  lemma StraysExactly(b: seq<byte>)
    requires HeaderIsGood(b)
    ensures Parse(b).Strays? <==> exists offsets: seq<nat> :: WalksAstray(Content(b), HEADER_SIZE, offsets)
  {
    hide ParseFields, GetInt32, WalksAstray;
    var m := Content(b);
    var found := ParseWalks(m, HEADER_SIZE);
    forall offsets: seq<nat> | WalksAstray(m, HEADER_SIZE, offsets) ensures ParseFields(m, HEADER_SIZE).Strays? {
      WalksParse(m, HEADER_SIZE, offsets);
    }
  }

  /** Headers only move forward, by at least the size of a field header. */
  lemma {:induction false} WalkIncreases(m: seq<byte>, o: nat, offsets: seq<nat>, i: nat, j: nat)
    requires Walks(m, o, offsets) && i < j < |offsets|
    ensures offsets[i] + FIELD_HEADER_SIZE <= offsets[j] < |m|
    decreases j - i
  {
    hide FieldInside, GoodValues, NextAt;
    assert Step(m, offsets, i) && Step(m, offsets, i + 1);
    FieldHasHeader(m, offsets[i]);
    InsideMessage(m, offsets[i + 1]);
    hide Walks, Step;
    if i + 1 < j {
      WalkIncreases(m, o, offsets, i + 1, j);
    }
  }

  /** An accepted buffer: the walk visits strictly increasing headers inside the content, every
      name is non-empty and ends inside its header. */
  lemma AcceptedMeans(b: seq<byte>, i: nat, j: nat)
    requires Parse(b).Accepted? && i <= j < |Parse(b).offsets|
    ensures var m, offsets := Content(b), Parse(b).offsets;
            && Walks(m, HEADER_SIZE, offsets) && HEADER_SIZE <= offsets[i] <= offsets[j] < |m|
            && (i < j ==> offsets[i] + FIELD_HEADER_SIZE <= offsets[j])
            && FieldInside(m, offsets[i]) && FieldInside(m, offsets[j])
  {
    var m, offsets := Content(b), Parse(b).offsets;
    hide ParseFields;
    AcceptedExactly(b, m);
    assert Step(m, offsets, i) && Step(m, offsets, j);
    hide FieldInside, CString;
    if i < j {
      WalkIncreases(m, HEADER_SIZE, offsets, i, j);
    }
    if i > 0 {
      WalkIncreases(m, HEADER_SIZE, offsets, 0, i);
    }
  }
}
