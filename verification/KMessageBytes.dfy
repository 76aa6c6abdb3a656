/** Bytes in memory: little-endian words, alignment and C strings. */
module KMessageBytes {
  import opened HaikuTypes

  type byte = x: int | 0 <= x < 256

  const INT16_MAX: int := 0x7FFF

  // ----- words

  function GetUint16(s: seq<byte>, at: nat): (v: int)
    requires at + 2 <= |s|
    ensures 0 <= v < 0x1_0000
  {
    s[at] as int + 0x100 * s[at + 1] as int
  }

  function GetInt16(s: seq<byte>, at: nat): (v: int)
    requires at + 2 <= |s|
    ensures -0x8000 <= v <= INT16_MAX
  {
    var u := GetUint16(s, at);
    if u < 0x8000 then u else u - 0x1_0000
  }

  function GetInt32(s: seq<byte>, at: nat): (v: int)
    requires at + 4 <= |s|
    ensures IsInt32(v)
  {
    var u := GetUint16(s, at) + 0x1_0000 * GetUint16(s, at + 2);
    if u < 0x8000_0000 then u else u - 0x1_0000_0000
  }

  function Bytes16(v: int): (s: seq<byte>)
    ensures |s| == 2
  {
    [v % 0x100, v / 0x100 % 0x100]
  }

  function Bytes32(v: int): (s: seq<byte>)
    ensures |s| == 4
  {
    Bytes16(v % 0x1_0000) + Bytes16(v / 0x1_0000 % 0x1_0000)
  }

  /** s with `words` written at `at`. */
  function Write(s: seq<byte>, at: nat, words: seq<byte>): (t: seq<byte>)
    requires at + |words| <= |s|
    ensures |t| == |s| && t[at..at + |words|] == words
    ensures t[..at] == s[..at] && t[at + |words|..] == s[at + |words|..]
    ensures forall i :: 0 <= i < |s| && !(at <= i < at + |words|) ==> t[i] == s[i]
  {
    s[..at] + words + s[at + |words|..]
  }

  lemma Uint16RoundTrip(s: seq<byte>, at: nat, v: int)
    requires at + 2 <= |s| && s[at..at + 2] == Bytes16(v)
    ensures GetUint16(s, at) == v % 0x1_0000
  {
    assert s[at] == s[at..at + 2][0] && s[at + 1] == s[at..at + 2][1];
  }

  lemma Int16RoundTrip(s: seq<byte>, at: nat, v: int)
    requires at + 2 <= |s| && s[at..at + 2] == Bytes16(v)
    ensures 0 <= v <= INT16_MAX ==> GetInt16(s, at) == v
  {
    Uint16RoundTrip(s, at, v);
  }

  /** Words are stored with their lowest byte first, and hold two's complement numbers. */
  lemma LittleEndian(s: seq<byte>, at: nat)
    requires at + 4 <= |s|
    ensures GetInt32(s, at) % 0x1_0000_0000
              == s[at] as int + 0x100 * s[at + 1] as int + 0x1_0000 * s[at + 2] as int + 0x100_0000 * s[at + 3] as int
    ensures IsInt32(GetInt32(s, at))
    ensures GetInt16(s, at) % 0x1_0000 == s[at] as int + 0x100 * s[at + 1] as int && -0x8000 <= GetInt16(s, at) < 0x8000
  {
  }

  /** A word is put together from its halves. */
  lemma Halves(v: int)
    ensures v % 0x1_0000 + 0x1_0000 * (v / 0x1_0000 % 0x1_0000) == v % 0x1_0000_0000
  {
  }

  lemma Int32RoundTrip(s: seq<byte>, at: nat, v: int)
    requires at + 4 <= |s| && s[at..at + 4] == Bytes32(v) && IsInt32(v)
    ensures GetInt32(s, at) == v
  {
    hide GetUint16, Bytes16;
    var lo, hi := v % 0x1_0000, v / 0x1_0000 % 0x1_0000;
    Halves(v);
    assert s[at..at + 2] == s[at..at + 4][..2] == Bytes16(lo);
    assert s[at + 2..at + 4] == s[at..at + 4][2..] == Bytes16(hi);
    Uint16RoundTrip(s, at, lo);
    Uint16RoundTrip(s, at + 2, hi);
  }

  lemma SameAt(s: seq<byte>, i: nat, t: seq<byte>, j: nat, n: nat, k: nat)
    requires i + n <= |s| && j + n <= |t| && s[i..i + n] == t[j..j + n] && k < n
    ensures s[i + k] == t[j + k]
  {
    assert s[i..i + n][k] == t[j..j + n][k];
  }

  lemma GetSame32(s: seq<byte>, i: nat, t: seq<byte>, j: nat)
    requires i + 4 <= |s| && j + 4 <= |t| && s[i..i + 4] == t[j..j + 4]
    ensures GetInt32(s, i) == GetInt32(t, j)
  {
    SameAt(s, i, t, j, 4, 0);
    SameAt(s, i, t, j, 4, 1);
    SameAt(s, i, t, j, 4, 2);
    SameAt(s, i, t, j, 4, 3);
  }

  lemma GetSame16(s: seq<byte>, i: nat, t: seq<byte>, j: nat)
    requires i + 2 <= |s| && j + 2 <= |t| && s[i..i + 2] == t[j..j + 2]
    ensures GetInt16(s, i) == GetInt16(t, j)
  {
    SameAt(s, i, t, j, 2, 0);
    SameAt(s, i, t, j, 2, 1);
  }

  /** A slice of a slice. */
  lemma Within(s: seq<byte>, a: nat, b: nat, i: nat, j: nat)
    requires a <= b <= |s| && i <= j <= b - a
    ensures s[a..b][i..j] == s[a + i..a + j]
  {
    var l, r := s[a..b][i..j], s[a + i..a + j];
    forall k | 0 <= k < |l| ensures l[k] == r[k] {
      assert l[k] == s[a..b][i + k];
    }
  }

  // ----- C strings

  predicate IsName(name: seq<byte>) { forall i :: 0 <= i < |name| ==> name[i] != 0 }

  /** strnlen */
  function StrNLen(s: seq<byte>, at: nat, max: nat): (n: nat)
    requires at + max <= |s|
    ensures n <= max && (n < max ==> s[at + n] == 0)
    ensures forall i :: at <= i < at + n ==> s[i] != 0
    decreases max
  {
    if max == 0 || s[at] == 0 then 0 else 1 + StrNLen(s, at + 1, max - 1)
  }

  /** The C string at `at`. */
  function CString(s: seq<byte>, at: nat): (name: seq<byte>)
    requires at <= |s|
    ensures IsName(name)
  {
    s[at..at + StrNLen(s, at, |s| - at)]
  }

  lemma {:induction false} StrNLenIs(s: seq<byte>, at: nat, max: nat, n: nat)
    requires at + max <= |s| && n < max && s[at + n] == 0 && forall i :: at <= i < at + n ==> s[i] != 0
    ensures StrNLen(s, at, max) == n
    decreases max
  {
    if max > 0 && s[at] != 0 {
      StrNLenIs(s, at + 1, max - 1, n - 1);
    }
  }

  /** A NUL-terminated name is read back. */
  lemma CStringIs(s: seq<byte>, at: nat, name: seq<byte>)
    requires IsName(name) && at + |name| < |s| && s[at..at + |name|] == name && s[at + |name|] == 0
    ensures CString(s, at) == name
  {
    assert forall i :: at <= i < at + |name| ==> s[i] == s[at..at + |name|][i - at];
    StrNLenIs(s, at, |s| - at, |name|);
  }
}
