/** Vocabulary shared by every component: bytes, optional values, the byte
    strings that C++ `char*` buffers and Go `string` values both are, and
    substring search as Go's `strings.Contains` performs it. */
module Base {

  /** One unsigned byte (`unsigned char` in the C++ code, a `string` byte in Go). */
  type byte = b: int | 0 <= b < 256

  /** A value or its absence (a null pointer, a nil error, a missing key). */
  datatype Option<T> = None | Some(value: T)

  /** The bytes of an ASCII literal. */
  function Ascii(s: string): (r: seq<byte>)
    ensures |r| == |s|
  {
    seq(|s|, i requires 0 <= i < |s| => (s[i] as int) % 256)
  }

  /** The UTF-8 encoding of one character: one byte below 0x80, two below
      0x800 (Cyrillic among them), three below 0x10000, four above. */
  function Utf8Char(c: char): (r: seq<byte>)
    ensures 1 <= |r| <= 4
  {
    var cp := c as int;
    if cp < 0x80 then [cp]
    else if cp < 0x800 then [0xC0 + cp / 0x40, 0x80 + cp % 0x40]
    else if cp < 0x10000 then [0xE0 + cp / 0x1000, 0x80 + cp / 0x40 % 0x40, 0x80 + cp % 0x40]
    else [0xF0 + cp / 0x40000 % 8, 0x80 + cp / 0x1000 % 0x40, 0x80 + cp / 0x40 % 0x40, 0x80 + cp % 0x40]
  }

  /** The UTF-8 encoding of a literal, the way the C++ sources' string
      literals and Go's strings are stored. */
  function Utf8(s: string): seq<byte>
  {
    if s == [] then [] else Utf8Char(s[0]) + Utf8(s[1..])
  }

  const SPACE: byte := 32
  const LEFT_PAREN: byte := 40
  const RIGHT_PAREN: byte := 41
  const HYPHEN: byte := 45
  const UNDERSCORE: byte := 95

  predicate IsAsciiUpper(b: byte) { 65 <= b <= 90 }
  predicate IsAsciiLower(b: byte) { 97 <= b <= 122 }
  predicate IsAsciiDigit(b: byte) { 48 <= b <= 57 }

  /** `str[i] += 32` on 'A'..'Z', every other byte kept: the ASCII-only
      lowercasing of the C++ code, and `std::tolower` in the C locale. */
  function LowerAsciiByte(b: byte): (r: byte)
    ensures !IsAsciiUpper(r)
    ensures IsAsciiUpper(b) ==> r == b + 32
    ensures !IsAsciiUpper(b) ==> r == b
  {
    if IsAsciiUpper(b) then b + 32 else b
  }

  function LowerAscii(s: seq<byte>): (r: seq<byte>)
    ensures |r| == |s|
    ensures forall i :: 0 <= i < |s| ==> r[i] == LowerAsciiByte(s[i])
  {
    seq(|s|, i requires 0 <= i < |s| => LowerAsciiByte(s[i]))
  }

  /** A C string holds no NUL byte before its terminator. */
  predicate NoNul(s: seq<byte>)
  {
    forall i :: 0 <= i < |s| ==> s[i] != 0
  }

  /** `to_lower` of `BooleanIndex` and `to_lower_str` of `QueryParser`:
      lowercases, in place, the C string in `str` up to its terminator, which
      sits at the (ghost) position `n`. */
  method LowerCString(str: array<byte>, ghost n: nat)
    requires n < str.Length && str[n] == 0 && NoNul(str[..n])
    modifies str
    ensures str[..n] == LowerAscii(old(str[..n]))
    ensures str[n..] == old(str[n..])
  {
    var i := 0;
    assert forall k :: 0 <= k < n ==> str[k] == str[..n][k];
    while str[i] != 0
      invariant 0 <= i <= n
      invariant str[..i] == LowerAscii(old(str[..i]))
      invariant str[i..] == old(str[i..])
      invariant forall k :: i <= k < n ==> str[k] != 0
      decreases n - i
    {
      assert str[i] == old(str[i]);
      if IsAsciiUpper(str[i]) {
        str[i] := str[i] + 32;
      }
      i := i + 1;
    }
  }

  predicate IsPrefix(p: seq<byte>, s: seq<byte>)
  {
    |p| <= |s| && s[..|p|] == p
  }

  /** Substring search, scanning start positions left to right. */
  function Contains(s: seq<byte>, sub: seq<byte>): bool
    decreases |s|
  {
    IsPrefix(sub, s) || (|s| > 0 && Contains(s[1..], sub))
  }

  /** An occurrence of `sub` inside `s` starting at `i`. */
  predicate OccursAt(s: seq<byte>, sub: seq<byte>, i: int)
  {
    0 <= i && i + |sub| <= |s| && s[i..i + |sub|] == sub
  }

  /** The scan finds an occurrence exactly when one exists. */
  lemma {:induction false} ContainsIffOccurs(s: seq<byte>, sub: seq<byte>)
    ensures Contains(s, sub) <==> exists i :: OccursAt(s, sub, i)
    decreases |s|
  {
    if IsPrefix(sub, s) {
      assert OccursAt(s, sub, 0);
    } else if |s| == 0 {
      assert |sub| > 0;
      assert forall i :: !OccursAt(s, sub, i);
    } else {
      ContainsIffOccurs(s[1..], sub);
      assert !OccursAt(s, sub, 0) by {
        if |sub| <= |s| {
          assert s[0..|sub|] == s[..|sub|];
        }
      }
      forall i | 1 <= i
        ensures OccursAt(s, sub, i) <==> OccursAt(s[1..], sub, i - 1)
      {
        if i + |sub| <= |s| {
          var u, v := s[1..][i - 1..i - 1 + |sub|], s[i..i + |sub|];
          assert forall k :: 0 <= k < |sub| ==> u[k] == v[k];
          assert u == v;
        }
      }
      if exists i :: OccursAt(s[1..], sub, i) {
        var i :| OccursAt(s[1..], sub, i);
        assert OccursAt(s, sub, i + 1);
      }
      if exists i :: OccursAt(s, sub, i) {
        var i :| OccursAt(s, sub, i);
        assert i >= 1;
        assert OccursAt(s[1..], sub, i - 1);
      }
    }
  }

  /** An occurrence that the left part or the right part holds is found in
      their concatenation. */
  lemma ContainsInConcat(a: seq<byte>, b: seq<byte>, sub: seq<byte>)
    requires Contains(a, sub) || Contains(b, sub)
    ensures Contains(a + b, sub)
  {
    ContainsIffOccurs(a, sub);
    ContainsIffOccurs(b, sub);
    ContainsIffOccurs(a + b, sub);
    if Contains(a, sub) {
      var i :| OccursAt(a, sub, i);
      assert (a + b)[i..i + |sub|] == a[i..i + |sub|];
      assert OccursAt(a + b, sub, i);
    } else {
      var i :| OccursAt(b, sub, i);
      assert (a + b)[|a| + i..|a| + i + |sub|] == b[i..i + |sub|];
      assert OccursAt(a + b, sub, |a| + i);
    }
  }
}
