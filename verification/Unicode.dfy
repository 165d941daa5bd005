/**
 The reference definitions the codecs are measured against: UTF-16 (RFC 2781) and
 UTF-8 as section 3 of RFC 3629 (bit layout) and section 4 of RFC 3629 (grammar) give it.
 */
module Unicode {
  import opened Common

  predicate IsLead(u: CodeUnit) { 0xD800 <= u < 0xDC00 }

  predicate IsTrail(u: CodeUnit) { 0xDC00 <= u < 0xE000 }

  // ---------- UTF-16 ----------

  function Pair(lead: CodeUnit, trail: CodeUnit): Scalar
    requires IsLead(lead) && IsTrail(trail)
  {
    (lead - 0xD800) * 0x400 + (trail - 0xDC00) + 0x1_0000
  }

  function Utf16Of(x: Scalar): seq<CodeUnit> {
    if x < 0x1_0000 then [x] else [0xD800 + (x - 0x1_0000) / 0x400, 0xDC00 + (x - 0x1_0000) % 0x400]
  }

  function Utf16(xs: seq<Scalar>): seq<CodeUnit> {
    if xs == [] then [] else Utf16Of(xs[0]) + Utf16(xs[1..])
  }

  /** The scalar values of a 16-bit string, each unpaired surrogate read as U+FFFD. */
  function Scalars(s: seq<CodeUnit>): seq<Scalar> {
    if s == [] then []
    else if IsLead(s[0]) && |s| > 1 && IsTrail(s[1]) then [Pair(s[0], s[1])] + Scalars(s[2..])
    else if IsLead(s[0]) || IsTrail(s[0]) then [0xFFFD] + Scalars(s[1..])
    else [s[0]] + Scalars(s[1..])
  }

  /** Every surrogate of `s` belongs to a lead-trail pair. */
  predicate WellFormed16(s: seq<CodeUnit>) {
    if s == [] then true
    else if IsLead(s[0]) then |s| > 1 && IsTrail(s[1]) && WellFormed16(s[2..])
    else !IsTrail(s[0]) && WellFormed16(s[1..])
  }

  lemma ScalarsOfUtf16(x: Scalar, rest: seq<CodeUnit>)
    ensures Scalars(Utf16Of(x) + rest) == [x] + Scalars(rest)
    ensures WellFormed16(Utf16Of(x) + rest) <==> WellFormed16(rest)
  {
    var s := Utf16Of(x) + rest;
    assert s[|Utf16Of(x)|..] == rest;
  }

  lemma {:induction false} Utf16ThenScalars(xs: seq<Scalar>)
    ensures WellFormed16(Utf16(xs))
    ensures Scalars(Utf16(xs)) == xs
  {
    if xs != [] {
      Utf16ThenScalars(xs[1..]);
      ScalarsOfUtf16(xs[0], Utf16(xs[1..]));
    }
  }

  lemma {:induction false} ScalarsThenUtf16(s: seq<CodeUnit>)
    requires WellFormed16(s)
    ensures Utf16(Scalars(s)) == s
  {
    if s != [] {
      if IsLead(s[0]) {
        ScalarsThenUtf16(s[2..]);
        assert Utf16Of(Pair(s[0], s[1])) == [s[0], s[1]] == s[..2];
        assert s == s[..2] + s[2..];
      } else {
        ScalarsThenUtf16(s[1..]);
        assert s == [s[0]] + s[1..];
      }
    }
  }

  lemma {:induction false} Utf16Append(a: seq<Scalar>, b: seq<Scalar>)
    ensures Utf16(a + b) == Utf16(a) + Utf16(b)
  {
    if a == [] {
      assert a + b == b;
    } else {
      assert (a + b)[1..] == a[1..] + b;
      Utf16Append(a[1..], b);
    }
  }

  // ---------- UTF-8 ----------

  /** Section 3 of RFC 3629. */
  function Utf8Of(x: Scalar): seq<Byte> {
    if x < 0x80 then [x]
    else if x < 0x800 then [0xC0 + x / 0x40, 0x80 + x % 0x40]
    else if x < 0x1_0000 then [0xE0 + x / 0x1000, 0x80 + x / 0x40 % 0x40, 0x80 + x % 0x40]
    else [0xF0 + x / 0x4_0000, 0x80 + x / 0x1000 % 0x40, 0x80 + x / 0x40 % 0x40, 0x80 + x % 0x40]
  }

  function Utf8(xs: seq<Scalar>): seq<Byte> {
    if xs == [] then [] else Utf8Of(xs[0]) + Utf8(xs[1..])
  }

  lemma {:induction false} Utf8Append(a: seq<Scalar>, b: seq<Scalar>)
    ensures Utf8(a + b) == Utf8(a) + Utf8(b)
  {
    if a == [] {
      assert a + b == b;
    } else {
      assert (a + b)[1..] == a[1..] + b;
      Utf8Append(a[1..], b);
    }
  }

  predicate IsTail(b: Byte) { 0x80 <= b < 0xC0 }

  function TailBits(b: Byte): int { b - 0x80 }

  /** The length of the UTF8-octets character at the front of `b` in the grammar of section 4 of RFC 3629, or 0. */
  function CharLength(b: seq<Byte>): (k: nat)
    ensures k <= 4 && k <= |b|
  {
    if |b| >= 1 && b[0] <= 0x7F then 1
    else if |b| >= 2 && 0xC2 <= b[0] <= 0xDF && IsTail(b[1]) then 2
    else if |b| >= 3 && IsTail(b[2]) && (
      || (b[0] == 0xE0 && 0xA0 <= b[1] <= 0xBF)
      || (0xE1 <= b[0] <= 0xEC && IsTail(b[1]))
      || (b[0] == 0xED && 0x80 <= b[1] <= 0x9F)
      || (0xEE <= b[0] <= 0xEF && IsTail(b[1]))) then 3
    else if |b| >= 4 && IsTail(b[2]) && IsTail(b[3]) && (
      || (b[0] == 0xF0 && 0x90 <= b[1] <= 0xBF)
      || (0xF1 <= b[0] <= 0xF3 && IsTail(b[1]))
      || (b[0] == 0xF4 && 0x80 <= b[1] <= 0x8F)) then 4
    else 0
  }

  /** The scalar value of the character at the front of `b`. */
  function CharValue(b: seq<Byte>): Scalar
    requires CharLength(b) > 0
  {
    var k := CharLength(b);
    var b0: int := b[0];
    if k == 1 then b0
    else if k == 2 then (b0 - 0xC0) * 0x40 + TailBits(b[1])
    else if k == 3 then (b0 - 0xE0) * 0x1000 + TailBits(b[1]) * 0x40 + TailBits(b[2])
    else (b0 - 0xF0) * 0x4_0000 + TailBits(b[1]) * 0x1000 + TailBits(b[2]) * 0x40 + TailBits(b[3])
  }

  predicate WellFormed8(b: seq<Byte>) {
    b == [] || (CharLength(b) > 0 && WellFormed8(b[CharLength(b)..]))
  }

  /** The scalar values of a byte string; a byte where the grammar matches no character is read as U+FFFD. */
  function Decode8(b: seq<Byte>): seq<Scalar> {
    if b == [] then []
    else if CharLength(b) > 0 then [CharValue(b)] + Decode8(b[CharLength(b)..])
    else [0xFFFD] + Decode8(b[1..])
  }

  lemma CharOfUtf8(x: Scalar, rest: seq<Byte>)
    ensures CharLength(Utf8Of(x) + rest) == |Utf8Of(x)|
    ensures CharValue(Utf8Of(x) + rest) == x
  {
    if 0x800 <= x < 0x1_0000 {
      assert x == x / 0x1000 * 0x1000 + x / 0x40 % 0x40 * 0x40 + x % 0x40;
    } else if x >= 0x1_0000 {
      assert x == x / 0x4_0000 * 0x4_0000 + x / 0x1000 % 0x40 * 0x1000 + x / 0x40 % 0x40 * 0x40 + x % 0x40;
    }
  }

  /** The six-bit groups of a number assembled from them. */
  lemma SixBitGroups(top: nat, b: nat, c: nat, d: nat)
    requires b < 0x40 && c < 0x40 && d < 0x40
    ensures var x := top * 0x4_0000 + b * 0x1000 + c * 0x40 + d;
      x % 0x40 == d && x / 0x40 % 0x40 == c && x / 0x1000 % 0x40 == b
      && x / 0x4_0000 == top && x / 0x1000 == top * 0x40 + b
  {
    var x := top * 0x4_0000 + b * 0x1000 + c * 0x40 + d;
    assert x / 0x40 == top * 0x1000 + b * 0x40 + c;
    assert x / 0x1000 == top * 0x40 + b;
  }

  lemma Utf8OfChar(b: seq<Byte>)
    requires CharLength(b) > 0
    ensures Utf8Of(CharValue(b)) == b[..CharLength(b)]
  {
    var k, x, octets := CharLength(b), CharValue(b), Utf8Of(CharValue(b));
    if k == 3 {
      SixBitGroups(0, b[0] as int - 0xE0, TailBits(b[1]), TailBits(b[2]));
      assert 0x800 <= x < 0x1_0000 && octets == [b[0], b[1], b[2]];
    } else if k == 4 {
      SixBitGroups(b[0] as int - 0xF0, TailBits(b[1]), TailBits(b[2]), TailBits(b[3]));
      assert 0x1_0000 <= x && octets == [b[0], b[1], b[2], b[3]];
    }
  }

  /** Section 3 and section 4 of RFC 3629 agree: encodings are exactly the well-formed byte strings. */
  lemma {:induction false} Utf8ThenDecode(xs: seq<Scalar>)
    ensures WellFormed8(Utf8(xs))
    ensures Decode8(Utf8(xs)) == xs
  {
    if xs != [] {
      var front, rest := Utf8Of(xs[0]), Utf8(xs[1..]);
      CharOfUtf8(xs[0], rest);
      Utf8ThenDecode(xs[1..]);
      assert (front + rest)[|front|..] == rest;
    }
  }

  /** Re-encoding a decoded byte string gives it back iff it was well-formed; otherwise it comes back longer. */
  lemma {:induction false} DecodeThenUtf8(b: seq<Byte>)
    ensures WellFormed8(b) ==> Utf8(Decode8(b)) == b
    ensures !WellFormed8(b) ==> |Utf8(Decode8(b))| > |b|
    ensures |Utf8(Decode8(b))| >= |b|
  {
    if b != [] {
      if CharLength(b) > 0 {
        Utf8OfChar(b);
        DecodeThenUtf8(b[CharLength(b)..]);
        assert b == b[..CharLength(b)] + b[CharLength(b)..];
      } else {
        DecodeThenUtf8(b[1..]);
      }
    }
  }
}
