/** Percent-encoding and percent-decoding (section 1.3 of the URL Standard). */
module Percent {
  import opened Common
  import opened Unicode

  const PERCENT: Byte := 0x25

  // ---------- decoding ----------

  predicate IsAsciiHex(c: int) {
    0x30 <= c <= 0x39 || 0x41 <= c <= 0x46 || 0x61 <= c <= 0x66
  }

  function HexValue(c: int): (v: int)
    requires IsAsciiHex(c)
    ensures 0 <= v < 16
  {
    if c <= 0x39 then c - 0x30 else if c <= 0x46 then c - 0x41 + 10 else c - 0x61 + 10
  }

  /** `s` starts with a percent sign and two hexadecimal digits. */
  predicate StartsEscape(s: seq<int>) {
    |s| >= 3 && s[0] == PERCENT && IsAsciiHex(s[1]) && IsAsciiHex(s[2])
  }

  predicate HasEscape(s: seq<int>) {
    s != [] && (StartsEscape(s) || HasEscape(s[1..]))
  }

  function PercentDecode(s: seq<Byte>): seq<Byte> {
    if s == [] then []
    else if StartsEscape(s) then [HexValue(s[1]) * 16 + HexValue(s[2])] + PercentDecode(s[3..])
    else [s[0]] + PercentDecode(s[1..])
  }

  /** Decoding never lengthens, and changes nothing exactly if there is no escape; with one, it shortens. */
  lemma {:induction false} DecodingShortens(s: seq<Byte>)
    ensures |PercentDecode(s)| <= |s|
    ensures !HasEscape(s) ==> PercentDecode(s) == s
    ensures HasEscape(s) ==> |PercentDecode(s)| < |s|
  {
    if s != [] {
      if StartsEscape(s) {
        DecodingShortens(s[3..]);
      } else {
        DecodingShortens(s[1..]);
        assert s == [s[0]] + s[1..];
      }
    }
  }

  /** Without a percent sign there is no escape. */
  lemma {:induction false} NoPercentNoEscape(s: seq<Byte>)
    requires PERCENT !in s
    ensures PercentDecode(s) == s
  {
    if s != [] {
      NoPercentNoEscape(s[1..]);
      assert s == [s[0]] + s[1..];
    }
  }

  /** One step of decoding what is left of `s`. */
  lemma DecodeAt(s: seq<Byte>, i: nat)
    requires i < |s|
    ensures PercentDecode(s[i..]) ==
      if s[i] == PERCENT && i + 2 < |s| && IsAsciiHex(s[i + 1]) && IsAsciiHex(s[i + 2])
      then [HexValue(s[i + 1]) * 16 + HexValue(s[i + 2])] + PercentDecode(s[i + 3..])
      else [s[i]] + PercentDecode(s[i + 1..])
  {
    var here := s[i..];
    assert here[1..] == s[i + 1..];
    assert |here| >= 3 ==> here[3..] == s[i + 3..];
  }

  /** The body of the loop: the byte at `i`, or the one the escape there stands for. */
  method DecodeByte(input: array<Byte>, i: nat) returns (byte: Byte, i': nat)
    requires i < input.Length
    ensures i < i' <= input.Length
    ensures PercentDecode(input[..][i..]) == [byte] + PercentDecode(input[..][i'..])
  {
    byte := input[i];
    i' := i + 1;
    DecodeAt(input[..], i);
    if byte == PERCENT && i + 1 < input.Length && IsAsciiHex(input[i + 1])
      && i + 2 < input.Length && IsAsciiHex(input[i + 2])
    {
      byte := HexValue(input[i + 1]) * 16 + HexValue(input[i + 2]);
      i' := i + 3;
    }
  }

  /** A copy of the first `n` bytes. */
  method FirstBytes(output: array<Byte>, n: nat) returns (r: array<Byte>)
    requires n <= output.Length
    ensures fresh(r) && r[..] == output[..n]
  {
    r := new Byte[n](k requires 0 <= k < n reads output => output[k]);
  }

  /** `bytes` is what the input before `i` decodes to. */
  ghost predicate DecodedTo(s: seq<Byte>, i: nat, bytes: seq<Byte>) {
    i <= |s| && bytes + PercentDecode(s[i..]) == PercentDecode(s)
  }

  lemma DecodedFirst(s: seq<Byte>)
    ensures DecodedTo(s, 0, [])
  {
    assert s[0..] == s && [] + PercentDecode(s) == PercentDecode(s);
  }

  lemma DecodedNext(s: seq<Byte>, i: nat, bytes: seq<Byte>, byte: Byte, i': nat)
    requires DecodedTo(s, i, bytes) && i' <= |s| && PercentDecode(s[i..]) == [byte] + PercentDecode(s[i'..])
    ensures DecodedTo(s, i', bytes + [byte])
  {
    hide PercentDecode;
    var rest := PercentDecode(s[i'..]);
    assert bytes + ([byte] + rest) == bytes + [byte] + rest;
  }

  lemma DecodedLast(s: seq<Byte>, bytes: seq<Byte>)
    requires DecodedTo(s, |s|, bytes)
    ensures bytes == PercentDecode(s)
  {
    assert s[|s|..] == [] && bytes + [] == bytes;
  }

  method PercentDecodeBytes(input: array<Byte>) returns (r: array<Byte>)
    ensures fresh(r) && r[..] == PercentDecode(input[..])
  {
    hide PercentDecode, DecodedTo;
    var output := new Byte[input.Length](_ => 0);
    var outputIndex := 0;
    var i := 0;
    ghost var bytes: seq<Byte> := [];
    DecodedFirst(input[..]);
    while i < input.Length
      invariant 0 <= outputIndex <= i <= input.Length
      invariant output[..outputIndex] == bytes && DecodedTo(input[..], i, bytes)
    {
      var byte, i' := DecodeByte(input, i);
      DecodedNext(input[..], i, bytes, byte, i');
      output[outputIndex] := byte;
      outputIndex := outputIndex + 1;
      bytes := bytes + [byte];
      i := i';
    }
    DecodedLast(input[..], bytes);
    r := FirstBytes(output, outputIndex);
  }

  /** `%41`, `%4a` and `%4A` are escapes, and `%4g` is none, in numbers. */
  lemma EscapesInNumbers()
    ensures PercentDecode([0x25, 0x34, 0x31]) == [0x41]
    ensures PercentDecode([0x25, 0x34, 0x61]) == PercentDecode([0x25, 0x34, 0x41]) == [0x4A]
    ensures PercentDecode([0x25, 0x34, 0x67]) == [0x25, 0x34, 0x67]
  {
    NoPercentNoEscape([0x34, 0x67]);
    assert [0x25, 0x34, 0x67][1..] == [0x34, 0x67];
    assert PercentDecode([0x34, 0x67]) == [0x34, 0x67];
  }

  // ---------- the percent-encode sets ----------

  predicate IsC0ControlPercentEncode(c: Byte) { c <= 0x1F || c > 0x7E }

  predicate IsFragmentPercentEncode(c: Byte) {
    IsC0ControlPercentEncode(c) || c == 0x20 || c == 0x22 || c == 0x3C || c == 0x3E || c == 0x60
  }

  predicate IsQueryPercentEncode(c: Byte) {
    IsC0ControlPercentEncode(c) || c == 0x20 || c == 0x22 || c == 0x23 || c == 0x3C || c == 0x3E
  }

  predicate IsSpecialQueryPercentEncode(c: Byte) { IsQueryPercentEncode(c) || c == 0x27 }

  predicate IsPathPercentEncode(c: Byte) {
    IsQueryPercentEncode(c) || c == 0x3F || c == 0x60 || c == 0x7B || c == 0x7D
  }

  predicate IsUserinfoPercentEncode(c: Byte) {
    || IsPathPercentEncode(c) || c == 0x2F || c == 0x3A || c == 0x3B || c == 0x3D || c == 0x40
    || c == 0x5B || c == 0x5C || c == 0x5D || c == 0x5E || c == 0x7C
  }

  predicate IsComponentPercentEncode(c: Byte) {
    IsUserinfoPercentEncode(c) || c == 0x24 || c == 0x25 || c == 0x26 || c == 0x2B || c == 0x2C
  }

  predicate IsURLEncodedPercentEncode(c: Byte) {
    IsComponentPercentEncode(c) || c == 0x21 || c == 0x27 || c == 0x28 || c == 0x29 || c == 0x7E
  }

  /** Each set is what the URL Standard lists for it, in characters, beside the C0 controls and all above `~`. */
  lemma SetsInCharacters(c: Byte)
    ensures IsC0ControlPercentEncode(c) <==> c < 0x20 || c > 0x7E
    ensures IsFragmentPercentEncode(c) <==> IsC0ControlPercentEncode(c) || c as char in " \"<>`"
    ensures IsQueryPercentEncode(c) <==> IsC0ControlPercentEncode(c) || c as char in " \"#<>"
    ensures IsSpecialQueryPercentEncode(c) <==> IsC0ControlPercentEncode(c) || c as char in " \"#<>'"
    ensures IsPathPercentEncode(c) <==> IsC0ControlPercentEncode(c) || c as char in " \"#<>?`{}"
    ensures IsUserinfoPercentEncode(c) <==> IsC0ControlPercentEncode(c) || c as char in " \"#<>?`{}/:;=@[\\]^|"
    ensures IsComponentPercentEncode(c) <==>
      IsC0ControlPercentEncode(c) || c as char in " \"#<>?`{}/:;=@[\\]^|$%&+,"
    ensures IsURLEncodedPercentEncode(c) <==>
      IsC0ControlPercentEncode(c) || c as char in " \"#<>?`{}/:;=@[\\]^|$%&+,!'()~"
  {
  }

  // ---------- encoding ----------

  function HexDigit(n: int): CodeUnit
    requires 0 <= n < 16
  {
    if n < 10 then 0x30 + n else 0x41 + n - 10
  }

  /** A number in uppercase hexadecimal, without leading zeros. */
  function ToHex(c: nat): (hex: seq<CodeUnit>)
    ensures |hex| >= 1
  {
    if c < 16 then [HexDigit(c)] else ToHex(c / 16) + [HexDigit(c % 16)]
  }

  function PercentEncode(c: Byte): seq<CodeUnit> {
    var hex := ToHex(c);
    [PERCENT as CodeUnit] + if |hex| == 1 then [0x30] + hex else hex
  }

  lemma PercentEncodeIsEscape(c: Byte)
    ensures var e := PercentEncode(c);
      && StartsEscape(e) && |e| == 3 && e[0] == 0x25 && HexValue(e[1]) * 16 + HexValue(e[2]) == c
      && e[1] < 0x80 && e[2] < 0x80
  {
    if c >= 16 {
      assert ToHex(c / 16) == [HexDigit(c / 16)];
    }
  }

  /** What a byte becomes under a percent-encode set. */
  function EncodeByte(b: Byte, encodes: Byte -> bool): seq<CodeUnit> {
    if encodes(b) then PercentEncode(b) else [b]
  }

  function EncodeBytes(bytes: seq<Byte>, encodes: Byte -> bool): seq<CodeUnit> {
    if bytes == [] then [] else EncodeByte(bytes[0], encodes) + EncodeBytes(bytes[1..], encodes)
  }

  lemma {:induction false} EncodeAppend(a: seq<Byte>, b: seq<Byte>, encodes: Byte -> bool)
    ensures EncodeBytes(a + b, encodes) == EncodeBytes(a, encodes) + EncodeBytes(b, encodes)
  {
    if a == [] {
      assert a + b == b;
    } else {
      assert (a + b)[1..] == a[1..] + b;
      EncodeAppend(a[1..], b, encodes);
    }
  }

  method EncodeCodePoint(codePoint: Scalar, encodes: Byte -> bool) returns (output: seq<CodeUnit>)
    ensures output == EncodeBytes(Utf8Of(codePoint), encodes)
  {
    var bytes := Utf8Of(codePoint);
    output := [];
    for i := 0 to |bytes|
      invariant output == EncodeBytes(bytes[..i], encodes)
    {
      EncodeAppend(bytes[..i], [bytes[i]], encodes);
      assert bytes[..i + 1] == bytes[..i] + [bytes[i]];
      if !encodes(bytes[i]) {
        output := output + [bytes[i]];
      } else {
        output := output + PercentEncode(bytes[i]);
      }
    }
    assert bytes[..|bytes|] == bytes;
  }

  /** The encodings of the code points of a string, one after the other. */
  function EncodeAll(xs: seq<Scalar>, encodes: Byte -> bool): seq<CodeUnit> {
    if xs == [] then [] else EncodeBytes(Utf8Of(xs[0]), encodes) + EncodeAll(xs[1..], encodes)
  }

  lemma {:induction false} EncodeAllIsEncodeBytes(xs: seq<Scalar>, encodes: Byte -> bool)
    ensures EncodeAll(xs, encodes) == EncodeBytes(Utf8(xs), encodes)
  {
    if xs != [] {
      EncodeAllIsEncodeBytes(xs[1..], encodes);
      EncodeAppend(Utf8Of(xs[0]), Utf8(xs[1..]), encodes);
    }
  }

  // ---------- what encoding and decoding promise each other ----------

  ghost predicate Ascii(s: seq<int>) {
    forall i :: 0 <= i < |s| ==> 0 <= s[i] < 0x80
  }

  /** A set that leaves no byte outside ASCII as it is. */
  ghost predicate CoversNonAscii(encodes: Byte -> bool) {
    forall b: Byte :: b >= 0x80 ==> encodes(b)
  }

  lemma {:induction false} EncodingIsAscii(bytes: seq<Byte>, encodes: Byte -> bool)
    requires CoversNonAscii(encodes)
    ensures Ascii(EncodeBytes(bytes, encodes))
  {
    if bytes != [] {
      EncodingIsAscii(bytes[1..], encodes);
      PercentEncodeIsEscape(bytes[0]);
    }
  }

  lemma {:induction false} Utf8OfAscii(s: seq<CodeUnit>)
    requires Ascii(s)
    ensures WellFormed16(s) && Utf8(Scalars(s)) == s
  {
    if s != [] {
      Utf8OfAscii(s[1..]);
      assert s == [s[0]] + s[1..];
    }
  }

  /** Decoding one encoded byte at the front. */
  lemma DecodeFront(b: Byte, rest: seq<Byte>, encodes: Byte -> bool, text: seq<Byte>)
    requires text == EncodeByte(b, encodes) + rest
    requires encodes(PERCENT) || !StartsEscape([b] + rest)
    ensures PercentDecode(text) == [b] + PercentDecode(rest)
  {
    PercentEncodeIsEscape(b);
    if encodes(b) {
      assert text[3..] == rest && StartsEscape(text);
    } else {
      assert text == [b] + rest && text[1..] == rest;
    }
  }

  /** A set that holds the percent sign loses nothing: decoding gives the bytes back. */
  lemma {:induction false} EncodedDecodes(bytes: seq<Byte>, encodes: Byte -> bool, text: seq<Byte>)
    requires CoversNonAscii(encodes) && encodes(PERCENT) && text == EncodeBytes(bytes, encodes)
    ensures PercentDecode(text) == bytes
  {
    if bytes != [] {
      EncodingIsAscii(bytes[1..], encodes);
      var rest: seq<Byte> := EncodeBytes(bytes[1..], encodes);
      EncodedDecodes(bytes[1..], encodes, rest);
      DecodeFront(bytes[0], rest, encodes, text);
    }
  }

  /** A set that leaves percent signs and hexadecimal digits as they are. */
  ghost predicate KeepsEscapes(encodes: Byte -> bool) {
    !encodes(PERCENT) && forall b: Byte :: IsAsciiHex(b) ==> !encodes(b)
  }

  /** Two hexadecimal digits stay where they are, and nothing else looks like them. */
  lemma FirstEncoded(bytes: seq<Byte>, encodes: Byte -> bool)
    requires KeepsEscapes(encodes)
    ensures var text := EncodeBytes(bytes, encodes);
      && (|text| >= 2 && IsAsciiHex(text[0]) && IsAsciiHex(text[1]) <==>
          |bytes| >= 2 && IsAsciiHex(bytes[0]) && IsAsciiHex(bytes[1]))
      && (|bytes| >= 2 && IsAsciiHex(bytes[0]) && IsAsciiHex(bytes[1]) ==>
            text[0] == bytes[0] && text[1] == bytes[1] && text[2..] == EncodeBytes(bytes[2..], encodes))
  {
    if bytes != [] {
      PercentEncodeIsEscape(bytes[0]);
      if |bytes| >= 2 {
        PercentEncodeIsEscape(bytes[1]);
        assert bytes[1..][1..] == bytes[2..];
      }
    }
  }

  /**
   A set that holds neither the percent sign nor a hexadecimal digit loses exactly the escapes: what was decoded is
   the input iff that had none.
   */
  lemma {:induction false} EncodedWithoutPercent(bytes: seq<Byte>, encodes: Byte -> bool, text: seq<Byte>)
    requires CoversNonAscii(encodes) && KeepsEscapes(encodes) && text == EncodeBytes(bytes, encodes)
    ensures |PercentDecode(text)| <= |bytes|
    ensures PercentDecode(text) == bytes <==> !HasEscape(bytes)
    ensures HasEscape(bytes) ==> |PercentDecode(text)| < |bytes|
  {
    if bytes != [] {
      EncodingIsAscii(bytes[1..], encodes);
      var rest: seq<Byte> := EncodeBytes(bytes[1..], encodes);
      EncodedWithoutPercent(bytes[1..], encodes, rest);
      FirstEncoded(bytes[1..], encodes);
      if StartsEscape(bytes) {
        assert bytes[1..][2..] == bytes[3..];
        EncodedWithoutPercent(bytes[3..], encodes, rest[2..]);
        assert text == [PERCENT] + rest && text[3..] == rest[2..] && StartsEscape(text);
      } else {
        DecodeFront(bytes[0], rest, encodes, text);
        assert bytes == [bytes[0]] + bytes[1..];
      }
    }
  }

  /** All eight sets leave no byte outside ASCII as it is; only two of them hold the percent sign. */
  lemma WhichSets()
    ensures forall b: Byte :: IsC0ControlPercentEncode(b) ==>
      IsFragmentPercentEncode(b) && IsQueryPercentEncode(b) && IsSpecialQueryPercentEncode(b) && IsPathPercentEncode(b)
      && IsUserinfoPercentEncode(b) && IsComponentPercentEncode(b) && IsURLEncodedPercentEncode(b)
    ensures CoversNonAscii(IsC0ControlPercentEncode) && CoversNonAscii(IsFragmentPercentEncode)
    ensures CoversNonAscii(IsQueryPercentEncode)
    ensures CoversNonAscii(IsSpecialQueryPercentEncode) && CoversNonAscii(IsPathPercentEncode)
    ensures CoversNonAscii(IsUserinfoPercentEncode)
    ensures CoversNonAscii(IsComponentPercentEncode) && CoversNonAscii(IsURLEncodedPercentEncode)
    ensures IsComponentPercentEncode(PERCENT) && IsURLEncodedPercentEncode(PERCENT)
    ensures KeepsEscapes(IsC0ControlPercentEncode) && KeepsEscapes(IsFragmentPercentEncode)
    ensures KeepsEscapes(IsQueryPercentEncode)
    ensures KeepsEscapes(IsSpecialQueryPercentEncode) && KeepsEscapes(IsPathPercentEncode)
    ensures KeepsEscapes(IsUserinfoPercentEncode)
  {
  }

  /** `percentDecodeString` of the encoding of a string by one of these two sets is its UTF-8. */
  lemma RoundTrip(xs: seq<Scalar>, encodes: Byte -> bool)
    requires encodes == IsComponentPercentEncode || encodes == IsURLEncodedPercentEncode
    ensures Ascii(EncodeAll(xs, encodes))
    ensures PercentDecode(Utf8(Scalars(EncodeAll(xs, encodes)))) == Utf8(xs)
  {
    WhichSets();
    EncodeAllIsEncodeBytes(xs, encodes);
    EncodingIsAscii(Utf8(xs), encodes);
    Utf8OfAscii(EncodeAll(xs, encodes));
    EncodedDecodes(Utf8(xs), encodes, Utf8(Scalars(EncodeAll(xs, encodes))));
  }

  /** Under one of the other sets a string comes back exactly if its UTF-8 holds no escape. */
  lemma OtherSets(xs: seq<Scalar>, encodes: Byte -> bool)
    requires CoversNonAscii(encodes) && KeepsEscapes(encodes)
    ensures Ascii(EncodeAll(xs, encodes))
    ensures PercentDecode(Utf8(Scalars(EncodeAll(xs, encodes)))) == Utf8(xs) <==> !HasEscape(Utf8(xs))
  {
    EncodeAllIsEncodeBytes(xs, encodes);
    EncodingIsAscii(Utf8(xs), encodes);
    Utf8OfAscii(EncodeAll(xs, encodes));
    EncodedWithoutPercent(Utf8(xs), encodes, Utf8(Scalars(EncodeAll(xs, encodes))));
  }
}
