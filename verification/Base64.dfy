/** The base64 codec inside the Buffer polyfill, against sections 4 and 5 of RFC 4648. */
module Base64 {
  import opened Common

  datatype Error = InvalidLength | NegativeArrayLength

  const PAD: CodeUnit := 0x3D
  const DASH: CodeUnit := 0x2D
  const UNDERSCORE: CodeUnit := 0x5F

  type Sextet = x: int | 0 <= x < 64

  // ---------- the tables ----------

  /** The alphabet of section 4 of RFC 4648. */
  function CodeAt(x: Sextet): CodeUnit {
    if x < 26 then 0x41 + x
    else if x < 52 then 0x61 + x - 26
    else if x < 62 then 0x30 + x - 52
    else if x == 62 then 0x2B
    else 0x2F
  }

  /** The characters of Table 1 of RFC 4648. */
  lemma CodeAtIsTable1()
    ensures forall x: Sextet ::
      CodeAt(x) == ("ABCDEFGHIJKLMNOPQRSTUVWXYZ" + "abcdefghijklmnopqrstuvwxyz" + "0123456789+/")[x] as int
  {
    var code := seq(64, x requires 0 <= x < 64 => CodeAt(x) as char);
    assert code[..26] == "ABCDEFGHIJKLMNOPQRSTUVWXYZ";
    assert code[26..52] == "abcdefghijklmnopqrstuvwxyz";
    assert code[52..] == "0123456789+/";
    assert code == code[..26] + code[26..52] + code[52..];
    assert forall x: Sextet :: code[x] == CodeAt(x) as char;
  }

  /** `lookup` and `revLookup`. */
  datatype Tables = Tables(lookup: seq<CodeUnit>, revLookup: map<CodeUnit, Sextet>) {
    /** What encoding and decoding need of the tables. */
    ghost predicate Sound() {
      && |lookup| == 64 && PAD !in lookup
      && forall x: Sextet {:trigger lookup[x]} :: lookup[x] in revLookup && revLookup[lookup[x]] == x
    }

    /** `revLookup[c]`; an entry that is undefined acts as 0 under a shift. */
    function Rev(c: CodeUnit): Sextet { if c in revLookup then revLookup[c] else 0 }
  }

  method BuildTables() returns (t: Tables)
    ensures t.Sound()
    ensures forall x: Sextet :: t.lookup[x] == CodeAt(x)
    ensures forall x: Sextet ::
      t.lookup[x] == ("ABCDEFGHIJKLMNOPQRSTUVWXYZ" + "abcdefghijklmnopqrstuvwxyz" + "0123456789+/")[x] as int
    ensures t.Rev(0x2D) == 62 && t.Rev(0x5F) == 63
    ensures forall c :: c in t.revLookup <==> c in t.lookup || c == DASH || c == UNDERSCORE
  {
    var lookup: seq<CodeUnit> := [];
    var rev: map<CodeUnit, Sextet> := map[];
    var i: int := 0;
    while i < 64
      invariant 0 <= i <= 64 && |lookup| == i
      invariant forall x: Sextet :: x < i ==> lookup[x] == CodeAt(x) && lookup[x] in rev && rev[lookup[x]] == x
      invariant forall c :: c in rev ==> c in lookup
    {
      lookup := lookup + [CodeAt(i)];
      rev := rev[CodeAt(i) := i];
      i := i + 1;
    }
    rev := rev[DASH := 62];
    rev := rev[UNDERSCORE := 63];
    t := Tables(lookup, rev);
    CodeAtIsTable1();
  }

  // ---------- specification ----------

  /** The four units for three bytes: six bits each, most significant first. */
  function Quad(t: Tables, a: int, b: int, c: int): (s: seq<CodeUnit>)
    requires |t.lookup| == 64 && 0 <= a < 0x100 && 0 <= b < 0x100 && 0 <= c < 0x100
    ensures |s| == 4
  {
    [t.lookup[a / 4], t.lookup[a % 4 * 16 + b / 16], t.lookup[b % 16 * 4 + c / 64], t.lookup[c % 64]]
  }

  /** Section 4 of RFC 4648, padding included. */
  function Encoding(t: Tables, bytes: seq<Byte>): seq<CodeUnit>
    requires |t.lookup| == 64
  {
    if |bytes| >= 3 then Quad(t, bytes[0], bytes[1], bytes[2]) + Encoding(t, bytes[3..])
    else if |bytes| == 2 then Quad(t, bytes[0], bytes[1], 0)[..3] + [PAD]
    else if |bytes| == 1 then Quad(t, bytes[0], 0, 0)[..2] + [PAD, PAD]
    else []
  }

  /** The bytes four sextets stand for. */
  function First(a: Sextet, b: Sextet): Byte { a * 4 + b / 16 }

  function Second(b: Sextet, c: Sextet): Byte { b % 16 * 16 + c / 4 }

  function Third(c: Sextet, d: Sextet): Byte { c % 4 * 64 + d }

  function Triple(t: Tables, s: seq<CodeUnit>): (b: seq<Byte>)
    requires |s| >= 4
    ensures |b| == 3
  {
    [First(t.Rev(s[0]), t.Rev(s[1])), Second(t.Rev(s[1]), t.Rev(s[2])), Third(t.Rev(s[2]), t.Rev(s[3]))]
  }

  /**
   What `toByteArray` makes of a text, a block of four units at a time. The first `=` ends it; if it is at the start
   of a block, the block before it is not decoded and leaves two zero bytes.
   */
  function Decoding(t: Tables, s: seq<CodeUnit>): seq<Byte> {
    if |s| < 4 || s[0] == PAD || s[1] == PAD then []
    else if s[2] == PAD then Triple(t, s)[..1]
    else if s[3] == PAD then Triple(t, s)[..2]
    else if |s| > 4 && s[4] == PAD then [0, 0]
    else Triple(t, s) + Decoding(t, s[4..])
  }

  /** The index of the first `=`, the length if there is none. */
  function ValidLength(s: seq<CodeUnit>): (n: nat)
    ensures n <= |s|
    ensures forall j :: 0 <= j < n ==> s[j] != PAD
    ensures n < |s| ==> s[n] == PAD
  {
    if s == [] || s[0] == PAD then 0 else 1 + ValidLength(s[1..])
  }

  function PlaceHolders(s: seq<CodeUnit>): nat {
    if ValidLength(s) == |s| then 0 else 4 - ValidLength(s) % 4
  }

  /** The number of bytes a text is said to decode to. */
  function ByteLength(s: seq<CodeUnit>): int {
    (ValidLength(s) + PlaceHolders(s)) * 3 / 4 - PlaceHolders(s) as int
  }

  lemma FirstPad(s: seq<CodeUnit>, n: nat)
    requires n <= |s| && (forall j :: 0 <= j < n ==> s[j] != PAD) && (n < |s| ==> s[n] == PAD)
    ensures ValidLength(s) == n
  {
  }

  lemma PlaceHoldersBlock(n: int)
    ensures (4 + n) % 4 == n % 4
  {
  }

  lemma ValidLengthBlock(s: seq<CodeUnit>)
    requires |s| >= 4 && s[0] != PAD && s[1] != PAD && s[2] != PAD && s[3] != PAD
    ensures ValidLength(s) == 4 + ValidLength(s[4..]) && PlaceHolders(s) == PlaceHolders(s[4..])
  {
    var rest := s[4..];
    assert forall j :: 4 <= j < |s| ==> s[j] == rest[j - 4];
    FirstPad(s, 4 + ValidLength(rest));
    PlaceHoldersBlock(ValidLength(rest));
  }

  lemma ByteLengthBlock(s: seq<CodeUnit>)
    requires |s| >= 4 && s[0] != PAD && s[1] != PAD && s[2] != PAD && s[3] != PAD
    ensures ByteLength(s) == 3 + ByteLength(s[4..])
  {
    ValidLengthBlock(s);
    var n := ValidLength(s[4..]) + PlaceHolders(s[4..]);
    assert (n + 4) * 3 / 4 == n * 3 / 4 + 3;
  }

  lemma ByteLengthLast(s: seq<CodeUnit>, n: nat)
    requires n < 4 <= |s| && (forall j :: 0 <= j < n ==> s[j] != PAD) && s[n] == PAD
    ensures ByteLength(s) == if n == 0 then -1 else n - 1
  {
    FirstPad(s, n);
  }

  /** `byteLength` is the length of what is decoded, wherever the first `=` is, unless the text starts with it. */
  lemma {:induction false} ByteLengthExact(t: Tables, s: seq<CodeUnit>, blocks: nat)
    requires |s| == 4 * blocks
    ensures s == [] || s[0] != PAD ==> ByteLength(s) == |Decoding(t, s)|
    ensures s != [] && s[0] == PAD ==> ByteLength(s) == -1
  {
    if s == [] {
    } else if s[0] == PAD {
      ByteLengthLast(s, 0);
    } else if s[1] == PAD {
      ByteLengthLast(s, 1);
    } else if s[2] == PAD {
      ByteLengthLast(s, 2);
    } else if s[3] == PAD {
      ByteLengthLast(s, 3);
    } else {
      ByteLengthBlock(s);
      ByteLengthExact(t, s[4..], blocks - 1);
    }
  }

  /** The bytes a text without padding stands for by section 4 of RFC 4648; a unit left over alone stands for none. */
  function Plain(t: Tables, s: seq<CodeUnit>): seq<Byte> {
    if |s| >= 4 then Triple(t, s) + Plain(t, s[4..])
    else if |s| == 3 then [First(t.Rev(s[0]), t.Rev(s[1])), Second(t.Rev(s[1]), t.Rev(s[2]))]
    else if |s| == 2 then [First(t.Rev(s[0]), t.Rev(s[1]))]
    else []
  }

  /** The first `n` bytes of a block depend on its first `n + 1` units only. */
  lemma TripleDependsOn(t: Tables, s: seq<CodeUnit>, s': seq<CodeUnit>, n: nat)
    requires |s| >= 4 && |s'| >= 4 && 1 <= n <= 3 && forall j :: 0 <= j <= n ==> s[j] == s'[j]
    ensures Triple(t, s)[..n] == Triple(t, s')[..n]
  {
  }

  lemma DecodingStart(t: Tables, s: seq<CodeUnit>)
    requires |s| >= 4 && 0 < ValidLength(s) < 4
    ensures Decoding(t, s) == Plain(t, s[..ValidLength(s)])
  {
    var n := ValidLength(s);
    assert forall j :: 0 <= j < n ==> s[..n][j] == s[j];
  }

  lemma DecodingBlock(t: Tables, s: seq<CodeUnit>)
    requires |s| >= 4 && ValidLength(s) >= 4 && (|s| == 4 || s[4] != PAD)
    ensures ValidLength(s) == 4 + ValidLength(s[4..])
    ensures Decoding(t, s) == Triple(t, s) + Decoding(t, s[4..])
    ensures Plain(t, s[..ValidLength(s)]) == Triple(t, s) + Plain(t, s[4..][..ValidLength(s[4..])])
  {
    ValidLengthBlock(s);
    var n := ValidLength(s);
    assert s[..n][4..] == s[4..][..n - 4];
    TripleDependsOn(t, s, s[..n], 3);
  }

  /**
   `toByteArray` decodes what is before the first `=` exactly if there is none or it is not at the start of a block;
   if it is, the result is one byte shorter.
   */
  lemma {:induction false} PaddingExact(t: Tables, s: seq<CodeUnit>, blocks: nat)
    requires |s| == 4 * blocks && (s == [] || s[0] != PAD)
    ensures Decoding(t, s) == Plain(t, s[..ValidLength(s)]) <==> ValidLength(s) == |s| || ValidLength(s) % 4 != 0
    ensures !(ValidLength(s) == |s| || ValidLength(s) % 4 != 0) ==>
      |Decoding(t, s)| + 1 == |Plain(t, s[..ValidLength(s)])|
  {
    var n := ValidLength(s);
    if s == [] {
    } else if n < 4 {
      DecodingStart(t, s);
    } else if |s| > 4 && s[4] == PAD {
      FirstPad(s, 4);
      assert s[..4][4..] == [];
    } else {
      DecodingBlock(t, s);
      PaddingExact(t, s[4..], blocks - 1);
      PlaceHoldersBlock(n - 4);
    }
  }

  /** The text `TWFu====`: its first block stands for the bytes of `Man`, and two zero bytes come out. */
  lemma PaddingBlockFails(t: Tables)
    requires t.Sound() && forall x: Sextet :: t.lookup[x] == CodeAt(x)
    ensures var s := [0x54, 0x57, 0x46, 0x75, PAD, PAD, PAD, PAD];
      ValidLength(s) == 4 && Plain(t, s[..4]) == [0x4D, 0x61, 0x6E] && Decoding(t, s) == [0, 0]
  {
    var s: seq<CodeUnit> := [0x54, 0x57, 0x46, 0x75, PAD, PAD, PAD, PAD];
    FirstPad(s, 4);
    assert t.lookup[19] == 0x54 && t.lookup[22] == 0x57 && t.lookup[5] == 0x46 && t.lookup[46] == 0x75;
    assert s[..4][4..] == [];
  }

  lemma Looked(t: Tables)
    requires t.Sound() && forall x: Sextet :: t.lookup[x] == CodeAt(x)
    ensures t.lookup[25] == 0x5A && t.lookup[32] == 0x67 && t.lookup[38] == 0x6D && t.lookup[60] == 0x38
    ensures t.lookup[61] == 0x39 && t.lookup[47] == 0x76
    ensures t.Rev(0x5A) == 25 && t.Rev(0x67) == 32 && t.Rev(0x6D) == 38 && t.Rev(0x38) == 60
  {
    assert t.revLookup[t.lookup[25]] == 25 && t.revLookup[t.lookup[32]] == 32;
    assert t.revLookup[t.lookup[38]] == 38 && t.revLookup[t.lookup[60]] == 60;
  }

  /** Test vectors of section 10 of RFC 4648. */
  lemma TestVectors(t: Tables)
    requires t.Sound() && forall x: Sextet :: t.lookup[x] == CodeAt(x)
    ensures Encoding(t, [0x66]) == [0x5A, 0x67, 0x3D, 0x3D]
    ensures Encoding(t, [0x66, 0x6F]) == [0x5A, 0x6D, 0x38, 0x3D]
    ensures Encoding(t, [0x66, 0x6F, 0x6F]) == [0x5A, 0x6D, 0x39, 0x76]
  {
    Looked(t);
    hide CodeAt, t.Sound, t.Rev;
    assert [0x66, 0x6F, 0x6F][3..] == [];
  }

  /** The same vectors decoded; a unit that is no character of the alphabet counts as a zero. */
  lemma TestVectorsDecoded(t: Tables)
    requires t.Sound() && (forall x: Sextet :: t.lookup[x] == CodeAt(x)) && 0x20 !in t.revLookup
    ensures Decoding(t, [0x5A, 0x67, 0x3D, 0x3D]) == [0x66] && Decoding(t, [0x5A, 0x6D, 0x38, 0x3D]) == [0x66, 0x6F]
    ensures Decoding(t, [0x5A, 0x67, 0x20, 0x20]) == [0x66, 0, 0]
  {
    Looked(t);
    assert t.Rev(0x20) == 0;
    hide CodeAt, t.Sound, t.Rev;
    assert [0x5A, 0x67, 0x20, 0x20][4..] == [];
  }

  lemma SextetsRoundTrip(a: Byte, b: Byte, c: Byte)
    ensures First(a / 4, a % 4 * 16 + b / 16) == a
    ensures Second(a % 4 * 16 + b / 16, b % 16 * 4 + c / 64) == b
    ensures Third(b % 16 * 4 + c / 64, c % 64) == c
  {
  }

  lemma TripleOfSextets(t: Tables, s: seq<CodeUnit>, p: Sextet, q: Sextet, r: Sextet, u: Sextet)
    requires t.Sound() && s == [t.lookup[p], t.lookup[q], t.lookup[r], t.lookup[u]]
    ensures Triple(t, s) == [First(p, q), Second(q, r), Third(r, u)]
    ensures forall j :: 0 <= j < 4 ==> s[j] != PAD
  {
    assert s[0] == t.lookup[p] && s[1] == t.lookup[q] && s[2] == t.lookup[r] && s[3] == t.lookup[u];
  }

  lemma TripleOfQuad(t: Tables, a: Byte, b: Byte, c: Byte)
    requires t.Sound()
    ensures Triple(t, Quad(t, a, b, c)) == [a, b, c]
    ensures forall j :: 0 <= j < 4 ==> Quad(t, a, b, c)[j] != PAD
  {
    SextetsRoundTrip(a, b, c);
    TripleOfSextets(t, Quad(t, a, b, c), a / 4, a % 4 * 16 + b / 16, b % 16 * 4 + c / 64, c % 64);
  }

  lemma DecodingCons(t: Tables, a: Byte, b: Byte, c: Byte, rest: seq<CodeUnit>)
    requires t.Sound() && (rest == [] || rest[0] != PAD)
    ensures Decoding(t, Quad(t, a, b, c) + rest) == [a, b, c] + Decoding(t, rest)
  {
    var s := Quad(t, a, b, c) + rest;
    assert s[4..] == rest;
    TripleOfQuad(t, a, b, c);
    TripleDependsOn(t, Quad(t, a, b, c), s, 3);
    assert forall j :: 0 <= j < 4 ==> s[j] == Quad(t, a, b, c)[j];
  }

  lemma DecodingPadded(t: Tables, s: seq<CodeUnit>, n: nat)
    requires |s| == 4 && 1 <= n <= 2 && (forall j :: 0 <= j <= n ==> s[j] != PAD) && s[n + 1] == PAD
    ensures Decoding(t, s) == Triple(t, s)[..n]
  {
  }

  /** Padding instead of the last units of a block leaves the bytes before them. */
  lemma PaddedDecodes(t: Tables, q: seq<CodeUnit>, n: nat, bytes: seq<Byte>)
    requires |q| == 4 && 1 <= n <= 2 && (forall j :: 0 <= j <= n ==> q[j] != PAD) && Triple(t, q)[..n] == bytes
    ensures Decoding(t, q[..n + 1] + if n == 2 then [PAD] else [PAD, PAD]) == bytes
  {
    var s := q[..n + 1] + if n == 2 then [PAD] else [PAD, PAD];
    TripleDependsOn(t, q, s, n);
    DecodingPadded(t, s, n);
  }

  lemma RoundTripTwo(t: Tables, a: Byte, b: Byte, c: Byte, n: nat)
    requires t.Sound() && 1 <= n <= 2
    ensures Decoding(t, Quad(t, a, b, c)[..n + 1] + if n == 2 then [PAD] else [PAD, PAD]) == [a, b, c][..n]
  {
    TripleOfQuad(t, a, b, c);
    PaddedDecodes(t, Quad(t, a, b, c), n, [a, b, c][..n]);
  }

  /** The number of blocks: one for every three bytes begun. */
  lemma {:induction false} EncodingBlocks(t: Tables, bytes: seq<Byte>) returns (q: nat)
    requires |t.lookup| == 64
    ensures |Encoding(t, bytes)| == 4 * q && |bytes| <= 3 * q < |bytes| + 3
  {
    if |bytes| >= 3 {
      q := EncodingBlocks(t, bytes[3..]);
      q := q + 1;
    } else {
      q := if bytes == [] then 0 else 1;
    }
  }

  lemma EncodingStart(t: Tables, bytes: seq<Byte>)
    requires t.Sound()
    ensures bytes != [] ==> |Encoding(t, bytes)| >= 4 && Encoding(t, bytes)[0] != PAD
  {
    if bytes != [] {
      assert Encoding(t, bytes)[0] in t.lookup;
    }
  }

  lemma RoundTripCons(t: Tables, bytes: seq<Byte>)
    requires t.Sound() && |bytes| >= 3
    requires Decoding(t, Encoding(t, bytes[3..])) == bytes[3..]
    ensures Decoding(t, Encoding(t, bytes)) == bytes
  {
    EncodingStart(t, bytes[3..]);
    DecodingCons(t, bytes[0], bytes[1], bytes[2], Encoding(t, bytes[3..]));
    assert bytes == [bytes[0], bytes[1], bytes[2]] + bytes[3..];
  }

  lemma {:induction false} EncodingDecodes(t: Tables, bytes: seq<Byte>)
    requires t.Sound()
    ensures Decoding(t, Encoding(t, bytes)) == bytes
  {
    if |bytes| >= 3 {
      EncodingDecodes(t, bytes[3..]);
      RoundTripCons(t, bytes);
    } else if |bytes| == 2 {
      RoundTripTwo(t, bytes[0], bytes[1], 0, 2);
    } else if |bytes| == 1 {
      RoundTripTwo(t, bytes[0], 0, 0, 1);
    }
  }

  /** Encoding is undone by decoding, and its length is 4 * ceil(n / 3). */
  lemma RoundTrip(t: Tables, bytes: seq<Byte>)
    requires t.Sound()
    ensures Decoding(t, Encoding(t, bytes)) == bytes
    ensures |Encoding(t, bytes)| == (|bytes| + 2) / 3 * 4
  {
    EncodingDecodes(t, bytes);
    var q := EncodingBlocks(t, bytes);
    assert (|bytes| + 2) / 3 == q;
  }

  // ---------- fromByteArray ----------

  lemma {:induction false} EncodingAppend(t: Tables, a: seq<Byte>, b: seq<Byte>, blocks: nat)
    requires |t.lookup| == 64 && |a| == 3 * blocks
    ensures Encoding(t, a + b) == Encoding(t, a) + Encoding(t, b)
  {
    if a == [] {
      assert a + b == b;
    } else {
      assert (a + b)[3..] == a[3..] + b;
      EncodingAppend(t, a[3..], b, blocks - 1);
    }
  }

  lemma NothingEncoded(t: Tables)
    requires |t.lookup| == 64
    ensures Encoding(t, []) == []
  {
  }

  function TripletToBase64(t: Tables, num: int): (s: seq<CodeUnit>)
    requires |t.lookup| == 64 && 0 <= num < 0x100_0000
  {
    [t.lookup[num / 0x4_0000 % 64], t.lookup[num / 0x1000 % 64], t.lookup[num / 0x40 % 64], t.lookup[num % 64]]
  }

  lemma SextetsOf24Bits(x: int, y: int, z: int, u: int)
    requires 0 <= x < 64 && 0 <= y < 64 && 0 <= z < 64 && 0 <= u < 64
    ensures var num := x * 0x4_0000 + y * 0x1000 + z * 0x40 + u;
      num / 0x4_0000 % 64 == x && num / 0x1000 % 64 == y && num / 0x40 % 64 == z && num % 64 == u
  {
    var num := x * 0x4_0000 + y * 0x1000 + z * 0x40 + u;
    assert num / 0x4_0000 == x;
    assert num / 0x1000 == x * 64 + y;
    assert num / 0x40 == x * 0x1000 + y * 64 + z;
  }

  /** The body of the loop of `encodeChunk`. */
  method PushTriplet(t: Tables, output: seq<CodeUnit>, a: Byte, b: Byte, c: Byte) returns (output': seq<CodeUnit>)
    requires |t.lookup| == 64
    ensures output' == output + Encoding(t, [a, b, c])
  {
    var tmp := a as int * 0x1_0000 + b as int * 0x100 + c as int;
    SextetsOf24Bits(a / 4, a % 4 * 16 + b / 16, b % 16 * 4 + c / 64, c % 64);
    assert [a, b, c][3..] == [];
    output' := output + TripletToBase64(t, tmp);
  }

  lemma EncodingSnoc(t: Tables, bytes: seq<Byte>, start: nat, i: nat, blocks: nat)
    requires |t.lookup| == 64 && start + 3 * blocks == i && i + 3 <= |bytes|
    ensures Encoding(t, bytes[start..i + 3]) ==
      Encoding(t, bytes[start..i]) + Encoding(t, [bytes[i], bytes[i + 1], bytes[i + 2]])
  {
    var triple := [bytes[i], bytes[i + 1], bytes[i + 2]];
    EncodingAppend(t, bytes[start..i], triple, blocks);
    assert bytes[start..i + 3] == bytes[start..i] + triple;
  }

  method EncodeStep(t: Tables, uint8: array<Byte>, start: nat, i: nat, output: seq<CodeUnit>, ghost blocks: nat)
    returns (output': seq<CodeUnit>)
    requires |t.lookup| == 64 && start + 3 * blocks == i && i + 3 <= uint8.Length
    requires output == Encoding(t, uint8[start..i])
    ensures output' == Encoding(t, uint8[start..i + 3])
  {
    output' := PushTriplet(t, output, uint8[i], uint8[i + 1], uint8[i + 2]);
    EncodingSnoc(t, uint8[..], start, i, blocks);
    assert uint8[..][start..i] == uint8[start..i] && uint8[..][start..i + 3] == uint8[start..i + 3];
  }

  method EncodeChunk(t: Tables, uint8: array<Byte>, start: nat, end: nat, ghost blocks: nat)
    returns (output: seq<CodeUnit>)
    requires |t.lookup| == 64
    requires start + 3 * blocks == end <= uint8.Length
    ensures output == Encoding(t, uint8[start..end])
  {
    output := [];
    assert output == Encoding(t, uint8[start..start]);
    hide Encoding, Quad;
    var i := start;
    ghost var done := 0;
    while i < end
      invariant i == start + 3 * done <= end
      invariant output == Encoding(t, uint8[start..i])
    {
      output := EncodeStep(t, uint8, start, i, output, done);
      i := i + 3;
      done := done + 1;
    }
  }

  const MAX_CHUNK_LENGTH := 16383

  /** The loop over chunks. */
  method EncodeFull(t: Tables, uint8: array<Byte>, len2: nat, ghost blocks: nat) returns (text: seq<CodeUnit>)
    requires |t.lookup| == 64 && len2 == 3 * blocks <= uint8.Length
    ensures text == Encoding(t, uint8[..len2])
  {
    hide Encoding, Quad;
    text := [];
    NothingEncoded(t);
    assert uint8[..0] == [];
    var i := 0;
    ghost var done: nat := 0;
    while i < len2
      invariant i == 3 * done
      invariant text == Encoding(t, uint8[..if i < len2 then i else len2])
    {
      var end := if i + MAX_CHUNK_LENGTH > len2 then len2 else i + MAX_CHUNK_LENGTH;
      var chunk := EncodeChunk(t, uint8, i, end, if end == len2 then blocks - done else 5461);
      EncodingAppend(t, uint8[..i], uint8[i..end], done);
      assert uint8[..end] == uint8[..i] + uint8[i..end];
      text := text + chunk;
      i := i + MAX_CHUNK_LENGTH;
      done := done + 5461;
    }
  }

  lemma SextetsOfRest(a: int, b: int)
    requires 0 <= a < 0x100 && 0 <= b < 0x100
    ensures a * 16 % 64 == a % 4 * 16 + 0 / 16
    ensures var tmp := a * 0x100 + b;
      tmp / 0x400 == a / 4 && tmp / 16 % 64 == a % 4 * 16 + b / 16 && tmp * 4 % 64 == b % 16 * 4 + 0 / 64
  {
    var tmp := a * 0x100 + b;
    assert tmp / 16 == a * 16 + b / 16;
  }

  /** The one or two bytes left over, padded. */
  method EncodeRest(t: Tables, rest: seq<Byte>) returns (text: seq<CodeUnit>)
    requires |t.lookup| == 64 && |rest| < 3
    ensures text == Encoding(t, rest)
  {
    text := [];
    if |rest| == 1 {
      var tmp: int := rest[0];
      SextetsOfRest(tmp, 0);
      text := [t.lookup[tmp / 4], t.lookup[tmp * 16 % 64], PAD, PAD];
    } else if |rest| == 2 {
      var tmp: int := rest[0] as int * 0x100 + rest[1] as int;
      SextetsOfRest(rest[0], rest[1]);
      text := [t.lookup[tmp / 0x400], t.lookup[tmp / 16 % 64], t.lookup[tmp * 4 % 64], PAD];
    }
  }

  /** The chunked encoder writes what one pass over all the bytes would. */
  method FromByteArray(t: Tables, uint8: array<Byte>) returns (text: seq<CodeUnit>)
    requires |t.lookup| == 64
    ensures text == Encoding(t, uint8[..])
  {
    var len := uint8.Length;
    var extraBytes := len % 3;
    var len2 := len - extraBytes;
    var full := EncodeFull(t, uint8, len2, len / 3);
    EncodingAppend(t, uint8[..len2], uint8[len2..], len / 3);
    assert uint8[..] == uint8[..len2] + uint8[len2..];
    var rest := EncodeRest(t, uint8[len2..]);
    text := full + rest;
  }

  // ---------- toByteArray ----------

  lemma DecodingStep(t: Tables, s: seq<CodeUnit>, i: nat) returns (triple: seq<Byte>, rest: seq<Byte>)
    requires i + 4 <= ValidLength(s) && (i + 4 < ValidLength(s) || ValidLength(s) == |s|)
    ensures triple == Triple(t, s[i..]) && rest == Decoding(t, s[i + 4..]) && Decoding(t, s[i..]) == triple + rest
  {
    triple, rest := Triple(t, s[i..]), Decoding(t, s[i + 4..]);
    var here := s[i..];
    assert here[4..] == s[i + 4..];
    assert forall j :: 0 <= j < |here| ==> here[j] == s[i + j];
  }

  /** What is left to decode where the loop over whole blocks ends. */
  lemma DecodingEnd(t: Tables, s: seq<CodeUnit>, i: nat, block: nat, blocks: nat)
    requires |s| == 4 * blocks && i == 4 * block <= |s|
    requires if PlaceHolders(s) == 0 then i == |s| else ValidLength(s) - 4 <= i < ValidLength(s)
    ensures PlaceHolders(s) != 0 ==> i + 4 <= |s|
    ensures Decoding(t, s[i..]) ==
      if PlaceHolders(s) == 1 then Triple(t, s[i..])[..2]
      else if PlaceHolders(s) == 2 then Triple(t, s[i..])[..1]
      else if PlaceHolders(s) == 4 then [0, 0]
      else []
  {
    var n, here := ValidLength(s), s[i..];
    if n < |s| {
      assert n - i == if n % 4 == 0 then 4 else n % 4;
      assert forall j :: 0 <= j < |here| ==> here[j] == s[i + j];
    }
  }

  lemma SameBits(a: Sextet, b: Sextet, c: Sextet, d: Sextet)
    ensures a as int * 0x4_0000 + b as int * 0x1000 + c as int * 0x40 + d as int
         == First(a, b) as int * 0x1_0000 + Second(b, c) as int * 0x100 + Third(c, d) as int
  {
  }

  lemma BytesOf24Bits(x: int, y: int, z: int)
    requires 0 <= x < 0x100 && 0 <= y < 0x100 && 0 <= z < 0x100
    ensures var tmp := x * 0x1_0000 + y * 0x100 + z;
      tmp / 0x1_0000 % 0x100 == x && tmp / 0x100 % 0x100 == y && tmp % 0x100 == z
  {
    var tmp := x * 0x1_0000 + y * 0x100 + z;
    assert tmp / 0x1_0000 == x;
    assert tmp / 0x100 == x * 0x100 + y;
  }

  /** The three bytes in the 24 bits of four sextets. */
  method BlockBytes(a: Sextet, b: Sextet, c: Sextet, d: Sextet) returns (x: Byte, y: Byte, z: Byte)
    ensures x == First(a, b) && y == Second(b, c) && z == Third(c, d)
  {
    hide First, Second, Third;
    var tmp := a as int * 0x4_0000 + b as int * 0x1000 + c as int * 0x40 + d as int;
    SameBits(a, b, c, d);
    BytesOf24Bits(First(a, b), Second(b, c), Third(c, d));
    x := tmp / 0x1_0000 % 0x100;
    y := tmp / 0x100 % 0x100;
    z := tmp % 0x100;
  }

  /** One block: three bytes from four units. */
  method DecodeBlock(t: Tables, b64: seq<CodeUnit>, i: nat, arr: array<Byte>, curByte: nat)
    requires i + 4 <= |b64| && curByte + 3 <= arr.Length
    modifies arr
    ensures arr[..curByte + 3] == old(arr[..curByte]) + Triple(t, b64[i..])
    ensures forall j :: curByte + 3 <= j < arr.Length ==> arr[j] == old(arr[j])
  {
    var x, y, z := BlockBytes(t.Rev(b64[i]), t.Rev(b64[i + 1]), t.Rev(b64[i + 2]), t.Rev(b64[i + 3]));
    arr[curByte], arr[curByte + 1], arr[curByte + 2] := x, y, z;
  }

  /** What the last block holds when one of its units is padding. */
  method TailBytes(a: Sextet, b: Sextet, c: Sextet) returns (x: Byte, y: Byte)
    ensures x == First(a, b) && y == Second(b, c)
  {
    var a': int, b': int, c': int := a, b, c;
    var tmp: int := a' * 0x400 + b' * 16 + c' / 4;
    assert tmp / 0x100 == a' * 4 + b' / 16;
    x := tmp / 0x100 % 0x100;
    y := tmp % 0x100;
  }

  method TailByte(a: Sextet, b: Sextet) returns (x: Byte)
    ensures x == First(a, b)
  {
    var a': int, b': int := a, b;
    x := (a' * 4 + b' / 16) % 0x100;
  }

  /** The last block, when one of its units is padding. */
  method DecodeTwo(t: Tables, b64: seq<CodeUnit>, i: nat, arr: array<Byte>, curByte: nat)
    requires i + 4 <= |b64| && curByte + 2 == arr.Length
    modifies arr
    ensures arr[..] == old(arr[..curByte]) + Triple(t, b64[i..])[..2]
  {
    var x, y := TailBytes(t.Rev(b64[i]), t.Rev(b64[i + 1]), t.Rev(b64[i + 2]));
    arr[curByte] := x;
    arr[curByte + 1] := y;
  }

  /** The last block, when two of its units are padding. */
  method DecodeOne(t: Tables, b64: seq<CodeUnit>, i: nat, arr: array<Byte>, curByte: nat)
    requires i + 4 <= |b64| && curByte + 1 == arr.Length
    modifies arr
    ensures arr[..] == old(arr[..curByte]) + Triple(t, b64[i..])[..1]
  {
    var x := TailByte(t.Rev(b64[i]), t.Rev(b64[i + 1]));
    arr[curByte] := x;
  }

  /** One turn of the loop over whole blocks: the bytes written move from the front of what is left. */
  method DecodeStep(t: Tables, b64: seq<CodeUnit>, i: nat, arr: array<Byte>, curByte: nat,
                    ghost triple: seq<Byte>, ghost rest: seq<Byte>, ghost whole: seq<Byte>)
    requires i + 4 <= |b64| && triple == Triple(t, b64[i..])
    requires curByte <= arr.Length == |whole| && whole == arr[..curByte] + (triple + rest)
    modifies arr
    ensures curByte + 3 <= arr.Length && whole == arr[..curByte + 3] + rest
    ensures forall j :: curByte + 3 <= j < arr.Length ==> arr[j] == old(arr[j])
  {
    hide Triple;
    DecodeBlock(t, b64, i, arr, curByte);
  }

  /** The loop over whole blocks, up to unit `len`. */
  method DecodeBlocks(t: Tables, b64: seq<CodeUnit>, len: int, arr: array<Byte>,
    ghost blocks: nat, ghost whole: seq<Byte>)
    returns (i: nat, curByte: nat, ghost block: nat, ghost rest: seq<Byte>)
    requires |b64| == 4 * blocks && (len == ValidLength(b64) == |b64| || -4 < len == ValidLength(b64) - 4)
    requires whole == Decoding(t, b64) && arr.Length == |whole|
    requires forall j :: 0 <= j < arr.Length ==> arr[j] == 0
    modifies arr
    ensures i == 4 * block <= |b64| && len <= i < len + 4 && (len == |b64| ==> i == len)
    ensures rest == Decoding(t, b64[i..]) && curByte <= arr.Length && whole == arr[..curByte] + rest
    ensures forall j :: curByte <= j < arr.Length ==> arr[j] == 0
  {
    hide Triple, Decoding;
    i, curByte, block, rest := 0, 0, 0, whole;
    assert b64[0..] == b64 && arr[..0] == [];
    while i < len
      invariant i == 4 * block <= |b64| && i < len + 4 && (len == |b64| ==> i <= len)
      invariant rest == Decoding(t, b64[i..]) && curByte <= arr.Length && whole == arr[..curByte] + rest
      invariant forall j :: curByte <= j < arr.Length ==> arr[j] == 0
    {
      ghost var triple: seq<Byte>;
      triple, rest := DecodingStep(t, b64, i);
      DecodeStep(t, b64, i, arr, curByte, triple, rest, whole);
      curByte := curByte + 3;
      i := i + 4;
      block := block + 1;
    }
  }

  /** The last block when it holds padding. */
  method DecodeTail(t: Tables, b64: seq<CodeUnit>, i: nat, arr: array<Byte>, curByte: nat, placeHoldersLen: nat)
    requires placeHoldersLen == 1 || placeHoldersLen == 2
    requires i + 4 <= |b64| && curByte + 3 - placeHoldersLen == arr.Length
    modifies arr
    ensures arr[..] == old(arr[..curByte]) + Triple(t, b64[i..])[..3 - placeHoldersLen]
  {
    if placeHoldersLen == 2 {
      DecodeOne(t, b64, i, arr, curByte);
    }
    if placeHoldersLen == 1 {
      DecodeTwo(t, b64, i, arr, curByte);
    }
  }

  method Decode(t: Tables, b64: seq<CodeUnit>, arr: array<Byte>, ghost blocks: nat)
    requires |b64| == 4 * blocks && (b64 == [] || b64[0] != PAD)
    requires arr.Length == |Decoding(t, b64)| && forall j :: 0 <= j < arr.Length ==> arr[j] == 0
    modifies arr
    ensures arr[..] == Decoding(t, b64)
  {
    hide Triple, Decoding;
    var placeHoldersLen := PlaceHolders(b64);
    var len := if placeHoldersLen > 0 then ValidLength(b64) - 4 else ValidLength(b64);
    var i, curByte, block, rest := DecodeBlocks(t, b64, len, arr, blocks, Decoding(t, b64));
    DecodingEnd(t, b64, i, block, blocks);
    if placeHoldersLen == 1 || placeHoldersLen == 2 {
      DecodeTail(t, b64, i, arr, curByte, placeHoldersLen);
    } else {
      assert arr[..] == arr[..curByte] + arr[curByte..];
    }
  }

  /** `toByteArray` decodes every text whose length is a multiple of four, except one that starts with `=`. */
  method ToByteArray(t: Tables, b64: seq<CodeUnit>) returns (r: Result<array<Byte>, Error>)
    ensures |b64| % 4 != 0 ==> r == Err(InvalidLength)
    ensures |b64| % 4 == 0 && b64 != [] && b64[0] == PAD ==> r == Err(NegativeArrayLength)
    ensures |b64| % 4 == 0 && (b64 == [] || b64[0] != PAD) ==>
      && r.Ok? && fresh(r.value) && r.value[..] == Decoding(t, b64)
      && (r.value[..] == Plain(t, b64[..ValidLength(b64)]) <==> ValidLength(b64) == |b64| || ValidLength(b64) % 4 != 0)
  {
    if |b64| % 4 > 0 {
      return Err(InvalidLength);
    }
    ghost var blocks := |b64| / 4;
    ByteLengthExact(t, b64, blocks);
    if ByteLength(b64) < 0 {
      return Err(NegativeArrayLength);
    }
    var arr := new Byte[ByteLength(b64)](_ => 0);
    Decode(t, b64, arr, blocks);
    PaddingExact(t, b64, blocks);
    r := Ok(arr);
  }

  lemma WholeBlocks(blocks: nat)
    ensures blocks * 4 % 4 == 0
    ensures blocks == 0 <==> blocks * 4 == 0
  {
  }

  /** Bytes that are encoded and decoded again come back. */
  method EncodeThenDecode(t: Tables, bytes: array<Byte>) returns (r: Result<array<Byte>, Error>)
    requires t.Sound()
    ensures r.Ok? && r.value[..] == bytes[..]
  {
    var text := FromByteArray(t, bytes);
    RoundTrip(t, bytes[..]);
    EncodingStart(t, bytes[..]);
    WholeBlocks((bytes.Length + 2) / 3);
    hide Encoding, Decoding, Plain;
    r := ToByteArray(t, text);
  }
}
