/**
 Strings in the inspector's JSON messages: `escapeJSON` writes them, and the scanner of `Runtime.evaluate` reads one
 back in its own way. The reference is section 7 of RFC 8259.
 */
module JsonString {
  import opened Common
  import opened Unicode
  import opened Percent

  const QUOTE: Byte := 0x22
  const BACKSLASH: Byte := 0x5C

  // ---------- escapeJSON ----------

  /** The table of short escapes. */
  function Replacement(b: Byte): Option<seq<Byte>> {
    if b == QUOTE then Some([BACKSLASH, QUOTE])
    else if b == BACKSLASH then Some([BACKSLASH, BACKSLASH])
    else if b == 0x08 then Some([BACKSLASH, 0x62])
    else if b == 0x0C then Some([BACKSLASH, 0x66])
    else if b == 0x0A then Some([BACKSLASH, 0x6E])
    else if b == 0x0D then Some([BACKSLASH, 0x72])
    else if b == 0x09 then Some([BACKSLASH, 0x74])
    else None
  }

  /** A digit of the lowercase hexadecimal alphabet. */
  function LowerHexDigit(n: int): Byte
    requires 0 <= n < 16
  {
    if n < 10 then 0x30 + n else 0x61 + n - 10
  }

  function EscapeByte(b: Byte): (e: seq<Byte>)
    ensures e != []
  {
    if Replacement(b).Some? then Replacement(b).value
    else if b < 0x20 then [BACKSLASH, 0x75, 0x30, 0x30, LowerHexDigit(b / 16), LowerHexDigit(b % 16)]
    else [b]
  }

  function Escape(s: seq<Byte>): seq<Byte> {
    if s == [] then [] else EscapeByte(s[0]) + Escape(s[1..])
  }

  /** The seven short escapes and a long one, in numbers: a backslash is 0x5C. */
  lemma EscapesInNumbers(b: Byte)
    ensures EscapeByte(0x22) == [0x5C, 0x22] && EscapeByte(0x5C) == [0x5C, 0x5C]
    ensures EscapeByte(0x08) == [0x5C, 0x62] && EscapeByte(0x0C) == [0x5C, 0x66]
    ensures EscapeByte(0x0A) == [0x5C, 0x6E] && EscapeByte(0x0D) == [0x5C, 0x72] && EscapeByte(0x09) == [0x5C, 0x74]
    ensures EscapeByte(0x1F) == [0x5C, 0x75, 0x30, 0x30, 0x31, 0x66]
    ensures b >= 0x20 && b != 0x22 && b != 0x5C ==> EscapeByte(b) == [b]
  {
  }

  /** What a pointer into `buffer` is as a C string: the bytes before the first NUL. */
  function CString(buffer: seq<Byte>): seq<Byte> {
    if buffer == [] || buffer[0] == 0 then [] else [buffer[0]] + CString(buffer[1..])
  }

  lemma {:induction false} CStringOf(s: seq<Byte>, more: seq<Byte>)
    requires 0 !in s
    ensures CString(s + [0] + more) == s
  {
    if s == [] {
    } else {
      assert (s + [0] + more)[1..] == s[1..] + [0] + more;
      CStringOf(s[1..], more);
    }
  }

  /** `escaped` is what the bytes before `p` become. */
  ghost predicate EscapedUpTo(buffer: seq<Byte>, p: nat, escaped: seq<Byte>) {
    p < |buffer| && 0 in buffer[p..] && escaped + Escape(CString(buffer[p..])) == Escape(CString(buffer))
  }

  lemma Associative(a: seq<Byte>, b: seq<Byte>, c: seq<Byte>)
    ensures a + (b + c) == a + b + c
  {
  }

  lemma EscapedFirst(buffer: seq<Byte>)
    requires 0 in buffer
    ensures EscapedUpTo(buffer, 0, [])
  {
    assert buffer[0..] == buffer && [] + Escape(CString(buffer)) == Escape(CString(buffer));
  }

  lemma EscapedNext(buffer: seq<Byte>, p: nat, escaped: seq<Byte>)
    requires EscapedUpTo(buffer, p, escaped)
    ensures buffer[p] != 0 ==> EscapedUpTo(buffer, p + 1, escaped + EscapeByte(buffer[p]))
    ensures buffer[p] == 0 ==> escaped == Escape(CString(buffer))
  {
    hide EscapeByte;
    var rest := buffer[p + 1..];
    assert buffer[p..] == [buffer[p]] + rest && buffer[p..][1..] == rest;
    if buffer[p] == 0 {
      assert escaped + [] == escaped;
    } else {
      var text := [buffer[p]] + CString(rest);
      assert CString(buffer[p..]) == text && text[1..] == CString(rest);
      assert Escape(text) == EscapeByte(buffer[p]) + Escape(CString(rest));
      Associative(escaped, EscapeByte(buffer[p]), Escape(CString(rest)));
    }
  }

  /** The escape of one byte, as the loop appends it. */
  method AppendEscaped(escaped: seq<Byte>, byte: Byte) returns (r: seq<Byte>)
    ensures r == escaped + EscapeByte(byte)
  {
    var replacement := Replacement(byte);
    if replacement.Some? {
      return escaped + replacement.value;
    }
    if byte < 0x20 {
      r := escaped + [BACKSLASH, 0x75, 0x30, 0x30];
      r := r + [LowerHexDigit(byte / 16 % 16)];
      r := r + [LowerHexDigit(byte % 16)];
    } else {
      r := escaped + [byte];
    }
  }

  lemma InBuffer(buffer: seq<Byte>, p: nat, escaped: seq<Byte>)
    requires EscapedUpTo(buffer, p, escaped)
    ensures p < |buffer|
  {
  }

  /** `str` is null or points to bytes with a NUL among them. */
  method EscapeJSON(str: Option<seq<Byte>>) returns (escaped: seq<Byte>)
    requires str.Some? ==> 0 in str.value
    ensures escaped == if str.Some? then Escape(CString(str.value)) else []
  {
    hide EscapedUpTo, Escape, EscapeByte, CString;
    escaped := [];
    if str == None {
      return;
    }
    var buffer := str.value;
    var p := 0;
    EscapedFirst(buffer);
    InBuffer(buffer, p, escaped);
    while buffer[p] != 0
      invariant 0 <= p < |buffer| && EscapedUpTo(buffer, p, escaped)
      decreases |buffer| - p
    {
      EscapedNext(buffer, p, escaped);
      escaped := AppendEscaped(escaped, buffer[p]);
      p := p + 1;
      InBuffer(buffer, p, escaped);
    }
    EscapedNext(buffer, p, escaped);
  }

  // ---------- section 7 of RFC 8259 ----------

  function Hex4(t: seq<Byte>): Option<int> {
    if |t| >= 4 && IsAsciiHex(t[0]) && IsAsciiHex(t[1]) && IsAsciiHex(t[2]) && IsAsciiHex(t[3])
    then Some(HexValue(t[0]) * 0x1000 + HexValue(t[1]) * 0x100 + HexValue(t[2]) * 0x10 + HexValue(t[3]))
    else None
  }

  /** The character an escape stands for, and its length; `t` starts with the backslash. */
  function EscapedChar(t: seq<Byte>): (r: Option<(seq<Byte>, nat)>)
    requires |t| >= 1
    ensures r.Some? ==> 2 <= r.value.1 <= |t|
  {
    if |t| < 2 then None
    else if t[1] == QUOTE || t[1] == BACKSLASH || t[1] == 0x2F then Some(([t[1]], 2))
    else if t[1] == 0x62 then Some(([0x08], 2))
    else if t[1] == 0x66 then Some(([0x0C], 2))
    else if t[1] == 0x6E then Some(([0x0A], 2))
    else if t[1] == 0x72 then Some(([0x0D], 2))
    else if t[1] == 0x74 then Some(([0x09], 2))
    else if t[1] == 0x75 && Hex4(t[2..]).Some? then
      var unit := Hex4(t[2..]).value;
      if IsLead(unit) then
        if |t| >= 12 && t[6] == BACKSLASH && t[7] == 0x75 && Hex4(t[8..]).Some? && IsTrail(Hex4(t[8..]).value)
        then Some((Utf8Of(Pair(unit, Hex4(t[8..]).value)), 12))
        else None
      else if IsTrail(unit) then None
      else Some((Utf8Of(unit), 6))
    else None
  }

  /** The value of a string and what follows it; `t` starts after the opening quotation mark. */
  function ReadString(t: seq<Byte>): Option<(seq<Byte>, seq<Byte>)>
    decreases |t|
  {
    if t == [] || t[0] < 0x20 then None
    else if t[0] == QUOTE then Some(([], t[1..]))
    else
      var c := if t[0] == BACKSLASH then EscapedChar(t) else Some(([t[0]], 1));
      if c == None then None else
        match ReadString(t[c.value.1..])
        case None => None
        case Some((value, rest)) => Some((c.value.0 + value, rest))
  }

  /** What the reader makes of `\/` and of `\u12aF`, in numbers. */
  lemma ReaderInNumbers()
    ensures EscapedChar([0x5C, 0x2F]) == Some(([0x2F], 2))
    ensures EscapedChar([0x5C, 0x75, 0x31, 0x32, 0x61, 0x46]) == Some(([0xE1, 0x8A, 0xAF], 6))
  {
    assert Hex4([0x5C, 0x75, 0x31, 0x32, 0x61, 0x46][2..]) == Some(0x12AF);
    assert Utf8Of(0x12AF) == [0xE1, 0x8A, 0xAF];
  }

  /** The G clef of section 7 of RFC 8259, `\uD834\uDD1E`; its first half alone is no character. */
  lemma ReaderOfPairs()
    ensures EscapedChar([0x5C, 0x75, 0x44, 0x38, 0x33, 0x34, 0x5C, 0x75, 0x44, 0x44, 0x31, 0x45]) ==
      Some(([0xF0, 0x9D, 0x84, 0x9E], 12))
    ensures EscapedChar([0x5C, 0x75, 0x44, 0x38, 0x33, 0x34, 0x5C, 0x6E]) == None
  {
    var clef := [0x5C, 0x75, 0x44, 0x38, 0x33, 0x34, 0x5C, 0x75, 0x44, 0x44, 0x31, 0x45];
    assert Hex4(clef[2..]) == Some(0xD834) && Hex4(clef[8..]) == Some(0xDD1E);
    assert Hex4([0x5C, 0x75, 0x44, 0x38, 0x33, 0x34, 0x5C, 0x6E][2..]) == Some(0xD834);
    assert Utf8Of(Pair(0xD834, 0xDD1E)) == [0xF0, 0x9D, 0x84, 0x9E];
  }

  lemma ReadEscapedByte(b: Byte, rest: seq<Byte>)
    ensures var t := EscapeByte(b) + rest;
      ReadString(t) == match ReadString(rest)
                       case None => None
                       case Some((value, after)) => Some(([b] + value, after))
  {
    var e := EscapeByte(b);
    var t := e + rest;
    assert t[|e|..] == rest;
    if |e| == 6 {
      assert Hex4(t[2..]) == Some(b as int);
      assert EscapedChar(t) == Some(([b], 6));
    }
  }

  lemma ReadClosing(rest: seq<Byte>)
    ensures ReadString([QUOTE] + rest) == Some(([], rest))
  {
    assert ([QUOTE] + rest)[1..] == rest;
  }

  /** A reader that follows RFC 8259 gets the string back, and stops at the quotation mark that closes it. */
  lemma {:induction false} ReadEscaped(s: seq<Byte>, rest: seq<Byte>)
    ensures ReadString(Escape(s) + [QUOTE] + rest) == Some((s, rest))
  {
    hide EscapeByte, ReadString;
    if s == [] {
      ReadClosing(rest);
      assert Escape(s) + [QUOTE] + rest == [QUOTE] + rest;
    } else {
      var tail := Escape(s[1..]) + [QUOTE] + rest;
      ReadEscaped(s[1..], rest);
      ReadEscapedByte(s[0], tail);
      assert Escape(s) + [QUOTE] + rest == EscapeByte(s[0]) + tail;
      assert s == [s[0]] + s[1..];
    }
  }

  lemma AsciiFront(e: seq<Byte>, t: seq<Byte>)
    requires forall j :: 0 <= j < |e| ==> e[j] < 0x80
    ensures WellFormed8(e + t) <==> WellFormed8(t)
  {
    if e == [] {
      assert e + t == t;
    } else {
      assert (e + t)[1..] == e[1..] + t;
      AsciiFront(e[1..], t);
    }
  }

  lemma AsciiEscape(b: Byte)
    requires b < 0x80
    ensures forall j :: 0 <= j < |EscapeByte(b)| ==> EscapeByte(b)[j] < 0x80
  {
  }

  /** A character's length depends on its bytes only. */
  lemma SameChar(a: seq<Byte>, b: seq<Byte>)
    requires CharLength(a) > 0 && |b| >= CharLength(a) && forall j :: 0 <= j < CharLength(a) ==> b[j] == a[j]
    ensures CharLength(b) == CharLength(a)
  {
  }

  ghost predicate HighStart(s: seq<Byte>, n: nat) {
    n <= |s| && forall j :: 0 <= j < n ==> s[j] >= 0x80
  }

  lemma HighCons(b: Byte, t: seq<Byte>, n: nat)
    requires b >= 0x80
    ensures HighStart([b] + t, n + 1) <==> HighStart(t, n)
    ensures HighStart(t, n) ==> ([b] + t)[..n + 1] == [b] + t[..n] && ([b] + t)[n + 1..] == t[n..]
  {
    if HighStart([b] + t, n + 1) {
      assert forall j :: 0 <= j < n ==> t[j] == ([b] + t)[j + 1];
    }
  }

  /** Bytes outside ASCII are their own escapes, and no others escape to them. */
  lemma {:induction false} HighStaysHigh(s: seq<Byte>, n: nat)
    ensures HighStart(Escape(s), n) <==> HighStart(s, n)
    ensures HighStart(s, n) ==> Escape(s)[..n] == s[..n] && Escape(s)[n..] == Escape(s[n..])
  {
    if n == 0 {
      assert Escape(s)[0..] == Escape(s) && s[0..] == s;
    } else if s != [] {
      var rest := Escape(s[1..]);
      assert Escape(s) == EscapeByte(s[0]) + rest;
      if s[0] >= 0x80 {
        assert s == [s[0]] + s[1..] && Escape(s) == [s[0]] + rest;
        HighStaysHigh(s[1..], n - 1);
        HighCons(s[0], s[1..], n - 1);
        HighCons(s[0], rest, n - 1);
      } else {
        assert Escape(s)[0] < 0x80;
      }
    }
  }

  /** A character that is not ASCII starts with bytes that are not. */
  lemma HighChar(b: seq<Byte>)
    requires CharLength(b) > 0 && b[0] >= 0x80
    ensures HighStart(b, CharLength(b))
  {
  }

  /** A string and its escape start with the same character, if with one that is not ASCII. */
  lemma EscapedChars(s: seq<Byte>)
    requires s != [] && s[0] >= 0x80
    ensures CharLength(Escape(s)) == CharLength(s) && Escape(s)[CharLength(s)..] == Escape(s[CharLength(s)..])
  {
    hide Escape, CharLength;
    var escaped := Escape(s);
    var k, k' := CharLength(s), CharLength(escaped);
    assert HighStart(s, 1) && s[..1][0] == s[0];
    HighStaysHigh(s, 1);
    assert escaped[0] == escaped[..1][0];
    HighStaysHigh(s, k);
    HighStaysHigh(s, k');
    if k > 0 {
      HighChar(s);
      assert forall j :: 0 <= j < k ==> escaped[j] == escaped[..k][j] == s[..k][j] == s[j];
      SameChar(s, escaped);
    } else if k' > 0 {
      HighChar(escaped);
      assert forall j :: 0 <= j < k' ==> s[j] == s[..k'][j] == escaped[..k'][j] == escaped[j];
      SameChar(escaped, s);
    } else {
      assert HighStart(s, 0);
    }
  }

  /** `escapeJSON` writes UTF-8, as a JSON text has to be, exactly for strings that are UTF-8. */
  lemma {:induction false} EscapedWellFormed(s: seq<Byte>)
    ensures WellFormed8(Escape(s)) <==> WellFormed8(s)
    decreases |s|
  {
    hide EscapeByte, CharLength;
    if s == [] {
    } else if s[0] < 0x80 {
      AsciiEscape(s[0]);
      AsciiFront(EscapeByte(s[0]), Escape(s[1..]));
      AsciiFront([s[0]], s[1..]);
      assert [s[0]] + s[1..] == s;
      EscapedWellFormed(s[1..]);
    } else {
      EscapedChars(s);
      if CharLength(s) > 0 {
        EscapedWellFormed(s[CharLength(s)..]);
      }
    }
  }

  /** The escape of a string without NUL, whatever is in memory behind it, is read back as the string. */
  method EscapeString(s: seq<Byte>, more: seq<Byte>) returns (escaped: seq<Byte>)
    requires 0 !in s
    ensures forall rest :: ReadString(escaped + [QUOTE] + rest) == Some((s, rest))
  {
    escaped := EscapeJSON(Some(s + [0] + more));
    CStringOf(s, more);
    forall rest ensures ReadString(escaped + [QUOTE] + rest) == Some((s, rest)) {
      ReadEscaped(s, rest);
    }
  }

  // ---------- the expression scanner ----------

  /** What the scanner makes of a backslash and the byte after it. */
  function Unescaped(next: Byte): seq<Byte> {
    if next == QUOTE then [QUOTE]
    else if next == BACKSLASH then [BACKSLASH]
    else if next == 0x6E then [0x0A]
    else if next == 0x72 then [0x0D]
    else if next == 0x74 then [0x09]
    else [BACKSLASH, next]
  }

  /** The expression the scanner collects from `t`, and how much of `t` it passes over. */
  function Scan(t: seq<Byte>): (r: (seq<Byte>, nat))
    ensures r.1 <= |t|
    decreases |t|
  {
    if t == [] || t[0] == QUOTE then ([], 0)
    else if t[0] == BACKSLASH && |t| > 1 then
      var r := Scan(t[2..]);
      (Unescaped(t[1]) + r.0, 2 + r.1)
    else
      var r := Scan(t[1..]);
      ([t[0]] + r.0, 1 + r.1)
  }

  /** The bytes the scanner collects for one escaped byte. */
  function ScannedByte(b: Byte): seq<Byte> {
    if b < 0x20 && b != 0x0A && b != 0x0D && b != 0x09 then EscapeByte(b) else [b]
  }

  function Scanned(s: seq<Byte>): seq<Byte> {
    if s == [] then [] else ScannedByte(s[0]) + Scanned(s[1..])
  }

  lemma ScanOne(b: Byte, rest: seq<Byte>)
    requires b != QUOTE && b != BACKSLASH
    ensures Scan([b] + rest) == ([b] + Scan(rest).0, 1 + Scan(rest).1)
  {
    assert ([b] + rest)[1..] == rest;
  }

  /** Bytes that are neither quotation marks nor backslashes are collected as they are. */
  lemma {:induction false} ScanPlain(plain: seq<Byte>, rest: seq<Byte>)
    requires QUOTE !in plain && BACKSLASH !in plain
    ensures Scan(plain + rest) == (plain + Scan(rest).0, |plain| + Scan(rest).1)
  {
    hide Scan;
    if plain == [] {
      assert plain + rest == rest && plain + Scan(rest).0 == Scan(rest).0;
    } else {
      assert plain + rest == [plain[0]] + (plain[1..] + rest);
      ScanOne(plain[0], plain[1..] + rest);
      ScanPlain(plain[1..], rest);
      assert plain + Scan(rest).0 == [plain[0]] + (plain[1..] + Scan(rest).0);
    }
  }

  lemma ScanPair(next: Byte, rest: seq<Byte>)
    ensures Scan([BACKSLASH, next] + rest) == (Unescaped(next) + Scan(rest).0, 2 + Scan(rest).1)
  {
    assert ([BACKSLASH, next] + rest)[2..] == rest;
  }

  lemma ScanEscapedByte(b: Byte, rest: seq<Byte>)
    ensures Scan(EscapeByte(b) + rest) == (ScannedByte(b) + Scan(rest).0, |EscapeByte(b)| + Scan(rest).1)
  {
    hide Scan;
    var e := EscapeByte(b);
    if |e| == 1 {
      ScanPlain(e, rest);
    } else if |e| == 2 {
      ScanPair(e[1], rest);
      assert e == [BACKSLASH, e[1]];
    } else {
      var digits := e[2..];
      ScanPlain(digits, rest);
      ScanPair(e[1], digits + rest);
      assert e + rest == [BACKSLASH, e[1]] + (digits + rest);
      assert e + Scan(rest).0 == [BACKSLASH, 0x75] + (digits + Scan(rest).0);
    }
  }

  /** Whatever was escaped, the scanner stops exactly at the quotation mark that closes the string. */
  lemma {:induction false} ScanEscaped(s: seq<Byte>, rest: seq<Byte>)
    ensures Scan(Escape(s) + [QUOTE] + rest) == (Scanned(s), |Escape(s)|)
  {
    if s == [] {
      assert Escape(s) + [QUOTE] + rest == [QUOTE] + rest;
    } else {
      ScanEscaped(s[1..], rest);
      ScanEscapedByte(s[0], Escape(s[1..]) + [QUOTE] + rest);
      assert Escape(s) + [QUOTE] + rest == EscapeByte(s[0]) + (Escape(s[1..]) + [QUOTE] + rest);
      hide Scan, EscapeByte, ScannedByte;
    }
  }

  /** Line feeds, carriage returns and tabs are the only control bytes. */
  predicate OnlyCommonControls(s: seq<Byte>) {
    forall i :: 0 <= i < |s| && s[i] < 0x20 ==> s[i] == 0x0A || s[i] == 0x0D || s[i] == 0x09
  }

  lemma {:induction false} ScannedLength(s: seq<Byte>)
    ensures OnlyCommonControls(s) ==> Scanned(s) == s
    ensures !OnlyCommonControls(s) ==> |Scanned(s)| > |s|
    ensures |Scanned(s)| >= |s|
  {
    if s != [] {
      ScannedLength(s[1..]);
      assert s == [s[0]] + s[1..];
      assert OnlyCommonControls(s) <==> OnlyCommonControls([s[0]]) && OnlyCommonControls(s[1..]) by {
        assert forall i :: 0 < i < |s| ==> s[i] == s[1..][i - 1];
      }
    }
  }

  /** The scanner gets the string back exactly if its only control bytes are line feeds, carriage returns and tabs. */
  lemma ScannerRoundTrip(s: seq<Byte>, rest: seq<Byte>)
    ensures Scan(Escape(s) + [QUOTE] + rest).0 == s <==> OnlyCommonControls(s)
    ensures Scan(Escape(s) + [QUOTE] + rest).1 == |Escape(s)|
  {
    ScanEscaped(s, rest);
    ScannedLength(s);
  }

  /** A backspace is escaped as `\b`, and comes back as these two bytes. */
  lemma BackspaceFails()
    ensures Scan(Escape([0x08]) + [QUOTE]).0 == [BACKSLASH, 0x62]
  {
    assert Escape([0x08]) == EscapeByte(0x08) + Escape([]);
    assert Escape([0x08]) + [QUOTE] == [BACKSLASH, 0x62, QUOTE];
  }

  /** The key of the expression, with the quotation mark that opens its value. */
  const EXPRESSION_KEY: seq<Byte> :=
    [0x22, 0x65, 0x78, 0x70, 0x72, 0x65, 0x73, 0x73, 0x69, 0x6F, 0x6E, 0x22, 0x3A, 0x22]

  lemma ExpressionKeyIs()
    ensures |EXPRESSION_KEY| == 14
    ensures forall k :: 0 <= k < 14 ==> EXPRESSION_KEY[k] == "\"expression\":\""[k] as int
  {
  }

  predicate KeyAt(msg: seq<Byte>, key: seq<Byte>, k: int) {
    0 <= k <= |msg| - |key| && msg[k..k + |key|] == key
  }

  /** The key is at `k` if that is where it stands in the message. */
  lemma KeyAtMeans(before: seq<Byte>, key: seq<Byte>, after: seq<Byte>, msg: seq<Byte>, k: nat)
    ensures msg == before + key + after ==> KeyAt(msg, key, |before|)
    ensures KeyAt(msg, key, k) ==> msg == msg[..k] + key + msg[k + |key|..]
  {
  }

  /** The first place from `from` on where the key is. */
  function Find(msg: seq<Byte>, key: seq<Byte>, from: nat): (r: Option<nat>)
    requires from <= |msg|
    ensures r.Some? ==> KeyAt(msg, key, r.value) && forall k :: from <= k < r.value ==> !KeyAt(msg, key, k)
    ensures r == None ==> forall k :: from <= k ==> !KeyAt(msg, key, k)
    decreases |msg| - from
  {
    if KeyAt(msg, key, from) then Some(from) else if from == |msg| then None else Find(msg, key, from + 1)
  }

  /** `expression` is what the scanner collects from `start` to `i`. */
  ghost predicate Collected(msg: seq<Byte>, start: nat, i: nat, expression: seq<Byte>) {
    && start <= i <= |msg|
    && Scan(msg[start..]) == (expression + Scan(msg[i..]).0, i - start + Scan(msg[i..]).1)
  }

  lemma CollectedFirst(msg: seq<Byte>, start: nat)
    requires start <= |msg|
    ensures Collected(msg, start, start, [])
  {
    assert [] + Scan(msg[start..]).0 == Scan(msg[start..]).0;
  }

  lemma CollectedNext(msg: seq<Byte>, start: nat, i: nat, expression: seq<Byte>)
    requires Collected(msg, start, i, expression)
    ensures i < |msg| ==>
      if msg[i] == BACKSLASH && i + 1 < |msg| then Collected(msg, start, i + 2, expression + Unescaped(msg[i + 1]))
      else msg[i] == QUOTE || Collected(msg, start, i + 1, expression + [msg[i]])
    ensures i == |msg| || msg[i] == QUOTE ==> Scan(msg[start..]) == (expression, i - start)
  {
    hide Unescaped;
    var t := msg[i..];
    if i == |msg| || msg[i] == QUOTE {
      assert Scan(t) == ([], 0) && expression + [] == expression;
    } else if msg[i] == BACKSLASH && i + 1 < |msg| {
      assert t[2..] == msg[i + 2..];
      Associative(expression, Unescaped(msg[i + 1]), Scan(msg[i + 2..]).0);
    } else {
      assert t[1..] == msg[i + 1..];
      Associative(expression, [msg[i]], Scan(msg[i + 1..]).0);
    }
  }

  /** The expression of a `Runtime.evaluate` message, and where its scan ended. */
  method ScanExpression(msg: seq<Byte>) returns (expression: seq<Byte>, i: nat)
    ensures var exprPos := Find(msg, EXPRESSION_KEY, 0);
      if exprPos == None then expression == [] && i == 0
      else i >= exprPos.value + 14 && (expression, i - exprPos.value - 14) == Scan(msg[exprPos.value + 14..])
  {
    hide Scan, Collected;
    var exprPos := Find(msg, EXPRESSION_KEY, 0);
    expression, i := [], 0;
    if exprPos.Some? {
      ghost var start := exprPos.value + 14;
      i := exprPos.value + 14;
      CollectedFirst(msg, start);
      while i < |msg|
        invariant start <= i <= |msg| && Collected(msg, start, i, expression)
      {
        CollectedNext(msg, start, i, expression);
        if msg[i] == BACKSLASH && i + 1 < |msg| {
          var next := msg[i + 1];
          expression := expression + Unescaped(next);
          i := i + 2;
        } else if msg[i] == QUOTE {
          break;
        } else {
          expression := expression + [msg[i]];
          i := i + 1;
        }
      }
      CollectedNext(msg, start, i, expression);
    }
  }

  /** A client that escapes its script the way `escapeJSON` does has it evaluated unchanged under the same condition. */
  lemma EvaluateRoundTrip(before: seq<Byte>, s: seq<Byte>, rest: seq<Byte>, msg: seq<Byte>)
    requires msg == before + EXPRESSION_KEY + (Escape(s) + [QUOTE] + rest)
    requires Find(msg, EXPRESSION_KEY, 0) == Some(|before|)
    ensures var scanned := Scan(msg[|before| + 14..]);
      && (scanned.0 == s <==> OnlyCommonControls(s))
      && scanned.1 == |Escape(s)| && msg[|before| + 14 + scanned.1] == QUOTE
  {
    hide Scan, Escape, Find, OnlyCommonControls;
    var text := Escape(s) + [QUOTE] + rest;
    ScannerRoundTrip(s, rest);
    assert msg == (before + EXPRESSION_KEY) + text && |before + EXPRESSION_KEY| == |before| + 14;
    assert msg[|before| + 14..] == text;
    assert text[|Escape(s)|] == QUOTE;
  }
}
