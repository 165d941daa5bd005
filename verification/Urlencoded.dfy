/** Forms in `application/x-www-form-urlencoded` (section 5 of the URL Standard), as the runtime's shims handle them. */
module Urlencoded {
  import opened Common
  import opened Unicode
  import opened Percent

  const AMPERSAND: Byte := 0x26
  const EQUALS: Byte := 0x3D
  const PLUS: Byte := 0x2B
  const SPACE: Byte := 0x20

  /** What `TextEncoder` and `TextDecoder` throw, on an unpaired surrogate and on bytes that are not UTF-8. */
  datatype Error = UriError

  datatype Entry<+T> = Entry(name: T, value: T)

  // ---------- bytes ----------

  /** `indexOf`; the length if there is none. */
  function IndexOf(s: seq<Byte>, c: Byte): (i: nat)
    ensures i <= |s| && forall j :: 0 <= j < i ==> s[j] != c
    ensures i < |s| ==> s[i] == c
  {
    if s == [] || s[0] == c then 0 else 1 + IndexOf(s[1..], c)
  }

  /** The fields between the separators: one more than there are separators. */
  function Split(s: seq<Byte>, cp: Byte): (fields: seq<seq<Byte>>)
    ensures |fields| >= 1
    decreases |s|
  {
    var i := IndexOf(s, cp);
    if i == |s| then [s] else [s[..i]] + Split(s[i + 1..], cp)
  }

  function Replace(s: seq<Byte>, from: Byte, to: Byte): (r: seq<Byte>)
    ensures |r| == |s| && forall i :: 0 <= i < |s| ==> r[i] == if s[i] == from then to else s[i]
  {
    if s == [] then [] else [if s[0] == from then to else s[0]] + Replace(s[1..], from, to)
  }

  function DecodeComponent(s: seq<Byte>): seq<Byte> {
    PercentDecode(Replace(s, PLUS, SPACE))
  }

  function ParseField(s: seq<Byte>): Entry<seq<Byte>> {
    var i := IndexOf(s, EQUALS);
    Entry(DecodeComponent(s[..i]), if i < |s| then DecodeComponent(s[i + 1..]) else [])
  }

  /** The entries of the fields, empty fields left out. */
  function ParseFields(fields: seq<seq<Byte>>): seq<Entry<seq<Byte>>> {
    if fields == [] then []
    else (if fields[0] == [] then [] else [ParseField(fields[0])]) + ParseFields(fields[1..])
  }

  function Field<T>(equals: T, e: Entry<seq<T>>): seq<T> {
    e.name + [equals] + e.value
  }

  /** The fields of all entries, with separators between them. */
  function Join<T>(ampersand: T, equals: T, entries: seq<Entry<seq<T>>>): seq<T> {
    if entries == [] then []
    else if |entries| == 1 then Field(equals, entries[0])
    else Field(equals, entries[0]) + [ampersand] + Join(ampersand, equals, entries[1..])
  }

  function JoinBytes(entries: seq<Entry<seq<Byte>>>): seq<Byte> {
    Join(AMPERSAND, EQUALS, entries)
  }

  function Fields(entries: seq<Entry<seq<Byte>>>): seq<seq<Byte>> {
    if entries == [] then [] else [Field(EQUALS, entries[0])] + Fields(entries[1..])
  }

  // ---------- clean entries come back ----------

  ghost predicate CleanValue(s: seq<int>) {
    AMPERSAND !in s && PLUS !in s && !HasEscape(s)
  }

  ghost predicate Clean(e: Entry<seq<int>>) {
    CleanValue(e.name) && EQUALS !in e.name && CleanValue(e.value)
  }

  ghost predicate AllClean(entries: seq<Entry<seq<int>>>) {
    forall i :: 0 <= i < |entries| ==> Clean(entries[i])
  }

  ghost predicate NoAmpersand(entries: seq<Entry<seq<Byte>>>) {
    forall i :: 0 <= i < |entries| ==> AMPERSAND !in entries[i].name && AMPERSAND !in entries[i].value
  }

  lemma FirstIndex(s: seq<Byte>, c: Byte, i: nat)
    requires i <= |s| && (forall j :: 0 <= j < i ==> s[j] != c) && (i < |s| ==> s[i] == c)
    ensures IndexOf(s, c) == i
  {
  }

  lemma ComponentKept(s: seq<Byte>)
    ensures DecodeComponent(s) == s <==> PLUS !in s && !HasEscape(s)
    ensures |DecodeComponent(s)| <= |s|
  {
    var r := Replace(s, PLUS, SPACE);
    DecodingShortens(r);
    if PLUS !in s {
      assert r == s;
    } else {
      var i :| 0 <= i < |s| && s[i] == PLUS;
      assert r[i] == SPACE;
    }
  }

  /** A field is read back as the entry it was written from iff the entry is clean, separators between fields aside. */
  lemma FieldRoundTrip(e: Entry<seq<Byte>>)
    ensures ParseField(Field(EQUALS, e)) == e <==>
      EQUALS !in e.name && PLUS !in e.name && PLUS !in e.value && !HasEscape(e.name) && !HasEscape(e.value)
  {
    var f := Field(EQUALS, e);
    var i := IndexOf(f, EQUALS);
    ComponentKept(f[..i]);
    ComponentKept(e.name);
    ComponentKept(e.value);
    if EQUALS !in e.name {
      assert f[..|e.name|] == e.name && f[|e.name| + 1..] == e.value;
      FirstIndex(f, EQUALS, |e.name|);
    } else {
      var k :| 0 <= k < |e.name| && e.name[k] == EQUALS;
      assert f[k] == EQUALS;
    }
  }

  lemma SplitAt(a: seq<Byte>, cp: Byte, b: seq<Byte>)
    requires cp !in a
    ensures Split(a + [cp] + b, cp) == [a] + Split(b, cp)
  {
    var s := a + [cp] + b;
    assert s[..|a|] == a && s[|a| + 1..] == b;
    FirstIndex(s, cp, |a|);
  }

  lemma {:induction false} SplitJoin(entries: seq<Entry<seq<Byte>>>)
    requires entries != [] && NoAmpersand(entries)
    ensures Split(JoinBytes(entries), AMPERSAND) == Fields(entries)
  {
    var f := Field(EQUALS, entries[0]);
    assert AMPERSAND !in f;
    if |entries| == 1 {
      assert Fields(entries[1..]) == [];
    } else {
      SplitAt(f, AMPERSAND, JoinBytes(entries[1..]));
      SplitJoin(entries[1..]);
    }
  }

  lemma {:induction false} ParseFieldsAt(entries: seq<Entry<seq<Byte>>>)
    ensures |ParseFields(Fields(entries))| == |entries|
    ensures forall i :: 0 <= i < |entries| ==> ParseFields(Fields(entries))[i] == ParseField(Field(EQUALS, entries[i]))
  {
    hide ParseField;
    if entries != [] {
      ParseFieldsAt(entries[1..]);
      assert Fields(entries)[1..] == Fields(entries[1..]);
    }
  }

  // ---------- only clean entries come back ----------

  ghost function TotalLength(fields: seq<seq<Byte>>): nat {
    if fields == [] then 0 else |fields[0]| + TotalLength(fields[1..])
  }

  ghost function TotalCount(fields: seq<seq<Byte>>, c: Byte): nat {
    if fields == [] then 0 else Count(fields[0], c) + TotalCount(fields[1..], c)
  }

  ghost function EntriesLength(entries: seq<Entry<seq<Byte>>>): nat {
    if entries == [] then 0 else |entries[0].name| + |entries[0].value| + EntriesLength(entries[1..])
  }

  ghost function EntriesCount(entries: seq<Entry<seq<Byte>>>, c: Byte): nat {
    if entries == [] then 0 else Count(entries[0].name, c) + Count(entries[0].value, c) + EntriesCount(entries[1..], c)
  }

  /** How many fields hold an equals sign. */
  ghost function WithEquals(fields: seq<seq<Byte>>): nat {
    if fields == [] then 0 else (if EQUALS in fields[0] then 1 else 0) + WithEquals(fields[1..])
  }

  lemma {:induction false} SplitMeasures(s: seq<Byte>, cp: Byte, c: Byte)
    ensures TotalLength(Split(s, cp)) + |Split(s, cp)| == |s| + 1
    ensures |Split(s, cp)| == Count(s, cp) + 1
    ensures c != cp ==> TotalCount(Split(s, cp), c) == Count(s, c)
    decreases |s|
  {
    var i := IndexOf(s, cp);
    if i == |s| {
      assert cp !in s;
    } else {
      SplitMeasures(s[i + 1..], cp, c);
      assert s == s[..i] + [cp] + s[i + 1..];
      assert Split(s, cp)[1..] == Split(s[i + 1..], cp);
    }
  }

  lemma {:induction false} JoinMeasures(entries: seq<Entry<seq<Byte>>>, c: Byte)
    requires entries != []
    ensures |JoinBytes(entries)| == EntriesLength(entries) + 2 * |entries| - 1
    ensures Count(JoinBytes(entries), c) ==
      EntriesCount(entries, c) + (if c == EQUALS then |entries| else 0) + if c == AMPERSAND then |entries| - 1 else 0
  {
    if |entries| == 1 {
      assert EntriesLength(entries[1..]) == 0 && EntriesCount(entries[1..], c) == 0;
    } else {
      JoinMeasures(entries[1..], c);
    }
  }

  lemma CountCons(x: Byte, rest: seq<Byte>, c: Byte)
    ensures Count([x] + rest, c) == Count(rest, c) + if x == c then 1 else 0
  {
  }

  /** Decoding loses no equals sign. */
  lemma {:induction false} DecodingKeepsEquals(s: seq<Byte>)
    ensures Count(s, EQUALS) <= Count(PercentDecode(s), EQUALS)
  {
    hide HexValue, Count;
    if s != [] {
      if StartsEscape(s) {
        var rest := s[3..];
        DecodingKeepsEquals(rest);
        CountCons(HexValue(s[1]) * 16 + HexValue(s[2]), PercentDecode(rest), EQUALS);
        CountCons(s[2], rest, EQUALS);
        CountCons(s[1], [s[2]] + rest, EQUALS);
        CountCons(s[0], [s[1]] + ([s[2]] + rest), EQUALS);
        assert s == [s[0]] + ([s[1]] + ([s[2]] + rest));
      } else {
        DecodingKeepsEquals(s[1..]);
        CountCons(s[0], s[1..], EQUALS);
        CountCons(s[0], PercentDecode(s[1..]), EQUALS);
        assert s == [s[0]] + s[1..];
      }
    }
  }

  lemma {:induction false} ReplaceKeepsEquals(s: seq<Byte>)
    ensures Count(Replace(s, PLUS, SPACE), EQUALS) == Count(s, EQUALS)
  {
    if s != [] {
      ReplaceKeepsEquals(s[1..]);
      assert s == [s[0]] + s[1..];
    }
  }

  lemma ComponentMeasures(s: seq<Byte>)
    ensures |DecodeComponent(s)| <= |s| && Count(s, EQUALS) <= Count(DecodeComponent(s), EQUALS)
  {
    ComponentKept(s);
    ReplaceKeepsEquals(s);
    DecodingKeepsEquals(Replace(s, PLUS, SPACE));
  }

  lemma FieldMeasures(f: seq<Byte>)
    ensures var e, one := ParseField(f), if EQUALS in f then 1 else 0;
      && |e.name| + |e.value| + one <= |f|
      && Count(f, EQUALS) <= Count(e.name, EQUALS) + Count(e.value, EQUALS) + one
  {
    hide DecodeComponent, IndexOf;
    var i := IndexOf(f, EQUALS);
    ComponentMeasures(f[..i]);
    if i < |f| {
      ComponentMeasures(f[i + 1..]);
      assert f == f[..i] + [EQUALS] + f[i + 1..];
    } else {
      assert f[..i] == f;
    }
  }

  lemma EntriesCons(e: Entry<seq<Byte>>, rest: seq<Entry<seq<Byte>>>, c: Byte)
    ensures EntriesLength([e] + rest) == |e.name| + |e.value| + EntriesLength(rest)
    ensures EntriesCount([e] + rest, c) == Count(e.name, c) + Count(e.value, c) + EntriesCount(rest, c)
  {
    assert ([e] + rest)[1..] == rest;
  }

  lemma {:induction false} FieldsMeasures(fields: seq<seq<Byte>>)
    ensures EntriesLength(ParseFields(fields)) + WithEquals(fields) <= TotalLength(fields)
    ensures TotalCount(fields, EQUALS) <= EntriesCount(ParseFields(fields), EQUALS) + WithEquals(fields)
    ensures WithEquals(fields) <= |ParseFields(fields)| <= |fields|
  {
    hide ParseField;
    if fields != [] {
      FieldsMeasures(fields[1..]);
      if fields[0] == [] {
        assert ParseFields(fields) == ParseFields(fields[1..]);
      } else {
        FieldMeasures(fields[0]);
        EntriesCons(ParseField(fields[0]), ParseFields(fields[1..]), EQUALS);
      }
    }
  }

  lemma {:induction false} NoneCounted(entries: seq<Entry<seq<Byte>>>)
    requires EntriesCount(entries, AMPERSAND) == 0
    ensures NoAmpersand(entries)
  {
    if entries != [] {
      NoneCounted(entries[1..]);
      assert entries == [entries[0]] + entries[1..];
    }
  }

  /**
   If the entries come back, every field has its equals sign (decoding loses none), so there are as many fields as
   entries (decoding never lengthens), so no name or value holds a separator.
   */
  lemma NoSeparators(entries: seq<Entry<seq<Byte>>>)
    requires entries != [] && ParseFields(Split(JoinBytes(entries), AMPERSAND)) == entries
    ensures NoAmpersand(entries)
  {
    var s := JoinBytes(entries);
    JoinMeasures(entries, EQUALS);
    JoinMeasures(entries, AMPERSAND);
    SplitMeasures(s, AMPERSAND, EQUALS);
    FieldsMeasures(Split(s, AMPERSAND));
    NoneCounted(entries);
  }

  /** Entries without separators come back exactly if all are clean. */
  lemma FieldsRoundTrip(entries: seq<Entry<seq<Byte>>>)
    requires entries != [] && NoAmpersand(entries)
    ensures ParseFields(Split(JoinBytes(entries), AMPERSAND)) == entries <==> AllClean(entries)
  {
    SplitJoin(entries);
    ParseFieldsAt(entries);
    forall i | 0 <= i < |entries| ensures ParseField(Field(EQUALS, entries[i])) == entries[i] <==> Clean(entries[i]) {
      FieldRoundTrip(entries[i]);
    }
  }

  /** Entries come back from their bytes exactly if all are clean. */
  lemma BytesRoundTrip(entries: seq<Entry<seq<Byte>>>)
    ensures ParseFields(Split(JoinBytes(entries), AMPERSAND)) == entries <==> AllClean(entries)
  {
    if entries == [] {
      assert Split([], AMPERSAND) == [[]] && ParseFields([[]][1..]) == [];
    } else if NoAmpersand(entries) {
      FieldsRoundTrip(entries);
    } else if ParseFields(Split(JoinBytes(entries), AMPERSAND)) == entries {
      NoSeparators(entries);
    }
  }

  // ---------- strings ----------

  type Str = seq<CodeUnit>

  function Bytes(s: Str): seq<Byte> {
    Utf8(Scalars(s))
  }

  function DecodeString(b: seq<Byte>): Result<Str, Error> {
    if WellFormed8(b) then Ok(Utf16(Decode8(b))) else Err(UriError)
  }

  function DecodeEntries(entries: seq<Entry<seq<Byte>>>): Result<seq<Entry<Str>>, Error> {
    if entries == [] then Ok([]) else
      match (DecodeString(entries[0].name), DecodeString(entries[0].value), DecodeEntries(entries[1..]))
      case (Ok(name), Ok(value), Ok(rest)) => Ok([Entry(name, value)] + rest)
      case _ => Err(UriError)
  }

  /** What reading a form from a string gives. */
  function Parse(input: Str): Result<seq<Entry<Str>>, Error> {
    if WellFormed16(input) then DecodeEntries(ParseFields(Split(Bytes(input), AMPERSAND))) else Err(UriError)
  }

  function JoinStrings(entries: seq<Entry<Str>>): Str {
    Join(AMPERSAND as CodeUnit, EQUALS as CodeUnit, entries)
  }

  ghost predicate WellFormed(e: Entry<Str>) {
    WellFormed16(e.name) && WellFormed16(e.value)
  }

  ghost predicate AllWellFormed(entries: seq<Entry<Str>>) {
    forall i :: 0 <= i < |entries| ==> WellFormed(entries[i])
  }

  function EntryBytes(e: Entry<Str>): Entry<seq<Byte>> {
    Entry(Bytes(e.name), Bytes(e.value))
  }

  function AllBytes(entries: seq<Entry<Str>>): (r: seq<Entry<seq<Byte>>>)
    ensures |r| == |entries| && forall i :: 0 <= i < |entries| ==> r[i] == EntryBytes(entries[i])
  {
    if entries == [] then [] else [EntryBytes(entries[0])] + AllBytes(entries[1..])
  }

  lemma AsciiFirst(c: CodeUnit, b: Str)
    requires c < 0x80
    ensures WellFormed16([c] + b) <==> WellFormed16(b)
    ensures Bytes([c] + b) == [c] + Bytes(b)
  {
    assert ([c] + b)[1..] == b;
  }

  /** A unit that is no surrogate separates what is before it from what is after it. */
  lemma {:induction false} WellFormedAround(a: Str, c: CodeUnit, b: Str)
    requires c < 0x80
    ensures WellFormed16(a + [c] + b) <==> WellFormed16(a) && WellFormed16(b)
    ensures WellFormed16(a) ==> Bytes(a + [c] + b) == Bytes(a) + [c] + Bytes(b)
  {
    hide Utf8Of;
    var s := a + [c] + b;
    if a == [] {
      AsciiFirst(c, b);
      assert s == [c] + b;
    } else if IsLead(a[0]) {
      if |a| >= 2 && IsTrail(a[1]) {
        assert s[2..] == a[2..] + [c] + b;
        WellFormedAround(a[2..], c, b);
      } else {
        assert s[1] == if |a| >= 2 then a[1] else c;
      }
    } else {
      assert s[1..] == a[1..] + [c] + b;
      WellFormedAround(a[1..], c, b);
    }
  }

  lemma NothingJoined()
    ensures WellFormed16([]) && Bytes([]) == []
  {
  }

  lemma {:induction false} JoinAgrees(entries: seq<Entry<Str>>)
    ensures WellFormed16(JoinStrings(entries)) <==> AllWellFormed(entries)
    ensures WellFormed16(JoinStrings(entries)) ==> Bytes(JoinStrings(entries)) == JoinBytes(AllBytes(entries))
  {
    hide WellFormed16, Bytes;
    NothingJoined();
    if entries != [] {
      var e, rest := entries[0], entries[1..];
      WellFormedAround(e.name, EQUALS, e.value);
      JoinAgrees(rest);
      assert entries == [e] + rest && (AllWellFormed(entries) <==> WellFormed(e) && AllWellFormed(rest));
      assert WellFormed(e) ==> Bytes(Field(EQUALS as CodeUnit, e)) == Field(EQUALS, EntryBytes(e));
      assert AllBytes(entries) == [EntryBytes(e)] + AllBytes(rest);
      if |entries| > 1 {
        WellFormedAround(Field(EQUALS as CodeUnit, e), AMPERSAND, JoinStrings(rest));
        assert AllBytes(entries)[1..] == AllBytes(rest);
      }
    }
  }

  /** The bytes that decode to a well-formed string are its UTF-8, and no others. */
  lemma DecodesOnly(b: seq<Byte>, s: Str)
    requires WellFormed16(s)
    ensures DecodeString(b) == Ok(s) <==> b == Bytes(s)
  {
    if DecodeString(b) == Ok(s) {
      Utf16ThenScalars(Decode8(b));
      DecodeThenUtf8(b);
    }
    Utf8ThenDecode(Scalars(s));
    ScalarsThenUtf16(s);
  }

  lemma {:induction false} DecodeEntriesOnly(parsed: seq<Entry<seq<Byte>>>, entries: seq<Entry<Str>>)
    requires AllWellFormed(entries)
    ensures DecodeEntries(parsed) == Ok(entries) <==> parsed == AllBytes(entries)
  {
    hide DecodeString, Bytes;
    if parsed != [] && entries != [] {
      assert WellFormed(entries[0]);
      DecodesOnly(parsed[0].name, entries[0].name);
      DecodesOnly(parsed[0].value, entries[0].value);
      DecodeEntriesOnly(parsed[1..], entries[1..]);
      assert parsed == [parsed[0]] + parsed[1..] && entries == [entries[0]] + entries[1..];
      assert AllBytes(entries)[1..] == AllBytes(entries[1..]);
    }
  }

  // ---------- what a caller can check on the strings ----------

  predicate TwoHexDigits(s: seq<int>) {
    |s| >= 2 && IsAsciiHex(s[0]) && IsAsciiHex(s[1])
  }

  lemma EscapeCons(c: int, rest: seq<int>)
    ensures HasEscape([c] + rest) <==> (c == PERCENT && TwoHexDigits(rest)) || HasEscape(rest)
  {
    assert ([c] + rest)[1..] == rest;
  }

  lemma {:induction false} EscapeAfterHigh(high: seq<int>, rest: seq<int>)
    requires forall i :: 0 <= i < |high| ==> high[i] >= 0x80
    ensures HasEscape(high + rest) <==> HasEscape(rest)
  {
    if high == [] {
      assert high + rest == rest;
    } else {
      assert high + rest == [high[0]] + (high[1..] + rest);
      EscapeCons(high[0], high[1..] + rest);
      EscapeAfterHigh(high[1..], rest);
    }
  }

  /** In UTF-8 and in UTF-16 the ASCII characters of a string are the same, in the same places. */
  lemma {:induction false} SameAscii(xs: seq<Scalar>, c: int)
    requires 0 <= c < 0x80
    ensures c in Utf8(xs) <==> c in Utf16(xs)
  {
    if xs != [] {
      SameAscii(xs[1..], c);
      assert c in Utf8Of(xs[0]) <==> c in Utf16Of(xs[0]);
    }
  }

  lemma SameFirstHex(xs: seq<Scalar>)
    ensures |Utf8(xs)| >= 1 && IsAsciiHex(Utf8(xs)[0]) <==> |xs| >= 1 && IsAsciiHex(xs[0])
    ensures |Utf16(xs)| >= 1 && IsAsciiHex(Utf16(xs)[0]) <==> |xs| >= 1 && IsAsciiHex(xs[0])
  {
  }

  lemma SameTwoHex(xs: seq<Scalar>)
    ensures TwoHexDigits(Utf8(xs)) <==> TwoHexDigits(xs)
    ensures TwoHexDigits(Utf16(xs)) <==> TwoHexDigits(xs)
  {
    SameFirstHex(xs);
    if xs != [] {
      SameFirstHex(xs[1..]);
    }
  }

  lemma {:induction false} SameEscapes(xs: seq<Scalar>)
    ensures HasEscape(Utf8(xs)) <==> HasEscape(Utf16(xs))
  {
    if xs != [] {
      var x, rest := xs[0], xs[1..];
      SameEscapes(rest);
      if x < 0x80 {
        SameTwoHex(rest);
        EscapeCons(x, Utf8(rest));
        EscapeCons(x, Utf16(rest));
      } else {
        EscapeAfterHigh(Utf8Of(x), Utf8(rest));
        EscapeAfterHigh(Utf16Of(x), Utf16(rest));
      }
    }
  }

  lemma SameString(s: Str)
    requires WellFormed16(s)
    ensures CleanValue(Bytes(s)) <==> CleanValue(s)
    ensures EQUALS in Bytes(s) <==> EQUALS in s
  {
    ScalarsThenUtf16(s);
    SameAscii(Scalars(s), AMPERSAND);
    SameAscii(Scalars(s), PLUS);
    SameAscii(Scalars(s), EQUALS);
    SameEscapes(Scalars(s));
  }

  lemma SameClean(e: Entry<Str>)
    requires WellFormed(e)
    ensures Clean(EntryBytes(e)) <==> Clean(e)
  {
    SameString(e.name);
    SameString(e.value);
  }

  /**
   Parsing what was serialized gives the entries back exactly if they are well-formed strings, no name or value holds
   `&`, `+` or a percent sign with two hexadecimal digits after it, and no name holds `=`.
   */
  lemma FormRoundTrip(entries: seq<Entry<Str>>)
    ensures Parse(JoinStrings(entries)) == Ok(entries) <==> AllWellFormed(entries) && AllClean(entries)
  {
    JoinAgrees(entries);
    if AllWellFormed(entries) {
      var bytes := AllBytes(entries);
      DecodeEntriesOnly(ParseFields(Split(JoinBytes(bytes), AMPERSAND)), entries);
      BytesRoundTrip(bytes);
      forall i | 0 <= i < |entries| ensures Clean(bytes[i]) <==> Clean(entries[i]) {
        SameClean(entries[i]);
      }
    }
  }

  // ---------- the operations ----------

  /** Where `c` is first found from `start` on, or a negative number. */
  function IndexFrom(s: seq<Byte>, c: Byte, start: nat): (r: int)
    requires start <= |s|
    ensures r < |s|
    ensures r >= 0 ==> start <= r
  {
    var i := IndexOf(s[start..], c);
    if start + i == |s| then -1 else start + i
  }

  /** The fields, without an empty one at the end. */
  function StrictSplit(s: seq<Byte>, cp: Byte): seq<seq<Byte>> {
    var fields := Split(s, cp);
    if fields[|fields| - 1] == [] then fields[..|fields| - 1] else fields
  }

  /** `list` holds the fields that end before `last`. */
  ghost predicate Listed(s: seq<Byte>, cp: Byte, last: nat, list: seq<seq<Byte>>) {
    last <= |s| && list + Split(s[last..], cp) == Split(s, cp)
  }

  lemma ListedFirst(s: seq<Byte>, cp: Byte)
    ensures Listed(s, cp, 0, [])
  {
    assert s[0..] == s && [] + Split(s, cp) == Split(s, cp);
  }

  lemma ListedNext(s: seq<Byte>, cp: Byte, last: nat, list: seq<seq<Byte>>)
    requires Listed(s, cp, last, list) && IndexFrom(s, cp, last) >= 0
    ensures var i := IndexFrom(s, cp, last);
      Listed(s, cp, i + 1, list + [s[last..i]])
  {
    var i := IndexFrom(s, cp, last);
    var rest := Split(s[i + 1..], cp);
    assert s[last..][..i - last] == s[last..i] && s[last..][i - last + 1..] == s[i + 1..];
    assert Split(s[last..], cp) == [s[last..i]] + rest;
    assert list + ([s[last..i]] + rest) == list + [s[last..i]] + rest;
  }

  lemma ListedLast(s: seq<Byte>, cp: Byte, last: nat, list: seq<seq<Byte>>)
    requires Listed(s, cp, last, list) && IndexFrom(s, cp, last) < 0
    ensures StrictSplit(s, cp) == if last == |s| then list else list + [s[last..]]
  {
    var fields := list + [s[last..]];
    assert Split(s, cp) == fields;
    assert fields[|fields| - 1] == s[last..] && fields[..|fields| - 1] == list;
  }

  method StrictlySplitByteSequence(buf: seq<Byte>, cp: Byte) returns (list: seq<seq<Byte>>)
    ensures list == StrictSplit(buf, cp)
  {
    hide Listed, StrictSplit, IndexFrom;
    list := [];
    var last := 0;
    ListedFirst(buf, cp);
    var i := IndexFrom(buf, cp, 0);
    while i >= 0
      invariant 0 <= last <= |buf| && i == IndexFrom(buf, cp, last) && Listed(buf, cp, last, list)
      decreases |buf| - last
    {
      ListedNext(buf, cp, last, list);
      list := list + [buf[last..i]];
      last := i + 1;
      i := IndexFrom(buf, cp, last);
    }
    ListedLast(buf, cp, last, list);
    if last != |buf| {
      list := list + [buf[last..]];
    }
  }

  lemma ReplaceAt(s: seq<Byte>, from: Byte, to: Byte, r: seq<Byte>)
    requires |r| == |s| && forall i :: 0 <= i < |s| ==> r[i] == if s[i] == from then to else s[i]
    ensures r == Replace(s, from, to)
  {
  }

  /** Rewrites the buffer it is given. */
  method ReplaceByteInByteSequence(buf: array<Byte>, from: Byte, to: Byte)
    modifies buf
    ensures buf[..] == Replace(old(buf[..]), from, to)
  {
    ghost var done := 0;
    var i := IndexFrom(buf[..], from, 0);
    while i >= 0
      invariant 0 <= done <= buf.Length && i == IndexFrom(buf[..], from, done)
      invariant forall k :: 0 <= k < done ==> buf[k] == if old(buf[k]) == from then to else old(buf[k])
      invariant forall k :: done <= k < buf.Length ==> buf[k] == old(buf[k])
      decreases buf.Length - done
    {
      assert forall k :: done <= k < i ==> buf[..][done..][k - done] == buf[k];
      buf[i] := to;
      done := i + 1;
      i := IndexFrom(buf[..], from, i + 1);
    }
    assert forall k :: done <= k < buf.Length ==> buf[..][done..][k - done] == buf[k];
    ReplaceAt(old(buf[..]), from, to, buf[..]);
  }

  /** A copy, its plus signs replaced, decoded. */
  method ReadComponent(bytes: seq<Byte>) returns (r: Result<Str, Error>)
    ensures r == DecodeString(DecodeComponent(bytes))
  {
    var copy := new Byte[|bytes|](i requires 0 <= i < |bytes| => bytes[i]);
    assert copy[..] == bytes;
    ReplaceByteInByteSequence(copy, PLUS, SPACE);
    var decoded := PercentDecodeBytes(copy);
    r := DecodeString(decoded[..]);
  }

  lemma {:induction false} EmptyFieldsIgnored(fields: seq<seq<Byte>>, more: seq<seq<Byte>>)
    requires forall i :: 0 <= i < |more| ==> more[i] == []
    ensures ParseFields(fields + more) == ParseFields(fields)
    decreases |fields| + |more|
  {
    if fields != [] {
      assert (fields + more)[1..] == fields[1..] + more;
      EmptyFieldsIgnored(fields[1..], more);
    } else if more != [] {
      assert fields + more == more;
      EmptyFieldsIgnored(fields, more[1..]);
      assert fields + more[1..] == more[1..];
    }
  }

  /** What the entries before and the fields after make together. */
  ghost function Together(output: seq<Entry<Str>>, fields: seq<seq<Byte>>): Result<seq<Entry<Str>>, Error> {
    match DecodeEntries(ParseFields(fields))
    case Ok(rest) => Ok(output + rest)
    case Err(e) => Err(e)
  }

  lemma ReadField(output: seq<Entry<Str>>, fields: seq<seq<Byte>>)
    requires fields != [] && fields[0] != []
    ensures var e := ParseField(fields[0]);
      Together(output, fields) ==
        match (DecodeString(e.name), DecodeString(e.value))
        case (Ok(name), Ok(value)) => Together(output + [Entry(name, value)], fields[1..])
        case _ => Err(UriError)
  {
    var e, rest := ParseField(fields[0]), ParseFields(fields[1..]);
    assert ParseFields(fields) == [e] + rest && ([e] + rest)[1..] == rest;
    assert DecodeEntries([e] + rest) == match (DecodeString(e.name), DecodeString(e.value), DecodeEntries(rest))
      case (Ok(name), Ok(value), Ok(others)) => Ok([Entry(name, value)] + others)
      case _ => Err(UriError);
    if DecodeString(e.name).Ok? && DecodeString(e.value).Ok? && DecodeEntries(rest).Ok? {
      var entry, others := Entry(DecodeString(e.name).value, DecodeString(e.value).value), DecodeEntries(rest).value;
      assert output + ([entry] + others) == output + [entry] + others;
    }
  }

  lemma TogetherEnds(output: seq<Entry<Str>>, fields: seq<seq<Byte>>)
    ensures Together([], fields) == DecodeEntries(ParseFields(fields))
    ensures Together(output, []) == Ok(output)
  {
    assert output + [] == output;
    if DecodeEntries(ParseFields(fields)).Ok? {
      var rest := DecodeEntries(ParseFields(fields)).value;
      assert [] + rest == rest;
    }
  }

  lemma NothingDecoded()
    ensures DecodeComponent([]) == []
  {
  }

  lemma ParseFieldIs(bytes: seq<Byte>)
    ensures var i := IndexOf(bytes, EQUALS);
      ParseField(bytes) == if i < |bytes| then Entry(DecodeComponent(bytes[..i]), DecodeComponent(bytes[i + 1..]))
                           else Entry(DecodeComponent(bytes), DecodeComponent([]))
    ensures bytes[0..] == bytes
  {
    hide DecodeComponent, IndexOf;
    NothingDecoded();
    assert bytes[..|bytes|] == bytes;
  }

  /** The body of the loop over the fields. */
  method ReadEntry(bytes: seq<Byte>) returns (r: Result<Entry<Str>, Error>)
    ensures var e := ParseField(bytes);
      r == match (DecodeString(e.name), DecodeString(e.value))
           case (Ok(name), Ok(value)) => Ok(Entry(name, value))
           case _ => Err(UriError)
  {
    hide ParseField, DecodeString, DecodeComponent;
    ParseFieldIs(bytes);
    var indexOfEqual := IndexFrom(bytes, EQUALS, 0);
    var name, value := bytes, [];
    if indexOfEqual >= 0 {
      name, value := bytes[..indexOfEqual], bytes[indexOfEqual + 1..];
    }
    var nameString := ReadComponent(name);
    if nameString.Err? {
      return Err(UriError);
    }
    var valueString := ReadComponent(value);
    if valueString.Err? {
      return Err(UriError);
    }
    r := Ok(Entry(nameString.value, valueString.value));
  }

  lemma StrictIsEnough(input: seq<Byte>)
    ensures ParseFields(StrictSplit(input, AMPERSAND)) == ParseFields(Split(input, AMPERSAND))
  {
    hide Split, ParseField;
    var fields := Split(input, AMPERSAND);
    if fields[|fields| - 1] == [] {
      EmptyFieldsIgnored(StrictSplit(input, AMPERSAND), [[]]);
      assert fields == StrictSplit(input, AMPERSAND) + [[]];
    }
  }

  lemma SkipField(output: seq<Entry<Str>>, fields: seq<seq<Byte>>)
    requires fields != [] && fields[0] == []
    ensures Together(output, fields) == Together(output, fields[1..])
  {
    assert ParseFields(fields) == ParseFields(fields[1..]);
  }

  method ParseUrlencoded(input: seq<Byte>) returns (r: Result<seq<Entry<Str>>, Error>)
    ensures r == DecodeEntries(ParseFields(Split(input, AMPERSAND)))
  {
    var sequences := StrictlySplitByteSequence(input, AMPERSAND);
    StrictIsEnough(input);
    hide Split, ParseField, DecodeString, DecodeEntries, Together;
    var output: seq<Entry<Str>> := [];
    var k := 0;
    assert sequences[0..] == sequences;
    TogetherEnds([], sequences);
    while k < |sequences|
      invariant 0 <= k <= |sequences|
      invariant Together(output, sequences[k..]) == DecodeEntries(ParseFields(Split(input, AMPERSAND)))
    {
      var bytes := sequences[k];
      assert sequences[k..][1..] == sequences[k + 1..];
      if |bytes| == 0 {
        SkipField(output, sequences[k..]);
        k := k + 1;
        continue;
      }
      ReadField(output, sequences[k..]);
      var entry := ReadEntry(bytes);
      if entry.Err? {
        return Err(UriError);
      }
      output := output + [entry.value];
      k := k + 1;
    }
    assert sequences[|sequences|..] == [];
    TogetherEnds(output, []);
    r := Ok(output);
  }

  method ParseUrlencodedString(input: Str) returns (r: Result<seq<Entry<Str>>, Error>)
    ensures r == Parse(input)
  {
    if !WellFormed16(input) {
      return Err(UriError);
    }
    r := ParseUrlencoded(Bytes(input));
  }

  /** The third element of a tuple, if it has one: a string, and for `file` the name of the `File` that is the value. */
  datatype Kind = Hidden | File(name: Str) | Other

  datatype Tuple = Tuple(name: Str, value: Str, kind: Option<Kind>)

  /** `_charset_` and `utf-8`. */
  const CHARSET: Str := [0x5F, 0x63, 0x68, 0x61, 0x72, 0x73, 0x65, 0x74, 0x5F]
  const UTF_8: Str := [0x75, 0x74, 0x66, 0x2D, 0x38]

  lemma NamesInCharacters()
    ensures |CHARSET| == 9 && forall k :: 0 <= k < 9 ==> CHARSET[k] == "_charset_"[k] as int
    ensures |UTF_8| == 5 && forall k :: 0 <= k < 5 ==> UTF_8[k] == "utf-8"[k] as int
  {
  }

  function EntryOf(tuple: Tuple, encoding: Str): Entry<Str> {
    Entry(tuple.name,
      match tuple.kind
      case Some(Hidden) => if tuple.name == CHARSET then encoding else tuple.value
      case Some(File(name)) => name
      case _ => tuple.value)
  }

  function EntriesOf(tuples: seq<Tuple>, encoding: Str): (r: seq<Entry<Str>>)
    ensures |r| == |tuples| && forall i :: 0 <= i < |tuples| ==> r[i] == EntryOf(tuples[i], encoding)
  {
    if tuples == [] then [] else [EntryOf(tuples[0], encoding)] + EntriesOf(tuples[1..], encoding)
  }

  lemma {:induction false} JoinSnoc(entries: seq<Entry<Str>>, e: Entry<Str>)
    ensures JoinStrings(entries + [e]) ==
      JoinStrings(entries) + (if entries == [] then [] else [AMPERSAND as CodeUnit]) + Field(EQUALS as CodeUnit, e)
  {
    assert JoinStrings([e]) == Field(EQUALS as CodeUnit, e);
    if |entries| == 1 {
      assert (entries + [e])[1..] == [e] && entries + [e] != [e];
    } else if entries != [] {
      assert (entries + [e])[1..] == entries[1..] + [e];
      JoinSnoc(entries[1..], e);
    }
  }

  method SerializeUrlencoded(tuples: seq<Tuple>, encodingOverride: Option<Str>) returns (output: Str)
    ensures output == JoinStrings(EntriesOf(tuples, if encodingOverride.Some? then encodingOverride.value else UTF_8))
  {
    var encoding := UTF_8;
    if encodingOverride.Some? {
      encoding := encodingOverride.value;
    }
    output := [];
    ghost var all := EntriesOf(tuples, encoding);
    assert all[..0] == [];
    for i := 0 to |tuples|
      invariant output == JoinStrings(all[..i])
    {
      var name, value := tuples[i].name, tuples[i].value;
      match tuples[i].kind {
        case Some(Hidden) =>
          if name == CHARSET {
            value := encoding;
          }
        case Some(File(fileName)) => value := fileName;
        case _ =>
      }
      JoinSnoc(all[..i], all[i]);
      assert all[..i + 1] == all[..i] + [all[i]];
      if i != 0 {
        output := output + [AMPERSAND as CodeUnit];
      }
      output := output + (name + [EQUALS as CodeUnit] + value);
    }
    assert all[..|tuples|] == all;
  }

  ghost predicate Plain(s: Str) {
    AMPERSAND !in s && PLUS !in s && PERCENT !in s
  }

  lemma {:induction false} NoEscape(s: Str)
    requires PERCENT !in s
    ensures !HasEscape(s)
  {
    if s != [] {
      NoEscape(s[1..]);
    }
  }

  /** The string as a form has it, with every space written as a plus sign. */
  function SpacesAsPlus(s: Str): (r: Str)
    ensures |r| == |s| && forall i :: 0 <= i < |s| ==> r[i] == if s[i] == 0x20 then 0x2B else s[i]
  {
    if s == [] then [] else [if s[0] == 0x20 then 0x2B else s[0]] + SpacesAsPlus(s[1..])
  }

  function FormEntry(e: Entry<Str>): Entry<Str> { Entry(SpacesAsPlus(e.name), SpacesAsPlus(e.value)) }

  function FormEntries(entries: seq<Entry<Str>>): (r: seq<Entry<Str>>)
    ensures |r| == |entries| && forall i :: 0 <= i < |entries| ==> r[i] == FormEntry(entries[i])
  {
    if entries == [] then [] else [FormEntry(entries[0])] + FormEntries(entries[1..])
  }

  lemma {:induction false} ScalarsAsPlus(s: Str)
    requires WellFormed16(s)
    ensures WellFormed16(SpacesAsPlus(s)) && |Scalars(SpacesAsPlus(s))| == |Scalars(s)|
    ensures forall i :: 0 <= i < |Scalars(s)| ==>
      Scalars(SpacesAsPlus(s))[i] == if Scalars(s)[i] == 0x20 then 0x2B else Scalars(s)[i]
  {
    if s != [] {
      var r, k := SpacesAsPlus(s), if IsLead(s[0]) then 2 else 1;
      assert r[0] == if s[0] == 0x20 then 0x2B else s[0];
      assert r[k..] == SpacesAsPlus(s[k..]);
      ScalarsAsPlus(s[k..]);
    }
  }

  lemma OneAsPlus(x: Scalar)
    ensures Utf8Of(if x == 0x20 then 0x2B else x) == Replace(Utf8Of(x), 0x20, 0x2B)
  {
  }

  lemma {:induction false} Utf8AsPlus(xs: seq<Scalar>, ys: seq<Scalar>)
    requires |xs| == |ys| && forall i :: 0 <= i < |xs| ==> ys[i] == if xs[i] == 0x20 then 0x2B else xs[i]
    ensures Utf8(ys) == Replace(Utf8(xs), 0x20, 0x2B)
  {
    hide Utf8Of, Replace;
    if xs != [] {
      var front, rest := Utf8Of(xs[0]), Utf8(xs[1..]);
      Utf8AsPlus(xs[1..], ys[1..]);
      OneAsPlus(xs[0]);
      assert Replace(front + rest, 0x20, 0x2B) == Replace(front, 0x20, 0x2B) + Replace(rest, 0x20, 0x2B);
    }
  }

  lemma BytesAsPlus(s: Str)
    requires WellFormed16(s)
    ensures WellFormed16(SpacesAsPlus(s)) && Bytes(SpacesAsPlus(s)) == Replace(Bytes(s), 0x20, 0x2B)
  {
    ScalarsAsPlus(s);
    Utf8AsPlus(Scalars(s), Scalars(SpacesAsPlus(s)));
  }

  lemma ComponentBack(s: seq<Byte>)
    requires 0x2B !in s && !HasEscape(s)
    ensures DecodeComponent(Replace(s, 0x20, 0x2B)) == s
  {
    assert Replace(Replace(s, 0x20, 0x2B), 0x2B, 0x20) == s;
    DecodingShortens(s);
  }

  function PlusEntry(e: Entry<seq<Byte>>): Entry<seq<Byte>> {
    Entry(Replace(e.name, 0x20, 0x2B), Replace(e.value, 0x20, 0x2B))
  }

  lemma FormEntryBytes(e: Entry<Str>)
    requires WellFormed(e) && 0x26 !in e.name && 0x26 !in e.value && 0x2B !in e.name && 0x2B !in e.value
    requires !HasEscape(e.name) && !HasEscape(e.value) && 0x3D !in e.name
    ensures WellFormed(FormEntry(e)) && Clean(EntryBytes(e)) && EntryBytes(FormEntry(e)) == PlusEntry(EntryBytes(e))
    ensures AMPERSAND !in PlusEntry(EntryBytes(e)).name && AMPERSAND !in PlusEntry(EntryBytes(e)).value
  {
    hide Bytes, WellFormed16, HasEscape;
    BytesAsPlus(e.name);
    BytesAsPlus(e.value);
    SameClean(e);
  }

  lemma FieldBack(e: Entry<seq<Byte>>)
    requires Clean(e)
    ensures ParseField(Field(EQUALS, PlusEntry(e))) == e
  {
    var name, value := Replace(e.name, 0x20, 0x2B), Replace(e.value, 0x20, 0x2B);
    var f := Field(EQUALS, PlusEntry(e));
    ComponentBack(e.name);
    ComponentBack(e.value);
    assert f[..|name|] == name && f[|name| + 1..] == value;
    FirstIndex(f, EQUALS, |name|);
  }

  lemma FieldsBack(entries: seq<Entry<seq<Byte>>>, form: seq<Entry<seq<Byte>>>)
    requires |form| == |entries| && AllClean(entries)
    requires forall i :: 0 <= i < |entries| ==> form[i] == PlusEntry(entries[i])
    ensures ParseFields(Split(JoinBytes(form), AMPERSAND)) == entries
  {
    hide HasEscape, ParseField;
    if entries == [] {
      BytesRoundTrip([]);
    } else {
      SplitJoin(form);
      ParseFieldsAt(form);
      forall i | 0 <= i < |entries| ensures ParseField(Field(EQUALS, form[i])) == entries[i] {
        FieldBack(entries[i]);
      }
    }
  }

  /**
   What a form has a space for: well-formed entries whose names and values hold no `&`, `+` or escape, and whose names
   hold no `=`, come back from the form with every space written as `+`.
   */
  lemma SpacesComeBack(entries: seq<Entry<Str>>)
    requires AllWellFormed(entries)
    requires forall i :: 0 <= i < |entries| ==> 0x26 !in entries[i].name && 0x26 !in entries[i].value
    requires forall i :: 0 <= i < |entries| ==> 0x2B !in entries[i].name && 0x2B !in entries[i].value
    requires forall i :: 0 <= i < |entries| ==> !HasEscape(entries[i].name) && !HasEscape(entries[i].value)
    requires forall i :: 0 <= i < |entries| ==> 0x3D !in entries[i].name
    ensures Parse(JoinStrings(FormEntries(entries))) == Ok(entries)
  {
    hide Bytes, WellFormed16, HasEscape, ParseFields, Split, Clean, DecodeEntries, PlusEntry;
    var form := FormEntries(entries);
    forall i | 0 <= i < |entries|
      ensures WellFormed(form[i]) && Clean(AllBytes(entries)[i])
      ensures AllBytes(form)[i] == PlusEntry(AllBytes(entries)[i])
    {
      FormEntryBytes(entries[i]);
    }
    JoinAgrees(form);
    FieldsBack(AllBytes(entries), AllBytes(form));
    DecodeEntriesOnly(AllBytes(entries), entries);
  }

  /** The value `+` comes back as a space. */
  lemma PlusFails()
    ensures Parse(JoinStrings([Entry([0x61], [0x2B])])) == Ok([Entry([0x61], [0x20])])
  {
    var entries := [Entry([0x61], [0x20])];
    assert SpacesAsPlus([0x61]) == [0x61] && SpacesAsPlus([0x20]) == [0x2B];
    assert FormEntries(entries) == [FormEntry(entries[0])] == [Entry([0x61], [0x2B])];
    assert !HasEscape([0x61]) && !HasEscape([0x20]);
    SpacesComeBack(entries);
  }

  /** Names and values without `&`, `+` and `%`, and names without `=`: empty ones included, these all come back. */
  lemma PlainFormRoundTrip(entries: seq<Entry<Str>>)
    requires AllWellFormed(entries)
    requires forall i :: 0 <= i < |entries| ==>
      Plain(entries[i].name) && EQUALS !in entries[i].name && Plain(entries[i].value)
    ensures Parse(JoinStrings(entries)) == Ok(entries)
  {
    FormRoundTrip(entries);
    forall i | 0 <= i < |entries| ensures Clean(entries[i]) {
      NoEscape(entries[i].name);
      NoEscape(entries[i].value);
    }
  }
}
