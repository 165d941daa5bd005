/** The UTF-8 half of the Buffer polyfill: `utf8ToBytes`, `utf8Slice` and what they promise each other. */
module BufferUtf8 {
  import opened Common
  import opened Unicode

  /** The `units` argument of `utf8ToBytes`: how many bytes the caller has room for. */
  datatype Budget = Unlimited | Left(bytes: int) {
    function Spend(k: nat): Budget { if Unlimited? then this else Left(bytes - k) }

    predicate Exhausted() { Left? && bytes < 0 }
  }

  /** `units || Infinity`: no budget and a budget of zero both mean no limit. */
  function BudgetOf(units: nat): Budget { if units == 0 then Unlimited else Left(units) }

  /** The longest prefix of `xs` whose encoding fits the budget. */
  function Fit(xs: seq<Scalar>, budget: Budget): seq<Scalar> {
    if xs == [] || budget.Spend(|Utf8Of(xs[0])|).Exhausted() then []
    else [xs[0]] + Fit(xs[1..], budget.Spend(|Utf8Of(xs[0])|))
  }

  predicate EndsInTwoLeads(s: seq<CodeUnit>) {
    |s| >= 2 && IsLead(s[|s| - 2]) && IsLead(s[|s| - 1])
  }

  /**
   The scalar values `utf8ToBytes` encodes: every unpaired surrogate becomes U+FFFD, except that
   the last of two trailing lead surrogates is still pending when the loop ends and is lost.
   */
  function Encoded(s: seq<CodeUnit>): seq<Scalar> {
    var xs := Scalars(s);
    if EndsInTwoLeads(s) && |xs| > 0 then xs[..|xs| - 1] else xs
  }

  // ---------- utf8ToBytes ----------

  lemma {:induction false} FitSnoc(xs: seq<Scalar>, x: Scalar, budget: Budget)
    ensures var after := budget.Spend(|Utf8(xs)|);
      Fit(xs + [x], budget) ==
        if after.Spend(|Utf8Of(x)|).Exhausted() then Fit(xs, budget) else xs + [x]
    ensures !budget.Spend(|Utf8(xs)|).Exhausted() && !budget.Exhausted() ==> Fit(xs, budget) == xs
  {
    if xs == [] {
    } else {
      assert (xs + [x])[1..] == xs[1..] + [x];
      FitSnoc(xs[1..], x, budget.Spend(|Utf8Of(xs[0])|));
    }
  }

  /** Once the budget has run out, nothing that follows changes what fitted. */
  lemma {:induction false} FitExhausted(xs: seq<Scalar>, more: seq<Scalar>, budget: Budget)
    requires budget.Spend(|Utf8(xs)|).Exhausted()
    requires !budget.Exhausted()
    ensures Fit(xs + more, budget) == Fit(xs, budget)
  {
    assert (xs + more)[1..] == xs[1..] + more;
    if !budget.Spend(|Utf8Of(xs[0])|).Exhausted() {
      FitExhausted(xs[1..], more, budget.Spend(|Utf8Of(xs[0])|));
    }
  }

  lemma Utf8Snoc(xs: seq<Scalar>, x: Scalar)
    ensures Utf8(xs + [x]) == Utf8(xs) + Utf8Of(x)
  {
    Utf8Append(xs, [x]);
  }

  /** The loop's budget and output once the scalar values `done` have been handled. */
  ghost predicate Wrote(done: seq<Scalar>, budget: Budget, left: Budget, bytes: seq<Byte>) {
    !budget.Exhausted() && left == budget.Spend(|Utf8(done)|) && bytes == Utf8(Fit(done, budget))
  }

  method PushReplacement(left: Budget, bytes: seq<Byte>, ghost done: seq<Scalar>,
    ghost todo: seq<Scalar>, ghost budget: Budget)
    returns (left': Budget, bytes': seq<Byte>, ghost done': seq<Scalar>, ghost todo': seq<Scalar>)
    requires Wrote(done, budget, left, bytes) && |todo| > 0 && todo[0] == 0xFFFD
    ensures Wrote(done', budget, left', bytes')
    ensures done' + todo' == done + todo && todo' == todo[1..]
  {
    hide Fit, Utf8;
    FitSnoc(done, 0xFFFD, budget);
    Utf8Snoc(done, 0xFFFD);
    done', todo' := done + [0xFFFD], todo[1..];
    left', bytes' := left.Spend(3), bytes;
    if !left'.Exhausted() {
      bytes' := bytes' + [0xEF, 0xBF, 0xBD];
    }
  }

  method PushCodePoint(codePoint: Scalar, left: Budget, bytes: seq<Byte>,
      ghost done: seq<Scalar>, ghost todo: seq<Scalar>, ghost budget: Budget)
    returns (left': Budget, bytes': seq<Byte>, ghost done': seq<Scalar>, ghost todo': seq<Scalar>)
    requires Wrote(done, budget, left, bytes) && |todo| > 0 && todo[0] == codePoint
    ensures Wrote(done', budget, left', bytes')
    ensures done' + todo' == done + todo && todo' == todo[1..]
  {
    hide Fit, Utf8;
    FitSnoc(done, codePoint, budget);
    Utf8Snoc(done, codePoint);
    done', todo' := done + [codePoint], todo[1..];
    var octets: seq<Byte>;
    if codePoint < 0x80 {
      octets := [codePoint];
    } else if codePoint < 0x800 {
      octets := [codePoint / 0x40 + 0xC0, codePoint % 0x40 + 0x80];
    } else if codePoint < 0x1_0000 {
      octets := [codePoint / 0x1000 + 0xE0, codePoint / 0x40 % 0x40 + 0x80, codePoint % 0x40 + 0x80];
    } else {
      octets := [codePoint / 0x4_0000 + 0xF0, codePoint / 0x1000 % 0x40 + 0x80,
                 codePoint / 0x40 % 0x40 + 0x80, codePoint % 0x40 + 0x80];
    }
    left', bytes' := left.Spend(|octets|), bytes;
    if !left'.Exhausted() {
      bytes' := bytes' + octets;
    }
  }

  /** One step of reading `text` as scalar values. */
  lemma NextScalar(text: seq<CodeUnit>, i: nat)
    requires i < |text|
    ensures var here := Scalars(text[i..]);
      |here| > 0 &&
      if IsLead(text[i]) && i + 1 < |text| && IsTrail(text[i + 1]) then
        here[0] == Pair(text[i], text[i + 1]) && here[1..] == Scalars(text[i + 2..])
      else
        here[0] == (if IsLead(text[i]) || IsTrail(text[i]) then 0xFFFD else text[i]) &&
        here[1..] == Scalars(text[i + 1..])
  {
    assert text[i..][1..] == text[i + 1..];
    if i + 1 < |text| {
      assert text[i..][2..] == text[i + 2..];
    }
  }

  /** Where the loop breaks off, the scalar values not yet read cannot add anything. */
  lemma FitPrefix(text: seq<CodeUnit>, i: nat, done: seq<Scalar>, budget: Budget)
    requires 0 < i <= |text| && !IsLead(text[i - 1])
    requires Scalars(text) == done + Scalars(text[i..])
    requires budget.Spend(|Utf8(done)|).Exhausted() && !budget.Exhausted()
    ensures Fit(Encoded(text), budget) == Fit(done, budget)
  {
    var more := Scalars(text[i..]);
    if EndsInTwoLeads(text) {
      more := more[..|more| - 1];
    }
    assert Encoded(text) == done + more;
    FitExhausted(done, more, budget);
  }

  lemma {:induction false} FitUnlimited(xs: seq<Scalar>)
    ensures Fit(xs, Unlimited) == xs
  {
    if xs != [] {
      FitUnlimited(xs[1..]);
    }
  }

  /** The budget cuts the encoding off at a character, as late as the budget allows. */
  lemma {:induction false} FitIsLongestPrefix(xs: seq<Scalar>, units: nat)
    ensures var ys := Fit(xs, Left(units));
      ys <= xs && |Utf8(ys)| <= units && (|ys| < |xs| ==> |Utf8(ys)| + |Utf8Of(xs[|ys|])| > units)
  {
    if xs != [] && |Utf8Of(xs[0])| <= units {
      FitIsLongestPrefix(xs[1..], units - |Utf8Of(xs[0])|);
    }
  }

  /** What a limit of `units` bytes leaves of the encoding: all of it, or as many characters as there is room for. */
  lemma WithinLimit(xs: seq<Scalar>, units: nat)
    ensures var bytes := Utf8(Fit(xs, BudgetOf(units)));
      if units == 0 || |Utf8(xs)| <= units then bytes == Utf8(xs)
      else exists n :: 0 <= n < |xs| && bytes == Utf8(xs[..n]) && |bytes| <= units < |bytes| + |Utf8Of(xs[n])|
  {
    if units == 0 {
      FitUnlimited(xs);
    } else {
      FitIsLongestPrefix(xs, units);
      var n := |Fit(xs, Left(units))|;
      assert Fit(xs, Left(units)) == xs[..n];
      if n < |xs| {
        assert xs == xs[..n] + [xs[n]] + xs[n + 1..];
        Utf8Append(xs[..n] + [xs[n]], xs[n + 1..]);
        Utf8Snoc(xs[..n], xs[n]);
      } else {
        assert xs[..n] == xs;
      }
    }
  }

  /** The loop of `utf8ToBytes`. */
  method EncodeUnits(text: seq<CodeUnit>, units: nat) returns (bytes: seq<Byte>)
    ensures bytes == Utf8(Fit(Encoded(text), BudgetOf(units)))
  {    ghost var budget := BudgetOf(units);
    // the scalar values handled and not handled yet
    ghost var done: seq<Scalar>, todo: seq<Scalar> := [], Scalars(text);
    var left := BudgetOf(units);
    var lead: Option<CodeUnit> := None;
    bytes := [];
    var i := 0;
    while i < |text|
      invariant 0 <= i <= |text|
      invariant Wrote(done, budget, left, bytes)
      invariant lead.Some? ==> i > 0 && IsLead(text[i - 1]) && lead.value == text[i - 1]
      invariant lead.Some? && i == |text| ==> EndsInTwoLeads(text)
      invariant lead.None? && i == |text| ==> !EndsInTwoLeads(text)
      invariant lead.None? && 0 < i < |text| ==> !IsLead(text[i - 1])
      invariant todo == Scalars(text[if lead.Some? then i - 1 else i..])
      invariant Scalars(text) == done + todo
    {
      var codePoint: int := text[i];
      NextScalar(text, i);
      if lead.Some? {
        NextScalar(text, i - 1);
      }
      i := i + 1;

      if 0xD7FF < codePoint < 0xE000 {
        if lead.None? {
          if codePoint > 0xDBFF || i == |text| {
            left, bytes, done, todo := PushReplacement(left, bytes, done, todo, budget);
            continue;
          }
          lead := Some(codePoint);
          continue;
        }
        if codePoint < 0xDC00 {
          left, bytes, done, todo := PushReplacement(left, bytes, done, todo, budget);
          lead := Some(codePoint);
          continue;
        }
        codePoint := (lead.value - 0xD800) * 0x400 + (codePoint - 0xDC00) + 0x1_0000;
      } else {
        if lead.Some? {
          left, bytes, done, todo := PushReplacement(left, bytes, done, todo, budget);
        }
      }
      lead := None;

      left, bytes, done, todo := PushCodePoint(codePoint, left, bytes, done, todo, budget);
      if left.Exhausted() {
        FitPrefix(text, i, done, budget);
        return;
      }
    }
    if lead.Some? {
      NextScalar(text, i - 1);
      assert Encoded(text) == done;
    } else {
      assert done + todo == done;
    }
  }

  /** `utf8ToBytes`; `units` is the number of bytes there is room for, and 0 is no limit. */
  method Utf8ToBytes(text: seq<CodeUnit>, units: nat) returns (bytes: seq<Byte>)
    ensures bytes == Utf8(Fit(Encoded(text), BudgetOf(units)))
    ensures var xs := Encoded(text);
      if units == 0 || |Utf8(xs)| <= units then bytes == Utf8(xs)
      else exists n :: 0 <= n < |xs| && bytes == Utf8(xs[..n]) && |bytes| <= units < |bytes| + |Utf8Of(xs[n])|
  {
    hide Utf8, Encoded, Fit, BudgetOf, Utf8Of;
    bytes := EncodeUnits(text, units);
    WithinLimit(Encoded(text), units);
  }

  // ---------- utf8Slice ----------

  /** What `utf8Slice` makes of the bytes between its bounds. */
  function FromBytes(b: seq<Byte>): seq<CodeUnit> { Utf16(Decode8(b)) }

  lemma TailByte(b: Byte)
    ensures b / 0x40 == 2 <==> IsTail(b)
    ensures IsTail(b) ==> b % 0x40 == TailBits(b)
  {
  }

  lemma TwoBytes(b0: Byte, b1: Byte)
    requires 0xC0 <= b0 <= 0xDF && IsTail(b1)
    ensures var temp := b0 % 0x20 * 0x40 + b1 % 0x40;
      temp == (b0 - 0xC0) * 0x40 + TailBits(b1) && (temp > 0x7F <==> b0 >= 0xC2)
  {
  }

  lemma ThreeBytes(b0: Byte, b1: Byte, b2: Byte)
    requires 0xE0 <= b0 <= 0xEF && IsTail(b1) && IsTail(b2)
    ensures var temp := b0 % 0x10 * 0x1000 + b1 % 0x40 * 0x40 + b2 % 0x40;
      && temp == (b0 - 0xE0) * 0x1000 + TailBits(b1) * 0x40 + TailBits(b2)
      && (temp > 0x7FF <==> b0 > 0xE0 || b1 >= 0xA0)
      && (temp < 0xD800 || temp > 0xDFFF <==> b0 != 0xED || b1 <= 0x9F)
  {
    TailByte(b1);
    TailByte(b2);
  }

  lemma FourBytes(b0: Byte, b1: Byte, b2: Byte, b3: Byte)
    requires 0xF0 <= b0 && IsTail(b1) && IsTail(b2) && IsTail(b3)
    ensures var temp := b0 % 0x10 * 0x4_0000 + b1 % 0x40 * 0x1000 + b2 % 0x40 * 0x40 + b3 % 0x40;
      && temp == (b0 - 0xF0) * 0x4_0000 + TailBits(b1) * 0x1000 + TailBits(b2) * 0x40 + TailBits(b3)
      && (temp > 0xFFFF <==> b0 > 0xF0 || b1 >= 0x90)
      && (temp < 0x11_0000 <==> b0 < 0xF4 || (b0 == 0xF4 && b1 <= 0x8F))
  {
    TailByte(b1);
    TailByte(b2);
    TailByte(b3);
  }

  /** The grammar by the first byte, with the numbers the program computes. */
  lemma ShortByLead(b: seq<Byte>)
    requires b != [] && b[0] <= 0xDF
    ensures b[0] < 0x80 ==> CharLength(b) == 1 && CharValue(b) == b[0]
    ensures 0x80 <= b[0] < 0xC0 ==> CharLength(b) == 0
    ensures b[0] >= 0xC0 && |b| == 1 ==> CharLength(b) == 0
    ensures b[0] >= 0xC0 && |b| >= 2 ==>
      var b0: int, b1: int := b[0], b[1];
      var temp := b0 % 0x20 * 0x40 + b1 % 0x40;
      && CharLength(b) == (if b1 / 0x40 == 2 && temp > 0x7F then 2 else 0)
      && (CharLength(b) > 0 ==> CharValue(b) == temp)
  {
    if b[0] >= 0xC0 && |b| >= 2 {
      TailByte(b[1]);
      if IsTail(b[1]) {
        TwoBytes(b[0], b[1]);
      }
    }
  }

  lemma ThreeByLead(b: seq<Byte>)
    requires b != [] && 0xE0 <= b[0] <= 0xEF
    ensures |b| < 3 ==> CharLength(b) == 0
    ensures |b| >= 3 ==>
      var b0: int, b1: int, b2: int := b[0], b[1], b[2];
      var temp := b0 % 0x10 * 0x1000 + b1 % 0x40 * 0x40 + b2 % 0x40;
      && CharLength(b) ==
         (if b1 / 0x40 == 2 && b2 / 0x40 == 2 && temp > 0x7FF && (temp < 0xD800 || temp > 0xDFFF) then 3 else 0)
      && (CharLength(b) > 0 ==> CharValue(b) == temp)
  {
    if |b| >= 3 {
      TailByte(b[1]);
      TailByte(b[2]);
      if IsTail(b[1]) && IsTail(b[2]) {
        ThreeBytes(b[0], b[1], b[2]);
      }
    }
  }

  lemma FourByLead(b: seq<Byte>)
    requires b != [] && b[0] >= 0xF0
    ensures |b| < 4 ==> CharLength(b) == 0
    ensures |b| >= 4 ==>
      var b0: int, b1: int, b2: int, b3: int := b[0], b[1], b[2], b[3];
      var temp := b0 % 0x10 * 0x4_0000 + b1 % 0x40 * 0x1000 + b2 % 0x40 * 0x40 + b3 % 0x40;
      && CharLength(b) ==
         (if b1 / 0x40 == 2 && b2 / 0x40 == 2 && b3 / 0x40 == 2 && temp > 0xFFFF && temp < 0x11_0000 then 4 else 0)
      && (CharLength(b) > 0 ==> CharValue(b) == temp)
  {
    if |b| >= 4 {
      TailByte(b[1]);
      TailByte(b[2]);
      TailByte(b[3]);
      if IsTail(b[1]) && IsTail(b[2]) && IsTail(b[3]) {
        FourBytes(b[0], b[1], b[2], b[3]);
      }
    }
  }

  /**
   The body of the decoding loop: it accepts a sequence at `i` exactly when section 4 of RFC 3629
   does, although it tests the decoded number instead of the ranges of the individual bytes.
   */
  method DecodeAt(buf: array<Byte>, i: nat, end: nat) returns (codePoint: Option<Scalar>, bytesPerSequence: nat)
    requires i < end <= buf.Length
    ensures codePoint.Some? <==> CharLength(buf[i..end]) > 0
    ensures codePoint.Some? ==> bytesPerSequence == CharLength(buf[i..end]) && codePoint.value == CharValue(buf[i..end])
  {
    hide CharLength, CharValue;
    ghost var b := buf[i..end];
    if b[0] <= 0xDF {
      ShortByLead(b);
    } else if b[0] <= 0xEF {
      ThreeByLead(b);
    } else {
      FourByLead(b);
    }
    codePoint := None;
    var firstByte: int := buf[i];
    bytesPerSequence :=
      if firstByte > 0xEF then 4
      else if firstByte > 0xDF then 3
      else if firstByte > 0xBF then 2
      else 1;
    if i + bytesPerSequence > end {
      return;
    }
    var temp: int;
    if bytesPerSequence == 1 {
      if firstByte < 0x80 {
        codePoint := Some(firstByte);
      }
    } else if bytesPerSequence == 2 {
      var second: int := buf[i + 1];
      if second / 0x40 == 2 {
        temp := firstByte % 0x20 * 0x40 + second % 0x40;
        if temp > 0x7F {
          codePoint := Some(temp);
        }
      }
    } else if bytesPerSequence == 3 {
      var second: int, third: int := buf[i + 1], buf[i + 2];
      if second / 0x40 == 2 && third / 0x40 == 2 {
        temp := firstByte % 0x10 * 0x1000 + second % 0x40 * 0x40 + third % 0x40;
        if temp > 0x7FF && (temp < 0xD800 || temp > 0xDFFF) {
          codePoint := Some(temp);
        }
      }
    } else {
      var second: int, third: int, fourth: int := buf[i + 1], buf[i + 2], buf[i + 3];
      if second / 0x40 == 2 && third / 0x40 == 2 && fourth / 0x40 == 2 {
        temp := firstByte % 0x10 * 0x4_0000 + second % 0x40 * 0x1000 + third % 0x40 * 0x40 + fourth % 0x40;
        if temp > 0xFFFF && temp < 0x11_0000 {
          codePoint := Some(temp);
        }
      }
    }
  }

  /** The scalar value at the front of `b` and the number of bytes it takes up. */
  function FrontOf(b: seq<Byte>): (r: (Scalar, nat))
    requires b != []
    ensures 0 < r.1 <= |b|
  {
    if CharLength(b) > 0 then (CharValue(b), CharLength(b)) else (0xFFFD, 1)
  }

  lemma DecodeFront(b: seq<Byte>)
    requires b != []
    ensures Decode8(b) == [FrontOf(b).0] + Decode8(b[FrontOf(b).1..])
  {
  }

  lemma Utf16Front(x: Scalar, xs: seq<Scalar>)
    ensures Utf16([x] + xs) == Utf16Of(x) + Utf16(xs)
  {
    assert ([x] + xs)[1..] == xs;
  }

  lemma DecodeStep(res: seq<CodeUnit>, b: seq<Byte>)
    requires b != []
    ensures var (x, k) := FrontOf(b);
      res + Utf16(Decode8(b)) == (res + Utf16Of(x)) + Utf16(Decode8(b[k..]))
  {
    hide FrontOf, Decode8, Utf16, Utf16Of;
    DecodeFront(b);
    Utf16Front(FrontOf(b).0, Decode8(b[FrontOf(b).1..]));
  }

  method PushUnits(res: seq<CodeUnit>, codePoint: Scalar) returns (res': seq<CodeUnit>)
    ensures res' == res + Utf16Of(codePoint)
  {
    if codePoint > 0xFFFF {
      var c: int := codePoint - 0x1_0000;
      res' := res + [c / 0x400 % 0x400 + 0xD800];
      res' := res' + [0xDC00 + c % 0x400];
    } else {
      res' := res + [codePoint];
    }
  }

  /** One turn of the decoding loop: read at `i`, push one or two units, say how far to advance. */
  method SliceStep(buf: array<Byte>, i: nat, stop: nat, res: seq<CodeUnit>) returns (res': seq<CodeUnit>, step: nat)
    requires i < stop <= buf.Length
    ensures 0 < step <= stop - i
    ensures res + FromBytes(buf[i..stop]) == res' + FromBytes(buf[i + step..stop])
  {
    DecodeStep(res, buf[i..stop]);
    var codePoint, bytesPerSequence := DecodeAt(buf, i, stop);
    if codePoint.None? {
      codePoint, bytesPerSequence := Some(0xFFFD), 1;
    }
    assert buf[i..stop][bytesPerSequence..] == buf[i + bytesPerSequence..stop];
    res' := PushUnits(res, codePoint.value);
    step := bytesPerSequence;
  }

  /** `String.fromCharCode` in slices small enough for one call. */
  method DecodeCodePointsArray(codePoints: seq<CodeUnit>) returns (text: seq<CodeUnit>)
    ensures text == codePoints
  {
    if |codePoints| <= MAX_ARGUMENTS_LENGTH {
      return codePoints;
    }
    text := [];
    var i := 0;
    while i < |codePoints|
      invariant 0 <= i
      invariant text == if i <= |codePoints| then codePoints[..i] else codePoints
    {
      var next := i + MAX_ARGUMENTS_LENGTH;
      text := text + codePoints[i..if next < |codePoints| then next else |codePoints|];
      i := next;
    }
  }

  method Utf8Slice(buf: array<Byte>, start: nat, end: nat) returns (text: seq<CodeUnit>)
    ensures var stop := if end < buf.Length then end else buf.Length;
      text == if start < stop then FromBytes(buf[start..stop]) else []
  {
    var stop := if end < buf.Length then end else buf.Length;
    var res: seq<CodeUnit> := [];
    var i := start;
    while i < stop
      invariant start < stop ==> start <= i <= stop && FromBytes(buf[start..stop]) == res + FromBytes(buf[i..stop])
      invariant start >= stop ==> res == []
    {
      var step: nat;
      res, step := SliceStep(buf, i, stop, res);
      i := i + step;
    }
    text := DecodeCodePointsArray(res);
  }

  const MAX_ARGUMENTS_LENGTH := 0x1000

  // ---------- what the two directions promise each other ----------

  /** What `utf8ToBytes` computes when it has no budget. */
  function ToBytes(s: seq<CodeUnit>): seq<Byte> { Utf8(Fit(Encoded(s), BudgetOf(0))) }

  /** `s` with each surrogate that belongs to no pair replaced by U+FFFD, the other units left alone. */
  function Sanitized(s: seq<CodeUnit>): (r: seq<CodeUnit>)
    ensures |r| == |s|
  {
    if s == [] then []
    else if IsLead(s[0]) && |s| > 1 && IsTrail(s[1]) then s[..2] + Sanitized(s[2..])
    else if IsLead(s[0]) || IsTrail(s[0]) then [0xFFFD] + Sanitized(s[1..])
    else s[..1] + Sanitized(s[1..])
  }

  lemma {:induction false} SanitizedByScalars(s: seq<CodeUnit>)
    ensures Utf16(Scalars(s)) == Sanitized(s)
    ensures WellFormed16(s) ==> Sanitized(s) == s
  {
    if s != [] {
      if IsLead(s[0]) && |s| > 1 && IsTrail(s[1]) {
        SanitizedByScalars(s[2..]);
        assert Utf16Of(Pair(s[0], s[1])) == s[..2];
      } else {
        SanitizedByScalars(s[1..]);
        assert s[..1] + s[1..] == s;
      }
    }
  }

  /** A string that ends in two leads is not well-formed, and its scalar values end in a replacement. */
  lemma {:induction false} LastScalar(s: seq<CodeUnit>)
    requires |s| > 0 && IsLead(s[|s| - 1])
    ensures !WellFormed16(s)
    ensures |Scalars(s)| > 0
  {
    if |s| > 1 {
      if IsLead(s[0]) && IsTrail(s[1]) {
        LastScalar(s[2..]);
      } else {
        LastScalar(s[1..]);
      }
    }
  }

  /** A string survives `utf8Slice(utf8ToBytes(s))`, unpaired surrogates aside, iff it does not end in two leads. */
  lemma Utf8RoundTrip(s: seq<CodeUnit>)
    ensures FromBytes(ToBytes(s)) == Sanitized(s) <==> !EndsInTwoLeads(s)
    ensures WellFormed16(s) ==> FromBytes(ToBytes(s)) == s
  {
    FitUnlimited(Encoded(s));
    Utf8ThenDecode(Encoded(s));
    SanitizedByScalars(s);
    if EndsInTwoLeads(s) {
      LastScalar(s);
      var xs := Scalars(s);
      Utf16Append(xs[..|xs| - 1], xs[|xs| - 1..]);
      assert xs == xs[..|xs| - 1] + xs[|xs| - 1..];
    }
  }

  /** Of two lead surrogates the second is lost: one U+FFFD comes back for them. */
  lemma TwoLeadsFail()
    ensures FromBytes(ToBytes([0xD800, 0xD801])) != Sanitized([0xD800, 0xD801])
  {
    Utf8RoundTrip([0xD800, 0xD801]);
  }

  /** What is decoded is well-formed UTF-16, whatever the bytes; encoding it returns the bytes iff they were UTF-8. */
  lemma DecodeThenEncode(b: seq<Byte>)
    ensures WellFormed16(FromBytes(b))
    ensures ToBytes(FromBytes(b)) == b <==> WellFormed8(b)
  {
    var s := FromBytes(b);
    Utf16ThenScalars(Decode8(b));
    if EndsInTwoLeads(s) {
      LastScalar(s);
    }
    FitUnlimited(Encoded(s));
    DecodeThenUtf8(b);
  }
}
