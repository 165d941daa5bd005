/**
 Punycode (RFC 3492): the encoder of the runtime's `punycode` module, proved against the
 decoding procedure of section 6.2 of RFC 3492.
 */
module Punycode {
  import opened Common
  import opened Unicode

  const MAX_INT := 0x7FFF_FFFF
  const BASE := 36
  const T_MIN := 1
  const T_MAX := 26
  const SKEW := 38
  const DAMP := 700
  const INITIAL_BIAS := 72
  const INITIAL_N := 128
  const DELIMITER: int := 0x2D
  const BASE_MINUS_T_MIN := BASE - T_MIN

  /** What `ucs2decode` produces: scalar values and unpaired surrogates. */
  type CodePoint = x: int | 0 <= x < 0x11_0000

  type Digit = d: int | 0 <= d < BASE

  datatype Error = Overflow

  // ---------- digits ----------

  function BasicToDigit(codePoint: int): int {
    if codePoint - 0x30 < 0x0A then codePoint - 0x16
    else if codePoint - 0x41 < 0x1A then codePoint - 0x41
    else if codePoint - 0x61 < 0x1A then codePoint - 0x61
    else BASE
  }

  function DigitToBasic(digit: int, flag: bool): int {
    digit + 22 + 75 * (if digit < 26 then 1 else 0) - (if flag then 32 else 0)
  }

  /** Section 5 of RFC 3492: the digit a basic code point stands for, BASE if it stands for none. */
  function DigitOf(codePoint: int): int {
    if 0x30 <= codePoint <= 0x39 then codePoint - 0x30 + 26
    else if 0x41 <= codePoint <= 0x5A then codePoint - 0x41
    else if 0x61 <= codePoint <= 0x7A then codePoint - 0x61
    else BASE
  }

  /** `digitToBasic` is undone by `basicToDigit` for every lower-case digit, and in upper case for letters only. */
  lemma DigitRoundTrip(digit: Digit, flag: bool)
    ensures BasicToDigit(DigitToBasic(digit, flag)) == digit <==> !flag || digit < 26
    ensures !flag ==> DigitOf(DigitToBasic(digit, flag)) == digit && DigitToBasic(digit, flag) != DELIMITER
  {
  }

  /** `basicToDigit` subtracts without testing a lower bound, so below `z` it is right on letters and digits only. */
  lemma BasicToDigitExact(codePoint: nat)
    ensures BasicToDigit(codePoint) == DigitOf(codePoint) <==> DigitOf(codePoint) < BASE || codePoint > 0x7A
  {
  }

  /** The digits of section 5 of RFC 3492 by their characters, and what `basicToDigit` makes of the others up to `z`. */
  lemma DigitsInCharacters(d: nat)
    ensures d < 26 ==> DigitOf('A' as int + d) == DigitOf('a' as int + d) == d
    ensures d < 10 ==> DigitOf('0' as int + d) == 26 + d
    ensures d < '0' as int || 'z' as int < d || 'Z' as int < d < 'a' as int || '9' as int < d < 'A' as int ==>
      DigitOf(d) == 36
    ensures d < '0' as int ==> BasicToDigit(d) == d - 22
    ensures '9' as int < d < 'A' as int ==> BasicToDigit(d) == d - 'A' as int
    ensures 'Z' as int < d < 'a' as int ==> BasicToDigit(d) == d - 'a' as int
  {
  }

  /** A colon, which is no digit, comes out as -7. */
  lemma BasicToDigitFails()
    ensures DigitOf(0x3A) == BASE && BasicToDigit(0x3A) == -7
  {
  }

  // ---------- section 3.4: bias adaptation ----------

  function AdaptLoop(delta: nat, k: nat): nat {
    if delta > BASE_MINUS_T_MIN * T_MAX / 2 then AdaptLoop(delta / BASE_MINUS_T_MIN, k + BASE)
    else k + FloorDiv((BASE_MINUS_T_MIN + 1) * delta, delta + SKEW)
  }

  /** The bias after a delta, as section 3.4 of RFC 3492 computes it. */
  function Bias(delta: nat, numPoints: nat, firstTime: bool): nat
    requires numPoints > 0
  {
    var scaled := if firstTime then delta / DAMP else delta / 2;
    AdaptLoop(scaled + FloorDiv(scaled, numPoints), 0)
  }

  lemma MulMonotone(a: nat, b: nat, q: nat)
    requires a <= b
    ensures a * q <= b * q
  {
  }

  lemma DivMod(x: nat, b: nat)
    requires b > 0
    ensures x == b * (x / b) + x % b && x % b < b
  {
  }

  function Power35(n: nat): (p: nat)
    ensures p > 0
  {
    if n == 0 then 1 else 35 * Power35(n - 1)
  }

  lemma Regroup(x: nat, a: nat, b: nat, y: nat, m: nat, q: nat, r: nat)
    requires x == a * y + m && m < a && y == b * q + r && r < b
    ensures x == (a * b) * q + (a * r + m) && 0 <= a * r + m < a * b
  {
    assert a * (b * q) == (a * b) * q && a * (b * q + r) == a * (b * q) + a * r;
    MulMonotone(r + 1, b, a);
    assert (r + 1) * a == a * r + a;
  }

  lemma DivTwice(x: nat, a: nat, b: nat)
    requires a > 0 && b > 0
    ensures a * b > 0 && x / a / b == x / (a * b)
  {
    DivMod(x, a);
    DivMod(x / a, b);
    Regroup(x, a, b, x / a, x % a, x / a / b, x / a % b);
    DivUnique(x, a * b, x / a / b, a * (x / a % b) + x % a);
  }

  /** What the loop comes to: it divides by 35 until 455 is reached. */
  lemma {:induction false} AdaptLoopInNumbers(delta: nat, k: nat) returns (steps: nat)
    ensures var e := delta / Power35(steps);
      e <= 455 && (steps > 0 ==> delta / Power35(steps - 1) > 455)
      && AdaptLoop(delta, k) == k + 36 * steps + 36 * e / (e + 38)
  {
    if delta <= 455 {
      steps := 0;
    } else {
      var fewer := AdaptLoopInNumbers(delta / 35, k + 36);
      steps := fewer + 1;
      DivTwice(delta, 35, Power35(fewer));
      if fewer > 0 {
        DivTwice(delta, 35, Power35(fewer - 1));
      }
    }
  }

  /** The bias in closed form, with the parameters of section 5 of RFC 3492 as numbers. */
  lemma BiasInNumbers(delta: nat, numPoints: nat, firstTime: bool) returns (steps: nat)
    requires numPoints > 0
    ensures var scaled := if firstTime then delta / 700 else delta / 2;
      var d := scaled + FloorDiv(scaled, numPoints);
      var e := d / Power35(steps);
      e <= 455 && (steps > 0 ==> d / Power35(steps - 1) > 455)
      && Bias(delta, numPoints, firstTime) == 36 * steps + 36 * e / (e + 38)
  {
    hide AdaptLoop, Power35, FloorDiv;
    var scaled := if firstTime then delta / 700 else delta / 2;
    steps := AdaptLoopInNumbers(scaled + FloorDiv(scaled, numPoints), 0);
  }

  method Adapt(delta: nat, numPoints: nat, firstTime: bool) returns (bias: nat)
    requires numPoints > 0
    requires delta <= 0x7FFF_FFFF  // `delta >> 1` halves 32-bit integers only
    ensures bias == Bias(delta, numPoints, firstTime)
  {
    var k: nat := 0;
    var d: nat := if firstTime then delta / DAMP else delta / 2;
    d := d + FloorDiv(d, numPoints);
    while d > BASE_MINUS_T_MIN * T_MAX / 2
      invariant AdaptLoop(d, k) == Bias(delta, numPoints, firstTime)
    {
      d := d / BASE_MINUS_T_MIN;
      k := k + BASE;
    }
    bias := k + FloorDiv((BASE_MINUS_T_MIN + 1) * d, d + SKEW);
  }

  /**
   `encode` passes the number of code points handled when its inner loop began, not the number handled now.
   For every insertion after the first of that loop the delta is smaller than either, and the bias is the same.
   */
  lemma StaleCountIsHarmless(delta: nat, stale: nat, now: nat)
    requires delta < stale <= now
    ensures Bias(delta, stale, false) == Bias(delta, now, false)
  {
    assert FloorDiv(delta / 2, stale) == 0 == FloorDiv(delta / 2, now);
  }

  // ---------- section 3.3: generalized variable-length integers ----------

  function Threshold(k: int, bias: int): (t: int)
    ensures T_MIN <= t <= T_MAX
  {
    if k <= bias then T_MIN else if k >= bias + T_MAX then T_MAX else k - bias
  }

  /** The digits of `q` from position `k` on. */
  function VarInt(q: nat, k: int, bias: int): seq<Digit> {
    var t := Threshold(k, bias);
    if q < t then [q] else [t + (q - t) % (BASE - t)] + VarInt((q - t) / (BASE - t), k + BASE, bias)
  }

  /** The basic code points that spell the digits. */
  function Spell(digits: seq<Digit>): (s: seq<int>)
    ensures |s| == |digits|
    ensures forall j :: 0 <= j < |s| ==> s[j] == DigitToBasic(digits[j], false)
  {
    seq(|digits|, j requires 0 <= j < |digits| => DigitToBasic(digits[j], false))
  }

  /**
   The inner loop of section 6.2 of RFC 3492: consume digits of `s` from `pos`, adding to `i` with weight `w`.
   Returns the new `i` and position, or None on a code point that is no digit or at the end of the input.
   */
  function ReadVarInt(s: seq<int>, pos: nat, i: int, w: int, k: int, bias: int): (r: Option<(int, nat)>)
    requires pos <= |s|
    ensures r.Some? ==> pos < r.value.1 <= |s| && (w >= 0 ==> r.value.0 >= i)
    decreases |s| - pos
  {
    if pos == |s| || DigitOf(s[pos]) >= BASE then None
    else
      var digit := DigitOf(s[pos]);
      var t := Threshold(k, bias);
      assert w >= 0 ==> w * digit >= 0 && w * (BASE - t) >= 0;
      if digit < t then Some((i + w * digit, pos + 1))
      else ReadVarInt(s, pos + 1, i + w * digit, w * (BASE - t), k + BASE, bias)
  }

  lemma DigitAndRest(x: nat, b: nat, t: nat) returns (d: nat, q': nat)
    requires b > 0 && t > 0
    ensures d == t + x % b < t + b && q' == x / b && x + t == d + b * q' && q' < x + t
  {
    DivMod(x, b);
    d, q' := t + x % b, x / b;
    MulMonotone(1, b, q');
  }

  /** The first digit `d` of a number that needs more than one, and the number `q'` the other digits spell. */
  lemma VarIntUnfold(q: nat, k: int, bias: int) returns (d: Digit, q': nat)
    requires q >= Threshold(k, bias)
    ensures var t := Threshold(k, bias);
      d == t + (q - t) % (BASE - t) && q' == (q - t) / (BASE - t) &&
      q == d + (BASE - t) * q' && q' < q && VarInt(q, k, bias) == [d] + VarInt(q', k + BASE, bias)
  {
    var t := Threshold(k, bias);
    d, q' := DigitAndRest(q - t, BASE - t, t);
  }

  lemma VarIntFold(d: Digit, q': nat, k: int, bias: int)
    requires d >= Threshold(k, bias)
    ensures var q := d + (BASE - Threshold(k, bias)) * q';
      q >= d && VarInt(q, k, bias) == [d] + VarInt(q', k + BASE, bias)
  {
    var t := Threshold(k, bias);
    MulMonotone(1, BASE - t, q');
    DivUnique((BASE - t) * q' + (d - t), BASE - t, q', d - t);
  }

  lemma WeightedSum(i: int, w: int, b: int, q': int, d: int, q: int)
    requires q == d + b * q'
    ensures i + w * d + (w * b) * q' == i + w * q
  {
    assert (w * b) * q' == w * (b * q');
    assert w * (d + b * q') == w * d + w * (b * q');
  }

  /** Reading the digits of `q`, whatever precedes and follows them, adds `w * q` and stops right behind them. */
  lemma {:induction false} ReadVarIntInvertsVarInt(s: seq<int>, pos: nat, i: int, w: int, q: nat, k: int, bias: int)
    requires var n := |VarInt(q, k, bias)|;
      pos + n <= |s| && s[pos..pos + n] == Spell(VarInt(q, k, bias))
    ensures ReadVarInt(s, pos, i, w, k, bias) == Some((i + w * q, pos + |VarInt(q, k, bias)|))
    decreases q
  {
    var digits := VarInt(q, k, bias);
    assert s[pos] == s[pos..pos + |digits|][0] == DigitToBasic(digits[0], false);
    DigitRoundTrip(digits[0], false);
    if q >= Threshold(k, bias) {
      var d, q' := VarIntUnfold(q, k, bias);
      var b := BASE - Threshold(k, bias);
      assert s[pos + 1..pos + 1 + |digits[1..]|] == s[pos..pos + |digits|][1..] == Spell(digits[1..]);
      WeightedSum(i, w, b, q', d, q);
      ReadVarIntInvertsVarInt(s, pos + 1, i + w * d, w * b, q', k + BASE, bias);
    }
  }

  /** The code is exact: whatever digits are accepted, they are the digits of the number read. */
  lemma {:induction false} VarIntInvertsReadVarInt(s: seq<int>, pos: nat, i: int, w: int, k: int, bias: int)
    returns (q: nat)
    requires pos <= |s| && ReadVarInt(s, pos, i, w, k, bias).Some?
    ensures var (i', pos') := ReadVarInt(s, pos, i, w, k, bias).value;
      i' == i + w * q && pos' - pos == |VarInt(q, k, bias)| &&
      forall j :: pos <= j < pos' ==> DigitOf(s[j]) == VarInt(q, k, bias)[j - pos]
    decreases |s| - pos
  {
    var d := DigitOf(s[pos]);
    if d < Threshold(k, bias) {
      q := d;
    } else {
      var b := BASE - Threshold(k, bias);
      var q' := VarIntInvertsReadVarInt(s, pos + 1, i + w * d, w * b, k + BASE, bias);
      VarIntFold(d, q', k, bias);
      q := d + b * q';
      WeightedSum(i, w, b, q', d, q);
    }
  }

  // ---------- section 6.2: decoding ----------

  /** The state <n, i>, the bias and the output of the decoding procedure. */
  datatype Decoder = Decoder(n: int, i: nat, bias: int, out: seq<int>)

  function Initial(basics: seq<int>): Decoder { Decoder(INITIAL_N, 0, INITIAL_BIAS, basics) }

  /** What the procedure does once its inner loop has raised `i` to `i'`. */
  function Insert(st: Decoder, i': int): Decoder
    requires i' >= st.i
  {
    var size := |st.out| + 1;
    var at := i' % size;
    var n := st.n + i' / size;
    Decoder(n, at + 1, Bias(i' - st.i, size, st.i == 0), st.out[..at] + [n] + st.out[at..])
  }

  function Deltas(s: seq<int>, pos: nat, st: Decoder): Option<Decoder>
    requires pos <= |s|
    decreases |s| - pos
  {
    if pos == |s| then Some(st)
    else match ReadVarInt(s, pos, st.i, 1, BASE, st.bias)
      case None => None
      case Some((i', pos')) => Deltas(s, pos', Insert(st, i'))
  }

  function LastDelimiter(s: seq<int>): (d: int)
    ensures -1 <= d < |s|
  {
    if s == [] then -1 else if s[|s| - 1] == DELIMITER then |s| - 1 else LastDelimiter(s[..|s| - 1])
  }

  /** Section 6.2 of RFC 3492 on unbounded integers; None where it fails. */
  function Decode(s: seq<int>): Option<seq<int>> {
    var d := LastDelimiter(s);
    var basic := if d < 0 then 0 else d;
    if exists j :: 0 <= j < basic && s[j] >= INITIAL_N then None
    else match Deltas(s, if basic > 0 then basic + 1 else 0, Initial(s[..basic]))
      case None => None
      case Some(st) => Some(st.out)
  }

  lemma {:induction false} ReadVarIntAppend(s: seq<int>, more: seq<int>, pos: nat, i: int, w: int, k: int, bias: int)
    requires pos <= |s| && ReadVarInt(s, pos, i, w, k, bias).Some?
    ensures ReadVarInt(s + more, pos, i, w, k, bias) == ReadVarInt(s, pos, i, w, k, bias)
    decreases |s| - pos
  {
    var digit, t := DigitOf(s[pos]), Threshold(k, bias);
    if digit >= t {
      ReadVarIntAppend(s, more, pos + 1, i + w * digit, w * (BASE - t), k + BASE, bias);
    }
  }

  lemma {:induction false} DeltasAppend(s: seq<int>, more: seq<int>, pos: nat, st: Decoder)
    requires pos <= |s| && Deltas(s, pos, st).Some?
    ensures Deltas(s + more, pos, st) == Deltas(s + more, |s|, Deltas(s, pos, st).value)
    decreases |s| - pos
  {
    if pos < |s| {
      ReadVarIntAppend(s, more, pos, st.i, 1, BASE, st.bias);
      var (i', pos') := ReadVarInt(s, pos, st.i, 1, BASE, st.bias).value;
      DeltasAppend(s, more, pos', Insert(st, i'));
    }
  }

  /** Appending the digits of one delta makes the decoder perform one more insertion. */
  lemma DeltasSnoc(s: seq<int>, start: nat, st0: Decoder, delta: nat)
    requires start <= |s| && Deltas(s, start, st0).Some?
    ensures var st := Deltas(s, start, st0).value;
      Deltas(s + Spell(VarInt(delta, BASE, st.bias)), start, st0) == Some(Insert(st, st.i + delta))
  {
    hide Insert, VarInt, ReadVarInt, Spell, Bias;
    var st := Deltas(s, start, st0).value;
    var digits := Spell(VarInt(delta, BASE, st.bias));
    DeltasAppend(s, digits, start, st0);
    assert (s + digits)[|s|..|s| + |digits|] == digits;
    ReadVarIntInvertsVarInt(s + digits, |s|, st.i, 1, delta, BASE, st.bias);
  }

  lemma {:induction false} LastDelimiterIs(s: seq<int>, d: nat)
    requires d < |s| && s[d] == DELIMITER && forall j :: d < j < |s| ==> s[j] != DELIMITER
    ensures LastDelimiter(s) == d
  {
    if d < |s| - 1 {
      LastDelimiterIs(s[..|s| - 1], d);
    }
  }

  lemma {:induction false} NoDelimiter(s: seq<int>)
    requires forall j :: 0 <= j < |s| ==> s[j] != DELIMITER
    ensures LastDelimiter(s) == -1
  {
    if s != [] {
      NoDelimiter(s[..|s| - 1]);
    }
  }

  // ---------- a text has one encoding ----------

  /** The decoder's state when it has inserted with the given deltas. */
  function Run(st: Decoder, deltas: seq<nat>): Decoder
    decreases deltas
  {
    if deltas == [] then st else Run(Insert(st, st.i + deltas[0]), deltas[1..])
  }

  /** The code points that spell the deltas. */
  function Text(st: Decoder, deltas: seq<nat>): seq<int>
    decreases deltas
  {
    if deltas == [] then []
    else Spell(VarInt(deltas[0], BASE, st.bias)) + Text(Insert(st, st.i + deltas[0]), deltas[1..])
  }

  ghost predicate LowerFrom(s: seq<int>, pos: nat) {
    forall j :: pos <= j < |s| ==> !(0x41 <= s[j] <= 0x5A)
  }

  /** None of the digits is in upper case. */
  ghost predicate Lower(s: seq<int>) { LowerFrom(s, LastDelimiter(s) + 1) }

  lemma LowerDigit(c: int)
    requires DigitOf(c) < BASE && !(0x41 <= c <= 0x5A)
    ensures DigitToBasic(DigitOf(c), false) == c
  {
  }

  lemma ReadDigits(s: seq<int>, pos: nat, i: int, w: int, k: int, bias: int)
    requires pos <= |s| && ReadVarInt(s, pos, i, w, k, bias).Some?
    ensures forall j :: pos <= j < ReadVarInt(s, pos, i, w, k, bias).value.1 ==> DigitOf(s[j]) < BASE
    decreases |s| - pos
  {
    var digit, t := DigitOf(s[pos]), Threshold(k, bias);
    if digit >= t {
      ReadDigits(s, pos + 1, i + w * digit, w * (BASE - t), k + BASE, bias);
    }
  }

  lemma DeltasOnce(s: seq<int>, pos: nat, st: Decoder)
    requires pos < |s| && ReadVarInt(s, pos, st.i, 1, BASE, st.bias).Some?
    ensures var (i', pos') := ReadVarInt(s, pos, st.i, 1, BASE, st.bias).value;
      Deltas(s, pos, st) == Deltas(s, pos', Insert(st, i'))
  {
  }

  lemma DeltasRead(s: seq<int>, pos: nat, st: Decoder)
    requires pos < |s| && Deltas(s, pos, st).Some?
    ensures ReadVarInt(s, pos, st.i, 1, BASE, st.bias).Some?
  {
  }

  lemma TextEnd(s: seq<int>, st: Decoder)
    ensures Deltas(s, |s|, st) == Some(Run(st, [])) && Text(st, []) == []
  {
  }

  lemma RunOnce(st: Decoder, delta: nat, more: seq<nat>)
    ensures Run(st, [delta] + more) == Run(Insert(st, st.i + delta), more)
    ensures Text(st, [delta] + more) == Spell(VarInt(delta, BASE, st.bias)) + Text(Insert(st, st.i + delta), more)
  {
    hide Insert, Spell, VarInt;
    assert ([delta] + more)[1..] == more;
  }

  /** What is decoded is the spelling of some deltas. */
  lemma {:induction false} DeltasAreText(s: seq<int>, pos: nat, st: Decoder) returns (deltas: seq<nat>)
    requires pos <= |s| && Deltas(s, pos, st).Some? && LowerFrom(s, pos)
    ensures Deltas(s, pos, st) == Some(Run(st, deltas)) && s[pos..] == Text(st, deltas)
    decreases |s| - pos
  {
    hide Insert, VarInt, ReadVarInt, Run, Text, Deltas;
    deltas := [];
    TextEnd(s, st);
    if pos < |s| {
      DeltasRead(s, pos, st);
      DeltasOnce(s, pos, st);
      var (i', pos') := ReadVarInt(s, pos, st.i, 1, BASE, st.bias).value;
      var q := VarIntInvertsReadVarInt(s, pos, st.i, 1, BASE, st.bias);
      ReadDigits(s, pos, st.i, 1, BASE, st.bias);
      forall j | pos <= j < pos' ensures s[j] == Spell(VarInt(q, BASE, st.bias))[j - pos] {
        LowerDigit(s[j]);
      }
      assert s[pos..pos'] == Spell(VarInt(q, BASE, st.bias));
      var more := DeltasAreText(s, pos', Insert(st, i'));
      assert s[pos..] == s[pos..pos'] + s[pos'..];
      RunOnce(st, q, more);
      deltas := [q] + more;
    }
  }

  /** The decoder inserts in order: by value, and equal values from left to right. */
  ghost predicate Sorted(st: Decoder) {
    && st.i <= |st.out|
    && (forall j :: 0 <= j < |st.out| ==> st.out[j] < st.n || (st.out[j] == st.n && j < st.i))
  }

  lemma InRounds(x: nat, size: nat)
    requires size > 0
    ensures x == size * (x / size) + x % size && x % size < size
    ensures x / size == 0 ==> x % size == x
  {
  }

  lemma InsertPlaces(st: Decoder, i': int) returns (at: nat, rounds: nat)
    requires i' >= st.i
    ensures at <= |st.out| && (rounds == 0 ==> at == i')
    ensures var st' := Insert(st, i');
      st'.n == st.n + rounds && st'.i == at + 1 && st'.out == st.out[..at] + [st'.n] + st.out[at..]
  {
    InRounds(i', |st.out| + 1);
    at, rounds := i' % (|st.out| + 1), i' / (|st.out| + 1);
  }

  lemma PlacedSorted(st: Decoder, at: nat, n: int, out: seq<int>)
    requires Sorted(st) && at <= |st.out| && n >= st.n && (n == st.n ==> at >= st.i)
    requires out == st.out[..at] + [n] + st.out[at..]
    ensures forall j :: 0 <= j < |out| ==> out[j] < n || (out[j] == n && j < at + 1)
    ensures st.out == out[..at] + out[at + 1..]
  {
    forall j | 0 <= j < |out| ensures out[j] < n || (out[j] == n && j < at + 1) {
      assert out[j] == if j < at then st.out[j] else if j == at then n else st.out[j - 1];
    }
  }

  lemma InsertSorted(st: Decoder, delta: nat)
    requires Sorted(st)
    ensures var st' := Insert(st, st.i + delta);
      Sorted(st') && |st'.out| == |st.out| + 1 && 0 < st'.i && st'.out[st'.i - 1] == st'.n >= st.n
      && st.out == st'.out[..st'.i - 1] + st'.out[st'.i..]
  {
    hide Insert;
    var at, rounds := InsertPlaces(st, st.i + delta);
    var st' := Insert(st, st.i + delta);
    PlacedSorted(st, at, st.n + rounds, st'.out);
  }

  lemma {:induction false} RunSnoc(st: Decoder, deltas: seq<nat>, delta: nat)
    ensures Run(st, deltas + [delta]) == var st' := Run(st, deltas); Insert(st', st'.i + delta)
    decreases deltas
  {
    hide Insert;
    if deltas == [] {
      assert (deltas + [delta])[1..] == [];
    } else {
      assert (deltas + [delta])[1..] == deltas[1..] + [delta];
      RunSnoc(Insert(st, st.i + deltas[0]), deltas[1..], delta);
    }
  }

  lemma {:induction false} RunSorted(st: Decoder, deltas: seq<nat>)
    requires Sorted(st)
    ensures Sorted(Run(st, deltas)) && |Run(st, deltas).out| == |st.out| + |deltas| && Run(st, deltas).n >= st.n
    decreases deltas
  {
    if deltas != [] {
      InsertSorted(st, deltas[0]);
      RunSorted(Insert(st, st.i + deltas[0]), deltas[1..]);
    }
  }

  /** The last insertion can be read off the output: the rightmost of the greatest values. */
  lemma SameLast(st: Decoder, st': Decoder)
    requires Sorted(st) && Sorted(st') && st.out == st'.out && st.i > 0 && st'.i > 0
    requires st.out[st.i - 1] == st.n && st'.out[st'.i - 1] == st'.n
    ensures st.n == st'.n && st.i == st'.i
  {
  }

  lemma SameDelta(st: Decoder, d: nat, d': nat)
    requires (st.i + d) % (|st.out| + 1) == (st.i + d') % (|st.out| + 1)
    requires (st.i + d) / (|st.out| + 1) == (st.i + d') / (|st.out| + 1)
    ensures d == d'
  {
    InRounds(st.i + d, |st.out| + 1);
    InRounds(st.i + d', |st.out| + 1);
  }

  ghost predicate Basic(s: seq<int>) {
    forall j :: 0 <= j < |s| ==> s[j] < INITIAL_N
  }

  lemma InitialSorted(basics: seq<int>)
    requires Basic(basics)
    ensures Sorted(Initial(basics))
  {
  }

  lemma InsertState(st: Decoder, i': int)
    requires i' >= st.i
    ensures Insert(st, i').i == i' % (|st.out| + 1) + 1 && Insert(st, i').n == st.n + i' / (|st.out| + 1)
  {
  }

  lemma LastInserted(basics: seq<int>, deltas: seq<nat>)
    requires Basic(basics) && deltas != []
    ensures var front, d := Run(Initial(basics), deltas[..|deltas| - 1]), deltas[|deltas| - 1];
      var st := Run(Initial(basics), deltas);
      && Sorted(front) && Sorted(st)
      && st.i == (front.i + d) % (|front.out| + 1) + 1 && st.n == front.n + (front.i + d) / (|front.out| + 1)
      && st.n >= INITIAL_N && 0 < st.i && st.out[st.i - 1] == st.n
      && front.out == st.out[..st.i - 1] + st.out[st.i..]
  {
    hide Run, Sorted, Insert;
    var k := |deltas| - 1;
    var st0, front := Initial(basics), deltas[..k];
    assert deltas == front + [deltas[k]];
    InitialSorted(basics);
    RunSnoc(st0, front, deltas[k]);
    RunSorted(st0, front);
    RunSorted(st0, deltas);
    InsertSorted(Run(st0, front), deltas[k]);
    InsertState(Run(st0, front), Run(st0, front).i + deltas[k]);
  }

  lemma RunNothing(basics: seq<int>)
    ensures Run(Initial(basics), []).out == basics
  {
  }

  /** What leads to the same output is the same, basic code points and deltas. */
  lemma {:induction false} OneRun(basics: seq<int>, deltas: seq<nat>, basics': seq<int>, deltas': seq<nat>)
    requires Basic(basics) && Basic(basics')
    requires Run(Initial(basics), deltas).out == Run(Initial(basics'), deltas').out
    ensures basics == basics' && deltas == deltas'
    decreases |deltas|
  {
    hide Insert, Run;
    RunNothing(basics);
    RunNothing(basics');
    if deltas != [] {
      LastInserted(basics, deltas);
    }
    if deltas' != [] {
      LastInserted(basics', deltas');
    }
    if deltas != [] && deltas' != [] {
      var k, k' := |deltas| - 1, |deltas'| - 1;
      SameLast(Run(Initial(basics), deltas), Run(Initial(basics'), deltas'));
      OneRun(basics, deltas[..k], basics', deltas'[..k']);
      SameDelta(Run(Initial(basics), deltas[..k]), deltas[k], deltas'[k']);
      assert deltas == deltas[..k] + [deltas[k]] && deltas' == deltas'[..k'] + [deltas'[k']];
    }
  }

  lemma NoDigit(s: seq<int>)
    requires s != [] && s[0] == DELIMITER
    ensures Deltas(s, 0, Initial([])) == None
  {
  }

  lemma FoundDelimiter(s: seq<int>)
    ensures LastDelimiter(s) >= 0 ==> s[LastDelimiter(s)] == DELIMITER
  {
  }

  /** The text in its two parts. */
  lemma DecodeParts(s: seq<int>) returns (basics: seq<int>, deltas: seq<nat>)
    requires Decode(s).Some? && Lower(s)
    ensures Basic(basics) && Decode(s) == Some(Run(Initial(basics), deltas).out)
    ensures s == basics + (if basics == [] then [] else [DELIMITER]) + Text(Initial(basics), deltas)
  {
    var d := LastDelimiter(s);
    FoundDelimiter(s);
    hide ReadVarInt, Run, Text, Insert, LastDelimiter;
    if d > 0 {
      basics := s[..d];
      deltas := DeltasAreText(s, d + 1, Initial(basics));
      assert s == s[..d] + [s[d]] + s[d + 1..];
    } else {
      basics := [];
      assert s[..0] == [] && s[0..] == s;
      if d == 0 {
        NoDigit(s);
      }
      deltas := DeltasAreText(s, 0, Initial([]));
    }
  }

  /** Two texts without upper-case digits that decode to the same code points are the same text. */
  lemma OneEncoding(s: seq<int>, s': seq<int>)
    requires Decode(s).Some? && Decode(s) == Decode(s')
    requires Lower(s) && Lower(s')
    ensures s == s'
  {
    var basics, deltas := DecodeParts(s);
    var basics', deltas' := DecodeParts(s');
    OneRun(basics, deltas, basics', deltas');
  }

  // ---------- section 6.3: encoding ----------

  /** The code points of `s` below `bound`, in order. */
  function Below(s: seq<CodePoint>, bound: int): (r: seq<CodePoint>)
    ensures |r| <= |s|
  {
    if s == [] then []
    else Below(s[..|s| - 1], bound) + if s[|s| - 1] < bound then [s[|s| - 1]] else []
  }

  lemma {:induction false} BelowCons(s: seq<CodePoint>, bound: int)
    requires s != []
    ensures Below(s, bound) == (if s[0] < bound then [s[0]] else []) + Below(s[1..], bound)
  {
    if |s| > 1 {
      BelowCons(s[..|s| - 1], bound);
      assert s[..|s| - 1][1..] == s[1..][..|s| - 2];
    }
  }

  lemma {:induction false} BelowAll(s: seq<CodePoint>, bound: int)
    ensures (forall j :: 0 <= j < |s| ==> s[j] < bound) <==> |Below(s, bound)| == |s|
    ensures |Below(s, bound)| == |s| ==> Below(s, bound) == s
    ensures forall j :: 0 <= j < |Below(s, bound)| ==> Below(s, bound)[j] < bound
  {
    if s != [] {
      BelowAll(s[..|s| - 1], bound);
    }
  }

  lemma {:induction false} BelowGap(s: seq<CodePoint>, n: int, m: int)
    requires n <= m && forall j :: 0 <= j < |s| ==> s[j] < n || s[j] >= m
    ensures Below(s, n) == Below(s, m)
  {
    if s != [] {
      BelowGap(s[..|s| - 1], n, m);
    }
  }

  lemma {:induction false} BelowMonotone(s: seq<CodePoint>, c: nat, bound: int)
    requires c <= |s|
    ensures |Below(s[..c], bound)| <= |Below(s, bound)|
  {
    if c == |s| {
      assert s[..c] == s;
    } else {
      BelowMonotone(s[..|s| - 1], c, bound);
      assert s[..|s| - 1][..c] == s[..c];
    }
  }

  /** What has been handled when the inner loop for `n` is at position `c`: all below `n`, and `n` itself before `c`. */
  function Handled(s: seq<CodePoint>, n: int, c: nat): seq<CodePoint>
    requires c <= |s|
  {
    Below(s[..c], n + 1) + Below(s[c..], n)
  }

  /** Where among the handled code points position `c` of the input falls. */
  function Place(s: seq<CodePoint>, n: int, c: nat): nat
    requires c <= |s|
  {
    |Below(s[..c], n + 1)|
  }

  lemma BelowSnoc(s: seq<CodePoint>, c: nat, bound: int)
    requires c < |s|
    ensures Below(s[..c + 1], bound) == Below(s[..c], bound) + if s[c] < bound then [s[c]] else []
  {
    assert s[..c + 1][..c] == s[..c];
  }

  lemma HandledStep(s: seq<CodePoint>, n: int, c: nat)
    requires c < |s|
    ensures Place(s, n, c + 1) == Place(s, n, c) + if s[c] <= n then 1 else 0
    ensures var before, at := Handled(s, n, c), Place(s, n, c);
      at <= |before| && Handled(s, n, c + 1) == if s[c] == n then before[..at] + [n] + before[at..] else before
  {
    hide Below;
    BelowSnoc(s, c, n + 1);
    assert s[c..][1..] == s[c + 1..];
    BelowCons(s[c..], n);
  }

  lemma HandledEnds(s: seq<CodePoint>, n: int)
    ensures Handled(s, n, 0) == Below(s, n) && Place(s, n, 0) == 0
    ensures Handled(s, n, |s|) == Below(s, n + 1) && Place(s, n, |s|) == |Below(s, n + 1)|
  {
    assert s[..|s|] == s && s[0..] == s && s[..0] == [] && s[|s|..] == [];
  }

  /** How far the decoder's `i` moves when it goes round all insertion points so many times. */
  function Rounds(points: nat, times: int): int { points * times }

  /** `delta` is what takes the decoder from its state to <n, place>. */
  ghost predicate Pending(st: Decoder, n: int, place: int, delta: int) {
    delta == Rounds(|st.out| + 1, n - st.n) + place - st.i
  }

  lemma NothingPending(st: Decoder)
    ensures Pending(st, st.n, st.i, 0)
  {
  }

  /** Raising `i` by whole rounds and a place inserts at that place, as many code points further on. */
  lemma InsertSplit(st: Decoder, rounds: nat, place: nat, i': int)
    requires i' >= st.i && place <= |st.out| && i' == Rounds(|st.out| + 1, rounds) + place
    ensures Insert(st, i') == Decoder(st.n + rounds, place + 1, Bias(i' - st.i, |st.out| + 1, st.i == 0),
      st.out[..place] + [st.n + rounds] + st.out[place..])
  {
    DivUnique(i', |st.out| + 1, rounds, place);
  }

  /** The delta the encoder has pending makes the decoder insert `n` exactly at its place. */
  lemma InsertAtPlace(s: seq<CodePoint>, n: int, c: nat, st: Decoder, delta: nat)
    requires c < |s| && s[c] == n && n >= st.n
    requires st.out == Handled(s, n, c) && Pending(st, n, Place(s, n, c), delta)
    ensures Insert(st, st.i + delta) ==
      Decoder(n, Place(s, n, c + 1), Bias(delta, |st.out| + 1, st.i == 0), Handled(s, n, c + 1))
  {
    hide Rounds, Insert, Bias, Below, Handled, Place;
    HandledStep(s, n, c);
    InsertSplit(st, n - st.n, Place(s, n, c), st.i + delta);
  }

  /** The text emitted so far: the basic code points, a delimiter if there are any, and deltas that lead to `st`. */
  ghost predicate Emitted(output: seq<int>, basics: seq<int>, st: Decoder) {
    var start := if |basics| > 0 then |basics| + 1 else 0;
    && start <= |output| && output[..|basics|] == basics
    && (|basics| > 0 ==> output[|basics|] == DELIMITER)
    && (forall j :: 0 <= j < |basics| ==> 0 <= basics[j] < INITIAL_N)
    && (forall j :: start <= j < |output| ==> 0 <= output[j] < INITIAL_N && output[j] != DELIMITER)
    && LowerFrom(output, start)
    && Deltas(output, start, Initial(basics)) == Some(st)
  }

  lemma EmittedDecodes(output: seq<int>, basics: seq<int>, st: Decoder)
    requires Emitted(output, basics, st)
    ensures Decode(output) == Some(st.out) && Lower(output)
    ensures forall j :: 0 <= j < |output| ==> 0 <= output[j] < INITIAL_N
  {
    assert forall j :: 0 <= j < |basics| ==> output[j] == output[..|basics|][j];
    if |basics| > 0 {
      LastDelimiterIs(output, |basics|);
    } else {
      NoDelimiter(output);
    }
  }

  lemma EmittedSnoc(output: seq<int>, basics: seq<int>, st: Decoder, delta: nat)
    requires Emitted(output, basics, st)
    ensures Emitted(output + Spell(VarInt(delta, BASE, st.bias)), basics, Insert(st, st.i + delta))
  {
    DeltasSnoc(output, if |basics| > 0 then |basics| + 1 else 0, Initial(basics), delta);
  }

  lemma SpellUnfold(q: nat, k: int, bias: int)
    requires q >= Threshold(k, bias)
    ensures var t := Threshold(k, bias);
      var q' := (q - t) / (BASE - t);
      0 <= q' < q &&
      Spell(VarInt(q, k, bias)) == [DigitToBasic(t + (q - t) % (BASE - t), false)] + Spell(VarInt(q', k + BASE, bias))
  {
    var d, q' := VarIntUnfold(q, k, bias);
  }

  // ---------- a single code point ----------

  /** The digit `d` in lower case. */
  function LowerCase(d: Digit): int { if d < 26 then 0x61 + d else 0x30 + (d - 26) }

  /** The digits of `q` when one code point is all there is: the first two thresholds are 1, the others 26. */
  function Single(q: nat, place: nat): seq<int> {
    var t := if place < 2 then 1 else 26;
    if q < t then [LowerCase(q)]
    else [LowerCase(t + (q - t) % (36 - t))] + Single((q - t) / (36 - t), place + 1)
  }

  lemma SpellLast(q: nat, k: int, bias: int)
    requires q < Threshold(k, bias)
    ensures Spell(VarInt(q, k, bias)) == [DigitToBasic(q, false)]
  {
  }

  lemma LowerCaseIs()
    ensures forall d: Digit :: LowerCase(d) == DigitToBasic(d, false)
    ensures forall k :: Threshold(k, 72) == if k <= 72 then 1 else if k >= 98 then 26 else k - 72
  {
  }

  lemma {:induction false} SingleIsVarInt(q: nat, place: nat)
    ensures Single(q, place) == Spell(VarInt(q, 36 * (place + 1), 72))
    decreases q
  {
    hide Spell, VarInt, Threshold, DigitToBasic, LowerCase;
    var k := 36 * (place + 1);
    LowerCaseIs();
    var t := if place < 2 then 1 else 26;
    if q < t {
      SpellLast(q, k, 72);
    } else {
      SpellUnfold(q, k, 72);
      SingleIsVarInt((q - t) / (36 - t), place + 1);
    }
  }

  lemma {:induction false} SingleDigits(q: nat, place: nat)
    ensures forall j :: 0 <= j < |Single(q, place)| ==>
      0x61 <= Single(q, place)[j] <= 0x7A || 0x30 <= Single(q, place)[j] <= 0x39
    decreases q
  {
    var t := if place < 2 then 1 else 26;
    if q >= t {
      SingleDigits((q - t) / (36 - t), place + 1);
    }
  }

  lemma OneRound(delta: nat)
    ensures Insert(Initial([]), delta).out == [INITIAL_N + delta]
  {
    assert delta % 1 == 0 && delta / 1 == delta;
  }

  lemma NoDeltas()
    ensures Deltas([], 0, Initial([])) == Some(Initial([]))
  {
  }

  lemma DecodeDeltas(s: seq<int>)
    requires LastDelimiter(s) == -1 && Deltas(s, 0, Initial([])).Some?
    ensures Decode(s) == Some(Deltas(s, 0, Initial([])).value.out)
  {
    assert s[..0] == [];
  }

  /** A code point that is not basic is spelled by its distance from 128. */
  lemma SingleDecodes(c: CodePoint)
    requires c >= 0x80
    ensures Decode(Single(c - 0x80, 0)) == Some([c]) && Lower(Single(c - 0x80, 0))
  {
    hide Single, Deltas, VarInt, Spell, Insert, Decode;
    SingleIsVarInt(c - 0x80, 0);
    var s := Single(c - 0x80, 0);
    SingleDigits(c - 0x80, 0);
    NoDelimiter(s);
    NoDeltas();
    DeltasSnoc([], 0, Initial([]), c - 0x80);
    assert [] + s == s;
    OneRound(c - 0x80);
    DecodeDeltas(s);
  }

  /** No other text in lower case decodes to the same code points. */
  lemma OnlyEncoding(input: seq<CodePoint>, output: seq<int>)
    requires Decode(output) == Some(input) && Lower(output)
    ensures forall s :: Decode(s) == Some(input) && Lower(s) ==> s == output
    ensures |input| == 1 && input[0] >= 0x80 ==> output == Single(input[0] - 0x80, 0)
  {
    forall s | Decode(s) == Some(input) && Lower(s) ensures s == output {
      OneEncoding(s, output);
    }
    if |input| == 1 && input[0] >= 0x80 {
      SingleDecodes(input[0]);
      assert input == [input[0]];
    }
  }

  /** The code points still to come when the digit loop is at `q` and `k`. */
  function Tail(q: nat, k: int, bias: int): seq<int> { Spell(VarInt(q, k, bias)) }

  /** The body of the digit loop: the digit pushed and the quotient left; `last` at the digit that ends the integer. */
  method NextDigit(q: nat, k: int, bias: int, digits: seq<int>) returns (last: bool, digits': seq<int>, q': nat)
    ensures last ==> digits' == digits + Tail(q, k, bias)
    ensures !last ==> q' < q && digits' + Tail(q', k + BASE, bias) == digits + Tail(q, k, bias)
  {
    var t := Threshold(k, bias);
    if q < t {
      return true, digits + [DigitToBasic(q, false)], q;
    }
    SpellUnfold(q, k, bias);
    var qMinusT := q - t;
    var baseMinusT := BASE - t;
    last := false;
    digits' := digits + [DigitToBasic(t + qMinusT % baseMinusT, false)];
    q' := qMinusT / baseMinusT;
  }

  /** The digit loop. */
  method EncodeVarInt(delta: nat, bias: int) returns (digits: seq<int>)
    ensures digits == Spell(VarInt(delta, BASE, bias))
  {
    var q: nat, k := delta, BASE;
    digits := [];
    var last := false;
    while !last
      invariant last ==> digits == Tail(delta, BASE, bias)
      invariant !last ==> digits + Tail(q, k, bias) == Tail(delta, BASE, bias)
      decreases !last, q
    {
      last, digits, q := NextDigit(q, k, bias, digits);
      k := k + BASE;
    }
  }

  /** The guard `x > floor(y / b)` says that `x * b` exceeds `y`. */
  lemma GuardExact(x: nat, y: int, b: nat)
    requires b > 0
    ensures x > y / b <==> x * b > y
  {
    var d, m := y / b, y % b;
    assert y == b * d + m;
    if x > d {
      Multiple(x - d, b);
      assert b * (x - d) == x * b - b * d;
    } else {
      MulMonotone(0, d - x, b);
      assert (d - x) * b == b * d - x * b;
    }
  }

  /** A pending delta is never larger than the number of <n, i> states the decoder can be in. */
  lemma PendingBound(st: Decoder, n: int, place: int, delta: int, size: nat)
    requires Pending(st, n, place, delta) && 0 <= st.n <= n < 0x11_0000
    requires |st.out| <= size && place <= size
    ensures delta < 0x11_0000 * (size + 1)
  {
    MulMonotone(|st.out| + 1, size + 1, n - st.n);
    MulMonotone(n - st.n, 0x10_FFFF, size + 1);
  }

  /** The encoder can fail on long inputs only. */
  ghost predicate Long(input: seq<CodePoint>) { 0x11_0000 * (|input| + 1) > MAX_INT }

  /** What the encoder's variables mean at position `counter` of the round for `n`, if the decoder would be at `st`. */
  ghost predicate InStep(input: seq<CodePoint>, n: int, counter: nat, output: seq<int>, delta: int, bias: int,
      handled: int, basics: seq<int>, st: Decoder)
    requires counter <= |input|
  {
    && Emitted(output, basics, st) && st.out == Handled(input, n, counter)
    && Pending(st, n, Place(input, n, counter), delta)
    && 0 <= st.n <= n && bias == st.bias && handled == |st.out| && |basics| <= handled
    && (st.i == 0 <==> handled == |basics|)
    && 0 <= delta
  }

  /** Emitting the pending delta where `n` occurs takes the decoder to where the encoder is next. */
  lemma InsertKeepsStep(input: seq<CodePoint>, n: CodePoint, counter: nat,
      output: seq<int>, delta: nat, bias: int, handled: nat, basics: seq<int>, st: Decoder)
    requires counter < |input| && input[counter] == n
    requires InStep(input, n, counter, output, delta, bias, handled, basics, st)
    ensures InStep(input, n, counter + 1, output + Spell(VarInt(delta, BASE, bias)), 0,
      Bias(delta, handled + 1, handled == |basics|), handled + 1, basics, Insert(st, st.i + delta))
  {
    hide Emitted, Pending, Insert, Bias, Below, Spell, VarInt;
    EmittedSnoc(output, basics, st, delta);
    HandledStep(input, n, counter);
    InsertAtPlace(input, n, counter, st, delta);
    hide Handled, Place;
    NothingPending(Insert(st, st.i + delta));
  }

  /** The branch of the inner loop for an occurrence of `n`. */
  method InsertHere(input: seq<CodePoint>, n: CodePoint, counter: nat, handledCPCountPlusOne: nat, basicLength: nat,
      output: seq<int>, delta: nat, bias: int, handled: nat, ghost basics: seq<int>, ghost st: Decoder)
    returns (output': seq<int>, bias': int, ghost st': Decoder)
    requires counter < |input| && input[counter] == n && delta <= MAX_INT && basicLength == |basics|
    requires InStep(input, n, counter, output, delta, bias, handled, basics, st)
    requires 0 < handledCPCountPlusOne <= handled + 1
    requires handledCPCountPlusOne == handled + 1 || (delta < handledCPCountPlusOne && basicLength < handled)
    ensures InStep(input, n, counter + 1, output', 0, bias', handled + 1, basics, st')
  {
    var digits := EncodeVarInt(delta, bias);
    output' := output + digits;
    bias' := Adapt(delta, handledCPCountPlusOne, handled == basicLength);
    if handledCPCountPlusOne != handled + 1 {
      StaleCountIsHarmless(delta, handledCPCountPlusOne, handled + 1);
    }
    st' := Insert(st, st.i + delta);
    InsertKeepsStep(input, n, counter, output, delta, bias, handled, basics, st);
  }

  lemma SkipHere(input: seq<CodePoint>, n: CodePoint, counter: nat,
      output: seq<int>, delta: nat, bias: int, handled: nat, basics: seq<int>, st: Decoder)
    requires counter < |input| && input[counter] != n
    requires InStep(input, n, counter, output, delta, bias, handled, basics, st)
    ensures var delta' := if input[counter] < n then delta + 1 else delta;
      InStep(input, n, counter + 1, output, delta', bias, handled, basics, st) && (delta' > MAX_INT ==> Long(input))
  {
    hide Rounds, Emitted;
    HandledStep(input, n, counter);
    PendingBound(st, n, Place(input, n, counter + 1), if input[counter] < n then delta + 1 else delta, |input|);
  }

  /** Once this round has inserted something, the pending delta counts smaller code points of this round only. */
  ghost predicate SmallDelta(input: seq<CodePoint>, n: int, counter: nat, delta: int, before: nat, handled: int)
    requires counter <= |input|
  {
    handled == before || (handled > before && delta <= |Below(input[..counter], n)|)
  }

  /** The body of the inner loop. */
  method EncodeAt(input: seq<CodePoint>, n: CodePoint, counter: nat, handledCPCountPlusOne: nat, basicLength: nat,
      output: seq<int>, delta: nat, bias: int, handled: nat, ghost basics: seq<int>, ghost st: Decoder)
    returns (output': seq<int>, delta': nat, bias': int, handled': nat, ghost st': Decoder)
    requires counter < |input| && delta <= MAX_INT
    requires InStep(input, n, counter, output, delta, bias, handled, basics, st)
    requires basicLength == |basics| < handledCPCountPlusOne == |Below(input, n)| + 1
    requires SmallDelta(input, n, counter, delta, handledCPCountPlusOne - 1, handled)
    ensures InStep(input, n, counter + 1, output', delta', bias', handled', basics, st')
    ensures SmallDelta(input, n, counter + 1, delta', handledCPCountPlusOne - 1, handled')
    ensures delta' > MAX_INT ==> Long(input)
  {
    output', delta', bias', handled', st' := output, delta, bias, handled, st;
    assert input[..counter + 1][..counter] == input[..counter];
    if input[counter] != n {
      SkipHere(input, n, counter, output, delta, bias, handled, basics, st);
    }
    if input[counter] < n {
      delta' := delta + 1;
      return;
    }
    if input[counter] == n {
      BelowMonotone(input, counter, n);
      output', bias', st' := InsertHere(input, n, counter, handledCPCountPlusOne, basicLength,
        output, delta, bias, handled, basics, st);
      delta' := 0;
      handled' := handled + 1;
    }
  }

  /** One round of the main loop: insert every occurrence of `n`, all smaller code points being handled already. */
  method EncodeRound(input: seq<CodePoint>, n: CodePoint, handledCPCount: nat, basicLength: nat,
      output: seq<int>, delta: nat, bias: int, ghost basics: seq<int>, ghost st: Decoder)
    returns (ok: bool, output': seq<int>, delta': nat, bias': int, handled': nat, ghost st': Decoder)
    requires InStep(input, n, 0, output, delta, bias, handledCPCount, basics, st)
    requires basicLength == |basics| && delta <= MAX_INT
    ensures ok ==> delta' <= MAX_INT && InStep(input, n, |input|, output', delta', bias', handled', basics, st')
    ensures !ok ==> Long(input)
  {
    var handledCPCountPlusOne := handledCPCount + 1;
    output', delta', bias', handled', st' := output, delta, bias, handledCPCount, st;
    HandledEnds(input, n);
    var counter := 0;
    while counter < |input|
      invariant 0 <= counter <= |input| && delta' <= MAX_INT
      invariant InStep(input, n, counter, output', delta', bias', handled', basics, st')
      invariant SmallDelta(input, n, counter, delta', handledCPCount, handled')
    {
      output', delta', bias', handled', st' := EncodeAt(input, n, counter, handledCPCountPlusOne, basicLength,
        output', delta', bias', handled', basics, st');
      if delta' > MAX_INT {
        return false, output', delta', bias', handled', st';
      }
      counter := counter + 1;
    }
    ok := true;
  }

  /** The smallest code point not below `n`, MAX_INT if there is none. */
  method NextCodePoint(input: seq<CodePoint>, n: nat) returns (m: int)
    requires n <= MAX_INT
    ensures n <= m && forall j :: 0 <= j < |input| ==> input[j] < n || m <= input[j]
    ensures m == MAX_INT || m in input
  {
    m := MAX_INT;
    var counter := 0;
    while counter < |input|
      invariant 0 <= counter <= |input| && n <= m
      invariant forall j :: 0 <= j < counter ==> input[j] < n || m <= input[j]
      invariant m == MAX_INT || m in input
    {
      var currentValue := input[counter];
      counter := counter + 1;
      if currentValue >= n && currentValue < m {
        m := currentValue;
      }
    }
  }

  /** Moving on from <n, place 0> to <m, place 0>, when no code point lies between. */
  lemma AdvanceTo(input: seq<CodePoint>, n: int, m: int, output: seq<int>, delta: nat, bias: int, handled: nat,
      basics: seq<int>, st: Decoder)
    requires n <= m && forall j :: 0 <= j < |input| ==> input[j] < n || m <= input[j]
    requires InStep(input, n, 0, output, delta, bias, handled, basics, st)
    ensures InStep(input, m, 0, output, delta + (m - n) * (handled + 1), bias, handled, basics, st)
  {
    HandledEnds(input, n);
    HandledEnds(input, m);
    BelowGap(input, n, m);
    MulMonotone(0, m - n, handled + 1);
    assert (handled + 1) * (m - st.n) == (handled + 1) * (n - st.n) + (m - n) * (handled + 1);
  }

  /** The step from the end of the round for `n` to the start of the round for `n + 1`. */
  lemma NextRound(input: seq<CodePoint>, n: int, output: seq<int>, delta: nat, bias: int, handled: nat,
      basics: seq<int>, st: Decoder)
    requires InStep(input, n, |input|, output, delta, bias, handled, basics, st)
    ensures InStep(input, n + 1, 0, output, delta + 1, bias, handled, basics, st)
  {
    HandledEnds(input, n);
    HandledEnds(input, n + 1);
    assert (handled + 1) * (n + 1 - st.n) == (handled + 1) * (n - st.n) + (handled + 1);
  }

  /** The first loop: the basic code points, in order. */
  method PushBasics(input: seq<CodePoint>) returns (output: seq<int>)
    ensures output == Below(input, INITIAL_N)
  {
    output := [];
    var counter := 0;
    while counter < |input|
      invariant 0 <= counter <= |input|
      invariant output == Below(input[..counter], INITIAL_N)
    {
      var currentValue := input[counter];
      assert input[..counter + 1][..counter] == input[..counter];
      counter := counter + 1;
      if currentValue < INITIAL_N {
        output := output + [currentValue];
      }
    }
    assert input[..|input|] == input;
  }

  lemma SomeLeft(input: seq<CodePoint>, n: int, output: seq<int>, delta: int, bias: int, handled: nat,
      basics: seq<int>, st: Decoder)
    requires InStep(input, n, 0, output, delta, bias, handled, basics, st)
    ensures handled < |input| ==> exists j :: 0 <= j < |input| && input[j] >= n
    ensures handled >= |input| ==> st.out == input
  {
    HandledEnds(input, n);
    BelowAll(input, n);
  }

  /** The body of the main loop. */
  method EncodeNext(input: seq<CodePoint>, n: nat, handledCPCount: nat, basicLength: nat,
      output: seq<int>, delta: nat, bias: int, ghost basics: seq<int>, ghost st: Decoder)
    returns (ok: bool, n': nat, output': seq<int>, delta': nat, bias': int, handled': nat, ghost st': Decoder)
    requires n <= 0x11_0000 && handledCPCount < |input| && basicLength == |basics|
    requires InStep(input, n, 0, output, delta, bias, handledCPCount, basics, st)
    ensures ok ==> n < n' <= 0x11_0000 && InStep(input, n', 0, output', delta', bias', handled', basics, st')
    ensures !ok ==> Long(input)
  {
    ok, n', output', delta', bias', handled', st' := false, n, output, delta, bias, handledCPCount, st;
    var m := NextCodePoint(input, n);
    SomeLeft(input, n, output, delta, bias, handledCPCount, basics, st);
    var handledCPCountPlusOne := handledCPCount + 1;
    AdvanceTo(input, n, m, output, delta, bias, handledCPCount, basics, st);
    GuardExact(m - n, MAX_INT - delta, handledCPCountPlusOne);
    if m - n > (MAX_INT - delta) / handledCPCountPlusOne {
      PendingBound(st, m, 0, delta + (m - n) * handledCPCountPlusOne, |input|);
      return;
    }
    ok, output', delta', bias', handled', st' := EncodeRound(input, m, handledCPCount, basicLength,
      output, delta + (m - n) * handledCPCountPlusOne, bias, basics, st);
    if ok {
      NextRound(input, m, output', delta', bias', handled', basics, st');
      delta' := delta' + 1;
      n' := m + 1;
    }
  }

  lemma InStepDecodes(input: seq<CodePoint>, n: int, output: seq<int>, delta: int, bias: int, handled: nat,
      basics: seq<int>, st: Decoder)
    requires InStep(input, n, 0, output, delta, bias, handled, basics, st) && handled >= |input|
    ensures Decode(output) == Some(input) && Lower(output)
    ensures forall j :: 0 <= j < |output| ==> 0 <= output[j] < INITIAL_N
  {
    SomeLeft(input, n, output, delta, bias, handled, basics, st);
    EmittedDecodes(output, basics, st);
  }

  lemma EmittedInitially(basics: seq<int>)
    requires forall j :: 0 <= j < |basics| ==> 0 <= basics[j] < INITIAL_N
    ensures Emitted(basics + if |basics| > 0 then [DELIMITER] else [], basics, Initial(basics))
  {
  }

  /** Where the main loop starts. */
  lemma InStepInitially(input: seq<CodePoint>)
    ensures var basics := Below(input, INITIAL_N);
      InStep(input, INITIAL_N, 0, basics + if |basics| > 0 then [DELIMITER] else [], 0, INITIAL_BIAS, |basics|,
        basics, Initial(basics))
  {
    var basics := Below(input, INITIAL_N);
    HandledEnds(input, INITIAL_N);
    BelowAll(input, INITIAL_N);
    EmittedInitially(basics);
    NothingPending(Initial(basics));
    hide Emitted, Below, Pending;
  }

  /**
   The encoder on an array of code points: what it returns is ASCII and decodes to its input, as no other text in lower
   case does, and it fails on long inputs only.
   */
  method EncodeCodePoints(input: seq<CodePoint>) returns (r: Result<seq<int>, Error>)
    ensures r.Ok? ==> Decode(r.value) == Some(input) && Lower(r.value)
    ensures r.Ok? ==> forall j :: 0 <= j < |r.value| ==> 0 <= r.value[j] < 0x80
    ensures r.Ok? ==> forall s :: Decode(s) == Some(input) && Lower(s) ==> s == r.value
    ensures r.Err? ==> 0x11_0000 * (|input| + 1) > 0x7FFF_FFFF
    ensures |input| == 1 && input[0] >= 0x80 ==> r == Ok(Single(input[0] - 0x80, 0))
  {
    var output := PushBasics(input);
    ghost var basics, st := output, Initial(output);
    var n: nat, delta: nat, bias := INITIAL_N, 0, INITIAL_BIAS;
    var basicLength := |output|;
    var handledCPCount := basicLength;
    if basicLength > 0 {
      output := output + [DELIMITER];
    }
    InStepInitially(input);
    while handledCPCount < |input|
      invariant n <= 0x11_0000
      invariant InStep(input, n, 0, output, delta, bias, handledCPCount, basics, st)
      decreases 0x11_0000 - n
    {
      var ok;
      ok, n, output, delta, bias, handledCPCount, st :=
        EncodeNext(input, n, handledCPCount, basicLength, output, delta, bias, basics, st);
      if !ok {
        return Err(Overflow);
      }
    }
    InStepDecodes(input, n, output, delta, bias, handledCPCount, basics, st);
    r := Ok(output);
    OnlyEncoding(input, output);
  }

  // ---------- strings ----------

  /** `ucs2decode`: pairs become one code point, unpaired surrogates stay. */
  function CodePoints(s: seq<CodeUnit>): seq<CodePoint> {
    if s == [] then []
    else if IsLead(s[0]) && |s| > 1 && IsTrail(s[1]) then [Pair(s[0], s[1])] + CodePoints(s[2..])
    else [s[0]] + CodePoints(s[1..])
  }

  /** `String.fromCodePoint` on an array of code points. */
  function FromCodePoints(xs: seq<CodePoint>): seq<CodeUnit> {
    if xs == [] then []
    else (if xs[0] < 0x1_0000 then [xs[0]] else Utf16Of(xs[0])) + FromCodePoints(xs[1..])
  }

  lemma NoCodePoints(text: seq<CodeUnit>)
    ensures CodePoints(text[|text|..]) == []
  {
  }

  lemma NextCodePointAt(text: seq<CodeUnit>, i: nat, output: seq<CodePoint>)
    requires i < |text|
    ensures output + CodePoints(text[i..]) ==
      if IsLead(text[i]) && i + 1 < |text| && IsTrail(text[i + 1]) then
        (output + [Pair(text[i], text[i + 1])]) + CodePoints(text[i + 2..])
      else (output + [text[i]]) + CodePoints(text[i + 1..])
  {
    assert text[i..][1..] == text[i + 1..];
    if i + 1 < |text| {
      assert text[i..][2..] == text[i + 2..];
    }
  }

  lemma TrailByShift(extra: CodeUnit)
    ensures extra / 0x400 == 0x37 <==> IsTrail(extra)
    ensures IsTrail(extra) ==> extra % 0x400 == extra - 0xDC00
  {
  }

  lemma PairByShift(value: CodeUnit, extra: CodeUnit)
    requires IsLead(value) && IsTrail(extra)
    ensures var v: int, e: int := value, extra;
      v % 0x400 * 0x400 + e % 0x400 + 0x1_0000 == Pair(value, extra)
  {
    TrailByShift(extra);
  }

  method Ucs2Decode(text: seq<CodeUnit>) returns (output: seq<CodePoint>)
    ensures output == CodePoints(text)
  {
    hide CodePoints, Pair;
    output := [];
    var counter := 0;
    assert text[0..] == text && [] + CodePoints(text) == CodePoints(text);
    NoCodePoints(text);
    while counter < |text|
      invariant 0 <= counter <= |text|
      invariant CodePoints(text) == output + CodePoints(text[counter..])
    {
      NextCodePointAt(text, counter, output);
      var value: int := text[counter];
      counter := counter + 1;
      if value >= 0xD800 && value <= 0xDBFF && counter < |text| {
        var extra: int := text[counter];
        counter := counter + 1;
        TrailByShift(extra);
        if extra / 0x400 == 0x37 {
          PairByShift(value, extra);
          output := output + [value % 0x400 * 0x400 + extra % 0x400 + 0x1_0000];
        } else {
          output := output + [value];
          counter := counter - 1;
        }
      } else {
        output := output + [value];
      }
    }
  }

  /** No 16-bit string, well-formed or not, is changed by reading it as code points and writing these again. */
  lemma {:induction false} CodePointsRoundTrip(s: seq<CodeUnit>)
    ensures FromCodePoints(CodePoints(s)) == s
  {
    if s != [] {
      if IsLead(s[0]) && |s| > 1 && IsTrail(s[1]) {
        CodePointsRoundTrip(s[2..]);
        assert Utf16Of(Pair(s[0], s[1])) == [s[0], s[1]];
        assert s == [s[0], s[1]] + s[2..];
      } else {
        CodePointsRoundTrip(s[1..]);
        assert s == [s[0]] + s[1..];
      }
    }
  }

  lemma {:induction false} CodePointsShorter(s: seq<CodeUnit>)
    ensures |CodePoints(s)| <= |s|
  {
    if s != [] {
      CodePointsShorter(if IsLead(s[0]) && |s| > 1 && IsTrail(s[1]) then s[2..] else s[1..]);
    }
  }

  /** `encode`: every string it accepts comes back, unit for unit, from the decoder of section 6.2 of RFC 3492. */
  method Encode(text: seq<CodeUnit>) returns (r: Result<seq<int>, Error>)
    ensures r.Ok? ==> exists xs: seq<CodePoint> :: Decode(r.value) == Some(xs) && FromCodePoints(xs) == text
    ensures r.Ok? ==> Decode(r.value) == Some(CodePoints(text)) && Lower(r.value)
    ensures r.Ok? ==> forall j :: 0 <= j < |r.value| ==> 0 <= r.value[j] < 0x80
    ensures r.Err? ==> 0x11_0000 * (|text| + 1) > 0x7FFF_FFFF
  {
    var input := Ucs2Decode(text);
    CodePointsRoundTrip(text);
    CodePointsShorter(text);
    r := EncodeCodePoints(input);
  }
}
