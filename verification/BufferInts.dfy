/** Variable-width integers in a Buffer: `readUIntLE` to `writeIntBE`, for widths of one to six bytes. */
module BufferInts {
  import opened Common

  datatype Error = ValueOutOfBounds | IndexOutOfRange | BeyondLength

  // ---------- specification ----------

  function Pow256(n: nat): (p: int)
    ensures p > 0
  {
    if n == 0 then 1 else 0x100 * Pow256(n - 1)
  }

  /** The little-endian number `b` spells. */
  function Unsigned(b: seq<Byte>): (u: int)
    ensures u >= 0
  {
    if b == [] then 0 else b[0] as int + 0x100 * Unsigned(b[1..])
  }

  /** The two's-complement number `b` spells. */
  function Signed(b: seq<Byte>): int {
    if 2 * Unsigned(b) >= Pow256(|b|) && b != [] then Unsigned(b) - Pow256(|b|) else Unsigned(b)
  }

  /** The `n` low bytes of `value` in two's complement, least significant first. */
  function Bytes(value: int, n: nat): (b: seq<Byte>)
    ensures |b| == n
    decreases n
  {
    if n == 0 then [] else [value % 0x100] + Bytes(value / 0x100, n - 1)
  }

  function Reversed(b: seq<Byte>): (r: seq<Byte>)
    ensures |r| == |b| && forall j :: 0 <= j < |b| ==> r[j] == b[|b| - 1 - j]
  {
    if b == [] then [] else Reversed(b[1..]) + [b[0]]
  }

  predicate SignedFits(value: int, n: nat) { -Pow256(n) <= 2 * value < Pow256(n) }

  predicate UnsignedFits(value: int, n: nat) { 0 <= value < Pow256(n) }

  lemma {:induction false} UnsignedBound(b: seq<Byte>)
    ensures Unsigned(b) < Pow256(|b|)
  {
    if b != [] {
      UnsignedBound(b[1..]);
    }
  }

  lemma Shift(k: int, p: int)
    ensures k * (0x100 * p) == 0x100 * (k * p)
  {
  }

  /** Bytes that spell a number are the bytes of that number, whatever multiple of 256^n is added to it. */
  lemma {:induction false} BytesOfUnsigned(b: seq<Byte>, k: int)
    ensures Bytes(Unsigned(b) + k * Pow256(|b|), |b|) == b
  {
    if b != [] {
      Shift(k, Pow256(|b| - 1));
      BytesOfUnsigned(b[1..], k);
    }
  }

  /** The bytes of a number spell it, up to a multiple of 256^n. */
  lemma {:induction false} UnsignedOfBytes(value: int, n: nat) returns (k: int)
    ensures Unsigned(Bytes(value, n)) == value + k * Pow256(n)
    decreases n
  {
    if n == 0 {
      k := -value;
    } else {
      k := UnsignedOfBytes(value / 0x100, n - 1);
      Shift(k, Pow256(n - 1));
    }
  }

  lemma WholeMultiple(k: int, p: int, value: int)
    requires p > 0 && 0 <= value + k * p < p && -p <= 2 * value < 2 * p
    ensures k == if value < 0 then 1 else 0
  {
    Multiple(k, p);
  }

  /** `readInt` after `writeInt`: the bytes of a value in range spell the value, and no other bytes do. */
  lemma SignedRoundTrip(value: int, n: nat, b: seq<Byte>)
    requires n > 0 && SignedFits(value, n)
    ensures Signed(Bytes(value, n)) == value
    ensures |b| == n && Signed(b) == value ==> b == Bytes(value, n)
  {
    var k := UnsignedOfBytes(value, n);
    UnsignedBound(Bytes(value, n));
    WholeMultiple(k, Pow256(n), value);
    if |b| == n && Signed(b) == value {
      BytesOfUnsigned(b, if 2 * Unsigned(b) >= Pow256(n) then -1 else 0);
    }
  }

  lemma UnsignedNotNegative(b: seq<Byte>)
    ensures Unsigned(b) >= 0
  {
  }

  /** Every byte string is the bytes of the signed number it spells, which is in range. */
  lemma SignedRange(b: seq<Byte>)
    requires b != []
    ensures SignedFits(Signed(b), |b|) && Bytes(Signed(b), |b|) == b
  {
    hide Bytes, Unsigned, Pow256;
    var p := Pow256(|b|);
    UnsignedBound(b);
    UnsignedNotNegative(b);
    if 2 * Unsigned(b) >= p {
      BytesOfUnsigned(b, -1);
      assert Unsigned(b) + -1 * p == Unsigned(b) - p;
    } else {
      BytesOfUnsigned(b, 0);
      assert Unsigned(b) + 0 * p == Unsigned(b);
    }
  }

  /** Every byte string is the bytes of the unsigned number it spells, which is in range. */
  lemma UnsignedRange(b: seq<Byte>)
    ensures UnsignedFits(Unsigned(b), |b|) && Bytes(Unsigned(b), |b|) == b
  {
    hide Pow256, Bytes, Unsigned;
    UnsignedBound(b);
    BytesOfUnsigned(b, 0);
    UnsignedNotNegative(b);
    assert Unsigned(b) + 0 * Pow256(|b|) == Unsigned(b);
  }

  lemma UnsignedRoundTrip(value: int, n: nat)
    requires UnsignedFits(value, n)
    ensures Unsigned(Bytes(value, n)) == value
  {
    var k := UnsignedOfBytes(value, n);
    UnsignedBound(Bytes(value, n));
    WholeMultiple(k, Pow256(n), value);
  }

  // ---------- JavaScript arithmetic ----------

  function Truncated(value: int, mul: int): int
    requires mul > 0
  {
    if value >= 0 then value / mul else -((-value) / mul)
  }

  function ToInt32(x: int): int { (x + 0x8000_0000) % 0x1_0000_0000 - 0x8000_0000 }

  /** Division as JavaScript and `>> 0` do it: the quotient cut off towards zero, then wrapped to 32 bits. */
  function DivShift(value: int, mul: int): int
    requires mul > 0
  {
    ToInt32(Truncated(value, mul))
  }

  /** Byte `i` of `value` in two's complement. */
  function ByteAt(value: int, i: nat): Byte { value / Pow256(i) % 0x100 }

  lemma DivDiv(value: int, p: int)
    requires p > 0
    ensures value / 0x100 / p == value / (0x100 * p)
    ensures value % (0x100 * p) == value % 0x100 + 0x100 * (value / 0x100 % p)
  {
    var d := value / 0x100;
    var q, r, low := d / p, d % p, value % 0x100;
    assert d == p * q + r && value == 0x100 * d + low;
    assert value == (0x100 * p) * q + (0x100 * r + low);
    DivUnique(value, 0x100 * p, q, 0x100 * r + low);
  }

  lemma {:induction false} BytesAt(value: int, n: nat, i: nat)
    requires i < n
    ensures Bytes(value, n)[i] == ByteAt(value, i)
    decreases n
  {
    if i > 0 {
      BytesAt(value / 0x100, n - 1, i - 1);
      DivDiv(value, Pow256(i - 1));
    }
  }

  lemma TruncatedByBorrow(value: int, mul: int)
    requires mul > 0
    ensures Truncated(value, mul) - (if value < 0 && value % mul != 0 then 1 else 0) == value / mul
  {
    if value < 0 {
      var q, r := (-value) / mul, (-value) % mul;
      assert -value == mul * q + r;
      if r == 0 {
        DivUnique(value, mul, -q, 0);
      } else {
        DivUnique(value, mul, -q - 1, mul - r);
      }
    }
  }

  lemma WrapKeepsLowByte(x: int, sub: int)
    ensures (ToInt32(x) - sub) % 0x100 == (x - sub) % 0x100
  {
    var turns := (x + 0x8000_0000) / 0x1_0000_0000;
    assert ToInt32(x) == x - 0x1_0000_0000 * turns;
    var q, low := (x - sub) / 0x100, (x - sub) % 0x100;
    DivUnique(ToInt32(x) - sub, 0x100, q - 0x100_0000 * turns, low);
  }

  /** The `sub` borrow turns the truncating quotient into the flooring one, byte for byte. */
  lemma BorrowIsFloor(value: int, mul: int)
    requires mul > 0
    ensures (DivShift(value, mul) - if value < 0 && value % mul != 0 then 1 else 0) % 0x100 == value / mul % 0x100
  {
    TruncatedByBorrow(value, mul);
    WrapKeepsLowByte(Truncated(value, mul), if value < 0 && value % mul != 0 then 1 else 0);
  }

  lemma Regroup(p: int, high: int, b: int)
    ensures p * (0x100 * high + b) == (0x100 * p) * high + p * b
  {
  }

  lemma PartZero(p: int, b: Byte, r: int)
    requires 0 <= r < p
    ensures 0 <= p * b + r < 0x100 * p
    ensures p * b + r != 0 <==> r != 0 || b != 0
  {
    if b > 0 {
      Multiple(b, p);
    }
    Multiple(0x100 - b, p);
  }

  /** Whether a borrow is due is decided by the bytes already written. */
  lemma BorrowDue(value: int, i: nat)
    ensures value % Pow256(i + 1) != 0 <==> value % Pow256(i) != 0 || ByteAt(value, i) != 0
  {
    var p := Pow256(i);
    var q, r := value / p, value % p;
    var high, b := q / 0x100, q % 0x100;
    assert value == p * q + r && q == 0x100 * high + b;
    Regroup(p, high, b);
    PartZero(p, b, r);
    DivUnique(value, 0x100 * p, high, p * b + r);
  }

  lemma {:induction false} UnsignedSnoc(b: seq<Byte>, x: Byte)
    ensures Unsigned(b + [x]) == Unsigned(b) + x as int * Pow256(|b|)
  {
    if b == [] {
    } else {
      assert (b + [x])[1..] == b[1..] + [x];
      UnsignedSnoc(b[1..], x);
      Shift(x, Pow256(|b| - 1));
    }
  }

  // ---------- reading ----------

  /** The loop of `readUIntLE`; also returns the last multiplier. */
  method SumLE(buf: array<Byte>, offset: nat, byteLength: nat) returns (val: int, mul: int)
    requires 0 < byteLength && offset + byteLength <= buf.Length
    ensures val == Unsigned(buf[offset..offset + byteLength]) && mul == Pow256(byteLength - 1)
  {
    val := buf[offset];
    mul := 1;
    var i := 1;
    assert buf[offset..offset + 1] == [buf[offset]];
    while i < byteLength
      invariant 1 <= i <= byteLength && mul == Pow256(i - 1)
      invariant val == Unsigned(buf[offset..offset + i])
    {
      mul := mul * 0x100;
      UnsignedSnoc(buf[offset..offset + i], buf[offset + i]);
      assert buf[offset..offset + i + 1] == buf[offset..offset + i] + [buf[offset + i]];
      val := val + buf[offset + i] as int * mul;
      i := i + 1;
    }
  }

  /** The big-endian loop: the same sum over the bytes in reverse. */
  method SumBE(buf: array<Byte>, offset: nat, byteLength: nat) returns (val: int, mul: int)
    requires 0 < byteLength && offset + byteLength <= buf.Length
    ensures val == Unsigned(Reversed(buf[offset..offset + byteLength])) && mul == Pow256(byteLength - 1)
  {
    var end := offset + byteLength;
    var left := byteLength - 1;
    val := buf[offset + left];
    mul := 1;
    assert Reversed(buf[offset + left..end]) == [buf[offset + left]];
    assert Unsigned([buf[offset + left]]) == val;
    hide Unsigned;
    while left > 0
      invariant 0 <= left < byteLength && mul == Pow256(byteLength - left - 1)
      invariant val == Unsigned(Reversed(buf[offset + left..end]))
    {
      mul := mul * 0x100;
      left := left - 1;
      UnsignedSnoc(Reversed(buf[offset + left + 1..end]), buf[offset + left]);
      assert buf[offset + left..end][1..] == buf[offset + left + 1..end];
      val := val + buf[offset + left] as int * mul;
    }
  }

  method ReadUIntLE(buf: array<Byte>, offset: nat, byteLength: nat) returns (r: Result<int, Error>)
    requires 1 <= byteLength <= 6
    ensures r == if offset + byteLength > buf.Length then Err(BeyondLength)
                 else Ok(Unsigned(buf[offset..offset + byteLength]))
  {
    if offset + byteLength > buf.Length {
      return Err(BeyondLength);
    }
    var val, _ := SumLE(buf, offset, byteLength);
    r := Ok(val);
  }

  method ReadUIntBE(buf: array<Byte>, offset: nat, byteLength: nat) returns (r: Result<int, Error>)
    requires 1 <= byteLength <= 6
    ensures r == if offset + byteLength > buf.Length then Err(BeyondLength)
                 else Ok(Unsigned(Reversed(buf[offset..offset + byteLength])))
  {
    if offset + byteLength > buf.Length {
      return Err(BeyondLength);
    }
    var val, _ := SumBE(buf, offset, byteLength);
    r := Ok(val);
  }

  method ReadIntLE(buf: array<Byte>, offset: nat, byteLength: nat) returns (r: Result<int, Error>)
    requires 1 <= byteLength <= 6
    ensures r == if offset + byteLength > buf.Length then Err(BeyondLength)
                 else Ok(Signed(buf[offset..offset + byteLength]))
  {
    if offset + byteLength > buf.Length {
      return Err(BeyondLength);
    }
    var val, mul := SumLE(buf, offset, byteLength);
    mul := mul * 0x80;
    if val >= mul {
      val := val - Pow256(byteLength);
    }
    r := Ok(val);
  }

  method ReadIntBE(buf: array<Byte>, offset: nat, byteLength: nat) returns (r: Result<int, Error>)
    requires 1 <= byteLength <= 6
    ensures r == if offset + byteLength > buf.Length then Err(BeyondLength)
                 else Ok(Signed(Reversed(buf[offset..offset + byteLength])))
  {
    if offset + byteLength > buf.Length {
      return Err(BeyondLength);
    }
    var val, mul := SumBE(buf, offset, byteLength);
    mul := mul * 0x80;
    if val >= mul {
      val := val - Pow256(byteLength);
    }
    r := Ok(val);
  }

  // ---------- writing ----------

  lemma IsSpliced(now: seq<Byte>, before: seq<Byte>, offset: nat, bytes: seq<Byte>)
    requires |now| == |before| && offset + |bytes| <= |now|
    requires forall j :: 0 <= j < |bytes| ==> now[offset + j] == bytes[j]
    requires forall x :: 0 <= x < |now| && !(offset <= x < offset + |bytes|) ==> now[x] == before[x]
    ensures now == Spliced(before, offset, bytes)
  {
    assert forall x :: offset <= x < offset + |bytes| ==> now[x] == bytes[x - offset] by {
      forall x | offset <= x < offset + |bytes| ensures now[x] == bytes[x - offset] {
        assert now[offset + (x - offset)] == bytes[x - offset];
      }
    }
  }

  /** What the loops have done when every byte of the value is in its place. */
  lemma SplicedLE(now: seq<Byte>, before: seq<Byte>, offset: nat, value: int, n: nat)
    requires |now| == |before| && offset + n <= |now|
    requires forall j :: 0 <= j < n ==> now[offset + j] == ByteAt(value, j)
    requires forall x :: 0 <= x < |now| && !(offset <= x < offset + n) ==> now[x] == before[x]
    ensures now == Spliced(before, offset, Bytes(value, n))
  {
    forall j | 0 <= j < n ensures now[offset + j] == Bytes(value, n)[j] {
      BytesAt(value, n, j);
    }
    IsSpliced(now, before, offset, Bytes(value, n));
  }

  lemma SplicedBE(now: seq<Byte>, before: seq<Byte>, offset: nat, value: int, n: nat)
    requires |now| == |before| && offset + n <= |now|
    requires forall x :: offset <= x < offset + n ==> now[x] == ByteAt(value, offset + n - 1 - x)
    requires forall x :: 0 <= x < |now| && !(offset <= x < offset + n) ==> now[x] == before[x]
    ensures now == Spliced(before, offset, Reversed(Bytes(value, n)))
  {
    forall j | 0 <= j < n ensures now[offset + j] == Reversed(Bytes(value, n))[j] {
      BytesAt(value, n, n - 1 - j);
    }
    IsSpliced(now, before, offset, Reversed(Bytes(value, n)));
  }

  /** What `checkInt` lets through, and the error of what it does not. */
  function CheckInt(length: nat, fits: bool, offset: nat, byteLength: nat): Option<Error> {
    if !fits then Some(ValueOutOfBounds)
    else if offset + byteLength > length then Some(IndexOutOfRange)
    else None
  }

  method WriteIntLE(buf: array<Byte>, value: int, offset: nat, byteLength: nat) returns (r: Result<nat, Error>)
    requires 1 <= byteLength <= 6
    modifies buf
    ensures var error := CheckInt(buf.Length, SignedFits(value, byteLength), offset, byteLength);
      if error.Some? then r == Err(error.value) && buf[..] == old(buf[..])
      else r == Ok(offset + byteLength) && buf[..] == Spliced(old(buf[..]), offset, Bytes(value, byteLength))
  {
    if !SignedFits(value, byteLength) {
      return Err(ValueOutOfBounds);
    }
    if offset + byteLength > buf.Length {
      return Err(IndexOutOfRange);
    }
    var mul := 1;
    var sub := 0;
    buf[offset] := value % 0x100;
    var i := 1;
    while i < byteLength
      invariant 1 <= i <= byteLength && mul == Pow256(i - 1)
      invariant sub == if value < 0 && value % Pow256(i - 1) != 0 then 1 else 0
      invariant forall j :: 0 <= j < i ==> buf[offset + j] == ByteAt(value, j)
      invariant forall j :: 0 <= j < buf.Length && !(offset <= j < offset + i) ==> buf[j] == old(buf[j])
    {
      mul := mul * 0x100;
      BorrowDue(value, i - 1);
      if value < 0 && sub == 0 && buf[offset + i - 1] != 0 {
        sub := 1;
      }
      BorrowIsFloor(value, mul);
      buf[offset + i] := (DivShift(value, mul) - sub) % 0x100;
      i := i + 1;
    }
    SplicedLE(buf[..], old(buf[..]), offset, value, byteLength);
    r := Ok(offset + byteLength);
  }

  method WriteIntBE(buf: array<Byte>, value: int, offset: nat, byteLength: nat) returns (r: Result<nat, Error>)
    requires 1 <= byteLength <= 6
    modifies buf
    ensures var error := CheckInt(buf.Length, SignedFits(value, byteLength), offset, byteLength);
      if error.Some? then r == Err(error.value) && buf[..] == old(buf[..])
      else r == Ok(offset + byteLength) && buf[..] == Spliced(old(buf[..]), offset, Reversed(Bytes(value, byteLength)))
  {
    if !SignedFits(value, byteLength) {
      return Err(ValueOutOfBounds);
    }
    if offset + byteLength > buf.Length {
      return Err(IndexOutOfRange);
    }
    var i := byteLength - 1;
    var mul := 1;
    var sub := 0;
    buf[offset + i] := value % 0x100;
    i := i - 1;
    while i >= 0
      invariant -1 <= i < byteLength - 1 && mul == Pow256(byteLength - 2 - i)
      invariant sub == if value < 0 && value % Pow256(byteLength - 2 - i) != 0 then 1 else 0
      invariant forall x :: offset + i < x < offset + byteLength ==>
        buf[x] == ByteAt(value, offset + byteLength - 1 - x)
      invariant forall j :: 0 <= j < buf.Length && !(offset + i < j < offset + byteLength) ==> buf[j] == old(buf[j])
    {
      mul := mul * 0x100;
      BorrowDue(value, byteLength - 2 - i);
      if value < 0 && sub == 0 && buf[offset + i + 1] != 0 {
        sub := 1;
      }
      BorrowIsFloor(value, mul);
      buf[offset + i] := (DivShift(value, mul) - sub) % 0x100;
      i := i - 1;
    }
    SplicedBE(buf[..], old(buf[..]), offset, value, byteLength);
    r := Ok(offset + byteLength);
  }

  method WriteUIntLE(buf: array<Byte>, value: int, offset: nat, byteLength: nat) returns (r: Result<nat, Error>)
    requires 1 <= byteLength <= 6
    modifies buf
    ensures var error := CheckInt(buf.Length, UnsignedFits(value, byteLength), offset, byteLength);
      if error.Some? then r == Err(error.value) && buf[..] == old(buf[..])
      else r == Ok(offset + byteLength) && buf[..] == Spliced(old(buf[..]), offset, Bytes(value, byteLength))
  {
    if !UnsignedFits(value, byteLength) {
      return Err(ValueOutOfBounds);
    }
    if offset + byteLength > buf.Length {
      return Err(IndexOutOfRange);
    }
    var mul := 1;
    buf[offset] := value % 0x100;
    var i := 1;
    while i < byteLength
      invariant 1 <= i <= byteLength && mul == Pow256(i - 1)
      invariant forall j :: 0 <= j < i ==> buf[offset + j] == ByteAt(value, j)
      invariant forall j :: 0 <= j < buf.Length && !(offset <= j < offset + i) ==> buf[j] == old(buf[j])
    {
      mul := mul * 0x100;
      BorrowIsFloor(value, mul);
      buf[offset + i] := DivShift(value, mul) % 0x100;
      i := i + 1;
    }
    SplicedLE(buf[..], old(buf[..]), offset, value, byteLength);
    r := Ok(offset + byteLength);
  }

  method WriteUIntBE(buf: array<Byte>, value: int, offset: nat, byteLength: nat) returns (r: Result<nat, Error>)
    requires 1 <= byteLength <= 6
    modifies buf
    ensures var error := CheckInt(buf.Length, UnsignedFits(value, byteLength), offset, byteLength);
      if error.Some? then r == Err(error.value) && buf[..] == old(buf[..])
      else r == Ok(offset + byteLength) && buf[..] == Spliced(old(buf[..]), offset, Reversed(Bytes(value, byteLength)))
  {
    if !UnsignedFits(value, byteLength) {
      return Err(ValueOutOfBounds);
    }
    if offset + byteLength > buf.Length {
      return Err(IndexOutOfRange);
    }
    var i := byteLength - 1;
    var mul := 1;
    buf[offset + i] := value % 0x100;
    i := i - 1;
    while i >= 0
      invariant -1 <= i < byteLength - 1 && mul == Pow256(byteLength - 2 - i)
      invariant forall x :: offset + i < x < offset + byteLength ==>
        buf[x] == ByteAt(value, offset + byteLength - 1 - x)
      invariant forall j :: 0 <= j < buf.Length && !(offset + i < j < offset + byteLength) ==> buf[j] == old(buf[j])
    {
      mul := mul * 0x100;
      BorrowIsFloor(value, mul);
      buf[offset + i] := DivShift(value, mul) % 0x100;
      i := i - 1;
    }
    SplicedBE(buf[..], old(buf[..]), offset, value, byteLength);
    r := Ok(offset + byteLength);
  }

  // ---------- writing, then reading ----------

  lemma SplicedRange(before: seq<Byte>, offset: nat, bytes: seq<Byte>)
    requires offset + |bytes| <= |before|
    ensures Spliced(before, offset, bytes)[offset..offset + |bytes|] == bytes
  {
  }

  lemma ReversedTwice(b: seq<Byte>)
    ensures Reversed(Reversed(b)) == b
  {
  }

  method WriteThenReadIntLE(buf: array<Byte>, value: int, offset: nat, byteLength: nat) returns (r: Result<int, Error>)
    requires 1 <= byteLength <= 6 && offset + byteLength <= buf.Length && SignedFits(value, byteLength)
    modifies buf
    ensures r == Ok(value)
  {
    var _ := WriteIntLE(buf, value, offset, byteLength);
    SplicedRange(old(buf[..]), offset, Bytes(value, byteLength));
    SignedRoundTrip(value, byteLength, Bytes(value, byteLength));
    assert buf[..][offset..offset + byteLength] == buf[offset..offset + byteLength];
    r := ReadIntLE(buf, offset, byteLength);
  }

  method WriteThenReadIntBE(buf: array<Byte>, value: int, offset: nat, byteLength: nat) returns (r: Result<int, Error>)
    requires 1 <= byteLength <= 6 && offset + byteLength <= buf.Length && SignedFits(value, byteLength)
    modifies buf
    ensures r == Ok(value)
  {
    var _ := WriteIntBE(buf, value, offset, byteLength);
    SplicedRange(old(buf[..]), offset, Reversed(Bytes(value, byteLength)));
    ReversedTwice(Bytes(value, byteLength));
    SignedRoundTrip(value, byteLength, Bytes(value, byteLength));
    assert buf[..][offset..offset + byteLength] == buf[offset..offset + byteLength];
    r := ReadIntBE(buf, offset, byteLength);
  }

  method WriteThenReadUIntLE(buf: array<Byte>, value: int, offset: nat, byteLength: nat) returns (r: Result<int, Error>)
    requires 1 <= byteLength <= 6 && offset + byteLength <= buf.Length && UnsignedFits(value, byteLength)
    modifies buf
    ensures r == Ok(value)
  {
    var _ := WriteUIntLE(buf, value, offset, byteLength);
    SplicedRange(old(buf[..]), offset, Bytes(value, byteLength));
    UnsignedRoundTrip(value, byteLength);
    assert buf[..][offset..offset + byteLength] == buf[offset..offset + byteLength];
    r := ReadUIntLE(buf, offset, byteLength);
  }

  method WriteThenReadUIntBE(buf: array<Byte>, value: int, offset: nat, byteLength: nat) returns (r: Result<int, Error>)
    requires 1 <= byteLength <= 6 && offset + byteLength <= buf.Length && UnsignedFits(value, byteLength)
    modifies buf
    ensures r == Ok(value)
  {
    var _ := WriteUIntBE(buf, value, offset, byteLength);
    SplicedRange(old(buf[..]), offset, Reversed(Bytes(value, byteLength)));
    ReversedTwice(Bytes(value, byteLength));
    UnsignedRoundTrip(value, byteLength);
    assert buf[..][offset..offset + byteLength] == buf[offset..offset + byteLength];
    r := ReadUIntBE(buf, offset, byteLength);
  }
}
