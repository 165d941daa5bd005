/** What the models share: bytes, UTF-16 code units, results of calls that may throw, and a little arithmetic. */
module Common {
  datatype Option<+T> = None | Some(value: T)

  datatype Result<+T, +E> = Ok(value: T) | Err(error: E)

  type Byte = x: int | 0 <= x < 0x100

  /** One unit of a JavaScript string. */
  type CodeUnit = x: int | 0 <= x < 0x1_0000

  /** A Unicode scalar value: a code point that is not a surrogate. */
  type Scalar = x: int | 0 <= x < 0xD800 || 0xE000 <= x < 0x11_0000

  /** `Math.floor(a / b)` for counts. */
  function FloorDiv(a: nat, b: nat): nat
    requires b > 0
  {
    a / b
  }

  /** How many times `c` occurs in `s`. */
  ghost function Count(s: seq<int>, c: int): nat {
    multiset(s)[c]
  }

  /** A sequence with `bytes` in place of what was at `offset`. */
  function Spliced(before: seq<Byte>, offset: nat, bytes: seq<Byte>): seq<Byte>
    requires offset + |bytes| <= |before|
  {
    before[..offset] + bytes + before[offset + |bytes|..]
  }

  lemma Multiple(k: int, p: int)
    requires p > 0
    ensures k >= 1 ==> k * p >= p
    ensures k >= 2 ==> k * p >= 2 * p
    ensures k <= -1 ==> k * p <= -p
  {
    if k >= 2 {
      assert k * p == 2 * p + (k - 2) * p;
    } else if k <= -1 {
      assert k * p == -p + (k + 1) * p;
    }
  }

  /** Division with remainder has one result. */
  lemma DivUnique(x: int, b: int, q: int, r: int)
    requires b > 0 && 0 <= r < b && x == b * q + r
    ensures x / b == q && x % b == r
  {
    var q', r' := x / b, x % b;
    assert x == b * q' + r';
    Multiple(q - q', b);
    assert (q - q') * b == r' - r;
  }
}
