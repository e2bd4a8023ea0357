/**
 Machine words as integers.  A `Word` is a uint64_t, a `Half` a uint32_t; the
 int64_t/int32_t readings of the same bits are given by `Signed64`/`Signed32`,
 and every narrowing or overflowing operation goes through `Wrap64`/`Wrap32`.
 */
module Words {

  const TWO31: int := 0x8000_0000
  const TWO32: int := 0x1_0000_0000
  const TWO63: int := 0x8000_0000_0000_0000
  const TWO64: int := 0x1_0000_0000_0000_0000

  datatype Option<T> = None | Some(value: T)

  type Word = w: int | 0 <= w < TWO64
  type Half = h: int | 0 <= h < TWO32

  function Wrap64(i: int): Word { i % TWO64 }

  function Wrap32(i: int): Half { i % TWO32 }

  /** The int64_t with the bits of `w`. */
  function Signed64(w: Word): int { if w < TWO63 then w else w - TWO64 }

  /** The int32_t with the bits of `h`. */
  function Signed32(h: Half): int { if h < TWO31 then h else h - TWO32 }

  /** (uint64_t)(int64_t)(int32_t)h */
  function SignExtend32(h: Half): Word { Wrap64(Signed32(h)) }

  type Narrow = b: int | 0 < b <= TWO32 witness 1

  /** The low part of `data` below `bound` (0x100, 0x10000 or 2^32), read as signed and widened. */
  function SignExtendFrom(data: Word, bound: Narrow): Word {
    var low := data % bound;
    Wrap64(if 2 * low < bound then low else low - bound)
  }

  function Pow2(n: nat): (p: nat)
    ensures p >= 1
  {
    if n == 0 then 1 else 2 * Pow2(n - 1)
  }

  /** C's `/`: the quotient rounded toward zero. */
  function TruncDiv(a: int, b: int): int
    requires b != 0
  {
    if a >= 0 then a / b else -((-a) / b)
  }

  /** C's `%`: the remainder that goes with `TruncDiv`. */
  function TruncRem(a: int, b: int): int
    requires b != 0
  {
    a - b * TruncDiv(a, b)
  }

  // ----- bitwise operators, one binary digit at a time -----

  function And(a: nat, b: nat): nat
    decreases a
  {
    if a == 0 || b == 0 then 0
    else (if a % 2 == 1 && b % 2 == 1 then 1 else 0) + 2 * And(a / 2, b / 2)
  }

  function Or(a: nat, b: nat): nat
    decreases a + b
  {
    if a == 0 then b else if b == 0 then a
    else (if a % 2 == 1 || b % 2 == 1 then 1 else 0) + 2 * Or(a / 2, b / 2)
  }

  function Xor(a: nat, b: nat): nat
    decreases a + b
  {
    if a == 0 then b else if b == 0 then a
    else (if a % 2 != b % 2 then 1 else 0) + 2 * Xor(a / 2, b / 2)
  }

  lemma {:induction false} BitwiseBound(a: nat, b: nat, n: nat)
    requires a < Pow2(n) && b < Pow2(n)
    ensures And(a, b) < Pow2(n) && Or(a, b) < Pow2(n) && Xor(a, b) < Pow2(n)
    decreases n
  {
    if n > 0 {
      BitwiseBound(a / 2, b / 2, n - 1);
    }
  }

  lemma Pow2Sixty4()
    ensures Pow2(32) == TWO32 && Pow2(64) == TWO64
  {
    assert Pow2(8) == 256;
    assert Pow2(16) == 65536;
    assert Pow2(24) == 0x100_0000;
    assert Pow2(32) == TWO32;
    assert Pow2(40) == 0x100 * TWO32;
    assert Pow2(48) == 0x1_0000 * TWO32;
    assert Pow2(56) == 0x100_0000 * TWO32;
  }

  function And64(a: Word, b: Word): Word {
    Pow2Sixty4(); BitwiseBound(a, b, 64);
    And(a, b)
  }

  function Or64(a: Word, b: Word): Word {
    Pow2Sixty4(); BitwiseBound(a, b, 64);
    Or(a, b)
  }

  function Xor64(a: Word, b: Word): Word {
    Pow2Sixty4(); BitwiseBound(a, b, 64);
    Xor(a, b)
  }

  // ----- modular arithmetic -----

  /** Euclidean division by a positive number is determined by its two laws. */
  lemma DivUnique(x: int, m: int, q: int, r: int)
    requires m > 0 && x == q * m + r && 0 <= r < m
    ensures x / m == q && x % m == r
  {
    var q', r' := x / m, x % m;
    var d := q - q';
    assert d * m == r' - r;
    if d >= 1 {
      MulAtLeast(d, m);
    } else if d <= -1 {
      MulAtLeast(-d, m);
    }
  }

  lemma MulAtLeast(d: int, m: int)
    requires d >= 1 && m > 0
    ensures d * m >= m
  {
    assert (d - 1) * m >= 0;
  }

  /** Adding a multiple of the modulus does not change the residue. */
  lemma ModShift(x: int, k: int, m: int)
    requires m > 0
    ensures (x + k * m) % m == x % m
  {
    var q, r := x / m, x % m;
    assert x + k * m == (q + k) * m + r;
    DivUnique(x + k * m, m, q + k, r);
  }

  /** Wrapping an operand first does not change a wrapped sum. */
  lemma AddWrapped(a: int, b: int)
    ensures Wrap64(a + Wrap64(b)) == Wrap64(a + b)
  {
    ModShift(a + b, -(b / TWO64), TWO64);
  }
}
