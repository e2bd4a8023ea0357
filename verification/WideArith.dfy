/**
 Multiplication high halves and division: the emulator's algorithms
 (include/libs/arithmetic.h, src/cpu/executor.cc) against exact integer arithmetic.
 */
module WideArith {
  import opened Words
  import opened Isa

  // ----- floor division of negated products -----

  lemma NegDiv(p: int, m: int)
    requires m > 0
    ensures (-p) / m == if p % m == 0 then -(p / m) else -(p / m) - 1
    ensures (-p) % m == if p % m == 0 then 0 else m - p % m
  {
    var q, r := p / m, p % m;
    assert p == q * m + r;
    if r == 0 {
      assert -p == (-q) * m + 0;
      DivUnique(-p, m, -q, 0);
    } else {
      assert -p == (-q - 1) * m + (m - r);
      DivUnique(-p, m, -q - 1, m - r);
    }
  }

  lemma MulBound(a: int, b: int, x: int, y: int)
    requires 0 <= a <= x && 0 <= b <= y
    ensures 0 <= a * b <= x * y
  {
    assert a * b <= x * b;
    assert x * b <= x * y;
  }

  lemma HighBound(a: Word, b: Word)
    ensures 0 <= a * b / TWO64 < TWO64
  {
    MulBound(a, b, TWO64 - 1, TWO64 - 1);
    assert a * b < TWO64 * TWO64;
    DivBelow(a * b, TWO64, TWO64);
  }

  lemma DivBelow(p: int, m: int, n: int)
    requires 0 <= p < m * n && m > 0
    ensures 0 <= p / m < n
  {
  }

  /** Two's complement of one factor complements the product modulo the width. */
  lemma NegFactor(a: int, b: int, m: int)
    requires m > 0
    ensures ((m - a) * b) % m == (-(a * b)) % m
  {
    assert (m - a) * b == -(a * b) + b * m;
    ModShift(-(a * b), b, m);
  }

  // ----- products and differences of wrapped operands -----

  lemma MsubWrapped(a: int, q: int, b: int, ka: int, kq: int, kb: int, m: int)
    requires m > 0
    ensures ((a + ka * m) - (q + kq * m) * (b + kb * m)) % m == (a - q * b) % m
  {
    var k := ka - q * kb - kq * b - kq * kb * m;
    calc {
      (a + ka * m) - (q + kq * m) * (b + kb * m);
      { Distribute(q, kq * m, b, kb * m); }
      a + ka * m - q * b - q * (kb * m) - (kq * m) * b - (kq * m) * (kb * m);
      { assert q * (kb * m) == (q * kb) * m; assert (kq * m) * b == (kq * b) * m; assert (kq * m) * (kb * m) == (kq * kb * m) * m; }
      a - q * b + ka * m - (q * kb) * m - (kq * b) * m - (kq * kb * m) * m;
      { Gather(ka, q * kb, kq * b, kq * kb * m, m); }
      a - q * b + k * m;
    }
    ModShift(a - q * b, k, m);
  }

  lemma Distribute(p: int, q: int, r: int, s: int)
    ensures (p + q) * (r + s) == p * r + p * s + q * r + q * s
  {
  }

  lemma Gather(a: int, b: int, c: int, d: int, m: int)
    ensures a * m - b * m - c * m - d * m == (a - b - c - d) * m
  {
  }

  // ----- PortableMulUnsignedHi -----

  /** The algorithm for a word of 2h bits: half-width products and a carry, every operation in the word type. */
  function MulHiPortable(h: nat, a: nat, b: nat): nat
    requires a < Pow2(h) * Pow2(h) && b < Pow2(h) * Pow2(h)
  {
    var half := Pow2(h);
    var word := half * half;
    var aLo, aHi, bLo, bHi := a % half, a / half, b % half, b / half;
    var hi := (aHi * bHi) % word;
    var abMid := (aHi * bLo) % word;
    var baMid := (bHi * aLo) % word;
    var lo := (aLo * bLo) % word;
    var carry := ((abMid % half + baMid % half + lo / half) % word) / half;
    (hi + abMid / half + baMid / half + carry) % word
  }

  /** No half-width product overflows the word. */
  lemma HalfProduct(x: nat, y: nat, half: nat)
    requires x < half && y < half
    ensures x * y < half * half && 0 <= x * y / half < half && (x * y) % (half * half) == x * y
  {
    MulBound(x, y, half - 1, half - 1);
    assert (half - 1) * (half - 1) == half * half - 2 * half + 1;
    DivBelow(x * y, half, half);
    DivUnique(x * y, half * half, 0, x * y);
  }

  /** Columns of a base-`h` product, with the middle column's carry moved up. */
  lemma Columns(x: int, q1: int, r1: int, q2: int, r2: int, ql: int, rl: int, qm: int, rm: int, h: int)
    requires r1 + r2 + ql == qm * h + rm
    ensures x * (h * h) + (q1 * h + r1) * h + (q2 * h + r2) * h + (ql * h + rl)
         == (x + q1 + q2 + qm) * (h * h) + rm * h + rl
  {
    assert (q1 * h + r1) * h == q1 * (h * h) + r1 * h;
    assert (q2 * h + r2) * h == q2 * (h * h) + r2 * h;
    assert r1 * h + r2 * h + ql * h == (r1 + r2 + ql) * h == (qm * h + rm) * h == qm * (h * h) + rm * h;
    Collect(x + q1, q2, qm, h * h);
    Collect(x, q1, 0, h * h);
  }

  lemma Expand(a1: int, a0: int, b1: int, b0: int, h: int)
    ensures (a1 * h + a0) * (b1 * h + b0) == (a1 * b1) * (h * h) + (a1 * b0) * h + (b1 * a0) * h + a0 * b0
  {
    Distribute(a1 * h, a0, b1 * h, b0);
    assert (a1 * h) * (b1 * h) == (a1 * b1) * (h * h);
    assert (a1 * h) * b0 == (a1 * b0) * h;
    assert a0 * (b1 * h) == (b1 * a0) * h;
  }

  /** Schoolbook multiplication in base `half`, arranged so that the high word can be read off. */
  lemma Schoolbook(a1: nat, a0: nat, b1: nat, b0: nat, half: nat)
    requires half > 0
    ensures var m1, m2, l := a1 * b0, b1 * a0, a0 * b0;
            var mid := m1 % half + m2 % half + l / half;
            var high := a1 * b1 + m1 / half + m2 / half + mid / half;
            (a1 * half + a0) * (b1 * half + b0) == high * (half * half) + (mid % half) * half + l % half
  {
    var m1, m2, l := a1 * b0, b1 * a0, a0 * b0;
    var mid := m1 % half + m2 % half + l / half;
    Expand(a1, a0, b1, b0, half);
    Columns(a1 * b1, m1 / half, m1 % half, m2 / half, m2 % half, l / half, l % half, mid / half, mid % half, half);
  }

  lemma Collect(a: int, b: int, c: int, m: int)
    ensures (a + b + c) * m == a * m + b * m + c * m
  {
  }

  /** The remainder of Schoolbook fits below the high word. */
  lemma LowPart(x: nat, y: nat, half: nat)
    requires x < half && y < half
    ensures 0 <= x * half + y < half * half
  {
    MulBound(x, half, half - 1, half);
    assert (half - 1) * half == half * half - half;
  }

  lemma ThreeHalves(x: nat, y: nat, z: nat, half: nat)
    requires x < half && y < half && z < half && half >= 2
    ensures x + y + z < half * half
  {
    if half >= 3 {
      MulBound(3, half, half, half);
    }
  }

  /** The middle column of half-width remainders does not overflow the word. */
  lemma MidFits(r1: nat, r2: nat, a0: nat, b0: nat, half: nat)
    requires half >= 2 && a0 < half && b0 < half && r1 < half && r2 < half
    ensures (r1 + r2 + a0 * b0 / half) % (half * half) == r1 + r2 + a0 * b0 / half
  {
    HalfProduct(a0, b0, half);
    ThreeHalves(r1, r2, a0 * b0 / half, half);
    DivUnique(r1 + r2 + a0 * b0 / half, half * half, 0, r1 + r2 + a0 * b0 / half);
  }

  lemma ProductHighFits(a: nat, b: nat, word: nat)
    requires a < word && b < word
    ensures 0 <= a * b / word < word
  {
    MulBound(a, b, word - 1, word - 1);
    assert (word - 1) * (word - 1) == word * word - 2 * word + 1;
    DivBelow(a * b, word, word);
  }

  /** The high word read off from Schoolbook, for operands given by their halves. */
  lemma HighWord(a1: nat, a0: nat, b1: nat, b0: nat, half: nat)
    requires half >= 2
    ensures var m1, m2, l := a1 * b0, b1 * a0, a0 * b0;
            var mid := m1 % half + m2 % half + l / half;
            a1 * b1 + m1 / half + m2 / half + mid / half == (a1 * half + a0) * (b1 * half + b0) / (half * half)
  {
    var m1, m2, l := a1 * b0, b1 * a0, a0 * b0;
    var mid := m1 % half + m2 % half + l / half;
    Schoolbook(a1, a0, b1, b0, half);
    LowPart(mid % half, l % half, half);
    DivUnique((a1 * half + a0) * (b1 * half + b0), half * half,
              a1 * b1 + m1 / half + m2 / half + mid / half, (mid % half) * half + l % half);
  }

  lemma CarryAbsorbed(sum: int, mid: int, high: int, half: int, word: int)
    requires half > 0 && word > 0 && mid % word == mid && sum + mid / half == high && 0 <= high < word
    ensures (sum + (mid % word) / half) % word == high
  {
    DivUnique(high, word, 0, high);
  }

  /** The algorithm on halves, with the products already known not to overflow. */
  lemma PortableOnHalves(a1: nat, a0: nat, b1: nat, b0: nat, half: nat)
    requires half >= 2 && a1 < half && a0 < half && b1 < half && b0 < half
    ensures var word := half * half;
            var m1, m2, l := a1 * b0, b1 * a0, a0 * b0;
            var carry := ((m1 % half + m2 % half + l / half) % word) / half;
            (a1 * b1 + m1 / half + m2 / half + carry) % word == (a1 * half + a0) * (b1 * half + b0) / word
  {
    var word, m1, m2 := half * half, a1 * b0, b1 * a0;
    var mid := m1 % half + m2 % half + a0 * b0 / half;
    var a, b := a1 * half + a0, b1 * half + b0;
    assert 0 <= a * b / word < word by {
      LowPart(a1, a0, half); LowPart(b1, b0, half);
      ProductHighFits(a, b, word);
    }
    assert mid % word == mid by { MidFits(m1 % half, m2 % half, a0, b0, half); }
    assert a1 * b1 + m1 / half + m2 / half + mid / half == a * b / word by { HighWord(a1, a0, b1, b0, half); }
    CarryAbsorbed(a1 * b1 + m1 / half + m2 / half, mid, a * b / word, half, word);
  }

  lemma Rejoin(a: nat, half: nat)
    requires half > 0
    ensures 0 <= a / half && a / half * half + a % half == a
  {
  }

  lemma PortableUnwrapped(h: nat, a: nat, b: nat)
    requires h >= 1 && a < Pow2(h) * Pow2(h) && b < Pow2(h) * Pow2(h)
    ensures var half := Pow2(h);
            var word := half * half;
            var a0, a1, b0, b1 := a % half, a / half, b % half, b / half;
            var m1, m2, l := a1 * b0, b1 * a0, a0 * b0;
            && 0 <= a1 < half && 0 <= b1 < half && a1 * half + a0 == a && b1 * half + b0 == b
            && MulHiPortable(h, a, b)
               == (a1 * b1 + m1 / half + m2 / half + ((m1 % half + m2 % half + l / half) % word) / half) % word
  {
    var half := Pow2(h);
    DivBelow(a, half, half); DivBelow(b, half, half);
    Rejoin(a, half); Rejoin(b, half);
    var a0, a1, b0, b1 := a % half, a / half, b % half, b / half;
    HalfProduct(a1, b1, half); HalfProduct(a1, b0, half); HalfProduct(b1, a0, half); HalfProduct(a0, b0, half);
  }

  /** The portable high multiply is exact at every width; no operation in it overflows its type. */
  lemma MulHiPortableExact(h: nat, a: nat, b: nat)
    requires h >= 1 && a < Pow2(h) * Pow2(h) && b < Pow2(h) * Pow2(h)
    ensures MulHiPortable(h, a, b) == a * b / (Pow2(h) * Pow2(h))
  {
    var half := Pow2(h);
    PortableUnwrapped(h, a, b);
    PortableOnHalves(a / half, a % half, b / half, b % half, half);
  }

  // ----- MULH and MULHSU as the interpreter computes them -----

  /** MulUint64Hi. */
  function MulHi(a: Word, b: Word): Word {
    HighBound(a, b);
    a * b / TWO64
  }

  /** On 64-bit words the portable fallback is MulUint64Hi. */
  lemma MulHiPortable64(a: Word, b: Word)
    ensures Pow2(32) * Pow2(32) == TWO64 && MulHiPortable(32, a, b) == MulHi(a, b)
  {
    Pow2Sixty4();
    MulHiPortableExact(32, a, b);
  }

  /** (uint64_t)std::abs((int64_t)w), with abs(INT64_MIN) wrapping to itself. */
  function AbsWord(w: Word): Word { if w < TWO63 then w else TWO64 - w }

  function Complement(w: Word): Word { TWO64 - 1 - w }

  function MulhExec(a: Word, b: Word): Word {
    var negative := (Signed64(a) < 0) != (Signed64(b) < 0);
    var res := MulHi(AbsWord(a), AbsWord(b));
    if negative then Wrap64(Complement(res) + (if Wrap64(Signed64(a) * Signed64(b)) == 0 then 1 else 0)) else res
  }

  function MulhsuExec(a: Word, b: Word): Word {
    if a == 0 || b == 0 then 0
    else if Signed64(a) < 0 then Complement(MulHi(AbsWord(a), b))
    else MulHi(a, b)
  }

  lemma SignProducts(x: int, y: int)
    ensures (-x) * y == -(x * y) && x * (-y) == -(x * y) && (-x) * (-y) == x * y
  {
  }

  lemma SignedProduct(a: Word, b: Word)
    ensures Signed64(a) * Signed64(b)
         == if (Signed64(a) < 0) != (Signed64(b) < 0) then -(AbsWord(a) * AbsWord(b)) else AbsWord(a) * AbsWord(b)
  {
    SignProducts(AbsWord(a), AbsWord(b));
  }

  /** A negated product's high half, from the magnitude's high half. */
  lemma NegatedHigh(x: Word, y: Word)
    ensures Wrap64(-(x * y) / TWO64) == Wrap64(Complement(MulHi(x, y)) + if (x * y) % TWO64 == 0 then 1 else 0)
  {
    var p := x * y;
    NegDiv(p, TWO64);
    HighBound(x, y);
    var k := if p % TWO64 == 0 then 0 else -1;
    assert Complement(p / TWO64) + (k + 1) == (-(p / TWO64) + k) + 1 * TWO64;
    ModShift(-(p / TWO64) + k, 1, TWO64);
  }

  lemma HighOfMagnitude(x: Word, y: Word, p: int, negative: bool)
    requires p == if negative then -(x * y) else x * y
    ensures Wrap64(p / TWO64)
         == if negative then Wrap64(Complement(MulHi(x, y)) + (if Wrap64(p) == 0 then 1 else 0)) else MulHi(x, y)
  {
    if negative {
      NegatedHigh(x, y);
      NegDiv(x * y, TWO64);
    } else {
      HighBound(x, y);
    }
  }

  /** MULH through absolute values and a sign fix-up is exactly the signed high half. */
  lemma MulhExact(a: Word, b: Word)
    ensures MulhExec(a, b) == IsaReg(MULH, a, b)
  {
    SignedProduct(a, b);
    HighOfMagnitude(AbsWord(a), AbsWord(b), Signed64(a) * Signed64(b), (Signed64(a) < 0) != (Signed64(b) < 0));
  }

  /** The low half of a product is zero whichever reading of the factor is used. */
  lemma LowHalfZero(a: Word, b: Word)
    requires a >= TWO63
    ensures (a * b) % TWO64 == 0 <==> (AbsWord(a) * b) % TWO64 == 0
  {
    NegFactor(a, b, TWO64);
    NegDiv(a * b, TWO64);
  }

  lemma MulhsuNegative(a: Word, b: Word)
    requires a >= TWO63 && b != 0
    ensures var exact := Wrap64(Signed64(a) * b / TWO64);
            Complement(MulHi(AbsWord(a), b)) == if (a * b) % TWO64 == 0 then Wrap64(exact - 1) else exact
  {
    var x := AbsWord(a);
    SignProducts(x, b);
    LowHalfZero(a, b);
    HighOfMagnitude(x, b, Signed64(a) * b, true);
    NegDiv(x * b, TWO64);
  }

  /** MULHSU as written is the value the register file receives; MulhsuDeviates is its only inexact case. */
  lemma MulhsuExact(a: Word, b: Word)
    ensures MulhsuExec(a, b) == RegOp(MULHSU, a, b)
    ensures RegOp(MULHSU, a, b) == IsaReg(MULHSU, a, b) <==> !MulhsuDeviates(a, b)
  {
    if a < TWO63 {
      HighOfMagnitude(a, b, a * b, false);
      if b == 0 { assert a * b == 0; }
    } else if b == 0 {
      assert Signed64(a) * b == 0;
    } else {
      MulhsuNegative(a, b);
    }
  }

  /** For instance -2^63 times 2: the high half of -2^64 is -1, the emulator's is -2. */
  lemma MulhsuWrongAt()
    ensures IsaReg(MULHSU, TWO63, 2) == TWO64 - 1 && MulhsuExec(TWO63, 2) == TWO64 - 2
  {
    MulhsuExact(TWO63, 2);
  }

  // ----- division -----

  function Abs(x: int): nat { if x < 0 then -x else x }

  /** C's quotient and remainder: they recombine, the remainder is small and takes the dividend's sign. */
  lemma TruncLaws(a: int, b: int)
    requires b != 0
    ensures a == b * TruncDiv(a, b) + TruncRem(a, b)
    ensures Abs(TruncRem(a, b)) < Abs(b)
    ensures (a >= 0 ==> TruncRem(a, b) >= 0) && (a <= 0 ==> TruncRem(a, b) <= 0)
  {
    if a >= 0 {
      assert TruncRem(a, b) == a % b;
    } else {
      var q := (-a) / b;
      assert b * (-q) == -(b * q);
      assert TruncRem(a, b) == -((-a) % b);
    }
  }

  lemma QuotientBound(a: nat, b: nat)
    requires b > 0
    ensures a == b * (a / b) + a % b && 0 <= a / b <= a
  {
    var q := a / b;
    assert q <= b * q by { if q > 0 { MulAtLeast(b, q); } }
  }

  /** Wrapped operands multiply and add as their signed readings do. */
  lemma RecombineWrapped(b: int, q: int, r: int, kb: int, kq: int, kr: int, m: int)
    requires m > 0
    ensures ((b + kb * m) * (q + kq * m) + (r + kr * m)) % m == (b * q + r) % m
  {
    MsubWrapped(r, -q, b, kr, -kq, kb, m);
    assert (-q + (-kq) * m) * (b + kb * m) == -((b + kb * m) * (q + kq * m)) by {
      SignProducts(q + kq * m, b + kb * m);
      assert -q + (-kq) * m == -(q + kq * m);
    }
    SignProducts(q, b);
  }

  lemma Residue(x: int, m: int)
    requires m > 0
    ensures x % m == x + (-(x / m)) * m
  {
  }

  /** Wrapping the quotient and the remainder to the width keeps the recombination modulo the width. */
  lemma WrappedRecombine(a: int, b: int, q: int, r: int, sb: int, ka: int, kb: int, m: int)
    requires m > 0 && a == sb * q + r + ka * m && b == sb + kb * m && 0 <= a < m
    ensures (b * (q % m) + r % m) % m == a
  {
    Residue(q, m); Residue(r, m);
    RecombineWrapped(sb, q, r, kb, -(q / m), -(r / m), m);
    ModShift(sb * q + r, ka, m);
    DivUnique(a, m, 0, a);
  }

  /** The signed division facts for operands of width `m` with sign boundary `m / 2`. */
  lemma SignedDivision(a: int, b: int, sa: int, sb: int, m: int)
    requires m > 1 && 0 <= a < m && 0 <= b < m && sb != 0
    requires (sa == a || sa == a - m) && (sb == b || sb == b - m)
    ensures var q, r := TruncDiv(sa, sb), TruncRem(sa, sb);
            && (b * (q % m) + r % m) % m == a && Abs(r) < Abs(sb)
            && (sa >= 0 ==> r >= 0) && (sa <= 0 ==> r <= 0)
  {
    TruncLaws(sa, sb);
    WrappedRecombine(a, b, TruncDiv(sa, sb), TruncRem(sa, sb), sb, if sa == a then 0 else 1, if sb == b then 0 else 1, m);
  }

  lemma SignedWrap64(i: int)
    requires -TWO63 <= i < TWO63
    ensures Signed64(Wrap64(i)) == i
  {
  }

  lemma SignedWrap32(i: int)
    requires -TWO31 <= i < TWO31
    ensures Signed32(Wrap32(i)) == i
  {
  }

  /** Unsigned quotient and remainder need no wrapping. */
  lemma UnsignedDivision(a: nat, b: nat, m: nat)
    requires a < m && 0 < b < m
    ensures (a / b) % m == a / b && (a % b) % m == a % b && 0 <= a / b < m
    ensures b * (a / b) + a % b == a && 0 <= a % b < b
  {
    QuotientBound(a, b);
    DivUnique(a / b, m, 0, a / b);
    DivUnique(a % b, m, 0, a % b);
  }

  /** DIV and REM, for every dividend and divisor: section 7.2 of the RISC-V Unprivileged ISA. */
  lemma DivRemLaws(a: Word, b: Word)
    ensures var q, r := RegOp(DIV, a, b), RegOp(REM, a, b);
            && Wrap64(b * q + r) == a
            && (b != 0 ==> Abs(Signed64(r)) < Abs(Signed64(b)))
            && (Signed64(a) >= 0 ==> Signed64(r) >= 0) && (Signed64(a) <= 0 ==> Signed64(r) <= 0)
            && (b == 0 ==> q == TWO64 - 1 && r == a)
  {
    if b != 0 {
      SignedDivision(a, b, Signed64(a), Signed64(b), TWO64);
      SignedWrap64(TruncRem(Signed64(a), Signed64(b)));
    }
  }

  lemma DivuRemuLaws(a: Word, b: Word)
    ensures var q, r := RegOp(DIVU, a, b), RegOp(REMU, a, b);
            if b == 0 then q == TWO64 - 1 && r == a else b * q + r == a && r < b
  {
    if b != 0 {
      UnsignedDivision(a, b, TWO64);
    }
  }

  /** The 32-bit forms obey the same laws on the low halves, and their results are sign-extended. */
  lemma DivRemWLaws(x: Word, y: Word)
    ensures var a, b := Wrap32(x), Wrap32(y);
            var dq, dr := Reg32Op(DIVW, x, y), Reg32Op(REMW, x, y);
            var q, r := Wrap32(dq), Wrap32(dr);
            && SignExtend32(q) == dq && SignExtend32(r) == dr
            && Wrap32(b * q + r) == a
            && (b != 0 ==> Abs(Signed32(r)) < Abs(Signed32(b)))
            && (Signed32(a) >= 0 ==> Signed32(r) >= 0) && (Signed32(a) <= 0 ==> Signed32(r) <= 0)
            && (b == 0 ==> q == TWO32 - 1 && r == a)
  {
    var a, b := Wrap32(x), Wrap32(y);
    if b == 0 {
      ExtendKeeps(a);
    } else {
      DivRemHalves(a, b, Signed32(a), Signed32(b), TruncDiv(Signed32(a), Signed32(b)), TruncRem(Signed32(a), Signed32(b)));
      ExtendKeeps(Wrap32(TruncDiv(Signed32(a), Signed32(b))));
      ExtendKeeps(Wrap32(TruncRem(Signed32(a), Signed32(b))));
    }
  }

  lemma DivRemHalves(a: Half, b: Half, sa: int, sb: int, tq: int, tr: int)
    requires b != 0 && sa == Signed32(a) && sb == Signed32(b) && tq == TruncDiv(sa, sb) && tr == TruncRem(sa, sb)
    ensures Wrap32(b * Wrap32(tq) + Wrap32(tr)) == a && Signed32(Wrap32(tr)) == tr && Abs(tr) < Abs(sb)
    ensures (sa >= 0 ==> tr >= 0) && (sa <= 0 ==> tr <= 0)
  {
    SignedDivision(a, b, sa, sb, TWO32);
    SignedWrap32(tr);
  }

  lemma DivuRemuWLaws(x: Word, y: Word)
    ensures var a, b := Wrap32(x), Wrap32(y);
            var dq, dr := Reg32Op(DIVUW, x, y), Reg32Op(REMUW, x, y);
            var q, r := Wrap32(dq), Wrap32(dr);
            && SignExtend32(q) == dq && SignExtend32(r) == dr
            && if b == 0 then q == TWO32 - 1 && r == a else b * q + r == a && r < b
  {
    var a, b := Wrap32(x), Wrap32(y);
    if b == 0 {
      ExtendKeeps(a);
    } else {
      UnsignedDivision(a, b, TWO32);
      ExtendKeeps(Wrap32(a / b));
      ExtendKeeps(Wrap32(a % b));
    }
  }

  lemma ExtendKeeps(h: Half)
    ensures Wrap32(SignExtend32(h)) == h
  {
    if h >= TWO31 {
      ModShift(h, TWO32 - 1, TWO32);
    }
  }
}
