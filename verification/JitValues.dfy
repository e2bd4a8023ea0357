/** The selected A64 sequences compute the interpreter's values. */
module JitValues {
  import opened Words
  import opened Isa
  import opened A64
  import opened JitSelect
  import opened WideArith

  /** cmp + cset lt/lo are signed and unsigned less-than. */
  lemma CompareExact(a: Word, b: Word)
    ensures Holds(CondLT, Compare(a, b)) <==> Signed64(a) < Signed64(b)
    ensures Holds(CondLO, Compare(a, b)) <==> a < b
  {
  }

  /** msub recovers the signed remainder from the wrapped quotient. */
  lemma RegRem(a: Word, b: Word)
    requires b != 0
    ensures RegOp(REM, a, b) == Wrap64(TruncRem(Signed64(a), Signed64(b))) && RegOp(REMU, a, b) == Wrap64(a % b)
  {
  }

  lemma MsubRem(a: Word, b: Word)
    requires b != 0
    ensures MsubX(a, AluX(Sdiv, a, b), b) == Wrap64(TruncRem(Signed64(a), Signed64(b)))
  {
    SignedMsub(a, b, Signed64(a), Signed64(b), TWO64);
  }

  lemma SignedMsub(a: int, b: int, sa: int, sb: int, m: int)
    requires m > 0 && sb != 0 && (sa == a || sa == a - m) && (sb == b || sb == b - m)
    ensures (a - (TruncDiv(sa, sb) % m) * b) % m == TruncRem(sa, sb) % m
  {
    MsubResidue(a, b, sa, sb, TruncDiv(sa, sb), m);
    assert sb * TruncDiv(sa, sb) == TruncDiv(sa, sb) * sb;
  }

  lemma MsubResidue(a: int, b: int, sa: int, sb: int, q: int, m: int)
    requires m > 0 && (sa == a || sa == a - m) && (sb == b || sb == b - m)
    ensures (a - (q % m) * b) % m == (sa - q * sb) % m
  {
    Residue(q, m);
    MsubWrapped(sa, q, sb, if sa == a then 0 else 1, -(q / m), if sb == b then 0 else 1, m);
  }

  lemma UnsignedMsub(a: nat, b: nat, m: nat)
    requires a < m && 0 < b < m
    ensures (a - ((a / b) % m) * b) % m == (a % b) % m
  {
    UnsignedDivision(a, b, m);
    assert (a / b) * b == b * (a / b);
  }

  lemma MsubRemu(a: Word, b: Word)
    requires b != 0
    ensures MsubX(a, AluX(Udiv, a, b), b) == Wrap64(a % b)
  {
    UnsignedMsub(a, b, TWO64);
  }

  lemma MsubRemW(a: Half, b: Half)
    requires b != 0
    ensures MsubW(a, AluW(Sdiv, a, b), b) == Wrap32(TruncRem(Signed32(a), Signed32(b)))
  {
    SignedMsub(a, b, Signed32(a), Signed32(b), TWO32);
  }

  lemma MsubRemuW(a: Half, b: Half)
    requires b != 0
    ensures MsubW(a, AluW(Udiv, a, b), b) == Wrap32(a % b)
  {
    UnsignedMsub(a, b, TWO32);
  }

  /** A number divided by itself. */
  lemma SelfDivision(a: int)
    requires a != 0
    ensures TruncDiv(a, a) == 1 && TruncRem(a, a) == 0 && a / a == 1 && a % a == 0
  {
    DivSelf(a);
    if a < 0 {
      DivSelf(-a);
      assert (-a) / a == -1 by { assert -a == a * (-1) + 0; }
    }
  }

  lemma DivSelf(a: int)
    requires a != 0
    ensures a / a == 1 && a % a == 0
  {
    assert a == a * 1 + 0;
  }

  /** Destination/source coincidences that do not disturb the selected code. */
  predicate Harmless(t: Token, d1: bool, d2: bool, a: Word, b: Word) {
    match t
    case REM | REMU | REMW | REMUW =>
      (!d1 && !d2) || (d1 && d2 && a == b) || (d1 && !d2 && b == 0) || (!d1 && d2 && a == 0)
    case MULHSU => !d2 || a == 0
    case _ => true
  }

  lemma RemAliased(t: Token, d1: bool, d2: bool, a: Word, b: Word)
    requires t in {REM, REMU} && Harmless(t, d1, d2, a, b)
    ensures RegSelected(t, d1, d2, a, b) == RegOp(t, a, b)
  {
    if b == 0 {
    } else if !d1 && !d2 {
      RegRem(a, b);
      if t == REM { MsubRem(a, b); } else { MsubRemu(a, b); }
    } else if d1 {
      RemOfSelf(t, d2, a, b);
    } else {
      RemOfZero(t, a, b);
    }
  }

  lemma RemOfSelf(t: Token, d2: bool, a: Word, b: Word)
    requires t in {REM, REMU} && b != 0 && Harmless(t, true, d2, a, b)
    ensures RegSelected(t, true, d2, a, b) == RegOp(t, a, b)
  {
    SelfDivision(Signed64(a));
    SelfDivision(a);
  }

  lemma RemOfZero(t: Token, a: Word, b: Word)
    requires t in {REM, REMU} && b != 0 && Harmless(t, false, true, a, b)
    ensures RegSelected(t, false, true, a, b) == RegOp(t, a, b)
  {
    ZeroDivision(Signed64(b));
    ZeroDivision(b);
    RegRem(a, b);
    assert a == 0 && Signed64(a) == 0;
    var q := AluX(if t == REM then Sdiv else Udiv, a, b);
    assert q == 0;
    assert RemByMsub(q, false, true, a, b) == 0;
  }

  lemma ZeroDivision(b: int)
    requires b != 0
    ensures TruncDiv(0, b) == 0 && TruncRem(0, b) == 0 && 0 / b == 0 && 0 % b == 0
  {
  }

  /** neg, umulh, mvn is the interpreter's MULHSU. */
  lemma MulhsuValue(d2: bool, a: Word, b: Word)
    requires !d2 || a == 0
    ensures MulhsuSelected(d2, a, b) == RegOp(MULHSU, a, b)
  {
    MulhsuExact(a, b);
    MulhsuIsExec(d2, a, b);
  }

  lemma NegIsAbs(a: Word)
    requires a >= TWO63
    ensures Wrap64(0 - a) == AbsWord(a)
  {
  }

  lemma MulhsuIsExec(d2: bool, a: Word, b: Word)
    requires !d2 || a == 0
    ensures MulhsuSelected(d2, a, b) == MulhsuExec(a, b)
  {
    UmulhIsHigh(a, b);
    if a >= TWO63 {
      NegIsAbs(a);
      UmulhIsHigh(AbsWord(a), b);
    }
  }

  lemma UmulhIsHigh(a: Word, b: Word)
    ensures AluX(Umulh, a, b) == MulHi(a, b)
  {
    HighBound(a, b);
  }

  lemma RegValue(t: Token, d1: bool, d2: bool, a: Word, b: Word)
    requires IsReg(t) && Harmless(t, d1, d2, a, b)
    ensures RegSelected(t, d1, d2, a, b) == RegOp(t, a, b)
  {
    match t
    case SLT | SLTU => CompareExact(a, b);
    case REM | REMU => RemAliased(t, d1, d2, a, b);
    case MULHSU => MulhsuValue(d2, a, b);
    case _ =>
  }

  /** On halves: the 32-bit remainder sequence, aliased or not. */
  lemma RemWHalves(t: Token, d1: bool, d2: bool, a: Half, b: Half)
    requires t in {REMW, REMUW} && b != 0
    requires (!d1 && !d2) || (d1 && d2 && a == b) || (!d1 && d2 && a == 0)
    ensures Reg32Selected(t, d1, d2, a, b) == Wrap32(if t == REMW then TruncRem(Signed32(a), Signed32(b)) else a % b)
  {
    if !d1 && !d2 {
      if t == REMW { MsubRemW(a, b); } else { MsubRemuW(a, b); }
    } else if d1 {
      SelfDivision(Signed32(a));
      SelfDivision(a);
    } else {
      ZeroDivision(Signed32(b));
      ZeroDivision(b);
    }
  }

  lemma RemWAliased(t: Token, d1: bool, d2: bool, x: Word, y: Word)
    requires t in {REMW, REMUW} && Harmless(t, d1, d2, x, y)
    ensures SignExtend32(Reg32Selected(t, d1, d2, Wrap32(x), Wrap32(y))) == Reg32Op(t, x, y)
  {
    if Wrap32(y) != 0 {
      RemWHalves(t, d1, d2, Wrap32(x), Wrap32(y));
    }
  }

  lemma Reg32Value(t: Token, d1: bool, d2: bool, x: Word, y: Word)
    requires IsReg32(t) && Harmless(t, d1, d2, x, y)
    ensures SignExtend32(Reg32Selected(t, d1, d2, Wrap32(x), Wrap32(y))) == Reg32Op(t, x, y)
  {
    match t
    case REMW | REMUW => RemWAliased(t, d1, d2, x, y);
    case _ =>
  }

  lemma SmallImmediate(imm: int)
    requires -2048 <= imm < 2048
    ensures Signed64(Wrap64(imm)) == imm
    ensures 0 <= imm ==> Wrap64(imm) == imm && Wrap32(imm) == imm
  {
  }

  lemma ImmValue(t: Token, a: Word, imm: int)
    requires IsImm(t) && (if IsShiftImm(t) then 0 <= imm < 64 else -2048 <= imm < 2048)
    ensures ImmSelected(t, false, a, imm) == ImmOp(t, a, imm)
  {
    SmallImmediate(imm);
    match t
    case ADDI => AddWrapped(a, imm);
    case SLTI => CompareExact(a, Wrap64(imm));
    case SLTIU => CompareExact(a, Wrap64(imm));
    case SLLI => assert imm % 64 == imm;
    case SRLI => assert imm % 64 == imm;
    case SRAI => assert imm % 64 == imm;
    case _ =>
  }

  lemma AddWrapped32(a: Half, imm: int)
    ensures Wrap32(a + Wrap32(imm)) == Wrap32(a + imm)
  {
  }

  lemma Imm32Shift(t: Token, a: Half, imm: int)
    requires IsShiftImm32(t) && 0 <= imm < 32
    ensures AluW(Imm32Alu(t), a, Wrap32(imm)) == if t == SLLIW then Wrap32(a * Pow2(imm)) else if t == SRLIW then Wrap32(a / Pow2(imm))
                                                 else Wrap32(Signed32(a) / Pow2(imm))
  {
    assert Wrap32(imm) == imm && imm % 32 == imm;
  }

  lemma Imm32Value(t: Token, x: Word, imm: int)
    requires IsImm32(t) && (if IsShiftImm32(t) then 0 <= imm < 32 else -2048 <= imm < 2048)
    ensures SignExtend32(Imm32Selected(t, false, Wrap32(x), imm)) == Imm32Op(t, x, imm)
  {
    if t == ADDIW {
      AddWrapped32(Wrap32(x), imm);
    } else {
      Imm32Shift(t, Wrap32(x), imm);
    }
  }
}
