/**
 The value part of RegTypeExec, Rv32TypeExec, ImmTypeExec, Imm32TypeExec and AmoTypeExec
 (src/cpu/executor.cc), in the signed C++ arithmetic the source uses, proved to give the
 values of Isa.dfy.
 */
module AluExec {
  import opened Words
  import opened Isa
  import opened WideArith
  import opened Exec

  // ----- signed readings -----

  /** A signed word is its unsigned reading plus a multiple of the modulus. */
  lemma SignedShift64(a: Word)
    ensures Signed64(a) == a + (if a < TWO63 then 0 else -1) * TWO64
  {
  }

  lemma SignedShift32(a: Half)
    ensures Signed32(a) == a + (if a < TWO31 then 0 else -1) * TWO32
  {
  }

  lemma SumWraps(a: int, b: int, ka: int, kb: int, m: int)
    requires m > 0
    ensures ((a + ka * m) + (b + kb * m)) % m == (a + b) % m && ((a + ka * m) - (b + kb * m)) % m == (a - b) % m
  {
    PlusWraps(a, b, ka, kb, m);
    PlusWraps(a, -b, ka, -kb, m);
    assert (a + ka * m) + (-b + (-kb) * m) == (a + ka * m) - (b + kb * m) && a + -b == a - b;
  }

  lemma PlusWraps(a: int, b: int, ka: int, kb: int, m: int)
    requires m > 0
    ensures ((a + ka * m) + (b + kb * m)) % m == (a + b) % m
  {
    assert (a + ka * m) + (b + kb * m) == (a + b) + (ka + kb) * m;
    ModShift(a + b, ka + kb, m);
  }

  lemma ScaleWraps(a: int, ka: int, p: int, m: int)
    requires m > 0
    ensures ((a + ka * m) * p) % m == (a * p) % m
  {
    assert (a + ka * m) * p == a * p + (ka * p) * m;
    ModShift(a * p, ka * p, m);
  }

  lemma ProductWraps(a: int, b: int, ka: int, kb: int, m: int)
    requires m > 0
    ensures ((a + ka * m) * (b + kb * m)) % m == (a * b) % m
  {
    ScaleWraps(a, ka, b + kb * m, m);
    ScaleWraps(b, kb, a, m);
    assert (b + kb * m) * a == a * (b + kb * m);
  }

  lemma Signed64Arith(a: Word, b: Word, p: int)
    ensures Wrap64(Signed64(a) + Signed64(b)) == Wrap64(a + b) && Wrap64(Signed64(a) - Signed64(b)) == Wrap64(a - b)
    ensures Wrap64(Signed64(a) * p) == Wrap64(a * p) && Wrap64(Signed64(a) * Signed64(b)) == Wrap64(a * b)
  {
    SignedShift64(a);
    SignedShift64(b);
    var ka, kb := if a < TWO63 then 0 else -1, if b < TWO63 then 0 else -1;
    SumWraps(a, b, ka, kb, TWO64);
    ScaleWraps(a, ka, p, TWO64);
    ProductWraps(a, b, ka, kb, TWO64);
  }

  lemma Signed32Arith(a: Half, b: Half, p: int)
    ensures Wrap32(Signed32(a) + Signed32(b)) == Wrap32(a + b) && Wrap32(Signed32(a) - Signed32(b)) == Wrap32(a - b)
    ensures Wrap32(Signed32(a) * p) == Wrap32(a * p) && Wrap32(Signed32(a) * Signed32(b)) == Wrap32(a * b)
  {
    SignedShift32(a);
    SignedShift32(b);
    var ka, kb := if a < TWO31 then 0 else -1, if b < TWO31 then 0 else -1;
    SumWraps(a, b, ka, kb, TWO32);
    ScaleWraps(a, ka, p, TWO32);
    ProductWraps(a, b, ka, kb, TWO32);
  }

  // ----- 64-bit register forms -----

  method DivideSigned(a: Word, b: Word, t: Token) returns (val: Word)
    requires t in {DIV, REM}
    ensures val == IsaReg(t, a, b)
  {
    var s1, s2 := Signed64(a), Signed64(b);
    if s2 == 0 {
      val := if t == DIV then TWO64 - 1 else a;
    } else if s1 == -TWO63 && s2 == -1 {
      MinByMinusOne();
      val := if t == DIV then TWO63 else 0;
    } else {
      val := Wrap64(if t == DIV then TruncDiv(s1, s2) else TruncRem(s1, s2));
    }
  }

  lemma MinByMinusOne()
    ensures TruncDiv(-TWO63, -1) == TWO63 && TruncRem(-TWO63, -1) == 0
    ensures TruncDiv(-TWO31, -1) == TWO31 && TruncRem(-TWO31, -1) == 0
  {
    DivideByMinusOne(TWO63);
    DivideByMinusOne(TWO31);
  }

  lemma DivideByMinusOne(x: int)
    ensures x / -1 == -x
  {
  }

  method Multiply(a: Word, b: Word, t: Token) returns (val: Word)
    requires t in {MUL, MULH, MULHSU, MULHU}
    ensures val == RegOp(t, a, b)
  {
    var s1, s2 := Signed64(a), Signed64(b);
    if t == MUL {
      Signed64Arith(a, b, 0);
      val := Wrap64(s1 * s2);
    } else if t == MULH {
      MulhExact(a, b);
      var negative := (s1 < 0) != (s2 < 0);
      var res := MulHi(AbsWord(a), AbsWord(b));
      val := if negative then Wrap64(Complement(res) + (if Wrap64(s1 * s2) == 0 then 1 else 0)) else res;
    } else if t == MULHSU {
      MulhsuExact(a, b);
      if s1 == 0 || b == 0 {
        val := 0;
      } else if s1 < 0 {
        val := Complement(MulHi(AbsWord(a), b));
      } else {
        val := MulHi(a, b);
      }
    } else {
      HighBound(a, b);
      val := MulHi(a, b);
    }
  }

  method Shift(a: Word, b: Word, t: Token) returns (val: Word)
    requires t in {SLL, SRL, SRA}
    ensures val == IsaReg(t, a, b)
  {
    var amount := b % 64;
    Signed64Arith(a, b, Pow2(amount));
    if t == SLL {
      val := Wrap64(Signed64(a) * Pow2(amount));
    } else if t == SRL {
      val := Wrap64(a / Pow2(amount));
    } else {
      val := Wrap64(Signed64(a) / Pow2(amount));
    }
  }

  method RegValue(a: Word, b: Word, t: Token) returns (val: Word)
    requires IsReg(t)
    ensures val == RegOp(t, a, b)
  {
    if t in {DIV, REM} {
      val := DivideSigned(a, b, t);
    } else if t in {MUL, MULH, MULHSU, MULHU} {
      val := Multiply(a, b, t);
    } else if t in {SLL, SRL, SRA} {
      val := Shift(a, b, t);
    } else if t == ADD {
      Signed64Arith(a, b, 0);
      val := Wrap64(Signed64(a) + Signed64(b));
    } else if t == SUB {
      Signed64Arith(a, b, 0);
      val := Wrap64(Signed64(a) - Signed64(b));
    } else if t == SLT {
      val := if Signed64(a) < Signed64(b) then 1 else 0;
    } else if t == SLTU {
      val := if a < b then 1 else 0;
    } else if t == XOR {
      val := Xor64(a, b);
    } else if t == OR {
      val := Or64(a, b);
    } else if t == AND {
      val := And64(a, b);
    } else if t == DIVU {
      val := if b == 0 then TWO64 - 1 else Wrap64(a / b);
    } else {
      val := if b == 0 then a else Wrap64(a % b);
    }
  }

  // ----- 32-bit register forms -----

  method DivideSignedW(x: Word, y: Word, t: Token) returns (val: Word)
    requires t in {DIVW, REMW}
    ensures val == Reg32Op(t, x, y)
  {
    var s1, s2 := Signed32(Wrap32(x)), Signed32(Wrap32(y));
    if s2 == 0 {
      val := if t == DIVW then TWO64 - 1 else Wrap64(s1);
    } else if s1 == -TWO31 && s2 == -1 {
      MinByMinusOne();
      val := if t == DIVW then Wrap64(-TWO31) else 0;
    } else {
      QuotientFits(s1, s2);
      val := Wrap64(if t == DIVW then TruncDiv(s1, s2) else TruncRem(s1, s2));
    }
  }

  /** Away from MIN / -1 the C quotient and remainder fit the type. */
  lemma QuotientFits(s1: int, s2: int)
    requires -TWO31 <= s1 < TWO31 && -TWO31 <= s2 < TWO31 && s2 != 0 && !(s1 == -TWO31 && s2 == -1)
    ensures Signed32(Wrap32(TruncDiv(s1, s2))) == TruncDiv(s1, s2)
    ensures Signed32(Wrap32(TruncRem(s1, s2))) == TruncRem(s1, s2)
  {
    TruncLaws(s1, s2);
    TruncBound(s1, s2);
    SignedWrap32(TruncDiv(s1, s2));
    SignedWrap32(TruncRem(s1, s2));
  }

  lemma TruncBound(a: int, b: int)
    requires b != 0
    ensures Abs(TruncDiv(a, b)) <= Abs(a) && (Abs(b) >= 2 && a != 0 ==> Abs(TruncDiv(a, b)) < Abs(a))
  {
    var q := Abs(a) / Abs(b);
    QuotientBound(Abs(a), Abs(b));
    if Abs(b) >= 2 && q > 0 { MulAtLeast(Abs(b) - 1, q); }
    AbsQuotient(a, b);
  }

  lemma AbsQuotient(a: int, b: int)
    requires b != 0
    ensures Abs(TruncDiv(a, b)) == Abs(a) / Abs(b)
  {
    var p, n := Abs(a), Abs(b);
    DivUnique(p, n, p / n, p % n);
    if b < 0 {
      assert p / b == -(p / n) by {
        var q, r := p / b, p % b;
        assert p == (-q) * n + r;
        DivUnique(p, n, -q, r);
      }
    }
  }

  method Reg32Value(x: Word, y: Word, t: Token) returns (val: Word)
    requires IsReg32(t)
    ensures val == Reg32Op(t, x, y)
  {
    var a, b := Wrap32(x), Wrap32(y);
    if t in {DIVW, REMW} {
      val := DivideSignedW(x, y, t);
    } else if t in {ADDW, SUBW, MULW} {
      Signed32Arith(a, b, 0);
      val := SignExtend32(Wrap32(if t == ADDW then Signed32(a) + Signed32(b) else if t == SUBW then Signed32(a) - Signed32(b)
                                 else Signed32(a) * Signed32(b)));
    } else if t == SLLW {
      Signed32Arith(a, b, Pow2(b % 32));
      val := SignExtend32(Wrap32(Signed32(a) * Pow2(b % 32)));
    } else if t == SRLW {
      val := SignExtend32(Wrap32(a / Pow2(b % 32)));
    } else if t == SRAW {
      val := SignExtend32(Wrap32(Signed32(a) / Pow2(b % 32)));
    } else if t == DIVUW {
      val := if b == 0 then TWO64 - 1 else SignExtend32(Wrap32(a / b));
    } else {
      val := SignExtend32(if b == 0 then a else Wrap32(a % b));
    }
  }

  // ----- immediate forms -----

  lemma SignedPlus(a: Word, imm: int, p: int)
    ensures Wrap64(Signed64(a) + imm) == Wrap64(a + imm) && Wrap64(Signed64(a) * p) == Wrap64(a * p)
  {
    SignedShift64(a);
    var k := if a < TWO63 then 0 else -1;
    ModShift(a + imm, k, TWO64);
    ScaleWraps(a, k, p, TWO64);
  }

  method ImmShift(a: Word, imm: int, t: Token) returns (val: Word)
    requires IsShiftImm(t)
    ensures val == ImmOp(t, a, imm % 64)
  {
    SignedPlus(a, 0, Pow2(imm % 64));
    if t == SLLI {
      val := Wrap64(Signed64(a) * Pow2(imm % 64));
    } else if t == SRLI {
      val := Wrap64(a / Pow2(imm % 64));
    } else {
      val := Wrap64(Signed64(a) / Pow2(imm % 64));
    }
  }

  method ImmValue(a: Word, imm: int, t: Token) returns (val: Word)
    requires IsImm(t)
    ensures val == ImmOp(t, a, ShiftMasked(t, imm))
  {
    if IsShiftImm(t) {
      val := ImmShift(a, imm, t);
    } else if t == ADDI {
      SignedPlus(a, imm, 0);
      val := Wrap64(Signed64(a) + imm);
    } else if t == SLTI {
      val := if Signed64(a) < imm then 1 else 0;
    } else if t == SLTIU {
      val := if a < Wrap64(imm) then 1 else 0;
    } else if t == XORI {
      val := Xor64(a, Wrap64(imm));
    } else if t == ORI {
      val := Or64(a, Wrap64(imm));
    } else {
      val := And64(a, Wrap64(imm));
    }
  }

  lemma SignedPlus32(a: Half, imm: int, p: int)
    ensures Wrap32(Signed32(a) + imm) == Wrap32(a + imm) && Wrap32(Signed32(a) * p) == Wrap32(a * p)
  {
    SignedShift32(a);
    var k := if a < TWO31 then 0 else -1;
    ModShift(a + imm, k, TWO32);
    ScaleWraps(a, k, p, TWO32);
  }

  method Imm32Value(x: Word, imm: int, t: Token) returns (val: Word)
    requires IsImm32(t)
    ensures val == Imm32Op(t, x, ShiftMasked(t, imm))
  {
    var a := Wrap32(x);
    if t == ADDIW {
      SignedPlus32(a, imm, 0);
      val := SignExtend32(Wrap32(Signed32(a) + imm));
    } else if t == SLLIW {
      SignedPlus32(a, 0, Pow2(imm % 32));
      val := SignExtend32(Wrap32(Signed32(a) * Pow2(imm % 32)));
    } else if t == SRLIW {
      val := SignExtend32(Wrap32(a / Pow2(imm % 32)));
    } else {
      val := SignExtend32(Wrap32(Signed32(a) / Pow2(imm % 32)));
    }
  }

  // ----- branch conditions -----

  method Condition(a: Word, b: Word, t: Token) returns (taken: bool)
    requires IsBranch(t)
    ensures taken == Taken(t, a, b)
  {
    var s1, s2 := Signed64(a), Signed64(b);
    match t {
      case BEQ => taken := s1 == s2;
      case BNE => taken := s1 != s2;
      case BLT => taken := s1 < s2;
      case BGE => taken := s1 >= s2;
      case BLTU => taken := a < b;
      case BGEU => taken := a >= b;
    }
  }

  // ----- atomic memory operations -----

  lemma WordReading(w: Word)
    ensures SignExtendFrom(w, TWO32) == Wrap64(Signed32(Wrap32(w))) && Signed64(SignExtendFrom(w, TWO32)) == Signed32(Wrap32(w))
  {
  }

  /** The sum of sign-extended halves, as a word. */
  lemma SumOfReadings(a: int, b: int)
    ensures Wrap64(Wrap64(a) + Wrap64(b)) == Wrap64(a + b)
  {
    AddWrapped(Wrap64(a), b);
    AddWrapped(b, a);
  }

  method AmoBits(r: Word, x: Word, t: Token) returns (val: Word)
    requires t in {AMOXOR_W, AMOXOR_D, AMOAND_W, AMOAND_D, AMOOR_W, AMOOR_D}
    ensures val == AmoValue(t, r, x)
  {
    var r32, x32 := Wrap64(Signed32(Wrap32(r))), Wrap64(Signed32(Wrap32(x)));
    WordReading(r);
    WordReading(x);
    match t {
      case AMOXOR_W => val := Xor64(r32, x32);
      case AMOXOR_D => val := Xor64(r, x);
      case AMOAND_W => val := And64(r32, x32);
      case AMOAND_D => val := And64(r, x);
      case AMOOR_W => val := Or64(r32, x32);
      case AMOOR_D => val := Or64(r, x);
    }
  }

  method AmoLess(r: Word, x: Word, t: Token) returns (val: Word)
    requires t in {AMOMIN_W, AMOMIN_D, AMOMAX_W, AMOMAX_D, AMOMINU_W, AMOMINU_D, AMOMAXU_W, AMOMAXU_D}
    ensures val == AmoValue(t, r, x)
  {
    var r32, x32 := Signed32(Wrap32(r)), Signed32(Wrap32(x));
    var r64, x64 := Signed64(r), Signed64(x);
    var ru, xu := Wrap32(r), Wrap32(x);
    WordReading(r);
    WordReading(x);
    match t {
      case AMOMIN_W => val := Wrap64(if x32 < r32 then x32 else r32);
      case AMOMIN_D => val := Wrap64(if x64 < r64 then x64 else r64);
      case AMOMAX_W => val := Wrap64(if r32 < x32 then x32 else r32);
      case AMOMAX_D => val := Wrap64(if r64 < x64 then x64 else r64);
      case AMOMINU_W => val := if xu < ru then xu else ru;
      case AMOMINU_D => val := if x < r then x else r;
      case AMOMAXU_W => val := if ru < xu then xu else ru;
      case AMOMAXU_D => val := if r < x then x else r;
    }
  }

  method AmoSum(r: Word, x: Word, narrow: bool) returns (val: Word)
    ensures val == AmoValue(if narrow then AMOADD_W else AMOADD_D, r, x)
  {
    if narrow {
      WordReading(r);
      WordReading(x);
      SumOfReadings(Signed32(Wrap32(r)), Signed32(Wrap32(x)));
      val := Wrap64(Signed32(Wrap32(r)) + Signed32(Wrap32(x)));
    } else {
      Signed64Arith(r, x, 0);
      val := Wrap64(Signed64(r) + Signed64(x));
    }
  }

  /** The value an AMO stores, from register `r` and memory content `x`. */
  method AmoCombine(r: Word, x: Word, t: Token) returns (val: Word)
    requires IsAmoRmw(t)
    ensures val == AmoValue(t, r, x)
  {
    if t == AMOSWAP_W {
      WordReading(r);
      val := Wrap64(Signed32(Wrap32(r)));
    } else if t == AMOSWAP_D {
      val := r;
    } else if t == AMOADD_W || t == AMOADD_D {
      val := AmoSum(r, x, t == AMOADD_W);
    } else if t in {AMOXOR_W, AMOXOR_D, AMOAND_W, AMOAND_D, AMOOR_W, AMOOR_D} {
      val := AmoBits(r, x, t);
    } else {
      val := AmoLess(r, x, t);
    }
  }
}
