/** Each instruction HazardFree excludes is translated wrongly in some guest state. */
module JitHarm {
  import opened Words
  import opened Isa
  import opened A64
  import opened JitCode
  import opened JitSelect
  import opened JitSpill
  import opened JitSim
  import opened JitJump
  import opened JitMem
  import opened JitFrame
  import opened JitBlock
  import opened JitValues
  import opened JitHazard
  import opened WideArith

  function Zeros(): (z: seq<Word>)
    ensures |z| == 32 && forall i :: 0 <= i < 32 ==> z[i] == 0
  {
    seq(32, i => 0)
  }

  /** A guest with one or two registers set; the pc and the memory system are irrelevant. */
  function With(r: Reg, v: Word): Guest<Word> { Guest(Zeros()[r := v], 0, 0) }

  function WithTwo(r: Reg, v: Word, q: Reg, w: Word): Guest<Word> { Guest(Zeros()[r := v][q := w], 0, 0) }

  lemma SmallBits()
    ensures Xor64(2, 5) == 7 && Xor64(5, 2) == 7 && Xor64(2, 2) == 0 && Xor64(5, 5) == 0
    ensures Or64(2, 5) == 7 && Or64(5, 2) == 7 && Or64(2, 2) == 2 && Or64(5, 5) == 5
    ensures And64(2, 5) == 0 && And64(5, 2) == 0 && And64(2, 2) == 2 && And64(5, 5) == 5
  {
    assert Xor(2, 5) == 1 + 2 * Xor(1, 2) && Xor(1, 2) == 1 + 2 * Xor(0, 1);
    assert Xor(5, 2) == 1 + 2 * Xor(2, 1) && Xor(2, 1) == 1 + 2 * Xor(1, 0);
    assert Or(2, 5) == 1 + 2 * Or(1, 2) && Or(1, 2) == 1 + 2 * Or(0, 1);
    assert Or(5, 2) == 1 + 2 * Or(2, 1) && Or(2, 1) == 1 + 2 * Or(1, 0);
  }

  lemma SmallPowers()
    ensures Pow2(1 % 64) == 2 && Pow2(2 % 64) == 4 && Pow2(5 % 64) == 32
    ensures Pow2(1 % 32) == 2 && Pow2(2 % 32) == 4 && Pow2(5 % 32) == 32
  {
    assert 1 % 64 == 1 % 32 == 1 && 2 % 64 == 2 % 32 == 2 && 5 % 64 == 5 % 32 == 5;
    assert Pow2(2) == 2 * Pow2(1) && Pow2(5) == 2 * Pow2(4) && Pow2(4) == 4 * Pow2(2);
  }

  /** The shift forms, with the power of two already evaluated. */
  lemma ShiftValue(t: Token, a: Word, b: Word, p: nat)
    requires t in {SLL, SRL, SRA} && a < TWO63 && p == Pow2(b % 64)
    ensures RegOp(t, a, b) == Wrap64(if t == SLL then a * p else a / p)
  {
  }

  lemma SmallShifts(t: Token)
    requires t in {SLL, SRL, SRA}
    ensures RegOp(t, 2, 5) == (if t == SLL then 64 else 0) && RegOp(t, 5, 2) == (if t == SLL then 20 else 1)
    ensures RegOp(t, 2, 2) == (if t == SLL then 8 else 0) && RegOp(t, 5, 5) == (if t == SLL then 160 else 0)
  {
    SmallPowers();
    ShiftValue(t, 2, 5, 32);
    ShiftValue(t, 5, 2, 4);
    ShiftValue(t, 2, 2, 4);
    ShiftValue(t, 5, 5, 32);
  }

  /** The values at (2, 5) and (5, 2) are told apart from the operand 5. */
  lemma SmallRegValues(t: Token)
    requires IsReg(t)
    ensures RegOp(t, 2, 5) != 5 && RegOp(t, 5, 2) != 5
  {
    match t
    case SLL | SRL | SRA => SmallShifts(t);
    case XOR | OR | AND => SmallBits();
    case DIV | DIVU | REM | REMU => SmallDivisions(t);
    case MUL | MULH | MULHSU | MULHU => SmallProducts(t);
    case _ =>
  }

  lemma SmallDivisions(t: Token)
    requires t in {DIV, DIVU, REM, REMU}
    ensures RegOp(t, 2, 5) == (if t in {DIV, DIVU} then 0 else 2) && RegOp(t, 5, 2) == (if t in {DIV, DIVU} then 2 else 1)
    ensures RegOp(t, 2, 2) == (if t in {DIV, DIVU} then 1 else 0) && RegOp(t, 5, 5) == (if t in {DIV, DIVU} then 1 else 0)
  {
    if t in {DIV, REM} { SmallSigned(t); }
  }

  lemma SmallSigned(t: Token)
    requires t in {DIV, REM}
    ensures RegOp(t, 2, 5) == (if t == DIV then 0 else 2) && RegOp(t, 5, 2) == (if t == DIV then 2 else 1)
    ensures RegOp(t, 2, 2) == (if t == DIV then 1 else 0) && RegOp(t, 5, 5) == (if t == DIV then 1 else 0)
  {
    assert TruncDiv(2, 5) == 0 && TruncDiv(5, 2) == 2 && TruncDiv(2, 2) == 1 && TruncDiv(5, 5) == 1;
  }

  lemma SmallProducts(t: Token)
    requires t in {MUL, MULH, MULHSU, MULHU}
    ensures var high := t != MUL;
            && RegOp(t, 2, 5) == (if high then 0 else 10) && RegOp(t, 5, 2) == (if high then 0 else 10)
            && RegOp(t, 2, 2) == (if high then 0 else 4) && RegOp(t, 5, 5) == (if high then 0 else 25)
  {
  }

  /** The high-half forms on non-negative operands, from the product. */
  lemma HighValue(t: Token, a: Word, b: Word, p: nat)
    requires t in {MULH, MULHSU, MULHU} && a < TWO63 && b < TWO63 && a * b == p * TWO64 && p < TWO64
    ensures RegOp(t, a, b) == p
  {
    DivUnique(a * b, TWO64, p, 0);
    assert Signed64(a) == a && Signed64(b) == b && a * b / TWO64 == p;
    match t
    case MULH => assert IsaReg(MULH, a, b) == Wrap64(p);
    case MULHU => assert IsaReg(MULHU, a, b) == Wrap64(p);
    case MULHSU => assert IsaReg(MULHSU, a, b) == Wrap64(p) && !MulhsuDeviates(a, b);
  }

  // ----- the 32-bit forms -----

  lemma Shift32Value(t: Token, a: Half, b: Half, p: nat)
    requires t in {SLLW, SRLW, SRAW} && a < TWO31 && p == Pow2(b % 32)
    ensures Reg32Op(t, a, b) == SignExtend32(Wrap32(if t == SLLW then a * p else a / p))
  {
    assert Wrap32(a) == a && Wrap32(b) == b;
  }

  lemma ShiftAt32(t: Token, a: Half, b: Half, p: nat, v: Half)
    requires t in {SLLW, SRLW, SRAW} && a < TWO31 && p == Pow2(b % 32)
    requires v == (if t == SLLW then a * p else a / p) && v < TWO31
    ensures Reg32Op(t, a, b) == v
  {
    Shift32Value(t, a, b, p);
    SmallExtends(v);
  }

  lemma SmallExtends(v: int)
    requires 0 <= v < TWO31
    ensures SignExtend32(Wrap32(v)) == v
  {
  }

  lemma SmallShifts32(t: Token)
    requires t in {SLLW, SRLW, SRAW}
    ensures Reg32Op(t, 2, 5) != 5 && Reg32Op(t, 5, 2) !in {5, Reg32Op(t, 2, 2), Reg32Op(t, 5, 5)}
  {
    SmallPowers();
    ShiftAt32(t, 2, 5, 32, if t == SLLW then 64 else 0);
    ShiftAt32(t, 5, 2, 4, if t == SLLW then 20 else 1);
    ShiftAt32(t, 2, 2, 4, if t == SLLW then 8 else 0);
    ShiftAt32(t, 5, 5, 32, if t == SLLW then 160 else 0);
  }

  lemma SmallSums32(t: Token)
    requires t in {ADDW, SUBW, MULW}
    ensures Reg32Op(t, 2, 5) != 5 && Reg32Op(t, 5, 2) !in {5, Reg32Op(t, 2, 2), Reg32Op(t, 5, 5)}
  {
  }

  lemma SmallUnsigned32(t: Token)
    requires t in {DIVUW, REMUW}
    ensures Reg32Op(t, 2, 5) == (if t == DIVUW then 0 else 2) && Reg32Op(t, 5, 2) == (if t == DIVUW then 2 else 1)
    ensures Reg32Op(t, 2, 2) == (if t == DIVUW then 1 else 0) && Reg32Op(t, 5, 5) == (if t == DIVUW then 1 else 0)
  {
  }

  lemma SmallSigned32(t: Token)
    requires t in {DIVW, REMW}
    ensures Reg32Op(t, 2, 5) == (if t == DIVW then 0 else 2) && Reg32Op(t, 5, 2) == (if t == DIVW then 2 else 1)
    ensures Reg32Op(t, 2, 2) == (if t == DIVW then 1 else 0) && Reg32Op(t, 5, 5) == (if t == DIVW then 1 else 0)
  {
    assert TruncDiv(2, 5) == 0 && TruncDiv(5, 2) == 2 && TruncDiv(2, 2) == 1 && TruncDiv(5, 5) == 1;
  }

  lemma SmallDivisions32(t: Token)
    requires t in {DIVW, DIVUW, REMW, REMUW}
    ensures Reg32Op(t, 2, 5) != 5 && Reg32Op(t, 5, 2) !in {5, Reg32Op(t, 2, 2), Reg32Op(t, 5, 5)}
  {
    if t in {DIVW, REMW} { SmallSigned32(t); } else { SmallUnsigned32(t); }
  }

  lemma Small32Values(t: Token)
    requires IsReg32(t)
    ensures Reg32Op(t, 2, 5) != 5 && Reg32Op(t, 5, 2) !in {5, Reg32Op(t, 2, 2), Reg32Op(t, 5, 5)}
  {
    if t in {SLLW, SRLW, SRAW} {
      SmallShifts32(t);
    } else if t in {ADDW, SUBW, MULW} {
      SmallSums32(t);
    } else {
      SmallDivisions32(t);
    }
  }

  // ----- operands that tell the sources apart -----

  lemma HighProbe(t: Token) returns (a: Word, b: Word)
    requires t in {MULH, MULHSU, MULHU}
    ensures RegOp(t, a, b) != RegOp(t, a, a) && RegOp(t, a, b) != RegOp(t, b, b)
  {
    a, b := 0x2000_0000_0000_0000, 0x4000_0000_0000_0000;
    HighValue(t, a, b, 0x800_0000_0000_0000);
    HighValue(t, a, a, 0x400_0000_0000_0000);
    HighValue(t, b, b, 0x1000_0000_0000_0000);
  }

  lemma CompareProbe(t: Token) returns (a: Word, b: Word)
    requires t in {SLT, SLTU}
    ensures RegOp(t, a, b) != RegOp(t, a, a) && RegOp(t, a, b) != RegOp(t, b, b)
  {
    a, b := 1, 2;
  }

  lemma PlainProbe(t: Token) returns (a: Word, b: Word)
    requires IsReg(t) && t !in {SLT, SLTU, MULH, MULHSU, MULHU}
    ensures RegOp(t, a, b) != RegOp(t, a, a) && RegOp(t, a, b) != RegOp(t, b, b)
  {
    a, b := 5, 2;
    match t
    case SLL | SRL | SRA => SmallShifts(t);
    case XOR | OR | AND => SmallBits();
    case DIV | DIVU | REM | REMU => SmallDivisions(t);
    case MUL => SmallProducts(t);
    case ADD | SUB =>
  }

  lemma Probe32(t: Token) returns (a: Word, b: Word)
    requires IsReg32(t)
    ensures Reg32Op(t, a, b) != Reg32Op(t, a, a) && Reg32Op(t, a, b) != Reg32Op(t, b, b)
  {
    a, b := 5, 2;
    Small32Values(t);
  }

  // ----- both widths together -----

  predicate IsOp(t: Token) { IsReg(t) || IsReg32(t) }

  function OpValue(t: Token, a: Word, b: Word): Word
    requires IsOp(t)
  {
    if IsReg(t) then RegOp(t, a, b) else Reg32Op(t, a, b)
  }

  function SelectedValue(t: Token, d1: bool, d2: bool, a: Word, b: Word): Word
    requires IsOp(t)
  {
    if IsReg(t) then RegSelected(t, d1, d2, a, b)
    else SignExtend32(Reg32Selected(t, d1, d2, Wrap32(a), Wrap32(b)))
  }

  /** Operands whose value is neither of two given registers' contents. */
  lemma NotTheFirst(t: Token) returns (a: Word, b: Word)
    requires IsOp(t)
    ensures OpValue(t, a, b) != a
  {
    a, b := 5, 2;
    if IsReg(t) { SmallRegValues(t); } else { Small32Values(t); }
  }

  lemma NotTheSecond(t: Token) returns (a: Word, b: Word)
    requires IsOp(t)
    ensures OpValue(t, a, b) != b
  {
    a, b := 2, 5;
    if IsReg(t) { SmallRegValues(t); } else { Small32Values(t); }
  }

  /** Operands on which reading either source twice changes the value. */
  lemma SourcesMatter(t: Token) returns (a: Word, b: Word)
    requires IsOp(t)
    ensures OpValue(t, a, b) != OpValue(t, a, a) && OpValue(t, a, b) != OpValue(t, b, b)
  {
    if IsReg32(t) {
      a, b := Probe32(t);
    } else if t in {SLT, SLTU} {
      a, b := CompareProbe(t);
    } else if t in {MULH, MULHSU, MULHU} {
      a, b := HighProbe(t);
    } else {
      a, b := PlainProbe(t);
    }
  }

  // ----- register forms -----

  /** What the emitted code leaves in rd. */
  function EmittedAt(t: Token, rd: Reg, rs1: Reg, rs2: Reg, g: Guest<Word>): Word
    requires IsOp(t) && |g.xregs| == 32
  {
    if Lost(rd, rs1, true, rs2) then g.xregs[rd]
    else SelectedValue(t, SameWork(rd, rs1, 1), SameWork(rd, rs2, 2), Operand1(g, rs1, true, rs2), Operand2(g, rs1, rs2))
  }

  ghost predicate Wrong(t: Token, rd: Reg, rs1: Reg, rs2: Reg, g: Guest<Word>) {
    IsOp(t) && GuestOk(g) && EmittedAt(t, rd, rs1, rs2, g) != OpValue(t, g.xregs[rs1], g.xregs[rs2])
  }

  lemma LostWrong(t: Token, rd: Reg, rs1: Reg, rs2: Reg, g: Guest<Word>, a: Word, b: Word)
    requires IsOp(t) && Lost(rd, rs1, true, rs2) && GuestOk(g)
    requires g.xregs[rs1] == a && g.xregs[rs2] == b && g.xregs[rd] != OpValue(t, a, b)
    ensures Wrong(t, rd, rs1, rs2, g)
  {
  }

  /** A destination that is no source can hold anything else beforehand. */
  lemma LostFresh(t: Token, rd: Reg, rs1: Reg, rs2: Reg, base: seq<Word>) returns (g: Guest<Word>)
    requires IsOp(t) && Lost(rd, rs1, true, rs2) && rd !in {rs1, rs2} && |base| == 32 && base[0] == 0
    ensures Wrong(t, rd, rs1, rs2, g)
  {
    var a, b := base[rs1], base[rs2];
    g := Guest(base[rd := Wrap64(OpValue(t, a, b) + 1)], 0, 0);
    LostWrong(t, rd, rs1, rs2, g, a, b);
  }

  lemma LostHarms(t: Token, rd: Reg, rs1: Reg, rs2: Reg) returns (g: Guest<Word>)
    requires IsOp(t) && Lost(rd, rs1, true, rs2)
    ensures Wrong(t, rd, rs1, rs2, g)
  {
    if rd !in {rs1, rs2} {
      g := LostFresh(t, rd, rs1, rs2, Zeros());
    } else {
      var a, b;
      if rd == rs1 { a, b := NotTheFirst(t); } else { a, b := NotTheSecond(t); }
      g := WithTwo(rs1, a, rs2, b);
      LostWrong(t, rd, rs1, rs2, g, a, b);
    }
  }

  lemma UnaliasedValue(t: Token, a: Word, b: Word)
    requires IsOp(t)
    ensures SelectedValue(t, false, false, a, b) == OpValue(t, a, b)
  {
    if IsReg(t) { RegValue(t, false, false, a, b); } else { Reg32Value(t, false, false, a, b); }
  }

  lemma NoAlias(rd: Reg, rs1: Reg, rs2: Reg)
    requires rd != 0 && Clobbered(rs1, rs2) && !Lost(rd, rs1, true, rs2)
    ensures !SameWork(rd, rs1, 1) && !SameWork(rd, rs2, 2)
  {
    if !InMemory(rd) { HomeRange(rd); }
  }

  lemma ClobberWrong(t: Token, rd: Reg, rs1: Reg, rs2: Reg, g: Guest<Word>, x: Word, a: Word, b: Word)
    requires IsOp(t) && GuestOk(g) && !Lost(rd, rs1, true, rs2) && !SameWork(rd, rs1, 1) && !SameWork(rd, rs2, 2)
    requires Operand1(g, rs1, true, rs2) == x && Operand2(g, rs1, rs2) == x && g.xregs[rs1] == a && g.xregs[rs2] == b
    requires SelectedValue(t, false, false, x, x) != OpValue(t, a, b)
    ensures Wrong(t, rd, rs1, rs2, g)
  {
  }

  lemma ClobberHarms(t: Token, rd: Reg, rs1: Reg, rs2: Reg) returns (g: Guest<Word>)
    requires IsOp(t) && rd != 0 && Clobbered(rs1, rs2) && !Lost(rd, rs1, true, rs2)
    ensures Wrong(t, rd, rs1, rs2, g)
  {
    var a, b := SourcesMatter(t);
    g := WithTwo(rs1, a, rs2, b);
    NoAlias(rd, rs1, rs2);
    var x := Operand1(g, rs1, true, rs2);
    UnaliasedValue(t, x, x);
    ClobberWrong(t, rd, rs1, rs2, g, x, a, b);
  }

  /** Between non-negative operands the signed forms are the unsigned ones. */
  lemma NonNegativeDivision(a: Word, b: Word)
    requires a < TWO63 && 0 < b < TWO63
    ensures RegOp(REM, a, b) == RegOp(REMU, a, b) && AluX(Sdiv, a, b) == AluX(Udiv, a, b)
  {
    assert TruncRem(a, b) == a % b;
  }

  /** 4 rem 2 with the quotient written over the dividend, 6 rem 2 with it written over the divisor. */
  lemma AliasedRem(first: bool) returns (a: Word, b: Word)
    ensures RegSelected(REM, first, !first, a, b) != RegOp(REM, a, b)
  {
    a, b := AliasedRemu(first);
    NonNegativeDivision(a, b);
  }

  lemma AliasedRemu(first: bool) returns (a: Word, b: Word)
    ensures 0 < a < TWO63 && 0 < b < TWO63 && RegSelected(REMU, first, !first, a, b) != RegOp(REMU, a, b)
  {
    a, b := if first then 4 else 6, 2;
  }

  lemma AliasedRemuW(first: bool, a: Half, b: Half)
    requires a == (if first then 4 else 6) && b == 2
    ensures SignExtend32(Reg32Selected(REMUW, first, !first, Wrap32(a), Wrap32(b))) != Reg32Op(REMUW, a, b)
  {
    var q: Half := if first then 2 else 3;
    assert a / b == q && a % b == 0;
    assert AluW(Udiv, a, b) == q && Reg32Op(REMUW, a, b) == 0;
    assert Reg32Selected(REMUW, first, !first, a, b) == Wrap32(if first then -2 else -3);
  }

  lemma AliasedRemsW(first: bool, a: Half, b: Half)
    requires a == (if first then 4 else 6) && b == 2
    ensures SignExtend32(Reg32Selected(REMW, first, !first, Wrap32(a), Wrap32(b))) != Reg32Op(REMW, a, b)
  {
    assert TruncDiv(4, 2) == 2 && TruncDiv(6, 2) == 3;
  }

  lemma AliasedRemW(t: Token, first: bool) returns (a: Half, b: Half)
    requires t in {REMW, REMUW}
    ensures SignExtend32(Reg32Selected(t, first, !first, Wrap32(a), Wrap32(b))) != Reg32Op(t, a, b)
  {
    a, b := if first then 4 else 6, 2;
    if t == REMW { AliasedRemsW(first, a, b); } else { AliasedRemuW(first, a, b); }
  }

  lemma AliasedRemValues(t: Token, first: bool) returns (a: Word, b: Word)
    requires t in {REM, REMU, REMW, REMUW}
    ensures SelectedValue(t, first, !first, a, b) != OpValue(t, a, b)
  {
    if t == REM {
      a, b := AliasedRem(first);
    } else if t == REMU {
      a, b := AliasedRemu(first);
    } else {
      a, b := AliasedRemW(t, first);
    }
  }

  const MINUS_2_62: Word := 0xC000_0000_0000_0000

  lemma AliasedMulhsuValues()
    ensures MulhsuSelected(true, MINUS_2_62, MINUS_2_62) == 0xEFFF_FFFF_FFFF_FFFF
    ensures RegOp(MULHSU, MINUS_2_62, MINUS_2_62) == 0xCFFF_FFFF_FFFF_FFFF
  {
    var n: Word := 0x4000_0000_0000_0000;
    assert n * n / TWO64 == 0x1000_0000_0000_0000;
    assert n * MINUS_2_62 / TWO64 == 0x3000_0000_0000_0000;
    MulhsuValue(false, MINUS_2_62, MINUS_2_62);
  }

  lemma AliasDistinct(rd: Reg, rs1: Reg, rs2: Reg)
    requires rd != 0 && !Lost(rd, rs1, true, rs2)
    ensures SameWork(rd, rs1, 1) ==> rs1 != 0
    ensures SameWork(rd, rs2, 2) ==> rs2 != 0
    ensures SameWork(rd, rs1, 1) != SameWork(rd, rs2, 2) ==> rs1 != rs2
  {
    WorkTarget(rd);
    if !InMemory(rd) { HomeRange(rd); }
    if !InMemory(rs1) { HomeRange(rs1); }
    if !InMemory(rs2) { HomeRange(rs2); }
  }

  lemma AliasHarmsSomewhere(t: Token, rd: Reg, rs1: Reg, rs2: Reg) returns (g: Guest<Word>)
    requires IsOp(t) && rd != 0 && AliasHarms(t, rd, rs1, rs2) && !Clobbered(rs1, rs2) && !Lost(rd, rs1, true, rs2)
    ensures Wrong(t, rd, rs1, rs2, g)
  {
    AliasDistinct(rd, rs1, rs2);
    if t == MULHSU {
      g := WithTwo(rs1, MINUS_2_62, rs2, MINUS_2_62);
      AliasedMulhsuValues();
    } else {
      var a, b := AliasedRemValues(t, SameWork(rd, rs1, 1));
      g := WithTwo(rs1, a, rs2, b);
    }
  }

  lemma RegHarms(t: Token, rd: Reg, rs1: Reg, rs2: Reg) returns (g: Guest<Word>)
    requires IsOp(t) && RegHazard(t, rd, rs1, rs2)
    ensures Wrong(t, rd, rs1, rs2, g)
  {
    if Lost(rd, rs1, true, rs2) {
      g := LostHarms(t, rd, rs1, rs2);
    } else if Clobbered(rs1, rs2) {
      g := ClobberHarms(t, rd, rs1, rs2);
    } else {
      g := AliasHarmsSomewhere(t, rd, rs1, rs2);
    }
  }

  // ----- immediate forms -----

  lemma {:induction false} XorSelf(a: nat)
    ensures Xor(a, a) == 0
  {
    if a > 0 { XorSelf(a / 2); }
  }

  lemma {:induction false} OrSelf(a: nat)
    ensures Or(a, a) == a
  {
    if a > 0 { OrSelf(a / 2); }
  }

  lemma {:induction false} AndSelf(a: nat)
    ensures And(a, a) == a
  {
    if a > 0 { AndSelf(a / 2); }
  }

  lemma {:induction false} BelowPower(s: nat)
    ensures s < Pow2(s)
  {
    if s > 0 { BelowPower(s - 1); }
  }

  /** s < 2^s, so s shifted right by itself is zero. */
  lemma ShiftedAway(s: nat)
    ensures s / Pow2(s) == 0
  {
    BelowPower(s);
    DivUnique(s, Pow2(s), 0, s);
  }

  lemma DiffersMod(x: int, p: int, m: int)
    requires 0 < p < m
    ensures (x + p) % m != x % m
  {
    var q, r := x / m, x % m;
    assert x == q * m + r;
    if r + p < m {
      DivUnique(x + p, m, q, r + p);
    } else {
      DivUnique(x + p, m, q + 1, r + p - m);
    }
  }

  /** 2^m divided by 2^s, below the top. */
  lemma {:induction false} PowerBelow(s: nat, m: nat)
    requires s < m
    ensures Pow2(m) >= 2 * Pow2(s)
    decreases m
  {
    if s < m - 1 { PowerBelow(s, m - 1); }
  }

  lemma DivAtLeastOne(v: nat, p: nat)
    requires 0 < p <= v
    ensures v / p >= 1
  {
  }

  /** -1 shifted right arithmetically stays -1. */
  lemma MinusOneShifted(p: nat)
    requires p > 0
    ensures (-1) / p == -1
  {
    DivUnique(-1, p, -1, p - 1);
  }

  /** With the immediate already in rs1's register, some value of rs1 is missed. */
  lemma LogicMatters(t: Token, imm: int) returns (v: Word)
    requires t in {XORI, ORI, ANDI} && -2048 <= imm < 2048 && !Indifferent(t, imm)
    ensures ImmSelected(t, true, v, imm) != ImmOp(t, v, imm)
  {
    var i := Wrap64(imm);
    if t == XORI {
      XorSelf(i);
      v := if i == 0 then 1 else 0;
    } else if t == ORI {
      OrSelf(i);
      v := TWO64 - 1;
      OrCommutes(v, i);
      Or64Ones(i);
    } else {
      AndSelf(i);
      v := 0;
    }
  }

  lemma {:induction false} OrCommutes(a: nat, b: nat)
    ensures Or(a, b) == Or(b, a)
    decreases a + b
  {
    if a > 0 && b > 0 { OrCommutes(a / 2, b / 2); }
  }

  lemma ShiftLeftMatters(s: nat, p: nat, m: nat)
    requires 0 < p < m
    ensures (s * p) % m != ((s + 1) * p) % m
  {
    DiffersMod(s * p, p, m);
    assert (s + 1) * p == s * p + p;
  }

  lemma ShiftMatters(t: Token, imm: int) returns (v: Word)
    requires IsShiftImm(t) && 0 <= imm < 64
    ensures ImmSelected(t, true, v, imm) != ImmOp(t, v, imm)
  {
    assert Wrap64(imm) == imm && imm % 64 == imm;
    ShiftedAway(imm);
    PowerBelow(imm, 64);
    Pow2Sixty4();
    if t == SLLI {
      v := imm + 1;
      ShiftLeftMatters(imm, Pow2(imm), TWO64);
    } else {
      v := TWO64 - 1;
      DivAtLeastOne(v, Pow2(imm));
      MinusOneShifted(Pow2(imm));
    }
  }

  lemma ImmMatters(t: Token, imm: int) returns (v: Word)
    requires IsImm(t) && (if IsShiftImm(t) then 0 <= imm < 64 else -2048 <= imm < 2048) && !Indifferent(t, imm)
    ensures ImmSelected(t, true, v, imm) != ImmOp(t, v, imm)
  {
    if t in {XORI, ORI, ANDI} {
      v := LogicMatters(t, imm);
    } else if IsShiftImm(t) {
      v := ShiftMatters(t, imm);
    } else if t == ADDI {
      v := Wrap64(imm + 1);
      AddiMatters(imm, v);
    } else {
      v := if t == SLTI then Wrap64(imm - 1) else 0;
      CompareMatters(t, imm, v);
    }
  }

  lemma AddiMatters(imm: int, v: Word)
    requires -2048 <= imm < 2048 && v == Wrap64(imm + 1)
    ensures ImmSelected(ADDI, true, v, imm) != ImmOp(ADDI, v, imm)
  {
    assert Wrap64(Wrap64(imm) + Wrap64(imm)) != Wrap64(v + imm);
  }

  lemma CompareMatters(t: Token, imm: int, v: Word)
    requires t in {SLTI, SLTIU} && -2048 <= imm < 2048 && !Indifferent(t, imm) && v == if t == SLTI then Wrap64(imm - 1) else 0
    ensures ImmSelected(t, true, v, imm) != ImmOp(t, v, imm)
  {
    CompareExact(Wrap64(imm), Wrap64(imm));
  }

  lemma ExtendInjective(h: Half, k: Half)
    requires h != k
    ensures SignExtend32(h) != SignExtend32(k)
  {
  }

  /** All ones shifted right is neither zero (logically) nor changed (arithmetically). */
  lemma OnesShifted(p: nat)
    requires 0 < p < TWO32
    ensures Wrap32((TWO32 - 1) / p) != 0 && Wrap32((-1) / p) != 0
  {
    var q := (TWO32 - 1) / p;
    DivAtLeastOne(TWO32 - 1, p);
    QuotientBound(TWO32 - 1, p);
    assert Wrap32(q) == q;
    MinusOneShifted(p);
  }

  /** The 32-bit shift of `v` by the exponent of p. */
  function ShiftedHalf(t: Token, v: Half, p: nat): Half
    requires p > 0
  {
    match t
    case SLLIW => Wrap32(v * p)
    case SRLIW => Wrap32(v / p)
    case _ => Wrap32(Signed32(v) / p)
  }

  /** Shifting `imm` itself and shifting `v` give different results. */
  predicate ShiftsDiffer(t: Token, imm: Half, p: nat, v: Half)
    requires p > 0
  {
    ShiftedHalf(t, imm, p) != ShiftedHalf(t, v, p)
  }

  lemma LeftDiffers(imm: Half, p: nat)
    requires 0 < p < TWO32 && imm < 32
    ensures ShiftsDiffer(SLLIW, imm, p, imm + 1)
  {
    ShiftLeftMatters(imm, p, TWO32);
  }

  lemma RightDiffers(t: Token, imm: Half, p: nat)
    requires t in {SRLIW, SRAIW} && 0 < p < TWO32 && imm < 32 && imm / p == 0
    ensures ShiftsDiffer(t, imm, p, TWO32 - 1)
  {
    OnesShifted(p);
  }

  lemma Imm32ShiftDiffers(t: Token, imm: Half, p: nat, v: Half)
    requires IsShiftImm32(t) && imm < 32 && p == Pow2(imm) && ShiftsDiffer(t, imm, p, v)
    ensures SignExtend32(Imm32Selected(t, true, Wrap32(v), imm)) != Imm32Op(t, v, imm)
  {
    SelectedShift(t, imm, p, v);
    OpShift(t, imm, p, v);
    ExtendInjective(ShiftedHalf(t, imm, p), ShiftedHalf(t, v, p));
  }

  lemma SelectedShift(t: Token, imm: Half, p: nat, v: Half)
    requires IsShiftImm32(t) && imm < 32 && p == Pow2(imm)
    ensures Imm32Selected(t, true, Wrap32(v), imm) == ShiftedHalf(t, imm, p)
  {
    assert Wrap32(imm) == imm && imm % 32 == imm;
  }

  lemma OpShift(t: Token, imm: Half, p: nat, v: Half)
    requires IsShiftImm32(t) && imm < 32 && p == Pow2(imm)
    ensures Imm32Op(t, v, imm) == SignExtend32(ShiftedHalf(t, v, p))
  {
    assert Wrap32(v) == v;
  }

  lemma Shift32Matters(t: Token, imm: Half, p: nat) returns (v: Half)
    requires IsShiftImm32(t) && imm < 32 && p == Pow2(imm) && p < TWO32
    ensures ShiftsDiffer(t, imm, p, v)
  {
    if t == SLLIW {
      v := imm + 1;
      LeftDiffers(imm, p);
    } else {
      v := TWO32 - 1;
      ShiftedAway(imm);
      RightDiffers(t, imm, p);
    }
  }

  lemma AddMatters(imm: int) returns (v: Half)
    requires -2048 <= imm < 2048
    ensures SignExtend32(Imm32Selected(ADDIW, true, Wrap32(v), imm)) != Imm32Op(ADDIW, v, imm)
  {
    v := Wrap32(imm + 1);
    SumsDiffer32(imm, v);
    ExtendInjective(Wrap32(Wrap32(imm) + Wrap32(imm)), Wrap32(v + imm));
  }

  lemma SumsDiffer32(imm: int, v: Half)
    requires -2048 <= imm < 2048 && v == Wrap32(imm + 1)
    ensures Wrap32(v) == v && Wrap32(Wrap32(imm) + Wrap32(imm)) != Wrap32(v + imm)
  {
  }

  lemma Imm32Matters(t: Token, imm: int) returns (v: Half)
    requires IsImm32(t) && (if IsShiftImm32(t) then 0 <= imm < 32 else -2048 <= imm < 2048)
    ensures SignExtend32(Imm32Selected(t, true, Wrap32(v), imm)) != Imm32Op(t, v, imm)
  {
    if t == ADDIW {
      v := AddMatters(imm);
    } else {
      PowerBelow(imm, 32);
      Pow2Sixty4();
      v := Shift32Matters(t, imm, Pow2(imm));
      Imm32ShiftDiffers(t, imm, Pow2(imm), v);
    }
  }

  // ----- jumps and stores -----

  lemma Four()
    ensures And64(4, TWO64 - 2) == 4
  {
    assert And(4, TWO64 - 2) == 2 * And(2, TWO63 - 1) && And(2, TWO63 - 1) == 2 * And(1, TWO63 / 2 - 1);
    assert And(1, TWO63 / 2 - 1) == 1 + 2 * And(0, TWO63 / 4 - 1);
  }

  lemma TargetMatters(imm: int) returns (v: Word)
    requires -2048 <= imm < 2048
    ensures And64(Wrap64(Wrap64(imm) + Wrap64(imm)), TWO64 - 2) != And64(Wrap64(v + imm), TWO64 - 2)
  {
    Four();
    And64Zero(TWO64 - 2);
    v := Wrap64((if And64(Wrap64(Wrap64(imm) + Wrap64(imm)), TWO64 - 2) == 0 then 4 else 0) - imm);
  }

  /** An environment whose memory remembers the last address stored to. */
  function Recorder(): Env<Word> {
    Env((m, a, z) => LoadResult(TRAP_NONE, 0, m), (m, a, z, d) => StoreResult(TRAP_NONE, a),
        (n, i) => 0, n => Flags(false, false, false), Addresses(0, 1, 2, 3))
  }

  lemma ImmHarms(info: DecodeInfo) returns (g: Guest<Word>)
    requires info.op == OpImm && WellFormed(info) && ImmHazard(info.token, info.rd, info.rs1, info.imm)
    ensures GuestOk(g) && EmittedImm(info, g) != SetReg(g, info.rd, ImmOp(info.token, g.xregs[info.rs1], info.imm))
  {
    if Lost(info.rd, info.rs1, false, 0) {
      g := With(info.rd, Wrap64(ImmOp(info.token, 0, info.imm) + 1));
      assert g.xregs[info.rd] != ImmOp(info.token, 0, info.imm);
    } else {
      AliasDistinct(info.rd, info.rs1, 0);
      var v := ImmMatters(info.token, info.imm);
      g := With(info.rs1, v);
      assert EmittedImm(info, g).xregs[info.rd] == ImmSelected(info.token, true, v, info.imm);
    }
  }

  lemma Imm32Harms(info: DecodeInfo) returns (g: Guest<Word>)
    requires info.op == OpImm32 && WellFormed(info) && ImmHazard(info.token, info.rd, info.rs1, info.imm)
    ensures GuestOk(g) && EmittedImm32(info, g) != SetReg(g, info.rd, Imm32Op(info.token, g.xregs[info.rs1], info.imm))
  {
    if Lost(info.rd, info.rs1, false, 0) {
      g := With(info.rd, Wrap64(Imm32Op(info.token, 0, info.imm) + 1));
      assert g.xregs[info.rd] != Imm32Op(info.token, 0, info.imm);
    } else {
      AliasDistinct(info.rd, info.rs1, 0);
      var v := Imm32Matters(info.token, info.imm);
      g := With(info.rs1, v);
      assert EmittedImm32(info, g).xregs[info.rd] == SignExtend32(Imm32Selected(info.token, true, Wrap32(v), info.imm));
    }
  }

  lemma RegInsHarms(info: DecodeInfo) returns (g: Guest<Word>)
    requires info.op in {OpReg, OpRv32} && WellFormed(info) && RegHazard(info.token, info.rd, info.rs1, info.rs2)
    ensures GuestOk(g)
    ensures (if info.op == OpReg then EmittedReg(info, g) else EmittedReg32(info, g))
         != SetReg(g, info.rd, OpValue(info.token, g.xregs[info.rs1], g.xregs[info.rs2]))
  {
    g := RegHarms(info.token, info.rd, info.rs1, info.rs2);
    var e := if info.op == OpReg then EmittedReg(info, g) else EmittedReg32(info, g);
    assert e.xregs[info.rd] == EmittedAt(info.token, info.rd, info.rs1, info.rs2, g);
  }

  lemma JalrHarms(info: DecodeInfo) returns (g: Guest<Word>)
    requires info.op == OpJalr && WellFormed(info) && info.rd != 0 && SameWork(info.rd, info.rs1, 1)
    ensures GuestOk(g) && EmittedTarget(info, g) != IndirectTarget(info, g.xregs[info.rs1])
  {
    WorkTarget(info.rd);
    assert info.rs1 != 0;
    var v := TargetMatters(info.imm);
    g := With(info.rs1, v);
    TargetsAre(info, g, v);
  }

  lemma TargetsAre(info: DecodeInfo, g: Guest<Word>, v: Word)
    requires GuestOk(g) && SameWork(info.rd, info.rs1, 1) && g.xregs[info.rs1] == v
    ensures EmittedTarget(info, g) == And64(Wrap64(Wrap64(info.imm) + Wrap64(info.imm)), TWO64 - 2)
    ensures IndirectTarget(info, g.xregs[info.rs1]) == And64(Wrap64(v + info.imm), TWO64 - 2)
  {
  }

  /** A jump that links to x0 loses its target. */
  lemma ZeroLinkHarms(info: DecodeInfo) returns (g: Guest<Word>)
    requires info.op == OpJalr && WellFormed(info) && info.rd == 0 && (info.rs1 != 0 || IndirectTarget(info, 0) != 0)
    ensures GuestOk(g) && EmittedJalr(info, g).pc == 0 && IndirectTarget(info, g.xregs[info.rs1]) != 0
  {
    if info.rs1 == 0 {
      g := With(0, 0);
    } else {
      Four();
      g := With(info.rs1, Wrap64(4 - info.imm));
      assert Wrap64(g.xregs[info.rs1] + info.imm) == 4;
    }
  }

  lemma AuipcHarms(info: DecodeInfo) returns (g: Guest<Word>)
    requires info.op == OpAuipc && WellFormed(info) && info.rd != 0 && !FitsInt32(Wrap64(info.pc + info.imm))
    ensures GuestOk(g) && SetReg(g, info.rd, Wrap64(AuipcImm(info))) != SetReg(g, info.rd, Wrap64(info.pc + info.imm))
  {
    g := With(0, 0);
    AuipcValue(info.pc, info.imm);
    assert SetReg(g, info.rd, Wrap64(AuipcImm(info))).xregs[info.rd] == Wrap64(AuipcImm(info));
  }

  lemma StoreHarms(info: DecodeInfo) returns (g: Guest<Word>)
    requires info.op == OpStore && WellFormed(info) && info.rs1 == 10
    ensures GuestOk(g) && EmittedAddress(info, g) != EffectiveAddress(info, g.xregs[info.rs1])
  {
    g := With(10, Wrap64(info.imm + 1));
  }

  /** HazardFree is exact: whatever it excludes goes wrong in some state and some memory system. */
  lemma HazardHarms(info: DecodeInfo) returns (env: Env<Word>, g: Guest<Word>)
    requires Translatable(info) && !HazardFree(info)
    ensures GuestOk(g) && EmittedGuest(env, info, g) != ExecGuest(env, info, g)
    ensures EmittedNoTrap(env, info, g) && env.at.storeFn != env.at.loadFn
  {
    env := Recorder();
    if info.op in {OpReg, OpRv32} {
      g := RegInsHarms(info);
    } else if info.op == OpImm {
      g := ImmHarms(info);
    } else if info.op == OpImm32 {
      g := Imm32Harms(info);
    } else if info.op == OpAuipc {
      g := AuipcHarms(info);
    } else if info.op == OpJal {
      g := With(0, 0);
    } else if info.op == OpJalr {
      if info.rd == 0 { g := ZeroLinkHarms(info); } else { g := JalrHarms(info); }
    } else {
      g := StoreHarms(info);
    }
  }

  /** A host at the entry of a translated block, with the guest `g` in the CPU object. */
  function HostFor(g: Guest<Word>): Host<Word> {
    Host(seq(31, i => 0), 0, Flags(false, false, false), map[], g.xregs, g.pc, 0, g.ram, 0, 0, Go, true)
  }

  /** What a caller sees determines the guest. */
  lemma ReturnedOne<G>(g: Guest<G>, other: Guest<G>, n: nat, s0: Host<G>, f: Host<G>)
    requires Returned(g, n, s0, f) && g != other
    ensures !Returned(other, n, s0, f)
  {
  }

  /**
   Necessity, on the machine: for every instruction HazardFree excludes there is a host on which the translated
   block of that one instruction, prolog and epilog included, runs to its end without a trap and does not return
   the interpreter's state.
   */
  lemma {:induction false} HazardShows(info: DecodeInfo) returns (env: Env<Word>, g: Guest<Word>, s0: Host<Word>)
    requires Translatable(info) && !HazardFree(info)
    ensures AtEntry(g, s0) && env.at.storeFn != env.at.loadFn
    ensures var f := Run(env, BlockCode(env.at, [info]), s0);
            Running(f) && !Returned(ExecGuest(env, info, g), 1, s0, f)
  {
    env, g := HazardHarms(info);
    s0 := HostFor(g);
    OneInstruction(env, info, g, s0, ExecGuest(env, info, g));
  }

  lemma {:induction false} OneInstruction(env: Env<Word>, info: DecodeInfo, g: Guest<Word>, s0: Host<Word>, other: Guest<Word>)
    requires Translatable(info) && AtEntry(g, s0) && env.at.storeFn != env.at.loadFn && EmittedNoTrap(env, info, g)
    requires EmittedGuest(env, info, g) != other
    ensures var f := Run(env, BlockCode(env.at, [info]), s0); Running(f) && !Returned(other, 1, s0, f)
  {
    var e := EmittedGuest(env, info, g);
    assert [info][1..] == [];
    assert EmittedBlock(env, [info], g) == e;
    BlockRuns(env, [info], g, s0);
    var f := Run(env, BlockCode(env.at, [info]), s0);
    ReturnedOne(e, other, 1, s0, f);
  }
}
