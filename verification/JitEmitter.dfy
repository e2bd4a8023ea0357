/**
 The translator itself (class JitEmitter of src/jit/jit.cc): an assembler buffer that
 grows one emit call at a time.  Every method is proved to append exactly the code
 JitCode gives, so that a whole translation yields the function the block theorems
 are about.
 */
module JitEmitter {
  import opened Guard
  import opened Words
  import opened Isa
  import opened A64
  import opened JitCode
  import opened JitBlock

  lemma Glue<T>(s: seq<T>, a: seq<T>, b: seq<T>)
    ensures (s + a) + b == s + (a + b)
  {
  }

  lemma Unit<T>(a: seq<T>)
    ensures [] + a == a
  {
  }

  /** Opcodes Emit has a translation for. */
  predicate Handled(info: DecodeInfo) {
    && info.token != UNKNOWN
    && info.op in {OpReg, OpRv32, OpImm, OpImm32, OpLui, OpAuipc, OpJal, OpJalr, OpLoad, OpStore}
  }

  /** The entry of kRv64ToA64Map. */
  method A64Reg(r: Reg) returns (home: int)
    ensures home == if InMemory(r) then -1 else Home(r)
  {
    MapToA64(r);
    home := RV64_TO_A64[r];
  }

  class Emitter {
    const at: Addresses
    var code: seq<Ins>
    var labels: Label
    var delta: Word

    constructor (at: Addresses)
      ensures this.at == at && code == [] && labels == 0 && delta == 0
    {
      this.at := at;
      code, labels, delta := [], 0, 0;
    }

    method NewLabel() returns (l: Label)
      modifies `labels
      ensures l == old(labels) && labels == l + 1
    {
      l := labels;
      labels := labels + 1;
    }

    // ----- moving guest registers -----

    method SaveVolatileA64Reg()
      modifies `code
      ensures code == old(code) + SaveVolatile()
    {
      var i := 0;
      while i <= 18
        invariant 0 <= i <= 19 && code == old(code) + SaveVolatile()[..i]
      {
        MapToRv64(i);
        Glue(old(code), SaveVolatile()[..i], [SaveVolatile()[i]]);
        code := code + [Str(X, i, XregCell(A64_TO_RV64[i]))];
        assert SaveVolatile()[..i + 1] == SaveVolatile()[..i] + [SaveVolatile()[i]];
        i := i + 1;
      }
      assert SaveVolatile()[..19] == SaveVolatile();
    }

    method RestoreVolatileA64Reg()
      modifies `code
      ensures code == old(code) + RestoreVolatile()
    {
      var i := 0;
      while i <= 18
        invariant 0 <= i <= 19 && code == old(code) + RestoreVolatile()[..i]
      {
        MapToRv64(i);
        Glue(old(code), RestoreVolatile()[..i], [RestoreVolatile()[i]]);
        code := code + [Ldr(X, i, XregCell(A64_TO_RV64[i]))];
        assert RestoreVolatile()[..i + 1] == RestoreVolatile()[..i] + [RestoreVolatile()[i]];
        i := i + 1;
      }
      assert RestoreVolatile()[..19] == RestoreVolatile();
    }

    method SaveHostPairs()
      modifies `code
      ensures code == old(code) + SaveHost()
    {
      var i := 0;
      while i <= 28
        invariant 0 <= i <= 30 && i % 2 == 0 && code == old(code) + SaveHost()[..i / 2]
      {
        Glue(old(code), SaveHost()[..i / 2], [SaveHost()[i / 2]]);
        code := code + [Stp(i, i + 1, 8 * i)];
        assert SaveHost()[..i / 2 + 1] == SaveHost()[..i / 2] + [SaveHost()[i / 2]];
        i := i + 2;
      }
      assert SaveHost()[..15] == SaveHost();
    }

    method RestoreHostPairs()
      modifies `code
      ensures code == old(code) + RestoreHost()
    {
      var i := 0;
      while i <= 28
        invariant 0 <= i <= 30 && i % 2 == 0 && code == old(code) + RestoreHost()[..i / 2]
      {
        Glue(old(code), RestoreHost()[..i / 2], [RestoreHost()[i / 2]]);
        code := code + [Ldp(i, i + 1, 8 * i)];
        assert RestoreHost()[..i / 2 + 1] == RestoreHost()[..i / 2] + [RestoreHost()[i / 2]];
        i := i + 2;
      }
      assert RestoreHost()[..15] == RestoreHost();
    }

    /** kRv64ToA64Map has 32 entries. */
    method LoadGuestRegisters(n: nat)
      requires n <= 32
      modifies `code
      ensures code == old(code) + LoadGuest(n)
    {
      var i := 0;
      while i < n
        invariant 0 <= i <= n && code == old(code) + LoadGuest(i)
      {
        var home := A64Reg(i);
        if home >= 0 {
          Glue(old(code), LoadGuest(i), [Ldr(X, home, XregCell(i))]);
          code := code + [Ldr(X, home, XregCell(i))];
        }
        i := i + 1;
      }
    }

    method StoreGuestRegisters(n: nat)
      requires n <= 32
      modifies `code
      ensures code == old(code) + StoreGuest(n)
    {
      var i := 0;
      while i < n
        invariant 0 <= i <= n && code == old(code) + StoreGuest(i)
      {
        var home := A64Reg(i);
        if home >= 0 {
          Glue(old(code), StoreGuest(i), [Str(X, home, XregCell(i))]);
          code := code + [Str(X, home, XregCell(i))];
        }
        i := i + 1;
      }
    }

    method EmitProlog()
      modifies `code
      ensures code == old(code) + Prolog(at.cpu)
    {
      code := code + [SubSp(256)];
      SaveHostPairs();
      code := code + [Str(X, 30, Slot(240)), MovA(29, at.cpu)];
      LoadGuestRegisters(|RV64_TO_A64|);
      Glue(old(code), [SubSp(256)], SaveHost());
      Glue(old(code), [SubSp(256)] + SaveHost(), [Str(X, 30, Slot(240)), MovA(29, at.cpu)]);
      Glue(old(code), [SubSp(256)] + SaveHost() + [Str(X, 30, Slot(240)), MovA(29, at.cpu)], LoadGuest(|RV64_TO_A64|));
    }

    method CommitInstretCode()
      modifies `code, `delta
      ensures code == old(code) + CommitInstret(16, old(delta)) && delta == 0
    {
      code := code + [SubSp(16), Stp(0, 1, 0)];
      code := code + [MovA(0, delta), Ldr(X, 1, InstretCell), Alu(Add, X, 0, 0, 1)];
      code := code + [Str(X, 0, InstretCell), Ldp(0, 1, 0), AddSp(16)];
      delta := 0;
    }

    method EmitEpilog()
      modifies `code, `delta
      ensures code == old(code) + Epilog(old(delta)) && delta == 0
    {
      code := code + [ExitTag];
      CommitInstretCode();
      StoreGuestRegisters(|RV64_TO_A64|);
      RestoreHostPairs();
      code := code + [Ldr(X, 30, Slot(240)), AddSp(256), Ret(30)];
      SixParts(old(code), [ExitTag], CommitInstret(16, old(delta)), StoreGuest(|RV64_TO_A64|), RestoreHost(),
               [Ldr(X, 30, Slot(240)), AddSp(256), Ret(30)]);
    }

    // ----- selectors -----

    method SelectDivision(w: Width, rs2: Gp, body: seq<Ins>, alt: seq<Ins>)
      modifies `code, `labels
      ensures code == old(code) + IfZero(w, rs2, old(labels), body, alt, old(labels) + 1) && labels == old(labels) + 2
    {
      var zero := NewLabel();
      var end := NewLabel();
      code := code + [Cbz(w, rs2, zero)];
      code := code + body;
      code := code + [B(end), Bind(zero)];
      code := code + alt;
      code := code + [Bind(end)];
      ghost var l := old(labels);
      Glue(old(code), [Cbz(w, rs2, l)], body);
      Glue(old(code), [Cbz(w, rs2, l)] + body, [B(l + 1), Bind(l)]);
      Glue(old(code), [Cbz(w, rs2, l)] + body + [B(l + 1), Bind(l)], alt);
      Glue(old(code), [Cbz(w, rs2, l)] + body + [B(l + 1), Bind(l)] + alt, [Bind(l + 1)]);
    }

    method SelectMulhsu(rd: Gp, rs1: Gp, rs2: Gp)
      modifies `code, `labels
      ensures code == old(code) + MulhsuCode(rd, rs1, rs2, old(labels)) && labels == old(labels) + 4
    {
      var unsignedRs1 := NewLabel();
      var zero := NewLabel();
      var signedRs1 := NewLabel();
      var end := NewLabel();
      var test := [Cbz(X, rs1, zero), Cbz(X, rs2, zero), Tbnz63(rs1, signedRs1)];
      var plus := [Bind(unsignedRs1), Alu(Umulh, X, rd, rs1, rs2), B(end)];
      var minus := [Bind(signedRs1), Neg(rd, rs1), Alu(Umulh, X, rd, rd, rs2)] + [Mvn(rd, rd), B(end)];
      var none := [Bind(zero), MovI(X, rd, 0), Bind(end)];
      code := code + test;
      code := code + plus;
      code := code + minus;
      code := code + none;
      Glue(old(code), test, plus);
      Glue(old(code), test + plus, minus);
      Glue(old(code), test + plus + minus, none);
    }

    method SelectDivRem(rd: Gp, rs1: Gp, rs2: Gp, t: Token)
      requires t in {DIV, DIVU, REM, REMU}
      modifies `code, `labels
      ensures code == old(code) + RegSelect(rd, rs1, rs2, t, old(labels)) && labels == old(labels) + 2
    {
      if t == DIV {
        SelectDivision(X, rs2, [Alu(Sdiv, X, rd, rs1, rs2)], [MovA(rd, TWO64 - 1)]);
      } else if t == DIVU {
        SelectDivision(X, rs2, [Alu(Udiv, X, rd, rs1, rs2)], [MovA(rd, TWO64 - 1)]);
      } else if t == REM {
        SelectDivision(X, rs2, [Alu(Sdiv, X, rd, rs1, rs2), Msub(X, rd, rd, rs2, rs1)], [MovR(X, rd, rs1)]);
      } else {
        SelectDivision(X, rs2, [Alu(Udiv, X, rd, rs1, rs2), Msub(X, rd, rd, rs2, rs1)], [MovR(X, rd, rs1)]);
      }
    }

    method SelectMultiply(rd: Gp, rs1: Gp, rs2: Gp, t: Token)
      requires t in {MUL, MULH, MULHSU, MULHU}
      modifies `code, `labels
      ensures code == old(code) + RegSelect(rd, rs1, rs2, t, old(labels))
      ensures labels == old(labels) + if t == MULHSU then 4 else 0
    {
      if t == MULHSU {
        SelectMulhsu(rd, rs1, rs2);
      } else {
        code := code + [Alu(if t == MUL then Mul else if t == MULH then Smulh else Umulh, X, rd, rs1, rs2)];
      }
    }

    method SelectCompare(rd: Gp, rs1: Gp, rs2: Gp, t: Token)
      requires t in {SLT, SLTU}
      modifies `code
      ensures forall l :: code == old(code) + RegSelect(rd, rs1, rs2, t, l)
    {
      code := code + [Cmp(rs1, rs2), Cset(rd, if t == SLT then CondLT else CondLO)];
    }

    method SelectA64RegInstruction(rd: Gp, rs1: Gp, rs2: Gp, t: Token)
      modifies `code, `labels
      ensures code == old(code) + RegSelect(rd, rs1, rs2, t, old(labels))
      ensures labels == old(labels) + (if t == MULHSU then 4 else if t in {DIV, DIVU, REM, REMU} then 2 else 0)
    {
      if t in {DIV, DIVU, REM, REMU} {
        SelectDivRem(rd, rs1, rs2, t);
      } else if t in {MUL, MULH, MULHSU, MULHU} {
        SelectMultiply(rd, rs1, rs2, t);
      } else if t in {SLT, SLTU} {
        SelectCompare(rd, rs1, rs2, t);
      } else {
        SelectPlain(rd, rs1, rs2, t);
      }
    }

    method SelectPlain(rd: Gp, rs1: Gp, rs2: Gp, t: Token)
      requires t !in {DIV, DIVU, REM, REMU, MUL, MULH, MULHSU, MULHU, SLT, SLTU}
      modifies `code
      ensures forall l :: code == old(code) + RegSelect(rd, rs1, rs2, t, l)
    {
      if t in {ADD, SUB, SLL, XOR, SRL, SRA, OR, AND} {
        code := code + [Alu(if t == ADD then Add else if t == SUB then Sub else if t == SLL then Lslv else if t == XOR then Eor
                            else if t == SRL then Lsrv else if t == SRA then Asrv else if t == OR then Orr else And_, X, rd, rs1, rs2)];
      }
    }

    method SelectDivisionW(rd: Gp, rs2: Gp, body: seq<Ins>, alt: seq<Ins>)
      modifies `code, `labels
      ensures code == old(code) + (IfZero(W, rs2, old(labels), body, alt, old(labels) + 1) + Sxtw(rd))
      ensures labels == old(labels) + 2
    {
      SelectDivision(W, rs2, body, alt);
      Glue(old(code), IfZero(W, rs2, old(labels), body, alt, old(labels) + 1), Sxtw(rd));
      code := code + [Sxt(TWO32, rd, rd)];
    }

    method SelectWord(op: AluOp, rd: Gp, rs1: Gp, rs2: Gp)
      modifies `code
      ensures code == old(code) + ([Alu(op, W, rd, rs1, rs2)] + Sxtw(rd))
    {
      code := code + [Alu(op, W, rd, rs1, rs2)];
      code := code + [Sxt(TWO32, rd, rd)];
    }

    method SelectDivRemW(rd: Gp, rs1: Gp, rs2: Gp, t: Token)
      requires t in {DIVW, DIVUW, REMW, REMUW}
      modifies `code, `labels
      ensures code == old(code) + Reg32Select(rd, rs1, rs2, t, old(labels)) && labels == old(labels) + 2
    {
      if t == DIVW {
        SelectDivisionW(rd, rs2, [Alu(Sdiv, W, rd, rs1, rs2)], [MovI(W, rd, TWO32 - 1)]);
      } else if t == DIVUW {
        SelectDivisionW(rd, rs2, [Alu(Udiv, W, rd, rs1, rs2)], [MovI(W, rd, TWO32 - 1)]);
      } else if t == REMW {
        SelectDivisionW(rd, rs2, [Alu(Sdiv, W, rd, rs1, rs2), Msub(W, rd, rd, rs2, rs1)], [MovR(W, rd, rs1)]);
      } else {
        SelectDivisionW(rd, rs2, [Alu(Udiv, W, rd, rs1, rs2), Msub(W, rd, rd, rs2, rs1)], [MovR(W, rd, rs1)]);
      }
    }

    method SelectA64Reg32Instruction(rd: Gp, rs1: Gp, rs2: Gp, t: Token)
      modifies `code, `labels
      ensures code == old(code) + Reg32Select(rd, rs1, rs2, t, old(labels))
      ensures labels == old(labels) + (if t in {DIVW, DIVUW, REMW, REMUW} then 2 else 0)
    {
      if t in {DIVW, DIVUW, REMW, REMUW} {
        SelectDivRemW(rd, rs1, rs2, t);
      } else if t in {ADDW, SUBW, SLLW, SRLW, SRAW, MULW} {
        SelectWord(if t == ADDW then Add else if t == SUBW then Sub else if t == SLLW then Lslv
                   else if t == SRLW then Lsrv else if t == SRAW then Asrv else Mul, rd, rs1, rs2);
      }
    }

    method SelectA64ImmInstruction(rd: Gp, rs1: Gp, imm: int, t: Token)
      modifies `code
      ensures code == old(code) + ImmSelect(rd, rs1, imm, t)
    {
      match t
      case ADDI => code := code + [MovI(X, rd, imm), Alu(Add, X, rd, rs1, rd)];
      case SLTI => code := code + [MovI(X, rd, imm), Cmp(rs1, rd), Cset(rd, CondLT)];
      case SLTIU => code := code + [MovI(X, rd, imm), Cmp(rs1, rd), Cset(rd, CondLO)];
      case XORI => code := code + [MovI(X, rd, imm), Alu(Eor, X, rd, rs1, rd)];
      case ORI => code := code + [MovI(X, rd, imm), Alu(Orr, X, rd, rs1, rd)];
      case ANDI => code := code + [MovI(X, rd, imm), Alu(And_, X, rd, rs1, rd)];
      case SLLI => code := code + [MovI(X, rd, imm), Alu(Lslv, X, rd, rs1, rd)];
      case SRLI => code := code + [MovI(X, rd, imm), Alu(Lsrv, X, rd, rs1, rd)];
      case SRAI => code := code + [MovI(X, rd, imm), Alu(Asrv, X, rd, rs1, rd)];
      case _ =>
    }

    method SelectA64Imm32Instruction(rd: Gp, rs1: Gp, imm: int, t: Token)
      modifies `code
      ensures code == old(code) + Imm32Select(rd, rs1, imm, t)
    {
      match t {
        case ADDIW => code := code + [MovI(W, rd, imm), Alu(Add, W, rd, rs1, rd)];
        case SLLIW => code := code + [MovI(W, rd, imm), Alu(Lslv, W, rd, rs1, rd)];
        case SRLIW => code := code + [MovI(W, rd, imm), Alu(Lsrv, W, rd, rs1, rd)];
        case SRAIW => code := code + [MovI(W, rd, imm), Alu(Asrv, W, rd, rs1, rd)];
        case _ => return;
      }
      code := code + [Sxt(TWO32, rd, rd)];
    }

    method SelectSignExtendInstruction(t: Token)
      modifies `code
      ensures code == old(code) + SignExtendSelect(t)
    {
      match t
      case LB => code := code + [Sxt(0x100, 0, 0)];
      case LH => code := code + [Sxt(0x1_0000, 0, 0)];
      case LW => code := code + [Sxt(TWO32, 0, 0)];
      case _ =>
    }

    // ----- instructions -----

    method Spill(spilled: bool, scratch: Gp, slot: nat, r: Reg)
      modifies `code
      ensures code == old(code) + SpillSource(spilled, scratch, slot, r)
    {
      if spilled {
        code := code + [Str(X, scratch, Slot(slot)), Ldr(X, scratch, XregCell(r))];
      }
    }

    method Unspill(spilled: bool, scratch: Gp, slot: nat)
      modifies `code
      ensures code == old(code) + UnspillSource(spilled, scratch, slot)
    {
      if spilled {
        code := code + [Ldr(X, scratch, Slot(slot))];
      }
    }

    /** Up to the point where the operands are in registers. */
    method OpenFrame(frame: nat, rd: Reg, rs1: Reg, two: bool, rs2: Reg)
      modifies `code
      ensures code == old(code) + Opening(frame, rd, rs1, two, rs2)
    {
      code := code + [SubSp(frame)];
      Spill(two && InMemory(rs2), 2, 16, rs2);
      Spill(InMemory(rs1), 1, 8, rs1);
      ghost var a, b := SpillSource(two && InMemory(rs2), 2, 16, rs2), SpillSource(InMemory(rs1), 1, 8, rs1);
      Glue(old(code), [SubSp(frame)], a);
      Glue(old(code), [SubSp(frame)] + a, b);
      if InMemory(rd) {
        Glue(old(code), [SubSp(frame)] + a + b, [Str(X, 0, Slot(0))]);
        code := code + [Str(X, 0, Slot(0))];
      }
    }

    method CloseFrame(frame: nat, rd: Reg, rs1: Reg, two: bool, rs2: Reg)
      modifies `code
      ensures code == old(code) + Closing(frame, rd, rs1, two, rs2)
    {
      ghost var back := [Str(X, 0, XregCell(rd)), Ldr(X, 0, Slot(0))];
      ghost var a, b := UnspillSource(InMemory(rs1), 1, 8), UnspillSource(two && InMemory(rs2), 2, 16);
      if InMemory(rd) {
        code := code + [Str(X, 0, XregCell(rd)), Ldr(X, 0, Slot(0))];
      }
      ghost var o := code;
      Unspill(InMemory(rs1), 1, 8);
      Unspill(two && InMemory(rs2), 2, 16);
      code := code + [AddSp(frame)];
      Glue(o, a, b);
      Glue(o, a + b, [AddSp(frame)]);
      if InMemory(rd) {
        Glue(old(code), back, a + b + [AddSp(frame)]);
      }
    }

    method EmitReg(info: DecodeInfo) returns (ok: bool)
      modifies `code, `labels
      ensures ok && code == old(code) + RegCode(info, old(labels))
      ensures info.op == OpReg ==> labels == old(labels) + LabelsUsed(info)
    {
      ok := true;
      if info.rd == 0 { return; }
      var rd, rs1, rs2 := Work(info.rd, 0), Work(info.rs1, 1), Work(info.rs2, 2);
      if !InMemory(info.rd) && !InMemory(info.rs1) && !InMemory(info.rs2) {
        SelectA64RegInstruction(rd, rs1, rs2, info.token);
        return;
      }
      OpenFrame(32, info.rd, info.rs1, true, info.rs2);
      SelectA64RegInstruction(rd, rs1, rs2, info.token);
      CloseFrame(32, info.rd, info.rs1, true, info.rs2);
      SpilledShape(old(code), 32, info.rd, info.rs1, true, info.rs2, RegSelect(rd, rs1, rs2, info.token, old(labels)));
    }

    method EmitReg32(info: DecodeInfo) returns (ok: bool)
      modifies `code, `labels
      ensures ok && code == old(code) + Reg32Code(info, old(labels))
      ensures info.op == OpRv32 ==> labels == old(labels) + LabelsUsed(info)
    {
      ok := true;
      if info.rd == 0 { return; }
      var rd, rs1, rs2 := Work(info.rd, 0), Work(info.rs1, 1), Work(info.rs2, 2);
      if !InMemory(info.rd) && !InMemory(info.rs1) && !InMemory(info.rs2) {
        SelectA64Reg32Instruction(rd, rs1, rs2, info.token);
        return;
      }
      OpenFrame(32, info.rd, info.rs1, true, info.rs2);
      SelectA64Reg32Instruction(rd, rs1, rs2, info.token);
      CloseFrame(32, info.rd, info.rs1, true, info.rs2);
      SpilledShape(old(code), 32, info.rd, info.rs1, true, info.rs2, Reg32Select(rd, rs1, rs2, info.token, old(labels)));
    }

    method EmitImm(info: DecodeInfo) returns (ok: bool)
      modifies `code
      ensures ok && code == old(code) + ImmCode(info)
    {
      ok := true;
      if info.rd == 0 { return; }
      var rd, rs1 := Work(info.rd, 0), Work(info.rs1, 1);
      if !InMemory(info.rd) && !InMemory(info.rs1) {
        SelectA64ImmInstruction(rd, rs1, info.imm, info.token);
        return;
      }
      OpenFrame(16, info.rd, info.rs1, false, info.rs2);
      SelectA64ImmInstruction(rd, rs1, info.imm, info.token);
      CloseFrame(16, info.rd, info.rs1, false, info.rs2);
      SpilledShape(old(code), 16, info.rd, info.rs1, false, info.rs2, ImmSelect(rd, rs1, info.imm, info.token));
    }

    method EmitImm32(info: DecodeInfo) returns (ok: bool)
      modifies `code
      ensures ok && code == old(code) + Imm32Code(info)
    {
      ok := true;
      if info.rd == 0 { return; }
      var rd, rs1 := Work(info.rd, 0), Work(info.rs1, 1);
      if !InMemory(info.rd) && !InMemory(info.rs1) {
        SelectA64Imm32Instruction(rd, rs1, info.imm, info.token);
        return;
      }
      OpenFrame(16, info.rd, info.rs1, false, info.rs2);
      SelectA64Imm32Instruction(rd, rs1, info.imm, info.token);
      CloseFrame(16, info.rd, info.rs1, false, info.rs2);
      SpilledShape(old(code), 16, info.rd, info.rs1, false, info.rs2, Imm32Select(rd, rs1, info.imm, info.token));
    }

    method EmitLui(rd: Reg, imm: int) returns (ok: bool)
      modifies `code
      ensures ok && code == old(code) + LuiCode(rd, imm)
    {
      ok := true;
      if rd == 0 { return; }
      if !InMemory(rd) {
        code := code + [MovI(X, Home(rd), imm)];
        return;
      }
      code := code + [SubSp(16), Str(X, 0, Slot(0))];
      code := code + [MovI(X, 0, imm), Str(X, 0, XregCell(rd))];
      code := code + [Ldr(X, 0, Slot(0)), AddSp(16)];
    }

    method EmitAuipc(info: DecodeInfo) returns (ok: bool)
      modifies `code
      ensures ok && code == old(code) + LuiCode(info.rd, AuipcImm(info))
    {
      var imm := Signed32(Wrap32(info.imm + info.pc));
      ok := EmitLui(info.rd, imm);
    }

    method EmitJal(info: DecodeInfo) returns (ok: bool)
      modifies `code
      ensures ok && code == old(code) + JalCode(info)
    {
      ok := true;
      var to, link := JumpTarget(info), LinkAddress(info);
      if !InMemory(info.rd) {
        var rd := Home(info.rd);
        code := code + [MovA(rd, to), Str(X, rd, PcCell), MovA(rd, link)];
        return;
      }
      ghost var open, jump := [SubSp(16), Str(X, 0, Slot(0))], [MovA(0, to), Str(X, 0, PcCell)];
      ghost var save, close := [MovA(0, link), Str(X, 0, XregCell(info.rd))], [Ldr(X, 0, Slot(0)), AddSp(16)];
      code := code + [SubSp(16), Str(X, 0, Slot(0))];
      code := code + [MovA(0, to), Str(X, 0, PcCell)];
      code := code + [MovA(0, link), Str(X, 0, XregCell(info.rd))];
      code := code + [Ldr(X, 0, Slot(0)), AddSp(16)];
      Glue(old(code), open, jump);
      Glue(old(code), open + jump, save);
      Glue(old(code), open + jump + save, close);
    }

    method SelectJalr(info: DecodeInfo, rd: Gp, rs1: Gp)
      modifies `code
      ensures code == old(code) + JalrCore(info, rd, rs1)
    {
      code := code + [MovI(X, rd, info.imm), Alu(Add, X, rd, rd, rs1), AndImm(rd, rd, TWO64 - 2)];
      code := code + [Str(X, rd, PcCell), MovA(rd, LinkAddress(info))];
    }

    method EmitJalr(info: DecodeInfo) returns (ok: bool)
      modifies `code
      ensures ok && code == old(code) + JalrCode(info)
    {
      ok := true;
      var rd, rs1 := Work(info.rd, 0), Work(info.rs1, 1);
      if !InMemory(info.rd) && !InMemory(info.rs1) {
        SelectJalr(info, rd, rs1);
        return;
      }
      ghost var a, b := SpillSource(InMemory(info.rs1), 1, 8, info.rs1), SpillSource(InMemory(info.rd), 0, 0, info.rd);
      ghost var core := JalrCore(info, rd, rs1);
      code := code + [SubSp(16)];
      Spill(InMemory(info.rs1), 1, 8, info.rs1);
      Spill(InMemory(info.rd), 0, 0, info.rd);
      SelectJalr(info, rd, rs1);
      Glue(old(code), [SubSp(16)], a);
      Glue(old(code), [SubSp(16)] + a, b);
      Glue(old(code), [SubSp(16)] + a + b, core);
      ghost var back: seq<Ins>, soFar := [], [SubSp(16)] + a + b + core;
      if InMemory(info.rd) {
        back := [Str(X, 0, XregCell(info.rd)), Ldr(X, 0, Slot(0))];
        code := code + [Str(X, 0, XregCell(info.rd)), Ldr(X, 0, Slot(0))];
      }
      Glue(old(code), soFar, back);
      Unspill(InMemory(info.rs1), 1, 8);
      Glue(old(code), soFar + back, UnspillSource(InMemory(info.rs1), 1, 8));
      code := code + [AddSp(16)];
      Glue(old(code), soFar + back + UnspillSource(InMemory(info.rs1), 1, 8), [AddSp(16)]);
    }

    // ----- memory accesses -----

    method LoadCall(info: DecodeInfo)
      modifies `code
      ensures code == old(code) + LoadCallCode(info, at.trapAddr, at.loadFn)
    {
      code := code + [SubSp(32), Stp(29, 30, 0)];
      ghost var o := code;
      if InMemory(info.rs1) {
        code := code + [Ldr(X, 1, XregCell(info.rs1))];
      } else {
        code := code + [MovR(X, 1, Home(info.rs1))];
      }
      code := code + [MovI(X, 2, info.imm), Alu(Add, X, 1, 1, 2)];
      assert code == o + AddressInX1(info);
      o := code;
      code := code + [MovR(X, 0, 29), MovI(X, 2, info.memSize)];
      code := code + [MovA(3, at.trapAddr), MovA(4, at.loadFn)];
      assert code == o + LoadArgsCode(info, at.trapAddr, at.loadFn);
      code := code + [Blr(4), Str(X, 0, Slot(24))];
      Glue(old(code), [SubSp(32), Stp(29, 30, 0)], AddressInX1(info));
      Glue(old(code), [SubSp(32), Stp(29, 30, 0)] + AddressInX1(info), LoadArgsCode(info, at.trapAddr, at.loadFn));
      Glue(old(code), [SubSp(32), Stp(29, 30, 0)] + AddressInX1(info) + LoadArgsCode(info, at.trapAddr, at.loadFn),
           [Blr(4), Str(X, 0, Slot(24))]);
    }

    method AfterCall(slot: nat, fail: Label)
      modifies `code
      ensures code == old(code) + (TestTrap(at.trapAddr, slot) + Return(slot, fail))
    {
      code := code + [MovA(0, at.trapAddr), Ldr(W, 0, TrapType(0))];
      code := code + [SubImmW(0, 0, TRAP_NONE), Str(W, 0, Slot(slot))];
      assert code == old(code) + TestTrap(at.trapAddr, slot);
      ghost var o := code;
      RestoreVolatileA64Reg();
      code := code + [Ldp(29, 30, 0)];
      code := code + [Ldr(W, 0, Slot(slot)), Cbnz(W, 0, fail)];
      Glue(o + RestoreVolatile(), [Ldp(29, 30, 0)], [Ldr(W, 0, Slot(slot)), Cbnz(W, 0, fail)]);
      Glue(o, RestoreVolatile(), [Ldp(29, 30, 0)] + [Ldr(W, 0, Slot(slot)), Cbnz(W, 0, fail)]);
      Glue(old(code), TestTrap(at.trapAddr, slot), Return(slot, fail));
    }

    method LoadResult(info: DecodeInfo)
      modifies `code
      ensures code == old(code) + LoadResultCode(info)
    {
      code := code + [Ldr(X, 0, Slot(24))];
      SelectSignExtendInstruction(info.token);
      Glue(old(code), [Ldr(X, 0, Slot(24))], SignExtendSelect(info.token));
      ghost var head := [Ldr(X, 0, Slot(24))] + SignExtendSelect(info.token);
      ghost var tail := [Str(X, 0, XregCell(info.rd)), Ldr(X, 0, XregCell(10)), AddSp(32)];
      ghost var home: seq<Ins> := [];
      code := code + [Str(X, 0, XregCell(info.rd)), Ldr(X, 0, XregCell(10)), AddSp(32)];
      if !InMemory(info.rd) {
        home := [Ldr(X, Home(info.rd), XregCell(info.rd))];
        code := code + [Ldr(X, Home(info.rd), XregCell(info.rd))];
      }
      Glue(old(code) + head, tail, home);
      Glue(old(code), head, tail + home);
    }

    method Failing(frame: nat, fail: Label, end: Label)
      modifies `code
      ensures code == old(code) + FailPath(frame, fail, end)
    {
      code := code + [B(end), Bind(fail)];
      code := code + [Ldr(X, 0, XregCell(10)), AddSp(frame), Exit];
      code := code + [Bind(end)];
    }

    method EmitLoad(info: DecodeInfo) returns (ok: bool)
      modifies `code, `labels
      ensures ok && code == old(code) + LoadCode(info, old(labels), at.trapAddr, at.loadFn) && labels == old(labels) + 2
    {
      var fail := NewLabel();
      var end := NewLabel();
      SaveVolatileA64Reg();
      LoadCall(info);
      AfterCall(16, fail);
      LoadResult(info);
      Failing(32, fail, end);
      ok := true;
      ghost var call, after := LoadCallCode(info, at.trapAddr, at.loadFn), TestTrap(at.trapAddr, 16) + Return(16, fail);
      Glue(old(code), SaveVolatile(), call);
      Glue(old(code), SaveVolatile() + call, after);
      Glue(old(code), SaveVolatile() + call + after, LoadResultCode(info));
      Glue(old(code), SaveVolatile() + call + after + LoadResultCode(info), FailPath(32, fail, end));
    }

    method StoreData(info: DecodeInfo)
      modifies `code
      ensures code == old(code) + DataToSlot(info)
    {
      if InMemory(info.rs2) {
        code := code + [Ldr(X, 0, XregCell(info.rs2)), Str(X, 0, Slot(24)), Ldr(X, 0, XregCell(10))];
      } else {
        code := code + [Str(X, Home(info.rs2), Slot(24))];
      }
    }

    method StoreAddress(info: DecodeInfo)
      modifies `code
      ensures code == old(code) + AddressInX0(info)
    {
      if InMemory(info.rs1) {
        code := code + [Ldr(X, 0, XregCell(info.rs1)), MovI(X, 1, info.imm), Alu(Add, X, 0, 0, 1)];
      } else {
        code := code + [MovI(X, 0, info.imm), Alu(Add, X, 0, 0, Home(info.rs1))];
      }
    }

    method StoreArgs(info: DecodeInfo)
      modifies `code
      ensures code == old(code) + StoreArgsCode(info, at.trapAddr, at.storeFn)
    {
      ghost var a, b := [Str(X, 0, Slot(16)), MovR(X, 0, 29)], [Ldr(X, 1, Slot(16)), MovI(X, 2, info.memSize)];
      ghost var c, d := [Ldr(X, 3, Slot(24)), MovA(4, at.trapAddr)], [MovA(5, at.storeFn)];
      code := code + [Str(X, 0, Slot(16)), MovR(X, 0, 29)];
      code := code + [Ldr(X, 1, Slot(16)), MovI(X, 2, info.memSize)];
      code := code + [Ldr(X, 3, Slot(24)), MovA(4, at.trapAddr)];
      code := code + [MovA(5, at.storeFn)];
      Glue(old(code), a, b);
      Glue(old(code) + (a + b), c, d);
      Glue(old(code), a + b, c + d);
    }

    method StoreCall(info: DecodeInfo)
      modifies `code
      ensures code == old(code) + StoreCallCode(info, at.trapAddr, at.storeFn)
    {
      code := code + [SubSp(48), Stp(29, 30, 0)];
      StoreData(info);
      StoreAddress(info);
      StoreArgs(info);
      code := code + [Blr(5)];
      ghost var open, args := [SubSp(48), Stp(29, 30, 0)], StoreArgsCode(info, at.trapAddr, at.storeFn);
      Glue(old(code), open, DataToSlot(info));
      Glue(old(code), open + DataToSlot(info), AddressInX0(info));
      Glue(old(code), open + DataToSlot(info) + AddressInX0(info), args);
      Glue(old(code), open + DataToSlot(info) + AddressInX0(info) + args, [Blr(5)]);
    }

    method EmitStore(info: DecodeInfo) returns (ok: bool)
      modifies `code, `labels
      ensures ok && code == old(code) + StoreCode(info, old(labels), at.trapAddr, at.storeFn) && labels == old(labels) + 2
    {
      var fail := NewLabel();
      var end := NewLabel();
      SaveVolatileA64Reg();
      StoreCall(info);
      AfterCall(32, fail);
      code := code + [Ldr(X, 0, XregCell(10)), AddSp(48)];
      Failing(48, fail, end);
      ok := true;
      ghost var call, after := StoreCallCode(info, at.trapAddr, at.storeFn), TestTrap(at.trapAddr, 32) + Return(32, fail);
      ghost var done := [Ldr(X, 0, XregCell(10)), AddSp(48)];
      Glue(old(code), SaveVolatile(), call);
      Glue(old(code), SaveVolatile() + call, after);
      Glue(old(code), SaveVolatile() + call + after, done);
      Glue(old(code), SaveVolatile() + call + after + done, FailPath(48, fail, end));
    }

    // ----- dispatch and whole blocks -----

    /** Appends the translation, or nothing when there is none; counts every instruction with a known opcode. */
    method Emit(info: DecodeInfo) returns (ok: bool)
      modifies this
      ensures ok == Handled(info)
      ensures code == old(code) + (if ok then InsCode(at, info, old(labels)) else [])
      ensures labels == old(labels) + (if ok then LabelsUsed(info) else 0)
      ensures delta == if info.op == OpUndef || info.token == UNKNOWN then old(delta) else Wrap64(old(delta) + 1)
    {
      if info.op == OpUndef || info.token == UNKNOWN {
        assert !Handled(info);
        return false;
      }
      ghost var more := InsCode(at, info, labels);
      ok := EmitBody(info);
      assert ok ==> code == old(code) + more;
      delta := Wrap64(delta + 1);
    }

    method EmitBody(info: DecodeInfo) returns (ok: bool)
      requires info.token != UNKNOWN
      modifies `code, `labels
      ensures ok == Handled(info)
      ensures code == old(code) + (if ok then InsCode(at, info, old(labels)) else [])
      ensures labels == old(labels) + (if ok then LabelsUsed(info) else 0)
    {
      match info.op
      case OpReg => ok := EmitReg(info);
      case OpLui => ok := EmitLui(info.rd, info.imm);
      case OpAuipc => ok := EmitAuipc(info);
      case OpImm => ok := EmitImm(info);
      case OpRv32 => ok := EmitReg32(info);
      case OpJal => ok := EmitJal(info);
      case OpJalr => ok := EmitJalr(info);
      case OpImm32 => ok := EmitImm32(info);
      case OpLoad => ok := EmitLoad(info);
      case OpStore => ok := EmitStore(info);
      case _ => ok := false;
    }

    ghost predicate Emitted(gen: Generator, start: seq<Ins>, infos: seq<DecodeInfo>)
      reads this
    {
      code == start + BodyWith(gen, infos, 0) && labels == LabelsOf(infos) && delta == Wrap64(|infos|)
    }

    /** Emit, for an instruction that has a translation. */
    method EmitHandled(ghost gen: Generator, info: DecodeInfo)
      requires Handled(info) && RealGenerator(gen, at)
      modifies this
      ensures code == old(code) + gen(info, old(labels))
      ensures labels == old(labels) + LabelsUsed(info) && delta == Wrap64(old(delta) + 1)
    {
      UnlockGenerator(gen, at, info, labels);
      var ok := Emit(info);
    }

    method EmitNext(ghost gen: Generator, ghost start: seq<Ins>, ghost done: seq<DecodeInfo>, info: DecodeInfo)
      requires Handled(info) && RealGenerator(gen, at) && Emitted(gen, start, done)
      modifies this
      ensures Emitted(gen, start, done + [info])
    {
      BodySnoc(gen, done, info, 0);
      Glue(start, BodyWith(gen, done, 0), gen(info, LabelsOf(done)));
      AddWrapped(1, |done|);
      EmitHandled(gen, info);
    }

    method EmitAll(ghost gen: Generator, infos: seq<DecodeInfo>)
      requires forall i :: 0 <= i < |infos| ==> Handled(infos[i])
      requires RealGenerator(gen, at) && labels == 0 && delta == 0
      modifies this
      ensures Emitted(gen, old(code), infos)
    {
      var i := 0;
      while i < |infos|
        invariant 0 <= i <= |infos| && Emitted(gen, old(code), infos[..i])
      {
        assert infos[..i + 1] == infos[..i] + [infos[i]];
        EmitNext(gen, old(code), infos[..i], infos[i]);
        i := i + 1;
      }
      assert infos[..i] == infos;
    }

    /** Prolog, every instruction in order, epilog: the function BlockRuns and TranslationSimulates speak about. */
    method Translate(infos: seq<DecodeInfo>)
      requires code == [] && labels == 0 && delta == 0
      requires forall i :: 0 <= i < |infos| ==> Handled(infos[i])
      modifies this
      ensures code == BlockCode(at, infos) && delta == 0
    {
      EmitProlog();
      Unit(Prolog(at.cpu));
      EmitAll(GeneratorAt(at), infos);
      EmitEpilog();
    }
  }

  // ----- the body of a block, for any instruction translator -----

  /** `gen` is InsCode.  Guarded by a trigger, so that proofs which do not unlock it treat the translator as abstract. */
  ghost predicate RealGenerator(gen: Generator, at: Addresses) { forall k: int {:trigger Unlocked(k)} :: Unlocked(k) ==> gen == GeneratorAt(at) }

  lemma UnlockGenerator(gen: Generator, at: Addresses, info: DecodeInfo, l: Label)
    requires RealGenerator(gen, at)
    ensures gen(info, l) == InsCode(at, info, l)
  {
    assert Unlocked(0);
  }

  lemma {:induction false} BodySnoc(gen: Generator, infos: seq<DecodeInfo>, last: DecodeInfo, l: Label)
    ensures LabelsOf(infos + [last]) == LabelsOf(infos) + LabelsUsed(last)
    ensures BodyWith(gen, infos + [last], l) == BodyWith(gen, infos, l) + gen(last, l + LabelsOf(infos))
    decreases |infos|
  {
    if infos == [] {
      assert BodyWith(gen, [last][1..], l + LabelsUsed(last)) == [];
      assert infos + [last] == [last];
    } else {
      assert (infos + [last])[1..] == infos[1..] + [last];
      BodySnoc(gen, infos[1..], last, l + LabelsUsed(infos[0]));
      Glue(gen(infos[0], l), BodyWith(gen, infos[1..], l + LabelsUsed(infos[0])), gen(last, l + LabelsOf(infos)));
    }
  }

  function Opening(frame: nat, rd: Reg, rs1: Reg, two: bool, rs2: Reg): seq<Ins> {
    var open := [SubSp(frame)] + SpillSource(two && InMemory(rs2), 2, 16, rs2) + SpillSource(InMemory(rs1), 1, 8, rs1);
    if InMemory(rd) then open + [Str(X, 0, Slot(0))] else open
  }

  function Closing(frame: nat, rd: Reg, rs1: Reg, two: bool, rs2: Reg): seq<Ins> {
    var close := UnspillSource(InMemory(rs1), 1, 8) + UnspillSource(two && InMemory(rs2), 2, 16) + [AddSp(frame)];
    if InMemory(rd) then [Str(X, 0, XregCell(rd)), Ldr(X, 0, Slot(0))] + close else close
  }

  lemma SpilledShape(o: seq<Ins>, frame: nat, rd: Reg, rs1: Reg, two: bool, rs2: Reg, core: seq<Ins>)
    ensures o + Opening(frame, rd, rs1, two, rs2) + core + Closing(frame, rd, rs1, two, rs2)
         == o + Spilled(frame, rd, rs1, two, rs2, core)
  {
    var open := [SubSp(frame)] + SpillSource(two && InMemory(rs2), 2, 16, rs2) + SpillSource(InMemory(rs1), 1, 8, rs1);
    var close := UnspillSource(InMemory(rs1), 1, 8) + UnspillSource(two && InMemory(rs2), 2, 16) + [AddSp(frame)];
    var a, b := [Str(X, 0, Slot(0))], [Str(X, 0, XregCell(rd)), Ldr(X, 0, Slot(0))];
    if InMemory(rd) {
      FiveParts(o, open, a, core, b, close);
    } else {
      Glue(o, open, core);
      Glue(o, open + core, close);
    }
  }

  lemma SixParts<T>(o: seq<T>, a: seq<T>, b: seq<T>, c: seq<T>, d: seq<T>, e: seq<T>)
    ensures o + a + b + c + d + e == o + (a + (b + c + d + e))
  {
    Glue(o, a, b);
    Glue(o, a + b, c);
    Glue(o, a + b + c, d);
    Glue(o, a + b + c + d, e);
    Glue(a, b, c);
    Glue(a, b + c, d);
    Glue(a, b + c + d, e);
  }

  lemma FiveParts<T>(o: seq<T>, p: seq<T>, a: seq<T>, c: seq<T>, b: seq<T>, q: seq<T>)
    ensures o + (p + a) + c + (b + q) == o + (p + (a + c + b) + q)
  {
  }

  /** Labels handed out for a run of instructions. */
  function LabelsOf(infos: seq<DecodeInfo>): nat {
    if infos == [] then 0 else LabelsUsed(infos[0]) + LabelsOf(infos[1..])
  }
}
