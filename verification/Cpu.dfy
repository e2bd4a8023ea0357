/**
 The processor and its executor (src/cpu/cpu.cc, src/cpu/executor.cc) as an object that
 changes its own state, proved step by step against Hart.dfy, Exec.dfy and Ticks.dfy.
 */
module Cpu {
  import opened Guard
  import opened Words
  import opened BitWords
  import opened Isa
  import opened Csr
  import opened Traps
  import opened Hart
  import E = Exec
  import opened Ticks
  import opened ExecLaws
  import opened Mmu
  import opened MmuUnit
  import A = AluExec

  type Insn = E.Insn

  lemma RecordIs(f: CsrFile, a: CsrAddr, b: CsrAddr, c: CsrAddr, u: Bits, v: Bits, w: Bits)
    requires Plain(a) && Plain(b) && Plain(c)
    ensures Write(Write(Write(f, a, u), b, v), c, w) == f[a := u][b := v][c := w]
  {
    PlainWrite(f, a, u);
    PlainWrite(f[a := u], b, v);
    PlainWrite(f[a := u][b := v], c, w);
  }

  lemma EnterSIs(f: CsrFile, g: CsrFile, from: Priv)
    requires g[MSTATUS] == f[MSTATUS]
    ensures Write(g, SSTATUS, EnterS(Read(f, SSTATUS), from)) == g[MSTATUS := EnterS(f[MSTATUS], from)]
  {
    StatusWrites(f[MSTATUS], from);
  }

  lemma EnterMIs(f: CsrFile, g: CsrFile, from: Priv)
    requires g[MSTATUS] == f[MSTATUS]
    ensures Write(g, MSTATUS, EnterM(f[MSTATUS], from)) == g[MSTATUS := EnterM(f[MSTATUS], from)]
  {
    StatusWrites(f[MSTATUS], from);
  }

  lemma MipWrite(f: CsrFile, v: Bits)
    ensures Write(f, MIP, v) == f[MIP := Masked(v, M_INTERRUPTS)]
  {
  }

  /** The registers these methods read are not windows. */
  lemma PlainReads(f: CsrFile)
    ensures Read(f, MIP) == f[MIP] && Read(f, MIE) == f[MIE] && Read(f, MSTATUS) == f[MSTATUS] && Read(f, MIDELEG) == f[MIDELEG]
    ensures Read(f, MEDELEG) == f[MEDELEG] && Read(f, MTVEC) == f[MTVEC] && Read(f, STVEC) == f[STVEC]
  {
  }

  lemma ReservedIs<G>(m: E.Memory<G>, h: Hart<G>, info: Insn, addr: Word, h1: Hart<G>, l: E.Loaded<G>)
    requires h1 == h.(resv := Reservation(addr, info.memSize, true, h.hartId))
    requires l == m.load(h1.mem, E.ViewOf(h1), addr, info.memSize)
    ensures E.LoadReservedAt(m, h, info, addr)
         == if l.trap.ty != NoTrap then Step(h1.(mem := l.mem), l.trap)
            else E.Put(h1.(mem := l.mem), info.rd, if info.token == LR_W then SignExtendFrom(l.value, TWO32) else l.value)
  {
  }

  /** `m` is the real MMU.  Guarded by a trigger, so that proofs which do not unlock it treat the memory system as abstract. */
  ghost predicate RealMemory(m: E.Memory<MmuState>) { forall k: int {:trigger Unlocked(k)} :: Unlocked(k) ==> m == MmuMemory() }

  lemma Unlock(m: E.Memory<MmuState>)
    requires RealMemory(m)
    ensures m == MmuMemory()
  {
    assert Unlocked(0);
  }

  /** In the same way: `w` is the machine with decoder `decode` and memory `m`. */
  ghost predicate RealWorld(w: World<MmuState>, decode: (Half, Word) -> Insn, m: E.Memory<MmuState>) {
    forall k: int {:trigger Unlocked(k)} :: Unlocked(k) ==> w == WorldOf(decode, m)
  }

  lemma UnlockWorld(w: World<MmuState>, decode: (Half, Word) -> Insn, m: E.Memory<MmuState>, h: Hart<MmuState>, info: Insn, time: Word)
    requires RealWorld(w, decode, m)
    ensures w.exec(h, info, time) == E.Execute(m, h, info, time)
  {
    assert Unlocked(0);
  }

  class Processor {
    var pc: Word
    var instret: Word
    var priv: Priv
    var resv: Reservation
    const hartId: Half
    const xregs: array<Word>
    const state: State
    const mmu: MmuDevice
    ghost const mem: E.Memory<MmuState>

    ghost predicate Ready()
      reads this, mmu.sv39
    {
      xregs.Length == 32 && mmu.sv39.Ready() && RealMemory(mem)
    }

    ghost function Abs(): Hart<MmuState>
      reads this, xregs, state, mmu.sv39, mmu.sv39.tlb
      requires Ready()
    {
      Hart(pc, instret, hartId, priv, xregs[..], state.csr, state.wfi, resv, mmu.sv39.State())
    }

    constructor (mmu: MmuDevice, hartId: Half)
      requires mmu.sv39.Ready()
      ensures Ready() && this.mmu == mmu && mem == MmuMemory() && fresh(xregs) && fresh(state)
      ensures Abs() == Hart(0, 0, hartId, Machine, seq(32, i => if i == 10 then hartId else 0), Initial(), false,
                            Reservation(0, 0, false, 0), mmu.sv39.State())
    {
      this.mmu, this.hartId, mem := mmu, hartId, MmuMemory();
      pc, instret, priv, resv := 0, 0, Machine, Reservation(0, 0, false, 0);
      xregs := new Word[32](i => 0);
      state := new State();
      new;
      xregs[10] := hartId;
    }

    // ----- traps -----

    method RecordTrap(epcReg: CsrAddr, causeReg: CsrAddr, tvalReg: CsrAddr, trap: Trap, epc: Word)
      requires Plain(epcReg) && Plain(causeReg) && Plain(tvalReg)
      modifies state`csr
      ensures state.csr == old(state.csr)[epcReg := ToBits(epc)][causeReg := CauseWord(trap.ty)][tvalReg := ToBits(trap.val)]
    {
      RecordIs(state.csr, epcReg, causeReg, tvalReg, ToBits(epc), CauseWord(trap.ty), ToBits(trap.val));
      state.WriteRegister(epcReg, ToBits(epc));
      state.WriteRegister(causeReg, ToBits(Cause(trap.ty))[63 := IsInterrupt(trap.ty)]);
      state.WriteRegister(tvalReg, ToBits(trap.val));
    }

    /** spie = sie, sie = 0, spp = the old privilege, through the sstatus window. */
    method StackS(status: Bits)
      requires status == Masked(state.csr[MSTATUS], SSTATUS_READ)
      modifies state`csr
      ensures state.csr == old(state.csr)[MSTATUS := EnterS(old(state.csr[MSTATUS]), priv)]
    {
      EnterSIs(state.csr, state.csr, priv);
      var st := status[SPIE_BIT := status[SIE_BIT]];
      st := st[SIE_BIT := false];
      st := st[SPP_BIT := LowBit(priv)];
      state.WriteRegister(SSTATUS, st);
    }

    method StackM(status: Bits)
      requires status == state.csr[MSTATUS]
      modifies state`csr
      ensures state.csr == old(state.csr)[MSTATUS := EnterM(old(state.csr[MSTATUS]), priv)]
    {
      EnterMIs(state.csr, state.csr, priv);
      var st := status[MPIE_BIT := status[MIE_BIT]];
      st := st[MIE_BIT := false];
      st := st[MPP_BIT := LowBit(priv)][MPP_BIT + 1 := HighBit(priv)];
      state.WriteRegister(MSTATUS, st);
    }

    method TakeS(trap: Trap, epc: Word)
      requires Ready()
      modifies this, state`csr
      ensures Ready() && Abs() == TrapToS(old(Abs()), trap, epc)
    {
      var status := state.ReadRegister(SSTATUS);
      var tvec := state.ReadRegister(STVEC);
      PlainReads(state.csr);
      pc := GetTrapPC(FromBits(tvec), Cause(trap.ty));
      RecordTrap(SEPC, SCAUSE, STVAL, trap, epc);
      StackS(status);
      priv := Supervisor;
    }

    method TakeM(trap: Trap, epc: Word)
      requires Ready()
      modifies this, state`csr
      ensures Ready() && Abs() == TrapToM(old(Abs()), trap, epc)
    {
      var status := state.ReadRegister(MSTATUS);
      var tvec := state.ReadRegister(MTVEC);
      PlainReads(state.csr);
      pc := GetTrapPC(FromBits(tvec), Cause(trap.ty));
      RecordTrap(MEPC, MCAUSE, MTVAL, trap, epc);
      StackM(status);
      priv := Machine;
    }

    method TrapsToS(t: TrapType) returns (toS: bool)
      requires Ready()
      ensures toS == Delegated(Abs(), t)
    {
      var deleg := state.ReadRegister(if IsInterrupt(t) then MIDELEG else MEDELEG);
      PlainReads(state.csr);
      toS := false;
      if priv != Machine {
        if deleg[Cause(t)] {
          toS := true;
        }
      }
    }

    method TakeTrap(trap: Trap, epc: Word)
      requires Ready()
      modifies this, state`csr
      ensures Ready() && Abs() == HandleTrap(old(Abs()), trap, epc)
    {
      if trap.ty == NoTrap {
        return;
      }
      var toS := TrapsToS(trap.ty);
      if toS {
        TakeS(trap, epc);
      } else {
        TakeM(trap, epc);
      }
    }

    method TopRanked(bits: Bits) returns (t: TrapType)
      ensures t == InterruptBitsToTrap(bits)
    {
      t := RankInterrupts(bits);
    }

    method ChooseInterrupt() returns (t: TrapType)
      requires Ready()
      ensures t == ChosenInterrupt(Abs())
    {
      var mip := state.ReadRegister(MIP);
      var mie := state.ReadRegister(MIE);
      var ms := state.ReadRegister(MSTATUS);
      var deleg := state.ReadRegister(MIDELEG);
      PlainReads(state.csr);
      var bits := AndBits(mip, mie);
      t := NoTrap;
      if priv == Machine {
        var mBits := ClearBits(bits, deleg);
        if mBits != NoBits() && ms[MIE_BIT] {
          t := TopRanked(mBits);
        }
      } else {
        var ranked := TopRanked(bits);
        if AndBits(TrapToMask(ranked), deleg) != NoBits() {
          if ms[SIE_BIT] || Level(priv) < Level(Supervisor) {
            t := ranked;
          }
        } else {
          if ms[MIE_BIT] || Level(priv) < Level(Machine) {
            t := ranked;
          }
        }
      }
    }

    method ApplyInterrupt(t: TrapType, at: Word)
      requires Ready()
      modifies this, state
      ensures Ready() && Abs() == InterruptWith(old(Abs()), t, at)
    {
      var mip := state.ReadRegister(MIP);
      PlainReads(state.csr);
      TakeTrap(Trap(t, pc), at);
      MipWrite(state.csr, ClearBits(mip, TrapToMask(t)));
      state.WriteRegister(MIP, ClearBits(mip, TrapToMask(t)));
      if t != NoTrap {
        state.wfi := false;
      }
    }

    method TakeInterrupt(at: Word)
      requires Ready()
      modifies this, state
      ensures Ready() && Abs() == HandleInterrupt(old(Abs()), at)
    {
      var t := ChooseInterrupt();
      ApplyInterrupt(t, at);
    }

    // ----- the executor: computation and control flow -----

    method PutX(rd: Reg, val: Word)
      requires Ready()
      modifies xregs
      ensures Ready() && Abs() == E.SetX(old(Abs()), rd, val)
    {
      xregs[rd] := val;
    }

    method RegTypeExec(info: Insn) returns (trap: Trap)
      requires Ready() && info.op == OpReg
      modifies xregs
      ensures Ready() && Step(Abs(), trap) == E.Compute(old(Abs()), info)
    {
      if !IsReg(info.token) {
        return Trap(IllegalInstruction, info.word);
      }
      var val := A.RegValue(xregs[info.rs1], xregs[info.rs2], info.token);
      PutX(info.rd, val);
      trap := NONE;
    }

    method Rv32TypeExec(info: Insn) returns (trap: Trap)
      requires Ready() && info.op == OpRv32
      modifies xregs
      ensures Ready() && Step(Abs(), trap) == E.Compute(old(Abs()), info)
    {
      if !IsReg32(info.token) {
        return Trap(IllegalInstruction, info.word);
      }
      var val := A.Reg32Value(xregs[info.rs1], xregs[info.rs2], info.token);
      PutX(info.rd, val);
      trap := NONE;
    }

    method ImmTypeExec(info: Insn) returns (trap: Trap)
      requires Ready() && info.op == OpImm
      modifies xregs
      ensures Ready() && Step(Abs(), trap) == E.Compute(old(Abs()), info)
    {
      if !IsImm(info.token) {
        return Trap(IllegalInstruction, info.word);
      }
      var val := A.ImmValue(xregs[info.rs1], info.imm, info.token);
      PutX(info.rd, val);
      trap := NONE;
    }

    method Imm32TypeExec(info: Insn) returns (trap: Trap)
      requires Ready() && info.op == OpImm32
      modifies xregs
      ensures Ready() && Step(Abs(), trap) == E.Compute(old(Abs()), info)
    {
      if !IsImm32(info.token) {
        return Trap(IllegalInstruction, info.word);
      }
      var val := A.Imm32Value(xregs[info.rs1], info.imm, info.token);
      PutX(info.rd, val);
      trap := NONE;
    }

    method BranchTypeExec(info: Insn) returns (trap: Trap)
      requires Ready()
      modifies this`pc
      ensures Ready() && Step(Abs(), trap) == E.Branch(old(Abs()), info)
    {
      if !IsBranch(info.token) {
        return Trap(IllegalInstruction, info.word);
      }
      var a, b := xregs[info.rs1], xregs[info.rs2];
      var newPc := Wrap64(info.pc + info.size);
      var taken := A.Condition(a, b, info.token);
      if taken {
        newPc := Wrap64(info.pc + info.imm);
      }
      pc := newPc;
      trap := NONE;
    }

    method JalTypeExec(info: Insn) returns (trap: Trap)
      requires Ready()
      modifies this`pc, xregs
      ensures Ready() && Step(Abs(), trap) == E.Jal(old(Abs()), info)
    {
      pc := Wrap64(info.pc + info.imm);
      PutX(info.rd, Wrap64(info.pc + info.size));
      trap := NONE;
    }

    /** rs1 plus the immediate, in signed arithmetic. */
    method AddressOf(info: Insn) returns (addr: Word)
      requires Ready()
      ensures addr == EffectiveAddress(info, xregs[info.rs1])
    {
      A.SignedPlus(xregs[info.rs1], info.imm, 0);
      addr := Wrap64(Signed64(xregs[info.rs1]) + info.imm);
    }

    method JalrTypeExec(info: Insn) returns (trap: Trap)
      requires Ready()
      modifies this`pc, xregs
      ensures Ready() && Step(Abs(), trap) == E.Jalr(old(Abs()), info)
    {
      var sum := AddressOf(info);
      pc := And64(sum, TWO64 - 2);
      PutX(info.rd, Wrap64(info.pc + info.size));
      trap := NONE;
    }

    // ----- the executor: memory -----

    method Look() returns (v: E.View)
      requires Ready()
      ensures v == E.ViewOf(Abs())
    {
      var satp := state.ReadRegister(SATP);
      var ms := state.ReadRegister(MSTATUS);
      v := E.View(priv, satp, ms);
    }

    method LoadMemory(addr: Word, n: nat) returns (trap: Trap, value: Word)
      requires Ready()
      modifies mmu.sv39`index, mmu.sv39.tlb
      ensures Ready()
      ensures var l := mem.load(old(Abs()).mem, E.ViewOf(old(Abs())), addr, n);
              trap == l.trap && value == l.value && Abs() == old(Abs()).(mem := l.mem)
    {
      Unlock(mem);
      var v := Look();
      trap, value := mmu.Load(v, addr, n);
    }

    method StoreMemory(addr: Word, n: nat, data: Word) returns (trap: Trap)
      requires Ready()
      modifies mmu.sv39`index, mmu.sv39`ram, mmu.sv39.tlb
      ensures Ready()
      ensures var l := mem.store(old(Abs()).mem, E.ViewOf(old(Abs())), addr, n, data);
              trap == l.trap && Abs() == old(Abs()).(mem := l.mem)
    {
      Unlock(mem);
      var v := Look();
      trap := mmu.Store(v, addr, n, data);
    }

    method LoadTypeExec(info: Insn) returns (trap: Trap)
      requires Ready()
      modifies xregs, mmu.sv39`index, mmu.sv39.tlb
      ensures Ready() && Step(Abs(), trap) == E.Load(mem, old(Abs()), info)
    {
      var addr := AddressOf(info);
      var data;
      trap, data := LoadMemory(addr, info.memSize);
      if trap.ty != NoTrap {
        return;
      }
      if !IsLoad(info.token) {
        return Trap(IllegalInstruction, info.word);
      }
      PutX(info.rd, LoadValue(info.token, data));
      trap := NONE;
    }

    method StoreTypeExec(info: Insn) returns (trap: Trap)
      requires Ready()
      modifies mmu.sv39`index, mmu.sv39`ram, mmu.sv39.tlb
      ensures Ready() && Step(Abs(), trap) == E.Store(mem, old(Abs()), info)
    {
      var addr := AddressOf(info);
      trap := StoreMemory(addr, info.memSize, xregs[info.rs2]);
      if trap.ty != NoTrap {
        return;
      }
      trap := NONE;
    }

    method AmoLrAt(info: Insn, addr: Word) returns (trap: Trap)
      requires Ready()
      modifies this`resv, xregs, mmu.sv39`index, mmu.sv39.tlb
      ensures Ready() && Step(Abs(), trap) == E.LoadReservedAt(mem, old(Abs()), info, addr)
    {
      ghost var h := Abs();
      Reserve(addr, info.memSize);
      ghost var h1 := Abs();
      ReservedIs(mem, h, info, addr, h1, mem.load(h1.mem, E.ViewOf(h1), addr, info.memSize));
      trap := LoadInto(info.rd, info.token == LR_W, addr, info.memSize);
    }

    method Reserve(addr: Word, n: nat)
      requires Ready()
      modifies this`resv
      ensures Ready() && Abs() == old(Abs()).(resv := Reservation(addr, n, true, hartId))
    {
      resv := Reservation(addr, n, true, hartId);
    }

    /** The load of LR: a trap leaves rd alone. */
    method LoadInto(rd: Reg, narrow: bool, addr: Word, n: nat) returns (trap: Trap)
      requires Ready()
      modifies xregs, mmu.sv39`index, mmu.sv39.tlb
      ensures var l := mem.load(old(Abs()).mem, E.ViewOf(old(Abs())), addr, n);
              && Ready()
              && Step(Abs(), trap) == if l.trap.ty != NoTrap then Step(old(Abs()).(mem := l.mem), l.trap)
                                      else E.Put(old(Abs()).(mem := l.mem), rd, if narrow then SignExtendFrom(l.value, TWO32) else l.value)
    {
      var val;
      trap, val := LoadMemory(addr, n);
      if trap.ty != NoTrap {
        return;
      }
      PutX(rd, if narrow then SignExtendFrom(val, TWO32) else val);
      trap := NONE;
    }

    method AmoLrExec(info: Insn) returns (trap: Trap)
      requires Ready() && E.AtomicWidth(info.memSize)
      modifies this`resv, xregs, mmu.sv39`index, mmu.sv39.tlb
      ensures Ready() && Step(Abs(), trap) == E.LoadReserved(mem, old(Abs()), info)
    {
      var addr := xregs[info.rs1];
      if xregs[info.rs2] != 0 {
        return Trap(IllegalInstruction, info.word);
      }
      if E.Misaligned(addr, info.memSize) {
        return Trap(LoadAddressMisaligned, info.pc);
      }
      trap := AmoLrAt(info, addr);
    }

    method AmoScAt(info: Insn, addr: Word) returns (trap: Trap)
      requires Ready()
      modifies this`resv, xregs, mmu.sv39`index, mmu.sv39`ram, mmu.sv39.tlb
      ensures Ready() && Step(Abs(), trap) == E.StoreConditionalAt(mem, old(Abs()), info, addr)
    {
      if resv.addr == addr && resv.size == info.memSize && resv.valid && resv.hart == hartId {
        resv := resv.(valid := false);
        trap := StoreMemory(addr, info.memSize, xregs[info.rs2]);
        if trap.ty != NoTrap {
          return;
        }
        PutX(info.rd, 0);
      } else {
        if resv.hart == hartId {
          resv := resv.(valid := false);
        }
        PutX(info.rd, 1);
      }
      trap := NONE;
    }

    method AmoScExec(info: Insn) returns (trap: Trap)
      requires Ready() && E.AtomicWidth(info.memSize)
      modifies this`resv, xregs, mmu.sv39`index, mmu.sv39`ram, mmu.sv39.tlb
      ensures Ready() && Step(Abs(), trap) == E.StoreConditional(mem, old(Abs()), info)
    {
      var addr := xregs[info.rs1];
      if E.Misaligned(addr, info.memSize) {
        return Trap(StoreAddressMisaligned, info.pc);
      }
      trap := AmoScAt(info, addr);
    }

    method AmoRmwAt(info: Insn, addr: Word) returns (trap: Trap)
      requires Ready()
      modifies xregs, mmu.sv39`index, mmu.sv39`ram, mmu.sv39.tlb
      ensures Ready() && Step(Abs(), trap) == E.AmoAt(mem, old(Abs()), info, addr)
    {
      var data;
      trap, data := LoadMemory(addr, info.memSize);
      if trap.ty != NoTrap {
        return;
      }
      if !IsAmoRmw(info.token) {
        return Trap(IllegalInstruction, info.word);
      }
      var val := A.AmoCombine(xregs[info.rs2], data, info.token);
      trap := StoreMemory(addr, info.memSize, val);
      if trap.ty != NoTrap {
        return;
      }
      PutX(info.rd, if info.memSize == 8 then data else SignExtendFrom(data, TWO32));
      trap := NONE;
    }

    method AmoRmwExec(info: Insn) returns (trap: Trap)
      requires Ready() && E.AtomicWidth(info.memSize)
      modifies xregs, mmu.sv39`index, mmu.sv39`ram, mmu.sv39.tlb
      ensures Ready() && Step(Abs(), trap) == E.Amo(mem, old(Abs()), info)
    {
      var addr := xregs[info.rs1];
      if E.Misaligned(addr, info.memSize) {
        return Trap(LoadAddressMisaligned, info.pc);
      }
      trap := AmoRmwAt(info, addr);
    }

    method AmoTypeExec(info: Insn) returns (trap: Trap)
      requires Ready() && E.AtomicWidth(info.memSize)
      modifies this`resv, xregs, mmu.sv39`index, mmu.sv39`ram, mmu.sv39.tlb
      ensures Ready() && Step(Abs(), trap) == E.Atomic(mem, old(Abs()), info)
    {
      if info.token in {LR_W, LR_D} {
        trap := AmoLrExec(info);
      } else if info.token in {SC_W, SC_D} {
        trap := AmoScExec(info);
      } else {
        trap := AmoRmwExec(info);
      }
    }

    // ----- the executor: system instructions -----

    /** The checks made before a CSR is touched. */
    method CsrRejects(info: Insn) returns (r: bool)
      requires Ready()
      ensures var addr := Wrap32(info.imm);
              r == (addr !in E.ALLOWED || (addr == SATP && priv == Supervisor && Status(Abs())[TVM_BIT]))
    {
      var addr := Wrap32(info.imm);
      if addr !in E.ALLOWED {
        return true;
      }
      if addr == SATP {
        var ms := state.ReadRegister(MSTATUS);
        if priv == Supervisor && ms[TVM_BIT] {
          return true;
        }
      }
      r := false;
    }

    method CsrTypeExec(info: Insn, time: Word) returns (trap: Trap)
      requires Ready() && IsCsr(info.token)
      modifies xregs, state`csr
      ensures Ready() && Step(Abs(), trap) == E.CsrInstruction(old(Abs()), info, time)
    {
      var rejected := CsrRejects(info);
      if rejected {
        return Trap(IllegalInstruction, info.word);
      }
      CsrAccess(info, Wrap32(info.imm), time);
      trap := NONE;
    }

    /** Reading the time register refreshes it first. */
    method CsrFetch(addr: CsrAddr, time: Word) returns (was: Bits)
      modifies state`csr
      ensures state.csr == if addr == TIME then Write(old(state.csr), TIME, ToBits(time)) else old(state.csr)
      ensures was == Read(state.csr, addr)
    {
      if addr == TIME {
        state.WriteRegister(addr, ToBits(time));
      }
      was := state.ReadRegister(addr);
    }

    method CsrCombine(t: Token, was: Bits, x: Bits, z: Bits) returns (val: Bits)
      requires IsCsr(t)
      ensures val == E.CsrValue(t, was, x, z)
    {
      match t {
        case CSRRW => val := x;
        case CSRRS => val := OrBits(x, was);
        case CSRRC => val := ClearBits(was, x);
        case CSRRWI => val := z;
        case CSRRSI => val := OrBits(was, z);
        case CSRRCI => val := ClearBits(was, z);
      }
    }

    method CsrAccess(info: Insn, addr: CsrAddr, time: Word)
      requires Ready() && IsCsr(info.token)
      modifies xregs, state`csr
      ensures Ready() && Abs() == E.CsrAccessed(old(Abs()), info, addr, time)
    {
      var was := CsrFetch(addr, time);
      var writable := info.rs1 != 0;
      if info.token == CSRRW || info.token == CSRRWI {
        writable := true;
      }
      var val := CsrCombine(info.token, was, ToBits(xregs[info.rs1]), ToBits(info.rs1));
      PutX(info.rd, FromBits(was));
      if writable {
        state.WriteRegister(addr, val);
      }
    }

    method ECallExec(info: Insn) returns (trap: Trap)
      requires Ready()
      ensures Step(Abs(), trap) == E.ECall(Abs(), info)
    {
      var ty := NoTrap;
      match priv {
        case User => ty := EnvironmentCallFromUMode;
        case Supervisor => ty := EnvironmentCallFromSMode;
        case Machine => ty := EnvironmentCallFromMMode;
        case Reserved =>
      }
      trap := Trap(ty, Wrap64(info.pc + info.size));
    }

    method SfenceVmaExec(info: Insn) returns (trap: Trap)
      requires Ready()
      modifies mmu.sv39.tlb
      ensures Ready() && Step(Abs(), trap) == E.SfenceVma(mem, old(Abs()), info)
    {
      var ms := state.ReadRegister(MSTATUS);
      if Level(priv) < Level(Supervisor) || (priv == Supervisor && ms[TVM_BIT]) {
        return Trap(IllegalInstruction, info.word);
      }
      Unlock(mem);
      mmu.sv39.FlushTlb(xregs[info.rs1], xregs[info.rs2] % 0x1_0000);
      trap := NONE;
    }

    method MRetExec(info: Insn) returns (trap: Trap)
      requires Ready()
      modifies this`pc, this`priv, state`csr
      ensures Ready() && Step(Abs(), trap) == MRet(old(Abs()), info.word)
    {
      var st := state.ReadRegister(MSTATUS);
      if Level(priv) < Level(Machine) {
        return Trap(IllegalInstruction, info.word);
      }
      var next := st[MPP_BIT := false][MPP_BIT + 1 := false];
      next := next[MPIE_BIT := true];
      next := next[MIE_BIT := st[MPIE_BIT]];
      next := next[MPRV_BIT := if Level(Mpp(st)) < Level(Machine) then false else st[MPRV_BIT]];
      assert next == LeaveM(st);
      StatusReturns(st);
      state.WriteRegister(MSTATUS, next);
      priv := Mpp(st);
      var epc := state.ReadRegister(MEPC);
      pc := FromBits(epc);
      trap := NONE;
    }

    method SRetExec(info: Insn) returns (trap: Trap)
      requires Ready()
      modifies this`pc, this`priv, state`csr
      ensures Ready() && Step(Abs(), trap) == SRet(old(Abs()), info.word)
    {
      var st := state.ReadRegister(MSTATUS);
      if Level(priv) < Level(Supervisor) || st[TSR_BIT] {
        return Trap(IllegalInstruction, info.word);
      }
      var next := st[SPP_BIT := false];
      next := next[SPIE_BIT := true];
      next := next[SIE_BIT := st[SPIE_BIT]];
      next := next[MPRV_BIT := st[MPRV_BIT] && Level(Spp(st)) >= Level(Machine)];
      assert next == LeaveS(st);
      StatusReturns(st);
      state.WriteRegister(MSTATUS, next);
      priv := Spp(st);
      var epc := state.ReadRegister(SEPC);
      pc := FromBits(epc);
      trap := NONE;
    }

    method SystemTypeExec(info: Insn, time: Word) returns (trap: Trap)
      requires Ready()
      modifies this`pc, this`priv, xregs, state, mmu.sv39.tlb
      ensures Ready() && Step(Abs(), trap) == E.System(mem, old(Abs()), info, time)
    {
      if IsCsr(info.token) {
        trap := CsrTypeExec(info, time);
      } else if info.token == EBREAK {
        trap := Trap(Breakpoint, 0);
      } else if info.token == ECALL {
        trap := ECallExec(info);
      } else if info.token == WFI {
        var ms := state.ReadRegister(MSTATUS);
        if ms[TW_BIT] {
          state.wfi := true;
        }
        trap := NONE;
      } else if info.token == SFENCE_VMA {
        trap := SfenceVmaExec(info);
      } else if info.token == MRET {
        trap := MRetExec(info);
      } else if info.token == SRET {
        trap := SRetExec(info);
      } else {
        trap := Trap(IllegalInstruction, info.word);
      }
    }

    method ComputeTypeExec(info: Insn) returns (trap: Trap)
      requires Ready() && info.op in {OpReg, OpImm, OpLui, OpAuipc, OpImm32, OpRv32, OpUndef}
      modifies xregs
      ensures Ready() && Step(Abs(), trap) == E.Compute(old(Abs()), info)
    {
      if info.op == OpReg {
        trap := RegTypeExec(info);
      } else if info.op == OpImm {
        trap := ImmTypeExec(info);
      } else if info.op == OpImm32 {
        trap := Imm32TypeExec(info);
      } else if info.op == OpRv32 {
        trap := Rv32TypeExec(info);
      } else {
        trap := UpperTypeExec(info);
      }
    }

    /** LUI, AUIPC and the undefined opcode. */
    method UpperTypeExec(info: Insn) returns (trap: Trap)
      requires Ready() && info.op in {OpLui, OpAuipc, OpUndef}
      modifies xregs
      ensures Ready() && Step(Abs(), trap) == E.Compute(old(Abs()), info)
    {
      if info.op == OpLui {
        PutX(info.rd, Wrap64(info.imm));
        trap := NONE;
      } else if info.op == OpAuipc {
        PutX(info.rd, Wrap64(info.pc + info.imm));
        trap := NONE;
      } else {
        trap := Trap(IllegalInstruction, info.word);
      }
    }

    method Exec(info: Insn, time: Word) returns (trap: Trap)
      requires Ready()
      modifies this, xregs, state, mmu.sv39`index, mmu.sv39`ram, mmu.sv39.tlb
      ensures Ready() && Step(Abs(), trap) == E.Execute(mem, old(Abs()), info, time)
    {
      match info.op
      case OpBranch => trap := BranchTypeExec(info);
      case OpStore => trap := StoreTypeExec(info);
      case OpLoad => trap := LoadTypeExec(info);
      case OpSystem => trap := SystemTypeExec(info, time);
      case OpJal => trap := JalTypeExec(info);
      case OpJalr => trap := JalrTypeExec(info);
      case OpFence => trap := NONE;
      case OpAmo => trap := AmoTypeExec(info);
      case _ => trap := ComputeTypeExec(info);
    }

    // ----- ticks -----

    method FetchWord() returns (trap: Trap, value: Word)
      requires Ready()
      modifies mmu.sv39`index, mmu.sv39.tlb
      ensures Ready()
      ensures var l := mem.fetch(old(Abs()).mem, E.ViewOf(old(Abs())), pc, 4);
              trap == l.trap && value == l.value && Abs() == old(Abs()).(mem := l.mem)
    {
      Unlock(mem);
      var v := Look();
      trap, value := mmu.Fetch(v, pc, 4);
    }

    /** Execute, then clear x0. */
    method ExecAndClear(ghost w: World<MmuState>, decode: (Half, Word) -> Insn, info: Insn, time: Word) returns (trap: Trap)
      requires Ready() && RealWorld(w, decode, mem)
      modifies this, xregs, state, mmu.sv39`index, mmu.sv39`ram, mmu.sv39.tlb
      ensures Ready() && Step(Abs(), trap) == Cleared0(w.exec(old(Abs()), info, time))
    {
      UnlockWorld(w, decode, mem, Abs(), info, time);
      trap := Exec(info, time);
      PutX(0, 0);
    }

    method Advance(n: nat)
      requires Ready()
      modifies this`pc
      ensures Ready() && Abs() == old(Abs()).(pc := Wrap64(old(pc) + n))
    {
      pc := Wrap64(pc + n);
    }

    method Issue(ghost w: World<MmuState>, decode: (Half, Word) -> Insn, word: Half, time: Word) returns (trap: Trap)
      requires Ready() && RealWorld(w, decode, mem) && w.decode == decode
      modifies this, xregs, state, mmu.sv39`index, mmu.sv39`ram, mmu.sv39.tlb
      ensures Ready() && Step(Abs(), trap) == Dispatch(w, old(Abs()), word, time)
    {
      var info := decode(word, pc);
      ghost var h := Abs();
      Advance(info.size);
      DispatchIs(w, h, word, time, Abs(), w.exec(Abs(), info, time));
      if info.token == UNKNOWN {
        return Trap(IllegalInstruction, word);
      }
      trap := ExecAndClear(w, decode, info, time);
    }

    method TickOperate(decode: (Half, Word) -> Insn, time: Word) returns (trap: Trap)
      requires Ready()
      modifies this, xregs, state, mmu.sv39`index, mmu.sv39`ram, mmu.sv39.tlb
      ensures Ready() && Step(Abs(), trap) == Operate(WorldOf(decode, mem), old(Abs()), time)
    {
      if state.wfi {
        var mie := state.ReadRegister(MIE);
        var mip := state.ReadRegister(MIP);
        assert AndBits(mie, mip) == AndBits(mip, mie);
        if AndBits(mie, mip) != NoBits() {
          state.wfi := false;
        }
        return NONE;
      }
      var value;
      trap, value := FetchWord();
      if trap.ty != NoTrap {
        return;
      }
      trap := Issue(WorldOf(decode, mem), decode, Wrap32(value), time);
    }

    method SampleLines(x: Input)
      requires Ready()
      modifies state`csr
      ensures Ready() && Abs() == Sample(old(Abs()), x)
    {
      if x.update {
        var mip := state.ReadRegister(MIP);
        mip := mip[11 := x.lines.meip];
        mip := mip[9 := x.lines.seip];
        mip := mip[3 := x.lines.msip];
        mip := mip[7 := x.lines.mtip];
        state.WriteRegister(MIP, mip);
      }
    }

    method RetireOne()
      requires Ready()
      modifies this`instret, state`csr
      ensures Ready() && Abs() == Retire(old(Abs()))
    {
      var n := Wrap64(instret + 1);
      PutMinstret(ToBits(n));
      instret := n;
      assert Abs() == old(Abs()).(csr := old(Abs()).csr[MINSTRET := ToBits(n)]).(instret := n);
    }

    method PutMinstret(v: Bits)
      requires Ready()
      modifies state`csr
      ensures Ready() && Abs() == old(Abs()).(csr := old(Abs()).csr[MINSTRET := v])
    {
      PlainWrite(state.csr, MINSTRET, v);
      state.WriteRegister(MINSTRET, v);
    }

    method TickOnce(decode: (Half, Word) -> Insn, x: Input)
      requires Ready()
      modifies this, xregs, state, mmu.sv39`index, mmu.sv39`ram, mmu.sv39.tlb
      ensures Ready() && Abs() == Tick(WorldOf(decode, mem), old(Abs()), x)
    {
      SampleLines(x);
      var epc := pc;
      var trap := TickOperate(decode, x.time);
      TakeTrap(trap, epc);
      TakeInterrupt(pc);
      RetireOne();
    }
  }
}
