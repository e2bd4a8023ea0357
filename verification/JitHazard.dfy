/**
 When is the translated instruction the interpreter's?  `HazardFree` is a condition
 on the decoded instruction alone; it is proved sufficient for every state and,
 in JitHarm.dfy, necessary: each excluded instruction goes wrong in some state.
 */
module JitHazard {
  import opened Words
  import opened Isa
  import opened A64
  import opened JitCode
  import opened JitSelect
  import opened JitSpill
  import opened JitSim
  import opened JitFrame
  import opened JitBlock
  import opened JitValues

  /** A spilled source is brought into the home of the other source before that one is read. */
  predicate Clobbered(rs1: Reg, rs2: Reg) {
    (InMemory(rs2) && rs1 == 12) || (InMemory(rs1) && rs2 == 11)
  }

  /** The selector overwrites a source it still needs. */
  predicate AliasHarms(t: Token, rd: Reg, rs1: Reg, rs2: Reg) {
    var d1, d2 := SameWork(rd, rs1, 1), SameWork(rd, rs2, 2);
    match t
    case REM | REMU | REMW | REMUW => (d1 && !d2 && rs2 != 0) || (!d1 && d2 && rs1 != 0)
    case MULHSU => d2 && rs1 != 0
    case _ => false
  }

  /** The immediate alone decides the result. */
  predicate Indifferent(t: Token, imm: int) {
    (t == ANDI && imm == 0) || (t == ORI && imm == -1) || (t == SLTIU && imm == 0)
  }

  predicate RegHazard(t: Token, rd: Reg, rs1: Reg, rs2: Reg) {
    rd != 0 && (Lost(rd, rs1, true, rs2) || Clobbered(rs1, rs2) || AliasHarms(t, rd, rs1, rs2))
  }

  predicate ImmHazard(t: Token, rd: Reg, rs1: Reg, imm: int) {
    rd != 0 && (Lost(rd, rs1, false, 0) || (SameWork(rd, rs1, 1) && !Indifferent(t, imm)))
  }

  /** pc + imm survives the trip through the 32-bit immediate field. */
  predicate FitsInt32(v: Word) { v < TWO31 || v >= TWO64 - TWO31 }

  predicate HazardFree(info: DecodeInfo) {
    match info.op
    case OpReg | OpRv32 => !RegHazard(info.token, info.rd, info.rs1, info.rs2)
    case OpImm | OpImm32 => !ImmHazard(info.token, info.rd, info.rs1, info.imm)
    case OpAuipc => info.rd == 0 || FitsInt32(Wrap64(info.pc + info.imm))
    case OpJal => info.rd != 0 || JumpTarget(info) == 0
    case OpJalr => if info.rd == 0 then info.rs1 == 0 && IndirectTarget(info, 0) == 0 else !SameWork(info.rd, info.rs1, 1)
    case OpStore => info.rs1 != 10
    case _ => true
  }

  // ----- sufficiency -----

  lemma WorksCoincide(rd: Reg, rs1: Reg, rs2: Reg)
    requires rd != 0 && SameWork(rd, rs1, 1) && SameWork(rd, rs2, 2) && !Clobbered(rs1, rs2)
    ensures rs1 == rs2
  {
    if !InMemory(rs1) { HomeRange(rs1); }
    if !InMemory(rs2) { HomeRange(rs2); }
    WorkTarget(rd);
  }

  lemma NotHarmed<G>(t: Token, rd: Reg, rs1: Reg, rs2: Reg, g: Guest<G>)
    requires rd != 0 && !Clobbered(rs1, rs2) && !AliasHarms(t, rd, rs1, rs2) && GuestOk(g)
    ensures Harmless(t, SameWork(rd, rs1, 1), SameWork(rd, rs2, 2), g.xregs[rs1], g.xregs[rs2])
  {
    if SameWork(rd, rs1, 1) && SameWork(rd, rs2, 2) {
      WorksCoincide(rd, rs1, rs2);
    }
  }

  lemma RegSafe<G>(info: DecodeInfo, g: Guest<G>)
    requires GuestOk(g) && IsReg(info.token) && !RegHazard(info.token, info.rd, info.rs1, info.rs2)
    ensures EmittedReg(info, g) == SetReg(g, info.rd, RegOp(info.token, g.xregs[info.rs1], g.xregs[info.rs2]))
  {
    if info.rd != 0 {
      NotHarmed(info.token, info.rd, info.rs1, info.rs2, g);
      RegValue(info.token, SameWork(info.rd, info.rs1, 1), SameWork(info.rd, info.rs2, 2), g.xregs[info.rs1], g.xregs[info.rs2]);
    }
  }

  lemma Reg32Safe<G>(info: DecodeInfo, g: Guest<G>)
    requires GuestOk(g) && IsReg32(info.token) && !RegHazard(info.token, info.rd, info.rs1, info.rs2)
    ensures EmittedReg32(info, g) == SetReg(g, info.rd, Reg32Op(info.token, g.xregs[info.rs1], g.xregs[info.rs2]))
  {
    if info.rd != 0 {
      NotHarmed(info.token, info.rd, info.rs1, info.rs2, g);
      Reg32Value(info.token, SameWork(info.rd, info.rs1, 1), SameWork(info.rd, info.rs2, 2), g.xregs[info.rs1], g.xregs[info.rs2]);
    }
  }

  // ----- facts about bit operations with extreme masks -----

  lemma {:induction false} OrOnes(a: nat, n: nat)
    requires a < Pow2(n)
    ensures Or(a, Pow2(n) - 1) == Pow2(n) - 1
    decreases n
  {
    if n > 0 && a > 0 {
      OrOnes(a / 2, n - 1);
      assert (Pow2(n) - 1) / 2 == Pow2(n - 1) - 1 && (Pow2(n) - 1) % 2 == 1;
    }
  }

  lemma Or64Ones(a: Word)
    ensures Or64(a, TWO64 - 1) == TWO64 - 1
  {
    Pow2Sixty4();
    OrOnes(a, 64);
  }

  lemma And64Zero(a: Word)
    ensures And64(a, 0) == 0 && And64(0, a) == 0
  {
  }

  lemma IndifferentValue(t: Token, a: Word, imm: int)
    requires Indifferent(t, imm)
    ensures ImmSelected(t, true, a, imm) == ImmOp(t, a, imm)
  {
    match t
    case ANDI => And64Zero(a);
    case ORI => Or64Ones(a); Or64Ones(TWO64 - 1); assert Wrap64(-1) == TWO64 - 1;
    case SLTIU => CompareExact(0, 0);
  }

  lemma ImmSafe<G>(info: DecodeInfo, g: Guest<G>)
    requires GuestOk(g) && info.op == OpImm && WellFormed(info) && !ImmHazard(info.token, info.rd, info.rs1, info.imm)
    ensures EmittedImm(info, g) == SetReg(g, info.rd, ImmOp(info.token, g.xregs[info.rs1], info.imm))
  {
    if info.rd != 0 {
      if SameWork(info.rd, info.rs1, 1) {
        IndifferentValue(info.token, g.xregs[info.rs1], info.imm);
      } else {
        ImmValue(info.token, g.xregs[info.rs1], info.imm);
      }
    }
  }

  lemma Imm32Safe<G>(info: DecodeInfo, g: Guest<G>)
    requires GuestOk(g) && info.op == OpImm32 && WellFormed(info) && !ImmHazard(info.token, info.rd, info.rs1, info.imm)
    ensures EmittedImm32(info, g) == SetReg(g, info.rd, Imm32Op(info.token, g.xregs[info.rs1], info.imm))
  {
    if info.rd != 0 {
      Imm32Value(info.token, g.xregs[info.rs1], info.imm);
    }
  }

  lemma AuipcValue(pc: Word, imm: int)
    ensures var v := Wrap64(pc + imm);
            Wrap64(Signed32(Wrap32(imm + pc))) == v <==> FitsInt32(v)
  {
    var v := Wrap64(pc + imm);
    assert Wrap32(imm + pc) == v % TWO32 by {
      ModShift(v, ((pc + imm) / TWO64) * TWO32, TWO32);
    }
  }

  lemma JalrValue(info: DecodeInfo, a: Word)
    ensures And64(Wrap64(Wrap64(info.imm) + a), TWO64 - 2) == IndirectTarget(info, a)
  {
    AddWrapped(a, info.imm);
  }

  /** A hazard-free instruction is translated faithfully: in every guest state the code does what the interpreter does. */
  lemma HazardFreeSuffices<G>(env: Env<G>, info: DecodeInfo, g: Guest<G>)
    requires Translatable(info) && HazardFree(info) && GuestOk(g)
    ensures EmittedGuest(env, info, g) == ExecGuest(env, info, g)
    ensures EmittedNoTrap(env, info, g) <==> ExecNoTrap(env, info, g)
  {
    match info.op
    case OpReg => RegSafe(info, g);
    case OpRv32 => Reg32Safe(info, g);
    case OpImm => ImmSafe(info, g);
    case OpImm32 => Imm32Safe(info, g);
    case OpAuipc => AuipcValue(info.pc, info.imm);
    case OpJalr => JalrValue(info, g.xregs[info.rs1]);
    case _ =>
  }

  // ----- blocks -----

  predicate AllHazardFree(infos: seq<DecodeInfo>) { forall i :: 0 <= i < |infos| ==> HazardFree(infos[i]) }

  lemma {:induction false} BlockSafe<G>(env: Env<G>, infos: seq<DecodeInfo>, g: Guest<G>)
    requires AllTranslatable(infos) && AllHazardFree(infos) && GuestOk(g)
    ensures EmittedBlock(env, infos, g) == ExecBlock(env, infos, g)
    ensures EmittedBlockNoTrap(env, infos, g) <==> ExecBlockNoTrap(env, infos, g)
    decreases |infos|
  {
    if infos != [] {
      HazardFreeSuffices(env, infos[0], g);
      BlockSafe(env, infos[1..], ExecGuest(env, infos[0], g));
    }
  }

  /**
   Translation preserves meaning: for every hazard-free block whose memory accesses
   do not trap, running prolog, body and epilog on any host leaves the 32 guest
   registers, the guest pc and the guest memory as interpreting the block would,
   adds the block's length to instret, and gives the host back its registers x0-x30,
   its stack pointer and its stack.
   */
  lemma TranslationSimulates<G>(env: Env<G>, infos: seq<DecodeInfo>, g: Guest<G>, s0: Host<G>)
    requires AtEntry(g, s0) && env.at.storeFn != env.at.loadFn
    requires AllTranslatable(infos) && AllHazardFree(infos) && ExecBlockNoTrap(env, infos, g)
    ensures Returned(ExecBlock(env, infos, g), |infos|, s0, Run(env, BlockCode(env.at, infos), s0))
  {
    BlockSafe(env, infos, g);
    BlockRuns(env, infos, g, s0);
  }
}
