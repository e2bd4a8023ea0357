/**
 Whole blocks.  `ExecGuest` is what the interpreter (src/cpu/executor.cc) does for
 one instruction; `EmittedGuest` is what the translated code does, for any operands.
 */
module JitBlock {
  import opened Words
  import opened Isa
  import opened A64
  import opened JitCode
  import opened JitSelect
  import opened JitSpill
  import opened JitSim
  import opened JitJump
  import opened JitMem
  import opened JitFrame

  /** Instructions the translator handles. */
  predicate Translatable(info: DecodeInfo) {
    && WellFormed(info)
    && info.op in {OpReg, OpRv32, OpImm, OpImm32, OpLui, OpAuipc, OpJal, OpJalr, OpLoad, OpStore}
  }

  // ----- the interpreter, one instruction -----

  function ExecGuest<G>(env: Env<G>, info: DecodeInfo, g: Guest<G>): (g': Guest<G>)
    requires Translatable(info) && GuestOk(g)
    ensures GuestOk(g')
  {
    var a, b := g.xregs[info.rs1], g.xregs[info.rs2];
    match info.op
    case OpReg => SetReg(g, info.rd, RegOp(info.token, a, b))
    case OpRv32 => SetReg(g, info.rd, Reg32Op(info.token, a, b))
    case OpImm => SetReg(g, info.rd, ImmOp(info.token, a, info.imm))
    case OpImm32 => SetReg(g, info.rd, Imm32Op(info.token, a, info.imm))
    case OpLui => SetReg(g, info.rd, Wrap64(info.imm))
    case OpAuipc => SetReg(g, info.rd, Wrap64(info.pc + info.imm))
    case OpJal => SetReg(g.(pc := JumpTarget(info)), info.rd, LinkAddress(info))
    case OpJalr => SetReg(g.(pc := IndirectTarget(info, a)), info.rd, LinkAddress(info))
    case OpLoad => LoadedGuest(env, info, g)
    case OpStore => g.(ram := env.store(g.ram, EffectiveAddress(info, a), Wrap64(info.memSize), b).ram)
  }

  /** The interpreter's memory access, if there is one, does not trap. */
  predicate ExecNoTrap<G>(env: Env<G>, info: DecodeInfo, g: Guest<G>)
    requires GuestOk(g)
  {
    match info.op
    case OpLoad => LoadOutcome(env, info, g).trap == TRAP_NONE
    case OpStore => env.store(g.ram, EffectiveAddress(info, g.xregs[info.rs1]), Wrap64(info.memSize), g.xregs[info.rs2]).trap == TRAP_NONE
    case _ => true
  }

  // ----- the translated code, one instruction -----

  function EmittedGuest<G>(env: Env<G>, info: DecodeInfo, g: Guest<G>): (g': Guest<G>)
    requires Translatable(info) && GuestOk(g)
    ensures GuestOk(g')
  {
    match info.op
    case OpReg => EmittedReg(info, g)
    case OpRv32 => EmittedReg32(info, g)
    case OpImm => EmittedImm(info, g)
    case OpImm32 => EmittedImm32(info, g)
    case OpLui => SetReg(g, info.rd, Wrap64(info.imm))
    case OpAuipc => SetReg(g, info.rd, Wrap64(AuipcImm(info)))
    case OpJal => EmittedJal(info, g)
    case OpJalr => EmittedJalr(info, g)
    case OpLoad => LoadedGuest(env, info, g)
    case OpStore => g.(ram := StoreOutcome(env, info, g).ram)
  }

  predicate EmittedNoTrap<G>(env: Env<G>, info: DecodeInfo, g: Guest<G>)
    requires GuestOk(g)
  {
    match info.op
    case OpLoad => LoadOutcome(env, info, g).trap == TRAP_NONE
    case OpStore => StoreOutcome(env, info, g).trap == TRAP_NONE
    case _ => true
  }

  /** Every translated instruction does to the guest exactly what EmittedGuest says. */
  lemma InsRuns<G>(env: Env<G>, info: DecodeInfo, l: Label, g: Guest<G>, s: Host<G>)
    requires InBlock(env, s) && Match(g, s) && Translatable(info) && env.at.storeFn != env.at.loadFn
    requires EmittedNoTrap(env, info, g)
    ensures var f := Run(env, InsCode(env.at, info, l), s); Settles(s, f) && Match(EmittedGuest(env, info, g), f)
  {
    match info.op
    case OpReg => RegRuns(env, info, l, g, s);
    case OpRv32 => Reg32Runs(env, info, l, g, s);
    case OpImm => ImmRuns(env, info, g, s);
    case OpImm32 => Imm32Runs(env, info, g, s);
    case OpLui => LuiRuns(env, info.rd, info.imm, g, s);
    case OpAuipc => LuiRuns(env, info.rd, AuipcImm(info), g, s);
    case OpJal => JalRuns(env, info, g, s);
    case OpJalr => JalrRuns(env, info, g, s);
    case OpLoad => LoadRuns(env, info, l, g, s);
    case OpStore => StoreRuns(env, info, l, g, s);
  }

  // ----- blocks -----

  /** Labels newLabel hands out while one instruction is emitted. */
  function LabelsUsed(info: DecodeInfo): nat {
    match info.op
    case OpReg => if info.rd == 0 then 0 else if info.token == MULHSU then 4 else if info.token in {DIV, DIVU, REM, REMU} then 2 else 0
    case OpRv32 => if info.rd != 0 && info.token in {DIVW, DIVUW, REMW, REMUW} then 2 else 0
    case OpLoad | OpStore => 2
    case _ => 0
  }

  type Generator = (DecodeInfo, Label) -> seq<Ins>

  function GeneratorAt(at: Addresses): Generator { (info: DecodeInfo, l: Label) => InsCode(at, info, l) }

  /** The instructions one after the other, each with labels of its own. */
  function BodyWith(gen: Generator, infos: seq<DecodeInfo>, l: Label): seq<Ins> {
    if infos == [] then [] else gen(infos[0], l) + BodyWith(gen, infos[1..], l + LabelsUsed(infos[0]))
  }

  function BodyCode(at: Addresses, infos: seq<DecodeInfo>, l: Label): seq<Ins> { BodyWith(GeneratorAt(at), infos, l) }

  function BlockCode(at: Addresses, infos: seq<DecodeInfo>): seq<Ins> {
    Prolog(at.cpu) + BodyCode(at, infos, 0) + Epilog(Wrap64(|infos|))
  }

  predicate AllTranslatable(infos: seq<DecodeInfo>) { forall i :: 0 <= i < |infos| ==> Translatable(infos[i]) }

  function EmittedBlock<G>(env: Env<G>, infos: seq<DecodeInfo>, g: Guest<G>): (g': Guest<G>)
    requires AllTranslatable(infos) && GuestOk(g)
    ensures GuestOk(g')
    decreases |infos|
  {
    if infos == [] then g else EmittedBlock(env, infos[1..], EmittedGuest(env, infos[0], g))
  }

  predicate EmittedBlockNoTrap<G>(env: Env<G>, infos: seq<DecodeInfo>, g: Guest<G>)
    requires AllTranslatable(infos) && GuestOk(g)
    decreases |infos|
  {
    infos != [] ==> EmittedNoTrap(env, infos[0], g) && EmittedBlockNoTrap(env, infos[1..], EmittedGuest(env, infos[0], g))
  }

  function ExecBlock<G>(env: Env<G>, infos: seq<DecodeInfo>, g: Guest<G>): (g': Guest<G>)
    requires AllTranslatable(infos) && GuestOk(g)
    ensures GuestOk(g')
    decreases |infos|
  {
    if infos == [] then g else ExecBlock(env, infos[1..], ExecGuest(env, infos[0], g))
  }

  predicate ExecBlockNoTrap<G>(env: Env<G>, infos: seq<DecodeInfo>, g: Guest<G>)
    requires AllTranslatable(infos) && GuestOk(g)
    decreases |infos|
  {
    infos != [] ==> ExecNoTrap(env, infos[0], g) && ExecBlockNoTrap(env, infos[1..], ExecGuest(env, infos[0], g))
  }

  lemma EnteredStays<G>(env: Env<G>, s0: Host<G>, s: Host<G>, f: Host<G>)
    requires Entered(env, s0, s) && Settles(s, f)
    ensures Entered(env, s0, f)
  {
  }

  lemma {:induction false} BodyRuns<G>(env: Env<G>, infos: seq<DecodeInfo>, l: Label, g: Guest<G>, s0: Host<G>, s: Host<G>)
    requires Entered(env, s0, s) && Match(g, s) && AllTranslatable(infos) && env.at.storeFn != env.at.loadFn
    requires EmittedBlockNoTrap(env, infos, g)
    ensures var f := Run(env, BodyCode(env.at, infos, l), s);
            Entered(env, s0, f) && Match(EmittedBlock(env, infos, g), f) && f.instret == s.instret
    decreases |infos|
  {
    if infos != [] {
      var code, rest := InsCode(env.at, infos[0], l), BodyCode(env.at, infos[1..], l + LabelsUsed(infos[0]));
      assert GeneratorAt(env.at)(infos[0], l) == code;
      RunAppend(env, code, rest, s);
      InsRuns(env, infos[0], l, g, s);
      var s1 := Run(env, code, s);
      EnteredStays(env, s0, s, s1);
      BodyRuns(env, infos[1..], l + LabelsUsed(infos[0]), EmittedGuest(env, infos[0], g), s0, s1);
    }
  }

  /** What a caller of the translated function sees. */
  ghost predicate Returned<G>(g: Guest<G>, count: nat, s0: Host<G>, f: Host<G>) {
    && Running(f) && Shape(s0)
    && f.cells == g.xregs && f.pc == g.pc && f.ram == g.ram
    && f.instret == Wrap64(s0.instret + count)
    && f.x == s0.x && f.sp == s0.sp && Above(s0, f)
  }

  lemma ReturnsFrom<G>(env: Env<G>, n: nat, g: Guest<G>, s0: Host<G>, s: Host<G>)
    requires Entered(env, s0, s) && Match(g, s) && s.instret == s0.instret
    ensures Returned(g, n, s0, Run(env, Epilog(Wrap64(n)), s))
  {
    EpilogRuns(env, g, Wrap64(n), s0, s);
    AddWrapped(s0.instret, n);
  }

  lemma BodyReturns<G>(env: Env<G>, infos: seq<DecodeInfo>, g: Guest<G>, s0: Host<G>, s: Host<G>)
    requires Entered(env, s0, s) && Match(g, s) && s.instret == s0.instret
    requires AllTranslatable(infos) && env.at.storeFn != env.at.loadFn && EmittedBlockNoTrap(env, infos, g)
    ensures Returned(EmittedBlock(env, infos, g), |infos|, s0, Run(env, Epilog(Wrap64(|infos|)), Run(env, BodyCode(env.at, infos, 0), s)))
  {
    BodyRuns(env, infos, 0, g, s0, s);
    ReturnsFrom(env, |infos|, EmittedBlock(env, infos, g), s0, Run(env, BodyCode(env.at, infos, 0), s));
  }

  /** For every block, hazards or not: the translated function does EmittedBlock and nothing else the host can see. */
  lemma BlockRuns<G>(env: Env<G>, infos: seq<DecodeInfo>, g: Guest<G>, s0: Host<G>)
    requires AtEntry(g, s0) && AllTranslatable(infos) && env.at.storeFn != env.at.loadFn
    requires EmittedBlockNoTrap(env, infos, g)
    ensures Returned(EmittedBlock(env, infos, g), |infos|, s0, Run(env, BlockCode(env.at, infos), s0))
  {
    RunParts(env, Prolog(env.at.cpu), BodyCode(env.at, infos, 0), Epilog(Wrap64(|infos|)), s0);
    PrologRuns(env, g, s0);
    BodyReturns(env, infos, g, s0, Run(env, Prolog(env.at.cpu), s0));
  }
}
