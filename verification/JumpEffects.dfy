/**
 Jumps, branches and the upper-immediate instructions by their effect, in numbers: once for the executor
 (src/cpu/executor.cc) and once for the code src/jit/jit.cc emits.
 */
module JumpEffects {
  import opened Words
  import opened BitLaws
  import opened Isa
  import T = Traps
  import H = Hart
  import E = Exec
  import opened A64
  import opened JitSim
  import opened JitFrame
  import opened JitBlock
  import opened JitHazard

  // ----- the executor -----

  /** JAL: pc-relative target, link to the next instruction, nothing else. */
  lemma JalEffect<G>(m: E.Memory<G>, h: H.Hart<G>, info: E.Insn, time: Word)
    requires info.op == OpJal
    ensures E.Execute(m, h, info, time)
         == H.Step(h.(pc := (info.pc + info.imm) % TWO64, xregs := h.xregs[info.rd := (info.pc + info.size) % TWO64]), T.NONE)
  {
  }

  /** JALR: rs1, as it was before, plus the immediate, made even. */
  lemma JalrEffect<G>(m: E.Memory<G>, h: H.Hart<G>, info: E.Insn, time: Word, sum: Word)
    requires info.op == OpJalr && sum == (h.xregs[info.rs1] + info.imm) % TWO64
    ensures E.Execute(m, h, info, time)
         == H.Step(h.(pc := sum - sum % 2, xregs := h.xregs[info.rd := (info.pc + info.size) % TWO64]), T.NONE)
  {
    EvenPart(sum);
  }

  /** The six branches, each with its own condition on the two register values. */
  lemma BranchEffect<G>(m: E.Memory<G>, h: H.Hart<G>, info: E.Insn, time: Word, a: Word, b: Word)
    requires info.op == OpBranch && a == h.xregs[info.rs1] && b == h.xregs[info.rs2]
    ensures var taken, next := h.(pc := (info.pc + info.imm) % TWO64), h.(pc := (info.pc + info.size) % TWO64);
            var sa, sb := if a < TWO63 then a else a - TWO64, if b < TWO63 then b else b - TWO64;
            E.Execute(m, h, info, time)
            == match info.token
               case BEQ => H.Step(if a == b then taken else next, T.NONE)
               case BNE => H.Step(if a == b then next else taken, T.NONE)
               case BLT => H.Step(if sa < sb then taken else next, T.NONE)
               case BGE => H.Step(if sa < sb then next else taken, T.NONE)
               case BLTU => H.Step(if a < b then taken else next, T.NONE)
               case BGEU => H.Step(if a < b then next else taken, T.NONE)
               case _ => H.Step(h, T.Trap(T.IllegalInstruction, info.word))
  {
  }

  lemma UpperEffect<G>(m: E.Memory<G>, h: H.Hart<G>, info: E.Insn, time: Word)
    requires info.op in {OpLui, OpAuipc}
    ensures var base := if info.op == OpLui then 0 else info.pc;
            E.Execute(m, h, info, time) == H.Step(h.(xregs := h.xregs[info.rd := (base + info.imm) % TWO64]), T.NONE)
  {
  }

  // ----- the translated code -----

  /** The pc and the value of rd the instruction must leave, in a guest with registers `x` at pc `at`. */
  predicate Demands(info: DecodeInfo, x: seq<Word>, at: Word, pc: Word, val: Word)
    requires |x| == 32
  {
    match info.op
    case OpLui => pc == at && val == info.imm % TWO64
    case OpAuipc => pc == at && val == (info.pc + info.imm) % TWO64
    case OpJal => pc == (info.pc + info.imm) % TWO64 && val == (info.pc + info.size) % TWO64
    case OpJalr => (var sum := (x[info.rs1] + info.imm) % TWO64; pc == sum - sum % 2) && val == (info.pc + info.size) % TWO64
    case _ => false
  }

  lemma DemandsMet<G>(env: Env<G>, info: DecodeInfo, g: Guest<G>, pc: Word, val: Word)
    requires Translatable(info) && GuestOk(g) && info.rd != 0 && Demands(info, g.xregs, g.pc, pc, val)
    ensures ExecNoTrap(env, info, g) && ExecGuest(env, info, g) == g.(pc := pc, xregs := g.xregs[info.rd := val])
  {
    if info.op == OpJalr { EvenPart((g.xregs[info.rs1] + info.imm) % TWO64); }
  }

  lemma {:induction false} OneRuns<G>(env: Env<G>, info: DecodeInfo, g: Guest<G>, s0: Host<G>, r: Guest<G>)
    requires env.at.storeFn != env.at.loadFn && AtEntry(g, s0) && Translatable(info) && HazardFree(info)
    requires ExecNoTrap(env, info, g) && r == ExecGuest(env, info, g)
    ensures Returned(r, 1, s0, Run(env, BlockCode(env.at, [info]), s0))
  {
    assert [info][1..] == [];
    assert ExecBlock(env, [info], g) == r;
    TranslationSimulates(env, [info], g, s0);
  }

  /**
   The translated block of one LUI, AUIPC, JAL or JALR, prolog and epilog included, leaves exactly that pc and that
   value of rd, every other guest register and the memory as they were, and the host as it was.
   */
  lemma {:induction false} JumpTranslated<G>(env: Env<G>, info: DecodeInfo, g: Guest<G>, s0: Host<G>, pc: Word, val: Word)
    requires env.at.storeFn != env.at.loadFn && AtEntry(g, s0) && Translatable(info) && HazardFree(info)
    requires info.rd != 0 && Demands(info, g.xregs, g.pc, pc, val)
    ensures Returned(g.(pc := pc, xregs := g.xregs[info.rd := val]), 1, s0, Run(env, BlockCode(env.at, [info]), s0))
  {
    DemandsMet(env, info, g, pc, val);
    OneRuns(env, info, g, s0, g.(pc := pc, xregs := g.xregs[info.rd := val]));
  }

  /** A JAL that links is always among them. */
  lemma JalHazardFree(info: DecodeInfo)
    requires WellFormed(info) && info.op == OpJal && info.rd != 0
    ensures Translatable(info) && HazardFree(info)
  {
  }
}
