/**
 The interpreter the translator is measured against is the executor of Exec.dfy: what
 JitBlock calls ExecGuest is one Execute followed by the clearing of x0.
 */
module JitInterp {
  import opened Words
  import opened Isa
  import T = Traps
  import H = Hart
  import E = Exec
  import opened A64
  import opened JitCode
  import opened JitSim
  import opened JitMem
  import opened JitFrame
  import opened JitBlock
  import opened JitHazard

  /** The numeric value of a TrapType enumerator. */
  function TrapCode(t: T.TrapType): Half {
    match t
    case InstructionAddressMisaligned => 0
    case InstructionAccessFault => 1
    case IllegalInstruction => 2
    case Breakpoint => 3
    case LoadAddressMisaligned => 4
    case LoadAccessFault => 5
    case StoreAddressMisaligned => 6
    case StoreAccessFault => 7
    case EnvironmentCallFromUMode => 8
    case EnvironmentCallFromSMode => 9
    case EnvironmentCallFromMMode => 10
    case InstructionPageFault => 11
    case LoadPageFault => 12
    case StorePageFault => 13
    case UserSoftwareInterrupt => 14
    case SupervisorSoftwareInterrupt => 15
    case MachineSoftwareInterrupt => 16
    case UserTimerInterrupt => 17
    case SupervisorTimerInterrupt => 18
    case MachineTimerInterrupt => 19
    case UserExternalInterrupt => 20
    case SupervisorExternalInterrupt => 21
    case MachineExternalInterrupt => 22
    case NoTrap => 23
  }

  lemma OnlyNone(t: T.TrapType)
    ensures TrapCode(t) == TRAP_NONE <==> t == T.NoTrap
  {
  }

  function CodeOf<G>(l: E.Loaded<G>): LoadResult<G> { LoadResult(TrapCode(l.trap.ty), l.value, l.mem) }

  function StoredCode<G>(s: E.Stored<G>): StoreResult<G> { StoreResult(TrapCode(s.trap.ty), s.mem) }

  /** MmuLoad and MmuStore pass the access on to the processor's memory system. */
  ghost predicate Helpers<G(!new)>(env: Env<G>, m: E.Memory<G>, v: E.View) {
    && (forall g, a, n: Word {:trigger env.load(g, a, n)} :: env.load(g, a, n) == CodeOf(m.load(g, v, a, n)))
    && (forall g, a, n: Word, d {:trigger env.store(g, a, n, d)} :: env.store(g, a, n, d) == StoredCode(m.store(g, v, a, n, d)))
  }

  function GuestIn<G>(h: H.Hart<G>): Guest<G> { Guest(h.xregs, h.pc, h.mem) }

  /** Everything the translated code does not touch. */
  ghost predicate SameMode<G>(h: H.Hart<G>, r: H.Hart<G>) {
    r == h.(xregs := r.xregs, pc := r.pc, mem := r.mem)
  }

  lemma PutIsGuest<G(!new)>(h: H.Hart<G>, rd: Reg, v: Word)
    requires h.xregs[0] == 0
    ensures var s := E.Put(h, rd, v);
            s.trap == T.NONE && SameMode(h, s.h) && GuestIn(E.SetX(s.h, 0, 0)) == SetReg(GuestIn(h), rd, v)
  {
  }

  lemma RegisterValue<G(!new)>(env: Env<G>, h: H.Hart<G>, info: E.Insn) returns (v: Word)
    requires Translatable(info) && h.xregs[0] == 0 && info.op in {OpReg, OpRv32}
    ensures E.Compute(h, info) == E.Put(h, info.rd, v) && ExecGuest(env, info, GuestIn(h)) == SetReg(GuestIn(h), info.rd, v)
  {
    var a, b := h.xregs[info.rs1], h.xregs[info.rs2];
    if info.op == OpReg { v := RegOp(info.token, a, b); } else { v := Reg32Op(info.token, a, b); }
  }

  lemma ImmediateValue<G(!new)>(env: Env<G>, h: H.Hart<G>, info: E.Insn) returns (v: Word)
    requires Translatable(info) && h.xregs[0] == 0 && info.op in {OpImm, OpImm32}
    ensures E.Compute(h, info) == E.Put(h, info.rd, v) && ExecGuest(env, info, GuestIn(h)) == SetReg(GuestIn(h), info.rd, v)
  {
    assert E.ShiftMasked(info.token, info.imm) == info.imm;
    if info.op == OpImm { v := ImmOp(info.token, h.xregs[info.rs1], info.imm); } else { v := Imm32Op(info.token, h.xregs[info.rs1], info.imm); }
  }

  /** The value both sides put into rd. */
  lemma ComputeValue<G(!new)>(env: Env<G>, h: H.Hart<G>, info: E.Insn) returns (v: Word)
    requires Translatable(info) && h.xregs[0] == 0 && info.op !in {OpJal, OpJalr, OpLoad, OpStore}
    ensures E.Compute(h, info) == E.Put(h, info.rd, v) && ExecGuest(env, info, GuestIn(h)) == SetReg(GuestIn(h), info.rd, v)
  {
    if info.op in {OpReg, OpRv32} {
      v := RegisterValue(env, h, info);
    } else if info.op in {OpImm, OpImm32} {
      v := ImmediateValue(env, h, info);
    } else {
      v := Wrap64((if info.op == OpLui then 0 else info.pc) + info.imm);
    }
  }

  lemma ComputeIsGuest<G(!new)>(env: Env<G>, h: H.Hart<G>, info: E.Insn)
    requires Translatable(info) && h.xregs[0] == 0 && info.op !in {OpJal, OpJalr, OpLoad, OpStore}
    ensures var s := E.Compute(h, info);
            s.trap == T.NONE && SameMode(h, s.h) && GuestIn(E.SetX(s.h, 0, 0)) == ExecGuest(env, info, GuestIn(h))
  {
    var v := ComputeValue(env, h, info);
    PutIsGuest(h, info.rd, v);
  }

  lemma JumpIsGuest<G(!new)>(env: Env<G>, h: H.Hart<G>, info: E.Insn)
    requires Translatable(info) && h.xregs[0] == 0 && info.op in {OpJal, OpJalr}
    ensures var s := if info.op == OpJal then E.Jal(h, info) else E.Jalr(h, info);
            s.trap == T.NONE && SameMode(h, s.h) && GuestIn(E.SetX(s.h, 0, 0)) == ExecGuest(env, info, GuestIn(h))
  {
  }

  lemma LoadIsGuest<G(!new)>(env: Env<G>, m: E.Memory<G>, h: H.Hart<G>, info: E.Insn)
    requires Translatable(info) && h.xregs[0] == 0 && info.op == OpLoad && Helpers(env, m, E.ViewOf(h))
    ensures var s := E.Load(m, h, info);
            && (s.trap.ty == T.NoTrap <==> ExecNoTrap(env, info, GuestIn(h)))
            && (s.trap.ty == T.NoTrap ==> SameMode(h, s.h) && GuestIn(E.SetX(s.h, 0, 0)) == ExecGuest(env, info, GuestIn(h)))
  {
    var l := m.load(h.mem, E.ViewOf(h), EffectiveAddress(info, h.xregs[info.rs1]), info.memSize);
    OnlyNone(l.trap.ty);
    assert Wrap64(info.memSize) == info.memSize;
    assert LoadOutcome(env, info, GuestIn(h)) == CodeOf(l);
  }

  lemma StoreIsGuest<G(!new)>(env: Env<G>, m: E.Memory<G>, h: H.Hart<G>, info: E.Insn)
    requires Translatable(info) && h.xregs[0] == 0 && info.op == OpStore && Helpers(env, m, E.ViewOf(h))
    ensures var s := E.Store(m, h, info);
            && (s.trap.ty == T.NoTrap <==> ExecNoTrap(env, info, GuestIn(h)))
            && (s.trap.ty == T.NoTrap ==> SameMode(h, s.h) && GuestIn(E.SetX(s.h, 0, 0)) == ExecGuest(env, info, GuestIn(h)))
  {
    var s := m.store(h.mem, E.ViewOf(h), EffectiveAddress(info, h.xregs[info.rs1]), info.memSize, h.xregs[info.rs2]);
    OnlyNone(s.trap.ty);
    assert Wrap64(info.memSize) == info.memSize;
    assert env.store(h.mem, EffectiveAddress(info, h.xregs[info.rs1]), Wrap64(info.memSize), h.xregs[info.rs2]) == StoredCode(s);
  }

  /** For every instruction the translator handles, ExecGuest is the executor. */
  lemma ExecuteIsGuest<G(!new)>(env: Env<G>, m: E.Memory<G>, h: H.Hart<G>, info: E.Insn, time: Word, s: H.Step<G>)
    requires Translatable(info) && h.xregs[0] == 0 && Helpers(env, m, E.ViewOf(h)) && s == E.Execute(m, h, info, time)
    ensures s.trap.ty == T.NoTrap <==> ExecNoTrap(env, info, GuestIn(h))
    ensures s.trap.ty == T.NoTrap ==> SameMode(h, s.h) && GuestIn(E.SetX(s.h, 0, 0)) == ExecGuest(env, info, GuestIn(h))
  {
    if info.op == OpLoad {
      LoadIsGuest(env, m, h, info);
    } else if info.op == OpStore {
      StoreIsGuest(env, m, h, info);
    } else if info.op in {OpJal, OpJalr} {
      JumpIsGuest(env, h, info);
    } else {
      ComputeIsGuest(env, h, info);
    }
  }

  // ----- blocks -----

  type Executor<!G> = (H.Hart<G>, E.Insn) -> H.Step<G>

  /** TickOperate moves the pc past the instruction before it executes it ... */
  function Past<G>(h: H.Hart<G>, info: E.Insn): H.Hart<G> { h.(pc := Wrap64(h.pc + info.size)) }

  /** ... and clears x0 afterwards. */
  function Interpret<G>(exec: Executor<G>, h: H.Hart<G>, infos: seq<E.Insn>): H.Hart<G>
    decreases |infos|
  {
    if infos == [] then h else Interpret(exec, E.SetX(exec(Past(h, infos[0]), infos[0]).h, 0, 0), infos[1..])
  }

  predicate NoTraps<G>(exec: Executor<G>, h: H.Hart<G>, infos: seq<E.Insn>)
    decreases |infos|
  {
    infos != [] ==>
      var s := exec(Past(h, infos[0]), infos[0]);
      s.trap.ty == T.NoTrap && NoTraps(exec, E.SetX(s.h, 0, 0), infos[1..])
  }

  function ExecuteWith<G>(m: E.Memory<G>, time: Word): Executor<G> { (h: H.Hart<G>, info: E.Insn) => E.Execute(m, h, info, time) }

  /** `exec` agrees with ExecGuest on translatable instructions as long as the MMU's view of the processor is `v`. */
  ghost predicate Faithful<G(!new)>(env: Env<G>, exec: Executor<G>, v: E.View) {
    forall h: H.Hart<G>, info: E.Insn {:trigger exec(h, info)} :: Translatable(info) && h.xregs[0] == 0 && E.ViewOf(h) == v ==>
      FaithfulAt(env, h, info, exec(h, info))
  }

  ghost predicate FaithfulAt<G>(env: Env<G>, h: H.Hart<G>, info: E.Insn, s: H.Step<G>)
    requires Translatable(info) && h.xregs[0] == 0
  {
    && (s.trap.ty == T.NoTrap <==> ExecNoTrap(env, info, GuestIn(h)))
    && (s.trap.ty == T.NoTrap ==> SameMode(h, s.h) && GuestIn(E.SetX(s.h, 0, 0)) == ExecGuest(env, info, GuestIn(h)))
  }

  lemma ExecutorFaithful<G(!new)>(env: Env<G>, m: E.Memory<G>, v: E.View, time: Word)
    requires Helpers(env, m, v)
    ensures Faithful(env, ExecuteWith(m, time), v)
  {
    forall h: H.Hart<G>, info: E.Insn | Translatable(info) && h.xregs[0] == 0 && E.ViewOf(h) == v
      ensures FaithfulAt(env, h, info, ExecuteWith(m, time)(h, info))
    {
      ExecuteIsGuest(env, m, h, info, time, E.Execute(m, h, info, time));
    }
  }

  // ----- the pc -----

  predicate Jumps(info: DecodeInfo) { info.op in {OpJal, OpJalr} }

  /** The size of the code after the last jump of a block, which `k` bytes of such code precede. */
  function TailSize(infos: seq<DecodeInfo>, k: nat): nat
    decreases |infos|
  {
    if infos == [] then k else TailSize(infos[1..], if Jumps(infos[0]) then 0 else k + infos[0].size)
  }

  /** Translated instructions neither read the pc nor, unless they jump, change it. */
  lemma PcPassesThrough<G>(env: Env<G>, info: DecodeInfo, g: Guest<G>, pc: Word)
    requires Translatable(info) && GuestOk(g)
    ensures ExecNoTrap(env, info, g.(pc := pc)) == ExecNoTrap(env, info, g)
    ensures var r := ExecGuest(env, info, g);
            && ExecGuest(env, info, g.(pc := pc)) == (if Jumps(info) then r else r.(pc := pc))
            && (Jumps(info) || r.pc == g.pc)
  {
  }

  /** The guest `g` with its pc `k` bytes further on. */
  function Ahead<G>(g: Guest<G>, k: nat): Guest<G> { g.(pc := Wrap64(g.pc + k)) }

  lemma AheadMore(pc: Word, k: nat, n: nat)
    ensures Wrap64(Wrap64(pc + k) + n) == Wrap64(pc + (k + n))
  {
    AddWrapped(n, pc + k);
  }

  lemma PastAhead<G>(h: H.Hart<G>, info: E.Insn, g: Guest<G>, k: nat)
    requires GuestIn(h) == Ahead(g, k)
    ensures GuestIn(Past(h, info)) == Ahead(g, k + info.size)
  {
    AheadMore(g.pc, k, info.size);
  }

  /** `r` is ExecGuest on `g`, `q` on the same guest further on. */
  lemma AheadAfter<G>(info: DecodeInfo, g: Guest<G>, n: nat, r: Guest<G>, q: Guest<G>)
    requires q == if Jumps(info) then r else r.(pc := Ahead(g, n).pc)
    requires Jumps(info) || r.pc == g.pc
    ensures q == Ahead(r, if Jumps(info) then 0 else n)
  {
  }

  lemma StepAhead<G(!new)>(env: Env<G>, h: H.Hart<G>, info: E.Insn, g: Guest<G>, n: nat, s: H.Step<G>, r: Guest<G>)
    requires Translatable(info) && h.xregs[0] == 0 && GuestOk(g) && GuestIn(h) == Ahead(g, n) && r == ExecGuest(env, info, g)
    requires FaithfulAt(env, h, info, s) && s.trap.ty == T.NoTrap
    ensures ExecNoTrap(env, info, g) && E.ViewOf(s.h) == E.ViewOf(h)
    ensures GuestIn(E.SetX(s.h, 0, 0)) == Ahead(r, if Jumps(info) then 0 else n)
  {
    PcPassesThrough(env, info, g, Ahead(g, n).pc);
    AheadAfter(info, g, n, r, GuestIn(E.SetX(s.h, 0, 0)));
  }

  lemma InterpretOne<G(!new)>(env: Env<G>, exec: Executor<G>, h: H.Hart<G>, info: E.Insn, g: Guest<G>, k: nat, s: H.Step<G>, r: Guest<G>)
    requires Translatable(info) && h.xregs[0] == 0 && GuestOk(g) && GuestIn(h) == Ahead(g, k) && r == ExecGuest(env, info, g)
    requires Faithful(env, exec, E.ViewOf(h)) && s == exec(Past(h, info), info) && s.trap.ty == T.NoTrap
    ensures ExecNoTrap(env, info, g) && E.ViewOf(s.h) == E.ViewOf(h)
    ensures GuestIn(E.SetX(s.h, 0, 0)) == Ahead(r, if Jumps(info) then 0 else k + info.size)
  {
    PastAhead(h, info, g, k);
    assert FaithfulAt(env, Past(h, info), info, s);
    StepAhead(env, Past(h, info), info, g, k + info.size, s, r);
  }

  lemma InterpretCons<G>(exec: Executor<G>, h: H.Hart<G>, infos: seq<E.Insn>)
    requires infos != []
    ensures Interpret(exec, h, infos) == Interpret(exec, E.SetX(exec(Past(h, infos[0]), infos[0]).h, 0, 0), infos[1..])
  {
  }

  lemma {:induction false} BlockCons<G>(env: Env<G>, infos: seq<DecodeInfo>, g: Guest<G>)
    requires infos != [] && AllTranslatable(infos) && GuestOk(g)
    ensures var r := ExecGuest(env, infos[0], g);
            && ExecBlock(env, infos, g) == ExecBlock(env, infos[1..], r)
            && (ExecBlockNoTrap(env, infos, g) <==> ExecNoTrap(env, infos[0], g) && ExecBlockNoTrap(env, infos[1..], r))
  {
  }

  /** Interpreting a block is ExecBlock, with the pc moved past the code after the last jump. */
  lemma {:induction false} InterpretIsGuest<G(!new)>(env: Env<G>, exec: Executor<G>, h: H.Hart<G>, infos: seq<E.Insn>, g: Guest<G>, k: nat)
    requires AllTranslatable(infos) && h.xregs[0] == 0 && Faithful(env, exec, E.ViewOf(h)) && NoTraps(exec, h, infos)
    requires GuestOk(g) && GuestIn(h) == Ahead(g, k)
    ensures ExecBlockNoTrap(env, infos, g)
    ensures GuestIn(Interpret(exec, h, infos)) == Ahead(ExecBlock(env, infos, g), TailSize(infos, k))
    decreases |infos|
  {
    if infos != [] {
      var info, rest := infos[0], infos[1..];
      var s, r, j := exec(Past(h, info), info), ExecGuest(env, info, g), if Jumps(info) then 0 else k + info.size;
      InterpretOne(env, exec, h, info, g, k, s, r);
      InterpretIsGuest(env, exec, E.SetX(s.h, 0, 0), rest, r, j);
      InterpretCons(exec, h, infos);
      BlockCons(env, infos, g);
    }
  }

  /**
   Translation against the executor: if interpreting a hazard-free block on hart `h` takes no trap, then running
   its translation on any host leaves all 32 guest registers and the memory system exactly as interpreting the
   block does, adds the block's length to instret, and restores the host.  The pc falls behind by the code after
   the last jump, so it is the interpreter's exactly when that code has size 0 modulo 2^64.
   */
  lemma {:induction false} TranslationMatchesExecutor<G(!new)>(env: Env<G>, m: E.Memory<G>, h: H.Hart<G>, infos: seq<E.Insn>, time: Word, s0: Host<G>)
    requires AllTranslatable(infos) && AllHazardFree(infos) && env.at.storeFn != env.at.loadFn
    requires h.xregs[0] == 0 && Helpers(env, m, E.ViewOf(h)) && NoTraps(ExecuteWith(m, time), h, infos)
    requires AtEntry(GuestIn(h), s0)
    ensures var f, r := Run(env, BlockCode(env.at, infos), s0), Interpret(ExecuteWith(m, time), h, infos);
            Agrees(r, |infos|, TailSize(infos, 0), s0, f)
  {
    var r := Interpret(ExecuteWith(m, time), h, infos);
    var b := InterpretedBlock(env, m, h, infos, time, r);
    TranslationSimulates(env, infos, GuestIn(h), s0);
    ReturnedBehind(|infos|, b, TailSize(infos, 0), s0, Run(env, BlockCode(env.at, infos), s0), r);
  }

  /** The host `f` that ran a block of `n` instructions holds the state of hart `r`, with the pc `k` bytes behind. */
  ghost predicate Agrees<G>(r: H.Hart<G>, n: nat, k: nat, s0: Host<G>, f: Host<G>) {
    && Returned(GuestIn(r).(pc := f.pc), n, s0, f)
    && r.pc == Wrap64(f.pc + k)
    && (f.pc == r.pc <==> k % TWO64 == 0)
  }

  lemma {:induction false} InterpretedBlock<G(!new)>(env: Env<G>, m: E.Memory<G>, h: H.Hart<G>, infos: seq<E.Insn>, time: Word, r: H.Hart<G>)
      returns (b: Guest<G>)
    requires AllTranslatable(infos) && h.xregs[0] == 0 && Helpers(env, m, E.ViewOf(h)) && NoTraps(ExecuteWith(m, time), h, infos)
    requires r == Interpret(ExecuteWith(m, time), h, infos)
    ensures ExecBlockNoTrap(env, infos, GuestIn(h)) && b == ExecBlock(env, infos, GuestIn(h)) && GuestIn(r) == Ahead(b, TailSize(infos, 0))
  {
    var g := GuestIn(h);
    assert Ahead(g, 0) == g;
    ExecutorFaithful(env, m, E.ViewOf(h), time);
    InterpretIsGuest(env, ExecuteWith(m, time), h, infos, g, 0);
    b := ExecBlock(env, infos, g);
  }

  lemma ReturnedBehind<G>(n: nat, b: Guest<G>, k: nat, s0: Host<G>, f: Host<G>, r: H.Hart<G>)
    requires Returned(b, n, s0, f) && GuestIn(r) == Ahead(b, k)
    ensures Agrees(r, n, k, s0, f)
  {
    SameWord(b.pc, k);
  }

  lemma SameWord(pc: Word, k: nat)
    ensures pc == Wrap64(pc + k) <==> k % TWO64 == 0
  {
    AddWrapped(pc, k);
  }

  lemma {:induction false} TailSnoc(infos: seq<DecodeInfo>, last: DecodeInfo, k: nat)
    ensures TailSize(infos + [last], k) == if Jumps(last) then 0 else TailSize(infos, k) + last.size
    decreases |infos|
  {
    if infos == [] {
      assert infos + [last] == [last] && [last][1..] == [];
    } else {
      assert (infos + [last])[1..] == infos[1..] + [last];
      TailSnoc(infos[1..], last, if Jumps(infos[0]) then 0 else k + infos[0].size);
    }
  }

  lemma {:induction false} TailBound(infos: seq<DecodeInfo>, k: nat)
    requires AllTranslatable(infos)
    ensures TailSize(infos, k) <= k + 4 * |infos|
    decreases |infos|
  {
    if infos != [] {
      TailBound(infos[1..], if Jumps(infos[0]) then 0 else k + infos[0].size);
    }
  }

  /** For blocks below 2^62 instructions: the pc is right exactly after an empty block and after one that ends in a jump. */
  lemma {:induction false} PcRightAfterJumps(infos: seq<DecodeInfo>)
    requires AllTranslatable(infos) && 4 * |infos| < TWO64
    ensures TailSize(infos, 0) % TWO64 == 0 <==> infos == [] || Jumps(infos[|infos| - 1])
  {
    if infos != [] {
      var n := |infos| - 1;
      assert infos == infos[..n] + [infos[n]];
      TailSnoc(infos[..n], infos[n], 0);
      TailBound(infos[..n], 0);
    }
  }

  /** addi x5, x0, 1 */
  function Addi(pc: Word): E.Insn { DecodeInfo(0x0010_0293, OpImm, ADDI, 5, 0, 0, pc, 1, 4, 0) }

  /** Running the translation of this one instruction leaves the guest pc on it ... */
  lemma {:induction false} AddiLeavesPc<G>(env: Env<G>, info: DecodeInfo, g: Guest<G>, s0: Host<G>)
    requires env.at.storeFn != env.at.loadFn && AtEntry(g, s0) && info == Addi(info.pc)
    ensures Run(env, BlockCode(env.at, [info]), s0).pc == g.pc
  {
    assert [info][1..] == [];
    assert ExecBlock(env, [info], g) == ExecGuest(env, info, g);
    TranslationSimulates(env, [info], g, s0);
  }

  /** ... where the interpreter has moved on to the next. */
  lemma {:induction false} AddiMovesPc<G>(m: E.Memory<G>, h: H.Hart<G>, time: Word, info: E.Insn)
    requires info == Addi(h.pc)
    ensures Interpret(ExecuteWith(m, time), h, [info]).pc == Wrap64(h.pc + 4) != h.pc
  {
    var s := E.Execute(m, Past(h, info), info, time);
    assert s == E.Compute(Past(h, info), info);
    var rest: seq<E.Insn> := [info][1..];
    assert rest == [];
    assert Interpret(ExecuteWith(m, time), h, [info]) == E.SetX(s.h, 0, 0);
  }
}
