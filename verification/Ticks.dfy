/**
 One clock tick (src/cpu/cpu.cc) and runs of ticks, on values.  Decoder, instruction fetch
 and executor are parameters; ExecLaws.dfy shows that the executor of Exec.dfy meets what
 is asked of them here.
 */
module Ticks {
  import opened Words
  import opened BitWords
  import opened Csr
  import opened Traps
  import opened Hart
  import opened TrapEffects
  import opened Isa
  import opened Exec
  import opened Runs

  datatype World<!G> = World(
    decode: (Half, Word) -> Insn,
    fetch: (G, View, Word, nat) -> Loaded<G>,
    exec: (Hart<G>, Insn, Word) -> Step<G>)

  function Cleared0<G>(s: Step<G>): Step<G> { s.(h := SetX(s.h, 0, 0)) }

  /** Decode and execute; x0 is cleared afterwards even if the instruction trapped. */
  function Dispatch<G>(w: World<G>, h: Hart<G>, word: Half, time: Word): Step<G> {
    var info := w.decode(word, h.pc);
    var h1 := h.(pc := Wrap64(h.pc + info.size));
    if info.token == UNKNOWN then Step(h1, Trap(IllegalInstruction, word)) else Cleared0(w.exec(h1, info, time))
  }

  lemma DispatchIs<G>(w: World<G>, h: Hart<G>, word: Half, time: Word, h1: Hart<G>, s: Step<G>)
    requires h1 == h.(pc := Wrap64(h.pc + w.decode(word, h.pc).size)) && s == w.exec(h1, w.decode(word, h.pc), time)
    ensures Dispatch(w, h, word, time)
         == if w.decode(word, h.pc).token == UNKNOWN then Step(h1, Trap(IllegalInstruction, word)) else Cleared0(s)
  {
  }

  /** TickOperate */
  function Operate<G>(w: World<G>, h: Hart<G>, time: Word): Step<G> {
    if h.wfi then Step(h.(wfi := PendingEnabled(h) == NoBits()), NONE)
    else
      var l := w.fetch(h.mem, ViewOf(h), h.pc, 4);
      if l.trap.ty != NoTrap then Step(h.(mem := l.mem), l.trap)
      else Dispatch(w, h.(mem := l.mem), Wrap32(l.value), time)
  }

  datatype Lines = Lines(meip: bool, seip: bool, msip: bool, mtip: bool)

  /** One Tick's inputs: the interrupt lines, if they are sampled this time, and the clock. */
  datatype Input = Input(update: bool, lines: Lines, time: Word)

  function Sample<G>(h: Hart<G>, x: Input): Hart<G> {
    if !x.update then h
    else
      var mip := h.csr[MIP][11 := x.lines.meip][9 := x.lines.seip][3 := x.lines.msip][7 := x.lines.mtip];
      h.(csr := h.csr[MIP := Masked(mip, M_INTERRUPTS)])
  }

  function Retire<G>(h: Hart<G>): Hart<G> {
    var n := Wrap64(h.instret + 1);
    h.(instret := n, csr := h.csr[MINSTRET := ToBits(n)])
  }

  /** HandleTrap for the instruction's own trap, if any. */
  function AfterTrap<G>(w: World<G>, h: Hart<G>, x: Input): Hart<G> {
    var h0 := Sample(h, x);
    var s := Operate(w, h0, x.time);
    HandleTrap(s.h, s.trap, h0.pc)
  }

  function Tick<G>(w: World<G>, h: Hart<G>, x: Input): Hart<G> {
    var h2 := AfterTrap(w, h, x);
    Retire(HandleInterrupt(h2, h2.pc))
  }

  // ----- what is asked of the executor -----

  /** Nothing but the reservation and the TLB moved. */
  ghost predicate Untouched<G, D>(dram: G -> D, h: Hart<G>, r: Hart<G>) {
    r == h.(resv := r.resv, mem := r.mem) && dram(r.mem) == dram(h.mem)
  }

  ghost predicate StepOk<G, D>(dram: G -> D, h: Hart<G>, s: Step<G>) {
    && (s.trap.ty != NoTrap ==> Untouched(dram, h, s.h))
    && Level(s.h.priv) <= Level(h.priv)
    && (CsrOk(h.csr) ==> CsrOk(s.h.csr))
  }

  ghost predicate WorldLawful<G(!new), D>(w: World<G>, dram: G -> D) {
    && (forall g, v, a, n {:trigger w.fetch(g, v, a, n)} :: dram(w.fetch(g, v, a, n).mem) == dram(g))
    && (forall h, info, time {:trigger w.exec(h, info, time)} :: StepOk(dram, h, w.exec(h, info, time)))
  }

  // ----- one tick -----

  /** The state TickOperate leaves when it reports a trap: nothing architectural has happened yet. */
  ghost predicate Stopped<G, D>(dram: G -> D, h: Hart<G>, r: Hart<G>) {
    && r == h.(pc := r.pc, xregs := h.xregs[0 := r.xregs[0]], resv := r.resv, mem := r.mem)
    && dram(r.mem) == dram(h.mem)
  }

  ghost predicate OperateSpec<G, D>(dram: G -> D, h: Hart<G>, s: Step<G>) {
    && (s.trap.ty != NoTrap ==> Stopped(dram, h, s.h))
    && Level(s.h.priv) <= Level(h.priv)
    && (CsrOk(h.csr) ==> CsrOk(s.h.csr))
    && (h.xregs[0] == 0 ==> s.h.xregs[0] == 0)
  }

  lemma ExecutedOk<G, D>(dram: G -> D, h: Hart<G>, pc: Word, s: Step<G>)
    requires StepOk(dram, h.(pc := pc), s)
    ensures OperateSpec(dram, h, Cleared0(s))
  {
  }

  lemma DispatchOk<G(!new), D>(w: World<G>, dram: G -> D, h: Hart<G>, word: Half, time: Word)
    requires WorldLawful(w, dram)
    ensures OperateSpec(dram, h, Dispatch(w, h, word, time))
  {
    var info := w.decode(word, h.pc);
    var h1 := h.(pc := Wrap64(h.pc + info.size));
    var s := w.exec(h1, info, time);
    DispatchIs(w, h, word, time, h1, s);
    if info.token != UNKNOWN {
      ExecutedOk(dram, h, h1.pc, s);
    }
  }

  lemma FetchedOk<G, D>(dram: G -> D, h: Hart<G>, mem: G, s: Step<G>)
    requires OperateSpec(dram, h.(mem := mem), s) && dram(mem) == dram(h.mem)
    ensures OperateSpec(dram, h, s)
  {
  }

  lemma OperateOk<G(!new), D>(w: World<G>, dram: G -> D, h: Hart<G>, time: Word)
    requires WorldLawful(w, dram)
    ensures OperateSpec(dram, h, Operate(w, h, time))
  {
    if !h.wfi {
      var l := w.fetch(h.mem, ViewOf(h), h.pc, 4);
      if l.trap.ty == NoTrap {
        DispatchOk(w, dram, h.(mem := l.mem), Wrap32(l.value), time);
        FetchedOk(dram, h, l.mem, Dispatch(w, h.(mem := l.mem), Wrap32(l.value), time));
      }
    }
  }

  lemma WordUpdateOk(f: CsrFile, a: CsrAddr, v: Bits)
    requires CsrOk(f) && WordOk(a, v)
    ensures CsrOk(f[a := v])
  {
  }

  lemma EnterOk(st: Bits, from: Priv)
    requires WordOk(MSTATUS, st)
    ensures WordOk(MSTATUS, EnterM(st, from)) && WordOk(MSTATUS, EnterS(st, from))
  {
  }

  lemma RecordedOk(f: CsrFile, a: CsrAddr, b: CsrAddr, c: CsrAddr, u: Bits, v: Bits, w: Bits, st: Bits)
    requires CsrOk(f) && Plain(a) && Plain(b) && Plain(c) && WordOk(MSTATUS, st)
    ensures CsrOk(f[a := u][b := v][c := w][MSTATUS := st])
  {
    WordUpdateOk(f, a, u);
    WordUpdateOk(f[a := u], b, v);
    WordUpdateOk(f[a := u][b := v], c, w);
    WordUpdateOk(f[a := u][b := v][c := w], MSTATUS, st);
  }

  lemma TrapToSOk<G>(h: Hart<G>, t: Trap, epc: Word)
    requires CsrOk(h.csr)
    ensures CsrOk(TrapToS(h, t, epc).csr)
  {
    assert WordOk(MSTATUS, Status(h));
    EnterOk(Status(h), h.priv);
    RecordedOk(h.csr, SEPC, SCAUSE, STVAL, ToBits(epc), CauseWord(t.ty), ToBits(t.val), EnterS(Status(h), h.priv));
  }

  lemma TrapToMOk<G>(h: Hart<G>, t: Trap, epc: Word)
    requires CsrOk(h.csr)
    ensures CsrOk(TrapToM(h, t, epc).csr)
  {
    assert WordOk(MSTATUS, Status(h));
    EnterOk(Status(h), h.priv);
    RecordedOk(h.csr, MEPC, MCAUSE, MTVAL, ToBits(epc), CauseWord(t.ty), ToBits(t.val), EnterM(Status(h), h.priv));
  }

  lemma HandleTrapOk<G>(h: Hart<G>, t: Trap, epc: Word)
    requires CsrOk(h.csr)
    ensures CsrOk(HandleTrap(h, t, epc).csr)
  {
    if t.ty != NoTrap {
      if Delegated(h, t.ty) { TrapToSOk(h, t, epc); } else { TrapToMOk(h, t, epc); }
    }
  }

  lemma HandleInterruptOk<G>(h: Hart<G>, at: Word)
    requires CsrOk(h.csr)
    ensures CsrOk(HandleInterrupt(h, at).csr)
  {
    var h1 := HandleTrap(h, Trap(ChosenInterrupt(h), h.pc), at);
    HandleTrapOk(h, Trap(ChosenInterrupt(h), h.pc), at);
    WordUpdateOk(h1.csr, MIP, Masked(ClearBits(h.csr[MIP], TrapToMask(ChosenInterrupt(h))), M_INTERRUPTS));
  }

  // ----- one tick, part by part -----

  lemma NoInterrupt<G>(h: Hart<G>, at: Word)
    requires ChosenInterrupt(h) == NoTrap
    ensures HandleInterrupt(h, at) == h.(csr := h.csr[MIP := Masked(ClearBits(h.csr[MIP], NoBits()), M_INTERRUPTS)])
  {
  }

  lemma SampleKeeps<G>(h: Hart<G>, x: Input)
    ensures var h0 := Sample(h, x);
            && h0 == h.(csr := h0.csr)
            && (forall a: CsrAddr :: a != MIP ==> h0.csr[a] == h.csr[a])
            && (CsrOk(h.csr) ==> CsrOk(h0.csr))
  {
    var mip := h.csr[MIP][11 := x.lines.meip][9 := x.lines.seip][3 := x.lines.msip][7 := x.lines.mtip];
    if CsrOk(h.csr) { WordUpdateOk(h.csr, MIP, Masked(mip, M_INTERRUPTS)); }
  }

  ghost predicate SameBody<G>(h: Hart<G>, r: Hart<G>) {
    r.xregs == h.xregs && r.mem == h.mem && r.resv == h.resv && r.hartId == h.hartId
  }

  lemma HandleTrapKeeps<G>(h: Hart<G>, t: Trap, epc: Word)
    ensures SameBody(h, HandleTrap(h, t, epc))
  {
  }

  lemma HandleInterruptKeeps<G>(h: Hart<G>, at: Word)
    ensures SameBody(h, HandleInterrupt(h, at))
  {
    HandleTrapKeeps(h, Trap(ChosenInterrupt(h), h.pc), at);
  }

  /** Taking traps and retiring leave the integer registers and the memory system alone. */
  lemma TrapsKeep<G>(h: Hart<G>, t: Trap, epc: Word, h2: Hart<G>)
    requires h2 == HandleTrap(h, t, epc)
    ensures SameBody(h, Retire(HandleInterrupt(h2, h2.pc)))
  {
    HandleTrapKeeps(h, t, epc);
    HandleInterruptKeeps(h2, h2.pc);
  }

  /** The tick with its intermediate states: the sampled hart, what TickOperate returned, the hart after HandleTrap. */
  ghost predicate InTick<G>(w: World<G>, h: Hart<G>, x: Input, h0: Hart<G>, s: Step<G>, h2: Hart<G>) {
    h0 == Sample(h, x) && s == Operate(w, h0, x.time) && h2 == HandleTrap(s.h, s.trap, h0.pc)
  }

  lemma TickIs<G>(w: World<G>, h: Hart<G>, x: Input, h0: Hart<G>, s: Step<G>, h2: Hart<G>)
    requires InTick(w, h, x, h0, s, h2)
    ensures Tick(w, h, x) == Retire(HandleInterrupt(h2, h2.pc))
  {
  }

  // ----- the invariant -----

  /** What every reachable hart satisfies. */
  ghost predicate HartOk<G>(h: Hart<G>) { CsrOk(h.csr) && h.xregs[0] == 0 }

  lemma TickKeepsOk<G(!new), D>(w: World<G>, dram: G -> D, h: Hart<G>, x: Input)
    requires HartOk(h) && WorldLawful(w, dram)
    ensures HartOk(Tick(w, h, x))
  {
    var h0 := Sample(h, x);
    SampleKeeps(h, x);
    var s := Operate(w, h0, x.time);
    OperateOk(w, dram, h0, x.time);
    var h2 := HandleTrap(s.h, s.trap, h0.pc);
    HandleTrapOk(s.h, s.trap, h0.pc);
    HandleInterruptOk(h2, h2.pc);
    TrapsKeep(s.h, s.trap, h0.pc, h2);
    var h3 := HandleInterrupt(h2, h2.pc);
    WordUpdateOk(h3.csr, MINSTRET, ToBits(Wrap64(h3.instret + 1)));
    TickIs(w, h, x, h0, s, h2);
  }

  function TickOf<G>(w: World<G>): (Hart<G>, Input) -> Hart<G> { (h, x) => Tick(w, h, x) }

  lemma {:induction false} RunKeepsHartOk<G(!new), D>(w: World<G>, dram: G -> D, h: Hart<G>, xs: seq<Input>)
    requires HartOk(h) && WorldLawful(w, dram)
    ensures HartOk(Fold(TickOf(w), h, xs))
    decreases |xs|
  {
    if xs != [] {
      TickKeepsOk(w, dram, h, xs[0]);
      RunKeepsHartOk(w, dram, Tick(w, h, xs[0]), xs[1..]);
    }
  }

  // ----- precise traps -----

  lemma DelegationKept<G, D>(dram: G -> D, h: Hart<G>, x: Input, r: Hart<G>, t: TrapType)
    requires Stopped(dram, Sample(h, x), r)
    ensures Delegated(r, t) == Delegated(h, t) && r.priv == h.priv
  {
    SampleKeeps(h, x);
  }

  /** epc, cause and tval of the level that took the trap survive the rest of the tick. */
  lemma ContextRecorded<G>(h: Hart<G>, t: Trap, epc: Word, h2: Hart<G>, r: Hart<G>)
    requires t.ty != NoTrap && h2 == HandleTrap(h, t, epc) && r == Retire(HandleInterrupt(h2, h2.pc))
    ensures if Delegated(h, t.ty) then r.csr[SEPC] == ToBits(epc) && r.csr[SCAUSE] == CauseWord(t.ty) && r.csr[STVAL] == ToBits(t.val)
            else r.csr[MEPC] == ToBits(epc) && r.csr[MCAUSE] == CauseWord(t.ty) && r.csr[MTVAL] == ToBits(t.val)
  {
    var h3 := HandleInterrupt(h2, h2.pc);
    if Delegated(h, t.ty) { TakenByS(h, t, epc); } else { TakenByM(h, t, epc); }
    if ChosenInterrupt(h2) != NoTrap {
      SecondTrap(h, t, epc, h2);
      NestedContextKept(h, t, epc, h2, h3);
    } else {
      NoInterrupt(h2, h2.pc);
    }
  }

  /**
   If the instruction of this tick traps, then after the whole tick x1-x31 and DRAM are as before, the trap was
   taken from the privilege the tick began with, and the level that took it holds the instruction's own address.
   */
  lemma PreciseTick<G(!new), D>(w: World<G>, dram: G -> D, h: Hart<G>, x: Input, h0: Hart<G>, s: Step<G>, h2: Hart<G>)
    requires WorldLawful(w, dram) && InTick(w, h, x, h0, s, h2) && s.trap.ty != NoTrap
    ensures var r := Tick(w, h, x);
            && r.xregs[1..] == h.xregs[1..] && dram(r.mem) == dram(h.mem) && s.h.priv == h.priv
            && (if Delegated(h, s.trap.ty) then r.csr[SEPC] == ToBits(h.pc) && r.csr[SCAUSE] == CauseWord(s.trap.ty)
                else r.csr[MEPC] == ToBits(h.pc) && r.csr[MCAUSE] == CauseWord(s.trap.ty))
  {
    OperateOk(w, dram, h0, x.time);
    SampleKeeps(h, x);
    DelegationKept(dram, h, x, s.h, s.trap.ty);
    TrapsKeep(s.h, s.trap, h0.pc, h2);
    TickIs(w, h, x, h0, s, h2);
    ContextRecorded(s.h, s.trap, h0.pc, h2, Tick(w, h, x));
  }

  // ----- privilege -----

  lemma InterruptLevel<G>(h: Hart<G>, at: Word)
    ensures ChosenInterrupt(h) == NoTrap ==> HandleInterrupt(h, at).priv == h.priv
    ensures ChosenInterrupt(h) != NoTrap ==> HandleInterrupt(h, at).priv in {Supervisor, Machine}
  {
  }

  /** A tick in which no trap and no interrupt is taken never raises privilege. */
  lemma QuietTick<G(!new), D>(w: World<G>, dram: G -> D, h: Hart<G>, x: Input, h0: Hart<G>, s: Step<G>, h2: Hart<G>)
    requires WorldLawful(w, dram) && InTick(w, h, x, h0, s, h2)
    requires s.trap.ty == NoTrap && ChosenInterrupt(h2) == NoTrap
    ensures Level(Tick(w, h, x).priv) <= Level(h.priv)
  {
    OperateOk(w, dram, h0, x.time);
    TickIs(w, h, x, h0, s, h2);
    InterruptLevel(h2, h2.pc);
  }

  /** Some trap or interrupt is taken in this tick. */
  ghost predicate TakesTrap<G>(w: World<G>, h: Hart<G>, x: Input) {
    Operate(w, Sample(h, x), x.time).trap.ty != NoTrap || ChosenInterrupt(AfterTrap(w, h, x)) != NoTrap
  }

  ghost predicate QuietRun<G>(w: World<G>, h: Hart<G>, xs: seq<Input>)
    decreases |xs|
  {
    xs != [] ==> !TakesTrap(w, h, xs[0]) && QuietRun(w, Tick(w, h, xs[0]), xs[1..])
  }

  /** Along every run, privilege rises only by taking a trap. */
  lemma {:induction false} PrivilegeRisesByTrap<G(!new), D>(w: World<G>, dram: G -> D, h: Hart<G>, xs: seq<Input>)
    requires WorldLawful(w, dram) && QuietRun(w, h, xs)
    ensures Level(Fold(TickOf(w), h, xs).priv) <= Level(h.priv)
    decreases |xs|
  {
    if xs != [] {
      var h0 := Sample(h, xs[0]);
      QuietTick(w, dram, h, xs[0], h0, Operate(w, h0, xs[0].time), AfterTrap(w, h, xs[0]));
      PrivilegeRisesByTrap(w, dram, Tick(w, h, xs[0]), xs[1..]);
    }
  }

  // ----- an exception and an interrupt in the same tick -----

  /**
   The instruction traps and an interrupt is taken in the same tick: the trap went to S with the instruction's
   address in sepc, the interrupt went to M, MRET (executed in `r`) resumes at the S handler, and its SRET
   (executed in `q`) resumes the instruction with privilege and mstatus as before the tick, MIE and SIE included.
   */
  lemma NestedTick<G(!new), D>(w: World<G>, dram: G -> D, h: Hart<G>, x: Input, h0: Hart<G>, s: Step<G>, h2: Hart<G>,
                               r: Hart<G>, r': Hart<G>, q: Hart<G>, w1: Half, w2: Half)
    requires WorldLawful(w, dram) && InTick(w, h, x, h0, s, h2)
    requires s.trap.ty != NoTrap && ChosenInterrupt(h2) != NoTrap
    requires h.priv != Reserved && !Status(h)[TSR_BIT]
    requires MachineContextKept(Tick(w, h, x), r) && r' == MRet(r, w1).h
    requires q.priv == r'.priv && q.csr[SEPC] == Tick(w, h, x).csr[SEPC] && Status(q) == Status(r')
    ensures h2.priv == Supervisor && Tick(w, h, x).priv == Machine && Tick(w, h, x).csr[SEPC] == ToBits(h.pc)
    ensures h2.pc == StartOf(FromBits(h.csr[STVEC]), Cause(s.trap.ty))
    ensures Tick(w, h, x).pc == StartOf(FromBits(h.csr[MTVEC]), Cause(ChosenInterrupt(h2)))
    ensures MRet(r, w1).trap == NONE && r'.pc == h2.pc && r'.priv == Supervisor
    ensures SRet(q, w2).trap == NONE && BackAt(h, h.pc, SRet(q, w2).h, SPENT)
  {
    OperateOk(w, dram, h0, x.time);
    SampleKeeps(h, x);
    TickIs(w, h, x, h0, s, h2);
    NestedContextKept(s.h, s.trap, h0.pc, h2, HandleInterrupt(h2, h2.pc));
    SecondTrap(s.h, s.trap, h0.pc, h2);
    TakenByS(s.h, s.trap, h0.pc);
    NestedReturn(s.h, s.trap, h0.pc, h2, r, r', q, w1, w2);
    NestedStarts(s.h, s.trap, h0.pc, h2, Tick(w, h, x));
  }

  /** The S handler starts at stvec's entry for the exception, the M handler at mtvec's entry for the interrupt. */
  lemma NestedStarts<G>(h: Hart<G>, t: Trap, epc: Word, h2: Hart<G>, r: Hart<G>)
    requires t.ty != NoTrap && Delegated(h, t.ty) && h2 == HandleTrap(h, t, epc)
    requires ChosenInterrupt(h2) != NoTrap && !Delegated(h2, ChosenInterrupt(h2)) && r == Retire(HandleInterrupt(h2, h2.pc))
    ensures h2.pc == StartOf(FromBits(h.csr[STVEC]), Cause(t.ty))
    ensures r.pc == StartOf(FromBits(h.csr[MTVEC]), Cause(ChosenInterrupt(h2)))
  {
    HandlerPc(FromBits(h.csr[STVEC]), Cause(t.ty));
    HandlerPc(FromBits(h.csr[MTVEC]), Cause(ChosenInterrupt(h2)));
    assert h2 == TrapToS(h, t, epc);
    OthersOfS(h.csr, h.priv, t, epc, MTVEC);
    assert HandleTrap(h2, Trap(ChosenInterrupt(h2), h2.pc), h2.pc) == TrapToM(h2, Trap(ChosenInterrupt(h2), h2.pc), h2.pc);
  }
}
