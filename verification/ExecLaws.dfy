/** What holds of every instruction: its traps are precise, it never raises privilege, and it keeps the CSR invariant. */
module ExecLaws {
  import opened Words
  import opened BitWords
  import opened Isa
  import opened Csr
  import opened Traps
  import opened Hart
  import opened Exec
  import opened Ticks

  /** A memory system seen through its DRAM: only a store that succeeds may change it. */
  ghost predicate Lawful<G(!new), D>(m: Memory<G>, dram: G -> D) {
    && (forall g, v, a, n {:trigger m.fetch(g, v, a, n)} :: dram(m.fetch(g, v, a, n).mem) == dram(g))
    && (forall g, v, a, n {:trigger m.load(g, v, a, n)} :: dram(m.load(g, v, a, n).mem) == dram(g))
    && (forall g, v, a, n, d {:trigger m.store(g, v, a, n, d)} ::
          m.store(g, v, a, n, d).trap.ty != NoTrap ==> dram(m.store(g, v, a, n, d).mem) == dram(g))
    && (forall g, a, b {:trigger m.flush(g, a, b)} :: dram(m.flush(g, a, b)) == dram(g))
  }

  /** Lawful, for a memory system given by its four functions. */
  lemma LawfulFrom<G(!new), D>(f: (G, View, Word, nat) -> Loaded<G>, l: (G, View, Word, nat) -> Loaded<G>,
                               s: (G, View, Word, nat, Word) -> Stored<G>, x: (G, Word, Word) -> G, dram: G -> D)
    requires forall m, v, a, n :: dram(f(m, v, a, n).mem) == dram(m)
    requires forall m, v, a, n :: dram(l(m, v, a, n).mem) == dram(m)
    requires forall m, v, a, n, d :: s(m, v, a, n, d).trap.ty != NoTrap ==> dram(s(m, v, a, n, d).mem) == dram(m)
    requires forall m, a, b :: dram(x(m, a, b)) == dram(m)
    ensures Lawful(Memory(f, l, s, x), dram)
  {
  }

  lemma ComputeOk<G, D>(dram: G -> D, h: Hart<G>, info: DecodeInfo)
    ensures StepOk(dram, h, Compute(h, info))
  {
  }

  lemma JumpOk<G, D>(dram: G -> D, h: Hart<G>, info: DecodeInfo)
    ensures StepOk(dram, h, Branch(h, info)) && StepOk(dram, h, Jal(h, info)) && StepOk(dram, h, Jalr(h, info))
  {
  }

  lemma MemoryOk<G(!new), D>(m: Memory<G>, dram: G -> D, h: Hart<G>, info: DecodeInfo)
    requires Lawful(m, dram)
    ensures StepOk(dram, h, Load(m, h, info)) && StepOk(dram, h, Store(m, h, info))
  {
  }

  lemma LrOk<G(!new), D>(m: Memory<G>, dram: G -> D, h: Hart<G>, info: DecodeInfo)
    requires Lawful(m, dram) && AtomicWidth(info.memSize)
    ensures StepOk(dram, h, LoadReserved(m, h, info))
  {
  }

  lemma ScOk<G(!new), D>(m: Memory<G>, dram: G -> D, h: Hart<G>, info: DecodeInfo)
    requires Lawful(m, dram) && AtomicWidth(info.memSize)
    ensures StepOk(dram, h, StoreConditional(m, h, info))
  {
  }

  lemma AmoOk<G(!new), D>(m: Memory<G>, dram: G -> D, h: Hart<G>, info: DecodeInfo)
    requires Lawful(m, dram) && AtomicWidth(info.memSize)
    ensures StepOk(dram, h, Amo(m, h, info))
  {
  }

  lemma AtomicOk<G(!new), D>(m: Memory<G>, dram: G -> D, h: Hart<G>, info: DecodeInfo, s: Step<G>)
    requires Lawful(m, dram) && AtomicWidth(info.memSize) && s == Atomic(m, h, info)
    ensures StepOk(dram, h, s)
  {
    if info.token in {LR_W, LR_D} {
      assert s == LoadReserved(m, h, info);
      LrOk(m, dram, h, info);
    } else if info.token in {SC_W, SC_D} {
      assert s == StoreConditional(m, h, info);
      ScOk(m, dram, h, info);
    } else {
      assert s == Amo(m, h, info);
      AmoOk(m, dram, h, info);
    }
  }

  lemma LeaveOk(st: Bits)
    requires WordOk(MSTATUS, st)
    ensures WordOk(MSTATUS, LeaveM(st)) && WordOk(MSTATUS, LeaveS(st))
  {
  }

  lemma ReturnOk<G, D>(dram: G -> D, h: Hart<G>, word: Half)
    ensures StepOk(dram, h, MRet(h, word)) && StepOk(dram, h, SRet(h, word))
  {
    if CsrOk(h.csr) { LeaveOk(Status(h)); }
  }

  lemma CsrAccessedOk<G>(h: Hart<G>, info: DecodeInfo, addr: CsrAddr, time: Word)
    requires IsCsr(info.token)
    ensures CsrAccessed(h, info, addr, time).priv == h.priv
    ensures CsrOk(h.csr) ==> CsrOk(CsrAccessed(h, info, addr, time).csr)
  {
    if CsrOk(h.csr) {
      var f := if addr == TIME then Write(h.csr, TIME, ToBits(time)) else h.csr;
      WriteKeepsOk(h.csr, TIME, ToBits(time));
      WriteKeepsOk(f, addr, CsrValue(info.token, Read(f, addr), ToBits(h.xregs[info.rs1]), ToBits(info.rs1)));
    }
  }

  /** A step that reports no trap has only privilege and CSRs to answer for. */
  lemma QuietOk<G, D>(dram: G -> D, h: Hart<G>, r: Hart<G>)
    requires r.priv == h.priv && (CsrOk(h.csr) ==> CsrOk(r.csr))
    ensures StepOk(dram, h, Step(r, NONE))
  {
  }

  lemma IllegalOk<G, D>(dram: G -> D, h: Hart<G>, word: Half)
    ensures StepOk(dram, h, Illegal(h, word))
  {
  }

  lemma CsrInstructionOk<G, D>(dram: G -> D, h: Hart<G>, info: DecodeInfo, time: Word)
    requires IsCsr(info.token)
    ensures StepOk(dram, h, CsrInstruction(h, info, time))
  {
    var addr := Wrap32(info.imm);
    IllegalOk(dram, h, info.word);
    if addr in ALLOWED {
      CsrAccessedOk(h, info, addr, time);
      QuietOk(dram, h, CsrAccessed(h, info, addr, time));
    }
  }

  lemma SfenceOk<G(!new), D>(m: Memory<G>, dram: G -> D, h: Hart<G>, info: DecodeInfo)
    requires Lawful(m, dram)
    ensures StepOk(dram, h, SfenceVma(m, h, info))
  {
  }

  lemma ECallOk<G, D>(dram: G -> D, h: Hart<G>, info: DecodeInfo)
    ensures StepOk(dram, h, ECall(h, info))
  {
  }

  lemma SystemOk<G(!new), D>(m: Memory<G>, dram: G -> D, h: Hart<G>, info: DecodeInfo, time: Word, s: Step<G>)
    requires Lawful(m, dram) && s == System(m, h, info, time)
    ensures StepOk(dram, h, s)
  {
    if IsCsr(info.token) {
      assert s == CsrInstruction(h, info, time);
      CsrInstructionOk(dram, h, info, time);
    } else if info.token == MRET {
      assert s == MRet(h, info.word);
      ReturnOk(dram, h, info.word);
    } else if info.token == SRET {
      assert s == SRet(h, info.word);
      ReturnOk(dram, h, info.word);
    } else if info.token == SFENCE_VMA {
      assert s == SfenceVma(m, h, info);
      SfenceOk(m, dram, h, info);
    } else if info.token == ECALL {
      assert s == ECall(h, info);
      ECallOk(dram, h, info);
    } else if info.token == WFI {
      assert s.h.csr == h.csr && s.h.priv == h.priv && s.trap == NONE;
      QuietOk(dram, h, s.h);
    } else {
      assert s.h == h;
    }
  }

  lemma ExecuteOk<G(!new), D>(m: Memory<G>, dram: G -> D, h: Hart<G>, info: Insn, time: Word)
    requires Lawful(m, dram)
    ensures StepOk(dram, h, Execute(m, h, info, time))
  {
    match info.op
    case OpBranch => JumpOk(dram, h, info);
    case OpJal => JumpOk(dram, h, info);
    case OpJalr => JumpOk(dram, h, info);
    case OpStore => MemoryOk(m, dram, h, info);
    case OpLoad => MemoryOk(m, dram, h, info);
    case OpSystem => SystemOk(m, dram, h, info, time, System(m, h, info, time));
    case OpAmo => AtomicOk(m, dram, h, info, Atomic(m, h, info));
    case OpFence =>
    case _ => ComputeOk(dram, h, info);
  }

  /** Any decoder, any lawful memory system, and the executor on top of it. */
  function WorldOf<G>(decode: (Half, Word) -> Insn, m: Memory<G>): World<G> {
    World(decode, m.fetch, (h: Hart<G>, info: Insn, time: Word) => Execute(m, h, info, time))
  }

  lemma ExecutorLawful<G(!new), D>(decode: (Half, Word) -> Insn, m: Memory<G>, dram: G -> D)
    requires Lawful(m, dram)
    ensures WorldLawful(WorldOf(decode, m), dram)
  {
    forall h, info, time ensures StepOk(dram, h, WorldOf(decode, m).exec(h, info, time)) {
      ExecuteOk(m, dram, h, info, time);
    }
  }
}
