/**
 The TLB is invisible to programs.  The whole machine, ticking with the MMU of MmuUnit.dfy, is compared with the
 same machine on a memory system that walks the page tables on every access.  What software owes is read off the
 run itself: its satp values, its stores to page tables and its SFENCE.VMA instructions, as they happen.
 */
module Transparency {
  import opened Words
  import opened Isa
  import opened Csr
  import opened Traps
  import opened Hart
  import opened Exec
  import opened ExecLaws
  import opened Ticks
  import opened Ram
  import opened Tlb
  import opened Mmu
  import opened MmuUnit
  import opened Runs

  // ----- two memory systems -----

  /** The hart on another memory system. */
  function On<G, F>(h: Hart<G>, mem: F): Hart<F> {
    Hart(h.pc, h.instret, h.hartId, h.priv, h.xregs, h.csr, h.wfi, h.resv, mem)
  }

  /** The two harts differ in nothing but related memory systems. */
  ghost predicate Alike<G, F>(rel: (G, F) -> bool, h: Hart<G>, k: Hart<F>) { h == On(k, h.mem) && rel(h.mem, k.mem) }

  ghost predicate StepsAlike<G, F>(rel: (G, F) -> bool, s: Step<G>, t: Step<F>) { s.trap == t.trap && Alike(rel, s.h, t.h) }

  ghost predicate LoadsAlike<G, F>(rel: (G, F) -> bool, l: Loaded<G>, k: Loaded<F>) {
    l.trap == k.trap && l.value == k.value && rel(l.mem, k.mem)
  }

  ghost predicate StoresAlike<G, F>(rel: (G, F) -> bool, s: Stored<G>, t: Stored<F>) { s.trap == t.trap && rel(s.mem, t.mem) }

  /**
   `m` answers as `n` does, as long as `n` stays good; once it is not good it never is again.
   */
  ghost predicate Answers<G(!new), F(!new)>(m: Memory<G>, n: Memory<F>, rel: (G, F) -> bool, good: F -> bool) {
    && (forall f, v, a, b {:trigger n.fetch(f, v, a, b)} :: good(n.fetch(f, v, a, b).mem) ==> good(f))
    && (forall f, v, a, b {:trigger n.load(f, v, a, b)} :: good(n.load(f, v, a, b).mem) ==> good(f))
    && (forall f, v, a, b, d {:trigger n.store(f, v, a, b, d)} :: good(n.store(f, v, a, b, d).mem) ==> good(f))
    && (forall f, a, b {:trigger n.flush(f, a, b)} :: good(n.flush(f, a, b)) ==> good(f))
    && (forall g, f, v: View, a, b {:trigger m.fetch(g, v, a, b), n.fetch(f, v, a, b)} ::
          rel(g, f) && good(n.fetch(f, v, a, b).mem) ==> LoadsAlike(rel, m.fetch(g, v, a, b), n.fetch(f, v, a, b)))
    && (forall g, f, v: View, a, b {:trigger m.load(g, v, a, b), n.load(f, v, a, b)} ::
          rel(g, f) && good(n.load(f, v, a, b).mem) ==> LoadsAlike(rel, m.load(g, v, a, b), n.load(f, v, a, b)))
    && (forall g, f, v: View, a, b, d {:trigger m.store(g, v, a, b, d), n.store(f, v, a, b, d)} ::
          rel(g, f) && good(n.store(f, v, a, b, d).mem) ==> StoresAlike(rel, m.store(g, v, a, b, d), n.store(f, v, a, b, d)))
    && (forall g, f, a, b {:trigger m.flush(g, a, b), n.flush(f, a, b)} ::
          rel(g, f) && good(n.flush(f, a, b)) ==> rel(m.flush(g, a, b), n.flush(f, a, b)))
  }

  /** Answers, for memory systems given by their four functions. */
  lemma AnswersFrom<G(!new), F(!new)>(
      mf: (G, View, Word, nat) -> Loaded<G>, ml: (G, View, Word, nat) -> Loaded<G>, ms: (G, View, Word, nat, Word) -> Stored<G>, mx: (G, Word, Word) -> G,
      nf: (F, View, Word, nat) -> Loaded<F>, nl: (F, View, Word, nat) -> Loaded<F>, ns: (F, View, Word, nat, Word) -> Stored<F>, nx: (F, Word, Word) -> F,
      rel: (G, F) -> bool, good: F -> bool)
    requires forall f, v, a, b :: (good(nf(f, v, a, b).mem) ==> good(f)) && (good(nl(f, v, a, b).mem) ==> good(f))
    requires forall f, v, a, b, d :: good(ns(f, v, a, b, d).mem) ==> good(f)
    requires forall f, a, b :: good(nx(f, a, b)) ==> good(f)
    requires forall g, f, v: View, a, b :: rel(g, f) && good(nf(f, v, a, b).mem) ==> LoadsAlike(rel, mf(g, v, a, b), nf(f, v, a, b))
    requires forall g, f, v: View, a, b :: rel(g, f) && good(nl(f, v, a, b).mem) ==> LoadsAlike(rel, ml(g, v, a, b), nl(f, v, a, b))
    requires forall g, f, v: View, a, b, d ::
               rel(g, f) && good(ns(f, v, a, b, d).mem) ==> StoresAlike(rel, ms(g, v, a, b, d), ns(f, v, a, b, d))
    requires forall g, f, a, b :: rel(g, f) && good(nx(f, a, b)) ==> rel(mx(g, a, b), nx(f, a, b))
    ensures Answers(Memory(mf, ml, ms, mx), Memory(nf, nl, ns, nx), rel, good)
  {
  }

  /** What one instruction, or one tick, owes: from good to good backwards, and like results from like states. */
  ghost predicate Follows<G, F>(rel: (G, F) -> bool, good: F -> bool, h: Hart<G>, k: Hart<F>, s: Step<G>, t: Step<F>) {
    good(t.h.mem) ==> good(k.mem) && (Alike(rel, h, k) ==> StepsAlike(rel, s, t))
  }

  // ----- one instruction -----

  lemma ComputeFollows<G, F>(rel: (G, F) -> bool, good: F -> bool, h: Hart<G>, k: Hart<F>, info: DecodeInfo)
    ensures Follows(rel, good, h, k, Compute(h, info), Compute(k, info))
  {
  }

  lemma JumpsFollow<G, F>(rel: (G, F) -> bool, good: F -> bool, h: Hart<G>, k: Hart<F>, info: DecodeInfo)
    ensures Follows(rel, good, h, k, Branch(h, info), Branch(k, info))
    ensures Follows(rel, good, h, k, Jal(h, info), Jal(k, info)) && Follows(rel, good, h, k, Jalr(h, info), Jalr(k, info))
  {
  }

  lemma LoadFollows<G(!new), F(!new)>(m: Memory<G>, n: Memory<F>, rel: (G, F) -> bool, good: F -> bool, h: Hart<G>, k: Hart<F>, info: DecodeInfo)
    requires Answers(m, n, rel, good)
    ensures Follows(rel, good, h, k, Load(m, h, info), Load(n, k, info))
  {
  }

  lemma StoreFollows<G(!new), F(!new)>(m: Memory<G>, n: Memory<F>, rel: (G, F) -> bool, good: F -> bool, h: Hart<G>, k: Hart<F>, info: DecodeInfo)
    requires Answers(m, n, rel, good)
    ensures Follows(rel, good, h, k, Store(m, h, info), Store(n, k, info))
  {
  }

  lemma LrFollows<G(!new), F(!new)>(m: Memory<G>, n: Memory<F>, rel: (G, F) -> bool, good: F -> bool, h: Hart<G>, k: Hart<F>, info: DecodeInfo)
    requires Answers(m, n, rel, good) && AtomicWidth(info.memSize)
    ensures Follows(rel, good, h, k, LoadReserved(m, h, info), LoadReserved(n, k, info))
  {
  }

  lemma ScAtFollows<G(!new), F(!new)>(m: Memory<G>, n: Memory<F>, rel: (G, F) -> bool, good: F -> bool, h: Hart<G>, k: Hart<F>, info: DecodeInfo, addr: Word)
    requires Answers(m, n, rel, good)
    ensures Follows(rel, good, h, k, StoreConditionalAt(m, h, info, addr), StoreConditionalAt(n, k, info, addr))
  {
    if !Reserves(k, addr, info.memSize) {
      assert StoreConditionalAt(n, k, info, addr).h.mem == k.mem;
    }
  }

  lemma ScFollows<G(!new), F(!new)>(m: Memory<G>, n: Memory<F>, rel: (G, F) -> bool, good: F -> bool, h: Hart<G>, k: Hart<F>, info: DecodeInfo)
    requires Answers(m, n, rel, good) && AtomicWidth(info.memSize)
    ensures Follows(rel, good, h, k, StoreConditional(m, h, info), StoreConditional(n, k, info))
  {
    ScAtFollows(m, n, rel, good, h, k, info, k.xregs[info.rs1]);
  }

  /** The second half of an AMO, after its load returned `x`. */
  function AmoStored<G>(m: Memory<G>, h: Hart<G>, info: DecodeInfo, addr: Word, x: Word): Step<G>
    requires IsAmoRmw(info.token)
  {
    var s := m.store(h.mem, ViewOf(h), addr, info.memSize, AmoValue(info.token, h.xregs[info.rs2], x));
    if s.trap.ty != NoTrap then Step(h.(mem := s.mem), s.trap)
    else Put(h.(mem := s.mem), info.rd, if info.memSize == 8 then x else SignExtendFrom(x, TWO32))
  }

  lemma AmoAtIs<G>(m: Memory<G>, h: Hart<G>, info: DecodeInfo, addr: Word, l: Loaded<G>)
    requires l == m.load(h.mem, ViewOf(h), addr, info.memSize)
    ensures AmoAt(m, h, info, addr)
         == if l.trap.ty != NoTrap then Step(h.(mem := l.mem), l.trap)
            else if !IsAmoRmw(info.token) then Illegal(h.(mem := l.mem), info.word)
            else AmoStored(m, h.(mem := l.mem), info, addr, l.value)
  {
  }

  lemma AmoStoreFollows<G(!new), F(!new)>(m: Memory<G>, n: Memory<F>, rel: (G, F) -> bool, good: F -> bool, h: Hart<G>, k: Hart<F>, info: DecodeInfo,
                                          addr: Word, x: Word)
    requires Answers(m, n, rel, good) && IsAmoRmw(info.token)
    ensures Follows(rel, good, h, k, AmoStored(m, h, info, addr, x), AmoStored(n, k, info, addr, x))
  {
  }

  lemma AmoAtFollows<G(!new), F(!new)>(m: Memory<G>, n: Memory<F>, rel: (G, F) -> bool, good: F -> bool, h: Hart<G>, k: Hart<F>, info: DecodeInfo,
                                       addr: Word, s: Step<G>, t: Step<F>)
    requires Answers(m, n, rel, good) && s == AmoAt(m, h, info, addr) && t == AmoAt(n, k, info, addr)
    ensures Follows(rel, good, h, k, s, t)
  {
    var l, j := m.load(h.mem, ViewOf(h), addr, info.memSize), n.load(k.mem, ViewOf(k), addr, info.memSize);
    AmoAtIs(m, h, info, addr, l);
    AmoAtIs(n, k, info, addr, j);
    if IsAmoRmw(info.token) { AmoStoreFollows(m, n, rel, good, h.(mem := l.mem), k.(mem := j.mem), info, addr, j.value); }
  }

  lemma AmoFollows<G(!new), F(!new)>(m: Memory<G>, n: Memory<F>, rel: (G, F) -> bool, good: F -> bool, h: Hart<G>, k: Hart<F>, info: DecodeInfo)
    requires Answers(m, n, rel, good) && AtomicWidth(info.memSize)
    ensures Follows(rel, good, h, k, Amo(m, h, info), Amo(n, k, info))
  {
    var addr := k.xregs[info.rs1];
    AmoAtFollows(m, n, rel, good, h, k, info, addr, AmoAt(m, h, info, addr), AmoAt(n, k, info, addr));
  }

  lemma AtomicFollows<G(!new), F(!new)>(m: Memory<G>, n: Memory<F>, rel: (G, F) -> bool, good: F -> bool, h: Hart<G>, k: Hart<F>, info: DecodeInfo,
                                        s: Step<G>, t: Step<F>)
    requires Answers(m, n, rel, good) && AtomicWidth(info.memSize)
    requires s == Atomic(m, h, info) && t == Atomic(n, k, info)
    ensures Follows(rel, good, h, k, s, t)
  {
    if info.token in {LR_W, LR_D} {
      assert s == LoadReserved(m, h, info) && t == LoadReserved(n, k, info);
      LrFollows(m, n, rel, good, h, k, info);
    } else if info.token in {SC_W, SC_D} {
      assert s == StoreConditional(m, h, info) && t == StoreConditional(n, k, info);
      ScFollows(m, n, rel, good, h, k, info);
    } else {
      assert s == Amo(m, h, info) && t == Amo(n, k, info);
      AmoFollows(m, n, rel, good, h, k, info);
    }
  }

  lemma CsrFollows<G, F>(rel: (G, F) -> bool, good: F -> bool, h: Hart<G>, k: Hart<F>, info: DecodeInfo, time: Word)
    requires IsCsr(info.token)
    ensures Follows(rel, good, h, k, CsrInstruction(h, info, time), CsrInstruction(k, info, time))
  {
  }

  lemma ReturnsFollow<G, F>(rel: (G, F) -> bool, good: F -> bool, h: Hart<G>, k: Hart<F>, word: Half)
    ensures Follows(rel, good, h, k, MRet(h, word), MRet(k, word)) && Follows(rel, good, h, k, SRet(h, word), SRet(k, word))
  {
  }

  lemma SfenceFollows<G(!new), F(!new)>(m: Memory<G>, n: Memory<F>, rel: (G, F) -> bool, good: F -> bool, h: Hart<G>, k: Hart<F>, info: DecodeInfo)
    requires Answers(m, n, rel, good)
    ensures Follows(rel, good, h, k, SfenceVma(m, h, info), SfenceVma(n, k, info))
  {
  }

  lemma SystemFollows<G(!new), F(!new)>(m: Memory<G>, n: Memory<F>, rel: (G, F) -> bool, good: F -> bool, h: Hart<G>, k: Hart<F>, info: DecodeInfo,
                                        time: Word, s: Step<G>, t: Step<F>)
    requires Answers(m, n, rel, good) && s == System(m, h, info, time) && t == System(n, k, info, time)
    ensures Follows(rel, good, h, k, s, t)
  {
    if IsCsr(info.token) {
      assert s == CsrInstruction(h, info, time) && t == CsrInstruction(k, info, time);
      CsrFollows(rel, good, h, k, info, time);
    } else if info.token == SFENCE_VMA {
      assert s == SfenceVma(m, h, info) && t == SfenceVma(n, k, info);
      SfenceFollows(m, n, rel, good, h, k, info);
    } else if info.token in {MRET, SRET} {
      ReturnsFollow(rel, good, h, k, info.word);
    } else {
      PlainSystemFollows(m, n, rel, good, h, k, info, time, s, t);
    }
  }

  lemma PlainSystemFollows<G, F>(m: Memory<G>, n: Memory<F>, rel: (G, F) -> bool, good: F -> bool, h: Hart<G>, k: Hart<F>, info: DecodeInfo,
                                 time: Word, s: Step<G>, t: Step<F>)
    requires !IsCsr(info.token) && info.token !in {SFENCE_VMA, MRET, SRET}
    requires s == System(m, h, info, time) && t == System(n, k, info, time)
    ensures Follows(rel, good, h, k, s, t)
  {
  }

  lemma ExecuteFollows<G(!new), F(!new)>(m: Memory<G>, n: Memory<F>, rel: (G, F) -> bool, good: F -> bool, h: Hart<G>, k: Hart<F>, info: Insn,
                                         time: Word)
    requires Answers(m, n, rel, good)
    ensures Follows(rel, good, h, k, Execute(m, h, info, time), Execute(n, k, info, time))
  {
    match info.op
    case OpBranch => JumpsFollow(rel, good, h, k, info);
    case OpJal => JumpsFollow(rel, good, h, k, info);
    case OpJalr => JumpsFollow(rel, good, h, k, info);
    case OpStore => StoreFollows(m, n, rel, good, h, k, info);
    case OpLoad => LoadFollows(m, n, rel, good, h, k, info);
    case OpSystem => SystemFollows(m, n, rel, good, h, k, info, time, System(m, h, info, time), System(n, k, info, time));
    case OpAmo => AtomicFollows(m, n, rel, good, h, k, info, Atomic(m, h, info), Atomic(n, k, info));
    case OpFence =>
    case _ => ComputeFollows(rel, good, h, k, info);
  }

  // ----- one tick -----

  ghost predicate WorldsAnswer<G(!new), F(!new)>(w: World<G>, u: World<F>, rel: (G, F) -> bool, good: F -> bool) {
    && w.decode == u.decode
    && (forall f, v, a, b {:trigger u.fetch(f, v, a, b)} :: good(u.fetch(f, v, a, b).mem) ==> good(f))
    && (forall g, f, v: View, a, b {:trigger w.fetch(g, v, a, b), u.fetch(f, v, a, b)} ::
          rel(g, f) && good(u.fetch(f, v, a, b).mem) ==> LoadsAlike(rel, w.fetch(g, v, a, b), u.fetch(f, v, a, b)))
    && (forall h, k, info, time {:trigger w.exec(h, info, time), u.exec(k, info, time)} ::
          Follows(rel, good, h, k, w.exec(h, info, time), u.exec(k, info, time)))
  }

  lemma ExecutorsAnswer<G(!new), F(!new)>(decode: (Half, Word) -> Insn, m: Memory<G>, n: Memory<F>, rel: (G, F) -> bool, good: F -> bool)
    requires Answers(m, n, rel, good)
    ensures WorldsAnswer(WorldOf(decode, m), WorldOf(decode, n), rel, good)
  {
    forall h: Hart<G>, k: Hart<F>, info: Insn, time: Word
      ensures Follows(rel, good, h, k, WorldOf(decode, m).exec(h, info, time), WorldOf(decode, n).exec(k, info, time))
    {
      ExecuteFollows(m, n, rel, good, h, k, info, time);
    }
  }

  lemma ExecFollows<G(!new), F(!new)>(w: World<G>, u: World<F>, rel: (G, F) -> bool, good: F -> bool, h: Hart<G>, k: Hart<F>, info: Insn, time: Word)
    requires WorldsAnswer(w, u, rel, good)
    ensures Follows(rel, good, h, k, w.exec(h, info, time), u.exec(k, info, time))
  {
  }

  lemma ClearedFollows<G, F>(rel: (G, F) -> bool, good: F -> bool, h: Hart<G>, k: Hart<F>, pc: Word, s: Step<G>, t: Step<F>)
    requires Follows(rel, good, h.(pc := pc), k.(pc := pc), s, t)
    ensures Follows(rel, good, h, k, Cleared0(s), Cleared0(t))
  {
  }

  lemma DispatchFollows<G(!new), F(!new)>(w: World<G>, u: World<F>, rel: (G, F) -> bool, good: F -> bool, h: Hart<G>, k: Hart<F>, word: Half, time: Word)
    requires WorldsAnswer(w, u, rel, good) && h.pc == k.pc
    ensures Follows(rel, good, h, k, Dispatch(w, h, word, time), Dispatch(u, k, word, time))
  {
    var info := u.decode(word, k.pc);
    var pc := Wrap64(k.pc + info.size);
    var s, t := w.exec(h.(pc := pc), info, time), u.exec(k.(pc := pc), info, time);
    DispatchIs(w, h, word, time, h.(pc := pc), s);
    DispatchIs(u, k, word, time, k.(pc := pc), t);
    ExecFollows(w, u, rel, good, h.(pc := pc), k.(pc := pc), info, time);
    ClearedFollows(rel, good, h, k, pc, s, t);
  }

  lemma OperateFollows<G(!new), F(!new)>(w: World<G>, u: World<F>, rel: (G, F) -> bool, good: F -> bool, h: Hart<G>, k: Hart<F>, time: Word)
    requires WorldsAnswer(w, u, rel, good)
    ensures Follows(rel, good, h, k, Operate(w, h, time), Operate(u, k, time))
  {
    if !k.wfi {
      var l, j := w.fetch(h.mem, ViewOf(h), h.pc, 4), u.fetch(k.mem, ViewOf(k), k.pc, 4);
      DispatchFollows(w, u, rel, good, h.(mem := l.mem, pc := k.pc), k.(mem := j.mem), Wrap32(j.value), time);
    }
  }

  lemma SampleOn<G, F>(h: Hart<G>, g: F, x: Input)
    ensures Sample(On(h, g), x) == On(Sample(h, x), g) && Sample(h, x).mem == h.mem
  {
  }

  lemma HandleTrapOn<G, F>(h: Hart<G>, g: F, t: Trap, epc: Word)
    ensures HandleTrap(On(h, g), t, epc) == On(HandleTrap(h, t, epc), g)
  {
  }

  lemma HandleInterruptOn<G, F>(h: Hart<G>, g: F, at: Word)
    ensures HandleInterrupt(On(h, g), at) == On(HandleInterrupt(h, at), g)
  {
    HandleTrapOn(h, g, Trap(ChosenInterrupt(h), h.pc), at);
    assert ChosenInterrupt(On(h, g)) == ChosenInterrupt(h);
  }

  lemma RetireOn<G, F>(h: Hart<G>, g: F)
    ensures Retire(On(h, g)) == On(Retire(h), g)
  {
  }

  /** The second half of a tick does the same whatever the memory system. */
  lemma SettleOn<G, F>(h: Hart<G>, g: F, t: Trap, epc: Word, h2: Hart<G>, r: Hart<G>)
    requires h2 == HandleTrap(h, t, epc) && r == Retire(HandleInterrupt(h2, h2.pc))
    ensures var k2 := HandleTrap(On(h, g), t, epc); Retire(HandleInterrupt(k2, k2.pc)) == On(r, g)
  {
    HandleTrapOn(h, g, t, epc);
    HandleInterruptOn(h2, g, h2.pc);
    RetireOn(HandleInterrupt(h2, h2.pc), g);
  }

  lemma TickFollows<G(!new), F(!new)>(w: World<G>, u: World<F>, rel: (G, F) -> bool, good: F -> bool, h: Hart<G>, k: Hart<F>, x: Input,
                                      r: Hart<G>, q: Hart<F>)
    requires WorldsAnswer(w, u, rel, good) && r == Tick(w, h, x) && q == Tick(u, k, x)
    ensures good(q.mem) ==> good(k.mem) && (Alike(rel, h, k) ==> Alike(rel, r, q))
  {
    var h0, k0 := Sample(h, x), Sample(k, x);
    SampleOn(k, h.mem, x);
    SampleOn(h, h.mem, x);
    SampleOn(k, k.mem, x);
    var s, t := Operate(w, h0, x.time), Operate(u, k0, x.time);
    OperateFollows(w, u, rel, good, h0, k0, x.time);
    var k2 := HandleTrap(t.h, t.trap, k0.pc);
    TickIs(u, k, x, k0, t, k2);
    TickIs(w, h, x, h0, s, HandleTrap(s.h, s.trap, h0.pc));
    TrapsKeep(t.h, t.trap, k0.pc, k2);
    SettleOn(t.h, s.h.mem, t.trap, k0.pc, k2, q);
    TrapsKeep(s.h, s.trap, h0.pc, HandleTrap(s.h, s.trap, h0.pc));
  }

  // ----- runs -----

  lemma {:induction false} RunStays<G(!new), F(!new)>(w: World<G>, u: World<F>, rel: (G, F) -> bool, good: F -> bool, h: Hart<G>, k: Hart<F>, xs: seq<Input>)
    requires WorldsAnswer(w, u, rel, good) && good(Fold(TickOf(u), k, xs).mem)
    ensures good(k.mem)
    decreases |xs|
  {
    if xs != [] {
      RunStays(w, u, rel, good, h, Tick(u, k, xs[0]), xs[1..]);
      TickFollows(w, u, rel, good, h, k, xs[0], Tick(w, h, xs[0]), Tick(u, k, xs[0]));
    }
  }

  lemma {:induction false} RunFollows<G(!new), F(!new)>(w: World<G>, u: World<F>, rel: (G, F) -> bool, good: F -> bool,
                                                        h: Hart<G>, k: Hart<F>, xs: seq<Input>)
    requires WorldsAnswer(w, u, rel, good) && Alike(rel, h, k) && good(Fold(TickOf(u), k, xs).mem)
    ensures Alike(rel, Fold(TickOf(w), h, xs), Fold(TickOf(u), k, xs))
    decreases |xs|
  {
    if xs != [] {
      var r, q := Tick(w, h, xs[0]), Tick(u, k, xs[0]);
      RunStays(w, u, rel, good, r, q, xs[1..]);
      TickFollows(w, u, rel, good, h, k, xs[0], r, q);
      RunFollows(w, u, rel, good, r, q, xs[1..]);
    }
  }

  // ----- a memory system that walks on every access -----

  function WalkFetch(ram: Ram, v: View, addr: Word, n: nat): Loaded<Ram> {
    var r := WalkedReply(Fetching, ram, v, addr, n);
    Loaded(r.trap, r.value, r.ram)
  }

  function WalkLoad(ram: Ram, v: View, addr: Word, n: nat): Loaded<Ram> {
    var r := WalkedReply(Loading, ram, v, addr, n);
    Loaded(r.trap, r.value, r.ram)
  }

  function WalkStore(ram: Ram, v: View, addr: Word, n: nat, data: Word): Stored<Ram> {
    var r := WalkedReply(Storing(data), ram, v, addr, n);
    Stored(r.trap, r.ram)
  }

  function WalkFlush(ram: Ram, v: Word, asid: Word): Ram { ram }

  function WalkMemory(): Memory<Ram> { Memory(WalkFetch, WalkLoad, WalkStore, WalkFlush) }

  // ----- the same, keeping account of what software owes -----

  /** `used` are the translations made and not flushed since; `ok` says that every access so far kept the discipline. */
  datatype Watch = Watch(ram: Ram, used: set<Used>, ok: bool)

  ghost function Watched(q: Watch, e: Event): Watch {
    Watch(WalkedStep(q.ram, e), NextUsed(q.ram, q.used, e), q.ok && Kept(q.ram, q.used, e))
  }

  ghost function WatchFetch(q: Watch, v: View, addr: Word, n: nat): Loaded<Watch> {
    var r := WalkedReply(Fetching, q.ram, v, addr, n);
    Loaded(r.trap, r.value, Watched(q, DoAccess(Fetching, v, addr, n)))
  }

  ghost function WatchLoad(q: Watch, v: View, addr: Word, n: nat): Loaded<Watch> {
    var r := WalkedReply(Loading, q.ram, v, addr, n);
    Loaded(r.trap, r.value, Watched(q, DoAccess(Loading, v, addr, n)))
  }

  ghost function WatchStore(q: Watch, v: View, addr: Word, n: nat, data: Word): Stored<Watch> {
    Stored(WalkedReply(Storing(data), q.ram, v, addr, n).trap, Watched(q, DoAccess(Storing(data), v, addr, n)))
  }

  ghost function WatchFlush(q: Watch, v: Word, asid: Word): Watch { Watched(q, DoFlush(v, asid)) }

  ghost function WatchMemory(): Memory<Watch> { Memory(WatchFetch, WatchLoad, WatchStore, WatchFlush) }

  ghost predicate Accounts(m: MmuState, q: Watch) { Inv(m, q.ram, q.used) }

  ghost predicate SameRam(ram: Ram, q: Watch) { ram == q.ram }

  predicate Ok(q: Watch) { q.ok }

  /** One access: the TLB answers as the walk does if the discipline is kept. */
  lemma AccessAnswers(m: MmuState, q: Watch, k: Access, v: View, addr: Word, n: nat)
    requires Accounts(m, q) && Watched(q, DoAccess(k, v, addr, n)).ok
    ensures CachedReply(k, m, v, addr, n) == WalkedReply(k, q.ram, v, addr, n)
    ensures Accounts(CachedAfter(k, m, v, addr, n), Watched(q, DoAccess(k, v, addr, n)))
  {
    AccessExact(m, q.ram, q.used, k, v, addr, n);
    AccessKeepsInv(m, q.ram, q.used, k, v, addr, n);
  }

  lemma TlbAnswers()
    ensures Answers(MmuMemory(), WatchMemory(), Accounts, Ok)
  {
    forall m: MmuState, q: Watch, k: Access, v: View, addr: Word, n: nat | Accounts(m, q) && Watched(q, DoAccess(k, v, addr, n)).ok
      ensures CachedReply(k, m, v, addr, n) == WalkedReply(k, q.ram, v, addr, n)
      ensures Accounts(CachedAfter(k, m, v, addr, n), Watched(q, DoAccess(k, v, addr, n)))
    {
      AccessAnswers(m, q, k, v, addr, n);
    }
    forall m: MmuState, q: Watch, v: Word, asid: Word | Accounts(m, q)
      ensures Accounts(FlushVia(m, v, asid), WatchFlush(q, v, asid))
    {
      FlushAccounted(m.cache.entries, q.used, v, asid);
    }
    AnswersFrom(FetchFrom, LoadVia, StoreVia, FlushVia, WatchFetch, WatchLoad, WatchStore, WatchFlush, Accounts, Ok);
  }

  lemma WalkAnswers()
    ensures Answers(WalkMemory(), WatchMemory(), SameRam, Ok)
  {
    AnswersFrom(WalkFetch, WalkLoad, WalkStore, WalkFlush, WatchFetch, WatchLoad, WatchStore, WatchFlush, SameRam, Ok);
  }

  // ----- the theorem -----

  /** The machine without a TLB that keeps account, with no translation made yet. */
  ghost function WatchedHart(h: Hart<MmuState>): Hart<Watch> { On(h, Watch(h.mem.ram, {}, true)) }

  /**
   The software of this run keeps the discipline, judged on the machine without a TLB: at every fetch, load and store
   that goes through the page tables, no earlier translation that could answer for it, and that no SFENCE.VMA has
   flushed since, disagrees with the tables.
   */
  ghost predicate KeepsDiscipline(decode: (Half, Word) -> Insn, h: Hart<MmuState>, xs: seq<Input>) {
    Fold(TickOf(WorldOf(decode, WatchMemory())), WatchedHart(h), xs).mem.ok
  }

  /**
   Whatever program runs, whatever interrupts and clock values arrive: if its software keeps the discipline, the
   machine with the TLB, starting with no valid entry in it, reaches the same pc, privilege, registers, CSRs,
   reservation, instret and DRAM as the machine that walks the page tables on every access.
   */
  lemma {:induction false} MachineTransparent(decode: (Half, Word) -> Insn, h: Hart<MmuState>, xs: seq<Input>)
    requires Blank(h.mem) && KeepsDiscipline(decode, h, xs)
    ensures var r := Fold(TickOf(WorldOf(decode, MmuMemory())), h, xs);
            var p := Fold(TickOf(WorldOf(decode, WalkMemory())), On(h, h.mem.ram), xs);
            r == On(p, r.mem) && r.mem.ram == p.mem
  {
    var k := WatchedHart(h);
    TlbAnswers();
    ExecutorsAnswer(decode, MmuMemory(), WatchMemory(), Accounts, Ok);
    RunFollows(WorldOf(decode, MmuMemory()), WorldOf(decode, WatchMemory()), Accounts, Ok, h, k, xs);
    WalkAnswers();
    ExecutorsAnswer(decode, WalkMemory(), WatchMemory(), SameRam, Ok);
    RunFollows(WorldOf(decode, WalkMemory()), WorldOf(decode, WatchMemory()), SameRam, Ok, On(h, h.mem.ram), k, xs);
  }

  /** The discipline is kept tick by tick, so the theorem speaks of every state along the run. */
  lemma DisciplinePrefix(decode: (Half, Word) -> Insn, h: Hart<MmuState>, xs: seq<Input>, n: nat)
    requires n <= |xs| && KeepsDiscipline(decode, h, xs)
    ensures KeepsDiscipline(decode, h, xs[..n])
  {
    var w, k := WorldOf(decode, WatchMemory()), WatchedHart(h);
    assert xs[..n] + xs[n..] == xs;
    FoldAppend(TickOf(w), k, xs[..n], xs[n..]);
    WalkAnswers();
    ExecutorsAnswer(decode, WalkMemory(), WatchMemory(), SameRam, Ok);
    RunStays(WorldOf(decode, WalkMemory()), w, SameRam, Ok, On(h, h.mem.ram), Fold(TickOf(w), k, xs[..n]), xs[n..]);
  }

  // ----- paying the debt -----

  /** The hart may execute SFENCE.VMA. */
  predicate MayFence<G>(h: Hart<G>) { Level(h.priv) >= 1 && !(h.priv == Supervisor && Status(h)[TVM_BIT]) }

  lemma FenceExecutes<G>(m: Memory<G>, h: Hart<G>, info: Insn, time: Word)
    requires MayFence(h) && info.op == OpSystem && info.token == SFENCE_VMA
    ensures Execute(m, h, info, time) == Step(h.(mem := m.flush(h.mem, h.xregs[info.rs1], h.xregs[info.rs2] % 0x1_0000)), NONE)
  {
    assert Execute(m, h, info, time) == System(m, h, info, time) == SfenceVma(m, h, info);
  }

  /** The hart on which a tick that fetches instruction `info` executes it. */
  function Executing<G>(h: Hart<G>, x: Input, mem: G, info: Insn): Hart<G> {
    Sample(h, x).(mem := mem, pc := Wrap64(h.pc + info.size))
  }

  lemma ExecutingKeeps<G>(h: Hart<G>, x: Input, mem: G, info: Insn)
    ensures var r := Executing(h, x, mem, info);
            r.xregs == h.xregs && r.mem == mem && r.priv == h.priv && Status(r) == Status(h) && ViewOf(Sample(h, x)) == ViewOf(h)
  {
    SampleKeeps(h, x);
  }

  lemma TickExecutes<G>(w: World<G>, h: Hart<G>, x: Input, l: Loaded<G>, info: Insn, e: Step<G>)
    requires !h.wfi && l == w.fetch(h.mem, ViewOf(h), h.pc, 4) && l.trap.ty == NoTrap
    requires info == w.decode(Wrap32(l.value), h.pc) && info.token != UNKNOWN && e == w.exec(Executing(h, x, l.mem, info), info, x.time)
    ensures Tick(w, h, x).mem == e.h.mem
  {
    var h0 := Sample(h, x);
    SampleKeeps(h, x);
    DispatchIs(w, h0.(mem := l.mem), Wrap32(l.value), x.time, Executing(h, x, l.mem, info), e);
    var s := Operate(w, h0, x.time);
    assert s == Cleared0(e);
    var h2 := HandleTrap(s.h, s.trap, h0.pc);
    TickIs(w, h, x, h0, s, h2);
    TrapsKeep(s.h, s.trap, h0.pc, h2);
  }

  lemma TickFences<G>(decode: (Half, Word) -> Insn, m: Memory<G>, h: Hart<G>, x: Input, l: Loaded<G>, info: Insn)
    requires !h.wfi && MayFence(h) && l == m.fetch(h.mem, ViewOf(h), h.pc, 4) && l.trap.ty == NoTrap
    requires info == decode(Wrap32(l.value), h.pc) && info.op == OpSystem && info.token == SFENCE_VMA
    ensures Tick(WorldOf(decode, m), h, x).mem == m.flush(l.mem, h.xregs[info.rs1], h.xregs[info.rs2] % 0x1_0000)
  {
    var r := Executing(h, x, l.mem, info);
    ExecutingKeeps(h, x, l.mem, info);
    FenceExecutes(m, r, info, x.time);
    TickExecutes(WorldOf(decode, m), h, x, l, info, Execute(m, r, info, x.time));
  }

  /**
   Whatever tables and roots have changed, an SFENCE.VMA executed with paging on removes from the account exactly
   what it flushes, and is itself no breach if its own fetch is none; SFENCE.VMA x0, x0 removes everything.
   */
  lemma FencePays(decode: (Half, Word) -> Insn, k: Hart<Watch>, x: Input, j: Loaded<Watch>, info: Insn, v: Word, asid: nat)
    requires !k.wfi && MayFence(k) && j == WatchFetch(k.mem, ViewOf(k), k.pc, 4) && j.trap.ty == NoTrap
    requires info == decode(Wrap32(j.value), k.pc) && info.op == OpSystem && info.token == SFENCE_VMA
    requires v == k.xregs[info.rs1] && asid == k.xregs[info.rs2] % 0x1_0000
    ensures var q := Tick(WorldOf(decode, WatchMemory()), k, x).mem;
            q == Watch(j.mem.ram, Unflushed(j.mem.used, v, asid), j.mem.ok) && (v == 0 && asid == 0 ==> q.used == {})
  {
    TickFences(decode, WatchMemory(), k, x, j, info);
  }

  // ----- the coarser discipline -----

  /** The account of Spaces instead of single translations. */
  datatype Tally = Tally(ram: Ram, d: Spaces, ok: bool)

  ghost function Tallied(q: Tally, e: Event): Tally {
    Tally(WalkedStep(q.ram, e), Next(q.ram, q.d, e), q.ok && Allowed(q.ram, q.d, e))
  }

  ghost function TallyFetch(q: Tally, v: View, addr: Word, n: nat): Loaded<Tally> {
    var r := WalkedReply(Fetching, q.ram, v, addr, n);
    Loaded(r.trap, r.value, Tallied(q, DoAccess(Fetching, v, addr, n)))
  }

  ghost function TallyLoad(q: Tally, v: View, addr: Word, n: nat): Loaded<Tally> {
    var r := WalkedReply(Loading, q.ram, v, addr, n);
    Loaded(r.trap, r.value, Tallied(q, DoAccess(Loading, v, addr, n)))
  }

  ghost function TallyStore(q: Tally, v: View, addr: Word, n: nat, data: Word): Stored<Tally> {
    Stored(WalkedReply(Storing(data), q.ram, v, addr, n).trap, Tallied(q, DoAccess(Storing(data), v, addr, n)))
  }

  ghost function TallyFlush(q: Tally, v: Word, asid: Word): Tally { Tallied(q, DoFlush(v, asid)) }

  ghost function TallyMemory(): Memory<Tally> { Memory(TallyFetch, TallyLoad, TallyStore, TallyFlush) }

  ghost predicate Covered(q: Watch, p: Tally) { q.ok && q.ram == p.ram && Vouches(p.ram, p.d, q.used) }

  predicate TallyOk(p: Tally) { p.ok }

  lemma EventCovered(q: Watch, p: Tally, e: Event)
    requires Covered(q, p) && Tallied(p, e).ok
    ensures Covered(Watched(q, e), Tallied(p, e))
  {
    AllowedKept(p.ram, p.d, q.used, e);
  }

  lemma TallyAnswers()
    ensures Answers(WatchMemory(), TallyMemory(), Covered, TallyOk)
  {
    forall q: Watch, p: Tally, e: Event | Covered(q, p) && Tallied(p, e).ok ensures Covered(Watched(q, e), Tallied(p, e)) {
      EventCovered(q, p, e);
    }
    AnswersFrom(WatchFetch, WatchLoad, WatchStore, WatchFlush, TallyFetch, TallyLoad, TallyStore, TallyFlush, Covered, TallyOk);
  }

  /** The run translates only through tables and roots unchanged since the last SFENCE.VMA x0, x0. */
  ghost predicate FlushesEverything(decode: (Half, Word) -> Insn, h: Hart<MmuState>, xs: seq<Input>) {
    Fold(TickOf(WorldOf(decode, TallyMemory())), On(h, Tally(h.mem.ram, Spaces(map[], false), true)), xs).mem.ok
  }

  /** Such runs keep the discipline. */
  lemma {:induction false} FlushingSuffices(decode: (Half, Word) -> Insn, h: Hart<MmuState>, xs: seq<Input>)
    requires FlushesEverything(decode, h, xs)
    ensures KeepsDiscipline(decode, h, xs)
  {
    TallyAnswers();
    ExecutorsAnswer(decode, WatchMemory(), TallyMemory(), Covered, TallyOk);
    RunFollows(WorldOf(decode, WatchMemory()), WorldOf(decode, TallyMemory()), Covered, TallyOk,
               WatchedHart(h), On(h, Tally(h.mem.ram, Spaces(map[], false), true)), xs);
  }
}
