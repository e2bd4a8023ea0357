/** One clock tick (src/cpu/cpu.cc) by its effect. */
module TickEffects {
  import opened Words
  import opened BitWords
  import opened Csr
  import opened Traps
  import opened Hart
  import opened TrapEffects
  import opened Isa
  import opened Exec
  import opened Ticks

  /** The lines sampled: MEIP 11, SEIP 9, MSIP 3 and MTIP 7 of mip (0x344); SSIP 1 and STIP 5 stay. */
  lemma SampleEffect<G>(h: Hart<G>, x: Input, r: Hart<G>)
    requires r == Sample(h, x)
    ensures r == if x.update then h.(csr := h.csr[0x344 := r.csr[0x344]]) else h
    ensures x.update ==>
              var mip := r.csr[0x344];
              && mip[11] == x.lines.meip && mip[9] == x.lines.seip && mip[3] == x.lines.msip && mip[7] == x.lines.mtip
              && mip[1] == h.csr[0x344][1] && mip[5] == h.csr[0x344][5]
              && forall i: nat :: i < 64 && (i >= 12 || i % 2 == 0) ==> !mip[i]
  {
    forall i: nat | i < 64 ensures i in M_INTERRUPTS <==> i < 12 && i % 2 == 1 { OddBelowTwelve(i); }
  }

  /** instret and minstret (0xb02) after a tick. */
  lemma RetireEffect<G>(h: Hart<G>, r: Hart<G>)
    requires r == Retire(h)
    ensures r.instret == (h.instret + 1) % TWO64 && FromBits(r.csr[0xb02]) == r.instret
    ensures r == h.(instret := r.instret, csr := h.csr[0xb02 := r.csr[0xb02]])
  {
    RoundTrip(r.instret);
  }

  /** Asleep: nothing is fetched, and the hart wakes exactly when some bit is set in both mip and mie. */
  lemma AsleepEffect<G>(w: World<G>, h: Hart<G>, time: Word, s: Step<G>)
    requires h.wfi && s == Operate(w, h, time)
    ensures s == Step(h.(wfi := s.h.wfi), NONE) && (s.h.wfi <==> forall i: nat :: i < 64 ==> !(h.csr[0x344][i] && h.csr[0x304][i]))
  {
    var bits := PendingEnabled(h);
    assert forall i: nat :: i < 64 ==> bits[i] == (h.csr[0x344][i] && h.csr[0x304][i]);
    if bits != NoBits() {
      var i: nat :| i < 64 && bits[i] != NoBits()[i];
      assert h.csr[0x344][i] && h.csr[0x304][i];
    }
  }

  /**
   Awake: four bytes are fetched at pc under the hart's privilege, satp (0x180) and mstatus (0x300); a fetch trap is
   reported as it is; an unknown word is an illegal instruction; otherwise the instruction is executed with the pc moved
   past it, and x0 cleared.
   */
  lemma AwakeEffect<G>(w: World<G>, h: Hart<G>, time: Word, l: Loaded<G>, info: Insn)
    requires !h.wfi && l == w.fetch(h.mem, View(h.priv, h.csr[0x180], h.csr[0x300]), h.pc, 4) && info == w.decode(l.value % TWO32, h.pc)
    ensures var h1 := h.(mem := l.mem, pc := (h.pc + info.size) % TWO64);
            var e := w.exec(h1, info, time);
            Operate(w, h, time)
            == if l.trap.ty != NoTrap then Step(h.(mem := l.mem), l.trap)
               else if info.token == UNKNOWN then Step(h1, Trap(IllegalInstruction, l.value % TWO32))
               else Step(e.h.(xregs := e.h.xregs[0 := 0]), e.trap)
  {
  }

  /** The parts of a tick in order: sample, operate, trap with the pc of before, interrupt with the pc of then, retire. */
  lemma TickOrder<G>(w: World<G>, h: Hart<G>, x: Input, s: Step<G>, h2: Hart<G>)
    requires s == Operate(w, Sample(h, x), x.time)
    requires h2 == if s.trap.ty == NoTrap then s.h else HandleTrap(s.h, s.trap, h.pc)
    ensures Tick(w, h, x) == Retire(HandleInterrupt(h2, h2.pc))
  {
    SampleKeeps(h, x);
  }

  /** No interrupt is due in `h`. */
  ghost predicate Quiet<G>(h: Hart<G>) { forall k: nat :: FirstRaised(h, k) ==> !LetThrough(h, ORDER[k]) }

  /** instret and minstret (0xb02) count one up; mip (0x344) aside, nothing else changes. */
  ghost predicate OnlyRetired<G>(h: Hart<G>, r: Hart<G>) {
    && r == h.(instret := (h.instret + 1) % TWO64, csr := r.csr) && FromBits(r.csr[0xb02]) == r.instret
    && forall a: CsrAddr :: a != 0x344 && a != 0xb02 ==> r.csr[a] == h.csr[a]
  }

  lemma RetiredFrom<G>(h: Hart<G>, q: Hart<G>, r: Hart<G>)
    requires q == h.(csr := h.csr[0x344 := q.csr[0x344]])
    requires r == q.(instret := r.instret, csr := q.csr[0xb02 := r.csr[0xb02]])
    requires r.instret == (q.instret + 1) % TWO64 && FromBits(r.csr[0xb02]) == r.instret
    ensures OnlyRetired(h, r)
  {
  }

  lemma QuietEnd<G>(h: Hart<G>, q: Hart<G>, r: Hart<G>)
    requires Quiet(h) && q == HandleInterrupt(h, h.pc) && r == Retire(q)
    ensures OnlyRetired(h, r)
  {
    RetireEffect(q, r);
    assert q == h.(csr := h.csr[0x344 := q.csr[0x344]]) by { NoInterruptEffect(h, h.pc, q); }
    RetiredFrom(h, q, r);
  }

  /** A tick whose instruction does not trap, and after which no interrupt is due, moves on by exactly that instruction. */
  lemma PlainTick<G>(w: World<G>, h: Hart<G>, x: Input, s: Step<G>, r: Hart<G>)
    requires s == Operate(w, Sample(h, x), x.time) && s.trap.ty == NoTrap && Quiet(s.h) && r == Tick(w, h, x)
    ensures OnlyRetired(s.h, r)
  {
    TickOrder(w, h, x, s, s.h);
    QuietEnd(s.h, HandleInterrupt(s.h, s.h.pc), r);
  }

  /** A tick whose instruction traps, and after which no interrupt is due, ends in the handler, with the instruction's own pc recorded. */
  lemma TrappingTick<G>(w: World<G>, h: Hart<G>, x: Input, s: Step<G>, c: Code, interrupt: bool, h2: Hart<G>, r: Hart<G>)
    requires s == Operate(w, Sample(h, x), x.time) && Coded(s.trap.ty, c, interrupt) && r == Tick(w, h, x)
    requires h2 == HandleTrap(s.h, s.trap, h.pc) && Quiet(h2)
    ensures Took(s.h, h2, c, interrupt, s.trap.val, h.pc) && OnlyRetired(h2, r)
  {
    TickOrder(w, h, x, s, h2);
    QuietEnd(h2, HandleInterrupt(h2, h2.pc), r);
    TrapEffect(s.h, s.trap, h.pc, c, interrupt, h2);
  }
}
