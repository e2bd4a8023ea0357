/** Translated LUI, AUIPC, JAL and JALR. */
module JitJump {
  import opened Words
  import opened Isa
  import opened A64
  import opened JitCode
  import opened JitSelect
  import opened JitSpill
  import opened JitSim

  lemma BorrowOpens<G>(env: Env<G>, s: Host<G>)
    requires InBlock(env, s)
    ensures Run(env, [SubSp(16), Str(X, 0, Slot(0))], s) == s.(sp := s.sp - 16, stack := s.stack[s.sp - 16 := s.x[0]])
  {
    var s1 := s.(sp := s.sp - 16);
    StepSubSp(env, 16, s);
    StepStrSlot(env, 0, 0, s1);
    RunTwo(env, SubSp(16), Str(X, 0, Slot(0)), s);
  }

  lemma BorrowCloses<G>(env: Env<G>, u: Host<G>)
    requires Running(u) && u.sp in u.stack
    ensures Run(env, [Ldr(X, 0, Slot(0)), AddSp(16)], u) == u.(x := u.x[0 := u.stack[u.sp]], sp := u.sp + 16)
  {
    var v := u.(x := u.x[0 := u.stack[u.sp]]);
    StepLdrSlot(env, 0, 0, u);
    StepAddSp(env, 16, v);
    RunTwo(env, Ldr(X, 0, Slot(0)), AddSp(16), u);
  }

  /** x0 is saved below the stack pointer, used, and restored. */
  lemma BorrowX0<G>(env: Env<G>, code: seq<Ins>, s: Host<G>, u: Host<G>)
    requires InBlock(env, s)
    requires var t := s.(sp := s.sp - 16, stack := s.stack[s.sp - 16 := s.x[0]]);
             u == Run(env, code, t) && u.skip == Go && u.ok && u.sp == t.sp && u.stack == t.stack
    ensures Run(env, [SubSp(16), Str(X, 0, Slot(0))] + code + [Ldr(X, 0, Slot(0)), AddSp(16)], s)
         == u.(x := u.x[0 := s.x[0]], sp := s.sp)
  {
    RunParts(env, [SubSp(16), Str(X, 0, Slot(0))], code, [Ldr(X, 0, Slot(0)), AddSp(16)], s);
    BorrowOpens(env, s);
    BorrowCloses(env, u);
  }

  lemma LuiRuns<G>(env: Env<G>, rd: Reg, imm: int, g: Guest<G>, s: Host<G>)
    requires InBlock(env, s) && Match(g, s)
    ensures var f := Run(env, LuiCode(rd, imm), s); Settles(s, f) && Match(SetReg(g, rd, Wrap64(imm)), f)
  {
    var f := Run(env, LuiCode(rd, imm), s);
    if rd == 0 {
    } else if !InMemory(rd) {
      HomeRange(rd);
      RunOne(env, MovI(X, Home(rd), imm), s);
      MatchSet(g, s, f, rd, Wrap64(imm));
    } else {
      var t := s.(sp := s.sp - 16, stack := s.stack[s.sp - 16 := s.x[0]]);
      RunTwo(env, MovI(X, 0, imm), Str(X, 0, XregCell(rd)), t);
      BorrowX0(env, [MovI(X, 0, imm), Str(X, 0, XregCell(rd))], s, Run(env, [MovI(X, 0, imm), Str(X, 0, XregCell(rd))], t));
      assert s.x[0 := Wrap64(imm)][0 := s.x[0]] == s.x;
      MatchSet(g, s, f, rd, Wrap64(imm));
    }
  }

  /** A jump that links to x0 forms its target in the zero register, so the pc it stores is 0. */
  function EmittedJal<G>(info: DecodeInfo, g: Guest<G>): Guest<G>
    requires |g.xregs| == 32
  {
    if info.rd == 0 then g.(pc := 0) else SetReg(g.(pc := JumpTarget(info)), info.rd, LinkAddress(info))
  }

  lemma JalRuns<G>(env: Env<G>, info: DecodeInfo, g: Guest<G>, s: Host<G>)
    requires InBlock(env, s) && Match(g, s)
    ensures var f := Run(env, JalCode(info), s); Settles(s, f) && Match(EmittedJal(info, g), f)
  {
    if info.rd == 0 {
      RunThree(env, MovA(ZR, JumpTarget(info)), Str(X, ZR, PcCell), MovA(ZR, LinkAddress(info)), s);
    } else {
      JalLinks(env, info, g, s);
    }
  }

  lemma JalLinks<G>(env: Env<G>, info: DecodeInfo, g: Guest<G>, s: Host<G>)
    requires InBlock(env, s) && Match(g, s) && info.rd != 0
    ensures var f := Run(env, JalCode(info), s);
            Settles(s, f) && Match(SetReg(g.(pc := JumpTarget(info)), info.rd, LinkAddress(info)), f)
  {
    var f := Run(env, JalCode(info), s);
    var rd, to, link := info.rd, JumpTarget(info), LinkAddress(info);
    var sj := s.(pc := to);
    if !InMemory(rd) {
      HomeRange(rd);
      RunThree(env, MovA(Home(rd), to), Str(X, Home(rd), PcCell), MovA(Home(rd), link), s);
      assert s.x[Home(rd) := to][Home(rd) := link] == s.x[Home(rd) := link];
    } else {
      var c1, c2 := [MovA(0, to), Str(X, 0, PcCell)], [MovA(0, link), Str(X, 0, XregCell(rd))];
      var t := s.(sp := s.sp - 16, stack := s.stack[s.sp - 16 := s.x[0]]);
      RunAppend(env, c1, c2, t);
      RunTwo(env, c1[0], c1[1], t);
      RunTwo(env, c2[0], c2[1], Run(env, c1, t));
      assert JalCode(info) == [SubSp(16), Str(X, 0, Slot(0))] + (c1 + c2) + [Ldr(X, 0, Slot(0)), AddSp(16)];
      BorrowX0(env, c1 + c2, s, Run(env, c1 + c2, t));
      assert s.x[0 := to][0 := link][0 := s.x[0]] == s.x;
    }
    MatchSet(g.(pc := to), sj, f, rd, link);
  }

  // ----- JALR -----

  /** The pc the emitted code stores; the destination already holds the immediate when rs1 is read. */
  function EmittedTarget<G>(info: DecodeInfo, g: Guest<G>): Word
    requires |g.xregs| == 32
  {
    var first := if SameWork(info.rd, info.rs1, 1) then Wrap64(info.imm) else g.xregs[info.rs1];
    And64(Wrap64(Wrap64(info.imm) + first), TWO64 - 2)
  }

  function EmittedJalr<G>(info: DecodeInfo, g: Guest<G>): Guest<G>
    requires |g.xregs| == 32
  {
    var g1 := g.(pc := if info.rd == 0 then 0 else EmittedTarget(info, g));
    if Lost(info.rd, info.rs1, false, info.rs2) then g1 else SetReg(g1, info.rd, LinkAddress(info))
  }

  lemma JalrTargetRuns<G>(env: Env<G>, imm: int, rd: Gp, rs1: Gp, s: Host<G>, to: Word)
    requires InBlock(env, s) && rd < 29
    requires to == And64(Wrap64(Wrap64(imm) + if rd == rs1 then Wrap64(imm) else Get(s, rs1)), TWO64 - 2)
    ensures Run(env, [MovI(X, rd, imm), Alu(Add, X, rd, rd, rs1), AndImm(rd, rd, TWO64 - 2)], s) == s.(x := s.x[rd := to])
  {
    var s1 := s.(x := s.x[rd := Wrap64(imm)]);
    StepMovI(env, rd, imm, s);
    var sum := Wrap64(Wrap64(imm) + Get(s1, rs1));
    var s2 := s1.(x := s1.x[rd := sum]);
    assert Step(env, Alu(Add, X, rd, rd, rs1), s1) == s2;
    assert Step(env, AndImm(rd, rd, TWO64 - 2), s2) == s2.(x := s2.x[rd := to]);
    RunThree(env, MovI(X, rd, imm), Alu(Add, X, rd, rd, rs1), AndImm(rd, rd, TWO64 - 2), s);
    assert s.x[rd := Wrap64(imm)][rd := sum][rd := to] == s.x[rd := to];
  }

  lemma JalrCoreRuns<G>(env: Env<G>, info: DecodeInfo, rd: Gp, rs1: Gp, s: Host<G>)
    requires InBlock(env, s) && rd < 29
    ensures Run(env, JalrCore(info, rd, rs1), s)
         == s.(pc := And64(Wrap64(Wrap64(info.imm) + if rd == rs1 then Wrap64(info.imm) else Get(s, rs1)), TWO64 - 2),
               x := s.x[rd := LinkAddress(info)])
  {
    var to := And64(Wrap64(Wrap64(info.imm) + if rd == rs1 then Wrap64(info.imm) else Get(s, rs1)), TWO64 - 2);
    RunAppend(env, [MovI(X, rd, info.imm), Alu(Add, X, rd, rd, rs1), AndImm(rd, rd, TWO64 - 2)],
              [Str(X, rd, PcCell), MovA(rd, LinkAddress(info))], s);
    JalrTargetRuns(env, info.imm, rd, rs1, s, to);
    var s1 := s.(x := s.x[rd := to]);
    var s2 := s1.(pc := to);
    assert Step(env, Str(X, rd, PcCell), s1) == s2;
    StepMovA(env, rd, LinkAddress(info), s2);
    RunTwo(env, Str(X, rd, PcCell), MovA(rd, LinkAddress(info)), s1);
    assert s.x[rd := to][rd := LinkAddress(info)] == s.x[rd := LinkAddress(info)];
  }

  /** The state in which the JALR core starts when something is spilled. */
  function JalrEntry<G>(info: DecodeInfo, s: Host<G>): Host<G>
    requires Shape(s)
  {
    SpillOne(InMemory(info.rd), 0, 0, info.rd, SpillOne(InMemory(info.rs1), 1, 8, info.rs1, s.(sp := s.sp - 16)))
  }

  function JalrHead(info: DecodeInfo): seq<Ins> {
    [SubSp(16)] + SpillSource(InMemory(info.rs1), 1, 8, info.rs1) + SpillSource(InMemory(info.rd), 0, 0, info.rd)
  }

  lemma JalrHeadRuns<G>(env: Env<G>, info: DecodeInfo, s: Host<G>)
    requires InBlock(env, s)
    ensures Run(env, JalrHead(info), s) == JalrEntry(info, s)
  {
    var p1, p2 := SpillSource(InMemory(info.rs1), 1, 8, info.rs1), SpillSource(InMemory(info.rd), 0, 0, info.rd);
    RunParts(env, [SubSp(16)], p1, p2, s);
    var s1 := s.(sp := s.sp - 16);
    assert Run(env, [SubSp(16)], s) == s1 by { RunOne(env, SubSp(16), s); }
    SpillSourceRuns(env, InMemory(info.rs1), 1, 8, info.rs1, s1);
    SpillSourceRuns(env, InMemory(info.rd), 0, 0, info.rd, SpillOne(InMemory(info.rs1), 1, 8, info.rs1, s1));
  }

  function JalrTail(info: DecodeInfo): seq<Ins> {
    (if InMemory(info.rd) then [Str(X, 0, XregCell(info.rd)), Ldr(X, 0, Slot(0))] else [])
    + UnspillSource(InMemory(info.rs1), 1, 8) + [AddSp(16)]
  }

  lemma JalrStoreRd<G>(env: Env<G>, rd: Reg, s: Host<G>)
    requires InBlock(env, s) && (InMemory(rd) ==> s.sp in s.stack)
    ensures Run(env, if InMemory(rd) then [Str(X, 0, XregCell(rd)), Ldr(X, 0, Slot(0))] else [], s)
         == if InMemory(rd) then s.(cells := s.cells[rd := s.x[0]], x := s.x[0 := s.stack[s.sp]]) else s
  {
    if InMemory(rd) {
      var s1 := s.(cells := s.cells[rd := s.x[0]]);
      StepStrCell(env, 0, rd, s);
      StepLdrSlot(env, 0, 0, s1);
      RunTwo(env, Str(X, 0, XregCell(rd)), Ldr(X, 0, Slot(0)), s);
    }
  }

  lemma JalrTailRuns<G>(env: Env<G>, info: DecodeInfo, s: Host<G>)
    requires InBlock(env, s)
    requires (InMemory(info.rd) ==> s.sp in s.stack) && (InMemory(info.rs1) ==> s.sp + 8 in s.stack)
    ensures var x1 := if InMemory(info.rd) then s.x[0 := s.stack[s.sp]] else s.x;
            Run(env, JalrTail(info), s)
            == s.(cells := if InMemory(info.rd) then s.cells[info.rd := s.x[0]] else s.cells,
                  x := if InMemory(info.rs1) then x1[1 := s.stack[s.sp + 8]] else x1,
                  sp := s.sp + 16)
  {
    var p1 := if InMemory(info.rd) then [Str(X, 0, XregCell(info.rd)), Ldr(X, 0, Slot(0))] else [];
    var p2 := UnspillSource(InMemory(info.rs1), 1, 8);
    RunParts(env, p1, p2, [AddSp(16)], s);
    JalrStoreRd(env, info.rd, s);
    var s1 := Run(env, p1, s);
    UnspillSourceRuns(env, InMemory(info.rs1), 1, 8, s1);
    RunOne(env, AddSp(16), Run(env, p2, s1));
  }

  lemma JalrOperand<G>(info: DecodeInfo, g: Guest<G>, s: Host<G>)
    requires Match(g, s) && info.rd != 0
    ensures var rd, rs1 := Work(info.rd, 0), Work(info.rs1, 1);
            rd < 29 && (rd != rs1 ==> Get(if Spills(info.rd, info.rs1, false, 0) then JalrEntry(info, s) else s, rs1) == g.xregs[info.rs1])
  {
    if !InMemory(info.rd) { HomeRange(info.rd); }
    if !InMemory(info.rs1) { HomeRange(info.rs1); MatchGet(g, s, info.rs1); }
  }

  /** Restoring x0 and x1 after the core leaves only the destination changed, if that. */
  lemma JalrRestored<G>(info: DecodeInfo, s: Host<G>, v: Word)
    requires Shape(s) && info.rd != 0 && Spills(info.rd, info.rs1, false, 0) && Work(info.rd, 0) < 29
    ensures var t := JalrEntry(info, s);
            var x0 := t.x[Work(info.rd, 0) := v];
            && Above(s, t) && t == s.(sp := s.sp - 16, stack := t.stack, x := t.x)
            && (InMemory(info.rd) ==> t.sp in t.stack) && (InMemory(info.rs1) ==> t.sp + 8 in t.stack)
            && var x1 := if InMemory(info.rd) then x0[0 := t.stack[t.sp]] else x0;
               var x2 := if InMemory(info.rs1) then x1[1 := t.stack[t.sp + 8]] else x1;
               x2 == Settled(info.rd, info.rs1, false, 0, s, v)
  {
    if !InMemory(info.rd) { HomeRange(info.rd); }
  }

  lemma JalrMiddle<G>(env: Env<G>, info: DecodeInfo, g: Guest<G>, s: Host<G>)
    requires InBlock(env, s) && Match(g, s) && info.rd != 0 && Spills(info.rd, info.rs1, false, 0) && Work(info.rd, 0) < 29
    ensures var rd, t := Work(info.rd, 0), JalrEntry(info, s);
            Run(env, JalrHead(info) + JalrCore(info, rd, Work(info.rs1, 1)), s)
            == t.(pc := EmittedTarget(info, g), x := t.x[rd := LinkAddress(info)])
  {
    var rd, rs1 := Work(info.rd, 0), Work(info.rs1, 1);
    RunAppend(env, JalrHead(info), JalrCore(info, rd, rs1), s);
    JalrHeadRuns(env, info, s);
    JalrOperand(info, g, s);
    JalrCoreRuns(env, info, rd, rs1, JalrEntry(info, s));
  }

  /** The state after the whole spilled sequence, from the state `m` the core left. */
  lemma JalrEnds<G>(info: DecodeInfo, s: Host<G>, t: Host<G>, m: Host<G>, f: Host<G>, to: Word)
    requires Shape(s) && info.rd != 0 && Spills(info.rd, info.rs1, false, 0) && Work(info.rd, 0) < 29 && t == JalrEntry(info, s)
    requires |t.x| == 31 && m == t.(pc := to, x := t.x[Work(info.rd, 0) := LinkAddress(info)])
    requires (InMemory(info.rd) ==> m.sp in m.stack) && (InMemory(info.rs1) ==> m.sp + 8 in m.stack)
    requires var x1 := if InMemory(info.rd) then m.x[0 := m.stack[m.sp]] else m.x;
             f == m.(cells := if InMemory(info.rd) && |m.cells| == 32 then m.cells[info.rd := m.x[0]] else m.cells,
                     x := if InMemory(info.rs1) then x1[1 := m.stack[m.sp + 8]] else x1, sp := m.sp + 16)
    ensures Above(s, f)
    ensures f == s.(pc := to, stack := f.stack, x := Settled(info.rd, info.rs1, false, 0, s, LinkAddress(info)),
                    cells := if InMemory(info.rd) then s.cells[info.rd := LinkAddress(info)] else s.cells)
  {
    JalrRestored(info, s, LinkAddress(info));
  }

  lemma JalrSplits(info: DecodeInfo)
    requires Spills(info.rd, info.rs1, false, 0)
    ensures JalrCode(info) == JalrHead(info) + JalrCore(info, Work(info.rd, 0), Work(info.rs1, 1)) + JalrTail(info)
  {
  }

  lemma JalrFinishes<G>(env: Env<G>, info: DecodeInfo, s: Host<G>, m: Host<G>, to: Word)
    requires InBlock(env, s) && info.rd != 0 && Spills(info.rd, info.rs1, false, 0) && Work(info.rd, 0) < 29
    requires m == JalrEntry(info, s).(pc := to, x := JalrEntry(info, s).x[Work(info.rd, 0) := LinkAddress(info)])
    ensures var f := Run(env, JalrTail(info), m);
            && Above(s, f)
            && f == s.(pc := to, stack := f.stack, x := Settled(info.rd, info.rs1, false, 0, s, LinkAddress(info)),
                       cells := if InMemory(info.rd) then s.cells[info.rd := LinkAddress(info)] else s.cells)
  {
    JalrRestored(info, s, LinkAddress(info));
    JalrTailRuns(env, info, m);
    JalrEnds(info, s, JalrEntry(info, s), m, Run(env, JalrTail(info), m), to);
  }

  lemma JalrSpilledRuns<G>(env: Env<G>, info: DecodeInfo, g: Guest<G>, s: Host<G>)
    requires InBlock(env, s) && Match(g, s) && info.rd != 0 && Spills(info.rd, info.rs1, false, 0)
    ensures var f := Run(env, JalrCode(info), s);
            && Above(s, f)
            && f == s.(pc := EmittedTarget(info, g), stack := f.stack,
                       x := Settled(info.rd, info.rs1, false, 0, s, LinkAddress(info)),
                       cells := if InMemory(info.rd) then s.cells[info.rd := LinkAddress(info)] else s.cells)
  {
    var front := JalrHead(info) + JalrCore(info, Work(info.rd, 0), Work(info.rs1, 1));
    JalrSplits(info);
    RunAppend(env, front, JalrTail(info), s);
    JalrOperand(info, g, s);
    JalrMiddle(env, info, g, s);
    JalrFinishes(env, info, s, Run(env, front, s), EmittedTarget(info, g));
  }

  // ----- JALR that links to x0 -----

  lemma ZeroTargetRuns<G>(env: Env<G>, imm: int, rs1: Gp, s: Host<G>)
    requires InBlock(env, s)
    ensures Run(env, [MovI(X, ZR, imm), Alu(Add, X, ZR, ZR, rs1), AndImm(ZR, ZR, TWO64 - 2)], s) == s
  {
    RunThree(env, MovI(X, ZR, imm), Alu(Add, X, ZR, ZR, rs1), AndImm(ZR, ZR, TWO64 - 2), s);
  }

  lemma JalrCoreZero<G>(env: Env<G>, info: DecodeInfo, rs1: Gp, s: Host<G>)
    requires InBlock(env, s)
    ensures Run(env, JalrCore(info, ZR, rs1), s) == s.(pc := 0)
  {
    RunAppend(env, [MovI(X, ZR, info.imm), Alu(Add, X, ZR, ZR, rs1), AndImm(ZR, ZR, TWO64 - 2)],
              [Str(X, ZR, PcCell), MovA(ZR, LinkAddress(info))], s);
    ZeroTargetRuns(env, info.imm, rs1, s);
    RunTwo(env, Str(X, ZR, PcCell), MovA(ZR, LinkAddress(info)), s);
  }

  lemma JalrZeroFront<G>(env: Env<G>, info: DecodeInfo, s: Host<G>, t: Host<G>)
    requires InBlock(env, s) && info.rd == 0 && InMemory(info.rs1) && t == JalrEntry(info, s)
    ensures Run(env, JalrHead(info) + JalrCore(info, ZR, 1), s) == t.(pc := 0)
    ensures t == s.(sp := s.sp - 16, stack := s.stack[s.sp - 8 := s.x[1]], x := s.x[1 := s.cells[info.rs1]])
  {
    RunAppend(env, JalrHead(info), JalrCore(info, ZR, 1), s);
    JalrHeadRuns(env, info, s);
    JalrCoreZero(env, info, 1, t);
  }

  lemma JalrZeroSpilled<G>(env: Env<G>, info: DecodeInfo, s: Host<G>)
    requires InBlock(env, s) && info.rd == 0 && InMemory(info.rs1)
    ensures Run(env, JalrCode(info), s) == s.(pc := 0, stack := s.stack[s.sp - 8 := s.x[1]])
  {
    JalrSplits(info);
    RunAppend(env, JalrHead(info) + JalrCore(info, ZR, 1), JalrTail(info), s);
    var t := JalrEntry(info, s);
    JalrZeroFront(env, info, s, t);
    JalrTailRuns(env, info, t.(pc := 0));
    assert t.x[1 := s.x[1]] == s.x;
  }

  lemma JalrZeroRuns<G>(env: Env<G>, info: DecodeInfo, g: Guest<G>, s: Host<G>)
    requires InBlock(env, s) && Match(g, s) && info.rd == 0
    ensures var f := Run(env, JalrCode(info), s); Settles(s, f) && Match(g.(pc := 0), f)
  {
    if InMemory(info.rs1) {
      JalrZeroSpilled(env, info, s);
    } else {
      JalrCoreZero(env, info, Home(info.rs1), s);
    }
  }

  lemma JalrRuns<G>(env: Env<G>, info: DecodeInfo, g: Guest<G>, s: Host<G>)
    requires InBlock(env, s) && Match(g, s)
    ensures var f := Run(env, JalrCode(info), s); Settles(s, f) && Match(EmittedJalr(info, g), f)
  {
    if info.rd == 0 {
      JalrZeroRuns(env, info, g, s);
    } else {
      JalrLinks(env, info, g, s);
    }
  }

  lemma JalrLinks<G>(env: Env<G>, info: DecodeInfo, g: Guest<G>, s: Host<G>)
    requires InBlock(env, s) && Match(g, s) && info.rd != 0
    ensures var f := Run(env, JalrCode(info), s); Settles(s, f) && Match(EmittedJalr(info, g), f)
  {
    var f := Run(env, JalrCode(info), s);
    JalrOperand(info, g, s);
    if Spills(info.rd, info.rs1, false, 0) {
      JalrSpilledRuns(env, info, g, s);
    } else {
      JalrCoreRuns(env, info, Work(info.rd, 0), Work(info.rs1, 1), s);
    }
    if !InMemory(info.rd) { HomeRange(info.rd); }
    if !Lost(info.rd, info.rs1, false, info.rs2) {
      var to := EmittedTarget(info, g);
      MatchSet(g.(pc := to), s.(pc := to), f, info.rd, LinkAddress(info));
    }
  }
}
