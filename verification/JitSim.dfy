/**
 The guest state a translated block keeps in host registers and CPU cells, and
 what each translated ALU instruction does to it, hazards included.
 */
module JitSim {
  import opened Words
  import opened Isa
  import opened A64
  import opened JitCode
  import opened JitSelect
  import opened JitSpill

  datatype Guest<G> = Guest(xregs: seq<Word>, pc: Word, ram: G)

  ghost predicate GuestOk<G>(g: Guest<G>) { |g.xregs| == 32 && g.xregs[0] == 0 }

  /** x0-x28 hold the guest registers they are mapped to; gp and tp are in their cells. */
  ghost predicate Match<G>(g: Guest<G>, s: Host<G>) {
    && GuestOk(g) && Shape(s)
    && (forall i :: 0 <= i < 29 ==> s.x[i] == g.xregs[GuestOf(i)])
    && s.cells[3] == g.xregs[3] && s.cells[4] == g.xregs[4]
    && s.pc == g.pc && s.ram == g.ram
  }

  /** Translated code ran to its end and gave back the stack, x29, x30 and instret. */
  ghost predicate Settles<G>(s: Host<G>, s': Host<G>) {
    && Running(s') && Shape(s) && s'.sp == s.sp && Above(s, s')
    && s'.x[29] == s.x[29] && s'.x[30] == s.x[30] && s'.instret == s.instret
  }

  function SetReg<G>(g: Guest<G>, rd: Reg, v: Word): Guest<G>
    requires |g.xregs| == 32
  {
    if rd == 0 then g else g.(xregs := g.xregs[rd := v])
  }

  lemma HomeOfMapped(i: nat)
    requires i < 29
    ensures !InMemory(GuestOf(i)) && GuestOf(i) != 0 && Home(GuestOf(i)) == i
  {
  }

  lemma MatchGet<G>(g: Guest<G>, s: Host<G>, r: Reg)
    requires Match(g, s) && !InMemory(r)
    ensures Get(s, Home(r)) == g.xregs[r]
  {
    HomeRange(r);
  }

  lemma MatchSet<G>(g: Guest<G>, s: Host<G>, s': Host<G>, rd: Reg, v: Word)
    requires Match(g, s) && Shape(s') && rd != 0 && s'.pc == s.pc && s'.ram == s.ram
    requires if InMemory(rd) then s'.x == s.x && s'.cells == s.cells[rd := v]
             else s'.cells == s.cells && Home(rd) != ZR && s'.x == s.x[Home(rd) := v]
    ensures Match(SetReg(g, rd, v), s')
  {
    if InMemory(rd) {
      forall i | 0 <= i < 29 ensures GuestOf(i) != rd { HomeOfMapped(i); }
    } else {
      HomeRange(rd);
      forall i | 0 <= i < 29 ensures s'.x[i] == g.xregs[rd := v][GuestOf(i)] { HomeOfMapped(i); }
    }
  }

  /** What the selected code finds in the working register of the first source. */
  function Operand1<G>(g: Guest<G>, rs1: Reg, two: bool, rs2: Reg): Word
    requires |g.xregs| == 32
  {
    if two && InMemory(rs2) && rs1 == 12 then g.xregs[rs2] else g.xregs[rs1]
  }

  /** What the selected code finds in the working register of the second source. */
  function Operand2<G>(g: Guest<G>, rs1: Reg, rs2: Reg): Word
    requires |g.xregs| == 32
  {
    if InMemory(rs1) && rs2 == 11 then g.xregs[rs1] else g.xregs[rs2]
  }

  predicate Spills(rd: Reg, rs1: Reg, two: bool, rs2: Reg) {
    InMemory(rd) || InMemory(rs1) || (two && InMemory(rs2))
  }

  function Entry<G>(frame: nat, rd: Reg, rs1: Reg, two: bool, rs2: Reg, s: Host<G>): Host<G>
    requires Shape(s)
  {
    if Spills(rd, rs1, two, rs2) then CoreEntry(frame, rd, rs1, two, rs2, s) else s
  }

  lemma Operand1Read<G>(frame: nat, rd: Reg, rs1: Reg, two: bool, rs2: Reg, g: Guest<G>, s: Host<G>)
    requires Match(g, s)
    ensures Get(Entry(frame, rd, rs1, two, rs2, s), Work(rs1, 1)) == Operand1(g, rs1, two, rs2)
  {
    if !InMemory(rs1) { HomeRange(rs1); MatchGet(g, s, rs1); }
  }

  lemma Operand2Read<G>(frame: nat, rd: Reg, rs1: Reg, rs2: Reg, g: Guest<G>, s: Host<G>)
    requires Match(g, s)
    ensures Get(Entry(frame, rd, rs1, true, rs2, s), Work(rs2, 2)) == Operand2(g, rs1, rs2)
  {
    if !InMemory(rs2) { HomeRange(rs2); MatchGet(g, s, rs2); }
  }

  lemma AroundRuns<G>(env: Env<G>, frame: nat, rd: Reg, rs1: Reg, two: bool, rs2: Reg, core: seq<Ins>, g: Guest<G>, s: Host<G>, v: Word)
    requires InBlock(env, s) && Match(g, s) && rd != 0 && (frame == 32 || (frame == 16 && !two))
    requires Work(rd, 0) != ZR
    requires var t := Entry(frame, rd, rs1, two, rs2, s); Sets(t, Run(env, core, t), Work(rd, 0), v)
    ensures var f := Run(env, Around(frame, rd, rs1, two, rs2, core), s);
            Settles(s, f) && Match(if Lost(rd, rs1, two, rs2) then g else SetReg(g, rd, v), f)
  {
    var f := Run(env, Around(frame, rd, rs1, two, rs2, core), s);
    if !InMemory(rd) { HomeRange(rd); }
    if Spills(rd, rs1, two, rs2) {
      SpilledRuns(env, frame, rd, rs1, two, rs2, core, s, v);
    }
    if !Lost(rd, rs1, two, rs2) {
      MatchSet(g, s, f, rd, v);
    }
  }

  lemma WorkTarget(rd: Reg)
    requires rd != 0
    ensures Work(rd, 0) != ZR
  {
    if !InMemory(rd) { HomeRange(rd); }
  }

  // ----- the effect of the translated code on the guest -----

  predicate SameWork(rd: Reg, r: Reg, scratch: Gp) { Work(rd, 0) == Work(r, scratch) }

  function EmittedReg<G>(info: DecodeInfo, g: Guest<G>): Guest<G>
    requires |g.xregs| == 32 && IsReg(info.token)
  {
    if info.rd == 0 || Lost(info.rd, info.rs1, true, info.rs2) then g
    else SetReg(g, info.rd, RegSelected(info.token, SameWork(info.rd, info.rs1, 1), SameWork(info.rd, info.rs2, 2),
                                        Operand1(g, info.rs1, true, info.rs2), Operand2(g, info.rs1, info.rs2)))
  }

  function EmittedReg32<G>(info: DecodeInfo, g: Guest<G>): Guest<G>
    requires |g.xregs| == 32 && IsReg32(info.token)
  {
    if info.rd == 0 || Lost(info.rd, info.rs1, true, info.rs2) then g
    else SetReg(g, info.rd, SignExtend32(Reg32Selected(
                  info.token, SameWork(info.rd, info.rs1, 1), SameWork(info.rd, info.rs2, 2),
                  Wrap32(Operand1(g, info.rs1, true, info.rs2)), Wrap32(Operand2(g, info.rs1, info.rs2)))))
  }

  function EmittedImm<G>(info: DecodeInfo, g: Guest<G>): Guest<G>
    requires |g.xregs| == 32 && IsImm(info.token)
  {
    if info.rd == 0 || Lost(info.rd, info.rs1, false, info.rs2) then g
    else SetReg(g, info.rd, ImmSelected(info.token, SameWork(info.rd, info.rs1, 1), g.xregs[info.rs1], info.imm))
  }

  function EmittedImm32<G>(info: DecodeInfo, g: Guest<G>): Guest<G>
    requires |g.xregs| == 32 && IsImm32(info.token)
  {
    if info.rd == 0 || Lost(info.rd, info.rs1, false, info.rs2) then g
    else SetReg(g, info.rd, SignExtend32(Imm32Selected(
                  info.token, SameWork(info.rd, info.rs1, 1), Wrap32(g.xregs[info.rs1]), info.imm)))
  }

  lemma RegRuns<G>(env: Env<G>, info: DecodeInfo, l: Label, g: Guest<G>, s: Host<G>)
    requires InBlock(env, s) && Match(g, s) && IsReg(info.token)
    ensures var f := Run(env, RegCode(info, l), s); Settles(s, f) && Match(EmittedReg(info, g), f)
  {
    if info.rd != 0 {
      var rd, rs1, rs2 := Work(info.rd, 0), Work(info.rs1, 1), Work(info.rs2, 2);
      var t := Entry(32, info.rd, info.rs1, true, info.rs2, s);
      WorkTarget(info.rd);
      RegSelectRuns(env, rd, rs1, rs2, info.token, l, t);
      Operand1Read(32, info.rd, info.rs1, true, info.rs2, g, s);
      Operand2Read(32, info.rd, info.rs1, info.rs2, g, s);
      AroundRuns(env, 32, info.rd, info.rs1, true, info.rs2, RegSelect(rd, rs1, rs2, info.token, l), g, s,
                 RegSelected(info.token, rd == rs1, rd == rs2, Get(t, rs1), Get(t, rs2)));
    }
  }

  lemma Reg32Runs<G>(env: Env<G>, info: DecodeInfo, l: Label, g: Guest<G>, s: Host<G>)
    requires InBlock(env, s) && Match(g, s) && IsReg32(info.token)
    ensures var f := Run(env, Reg32Code(info, l), s); Settles(s, f) && Match(EmittedReg32(info, g), f)
  {
    if info.rd != 0 {
      var rd, rs1, rs2 := Work(info.rd, 0), Work(info.rs1, 1), Work(info.rs2, 2);
      var t := Entry(32, info.rd, info.rs1, true, info.rs2, s);
      WorkTarget(info.rd);
      Reg32SelectRuns(env, rd, rs1, rs2, info.token, l, t);
      Operand1Read(32, info.rd, info.rs1, true, info.rs2, g, s);
      Operand2Read(32, info.rd, info.rs1, info.rs2, g, s);
      AroundRuns(env, 32, info.rd, info.rs1, true, info.rs2, Reg32Select(rd, rs1, rs2, info.token, l), g, s,
                 SignExtend32(Reg32Selected(info.token, rd == rs1, rd == rs2, Wrap32(Get(t, rs1)), Wrap32(Get(t, rs2)))));
    }
  }

  lemma ImmRuns<G>(env: Env<G>, info: DecodeInfo, g: Guest<G>, s: Host<G>)
    requires InBlock(env, s) && Match(g, s) && IsImm(info.token)
    ensures var f := Run(env, ImmCode(info), s); Settles(s, f) && Match(EmittedImm(info, g), f)
  {
    if info.rd != 0 {
      var rd, rs1 := Work(info.rd, 0), Work(info.rs1, 1);
      var t := Entry(16, info.rd, info.rs1, false, info.rs2, s);
      WorkTarget(info.rd);
      ImmSelectRuns(env, rd, rs1, info.imm, info.token, t);
      Operand1Read(16, info.rd, info.rs1, false, info.rs2, g, s);
      AroundRuns(env, 16, info.rd, info.rs1, false, info.rs2, ImmSelect(rd, rs1, info.imm, info.token), g, s,
                 ImmSelected(info.token, rd == rs1, Get(t, rs1), info.imm));
    }
  }

  lemma Imm32Runs<G>(env: Env<G>, info: DecodeInfo, g: Guest<G>, s: Host<G>)
    requires InBlock(env, s) && Match(g, s) && IsImm32(info.token)
    ensures var f := Run(env, Imm32Code(info), s); Settles(s, f) && Match(EmittedImm32(info, g), f)
  {
    if info.rd != 0 {
      var rd, rs1 := Work(info.rd, 0), Work(info.rs1, 1);
      var t := Entry(16, info.rd, info.rs1, false, info.rs2, s);
      WorkTarget(info.rd);
      Imm32SelectRuns(env, rd, rs1, info.imm, info.token, t);
      Operand1Read(16, info.rd, info.rs1, false, info.rs2, g, s);
      AroundRuns(env, 16, info.rd, info.rs1, false, info.rs2, Imm32Select(rd, rs1, info.imm, info.token), g, s,
                 SignExtend32(Imm32Selected(info.token, rd == rs1, Wrap32(Get(t, rs1)), info.imm)));
    }
  }
}
