/**
 The spill code around a selected sequence: gp and tp are brought into x1 and x2,
 a result for gp or tp is formed in x0, and all three are restored afterwards.
 */
module JitSpill {
  import opened Words
  import opened Isa
  import opened A64
  import opened JitCode
  import opened JitSelect

  /** Inside a translated block: running, with x29 holding the CPU object. */
  ghost predicate InBlock<G>(env: Env<G>, s: Host<G>) { Running(s) && s.x[29] == env.at.cpu }

  /** Nothing at or above the stack pointer of `s` has changed. */
  ghost predicate Above<G>(s: Host<G>, s': Host<G>) {
    forall a :: a in s.stack && a >= s.sp ==> a in s'.stack && s'.stack[a] == s.stack[a]
  }

  lemma HomeRange(r: Reg)
    requires !InMemory(r)
    ensures r == 0 <==> Home(r) == ZR
    ensures r != 0 ==> Home(r) <= 28 && GuestOf(Home(r)) == r
  {
  }

  function SpillOne<G>(spilled: bool, scratch: Gp, slot: nat, r: Reg, s: Host<G>): Host<G>
    requires Shape(s) && scratch <= 2
  {
    if spilled then s.(stack := s.stack[s.sp + slot := s.x[scratch]], x := s.x[scratch := s.cells[r]]) else s
  }

  lemma SpillSourceRuns<G>(env: Env<G>, spilled: bool, scratch: Gp, slot: nat, r: Reg, s: Host<G>)
    requires InBlock(env, s) && scratch <= 2
    ensures Run(env, SpillSource(spilled, scratch, slot, r), s) == SpillOne(spilled, scratch, slot, r, s)
  {
    if spilled {
      var s1 := s.(stack := s.stack[s.sp + slot := s.x[scratch]]);
      StepStrSlot(env, scratch, slot, s);
      StepLdrCell(env, scratch, r, s1);
      RunTwo(env, Str(X, scratch, Slot(slot)), Ldr(X, scratch, XregCell(r)), s);
    }
  }

  lemma UnspillSourceRuns<G>(env: Env<G>, spilled: bool, scratch: Gp, slot: nat, s: Host<G>)
    requires InBlock(env, s) && scratch <= 2 && (spilled ==> s.sp + slot in s.stack)
    ensures Run(env, UnspillSource(spilled, scratch, slot), s)
         == if spilled then s.(x := s.x[scratch := s.stack[s.sp + slot]]) else s
  {
    if spilled {
      StepLdrSlot(env, scratch, slot, s);
      RunOne(env, Ldr(X, scratch, Slot(slot)), s);
    }
  }

  /** The state after the sources have been brought in. */
  function Sources<G>(frame: nat, rs1: Reg, two: bool, rs2: Reg, s: Host<G>): Host<G>
    requires Shape(s)
  {
    SpillOne(InMemory(rs1), 1, 8, rs1, SpillOne(two && InMemory(rs2), 2, 16, rs2, s.(sp := s.sp - frame)))
  }

  lemma SourcesRun<G>(env: Env<G>, frame: nat, rs1: Reg, two: bool, rs2: Reg, s: Host<G>)
    requires InBlock(env, s)
    ensures Run(env, [SubSp(frame)] + SpillSource(two && InMemory(rs2), 2, 16, rs2) + SpillSource(InMemory(rs1), 1, 8, rs1), s)
         == Sources(frame, rs1, two, rs2, s)
  {
    var p2, p3 := SpillSource(two && InMemory(rs2), 2, 16, rs2), SpillSource(InMemory(rs1), 1, 8, rs1);
    RunParts(env, [SubSp(frame)], p2, p3, s);
    var s1 := s.(sp := s.sp - frame);
    StepSubSp(env, frame, s);
    RunOne(env, SubSp(frame), s);
    SpillSourceRuns(env, two && InMemory(rs2), 2, 16, rs2, s1);
    SpillSourceRuns(env, InMemory(rs1), 1, 8, rs1, SpillOne(two && InMemory(rs2), 2, 16, rs2, s1));
  }

  /** The state in which the selected code starts. */
  function CoreEntry<G>(frame: nat, rd: Reg, rs1: Reg, two: bool, rs2: Reg, s: Host<G>): Host<G>
    requires Shape(s)
  {
    var b := Sources(frame, rs1, two, rs2, s);
    if InMemory(rd) then b.(stack := b.stack[b.sp := b.x[0]]) else b
  }

  lemma TargetRuns<G>(env: Env<G>, rd: Reg, core: seq<Ins>, b: Host<G>, v: Word)
    requires InBlock(env, b) && rd != 0
    requires InMemory(rd) ==>
      var t := b.(stack := b.stack[b.sp := b.x[0]]); Sets(t, Run(env, core, t), 0, v)
    requires !InMemory(rd) ==> Home(rd) != ZR && Sets(b, Run(env, core, b), Home(rd), v)
    ensures var f := Run(env, Target(rd, core), b);
            if InMemory(rd) then f == b.(stack := b.stack[b.sp := b.x[0]], cells := b.cells[rd := v], flags := f.flags)
            else f == b.(x := b.x[Home(rd) := v], flags := f.flags)
  {
    if InMemory(rd) {
      var pre, post := [Str(X, 0, Slot(0))], [Str(X, 0, XregCell(rd)), Ldr(X, 0, Slot(0))];
      RunParts(env, pre, core, post, b);
      var t := b.(stack := b.stack[b.sp := b.x[0]]);
      StepStrSlot(env, 0, 0, b);
      RunOne(env, Str(X, 0, Slot(0)), b);
      var u := Run(env, core, t);
      var u1 := u.(cells := u.cells[rd := v]);
      StepStrCell(env, 0, rd, u);
      StepLdrSlot(env, 0, 0, u1);
      RunTwo(env, post[0], post[1], u);
      assert b.x[0 := v][0 := b.x[0]] == b.x;
    }
  }

  lemma UnspillRuns<G>(env: Env<G>, frame: nat, rs1: Reg, two: bool, rs2: Reg, s: Host<G>)
    requires InBlock(env, s)
    requires InMemory(rs1) ==> s.sp + 8 in s.stack
    requires two && InMemory(rs2) ==> s.sp + 16 in s.stack
    ensures var x1 := if InMemory(rs1) then s.x[1 := s.stack[s.sp + 8]] else s.x;
            var x2 := if two && InMemory(rs2) then x1[2 := s.stack[s.sp + 16]] else x1;
            Run(env, UnspillSource(InMemory(rs1), 1, 8) + UnspillSource(two && InMemory(rs2), 2, 16) + [AddSp(frame)], s)
            == s.(x := x2, sp := s.sp + frame)
  {
    var p1, p2 := UnspillSource(InMemory(rs1), 1, 8), UnspillSource(two && InMemory(rs2), 2, 16);
    RunParts(env, p1, p2, [AddSp(frame)], s);
    UnspillSourceRuns(env, InMemory(rs1), 1, 8, s);
    UnspillSourceRuns(env, two && InMemory(rs2), 2, 16, Run(env, p1, s));
    StepAddSp(env, frame, Run(env, p2, Run(env, p1, s)));
    RunOne(env, AddSp(frame), Run(env, p2, Run(env, p1, s)));
  }

  /** The restore code overwrites the destination: the result is lost. */
  predicate Lost(rd: Reg, rs1: Reg, two: bool, rs2: Reg) {
    (InMemory(rs1) && rd == 11) || (two && InMemory(rs2) && rd == 12)
  }

  /** The registers after the restore code, for a result `v` formed in the working register of `rd`. */
  function Settled<G>(rd: Reg, rs1: Reg, two: bool, rs2: Reg, s: Host<G>, v: Word): seq<Word>
    requires Shape(s) && rd != 0
  {
    if InMemory(rd) || Lost(rd, rs1, two, rs2) then s.x else s.x[Home(rd) := v]
  }

  /** Restoring x1 and x2 undoes their use as scratch, and with it a result placed in them. */
  lemma RestoredRegisters<G>(frame: nat, rd: Reg, rs1: Reg, two: bool, rs2: Reg, s: Host<G>, v: Word)
    requires Shape(s) && rd != 0 && (frame == 32 || (frame == 16 && !two))
    ensures var b := CoreEntry(frame, rd, rs1, two, rs2, s);
            var x0 := if InMemory(rd) then b.x else b.x[Home(rd) := v];
            && (InMemory(rs1) ==> b.sp + 8 in b.stack)
            && (two && InMemory(rs2) ==> b.sp + 16 in b.stack)
            && var x1 := if InMemory(rs1) then x0[1 := b.stack[b.sp + 8]] else x0;
               var x2 := if two && InMemory(rs2) then x1[2 := b.stack[b.sp + 16]] else x1;
               x2 == Settled(rd, rs1, two, rs2, s, v)
  {
    if !InMemory(rd) { HomeRange(rd); }
  }

  function Head(frame: nat, rd: Reg, rs1: Reg, two: bool, rs2: Reg, core: seq<Ins>): seq<Ins> {
    ([SubSp(frame)] + SpillSource(two && InMemory(rs2), 2, 16, rs2) + SpillSource(InMemory(rs1), 1, 8, rs1)) + Target(rd, core)
  }

  lemma HeadRuns<G>(env: Env<G>, frame: nat, rd: Reg, rs1: Reg, two: bool, rs2: Reg, core: seq<Ins>, s: Host<G>, v: Word)
    requires InBlock(env, s) && rd != 0 && Work(rd, 0) != ZR
    requires var t := CoreEntry(frame, rd, rs1, two, rs2, s); Sets(t, Run(env, core, t), Work(rd, 0), v)
    ensures var t := CoreEntry(frame, rd, rs1, two, rs2, s);
            var c := Run(env, Head(frame, rd, rs1, two, rs2, core), s);
            c == if InMemory(rd) then t.(cells := t.cells[rd := v], flags := c.flags)
                 else t.(x := t.x[Home(rd) := v], flags := c.flags)
  {
    var p1 := [SubSp(frame)] + SpillSource(two && InMemory(rs2), 2, 16, rs2) + SpillSource(InMemory(rs1), 1, 8, rs1);
    RunAppend(env, p1, Target(rd, core), s);
    SourcesRun(env, frame, rs1, two, rs2, s);
    TargetRuns(env, rd, core, Sources(frame, rs1, two, rs2, s), v);
  }

  /** The spill slots all lie below the stack pointer. */
  lemma SlotsBelow<G>(frame: nat, rd: Reg, rs1: Reg, two: bool, rs2: Reg, s: Host<G>)
    requires Shape(s) && (frame == 32 || (frame == 16 && !two))
    ensures Above(s, CoreEntry(frame, rd, rs1, two, rs2, s))
    ensures var t := CoreEntry(frame, rd, rs1, two, rs2, s);
            t == s.(x := t.x, stack := t.stack, sp := s.sp - frame)
  {
  }

  lemma TailRuns<G>(env: Env<G>, frame: nat, rd: Reg, rs1: Reg, two: bool, rs2: Reg, s: Host<G>, c: Host<G>, v: Word)
    requires InBlock(env, s) && rd != 0 && (frame == 32 || (frame == 16 && !two)) && Work(rd, 0) != ZR
    requires var t := CoreEntry(frame, rd, rs1, two, rs2, s);
             c == if InMemory(rd) then t.(cells := t.cells[rd := v], flags := c.flags)
                  else t.(x := t.x[Home(rd) := v], flags := c.flags)
    ensures var p3 := UnspillSource(InMemory(rs1), 1, 8) + UnspillSource(two && InMemory(rs2), 2, 16) + [AddSp(frame)];
            var f := Run(env, p3, c);
            && Above(s, f)
            && f == s.(x := Settled(rd, rs1, two, rs2, s, v),
                       cells := if InMemory(rd) then s.cells[rd := v] else s.cells,
                       stack := f.stack, flags := f.flags)
  {
    SlotsBelow(frame, rd, rs1, two, rs2, s);
    RestoredRegisters(frame, rd, rs1, two, rs2, s, v);
    if !InMemory(rd) { HomeRange(rd); }
    UnspillRuns(env, frame, rs1, two, rs2, c);
  }

  lemma SpilledRuns<G>(env: Env<G>, frame: nat, rd: Reg, rs1: Reg, two: bool, rs2: Reg, core: seq<Ins>, s: Host<G>, v: Word)
    requires InBlock(env, s) && rd != 0 && (frame == 32 || (frame == 16 && !two))
    requires Work(rd, 0) != ZR
    requires var t := CoreEntry(frame, rd, rs1, two, rs2, s); Sets(t, Run(env, core, t), Work(rd, 0), v)
    ensures var f := Run(env, Spilled(frame, rd, rs1, two, rs2, core), s);
            && Above(s, f)
            && f == s.(x := Settled(rd, rs1, two, rs2, s, v),
                       cells := if InMemory(rd) then s.cells[rd := v] else s.cells,
                       stack := f.stack, flags := f.flags)
  {
    var p3 := UnspillSource(InMemory(rs1), 1, 8) + UnspillSource(two && InMemory(rs2), 2, 16) + [AddSp(frame)];
    RunAppend(env, Head(frame, rd, rs1, two, rs2, core), p3, s);
    HeadRuns(env, frame, rd, rs1, two, rs2, core, s, v);
    TailRuns(env, frame, rd, rs1, two, rs2, s, Run(env, Head(frame, rd, rs1, two, rs2, core), s), v);
  }
}
