/**
 Translated loads and stores: guest registers are saved around a call into the
 memory system, which may leave anything in x0-x18, x30 and the flags.
 */
module JitMem {
  import opened Words
  import opened Isa
  import opened A64
  import opened JitCode
  import opened JitSelect
  import opened JitSpill
  import opened JitSim

  /** The cells of the guest registers kept in x0-x18, and of gp and tp, are up to date. */
  ghost predicate CellsHold<G>(g: Guest<G>, cells: seq<Word>) {
    && |g.xregs| == 32 && |cells| == 32
    && (forall i :: 0 <= i < 19 ==> cells[GuestOf(i)] == g.xregs[GuestOf(i)])
    && cells[3] == g.xregs[3] && cells[4] == g.xregs[4]
  }

  lemma MappedOnce(i: nat, j: nat)
    requires i < 29 && j < 29 && GuestOf(i) == GuestOf(j)
    ensures i == j
  {
    HomeOfMapped(i); HomeOfMapped(j);
  }

  lemma {:induction false} SaveVolatileRuns<G>(env: Env<G>, n: nat, s: Host<G>)
    requires InBlock(env, s) && n <= 19
    ensures var f := Run(env, SaveVolatile()[..n], s);
            && f == s.(cells := f.cells)
            && (forall i :: 0 <= i < n ==> f.cells[GuestOf(i)] == s.x[i])
            && f.cells[3] == s.cells[3] && f.cells[4] == s.cells[4]
    decreases n
  {
    if n > 0 {
      SaveVolatileRuns(env, n - 1, s);
      var u := Run(env, SaveVolatile()[..n - 1], s);
      assert SaveVolatile()[..n] == SaveVolatile()[..n - 1] + [SaveVolatileOne(n - 1)];
      RunAppend(env, SaveVolatile()[..n - 1], [SaveVolatileOne(n - 1)], s);
      RunOne(env, SaveVolatileOne(n - 1), u);
      forall i | 0 <= i < n && GuestOf(i) == GuestOf(n - 1) ensures i == n - 1 {
        MappedOnce(i, n - 1);
      }
      HomeOfMapped(n - 1);
    }
  }

  lemma {:induction false} RestoreVolatileRuns<G>(env: Env<G>, n: nat, s: Host<G>)
    requires InBlock(env, s) && n <= 19
    ensures var f := Run(env, RestoreVolatile()[..n], s);
            && f == s.(x := f.x)
            && (forall i :: 0 <= i < n ==> f.x[i] == s.cells[GuestOf(i)])
            && (forall i :: n <= i < 31 ==> f.x[i] == s.x[i])
    decreases n
  {
    if n > 0 {
      RestoreVolatileRuns(env, n - 1, s);
      var u := Run(env, RestoreVolatile()[..n - 1], s);
      assert RestoreVolatile()[..n] == RestoreVolatile()[..n - 1] + [RestoreVolatileOne(n - 1)];
      RunAppend(env, RestoreVolatile()[..n - 1], [RestoreVolatileOne(n - 1)], s);
      RunOne(env, RestoreVolatileOne(n - 1), u);
    }
  }

  lemma SaveHolds<G>(env: Env<G>, g: Guest<G>, s: Host<G>)
    requires InBlock(env, s) && Match(g, s)
    ensures var f := Run(env, SaveVolatile(), s);
            f == s.(cells := f.cells) && CellsHold(g, f.cells) && Match(g, f) && InBlock(env, f)
  {
    SaveVolatileRuns(env, 19, s);
    assert SaveVolatile()[..19] == SaveVolatile();
  }

  // ----- the trap test and the way back -----

  lemma LowHalf(v: Word, h: Half)
    ensures Wrap32(v - v % TWO32 + h) == h
  {
  }

  /** After the call: frame of `frame` bytes below `s.sp` with x29 and x30 at its foot. */
  ghost predicate Framed<G>(env: Env<G>, frame: nat, s: Host<G>, u: Host<G>) {
    && Running(u) && Shape(s) && u.x[29] == env.at.cpu && s.x[29] == env.at.cpu
    && u.sp == s.sp - frame && frame >= 32
    && u.sp in u.stack && u.stack[u.sp] == s.x[29]
    && u.sp + 8 in u.stack && u.stack[u.sp + 8] == s.x[30]
    && (forall i :: 19 <= i < 29 ==> u.x[i] == s.x[i])
    && Above(s, u) && u.instret == s.instret && u.pc == s.pc
  }

  lemma StoreTest<G>(env: Env<G>, slot: nat, u: Host<G>)
    requires InBlock(env, u) && u.x[0] < TWO32
    ensures var f := Run(env, [SubImmW(0, 0, TRAP_NONE), Str(W, 0, Slot(slot))], u);
            && u.sp + slot in f.stack && Wrap32(f.stack[u.sp + slot]) == Wrap32(u.x[0] - TRAP_NONE)
            && f == u.(x := u.x[0 := Wrap32(u.x[0] - TRAP_NONE)], stack := u.stack[u.sp + slot := f.stack[u.sp + slot]])
  {
    var h := Wrap32(u.x[0] - TRAP_NONE);
    var u1 := u.(x := u.x[0 := h]);
    assert Step(env, SubImmW(0, 0, TRAP_NONE), u) == u1;
    var v := SlotAfter(u1, W, u.sp + slot, h);
    assert Step(env, Str(W, 0, Slot(slot)), u1) == u1.(stack := u1.stack[u.sp + slot := v]);
    RunTwo(env, SubImmW(0, 0, TRAP_NONE), Str(W, 0, Slot(slot)), u);
    if u.sp + slot in u.stack {
      LowHalf(u.stack[u.sp + slot], h);
    }
  }

  lemma TestTrapRuns<G>(env: Env<G>, slot: nat, u: Host<G>)
    requires InBlock(env, u)
    ensures var f := Run(env, TestTrap(env.at.trapAddr, slot), u);
            && u.sp + slot in f.stack && Wrap32(f.stack[u.sp + slot]) == Wrap32(u.trap - TRAP_NONE)
            && f == u.(x := u.x[0 := Wrap32(u.trap - TRAP_NONE)], stack := u.stack[u.sp + slot := f.stack[u.sp + slot]])
  {
    RunAppend(env, [MovA(0, env.at.trapAddr), Ldr(W, 0, TrapType(0))], [SubImmW(0, 0, TRAP_NONE), Str(W, 0, Slot(slot))], u);
    LoadTrapRuns(env, u);
    var u1 := u.(x := u.x[0 := u.trap]);
    StoreTest(env, slot, u1);
    assert u1.x[0 := Wrap32(u.trap - TRAP_NONE)] == u.x[0 := Wrap32(u.trap - TRAP_NONE)];
  }

  lemma LoadTrapRuns<G>(env: Env<G>, u: Host<G>)
    requires InBlock(env, u)
    ensures Run(env, [MovA(0, env.at.trapAddr), Ldr(W, 0, TrapType(0))], u) == u.(x := u.x[0 := u.trap])
  {
    var u0, u1 := u.(x := u.x[0 := env.at.trapAddr]), u.(x := u.x[0 := u.trap]);
    StepMovA(env, 0, env.at.trapAddr, u);
    assert u0.x[0 := u.trap] == u1.x;
    assert Step(env, Ldr(W, 0, TrapType(0)), u0) == u1;
    RunTwo(env, MovA(0, env.at.trapAddr), Ldr(W, 0, TrapType(0)), u);
  }

  lemma LdpRuns<G>(env: Env<G>, u: Host<G>)
    requires Running(u) && u.sp in u.stack && u.sp + 8 in u.stack
    ensures Run(env, [Ldp(29, 30, 0)], u) == u.(x := u.x[29 := u.stack[u.sp]][30 := u.stack[u.sp + 8]])
  {
    StepLdp(env, 29, 30, 0, u);
    RunOne(env, Ldp(29, 30, 0), u);
  }

  /** x29 and x30 come back from the frame, then the trap test finds zero. */
  lemma ReturnTail<G>(env: Env<G>, slot: nat, fail: Label, u: Host<G>)
    requires Running(u) && u.sp in u.stack && u.sp + 8 in u.stack
    requires u.sp + slot in u.stack && Wrap32(u.stack[u.sp + slot]) == 0
    ensures Run(env, [Ldp(29, 30, 0)] + [Ldr(W, 0, Slot(slot)), Cbnz(W, 0, fail)], u)
         == u.(x := u.x[29 := u.stack[u.sp]][30 := u.stack[u.sp + 8]][0 := 0])
  {
    var p2, p3 := [Ldp(29, 30, 0)], [Ldr(W, 0, Slot(slot)), Cbnz(W, 0, fail)];
    RunAppend(env, p2, p3, u);
    LdpRuns(env, u);
    var u1 := u.(x := u.x[29 := u.stack[u.sp]][30 := u.stack[u.sp + 8]]);
    NoTrapRuns(env, slot, fail, u1);
  }

  lemma NoTrapRuns<G>(env: Env<G>, slot: nat, fail: Label, u: Host<G>)
    requires Running(u) && u.sp + slot in u.stack && Wrap32(u.stack[u.sp + slot]) == 0
    ensures Run(env, [Ldr(W, 0, Slot(slot)), Cbnz(W, 0, fail)], u) == u.(x := u.x[0 := 0])
  {
    var u1 := u.(x := u.x[0 := 0]);
    assert Step(env, Ldr(W, 0, Slot(slot)), u) == u1;
    assert Step(env, Cbnz(W, 0, fail), u1) == u1;
    RunsTwo(env, Ldr(W, 0, Slot(slot)), Cbnz(W, 0, fail), u, u1, u1);
  }

  lemma RestoreAllRuns<G>(env: Env<G>, s: Host<G>)
    requires InBlock(env, s)
    ensures var f := Run(env, RestoreVolatile(), s);
            && f == s.(x := f.x)
            && (forall i :: 0 <= i < 19 ==> f.x[i] == s.cells[GuestOf(i)])
            && (forall i :: 19 <= i < 31 ==> f.x[i] == s.x[i])
  {
    RestoreVolatileRuns(env, 19, s);
    assert RestoreVolatile()[..19] == RestoreVolatile();
  }

  lemma ReturnFrom<G>(env: Env<G>, slot: nat, fail: Label, frame: nat, s: Host<G>, u: Host<G>, u1: Host<G>)
    requires Framed(env, frame, s, u)
    requires u.sp + slot in u.stack && Wrap32(u.stack[u.sp + slot]) == 0
    requires |u1.x| == 31 && u1 == u.(x := u1.x)
    requires forall i :: 19 <= i < 31 ==> u1.x[i] == u.x[i]
    ensures var f := Run(env, [Ldp(29, 30, 0)] + [Ldr(W, 0, Slot(slot)), Cbnz(W, 0, fail)], u1);
            && f == u.(x := f.x)
            && (forall i :: 1 <= i < 19 ==> f.x[i] == u1.x[i])
            && (forall i :: 19 <= i < 31 ==> f.x[i] == s.x[i])
  {
    ReturnTail(env, slot, fail, u1);
  }

  /** Without a trap the way back restores every guest register and falls through. */
  lemma ReturnRuns<G>(env: Env<G>, slot: nat, fail: Label, frame: nat, s: Host<G>, u: Host<G>)
    requires Framed(env, frame, s, u)
    requires u.sp + slot in u.stack && Wrap32(u.stack[u.sp + slot]) == 0
    ensures var f := Run(env, Return(slot, fail), u);
            && f == u.(x := f.x)
            && (forall i :: 1 <= i < 19 ==> f.x[i] == u.cells[GuestOf(i)])
            && (forall i :: 19 <= i < 31 ==> f.x[i] == s.x[i])
  {
    RunAppend(env, RestoreVolatile(), [Ldp(29, 30, 0)] + [Ldr(W, 0, Slot(slot)), Cbnz(W, 0, fail)], u);
    RestoreAllRuns(env, u);
    ReturnFrom(env, slot, fail, frame, s, u, Run(env, RestoreVolatile(), u));
  }

  /** On the non-trapping path the failure code is skipped. */
  lemma FailPathSkipped<G>(env: Env<G>, frame: nat, fail: Label, end: Label, u: Host<G>)
    requires Running(u) && fail != end
    ensures Run(env, FailPath(frame, fail, end), u) == u
  {
    var p1, p2 := [B(end), Bind(fail)], [Ldr(X, 0, XregCell(10)), AddSp(frame), Exit];
    RunParts(env, p1, p2, [Bind(end)], u);
    TakenRuns(env, fail, end, u);
    var u1 := u.(skip := To(end));
    RunSkipped(env, p2, u1);
    RunOne(env, Bind(end), u1);
  }

  /** x29 and x30 parked at the foot of a new frame. */
  lemma OpenFrame<G>(env: Env<G>, frame: nat, s: Host<G>)
    requires InBlock(env, s)
    ensures Run(env, [SubSp(frame), Stp(29, 30, 0)], s)
         == s.(sp := s.sp - frame, stack := s.stack[s.sp - frame := s.x[29]][s.sp - frame + 8 := s.x[30]])
  {
    var s1 := s.(sp := s.sp - frame);
    StepSubSp(env, frame, s);
    StepStp(env, 29, 30, 0, s1);
    RunTwo(env, SubSp(frame), Stp(29, 30, 0), s);
  }

  lemma BackRuns<G>(env: Env<G>, frame: nat, slot: nat, l: Label, s: Host<G>, u: Host<G>)
    requires Framed(env, frame, s, u) && 16 <= slot && u.trap == TRAP_NONE && slot + 8 <= frame
    ensures var f := Run(env, TestTrap(env.at.trapAddr, slot) + Return(slot, l), u);
            && |f.x| == 31 && f == u.(x := f.x, stack := f.stack)
            && (forall a :: a in u.stack && a != u.sp + slot ==> a in f.stack && f.stack[a] == u.stack[a])
            && (forall i :: 1 <= i < 19 ==> f.x[i] == u.cells[GuestOf(i)])
            && (forall i :: 19 <= i < 31 ==> f.x[i] == s.x[i])
  {
    RunAppend(env, TestTrap(env.at.trapAddr, slot), Return(slot, l), u);
    TestTrapRuns(env, slot, u);
    ReturnRuns(env, slot, l, frame, s, Run(env, TestTrap(env.at.trapAddr, slot), u));
  }

  // ----- loads -----

  function LoadOutcome<G>(env: Env<G>, info: DecodeInfo, g: Guest<G>): LoadResult<G>
    requires |g.xregs| == 32
  {
    env.load(g.ram, EffectiveAddress(info, g.xregs[info.rs1]), Wrap64(info.memSize))
  }

  function LoadedGuest<G>(env: Env<G>, info: DecodeInfo, g: Guest<G>): Guest<G>
    requires |g.xregs| == 32 && IsLoad(info.token)
  {
    var r := LoadOutcome(env, info, g);
    SetReg(g.(ram := r.ram), info.rd, LoadValue(info.token, r.value))
  }

  lemma AddressInX1Runs<G>(env: Env<G>, info: DecodeInfo, g: Guest<G>, s: Host<G>)
    requires InBlock(env, s) && Match(g, s)
    ensures Run(env, AddressInX1(info), s)
         == s.(x := s.x[1 := EffectiveAddress(info, g.xregs[info.rs1])][2 := Wrap64(info.imm)])
  {
    var i1 := if InMemory(info.rs1) then Ldr(X, 1, XregCell(info.rs1)) else MovR(X, 1, Home(info.rs1));
    var p2 := [MovI(X, 2, info.imm), Alu(Add, X, 1, 1, 2)];
    RunAppend(env, [i1], p2, s);
    RunOne(env, i1, s);
    if !InMemory(info.rs1) { MatchGet(g, s, info.rs1); }
    var a := g.xregs[info.rs1];
    var s1 := s.(x := s.x[1 := a]);
    assert Run(env, [i1], s) == s1;
    RunTwo(env, p2[0], p2[1], s1);
    AddWrapped(a, info.imm);
    assert s1.x[2 := Wrap64(info.imm)][1 := EffectiveAddress(info, a)] == s.x[1 := EffectiveAddress(info, a)][2 := Wrap64(info.imm)];
  }

  lemma LoadArgsRun<G>(env: Env<G>, info: DecodeInfo, s: Host<G>)
    requires InBlock(env, s)
    ensures Run(env, LoadArgsCode(info, env.at.trapAddr, env.at.loadFn), s)
         == s.(x := s.x[0 := env.at.cpu][2 := Wrap64(info.memSize)][3 := env.at.trapAddr][4 := env.at.loadFn])
  {
    var p1, p2 := [MovR(X, 0, 29), MovI(X, 2, info.memSize)], [MovA(3, env.at.trapAddr), MovA(4, env.at.loadFn)];
    RunAppend(env, p1, p2, s);
    RunTwo(env, p1[0], p1[1], s);
    var s1 := s.(x := s.x[0 := env.at.cpu][2 := Wrap64(info.memSize)]);
    assert Run(env, p1, s) == s1;
    RunTwo(env, p2[0], p2[1], s1);
  }

  /** The call itself, and its result parked in the frame. */
  lemma LoadCallRuns<G>(env: Env<G>, s: Host<G>)
    requires InBlock(env, s)
    requires s.x[0] == env.at.cpu && s.x[3] == env.at.trapAddr && s.x[4] == env.at.loadFn
    ensures var f := Run(env, [Blr(4), Str(X, 0, Slot(24))], s);
            var r := env.load(s.ram, s.x[1], s.x[2]);
            && |f.x| == 31 && (forall i :: 19 <= i < 30 ==> f.x[i] == s.x[i])
            && f == s.(x := f.x, flags := f.flags, calls := f.calls, ram := r.ram, trap := r.trap,
                       stack := s.stack[s.sp + 24 := r.value])
  {
    var s1 := Call(env, s, env.at.loadFn);
    assert Step(env, Blr(4), s) == s1;
    StepStrSlot(env, 0, 24, s1);
    RunTwo(env, Blr(4), Str(X, 0, Slot(24)), s);
  }

  /** The state in which MmuLoad is called. */
  function LoadCallState<G>(env: Env<G>, info: DecodeInfo, g: Guest<G>, s: Host<G>): Host<G>
    requires Shape(s) && |g.xregs| == 32
  {
    s.(sp := s.sp - 32,
       stack := s.stack[s.sp - 32 := s.x[29]][s.sp - 24 := s.x[30]],
       x := s.x[0 := env.at.cpu][1 := EffectiveAddress(info, g.xregs[info.rs1])][2 := Wrap64(info.memSize)]
               [3 := env.at.trapAddr][4 := env.at.loadFn])
  }

  lemma LoadSetup<G>(env: Env<G>, info: DecodeInfo, g: Guest<G>, s: Host<G>)
    requires InBlock(env, s) && Match(g, s)
    ensures Run(env, [SubSp(32), Stp(29, 30, 0)] + AddressInX1(info) + LoadArgsCode(info, env.at.trapAddr, env.at.loadFn), s)
         == LoadCallState(env, info, g, s)
  {
    var p1, p2, p3 := [SubSp(32), Stp(29, 30, 0)], AddressInX1(info), LoadArgsCode(info, env.at.trapAddr, env.at.loadFn);
    RunAppend(env, p1 + p2, p3, s);
    RunAppend(env, p1, p2, s);
    OpenFrame(env, 32, s);
    var s1 := s.(sp := s.sp - 32, stack := s.stack[s.sp - 32 := s.x[29]][s.sp - 24 := s.x[30]]);
    AddressInX1Runs(env, info, g, s1);
    var s2 := s1.(x := s1.x[1 := EffectiveAddress(info, g.xregs[info.rs1])][2 := Wrap64(info.imm)]);
    LoadArgsRun(env, info, s2);
    assert s2.x[0 := env.at.cpu][2 := Wrap64(info.memSize)][3 := env.at.trapAddr][4 := env.at.loadFn]
        == LoadCallState(env, info, g, s).x;
  }

  /** The load has been made: the frame is intact, and its outcome is in the trap record and in the slot at 24. */
  ghost predicate LoadCalled<G>(env: Env<G>, info: DecodeInfo, g: Guest<G>, s: Host<G>, u: Host<G>)
    requires |g.xregs| == 32
  {
    var r := LoadOutcome(env, info, g);
    && Framed(env, 32, s, u) && u.cells == s.cells && u.ram == r.ram && u.trap == r.trap
    && u.sp + 24 in u.stack && u.stack[u.sp + 24] == r.value
  }

  lemma LoadCallFrames<G>(env: Env<G>, info: DecodeInfo, g: Guest<G>, s: Host<G>, u: Host<G>)
    requires InBlock(env, s) && Match(g, s)
    requires u == Run(env, [Blr(4), Str(X, 0, Slot(24))], LoadCallState(env, info, g, s))
    ensures LoadCalled(env, info, g, s, u)
  {
    LoadCallRuns(env, LoadCallState(env, info, g, s));
  }

  lemma LoadCallPhase<G>(env: Env<G>, info: DecodeInfo, g: Guest<G>, s: Host<G>)
    requires InBlock(env, s) && Match(g, s)
    ensures LoadCalled(env, info, g, s, Run(env, LoadCallCode(info, env.at.trapAddr, env.at.loadFn), s))
  {
    var p := [SubSp(32), Stp(29, 30, 0)] + AddressInX1(info) + LoadArgsCode(info, env.at.trapAddr, env.at.loadFn);
    RunAppend(env, p, [Blr(4), Str(X, 0, Slot(24))], s);
    LoadSetup(env, info, g, s);
    LoadCallFrames(env, info, g, s, Run(env, LoadCallCode(info, env.at.trapAddr, env.at.loadFn), s));
  }

  lemma SignExtendRuns<G>(env: Env<G>, t: Token, s: Host<G>)
    requires Running(s) && IsLoad(t)
    ensures Run(env, SignExtendSelect(t), s) == s.(x := s.x[0 := LoadValue(t, s.x[0])])
  {
    if t in {LB, LH, LW} {
      RunOne(env, SignExtendSelect(t)[0], s);
    } else {
      assert s.x[0 := s.x[0]] == s.x;
    }
  }

  /** Write back a value sitting in x0: guest cell, x0 recovered, frame freed, home reloaded. */
  lemma WriteBackRuns<G>(env: Env<G>, rd: Reg, s: Host<G>)
    requires InBlock(env, s)
    ensures var code := [Str(X, 0, XregCell(rd)), Ldr(X, 0, XregCell(10)), AddSp(32)]
                        + (if InMemory(rd) then [] else [Ldr(X, Home(rd), XregCell(rd))]);
            var cells := s.cells[rd := s.x[0]];
            var x := s.x[0 := cells[10]];
            Run(env, code, s) == s.(cells := cells, sp := s.sp + 32,
                                    x := if InMemory(rd) || rd == 0 then x else x[Home(rd) := s.x[0]])
  {
    var p1 := [Str(X, 0, XregCell(rd)), Ldr(X, 0, XregCell(10)), AddSp(32)];
    var p2 := if InMemory(rd) then [] else [Ldr(X, Home(rd), XregCell(rd))];
    RunAppend(env, p1, p2, s);
    var s1 := s.(cells := s.cells[rd := s.x[0]]);
    StepStrCell(env, 0, rd, s);
    var s2 := s1.(x := s.x[0 := s1.cells[10]]);
    StepLdrCell(env, 0, 10, s1);
    StepAddSp(env, 32, s2);
    RunThree(env, p1[0], p1[1], p1[2], s);
    if !InMemory(rd) {
      HomeRange(rd);
      StepLdrCell(env, Home(rd), rd, s2.(sp := s.sp + 32));
      RunOne(env, p2[0], s2.(sp := s.sp + 32));
    }
  }

  lemma LoadValueRuns<G>(env: Env<G>, t: Token, s: Host<G>)
    requires InBlock(env, s) && IsLoad(t) && s.sp + 24 in s.stack
    ensures Run(env, [Ldr(X, 0, Slot(24))] + SignExtendSelect(t), s)
         == s.(x := s.x[0 := LoadValue(t, s.stack[s.sp + 24])])
  {
    RunAppend(env, [Ldr(X, 0, Slot(24))], SignExtendSelect(t), s);
    StepLdrSlot(env, 0, 24, s);
    RunOne(env, Ldr(X, 0, Slot(24)), s);
    var s1 := s.(x := s.x[0 := s.stack[s.sp + 24]]);
    SignExtendRuns(env, t, s1);
  }

  lemma LoadResultRuns<G>(env: Env<G>, info: DecodeInfo, s: Host<G>)
    requires InBlock(env, s) && IsLoad(info.token) && s.sp + 24 in s.stack
    ensures var v := LoadValue(info.token, s.stack[s.sp + 24]);
            var cells := s.cells[info.rd := v];
            var x := s.x[0 := cells[10]];
            Run(env, LoadResultCode(info), s)
            == s.(cells := cells, sp := s.sp + 32,
                  x := if InMemory(info.rd) || info.rd == 0 then x else x[Home(info.rd) := v])
  {
    var p1 := [Ldr(X, 0, Slot(24))] + SignExtendSelect(info.token);
    var p2 := [Str(X, 0, XregCell(info.rd)), Ldr(X, 0, XregCell(10)), AddSp(32)]
              + (if InMemory(info.rd) then [] else [Ldr(X, Home(info.rd), XregCell(info.rd))]);
    RunAppend(env, p1, p2, s);
    LoadValueRuns(env, info.token, s);
    var v := LoadValue(info.token, s.stack[s.sp + 24]);
    WriteBackRuns(env, info.rd, s.(x := s.x[0 := v]));
    assert s.x[0 := v][0 := s.cells[info.rd := v][10]] == s.x[0 := s.cells[info.rd := v][10]];
  }

  /** Guest state once a load's result has been written back. */
  lemma LoadSettles<G>(env: Env<G>, info: DecodeInfo, g: Guest<G>, s: Host<G>, u: Host<G>, b: Host<G>, f: Host<G>)
    requires InBlock(env, s) && Match(g, s) && IsLoad(info.token)
    requires Framed(env, 32, s, u) && CellsHold(g, u.cells)
    requires |b.x| == 31 && b == u.(x := b.x, stack := b.stack)
    requires forall a :: a in u.stack && a != u.sp + 16 ==> a in b.stack && b.stack[a] == u.stack[a]
    requires forall i :: 1 <= i < 19 ==> b.x[i] == u.cells[GuestOf(i)]
    requires forall i :: 19 <= i < 31 ==> b.x[i] == s.x[i]
    requires var r := LoadOutcome(env, info, g);
             var v := LoadValue(info.token, r.value);
             var cells := b.cells[info.rd := v];
             var x := b.x[0 := cells[10]];
             && u.ram == r.ram && u.sp + 24 in u.stack && u.stack[u.sp + 24] == r.value
             && f == b.(cells := cells, sp := b.sp + 32,
                        x := if InMemory(info.rd) || info.rd == 0 then x else x[Home(info.rd) := v])
    ensures Settles(s, f) && Match(LoadedGuest(env, info, g), f)
  {
    var v := LoadValue(info.token, LoadOutcome(env, info, g).value);
    var g' := LoadedGuest(env, info, g);
    assert GuestOf(0) == 10;
    if !InMemory(info.rd) { HomeRange(info.rd); }
    forall i | 0 <= i < 29 ensures f.x[i] == g'.xregs[GuestOf(i)] {
      HomeOfMapped(i);
    }
  }

  lemma LoadFinishes<G>(env: Env<G>, info: DecodeInfo, l: Label, g: Guest<G>, s: Host<G>, u: Host<G>)
    requires InBlock(env, s) && Match(g, s) && CellsHold(g, s.cells) && IsLoad(info.token)
    requires LoadCalled(env, info, g, s, u) && u.trap == TRAP_NONE
    ensures var f := Run(env, LoadResultCode(info), Run(env, TestTrap(env.at.trapAddr, 16) + Return(16, l), u));
            Settles(s, f) && Match(LoadedGuest(env, info, g), f)
  {
    BackRuns(env, 32, 16, l, s, u);
    var b := Run(env, TestTrap(env.at.trapAddr, 16) + Return(16, l), u);
    LoadResultRuns(env, info, b);
    LoadSettles(env, info, g, s, u, b, Run(env, LoadResultCode(info), b));
  }

  lemma LoadFromSaved<G>(env: Env<G>, info: DecodeInfo, l: Label, g: Guest<G>, s: Host<G>)
    requires InBlock(env, s) && Match(g, s) && CellsHold(g, s.cells) && IsLoad(info.token)
    requires LoadOutcome(env, info, g).trap == TRAP_NONE
    ensures var f := Run(env, LoadResultCode(info), Run(env, TestTrap(env.at.trapAddr, 16) + Return(16, l),
                         Run(env, LoadCallCode(info, env.at.trapAddr, env.at.loadFn), s)));
            Settles(s, f) && Match(LoadedGuest(env, info, g), f)
  {
    LoadCallPhase(env, info, g, s);
    LoadFinishes(env, info, l, g, s, Run(env, LoadCallCode(info, env.at.trapAddr, env.at.loadFn), s));
  }

  /** A non-trapping load reaches the memory system as the interpreter's does and changes rd alone. */
  lemma LoadRuns<G>(env: Env<G>, info: DecodeInfo, l: Label, g: Guest<G>, s: Host<G>)
    requires InBlock(env, s) && Match(g, s) && IsLoad(info.token)
    requires LoadOutcome(env, info, g).trap == TRAP_NONE
    ensures var f := Run(env, LoadCode(info, l, env.at.trapAddr, env.at.loadFn), s);
            Settles(s, f) && Match(LoadedGuest(env, info, g), f)
  {
    var p2, p3 := LoadCallCode(info, env.at.trapAddr, env.at.loadFn), TestTrap(env.at.trapAddr, 16) + Return(16, l);
    RunFive(env, SaveVolatile(), p2, p3, LoadResultCode(info), FailPath(32, l, l + 1), s);
    SaveHolds(env, g, s);
    var s1 := Run(env, SaveVolatile(), s);
    LoadFromSaved(env, info, l, g, s1);
    FailPathSkipped(env, 32, l, l + 1, Run(env, LoadResultCode(info), Run(env, p3, Run(env, p2, s1))));
  }

  // ----- stores -----

  /** The address the emitted code passes: the immediate is put into x0, which is also a0's home. */
  function EmittedAddress<G>(info: DecodeInfo, g: Guest<G>): Word
    requires |g.xregs| == 32
  {
    if info.rs1 == 10 then Wrap64(Wrap64(info.imm) + Wrap64(info.imm)) else EffectiveAddress(info, g.xregs[info.rs1])
  }

  function StoreOutcome<G>(env: Env<G>, info: DecodeInfo, g: Guest<G>): StoreResult<G>
    requires |g.xregs| == 32
  {
    env.store(g.ram, EmittedAddress(info, g), Wrap64(info.memSize), g.xregs[info.rs2])
  }

  lemma DataToSlotRuns<G>(env: Env<G>, info: DecodeInfo, g: Guest<G>, s: Host<G>)
    requires InBlock(env, s) && Match(g, s) && CellsHold(g, s.cells)
    ensures Run(env, DataToSlot(info), s) == s.(stack := s.stack[s.sp + 24 := g.xregs[info.rs2]])
  {
    if InMemory(info.rs2) {
      StepLdrCell(env, 0, info.rs2, s);
      var s1 := s.(x := s.x[0 := s.cells[info.rs2]]);
      StepStrSlot(env, 0, 24, s1);
      var s2 := s1.(stack := s.stack[s.sp + 24 := s.cells[info.rs2]]);
      StepLdrCell(env, 0, 10, s2);
      RunThree(env, Ldr(X, 0, XregCell(info.rs2)), Str(X, 0, Slot(24)), Ldr(X, 0, XregCell(10)), s);
      assert GuestOf(0) == 10;
      assert s.x[0 := s.cells[info.rs2]][0 := s.cells[10]] == s.x;
    } else {
      MatchGet(g, s, info.rs2);
      StepStrSlot(env, Home(info.rs2), 24, s);
      RunOne(env, Str(X, Home(info.rs2), Slot(24)), s);
    }
  }

  lemma AddressInX0Runs<G>(env: Env<G>, info: DecodeInfo, g: Guest<G>, s: Host<G>)
    requires InBlock(env, s) && Match(g, s)
    ensures var f := Run(env, AddressInX0(info), s);
            |f.x| == 31 && f == s.(x := f.x) && f.x[0] == EmittedAddress(info, g) && (forall i :: 2 <= i < 31 ==> f.x[i] == s.x[i])
  {
    AddWrapped(g.xregs[info.rs1], info.imm);
    if InMemory(info.rs1) {
      StepLdrCell(env, 0, info.rs1, s);
      var s1 := s.(x := s.x[0 := s.cells[info.rs1]]);
      StepMovI(env, 1, info.imm, s1);
      RunThree(env, Ldr(X, 0, XregCell(info.rs1)), MovI(X, 1, info.imm), Alu(Add, X, 0, 0, 1), s);
    } else {
      HomeRange(info.rs1);
      MatchGet(g, s, info.rs1);
      StepMovI(env, 0, info.imm, s);
      RunTwo(env, MovI(X, 0, info.imm), Alu(Add, X, 0, 0, Home(info.rs1)), s);
    }
  }

  lemma StoreArgsHead<G>(env: Env<G>, info: DecodeInfo, s: Host<G>)
    requires InBlock(env, s) && s.sp + 24 in s.stack
    ensures Run(env, [Str(X, 0, Slot(16)), MovR(X, 0, 29)] + [Ldr(X, 1, Slot(16)), MovI(X, 2, info.memSize)], s)
         == s.(stack := s.stack[s.sp + 16 := s.x[0]], x := s.x[0 := env.at.cpu][1 := s.x[0]][2 := Wrap64(info.memSize)])
  {
    var p1, p2 := [Str(X, 0, Slot(16)), MovR(X, 0, 29)], [Ldr(X, 1, Slot(16)), MovI(X, 2, info.memSize)];
    RunAppend(env, p1, p2, s);
    StepStrSlot(env, 0, 16, s);
    var s1 := s.(stack := s.stack[s.sp + 16 := s.x[0]]);
    var s2 := s1.(x := s.x[0 := env.at.cpu]);
    assert Step(env, MovR(X, 0, 29), s1) == s2;
    RunTwo(env, p1[0], p1[1], s);
    StepLdrSlot(env, 1, 16, s2);
    var s3 := s2.(x := s2.x[1 := s.x[0]]);
    StepMovI(env, 2, info.memSize, s3);
    RunTwo(env, p2[0], p2[1], s2);
  }

  lemma StoreArgsTail<G>(env: Env<G>, s: Host<G>)
    requires InBlock(env, s) && s.sp + 24 in s.stack
    ensures Run(env, [Ldr(X, 3, Slot(24)), MovA(4, env.at.trapAddr)] + [MovA(5, env.at.storeFn)], s)
         == s.(x := s.x[3 := s.stack[s.sp + 24]][4 := env.at.trapAddr][5 := env.at.storeFn])
  {
    var p1, p2 := [Ldr(X, 3, Slot(24)), MovA(4, env.at.trapAddr)], [MovA(5, env.at.storeFn)];
    RunAppend(env, p1, p2, s);
    StepLdrSlot(env, 3, 24, s);
    var s1 := s.(x := s.x[3 := s.stack[s.sp + 24]]);
    StepMovA(env, 4, env.at.trapAddr, s1);
    RunTwo(env, p1[0], p1[1], s);
    var s2 := s1.(x := s1.x[4 := env.at.trapAddr]);
    StepMovA(env, 5, env.at.storeFn, s2);
    RunOne(env, p2[0], s2);
  }

  /** The registers with MmuStore's arguments in place. */
  ghost predicate StoreReady<G>(env: Env<G>, info: DecodeInfo, addr: Word, data: Word, s: Host<G>, u: Host<G>) {
    && Shape(s) && |u.x| == 31 && u == s.(x := u.x, stack := s.stack[s.sp + 16 := addr])
    && u.x[0] == env.at.cpu && u.x[1] == addr && u.x[2] == Wrap64(info.memSize)
    && u.x[3] == data && u.x[4] == env.at.trapAddr && u.x[5] == env.at.storeFn
    && (forall i :: 6 <= i < 31 ==> u.x[i] == s.x[i])
  }

  lemma StoreArgsRun<G>(env: Env<G>, info: DecodeInfo, s: Host<G>)
    requires InBlock(env, s) && s.sp + 24 in s.stack
    ensures StoreReady(env, info, s.x[0], s.stack[s.sp + 24], s, Run(env, StoreArgsCode(info, env.at.trapAddr, env.at.storeFn), s))
  {
    RunAppend(env, [Str(X, 0, Slot(16)), MovR(X, 0, 29)] + [Ldr(X, 1, Slot(16)), MovI(X, 2, info.memSize)],
              [Ldr(X, 3, Slot(24)), MovA(4, env.at.trapAddr)] + [MovA(5, env.at.storeFn)], s);
    StoreArgsHead(env, info, s);
    StoreArgsTail(env, s.(stack := s.stack[s.sp + 16 := s.x[0]], x := s.x[0 := env.at.cpu][1 := s.x[0]][2 := Wrap64(info.memSize)]));
  }

  lemma StoreCallRuns<G>(env: Env<G>, s: Host<G>)
    requires InBlock(env, s) && env.at.storeFn != env.at.loadFn
    requires s.x[0] == env.at.cpu && s.x[4] == env.at.trapAddr && s.x[5] == env.at.storeFn
    ensures StoreReturned(env, s, Run(env, [Blr(5)], s))
  {
    assert Step(env, Blr(5), s) == Call(env, s, env.at.storeFn);
    RunOne(env, Blr(5), s);
  }

  /** The frame of a store after its data slot is filled. */
  function StoreFrame<G>(info: DecodeInfo, g: Guest<G>, s: Host<G>): Host<G>
    requires Shape(s) && |g.xregs| == 32
  {
    s.(sp := s.sp - 48, stack := s.stack[s.sp - 48 := s.x[29]][s.sp - 40 := s.x[30]][s.sp - 24 := g.xregs[info.rs2]])
  }

  lemma StoreFrameIs<G>(info: DecodeInfo, g: Guest<G>, s: Host<G>, t: Host<G>)
    requires Shape(s) && |g.xregs| == 32
    requires t == s.(sp := s.sp - 48, stack := s.stack[s.sp - 48 := s.x[29]][s.sp - 40 := s.x[30]])
    ensures t.(stack := t.stack[t.sp + 24 := g.xregs[info.rs2]]) == StoreFrame(info, g, s)
  {
  }

  lemma MatchOpened<G>(g: Guest<G>, s: Host<G>, t: Host<G>)
    requires Match(g, s) && t == s.(sp := t.sp, stack := t.stack)
    ensures Match(g, t)
  {
  }

  lemma StoreOpens<G>(env: Env<G>, info: DecodeInfo, g: Guest<G>, s: Host<G>)
    requires InBlock(env, s) && Match(g, s) && CellsHold(g, s.cells)
    ensures Run(env, DataToSlot(info), Run(env, [SubSp(48), Stp(29, 30, 0)], s)) == StoreFrame(info, g, s)
  {
    OpenFrame(env, 48, s);
    var t := s.(sp := s.sp - 48, stack := s.stack[s.sp - 48 := s.x[29]][s.sp - 40 := s.x[30]]);
    MatchOpened(g, s, t);
    DataToSlotRuns(env, info, g, t);
    StoreFrameIs(info, g, s, t);
  }

  ghost predicate StoreCalled<G>(env: Env<G>, info: DecodeInfo, g: Guest<G>, s: Host<G>, u: Host<G>)
    requires |g.xregs| == 32
  {
    var r := StoreOutcome(env, info, g);
    Framed(env, 48, s, u) && u.cells == s.cells && u.ram == r.ram && u.trap == r.trap
  }

  /** The address is in x0 and the frame is open. */
  ghost predicate StoreAddressed<G>(info: DecodeInfo, g: Guest<G>, s: Host<G>, a: Host<G>) {
    && Shape(s) && |g.xregs| == 32 && |a.x| == 31 && a == StoreFrame(info, g, s).(x := a.x)
    && a.x[0] == EmittedAddress(info, g) && forall i :: 2 <= i < 31 ==> a.x[i] == s.x[i]
  }

  /** The callee has run from `b`. */
  ghost predicate StoreReturned<G>(env: Env<G>, b: Host<G>, c: Host<G>) {
    && |b.x| == 31 && |c.x| == 31 && (forall i :: 19 <= i < 30 ==> c.x[i] == b.x[i])
    && var r := env.store(b.ram, b.x[1], b.x[2], b.x[3]);
       c == b.(x := c.x, flags := c.flags, calls := c.calls, ram := r.ram, trap := r.trap)
  }

  lemma StoreCalledFrom<G>(env: Env<G>, info: DecodeInfo, g: Guest<G>, s: Host<G>, a: Host<G>, b: Host<G>, c: Host<G>)
    requires InBlock(env, s) && Match(g, s) && StoreAddressed(info, g, s, a)
    requires StoreReady(env, info, a.x[0], g.xregs[info.rs2], a, b) && StoreReturned(env, b, c)
    ensures StoreCalled(env, info, g, s, c)
  {
    assert c.stack == s.stack[s.sp - 48 := s.x[29]][s.sp - 40 := s.x[30]][s.sp - 24 := g.xregs[info.rs2]][s.sp - 32 := a.x[0]];
  }

  lemma StoreCalls<G>(env: Env<G>, info: DecodeInfo, g: Guest<G>, s: Host<G>, a: Host<G>)
    requires InBlock(env, s) && Match(g, s) && env.at.storeFn != env.at.loadFn && StoreAddressed(info, g, s, a)
    ensures StoreCalled(env, info, g, s, Run(env, [Blr(5)], Run(env, StoreArgsCode(info, env.at.trapAddr, env.at.storeFn), a)))
  {
    StoreArgsRun(env, info, a);
    var b := Run(env, StoreArgsCode(info, env.at.trapAddr, env.at.storeFn), a);
    StoreCallRuns(env, b);
    StoreCalledFrom(env, info, g, s, a, b, Run(env, [Blr(5)], b));
  }

  lemma StoreCallPhase<G>(env: Env<G>, info: DecodeInfo, g: Guest<G>, s: Host<G>)
    requires InBlock(env, s) && Match(g, s) && CellsHold(g, s.cells) && env.at.storeFn != env.at.loadFn
    ensures StoreCalled(env, info, g, s, Run(env, StoreCallCode(info, env.at.trapAddr, env.at.storeFn), s))
  {
    RunFive(env, [SubSp(48), Stp(29, 30, 0)], DataToSlot(info), AddressInX0(info),
            StoreArgsCode(info, env.at.trapAddr, env.at.storeFn), [Blr(5)], s);
    StoreOpens(env, info, g, s);
    AddressInX0Runs(env, info, g, StoreFrame(info, g, s));
    StoreCalls(env, info, g, s, Run(env, AddressInX0(info), StoreFrame(info, g, s)));
  }

  lemma StoreSettles<G>(env: Env<G>, info: DecodeInfo, g: Guest<G>, s: Host<G>, u: Host<G>, b: Host<G>)
    requires InBlock(env, s) && Match(g, s) && CellsHold(g, s.cells)
    requires StoreCalled(env, info, g, s, u)
    requires |b.x| == 31 && b == u.(x := b.x, stack := b.stack)
    requires forall a :: a in u.stack && a != u.sp + 32 ==> a in b.stack && b.stack[a] == u.stack[a]
    requires forall i :: 1 <= i < 19 ==> b.x[i] == u.cells[GuestOf(i)]
    requires forall i :: 19 <= i < 31 ==> b.x[i] == s.x[i]
    ensures var f := Run(env, [Ldr(X, 0, XregCell(10)), AddSp(48)], b);
            Settles(s, f) && Match(g.(ram := StoreOutcome(env, info, g).ram), f)
  {
    StepLdrCell(env, 0, 10, b);
    var b1 := b.(x := b.x[0 := b.cells[10]]);
    StepAddSp(env, 48, b1);
    RunTwo(env, Ldr(X, 0, XregCell(10)), AddSp(48), b);
    assert GuestOf(0) == 10;
    var f := b1.(sp := b1.sp + 48);
    forall i | 0 <= i < 29 ensures f.x[i] == g.xregs[GuestOf(i)] { }
  }

  lemma StoreFromSaved<G>(env: Env<G>, info: DecodeInfo, l: Label, g: Guest<G>, s: Host<G>)
    requires InBlock(env, s) && Match(g, s) && CellsHold(g, s.cells) && env.at.storeFn != env.at.loadFn
    requires StoreOutcome(env, info, g).trap == TRAP_NONE
    ensures var f := Run(env, [Ldr(X, 0, XregCell(10)), AddSp(48)], Run(env, TestTrap(env.at.trapAddr, 32) + Return(32, l),
                         Run(env, StoreCallCode(info, env.at.trapAddr, env.at.storeFn), s)));
            Settles(s, f) && Match(g.(ram := StoreOutcome(env, info, g).ram), f)
  {
    StoreCallPhase(env, info, g, s);
    var u := Run(env, StoreCallCode(info, env.at.trapAddr, env.at.storeFn), s);
    BackRuns(env, 48, 32, l, s, u);
    StoreSettles(env, info, g, s, u, Run(env, TestTrap(env.at.trapAddr, 32) + Return(32, l), u));
  }

  /** A non-trapping store passes size and data as the interpreter does, and changes no guest register. */
  lemma StoreRuns<G>(env: Env<G>, info: DecodeInfo, l: Label, g: Guest<G>, s: Host<G>)
    requires InBlock(env, s) && Match(g, s) && env.at.storeFn != env.at.loadFn
    requires StoreOutcome(env, info, g).trap == TRAP_NONE
    ensures var f := Run(env, StoreCode(info, l, env.at.trapAddr, env.at.storeFn), s);
            Settles(s, f) && Match(g.(ram := StoreOutcome(env, info, g).ram), f)
  {
    var p2, p3 := StoreCallCode(info, env.at.trapAddr, env.at.storeFn), TestTrap(env.at.trapAddr, 32) + Return(32, l);
    var p4 := [Ldr(X, 0, XregCell(10)), AddSp(48)];
    RunFive(env, SaveVolatile(), p2, p3, p4, FailPath(48, l, l + 1), s);
    SaveHolds(env, g, s);
    var s1 := Run(env, SaveVolatile(), s);
    StoreFromSaved(env, info, l, g, s1);
    FailPathSkipped(env, 48, l, l + 1, Run(env, p4, Run(env, p3, Run(env, p2, s1))));
  }
}
