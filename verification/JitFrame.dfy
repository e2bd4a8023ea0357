/** The prolog and epilog of a translated block. */
module JitFrame {
  import opened Words
  import opened A64
  import opened JitCode
  import opened JitSelect
  import opened JitSpill
  import opened JitSim

  /** The first `n` host registers are saved at the foot of the frame. */
  ghost predicate Saved<G>(host: seq<Word>, n: nat, s: Host<G>) {
    && |host| == 31 && n <= 31
    && forall i :: 0 <= i < n ==> s.sp + 8 * i in s.stack && s.stack[s.sp + 8 * i] == host[i]
  }

  lemma SavedTwoMore<G>(host: seq<Word>, i: nat, u: Host<G>, f: Host<G>)
    requires Saved(host, i, u) && i + 1 < 31
    requires f == u.(stack := u.stack[u.sp + 8 * i := host[i]][u.sp + 8 * i + 8 := host[i + 1]])
    ensures Saved(host, i + 2, f)
    ensures forall a :: a in u.stack && a >= u.sp + 256 ==> a in f.stack && f.stack[a] == u.stack[a]
  {
  }

  lemma SavePair<G>(env: Env<G>, i: nat, host: seq<Word>, u: Host<G>)
    requires Running(u) && i + 1 < 31 && u.x == host && Saved(host, i, u)
    ensures var f := Run(env, [Stp(i, i + 1, 8 * i)], u);
            && f == u.(stack := f.stack) && Saved(host, i + 2, f)
            && (forall a :: a in u.stack && a >= u.sp + 256 ==> a in f.stack && f.stack[a] == u.stack[a])
  {
    StepStp(env, i, i + 1, 8 * i, u);
    RunOne(env, Stp(i, i + 1, 8 * i), u);
    SavedTwoMore(host, i, u, Run(env, [Stp(i, i + 1, 8 * i)], u));
  }

  lemma SaveHostSnoc(n: nat, k: nat)
    requires 0 < n <= 15 && k == 2 * n - 2
    ensures SaveHost()[..n] == SaveHost()[..n - 1] + [Stp(k, k + 1, 8 * k)]
  {
  }

  lemma {:induction false} SaveHostRuns<G>(env: Env<G>, n: nat, s: Host<G>)
    requires Running(s) && n <= 15
    ensures var f := Run(env, SaveHost()[..n], s);
            && f == s.(stack := f.stack) && Saved(s.x, 2 * n, f)
            && (forall a :: a in s.stack && a >= s.sp + 256 ==> a in f.stack && f.stack[a] == s.stack[a])
    decreases n
  {
    if n > 0 {
      SaveHostRuns(env, n - 1, s);
      var u := Run(env, SaveHost()[..n - 1], s);
      var k := 2 * n - 2;
      SaveHostSnoc(n, k);
      RunAppend(env, SaveHost()[..n - 1], [Stp(k, k + 1, 8 * k)], s);
      SavePair(env, k, s.x, u);
    }
  }

  lemma SaveAllRuns<G>(env: Env<G>, s: Host<G>)
    requires Running(s)
    ensures var f := Run(env, SaveHost(), s);
            && f == s.(stack := f.stack) && Saved(s.x, 30, f)
            && (forall a :: a in s.stack && a >= s.sp + 256 ==> a in f.stack && f.stack[a] == s.stack[a])
  {
    SaveHostRuns(env, 15, s);
    assert SaveHost()[..15] == SaveHost();
  }

  lemma {:induction false} LoadGuestRuns<G>(env: Env<G>, n: nat, s: Host<G>)
    requires InBlock(env, s) && n <= 32
    ensures var f := Run(env, LoadGuest(n), s);
            && f == s.(x := f.x) && f.x[29] == s.x[29] && f.x[30] == s.x[30]
            && (forall i :: 0 <= i < 29 && GuestOf(i) < n ==> f.x[i] == s.cells[GuestOf(i)])
    decreases n
  {
    if n > 0 {
      LoadGuestRuns(env, n - 1, s);
      var u := Run(env, LoadGuest(n - 1), s);
      var p := if InMemory(n - 1) then [] else [Ldr(X, Home(n - 1), XregCell(n - 1))];
      RunAppend(env, LoadGuest(n - 1), p, s);
      if InMemory(n - 1) {
        forall i | 0 <= i < 29 ensures GuestOf(i) != n - 1 { HomeOfMapped(i); }
      } else {
        HomeRange(n - 1);
        StepLdrCell(env, Home(n - 1), n - 1, u);
        RunOne(env, p[0], u);
        forall i | 0 <= i < 29 && GuestOf(i) == n - 1 ensures i == Home(n - 1) { HomeOfMapped(i); }
      }
    }
  }

  lemma SavedLast<G>(host: seq<Word>, s: Host<G>, f: Host<G>)
    requires Saved(host, 30, s) && f.sp == s.sp && f.stack == s.stack[s.sp + 240 := host[30]]
    ensures Saved(host, 31, f)
  {
  }

  lemma PrologEnds<G>(env: Env<G>, s: Host<G>)
    requires Running(s) && Saved(s.x, 30, s)
    ensures var f := Run(env, [Str(X, 30, Slot(240)), MovA(29, env.at.cpu)], s);
            && f == s.(x := s.x[29 := env.at.cpu], stack := s.stack[s.sp + 240 := s.x[30]]) && Saved(s.x, 31, f)
  {
    StepStrSlot(env, 30, 240, s);
    var s1 := s.(stack := s.stack[s.sp + 240 := s.x[30]]);
    StepMovA(env, 29, env.at.cpu, s1);
    var s2 := s1.(x := s.x[29 := env.at.cpu]);
    RunsTwo(env, Str(X, 30, Slot(240)), MovA(29, env.at.cpu), s, s1, s2);
    SavedLast(s.x, s, s2);
  }

  /** On entry the guest registers are in the cells of the CPU object. */
  ghost predicate AtEntry<G>(g: Guest<G>, s: Host<G>) {
    Running(s) && GuestOk(g) && s.cells == g.xregs && s.pc == g.pc && s.ram == g.ram
  }

  /** Inside the block that was entered in state `s0`. */
  ghost predicate Entered<G>(env: Env<G>, s0: Host<G>, s: Host<G>) {
    && Shape(s0) && InBlock(env, s) && s.sp == s0.sp - 256 && Saved(s0.x, 31, s) && Above(s0, s)
  }

  lemma SavedFrame<G>(env: Env<G>, s0: Host<G>, s1: Host<G>, s2: Host<G>, s3: Host<G>)
    requires Running(s0) && s1 == s0.(sp := s0.sp - 256)
    requires s2 == s1.(stack := s2.stack)
    requires forall a :: a in s1.stack && a >= s1.sp + 256 ==> a in s2.stack && s2.stack[a] == s1.stack[a]
    requires s3 == s2.(x := s2.x[29 := env.at.cpu], stack := s2.stack[s2.sp + 240 := s2.x[30]]) && Saved(s2.x, 31, s3)
    ensures Entered(env, s0, s3) && s3 == s0.(x := s0.x[29 := env.at.cpu], sp := s0.sp - 256, stack := s3.stack)
  {
  }

  lemma PrologSaves<G>(env: Env<G>, s0: Host<G>)
    requires Running(s0)
    ensures var f := Run(env, [SubSp(256)] + SaveHost() + [Str(X, 30, Slot(240)), MovA(29, env.at.cpu)], s0);
            Entered(env, s0, f) && f == s0.(x := s0.x[29 := env.at.cpu], sp := s0.sp - 256, stack := f.stack)
  {
    var p3 := [Str(X, 30, Slot(240)), MovA(29, env.at.cpu)];
    RunParts(env, [SubSp(256)], SaveHost(), p3, s0);
    StepSubSp(env, 256, s0);
    RunOne(env, SubSp(256), s0);
    var s1 := s0.(sp := s0.sp - 256);
    SaveAllRuns(env, s1);
    var s2 := Run(env, SaveHost(), s1);
    PrologEnds(env, s2);
    SavedFrame(env, s0, s1, s2, Run(env, p3, s2));
  }

  lemma GuestLoaded<G>(env: Env<G>, g: Guest<G>, s0: Host<G>, s: Host<G>, f: Host<G>)
    requires AtEntry(g, s0) && Entered(env, s0, s) && s == s0.(x := s.x, sp := s.sp, stack := s.stack)
    requires |f.x| == 31 && f == s.(x := f.x) && f.x[29] == s.x[29] && f.x[30] == s.x[30]
    requires forall i :: 0 <= i < 29 && GuestOf(i) < 32 ==> f.x[i] == s.cells[GuestOf(i)]
    ensures Entered(env, s0, f) && Match(g, f) && f.instret == s0.instret
  {
  }

  lemma PrologRuns<G>(env: Env<G>, g: Guest<G>, s0: Host<G>)
    requires AtEntry(g, s0)
    ensures var f := Run(env, Prolog(env.at.cpu), s0);
            Entered(env, s0, f) && Match(g, f) && f.instret == s0.instret
  {
    var p := [SubSp(256)] + SaveHost() + [Str(X, 30, Slot(240)), MovA(29, env.at.cpu)];
    RunAppend(env, p, LoadGuest(|RV64_TO_A64|), s0);
    PrologSaves(env, s0);
    var s := Run(env, p, s0);
    LoadGuestRuns(env, |RV64_TO_A64|, s);
    GuestLoaded(env, g, s0, s, Run(env, LoadGuest(|RV64_TO_A64|), s));
  }

  // ----- epilog -----

  lemma CommitAdds<G>(env: Env<G>, delta: Word, s: Host<G>)
    requires InBlock(env, s)
    ensures Run(env, [MovA(0, delta), Ldr(X, 1, InstretCell), Alu(Add, X, 0, 0, 1)], s)
         == s.(x := s.x[0 := Wrap64(delta + s.instret)][1 := s.instret])
  {
    StepMovA(env, 0, delta, s);
    var s1 := s.(x := s.x[0 := delta]);
    var s2 := s1.(x := s1.x[1 := s.instret]);
    assert Step(env, Ldr(X, 1, InstretCell), s1) == s2;
    RunThree(env, MovA(0, delta), Ldr(X, 1, InstretCell), Alu(Add, X, 0, 0, 1), s);
    var v := Wrap64(delta + s.instret);
    assert s.x[0 := delta][1 := s.instret][0 := v] == s.x[0 := v][1 := s.instret];
  }

  lemma CommitStores<G>(env: Env<G>, frame: nat, s: Host<G>)
    requires InBlock(env, s) && s.sp in s.stack && s.sp + 8 in s.stack
    ensures Run(env, UnparkX0X1(frame), s)
         == s.(instret := s.x[0], x := s.x[0 := s.stack[s.sp]][1 := s.stack[s.sp + 8]], sp := s.sp + frame)
  {
    var s1 := s.(instret := s.x[0]);
    assert Step(env, Str(X, 0, InstretCell), s) == s1;
    StepLdp(env, 0, 1, 0, s1);
    var s2 := s1.(x := s.x[0 := s.stack[s.sp]][1 := s.stack[s.sp + 8]]);
    StepAddSp(env, frame, s2);
    RunThree(env, Str(X, 0, InstretCell), Ldp(0, 1, 0), AddSp(frame), s);
  }

  /** The host state while instret is being updated: x0 and x1 are parked below the stack pointer. */
  function Committing<G>(frame: nat, s: Host<G>): Host<G>
    requires Shape(s)
  {
    s.(sp := s.sp - frame, stack := s.stack[s.sp - frame := s.x[0]][s.sp - frame + 8 := s.x[1]])
  }

  lemma CommitOpens<G>(env: Env<G>, frame: nat, s: Host<G>)
    requires InBlock(env, s)
    ensures Run(env, ParkX0X1(frame), s) == Committing(frame, s)
  {
    StepSubSp(env, frame, s);
    StepStp(env, 0, 1, 0, s.(sp := s.sp - frame));
    RunTwo(env, SubSp(frame), Stp(0, 1, 0), s);
  }

  lemma CommitSettles<G>(frame: nat, s: Host<G>, delta: Word, f: Host<G>)
    requires Shape(s) && frame >= 16
    requires var c, v := Committing(frame, s), Wrap64(delta + s.instret);
             f == c.(x := c.x[0 := v][1 := s.instret][0 := c.stack[c.sp]][1 := c.stack[c.sp + 8]], instret := v, sp := c.sp + frame)
    ensures f == s.(instret := Wrap64(s.instret + delta), stack := f.stack) && Above(s, f)
  {
    var v := Wrap64(delta + s.instret);
    assert s.x[0 := v][1 := s.instret][0 := s.x[0]][1 := s.x[1]] == s.x;
  }

  lemma CommitRuns<G>(env: Env<G>, frame: nat, delta: Word, s: Host<G>)
    requires InBlock(env, s) && frame >= 16
    ensures var f := Run(env, CommitInstret(frame, delta), s);
            f == s.(instret := Wrap64(s.instret + delta), stack := f.stack) && Above(s, f)
  {
    RunParts(env, ParkX0X1(frame), [MovA(0, delta), Ldr(X, 1, InstretCell), Alu(Add, X, 0, 0, 1)], UnparkX0X1(frame), s);
    CommitOpens(env, frame, s);
    var c, v := Committing(frame, s), Wrap64(delta + s.instret);
    CommitAdds(env, delta, c);
    CommitStores(env, frame, c.(x := c.x[0 := v][1 := s.instret]));
    CommitSettles(frame, s, delta, Run(env, CommitInstret(frame, delta), s));
  }

  lemma {:induction false} StoreGuestRuns<G>(env: Env<G>, n: nat, s: Host<G>)
    requires InBlock(env, s) && n <= 32
    ensures var f := Run(env, StoreGuest(n), s);
            && f == s.(cells := f.cells)
            && forall r :: 0 <= r < 32 ==>
                 f.cells[r] == if r < n && !InMemory(r) then Get(s, Home(r)) else s.cells[r]
    decreases n
  {
    if n > 0 {
      StoreGuestRuns(env, n - 1, s);
      var u := Run(env, StoreGuest(n - 1), s);
      var p := if InMemory(n - 1) then [] else [Str(X, Home(n - 1), XregCell(n - 1))];
      RunAppend(env, StoreGuest(n - 1), p, s);
      if !InMemory(n - 1) {
        StepStrCell(env, Home(n - 1), n - 1, u);
        RunOne(env, p[0], u);
      }
    }
  }

  lemma RestorePair<G>(env: Env<G>, n: nat, host: seq<Word>, u: Host<G>)
    requires Running(u) && 0 < n <= 15 && Saved(host, 31, u)
    ensures Run(env, [Ldp(2 * n - 2, 2 * n - 1, 16 * n - 16)], u)
         == u.(x := u.x[2 * n - 2 := host[2 * n - 2]][2 * n - 1 := host[2 * n - 1]])
  {
    assert u.stack[u.sp + 8 * (2 * n - 2)] == host[2 * n - 2] && u.stack[u.sp + 8 * (2 * n - 1)] == host[2 * n - 1];
    StepLdp(env, 2 * n - 2, 2 * n - 1, 16 * n - 16, u);
    RunOne(env, Ldp(2 * n - 2, 2 * n - 1, 16 * n - 16), u);
  }

  /** `f` is `s` with the first `n` registers restored. */
  ghost predicate Restored<G>(host: seq<Word>, n: nat, s: Host<G>, f: Host<G>) {
    && |host| == 31 && |s.x| == 31 && |f.x| == 31 && n <= 31 && f == s.(x := f.x)
    && (forall i :: 0 <= i < n ==> f.x[i] == host[i])
    && (forall i :: n <= i < 31 ==> f.x[i] == s.x[i])
  }

  lemma RestoreStep<G>(env: Env<G>, n: nat, host: seq<Word>, s: Host<G>, u: Host<G>)
    requires Running(s) && 0 < n <= 15 && Saved(host, 31, s) && Restored(host, 2 * n - 2, s, u)
    ensures Restored(host, 2 * n, s, Run(env, [Ldp(2 * n - 2, 2 * n - 1, 16 * n - 16)], u))
  {
    RestorePair(env, n, host, u);
  }

  lemma {:induction false} RestoreHostRuns<G>(env: Env<G>, n: nat, host: seq<Word>, s: Host<G>)
    requires Running(s) && n <= 15 && Saved(host, 31, s)
    ensures Restored(host, 2 * n, s, Run(env, RestoreHost()[..n], s))
    decreases n
  {
    if n > 0 {
      RestoreHostRuns(env, n - 1, host, s);
      var i := Ldp(2 * n - 2, 2 * n - 1, 16 * n - 16);
      assert RestoreHost()[..n] == RestoreHost()[..n - 1] + [i];
      RunAppend(env, RestoreHost()[..n - 1], [i], s);
      RestoreStep(env, n, host, s, Run(env, RestoreHost()[..n - 1], s));
    }
  }

  lemma RestoreAllRuns<G>(env: Env<G>, host: seq<Word>, s: Host<G>)
    requires Running(s) && Saved(host, 31, s)
    ensures var f := Run(env, RestoreHost(), s);
            f == s.(x := f.x) && (forall i :: 0 <= i < 30 ==> f.x[i] == host[i])
  {
    RestoreHostRuns(env, 15, host, s);
    assert RestoreHost()[..15] == RestoreHost();
  }

  lemma LeaveRuns<G>(env: Env<G>, host: seq<Word>, s: Host<G>)
    requires Running(s) && Saved(host, 31, s) && forall i :: 0 <= i < 30 ==> s.x[i] == host[i]
    ensures Run(env, [Ldr(X, 30, Slot(240)), AddSp(256), Ret(30)], s) == s.(x := host, sp := s.sp + 256)
  {
    assert s.stack[s.sp + 8 * 30] == host[30];
    StepLdrSlot(env, 30, 240, s);
    var s1 := s.(x := s.x[30 := host[30]]);
    assert s1.x == host;
    StepAddSp(env, 256, s1);
    RunThree(env, Ldr(X, 30, Slot(240)), AddSp(256), Ret(30), s);
  }

  /** Leaving the block: guest registers in their cells, instret advanced, the host as it was on entry. */
  ghost predicate Left<G>(g: Guest<G>, delta: Word, s0: Host<G>, s: Host<G>, f: Host<G>) {
    && Running(f) && |f.x| == 31 && f.cells == g.xregs && f.pc == g.pc && f.ram == g.ram
    && f.instret == Wrap64(s.instret + delta)
    && f.x == s0.x && f.sp == s0.sp && Above(s0, f)
  }

  lemma StoredCells<G>(g: Guest<G>, s1: Host<G>, s2: Host<G>)
    requires Match(g, s1) && |s2.cells| == 32
    requires forall r :: 0 <= r < 32 ==> s2.cells[r] == if !InMemory(r) then Get(s1, Home(r)) else s1.cells[r]
    ensures s2.cells == g.xregs
  {
    forall r | 0 <= r < 32 ensures s2.cells[r] == g.xregs[r] {
      if !InMemory(r) { MatchGet(g, s1, r); }
    }
  }

  lemma LeaveFrom<G>(env: Env<G>, host: seq<Word>, s: Host<G>, r: Host<G>)
    requires Running(s) && Saved(host, 31, s)
    requires |r.x| == 31 && r == s.(x := r.x) && forall i :: 0 <= i < 30 ==> r.x[i] == host[i]
    ensures Run(env, [Ldr(X, 30, Slot(240)), AddSp(256), Ret(30)], r) == s.(x := host, sp := s.sp + 256)
  {
    LeaveRuns(env, host, r);
  }

  /** Restoring the host registers and the stack pointer. */
  lemma HostRestored<G>(env: Env<G>, host: seq<Word>, s: Host<G>)
    requires Running(s) && Saved(host, 31, s)
    ensures Run(env, [Ldr(X, 30, Slot(240)), AddSp(256), Ret(30)], Run(env, RestoreHost(), s)) == s.(x := host, sp := s.sp + 256)
  {
    RestoreAllRuns(env, host, s);
    LeaveFrom(env, host, s, Run(env, RestoreHost(), s));
  }

  lemma GuestStored<G>(env: Env<G>, g: Guest<G>, s: Host<G>)
    requires InBlock(env, s) && Match(g, s)
    ensures Run(env, StoreGuest(|RV64_TO_A64|), s) == s.(cells := g.xregs)
  {
    StoreGuestRuns(env, |RV64_TO_A64|, s);
    StoredCells(g, s, Run(env, StoreGuest(|RV64_TO_A64|), s));
  }

  lemma EpilogFrom<G>(env: Env<G>, g: Guest<G>, s0: Host<G>, s: Host<G>, s1: Host<G>)
    requires Entered(env, s0, s) && Match(g, s) && Above(s, s1)
    requires s1 == s.(instret := s1.instret, stack := s1.stack)
    ensures var f := Run(env, [Ldr(X, 30, Slot(240)), AddSp(256), Ret(30)],
                         Run(env, RestoreHost(), Run(env, StoreGuest(|RV64_TO_A64|), s1)));
            && Running(f) && f.cells == g.xregs && f.pc == g.pc && f.ram == g.ram && f.instret == s1.instret
            && f.x == s0.x && f.sp == s0.sp && Above(s0, f)
  {
    var s2 := s1.(cells := g.xregs);
    GuestStored(env, g, s1);
    SavedStays(env, s0, s, s2);
    HostRestored(env, s0.x, s2);
  }

  lemma SavedStays<G>(env: Env<G>, s0: Host<G>, s: Host<G>, s2: Host<G>)
    requires Entered(env, s0, s) && Above(s, s2) && s2.sp == s.sp
    ensures Saved(s0.x, 31, s2) && Above(s0, s2.(sp := s2.sp + 256)) && s2.sp + 256 == s0.sp
  {
  }

  lemma EpilogRuns<G>(env: Env<G>, g: Guest<G>, delta: Word, s0: Host<G>, s: Host<G>)
    requires Entered(env, s0, s) && Match(g, s)
    ensures Left(g, delta, s0, s, Run(env, Epilog(delta), s))
  {
    LeavingRuns(env, g, delta, s0, s);
    RunAppend(env, [ExitTag], Leaving(delta), s);
    RunOne(env, ExitTag, s);
  }

  lemma LeavingRuns<G>(env: Env<G>, g: Guest<G>, delta: Word, s0: Host<G>, s: Host<G>)
    requires Entered(env, s0, s) && Match(g, s)
    ensures Left(g, delta, s0, s, Run(env, Leaving(delta), s))
  {
    RunAppend(env, CommitInstret(16, delta) + StoreGuest(|RV64_TO_A64|) + RestoreHost(),
              [Ldr(X, 30, Slot(240)), AddSp(256), Ret(30)], s);
    RunParts(env, CommitInstret(16, delta), StoreGuest(|RV64_TO_A64|), RestoreHost(), s);
    CommitRuns(env, 16, delta, s);
    EpilogFrom(env, g, s0, s, Run(env, CommitInstret(16, delta), s));
  }
}
