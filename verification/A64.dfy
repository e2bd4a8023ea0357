/**
 The part of the A64 instruction set that the translator emits, as the Arm
 Architecture Reference Manual for A-profile defines it, running on a host with
 31 general registers, a stack, and the emulated CPU object addressed through x29.

 Every branch the translator emits goes forward, so a taken branch is modelled by
 `skip`: instructions are passed over until the label is bound.  `Exit` and `ExitTag` are the branch to epilog_tag_
 and its binding; nothing creates that label, so the branch stops the machine.
 */
module A64 {
  import opened Words

  /** asmjit's id of xzr/wzr. */
  const ZR: nat := 63

  type Gp = r: nat | r < 31 || r == ZR witness ZR

  type Label = nat

  datatype Width = X | W

  datatype AluOp =
    | Add | Sub | Lslv | Lsrv | Asrv | Eor | Orr | And_ | Mul | Smulh | Umulh | Sdiv | Udiv

  datatype Cond = CondLT | CondLO

  /** Memory operands: a field of the CPU object, a stack slot, or the trap record behind a register. */
  datatype Mem = XregCell(r: nat) | PcCell | InstretCell | Slot(offset: nat) | TrapType(base: Gp)

  datatype Ins =
    | Alu(op: AluOp, w: Width, rd: Gp, rn: Gp, rm: Gp)
    | Msub(w: Width, rd: Gp, rn: Gp, rm: Gp, ra: Gp)
    | AndImm(rd: Gp, rn: Gp, mask: Word)
    | SubImmW(rd: Gp, rn: Gp, sub: Half)
    | Neg(rd: Gp, rm: Gp)
    | Mvn(rd: Gp, rm: Gp)
    | Sxt(bound: Narrow, rd: Gp, rn: Gp)
    | MovI(w: Width, rd: Gp, imm: int)
    | MovA(rd: Gp, value: Word)
    | MovR(w: Width, rd: Gp, rm: Gp)
    | Cmp(rn: Gp, rm: Gp)
    | Cset(rd: Gp, cond: Cond)
    | Cbz(w: Width, rt: Gp, target: Label)
    | Cbnz(w: Width, rt: Gp, target: Label)
    | Tbnz63(rt: Gp, target: Label)
    | B(target: Label)
    | Exit
    | ExitTag
    | Bind(l: Label)
    | SubSp(n: nat)
    | AddSp(n: nat)
    | Ldr(w: Width, rt: Gp, mem: Mem)
    | Str(w: Width, rt: Gp, mem: Mem)
    | Stp(rt: Gp, rt2: Gp, slot: nat)
    | Ldp(rt: Gp, rt2: Gp, slot: nat)
    | Blr(rn: Gp)
    | Ret(rn: Gp)

  datatype Flags = Flags(n: bool, c: bool, v: bool)

  datatype Skip = Go | To(l: Label)

  /** A helper call's outcome: the trap type it stores, the value it returns, the guest memory after it. */
  datatype LoadResult<G> = LoadResult(trap: Half, value: Word, ram: G)

  datatype StoreResult<G> = StoreResult(trap: Half, ram: G)

  /** Host addresses baked into the code: the CPU object, the trap record, MmuLoad and MmuStore. */
  datatype Addresses = Addresses(cpu: Word, trapAddr: Word, loadFn: Word, storeFn: Word)

  /**
   What the emitted code can observe of the emulator behind the helper calls: the
   guest memory system, and the arbitrary contents a callee leaves in x0-x18, x30 and the flags.
   */
  datatype Env<!G> = Env(
    load: (G, Word, Word) -> LoadResult<G>,
    store: (G, Word, Word, Word) -> StoreResult<G>,
    scratch: (nat, nat) -> Word,
    scratchFlags: nat -> Flags,
    at: Addresses)

  datatype Host<G> = Host(
    x: seq<Word>, sp: int, flags: Flags, stack: map<int, Word>,
    cells: seq<Word>, pc: Word, instret: Word, ram: G, trap: Half,
    calls: nat, skip: Skip, ok: bool)

  ghost predicate Shape<G>(s: Host<G>) { |s.x| == 31 && |s.cells| == 32 }

  function Get<G>(s: Host<G>, r: Gp): Word
    requires |s.x| == 31
  {
    if r == ZR then 0 else s.x[r]
  }

  function Set<G>(s: Host<G>, r: Gp, v: Word): Host<G>
    requires |s.x| == 31
  {
    if r == ZR then s else s.(x := s.x[r := v])
  }

  function AluX(op: AluOp, a: Word, b: Word): Word {
    match op
    case Add => Wrap64(a + b)
    case Sub => Wrap64(a - b)
    case Lslv => Wrap64(a * Pow2(b % 64))
    case Lsrv => Wrap64(a / Pow2(b % 64))
    case Asrv => Wrap64(Signed64(a) / Pow2(b % 64))
    case Eor => Xor64(a, b)
    case Orr => Or64(a, b)
    case And_ => And64(a, b)
    case Mul => Wrap64(a * b)
    case Smulh => Wrap64(Signed64(a) * Signed64(b) / TWO64)
    case Umulh => Wrap64(a * b / TWO64)
    case Sdiv => if b == 0 then 0 else Wrap64(TruncDiv(Signed64(a), Signed64(b)))
    case Udiv => if b == 0 then 0 else Wrap64(a / b)
  }

  function AluW(op: AluOp, a: Half, b: Half): Half {
    match op
    case Add => Wrap32(a + b)
    case Sub => Wrap32(a - b)
    case Lslv => Wrap32(a * Pow2(b % 32))
    case Lsrv => Wrap32(a / Pow2(b % 32))
    case Asrv => Wrap32(Signed32(a) / Pow2(b % 32))
    case Mul => Wrap32(a * b)
    case Sdiv => if b == 0 then 0 else Wrap32(TruncDiv(Signed32(a), Signed32(b)))
    case Udiv => if b == 0 then 0 else Wrap32(a / b)
    case _ => 0 // no 32-bit form is emitted
  }

  function MsubX(ra: Word, rn: Word, rm: Word): Word { Wrap64(ra - rn * rm) }

  function MsubW(ra: Half, rn: Half, rm: Half): Half { Wrap32(ra - rn * rm) }

  /** SUBS: AddWithCarry(a, NOT b, 1). */
  function Compare(a: Word, b: Word): Flags {
    var notB := TWO64 - 1 - b;
    var unsignedSum := a + notB + 1;
    var signedSum := Signed64(a) + Signed64(notB) + 1;
    var result := Wrap64(unsignedSum);
    Flags(result >= TWO63, result != unsignedSum, Signed64(result) != signedSum)
  }

  predicate Holds(cond: Cond, f: Flags) {
    match cond
    case CondLT => f.n != f.v
    case CondLO => !f.c
  }

  predicate IsZero<G>(s: Host<G>, w: Width, r: Gp)
    requires |s.x| == 31
  {
    if w == X then Get(s, r) == 0 else Wrap32(Get(s, r)) == 0
  }

  /** The CPU object is reached only while x29 holds its address. */
  predicate Reaches<G>(env: Env<G>, s: Host<G>, mem: Mem)
    requires Shape(s)
  {
    match mem
    case XregCell(r) => r < 32 && s.x[29] == env.at.cpu
    case PcCell | InstretCell => s.x[29] == env.at.cpu
    case Slot(off) => s.sp + off in s.stack
    case TrapType(base) => Get(s, base) == env.at.trapAddr
  }

  function Read<G>(env: Env<G>, s: Host<G>, mem: Mem): Word
    requires Shape(s) && Reaches(env, s, mem)
  {
    match mem
    case XregCell(r) => s.cells[r]
    case PcCell => s.pc
    case InstretCell => s.instret
    case Slot(off) => s.stack[s.sp + off]
    case TrapType(_) => s.trap
  }

  function Load<G>(env: Env<G>, s: Host<G>, w: Width, rt: Gp, mem: Mem): Host<G>
    requires Shape(s)
  {
    if Reaches(env, s, mem) then
      var v := Read(env, s, mem);
      Set(s, rt, if w == X then v else Wrap32(v))
    else s.(ok := false)
  }

  /** The contents of a stack slot after a store of `v`: a 32-bit store keeps the upper half. */
  function SlotAfter<G>(s: Host<G>, w: Width, a: int, v: Word): Word {
    if w == W && a in s.stack then s.stack[a] - s.stack[a] % TWO32 + Wrap32(v) else v
  }

  function Store<G>(env: Env<G>, s: Host<G>, w: Width, rt: Gp, mem: Mem): Host<G>
    requires Shape(s)
  {
    var v: Word := if w == X then Get(s, rt) else Wrap32(Get(s, rt));
    match mem
    case XregCell(r) => if Reaches(env, s, mem) then s.(cells := s.cells[r := v]) else s.(ok := false)
    case PcCell => if Reaches(env, s, mem) then s.(pc := v) else s.(ok := false)
    case InstretCell => if Reaches(env, s, mem) then s.(instret := v) else s.(ok := false)
    case Slot(off) => s.(stack := s.stack[s.sp + off := SlotAfter(s, w, s.sp + off, v)])
    case TrapType(_) => s.(ok := false)
  }

  function AfterCall<G>(env: Env<G>, s: Host<G>, i: nat): Word
    requires Shape(s) && i < 31
  {
    if i <= 18 || i == 30 then env.scratch(s.calls, i) else s.x[i]
  }

  function Scratched<G>(env: Env<G>, s: Host<G>): seq<Word>
    requires Shape(s)
  {
    seq(31, i requires 0 <= i < 31 => AfterCall(env, s, i))
  }

  /** A call to MmuLoad or MmuStore under the AArch64 procedure call standard. */
  function Call<G>(env: Env<G>, s: Host<G>, fn: Word): Host<G>
    requires Shape(s)
  {
    var after := s.(x := Scratched(env, s), flags := env.scratchFlags(s.calls), calls := s.calls + 1);
    if fn == env.at.loadFn && s.x[0] == env.at.cpu && s.x[3] == env.at.trapAddr then
      var r := env.load(s.ram, s.x[1], s.x[2]);
      after.(x := after.x[0 := r.value], ram := r.ram, trap := r.trap)
    else if fn == env.at.storeFn && s.x[0] == env.at.cpu && s.x[4] == env.at.trapAddr then
      var r := env.store(s.ram, s.x[1], s.x[2], s.x[3]);
      after.(ram := r.ram, trap := r.trap)
    else s.(ok := false)
  }

  // A pair access is the two single accesses; the measure only justifies that recursion.
  predicate IsPair(i: Ins) { i.Stp? || i.Ldp? }

  ghost predicate HasPair(code: seq<Ins>) { exists k :: 0 <= k < |code| && IsPair(code[k]) }

  function Exec<G>(env: Env<G>, i: Ins, s: Host<G>): (s': Host<G>)
    requires Shape(s)
    ensures Shape(s')
    decreases IsPair(i), 0, 0
  {
    match i
    case Alu(op, w, rd, rn, rm) =>
      Set(s, rd, if w == X then AluX(op, Get(s, rn), Get(s, rm))
                 else AluW(op, Wrap32(Get(s, rn)), Wrap32(Get(s, rm))))
    case Msub(w, rd, rn, rm, ra) =>
      Set(s, rd, if w == X then MsubX(Get(s, ra), Get(s, rn), Get(s, rm))
                 else MsubW(Wrap32(Get(s, ra)), Wrap32(Get(s, rn)), Wrap32(Get(s, rm))))
    case AndImm(rd, rn, mask) => Set(s, rd, And64(Get(s, rn), mask))
    case SubImmW(rd, rn, sub) => Set(s, rd, Wrap32(Wrap32(Get(s, rn)) - sub))
    case Neg(rd, rm) => Set(s, rd, Wrap64(0 - Get(s, rm)))
    case Mvn(rd, rm) => Set(s, rd, TWO64 - 1 - Get(s, rm))
    case Sxt(bound, rd, rn) => Set(s, rd, SignExtendFrom(Get(s, rn), bound))
    case MovI(w, rd, imm) => Set(s, rd, if w == X then Wrap64(imm) else Wrap32(imm))
    case MovA(rd, value) => Set(s, rd, value)
    case MovR(w, rd, rm) => Set(s, rd, if w == X then Get(s, rm) else Wrap32(Get(s, rm)))
    case Cmp(rn, rm) => s.(flags := Compare(Get(s, rn), Get(s, rm)))
    case Cset(rd, cond) => Set(s, rd, if Holds(cond, s.flags) then 1 else 0)
    case Cbz(w, rt, l) => if IsZero(s, w, rt) then s.(skip := To(l)) else s
    case Cbnz(w, rt, l) => if IsZero(s, w, rt) then s else s.(skip := To(l))
    case Tbnz63(rt, l) => if Get(s, rt) >= TWO63 then s.(skip := To(l)) else s
    case B(l) => s.(skip := To(l))
    case Exit => s.(ok := false)
    case ExitTag => s
    case Bind(_) => s
    case SubSp(n) => s.(sp := s.sp - n)
    case AddSp(n) => s.(sp := s.sp + n)
    case Ldr(w, rt, mem) => Load(env, s, w, rt, mem)
    case Str(w, rt, mem) => Store(env, s, w, rt, mem)
    case Stp(rt, rt2, slot) => Run(env, [Str(X, rt, Slot(slot)), Str(X, rt2, Slot(slot + 8))], s)
    case Ldp(rt, rt2, slot) => Run(env, [Ldr(X, rt, Slot(slot)), Ldr(X, rt2, Slot(slot + 8))], s)
    case Blr(rn) => Call(env, s, Get(s, rn))
    case Ret(_) => s
  }

  function Step<G>(env: Env<G>, i: Ins, s: Host<G>): (s': Host<G>)
    requires Shape(s)
    ensures Shape(s')
    decreases IsPair(i), 0, 1
  {
    if s.skip == Go then Exec(env, i, s)
    else if i == Bind(s.skip.l) then s.(skip := Go)
    else s
  }

  function Run<G>(env: Env<G>, code: seq<Ins>, s: Host<G>): (s': Host<G>)
    requires Shape(s)
    ensures Shape(s')
    decreases HasPair(code), |code|, 2
  {
    if code == [] then s else Run(env, code[1..], Step(env, code[0], s))
  }

  // ----- running pieces of code one after another -----

  lemma {:induction false} RunAppend<G>(env: Env<G>, a: seq<Ins>, b: seq<Ins>, s: Host<G>)
    requires Shape(s)
    ensures Run(env, a + b, s) == Run(env, b, Run(env, a, s))
    decreases |a|
  {
    if a == [] {
      assert a + b == b;
    } else {
      assert (a + b)[1..] == a[1..] + b;
      RunAppend(env, a[1..], b, Step(env, a[0], s));
    }
  }

  lemma RunParts<G>(env: Env<G>, a: seq<Ins>, b: seq<Ins>, c: seq<Ins>, s: Host<G>)
    requires Shape(s)
    ensures Run(env, a + b + c, s) == Run(env, c, Run(env, b, Run(env, a, s)))
  {
    RunAppend(env, a + b, c, s);
    RunAppend(env, a, b, s);
  }

  lemma RunFive<G>(env: Env<G>, a: seq<Ins>, b: seq<Ins>, c: seq<Ins>, d: seq<Ins>, e: seq<Ins>, s: Host<G>)
    requires Shape(s)
    ensures Run(env, a + b + c + d + e, s)
         == Run(env, e, Run(env, d, Run(env, c, Run(env, b, Run(env, a, s)))))
  {
    RunParts(env, a + b + c, d, e, s);
    RunParts(env, a, b, c, s);
  }

  lemma RunOne<G>(env: Env<G>, i: Ins, s: Host<G>)
    requires Shape(s)
    ensures Run(env, [i], s) == Step(env, i, s)
  {
    assert [i][1..] == [];
  }

  lemma RunTwo<G>(env: Env<G>, i: Ins, j: Ins, s: Host<G>)
    requires Shape(s)
    ensures Run(env, [i, j], s) == Step(env, j, Step(env, i, s))
  {
    assert [i, j][1..] == [j];
    RunOne(env, j, Step(env, i, s));
  }

  lemma RunThree<G>(env: Env<G>, i: Ins, j: Ins, k: Ins, s: Host<G>)
    requires Shape(s)
    ensures Run(env, [i, j, k], s) == Step(env, k, Step(env, j, Step(env, i, s)))
  {
    assert [i, j, k][1..] == [j, k];
    RunTwo(env, j, k, Step(env, i, s));
  }

  /** While a branch is pending, code that does not bind its label has no effect. */
  lemma {:induction false} RunSkipped<G>(env: Env<G>, code: seq<Ins>, s: Host<G>)
    requires Shape(s) && s.skip != Go
    requires Bind(s.skip.l) !in code
    ensures Run(env, code, s) == s
    decreases |code|
  {
    if code != [] {
      RunSkipped(env, code[1..], s);
    }
  }

  // ----- single steps -----

  lemma RunsTwo<G>(env: Env<G>, i: Ins, j: Ins, s: Host<G>, s1: Host<G>, s2: Host<G>)
    requires Shape(s) && Step(env, i, s) == s1 && Step(env, j, s1) == s2
    ensures Run(env, [i, j], s) == s2
  {
    RunTwo(env, i, j, s);
  }

  lemma StepMovW<G>(env: Env<G>, rd: Gp, imm: int, s: Host<G>)
    requires Shape(s) && s.skip == Go && rd != ZR
    ensures Step(env, MovI(W, rd, imm), s) == s.(x := s.x[rd := Wrap32(imm)])
  {
  }

  lemma StepAluW<G>(env: Env<G>, op: AluOp, rd: Gp, rn: Gp, rm: Gp, s: Host<G>)
    requires Shape(s) && s.skip == Go && rd != ZR
    ensures Step(env, Alu(op, W, rd, rn, rm), s) == s.(x := s.x[rd := AluW(op, Wrap32(Get(s, rn)), Wrap32(Get(s, rm)))])
  {
  }

  lemma StepSubSp<G>(env: Env<G>, n: nat, s: Host<G>)
    requires Shape(s) && s.skip == Go
    ensures Step(env, SubSp(n), s) == s.(sp := s.sp - n)
  {
  }

  lemma StepAddSp<G>(env: Env<G>, n: nat, s: Host<G>)
    requires Shape(s) && s.skip == Go
    ensures Step(env, AddSp(n), s) == s.(sp := s.sp + n)
  {
  }

  lemma StepMovI<G>(env: Env<G>, rd: Gp, imm: int, s: Host<G>)
    requires Shape(s) && s.skip == Go && rd != ZR
    ensures Step(env, MovI(X, rd, imm), s) == s.(x := s.x[rd := Wrap64(imm)])
  {
  }

  lemma StepMovA<G>(env: Env<G>, rd: Gp, v: Word, s: Host<G>)
    requires Shape(s) && s.skip == Go && rd != ZR
    ensures Step(env, MovA(rd, v), s) == s.(x := s.x[rd := v])
  {
  }

  lemma StepLdrSlot<G>(env: Env<G>, rt: Gp, off: nat, s: Host<G>)
    requires Shape(s) && s.skip == Go && rt != ZR && s.sp + off in s.stack
    ensures Step(env, Ldr(X, rt, Slot(off)), s) == s.(x := s.x[rt := s.stack[s.sp + off]])
  {
  }

  lemma StepStrSlot<G>(env: Env<G>, rt: Gp, off: nat, s: Host<G>)
    requires Shape(s) && s.skip == Go
    ensures Step(env, Str(X, rt, Slot(off)), s) == s.(stack := s.stack[s.sp + off := Get(s, rt)])
  {
  }

  lemma StepLdrCell<G>(env: Env<G>, rt: Gp, r: nat, s: Host<G>)
    requires Shape(s) && s.skip == Go && r < 32 && s.x[29] == env.at.cpu
    ensures Step(env, Ldr(X, rt, XregCell(r)), s) == Set(s, rt, s.cells[r])
  {
  }

  lemma StepStrCell<G>(env: Env<G>, rt: Gp, r: nat, s: Host<G>)
    requires Shape(s) && s.skip == Go && r < 32 && s.x[29] == env.at.cpu
    ensures Step(env, Str(X, rt, XregCell(r)), s) == s.(cells := s.cells[r := Get(s, rt)])
  {
  }

  lemma StepStp<G>(env: Env<G>, rt: Gp, rt2: Gp, slot: nat, s: Host<G>)
    requires Shape(s) && s.skip == Go
    ensures Step(env, Stp(rt, rt2, slot), s)
         == s.(stack := s.stack[s.sp + slot := Get(s, rt)][s.sp + slot + 8 := Get(s, rt2)])
  {
    var s1 := s.(stack := s.stack[s.sp + slot := Get(s, rt)]);
    StepStrSlot(env, rt, slot, s);
    StepStrSlot(env, rt2, slot + 8, s1);
    RunTwo(env, Str(X, rt, Slot(slot)), Str(X, rt2, Slot(slot + 8)), s);
  }

  lemma StepLdp<G>(env: Env<G>, rt: Gp, rt2: Gp, slot: nat, s: Host<G>)
    requires Shape(s) && s.skip == Go && rt != ZR && rt2 != ZR
    requires s.sp + slot in s.stack && s.sp + slot + 8 in s.stack
    ensures Step(env, Ldp(rt, rt2, slot), s)
         == s.(x := s.x[rt := s.stack[s.sp + slot]][rt2 := s.stack[s.sp + slot + 8]])
  {
    var s1 := s.(x := s.x[rt := s.stack[s.sp + slot]]);
    StepLdrSlot(env, rt, slot, s);
    StepLdrSlot(env, rt2, slot + 8, s1);
    RunTwo(env, Ldr(X, rt, Slot(slot)), Ldr(X, rt2, Slot(slot + 8)), s);
  }
}
