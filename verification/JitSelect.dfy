/**
 What the instruction selectors compute, for any assignment of registers.  The
 value depends on whether the destination coincides with a source register,
 because some selectors overwrite the destination before their last read.
 */
module JitSelect {
  import opened Words
  import opened Isa
  import opened A64
  import opened JitCode

  /** Ready to run: no branch pending, nothing gone wrong. */
  ghost predicate Running<G>(s: Host<G>) { Shape(s) && s.skip == Go && s.ok }

  /** `s'` is `s` with register `rd` holding `v`; only the flags may differ besides. */
  ghost predicate Sets<G>(s: Host<G>, s': Host<G>, rd: Gp, v: Word)
    requires Shape(s) && rd != ZR
  {
    s' == s.(x := s.x[rd := v], flags := s'.flags)
  }

  lemma TakenRuns<G>(env: Env<G>, zero: Label, end: Label, s: Host<G>)
    requires Shape(s) && zero != end && s.skip in {Go, To(zero)}
    ensures Run(env, [B(end), Bind(zero)], s) == s.(skip := if s.skip == Go then To(end) else Go)
  {
    RunTwo(env, B(end), Bind(zero), s);
  }

  lemma StepCbz<G>(env: Env<G>, w: Width, r: Gp, zero: Label, s: Host<G>)
    requires Running(s)
    ensures Run(env, [Cbz(w, r, zero)], s) == if IsZero(s, w, r) then s.(skip := To(zero)) else s
  {
    RunOne(env, Cbz(w, r, zero), s);
  }

  lemma RunBind<G>(env: Env<G>, end: Label, s: Host<G>)
    requires Shape(s) && s.skip in {Go, To(end)}
    ensures Run(env, [Bind(end)], s) == s.(skip := Go)
  {
    RunOne(env, Bind(end), s);
  }

  lemma IfZeroRuns<G>(env: Env<G>, w: Width, r: Gp, zero: Label, body: seq<Ins>, alt: seq<Ins>, end: Label, s: Host<G>)
    requires Running(s)
    requires zero != end && Bind(zero) !in body && Bind(end) !in alt
    requires Run(env, body, s).skip == Go && Run(env, alt, s).skip == Go
    ensures Run(env, IfZero(w, r, zero, body, alt, end), s)
         == if IsZero(s, w, r) then Run(env, alt, s) else Run(env, body, s)
  {
    RunFive(env, [Cbz(w, r, zero)], body, [B(end), Bind(zero)], alt, [Bind(end)], s);
    StepCbz(env, w, r, zero, s);
    if IsZero(s, w, r) {
      var s1 := s.(skip := To(zero));
      RunSkipped(env, body, s1);
      TakenRuns(env, zero, end, s1);
      assert s1.(skip := Go) == s;
      RunBind(env, end, Run(env, alt, s));
    } else {
      var s2 := Run(env, body, s);
      TakenRuns(env, zero, end, s2);
      var s3 := s2.(skip := To(end));
      RunSkipped(env, alt, s3);
      RunBind(env, end, s3);
    }
  }

  // ----- 64-bit register forms -----

  /** `d1`/`d2`: the destination register is the register of the first/second source. */
  function RemByMsub(q: Word, d1: bool, d2: bool, a: Word, b: Word): Word {
    MsubX(if d1 then q else a, q, if d2 then q else b)
  }

  function MulhsuSelected(d2: bool, a: Word, b: Word): Word {
    if a == 0 || b == 0 then 0
    else if a < TWO63 then AluX(Umulh, a, b)
    else var n := Wrap64(0 - a);
         TWO64 - 1 - AluX(Umulh, n, if d2 then n else b)
  }

  function RegSelected(t: Token, d1: bool, d2: bool, a: Word, b: Word): Word
    requires IsReg(t)
  {
    match t
    case ADD => AluX(Add, a, b)
    case SUB => AluX(Sub, a, b)
    case SLL => AluX(Lslv, a, b)
    case SLT => Flag(Holds(CondLT, Compare(a, b)))
    case SLTU => Flag(Holds(CondLO, Compare(a, b)))
    case XOR => AluX(Eor, a, b)
    case SRL => AluX(Lsrv, a, b)
    case SRA => AluX(Asrv, a, b)
    case OR => AluX(Orr, a, b)
    case AND => AluX(And_, a, b)
    case MUL => AluX(Mul, a, b)
    case MULH => AluX(Smulh, a, b)
    case MULHSU => MulhsuSelected(d2, a, b)
    case MULHU => AluX(Umulh, a, b)
    case DIV => if b == 0 then TWO64 - 1 else AluX(Sdiv, a, b)
    case DIVU => if b == 0 then TWO64 - 1 else AluX(Udiv, a, b)
    case REM => if b == 0 then a else RemByMsub(AluX(Sdiv, a, b), d1, d2, a, b)
    case REMU => if b == 0 then a else RemByMsub(AluX(Udiv, a, b), d1, d2, a, b)
  }

  lemma MulhsuNegative<G>(env: Env<G>, rd: Gp, rs1: Gp, rs2: Gp, l: Label, s: Host<G>)
    requires Shape(s) && s.skip == To(l + 2) && rd != ZR
    ensures var code := [Bind(l + 2), Neg(rd, rs1), Alu(Umulh, X, rd, rd, rs2)] + [Mvn(rd, rd), B(l + 3)];
            var n := Wrap64(0 - Get(s, rs1));
            Run(env, code, s) == s.(skip := To(l + 3), x := s.x[rd := TWO64 - 1 - AluX(Umulh, n, if rd == rs2 then n else Get(s, rs2))])
  {
    RunAppend(env, [Bind(l + 2), Neg(rd, rs1), Alu(Umulh, X, rd, rd, rs2)], [Mvn(rd, rd), B(l + 3)], s);
    RunThree(env, Bind(l + 2), Neg(rd, rs1), Alu(Umulh, X, rd, rd, rs2), s);
    var n := Wrap64(0 - Get(s, rs1));
    var s3 := s.(skip := Go, x := s.x[rd := AluX(Umulh, n, if rd == rs2 then n else Get(s, rs2))]);
    assert Run(env, [Bind(l + 2), Neg(rd, rs1), Alu(Umulh, X, rd, rd, rs2)], s) == s3;
    RunTwo(env, Mvn(rd, rd), B(l + 3), s3);
  }

  /** The three guards at the head of the MULHSU code pick the path. */
  lemma MulhsuGuards<G>(env: Env<G>, rs1: Gp, rs2: Gp, l: Label, s: Host<G>)
    requires Running(s)
    ensures var guards := [Cbz(X, rs1, l + 1), Cbz(X, rs2, l + 1), Tbnz63(rs1, l + 2)];
            Run(env, guards, s) == s.(skip := if Get(s, rs1) == 0 || Get(s, rs2) == 0 then To(l + 1)
                                              else if Get(s, rs1) < TWO63 then Go else To(l + 2))
  {
    RunThree(env, Cbz(X, rs1, l + 1), Cbz(X, rs2, l + 1), Tbnz63(rs1, l + 2), s);
  }

  lemma MulhsuTail<G>(env: Env<G>, rd: Gp, l: Label, s: Host<G>)
    requires Shape(s) && rd != ZR && s.skip in {To(l + 1), To(l + 3)}
    ensures Run(env, [Bind(l + 1), MovI(X, rd, 0), Bind(l + 3)], s)
         == if s.skip == To(l + 1) then s.(skip := Go, x := s.x[rd := 0]) else s.(skip := Go)
  {
    RunThree(env, Bind(l + 1), MovI(X, rd, 0), Bind(l + 3), s);
  }

  lemma MulhsuPositive<G>(env: Env<G>, rd: Gp, rs1: Gp, rs2: Gp, l: Label, s: Host<G>)
    requires Running(s) && rd != ZR
    ensures Run(env, [Bind(l), Alu(Umulh, X, rd, rs1, rs2), B(l + 3)], s)
         == s.(skip := To(l + 3), x := s.x[rd := AluX(Umulh, Get(s, rs1), Get(s, rs2))])
  {
    RunThree(env, Bind(l), Alu(Umulh, X, rd, rs1, rs2), B(l + 3), s);
  }

  /** The two product paths, entered with the pending branch the guards left. */
  lemma MulhsuPaths<G>(env: Env<G>, rd: Gp, rs1: Gp, rs2: Gp, l: Label, s: Host<G>)
    requires Shape(s) && rd != ZR && s.ok && s.skip in {Go, To(l + 1), To(l + 2)}
    ensures var p2 := [Bind(l), Alu(Umulh, X, rd, rs1, rs2), B(l + 3)];
            var p3 := [Bind(l + 2), Neg(rd, rs1), Alu(Umulh, X, rd, rd, rs2)] + [Mvn(rd, rd), B(l + 3)];
            var n := Wrap64(0 - Get(s, rs1));
            Run(env, p3, Run(env, p2, s))
            == if s.skip == Go then s.(skip := To(l + 3), x := s.x[rd := AluX(Umulh, Get(s, rs1), Get(s, rs2))])
               else if s.skip == To(l + 1) then s
               else s.(skip := To(l + 3), x := s.x[rd := TWO64 - 1 - AluX(Umulh, n, if rd == rs2 then n else Get(s, rs2))])
  {
    var p2 := [Bind(l), Alu(Umulh, X, rd, rs1, rs2), B(l + 3)];
    var p3 := [Bind(l + 2), Neg(rd, rs1), Alu(Umulh, X, rd, rd, rs2)] + [Mvn(rd, rd), B(l + 3)];
    if s.skip == Go {
      MulhsuPositive(env, rd, rs1, rs2, l, s);
      RunSkipped(env, p3, s.(skip := To(l + 3), x := s.x[rd := AluX(Umulh, Get(s, rs1), Get(s, rs2))]));
    } else {
      RunSkipped(env, p2, s);
      if s.skip == To(l + 1) {
        RunSkipped(env, p3, s);
      } else {
        MulhsuNegative(env, rd, rs1, rs2, l, s);
      }
    }
  }

  lemma MulhsuRuns<G>(env: Env<G>, rd: Gp, rs1: Gp, rs2: Gp, l: Label, s: Host<G>)
    requires Running(s) && rd != ZR
    ensures Sets(s, Run(env, MulhsuCode(rd, rs1, rs2, l), s), rd, MulhsuSelected(rd == rs2, Get(s, rs1), Get(s, rs2)))
  {
    var p1 := [Cbz(X, rs1, l + 1), Cbz(X, rs2, l + 1), Tbnz63(rs1, l + 2)];
    var p2 := [Bind(l), Alu(Umulh, X, rd, rs1, rs2), B(l + 3)];
    var p3 := [Bind(l + 2), Neg(rd, rs1), Alu(Umulh, X, rd, rd, rs2)] + [Mvn(rd, rd), B(l + 3)];
    RunAppend(env, p1 + p2 + p3, [Bind(l + 1), MovI(X, rd, 0), Bind(l + 3)], s);
    RunParts(env, p1, p2, p3, s);
    MulhsuGuards(env, rs1, rs2, l, s);
    var s1 := Run(env, p1, s);
    MulhsuPaths(env, rd, rs1, rs2, l, s1);
    MulhsuTail(env, rd, l, Run(env, p3, Run(env, p2, s1)));
  }

  lemma DivSelectRuns<G>(env: Env<G>, op: AluOp, rd: Gp, rs1: Gp, rs2: Gp, l: Label, s: Host<G>)
    requires Running(s) && rd != ZR
    ensures var code := IfZero(X, rs2, l, [Alu(op, X, rd, rs1, rs2)], [MovA(rd, TWO64 - 1)], l + 1);
            Sets(s, Run(env, code, s), rd, if Get(s, rs2) == 0 then TWO64 - 1 else AluX(op, Get(s, rs1), Get(s, rs2)))
  {
    RunOne(env, Alu(op, X, rd, rs1, rs2), s);
    RunOne(env, MovA(rd, TWO64 - 1), s);
    IfZeroRuns(env, X, rs2, l, [Alu(op, X, rd, rs1, rs2)], [MovA(rd, TWO64 - 1)], l + 1, s);
  }

  lemma RemSelectRuns<G>(env: Env<G>, op: AluOp, rd: Gp, rs1: Gp, rs2: Gp, l: Label, s: Host<G>)
    requires Running(s) && rd != ZR
    ensures var code := IfZero(X, rs2, l, [Alu(op, X, rd, rs1, rs2), Msub(X, rd, rd, rs2, rs1)], [MovR(X, rd, rs1)], l + 1);
            var a, b := Get(s, rs1), Get(s, rs2);
            Sets(s, Run(env, code, s), rd, if b == 0 then a else RemByMsub(AluX(op, a, b), rd == rs1, rd == rs2, a, b))
  {
    RunTwo(env, Alu(op, X, rd, rs1, rs2), Msub(X, rd, rd, rs2, rs1), s);
    RunOne(env, MovR(X, rd, rs1), s);
    IfZeroRuns(env, X, rs2, l, [Alu(op, X, rd, rs1, rs2), Msub(X, rd, rd, rs2, rs1)], [MovR(X, rd, rs1)], l + 1, s);
  }

  lemma CompareSelectRuns<G>(env: Env<G>, cond: Cond, rd: Gp, rs1: Gp, rs2: Gp, s: Host<G>)
    requires Running(s) && rd != ZR
    ensures Sets(s, Run(env, [Cmp(rs1, rs2), Cset(rd, cond)], s), rd, Flag(Holds(cond, Compare(Get(s, rs1), Get(s, rs2)))))
  {
    RunTwo(env, Cmp(rs1, rs2), Cset(rd, cond), s);
  }

  lemma AluRuns<G>(env: Env<G>, op: AluOp, rd: Gp, rs1: Gp, rs2: Gp, s: Host<G>)
    requires Running(s) && rd != ZR
    ensures Sets(s, Run(env, [Alu(op, X, rd, rs1, rs2)], s), rd, AluX(op, Get(s, rs1), Get(s, rs2)))
  {
    RunOne(env, Alu(op, X, rd, rs1, rs2), s);
  }

  /** Tokens translated to one three-register instruction, and that instruction. */
  predicate IsPlain(t: Token) { t in {ADD, SUB, SLL, XOR, SRL, SRA, OR, AND, MUL, MULH, MULHU} }

  function PlainAlu(t: Token): AluOp
    requires IsPlain(t)
  {
    match t
    case ADD => Add case SUB => Sub case SLL => Lslv case XOR => Eor case SRL => Lsrv case SRA => Asrv
    case OR => Orr case AND => And_ case MUL => Mul case MULH => Smulh case MULHU => Umulh
  }

  lemma PlainSelects(rd: Gp, rs1: Gp, rs2: Gp, t: Token, l: Label, a: Word, b: Word)
    requires IsPlain(t)
    ensures RegSelect(rd, rs1, rs2, t, l) == [Alu(PlainAlu(t), X, rd, rs1, rs2)]
    ensures RegSelected(t, rd == rs1, rd == rs2, a, b) == AluX(PlainAlu(t), a, b)
  {
  }

  lemma CompareSelects(rd: Gp, rs1: Gp, rs2: Gp, t: Token, l: Label, a: Word, b: Word, cond: Cond)
    requires t in {SLT, SLTU} && cond == if t == SLT then CondLT else CondLO
    ensures RegSelect(rd, rs1, rs2, t, l) == [Cmp(rs1, rs2), Cset(rd, cond)]
    ensures RegSelected(t, rd == rs1, rd == rs2, a, b) == Flag(Holds(cond, Compare(a, b)))
  {
  }

  lemma DivideSelects(rd: Gp, rs1: Gp, rs2: Gp, t: Token, l: Label, a: Word, b: Word, op: AluOp)
    requires t in {DIV, DIVU, REM, REMU} && op == if t in {DIV, REM} then Sdiv else Udiv
    ensures RegSelect(rd, rs1, rs2, t, l)
         == if t in {DIV, DIVU} then IfZero(X, rs2, l, [Alu(op, X, rd, rs1, rs2)], [MovA(rd, TWO64 - 1)], l + 1)
            else IfZero(X, rs2, l, [Alu(op, X, rd, rs1, rs2), Msub(X, rd, rd, rs2, rs1)], [MovR(X, rd, rs1)], l + 1)
    ensures RegSelected(t, rd == rs1, rd == rs2, a, b)
         == if t in {DIV, DIVU} then (if b == 0 then TWO64 - 1 else AluX(op, a, b))
            else (if b == 0 then a else RemByMsub(AluX(op, a, b), rd == rs1, rd == rs2, a, b))
  {
  }

  lemma RegSelectRuns<G>(env: Env<G>, rd: Gp, rs1: Gp, rs2: Gp, t: Token, l: Label, s: Host<G>)
    requires Running(s) && rd != ZR && IsReg(t)
    ensures Sets(s, Run(env, RegSelect(rd, rs1, rs2, t, l), s), rd,
                 RegSelected(t, rd == rs1, rd == rs2, Get(s, rs1), Get(s, rs2)))
  {
    var code, v := RegSelect(rd, rs1, rs2, t, l), RegSelected(t, rd == rs1, rd == rs2, Get(s, rs1), Get(s, rs2));
    RegSelectCases(env, rd, rs1, rs2, t, l, s, code, v);
  }

  lemma RegSelectCases<G>(env: Env<G>, rd: Gp, rs1: Gp, rs2: Gp, t: Token, l: Label, s: Host<G>, code: seq<Ins>, v: Word)
    requires Running(s) && rd != ZR && IsReg(t)
    requires code == RegSelect(rd, rs1, rs2, t, l) && v == RegSelected(t, rd == rs1, rd == rs2, Get(s, rs1), Get(s, rs2))
    ensures Sets(s, Run(env, code, s), rd, v)
  {
    var a, b := Get(s, rs1), Get(s, rs2);
    if IsPlain(t) {
      PlainSelects(rd, rs1, rs2, t, l, a, b);
      AluRuns(env, PlainAlu(t), rd, rs1, rs2, s);
    } else if t in {SLT, SLTU} {
      var cond := if t == SLT then CondLT else CondLO;
      CompareSelects(rd, rs1, rs2, t, l, a, b, cond);
      CompareSelectRuns(env, cond, rd, rs1, rs2, s);
    } else if t == MULHSU {
      assert code == MulhsuCode(rd, rs1, rs2, l) && v == MulhsuSelected(rd == rs2, a, b);
      MulhsuRuns(env, rd, rs1, rs2, l, s);
    } else {
      var op := if t in {DIV, REM} then Sdiv else Udiv;
      DivideSelects(rd, rs1, rs2, t, l, a, b, op);
      if t in {DIV, DIVU} {
        DivSelectRuns(env, op, rd, rs1, rs2, l, s);
      } else {
        RemSelectRuns(env, op, rd, rs1, rs2, l, s);
      }
    }
  }

  // ----- 32-bit register forms -----

  function RemByMsubW(q: Half, d1: bool, d2: bool, a: Half, b: Half): Half {
    MsubW(if d1 then q else a, q, if d2 then q else b)
  }

  /** The 32-bit result before it is sign-extended. */
  function Reg32Selected(t: Token, d1: bool, d2: bool, a: Half, b: Half): Half
    requires IsReg32(t)
  {
    match t
    case ADDW => AluW(Add, a, b)
    case SUBW => AluW(Sub, a, b)
    case SLLW => AluW(Lslv, a, b)
    case SRLW => AluW(Lsrv, a, b)
    case SRAW => AluW(Asrv, a, b)
    case MULW => AluW(Mul, a, b)
    case DIVW => if b == 0 then TWO32 - 1 else AluW(Sdiv, a, b)
    case DIVUW => if b == 0 then TWO32 - 1 else AluW(Udiv, a, b)
    case REMW => if b == 0 then a else RemByMsubW(AluW(Sdiv, a, b), d1, d2, a, b)
    case REMUW => if b == 0 then a else RemByMsubW(AluW(Udiv, a, b), d1, d2, a, b)
  }

  lemma SxtwWidens(h: Half)
    ensures SignExtendFrom(h, TWO32) == SignExtend32(h)
  {
    assert h % TWO32 == h;
  }

  /** A 32-bit result in rd followed by sxtw. */
  lemma ThenSxtw<G>(env: Env<G>, code: seq<Ins>, rd: Gp, s: Host<G>, s': Host<G>, h: Half)
    requires Running(s) && rd != ZR
    requires s' == Run(env, code, s) && Sets(s, s', rd, h)
    ensures Sets(s, Run(env, code + Sxtw(rd), s), rd, SignExtend32(h))
  {
    RunAppend(env, code, Sxtw(rd), s);
    RunOne(env, Sxt(TWO32, rd, rd), s');
    SxtwWidens(h);
  }

  lemma AluWRuns<G>(env: Env<G>, op: AluOp, rd: Gp, rs1: Gp, rs2: Gp, s: Host<G>)
    requires Running(s) && rd != ZR
    ensures Sets(s, Run(env, [Alu(op, W, rd, rs1, rs2)] + Sxtw(rd), s), rd,
                 SignExtend32(AluW(op, Wrap32(Get(s, rs1)), Wrap32(Get(s, rs2)))))
  {
    RunOne(env, Alu(op, W, rd, rs1, rs2), s);
    ThenSxtw(env, [Alu(op, W, rd, rs1, rs2)], rd, s, Run(env, [Alu(op, W, rd, rs1, rs2)], s),
             AluW(op, Wrap32(Get(s, rs1)), Wrap32(Get(s, rs2))));
  }

  lemma DivWSelectRuns<G>(env: Env<G>, op: AluOp, rd: Gp, rs1: Gp, rs2: Gp, l: Label, s: Host<G>)
    requires Running(s) && rd != ZR
    ensures var code := IfZero(W, rs2, l, [Alu(op, W, rd, rs1, rs2)], [MovI(W, rd, TWO32 - 1)], l + 1);
            var a, b := Wrap32(Get(s, rs1)), Wrap32(Get(s, rs2));
            Sets(s, Run(env, code + Sxtw(rd), s), rd, SignExtend32(if b == 0 then TWO32 - 1 else AluW(op, a, b)))
  {
    var code := IfZero(W, rs2, l, [Alu(op, W, rd, rs1, rs2)], [MovI(W, rd, TWO32 - 1)], l + 1);
    var a, b := Wrap32(Get(s, rs1)), Wrap32(Get(s, rs2));
    RunOne(env, Alu(op, W, rd, rs1, rs2), s);
    RunOne(env, MovI(W, rd, TWO32 - 1), s);
    IfZeroRuns(env, W, rs2, l, [Alu(op, W, rd, rs1, rs2)], [MovI(W, rd, TWO32 - 1)], l + 1, s);
    ThenSxtw(env, code, rd, s, Run(env, code, s), if b == 0 then TWO32 - 1 else AluW(op, a, b));
  }

  lemma RemWRuns<G>(env: Env<G>, op: AluOp, rd: Gp, rs1: Gp, rs2: Gp, l: Label, s: Host<G>)
    requires Running(s) && rd != ZR
    ensures var code := IfZero(W, rs2, l, [Alu(op, W, rd, rs1, rs2), Msub(W, rd, rd, rs2, rs1)], [MovR(W, rd, rs1)], l + 1);
            var a, b := Wrap32(Get(s, rs1)), Wrap32(Get(s, rs2));
            Sets(s, Run(env, code, s), rd, if b == 0 then a else RemByMsubW(AluW(op, a, b), rd == rs1, rd == rs2, a, b))
  {
    var a, b := Wrap32(Get(s, rs1)), Wrap32(Get(s, rs2));
    assert Wrap32(AluW(op, a, b)) == AluW(op, a, b);
    RunTwo(env, Alu(op, W, rd, rs1, rs2), Msub(W, rd, rd, rs2, rs1), s);
    RunOne(env, MovR(W, rd, rs1), s);
    IfZeroRuns(env, W, rs2, l, [Alu(op, W, rd, rs1, rs2), Msub(W, rd, rd, rs2, rs1)], [MovR(W, rd, rs1)], l + 1, s);
  }

  lemma RemWSelectRuns<G>(env: Env<G>, op: AluOp, rd: Gp, rs1: Gp, rs2: Gp, l: Label, s: Host<G>)
    requires Running(s) && rd != ZR
    ensures var code := IfZero(W, rs2, l, [Alu(op, W, rd, rs1, rs2), Msub(W, rd, rd, rs2, rs1)], [MovR(W, rd, rs1)], l + 1);
            var a, b := Wrap32(Get(s, rs1)), Wrap32(Get(s, rs2));
            Sets(s, Run(env, code + Sxtw(rd), s), rd,
                 SignExtend32(if b == 0 then a else RemByMsubW(AluW(op, a, b), rd == rs1, rd == rs2, a, b)))
  {
    var code := IfZero(W, rs2, l, [Alu(op, W, rd, rs1, rs2), Msub(W, rd, rd, rs2, rs1)], [MovR(W, rd, rs1)], l + 1);
    var a, b := Wrap32(Get(s, rs1)), Wrap32(Get(s, rs2));
    RemWRuns(env, op, rd, rs1, rs2, l, s);
    ThenSxtw(env, code, rd, s, Run(env, code, s),
             if b == 0 then a else RemByMsubW(AluW(op, a, b), rd == rs1, rd == rs2, a, b));
  }

  predicate IsPlainW(t: Token) { t in {ADDW, SUBW, SLLW, SRLW, SRAW, MULW} }

  function PlainAluW(t: Token): AluOp
    requires IsPlainW(t)
  {
    match t
    case ADDW => Add case SUBW => Sub case SLLW => Lslv case SRLW => Lsrv case SRAW => Asrv case MULW => Mul
  }

  lemma PlainSelectsW(rd: Gp, rs1: Gp, rs2: Gp, t: Token, l: Label, a: Half, b: Half)
    requires IsPlainW(t)
    ensures Reg32Select(rd, rs1, rs2, t, l) == [Alu(PlainAluW(t), W, rd, rs1, rs2)] + Sxtw(rd)
    ensures Reg32Selected(t, rd == rs1, rd == rs2, a, b) == AluW(PlainAluW(t), a, b)
  {
  }

  lemma DivideSelectsW(rd: Gp, rs1: Gp, rs2: Gp, t: Token, l: Label, a: Half, b: Half, op: AluOp)
    requires t in {DIVW, DIVUW, REMW, REMUW} && op == if t in {DIVW, REMW} then Sdiv else Udiv
    ensures Reg32Select(rd, rs1, rs2, t, l)
         == (if t in {DIVW, DIVUW} then IfZero(W, rs2, l, [Alu(op, W, rd, rs1, rs2)], [MovI(W, rd, TWO32 - 1)], l + 1)
             else IfZero(W, rs2, l, [Alu(op, W, rd, rs1, rs2), Msub(W, rd, rd, rs2, rs1)], [MovR(W, rd, rs1)], l + 1)) + Sxtw(rd)
    ensures Reg32Selected(t, rd == rs1, rd == rs2, a, b)
         == if t in {DIVW, DIVUW} then (if b == 0 then TWO32 - 1 else AluW(op, a, b))
            else (if b == 0 then a else RemByMsubW(AluW(op, a, b), rd == rs1, rd == rs2, a, b))
  {
  }

  lemma Reg32SelectRuns<G>(env: Env<G>, rd: Gp, rs1: Gp, rs2: Gp, t: Token, l: Label, s: Host<G>)
    requires Running(s) && rd != ZR && IsReg32(t)
    ensures Sets(s, Run(env, Reg32Select(rd, rs1, rs2, t, l), s), rd,
                 SignExtend32(Reg32Selected(t, rd == rs1, rd == rs2, Wrap32(Get(s, rs1)), Wrap32(Get(s, rs2)))))
  {
    var a, b := Wrap32(Get(s, rs1)), Wrap32(Get(s, rs2));
    Reg32SelectCases(env, rd, rs1, rs2, t, l, s, a, b, Reg32Select(rd, rs1, rs2, t, l), Reg32Selected(t, rd == rs1, rd == rs2, a, b));
  }

  lemma Reg32SelectCases<G>(env: Env<G>, rd: Gp, rs1: Gp, rs2: Gp, t: Token, l: Label, s: Host<G>, a: Half, b: Half,
                            code: seq<Ins>, v: Half)
    requires Running(s) && rd != ZR && IsReg32(t) && a == Wrap32(Get(s, rs1)) && b == Wrap32(Get(s, rs2))
    requires code == Reg32Select(rd, rs1, rs2, t, l) && v == Reg32Selected(t, rd == rs1, rd == rs2, a, b)
    ensures Sets(s, Run(env, code, s), rd, SignExtend32(v))
  {
    if IsPlainW(t) {
      PlainSelectsW(rd, rs1, rs2, t, l, a, b);
      AluWRuns(env, PlainAluW(t), rd, rs1, rs2, s);
    } else {
      var op := if t in {DIVW, REMW} then Sdiv else Udiv;
      DivideSelectsW(rd, rs1, rs2, t, l, a, b, op);
      if t in {DIVW, DIVUW} {
        DivWSelectRuns(env, op, rd, rs1, rs2, l, s);
      } else {
        RemWSelectRuns(env, op, rd, rs1, rs2, l, s);
      }
    }
  }

  // ----- immediate forms: rd receives the immediate before rs1 is read -----

  function ImmAlu(t: Token): AluOp
    requires IsImm(t) && t !in {SLTI, SLTIU}
  {
    match t
    case ADDI => Add case XORI => Eor case ORI => Orr case ANDI => And_
    case SLLI => Lslv case SRLI => Lsrv case SRAI => Asrv
  }

  function ImmSelected(t: Token, d1: bool, a: Word, imm: int): Word
    requires IsImm(t)
  {
    var first := if d1 then Wrap64(imm) else a;
    match t
    case SLTI => Flag(Holds(CondLT, Compare(first, Wrap64(imm))))
    case SLTIU => Flag(Holds(CondLO, Compare(first, Wrap64(imm))))
    case _ => AluX(ImmAlu(t), first, Wrap64(imm))
  }

  lemma ImmCompareRuns<G>(env: Env<G>, rd: Gp, rs1: Gp, imm: int, cond: Cond, s: Host<G>)
    requires Running(s) && rd != ZR
    ensures Sets(s, Run(env, [MovI(X, rd, imm), Cmp(rs1, rd), Cset(rd, cond)], s), rd,
                 Flag(Holds(cond, Compare(if rd == rs1 then Wrap64(imm) else Get(s, rs1), Wrap64(imm)))))
  {
    var s1 := s.(x := s.x[rd := Wrap64(imm)]);
    StepMovI(env, rd, imm, s);
    var s2 := s1.(flags := Compare(Get(s1, rs1), Wrap64(imm)));
    assert Step(env, Cmp(rs1, rd), s1) == s2;
    RunThree(env, MovI(X, rd, imm), Cmp(rs1, rd), Cset(rd, cond), s);
  }

  lemma ImmAluRuns<G>(env: Env<G>, op: AluOp, rd: Gp, rs1: Gp, imm: int, s: Host<G>)
    requires Running(s) && rd != ZR
    ensures Sets(s, Run(env, [MovI(X, rd, imm), Alu(op, X, rd, rs1, rd)], s), rd,
                 AluX(op, if rd == rs1 then Wrap64(imm) else Get(s, rs1), Wrap64(imm)))
  {
    var s1 := s.(x := s.x[rd := Wrap64(imm)]);
    StepMovI(env, rd, imm, s);
    RunTwo(env, MovI(X, rd, imm), Alu(op, X, rd, rs1, rd), s);
  }

  lemma ImmSelects(rd: Gp, rs1: Gp, imm: int, t: Token)
    requires IsImm(t)
    ensures ImmSelect(rd, rs1, imm, t)
         == if t in {SLTI, SLTIU} then [MovI(X, rd, imm), Cmp(rs1, rd), Cset(rd, if t == SLTI then CondLT else CondLO)]
            else [MovI(X, rd, imm), Alu(ImmAlu(t), X, rd, rs1, rd)]
  {
  }

  lemma ImmSelectRuns<G>(env: Env<G>, rd: Gp, rs1: Gp, imm: int, t: Token, s: Host<G>)
    requires Running(s) && rd != ZR && IsImm(t)
    ensures Sets(s, Run(env, ImmSelect(rd, rs1, imm, t), s), rd, ImmSelected(t, rd == rs1, Get(s, rs1), imm))
  {
    ImmSelectCases(env, rd, rs1, imm, t, s, ImmSelect(rd, rs1, imm, t), ImmSelected(t, rd == rs1, Get(s, rs1), imm));
  }

  lemma ImmSelectCases<G>(env: Env<G>, rd: Gp, rs1: Gp, imm: int, t: Token, s: Host<G>, code: seq<Ins>, v: Word)
    requires Running(s) && rd != ZR && IsImm(t)
    requires code == ImmSelect(rd, rs1, imm, t) && v == ImmSelected(t, rd == rs1, Get(s, rs1), imm)
    ensures Sets(s, Run(env, code, s), rd, v)
  {
    ImmSelects(rd, rs1, imm, t);
    if t in {SLTI, SLTIU} {
      ImmCompareRuns(env, rd, rs1, imm, if t == SLTI then CondLT else CondLO, s);
    } else {
      ImmAluRuns(env, ImmAlu(t), rd, rs1, imm, s);
    }
  }

  function Imm32Alu(t: Token): AluOp
    requires IsImm32(t)
  {
    match t
    case ADDIW => Add case SLLIW => Lslv case SRLIW => Lsrv case SRAIW => Asrv
  }

  function Imm32Selected(t: Token, d1: bool, a: Half, imm: int): Half
    requires IsImm32(t)
  {
    AluW(Imm32Alu(t), if d1 then Wrap32(imm) else a, Wrap32(imm))
  }

  lemma Imm32AluRuns<G>(env: Env<G>, op: AluOp, rd: Gp, rs1: Gp, imm: int, s: Host<G>)
    requires Running(s) && rd != ZR
    ensures Sets(s, Run(env, [MovI(W, rd, imm), Alu(op, W, rd, rs1, rd)] + Sxtw(rd), s), rd,
                 SignExtend32(AluW(op, if rd == rs1 then Wrap32(imm) else Wrap32(Get(s, rs1)), Wrap32(imm))))
  {
    var code := [MovI(W, rd, imm), Alu(op, W, rd, rs1, rd)];
    var h := AluW(op, if rd == rs1 then Wrap32(imm) else Wrap32(Get(s, rs1)), Wrap32(imm));
    Imm32PairRuns(env, op, rd, rs1, imm, s, h);
    ThenSxtw(env, code, rd, s, Run(env, code, s), h);
  }

  lemma Imm32PairRuns<G>(env: Env<G>, op: AluOp, rd: Gp, rs1: Gp, imm: int, s: Host<G>, h: Half)
    requires Running(s) && rd != ZR && h == AluW(op, if rd == rs1 then Wrap32(imm) else Wrap32(Get(s, rs1)), Wrap32(imm))
    ensures Run(env, [MovI(W, rd, imm), Alu(op, W, rd, rs1, rd)], s) == s.(x := s.x[rd := h])
  {
    var i := Wrap32(imm);
    var s1 := s.(x := s.x[rd := i]);
    StepMovW(env, rd, imm, s);
    HalfFits(i);
    StepAluW(env, op, rd, rs1, rd, s1);
    RunsTwo(env, MovI(W, rd, imm), Alu(op, W, rd, rs1, rd), s, s1, s1.(x := s1.x[rd := h]));
  }

  lemma HalfFits(h: Half)
    ensures Wrap32(h) == h
  {
  }

  lemma Imm32Selects(rd: Gp, rs1: Gp, imm: int, t: Token)
    requires IsImm32(t)
    ensures Imm32Select(rd, rs1, imm, t) == [MovI(W, rd, imm), Alu(Imm32Alu(t), W, rd, rs1, rd)] + Sxtw(rd)
  {
  }

  lemma Imm32SelectRuns<G>(env: Env<G>, rd: Gp, rs1: Gp, imm: int, t: Token, s: Host<G>)
    requires Running(s) && rd != ZR && IsImm32(t)
    ensures Sets(s, Run(env, Imm32Select(rd, rs1, imm, t), s), rd,
                 SignExtend32(Imm32Selected(t, rd == rs1, Wrap32(Get(s, rs1)), imm)))
  {
    Imm32Selects(rd, rs1, imm, t);
    Imm32AluRuns(env, Imm32Alu(t), rd, rs1, imm, s);
  }
}
