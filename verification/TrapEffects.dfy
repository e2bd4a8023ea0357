/**
 Taking traps and interrupts and returning from them (src/cpu/cpu.cc, src/cpu/executor.cc) by their effect, with
 registers, bits and causes as the numbers of the RISC-V Privileged Architecture.
 */
module TrapEffects {
  import opened Words
  import opened BitWords
  import opened BitLaws
  import opened Csr
  import opened Traps
  import opened Hart

  // ----- causes -----

  type Code = c: nat | c < 64

  /** Exception codes 0 to 15 of section 3.1.15; NoTrap marks the reserved ones. */
  const EXCEPTIONS: seq<TrapType> :=
    [InstructionAddressMisaligned, InstructionAccessFault, IllegalInstruction, Breakpoint,
     LoadAddressMisaligned, LoadAccessFault, StoreAddressMisaligned, StoreAccessFault,
     EnvironmentCallFromUMode, EnvironmentCallFromSMode, NoTrap, EnvironmentCallFromMMode,
     InstructionPageFault, LoadPageFault, NoTrap, StorePageFault]

  /** Interrupt codes 0 to 11. */
  const INTERRUPTS: seq<TrapType> :=
    [UserSoftwareInterrupt, SupervisorSoftwareInterrupt, NoTrap, MachineSoftwareInterrupt,
     UserTimerInterrupt, SupervisorTimerInterrupt, NoTrap, MachineTimerInterrupt,
     UserExternalInterrupt, SupervisorExternalInterrupt, NoTrap, MachineExternalInterrupt]

  /** Trap `t` has code `c`. */
  predicate Coded(t: TrapType, c: nat, interrupt: bool) {
    t != NoTrap && if interrupt then c < 12 && INTERRUPTS[c] == t else c < 16 && EXCEPTIONS[c] == t
  }

  lemma CodedIs(t: TrapType, c: nat, interrupt: bool)
    requires Coded(t, c, interrupt)
    ensures Cause(t) == c && IsInterrupt(t) == interrupt
  {
    if interrupt { InterruptCode(c); } else { ExceptionCode(c); }
  }

  lemma InterruptCode(c: nat)
    requires c < 12 && INTERRUPTS[c] != NoTrap
    ensures Cause(INTERRUPTS[c]) == c && IsInterrupt(INTERRUPTS[c])
  {
    if c < 6 { assert c in [0, 1, 2, 3, 4, 5]; } else { assert c in [6, 7, 8, 9, 10, 11]; }
  }

  lemma ExceptionCode(c: nat)
    requires c < 16 && EXCEPTIONS[c] != NoTrap
    ensures Cause(EXCEPTIONS[c]) == c && !IsInterrupt(EXCEPTIONS[c])
  {
    if c < 8 { assert c in [0, 1, 2, 3, 4, 5, 6, 7]; } else { assert c in [8, 9, 10, 11, 12, 13, 14, 15]; }
  }

  /** Every trap has exactly one code. */
  lemma EveryTrapCoded(t: TrapType) returns (c: nat, interrupt: bool)
    requires t != NoTrap
    ensures Coded(t, c, interrupt)
    ensures forall d, i :: Coded(t, d, i) ==> d == c && i == interrupt
  {
    c, interrupt := Cause(t), IsInterrupt(t);
    forall d: nat, i | Coded(t, d, i) ensures d == c && i == interrupt { CodedIs(t, d, i); }
  }

  /** The cause register: the code, and the top bit for interrupts. */
  lemma CauseNumber(t: TrapType, c: nat, interrupt: bool)
    requires Coded(t, c, interrupt)
    ensures FromBits(CauseWord(t)) == c + if interrupt then TWO63 else 0
  {
    CodedIs(t, c, interrupt);
    TopBitClear(c);
    RoundTrip(c);
    FlagOnTop(ToBits(c), interrupt);
  }

  lemma FlagOnTop(b: Bits, flag: bool)
    requires !b[63]
    ensures FromBits(b[63 := flag]) == FromBits(b) + if flag then TWO63 else 0
  {
    if flag {
      SetDigit(b, 63);
      TopWeight();
    } else {
      assert b[63 := false] == b;
    }
  }

  lemma TopWeight()
    ensures Pow2(63) == TWO63
  {
    Pow2Sixty4();
    assert Pow2(64) == 2 * Pow2(63);
  }

  lemma {:induction false} HighDigit(w: nat, n: nat, k: nat)
    requires k < n && w < Pow2(k)
    ensures !Digits(w, n)[k]
    decreases n
  {
    if k > 0 { HighDigit(w / 2, n - 1, k - 1); }
  }

  lemma TopBitClear(c: nat)
    requires c < 16
    ensures !ToBits(c)[63]
  {
    TopWeight();
    HighDigit(c, 64, 63);
  }

  // ----- a trap taken -----

  /** Where the handler for code `c` starts: the base, and four times the code for each unit of the mode field. */
  function StartOf(tvec: Word, c: nat): Word { (tvec / 4 * 4 + 4 * c * (tvec % 4)) % TWO64 }

  /** Bit `i` of the first status is bit `i` of the second. */
  ghost predicate SameBit(a: Bits, b: Bits, i: nat) { i < 64 ==> a[i] == b[i] }

  /**
   Hart `h` became `r` by a trap to S with code `c`: pc from stvec (0x105), sepc (0x141), scause (0x142) and stval
   (0x143) written, in mstatus (0x300) SIE (1) cleared into SPIE (5) and the old privilege in SPP (8); nothing else.
   */
  ghost predicate TookS<G>(h: Hart<G>, r: Hart<G>, c: nat, interrupt: bool, val: Word, epc: Word) {
    var tvec, st, was := FromBits(h.csr[0x105]), r.csr[0x300], h.csr[0x300];
    && r == h.(pc := StartOf(tvec, c), priv := Supervisor, csr := r.csr)
    && FromBits(r.csr[0x141]) == epc && FromBits(r.csr[0x142]) == c + (if interrupt then TWO63 else 0) && FromBits(r.csr[0x143]) == val
    && !st[1] && st[5] == was[1] && st[8] == (h.priv == Supervisor)
    && (forall i: nat :: i != 1 && i != 5 && i != 8 ==> SameBit(st, was, i))
    && (forall a: CsrAddr :: a != 0x141 && a != 0x142 && a != 0x143 && a != 0x300 ==> r.csr[a] == h.csr[a])
  }

  /** ... and to M: mtvec (0x305), mepc (0x341), mcause (0x342), mtval (0x343), MIE (3), MPIE (7) and MPP (11 and 12). */
  ghost predicate TookM<G>(h: Hart<G>, r: Hart<G>, c: nat, interrupt: bool, val: Word, epc: Word) {
    var tvec, st, was := FromBits(h.csr[0x305]), r.csr[0x300], h.csr[0x300];
    && r == h.(pc := StartOf(tvec, c), priv := Machine, csr := r.csr)
    && FromBits(r.csr[0x341]) == epc && FromBits(r.csr[0x342]) == c + (if interrupt then TWO63 else 0) && FromBits(r.csr[0x343]) == val
    && !st[3] && st[7] == was[3]
    && st[11] == (h.priv == Supervisor || h.priv == Machine) && st[12] == (h.priv == Reserved || h.priv == Machine)
    && (forall i: nat :: i != 3 && i != 7 && i != 11 && i != 12 ==> SameBit(st, was, i))
    && (forall a: CsrAddr :: a != 0x341 && a != 0x342 && a != 0x343 && a != 0x300 ==> r.csr[a] == h.csr[a])
  }

  /** The trap goes to S: not from M, and its bit is set in mideleg (0x303) or medeleg (0x302). */
  predicate GoesToS<G>(h: Hart<G>, c: Code, interrupt: bool) {
    h.priv != Machine && h.csr[if interrupt then 0x303 else 0x302][c]
  }

  ghost predicate Took<G>(h: Hart<G>, r: Hart<G>, c: Code, interrupt: bool, val: Word, epc: Word) {
    if GoesToS(h, c, interrupt) then TookS(h, r, c, interrupt, val, epc) else TookM(h, r, c, interrupt, val, epc)
  }

  lemma HandlerPc(tvec: Word, c: nat)
    ensures GetTrapPC(tvec, c) == StartOf(tvec, c)
  {
    VectorOffsetIs(tvec % 4, c);
  }

  lemma StatusOfS(was: Bits, st: Bits, from: Priv)
    requires st == EnterS(was, from) && from != Machine
    ensures !st[1] && st[5] == was[1] && st[8] == (from == Supervisor)
    ensures forall i: nat :: i != 1 && i != 5 && i != 8 ==> SameBit(st, was, i)
  {
  }

  lemma StatusOfM(was: Bits, st: Bits, from: Priv)
    requires st == EnterM(was, from)
    ensures !st[3] && st[7] == was[3]
    ensures st[11] == (from == Supervisor || from == Machine) && st[12] == (from == Reserved || from == Machine)
    ensures forall i: nat :: i != 3 && i != 7 && i != 11 && i != 12 ==> SameBit(st, was, i)
  {
  }

  /** The three records, as numbers. */
  lemma RecordedNumbers(epcWord: Bits, causeWord: Bits, valWord: Bits, t: Trap, epc: Word, c: nat, interrupt: bool)
    requires Coded(t.ty, c, interrupt) && epcWord == ToBits(epc) && causeWord == CauseWord(t.ty) && valWord == ToBits(t.val)
    ensures FromBits(epcWord) == epc && FromBits(valWord) == t.val && FromBits(causeWord) == c + if interrupt then TWO63 else 0
  {
    CauseNumber(t.ty, c, interrupt);
    RoundTrip(epc);
    RoundTrip(t.val);
  }

  lemma OthersOfS(f: CsrFile, from: Priv, t: Trap, epc: Word, a: CsrAddr)
    requires a != 0x141 && a != 0x142 && a != 0x143 && a != 0x300
    ensures RecordS(f, from, t, epc)[a] == f[a]
  {
  }

  lemma OthersOfM(f: CsrFile, from: Priv, t: Trap, epc: Word, a: CsrAddr)
    requires a != 0x341 && a != 0x342 && a != 0x343 && a != 0x300
    ensures RecordM(f, from, t, epc)[a] == f[a]
  {
  }

  lemma SEntered<G>(h: Hart<G>, t: Trap, epc: Word, c: nat, interrupt: bool, r: Hart<G>)
    requires Coded(t.ty, c, interrupt) && h.priv != Machine && r == TrapToS(h, t, epc)
    ensures TookS(h, r, c, interrupt, t.val, epc)
  {
    CodedIs(t.ty, c, interrupt);
    HandlerPc(FromBits(h.csr[0x105]), c);
    var f, g := h.csr, RecordS(h.csr, h.priv, t, epc);
    RecordedS(f, h.priv, t, epc);
    RecordedNumbers(g[0x141], g[0x142], g[0x143], t, epc, c, interrupt);
    StatusOfS(f[0x300], g[0x300], h.priv);
    forall a: CsrAddr | a != 0x141 && a != 0x142 && a != 0x143 && a != 0x300 ensures g[a] == f[a] { OthersOfS(f, h.priv, t, epc, a); }
    TookSFrom(h, r, c, interrupt, t.val, epc, g);
  }

  lemma TookSFrom<G>(h: Hart<G>, r: Hart<G>, c: nat, interrupt: bool, val: Word, epc: Word, g: CsrFile)
    requires r == h.(pc := StartOf(FromBits(h.csr[0x105]), c), priv := Supervisor, csr := g)
    requires FromBits(g[0x141]) == epc && FromBits(g[0x142]) == c + (if interrupt then TWO63 else 0) && FromBits(g[0x143]) == val
    requires !g[0x300][1] && g[0x300][5] == h.csr[0x300][1] && g[0x300][8] == (h.priv == Supervisor)
    requires forall i: nat :: i != 1 && i != 5 && i != 8 ==> SameBit(g[0x300], h.csr[0x300], i)
    requires forall a: CsrAddr :: a != 0x141 && a != 0x142 && a != 0x143 && a != 0x300 ==> g[a] == h.csr[a]
    ensures TookS(h, r, c, interrupt, val, epc)
  {
  }

  lemma MEntered<G>(h: Hart<G>, t: Trap, epc: Word, c: nat, interrupt: bool, r: Hart<G>)
    requires Coded(t.ty, c, interrupt) && r == TrapToM(h, t, epc)
    ensures TookM(h, r, c, interrupt, t.val, epc)
  {
    CodedIs(t.ty, c, interrupt);
    HandlerPc(FromBits(h.csr[0x305]), c);
    var f, g := h.csr, RecordM(h.csr, h.priv, t, epc);
    RecordedM(f, h.priv, t, epc);
    RecordedNumbers(g[0x341], g[0x342], g[0x343], t, epc, c, interrupt);
    StatusOfM(f[0x300], g[0x300], h.priv);
    forall a: CsrAddr | a != 0x341 && a != 0x342 && a != 0x343 && a != 0x300 ensures g[a] == f[a] { OthersOfM(f, h.priv, t, epc, a); }
    TookMFrom(h, r, c, interrupt, t.val, epc, g);
  }

  lemma TookMFrom<G>(h: Hart<G>, r: Hart<G>, c: nat, interrupt: bool, val: Word, epc: Word, g: CsrFile)
    requires r == h.(pc := StartOf(FromBits(h.csr[0x305]), c), priv := Machine, csr := g)
    requires FromBits(g[0x341]) == epc && FromBits(g[0x342]) == c + (if interrupt then TWO63 else 0) && FromBits(g[0x343]) == val
    requires !g[0x300][3] && g[0x300][7] == h.csr[0x300][3]
    requires g[0x300][11] == (h.priv == Supervisor || h.priv == Machine) && g[0x300][12] == (h.priv == Reserved || h.priv == Machine)
    requires forall i: nat :: i != 3 && i != 7 && i != 11 && i != 12 ==> SameBit(g[0x300], h.csr[0x300], i)
    requires forall a: CsrAddr :: a != 0x341 && a != 0x342 && a != 0x343 && a != 0x300 ==> g[a] == h.csr[a]
    ensures TookM(h, r, c, interrupt, val, epc)
  {
  }

  /** Every trap, from every state: where it goes, where the handler starts and what it finds. */
  lemma TrapEffect<G>(h: Hart<G>, t: Trap, epc: Word, c: Code, interrupt: bool, r: Hart<G>)
    requires Coded(t.ty, c, interrupt) && r == HandleTrap(h, t, epc)
    ensures Took(h, r, c, interrupt, t.val, epc)
  {
    CodedIs(t.ty, c, interrupt);
    if GoesToS(h, c, interrupt) {
      assert r == TrapToS(h, t, epc);
      SEntered(h, t, epc, c, interrupt, r);
    } else {
      assert r == TrapToM(h, t, epc);
      MEntered(h, t, epc, c, interrupt, r);
    }
  }

  // ----- an interrupt taken -----

  /** The codes in order of priority: external, software, timer, first of M and then of S. */
  const ORDER: seq<Code> := [11, 3, 7, 9, 1, 5]

  /** Pending in mip (0x344), enabled in mie (0x304) and, in M, not delegated. */
  predicate Raised<G>(h: Hart<G>, c: Code) {
    h.csr[0x344][c] && h.csr[0x304][c] && (h.priv == Machine ==> !h.csr[0x303][c])
  }

  /** The first raised one of ORDER is number `k`. */
  predicate FirstRaised<G>(h: Hart<G>, k: nat) {
    k < 6 && Raised(h, ORDER[k]) && forall j :: 0 <= j < k ==> !Raised(h, ORDER[j])
  }

  /** Interrupt `c` is let through: by MIE in M, by SIE in S when delegated, always otherwise. */
  predicate LetThrough<G>(h: Hart<G>, c: Code) {
    if h.priv == Machine then h.csr[0x300][3]
    else if h.csr[0x303][c] then h.priv == User || h.csr[0x300][1]
    else true
  }

  function RaisedBits<G>(h: Hart<G>): Bits {
    if h.priv == Machine then ClearBits(PendingEnabled(h), h.csr[MIDELEG]) else PendingEnabled(h)
  }

  lemma RaisedMeans<G>(h: Hart<G>, c: Code)
    ensures RaisedBits(h)[c] == Raised(h, c)
  {
  }

  lemma OrderIsRank(k: nat)
    requires k < 6
    ensures Cause(RANKED[k]) == ORDER[k] && Coded(RANKED[k], ORDER[k], true)
  {
    assert k in [0, 1, 2, 3, 4, 5];
  }

  lemma FirstChosen<G>(h: Hart<G>, k: nat)
    requires FirstRaised(h, k)
    ensures InterruptBitsToTrap(RaisedBits(h)) == RANKED[k] && RaisedBits(h) != NoBits()
  {
    forall j: nat | j <= k ensures RaisedBits(h)[Cause(RANKED[j])] == Raised(h, ORDER[j]) {
      OrderIsRank(j);
      RaisedMeans(h, ORDER[j]);
    }
    FirstRanked(RaisedBits(h), k);
    assert RaisedBits(h)[ORDER[k]] && !NoBits()[ORDER[k]];
  }

  lemma ChosenIs<G>(h: Hart<G>, k: nat, c: Code)
    requires FirstRaised(h, k) && c == ORDER[k]
    ensures ChosenInterrupt(h) == if LetThrough(h, c) then RANKED[k] else NoTrap
  {
    FirstChosen(h, k);
    OrderIsRank(k);
    if h.priv != Machine { MaskBit(RANKED[k], h.csr[MIDELEG]); }
  }

  lemma NoneChosen<G>(h: Hart<G>)
    requires forall k :: 0 <= k < 6 ==> !Raised(h, ORDER[k])
    ensures ChosenInterrupt(h) == NoTrap
  {
    forall k: nat | k < 6 ensures !RaisedBits(h)[Cause(RANKED[k])] {
      OrderIsRank(k);
      RaisedMeans(h, ORDER[k]);
    }
    NoneRanked(RaisedBits(h));
  }

  /** mip after HandleInterrupt: the bits of 0xaaa, the odd ones below 12, with bit `c` cleared. */
  ghost predicate MipAfter(was: Bits, mip: Bits, c: int) {
    forall i: nat :: i < 64 ==> mip[i] == (was[i] && i != c && i < 12 && i % 2 == 1)
  }

  lemma OddBelowTwelve(i: nat)
    ensures i in M_INTERRUPTS <==> i < 12 && i % 2 == 1
  {
  }

  lemma MipCleared(was: Bits, t: TrapType, mip: Bits)
    requires mip == Masked(ClearBits(was, TrapToMask(t)), M_INTERRUPTS)
    ensures MipAfter(was, mip, if t == NoTrap then -1 else Cause(t))
  {
    forall i: nat | i < 64 ensures i in M_INTERRUPTS <==> i < 12 && i % 2 == 1 { OddBelowTwelve(i); }
  }

  /**
   The first raised interrupt, if it is let through, is taken as a trap with its code (`taken` is the hart after that),
   its bit in mip is cleared and the hart wakes up.
   */
  lemma InterruptEffect<G>(h: Hart<G>, at: Word, k: nat, c: Code, r: Hart<G>) returns (taken: Hart<G>)
    requires FirstRaised(h, k) && c == ORDER[k] && LetThrough(h, c) && r == HandleInterrupt(h, at)
    ensures Took(h, taken, c, true, h.pc, at)
    ensures r == taken.(wfi := false, csr := taken.csr[0x344 := r.csr[0x344]]) && MipAfter(h.csr[0x344], r.csr[0x344], c)
  {
    ChosenIs(h, k, c);
    OrderIsRank(k);
    taken := HandleTrap(h, Trap(RANKED[k], h.pc), at);
    TrapEffect(h, Trap(RANKED[k], h.pc), at, c, true, taken);
    MipCleared(h.csr[0x344], RANKED[k], Masked(ClearBits(h.csr[MIP], TrapToMask(RANKED[k])), M_INTERRUPTS));
  }

  /** If none is raised, or the first is not let through, nothing happens. */
  lemma NoInterruptEffect<G>(h: Hart<G>, at: Word, r: Hart<G>)
    requires r == HandleInterrupt(h, at)
    requires forall k: nat :: FirstRaised(h, k) ==> !LetThrough(h, ORDER[k])
    ensures r == h.(csr := h.csr[0x344 := r.csr[0x344]]) && MipAfter(h.csr[0x344], r.csr[0x344], -1)
  {
    if k: nat :| FirstRaised(h, k) {
      ChosenIs(h, k, ORDER[k]);
    } else {
      NoneFirst(h, 6);
      NoneChosen(h);
    }
    MipCleared(h.csr[0x344], NoTrap, Masked(ClearBits(h.csr[MIP], TrapToMask(NoTrap)), M_INTERRUPTS));
  }

  lemma {:induction false} NoneFirst<G>(h: Hart<G>, n: nat)
    requires n <= 6 && forall k: nat :: !FirstRaised(h, k)
    ensures forall k :: 0 <= k < n ==> !Raised(h, ORDER[k])
  {
    if n > 0 {
      NoneFirst(h, n - 1);
      assert !FirstRaised(h, n - 1);
    }
  }

  // ----- returning -----

  /** MRET: only in M; pc from mepc, privilege from MPP, MIE from MPIE, MPIE set, MPP cleared, MPRV kept only on a return to M. */
  lemma MretEffect<G>(h: Hart<G>, word: Half, s: Step<G>)
    requires s == MRet(h, word)
    ensures h.priv != Machine ==> s == Step(h, Trap(IllegalInstruction, word))
    ensures h.priv == Machine ==>
              var was, st := h.csr[0x300], s.h.csr[0x300];
              var to := if was[12] then (if was[11] then Machine else Reserved) else if was[11] then Supervisor else User;
              && s == Step(h.(pc := FromBits(h.csr[0x341]), priv := to, csr := h.csr[0x300 := st]), NONE)
              && st[3] == was[7] && st[7] && !st[11] && !st[12] && st[17] == (was[17] && to == Machine)
              && forall i: nat :: i != 3 && i != 7 && i != 11 && i != 12 && i != 17 ==> SameBit(st, was, i)
  {
  }

  /** SRET: in S or M unless TSR (22) is set; pc from sepc, privilege from SPP, SIE from SPIE, SPIE set, SPP and MPRV cleared. */
  lemma SretEffect<G>(h: Hart<G>, word: Half, s: Step<G>)
    requires s == SRet(h, word)
    ensures h.priv == User || h.csr[0x300][22] ==> s == Step(h, Trap(IllegalInstruction, word))
    ensures h.priv != User && !h.csr[0x300][22] ==>
              var was, st := h.csr[0x300], s.h.csr[0x300];
              && s == Step(h.(pc := FromBits(h.csr[0x141]), priv := if was[8] then Supervisor else User, csr := h.csr[0x300 := st]), NONE)
              && st[1] == was[5] && st[5] && !st[8] && !st[17]
              && forall i: nat :: i != 1 && i != 5 && i != 8 && i != 17 ==> SameBit(st, was, i)
  {
  }
}
