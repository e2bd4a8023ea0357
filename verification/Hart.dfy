/**
 The privilege state machine: HandleTrap and HandleInterrupt of src/cpu/cpu.cc, MRET and
 SRET of src/cpu/executor.cc, on the state of one hart.  `G` is the state of the memory
 system, which none of these touch.
 */
module Hart {
  import opened Words
  import opened BitWords
  import opened Csr
  import opened Traps

  datatype Priv = User | Supervisor | Reserved | Machine

  function Level(p: Priv): nat { match p case User => 0 case Supervisor => 1 case Reserved => 2 case Machine => 3 }

  /** The privilege with two-bit encoding (low, high). */
  function PrivOf(low: bool, high: bool): Priv {
    if high then (if low then Machine else Reserved) else if low then Supervisor else User
  }

  /** AmoReservation */
  datatype Reservation = Reservation(addr: Word, size: nat, valid: bool, hart: Half)

  type XRegs = s: seq<Word> | |s| == 32 witness seq(32, i => 0)

  datatype Hart<G> = Hart(
    pc: Word, instret: Word, hartId: Half, priv: Priv, xregs: XRegs, csr: CsrFile, wfi: bool,
    resv: Reservation, mem: G)

  function Status<G>(h: Hart<G>): Bits { h.csr[MSTATUS] }

  // ----- taking a trap -----

  predicate Delegated<G>(h: Hart<G>, t: TrapType) {
    h.priv != Machine && h.csr[if IsInterrupt(t) then MIDELEG else MEDELEG][Cause(t)]
  }

  // The two bits of a privilege level's encoding.
  predicate LowBit(p: Priv) { p == Supervisor || p == Machine }
  predicate HighBit(p: Priv) { p == Reserved || p == Machine }

  function EnterS(st: Bits, from: Priv): Bits {
    st[SPIE_BIT := st[SIE_BIT]][SIE_BIT := false][SPP_BIT := LowBit(from)]
  }

  function EnterM(st: Bits, from: Priv): Bits {
    st[MPIE_BIT := st[MIE_BIT]][MIE_BIT := false][MPP_BIT := LowBit(from)][MPP_BIT + 1 := HighBit(from)]
  }

  function RecordS(f: CsrFile, from: Priv, t: Trap, epc: Word): CsrFile {
    var f1: CsrFile := f[SEPC := ToBits(epc)];
    var f2: CsrFile := f1[SCAUSE := CauseWord(t.ty)];
    var f3: CsrFile := f2[STVAL := ToBits(t.val)];
    f3[MSTATUS := EnterS(f[MSTATUS], from)]
  }

  function RecordM(f: CsrFile, from: Priv, t: Trap, epc: Word): CsrFile {
    var f1: CsrFile := f[MEPC := ToBits(epc)];
    var f2: CsrFile := f1[MCAUSE := CauseWord(t.ty)];
    var f3: CsrFile := f2[MTVAL := ToBits(t.val)];
    f3[MSTATUS := EnterM(f[MSTATUS], from)]
  }

  function TrapToS<G>(h: Hart<G>, t: Trap, epc: Word): Hart<G> {
    h.(pc := GetTrapPC(FromBits(h.csr[STVEC]), Cause(t.ty)), csr := RecordS(h.csr, h.priv, t, epc), priv := Supervisor)
  }

  function TrapToM<G>(h: Hart<G>, t: Trap, epc: Word): Hart<G> {
    h.(pc := GetTrapPC(FromBits(h.csr[MTVEC]), Cause(t.ty)), csr := RecordM(h.csr, h.priv, t, epc), priv := Machine)
  }

  function HandleTrap<G>(h: Hart<G>, t: Trap, epc: Word): Hart<G> {
    if t.ty == NoTrap then h
    else if Delegated(h, t.ty) then TrapToS(h, t, epc)
    else TrapToM(h, t, epc)
  }

  // ----- taking an interrupt -----

  function PendingEnabled<G>(h: Hart<G>): Bits { AndBits(h.csr[MIP], h.csr[MIE]) }

  /** The interrupt HandleInterrupt takes now, or NoTrap. */
  function ChosenInterrupt<G>(h: Hart<G>): TrapType {
    var ms, deleg := Status(h), h.csr[MIDELEG];
    if h.priv == Machine then
      var bits := ClearBits(PendingEnabled(h), deleg);
      if bits != NoBits() && ms[MIE_BIT] then InterruptBitsToTrap(bits) else NoTrap
    else
      var t := InterruptBitsToTrap(PendingEnabled(h));
      if AndBits(TrapToMask(t), deleg) != NoBits() then
        if ms[SIE_BIT] || Level(h.priv) < 1 then t else NoTrap
      else
        if ms[MIE_BIT] || Level(h.priv) < 3 then t else NoTrap
  }

  /** Take interrupt `t`, if it is one, and clear its pending bit. */
  function InterruptWith<G>(h: Hart<G>, t: TrapType, at: Word): Hart<G> {
    var h1 := HandleTrap(h, Trap(t, h.pc), at);
    h1.(csr := h1.csr[MIP := Masked(ClearBits(h.csr[MIP], TrapToMask(t)), M_INTERRUPTS)],
        wfi := h1.wfi && t == NoTrap)
  }

  function HandleInterrupt<G>(h: Hart<G>, at: Word): Hart<G> { InterruptWith(h, ChosenInterrupt(h), at) }

  // ----- returning -----

  datatype Step<G> = Step(h: Hart<G>, trap: Trap)

  function Illegal<G>(h: Hart<G>, word: Half): Step<G> { Step(h, Trap(IllegalInstruction, word)) }

  function Mpp(st: Bits): Priv { PrivOf(st[MPP_BIT], st[MPP_BIT + 1]) }

  function Spp(st: Bits): Priv { PrivOf(st[SPP_BIT], false) }

  function LeaveM(st: Bits): Bits {
    st[MPP_BIT := false][MPP_BIT + 1 := false][MPIE_BIT := true][MIE_BIT := st[MPIE_BIT]]
      [MPRV_BIT := st[MPRV_BIT] && Level(Mpp(st)) >= 3]
  }

  function LeaveS(st: Bits): Bits {
    st[SPP_BIT := false][SPIE_BIT := true][SIE_BIT := st[SPIE_BIT]][MPRV_BIT := st[MPRV_BIT] && Level(Spp(st)) >= 3]
  }

  function MRet<G>(h: Hart<G>, word: Half): Step<G> {
    if Level(h.priv) < 3 then Illegal(h, word)
    else Step(h.(csr := h.csr[MSTATUS := LeaveM(Status(h))], priv := Mpp(Status(h)), pc := FromBits(h.csr[MEPC])), NONE)
  }

  function SRet<G>(h: Hart<G>, word: Half): Step<G> {
    if Level(h.priv) < 1 || Status(h)[TSR_BIT] then Illegal(h, word)
    else Step(h.(csr := h.csr[MSTATUS := LeaveS(Status(h))], priv := Spp(Status(h)), pc := FromBits(h.csr[SEPC])), NONE)
  }

  // ----- the same through the register file's Read and Write -----

  predicate Plain(a: CsrAddr) {
    a !in {SSTATUS, SIE, SIP, MIE, MIP, MSTATUS, MIDELEG, MEDELEG, SATP} && !ReadOnly(a)
  }

  lemma PlainWrite(f: CsrFile, a: CsrAddr, v: Bits)
    requires Plain(a)
    ensures Write(f, a, v) == f[a := v] && Read(f, a) == f[a]
  {
  }

  /** Entering S through the sstatus window, or M through mstatus, writes exactly the fields of that level. */
  lemma StatusWrites(ms: Bits, from: Priv)
    ensures Merge(ms, EnterM(ms, from), MSTATUS_WRITE) == EnterM(ms, from)
    ensures Merge(ms, EnterS(Masked(ms, SSTATUS_READ), from), SSTATUS_WRITE) == EnterS(ms, from)
  {
  }

  lemma StatusReturns(ms: Bits)
    ensures Merge(ms, LeaveM(ms), MSTATUS_WRITE) == LeaveM(ms)
    ensures Merge(ms, LeaveS(ms), MSTATUS_WRITE) == LeaveS(ms)
  {
  }

  // ----- trap and return -----

  // The fields of mstatus a trap and its return do not restore: mpie, mpp and mprv; spie, spp and mprv; all of these.
  const M_SPENT: set<nat> := {7, 11, 12, 17}
  const S_SPENT: set<nat> := {5, 8, 17}
  const SPENT: set<nat> := {5, 7, 8, 11, 12, 17}

  /** The handler may do anything except lose mepc and mstatus before its MRET. */
  predicate MachineContextKept<G>(entry: Hart<G>, r: Hart<G>) {
    r.priv == Machine && r.csr[MEPC] == entry.csr[MEPC] && Status(r) == Status(entry)
  }

  predicate SupervisorContextKept<G>(entry: Hart<G>, r: Hart<G>) {
    r.priv == Supervisor && r.csr[SEPC] == entry.csr[SEPC] && Status(r) == Status(entry)
  }

  lemma LeaveEnterM(st: Bits, from: Priv)
    ensures Mpp(EnterM(st, from)) == from
    ensures LeaveM(EnterM(st, from))[MIE_BIT] == st[MIE_BIT]
    ensures SameOutside(LeaveM(EnterM(st, from)), st, M_SPENT)
  {
  }

  lemma LeaveEnterS(st: Bits, from: Priv)
    requires from == User || from == Supervisor
    ensures Spp(EnterS(st, from)) == from
    ensures LeaveS(EnterS(st, from))[SIE_BIT] == st[SIE_BIT]
    ensures SameOutside(LeaveS(EnterS(st, from)), st, S_SPENT)
  {
  }

  /** The return that matches the level that took the trap. */
  function Return<G>(r: Hart<G>, word: Half): Step<G> { if r.priv == Machine then MRet(r, word) else SRet(r, word) }

  /** pc, privilege and the interrupt-enable bits of `h`, with mstatus restored outside `spent`. */
  ghost predicate BackAt<G>(h: Hart<G>, pc: Word, back: Hart<G>, spent: set<nat>) {
    back.pc == pc && back.priv == h.priv && SameOutside(Status(back), Status(h), spent)
  }

  lemma MReturns<G>(st: Bits, from: Priv, r: Hart<G>, epc: Word, word: Half)
    requires r.priv == Machine && r.csr[MEPC] == ToBits(epc) && Status(r) == EnterM(st, from)
    ensures MRet(r, word).trap == NONE && MRet(r, word).h.pc == epc && MRet(r, word).h.priv == from
    ensures SameOutside(Status(MRet(r, word).h), st, M_SPENT)
  {
    LeaveEnterM(st, from);
    RoundTrip(epc);
  }

  lemma SReturns<G>(st: Bits, from: Priv, r: Hart<G>, epc: Word, word: Half)
    requires r.priv == Supervisor && r.csr[SEPC] == ToBits(epc) && Status(r) == EnterS(st, from) && !st[TSR_BIT]
    requires from == User || from == Supervisor
    ensures SRet(r, word).trap == NONE && SRet(r, word).h.pc == epc && SRet(r, word).h.priv == from
    ensures SameOutside(Status(SRet(r, word).h), st, S_SPENT)
  {
    TsrKept(st, from);
    SReturnsFrom(r, epc, word);
    LeaveEnterS(st, from);
  }

  lemma RecordedS(f: CsrFile, from: Priv, t: Trap, epc: Word)
    ensures var g := RecordS(f, from, t, epc);
            && g[MSTATUS] == EnterS(f[MSTATUS], from)
            && g[SEPC] == ToBits(epc) && g[SCAUSE] == CauseWord(t.ty) && g[STVAL] == ToBits(t.val)
  {
  }

  lemma RecordedM(f: CsrFile, from: Priv, t: Trap, epc: Word)
    ensures var g := RecordM(f, from, t, epc);
            && g[MSTATUS] == EnterM(f[MSTATUS], from)
            && g[MEPC] == ToBits(epc) && g[MCAUSE] == CauseWord(t.ty) && g[MTVAL] == ToBits(t.val)
            && g[SEPC] == f[SEPC] && g[SCAUSE] == f[SCAUSE] && g[STVAL] == f[STVAL]
  {
  }

  lemma TakenByS<G>(h: Hart<G>, t: Trap, epc: Word)
    requires t.ty != NoTrap && Delegated(h, t.ty)
    ensures var e := HandleTrap(h, t, epc);
            && h.priv != Machine && e.priv == Supervisor && Status(e) == EnterS(Status(h), h.priv)
            && e.csr[SEPC] == ToBits(epc) && e.csr[SCAUSE] == CauseWord(t.ty) && e.csr[STVAL] == ToBits(t.val)
  {
    RecordedS(h.csr, h.priv, t, epc);
    assert HandleTrap(h, t, epc).csr == RecordS(h.csr, h.priv, t, epc);
  }

  lemma TakenByM<G>(h: Hart<G>, t: Trap, epc: Word)
    requires t.ty != NoTrap && !Delegated(h, t.ty)
    ensures var e := HandleTrap(h, t, epc);
            && e.priv == Machine && Status(e) == EnterM(Status(h), h.priv)
            && e.csr[MEPC] == ToBits(epc) && e.csr[MCAUSE] == CauseWord(t.ty) && e.csr[MTVAL] == ToBits(t.val)
            && e.csr[SEPC] == h.csr[SEPC] && e.csr[SCAUSE] == h.csr[SCAUSE] && e.csr[STVAL] == h.csr[STVAL]
  {
    RecordedM(h.csr, h.priv, t, epc);
    assert HandleTrap(h, t, epc).csr == RecordM(h.csr, h.priv, t, epc);
  }

  lemma TsrKept(st: Bits, from: Priv)
    ensures EnterS(st, from)[TSR_BIT] == st[TSR_BIT]
  {
  }

  /**
   Trap then return, from U, S or M and for every trap: pc, privilege, MIE, SIE and every other field of
   mstatus outside SPENT come back, unless the trap went to S and TSR is set; then SRET is an illegal
   instruction and changes nothing.  `r` is the state in which the handler executes its return.
   */
  lemma TrapReturn<G>(h: Hart<G>, t: Trap, epc: Word, entry: Hart<G>, r: Hart<G>, word: Half)
    requires t.ty != NoTrap && h.priv != Reserved && entry == HandleTrap(h, t, epc)
    requires if Delegated(h, t.ty) then SupervisorContextKept(entry, r) else MachineContextKept(entry, r)
    ensures Delegated(h, t.ty) && Status(h)[TSR_BIT] ==> Return(r, word) == Illegal(r, word)
    ensures !(Delegated(h, t.ty) && Status(h)[TSR_BIT])
        ==> Return(r, word).trap == NONE && BackAt(h, epc, Return(r, word).h, SPENT)
  {
    if !Delegated(h, t.ty) {
      TakenByM(h, t, epc);
      MReturns(Status(h), h.priv, r, epc, word);
    } else {
      TakenByS(h, t, epc);
      if Status(h)[TSR_BIT] {
        TsrKept(Status(h), h.priv);
      } else {
        SReturns(Status(h), h.priv, r, epc, word);
      }
    }
  }

  // ----- an interrupt on top of an exception -----

  lemma MaskBit(t: TrapType, deleg: Bits)
    requires t != NoTrap
    ensures AndBits(TrapToMask(t), deleg) != NoBits() <==> deleg[Cause(t)]
  {
    if deleg[Cause(t)] {
      assert AndBits(TrapToMask(t), deleg)[Cause(t)] != NoBits()[Cause(t)];
    } else {
      assert AndBits(TrapToMask(t), deleg) == NoBits();
    }
  }

  lemma ChosenIsInterrupt<G>(h: Hart<G>)
    ensures ChosenInterrupt(h) == NoTrap || IsInterrupt(ChosenInterrupt(h))
  {
  }

  /** With interrupts of its own level off, a hart in S is interrupted only towards M. */
  lemma OnlyMachineInterrupts<G>(h: Hart<G>)
    requires h.priv == Supervisor && !Status(h)[SIE_BIT] && ChosenInterrupt(h) != NoTrap
    ensures !Delegated(h, ChosenInterrupt(h))
  {
    ChosenIsInterrupt(h);
    MaskBit(InterruptBitsToTrap(PendingEnabled(h)), h.csr[MIDELEG]);
  }

  lemma MachineMasked<G>(h: Hart<G>)
    requires h.priv == Machine && !Status(h)[MIE_BIT]
    ensures ChosenInterrupt(h) == NoTrap
  {
  }

  lemma EnableOff(st: Bits, from: Priv)
    ensures !EnterS(st, from)[SIE_BIT] && !EnterM(st, from)[MIE_BIT]
  {
  }

  /** After an exception, an interrupt can only be taken if the exception went to S, and then it goes to M. */
  lemma SecondTrap<G>(h: Hart<G>, t: Trap, epc: Word, h2: Hart<G>)
    requires t.ty != NoTrap && h2 == HandleTrap(h, t, epc) && ChosenInterrupt(h2) != NoTrap
    ensures Delegated(h, t.ty) && !Delegated(h2, ChosenInterrupt(h2))
  {
    EnableOff(Status(h), h.priv);
    if Delegated(h, t.ty) {
      TakenByS(h, t, epc);
      OnlyMachineInterrupts(h2);
    } else {
      TakenByM(h, t, epc);
      MachineMasked(h2);
    }
  }

  lemma InterruptWithM<G>(h: Hart<G>, t: TrapType, at: Word)
    requires t != NoTrap && !Delegated(h, t)
    ensures var r := InterruptWith(h, t, at);
            && r.priv == Machine && r.csr[MEPC] == ToBits(at) && Status(r) == EnterM(Status(h), h.priv)
            && r.csr[SEPC] == h.csr[SEPC] && r.csr[SCAUSE] == h.csr[SCAUSE] && r.csr[STVAL] == h.csr[STVAL]
  {
    TakenByM(h, Trap(t, h.pc), at);
  }

  /** HandleInterrupt when it takes an interrupt to M. */
  lemma InterruptToMachine<G>(h: Hart<G>, at: Word)
    requires ChosenInterrupt(h) != NoTrap && !Delegated(h, ChosenInterrupt(h))
    ensures var r := HandleInterrupt(h, at);
            && r.priv == Machine && r.csr[MEPC] == ToBits(at) && Status(r) == EnterM(Status(h), h.priv)
            && r.csr[SEPC] == h.csr[SEPC] && r.csr[SCAUSE] == h.csr[SCAUSE] && r.csr[STVAL] == h.csr[STVAL]
  {
    InterruptWithM(h, ChosenInterrupt(h), at);
  }

  lemma MStackOnly(st: Bits, from: Priv)
    ensures EnterM(st, from)[SIE_BIT] == st[SIE_BIT] && EnterM(st, from)[SPIE_BIT] == st[SPIE_BIT]
    ensures EnterM(st, from)[SPP_BIT] == st[SPP_BIT]
  {
  }

  /**
   Exception and interrupt in one Tick: the interrupt, if taken, goes to M while the exception went to S, and
   leaves sepc, scause, stval and the S stack of mstatus alone.
   */
  lemma NestedContextKept<G>(h: Hart<G>, t: Trap, epc: Word, h2: Hart<G>, h3: Hart<G>)
    requires t.ty != NoTrap && h2 == HandleTrap(h, t, epc) && h3 == HandleInterrupt(h2, h2.pc)
    requires ChosenInterrupt(h2) != NoTrap
    ensures h2.priv == Supervisor && h3.priv == Machine
    ensures h3.csr[SEPC] == ToBits(epc) && h3.csr[SCAUSE] == CauseWord(t.ty) && h3.csr[STVAL] == ToBits(t.val)
    ensures Status(h3)[SIE_BIT] == Status(h2)[SIE_BIT] && Status(h3)[SPIE_BIT] == Status(h2)[SPIE_BIT]
    ensures Status(h3)[SPP_BIT] == Status(h2)[SPP_BIT]
  {
    SecondTrap(h, t, epc, h2);
    TakenByS(h, t, epc);
    InterruptToMachine(h2, h2.pc);
    MStackOnly(Status(h2), h2.priv);
  }

  lemma NestedStatus(st: Bits, from: Priv)
    requires from == User || from == Supervisor
    ensures var m := LeaveM(EnterM(EnterS(st, from), Supervisor));
            Spp(m) == from && m[TSR_BIT] == st[TSR_BIT] && SameOutside(LeaveS(m), st, SPENT)
  {
  }

  /**
   ... and after the M handler's MRET, executed in state `r`, and the S handler's SRET, executed in state `s`
   (TSR clear), the hart is back at the instruction that trapped, at its privilege, with MIE and SIE as they were.
   */
  lemma NestedReturn<G>(h: Hart<G>, t: Trap, epc: Word, h2: Hart<G>, r: Hart<G>, r': Hart<G>, s: Hart<G>, w1: Half, w2: Half)
    requires t.ty != NoTrap && h.priv != Reserved && !Status(h)[TSR_BIT]
    requires h2 == HandleTrap(h, t, epc) && ChosenInterrupt(h2) != NoTrap
    requires MachineContextKept(HandleInterrupt(h2, h2.pc), r) && r' == MRet(r, w1).h
    requires s.priv == r'.priv && s.csr[SEPC] == h2.csr[SEPC] && Status(s) == Status(r')
    ensures MRet(r, w1).trap == NONE && r'.pc == h2.pc && r'.priv == Supervisor
    ensures SRet(s, w2).trap == NONE && BackAt(h, epc, SRet(s, w2).h, SPENT)
  {
    SecondTrap(h, t, epc, h2);
    TakenByS(h, t, epc);
    InterruptToMachine(h2, h2.pc);
    MReturns(Status(h2), Supervisor, r, h2.pc, w1);
    NestedStatus(Status(h), h.priv);
    SReturnsFrom(s, epc, w2);
  }

  lemma SReturnsFrom<G>(s: Hart<G>, epc: Word, word: Half)
    requires s.priv == Supervisor && s.csr[SEPC] == ToBits(epc) && !Status(s)[TSR_BIT]
    ensures SRet(s, word).trap == NONE && SRet(s, word).h.pc == epc && SRet(s, word).h.priv == Spp(Status(s))
    ensures Status(SRet(s, word).h) == LeaveS(Status(s))
  {
    RoundTrip(epc);
  }
}
