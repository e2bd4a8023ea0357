/**
 Which interrupt HandleInterrupt takes (src/cpu/cpu.cc), against section 3.1.9 of the RISC-V Privileged
 Architecture: interrupts destined for M come before those destined for S, and only within one destination
 does the fixed ranking decide.
 */
module Interrupts {
  import opened BitWords
  import opened Csr
  import opened Traps
  import opened Hart

  function ToMachine<G>(h: Hart<G>): Bits { ClearBits(PendingEnabled(h), h.csr[MIDELEG]) }

  function ToSupervisor<G>(h: Hart<G>): Bits { AndBits(PendingEnabled(h), h.csr[MIDELEG]) }

  predicate MachineOpen<G>(h: Hart<G>) { h.priv != Machine || Status(h)[MIE_BIT] }

  predicate SupervisorOpen<G>(h: Hart<G>) { h.priv == User || (h.priv == Supervisor && Status(h)[SIE_BIT]) }

  /** The interrupt the specification takes. */
  function SpecInterrupt<G>(h: Hart<G>): TrapType {
    if MachineOpen(h) && InterruptBitsToTrap(ToMachine(h)) != NoTrap then InterruptBitsToTrap(ToMachine(h))
    else if SupervisorOpen(h) then InterruptBitsToTrap(ToSupervisor(h))
    else NoTrap
  }

  /** The highest-ranked pending interrupt is delegated while some other pending one is not. */
  predicate Shadowed<G>(h: Hart<G>) {
    var top := InterruptBitsToTrap(PendingEnabled(h));
    && h.priv != Machine
    && top != NoTrap && h.csr[MIDELEG][Cause(top)]
    && InterruptBitsToTrap(ToMachine(h)) != NoTrap
  }

  /** Splitting the pending bits by destination: the top one stays top of its own part. */
  lemma Split(bits: Bits, deleg: Bits)
    ensures var top := InterruptBitsToTrap(bits);
            if top == NoTrap then
              InterruptBitsToTrap(ClearBits(bits, deleg)) == NoTrap && InterruptBitsToTrap(AndBits(bits, deleg)) == NoTrap
            else if deleg[Cause(top)] then
              InterruptBitsToTrap(ClearBits(bits, deleg)) != top && InterruptBitsToTrap(AndBits(bits, deleg)) == top
            else
              InterruptBitsToTrap(ClearBits(bits, deleg)) == top
  {
  }

  lemma NoneOpen(h: Bits)
    ensures h == NoBits() ==> InterruptBitsToTrap(h) == NoTrap
  {
  }

  /** HandleInterrupt takes the interrupt the specification takes exactly when none is shadowed. */
  lemma ChosenExact<G>(h: Hart<G>)
    requires h.priv != Reserved
    ensures ChosenInterrupt(h) == SpecInterrupt(h) <==> !Shadowed(h)
  {
    var bits, deleg := PendingEnabled(h), h.csr[MIDELEG];
    Split(bits, deleg);
    if h.priv == Machine {
      NoneOpen(ToMachine(h));
    } else if InterruptBitsToTrap(bits) != NoTrap {
      MaskBit(InterruptBitsToTrap(bits), deleg);
    } else {
      NoneMasked(deleg);
    }
  }

  lemma NoneMasked(deleg: Bits)
    ensures AndBits(TrapToMask(NoTrap), deleg) == NoBits()
  {
  }

  /** In S with SIE off, a shadowed machine-level interrupt is not taken at all, although it is enabled. */
  lemma ShadowedMissed<G>(h: Hart<G>)
    requires h.priv == Supervisor && !Status(h)[SIE_BIT]
    ensures SpecInterrupt(h) != NoTrap && ChosenInterrupt(h) == NoTrap <==> Shadowed(h)
  {
    ChosenExact(h);
    var top := InterruptBitsToTrap(PendingEnabled(h));
    if top != NoTrap { MaskBit(top, h.csr[MIDELEG]); }
  }

  /** Interrupt 9 delegated; 9 and 5 enabled and pending. */
  const SHADOWING: seq<CsrOp> :=
    [DoWrite(MIDELEG, NoBits()[9 := true]), DoWrite(MIE, NoBits()[9 := true][5 := true]), DoWrite(MIP, NoBits()[9 := true][5 := true])]

  lemma ShadowingWrites(f: CsrFile)
    requires f == ApplyAll(Initial(), SHADOWING)
    ensures f[MIDELEG] == NoBits()[9 := true] && f[MIE] == f[MIP] == NoBits()[9 := true][5 := true] && f[MSTATUS] == MstatusInit()
  {
    var f1 := Apply(Initial(), SHADOWING[0]);
    var f2 := Apply(f1, SHADOWING[1]);
    var f3 := Apply(f2, SHADOWING[2]);
    assert SHADOWING[1..][1..] == [SHADOWING[2]] && [SHADOWING[2]][1..] == [];
    assert ApplyAll(Initial(), SHADOWING) == ApplyAll(f1, SHADOWING[1..]);
    assert ApplyAll(f1, SHADOWING[1..]) == ApplyAll(f2, [SHADOWING[2]]);
    assert ApplyAll(f2, [SHADOWING[2]]) == ApplyAll(f3, []);
    assert Masked(NoBits()[9 := true], S_INTERRUPTS) == NoBits()[9 := true];
    assert Masked(NoBits()[9 := true][5 := true], M_INTERRUPTS) == NoBits()[9 := true][5 := true];
  }

  /**
   A delegated external interrupt shadows a timer interrupt that belongs to M: three CSR writes after reset, a hart
   in S takes neither.
   */
  lemma ShadowedTimer<G>(h: Hart<G>)
    requires h.priv == Supervisor && h.csr == ApplyAll(Initial(), SHADOWING)
    ensures CsrOk(h.csr) && Shadowed(h)
    ensures SpecInterrupt(h) == SupervisorTimerInterrupt && ChosenInterrupt(h) == NoTrap
  {
    RunKeepsOk(Initial(), SHADOWING);
    ShadowingWrites(h.csr);
    ShadowedMissed(h);
  }
}
