/** Traps and interrupt priorities (include/cpu/trap.h, src/cpu/trap.cc, src/libs/utils.cc). */
module Traps {
  import opened Words
  import opened BitWords

  datatype TrapType =
    | InstructionAddressMisaligned | InstructionAccessFault | IllegalInstruction | Breakpoint
    | LoadAddressMisaligned | LoadAccessFault | StoreAddressMisaligned | StoreAccessFault
    | EnvironmentCallFromUMode | EnvironmentCallFromSMode | EnvironmentCallFromMMode
    | InstructionPageFault | LoadPageFault | StorePageFault
    | UserSoftwareInterrupt | SupervisorSoftwareInterrupt | MachineSoftwareInterrupt
    | UserTimerInterrupt | SupervisorTimerInterrupt | MachineTimerInterrupt
    | UserExternalInterrupt | SupervisorExternalInterrupt | MachineExternalInterrupt
    | NoTrap

  datatype Trap = Trap(ty: TrapType, val: Word)

  const NONE: Trap := Trap(NoTrap, 0)

  predicate IsInterrupt(t: TrapType) {
    t in {UserSoftwareInterrupt, SupervisorSoftwareInterrupt, MachineSoftwareInterrupt,
          UserTimerInterrupt, SupervisorTimerInterrupt, MachineTimerInterrupt,
          UserExternalInterrupt, SupervisorExternalInterrupt, MachineExternalInterrupt}
  }

  /** kTrapToCauseTable; the table has no entry for NoTrap. */
  function Cause(t: TrapType): (c: nat)
    ensures c < 16
  {
    match t
    case InstructionAddressMisaligned | UserSoftwareInterrupt | NoTrap => 0
    case InstructionAccessFault | SupervisorSoftwareInterrupt => 1
    case IllegalInstruction => 2
    case Breakpoint | MachineSoftwareInterrupt => 3
    case LoadAddressMisaligned | UserTimerInterrupt => 4
    case LoadAccessFault | SupervisorTimerInterrupt => 5
    case StoreAddressMisaligned => 6
    case StoreAccessFault | MachineTimerInterrupt => 7
    case EnvironmentCallFromUMode | UserExternalInterrupt => 8
    case EnvironmentCallFromSMode | SupervisorExternalInterrupt => 9
    case EnvironmentCallFromMMode | MachineExternalInterrupt => 11
    case InstructionPageFault => 12
    case LoadPageFault => 13
    case StorePageFault => 15
  }

  /** CauseDesc: the code in the low bits, the interrupt flag on top. */
  function CauseWord(t: TrapType): Bits { ToBits(Cause(t))[63 := IsInterrupt(t)] }

  function TrapToMask(t: TrapType): Bits { if t == NoTrap then NoBits() else NoBits()[Cause(t) := true] }

  /** Highest priority first. */
  const RANKED: seq<TrapType> :=
    [MachineExternalInterrupt, MachineSoftwareInterrupt, MachineTimerInterrupt,
     SupervisorExternalInterrupt, SupervisorSoftwareInterrupt, SupervisorTimerInterrupt]

  /** The first of RANKED whose bit is set. */
  function InterruptBitsToTrap(bits: Bits): TrapType {
    if bits[11] then MachineExternalInterrupt
    else if bits[3] then MachineSoftwareInterrupt
    else if bits[7] then MachineTimerInterrupt
    else if bits[9] then SupervisorExternalInterrupt
    else if bits[1] then SupervisorSoftwareInterrupt
    else if bits[5] then SupervisorTimerInterrupt
    else NoTrap
  }

  method RankInterrupts(bits: Bits) returns (t: TrapType)
    ensures t == InterruptBitsToTrap(bits)
    ensures t == NoTrap <==> forall k :: 0 <= k < |RANKED| ==> !bits[Cause(RANKED[k])]
    ensures t != NoTrap ==> exists k :: 0 <= k < |RANKED| && RANKED[k] == t && bits[Cause(t)]
                                      && forall j :: 0 <= j < k ==> !bits[Cause(RANKED[j])]
  {
    var k := 0;
    while k < |RANKED|
      invariant 0 <= k <= |RANKED|
      invariant forall j :: 0 <= j < k ==> !bits[Cause(RANKED[j])]
    {
      assert AndBits(TrapToMask(RANKED[k]), bits)[Cause(RANKED[k])] == bits[Cause(RANKED[k])];
      if AndBits(TrapToMask(RANKED[k]), bits) != NoBits() {
        t := RANKED[k];
        OnlyBit(t, bits);
        FirstRanked(bits, k);
        return;
      }
      assert !NoBits()[Cause(RANKED[k])];
      k := k + 1;
    }
    t := NoTrap;
    NoneRanked(bits);
  }

  lemma OnlyBit(t: TrapType, bits: Bits)
    requires t != NoTrap && AndBits(TrapToMask(t), bits) != NoBits()
    ensures bits[Cause(t)]
  {
    var k :| 0 <= k < 64 && AndBits(TrapToMask(t), bits)[k];
  }

  lemma FirstRanked(bits: Bits, k: nat)
    requires k < |RANKED| && bits[Cause(RANKED[k])] && forall j :: 0 <= j < k ==> !bits[Cause(RANKED[j])]
    ensures InterruptBitsToTrap(bits) == RANKED[k]
  {
    assert k > 0 ==> !bits[Cause(RANKED[0])];
    assert k > 1 ==> !bits[Cause(RANKED[1])];
    assert k > 2 ==> !bits[Cause(RANKED[2])];
    assert k > 3 ==> !bits[Cause(RANKED[3])];
    assert k > 4 ==> !bits[Cause(RANKED[4])];
  }

  lemma NoneRanked(bits: Bits)
    requires forall k :: 0 <= k < |RANKED| ==> !bits[Cause(RANKED[k])]
    ensures InterruptBitsToTrap(bits) == NoTrap
  {
    assert !bits[Cause(RANKED[0])] && !bits[Cause(RANKED[1])] && !bits[Cause(RANKED[2])];
    assert !bits[Cause(RANKED[3])] && !bits[Cause(RANKED[4])] && !bits[Cause(RANKED[5])];
  }

  /** 4 * cause * mode, for the four values of the mode field. */
  function VectorOffset(mode: nat, cause: nat): nat {
    if mode == 0 then 0 else if mode == 1 then 4 * cause else if mode == 2 then 8 * cause else 12 * cause
  }

  lemma VectorOffsetIs(mode: nat, cause: nat)
    requires mode < 4
    ensures VectorOffset(mode, cause) == 4 * cause * mode
  {
  }

  /** The mode field multiplies the cause, for exceptions as well as interrupts. */
  function GetTrapPC(tvec: Word, cause: nat): Word { Wrap64(tvec / 4 * 4 + VectorOffset(tvec % 4, cause)) }

  /** The handler address of section 3.1.7 of the RISC-V Privileged Architecture: vectored mode is for interrupts only. */
  function SpecTrapPC(tvec: Word, cause: nat, interrupt: bool): Word {
    Wrap64(tvec / 4 * 4 + if interrupt && tvec % 4 == 1 then 4 * cause else 0)
  }

  lemma SmallOffset(base: Word, a: nat, b: nat)
    requires a < 1000 && b < 1000
    ensures Wrap64(base + a) == Wrap64(base + b) <==> a == b
  {
  }

  lemma TrapPcFor(tvec: Word, c: nat, interrupt: bool)
    requires c < 16
    ensures GetTrapPC(tvec, c) == SpecTrapPC(tvec, c, interrupt)
       <==> tvec % 4 == 0 || c == 0 || (tvec % 4 == 1 && interrupt)
  {
    SmallOffset(tvec / 4 * 4, VectorOffset(tvec % 4, c), if interrupt && tvec % 4 == 1 then 4 * c else 0);
  }

  /** GetTrapPC meets the specification exactly for direct mode, cause 0, and vectored interrupts. */
  lemma TrapPcExact(tvec: Word, t: TrapType)
    ensures GetTrapPC(tvec, Cause(t)) == SpecTrapPC(tvec, Cause(t), IsInterrupt(t))
       <==> tvec % 4 == 0 || Cause(t) == 0 || (tvec % 4 == 1 && IsInterrupt(t))
  {
    TrapPcFor(tvec, Cause(t), IsInterrupt(t));
  }

  /** For instance an illegal instruction with the vectored tvec 0x8000_0001: two entries past the base. */
  lemma VectoredException()
    ensures GetTrapPC(0x8000_0001, Cause(IllegalInstruction)) == 0x8000_0008
    ensures SpecTrapPC(0x8000_0001, Cause(IllegalInstruction), false) == 0x8000_0000
  {
    TrapPcExact(0x8000_0001, IllegalInstruction);
  }
}
