/**
 The control and status registers (src/cpu/csr.cc): one array of 64-bit words in which
 sstatus, sie and sip are masked windows onto mstatus, mie and mip.
 */
module Csr {
  import opened BitWords

  const CAPACITY := 4096

  type CsrAddr = a: nat | a < CAPACITY
  type CsrFile = f: seq<Bits> | |f| == CAPACITY witness seq(CAPACITY, i => NoBits())

  const SSTATUS: CsrAddr := 0x100
  const SIE: CsrAddr := 0x104
  const STVEC: CsrAddr := 0x105
  const SEPC: CsrAddr := 0x141
  const SCAUSE: CsrAddr := 0x142
  const STVAL: CsrAddr := 0x143
  const SIP: CsrAddr := 0x144
  const SATP: CsrAddr := 0x180
  const MSTATUS: CsrAddr := 0x300
  const MISA: CsrAddr := 0x301
  const MEDELEG: CsrAddr := 0x302
  const MIDELEG: CsrAddr := 0x303
  const MIE: CsrAddr := 0x304
  const MTVEC: CsrAddr := 0x305
  const MEPC: CsrAddr := 0x341
  const MCAUSE: CsrAddr := 0x342
  const MTVAL: CsrAddr := 0x343
  const MIP: CsrAddr := 0x344
  const TSELECT: CsrAddr := 0x7a0
  const TDATA1: CsrAddr := 0x7a1
  const MINSTRET: CsrAddr := 0xb02
  const TIME: CsrAddr := 0xc01
  const MVENDORID: CsrAddr := 0xf11
  const MARCHID: CsrAddr := 0xf12
  const MIMPID: CsrAddr := 0xf13

  // Bits of mstatus.
  const SIE_BIT: nat := 1
  const MIE_BIT: nat := 3
  const SPIE_BIT: nat := 5
  const UBE_BIT: nat := 6
  const MPIE_BIT: nat := 7
  const SPP_BIT: nat := 8
  const MPP_BIT: nat := 11
  const MPRV_BIT: nat := 17
  const SUM_BIT: nat := 18
  const MXR_BIT: nat := 19
  const TVM_BIT: nat := 20
  const TW_BIT: nat := 21
  const TSR_BIT: nat := 22
  const UXL_BIT: nat := 32
  const SXL_BIT: nat := 34
  const SD_BIT: nat := 63

  // 0xaaa, 0x222 and 0xf7ff.
  const M_INTERRUPTS: set<nat> := {1, 3, 5, 7, 9, 11}
  const S_INTERRUPTS: set<nat> := {1, 5, 9}
  const S_EXCEPTIONS: set<nat> := {0, 1, 2, 3, 4, 5, 6, 7, 8, 9, 10, 12, 13, 14, 15}

  /** sie, spie, ube, spp, vs, fs, xs, sum, mxr, uxl and sd. */
  const SSTATUS_READ: set<nat> := {1, 5, 6, 8, 9, 10, 13, 14, 15, 16, 18, 19, 32, 33, 63}

  /** sie, spie, spp, sum and mxr. */
  const SSTATUS_WRITE: set<nat> := {1, 5, 8, 18, 19}

  /** sie, mie, spie, mpie, spp, mpp, mprv, sum, mxr, tvm, tw and tsr. */
  const MSTATUS_WRITE: set<nat> := {1, 3, 5, 7, 8, 11, 12, 17, 18, 19, 20, 21, 22}

  /** The four bits of satp's mode field. */
  const SATP_MODE: set<nat> := {60, 61, 62, 63}

  function SatpMode(satp: Bits): nat {
    Digit(satp[60]) + 2 * Digit(satp[61]) + 4 * Digit(satp[62]) + 8 * Digit(satp[63])
  }

  predicate LegalMode(satp: Bits) { SatpMode(satp) == 0 || SatpMode(satp) == 8 }

  function LegalSatp(was: Bits, val: Bits): Bits {
    if LegalMode(val) then val else Merge(val, was, SATP_MODE)
  }

  /** RV64 with extensions A, I, M, S and U. */
  function MisaValue(): Bits { seq(64, i => i in {0, 8, 12, 18, 20, 63}) }

  /** SXL = UXL = 64. */
  function MstatusInit(): Bits { seq(64, i => i in {33, 35}) }

  function Read(f: CsrFile, addr: CsrAddr): Bits {
    if addr == SSTATUS then Masked(f[MSTATUS], SSTATUS_READ)
    else if addr == SIE then Masked(f[MIE], S_INTERRUPTS)
    else if addr == SIP then Masked(f[MIP], S_INTERRUPTS)
    else if addr == TSELECT || addr == TDATA1 then NoBits()
    else f[addr]
  }

  predicate ReadOnly(addr: CsrAddr) { addr in {MISA, TSELECT, TDATA1, MVENDORID, MARCHID, MIMPID} }

  /** The word behind an address: the S-mode windows have none of their own. */
  function Backing(addr: CsrAddr): CsrAddr {
    if addr == SSTATUS then MSTATUS else if addr == SIE then MIE else if addr == SIP then MIP else addr
  }

  /** The content of the word behind `addr` after writing `val` to `addr`. */
  function Written(addr: CsrAddr, was: Bits, val: Bits): Bits {
    if addr == SSTATUS then Merge(was, val, SSTATUS_WRITE)
    else if addr == SIE || addr == SIP then Merge(was, val, S_INTERRUPTS)
    else if addr == MIE || addr == MIP then Masked(val, M_INTERRUPTS)
    else if addr == MSTATUS then Merge(was, val, MSTATUS_WRITE)
    else if addr == MIDELEG then Masked(val, S_INTERRUPTS)
    else if addr == MEDELEG then Masked(val, S_EXCEPTIONS)
    else if ReadOnly(addr) then was
    else if addr == SATP then LegalSatp(was, val)
    else val
  }

  function Write(f: CsrFile, addr: CsrAddr, val: Bits): CsrFile {
    f[Backing(addr) := Written(addr, f[Backing(addr)], val)]
  }

  function Zeros(): CsrFile { seq(CAPACITY, i => NoBits()) }

  function Initial(): CsrFile { Zeros()[MISA := MisaValue()][MSTATUS := MstatusInit()] }

  function Cleared(f: CsrFile): CsrFile { Zeros()[MISA := f[MISA]][MSTATUS := MstatusInit()] }

  // ----- reachable states -----

  ghost predicate Within(b: Bits, mask: set<nat>) { forall i :: 0 <= i < 64 && b[i] ==> i in mask }

  ghost predicate SameOutside(a: Bits, b: Bits, mask: set<nat>) { forall i :: 0 <= i < 64 && i !in mask ==> a[i] == b[i] }

  /** What every reachable register file says about the word at `addr`. */
  ghost predicate WordOk(addr: CsrAddr, v: Bits) {
    && (addr == MIP || addr == MIE ==> Within(v, M_INTERRUPTS))
    && (addr == MIDELEG ==> Within(v, S_INTERRUPTS))
    && (addr == MEDELEG ==> Within(v, S_EXCEPTIONS))
    && (addr == SATP ==> LegalMode(v))
    && (addr == MISA ==> v == MisaValue())
    && (addr == MSTATUS ==> SameOutside(v, MstatusInit(), MSTATUS_WRITE))
  }

  ghost predicate CsrOk(f: CsrFile) { forall a: CsrAddr :: WordOk(a, f[a]) }

  lemma WrittenOk(addr: CsrAddr, was: Bits, val: Bits)
    requires WordOk(Backing(addr), was)
    ensures WordOk(Backing(addr), Written(addr, was, val))
  {
  }

  lemma WriteKeepsOk(f: CsrFile, addr: CsrAddr, val: Bits)
    requires CsrOk(f)
    ensures CsrOk(Write(f, addr, val))
  {
    WrittenOk(addr, f[Backing(addr)], val);
  }

  datatype CsrOp = DoWrite(addr: CsrAddr, val: Bits) | DoReset

  function Apply(f: CsrFile, op: CsrOp): CsrFile {
    match op
    case DoWrite(addr, val) => Write(f, addr, val)
    case DoReset => Cleared(f)
  }

  function ApplyAll(f: CsrFile, ops: seq<CsrOp>): CsrFile
    decreases |ops|
  {
    if ops == [] then f else ApplyAll(Apply(f, ops[0]), ops[1..])
  }

  lemma {:induction false} RunKeepsOk(f: CsrFile, ops: seq<CsrOp>)
    requires CsrOk(f)
    ensures CsrOk(ApplyAll(f, ops))
    decreases |ops|
  {
    if ops != [] {
      if ops[0].DoWrite? { WriteKeepsOk(f, ops[0].addr, ops[0].val); }
      RunKeepsOk(Apply(f, ops[0]), ops[1..]);
    }
  }

  /** Every state the register file can reach, whatever is written to it and however often it is reset. */
  lemma ReachableOk(ops: seq<CsrOp>)
    ensures var f := ApplyAll(Initial(), ops);
            && Within(f[MIP], M_INTERRUPTS) && Within(f[MIE], M_INTERRUPTS)
            && Within(f[MIDELEG], S_INTERRUPTS) && Within(f[MEDELEG], S_EXCEPTIONS)
            && (SatpMode(f[SATP]) == 0 || SatpMode(f[SATP]) == 8)
            && f[MISA] == Initial()[MISA]
            && (forall i :: 0 <= i < 64 && i !in MSTATUS_WRITE ==> f[MSTATUS][i] == Initial()[MSTATUS][i])
  {
    RunKeepsOk(Initial(), ops);
  }

  // ----- the S-mode windows -----

  predicate IsWindow(addr: CsrAddr) { addr in {SSTATUS, SIE, SIP} }

  function WindowMask(addr: CsrAddr): set<nat> { if addr == SSTATUS then SSTATUS_WRITE else S_INTERRUPTS }

  predicate WindowWrites(ops: seq<CsrOp>) { forall i :: 0 <= i < |ops| ==> ops[i].DoWrite? && IsWindow(ops[i].addr) }

  /** Bit `i` of the word at `a` is out of reach of S-mode software. */
  predicate MachineOnly(a: CsrAddr, i: nat) {
    if a == MSTATUS then i !in SSTATUS_WRITE
    else if a == MIE || a == MIP then i !in S_INTERRUPTS
    else true
  }

  /** No sequence of writes through the windows changes a bit that belongs to M-mode, or any other register. */
  lemma {:induction false} WindowsKeepMachineBits(f: CsrFile, ops: seq<CsrOp>, a: CsrAddr, i: nat)
    requires WindowWrites(ops) && i < 64 && MachineOnly(a, i)
    ensures ApplyAll(f, ops)[a][i] == f[a][i]
    decreases |ops|
  {
    if ops != [] {
      WindowsKeepMachineBits(Apply(f, ops[0]), ops[1..], a, i);
    }
  }

  /** What S-mode reads through a window after a write: its own writable bits as written, everything else as it was. */
  lemma WindowReadsBack(f: CsrFile, addr: CsrAddr, val: Bits, other: CsrAddr, i: nat)
    requires IsWindow(addr) && IsWindow(other) && i < 64
    ensures Read(Write(f, addr, val), other)[i] == if other == addr && i in WindowMask(addr) then val[i] else Read(f, other)[i]
  {
  }

  /** Writing back what was just read changes nothing, for every register. */
  lemma WriteBack(f: CsrFile, addr: CsrAddr)
    requires CsrOk(f)
    ensures Write(f, addr, Read(f, addr)) == f
  {
    var was := f[Backing(addr)];
    assert WordOk(Backing(addr), was);
    assert Written(addr, was, Read(f, addr)) == was;
  }

  // ----- the object -----

  class State {
    var wfi: bool
    var csr: CsrFile

    constructor ()
      ensures !wfi && csr == Initial()
    {
      wfi := false;
      var misa := NoBits()[63 := true][8 := true][12 := true][0 := true][18 := true][20 := true];
      var ms := NoBits()[SXL_BIT + 1 := true][UXL_BIT + 1 := true];
      assert misa == MisaValue();
      assert ms == MstatusInit();
      csr := Zeros()[MISA := misa][MSTATUS := ms];
    }

    method ReadRegister(addr: CsrAddr) returns (val: Bits)
      ensures val == Read(csr, addr)
    {
      if addr == SSTATUS {
        var ms := csr[MSTATUS];
        val := NoBits()[SIE_BIT := ms[SIE_BIT]][SPIE_BIT := ms[SPIE_BIT]][UBE_BIT := ms[UBE_BIT]][SPP_BIT := ms[SPP_BIT]];
        val := val[9 := ms[9]][10 := ms[10]][13 := ms[13]][14 := ms[14]][15 := ms[15]][16 := ms[16]];
        val := val[SUM_BIT := ms[SUM_BIT]][MXR_BIT := ms[MXR_BIT]];
        val := val[UXL_BIT := ms[UXL_BIT]][UXL_BIT + 1 := ms[UXL_BIT + 1]][SD_BIT := ms[SD_BIT]];
      } else if addr == SIE {
        val := Masked(csr[MIE], S_INTERRUPTS);
      } else if addr == SIP {
        val := Masked(csr[MIP], S_INTERRUPTS);
      } else if addr == TSELECT || addr == TDATA1 {
        val := NoBits();
      } else {
        val := csr[addr];
      }
    }

    method WriteRegister(addr: CsrAddr, val: Bits)
      modifies `csr
      ensures csr == Write(old(csr), addr, val)
    {
      if addr == SSTATUS {
        var ms := csr[MSTATUS];
        ms := ms[SIE_BIT := val[SIE_BIT]][SPIE_BIT := val[SPIE_BIT]][SPP_BIT := val[SPP_BIT]];
        ms := ms[SUM_BIT := val[SUM_BIT]][MXR_BIT := val[MXR_BIT]];
        assert ms == Merge(csr[MSTATUS], val, SSTATUS_WRITE);
        csr := csr[MSTATUS := ms];
      } else if addr == MIE || addr == MIP {
        csr := csr[addr := Masked(val, M_INTERRUPTS)];
      } else if addr == SIE || addr == SIP {
        var word := Backing(addr);
        csr := csr[word := Merge(csr[word], val, S_INTERRUPTS)];
      } else if addr == MSTATUS {
        WriteMstatus(val);
      } else if addr == MIDELEG {
        csr := csr[addr := Masked(val, S_INTERRUPTS)];
      } else if addr == MEDELEG {
        csr := csr[addr := Masked(val, S_EXCEPTIONS)];
      } else if ReadOnly(addr) {
      } else if addr == SATP {
        var satp := val;
        if SatpMode(satp) != 0 && SatpMode(satp) != 8 {
          satp := satp[60 := csr[addr][60]][61 := csr[addr][61]][62 := csr[addr][62]][63 := csr[addr][63]];
          assert satp == Merge(val, csr[addr], SATP_MODE);
        }
        csr := csr[addr := satp];
      } else {
        csr := csr[addr := val];
      }
    }

    method WriteMstatus(val: Bits)
      modifies `csr
      ensures csr == Write(old(csr), MSTATUS, val)
    {
      var ms := csr[MSTATUS];
      ms := ms[SIE_BIT := val[SIE_BIT]][MIE_BIT := val[MIE_BIT]][SPIE_BIT := val[SPIE_BIT]][MPIE_BIT := val[MPIE_BIT]];
      ms := ms[SPP_BIT := val[SPP_BIT]][MPP_BIT := val[MPP_BIT]][MPP_BIT + 1 := val[MPP_BIT + 1]][MPRV_BIT := val[MPRV_BIT]];
      ms := ms[SUM_BIT := val[SUM_BIT]][MXR_BIT := val[MXR_BIT]][TVM_BIT := val[TVM_BIT]];
      ms := ms[TW_BIT := val[TW_BIT]][TSR_BIT := val[TSR_BIT]];
      assert ms == Merge(csr[MSTATUS], val, MSTATUS_WRITE);
      csr := csr[MSTATUS := ms];
    }

    method Reset()
      modifies this
      ensures !wfi && csr == Cleared(old(csr))
    {
      wfi := false;
      var misa := csr[MISA];
      csr := Zeros();
      csr := csr[MISA := misa];
      var ms := csr[MSTATUS][SXL_BIT + 1 := true][UXL_BIT + 1 := true];
      assert ms == MstatusInit();
      csr := csr[MSTATUS := ms];
    }
  }
}
