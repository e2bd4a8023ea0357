/**
 One instruction (src/cpu/executor.cc), on values.  The memory system is a parameter:
 Mmu.dfy supplies the real one.
 */
module Exec {
  import opened Words
  import opened BitWords
  import opened Isa
  import opened Csr
  import opened Traps
  import opened Hart

  // ----- the memory system, as the executor calls it -----

  /** What the MMU reads from the processor. */
  datatype View = View(priv: Priv, satp: Bits, mstatus: Bits)

  datatype Loaded<G> = Loaded(trap: Trap, value: Word, mem: G)

  datatype Stored<G> = Stored(trap: Trap, mem: G)

  datatype Memory<!G> = Memory(
    fetch: (G, View, Word, nat) -> Loaded<G>,
    load: (G, View, Word, nat) -> Loaded<G>,
    store: (G, View, Word, nat, Word) -> Stored<G>,
    flush: (G, Word, Word) -> G)

  function ViewOf<G>(h: Hart<G>): View { View(h.priv, h.csr[SATP], h.csr[MSTATUS]) }

  // ----- computational instructions -----

  function SetX<G>(h: Hart<G>, rd: Reg, v: Word): Hart<G> { h.(xregs := h.xregs[rd := v]) }

  /** Write rd and go on. */
  function Put<G>(h: Hart<G>, rd: Reg, v: Word): Step<G> {
    Step(SetX(h, rd, v), NONE)
  }

  /** Shift amounts are taken modulo the operand width. */
  function ShiftMasked(t: Token, imm: int): int {
    if IsShiftImm(t) then imm % 64 else if IsShiftImm32(t) then imm % 32 else imm
  }

  function Compute<G>(h: Hart<G>, info: DecodeInfo): Step<G> {
    var a, b, imm := h.xregs[info.rs1], h.xregs[info.rs2], ShiftMasked(info.token, info.imm);
    match info.op
    case OpReg => if IsReg(info.token) then Put(h, info.rd, RegOp(info.token, a, b)) else Illegal(h, info.word)
    case OpRv32 => if IsReg32(info.token) then Put(h, info.rd, Reg32Op(info.token, a, b)) else Illegal(h, info.word)
    case OpImm => if IsImm(info.token) then Put(h, info.rd, ImmOp(info.token, a, imm)) else Illegal(h, info.word)
    case OpImm32 => if IsImm32(info.token) then Put(h, info.rd, Imm32Op(info.token, a, imm)) else Illegal(h, info.word)
    case OpLui => Put(h, info.rd, Wrap64(info.imm))
    case OpAuipc => Put(h, info.rd, Wrap64(info.pc + info.imm))
    case _ => Illegal(h, info.word)
  }

  // ----- control flow -----

  predicate Taken(t: Token, a: Word, b: Word)
    requires IsBranch(t)
  {
    match t
    case BEQ => a == b
    case BNE => a != b
    case BLT => Signed64(a) < Signed64(b)
    case BGE => Signed64(a) >= Signed64(b)
    case BLTU => a < b
    case BGEU => a >= b
  }

  function Branch<G>(h: Hart<G>, info: DecodeInfo): Step<G> {
    if !IsBranch(info.token) then Illegal(h, info.word)
    else Step(h.(pc := if Taken(info.token, h.xregs[info.rs1], h.xregs[info.rs2]) then JumpTarget(info) else LinkAddress(info)), NONE)
  }

  function Jal<G>(h: Hart<G>, info: DecodeInfo): Step<G> {
    Put(h.(pc := JumpTarget(info)), info.rd, LinkAddress(info))
  }

  function Jalr<G>(h: Hart<G>, info: DecodeInfo): Step<G> {
    Put(h.(pc := IndirectTarget(info, h.xregs[info.rs1])), info.rd, LinkAddress(info))
  }

  // ----- memory -----

  function Load<G>(m: Memory<G>, h: Hart<G>, info: DecodeInfo): Step<G> {
    var l := m.load(h.mem, ViewOf(h), EffectiveAddress(info, h.xregs[info.rs1]), info.memSize);
    var h1 := h.(mem := l.mem);
    if l.trap.ty != NoTrap then Step(h1, l.trap)
    else if !IsLoad(info.token) then Illegal(h1, info.word)
    else Put(h1, info.rd, LoadValue(info.token, l.value))
  }

  function Store<G>(m: Memory<G>, h: Hart<G>, info: DecodeInfo): Step<G> {
    var s := m.store(h.mem, ViewOf(h), EffectiveAddress(info, h.xregs[info.rs1]), info.memSize, h.xregs[info.rs2]);
    Step(h.(mem := s.mem), if s.trap.ty != NoTrap then s.trap else NONE)
  }

  // ----- the A extension -----

  predicate AtomicWidth(n: nat) { n == 4 || n == 8 }

  /** addr % n != 0, for the two widths there are. */
  predicate Misaligned(addr: Word, n: nat)
    requires AtomicWidth(n)
  {
    if n == 4 then addr % 4 != 0 else addr % 8 != 0
  }

  /** The load of an LR that passed its checks; the reservation is made first, whatever the load does. */
  function LoadReservedAt<G>(m: Memory<G>, h: Hart<G>, info: DecodeInfo, addr: Word): Step<G> {
    var h1 := h.(resv := Reservation(addr, info.memSize, true, h.hartId));
    var l := m.load(h1.mem, ViewOf(h1), addr, info.memSize);
    var h2 := h1.(mem := l.mem);
    if l.trap.ty != NoTrap then Step(h2, l.trap)
    else Put(h2, info.rd, if info.token == LR_W then SignExtendFrom(l.value, TWO32) else l.value)
  }

  function LoadReserved<G>(m: Memory<G>, h: Hart<G>, info: DecodeInfo): Step<G>
    requires AtomicWidth(info.memSize)
  {
    var addr := h.xregs[info.rs1];
    if h.xregs[info.rs2] != 0 then Illegal(h, info.word)
    else if Misaligned(addr, info.memSize) then Step(h, Trap(LoadAddressMisaligned, info.pc))
    else LoadReservedAt(m, h, info, addr)
  }

  predicate Reserves<G>(h: Hart<G>, addr: Word, size: nat) {
    h.resv.addr == addr && h.resv.size == size && h.resv.valid && h.resv.hart == h.hartId
  }

  function StoreConditionalAt<G>(m: Memory<G>, h: Hart<G>, info: DecodeInfo, addr: Word): Step<G> {
    if Reserves(h, addr, info.memSize) then
      var h1 := h.(resv := h.resv.(valid := false));
      var s := m.store(h1.mem, ViewOf(h1), addr, info.memSize, h.xregs[info.rs2]);
      var h2 := h1.(mem := s.mem);
      if s.trap.ty != NoTrap then Step(h2, s.trap) else Put(h2, info.rd, 0)
    else
      Put(h.(resv := h.resv.(valid := h.resv.valid && h.resv.hart != h.hartId)), info.rd, 1)
  }

  function StoreConditional<G>(m: Memory<G>, h: Hart<G>, info: DecodeInfo): Step<G>
    requires AtomicWidth(info.memSize)
  {
    var addr := h.xregs[info.rs1];
    if Misaligned(addr, info.memSize) then Step(h, Trap(StoreAddressMisaligned, info.pc))
    else StoreConditionalAt(m, h, info, addr)
  }

  function Lower(a: int, b: int): int { if b < a then b else a }

  function Higher(a: int, b: int): int { if a < b then b else a }

  /** The value an AMO writes back, from register `r` and memory content `x`. */
  function AmoValue(t: Token, r: Word, x: Word): Word
    requires IsAmoRmw(t)
  {
    var r32, x32 := SignExtendFrom(r, TWO32), SignExtendFrom(x, TWO32);
    match t
    case AMOSWAP_W => r32
    case AMOSWAP_D => r
    case AMOADD_W => Wrap64(r32 + x32)
    case AMOADD_D => Wrap64(r + x)
    case AMOXOR_W => Xor64(r32, x32)
    case AMOXOR_D => Xor64(r, x)
    case AMOAND_W => And64(r32, x32)
    case AMOAND_D => And64(r, x)
    case AMOOR_W => Or64(r32, x32)
    case AMOOR_D => Or64(r, x)
    case AMOMIN_W => Wrap64(Lower(Signed64(r32), Signed64(x32)))
    case AMOMIN_D => Wrap64(Lower(Signed64(r), Signed64(x)))
    case AMOMAX_W => Wrap64(Higher(Signed64(r32), Signed64(x32)))
    case AMOMAX_D => Wrap64(Higher(Signed64(r), Signed64(x)))
    case AMOMINU_W => Lower(Wrap32(r), Wrap32(x))
    case AMOMINU_D => Lower(r, x)
    case AMOMAXU_W => Higher(Wrap32(r), Wrap32(x))
    case AMOMAXU_D => Higher(r, x)
  }

  function AmoAt<G>(m: Memory<G>, h: Hart<G>, info: DecodeInfo, addr: Word): Step<G> {
    var l := m.load(h.mem, ViewOf(h), addr, info.memSize);
    var h1 := h.(mem := l.mem);
    if l.trap.ty != NoTrap then Step(h1, l.trap)
    else if !IsAmoRmw(info.token) then Illegal(h1, info.word)
    else
      var s := m.store(h1.mem, ViewOf(h1), addr, info.memSize, AmoValue(info.token, h.xregs[info.rs2], l.value));
      var h2 := h1.(mem := s.mem);
      if s.trap.ty != NoTrap then Step(h2, s.trap)
      else Put(h2, info.rd, if info.memSize == 8 then l.value else SignExtendFrom(l.value, TWO32))
  }

  function Amo<G>(m: Memory<G>, h: Hart<G>, info: DecodeInfo): Step<G>
    requires AtomicWidth(info.memSize)
  {
    var addr := h.xregs[info.rs1];
    if Misaligned(addr, info.memSize) then Step(h, Trap(LoadAddressMisaligned, info.pc)) else AmoAt(m, h, info, addr)
  }

  function Atomic<G>(m: Memory<G>, h: Hart<G>, info: DecodeInfo): Step<G>
    requires AtomicWidth(info.memSize)
  {
    if info.token in {LR_W, LR_D} then LoadReserved(m, h, info)
    else if info.token in {SC_W, SC_D} then StoreConditional(m, h, info)
    else Amo(m, h, info)
  }

  // ----- system instructions -----

  /** kAllowedCsrs */
  const ALLOWED: set<int> :=
    {0xf11, 0xf12, 0x342, 0xb00, 0x302, 0x341, 0xf14, 0x303, 0x304, 0x344, 0x301, 0x300, 0x343, 0x305, 0x340,
     0xf13, 0xb02, 0x306, 0x180, 0x142, 0x141, 0x104, 0x144, 0x100, 0x143, 0x105, 0x7a1, 0x7a0, 0xf15, 0x106, 0x140, 0xc01}

  function CsrValue(t: Token, was: Bits, rs1: Bits, zimm: Bits): Bits
    requires IsCsr(t)
  {
    match t
    case CSRRW => rs1
    case CSRRS => OrBits(rs1, was)
    case CSRRC => ClearBits(was, rs1)
    case CSRRWI => zimm
    case CSRRSI => OrBits(was, zimm)
    case CSRRCI => ClearBits(was, zimm)
  }

  /** The access itself: time is refreshed first, the old value goes to rd, and the new one is written back. */
  function CsrAccessed<G>(h: Hart<G>, info: DecodeInfo, addr: CsrAddr, time: Word): Hart<G>
    requires IsCsr(info.token)
  {
    var f := if addr == TIME then Write(h.csr, TIME, ToBits(time)) else h.csr;
    var was := Read(f, addr);
    var val := CsrValue(info.token, was, ToBits(h.xregs[info.rs1]), ToBits(info.rs1));
    var writable := info.rs1 != 0 || info.token in {CSRRW, CSRRWI};
    SetX(h.(csr := if writable then Write(f, addr, val) else f), info.rd, FromBits(was))
  }

  function CsrInstruction<G>(h: Hart<G>, info: DecodeInfo, time: Word): Step<G>
    requires IsCsr(info.token)
  {
    var addr := Wrap32(info.imm);
    if addr !in ALLOWED then Illegal(h, info.word)
    else if addr == SATP && h.priv == Supervisor && Status(h)[TVM_BIT] then Illegal(h, info.word)
    else Step(CsrAccessed(h, info, addr, time), NONE)
  }

  function ECall<G>(h: Hart<G>, info: DecodeInfo): Step<G> {
    Step(h, Trap(match h.priv
                 case User => EnvironmentCallFromUMode
                 case Supervisor => EnvironmentCallFromSMode
                 case Machine => EnvironmentCallFromMMode
                 case Reserved => NoTrap,
                 LinkAddress(info)))
  }

  function SfenceVma<G>(m: Memory<G>, h: Hart<G>, info: DecodeInfo): Step<G> {
    if Level(h.priv) < 1 || (h.priv == Supervisor && Status(h)[TVM_BIT]) then Illegal(h, info.word)
    else Step(h.(mem := m.flush(h.mem, h.xregs[info.rs1], h.xregs[info.rs2] % 0x1_0000)), NONE)
  }

  function System<G>(m: Memory<G>, h: Hart<G>, info: DecodeInfo, time: Word): Step<G> {
    if IsCsr(info.token) then CsrInstruction(h, info, time)
    else if info.token == EBREAK then Step(h, Trap(Breakpoint, 0))
    else if info.token == ECALL then ECall(h, info)
    else if info.token == WFI then Step(h.(wfi := h.wfi || Status(h)[TW_BIT]), NONE)
    else if info.token == SFENCE_VMA then SfenceVma(m, h, info)
    else if info.token == MRET then MRet(h, info.word)
    else if info.token == SRET then SRet(h, info.word)
    else Illegal(h, info.word)
  }

  /** A decoded instruction; the decoder gives atomics a width of 4 or 8 bytes. */
  type Insn = i: DecodeInfo | i.op == OpAmo ==> AtomicWidth(i.memSize)
    witness DecodeInfo(0, OpUndef, UNKNOWN, 0, 0, 0, 0, 0, 4, 0)

  function Execute<G>(m: Memory<G>, h: Hart<G>, info: Insn, time: Word): Step<G> {
    match info.op
    case OpBranch => Branch(h, info)
    case OpStore => Store(m, h, info)
    case OpLoad => Load(m, h, info)
    case OpSystem => System(m, h, info, time)
    case OpJal => Jal(h, info)
    case OpJalr => Jalr(h, info)
    case OpFence => Step(h, NONE)
    case OpAmo => Atomic(m, h, info)
    case _ => Compute(h, info)
  }
}
