/**
 The A64 code src/jit/jit.cc emits for each RV64 instruction, as sequences.  The
 class JitEmitter in JitEmitter.dfy builds these sequences step by step.
 */
module JitCode {
  import opened Words
  import opened Isa
  import opened A64

  /** kRv64ToA64Map; -1 marks the guest registers kept in memory (gp and tp). */
  const RV64_TO_A64: seq<int> :=
    [63, 8, 18, -1, -1, 9, 10, 11, 16, 17, 0, 1, 2, 3, 4, 5,
     6, 7, 19, 20, 21, 22, 23, 24, 25, 26, 27, 28, 12, 13, 14, 15]

  /** kA64ToRv64Map for the registers that hold a guest register. */
  const A64_TO_RV64: seq<Reg> :=
    [10, 11, 12, 13, 14, 15, 16, 17, 1, 5, 6, 7, 28, 29, 30, 31,
     8, 9, 2, 18, 19, 20, 21, 22, 23, 24, 25, 26, 27]

  predicate InMemory(r: Reg) { r == 3 || r == 4 }

  /** A64Reg, for guest registers that have one; MapToA64 ties it to the table. */
  function Home(r: Reg): Gp
    requires !InMemory(r)
  {
    if r == 0 then ZR
    else if r == 1 then 8
    else if r == 2 then 18
    else if r <= 7 then r + 4
    else if r <= 9 then r + 8
    else if r <= 17 then r - 10
    else if r <= 27 then r + 1
    else r - 16
  }

  /** The guest register held in x(i). */
  function GuestOf(i: nat): Reg
    requires i < 29
  {
    if i <= 7 then i + 10
    else if i == 8 then 1
    else if i <= 11 then i - 4
    else if i <= 15 then i + 16
    else if i <= 17 then i - 8
    else if i == 18 then 2
    else i - 1
  }

  lemma MapToA64(r: Reg)
    ensures RV64_TO_A64[r] == if InMemory(r) then -1 else Home(r)
  {
  }

  lemma MapToRv64(i: nat)
    requires i < 29
    ensures A64_TO_RV64[i] == GuestOf(i)
  {
  }

  /** The register an instruction works in: the home, or the scratch register standing in for a spilled one. */
  function Work(r: Reg, scratch: Gp): Gp { if InMemory(r) then scratch else Home(r) }

  // ----- instruction selectors -----

  /** cbz r, zero; body; b end; zero: alt; end: */
  function IfZero(w: Width, r: Gp, zero: Label, body: seq<Ins>, alt: seq<Ins>, end: Label): seq<Ins> {
    [Cbz(w, r, zero)] + body + [B(end), Bind(zero)] + alt + [Bind(end)]
  }

  function MulhsuCode(rd: Gp, rs1: Gp, rs2: Gp, l: Label): seq<Ins> {
    [Cbz(X, rs1, l + 1), Cbz(X, rs2, l + 1), Tbnz63(rs1, l + 2)]
    + [Bind(l), Alu(Umulh, X, rd, rs1, rs2), B(l + 3)]
    + ([Bind(l + 2), Neg(rd, rs1), Alu(Umulh, X, rd, rd, rs2)] + [Mvn(rd, rd), B(l + 3)])
    + [Bind(l + 1), MovI(X, rd, 0), Bind(l + 3)]
  }

  function RegSelect(rd: Gp, rs1: Gp, rs2: Gp, t: Token, l: Label): seq<Ins> {
    match t
    case ADD => [Alu(Add, X, rd, rs1, rs2)]
    case SUB => [Alu(Sub, X, rd, rs1, rs2)]
    case SLL => [Alu(Lslv, X, rd, rs1, rs2)]
    case SLT => [Cmp(rs1, rs2), Cset(rd, CondLT)]
    case SLTU => [Cmp(rs1, rs2), Cset(rd, CondLO)]
    case XOR => [Alu(Eor, X, rd, rs1, rs2)]
    case SRL => [Alu(Lsrv, X, rd, rs1, rs2)]
    case SRA => [Alu(Asrv, X, rd, rs1, rs2)]
    case OR => [Alu(Orr, X, rd, rs1, rs2)]
    case AND => [Alu(And_, X, rd, rs1, rs2)]
    case MUL => [Alu(Mul, X, rd, rs1, rs2)]
    case MULH => [Alu(Smulh, X, rd, rs1, rs2)]
    case MULHSU => MulhsuCode(rd, rs1, rs2, l)
    case MULHU => [Alu(Umulh, X, rd, rs1, rs2)]
    case DIV => IfZero(X, rs2, l, [Alu(Sdiv, X, rd, rs1, rs2)], [MovA(rd, TWO64 - 1)], l + 1)
    case DIVU => IfZero(X, rs2, l, [Alu(Udiv, X, rd, rs1, rs2)], [MovA(rd, TWO64 - 1)], l + 1)
    case REM => IfZero(X, rs2, l, [Alu(Sdiv, X, rd, rs1, rs2), Msub(X, rd, rd, rs2, rs1)], [MovR(X, rd, rs1)], l + 1)
    case REMU => IfZero(X, rs2, l, [Alu(Udiv, X, rd, rs1, rs2), Msub(X, rd, rd, rs2, rs1)], [MovR(X, rd, rs1)], l + 1)
    case _ => []
  }

  function Sxtw(rd: Gp): seq<Ins> { [Sxt(TWO32, rd, rd)] }

  function Reg32Select(rd: Gp, rs1: Gp, rs2: Gp, t: Token, l: Label): seq<Ins> {
    match t
    case ADDW => [Alu(Add, W, rd, rs1, rs2)] + Sxtw(rd)
    case SUBW => [Alu(Sub, W, rd, rs1, rs2)] + Sxtw(rd)
    case SLLW => [Alu(Lslv, W, rd, rs1, rs2)] + Sxtw(rd)
    case SRLW => [Alu(Lsrv, W, rd, rs1, rs2)] + Sxtw(rd)
    case SRAW => [Alu(Asrv, W, rd, rs1, rs2)] + Sxtw(rd)
    case MULW => [Alu(Mul, W, rd, rs1, rs2)] + Sxtw(rd)
    case DIVW => IfZero(W, rs2, l, [Alu(Sdiv, W, rd, rs1, rs2)], [MovI(W, rd, TWO32 - 1)], l + 1) + Sxtw(rd)
    case DIVUW => IfZero(W, rs2, l, [Alu(Udiv, W, rd, rs1, rs2)], [MovI(W, rd, TWO32 - 1)], l + 1) + Sxtw(rd)
    case REMW => IfZero(W, rs2, l, [Alu(Sdiv, W, rd, rs1, rs2), Msub(W, rd, rd, rs2, rs1)], [MovR(W, rd, rs1)], l + 1) + Sxtw(rd)
    case REMUW => IfZero(W, rs2, l, [Alu(Udiv, W, rd, rs1, rs2), Msub(W, rd, rd, rs2, rs1)], [MovR(W, rd, rs1)], l + 1) + Sxtw(rd)
    case _ => []
  }

  function ImmSelect(rd: Gp, rs1: Gp, imm: int, t: Token): seq<Ins> {
    match t
    case ADDI => [MovI(X, rd, imm), Alu(Add, X, rd, rs1, rd)]
    case SLTI => [MovI(X, rd, imm), Cmp(rs1, rd), Cset(rd, CondLT)]
    case SLTIU => [MovI(X, rd, imm), Cmp(rs1, rd), Cset(rd, CondLO)]
    case XORI => [MovI(X, rd, imm), Alu(Eor, X, rd, rs1, rd)]
    case ORI => [MovI(X, rd, imm), Alu(Orr, X, rd, rs1, rd)]
    case ANDI => [MovI(X, rd, imm), Alu(And_, X, rd, rs1, rd)]
    case SLLI => [MovI(X, rd, imm), Alu(Lslv, X, rd, rs1, rd)]
    case SRLI => [MovI(X, rd, imm), Alu(Lsrv, X, rd, rs1, rd)]
    case SRAI => [MovI(X, rd, imm), Alu(Asrv, X, rd, rs1, rd)]
    case _ => []
  }

  function Imm32Select(rd: Gp, rs1: Gp, imm: int, t: Token): seq<Ins> {
    match t
    case ADDIW => [MovI(W, rd, imm), Alu(Add, W, rd, rs1, rd)] + Sxtw(rd)
    case SLLIW => [MovI(W, rd, imm), Alu(Lslv, W, rd, rs1, rd)] + Sxtw(rd)
    case SRLIW => [MovI(W, rd, imm), Alu(Lsrv, W, rd, rs1, rd)] + Sxtw(rd)
    case SRAIW => [MovI(W, rd, imm), Alu(Asrv, W, rd, rs1, rd)] + Sxtw(rd)
    case _ => []
  }

  // ----- spilling around a core that works in x0, x1 and x2 -----

  function SpillSource(spilled: bool, scratch: Gp, slot: nat, r: Reg): seq<Ins> {
    if spilled then [Str(X, scratch, Slot(slot)), Ldr(X, scratch, XregCell(r))] else []
  }

  function UnspillSource(spilled: bool, scratch: Gp, slot: nat): seq<Ins> {
    if spilled then [Ldr(X, scratch, Slot(slot))] else []
  }

  function Target(rd: Reg, core: seq<Ins>): seq<Ins> {
    if InMemory(rd) then [Str(X, 0, Slot(0))] + core + [Str(X, 0, XregCell(rd)), Ldr(X, 0, Slot(0))]
    else core
  }

  /** The code EmitReg, EmitImm and their 32-bit forms put around `core`; `two` says whether rs2 is an operand. */
  function Spilled(frame: nat, rd: Reg, rs1: Reg, two: bool, rs2: Reg, core: seq<Ins>): seq<Ins> {
    ([SubSp(frame)] + SpillSource(two && InMemory(rs2), 2, 16, rs2) + SpillSource(InMemory(rs1), 1, 8, rs1))
    + Target(rd, core)
    + (UnspillSource(InMemory(rs1), 1, 8) + UnspillSource(two && InMemory(rs2), 2, 16) + [AddSp(frame)])
  }

  function Around(frame: nat, rd: Reg, rs1: Reg, two: bool, rs2: Reg, core: seq<Ins>): seq<Ins> {
    if !InMemory(rd) && !InMemory(rs1) && !(two && InMemory(rs2)) then core
    else Spilled(frame, rd, rs1, two, rs2, core)
  }

  // ----- whole instructions -----

  function RegCode(info: DecodeInfo, l: Label): seq<Ins> {
    if info.rd == 0 then []
    else Around(32, info.rd, info.rs1, true, info.rs2,
                RegSelect(Work(info.rd, 0), Work(info.rs1, 1), Work(info.rs2, 2), info.token, l))
  }

  function Reg32Code(info: DecodeInfo, l: Label): seq<Ins> {
    if info.rd == 0 then []
    else Around(32, info.rd, info.rs1, true, info.rs2,
                Reg32Select(Work(info.rd, 0), Work(info.rs1, 1), Work(info.rs2, 2), info.token, l))
  }

  function ImmCode(info: DecodeInfo): seq<Ins> {
    if info.rd == 0 then []
    else Around(16, info.rd, info.rs1, false, info.rs2,
                ImmSelect(Work(info.rd, 0), Work(info.rs1, 1), info.imm, info.token))
  }

  function Imm32Code(info: DecodeInfo): seq<Ins> {
    if info.rd == 0 then []
    else Around(16, info.rd, info.rs1, false, info.rs2,
                Imm32Select(Work(info.rd, 0), Work(info.rs1, 1), info.imm, info.token))
  }

  /** EmitLui: `imm` is an int32_t, sign-extended by the move. */
  function LuiCode(rd: Reg, imm: int): seq<Ins> {
    if rd == 0 then []
    else if !InMemory(rd) then [MovI(X, Home(rd), imm)]
    else [SubSp(16), Str(X, 0, Slot(0))] + [MovI(X, 0, imm), Str(X, 0, XregCell(rd))] + [Ldr(X, 0, Slot(0)), AddSp(16)]
  }

  /** EmitAuipc adds the pc into the int32_t immediate field. */
  function AuipcImm(info: DecodeInfo): int { Signed32(Wrap32(info.imm + info.pc)) }

  function JalCode(info: DecodeInfo): seq<Ins> {
    if !InMemory(info.rd) then
      [MovA(Home(info.rd), JumpTarget(info)), Str(X, Home(info.rd), PcCell), MovA(Home(info.rd), LinkAddress(info))]
    else
      [SubSp(16), Str(X, 0, Slot(0))]
      + [MovA(0, JumpTarget(info)), Str(X, 0, PcCell)]
      + [MovA(0, LinkAddress(info)), Str(X, 0, XregCell(info.rd))]
      + [Ldr(X, 0, Slot(0)), AddSp(16)]
  }

  function JalrCore(info: DecodeInfo, rd: Gp, rs1: Gp): seq<Ins> {
    [MovI(X, rd, info.imm), Alu(Add, X, rd, rd, rs1), AndImm(rd, rd, TWO64 - 2)]
    + [Str(X, rd, PcCell), MovA(rd, LinkAddress(info))]
  }

  function JalrCode(info: DecodeInfo): seq<Ins> {
    var rd, rs1 := Work(info.rd, 0), Work(info.rs1, 1);
    if !InMemory(info.rd) && !InMemory(info.rs1) then JalrCore(info, rd, rs1)
    else
      [SubSp(16)] + SpillSource(InMemory(info.rs1), 1, 8, info.rs1)
      + SpillSource(InMemory(info.rd), 0, 0, info.rd)
      + JalrCore(info, rd, rs1)
      + (if InMemory(info.rd) then [Str(X, 0, XregCell(info.rd)), Ldr(X, 0, Slot(0))] else [])
      + UnspillSource(InMemory(info.rs1), 1, 8) + [AddSp(16)]
  }

  // ----- calls into the memory system -----

  /** The numeric value of TrapType::kNone. */
  const TRAP_NONE: Half := 23

  function SaveVolatileOne(i: nat): Ins
    requires i < 19
  {
    Str(X, i, XregCell(GuestOf(i)))
  }

  function RestoreVolatileOne(i: nat): Ins
    requires i < 19
  {
    Ldr(X, i, XregCell(GuestOf(i)))
  }

  /** SaveVolatileA64Reg: x0-x18 into the cells of the guest registers they hold. */
  function SaveVolatile(): (code: seq<Ins>)
    ensures |code| == 19
  {
    seq(19, i requires 0 <= i < 19 => SaveVolatileOne(i))
  }

  function RestoreVolatile(): (code: seq<Ins>)
    ensures |code| == 19
  {
    seq(19, i requires 0 <= i < 19 => RestoreVolatileOne(i))
  }

  /** Leave (trap type - kNone) in a stack slot. */
  function TestTrap(trapAddr: Word, slot: nat): seq<Ins> {
    [MovA(0, trapAddr), Ldr(W, 0, TrapType(0))] + [SubImmW(0, 0, TRAP_NONE), Str(W, 0, Slot(slot))]
  }

  /** The return path both calls share: guest registers back, then branch on the trap test. */
  function Return(slot: nat, fail: Label): seq<Ins> {
    RestoreVolatile() + ([Ldp(29, 30, 0)] + [Ldr(W, 0, Slot(slot)), Cbnz(W, 0, fail)])
  }

  function FailPath(frame: nat, fail: Label, end: Label): seq<Ins> {
    [B(end), Bind(fail)] + [Ldr(X, 0, XregCell(10)), AddSp(frame), Exit] + [Bind(end)]
  }

  function SignExtendSelect(t: Token): seq<Ins> {
    match t
    case LB => [Sxt(0x100, 0, 0)]
    case LH => [Sxt(0x1_0000, 0, 0)]
    case LW => [Sxt(TWO32, 0, 0)]
    case _ => []
  }

  function AddressInX1(info: DecodeInfo): seq<Ins> {
    [if InMemory(info.rs1) then Ldr(X, 1, XregCell(info.rs1)) else MovR(X, 1, Home(info.rs1))]
    + [MovI(X, 2, info.imm), Alu(Add, X, 1, 1, 2)]
  }

  function LoadArgsCode(info: DecodeInfo, trapAddr: Word, loadFn: Word): seq<Ins> {
    [MovR(X, 0, 29), MovI(X, 2, info.memSize)] + [MovA(3, trapAddr), MovA(4, loadFn)]
  }

  function LoadCallCode(info: DecodeInfo, trapAddr: Word, loadFn: Word): seq<Ins> {
    [SubSp(32), Stp(29, 30, 0)] + AddressInX1(info) + LoadArgsCode(info, trapAddr, loadFn) + [Blr(4), Str(X, 0, Slot(24))]
  }

  /** The loaded value goes to the guest cell, then to the home of rd. */
  function LoadResultCode(info: DecodeInfo): seq<Ins> {
    ([Ldr(X, 0, Slot(24))] + SignExtendSelect(info.token))
    + ([Str(X, 0, XregCell(info.rd)), Ldr(X, 0, XregCell(10)), AddSp(32)]
       + (if InMemory(info.rd) then [] else [Ldr(X, Home(info.rd), XregCell(info.rd))]))
  }

  function LoadCode(info: DecodeInfo, l: Label, trapAddr: Word, loadFn: Word): seq<Ins> {
    SaveVolatile() + LoadCallCode(info, trapAddr, loadFn) + (TestTrap(trapAddr, 16) + Return(16, l))
    + LoadResultCode(info) + FailPath(32, l, l + 1)
  }

  function DataToSlot(info: DecodeInfo): seq<Ins> {
    if InMemory(info.rs2) then
      [Ldr(X, 0, XregCell(info.rs2)), Str(X, 0, Slot(24)), Ldr(X, 0, XregCell(10))]
    else [Str(X, Home(info.rs2), Slot(24))]
  }

  function AddressInX0(info: DecodeInfo): seq<Ins> {
    if InMemory(info.rs1) then
      [Ldr(X, 0, XregCell(info.rs1)), MovI(X, 1, info.imm), Alu(Add, X, 0, 0, 1)]
    else [MovI(X, 0, info.imm), Alu(Add, X, 0, 0, Home(info.rs1))]
  }

  function StoreArgsCode(info: DecodeInfo, trapAddr: Word, storeFn: Word): seq<Ins> {
    ([Str(X, 0, Slot(16)), MovR(X, 0, 29)] + [Ldr(X, 1, Slot(16)), MovI(X, 2, info.memSize)])
    + ([Ldr(X, 3, Slot(24)), MovA(4, trapAddr)] + [MovA(5, storeFn)])
  }

  function StoreCallCode(info: DecodeInfo, trapAddr: Word, storeFn: Word): seq<Ins> {
    [SubSp(48), Stp(29, 30, 0)] + DataToSlot(info) + AddressInX0(info) + StoreArgsCode(info, trapAddr, storeFn) + [Blr(5)]
  }

  function StoreCode(info: DecodeInfo, l: Label, trapAddr: Word, storeFn: Word): seq<Ins> {
    SaveVolatile() + StoreCallCode(info, trapAddr, storeFn) + (TestTrap(trapAddr, 32) + Return(32, l))
    + [Ldr(X, 0, XregCell(10)), AddSp(48)] + FailPath(48, l, l + 1)
  }

  // ----- prolog and epilog -----

  /** The pairs (x0,x1) .. (x28,x29), each at its own offset in the frame. */
  function SaveHost(): (code: seq<Ins>)
    ensures |code| == 15
  {
    seq(15, i requires 0 <= i < 15 => Stp(2 * i, 2 * i + 1, 16 * i))
  }

  function RestoreHost(): (code: seq<Ins>)
    ensures |code| == 15
  {
    seq(15, i requires 0 <= i < 15 => Ldp(2 * i, 2 * i + 1, 16 * i))
  }

  /** Guest registers with a home, in register order. */
  function LoadGuest(n: nat): seq<Ins>
    requires n <= 32
  {
    if n == 0 then []
    else LoadGuest(n - 1) + (if InMemory(n - 1) then [] else [Ldr(X, Home(n - 1), XregCell(n - 1))])
  }

  function StoreGuest(n: nat): seq<Ins>
    requires n <= 32
  {
    if n == 0 then []
    else StoreGuest(n - 1) + (if InMemory(n - 1) then [] else [Str(X, Home(n - 1), XregCell(n - 1))])
  }

  function Prolog(cpu: Word): seq<Ins> {
    [SubSp(256)] + SaveHost() + [Str(X, 30, Slot(240)), MovA(29, cpu)] + LoadGuest(|RV64_TO_A64|)
  }

  function ParkX0X1(frame: nat): seq<Ins> { [SubSp(frame), Stp(0, 1, 0)] }

  function UnparkX0X1(frame: nat): seq<Ins> { [Str(X, 0, InstretCell), Ldp(0, 1, 0), AddSp(frame)] }

  function CommitInstret(frame: nat, delta: Word): seq<Ins> {
    ParkX0X1(frame) + [MovA(0, delta), Ldr(X, 1, InstretCell), Alu(Add, X, 0, 0, 1)] + UnparkX0X1(frame)
  }

  function Leaving(delta: Word): seq<Ins> {
    CommitInstret(16, delta) + StoreGuest(|RV64_TO_A64|) + RestoreHost()
    + [Ldr(X, 30, Slot(240)), AddSp(256), Ret(30)]
  }

  function Epilog(delta: Word): seq<Ins> {
    [ExitTag] + Leaving(delta)
  }

  /** Emit's dispatch; opcodes without a translation emit nothing. */
  function InsCode(at: Addresses, info: DecodeInfo, l: Label): seq<Ins> {
    match info.op
    case OpReg => RegCode(info, l)
    case OpRv32 => Reg32Code(info, l)
    case OpImm => ImmCode(info)
    case OpImm32 => Imm32Code(info)
    case OpLui => LuiCode(info.rd, info.imm)
    case OpAuipc => LuiCode(info.rd, AuipcImm(info))
    case OpJal => JalCode(info)
    case OpJalr => JalrCode(info)
    case OpLoad => LoadCode(info, l, at.trapAddr, at.loadFn)
    case OpStore => StoreCode(info, l, at.trapAddr, at.storeFn)
    case _ => []
  }
}
