/**
 Decoded RV64IMA instructions (include/cpu/decode.h) and the value each
 computational instruction must produce, written as the RISC-V Unprivileged ISA
 (version 20191213) defines it, over mathematical integers.
 */
module Isa {
  import opened Words

  datatype OpCode =
    | OpUndef | OpReg | OpImm | OpLui | OpBranch | OpStore | OpLoad | OpSystem
    | OpAuipc | OpJal | OpJalr | OpImm32 | OpRv32 | OpFence | OpAmo

  datatype Token =
    | UNKNOWN | LUI | AUIPC | JAL | JALR
    | BEQ | BNE | BLT | BGE | BLTU | BGEU
    | LB | LH | LW | LBU | LHU | SB | SH | SW | LWU | LD | SD
    | ADDI | SLTI | SLTIU | XORI | ORI | ANDI
    | ADD | SUB | SLL | SLT | SLTU | XOR | SRL | SRA | OR | AND
    | FENCE | FENCE_TSO | PAUSE | ECALL | EBREAK
    | SLLI | SRLI | SRAI | ADDIW | SLLIW | SRLIW | SRAIW
    | ADDW | SUBW | SLLW | SRLW | SRAW
    | MRET | WFI | CSRRW | CSRRS | CSRRC | CSRRWI | CSRRSI | CSRRCI | FENCE_I
    | MUL | MULH | MULHSU | MULHU | DIV | DIVU | REM | REMU
    | MULW | DIVW | DIVUW | REMW | REMUW
    | SRET | SFENCE_VMA | LR_W | LR_D | SC_W | SC_D
    | AMOSWAP_D | AMOSWAP_W | AMOADD_D | AMOADD_W | AMOXOR_D | AMOXOR_W
    | AMOAND_D | AMOAND_W | AMOOR_D | AMOOR_W | AMOMIN_D | AMOMIN_W
    | AMOMAX_D | AMOMAX_W | AMOMINU_D | AMOMINU_W | AMOMAXU_D | AMOMAXU_W

  type Reg = r: nat | r < 32

  datatype DecodeInfo = DecodeInfo(
    word: Half, op: OpCode, token: Token, rd: Reg, rs1: Reg, rs2: Reg,
    pc: Word, imm: int, size: nat, memSize: nat)

  predicate IsReg(t: Token) {
    t in {ADD, SUB, SLL, SLT, SLTU, XOR, SRL, SRA, OR, AND,
          MUL, MULH, MULHSU, MULHU, DIV, DIVU, REM, REMU}
  }

  predicate IsReg32(t: Token) {
    t in {ADDW, SUBW, SLLW, SRLW, SRAW, MULW, DIVW, DIVUW, REMW, REMUW}
  }

  predicate IsShiftImm(t: Token) { t in {SLLI, SRLI, SRAI} }

  predicate IsImm(t: Token) {
    t in {ADDI, SLTI, SLTIU, XORI, ORI, ANDI} || IsShiftImm(t)
  }

  predicate IsShiftImm32(t: Token) { t in {SLLIW, SRLIW, SRAIW} }

  predicate IsImm32(t: Token) { t == ADDIW || IsShiftImm32(t) }

  predicate IsLoad(t: Token) { t in {LB, LH, LW, LD, LBU, LHU, LWU} }

  predicate IsStore(t: Token) { t in {SB, SH, SW, SD} }

  predicate IsBranch(t: Token) { t in {BEQ, BNE, BLT, BGE, BLTU, BGEU} }

  predicate IsCsr(t: Token) { t in {CSRRW, CSRRS, CSRRC, CSRRWI, CSRRSI, CSRRCI} }

  predicate IsAmoRmw(t: Token) {
    t in {AMOSWAP_D, AMOSWAP_W, AMOADD_D, AMOADD_W, AMOXOR_D, AMOXOR_W,
          AMOAND_D, AMOAND_W, AMOOR_D, AMOOR_W, AMOMIN_D, AMOMIN_W,
          AMOMAX_D, AMOMAX_W, AMOMINU_D, AMOMINU_W, AMOMAXU_D, AMOMAXU_W}
  }

  function MemBytes(t: Token): nat {
    match t
    case LB | LBU | SB => 1
    case LH | LHU | SH => 2
    case LW | LWU | SW | LR_W | SC_W | AMOSWAP_W | AMOADD_W | AMOXOR_W | AMOAND_W
       | AMOOR_W | AMOMIN_W | AMOMAX_W | AMOMINU_W | AMOMAXU_W => 4
    case _ => 8
  }

  // ----- values, as the ISA manual defines them -----

  function Flag(b: bool): Word { if b then 1 else 0 }

  function IsaReg(t: Token, a: Word, b: Word): Word
    requires IsReg(t)
  {
    match t
    case ADD => Wrap64(a + b)
    case SUB => Wrap64(a - b)
    case SLL => Wrap64(a * Pow2(b % 64))
    case SLT => Flag(Signed64(a) < Signed64(b))
    case SLTU => Flag(a < b)
    case XOR => Xor64(a, b)
    case SRL => Wrap64(a / Pow2(b % 64))
    case SRA => Wrap64(Signed64(a) / Pow2(b % 64))
    case OR => Or64(a, b)
    case AND => And64(a, b)
    case MUL => Wrap64(a * b)
    case MULH => Wrap64(Signed64(a) * Signed64(b) / TWO64)
    case MULHSU => Wrap64(Signed64(a) * b / TWO64)
    case MULHU => Wrap64(a * b / TWO64)
    case DIV => if b == 0 then TWO64 - 1 else Wrap64(TruncDiv(Signed64(a), Signed64(b)))
    case DIVU => if b == 0 then TWO64 - 1 else Wrap64(a / b)
    case REM => if b == 0 then a else Wrap64(TruncRem(Signed64(a), Signed64(b)))
    case REMU => if b == 0 then a else Wrap64(a % b)
  }

  /** The operands on which the emulator's MULHSU is one below the ISA's. */
  predicate MulhsuDeviates(a: Word, b: Word) {
    a >= TWO63 && b != 0 && (a * b) % TWO64 == 0
  }

  /** The value RegTypeExec computes: the ISA's, except for MULHSU's corner. */
  function RegOp(t: Token, a: Word, b: Word): Word
    requires IsReg(t)
  {
    if t == MULHSU && MulhsuDeviates(a, b) then Wrap64(IsaReg(t, a, b) - 1)
    else IsaReg(t, a, b)
  }

  function Reg32Op(t: Token, x: Word, y: Word): Word
    requires IsReg32(t)
  {
    var a, b := Wrap32(x), Wrap32(y);
    match t
    case ADDW => SignExtend32(Wrap32(a + b))
    case SUBW => SignExtend32(Wrap32(a - b))
    case SLLW => SignExtend32(Wrap32(a * Pow2(b % 32)))
    case SRLW => SignExtend32(Wrap32(a / Pow2(b % 32)))
    case SRAW => SignExtend32(Wrap32(Signed32(a) / Pow2(b % 32)))
    case MULW => SignExtend32(Wrap32(a * b))
    case DIVW => if b == 0 then TWO64 - 1 else SignExtend32(Wrap32(TruncDiv(Signed32(a), Signed32(b))))
    case DIVUW => if b == 0 then TWO64 - 1 else SignExtend32(Wrap32(a / b))
    case REMW => if b == 0 then SignExtend32(a) else SignExtend32(Wrap32(TruncRem(Signed32(a), Signed32(b))))
    case REMUW => if b == 0 then SignExtend32(a) else SignExtend32(Wrap32(a % b))
  }

  function ImmOp(t: Token, a: Word, imm: int): Word
    requires IsImm(t)
    requires IsShiftImm(t) ==> 0 <= imm < 64
  {
    match t
    case ADDI => Wrap64(a + imm)
    case SLTI => Flag(Signed64(a) < imm)
    case SLTIU => Flag(a < Wrap64(imm))
    case XORI => Xor64(a, Wrap64(imm))
    case ORI => Or64(a, Wrap64(imm))
    case ANDI => And64(a, Wrap64(imm))
    case SLLI => Wrap64(a * Pow2(imm))
    case SRLI => Wrap64(a / Pow2(imm))
    case SRAI => Wrap64(Signed64(a) / Pow2(imm))
  }

  function Imm32Op(t: Token, x: Word, imm: int): Word
    requires IsImm32(t)
    requires IsShiftImm32(t) ==> 0 <= imm < 32
  {
    var a := Wrap32(x);
    match t
    case ADDIW => SignExtend32(Wrap32(a + imm))
    case SLLIW => SignExtend32(Wrap32(a * Pow2(imm)))
    case SRLIW => SignExtend32(Wrap32(a / Pow2(imm)))
    case SRAIW => SignExtend32(Wrap32(Signed32(a) / Pow2(imm)))
  }

  /** The register value for bytes `data` fetched by a load. */
  function LoadValue(t: Token, data: Word): Word
    requires IsLoad(t)
  {
    match t
    case LB => SignExtendFrom(data, 0x100)
    case LH => SignExtendFrom(data, 0x1_0000)
    case LW => SignExtendFrom(data, TWO32)
    case _ => data
  }

  function JumpTarget(info: DecodeInfo): Word { Wrap64(info.pc + info.imm) }

  function IndirectTarget(info: DecodeInfo, a: Word): Word {
    And64(Wrap64(a + info.imm), TWO64 - 2)
  }

  function LinkAddress(info: DecodeInfo): Word { Wrap64(info.pc + info.size) }

  function EffectiveAddress(info: DecodeInfo, a: Word): Word { Wrap64(a + info.imm) }

  /** Field ranges a decoder guarantees: the token fits the opcode, immediates fit their format. */
  predicate WellFormed(info: DecodeInfo) {
    && -TWO31 <= info.imm < TWO31
    && info.size == 4
    && match info.op
       case OpReg => IsReg(info.token)
       case OpRv32 => IsReg32(info.token)
       case OpImm => IsImm(info.token) && (if IsShiftImm(info.token) then 0 <= info.imm < 64 else -2048 <= info.imm < 2048)
       case OpImm32 => IsImm32(info.token) && (if IsShiftImm32(info.token) then 0 <= info.imm < 32 else -2048 <= info.imm < 2048)
       case OpLui => info.token == LUI
       case OpAuipc => info.token == AUIPC
       case OpJal => info.token == JAL
       case OpJalr => info.token == JALR && -2048 <= info.imm < 2048
       case OpLoad => IsLoad(info.token) && info.memSize == MemBytes(info.token) && -2048 <= info.imm < 2048
       case OpStore => IsStore(info.token) && info.memSize == MemBytes(info.token) && -2048 <= info.imm < 2048
       case OpBranch => IsBranch(info.token)
       case OpAmo => (info.token in {LR_W, LR_D, SC_W, SC_D} || IsAmoRmw(info.token)) && info.memSize == MemBytes(info.token)
       case OpSystem => IsCsr(info.token) ==> 0 <= info.imm < 4096
       case _ => true
  }
}
