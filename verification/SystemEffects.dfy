/** The system instructions of src/cpu/executor.cc by their effect. */
module SystemEffects {
  import opened Words
  import opened BitWords
  import opened BitLaws
  import opened Isa
  import opened Csr
  import opened Traps
  import opened Hart
  import opened TrapEffects
  import opened Exec

  // ----- the register file -----

  /** mstatus (0x300): SIE, MIE, SPIE, MPIE, SPP, MPP, MPRV, SUM, MXR, TVM, TW and TSR are written, nothing else. */
  lemma MstatusEffect(f: CsrFile, v: Bits, i: nat)
    requires i < 64
    ensures Write(f, 0x300, v) == f[0x300 := Write(f, 0x300, v)[0x300]] && Read(f, 0x300) == f[0x300]
    ensures Write(f, 0x300, v)[0x300][i]
         == if i == 1 || i == 3 || i == 5 || i == 7 || i == 8 || i == 11 || i == 12 || 17 <= i <= 22 then v[i] else f[0x300][i]
  {
  }

  /** sstatus (0x100) reads and writes mstatus: UBE, VS, FS, XS, UXL and SD can be read, SIE, SPIE, SPP, SUM and MXR also written. */
  lemma SstatusEffect(f: CsrFile, v: Bits, i: nat)
    requires i < 64
    ensures Write(f, 0x100, v) == f[0x300 := Write(f, 0x100, v)[0x300]]
    ensures Write(f, 0x100, v)[0x300][i] == if i == 1 || i == 5 || i == 8 || i == 18 || i == 19 then v[i] else f[0x300][i]
    ensures Read(f, 0x100)[i]
         == (f[0x300][i] && (i == 1 || i == 5 || i == 6 || 8 <= i <= 10 || 13 <= i <= 16 || i == 18 || i == 19 || i == 32 || i == 33 || i == 63))
  {
  }

  /** mie (0x304) and mip (0x344) keep the bits of 0xaaa; sie (0x104) and sip (0x144) read and write those of 0x222 in them. */
  lemma InterruptRegisters(f: CsrFile, v: Bits, i: nat, machine: CsrAddr, window: CsrAddr)
    requires i < 64 && ((machine == 0x304 && window == 0x104) || (machine == 0x344 && window == 0x144))
    ensures Write(f, machine, v) == f[machine := Write(f, machine, v)[machine]] && Read(f, machine) == f[machine]
    ensures Write(f, machine, v)[machine][i] == (v[i] && i < 12 && i % 2 == 1)
    ensures Write(f, window, v) == f[machine := Write(f, window, v)[machine]]
    ensures Write(f, window, v)[machine][i] == (if i < 12 && i % 4 == 1 then v[i] else f[machine][i])
    ensures Read(f, window)[i] == (f[machine][i] && i < 12 && i % 4 == 1)
  {
  }

  /** mideleg (0x303) keeps the bits of 0x222, medeleg (0x302) those of 0xf7ff. */
  lemma DelegationRegisters(f: CsrFile, v: Bits, i: nat)
    requires i < 64
    ensures Write(f, 0x303, v) == f[0x303 := Write(f, 0x303, v)[0x303]] && Write(f, 0x302, v) == f[0x302 := Write(f, 0x302, v)[0x302]]
    ensures Write(f, 0x303, v)[0x303][i] == (v[i] && i < 12 && i % 4 == 1)
    ensures Write(f, 0x302, v)[0x302][i] == (v[i] && i < 16 && i != 11)
  {
  }

  /** satp (0x180) keeps its mode, bits 60 to 63, unless the new one is 0 or 8. */
  lemma SatpEffect(f: CsrFile, v: Bits, i: nat)
    requires i < 64
    ensures var legal := !v[60] && !v[61] && !v[62];
            && Write(f, 0x180, v) == f[0x180 := Write(f, 0x180, v)[0x180]] && Read(f, 0x180) == f[0x180]
            && Write(f, 0x180, v)[0x180][i] == if i >= 60 && !legal then f[0x180][i] else v[i]
  {
  }

  /** misa, tselect, tdata1 and the three identification registers cannot be written; every other register is a cell. */
  lemma OtherRegisters(f: CsrFile, addr: CsrAddr, v: Bits)
    requires addr !in {0x100, 0x104, 0x144, 0x180, 0x300, 0x302, 0x303, 0x304, 0x344}
    ensures Write(f, addr, v) == if addr in {0x301, 0x7a0, 0x7a1, 0xf11, 0xf12, 0xf13} then f else f[addr := v]
    ensures Read(f, addr) == if addr in {0x7a0, 0x7a1} then NoBits() else f[addr]
  {
  }

  // ----- CSR instructions -----

  /** The word written, bit by bit, from the register's old content `was`, rs1's value `x` and the immediate `z`. */
  ghost predicate Combined(t: Token, was: Bits, x: Word, z: nat, val: Bits) {
    forall k: nat :: k < 64 ==>
      val[k] == match t
                case CSRRW => BitAt(x, k)
                case CSRRS => was[k] || BitAt(x, k)
                case CSRRC => was[k] && !BitAt(x, k)
                case CSRRWI => BitAt(z, k)
                case CSRRSI => was[k] || BitAt(z, k)
                case CSRRCI => was[k] && !BitAt(z, k)
                case _ => false
  }

  lemma CombinedIs(t: Token, was: Bits, x: Word, z: Word, val: Bits)
    requires IsCsr(t) && Combined(t, was, x, z, val)
    ensures val == CsrValue(t, was, ToBits(x), ToBits(z))
  {
    forall k: nat | k < 64 ensures ToBits(x)[k] == BitAt(x, k) && ToBits(z)[k] == BitAt(z, k) {
      DigitAt(x, 64, k);
      DigitAt(z, 64, k);
    }
    assert forall k: nat :: k < 64 ==> val[k] == CsrValue(t, was, ToBits(x), ToBits(z))[k];
  }

  /** Refused outside the list, and for satp (0x180) in S under TVM (20). */
  lemma CsrRefused<G>(m: Memory<G>, h: Hart<G>, info: Insn, time: Word, addr: nat)
    requires info.op == OpSystem && IsCsr(info.token) && addr == info.imm % TWO32
    requires addr !in ALLOWED || (addr == 0x180 && h.priv == Supervisor && h.csr[0x300][20])
    ensures Execute(m, h, info, time) == Step(h, Trap(IllegalInstruction, info.word))
  {
    assert Execute(m, h, info, time) == System(m, h, info, time) == CsrInstruction(h, info, time);
  }

  /** rd gets the register as read, and the new word is written unless a set or clear form names register or immediate 0. */
  function Swapped<G>(h: Hart<G>, info: DecodeInfo, addr: CsrAddr, f: CsrFile, was: Bits, val: Bits): Hart<G> {
    var x: XRegs := h.xregs[info.rd := FromBits(was)];
    if info.token == CSRRW || info.token == CSRRWI || info.rs1 != 0 then h.(csr := Write(f, addr, val), xregs := x)
    else h.(csr := f, xregs := x)
  }

  /** Otherwise the register as read (for time, 0xc01, after the clock was put into it) and the combination are swapped. */
  lemma CsrEffect<G>(m: Memory<G>, h: Hart<G>, info: Insn, time: Word, addr: CsrAddr, f: CsrFile, was: Bits, val: Bits)
    requires info.op == OpSystem && IsCsr(info.token) && addr == info.imm % TWO32
    requires addr in ALLOWED && !(addr == 0x180 && h.priv == Supervisor && h.csr[0x300][20])
    requires f == (if addr == 0xc01 then h.csr[0xc01 := ToBits(time)] else h.csr) && was == Read(f, addr)
    requires Combined(info.token, was, h.xregs[info.rs1], info.rs1, val)
    ensures Execute(m, h, info, time) == Step(Swapped(h, info, addr, f, was, val), NONE)
  {
    CombinedIs(info.token, was, h.xregs[info.rs1], info.rs1, val);
    AccessedIs(h, info, addr, time, f, was, val);
    CsrAccepted(m, h, info, time, addr);
  }

  lemma CsrAccepted<G>(m: Memory<G>, h: Hart<G>, info: Insn, time: Word, addr: CsrAddr)
    requires info.op == OpSystem && IsCsr(info.token) && addr == info.imm % TWO32
    requires addr in ALLOWED && !(addr == 0x180 && h.priv == Supervisor && h.csr[0x300][20])
    ensures Execute(m, h, info, time) == Step(CsrAccessed(h, info, addr, time), NONE)
  {
    assert Execute(m, h, info, time) == System(m, h, info, time) == CsrInstruction(h, info, time);
  }

  lemma AccessedIs<G>(h: Hart<G>, info: Insn, addr: CsrAddr, time: Word, f: CsrFile, was: Bits, val: Bits)
    requires IsCsr(info.token) && was == Read(f, addr) && val == CsrValue(info.token, was, ToBits(h.xregs[info.rs1]), ToBits(info.rs1))
    requires f == if addr == 0xc01 then h.csr[0xc01 := ToBits(time)] else h.csr
    ensures CsrAccessed(h, info, addr, time) == Swapped(h, info, addr, f, was, val)
  {
    TimeWrite(h.csr, time);
  }

  lemma TimeWrite(f: CsrFile, time: Word)
    ensures Write(f, 0xc01, ToBits(time)) == f[0xc01 := ToBits(time)]
  {
    PlainWrite(f, 0xc01, ToBits(time));
  }

  // ----- the others -----

  /** ECALL only traps, with code 8, 9 or 11 by privilege and the next address as value. */
  lemma EcallEffect<G>(m: Memory<G>, h: Hart<G>, info: Insn, time: Word, c: nat, t: TrapType)
    requires info.op == OpSystem && info.token == ECALL && h.priv != Reserved && Coded(t, c, false)
    requires c == if h.priv == User then 8 else if h.priv == Supervisor then 9 else 11
    ensures Execute(m, h, info, time) == Step(h, Trap(t, (info.pc + info.size) % TWO64))
  {
    assert Execute(m, h, info, time) == System(m, h, info, time) == ECall(h, info);
  }

  /** EBREAK only traps, with code 3. */
  lemma EbreakEffect<G>(m: Memory<G>, h: Hart<G>, info: Insn, time: Word, t: TrapType)
    requires info.op == OpSystem && info.token == EBREAK && Coded(t, 3, false)
    ensures Execute(m, h, info, time) == Step(h, Trap(t, 0))
  {
    assert Execute(m, h, info, time) == System(m, h, info, time);
  }

  /** WFI puts the hart to sleep exactly when TW (21) is set. */
  lemma WfiEffect<G>(m: Memory<G>, h: Hart<G>, info: Insn, time: Word)
    requires info.op == OpSystem && info.token == WFI
    ensures Execute(m, h, info, time) == Step(if h.csr[0x300][21] then h.(wfi := true) else h, NONE)
  {
    assert Execute(m, h, info, time) == System(m, h, info, time);
  }

  /** SFENCE.VMA flushes for rs1 and the low 16 bits of rs2; it is illegal in U, and in S under TVM (20). */
  lemma SfenceEffect<G>(m: Memory<G>, h: Hart<G>, info: Insn, time: Word)
    requires info.op == OpSystem && info.token == SFENCE_VMA
    ensures Execute(m, h, info, time)
         == if h.priv == User || (h.priv == Supervisor && h.csr[0x300][20]) then Step(h, Trap(IllegalInstruction, info.word))
            else Step(h.(mem := m.flush(h.mem, h.xregs[info.rs1], h.xregs[info.rs2] % 0x1_0000)), NONE)
  {
    assert Execute(m, h, info, time) == System(m, h, info, time) == SfenceVma(m, h, info);
  }

  lemma ReturnsExecuted<G>(m: Memory<G>, h: Hart<G>, info: Insn, time: Word)
    requires info.op == OpSystem && info.token in {MRET, SRET}
    ensures Execute(m, h, info, time) == if info.token == MRET then MRet(h, info.word) else SRet(h, info.word)
  {
    assert Execute(m, h, info, time) == System(m, h, info, time);
  }
}
