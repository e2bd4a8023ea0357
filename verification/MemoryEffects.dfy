/**
 Loads, stores and atomics of src/cpu/executor.cc by their effect, in numbers: the access they make, the value they
 store and the value rd gets, for any memory system.
 */
module MemoryEffects {
  import opened Words
  import opened BitLaws
  import opened Isa
  import opened Traps
  import opened Hart
  import opened Exec

  /** The low `n` bytes of `w`, for the four widths there are. */
  function Low(w: nat, n: nat): nat {
    if n == 1 then w % 0x100 else if n == 2 then w % 0x1_0000 else if n == 4 then w % 0x1_0000_0000 else w % 0x1_0000_0000_0000_0000
  }

  /** The signed number with those bytes. */
  function SignedBytes(w: nat, n: nat): int {
    var low := Low(w, n);
    if n == 1 then (if low < 0x80 then low else low - 0x100)
    else if n == 2 then (if low < 0x8000 then low else low - 0x1_0000)
    else if n == 4 then (if low < 0x8000_0000 then low else low - 0x1_0000_0000)
    else (if low < 0x8000_0000_0000_0000 then low else low - 0x1_0000_0000_0000_0000)
  }

  // ----- loads and stores -----

  lemma NarrowLoad(data: Word)
    ensures Signed64(SignExtendFrom(data, 0x100)) == SignedBytes(data, 1)
    ensures Signed64(SignExtendFrom(data, 0x1_0000)) == SignedBytes(data, 2)
    ensures Signed64(SignExtendFrom(data, TWO32)) == SignedBytes(data, 4)
  {
  }

  /** What a load of this kind makes of the data. */
  lemma LoadedValue(t: Token, data: Word)
    requires IsLoad(t)
    ensures t in {LB, LH, LW} ==> Signed64(LoadValue(t, data)) == SignedBytes(data, if t == LB then 1 else if t == LH then 2 else 4)
    ensures t !in {LB, LH, LW} ==> LoadValue(t, data) == data
  {
    NarrowLoad(data);
  }

  /** Loads: rs1 + imm, the width of the instruction, rd from the data; a trap changes nothing but the memory system. */
  lemma LoadEffect<G>(m: Memory<G>, h: Hart<G>, info: Insn, time: Word, l: Loaded<G>, val: Word)
    requires info.op == OpLoad && IsLoad(info.token)
    requires l == m.load(h.mem, View(h.priv, h.csr[0x180], h.csr[0x300]), (h.xregs[info.rs1] + info.imm) % TWO64, info.memSize)
    requires match info.token
             case LB => Signed64(val) == SignedBytes(l.value, 1)
             case LH => Signed64(val) == SignedBytes(l.value, 2)
             case LW => Signed64(val) == SignedBytes(l.value, 4)
             case _ => val == l.value
    ensures Execute(m, h, info, time)
         == if l.trap.ty != NoTrap then Step(h.(mem := l.mem), l.trap) else Step(h.(mem := l.mem, xregs := h.xregs[info.rd := val]), NONE)
  {
    LoadedValue(info.token, l.value);
    assert val == LoadValue(info.token, l.value);
    assert Execute(m, h, info, time) == Load(m, h, info);
  }

  lemma StoreEffect<G>(m: Memory<G>, h: Hart<G>, info: Insn, time: Word, s: Stored<G>)
    requires info.op == OpStore
    requires s == m.store(h.mem, View(h.priv, h.csr[0x180], h.csr[0x300]), (h.xregs[info.rs1] + info.imm) % TWO64, info.memSize, h.xregs[info.rs2])
    ensures Execute(m, h, info, time) == Step(h.(mem := s.mem), if s.trap.ty != NoTrap then s.trap else NONE)
  {
    assert Execute(m, h, info, time) == Store(m, h, info);
  }

  // ----- LR and SC -----

  /** LR: rs2 must hold 0 and the address be aligned; the reservation is made even if the load then traps. */
  lemma LrEffect<G>(m: Memory<G>, h: Hart<G>, info: Insn, time: Word, addr: Word, l: Loaded<G>, val: Word)
    requires info.op == OpAmo && info.token in {LR_W, LR_D} && addr == h.xregs[info.rs1]
    requires l == m.load(h.mem, View(h.priv, h.csr[0x180], h.csr[0x300]), addr, info.memSize)
    requires if info.token == LR_W then Signed64(val) == SignedBytes(l.value, 4) else val == l.value
    ensures var h1 := h.(resv := Reservation(addr, info.memSize, true, h.hartId), mem := l.mem);
            Execute(m, h, info, time)
            == if h.xregs[info.rs2] != 0 then Step(h, Trap(IllegalInstruction, info.word))
               else if addr % info.memSize != 0 then Step(h, Trap(LoadAddressMisaligned, info.pc))
               else if l.trap.ty != NoTrap then Step(h1, l.trap)
               else Step(h1.(xregs := h.xregs[info.rd := val]), NONE)
  {
    assert Execute(m, h, info, time) == LoadReserved(m, h, info);
  }

  /** SC: stores and writes 0 exactly on the reserved address and width of this hart, and writes 1 otherwise. */
  lemma ScEffect<G>(m: Memory<G>, h: Hart<G>, info: Insn, time: Word, addr: Word, s: Stored<G>)
    requires info.op == OpAmo && info.token in {SC_W, SC_D} && addr == h.xregs[info.rs1]
    requires s == m.store(h.mem, View(h.priv, h.csr[0x180], h.csr[0x300]), addr, info.memSize, h.xregs[info.rs2])
    ensures var mine := h.resv.valid && h.resv.hart == h.hartId;
            var h1 := if mine then h.(resv := h.resv.(valid := false)) else h;
            Execute(m, h, info, time)
            == if addr % info.memSize != 0 then Step(h, Trap(StoreAddressMisaligned, info.pc))
               else if !(mine && h.resv.addr == addr && h.resv.size == info.memSize) then Step(h1.(xregs := h.xregs[info.rd := 1]), NONE)
               else if s.trap.ty != NoTrap then Step(h1.(mem := s.mem), s.trap)
               else Step(h1.(mem := s.mem, xregs := h.xregs[info.rd := 0]), NONE)
  {
    assert Execute(m, h, info, time) == StoreConditional(m, h, info);
  }

  // ----- read, modify, write -----

  /** The bytes an AMO stores, as a number `e`, from the operands' low `n` bytes `a` (rs2) and `b` (memory). */
  ghost predicate Combines(t: Token, n: nat, a: nat, b: nat, e: nat) {
    match t
    case AMOSWAP_W | AMOSWAP_D => e == a
    case AMOADD_W | AMOADD_D => e == Low(a + b, n)
    case AMOAND_W | AMOAND_D => forall k: nat :: k < 8 * n ==> (BitAt(e, k) <==> BitAt(a, k) && BitAt(b, k))
    case AMOOR_W | AMOOR_D => forall k: nat :: k < 8 * n ==> (BitAt(e, k) <==> BitAt(a, k) || BitAt(b, k))
    case AMOXOR_W | AMOXOR_D => forall k: nat :: k < 8 * n ==> (BitAt(e, k) <==> BitAt(a, k) != BitAt(b, k))
    case AMOMIN_W | AMOMIN_D => (e == a || e == b) && SignedBytes(e, n) <= SignedBytes(a, n) && SignedBytes(e, n) <= SignedBytes(b, n)
    case AMOMAX_W | AMOMAX_D => (e == a || e == b) && SignedBytes(e, n) >= SignedBytes(a, n) && SignedBytes(e, n) >= SignedBytes(b, n)
    case AMOMINU_W | AMOMINU_D => (e == a || e == b) && e <= a && e <= b
    case AMOMAXU_W | AMOMAXU_D => (e == a || e == b) && e >= a && e >= b
    case _ => false
  }

  /** Sign extension keeps the low half, and is read as that half. */
  lemma Extended(w: Word)
    ensures SignExtendFrom(w, TWO32) % TWO32 == w % TWO32
    ensures Signed64(SignExtendFrom(w, TWO32)) == SignedBytes(w % TWO32, 4) == SignedBytes(w, 4)
  {
  }

  lemma WideReading(w: Word)
    ensures Signed64(w) == SignedBytes(w, 8)
  {
  }

  lemma WrappedLow(v: int)
    ensures Wrap64(v) % TWO32 == v % TWO32
  {
    ModShift(v, -(v / TWO64) * TWO32, TWO32);
  }

  lemma SignedLow(w: nat)
    requires w < TWO32
    ensures SignedBytes(w, 4) % TWO32 == w
  {
  }

  lemma SumOfLows(a: nat, b: nat)
    ensures (a + b) % TWO32 == (a % TWO32 + b % TWO32) % TWO32
  {
  }

  lemma SumLow(r: Word, x: Word)
    ensures Wrap64(SignExtendFrom(r, TWO32) + SignExtendFrom(x, TWO32)) % TWO32 == (r % TWO32 + x % TWO32) % TWO32
  {
    var r32: int, x32: int := SignExtendFrom(r, TWO32), SignExtendFrom(x, TWO32);
    Extended(r);
    Extended(x);
    WrappedLow(r32 + x32);
    SumOfLows(r32, x32);
  }

  lemma ExtendedBit(w: Word, k: nat)
    requires k < 32
    ensures BitAt(SignExtendFrom(w, TWO32), k) == BitAt(w % TWO32, k)
  {
    Pow2Sixty4();
    Extended(w);
    BitOfMod(SignExtendFrom(w, TWO32), 32, k);
  }

  lemma LowOf(w: Word, k: nat)
    requires k < 32
    ensures BitAt(w % TWO32, k) == BitAt(w, k)
  {
    Pow2Sixty4();
    BitOfMod(w, 32, k);
  }

  lemma AndLow(r: Word, x: Word, k: nat)
    requires k < 32
    ensures BitAt(And64(SignExtendFrom(r, TWO32), SignExtendFrom(x, TWO32)) % TWO32, k) <==> BitAt(r % TWO32, k) && BitAt(x % TWO32, k)
  {
    ExtendedBit(r, k);
    ExtendedBit(x, k);
    AndBit(SignExtendFrom(r, TWO32), SignExtendFrom(x, TWO32), k);
    LowOf(And64(SignExtendFrom(r, TWO32), SignExtendFrom(x, TWO32)), k);
  }

  lemma OrLow(r: Word, x: Word, k: nat)
    requires k < 32
    ensures BitAt(Or64(SignExtendFrom(r, TWO32), SignExtendFrom(x, TWO32)) % TWO32, k) <==> BitAt(r % TWO32, k) || BitAt(x % TWO32, k)
  {
    ExtendedBit(r, k);
    ExtendedBit(x, k);
    OrBit(SignExtendFrom(r, TWO32), SignExtendFrom(x, TWO32), k);
    LowOf(Or64(SignExtendFrom(r, TWO32), SignExtendFrom(x, TWO32)), k);
  }

  lemma XorLow(r: Word, x: Word, k: nat)
    requires k < 32
    ensures BitAt(Xor64(SignExtendFrom(r, TWO32), SignExtendFrom(x, TWO32)) % TWO32, k) <==> BitAt(r % TWO32, k) != BitAt(x % TWO32, k)
  {
    ExtendedBit(r, k);
    ExtendedBit(x, k);
    XorBit(SignExtendFrom(r, TWO32), SignExtendFrom(x, TWO32), k);
    LowOf(Xor64(SignExtendFrom(r, TWO32), SignExtendFrom(x, TWO32)), k);
  }

  lemma NarrowBits(t: Token, r: Word, x: Word)
    requires t in {AMOAND_W, AMOOR_W, AMOXOR_W}
    ensures Combines(t, 4, r % TWO32, x % TWO32, AmoValue(t, r, x) % TWO32)
  {
    match t
    case AMOAND_W => forall k: nat | k < 32 { AndLow(r, x, k); }
    case AMOOR_W => forall k: nat | k < 32 { OrLow(r, x, k); }
    case AMOXOR_W => forall k: nat | k < 32 { XorLow(r, x, k); }
  }

  lemma WideBits(t: Token, r: Word, x: Word)
    requires t in {AMOAND_D, AMOOR_D, AMOXOR_D}
    ensures Combines(t, 8, r, x, AmoValue(t, r, x))
  {
    match t
    case AMOAND_D => forall k: nat | k < 64 { AndBit(r, x, k); }
    case AMOOR_D => forall k: nat | k < 64 { OrBit(r, x, k); }
    case AMOXOR_D => forall k: nat | k < 64 { XorBit(r, x, k); }
  }

  /** Writing back a signed half stores that half. */
  lemma StoredHalf(w: Word)
    ensures Wrap64(SignedBytes(w, 4)) % TWO32 == w % TWO32
  {
    WrappedLow(SignedBytes(w, 4));
    SignedLow(w % TWO32);
  }

  lemma NarrowOrder(t: Token, r: Word, x: Word)
    requires t in {AMOMIN_W, AMOMAX_W, AMOMINU_W, AMOMAXU_W}
    ensures Combines(t, 4, r % TWO32, x % TWO32, AmoValue(t, r, x) % TWO32)
  {
    Extended(r);
    Extended(x);
    StoredHalf(r);
    StoredHalf(x);
  }

  lemma WideSigned(t: Token, r: Word, x: Word)
    requires t in {AMOMIN_D, AMOMAX_D}
    ensures Combines(t, 8, r, x, AmoValue(t, r, x))
  {
    WideReading(r);
    WideReading(x);
    assert Wrap64(Signed64(r)) == r && Wrap64(Signed64(x)) == x;
  }

  lemma WideOrder(t: Token, r: Word, x: Word)
    requires t in {AMOMIN_D, AMOMAX_D, AMOMINU_D, AMOMAXU_D}
    ensures Combines(t, 8, r, x, AmoValue(t, r, x))
  {
    if t in {AMOMIN_D, AMOMAX_D} { WideSigned(t, r, x); }
  }

  lemma NarrowCombines(t: Token, r: Word, x: Word)
    requires IsAmoRmw(t) && MemBytes(t) == 4
    ensures Combines(t, 4, r % TWO32, x % TWO32, AmoValue(t, r, x) % TWO32)
  {
    match t
    case AMOSWAP_W => Extended(r);
    case AMOADD_W => SumLow(r, x);
    case AMOAND_W | AMOOR_W | AMOXOR_W => NarrowBits(t, r, x);
    case AMOMIN_W | AMOMAX_W | AMOMINU_W | AMOMAXU_W => NarrowOrder(t, r, x);
  }

  lemma WideCombines(t: Token, r: Word, x: Word)
    requires IsAmoRmw(t) && MemBytes(t) == 8
    ensures Combines(t, 8, r, x, AmoValue(t, r, x))
  {
    match t
    case AMOSWAP_D =>
    case AMOADD_D =>
    case AMOAND_D | AMOOR_D | AMOXOR_D => WideBits(t, r, x);
    case AMOMIN_D | AMOMAX_D | AMOMINU_D | AMOMAXU_D => WideOrder(t, r, x);
  }

  lemma WholeWord(w: Word)
    ensures Low(w, 8) == w
  {
  }

  /** All eighteen operations. */
  lemma AmoCombines(t: Token, n: nat, r: Word, x: Word)
    requires IsAmoRmw(t) && n == MemBytes(t)
    ensures Combines(t, n, Low(r, n), Low(x, n), Low(AmoValue(t, r, x), n))
  {
    if n == 4 {
      NarrowCombines(t, r, x);
    } else {
      WholeWord(r);
      WholeWord(x);
      WholeWord(AmoValue(t, r, x));
      WideCombines(t, r, x);
    }
  }

  /** The AMO makes one load and, if that does not trap, one store of a word `d` whose low bytes are the combination; rd gets the old content. */
  lemma AmoEffect<G>(m: Memory<G>, h: Hart<G>, info: Insn, time: Word, addr: Word, l: Loaded<G>, val: Word) returns (d: Word)
    requires info.op == OpAmo && IsAmoRmw(info.token) && info.memSize == MemBytes(info.token) && addr == h.xregs[info.rs1]
    requires l == m.load(h.mem, View(h.priv, h.csr[0x180], h.csr[0x300]), addr, info.memSize)
    requires if info.memSize == 4 then Signed64(val) == SignedBytes(l.value, 4) else val == l.value
    ensures var n := info.memSize;
            Combines(info.token, n, Low(h.xregs[info.rs2], n), Low(l.value, n), Low(d, n))
    ensures var s := m.store(l.mem, View(h.priv, h.csr[0x180], h.csr[0x300]), addr, info.memSize, d);
            Execute(m, h, info, time)
            == if addr % info.memSize != 0 then Step(h, Trap(LoadAddressMisaligned, info.pc))
               else if l.trap.ty != NoTrap then Step(h.(mem := l.mem), l.trap)
               else if s.trap.ty != NoTrap then Step(h.(mem := s.mem), s.trap)
               else Step(h.(mem := s.mem, xregs := h.xregs[info.rd := val]), NONE)
  {
    d := AmoValue(info.token, h.xregs[info.rs2], l.value);
    AmoCombines(info.token, info.memSize, h.xregs[info.rs2], l.value);
    Extended(l.value);
    assert Execute(m, h, info, time) == Amo(m, h, info);
  }
}
