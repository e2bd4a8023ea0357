/**
 Fetches, loads and stores through the MMU of src/cpu/mmu.cc by their effect: from the fields of satp and mstatus, the
 words of the page tables and the bytes of DRAM to trap, value and DRAM afterwards.
 */
module AccessEffects {
  import opened Words
  import opened BitWords
  import opened BitLaws
  import opened Csr
  import opened Traps
  import opened Hart
  import opened Exec
  import opened Ram
  import opened Sv39
  import opened Tlb
  import opened Mmu
  import opened MmuUnit
  import opened WalkEffects

  // ----- the fields of satp -----

  lemma PowerValues()
    ensures Pow2(16) == 0x1_0000 && Pow2(44) == 0x1000_0000_0000 && Pow2(60) == 0x1000_0000_0000_0000
  {
    Pow2Sixty4();
    assert Pow2(8) == 256;
    assert Pow2(12) == 0x10 * Pow2(8);
    assert Pow2(16) == 0x10 * Pow2(12);
    assert Pow2(36) == 0x10 * Pow2(32);
    assert Pow2(40) == 0x10 * Pow2(36);
    assert Pow2(44) == 0x10 * Pow2(40);
    assert Pow2(48) == 0x10 * Pow2(44);
    assert Pow2(52) == 0x10 * Pow2(48);
    assert Pow2(56) == 0x10 * Pow2(52);
    assert Pow2(60) == 0x10 * Pow2(56);
  }

  lemma FourBits(b: seq<bool>)
    requires |b| == 4
    ensures Value(b) == Digit(b[0]) + 2 * Digit(b[1]) + 4 * Digit(b[2]) + 8 * Digit(b[3])
  {
    assert b[1..][1..] == b[2..] && b[2..][1..] == b[3..] && b[3..][1..] == [];
    assert Value(b[3..]) == Digit(b[3]);
    assert Value(b[2..]) == Digit(b[2]) + 2 * Value(b[3..]);
    assert Value(b[1..]) == Digit(b[1]) + 2 * Value(b[2..]);
  }

  /** The two parts of a number at digit `k`, as quotient and remainder. */
  lemma SplitAt(b: seq<bool>, k: nat)
    requires k <= |b|
    ensures Value(b) / Pow2(k) == Value(b[k..]) && Value(b) % Pow2(k) == Value(b[..k])
  {
    ValueSplit(b, k);
    DigitsOfValue(b[..k]);
    assert Pow2(k) * Value(b[k..]) == Value(b[k..]) * Pow2(k);
    DivUnique(Value(b), Pow2(k), Value(b[k..]), Value(b[..k]));
  }

  /** Bits 60 to 63, 44 to 59 and 0 to 43. */
  lemma SatpFields(b: Bits, satp: Word)
    requires satp == FromBits(b)
    ensures SatpMode(b) == satp / 0x1000_0000_0000_0000
    ensures Asid(b) == satp / 0x1000_0000_0000 % 0x1_0000
    ensures RootPpn(b) == satp % 0x1000_0000_0000
  {
    PowerValues();
    ModeField(b);
    SplitAt(b, 44);
    SplitAt(b[44..], 16);
    assert b[44..][..16] == b[44..60];
  }

  lemma ModeField(b: Bits)
    ensures SatpMode(b) == Value(b) / Pow2(60)
  {
    SplitAt(b, 60);
    FourBits(b[60..]);
  }

  // ----- what the tables say -----

  /** The page the tables under satp give for `addr`, for addresses whose bits 38 to 63 are equal. */
  function PageOf(ram: Ram, satp: Word, addr: Word): Option<Found> {
    if satp / 0x1000_0000_0000_0000 == 8 && (addr < 0x40_0000_0000 || addr >= TWO64 - 0x40_0000_0000) then
      Lookup(ram, satp % 0x1000_0000_0000, addr)
    else None
  }

  /** Bit `k` of the page's entry: 1 R, 2 W, 3 X, 4 U, 5 G, 6 A, 7 D. */
  predicate Has(f: Found, k: nat) { BitAt(f.w, k) }

  /** 27 frame bits of the entry, and the offset in the page. */
  function PhysicalOf(f: Found, addr: Word): Word {
    (0x1000 * (f.w / 0x400 % 0x800_0000)
     + (if f.size == 1 then addr % 0x1000 else if f.size == 2 then addr % 0x20_0000 else addr % 0x4000_0000)) % TWO64
  }

  /** The leaf the model computes with. */
  function LeafFor(f: Option<Found>): Option<Leaf> {
    match f case None => None case Some(x) => Some(LeafOf(DecodePte(x.w), x.size))
  }

  lemma AnswerIs(ram: Ram, b: Bits, satp: Word, addr: Word)
    requires satp == FromBits(b)
    ensures WalkAnswer(ram, b, addr) == LeafFor(PageOf(ram, satp, addr))
  {
    SatpFields(b, satp);
    WalkIs(ram, RootPpn(b), addr);
  }

  lemma FlagBits(w: Word)
    ensures BitAt(w, 1) == (w / 2 % 2 == 1) && BitAt(w, 2) == (w / 4 % 2 == 1) && BitAt(w, 3) == (w / 8 % 2 == 1)
    ensures BitAt(w, 4) == (w / 16 % 2 == 1) && BitAt(w, 5) == (w / 32 % 2 == 1) && BitAt(w, 6) == (w / 64 % 2 == 1)
    ensures BitAt(w, 7) == (w / 128 % 2 == 1)
  {
    DivDiv(w, 2, 2);
    DivDiv(w, 4, 2);
    DivDiv(w, 8, 2);
    DivDiv(w, 16, 2);
    DivDiv(w, 32, 2);
    DivDiv(w, 64, 2);
    assert BitAt(w, 7) == BitAt(w / 2, 6) == BitAt(w / 4, 5) == BitAt(w / 8, 4) == BitAt(w / 16, 3);
    assert BitAt(w / 16, 3) == BitAt(w / 32, 2) == BitAt(w / 64, 1) == BitAt(w / 128, 0);
  }

  /** The leaf of a page found carries its bits and leads to its physical address. */
  lemma LeafMeans(f: Found, l: Leaf, addr: Word)
    requires l == LeafOf(DecodePte(f.w), f.size)
    ensures l.r == Has(f, 1) && l.w == Has(f, 2) && l.x == Has(f, 3) && l.u == Has(f, 4) && l.g == Has(f, 5) && l.a == Has(f, 6) && l.d == Has(f, 7)
    ensures Wrap64(MapThrough(l, addr)) == PhysicalOf(f, addr)
  {
    PageMeans(f);
    FlagBits(f.w);
  }

  // ----- replies -----

  /** An answer of DRAM, or the fault if it has none. */
  predicate Answered(trap: Trap, value: Word, data: Option<Word>, fault: TrapType, addr: Word) {
    match data
    case None => trap == Trap(fault, addr) && value == 0
    case Some(x) => trap == NONE && value == x
  }

  /** Data accesses go through the tables outside M, and in M with MPRV set and MPP another mode. */
  predicate Paged(v: View, satp: Word) {
    && satp / 0x1000_0000_0000_0000 != 0
    && (v.priv == Machine ==> v.mstatus[17] && !(v.mstatus[11] && v.mstatus[12]))
  }

  lemma PagedMeans(v: View, satp: Word, k: Access)
    requires satp == FromBits(v.satp) && k != Fetching
    ensures Paged(v, satp) == Translated(k, v)
  {
    SatpFields(v.satp, satp);
  }

  lemma LoadServed(ram: Ram, v: View, addr: Word, n: nat, satp: Word, page: Option<Found>, r: Reply)
    requires satp == FromBits(v.satp) && page == PageOf(ram, satp, addr) && r == WalkedReply(Loading, ram, v, addr, n)
    ensures LoadGives(ram, v, addr, n, satp, page, r.trap, r.value, r.ram)
  {
    PagedMeans(v, satp, Loading);
    AnswerIs(ram, v.satp, satp, addr);
    if page.Some? { LeafMeans(page.value, LeafOf(DecodePte(page.value.w), page.value.size), addr); }
  }

  /** Trap, value and DRAM after a load: A, and R or (MXR and X). */
  ghost predicate LoadGives(ram: Ram, v: View, addr: Word, n: nat, satp: Word, page: Option<Found>, trap: Trap, value: Word, after: Ram) {
    && after == ram
    && if !Paged(v, satp) then Answered(trap, value, LoadFrom(ram, addr, n), LoadAccessFault, addr)
       else if page.Some? && Has(page.value, 6) && (Has(page.value, 1) || (v.mstatus[19] && Has(page.value, 3))) then
         Answered(trap, value, LoadFrom(ram, PhysicalOf(page.value, addr), n), LoadAccessFault, addr)
       else trap == Trap(LoadPageFault, addr) && value == 0
  }

  /** Trap, value and DRAM after a fetch, which goes through the tables outside M: A and X, and U exactly in U. */
  ghost predicate FetchGives(ram: Ram, v: View, addr: Word, n: nat, satp: Word, page: Option<Found>, trap: Trap, value: Word, after: Ram) {
    && after == ram
    && if v.priv == Machine || satp / 0x1000_0000_0000_0000 == 0 then Answered(trap, value, LoadFrom(ram, addr, n), InstructionAccessFault, addr)
       else if && page.Some? && Has(page.value, 6) && Has(page.value, 3)
               && (v.priv == User ==> Has(page.value, 4)) && (v.priv == Supervisor ==> !Has(page.value, 4)) then
         Answered(trap, value, LoadFrom(ram, PhysicalOf(page.value, addr), n), InstructionAccessFault, addr)
       else trap == Trap(InstructionPageFault, addr) && value == 0
  }

  /** Trap and DRAM after a store: A, W and D. */
  ghost predicate StoreGives(ram: Ram, v: View, addr: Word, n: nat, data: Word, satp: Word, page: Option<Found>, trap: Trap, after: Ram) {
    if Paged(v, satp) && !(page.Some? && Has(page.value, 6) && Has(page.value, 2) && Has(page.value, 7)) then
      trap == Trap(StorePageFault, addr) && after == ram
    else
      var pa := if Paged(v, satp) then PhysicalOf(page.value, addr) else addr;
      match StoreTo(ram, pa, n, data)
      case None => trap == Trap(StoreAccessFault, addr) && after == ram
      case Some(ram') => trap == NONE && after == ram'
  }

  lemma FetchServed(ram: Ram, v: View, addr: Word, n: nat, satp: Word, page: Option<Found>, r: Reply)
    requires satp == FromBits(v.satp) && page == PageOf(ram, satp, addr) && r == WalkedReply(Fetching, ram, v, addr, n)
    ensures FetchGives(ram, v, addr, n, satp, page, r.trap, r.value, r.ram)
  {
    SatpFields(v.satp, satp);
    AnswerIs(ram, v.satp, satp, addr);
    if page.Some? { LeafMeans(page.value, LeafOf(DecodePte(page.value.w), page.value.size), addr); }
  }

  lemma StoreServed(ram: Ram, v: View, addr: Word, n: nat, data: Word, satp: Word, page: Option<Found>, r: Reply)
    requires satp == FromBits(v.satp) && page == PageOf(ram, satp, addr) && r == WalkedReply(Storing(data), ram, v, addr, n)
    ensures StoreGives(ram, v, addr, n, data, satp, page, r.trap, r.ram)
  {
    PagedMeans(v, satp, Storing(data));
    AnswerIs(ram, v.satp, satp, addr);
    if page.Some? { LeafMeans(page.value, LeafOf(DecodePte(page.value.w), page.value.size), addr); }
  }

  // ----- the unit -----

  lemma BlankAnswers(m: MmuState, k: Access, v: View, addr: Word, n: nat)
    requires Blank(m)
    ensures CachedReply(k, m, v, addr, n) == WalkedReply(k, m.ram, v, addr, n)
  {
    AccessExact(m, m.ram, {}, k, v, addr, n);
  }

  /** A load by a unit with nothing in its cache, and so, by MachineTransparent, by every unit that is used with discipline. */
  lemma LoadEffect(m: MmuState, v: View, addr: Word, n: nat, satp: Word, page: Option<Found>, l: Loaded<MmuState>)
    requires Blank(m) && satp == FromBits(v.satp) && page == PageOf(m.ram, satp, addr) && l == LoadVia(m, v, addr, n)
    ensures LoadGives(m.ram, v, addr, n, satp, page, l.trap, l.value, l.mem.ram)
  {
    BlankAnswers(m, Loading, v, addr, n);
    LoadServed(m.ram, v, addr, n, satp, page, WalkedReply(Loading, m.ram, v, addr, n));
  }

  lemma FetchEffect(m: MmuState, v: View, addr: Word, n: nat, satp: Word, page: Option<Found>, l: Loaded<MmuState>)
    requires Blank(m) && satp == FromBits(v.satp) && page == PageOf(m.ram, satp, addr) && l == FetchFrom(m, v, addr, n)
    ensures FetchGives(m.ram, v, addr, n, satp, page, l.trap, l.value, l.mem.ram)
  {
    BlankAnswers(m, Fetching, v, addr, n);
    FetchServed(m.ram, v, addr, n, satp, page, WalkedReply(Fetching, m.ram, v, addr, n));
  }

  lemma StoreEffect(m: MmuState, v: View, addr: Word, n: nat, data: Word, satp: Word, page: Option<Found>, s: Stored<MmuState>)
    requires Blank(m) && satp == FromBits(v.satp) && page == PageOf(m.ram, satp, addr) && s == StoreVia(m, v, addr, n, data)
    ensures StoreGives(m.ram, v, addr, n, data, satp, page, s.trap, s.mem.ram)
  {
    BlankAnswers(m, Storing(data), v, addr, n);
    StoreServed(m.ram, v, addr, n, data, satp, page, WalkedReply(Storing(data), m.ram, v, addr, n));
  }

  // ----- what the cache may not mix up -----

  /** The access is made under the address space that bits 44 to 59 of satp name, and adds at most its own page to the account. */
  lemma AccessUses(ram: Ram, used: set<Used>, k: Access, v: View, addr: Word, n: nat, satp: Word, u: Used)
    requires satp == FromBits(v.satp) && u in NextUsed(ram, used, DoAccess(k, v, addr, n)) && u !in used
    ensures u.asid == satp / 0x1000_0000_0000 % 0x1_0000 && u.v == addr
    ensures PageOf(ram, satp, addr).Some? && u.l.g == Has(PageOf(ram, satp, addr).value, 5)
  {
    SatpFields(v.satp, satp);
    AnswerIs(ram, v.satp, satp, addr);
    var page := PageOf(ram, satp, addr);
    if page.Some? { LeafMeans(page.value, LeafOf(DecodePte(page.value.w), page.value.size), addr); }
  }

  /** Private pages of other address spaces never stand in the way: whatever they hold, the access is answered by its own tables. */
  lemma SpacesSeparate(m: MmuState, used: set<Used>, k: Access, v: View, addr: Word, n: nat, satp: Word)
    requires Inv(m, m.ram, used) && satp == FromBits(v.satp)
    requires forall u :: u in used ==> !u.l.g && u.asid != satp / 0x1000_0000_0000 % 0x1_0000
    ensures CachedReply(k, m, v, addr, n) == WalkedReply(k, m.ram, v, addr, n)
  {
    SatpFields(v.satp, satp);
    AccessExact(m, m.ram, used, k, v, addr, n);
  }

  /** Neither do pages, of whatever size and address space, that do not contain the address. */
  lemma PagesSeparate(m: MmuState, used: set<Used>, k: Access, v: View, addr: Word, n: nat)
    requires Inv(m, m.ram, used)
    requires forall u :: u in used ==> addr / PageBytes(u.l.size) != u.v / PageBytes(u.l.size)
    ensures CachedReply(k, m, v, addr, n) == WalkedReply(k, m.ram, v, addr, n)
  {
    forall u | u in used ensures !Matches(CachedAs(u), Asid(v.satp), addr) {
      TagIsPage(addr, u.l.size);
      TagIsPage(u.v, u.l.size);
    }
    AccessExact(m, m.ram, used, k, v, addr, n);
  }

  /** A reset leaves no valid entry, the first one to be filled next, and DRAM of the same shape full of zeros. */
  lemma ResetEffect(m: MmuState, r: MmuState)
    requires r == CachedStep(m, Event.DoReset)
    ensures Blank(r) && r.cache.index == 0 && r.ram == m.ram.(bytes := r.ram.bytes) && |r.ram.bytes| == |m.ram.bytes|
    ensures forall i :: 0 <= i < |r.ram.bytes| ==> r.ram.bytes[i] == 0
  {
  }
}
