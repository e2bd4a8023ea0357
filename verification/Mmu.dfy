/**
 The memory management unit (class Mmu of src/cpu/mmu.cc): permission checks around the
 translation cache, against a reference that walks the page tables on every access.
 */
module Mmu {
  import opened Words
  import opened BitWords
  import opened Csr
  import opened Traps
  import opened Hart
  import opened Exec
  import opened Ram
  import opened Sv39
  import opened Tlb
  import opened Runs

  function Asid(satp: Bits): nat { Value(satp[44..60]) }

  function RootPpn(satp: Bits): nat { Value(satp[..44]) }

  /** What the page tables in `ram` say. */
  function WalkerOf(ram: Ram): Walker {
    (root: nat, v: Word) => match Walk(ram, root, v) case None => None case Some(p) => Some(LeafOf(p.pte, p.size))
  }

  /** PageTableWalk refuses every mode but Sv39. */
  function WalkerFor(ram: Ram, satp: Bits): Walker { if SatpMode(satp) == 8 then WalkerOf(ram) else (root: nat, v: Word) => None }

  lemma WalkerLocal(ram: Ram)
    ensures Local(WalkerOf(ram))
  {
    var walk := WalkerOf(ram);
    forall root: nat, v: Word, v': Word | walk(root, v).Some? && Tag(v', walk(root, v).value.size) == Tag(v, walk(root, v).value.size)
      ensures walk(root, v') == walk(root, v)
    {
      WalkLocal(ram, 0x1000 * root, v, v', 2, Walk(ram, root, v));
    }
  }

  // ----- accesses -----

  datatype Access = Fetching | Loading | Storing(data: Word)

  /** MPP reads M. */
  predicate MppMachine(ms: Bits) { ms[MPP_BIT] && ms[MPP_BIT + 1] }

  /** The access goes through the page tables. */
  predicate Translated(k: Access, v: View) {
    && SatpMode(v.satp) != 0
    && (if k == Fetching then v.priv != Machine
        else !(v.priv == Machine && (!v.mstatus[MPRV_BIT] || MppMachine(v.mstatus))))
  }

  predicate Permits(k: Access, v: View, l: Leaf) {
    match k
    case Fetching => l.a && l.x && !(v.priv == User && !l.u) && !(v.priv == Supervisor && l.u)
    case Loading => l.a && (l.r || (v.mstatus[MXR_BIT] && l.x))
    case Storing(data) => l.a && l.w && l.d
  }

  function PageFault(k: Access): TrapType {
    match k case Fetching => InstructionPageFault case Loading => LoadPageFault case Storing(data) => StorePageFault
  }

  function AccessFault(k: Access): TrapType {
    match k case Fetching => InstructionAccessFault case Loading => LoadAccessFault case Storing(data) => StoreAccessFault
  }

  datatype Reply = Reply(trap: Trap, value: Word, ram: Ram)

  function Physical(k: Access, ram: Ram, pa: Word, addr: Word, n: nat): Reply {
    if k.Storing? then
      match StoreTo(ram, pa, n, k.data)
      case None => Reply(Trap(StoreAccessFault, addr), 0, ram)
      case Some(ram') => Reply(NONE, 0, ram')
    else
      match LoadFrom(ram, pa, n)
      case None => Reply(Trap(AccessFault(k), addr), 0, ram)
      case Some(x) => Reply(NONE, x, ram)
  }

  /** The access, given what translation says about `addr`. */
  function Serve(k: Access, ram: Ram, v: View, addr: Word, n: nat, l: Option<Leaf>): Reply {
    if !Translated(k, v) then Physical(k, ram, addr, addr, n)
    else if l.None? || !Permits(k, v, l.value) then Reply(Trap(PageFault(k), addr), 0, ram)
    else Physical(k, ram, Wrap64(MapThrough(l.value, addr)), addr, n)
  }

  // ----- the machine with the cache and the one without -----

  datatype Unit = Unit(ram: Ram, cache: Cache)

  type MmuState = u: Unit | Sound(u.cache) witness Unit(Ram(0, 0, []), Cache([EMPTY, EMPTY], 0))

  /** What GetTlbEntry answers for the access. */
  function CacheAnswer(m: MmuState, satp: Bits, addr: Word): Option<Leaf> {
    Answer(WalkerFor(m.ram, satp), m.cache, Asid(satp), RootPpn(satp), addr)
  }

  function CacheAfter(m: MmuState, satp: Bits, addr: Word): (c: Cache)
    ensures Sound(c)
  {
    After(WalkerFor(m.ram, satp), m.cache, Asid(satp), RootPpn(satp), addr)
  }

  function CachedReply(k: Access, m: MmuState, v: View, addr: Word, n: nat): Reply {
    Serve(k, m.ram, v, addr, n, CacheAnswer(m, v.satp, addr))
  }

  function CachedAfter(k: Access, m: MmuState, v: View, addr: Word, n: nat): MmuState {
    Unit(CachedReply(k, m, v, addr, n).ram, if Translated(k, v) then CacheAfter(m, v.satp, addr) else m.cache)
  }

  /** The reference: walk on every access. */
  function WalkAnswer(ram: Ram, satp: Bits, addr: Word): Option<Leaf> {
    Walked(WalkerFor(ram, satp), RootPpn(satp), addr)
  }

  function WalkedReply(k: Access, ram: Ram, v: View, addr: Word, n: nat): Reply {
    Serve(k, ram, v, addr, n, WalkAnswer(ram, v.satp, addr))
  }

  // ----- runs -----

  datatype Event = DoAccess(k: Access, view: View, addr: Word, n: nat) | DoFlush(v: Word, asid: nat) | DoReset

  function Zeroed(ram: Ram): Ram { ram.(bytes := seq(|ram.bytes|, i => 0)) }

  function CachedStep(m: MmuState, e: Event): MmuState {
    match e
    case DoAccess(k, view, addr, n) => CachedAfter(k, m, view, addr, n)
    case DoFlush(v, asid) => Unit(m.ram, m.cache.(entries := Flushed(m.cache.entries, v, asid)))
    case DoReset => Unit(Zeroed(m.ram), Cache([EMPTY, EMPTY], 0))
  }

  function WalkedStep(ram: Ram, e: Event): Ram {
    match e
    case DoAccess(k, view, addr, n) => WalkedReply(k, ram, view, addr, n).ram
    case DoFlush(v, asid) => ram
    case DoReset => Zeroed(ram)
  }

  /** What the processor sees of an event. */
  datatype Seen = Seen(trap: Trap, value: Word)

  function SeenOf(r: Reply): Seen { Seen(r.trap, r.value) }

  function CachedSees(m: MmuState, e: Event): Seen {
    if e.DoAccess? then SeenOf(CachedReply(e.k, m, e.view, e.addr, e.n)) else Seen(NONE, 0)
  }

  function WalkedSees(ram: Ram, e: Event): Seen {
    if e.DoAccess? then SeenOf(WalkedReply(e.k, ram, e.view, e.addr, e.n)) else Seen(NONE, 0)
  }

  // ----- what software owes -----

  /**
   The discipline, as section 4.2.1 of the RISC-V Privileged Architecture puts it on software.  `used` are the
   translations made and not flushed since.  A translated access keeps it if each of those that could answer for it
   still says what the tables under satp say.
   */
  ghost predicate Kept(ram: Ram, used: set<Used>, e: Event) {
    e.DoAccess? && Translated(e.k, e.view) && Canonical(e.addr) ==>
      Honoured(WalkerFor(ram, e.view.satp), used, Asid(e.view.satp), RootPpn(e.view.satp), e.addr)
  }

  /** An access that reaches a leaf adds its translation; a flush removes exactly what it flushes. */
  function NextUsed(ram: Ram, used: set<Used>, e: Event): set<Used> {
    match e
    case DoFlush(v, asid) => Unflushed(used, v, asid)
    case DoReset => {}
    case DoAccess(k, view, addr, n) =>
      if Translated(k, view) then UsedAfter(WalkerFor(ram, view.satp), used, Asid(view.satp), RootPpn(view.satp), addr) else used
  }

  ghost predicate Disciplined(ram: Ram, used: set<Used>, es: seq<Event>)
    decreases |es|
  {
    es != [] ==> Kept(ram, used, es[0]) && Disciplined(WalkedStep(ram, es[0]), NextUsed(ram, used, es[0]), es[1..])
  }

  /** Whatever was written to the page tables: after a flush of its page, an access keeps the discipline. */
  lemma FlushRestores(ram: Ram, used: set<Used>, k: Access, view: View, addr: Word, n: nat)
    ensures Kept(ram, NextUsed(ram, used, DoFlush(addr, 0)), DoAccess(k, view, addr, n))
  {
    FlushHonours(WalkerFor(ram, view.satp), used, Asid(view.satp), RootPpn(view.satp), addr);
  }

  // ----- transparency -----

  ghost predicate Inv(m: MmuState, ram: Ram, used: set<Used>) { m.ram == ram && Accounted(m.cache.entries, used) }

  lemma AccessExact(m: MmuState, ram: Ram, used: set<Used>, k: Access, v: View, addr: Word, n: nat)
    requires Inv(m, ram, used) && Kept(ram, used, DoAccess(k, v, addr, n))
    ensures CachedReply(k, m, v, addr, n) == WalkedReply(k, ram, v, addr, n)
  {
    if Translated(k, v) {
      AnswerExact(WalkerFor(ram, v.satp), m.cache, used, Asid(v.satp), RootPpn(v.satp), addr);
    }
  }

  lemma AccessKeepsInv(m: MmuState, ram: Ram, used: set<Used>, k: Access, v: View, addr: Word, n: nat)
    requires Inv(m, ram, used) && Kept(ram, used, DoAccess(k, v, addr, n))
    ensures Inv(CachedAfter(k, m, v, addr, n), WalkedReply(k, ram, v, addr, n).ram, NextUsed(ram, used, DoAccess(k, v, addr, n)))
  {
    AccessExact(m, ram, used, k, v, addr, n);
    if Translated(k, v) {
      TranslateAccounted(WalkerFor(ram, v.satp), m.cache, used, Asid(v.satp), RootPpn(v.satp), addr);
    }
  }

  lemma StepExact(m: MmuState, ram: Ram, used: set<Used>, e: Event)
    requires Inv(m, ram, used) && Kept(ram, used, e)
    ensures CachedSees(m, e) == WalkedSees(ram, e) && Inv(CachedStep(m, e), WalkedStep(ram, e), NextUsed(ram, used, e))
  {
    match e
    case DoAccess(k, view, addr, n) =>
      AccessExact(m, ram, used, k, view, addr, n);
      AccessKeepsInv(m, ram, used, k, view, addr, n);
    case DoFlush(v, asid) => FlushAccounted(m.cache.entries, used, v, asid);
    case DoReset =>
  }

  /**
   TLB transparency.  Whatever the processor does to the MMU while keeping the discipline, the unit with the
   cache returns the same traps and values, and leaves the same DRAM, as one that walks on every access.
   */
  lemma {:induction false} Transparent(m: MmuState, ram: Ram, used: set<Used>, es: seq<Event>)
    requires Inv(m, ram, used) && Disciplined(ram, used, es)
    ensures Trace<MmuState, Event, Seen>(CachedStep, CachedSees, m, es) == Trace(WalkedStep, WalkedSees, ram, es)
    ensures Fold<MmuState, Event>(CachedStep, m, es).ram == Fold(WalkedStep, ram, es)
    decreases |es|
  {
    if es != [] {
      StepExact(m, ram, used, es[0]);
      Transparent(CachedStep(m, es[0]), WalkedStep(ram, es[0]), NextUsed(ram, used, es[0]), es[1..]);
    }
  }

  /** No entry of the cache is in use: at the start, and after FlushTlb(0, 0). */
  predicate Blank(m: MmuState) { forall i :: 0 <= i < TLB_SIZE ==> !Valid(m.cache.entries[i]) }

  /** In particular from a unit with nothing in its cache. */
  lemma TransparentFromBlank(m: MmuState, es: seq<Event>)
    requires Blank(m) && Disciplined(m.ram, {}, es)
    ensures Trace<MmuState, Event, Seen>(CachedStep, CachedSees, m, es) == Trace(WalkedStep, WalkedSees, m.ram, es)
    ensures Fold<MmuState, Event>(CachedStep, m, es).ram == Fold(WalkedStep, m.ram, es)
  {
    Transparent(m, m.ram, {}, es);
  }

  // ----- a coarser discipline -----

  /** No walk from a root in use changes between the two memories. */
  ghost predicate SameWalks(ram: Ram, ram': Ram, roots: map<nat, nat>) {
    forall a, v :: a in roots ==> WalkerOf(ram')(roots[a], v) == WalkerOf(ram)(roots[a], v)
  }

  /**
   Flushing everything after every change.  `roots` are the address spaces used since the last FlushTlb(0, 0) and
   `stale` says that a page table changed since then: translating needs fresh tables, an unchanged root for the
   address space, agreement on global pages, and a satp mode the CSR file lets in.
   */
  datatype Spaces = Spaces(roots: map<nat, nat>, stale: bool)

  ghost predicate Allowed(ram: Ram, d: Spaces, e: Event) {
    e.DoAccess? && Translated(e.k, e.view) ==>
      LegalMode(e.view.satp) && !d.stale && Admissible(WalkerOf(ram), d.roots, Asid(e.view.satp), RootPpn(e.view.satp))
  }

  ghost function Next(ram: Ram, d: Spaces, e: Event): Spaces {
    match e
    case DoFlush(v, asid) => if v == 0 && asid == 0 then Spaces(map[], false) else d
    case DoReset => Spaces(map[], false)
    case DoAccess(k, view, addr, n) =>
      var roots := if Translated(k, view) then d.roots[Asid(view.satp) := RootPpn(view.satp)] else d.roots;
      Spaces(roots, d.stale || !SameWalks(ram, WalkedStep(ram, e), roots))
  }

  /** The account of address spaces vouches for every translation made. */
  ghost predicate Vouches(ram: Ram, d: Spaces, used: set<Used>) { !d.stale ==> Backed(WalkerOf(ram), used, d.roots) }

  lemma AccessVouched(ram: Ram, d: Spaces, used: set<Used>, k: Access, v: View, addr: Word, n: nat, e: Event)
    requires e == DoAccess(k, v, addr, n) && Vouches(ram, d, used) && Allowed(ram, d, e) && Translated(k, v)
    ensures Kept(ram, used, e) && Vouches(WalkedStep(ram, e), Next(ram, d, e), NextUsed(ram, used, e))
  {
    var walk, asid, root := WalkerOf(ram), Asid(v.satp), RootPpn(v.satp);
    assert WalkerFor(ram, v.satp) == walk;
    BackedHonours(walk, used, d.roots, asid, root, addr);
    WalkerLocal(ram);
    UsedBacked(walk, used, d.roots, asid, root, addr);
    if !Next(ram, d, e).stale {
      BackedElsewhere(walk, WalkerOf(WalkedStep(ram, e)), NextUsed(ram, used, e), Next(ram, d, e).roots);
    }
  }

  /** What the coarse discipline allows keeps the discipline. */
  lemma AllowedKept(ram: Ram, d: Spaces, used: set<Used>, e: Event)
    requires Vouches(ram, d, used) && Allowed(ram, d, e)
    ensures Kept(ram, used, e) && Vouches(WalkedStep(ram, e), Next(ram, d, e), NextUsed(ram, used, e))
  {
    match e
    case DoFlush(v, asid) =>
    case DoReset =>
    case DoAccess(k, view, addr, n) =>
      if Translated(k, view) {
        AccessVouched(ram, d, used, k, view, addr, n, e);
      } else if !Next(ram, d, e).stale {
        BackedElsewhere(WalkerOf(ram), WalkerOf(WalkedStep(ram, e)), used, d.roots);
      }
  }

  ghost predicate AlwaysAllowed(ram: Ram, d: Spaces, es: seq<Event>)
    decreases |es|
  {
    es != [] ==> Allowed(ram, d, es[0]) && AlwaysAllowed(WalkedStep(ram, es[0]), Next(ram, d, es[0]), es[1..])
  }

  lemma {:induction false} AllowedDisciplined(ram: Ram, d: Spaces, used: set<Used>, es: seq<Event>)
    requires Vouches(ram, d, used) && AlwaysAllowed(ram, d, es)
    ensures Disciplined(ram, used, es)
    decreases |es|
  {
    if es != [] {
      AllowedKept(ram, d, used, es[0]);
      AllowedDisciplined(WalkedStep(ram, es[0]), Next(ram, d, es[0]), NextUsed(ram, used, es[0]), es[1..]);
    }
  }
}
