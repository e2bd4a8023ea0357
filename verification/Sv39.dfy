/**
 Sv39 address translation (src/cpu/mmu.cc, include/cpu/mmu.h; section 4.4.1 of the RISC-V
 Privileged Architecture): page table entries, the three-level walk, and the mapping of an
 address through a leaf.
 */
module Sv39 {
  import opened Words
  import opened Ram

  // ----- addresses -----

  /** Page sizes 1, 2, 3: 4 KiB, 2 MiB, 1 GiB. */
  type PageSize = s: nat | 1 <= s <= 3 witness 1

  function PageBytes(s: PageSize): nat { if s == 1 then 0x1000 else if s == 2 then 0x20_0000 else 0x4000_0000 }

  /** GetTlbTag: the shift by 3 and then by 9 * page_size. */
  function Tag(v: Word, s: PageSize): Word { v / 8 / (if s == 1 then 0x200 else if s == 2 then 0x4_0000 else 0x800_0000) }

  /** The index bits for walk level `i`. */
  function Vpn(v: Word, i: nat): nat
    requires i < 3
  {
    (if i == 0 then v / 0x1000 else if i == 1 then v / 0x20_0000 else v / 0x4000_0000) % 512
  }

  /** Bits 39 to 63 repeat bit 38. */
  predicate Canonical(v: Word) { v <= 0x3f_ffff_ffff || v >= 0xffff_ffc0_0000_0000 }

  lemma Regroup(q: int, b: int, r2: int, a: int, r1: int)
    ensures (q * b + r2) * a + r1 == q * (a * b) + (r2 * a + r1)
  {
    assert (q * b + r2) * a == q * b * a + r2 * a;
    assert q * b * a == q * (a * b);
  }

  lemma RemainderBound(a: int, b: int, r2: int, r1: int)
    requires a > 0 && b > 0 && 0 <= r2 < b && 0 <= r1 < a
    ensures 0 <= r2 * a + r1 < a * b
  {
    assert r2 * a <= (b - 1) * a;
    assert (b - 1) * a == a * b - a;
  }

  lemma DivDiv(v: int, a: int, b: int)
    requires v >= 0 && a > 0 && b > 0
    ensures a * b > 0 && v / a / b == v / (a * b)
  {
    var q1, r1 := v / a, v % a;
    var q2, r2 := q1 / b, q1 % b;
    Regroup(q2, b, r2, a, r1);
    RemainderBound(a, b, r2, r1);
    DivUnique(v, a * b, q2, r2 * a + r1);
  }

  /** The tag is the address with the page offset dropped. */
  lemma TagIsPage(v: Word, s: PageSize)
    ensures Tag(v, s) == v / PageBytes(s)
  {
    DivDiv(v, 8, if s == 1 then 0x200 else if s == 2 then 0x4_0000 else 0x800_0000);
  }

  /** Addresses in the same page of size `s` use the same index at every level the walk to such a page reads. */
  lemma SameIndices(v: Word, v': Word, s: PageSize, i: nat)
    requires Tag(v, s) == Tag(v', s) && s - 1 <= i < 3
    ensures Vpn(v, i) == Vpn(v', i)
  {
    TagIsPage(v, s);
    TagIsPage(v', s);
    DivDiv(v, 0x1000, 0x200);
    DivDiv(v', 0x1000, 0x200);
    DivDiv(v, 0x20_0000, 0x200);
    DivDiv(v', 0x20_0000, 0x200);
  }

  // ----- page table entries -----

  datatype Pte = Pte(v: bool, r: bool, w: bool, x: bool, u: bool, g: bool, a: bool, d: bool,
                     ppn0: nat, ppn1: nat, ppn2: nat, reserved: nat, pbmt: nat)

  function DecodePte(w: Word): (p: Pte)
    ensures p.ppn0 < 0x200 && p.ppn1 < 0x200 && p.ppn2 < 0x400_0000
  {
    Pte(w % 2 == 1, w / 2 % 2 == 1, w / 4 % 2 == 1, w / 8 % 2 == 1, w / 16 % 2 == 1, w / 32 % 2 == 1,
        w / 64 % 2 == 1, w / 128 % 2 == 1,
        w / 0x400 % 0x200, w / 0x8_0000 % 0x200, w / 0x1000_0000 % 0x400_0000,
        w / 0x40_0000_0000_0000 % 0x80, w / 0x2000_0000_0000_0000 % 4)
  }

  predicate Malformed(p: Pte) { !p.v || (!p.r && p.w) || p.reserved != 0 || p.pbmt != 0 }

  predicate IsPointer(p: Pte) { !p.r && !p.w && !p.x }

  /** A superpage leaf must leave the lower frame fields zero. */
  predicate Misaligned(p: Pte, i: nat) { (i == 2 && (p.ppn1 != 0 || p.ppn0 != 0)) || (i == 1 && p.ppn0 != 0) }

  /** The physical address of the next table: all 44 frame bits. */
  function TableOf(p: Pte): nat { 0x1000 * p.ppn0 + 0x20_0000 * p.ppn1 + 0x4000_0000 * p.ppn2 }

  /** GetPpnByPageTableEntry: ppn_2 goes through a 9-bit field. */
  function FrameOf(p: Pte): nat { 0x1000 * p.ppn0 + 0x20_0000 * p.ppn1 + 0x4000_0000 * (p.ppn2 % 0x200) }

  /** A translation: where the page is and what may be done with it. */
  datatype Leaf = Leaf(frame: nat, size: PageSize, r: bool, w: bool, x: bool, u: bool, g: bool, a: bool, d: bool)

  function LeafOf(p: Pte, s: PageSize): Leaf { Leaf(FrameOf(p), s, p.r, p.w, p.x, p.u, p.g, p.a, p.d) }

  // ----- the walk -----

  /** The table entry read at level `i`, if the bus answers. */
  function EntryAt(ram: Ram, table: nat, v: Word, i: nat): Option<Pte>
    requires i < 3
  {
    match LoadFrom(ram, Wrap64(table + 8 * Vpn(v, i)), 8)
    case None => None
    case Some(w) => Some(DecodePte(w))
  }

  function WalkFrom(ram: Ram, table: nat, v: Word, i: nat): Option<Pair>
    requires i < 3
    decreases i
  {
    match EntryAt(ram, table, v, i)
    case None => None
    case Some(p) =>
      if Malformed(p) then None
      else if !IsPointer(p) then (if Misaligned(p, i) then None else Some(Pair(p, i + 1)))
      else if i == 0 then None
      else WalkFrom(ram, TableOf(p), v, i - 1)
  }

  /** The leaf entry found and its page size. */
  datatype Pair = Pair(pte: Pte, size: PageSize)

  function Walk(ram: Ram, root: nat, v: Word): Option<Pair> { WalkFrom(ram, 0x1000 * root, v, 2) }

  method ReadEntry(ram: Ram, table: nat, v: Word, i: nat) returns (e: Option<Pte>)
    requires i < 3
    ensures e == EntryAt(ram, table, v, i)
  {
    var index := if i == 2 then Vpn(v, 2) else if i == 1 then Vpn(v, 1) else Vpn(v, 0);
    var word := LoadFrom(ram, Wrap64(table + 8 * index), 8);
    if word.None? {
      return None;
    }
    e := Some(DecodePte(word.value));
  }

  /** PageTableWalk for Sv39 mode. */
  method PageTableWalk(ram: Ram, root: nat, v: Word) returns (r: Option<Pair>)
    ensures r == Walk(ram, root, v)
  {
    var table: nat := 0x1000 * root;
    var i := 2;
    while i >= 0
      invariant -1 <= i <= 2
      invariant Walk(ram, root, v) == if i >= 0 then WalkFrom(ram, table, v, i) else None
    {
      var e := ReadEntry(ram, table, v, i);
      if e.None? || Malformed(e.value) {
        return None;
      }
      if IsPointer(e.value) {
        table := TableOf(e.value);
      } else if Misaligned(e.value, i) {
        return None;
      } else {
        return Some(Pair(e.value, i + 1));
      }
      i := i - 1;
    }
    r := None;
  }

  lemma SameEntry(ram: Ram, table: nat, v: Word, v': Word, i: nat)
    requires i < 3 && Vpn(v, i) == Vpn(v', i)
    ensures EntryAt(ram, table, v, i) == EntryAt(ram, table, v', i)
  {
  }

  lemma WalkUnfolds(ram: Ram, table: nat, v: Word, i: nat, e: Option<Pte>, r: Option<Pair>)
    requires i < 3 && e == EntryAt(ram, table, v, i) && r == WalkFrom(ram, table, v, i) && r.Some?
    ensures e.Some? && !Malformed(e.value)
    ensures if IsPointer(e.value) then i > 0 && r == WalkFrom(ram, TableOf(e.value), v, i - 1)
            else !Misaligned(e.value, i) && r == Some(Pair(e.value, i + 1))
  {
  }

  lemma WalkFolds(ram: Ram, table: nat, v: Word, i: nat, e: Option<Pte>, r: Option<Pair>)
    requires i < 3 && e == EntryAt(ram, table, v, i)
    requires e.Some? && !Malformed(e.value)
    requires if IsPointer(e.value) then i > 0 && r == WalkFrom(ram, TableOf(e.value), v, i - 1)
             else !Misaligned(e.value, i) && r == Some(Pair(e.value, i + 1))
    ensures WalkFrom(ram, table, v, i) == r
  {
  }

  /** Walk locality: every address of the page a walk ends in walks to the same leaf. */
  lemma {:induction false} WalkLocal(ram: Ram, table: nat, v: Word, v': Word, i: nat, r: Option<Pair>)
    requires i < 3 && r == WalkFrom(ram, table, v, i) && r.Some? && Tag(v, r.value.size) == Tag(v', r.value.size)
    ensures WalkFrom(ram, table, v', i) == r
    decreases i
  {
    WalkSize(ram, table, v, i);
    SameIndices(v, v', r.value.size, i);
    SameEntry(ram, table, v, v', i);
    var e := EntryAt(ram, table, v, i);
    WalkUnfolds(ram, table, v, i, e, r);
    if IsPointer(e.value) {
      WalkLocal(ram, TableOf(e.value), v, v', i - 1, r);
    }
    WalkFolds(ram, table, v', i, e, r);
  }

  lemma {:induction false} WalkSize(ram: Ram, table: nat, v: Word, i: nat)
    requires i < 3 && WalkFrom(ram, table, v, i).Some?
    ensures var l := WalkFrom(ram, table, v, i).value;
            l.size <= i + 1 && !Misaligned(l.pte, l.size - 1) && l.pte.ppn0 < 0x200 && l.pte.ppn1 < 0x200
    decreases i
  {
    var p := EntryAt(ram, table, v, i).value;
    if IsPointer(p) {
      WalkSize(ram, TableOf(p), v, i - 1);
    }
  }

  // ----- mapping an address through a leaf -----

  /** MapVirtualAddress */
  function MapThrough(l: Leaf, v: Word): nat { l.frame + v % (8 * (if l.size == 1 then 0x200 else if l.size == 2 then 0x4_0000 else 0x800_0000)) }

  /** The physical address of section 4.3.2: the whole frame number, and the page offset. */
  function SpecAddress(p: Pte, s: PageSize, v: Word): nat { TableOf(p) + v % PageBytes(s) }

  /** The frame is aligned to its page, so adding the offset never carries. */
  lemma FrameAligned(p: Pte, s: PageSize)
    requires !Misaligned(p, s - 1) && p.ppn0 < 0x200 && p.ppn1 < 0x200
    ensures FrameOf(p) % PageBytes(s) == 0
  {
    var q2 := p.ppn2 % 0x200;
    if s == 1 {
      DivUnique(FrameOf(p), 0x1000, p.ppn0 + 0x200 * p.ppn1 + 0x4_0000 * q2, 0);
    } else if s == 2 {
      DivUnique(FrameOf(p), 0x20_0000, p.ppn1 + 0x200 * q2, 0);
    } else {
      DivUnique(FrameOf(p), 0x4000_0000, q2, 0);
    }
  }

  lemma NoCarry(frame: nat, off: nat, page: nat)
    requires page > 0 && frame % page == 0 && off < page
    ensures (frame + off) % page == off && (frame + off) / page == frame / page
  {
    DivUnique(frame + off, page, frame / page, off);
  }

  lemma LeafMaps(p: Pte, s: PageSize, v: Word)
    requires !Misaligned(p, s - 1) && p.ppn0 < 0x200 && p.ppn1 < 0x200
    ensures var page, pa := PageBytes(s), MapThrough(LeafOf(p, s), v);
            && pa % page == v % page && pa / page == FrameOf(p) / page
            && (pa == SpecAddress(p, s, v) <==> p.ppn2 < 0x200)
  {
    FrameAligned(p, s);
    NoCarry(FrameOf(p), v % PageBytes(s), PageBytes(s));
  }

  /**
   For every walk that ends in a leaf `l`: the mapped address lies in the leaf's frame at the page offset of `v`,
   for every page size, and it is the architectural address exactly when ppn_2 fits nine bits.
   */
  lemma MappedAddress(ram: Ram, root: nat, v: Word, l: Pair)
    requires Walk(ram, root, v) == Some(l)
    ensures var page, pa := PageBytes(l.size), MapThrough(LeafOf(l.pte, l.size), v);
            && pa % page == v % page && pa / page == FrameOf(l.pte) / page
            && (pa == SpecAddress(l.pte, l.size, v) <==> l.pte.ppn2 < 0x200)
  {
    WalkSize(ram, 0x1000 * root, v, 2);
    LeafMaps(l.pte, l.size, v);
  }

  // ----- a frame out of reach -----

  /** Valid, readable, writable, executable, accessed and dirty, with ppn_2 = 0x200. */
  const FAR_PTE: Word := 0x20_0000_00cf

  /** DRAM mounted at 0x8000_0000 whose first word is that entry. */
  predicate FarTable(ram: Ram) {
    ram.base == 0x8000_0000 && ram.window >= 8 && |ram.bytes| >= 8 && ram.bytes[..8] == ToBytes(FAR_PTE, 8)
  }

  /** For instance one page of it. */
  lemma FarDram()
    ensures FarTable(Ram(0x8000_0000, 0x1000, ToBytes(FAR_PTE, 8) + seq(0xff8, i => 0)))
  {
    assert (ToBytes(FAR_PTE, 8) + seq(0xff8, i => 0))[..8] == ToBytes(FAR_PTE, 8);
  }

  lemma FarEntry(ram: Ram)
    requires FarTable(ram)
    ensures LoadFrom(ram, 0x8000_0000, 8) == Some(FAR_PTE)
  {
    Pow2Sixty4();
    BytesRoundTrip(FAR_PTE, 8);
    assert ram.bytes[0..8] == ram.bytes[..8];
  }

  lemma FarDecoded()
    ensures DecodePte(FAR_PTE) == Pte(true, true, true, true, false, false, true, true, 0, 0, 0x200, 0, 0)
  {
  }

  /** A gigapage with ppn_2 = 0x200 belongs at 0x80_0000_0000; the emulator maps it to physical address 0. */
  lemma FarPage(ram: Ram) returns (l: Pair)
    requires FarTable(ram)
    ensures Walk(ram, 0x8_0000, 0) == Some(l) && l.size == 3 && l.pte.ppn2 == 0x200
    ensures MapThrough(LeafOf(l.pte, 3), 0) == 0 && SpecAddress(l.pte, 3, 0) == 0x80_0000_0000
  {
    FarEntry(ram);
    l := FarWalk(ram);
    FarMapped(l.pte);
  }

  lemma FarMapped(p: Pte)
    requires p.ppn0 == 0 && p.ppn1 == 0 && p.ppn2 == 0x200
    ensures MapThrough(LeafOf(p, 3), 0) == 0 && SpecAddress(p, 3, 0) == 0x80_0000_0000
  {
  }

  lemma FarWalk(ram: Ram) returns (l: Pair)
    requires LoadFrom(ram, 0x8000_0000, 8) == Some(FAR_PTE)
    ensures Walk(ram, 0x8_0000, 0) == Some(l)
    ensures l == Pair(Pte(true, true, true, true, false, false, true, true, 0, 0, 0x200, 0, 0), 3)
  {
    l := Pair(DecodePte(FAR_PTE), 3);
    FarDecoded();
    assert Vpn(0, 2) == 0 && Wrap64(0x8000_0000) == 0x8000_0000;
    assert EntryAt(ram, 0x8000_0000, 0, 2) == Some(l.pte);
    WalkFolds(ram, 0x8000_0000, 0, 2, Some(l.pte), Some(l));
  }
}
