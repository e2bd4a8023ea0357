/**
 The page-table walk of src/cpu/mmu.cc by its effect: which words of DRAM it reads and what it concludes from them
 (sections 4.3.2 and 4.4.1 of the RISC-V Privileged Architecture), with entries as plain 64-bit numbers.
 */
module WalkEffects {
  import opened Words
  import opened Ram
  import opened Sv39

  // ----- an entry, as a number -----

  /** Bits 10 to 53. */
  function FrameNumber(w: Word): nat { w / 0x400 % 0x1000_0000_0000 }

  /** Valid, not write-only, and bits 54 to 62 zero. */
  predicate WellEncoded(w: Word) {
    w % 2 == 1 && (w / 4 % 2 == 1 ==> w / 2 % 2 == 1) && w / 0x40_0000_0000_0000 % 0x200 == 0
  }

  /** An entry that names the next table: none of R, W and X. */
  predicate NamesTable(w: Word) { WellEncoded(w) && w / 2 % 8 == 0 }

  /** An entry that names a page of the size, aligned to it. */
  predicate NamesPage(w: Word, s: PageSize) {
    && WellEncoded(w) && w / 2 % 8 != 0
    && (s == 2 ==> FrameNumber(w) % 0x200 == 0) && (s == 3 ==> FrameNumber(w) % 0x4_0000 == 0)
  }

  lemma LowFlags(x: nat)
    ensures x % 8 == 0 <==> x % 2 == 0 && x / 2 % 2 == 0 && x / 4 % 2 == 0
  {
    var a, b, c := x % 2, x / 2 % 2, x / 4 % 2;
    DivDiv(x, 2, 2);
    DivDiv(x, 4, 2);
    assert x == 8 * (x / 8) + (4 * c + 2 * b + a);
    DivUnique(x, 8, x / 8, 4 * c + 2 * b + a);
  }

  lemma PointerMeans(w: Word)
    ensures IsPointer(DecodePte(w)) <==> w / 2 % 8 == 0
  {
    DivDiv(w, 2, 2);
    DivDiv(w, 2, 4);
    LowFlags(w / 2);
  }

  lemma EntryMeans(w: Word)
    ensures Malformed(DecodePte(w)) <==> !WellEncoded(w)
  {
    DivDiv(w, 0x40_0000_0000_0000, 0x80);
    HighFields(w / 0x40_0000_0000_0000);
  }

  lemma HighFields(x: nat)
    ensures x % 0x200 == 0 <==> x % 0x80 == 0 && x / 0x80 % 4 == 0
  {
  }

  lemma Split(f: nat)
    ensures f % 0x1000_0000_0000 == f % 0x200 + 0x200 * (f / 0x200 % 0x200) + 0x4_0000 * (f / 0x4_0000 % 0x400_0000)
  {
    var a := f / 0x200;
    DivDiv(f, 0x200, 0x200);
    var b := a / 0x200;
    assert f == f % 0x200 + 0x200 * (a % 0x200 + 0x200 * b);
    var low := f % 0x200 + 0x200 * (a % 0x200) + 0x4_0000 * (b % 0x400_0000);
    DivUnique(f, 0x1000_0000_0000, b / 0x400_0000, low);
  }

  lemma FrameFields(w: Word, f: nat)
    requires f == FrameNumber(w)
    ensures var p := DecodePte(w);
            f == p.ppn0 + 0x200 * p.ppn1 + 0x4_0000 * p.ppn2 && TableOf(p) == 0x1000 * f
  {
    DivDiv(w, 0x400, 0x200);
    DivDiv(w, 0x400, 0x4_0000);
    Split(w / 0x400);
  }

  lemma AlignmentMeans(w: Word)
    ensures Misaligned(DecodePte(w), 2) <==> FrameNumber(w) % 0x4_0000 != 0
    ensures Misaligned(DecodePte(w), 1) <==> FrameNumber(w) % 0x200 != 0
    ensures !Misaligned(DecodePte(w), 0)
  {
    var p := DecodePte(w);
    FrameFields(w, FrameNumber(w));
    DivUnique(FrameNumber(w), 0x4_0000, p.ppn2, p.ppn0 + 0x200 * p.ppn1);
    DivUnique(FrameNumber(w), 0x200, p.ppn1 + 0x200 * p.ppn2, p.ppn0);
  }

  // ----- the three reads -----

  /** The word at 0x1000 f + 8 (v / span mod 512): an entry of the table in frame `f`. */
  function EntryWord(ram: Ram, f: nat, v: Word, span: nat): Option<Word>
    requires span > 0
  {
    LoadFrom(ram, (0x1000 * f + 8 * (v / span % 512)) % TWO64, 8)
  }

  /** A page found: its entry and its size. */
  datatype Found = Found(w: Word, size: PageSize)

  function LastLevel(ram: Ram, f: nat, v: Word): Option<Found> {
    var e := EntryWord(ram, f, v, 0x1000);
    if e.Some? && NamesPage(e.value, 1) then Some(Found(e.value, 1)) else None
  }

  function MiddleLevel(ram: Ram, f: nat, v: Word): Option<Found> {
    var e := EntryWord(ram, f, v, 0x20_0000);
    if e.Some? && NamesPage(e.value, 2) then Some(Found(e.value, 2))
    else if e.Some? && NamesTable(e.value) then LastLevel(ram, FrameNumber(e.value), v)
    else None
  }

  /** What the tables under the table in frame `root` say about `v`. */
  function Lookup(ram: Ram, root: nat, v: Word): Option<Found> {
    var e := EntryWord(ram, root, v, 0x4000_0000);
    if e.Some? && NamesPage(e.value, 3) then Some(Found(e.value, 3))
    else if e.Some? && NamesTable(e.value) then MiddleLevel(ram, FrameNumber(e.value), v)
    else None
  }

  function AsPair(f: Option<Found>): Option<Pair> {
    match f case None => None case Some(x) => Some(Pair(DecodePte(x.w), x.size))
  }

  /** The decoded entry `p` says what the word `w` says. */
  ghost predicate Speaks(w: Word, p: Pte) {
    && (NamesTable(w) <==> !Malformed(p) && IsPointer(p)) && TableOf(p) == 0x1000 * FrameNumber(w)
    && (forall s: PageSize :: NamesPage(w, s) <==> !Malformed(p) && !IsPointer(p) && !Misaligned(p, s - 1))
  }

  lemma DecodedSpeaks(w: Word)
    ensures Speaks(w, DecodePte(w))
  {
    EntryMeans(w);
    PointerMeans(w);
    AlignmentMeans(w);
    FrameFields(w, FrameNumber(w));
  }

  /** One level of the walk, from the entry it reads. */
  lemma Level(ram: Ram, f: nat, v: Word, i: nat, span: nat, e: Option<Word>)
    requires i < 3 && span == (if i == 0 then 0x1000 else if i == 1 then 0x20_0000 else 0x4000_0000) && e == EntryWord(ram, f, v, span)
    ensures WalkFrom(ram, 0x1000 * f, v, i)
         == if e.Some? && NamesPage(e.value, i + 1) then Some(Pair(DecodePte(e.value), i + 1))
            else if e.Some? && NamesTable(e.value) && i > 0 then WalkFrom(ram, 0x1000 * FrameNumber(e.value), v, i - 1)
            else None
  {
    if e.Some? {
      DecodedSpeaks(e.value);
      Unfold(ram, 0x1000 * f, v, i, Some(DecodePte(e.value)));
    } else {
      Unfold(ram, 0x1000 * f, v, i, None);
    }
  }

  lemma Unfold(ram: Ram, table: nat, v: Word, i: nat, e: Option<Pte>)
    requires i < 3 && e == EntryAt(ram, table, v, i)
    ensures WalkFrom(ram, table, v, i)
         == if e.None? || Malformed(e.value) then None
            else if !IsPointer(e.value) then (if Misaligned(e.value, i) then None else Some(Pair(e.value, i + 1)))
            else if i == 0 then None else WalkFrom(ram, TableOf(e.value), v, i - 1)
  {
  }

  lemma LastIs(ram: Ram, f: nat, v: Word)
    ensures WalkFrom(ram, 0x1000 * f, v, 0) == AsPair(LastLevel(ram, f, v))
  {
    Level(ram, f, v, 0, 0x1000, EntryWord(ram, f, v, 0x1000));
  }

  lemma MiddleIs(ram: Ram, f: nat, v: Word)
    ensures WalkFrom(ram, 0x1000 * f, v, 1) == AsPair(MiddleLevel(ram, f, v))
  {
    var e := EntryWord(ram, f, v, 0x20_0000);
    Level(ram, f, v, 1, 0x20_0000, e);
    if e.Some? { LastIs(ram, FrameNumber(e.value), v); }
  }

  lemma WalkIs(ram: Ram, root: nat, v: Word)
    ensures Walk(ram, root, v) == AsPair(Lookup(ram, root, v))
  {
    var e := EntryWord(ram, root, v, 0x4000_0000);
    Level(ram, root, v, 2, 0x4000_0000, e);
    if e.Some? { MiddleIs(ram, FrameNumber(e.value), v); }
  }

  /** A word names a table or a page, never both. */
  lemma NotBoth(w: Word, s: PageSize)
    ensures !(NamesTable(w) && NamesPage(w, s))
  {
  }

  ghost predicate Ends(r: Option<Pair>, w2: Option<Word>, w1: Option<Word>, w0: Option<Word>) {
    var two := w2.Some? && NamesTable(w2.value) && w1.Some?;
    var three := two && NamesTable(w1.value) && w0.Some?;
    && (r.Some? && r.value.size == 3 <==> w2.Some? && NamesPage(w2.value, 3))
    && (r.Some? && r.value.size == 2 <==> two && NamesPage(w1.value, 2))
    && (r.Some? && r.value.size == 1 <==> three && NamesPage(w0.value, 1))
    && (r.Some? ==> r.value.pte == DecodePte((if r.value.size == 3 then w2 else if r.value.size == 2 then w1 else w0).value))
  }

  /**
   The walk ends in a 1 GiB page exactly when the word at 0x1000 root + 8 (v / 2^30 mod 512) names one; in a 2 MiB page
   exactly when that word names a table and the word at index v / 2^21 mod 512 of it names one; in a 4 KiB page exactly
   when that one names a table too and the word at index v / 2^12 mod 512 of it names one; and nowhere otherwise.
   */
  lemma WalkEnds(ram: Ram, root: nat, v: Word, w2: Option<Word>, w1: Option<Word>, w0: Option<Word>, r: Option<Pair>)
    requires w2 == EntryWord(ram, root, v, 0x4000_0000)
    requires w2.Some? ==> w1 == EntryWord(ram, FrameNumber(w2.value), v, 0x20_0000)
    requires w1.Some? ==> w0 == EntryWord(ram, FrameNumber(w1.value), v, 0x1000)
    requires r == Walk(ram, root, v)
    ensures Ends(r, w2, w1, w0)
  {
    WalkIs(ram, root, v);
    if w2.Some? { NotBoth(w2.value, 3); }
    if w1.Some? { NotBoth(w1.value, 2); }
  }

  /** The page behind an entry: permission bits, and a frame of 27 bits. */
  lemma PageMeans(f: Found)
    ensures LeafOf(DecodePte(f.w), f.size)
         == Leaf(0x1000 * (f.w / 0x400 % 0x800_0000), f.size, f.w / 2 % 2 == 1, f.w / 4 % 2 == 1, f.w / 8 % 2 == 1,
                 f.w / 16 % 2 == 1, f.w / 32 % 2 == 1, f.w / 64 % 2 == 1, f.w / 128 % 2 == 1)
  {
    FrameFields(f.w, FrameNumber(f.w));
    FrameBits(f.w);
  }

  lemma SplitLow(f: nat)
    ensures f % 0x800_0000 == f % 0x200 + 0x200 * (f / 0x200 % 0x200) + 0x4_0000 * (f / 0x4_0000 % 0x200)
  {
    var a := f / 0x200;
    DivDiv(f, 0x200, 0x200);
    var b := a / 0x200;
    assert f == f % 0x200 + 0x200 * (a % 0x200 + 0x200 * b);
    DivUnique(f, 0x800_0000, b / 0x200, f % 0x200 + 0x200 * (a % 0x200) + 0x4_0000 * (b % 0x200));
  }

  lemma NineOfTwentySix(b: nat)
    ensures b % 0x400_0000 % 0x200 == b % 0x200
  {
    ModShift(b % 0x400_0000, b / 0x400_0000 * 0x2_0000, 0x200);
  }

  lemma FrameBits(w: Word)
    ensures FrameOf(DecodePte(w)) == 0x1000 * (w / 0x400 % 0x800_0000)
  {
    DivDiv(w, 0x400, 0x200);
    DivDiv(w, 0x400, 0x4_0000);
    SplitLow(w / 0x400);
    NineOfTwentySix(w / 0x400 / 0x4_0000);
  }

  // ----- a table of three levels -----

  /** DRAM of four pages at 0x8000_0000, with three words stored in it. */
  function ThreeLevels(): Option<Ram> {
    var r0 := Ram(0x8000_0000, 0x4000, seq(0x4000, i => 0));
    match StoreTo(r0, 0x8000_0010, 8, 0x2000_0401)
    case None => None
    case Some(r1) =>
      match StoreTo(r1, 0x8000_1018, 8, 0x2000_0801)
      case None => None
      case Some(r2) => StoreTo(r2, 0x8000_2028, 8, 0x2000_0ccf)
  }

  lemma LoadElsewhere(ram: Ram, addr: Word, data: Word, other: Word)
    requires Reachable(ram, addr, 8) && (other + 8 <= addr || addr + 8 <= other)
    ensures LoadFrom(StoreTo(ram, addr, 8, data).value, other, 8) == LoadFrom(ram, other, 8)
  {
    StoreBytes(ram, addr, 8, data);
    SameBytes(ram, StoreTo(ram, addr, 8, data).value, other);
  }

  lemma SameBytes(ram: Ram, r: Ram, addr: Word)
    requires r == ram.(bytes := r.bytes) && |r.bytes| == |ram.bytes|
    requires forall i :: 0 <= i < |ram.bytes| && addr <= ram.base + i < addr + 8 ==> r.bytes[i] == ram.bytes[i]
    ensures LoadFrom(r, addr, 8) == LoadFrom(ram, addr, 8)
  {
    if Reachable(ram, addr, 8) {
      var o := addr - ram.base;
      assert r.bytes[o..o + 8] == ram.bytes[o..o + 8];
    }
  }

  /** A word stored is read back, in DRAM that answered at the address, and the places that answer stay the same. */
  lemma WordStored(ram: Ram, addr: Word, data: Word) returns (r: Ram)
    requires Reachable(ram, addr, 8)
    ensures StoreTo(ram, addr, 8, data) == Some(r) && LoadFrom(r, addr, 8) == Some(data)
    ensures r.base == ram.base && r.window == ram.window && |r.bytes| == |ram.bytes|
  {
    Pow2Sixty4();
    StoreThenLoad(ram, addr, 8, data);
    r := StoreTo(ram, addr, 8, data).value;
  }

  lemma ThreeWords() returns (ram: Ram)
    ensures ThreeLevels() == Some(ram)
    ensures LoadFrom(ram, 0x8000_0010, 8) == Some(0x2000_0401) && LoadFrom(ram, 0x8000_1018, 8) == Some(0x2000_0801)
    ensures LoadFrom(ram, 0x8000_2028, 8) == Some(0x2000_0ccf)
  {
    var r0 := Ram(0x8000_0000, 0x4000, seq(0x4000, i => 0));
    var r1 := WordStored(r0, 0x8000_0010, 0x2000_0401);
    var r2 := WordStored(r1, 0x8000_1018, 0x2000_0801);
    LoadElsewhere(r1, 0x8000_1018, 0x2000_0801, 0x8000_0010);
    ram := WordStored(r2, 0x8000_2028, 0x2000_0ccf);
    LoadElsewhere(r2, 0x8000_2028, 0x2000_0ccf, 0x8000_0010);
    LoadElsewhere(r2, 0x8000_2028, 0x2000_0ccf, 0x8000_1018);
  }

  lemma FirstEntry()
    ensures NamesTable(0x2000_0401) && !NamesPage(0x2000_0401, 3) && FrameNumber(0x2000_0401) == 0x8_0001
  {
  }

  lemma SecondEntry()
    ensures NamesTable(0x2000_0801) && !NamesPage(0x2000_0801, 2) && FrameNumber(0x2000_0801) == 0x8_0002
  {
  }

  lemma ThirdEntry()
    ensures NamesPage(0x2000_0ccf, 1)
  {
  }

  lemma FrameAt(w: Word, n: nat)
    requires w / 0x400 % 0x800_0000 == n
    ensures FrameOf(DecodePte(w)) == 0x1000 * n
  {
    FrameBits(w);
  }

  lemma ThirdNumber()
    ensures 0x2000_0ccf / 0x400 % 0x800_0000 == 0x8_0003
  {
  }

  lemma Indices()
    ensures 0x8060_5123 / 0x4000_0000 % 512 == 2 && 0x8060_5123 / 0x20_0000 % 512 == 3 && 0x8060_5123 / 0x1000 % 512 == 5
  {
  }

  lemma EntryAddress(ram: Ram, f: nat, v: Word, span: nat, index: nat, addr: Word)
    requires span > 0 && v / span % 512 == index && addr == 0x1000 * f + 8 * index
    ensures EntryWord(ram, f, v, span) == LoadFrom(ram, addr, 8)
  {
    SmallSum(f, index, addr);
  }

  lemma SmallSum(f: nat, index: nat, addr: Word)
    requires addr == 0x1000 * f + 8 * index
    ensures (0x1000 * f + 8 * index) % TWO64 == addr
  {
  }

  lemma PathLast(ram: Ram, f: nat, v: Word, w: Word)
    requires EntryWord(ram, f, v, 0x1000) == Some(w) && NamesPage(w, 1)
    ensures LastLevel(ram, f, v) == Some(Found(w, 1))
  {
  }

  lemma PathMiddle(ram: Ram, f: nat, v: Word, w: Word, g: nat)
    requires EntryWord(ram, f, v, 0x20_0000) == Some(w) && NamesTable(w) && !NamesPage(w, 2) && FrameNumber(w) == g
    ensures MiddleLevel(ram, f, v) == LastLevel(ram, g, v)
  {
  }

  lemma PathTop(ram: Ram, f: nat, v: Word, w: Word, g: nat)
    requires EntryWord(ram, f, v, 0x4000_0000) == Some(w) && NamesTable(w) && !NamesPage(w, 3) && FrameNumber(w) == g
    ensures Lookup(ram, f, v) == MiddleLevel(ram, g, v)
  {
  }

  lemma ThreeReads(ram: Ram)
    requires LoadFrom(ram, 0x8000_0010, 8) == Some(0x2000_0401) && LoadFrom(ram, 0x8000_1018, 8) == Some(0x2000_0801)
    requires LoadFrom(ram, 0x8000_2028, 8) == Some(0x2000_0ccf)
    ensures EntryWord(ram, 0x8_0000, 0x8060_5123, 0x4000_0000) == Some(0x2000_0401)
    ensures EntryWord(ram, 0x8_0001, 0x8060_5123, 0x20_0000) == Some(0x2000_0801)
    ensures EntryWord(ram, 0x8_0002, 0x8060_5123, 0x1000) == Some(0x2000_0ccf)
  {
    Indices();
    EntryAddress(ram, 0x8_0000, 0x8060_5123, 0x4000_0000, 2, 0x8000_0010);
    EntryAddress(ram, 0x8_0001, 0x8060_5123, 0x20_0000, 3, 0x8000_1018);
    EntryAddress(ram, 0x8_0002, 0x8060_5123, 0x1000, 5, 0x8000_2028);
  }

  lemma PathFound(ram: Ram)
    requires EntryWord(ram, 0x8_0000, 0x8060_5123, 0x4000_0000) == Some(0x2000_0401)
    requires EntryWord(ram, 0x8_0001, 0x8060_5123, 0x20_0000) == Some(0x2000_0801)
    requires EntryWord(ram, 0x8_0002, 0x8060_5123, 0x1000) == Some(0x2000_0ccf)
    ensures Lookup(ram, 0x8_0000, 0x8060_5123) == Some(Found(0x2000_0ccf, 1))
  {
    FirstEntry();
    PathTop(ram, 0x8_0000, 0x8060_5123, 0x2000_0401, 0x8_0001);
    SecondEntry();
    PathMiddle(ram, 0x8_0001, 0x8060_5123, 0x2000_0801, 0x8_0002);
    ThirdEntry();
    PathLast(ram, 0x8_0002, 0x8060_5123, 0x2000_0ccf);
  }

  /** Indices 2, 3 and 5: address 0x8060_5123 is mapped to 0x8000_3123. */
  lemma ThreeLevelsWalk() returns (ram: Ram, l: Pair)
    ensures ThreeLevels() == Some(ram) && Walk(ram, 0x8_0000, 0x8060_5123) == Some(l) && l.size == 1
    ensures MapThrough(LeafOf(l.pte, 1), 0x8060_5123) == 0x8000_3123
  {
    ram := ThreeWords();
    ThreeReads(ram);
    PathFound(ram);
    WalkIs(ram, 0x8_0000, 0x8060_5123);
    l := Pair(DecodePte(0x2000_0ccf), 1);
    ThirdNumber();
    FrameAt(0x2000_0ccf, 0x8_0003);
    ThreeMapped(l.pte);
  }

  lemma ThreeMapped(p: Pte)
    requires FrameOf(p) == 0x8000_3000
    ensures MapThrough(LeafOf(p, 1), 0x8060_5123) == 0x8000_3123
  {
  }
}
