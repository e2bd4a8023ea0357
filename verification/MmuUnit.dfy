/** The classes Sv39 and Mmu of src/cpu/mmu.cc, changing their state in place, proved against Tlb.dfy and Mmu.dfy. */
module MmuUnit {
  import opened Words
  import opened BitWords
  import opened Csr
  import opened Traps
  import opened Hart
  import opened Exec
  import opened ExecLaws
  import opened Ticks
  import opened Ram
  import opened Sv39
  import opened Tlb
  import opened Mmu

  // ----- the memory system the executor sees -----

  function FetchFrom(m: MmuState, v: View, addr: Word, n: nat): Loaded<MmuState> {
    var r := CachedReply(Fetching, m, v, addr, n);
    Loaded(r.trap, r.value, CachedAfter(Fetching, m, v, addr, n))
  }

  function LoadVia(m: MmuState, v: View, addr: Word, n: nat): Loaded<MmuState> {
    var r := CachedReply(Loading, m, v, addr, n);
    Loaded(r.trap, r.value, CachedAfter(Loading, m, v, addr, n))
  }

  function StoreVia(m: MmuState, v: View, addr: Word, n: nat, data: Word): Stored<MmuState> {
    Stored(CachedReply(Storing(data), m, v, addr, n).trap, CachedAfter(Storing(data), m, v, addr, n))
  }

  function FlushVia(m: MmuState, v: Word, asid: Word): MmuState { CachedStep(m, DoFlush(v, asid)) }

  function MmuMemory(): Memory<MmuState> { Memory(FetchFrom, LoadVia, StoreVia, FlushVia) }

  lemma ServeKeeps(k: Access, ram: Ram, v: View, addr: Word, n: nat, l: Option<Leaf>)
    ensures var r := Serve(k, ram, v, addr, n, l); !k.Storing? || r.trap.ty != NoTrap ==> r.ram == ram
  {
  }

  lemma RepliesKeep(k: Access, m: MmuState, v: View, addr: Word, n: nat)
    ensures !k.Storing? || CachedReply(k, m, v, addr, n).trap.ty != NoTrap ==> CachedAfter(k, m, v, addr, n).ram == m.ram
  {
    ServeKeeps(k, m.ram, v, addr, n, CacheAnswer(m, v.satp, addr));
  }

  function DramOf(m: MmuState): Ram { m.ram }

  lemma LoadsLawful(m: MmuState, v: View, a: Word, n: nat)
    ensures FetchFrom(m, v, a, n).mem.ram == m.ram && LoadVia(m, v, a, n).mem.ram == m.ram
  {
    RepliesKeep(Fetching, m, v, a, n);
    RepliesKeep(Loading, m, v, a, n);
  }

  lemma StoresLawful(m: MmuState, v: View, a: Word, n: nat, d: Word)
    ensures StoreVia(m, v, a, n, d).trap.ty != NoTrap ==> StoreVia(m, v, a, n, d).mem.ram == m.ram
  {
    RepliesKeep(Storing(d), m, v, a, n);
  }

  /** Only a store that succeeds changes DRAM: with this MMU the executor's traps are precise down to memory. */
  lemma MmuLawful()
    ensures Lawful(MmuMemory(), DramOf)
  {
    forall m: MmuState, v: View, a: Word, n: nat ensures FetchFrom(m, v, a, n).mem.ram == m.ram && LoadVia(m, v, a, n).mem.ram == m.ram {
      LoadsLawful(m, v, a, n);
    }
    forall m: MmuState, v: View, a: Word, n: nat, d: Word
      ensures StoreVia(m, v, a, n, d).trap.ty != NoTrap ==> StoreVia(m, v, a, n, d).mem.ram == m.ram
    {
      StoresLawful(m, v, a, n, d);
    }
    LawfulFrom(FetchFrom, LoadVia, StoreVia, FlushVia, DramOf);
  }

  /** The whole machine: any decoder, the executor of Exec.dfy, and this MMU. */
  lemma MachineLawful(decode: (Half, Word) -> Insn)
    ensures WorldLawful(WorldOf(decode, MmuMemory()), DramOf)
  {
    MmuLawful();
    ExecutorLawful(decode, MmuMemory(), DramOf);
  }

  // ----- the cases of a lookup -----

  lemma FaultAnswered(m: MmuState, satp: Bits, v: Word)
    requires Canonical(v) ==>
               LookUpFrom(m.cache.entries, Asid(satp), v, 0).None? && (SatpMode(satp) != 8 || Walk(m.ram, RootPpn(satp), v).None?)
    ensures CacheAnswer(m, satp, v) == None && CacheAfter(m, satp, v) == m.cache
  {
  }

  lemma HitAnswered(m: MmuState, satp: Bits, v: Word, i: nat)
    requires Canonical(v) && LookUpFrom(m.cache.entries, Asid(satp), v, 0) == Some(i)
    ensures i < TLB_SIZE && Valid(m.cache.entries[i])
    ensures CacheAnswer(m, satp, v) == Some(LeafIn(m.cache.entries[i])) && CacheAfter(m, satp, v) == m.cache
  {
    LookUpFinds(m.cache.entries, Asid(satp), v, 0);
  }

  lemma MissAnswered(m: MmuState, satp: Bits, v: Word, w: Pair, e: Entry)
    requires Canonical(v) && LookUpFrom(m.cache.entries, Asid(satp), v, 0).None?
    requires SatpMode(satp) == 8 && Walk(m.ram, RootPpn(satp), v) == Some(w) && e == EntryFor(LeafOf(w.pte, w.size), Asid(satp), v)
    ensures Valid(e) && CacheAnswer(m, satp, v) == Some(LeafIn(e)) && CacheAfter(m, satp, v) == Filled(m.cache, e)
  {
  }

  // ----- class Sv39 -----

  class Sv39Unit {
    var tlb: array<Entry>
    var index: nat
    var ram: Ram

    ghost predicate Ready()
      reads this
    {
      tlb.Length == TLB_SIZE && index < TLB_SIZE
    }

    ghost function State(): MmuState
      reads this, tlb
      requires Ready()
    {
      Unit(ram, Cache(tlb[..], index))
    }

    constructor (ram: Ram)
      ensures Ready() && fresh(tlb) && State() == Unit(ram, Cache([EMPTY, EMPTY], 0))
    {
      this.ram := ram;
      index := 0;
      tlb := new Entry[TLB_SIZE](i => EMPTY);
    }

    method LookUpTlb(asid: nat, v: Word) returns (r: Option<nat>)
      requires Ready()
      ensures r == LookUpFrom(tlb[..], asid, v, 0)
    {
      var i := 0;
      while i < TLB_SIZE
        invariant 0 <= i <= TLB_SIZE
        invariant LookUpFrom(tlb[..], asid, v, 0) == LookUpFrom(tlb[..], asid, v, i)
      {
        var e := tlb[i];
        if e.asid == asid || e.g {
          if 1 <= e.size <= 3 {
            if Tag(v, e.size) == e.tag {
              return Some(i);
            }
          }
        }
        i := i + 1;
      }
      r := None;
    }

    method GetTlbEntry(satp: Bits, v: Word) returns (r: Option<Entry>)
      requires Ready()
      modifies this`index, tlb
      ensures Ready()
      ensures r.Some? ==> Valid(r.value)
      ensures CacheAnswer(old(State()), satp, v) == if r.Some? then Some(LeafIn(r.value)) else None
      ensures State() == Unit(ram, CacheAfter(old(State()), satp, v))
    {
      ghost var m := State();
      if !((0 <= v && v <= 0x3f_ffff_ffff) || (0xffff_ffc0_0000_0000 <= v && v <= 0xffff_ffff_ffff_ffff)) {
        FaultAnswered(m, satp, v);
        return None;
      }
      var hit := LookUpTlb(Asid(satp), v);
      if hit.Some? {
        HitAnswered(m, satp, v, hit.value);
        return Some(tlb[hit.value]);
      }
      if SatpMode(satp) != 8 {
        FaultAnswered(m, satp, v);
        return None;
      }
      var w := PageTableWalk(ram, RootPpn(satp), v);
      if w.None? {
        FaultAnswered(m, satp, v);
        return None;
      }
      var p, s := w.value.pte, w.value.size;
      var e := Entry(FrameOf(p), Tag(v, s), Asid(satp), p.r, p.w, p.x, p.u, p.g, p.a, p.d, s);
      MissAnswered(m, satp, v, w.value, e);
      Fill(e);
      r := Some(e);
    }

    /** Round-robin replacement. */
    method Fill(e: Entry)
      requires Ready()
      modifies this`index, tlb
      ensures Ready() && State() == Unit(ram, Filled(old(State()).cache, e))
    {
      tlb[index] := e;
      index := (index + 1) % TLB_SIZE;
    }

    method FlushTlb(v: Word, asid: nat)
      requires Ready()
      modifies tlb
      ensures Ready() && State() == CachedStep(old(State()), DoFlush(v, asid))
    {
      var i := 0;
      while i < TLB_SIZE
        invariant 0 <= i <= TLB_SIZE
        invariant forall k :: 0 <= k < i ==> tlb[k] == FlushedEntry(old(tlb[k]), v, asid)
        invariant forall k :: i <= k < TLB_SIZE ==> tlb[k] == old(tlb[k])
      {
        var e := tlb[i];
        if asid == 0 || e.asid == asid {
          if v == 0 {
            tlb[i] := e.(size := 0);
          } else {
            if 1 <= e.size <= 3 {
              if e.tag == Tag(v, e.size) {
                tlb[i] := e.(size := 0);
              }
            }
          }
        }
        i := i + 1;
      }
      assert tlb[..] == Flushed(old(tlb[..]), v, asid);
    }

    method Reset()
      requires Ready()
      modifies this`index, this`ram, tlb
      ensures Ready() && State() == CachedStep(old(State()), Event.DoReset)
    {
      index := 0;
      var i := 0;
      while i < TLB_SIZE
        invariant 0 <= i <= TLB_SIZE && index == 0 && ram == old(ram)
        invariant forall k :: 0 <= k < i ==> tlb[k] == EMPTY
      {
        tlb[i] := EMPTY;
        i := i + 1;
      }
      ram := ram.(bytes := seq(|ram.bytes|, i => 0));
      assert tlb[..] == [EMPTY, EMPTY];
    }
  }

  // ----- class Mmu -----

  class MmuDevice {
    const sv39: Sv39Unit

    constructor (sv39: Sv39Unit)
      ensures this.sv39 == sv39
    {
      this.sv39 := sv39;
    }

    predicate UsePhysAddr(v: View) {
      SatpMode(v.satp) == 0 || (v.priv == Machine && (!v.mstatus[MPRV_BIT] || MppMachine(v.mstatus)))
    }

    method Fetch(v: View, addr: Word, n: nat) returns (trap: Trap, value: Word)
      requires sv39.Ready()
      modifies sv39`index, sv39.tlb
      ensures sv39.Ready() && Loaded(trap, value, sv39.State()) == FetchFrom(old(sv39.State()), v, addr, n)
    {
      value := 0;
      var pa := addr;
      if !(v.priv == Machine || SatpMode(v.satp) == 0) {
        var e := sv39.GetTlbEntry(v.satp, addr);
        if e.None? || !e.value.a || !e.value.x {
          return Trap(InstructionPageFault, addr), 0;
        }
        if (v.priv == User && !e.value.u) || (v.priv == Supervisor && e.value.u) {
          return Trap(InstructionPageFault, addr), 0;
        }
        pa := Wrap64(MapThrough(LeafIn(e.value), addr));
      }
      var data := LoadFrom(sv39.ram, pa, n);
      if data.None? {
        return Trap(InstructionAccessFault, addr), 0;
      }
      return NONE, data.value;
    }

    method Load(v: View, addr: Word, n: nat) returns (trap: Trap, value: Word)
      requires sv39.Ready()
      modifies sv39`index, sv39.tlb
      ensures sv39.Ready() && Loaded(trap, value, sv39.State()) == LoadVia(old(sv39.State()), v, addr, n)
    {
      value := 0;
      var pa := addr;
      if !UsePhysAddr(v) {
        var e := sv39.GetTlbEntry(v.satp, addr);
        if e.None? || !e.value.a || (!e.value.r && !(v.mstatus[MXR_BIT] && e.value.x)) {
          return Trap(LoadPageFault, addr), 0;
        }
        pa := Wrap64(MapThrough(LeafIn(e.value), addr));
      }
      var data := LoadFrom(sv39.ram, pa, n);
      if data.None? {
        return Trap(LoadAccessFault, addr), 0;
      }
      return NONE, data.value;
    }

    method Store(v: View, addr: Word, n: nat, data: Word) returns (trap: Trap)
      requires sv39.Ready()
      modifies sv39`index, sv39`ram, sv39.tlb
      ensures sv39.Ready() && Stored(trap, sv39.State()) == StoreVia(old(sv39.State()), v, addr, n, data)
    {
      var pa := addr;
      if !UsePhysAddr(v) {
        var e := sv39.GetTlbEntry(v.satp, addr);
        if e.None? || !e.value.a || !e.value.w || !e.value.d {
          return Trap(StorePageFault, addr);
        }
        pa := Wrap64(MapThrough(LeafIn(e.value), addr));
      }
      var stored := StoreTo(sv39.ram, pa, n, data);
      if stored.None? {
        return Trap(StoreAccessFault, addr);
      }
      sv39.ram := stored.value;
      trap := NONE;
    }
  }
}
