/**
 The translation cache of src/cpu/mmu.cc as a cache of an arbitrary page-table walk.
 `walk(root, v)` is what the tables under `root` say about `v`.
 */
module Tlb {
  import opened Words
  import opened Sv39

  const TLB_SIZE: nat := 2

  /** Sv39TlbEntry; size 0 marks an invalid entry. */
  datatype Entry = Entry(frame: nat, tag: Word, asid: nat, r: bool, w: bool, x: bool, u: bool, g: bool, a: bool, d: bool, size: nat)

  type Walker = (nat, Word) -> Option<Leaf>

  predicate Valid(e: Entry) { 1 <= e.size <= 3 }

  function LeafIn(e: Entry): Leaf
    requires Valid(e)
  {
    Leaf(e.frame, e.size, e.r, e.w, e.x, e.u, e.g, e.a, e.d)
  }

  function EntryFor(l: Leaf, asid: nat, v: Word): Entry {
    Entry(l.frame, Tag(v, l.size), asid, l.r, l.w, l.x, l.u, l.g, l.a, l.d, l.size)
  }

  /** The entry's page contains `v`. */
  predicate Covers(e: Entry, v: Word) { Valid(e) && Tag(v, e.size) == e.tag }

  /** The entry answers a lookup of `v` under `asid`. */
  predicate Matches(e: Entry, asid: nat, v: Word) { (e.asid == asid || e.g) && Covers(e, v) }

  type Entries = t: seq<Entry> | |t| == TLB_SIZE witness [EMPTY, EMPTY]

  const EMPTY: Entry := Entry(0, 0, 0, false, false, false, false, false, false, false, 0)

  datatype Cache = Cache(entries: Entries, index: nat)

  // ----- operations -----

  /** The first matching entry at or after `i`. */
  function LookUpFrom(t: Entries, asid: nat, v: Word, i: nat): Option<nat>
    requires i <= TLB_SIZE
    decreases TLB_SIZE - i
  {
    if i == TLB_SIZE then None
    else if Matches(t[i], asid, v) then Some(i)
    else LookUpFrom(t, asid, v, i + 1)
  }

  lemma {:induction false} LookUpFinds(t: Entries, asid: nat, v: Word, i: nat)
    requires i <= TLB_SIZE
    ensures match LookUpFrom(t, asid, v, i)
            case None => forall k :: i <= k < TLB_SIZE ==> !Matches(t[k], asid, v)
            case Some(j) => i <= j < TLB_SIZE && Matches(t[j], asid, v) && forall k :: i <= k < j ==> !Matches(t[k], asid, v)
    decreases TLB_SIZE - i
  {
    if i < TLB_SIZE && !Matches(t[i], asid, v) {
      LookUpFinds(t, asid, v, i + 1);
    }
  }

  function Hit(t: Entries, asid: nat, v: Word): Option<Leaf> {
    match LookUpFrom(t, asid, v, 0)
    case None => None
    case Some(j) => LookUpFinds(t, asid, v, 0); Some(LeafIn(t[j]))
  }

  predicate Sound(c: Cache) { c.index < TLB_SIZE }

  function Filled(c: Cache, e: Entry): Cache
    requires Sound(c)
  {
    Cache(c.entries[c.index := e], (c.index + 1) % TLB_SIZE)
  }

  /** GetTlbEntry: what the lookup answers, and the cache afterwards. */
  function Answer(walk: Walker, c: Cache, asid: nat, root: nat, v: Word): Option<Leaf> {
    if !Canonical(v) then None
    else if Hit(c.entries, asid, v).Some? then Hit(c.entries, asid, v)
    else walk(root, v)
  }

  function After(walk: Walker, c: Cache, asid: nat, root: nat, v: Word): (r: Cache)
    requires Sound(c)
    ensures Sound(r)
  {
    if !Canonical(v) || Hit(c.entries, asid, v).Some? || walk(root, v).None? then c
    else Filled(c, EntryFor(walk(root, v).value, asid, v))
  }

  predicate Flushes(e: Entry, v: Word, asid: nat) {
    (asid == 0 || e.asid == asid) && (v == 0 || Covers(e, v))
  }

  function FlushedEntry(e: Entry, v: Word, asid: nat): Entry { if Flushes(e, v, asid) then e.(size := 0) else e }

  function Flushed(t: Entries, v: Word, asid: nat): Entries {
    seq(TLB_SIZE, i requires 0 <= i < TLB_SIZE => FlushedEntry(t[i], v, asid))
  }

  // ----- what a flush guarantees -----

  lemma FlushedAt(t: Entries, v: Word, asid: nat, i: nat)
    requires i < TLB_SIZE
    ensures Flushed(t, v, asid)[i] == FlushedEntry(t[i], v, asid)
  {
  }

  /** After FlushTlb(v, 0) no entry answers for `v`, under any address space. */
  lemma FlushPage(t: Entries, v: Word, asid: nat, i: nat)
    requires i < TLB_SIZE
    ensures !Matches(Flushed(t, v, 0)[i], asid, v)
  {
    FlushedAt(t, v, 0, i);
  }

  /** After FlushTlb(v, a) with a nonzero, what still answers for (a, v) is a global entry of another address space. */
  lemma FlushPageOfAsid(t: Entries, v: Word, asid: nat, i: nat)
    requires i < TLB_SIZE && asid != 0 && Matches(Flushed(t, v, asid)[i], asid, v)
    ensures Flushed(t, v, asid)[i] == t[i] && t[i].g && t[i].asid != asid
  {
    FlushedAt(t, v, asid, i);
  }

  /** FlushTlb(0, 0) empties the cache. */
  lemma FlushAll(t: Entries, i: nat)
    requires i < TLB_SIZE
    ensures !Valid(Flushed(t, 0, 0)[i])
  {
    FlushedAt(t, 0, 0, i);
  }

  /**
   A flush invalidates exactly the entries of the address space (any, for 0) whose page contains the address (any, for
   0), whatever its size, and leaves every other entry as it was.
   */
  lemma FlushEffect(t: Entries, v: Word, asid: nat, i: nat, e: Entry, after: Entry)
    requires i < TLB_SIZE && e == t[i] && after == Flushed(t, v, asid)[i]
    ensures var hit := (asid == 0 || e.asid == asid) && (v == 0 || (1 <= e.size <= 3 && v / PageBytes(e.size) == e.tag));
            if hit then after == e.(size := 0) && !Valid(after) else after == e
  {
    FlushedAt(t, v, asid, i);
    if 1 <= e.size <= 3 { TagIsPage(v, e.size); }
  }

  /** A fill replaces the entry at the index, which then steps round. */
  lemma FillEffect(c: Cache, e: Entry)
    requires Sound(c)
    ensures Filled(c, e).entries[c.index] == e && Filled(c, e).index == (if c.index == 0 then 1 else 0)
    ensures forall i :: 0 <= i < TLB_SIZE && i != c.index ==> Filled(c, e).entries[i] == c.entries[i]
  {
  }

  // ----- coherence for one address -----

  /** The walk gives the same leaf everywhere in a page. */
  ghost predicate Local(walk: Walker) {
    forall root, v, v' {:trigger walk(root, v), walk(root, v')} ::
      walk(root, v).Some? && Tag(v', walk(root, v).value.size) == Tag(v, walk(root, v).value.size) ==> walk(root, v') == walk(root, v)
  }

  /** Every entry that answers for (asid, v) says what the tables say. */
  ghost predicate Agrees(walk: Walker, t: Entries, asid: nat, root: nat, v: Word) {
    forall i :: 0 <= i < TLB_SIZE && Matches(t[i], asid, v) ==> walk(root, v) == Some(LeafIn(t[i]))
  }

  datatype CacheOp = Translate(u: Word) | Flush(u: Word, asid: nat)

  function Apply(walk: Walker, c: Cache, asid: nat, root: nat, op: CacheOp): (r: Cache)
    requires Sound(c)
    ensures Sound(r)
  {
    match op
    case Translate(u) => After(walk, c, asid, root, u)
    case Flush(u, a) => c.(entries := Flushed(c.entries, u, a))
  }

  function ApplyAll(walk: Walker, c: Cache, asid: nat, root: nat, ops: seq<CacheOp>): (r: Cache)
    requires Sound(c)
    ensures Sound(r)
    decreases |ops|
  {
    if ops == [] then c else ApplyAll(walk, Apply(walk, c, asid, root, ops[0]), asid, root, ops[1..])
  }

  lemma TranslateKeeps(walk: Walker, c: Cache, asid: nat, root: nat, u: Word, v: Word)
    requires Local(walk) && Sound(c) && Agrees(walk, c.entries, asid, root, v)
    ensures Agrees(walk, After(walk, c, asid, root, u).entries, asid, root, v)
  {
    if After(walk, c, asid, root, u) != c {
      var e := EntryFor(walk(root, u).value, asid, u);
      if Matches(e, asid, v) { assert walk(root, v) == walk(root, u); }
    }
  }

  lemma FlushKeeps(walk: Walker, t: Entries, asid: nat, root: nat, v: Word, u: Word, a: nat)
    requires Agrees(walk, t, asid, root, v)
    ensures Agrees(walk, Flushed(t, u, a), asid, root, v)
  {
    forall i | 0 <= i < TLB_SIZE && Matches(Flushed(t, u, a)[i], asid, v)
      ensures walk(root, v) == Some(LeafIn(Flushed(t, u, a)[i]))
    {
      FlushedAt(t, u, a, i);
    }
  }

  /** While tables and satp stand still, no sequence of translations and flushes makes an agreeing address disagree. */
  lemma {:induction false} CoherenceKept(walk: Walker, c: Cache, asid: nat, root: nat, v: Word, ops: seq<CacheOp>)
    requires Local(walk) && Sound(c) && Agrees(walk, c.entries, asid, root, v)
    ensures Agrees(walk, ApplyAll(walk, c, asid, root, ops).entries, asid, root, v)
    decreases |ops|
  {
    if ops != [] {
      match ops[0] {
        case Translate(u) => TranslateKeeps(walk, c, asid, root, u, v);
        case Flush(u, a) => FlushKeeps(walk, c.entries, asid, root, v, u, a);
      }
      CoherenceKept(walk, Apply(walk, c, asid, root, ops[0]), asid, root, v, ops[1..]);
    }
  }

  // ----- what the whole cache may hold -----

  /** A translation that has been made: leaf `l` for the address `v` of address space `asid`. */
  datatype Used = Used(l: Leaf, asid: nat, v: Word)

  function CachedAs(u: Used): Entry { EntryFor(u.l, u.asid, u.v) }

  lemma CachedLeaf(u: Used)
    ensures Valid(CachedAs(u)) && LeafIn(CachedAs(u)) == u.l
  {
  }

  /** Every valid entry is one of the translations made and not flushed since. */
  ghost predicate Accounted(t: Entries, used: set<Used>) {
    forall i :: 0 <= i < TLB_SIZE && Valid(t[i]) ==> exists u :: u in used && t[i] == CachedAs(u)
  }

  /** Each of those translations that would answer for (asid, v) still says what the tables say. */
  ghost predicate Honoured(walk: Walker, used: set<Used>, asid: nat, root: nat, v: Word) {
    forall u :: u in used && Matches(CachedAs(u), asid, v) ==> walk(root, v) == Some(u.l)
  }

  /** The walk's answer, with the check GetTlbEntry makes before it. */
  function Walked(walk: Walker, root: nat, v: Word): Option<Leaf> { if Canonical(v) then walk(root, v) else None }

  function UsedAfter(walk: Walker, used: set<Used>, asid: nat, root: nat, v: Word): set<Used> {
    if Walked(walk, root, v).Some? then used + {Used(walk(root, v).value, asid, v)} else used
  }

  function Unflushed(used: set<Used>, v: Word, asid: nat): set<Used> { set u | u in used && !Flushes(CachedAs(u), v, asid) }

  /** A cache that is accounted for answers what the walk answers ... */
  lemma AnswerExact(walk: Walker, c: Cache, used: set<Used>, asid: nat, root: nat, v: Word)
    requires Accounted(c.entries, used) && (Canonical(v) ==> Honoured(walk, used, asid, root, v))
    ensures Answer(walk, c, asid, root, v) == Walked(walk, root, v)
  {
    LookUpFinds(c.entries, asid, v, 0);
    if Canonical(v) && Hit(c.entries, asid, v).Some? {
      var u :| u in used && c.entries[LookUpFrom(c.entries, asid, v, 0).value] == CachedAs(u);
      CachedLeaf(u);
    }
  }

  /** ... and the condition is exact: without it, some cache that is accounted for answers something else. */
  lemma UnhonouredWrong(walk: Walker, used: set<Used>, asid: nat, root: nat, v: Word) returns (c: Cache)
    requires Canonical(v) && !Honoured(walk, used, asid, root, v)
    ensures Sound(c) && Accounted(c.entries, used) && Answer(walk, c, asid, root, v) != Walked(walk, root, v)
  {
    var u :| u in used && Matches(CachedAs(u), asid, v) && walk(root, v) != Some(u.l);
    c := Cache([CachedAs(u), EMPTY], 0);
    CachedLeaf(u);
  }

  lemma TranslateAccounted(walk: Walker, c: Cache, used: set<Used>, asid: nat, root: nat, v: Word)
    requires Sound(c) && Accounted(c.entries, used)
    ensures Accounted(After(walk, c, asid, root, v).entries, UsedAfter(walk, used, asid, root, v))
  {
    var t, after := After(walk, c, asid, root, v).entries, UsedAfter(walk, used, asid, root, v);
    forall i | 0 <= i < TLB_SIZE && Valid(t[i]) ensures exists u :: u in after && t[i] == CachedAs(u) {
      if t[i] == c.entries[i] {
        var u :| u in used && t[i] == CachedAs(u);
        assert u in after;
      } else {
        assert Used(walk(root, v).value, asid, v) in after;
      }
    }
  }

  lemma FlushAccounted(t: Entries, used: set<Used>, v: Word, asid: nat)
    requires Accounted(t, used)
    ensures Accounted(Flushed(t, v, asid), Unflushed(used, v, asid))
  {
    forall i | 0 <= i < TLB_SIZE && Valid(Flushed(t, v, asid)[i])
      ensures exists u :: u in Unflushed(used, v, asid) && Flushed(t, v, asid)[i] == CachedAs(u)
    {
      FlushedAt(t, v, asid, i);
      var u :| u in used && t[i] == CachedAs(u);
      assert u in Unflushed(used, v, asid);
    }
  }

  /** After FlushTlb(v, 0) an access to `v` is honoured whatever the tables now say, under every address space. */
  lemma FlushHonours(walk: Walker, used: set<Used>, asid: nat, root: nat, v: Word)
    ensures Honoured(walk, Unflushed(used, v, 0), asid, root, v)
  {
  }

  /** After FlushTlb(v, a) with a nonzero, an access of `a` to `v` can only be betrayed by a global page of another one. */
  lemma FlushHonoursAsid(walk: Walker, used: set<Used>, asid: nat, root: nat, v: Word)
    requires asid != 0 && forall u :: u in used && u.l.g && u.asid != asid && Covers(CachedAs(u), v) ==> walk(root, v) == Some(u.l)
    ensures Honoured(walk, Unflushed(used, v, asid), asid, root, v)
  {
  }

  // ----- address spaces that keep their tables -----

  /** Every page of the entry walks to its leaf. */
  ghost predicate Holds(walk: Walker, e: Entry, root: nat)
    requires Valid(e)
  {
    forall v :: Tag(v, e.size) == e.tag ==> walk(root, v) == Some(LeafIn(e))
  }

  /** Each translation made holds under the root in use for its address space. */
  ghost predicate Backed(walk: Walker, used: set<Used>, roots: map<nat, nat>) {
    forall u :: u in used ==> u.asid in roots && Holds(walk, CachedAs(u), roots[u.asid])
  }

  /** What one root calls global, the other maps alike. */
  ghost predicate GlobalsAgree(walk: Walker, root: nat, other: nat) {
    forall v :: walk(root, v).Some? && walk(root, v).value.g ==> walk(other, v) == walk(root, v)
  }

  /** The address space keeps its root, and shares its globals with every other one in use. */
  ghost predicate Admissible(walk: Walker, roots: map<nat, nat>, asid: nat, root: nat) {
    && (asid in roots ==> roots[asid] == root)
    && forall a :: a in roots ==> GlobalsAgree(walk, roots[a], root)
  }

  lemma BackedHonours(walk: Walker, used: set<Used>, roots: map<nat, nat>, asid: nat, root: nat, v: Word)
    requires Backed(walk, used, roots) && Admissible(walk, roots, asid, root)
    ensures Honoured(walk, used, asid, root, v)
  {
    forall u | u in used && Matches(CachedAs(u), asid, v) ensures walk(root, v) == Some(u.l) {
      CachedLeaf(u);
      assert walk(roots[u.asid], v) == Some(u.l);
    }
  }

  lemma FillHolds(walk: Walker, asid: nat, root: nat, v: Word)
    requires Local(walk) && walk(root, v).Some?
    ensures Holds(walk, EntryFor(walk(root, v).value, asid, v), root)
  {
    var e := EntryFor(walk(root, v).value, asid, v);
    forall u | Tag(u, e.size) == e.tag ensures walk(root, u) == Some(LeafIn(e)) {
      assert walk(root, u) == walk(root, v);
    }
  }

  lemma UsedBacked(walk: Walker, used: set<Used>, roots: map<nat, nat>, asid: nat, root: nat, v: Word)
    requires Local(walk) && Backed(walk, used, roots) && Admissible(walk, roots, asid, root)
    ensures Backed(walk, UsedAfter(walk, used, asid, root, v), roots[asid := root])
  {
    if Walked(walk, root, v).Some? { FillHolds(walk, asid, root, v); }
  }

  /** Two walks that agree on the roots in use back the same translations. */
  lemma BackedElsewhere(walk: Walker, walk': Walker, used: set<Used>, roots: map<nat, nat>)
    requires Backed(walk, used, roots)
    requires forall a, v :: a in roots ==> walk'(roots[a], v) == walk(roots[a], v)
    ensures Backed(walk', used, roots)
  {
  }
}
