/**
 The platform-level interrupt controller (src/device/plic.cc) on values: pending, enable
 and claimed are sets of sources packed 32 to a word.
 */
module Plic {
  import opened Words
  import BitWords
  import opened Runs

  const MAX_SOURCES: nat := 1024
  const WORDS: nat := 32

  // ----- sets of sources as words -----

  type Word32 = w: seq<bool> | |w| == 32 witness seq(32, i => false)
  type Group = g: seq<Word32> | |g| == WORDS witness seq(WORDS, i => seq(32, j => false))
  type Source = s: nat | s < MAX_SOURCES

  function Mask(k: nat): Word32
    requires k < 32
  {
    seq(32, i => i == k)
  }

  function And32(a: Word32, b: Word32): Word32 { seq(32, i requires 0 <= i < 32 => a[i] && b[i]) }

  function Or32(a: Word32, b: Word32): Word32 { seq(32, i requires 0 <= i < 32 => a[i] || b[i]) }

  function Not32(a: Word32): Word32 { seq(32, i requires 0 <= i < 32 => !a[i]) }

  function Zero32(): Word32 { seq(32, i => false) }

  function Empty(): Group { seq(WORDS, i => Zero32()) }

  predicate Has(g: Group, s: Source) { g[s / 32][s % 32] }

  ghost function Members(g: Group): set<Source> { set s: Source | Has(g, s) }

  /** group[s / 32] with the bit of `s` set, or cleared. */
  function With(g: Group, s: Source, on: bool): Group {
    var w, m := g[s / 32], Mask(s % 32);
    g[s / 32 := if on then Or32(w, m) else And32(w, Not32(m))]
  }

  lemma SameSource(s: Source, t: Source)
    ensures s / 32 == t / 32 && s % 32 == t % 32 <==> s == t
  {
  }

  lemma WithHas(g: Group, s: Source, on: bool, t: Source)
    ensures Has(With(g, s, on), t) == if t == s then on else Has(g, t)
  {
    SameSource(s, t);
  }

  /** The words refine a set: setting and clearing a bit adds and removes one source. */
  lemma WithMembers(g: Group, s: Source, on: bool)
    ensures Members(With(g, s, on)) == if on then Members(g) + {s} else Members(g) - {s}
  {
    forall t: Source ensures Has(With(g, s, on), t) == if t == s then on else Has(g, t) {
      WithHas(g, s, on, t);
    }
  }

  lemma TestBit(g: Group, s: Source)
    ensures And32(g[s / 32], Mask(s % 32)) != Zero32() <==> Has(g, s)
  {
    var w := And32(g[s / 32], Mask(s % 32));
    if Has(g, s) {
      assert w[s % 32] != Zero32()[s % 32];
    } else {
      assert w == Zero32();
    }
  }

  // ----- state -----

  datatype Context = Context(mmode: bool, id: nat, claim: Source, threshold: Half, enable: Group, claimed: Group)

  /** PlicContext{} */
  function FreshContext(): Context { Context(false, 0, 0, 0, Empty(), Empty()) }

  datatype Plic = Plic(priority: seq<Half>, pending: Group, contexts: seq<Context>, devNum: nat)

  predicate Sized(p: Plic) { |p.priority| == MAX_SOURCES && 1 <= p.devNum <= MAX_SOURCES }

  type State = p: Plic | Sized(p) witness Plic(seq(MAX_SOURCES, i => 0), Empty(), [], 1)

  // ----- selection -----

  predicate Eligible(p: State, c: Context, s: nat) {
    s < p.devNum && p.priority[s] >= c.threshold && Has(p.pending, s) && Has(c.enable, s) && !Has(c.claimed, s)
  }

  predicate Candidate(p: State, c: Context, s: nat) { Eligible(p, c, s) && p.priority[s] > 0 }

  /** max_priority and best_interrupt after the loop has looked at the sources below `n`. */
  datatype Pick = Pick(top: Half, best: Source)

  function PickBelow(p: State, c: Context, n: nat): Pick
    requires n <= p.devNum
  {
    if n == 0 then Pick(0, 0)
    else
      var k := PickBelow(p, c, n - 1);
      if Eligible(p, c, n - 1) && k.top < p.priority[n - 1] then Pick(p.priority[n - 1], n - 1) else k
  }

  /** Lowest-numbered source of highest positive priority among the candidates below `n`; 0 if there is none. */
  ghost predicate IsBest(p: State, c: Context, n: nat, b: nat) {
    if exists s: nat :: s < n && Candidate(p, c, s) then
      && b < n && Candidate(p, c, b)
      && (forall s: nat :: s < n && Candidate(p, c, s) ==> p.priority[s] <= p.priority[b])
      && (forall s: nat :: s < b && Candidate(p, c, s) ==> p.priority[s] < p.priority[b])
    else b == 0
  }

  lemma {:induction false} PickIsBest(p: State, c: Context, n: nat)
    requires n <= p.devNum
    ensures var k := PickBelow(p, c, n);
            && IsBest(p, c, n, k.best)
            && k.top == if exists s: nat :: s < n && Candidate(p, c, s) then p.priority[k.best] else 0
  {
    if n > 0 {
      PickIsBest(p, c, n - 1);
    }
  }

  lemma BestUnique(p: State, c: Context, n: nat, a: nat, b: nat)
    requires IsBest(p, c, n, a) && IsBest(p, c, n, b)
    ensures a == b
  {
  }

  function Best(p: State, c: Context): Source { PickBelow(p, c, p.devNum).best }

  /** GetInterrupt reports an interrupt exactly when there is a candidate and source 0 is not the best of them. */
  lemma ReportsExactly(p: State, c: Context)
    ensures IsBest(p, c, p.devNum, Best(p, c))
    ensures Best(p, c) != 0 <==>
            (exists s: nat :: s > 0 && Candidate(p, c, s) && (Candidate(p, c, 0) ==> p.priority[0] < p.priority[s]))
    ensures !Eligible(p, c, 0) ==> (Best(p, c) != 0 <==> exists s: nat :: Candidate(p, c, s))
  {
    PickIsBest(p, c, p.devNum);
    var b := Best(p, c);
    if b != 0 {
      assert Candidate(p, c, b);
    }
  }

  // ----- register accesses, four bytes at a time -----

  const PENDING_BASE: nat := 0x1000
  const PENDING_END: nat := 0x1080
  const ENABLE_BASE: nat := 0x2000
  const ENABLE_END: nat := 0x1f_2000
  const CONTEXT_BASE: nat := 0x20_0000
  const CONTEXT_END: nat := 0x400_0000

  /** What an aligned address names. */
  datatype Register =
    | Priority(s: nat) | Pending(word: nat) | Enable(ctx: nat, word: nat) | Threshold(ctx: nat) | Claim(ctx: nat) | Nothing

  function RegisterAt(p: State, addr: nat): Register {
    if addr < PENDING_BASE then
      if addr / 4 < p.devNum then Priority(addr / 4) else Nothing
    else if PENDING_BASE <= addr < PENDING_END then
      var k := (addr - PENDING_BASE) / 4;
      if 32 * k < p.devNum then Pending(k) else Nothing
    else if ENABLE_BASE <= addr < ENABLE_END then
      var ctx, k := (addr - ENABLE_BASE) / 0x80, addr % 0x80 / 4;
      if ctx < |p.contexts| && 32 * k < p.devNum then Enable(ctx, k) else Nothing
    else if CONTEXT_BASE <= addr < CONTEXT_END then
      var ctx, off := (addr - CONTEXT_BASE) / 0x1000, addr % 0x1000;
      if ctx < |p.contexts| && off == 0 then Threshold(ctx)
      else if ctx < |p.contexts| && off == 4 then Claim(ctx)
      else Nothing
    else Nothing
  }

  predicate Exists(p: State, r: Register) {
    match r
    case Priority(s) => s < p.devNum
    case Pending(k) => 32 * k < p.devNum
    case Enable(ctx, k) => ctx < |p.contexts| && 32 * k < p.devNum
    case Threshold(ctx) => ctx < |p.contexts|
    case Claim(ctx) => ctx < |p.contexts|
    case Nothing => false
  }

  lemma RegisterExists(p: State, addr: nat)
    ensures RegisterAt(p, addr) != Nothing ==> Exists(p, RegisterAt(p, addr))
  {
  }

  /** The address of a register: the memory map read backwards. */
  function AddressOf(r: Register): nat
    requires r != Nothing
  {
    match r
    case Priority(s) => 4 * s
    case Pending(k) => PENDING_BASE + 4 * k
    case Enable(ctx, k) => ENABLE_BASE + 0x80 * ctx + 4 * k
    case Threshold(ctx) => CONTEXT_BASE + 0x1000 * ctx
    case Claim(ctx) => CONTEXT_BASE + 0x1000 * ctx + 4
  }

  lemma EnableSlot(addr: nat)
    requires addr >= 0x2000 && addr % 4 == 0
    ensures addr == 0x2000 + 0x80 * ((addr - 0x2000) / 0x80) + 4 * (addr % 0x80 / 4)
  {
    var d := addr - 0x2000;
    assert addr % 0x80 == d % 0x80 by { ModShift(d, 0x40, 0x80); }
    FourApart(d % 0x80);
  }

  lemma FourApart(x: nat)
    requires x % 4 == 0
    ensures 4 * (x / 4) == x
  {
  }

  lemma ContextSlot(addr: nat)
    requires addr >= 0x20_0000
    ensures addr == 0x20_0000 + 0x1000 * ((addr - 0x20_0000) / 0x1000) + addr % 0x1000
  {
    var d := addr - 0x20_0000;
    assert addr % 0x1000 == d % 0x1000 by { ModShift(d, 0x200, 0x1000); }
  }

  /** Every aligned address names at most one register and distinct addresses name distinct ones. */
  lemma RegisterMap(p: State, addr: nat)
    requires addr % 4 == 0 && RegisterAt(p, addr) != Nothing
    ensures Exists(p, RegisterAt(p, addr)) && AddressOf(RegisterAt(p, addr)) == addr
  {
    if ENABLE_BASE <= addr < ENABLE_END {
      EnableSlot(addr);
    } else if CONTEXT_BASE <= addr {
      ContextSlot(addr);
    }
  }

  /** How many contexts the memory map has room for. */
  const MAX_CONTEXTS: nat := 0x3e00

  /** And every register there is has its address. */
  lemma RegisterMapOnto(p: State, r: Register)
    requires Exists(p, r) && |p.contexts| <= MAX_CONTEXTS
    ensures AddressOf(r) % 4 == 0 && RegisterAt(p, AddressOf(r)) == r
  {
    match r
    case Priority(s) => assert 4 * s / 4 == s;
    case Pending(k) => assert 4 * k / 4 == k;
    case Enable(ctx, k) => EnablePlace(ctx, k);
    case Threshold(ctx) => ContextPlace(ctx, 0);
    case Claim(ctx) => ContextPlace(ctx, 4);
  }

  lemma EnablePlace(ctx: nat, k: nat)
    requires k < 32
    ensures var d := 0x80 * ctx + 4 * k;
            d / 0x80 == ctx && (0x2000 + d) % 0x80 == 4 * k && 4 * k / 4 == k && (0x2000 + d) % 4 == 0
  {
    var d := 0x80 * ctx + 4 * k;
    DivUnique(d, 0x80, ctx, 4 * k);
    DivUnique(0x2000 + d, 0x80, 0x40 + ctx, 4 * k);
    DivUnique(0x2000 + d, 4, 0x800 + 0x20 * ctx + k, 0);
  }

  lemma ContextPlace(ctx: nat, off: nat)
    requires off == 0 || off == 4
    ensures var d := 0x1000 * ctx + off;
            d / 0x1000 == ctx && (0x20_0000 + d) % 0x1000 == off && (0x20_0000 + d) % 4 == 0
  {
    var d := 0x1000 * ctx + off;
    DivUnique(d, 0x1000, ctx, off);
    DivUnique(0x20_0000 + d, 0x1000, 0x200 + ctx, off);
    DivUnique(0x20_0000 + d, 4, 0x8_0000 + 0x400 * ctx + off / 4, 0);
  }

  // ----- reads and writes -----

  function FromWord(w: Word32): Half {
    BitWords.DigitsOfValue(w); Pow2Sixty4();
    BitWords.Value(w)
  }

  function ToWord(v: Half): Word32 { BitWords.Digits(v, 32) }

  lemma WordRoundTrip(v: Half)
    ensures FromWord(ToWord(v)) == v
  {
    Pow2Sixty4();
    BitWords.ValueOfDigits(v, 32);
  }

  function ReadReg(p: State, r: Register): Half
    requires Exists(p, r)
  {
    match r
    case Priority(s) => p.priority[s]
    case Pending(k) => FromWord(p.pending[k])
    case Enable(ctx, k) => FromWord(p.contexts[ctx].enable[k])
    case Threshold(ctx) => p.contexts[ctx].threshold
    case Claim(ctx) => p.contexts[ctx].claim
  }

  /** Reading the claim register marks the source it holds as claimed by that context. */
  function AfterRead(p: State, r: Register): State
    requires Exists(p, r)
  {
    if r.Claim? then
      var c := p.contexts[r.ctx];
      p.(contexts := p.contexts[r.ctx := c.(claimed := With(c.claimed, c.claim, true))])
    else p
  }

  /** Whether the write is accepted: completion names a source that exists. */
  predicate Accepts(p: State, r: Register, v: Half)
    requires Exists(p, r)
  {
    r.Claim? ==> v < p.devNum
  }

  function AfterWrite(p: State, r: Register, v: Half): State
    requires Exists(p, r) && Accepts(p, r, v)
  {
    match r
    case Priority(s) => p.(priority := p.priority[s := v])
    case Pending(k) => p.(pending := p.pending[k := ToWord(v)])
    case Enable(ctx, k) =>
      var c := p.contexts[ctx];
      p.(contexts := p.contexts[ctx := c.(enable := c.enable[k := ToWord(v)])])
    case Threshold(ctx) => p.(contexts := p.contexts[ctx := p.contexts[ctx].(threshold := v)])
    case Claim(ctx) =>
      var c := p.contexts[ctx];
      p.(contexts := p.contexts[ctx := c.(claimed := With(c.claimed, v, false))])
  }

  function Load(p: State, addr: nat): Option<Half> {
    var r := RegisterAt(p, addr);
    if r == Nothing then None else RegisterExists(p, addr); Some(ReadReg(p, r))
  }

  function AfterLoad(p: State, addr: nat): State {
    var r := RegisterAt(p, addr);
    if r == Nothing then p else RegisterExists(p, addr); AfterRead(p, r)
  }

  predicate StoreOk(p: State, addr: nat, v: Half) {
    var r := RegisterAt(p, addr);
    RegisterExists(p, addr); r != Nothing && Accepts(p, r, v)
  }

  function AfterStore(p: State, addr: nat, v: Half): State {
    if StoreOk(p, addr, v) then RegisterExists(p, addr); AfterWrite(p, RegisterAt(p, addr), v) else p
  }

  /** Registers other than the claim register are cells: a write is read back, and no other register changes. */
  lemma WriteThenRead(p: State, a: nat, v: Half, b: nat)
    requires a % 4 == 0 && b % 4 == 0 && StoreOk(p, a, v) && !RegisterAt(p, a).Claim?
    ensures Load(AfterStore(p, a, v), b) == if b == a then Some(v) else Load(p, b)
  {
    var r, q := RegisterAt(p, a), RegisterAt(p, b);
    RegisterMap(p, a);
    if q != Nothing { RegisterMap(p, b); }
    CellWrite(p, r, v, q);
  }

  lemma CellWrite(p: State, r: Register, v: Half, q: Register)
    requires Exists(p, r) && !r.Claim?
    ensures forall addr :: RegisterAt(AfterWrite(p, r, v), addr) == RegisterAt(p, addr)
    ensures Exists(p, q) ==> Exists(AfterWrite(p, r, v), q) && ReadReg(AfterWrite(p, r, v), q) == if q == r then v else ReadReg(p, q)
  {
    WordRoundTrip(v);
  }

  // ----- the claim and completion protocol over runs -----

  type Aligned = a: nat | a % 4 == 0

  datatype Event = Wire(s: Source, fired: bool) | Ask(ctx: nat) | ReadAt(addr: Aligned) | WriteAt(addr: Aligned, v: Half) | ResetAll

  /** GetInterrupt latches its choice in the context. */
  function AfterAsk(p: State, ctx: nat): State
    requires ctx < |p.contexts|
  {
    p.(contexts := p.contexts[ctx := p.contexts[ctx].(claim := Best(p, p.contexts[ctx]))])
  }

  function AfterReset(p: State): State {
    Plic(seq(MAX_SOURCES, i => 0), Empty(), seq(|p.contexts|, i => FreshContext()), p.devNum)
  }

  function Step(p: State, e: Event): State {
    match e
    case Wire(s, fired) => p.(pending := With(p.pending, s, fired))
    case Ask(ctx) => if ctx < |p.contexts| then AfterAsk(p, ctx) else p
    case ReadAt(addr) => AfterLoad(p, addr)
    case WriteAt(addr, v) => AfterStore(p, addr, v)
    case ResetAll => AfterReset(p)
  }

  /** The source GetInterrupt selects in this step; 0 for every other event. */
  function Selects(p: State, e: Event): Source {
    if e.Ask? && e.ctx < |p.contexts| then Best(p, p.contexts[e.ctx]) else 0
  }

  /** The event gives source `s` of context `ctx` back: its completion, or a reset. */
  predicate Releases(p: State, e: Event, ctx: nat, s: Source) {
    e == ResetAll || (e.WriteAt? && RegisterAt(p, e.addr) == Claim(ctx) && e.v == s)
  }

  predicate HeldBy(p: State, ctx: nat, s: Source) { ctx < |p.contexts| && Has(p.contexts[ctx].claimed, s) }

  lemma SelectsUnclaimed(p: State, c: Context)
    requires Best(p, c) != 0
    ensures Candidate(p, c, Best(p, c)) && !Has(c.claimed, Best(p, c))
  {
    PickIsBest(p, c, p.devNum);
  }

  /** A source that could be reported to the context, field by field. */
  lemma CandidateMeans(p: State, c: Context, s: nat)
    requires s < p.devNum
    ensures Candidate(p, c, s) <==>
            && p.priority[s] > 0 && p.priority[s] >= c.threshold
            && p.pending[s / 32][s % 32] && c.enable[s / 32][s % 32] && !c.claimed[s / 32][s % 32]
  {
  }

  /**
   GetInterrupt, from the registers alone: what it latches is the lowest-numbered source of highest priority among
   those with a priority above 0 and not below the threshold that are pending, enabled and not claimed, or 0.
   */
  lemma AskEffect(p: State, ctx: nat, c: Context, b: Source, ready: set<nat>)
    requires ctx < |p.contexts| && c == p.contexts[ctx] && b == Step(p, Ask(ctx)).contexts[ctx].claim
    requires forall s: nat :: s in ready <==>
               && s < p.devNum && p.priority[s] > 0 && p.priority[s] >= c.threshold
               && p.pending[s / 32][s % 32] && c.enable[s / 32][s % 32] && !c.claimed[s / 32][s % 32]
    ensures Step(p, Ask(ctx)) == p.(contexts := p.contexts[ctx := c.(claim := b)]) && Selects(p, Ask(ctx)) == b
    ensures ready == {} ==> b == 0
    ensures ready != {} ==> b in ready && forall s :: s in ready ==> p.priority[s] < p.priority[b] || (p.priority[s] == p.priority[b] && b <= s)
  {
    PickIsBest(p, c, p.devNum);
    forall s: nat ensures s in ready <==> Candidate(p, c, s) {
      if s < p.devNum { CandidateMeans(p, c, s); }
    }
    ReadyBest(p, c, b, ready);
  }

  lemma ReadyBest(p: State, c: Context, b: nat, ready: set<nat>)
    requires IsBest(p, c, p.devNum, b) && forall s: nat :: s in ready <==> Candidate(p, c, s)
    ensures ready == {} ==> b == 0
    ensures ready != {} ==> b in ready
    ensures forall s :: s in ready ==> s < p.devNum
    ensures forall s :: s in ready ==> b in ready && (p.priority[s] < p.priority[b] || (p.priority[s] == p.priority[b] && b <= s))
  {
    if ready != {} {
      var s :| s in ready;
      assert Candidate(p, c, s);
    }
    forall s | s in ready ensures s < p.devNum { assert Candidate(p, c, s); }
  }

  /** After a reset every register reads 0, nothing is claimed, and the register map is the same. */
  lemma ResetEffect(p: State, r: Register, ctx: nat, s: Source)
    requires Exists(p, r)
    ensures var q := Step(p, ResetAll);
            && q.devNum == p.devNum && |q.contexts| == |p.contexts| && Exists(q, r) && ReadReg(q, r) == 0 && !HeldBy(q, ctx, s)
  {
    ZeroWord();
  }

  lemma ZeroWord()
    ensures FromWord(Zero32()) == 0
  {
    ZeroValue(Zero32());
  }

  lemma {:induction false} ZeroValue(w: seq<bool>)
    requires forall i :: 0 <= i < |w| ==> !w[i]
    ensures BitWords.Value(w) == 0
  {
    if w != [] { ZeroValue(w[1..]); }
  }

  lemma StepKeepsClaim(p: State, e: Event, ctx: nat, s: Source)
    requires HeldBy(p, ctx, s) && !Releases(p, e, ctx, s)
    ensures HeldBy(Step(p, e), ctx, s)
    ensures forall addr :: RegisterAt(Step(p, e), addr) == RegisterAt(p, addr)
  {
    match e
    case Wire(t, fired) =>
    case Ask(c) =>
    case ReadAt(addr) =>
      var r := RegisterAt(p, addr);
      RegisterExists(p, addr);
      if r.Claim? { WithHas(p.contexts[r.ctx].claimed, p.contexts[r.ctx].claim, true, s); }
    case WriteAt(addr, v) =>
      var r := RegisterAt(p, addr);
      RegisterExists(p, addr);
      if r.Claim? && v < p.devNum { WithHas(p.contexts[r.ctx].claimed, v, false, s); }
  }

  predicate NeverReleased(p: State, es: seq<Event>, ctx: nat, s: Source) {
    forall i :: 0 <= i < |es| ==> !Releases(p, es[i], ctx, s)
  }

  /**
   Exclusivity.  While a context holds a source, whatever wires fire, registers are written and other contexts
   claim, GetInterrupt on that context never selects the source again until the context completes it or the
   controller is reset.
   */
  lemma {:induction false} Exclusive(p: State, es: seq<Event>, ctx: nat, s: Source)
    requires HeldBy(p, ctx, s) && s != 0 && NeverReleased(p, es, ctx, s)
    ensures HeldBy(Fold<State, Event>(Step, p, es), ctx, s)
    ensures forall i :: 0 <= i < |es| && es[i] == Ask(ctx) ==> Trace<State, Event, Source>(Step, Selects, p, es)[i] != s
    decreases |es|
  {
    if es != [] {
      StepKeepsClaim(p, es[0], ctx, s);
      Exclusive(Step(p, es[0]), es[1..], ctx, s);
      if es[0] == Ask(ctx) && Best(p, p.contexts[ctx]) != 0 { SelectsUnclaimed(p, p.contexts[ctx]); }
      var rest := Trace<State, Event, Source>(Step, Selects, Step(p, es[0]), es[1..]);
      forall i | 0 <= i < |es| && es[i] == Ask(ctx) ensures Trace<State, Event, Source>(Step, Selects, p, es)[i] != s {
        if i > 0 { assert es[1..][i - 1] == es[i] && rest[i - 1] != s; }
      }
    }
  }

  /** Reading the claim register takes hold of the source it shows. */
  lemma ClaimHolds(p: State, addr: Aligned, ctx: nat)
    requires RegisterAt(p, addr) == Claim(ctx)
    ensures Load(p, addr) == Some(p.contexts[ctx].claim) && HeldBy(AfterLoad(p, addr), ctx, p.contexts[ctx].claim)
  {
    RegisterExists(p, addr);
    WithHas(p.contexts[ctx].claimed, p.contexts[ctx].claim, true, p.contexts[ctx].claim);
  }

  /** Completion is accepted exactly for sources that exist, and releases that source and nothing else. */
  lemma CompleteEffect(p: State, addr: Aligned, ctx: nat, v: Half, c: Context)
    requires RegisterAt(p, addr) == Claim(ctx) && ctx < |p.contexts| && c == p.contexts[ctx]
    ensures StoreOk(p, addr, v) <==> v < p.devNum
    ensures v >= p.devNum ==> AfterStore(p, addr, v) == p
    ensures v < p.devNum ==>
              var d := AfterStore(p, addr, v).contexts[ctx];
              && AfterStore(p, addr, v) == p.(contexts := p.contexts[ctx := c.(claimed := d.claimed)])
              && forall s: Source :: Has(d.claimed, s) <==> Has(c.claimed, s) && s != v
  {
    RegisterExists(p, addr);
    if v < p.devNum {
      forall s: Source ensures Has(With(c.claimed, v, false), s) <==> Has(c.claimed, s) && s != v { WithHas(c.claimed, v, false, s); }
    }
  }

  lemma WithBack(g: Group, s: Source)
    requires !Has(g, s)
    ensures With(With(g, s, true), s, false) == g
  {
    var w, m := g[s / 32], Mask(s % 32);
    assert And32(Or32(w, m), Not32(m)) == w;
  }

  /** Completing the source just claimed undoes the claim: the controller is as before, provided it was not held already. */
  lemma CompleteUndoesClaim(p: State, addr: Aligned, ctx: nat)
    requires RegisterAt(p, addr) == Claim(ctx) && p.contexts[ctx].claim < p.devNum
    requires !HeldBy(p, ctx, p.contexts[ctx].claim)
    ensures AfterStore(AfterLoad(p, addr), addr, p.contexts[ctx].claim) == p
  {
    RegisterExists(p, addr);
    WithBack(p.contexts[ctx].claimed, p.contexts[ctx].claim);
    assert RegisterAt(AfterLoad(p, addr), addr) == Claim(ctx);
  }

  // ----- source 0 -----

  /** The controller of one hart without S mode and one device. */
  function OneDevice(): State {
    Plic(seq(MAX_SOURCES, i => 0), Empty(), [FreshContext().(mmode := true)], 2)
  }

  /** Source 0 gets priority 7, source 1 priority 1, both are enabled, and both fire. */
  const BOTH_FIRE: seq<Event> := [WriteAt(0, 7), WriteAt(4, 1), WriteAt(0x2000, 3), Wire(0, true), Wire(1, true)]

  lemma FoldFive<S, X>(step: (S, X) -> S, s: S, xs: seq<X>)
    requires |xs| == 5
    ensures Fold(step, s, xs) == step(step(step(step(step(s, xs[0]), xs[1]), xs[2]), xs[3]), xs[4])
  {
    var s1 := step(s, xs[0]);
    var s2 := step(s1, xs[1]);
    var s3 := step(s2, xs[2]);
    var s4 := step(s3, xs[3]);
    assert Fold(step, s, xs) == Fold(step, s1, xs[1..]);
    assert Fold(step, s1, xs[1..]) == Fold(step, s2, xs[2..]) by { assert xs[1..][1..] == xs[2..]; }
    assert Fold(step, s2, xs[2..]) == Fold(step, s3, xs[3..]) by { assert xs[2..][1..] == xs[3..]; }
    assert Fold(step, s3, xs[3..]) == Fold(step, s4, xs[4..]) by { assert xs[3..][1..] == xs[4..]; }
    assert xs[4..][1..] == [];
  }

  /** The registers after the three writes. */
  lemma Written(p: State)
    requires p == Step(Step(Step(OneDevice(), WriteAt(0, 7)), WriteAt(4, 1)), WriteAt(0x2000, 3))
    ensures p == OneDevice().(priority := p.priority, contexts := p.contexts) && |p.contexts| == 1
    ensures p.priority[0] == 7 && p.priority[1] == 1
    ensures p.contexts[0] == OneDevice().contexts[0].(enable := Empty()[0 := ToWord(3)])
  {
    var p1, p2 := Step(OneDevice(), WriteAt(0, 7)), Step(Step(OneDevice(), WriteAt(0, 7)), WriteAt(4, 1));
    assert RegisterAt(OneDevice(), 0) == Priority(0);
    assert p1 == OneDevice().(priority := OneDevice().priority[0 := 7]);
    assert RegisterAt(p1, 4) == Priority(1);
    assert p2 == p1.(priority := p1.priority[1 := 1]);
    assert RegisterAt(p2, 0x2000) == Enable(0, 0);
  }

  /** In that run source 0 wins the selection, so the pending and enabled source 1 is not reported. */
  lemma SourceZeroWins() returns (p: State)
    ensures p == Fold<State, Event>(Step, OneDevice(), BOTH_FIRE) && |p.contexts| == 1
    ensures Candidate(p, p.contexts[0], 1) && Best(p, p.contexts[0]) == 0
  {
    p := Fold<State, Event>(Step, OneDevice(), BOTH_FIRE);
    FoldFive<State, Event>(Step, OneDevice(), BOTH_FIRE);
    var q := Step(Step(Step(OneDevice(), WriteAt(0, 7)), WriteAt(4, 1)), WriteAt(0x2000, 3));
    Written(q);
    var both := With(With(Empty(), 0, true), 1, true);
    BothPending(both);
    assert p == q.(pending := both);
    BothEnabled(q.contexts[0].enable);
    ZeroFirst(p, p.contexts[0]);
  }

  lemma BothPending(g: Group)
    requires g == With(With(Empty(), 0, true), 1, true)
    ensures Has(g, 0) && Has(g, 1)
  {
    WithHas(Empty(), 0, true, 0);
    WithHas(With(Empty(), 0, true), 1, true, 0);
    WithHas(With(Empty(), 0, true), 1, true, 1);
  }

  lemma BothEnabled(g: Group)
    requires g == Empty()[0 := ToWord(3)]
    ensures Has(g, 0) && Has(g, 1)
  {
    LowDigits(3);
  }

  lemma LowDigits(v: Half)
    ensures ToWord(v)[0] == (v % 2 == 1) && ToWord(v)[1] == (v / 2 % 2 == 1)
  {
    var rest := BitWords.Digits(v / 2, 31);
    assert rest[0] == (v / 2 % 2 == 1);
  }

  lemma ZeroFirst(p: State, c: Context)
    requires p.devNum == 2 && Candidate(p, c, 0) && p.priority[1] < p.priority[0]
    ensures Best(p, c) == 0
  {
    assert PickBelow(p, c, 1) == Pick(p.priority[0], 0);
  }
}
