/**
 The reservation protocol of LR and SC over whole runs (AmoLrExec and AmoScExec of
 src/cpu/executor.cc; section 8.2 of the RISC-V Unprivileged ISA).
 */
module LrSc {
  import opened Words
  import opened Isa
  import opened Traps
  import opened Hart
  import opened Exec
  import opened Ticks
  import opened ExecLaws
  import opened Runs

  /** What an instruction does to the reservation; instructions rejected before that do nothing. */
  datatype Event = Nothing | Lr(addr: Word, size: nat) | Sc(addr: Word, size: nat)

  function EventOf<G>(h: Hart<G>, info: Insn): Event {
    var addr := h.xregs[info.rs1];
    if info.op != OpAmo || Misaligned(addr, info.memSize) then Nothing
    else if info.token in {LR_W, LR_D} && h.xregs[info.rs2] == 0 then Lr(addr, info.memSize)
    else if info.token in {SC_W, SC_D} then Sc(addr, info.memSize)
    else Nothing
  }

  /** The reservation is live for this hart. */
  predicate Live<G>(h: Hart<G>) { h.resv.valid && h.resv.hart == h.hartId }

  ghost predicate ResvOk<G>(h: Hart<G>, info: Insn, s: Step<G>) {
    && s.h.hartId == h.hartId
    && match EventOf(h, info)
       case Nothing => s.h.resv == h.resv
       case Lr(a, n) => s.h.resv == Reservation(a, n, true, h.hartId)
       case Sc(a, n) => !Live(s.h) && (s.trap.ty == NoTrap ==> s.h.xregs[info.rd] == if Reserves(h, a, n) then 0 else 1)
  }

  ghost predicate ResvLawful<G(!new)>(w: World<G>) {
    forall h, info, time {:trigger w.exec(h, info, time)} :: ResvOk(h, info, w.exec(h, info, time))
  }

  // ----- the executor of Exec.dfy -----

  lemma SystemResv<G>(m: Memory<G>, h: Hart<G>, info: Insn, time: Word)
    ensures System(m, h, info, time).h.resv == h.resv && System(m, h, info, time).h.hartId == h.hartId
  {
  }

  lemma OtherResv<G>(m: Memory<G>, h: Hart<G>, info: Insn, time: Word, s: Step<G>)
    requires info.op != OpAmo && s == Execute(m, h, info, time)
    ensures s.h.resv == h.resv && s.h.hartId == h.hartId
  {
    if info.op == OpSystem {
      assert s == System(m, h, info, time);
      SystemResv(m, h, info, time);
    }
  }

  lemma AtomicResv<G>(m: Memory<G>, h: Hart<G>, info: Insn, time: Word)
    requires info.op == OpAmo
    ensures ResvOk(h, info, Atomic(m, h, info))
  {
  }

  lemma ExecuteResv<G>(m: Memory<G>, h: Hart<G>, info: Insn, time: Word)
    ensures ResvOk(h, info, Execute(m, h, info, time))
  {
    if info.op == OpAmo { AtomicResv(m, h, info, time); } else { OtherResv(m, h, info, time, Execute(m, h, info, time)); }
  }

  lemma ExecutorResvLawful<G(!new)>(decode: (Half, Word) -> Insn, m: Memory<G>)
    ensures ResvLawful(WorldOf(decode, m))
  {
    forall h, info, time ensures ResvOk(h, info, WorldOf(decode, m).exec(h, info, time)) {
      ExecuteResv(m, h, info, time);
    }
  }

  // ----- one tick -----

  /** The instruction this tick hands to the executor, and the hart it runs on. */
  datatype Issue<G> = Idle | Issue(h: Hart<G>, info: Insn)

  function Issued<G>(w: World<G>, h: Hart<G>, x: Input): Issue<G> {
    var h0 := Sample(h, x);
    if h0.wfi then Idle
    else
      var l := w.fetch(h0.mem, ViewOf(h0), h0.pc, 4);
      var info := w.decode(Wrap32(l.value), h0.pc);
      if l.trap.ty != NoTrap || info.token == UNKNOWN then Idle
      else Issue(h0.(mem := l.mem, pc := Wrap64(h0.pc + info.size)), info)
  }

  function TickEvent<G>(w: World<G>, h: Hart<G>, x: Input): Event {
    match Issued(w, h, x)
    case Idle => Nothing
    case Issue(h1, info) => EventOf(h1, info)
  }

  /** This tick's SC completes and writes 0 to its destination. */
  predicate ScSucceeds<G>(w: World<G>, h: Hart<G>, x: Input) {
    match Issued(w, h, x)
    case Idle => false
    case Issue(h1, info) =>
      var s := w.exec(h1, info, x.time);
      EventOf(h1, info).Sc? && s.trap.ty == NoTrap && s.h.xregs[info.rd] == 0
  }

  lemma OperateResv<G(!new)>(w: World<G>, h: Hart<G>, x: Input, s: Step<G>)
    requires ResvLawful(w) && s == Operate(w, Sample(h, x), x.time)
    ensures s.h.hartId == h.hartId
    ensures match TickEvent(w, h, x)
            case Nothing => s.h.resv == h.resv
            case Lr(a, n) => s.h.resv == Reservation(a, n, true, h.hartId)
            case Sc(a, n) => !Live(s.h) && (ScSucceeds(w, h, x) ==> Reserves(h, a, n))
  {
    var issue := Issued(w, h, x);
    if issue.Issue? {
      assert ResvOk(issue.h, issue.info, w.exec(issue.h, issue.info, x.time));
    }
  }

  lemma ScNeedsReservation<G(!new)>(w: World<G>, h: Hart<G>, x: Input)
    requires ResvLawful(w) && ScSucceeds(w, h, x)
    ensures var e := TickEvent(w, h, x); e.Sc? && Reserves(h, e.addr, e.size)
  {
    OperateResv(w, h, x, Operate(w, Sample(h, x), x.time));
  }

  lemma TickResv<G(!new)>(w: World<G>, h: Hart<G>, x: Input)
    requires ResvLawful(w)
    ensures var r := Tick(w, h, x);
            && r.hartId == h.hartId
            && match TickEvent(w, h, x)
               case Nothing => r.resv == h.resv
               case Lr(a, n) => r.resv == Reservation(a, n, true, h.hartId)
               case Sc(a, n) => !Live(r) && (ScSucceeds(w, h, x) ==> Reserves(h, a, n))
  {
    var h0 := Sample(h, x);
    var s := Operate(w, h0, x.time);
    OperateResv(w, h, x, s);
    var h2 := HandleTrap(s.h, s.trap, h0.pc);
    TrapsKeep(s.h, s.trap, h0.pc, h2);
    TickIs(w, h, x, h0, s, h2);
  }

  // ----- runs -----

  function EventOfTick<G>(w: World<G>): (Hart<G>, Input) -> Event { (h, x) => TickEvent(w, h, x) }

  /** The reservation events of a run, tick by tick. */
  function Events<G>(w: World<G>, h: Hart<G>, xs: seq<Input>): seq<Event> { Trace(TickOf(w), EventOfTick(w), h, xs) }

  /** The latest LR or SC that was not rejected. */
  function LastOf(es: seq<Event>): Event {
    if es == [] then Nothing
    else if es[|es| - 1] != Nothing then es[|es| - 1]
    else LastOf(es[..|es| - 1])
  }

  lemma LastSnoc(es: seq<Event>, e: Event)
    ensures LastOf(es + [e]) == if e != Nothing then e else LastOf(es)
  {
    assert (es + [e])[..|es|] == es;
  }

  ghost predicate Tracks<G>(h: Hart<G>, id: Half, last: Event) {
    h.hartId == id && (Live(h) ==> last == Lr(h.resv.addr, h.resv.size))
  }

  lemma TickTracks<G(!new)>(w: World<G>, h: Hart<G>, x: Input, id: Half, es: seq<Event>)
    requires ResvLawful(w) && Tracks(h, id, LastOf(es))
    ensures Tracks(Tick(w, h, x), id, LastOf(es + [TickEvent(w, h, x)]))
  {
    LastSnoc(es, TickEvent(w, h, x));
    TickResv(w, h, x);
  }

  /** A live reservation is always that of the latest event, which was an LR. */
  lemma LiveTracksLast<G(!new)>(w: World<G>, h: Hart<G>, xs: seq<Input>)
    requires ResvLawful(w) && !Live(h)
    ensures Tracks(Fold(TickOf(w), h, xs), h.hartId, LastOf(Events(w, h, xs)))
  {
    var id := h.hartId;
    var inv := (r: Hart<G>, es: seq<Event>) => Tracks(r, id, LastOf(es));
    forall r, es, x | inv(r, es) ensures inv(TickOf(w)(r, x), es + [EventOfTick(w)(r, x)]) {
      TickTracks(w, r, x, id, es);
    }
    Invariant(TickOf(w), EventOfTick(w), inv, h, xs);
  }

  /**
   An SC that writes 0 is paired: the latest LR or SC before it that was not rejected is an LR of exactly its
   address and width, on this hart.
   */
  lemma ScIsPaired<G(!new)>(w: World<G>, h: Hart<G>, xs: seq<Input>, x: Input)
    requires ResvLawful(w) && !Live(h) && ScSucceeds(w, Fold(TickOf(w), h, xs), x)
    ensures var e := TickEvent(w, Fold(TickOf(w), h, xs), x); e.Sc? && LastOf(Events(w, h, xs)) == Lr(e.addr, e.size)
  {
    LiveTracksLast(w, h, xs);
    ScNeedsReservation(w, Fold(TickOf(w), h, xs), x);
  }

  lemma {:induction false} LastWitness(es: seq<Event>) returns (k: nat)
    requires LastOf(es) != Nothing
    ensures k < |es| && es[k] == LastOf(es) && forall l :: k < l < |es| ==> es[l] == Nothing
  {
    var n := |es| - 1;
    if es[n] != Nothing {
      k := n;
    } else {
      k := LastWitness(es[..n]);
    }
  }

  /** Between two successful SCs of a run there is an LR of the second one's address and width. */
  lemma OneScPerLr<G(!new)>(w: World<G>, h: Hart<G>, xs: seq<Input>, i: nat, j: nat) returns (k: nat)
    requires ResvLawful(w) && !Live(h) && i < j < |xs|
    requires ScSucceeds(w, Fold(TickOf(w), h, xs[..i]), xs[i]) && ScSucceeds(w, Fold(TickOf(w), h, xs[..j]), xs[j])
    ensures var es := Events(w, h, xs);
            i < k < j && es[j].Sc? && es[k] == Lr(es[j].addr, es[j].size) && forall l :: k < l < j ==> es[l] == Nothing
  {
    ScIsPaired(w, h, xs[..i], xs[i]);
    ScIsPaired(w, h, xs[..j], xs[j]);
    TraceAt(TickOf(w), EventOfTick(w), h, xs, i);
    TraceAt(TickOf(w), EventOfTick(w), h, xs, j);
    k := LastBefore(Events(w, h, xs), i, j);
  }

  lemma LastBefore(es: seq<Event>, i: nat, j: nat) returns (k: nat)
    requires i < j < |es| && es[i].Sc? && LastOf(es[..j]).Lr?
    ensures i < k < j && es[k] == LastOf(es[..j]) && forall l :: k < l < j ==> es[l] == Nothing
  {
    k := LastWitness(es[..j]);
    assert es[..j][i] == es[i];
    forall l | k < l < j ensures es[l] == Nothing {
      assert es[..j][l] == es[l];
    }
  }
}
