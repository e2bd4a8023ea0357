/** Runs of an arbitrary state machine, with a trace of what each step did. */
module Runs {

  function Fold<S, X>(step: (S, X) -> S, s: S, xs: seq<X>): S
    decreases |xs|
  {
    if xs == [] then s else Fold(step, step(s, xs[0]), xs[1..])
  }

  function Trace<S, X, E>(step: (S, X) -> S, event: (S, X) -> E, s: S, xs: seq<X>): (es: seq<E>)
    ensures |es| == |xs|
    decreases |xs|
  {
    if xs == [] then [] else [event(s, xs[0])] + Trace(step, event, step(s, xs[0]), xs[1..])
  }

  lemma {:induction false} FoldSnoc<S, X>(step: (S, X) -> S, s: S, xs: seq<X>, x: X)
    ensures Fold(step, s, xs + [x]) == step(Fold(step, s, xs), x)
    decreases |xs|
  {
    if xs == [] {
      assert xs + [x] == [x] && [x][1..] == [];
    } else {
      assert (xs + [x])[1..] == xs[1..] + [x];
      FoldSnoc(step, step(s, xs[0]), xs[1..], x);
    }
  }

  lemma {:induction false} FoldAppend<S, X>(step: (S, X) -> S, s: S, xs: seq<X>, ys: seq<X>)
    ensures Fold(step, s, xs + ys) == Fold(step, Fold(step, s, xs), ys)
    decreases |xs|
  {
    if xs == [] {
      assert xs + ys == ys;
    } else {
      assert (xs + ys)[1..] == xs[1..] + ys;
      FoldAppend(step, step(s, xs[0]), xs[1..], ys);
    }
  }

  lemma {:induction false} TraceAt<S, X, E>(step: (S, X) -> S, event: (S, X) -> E, s: S, xs: seq<X>, k: nat)
    requires k < |xs|
    ensures Trace(step, event, s, xs)[k] == event(Fold(step, s, xs[..k]), xs[k])
    ensures Trace(step, event, s, xs)[..k] == Trace(step, event, s, xs[..k])
    decreases |xs|
  {
    if k > 0 {
      var s1 := step(s, xs[0]);
      TraceAt(step, event, s1, xs[1..], k - 1);
      assert xs[1..][..k - 1] == xs[..k][1..];
      assert Trace(step, event, s, xs)[..k] == [event(s, xs[0])] + Trace(step, event, s1, xs[1..])[..k - 1];
    }
  }

  lemma {:induction false} TraceSnoc<S, X, E>(step: (S, X) -> S, event: (S, X) -> E, s: S, xs: seq<X>, x: X)
    ensures Trace(step, event, s, xs + [x]) == Trace(step, event, s, xs) + [event(Fold(step, s, xs), x)]
  {
    TraceAt(step, event, s, xs + [x], |xs|);
    assert (xs + [x])[..|xs|] == xs;
    var t := Trace(step, event, s, xs + [x]);
    assert t == t[..|xs|] + [t[|xs|]];
  }

  /** An invariant relating the state to the trace so far holds after every run. */
  lemma {:induction false} Invariant<S(!new), X(!new), E(!new)>(
      step: (S, X) -> S, event: (S, X) -> E, inv: (S, seq<E>) -> bool, s: S, xs: seq<X>)
    requires inv(s, [])
    requires forall t: S, es: seq<E>, x: X {:trigger inv(t, es), step(t, x)} :: inv(t, es) ==> inv(step(t, x), es + [event(t, x)])
    ensures inv(Fold(step, s, xs), Trace(step, event, s, xs))
    decreases |xs|
  {
    if xs != [] {
      var n := |xs| - 1;
      assert xs[..n] + [xs[n]] == xs;
      Invariant(step, event, inv, s, xs[..n]);
      FoldSnoc(step, s, xs[..n], xs[n]);
      TraceSnoc(step, event, s, xs[..n], xs[n]);
    }
  }
}
