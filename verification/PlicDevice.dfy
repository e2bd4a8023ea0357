/** The class Plic of src/device/plic.cc, changing its tables in place, proved against Plic.dfy. */
module PlicDevice {
  import opened Words
  import P = Plic

  class Device {
    const devNum: nat
    const priority: array<Half>
    const pending: array<P.Word32>
    var contexts: array<P.Context>

    ghost predicate Ready()
      reads this
    {
      priority.Length == P.MAX_SOURCES && pending.Length == P.WORDS && 1 <= devNum <= P.MAX_SOURCES
    }

    ghost function Abs(): P.State
      reads this, priority, pending, contexts
      requires Ready()
    {
      P.Plic(priority[..], pending[..], contexts[..], devNum)
    }

    constructor (cores: nat, sMode: bool, deviceNum: nat)
      requires deviceNum < P.MAX_SOURCES
      ensures Ready() && fresh(priority) && fresh(pending) && fresh(contexts)
      ensures Abs() == P.Plic(seq(P.MAX_SOURCES, i => 0), P.Empty(),
                              seq(if sMode then 2 * cores else cores,
                                  i requires i >= 0 => P.FreshContext().(id := i, mmode := !sMode || i % 2 == 0)), deviceNum + 1)
    {
      devNum := deviceNum + 1;
      priority := new Half[P.MAX_SOURCES](i => 0);
      pending := new P.Word32[P.WORDS](i => P.Zero32());
      var n := if sMode then 2 * cores else cores;
      contexts := new P.Context[n](i => P.FreshContext());
      new;
      var i := 0;
      while i < contexts.Length
        modifies contexts
        invariant 0 <= i <= n == contexts.Length
        invariant forall k :: 0 <= k < i ==> contexts[k] == P.FreshContext().(id := k, mmode := !sMode || k % 2 == 0)
        invariant forall k :: i <= k < n ==> contexts[k] == P.FreshContext()
      {
        contexts[i] := contexts[i].(id := i);
        contexts[i] := contexts[i].(mmode := if sMode then i % 2 == 0 else true);
        i := i + 1;
      }
    }

    method UpdateExt(s: P.Source, fired: bool)
      requires Ready()
      modifies pending
      ensures Ready() && Abs() == P.Step(old(Abs()), P.Wire(s, fired))
    {
      var index, mask := s / 32, P.Mask(s % 32);
      ghost var w := pending[index];
      pending[index] := P.And32(pending[index], P.Not32(mask));
      if fired {
        pending[index] := P.Or32(pending[index], mask);
        assert P.Or32(P.And32(w, P.Not32(mask)), mask) == P.Or32(w, mask);
      }
      assert pending[..] == P.With(old(pending[..]), s, fired);
    }

    method GetInterrupt(ctx: nat) returns (r: bool)
      requires Ready() && ctx < contexts.Length
      modifies contexts
      ensures Ready() && Abs() == P.Step(old(Abs()), P.Ask(ctx))
      ensures r <==> P.Selects(old(Abs()), P.Ask(ctx)) != 0
    {
      var c := contexts[ctx];
      var top: Half := 0;
      var best: P.Source := 0;
      var i := 0;
      while i < devNum
        modifies {}
        invariant 0 <= i <= devNum
        invariant P.Pick(top, best) == P.PickBelow(Abs(), c, i)
      {
        P.TestBit(pending[..], i);
        P.TestBit(c.enable, i);
        P.TestBit(c.claimed, i);
        var index, mask := i / 32, P.Mask(i % 32);
        if priority[i] >= c.threshold && P.And32(pending[index], mask) != P.Zero32()
          && P.And32(c.enable[index], mask) != P.Zero32() && P.And32(c.claimed[index], mask) == P.Zero32() {
          if top < priority[i] {
            top := priority[i];
            best := i;
          }
        }
        i := i + 1;
      }
      contexts[ctx] := c.(claim := best);
      r := best != 0;
      assert contexts[..] == old(contexts[..])[ctx := c.(claim := best)];
    }

    method Load(addr: P.Aligned) returns (v: Option<Half>)
      requires Ready()
      modifies contexts
      ensures Ready() && v == P.Load(old(Abs()), addr) && Abs() == P.AfterLoad(old(Abs()), addr)
    {
      if addr < P.PENDING_BASE {
        if addr / 4 > devNum - 1 {
          return None;
        }
        return Some(priority[addr / 4]);
      }
      if P.PENDING_BASE <= addr < P.PENDING_END {
        var k := (addr - P.PENDING_BASE) / 4;
        if k * 32 > devNum - 1 {
          return None;
        }
        return Some(P.FromWord(pending[k]));
      }
      if P.ENABLE_BASE <= addr < P.ENABLE_END {
        var ctx, k := (addr - P.ENABLE_BASE) / 0x80, addr % 0x80 / 4;
        if ctx >= contexts.Length || k * 32 > devNum - 1 {
          return None;
        }
        return Some(P.FromWord(contexts[ctx].enable[k]));
      }
      if P.CONTEXT_BASE <= addr < P.CONTEXT_END {
        v := LoadContext((addr - P.CONTEXT_BASE) / 0x1000, addr % 0x1000, addr);
        return;
      }
      v := None;
    }

    method LoadContext(ctx: nat, off: nat, ghost addr: P.Aligned) returns (v: Option<Half>)
      requires Ready() && P.CONTEXT_BASE <= addr < P.CONTEXT_END
      requires ctx == (addr - P.CONTEXT_BASE) / 0x1000 && off == addr % 0x1000
      modifies contexts
      ensures Ready() && v == P.Load(old(Abs()), addr) && Abs() == P.AfterLoad(old(Abs()), addr)
    {
      if ctx >= contexts.Length {
        return None;
      }
      if off == 0 {
        return Some(contexts[ctx].threshold);
      }
      if off == 4 {
        var claim := contexts[ctx].claim;
        v := Some(claim);
        var c := contexts[ctx];
        contexts[ctx] := c.(claimed := c.claimed[claim / 32 := P.Or32(c.claimed[claim / 32], P.Mask(claim % 32))]);
        assert contexts[..] == old(contexts[..])[ctx := c.(claimed := P.With(c.claimed, claim, true))];
        return;
      }
      v := None;
    }

    method Store(addr: P.Aligned, v: Half) returns (ok: bool)
      requires Ready()
      modifies priority, pending, contexts
      ensures Ready() && ok == P.StoreOk(old(Abs()), addr, v) && Abs() == P.AfterStore(old(Abs()), addr, v)
    {
      if addr < P.PENDING_BASE {
        if addr / 4 > devNum - 1 {
          return false;
        }
        priority[addr / 4] := v;
        assert priority[..] == old(priority[..])[addr / 4 := v];
        return true;
      }
      if P.PENDING_BASE <= addr < P.PENDING_END {
        var k := (addr - P.PENDING_BASE) / 4;
        if k * 32 > devNum - 1 {
          return false;
        }
        pending[k] := P.ToWord(v);
        assert pending[..] == old(pending[..])[k := P.ToWord(v)];
        return true;
      }
      if P.ENABLE_BASE <= addr < P.ENABLE_END {
        var ctx, k := (addr - P.ENABLE_BASE) / 0x80, addr % 0x80 / 4;
        if ctx >= contexts.Length || k * 32 > devNum - 1 {
          return false;
        }
        var c := contexts[ctx];
        contexts[ctx] := c.(enable := c.enable[k := P.ToWord(v)]);
        assert contexts[..] == old(contexts[..])[ctx := c.(enable := c.enable[k := P.ToWord(v)])];
        return true;
      }
      if P.CONTEXT_BASE <= addr < P.CONTEXT_END {
        ok := StoreContext((addr - P.CONTEXT_BASE) / 0x1000, addr % 0x1000, v, addr);
        return;
      }
      ok := false;
    }

    method StoreContext(ctx: nat, off: nat, v: Half, ghost addr: P.Aligned) returns (ok: bool)
      requires Ready() && P.CONTEXT_BASE <= addr < P.CONTEXT_END
      requires ctx == (addr - P.CONTEXT_BASE) / 0x1000 && off == addr % 0x1000
      modifies contexts
      ensures Ready() && ok == P.StoreOk(old(Abs()), addr, v) && Abs() == P.AfterStore(old(Abs()), addr, v)
    {
      if ctx >= contexts.Length {
        return false;
      }
      var c := contexts[ctx];
      if off == 0 {
        contexts[ctx] := c.(threshold := v);
        assert contexts[..] == old(contexts[..])[ctx := c.(threshold := v)];
        return true;
      }
      if off == 4 {
        if v > devNum - 1 {
          return false;
        }
        contexts[ctx] := c.(claimed := c.claimed[v / 32 := P.And32(c.claimed[v / 32], P.Not32(P.Mask(v % 32)))]);
        assert contexts[..] == old(contexts[..])[ctx := c.(claimed := P.With(c.claimed, v, false))];
        return true;
      }
      ok := false;
    }

    method Reset()
      requires Ready()
      modifies priority, pending, contexts
      ensures Ready() && Abs() == P.Step(old(Abs()), P.ResetAll)
    {
      forall i | 0 <= i < priority.Length { priority[i] := 0; }
      forall i | 0 <= i < pending.Length { pending[i] := P.Zero32(); }
      forall i | 0 <= i < contexts.Length { contexts[i] := P.FreshContext(); }
      assert priority[..] == seq(P.MAX_SOURCES, i => 0);
      assert pending[..] == P.Empty();
      assert contexts[..] == seq(old(contexts.Length), i => P.FreshContext());
    }
  }
}
