/**
 Words seen as 64 separate bits, least significant first: the reading the C++ bit-field
 structs (MstatusDesc, MipDesc, SatpDesc, ...) give to a uint64_t.
 */
module BitWords {
  import opened Words

  type Bits = b: seq<bool> | |b| == 64 witness seq(64, i => false)

  function Digit(b: bool): nat { if b then 1 else 0 }

  /** The number with binary digits `b`. */
  function Value(b: seq<bool>): nat {
    if b == [] then 0 else Digit(b[0]) + 2 * Value(b[1..])
  }

  /** The low `n` binary digits of `w`. */
  function Digits(w: nat, n: nat): (b: seq<bool>)
    ensures |b| == n
    decreases n
  {
    if n == 0 then [] else [w % 2 == 1] + Digits(w / 2, n - 1)
  }

  lemma {:induction false} ValueOfDigits(w: nat, n: nat)
    requires w < Pow2(n)
    ensures Value(Digits(w, n)) == w
    decreases n
  {
    if n > 0 {
      ValueOfDigits(w / 2, n - 1);
      assert Digits(w, n)[1..] == Digits(w / 2, n - 1);
    }
  }

  lemma {:induction false} DigitsOfValue(b: seq<bool>)
    ensures Value(b) < Pow2(|b|) && Digits(Value(b), |b|) == b
  {
    if b != [] {
      DigitsOfValue(b[1..]);
      assert Value(b) / 2 == Value(b[1..]) && (Value(b) % 2 == 1) == b[0];
      assert b == [b[0]] + b[1..];
    }
  }

  function ToBits(w: Word): Bits { Digits(w, 64) }

  function FromBits(b: Bits): Word {
    DigitsOfValue(b); Pow2Sixty4();
    Value(b)
  }

  lemma RoundTrip(w: Word)
    ensures FromBits(ToBits(w)) == w
  {
    Pow2Sixty4();
    ValueOfDigits(w, 64);
  }

  /** The bits of `val` under the mask, the bits of `was` elsewhere. */
  function Merge(was: Bits, val: Bits, mask: set<nat>): Bits {
    seq(64, i requires 0 <= i < 64 => if i in mask then val[i] else was[i])
  }

  /** The bits of `b` under the mask, zeros elsewhere. */
  function Masked(b: Bits, mask: set<nat>): Bits {
    seq(64, i requires 0 <= i < 64 => i in mask && b[i])
  }

  function AndBits(a: Bits, b: Bits): Bits { seq(64, i requires 0 <= i < 64 => a[i] && b[i]) }

  function OrBits(a: Bits, b: Bits): Bits { seq(64, i requires 0 <= i < 64 => a[i] || b[i]) }

  function ClearBits(a: Bits, b: Bits): Bits { seq(64, i requires 0 <= i < 64 => a[i] && !b[i]) }

  function NoBits(): Bits { seq(64, i => false) }
}
