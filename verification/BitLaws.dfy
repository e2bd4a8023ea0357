/** Binary digits of numbers: what the bitwise operators of Words.dfy and the bit sequences of BitWords.dfy mean. */
module BitLaws {
  import opened Words
  import opened BitWords

  /** Binary digit `k` of `x`. */
  predicate BitAt(x: nat, k: nat)
    decreases k
  {
    if k == 0 then x % 2 == 1 else BitAt(x / 2, k - 1)
  }

  lemma {:induction false} ZeroBit(k: nat)
    ensures !BitAt(0, k)
    decreases k
  {
    if k > 0 { ZeroBit(k - 1); }
  }

  lemma {:induction false} AndBit(a: nat, b: nat, k: nat)
    ensures BitAt(And(a, b), k) <==> BitAt(a, k) && BitAt(b, k)
    decreases k
  {
    if a == 0 || b == 0 {
      ZeroBit(k);
    } else if k > 0 {
      AndBit(a / 2, b / 2, k - 1);
    }
  }

  lemma {:induction false} OrBit(a: nat, b: nat, k: nat)
    ensures BitAt(Or(a, b), k) <==> BitAt(a, k) || BitAt(b, k)
    decreases k
  {
    if a == 0 || b == 0 {
      ZeroBit(k);
    } else if k > 0 {
      OrBit(a / 2, b / 2, k - 1);
    }
  }

  lemma {:induction false} XorBit(a: nat, b: nat, k: nat)
    ensures BitAt(Xor(a, b), k) <==> BitAt(a, k) != BitAt(b, k)
    decreases k
  {
    if a == 0 || b == 0 {
      ZeroBit(k);
    } else if k > 0 {
      XorBit(a / 2, b / 2, k - 1);
    }
  }

  lemma HalfOfMod(x: nat, p: nat)
    requires p > 0
    ensures x % (2 * p) / 2 == x / 2 % p && x % (2 * p) % 2 == x % 2
  {
    var q, r := x / 2 / p, x / 2 % p;
    assert x == q * (2 * p) + (2 * r + x % 2) by {
      assert x / 2 == q * p + r;
      assert q * (2 * p) == 2 * (q * p);
    }
    DivUnique(x, 2 * p, q, 2 * r + x % 2);
  }

  /** Digits below `n` are those of the residue modulo 2^n. */
  lemma {:induction false} BitOfMod(x: nat, n: nat, k: nat)
    requires k < n
    ensures BitAt(x % Pow2(n), k) == BitAt(x, k)
    decreases n
  {
    HalfOfMod(x, Pow2(n - 1));
    if k > 0 { BitOfMod(x / 2, n - 1, k - 1); }
  }

  /** All the low digits set. */
  lemma {:induction false} AndOnes(a: nat, n: nat)
    requires a < Pow2(n)
    ensures And(a, Pow2(n) - 1) == a
    decreases n
  {
    if n > 0 && a > 0 {
      AndOnes(a / 2, n - 1);
      assert (Pow2(n) - 1) / 2 == Pow2(n - 1) - 1 && (Pow2(n) - 1) % 2 == 1;
    }
  }

  /** Masking with 2^64 - 2 makes a word even. */
  lemma EvenPart(a: Word)
    ensures And64(a, TWO64 - 2) == a - a % 2
  {
    if a > 0 {
      Pow2Sixty4();
      assert Pow2(64) == 2 * Pow2(63);
      AndOnes(a / 2, 63);
      assert (TWO64 - 2) / 2 == Pow2(63) - 1;
    }
  }

  // ----- sequences of bits -----

  lemma {:induction false} DigitAt(w: nat, n: nat, k: nat)
    requires k < n
    ensures Digits(w, n)[k] == BitAt(w, k)
    decreases n
  {
    if k > 0 { DigitAt(w / 2, n - 1, k - 1); }
  }

  lemma DoubleSum(low: nat, p: nat, high: nat)
    ensures 2 * (low + p * high) == 2 * low + 2 * p * high
  {
  }

  /** A number is its low digits and its high digits. */
  lemma {:induction false} ValueSplit(b: seq<bool>, k: nat)
    requires k <= |b|
    ensures Value(b) == Value(b[..k]) + Pow2(k) * Value(b[k..])
    decreases k
  {
    if k == 0 {
      assert b[..0] == [] && b[0..] == b;
    } else {
      ValueSplit(b[1..], k - 1);
      assert b[1..][..k - 1] == b[..k][1..] && b[1..][k - 1..] == b[k..];
      DoubleSum(Value(b[..k][1..]), Pow2(k - 1), Value(b[k..]));
    }
  }

  /** Setting a clear digit adds its weight. */
  lemma {:induction false} SetDigit(b: seq<bool>, k: nat)
    requires k < |b| && !b[k]
    ensures Value(b[k := true]) == Value(b) + Pow2(k)
    decreases k
  {
    var c := b[k := true];
    if k == 0 {
      assert c[1..] == b[1..];
    } else {
      SetDigit(b[1..], k - 1);
      assert c[1..] == b[1..][k - 1 := true];
    }
  }
}
