/** Unsigned 32-bit words and the bitwise operators of C on them, defined on the
    binary expansion of a natural number. */
module Bits {

  const WORD_LIMIT: int := 0x1_0000_0000

  type Byte = x: int | 0 <= x < 256
  type Word = x: int | 0 <= x < 0x1_0000_0000

  /** Bit k of x. */
  predicate TestBit(x: nat, k: nat)
    decreases k
  {
    if k == 0 then x % 2 == 1 else TestBit(x / 2, k - 1)
  }

  /** 1 << k */
  function Pow2(k: nat): (r: nat)
    ensures r > 0
  {
    if k == 0 then 1 else 2 * Pow2(k - 1)
  }

  /** x | y */
  function Or(x: nat, y: nat): nat {
    if x == 0 then y
    else if y == 0 then x
    else 2 * Or(x / 2, y / 2) + (if x % 2 == 1 || y % 2 == 1 then 1 else 0)
  }

  /** x & y */
  function And(x: nat, y: nat): nat {
    if x == 0 || y == 0 then 0
    else 2 * And(x / 2, y / 2) + (if x % 2 == 1 && y % 2 == 1 then 1 else 0)
  }

  /** ~x on 32 bits */
  function Not(x: Word): Word {
    WORD_LIMIT - 1 - x
  }

  lemma {:induction false} ZeroHasNoBits(k: nat)
    ensures !TestBit(0, k)
    decreases k
  {
    if k > 0 { ZeroHasNoBits(k - 1); }
  }

  lemma Halves(q: nat, bit: nat)
    requires bit <= 1
    ensures (2 * q + bit) / 2 == q && (2 * q + bit) % 2 == bit
  {
  }

  lemma {:induction false} OrBit(x: nat, y: nat, k: nat)
    ensures TestBit(Or(x, y), k) <==> TestBit(x, k) || TestBit(y, k)
    decreases k
  {
    if x == 0 || y == 0 {
      ZeroHasNoBits(k);
    } else {
      Halves(Or(x / 2, y / 2), if x % 2 == 1 || y % 2 == 1 then 1 else 0);
      if k > 0 { OrBit(x / 2, y / 2, k - 1); }
    }
  }

  lemma {:induction false} AndBit(x: nat, y: nat, k: nat)
    ensures TestBit(And(x, y), k) <==> TestBit(x, k) && TestBit(y, k)
    decreases k
  {
    if x == 0 || y == 0 {
      ZeroHasNoBits(k);
    } else {
      Halves(And(x / 2, y / 2), if x % 2 == 1 && y % 2 == 1 then 1 else 0);
      if k > 0 { AndBit(x / 2, y / 2, k - 1); }
    }
  }

  lemma {:induction false} Pow2Bit(j: nat, k: nat)
    ensures TestBit(Pow2(j), k) <==> j == k
    decreases k
  {
    if k == 0 {
    } else if j == 0 {
      ZeroHasNoBits(k - 1);
    } else {
      Pow2Bit(j - 1, k - 1);
    }
  }

  /** Complementing within n bits flips every one of them. */
  lemma {:induction false} ComplementBit(x: nat, n: nat, k: nat)
    requires x < Pow2(n) && k < n
    ensures TestBit(Pow2(n) - 1 - x, k) <==> !TestBit(x, k)
    decreases n
  {
    HalfComplement(x, Pow2(n - 1));
    if k > 0 { ComplementBit(x / 2, n - 1, k - 1); }
  }

  lemma HalfComplement(x: nat, p: nat)
    requires x < 2 * p
    ensures (2 * p - 1 - x) / 2 == p - 1 - x / 2 && (2 * p - 1 - x) % 2 == 1 - x % 2
  {
    assert x == 2 * (x / 2) + x % 2;
    assert 2 * p - 1 - x == 2 * (p - 1 - x / 2) + (1 - x % 2);
  }

  lemma Pow2Of32()
    ensures Pow2(32) == WORD_LIMIT
  {
    assert Pow2(8) == 256;
    assert Pow2(16) == 65536;
    assert Pow2(24) == 16777216;
  }

  lemma {:induction false} OrBound(x: nat, y: nat, n: nat)
    requires x < Pow2(n) && y < Pow2(n)
    ensures Or(x, y) < Pow2(n)
    decreases n
  {
    if n > 0 { OrBound(x / 2, y / 2, n - 1); }
  }

  lemma {:induction false} AndBound(x: nat, y: nat)
    ensures And(x, y) <= x
    decreases x
  {
    if x > 0 && y > 0 { AndBound(x / 2, y / 2); }
  }

  lemma {:induction false} Pow2Monotone(j: nat, k: nat)
    requires j < k
    ensures 2 * Pow2(j) <= Pow2(k)
    decreases k
  {
    if j < k - 1 { Pow2Monotone(j, k - 1); }
  }

  /** A number is nonzero exactly when it has a bit. */
  lemma {:induction false} NonzeroHasBit(x: nat) returns (k: nat)
    requires x != 0
    ensures TestBit(x, k)
    decreases x
  {
    if x % 2 == 1 {
      k := 0;
    } else {
      var j := NonzeroHasBit(x / 2);
      k := j + 1;
    }
  }

  /** Numbers below 2^n are equal when their n low bits are. */
  lemma {:induction false} BitExtensionality(x: nat, y: nat, n: nat)
    requires x < Pow2(n) && y < Pow2(n)
    requires forall k: nat | k < n :: TestBit(x, k) <==> TestBit(y, k)
    ensures x == y
    decreases n
  {
    if n > 0 {
      assert TestBit(x, 0) <==> TestBit(y, 0);
      forall k: nat | k < n - 1
        ensures TestBit(x / 2, k) <==> TestBit(y / 2, k)
      {
        assert TestBit(x, k + 1) <==> TestBit(y, k + 1);
      }
      BitExtensionality(x / 2, y / 2, n - 1);
    }
  }

  /** The mask operations of a bitmap: word | 1 << k. */
  function SetBit(w: Word, k: nat): (r: Word)
    requires k < 32
    ensures forall j: nat :: TestBit(r, j) <==> j == k || TestBit(w, j)
  {
    Pow2Of32();
    Pow2Monotone(k, 32);
    OrBound(w, Pow2(k), 32);
    assert forall j: nat :: TestBit(Or(w, Pow2(k)), j) <==> j == k || TestBit(w, j) by {
      forall j: nat ensures TestBit(Or(w, Pow2(k)), j) <==> j == k || TestBit(w, j) {
        OrBit(w, Pow2(k), j);
        Pow2Bit(k, j);
      }
    }
    Or(w, Pow2(k))
  }

  /** word & ~(1 << k) */
  function ClearBit(w: Word, k: nat): (r: Word)
    requires k < 32
    ensures forall j: nat | j < 32 :: TestBit(r, j) <==> j != k && TestBit(w, j)
  {
    Pow2Of32();
    Pow2Monotone(k, 32);
    AndBound(w, Not(Pow2(k)));
    assert forall j: nat | j < 32 :: TestBit(And(w, Not(Pow2(k))), j) <==> j != k && TestBit(w, j) by {
      forall j: nat | j < 32
        ensures TestBit(And(w, Not(Pow2(k))), j) <==> j != k && TestBit(w, j)
      {
        AndBit(w, Not(Pow2(k)), j);
        ComplementBit(Pow2(k), 32, j);
        Pow2Bit(k, j);
      }
    }
    And(w, Not(Pow2(k)))
  }

  /** word & (1 << k), as a truth value */
  predicate HasBit(w: Word, k: nat)
    requires k < 32
    ensures HasBit(w, k) <==> TestBit(w, k)
  {
    assert And(w, Pow2(k)) != 0 <==> TestBit(w, k) by {
      AndBit(w, Pow2(k), k);
      Pow2Bit(k, k);
      ZeroHasNoBits(k);
      if And(w, Pow2(k)) != 0 {
        var j := NonzeroHasBit(And(w, Pow2(k)));
        AndBit(w, Pow2(k), j);
        Pow2Bit(k, j);
      }
    }
    And(w, Pow2(k)) != 0
  }

  /** divRoundUp of utility.h */
  function DivRoundUp(n: nat, s: nat): nat
    requires s > 0
  {
    n / s + (if n % s > 0 then 1 else 0)
  }

  /** The least number of pieces of size s that hold n. */
  lemma DivRoundUpIsLeast(n: nat, s: nat)
    requires s > 0
    ensures n <= DivRoundUp(n, s) * s
    ensures n > 0 ==> (DivRoundUp(n, s) - 1) * s < n
    ensures n == 0 ==> DivRoundUp(n, s) == 0
  {
    var q, r := n / s, n % s;
    assert n == q * s + r;
    if r > 0 {
      assert (q + 1) * s == q * s + s;
    } else {
      assert (q - 1) * s == q * s - s;
    }
  }
}
