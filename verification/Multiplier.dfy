/** The shift-and-add multiplier of machine/mipssim.cc:635-692, on 32-bit words. */
module Multiplier {
  import opened Bits

  const DWORD_LIMIT: int := 0x1_0000_0000_0000_0000

  /** The int with the bit pattern of w. */
  function Signed(w: Word): int {
    if w >= 0x8000_0000 then w - WORD_LIMIT else w
  }

  /** -w, wrapping at 32 bits. */
  function Negate(w: Word): Word {
    if w == 0 then 0 else WORD_LIMIT - w
  }

  function Plus(x: Word, y: Word): Word {
    (x + y) % WORD_LIMIT
  }

  /** w << 1 */
  function ShiftLeft(w: Word): Word {
    2 * w % WORD_LIMIT
  }

  /** a >> 1 on an int: the sign bit is copied. */
  function ShiftRightArithmetic(a: Word): Word {
    if a >= 0x8000_0000 then a / 2 + 0x8000_0000 else a / 2
  }

  function Dword(hi: Word, lo: Word): nat {
    hi * WORD_LIMIT + lo
  }

  // ---- masks -----------------------------------------------------------------

  lemma {:induction false} TopBit(x: nat, n: nat)
    requires x < Pow2(n + 1)
    ensures TestBit(x, n) <==> x >= Pow2(n)
    decreases n
  {
    if n > 0 { TopBit(x / 2, n - 1); }
  }

  lemma AndTimesTwo(x: nat, y: nat, bit: nat)
    requires bit <= 1
    ensures And(x, 2 * y + bit) == 2 * And(x / 2, y) + (if x % 2 == 1 then bit else 0)
  {
    assert (2 * y + bit) / 2 == y && (2 * y + bit) % 2 == bit;
  }

  lemma {:induction false} AndOnes(x: nat, n: nat)
    requires x < Pow2(n)
    ensures And(x, Pow2(n) - 1) == x
    decreases n
  {
    if n > 0 {
      var m := Pow2(n - 1);
      AndOnes(x / 2, n - 1);
      assert Pow2(n) - 1 == 2 * (m - 1) + 1;
      AndTimesTwo(x, m - 1, 1);
    }
  }

  lemma Masks(w: Word)
    ensures HasBit(w, 0) <==> w % 2 == 1
    ensures HasBit(w, 31) <==> w >= 0x8000_0000
    ensures And(w, 0xffff_fffe) == w - w % 2
    ensures w % 2 == 0 ==> Or(w, 1) == w + 1
  {
    Pow2Of32();
    assert Pow2(31) == 0x8000_0000;
    TopBit(w, 31);
    AndOnes(w / 2, 31);
    AndTimesTwo(w, 0x7fff_ffff, 0);
    assert Or(w / 2, 0) == w / 2;
  }

  // ---- one iteration -----------------------------------------------------------

  /** Adding a shifted multiplicand with the carry out of the low word. */
  lemma AddWithCarry(hi: Word, lo: Word, bHi: Word, bLo: Word)
    requires Dword(hi, lo) + Dword(bHi, bLo) < DWORD_LIMIT
    ensures var lo' := Plus(lo, bLo);
            var hi' := Plus(if lo' < bLo then Plus(hi, 1) else hi, bHi);
            Dword(hi', lo') == Dword(hi, lo) + Dword(bHi, bLo)
  {
  }

  /** Shifting the double word left by one, the low word's top bit moving up. */
  lemma ShiftDword(bHi: Word, bLo: Word)
    requires 2 * Dword(bHi, bLo) < DWORD_LIMIT
    ensures ShiftLeft(bHi) % 2 == 0
    ensures Dword(ShiftLeft(bHi) + (if bLo >= 0x8000_0000 then 1 else 0), ShiftLeft(bLo))
         == 2 * Dword(bHi, bLo)
  {
  }

  /** a agrees with what is left of the multiplier on its 32 - i low bits; the bits above
      are copies of the sign. */
  ghost predicate AgreesBelow(a: Word, rest: nat, n: nat) {
    exists k: nat :: a == rest + k * Pow2(n)
  }

  lemma AgreesShift(a: Word, rest: nat, n: nat)
    requires 0 < n <= 32 && AgreesBelow(a, rest, n)
    ensures a % 2 == rest % 2
    ensures AgreesBelow(ShiftRightArithmetic(a), rest / 2, n - 1)
  {
    var k: nat :| a == rest + k * Pow2(n);
    var p := Pow2(n - 1);
    TwiceOut(k, p);
    Halve(a, rest, k * p);
    if a >= 0x8000_0000 {
      var q := SplitPower(n - 1);
      SumOut(k, q, p);
      assert ShiftRightArithmetic(a) == rest / 2 + (k + q) * p;
    }
  }

  lemma TwiceOut(k: nat, p: nat)
    ensures k * (2 * p) == 2 * (k * p)
  {
  }

  lemma SumOut(k: nat, q: nat, p: nat)
    ensures (k + q) * p == k * p + q * p
  {
  }

  lemma Halve(a: nat, b: nat, m: nat)
    requires a == b + 2 * m
    ensures a % 2 == b % 2 && a / 2 == b / 2 + m
  {
  }

  lemma {:induction false} SplitPower(n: nat) returns (q: nat)
    requires n <= 31
    ensures q * Pow2(n) == 0x8000_0000
    decreases 31 - n
  {
    if n == 31 {
      Pow2Of32();
      q := 1;
    } else {
      var r := SplitPower(n + 1);
      q := 2 * r;
    }
  }

  lemma ProductStep(x: nat, rest: nat)
    ensures x * rest == 2 * x * (rest / 2) + (if rest % 2 == 1 then x else 0)
  {
    assert rest == 2 * (rest / 2) + rest % 2;
  }

  lemma Monotone(x: nat, y: nat, z: nat)
    requires x <= y
    ensures x * z <= y * z
  {
    assert y * z == x * z + (y - x) * z;
  }

  lemma ProductBound(a: Word, b: Word)
    ensures a * b < DWORD_LIMIT
  {
    Monotone(a, WORD_LIMIT - 1, b);
    Monotone(b, WORD_LIMIT - 1, WORD_LIMIT - 1);
  }

  /** machine/mipssim.cc:665-668 */
  method AddDword(hi0: Word, lo0: Word, bHi: Word, bLo: Word) returns (hi: Word, lo: Word)
    requires Dword(hi0, lo0) + Dword(bHi, bLo) < DWORD_LIMIT
    ensures Dword(hi, lo) == Dword(hi0, lo0) + Dword(bHi, bLo)
  {
    AddWithCarry(hi0, lo0, bHi, bLo);
    hi, lo := hi0, Plus(lo0, bLo);
    if lo < bLo {
      hi := Plus(hi, 1);
    }
    hi := Plus(hi, bHi);
  }

  /** machine/mipssim.cc:672-676 */
  method DoubleDword(bHi0: Word, bLo0: Word) returns (bHi: Word, bLo: Word)
    requires 2 * Dword(bHi0, bLo0) < DWORD_LIMIT
    ensures Dword(bHi, bLo) == 2 * Dword(bHi0, bLo0)
  {
    ShiftDword(bHi0, bLo0);
    Masks(bLo0);
    Masks(ShiftLeft(bHi0));
    bHi := ShiftLeft(bHi0);
    if HasBit(bLo0, 31) {
      bHi := Or(bHi, 1);
    }
    bLo := ShiftLeft(bLo0);
  }

  /** The loop: an exact unsigned product, although the multiplier is shifted as an int and
      the loop stops as soon as no higher bit is set. */
  method MultiplyUnsigned(a0: Word, b: Word) returns (hi: Word, lo: Word)
    ensures Dword(hi, lo) == a0 * b
  {
    var a: Word := a0;
    var bLo: Word, bHi: Word := b, 0;
    lo, hi := 0, 0;
    ghost var rest: nat, x: nat := a0, b;
    assert a == rest + 0 * Pow2(32);
    Pow2Of32();
    for i := 0 to 32
      invariant AgreesBelow(a, rest, 32 - i)
      invariant rest < Pow2(32 - i)
      invariant x == Dword(bHi, bLo) && x == b * Pow2(i)
      invariant Dword(hi, lo) + x * rest == a0 * b
    {
      Masks(a);
      AgreesShift(a, rest, 32 - i);
      ProductStep(x, rest);
      ProductBound(a0, b);
      if HasBit(a, 0) {
        StaysBelow(a0, b, Dword(hi, lo), x, rest);
        hi, lo := AddDword(hi, lo, bHi, bLo);
        if And(a, 0xffff_fffe) == 0 {
          LastBit(a, rest, 32 - i);
          return;
        }
      }
      RoomToShift(b, i);
      bHi, bLo := DoubleDword(bHi, bLo);
      a := ShiftRightArithmetic(a);
      rest, x := rest / 2, 2 * x;
    }
  }

  lemma StaysBelow(a0: nat, b: nat, sum: nat, x: nat, rest: nat)
    requires sum + x * rest == a0 * b && rest > 0
    ensures sum + x <= a0 * b
  {
    Monotone(1, rest, x);
  }

  lemma LastBit(a: Word, rest: nat, n: nat)
    requires AgreesBelow(a, rest, n) && rest < Pow2(n) && n > 0 && a <= 1
    ensures rest == a
  {
    var k: nat :| a == rest + k * Pow2(n);
    if k > 0 {
      Monotone(1, k, Pow2(n));
      Pow2Monotone(0, n);
    }
  }

  lemma RoomToShift(b: Word, i: nat)
    requires i < 32
    ensures 2 * (b * Pow2(i)) == b * Pow2(i + 1)
    ensures 2 * (b * Pow2(i)) < DWORD_LIMIT
  {
    Pow2Of32();
    Pow2Monotone(i, 32);
    Monotone(Pow2(i + 1), WORD_LIMIT, b);
    assert b * WORD_LIMIT < DWORD_LIMIT;
  }

  // ---- signs -------------------------------------------------------------------

  /** Two's complement of a double word: complement both halves, add one with carry. */
  lemma NegateDword(hi: Word, lo: Word)
    requires Dword(hi, lo) != 0
    ensures var lo' := Plus(Not(lo), 1);
            var hi' := if lo' == 0 then Plus(Not(hi), 1) else Not(hi);
            Dword(hi', lo') == DWORD_LIMIT - Dword(hi, lo)
  {
  }

  /** The whole routine: hi:lo is the exact 64-bit product, signed or unsigned. */
  method Mult(a: Word, b: Word, signedArith: bool) returns (hi: Word, lo: Word)
    ensures !signedArith ==> Dword(hi, lo) == a * b
    ensures signedArith ==> Signed(hi) * WORD_LIMIT + lo == Signed(a) * Signed(b)
  {
    if a == 0 || b == 0 {
      return 0, 0;
    }
    var negative := false;
    var x, y := a, b;
    if signedArith {
      if Signed(x) < 0 {
        negative := !negative;
        x := Negate(x);
      }
      if Signed(y) < 0 {
        negative := !negative;
        y := Negate(y);
      }
    }
    hi, lo := MultiplyUnsigned(x, y);
    if signedArith {
      SignedProduct(a, b, x, y);
    }
    if negative {
      NegateDword(hi, lo);
      hi, lo := Not(hi), Not(lo);
      lo := Plus(lo, 1);
      if lo == 0 {
        hi := Plus(hi, 1);
      }
    }
  }

  /** The magnitudes multiply to the magnitude of the product, which fits 63 bits. */
  lemma SignedProduct(a: Word, b: Word, x: Word, y: Word)
    requires a != 0 && b != 0
    requires x == if Signed(a) < 0 then Negate(a) else a
    requires y == if Signed(b) < 0 then Negate(b) else b
    ensures 0 < x * y <= 0x4000_0000_0000_0000
    ensures Signed(a) * Signed(b) == if (Signed(a) < 0) != (Signed(b) < 0) then -(x * y) else x * y
  {
    Monotone(x, 0x8000_0000, y);
    Monotone(y, 0x8000_0000, 0x8000_0000);
    Monotone(1, x, y);
    SignRule(x, y);
  }

  lemma SignRule(x: int, y: int)
    ensures (-x) * y == -(x * y) && x * (-y) == -(x * y) && (-x) * (-y) == x * y
  {
  }
}
