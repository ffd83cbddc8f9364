/** Bitwise operations on unsigned words of any width, by their binary digits. */
module Bits {
  import opened DivMod

  function Pow2(k: nat): (r: nat)
    ensures r > 0
  {
    if k == 0 then 1 else 2 * Pow2(k - 1)
  }

  lemma {:induction false} Pow2Add(j: nat, k: nat)
    ensures Pow2(j + k) == Pow2(j) * Pow2(k)
  {
    if j > 0 {
      Pow2Add(j - 1, k);
      TwiceProduct(Pow2(j - 1), Pow2(k));
      assert Pow2(j + k) == 2 * Pow2(j - 1 + k);
    }
  }

  lemma TwiceProduct(a: nat, b: nat)
    ensures (2 * a) * b == 2 * (a * b) && a * (2 * b) == 2 * (a * b)
  {
  }

  lemma {:induction false} Pow2Less(j: nat, k: nat)
    requires j < k
    ensures 2 * Pow2(j) <= Pow2(k)
  {
    if j + 1 < k {
      Pow2Less(j, k - 1);
    }
  }

  lemma Pow2Words()
    ensures Pow2(16) == 0x1_0000 && Pow2(31) == 0x8000_0000 && Pow2(32) == 0x1_0000_0000
    ensures Pow2(63) == 0x8000_0000_0000_0000 && Pow2(64) == 0x1_0000_0000_0000_0000
  {
    Pow2Add(8, 8);
    Pow2Add(16, 16);
    Pow2Add(15, 16);
    Pow2Add(32, 31);
    Pow2Add(32, 32);
  }

  function BitAnd(a: nat, b: nat): nat {
    if a == 0 || b == 0 then 0
    else 2 * BitAnd(a / 2, b / 2) + if a % 2 == 1 && b % 2 == 1 then 1 else 0
  }

  function BitOr(a: nat, b: nat): nat {
    if a == 0 then b else if b == 0 then a
    else 2 * BitOr(a / 2, b / 2) + if a % 2 + b % 2 > 0 then 1 else 0
  }

  function BitXor(a: nat, b: nat): nat {
    if a == 0 then b else if b == 0 then a else 2 * BitXor(a / 2, b / 2) + if a % 2 == b % 2 then 0 else 1
  }

  /** Halving a number halves its quotients and remainders. */
  lemma HalfDivMod(x: nat, k: nat)
    ensures x / Pow2(k + 1) == x / 2 / Pow2(k)
    ensures x % Pow2(k + 1) == 2 * (x / 2 % Pow2(k)) + x % 2
  {
    DivModProduct(x, 2, Pow2(k));
  }

  /** A mask of `k` low ones keeps the remainder by 2^k. */
  lemma {:induction false} AndMask(x: nat, k: nat)
    ensures BitAnd(x, Pow2(k) - 1) == x % Pow2(k)
  {
    if k > 0 {
      AndMask(x / 2, k - 1);
      AndMaskStep(x, Pow2(k - 1), Pow2(k));
    }
  }

  /** All ones leave a word as it is. */
  lemma AndOnes(x: nat, k: nat, w: nat)
    requires w == Pow2(k) && x < w
    ensures BitAnd(x, w - 1) == x
  {
    AndMask(x, k);
    DivModUnique(x, w, 0, x);
  }

  lemma AndMaskStep(x: nat, p: nat, q: nat)
    requires p > 0 && q == 2 * p && BitAnd(x / 2, p - 1) == x / 2 % p
    ensures BitAnd(x, q - 1) == x % q
  {
    AndOnesStep(x, p - 1);
    DivModProduct(x, 2, p);
  }

  lemma AndOnesStep(x: nat, ones: nat)
    ensures BitAnd(x, 2 * ones + 1) == 2 * BitAnd(x / 2, ones) + x % 2
  {
    var m := 2 * ones + 1;
    assert m / 2 == ones && m % 2 == 1;
  }

  /** x << k and x >> k, a digit at a time. */
  function Shl(x: nat, k: nat): nat {
    if k == 0 then x else 2 * Shl(x, k - 1)
  }

  function Shr(x: nat, k: nat): nat {
    if k == 0 then x else Shr(x / 2, k - 1)
  }

  lemma {:induction false} ShlIsProduct(x: nat, k: nat)
    ensures Shl(x, k) == x * Pow2(k)
  {
    if k > 0 {
      ShlIsProduct(x, k - 1);
      TwiceProduct(x, Pow2(k - 1));
    }
  }

  lemma {:induction false} ShrIsQuotient(x: nat, k: nat)
    ensures Shr(x, k) == x / Pow2(k)
  {
    if k > 0 {
      HalfDivMod(x, k - 1);
      ShrIsQuotient(x / 2, k - 1);
    }
  }

  lemma {:induction false} AndShl(x: nat, m: nat, k: nat)
    ensures BitAnd(x, Shl(m, k)) == Shl(BitAnd(Shr(x, k), m), k)
  {
    if k > 0 {
      AndShl(x / 2, m, k - 1);
    }
  }

  lemma {:induction false} ShlZero(x: nat, k: nat)
    ensures Shl(x, k) == 0 <==> x == 0
  {
    if k > 0 { ShlZero(x, k - 1); }
  }

  lemma QuotientBelow(x: nat, p: nat, c: nat)
    requires p > 0 && x < c * p
    ensures x / p < c && (x / p == 0 <==> x < p)
  {
    var y := x / p;
    assert x == p * y + x % p;
    if y >= c { ProductMonotone(p, c, y); }
    if y > 0 { ProductMonotone(p, 1, y); }
  }

  /** In a word of 2k digits the upper k are all zero exactly when the mask of k ones shifted up says so. */
  lemma UpperHalfZero(x: nat, k: nat)
    requires x < Pow2(2 * k)
    ensures BitAnd(x, Shl(Pow2(k) - 1, k)) == 0 <==> x < Pow2(k)
  {
    var y := x / Pow2(k);
    AndShl(x, Pow2(k) - 1, k);
    ShrIsQuotient(x, k);
    Pow2Add(k, k);
    QuotientBelow(x, Pow2(k), Pow2(k));
    AndMask(y, k);
    DivModUnique(y, Pow2(k), 0, y);
    ShlZero(y, k);
  }

  /** Numbers that share no digit are joined by adding them. */
  lemma {:induction false} OrDisjoint(a: nat, b: nat, k: nat)
    requires b < Pow2(k)
    ensures BitOr(a * Pow2(k), b) == a * Pow2(k) + b
  {
    if k > 0 && a > 0 && b > 0 {
      var h := a * Pow2(k - 1);
      assert a * Pow2(k) == 2 * h;
      assert h > 0;
      OrDisjoint(a, b / 2, k - 1);
    }
  }

  /** Exclusive or with all ones complements the word. */
  lemma {:induction false} XorOnes(x: nat, k: nat)
    requires x < Pow2(k)
    ensures BitXor(x, Pow2(k) - 1) == Pow2(k) - 1 - x
  {
    if k > 0 && x > 0 {
      XorOnes(x / 2, k - 1);
      XorOnesStep(x, Pow2(k - 1) - 1);
    }
  }

  lemma XorOnesStep(x: nat, ones: nat)
    requires x > 0 && BitXor(x / 2, ones) == ones - x / 2
    ensures BitXor(x, 2 * ones + 1) == 2 * ones + 1 - x
  {
    var m := 2 * ones + 1;
    assert m / 2 == ones && m % 2 == 1;
  }

  /** x & (x - 1) clears the lowest one: nothing is left exactly when x is a power of two. */
  lemma {:induction false} AndPredecessor(x: nat, k: nat)
    requires x > 0 && x % Pow2(k) == 0 && x / Pow2(k) % 2 == 1
    ensures BitAnd(x, x - 1) == x - Pow2(k)
  {
    if k == 0 {
      var h := x / 2;
      assert x == 2 * h + 1;
      if h > 0 {
        AndSelf(h);
        assert (x - 1) / 2 == h;
      }
    } else {
      HalfDivMod(x, k - 1);
      AndPredecessor(x / 2, k - 1);
      assert (x - 1) / 2 == x / 2 - 1;
    }
  }

  lemma {:induction false} AndSelf(x: nat)
    ensures BitAnd(x, x) == x
  {
    if x > 0 { AndSelf(x / 2); }
  }
}
