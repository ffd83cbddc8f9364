/** Words as sets of digits: what the bitwise operations do to each digit. */
module Digits {
  import opened DivMod
  import opened Bits

  /** Digit `i` of `x` is one. */
  predicate Bit(x: nat, i: nat) {
    if i == 0 then x % 2 == 1 else Bit(x / 2, i - 1)
  }

  lemma {:induction false} ZeroBit(i: nat)
    ensures !Bit(0, i)
  {
    if i > 0 { ZeroBit(i - 1); }
  }

  lemma {:induction false} AndBit(a: nat, b: nat, i: nat)
    ensures Bit(BitAnd(a, b), i) <==> Bit(a, i) && Bit(b, i)
  {
    if a == 0 || b == 0 {
      ZeroBit(i);
    } else if i > 0 {
      AndBit(a / 2, b / 2, i - 1);
    }
  }

  lemma {:induction false} OrBit(a: nat, b: nat, i: nat)
    ensures Bit(BitOr(a, b), i) <==> Bit(a, i) || Bit(b, i)
  {
    if a == 0 || b == 0 {
      ZeroBit(i);
    } else if i > 0 {
      OrBit(a / 2, b / 2, i - 1);
    }
  }

  lemma {:induction false} OrBelow(a: nat, b: nat, w: nat)
    requires a < Pow2(w) && b < Pow2(w)
    ensures BitOr(a, b) < Pow2(w)
  {
    if a > 0 && b > 0 && w > 0 { OrBelow(a / 2, b / 2, w - 1); }
  }

  lemma {:induction false} AndBelow(a: nat, b: nat)
    ensures BitAnd(a, b) <= a && BitAnd(a, b) <= b
  {
    if a > 0 && b > 0 { AndBelow(a / 2, b / 2); }
  }

  /** ~x in a word of `w` digits */
  lemma {:induction false} NotBit(x: nat, w: nat, i: nat)
    requires x < Pow2(w)
    ensures Bit(Pow2(w) - 1 - x, i) <==> i < w && !Bit(x, i)
  {
    if w == 0 {
      ZeroBit(i);
    } else if i > 0 {
      assert (Pow2(w) - 1 - x) / 2 == Pow2(w - 1) - 1 - x / 2;
      NotBit(x / 2, w - 1, i - 1);
    }
  }

  /** Truncation to `w` digits */
  lemma {:induction false} ModBit(x: nat, w: nat, i: nat)
    ensures Bit(x % Pow2(w), i) <==> i < w && Bit(x, i)
  {
    if w == 0 {
      ZeroBit(i);
    } else {
      HalfDivMod(x, w - 1);
      var y := x % Pow2(w);
      assert y / 2 == x / 2 % Pow2(w - 1) && y % 2 == x % 2;
      if i > 0 { ModBit(x / 2, w - 1, i - 1); }
    }
  }

  /** 2^k has digit k only. */
  lemma {:induction false} Pow2Bit(k: nat, i: nat)
    ensures Bit(Pow2(k), i) <==> i == k
  {
    if k == 0 {
      if i > 0 { ZeroBit(i - 1); }
    } else if i > 0 {
      Pow2Bit(k - 1, i - 1);
    }
  }

  /** Digits determine the word. */
  lemma {:induction false} SameBits(x: nat, y: nat, w: nat)
    requires x < Pow2(w) && y < Pow2(w) && forall i: nat :: i < w ==> (Bit(x, i) <==> Bit(y, i))
    ensures x == y
  {
    if w > 0 {
      assert Bit(x, 0) <==> Bit(y, 0);
      forall i: nat | i < w - 1 ensures Bit(x / 2, i) <==> Bit(y / 2, i) {
        assert Bit(x, i + 1) <==> Bit(y, i + 1);
      }
      SameBits(x / 2, y / 2, w - 1);
    }
  }

  lemma {:induction false} AndNot(x: nat, w: nat)
    requires x < Pow2(w)
    ensures BitAnd(x, Pow2(w) - 1 - x) == 0
  {
    if w > 0 {
      assert (Pow2(w) - 1 - x) / 2 == Pow2(w - 1) - 1 - x / 2;
      AndNot(x / 2, w - 1);
    }
  }

  /** x & (~x + 1) is the lowest one of `x`; `y`, what is left without it, has all other digits. */
  lemma {:induction false} LowestOne(x: nat, w: nat) returns (k: nat, y: nat)
    requires 0 < x < Pow2(w)
    ensures BitAnd(x, Pow2(w) - x) == Pow2(k) && k < w && Bit(x, k)
    ensures x == Pow2(k) + y && forall i: nat :: Bit(y, i) <==> Bit(x, i) && i != k
  {
    var h := x / 2;
    if x % 2 == 1 {
      k := 0;
      assert (Pow2(w) - x) / 2 == Pow2(w - 1) - 1 - h;
      AndNot(h, w - 1);
    } else {
      assert (Pow2(w) - x) / 2 == Pow2(w - 1) - h;
      var k', y' := LowestOne(h, w - 1);
      k := k' + 1;
    }
    y := ClearDigits(x, k);
  }

  lemma ClearDigits(x: nat, k: nat) returns (y: nat)
    requires Bit(x, k)
    ensures x == Pow2(k) + y && forall i: nat :: Bit(y, i) <==> Bit(x, i) && i != k
  {
    ClearDigit(x, k, k);
    y := x - Pow2(k);
    forall i: nat ensures Bit(y, i) <==> Bit(x, i) && i != k { ClearDigit(x, k, i); }
  }

  /** Subtracting a power whose digit is set clears that digit. */
  lemma {:induction false} ClearDigit(x: nat, k: nat, i: nat)
    requires Bit(x, k)
    ensures Pow2(k) <= x && (Bit(x - Pow2(k), i) <==> Bit(x, i) && i != k)
  {
    if k == 0 {
      assert (x - 1) / 2 == x / 2;
    } else {
      ClearDigit(x / 2, k - 1, if i == 0 then 0 else i - 1);
      assert (x - Pow2(k)) / 2 == x / 2 - Pow2(k - 1);
    }
  }
}
