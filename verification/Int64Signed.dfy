/** Signed 64-bit division on two's-complement words. */
module Int64Signed {
  import opened DivMod
  import opened Bits
  import opened Int64
  import opened Int64Division

  const MIN: int := -0x8000_0000_0000_0000

  /** The number a word stands for. */
  function Signed(x: nat): int {
    if x >= 0x8000_0000_0000_0000 then x - D else x
  }

  /** q and r are the quotient of a by b rounded toward zero and what is left, with the sign of a. */
  ghost predicate Truncated(a: int, b: int, q: int, r: int) {
    a == b * q + r && Abs(r) < Abs(b) && (r > 0 ==> a > 0) && (r < 0 ==> a < 0)
  }

  lemma TruncatedUnique(a: int, b: int, q: int, r: int, q': int, r': int)
    requires b != 0 && Truncated(a, b, q, r) && Truncated(a, b, q', r')
    ensures q == q' && r == r'
  {
    assert b * (q - q') == r' - r;
    if b > 0 {
      MulLess(b, q - q');
    } else {
      assert (-b) * (q - q') == r - r';
      MulLess(-b, q - q');
    }
  }

  /** (x ^ s) - s, which negates when s is all ones */
  function NegateIf(x: nat, s: nat): nat {
    (BitXor(x, s) - s) % D
  }

  lemma NegateIfValue(x: nat, y: nat)
    requires x < D
    ensures NegateIf(x, Sign64(y)) == if y >= 0x8000_0000_0000_0000 && x > 0 then D - x else x
  {
    Pow2Words();
    XorOnes(x, 64);
    assert BitXor(x, 0) == x;
    var k: int := x;
    assert (-k) % D == if x > 0 then D - x else 0;
    assert x % D == x;
  }

  lemma SignXor(x: nat, y: nat)
    ensures BitXor(Sign64(x), Sign64(y)) ==
              if x >= 0x8000_0000_0000_0000 <==> y >= 0x8000_0000_0000_0000 then 0 else D - 1
  {
    Pow2Words();
    XorOnes(D - 1, 64);
  }

  /** The magnitudes' quotient and remainder with the signs put back. */
  lemma SignsBack(a: int, b: int, q: int, r: int)
    requires b != 0 && 0 <= r < Abs(b) && q >= 0 && Abs(a) == Abs(b) * q + r
    ensures Truncated(a, b, if a < 0 <==> b < 0 then q else -q, if a < 0 then -r else r)
  {
    assert b * -q == -(b * q);
  }

  /** One quotient does not fit: that of the least number by -1. */
  lemma QuotientFits(a: int, b: int, a': nat, b': nat, q: nat, r: nat, quot: int)
    requires MIN <= a < -MIN && a' == Abs(a) && b != 0 && b' == Abs(b)
    requires a' == b' * q + r && r < b'
    requires quot == if a < 0 <==> b < 0 then (if q == -MIN then MIN else q) else 0 - q
    ensures Truncated(a, b, quot, a - b * quot) <==> !(a == MIN && b == -1)
    ensures a == MIN && b == -1 ==> quot == MIN
  {
    SignsBack(a, b, q, r);
    QuotientBelowDividend(a', b', q, r);
  }

  lemma QuotientBelowDividend(a: nat, b: nat, q: nat, r: nat)
    requires a == b * q + r && r < b
    ensures q <= a && (b > 1 && a > 0 ==> q < a)
  {
    if b > 1 {
      ProductMonotone(q, 2, b);
    }
  }

  /** __divdi3: the truncated quotient, except that the one which does not fit wraps round. */
  method Divdi3(a: nat, b: nat) returns (quot: nat)
    requires a < D && 0 < b < D
    ensures quot < D
    ensures Truncated(Signed(a), Signed(b), Signed(quot), Signed(a) - Signed(b) * Signed(quot))
            <==> !(Signed(a) == MIN && Signed(b) == -1)
    ensures Signed(a) == MIN && Signed(b) == -1 ==> Signed(quot) == MIN
  {
    var s_a, s_b := Sign64(a), Sign64(b);
    NegateIfValue(a, a);
    NegateIfValue(b, b);
    var a', b' := NegateIf(a, s_a), NegateIf(b, s_b);
    SignXor(a, b);
    s_a := BitXor(s_a, s_b);
    var q, r := Udivmoddi4(a', b');
    QuotientBelowDividend(a', b', q, r);
    NegateIfValue(q, s_a);
    quot := NegateIf(q, s_a);
    QuotientFits(Signed(a), Signed(b), a', b', q, r, Signed(quot));
  }

  /** __moddi3: the remainder of the truncated quotient, always. */
  method Moddi3(a: nat, b: nat) returns (rem: nat, ghost quot: int)
    requires a < D && 0 < b < D
    ensures rem < D && Truncated(Signed(a), Signed(b), quot, Signed(rem))
  {
    NegateIfValue(a, a);
    NegateIfValue(b, b);
    var b' := NegateIf(b, Sign64(b));
    var s := Sign64(a);
    var a' := NegateIf(a, s);
    var q, r := Udivmoddi4(a', b');
    NegateIfValue(r, a);
    rem := NegateIf(r, s);
    quot := MagnitudesSigned(Signed(a), Signed(b), a', b', q, r);
  }

  lemma MagnitudesSigned(a: int, b: int, a': nat, b': nat, q: nat, r: nat) returns (quot: int)
    requires a' == Abs(a) && b != 0 && b' == Abs(b) && a' == b' * q + r && r < b'
    ensures Truncated(a, b, quot, if a < 0 then 0 - r else r)
  {
    SignsBack(a, b, q, r);
    quot := q;
    if (a < 0) != (b < 0) {
      quot := -quot;
    }
  }

  /** __divmoddi4: the remainder is right even where the quotient wraps. */
  method Divmoddi4(a: nat, b: nat) returns (quot: nat, rem: nat)
    requires a < D && 0 < b < D
    ensures quot < D && rem < D
    ensures Truncated(Signed(a), Signed(b), Signed(quot), Signed(rem)) <==> !(Signed(a) == MIN && Signed(b) == -1)
    ensures Signed(a) == MIN && Signed(b) == -1 ==> Signed(quot) == MIN && Signed(rem) == 0
  {
    quot := Divdi3(a, b);
    rem := (a - quot * b) % D;
    WrappedRemainder(a, b, quot);
    RemainderFits(Signed(a), Signed(b), Signed(quot), rem);
  }

  lemma RemainderFits(a: int, b: int, q: int, rem: nat)
    requires MIN <= a < -MIN && MIN <= b < -MIN && rem == (a - b * q) % D
    requires Truncated(a, b, q, a - b * q) <==> !(a == MIN && b == -1)
    requires a == MIN && b == -1 ==> q == MIN
    ensures Truncated(a, b, q, Signed(rem)) <==> !(a == MIN && b == -1)
    ensures a == MIN && b == -1 ==> Signed(rem) == 0
  {
    var r := a - b * q;
    if a == MIN && b == -1 {
      assert r == 0 - D;
    } else {
      assert r % D == if r < 0 then r + D else r;
    }
  }

  lemma WrappedRemainder(a: nat, b: nat, q: nat)
    requires a < D && b < D && q < D
    ensures (a - q * b) % D == (Signed(a) - Signed(b) * Signed(q)) % D
  {
    var A, B, Q := Signed(a), Signed(b), Signed(q);
    var i, j, k := (a - A) / D, (b - B) / D, (q - Q) / D;
    assert a == A + i * D && b == B + j * D && q == Q + k * D;
    assert q * b == Q * B + (Q * j + k * B + k * j * D) * D;
    var m := i - (Q * j + k * B + k * j * D);
    assert a - q * b == A - B * Q + m * D;
    ModShift(A - B * Q, m);
  }

  lemma ModShift(x: int, m: int)
    ensures (x + m * D) % D == x % D
  {
    DivModUnique(x + m * D, D, x / D + m, x % D);
  }
}
