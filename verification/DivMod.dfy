/** Quotients and remainders by products, from which the facts about bit fields follow. */
module DivMod {

  /** How many values a word of 32 digits has. */
  const W: nat := 0x1_0000_0000

  function Abs(x: int): nat {
    if x < 0 then -x else x
  }

  /** ~x in a word of `size` values */
  function Complement(x: nat, size: nat): nat {
    if x < size then size - 1 - x else 0
  }

  lemma MulLess(d: int, k: int)
    requires d > 0 && -d < d * k < d
    ensures k == 0
  {
  }

  lemma DivModUnique(a: int, d: int, q: int, r: int)
    requires d > 0 && a == d * q + r && 0 <= r < d
    ensures a / d == q && a % d == r
  {
    var q', r' := a / d, a % d;
    assert a == d * q' + r' && 0 <= r' < d;
    assert d * (q' - q) == r - r';
    MulLess(d, q' - q);
  }

  /** A field split in two: the low part by `b`, the high part by `c`. */
  lemma DivModProduct(a: nat, b: nat, c: nat)
    requires b > 0 && c > 0
    ensures b * c > 0
    ensures a / (b * c) == a / b / c
    ensures a % (b * c) == a / b % c * b + a % b
    ensures a % (b * c) / b == a / b % c
    ensures a % (b * c) % b == a % b
  {
    SplitField(a, b, c, b * c);
  }

  lemma SplitField(a: nat, b: nat, c: nat, d: nat)
    requires b > 0 && c > 0 && d == b * c
    ensures d > 0 && a / d == a / b / c && a % d == a / b % c * b + a % b
    ensures a % d / b == a / b % c && a % d % b == a % b
  {
    var q, r := a / b, a % b;
    var q2, r2 := q / c, q % c;
    assert a == b * q + r && q == c * q2 + r2;
    ProductParts(b, c, q, q2, r2);
    FieldBelow(b, c, r2, r);
    DivModUnique(a, d, q2, r2 * b + r);
    DivModUnique(r2 * b + r, b, r2, r);
  }

  lemma ProductParts(b: nat, c: nat, q: int, q2: int, r2: int)
    requires q == c * q2 + r2
    ensures b * q == (b * c) * q2 + r2 * b
  {
    assert b * (c * q2) == (b * c) * q2;
  }

  lemma FieldBelow(b: nat, c: nat, h: nat, l: nat)
    requires h < c && l < b
    ensures 0 <= h * b + l < b * c
  {
    assert (h + 1) * b <= c * b;
  }

  lemma MultipleMod(a: nat, b: nat, k: nat)
    requires b > 0
    ensures (k * b + a) % b == a % b
    ensures (k * b + a) / b == k + a / b
  {
    var q, r := a / b, a % b;
    assert k * b + a == b * (k + q) + r;
    DivModUnique(k * b + a, b, k + q, r);
  }

  lemma ProductMonotone(p: nat, a: int, b: int)
    requires a <= b
    ensures p * a <= p * b
  {
    assert p * (b - a) >= 0;
  }

  /** Row i and column j of a square of n rows, listed row by row. */
  lemma PlaceOfCell(n: nat, i: nat, j: nat)
    requires i < n && j < n
    ensures 0 <= n * i + j < n * n && (n * i + j) / n == i && (n * i + j) % n == j
  {
    DivModUnique(n * i + j, n, i, j);
    ProductMonotone(n, i + 1, n);
    assert n * (i + 1) == n * i + n;
  }

  /** Fewer than n numbers in a row differ modulo n. */
  lemma RemaindersDiffer(a: nat, b: nat, n: nat)
    requires n > 0 && a < b < a + n
    ensures a % n != b % n
  {
    var p, q := a / n, b / n;
    assert a == n * p + a % n && b == n * q + b % n;
    if a % n == b % n {
      assert n * (q - p) == b - a;
      MulLess(n, q - p);
    }
  }
}
