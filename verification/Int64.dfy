/** 64-bit division and digit counting built from 32-bit halves. */
module Int64 {
  import opened DivMod
  import opened Bits

  const D: nat := 0x1_0000_0000_0000_0000

  /** The halves of a 64-bit word. */
  datatype Dword = Dword(high: nat, low: nat) {
    ghost predicate Fits() { high < W && low < W }
    function Value(): nat { high * W + low }
  }

  function Shl32(x: nat, k: nat): nat
    requires k < 32
  {
    Shl(x, k) % W
  }

  function Shr32(x: nat, k: nat): nat
    requires k < 32
  {
    Shr(x, k)
  }

  /** -(c) as an unsigned word */
  function Mask32(c: bool): nat {
    if c then W - 1 else 0
  }

  // ---------------------------------------------------------------------------
  // Leading and trailing zeros
  // ---------------------------------------------------------------------------

  /** `x` has `r` leading zeros in a word of `width` digits. */
  ghost predicate LeadingZeros(x: nat, width: nat, r: nat) {
    r <= width && x < Pow2(width - r) && (r < width ==> Pow2(width - r - 1) <= x)
  }

  /** `x` has `r` trailing zeros. */
  ghost predicate TrailingZeros(x: nat, r: nat) {
    x % Pow2(r) == 0 && x / Pow2(r) % 2 == 1
  }

  /** The binary search for the first digit: `x` is what is left of `a`, `s` digits were shifted out,
      and the digit is among the `w` lowest ones of `x`. */
  ghost predicate ClzState(a: nat, x: nat, w: nat, s: nat) {
    x < Pow2(w) && x == a / Pow2(s) && (s > 0 ==> x > 0)
  }

  lemma ClzStage(a: nat, x: nat, w: nat, s: nat)
    requires ClzState(a, x, 2 * w, s)
    ensures BitAnd(x, Shl(Pow2(w) - 1, w)) == 0 <==> x < Pow2(w)
    ensures ClzState(a, if x < Pow2(w) then x else x / Pow2(w), w, if x < Pow2(w) then s else s + w)
  {
    UpperHalfZero(x, w);
    if x >= Pow2(w) {
      Pow2Add(s, w);
      Pow2Add(w, w);
      DivModProduct(a, Pow2(s), Pow2(w));
      QuotientBelow(x, Pow2(w), Pow2(w));
    }
  }

  datatype Halving = Halving(a: nat, x: nat, w: nat, s: nat)

  type ClzSearch = h: Halving | ClzState(h.a, h.x, h.w, h.s) ghost witness Halving(0, 0, 0, 0)

  /** The masks of the upper halves of words of 32, 16, 8 and 4 digits. */
  function UpperMask(w: nat): (mask: nat)
    requires w == 16 || w == 8 || w == 4 || w == 2
    ensures mask == Shl(Pow2(w) - 1, w)
  {
    Pow2Words();
    ShlIsProduct(Pow2(w) - 1, w);
    if w == 16 then 0xFFFF_0000 else if w == 8 then 0xFF00 else if w == 4 then 0xF0 else 0xC
  }

  /** Keeps `x` or shifts it by `w`, whichever leaves the first digit among the `w` lowest. */
  method ClzHalve(x: nat, w: nat, r: nat, ghost h: ClzSearch) returns (x': nat, r': nat, ghost h': ClzSearch)
    requires w == 16 || w == 8 || w == 4 || w == 2
    requires h.w == 2 * w && h.x == x
    ensures h'.a == h.a && h'.x == x' && h'.w == w && r' + h'.s == r + h.s + w
  {
    ClzStage(h.a, x, w, h.s);
    var t := if BitAnd(x, UpperMask(w)) == 0 then w else 0;
    x' := Shr32(x, w - t);
    ShrIsQuotient(x, w);
    r' := r + t;
    h' := Halving(h.a, x', w, h.s + w - t);
  }

  lemma TwoBits(x: nat)
    requires x < 4
    ensures BitAnd(x, 2) == 0 <==> x < 2
    ensures BitAnd(x, 1) == 0 <==> x % 2 == 0
  {
    assert BitAnd(x, 2) == 2 * BitAnd(x / 2, 1);
    assert BitAnd(x / 2, 1) == x / 2;
  }

  lemma AndMask32(x: nat)
    requires x < W
    ensures BitAnd(x, Mask32(true)) == x && BitAnd(x, Mask32(false)) == 0
  {
    Pow2Words();
    AndOnes(x, 32, W);
  }

  /** (2 - x) & -((x & 2) == 0): leading zeros of two digits */
  function ClzOfTwo(x: nat): (r: nat)
    requires x < 4
    ensures r == if x >= 2 then 0 else 2 - x
  {
    TwoBits(x);
    AndMask32((2 - x) % W);
    BitAnd((2 - x) % W, Mask32(BitAnd(x, 2) == 0))
  }

  lemma ClzEnd(h: ClzSearch, r: nat)
    requires h.w == 2 && r + h.s == 30
    ensures h.x < 4 && LeadingZeros(h.a, 32, r + ClzOfTwo(h.x))
  {
    var p := Pow2(h.s);
    assert Pow2(h.s + 1) == 2 * p && Pow2(h.s + 2) == 2 * Pow2(h.s + 1);
    TopOfTwo(h.a, p, h.x);
  }

  lemma TopOfTwo(a: nat, p: nat, x: nat)
    requires p > 0 && x == a / p && x < 4
    ensures a < 4 * p && (x < 2 ==> a < 2 * p) && (x == 0 ==> a < p)
    ensures (x >= 2 ==> 2 * p <= a) && (x >= 1 ==> p <= a)
  {
    assert a == p * x + a % p;
    ProductMonotone(p, x, if x == 0 then 0 else if x == 1 then 1 else 3);
    ProductMonotone(p, if x >= 2 then 2 else x, x);
  }

  ghost function ClzStart(a: nat): (h: ClzSearch)
    requires a < W
    ensures h == Halving(a, a, 32, 0)
  {
    Pow2Words();
    Halving(a, a, 32, 0)
  }

  /** __clzsi2 */
  method ClzSi2(a: nat) returns (r: nat)
    requires a < W
    ensures LeadingZeros(a, 32, r)
  {
    ghost var h := ClzStart(a);
    var x := a;
    r := 0;
    x, r, h := ClzHalve(x, 16, r, h);
    x, r, h := ClzHalve(x, 8, r, h);
    x, r, h := ClzHalve(x, 4, r, h);
    x, r, h := ClzHalve(x, 2, r, h);
    ClzEnd(h, r);
    r := r + ClzOfTwo(x);
  }

  // The same search from below.

  ghost predicate CtzState(a: nat, x: nat, w: nat, s: nat) {
    a % Pow2(s) == 0 && x == a / Pow2(s) && x % Pow2(w) != 0
  }

  type CtzSearch = h: Halving | CtzState(h.a, h.x, h.w, h.s) ghost witness Halving(1, 1, 1, 0)

  lemma CtzStage(a: nat, x: nat, w: nat, s: nat)
    requires CtzState(a, x, 2 * w, s)
    ensures BitAnd(x, Pow2(w) - 1) == 0 <==> x % Pow2(w) == 0
    ensures x % Pow2(w) != 0 ==> CtzState(a, x, w, s)
    ensures x % Pow2(w) == 0 ==> CtzState(a, x / Pow2(w), w, s + w)
  {
    AndMask(x, w);
    Pow2Add(s, w);
    Pow2Add(w, w);
    DivModProduct(x, Pow2(w), Pow2(w));
    DivModProduct(a, Pow2(s), Pow2(w));
  }

  function LowerMask(w: nat): (mask: nat)
    requires w == 16 || w == 8 || w == 4 || w == 2
    ensures mask == Pow2(w) - 1
  {
    Pow2Words();
    if w == 16 then 0xFFFF else if w == 8 then 0xFF else if w == 4 then 0xF else 3
  }

  /** Shifts `x` by `w` if its `w` lowest digits are zeros. */
  method CtzHalve(x: nat, w: nat, r: nat, ghost h: CtzSearch) returns (x': nat, r': nat, ghost h': CtzSearch)
    requires w == 16 || w == 8 || w == 4 || w == 2
    requires h.w == 2 * w && h.x == x && h.s == r
    ensures h'.a == h.a && h'.x == x' && h'.w == w && h'.s == r'
  {
    CtzStage(h.a, x, w, r);
    var t := if BitAnd(x, LowerMask(w)) == 0 then w else 0;
    x' := Shr32(x, t);
    ShrIsQuotient(x, w);
    r' := r + t;
    h' := Halving(h.a, x', w, r');
  }

  /** (2 - (x >> 1)) & -((x & 1) == 0): trailing zeros of two digits */
  function CtzOfTwo(x: nat): (r: nat)
    requires x < 4
    ensures r == if x % 2 == 1 then 0 else 2 - x / 2
  {
    TwoBits(x);
    AndMask32(2 - x / 2);
    BitAnd(2 - x / 2, Mask32(BitAnd(x, 1) == 0))
  }

  lemma CtzEnd(h: CtzSearch)
    requires h.w == 2
    ensures BitAnd(h.x, 3) == h.x % 4 && TrailingZeros(h.a, h.s + CtzOfTwo(h.x % 4))
  {
    var x, p := h.x, Pow2(h.s);
    AndMask(x, 2);
    assert Pow2(h.s + 1) == 2 * p;
    DivModProduct(h.a, p, 2);
    assert Pow2(2) == 4;
  }

  ghost function CtzStart(a: nat): (h: CtzSearch)
    requires 0 < a < W
    ensures h == Halving(a, a, 32, 0)
  {
    Pow2Words();
    Halving(a, a, 32, 0)
  }

  /** __ctzsi2 */
  method CtzSi2(a: nat) returns (r: nat)
    requires 0 < a < W
    ensures TrailingZeros(a, r)
  {
    ghost var h := CtzStart(a);
    var x := a;
    r := 0;
    x, r, h := CtzHalve(x, 16, r, h);
    x, r, h := CtzHalve(x, 8, r, h);
    x, r, h := CtzHalve(x, 4, r, h);
    x, r, h := CtzHalve(x, 2, r, h);
    CtzEnd(h);
    x := BitAnd(x, 3);
    r := r + CtzOfTwo(x);
  }

  /** __clzdi2 */
  method ClzDi2(a: Dword) returns (r: nat)
    requires a.Fits()
    ensures LeadingZeros(a.Value(), 64, r)
  {
    var f := Mask32(a.high == 0);
    AndMask32(a.high);
    AndMask32(a.low);
    r := ClzSi2(BitOr(BitAnd(a.high, W - 1 - f), BitAnd(a.low, f)));
    ClzHigh(a, r);
    Mask32And32();
    r := r + BitAnd(f, 32);
  }

  lemma Mask32And32()
    ensures BitAnd(Mask32(true), 32) == 32 && BitAnd(Mask32(false), 32) == 0
  {
  }

  lemma ClzHigh(a: Dword, r: nat)
    requires a.Fits() && LeadingZeros(if a.high == 0 then a.low else a.high, 32, r)
    ensures LeadingZeros(a.Value(), 64, if a.high == 0 then r + 32 else r)
  {
    if a.high != 0 {
      Pow2Words();
      Pow2Add(32, 32 - r);
      if r < 32 {
        Pow2Add(32, 31 - r);
      }
    }
  }

  /** __ctzdi2 */
  method CtzDi2(a: Dword) returns (r: nat)
    requires a.Fits() && a.Value() > 0
    ensures TrailingZeros(a.Value(), r)
  {
    var f := Mask32(a.low == 0);
    AndMask32(a.high);
    AndMask32(a.low);
    r := CtzSi2(BitOr(BitAnd(a.high, f), BitAnd(a.low, W - 1 - f)));
    CtzLow(a, r);
    Mask32And32();
    r := r + BitAnd(f, 32);
  }

  lemma CtzLow(a: Dword, r: nat)
    requires a.Fits() && a.Value() > 0 && TrailingZeros(if a.low == 0 then a.high else a.low, r)
    ensures TrailingZeros(a.Value(), if a.low == 0 then r + 32 else r)
  {
    if a.low == 0 {
      ZerosBelow(a.high, r);
    } else {
      SplitWord(a, r);
      EvenAbove(a.high, 31 - r, a.low / Pow2(r));
    }
  }

  lemma ZerosBelow(x: nat, r: nat)
    requires TrailingZeros(x, r)
    ensures TrailingZeros(x * W, r + 32)
  {
    Pow2Words();
    Pow2Add(32, r);
    MultipleMod(0, W, x);
    DivModProduct(x * W, W, Pow2(r));
  }

  lemma EvenAbove(x: nat, k: nat, y: nat)
    ensures (x * Pow2(k + 1) + y) % 2 == y % 2
  {
    var z := x * Pow2(k);
    assert x * Pow2(k + 1) == 2 * z;
  }

  lemma WordFactors(r: nat)
    requires Pow2(r) < W
    ensures r < 32 && W == Pow2(32 - r) * Pow2(r)
  {
    Pow2Words();
    if r > 32 { Pow2Less(32, r); }
    Pow2Add(32 - r, r);
  }

  /** A power of two below 2^32 divides the high half. */
  lemma SplitWord(a: Dword, r: nat)
    requires a.Fits() && a.low / Pow2(r) > 0
    ensures r < 32
    ensures a.Value() % Pow2(r) == a.low % Pow2(r)
    ensures a.Value() / Pow2(r) == a.high * Pow2(32 - r) + a.low / Pow2(r)
  {
    QuotientBelow(a.low, Pow2(r), W);
    WordFactors(r);
    SplitProduct(a.high, a.low, Pow2(r), Pow2(32 - r));
  }

  lemma SplitProduct(h: nat, l: nat, p: nat, c: nat)
    requires p > 0 && c * p == W
    ensures (h * W + l) % p == l % p && (h * W + l) / p == h * c + l / p
  {
    assert h * W == (h * c) * p by {
      assert h * (c * p) == (h * c) * p;
    }
    MultipleMod(l, p, h * c);
  }
}
