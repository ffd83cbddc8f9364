/** Unsigned 64-bit division by shifting and subtracting 32-bit halves, and the signed forms built on it. */
module Int64Division {
  import opened DivMod
  import opened Bits
  import opened Int64

  // ---------------------------------------------------------------------------
  // Shifts of a pair of halves
  // ---------------------------------------------------------------------------

  /** A word cut at place 32 - k: what `x << k` keeps and what it loses. */
  lemma ShlSplit(x: nat, k: nat)
    requires x < W && 1 <= k <= 31
    ensures Pow2(32 - k) * Pow2(k) == W
    ensures Shl32(x, k) == x % Pow2(32 - k) * Pow2(k)
    ensures Shr32(x, k) == x / Pow2(k) < Pow2(32 - k)
  {
    var p, c := Pow2(k), Pow2(32 - k);
    WordProduct(k);
    ShlIsProduct(x, k);
    ShrIsQuotient(x, k);
    QuotientBelow(x, p, c);
    FieldTimes(x, c, p);
  }

  lemma WordProduct(k: nat)
    requires k <= 32
    ensures Pow2(32 - k) * Pow2(k) == W
  {
    Pow2Words();
    Pow2Add(32 - k, k);
  }

  lemma FieldTimes(x: nat, c: nat, p: nat)
    requires c > 0 && p > 0
    ensures x * p == c * p * (x / c) + x % c * p && x * p % (c * p) == x % c * p
  {
    var q, r := x / c, x % c;
    assert x * p == (c * q + r) * p == c * p * q + r * p;
    ProductMonotone(p, r + 1, c);
    assert 0 <= r * p < c * p;
    DivModUnique(x * p, c * p, q, r * p);
  }

  lemma FieldFits(h: nat, l: nat, p: nat, c: nat)
    requires h < p && l < c
    ensures h * c + l < p * c
  {
    ProductMonotone(c, h + 1, p);
  }

  lemma QuotientAtMost(x: nat, p: nat)
    requires p > 0
    ensures 0 <= x / p <= x
  {
    assert x == p * (x / p) + x % p;
    if x / p > 0 { ProductMonotone(x / p, 1, p); }
  }

  /** The lower word of a shift: part of the upper one above part of the lower one. */
  lemma JoinHalves(h: nat, l: nat, k: nat)
    requires h < W && l < W && 1 <= k <= 31
    ensures BitOr(Shl32(h, k), Shr32(l, 32 - k)) == h % Pow2(32 - k) * Pow2(k) + l / Pow2(32 - k) < W
  {
    ShlSplit(h, k);
    ShlSplit(l, 32 - k);
    OrDisjoint(h % Pow2(32 - k), l / Pow2(32 - k), k);
    FieldFits(h % Pow2(32 - k), l / Pow2(32 - k), Pow2(32 - k), Pow2(k));
  }

  /** n >> k for 0 < k < 32 */
  function ShrDword(n: Dword, k: nat): Dword
    requires 1 <= k <= 31
  {
    Dword(Shr32(n.high, k), BitOr(Shl32(n.high, 32 - k), Shr32(n.low, k)))
  }

  lemma ShrDwordValue(n: Dword, k: nat)
    requires n.Fits() && 1 <= k <= 31
    ensures ShrDword(n, k).Fits() && ShrDword(n, k).Value() == n.Value() / Pow2(k)
  {
    JoinHalves(n.high, n.low, 32 - k);
    ShlSplit(n.high, k);
    QuotientAtMost(n.high, Pow2(k));
    var r := ShrDword(n, k);
    assert r.high == n.high / Pow2(k);
    DividePair(n.Value(), n.high, n.low, Pow2(k), Pow2(32 - k), r.high, r.low);
  }

  lemma DividePair(v: nat, h: nat, l: nat, p: nat, c: nat, high: nat, low: nat)
    requires p > 0 && c * p == W && v == h * W + l && high == h / p && low == h % p * c + l / p
    ensures v / p == high * W + low
  {
    var q, r := high, h % p;
    assert h * W == h * c * p by { assert h * (c * p) == h * c * p; }
    MultipleMod(l, p, h * c);
    assert h * c == q * W + r * c by {
      assert (p * q + r) * c == q * (c * p) + r * c;
    }
  }

  /** n << k for 0 < k < 32 */
  function ShlDword(n: Dword, k: nat): Dword
    requires 1 <= k <= 31
  {
    Dword(BitOr(Shl32(n.high, k), Shr32(n.low, 32 - k)), Shl32(n.low, k))
  }

  lemma ShlDwordValue(n: Dword, k: nat)
    requires n.Fits() && 1 <= k <= 31
    ensures ShlDword(n, k).Fits()
    ensures ShlDword(n, k).Value() == (n.high % Pow2(32 - k) * W + n.low) * Pow2(k)
  {
    JoinHalves(n.high, n.low, k);
    ShlSplit(n.low, k);
    TimesPair(n.high % Pow2(32 - k), n.low, Pow2(k), Pow2(32 - k));
  }

  lemma TimesPair(h: nat, l: nat, p: nat, c: nat)
    requires c > 0 && p > 0 && c * p == W
    ensures (h * W + l) * p == (h * p + l / c) * W + l % c * p
    ensures l % c * p < W
  {
    FieldTimes(l, c, p);
    FieldFits(l % c, 0, c, p);
    assert (h * W + l) * p == h * p * W + l * p by {
      assert h * W * p == h * p * W;
    }
  }

  // ---------------------------------------------------------------------------
  // The shift register
  // ---------------------------------------------------------------------------

  /** r:q holds n, `sr` places short of the whole of it having moved into r. */
  ghost predicate Loaded(n: nat, sr: nat, q: Dword, r: Dword) {
    && sr <= 64 && q.Fits() && r.Fits()
    && q.Value() == n % Pow2(sr) * Pow2(64 - sr) && r.Value() == n / Pow2(sr)
  }

  datatype LoadState = LoadState(n: nat, sr: nat, q: Dword, r: Dword)

  type Load = l: LoadState | Loaded(l.n, l.sr, l.q, l.r) ghost witness LoadState(0, 0, Dword(0, 0), Dword(0, 0))

  lemma LoadShort(n: Dword, sr: nat) returns (l: Load)
    requires n.Fits() && 1 <= sr <= 31
    ensures l == LoadState(n.Value(), sr, Dword(Shl32(n.low, 32 - sr), 0), ShrDword(n, sr))
  {
    LoadedShort(n, sr);
    l := LoadState(n.Value(), sr, Dword(Shl32(n.low, 32 - sr), 0), ShrDword(n, sr));
  }

  lemma LoadedShort(n: Dword, sr: nat)
    requires n.Fits() && 1 <= sr <= 31
    ensures Loaded(n.Value(), sr, Dword(Shl32(n.low, 32 - sr), 0), ShrDword(n, sr))
  {
    ShrDwordValue(n, sr);
    var q := Dword(Shl32(n.low, 32 - sr), 0);
    ShortQuotient(n, sr, q.high);
    assert q.Value() == q.high * W;
  }

  lemma ShortQuotient(n: Dword, sr: nat, high: nat)
    requires n.Fits() && 1 <= sr <= 31 && high == Shl32(n.low, 32 - sr)
    ensures high < W && high * W == n.Value() % Pow2(sr) * Pow2(64 - sr)
  {
    ShlSplit(n.low, 32 - sr);
    FieldFits(n.low % Pow2(sr), 0, Pow2(sr), Pow2(32 - sr));
    DoubleWord(32 - sr);
    ShortRest(n.Value(), n.high, n.low, Pow2(sr), Pow2(32 - sr), Pow2(64 - sr), high);
  }

  lemma DoubleWord(k: nat)
    ensures Pow2(k + 32) == Pow2(k) * W
  {
    Pow2Words();
    Pow2Add(k, 32);
  }

  lemma ShortRest(v: nat, h: nat, l: nat, p: nat, c: nat, u: nat, high: nat)
    requires p > 0 && c * p == W && v == h * W + l && u == c * W && high == l % p * c
    ensures high * W == v % p * u
  {
    LowField(h, l, p, c);
  }

  lemma LowField(h: nat, l: nat, p: nat, c: nat)
    requires p > 0 && c * p == W
    ensures (h * W + l) % p == l % p
    ensures l % p * (c * W) == l % p * c * W
  {
    SplitProduct(h, l, p, c);
  }

  lemma LoadWord(n: Dword) returns (l: Load)
    requires n.Fits()
    ensures l == LoadState(n.Value(), 32, Dword(n.low, 0), Dword(0, n.high))
  {
    Pow2Words();
    MultipleMod(n.low, W, n.high);
    DivModUnique(n.low, W, 0, n.low);
    l := LoadState(n.Value(), 32, Dword(n.low, 0), Dword(0, n.high));
  }

  lemma LoadLong(n: Dword, sr: nat) returns (l: Load)
    requires n.Fits() && 33 <= sr <= 63
    ensures l == LoadState(n.Value(), sr, ShlDword(n, 64 - sr), Dword(0, Shr32(n.high, sr - 32)))
  {
    ShlDwordValue(n, 64 - sr);
    ShlSplit(n.high, sr - 32);
    QuotientAtMost(n.high, Pow2(sr - 32));
    Pow2Words();
    Pow2Add(32, sr - 32);
    DivModProduct(n.Value(), W, Pow2(sr - 32));
    DivModUnique(n.Value(), W, n.high, n.low);
    l := LoadState(n.Value(), sr, ShlDword(n, 64 - sr), Dword(0, Shr32(n.high, sr - 32)));
  }

  /** (hi << 1) | (lo >> 31) */
  function ShiftIn(hi: nat, lo: nat): nat {
    BitOr(Shl32(hi, 1), Shr32(lo, 31))
  }

  lemma ShiftInValue(hi: nat, lo: nat)
    requires hi < W && lo < W
    ensures ShiftIn(hi, lo) == 2 * hi % W + lo / 0x8000_0000 < W
  {
    Pow2Words();
    JoinHalves(hi, lo, 1);
    ShlSplit(hi, 1);
    FieldTimes(hi, 0x8000_0000, 2);
  }

  lemma ShiftInCarry(x: nat, carry: nat)
    requires x < W && carry <= 1
    ensures BitOr(Shl32(x, 1), carry) == 2 * x % W + carry < W
  {
    Pow2Words();
    ShlSplit(x, 1);
    OrDisjoint(x % 0x8000_0000, carry, 1);
    FieldTimes(x, 0x8000_0000, 2);
  }

  lemma ShiftPair(h: nat, l: nat, c: nat)
    requires h < W && l < W
    ensures (h * W + l) / 0x8000_0000_0000_0000 == h / 0x8000_0000
    ensures (2 * h % W + l / 0x8000_0000) * W + (2 * l % W + c) == 2 * (h * W + l) + c - h / 0x8000_0000 * D
  {
    var b, y := h / 0x8000_0000, h % 0x8000_0000;
    DivModUnique(h * W + l, 0x8000_0000_0000_0000, b, y * W + l);
    DivModUnique(2 * h, W, b, 2 * y);
    DivModUnique(2 * l, W, l / 0x8000_0000, 2 * (l % 0x8000_0000));
  }

  /** Both registers as one, a place to the left, with the carry in its lowest place. */
  function Shifted(r: Dword, q: Dword, carry: nat): (Dword, Dword) {
    (Dword(ShiftIn(r.high, r.low), ShiftIn(r.low, q.high)),
     Dword(ShiftIn(q.high, q.low), BitOr(Shl32(q.low, 1), carry)))
  }

  /** The top digit of q moves into r, that of r is lost. */
  lemma ShiftedOnce(r: Dword, q: Dword, carry: nat) returns (b: nat, t: nat)
    requires r.Fits() && q.Fits() && carry <= 1
    ensures b == q.Value() / 0x8000_0000_0000_0000 && t == r.Value() / 0x8000_0000_0000_0000
    ensures var (r', q') := Shifted(r, q, carry);
            && r'.Fits() && q'.Fits()
            && q'.Value() == 2 * q.Value() + carry - b * D
            && r'.Value() == 2 * r.Value() + b - t * D
  {
    ShiftInValue(r.high, r.low);
    ShiftInValue(r.low, q.high);
    ShiftInValue(q.high, q.low);
    ShiftInCarry(q.low, carry);
    b, t := q.high / 0x8000_0000, r.high / 0x8000_0000;
    ShiftPair(q.high, q.low, carry);
    ShiftPair(r.high, r.low, b);
    var (r', q') := Shifted(r, q, carry);
    assert r'.high == 2 * r.high % W + r.low / 0x8000_0000;
    assert r'.low == 2 * r.low % W + b;
  }

  /** The digit that a shift takes from the rest of n, and what it leaves. */
  lemma NextDigit(n: nat, sr: nat, lo: nat) returns (b: nat)
    requires 1 <= sr <= 64 && lo < Pow2(64 - sr)
    ensures b <= 1 && b == (n % Pow2(sr) * Pow2(64 - sr) + lo) / 0x8000_0000_0000_0000
    ensures n / Pow2(sr - 1) == 2 * (n / Pow2(sr)) + b
    ensures n % Pow2(sr - 1) * Pow2(65 - sr) + 2 * lo == 2 * (n % Pow2(sr) * Pow2(64 - sr) + lo) - b * D
  {
    var p, c := Pow2(sr - 1), Pow2(64 - sr);
    Pow2Words();
    Pow2Add(sr - 1, 64 - sr);
    DivModProduct(n, p, 2);
    b := n / p % 2;
    TopDigit(b, n % p, p, c, lo);
    assert Pow2(65 - sr) == 2 * c;
  }

  lemma TopDigit(b: nat, y: nat, p: nat, c: nat, lo: nat)
    requires b <= 1 && y < p && lo < c
    ensures var q := (b * p + y) * c + lo;
            q / (p * c) == b && y * (2 * c) + 2 * lo == 2 * q - b * (2 * (p * c))
  {
    FieldFits(y, lo, p, c);
    assert (b * p + y) * c == b * (p * c) + y * c;
    assert b * (2 * (p * c)) == 2 * (b * (p * c));
    assert y * (2 * c) == 2 * (y * c);
    DivModUnique((b * p + y) * c + lo, p * c, b, y * c + lo);
  }

  // ---------------------------------------------------------------------------
  // The loop
  // ---------------------------------------------------------------------------

  /** n cut above its `sr` lowest digits; the cut-off digits stand at the top of 64. */
  datatype CutState = CutState(n: nat, sr: nat, moved: nat, rest: nat, unit: nat)

  ghost predicate IsCut(c: CutState) {
    c.sr <= 64 && c.unit == Pow2(64 - c.sr) && c.moved == c.n / Pow2(c.sr) && c.rest == c.n % Pow2(c.sr) * c.unit
  }

  type Cut = c: CutState | IsCut(c) ghost witness CutState(0, 0, 0, 0, Pow2(64))

  ghost function CutAt(n: nat, sr: nat): (c: Cut)
    requires sr <= 64
    ensures c.n == n && c.sr == sr
  {
    assert n % Pow2(sr) * Pow2(64 - sr) >= 0;
    QuotientAtMost(n, Pow2(sr));
    CutState(n, sr, n / Pow2(sr), n % Pow2(sr) * Pow2(64 - sr), Pow2(64 - sr))
  }

  lemma NextCut(c: Cut, lo: nat) returns (c': Cut, b: nat)
    requires c.sr >= 1 && lo < c.unit
    ensures c'.n == c.n && c'.sr == c.sr - 1 && c'.unit == 2 * c.unit
    ensures b <= 1 && b == (c.rest + lo) / 0x8000_0000_0000_0000
    ensures c'.moved == 2 * c.moved + b && c'.rest == 2 * c.rest - b * D
  {
    b := NextDigit(c.n, c.sr, lo);
    c' := CutAt(c.n, c.sr - 1);
    assert c'.unit == 2 * c.unit;
  }

  lemma CutEnds(c: Cut)
    requires c.n < D
    ensures c.sr == 1 ==> c.moved == c.n / 2
    ensures c.sr == 0 ==> c.moved == c.n && c.rest == 0
  {
    assert Pow2(0) == 1 && Pow2(1) == 2;
  }

  /** A division carried out. */
  datatype DivisionState = DivisionState(n: nat, d: nat, quot: nat, rem: nat)

  type Division = v: DivisionState | v.n == v.d * v.quot + v.rem && v.rem < v.d ghost witness DivisionState(0, 1, 0, 0)

  /** r is the remainder of what of n has moved into it, `lo` and the pending carry are the quotient,
      and q holds the rest of n above `lo`. */
  ghost predicate Dividing(c: Cut, v: Division, r: Dword, q: Dword, carry: nat, lo: nat) {
    && r.Fits() && q.Fits() && carry <= 1 && c.n < D && v.d < D
    && lo < c.unit && q.Value() == c.rest + lo
    && v.n == c.moved && v.quot == 2 * lo + carry && v.rem == r.Value()
    && (v.d <= 0x8000_0000_0000_0000 || c.sr == 0 || (c.sr == 1 && c.n >= 0x8000_0000_0000_0000))
  }

  /** The sign of a word, in all of its digits. */
  function Sign64(x: nat): nat {
    if x >= 0x8000_0000_0000_0000 then D - 1 else 0
  }

  function Halves(v: nat): Dword {
    Dword(v / W, v % W)
  }

  /** The mask by the sign of d - r - 1 selects d for the subtraction, and one for the carry. */
  function Subtracted(d: nat, r: nat): (Dword, nat) {
    var s := Sign64((d - r - 1) % D);
    (Halves((r - BitAnd(d, s)) % D), BitAnd(s, 1))
  }

  /** The sign of d - r - 1 tells whether d can be subtracted, also where d has its top bit set. */
  lemma CompareBySign(d: nat, r: nat)
    requires d < D && r < D
    requires if d <= 0x8000_0000_0000_0000 then r < 2 * d else r >= 0x8000_0000_0000_0000
    ensures var (r', carry) := Subtracted(d, r);
            r'.Fits() && r'.Value() == (if r >= d then r - d else r) && carry == if r >= d then 1 else 0
  {
    SignOfDifference(d, r);
    SignMask(d, (d - r - 1) % D);
    SmallModulus(if r >= d then r - d else r);
    HalvesValue(if r >= d then r - d else r);
  }

  lemma SignOfDifference(d: nat, r: nat)
    requires d < D && r < D
    requires if d <= 0x8000_0000_0000_0000 then r < 2 * d else r >= 0x8000_0000_0000_0000
    ensures (d - r - 1) % D >= 0x8000_0000_0000_0000 <==> r >= d
  {
    assert (d - r - 1) % D == if r >= d then d - r - 1 + D else d - r - 1;
  }

  lemma SmallModulus(x: nat)
    requires x < D
    ensures x % D == x
  {
  }

  lemma SignMask(d: nat, y: nat)
    requires d < D
    ensures BitAnd(Sign64(y), 1) == if y >= 0x8000_0000_0000_0000 then 1 else 0
    ensures BitAnd(d, Sign64(y)) == if y >= 0x8000_0000_0000_0000 then d else 0
  {
    Pow2Words();
    AndMask(d, 64);
    AndMask(Sign64(y), 1);
    assert Pow2(1) == 2;
  }

  lemma RoundArithmetic(v: Division, n: nat, b: nat, carry: nat, r: nat) returns (v': Division)
    requires n == 2 * v.n + b && r < v.d && (carry == 0 || carry == 1)
    requires if carry == 1 then r == 2 * v.rem + b - v.d else r == 2 * v.rem + b
    ensures v' == DivisionState(n, v.d, 2 * v.quot + carry, r)
  {
    var d, quot := v.d, v.quot;
    assert d * (2 * quot) == 2 * (d * quot);
    assert d * (2 * quot + 1) == d * (2 * quot) + d;
    v' := DivisionState(n, d, 2 * quot + carry, r);
  }

  /** With the top bit of d set there is one round, which compares d with the whole of n. */
  lemma WholeOfN(v: Division, n: nat)
    requires n < D && v.d > 0x8000_0000_0000_0000 && v.n == n / 2
    ensures v.quot == 0 && v.rem == n / 2
  {
    if v.quot > 0 { ProductMonotone(v.d, 1, v.quot); }
  }

  datatype RegisterState = RegisterState(c: Cut, v: Division, r: Dword, q: Dword, carry: nat, lo: nat)

  /** Nothing has moved yet. */
  ghost function Undivided(c: Cut, v: Division): (x: RegisterState)
    requires c.n == 0 && v == DivisionState(0, 1, 0, 0)
    ensures Dividing(x.c, x.v, x.r, x.q, x.carry, x.lo)
  {
    assert 0 / Pow2(c.sr) == 0 && 0 % Pow2(c.sr) == 0;
    RegisterState(c, v, Dword(0, 0), Dword(0, 0), 0, 0)
  }

  ghost const NO_CUT: Cut := CutAt(0, 0)

  ghost const NO_DIVISION: Division := DivisionState(0, 1, 0, 0)

  type Register = x: RegisterState | Dividing(x.c, x.v, x.r, x.q, x.carry, x.lo)
    ghost witness Undivided(NO_CUT, NO_DIVISION)

  /** What the shifted register holds: one more digit of n above the remainder. */
  lemma RoundShifts(x: Register) returns (c: Cut, b: nat)
    requires x.c.sr >= 1
    ensures c.n == x.c.n && c.sr == x.c.sr - 1 && x.v.quot < c.unit
    ensures b <= 1 && c.moved == 2 * x.c.moved + b
    ensures var (r, q) := Shifted(x.r, x.q, x.carry);
            && r.Fits() && q.Fits()
            && q.Value() == c.rest + x.v.quot
            && r.Value() == 2 * x.v.rem + b
            && (x.v.d > 0x8000_0000_0000_0000 ==> x.c.sr == 1 && r.Value() == x.c.n)
  {
    var t;
    c, b := NextCut(x.c, x.lo);
    b, t := ShiftedOnce(x.r, x.q, x.carry);
    if x.v.d > 0x8000_0000_0000_0000 {
      CutEnds(x.c);
      CutEnds(c);
      WholeOfN(x.v, x.c.n);
    }
    assert t == 0;
  }

  /** One round of the loop. */
  lemma NextRound(x: Register) returns (x': Register)
    requires x.c.sr >= 1
    ensures x'.c.n == x.c.n && x'.c.sr == x.c.sr - 1 && x'.v.d == x.v.d
    ensures x'.q == Shifted(x.r, x.q, x.carry).1
    ensures (x'.r, x'.carry) == Subtracted(x.v.d, Shifted(x.r, x.q, x.carry).0.Value())
  {
    var (r1, q1) := Shifted(x.r, x.q, x.carry);
    var c, b := RoundShifts(x);
    CompareBySign(x.v.d, r1.Value());
    var (r2, carry) := Subtracted(x.v.d, r1.Value());
    var v := RoundArithmetic(x.v, c.moved, b, carry, r2.Value());
    x' := RegisterState(c, v, r2, q1, carry, x.v.quot);
  }

  /** The shift-subtract loop. */
  method ShiftSubtract(d: nat, sr0: nat, q0: Dword, r0: Dword, ghost x0: Register)
      returns (quot: nat, rem: nat, ghost v: Division)
    requires x0.c.sr == sr0 && x0.v.d == d && x0.r == r0 && x0.q == q0 && x0.carry == 0
    ensures v == DivisionState(x0.c.n, d, quot, rem)
  {
    var q, r, carry, sr := q0, r0, 0, sr0;
    ghost var x := x0;
    while sr > 0
      invariant x.c.n == x0.c.n && x.c.sr == sr && x.v.d == d && x.r == r && x.q == q && x.carry == carry
    {
      x := NextRound(x);
      r := r.(high := ShiftIn(r.high, r.low));
      r := r.(low := ShiftIn(r.low, q.high));
      q := q.(high := ShiftIn(q.high, q.low));
      q := q.(low := BitOr(Shl32(q.low, 1), carry));
      var s := Sign64((d - r.Value() - 1) % D);
      carry := BitAnd(s, 1);
      r := Halves((r.Value() - BitAnd(d, s)) % D);
      sr := sr - 1;
    }
    LastCarry(x);
    quot := BitOr(Shl(q.Value(), 1) % D, carry);
    rem := r.Value();
    v := x.v;
  }

  lemma LastCarry(x: Register)
    requires x.c.sr == 0
    ensures x.v.n == x.c.n && BitOr(Shl(x.q.Value(), 1) % D, x.carry) == x.v.quot && x.r.Value() == x.v.rem
  {
    CutEnds(x.c);
    assert x.q.Value() == x.lo;
    QuotientBound(x.v);
    JoinCarry(x.lo, x.carry);
  }

  lemma QuotientBound(v: Division)
    ensures v.quot <= v.n
  {
    assert (v.d - 1) * v.quot >= 0;
  }

  lemma JoinCarry(lo: nat, carry: nat)
    requires 2 * lo + carry < D && carry <= 1
    ensures BitOr(Shl(lo, 1) % D, carry) == 2 * lo + carry
  {
    assert Pow2(1) == 2;
    OrDisjoint(lo, carry, 1);
    assert Shl(lo, 1) == 2 * lo;
  }

  // ---------------------------------------------------------------------------
  // Unsigned division
  // ---------------------------------------------------------------------------

  /** The difference of the leading zeros, plus one, is a shift after which n is below d. */
  lemma Estimate(n: nat, d: nat, cn: nat, cd: nat)
    requires LeadingZeros(n, 64, cn) && LeadingZeros(d, 64, cd) && n > 0 && d > 0
    ensures cd < cn ==> n < d
    ensures cn <= cd < 64 ==> n / Pow2(cd - cn + 1) < d
    ensures d > 0x8000_0000_0000_0000 && cn <= cd ==> cd == cn == 0 && n >= 0x8000_0000_0000_0000
  {
    assert Pow2(0) == 1;
    if cd < cn {
      if cd + 1 < cn { Pow2Less(64 - cn, 63 - cd); }
    } else {
      Pow2Add(63 - cd, cd - cn + 1);
      QuotientBelow(n, Pow2(cd - cn + 1), Pow2(63 - cd));
    }
    TopBit(d, cd);
    TopBit(n, cn);
  }

  lemma TopBit(x: nat, c: nat)
    requires LeadingZeros(x, 64, c)
    ensures x >= 0x8000_0000_0000_0000 <==> c == 0
  {
    Pow2Words();
    if c > 1 { Pow2Less(64 - c, 63); }
  }

  lemma StartRegister(l: Load, d: nat, cn: nat, cd: nat) returns (x: Register)
    requires 0 < l.n < D && 0 < d < D && LeadingZeros(l.n, 64, cn) && LeadingZeros(d, 64, cd) && cn <= cd
    requires l.sr == cd - cn + 1 <= 64
    ensures x.c.n == l.n && x.c.sr == l.sr && x.v.d == d && x.r == l.r && x.q == l.q && x.carry == 0
  {
    Estimate(l.n, d, cn, cd);
    assert d * 0 == 0;
    var c := CutAt(l.n, l.sr);
    x := RegisterState(c, DivisionState(c.moved, d, 0, l.r.Value()), l.r, l.q, 0, 0);
  }

  /** d & (d - 1) == 0 tests for a power of two. */
  lemma PowerTest(x: nat, c: nat)
    requires x > 0 && TrailingZeros(x, c)
    ensures BitAnd(x, x - 1) == 0 <==> x == Pow2(c)
  {
    AndPredecessor(x, c);
  }

  /** a - b in an unsigned word */
  function Sub32(a: nat, b: nat): (r: nat)
    requires a < W && b < W
    ensures r == if a >= b then a - b else W + a - b
  {
    (a - b) % W
  }

  /** d has a high half only. */
  method DivideByHigh(n: Dword, d: Dword) returns (quot: nat, rem: nat, ghost v: Division)
    requires n.Fits() && d.Fits() && n.high > 0 && d.high > 0 && d.low == 0
    ensures v == DivisionState(n.Value(), d.Value(), quot, rem)
  {
    if n.low == 0 {
      v := HighWords(n, d);
      return n.high / d.high, Dword(n.high % d.high, 0).Value(), v;
    }
    var c := CtzSi2(d.high);
    PowerTest(d.high, c);
    if BitAnd(d.high, d.high - 1) == 0 {
      v := HighPower(n, d, c);
      return Shr32(n.high, c), Dword(BitAnd(n.high, d.high - 1), n.low).Value(), v;
    }
    var cd := ClzSi2(d.high);
    var cn := ClzSi2(n.high);
    HighEstimate(n, d, cn, cd);
    var sr := Sub32(cd, cn);
    if sr > 30 {
      return 0, n.Value(), Small(n.Value(), d.Value());
    }
    sr := sr + 1;
    var q, r := Dword(Shl32(n.low, 32 - sr), 0), ShrDword(n, sr);
    ghost var l := LoadShort(n, sr);
    ghost var x := StartRegister(l, d.Value(), cn, cd);
    quot, rem, v := ShiftSubtract(d.Value(), sr, q, r, x);
  }

  ghost function Small(n: nat, d: nat): (v: Division)
    requires n < d
    ensures v == DivisionState(n, d, 0, n)
  {
    DivisionState(n, d, 0, n)
  }

  lemma HighWords(n: Dword, d: Dword) returns (v: Division)
    requires n.low == d.low == 0 && d.high > 0
    ensures n.high / d.high >= 0
    ensures v == DivisionState(n.Value(), d.Value(), n.high / d.high, Dword(n.high % d.high, 0).Value())
  {
    var q := n.high / d.high;
    WordQuotient(n.high, d.high);
    ScaledDivision(n.high, d.high, q, n.high % d.high);
    v := DivisionState(n.Value(), d.Value(), q, Dword(n.high % d.high, 0).Value());
  }

  lemma ScaledDivision(a: int, d: int, q: int, r: int)
    requires a == d * q + r
    ensures a * W == d * W * q + r * W
  {
    assert d * W * q == d * q * W;
  }

  /** Leading zeros of the high halves are those of the whole, and a divisor with more of them than the
      dividend is not one. */
  lemma HighEstimate(n: Dword, d: Dword, cn: nat, cd: nat)
    requires n.Fits() && d.Fits() && n.high > 0 && d.high > 0
    requires LeadingZeros(n.high, 32, cn) && LeadingZeros(d.high, 32, cd)
    ensures LeadingZeros(n.Value(), 64, cn) && LeadingZeros(d.Value(), 64, cd)
    ensures cn <= 31 && cd <= 31 && (BitAnd(d.high, d.high - 1) != 0 ==> cd <= 30)
    ensures cd < cn ==> n.Value() < d.Value()
  {
    assert Pow2(0) == 1 && Pow2(1) == 2;
    ClzHigh(n, cn);
    ClzHigh(d, cd);
    Estimate(n.Value(), d.Value(), cn, cd);
  }

  lemma HighPower(n: Dword, d: Dword, c: nat) returns (v: Division)
    requires n.Fits() && d.Fits() && d.high == Pow2(c) && d.low == 0
    ensures c < 32
    ensures v == DivisionState(n.Value(), d.Value(), Shr32(n.high, c), Dword(BitAnd(n.high, d.high - 1), n.low).Value())
  {
    WordFactors(c);
    AndMask(n.high, c);
    ShrIsQuotient(n.high, c);
    var p, q := Pow2(c), Shr32(n.high, c);
    WordQuotient(n.high, p);
    ScaledDivision(n.high, p, q, n.high % p);
    v := DivisionState(n.Value(), d.Value(), q, Dword(n.high % p, n.low).Value());
  }

  lemma LowPower(n: Dword, d: Dword, c: nat) returns (v: Division)
    requires n.Fits() && d.Fits() && d.high == 0 && d.low == Pow2(c)
    ensures c < 32 && (c == 0 <==> d.low == 1)
    ensures d.low == 1 ==> v == DivisionState(n.Value(), d.Value(), n.Value(), BitAnd(n.low, d.low - 1))
    ensures d.low != 1 ==> v == DivisionState(n.Value(), d.Value(), ShrDword(n, c).Value(), BitAnd(n.low, d.low - 1))
  {
    WordFactors(c);
    AndMask(n.low, c);
    LowField(n.high, n.low, Pow2(c), Pow2(32 - c));
    assert n.Value() == n.high * W + n.low;
    if c == 0 {
      assert Pow2(0) == 1;
      v := DivisionState(n.Value(), 1, n.Value(), 0);
    } else {
      ShrDwordValue(n, c);
      WordQuotient(n.Value(), Pow2(c));
      v := DivisionState(n.Value(), Pow2(c), ShrDword(n, c).Value(), n.low % Pow2(c));
    }
  }

  /** d has a low half only. */
  method DivideByLow(n: Dword, d: Dword) returns (quot: nat, rem: nat, ghost v: Division)
    requires n.Fits() && d.Fits() && n.high > 0 && d.high == 0 && d.low > 0
    ensures v == DivisionState(n.Value(), d.Value(), quot, rem)
  {
    var q, r, sr;
    var c := CtzSi2(d.low);
    PowerTest(d.low, c);
    if BitAnd(d.low, d.low - 1) == 0 {
      rem := BitAnd(n.low, d.low - 1);
      v := LowPower(n, d, c);
      if d.low == 1 {
        return n.Value(), rem, v;
      }
      sr := c;
      q := ShrDword(n, sr);
      return q.Value(), rem, v;
    }
    var cd := ClzSi2(d.low);
    var cn := ClzSi2(n.high);
    LowEstimate(n, d, cn, cd);
    sr := 33 + cd - cn;
    ghost var l: Load;
    if sr == 32 {
      q, r := Dword(n.low, 0), Dword(0, n.high);
      l := LoadWord(n);
    } else if sr < 32 {
      q, r := Dword(Shl32(n.low, 32 - sr), 0), ShrDword(n, sr);
      l := LoadShort(n, sr);
    } else {
      q, r := ShlDword(n, 64 - sr), Dword(0, Shr32(n.high, sr - 32));
      l := LoadLong(n, sr);
    }
    ghost var x := StartRegister(l, d.Value(), cn, 32 + cd);
    quot, rem, v := ShiftSubtract(d.Value(), sr, q, r, x);
  }

  lemma LowEstimate(n: Dword, d: Dword, cn: nat, cd: nat)
    requires n.Fits() && d.Fits() && n.high > 0 && d.high == 0 && d.low > 0 && BitAnd(d.low, d.low - 1) != 0
    requires LeadingZeros(n.high, 32, cn) && LeadingZeros(d.low, 32, cd)
    ensures LeadingZeros(n.Value(), 64, cn) && LeadingZeros(d.Value(), 64, 32 + cd)
    ensures cn <= 31 && cd <= 30
  {
    assert Pow2(0) == 1 && Pow2(1) == 2;
    ClzHigh(n, cn);
    ClzHigh(d, cd);
  }

  /** Both halves of d are there. */
  method DivideByBoth(n: Dword, d: Dword) returns (quot: nat, rem: nat, ghost v: Division)
    requires n.Fits() && d.Fits() && n.high > 0 && d.high > 0 && d.low > 0
    ensures v == DivisionState(n.Value(), d.Value(), quot, rem)
  {
    var cd := ClzSi2(d.high);
    var cn := ClzSi2(n.high);
    HighEstimate(n, d, cn, cd);
    var sr := Sub32(cd, cn);
    if sr > 31 {
      return 0, n.Value(), Small(n.Value(), d.Value());
    }
    sr := sr + 1;
    var q, r;
    ghost var l: Load;
    if sr == 32 {
      q, r := Dword(n.low, 0), Dword(0, n.high);
      l := LoadWord(n);
    } else {
      q, r := Dword(Shl32(n.low, 32 - sr), 0), ShrDword(n, sr);
      l := LoadShort(n, sr);
    }
    ghost var x := StartRegister(l, d.Value(), cn, cd);
    quot, rem, v := ShiftSubtract(d.Value(), sr, q, r, x);
  }

  lemma HalvesValue(v: nat)
    requires v < D
    ensures Halves(v).Fits() && Halves(v).Value() == v
  {
  }

  /** __udivmoddi4 */
  method Udivmoddi4(a: nat, b: nat) returns (quot: nat, rem: nat)
    requires a < D && 0 < b < D
    ensures a == b * quot + rem && rem < b
  {
    var n, d := Halves(a), Halves(b);
    ghost var v: Division;
    HalvesValue(a);
    HalvesValue(b);
    if n.high == 0 {
      if d.high == 0 {
        WordQuotient(n.low, d.low);
        return n.low / d.low, n.low % d.low;
      }
      v := Small(a, b);
      return 0, n.low;
    }
    if d.low == 0 {
      quot, rem, v := DivideByHigh(n, d);
    } else if d.high == 0 {
      quot, rem, v := DivideByLow(n, d);
    } else {
      quot, rem, v := DivideByBoth(n, d);
    }
  }

  lemma WordQuotient(a: nat, b: nat)
    requires b > 0
    ensures a / b >= 0 && a == b * (a / b) + a % b
  {
    QuotientAtMost(a, b);
  }
}
