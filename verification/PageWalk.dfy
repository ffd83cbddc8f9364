/**
 What the walk answers, read off the digits of the entries in memory: which entry it consults at each level,
 where it ends, and which digits of the last entry an access needs.
 */
module PageWalk {
  import opened Options
  import opened DivMod
  import opened Bits
  import opened Digits
  import opened StatusWord
  import opened PageTables
  import opened Tlb

  // ---------------------------------------------------------------------------
  // Digits of quotients and remainders
  // ---------------------------------------------------------------------------

  lemma {:induction false} DigitIs(x: nat, k: nat)
    ensures Bit(x, k) <==> x / Pow2(k) % 2 == 1
  {
    if k > 0 {
      DigitIs(x / 2, k - 1);
      DivModProduct(x, 2, Pow2(k - 1));
    }
  }

  lemma {:induction false} LowDigit(l: nat, h: nat, k: nat, i: nat)
    requires i < k
    ensures Bit(l + Pow2(k) * h, i) <==> Bit(l, i)
  {
    var p := Pow2(k - 1);
    assert Pow2(k) * h == 2 * (p * h);
    assert (l + Pow2(k) * h) / 2 == l / 2 + p * h;
    if i > 0 { LowDigit(l / 2, h, k - 1, i - 1); }
  }

  /** No one among the lowest `k` digits. */
  ghost predicate Zeros(x: nat, k: nat) {
    forall i: nat :: i < k ==> !Bit(x, i)
  }

  lemma ZerosHalved(x: nat, k: nat)
    requires k > 0
    ensures Zeros(x, k) <==> x % 2 == 0 && Zeros(x / 2, k - 1)
  {
    if Zeros(x, k) {
      assert !Bit(x, 0);
      forall i: nat | i < k - 1 ensures !Bit(x / 2, i) { assert !Bit(x, i + 1); }
    }
    if x % 2 == 0 && Zeros(x / 2, k - 1) {
      forall i: nat | i < k ensures !Bit(x, i) {
        if i > 0 { assert !Bit(x / 2, i - 1); }
      }
    }
  }

  /** A multiple of a power of two ends in zeros. */
  lemma {:induction false} EndsInZeros(x: nat, k: nat)
    ensures x % Pow2(k) == 0 <==> Zeros(x, k)
  {
    if k > 0 {
      EndsInZeros(x / 2, k - 1);
      HalfDivMod(x, k - 1);
      ZerosHalved(x, k);
    }
  }

  /** Digits of a quotient by a power of two. */
  lemma QuotientDigit(x: nat, y: nat, k: nat, i: nat)
    requires y == x / Pow2(k)
    ensures Bit(y, i) <==> Bit(x, i + k)
  {
    ShrBit(x, k, i);
    ShrIsQuotient(x, k);
  }

  /** Digits of a remainder by a power of two. */
  lemma RemainderDigit(x: nat, r: nat, h: nat, k: nat, p: nat, i: nat)
    requires p == Pow2(k) && x == r + p * h && i < k
    ensures Bit(r, i) <==> Bit(x, i)
  {
    LowDigit(r, h, k, i);
  }

  lemma {:induction false} HighDigit(l: nat, h: nat, k: nat, i: nat)
    requires l < Pow2(k) && i >= k
    ensures Bit(l + Pow2(k) * h, i) <==> Bit(h, i - k)
  {
    if k > 0 {
      var p := Pow2(k - 1);
      assert Pow2(k) * h == 2 * (p * h);
      assert (l + Pow2(k) * h) / 2 == l / 2 + p * h;
      HighDigit(l / 2, h, k - 1, i - 1);
    }
  }

  // ---------------------------------------------------------------------------
  // Addresses
  // ---------------------------------------------------------------------------

  /** VPNBITS */
  function VpnBits(c: Scheme): nat {
    match c
    case Sv32 => 10
    case Sv39 => 9
  }

  lemma Constants(c: Scheme)
    ensures Pow2(8) == 256 && Pow2(10) == 1024 && Pow2(12) == PGSIZE && Entries(c) == Pow2(VpnBits(c))
    ensures Entries(c) * PteSize(c) == PGSIZE
  {
    assert Pow2(4) == 16;
    Pow2Add(4, 4);
    Pow2Add(8, 2);
    Pow2Add(10, 2);
    assert Pow2(9) == 512;
  }

  lemma PagesAre(c: Scheme, level: nat)
    requires level < Levels(c)
    ensures Pages(c, level) == Pow2(VpnBits(c) * level) && Span(c, level) == Pow2(12 + VpnBits(c) * level)
  {
    Constants(c);
    Pow2Add(VpnBits(c), VpnBits(c));
    Pow2Add(12, VpnBits(c) * level);
    assert Pow2(0) == 1;
  }

  /** The virtual page number of a level: 10 digits on Sv32 and 9 on Sv39, above the 12 of the offset and
      those of the lower levels. */
  lemma VpnDigits(c: Scheme, level: nat, vaddr: nat, i: nat)
    requires level < Levels(c)
    ensures Vpn(c, level, vaddr) < Pow2(VpnBits(c))
    ensures i < VpnBits(c) ==> (Bit(Vpn(c, level, vaddr), i) <==> Bit(vaddr, i + (12 + VpnBits(c) * level)))
  {
    var k, e, y := 12 + VpnBits(c) * level, Entries(c), vaddr / Span(c, level);
    Constants(c);
    PagesAre(c, level);
    QuotientDigit(vaddr, y, k, i);
    assert y == y % e + e * (y / e);
    if i < VpnBits(c) { RemainderDigit(y, y % e, y / e, VpnBits(c), e, i); }
  }

  /** Every digit above the lowest 39 is `b`. */
  ghost predicate Extends(vaddr: nat, b: bool) {
    forall i: nat :: 39 <= i < 64 ==> Bit(vaddr, i) == b
  }

  lemma TopIs(vaddr: nat, b: bool, h: nat, top: nat, n: nat)
    requires n == 25 && h < Pow2(n) && top < Pow2(n)
    requires forall i: nat :: i < n ==> (Bit(h, i) <==> Bit(vaddr, i + 39)) && Bit(top, i) == b
    ensures h == top <==> Extends(vaddr, b)
  {
    if Extends(vaddr, b) {
      forall i: nat | i < n ensures Bit(h, i) == Bit(top, i) { assert Bit(vaddr, i + 39) == b; }
      SameBits(h, top, n);
    } else {
      var i: nat :| 39 <= i < 64 && Bit(vaddr, i) != b;
      assert Bit(h, i - 39) != Bit(top, i - 39);
    }
  }

  lemma TopOf(vaddr: nat, h: nat, top: nat, b: bool, i: nat)
    requires h == vaddr / 0x80_0000_0000 && top == (if b then 0x1ff_ffff else 0) && i < 25
    ensures (Bit(h, i) <==> Bit(vaddr, i + 39)) && Bit(top, i) == b
  {
    TopDigits();
    QuotientDigit(vaddr, h, 39, i);
    OnesDigit(25, i);
    ZeroBit(i);
  }

  /** Digits 39 to 63 of an Sv39 address repeat digit 38. */
  lemma CanonicalDigits(vaddr: nat)
    requires vaddr < 0x1_0000_0000_0000_0000
    ensures Canonical(Sv39, vaddr) <==> Extends(vaddr, Bit(vaddr, 38))
    ensures Canonical(Sv32, vaddr)
  {
    var b := Bit(vaddr, 38);
    var h, top := vaddr / 0x80_0000_0000, if b then 0x1ff_ffff else 0;
    TopDigits();
    DigitIs(vaddr, 38);
    forall i: nat | i < 25 ensures (Bit(h, i) <==> Bit(vaddr, i + 39)) && Bit(top, i) == b {
      TopOf(vaddr, h, top, b, i);
    }
    TopIs(vaddr, b, h, top, 25);
  }

  lemma TopDigits()
    ensures Pow2(38) == 0x40_0000_0000 && Pow2(39) == 0x80_0000_0000 && Pow2(25) == 0x200_0000
  {
    Pow2Words();
    assert Pow2(6) == 64 && Pow2(7) == 128 && Pow2(9) == 512;
    Pow2Add(32, 6);
    Pow2Add(32, 7);
    Pow2Add(16, 9);
  }

  lemma {:induction false} OnesDigit(k: nat, i: nat)
    ensures Bit(Pow2(k) - 1, i) <==> i < k
  {
    NotBit(0, k, i);
    ZeroBit(i);
  }

  // ---------------------------------------------------------------------------
  // Entries
  // ---------------------------------------------------------------------------

  predicate Readable(c: Scheme, mem: seq<Byte>, start: nat, a: nat) {
    start <= a && a + PteSize(c) <= start + |mem|
  }

  /** The entry at an address: a little-endian word. */
  function EntryAt(c: Scheme, mem: seq<Byte>, start: nat, a: nat): nat
    requires Readable(c, mem, start, a)
  {
    Word(mem, a - start, PteSize(c))
  }

  lemma {:induction false} WordDigit(mem: seq<Byte>, off: nat, len: nat, j: nat, i: nat, k: nat)
    requires off + len <= |mem| && j < len && i < 8 && k == 8 * j + i
    ensures Bit(Word(mem, off, len), k) <==> Bit(mem[off + j], i)
    decreases len
  {
    Pow2Bytes();
    if j == 0 {
      LowDigit(mem[off], Word(mem, off + 1, len - 1), 8, i);
    } else {
      HighDigit(mem[off], Word(mem, off + 1, len - 1), 8, k);
      WordDigit(mem, off + 1, len - 1, j - 1, i, k - 8);
    }
  }

  lemma Pow2Bytes()
    ensures Pow2(8) == 256
  {
    assert Pow2(4) == 16;
  }

  /** Digit i of the byte at `a` + j is digit 8 j + i of the entry. */
  lemma EntryDigits(c: Scheme, mem: seq<Byte>, start: nat, a: nat, j: nat, i: nat)
    requires Readable(c, mem, start, a) && j < PteSize(c) && i < 8
    ensures a - start + j < |mem| && (Bit(EntryAt(c, mem, start, a), 8 * j + i) <==> Bit(mem[a - start + j], i))
  {
    WordDigit(mem, a - start, PteSize(c), j, i, 8 * j + i);
  }

  /** V, and none of R, W and X. */
  predicate IsPointer(v: nat) {
    Bit(v, 0) && !Bit(v, 1) && !Bit(v, 2) && !Bit(v, 3)
  }

  /** V, and one of the encodings of R, W and X that is neither a pointer nor reserved. */
  predicate IsLeaf(v: nat) {
    Bit(v, 0) && (Bit(v, 1) || (!Bit(v, 2) && Bit(v, 3)))
  }

  /** The page number of a leaf at `level` has no digits below the size of its page. */
  ghost predicate IsAligned(c: Scheme, level: nat, v: nat) {
    forall i: nat :: 10 <= i < 10 + VpnBits(c) * level ==> !Bit(v, i)
  }

  /** What the access needs of R, W and X, and what U asks of the privilege mode. */
  predicate Grants(v: nat, priv: Priv, sum: bool, t: MemType) {
    && (t == LoadType || t == AmoType ==> Bit(v, 1))
    && (t == StoreType || t == AmoType ==> Bit(v, 2))
    && (t == FetchType ==> Bit(v, 3))
    && (if Bit(v, 4) then priv == User || sum else priv != User)
  }

  /** The address of the entry that the walk consults at a level, if it gets there: in the root table at the
      top level, else in the table that the entry above points to. */
  function Consulted(c: Scheme, mem: seq<Byte>, start: nat, base: nat, vaddr: nat, level: nat): Option<nat>
    requires level < Levels(c)
    decreases Levels(c) - level
  {
    var offset := Vpn(c, level, vaddr) * PteSize(c);
    if level == Levels(c) - 1 then Some((base + offset) % WordSize(c))
    else
      match Consulted(c, mem, start, base, vaddr, level + 1)
      case None => None
      case Some(a) =>
        if Readable(c, mem, start, a) && IsPointer(EntryAt(c, mem, start, a))
        then Some((EntryAt(c, mem, start, a) / 1024 * 4096 + offset) % WordSize(c)) else None
  }

  /** The walk gets to the level and not below it. */
  ghost predicate EndsAt(c: Scheme, mem: seq<Byte>, start: nat, base: nat, vaddr: nat, level: nat) {
    level < Levels(c) &&
    var a := Consulted(c, mem, start, base, vaddr, level);
    a.Some? && (level == 0 || !Readable(c, mem, start, a.value) || !IsPointer(EntryAt(c, mem, start, a.value)))
  }

  lemma FlagDigit(v: nat, h: nat, f: Byte)
    requires v == f + 256 * h
    ensures (Bit(v, 0) <==> FlagV(f)) && (Bit(v, 1) <==> FlagR(f)) && (Bit(v, 2) <==> FlagW(f))
    ensures (Bit(v, 3) <==> FlagX(f)) && (Bit(v, 4) <==> FlagU(f))
  {
    Constants(Sv32);
    assert Pow2(0) == 1 && Pow2(1) == 2 && Pow2(2) == 4 && Pow2(3) == 8 && Pow2(4) == 16;
    LowDigit(f, h, 8, 0); LowDigit(f, h, 8, 1); LowDigit(f, h, 8, 2); LowDigit(f, h, 8, 3); LowDigit(f, h, 8, 4);
    DigitIs(f, 0); DigitIs(f, 1); DigitIs(f, 2); DigitIs(f, 3); DigitIs(f, 4);
  }

  /** What the walk reads is the entry, by its digits. */
  lemma EntryRead(c: Scheme, mem: seq<Byte>, start: nat, a: nat)
    ensures ReadPte(c, mem, start, a).Some? <==> Readable(c, mem, start, a)
    ensures Readable(c, mem, start, a) ==>
              var v, pte := EntryAt(c, mem, start, a), ReadPte(c, mem, start, a).value;
              && pte.Value() == v && pte.Ppn() == v / 1024
              && (Bit(v, 0) <==> FlagV(pte.flag)) && (Bit(v, 1) <==> FlagR(pte.flag))
              && (Bit(v, 2) <==> FlagW(pte.flag)) && (Bit(v, 3) <==> FlagX(pte.flag))
              && (Bit(v, 4) <==> FlagU(pte.flag))
  {
    if Readable(c, mem, start, a) {
      var pte := ReadPte(c, mem, start, a).value;
      FlagDigit(pte.Value(), pte.high, pte.flag);
    }
  }

  lemma AlignedDigits(c: Scheme, level: nat, v: nat)
    requires level < Levels(c)
    ensures v / 1024 % Pages(c, level) == 0 <==> IsAligned(c, level, v)
  {
    var k := VpnBits(c) * level;
    Constants(c);
    PagesAre(c, level);
    EndsInZeros(v / 1024, k);
    forall i: nat ensures Bit(v / 1024, i) <==> Bit(v, i + 10) { QuotientDigit(v, v / 1024, 10, i); }
    if v / 1024 % Pages(c, level) == 0 {
      forall i: nat | 10 <= i < 10 + k ensures !Bit(v, i) { assert !Bit(v / 1024, i - 10); }
    } else {
      var i: nat :| i < k && Bit(v / 1024, i);
      assert 10 <= i + 10 < 10 + k && Bit(v, i + 10);
    }
  }

  // ---------------------------------------------------------------------------
  // The walk by levels
  // ---------------------------------------------------------------------------

  lemma TwoSteps(x: nat, y: nat, w: nat)
    requires w > 0
    ensures (x % w + y) % w == (x + y) % w
  {
    MultipleMod(x % w + y, w, x / w);
    assert x / w * w + (x % w + y) == x + y;
  }

  /** Where the search for the leaf stands once it has got to a level. */
  lemma {:induction false} SearchAt(c: Scheme, mem: seq<Byte>, start: nat, base: nat, vaddr: nat, level: nat)
    returns (b: nat)
    requires level < Levels(c) && Consulted(c, mem, start, base, vaddr, level).Some?
    ensures Consulted(c, mem, start, base, vaddr, level) == Some(PteAddr(c, b, level, vaddr))
    ensures FindLeaf(c, mem, start, base, Levels(c) - 1, vaddr) == FindLeaf(c, mem, start, b, level, vaddr)
    decreases Levels(c) - level
  {
    if level == Levels(c) - 1 {
      b := base;
    } else {
      var above := SearchAt(c, mem, start, base, vaddr, level + 1);
      var a := Consulted(c, mem, start, base, vaddr, level + 1).value;
      EntryRead(c, mem, start, a);
      var pte := ReadPte(c, mem, start, a).value;
      InspectIs(c, level + 1, a, pte, EntryAt(c, mem, start, a));
      b := NextBase(c, pte);
      NextEntry(c, pte, level, vaddr);
    }
  }

  lemma NextEntry(c: Scheme, pte: Pte, level: nat, vaddr: nat)
    requires level < Levels(c)
    ensures PteAddr(c, NextBase(c, pte), level, vaddr) ==
              (pte.Ppn() * 4096 + Vpn(c, level, vaddr) * PteSize(c)) % WordSize(c)
  {
    TwoSteps(pte.Ppn() * PGSIZE, Vpn(c, level, vaddr) * PteSize(c), WordSize(c));
  }

  /** The walk ends at one level. */
  lemma {:induction false} EndsSomewhere(c: Scheme, mem: seq<Byte>, start: nat, base: nat, vaddr: nat, level: nat)
    returns (end: nat)
    requires level < Levels(c) && Consulted(c, mem, start, base, vaddr, level).Some?
    ensures EndsAt(c, mem, start, base, vaddr, end)
    decreases level
  {
    if EndsAt(c, mem, start, base, vaddr, level) {
      end := level;
    } else {
      end := EndsSomewhere(c, mem, start, base, vaddr, level - 1);
    }
  }

  lemma {:induction false} BelowTheEnd(c: Scheme, mem: seq<Byte>, start: nat, base: nat, vaddr: nat, end: nat,
      level: nat)
    requires EndsAt(c, mem, start, base, vaddr, end) && level < end
    ensures Consulted(c, mem, start, base, vaddr, level).None?
    decreases end - level
  {
    if level + 1 < end { BelowTheEnd(c, mem, start, base, vaddr, end, level + 1); }
  }

  lemma EndsOnce(c: Scheme, mem: seq<Byte>, start: nat, base: nat, vaddr: nat)
    ensures exists end :: EndsAt(c, mem, start, base, vaddr, end)
    ensures forall a, b :: EndsAt(c, mem, start, base, vaddr, a) && EndsAt(c, mem, start, base, vaddr, b) ==> a == b
  {
    var end := EndsSomewhere(c, mem, start, base, vaddr, Levels(c) - 1);
    forall a, b | EndsAt(c, mem, start, base, vaddr, a) && EndsAt(c, mem, start, base, vaddr, b) ensures a == b {
      if a < b { BelowTheEnd(c, mem, start, base, vaddr, b, a); }
      if b < a { BelowTheEnd(c, mem, start, base, vaddr, a, b); }
    }
  }

  // ---------------------------------------------------------------------------
  // The physical address
  // ---------------------------------------------------------------------------

  function WordBits(c: Scheme): nat {
    match c
    case Sv32 => 32
    case Sv39 => 64
  }

  /** The digits of the offset in the leaf's page come from the address, those above from two places lower in
      the entry. */
  ghost predicate IsAddress(c: Scheme, level: nat, v: nat, vaddr: nat, paddr: nat) {
    && paddr < WordSize(c)
    && forall i: nat :: i < WordBits(c) ==>
         (Bit(paddr, i) <==> if i < 12 + VpnBits(c) * level then Bit(vaddr, i) else Bit(v, i - 2))
  }

  lemma WordDigits(c: Scheme)
    ensures WordSize(c) == Pow2(WordBits(c))
  {
    Pow2Words();
  }

  lemma ShiftedDigit(v: nat, i: nat)
    requires i >= 2
    ensures Bit(v * 4, i) <==> Bit(v, i - 2)
  {
    HighDigit(0, v, 2, i);
    assert Pow2(2) == 4;
  }

  /** An address put together from a frame and an offset. */
  lemma JoinedDigit(x: nat, s: nat, h: nat, off: nat, k: nat, i: nat)
    requires s == Pow2(k) && off < s && h == x / s
    ensures Bit(off + s * h, i) <==> if i < k then Bit(off, i) else Bit(x, i)
  {
    if i < k {
      LowDigit(off, h, k, i);
    } else {
      HighDigit(off, h, k, i);
      QuotientDigit(x, h, k, i - k);
    }
  }

  lemma PhysDigit(c: Scheme, level: nat, v: nat, vaddr: nat, i: nat, k: nat, s: nat, x: nat, h: nat, off: nat)
    requires level < Levels(c) && k == 12 + VpnBits(c) * level && s == Span(c, level) && i < WordBits(c)
    requires x == v * 4 % WordSize(c) && h == x / s && off == vaddr % s
    ensures off < s && (Bit(off + s * h, i) <==> if i < k then Bit(vaddr, i) else Bit(v, i - 2))
  {
    PagesAre(c, level);
    JoinedDigit(x, s, h, off, k, i);
    if i < k {
      RemainderDigit(vaddr, off, vaddr / s, k, s, i);
    } else {
      WordDigits(c);
      RemainderDigit(v * 4, x, v * 4 / WordSize(c), WordBits(c), WordSize(c), i);
      ShiftedDigit(v, i);
    }
  }

  lemma PhysIs(c: Scheme, level: nat, pte: Pte, vaddr: nat) returns (s: nat, x: nat, h: nat, off: nat)
    requires level < Levels(c)
    ensures s == Span(c, level) && x == pte.Value() * 4 % WordSize(c) && h == x / s && off == vaddr % s
    ensures PhysAddr(c, level, pte, vaddr) == off + s * h && x < WordSize(c) && off < s
  {
    s := Span(c, level);
    x := pte.Value() * 4 % WordSize(c);
    h := x / s;
    off := vaddr % s;
  }

  lemma PhysAddrIsAddress(c: Scheme, level: nat, pte: Pte, vaddr: nat)
    requires level < Levels(c)
    ensures IsAddress(c, level, pte.Value(), vaddr, PhysAddr(c, level, pte, vaddr))
  {
    var s, x, h, off := PhysIs(c, level, pte, vaddr);
    WholePages(c, level);
    BelowWord(s, Frames(c) / Pages(c, level), WordSize(c), x, h, off);
    var v, a := pte.Value(), off + s * h;
    forall i: nat | i < WordBits(c)
      ensures Bit(a, i) <==> if i < 12 + VpnBits(c) * level then Bit(vaddr, i) else Bit(v, i - 2)
    {
      PhysDigit(c, level, v, vaddr, i, 12 + VpnBits(c) * level, s, x, h, off);
    }
    assert IsAddress(c, level, v, vaddr, a);
  }

  /** Words are whole numbers of pages. */
  lemma WholePages(c: Scheme, level: nat)
    requires level < Levels(c)
    ensures WordSize(c) == Span(c, level) * (Frames(c) / Pages(c, level))
  {
  }

  lemma BelowWord(s: nat, n: nat, w: nat, x: nat, h: nat, off: nat)
    requires s > 0 && w == s * n && x < w && h == x / s && off < s
    ensures off + s * h < w
  {
    QuotientBelow(x, s, n);
    ProductMonotone(s, h + 1, n);
    assert s * (h + 1) == s * h + s;
  }

  // ---------------------------------------------------------------------------
  // The answer
  // ---------------------------------------------------------------------------

  lemma GrantsIs(v: nat, f: Byte, priv: Priv, sum: bool, t: MemType)
    requires (Bit(v, 1) <==> FlagR(f)) && (Bit(v, 2) <==> FlagW(f)) && (Bit(v, 3) <==> FlagX(f))
    requires Bit(v, 4) <==> FlagU(f)
    ensures WalkAllows(f, priv, sum) && Permits(f, t) <==> Grants(v, priv, sum, t)
  {
  }

  lemma InspectIs(c: Scheme, level: nat, a: nat, pte: Pte, v: nat)
    requires level < Levels(c) && pte.Ppn() == v / 1024
    requires (Bit(v, 0) <==> FlagV(pte.flag)) && (Bit(v, 1) <==> FlagR(pte.flag)) && (Bit(v, 2) <==> FlagW(pte.flag))
    requires Bit(v, 3) <==> FlagX(pte.flag)
    ensures Inspect(c, level, a, pte).None? <==> IsPointer(v)
    ensures Inspect(c, level, a, pte) == Some(Found(level, a, pte)) <==> IsLeaf(v) && IsAligned(c, level, v)
    ensures Inspect(c, level, a, pte).None? || Inspect(c, level, a, pte) == Some(Found(level, a, pte))
            || Inspect(c, level, a, pte) == Some(LeafPageFault)
  {
    AlignedDigits(c, level, v);
  }

  /** What a translation answers whose walk ends at an entry `v` of memory: an address exactly if it is a leaf,
      aligned for its level, that grants the access; a page fault if it is no pointer. */
  ghost predicate Answers(c: Scheme, r: VMResult, v: nat, level: nat, vaddr: nat, priv: Priv, sum: bool, t: MemType) {
    && (r.Unreachable? <==> IsPointer(v))
    && (r.Ok? ==> IsAddress(c, level, v, vaddr, r.paddr))
    && (r.Ok? <==> IsLeaf(v) && IsAligned(c, level, v) && Grants(v, priv, sum, t))
    && (!r.Ok? && !IsPointer(v) ==> r == PageFault)
  }

  /** The translation of an address with translation on, by where the walk ends: an access fault if the entry
      there is outside the memory; a page fault for addresses that are not canonical. */
  lemma TranslatesExactly(c: Scheme, start: nat, p: Plain, vaddr: nat, t: MemType, end: nat)
    requires !p.ctl.Off() && EndsAt(c, p.mem, start, p.ctl.base, vaddr, end)
    ensures var r, a := PlainTranslate(c, start, p, vaddr, t), Consulted(c, p.mem, start, p.ctl.base, vaddr, end).value;
            if !Canonical(c, vaddr) then r == PageFault
            else if !Readable(c, p.mem, start, a) then r == AccessFault
            else Answers(c, r, EntryAt(c, p.mem, start, a), end, vaddr, p.ctl.priv, p.ctl.sum, t)
  {
    if Canonical(c, vaddr) {
      var b := SearchAt(c, p.mem, start, p.ctl.base, vaddr, end);
      LeafAt(c, p.mem, start, b, end, vaddr, p.ctl.priv, p.ctl.sum, t);
    }
  }

  lemma LeafAt(c: Scheme, mem: seq<Byte>, start: nat, b: nat, end: nat, vaddr: nat, priv: Priv, sum: bool, t: MemType)
    requires end < Levels(c)
    requires var a := PteAddr(c, b, end, vaddr);
             end == 0 || !Readable(c, mem, start, a) || !IsPointer(EntryAt(c, mem, start, a))
    ensures var leaf, a := FindLeaf(c, mem, start, b, end, vaddr), PteAddr(c, b, end, vaddr);
            var r := Conclude(c, leaf, vaddr, priv, sum, t);
            if !Readable(c, mem, start, a) then r == AccessFault
            else Answers(c, r, EntryAt(c, mem, start, a), end, vaddr, priv, sum, t)
  {
    var a := PteAddr(c, b, end, vaddr);
    EntryRead(c, mem, start, a);
    if Readable(c, mem, start, a) {
      var v, pte := EntryAt(c, mem, start, a), ReadPte(c, mem, start, a).value;
      var leaf := Inspect(c, end, a, pte);
      InspectIs(c, end, a, pte, v);
      LeafAnswers(c, if leaf.Some? then leaf.value else Undefined, end, a, pte, v, vaddr, priv, sum, t);
    }
  }

  lemma LeafAnswers(c: Scheme, leaf: Leaf, level: nat, a: nat, pte: Pte, v: nat, vaddr: nat,
      priv: Priv, sum: bool, t: MemType)
    requires level < Levels(c) && v == pte.Value()
    requires leaf == Undefined || leaf == Found(level, a, pte) || leaf == LeafPageFault
    requires leaf == Undefined <==> IsPointer(v)
    requires leaf == Found(level, a, pte) <==> IsLeaf(v) && IsAligned(c, level, v)
    requires (Bit(v, 1) <==> FlagR(pte.flag)) && (Bit(v, 2) <==> FlagW(pte.flag)) && (Bit(v, 3) <==> FlagX(pte.flag))
    requires Bit(v, 4) <==> FlagU(pte.flag)
    ensures Answers(c, Conclude(c, leaf, vaddr, priv, sum, t), v, level, vaddr, priv, sum, t)
  {
    GrantsIs(v, pte.flag, priv, sum, t);
    PhysAddrIsAddress(c, level, pte, vaddr);
  }

  /** The numbers of the access types. */
  function TypeNumber(t: MemType): nat {
    match t
    case DontCare => 0
    case LoadType => 2
    case StoreType => 4
    case FetchType => 8
    case AmoType => 6
  }

  predicate Needs(t: MemType, i: nat) {
    || (i == 1 && (t == LoadType || t == AmoType)) || (i == 2 && (t == StoreType || t == AmoType))
    || (i == 3 && t == FetchType)
  }

  lemma TypeDigits(t: MemType, i: nat)
    ensures Bit(TypeNumber(t), i) <==> Needs(t, i)
    ensures TypeNumber(t) < Pow2(4) && (i < 4 ==> Bit(15, i))
  {
    assert Pow2(4) == 16 && Bit(1, 0) && Bit(3, 0) && Bit(3, 1) && Bit(7, 0) && Bit(7, 1) && Bit(7, 2);
    Digits4(TypeNumber(t), i);
  }

  lemma Digits4(x: nat, i: nat)
    requires x < 16
    ensures Bit(x, i) <==> (i == 0 && x % 2 == 1) || (i == 1 && x / 2 % 2 == 1)
                           || (i == 2 && x / 4 % 2 == 1) || (i == 3 && x / 8 == 1)
  {
    if i >= 2 { TwoBitNumber(x / 4, i - 2); }
  }

  /** The mask test on flags and access type asks for the same digits. */
  lemma MaskTestIs(v: nat, t: MemType)
    ensures BitAnd(BitAnd(v, 15), TypeNumber(t)) == TypeNumber(t) <==> forall i: nat :: Needs(t, i) ==> Bit(v, i)
  {
    var k, x := TypeNumber(t), BitAnd(BitAnd(v, 15), TypeNumber(t));
    forall i: nat ensures Bit(x, i) <==> Bit(v, i) && Needs(t, i) {
      AndBit(BitAnd(v, 15), k, i);
      AndBit(v, 15, i);
      TypeDigits(t, i);
    }
    AndBelow(BitAnd(v, 15), k);
    if forall i: nat :: Needs(t, i) ==> Bit(v, i) {
      forall i: nat | i < 4 ensures Bit(x, i) <==> Bit(k, i) { TypeDigits(t, i); }
      TypeDigits(t, 0);
      SameBits(x, k, 4);
    } else {
      var i: nat :| Needs(t, i) && !Bit(v, i);
      TypeDigits(t, i);
    }
  }

  /** A hit sets digit 6, and digit 7 for stores and atomic accesses, and leaves the others. */
  lemma HitFlagDigits(f: Byte, t: MemType, i: nat)
    requires i < 8
    ensures Bit(HitFlag(f, t), i) <==> Bit(f, i) || i == 6 || (i == 7 && (t == StoreType || t == AmoType))
  {
    var g := HitFlag(f, t);
    assert Pow2(6) == 64 && Pow2(7) == 128;
    DigitIs(f, 6);
    DigitIs(f, 7);
    DigitIs(g, 6);
    DigitIs(g, 7);
    if i < 6 {
      RemainderDigit(f, f % 64, f / 64, 6, 64, i);
      RemainderDigit(g, g % 64, g / 64, 6, 64, i);
    }
  }
}
