/** The fields of the mstatus word, read and written by masks and shifts. */
module StatusWord {
  import opened DivMod
  import opened Bits
  import opened Digits

  const SIE: nat := 1
  const MIE: nat := 3
  const SPIE: nat := 5
  const MPIE: nat := 7
  const SPP: nat := 8
  const MPP: nat := 11
  const MPRV: nat := 17

  /** The digits of a word of `width` of them. */
  function DigitsOf(x: nat, width: nat): (r: seq<bool>)
    ensures |r| == width && forall i :: 0 <= i < width ==> r[i] == Bit(x, i)
  {
    seq(width, i requires i >= 0 => Bit(x, i))
  }

  function Number(b: bool): nat {
    if b then 1 else 0
  }

  /** value & (1 << k) */
  predicate Flag(x: nat, k: nat) {
    BitAnd(x, Pow2(k)) != 0
  }

  /** (value & ~(1 << k)) | (b << k) */
  function WithFlag(x: nat, width: nat, k: nat, b: bool): nat
    requires k < width
  {
    Pow2Less(k, width);
    BitOr(BitAnd(x, Pow2(width) - 1 - Pow2(k)), Shl(Number(b), k))
  }

  /** (value >> 11) & 3 */
  function Mpp(x: nat): nat {
    BitAnd(Shr(x, MPP), 3)
  }

  /** (value & ~(3 << k)) | ((v & 3) << k) */
  function WithPair(x: nat, width: nat, k: nat, v: nat): nat
    requires k + 2 <= width
  {
    PairFits(width, k);
    BitOr(BitAnd(x, Pow2(width) - 1 - 3 * Pow2(k)), Shl(BitAnd(v, 3), k))
  }

  lemma PairFits(width: nat, k: nat)
    requires k + 2 <= width
    ensures 4 * Pow2(k) <= Pow2(width)
  {
    assert Pow2(k + 2) == 2 * Pow2(k + 1) == 4 * Pow2(k);
    if k + 2 < width { Pow2Less(k + 2, width); }
  }

  /** The same field as two digits. */
  function MppOf(digits: seq<bool>): nat
    requires |digits| >= 32
  {
    Number(digits[MPP]) + 2 * Number(digits[MPP + 1])
  }

  lemma {:induction false} ShlBit(x: nat, k: nat, i: nat)
    ensures Bit(Shl(x, k), i) <==> i >= k && Bit(x, i - k)
  {
    if k > 0 && i > 0 {
      ShlBit(x, k - 1, i - 1);
    }
  }

  lemma {:induction false} ShrBit(x: nat, k: nat, i: nat)
    ensures Bit(Shr(x, k), i) <==> Bit(x, i + k)
  {
    if k > 0 {
      ShrBit(x / 2, k - 1, i);
    }
  }

  lemma FlagIsDigit(x: nat, k: nat)
    ensures Flag(x, k) <==> Bit(x, k)
  {
    var y := BitAnd(x, Pow2(k));
    AndBit(x, Pow2(k), k);
    Pow2Bit(k, k);
    if y == 0 {
      ZeroBit(k);
    } else if !Bit(x, k) {
      AndBelow(x, Pow2(k));
      Pow2Less(k, k + 1);
      forall i: nat | i < k + 1 ensures Bit(y, i) <==> Bit(0, i) {
        AndBit(x, Pow2(k), i);
        Pow2Bit(k, i);
        ZeroBit(i);
      }
      SameBits(y, 0, k + 1);
    }
  }

  /** Writing a flag changes that digit and no other. */
  lemma WithFlagDigits(x: nat, width: nat, k: nat, b: bool)
    requires x < Pow2(width) && k < width
    ensures WithFlag(x, width, k, b) < Pow2(width)
    ensures DigitsOf(WithFlag(x, width, k, b), width) == DigitsOf(x, width)[k := b]
  {
    Pow2Less(k, width);
    var hole, top := Pow2(width) - 1 - Pow2(k), Shl(Number(b), k);
    ShlIsProduct(Number(b), k);
    AndBelow(x, hole);
    OrBelow(BitAnd(x, hole), top, width);
    forall i: nat | i < width ensures Bit(WithFlag(x, width, k, b), i) == if i == k then b else Bit(x, i) {
      OrBit(BitAnd(x, hole), top, i);
      AndBit(x, hole, i);
      NotBit(Pow2(k), width, i);
      Pow2Bit(k, i);
      ShlBit(Number(b), k, i);
      if i > k { ZeroOneBit(b, i - k); }
    }
  }

  lemma ZeroOneBit(b: bool, i: nat)
    requires i > 0
    ensures !Bit(Number(b), i)
  {
    ZeroBit(i - 1);
  }

  lemma {:induction false} TwoBitNumber(x: nat, i: nat)
    requires x < 4
    ensures Bit(x, i) <==> (i == 0 && x % 2 == 1) || (i == 1 && x >= 2)
  {
    if i >= 2 {
      assert x / 2 / 2 == 0;
      ZeroBit(i - 2);
    }
  }

  lemma MppIsDigits(x: nat, width: nat)
    requires width >= 32
    ensures Mpp(x) == MppOf(DigitsOf(x, width)) < 4
  {
    var y := Shr(x, MPP);
    AndMask(y, 2);
    assert Pow2(2) == 4;
    ShrBit(x, MPP, 0);
    ShrBit(x, MPP, 1);
  }

  lemma PairMask(width: nat, k: nat, i: nat)
    requires k + 2 <= width && i < width
    ensures 3 * Pow2(k) < Pow2(width)
    ensures Bit(Pow2(width) - 1 - 3 * Pow2(k), i) <==> i != k && i != k + 1
  {
    PairFits(width, k);
    ShlIsProduct(3, k);
    NotBit(3 * Pow2(k), width, i);
    ShlBit(3, k, i);
    if i >= k { TwoBitNumber(3, i - k); }
  }

  lemma PairDigit(x: nat, width: nat, k: nat, v: nat, i: nat)
    requires k + 2 <= width && v < 4 && i < width
    ensures Bit(WithPair(x, width, k, v), i) ==
              if i == k then v % 2 == 1 else if i == k + 1 then v >= 2 else Bit(x, i)
  {
    PairMask(width, k, i);
    var hole := Pow2(width) - 1 - 3 * Pow2(k);
    AndMask(v, 2);
    assert Pow2(2) == 4;
    OrBit(BitAnd(x, hole), Shl(v, k), i);
    AndBit(x, hole, i);
    ShlBit(v, k, i);
    if i >= k { TwoBitNumber(v, i - k); }
  }

  lemma PairBelow(x: nat, width: nat, k: nat, v: nat)
    requires x < Pow2(width) && k + 2 <= width && v < 4
    ensures WithPair(x, width, k, v) < Pow2(width)
  {
    PairFits(width, k);
    AndMask(v, 2);
    assert Pow2(2) == 4;
    ShlIsProduct(v, k);
    var hole := Pow2(width) - 1 - 3 * Pow2(k);
    AndBelow(x, hole);
    ProductMonotone(Pow2(k), v, 3);
    OrBelow(BitAnd(x, hole), Shl(v, k), width);
  }

  /** Writing a field of two digits changes those and no other. */
  lemma WithPairDigits(x: nat, width: nat, k: nat, v: nat)
    requires x < Pow2(width) && k + 2 <= width && v < 4
    ensures WithPair(x, width, k, v) < Pow2(width)
    ensures DigitsOf(WithPair(x, width, k, v), width) == DigitsOf(x, width)[k := v % 2 == 1][k + 1 := v >= 2]
  {
    PairBelow(x, width, k, v);
    forall i: nat | i < width
      ensures Bit(WithPair(x, width, k, v), i) ==
                if i == k then v % 2 == 1 else if i == k + 1 then v >= 2 else Bit(x, i)
    {
      PairDigit(x, width, k, v, i);
    }
  }
}
