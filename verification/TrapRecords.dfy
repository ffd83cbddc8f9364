/**
 Traps, returns and the choice of an interrupt in the numbers of the registers: which digits of mstatus
 change, where a vector leads, and which interrupt comes first.
 */
module TrapRecords {
  import opened Options
  import opened DivMod
  import opened Bits
  import opened Digits
  import opened StatusWord
  import opened Traps
  import opened HartRuns

  // ---------------------------------------------------------------------------
  // The digits of mstatus
  // ---------------------------------------------------------------------------

  /** A trap into M: MIE (3) goes to MPIE (7) and is cleared, the mode goes to MPP (11 and 12). */
  ghost predicate EntersM(a: nat, b: nat, width: nat, priv: nat) {
    && (Bit(b, 7) <==> Bit(a, 3)) && !Bit(b, 3)
    && (Bit(b, 11) <==> priv == 1 || priv == 3) && (Bit(b, 12) <==> priv >= 2)
    && forall i: nat :: i < width && i !in {3, 7, 11, 12} ==> (Bit(b, i) <==> Bit(a, i))
  }

  /** A trap into S: SIE (1) goes to SPIE (5) and is cleared, SPP (8) says whether the mode was not U. */
  ghost predicate EntersS(a: nat, b: nat, width: nat, priv: nat) {
    && (Bit(b, 5) <==> Bit(a, 1)) && !Bit(b, 1) && (Bit(b, 8) <==> priv != 0)
    && forall i: nat :: i < width && i !in {1, 5, 8} ==> (Bit(b, i) <==> Bit(a, i))
  }

  /** mret: MPIE goes to MIE and is set, MPP is cleared. */
  ghost predicate LeavesM(a: nat, b: nat, width: nat) {
    && (Bit(b, 3) <==> Bit(a, 7)) && Bit(b, 7) && !Bit(b, 11) && !Bit(b, 12)
    && forall i: nat :: i < width && i !in {3, 7, 11, 12} ==> (Bit(b, i) <==> Bit(a, i))
  }

  /** sret: SPIE goes to SIE and is set, SPP and MPRV (17) are cleared. */
  ghost predicate LeavesS(a: nat, b: nat, width: nat) {
    && (Bit(b, 1) <==> Bit(a, 5)) && Bit(b, 5) && !Bit(b, 8) && !Bit(b, 17)
    && forall i: nat :: i < width && i !in {1, 5, 8, 17} ==> (Bit(b, i) <==> Bit(a, i))
  }

  lemma DigitOf(x: nat, width: nat)
    ensures forall i: nat :: i < width ==> DigitsOf(x, width)[i] == Bit(x, i)
  {
  }

  lemma PushDigits(a: nat, b: nat, width: nat, priv: nat)
    requires width >= 32 && priv < 4
    ensures DigitsOf(b, width) == PushStatus(DigitsOf(a, width), M, priv) ==> EntersM(a, b, width, priv)
    ensures DigitsOf(b, width) == PushStatus(DigitsOf(a, width), S, priv) ==> EntersS(a, b, width, priv)
  {
    DigitOf(a, width);
    DigitOf(b, width);
  }

  lemma PopDigits(a: nat, b: nat, width: nat)
    requires width >= 32
    ensures DigitsOf(b, width) == PopStatus(DigitsOf(a, width), M) ==> LeavesM(a, b, width)
    ensures DigitsOf(b, width) == PopStatus(DigitsOf(a, width), S) ==> LeavesS(a, b, width)
  {
    DigitOf(a, width);
    DigitOf(b, width);
  }

  // ---------------------------------------------------------------------------
  // Trap vectors
  // ---------------------------------------------------------------------------

  /** The address is the vector without its two lowest digits, with `code` words added if the lowest is set;
      it wraps in a word. */
  predicate LeadsTo(vec: nat, code: nat, width: nat, npc: nat) {
    var base := vec - vec % 4;
    npc == if Bit(vec, 0) then (base + 4 * code) % Pow2(width) else base
  }

  lemma TargetLeads(vec: nat, code: nat, width: nat)
    ensures LeadsTo(vec, code, width, Target(vec, code, width))
  {
  }

  /** The cause of an interrupt: its code, and the top digit. */
  ghost predicate IsInterruptCause(cause: nat, code: nat, width: nat)
    requires width > 0
  {
    cause == code + Pow2(width - 1)
  }

  // ---------------------------------------------------------------------------
  // The choice of an interrupt
  // ---------------------------------------------------------------------------

  /** MEI, MSI, MTI, SEI, SSI, STI, in this order. */
  function Rank(code: nat): nat {
    if code == 11 then 0 else if code == 3 then 1 else if code == 7 then 2
    else if code == 9 then 3 else if code == 0 then 4 else if code == 5 then 5 else 6
  }

  /** Pending and enabled, and delegated or not. */
  predicate Waits(mip: nat, mie: nat, mideleg: nat, delegated: bool, code: nat) {
    Bit(mip, code) && Bit(mie, code) && Bit(mideleg, code) == delegated
  }

  /** Of the codes that wait, `code` comes first; only the supervisor's go to S. */
  ghost predicate ComesFirst(mip: nat, mie: nat, mideleg: nat, delegated: bool, code: nat) {
    && Waits(mip, mie, mideleg, delegated, code) && (if delegated then 3 else 0) <= Rank(code) < 6
    && forall k: nat :: Waits(mip, mie, mideleg, delegated, k) && (if delegated then 3 else 0) <= Rank(k) < 6 ==>
         Rank(code) <= Rank(k)
  }

  /** An interrupt into M: its mode is lower, or its enable is on, and it is not delegated. */
  ghost predicate TakenM(priv: nat, enable: bool, mip: nat, mie: nat, mideleg: nat, code: nat) {
    (priv < 3 || enable) && ComesFirst(mip, mie, mideleg, false, code)
  }

  /** An interrupt into S: none goes to M, the mode is U, or S with the enable on, and it is delegated. */
  ghost predicate TakenS(priv: nat, enableM: bool, enableS: bool, mip: nat, mie: nat, mideleg: nat, code: nat) {
    && (forall k: nat :: !TakenM(priv, enableM, mip, mie, mideleg, k))
    && (priv < 1 || (priv == 1 && enableS)) && ComesFirst(mip, mie, mideleg, true, code)
  }

  lemma WaitingDigit(mip: nat, mie: nat, mideleg: nat, width: nat, code: nat)
    requires mideleg < Pow2(width) && code < width
    ensures Bit(BitAnd(BitAnd(mip, mie), Complement(mideleg, Pow2(width))), code) <==>
              Waits(mip, mie, mideleg, false, code)
    ensures Bit(BitAnd(BitAnd(mip, mie), mideleg), code) <==> Waits(mip, mie, mideleg, true, code)
  {
    AndBit(mip, mie, code);
    AndBit(BitAnd(mip, mie), Complement(mideleg, Pow2(width)), code);
    AndBit(BitAnd(mip, mie), mideleg, code);
    NotBit(mideleg, width, code);
  }

  lemma FirstOfM(pending: nat)
    ensures FirstOf(ORDER_M, pending) ==
              if Bit(pending, 11) then Some(11) else if Bit(pending, 3) then Some(3)
              else if Bit(pending, 7) then Some(7) else if Bit(pending, 9) then Some(9)
              else if Bit(pending, 0) then Some(0) else if Bit(pending, 5) then Some(5) else None
  {
    var o := ORDER_M;
    assert o[1..] == [3, 7, 9, 0, 5] && o[1..][1..] == [7, 9, 0, 5] && o[1..][1..][1..] == [9, 0, 5];
    FirstOfS(pending);
    assert FirstOf([7, 9, 0, 5], pending) == if Bit(pending, 7) then Some(7) else FirstOf([9, 0, 5], pending);
    assert FirstOf([3, 7, 9, 0, 5], pending) == if Bit(pending, 3) then Some(3) else FirstOf([7, 9, 0, 5], pending);
  }

  lemma FirstOfS(pending: nat)
    ensures FirstOf([9, 0, 5], pending) ==
              if Bit(pending, 9) then Some(9) else if Bit(pending, 0) then Some(0)
              else if Bit(pending, 5) then Some(5) else None
  {
    assert FirstOf([5], pending) == if Bit(pending, 5) then Some(5) else FirstOf([], pending);
    assert FirstOf([0, 5], pending) == if Bit(pending, 0) then Some(0) else FirstOf([5], pending);
  }

  /** The scan of a level takes a code exactly if it comes first of those that wait. */
  lemma ScanFirst(mip: nat, mie: nat, mideleg: nat, width: nat, delegated: bool, pending: nat, code: nat)
    requires width >= 32 && mideleg < Pow2(width)
    requires pending == if delegated then BitAnd(BitAnd(mip, mie), mideleg)
                        else BitAnd(BitAnd(mip, mie), Complement(mideleg, Pow2(width)))
    ensures FirstOf(if delegated then ORDER_S else ORDER_M, pending) == Some(code) <==>
              ComesFirst(mip, mie, mideleg, delegated, code)
    ensures FirstOf(if delegated then ORDER_S else ORDER_M, pending) == None ==>
              forall k: nat :: !ComesFirst(mip, mie, mideleg, delegated, k)
  {
    forall k: nat | k < 16 ensures Bit(pending, k) <==> Waits(mip, mie, mideleg, delegated, k) {
      WaitingDigit(mip, mie, mideleg, width, k);
    }
    if delegated { FirstOfS(pending); } else { FirstOfM(pending); }
    RankedFirst(mip, mie, mideleg, delegated, FirstOf(if delegated then ORDER_S else ORDER_M, pending), code);
  }

  lemma RankedFirst(mip: nat, mie: nat, mideleg: nat, delegated: bool, first: Option<nat>, code: nat)
    requires var w := (k: nat) => Waits(mip, mie, mideleg, delegated, k);
             first == if !delegated && w(11) then Some(11) else if !delegated && w(3) then Some(3)
                      else if !delegated && w(7) then Some(7) else if w(9) then Some(9)
                      else if w(0) then Some(0) else if w(5) then Some(5) else None
    ensures first == Some(code) <==> ComesFirst(mip, mie, mideleg, delegated, code)
    ensures first == None ==> forall k: nat :: !ComesFirst(mip, mie, mideleg, delegated, k)
  {
    if first.Some? {
      assert ComesFirst(mip, mie, mideleg, delegated, first.value);
    }
  }

  /** What the scan chooses, in terms of the registers: exactly the interrupt into M that comes first, or if
      there is none, the one into S. */
  lemma ChoosesExactly(priv: nat, enableM: bool, enableS: bool, mip: nat, mie: nat, mideleg: nat, width: nat, code: nat)
    requires width >= 32 && mideleg < Pow2(width) && priv < 4
    ensures var pending := BitAnd(mip, mie);
            var r := Choose(priv, enableM, enableS, BitAnd(pending, Complement(mideleg, Pow2(width))),
                            BitAnd(pending, mideleg));
            && (r == Some((M, code)) <==> TakenM(priv, enableM, mip, mie, mideleg, code))
            && (r == Some((S, code)) <==> TakenS(priv, enableM, enableS, mip, mie, mideleg, code))
  {
    var pending := BitAnd(mip, mie);
    var m, s := BitAnd(pending, Complement(mideleg, Pow2(width))), BitAnd(pending, mideleg);
    ScanFirst(mip, mie, mideleg, width, false, m, code);
    ScanFirst(mip, mie, mideleg, width, true, s, code);
    if first: nat :| FirstOf(ORDER_M, m) == Some(first) {
      ScanFirst(mip, mie, mideleg, width, false, m, first);
      assert priv < 3 || enableM ==> TakenM(priv, enableM, mip, mie, mideleg, first);
    }
  }
}
