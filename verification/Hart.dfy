/** The trap, return and interrupt methods of a hart, over its registers. */
module Harts {
  import opened Options
  import opened DivMod
  import opened Bits
  import opened Digits
  import opened StatusWord
  import opened Traps
  import opened HartRuns
  import opened TrapRecords

  /** vec() + (code << 2) if mode() is vectored, else vec(), by the masks ~3 and 1 */
  function VectorTarget(vec: nat, code: nat, width: nat): nat
    requires width >= 32
  {
    Pow2Less(2, width);
    var base := BitAnd(vec, Pow2(width) - 1 - 3);
    if BitAnd(vec, 1) == 1 then (base + Shl(code, 2)) % Pow2(width) else base
  }

  lemma LowDigitsCleared(vec: nat, width: nat)
    requires width >= 2 && vec < Pow2(width)
    ensures Pow2(width) == 4 * Pow2(width - 2) && BitAnd(vec, Pow2(width) - 1 - 3) == vec / 4 * 4
  {
    assert Pow2(width) == 2 * Pow2(width - 1) == 4 * Pow2(width - 2);
    ShrIsQuotient(vec, 2);
    FourTimes(Pow2(width - 2) - 1);
    AndShl(vec, Pow2(width - 2) - 1, 2);
    MaskKeeps(vec / 4, width - 2);
    FourTimes(vec / 4);
  }

  /** A mask that covers a number keeps it. */
  lemma MaskKeeps(y: nat, k: nat)
    requires y < Pow2(k)
    ensures BitAnd(y, Pow2(k) - 1) == y
  {
    AndMask(y, k);
    DivModUnique(y, Pow2(k), 0, y);
  }

  /** The masks clear the two lowest digits and test the lowest. */
  lemma VectorTargetIs(vec: nat, code: nat, width: nat)
    requires width >= 32 && vec < Pow2(width)
    ensures VectorTarget(vec, code, width) == Target(vec, code, width)
    ensures LeadsTo(vec, code, width, VectorTarget(vec, code, width))
  {
    LowDigitsCleared(vec, width);
    LowestDigit(vec);
    FourTimes(code);
    TargetLeads(vec, code, width);
  }

  lemma LowestDigit(x: nat)
    ensures BitAnd(x, 1) == x % 2
  {
    AndMask(x, 1);
    assert Pow2(1) == 2;
  }

  lemma FourTimes(x: nat)
    ensures Shl(x, 2) == 4 * x
  {
    ShlIsProduct(x, 2);
    assert Pow2(2) == 4;
  }

  /** (1 << (width - 1)) | code */
  function CauseWord(code: nat, width: nat): nat
    requires width > 0
  {
    BitOr(Shl(1, width - 1), code)
  }

  lemma CodeFits(code: nat, width: nat)
    requires code < 16 && width >= 32
    ensures code < Pow2(width - 1)
  {
    assert Pow2(4) == 16;
    Pow2Less(4, width - 1);
  }

  lemma CauseWordIs(code: nat, width: nat)
    requires code < 16 && width >= 32
    ensures CauseWord(code, width) == InterruptCause(code, width)
    ensures IsInterruptCause(CauseWord(code, width), code, width)
  {
    CodeFits(code, width);
    ShlIsProduct(1, width - 1);
    OrDisjoint(1, code, width - 1);
  }

  class Hart {
    const width: nat
    var privMode: nat
    var mstatus: nat
    var medeleg: nat
    var mideleg: nat
    var mip: nat
    var mie: nat
    var mepc: nat
    var mcause: nat
    var mtval: nat
    var mtinst: nat
    var mtvec: nat
    var sepc: nat
    var scause: nat
    var stval: nat
    var stinst: nat
    var stvec: nat
    var pc: nat
    var npc: nat
    var inst: nat
    var cachedMie: bool
    var cachedSie: bool

    ghost predicate Valid()
      reads this
    {
      && width >= 32 && mstatus < Pow2(width) && privMode < 4
      && mtvec < Pow2(width) && stvec < Pow2(width) && mideleg < Pow2(width)
    }

    ghost function View(): Core
      reads this
    {
      Core(privMode, DigitsOf(mstatus, width), mepc, mcause, mtval, mtinst, mtvec,
           sepc, scause, stval, stinst, stvec, npc)
    }

    ghost function State(): HartState
      reads this
    {
      HartState(View(), cachedMie, cachedSie)
    }

    /** reset: M mode with MPP = M */
    constructor (width: nat)
      requires width >= 32
      ensures this.width == width && Valid() && privMode == MACHINE && mstatus == 0x1800
    {
      this.width := width;
      privMode, mstatus := MACHINE, 0x1800;
      medeleg, mideleg, mip, mie := 0, 0, 0, 0;
      mepc, mcause, mtval, mtinst, mtvec := 0, 0, 0, 0, 0;
      sepc, scause, stval, stinst, stvec := 0, 0, 0, 0, 0;
      pc, npc, inst := 0, 0, 0;
      cachedMie, cachedSie := false, false;
      Pow2Words();
      if width > 32 { Pow2Less(32, width); }
    }

    /** The mstatus fields of a trap into M. */
    method PushM()
      requires Valid()
      modifies this`mstatus
      ensures Valid() && DigitsOf(mstatus, width) == PushStatus(old(DigitsOf(mstatus, width)), M, privMode)
      ensures EntersM(old(mstatus), mstatus, width, privMode)
    {
      WithPairDigits(mstatus, width, MPP, privMode);
      mstatus := WithPair(mstatus, width, MPP, privMode);
      FlagIsDigit(mstatus, MIE);
      WithFlagDigits(mstatus, width, MPIE, Flag(mstatus, MIE));
      mstatus := WithFlag(mstatus, width, MPIE, Flag(mstatus, MIE));
      WithFlagDigits(mstatus, width, MIE, false);
      mstatus := WithFlag(mstatus, width, MIE, false);
      PushDigits(old(mstatus), mstatus, width, privMode);
    }

    /** The mstatus fields of a trap into S. */
    method PushS()
      requires Valid()
      modifies this`mstatus
      ensures Valid() && DigitsOf(mstatus, width) == PushStatus(old(DigitsOf(mstatus, width)), S, privMode)
      ensures EntersS(old(mstatus), mstatus, width, privMode)
    {
      WithFlagDigits(mstatus, width, SPP, privMode != USER);
      mstatus := WithFlag(mstatus, width, SPP, privMode != USER);
      FlagIsDigit(mstatus, SIE);
      WithFlagDigits(mstatus, width, SPIE, Flag(mstatus, SIE));
      mstatus := WithFlag(mstatus, width, SPIE, Flag(mstatus, SIE));
      WithFlagDigits(mstatus, width, SIE, false);
      mstatus := WithFlag(mstatus, width, SIE, false);
      PushDigits(old(mstatus), mstatus, width, privMode);
    }

    /** The mstatus fields of mret. */
    method PopM()
      requires Valid()
      modifies this`mstatus
      ensures Valid() && DigitsOf(mstatus, width) == PopStatus(old(DigitsOf(mstatus, width)), M)
      ensures LeavesM(old(mstatus), mstatus, width)
    {
      FlagIsDigit(mstatus, MPIE);
      WithFlagDigits(mstatus, width, MIE, Flag(mstatus, MPIE));
      mstatus := WithFlag(mstatus, width, MIE, Flag(mstatus, MPIE));
      WithFlagDigits(mstatus, width, MPIE, true);
      mstatus := WithFlag(mstatus, width, MPIE, true);
      WithPairDigits(mstatus, width, MPP, USER);
      mstatus := WithPair(mstatus, width, MPP, USER);
      PopDigits(old(mstatus), mstatus, width);
    }

    /** The mstatus fields of sret. */
    method PopS()
      requires Valid()
      modifies this`mstatus
      ensures Valid() && DigitsOf(mstatus, width) == PopStatus(old(DigitsOf(mstatus, width)), S)
      ensures LeavesS(old(mstatus), mstatus, width)
    {
      FlagIsDigit(mstatus, SPIE);
      WithFlagDigits(mstatus, width, SIE, Flag(mstatus, SPIE));
      mstatus := WithFlag(mstatus, width, SIE, Flag(mstatus, SPIE));
      WithFlagDigits(mstatus, width, SPIE, true);
      mstatus := WithFlag(mstatus, width, SPIE, true);
      WithFlagDigits(mstatus, width, SPP, false);
      mstatus := WithFlag(mstatus, width, SPP, false);
      WithFlagDigits(mstatus, width, MPRV, false);
      mstatus := WithFlag(mstatus, width, MPRV, false);
      PopDigits(old(mstatus), mstatus, width);
    }

    /** update_mstatus, the callback of write_csr */
    method UpdateMstatus()
      requires Valid()
      modifies this`cachedMie, this`cachedSie
      ensures Valid() && Fresh(State())
      ensures cachedMie == Bit(mstatus, 3) && cachedSie == Bit(mstatus, 1)
    {
      FlagIsDigit(mstatus, MIE);
      FlagIsDigit(mstatus, SIE);
      cachedMie, cachedSie := Flag(mstatus, MIE), Flag(mstatus, SIE);
    }

    /** write_csr of mstatus */
    method WriteMstatus(value: nat)
      requires Valid() && value < Pow2(width)
      modifies this`mstatus, this`cachedMie, this`cachedSie
      ensures Valid() && State() == After(old(State()), WriteStatus(DigitsOf(value, width)))
      ensures mstatus == value && cachedMie == Bit(value, 3) && cachedSie == Bit(value, 1)
    {
      mstatus := value;
      UpdateMstatus();
    }

    /** enter_trap */
    method EnterTrap(cause: nat, value: nat)
      requires Valid() && cause < 31
      modifies this`privMode, this`mstatus, this`npc, this`mepc, this`mcause, this`mtval, this`mtinst,
               this`sepc, this`scause, this`stval, this`stinst
      ensures Valid() && State() == After(old(State()), Fault(Bit(medeleg, cause), pc, cause, value, inst))
      ensures Bit(medeleg, cause) ==>
                && (sepc, scause, stval, stinst) == (pc, cause, value, inst) && privMode == 1
                && EntersS(old(mstatus), mstatus, width, old(privMode)) && LeadsTo(stvec, cause, width, npc)
                && (mepc, mcause, mtval, mtinst) == old((mepc, mcause, mtval, mtinst))
      ensures !Bit(medeleg, cause) ==>
                && (mepc, mcause, mtval, mtinst) == (pc, cause, value, inst) && privMode == 3
                && EntersM(old(mstatus), mstatus, width, old(privMode)) && LeadsTo(mtvec, cause, width, npc)
                && (sepc, scause, stval, stinst) == old((sepc, scause, stval, stinst))
    {
      FlagIsDigit(medeleg, cause);
      if Flag(medeleg, cause) {
        TrapToS(cause, value);
      } else {
        TrapToM(cause, value);
      }
    }

    /** Its delegated branch. */
    method TrapToS(cause: nat, value: nat)
      requires Valid()
      modifies this`privMode, this`mstatus, this`npc, this`sepc, this`scause, this`stval, this`stinst
      ensures Valid() && View() == Apply(old(View()), Exception(true, pc, cause, value, inst))
      ensures (sepc, scause, stval, stinst) == (pc, cause, value, inst) && privMode == 1
      ensures EntersS(old(mstatus), mstatus, width, old(privMode)) && LeadsTo(stvec, cause, width, npc)
    {
      VectorTargetIs(stvec, cause, width);
      var target := VectorTarget(stvec, cause, width);
      PushS();
      privMode := SUPERVISOR;
      sepc, scause, stval, stinst := pc, cause, value, inst;
      npc := target;
    }

    /** The other branch. */
    method TrapToM(cause: nat, value: nat)
      requires Valid()
      modifies this`privMode, this`mstatus, this`npc, this`mepc, this`mcause, this`mtval, this`mtinst
      ensures Valid() && View() == Apply(old(View()), Exception(false, pc, cause, value, inst))
      ensures (mepc, mcause, mtval, mtinst) == (pc, cause, value, inst) && privMode == 3
      ensures EntersM(old(mstatus), mstatus, width, old(privMode)) && LeadsTo(mtvec, cause, width, npc)
    {
      VectorTargetIs(mtvec, cause, width);
      var target := VectorTarget(mtvec, cause, width);
      PushM();
      privMode := MACHINE;
      mepc, mcause, mtval, mtinst := pc, cause, value, inst;
      npc := target;
    }

    /** interrupt_m */
    method InterruptM(code: nat)
      requires Valid() && code < 16
      modifies this`privMode, this`mstatus, this`npc, this`mepc, this`mcause, this`mtval
      ensures Valid() && View() == Apply(old(View()), Interrupt(M, code))
      ensures IsInterruptCause(mcause, code, width) && mtval == 0 && mepc == old(npc) && privMode == 3
      ensures EntersM(old(mstatus), mstatus, width, old(privMode)) && LeadsTo(mtvec, code, width, npc)
    {
      CauseWordIs(code, width);
      VectorTargetIs(mtvec, code, width);
      var target := VectorTarget(mtvec, code, width);
      mepc, mtval, mcause := npc, 0, CauseWord(code, width);
      PushM();
      privMode := MACHINE;
      npc := target;
    }

    /** interrupt_s, whose write to mstatus refreshes the copies of the enables */
    method InterruptS(code: nat)
      requires Valid() && code < 16
      modifies this`privMode, this`mstatus, this`npc, this`sepc, this`scause, this`stval,
               this`cachedMie, this`cachedSie
      ensures Valid() && View() == Apply(old(View()), Interrupt(S, code)) && Fresh(State())
      ensures IsInterruptCause(scause, code, width) && stval == 0 && sepc == old(npc) && privMode == 1
      ensures EntersS(old(mstatus), mstatus, width, old(privMode)) && LeadsTo(stvec, code, width, npc)
    {
      CauseWordIs(code, width);
      VectorTargetIs(stvec, code, width);
      var target := VectorTarget(stvec, code, width);
      sepc, scause, stval := npc, CauseWord(code, width), 0;
      PushS();
      UpdateMstatus();
      privMode := SUPERVISOR;
      npc := target;
    }

    /** do_mret */
    method DoMret()
      requires Valid()
      modifies this`privMode, this`mstatus, this`npc
      ensures Valid() && State() == After(old(State()), Move.Return(M))
      ensures LeavesM(old(mstatus), mstatus, width) && npc == mepc
      ensures privMode % 2 == (if Bit(old(mstatus), 11) then 1 else 0)
      ensures privMode / 2 == (if Bit(old(mstatus), 12) then 1 else 0)
    {
      MppIsDigits(mstatus, width);
      privMode := Mpp(mstatus);
      PopM();
      npc := mepc;
    }

    /** do_sret */
    method DoSret()
      requires Valid()
      modifies this`privMode, this`mstatus, this`npc
      ensures Valid() && State() == After(old(State()), Move.Return(S))
      ensures LeavesS(old(mstatus), mstatus, width) && npc == sepc
      ensures privMode == if Bit(old(mstatus), 8) then 1 else 0
    {
      FlagIsDigit(mstatus, SPP);
      privMode := if Flag(mstatus, SPP) then SUPERVISOR else USER;
      PopS();
      npc := sepc;
    }

    /** The first pending interrupt of a priority list. */
    method ScanOrder(order: seq<nat>, pending: nat) returns (r: Option<nat>)
      ensures r == FirstOf(order, pending) && (r.Some? ==> r.value in order)
    {
      var i := 0;
      while i < |order|
        invariant i <= |order| && FirstOf(order[i..], pending) == FirstOf(order, pending)
      {
        FlagIsDigit(pending, order[i]);
        if Flag(pending, order[i]) {
          return Some(order[i]);
        }
        assert order[i..][1..] == order[i + 1..];
        i := i + 1;
      }
      return None;
    }

    /** The pending and enabled interrupts, those not delegated and those delegated. */
    ghost function PendingOf(): Move
      reads this
    {
      var pending := BitAnd(mip, mie);
      Scan(BitAnd(pending, Complement(mideleg, Pow2(width))), BitAnd(pending, mideleg))
    }

    /** What the scan chooses. */
    ghost function Chosen(): Option<(Level, nat)>
      reads this
    {
      ChosenBy(State(), PendingOf().pendingM, PendingOf().pendingS)
    }

    /** scan_interrupt */
    method ScanInterrupt() returns (taken: bool, ghost chosen: Option<(Level, nat)>)
      requires Valid()
      modifies this`privMode, this`mstatus, this`npc, this`mepc, this`mcause, this`mtval,
               this`sepc, this`scause, this`stval, this`cachedMie, this`cachedSie
      ensures Valid() && State() == After(old(State()), old(PendingOf())) && chosen == old(Chosen())
      ensures match chosen
              case None => !taken
              case Some((M, code)) => taken && MTaken(code, old(npc))
              case Some((S, code)) => taken && STaken(code, old(npc))
      ensures forall code: nat ::
                && (chosen == Some((M, code)) <==> old(TakenM(privMode, cachedMie, mip, mie, mideleg, code)))
                && (chosen == Some((S, code)) <==> old(TakenS(privMode, cachedMie, cachedSie, mip, mie, mideleg, code)))
    {
      chosen := Chosen();
      ChosenIs();
      taken := ScanLevels();
    }

    /** What an interrupt into M leaves. */
    ghost predicate MTaken(code: nat, resume: nat)
      reads this
    {
      width > 0 && IsInterruptCause(mcause, code, width) && mtval == 0 && mepc == resume && privMode == 3
    }

    ghost predicate STaken(code: nat, resume: nat)
      reads this
    {
      width > 0 && IsInterruptCause(scause, code, width) && stval == 0 && sepc == resume && privMode == 1
    }

    lemma ChosenIs()
      requires Valid()
      ensures forall code: nat ::
                && (Chosen() == Some((M, code)) <==> TakenM(privMode, cachedMie, mip, mie, mideleg, code))
                && (Chosen() == Some((S, code)) <==> TakenS(privMode, cachedMie, cachedSie, mip, mie, mideleg, code))
    {
      forall code: nat
        ensures Chosen() == Some((M, code)) <==> TakenM(privMode, cachedMie, mip, mie, mideleg, code)
        ensures Chosen() == Some((S, code)) <==> TakenS(privMode, cachedMie, cachedSie, mip, mie, mideleg, code)
      {
        ChoosesExactly(privMode, cachedMie, cachedSie, mip, mie, mideleg, width, code);
      }
    }

    /** The two levels, one after the other. */
    method ScanLevels() returns (taken: bool)
      requires Valid()
      modifies this`privMode, this`mstatus, this`npc, this`mepc, this`mcause, this`mtval,
               this`sepc, this`scause, this`stval, this`cachedMie, this`cachedSie
      ensures Valid() && State() == After(old(State()), old(PendingOf()))
      ensures match old(Chosen())
              case None => !taken
              case Some((M, code)) => taken && MTaken(code, old(npc))
              case Some((S, code)) => taken && STaken(code, old(npc))
    {
      ghost var h, m := State(), PendingOf();
      if mip == 0 {
        NothingPending(ORDER_M);
        NothingPending(ORDER_S);
        return false;
      }
      if privMode < MACHINE || cachedMie {
        var code := ScanOrder(ORDER_M, BitAnd(BitAnd(mip, mie), Complement(mideleg, Pow2(width))));
        if code.Some? {
          InterruptM(code.value);
          InterruptedM(h, State(), m, code.value);
          return true;
        }
      }
      if privMode < SUPERVISOR || (privMode == SUPERVISOR && cachedSie) {
        var code := ScanOrder(ORDER_S, BitAnd(BitAnd(mip, mie), mideleg));
        if code.Some? {
          InterruptS(code.value);
          InterruptedS(h, State(), m, code.value);
          return true;
        }
      }
      return false;
    }
  }

  /** An interrupt into M is the scan's step if it is what the scan chooses. */
  lemma InterruptedM(h: HartState, after: HartState, m: Move, code: nat)
    requires Wide(h.core) && m.Scan? && code < 16 && ChosenBy(h, m.pendingM, m.pendingS) == Some((M, code))
    requires after == HartState(Apply(h.core, Interrupt(M, code)), h.mie, h.sie)
    ensures Fits(h, m) && after == After(h, m)
  {
  }

  lemma InterruptedS(h: HartState, after: HartState, m: Move, code: nat)
    requires Wide(h.core) && m.Scan? && code < 16 && ChosenBy(h, m.pendingM, m.pendingS) == Some((S, code))
    requires after.core == Apply(h.core, Interrupt(S, code)) && Fresh(after)
    ensures Fits(h, m) && after == After(h, m)
  {
  }
}
