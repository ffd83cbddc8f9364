/**
 Traps and returns: the two-level stacks of interrupt enables and privilege modes in mstatus, and what a
 run of nested traps and returns restores.
 */
module Traps {
  import opened Options
  import opened DivMod
  import opened Bits
  import opened Digits
  import opened StatusWord

  const USER: nat := 0
  const SUPERVISOR: nat := 1
  const MACHINE: nat := 3

  datatype Level = M | S

  // ---------------------------------------------------------------------------
  // Traps and returns on the fields
  // ---------------------------------------------------------------------------

  /** The registers that traps and returns use, with mstatus as its digits. */
  datatype Core = Core(
    priv: nat, status: seq<bool>,
    mepc: nat, mcause: nat, mtval: nat, mtinst: nat, mtvec: nat,
    sepc: nat, scause: nat, stval: nat, stinst: nat, stvec: nat,
    npc: nat)

  ghost predicate Wide(c: Core) {
    |c.status| >= 32 && c.priv < 4
  }

  /** Where a trap vector leads: to its base, or `code` words behind it. */
  function Target(vec: nat, code: nat, width: nat): nat {
    if vec % 2 == 1 then (vec / 4 * 4 + 4 * code) % Pow2(width) else vec / 4 * 4
  }

  /** The interrupt enable of a level. */
  predicate Enable(c: Core, l: Level)
    requires Wide(c)
  {
    c.status[if l.M? then MIE else SIE]
  }

  /** The saved copy of the enable, mode and resume address of a level. */
  function Saved(c: Core, l: Level): (bool, nat, nat)
    requires Wide(c)
  {
    match l
    case M => (c.status[MPIE], MppOf(c.status), c.mepc)
    case S => (c.status[SPIE], if c.status[SPP] then SUPERVISOR else USER, c.sepc)
  }

  /** The fields of a level: its enable, the saved copies, and the record of the trap. */
  function Fields(c: Core, l: Level): (bool, (bool, nat, nat), nat, nat)
    requires Wide(c)
  {
    (Enable(c, l), Saved(c, l), if l.M? then c.mcause else c.scause, if l.M? then c.mtval else c.stval)
  }

  function PushStatus(status: seq<bool>, l: Level, priv: nat): seq<bool>
    requires |status| >= 32
  {
    match l
    case M => status[MPP := priv % 2 == 1][MPP + 1 := priv >= 2][MPIE := status[MIE]][MIE := false]
    case S => status[SPP := priv != USER][SPIE := status[SIE]][SIE := false]
  }

  /** A trap or interrupt into level `l` that is to resume at `resume`. */
  function Trapped(c: Core, l: Level, resume: nat, cause: nat, code: nat, value: nat): Core
    requires Wide(c)
  {
    var status := PushStatus(c.status, l, c.priv);
    match l
    case M => c.(priv := MACHINE, status := status, mepc := resume, mcause := cause, mtval := value,
                 npc := Target(c.mtvec, code, |status|))
    case S => c.(priv := SUPERVISOR, status := status, sepc := resume, scause := cause, stval := value,
                 npc := Target(c.stvec, code, |status|))
  }

  function PopStatus(status: seq<bool>, l: Level): seq<bool>
    requires |status| >= 32
  {
    match l
    case M => status[MIE := status[MPIE]][MPIE := true][MPP := false][MPP + 1 := false]
    case S => status[SIE := status[SPIE]][SPIE := true][SPP := false][MPRV := false]
  }

  /** mret and sret; only sret clears MPRV. */
  function Returned(c: Core, l: Level): Core
    requires Wide(c)
  {
    match l
    case M => c.(priv := MppOf(c.status), status := PopStatus(c.status, M), npc := c.mepc)
    case S => c.(priv := if c.status[SPP] then SUPERVISOR else USER, status := PopStatus(c.status, S), npc := c.sepc)
  }

  function Other(l: Level): Level {
    if l.M? then S else M
  }

  /** A trap saves what its level's return restores, and leaves the other level alone. One bit holds the
      mode a trap into S came from, so that a trap from M is saved as one from S. */
  lemma TrapSaves(c: Core, l: Level, resume: nat, cause: nat, code: nat, value: nat)
    requires Wide(c)
    ensures var t := Trapped(c, l, resume, cause, code, value);
            && Wide(t) && Saved(t, l).0 == Enable(c, l) && Saved(t, l).2 == resume && !Enable(t, l)
            && (Saved(t, l).1 == c.priv <==> l.M? || c.priv <= SUPERVISOR)
            && (Returned(t, l).priv == c.priv <==> l.M? || c.priv <= SUPERVISOR)
            && Fields(t, Other(l)) == Fields(c, Other(l))
  {
  }

  lemma ReturnRestores(c: Core, l: Level)
    requires Wide(c)
    ensures var r := Returned(c, l);
            && Wide(r) && (Enable(r, l), r.priv, r.npc) == Saved(c, l)
            && Fields(r, Other(l)) == Fields(c, Other(l))
  {
  }

  /** A return to a mode below M should leave MPRV clear.  mret does so exactly when there was nothing to
      clear; sret always does. */
  lemma ReturnMprv(c: Core)
    requires Wide(c)
    ensures (MppOf(c.status) != MACHINE ==> !Returned(c, M).status[MPRV]) <==>
              MppOf(c.status) == MACHINE || !c.status[MPRV]
    ensures !Returned(c, S).status[MPRV]
  {
  }

  /** A core that returns to user mode with MPRV still set. */
  lemma MprvSurvives(c: Core)
    requires c.status == seq(32, i => i == MPRV) && c.priv == MACHINE
    ensures Wide(c) && Returned(c, M).priv == USER && Returned(c, M).status[MPRV]
  {
  }

  /** An exception should go to the base of its vector whatever the mode of the vector. It does exactly
      when the vector is not vectored or the cause is 0. */
  lemma ExceptionTarget(c: Core, delegated: bool, pc: nat, cause: nat, value: nat, inst: nat)
    requires Wide(c) && cause < 32
    requires c.stvec < Pow2(|c.status|) && c.mtvec < Pow2(|c.status|)
    ensures var vec := if delegated then c.stvec else c.mtvec;
            Apply(c, Exception(delegated, pc, cause, value, inst)).npc == vec / 4 * 4 <==> vec % 2 == 0 || cause == 0
  {
    var vec := if delegated then c.stvec else c.mtvec;
    Pow2Less(7, |c.status|);
    assert Pow2(7) == 128;
    AddedBelow(vec / 4 * 4, 4 * cause, Pow2(|c.status|));
  }

  /** A positive addend below the modulus changes the remainder. */
  lemma AddedBelow(x: nat, y: nat, m: nat)
    requires x < m && y < m
    ensures (x + y) % m == x <==> y == 0
  {
    if x + y < m {
      DivModUnique(x + y, m, 0, x + y);
    } else {
      DivModUnique(x + y, m, 1, x + y - m);
    }
  }

  // ---------------------------------------------------------------------------
  // Runs
  // ---------------------------------------------------------------------------

  datatype Event =
    | Exception(delegated: bool, pc: nat, cause: nat, value: nat, inst: nat)
    | Interrupt(to: Level, code: nat)
    | Return(from: Level)
    | Software(after: Core)

  /** A trap that has not returned: its level, and what was interrupted. */
  datatype Frame = Frame(level: Level, enable: bool, priv: nat, resume: nat)

  function InterruptCause(code: nat, width: nat): nat
    requires width > 0
  {
    Pow2(width - 1) + code
  }

  function Apply(c: Core, e: Event): Core
    requires Wide(c)
  {
    match e
    case Exception(delegated, pc, cause, value, inst) =>
      if delegated then Trapped(c, S, pc, cause, cause, value).(stinst := inst)
      else Trapped(c, M, pc, cause, cause, value).(mtinst := inst)
    case Interrupt(l, code) => Trapped(c, l, c.npc, InterruptCause(code, |c.status|), code, 0)
    case Return(l) => Returned(c, l)
    case Software(after) => after
  }

  /** The level a trap goes to and the address it is to resume at. */
  function TrapOf(c: Core, e: Event): Option<(Level, nat)> {
    match e
    case Exception(delegated, pc, _, _, _) => Some((if delegated then S else M, pc))
    case Interrupt(l, _) => Some((l, c.npc))
    case _ => None
  }

  function FramesAfter(c: Core, frames: seq<Frame>, e: Event): seq<Frame>
    requires Wide(c)
  {
    match TrapOf(c, e)
    case Some((l, resume)) => frames + [Frame(l, Enable(c, l), c.priv, resume)]
    case None => if e.Return? && frames != [] then frames[..|frames| - 1] else frames
  }

  ghost predicate Active(frames: seq<Frame>, l: Level) {
    exists i :: 0 <= i < |frames| && frames[i].level == l
  }

  /** No level is entered again before it returned, S only from U or S; returns match; and software keeps
      the mode and the saved fields of the levels that are active. */
  ghost predicate Allowed(c: Core, frames: seq<Frame>, e: Event)
    requires Wide(c)
  {
    match e
    case Exception(delegated, _, _, _, _) =>
      !Active(frames, if delegated then S else M) && (delegated ==> c.priv <= SUPERVISOR)
    case Interrupt(l, _) => !Active(frames, l) && (l.S? ==> c.priv <= SUPERVISOR)
    case Return(l) => frames != [] && frames[|frames| - 1].level == l
    case Software(after) =>
      && |after.status| == |c.status| && after.priv == c.priv
      && forall l :: Active(frames, l) ==> Saved(after, l) == Saved(c, l)
  }

  /** The saved fields are those of the frames, and a frame of M is the last one, in M. */
  ghost predicate Holds(c: Core, frames: seq<Frame>) {
    && Wide(c)
    && (forall i, j :: 0 <= i < j < |frames| ==> frames[i].level != frames[j].level)
    && (forall i :: 0 <= i < |frames| && frames[i].level == M ==> i == |frames| - 1 && c.priv == MACHINE)
    && forall i :: 0 <= i < |frames| ==>
         Saved(c, frames[i].level) == (frames[i].enable, frames[i].priv, frames[i].resume)
  }

  lemma StepHolds(c: Core, frames: seq<Frame>, e: Event)
    requires Holds(c, frames) && Allowed(c, frames, e)
    ensures Holds(Apply(c, e), FramesAfter(c, frames, e))
  {
    match e
    case Exception(delegated, pc, cause, value, inst) =>
      TrapSaves(c, if delegated then S else M, pc, cause, cause, value);
    case Interrupt(l, code) =>
      TrapSaves(c, l, c.npc, InterruptCause(code, |c.status|), code, 0);
    case Return(l) =>
      ReturnRestores(c, l);
    case Software(after) =>
  }

  ghost predicate Legal(c: Core, frames: seq<Frame>, es: seq<Event>)
    decreases |es|
  {
    es == [] ||
    (Wide(c) && Allowed(c, frames, es[0]) && Legal(Apply(c, es[0]), FramesAfter(c, frames, es[0]), es[1..]))
  }

  /** The registers and the frames after a run. */
  ghost function Run(c: Core, frames: seq<Frame>, es: seq<Event>): (Core, seq<Frame>)
    requires Legal(c, frames, es)
    decreases |es|
  {
    if es == [] then (c, frames)
    else Run(Apply(c, es[0]), FramesAfter(c, frames, es[0]), es[1..])
  }

  lemma {:induction false} RunHolds(c: Core, frames: seq<Frame>, es: seq<Event>)
    requires Holds(c, frames) && Legal(c, frames, es)
    ensures Holds(Run(c, frames, es).0, Run(c, frames, es).1)
    decreases |es|
  {
    if es != [] {
      StepHolds(c, frames, es[0]);
      RunHolds(Apply(c, es[0]), FramesAfter(c, frames, es[0]), es[1..]);
    }
  }

  /** Whatever runs between a trap and its return, the return restores the mode, the level's interrupt
      enable and the address to resume at. */
  lemma BalancedRestores(c: Core, frames: seq<Frame>, trap: Event, es: seq<Event>)
    requires Holds(c, frames) && TrapOf(c, trap).Some? && Allowed(c, frames, trap)
    requires Legal(Apply(c, trap), FramesAfter(c, frames, trap), es)
    requires Run(Apply(c, trap), FramesAfter(c, frames, trap), es).1 == FramesAfter(c, frames, trap)
    ensures var (l, resume) := TrapOf(c, trap).value;
            var end := Run(Apply(c, trap), FramesAfter(c, frames, trap), es).0;
            && Wide(end) && Wide(Returned(end, l))
            && (Enable(Returned(end, l), l), Returned(end, l).priv, Returned(end, l).npc) ==
                 (Enable(c, l), c.priv, resume)
  {
    var (l, resume) := TrapOf(c, trap).value;
    StepHolds(c, frames, trap);
    RunHolds(Apply(c, trap), FramesAfter(c, frames, trap), es);
    var (end, frames') := Run(Apply(c, trap), FramesAfter(c, frames, trap), es);
    assert frames'[|frames|] == Frame(l, Enable(c, l), c.priv, resume);
    ReturnRestores(end, l);
  }

  /** At most a trap into S and one into M above it are active at a time. */
  lemma AtMostTwoFrames(c: Core, frames: seq<Frame>)
    requires Holds(c, frames)
    ensures frames == [] || |frames| == 1 || (|frames| == 2 && frames[0].level == S && frames[1].level == M)
  {
    assert |frames| >= 2 ==> frames[0].level == S;
    assert |frames| >= 3 ==> frames[1].level == S;
  }

  // ---------------------------------------------------------------------------
  // Choosing an interrupt
  // ---------------------------------------------------------------------------

  const ORDER_M: seq<nat> := [11, 3, 7, 9, 0, 5]
  const ORDER_S: seq<nat> := [9, 0, 5]

  /** The first code of `order` whose digit is set. */
  function FirstOf(order: seq<nat>, pending: nat): Option<nat> {
    if order == [] then None
    else if Bit(pending, order[0]) then Some(order[0])
    else FirstOf(order[1..], pending)
  }

  lemma {:induction false} NothingPending(order: seq<nat>)
    ensures FirstOf(order, 0) == None
  {
    if order != [] {
      ZeroBit(order[0]);
      NothingPending(order[1..]);
    }
  }

  /** The interrupt to take, given the enables of the two levels. */
  function Choose(priv: nat, mie: bool, sie: bool, pendingM: nat, pendingS: nat): Option<(Level, nat)> {
    var m := FirstOf(ORDER_M, pendingM);
    var s := FirstOf(ORDER_S, pendingS);
    if (priv < MACHINE || mie) && m.Some? then Some((M, m.value))
    else if (priv < SUPERVISOR || (priv == SUPERVISOR && sie)) && s.Some? then Some((S, s.value))
    else None
  }

  /** An interrupt into S is taken only from U or S. */
  lemma ChosenFromBelow(priv: nat, mie: bool, sie: bool, pendingM: nat, pendingS: nat)
    ensures var r := Choose(priv, mie, sie, pendingM, pendingS);
            r.Some? && r.value.0 == S ==> priv <= SUPERVISOR
  {
  }

  /** The scan reads copies of the enables that traps and returns do not refresh. It decides as the
      enables themselves would exactly when the copy that matters in this mode is right or nothing
      depends on it. */
  lemma StaleEnables(priv: nat, mie: bool, sie: bool, mie': bool, sie': bool, pendingM: nat, pendingS: nat)
    ensures Choose(priv, mie, sie, pendingM, pendingS) == Choose(priv, mie', sie', pendingM, pendingS)
            <==> if priv >= MACHINE then mie == mie' || FirstOf(ORDER_M, pendingM) == None
                 else priv != SUPERVISOR || sie == sie'
                      || FirstOf(ORDER_M, pendingM).Some? || FirstOf(ORDER_S, pendingS) == None
  {
  }

  /** So a handler in M can be interrupted into M again although its trap cleared the enable. */
  lemma HandlerInterrupted(c: Core, pc: nat, cause: nat, value: nat, sie: bool, pendingM: nat, pendingS: nat)
    requires Wide(c) && FirstOf(ORDER_M, pendingM).Some?
    ensures var t := Trapped(c, M, pc, cause, cause, value);
            && !Enable(t, M)
            && Choose(t.priv, true, sie, pendingM, pendingS) == Some((M, FirstOf(ORDER_M, pendingM).value))
            && !Choose(t.priv, Enable(t, M), sie, pendingM, pendingS).Some?
  {
  }
}
