/**
 Runs of the hart with its copies of the interrupt enables: which steps keep the copies right, and when the
 interrupt scan keeps traps nested.
 */
module HartRuns {
  import opened Options
  import opened Traps
  import opened StatusWord
  import opened Bits
  import opened Digits

  /** The registers, and the copies of the enables that the interrupt scan reads. */
  datatype HartState = HartState(core: Core, mie: bool, sie: bool)

  predicate Copy(h: HartState, l: Level) {
    if l.M? then h.mie else h.sie
  }

  /** A step of the hart. `Work` is an instruction that leaves mstatus alone. */
  datatype Move =
    | Fault(delegated: bool, pc: nat, cause: nat, value: nat, inst: nat)
    | Scan(pendingM: nat, pendingS: nat)
    | Return(from: Level)
    | WriteStatus(status: seq<bool>)
    | Work(after: Core)

  /** What the scan chooses. */
  function ChosenBy(h: HartState, pendingM: nat, pendingS: nat): Option<(Level, nat)> {
    Choose(h.core.priv, h.mie, h.sie, pendingM, pendingS)
  }

  /** The trap, return or software step that a move is; a scan may take nothing. */
  function EventOf(h: HartState, m: Move): Option<Event> {
    match m
    case Fault(delegated, pc, cause, value, inst) => Some(Exception(delegated, pc, cause, value, inst))
    case Scan(pendingM, pendingS) =>
      (match ChosenBy(h, pendingM, pendingS)
       case Some((l, code)) => Some(Interrupt(l, code))
       case None => None)
    case Return(l) => Some(Event.Return(l))
    case WriteStatus(status) => Some(Software(h.core.(status := status)))
    case Work(after) => Some(Software(after))
  }

  /** Writes of mstatus through write_csr refresh the copies: those of software and of interrupt_s. */
  predicate Refreshes(h: HartState, m: Move) {
    m.WriteStatus? || (EventOf(h, m).Some? && EventOf(h, m).value.Interrupt? && EventOf(h, m).value.to == S)
  }

  predicate Fits(h: HartState, m: Move) {
    && |h.core.status| >= 32
    && (m.WriteStatus? ==> |m.status| == |h.core.status|)
    && (m.Work? ==> |m.after.status| == |h.core.status|)
  }

  function CoreAfter(h: HartState, m: Move): Core
    requires Wide(h.core)
  {
    match EventOf(h, m)
    case Some(e) => Apply(h.core, e)
    case None => h.core
  }

  function After(h: HartState, m: Move): HartState
    requires Wide(h.core) && Fits(h, m)
  {
    var core := CoreAfter(h, m);
    if Refreshes(h, m) then HartState(core, core.status[MIE], core.status[SIE])
    else HartState(core, h.mie, h.sie)
  }

  function FramesOf(h: HartState, frames: seq<Frame>, m: Move): seq<Frame>
    requires Wide(h.core)
  {
    match EventOf(h, m)
    case Some(e) => FramesAfter(h.core, frames, e)
    case None => frames
  }

  // ---------------------------------------------------------------------------
  // When the copies are right
  // ---------------------------------------------------------------------------

  ghost predicate Fresh(h: HartState) {
    Wide(h.core) && h.mie == Enable(h.core, M) && h.sie == Enable(h.core, S)
  }

  /** The level whose enable a move changes without refreshing the copies, and the enable's new value. */
  function Unnoticed(h: HartState, m: Move): Option<(Level, bool)>
    requires Wide(h.core)
  {
    match m
    case Fault(delegated, _, _, _, _) => Some((if delegated then S else M, false))
    case Scan(pendingM, pendingS) =>
      var chosen := ChosenBy(h, pendingM, pendingS);
      if chosen.Some? && chosen.value.0 == M then Some((M, false)) else None
    case Return(l) => Some((l, Saved(h.core, l).0))
    case _ => None
  }

  /** Right copies stay right exactly when the enable that a trap, an interrupt into M or a return changes
      keeps its value. */
  lemma StaysFresh(h: HartState, m: Move)
    requires Fresh(h) && Fits(h, m) && (m.Work? ==> m.after.status == h.core.status && m.after.priv < 4)
    ensures Wide(After(h, m).core)
    ensures Fresh(After(h, m)) <==> match Unnoticed(h, m)
                                    case Some((l, enable)) => enable == Enable(h.core, l)
                                    case None => true
  {
  }

  // ---------------------------------------------------------------------------
  // Nesting
  // ---------------------------------------------------------------------------

  /** The saved fields are right, handlers run with their level's enable off, and S handlers run in S. */
  ghost predicate Nested(c: Core, frames: seq<Frame>) {
    && Holds(c, frames)
    && (forall l :: Active(frames, l) ==> !Enable(c, l))
    && (frames != [] && frames[|frames| - 1].level == S ==> c.priv == SUPERVISOR)
    && (|frames| == 2 ==> frames[1].priv == SUPERVISOR)
  }

  /** No exception in a handler of the level it goes to, and none from M into S; returns match; software
      keeps the mode, the saved fields of active levels and their enables off. */
  ghost predicate Possible(h: HartState, frames: seq<Frame>, m: Move)
    requires Wide(h.core)
  {
    Fits(h, m) &&
    match m
    case Scan(_, _) => true
    case WriteStatus(status) =>
      && Allowed(h.core, frames, Software(h.core.(status := status)))
      && (Active(frames, M) ==> !status[MIE]) && (Active(frames, S) ==> !status[SIE])
    case Work(after) => after.status == h.core.status && Allowed(h.core, frames, Software(after))
    case _ => Allowed(h.core, frames, EventOf(h, m).value)
  }

  lemma ActivePush(frames: seq<Frame>, f: Frame, l: Level)
    ensures Active(frames + [f], l) <==> Active(frames, l) || f.level == l
  {
    if Active(frames, l) {
      var i :| 0 <= i < |frames| && frames[i].level == l;
      assert (frames + [f])[i].level == l;
    }
    assert (frames + [f])[|frames|] == f;
  }

  lemma EnteredOff(c: Core, frames: seq<Frame>, l: Level, resume: nat, cause: nat, code: nat, value: nat, f: Frame)
    requires Nested(c, frames) && !Active(frames, l) && f.level == l
    ensures var t := Trapped(c, l, resume, cause, code, value);
            forall k :: Active(frames + [f], k) ==> !Enable(t, k)
  {
    TrapSaves(c, l, resume, cause, code, value);
    forall k ensures Active(frames + [f], k) <==> Active(frames, k) || k == l {
      ActivePush(frames, f, k);
    }
  }

  lemma TrapNested(c: Core, frames: seq<Frame>, e: Event, l: Level, resume: nat)
    requires Nested(c, frames) && Allowed(c, frames, e) && TrapOf(c, e) == Some((l, resume))
    ensures Nested(Apply(c, e), FramesAfter(c, frames, e))
  {
    StepHolds(c, frames, e);
    AtMostTwoFrames(c, frames);
    var f := Frame(l, Enable(c, l), c.priv, resume);
    match e
    case Exception(_, pc, cause, value, _) =>
      EnteredOff(c, frames, l, pc, cause, cause, value, f);
      assert forall k :: Enable(Apply(c, e), k) == Enable(Trapped(c, l, pc, cause, cause, value), k);
    case Interrupt(_, code) =>
      EnteredOff(c, frames, l, c.npc, InterruptCause(code, |c.status|), code, 0, f);
  }

  /** Allowed steps keep traps nested with enables off, as long as software does not turn them on. */
  lemma NestedStep(c: Core, frames: seq<Frame>, e: Event)
    requires Nested(c, frames) && Allowed(c, frames, e)
    requires e.Software? ==> Wide(e.after) && forall l :: Active(frames, l) ==> !Enable(e.after, l)
    ensures Nested(Apply(c, e), FramesAfter(c, frames, e))
  {
    if TrapOf(c, e).Some? {
      TrapNested(c, frames, e, TrapOf(c, e).value.0, TrapOf(c, e).value.1);
    } else {
      StepHolds(c, frames, e);
      AtMostTwoFrames(c, frames);
      if e.Return? { ReturnRestores(c, e.from); }
    }
  }

  ghost predicate ScanAllowed(h: HartState, frames: seq<Frame>, pendingM: nat, pendingS: nat)
    requires Wide(h.core)
  {
    ChosenBy(h, pendingM, pendingS).Some? ==>
      Allowed(h.core, frames, EventOf(h, Scan(pendingM, pendingS)).value)
  }

  /** The copy of the innermost handler's level is off. */
  predicate Quiet(h: HartState, frames: seq<Frame>) {
    frames == [] || !Copy(h, frames[|frames| - 1].level)
  }

  lemma QuietScan(h: HartState, frames: seq<Frame>, pendingM: nat, pendingS: nat)
    requires Nested(h.core, frames) && Quiet(h, frames)
    ensures ScanAllowed(h, frames, pendingM, pendingS)
  {
    AtMostTwoFrames(h.core, frames);
    ChosenFromBelow(h.core.priv, h.mie, h.sie, pendingM, pendingS);
  }

  /** A handler is interrupted into its own level if the copy of its enable is on, although the enable
      is off. */
  lemma StaleScan(h: HartState, frames: seq<Frame>, pendingM: nat, pendingS: nat)
    requires Nested(h.core, frames) && !Quiet(h, frames)
    requires var l := frames[|frames| - 1].level;
             if l == M then FirstOf(ORDER_M, pendingM).Some?
             else FirstOf(ORDER_M, pendingM).None? && FirstOf(ORDER_S, pendingS).Some?
    ensures !Enable(h.core, frames[|frames| - 1].level)
    ensures !ScanAllowed(h, frames, pendingM, pendingS)
  {
  }

  /** Whatever is pending, the scan re-enters no level, exactly when the copy of the innermost handler's
      level is off. */
  lemma ScanKeepsNesting(h: HartState, frames: seq<Frame>)
    requires Nested(h.core, frames)
    ensures (forall pendingM: nat, pendingS: nat :: ScanAllowed(h, frames, pendingM, pendingS)) <==>
              Quiet(h, frames)
  {
    if Quiet(h, frames) {
      forall pendingM: nat, pendingS: nat ensures ScanAllowed(h, frames, pendingM, pendingS) {
        QuietScan(h, frames, pendingM, pendingS);
      }
    } else {
      var pendingM, pendingS := PendingFor(frames[|frames| - 1].level);
      StaleScan(h, frames, pendingM, pendingS);
    }
  }

  lemma PendingFor(l: Level) returns (pendingM: nat, pendingS: nat)
    ensures if l == M then FirstOf(ORDER_M, pendingM).Some?
            else FirstOf(ORDER_M, pendingM).None? && FirstOf(ORDER_S, pendingS).Some?
  {
    pendingM, pendingS := if l == M then Pow2(11) else 0, Pow2(9);
    Pow2Bit(11, 11);
    Pow2Bit(9, 9);
    NothingPending(ORDER_M);
  }

  // ---------------------------------------------------------------------------
  // Runs
  // ---------------------------------------------------------------------------

  /** The copies of all active levels are off. */
  ghost predicate Covered(h: HartState, frames: seq<Frame>) {
    forall l :: Active(frames, l) ==> !Copy(h, l)
  }

  /** A trap or interrupt that leaves the copies alone is taken with the copy of its level off. */
  predicate EnteredQuietly(h: HartState, m: Move)
    requires Wide(h.core)
  {
    var trap := EventOf(h, m);
    trap.Some? && TrapOf(h.core, trap.value).Some? && !Refreshes(h, m) ==>
      !Copy(h, TrapOf(h.core, trap.value).value.0)
  }

  /** One move keeps traps nested. It leaves the copies of active levels off exactly when it did not enter
      a level whose copy is on. */
  lemma MoveNested(h: HartState, frames: seq<Frame>, m: Move)
    requires Nested(h.core, frames) && Covered(h, frames) && Possible(h, frames, m)
    ensures EventOf(h, m).Some? ==> Allowed(h.core, frames, EventOf(h, m).value)
    ensures Nested(After(h, m).core, FramesOf(h, frames, m))
    ensures Covered(After(h, m), FramesOf(h, frames, m)) <==> EnteredQuietly(h, m)
  {
    if m.Scan? {
      assert Quiet(h, frames) by { assert frames != [] ==> Active(frames, frames[|frames| - 1].level); }
      QuietScan(h, frames, m.pendingM, m.pendingS);
    }
    if e: Event :| EventOf(h, m) == Some(e) {
      NestedStep(h.core, frames, e);
      MoveCovered(h, frames, m, e);
    }
  }

  lemma MoveCovered(h: HartState, frames: seq<Frame>, m: Move, e: Event)
    requires Nested(h.core, frames) && Covered(h, frames) && Possible(h, frames, m)
    requires EventOf(h, m) == Some(e) && Nested(After(h, m).core, FramesOf(h, frames, m))
    ensures Covered(After(h, m), FramesOf(h, frames, m)) <==> EnteredQuietly(h, m)
  {
    var frames', h' := FramesOf(h, frames, m), After(h, m);
    if Refreshes(h, m) {
      assert forall l :: Copy(h', l) == Enable(h'.core, l);
    } else if TrapOf(h.core, e).Some? {
      var (l, resume) := TrapOf(h.core, e).value;
      var f := Frame(l, Enable(h.core, l), h.core.priv, resume);
      assert frames' == frames + [f];
      forall k ensures Active(frames', k) <==> Active(frames, k) || l == k {
        ActivePush(frames, f, k);
      }
    } else {
      forall k | Active(frames', k) ensures Active(frames, k) {
        var i :| 0 <= i < |frames'| && frames'[i].level == k;
        assert frames'[i] == frames[i];
      }
    }
  }

  /** Every move is possible where it is made, and enters no level whose copy is on. */
  ghost predicate Disciplined(h: HartState, frames: seq<Frame>, ms: seq<Move>)
    decreases |ms|
  {
    ms == [] ||
    (&& Wide(h.core) && Possible(h, frames, ms[0]) && EnteredQuietly(h, ms[0])
     && Disciplined(After(h, ms[0]), FramesOf(h, frames, ms[0]), ms[1..]))
  }

  ghost function RunMoves(h: HartState, frames: seq<Frame>, ms: seq<Move>): (HartState, seq<Frame>)
    requires Disciplined(h, frames, ms)
    decreases |ms|
  {
    if ms == [] then (h, frames)
    else RunMoves(After(h, ms[0]), FramesOf(h, frames, ms[0]), ms[1..])
  }

  /** The traps, returns and software steps of a run. */
  ghost function EventsOf(h: HartState, frames: seq<Frame>, ms: seq<Move>): seq<Event>
    requires Disciplined(h, frames, ms)
    decreases |ms|
  {
    if ms == [] then []
    else
      (match EventOf(h, ms[0])
       case Some(e) => [e]
       case None => []) + EventsOf(After(h, ms[0]), FramesOf(h, frames, ms[0]), ms[1..])
  }

  /** Over any run in which the copy of a level is off whenever it is entered, scans included, traps nest:
      the run is a legal one of traps and returns, and ends with the saved fields right. */
  lemma {:induction false} RunNested(h: HartState, frames: seq<Frame>, ms: seq<Move>)
    requires Nested(h.core, frames) && Covered(h, frames) && Disciplined(h, frames, ms)
    ensures Legal(h.core, frames, EventsOf(h, frames, ms))
    ensures var (h', frames') := RunMoves(h, frames, ms);
            && Run(h.core, frames, EventsOf(h, frames, ms)) == (h'.core, frames')
            && Nested(h'.core, frames') && Covered(h', frames')
    decreases |ms|
  {
    if ms != [] {
      MoveNested(h, frames, ms[0]);
      var h1, frames1 := After(h, ms[0]), FramesOf(h, frames, ms[0]);
      RunNested(h1, frames1, ms[1..]);
      var rest := EventsOf(h1, frames1, ms[1..]);
      if e: Event :| EventOf(h, ms[0]) == Some(e) {
        assert ([e] + rest)[0] == e && ([e] + rest)[1..] == rest;
      } else {
        assert [] + rest == rest;
      }
    }
  }
}
