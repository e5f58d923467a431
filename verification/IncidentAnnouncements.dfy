/**
 * What a run announces, incident by incident: which openings, escalations and recoveries reach the
 * log, told by the steps that opened and closed the incident.
 */
module IncidentAnnouncements {
  import opened Basics
  import opened Incidents
  import opened IncidentRuns

  // ---------------------------------------------------------------- the steps that decide

  lemma ClericalOpensNothing(w: World, step: Step, setting: int)
    requires Clerical(step)
    ensures |Next(w, step, setting).incidents| == |w.incidents|
  {
  }

  /** The slot of the step that opened incident `id`. */
  function Born(steps: seq<Step>, setting: int, id: nat): Slot
    requires id < |Run(steps, setting).incidents|
  {
    var prefix, step := steps[..|steps| - 1], steps[|steps| - 1];
    if id < |Run(prefix, setting).incidents| then Born(prefix, setting, id)
    else
      assert !Clerical(step) by {
        if Clerical(step) {
          ClericalOpensNothing(Run(prefix, setting), step, setting);
        }
      }
      SlotOf(step)
  }

  /** Whether the step that opened incident `id` was free to announce it. */
  predicate BornLoud(steps: seq<Step>, setting: int, id: nat)
    requires id < |Run(steps, setting).incidents|
  {
    var prefix, step := steps[..|steps| - 1], steps[|steps| - 1];
    if id < |Run(prefix, setting).incidents| then BornLoud(prefix, setting, id) else Loud(step)
  }

  /** Whether incident `id` was resolved, in a step free to announce it. */
  predicate ClosedLoud(steps: seq<Step>, setting: int, id: nat)
    requires id < |Run(steps, setting).incidents|
  {
    var prefix, step := steps[..|steps| - 1], steps[|steps| - 1];
    if id < |Run(prefix, setting).incidents| && !Run(prefix, setting).incidents[id].status.Open? then
      ClosedLoud(prefix, setting, id)
    else Run(steps, setting).incidents[id].status.Resolved? && Loud(step)
  }

  // ---------------------------------------------------------------- one step

  predicate Read(kind: SourceKind) {
    kind.Snmp? || kind.CheckTls?
  }

  /** How one step may change the stamps of one row. */
  predicate RowMoves(before: Incident, after: Incident, loud: bool) {
    && after.kind == before.kind
    && (before.openAttempted.Some? ==> after.openAttempted == before.openAttempted)
    && (Read(before.kind) || !after.status.Open? ==> after.openAttempted == before.openAttempted)
    && (!before.status.Open? ==> !after.status.Open?)
    && (after.recoveryAttempted.Some? <==>
          before.recoveryAttempted.Some?
          || (before.status.Open? && after.status.Resolved? && before.openAttempted.Some? && loud))
  }

  predicate TableMoves(rows: seq<Incident>, after: seq<Incident>, loud: bool) {
    && |rows| <= |after|
    && (forall i :: 0 <= i < |rows| ==> RowMoves(rows[i], after[i], loud))
    && (forall i :: |rows| <= i < |after| ==>
          after[i].status.Open? && after[i].recoveryAttempted.None? && (after[i].openAttempted.Some? <==> loud))
  }

  lemma FailureMoves(rows: seq<Incident>, slot: Slot, severity: Option<Severity>, confirmed: bool, setting: int,
                     suppressed: bool, at: Time, now: Time)
    requires slot.AvailabilitySlot? || slot.CheckSlot?
    ensures TableMoves(rows, AfterFailure(rows, slot, severity, confirmed, setting, suppressed, at, now).rows,
                       !suppressed)
  {
  }

  lemma RecoveryMoves(rows: seq<Incident>, slot: Slot, notify: bool, suppressed: bool, at: Time, now: Time)
    ensures TableMoves(rows, AfterRecovery(rows, slot, notify, suppressed, at, now).rows, notify && !suppressed)
  {
  }

  lemma ReadingMoves(rows: seq<Incident>, slot: Slot, severity: Severity, notify: bool, suppressed: bool, at: Time,
                     now: Time)
    ensures TableMoves(rows, AfterReading(rows, slot, severity, notify, suppressed, at, now).rows,
                       notify && !suppressed)
  {
  }

  /** New rows are open for the slot worked on, and no work on a slot erases a row. */
  predicate Shapes(rows: seq<Incident>, after: seq<Incident>, slot: Slot) {
    && |rows| <= |after|
    && (forall i :: 0 <= i < |rows| && !rows[i].status.Erased? ==> !after[i].status.Erased?)
    && (forall i :: |rows| <= i < |after| ==> OpenFor(after[i], slot))
  }

  lemma FailureShapes(rows: seq<Incident>, slot: Slot, severity: Option<Severity>, confirmed: bool, setting: int,
                      suppressed: bool, at: Time, now: Time)
    ensures Shapes(rows, AfterFailure(rows, slot, severity, confirmed, setting, suppressed, at, now).rows, slot)
  {
  }

  lemma RecoveryShapes(rows: seq<Incident>, slot: Slot, notify: bool, suppressed: bool, at: Time, now: Time)
    ensures Shapes(rows, AfterRecovery(rows, slot, notify, suppressed, at, now).rows, slot)
  {
  }

  lemma ReadingShapes(rows: seq<Incident>, slot: Slot, severity: Severity, notify: bool, suppressed: bool, at: Time,
                      now: Time)
    ensures Shapes(rows, AfterReading(rows, slot, severity, notify, suppressed, at, now).rows, slot)
  {
  }

  lemma StepShapes(w: World, step: Step, setting: int)
    requires !Clerical(step)
    ensures Shapes(w.incidents, Effect(w, step, setting).rows, SlotOf(step))
  {
    var rows, slot := w.incidents, SlotOf(step);
    NothingShapes(rows, slot);
    hide Shapes, AfterFailure, AfterRecovery, AfterReading, ConfirmedIn, StatusesOf, Stored;
    match step
    case Primary(target, _, suppressed, at, now) =>
      FailureShapes(rows, slot, None, ConfirmedIn(StatusesOf(Stored(w, step), target), setting), setting, suppressed,
                    at, now);
      RecoveryShapes(rows, slot, true, suppressed, at, now);
    case Secondary(_, _, _, confirmed, suppressed, at, now) =>
      FailureShapes(rows, slot, Some(Critical), confirmed, setting, suppressed, at, now);
      RecoveryShapes(rows, slot, true, suppressed, at, now);
    case Certificate(_, _, _, suppressed, at, now) =>
      RecoveryShapes(rows, slot, true, suppressed, at, now);
      ReadingShapes(rows, slot, Warning, true, suppressed, at, now);
      ReadingShapes(rows, slot, Critical, true, suppressed, at, now);
    case Source(_, _, severity, notify, suppressed, at, now) =>
      RecoveryShapes(rows, slot, notify, suppressed, at, now);
      if severity.Some? {
        ReadingShapes(rows, slot, severity.value, notify, suppressed, at, now);
      }
  }

  lemma NothingShapes(rows: seq<Incident>, slot: Slot)
    ensures Shapes(rows, rows, slot)
  {
  }

  lemma NothingMoves(rows: seq<Incident>, loud: bool)
    ensures TableMoves(rows, rows, loud)
  {
  }

  lemma ClericalMoves(w: World, step: Step, setting: int)
    requires Clerical(step)
    ensures TableMoves(w.incidents, Next(w, step, setting).incidents, Loud(step))
  {
  }

  lemma StepMoves(w: World, step: Step, setting: int)
    ensures TableMoves(w.incidents, Next(w, step, setting).incidents, Loud(step))
  {
    var rows := w.incidents;
    hide TableMoves, AfterFailure, AfterRecovery, AfterReading, ConfirmedIn, StatusesOf, Stored, AfterSilentResolve,
         AfterErase;
    NothingMoves(rows, Loud(step));
    match step
    case Primary(target, _, suppressed, at, now) =>
      FailureMoves(rows, SlotOf(step), None, ConfirmedIn(StatusesOf(Stored(w, step), target), setting), setting,
                   suppressed, at, now);
      RecoveryMoves(rows, SlotOf(step), true, suppressed, at, now);
    case Secondary(_, _, _, confirmed, suppressed, at, now) =>
      FailureMoves(rows, SlotOf(step), Some(Critical), confirmed, setting, suppressed, at, now);
      RecoveryMoves(rows, SlotOf(step), true, suppressed, at, now);
    case Certificate(_, _, _, suppressed, at, now) =>
      RecoveryMoves(rows, SlotOf(step), true, suppressed, at, now);
      ReadingMoves(rows, SlotOf(step), Warning, true, suppressed, at, now);
      ReadingMoves(rows, SlotOf(step), Critical, true, suppressed, at, now);
    case Source(_, _, severity, notify, suppressed, at, now) =>
      RecoveryMoves(rows, SlotOf(step), notify, suppressed, at, now);
      if severity.Some? {
        ReadingMoves(rows, SlotOf(step), severity.value, notify, suppressed, at, now);
      }
    case _ => ClericalMoves(w, step, setting);
  }

  // ---------------------------------------------------------------- the stamps of an incident

  /** The stamps of incident `id` tell how it was opened and closed. */
  lemma {:induction false} StampsTell(steps: seq<Step>, setting: int, id: nat)
    requires id < |Run(steps, setting).incidents|
    ensures var row := Run(steps, setting).incidents[id];
            && (BornLoud(steps, setting, id) ==> row.openAttempted.Some?)
            && (Read(row.kind) ==> (row.openAttempted.Some? <==> BornLoud(steps, setting, id)))
            && (row.recoveryAttempted.Some? <==> row.openAttempted.Some? && ClosedLoud(steps, setting, id))
            && (row.status.Open? ==> !ClosedLoud(steps, setting, id))
  {
    var prefix, step := steps[..|steps| - 1], steps[|steps| - 1];
    var before := Run(prefix, setting).incidents;
    StepMoves(Run(prefix, setting), step, setting);
    hide Next, Loud;
    if id < |before| {
      StampsTell(prefix, setting, id);
      assert RowMoves(before[id], Run(steps, setting).incidents[id], Loud(step));
    }
  }

  /**
   * Exactly what is announced about an incident, whatever else the run does: a recovery if and only if
   * its opening was announced and it was resolved in a step free to announce it; for SNMP and
   * certificate incidents the opening is announced if and only if the opening step was free to, so one
   * opened while suppressed announces its loud rises but never its recovery.
   */
  lemma AnnouncedExactly(steps: seq<Step>, setting: int, id: nat)
    requires id < |Run(steps, setting).incidents|
    ensures var w := Run(steps, setting);
            var row := w.incidents[id];
            && Count(w.log, Event(id, Recovered)) == One(row.openAttempted.Some? && ClosedLoud(steps, setting, id))
            && (Read(row.kind) ==>
                  && Count(w.log, Event(id, Opened)) ==
                     One(BornLoud(steps, setting, id)) + LoudRises(steps, setting, id)
                  && Count(w.log, Event(id, Recovered)) ==
                     One(BornLoud(steps, setting, id) && ClosedLoud(steps, setting, id)))
  {
    hide Run, LoudRises, BornLoud, ClosedLoud, Count;
    RunKeepsLedger(steps, setting, id);
    StampsTell(steps, setting, id);
  }

  /** A reading that resolves an incident announces it exactly when the incident was opened in a loud step. */
  lemma NormalReadingRecovers(steps: seq<Step>, setting: int, step: Step)
    requires Loud(step) && ((step.Source? && step.severity.None?) || (step.Certificate? && step.health.TlsOk?))
    requires FindOpen(Run(steps, setting).incidents, SlotOf(step)) >= 0
    ensures var w := Run(steps, setting);
            var id := FindOpen(w.incidents, SlotOf(step));
            Event(id, Recovered) in Next(w, step, setting).log <==> BornLoud(steps, setting, id)
  {
    hide Run, BornLoud, ClosedLoud;
    var w := Run(steps, setting);
    var id := FindOpen(w.incidents, SlotOf(step));
    StampsTell(steps, setting, id);
    RunStampsAgree(steps, setting);
    assert w.incidents[id].recoveryAttempted.None?;
  }

  // ---------------------------------------------------------------- what is heard of an outage

  /** The step processes a DOWN of the open incident's own slot, free of suppression. */
  predicate HearsDown(step: Step, after: seq<Incident>, id: nat) {
    && (step.Primary? || step.Secondary?) && step.status.Down? && !step.suppressed
    && id < |after| && OpenFor(after[id], SlotOf(step))
  }

  /** Whether that happened to incident `id` in the run. */
  predicate Heard(steps: seq<Step>, setting: int, id: nat) {
    steps != [] && (Heard(steps[..|steps| - 1], setting, id)
                    || HearsDown(steps[|steps| - 1], Run(steps, setting).incidents, id))
  }

  /** How one step may stamp the availability and check incidents as opened. */
  predicate TableHears(rows: seq<Incident>, after: seq<Incident>, slot: Slot, loudDown: bool) {
    && |rows| <= |after|
    && forall i :: 0 <= i < |after| && !Read(after[i].kind) ==>
         (after[i].openAttempted.Some? <==>
          (i < |rows| && rows[i].openAttempted.Some?) || (loudDown && OpenFor(after[i], slot)))
  }

  lemma FailureHears(rows: seq<Incident>, slot: Slot, severity: Option<Severity>, confirmed: bool, setting: int,
                     suppressed: bool, at: Time, now: Time)
    requires UniqueOpen(rows)
    ensures TableHears(rows, AfterFailure(rows, slot, severity, confirmed, setting, suppressed, at, now).rows, slot,
                       !suppressed)
  {
  }

  lemma RecoveryHears(rows: seq<Incident>, slot: Slot, notify: bool, suppressed: bool, at: Time, now: Time)
    ensures TableHears(rows, AfterRecovery(rows, slot, notify, suppressed, at, now).rows, slot, false)
  {
  }

  lemma ReadingHears(rows: seq<Incident>, slot: Slot, severity: Severity, notify: bool, suppressed: bool, at: Time,
                     now: Time)
    requires slot.TlsSlot? || slot.SnmpSlot?
    ensures TableHears(rows, AfterReading(rows, slot, severity, notify, suppressed, at, now).rows, slot, false)
  {
  }

  lemma NothingHeard(rows: seq<Incident>, slot: Slot)
    ensures TableHears(rows, rows, slot, false)
  {
  }

  lemma StepHears(w: World, step: Step, setting: int)
    requires !Clerical(step) && UniqueOpen(w.incidents)
    ensures TableHears(w.incidents, Effect(w, step, setting).rows, SlotOf(step),
                       (step.Primary? || step.Secondary?) && step.status.Down? && !step.suppressed)
  {
    var rows, slot := w.incidents, SlotOf(step);
    NothingHeard(rows, slot);
    hide TableHears, UniqueOpen, AfterFailure, AfterRecovery, AfterReading, ConfirmedIn, StatusesOf, Stored;
    match step
    case Primary(target, _, suppressed, at, now) =>
      FailureHears(rows, slot, None, ConfirmedIn(StatusesOf(Stored(w, step), target), setting), setting, suppressed, at,
                   now);
      RecoveryHears(rows, slot, true, suppressed, at, now);
    case Secondary(_, _, _, confirmed, suppressed, at, now) =>
      FailureHears(rows, slot, Some(Critical), confirmed, setting, suppressed, at, now);
      RecoveryHears(rows, slot, true, suppressed, at, now);
    case Certificate(_, _, _, suppressed, at, now) =>
      RecoveryHears(rows, slot, true, suppressed, at, now);
      ReadingHears(rows, slot, Warning, true, suppressed, at, now);
      ReadingHears(rows, slot, Critical, true, suppressed, at, now);
    case Source(_, _, severity, notify, suppressed, at, now) =>
      RecoveryHears(rows, slot, notify, suppressed, at, now);
      if severity.Some? {
        ReadingHears(rows, slot, severity.value, notify, suppressed, at, now);
      }
  }

  /** What an administrator does stamps nothing. */
  lemma ClericalStampsNothing(w: World, step: Step, setting: int, id: nat)
    requires Clerical(step) && id < |w.incidents|
    ensures id < |Next(w, step, setting).incidents|
    ensures Next(w, step, setting).incidents[id].openAttempted == w.incidents[id].openAttempted
    ensures Next(w, step, setting).incidents[id].kind == w.incidents[id].kind
  {
  }

  lemma NobodyHearsYet(w: World, step: Step, setting: int, id: nat)
    requires id >= |Next(w, step, setting).incidents|
    ensures !HearsDown(step, Next(w, step, setting).incidents, id)
  {
  }

  lemma {:induction false} UnbornUnheard(steps: seq<Step>, setting: int, id: nat)
    requires id >= |Run(steps, setting).incidents|
    ensures !Heard(steps, setting, id)
  {
    if steps != [] {
      hide Next;
      var prefix, step := steps[..|steps| - 1], steps[|steps| - 1];
      StepMoves(Run(prefix, setting), step, setting);
      UnbornUnheard(prefix, setting, id);
    }
  }

  /** A step stamps the opening of an availability or check incident exactly if a DOWN of it can be heard. */
  lemma StepTells(w: World, step: Step, setting: int, id: nat)
    requires UniqueOpen(w.incidents)
    requires id < |Next(w, step, setting).incidents| && !Read(Next(w, step, setting).incidents[id].kind)
    ensures var after := Next(w, step, setting).incidents;
            && (after[id].openAttempted.Some? <==>
                (id < |w.incidents| && w.incidents[id].openAttempted.Some?) || HearsDown(step, after, id))
            && (id < |w.incidents| ==> w.incidents[id].kind == after[id].kind)
  {
    hide UniqueOpen, Loud, OpenFor, Effect, SlotOf;
    StepMoves(w, step, setting);
    NextIsEffect(w, step, setting);
    if Clerical(step) {
      ClericalOpensNothing(w, step, setting);
      ClericalStampsNothing(w, step, setting, id);
    } else {
      StepHears(w, step, setting);
    }
  }

  /** The opening of an availability or check incident is attempted exactly when a DOWN of it could be heard. */
  lemma {:induction false} HeardTells(steps: seq<Step>, setting: int, id: nat)
    requires id < |Run(steps, setting).incidents| && !Read(Run(steps, setting).incidents[id].kind)
    ensures Run(steps, setting).incidents[id].openAttempted.Some? <==> Heard(steps, setting, id)
  {
    var prefix, step := steps[..|steps| - 1], steps[|steps| - 1];
    var w := Run(prefix, setting);
    hide Next, UniqueOpen, HearsDown;
    AtMostOneOpen(prefix, setting);
    StepTells(w, step, setting, id);
    if id < |w.incidents| {
      HeardTells(prefix, setting, id);
    } else {
      UnbornUnheard(prefix, setting, id);
    }
  }

  lemma NextIsEffect(w: World, step: Step, setting: int)
    ensures Next(w, step, setting).incidents == Effect(w, step, setting).rows
  {
  }

  /**
   * So for an availability or check incident, over any run: it announces its opening once if some DOWN of
   * its slot was processed free of suppression while it was open, and otherwise never; and its recovery
   * exactly when such a DOWN came and a free step resolved it.
   */
  lemma OutageAnnouncedExactly(steps: seq<Step>, setting: int, id: nat)
    requires id < |Run(steps, setting).incidents| && !Read(Run(steps, setting).incidents[id].kind)
    ensures var w := Run(steps, setting);
            && Count(w.log, Event(id, Opened)) == One(Heard(steps, setting, id))
            && Count(w.log, Event(id, Recovered)) == One(Heard(steps, setting, id) && ClosedLoud(steps, setting, id))
  {
    hide Run, LoudRises, ClosedLoud, Count, Heard;
    RunKeepsLedger(steps, setting, id);
    NoRises(steps, setting, id);
    HeardTells(steps, setting, id);
    AnnouncedExactly(steps, setting, id);
  }

  // ---------------------------------------------------------------- a source that nobody silences

  lemma SameSlot(row: Incident, a: Slot, b: Slot)
    requires OpenFor(row, a) && OpenFor(row, b)
    ensures a == b
  {
  }

  /** A step changes only the open incident of its own slot; what an administrator does changes no severity. */
  lemma StepTouches(w: World, step: Step, setting: int, id: nat)
    requires id < |w.incidents|
    ensures var after := Next(w, step, setting).incidents;
            && id < |after|
            && (after[id] != w.incidents[id] && !Clerical(step) ==> OpenFor(w.incidents[id], SlotOf(step)))
            && (after[id].status.Open? ==> w.incidents[id].status.Open?
                                           && forall slot :: OpenFor(w.incidents[id], slot) ==>
                                                OpenFor(after[id], slot))
            && (Clerical(step) ==> after[id].severity == w.incidents[id].severity)
  {
    if !Clerical(step) {
      hide Effect;
      StepOneRow(w, step, setting);
      var i := FindOpen(w.incidents, SlotOf(step));
      assert id != i ==> Effect(w, step, setting).rows[id] == w.incidents[id];
      StepKeepsSlot(w, step, setting, id);
    }
  }

  lemma StepKeepsSlot(w: World, step: Step, setting: int, id: nat)
    requires id < |w.incidents| && !Clerical(step)
    requires id == FindOpen(w.incidents, SlotOf(step)) || Effect(w, step, setting).rows[id] == w.incidents[id]
    requires id < |Effect(w, step, setting).rows|
    ensures var after := Effect(w, step, setting).rows[id];
            after.status.Open? ==> w.incidents[id].status.Open?
                                   && forall slot :: OpenFor(w.incidents[id], slot) ==> OpenFor(after, slot)
  {
  }

  lemma NewRowIsOfItsStep(w: World, step: Step, setting: int, id: nat)
    requires |w.incidents| <= id < |Next(w, step, setting).incidents| && !Clerical(step)
    ensures OpenFor(Next(w, step, setting).incidents[id], SlotOf(step))
  {
    hide Effect;
    StepShapes(w, step, setting);
  }

  /** An open incident is found by the slot it was opened for, and by no other. */
  lemma {:induction false} OpenForBirth(steps: seq<Step>, setting: int, id: nat)
    requires id < |Run(steps, setting).incidents|
    ensures var row := Run(steps, setting).incidents[id];
            row.status.Open? ==> OpenFor(row, Born(steps, setting, id))
  {
    var prefix, step := steps[..|steps| - 1], steps[|steps| - 1];
    var w := Run(prefix, setting);
    hide Next;
    if id < |w.incidents| {
      OpenForBirth(prefix, setting, id);
      StepTouches(w, step, setting, id);
    } else {
      if Clerical(step) {
        ClericalOpensNothing(w, step, setting);
      }
      NewRowIsOfItsStep(w, step, setting, id);
    }
  }

  /** How many times incident `id` rose from warning to critical. */
  function Rises(steps: seq<Step>, setting: int, id: nat): nat {
    if steps == [] then 0
    else
      var prefix := steps[..|steps| - 1];
      Rises(prefix, setting, id) + One(Escalates(Run(prefix, setting).incidents, Run(steps, setting).incidents, id))
  }

  /** Every step about the slot is free to announce. */
  predicate NeverQuiet(steps: seq<Step>, slot: Slot) {
    forall s :: s in steps && !Clerical(s) && SlotOf(s) == slot ==> Loud(s)
  }

  /** The step is an administrator's change of the check the slot is about. */
  predicate Silences(step: Step, slot: Slot) {
    step.Administrative?
    && (slot == TlsSlot(step.targetId, step.checkId)
        || (step.alsoCheck && slot == CheckSlot(step.targetId, step.checkId)))
  }

  /** A row that changes, or is resolved, does so in a step of its own slot or by an administrator's hand. */
  lemma OwnStep(prefix: seq<Step>, step: Step, setting: int, id: nat, slot: Slot)
    requires id < |Run(prefix, setting).incidents| && slot == Born(prefix, setting, id)
    ensures var before, after := Run(prefix, setting).incidents, Next(Run(prefix, setting), step, setting).incidents;
            && id < |after|
            && (Escalates(before, after, id) ==> !Clerical(step) && SlotOf(step) == slot)
            && (before[id].status.Open? && after[id].status.Resolved? ==>
                  (!Clerical(step) && SlotOf(step) == slot) || Silences(step, slot))
  {
    var w := Run(prefix, setting);
    StepTouches(w, step, setting, id);
    OpenForBirth(prefix, setting, id);
    if !Clerical(step) && Next(w, step, setting).incidents[id] != w.incidents[id] {
      SameSlot(w.incidents[id], slot, SlotOf(step));
    }
    if step.Administrative? && w.incidents[id].status.Open? && Next(w, step, setting).incidents[id].status.Resolved? {
      if OpenFor(w.incidents[id], TlsSlot(step.targetId, step.checkId)) {
        SameSlot(w.incidents[id], slot, TlsSlot(step.targetId, step.checkId));
      } else {
        SameSlot(w.incidents[id], slot, CheckSlot(step.targetId, step.checkId));
      }
    }
  }

  lemma {:induction false} LoudSourceStamps(steps: seq<Step>, setting: int, id: nat)
    requires id < |Run(steps, setting).incidents|
    requires NeverQuiet(steps, Born(steps, setting, id))
    ensures BornLoud(steps, setting, id) && LoudRises(steps, setting, id) == Rises(steps, setting, id)
    ensures (forall s :: s in steps ==> !Silences(s, Born(steps, setting, id))) ==>
              (Run(steps, setting).incidents[id].status.Resolved? ==> ClosedLoud(steps, setting, id))
  {
    var prefix, step := steps[..|steps| - 1], steps[|steps| - 1];
    var w := Run(prefix, setting);
    hide Next, Loud, SlotOf, Clerical, Silences;
    assert step in steps && forall s :: s in prefix ==> s in steps;
    if id < |w.incidents| {
      LoudSourceStamps(prefix, setting, id);
      OwnStep(prefix, step, setting, id, Born(prefix, setting, id));
      StepMoves(w, step, setting);
      StepTouches(w, step, setting, id);
      StaysResolved(w, step, setting, id);
    } else {
      NoRisesBefore(prefix, setting, id);
    }
  }

  lemma StaysResolved(w: World, step: Step, setting: int, id: nat)
    requires id < |w.incidents|
    ensures id < |Next(w, step, setting).incidents|
    ensures Next(w, step, setting).incidents[id].status.Resolved? && !w.incidents[id].status.Open? ==>
              w.incidents[id].status.Resolved?
  {
    StepTouches(w, step, setting, id);
  }

  lemma {:induction false} NoRisesBefore(steps: seq<Step>, setting: int, id: nat)
    requires |Run(steps, setting).incidents| <= id
    ensures LoudRises(steps, setting, id) == 0 && Rises(steps, setting, id) == 0
  {
    if steps != [] {
      var prefix := steps[..|steps| - 1];
      StepMoves(Run(prefix, setting), steps[|steps| - 1], setting);
      hide Next;
      NoRisesBefore(prefix, setting, id);
    }
  }

  /**
   * A source none of whose own steps is quiet, whatever is suppressed, reset, disabled or deleted
   * elsewhere: each of its incidents announces its opening and every rise to critical, and exactly one
   * recovery once it is resolved, unless an administrator's change of its own check resolved it.
   */
  lemma LoudSourceAnnouncesAll(steps: seq<Step>, setting: int, id: nat)
    requires id < |Run(steps, setting).incidents|
    requires NeverQuiet(steps, Born(steps, setting, id))
    ensures var w := Run(steps, setting);
            var row := w.incidents[id];
            && Count(w.log, Event(id, Opened)) == 1 + Rises(steps, setting, id)
            && (row.status.Open? ==> Count(w.log, Event(id, Recovered)) == 0)
            && (row.status.Resolved? && (forall s :: s in steps ==> !Silences(s, Born(steps, setting, id))) ==>
                  Count(w.log, Event(id, Recovered)) == 1)
  {
    hide Run, LoudRises, Rises, BornLoud, ClosedLoud, Count, Born, NeverQuiet, Silences;
    RunKeepsLedger(steps, setting, id);
    LoudSourceStamps(steps, setting, id);
    StampsTell(steps, setting, id);
  }

  /** With nothing suppressed anywhere, that is every incident of the run. */
  lemma UnsuppressedRunAnnouncesAll(steps: seq<Step>, setting: int, id: nat)
    requires forall s :: s in steps ==> Loud(s) || Clerical(s)
    requires id < |Run(steps, setting).incidents|
    ensures var w := Run(steps, setting);
            && Count(w.log, Event(id, Opened)) == 1 + Rises(steps, setting, id)
            && ((forall s :: s in steps ==> !Clerical(s)) ==>
                  Count(w.log, Event(id, Recovered)) == One(w.incidents[id].status.Resolved?))
  {
    hide Run, Count, Rises, Born;
    LoudSourceAnnouncesAll(steps, setting, id);
    if forall s :: s in steps ==> !Clerical(s) {
      NothingErased(steps, setting, id);
    }
  }

  lemma {:induction false} NothingErased(steps: seq<Step>, setting: int, id: nat)
    requires (forall s :: s in steps ==> !Clerical(s)) && id < |Run(steps, setting).incidents|
    ensures !Run(steps, setting).incidents[id].status.Erased?
  {
    var prefix, step := steps[..|steps| - 1], steps[|steps| - 1];
    assert step in steps && forall s :: s in prefix ==> s in steps;
    StepMoves(Run(prefix, setting), step, setting);
    if id < |Run(prefix, setting).incidents| {
      NothingErased(prefix, setting, id);
      NotErasedBy(Run(prefix, setting), step, setting, id);
    }
  }

  lemma NotErasedBy(w: World, step: Step, setting: int, id: nat)
    requires id < |w.incidents| && !Clerical(step) && !w.incidents[id].status.Erased?
    ensures id < |Next(w, step, setting).incidents| && !Next(w, step, setting).incidents[id].status.Erased?
  {
    hide Effect;
    StepShapes(w, step, setting);
  }

  // ---------------------------------------------------------------- opened while suppressed

  lemma StampStays(w: World, step: Step, setting: int, id: nat)
    requires AllStamped(w.incidents)
    requires id < |w.incidents| && (w.incidents[id].kind.Snmp? || w.incidents[id].kind.CheckTls?)
    ensures var after := Next(w, step, setting).incidents;
            && id < |after| && after[id].kind == w.incidents[id].kind
            && after[id].openAttempted == w.incidents[id].openAttempted
  {
    if !Clerical(step) {
      StepIsHonest(w, step, setting);
      ChangeKeepsStamp(w.incidents, Effect(w, step, setting), Loud(step), id);
    }
  }

  lemma ChangeKeepsStamp(rows: seq<Incident>, change: Change, loud: bool, id: nat)
    requires HonestChange(rows, change, loud)
    requires id < |rows| && (rows[id].kind.Snmp? || rows[id].kind.CheckTls?)
    ensures id < |change.rows| && change.rows[id].kind == rows[id].kind
    ensures change.rows[id].openAttempted == rows[id].openAttempted
  {
  }

  lemma {:induction false} StampsStay(steps: seq<Step>, more: seq<Step>, setting: int, id: nat)
    requires id < |Run(steps, setting).incidents|
    requires Run(steps, setting).incidents[id].kind.Snmp? || Run(steps, setting).incidents[id].kind.CheckTls?
    ensures var before, after := Run(steps, setting).incidents, Run(steps + more, setting).incidents;
            id < |after| && after[id].kind == before[id].kind && after[id].openAttempted == before[id].openAttempted
  {
    hide Next;
    if more == [] {
      assert steps + more == steps;
    } else {
      var last := |more| - 1;
      assert (steps + more)[..|steps + more| - 1] == steps + more[..last];
      StampsStay(steps, more[..last], setting, id);
      RunKeepsLedger(steps + more[..last], setting, id);
      StampStays(Run(steps + more[..last], setting), more[last], setting, id);
    }
  }

  /**
   * The opening stamp of an SNMP or certificate incident is decided when it is created: however a run
   * goes on, its recovery is announced exactly when the stamp was set and a free step resolves it.  One
   * opened while suppressed can still announce an escalation, but never its recovery.
   */
  lemma RecoveryDecidedAtOpening(steps: seq<Step>, more: seq<Step>, setting: int, id: nat)
    requires id < |Run(steps, setting).incidents| && Read(Run(steps, setting).incidents[id].kind)
    ensures id < |Run(steps + more, setting).incidents|
    ensures Event(id, Recovered) in Run(steps + more, setting).log
            <==> Run(steps, setting).incidents[id].openAttempted.Some? && ClosedLoud(steps + more, setting, id)
  {
    hide Run, ClosedLoud, BornLoud, Count, LoudRises;
    StampsStay(steps, more, setting, id);
    AnnouncedExactly(steps + more, setting, id);
    CountPositive(Run(steps + more, setting).log, Event(id, Recovered));
  }

  /** Such a run: opened while suppressed, escalated and resolved while not. */
  lemma EscalatedWithoutRecovery()
    ensures var w := Run([Source(1, "threshold:1", Some(Warning), true, true, 10, 10),
                          Source(1, "threshold:1", Some(Critical), true, false, 20, 20),
                          Source(1, "threshold:1", None, true, false, 30, 30)], 2);
            && |w.incidents| == 1 && w.incidents[0].status.Resolved?
            && w.log == [Event(0, Opened)]
  {
    var s0 := Source(1, "threshold:1", Some(Warning), true, true, 10, 10);
    var s1 := Source(1, "threshold:1", Some(Critical), true, false, 20, 20);
    var s2 := Source(1, "threshold:1", None, true, false, 30, 30);
    var slot := SnmpSlot(1, "threshold:1");
    assert [s0, s1, s2][..2] == [s0, s1] && [s0, s1][..1] == [s0] && [s0][..0] == [];
    var w1 := Next(World([], [], []), s0, 2);
    assert w1 == Run([s0], 2);
    assert w1 == World([], [NewIncident(slot, Some(Warning), 1, 10)], []);
    var w2 := Next(w1, s1, 2);
    assert |w2.incidents| == 1 && OpenFor(w2.incidents[0], slot) && w2.incidents[0].openAttempted.None?;
    assert w2.log == [Event(0, Opened)];
    var w3 := Next(w2, s2, 2);
    assert w3.log == [Event(0, Opened)];
  }
}
