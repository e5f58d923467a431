/**
 * Whole runs of the incident service: every kind of source shares one table and one event log.
 *
 * Suppression is an input of every step, so a run may toggle it at will.
 */
module IncidentRuns {
  import opened Basics
  import opened Incidents

  datatype Step =
    | Primary(targetId: nat, status: CheckStatus, suppressed: bool, at: Time, now: Time)
    | Secondary(targetId: nat, checkId: nat, status: CheckStatus, confirmed: bool, suppressed: bool, at: Time,
                now: Time)
    | Certificate(targetId: nat, checkId: nat, health: TlsHealth, suppressed: bool, at: Time, now: Time)
    | Source(targetId: nat, key: string, severity: Option<Severity>, notify: bool, suppressed: bool, at: Time,
             now: Time)
    | Administrative(targetId: nat, checkId: nat, alsoCheck: bool, detach: bool, now: Time)
    | Erase(incidentId: nat)
    | ResetMarker(targetId: nat)

  /**
   * What an administrator does by hand: change a check, delete an incident, or switch a target or
   * its endpoint, which resets only its unstable-link marker.  None of it announces anything.
   */
  predicate Clerical(step: Step) {
    step.Administrative? || step.Erase? || step.ResetMarker?
  }

  datatype World = World(results: seq<CheckResult>, incidents: seq<Incident>, log: seq<Event>)

  function Stored(w: World, step: Step): seq<CheckResult> {
    if step.Primary? then w.results + [CheckResult(step.targetId, step.status, step.at)] else w.results
  }

  /** What one step does to the incident table. */
  function Effect(w: World, step: Step, setting: int): Change {
    match step
    case Primary(target, status, suppressed, at, now) =>
      AfterResult(w.incidents, AvailabilitySlot(target), status,
                  ConfirmedIn(StatusesOf(Stored(w, step), target), setting), setting, suppressed, at, now)
    case Secondary(target, check, status, confirmed, suppressed, at, now) =>
      AfterResult(w.incidents, CheckSlot(target, check), status, confirmed, setting, suppressed, at, now)
    case Certificate(target, check, health, suppressed, at, now) =>
      AfterTls(w.incidents, target, check, health, suppressed, at, now)
    case Source(target, key, severity, notify, suppressed, at, now) =>
      AfterSource(w.incidents, target, key, severity, notify, suppressed, at, now)
    case Administrative(target, check, alsoCheck, detach, now) =>
      Change(AfterSilentResolve(w.incidents, target, check, alsoCheck, detach, now), [])
    case Erase(id) => Change(AfterErase(w.incidents, id), [])
    case ResetMarker(_) => Change(w.incidents, [])
  }

  function Next(w: World, step: Step, setting: int): World {
    var change := Effect(w, step, setting);
    World(Stored(w, step), change.rows, w.log + change.events)
  }

  function Run(steps: seq<Step>, setting: int): World {
    if steps == [] then World([], [], [])
    else Next(Run(steps[..|steps| - 1], setting), steps[|steps| - 1], setting)
  }

  // ---------------------------------------------------------------- at most one open incident

  ghost predicate UniqueOpen(rows: seq<Incident>) {
    forall slot, i, j :: 0 <= i < j < |rows| && OpenFor(rows[i], slot) ==> !OpenFor(rows[j], slot)
  }

  /** An effect leaves the table alone, updates one open row, or appends one row for a slot nobody had open. */
  ghost predicate OneRow(rows: seq<Incident>, change: Change, slot: Slot) {
    var i := FindOpen(rows, slot);
    || change == Change(rows, [])
    || (i >= 0 && exists a: Announced :: change == Put(rows, i, a) && forall s :: OpenFor(a.row, s) ==> s == slot)
    || (i < 0 && exists a: Announced :: change == Put(rows, |rows|, a) && forall s :: OpenFor(a.row, s) ==> s == slot)
  }

  lemma UniqueAfterOneRow(rows: seq<Incident>, change: Change, slot: Slot)
    requires UniqueOpen(rows) && OneRow(rows, change, slot)
    ensures UniqueOpen(change.rows)
  {
  }

  function SlotOf(step: Step): Slot
    requires !Clerical(step)
  {
    match step
    case Primary(target, _, _, _, _) => AvailabilitySlot(target)
    case Secondary(target, check, _, _, _, _, _) => CheckSlot(target, check)
    case Certificate(target, check, _, _, _, _) => TlsSlot(target, check)
    case Source(target, key, _, _, _, _, _) => SnmpSlot(target, key)
  }

  lemma FailureOneRow(rows: seq<Incident>, slot: Slot, severity: Option<Severity>, confirmed: bool,
                      setting: int, suppressed: bool, at: Time, now: Time)
    ensures OneRow(rows, AfterFailure(rows, slot, severity, confirmed, setting, suppressed, at, now), slot)
  {
  }

  lemma RecoveryOneRow(rows: seq<Incident>, slot: Slot, notify: bool, suppressed: bool, at: Time, now: Time)
    ensures OneRow(rows, AfterRecovery(rows, slot, notify, suppressed, at, now), slot)
  {
  }

  lemma ReadingOneRow(rows: seq<Incident>, slot: Slot, severity: Severity, notify: bool, suppressed: bool, at: Time,
                      now: Time)
    ensures OneRow(rows, AfterReading(rows, slot, severity, notify, suppressed, at, now), slot)
  {
  }

  lemma StepOneRow(w: World, step: Step, setting: int)
    requires !Clerical(step)
    ensures OneRow(w.incidents, Effect(w, step, setting), SlotOf(step))
  {
    assert OneRow(w.incidents, Change(w.incidents, []), SlotOf(step));
    hide OneRow, AfterFailure, AfterRecovery, AfterReading;
    var rows, slot := w.incidents, SlotOf(step);
    match step
    case Primary(target, _, suppressed, at, now) =>
      FailureOneRow(rows, slot, None, ConfirmedIn(StatusesOf(Stored(w, step), target), setting), setting, suppressed,
                    at, now);
      RecoveryOneRow(rows, slot, true, suppressed, at, now);
    case Secondary(_, _, _, confirmed, suppressed, at, now) =>
      FailureOneRow(rows, slot, Some(Critical), confirmed, setting, suppressed, at, now);
      RecoveryOneRow(rows, slot, true, suppressed, at, now);
    case Certificate(_, _, _, suppressed, at, now) =>
      RecoveryOneRow(rows, slot, true, suppressed, at, now);
      ReadingOneRow(rows, slot, Warning, true, suppressed, at, now);
      ReadingOneRow(rows, slot, Critical, true, suppressed, at, now);
    case Source(_, _, severity, notify, suppressed, at, now) =>
      RecoveryOneRow(rows, slot, notify, suppressed, at, now);
      if severity.Some? {
        ReadingOneRow(rows, slot, severity.value, notify, suppressed, at, now);
      }
  }

  /** In every reachable table, each slot has at most one open incident. */
  lemma {:induction false} AtMostOneOpen(steps: seq<Step>, setting: int)
    ensures UniqueOpen(Run(steps, setting).incidents)
  {
    if steps != [] {
      var before, step := Run(steps[..|steps| - 1], setting), steps[|steps| - 1];
      AtMostOneOpen(steps[..|steps| - 1], setting);
      if !Clerical(step) {
        StepOneRow(before, step, setting);
        UniqueAfterOneRow(before.incidents, Effect(before, step, setting), SlotOf(step));
      }
    }
  }

  // ---------------------------------------------------------------- the event protocol

  function Count(log: seq<Event>, event: Event): nat {
    if log == [] then 0 else Count(log[..|log| - 1], event) + if log[|log| - 1] == event then 1 else 0
  }

  lemma CountAppend(log: seq<Event>, events: seq<Event>, event: Event)
    requires |events| <= 1
    ensures Count(log + events, event) == Count(log, event) + if event in events then 1 else 0
  {
    if events == [] {
      assert log + events == log;
    } else {
      assert (log + events)[..|log|] == log;
    }
  }

  /** A warning incident that is critical one step later. */
  predicate Escalates(before: seq<Incident>, after: seq<Incident>, id: nat) {
    && id < |before| && id < |after|
    && before[id].severity == Some(Warning) && after[id].severity == Some(Critical)
  }

  /** Whether a step may announce anything at all. */
  predicate Loud(step: Step) {
    match step
    case Source(_, _, _, notify, suppressed, _, _) => notify && !suppressed
    case Administrative(_, _, _, _, _) => false
    case Erase(_) => false
    case ResetMarker(_) => false
    case _ => !step.suppressed
  }

  /** How many times incident `id` rose from warning to critical during the run, in steps free to announce it. */
  function LoudRises(steps: seq<Step>, setting: int, id: nat): nat {
    if steps == [] then 0
    else
      var prefix, step := steps[..|steps| - 1], steps[|steps| - 1];
      LoudRises(prefix, setting, id)
      + if Loud(step) && Escalates(Run(prefix, setting).incidents, Run(steps, setting).incidents, id) then 1 else 0
  }

  /** What every row keeps about its stamps and severity. */
  predicate Stamped(row: Incident) {
    && (row.recoveryAttempted.Some? ==> row.openAttempted.Some? && !row.status.Open?)
    && (row.kind.Availability? ==> row.severity.None?)
    && (row.kind.Check? ==> row.severity == Some(Critical))
    && (row.kind.Snmp? || row.kind.CheckTls? ==> row.severity.Some?)
  }

  predicate AllStamped(rows: seq<Incident>) {
    forall i :: 0 <= i < |rows| ==> Stamped(rows[i])
  }

  function One(b: bool): nat {
    if b then 1 else 0
  }

  /** The log agrees with the attempt stamps of row `id`, and says nothing of rows that do not exist. */
  predicate Ledger(rows: seq<Incident>, log: seq<Event>, id: nat, rises: nat) {
    && Count(log, Event(id, Opened)) == rises + One(id < |rows| && rows[id].openAttempted.Some?)
    && Count(log, Event(id, Recovered)) == One(id < |rows| && rows[id].recoveryAttempted.Some?)
  }

  /** The attempt stamps of row `i` move together with the events announced about it. */
  predicate Honest(rows: seq<Incident>, i: nat, a: Announced, rise: bool)
    requires i <= |rows|
  {
    && |a.events| <= 1
    && (forall e :: e in a.events ==> e.incidentId == i)
    && One(i < |rows| && rows[i].openAttempted.Some?) + One(Event(i, Opened) in a.events)
       == One(a.row.openAttempted.Some?) + One(rise)
    && One(i < |rows| && rows[i].recoveryAttempted.Some?) + One(Event(i, Recovered) in a.events)
       == One(a.row.recoveryAttempted.Some?)
    && Stamped(a.row)
    && (i < |rows| && (rows[i].kind.Snmp? || rows[i].kind.CheckTls?) ==> a.row.openAttempted == rows[i].openAttempted)
    && (rise ==> Escalates(rows, Put(rows, i, a).rows, i))
  }

  /** A change of one row that is honest about it; `loud` tells whether an escalation would be announced. */
  ghost predicate HonestChange(rows: seq<Incident>, change: Change, loud: bool) {
    || change == Change(rows, [])
    || exists i: nat, a: Announced ::
         && i <= |rows| && change == Put(rows, i, a)
         && (i < |rows| ==> rows[i].status.Open? && a.row.kind == rows[i].kind)
         && Honest(rows, i, a, loud && Escalates(rows, change.rows, i))
  }

  lemma HonestChangeKeepsLedger(rows: seq<Incident>, log: seq<Event>, change: Change, loud: bool, id: nat, rises: nat)
    requires HonestChange(rows, change, loud)
    requires AllStamped(rows) && Ledger(rows, log, id, rises)
    ensures AllStamped(change.rows)
    ensures Ledger(change.rows, log + change.events, id, rises + One(loud && Escalates(rows, change.rows, id)))
  {
    if change == Change(rows, []) {
      assert log + [] == log;
    } else {
      CountAppend(log, change.events, Event(id, Opened));
      CountAppend(log, change.events, Event(id, Recovered));
    }
  }

  lemma FailureIsHonest(rows: seq<Incident>, slot: Slot, severity: Option<Severity>, confirmed: bool,
                        setting: int, suppressed: bool, at: Time, now: Time)
    requires AllStamped(rows)
    requires (slot.AvailabilitySlot? && severity.None?) || (slot.CheckSlot? && severity == Some(Critical))
    ensures HonestChange(rows, AfterFailure(rows, slot, severity, confirmed, setting, suppressed, at, now), !suppressed)
  {
  }

  lemma RecoveryIsHonest(rows: seq<Incident>, slot: Slot, notify: bool, suppressed: bool, at: Time, now: Time,
                         loud: bool)
    requires AllStamped(rows)
    ensures HonestChange(rows, AfterRecovery(rows, slot, notify, suppressed, at, now), loud)
  {
  }

  lemma ReadingIsHonest(rows: seq<Incident>, slot: Slot, severity: Severity, notify: bool, suppressed: bool, at: Time,
                        now: Time)
    requires AllStamped(rows) && (slot.SnmpSlot? || slot.TlsSlot?)
    ensures HonestChange(rows, AfterReading(rows, slot, severity, notify, suppressed, at, now), notify && !suppressed)
  {
  }

  lemma StepIsHonest(w: World, step: Step, setting: int)
    requires AllStamped(w.incidents) && !Clerical(step)
    ensures HonestChange(w.incidents, Effect(w, step, setting), Loud(step))
  {
    match step
    case Primary(target, status, suppressed, at, now) =>
      FailureIsHonest(w.incidents, AvailabilitySlot(target), None,
                      ConfirmedIn(StatusesOf(Stored(w, step), target), setting), setting, suppressed, at, now);
      RecoveryIsHonest(w.incidents, AvailabilitySlot(target), true, suppressed, at, now, Loud(step));
    case Secondary(target, check, status, confirmed, suppressed, at, now) =>
      FailureIsHonest(w.incidents, CheckSlot(target, check), Some(Critical), confirmed, setting, suppressed, at, now);
      RecoveryIsHonest(w.incidents, CheckSlot(target, check), true, suppressed, at, now, Loud(step));
    case Certificate(target, check, health, suppressed, at, now) =>
      RecoveryIsHonest(w.incidents, TlsSlot(target, check), true, suppressed, at, now, Loud(step));
      ReadingIsHonest(w.incidents, TlsSlot(target, check), Warning, true, suppressed, at, now);
      ReadingIsHonest(w.incidents, TlsSlot(target, check), Critical, true, suppressed, at, now);
    case Source(target, key, severity, notify, suppressed, at, now) =>
      RecoveryIsHonest(w.incidents, SnmpSlot(target, key), notify, suppressed, at, now, Loud(step));
      if severity.Some? {
        ReadingIsHonest(w.incidents, SnmpSlot(target, key), severity.value, notify, suppressed, at, now);
      }
  }

  lemma StepKeepsLedger(w: World, step: Step, setting: int, id: nat, rises: nat)
    requires AllStamped(w.incidents) && Ledger(w.incidents, w.log, id, rises)
    ensures var after := Next(w, step, setting);
            && AllStamped(after.incidents)
            && Ledger(after.incidents, after.log, id,
                      rises + One(Loud(step) && Escalates(w.incidents, after.incidents, id)))
  {
    if Clerical(step) {
      assert w.log + [] == w.log;
    } else {
      hide Effect, Ledger, AllStamped, HonestChange, Escalates, Loud;
      StepIsHonest(w, step, setting);
      HonestChangeKeepsLedger(w.incidents, w.log, Effect(w, step, setting), Loud(step), id, rises);
    }
  }

  lemma {:induction false} RunKeepsLedger(steps: seq<Step>, setting: int, id: nat)
    ensures var w := Run(steps, setting);
            AllStamped(w.incidents) && Ledger(w.incidents, w.log, id, LoudRises(steps, setting, id))
  {
    if steps != [] {
      var prefix := steps[..|steps| - 1];
      RunKeepsLedger(prefix, setting, id);
      StepKeepsLedger(Run(prefix, setting), steps[|steps| - 1], setting, id, LoudRises(prefix, setting, id));
    }
  }

  // ---------------------------------------------------------------- order of events

  /** RECOVERED follows its own OPENED and ends what is said about the incident. */
  predicate InOrder(log: seq<Event>) {
    forall j :: 0 <= j < |log| && log[j].kind.Recovered? ==>
      && Event(log[j].incidentId, Opened) in log[..j]
      && forall l :: j < l < |log| ==> log[l].incidentId != log[j].incidentId
  }

  lemma {:induction false} CountPositive(log: seq<Event>, event: Event)
    ensures Count(log, event) > 0 <==> event in log
  {
    if log != [] {
      CountPositive(log[..|log| - 1], event);
      assert log == log[..|log| - 1] + [log[|log| - 1]];
    }
  }

  /** What the ledgers of all rows say about the log, without the counts. */
  ghost predicate StampsAgree(rows: seq<Incident>, log: seq<Event>) {
    && AllStamped(rows)
    && (forall id: nat :: id < |rows| && rows[id].openAttempted.Some? ==> Event(id, Opened) in log)
    && (forall id: nat :: Event(id, Recovered) in log ==> id < |rows| && rows[id].recoveryAttempted.Some?)
  }

  lemma HonestChangeKeepsOrder(rows: seq<Incident>, log: seq<Event>, change: Change, loud: bool)
    requires HonestChange(rows, change, loud)
    requires StampsAgree(rows, log) && InOrder(log)
    ensures InOrder(log + change.events)
  {
    var longer := log + change.events;
    if change != Change(rows, []) && change.events != [] {
      var e := change.events[0];
      var i := e.incidentId;
      assert e in change.events;
      assert Event(i, Recovered) !in log;
      assert e.kind.Recovered? ==> e == Event(i, Recovered);
      assert e.kind.Recovered? ==> Event(i, Opened) in log;
      forall j | 0 <= j < |longer| && longer[j].kind.Recovered?
        ensures Event(longer[j].incidentId, Opened) in longer[..j]
        ensures forall l :: j < l < |longer| ==> longer[l].incidentId != longer[j].incidentId
      {
        if j < |log| {
          assert longer[..j] == log[..j];
          assert longer[j] == log[j] && log[j] in log && log[j] == Event(log[j].incidentId, Recovered);
        } else {
          assert longer[..j] == log;
        }
      }
    } else {
      assert longer == log;
    }
  }

  lemma {:induction false} RunStampsAgree(steps: seq<Step>, setting: int)
    ensures StampsAgree(Run(steps, setting).incidents, Run(steps, setting).log)
  {
    var w := Run(steps, setting);
    RunKeepsLedger(steps, setting, 0);
    forall id: nat
      ensures id < |w.incidents| && w.incidents[id].openAttempted.Some? ==> Event(id, Opened) in w.log
      ensures Event(id, Recovered) in w.log ==> id < |w.incidents| && w.incidents[id].recoveryAttempted.Some?
    {
      RunKeepsLedger(steps, setting, id);
      CountPositive(w.log, Event(id, Opened));
      CountPositive(w.log, Event(id, Recovered));
    }
  }

  lemma {:induction false} RunInOrder(steps: seq<Step>, setting: int)
    ensures InOrder(Run(steps, setting).log)
  {
    if steps != [] {
      var w, step := Run(steps[..|steps| - 1], setting), steps[|steps| - 1];
      RunInOrder(steps[..|steps| - 1], setting);
      RunStampsAgree(steps[..|steps| - 1], setting);
      if Clerical(step) {
        assert w.log + [] == w.log;
      } else {
        StepIsHonest(w, step, setting);
        HonestChangeKeepsOrder(w.incidents, w.log, Effect(w, step, setting), Loud(step));
      }
    }
  }

  // ---------------------------------------------------------------- what a run announces

  lemma KindsStay(w: World, step: Step, setting: int)
    requires AllStamped(w.incidents)
    ensures var after := Next(w, step, setting).incidents;
            && |w.incidents| <= |after| && AllStamped(after)
            && forall i :: 0 <= i < |w.incidents| ==> after[i].kind == w.incidents[i].kind
  {
    if !Clerical(step) {
      hide Effect;
      StepIsHonest(w, step, setting);
    }
  }

  /** A source that never warned has nothing to escalate from. */
  lemma {:induction false} NoRises(steps: seq<Step>, setting: int, id: nat)
    ensures |Run(steps, setting).incidents| <= id ==> LoudRises(steps, setting, id) == 0
    ensures id < |Run(steps, setting).incidents| && (Run(steps, setting).incidents[id].kind.Availability?
                                                     || Run(steps, setting).incidents[id].kind.Check?)
            ==> LoudRises(steps, setting, id) == 0
  {
    if steps != [] {
      var prefix, step := steps[..|steps| - 1], steps[|steps| - 1];
      NoRises(prefix, setting, id);
      RunKeepsLedger(prefix, setting, id);
      KindsStay(Run(prefix, setting), step, setting);
      hide Next;
    }
  }

  /**
   * However suppression toggles: RECOVERED at most once, after the incident's own OPENED and as
   * its last event; an availability or service-check incident opens at most once.
   */
  lemma EventProtocol(steps: seq<Step>, setting: int, id: nat)
    ensures var w := Run(steps, setting);
            && InOrder(w.log)
            && Count(w.log, Event(id, Recovered)) <= 1
            && (Count(w.log, Event(id, Recovered)) == 1 ==> id < |w.incidents| && !w.incidents[id].status.Open?)
            && (id < |w.incidents| && (w.incidents[id].kind.Availability? || w.incidents[id].kind.Check?) ==>
                  Count(w.log, Event(id, Opened)) <= 1)
            && (id >= |w.incidents| ==> Event(id, Opened) !in w.log && Event(id, Recovered) !in w.log)
  {
    RunInOrder(steps, setting);
    RunKeepsLedger(steps, setting, id);
    NoRises(steps, setting, id);
    CountPositive(Run(steps, setting).log, Event(id, Opened));
    CountPositive(Run(steps, setting).log, Event(id, Recovered));
  }

  // ---------------------------------------------------------------- sources do not interfere

  /** Exactly the same rows are open for the slot, and they are the same. */
  ghost predicate SameOpen(before: seq<Incident>, after: seq<Incident>, slot: Slot) {
    && (forall j :: 0 <= j < |before| && OpenFor(before[j], slot) ==> j < |after| && after[j] == before[j])
    && (forall j :: 0 <= j < |after| && OpenFor(after[j], slot) ==> j < |before| && after[j] == before[j])
  }

  lemma SameOpenTransitive(a: seq<Incident>, b: seq<Incident>, c: seq<Incident>, slot: Slot)
    requires SameOpen(a, b, slot) && SameOpen(b, c, slot)
    ensures SameOpen(a, c, slot)
  {
  }

  lemma SameOpenSameLookup(before: seq<Incident>, after: seq<Incident>, slot: Slot)
    requires SameOpen(before, after, slot)
    ensures FindOpen(after, slot) == FindOpen(before, slot)
    ensures FindOpen(before, slot) >= 0 ==> after[FindOpen(before, slot)] == before[FindOpen(before, slot)]
  {
    var f, g := FindOpen(before, slot), FindOpen(after, slot);
    assert f >= 0 ==> f <= g;
    assert g >= 0 ==> g <= f;
  }

  /** A step touches no row but the open one of its own slot, and nothing is opened or resolved for another. */
  lemma OtherSlotsUntouched(rows: seq<Incident>, change: Change, slot: Slot, other: Slot)
    requires OneRow(rows, change, slot) && other != slot
    ensures |rows| <= |change.rows| <= |rows| + 1
    ensures forall j :: 0 <= j < |rows| && j != FindOpen(rows, slot) ==> change.rows[j] == rows[j]
    ensures SameOpen(rows, change.rows, other)
  {
    var i := FindOpen(rows, slot);
    assert i >= 0 ==> !OpenFor(rows[i], other);
  }

  /** Deleting an incident opens nothing, and touches the lookup of a slot only by deleting the incident it finds. */
  lemma EraseKeepsOthers(rows: seq<Incident>, id: nat, slot: Slot)
    requires id < |rows| ==> !OpenFor(rows[id], slot)
    ensures SameOpen(rows, AfterErase(rows, id), slot)
  {
  }

  lemma EraseKeepsUnique(rows: seq<Incident>, id: nat)
    requires UniqueOpen(rows)
    ensures UniqueOpen(AfterErase(rows, id))
    ensures forall slot :: id < |rows| && OpenFor(rows[id], slot) ==> FindOpen(AfterErase(rows, id), slot) < 0
  {
    assert forall j, slot :: 0 <= j < |rows| && OpenFor(AfterErase(rows, id)[j], slot) ==>
      OpenFor(rows[j], slot) && j != id;
  }

  /**
   * Row by row: a change of a check resolves what is open of its certificate and, if asked to, of the check
   * itself, detaching it if asked to, and leaves every other row as it is; nothing of the two stays open.
   */
  lemma SilentResolveResolves(rows: seq<Incident>, targetId: nat, checkId: nat, alsoCheck: bool, detach: bool,
                              now: Time, i: nat)
    requires i < |rows|
    ensures var row, after := rows[i], AfterSilentResolve(rows, targetId, checkId, alsoCheck, detach, now);
            && |after| == |rows|
            && after[i] ==
               (if row.status.Open? && row.targetId == targetId && row.checkId == Some(checkId)
                   && (row.kind.CheckTls? || (row.kind.Check? && alsoCheck))
                then row.(status := Resolved, resolvedAt := Some(now),
                          checkId := if detach then None else Some(checkId))
                else row)
            && FindOpen(after, TlsSlot(targetId, checkId)) < 0
            && (alsoCheck ==> FindOpen(after, CheckSlot(targetId, checkId)) < 0)
  {
    var after := AfterSilentResolve(rows, targetId, checkId, alsoCheck, detach, now);
    assert forall j :: 0 <= j < |after| ==> !OpenFor(after[j], TlsSlot(targetId, checkId));
    assert alsoCheck ==> forall j :: 0 <= j < |after| ==> !OpenFor(after[j], CheckSlot(targetId, checkId));
  }

  /** An administrator's change of a check touches neither availability nor SNMP incidents. */
  lemma SilentResolveKeepsOthers(rows: seq<Incident>, targetId: nat, checkId: nat, alsoCheck: bool, detach: bool,
                                 now: Time, slot: Slot)
    requires slot.AvailabilitySlot? || slot.SnmpSlot?
    ensures SameOpen(rows, AfterSilentResolve(rows, targetId, checkId, alsoCheck, detach, now), slot)
    ensures UniqueOpen(rows) ==> UniqueOpen(AfterSilentResolve(rows, targetId, checkId, alsoCheck, detach, now))
  {
    var after := AfterSilentResolve(rows, targetId, checkId, alsoCheck, detach, now);
    assert forall j, s :: 0 <= j < |after| && OpenFor(after[j], s) ==> OpenFor(rows[j], s);
  }

  // ---------------------------------------------------------------- what a reading leaves open

  lemma ReadingOpens(rows: seq<Incident>, slot: Slot, severity: Severity, notify: bool, suppressed: bool, at: Time,
                     now: Time)
    ensures var after := AfterReading(rows, slot, severity, notify, suppressed, at, now).rows;
            var i := FindOpen(after, slot);
            i >= 0 && after[i].severity == Some(severity)
  {
    var i := FindOpen(rows, slot);
    var after := AfterReading(rows, slot, severity, notify, suppressed, at, now).rows;
    assert OpenFor(after[if i >= 0 then i else |rows|], slot);
    assert forall j :: 0 <= j < |after| && j != (if i >= 0 then i else |rows|) ==> after[j] == rows[j];
  }

  lemma RecoveryCloses(rows: seq<Incident>, slot: Slot, notify: bool, suppressed: bool, at: Time, now: Time)
    requires UniqueOpen(rows)
    ensures FindOpen(AfterRecovery(rows, slot, notify, suppressed, at, now).rows, slot) < 0
  {
    var i := FindOpen(rows, slot);
    assert i >= 0 ==> forall l :: 0 <= l < i ==> !OpenFor(rows[l], slot);
  }

  /** Whatever came before, a certificate reading leaves open what its health says, at that severity. */
  lemma CertificateDecides(steps: seq<Step>, setting: int, target: nat, check: nat, health: TlsHealth, suppressed: bool,
                           at: Time, now: Time)
    ensures var rows :=
              Next(Run(steps, setting), Certificate(target, check, health, suppressed, at, now), setting).incidents;
            var i := FindOpen(rows, TlsSlot(target, check));
            && (health == TlsOk <==> i < 0)
            && (health == TlsWarning <==> i >= 0 && rows[i].severity == Some(Warning))
            && (health == TlsCritical <==> i >= 0 && rows[i].severity == Some(Critical))
  {
    hide Run, FindOpen, AfterReading, AfterRecovery, UniqueOpen;
    var rows, slot := Run(steps, setting).incidents, TlsSlot(target, check);
    AtMostOneOpen(steps, setting);
    match health
    case TlsOk => RecoveryCloses(rows, slot, true, suppressed, at, now);
    case TlsWarning => ReadingOpens(rows, slot, Warning, true, suppressed, at, now);
    case TlsCritical => ReadingOpens(rows, slot, Critical, true, suppressed, at, now);
  }

  /** And so does a reading of an SNMP source, announced or not. */
  lemma SourceDecides(steps: seq<Step>, setting: int, target: nat, key: string, severity: Option<Severity>,
                      notify: bool, suppressed: bool, at: Time, now: Time)
    ensures var rows :=
              Next(Run(steps, setting), Source(target, key, severity, notify, suppressed, at, now), setting).incidents;
            var i := FindOpen(rows, SnmpSlot(target, key));
            && (severity.None? <==> i < 0)
            && (i >= 0 ==> rows[i].severity == severity)
  {
    hide Run, FindOpen, AfterReading, AfterRecovery, UniqueOpen;
    var rows, slot := Run(steps, setting).incidents, SnmpSlot(target, key);
    AtMostOneOpen(steps, setting);
    if severity.None? {
      RecoveryCloses(rows, slot, notify, suppressed, at, now);
    } else {
      ReadingOpens(rows, slot, severity.value, notify, suppressed, at, now);
    }
  }

  // ---------------------------------------------------------------- what a step writes

  /** A row that a step adds: open from its observation on, with nothing of it resolved. */
  predicate Begun(row: Incident, targetId: nat, count: int, at: Time, now: Time) {
    && row.status.Open? && row.targetId == targetId && row.failureCount == count
    && row.openedAt == at && row.lastFailureAt == at && row.resolvedAt.None?
    && (row.openAttempted.Some? ==> row.openAttempted == Some(now)) && row.recoveryAttempted.None?
  }

  /** One more failure of an open row, seen at `at`; only the severity may change besides, and the stamp be set. */
  predicate Counted(before: Incident, row: Incident, at: Time, now: Time) {
    && before.status.Open?
    && row == before.(failureCount := before.failureCount + 1, lastFailureAt := at, severity := row.severity,
                      openAttempted := row.openAttempted)
    && (row.openAttempted != before.openAttempted ==> before.openAttempted.None? && row.openAttempted == Some(now))
  }

  /** An open row resolved as of `at`. */
  predicate Closed(before: Incident, row: Incident, at: Time, now: Time) {
    && before.status.Open?
    && row == before.(status := Resolved, resolvedAt := Some(at), recoveryAttempted := row.recoveryAttempted)
    && (row.recoveryAttempted != before.recoveryAttempted ==> row.recoveryAttempted == Some(now))
  }

  predicate Written(rows: seq<Incident>, after: seq<Incident>, targetId: nat, count: int, at: Time, now: Time) {
    && |rows| <= |after|
    && (forall i :: |rows| <= i < |after| ==> Begun(after[i], targetId, count, at, now))
    && (forall i :: 0 <= i < |rows| ==>
          after[i] == rows[i] || Counted(rows[i], after[i], at, now) || Closed(rows[i], after[i], at, now))
  }

  lemma FailureWrites(rows: seq<Incident>, slot: Slot, severity: Option<Severity>, confirmed: bool, setting: int,
                      suppressed: bool, at: Time, now: Time)
    ensures Written(rows, AfterFailure(rows, slot, severity, confirmed, setting, suppressed, at, now).rows,
                    slot.targetId, setting, at, now)
  {
  }

  lemma RecoveryWrites(rows: seq<Incident>, slot: Slot, notify: bool, suppressed: bool, at: Time, now: Time, count: int)
    ensures Written(rows, AfterRecovery(rows, slot, notify, suppressed, at, now).rows, slot.targetId, count, at, now)
  {
  }

  lemma ReadingWrites(rows: seq<Incident>, slot: Slot, severity: Severity, notify: bool, suppressed: bool, at: Time,
                      now: Time)
    ensures Written(rows, AfterReading(rows, slot, severity, notify, suppressed, at, now).rows, slot.targetId, 1, at,
                    now)
  {
  }

  lemma NothingWritten(rows: seq<Incident>, targetId: nat, count: int, at: Time, now: Time)
    ensures Written(rows, rows, targetId, count, at, now)
  {
  }

  /**
   * What any result or reading writes into the table: a new row begun at its own time, with the configured
   * count or 1, one more failure counted at that time, or a row closed at that time; stamps are of the
   * moment of processing, and no other field of any row changes.
   */
  lemma StepWrites(w: World, step: Step, setting: int)
    requires !Clerical(step)
    ensures Written(w.incidents, Next(w, step, setting).incidents, step.targetId,
                    if step.Primary? || step.Secondary? then setting else 1, step.at, step.now)
  {
    var rows, slot, count := w.incidents, SlotOf(step), if step.Primary? || step.Secondary? then setting else 1;
    NothingWritten(rows, step.targetId, count, step.at, step.now);
    hide Written, AfterFailure, AfterRecovery, AfterReading, ConfirmedIn, StatusesOf, Stored;
    match step
    case Primary(target, _, suppressed, at, now) =>
      FailureWrites(rows, slot, None, ConfirmedIn(StatusesOf(Stored(w, step), target), setting), setting, suppressed,
                    at, now);
      RecoveryWrites(rows, slot, true, suppressed, at, now, count);
    case Secondary(_, _, _, confirmed, suppressed, at, now) =>
      FailureWrites(rows, slot, Some(Critical), confirmed, setting, suppressed, at, now);
      RecoveryWrites(rows, slot, true, suppressed, at, now, count);
    case Certificate(_, _, _, suppressed, at, now) =>
      RecoveryWrites(rows, slot, true, suppressed, at, now, count);
      ReadingWrites(rows, slot, Warning, true, suppressed, at, now);
      ReadingWrites(rows, slot, Critical, true, suppressed, at, now);
    case Source(_, _, severity, notify, suppressed, at, now) =>
      RecoveryWrites(rows, slot, notify, suppressed, at, now, count);
      if severity.Some? {
        ReadingWrites(rows, slot, severity.value, notify, suppressed, at, now);
      }
  }
}
