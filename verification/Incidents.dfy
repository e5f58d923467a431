/**
 * The incident table and the service that opens, escalates and resolves its rows.
 *
 * A deleted row keeps its place under the status `Erased`, which no lookup matches and nothing
 * leaves, so row `i` is the incident with id `i` and "newest first" is "highest index first".  Each
 * function `After...` gives the table and the events that one call of the service leaves; the
 * methods of `IncidentService` are proved against them.
 */
module Incidents {
  import opened Basics
  import opened UnstableLinks

  datatype CheckStatus = Up | Down | Unknown
  datatype IncidentStatus = Open | Resolved | Erased
  datatype Severity = Warning | Critical
  datatype SourceKind = Availability | Snmp | Check | CheckTls
  datatype TlsHealth = TlsOk | TlsWarning | TlsCritical
  datatype EventKind = Opened | Recovered
  datatype Event = Event(incidentId: nat, kind: EventKind)

  datatype Incident = Incident(
    targetId: nat,
    kind: SourceKind,
    checkId: Option<nat>,
    sourceKey: Option<string>,
    status: IncidentStatus,
    severity: Option<Severity>,
    failureCount: int,
    openedAt: Time,
    lastFailureAt: Time,
    resolvedAt: Option<Time>,
    openAttempted: Option<Time>,
    recoveryAttempted: Option<Time>)

  datatype CheckResult = CheckResult(targetId: nat, status: CheckStatus, checkedAt: Time)
  datatype TargetCheckResult =
    TargetCheckResult(checkId: nat, configVersion: nat, status: CheckStatus, checkedAt: Time)

  // ---------------------------------------------------------------- what an incident is about

  /** What one of the four lookups of the service is keyed by. */
  datatype Slot =
    | AvailabilitySlot(targetId: nat)
    | CheckSlot(targetId: nat, checkId: nat)
    | TlsSlot(targetId: nat, checkId: nat)
    | SnmpSlot(targetId: nat, key: string)

  /** The WHERE clause of the lookup for a slot. */
  predicate OpenFor(row: Incident, slot: Slot) {
    && row.status.Open?
    && row.targetId == slot.targetId
    && match slot
       case AvailabilitySlot(_) => row.kind.Availability? && row.checkId.None?
       case CheckSlot(_, check) => row.kind.Check? && row.checkId == Some(check)
       case TlsSlot(_, check) => row.kind.CheckTls? && row.checkId == Some(check)
       case SnmpSlot(_, key) => row.kind.Snmp? && row.sourceKey == Some(key)
  }

  /** The newest open incident of a slot, or -1. */
  function FindOpen(rows: seq<Incident>, slot: Slot): (i: int)
    ensures -1 <= i < |rows|
    ensures i >= 0 ==> OpenFor(rows[i], slot)
    ensures forall j :: i < j < |rows| ==> !OpenFor(rows[j], slot)
  {
    if rows == [] then -1
    else if OpenFor(rows[|rows| - 1], slot) then |rows| - 1
    else FindOpen(rows[..|rows| - 1], slot)
  }

  function NewIncident(slot: Slot, severity: Option<Severity>, failureCount: int, at: Time): (row: Incident)
    ensures OpenFor(row, slot)
    ensures forall other :: OpenFor(row, other) ==> other == slot
  {
    var kind := match slot
      case AvailabilitySlot(_) => Availability
      case CheckSlot(_, _) => Check
      case TlsSlot(_, _) => CheckTls
      case SnmpSlot(_, _) => Snmp;
    var checkId := if slot.CheckSlot? || slot.TlsSlot? then Some(slot.checkId) else None;
    var sourceKey := if slot.SnmpSlot? then Some(slot.key) else None;
    Incident(slot.targetId, kind, checkId, sourceKey, Open, severity, failureCount, at, at, None, None, None)
  }

  // ---------------------------------------------------------------- notification gates

  /** A row and the events its last change announced. */
  datatype Announced = Announced(row: Incident, events: seq<Event>)

  function OpeningGate(id: nat, row: Incident, suppressed: bool, now: Time): Announced {
    if suppressed || row.openAttempted.Some? then Announced(row, [])
    else Announced(row.(openAttempted := Some(now)), [Event(id, Opened)])
  }

  function RecoveryGate(id: nat, row: Incident, suppressed: bool, now: Time): Announced {
    if suppressed || row.openAttempted.None? || row.recoveryAttempted.Some? then Announced(row, [])
    else Announced(row.(recoveryAttempted := Some(now)), [Event(id, Recovered)])
  }

  // ---------------------------------------------------------------- effects on the table

  /** The incident table after a call, and the events the call returned. */
  datatype Change = Change(rows: seq<Incident>, events: seq<Event>)

  function Put(rows: seq<Incident>, i: nat, announced: Announced): Change
    requires i <= |rows|
  {
    Change(if i == |rows| then rows + [announced.row] else rows[i := announced.row], announced.events)
  }

  /** A DOWN result: count it on the open incident, or open one once the failure is confirmed. */
  function AfterFailure(rows: seq<Incident>, slot: Slot, severity: Option<Severity>, confirmed: bool,
                        setting: int, suppressed: bool, at: Time, now: Time): Change
  {
    var i := FindOpen(rows, slot);
    if i >= 0 then
      var counted := rows[i].(failureCount := rows[i].failureCount + 1, lastFailureAt := at);
      Put(rows, i, OpeningGate(i, counted, suppressed, now))
    else if confirmed then
      Put(rows, |rows|, OpeningGate(|rows|, NewIncident(slot, severity, setting, at), suppressed, now))
    else Change(rows, [])
  }

  /** After a failure the slot's open incident is the one it had, or the one a confirmed failure opened. */
  lemma FailureFinds(rows: seq<Incident>, slot: Slot, severity: Option<Severity>, confirmed: bool,
                     setting: int, suppressed: bool, at: Time, now: Time)
    ensures var i := FindOpen(rows, slot);
            FindOpen(AfterFailure(rows, slot, severity, confirmed, setting, suppressed, at, now).rows, slot) ==
            if i >= 0 then i else if confirmed then |rows| else -1
  {
    var i := FindOpen(rows, slot);
    var after := AfterFailure(rows, slot, severity, confirmed, setting, suppressed, at, now).rows;
    if i >= 0 || confirmed {
      var k := if i >= 0 then i else |rows|;
      assert OpenFor(after[k], slot) && forall j :: k < j < |after| ==> after[j] == rows[j];
    }
  }

  /** A good result: resolve the open incident of the slot, if there is one. */
  function AfterRecovery(rows: seq<Incident>, slot: Slot, notify: bool, suppressed: bool, at: Time, now: Time): Change {
    var i := FindOpen(rows, slot);
    if i < 0 then Change(rows, [])
    else
      var resolved := rows[i].(status := Resolved, resolvedAt := Some(at));
      Put(rows, i, if notify then RecoveryGate(i, resolved, suppressed, now) else Announced(resolved, []))
  }

  /** A reading above normal: open the incident of the slot, or update it and announce an escalation. */
  function AfterReading(rows: seq<Incident>, slot: Slot, severity: Severity, notify: bool,
                        suppressed: bool, at: Time, now: Time): Change
  {
    var i := FindOpen(rows, slot);
    if i < 0 then
      var row := NewIncident(slot, Some(severity), 1, at);
      Put(rows, |rows|, if notify then OpeningGate(|rows|, row, suppressed, now) else Announced(row, []))
    else
      var updated := rows[i].(failureCount := rows[i].failureCount + 1, lastFailureAt := at,
                              severity := Some(severity));
      var escalated := notify && rows[i].severity == Some(Warning) && severity.Critical? && !suppressed;
      Put(rows, i, Announced(updated, if escalated then [Event(i, Opened)] else []))
  }

  /** What a reading of an SNMP source leaves; no severity means the source is back to normal. */
  function AfterSource(rows: seq<Incident>, targetId: nat, key: string, severity: Option<Severity>, notify: bool,
                       suppressed: bool, at: Time, now: Time): Change
  {
    var slot := SnmpSlot(targetId, key);
    if severity.None? then AfterRecovery(rows, slot, notify, suppressed, at, now)
    else AfterReading(rows, slot, severity.value, notify, suppressed, at, now)
  }

  function AfterTls(rows: seq<Incident>, targetId: nat, checkId: nat, health: TlsHealth,
                    suppressed: bool, at: Time, now: Time): Change
  {
    var slot := TlsSlot(targetId, checkId);
    match health
    case TlsOk => AfterRecovery(rows, slot, true, suppressed, at, now)
    case TlsWarning => AfterReading(rows, slot, Warning, true, suppressed, at, now)
    case TlsCritical => AfterReading(rows, slot, Critical, true, suppressed, at, now)
  }

  function AfterResult(rows: seq<Incident>, slot: Slot, status: CheckStatus, confirmed: bool, setting: int,
                       suppressed: bool, at: Time, now: Time): Change
  {
    var severity := if slot.CheckSlot? then Some(Critical) else None;
    match status
    case Down => AfterFailure(rows, slot, severity, confirmed, setting, suppressed, at, now)
    case Up => AfterRecovery(rows, slot, true, suppressed, at, now)
    case Unknown => Change(rows, [])
  }

  /** An administrator's change resolves incidents of one check without announcing anything. */
  function ResolvedSilently(row: Incident, targetId: nat, checkId: nat, alsoCheck: bool, detach: bool,
                            now: Time): Incident
  {
    if OpenFor(row, TlsSlot(targetId, checkId)) || (alsoCheck && OpenFor(row, CheckSlot(targetId, checkId))) then
      row.(status := Resolved, resolvedAt := Some(now), checkId := if detach then None else row.checkId)
    else row
  }

  function AfterSilentResolve(rows: seq<Incident>, targetId: nat, checkId: nat, alsoCheck: bool, detach: bool,
                              now: Time): (r: seq<Incident>)
    ensures |r| == |rows|
    ensures forall i :: 0 <= i < |rows| ==> r[i] == ResolvedSilently(rows[i], targetId, checkId, alsoCheck, detach, now)
  {
    seq(|rows|, i requires 0 <= i < |rows| => ResolvedSilently(rows[i], targetId, checkId, alsoCheck, detach, now))
  }

  /** An administrator deletes an incident from the list, open or not. */
  function AfterErase(rows: seq<Incident>, id: nat): (r: seq<Incident>)
    ensures |r| == |rows|
    ensures forall i :: 0 <= i < |rows| && i != id ==> r[i] == rows[i]
  {
    if id < |rows| then rows[id := rows[id].(status := Erased)] else rows
  }

  // ---------------------------------------------------------------- confirmation windows

  /** How many results in a row the confirmation looks at. */
  function Window(setting: int): (k: nat)
    ensures 1 <= k <= 10
    ensures 1 <= setting <= 10 ==> k == setting
  {
    Max(1, Min(10, setting))
  }

  /** The newest `limit` statuses, newest first. */
  function Newest(statuses: seq<CheckStatus>, limit: nat): seq<CheckStatus> {
    if limit == 0 || statuses == [] then []
    else [statuses[|statuses| - 1]] + Newest(statuses[..|statuses| - 1], limit - 1)
  }

  function StatusesOf(results: seq<CheckResult>, targetId: nat): (h: seq<CheckStatus>) {
    if results == [] then []
    else
      var last := results[|results| - 1];
      StatusesOf(results[..|results| - 1], targetId) + if last.targetId == targetId then [last.status] else []
  }

  function CheckStatusesOf(results: seq<TargetCheckResult>, checkId: nat, version: nat): seq<CheckStatus> {
    if results == [] then []
    else
      var last := results[|results| - 1];
      CheckStatusesOf(results[..|results| - 1], checkId, version)
      + if last.checkId == checkId && last.configVersion == version then [last.status] else []
  }

  /** A full window of nothing but DOWN. */
  predicate ConfirmedIn(statuses: seq<CheckStatus>, setting: int) {
    var newest := Newest(statuses, Window(setting));
    |newest| == Window(setting) && forall s :: s in newest ==> s.Down?
  }

  /** The newest-first query reads exactly the tail of the history. */
  lemma {:induction false} NewestIsTail(statuses: seq<CheckStatus>, limit: nat)
    ensures |Newest(statuses, limit)| == Min(limit, |statuses|)
    ensures forall i :: 0 <= i < |Newest(statuses, limit)| ==>
              Newest(statuses, limit)[i] == statuses[|statuses| - 1 - i]
  {
    if limit > 0 && statuses != [] {
      NewestIsTail(statuses[..|statuses| - 1], limit - 1);
    }
  }

  /** A failure is confirmed exactly when the last k results exist and are all DOWN. */
  lemma ConfirmedIsTail(statuses: seq<CheckStatus>, setting: int)
    ensures ConfirmedIn(statuses, setting) <==>
            |statuses| >= Window(setting) &&
            forall i :: |statuses| - Window(setting) <= i < |statuses| ==> statuses[i].Down?
  {
    var n, k := |statuses|, Window(setting);
    var newest := Newest(statuses, k);
    NewestIsTail(statuses, k);
    if ConfirmedIn(statuses, setting) {
      forall i | n - k <= i < n ensures statuses[i].Down? {
        assert newest[n - 1 - i] == statuses[i];
      }
    }
  }

  // ---------------------------------------------------------------- the service

  /** The tables the service reads and writes, and the setting it consults. */
  class Session {
    var incidents: seq<Incident>
    var results: seq<CheckResult>
    var checkResults: seq<TargetCheckResult>
    var failuresBeforeIncident: int

    constructor (failuresBeforeIncident: int)
      ensures incidents == [] && results == [] && checkResults == []
      ensures this.failuresBeforeIncident == failuresBeforeIncident
    {
      incidents, results, checkResults := [], [], [];
      this.failuresBeforeIncident := failuresBeforeIncident;
    }
  }

  class MonitorTarget {
    const id: nat
    const link: UnstableLink
    var enabled: bool
    var notificationsSuppressed: bool

    constructor (id: nat)
      ensures this.id == id && enabled && !notificationsSuppressed && link.Mark() == LinkMark(false, None)
    {
      this.id := id;
      link := new UnstableLink();
      enabled, notificationsSuppressed := true, false;
    }
  }

  /**
   * What decides how a check runs, as far as its version covers it: `details` stands for the fields that
   * are compared when it is edited, one of which is its own address.  A check without one asks the
   * address of its target, which is not among those fields.
   */
  datatype Signature = Signature(details: nat, followsTarget: bool)

  class TargetCheck {
    const id: nat
    const targetId: nat
    const isPrimary: bool
    const isDirectory: bool
    const link: UnstableLink
    var enabled: bool
    var configVersion: nat
    var signature: Signature

    constructor (id: nat, targetId: nat, isPrimary: bool, isDirectory: bool, signature: Signature)
      ensures this.id == id && this.targetId == targetId
      ensures this.isPrimary == isPrimary && this.isDirectory == isDirectory
      ensures enabled && configVersion == 1 && this.signature == signature && link.Mark() == LinkMark(false, None)
    {
      this.id, this.targetId, this.isPrimary, this.isDirectory := id, targetId, isPrimary, isDirectory;
      this.signature := signature;
      link := new UnstableLink();
      enabled, configVersion := true, 1;
    }
  }

  class IncidentService {

    constructor () {
    }

    method OpeningNotification(id: nat, row: Incident, target: MonitorTarget, now: Time)
      returns (updated: Incident, events: seq<Event>)
      ensures Announced(updated, events) == OpeningGate(id, row, target.notificationsSuppressed, now)
    {
      updated, events := row, [];
      if target.notificationsSuppressed || row.openAttempted.Some? {
        return;
      }
      updated := row.(openAttempted := Some(now));
      events := [Event(id, Opened)];
    }

    method RecoveryNotification(id: nat, row: Incident, target: MonitorTarget, now: Time)
      returns (updated: Incident, events: seq<Event>)
      ensures Announced(updated, events) == RecoveryGate(id, row, target.notificationsSuppressed, now)
    {
      updated, events := row, [];
      var alreadyAttempted := row.recoveryAttempted.Some?;
      if target.notificationsSuppressed || row.openAttempted.None? || alreadyAttempted {
        return;
      }
      updated := row.(recoveryAttempted := Some(now));
      events := [Event(id, Recovered)];
    }

    /** The DOWN branch shared by both result handlers; `found` is the incident that is open afterwards, or -1. */
    method RecordFailure(session: Session, target: MonitorTarget, slot: Slot, severity: Option<Severity>,
                         confirmed: bool, at: Time, now: Time)
      returns (found: int, events: seq<Event>)
      modifies session`incidents
      ensures Change(session.incidents, events) ==
              AfterFailure(old(session.incidents), slot, severity, confirmed, session.failuresBeforeIncident,
                           target.notificationsSuppressed, at, now)
      ensures found == FindOpen(session.incidents, slot)
    {
      FailureFinds(session.incidents, slot, severity, confirmed, session.failuresBeforeIncident,
                   target.notificationsSuppressed, at, now);
      hide FindOpen, OpenFor;
      found, events := FindOpen(session.incidents, slot), [];
      if found < 0 && confirmed {
        found := |session.incidents|;
        session.incidents := session.incidents + [NewIncident(slot, severity, session.failuresBeforeIncident, at)];
      } else if found >= 0 {
        var row := session.incidents[found];
        session.incidents :=
          session.incidents[found := row.(failureCount := row.failureCount + 1, lastFailureAt := at)];
      }
      if found >= 0 {
        var row;
        row, events := OpeningNotification(found, session.incidents[found], target, now);
        session.incidents := session.incidents[found := row];
      }
    }

    /** The UP branch shared by both result handlers; `found` is the incident it resolved, or -1. */
    method RecordRecovery(session: Session, target: MonitorTarget, slot: Slot, at: Time, now: Time)
      returns (found: int, events: seq<Event>)
      modifies session`incidents
      ensures Change(session.incidents, events) ==
              AfterRecovery(old(session.incidents), slot, true, target.notificationsSuppressed, at, now)
      ensures found == FindOpen(old(session.incidents), slot)
    {
      found, events := FindOpen(session.incidents, slot), [];
      if found >= 0 {
        var row := session.incidents[found].(status := Resolved, resolvedAt := Some(at));
        row, events := RecoveryNotification(found, row, target, now);
        session.incidents := session.incidents[found := row];
      }
    }

    /** The incident half of a result; `found` is the incident a DOWN left open or an UP resolved, or -1. */
    method RecordResult(session: Session, target: MonitorTarget, slot: Slot, status: CheckStatus, confirmed: bool,
                        at: Time, now: Time)
      returns (found: int, events: seq<Event>)
      modifies session`incidents
      ensures Change(session.incidents, events) ==
              AfterResult(old(session.incidents), slot, status, confirmed, session.failuresBeforeIncident,
                          target.notificationsSuppressed, at, now)
      ensures status.Down? ==> found == FindOpen(session.incidents, slot)
      ensures status.Up? ==> found == FindOpen(old(session.incidents), slot)
    {
      hide AfterFailure, AfterRecovery, FindOpen;
      found, events := -1, [];
      if status.Down? {
        found, events :=
          RecordFailure(session, target, slot, if slot.CheckSlot? then Some(Critical) else None, confirmed, at, now);
      } else if status.Up? {
        found, events := RecordRecovery(session, target, slot, at, now);
      }
    }

    /** A stored primary result: it is already the newest row of `session.results`. */
    method ProcessResult(session: Session, target: MonitorTarget, result: CheckResult, now: Time)
      returns (events: seq<Event>)
      requires result.targetId == target.id
      modifies session`incidents, target.link
      ensures Change(session.incidents, events) ==
              AfterResult(old(session.incidents), AvailabilitySlot(target.id), result.status,
                          ConfirmedIn(StatusesOf(session.results, target.id), session.failuresBeforeIncident),
                          session.failuresBeforeIncident, target.notificationsSuppressed, result.checkedAt, now)
      ensures target.link.Mark() ==
              MarkAfter(old(target.link.Mark()), result.status.Down?, result.status.Up?,
                        FindOpen(old(session.incidents), AvailabilitySlot(target.id)) >= 0,
                        FindOpen(session.incidents, AvailabilitySlot(target.id)) >= 0, result.checkedAt)
    {
      hide AfterResult, FindOpen, ConfirmedIn, StatusesOf;
      var confirmed := ConfirmedIn(StatusesOf(session.results, target.id), session.failuresBeforeIncident);
      var found;
      found, events :=
        RecordResult(session, target, AvailabilitySlot(target.id), result.status, confirmed, result.checkedAt, now);
      if result.status.Down? {
        if found < 0 {
          target.link.RecordUnconfirmedDown();
        } else {
          target.link.RecordConfirmedDown();
        }
      } else if result.status.Up? {
        target.link.RecordRecoveredUp(result.checkedAt, found >= 0);
      }
    }

    /** A stored result of a secondary check; a primary check is none of this method's business. */
    method ProcessTargetCheckResult(session: Session, target: MonitorTarget, check: TargetCheck,
                                    result: TargetCheckResult, now: Time)
      returns (events: seq<Event>)
      modifies session`incidents, check.link
      ensures check.isPrimary ==>
                session.incidents == old(session.incidents) && events == []
                  && check.link.Mark() == old(check.link.Mark())
      ensures !check.isPrimary ==>
                Change(session.incidents, events) ==
                AfterResult(old(session.incidents), CheckSlot(target.id, check.id), result.status,
                            ConfirmedIn(CheckStatusesOf(session.checkResults, check.id, result.configVersion),
                                        session.failuresBeforeIncident),
                            session.failuresBeforeIncident, target.notificationsSuppressed, result.checkedAt, now)
      ensures !check.isPrimary ==>
                check.link.Mark() ==
                if check.isDirectory then old(check.link.Mark())
                else MarkAfter(old(check.link.Mark()), result.status.Down?, result.status.Up?,
                               FindOpen(old(session.incidents), CheckSlot(target.id, check.id)) >= 0,
                               FindOpen(session.incidents, CheckSlot(target.id, check.id)) >= 0, result.checkedAt)
    {
      hide AfterResult, FindOpen, ConfirmedIn, CheckStatusesOf;
      events := [];
      if check.isPrimary {
        return;
      }
      var confirmed := ConfirmedIn(CheckStatusesOf(session.checkResults, check.id, result.configVersion),
                                   session.failuresBeforeIncident);
      var found;
      found, events := RecordResult(session, target, CheckSlot(target.id, check.id), result.status, confirmed,
                                    result.checkedAt, now);
      if check.isDirectory {
        return;
      }
      if result.status.Down? {
        if found < 0 {
          check.link.RecordUnconfirmedDown();
        } else {
          check.link.RecordConfirmedDown();
        }
      } else if result.status.Up? {
        check.link.RecordRecoveredUp(result.checkedAt, found >= 0);
      }
    }

    /** The certificate state read by a fresh HTTPS request. */
    method ApplyCheckTlsHealth(session: Session, target: MonitorTarget, check: TargetCheck,
                               health: TlsHealth, observedAt: Time, now: Time)
      returns (events: seq<Event>)
      modifies session`incidents
      ensures Change(session.incidents, events) ==
              AfterTls(old(session.incidents), target.id, check.id, health, target.notificationsSuppressed, observedAt,
                       now)
    {
      var slot := TlsSlot(target.id, check.id);
      var found := FindOpen(session.incidents, slot);
      events := [];
      if health.TlsOk? {
        if found >= 0 {
          var row := session.incidents[found].(status := Resolved, resolvedAt := Some(observedAt));
          row, events := RecoveryNotification(found, row, target, now);
          session.incidents := session.incidents[found := row];
        }
        return;
      }
      var severity := if health.TlsCritical? then Critical else Warning;
      if found < 0 {
        var row;
        row, events := OpeningNotification(|session.incidents|, NewIncident(slot, Some(severity), 1, observedAt),
                                           target, now);
        session.incidents := session.incidents + [row];
        return;
      }
      var previous := session.incidents[found];
      session.incidents := session.incidents[found :=
        previous.(failureCount := previous.failureCount + 1, lastFailureAt := observedAt, severity := Some(severity))];
      if previous.severity == Some(Warning) && severity.Critical? && !target.notificationsSuppressed {
        events := [Event(found, Opened)];
      }
    }

    /** Open, update or resolve the one incident of an SNMP source. */
    method SetSourceState(session: Session, target: MonitorTarget, key: string, severity: Option<Severity>,
                          observedAt: Time, now: Time, notify: bool)
      returns (events: seq<Event>)
      modifies session`incidents
      ensures Change(session.incidents, events) ==
              AfterSource(old(session.incidents), target.id, key, severity, notify,
                          target.notificationsSuppressed, observedAt, now)
    {
      var slot := SnmpSlot(target.id, key);
      var found := FindOpen(session.incidents, slot);
      events := [];
      if severity.None? {
        if found < 0 {
          return;
        }
        var row := session.incidents[found].(status := Resolved, resolvedAt := Some(observedAt));
        if notify {
          row, events := RecoveryNotification(found, row, target, now);
        }
        session.incidents := session.incidents[found := row];
        return;
      }
      if found < 0 {
        var row := NewIncident(slot, severity, 1, observedAt);
        if notify {
          row, events := OpeningNotification(|session.incidents|, row, target, now);
        }
        session.incidents := session.incidents + [row];
        return;
      }
      var previous := session.incidents[found];
      session.incidents := session.incidents[found :=
        previous.(failureCount := previous.failureCount + 1, lastFailureAt := observedAt, severity := severity)];
      if notify && previous.severity == Some(Warning) && severity == Some(Critical) && !target.notificationsSuppressed {
        events := [Event(found, Opened)];
      }
    }

    /** Resolve the incident of a source without announcing it, so suppression plays no part. */
    method ResolveSourceSilently(session: Session, targetId: nat, key: string, observedAt: Time, now: Time)
      modifies session`incidents
      ensures session.incidents ==
              AfterSource(old(session.incidents), targetId, key, None, false, false, observedAt, now).rows
    {
      var found := FindOpen(session.incidents, SnmpSlot(targetId, key));
      if found >= 0 {
        session.incidents := session.incidents[found :=
          session.incidents[found].(status := Resolved, resolvedAt := Some(observedAt))];
      }
    }

    /** Resolve the open incidents of one check; with `alsoCheck` false only its certificate incidents. */
    method ResolveCheckSilently(session: Session, target: MonitorTarget, check: TargetCheck,
                                alsoCheck: bool, detach: bool, now: Time)
      modifies session`incidents
      ensures session.incidents ==
              AfterSilentResolve(old(session.incidents), target.id, check.id, alsoCheck, detach, now)
    {
      for i := 0 to |session.incidents|
        invariant |session.incidents| == |old(session.incidents)|
        invariant forall j :: 0 <= j < i ==>
                    session.incidents[j] ==
                    ResolvedSilently(old(session.incidents)[j], target.id, check.id, alsoCheck, detach, now)
        invariant forall j :: i <= j < |session.incidents| ==> session.incidents[j] == old(session.incidents)[j]
      {
        var row := session.incidents[i];
        if row.status.Open? && row.targetId == target.id && row.checkId == Some(check.id)
           && (row.kind.CheckTls? || (alsoCheck && row.kind.Check?)) {
          row := row.(status := Resolved, resolvedAt := Some(now));
          if detach {
            row := row.(checkId := None);
          }
          session.incidents := session.incidents[i := row];
        }
      }
    }
  }
}
