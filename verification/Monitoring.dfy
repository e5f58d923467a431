/** Storing check results: what is admitted, how it is stamped, and which incident steps it makes. */
module Monitoring {
  import opened Basics
  import opened UnstableLinks
  import opened Incidents
  import opened IncidentRuns
  import opened CheckVersions

  /** The tables, the setting aside, as a run of the incident service sees them. */
  function Seen(session: Session, log: seq<Event>): World
    reads session
  {
    World(session.results, session.incidents, log)
  }

  function ConfigOf(check: TargetCheck): CheckConfig
    reads check
  {
    CheckConfig(check.targetId, check.configVersion, check.signature, check.enabled)
  }

  /** A fleet with the tables of a session and, when it exists, the check of that id. */
  predicate Mirrors(f: Fleet, session: Session, id: nat, check: TargetCheck?)
    reads session, if check == null then {} else {check}
  {
    && Rows(f.stored) == session.checkResults && f.incidents == session.incidents
    && (check == null ==> id !in f.checks)
    && (check != null ==> check.id == id && id in f.checks && f.checks[id] == ConfigOf(check))
  }

  lemma LandedRows(f: Fleet, flight: Flight, status: CheckStatus, working: bool, suppressed: bool, at: Time, now: Time,
                   setting: int)
    ensures var id := flight.checkId;
            var g := Landed(f, flight, status, working, suppressed, at, now, setting);
            if id !in f.checks || f.checks[id].version != flight.expected || !f.checks[id].enabled || !working then
              g == f
            else
              var check := f.checks[id];
              var rows := Rows(f.stored) + [TargetCheckResult(id, check.version, status, at)];
              && Rows(g.stored) == rows && g.checks == f.checks && g != f
              && g.incidents == AfterResult(f.incidents, CheckSlot(check.targetId, id), status,
                                            ConfirmedIn(CheckStatusesOf(rows, id, check.version), setting), setting,
                                            suppressed, at, now).rows
  {
    hide AfterResult, ConfirmedIn, CheckStatusesOf;
    var id := flight.checkId;
    if id in f.checks {
      var row := TargetCheckResult(id, f.checks[id].version, status, at);
      var stored := f.stored + [MeasuredBy(row, flight)];
      assert |stored| != |f.stored| && Rows(stored) == Rows(f.stored) + [row];
    }
  }

  class MonitoringService {
    const incidentService: IncidentService

    constructor ()
    {
      incidentService := new IncidentService();
    }

    /**
     * Store one primary result; `found` is false when the target no longer exists, which the caller
     * sees as a lookup error.  `siteEnabled` and `working` are what the site row and its schedule say
     * at the moment of saving; `checkedAt` is the stamp the database gives the row.
     */
    method SaveResult(session: Session, target: MonitorTarget?, siteEnabled: bool, working: bool,
                      status: CheckStatus, checkedAt: Time, now: Time, ghost log: seq<Event>)
      returns (found: bool, events: seq<Event>)
      modifies session`results, session`incidents, if target == null then {} else {target.link}
      ensures found == (target != null)
      ensures target != null && siteEnabled && target.enabled && working ==>
                Seen(session, log + events) ==
                Next(old(Seen(session, log)),
                     Primary(target.id, status, target.notificationsSuppressed, checkedAt, now),
                     session.failuresBeforeIncident)
      ensures !(target != null && siteEnabled && target.enabled && working) ==>
                events == [] && Seen(session, log) == old(Seen(session, log))
      ensures target != null && !(siteEnabled && target.enabled && working) ==>
                target.link.Mark() == old(target.link.Mark())
    {
      found, events := target != null, [];
      if target == null || !siteEnabled || !target.enabled {
        return;
      }
      if !working {
        return;
      }
      var result := CheckResult(target.id, status, checkedAt);
      session.results := session.results + [result];
      events := incidentService.ProcessResult(session, target, result, now);
    }

    /** An administrator deletes an incident of the list; `found` is false when it is not there. */
    method DeleteIncident(session: Session, id: nat, ghost log: seq<Event>) returns (found: bool)
      modifies session`incidents
      ensures found == (id < |old(session.incidents)| && !old(session.incidents)[id].status.Erased?)
      ensures Seen(session, log) == Next(old(Seen(session, log)), Erase(id), session.failuresBeforeIncident)
    {
      found := id < |session.incidents| && !session.incidents[id].status.Erased?;
      if found {
        session.incidents := session.incidents[id := session.incidents[id].(status := Erased)];
      }
    }

    /** The conditions under which a secondary result is stored. */
    predicate Admits(target: MonitorTarget, check: TargetCheck, expected: Option<nat>, siteEnabled: bool, working: bool)
      reads target, check
    {
      && check.targetId == target.id
      && (expected.None? || expected.value == check.configVersion)
      && siteEnabled && target.enabled && check.enabled && working
    }

    /**
     * Store one secondary result.  `expected` is the version the caller measured under, if it knows;
     * `tls` is the health of the certificate the request read, when the check monitors it.  A missing
     * target or check is a lookup error only for callers that expect no version.  For a secondary
     * check this is the landing of its flight; a certificate adds its own incident step.
     */
    method SaveTargetCheckResult(session: Session, target: MonitorTarget?, check: TargetCheck?, expected: Option<nat>,
                                 siteEnabled: bool, working: bool, status: CheckStatus, tls: Option<TlsHealth>,
                                 checkedAt: Time, now: Time, ghost f: Fleet, ghost flight: Flight)
      returns (found: bool, events: seq<Event>)
      modifies session`checkResults, session`incidents, if check == null then {} else {check.link}
      ensures found == (expected.Some? || (target != null && check != null && check.targetId == target.id))
      ensures target != null && check != null && Admits(target, check, expected, siteEnabled, working) ==>
                && session.checkResults ==
                   old(session.checkResults) + [TargetCheckResult(check.id, check.configVersion, status, checkedAt)]
                && var after :=
                     if check.isPrimary then Change(old(session.incidents), [])
                     else AfterResult(old(session.incidents), CheckSlot(target.id, check.id), status,
                                      ConfirmedIn(CheckStatusesOf(session.checkResults, check.id, check.configVersion),
                                                  session.failuresBeforeIncident),
                                      session.failuresBeforeIncident, target.notificationsSuppressed, checkedAt, now);
                   if tls.None? then Change(session.incidents, events) == after
                   else
                     var certified := AfterTls(after.rows, target.id, check.id, tls.value,
                                               target.notificationsSuppressed, checkedAt, now);
                     Change(session.incidents, events) == Change(certified.rows, after.events + certified.events)
      ensures session.checkResults != old(session.checkResults) <==>
                && target != null && check != null && check.targetId == target.id
                && (expected == Some(check.configVersion) || expected.None?)
                && siteEnabled && target.enabled && check.enabled && working
      ensures !(target != null && check != null && Admits(target, check, expected, siteEnabled, working)) ==>
                && events == [] && session.checkResults == old(session.checkResults)
                && session.incidents == old(session.incidents)
                && (check != null ==> check.link.Mark() == old(check.link.Mark()))
      ensures target != null && (check != null ==> check.targetId == target.id && !check.isPrimary)
              && expected == Some(flight.expected) && old(Mirrors(f, session, flight.checkId, check)) ==>
                var g := Landed(f, flight, status, siteEnabled && target.enabled && working,
                                target.notificationsSuppressed, checkedAt, now, session.failuresBeforeIncident);
                if check == null || tls.None? || g == f then Mirrors(g, session, flight.checkId, check)
                else Mirrors(g.(incidents := AfterTls(g.incidents, target.id, check.id, tls.value,
                                                      target.notificationsSuppressed, checkedAt, now).rows), session,
                                                      flight.checkId, check)
    {
      hide AfterResult, AfterTls, ConfirmedIn, CheckStatusesOf, Landed, Rows, MarkAfter, FindOpen;
      LandedRows(f, flight, status, siteEnabled && target != null && target.enabled && working,
                 target != null && target.notificationsSuppressed, checkedAt, now, session.failuresBeforeIncident);
      found, events := true, [];
      if target == null || check == null || check.targetId != target.id {
        found := expected.Some?;
        return;
      }
      if expected.Some? && check.configVersion != expected.value {
        return;
      }
      if !siteEnabled || !target.enabled || !check.enabled {
        return;
      }
      if !working {
        return;
      }
      var result := TargetCheckResult(check.id, check.configVersion, status, checkedAt);
      session.checkResults := session.checkResults + [result];
      events := incidentService.ProcessTargetCheckResult(session, target, check, result, now);
      if tls.Some? {
        var more := incidentService.ApplyCheckTlsHealth(session, target, check, tls.value, checkedAt, now);
        events := events + more;
      }
    }

    /**
     * An administrator saves the editor of a check: only what decides how it runs makes a new version.
     * `f` is any fleet that has the check as it is.
     */
    method EditCheck(check: TargetCheck, signature: Signature, ghost f: Fleet)
      modifies check`signature, check`configVersion, check.link
      ensures check.signature == signature
      ensures check.configVersion == old(check.configVersion) + if signature != old(check.signature) then 1 else 0
      ensures check.link.Mark() ==
              if signature != old(check.signature) then LinkMark(false, None) else old(check.link.Mark())
      ensures check.id in f.checks && f.checks[check.id] == old(ConfigOf(check)) ==>
                Moved(f, Edit(check.id, signature), 0).checks == f.checks[check.id := ConfigOf(check)]
    {
      var before := check.signature;
      check.signature := signature;
      if check.signature != before {
        check.configVersion := check.configVersion + 1;
        check.link.Reset();
      } else if check.id in f.checks {
        assert f.checks == f.checks[check.id := f.checks[check.id]];
      }
    }

    /** An administrator switches a check on or off. */
    method ToggleCheck(session: Session, target: MonitorTarget, check: TargetCheck, now: Time, ghost f: Fleet)
      modifies session`incidents, check`enabled, check`configVersion, check.link
      ensures check.enabled == !old(check.enabled) && check.configVersion == old(check.configVersion) + 1
      ensures check.link.Mark() == LinkMark(false, None)
      ensures session.incidents ==
              if check.enabled then old(session.incidents)
              else AfterSilentResolve(old(session.incidents), target.id, check.id, true, false, now)
      ensures check.targetId == target.id && old(Mirrors(f, session, check.id, check)) ==>
                Mirrors(Moved(f, Toggle(check.id, now), session.failuresBeforeIncident), session, check.id, check)
    {
      hide AfterSilentResolve;
      check.enabled := !check.enabled;
      check.configVersion := check.configVersion + 1;
      check.link.Reset();
      if !check.enabled {
        incidentService.ResolveCheckSilently(session, target, check, true, false, now);
      }
    }
  }
}
