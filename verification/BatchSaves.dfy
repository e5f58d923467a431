/** What a batch stores is what the monitoring service admits. */
module BatchSaves {
  import opened Basics
  import opened Incidents
  import opened IncidentRuns
  import opened Monitoring
  import opened SiteGates
  import opened SiteBatches

  /** The row of the registry, as the service finds it when it saves. */
  predicate Finds(targets: seq<Target>, id: nat, target: MonitorTarget?)
    reads target
  {
    var found := Find(targets, id);
    && (target == null <==> found.None?)
    && (target != null ==> target.id == id && target.enabled == targets[found.value].enabled)
  }

  /** Saving the outcome of one check through the service stores exactly what the batch is said to store. */
  method SaveOutcome(service: MonitoringService, session: Session, targets: seq<Target>, id: nat,
                     target: MonitorTarget?, c: Circumstances, ghost log: seq<Event>)
    returns (events: seq<Event>)
    requires Finds(targets, id, target)
    modifies session`results, session`incidents, if target == null then {} else {target.link}
    ensures session.results == old(session.results) + StoredOne(targets, c, id)
    ensures Storable(targets, c, id) ==>
              target != null
              && Seen(session, log + events) ==
                 Next(old(Seen(session, log)),
                      Primary(id, OutcomeOf(c, id), target.notificationsSuppressed, c.now, c.now),
                      session.failuresBeforeIncident)
    ensures !Storable(targets, c, id) ==> session.incidents == old(session.incidents) && events == []
  {
    hide Effect, Find;
    var found := Find(targets, id);
    var siteEnabled := found.Some? && targets[found.value].siteId in c.enabledSites;
    var known;
    known, events := service.SaveResult(session, target, siteEnabled, id in c.onScheduleWhenSaved, OutcomeOf(c, id),
                                        c.now, c.now, log);
    assert Seen(session, log + events).results == session.results;
    assert Seen(session, log + events).incidents == session.incidents;
  }
}
