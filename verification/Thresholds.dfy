/** SNMP thresholds: levels, their evaluation against fresh readings, and their incidents. */
module Thresholds {
  import opened Basics
  import opened Incidents
  import opened IncidentRuns

  // ---------------------------------------------------------------- levels

  datatype Level = Normal | AtWarning | AtCritical
  datatype Operator = Gt | Lt

  predicate Crossed(value: real, operator: Operator, limit: Option<real>) {
    limit.Some? && if operator.Gt? then value > limit.value else value < limit.value
  }

  function EvaluateLevel(value: real, operator: Operator, warning: Option<real>, critical: Option<real>): Level {
    if Crossed(value, operator, critical) then AtCritical
    else if Crossed(value, operator, warning) then AtWarning
    else Normal
  }

  /** Whether the editor accepts a pair of limits. */
  predicate ValidLimits(operator: Operator, warning: Option<real>, critical: Option<real>) {
    && (warning.Some? || critical.Some?)
    && (warning.Some? && critical.Some? ==>
          if operator.Gt? then critical.value >= warning.value else critical.value <= warning.value)
  }

  function Rank(level: Level): nat {
    match level
    case Normal => 0
    case AtWarning => 1
    case AtCritical => 2
  }

  /** With both limits given, the editor accepts exactly the pairs for which critical implies warning. */
  lemma ValidLimitsNest(operator: Operator, warning: Option<real>, critical: Option<real>)
    requires warning.Some? && critical.Some?
    ensures ValidLimits(operator, warning, critical) <==>
            forall value :: Crossed(value, operator, critical) ==> Crossed(value, operator, warning)
  {
    if !ValidLimits(operator, warning, critical) {
      assert Crossed(warning.value, operator, critical) && !Crossed(warning.value, operator, warning);
    }
  }

  /** One limit alone is always accepted, and no limit at all never. */
  lemma OneLimitNeeded(operator: Operator, limit: real)
    ensures ValidLimits(operator, Some(limit), None) && ValidLimits(operator, None, Some(limit))
    ensures !ValidLimits(operator, None, None)
  {
  }

  /** With both limits given and accepted, the level says how many of them the value is past. */
  lemma LevelCountsLimits(value: real, operator: Operator, warning: Option<real>, critical: Option<real>)
    requires warning.Some? && critical.Some? && ValidLimits(operator, warning, critical)
    ensures Rank(EvaluateLevel(value, operator, warning, critical))
            == (if Crossed(value, operator, warning) then 1 else 0)
               + (if Crossed(value, operator, critical) then 1 else 0)
  {
  }

  /** Moving further past the limits never lowers the level. */
  lemma LevelMonotone(nearer: real, further: real, operator: Operator, warning: Option<real>, critical: Option<real>)
    requires if operator.Gt? then nearer <= further else nearer >= further
    ensures Rank(EvaluateLevel(nearer, operator, warning, critical))
            <= Rank(EvaluateLevel(further, operator, warning, critical))
  {
  }

  // ---------------------------------------------------------------- thresholds and their keys

  datatype Source = MetricSource(id: nat) | InterfaceSource(id: nat) | SupplySource(id: nat) | UpsSource(field: string)

  datatype Threshold = Threshold(
    id: nat,
    targetId: nat,
    source: Source,
    operator: Operator,
    warning: Option<real>,
    critical: Option<real>,
    enabled: bool,
    level: Level,
    lastValue: Option<real>,
    lastEvaluatedAt: Option<Time>)

  function SourceKey(thresholdId: nat): string {
    "threshold:" + Decimal(thresholdId)
  }

  const UPS_KEYS: set<string> := {"ups.battery", "ups.output"}

  /** No two thresholds share a key, and none shares one with a power supply's own incidents. */
  lemma KeysDistinct(a: nat, b: nat)
    ensures SourceKey(a) == SourceKey(b) ==> a == b
    ensures SourceKey(a) !in UPS_KEYS
  {
    assert SourceKey(a)[10..] == Decimal(a) && SourceKey(b)[10..] == Decimal(b);
    if SourceKey(a) == SourceKey(b) {
      DecimalInjective(a, b);
    }
    assert SourceKey(a)[0] == 't' && "ups.battery"[0] == 'u' && "ups.output"[0] == 'u';
  }

  function SeverityOf(level: Level): Option<Severity> {
    match level
    case Normal => None
    case AtWarning => Some(Warning)
    case AtCritical => Some(Critical)
  }

  function SlotOfThreshold(t: Threshold): Slot {
    SnmpSlot(t.targetId, SourceKey(t.id))
  }

  // ---------------------------------------------------------------- one evaluation or reset

  /** The thresholds, in id order, beside the incident table and the events so far. */
  datatype Desk = Desk(rows: seq<Threshold>, incidents: seq<Incident>, log: seq<Event>)

  /** Threshold number `i` meets a fresh reading; without one nothing changes. */
  function EvaluatedRow(d: Desk, i: nat, targetId: nat, readings: map<nat, real>, suppressed: bool, at: Time,
                        now: Time): Desk
    requires i < |d.rows|
  {
    var t := d.rows[i];
    if t.targetId != targetId || !t.enabled || t.id !in readings then d
    else
      var level := EvaluateLevel(readings[t.id], t.operator, t.warning, t.critical);
      var change := AfterSource(d.incidents, targetId, SourceKey(t.id), SeverityOf(level), true, suppressed, at, now);
      Desk(d.rows[i := t.(level := level, lastValue := Some(readings[t.id]), lastEvaluatedAt := Some(at))],
           change.rows, d.log + change.events)
  }

  /** The first `n` thresholds evaluated, in id order. */
  function EvaluatedRows(d: Desk, n: nat, targetId: nat, readings: map<nat, real>, suppressed: bool, at: Time,
                         now: Time): (r: Desk)
    requires n <= |d.rows|
    ensures |r.rows| == |d.rows|
  {
    if n == 0 then d
    else EvaluatedRow(EvaluatedRows(d, n - 1, targetId, readings, suppressed, at, now), n - 1, targetId, readings,
                      suppressed, at, now)
  }

  datatype Selector = OneThreshold(id: nat) | OfTarget(targetId: nat) | OfSource(source: Source)

  predicate Selects(selector: Selector, t: Threshold) {
    match selector
    case OneThreshold(id) => t.id == id
    case OfTarget(targetId) => t.targetId == targetId
    case OfSource(source) => t.source == source
  }

  function ResetRow(d: Desk, i: nat, selector: Selector, disable: bool, now: Time): Desk
    requires i < |d.rows|
  {
    var t := d.rows[i];
    if !Selects(selector, t) then d
    else
      d.(rows := d.rows[i := t.(level := Normal, lastValue := None, lastEvaluatedAt := None,
                                enabled := t.enabled && !disable)],
         incidents := AfterSource(d.incidents, t.targetId, SourceKey(t.id), None, false, false, now, now).rows)
  }

  function ResetRows(d: Desk, n: nat, selector: Selector, disable: bool, now: Time): (r: Desk)
    requires n <= |d.rows|
    ensures |r.rows| == |d.rows|
  {
    if n == 0 then d else ResetRow(ResetRows(d, n - 1, selector, disable, now), n - 1, selector, disable, now)
  }

  // ---------------------------------------------------------------- the service

  class ThresholdTable {
    var rows: seq<Threshold>

    constructor ()
      ensures rows == []
    {
      rows := [];
    }
  }

  class SnmpThresholdService {
    const incidentService: IncidentService

    constructor () {
      incidentService := new IncidentService();
    }

    /** `readings` holds the thresholds for which this poll produced a value. */
    method EvaluateTarget(session: Session, table: ThresholdTable, target: MonitorTarget?, readings: map<nat, real>,
                          observedAt: Time, now: Time)
      returns (events: seq<Event>)
      modifies session`incidents, table
      ensures target == null ==>
                table.rows == old(table.rows) && session.incidents == old(session.incidents) && events == []
      ensures target != null ==>
                Desk(table.rows, session.incidents, events) ==
                EvaluatedRows(Desk(old(table.rows), old(session.incidents), []), |old(table.rows)|, target.id, readings,
                              target.notificationsSuppressed, observedAt, now)
    {
      events := [];
      if target == null {
        return;
      }
      for i := 0 to |table.rows|
        invariant |table.rows| == |old(table.rows)|
        invariant Desk(table.rows, session.incidents, events) ==
                  EvaluatedRows(Desk(old(table.rows), old(session.incidents), []), i, target.id, readings,
                                target.notificationsSuppressed, observedAt, now)
      {
        var t := table.rows[i];
        if t.targetId == target.id && t.enabled {
          if t.id in readings {
            var value := readings[t.id];
            var level := EvaluateLevel(value, t.operator, t.warning, t.critical);
            table.rows := table.rows[i := t.(level := level, lastValue := Some(value),
                                             lastEvaluatedAt := Some(observedAt))];
            var severity := match level
              case AtCritical => Some(Critical)
              case AtWarning => Some(Warning)
              case Normal => None;
            var more := incidentService.SetSourceState(session, target, SourceKey(t.id), severity, observedAt, now,
                                                       true);
            events := events + more;
          }
        }
      }
    }

    /**
     * The reset family: one threshold, all of a target, or all of one metric, interface or supply.
     * Events are discarded, so nothing about suppression matters here.
     */
    method Reset(session: Session, table: ThresholdTable, selector: Selector, disable: bool, now: Time)
      modifies session`incidents, table
      ensures var d :=
              ResetRows(Desk(old(table.rows), old(session.incidents), []), |old(table.rows)|, selector, disable, now);
              table.rows == d.rows && session.incidents == d.incidents
    {
      for i := 0 to |table.rows|
        invariant |table.rows| == |old(table.rows)|
        invariant Desk(table.rows, session.incidents, []) ==
                  ResetRows(Desk(old(table.rows), old(session.incidents), []), i, selector, disable, now)
      {
        var t := table.rows[i];
        if Selects(selector, t) {
          incidentService.ResolveSourceSilently(session, t.targetId, SourceKey(t.id), now, now);
          t := t.(level := Normal, lastValue := None, lastEvaluatedAt := None);
          if disable {
            t := t.(enabled := false);
          }
          table.rows := table.rows[i := t];
        }
      }
    }
  }
}
