/** Whole runs of evaluations, resets and edits: levels and open incidents never drift apart. */
module ThresholdRuns {
  import opened Basics
  import opened Incidents
  import opened IncidentRuns
  import opened Thresholds

  /** A warning level has a warning incident open, a critical level a critical one, a normal level none. */
  ghost predicate InStep(t: Threshold, incidents: seq<Incident>) {
    var i := FindOpen(incidents, SlotOfThreshold(t));
    match t.level
    case Normal => i < 0
    case AtWarning => i >= 0 && incidents[i].severity == Some(Warning)
    case AtCritical => i >= 0 && incidents[i].severity == Some(Critical)
  }

  /** In step, or, for a threshold whose incident was deleted, still at its level with nothing open. */
  ghost predicate Tells(t: Threshold, incidents: seq<Incident>, stale: set<nat>) {
    if t.id in stale then !t.level.Normal? && FindOpen(incidents, SlotOfThreshold(t)) < 0 else InStep(t, incidents)
  }

  ghost predicate AllInStep(d: Desk, stale: set<nat>) {
    && UniqueOpen(d.incidents)
    && (forall i :: 0 <= i < |d.rows| ==> Tells(d.rows[i], d.incidents, stale))
    && (forall i, j :: 0 <= i < j < |d.rows| ==> d.rows[i].id != d.rows[j].id)
  }

  /** After a reading of its source, a slot is open exactly when the reading was not normal, with its severity. */
  lemma SlotAfterSource(rows: seq<Incident>, targetId: nat, key: string, severity: Option<Severity>, notify: bool,
                        suppressed: bool, at: Time, now: Time)
    requires UniqueOpen(rows)
    ensures var slot := SnmpSlot(targetId, key);
            var change := AfterSource(rows, targetId, key, severity, notify, suppressed, at, now);
            && UniqueOpen(change.rows)
            && OneRow(rows, change, slot)
            && (FindOpen(change.rows, slot) >= 0 <==> severity.Some?)
            && (severity.Some? ==> change.rows[FindOpen(change.rows, slot)].severity == severity)
  {
    var slot := SnmpSlot(targetId, key);
    var change := AfterSource(rows, targetId, key, severity, notify, suppressed, at, now);
    SourceOneRow(rows, targetId, key, severity, notify, suppressed, at, now);
    SourceRow(rows, targetId, key, severity, notify, suppressed, at, now);
    hide AfterSource;
    UniqueAfterOneRow(rows, change, slot);
  }

  lemma SourceOneRow(rows: seq<Incident>, targetId: nat, key: string, severity: Option<Severity>, notify: bool,
                     suppressed: bool, at: Time, now: Time)
    ensures OneRow(rows, AfterSource(rows, targetId, key, severity, notify, suppressed, at, now),
                   SnmpSlot(targetId, key))
  {
    StepOneRow(World([], rows, []), Source(targetId, key, severity, notify, suppressed, at, now), 1);
  }

  lemma SourceRow(rows: seq<Incident>, targetId: nat, key: string, severity: Option<Severity>, notify: bool,
                  suppressed: bool, at: Time, now: Time)
    requires UniqueOpen(rows)
    ensures var slot := SnmpSlot(targetId, key);
            var after := AfterSource(rows, targetId, key, severity, notify, suppressed, at, now).rows;
            && (FindOpen(after, slot) >= 0 <==> severity.Some?)
            && (severity.Some? ==> after[FindOpen(after, slot)].severity == severity)
  {
    var slot := SnmpSlot(targetId, key);
    var after := AfterSource(rows, targetId, key, severity, notify, suppressed, at, now).rows;
    var i := FindOpen(rows, slot);
    if severity.Some? {
      assert OpenFor(after[if i >= 0 then i else |rows|], slot);
    } else {
      assert i >= 0 ==> forall l :: 0 <= l < i ==> !OpenFor(rows[l], slot);
    }
  }

  /** A reading of one source leaves the incident of every other slot as it was. */
  lemma OtherIncidentUntouched(incidents: seq<Incident>, targetId: nat, key: string, severity: Option<Severity>,
                               notify: bool, suppressed: bool, at: Time, now: Time, slot: Slot)
    requires slot != SnmpSlot(targetId, key)
    ensures SameOpen(incidents, AfterSource(incidents, targetId, key, severity, notify, suppressed, at, now).rows, slot)
  {
    StepOneRow(World([], incidents, []), Source(targetId, key, severity, notify, suppressed, at, now), 1);
    OtherSlotsUntouched(incidents, AfterSource(incidents, targetId, key, severity, notify, suppressed, at, now),
                        SnmpSlot(targetId, key), slot);
  }

  /** Setting one threshold's level together with its incident puts it in step and leaves the others as they were. */
  lemma SetLevelKeepsInStep(d: Desk, stale: set<nat>, i: nat, t: Threshold, notify: bool, suppressed: bool, at: Time,
                            now: Time)
    requires AllInStep(d, stale) && i < |d.rows|
    requires t.id == d.rows[i].id && t.targetId == d.rows[i].targetId
    ensures var change :=
            AfterSource(d.incidents, t.targetId, SourceKey(t.id), SeverityOf(t.level), notify, suppressed, at, now);
            AllInStep(Desk(d.rows[i := t], change.rows, d.log + change.events), stale - {t.id})
            && AllInStep(Desk(d.rows[i := t], change.rows, d.log), stale - {t.id})
  {
    var severity := SeverityOf(t.level);
    var change := AfterSource(d.incidents, t.targetId, SourceKey(t.id), severity, notify, suppressed, at, now);
    SlotAfterSource(d.incidents, t.targetId, SourceKey(t.id), severity, notify, suppressed, at, now);
    var rows := d.rows[i := t];
    forall j | 0 <= j < |rows| ensures Tells(rows[j], change.rows, stale - {t.id}) {
      if j != i {
        assert Tells(d.rows[j], d.incidents, stale);
        KeysDistinct(d.rows[j].id, t.id);
        OtherIncidentUntouched(d.incidents, t.targetId, SourceKey(t.id), severity, notify, suppressed, at, now,
                               SlotOfThreshold(d.rows[j]));
        SameOpenSameLookup(d.incidents, change.rows, SlotOfThreshold(d.rows[j]));
      }
    }
  }

  predicate Meets(t: Threshold, targetId: nat, readings: map<nat, real>) {
    t.targetId == targetId && t.enabled && t.id in readings
  }

  /** The thresholds among the first `n` that an evaluation has a fresh reading for. */
  function Met(rows: seq<Threshold>, n: nat, targetId: nat, readings: map<nat, real>): set<nat>
    requires n <= |rows|
  {
    if n == 0 then {}
    else Met(rows, n - 1, targetId, readings) + if Meets(rows[n - 1], targetId, readings) then {rows[n - 1].id} else {}
  }

  /** The thresholds among the first `n` that a reset selects. */
  function Chosen(rows: seq<Threshold>, n: nat, selector: Selector): set<nat>
    requires n <= |rows|
  {
    if n == 0 then {}
    else Chosen(rows, n - 1, selector) + if Selects(selector, rows[n - 1]) then {rows[n - 1].id} else {}
  }

  lemma EvaluatedRowKeepsInStep(d: Desk, stale: set<nat>, i: nat, targetId: nat, readings: map<nat, real>,
                                suppressed: bool, at: Time, now: Time)
    requires AllInStep(d, stale) && i < |d.rows|
    ensures AllInStep(EvaluatedRow(d, i, targetId, readings, suppressed, at, now),
                      stale - if Meets(d.rows[i], targetId, readings) then {d.rows[i].id} else {})
  {
    hide AfterSource, AllInStep, EvaluateLevel;
    var t := d.rows[i];
    assert stale - {} == stale;
    if t.targetId == targetId && t.enabled && t.id in readings {
      var level := EvaluateLevel(readings[t.id], t.operator, t.warning, t.critical);
      SetLevelKeepsInStep(d, stale, i,
                          t.(level := level, lastValue := Some(readings[t.id]), lastEvaluatedAt := Some(at)), true,
                          suppressed, at, now);
    }
  }

  lemma {:induction false} EvaluationKeepsInStep(d: Desk, stale: set<nat>, n: nat, targetId: nat, readings: map<nat,
                                                 real>, suppressed: bool, at: Time, now: Time)
    requires AllInStep(d, stale) && n <= |d.rows|
    ensures AllInStep(EvaluatedRows(d, n, targetId, readings, suppressed, at, now),
                      stale - Met(d.rows, n, targetId, readings))
  {
    hide AllInStep, EvaluatedRow, Meets;
    if n > 0 {
      EvaluationKeepsInStep(d, stale, n - 1, targetId, readings, suppressed, at, now);
      EvaluationRows(d, n - 1, targetId, readings, suppressed, at, now);
      var e := EvaluatedRows(d, n - 1, targetId, readings, suppressed, at, now);
      var met := Met(d.rows, n - 1, targetId, readings);
      EvaluatedRowKeepsInStep(e, stale - met, n - 1, targetId, readings, suppressed, at, now);
      var last := if Meets(d.rows[n - 1], targetId, readings) then {d.rows[n - 1].id} else {};
      assert stale - met - last == stale - (met + last);
    } else {
      assert stale - {} == stale;
    }
  }

  lemma ResetRowKeepsInStep(d: Desk, stale: set<nat>, i: nat, selector: Selector, disable: bool, now: Time)
    requires AllInStep(d, stale) && i < |d.rows|
    ensures AllInStep(ResetRow(d, i, selector, disable, now),
                      stale - if Selects(selector, d.rows[i]) then {d.rows[i].id} else {})
  {
    hide AfterSource, AllInStep, Selects;
    var t := d.rows[i];
    assert stale - {} == stale;
    if Selects(selector, t) {
      SetLevelKeepsInStep(d, stale, i,
                          t.(level := Normal, lastValue := None, lastEvaluatedAt := None,
                             enabled := t.enabled && !disable),
                          false, false, now, now);
    }
  }

  lemma {:induction false} ResetKeepsInStep(d: Desk, stale: set<nat>, n: nat, selector: Selector, disable: bool,
                                            now: Time)
    requires AllInStep(d, stale) && n <= |d.rows|
    ensures AllInStep(ResetRows(d, n, selector, disable, now), stale - Chosen(d.rows, n, selector))
  {
    hide AllInStep, ResetRow, Selects;
    if n > 0 {
      ResetKeepsInStep(d, stale, n - 1, selector, disable, now);
      ResetAllRows(d, n - 1, selector, disable, now);
      var e, chosen := ResetRows(d, n - 1, selector, disable, now), Chosen(d.rows, n - 1, selector);
      ResetRowKeepsInStep(e, stale - chosen, n - 1, selector, disable, now);
      var last := if Selects(selector, d.rows[n - 1]) then {d.rows[n - 1].id} else {};
      assert stale - chosen - last == stale - (chosen + last);
    } else {
      assert stale - {} == stale;
    }
  }

  // ---------------------------------------------------------------- what one evaluation cannot touch

  /** An evaluation changes no threshold but those it has a fresh reading for. */
  lemma {:induction false} EvaluationRows(d: Desk, n: nat, targetId: nat, readings: map<nat, real>, suppressed: bool,
                                          at: Time, now: Time)
    requires n <= |d.rows|
    ensures var e := EvaluatedRows(d, n, targetId, readings, suppressed, at, now);
            forall i :: 0 <= i < |d.rows| ==>
              e.rows[i] ==
              if i < n && Meets(d.rows[i], targetId, readings) then
                d.rows[i].(level := EvaluateLevel(readings[d.rows[i].id], d.rows[i].operator, d.rows[i].warning,
                                                  d.rows[i].critical),
                           lastValue := Some(readings[d.rows[i].id]), lastEvaluatedAt := Some(at))
              else d.rows[i]
  {
    if n > 0 {
      hide AfterSource;
      EvaluationRows(d, n - 1, targetId, readings, suppressed, at, now);
    }
  }

  lemma EvaluatedRowFrame(d: Desk, i: nat, targetId: nat, readings: map<nat, real>, suppressed: bool, at: Time,
                          now: Time, slot: Slot)
    requires i < |d.rows|
    requires Meets(d.rows[i], targetId, readings) ==> SlotOfThreshold(d.rows[i]) != slot
    ensures SameOpen(d.incidents, EvaluatedRow(d, i, targetId, readings, suppressed, at, now).incidents, slot)
  {
    var t := d.rows[i];
    if Meets(t, targetId, readings) {
      var level := EvaluateLevel(readings[t.id], t.operator, t.warning, t.critical);
      OtherIncidentUntouched(d.incidents, targetId, SourceKey(t.id), SeverityOf(level), true, suppressed, at, now,
                             slot);
    }
  }

  lemma ResetRowFrame(d: Desk, i: nat, selector: Selector, disable: bool, now: Time, slot: Slot)
    requires i < |d.rows|
    requires Selects(selector, d.rows[i]) ==> SlotOfThreshold(d.rows[i]) != slot
    ensures SameOpen(d.incidents, ResetRow(d, i, selector, disable, now).incidents, slot)
  {
    var t := d.rows[i];
    if Selects(selector, t) {
      OtherIncidentUntouched(d.incidents, t.targetId, SourceKey(t.id), None, false, false, now, now, slot);
    }
  }

  /**
   * An evaluation touches no incident but those of thresholds it has a fresh reading for: not another
   * threshold's, not the power supply's, not one of another kind.
   */
  lemma {:induction false} EvaluationFrame(d: Desk, e: Desk, n: nat, targetId: nat, readings: map<nat, real>,
                                           suppressed: bool, at: Time, now: Time, slot: Slot)
    requires n <= |d.rows| && e == EvaluatedRows(d, n, targetId, readings, suppressed, at, now)
    requires forall i :: 0 <= i < n && Meets(d.rows[i], targetId, readings) ==> SlotOfThreshold(d.rows[i]) != slot
    ensures SameOpen(d.incidents, e.incidents, slot)
    decreases n
  {
    if n > 0 {
      hide AfterSource, SameOpen;
      var previous := EvaluatedRows(d, n - 1, targetId, readings, suppressed, at, now);
      EvaluationFrame(d, previous, n - 1, targetId, readings, suppressed, at, now, slot);
      EvaluationRows(d, n - 1, targetId, readings, suppressed, at, now);
      EvaluatedRowFrame(previous, n - 1, targetId, readings, suppressed, at, now, slot);
      SameOpenTransitive(d.incidents, previous.incidents, e.incidents, slot);
    }
  }

  /** A reset returns the thresholds it selects to rest and leaves the others as they are. */
  lemma {:induction false} ResetAllRows(d: Desk, n: nat, selector: Selector, disable: bool, now: Time)
    requires n <= |d.rows|
    ensures var e := ResetRows(d, n, selector, disable, now);
            && e.log == d.log
            && forall i :: 0 <= i < |d.rows| ==>
                 e.rows[i] ==
                 if i < n && Selects(selector, d.rows[i]) then
                   d.rows[i].(level := Normal, lastValue := None, lastEvaluatedAt := None,
                              enabled := d.rows[i].enabled && !disable)
                 else d.rows[i]
  {
    if n > 0 {
      hide AfterSource;
      ResetAllRows(d, n - 1, selector, disable, now);
    }
  }

  /** A reset of one threshold, of a target or of a source brings exactly those thresholds to rest. */
  lemma ResetReaches(d: Desk, id: nat, targetId: nat, source: Thresholds.Source, disable: bool, now: Time, i: nat)
    requires i < |d.rows|
    ensures var t, n := d.rows[i], |d.rows|;
            var rest := t.(level := Normal, lastValue := None, lastEvaluatedAt := None,
                           enabled := if disable then false else t.enabled);
            && ResetRows(d, n, OneThreshold(id), disable, now).rows[i] == (if t.id == id then rest else t)
            && ResetRows(d, n, OfTarget(targetId), disable, now).rows[i] == (if t.targetId == targetId then rest else t)
            && ResetRows(d, n, OfSource(source), disable, now).rows[i] == (if t.source == source then rest else t)
  {
    ResetAllRows(d, |d.rows|, OneThreshold(id), disable, now);
    ResetAllRows(d, |d.rows|, OfTarget(targetId), disable, now);
    ResetAllRows(d, |d.rows|, OfSource(source), disable, now);
    hide ResetRows;
  }

  lemma SameOpenItself(rows: seq<Incident>, slot: Slot)
    ensures SameOpen(rows, rows, slot)
  {
  }

  /** A reset touches only the incidents of the thresholds it selects. */
  lemma {:induction false} ResetFrame(d: Desk, e: Desk, n: nat, selector: Selector, disable: bool, now: Time,
                                      slot: Slot)
    requires n <= |d.rows| && e == ResetRows(d, n, selector, disable, now)
    requires forall i :: 0 <= i < n && Selects(selector, d.rows[i]) ==> SlotOfThreshold(d.rows[i]) != slot
    ensures SameOpen(d.incidents, e.incidents, slot)
    decreases n
  {
    hide AfterSource, SameOpen, Selects, SlotOfThreshold, ResetRow;
    if n == 0 {
      SameOpenItself(d.incidents, slot);
    } else {
      var previous := ResetRows(d, n - 1, selector, disable, now);
      ResetFrame(d, previous, n - 1, selector, disable, now, slot);
      ResetAllRows(d, n - 1, selector, disable, now);
      ResetRowFrame(previous, n - 1, selector, disable, now, slot);
      SameOpenTransitive(d.incidents, previous.incidents, e.incidents, slot);
    }
  }

  // ---------------------------------------------------------------- runs

  datatype Act =
    | Create(targetId: nat, source: Thresholds.Source, operator: Operator, warning: Option<real>,
             critical: Option<real>, enabled: bool)
    | Change(id: nat, edited: Threshold, now: Time)
    | SwitchOn(id: nat)
    | Evaluate(targetId: nat, readings: map<nat, real>, suppressed: bool, at: Time, now: Time)
    | Reset(selector: Selector, disable: bool, now: Time)
    | Remove(id: nat, now: Time)
    | Elsewhere(step: Step)

  /**
   * The desk, the next threshold id, and the thresholds whose open incident was deleted and that have
   * been neither evaluated nor reset since.
   */
  datatype Office = Office(desk: Desk, nextId: nat, stale: set<nat>)

  /** The thresholds whose open incident a step deletes. */
  function Orphans(d: Desk, step: Step): set<nat> {
    if step.Erase? && step.incidentId < |d.incidents| then
      set t | t in d.rows && OpenFor(d.incidents[step.incidentId], SlotOfThreshold(t)) :: t.id
    else {}
  }

  /** Everything else that writes incidents; SNMP readings only under the power supply's keys. */
  predicate NotAThreshold(step: Step) {
    step.Source? ==> step.key in UPS_KEYS
  }

  function IndexOf(rows: seq<Threshold>, id: nat): (i: int)
    ensures -1 <= i < |rows|
    ensures i >= 0 ==> rows[i].id == id
    ensures i < 0 ==> forall j :: 0 <= j < |rows| ==> rows[j].id != id
  {
    if rows == [] then -1
    else if rows[|rows| - 1].id == id then |rows| - 1
    else IndexOf(rows[..|rows| - 1], id)
  }

  /** Every threshold the selector picks is brought to rest and its incident resolved silently. */
  function Released(o: Office, selector: Selector, disable: bool, now: Time): Office {
    o.(desk := ResetRows(o.desk, |o.desk.rows|, selector, disable, now),
       stale := o.stale - Chosen(o.desk.rows, |o.desk.rows|, selector))
  }

  function WithRow(o: Office, i: nat, t: Threshold): Office
    requires i < |o.desk.rows|
  {
    o.(desk := o.desk.(rows := o.desk.rows[i := t]))
  }

  function WithoutRow(o: Office, i: nat): Office
    requires i < |o.desk.rows|
  {
    o.(desk := o.desk.(rows := o.desk.rows[..i] + o.desk.rows[i + 1..]))
  }

  function Acted(o: Office, act: Act, setting: int): Office {
    var d := o.desk;
    match act
    case Create(targetId, source, operator, warning, critical, enabled) =>
      if !ValidLimits(operator, warning, critical) then o
      else
        var t := Threshold(o.nextId, targetId, source, operator, warning, critical, enabled, Normal, None, None);
        Office(d.(rows := d.rows + [t]), o.nextId + 1, o.stale)
    case Change(id, edited, now) =>
      var i := IndexOf(d.rows, id);
      if i < 0 || !ValidLimits(edited.operator, edited.warning, edited.critical) then o
      else
        WithRow(Released(o, OneThreshold(id), false, now), i,
                edited.(id := id, targetId := d.rows[i].targetId, level := Normal, lastValue := None,
                        lastEvaluatedAt := None))
    case SwitchOn(id) =>
      var i := IndexOf(d.rows, id);
      if i < 0 || d.rows[i].enabled then o
      else WithRow(o, i, d.rows[i].(enabled := true, level := Normal, lastValue := None, lastEvaluatedAt := None))
    case Evaluate(targetId, readings, suppressed, at, now) =>
      o.(desk := EvaluatedRows(d, |d.rows|, targetId, readings, suppressed, at, now),
         stale := o.stale - Met(d.rows, |d.rows|, targetId, readings))
    case Reset(selector, disable, now) =>
      Released(o, selector, disable, now)
    case Remove(id, now) =>
      var i := IndexOf(d.rows, id);
      if i < 0 then o else WithoutRow(Released(o, OneThreshold(id), false, now), i)
    case Elsewhere(step) =>
      if !NotAThreshold(step) then o
      else
        var w := Next(World([], d.incidents, d.log), step, setting);
        o.(desk := d.(incidents := w.incidents, log := w.log), stale := o.stale + Orphans(d, step))
  }

  function Worked(acts: seq<Act>, setting: int): Office {
    if acts == [] then Office(Desk([], [], []), 0, {})
    else Acted(Worked(acts[..|acts| - 1], setting), acts[|acts| - 1], setting)
  }

  /** A threshold just created, changed or switched on says what it was given, is at rest and has met no reading. */
  predicate Fresh(t: Threshold) {
    t.level.Normal? && t.lastValue.None? && t.lastEvaluatedAt.None?
  }

  /**
   * What an administrator's edits do: a valid new threshold is appended under the next id, a valid change
   * replaces everything but id and target, switching on enables, and a removal takes the row away.
   */
  lemma EditsTakeEffect(o: Office, i: nat, edited: Threshold, now: Time, setting: int)
    requires i < |o.desk.rows| && IndexOf(o.desk.rows, o.desk.rows[i].id) == i
    requires ValidLimits(edited.operator, edited.warning, edited.critical)
    ensures var t := o.desk.rows[i];
            var created := Acted(o, Create(edited.targetId, edited.source, edited.operator, edited.warning,
                                           edited.critical, edited.enabled), setting);
            var changed := Acted(o, Act.Change(t.id, edited, now), setting).desk.rows;
            var on := Acted(o, SwitchOn(t.id), setting).desk.rows;
            var removed := Acted(o, Remove(t.id, now), setting).desk.rows;
            && |created.desk.rows| == |o.desk.rows| + 1 && created.nextId == o.nextId + 1
            && created.desk.rows[|o.desk.rows|] ==
               edited.(id := o.nextId, level := Normal, lastValue := None, lastEvaluatedAt := None)
            && |changed| == |o.desk.rows| && Fresh(changed[i]) && changed[i].id == t.id
            && changed[i].targetId == t.targetId && changed[i].source == edited.source
            && changed[i].operator == edited.operator && changed[i].warning == edited.warning
            && changed[i].critical == edited.critical && changed[i].enabled == edited.enabled
            && |on| == |o.desk.rows| && on[i].enabled && (!t.enabled ==> Fresh(on[i])) && (t.enabled ==> on[i] == t)
            && |removed| == |o.desk.rows| - 1
  {
    hide ResetRows, Chosen, EvaluatedRows, Met, AfterSource;
  }

  /** A threshold that is not enabled is at rest, and future thresholds have no incidents yet. */
  ghost predicate Orderly(o: Office) {
    && AllInStep(o.desk, o.stale)
    && (forall id :: id in o.stale ==> id < o.nextId)
    && (forall i :: 0 <= i < |o.desk.rows| ==>
          o.desk.rows[i].id < o.nextId && (!o.desk.rows[i].enabled ==> o.desk.rows[i].level.Normal?))
    && (forall targetId, id: nat :: id >= o.nextId ==>
        FindOpen(o.desk.incidents, SnmpSlot(targetId, SourceKey(id))) < 0)
  }

  lemma EvaluationKeepsFuture(o: Office, e: Desk, targetId: nat, readings: map<nat, real>, suppressed: bool, at: Time,
                              now: Time, target: nat, id: nat)
    requires Orderly(o) && id >= o.nextId
    requires e == EvaluatedRows(o.desk, |o.desk.rows|, targetId, readings, suppressed, at, now)
    ensures FindOpen(e.incidents, SnmpSlot(target, SourceKey(id))) < 0
  {
    FutureKeys(o, id);
    hide AllInStep, SourceKey, EvaluatedRows, Meets, FindOpen, SameOpen;
    EvaluationFrame(o.desk, e, |o.desk.rows|, targetId, readings, suppressed, at, now, SnmpSlot(target, SourceKey(id)));
    SameOpenSameLookup(o.desk.incidents, e.incidents, SnmpSlot(target, SourceKey(id)));
  }

  lemma EvaluateKeepsOrder(o: Office, targetId: nat, readings: map<nat, real>, suppressed: bool, at: Time, now: Time,
                           setting: int)
    requires Orderly(o)
    ensures Orderly(Acted(o, Evaluate(targetId, readings, suppressed, at, now), setting))
  {
    hide AllInStep, Met, SourceKey, EvaluatedRows, FindOpen;
    var d, n := o.desk, |o.desk.rows|;
    var e := EvaluatedRows(d, n, targetId, readings, suppressed, at, now);
    EvaluationKeepsInStep(d, o.stale, n, targetId, readings, suppressed, at, now);
    EvaluationRows(d, n, targetId, readings, suppressed, at, now);
    forall target, id: nat | id >= o.nextId ensures FindOpen(e.incidents, SnmpSlot(target, SourceKey(id))) < 0 {
      EvaluationKeepsFuture(o, e, targetId, readings, suppressed, at, now, target, id);
    }
  }

  lemma FutureKeys(o: Office, id: nat)
    requires Orderly(o) && id >= o.nextId
    ensures forall i :: 0 <= i < |o.desk.rows| ==> SourceKey(o.desk.rows[i].id) != SourceKey(id)
  {
    forall i | 0 <= i < |o.desk.rows| ensures SourceKey(o.desk.rows[i].id) != SourceKey(id) {
      KeysDistinct(o.desk.rows[i].id, id);
    }
  }

  lemma ResetKeepsFuture(o: Office, e: Desk, selector: Selector, disable: bool, now: Time, target: nat, id: nat)
    requires Orderly(o) && id >= o.nextId && e == ResetRows(o.desk, |o.desk.rows|, selector, disable, now)
    ensures FindOpen(e.incidents, SnmpSlot(target, SourceKey(id))) < 0
  {
    FutureKeys(o, id);
    hide AllInStep, SourceKey, ResetRows, Selects, FindOpen, SameOpen;
    ResetFrame(o.desk, e, |o.desk.rows|, selector, disable, now, SnmpSlot(target, SourceKey(id)));
    SameOpenSameLookup(o.desk.incidents, e.incidents, SnmpSlot(target, SourceKey(id)));
  }

  lemma ReleaseKeepsOrder(o: Office, selector: Selector, disable: bool, now: Time)
    requires Orderly(o)
    ensures Orderly(Released(o, selector, disable, now))
  {
    hide AllInStep, Chosen, SourceKey, ResetRows, FindOpen, Selects;
    var d, n := o.desk, |o.desk.rows|;
    var e := ResetRows(d, n, selector, disable, now);
    ResetKeepsInStep(d, o.stale, n, selector, disable, now);
    ResetAllRows(d, n, selector, disable, now);
    forall target, id: nat | id >= o.nextId ensures FindOpen(e.incidents, SnmpSlot(target, SourceKey(id))) < 0 {
      ResetKeepsFuture(o, e, selector, disable, now, target, id);
    }
  }

  /** A release keeps every threshold in its place, at rest if it was the one picked. */
  lemma ReleasedRow(o: Office, id: nat, now: Time, i: nat)
    requires i < |o.desk.rows|
    ensures var r := Released(o, OneThreshold(id), false, now);
            && |r.desk.rows| == |o.desk.rows|
            && r.desk.rows[i].id == o.desk.rows[i].id && r.desk.rows[i].targetId == o.desk.rows[i].targetId
            && (o.desk.rows[i].id == id ==> r.desk.rows[i].level.Normal?)
  {
    ResetAllRows(o.desk, |o.desk.rows|, OneThreshold(id), false, now);
  }

  /** Work that leaves the incidents of all thresholds, present and future, as they were. */
  lemma UntouchedKeepsOrder(o: Office, after: Office)
    requires Orderly(o)
    requires after.desk.rows == o.desk.rows && after.nextId == o.nextId && after.stale == o.stale
    requires UniqueOpen(after.desk.incidents)
    requires forall target, id: nat :: SameOpen(o.desk.incidents, after.desk.incidents, SnmpSlot(target, SourceKey(id)))
    ensures Orderly(after)
  {
    hide SameOpen, UniqueOpen, SourceKey;
    var before, incidents := o.desk.incidents, after.desk.incidents;
    forall i | 0 <= i < |o.desk.rows| ensures Tells(o.desk.rows[i], incidents, o.stale) {
      assert Tells(o.desk.rows[i], before, o.stale);
      SameOpenSameLookup(before, incidents, SnmpSlot(o.desk.rows[i].targetId, SourceKey(o.desk.rows[i].id)));
    }
    forall target, id: nat | id >= o.nextId ensures FindOpen(incidents, SnmpSlot(target, SourceKey(id))) < 0 {
      SameOpenSameLookup(before, incidents, SnmpSlot(target, SourceKey(id)));
    }
  }

  lemma ElsewhereKeepsOrder(o: Office, step: Step, setting: int)
    requires Orderly(o) && NotAThreshold(step) && !step.Erase?
    ensures Orderly(Acted(o, Elsewhere(step), setting))
  {
    var before := o.desk.incidents;
    var w := World([], before, o.desk.log);
    var after := Acted(o, Elsewhere(step), setting);
    assert after.stale == o.stale;
    if step.Administrative? {
      SilentResolveKeepsOthers(before, step.targetId, step.checkId, step.alsoCheck, step.detach, step.now,
                               AvailabilitySlot(0));
    } else if !step.ResetMarker? {
      StepOneRow(w, step, setting);
      UniqueAfterOneRow(before, Effect(w, step, setting), SlotOf(step));
    }
    forall target, id: nat ensures SameOpen(before, after.desk.incidents, SnmpSlot(target, SourceKey(id))) {
      var slot := SnmpSlot(target, SourceKey(id));
      if step.Administrative? {
        SilentResolveKeepsOthers(before, step.targetId, step.checkId, step.alsoCheck, step.detach, step.now, slot);
      } else if !step.ResetMarker? {
        KeysDistinct(id, id);
        OtherSlotsUntouched(before, Effect(w, step, setting), SlotOf(step), slot);
      } else {
        SameOpenItself(before, slot);
      }
    }
    UntouchedKeepsOrder(o, after);
  }

  /** Deleting an incident strands the threshold it was open for, and no other. */
  lemma EraseKeepsOrder(o: Office, step: Step, setting: int)
    requires Orderly(o) && step.Erase?
    ensures Orderly(Acted(o, Elsewhere(step), setting))
  {
    hide SourceKey;
    var before := o.desk.incidents;
    var after := AfterErase(before, step.incidentId);
    EraseKeepsUnique(before, step.incidentId);
    forall i | 0 <= i < |o.desk.rows| ensures Tells(o.desk.rows[i], after, o.stale + Orphans(o.desk, step)) {
      ErasedTells(o, i, step);
    }
    forall target, id: nat | id >= o.nextId ensures FindOpen(after, SnmpSlot(target, SourceKey(id))) < 0 {
      EraseKeepsOthers(before, step.incidentId, SnmpSlot(target, SourceKey(id)));
      SameOpenSameLookup(before, after, SnmpSlot(target, SourceKey(id)));
    }
  }

  lemma ErasedTells(o: Office, i: nat, step: Step)
    requires Orderly(o) && step.Erase? && i < |o.desk.rows|
    ensures Tells(o.desk.rows[i], AfterErase(o.desk.incidents, step.incidentId), o.stale + Orphans(o.desk, step))
  {
    hide SourceKey;
    var t, before, slot := o.desk.rows[i], o.desk.incidents, SlotOfThreshold(o.desk.rows[i]);
    assert Tells(t, before, o.stale);
    EraseKeepsUnique(before, step.incidentId);
    if step.incidentId < |before| && OpenFor(before[step.incidentId], slot) {
      assert t in o.desk.rows && t.id in Orphans(o.desk, step);
    } else {
      EraseKeepsOthers(before, step.incidentId, slot);
      SameOpenSameLookup(before, AfterErase(before, step.incidentId), slot);
      assert t.id !in Orphans(o.desk, step);
    }
  }

  /** Changing anything but identity and level of a threshold at rest is harmless. */
  lemma EditAtRest(o: Office, i: nat, t: Threshold)
    requires Orderly(o) && i < |o.desk.rows|
    requires o.desk.rows[i].level.Normal? && t.level.Normal?
    requires t.id == o.desk.rows[i].id && t.targetId == o.desk.rows[i].targetId
    ensures Orderly(WithRow(o, i, t))
  {
    assert Tells(o.desk.rows[i], o.desk.incidents, o.stale);
    assert forall j :: 0 <= j < |o.desk.rows| && j != i ==> Tells(o.desk.rows[j], o.desk.incidents, o.stale);
  }

  lemma CreateKeepsOrder(o: Office, t: Threshold)
    requires Orderly(o) && t.id == o.nextId && t.level.Normal?
    ensures Orderly(Office(o.desk.(rows := o.desk.rows + [t]), o.nextId + 1, o.stale))
  {
    assert FindOpen(o.desk.incidents, SnmpSlot(t.targetId, SourceKey(o.nextId))) < 0;
    assert forall j :: 0 <= j < |o.desk.rows| ==> Tells(o.desk.rows[j], o.desk.incidents, o.stale);
  }

  lemma RemoveKeepsOrder(o: Office, i: nat)
    requires Orderly(o) && i < |o.desk.rows|
    ensures Orderly(WithoutRow(o, i))
  {
    var rows := o.desk.rows[..i] + o.desk.rows[i + 1..];
    forall j | 0 <= j < |rows|
      ensures rows[j] == o.desk.rows[if j < i then j else j + 1] && Tells(rows[j], o.desk.incidents, o.stale)
    {
      assert Tells(o.desk.rows[if j < i then j else j + 1], o.desk.incidents, o.stale);
    }
  }

  lemma ChangeKeepsOrder(o: Office, id: nat, edited: Threshold, now: Time, setting: int)
    requires Orderly(o)
    ensures Orderly(Acted(o, Act.Change(id, edited, now), setting))
  {
    hide Orderly, ResetRows, Chosen, Released, WithRow;
    var i := IndexOf(o.desk.rows, id);
    if i >= 0 && ValidLimits(edited.operator, edited.warning, edited.critical) {
      ReleaseKeepsOrder(o, OneThreshold(id), false, now);
      ReleasedRow(o, id, now, i);
      EditAtRest(Released(o, OneThreshold(id), false, now), i,
                 edited.(id := id, targetId := o.desk.rows[i].targetId, level := Normal, lastValue := None,
                         lastEvaluatedAt := None));
    }
  }

  lemma DeleteKeepsOrder(o: Office, id: nat, now: Time, setting: int)
    requires Orderly(o)
    ensures Orderly(Acted(o, Remove(id, now), setting))
  {
    hide Orderly, ResetRows, Chosen, Released, WithoutRow;
    var i := IndexOf(o.desk.rows, id);
    if i >= 0 {
      ReleaseKeepsOrder(o, OneThreshold(id), false, now);
      ReleasedRow(o, id, now, i);
      RemoveKeepsOrder(Released(o, OneThreshold(id), false, now), i);
    }
  }

  lemma {:induction false} ActKeepsOrder(o: Office, act: Act, setting: int)
    requires Orderly(o)
    ensures Orderly(Acted(o, act, setting))
  {
    var d := o.desk;
    hide Orderly;
    match act
    case Create(targetId, source, operator, warning, critical, enabled) =>
      if ValidLimits(operator, warning, critical) {
        CreateKeepsOrder(o,
                         Threshold(o.nextId, targetId, source, operator, warning, critical, enabled, Normal, None,
                                   None));
      }
    case Change(id, edited, now) =>
      ChangeKeepsOrder(o, id, edited, now, setting);
    case SwitchOn(id) =>
      SwitchOnKeepsOrder(o, id, setting);
    case Evaluate(targetId, readings, suppressed, at, now) =>
      EvaluateKeepsOrder(o, targetId, readings, suppressed, at, now, setting);
    case Reset(selector, disable, now) =>
      ReleaseKeepsOrder(o, selector, disable, now);
    case Remove(id, now) =>
      DeleteKeepsOrder(o, id, now, setting);
    case Elsewhere(step) =>
      if step.Erase? {
        EraseKeepsOrder(o, step, setting);
      } else if NotAThreshold(step) {
        ElsewhereKeepsOrder(o, step, setting);
      }
  }

  lemma SwitchOnKeepsOrder(o: Office, id: nat, setting: int)
    requires Orderly(o)
    ensures Orderly(Acted(o, SwitchOn(id), setting))
  {
    var d := o.desk;
    var i := IndexOf(d.rows, id);
    if i >= 0 && !d.rows[i].enabled {
      EditAtRest(o, i, d.rows[i].(enabled := true, level := Normal, lastValue := None, lastEvaluatedAt := None));
    }
  }

  lemma {:induction false} RunOrderly(acts: seq<Act>, setting: int)
    ensures Orderly(Worked(acts, setting))
  {
    if acts != [] {
      RunOrderly(acts[..|acts| - 1], setting);
      ActKeepsOrder(Worked(acts[..|acts| - 1], setting), acts[|acts| - 1], setting);
    }
  }

  /**
   * Across any run, a threshold is at normal exactly when no SNMP incident with its key is open, at
   * warning exactly when a warning one is and at critical exactly when a critical one is, if and only if
   * its incident has not been deleted since its last evaluation or reset; until then a deleted one
   * leaves the level with nothing open.
   */
  lemma LevelsMatchIncidents(acts: seq<Act>, setting: int, t: Threshold)
    requires t in Worked(acts, setting).desk.rows
    ensures var o := Worked(acts, setting);
            var incidents := o.desk.incidents;
            var i := FindOpen(incidents, SlotOfThreshold(t));
            && (t.id !in o.stale <==>
                  && (t.level.Normal? <==> i < 0)
                  && (t.level.AtWarning? <==> i >= 0 && incidents[i].severity == Some(Warning))
                  && (t.level.AtCritical? <==> i >= 0 && incidents[i].severity == Some(Critical)))
            && (t.id in o.stale ==> !t.level.Normal? && i < 0)
            && (forall j, k :: 0 <= j < k < |incidents| && OpenFor(incidents[j], SlotOfThreshold(t)) ==>
                  !OpenFor(incidents[k], SlotOfThreshold(t)))
  {
    RunOrderly(acts, setting);
    var o := Worked(acts, setting);
    var i :| 0 <= i < |o.desk.rows| && o.desk.rows[i] == t;
    assert Tells(t, o.desk.incidents, o.stale);
  }

  /**
   * In any reachable state, an evaluation with a fresh reading of an enabled threshold leaves a critical
   * incident open exactly when the reading is past the critical limit, a warning one exactly when it is
   * past the warning limit only, and none exactly when it is past neither; a limit that is not set is
   * never passed.
   */
  lemma EvaluationDecides(acts: seq<Act>, setting: int, n: nat, readings: map<nat, real>, suppressed: bool, at: Time,
                          now: Time)
    requires n < |Worked(acts, setting).desk.rows|
    requires var t := Worked(acts, setting).desk.rows[n]; t.enabled && t.id in readings
    ensures var o := Worked(acts, setting);
            var t := o.desk.rows[n];
            var incidents := Acted(o, Evaluate(t.targetId, readings, suppressed, at, now), setting).desk.incidents;
            var i, reading := FindOpen(incidents, SnmpSlot(t.targetId, "threshold:" + Decimal(t.id))), readings[t.id];
            var pastWarning := t.warning.Some? &&
              (if t.operator.Gt? then reading > t.warning.value else reading < t.warning.value);
            var pastCritical := t.critical.Some? &&
              (if t.operator.Gt? then reading > t.critical.value else reading < t.critical.value);
            && (i >= 0 && incidents[i].severity == Some(Critical) <==> pastCritical)
            && (i >= 0 && incidents[i].severity == Some(Warning) <==> pastWarning && !pastCritical)
            && (i < 0 <==> !pastWarning && !pastCritical)
  {
    RunOrderly(acts, setting);
    var o := Worked(acts, setting);
    hide Worked, SourceKey, EvaluatedRows, Met, FindOpen, UniqueOpen;
    var t, d, rows := o.desk.rows[n], o.desk, |o.desk.rows|;
    EvaluationKeepsInStep(d, o.stale, rows, t.targetId, readings, suppressed, at, now);
    EvaluationRows(d, rows, t.targetId, readings, suppressed, at, now);
    MetIncludes(d.rows, rows, t.targetId, readings, n);
    assert SourceKey(t.id) == "threshold:" + Decimal(t.id) by {
      SourceKeyIs(t.id);
    }
    var e := EvaluatedRows(d, rows, t.targetId, readings, suppressed, at, now);
    assert Tells(e.rows[n], e.incidents, o.stale - Met(d.rows, rows, t.targetId, readings));
  }

  lemma SourceKeyIs(id: nat)
    ensures SourceKey(id) == "threshold:" + Decimal(id)
  {
  }

  lemma {:induction false} MetIncludes(rows: seq<Threshold>, n: nat, targetId: nat, readings: map<nat, real>, i: nat)
    requires i < n <= |rows| && Meets(rows[i], targetId, readings)
    ensures rows[i].id in Met(rows, n, targetId, readings)
  {
    if i < n - 1 {
      MetIncludes(rows, n - 1, targetId, readings, i);
    }
  }

  /** Deleting the open incident of any threshold, in any reachable state, leaves its level with nothing open. */
  lemma DeletionStrandsLevel(acts: seq<Act>, setting: int, t: Threshold)
    requires t in Worked(acts, setting).desk.rows
    requires FindOpen(Worked(acts, setting).desk.incidents, SlotOfThreshold(t)) >= 0
    ensures var o := Worked(acts, setting);
            var after := Acted(o, Elsewhere(Erase(FindOpen(o.desk.incidents, SlotOfThreshold(t)))), setting);
            && t in after.desk.rows && !t.level.Normal?
            && FindOpen(after.desk.incidents, SlotOfThreshold(t)) < 0
  {
    hide Worked, Acted, SourceKey;
    LevelsMatchIncidents(acts, setting, t);
    RunOrderly(acts, setting);
    var o := Worked(acts, setting);
    EraseKeepsUnique(o.desk.incidents, FindOpen(o.desk.incidents, SlotOfThreshold(t)));
    ErasedDesk(o, FindOpen(o.desk.incidents, SlotOfThreshold(t)), setting);
  }

  lemma ErasedDesk(o: Office, id: nat, setting: int)
    ensures var after := Acted(o, Elsewhere(Erase(id)), setting);
            after.desk.rows == o.desk.rows && after.desk.incidents == AfterErase(o.desk.incidents, id)
  {
  }
}
