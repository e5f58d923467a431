/**
 * Secondary checks measured in flight while administrators edit them.
 *
 * A check is measured with the configuration it had when it was loaded; the result is saved later,
 * under whatever version the check has by then.  For the proofs, `recorded` remembers which signature
 * each version of each check stood for, `owners` the target of each check, and `histories` the addresses
 * each target has had, the present one last.
 */
module CheckVersions {
  import opened Basics
  import opened Incidents

  datatype CheckConfig = CheckConfig(targetId: nat, version: nat, signature: Signature, enabled: bool)

  /** Where a check of a target asks: at the address its target then had, or at its own. */
  datatype Place = Place(target: nat, era: nat, address: Option<nat>)

  /**
   * A check on its way: `expected` is what the scheduler passes on, `measured`, `signature` and `place` what
   * it really used.
   */
  datatype Flight = Flight(checkId: nat, expected: nat, measured: nat, signature: Signature, place: Place)

  /** A stored row and what it was measured under. */
  datatype Measured = Measured(row: TargetCheckResult, version: nat, signature: Signature, place: Place)

  function MeasuredBy(row: TargetCheckResult, flight: Flight): Measured {
    Measured(row, flight.measured, flight.signature, flight.place)
  }

  datatype Fleet = Fleet(
    checks: map<nat, CheckConfig>,
    everUsed: set<nat>,
    flights: seq<Flight>,
    stored: seq<Measured>,
    incidents: seq<Incident>,
    recorded: map<(nat, nat), Signature>,
    owners: map<nat, nat>,
    histories: map<nat, seq<nat>>)

  datatype Move =
    | Add(checkId: nat, targetId: nat, signature: Signature)
    | Edit(checkId: nat, newSignature: Signature)
    | Readdress(targetId: nat, address: nat)
    | Toggle(checkId: nat, now: Time)
    | Delete(checkId: nat, now: Time)
    | Launch(checkId: nat)
    | Land(flight: nat, status: CheckStatus, working: bool, suppressed: bool, at: Time, now: Time)

  function Rows(stored: seq<Measured>): (r: seq<TargetCheckResult>)
    ensures |r| == |stored| && forall i :: 0 <= i < |stored| ==> r[i] == stored[i].row
  {
    seq(|stored|, i requires 0 <= i < |stored| => stored[i].row)
  }

  /** The addresses of a target so far; a target never edited has had one. */
  function History(f: Fleet, target: nat): (r: seq<nat>)
    ensures target !in f.histories ==> r == [0]
  {
    if target in f.histories then f.histories[target] else [0]
  }

  /** Where a check launched now asks. */
  function PlaceOf(f: Fleet, check: CheckConfig): Place {
    var history := History(f, check.targetId);
    if history == [] then Place(check.targetId, 0, None)
    else Place(check.targetId, |history| - 1,
               if check.signature.followsTarget then Some(history[|history| - 1]) else None)
  }

  /** `check.config_version or 1` */
  function VersionOrOne(version: nat): nat {
    if version == 0 then 1 else version
  }

  function Reconfigured(f: Fleet, id: nat, config: CheckConfig): Fleet {
    f.(checks := f.checks[id := config], recorded := f.recorded[(id, config.version) := config.signature])
  }

  /** The save of a landed result, as `SaveTargetCheckResult` makes it for a secondary check. */
  function Landed(f: Fleet, flight: Flight, status: CheckStatus, working: bool, suppressed: bool,
                  at: Time, now: Time, setting: int): Fleet
  {
    var id := flight.checkId;
    if id !in f.checks || f.checks[id].version != flight.expected || !f.checks[id].enabled || !working then f
    else
      var check := f.checks[id];
      var stored := f.stored + [MeasuredBy(TargetCheckResult(id, check.version, status, at), flight)];
      var confirmed := ConfirmedIn(CheckStatusesOf(Rows(stored), id, check.version), setting);
      f.(stored := stored,
         incidents := AfterResult(f.incidents, CheckSlot(check.targetId, id), status, confirmed, setting,
                                  suppressed, at, now).rows)
  }

  /** One move; a move about a check or flight that does not exist changes nothing. */
  function Moved(f: Fleet, move: Move, setting: int): Fleet {
    match move
    case Add(id, target, signature) =>
      if id in f.everUsed then f
      else
        Reconfigured(f.(everUsed := f.everUsed + {id}, owners := f.owners[id := target]), id,
                     CheckConfig(target, 1, signature, true))
    case Edit(id, signature) =>
      if id !in f.checks || f.checks[id].signature == signature then f
      else Reconfigured(f, id, f.checks[id].(version := f.checks[id].version + 1, signature := signature))
    case Readdress(target, address) =>
      var history := History(f, target);
      if history != [] && history[|history| - 1] == address then f
      else f.(histories := f.histories[target := history + [address]])
    case Toggle(id, now) =>
      if id !in f.checks then f
      else
        var check := f.checks[id];
        var g := Reconfigured(f, id, check.(version := check.version + 1, enabled := !check.enabled));
        if check.enabled then g.(incidents := AfterSilentResolve(f.incidents, check.targetId, id, true, false, now))
          else g
    case Delete(id, now) =>
      if id !in f.checks then f
      else f.(checks := f.checks - {id},
              incidents := AfterSilentResolve(f.incidents, f.checks[id].targetId, id, true, true, now))
    case Launch(id) =>
      if id !in f.checks then f
      else
        var check := f.checks[id];
        f.(flights := f.flights
           + [Flight(id, VersionOrOne(check.version), check.version, check.signature, PlaceOf(f, check))])
    case Land(i, status, working, suppressed, at, now) =>
      if i >= |f.flights| then f
      else Landed(f.(flights := f.flights[..i] + f.flights[i + 1..]), f.flights[i], status, working, suppressed, at,
                  now, setting)
  }

  function Flown(moves: seq<Move>, setting: int): Fleet {
    if moves == [] then Fleet(map[], {}, [], [], [], map[], map[], map[])
    else Moved(Flown(moves[..|moves| - 1], setting), moves[|moves| - 1], setting)
  }

  // ---------------------------------------------------------------- what an administrator's moves do

  /** An open incident of the check, or of its certificate. */
  predicate OpenOf(row: Incident, targetId: nat, checkId: nat) {
    row.status.Open? && row.targetId == targetId && row.checkId == Some(checkId)
      && (row.kind.Check? || row.kind.CheckTls?)
  }

  /**
   * An edit that changes the signature makes the next version and touches no incident.  A toggle makes the next
   * version too, and switching off resolves what is open of the check.  A removal takes the check away, resolves
   * what is open of it and detaches that.  None of them touches another check, a result or a flight.
   */
  lemma MovesDecide(f: Fleet, id: nat, signature: Signature, now: Time, setting: int)
    requires id in f.checks
    ensures var c := f.checks[id];
            var edited, toggled, gone :=
              Moved(f, Edit(id, signature), setting), Moved(f, Toggle(id, now), setting),
              Moved(f, Delete(id, now), setting);
            && edited.incidents == f.incidents && |toggled.incidents| == |f.incidents| == |gone.incidents|
            && (signature == c.signature ==> edited.checks == f.checks)
            && (signature != c.signature ==>
                  edited.checks == f.checks[id := CheckConfig(c.targetId, c.version + 1, signature, c.enabled)])
            && toggled.checks == f.checks[id := CheckConfig(c.targetId, c.version + 1, c.signature, !c.enabled)]
            && id !in gone.checks
            && (forall k :: k in f.checks && k != id ==> k in gone.checks && gone.checks[k] == f.checks[k])
            && (forall i :: 0 <= i < |f.incidents| ==>
                  var row := f.incidents[i];
                  && toggled.incidents[i] == (if c.enabled && OpenOf(row, c.targetId, id)
                                              then row.(status := Resolved, resolvedAt := Some(now)) else row)
                  && gone.incidents[i] == (if OpenOf(row, c.targetId, id)
                                           then row.(status := Resolved, resolvedAt := Some(now), checkId := None)
                                           else row))
            && edited.stored == toggled.stored == gone.stored == f.stored
            && edited.flights == toggled.flights == gone.flights == f.flights
  {
  }

  // ---------------------------------------------------------------- what every run keeps

  ghost predicate FlightTrue(f: Fleet, flight: Flight) {
    && flight.measured >= 1 && flight.expected == flight.measured
    && (flight.checkId, flight.measured) in f.recorded
    && f.recorded[(flight.checkId, flight.measured)] == flight.signature
  }

  ghost predicate StoredTrue(f: Fleet, m: Measured) {
    && m.row.configVersion == m.version
    && (m.row.checkId, m.version) in f.recorded
    && f.recorded[(m.row.checkId, m.version)] == m.signature
  }

  ghost predicate ChecksTrue(f: Fleet) {
    && (forall id :: id in f.checks ==>
          && id in f.everUsed && f.checks[id].version >= 1
          && (id, f.checks[id].version) in f.recorded
          && f.recorded[(id, f.checks[id].version)] == f.checks[id].signature)
    && (forall key :: key in f.recorded ==>
          key.0 in f.everUsed && (key.0 in f.checks ==> key.1 <= f.checks[key.0].version))
  }

  /** Later results of a check never carry an older version. */
  ghost predicate VersionsAscend(stored: seq<Measured>) {
    forall i, j :: 0 <= i < j < |stored| && stored[i].row.checkId == stored[j].row.checkId ==>
      stored[i].version <= stored[j].version
  }

  ghost predicate Consistent(f: Fleet) {
    && ChecksTrue(f)
    && (forall flight :: flight in f.flights ==> FlightTrue(f, flight))
    && (forall m :: m in f.stored ==> StoredTrue(f, m))
    && VersionsAscend(f.stored)
  }

  /** Recording a version nobody has seen yet leaves what is known about flights and rows alone. */
  lemma ReconfiguredKeepsConsistent(f: Fleet, id: nat, config: CheckConfig)
    requires Consistent(f) && id in f.everUsed
    requires config.version >= 1 && (id in f.checks ==> config.version > f.checks[id].version)
    requires id !in f.checks ==> forall key :: key in f.recorded ==> key.0 != id
    ensures Consistent(Reconfigured(f, id, config))
  {
    var g := Reconfigured(f, id, config);
    assert (id, config.version) !in f.recorded;
    assert forall key :: key in f.recorded ==> key in g.recorded && g.recorded[key] == f.recorded[key];
    forall flight | flight in f.flights ensures FlightTrue(g, flight) {
      assert FlightTrue(f, flight);
    }
    forall m | m in f.stored ensures StoredTrue(g, m) {
      assert StoredTrue(f, m);
    }
  }

  lemma LandedKeepsConsistent(f: Fleet, flight: Flight, status: CheckStatus, working: bool, suppressed: bool,
                              at: Time, now: Time, setting: int)
    requires Consistent(f) && FlightTrue(f, flight)
    ensures Consistent(Landed(f, flight, status, working, suppressed, at, now, setting))
  {
    var g := Landed(f, flight, status, working, suppressed, at, now, setting);
    if g != f {
      forall m | m in g.stored ensures StoredTrue(g, m) {
        if m in f.stored {
          assert StoredTrue(f, m);
        }
      }
      forall i | 0 <= i < |f.stored| && f.stored[i].row.checkId == flight.checkId
        ensures f.stored[i].version <= flight.measured
      {
        assert f.stored[i] in f.stored && StoredTrue(f, f.stored[i]);
      }
    }
  }

  /** Dropping a check, or touching only incidents, is harmless. */
  lemma FewerChecksConsistent(f: Fleet, g: Fleet)
    requires Consistent(f)
    requires g.everUsed == f.everUsed && g.recorded == f.recorded && g.stored == f.stored
    requires forall flight :: flight in g.flights ==> flight in f.flights
    requires forall id :: id in g.checks ==> id in f.checks && g.checks[id] == f.checks[id]
    ensures Consistent(g)
  {
    assert forall flight :: flight in g.flights ==> FlightTrue(f, flight) && FlightTrue(g, flight);
    assert forall m :: m in g.stored ==> StoredTrue(f, m) && StoredTrue(g, m);
  }

  lemma AddKeepsConsistent(f: Fleet, id: nat, target: nat, signature: Signature, setting: int)
    requires Consistent(f)
    ensures Consistent(Moved(f, Add(id, target, signature), setting))
  {
    if id !in f.everUsed {
      var g := f.(everUsed := f.everUsed + {id}, owners := f.owners[id := target]);
      assert forall flight :: flight in g.flights ==> FlightTrue(f, flight) && FlightTrue(g, flight);
      assert forall m :: m in g.stored ==> StoredTrue(f, m) && StoredTrue(g, m);
      ReconfiguredKeepsConsistent(g, id, CheckConfig(target, 1, signature, true));
    }
  }

  lemma CheckIsUsed(f: Fleet, id: nat)
    requires Consistent(f) && id in f.checks
    ensures id in f.everUsed && f.checks[id].version >= 1
  {
  }

  lemma EditKeepsConsistent(f: Fleet, id: nat, signature: Signature, setting: int)
    requires Consistent(f)
    ensures Consistent(Moved(f, Edit(id, signature), setting))
  {
    hide Consistent, Reconfigured;
    if id in f.checks {
      CheckIsUsed(f, id);
      ReconfiguredKeepsConsistent(f, id, f.checks[id].(version := f.checks[id].version + 1, signature := signature));
    }
  }

  lemma ToggleKeepsConsistent(f: Fleet, id: nat, now: Time, setting: int)
    requires Consistent(f)
    ensures Consistent(Moved(f, Toggle(id, now), setting))
  {
    hide Consistent;
    if id in f.checks {
      var check := f.checks[id];
      var config := check.(version := check.version + 1, enabled := !check.enabled);
      CheckIsUsed(f, id);
      ReconfiguredKeepsConsistent(f, id, config);
      FewerChecksConsistent(Reconfigured(f, id, config), Moved(f, Toggle(id, now), setting));
    }
  }

  lemma DeleteKeepsConsistent(f: Fleet, id: nat, now: Time, setting: int)
    requires Consistent(f)
    ensures Consistent(Moved(f, Delete(id, now), setting))
  {
    FewerChecksConsistent(f, Moved(f, Delete(id, now), setting));
  }

  lemma LaunchKeepsConsistent(f: Fleet, id: nat, setting: int)
    requires Consistent(f)
    ensures Consistent(Moved(f, Launch(id), setting))
  {
    var g := Moved(f, Launch(id), setting);
    assert forall flight :: flight in f.flights ==> FlightTrue(f, flight) && FlightTrue(g, flight);
    assert forall m :: m in g.stored ==> StoredTrue(f, m) && StoredTrue(g, m);
  }

  lemma LandKeepsConsistent(f: Fleet, move: Move, setting: int)
    requires Consistent(f) && move.Land?
    ensures Consistent(Moved(f, move, setting))
  {
    var i := move.flight;
    if i < |f.flights| {
      var g := f.(flights := f.flights[..i] + f.flights[i + 1..]);
      FewerChecksConsistent(f, g);
      assert f.flights[i] in f.flights && FlightTrue(f, f.flights[i]) && FlightTrue(g, f.flights[i]);
      LandedKeepsConsistent(g, f.flights[i], move.status, move.working, move.suppressed, move.at, move.now, setting);
    }
  }

  lemma {:induction false} MoveKeepsConsistent(f: Fleet, move: Move, setting: int)
    requires Consistent(f)
    ensures Consistent(Moved(f, move, setting))
  {
    match move
    case Add(id, target, signature) => AddKeepsConsistent(f, id, target, signature, setting);
    case Edit(id, signature) => EditKeepsConsistent(f, id, signature, setting);
    case Readdress(_, _) => FewerChecksConsistent(f, Moved(f, move, setting));
    case Toggle(id, now) => ToggleKeepsConsistent(f, id, now, setting);
    case Delete(id, now) => DeleteKeepsConsistent(f, id, now, setting);
    case Launch(id) => LaunchKeepsConsistent(f, id, setting);
    case Land(_, _, _, _, _, _) => LandKeepsConsistent(f, move, setting);
  }

  lemma {:induction false} RunConsistent(moves: seq<Move>, setting: int)
    ensures Consistent(Flown(moves, setting))
  {
    if moves != [] {
      RunConsistent(moves[..|moves| - 1], setting);
      MoveKeepsConsistent(Flown(moves[..|moves| - 1], setting), moves[|moves| - 1], setting);
    }
  }

  /**
   * However edits and in-flight checks interleave, a stored result is stamped with the version it
   * was measured under, and results with one stamp were measured under one signature.
   */
  lemma StampsAreTrue(moves: seq<Move>, setting: int)
    ensures var f := Flown(moves, setting);
            && (forall m :: m in f.stored ==> m.row.configVersion == m.version)
            && (forall m, n :: m in f.stored && n in f.stored && m.row.checkId == n.row.checkId ==>
                  m.row.configVersion == n.row.configVersion ==> m.signature == n.signature)
  {
    RunConsistent(moves, setting);
    assert forall m :: m in Flown(moves, setting).stored ==> StoredTrue(Flown(moves, setting), m);
  }

  // ---------------------------------------------------------------- what opens a check incident

  /** Everything ever stored for one check, oldest first. */
  function StoredFor(stored: seq<Measured>, id: nat): (r: seq<Measured>)
    ensures forall m :: m in r ==> m in stored && m.row.checkId == id
  {
    if stored == [] then []
    else StoredFor(stored[..|stored| - 1], id)
         + if stored[|stored| - 1].row.checkId == id then [stored[|stored| - 1]] else []
  }

  /**
   * The last `k` results of the check, whatever their stamp, are DOWN and measured under this version and
   * signature.
   */
  ghost predicate LastAllDown(stored: seq<Measured>, id: nat, k: nat, version: nat, signature: Signature) {
    var mine := StoredFor(stored, id);
    && |mine| >= k
    && forall i :: |mine| - k <= i < |mine| ==>
         mine[i].row.status.Down? && mine[i].version == version && mine[i].signature == signature
  }

  /** `statuses` are those of the last results in `mine`, the only ones of version `v`. */
  ghost predicate NewestTail(mine: seq<Measured>, statuses: seq<CheckStatus>, v: nat) {
    && |statuses| <= |mine|
    && (forall i :: 0 <= i < |mine| - |statuses| ==> mine[i].version < v)
    && (forall i :: |mine| - |statuses| <= i < |mine| ==>
          mine[i].version == v && mine[i].row.status == statuses[i - (|mine| - |statuses|)])
  }

  lemma TailGrows(mine: seq<Measured>, statuses: seq<CheckStatus>, m: Measured, v: nat)
    requires NewestTail(mine, statuses, v)
    ensures m.version == v ==> NewestTail(mine + [m], statuses + [m.row.status], v)
    ensures m.version < v && (forall x :: x in mine ==> x.version < v) ==> NewestTail(mine + [m], statuses, v)
  {
    if statuses != [] {
      assert mine[|mine| - 1] in mine;
    }
  }

  lemma {:induction false} NewestVersionIsTail(stored: seq<Measured>, id: nat, v: nat)
    requires VersionsAscend(stored)
    requires forall m :: m in stored ==> m.row.configVersion == m.version
    requires forall m :: m in stored && m.row.checkId == id ==> m.version <= v
    ensures NewestTail(StoredFor(stored, id), CheckStatusesOf(Rows(stored), id, v), v)
  {
    if stored != [] {
      var before, last := stored[..|stored| - 1], stored[|stored| - 1];
      NewestVersionIsTail(before, id, v);
      assert Rows(stored)[..|stored| - 1] == Rows(before);
      var mine, statuses := StoredFor(before, id), CheckStatusesOf(Rows(before), id, v);
      assert mine + [] == mine && statuses + [] == statuses;
      assert last in stored;
      if last.row.checkId == id {
        forall m | m in mine && last.version < v ensures m.version < v {
          var i :| 0 <= i < |before| && before[i] == m;
          assert stored[i] == m && stored[|stored| - 1] == last;
        }
        TailGrows(mine, statuses, last, v);
      }
    }
  }

  /** Within such a tail, "the last k statuses" and "the last k results" are the same thing. */
  lemma TailConfirms(mine: seq<Measured>, statuses: seq<CheckStatus>, v: nat, signature: Signature, setting: int)
    requires NewestTail(mine, statuses, v)
    requires forall m :: m in mine && m.version == v ==> m.signature == signature
    ensures ConfirmedIn(statuses, setting) <==>
            |mine| >= Window(setting)
            && forall i :: |mine| - Window(setting) <= i < |mine| ==>
                 mine[i].row.status.Down? && mine[i].version == v && mine[i].signature == signature
  {
    var k, shift := Window(setting), |mine| - |statuses|;
    ConfirmedIsTail(statuses, setting);
    assert shift > 0 ==> mine[shift - 1].version < v;
    assert forall i :: 0 <= i < |statuses| ==> statuses[i] == mine[i + shift].row.status;
    if ConfirmedIn(statuses, setting) {
      forall i | |mine| - k <= i < |mine|
        ensures mine[i].row.status.Down? && mine[i].version == v && mine[i].signature == signature
      {
        assert statuses[i - shift].Down? && mine[i] in mine;
      }
    }
  }

  /** The confirmation query of a consistent fleet asks about the last k results of the check. */
  lemma StoredConfirms(f: Fleet, id: nat, setting: int)
    requires Consistent(f) && id in f.checks
    ensures ConfirmedIn(CheckStatusesOf(Rows(f.stored), id, f.checks[id].version), setting) <==>
            LastAllDown(f.stored, id, Window(setting), f.checks[id].version, f.checks[id].signature)
  {
    assert forall m :: m in f.stored ==> StoredTrue(f, m);
    NewestVersionIsTail(f.stored, id, f.checks[id].version);
    TailConfirms(StoredFor(f.stored, id), CheckStatusesOf(Rows(f.stored), id, f.checks[id].version),
                 f.checks[id].version, f.checks[id].signature, setting);
  }

  lemma StoredForAppend(stored: seq<Measured>, m: Measured, id: nat)
    requires m.row.checkId == id
    ensures StoredFor(stored + [m], id) == StoredFor(stored, id) + [m]
  {
    assert (stored + [m])[..|stored|] == stored;
  }

  /** Landing on a check with no open incident opens one exactly when its last k results call for it. */
  lemma LandOpensExactly(f: Fleet, flight: Flight, status: CheckStatus, working: bool, suppressed: bool,
                         at: Time, now: Time, setting: int)
    requires Consistent(f) && FlightTrue(f, flight)
    requires flight.checkId in f.checks
    requires FindOpen(f.incidents, CheckSlot(f.checks[flight.checkId].targetId, flight.checkId)) < 0
    ensures var g, check := Landed(f, flight, status, working, suppressed, at, now, setting), f.checks[flight.checkId];
            FindOpen(g.incidents, CheckSlot(check.targetId, flight.checkId)) >= 0 <==>
            |g.stored| > |f.stored|
            && LastAllDown(g.stored, flight.checkId, Window(setting), check.version, check.signature)
  {
    var g, check := Landed(f, flight, status, working, suppressed, at, now, setting), f.checks[flight.checkId];
    if |g.stored| > |f.stored| {
      var id := flight.checkId;
      LandedKeepsConsistent(f, flight, status, working, suppressed, at, now, setting);
      StoredConfirms(g, id, setting);
      StoredForAppend(f.stored, g.stored[|f.stored|], id);
      assert LastAllDown(g.stored, id, Window(setting), check.version, check.signature) ==> status.Down?;
      OpensExactly(f.incidents, CheckSlot(check.targetId, id), status,
                   ConfirmedIn(CheckStatusesOf(Rows(g.stored), id, check.version), setting), setting, suppressed, at,
                   now);
    }
  }

  lemma OpensExactly(rows: seq<Incident>, slot: Slot, status: CheckStatus, confirmed: bool, setting: int,
                     suppressed: bool, at: Time, now: Time)
    requires FindOpen(rows, slot) < 0
    ensures FindOpen(AfterResult(rows, slot, status, confirmed, setting, suppressed, at, now).rows, slot) >= 0
            <==> status.Down? && confirmed
  {
    var after := AfterResult(rows, slot, status, confirmed, setting, suppressed, at, now).rows;
    if status.Down? && confirmed {
      assert OpenFor(after[|rows|], slot);
    }
  }

  /**
   * In every run, landing a flight opens an incident exactly when it stores a result and the last k
   * results of the check, whatever their stamps, are DOWN and were all measured under the check's
   * present version and signature.
   */
  lemma CheckIncidentOpensExactly(moves: seq<Move>, i: nat, status: CheckStatus, working: bool, suppressed: bool,
                                  at: Time, now: Time, setting: int)
    requires var f := Flown(moves, setting);
             && i < |f.flights| && f.flights[i].checkId in f.checks
             && FindOpen(f.incidents, CheckSlot(f.checks[f.flights[i].checkId].targetId, f.flights[i].checkId)) < 0
    ensures var f := Flown(moves, setting);
            var g := Moved(f, Land(i, status, working, suppressed, at, now), setting);
            var id := f.flights[i].checkId;
            FindOpen(g.incidents, CheckSlot(f.checks[id].targetId, id)) >= 0 <==>
            |g.stored| > |f.stored|
            && LastAllDown(g.stored, id, Window(setting), f.checks[id].version, f.checks[id].signature)
  {
    hide AfterResult, FindOpen, LastAllDown;
    RunConsistent(moves, setting);
    var f := Flown(moves, setting);
    var g := f.(flights := f.flights[..i] + f.flights[i + 1..]);
    FewerChecksConsistent(f, g);
    assert f.flights[i] in f.flights && FlightTrue(f, f.flights[i]) && FlightTrue(g, f.flights[i]);
    LandOpensExactly(g, f.flights[i], status, working, suppressed, at, now, setting);
  }
}
