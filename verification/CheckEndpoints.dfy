/** Which address the results of a secondary check come from, over every run of edits and checks in flight. */
module CheckEndpoints {
  import opened Basics
  import opened Incidents
  import opened CheckVersions

  /** A place tells the target of its check, and the address the target had when the check was launched. */
  ghost predicate PlaceTrue(f: Fleet, id: nat, signature: Signature, place: Place) {
    && id in f.owners && f.owners[id] == place.target
    && place.era < |History(f, place.target)|
    && place.address == if signature.followsTarget then Some(History(f, place.target)[place.era]) else None
  }

  /** An address is written down when it differs from the one before it. */
  ghost predicate HistoriesTrue(f: Fleet) {
    && (forall t :: t in f.histories ==> f.histories[t] != [])
    && (forall t, i :: t in f.histories && 0 < i < |f.histories[t]| ==> f.histories[t][i - 1] != f.histories[t][i])
  }

  ghost predicate OwnersTrue(f: Fleet) {
    && (forall id :: id in f.checks ==> id in f.owners && f.owners[id] == f.checks[id].targetId)
    && (forall id :: id in f.owners ==> id in f.everUsed)
  }

  ghost predicate Placed(f: Fleet) {
    && HistoriesTrue(f) && OwnersTrue(f)
    && (forall flight :: flight in f.flights ==> PlaceTrue(f, flight.checkId, flight.signature, flight.place))
    && (forall m :: m in f.stored ==> PlaceTrue(f, m.row.checkId, m.signature, m.place))
  }

  /** What is remembered of owners and addresses is only added to. */
  ghost predicate Remembers(f: Fleet, g: Fleet) {
    && (forall id :: id in f.owners ==> id in g.owners && g.owners[id] == f.owners[id])
    && (forall t :: History(f, t) <= History(g, t))
  }

  lemma RememberedPlace(f: Fleet, g: Fleet, id: nat, signature: Signature, place: Place)
    requires Remembers(f, g) && PlaceTrue(f, id, signature, place)
    ensures PlaceTrue(g, id, signature, place)
  {
    assert History(f, place.target) <= History(g, place.target);
  }

  /** A move that makes no check and readdresses no target. */
  lemma NothingNew(f: Fleet, g: Fleet)
    requires OwnersTrue(f) && HistoriesTrue(f)
    requires g.owners == f.owners && g.histories == f.histories && g.everUsed == f.everUsed
    requires forall id :: id in g.checks ==> id in f.checks && g.checks[id].targetId == f.checks[id].targetId
    ensures Remembers(f, g) && OwnersTrue(g) && HistoriesTrue(g)
  {
  }

  lemma AddRemembers(f: Fleet, id: nat, target: nat, signature: Signature, setting: int)
    requires OwnersTrue(f) && HistoriesTrue(f)
    ensures var g := Moved(f, Add(id, target, signature), setting); Remembers(f, g) && OwnersTrue(g) && HistoriesTrue(g)
  {
  }

  lemma ReaddressRemembers(f: Fleet, target: nat, address: nat, setting: int)
    requires OwnersTrue(f) && HistoriesTrue(f)
    ensures var g := Moved(f, Readdress(target, address), setting); Remembers(f, g) && OwnersTrue(g) && HistoriesTrue(g)
  {
    var g := Moved(f, Readdress(target, address), setting);
    assert History(f, target) != [];
    assert History(f, target) <= History(g, target);
    assert forall t :: t != target ==> History(g, t) == History(f, t);
  }

  lemma MoveRemembers(f: Fleet, move: Move, setting: int)
    requires OwnersTrue(f) && HistoriesTrue(f)
    ensures var g := Moved(f, move, setting); Remembers(f, g) && OwnersTrue(g) && HistoriesTrue(g)
  {
    hide OwnersTrue, HistoriesTrue, Remembers, AfterResult, AfterSilentResolve, ConfirmedIn, CheckStatusesOf, PlaceOf;
    match move
    case Add(id, target, signature) => AddRemembers(f, id, target, signature, setting);
    case Readdress(target, address) => ReaddressRemembers(f, target, address, setting);
    case _ => NothingNew(f, Moved(f, move, setting));
  }

  /** A check launched now is placed where it asks. */
  lemma LaunchedPlace(f: Fleet, id: nat)
    requires Placed(f) && id in f.checks
    ensures PlaceTrue(f, id, f.checks[id].signature, PlaceOf(f, f.checks[id]))
  {
  }

  lemma MoveKeepsPlaced(f: Fleet, move: Move, setting: int)
    requires Placed(f)
    ensures Placed(Moved(f, move, setting))
  {
    var g := Moved(f, move, setting);
    MoveRemembers(f, move, setting);
    forall flight | flight in g.flights
      ensures PlaceTrue(g, flight.checkId, flight.signature, flight.place)
    {
      MovedFlight(f, move, setting, flight);
    }
    forall m | m in g.stored
      ensures PlaceTrue(g, m.row.checkId, m.signature, m.place)
    {
      MovedRow(f, move, setting, m);
    }
  }

  lemma MovedFlight(f: Fleet, move: Move, setting: int, flight: Flight)
    requires Placed(f) && flight in Moved(f, move, setting).flights && Remembers(f, Moved(f, move, setting))
    ensures PlaceTrue(Moved(f, move, setting), flight.checkId, flight.signature, flight.place)
  {
    hide AfterResult, AfterSilentResolve, ConfirmedIn, CheckStatusesOf, PlaceOf, PlaceTrue, Remembers;
    if flight in f.flights {
      RememberedPlace(f, Moved(f, move, setting), flight.checkId, flight.signature, flight.place);
    } else {
      LaunchedPlace(f, flight.checkId);
      RememberedPlace(f, Moved(f, move, setting), flight.checkId, flight.signature, flight.place);
    }
  }

  lemma MovedRow(f: Fleet, move: Move, setting: int, m: Measured)
    requires Placed(f) && m in Moved(f, move, setting).stored && Remembers(f, Moved(f, move, setting))
    ensures PlaceTrue(Moved(f, move, setting), m.row.checkId, m.signature, m.place)
  {
    hide AfterResult, AfterSilentResolve, ConfirmedIn, CheckStatusesOf, PlaceOf, PlaceTrue, Remembers;
    if m !in f.stored {
      assert f.flights[move.flight] in f.flights;
    }
    RememberedPlace(f, Moved(f, move, setting), m.row.checkId, m.signature, m.place);
  }

  lemma {:induction false} RunPlaced(moves: seq<Move>, setting: int)
    ensures Placed(Flown(moves, setting))
  {
    hide Moved;
    if moves != [] {
      RunPlaced(moves[..|moves| - 1], setting);
      MoveKeepsPlaced(Flown(moves[..|moves| - 1], setting), moves[|moves| - 1], setting);
    }
  }

  /**
   * Results of a check with one stamp were measured at one endpoint exactly when the check has an address
   * of its own, or its target had the same address when they were launched: always when it was not
   * readdressed in between, and never when it was once.
   */
  lemma OneEndpointExactly(moves: seq<Move>, setting: int, m: Measured, n: Measured)
    requires m in Flown(moves, setting).stored && n in Flown(moves, setting).stored
    requires m.row.checkId == n.row.checkId && m.row.configVersion == n.row.configVersion
    ensures m.signature == n.signature && m.place.target == n.place.target
    ensures var history, i, j := History(Flown(moves, setting), m.place.target), m.place.era, n.place.era;
            && i < |history| && j < |history|
            && (m.place.address == n.place.address <==> !m.signature.followsTarget || history[i] == history[j])
            && (i == j ==> m.place.address == n.place.address)
            && (m.signature.followsTarget && j == i + 1 ==> m.place.address != n.place.address)
  {
    hide Flown;
    StampsAreTrue(moves, setting);
    RunPlaced(moves, setting);
    var f := Flown(moves, setting);
    assert PlaceTrue(f, m.row.checkId, m.signature, m.place) && PlaceTrue(f, n.row.checkId, n.signature, n.place);
  }

  // ---------------------------------------------------------------- an incident over two addresses

  /** A check without an address of its own is down, its target is readdressed, and the check is down again. */
  function ReaddressedBetween(): (moves: seq<Move>)
    ensures |moves| == 6
  {
    [Add(1, 7, Signature(0, true)), Launch(1), Land(0, Down, true, false, 10, 10),
     Readdress(7, 5), Launch(1), Land(0, Down, true, false, 20, 20)]
  }

  lemma MoveTo(n: nat, setting: int)
    requires n < 6
    ensures Flown(ReaddressedBetween()[..n + 1], setting)
            == Moved(Flown(ReaddressedBetween()[..n], setting), ReaddressedBetween()[n], setting)
  {
    assert ReaddressedBetween()[..n + 1][..n] == ReaddressedBetween()[..n];
  }

  function Launched(place: Place): Flight {
    Flight(1, 1, 1, Signature(0, true), place)
  }

  lemma AddedAndLaunched(f: Fleet)
    requires f == Flown([], 2)
    ensures var g := Moved(Moved(f, Add(1, 7, Signature(0, true)), 2), Launch(1), 2);
            && g.checks == map[1 := CheckConfig(7, 1, Signature(0, true), true)] && g.incidents == []
            && g.stored == [] && g.flights == [Launched(Place(7, 0, Some(0)))] && g.histories == map[]
  {
  }

  lemma LandedDown(f: Fleet, place: Place, at: Time)
    requires f.checks == map[1 := CheckConfig(7, 1, Signature(0, true), true)]
    requires f.flights == [Launched(place)]
    ensures var g := Moved(f, Land(0, Down, true, false, at, at), 2);
            && g.stored == f.stored + [Measured(TargetCheckResult(1, 1, Down, at), 1, Signature(0, true), place)]
            && g.checks == f.checks && g.flights == [] && g.histories == f.histories
  {
    hide AfterResult, ConfirmedIn, CheckStatusesOf;
  }

  lemma OneIsTooFew(stored: seq<Measured>)
    requires |stored| == 1 && stored[0].row.checkId == 1
    ensures !LastAllDown(stored, 1, 2, 1, Signature(0, true))
  {
    StoredForOne(stored);
  }

  lemma NothingOpenFor(slot: Slot)
    ensures FindOpen([], slot) < 0
  {
  }

  lemma OneDownOpensNothing()
    ensures var f := Flown(ReaddressedBetween()[..3], 2);
            && FindOpen(f.incidents, CheckSlot(7, 1)) < 0
            && f.stored == [Measured(TargetCheckResult(1, 1, Down, 10), 1, Signature(0, true), Place(7, 0, Some(0)))]
            && f.checks == map[1 := CheckConfig(7, 1, Signature(0, true), true)] && f.flights == []
            && f.histories == map[]
  {
    hide Flown, FindOpen, Moved, StoredFor, LastAllDown;
    var moves := ReaddressedBetween();
    assert moves[..0] == [];
    MoveTo(0, 2);
    MoveTo(1, 2);
    MoveTo(2, 2);
    AddedAndLaunched(Flown([], 2));
    LandedDown(Flown(moves[..2], 2), Place(7, 0, Some(0)), 10);
    OneIsTooFew(Flown(moves[..3], 2).stored);
    NothingOpenFor(CheckSlot(7, 1));
    CheckIncidentOpensExactly(moves[..2], 0, Down, true, false, 10, 10, 2);
  }

  lemma {:induction false} StoredForOne(stored: seq<Measured>)
    requires forall i :: 0 <= i < |stored| ==> stored[i].row.checkId == 1
    ensures StoredFor(stored, 1) == stored
  {
    if stored != [] {
      var last := |stored| - 1;
      StoredForOne(stored[..last]);
      assert stored[..last] + [stored[last]] == stored;
    }
  }

  lemma ReaddressedAndLaunched(f: Fleet)
    requires f.checks == map[1 := CheckConfig(7, 1, Signature(0, true), true)] && f.histories == map[]
    ensures var g := Moved(f, Readdress(7, 5), 2);
            && g == f.(histories := map[7 := [0, 5]])
            && Moved(g, Launch(1), 2) ==
               g.(flights := f.flights + [Launched(Place(7, 1, Some(5)))])
  {
    assert History(f, 7) == [0] && [0] + [5] == [0, 5];
    assert f.histories[7 := [0, 5]] == map[7 := [0, 5]];
  }

  lemma LaunchedAgain()
    ensures var f := Flown(ReaddressedBetween()[..5], 2);
            && FindOpen(f.incidents, CheckSlot(7, 1)) < 0
            && f.stored == [Measured(TargetCheckResult(1, 1, Down, 10), 1, Signature(0, true), Place(7, 0, Some(0)))]
            && f.checks == map[1 := CheckConfig(7, 1, Signature(0, true), true)]
            && f.flights == [Launched(Place(7, 1, Some(5)))]
  {
    hide Flown, FindOpen, Moved;
    OneDownOpensNothing();
    MoveTo(3, 2);
    MoveTo(4, 2);
    ReaddressedAndLaunched(Flown(ReaddressedBetween()[..3], 2));
  }

  lemma BothDown(stored: seq<Measured>)
    requires |stored| == 2
    requires forall m :: m in stored ==> m.row.checkId == 1 && m.row.status.Down? && m.version == 1
                                         && m.row.configVersion == 1 && m.signature == Signature(0, true)
    ensures LastAllDown(stored, 1, 2, 1, Signature(0, true))
  {
    StoredForOne(stored);
  }

  /** Two DOWNs under one stamp, measured at two addresses, open an incident. */
  lemma OpensOverTwoAddresses()
    ensures var f := Flown(ReaddressedBetween(), 2);
            && FindOpen(f.incidents, CheckSlot(7, 1)) >= 0
            && |f.stored| == 2 && f.stored[0].row.configVersion == f.stored[1].row.configVersion
            && f.stored[0].place.address == Some(0) && f.stored[1].place.address == Some(5)
  {
    hide Flown, FindOpen, Moved, StoredFor, LastAllDown;
    var moves := ReaddressedBetween();
    assert moves[..6] == moves && moves[5] == Land(0, Down, true, false, 20, 20);
    LaunchedAgain();
    MoveTo(5, 2);
    LandedDown(Flown(moves[..5], 2), Place(7, 1, Some(5)), 20);
    BothDown(Flown(moves, 2).stored);
    CheckIncidentOpensExactly(moves[..5], 0, Down, true, false, 20, 20, 2);
  }
}
