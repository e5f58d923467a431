/** The tables of the portal, the references between them, and the orders a restore works in. */
module BackupSchema {
  import opened Basics

  datatype Table =
    | WorkSchedules | Sites | AppSettings | Users | MonitorTargets | TargetChecks
    | SnmpConfigs | SnmpMetrics | SnmpInterfaces | SnmpSupplies | SnmpThresholds
    | SnmpSamples | SnmpInterfaceSamples | SnmpUpsStates | SnmpUpsLines | SnmpUpsSamples | SnmpUpsEvents
    | CheckResults | TargetCheckResults | IncidentRows | AuditLog | PortalMetrics
    | ChatMessages | ChatDeletionRequests | UserNotifications | PushSubscriptions
    | UserSessions | FailedLoginAttempts | LoginBlocks | ChatPresence

  /** A stored value; `Sealed` is a text encrypted under an installation's key. */
  datatype Cell =
    | Null | Text(text: string) | Whole(n: int) | Flag(on: bool) | Amount(r: real) | Moment(at: Time)
    | Sealed(key: nat, plain: string, nonce: nat)

  type Row = map<string, Cell>

  /** Rows of a table are in primary-key order. */
  type Database = map<Table, seq<Row>>

  function Get(row: Row, column: string): Cell {
    if column in row then row[column] else Null
  }

  function Rows(db: Database, t: Table): seq<Row> {
    if t in db then db[t] else []
  }

  // ---------------------------------------------------------------- references

  datatype OnDelete = Cascade | SetNull | Restrict

  /** Only an optional reference may be left empty. */
  datatype Link = Link(column: string, parent: Table, parentColumn: string, onDelete: OnDelete, optional: bool)

  const TARGET_LINK := Link("target_id", MonitorTargets, "id", Cascade, false)
  const UPS_LINK := Link("target_id", SnmpUpsStates, "target_id", Cascade, false)
  const USER_LINK := Link("user_id", Users, "id", Cascade, false)

  function LinksOf(child: Table): seq<Link> {
    match child
    case Sites => [Link("schedule_id", WorkSchedules, "id", Restrict, false)]
    case MonitorTargets => [Link("site_id", Sites, "id", Restrict, false)]
    case TargetChecks => [TARGET_LINK]
    case SnmpConfigs => [TARGET_LINK]
    case SnmpMetrics => [TARGET_LINK]
    case SnmpInterfaces => [TARGET_LINK]
    case SnmpSupplies => [TARGET_LINK]
    case SnmpUpsStates => [TARGET_LINK]
    case CheckResults => [TARGET_LINK]
    case IncidentRows => [TARGET_LINK, Link("check_id", TargetChecks, "id", SetNull, true)]
    case SnmpThresholds =>
      [TARGET_LINK, Link("interface_id", SnmpInterfaces, "id", Cascade, true),
       Link("metric_id", SnmpMetrics, "id", Cascade, true), Link("supply_id", SnmpSupplies, "id", Cascade, true)]
    case SnmpSamples => [Link("metric_id", SnmpMetrics, "id", Cascade, false)]
    case SnmpInterfaceSamples => [Link("interface_id", SnmpInterfaces, "id", Cascade, false)]
    case SnmpUpsLines => [UPS_LINK]
    case SnmpUpsSamples => [UPS_LINK]
    case SnmpUpsEvents => [UPS_LINK]
    case TargetCheckResults => [Link("check_id", TargetChecks, "id", Cascade, false)]
    case AuditLog => [Link("user_id", Users, "id", SetNull, true)]
    case ChatMessages => [Link("sender_id", Users, "id", Restrict, false),
                          Link("recipient_id", Users, "id", Restrict, false)]
    case ChatDeletionRequests => [Link("requester_id", Users, "id", Cascade, false),
                                  Link("peer_id", Users, "id", Cascade, false)]
    case UserNotifications => [USER_LINK]
    case PushSubscriptions => [USER_LINK]
    case UserSessions => [USER_LINK]
    case ChatPresence => [USER_LINK, Link("peer_id", Users, "id", Cascade, false)]
    case _ => []
  }

  predicate HasKey(rows: seq<Row>, column: string, value: Cell) {
    exists i :: 0 <= i < |rows| && Get(rows[i], column) == value
  }

  /** A reference that is set leads to a row, and one that is not set may be left empty. */
  predicate Resolved(row: Row, link: Link, parents: seq<Row>) {
    if Get(row, link.column) == Null then link.optional else HasKey(parents, link.parentColumn, Get(row, link.column))
  }

  predicate LinkHolds(db: Database, child: Table, link: Link) {
    forall row :: row in Rows(db, child) ==> Resolved(row, link, Rows(db, link.parent))
  }

  /** No reference dangles. */
  ghost predicate Consistent(db: Database) {
    forall child, link :: link in LinksOf(child) ==> LinkHolds(db, child, link)
  }

  // ---------------------------------------------------------------- deleting a table

  predicate Refers(rows: seq<Row>, column: string) {
    exists i :: 0 <= i < |rows| && Get(rows[i], column) != Null
  }

  function DropReferring(rows: seq<Row>, column: string): (r: seq<Row>)
    ensures forall row :: row in r <==> row in rows && Get(row, column) == Null
  {
    if rows == [] then []
    else
      var rest := DropReferring(rows[..|rows| - 1], column);
      if Get(rows[|rows| - 1], column) == Null then rest + [rows[|rows| - 1]] else rest
  }

  function ClearReferring(rows: seq<Row>, column: string): seq<Row> {
    seq(|rows|, i requires 0 <= i < |rows| => if column in rows[i] then rows[i][column := Null] else rows[i])
  }

  /** What deleting every row of `parent` does to the rows of a child with these links, or nothing when refused. */
  function Unlinked(rows: seq<Row>, links: seq<Link>, parent: Table): Option<seq<Row>> {
    if links == [] then Some(rows)
    else
      var before := Unlinked(rows, links[..|links| - 1], parent);
      var link := links[|links| - 1];
      if before.None? || link.parent != parent then before
      else
        match link.onDelete
        case Restrict => if Refers(before.value, link.column) then None else before
        case Cascade => Some(DropReferring(before.value, link.column))
        case SetNull => Some(ClearReferring(before.value, link.column))
  }

  predicate Refused(db: Database, t: Table) {
    exists child :: child != t && child in db && Unlinked(db[child], LinksOf(child), t).None?
  }

  /**
   * Deleting every row of one table; the rows that refer to it go, are unlinked, or stop it.  A cascade is followed
   * one table deep, which is as deep as any goes while a restore clears.
   */
  function Delete(db: Database, t: Table): Option<Database> {
    if Refused(db, t) then None
    else Some(map child | child in db :: if child == t then [] else Unlinked(db[child], LinksOf(child), t).value)
  }

  /** A row that refers to no row of the emptied table. */
  predicate Free(row: Row, links: seq<Link>, parent: Table) {
    forall i :: 0 <= i < |links| && links[i].parent == parent ==> Get(row, links[i].column) == Null
  }

  lemma FreeBefore(row: Row, links: seq<Link>, parent: Table)
    requires links != []
    ensures Free(row, links, parent) <==>
            && Free(row, links[..|links| - 1], parent)
            && (links[|links| - 1].parent == parent ==> Get(row, links[|links| - 1].column) == Null)
  {
    var last := |links| - 1;
    assert forall i :: 0 <= i < last ==> links[..last][i] == links[i];
  }

  lemma ClearedRow(rows: seq<Row>, column: string, row: Row)
    requires row in ClearReferring(rows, column)
    ensures Get(row, column) == Null
    ensures exists was :: was in rows && forall c :: Get(row, c) == if c == column then Null else Get(was, c)
  {
    var i :| 0 <= i < |rows| && ClearReferring(rows, column)[i] == row;
    assert rows[i] in rows;
  }

  lemma UnclearedRow(rows: seq<Row>, column: string, row: Row)
    requires row in rows && Get(row, column) == Null
    ensures row in ClearReferring(rows, column)
  {
    var i :| 0 <= i < |rows| && rows[i] == row;
    assert ClearReferring(rows, column)[i] == row;
  }

  /** What deleting a table's rows leaves of a child refers to none of them, and every row that did not is left. */
  lemma {:induction false} UnlinkedExactly(rows: seq<Row>, links: seq<Link>, parent: Table, row: Row)
    requires Unlinked(rows, links, parent).Some?
    ensures row in Unlinked(rows, links, parent).value ==> Free(row, links, parent)
    ensures row in rows && Free(row, links, parent) ==> row in Unlinked(rows, links, parent).value
  {
    if links != [] {
      hide Free, ClearReferring;
      var front, link := links[..|links| - 1], links[|links| - 1];
      var before := Unlinked(rows, front, parent).value;
      FreeBefore(row, links, parent);
      UnlinkedExactly(rows, front, parent, row);
      if link.parent == parent && link.onDelete.SetNull? {
        if row in ClearReferring(before, link.column) {
          ClearedRow(before, link.column, row);
          var was :| was in before && forall c :: Get(row, c) == if c == link.column then Null else Get(was, c);
          UnlinkedExactly(rows, front, parent, was);
          StaysFree(row, was, front, parent);
        }
        if row in before && Get(row, link.column) == Null {
          UnclearedRow(before, link.column, row);
        }
      }
    } else {
      assert Free(row, links, parent);
    }
  }

  lemma StaysFree(row: Row, was: Row, links: seq<Link>, parent: Table)
    requires Free(was, links, parent) && forall c :: Get(was, c) == Null ==> Get(row, c) == Null
    ensures Free(row, links, parent)
  {
  }

  /** A delete is refused only for a row that refers to the table by a restricting reference. */
  lemma {:induction false} UnlinkedRefuses(rows: seq<Row>, links: seq<Link>, parent: Table)
    requires Unlinked(rows, links, parent).None?
    ensures exists i, row :: 0 <= i < |links| && links[i].parent == parent && links[i].onDelete == Restrict
                             && row in rows && Get(row, links[i].column) != Null
  {
    hide ClearReferring;
    var last := |links| - 1;
    var front, link := links[..last], links[last];
    if Unlinked(rows, front, parent).None? {
      UnlinkedRefuses(rows, front, parent);
      var i, row :| 0 <= i < last && front[i].parent == parent && front[i].onDelete == Restrict
                    && row in rows && Get(row, front[i].column) != Null;
      assert links[i] == front[i];
    } else {
      var before := Unlinked(rows, front, parent).value;
      var k :| 0 <= k < |before| && Get(before[k], link.column) != Null;
      var row := UnlinkedFrom(rows, front, parent, before[k]);
      assert Get(row, link.column) != Null;
    }
  }

  lemma {:induction false} UnlinkedFrom(rows: seq<Row>, links: seq<Link>, parent: Table, row: Row)
    returns (was: Row)
    requires Unlinked(rows, links, parent).Some? && row in Unlinked(rows, links, parent).value
    ensures was in rows && forall c :: Get(row, c) != Null ==> Get(was, c) == Get(row, c)
  {
    hide ClearReferring;
    was := row;
    if links != [] {
      var front, link := links[..|links| - 1], links[|links| - 1];
      var before := Unlinked(rows, front, parent).value;
      if link.parent == parent && link.onDelete.SetNull? {
        ClearedRow(before, link.column, row);
        was :| was in before && forall c :: Get(row, c) == if c == link.column then Null else Get(was, c);
      }
      was := UnlinkedFrom(rows, front, parent, was);
    }
  }

  /**
   * Deleting every row of a table empties it and leaves, of every other table, exactly rows that refer to none of
   * the deleted ones, among them all that did not before; it is refused only for a row that restricts it.
   */
  lemma DeleteExactly(db: Database, t: Table, child: Table, row: Row)
    requires child in db && child != t
    ensures var after := Delete(db, t);
            && (after.Some? ==>
                  && after.value.Keys == db.Keys && Rows(after.value, t) == []
                  && (row in after.value[child] ==> Free(row, LinksOf(child), t))
                  && (row in db[child] && Free(row, LinksOf(child), t) ==> row in after.value[child]))
            && (after.None? ==>
                  exists c, i, r :: c in db && c != t && 0 <= i < |LinksOf(c)| && LinksOf(c)[i].parent == t
                                    && LinksOf(c)[i].onDelete == Restrict && r in db[c]
                                    && Get(r, LinksOf(c)[i].column) != Null)
  {
    hide Unlinked, LinksOf, Free;
    if Refused(db, t) {
      var c :| c != t && c in db && Unlinked(db[c], LinksOf(c), t).None?;
      UnlinkedRefuses(db[c], LinksOf(c), t);
    } else {
      UnlinkedExactly(db[child], LinksOf(child), t, row);
    }
  }

  // ---------------------------------------------------------------- the orders

  const CONFIGURATION_TABLES: seq<Table> :=
    [WorkSchedules, Sites, AppSettings, Users, MonitorTargets, TargetChecks,
     SnmpConfigs, SnmpMetrics, SnmpInterfaces, SnmpSupplies, SnmpThresholds]

  const HISTORY_TABLES: seq<Table> :=
    [SnmpSamples, SnmpInterfaceSamples, SnmpUpsStates, SnmpUpsLines, SnmpUpsSamples, SnmpUpsEvents,
     CheckResults, TargetCheckResults, IncidentRows, AuditLog, PortalMetrics,
     ChatMessages, ChatDeletionRequests, UserNotifications, PushSubscriptions]

  const FULL_TABLES: seq<Table> := CONFIGURATION_TABLES + HISTORY_TABLES

  const CLEAR_PEOPLE: seq<Table> :=
    [PushSubscriptions, UserNotifications, ChatDeletionRequests, ChatMessages, UserSessions, FailedLoginAttempts,
     LoginBlocks, AuditLog]

  const CLEAR_SNMP: seq<Table> :=
    [SnmpSamples, SnmpInterfaceSamples, SnmpUpsSamples, SnmpUpsEvents, SnmpThresholds, SnmpUpsLines, SnmpUpsStates,
     SnmpSupplies, SnmpInterfaces, SnmpMetrics, SnmpConfigs]

  const CLEAR_REST: seq<Table> :=
    [IncidentRows, TargetCheckResults, CheckResults, TargetChecks, PortalMetrics, MonitorTargets, Sites, WorkSchedules,
     Users, AppSettings]

  const CLEAR_ORDER: seq<Table> := CLEAR_PEOPLE + CLEAR_SNMP + CLEAR_REST

  const INSERT_CONFIGURATION: seq<Table> :=
    [WorkSchedules, Sites, AppSettings, Users, MonitorTargets, TargetChecks, SnmpConfigs, SnmpMetrics, SnmpInterfaces,
     SnmpSupplies]

  const INSERT_SNMP: seq<Table> :=
    [SnmpUpsStates, SnmpUpsLines, SnmpThresholds, SnmpSamples, SnmpInterfaceSamples, SnmpUpsSamples, SnmpUpsEvents]

  const INSERT_REST: seq<Table> :=
    [ChatMessages, ChatDeletionRequests, UserNotifications, PushSubscriptions, CheckResults, TargetCheckResults,
     IncidentRows, AuditLog, PortalMetrics]

  const INSERT_ORDER: seq<Table> := INSERT_CONFIGURATION + INSERT_SNMP + INSERT_REST

  // ---------------------------------------------------------------- places in the orders

  /** A table's place in the clear order, the inverse of `CLEAR_ORDER`; chat presence is not in it. */
  function ClearRank(t: Table): nat {
    match t
    case PushSubscriptions => 0
    case UserNotifications => 1
    case ChatDeletionRequests => 2
    case ChatMessages => 3
    case UserSessions => 4
    case FailedLoginAttempts => 5
    case LoginBlocks => 6
    case AuditLog => 7
    case SnmpSamples => 8
    case SnmpInterfaceSamples => 9
    case SnmpUpsSamples => 10
    case SnmpUpsEvents => 11
    case SnmpThresholds => 12
    case SnmpUpsLines => 13
    case SnmpUpsStates => 14
    case SnmpSupplies => 15
    case SnmpInterfaces => 16
    case SnmpMetrics => 17
    case SnmpConfigs => 18
    case IncidentRows => 19
    case TargetCheckResults => 20
    case CheckResults => 21
    case TargetChecks => 22
    case PortalMetrics => 23
    case MonitorTargets => 24
    case Sites => 25
    case WorkSchedules => 26
    case Users => 27
    case AppSettings => 28
    case ChatPresence => 29
  }

  lemma ClearRankOfEarly(k: nat)
    ensures k < 8 ==> ClearRank(CLEAR_PEOPLE[k]) == k
    ensures 8 <= k < 19 ==> ClearRank(CLEAR_SNMP[k - 8]) == k
  {
  }

  lemma ClearRankOf(k: nat)
    requires k < |CLEAR_ORDER|
    ensures ClearRank(CLEAR_ORDER[k]) == k
  {
    ClearRankOfEarly(k);
    assert 19 <= k ==> ClearRank(CLEAR_REST[k - 19]) == k;
    hide ClearRank;
  }

  lemma ClearPeoplePlace(t: Table)
    requires ClearRank(t) < 8
    ensures CLEAR_PEOPLE[ClearRank(t)] == t
  {
  }

  lemma ClearSnmpPlace(t: Table)
    requires 8 <= ClearRank(t) < 19
    ensures CLEAR_SNMP[ClearRank(t) - 8] == t
  {
  }

  lemma ClearRestPlace(t: Table)
    requires 19 <= ClearRank(t) < 29
    ensures CLEAR_REST[ClearRank(t) - 19] == t
  {
  }

  lemma ClearPlaces(t: Table)
    ensures t == ChatPresence <==> ClearRank(t) >= 29
  {
  }

  /** Every table but chat presence is cleared, each at its place. */
  lemma ClearPlace(t: Table)
    requires t != ChatPresence
    ensures ClearRank(t) < |CLEAR_ORDER| && CLEAR_ORDER[ClearRank(t)] == t
  {
    ClearPlaces(t);
    hide ClearRank;
    var k := ClearRank(t);
    if k < 8 {
      ClearPeoplePlace(t);
    } else if k < 19 {
      ClearSnmpPlace(t);
    } else {
      ClearRestPlace(t);
    }
  }

  /** A table's place in the insert order; the transient tables come after all of it. */
  function InsertRank(t: Table): nat {
    match t
    case WorkSchedules => 0
    case Sites => 1
    case AppSettings => 2
    case Users => 3
    case MonitorTargets => 4
    case TargetChecks => 5
    case SnmpConfigs => 6
    case SnmpMetrics => 7
    case SnmpInterfaces => 8
    case SnmpSupplies => 9
    case SnmpUpsStates => 10
    case SnmpUpsLines => 11
    case SnmpThresholds => 12
    case SnmpSamples => 13
    case SnmpInterfaceSamples => 14
    case SnmpUpsSamples => 15
    case SnmpUpsEvents => 16
    case ChatMessages => 17
    case ChatDeletionRequests => 18
    case UserNotifications => 19
    case PushSubscriptions => 20
    case CheckResults => 21
    case TargetCheckResults => 22
    case IncidentRows => 23
    case AuditLog => 24
    case PortalMetrics => 25
    case _ => 27
  }

  lemma InsertRankOfEarly(k: nat)
    ensures k < 10 ==> InsertRank(INSERT_CONFIGURATION[k]) == k
    ensures 10 <= k < 17 ==> InsertRank(INSERT_SNMP[k - 10]) == k
  {
  }

  lemma InsertRankOf(k: nat)
    requires k < |INSERT_ORDER|
    ensures InsertRank(INSERT_ORDER[k]) == k
  {
    InsertRankOfEarly(k);
    assert 17 <= k ==> InsertRank(INSERT_REST[k - 17]) == k;
    hide InsertRank;
  }

  lemma InsertConfigurationPlace(t: Table)
    requires InsertRank(t) < 10
    ensures INSERT_CONFIGURATION[InsertRank(t)] == t
  {
  }

  lemma InsertSnmpPlace(t: Table)
    requires 10 <= InsertRank(t) < 17
    ensures INSERT_SNMP[InsertRank(t) - 10] == t
  {
  }

  lemma InsertRestPlace(t: Table)
    requires 17 <= InsertRank(t) < 26
    ensures INSERT_REST[InsertRank(t) - 17] == t
  {
  }

  lemma InsertPlace(t: Table)
    requires InsertRank(t) < |INSERT_ORDER|
    ensures INSERT_ORDER[InsertRank(t)] == t
  {
    hide InsertRank;
    var k := InsertRank(t);
    if k < 10 {
      InsertConfigurationPlace(t);
    } else if k < 17 {
      InsertSnmpPlace(t);
    } else {
      InsertRestPlace(t);
    }
  }

  // ---------------------------------------------------------------- what the orders respect

  lemma ChildRanksLower(child: Table, link: Link)
    requires link in LinksOf(child)
    ensures child == ChatPresence || ClearRank(child) < ClearRank(link.parent)
    ensures child == ChatPresence ==> link.onDelete == Cascade
  {
  }

  /** Every reference is cleared child first, except from chat presence, which the users take with them. */
  lemma ClearsChildrenFirst(child: Table, link: Link, k: nat)
    requires link in LinksOf(child) && k < |CLEAR_ORDER| && CLEAR_ORDER[k] == link.parent
    ensures child in CLEAR_ORDER[..k] || (child == ChatPresence && link.onDelete == Cascade)
  {
    hide ClearRank, LinksOf, CLEAR_ORDER;
    ChildRanksLower(child, link);
    ClearRankOf(k);
    if child != ChatPresence {
      ClearPlace(child);
      assert CLEAR_ORDER[..k][ClearRank(child)] == child;
    }
  }

  /** Every table is inserted after the tables it refers to. */
  lemma InsertsParentsFirst(child: Table, link: Link)
    requires link in LinksOf(child) && InsertRank(child) < |INSERT_ORDER|
    ensures InsertRank(link.parent) < InsertRank(child)
  {
  }

  lemma InsertMembers(t: Table)
    ensures t in INSERT_ORDER <==> InsertRank(t) < |INSERT_ORDER|
  {
    hide InsertRank;
    if t in INSERT_ORDER {
      var k :| 0 <= k < |INSERT_ORDER| && INSERT_ORDER[k] == t;
      InsertRankOf(k);
    }
    if InsertRank(t) < |INSERT_ORDER| {
      InsertPlace(t);
    }
  }

  lemma SavedMembers(t: Table)
    ensures t in CONFIGURATION_TABLES || t in HISTORY_TABLES
            <==> t in INSERT_CONFIGURATION || t in INSERT_SNMP || t in INSERT_REST
  {
  }

  /** What a full backup holds is exactly what a restore inserts. */
  lemma BackedUpIsInserted(t: Table)
    ensures t in FULL_TABLES <==> t in INSERT_ORDER
    ensures t in FULL_TABLES <==> InsertRank(t) < |INSERT_ORDER|
  {
    SavedMembers(t);
    InsertMembers(t);
    hide InsertRank, CONFIGURATION_TABLES, HISTORY_TABLES;
  }

  lemma ParentsAre(child: Table, link: Link)
    requires link in LinksOf(child)
    ensures link.parent in [WorkSchedules, Sites, Users, MonitorTargets, TargetChecks, SnmpMetrics, SnmpInterfaces,
                            SnmpSupplies]
            || link.parent == SnmpUpsStates
  {
  }

  /** The tables that refer to users or to the state of a power supply. */
  predicate OutsideConfiguration(t: Table) {
    || t.AuditLog? || t.ChatMessages? || t.ChatDeletionRequests? || t.UserNotifications? || t.PushSubscriptions?
    || t.UserSessions? || t.ChatPresence? || t.SnmpUpsLines? || t.SnmpUpsSamples? || t.SnmpUpsEvents?
  }

  lemma LinkFromOutside(child: Table, link: Link)
    requires link in LinksOf(child) && (link.parent == Users || link.parent == SnmpUpsStates)
    ensures OutsideConfiguration(child)
  {
  }

  lemma NotOutside(t: Table)
    requires t in CONFIGURATION_TABLES
    ensures !OutsideConfiguration(t)
  {
  }

  /** A configuration refers to nothing outside itself, and never to a user. */
  lemma ConfigurationIsClosed(child: Table, link: Link)
    requires link in LinksOf(child)
    ensures child in CONFIGURATION_TABLES ==> link.parent in CONFIGURATION_TABLES && link.parent != Users
    ensures child in FULL_TABLES ==> link.parent in FULL_TABLES
  {
    hide LinksOf, OutsideConfiguration;
    ParentsAre(child, link);
    if child in CONFIGURATION_TABLES {
      NotOutside(child);
    }
    if link.parent == Users || link.parent == SnmpUpsStates {
      LinkFromOutside(child, link);
    }
  }
}
