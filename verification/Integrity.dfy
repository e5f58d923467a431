/** The check a restored database has to pass before the restore is kept. */
module Integrity {
  import opened Basics
  import opened BackupSchema
  import opened Backups

  datatype Issue =
    | NoAdministrator
    | ScheduleDamaged
    | SettingsMissing
    | Orphaned(child: Table, link: Link, count: nat)

  predicate IsAdministrator(user: Row) {
    Get(user, "active") == Flag(true) && Get(user, "role") == Text("admin")
  }

  function Administrators(users: seq<Row>): nat {
    if users == [] then 0
    else Administrators(users[..|users| - 1]) + if IsAdministrator(users[|users| - 1]) then 1 else 0
  }

  function FindById(rows: seq<Row>, id: Cell): Option<Row> {
    if rows == [] then None else if Get(rows[0], "id") == id then Some(rows[0]) else FindById(rows[1..], id)
  }

  /** Schedule 0, round the clock, comes with the portal. */
  predicate ScheduleIntact(schedules: seq<Row>) {
    var always := FindById(schedules, Whole(0));
    always.Some? && Get(always.value, "built_in") == Flag(true) && Get(always.value, "is_24x7") == Flag(true)
  }

  predicate Complete(settings: seq<Row>, defaults: seq<(string, string)>) {
    forall i :: 0 <= i < |defaults| ==> FindSetting(settings, defaults[i].0).Some?
  }

  /** How many rows refer to a missing parent. */
  function Orphans(rows: seq<Row>, link: Link, parents: seq<Row>): nat {
    if rows == [] then 0
    else Orphans(rows[..|rows| - 1], link, parents) + if Resolved(rows[|rows| - 1], link, parents) then 0 else 1
  }

  /** The tables whose orphans are counted. */
  const COUNTED: seq<Table> :=
    [Sites, MonitorTargets, CheckResults, TargetChecks, TargetCheckResults, IncidentRows, SnmpConfigs, SnmpMetrics,
     SnmpInterfaces, SnmpSupplies, SnmpUpsStates, SnmpUpsLines, SnmpUpsSamples, SnmpSamples, SnmpInterfaceSamples,
     UserSessions, AuditLog, ChatMessages, UserNotifications, PushSubscriptions]

  predicate NoneOrphaned(db: Database, child: Table) {
    forall link :: link in LinksOf(child) ==> Orphans(Rows(db, child), link, Rows(db, link.parent)) == 0
  }

  ghost predicate Intact(db: Database) {
    && Administrators(Rows(db, Users)) >= 1
    && ScheduleIntact(Rows(db, WorkSchedules))
    && Complete(Rows(db, AppSettings), DEFAULT_SETTINGS)
    && forall i :: 0 <= i < |COUNTED| ==> NoneOrphaned(db, COUNTED[i])
  }

  method CountAdministrators(users: seq<Row>) returns (n: nat)
    ensures n == Administrators(users)
  {
    n := 0;
    for i := 0 to |users|
      invariant n == Administrators(users[..i])
    {
      assert users[..i + 1][..i] == users[..i];
      if IsAdministrator(users[i]) {
        n := n + 1;
      }
    }
    assert users[..|users|] == users;
  }

  method CountOrphans(rows: seq<Row>, link: Link, parents: seq<Row>) returns (n: nat)
    ensures n == Orphans(rows, link, parents)
  {
    hide Resolved;
    n := 0;
    for i := 0 to |rows|
      invariant n == Orphans(rows[..i], link, parents)
    {
      assert rows[..i + 1][..i] == rows[..i];
      if !Resolved(rows[i], link, parents) {
        n := n + 1;
      }
    }
    assert rows[..|rows|] == rows;
  }

  method OrphanIssues(db: Database, child: Table) returns (issues: seq<Issue>)
    ensures issues == [] <==> NoneOrphaned(db, child)
    ensures forall issue :: issue in issues ==> issue.Orphaned?
  {
    hide Orphans;
    issues := [];
    var links := LinksOf(child);
    for i := 0 to |links|
      invariant issues == [] <==>
        forall j :: 0 <= j < i ==> Orphans(Rows(db, child), links[j], Rows(db, links[j].parent)) == 0
      invariant forall issue :: issue in issues ==> issue.Orphaned?
    {
      var count := CountOrphans(Rows(db, child), links[i], Rows(db, links[i].parent));
      if count > 0 {
        issues := issues + [Orphaned(child, links[i], count)];
      }
    }
  }

  /** Collects what is wrong; a database is kept when nothing is. */
  method CheckDatabaseIntegrity(db: Database) returns (issues: seq<Issue>)
    ensures issues == [] <==> Intact(db)
    ensures NoAdministrator in issues <==> Administrators(Rows(db, Users)) == 0
    ensures ScheduleDamaged in issues <==> !ScheduleIntact(Rows(db, WorkSchedules))
    ensures SettingsMissing in issues <==> !Complete(Rows(db, AppSettings), DEFAULT_SETTINGS)
  {
    hide Administrators, ScheduleIntact, Complete, NoneOrphaned, DEFAULT_SETTINGS;
    issues := [];
    var administrators := CountAdministrators(Rows(db, Users));
    if administrators < 1 {
      issues := issues + [NoAdministrator];
    }
    if !ScheduleIntact(Rows(db, WorkSchedules)) {
      issues := issues + [ScheduleDamaged];
    }
    if !Complete(Rows(db, AppSettings), DEFAULT_SETTINGS) {
      issues := issues + [SettingsMissing];
    }
    ghost var found := issues;
    for i := 0 to |COUNTED|
      invariant issues == [] <==> found == [] && forall j :: 0 <= j < i ==> NoneOrphaned(db, COUNTED[j])
      invariant forall issue: Issue :: !issue.Orphaned? ==> (issue in issues <==> issue in found)
    {
      var more := OrphanIssues(db, COUNTED[i]);
      issues := issues + more;
    }
  }

  lemma {:induction false} NoOrphans(rows: seq<Row>, link: Link, parents: seq<Row>)
    requires forall row :: row in rows ==> Resolved(row, link, parents)
    ensures Orphans(rows, link, parents) == 0
  {
    hide Resolved;
    if rows != [] {
      assert rows[|rows| - 1] in rows;
      NoOrphans(rows[..|rows| - 1], link, parents);
    }
  }

  /** What the database enforces leaves nothing to count. */
  lemma ConsistentHasNoOrphans(db: Database, child: Table)
    requires Consistent(db)
    ensures NoneOrphaned(db, child)
  {
    hide LinksOf, Orphans, Resolved;
    forall link | link in LinksOf(child)
      ensures Orphans(Rows(db, child), link, Rows(db, link.parent)) == 0
    {
      assert LinkHolds(db, child, link);
      NoOrphans(Rows(db, child), link, Rows(db, link.parent));
    }
  }

  /** At least one user is active and has the role of an administrator. */
  lemma {:induction false} AdministratorsExist(users: seq<Row>)
    ensures Administrators(users) >= 1 <==>
            exists i :: 0 <= i < |users| && "active" in users[i] && users[i]["active"] == Flag(true)
                        && "role" in users[i] && users[i]["role"] == Text("admin")
  {
    if users != [] {
      var last := |users| - 1;
      AdministratorsExist(users[..last]);
      assert forall i :: 0 <= i < last ==> users[..last][i] == users[i];
    }
  }

  lemma {:induction false} FoundFirst(rows: seq<Row>, id: Cell)
    ensures FindById(rows, id).None? <==> forall i :: 0 <= i < |rows| ==> Get(rows[i], "id") != id
    ensures FindById(rows, id).Some? ==>
              exists i :: 0 <= i < |rows| && FindById(rows, id) == Some(rows[i]) && Get(rows[i], "id") == id
                          && forall j :: 0 <= j < i ==> Get(rows[j], "id") != id
  {
    if rows != [] && Get(rows[0], "id") != id {
      FoundFirst(rows[1..], id);
      if FindById(rows, id).Some? {
        var i :| 0 <= i < |rows| - 1 && FindById(rows[1..], id) == Some(rows[1..][i]) && Get(rows[1..][i], "id") == id
                 && forall j :: 0 <= j < i ==> Get(rows[1..][j], "id") != id;
        assert rows[i + 1] == rows[1..][i];
        assert forall j :: 0 <= j < i + 1 ==> j == 0 || rows[j] == rows[1..][j - 1];
      }
    }
  }

  /** Schedule 0 is there, is the one that came with the portal, and runs round the clock. */
  lemma ScheduleIntactExactly(schedules: seq<Row>)
    requires forall i, j :: 0 <= i < j < |schedules| ==> Get(schedules[i], "id") != Get(schedules[j], "id")
    ensures ScheduleIntact(schedules) <==>
            exists i :: 0 <= i < |schedules| && Get(schedules[i], "id") == Whole(0)
                        && Get(schedules[i], "built_in") == Flag(true) && Get(schedules[i], "is_24x7") == Flag(true)
  {
    hide FindById;
    FoundFirst(schedules, Whole(0));
  }

  lemma {:induction false} NoOrphansExactly(rows: seq<Row>, link: Link, parents: seq<Row>)
    ensures Orphans(rows, link, parents) == 0 <==> forall row :: row in rows ==> Resolved(row, link, parents)
  {
    hide Resolved;
    if rows != [] {
      var last := |rows| - 1;
      NoOrphansExactly(rows[..last], link, parents);
      assert rows == rows[..last] + [rows[last]];
    }
  }

  lemma {:induction false} SettingFound(rows: seq<Row>, key: string)
    ensures FindSetting(rows, key).Some? <==> HasKey(rows, "key", Text(key))
  {
    if rows != [] {
      SettingFound(rows[1..], key);
      assert forall i :: 1 <= i < |rows| ==> rows[i] == rows[1..][i - 1];
      if HasKey(rows[1..], "key", Text(key)) {
        var i :| 0 <= i < |rows| - 1 && Get(rows[1..][i], "key") == Text(key);
        assert Get(rows[i + 1], "key") == Text(key);
      }
    }
  }

  /** No row of the tables whose orphans are counted has a dangling or missing reference. */
  ghost predicate CountedHold(db: Database) {
    forall child, link :: child in COUNTED && link in LinksOf(child) ==> LinkHolds(db, child, link)
  }

  lemma CountedExactly(db: Database)
    ensures CountedHold(db) <==> forall i :: 0 <= i < |COUNTED| ==> NoneOrphaned(db, COUNTED[i])
  {
    hide LinksOf, Orphans, Resolved, COUNTED;
    forall child, link | child in COUNTED && link in LinksOf(child)
      ensures LinkHolds(db, child, link) <==> Orphans(Rows(db, child), link, Rows(db, link.parent)) == 0
    {
      NoOrphansExactly(Rows(db, child), link, Rows(db, link.parent));
    }
    if CountedHold(db) {
      forall i | 0 <= i < |COUNTED| ensures NoneOrphaned(db, COUNTED[i]) {
        assert COUNTED[i] in COUNTED;
      }
    }
  }

  /**
   * A database is intact exactly when it has an active administrator, the built-in schedule is in place, every
   * default setting is there, and every reference of the tables whose orphans are counted leads to a row.
   */
  lemma IntactExactly(db: Database)
    requires var schedules := Rows(db, WorkSchedules);
             forall i, j :: 0 <= i < j < |schedules| ==> Get(schedules[i], "id") != Get(schedules[j], "id")
    ensures var users, schedules := Rows(db, Users), Rows(db, WorkSchedules);
            Intact(db) <==>
            && (exists i :: 0 <= i < |users| && "active" in users[i] && users[i]["active"] == Flag(true)
                            && "role" in users[i] && users[i]["role"] == Text("admin"))
            && (exists i :: 0 <= i < |schedules| && Get(schedules[i], "id") == Whole(0)
                            && Get(schedules[i], "built_in") == Flag(true)
                            && Get(schedules[i], "is_24x7") == Flag(true))
            && (forall i :: 0 <= i < |DEFAULT_SETTINGS| ==>
                  HasKey(Rows(db, AppSettings), "key", Text(DEFAULT_SETTINGS[i].0)))
            && CountedHold(db)
  {
    AdministratorsExist(Rows(db, Users));
    ScheduleIntactExactly(Rows(db, WorkSchedules));
    CountedExactly(db);
    hide Administrators, ScheduleIntact, DEFAULT_SETTINGS, NoneOrphaned, CountedHold, FindSetting, HasKey;
    forall i | 0 <= i < |DEFAULT_SETTINGS|
      ensures FindSetting(Rows(db, AppSettings), DEFAULT_SETTINGS[i].0).Some? <==>
              HasKey(Rows(db, AppSettings), "key", Text(DEFAULT_SETTINGS[i].0))
    {
      SettingFound(Rows(db, AppSettings), DEFAULT_SETTINGS[i].0);
    }
  }
}
