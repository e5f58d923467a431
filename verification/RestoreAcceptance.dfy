/** Exactly which archives a restore accepts. */
module RestoreAcceptance {
  import opened Basics
  import opened BackupSchema
  import opened Backups
  import opened Integrity
  import opened PrimaryChecks
  import opened RestoreSteps
  import opened BackupRules
  import opened BackupRoundTrips

  // ---------------------------------------------------------------- what the closing check finds

  /** Users and schedules are kept as they were loaded. */
  lemma RestoredKeeps(db: Database, archive: Archive, schema: Schema, key: nat, nonce: nat, nextCheck: int)
    requires Total(db) && Restored(db, archive, schema, key, nonce, nextCheck).Some?
    ensures var data := Imported(archive.entries, schema, key, nonce);
            var after := Restored(db, archive, schema, key, nonce, nextCheck).value;
            && Rows(after, Users) == Rows(data, Users)
            && Rows(after, WorkSchedules) == Rows(data, WorkSchedules)
            && Complete(Rows(after, AppSettings), DEFAULT_SETTINGS)
  {
    hide Loaded, Cleared, Imported, EnsuredAll, WithDefaults, Complete, DEFAULT_SETTINGS, InsertRank;
    var data := Imported(archive.entries, schema, key, nonce);
    var loaded := Loaded(Cleared(db, |CLEAR_ORDER|), data, |INSERT_ORDER|, 0);
    LoadedRanks();
    RestoredTotal(db, data);
    LoadedTable(db, data, Users);
    LoadedTable(db, data, WorkSchedules);
    DefaultsComplete(loaded[AppSettings], DEFAULT_SETTINGS);
  }

  lemma LoadedRanks()
    ensures InsertRank(Users) < |INSERT_ORDER| && InsertRank(WorkSchedules) < |INSERT_ORDER|
    ensures InsertRank(TargetChecks) < |INSERT_ORDER| && InsertRank(MonitorTargets) < |INSERT_ORDER|
  {
  }

  lemma RestoredConsistent(db: Database, archive: Archive, schema: Schema, key: nat, nonce: nat, nextCheck: int)
    requires Total(db) && Consistent(db) && Loadable(Imported(archive.entries, schema, key, nonce))
    requires Restored(db, archive, schema, key, nonce, nextCheck).Some?
    ensures Consistent(Restored(db, archive, schema, key, nonce, nextCheck).value)
  {
    hide Loaded, Cleared, Imported, EnsuredAll, WithDefaults, Consistent, Loadable, Empty, DEFAULT_SETTINGS;
    var data := Imported(archive.entries, schema, key, nonce);
    var loaded := Loaded(Cleared(db, |CLEAR_ORDER|), data, |INSERT_ORDER|, 0);
    RestoredTotal(db, data);
    ClearedIsEmpty(db);
    LoadableIsConsistent(Cleared(db, |CLEAR_ORDER|), data);
    EnsuredConsistent(loaded, loaded[MonitorTargets], nextCheck);
    var checks := EnsuredAll(Checks(loaded[TargetChecks], nextCheck), loaded[MonitorTargets]).value;
    SettingsConsistent(loaded[TargetChecks := checks.rows], WithDefaults(loaded[AppSettings], DEFAULT_SETTINGS));
  }

  /** Of all it looks at, the closing check can object only to administrators and the built-in schedule. */
  lemma RestoredIntact(db: Database, archive: Archive, schema: Schema, key: nat, nonce: nat, nextCheck: int)
    requires Total(db) && Consistent(db) && Loadable(Imported(archive.entries, schema, key, nonce))
    requires Restored(db, archive, schema, key, nonce, nextCheck).Some?
    ensures var data := Imported(archive.entries, schema, key, nonce);
            Intact(Restored(db, archive, schema, key, nonce, nextCheck).value)
            <==> Administrators(Rows(data, Users)) >= 1 && ScheduleIntact(Rows(data, WorkSchedules))
  {
    hide Restored, Imported, Loadable, Consistent, Administrators, ScheduleIntact, Complete, NoneOrphaned,
         DEFAULT_SETTINGS;
    var after := Restored(db, archive, schema, key, nonce, nextCheck).value;
    RestoredKeeps(db, archive, schema, key, nonce, nextCheck);
    RestoredConsistent(db, archive, schema, key, nonce, nextCheck);
    forall i | 0 <= i < |COUNTED| ensures NoneOrphaned(after, COUNTED[i]) {
      ConsistentHasNoOrphans(after, COUNTED[i]);
    }
  }

  // ---------------------------------------------------------------- the exact condition

  lemma EnsuredExactly(db: Database, archive: Archive, schema: Schema, key: nat, nonce: nat, nextCheck: int)
    requires Total(db) && DistinctIds(Rows(Imported(archive.entries, schema, key, nonce), MonitorTargets))
    ensures var data := Imported(archive.entries, schema, key, nonce);
            var checks, targets := Rows(data, TargetChecks), Rows(data, MonitorTargets);
            Restored(db, archive, schema, key, nonce, nextCheck).Some? <==>
              FreeRun(checks, nextCheck, Lacking(checks, targets))
  {
    hide Loaded, Cleared, Imported, EnsuredAll, FreeRun, Lacking, InsertRank, WithDefaults;
    var data := Imported(archive.entries, schema, key, nonce);
    LoadedRanks();
    RestoredTotal(db, data);
    LoadedTable(db, data, TargetChecks);
    LoadedTable(db, data, MonitorTargets);
    EnsuredAllExactly(Checks(Rows(data, TargetChecks), nextCheck), Rows(data, MonitorTargets));
  }

  /**
   * A restore goes through exactly when every table is there, every reference resolves, the next ids of
   * the installation's sequence are free for the primary checks the archive lacks, and the archive has
   * an active administrator and the built-in schedule intact.
   */
  lemma RestoreSucceedsExactly(db: Database, archive: Archive, schema: Schema, key: nat, nonce: nat, nextCheck: int)
    requires Total(db) && Consistent(db)
    requires DistinctIds(Rows(Imported(archive.entries, schema, key, nonce), MonitorTargets))
    ensures var data := Imported(archive.entries, schema, key, nonce);
            var checks, targets := Rows(data, TargetChecks), Rows(data, MonitorTargets);
            Accepted(db, archive, schema, key, nonce, nextCheck)
            <==> && (forall t :: t in TablesOf(archive.kind) ==> t in archive.entries)
                 && Loadable(data)
                 && FreeRun(checks, nextCheck, Lacking(checks, targets))
                 && Administrators(Rows(data, Users)) >= 1
                 && ScheduleIntact(Rows(data, WorkSchedules))
  {
    hide Restored, Imported, Loadable, Consistent, Administrators, ScheduleIntact, Intact, FreeRun, Lacking, TablesOf;
    EnsuredExactly(db, archive, schema, key, nonce, nextCheck);
    if Loadable(Imported(archive.entries, schema, key, nonce))
      && Restored(db, archive, schema, key, nonce, nextCheck).Some? {
      RestoredIntact(db, archive, schema, key, nonce, nextCheck);
    }
  }

  // ---------------------------------------------------------------- archives that are refused

  /** A full archive with every table and no row but the built-in schedule. */
  function BareArchive(): Archive {
    Archive(Full, map t: Table | t in FULL_TABLES :: if t == WorkSchedules then [AlwaysRow()] else [])
  }

  function AlwaysRow(): Row {
    map["id" := Whole(0), "built_in" := Flag(true), "is_24x7" := Flag(true)]
  }

  lemma BareData(schema: Schema, key: nat, nonce: nat)
    requires ColumnsOf(schema, WorkSchedules) == {"id", "built_in", "is_24x7"}
    ensures var data := Imported(BareArchive().entries, schema, key, nonce);
            && Rows(data, WorkSchedules) == [AlwaysRow()]
            && forall t :: t != WorkSchedules ==> Rows(data, t) == []
  {
    SchedulesAreBackedUp(Full);
    hide FULL_TABLES;
    var row := ImportRow(WorkSchedules, AlwaysRow(), {"id", "built_in", "is_24x7"}, key, nonce);
    assert row == AlwaysRow();
    var data := Imported(BareArchive().entries, schema, key, nonce);
    assert data[WorkSchedules] == [row];
  }

  /** Nothing refers to anything, no id is needed, and still the archive is refused: nobody could sign in. */
  lemma ArchiveWithoutAdministrator(db: Database, schema: Schema, key: nat, nonce: nat, nextCheck: int)
    requires Total(db) && Consistent(db) && ColumnsOf(schema, WorkSchedules) == {"id", "built_in", "is_24x7"}
    ensures var archive := BareArchive();
            var data := Imported(archive.entries, schema, key, nonce);
            && (forall t :: t in TablesOf(archive.kind) ==> t in archive.entries)
            && Loadable(data) && Restored(db, archive, schema, key, nonce, nextCheck).Some?
            && ScheduleIntact(Rows(data, WorkSchedules))
            && !Accepted(db, archive, schema, key, nonce, nextCheck)
  {
    hide FULL_TABLES, Imported, Restored, Loadable, Consistent, Accepted, AlwaysRow, FreeRun, ScheduleIntact;
    var archive := BareArchive();
    var data := Imported(archive.entries, schema, key, nonce);
    BareData(schema, key, nonce);
    BareIsLoadable(data);
    AlwaysIsIntact();
    EnsuredExactly(db, archive, schema, key, nonce, nextCheck);
    NothingLacking(Rows(data, TargetChecks), nextCheck);
    RestoreSucceedsExactly(db, archive, schema, key, nonce, nextCheck);
  }

  lemma NothingLacking(checks: seq<Row>, nextCheck: int)
    ensures FreeRun(checks, nextCheck, Lacking(checks, []))
  {
  }

  lemma AlwaysIsIntact()
    ensures ScheduleIntact([AlwaysRow()])
  {
  }

  lemma BareIsLoadable(data: Database)
    requires forall t :: t != WorkSchedules ==> Rows(data, t) == []
    ensures Loadable(data)
  {
    hide Resolved, InsertRank, INSERT_ORDER;
    forall t: Table ensures TableFits(data, t, |Rows(data, t)|) {
    }
    assert LinksOf(WorkSchedules) == [];
  }

  // ---------------------------------------------------------------- a backup of one's own

  lemma {:induction false} AdministratorsMirror(restored: seq<Row>, rows: seq<Row>)
    requires Mirrors(restored, rows, {"active", "role"})
    ensures Administrators(restored) == Administrators(rows)
  {
    if rows != [] {
      var last := |rows| - 1;
      assert MirrorsRow(restored[last], rows[last], {"active", "role"});
      AdministratorsMirror(restored[..last], rows[..last]);
    }
  }

  lemma {:induction false} ScheduleMirrors(restored: seq<Row>, rows: seq<Row>)
    requires Mirrors(restored, rows, {"id", "built_in", "is_24x7"})
    ensures ScheduleIntact(restored) == ScheduleIntact(rows)
  {
    if rows != [] {
      assert MirrorsRow(restored[0], rows[0], {"id", "built_in", "is_24x7"});
      assert forall i :: 0 <= i < |rows| - 1 ==>
        MirrorsRow(restored[1..][i], rows[1..][i], {"id", "built_in", "is_24x7"});
      ScheduleMirrors(restored[1..], rows[1..]);
    }
  }

  lemma AccountNamesArePlain(row: Row)
    ensures Plain(Users, row, "active") && Plain(Users, row, "role")
  {
  }

  lemma ScheduleNamesArePlain(row: Row)
    ensures Plain(WorkSchedules, row, "id") && Plain(WorkSchedules, row, "built_in")
            && Plain(WorkSchedules, row, "is_24x7")
  {
  }

  lemma OwnAccounts(db: Database, schema: Schema, kind: Kind, key: nat, key': nat, nonce: nat)
    requires WellTyped(db, schema) && Archived(db, kind, key).Some?
    ensures var data := Imported(Archived(db, kind, key).value.entries, schema, key', nonce);
            && Administrators(Rows(data, Users)) == Administrators(Chosen(db, Users, kind))
            && ScheduleIntact(Rows(data, WorkSchedules)) == ScheduleIntact(Rows(db, WorkSchedules))
  {
    hide WellTyped, Archived, Imported, Plain, Mirrors, TablesOf, Administrators, ScheduleIntact;
    forall c, row | c in {"active", "role"} ensures Plain(Users, row, c) {
      AccountNamesArePlain(row);
    }
    forall c, row | c in {"id", "built_in", "is_24x7"} ensures Plain(WorkSchedules, row, c) {
      ScheduleNamesArePlain(row);
    }
    BackedUpTables(kind);
    SchedulesAreBackedUp(kind);
    ImportedMirrors(db, schema, kind, key, key', nonce, Users, {"active", "role"});
    ImportedMirrors(db, schema, kind, key, key', nonce, WorkSchedules, {"id", "built_in", "is_24x7"});
    var data := Imported(Archived(db, kind, key).value.entries, schema, key', nonce);
    AdministratorsMirror(data[Users], Chosen(db, Users, kind));
    ScheduleMirrors(data[WorkSchedules], Rows(db, WorkSchedules));
  }

  lemma SchedulesAreBackedUp(kind: Kind)
    ensures WorkSchedules in TablesOf(kind)
  {
    assert CONFIGURATION_TABLES[0] == WorkSchedules && FULL_TABLES[0] == WorkSchedules;
  }

  /**
   * A backup of a consistent database with its primary checks and settings, full or configuration, is
   * accepted by any installation exactly when the rows it keeps include an active administrator and the
   * built-in schedule: it has every table, every reference in it resolves, and no check has to be made.
   */
  lemma OwnBackupRestores(db: Database, other: Database, schema: Schema, kind: Kind, key: nat, key': nat, nonce: nat,
                          nextCheck: int)
    requires Sane(db, schema) && Consistent(db) && Total(other) && Consistent(other) && Archived(db, kind, key).Some?
    ensures Accepted(other, Archived(db, kind, key).value, schema, key', nonce, nextCheck)
            <==> Administrators(Chosen(db, Users, kind)) >= 1 && ScheduleIntact(Rows(db, WorkSchedules))
  {
    var archive := Archived(db, kind, key).value;
    assert archive.kind == kind;
    hide Archived, TablesOf, Imported, Sane, Restored, Consistent, Loadable, Administrators, ScheduleIntact, Intact,
         Chosen;
    BackedUpTables(kind);
    forall t | t in TablesOf(kind) ensures t in archive.entries {
      ArchivedKeys(db, kind, key, t);
    }
    SaneIsTyped(db, schema);
    ArchiveIsConsistent(db, schema, kind, key, key', nonce);
    ConsistentIsLoadable(Imported(archive.entries, schema, key', nonce));
    RestoredIsLoaded(db, other, schema, kind, key, key', nonce, nextCheck, TargetChecks);
    RestoredIntact(other, archive, schema, key', nonce, nextCheck);
    OwnAccounts(db, schema, kind, key, key', nonce);
  }

  lemma SaneIsTyped(db: Database, schema: Schema)
    requires Sane(db, schema)
    ensures WellTyped(db, schema)
  {
  }
}
