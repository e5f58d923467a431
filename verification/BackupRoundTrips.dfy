/** Full and configuration backups, restored over any database. */
module BackupRoundTrips {
  import opened Basics
  import opened BackupSchema
  import opened Backups
  import opened Integrity
  import opened PrimaryChecks
  import opened RestoreSteps
  import opened BackupRules

  // ---------------------------------------------------------------- rows that agree on some columns

  ghost predicate Mirrors(restored: seq<Row>, rows: seq<Row>, names: set<string>) {
    && |restored| == |rows|
    && forall i :: 0 <= i < |rows| ==> MirrorsRow(restored[i], rows[i], names)
  }

  ghost predicate MirrorsRow(restored: Row, row: Row, names: set<string>) {
    restored.Keys == row.Keys && forall c :: c in names ==> Get(restored, c) == Get(row, c)
  }

  const CHECK_NAMES: set<string> :=
    {"target_id", "name", "checker_type", "address_override", "port", "path", "timeout_seconds", "retries", "enabled",
     "is_primary", "display_order"}
  const TARGET_NAMES: set<string> := {"id", "checker_type", "port"}

  lemma CheckNamesArePlain(row: Row, c: string)
    requires c in CHECK_NAMES
    ensures Plain(TargetChecks, row, c)
  {
  }

  lemma TargetNamesArePlain(row: Row, c: string)
    requires c in TARGET_NAMES
    ensures Plain(MonitorTargets, row, c)
  {
  }

  lemma OtherNamesArePlain(row: Row)
    ensures Plain(AppSettings, row, "key") && Plain(Users, row, "deleted_at")
  {
  }

  lemma ImportedKeys(db: Database, schema: Schema, kind: Kind, key: nat, key': nat, nonce: nat, t: Table, i: nat)
    requires WellTyped(db, schema) && Archived(db, kind, key).Some? && t in TablesOf(kind) && i < |Chosen(db, t, kind)|
    ensures var data := Imported(Archived(db, kind, key).value.entries, schema, key', nonce);
            && t in data && |data[t]| == |Chosen(db, t, kind)|
            && data[t][i].Keys == Chosen(db, t, kind)[i].Keys
  {
    hide WellTyped, Archived, Chosen, TablesOf, ExportRow, SmtpPassword;
    RowArchived(db, schema, kind, key, t, i);
    var row, columns := Chosen(db, t, kind)[i], ColumnsOf(schema, t);
    var smtp := SmtpPassword(db, key).value;
    forall c | c in columns
      ensures c in ExportRow(t, row, kind, key, smtp).value
    {
      ExportedColumns(t, row, columns, kind, key, smtp, c);
    }
  }

  lemma ImportedMirrors(db: Database, schema: Schema, kind: Kind, key: nat, key': nat, nonce: nat, t: Table,
                        names: set<string>)
    requires WellTyped(db, schema) && Archived(db, kind, key).Some? && t in TablesOf(kind)
    requires forall c, row :: c in names ==> Plain(t, row, c)
    ensures var data := Imported(Archived(db, kind, key).value.entries, schema, key', nonce);
            t in data && Mirrors(data[t], Chosen(db, t, kind), names)
  {
    hide WellTyped, Archived, Chosen, TablesOf, ImportRow, Plain;
    ArchivedKeys(db, kind, key, t);
    var data := Imported(Archived(db, kind, key).value.entries, schema, key', nonce);
    forall i | 0 <= i < |Chosen(db, t, kind)|
      ensures MirrorsRow(data[t][i], Chosen(db, t, kind)[i], names)
    {
      ImportedKeys(db, schema, kind, key, key', nonce, t, i);
      forall c | c in names
        ensures Get(data[t][i], c) == Get(Chosen(db, t, kind)[i], c)
      {
        ImportedRow(db, schema, kind, key, key', nonce, t, i, c);
      }
    }
  }

  // ---------------------------------------------------------------- nothing left to finish

  lemma {:induction false} CompleteStays(settings: seq<Row>, defaults: seq<(string, string)>)
    requires Complete(settings, defaults)
    ensures WithDefaults(settings, defaults) == settings
  {
    hide FindSetting;
    if defaults != [] {
      CompleteStays(settings, defaults[..|defaults| - 1]);
    }
  }

  // ---------------------------------------------------------------- what finishing establishes

  lemma {:induction false} FindSettingAppend(rows: seq<Row>, row: Row, key: string)
    ensures FindSetting(rows + [row], key).Some? <==> FindSetting(rows, key).Some? || Get(row, "key") == Text(key)
  {
    if rows != [] {
      assert (rows + [row])[1..] == rows[1..] + [row];
      FindSettingAppend(rows[1..], row, key);
    } else {
      assert (rows + [row])[1..] == [];
    }
  }

  lemma {:induction false} DefaultsKeep(settings: seq<Row>, defaults: seq<(string, string)>, key: string)
    requires FindSetting(settings, key).Some?
    ensures FindSetting(WithDefaults(settings, defaults), key).Some?
  {
    hide FindSetting;
    if defaults != [] {
      var last := defaults[|defaults| - 1];
      var before := WithDefaults(settings, defaults[..|defaults| - 1]);
      DefaultsKeep(settings, defaults[..|defaults| - 1], key);
      FindSettingAppend(before, DefaultRow(last), key);
    }
  }

  lemma DefaultRowKey(setting: (string, string))
    ensures Get(DefaultRow(setting), "key") == Text(setting.0)
  {
    assert "key"[0] != "value"[0] && "key"[0] != "description"[0];
  }

  lemma DefaultsStep(settings: seq<Row>, defaults: seq<(string, string)>, key: string)
    requires defaults != []
    ensures var before, last := WithDefaults(settings, defaults[..|defaults| - 1]), defaults[|defaults| - 1];
            FindSetting(WithDefaults(settings, defaults), key).Some? <==>
              FindSetting(before, key).Some? || key == last.0
  {
    hide FindSetting;
    var before, last := WithDefaults(settings, defaults[..|defaults| - 1]), defaults[|defaults| - 1];
    DefaultRowKey(last);
    if FindSetting(settings, last.0).Some? {
      DefaultsKeep(settings, defaults[..|defaults| - 1], last.0);
    } else {
      FindSettingAppend(before, DefaultRow(last), key);
    }
  }

  /** Whatever settings an archive had, none is missing after a restore. */
  lemma {:induction false} DefaultsComplete(settings: seq<Row>, defaults: seq<(string, string)>)
    ensures Complete(WithDefaults(settings, defaults), defaults)
  {
    hide FindSetting, WithDefaults;
    if defaults != [] {
      var shorter := defaults[..|defaults| - 1];
      DefaultsComplete(settings, shorter);
      forall i | 0 <= i < |defaults|
        ensures FindSetting(WithDefaults(settings, defaults), defaults[i].0).Some?
      {
        assert i < |shorter| ==> FindSetting(WithDefaults(settings, shorter), shorter[i].0).Some?;
        DefaultsStep(settings, defaults, defaults[i].0);
      }
    }
  }

  lemma {:induction false} FindSettingKept(rows: seq<Row>, more: seq<Row>, key: string)
    requires FindSetting(rows, key).Some?
    ensures FindSetting(rows + more, key) == FindSetting(rows, key)
  {
    assert (rows + more)[1..] == rows[1..] + more;
    if Get(rows[0], "key") != Text(key) {
      FindSettingKept(rows[1..], more, key);
    }
  }

  lemma {:induction false} FindSettingLast(rows: seq<Row>, row: Row, key: string)
    requires FindSetting(rows, key).None? && Get(row, "key") == Text(key)
    ensures FindSetting(rows + [row], key) == Some(row)
  {
    if rows == [] {
      assert rows + [row] == [row];
    } else {
      assert (rows + [row])[1..] == rows[1..] + [row];
      FindSettingLast(rows[1..], row, key);
    }
  }

  predicate DistinctKeys(defaults: seq<(string, string)>) {
    forall i, j :: 0 <= i < j < |defaults| ==> defaults[i].0 != defaults[j].0
  }

  lemma DefaultRowValue(setting: (string, string))
    ensures Get(DefaultRow(setting), "value") == Text(setting.1)
  {
  }

  /** The archive's settings stay in place, and one it did not have has the default's value. */
  lemma {:induction false} DefaultsSay(settings: seq<Row>, defaults: seq<(string, string)>, key: string)
    requires DistinctKeys(defaults)
    ensures settings <= WithDefaults(settings, defaults)
    ensures FindSetting(settings, key).Some? ==>
              FindSetting(WithDefaults(settings, defaults), key) == FindSetting(settings, key)
    ensures forall i :: 0 <= i < |defaults| && defaults[i].0 == key && FindSetting(settings, key).None? ==>
              var found := FindSetting(WithDefaults(settings, defaults), key);
              found.Some? && Get(found.value, "value") == Text(defaults[i].1)
    ensures FindSetting(settings, key).None? && (forall i :: 0 <= i < |defaults| ==> defaults[i].0 != key) ==>
              FindSetting(WithDefaults(settings, defaults), key).None?
  {
    hide FindSetting, DefaultRow;
    if defaults != [] {
      var front, last := defaults[..|defaults| - 1], defaults[|defaults| - 1];
      var before := WithDefaults(settings, front);
      DefaultsSay(settings, front, key);
      DefaultRowKey(last);
      DefaultRowValue(last);
      FindSettingAppend(before, DefaultRow(last), key);
      if FindSetting(before, key).Some? {
        FindSettingKept(before, [DefaultRow(last)], key);
      } else if last.0 == key {
        FindSettingLast(before, DefaultRow(last), key);
      }
    }
  }

  // ---------------------------------------------------------------- when the ids run into each other

  /** How many targets have no primary check. */
  function Lacking(checks: seq<Row>, targets: seq<Row>): nat {
    if targets == [] then 0
    else Lacking(checks, targets[..|targets| - 1]) + if FindPrimary(checks, targets[|targets| - 1]).None? then 1 else 0
  }

  /** No check has any of the next `n` ids. */
  predicate FreeRun(checks: seq<Row>, nextId: int, n: nat) {
    forall id :: nextId <= id < nextId + n ==> !HasKey(checks, "id", Whole(id))
  }

  predicate UniqueIds(rows: seq<Row>) {
    forall i, j :: 0 <= i < j < |rows| ==> Get(rows[i], "id") != Get(rows[j], "id")
  }

  /** The ids afterwards are the ids before and, without a gap, as many new ones as targets were lacking. */
  lemma EnsuredIds(checks: Checks, target: Row, id: int)
    requires Ensured(checks, target).Some?
    ensures var after, made := Ensured(checks, target).value, FindPrimary(checks.rows, target).None?;
            && after.nextId == checks.nextId + (if made then 1 else 0)
            && (HasKey(after.rows, "id", Whole(id)) <==>
                HasKey(checks.rows, "id", Whole(id)) || (made && id == checks.nextId))
            && (UniqueIds(checks.rows) ==> UniqueIds(after.rows))
  {
    hide FindPrimary, PrimaryOf, NewPrimary;
    var after := Ensured(checks, target).value;
    forall j | 0 <= j < |after.rows|
      ensures |checks.rows| <= |after.rows|
      ensures Get(after.rows[j], "id") == if j < |checks.rows| then Get(checks.rows[j], "id") else Whole(checks.nextId)
    {
      EnsuredKeeps(checks, target, j);
    }
    if i :| 0 <= i < |checks.rows| && Get(checks.rows[i], "id") == Whole(id) {
      assert Get(after.rows[i], "id") == Whole(id);
    }
    if FindPrimary(checks.rows, target).None? {
      assert Get(after.rows[|checks.rows|], "id") == Whole(checks.nextId);
    }
  }

  /**
   * The inserts of missing primary checks all go through exactly when as many ids from the sequence's
   * next one on are free as there are targets lacking a primary check.
   */
  lemma {:induction false} EnsuredAllExactly(checks: Checks, targets: seq<Row>)
    requires DistinctIds(targets)
    ensures var r, n := EnsuredAll(checks, targets), Lacking(checks.rows, targets);
            && (r.Some? <==> FreeRun(checks.rows, checks.nextId, n))
            && (r.Some? ==>
                  && r.value.nextId == checks.nextId + n
                  && (forall id :: HasKey(r.value.rows, "id", Whole(id)) <==>
                        HasKey(checks.rows, "id", Whole(id)) || checks.nextId <= id < checks.nextId + n)
                  && (UniqueIds(checks.rows) ==> UniqueIds(r.value.rows)))
  {
    hide HasKey, FindPrimary, Ensured, UniqueIds, DistinctIds;
    if targets != [] {
      var rest, target := targets[..|targets| - 1], targets[|targets| - 1];
      FrontTargets(targets);
      EnsuredAllExactly(checks, rest);
      var before, n := EnsuredAll(checks, rest), Lacking(checks.rows, rest);
      if before.Some? {
        OtherPrimariesStay(checks, rest, target);
        EnsuredWhen(before.value, target);
        if Ensured(before.value, target).Some? {
          forall id: int
            ensures HasKey(Ensured(before.value, target).value.rows, "id", Whole(id)) <==>
                    HasKey(before.value.rows, "id", Whole(id))
                      || (FindPrimary(before.value.rows, target).None? && id == checks.nextId + n)
          {
            EnsuredIds(before.value, target, id);
          }
          EnsuredIds(before.value, target, 0);
        } else {
          assert checks.nextId <= checks.nextId + n < checks.nextId + (n + 1);
        }
      }
    }
  }

  lemma EnsuredWhen(checks: Checks, target: Row)
    ensures Ensured(checks, target).None?
            <==> FindPrimary(checks.rows, target).None?
                 && (HasKey(checks.rows, "id", Whole(checks.nextId)) || Get(target, "id") == Null)
  {
  }

  /** After the reset, the ids the sequence gives are exactly those from 1 on above every check's. */
  lemma {:induction false} NextFreeExactly(rows: seq<Row>, id: int)
    ensures id >= NextFree(rows) <==>
            id >= 1 && forall i :: 0 <= i < |rows| && Get(rows[i], "id").Whole? ==> id > Get(rows[i], "id").n
  {
    if rows != [] {
      var last := |rows| - 1;
      NextFreeExactly(rows[..last], id);
      assert forall i :: 0 <= i < last ==> rows[..last][i] == rows[i];
    }
  }

  /** ... so none of them is a check's. */
  lemma NextFreeIsFree(rows: seq<Row>, id: int)
    requires id >= NextFree(rows)
    ensures !HasKey(rows, "id", Whole(id))
  {
    NextFreeExactly(rows, id);
  }

  /**
   * Two targets, the second without a primary check, over an installation whose sequence is at the first
   * check's id.
   */
  lemma FreshSequenceCollides()
    ensures var targets := [map["id" := Whole(1)], map["id" := Whole(2)]];
            var check: Row := map["id" := Whole(1), "target_id" := Whole(1), "is_primary" := Flag(true)];
            && UniqueIds([check]) && DistinctIds(targets)
            && EnsuredAll(Checks([check], 1), targets).None?
            && EnsuredAll(Checks([check], 2), targets).Some?
  {
    var targets: seq<Row> := [map["id" := Whole(1)], map["id" := Whole(2)]];
    var check: Row := map["id" := Whole(1), "target_id" := Whole(1), "is_primary" := Flag(true)];
    assert IsPrimaryFor(check, targets[0]) && !IsPrimaryFor(check, targets[1]);
    FindPrimaryIs([check], targets[0], 0);
    assert FindPrimary([check], targets[1]).None?;
    var one := [targets[0]];
    assert one[..0] == [] && targets[..1] == one;
    assert Lacking([check], []) == 0;
    assert Lacking([check], one) == Lacking([check], one[..0]);
    assert Lacking([check], targets) == Lacking([check], targets[..1]) + 1 == 1;
    EnsuredAllExactly(Checks([check], 1), targets);
    EnsuredAllExactly(Checks([check], 2), targets);
    assert Get([check][0], "id") == Whole(1);
  }

  /**
   * A restore that goes through, even of an archive out of line, leaves unique check ids and a
   * database a further backup gives back whole.
   */
  lemma RestoreSyncs(db: Database, nextCheck: int)
    requires Total(db) && DistinctIds(db[MonitorTargets]) && Finished(db, nextCheck).Some?
    ensures var after := Finished(db, nextCheck).value;
            && Synced(after[TargetChecks], after[MonitorTargets])
            && OnlyFollowing(db[TargetChecks], after[TargetChecks], after[MonitorTargets])
            && OnlyLacking(db[TargetChecks], after[TargetChecks], after[MonitorTargets])
            && Complete(after[AppSettings], DEFAULT_SETTINGS)
            && (UniqueIds(db[TargetChecks]) ==> UniqueIds(after[TargetChecks]))
            && !HasKey(after[TargetChecks], "id", Whole(NextFree(after[TargetChecks])))
  {
    hide EnsuredAll, WithDefaults, Synced, Complete, DEFAULT_SETTINGS, UniqueIds, HasKey, NextFree, OnlyFollowing,
         OnlyLacking, DistinctIds;
    EnsuredAllOnly(Checks(db[TargetChecks], nextCheck), db[MonitorTargets]);
    EnsuredAllSynced(Checks(db[TargetChecks], nextCheck), db[MonitorTargets]);
    EnsuredAllExactly(Checks(db[TargetChecks], nextCheck), db[MonitorTargets]);
    DefaultsComplete(db[AppSettings], DEFAULT_SETTINGS);
    NextFreeIsFree(Finished(db, nextCheck).value[TargetChecks], NextFree(Finished(db, nextCheck).value[TargetChecks]));
  }

  // ---------------------------------------------------------------- what was in line stays in line

  lemma PrimaryMirrors(restored: Row, check: Row, target': Row, target: Row)
    requires MirrorsRow(restored, check, CHECK_NAMES) && MirrorsRow(target', target, TARGET_NAMES)
    ensures IsPrimaryFor(restored, target') == IsPrimaryFor(check, target)
  {
  }

  lemma {:induction false} FindPrimaryMirrors(restored: seq<Row>, checks: seq<Row>, target': Row, target: Row)
    requires Mirrors(restored, checks, CHECK_NAMES) && MirrorsRow(target', target, TARGET_NAMES)
    ensures FindPrimary(restored, target') == FindPrimary(checks, target)
  {
    hide IsPrimaryFor, MirrorsRow, CHECK_NAMES, TARGET_NAMES;
    if checks != [] {
      var last := |checks| - 1;
      PrimaryMirrors(restored[last], checks[last], target', target);
      FindPrimaryMirrors(restored[..last], checks[..last], target', target);
    }
  }

  lemma InLineMirrors(restored: seq<Row>, checks: seq<Row>, target': Row, target: Row)
    requires Mirrors(restored, checks, CHECK_NAMES) && MirrorsRow(target', target, TARGET_NAMES)
    requires InLine(checks, target)
    ensures InLine(restored, target')
  {
    hide FindPrimary, Follows;
    FindPrimaryMirrors(restored, checks, target', target);
    var i := FindPrimary(checks, target).value;
    assert MirrorsRow(restored[i], checks[i], CHECK_NAMES);
    FollowsMirrors(restored[i], checks[i], target', target);
  }

  lemma FollowsMirrors(restored: Row, check: Row, target': Row, target: Row)
    requires MirrorsRow(restored, check, CHECK_NAMES) && MirrorsRow(target', target, TARGET_NAMES)
    requires Follows(check, target)
    ensures Follows(restored, target')
  {
    forall c | c in CHECK_NAMES ensures forall cell :: Says(check, c, cell) ==> Says(restored, c, cell) {
      assert Get(restored, c) == Get(check, c);
    }
  }

  lemma {:induction false} FindSettingMirrors(restored: seq<Row>, rows: seq<Row>, key: string)
    requires Mirrors(restored, rows, {"key"})
    ensures FindSetting(restored, key).Some? == FindSetting(rows, key).Some?
  {
    if rows != [] {
      assert MirrorsRow(restored[0], rows[0], {"key"});
      assert forall i :: 0 <= i < |rows| - 1 ==> MirrorsRow(restored[1..][i], rows[1..][i], {"key"});
      FindSettingMirrors(restored[1..], rows[1..], key);
    }
  }

  /** A database a backup can be taken of and given back whole. */
  ghost predicate Sane(db: Database, schema: Schema) {
    WellTyped(db, schema) && Synced(db[TargetChecks], db[MonitorTargets]) && Complete(db[AppSettings], DEFAULT_SETTINGS)
  }

  lemma BackedUpTables(kind: Kind)
    ensures TargetChecks in TablesOf(kind) && MonitorTargets in TablesOf(kind) && AppSettings in TablesOf(kind)
    ensures Users in TablesOf(kind)
    ensures forall t :: t in TablesOf(kind) ==> InsertRank(t) < |INSERT_ORDER|
  {
    assert CONFIGURATION_TABLES[5] == TargetChecks && CONFIGURATION_TABLES[4] == MonitorTargets
           && CONFIGURATION_TABLES[2] == AppSettings && CONFIGURATION_TABLES[3] == Users;
    hide InsertRank, CONFIGURATION_TABLES, HISTORY_TABLES;
    forall t | t in TablesOf(kind)
      ensures InsertRank(t) < |INSERT_ORDER|
    {
      BackedUpIsInserted(t);
    }
  }

  lemma RestoredChecks(db: Database, schema: Schema, kind: Kind, key: nat, key': nat, nonce: nat)
    requires Sane(db, schema) && Archived(db, kind, key).Some?
    ensures var data := Imported(Archived(db, kind, key).value.entries, schema, key', nonce);
            TargetChecks in data && MonitorTargets in data && Synced(data[TargetChecks], data[MonitorTargets])
  {
    hide Archived, TablesOf, Imported, InLine, CHECK_NAMES, TARGET_NAMES, WellTyped;
    BackedUpTables(kind);
    forall c, row | c in CHECK_NAMES
      ensures Plain(TargetChecks, row, c)
    {
      CheckNamesArePlain(row, c);
    }
    forall c, row | c in TARGET_NAMES
      ensures Plain(MonitorTargets, row, c)
    {
      TargetNamesArePlain(row, c);
    }
    ImportedMirrors(db, schema, kind, key, key', nonce, TargetChecks, CHECK_NAMES);
    ImportedMirrors(db, schema, kind, key, key', nonce, MonitorTargets, TARGET_NAMES);
    var data := Imported(Archived(db, kind, key).value.entries, schema, key', nonce);
    TotalTables(db, schema);
    forall i | 0 <= i < |data[MonitorTargets]|
      ensures InLine(data[TargetChecks], data[MonitorTargets][i])
    {
      InLineMirrors(data[TargetChecks], db[TargetChecks], data[MonitorTargets][i], db[MonitorTargets][i]);
    }
  }

  lemma TotalTables(db: Database, schema: Schema)
    requires WellTyped(db, schema)
    ensures Total(db)
  {
  }

  lemma RestoredSettings(db: Database, schema: Schema, kind: Kind, key: nat, key': nat, nonce: nat)
    requires Sane(db, schema) && Archived(db, kind, key).Some?
    ensures var data := Imported(Archived(db, kind, key).value.entries, schema, key', nonce);
            && AppSettings in data && Complete(data[AppSettings], DEFAULT_SETTINGS)
            && Mirrors(data[AppSettings], Chosen(db, AppSettings, kind), {"key"})
  {
    hide Archived, TablesOf, Imported, Synced, WellTyped, FindSetting, DEFAULT_SETTINGS;
    BackedUpTables(kind);
    forall c, row | c in {"key"}
      ensures Plain(AppSettings, row, c)
    {
      OtherNamesArePlain(row);
    }
    ImportedMirrors(db, schema, kind, key, key', nonce, AppSettings, {"key"});
    var data := Imported(Archived(db, kind, key).value.entries, schema, key', nonce);
    TotalTables(db, schema);
    forall i | 0 <= i < |DEFAULT_SETTINGS|
      ensures FindSetting(data[AppSettings], DEFAULT_SETTINGS[i].0).Some?
    {
      FindSettingMirrors(data[AppSettings], db[AppSettings], DEFAULT_SETTINGS[i].0);
    }
  }

  // ---------------------------------------------------------------- full backups

  lemma LoadedTable(other: Database, data: Database, t: Table)
    requires Total(other) && InsertRank(t) < |INSERT_ORDER|
    ensures var loaded := Loaded(Cleared(other, |CLEAR_ORDER|), data, |INSERT_ORDER|, 0);
            t in loaded && loaded[t] == Rows(data, t)
  {
    hide InsertRank, ClearedBy;
  }

  /** What was restored stays as it was restored: nothing is left to bring into line or to add. */
  lemma RestoredIsLoaded(db: Database, other: Database, schema: Schema, kind: Kind, key: nat, key': nat, nonce: nat,
                         nextCheck: int, t: Table)
    requires Sane(db, schema) && Total(other) && Archived(db, kind, key).Some? && t in TablesOf(kind)
    ensures var archive := Archived(db, kind, key).value;
            && t in Imported(archive.entries, schema, key', nonce)
            && Restored(other, archive, schema, key', nonce, nextCheck).Some?
            && Restored(other, archive, schema, key', nonce, nextCheck).value.Keys == other.Keys
            && Restored(other, archive, schema, key', nonce, nextCheck).value[t] ==
               Imported(archive.entries, schema, key', nonce)[t]
  {
    hide Archived, TablesOf, Imported, Cleared, Loaded, Sane, InsertRank, EnsuredAll, WithDefaults, Synced, Complete,
         Mirrors, INSERT_ORDER;
    var archive := Archived(db, kind, key).value;
    var data := Imported(archive.entries, schema, key', nonce);
    BackedUpTables(kind);
    LoadedTable(other, data, TargetChecks);
    LoadedTable(other, data, MonitorTargets);
    LoadedTable(other, data, AppSettings);
    LoadedTable(other, data, t);
    RestoredChecks(db, schema, kind, key, key', nonce);
    RestoredSettings(db, schema, kind, key, key', nonce);
    SyncedStays(Checks(data[TargetChecks], nextCheck), data[MonitorTargets]);
    CompleteStays(data[AppSettings], DEFAULT_SETTINGS);
    ArchivedKeys(db, kind, key, t);
    ImportedHas(archive.entries, schema, key', nonce, t);
    RestoredTotal(other, data);
  }

  lemma ImportedHas(entries: map<Table, seq<Row>>, schema: Schema, key: nat, nonce: nat, t: Table)
    ensures t in Imported(entries, schema, key, nonce) <==> t in entries
  {
    hide ImportRow;
  }

  lemma RestoredTotal(other: Database, data: Database)
    requires Total(other)
    ensures Total(Loaded(Cleared(other, |CLEAR_ORDER|), data, |INSERT_ORDER|, 0))
  {
    hide InsertRank, ClearedBy;
  }

  /**
   * Restoring a full backup over any database reproduces every row of every backed-up table in its
   * place: each column as it was, each secret under the new installation's key with the same text.
   */
  lemma FullRestoreReproduces(db: Database, other: Database, schema: Schema, key: nat, key': nat, nonce: nat,
                              nextCheck: int, t: Table)
    requires Sane(db, schema) && Total(other) && Archived(db, Full, key).Some? && t in FULL_TABLES
    ensures Restored(other, Archived(db, Full, key).value, schema, key', nonce, nextCheck).Some?
    ensures var after := Restored(other, Archived(db, Full, key).value, schema, key', nonce, nextCheck).value;
            && Total(after) && |after[t]| == |Rows(db, t)|
            && forall i :: 0 <= i < |Rows(db, t)| ==> SameRow(t, Rows(db, t)[i], key, after[t][i], key')
  {
    hide Archived, Restored, Imported, SameRow, Sane, FULL_TABLES;
    assert t in TablesOf(Full);
    RestoredIsLoaded(db, other, schema, Full, key, key', nonce, nextCheck, t);
    var archive := Archived(db, Full, key).value;
    ArchivedKeys(db, Full, key, t);
    forall i | 0 <= i < |Rows(db, t)|
      ensures |Imported(archive.entries, schema, key', nonce)[t]| == |Rows(db, t)|
      ensures SameRow(t, Rows(db, t)[i], key, Imported(archive.entries, schema, key', nonce)[t][i], key')
    {
      FullRowReturns(db, schema, key, key', nonce, t, i);
    }
    ImportedLength(archive.entries, schema, key', nonce, t);
  }

  lemma ImportedLength(entries: map<Table, seq<Row>>, schema: Schema, key: nat, nonce: nat, t: Table)
    requires t in entries
    ensures t in Imported(entries, schema, key, nonce) && |Imported(entries, schema, key, nonce)[t]| == |entries[t]|
  {
    hide ImportRow;
  }

  lemma FullRowReturns(db: Database, schema: Schema, key: nat, key': nat, nonce: nat, t: Table, i: nat)
    requires Sane(db, schema) && Archived(db, Full, key).Some? && t in TablesOf(Full) && i < |Rows(db, t)|
    ensures var data := Imported(Archived(db, Full, key).value.entries, schema, key', nonce);
            t in data && |data[t]| == |Rows(db, t)| && SameRow(t, Rows(db, t)[i], key, data[t][i], key')
  {
    hide Archived, WellTyped, TablesOf, ExportRow, ImportRow, SmtpPassword, SameRow, Typed, Synced, Complete;
    RowArchived(db, schema, Full, key, t, i);
    FullRow(t, Rows(db, t)[i], ColumnsOf(schema, t), key, SmtpPassword(db, key).value, key', nonce);
  }

  // ---------------------------------------------------------------- configuration backups

  lemma {:induction false} FindSettingAt(rows: seq<Row>, key: string) returns (i: nat)
    requires FindSetting(rows, key).Some?
    ensures i < |rows| && FindSetting(rows, key) == Some(rows[i]) && Get(rows[i], "key") == Text(key)
  {
    if Get(rows[0], "key") == Text(key) {
      i := 0;
    } else {
      var j := FindSettingAt(rows[1..], key);
      i := j + 1;
    }
  }

  /** The mail password comes back as it was. */
  lemma SmtpReturns(db: Database, after: Database, schema: Schema, kind: Kind, key: nat, key': nat, nonce: nat)
    requires Sane(db, schema) && Archived(db, kind, key).Some?
    requires Rows(after, AppSettings) ==
             Rows(Imported(Archived(db, kind, key).value.entries, schema, key', nonce), AppSettings)
    ensures SmtpPassword(after, key') == SmtpPassword(db, key)
  {
    hide Archived, TablesOf, Imported, FindSetting, WellTyped, Synced, Complete, Mirrors;
    BackedUpTables(kind);
    RestoredSettings(db, schema, kind, key, key', nonce);
    var rows := Rows(after, AppSettings);
    FindSettingMirrors(rows, Chosen(db, AppSettings, kind), SMTP_PASSWORD);
    if FindSetting(rows, SMTP_PASSWORD).Some? {
      var i := FindSettingAt(rows, SMTP_PASSWORD);
      SmtpRowReturns(db, schema, kind, key, key', nonce, i);
    }
  }

  lemma SmtpValueReturns(row: Row, columns: set<string>, kind: Kind, key: nat, smtp: string, key': nat, nonce: nat)
    requires Typed(AppSettings, row, columns) && ExportRow(AppSettings, row, kind, key, smtp).Some?
    requires IsSmtpPassword(AppSettings, row) && Unseal(key, Get(row, "value")) == Some(smtp)
    ensures var saved := ExportRow(AppSettings, row, kind, key, smtp).value;
            Unseal(key', Get(ImportRow(AppSettings, saved, columns, key', nonce), "value")) == Some(smtp)
  {
    hide Opened, Typed, IsSecret, Resets;
    StillSmtpPassword(AppSettings, row, columns, kind, key, smtp);
    SmtpColumns(AppSettings, row, columns);
    ExportedColumns(AppSettings, row, columns, kind, key, smtp, "value");
    OpenedSecret(AppSettings, row, columns, key, smtp, "value");
    TypedValue(row, columns);
  }

  lemma TypedValue(row: Row, columns: set<string>)
    requires Typed(AppSettings, row, columns) && IsSmtpPassword(AppSettings, row)
    ensures "value" in row && Get(row, "value") == row["value"]
  {
  }

  lemma SmtpRowReturns(db: Database, schema: Schema, kind: Kind, key: nat, key': nat, nonce: nat, i: nat)
    requires Sane(db, schema) && Archived(db, kind, key).Some? && AppSettings in TablesOf(kind)
    requires var data := Imported(Archived(db, kind, key).value.entries, schema, key', nonce);
             i < |Rows(data, AppSettings)| && Get(Rows(data, AppSettings)[i], "key") == Text(SMTP_PASSWORD)
    ensures var data := Imported(Archived(db, kind, key).value.entries, schema, key', nonce);
            Unseal(key', Get(Rows(data, AppSettings)[i], "value")) == SmtpPassword(db, key)
  {
    hide Archived, TablesOf, WellTyped, Synced, Complete, SmtpPassword, ExportRow, Typed, ImportRow, Unseal, Get, Plain;
    ArchivedKeys(db, kind, key, AppSettings);
    RowArchived(db, schema, kind, key, AppSettings, i);
    var row := Chosen(db, AppSettings, kind)[i];
    OtherNamesArePlain(row);
    ImportedRow(db, schema, kind, key, key', nonce, AppSettings, i, "key");
    SmtpValueReturns(row, ColumnsOf(schema, AppSettings), kind, key, SmtpPassword(db, key).value, key', nonce);
  }

  lemma {:induction false} AllLive(rows: seq<Row>)
    requires forall i :: 0 <= i < |rows| ==> Get(rows[i], "deleted_at") == Null
    ensures LiveUsers(rows) == rows
  {
    if rows != [] {
      AllLive(rows[..|rows| - 1]);
    }
  }

  /** No deleted user comes back with a configuration. */
  lemma ChosenAgain(db: Database, after: Database, schema: Schema, key: nat, key': nat, nonce: nat, t: Table)
    requires Sane(db, schema) && Archived(db, Configuration, key).Some? && t in TablesOf(Configuration)
    requires var data := Imported(Archived(db, Configuration, key).value.entries, schema, key', nonce);
             t in data && Rows(after, t) == data[t]
    ensures Chosen(after, t, Configuration) == Rows(after, t)
  {
    hide Archived, TablesOf, Imported, Synced, Complete, WellTyped, LiveUsers;
    if t == Users {
      ArchivedKeys(db, Configuration, key, t);
      ImportedLengthOf(db, schema, key, key', nonce, t);
      forall i | 0 <= i < |Rows(after, t)|
        ensures Get(Rows(after, t)[i], "deleted_at") == Null
      {
        LiveUsersIn(Rows(db, t), i);
        OtherNamesArePlain(Chosen(db, t, Configuration)[i]);
        ImportedRow(db, schema, Configuration, key, key', nonce, t, i, "deleted_at");
      }
      AllLive(Rows(after, t));
    }
  }

  lemma ImportedLengthOf(db: Database, schema: Schema, key: nat, key': nat, nonce: nat, t: Table)
    requires Archived(db, Configuration, key).Some? && t in TablesOf(Configuration)
    ensures var data := Imported(Archived(db, Configuration, key).value.entries, schema, key', nonce);
            t in data && |data[t]| == |Chosen(db, t, Configuration)|
  {
    hide Archived, TablesOf, Chosen;
    ArchivedKeys(db, Configuration, key, t);
    ImportedLength(Archived(db, Configuration, key).value.entries, schema, key', nonce, t);
  }

  /** A restored configuration table, saved again, is what the archive held. */
  lemma TableReturns(db: Database, after: Database, schema: Schema, key: nat, key': nat, nonce: nat, t: Table)
    requires Sane(db, schema) && Archived(db, Configuration, key).Some? && t in TablesOf(Configuration)
    requires var data := Imported(Archived(db, Configuration, key).value.entries, schema, key', nonce);
             t in data && Rows(after, t) == data[t]
    requires SmtpPassword(db, key).Some?
    ensures t in Archived(db, Configuration, key).value.entries
    ensures ExportAll(t, Chosen(after, t, Configuration), Configuration, key', SmtpPassword(db, key).value)
            == Some(Archived(db, Configuration, key).value.entries[t])
  {
    hide Archived, TablesOf, ExportRow, ImportRow, Chosen, Synced, Complete, WellTyped, SmtpPassword, ExportAll, Typed;
    ChosenAgain(db, after, schema, key, key', nonce, t);
    ArchivedKeys(db, Configuration, key, t);
    var saved, smtp := Archived(db, Configuration, key).value.entries[t], SmtpPassword(db, key).value;
    forall i | 0 <= i < |saved|
      ensures ExportRow(t, Rows(after, t)[i], Configuration, key', smtp) == Some(saved[i])
    {
      RowArchived(db, schema, Configuration, key, t, i);
      ConfigurationRow(t, Chosen(db, t, Configuration)[i], ColumnsOf(schema, t), key, smtp, key', nonce);
    }
    ExportAllFrom(t, Rows(after, t), Configuration, key', smtp, saved);
  }

  /** Saving a configuration, restoring it over any database and saving again gives the same archive. */
  lemma ConfigurationReturns(db: Database, other: Database, schema: Schema, key: nat, key': nat, nonce: nat,
                             nextCheck: int)
    requires Sane(db, schema) && Total(other) && Archived(db, Configuration, key).Some?
    ensures var archive := Archived(db, Configuration, key).value;
            var after := Restored(other, archive, schema, key', nonce, nextCheck);
            after.Some? && Archived(after.value, Configuration, key') == Some(archive)
  {
    hide Restored, Imported, Sane, SmtpPassword, ExportAll, ArchivedTables, Chosen, TablesOf;
    var archive := Archived(db, Configuration, key).value;
    var smtp := SmtpPassword(db, key).value;
    BackedUpTables(Configuration);
    RestoredIsLoaded(db, other, schema, Configuration, key, key', nonce, nextCheck, AppSettings);
    var after := Restored(other, archive, schema, key', nonce, nextCheck).value;
    SmtpReturns(db, after, schema, Configuration, key, key', nonce);
    forall t | t in TablesOf(Configuration)
      ensures t in archive.entries
      ensures ExportAll(t, Chosen(after, t, Configuration), Configuration, key', smtp) == Some(archive.entries[t])
    {
      RestoredIsLoaded(db, other, schema, Configuration, key, key', nonce, nextCheck, t);
      TableReturns(db, after, schema, key, key', nonce, t);
    }
    ArchivedTablesAre(after, Configuration, key', smtp, TablesOf(Configuration));
    forall t
      ensures t in archive.entries <==> t in TablesOf(Configuration)
    {
      ArchivedKeys(db, Configuration, key, t);
    }
    assert ArchivedTables(after, Configuration, key', smtp, TablesOf(Configuration)).value == archive.entries;
  }
}
