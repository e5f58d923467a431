/** Restoring gives back what was saved. */
module BackupRules {
  import opened Basics
  import opened BackupSchema
  import opened Backups
  import opened RestoreSteps

  // ---------------------------------------------------------------- one row

  /** A row has exactly the columns of its table, and its secret is a text, encrypted or empty. */
  predicate Typed(t: Table, row: Row, columns: set<string>) {
    && row.Keys == columns
    && (forall c :: c in columns && IsSecret(t, row, c) ==> row[c].Text? || row[c].Sealed?)
    && (t == SnmpConfigs ==> COMMUNITY in columns)
    && (IsSmtpPassword(t, row) ==> "value" in columns)
  }

  /** Columns that neither hold a secret nor are reset. */
  predicate Plain(t: Table, row: Row, column: string) {
    !IsSecret(t, row, column) && column !in Resets(t)
  }

  lemma OpenedColumns(t: Table, row: Row, columns: set<string>, key: nat, smtp: string)
    requires Typed(t, row, columns) && Opened(t, row, key, smtp).Some?
    ensures Opened(t, row, key, smtp).value.Keys == columns
    ensures forall c :: c in columns && !IsSecret(t, row, c) ==> Opened(t, row, key, smtp).value[c] == row[c]
  {
    hide Unseal;
    assert row["value" := Text(smtp)].Keys == row.Keys + {"value"};
  }

  /** The secret of an exported row is the text it stands for. */
  lemma OpenedSecret(t: Table, row: Row, columns: set<string>, key: nat, smtp: string, c: string)
    requires Typed(t, row, columns) && Opened(t, row, key, smtp).Some? && c in columns && IsSecret(t, row, c)
    requires IsSmtpPassword(t, row) ==> Unseal(key, Get(row, "value")) == Some(smtp)
    ensures Opened(t, row, key, smtp).value[c].Text?
    ensures Unseal(key, row[c]) == Some(Opened(t, row, key, smtp).value[c].text)
  {
  }

  /** The three names a secret or a setting goes by. */
  lemma ResetsSpare(t: Table, row: Row, c: string)
    requires IsSecret(t, row, c) || c == "key"
    ensures c !in Resets(t)
  {
    KeyNotReset();
    SecretsNotReset();
    hide CHECK_RUNTIME, CONFIG_RUNTIME, INTERFACE_RUNTIME, METRIC_RUNTIME, SUPPLY_RUNTIME, THRESHOLD_RUNTIME;
  }

  lemma KeyNotReset()
    ensures "key" !in CHECK_RUNTIME && "key" !in CONFIG_RUNTIME && "key" !in INTERFACE_RUNTIME
    ensures "key" !in METRIC_RUNTIME && "key" !in SUPPLY_RUNTIME && "key" !in THRESHOLD_RUNTIME
  {
  }

  lemma SecretsNotReset()
    ensures DIRECTORY_PASSWORD !in CHECK_RUNTIME && COMMUNITY !in CONFIG_RUNTIME
  {
  }

  lemma ExportedColumns(t: Table, row: Row, columns: set<string>, kind: Kind, key: nat, smtp: string, c: string)
    requires Typed(t, row, columns) && ExportRow(t, row, kind, key, smtp).Some? && c in columns
    ensures var saved := ExportRow(t, row, kind, key, smtp).value;
            && c in saved && c in row
            && (IsSecret(t, row, c) ==> Opened(t, row, key, smtp).Some? && c in Opened(t, row, key, smtp).value
                                        && saved[c] == Opened(t, row, key, smtp).value[c])
            && (!IsSecret(t, row, c) ==>
                saved[c] == if kind.Configuration? && c in Resets(t) then Resets(t)[c] else row[c])
  {
    hide Opened, Resets, IsSecret;
    OpenedColumns(t, row, columns, key, smtp);
    if IsSecret(t, row, c) {
      ResetsSpare(t, row, c);
    }
  }

  /** A column of what was going on, and what a configuration says in its place. */
  predicate Forgotten(t: Table, c: string, cell: Cell) {
    match t
    case MonitorTargets => RuntimeOfCheck(c, cell)
    case TargetChecks => RuntimeOfCheck(c, cell)
    case SnmpConfigs =>
      || (c == "last_status" && cell == Text("never"))
      || (c in {"last_attempt_at", "last_success_at", "last_error", "sys_name", "sys_descr", "sys_object_id",
                "sys_uptime_ticks", "system_data_at"} && cell == Null)
    case SnmpMetrics =>
      c in {"detected_type", "last_value", "last_numeric_value", "last_collected_at", "last_error"} && cell == Null
    case SnmpSupplies =>
      || (c == "level_state" && cell == Text("never")) || (c == "present" && cell == Flag(false))
      || (c in {"max_capacity", "level", "percent_remaining", "last_seen_at", "last_polled_at", "last_error"}
          && cell == Null)
    case SnmpThresholds =>
      (c == "current_level" && cell == Text("normal")) || (c in {"last_value", "last_evaluated_at"} && cell == Null)
    case SnmpInterfaces =>
      || (c == "present" && cell == Flag(false))
      || (c in {"admin_status", "oper_status", "last_seen_at", "last_polled_at", "last_error", "traffic_counter_mode",
                "in_octets", "out_octets", "traffic_at", "traffic_uptime_ticks", "rx_bps", "tx_bps", "in_errors",
                "out_errors", "in_discards", "out_discards", "traffic_error"} && cell == Null)
    case _ => false
  }

  predicate RuntimeOfCheck(c: string, cell: Cell) {
    || (c == "unstable_pending_down" && cell == Flag(false))
    || (c in {"unstable_until", "directory_last_files", "directory_recent_count", "directory_latest_file_at",
              "directory_scanned_at"} && cell == Null)
  }

  lemma CheckForgets(c: string, cell: Cell)
    ensures c in CHECK_RUNTIME && CHECK_RUNTIME[c] == cell <==> RuntimeOfCheck(c, cell)
  {
  }

  lemma ConfigForgets(c: string, cell: Cell)
    ensures c in CONFIG_RUNTIME && CONFIG_RUNTIME[c] == cell <==> Forgotten(SnmpConfigs, c, cell)
  {
  }

  lemma MetricForgets(c: string, cell: Cell)
    ensures c in METRIC_RUNTIME && METRIC_RUNTIME[c] == cell <==> Forgotten(SnmpMetrics, c, cell)
  {
  }

  lemma SupplyForgets(c: string, cell: Cell)
    ensures c in SUPPLY_RUNTIME && SUPPLY_RUNTIME[c] == cell <==> Forgotten(SnmpSupplies, c, cell)
  {
  }

  lemma ThresholdForgets(c: string, cell: Cell)
    ensures c in THRESHOLD_RUNTIME && THRESHOLD_RUNTIME[c] == cell <==> Forgotten(SnmpThresholds, c, cell)
  {
  }

  lemma InterfaceForgets(c: string, cell: Cell)
    ensures c in INTERFACE_RUNTIME && INTERFACE_RUNTIME[c] == cell <==> Forgotten(SnmpInterfaces, c, cell)
  {
  }

  lemma ResetsForget(t: Table, c: string, cell: Cell)
    ensures c in Resets(t) && Resets(t)[c] == cell <==> Forgotten(t, c, cell)
  {
    hide CHECK_RUNTIME, CONFIG_RUNTIME, INTERFACE_RUNTIME, METRIC_RUNTIME, SUPPLY_RUNTIME, THRESHOLD_RUNTIME,
         RuntimeOfCheck;
    match t
    case MonitorTargets => CheckForgets(c, cell);
    case TargetChecks => CheckForgets(c, cell);
    case SnmpConfigs => ConfigForgets(c, cell);
    case SnmpMetrics => MetricForgets(c, cell);
    case SnmpSupplies => SupplyForgets(c, cell);
    case SnmpThresholds => ThresholdForgets(c, cell);
    case SnmpInterfaces => InterfaceForgets(c, cell);
    case _ =>
  }

  /**
   * A configuration archive forgets what was going on, table by table and column by column, and keeps every
   * other column of a row that holds no secret; a full archive forgets nothing.
   */
  lemma ConfigurationForgets(t: Table, row: Row, columns: set<string>, kind: Kind, key: nat, smtp: string, c: string)
    requires Typed(t, row, columns) && ExportRow(t, row, kind, key, smtp).Some? && c in columns
    requires !IsSecret(t, row, c)
    ensures var saved := ExportRow(t, row, kind, key, smtp).value;
            && c in saved
            && (kind.Configuration? ==>
                  && (forall cell :: Forgotten(t, c, cell) ==> saved[c] == cell)
                  && ((forall cell :: !Forgotten(t, c, cell)) ==> saved[c] == row[c]))
            && (kind.Full? ==> saved[c] == row[c])
  {
    hide Opened, Resets, IsSecret, Forgotten;
    ExportedColumns(t, row, columns, kind, key, smtp, c);
    forall cell: Cell ensures Forgotten(t, c, cell) <==> c in Resets(t) && Resets(t)[c] == cell {
      ResetsForget(t, c, cell);
    }
    if c in Resets(t) {
      assert Forgotten(t, c, Resets(t)[c]);
    }
  }

  lemma StillSmtpPassword(t: Table, row: Row, columns: set<string>, kind: Kind, key: nat, smtp: string)
    requires Typed(t, row, columns) && ExportRow(t, row, kind, key, smtp).Some?
    ensures IsSmtpPassword(t, ExportRow(t, row, kind, key, smtp).value) == IsSmtpPassword(t, row)
    ensures forall c :: IsSecret(t, ExportRow(t, row, kind, key, smtp).value, c) == IsSecret(t, row, c)
  {
    hide Opened;
    OpenedColumns(t, row, columns, key, smtp);
    if t == AppSettings && "key" in columns {
      ExportedColumns(t, row, columns, kind, key, smtp, "key");
    }
  }

  /** A full backup of a row, restored: every column as it was, secrets under the new key with the same text. */
  predicate SameRow(t: Table, row: Row, key: nat, restored: Row, key': nat) {
    && restored.Keys == row.Keys
    && forall c :: c in row.Keys ==>
         if IsSecret(t, row, c) then Unseal(key', restored[c]) == Unseal(key, row[c]) != None else restored[c] == row[c]
  }

  lemma FullRow(t: Table, row: Row, columns: set<string>, key: nat, smtp: string, key': nat, nonce: nat)
    requires Typed(t, row, columns) && ExportRow(t, row, Full, key, smtp).Some?
    requires IsSmtpPassword(t, row) ==> Unseal(key, Get(row, "value")) == Some(smtp)
    ensures SameRow(t, row, key, ImportRow(t, ExportRow(t, row, Full, key, smtp).value, columns, key', nonce), key')
  {
    hide Opened, IsSecret, Resets;
    var saved := ExportRow(t, row, Full, key, smtp).value;
    StillSmtpPassword(t, row, columns, Full, key, smtp);
    forall c | c in columns
      ensures c in saved
      ensures var out := if IsSecret(t, row, c) then Seal(key', SecretText(saved[c]), nonce) else saved[c];
              if IsSecret(t, row, c) then Unseal(key', out) == Unseal(key, row[c]) != None else out == row[c]
    {
      ExportedColumns(t, row, columns, Full, key, smtp, c);
      if IsSecret(t, row, c) {
        OpenedSecret(t, row, columns, key, smtp, c);
      }
    }
  }

  /** Columns that are neither secret nor reset survive any backup. */
  lemma PlainSurvives(t: Table, row: Row, columns: set<string>, kind: Kind, key: nat, smtp: string, key': nat,
                      nonce: nat, c: string)
    requires Typed(t, row, columns) && ExportRow(t, row, kind, key, smtp).Some? && Plain(t, row, c)
    ensures Get(ImportRow(t, ExportRow(t, row, kind, key, smtp).value, columns, key', nonce), c) == Get(row, c)
  {
    hide Opened, IsSecret, Resets;
    StillSmtpPassword(t, row, columns, kind, key, smtp);
    if c in columns {
      ExportedColumns(t, row, columns, kind, key, smtp, c);
    }
  }

  /** A secret text, sealed and opened again, is the text. */
  lemma SealedOpens(key: nat, plain: string, nonce: nat)
    ensures Unseal(key, Seal(key, plain, nonce)) == Some(plain)
    ensures Truthy(Seal(key, plain, nonce)) <==> plain != ""
    ensures plain == "" ==> Seal(key, plain, nonce) == Text("")
  {
  }

  /** The archived row without what the table has no column for. */
  function Kept(saved: Row, columns: set<string>): Row
    requires columns <= saved.Keys
  {
    map c | c in columns :: saved[c]
  }

  lemma ReopenedSetting(saved: Row, columns: set<string>, key': nat, nonce: nat, smtp: string)
    requires columns <= saved.Keys && ("key" in saved ==> "key" in columns)
    requires IsSmtpPassword(AppSettings, saved) ==> "value" in columns && saved["value"] == Text(smtp)
    ensures Opened(AppSettings, ImportRow(AppSettings, saved, columns, key', nonce), key', smtp) ==
            Some(Kept(saved, columns))
  {
    hide Unseal, Truthy, Seal;
    var back := ImportRow(AppSettings, saved, columns, key', nonce);
    assert Get(back, "key") == Get(saved, "key");
    if IsSmtpPassword(AppSettings, saved) {
      assert back["value" := Text(smtp)] == Kept(saved, columns);
    } else {
      assert back == Kept(saved, columns);
    }
  }

  lemma ReopenedCheck(saved: Row, columns: set<string>, key': nat, nonce: nat, smtp: string)
    requires columns <= saved.Keys && (DIRECTORY_PASSWORD in columns ==> saved[DIRECTORY_PASSWORD].Text?)
    ensures Opened(TargetChecks, ImportRow(TargetChecks, saved, columns, key', nonce), key', smtp) ==
            Some(Kept(saved, columns))
  {
    hide Unseal, Truthy, Seal;
    var back := ImportRow(TargetChecks, saved, columns, key', nonce);
    if DIRECTORY_PASSWORD in columns {
      SealedOpens(key', saved[DIRECTORY_PASSWORD].text, nonce);
      assert back[DIRECTORY_PASSWORD := saved[DIRECTORY_PASSWORD]] == Kept(saved, columns);
      if saved[DIRECTORY_PASSWORD].text == "" {
        assert back == Kept(saved, columns);
      }
    } else {
      NullIsNotTruthy();
      assert back == Kept(saved, columns);
    }
  }

  lemma NullIsNotTruthy()
    ensures !Truthy(Null)
    ensures forall key: nat :: Unseal(key, Text("")) == Some("")
  {
  }

  lemma ReopenedCommunity(saved: Row, columns: set<string>, key': nat, nonce: nat, smtp: string)
    requires columns <= saved.Keys && COMMUNITY in columns && saved[COMMUNITY].Text?
    ensures Opened(SnmpConfigs, ImportRow(SnmpConfigs, saved, columns, key', nonce), key', smtp) ==
            Some(Kept(saved, columns))
  {
    hide Unseal, Truthy, Seal;
    var back := ImportRow(SnmpConfigs, saved, columns, key', nonce);
    SealedOpens(key', saved[COMMUNITY].text, nonce);
    NullIsNotTruthy();
    assert back[COMMUNITY := saved[COMMUNITY]] == Kept(saved, columns);
  }

  lemma ReopenedOther(t: Table, saved: Row, columns: set<string>, key': nat, nonce: nat, smtp: string)
    requires t != AppSettings && t != TargetChecks && t != SnmpConfigs && columns <= saved.Keys
    ensures Opened(t, ImportRow(t, saved, columns, key', nonce), key', smtp) == Some(Kept(saved, columns))
  {
    hide Unseal, Truthy, Seal;
    assert ImportRow(t, saved, columns, key', nonce) == Kept(saved, columns);
  }

  /** An archived row, its secret sealed and opened again, is the archived row. */
  lemma ReopenedRow(t: Table, saved: Row, columns: set<string>, key': nat, nonce: nat, smtp: string)
    requires columns <= saved.Keys
    requires forall c :: c in columns && IsSecret(t, saved, c) ==> saved[c].Text?
    requires t == SnmpConfigs ==> COMMUNITY in columns
    requires IsSmtpPassword(t, saved) ==> "value" in columns && saved["value"] == Text(smtp)
    requires t == AppSettings && "key" in saved ==> "key" in columns
    ensures Opened(t, ImportRow(t, saved, columns, key', nonce), key', smtp) == Some(Kept(saved, columns))
  {
    hide Opened, ImportRow, Kept, IsSmtpPassword;
    match t
    case AppSettings => ReopenedSetting(saved, columns, key', nonce, smtp);
    case TargetChecks => ReopenedCheck(saved, columns, key', nonce, smtp);
    case SnmpConfigs => ReopenedCommunity(saved, columns, key', nonce, smtp);
    case _ => ReopenedOther(t, saved, columns, key', nonce, smtp);
  }

  /** Saving, restoring and saving a configuration row again gives the same archived row. */
  lemma ConfigurationRow(t: Table, row: Row, columns: set<string>, key: nat, smtp: string, key': nat, nonce: nat)
    requires Typed(t, row, columns) && ExportRow(t, row, Configuration, key, smtp).Some?
    requires IsSmtpPassword(t, row) ==> Unseal(key, Get(row, "value")) == Some(smtp)
    ensures var saved := ExportRow(t, row, Configuration, key, smtp).value;
            ExportRow(t, ImportRow(t, saved, columns, key', nonce), Configuration, key', smtp) == Some(saved)
  {
    hide Opened, IsSecret, Resets, ImportRow;
    var saved := ExportRow(t, row, Configuration, key, smtp).value;
    OpenedColumns(t, row, columns, key, smtp);
    StillSmtpPassword(t, row, columns, Configuration, key, smtp);
    forall c | c in columns
      ensures c in saved && (IsSecret(t, row, c) ==> saved[c].Text? && Unseal(key, row[c]) == Some(saved[c].text))
    {
      ExportedColumns(t, row, columns, Configuration, key, smtp, c);
      if IsSecret(t, row, c) {
        OpenedSecret(t, row, columns, key, smtp, c);
      }
    }
    SmtpColumns(t, row, columns);
    ReopenedRow(t, saved, columns, key', nonce, smtp);
    assert Kept(saved, columns) + Resets(t) == saved;
  }

  lemma SmtpColumns(t: Table, row: Row, columns: set<string>)
    requires Typed(t, row, columns)
    ensures IsSmtpPassword(t, row) ==> "value" in columns && "key" in columns && IsSecret(t, row, "value")
    ensures t == AppSettings ==> "key" !in Resets(t)
  {
  }

  // ---------------------------------------------------------------- tables

  lemma {:induction false} ExportAllAt(t: Table, rows: seq<Row>, kind: Kind, key: nat, smtp: string, i: nat)
    requires ExportAll(t, rows, kind, key, smtp).Some? && i < |rows|
    ensures ExportRow(t, rows[i], kind, key, smtp) == Some(ExportAll(t, rows, kind, key, smtp).value[i])
  {
    hide ExportRow;
    if i < |rows| - 1 {
      ExportAllAt(t, rows[..|rows| - 1], kind, key, smtp, i);
    }
  }

  lemma {:induction false} ExportAllFrom(t: Table, rows: seq<Row>, kind: Kind, key: nat, smtp: string, saved: seq<Row>)
    requires |rows| == |saved| && forall i :: 0 <= i < |rows| ==>
               ExportRow(t, rows[i], kind, key, smtp) == Some(saved[i])
    ensures ExportAll(t, rows, kind, key, smtp) == Some(saved)
  {
    hide ExportRow;
    if rows != [] {
      var last := |rows| - 1;
      ExportAllFrom(t, rows[..last], kind, key, smtp, saved[..last]);
      assert saved[..last] + [saved[last]] == saved;
    } else {
      assert saved == [];
    }
  }

  lemma {:induction false} ArchivedTablesAre(db: Database, kind: Kind, key: nat, smtp: string, tables: seq<Table>)
    ensures ArchivedTables(db, kind, key, smtp, tables).Some?
            <==> forall t :: t in tables ==> ExportAll(t, Chosen(db, t, kind), kind, key, smtp).Some?
    ensures ArchivedTables(db, kind, key, smtp, tables).Some? ==>
              && (forall t :: t in ArchivedTables(db, kind, key, smtp, tables).value <==> t in tables)
              && (forall t :: t in tables ==>
                    ExportAll(t, Chosen(db, t, kind), kind, key, smtp) ==
                      Some(ArchivedTables(db, kind, key, smtp, tables).value[t]))
  {
    hide ExportAll, Chosen;
    if tables != [] {
      var last := |tables| - 1;
      ArchivedTablesAre(db, kind, key, smtp, tables[..last]);
      assert forall t :: t in tables <==> t in tables[..last] || t == tables[last];
    }
  }

  /** A database whose rows have the columns and secrets their tables call for, with one row per setting. */
  ghost predicate WellTyped(db: Database, schema: Schema) {
    && Total(db)
    && (forall t, i :: t in db && 0 <= i < |db[t]| ==> Typed(t, db[t][i], ColumnsOf(schema, t)))
    && (forall i, j :: 0 <= i < j < |db[AppSettings]| ==>
        Get(db[AppSettings][i], "key") != Get(db[AppSettings][j], "key"))
  }

  lemma {:induction false} SettingFound(rows: seq<Row>, key: string, i: nat)
    requires i < |rows| && Get(rows[i], "key") == Text(key)
    requires forall i, j :: 0 <= i < j < |rows| ==> Get(rows[i], "key") != Get(rows[j], "key")
    ensures FindSetting(rows, key) == Some(rows[i])
  {
    if i > 0 {
      SettingFound(rows[1..], key, i - 1);
    }
  }

  /** The password an archive holds is the text of the one mail password there is. */
  lemma SmtpIsTheRow(db: Database, schema: Schema, key: nat, i: nat)
    requires WellTyped(db, schema) && i < |db[AppSettings]| && IsSmtpPassword(AppSettings, db[AppSettings][i])
    ensures Unseal(key, Get(db[AppSettings][i], "value")) == SmtpPassword(db, key)
  {
    hide FindSetting;
    SettingFound(db[AppSettings], SMTP_PASSWORD, i);
  }

  /** The facts about one archived row that the rules above ask for. */
  lemma RowArchived(db: Database, schema: Schema, kind: Kind, key: nat, t: Table, i: nat)
    requires WellTyped(db, schema) && Archived(db, kind, key).Some? && t in TablesOf(kind) && i < |Chosen(db, t, kind)|
    ensures var entries, row := Archived(db, kind, key).value.entries, Chosen(db, t, kind)[i];
            && t in entries && |entries[t]| == |Chosen(db, t, kind)|
            && Typed(t, row, ColumnsOf(schema, t))
            && SmtpPassword(db, key).Some?
            && ExportRow(t, row, kind, key, SmtpPassword(db, key).value) == Some(entries[t][i])
            && (IsSmtpPassword(t, row) ==> Unseal(key, Get(row, "value")) == SmtpPassword(db, key))
  {
    hide ExportAll, ExportRow, SmtpPassword, LiveUsers, TablesOf, ArchivedTables, Typed;
    var smtp := SmtpPassword(db, key).value;
    ArchivedTablesAre(db, kind, key, smtp, TablesOf(kind));
    ExportAllAt(t, Chosen(db, t, kind), kind, key, smtp, i);
    if t == Users {
      LiveUsersAre(db[t], i, kind);
    } else if IsSmtpPassword(t, db[t][i]) {
      SmtpIsTheRow(db, schema, key, i);
    }
  }

  lemma {:induction false} LiveUsersIn(rows: seq<Row>, i: nat)
    requires i < |LiveUsers(rows)|
    ensures LiveUsers(rows)[i] in rows && Get(LiveUsers(rows)[i], "deleted_at") == Null
  {
    var last := |rows| - 1;
    if i < |LiveUsers(rows[..last])| {
      LiveUsersIn(rows[..last], i);
      assert LiveUsers(rows[..last])[i] in rows[..last];
    }
  }

  /** A configuration keeps exactly the users that are not deleted. */
  lemma {:induction false} LiveUsersExactly(rows: seq<Row>, row: Row)
    ensures row in LiveUsers(rows) <==> row in rows && Get(row, "deleted_at") == Null
  {
    if rows != [] {
      var last := |rows| - 1;
      LiveUsersExactly(rows[..last], row);
      assert row in rows <==> row in rows[..last] || row == rows[last];
    }
  }

  lemma LiveUsersAre(rows: seq<Row>, i: nat, kind: Kind)
    requires i < |if kind.Configuration? then LiveUsers(rows) else rows|
    ensures (if kind.Configuration? then LiveUsers(rows) else rows)[i] in rows
  {
    if kind.Configuration? {
      LiveUsersIn(rows, i);
    }
  }

  // ---------------------------------------------------------------- references

  predicate IsKeyName(column: string) {
    |column| >= 2 && column[|column| - 2] == 'i' && column[|column| - 1] == 'd' && |column| != |"sys_object_id"|
  }

  lemma KeyNames()
    ensures IsKeyName("id") && IsKeyName("schedule_id") && IsKeyName("site_id") && IsKeyName("target_id")
            && IsKeyName("check_id")
    ensures IsKeyName("interface_id") && IsKeyName("metric_id") && IsKeyName("supply_id")
  {
  }

  lemma PeopleKeyNames()
    ensures IsKeyName("user_id") && IsKeyName("sender_id") && IsKeyName("recipient_id")
    ensures IsKeyName("requester_id") && IsKeyName("peer_id")
  {
  }

  lemma LinkNames(child: Table, link: Link)
    requires link in LinksOf(child)
    ensures IsKeyName(link.column) && IsKeyName(link.parentColumn)
  {
    KeyNames();
    PeopleKeyNames();
    hide IsKeyName;
  }

  lemma NotInCheckRuntime(column: string)
    requires IsKeyName(column)
    ensures column !in CHECK_RUNTIME
  {
  }

  lemma NotInConfigRuntime(column: string)
    requires IsKeyName(column)
    ensures column !in CONFIG_RUNTIME
  {
  }

  lemma NotInInterfaceRuntime(column: string)
    requires IsKeyName(column)
    ensures column !in INTERFACE_RUNTIME
  {
  }

  lemma NotInSmallRuntimes(column: string)
    requires IsKeyName(column)
    ensures column !in METRIC_RUNTIME && column !in SUPPLY_RUNTIME && column !in THRESHOLD_RUNTIME
  {
  }

  lemma KeysAreNotReset(t: Table, column: string)
    requires IsKeyName(column)
    ensures column !in Resets(t)
  {
    NotInCheckRuntime(column);
    NotInConfigRuntime(column);
    NotInInterfaceRuntime(column);
    NotInSmallRuntimes(column);
    hide IsKeyName, CHECK_RUNTIME, CONFIG_RUNTIME, INTERFACE_RUNTIME, METRIC_RUNTIME, SUPPLY_RUNTIME, THRESHOLD_RUNTIME;
  }

  lemma KeysAreNotSecret(t: Table, row: Row, column: string)
    requires IsKeyName(column)
    ensures !IsSecret(t, row, column)
  {
  }

  /** Neither end of a reference is a secret or reset. */
  lemma LinkColumnsArePlain(child: Table, link: Link, row: Row, parentRow: Row)
    requires link in LinksOf(child)
    ensures Plain(child, row, link.column) && Plain(link.parent, parentRow, link.parentColumn)
  {
    hide LinksOf, IsSecret, Resets, IsKeyName;
    LinkNames(child, link);
    KeysAreNotReset(child, link.column);
    KeysAreNotReset(link.parent, link.parentColumn);
    KeysAreNotSecret(child, row, link.column);
    KeysAreNotSecret(link.parent, parentRow, link.parentColumn);
  }

  /** A backed-up table refers to backed-up tables, of which all rows are saved. */
  lemma ParentsAreSaved(db: Database, child: Table, link: Link, kind: Kind)
    requires link in LinksOf(child) && child in TablesOf(kind)
    ensures link.parent in TablesOf(kind) && Chosen(db, link.parent, kind) == Rows(db, link.parent)
    ensures Chosen(db, child, kind) == Rows(db, child)
  {
    hide LinksOf, CONFIGURATION_TABLES, FULL_TABLES, LiveUsers;
    ConfigurationIsClosed(child, link);
    NoLinksFromUsers(link);
  }

  lemma NoLinksFromUsers(link: Link)
    ensures link !in LinksOf(Users)
  {
  }

  /** What is restored of an archive refers to nothing that is missing. */
  lemma ArchiveIsConsistent(db: Database, schema: Schema, kind: Kind, key: nat, key': nat, nonce: nat)
    requires WellTyped(db, schema) && Consistent(db) && Archived(db, kind, key).Some?
    ensures Consistent(Imported(Archived(db, kind, key).value.entries, schema, key', nonce))
  {
    hide LinksOf, WellTyped, Archived, Imported;
    var data := Imported(Archived(db, kind, key).value.entries, schema, key', nonce);
    forall child, link | link in LinksOf(child)
      ensures LinkHolds(data, child, link)
    {
      ArchivedLink(db, schema, kind, key, key', nonce, child, link);
    }
  }

  lemma ImportedRow(db: Database, schema: Schema, kind: Kind, key: nat, key': nat, nonce: nat, t: Table, i: nat,
                    c: string)
    requires WellTyped(db, schema) && Archived(db, kind, key).Some? && t in TablesOf(kind) && i < |Chosen(db, t, kind)|
    requires Plain(t, Chosen(db, t, kind)[i], c)
    ensures var data := Imported(Archived(db, kind, key).value.entries, schema, key', nonce);
            && t in data && |data[t]| == |Chosen(db, t, kind)|
            && Get(data[t][i], c) == Get(Chosen(db, t, kind)[i], c)
  {
    hide WellTyped, Archived, Chosen, TablesOf, ExportRow, SmtpPassword, Typed, ImportRow, Plain, Get;
    RowArchived(db, schema, kind, key, t, i);
    PlainSurvives(t, Chosen(db, t, kind)[i], ColumnsOf(schema, t), kind, key, SmtpPassword(db, key).value, key', nonce,
                  c);
  }

  lemma ArchivedKeys(db: Database, kind: Kind, key: nat, t: Table)
    requires Archived(db, kind, key).Some?
    ensures t in Archived(db, kind, key).value.entries <==> t in TablesOf(kind)
    ensures t in TablesOf(kind) ==> |Archived(db, kind, key).value.entries[t]| == |Chosen(db, t, kind)|
  {
    hide ExportAll, SmtpPassword, Chosen, TablesOf, ArchivedTables;
    ArchivedTablesAre(db, kind, key, SmtpPassword(db, key).value, TablesOf(kind));
  }

  lemma ArchivedLink(db: Database, schema: Schema, kind: Kind, key: nat, key': nat, nonce: nat, child: Table,
                     link: Link)
    requires WellTyped(db, schema) && Consistent(db) && Archived(db, kind, key).Some? && link in LinksOf(child)
    ensures LinkHolds(Imported(Archived(db, kind, key).value.entries, schema, key', nonce), child, link)
  {
    hide LinksOf, WellTyped, Archived, TablesOf, ImportRow, Chosen, Plain, Get;
    var data := Imported(Archived(db, kind, key).value.entries, schema, key', nonce);
    ArchivedKeys(db, kind, key, child);
    if child in TablesOf(kind) {
      ParentsAreSaved(db, child, link, kind);
      ArchivedKeys(db, kind, key, link.parent);
      assert LinkHolds(db, child, link);
      forall i | 0 <= i < |data[child]|
        ensures Resolved(data[child][i], link, Rows(data, link.parent))
      {
        var row := Rows(db, child)[i];
        assert row in Rows(db, child);
        LinkColumnsArePlain(child, link, row, row);
        ImportedRow(db, schema, kind, key, key', nonce, child, i, link.column);
        if Get(row, link.column) != Null {
          var j :| 0 <= j < |Rows(db, link.parent)|
            && Get(Rows(db, link.parent)[j], link.parentColumn) == Get(row, link.column);
          LinkColumnsArePlain(child, link, row, Rows(db, link.parent)[j]);
          ImportedRow(db, schema, kind, key, key', nonce, link.parent, j, link.parentColumn);
        }
      }
    }
  }

  // ---------------------------------------------------------------- which backups succeed

  /** A secret the key opens, or none. */
  predicate Opens(key: nat, cell: Cell) {
    cell == Null || cell == Text("") || (cell.Sealed? && cell.key == key)
  }

  /** The secret of a row, if its table has one: read like any value Python takes for false when it is not set. */
  predicate SecretOpens(t: Table, row: Row, key: nat) {
    var unset := {Null, Text(""), Whole(0), Flag(false)};
    && (t == TargetChecks ==> var cell := Get(row, "directory_password_encrypted"); cell in unset || Opens(key, cell))
    && (t == SnmpConfigs ==> var cell := Get(row, "community_encrypted"); cell in unset || Opens(key, cell))
  }

  lemma {:induction false} ExportedWhen(t: Table, rows: seq<Row>, kind: Kind, key: nat, smtp: string)
    ensures ExportAll(t, rows, kind, key, smtp).Some? <==> forall row :: row in rows ==> SecretOpens(t, row, key)
  {
    hide Opened, SecretOpens, Resets;
    if rows != [] {
      var last := |rows| - 1;
      ExportedWhen(t, rows[..last], kind, key, smtp);
      OpenedWhen(t, rows[last], key, smtp);
      assert rows == rows[..last] + [rows[last]];
    }
  }

  lemma OpenedWhen(t: Table, row: Row, key: nat, smtp: string)
    ensures Opened(t, row, key, smtp).Some? <==> SecretOpens(t, row, key)
  {
  }

  lemma {:induction false} TablesArchivedWhen(db: Database, kind: Kind, key: nat, smtp: string, tables: seq<Table>)
    ensures ArchivedTables(db, kind, key, smtp, tables).Some? <==>
            forall t, row :: t in tables && row in Chosen(db, t, kind) ==> SecretOpens(t, row, key)
  {
    hide Chosen, SecretOpens, ExportAll;
    if tables != [] {
      var last := |tables| - 1;
      TablesArchivedWhen(db, kind, key, smtp, tables[..last]);
      ExportedWhen(tables[last], Chosen(db, tables[last], kind), kind, key, smtp);
      assert tables == tables[..last] + [tables[last]];
    }
  }

  /**
   * A backup of either kind is written exactly when the key opens the mail password, if there is one, and every
   * directory password and community that is set.
   */
  lemma BackupSucceedsExactly(db: Database, kind: Kind, key: nat)
    ensures var mail := FindSetting(Rows(db, AppSettings), "smtp_password");
            Archived(db, kind, key).Some? <==>
            && (mail.Some? ==> Opens(key, Get(mail.value, "value")))
            && (forall row :: row in Rows(db, TargetChecks) ==> SecretOpens(TargetChecks, row, key))
            && (forall row :: row in Rows(db, SnmpConfigs) ==> SecretOpens(SnmpConfigs, row, key))
  {
    hide FindSetting, TablesOf, ArchivedTables, SmtpPassword, SecretOpens, Opens, LiveUsers;
    MailOpens(db, key);
    if SmtpPassword(db, key).Some? {
      TablesArchivedWhen(db, kind, key, SmtpPassword(db, key).value, TablesOf(kind));
    }
    SecretTables(kind);
    assert Chosen(db, TargetChecks, kind) == Rows(db, TargetChecks);
    assert Chosen(db, SnmpConfigs, kind) == Rows(db, SnmpConfigs);
    forall t, row | t != TargetChecks && t != SnmpConfigs ensures SecretOpens(t, row, key) {
      NoSecret(t, row, key);
    }
  }

  lemma MailOpens(db: Database, key: nat)
    ensures var mail := FindSetting(Rows(db, AppSettings), "smtp_password");
            SmtpPassword(db, key).Some? <==> (mail.Some? ==> Opens(key, Get(mail.value, "value")))
  {
    hide FindSetting;
  }

  lemma NoSecret(t: Table, row: Row, key: nat)
    requires t != TargetChecks && t != SnmpConfigs
    ensures SecretOpens(t, row, key)
  {
  }

  lemma SecretTables(kind: Kind)
    ensures TargetChecks in TablesOf(kind) && SnmpConfigs in TablesOf(kind)
  {
    assert CONFIGURATION_TABLES[5] == TargetChecks && CONFIGURATION_TABLES[6] == SnmpConfigs;
    assert forall t :: t in CONFIGURATION_TABLES ==> t in FULL_TABLES;
  }
}
