/** Creating a backup and restoring one over whatever the database holds. */
module Backups {
  import opened Basics
  import opened BackupSchema

  datatype Kind = Configuration | Full

  /** The rows of an archive, with secrets in the clear. */
  datatype Archive = Archive(kind: Kind, entries: map<Table, seq<Row>>)

  function TablesOf(kind: Kind): seq<Table> {
    if kind.Configuration? then CONFIGURATION_TABLES else FULL_TABLES
  }

  // ---------------------------------------------------------------- secrets

  /** Encryption under an installation's key; the empty text stays empty. */
  function Seal(key: nat, plain: string, nonce: nat): Cell {
    if plain == "" then Text("") else Sealed(key, plain, nonce)
  }

  /** Decryption fails on anything not encrypted under this key. */
  function Unseal(key: nat, cell: Cell): Option<string> {
    match cell
    case Null => Some("")
    case Text(text) => if text == "" then Some("") else None
    case Sealed(k, plain, _) => if k == key then Some(plain) else None
    case _ => None
  }

  predicate Truthy(cell: Cell) {
    cell != Null && cell != Text("") && cell != Whole(0) && cell != Flag(false)
  }

  const SMTP_PASSWORD := "smtp_password"
  const COMMUNITY := "community_encrypted"
  const DIRECTORY_PASSWORD := "directory_password_encrypted"

  predicate IsSmtpPassword(t: Table, row: Row) {
    t == AppSettings && Get(row, "key") == Text(SMTP_PASSWORD)
  }

  /** The columns that hold ciphertext. */
  predicate IsSecret(t: Table, row: Row, column: string) {
    || (IsSmtpPassword(t, row) && column == "value")
    || (t == SnmpConfigs && column == COMMUNITY)
    || (t == TargetChecks && column == DIRECTORY_PASSWORD)
  }

  function FindSetting(rows: seq<Row>, key: string): Option<Row> {
    if rows == [] then None
    else if Get(rows[0], "key") == Text(key) then Some(rows[0])
    else FindSetting(rows[1..], key)
  }

  /** The password the portal would send mail with. */
  function SmtpPassword(db: Database, key: nat): Option<string> {
    var setting := FindSetting(Rows(db, AppSettings), SMTP_PASSWORD);
    if setting.None? then Some("") else Unseal(key, Get(setting.value, "value"))
  }

  // ---------------------------------------------------------------- what an archive holds of a row

  const CHECK_RUNTIME: Row :=
    map["unstable_pending_down" := Flag(false), "unstable_until" := Null, "directory_last_files" := Null,
        "directory_recent_count" := Null, "directory_latest_file_at" := Null, "directory_scanned_at" := Null]

  const CONFIG_RUNTIME: Row :=
    map["last_status" := Text("never"), "last_attempt_at" := Null, "last_success_at" := Null, "last_error" := Null,
        "sys_name" := Null, "sys_descr" := Null, "sys_object_id" := Null, "sys_uptime_ticks" := Null,
        "system_data_at" := Null]

  const METRIC_RUNTIME: Row :=
    map["detected_type" := Null, "last_value" := Null, "last_numeric_value" := Null, "last_collected_at" := Null,
        "last_error" := Null]

  const SUPPLY_RUNTIME: Row :=
    map["max_capacity" := Null, "level" := Null, "percent_remaining" := Null, "level_state" := Text("never"),
        "present" := Flag(false), "last_seen_at" := Null, "last_polled_at" := Null, "last_error" := Null]

  const THRESHOLD_RUNTIME: Row :=
    map["current_level" := Text("normal"), "last_value" := Null, "last_evaluated_at" := Null]

  const INTERFACE_RUNTIME: Row :=
    map["admin_status" := Null, "oper_status" := Null, "present" := Flag(false), "last_seen_at" := Null,
        "last_polled_at" := Null, "last_error" := Null, "traffic_counter_mode" := Null, "in_octets" := Null,
        "out_octets" := Null, "traffic_at" := Null, "traffic_uptime_ticks" := Null, "rx_bps" := Null, "tx_bps" := Null,
        "in_errors" := Null, "out_errors" := Null, "in_discards" := Null, "out_discards" := Null,
        "traffic_error" := Null]

  /** What a configuration archive says instead of what was going on. */
  function Resets(t: Table): Row {
    match t
    case MonitorTargets => CHECK_RUNTIME
    case TargetChecks => CHECK_RUNTIME
    case SnmpConfigs => CONFIG_RUNTIME
    case SnmpMetrics => METRIC_RUNTIME
    case SnmpSupplies => SUPPLY_RUNTIME
    case SnmpThresholds => THRESHOLD_RUNTIME
    case SnmpInterfaces => INTERFACE_RUNTIME
    case _ => map[]
  }

  /** A row with its secret in the clear, or nothing when the key does not open it. */
  function Opened(t: Table, row: Row, key: nat, smtp: string): Option<Row> {
    if IsSmtpPassword(t, row) then Some(row["value" := Text(smtp)])
    else if t == TargetChecks && Truthy(Get(row, DIRECTORY_PASSWORD)) then
      var plain := Unseal(key, Get(row, DIRECTORY_PASSWORD));
      if plain.None? then None else Some(row[DIRECTORY_PASSWORD := Text(plain.value)])
    else if t == SnmpConfigs then
      var plain := Unseal(key, if Truthy(Get(row, COMMUNITY)) then Get(row, COMMUNITY) else Text(""));
      if plain.None? then None else Some(row[COMMUNITY := Text(plain.value)])
    else Some(row)
  }

  function ExportRow(t: Table, row: Row, kind: Kind, key: nat, smtp: string): Option<Row> {
    var clear := Opened(t, row, key, smtp);
    if clear.None? || kind.Full? then clear else Some(clear.value + Resets(t))
  }

  function ExportAll(t: Table, rows: seq<Row>, kind: Kind, key: nat, smtp: string): (r: Option<seq<Row>>)
    ensures r.Some? ==> |r.value| == |rows|
  {
    if rows == [] then Some([])
    else
      var before := ExportAll(t, rows[..|rows| - 1], kind, key, smtp);
      if before.None? then None
      else
        var last := ExportRow(t, rows[|rows| - 1], kind, key, smtp);
        if last.None? then None else Some(before.value + [last.value])
  }

  function LiveUsers(rows: seq<Row>): seq<Row> {
    if rows == [] then []
    else
      var before := LiveUsers(rows[..|rows| - 1]);
      if Get(rows[|rows| - 1], "deleted_at") == Null then before + [rows[|rows| - 1]] else before
  }

  /** A configuration leaves deleted users out. */
  function Chosen(db: Database, t: Table, kind: Kind): seq<Row> {
    if t == Users && kind.Configuration? then LiveUsers(Rows(db, t)) else Rows(db, t)
  }

  function ArchivedTables(db: Database, kind: Kind, key: nat, smtp: string,
                          tables: seq<Table>): Option<map<Table, seq<Row>>>
  {
    if tables == [] then Some(map[])
    else
      var before := ArchivedTables(db, kind, key, smtp, tables[..|tables| - 1]);
      var t := tables[|tables| - 1];
      if before.None? then None
      else
        var rows := ExportAll(t, Chosen(db, t, kind), kind, key, smtp);
        if rows.None? then None else Some(before.value[t := rows.value])
  }

  /** The archive a backup writes, or nothing when a secret cannot be read. */
  function Archived(db: Database, kind: Kind, key: nat): Option<Archive> {
    var smtp := SmtpPassword(db, key);
    if smtp.None? then None
    else
      var entries := ArchivedTables(db, kind, key, smtp.value, TablesOf(kind));
      if entries.None? then None else Some(Archive(kind, entries.value))
  }

  method CreateBackup(db: Database, kind: Kind, key: nat) returns (r: Option<Archive>)
    ensures r == Archived(db, kind, key)
  {
    hide ExportAll, LiveUsers, Chosen, TablesOf, SmtpPassword;
    var smtp := SmtpPassword(db, key);
    if smtp.None? {
      return None;
    }
    var tables := TablesOf(kind);
    var entries: map<Table, seq<Row>> := map[];
    for i := 0 to |tables|
      invariant ArchivedTables(db, kind, key, smtp.value, tables[..i]) == Some(entries)
    {
      assert tables[..i + 1][..i] == tables[..i];
      var written := ExportTable(tables[i], Chosen(db, tables[i], kind), kind, key, smtp.value);
      if written.None? {
        ArchiveFails(db, kind, key, smtp.value, tables, i + 1);
        return None;
      }
      entries := entries[tables[i] := written.value];
    }
    assert tables[..|tables|] == tables;
    r := Some(Archive(kind, entries));
  }

  method ExportTable(t: Table, rows: seq<Row>, kind: Kind, key: nat, smtp: string) returns (r: Option<seq<Row>>)
    ensures r == ExportAll(t, rows, kind, key, smtp)
  {
    hide ExportRow, ExportAll;
    var written: seq<Row> := [];
    ExportNothing(t, rows, kind, key, smtp);
    for i := 0 to |rows|
      invariant ExportAll(t, rows[..i], kind, key, smtp) == Some(written)
    {
      ExportStep(t, rows, kind, key, smtp, i);
      var row := ExportRow(t, rows[i], kind, key, smtp);
      if row.None? {
        ExportFails(t, rows, kind, key, smtp, i + 1);
        return None;
      }
      written := written + [row.value];
    }
    assert rows[..|rows|] == rows;
    r := Some(written);
  }

  lemma ExportNothing(t: Table, rows: seq<Row>, kind: Kind, key: nat, smtp: string)
    ensures ExportAll(t, rows[..0], kind, key, smtp) == Some([])
  {
  }

  lemma ExportStep(t: Table, rows: seq<Row>, kind: Kind, key: nat, smtp: string, i: nat)
    requires i < |rows| && ExportAll(t, rows[..i], kind, key, smtp).Some?
    ensures var last := ExportRow(t, rows[i], kind, key, smtp);
            ExportAll(t, rows[..i + 1], kind, key, smtp)
            == if last.None? then None else Some(ExportAll(t, rows[..i], kind, key, smtp).value + [last.value])
  {
    hide ExportRow;
    assert rows[..i + 1][..i] == rows[..i];
  }

  lemma {:induction false} ExportFails(t: Table, rows: seq<Row>, kind: Kind, key: nat, smtp: string, i: nat)
    requires i <= |rows| && ExportAll(t, rows[..i], kind, key, smtp).None?
    ensures ExportAll(t, rows, kind, key, smtp).None?
    decreases |rows| - i
  {
    if i == |rows| {
      assert rows[..i] == rows;
    } else {
      assert rows[..i + 1][..i] == rows[..i];
      ExportFails(t, rows, kind, key, smtp, i + 1);
    }
  }

  lemma {:induction false} ArchiveFails(db: Database, kind: Kind, key: nat, smtp: string, tables: seq<Table>, i: nat)
    requires i <= |tables| && ArchivedTables(db, kind, key, smtp, tables[..i]).None?
    ensures ArchivedTables(db, kind, key, smtp, tables).None?
    decreases |tables| - i
  {
    if i == |tables| {
      assert tables[..i] == tables;
    } else {
      assert tables[..i + 1][..i] == tables[..i];
      ArchiveFails(db, kind, key, smtp, tables, i + 1);
    }
  }

  // ---------------------------------------------------------------- what a restore makes of an archived row

  /** The columns of each table. */
  type Schema = map<Table, set<string>>

  function SecretText(cell: Cell): string {
    if cell.Text? then cell.text else ""
  }

  /** Columns the table does not have are ignored, and secrets are encrypted under this installation's key. */
  function ImportRow(t: Table, row: Row, columns: set<string>, key: nat, nonce: nat): Row {
    map c | c in row && c in columns :: if IsSecret(t, row, c) then Seal(key, SecretText(row[c]), nonce) else row[c]
  }

  function ImportAll(t: Table, rows: seq<Row>, columns: set<string>, key: nat, nonce: nat): seq<Row> {
    seq(|rows|, i requires 0 <= i < |rows| => ImportRow(t, rows[i], columns, key, nonce))
  }

  function ColumnsOf(schema: Schema, t: Table): set<string> {
    if t in schema then schema[t] else {}
  }

  function Imported(entries: map<Table, seq<Row>>, schema: Schema, key: nat, nonce: nat): Database {
    map t | t in entries :: ImportAll(t, entries[t], ColumnsOf(schema, t), key, nonce)
  }

  // ---------------------------------------------------------------- after the rows are back

  const PRIMARY_CHECK_NAME := "Основная доступность"

  /** What the primary check of a target copies from it. */
  function PrimaryOf(target: Row): Row {
    map["name" := Text(PRIMARY_CHECK_NAME), "checker_type" := Get(target, "checker_type"), "address_override" := Null,
        "port" := Get(target, "port"), "path" := Text("/"), "timeout_seconds" := Null, "retries" := Whole(0),
        "enabled" := Flag(true), "is_primary" := Flag(true), "display_order" := Whole(0)]
  }

  predicate IsPrimaryFor(check: Row, target: Row) {
    Get(check, "target_id") == Get(target, "id") && Get(check, "is_primary") == Flag(true)
  }

  function FindPrimary(checks: seq<Row>, target: Row): (r: Option<nat>)
    ensures r.Some? ==> r.value < |checks| && IsPrimaryFor(checks[r.value], target)
    ensures r.None? ==> forall i :: 0 <= i < |checks| ==> !IsPrimaryFor(checks[i], target)
  {
    if checks == [] then None
    else
      var earlier := FindPrimary(checks[..|checks| - 1], target);
      if earlier.Some? then earlier
      else if IsPrimaryFor(checks[|checks| - 1], target) then Some(|checks| - 1)
      else None
  }

  /** The checks, and the id the next one inserted will be given. */
  datatype Checks = Checks(rows: seq<Row>, nextId: int)

  function NewPrimary(target: Row, id: int): Row {
    PrimaryOf(target)["id" := Whole(id)]["target_id" := Get(target, "id")]
  }

  /**
   * A target without a primary check gets one, under the id the sequence gives, and the insert is
   * rejected when a check already has that id, or for want of a target id; otherwise its check is
   * brought into line.
   */
  function Ensured(checks: Checks, target: Row): Option<Checks> {
    var found := FindPrimary(checks.rows, target);
    if found.Some? then
      Some(checks.(rows := checks.rows[found.value := checks.rows[found.value] + PrimaryOf(target)]))
    else if HasKey(checks.rows, "id", Whole(checks.nextId)) || Get(target, "id") == Null then None
    else Some(Checks(checks.rows + [NewPrimary(target, checks.nextId)], checks.nextId + 1))
  }

  function EnsuredAll(checks: Checks, targets: seq<Row>): Option<Checks> {
    if targets == [] then Some(checks)
    else
      var before := EnsuredAll(checks, targets[..|targets| - 1]);
      if before.None? then None else Ensured(before.value, targets[|targets| - 1])
  }

  /** What a sequence gives next once it has been reset to the ids of a table. */
  function NextFree(rows: seq<Row>): int {
    if rows == [] then 1
    else
      var id := Get(rows[|rows| - 1], "id");
      if id.Whole? then Max(NextFree(rows[..|rows| - 1]), id.n + 1) else NextFree(rows[..|rows| - 1])
  }

  const DEFAULT_SETTINGS: seq<(string, string)> :=
    [("default_check_interval_seconds", "300"), ("failures_before_incident", "2"), ("history_retention_days", "90"),
     ("notifications_enabled", "true"), ("smtp_enabled", "true"), ("smtp_host", ""), ("smtp_port", "587"),
     ("smtp_username", ""), ("smtp_password", ""), ("smtp_sender", ""), ("smtp_recipient", ""),
     ("smtp_starttls", "true"), ("display_timezone", "Europe/Moscow"), ("portal_metric_interval_seconds", "60"),
     ("portal_metric_retention_hours", "168"), ("target_history_max_results", "1000"), ("audit_retention_days", "7"),
     ("notification_retention_days", "30"), ("snmp_sample_retention_days", "30"),
     ("snmp_sample_max_per_target", "1000"), ("availability_warning_threshold_percent", "1"),
     ("availability_good_threshold_percent", "100"), ("min_password_length", "8")]

  const RESTORED_DESCRIPTION := "Восстановлено со значением по умолчанию"

  function DefaultRow(setting: (string, string)): Row {
    map["key" := Text(setting.0), "value" := Text(setting.1), "description" := Text(RESTORED_DESCRIPTION)]
  }

  /** Settings an archive did not have come back with their defaults. */
  function WithDefaults(settings: seq<Row>, defaults: seq<(string, string)>): seq<Row> {
    if defaults == [] then settings
    else
      var before := WithDefaults(settings, defaults[..|defaults| - 1]);
      var last := defaults[|defaults| - 1];
      if FindSetting(settings, last.0).Some? then before
      else before + [DefaultRow(last)]
  }

  // ---------------------------------------------------------------- the states a restore passes through

  predicate Total(db: Database) {
    forall t: Table :: t in db
  }

  predicate ClearedBy(k: nat, t: Table)
    requires k <= |CLEAR_ORDER|
  {
    t in CLEAR_ORDER[..k]
  }

  /** The database after the first `k` tables of the clear order. */
  function Cleared(db: Database, k: nat): Database
    requires k <= |CLEAR_ORDER|
  {
    map t | t in db ::
      if ClearedBy(k, t) then []
      else if t == ChatPresence && ClearedBy(k, Users) then DropReferring(DropReferring(db[t], "user_id"), "peer_id")
      else db[t]
  }

  /** All tables before the `k`-th of the insert order, and the first `n` rows of that one. */
  function Loaded(base: Database, data: Database, k: nat, n: nat): Database {
    map t | t in base ::
      if InsertRank(t) < k then Rows(data, t)
      else if InsertRank(t) == k then Rows(data, t)[..Min(n, |Rows(data, t)|)]
      else base[t]
  }

  /** Nothing when the insert of a primary check is rejected. */
  function Finished(db: Database, nextCheck: int): Option<Database>
    requires Total(db)
  {
    var checks := EnsuredAll(Checks(db[TargetChecks], nextCheck), db[MonitorTargets]);
    if checks.None? then None
    else Some(db[TargetChecks := checks.value.rows][AppSettings := WithDefaults(db[AppSettings], DEFAULT_SETTINGS)])
  }

  /** What a restore leaves. */
  function Restored(db: Database, archive: Archive, schema: Schema, key: nat, nonce: nat,
                    nextCheck: int): Option<Database>
    requires Total(db)
  {
    Finished(Loaded(Cleared(db, |CLEAR_ORDER|), Imported(archive.entries, schema, key, nonce), |INSERT_ORDER|, 0),
             nextCheck)
  }
}
