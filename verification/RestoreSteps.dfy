/** A restore statement by statement: no state it passes through leaves a reference dangling. */
module RestoreSteps {
  import opened Basics
  import opened BackupSchema
  import opened Backups
  import opened Integrity
  import opened PrimaryChecks

  // ---------------------------------------------------------------- clearing

  lemma {:induction false} UnlinkedElsewhere(rows: seq<Row>, links: seq<Link>, t: Table)
    requires forall link :: link in links ==> link.parent != t
    ensures Unlinked(rows, links, t) == Some(rows)
  {
    if links != [] {
      UnlinkedElsewhere(rows, links[..|links| - 1], t);
      assert links[|links| - 1] in links;
    }
  }

  lemma {:induction false} UnlinkedNothing(links: seq<Link>, t: Table)
    ensures Unlinked([], links, t) == Some([])
  {
    if links != [] {
      UnlinkedNothing(links[..|links| - 1], t);
    }
  }

  lemma UnlinkedPresence(rows: seq<Row>)
    ensures Unlinked(rows, LinksOf(ChatPresence), Users) ==
            Some(DropReferring(DropReferring(rows, "user_id"), "peer_id"))
  {
    var links := LinksOf(ChatPresence);
    assert links[..1] == [links[0]] && links[..1][..0] == [];
    assert Unlinked(rows, links[..1], Users) == Some(DropReferring(rows, "user_id"));
  }

  /** Clearing the next table is never refused, and takes along nothing but chat presence. */
  lemma ClearStep(db: Database, k: nat)
    requires k < |CLEAR_ORDER| && Total(db)
    ensures Delete(Cleared(db, k), CLEAR_ORDER[k]) == Some(Cleared(db, k + 1))
  {
    hide LinksOf, Unlinked, Cleared;
    var t := CLEAR_ORDER[k];
    var before, after := Cleared(db, k), Cleared(db, k + 1);
    ClearedKeys(db, k);
    ClearedKeys(db, k + 1);
    assert after[t] == [] by { ClearedTable(db, k); }
    forall child | child in before && child != t
      ensures Unlinked(before[child], LinksOf(child), t) == Some(after[child])
    {
      ClearedChild(db, k, child);
    }
    assert Delete(before, t).value == after;
  }

  lemma ClearedKeys(db: Database, k: nat)
    requires k <= |CLEAR_ORDER|
    ensures Cleared(db, k).Keys == db.Keys
  {
    hide DropReferring, ClearedBy;
  }

  lemma ClearedTable(db: Database, k: nat)
    requires k < |CLEAR_ORDER| && Total(db)
    ensures Cleared(db, k + 1)[CLEAR_ORDER[k]] == []
  {
    hide DropReferring, ClearedBy;
    PrefixMember(CLEAR_ORDER[k], k);
  }

  lemma PrefixMember(t: Table, k: nat)
    requires k < |CLEAR_ORDER|
    ensures ClearedBy(k + 1, t) <==> ClearedBy(k, t) || t == CLEAR_ORDER[k]
    ensures !ClearedBy(k, CLEAR_ORDER[k])
  {
    hide ClearRank;
    assert CLEAR_ORDER[..k + 1] == CLEAR_ORDER[..k] + [CLEAR_ORDER[k]];
    ClearRankOf(k);
    if ClearedBy(k, CLEAR_ORDER[k]) {
      var i :| 0 <= i < k && CLEAR_ORDER[i] == CLEAR_ORDER[k];
      ClearRankOf(i);
    }
  }

  /** Whoever refers to a cleared table has been cleared too; only chat presence outlives the users. */
  lemma OnlyPresenceOutlives(child: Table, link: Link, k: nat)
    requires k <= |CLEAR_ORDER| && link in LinksOf(child) && ClearedBy(k, link.parent) && !ClearedBy(k, child)
    ensures child == ChatPresence
  {
    hide LinksOf, ClearRank;
    var i :| 0 <= i < k && CLEAR_ORDER[i] == link.parent;
    ClearsChildrenFirst(child, link, i);
  }

  lemma NextIsNotReferred(child: Table, link: Link, k: nat)
    requires k < |CLEAR_ORDER| && link in LinksOf(child) && link.parent == CLEAR_ORDER[k] && !ClearedBy(k, child)
    ensures child == ChatPresence && link.parent == Users
  {
    hide LinksOf, ClearRank;
    ClearsChildrenFirst(child, link, k);
    PresenceLinks(child, link);
  }

  lemma ClearedChild(db: Database, k: nat, child: Table)
    requires k < |CLEAR_ORDER| && Total(db) && child != CLEAR_ORDER[k]
    ensures Unlinked(Cleared(db, k)[child], LinksOf(child), CLEAR_ORDER[k]) == Some(Cleared(db, k + 1)[child])
  {
    hide LinksOf, Unlinked, DropReferring, ClearedBy, CLEAR_ORDER;
    var t := CLEAR_ORDER[k];
    PrefixMember(child, k);
    PrefixMember(Users, k);
    if ClearedBy(k, child) {
      UnlinkedNothing(LinksOf(child), t);
    } else if child == ChatPresence && t == Users {
      UnlinkedPresence(db[child]);
    } else {
      forall link | link in LinksOf(child)
        ensures link.parent != t
      {
        if link.parent == t {
          NextIsNotReferred(child, link, k);
        }
      }
      UnlinkedElsewhere(Cleared(db, k)[child], LinksOf(child), t);
    }
  }

  lemma PresenceLinks(child: Table, link: Link)
    requires link in LinksOf(child)
    ensures child == ChatPresence ==>
              link.parent == Users && !link.optional && (link.column == "user_id" || link.column == "peer_id")
    ensures link.parent != ChatPresence
  {
  }

  /** Wherever the clearing stops, no reference dangles. */
  lemma ClearedConsistent(db: Database, k: nat)
    requires k <= |CLEAR_ORDER| && Total(db) && Consistent(db)
    ensures Consistent(Cleared(db, k))
  {
    hide LinksOf, DropReferring, Resolved, ClearRank;
    forall child, link | link in LinksOf(child)
      ensures LinkHolds(Cleared(db, k), child, link)
    {
      ClearedLink(db, k, child, link);
    }
  }

  lemma ClearedLink(db: Database, k: nat, child: Table, link: Link)
    requires k <= |CLEAR_ORDER| && Total(db) && Consistent(db) && link in LinksOf(child)
    ensures LinkHolds(Cleared(db, k), child, link)
  {
    hide LinksOf, HasKey, ClearedBy;
    assert LinkHolds(db, child, link);
    PresenceLinks(child, link);
    if !ClearedBy(k, child) && ClearedBy(k, link.parent) {
      OnlyPresenceOutlives(child, link, k);
      var rows := Rows(Cleared(db, k), child);
      assert rows == DropReferring(DropReferring(db[child], "user_id"), "peer_id");
      forall row | row in rows
        ensures Get(row, link.column) == Null && row in Rows(db, child)
      {
        assert row in DropReferring(db[child], "user_id");
      }
    } else if !ClearedBy(k, child) {
      assert Rows(Cleared(db, k), child) == Rows(db, child);
      assert Rows(Cleared(db, k), link.parent) == Rows(db, link.parent);
    } else {
      assert Rows(Cleared(db, k), child) == [];
    }
  }

  // ---------------------------------------------------------------- loading

  /** What was cleared. */
  ghost predicate Empty(base: Database) {
    forall t :: t in base && base[t] == []
  }

  lemma ClearedIsEmpty(db: Database)
    requires Total(db) && Consistent(db)
    ensures Empty(Cleared(db, |CLEAR_ORDER|))
  {
    hide ClearRank, Consistent;
    forall t: Table | t != ChatPresence
      ensures ClearedBy(|CLEAR_ORDER|, t)
    {
      EveryTableIsCleared(t);
      assert CLEAR_ORDER[..|CLEAR_ORDER|] == CLEAR_ORDER;
    }
    assert ClearedBy(|CLEAR_ORDER|, Users);
    NoPresenceLeft(db);
  }

  /** Every row of chat presence refers to a user, so all of them go with the users. */
  lemma NoPresenceLeft(db: Database)
    requires Total(db) && Consistent(db)
    ensures DropReferring(DropReferring(db[ChatPresence], "user_id"), "peer_id") == []
  {
    assert USER_LINK in LinksOf(ChatPresence) && LinkHolds(db, ChatPresence, USER_LINK);
    forall row | row in Rows(db, ChatPresence)
      ensures Get(row, "user_id") != Null
    {
      assert Resolved(row, USER_LINK, Rows(db, Users));
    }
    AllReferring(db[ChatPresence], "user_id");
  }

  lemma {:induction false} AllReferring(rows: seq<Row>, column: string)
    requires forall row :: row in rows ==> Get(row, column) != Null
    ensures DropReferring(rows, column) == []
  {
    if rows != [] {
      assert rows[|rows| - 1] in rows;
      AllReferring(rows[..|rows| - 1], column);
    }
  }

  lemma EveryTableIsCleared(t: Table)
    ensures t != ChatPresence ==> t in CLEAR_ORDER
  {
    hide ClearRank, CLEAR_ORDER;
    if t != ChatPresence {
      ClearPlace(t);
    }
  }

  /** The references of the first `n` rows of a table resolve within the data. */
  ghost predicate TableFits(data: Database, t: Table, n: nat) {
    forall link, i :: link in LinksOf(t) && 0 <= i < n && i < |Rows(data, t)| ==>
      Resolved(Rows(data, t)[i], link, Rows(data, link.parent))
  }

  /** So do those of the tables before the `k`-th of the insert order and of the first `n` rows of that one. */
  ghost predicate FitsUpTo(data: Database, k: nat, n: nat) {
    forall t :: (InsertRank(t) < k ==> TableFits(data, t, |Rows(data, t)|))
      && (InsertRank(t) == k ==> TableFits(data, t, n))
  }

  /** Every reference of what a restore inserts resolves. */
  ghost predicate Loadable(data: Database) {
    FitsUpTo(data, |INSERT_ORDER|, 0)
  }

  lemma LoadedRows(base: Database, data: Database, k: nat, n: nat, t: Table)
    requires t in base
    ensures InsertRank(t) < k ==> Rows(Loaded(base, data, k, n), t) == Rows(data, t)
    ensures InsertRank(t) == k ==> Rows(Loaded(base, data, k, n), t) == Rows(data, t)[..Min(n, |Rows(data, t)|)]
    ensures InsertRank(t) > k ==> Rows(Loaded(base, data, k, n), t) == base[t]
  {
    hide InsertRank;
  }

  lemma LoadedLink(base: Database, data: Database, k: nat, n: nat, child: Table, link: Link)
    requires Empty(base) && k <= |INSERT_ORDER| && link in LinksOf(child)
    requires InsertRank(child) < k ==> TableFits(data, child, |Rows(data, child)|)
    requires InsertRank(child) == k ==> TableFits(data, child, n)
    ensures LinkHolds(Loaded(base, data, k, n), child, link)
  {
    hide LinksOf, HasKey, InsertRank, INSERT_ORDER, Loaded, Resolved;
    PresenceLinks(child, link);
    TransientRanks(child);
    LoadedRows(base, data, k, n, child);
    LoadedRows(base, data, k, n, link.parent);
    var loaded := Loaded(base, data, k, n);
    if InsertRank(child) <= k {
      InsertsParentsFirst(child, link);
      forall i | 0 <= i < |Rows(loaded, child)|
        ensures Resolved(Rows(loaded, child)[i], link, Rows(loaded, link.parent))
      {
        assert Rows(loaded, child)[i] == Rows(data, child)[i];
      }
    } else {
      assert Rows(loaded, child) == base[child];
    }
  }

  /**
   * Wherever the loading stops, between batches or inside a table, no reference dangles, exactly when
   * the references of what is loaded so far resolve within the archive.
   */
  lemma LoadedConsistent(base: Database, data: Database, k: nat, n: nat)
    requires Empty(base) && k <= |INSERT_ORDER|
    ensures Consistent(Loaded(base, data, k, n)) <==> FitsUpTo(data, k, n)
  {
    hide LinksOf, Resolved, InsertRank, INSERT_ORDER, Loaded, LinkHolds, TableFits, Empty;
    if FitsUpTo(data, k, n) {
      forall child, link | link in LinksOf(child)
        ensures LinkHolds(Loaded(base, data, k, n), child, link)
      {
        LoadedLink(base, data, k, n, child, link);
      }
    }
    if Consistent(Loaded(base, data, k, n)) {
      forall t
        ensures InsertRank(t) < k ==> TableFits(data, t, |Rows(data, t)|)
        ensures InsertRank(t) == k ==> TableFits(data, t, n)
      {
        LoadedFits(base, data, k, n, t);
      }
    }
  }

  lemma LoadedFits(base: Database, data: Database, k: nat, n: nat, t: Table)
    requires Empty(base) && k <= |INSERT_ORDER| && Consistent(Loaded(base, data, k, n))
    ensures InsertRank(t) < k ==> TableFits(data, t, |Rows(data, t)|)
    ensures InsertRank(t) == k ==> TableFits(data, t, n)
  {
    hide InsertRank, INSERT_ORDER, Loaded, Consistent, Empty, TableFits;
    EmptyIsTotal(base);
    LoadedRows(base, data, k, n, t);
    if InsertRank(t) <= k {
      LoadedTableFits(base, data, k, n, t);
      FitsWhole(data, t, n);
    }
  }

  lemma FitsWhole(data: Database, t: Table, n: nat)
    ensures TableFits(data, t, Min(n, |Rows(data, t)|)) ==> TableFits(data, t, n)
  {
  }

  lemma LoadedTableFits(base: Database, data: Database, k: nat, n: nat, t: Table)
    requires Empty(base) && k <= |INSERT_ORDER| && Consistent(Loaded(base, data, k, n)) && InsertRank(t) <= k
    ensures TableFits(data, t, |Rows(Loaded(base, data, k, n), t)|)
  {
    hide LinksOf, InsertRank, INSERT_ORDER, Loaded, Resolved, Consistent, Empty;
    forall link, i | link in LinksOf(t) && 0 <= i < |Rows(Loaded(base, data, k, n), t)| && i < |Rows(data, t)|
      ensures Resolved(Rows(data, t)[i], link, Rows(data, link.parent))
    {
      LoadedRowFits(base, data, k, n, t, link, i);
    }
  }

  lemma LoadedRowFits(base: Database, data: Database, k: nat, n: nat, t: Table, link: Link, i: nat)
    requires Empty(base) && k <= |INSERT_ORDER| && Consistent(Loaded(base, data, k, n))
    requires InsertRank(t) <= k && link in LinksOf(t) && i < |Rows(Loaded(base, data, k, n), t)|
    ensures i < |Rows(data, t)| && Resolved(Rows(data, t)[i], link, Rows(data, link.parent))
  {
    hide LinksOf, InsertRank, INSERT_ORDER, Loaded, Resolved, Empty;
    var loaded := Loaded(base, data, k, n);
    TransientRanks(t);
    EmptyIsTotal(base);
    InsertsParentsFirst(t, link);
    LoadedRows(base, data, k, n, t);
    LoadedRows(base, data, k, n, link.parent);
    assert LinkHolds(loaded, t, link);
    assert Rows(loaded, t)[i] in Rows(loaded, t) && Rows(loaded, t)[i] == Rows(data, t)[i];
  }

  // ---------------------------------------------------------------- what the database accepts

  /** An insert is accepted when the references of its rows resolve. */
  predicate Accepts(db: Database, t: Table, batch: seq<Row>) {
    forall i :: 0 <= i < |batch| ==> forall link :: link in LinksOf(t) ==>
      Resolved(batch[i], link, Rows(db, link.parent))
  }

  lemma AcceptedBatch(base: Database, data: Database, k: nat, n: nat, m: nat)
    requires Empty(base) && k < |INSERT_ORDER| && n <= m <= |Rows(data, INSERT_ORDER[k])| && FitsUpTo(data, k, n)
    ensures Accepts(Loaded(base, data, k, n), INSERT_ORDER[k], Rows(data, INSERT_ORDER[k])[n..m]) <==>
            FitsUpTo(data, k, m)
  {
    hide LinksOf, HasKey, InsertRank, INSERT_ORDER, Loaded, Resolved, Empty;
    var t, loaded := INSERT_ORDER[k], Loaded(base, data, k, n);
    var batch := Rows(data, t)[n..m];
    InsertRankOf(k);
    OnlyAtItsPlace(k);
    forall link | link in LinksOf(t)
      ensures Rows(loaded, link.parent) == Rows(data, link.parent)
    {
      InsertsParentsFirst(t, link);
      EmptyIsTotal(base);
      LoadedRows(base, data, k, n, link.parent);
    }
    if Accepts(loaded, t, batch) {
      forall link, i | link in LinksOf(t) && 0 <= i < m
        ensures Resolved(Rows(data, t)[i], link, Rows(data, link.parent))
      {
        assert TableFits(data, t, n);
        assert i >= n ==> batch[i - n] == Rows(data, t)[i];
      }
      assert TableFits(data, t, m);
    }
    if FitsUpTo(data, k, m) {
      assert TableFits(data, t, m);
      forall i, link | 0 <= i < |batch| && link in LinksOf(t)
        ensures Resolved(batch[i], link, Rows(loaded, link.parent))
      {
        assert batch[i] == Rows(data, t)[n + i];
      }
    }
  }

  lemma EmptyIsTotal(base: Database)
    requires Empty(base)
    ensures Total(base)
  {
  }

  lemma OnlyAtItsPlace(k: nat)
    requires k < |INSERT_ORDER|
    ensures forall t :: InsertRank(t) == k ==> t == INSERT_ORDER[k]
  {
    hide InsertRank;
    forall t: Table | InsertRank(t) == k
      ensures t == INSERT_ORDER[k]
    {
      InsertPlace(t);
    }
  }

  lemma FitsNothing(data: Database)
    ensures FitsUpTo(data, 0, 0)
  {
  }

  lemma FitsNext(data: Database, k: nat)
    requires k < |INSERT_ORDER|
    ensures FitsUpTo(data, k, |Rows(data, INSERT_ORDER[k])|) <==> FitsUpTo(data, k + 1, 0)
  {
    hide InsertRank, LinksOf, Resolved, INSERT_ORDER;
    OnlyAtItsPlace(k);
  }

  /** What fits as a whole fits in every part. */
  lemma FitsEarlier(data: Database, k: nat, n: nat, k': nat)
    requires k < k' && FitsUpTo(data, k', 0)
    ensures FitsUpTo(data, k, n)
  {
    hide InsertRank, LinksOf, Resolved;
    forall t | InsertRank(t) == k ensures TableFits(data, t, n) {
      assert TableFits(data, t, |Rows(data, t)|);
    }
  }

  lemma ConsistentIsLoadable(data: Database)
    requires Consistent(data)
    ensures Loadable(data)
  {
    hide LinksOf, Resolved, InsertRank, INSERT_ORDER;
    forall t: Table ensures TableFits(data, t, |Rows(data, t)|) {
      assert forall link :: link in LinksOf(t) ==> LinkHolds(data, t, link);
    }
  }

  /** Tables no backup holds come after all that are inserted. */
  lemma TransientRanks(t: Table)
    ensures InsertRank(t) <= |INSERT_ORDER| ==> InsertRank(t) < |INSERT_ORDER|
    ensures t == ChatPresence ==> InsertRank(t) > |INSERT_ORDER|
  {
  }

  // ---------------------------------------------------------------- finishing

  ghost predicate TargetsExist(checks: seq<Row>, targets: seq<Row>) {
    forall j :: 0 <= j < |checks| ==>
      Get(checks[j], "target_id") != Null && HasKey(targets, "id", Get(checks[j], "target_id"))
  }

  lemma {:induction false} EnsuredAllLinks(checks: Checks, some: seq<Row>, targets: seq<Row>)
    requires TargetsExist(checks.rows, targets) && some <= targets && EnsuredAll(checks, some).Some?
    ensures TargetsExist(EnsuredAll(checks, some).value.rows, targets)
  {
    hide Ensured;
    if some != [] {
      var last := |some| - 1;
      EnsuredAllLinks(checks, some[..last], targets);
      var before, after := EnsuredAll(checks, some[..last]).value, EnsuredAll(checks, some).value;
      assert some[last] == targets[last];
      forall j | 0 <= j < |after.rows|
        ensures Get(after.rows[j], "target_id") != Null && HasKey(targets, "id", Get(after.rows[j], "target_id"))
      {
        EnsuredKeeps(before, some[last], j);
      }
    }
  }

  lemma {:induction false} EnsuredAllKeys(checks: Checks, some: seq<Row>, value: Cell)
    requires HasKey(checks.rows, "id", value) && EnsuredAll(checks, some).Some?
    ensures HasKey(EnsuredAll(checks, some).value.rows, "id", value)
  {
    hide Ensured;
    if some != [] {
      var last := |some| - 1;
      EnsuredAllKeys(checks, some[..last], value);
      var before := EnsuredAll(checks, some[..last]).value;
      var j :| 0 <= j < |before.rows| && Get(before.rows[j], "id") == value;
      EnsuredLonger(before, some[last]);
      EnsuredKeeps(before, some[last], j);
    }
  }

  lemma CheckLinks(child: Table, link: Link)
    requires link in LinksOf(child)
    ensures child == TargetChecks ==> link == TARGET_LINK
    ensures link.parent == TargetChecks ==> link.parentColumn == "id"
    ensures child != AppSettings && link.parent != AppSettings
  {
  }

  lemma EnsuredConsistent(db: Database, some: seq<Row>, nextId: int)
    requires Total(db) && Consistent(db) && some <= db[MonitorTargets]
    requires EnsuredAll(Checks(db[TargetChecks], nextId), some).Some?
    ensures Consistent(db[TargetChecks := EnsuredAll(Checks(db[TargetChecks], nextId), some).value.rows])
  {
    hide LinksOf, EnsuredAll, HasKey;
    var after := db[TargetChecks := EnsuredAll(Checks(db[TargetChecks], nextId), some).value.rows];
    forall child, link | link in LinksOf(child)
      ensures LinkHolds(after, child, link)
    {
      assert LinkHolds(db, child, link);
      CheckLinks(child, link);
      EnsuredLink(db, some, nextId, child, link);
    }
  }

  lemma EnsuredLink(db: Database, some: seq<Row>, nextId: int, child: Table, link: Link)
    requires Total(db) && LinkHolds(db, child, link) && some <= db[MonitorTargets]
    requires child == TargetChecks ==> link == TARGET_LINK
    requires link.parent == TargetChecks ==> link.parentColumn == "id"
    requires EnsuredAll(Checks(db[TargetChecks], nextId), some).Some?
    ensures LinkHolds(db[TargetChecks := EnsuredAll(Checks(db[TargetChecks], nextId), some).value.rows], child, link)
  {
    hide EnsuredAll, HasKey;
    var checks := Checks(db[TargetChecks], nextId);
    var after := db[TargetChecks := EnsuredAll(checks, some).value.rows];
    if child == TargetChecks {
      forall j | 0 <= j < |db[child]|
        ensures Resolved(db[child][j], link, db[MonitorTargets])
      {
        assert db[child][j] in Rows(db, child);
      }
      assert TargetsExist(db[child], db[MonitorTargets]);
      EnsuredAllLinks(checks, some, db[MonitorTargets]);
    } else if link.parent == TargetChecks {
      forall row | row in after[child]
        ensures Resolved(row, link, after[TargetChecks])
      {
        assert row in Rows(db, child);
        assert Resolved(row, link, db[TargetChecks]);
        if Get(row, link.column) != Null {
          EnsuredAllKeys(checks, some, Get(row, link.column));
        }
      }
    } else {
      assert Rows(after, child) == Rows(db, child) && Rows(after, link.parent) == Rows(db, link.parent);
    }
  }

  lemma SettingsConsistent(db: Database, settings: seq<Row>)
    requires Consistent(db)
    ensures Consistent(db[AppSettings := settings])
  {
    hide LinksOf, Resolved;
    forall child, link | link in LinksOf(child)
      ensures LinkHolds(db[AppSettings := settings], child, link)
    {
      CheckLinks(child, link);
      assert LinkHolds(db, child, link);
      assert Rows(db[AppSettings := settings], child) == Rows(db, child);
      assert Rows(db[AppSettings := settings], link.parent) == Rows(db, link.parent);
    }
  }

  // ---------------------------------------------------------------- the statements

  const BATCH: nat := 1000

  ghost predicate AllConsistent(states: seq<Database>) {
    forall i :: 0 <= i < |states| ==> Consistent(states[i])
  }

  lemma LoadedMore(base: Database, data: Database, k: nat, n: nat, m: nat)
    requires Total(base) && k < |INSERT_ORDER| && n <= m <= |Rows(data, INSERT_ORDER[k])|
    ensures var t, loaded := INSERT_ORDER[k], Loaded(base, data, k, n);
            loaded[t := loaded[t] + Rows(data, t)[n..m]] == Loaded(base, data, k, m)
  {
    hide InsertRank, INSERT_ORDER, Loaded;
    var t, loaded := INSERT_ORDER[k], Loaded(base, data, k, n);
    var after := Loaded(base, data, k, m);
    InsertRankOf(k);
    OnlyAtItsPlace(k);
    LoadedKeys(base, data, k, n);
    LoadedKeys(base, data, k, m);
    assert Rows(data, t)[..n] + Rows(data, t)[n..m] == Rows(data, t)[..m];
    forall other: Table
      ensures after[other] == if other == t then loaded[t] + Rows(data, t)[n..m] else loaded[other]
    {
      LoadedRows(base, data, k, n, other);
      LoadedRows(base, data, k, m, other);
    }
  }

  lemma LoadedKeys(base: Database, data: Database, k: nat, n: nat)
    ensures Loaded(base, data, k, n).Keys == base.Keys
  {
    hide InsertRank;
  }

  lemma LoadedNext(base: Database, data: Database, k: nat)
    requires k < |INSERT_ORDER| && Empty(base)
    ensures Loaded(base, data, k, |Rows(data, INSERT_ORDER[k])|) == Loaded(base, data, k + 1, 0)
  {
    hide InsertRank;
    InsertRankOf(k);
    forall other: Table
      ensures InsertRank(other) == k ==> other == INSERT_ORDER[k]
      ensures InsertRank(other) == k + 1 ==> base[other] == []
      ensures Rows(data, other)[..0] == [] && Rows(data, other)[..|Rows(data, other)|] == Rows(data, other)
    {
      if InsertRank(other) < |INSERT_ORDER| {
        InsertPlace(other);
      }
      TransientRanks(other);
    }
  }

  lemma LoadedStart(base: Database, data: Database)
    requires Empty(base)
    ensures Loaded(base, data, 0, 0) == base
  {
    hide InsertRank;
    forall t: Table
      ensures InsertRank(t) == 0 ==> base[t] == []
    {
      TransientRanks(t);
    }
  }

  lemma ClearedStart(db: Database)
    ensures Cleared(db, 0) == db
  {
    hide DropReferring;
    assert forall t: Table :: !ClearedBy(0, t);
  }

  lemma ImportedRows(t: Table, rows: seq<Row>, columns: set<string>, key: nat, nonce: nat)
    ensures |ImportAll(t, rows, columns, key, nonce)| == |rows|
    ensures forall i :: 0 <= i < |rows| ==>
              ImportAll(t, rows, columns, key, nonce)[i] == ImportRow(t, rows[i], columns, key, nonce)
  {
    hide ImportRow;
  }

  lemma SliceMore<T>(s: seq<T>, n: nat, m: nat)
    requires n <= m < |s|
    ensures s[n..m] + [s[m]] == s[n..m + 1]
  {
  }

  /** The archive has every table, its rows and the primary checks it lacks go in, and the outcome passes the check. */
  ghost predicate Accepted(db: Database, archive: Archive, schema: Schema, key: nat, nonce: nat, nextCheck: int)
    requires Total(db)
  {
    var after := Restored(db, archive, schema, key, nonce, nextCheck);
    && (forall t :: t in TablesOf(archive.kind) ==> t in archive.entries)
    && Loadable(Imported(archive.entries, schema, key, nonce))
    && after.Some? && Intact(after.value)
  }

  class RestoreSession {
    var db: Database
    /** The database after each statement so far. */
    var states: seq<Database>
    /** What the sequence of check ids gives next. */
    var nextCheck: int

    constructor (db: Database, nextCheck: int)
      ensures this.db == db && this.nextCheck == nextCheck && states == []
    {
      this.db, this.nextCheck := db, nextCheck;
      states := [];
    }

    method Execute(next: Database)
      modifies this`db, this`states
      ensures db == next && states == old(states) + [next]
    {
      db := next;
      states := states + [next];
    }

    method ClearAll()
      requires Total(db) && Consistent(db) && AllConsistent(states)
      modifies this`db, this`states
      ensures db == Cleared(old(db), |CLEAR_ORDER|) && AllConsistent(states)
    {
      hide *;
      ghost var start := db;
      ClearedStart(db);
      for k := 0 to |CLEAR_ORDER|
        invariant db == Cleared(start, k) && AllConsistent(states)
      {
        ClearStep(start, k);
        ClearedConsistent(start, k + 1);
        var next := Delete(db, CLEAR_ORDER[k]);
        AppendConsistent(states, next.value);
        Execute(next.value);
      }
    }

    /** Inserts the rows of one table a thousand at a time, until a batch is rejected. */
    method InsertTable(k: nat, rows: seq<Row>, columns: set<string>, key: nat, nonce: nat, ghost base: Database,
                       ghost data: Database)
      returns (ok: bool)
      requires k < |INSERT_ORDER| && Empty(base) && FitsUpTo(data, k, 0)
      requires Rows(data, INSERT_ORDER[k]) == ImportAll(INSERT_ORDER[k], rows, columns, key, nonce)
      requires db == Loaded(base, data, k, 0) && AllConsistent(states)
      modifies this`db, this`states
      ensures ok == FitsUpTo(data, k + 1, 0)
      ensures (ok ==> db == Loaded(base, data, k + 1, 0)) && AllConsistent(states)
    {
      hide Loaded, AllConsistent, ImportRow, ImportAll, Empty, FitsUpTo, INSERT_ORDER;
      var t := INSERT_ORDER[k];
      ghost var imported := ImportAll(t, rows, columns, key, nonce);
      ghost var sent := 0;
      ImportedRows(t, rows, columns, key, nonce);
      var batch: seq<Row> := [];
      for i := 0 to |rows|
        invariant |batch| < BATCH && sent + |batch| == i && batch == imported[sent..i]
        invariant FitsUpTo(data, k, sent)
        invariant db == Loaded(base, data, k, sent) && AllConsistent(states)
      {
        SliceMore(imported, sent, i);
        batch := batch + [ImportRow(t, rows[i], columns, key, nonce)];
        if |batch| >= BATCH {
          ok := Insert(k, sent, i + 1, batch, base, data);
          if !ok {
            NeverFits(data, k, i + 1, k + 1);
            return;
          }
          batch, sent := [], i + 1;
        }
      }
      if batch != [] {
        ok := Insert(k, sent, |rows|, batch, base, data);
        if !ok {
          NeverFits(data, k, |rows|, k + 1);
          return;
        }
      }
      LoadedNext(base, data, k);
      FitsNext(data, k);
      ok := true;
    }

    /** One statement; the database checks the references of its rows. */
    method Insert(k: nat, ghost n: nat, ghost m: nat, batch: seq<Row>, ghost base: Database, ghost data: Database)
      returns (ok: bool)
      requires k < |INSERT_ORDER| && Empty(base) && FitsUpTo(data, k, n) && n <= m <= |Rows(data, INSERT_ORDER[k])|
      requires batch == Rows(data, INSERT_ORDER[k])[n..m]
      requires db == Loaded(base, data, k, n) && AllConsistent(states)
      modifies this`db, this`states
      ensures ok == FitsUpTo(data, k, m)
      ensures (ok ==> db == Loaded(base, data, k, m)) && AllConsistent(states)
    {
      hide Consistent, FitsUpTo, Accepts, Empty;
      AcceptedBatch(base, data, k, n, m);
      ok := Accepts(db, INSERT_ORDER[k], batch);
      if ok {
        EmptyIsTotal(base);
        LoadedMore(base, data, k, n, m);
        LoadedConsistent(base, data, k, m);
        AppendConsistent(states, Loaded(base, data, k, m));
        Execute(db[INSERT_ORDER[k] := db[INSERT_ORDER[k]] + batch]);
      }
    }

    method InsertAll(entries: map<Table, seq<Row>>, schema: Schema, key: nat, nonce: nat) returns (ok: bool)
      requires Empty(db) && AllConsistent(states)
      modifies this`db, this`states
      ensures ok == Loadable(Imported(entries, schema, key, nonce))
      ensures ok ==> db == Loaded(old(db), Imported(entries, schema, key, nonce), |INSERT_ORDER|, 0)
      ensures AllConsistent(states)
    {
      hide Loaded, Consistent, Empty, ImportAll, FitsUpTo;
      ghost var base, data := db, Imported(entries, schema, key, nonce);
      LoadedStart(base, data);
      FitsNothing(data);
      for k := 0 to |INSERT_ORDER|
        invariant db == Loaded(base, data, k, 0) && FitsUpTo(data, k, 0) && AllConsistent(states)
      {
        var t := INSERT_ORDER[k];
        if t in entries {
          ok := InsertTable(k, entries[t], ColumnsOf(schema, t), key, nonce, base, data);
          if !ok {
            NeverLoads(data, k + 1);
            return;
          }
        } else {
          LoadedNext(base, data, k);
          FitsNext(data, k);
        }
      }
      ok := true;
    }

    /** The sequence gives its next id even to an insert that is then rejected. */
    method EnsurePrimary(target: Row) returns (ok: bool)
      requires Total(db)
      modifies this`db, this`states, this`nextCheck
      ensures var after := Ensured(Checks(old(db)[TargetChecks], old(nextCheck)), target);
              && ok == after.Some?
              && (ok ==> nextCheck == after.value.nextId && db == old(db)[TargetChecks := after.value.rows]
                         && states == old(states) + [db])
              && (!ok ==> db == old(db) && states == old(states))
    {
      hide FindPrimary, PrimaryOf, NewPrimary, HasKey;
      var checks := db[TargetChecks];
      var found := FindPrimary(checks, target);
      if found.Some? {
        Execute(db[TargetChecks := checks[found.value := checks[found.value] + PrimaryOf(target)]]);
        return true;
      }
      var id := nextCheck;
      nextCheck := nextCheck + 1;
      if HasKey(checks, "id", Whole(id)) || Get(target, "id") == Null {
        return false;
      }
      Execute(db[TargetChecks := checks + [NewPrimary(target, id)]]);
      ok := true;
    }

    /**
     * Primary checks, default settings, and the sequence of check ids brought up to the restored ids.
     * Every target ends with a primary check that follows it column by column, and nothing else changes
     * among the checks.
     */
    method Finish() returns (ok: bool)
      requires Total(db) && Consistent(db) && AllConsistent(states)
      modifies this
      ensures ok == Finished(old(db), old(nextCheck)).Some?
      ensures ok ==> db == Finished(old(db), old(nextCheck)).value && nextCheck == NextFree(db[TargetChecks])
      ensures ok && DistinctIds(old(db)[MonitorTargets]) ==>
                && Synced(db[TargetChecks], db[MonitorTargets])
                && OnlyFollowing(old(db)[TargetChecks], db[TargetChecks], db[MonitorTargets])
                && OnlyLacking(old(db)[TargetChecks], db[TargetChecks], db[MonitorTargets])
      ensures AllConsistent(states)
    {
      hide Consistent, Ensured, WithDefaults, NextFree, Synced, OnlyFollowing, OnlyLacking, DistinctIds;
      ghost var start, checks := db, Checks(db[TargetChecks], nextCheck);
      var targets := db[MonitorTargets];
      EnsuredNone(start, nextCheck);
      for i := 0 to |targets|
        invariant EnsuredAll(checks, targets[..i]).Some?
        invariant nextCheck == EnsuredAll(checks, targets[..i]).value.nextId
        invariant db == start[TargetChecks := EnsuredAll(checks, targets[..i]).value.rows]
        invariant AllConsistent(states)
      {
        assert targets[..i + 1][..i] == targets[..i];
        ok := EnsurePrimary(targets[i]);
        if !ok {
          EnsuredFails(checks, targets, i + 1);
          return;
        }
        assert db == start[TargetChecks := EnsuredAll(checks, targets[..i + 1]).value.rows];
        EnsuredConsistent(start, targets[..i + 1], checks.nextId);
        AppendConsistent(states[..|states| - 1], db);
        assert states == states[..|states| - 1] + [db];
      }
      assert targets[..|targets|] == targets;
      EnsuredConsistent(start, targets, checks.nextId);
      var settings := db[AppSettings := WithDefaults(db[AppSettings], DEFAULT_SETTINGS)];
      SettingsConsistent(db, WithDefaults(db[AppSettings], DEFAULT_SETTINGS));
      AppendConsistent(states, settings);
      Execute(settings);
      nextCheck := NextFree(db[TargetChecks]);
      if DistinctIds(targets) {
        EnsuredAllSynced(checks, targets);
        EnsuredAllOnly(checks, targets);
      }
      ok := true;
    }

    /**
     * Replaces the whole database by an archive, as one transaction: an archive without one of its
     * tables is refused before anything is touched; a rejected insert, of archived rows or of a
     * primary check, and a failed check of the outcome undo everything.  Every state in between is one
     * in which no reference dangles.
     */
    method Restore(archive: Archive, schema: Schema, key: nat, nonce: nat) returns (ok: bool)
      requires Total(db) && Consistent(db) && AllConsistent(states)
      modifies this
      ensures ok == Accepted(old(db), archive, schema, key, nonce, old(nextCheck))
      ensures AllConsistent(states)
      ensures db == if ok then Restored(old(db), archive, schema, key, nonce, old(nextCheck)).value else old(db)
      ensures ok ==> nextCheck == NextFree(db[TargetChecks])
    {
      hide Consistent, Cleared, Loaded, Finished, TablesOf, Imported, NextFree, Loadable, Empty, Intact;
      ok := forall t :: t in TablesOf(archive.kind) ==> t in archive.entries;
      if !ok {
        return;
      }
      var before := db;
      ClearedIsEmpty(db);
      ClearAll();
      ghost var base := db;
      ok := InsertAll(archive.entries, schema, key, nonce);
      if ok {
        EmptyIsTotal(base);
        LoadedTotal(base, Imported(archive.entries, schema, key, nonce));
        LoadableIsConsistent(base, Imported(archive.entries, schema, key, nonce));
        ok := Finish();
      }
      if ok {
        var issues := CheckDatabaseIntegrity(db);
        ok := issues == [];
      }
      if !ok {
        db := before;
      }
    }
  }

  lemma LoadableIsConsistent(base: Database, data: Database)
    requires Empty(base) && Loadable(data)
    ensures Consistent(Loaded(base, data, |INSERT_ORDER|, 0))
  {
    hide FitsUpTo, Empty, Loaded;
    LoadedConsistent(base, data, |INSERT_ORDER|, 0);
  }

  lemma NeverFits(data: Database, k: nat, n: nat, k': nat)
    requires k < k' && !FitsUpTo(data, k, n)
    ensures !FitsUpTo(data, k', 0)
  {
    hide FitsUpTo;
    if FitsUpTo(data, k', 0) {
      FitsEarlier(data, k, n, k');
    }
  }

  lemma NeverLoads(data: Database, k: nat)
    requires k <= |INSERT_ORDER| && !FitsUpTo(data, k, 0)
    ensures !Loadable(data)
  {
    hide FitsUpTo;
    if k < |INSERT_ORDER| {
      NeverFits(data, k, 0, |INSERT_ORDER|);
    }
  }

  lemma {:induction false} EnsuredFails(checks: Checks, targets: seq<Row>, i: nat)
    requires i <= |targets| && EnsuredAll(checks, targets[..i]).None?
    ensures EnsuredAll(checks, targets).None?
    decreases |targets| - i
  {
    if i == |targets| {
      assert targets[..i] == targets;
    } else {
      assert targets[..i + 1][..i] == targets[..i];
      EnsuredFails(checks, targets, i + 1);
    }
  }

  lemma AppendConsistent(states: seq<Database>, next: Database)
    requires AllConsistent(states) && Consistent(next)
    ensures AllConsistent(states + [next])
  {
    hide Consistent;
  }

  lemma EnsuredNone(db: Database, nextId: int)
    requires Total(db)
    ensures EnsuredAll(Checks(db[TargetChecks], nextId), []) == Some(Checks(db[TargetChecks], nextId))
    ensures db[TargetChecks := db[TargetChecks]] == db
  {
  }

  lemma LoadedTotal(base: Database, data: Database)
    requires Total(base)
    ensures Total(Loaded(base, data, |INSERT_ORDER|, 0))
  {
    hide InsertRank;
  }
}
