/** The primary check every target has: how a restore makes it or brings it into line, told column by column. */
module PrimaryChecks {
  import opened Basics
  import opened BackupSchema
  import opened Backups

  // ---------------------------------------------------------------- in line

  /** The row has the column, and this in it. */
  predicate Says(row: Row, column: string, cell: Cell) {
    column in row && row[column] == cell
  }

  /** A primary check that says of its target what a primary check has to say. */
  predicate Follows(check: Row, target: Row) {
    && Get(check, "target_id") == Get(target, "id")
    && Says(check, "is_primary", Flag(true))
    && Says(check, "name", Text(PRIMARY_CHECK_NAME))
    && Says(check, "checker_type", Get(target, "checker_type"))
    && Says(check, "port", Get(target, "port"))
    && Says(check, "address_override", Null)
    && Says(check, "path", Text("/"))
    && Says(check, "timeout_seconds", Null)
    && Says(check, "retries", Whole(0))
    && Says(check, "enabled", Flag(true))
    && Says(check, "display_order", Whole(0))
  }

  /** The columns that are brought into line. */
  const FOLLOWING: set<string> :=
    {"name", "checker_type", "address_override", "port", "path", "timeout_seconds", "retries", "enabled", "is_primary",
     "display_order"}

  /** The first primary check of the target follows it. */
  predicate InLine(checks: seq<Row>, target: Row) {
    var found := FindPrimary(checks, target);
    found.Some? && Follows(checks[found.value], target)
  }

  ghost predicate Synced(checks: seq<Row>, targets: seq<Row>) {
    forall i :: 0 <= i < |targets| ==> InLine(checks, targets[i])
  }

  lemma PrimaryColumns(target: Row)
    ensures PrimaryOf(target).Keys == FOLLOWING
  {
  }

  lemma PrimarySays(target: Row)
    ensures forall c :: c in PrimaryOf(target) ==>
              PrimaryOf(target)[c] ==
              if c == "name" then Text(PRIMARY_CHECK_NAME)
              else if c == "checker_type" then Get(target, "checker_type")
              else if c == "port" then Get(target, "port")
              else if c == "path" then Text("/")
              else if c == "retries" || c == "display_order" then Whole(0)
              else if c == "enabled" || c == "is_primary" then Flag(true)
              else Null
  {
  }

  /** A check brought into line follows its target, and every other column stays. */
  lemma BroughtFollows(check: Row, target: Row)
    requires IsPrimaryFor(check, target)
    ensures Follows(check + PrimaryOf(target), target)
    ensures forall c :: c !in FOLLOWING ==> SameColumn(check + PrimaryOf(target), check, c)
  {
    PrimaryColumns(target);
    PrimarySays(target);
    hide PrimaryOf;
    assert "target_id" !in FOLLOWING;
  }

  /** A column is in both rows, with the same cell, or in neither. */
  predicate SameColumn(a: Row, b: Row, c: string) {
    (c in a <==> c in b) && (c in a ==> a[c] == b[c])
  }

  /** A check that follows its target has nothing to be brought into line. */
  lemma FollowingStays(check: Row, target: Row)
    requires Follows(check, target)
    ensures check + PrimaryOf(target) == check
  {
    PrimaryColumns(target);
    PrimarySays(target);
    hide PrimaryOf;
  }

  /** A check made for a target follows it, under its own id, and has no other column. */
  lemma MadeFollows(target: Row, id: int)
    ensures Follows(NewPrimary(target, id), target)
    ensures Get(NewPrimary(target, id), "id") == Whole(id)
    ensures NewPrimary(target, id).Keys == FOLLOWING + {"id", "target_id"}
  {
    PrimaryColumns(target);
    PrimarySays(target);
    hide PrimaryOf;
    assert "target_id" !in FOLLOWING && "id" !in FOLLOWING;
  }

  lemma FollowerIsPrimary(check: Row, target: Row)
    requires Follows(check, target)
    ensures IsPrimaryFor(check, target)
    ensures forall other :: IsPrimaryFor(check, other) ==> Get(other, "id") == Get(target, "id")
  {
  }

  /** A database whose primary checks all follow their targets is left as it is. */
  lemma {:induction false} SyncedStays(checks: Checks, targets: seq<Row>)
    requires Synced(checks.rows, targets)
    ensures EnsuredAll(checks, targets) == Some(checks)
  {
    hide FindPrimary, PrimaryOf, Follows;
    if targets != [] {
      var target := targets[|targets| - 1];
      SyncedStays(checks, targets[..|targets| - 1]);
      assert InLine(checks.rows, target);
      var i := FindPrimary(checks.rows, target).value;
      FollowingStays(checks.rows[i], target);
      assert checks.rows[i := checks.rows[i]] == checks.rows;
    }
  }

  // ---------------------------------------------------------------- one target

  /** Bringing primary checks into line keeps every check, its id and its target; a new one has the next id. */
  lemma EnsuredKeeps(checks: Checks, target: Row, j: nat)
    requires Ensured(checks, target).Some? && j < |Ensured(checks, target).value.rows|
    ensures var after := Ensured(checks, target).value.rows;
            && |checks.rows| <= |after|
            && Get(after[j], "id") == (if j < |checks.rows| then Get(checks.rows[j], "id") else Whole(checks.nextId))
            && Get(after[j], "target_id") ==
               (if j < |checks.rows| then Get(checks.rows[j], "target_id") else Get(target, "id"))
            && (j >= |checks.rows| ==> Get(target, "id") != Null)
  {
    hide FindPrimary, PrimaryOf, NewPrimary;
    if j == |checks.rows| {
      MadeFollows(target, checks.nextId);
    } else {
      PrimaryColumns(target);
      assert "id" !in FOLLOWING && "target_id" !in FOLLOWING;
    }
  }

  lemma EnsuredLonger(checks: Checks, target: Row)
    requires Ensured(checks, target).Some?
    ensures |checks.rows| <= |Ensured(checks, target).value.rows|
  {
  }

  /** Primary keys: set, and different from row to row. */
  predicate DistinctIds(targets: seq<Row>) {
    && (forall i :: 0 <= i < |targets| ==> Get(targets[i], "id") != Null)
    && (forall i, j :: 0 <= i < j < |targets| ==> Get(targets[i], "id") != Get(targets[j], "id"))
  }

  /** The first primary check of a target, by position. */
  lemma {:induction false} FindPrimaryIs(checks: seq<Row>, target: Row, i: nat)
    requires i < |checks| && IsPrimaryFor(checks[i], target)
    requires forall j :: 0 <= j < i ==> !IsPrimaryFor(checks[j], target)
    ensures FindPrimary(checks, target) == Some(i)
  {
    hide IsPrimaryFor;
    if i < |checks| - 1 {
      FindPrimaryIs(checks[..|checks| - 1], target, i);
    }
  }

  lemma {:induction false} FindPrimaryIsFirst(checks: seq<Row>, target: Row)
    ensures FindPrimary(checks, target).Some? ==>
              forall j :: 0 <= j < FindPrimary(checks, target).value ==> !IsPrimaryFor(checks[j], target)
  {
    hide IsPrimaryFor;
    if checks != [] {
      FindPrimaryIsFirst(checks[..|checks| - 1], target);
    }
  }

  /** The one row that is changed or made. */
  lemma EnsuredRow(checks: Checks, target: Row)
    requires Ensured(checks, target).Some?
    ensures var i, after := PrimaryAt(checks.rows, target), Ensured(checks, target).value.rows;
            && i < |after| && Follows(after[i], target)
            && (i < |checks.rows| ==> forall c :: c !in FOLLOWING ==> SameColumn(after[i], checks.rows[i], c))
            && (i == |checks.rows| ==> after[i].Keys == FOLLOWING + {"id", "target_id"})
            && (forall j :: 0 <= j < |after| && j != i ==> j < |checks.rows| && after[j] == checks.rows[j])
  {
    hide FindPrimary, IsPrimaryFor, PrimaryOf, NewPrimary, HasKey, Follows, FOLLOWING;
    var found := FindPrimary(checks.rows, target);
    if found.Some? {
      BroughtFollows(checks.rows[found.value], target);
    } else {
      MadeFollows(target, checks.nextId);
    }
  }

  /** Where the first primary check of a target is, or the end of the table. */
  function PrimaryAt(checks: seq<Row>, target: Row): nat {
    var found := FindPrimary(checks, target);
    if found.Some? then found.value else |checks|
  }

  lemma EnsuredInLine(checks: Checks, target: Row)
    requires Ensured(checks, target).Some?
    ensures InLine(Ensured(checks, target).value.rows, target)
    ensures FindPrimary(Ensured(checks, target).value.rows, target) == Some(PrimaryAt(checks.rows, target))
  {
    hide FindPrimary, IsPrimaryFor, PrimaryOf, NewPrimary, HasKey, Follows;
    var found := FindPrimary(checks.rows, target);
    FindPrimaryIsFirst(checks.rows, target);
    var i := if found.Some? then found.value else |checks.rows|;
    EnsuredRow(checks, target);
    FollowerIsPrimary(Ensured(checks, target).value.rows[i], target);
    FindPrimaryIs(Ensured(checks, target).value.rows, target, i);
  }

  /** The rows of other targets stay as they are, and no row becomes theirs. */
  lemma OthersRow(checks: Checks, target: Row, other: Row, j: nat)
    requires Ensured(checks, target).Some? && Get(target, "id") != Get(other, "id")
    requires j < |Ensured(checks, target).value.rows|
    ensures var after := Ensured(checks, target).value.rows;
            && |checks.rows| <= |after|
            && IsPrimaryFor(after[j], other) == (j < |checks.rows| && IsPrimaryFor(checks.rows[j], other))
            && (IsPrimaryFor(after[j], other) ==> after[j] == checks.rows[j])
  {
    hide FindPrimary, PrimaryOf, NewPrimary, HasKey, IsPrimaryFor, Follows;
    var found := FindPrimary(checks.rows, target);
    EnsuredRow(checks, target);
    FollowerIsPrimary(Ensured(checks, target).value.rows[PrimaryAt(checks.rows, target)], target);
    if found.Some? {
      PrimaryOfOne(checks.rows[found.value], target, other);
    }
  }

  lemma PrimaryOfOne(check: Row, target: Row, other: Row)
    requires IsPrimaryFor(check, target) && Get(target, "id") != Get(other, "id")
    ensures !IsPrimaryFor(check, other)
  {
  }

  /** Bringing one target's check into line leaves every other target's check where it was. */
  lemma EnsuredKeepsOthers(checks: Checks, target: Row, other: Row)
    requires Ensured(checks, target).Some? && Get(target, "id") != Get(other, "id")
    ensures FindPrimary(Ensured(checks, target).value.rows, other) == FindPrimary(checks.rows, other)
    ensures InLine(checks.rows, other) ==> InLine(Ensured(checks, target).value.rows, other)
  {
    hide FindPrimary, PrimaryOf, Ensured, IsPrimaryFor;
    var after := Ensured(checks, target).value.rows;
    EnsuredLonger(checks, target);
    FindPrimaryIsFirst(checks.rows, other);
    FindPrimaryIsFirst(after, other);
    forall j | 0 <= j < |after|
      ensures IsPrimaryFor(after[j], other) == (j < |checks.rows| && IsPrimaryFor(checks.rows[j], other))
      ensures IsPrimaryFor(after[j], other) ==> after[j] == checks.rows[j]
    {
      OthersRow(checks, target, other, j);
    }
    if FindPrimary(checks.rows, other).Some? {
      FindPrimaryIs(after, other, FindPrimary(checks.rows, other).value);
    }
  }

  /** Whatever checks an archive had, once a restore is through every target has its primary check in line. */
  lemma {:induction false} EnsuredAllSynced(checks: Checks, targets: seq<Row>)
    requires DistinctIds(targets) && EnsuredAll(checks, targets).Some?
    ensures Synced(EnsuredAll(checks, targets).value.rows, targets)
  {
    hide InLine, Ensured;
    if targets != [] {
      var last := |targets| - 1;
      var before := EnsuredAll(checks, targets[..last]).value;
      EnsuredAllSynced(checks, targets[..last]);
      EnsuredInLine(before, targets[last]);
      forall i | 0 <= i < last
        ensures InLine(Ensured(before, targets[last]).value.rows, targets[i])
      {
        assert InLine(before.rows, targets[..last][i]);
        EnsuredKeepsOthers(before, targets[last], targets[i]);
      }
    }
  }

  // ---------------------------------------------------------------- all targets

  /** Nothing but the first primary check of a target, and of it nothing but the columns brought into line. */
  ghost predicate OnlyFollowing(before: seq<Row>, after: seq<Row>, targets: seq<Row>) {
    && |before| <= |after|
    && (forall j, c :: 0 <= j < |before| && c !in FOLLOWING ==> SameColumn(after[j], before[j], c))
    && (forall j :: 0 <= j < |before| && after[j] != before[j] ==>
          exists i :: 0 <= i < |targets| && FindPrimary(before, targets[i]) == Some(j))
  }

  /** The rows made are the primary checks of targets that had none. */
  ghost predicate OnlyLacking(before: seq<Row>, after: seq<Row>, targets: seq<Row>) {
    forall j :: |before| <= j < |after| ==>
      after[j].Keys == FOLLOWING + {"id", "target_id"} && MadeFor(before, after, targets, j)
  }

  ghost predicate MadeFor(before: seq<Row>, after: seq<Row>, targets: seq<Row>, j: nat) {
    exists i :: 0 <= i < |targets| && FindPrimary(before, targets[i]).None? && FindPrimary(after, targets[i]) == Some(j)
  }

  lemma {:induction false} OtherPrimariesStay(checks: Checks, targets: seq<Row>, other: Row)
    requires EnsuredAll(checks, targets).Some? && forall i :: 0 <= i < |targets| ==>
               Get(targets[i], "id") != Get(other, "id")
    ensures FindPrimary(EnsuredAll(checks, targets).value.rows, other) == FindPrimary(checks.rows, other)
  {
    hide Ensured, FindPrimary, InLine;
    if targets != [] {
      OtherPrimariesStay(checks, targets[..|targets| - 1], other);
      EnsuredKeepsOthers(EnsuredAll(checks, targets[..|targets| - 1]).value, targets[|targets| - 1], other);
    }
  }

  lemma FrontTargets(targets: seq<Row>)
    requires targets != [] && DistinctIds(targets)
    ensures DistinctIds(targets[..|targets| - 1])
    ensures forall i :: 0 <= i < |targets| - 1 ==> Get(targets[i], "id") != Get(targets[|targets| - 1], "id")
    ensures Get(targets[|targets| - 1], "id") != Null
  {
  }

  lemma OneMoreFollowing(checks: Checks, targets: seq<Row>)
    requires targets != [] && DistinctIds(targets) && EnsuredAll(checks, targets).Some?
    requires OnlyFollowing(checks.rows, EnsuredAll(checks, targets[..|targets| - 1]).value.rows,
                           targets[..|targets| - 1])
    ensures OnlyFollowing(checks.rows, EnsuredAll(checks, targets).value.rows, targets)
  {
    hide Ensured, FindPrimary, DistinctIds, Follows, FOLLOWING;
    var front, target := targets[..|targets| - 1], targets[|targets| - 1];
    var before, mid, after := checks.rows, EnsuredAll(checks, front).value, EnsuredAll(checks, targets).value.rows;
    assert after == Ensured(mid, target).value.rows;
    FrontTargets(targets);
    EnsuredRow(mid, target);
    EnsuredLonger(mid, target);
    OtherPrimariesStay(checks, front, target);
    var at := PrimaryAt(mid.rows, target);
    forall j | 0 <= j < |before| && after[j] != before[j]
      ensures exists i :: 0 <= i < |targets| && FindPrimary(before, targets[i]) == Some(j)
    {
      if j == at {
        assert FindPrimary(before, targets[|targets| - 1]) == Some(j);
      } else {
        var i :| 0 <= i < |front| && FindPrimary(before, front[i]) == Some(j);
        assert front[i] == targets[i];
      }
    }
    forall j, c | 0 <= j < |before| && c !in FOLLOWING
      ensures SameColumn(after[j], before[j], c)
    {
      assert SameColumn(mid.rows[j], before[j], c);
    }
  }

  lemma OneMoreLacking(checks: Checks, targets: seq<Row>)
    requires targets != [] && DistinctIds(targets) && EnsuredAll(checks, targets).Some?
    requires |checks.rows| <= |EnsuredAll(checks, targets[..|targets| - 1]).value.rows|
    requires OnlyLacking(checks.rows, EnsuredAll(checks, targets[..|targets| - 1]).value.rows, targets[..|targets| - 1])
    ensures OnlyLacking(checks.rows, EnsuredAll(checks, targets).value.rows, targets)
  {
    hide Ensured, FindPrimary, DistinctIds, Follows, FOLLOWING;
    var front, target := targets[..|targets| - 1], targets[|targets| - 1];
    var before, mid, after := checks.rows, EnsuredAll(checks, front).value, EnsuredAll(checks, targets).value.rows;
    assert after == Ensured(mid, target).value.rows;
    FrontTargets(targets);
    EnsuredRow(mid, target);
    EnsuredInLine(mid, target);
    OtherPrimariesStay(checks, front, target);
    var at := PrimaryAt(mid.rows, target);
    forall j | |before| <= j < |after|
      ensures after[j].Keys == FOLLOWING + {"id", "target_id"} && MadeFor(before, after, targets, j)
    {
      if j == at {
        assert FindPrimary(before, targets[|targets| - 1]).None?;
        assert FindPrimary(after, targets[|targets| - 1]) == Some(j);
      } else {
        assert Ensured(mid, target).value.rows[j] == after[j];
        assert j < |mid.rows| && after[j] == mid.rows[j] && MadeFor(before, mid.rows, front, j);
        var i :| 0 <= i < |front| && FindPrimary(before, front[i]).None? && FindPrimary(mid.rows, front[i]) == Some(j);
        EnsuredKeepsOthers(mid, target, front[i]);
        assert front[i] == targets[i];
      }
    }
  }

  lemma OnlyNothing(checks: seq<Row>)
    ensures OnlyFollowing(checks, checks, []) && OnlyLacking(checks, checks, [])
  {
  }

  lemma {:induction false} NotShorter(checks: Checks, targets: seq<Row>)
    requires EnsuredAll(checks, targets).Some?
    ensures |checks.rows| <= |EnsuredAll(checks, targets).value.rows|
  {
    hide Ensured;
    if targets != [] {
      NotShorter(checks, targets[..|targets| - 1]);
      EnsuredLonger(EnsuredAll(checks, targets[..|targets| - 1]).value, targets[|targets| - 1]);
    }
  }

  /** What is done for all targets together changes nothing else. */
  lemma {:induction false} EnsuredAllOnly(checks: Checks, targets: seq<Row>)
    requires DistinctIds(targets) && EnsuredAll(checks, targets).Some?
    ensures OnlyFollowing(checks.rows, EnsuredAll(checks, targets).value.rows, targets)
    ensures OnlyLacking(checks.rows, EnsuredAll(checks, targets).value.rows, targets)
  {
    hide Ensured, FindPrimary, OnlyFollowing, OnlyLacking, DistinctIds;
    if targets == [] {
      OnlyNothing(checks.rows);
    } else {
      FrontTargets(targets);
      EnsuredAllOnly(checks, targets[..|targets| - 1]);
      NotShorter(checks, targets[..|targets| - 1]);
      OneMoreFollowing(checks, targets);
      OneMoreLacking(checks, targets);
    }
  }
}
