/** What entry points guarantee: one per site, batches that check each target once, and one answer everywhere. */
module SiteRules {
  import opened Basics
  import opened Incidents
  import opened SiteGates
  import opened SiteBatches

  // ---------------------------------------------------------------- one entry per site

  predicate OneEntry(targets: seq<Target>) {
    forall i, j :: 0 <= i < j < |targets| && targets[i].isEntry && targets[j].isEntry ==>
      targets[i].siteId != targets[j].siteId
  }

  predicate EntriesFit(targets: seq<Target>) {
    forall t :: t in targets && t.isEntry ==> t.kind in ENTRY_KINDS
  }

  /** At most one entry besides target `i`, site by site: what moving a target may leave for a moment. */
  predicate OneOther(targets: seq<Target>, i: nat)
    requires i < |targets|
  {
    forall j, k :: 0 <= j < k < |targets| && j != i && k != i && targets[j].isEntry && targets[k].isEntry
                   ==> targets[j].siteId != targets[k].siteId
  }

  lemma MarkingKeepsOne(targets: seq<Target>, i: nat)
    requires i < |targets| && ById(targets) && OneOther(targets, i)
    ensures OneEntry(WithEntry(targets, i))
    ensures forall j :: 0 <= j < |targets| && j != i ==>
              WithEntry(targets, i)[j].isEntry == (targets[j].isEntry && targets[j].siteId != targets[i].siteId)
  {
    hide FindOtherEntry;
    var previous := FindOtherEntry(targets, targets[i].siteId, targets[i].id);
    forall j | 0 <= j < |targets| && j != i && targets[j].siteId == targets[i].siteId
      ensures !WithEntry(targets, i)[j].isEntry
    {
      if targets[j].isEntry {
        assert OtherEntry(targets[j], targets[i].siteId, targets[i].id);
      }
    }
  }

  /** Setting an entry, or saving the editor of any target, leaves every site with at most one entry. */
  lemma EditingKeepsOneEntry(targets: seq<Target>, i: nat, site: nat, kind: Kind, wantsEntry: bool)
    requires i < |targets| && ById(targets) && OneEntry(targets) && EntriesFit(targets)
             && (wantsEntry ==> kind in ENTRY_KINDS)
    ensures OneEntry(AfterEdit(targets, i, site, kind, wantsEntry))
            && EntriesFit(AfterEdit(targets, i, site, kind, wantsEntry))
    ensures AfterEdit(targets, i, site, kind, wantsEntry)[i] ==
            Target(targets[i].id, site, kind, targets[i].enabled, wantsEntry)
  {
    hide WithEntry, EntriesFit;
    var moved := WithKind(targets, i, site, kind);
    if wantsEntry {
      MarkingKeepsOne(moved, i);
    }
    EditedTarget(targets, i, site, kind, wantsEntry);
  }

  lemma EditedTarget(targets: seq<Target>, i: nat, site: nat, kind: Kind, wantsEntry: bool)
    requires i < |targets| && ById(targets) && EntriesFit(targets) && (wantsEntry ==> kind in ENTRY_KINDS)
    ensures AfterEdit(targets, i, site, kind, wantsEntry)[i] ==
            Target(targets[i].id, site, kind, targets[i].enabled, wantsEntry)
    ensures EntriesFit(AfterEdit(targets, i, site, kind, wantsEntry))
  {
    hide FindOtherEntry;
    var moved := WithKind(targets, i, site, kind);
    var previous := FindOtherEntry(moved, site, targets[i].id);
    var after := AfterEdit(targets, i, site, kind, wantsEntry);
    forall t | t in after && t.isEntry
      ensures t.kind in ENTRY_KINDS
    {
      var j :| 0 <= j < |after| && after[j] == t;
      assert targets[j] in targets;
    }
  }

  lemma SettingKeepsOneEntry(targets: seq<Target>, i: nat, enabled: bool)
    requires i < |targets| && ById(targets) && OneEntry(targets)
    ensures OneEntry(if enabled then WithEntry(targets, i) else WithoutEntry(targets, i))
  {
    if enabled {
      MarkingKeepsOne(targets, i);
    }
  }

  /** With one entry per site, the gate of a site is that of its entry. */
  lemma {:induction false} GateIsTheEntrys(targets: seq<Target>, i: nat, results: seq<CheckResult>, working: Working)
    requires OneEntry(targets) && i < |targets| && targets[i].isEntry
    ensures SiteGate(targets, results, working, targets[i].siteId) == Some(GateOf(targets[i], results, working))
  {
    var last := |targets| - 1;
    if i < last {
      GateIsTheEntrys(targets[..last], i, results, working);
    } else {
      NoGate(targets[..last], results, working, targets[i].siteId);
    }
  }

  lemma {:induction false} NoGate(targets: seq<Target>, results: seq<CheckResult>, working: Working, site: nat)
    requires forall i :: 0 <= i < |targets| ==> !(targets[i].isEntry && targets[i].siteId == site)
    ensures SiteGate(targets, results, working, site).None?
  {
    if targets != [] {
      NoGate(targets[..|targets| - 1], results, working, site);
    }
  }

  /** A gate always belongs to an entry of its site. */
  lemma {:induction false} GateHasAnEntry(targets: seq<Target>, results: seq<CheckResult>, working: Working, site: nat)
    returns (i: nat)
    requires SiteGate(targets, results, working, site).Some?
    ensures i < |targets| && targets[i].isEntry && targets[i].siteId == site
    ensures SiteGate(targets, results, working, site) == Some(GateOf(targets[i], results, working))
  {
    var last := |targets| - 1;
    if SiteGate(targets[..last], results, working, site).Some? {
      i := GateHasAnEntry(targets[..last], results, working, site);
    } else {
      i := last;
    }
  }

  // ---------------------------------------------------------------- the health view

  datatype Availability = AvailableUp | AvailableDown | OffHours | AvailabilityUnknown

  datatype HealthState = Disabled | OutOfHours | SiteUnreachable | Offline | NotKnown | Trouble(worst: Severity) | Ok

  /** The worst of a target's current problems. */
  function Worst(problems: seq<Severity>): Option<Severity> {
    if problems == [] then None else if Critical in problems then Some(Critical) else Some(Warning)
  }

  function Health(t: Target, availability: Availability, gate: Option<Gate>, problems: seq<Severity>): HealthState {
    if !t.enabled then Disabled
    else if availability.OffHours? then OutOfHours
    else if gate.Some? && gate.value.Blocked() && gate.value.entryId != t.id then SiteUnreachable
    else if availability.AvailableDown? then Offline
    else if !availability.AvailableUp? then NotKnown
    else if Worst(problems).Some? then Trouble(Worst(problems).value)
    else Ok
  }

  /**
   * What the health view says: of a target switched off or out of hours, that; behind another entry that is enabled,
   * on schedule and down, that; otherwise its own availability, and when it is up the worst of its problems.
   */
  lemma HealthExactly(t: Target, availability: Availability, gate: Option<Gate>, problems: seq<Severity>)
    ensures var health := Health(t, availability, gate, problems);
            var behind := gate.Some? && gate.value.entryId != t.id && gate.value.entryEnabled && gate.value.working
                          && gate.value.status == Some(Down);
            var own := t.enabled && !availability.OffHours? && !behind;
            && (health.Disabled? <==> !t.enabled)
            && (health.OutOfHours? <==> t.enabled && availability.OffHours?)
            && (health.SiteUnreachable? <==> t.enabled && !availability.OffHours? && behind)
            && (health.Offline? <==> own && availability.AvailableDown?)
            && (health.NotKnown? <==> own && availability.AvailabilityUnknown?)
            && (health == Trouble(Critical) <==> own && availability.AvailableUp? && Critical in problems)
            && (health == Trouble(Warning) <==>
                own && availability.AvailableUp? && Warning in problems && Critical !in problems)
            && (health.Ok? <==> own && availability.AvailableUp? && Critical !in problems && Warning !in problems)
  {
    if problems != [] {
      assert problems[0] in problems && (problems[0] == Warning || problems[0] == Critical);
    }
    assert Worst(problems).Some? ==> Worst(problems).value == if Critical in problems then Critical else Warning;
  }

  /**
   * For an enabled target that is on schedule, the health view says the site is unreachable exactly
   * when a manual check of it would be refused, provided it is not a second entry of a blocked site.
   */
  lemma HealthAgreesUnless(targets: seq<Target>, i: nat, availability: Availability, results: seq<CheckResult>,
                           working: Working, problems: seq<Severity>)
    requires i < |targets| && targets[i].enabled && !availability.OffHours? && ById(targets)
    ensures var t := targets[i];
            var gate := SiteGate(targets, results, working, t.siteId);
            (Health(t, availability, gate, problems).SiteUnreachable? <==>
             ManualSuppressed(t, targets, results, working))
            <==> !(t.isEntry && SiteBlocked(targets, results, working, t.siteId) && gate.value.entryId != t.id)
  {
    hide SiteGate, LatestStatus;
    var t := targets[i];
    if SiteGate(targets, results, working, t.siteId).Some? {
      var j := GateHasAnEntry(targets, results, working, t.siteId);
      assert targets[j].id == t.id ==> i == j;
    }
  }

  /** A site with two entries, the first of them down. */
  lemma SecondEntryDisagrees(availability: Availability)
    requires !availability.OffHours?
    ensures var targets := [Target(1, 7, NetworkKind, true, true), Target(2, 7, NetworkKind, true, true)];
            var results := [CheckResult(1, Down, 0)];
            && Health(targets[1], availability, SiteGate(targets, results, {7}, 7), []).SiteUnreachable?
            && !ManualSuppressed(targets[1], targets, results, {7})
  {
    var targets := [Target(1, 7, NetworkKind, true, true), Target(2, 7, NetworkKind, true, true)];
    var results := [CheckResult(1, Down, 0)];
    assert targets[..1] == [targets[0]] && targets[..1][..0] == [] && results[..0] == [];
    assert LatestStatus(results, 1) == Some(Down);
    assert SiteGate(targets[..1], results, {7}, 7) == Some(GateOf(targets[0], results, {7}));
  }

  /** With one entry per site they always agree. */
  lemma HealthAgreesWithScheduler(targets: seq<Target>, i: nat, availability: Availability, results: seq<CheckResult>,
                                  working: Working, problems: seq<Severity>)
    requires i < |targets| && targets[i].enabled && !availability.OffHours? && ById(targets) && OneEntry(targets)
    ensures var t := targets[i];
            Health(t, availability, SiteGate(targets, results, working, t.siteId), problems).SiteUnreachable?
            <==> ManualSuppressed(t, targets, results, working)
  {
    hide SiteGate, LatestStatus, Health, ManualSuppressed;
    HealthAgreesUnless(targets, i, availability, results, working, problems);
    if targets[i].isEntry {
      GateIsTheEntrys(targets, i, results, working);
    }
  }

  // ---------------------------------------------------------------- batches

  lemma {:induction false} SplitByMark(items: seq<Target>)
    ensures multiset(Ids(Entries(items))) + multiset(Ids(Regular(items))) == multiset(Ids(items))
  {
    if items != [] {
      var last := |items| - 1;
      SplitByMark(items[..last]);
      IdsAppend(items[..last], items[last]);
      IdsAppend(Entries(items[..last]), items[last]);
      IdsAppend(Regular(items[..last]), items[last]);
      assert items[..last] + [items[last]] == items;
    }
  }

  lemma IdsAppend(items: seq<Target>, t: Target)
    ensures Ids(items + [t]) == Ids(items) + [t.id]
  {
  }

  lemma {:induction false} SplitBySite(items: seq<Target>, sites: set<nat>)
    ensures multiset(Ids(InSites(items, sites, true))) + multiset(Ids(InSites(items, sites, false))) ==
            multiset(Ids(items))
  {
    if items != [] {
      var last := |items| - 1;
      SplitBySite(items[..last], sites);
      IdsAppend(items[..last], items[last]);
      IdsAppend(InSites(items[..last], sites, true), items[last]);
      IdsAppend(InSites(items[..last], sites, false), items[last]);
      assert items[..last] + [items[last]] == items;
    }
  }

  /**
   * A batch partitions what was scheduled: every target is completed exactly as often as it was
   * scheduled, checked or skipped but not both, and no entry is ever skipped.
   */
  lemma BatchPartitions(scheduled: seq<Target>, first: seq<nat>, second: seq<nat>, skipped: seq<nat>, blocked: set<nat>)
    requires multiset(first) == multiset(Ids(Entries(scheduled)))
    requires skipped == Ids(InSites(Regular(scheduled), blocked, true))
    requires multiset(second) == multiset(Ids(InSites(Regular(scheduled), blocked, false)))
    ensures multiset(first + skipped + second) == multiset(Ids(scheduled))
    ensures multiset(first + second) + multiset(skipped) == multiset(Ids(scheduled))
    ensures forall i :: 0 <= i < |skipped| ==>
              exists t :: t in scheduled && !t.isEntry && t.siteId in blocked && t.id == skipped[i]
  {
    hide Entries, Regular, InSites;
    SplitByMark(scheduled);
    SplitBySite(Regular(scheduled), blocked);
    var out := InSites(Regular(scheduled), blocked, true);
    forall i | 0 <= i < |skipped|
      ensures exists t :: t in scheduled && !t.isEntry && t.siteId in blocked && t.id == skipped[i]
    {
      SkippedComesFrom(scheduled, blocked, i);
    }
  }

  lemma SkippedComesFrom(scheduled: seq<Target>, blocked: set<nat>, i: nat)
    requires i < |InSites(Regular(scheduled), blocked, true)|
    ensures exists t :: t in scheduled && !t.isEntry && t.siteId in blocked
                        && t.id == InSites(Regular(scheduled), blocked, true)[i].id
  {
    var t := InSites(Regular(scheduled), blocked, true)[i];
    assert t in InSites(Regular(scheduled), blocked, true);
  }

  lemma {:induction false} LatestAppend(a: seq<CheckResult>, b: seq<CheckResult>, id: nat)
    ensures LatestStatus(a + b, id) == if LatestStatus(b, id).Some? then LatestStatus(b, id) else LatestStatus(a, id)
  {
    if b == [] {
      assert a + b == a;
    } else {
      assert (a + b)[..|a + b| - 1] == a + b[..|b| - 1];
      LatestAppend(a, b[..|b| - 1], id);
    }
  }

  /**
   * Whatever the order in which checks finish, the newest result of a target is the one of this batch, if it
   * was stored.
   */
  lemma {:induction false} LatestStored(targets: seq<Target>, c: Circumstances, order: seq<nat>, id: nat)
    ensures LatestStatus(StoredAll(targets, c, order), id)
            == if id in order && Storable(targets, c, id) then Some(OutcomeOf(c, id)) else None
  {
    hide Storable, OutcomeOf;
    if order != [] {
      var last := |order| - 1;
      LatestStored(targets, c, order[..last], id);
      LatestAppend(StoredAll(targets, c, order[..last]), StoredOne(targets, c, order[last]), id);
      StoredOneLatest(targets, c, order[last], id);
      assert order == order[..last] + [order[last]];
    }
  }

  lemma StoredOneLatest(targets: seq<Target>, c: Circumstances, other: nat, id: nat)
    ensures LatestStatus(StoredOne(targets, c, other), id)
            == if other == id && Storable(targets, c, id) then Some(OutcomeOf(c, id)) else None
  {
    hide Storable, OutcomeOf;
    assert Storable(targets, c, other) ==> StoredOne(targets, c, other)[..0] == [];
  }

  /** By key, a target is found where it is. */
  lemma FoundById(targets: seq<Target>, i: nat)
    requires ById(targets) && i < |targets|
    ensures Find(targets, targets[i].id) == Some(i)
  {
  }

  /**
   * A result is stored exactly when a target of that id exists and is enabled, its site is enabled, and
   * it is on schedule at that moment.
   */
  lemma StorableExactly(targets: seq<Target>, c: Circumstances, id: nat)
    requires ById(targets)
    ensures Storable(targets, c, id) <==>
            && (exists i :: 0 <= i < |targets| && targets[i].id == id && targets[i].enabled
                            && targets[i].siteId in c.enabledSites)
            && id in c.onScheduleWhenSaved
  {
    hide Find;
    if i :| 0 <= i < |targets| && targets[i].id == id {
      FoundById(targets, i);
    }
  }

  /**
   * What checks that finish in any order store of a target: its outcome once for every time it was
   * checked, at the moment of saving, if it is admitted, and otherwise nothing; and of other targets only
   * what they report.
   */
  lemma BatchStoresExactly(targets: seq<Target>, c: Circumstances, order: seq<nat>, i: nat)
    requires ById(targets) && i < |targets|
    ensures var t, stored := targets[i], StatusesOf(StoredAll(targets, c, order), targets[i].id);
            && |stored| == (if t.enabled && t.siteId in c.enabledSites && t.id in c.onScheduleWhenSaved
                            then multiset(order)[t.id] else 0)
            && (forall s :: s in stored ==> s == if t.id in c.outcomes then c.outcomes[t.id] else Unknown)
            && (forall row :: row in StoredAll(targets, c, order) ==> row.targetId in order && row.checkedAt == c.now)
  {
    hide Storable, StoredAll, StatusesOf, ById;
    EntryStorable(targets, c, i);
    StoredStatuses(targets, c, order, targets[i].id);
    StoredRows(targets, c, order);
  }

  lemma {:induction false} StoredStatuses(targets: seq<Target>, c: Circumstances, order: seq<nat>, id: nat)
    ensures var stored := StatusesOf(StoredAll(targets, c, order), id);
            && |stored| == (if Storable(targets, c, id) then multiset(order)[id] else 0)
            && (forall s :: s in stored ==> s == OutcomeOf(c, id))
  {
    hide Storable, StatusesOf, OutcomeOf, StoredOne;
    if order == [] {
      NothingStored(targets, c, id);
    } else {
      var last := |order| - 1;
      StoredStatuses(targets, c, order[..last], id);
      OneStores(targets, c, StoredAll(targets, c, order[..last]), order[last], id);
      assert order == order[..last] + [order[last]];
    }
  }

  lemma NothingStored(targets: seq<Target>, c: Circumstances, id: nat)
    ensures StatusesOf(StoredAll(targets, c, []), id) == []
  {
  }

  lemma {:induction false} StoredRows(targets: seq<Target>, c: Circumstances, order: seq<nat>)
    ensures forall row :: row in StoredAll(targets, c, order) ==> row.targetId in order && row.checkedAt == c.now
  {
    hide Storable, OutcomeOf;
    if order != [] {
      StoredRows(targets, c, order[..|order| - 1]);
      assert order == order[..|order| - 1] + [order[|order| - 1]];
    }
  }

  lemma OneStores(targets: seq<Target>, c: Circumstances, before: seq<CheckResult>, id: nat, target: nat)
    ensures StatusesOf(before + StoredOne(targets, c, id), target) ==
            StatusesOf(before, target)
            + if id == target && Storable(targets, c, id) then [OutcomeOf(c, id)] else []
  {
    hide Storable, OutcomeOf;
    if Storable(targets, c, id) {
      assert (before + StoredOne(targets, c, id))[..|before|] == before;
    } else {
      assert before + [] == before;
    }
  }

  /** A DOWN of this entry is stored by the batch itself, or was the last one stored before it. */
  predicate SeenDown(e: Target, c: Circumstances, scheduled: seq<Target>, results: seq<CheckResult>) {
    if e.id in Ids(Entries(scheduled)) && e.enabled && e.siteId in c.enabledSites && e.id in c.onScheduleWhenSaved
    then e.id in c.outcomes && c.outcomes[e.id].Down?
    else LatestStatus(results, e.id) == Some(Down)
  }

  /**
   * A regular target is skipped exactly when its site's entry is enabled, on schedule, and was last
   * seen down, counting a result stored earlier in the same batch.
   */
  lemma SkippedExactly(targets: seq<Target>, entry: nat, c: Circumstances, scheduled: seq<Target>,
                       results: seq<CheckResult>, first: seq<nat>)
    requires ById(targets) && OneEntry(targets) && entry < |targets| && targets[entry].isEntry
    requires multiset(first) == multiset(Ids(Entries(scheduled)))
    ensures SiteBlocked(targets, results + StoredAll(targets, c, first), c.onScheduleAtGate, targets[entry].siteId)
            <==> targets[entry].enabled && targets[entry].siteId in c.onScheduleAtGate
                 && SeenDown(targets[entry], c, scheduled, results)
  {
    hide SiteGate, StoredAll, Storable, Entries, LatestStatus, OneEntry, ById;
    var e := targets[entry];
    FoundById(targets, entry);
    EntryStorable(targets, c, entry);
    GateIsTheEntrys(targets, entry, results + StoredAll(targets, c, first), c.onScheduleAtGate);
    LatestAppend(results, StoredAll(targets, c, first), e.id);
    LatestStored(targets, c, first, e.id);
    assert e.id in first <==> e.id in multiset(first);
    assert e.id in Ids(Entries(scheduled)) <==> e.id in multiset(Ids(Entries(scheduled)));
  }

  lemma EntryStorable(targets: seq<Target>, c: Circumstances, i: nat)
    requires ById(targets) && i < |targets|
    ensures Storable(targets, c, targets[i].id) <==>
            targets[i].enabled && targets[i].siteId in c.enabledSites && targets[i].id in c.onScheduleWhenSaved
  {
    hide Find;
    FoundById(targets, i);
  }

  /** Why a batch holds a site back: its entry is enabled, on schedule, and was last seen down. */
  predicate HeldBack(targets: seq<Target>, c: Circumstances, scheduled: seq<Target>, results: seq<CheckResult>,
                     site: nat)
  {
    exists e :: 0 <= e < |targets| && targets[e].isEntry && targets[e].siteId == site
                && targets[e].enabled && site in c.onScheduleAtGate
                && SeenDown(targets[e], c, scheduled, results)
  }

  lemma BlockedExactly(targets: seq<Target>, c: Circumstances, scheduled: seq<Target>, results: seq<CheckResult>,
                       first: seq<nat>, site: nat)
    requires ById(targets) && OneEntry(targets) && multiset(first) == multiset(Ids(Entries(scheduled)))
    ensures SiteBlocked(targets, results + StoredAll(targets, c, first), c.onScheduleAtGate, site)
            <==> HeldBack(targets, c, scheduled, results, site)
  {
    hide SiteGate, StoredAll, LatestStatus, OneEntry, SeenDown, Entries, SiteBlocked, ById;
    if e :| 0 <= e < |targets| && targets[e].isEntry && targets[e].siteId == site {
      SkippedExactly(targets, e, c, scheduled, results, first);
      forall e' | 0 <= e' < |targets| && targets[e'].isEntry && targets[e'].siteId == site ensures e' == e {
        SameEntry(targets, e, e');
      }
    } else {
      NoEntryNoBlock(targets, results + StoredAll(targets, c, first), c.onScheduleAtGate, site);
    }
  }

  lemma SameEntry(targets: seq<Target>, i: nat, j: nat)
    requires OneEntry(targets) && i < |targets| && j < |targets|
    requires targets[i].isEntry && targets[j].isEntry && targets[i].siteId == targets[j].siteId
    ensures i == j
  {
  }

  lemma IdsMember(items: seq<Target>, scheduled: seq<Target>, t: Target)
    requires t in scheduled && (forall x :: x in items ==> x in scheduled)
    requires forall x, y :: x in scheduled && y in scheduled && x.id == y.id ==> x == y
    ensures t.id in Ids(items) <==> t in items
  {
    if t.id in Ids(items) {
      var i :| 0 <= i < |items| && Ids(items)[i] == t.id;
      assert items[i] in items;
    }
    if i :| 0 <= i < |items| && items[i] == t {
      assert Ids(items)[i] == t.id;
    }
  }

  /**
   * One whole batch, from what it reports: an ordinary target is skipped exactly when its site's entry
   * is enabled, on schedule and was last seen down, counting a result stored earlier in the same batch;
   * and it is checked exactly when it is not skipped.
   */
  lemma BatchSkipsExactly(targets: seq<Target>, c: Circumstances, scheduled: seq<Target>, results: seq<CheckResult>,
                          first: seq<nat>, second: seq<nat>, skipped: seq<nat>, blocked: set<nat>, t: Target)
    requires ById(targets) && OneEntry(targets)
    requires forall x, y :: x in scheduled && y in scheduled && x.id == y.id ==> x == y
    requires multiset(first) == multiset(Ids(Entries(scheduled)))
    requires forall x :: x in Regular(scheduled) ==>
               (x.siteId in blocked <==>
                SiteBlocked(targets, results + StoredAll(targets, c, first), c.onScheduleAtGate, x.siteId))
    requires skipped == Ids(InSites(Regular(scheduled), blocked, true))
    requires multiset(second) == multiset(Ids(InSites(Regular(scheduled), blocked, false)))
    requires t in scheduled && !t.isEntry
    ensures t.id in skipped <==> HeldBack(targets, c, scheduled, results, t.siteId)
    ensures t.id in second <==> !HeldBack(targets, c, scheduled, results, t.siteId)
  {
    hide SiteBlocked, StoredAll, OneEntry, HeldBack, Regular, Entries, InSites, ById;
    assert t in Regular(scheduled);
    BlockedExactly(targets, c, scheduled, results, first, t.siteId);
    var outside, within := InSites(Regular(scheduled), blocked, false), InSites(Regular(scheduled), blocked, true);
    IdsMember(within, scheduled, t);
    IdsMember(outside, scheduled, t);
    assert t.id in second <==> t.id in multiset(second);
    assert t.id in Ids(outside) <==> t.id in multiset(Ids(outside));
  }

  /** A site without an entry never holds its targets back. */
  lemma NoEntryNoBlock(targets: seq<Target>, results: seq<CheckResult>, working: Working, site: nat)
    requires forall i :: 0 <= i < |targets| ==> !(targets[i].isEntry && targets[i].siteId == site)
    ensures !SiteBlocked(targets, results, working, site)
  {
    NoGate(targets, results, working, site);
  }

  // ---------------------------------------------------------------- a fresh DOWN

  function EntryAndServer(): seq<Target> {
    [Target(1, 7, NetworkKind, true, true), Target(2, 7, ServerKind, true, false)]
  }

  /** The entry answers DOWN, and everything is enabled and on schedule. */
  function EntryDown(now: Time): Circumstances {
    Circumstances(map[1 := Down], {7}, {1, 2}, {7}, now)
  }

  /** With no earlier results: the DOWN is stored, and the server of the site is skipped in the same batch. */
  lemma FreshDownHoldsSiblings(now: Time, first: seq<nat>, second: seq<nat>, skipped: seq<nat>, blocked: set<nat>)
    requires var targets, c := EntryAndServer(), EntryDown(now);
             && multiset(first) == multiset(Ids(Entries(targets)))
             && (forall x :: x in Regular(targets) ==>
                   (x.siteId in blocked <==>
                    SiteBlocked(targets, StoredAll(targets, c, first), c.onScheduleAtGate, x.siteId)))
             && skipped == Ids(InSites(Regular(targets), blocked, true))
             && multiset(second) == multiset(Ids(InSites(Regular(targets), blocked, false)))
    ensures StatusesOf(StoredAll(EntryAndServer(), EntryDown(now), first), 1) == [Down]
    ensures 2 in skipped && 2 !in second
  {
    var targets, c := EntryAndServer(), EntryDown(now);
    EntryOfTwo();
    assert 1 in multiset(first) && multiset(first)[1] == 1;
    BatchStoresExactly(targets, c, first, 0);
    assert [] + StoredAll(targets, c, first) == StoredAll(targets, c, first);
    assert HeldBack(targets, c, targets, [], 7) by {
      assert targets[0].isEntry;
    }
    BatchSkipsExactly(targets, c, targets, [], first, second, skipped, blocked, targets[1]);
  }

  lemma EntryOfTwo()
    ensures Ids(Entries(EntryAndServer())) == [1]
  {
    var targets := EntryAndServer();
    assert targets[..1] == [targets[0]] && [targets[0]][..0] == [];
    assert Entries([targets[0]]) == [targets[0]];
  }
}
