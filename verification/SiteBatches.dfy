/** Batches of checks: entries first, then the targets whose site is not blocked. */
module SiteBatches {
  import opened Basics
  import opened Incidents
  import opened SiteGates

  /** What the world does during a batch. */
  datatype Circumstances = Circumstances(
    outcomes: map<nat, CheckStatus>,
    enabledSites: set<nat>,
    onScheduleWhenSaved: set<nat>,
    onScheduleAtGate: Working,
    now: Time)

  /** A target without a listed outcome has none to report. */
  function OutcomeOf(c: Circumstances, id: nat): CheckStatus {
    if id in c.outcomes then c.outcomes[id] else Unknown
  }

  /** A result is stored when its target and site are enabled and on schedule at that moment. */
  predicate Storable(targets: seq<Target>, c: Circumstances, id: nat) {
    var found := Find(targets, id);
    && found.Some? && targets[found.value].enabled && targets[found.value].siteId in c.enabledSites
    && id in c.onScheduleWhenSaved
  }

  function StoredOne(targets: seq<Target>, c: Circumstances, id: nat): seq<CheckResult> {
    if Storable(targets, c, id) then [CheckResult(id, OutcomeOf(c, id), c.now)] else []
  }

  /** The results stored by checks that finish in a given order. */
  function StoredAll(targets: seq<Target>, c: Circumstances, order: seq<nat>): seq<CheckResult> {
    if order == [] then [] else StoredAll(targets, c, order[..|order| - 1]) + StoredOne(targets, c, order[|order| - 1])
  }

  function Ids(items: seq<Target>): seq<nat> {
    seq(|items|, i requires 0 <= i < |items| => items[i].id)
  }

  function Entries(items: seq<Target>): (r: seq<Target>)
    ensures forall t :: t in r <==> t in items && t.isEntry
  {
    if items == [] then []
    else if items[|items| - 1].isEntry then Entries(items[..|items| - 1]) + [items[|items| - 1]]
    else Entries(items[..|items| - 1])
  }

  function Regular(items: seq<Target>): (r: seq<Target>)
    ensures forall t :: t in r <==> t in items && !t.isEntry
  {
    if items == [] then []
    else if items[|items| - 1].isEntry then Regular(items[..|items| - 1])
    else Regular(items[..|items| - 1]) + [items[|items| - 1]]
  }

  function InSites(items: seq<Target>, sites: set<nat>, inside: bool): (r: seq<Target>)
    ensures forall t :: t in r <==> t in items && (t.siteId in sites) == inside
  {
    if items == [] then []
    else if (items[|items| - 1].siteId in sites) == inside then
      InSites(items[..|items| - 1], sites, inside) + [items[|items| - 1]]
    else InSites(items[..|items| - 1], sites, inside)
  }

  lemma NothingToDo(targets: seq<Target>, c: Circumstances)
    ensures StoredAll(targets, c, []) == []
    ensures forall sites: set<nat>, inside: bool :: InSites([], sites, inside) == []
  {
  }

  lemma StoredStep(targets: seq<Target>, c: Circumstances, order: seq<nat>, id: nat)
    ensures StoredAll(targets, c, order + [id]) == StoredAll(targets, c, order) + StoredOne(targets, c, id)
  {
    assert (order + [id])[..|order|] == order;
  }

  class Scheduler {
    const registry: TargetRegistry
    var results: seq<CheckResult>
    /** Targets a network check was made for, and targets reported complete, both in order. */
    var checked: seq<nat>
    var completed: seq<nat>

    constructor (registry: TargetRegistry)
      ensures this.registry == registry && results == [] && checked == [] && completed == []
    {
      this.registry := registry;
      results, checked, completed := [], [], [];
    }

    method CheckAndSave(id: nat, c: Circumstances)
      modifies this
      ensures results == old(results) + StoredOne(registry.targets, c, id)
      ensures checked == old(checked) + [id] && completed == old(completed) + [id]
    {
      checked := checked + [id];
      var outcome := OutcomeOf(c, id);
      if Storable(registry.targets, c, id) {
        results := results + [CheckResult(id, outcome, c.now)];
      }
      completed := completed + [id];
    }

    /** Checks run together; the order in which they finish is anybody's guess. */
    method CheckTogether(items: seq<Target>, c: Circumstances) returns (order: seq<nat>)
      modifies this
      ensures multiset(order) == multiset(Ids(items))
      ensures results == old(results) + StoredAll(registry.targets, c, order)
      ensures checked == old(checked) + order && completed == old(completed) + order
    {
      order := [];
      var pending := multiset(Ids(items));
      while pending != multiset{}
        invariant pending + multiset(order) == multiset(Ids(items))
        invariant results == old(results) + StoredAll(registry.targets, c, order)
        invariant checked == old(checked) + order && completed == old(completed) + order
        decreases |pending|
      {
        hide Storable, StoredOne;
        var id :| id in pending;
        CheckAndSave(id, c);
        StoredStep(registry.targets, c, order, id);
        order := order + [id];
        pending := pending - multiset{id};
      }
    }

    /** Targets of blocked sites count as complete without a check; the rest may run. */
    method Admit(regular: seq<Target>, blocked: set<nat>) returns (allowed: seq<Target>, skipped: seq<nat>)
      modifies this`completed
      ensures skipped == Ids(InSites(regular, blocked, true)) && allowed == InSites(regular, blocked, false)
      ensures completed == old(completed) + skipped
    {
      allowed, skipped := [], [];
      for i := 0 to |regular|
        invariant skipped == Ids(InSites(regular[..i], blocked, true))
          && allowed == InSites(regular[..i], blocked, false)
        invariant completed == old(completed) + skipped
      {
        assert regular[..i + 1][..i] == regular[..i];
        if regular[i].siteId in blocked {
          completed := completed + [regular[i].id];
          skipped := skipped + [regular[i].id];
        } else {
          allowed := allowed + [regular[i]];
        }
      }
      assert regular[..|regular|] == regular;
    }

    /**
     * One batch.  `first` and `second` are the orders in which the two phases finished, `skipped` the
     * targets completed without a check, and `blocked` the sites whose gate was found shut in between.
     */
    method RunBatch(scheduled: seq<Target>, c: Circumstances)
      returns (first: seq<nat>, second: seq<nat>, skipped: seq<nat>, blocked: set<nat>)
      modifies this
      ensures multiset(first) == multiset(Ids(Entries(scheduled)))
      ensures forall t :: t in Regular(scheduled) ==>
                (t.siteId in blocked <==>
                 SiteBlocked(registry.targets, old(results) + StoredAll(registry.targets, c, first),
                                                      c.onScheduleAtGate, t.siteId))
      ensures skipped == Ids(InSites(Regular(scheduled), blocked, true))
      ensures multiset(second) == multiset(Ids(InSites(Regular(scheduled), blocked, false)))
      ensures results == old(results) + StoredAll(registry.targets, c, first) + StoredAll(registry.targets, c, second)
      ensures checked == old(checked) + first + second
      ensures completed == old(completed) + first + skipped + second
    {
      hide SiteBlocked, StoredOne, StoredAll, InSites, Entries, Regular;
      NothingToDo(registry.targets, c);
      var entries, regular := Entries(scheduled), Regular(scheduled);
      first, second, skipped, blocked := [], [], [], {};
      if entries != [] {
        first := CheckTogether(entries, c);
      }
      if regular == [] {
        return;
      }
      assert results == old(results) + StoredAll(registry.targets, c, first);
      var sites := set t | t in regular :: t.siteId;
      blocked := registry.BlockedSites(results, c.onScheduleAtGate, sites);
      forall t | t in regular
        ensures t.siteId in blocked <==>
                SiteBlocked(registry.targets, old(results) + StoredAll(registry.targets, c, first), c.onScheduleAtGate,
                            t.siteId)
      {
        assert t.siteId in sites;
      }
      var allowed;
      allowed, skipped := Admit(regular, blocked);
      if allowed != [] {
        second := CheckTogether(allowed, c);
      }
    }
  }
}
