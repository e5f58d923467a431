/**
 * Entry points of sites: one network device or server per site whose outage keeps the checks of the
 * site's other targets from running, and the two-phase batch that obeys it.
 */
module SiteGates {
  import opened Basics
  import opened Incidents

  datatype Kind = NetworkKind | ServerKind | OtherKind

  /** Targets are kept by id. */
  datatype Target = Target(id: nat, siteId: nat, kind: Kind, enabled: bool, isEntry: bool)

  const ENTRY_KINDS: set<Kind> := {NetworkKind, ServerKind}

  /** Sites on schedule at some moment. */
  type Working = set<nat>

  datatype Gate = Gate(entryId: nat, entryEnabled: bool, status: Option<CheckStatus>, working: bool) {
    predicate Blocked() {
      entryEnabled && working && status == Some(Down)
    }
  }

  predicate ById(targets: seq<Target>) {
    forall i, j :: 0 <= i < j < |targets| ==> targets[i].id < targets[j].id
  }

  function Find(targets: seq<Target>, id: nat): (r: Option<nat>)
    ensures r.Some? ==> r.value < |targets| && targets[r.value].id == id
    ensures r.None? ==> forall i :: 0 <= i < |targets| ==> targets[i].id != id
  {
    FindBy(targets, (target: Target) => target.id, id)
  }

  // ---------------------------------------------------------------- gates

  /** The status of a target's newest stored result. */
  function LatestStatus(results: seq<CheckResult>, id: nat): Option<CheckStatus> {
    if results == [] then None
    else
      var last := results[|results| - 1];
      if last.targetId == id then Some(last.status) else LatestStatus(results[..|results| - 1], id)
  }

  function GateOf(entry: Target, results: seq<CheckResult>, working: Working): Gate {
    Gate(entry.id, entry.enabled, LatestStatus(results, entry.id), entry.siteId in working)
  }

  /** The gate of a site is that of its entry with the smallest id. */
  function SiteGate(targets: seq<Target>, results: seq<CheckResult>, working: Working, site: nat): Option<Gate> {
    if targets == [] then None
    else
      var earlier := SiteGate(targets[..|targets| - 1], results, working, site);
      var last := targets[|targets| - 1];
      if earlier.Some? || !last.isEntry || last.siteId != site then earlier else Some(GateOf(last, results, working))
  }

  predicate SiteBlocked(targets: seq<Target>, results: seq<CheckResult>, working: Working, site: nat) {
    var gate := SiteGate(targets, results, working, site);
    gate.Some? && gate.value.Blocked()
  }

  /** A manual check of one target is refused. */
  predicate ManualSuppressed(t: Target, targets: seq<Target>, results: seq<CheckResult>, working: Working) {
    !t.isEntry && SiteBlocked(targets, results, working, t.siteId)
  }

  // ---------------------------------------------------------------- the targets of the portal

  datatype EntryError = WrongKind | NoSuchTarget

  predicate OtherEntry(t: Target, site: nat, id: nat) {
    t.siteId == site && t.isEntry && t.id != id
  }

  function FindOtherEntry(targets: seq<Target>, site: nat, id: nat): (r: Option<nat>)
    ensures r.Some? ==> r.value < |targets| && OtherEntry(targets[r.value], site, id)
    ensures r.None? ==> forall i :: 0 <= i < |targets| ==> !OtherEntry(targets[i], site, id)
  {
    if targets == [] then None
    else
      var earlier := FindOtherEntry(targets[..|targets| - 1], site, id);
      if earlier.Some? then earlier
      else if OtherEntry(targets[|targets| - 1], site, id) then Some(|targets| - 1)
      else None
  }

  /** Making target `i` the entry of its site replaces the entry the site has. */
  function WithEntry(targets: seq<Target>, i: nat): seq<Target>
    requires i < |targets|
  {
    var previous := FindOtherEntry(targets, targets[i].siteId, targets[i].id);
    var cleared := if previous.Some? then targets[previous.value := targets[previous.value].(isEntry := false)]
      else targets;
    cleared[i := cleared[i].(isEntry := true)]
  }

  function WithoutEntry(targets: seq<Target>, i: nat): seq<Target>
    requires i < |targets|
  {
    targets[i := targets[i].(isEntry := false)]
  }

  function WithKind(targets: seq<Target>, i: nat, site: nat, kind: Kind): seq<Target>
    requires i < |targets|
  {
    targets[i := targets[i].(siteId := site, kind := kind)]
  }

  /** What saving the editor of a target leaves. */
  function AfterEdit(targets: seq<Target>, i: nat, site: nat, kind: Kind, wantsEntry: bool): seq<Target>
    requires i < |targets|
  {
    var moved := WithKind(targets, i, site, kind);
    if wantsEntry then WithEntry(moved, i) else WithoutEntry(moved, i)
  }

  class TargetRegistry {
    var targets: seq<Target>

    method SetSiteEntry(id: nat, enabled: bool) returns (error: Option<EntryError>, replaced: Option<nat>)
      modifies this
      ensures var found := Find(old(targets), id);
              && error == (if found.None? then Some(NoSuchTarget)
                           else if enabled && old(targets)[found.value].kind !in ENTRY_KINDS then Some(WrongKind)
                           else None)
              && (error.Some? ==> targets == old(targets) && replaced.None?)
              && (error.None? && !enabled ==> targets == WithoutEntry(old(targets), found.value) && replaced.None?)
              && (error.None? && enabled ==>
                    var t := old(targets)[found.value];
                    var previous := FindOtherEntry(old(targets), t.siteId, t.id);
                    targets == WithEntry(old(targets), found.value)
                    && replaced == if previous.Some? then Some(old(targets)[previous.value].id) else None)
    {
      error, replaced := None, None;
      var found := Find(targets, id);
      if found.None? {
        error := Some(NoSuchTarget);
        return;
      }
      var i := found.value;
      if !enabled {
        targets := targets[i := targets[i].(isEntry := false)];
        return;
      }
      if targets[i].kind !in ENTRY_KINDS {
        error := Some(WrongKind);
        return;
      }
      var previous := FindOtherEntry(targets, targets[i].siteId, targets[i].id);
      if previous.Some? {
        replaced := Some(targets[previous.value].id);
        targets := targets[previous.value := targets[previous.value].(isEntry := false)];
      }
      targets := targets[i := targets[i].(isEntry := true)];
    }

    method NormalizeForKind(id: nat) returns (changed: bool)
      requires Find(targets, id).Some?
      modifies this
      ensures var i := Find(old(targets), id).value;
              var t := old(targets)[i];
              changed == (t.isEntry && t.kind !in ENTRY_KINDS)
              && targets == if changed then WithoutEntry(old(targets), i) else old(targets)
    {
      var i := Find(targets, id).value;
      changed := targets[i].isEntry && targets[i].kind !in ENTRY_KINDS;
      if changed {
        targets := targets[i := targets[i].(isEntry := false)];
      }
    }

    /** Saving the editor: the site and the kind change first, then the entry mark follows the form. */
    method EditTarget(id: nat, site: nat, kind: Kind, wantsEntry: bool) returns (error: Option<EntryError>)
      modifies this
      ensures var found := Find(old(targets), id);
              && error == (if found.None? then Some(NoSuchTarget)
                           else if wantsEntry && kind !in ENTRY_KINDS then Some(WrongKind)
                           else None)
              && targets == if error.Some? then old(targets)
                 else AfterEdit(old(targets), found.value, site, kind, wantsEntry)
    {
      var found := Find(targets, id);
      if found.None? {
        return Some(NoSuchTarget);
      }
      if wantsEntry && kind !in ENTRY_KINDS {
        return Some(WrongKind);
      }
      targets := targets[found.value := targets[found.value].(siteId := site, kind := kind)];
      FindKeeps(old(targets), found.value, site, kind, id);
      if wantsEntry {
        var failed, replaced := SetSiteEntry(id, true);
      } else {
        targets := targets[found.value := targets[found.value].(isEntry := false)];
      }
      var edited := targets;
      FindSame(old(targets), edited, id);
      var changed := NormalizeForKind(id);
      error := None;
    }

    /** The gates of the given sites, read in one pass over the entries. */
    method LoadGates(results: seq<CheckResult>, working: Working, sites: set<nat>) returns (gates: map<nat, Gate>)
      ensures forall site :: site in gates <==> site in sites && SiteGate(targets, results, working, site).Some?
      ensures forall site :: site in gates ==> Some(gates[site]) == SiteGate(targets, results, working, site)
    {
      gates := map[];
      for i := 0 to |targets|
        invariant forall site :: site in gates <==>
          site in sites && SiteGate(targets[..i], results, working, site).Some?
        invariant forall site :: site in gates ==> Some(gates[site]) == SiteGate(targets[..i], results, working, site)
      {
        assert targets[..i + 1][..i] == targets[..i];
        var entry := targets[i];
        if entry.isEntry && entry.siteId in sites && entry.siteId !in gates {
          gates := gates[entry.siteId := GateOf(entry, results, working)];
        }
      }
      assert targets[..|targets|] == targets;
    }

    method BlockedSites(results: seq<CheckResult>, working: Working, sites: set<nat>) returns (blocked: set<nat>)
      ensures forall site :: site in blocked <==> site in sites && SiteBlocked(targets, results, working, site)
    {
      var gates := LoadGates(results, working, sites);
      blocked := set site | site in gates && gates[site].Blocked();
    }

    method IsManualSuppressed(t: Target, results: seq<CheckResult>, working: Working) returns (suppressed: bool)
      ensures suppressed == ManualSuppressed(t, targets, results, working)
    {
      if t.isEntry {
        return false;
      }
      var gates := LoadGates(results, working, {t.siteId});
      suppressed := t.siteId in gates && gates[t.siteId].Blocked();
    }
  }

  lemma {:induction false} FindSame(a: seq<Target>, b: seq<Target>, id: nat)
    requires |a| == |b| && forall i :: 0 <= i < |a| ==> a[i].id == b[i].id
    ensures Find(a, id) == Find(b, id)
  {
    if a != [] {
      FindSame(a[..|a| - 1], b[..|b| - 1], id);
    }
  }

  lemma FindKeeps(targets: seq<Target>, i: nat, site: nat, kind: Kind, id: nat)
    requires i < |targets|
    ensures Find(WithKind(targets, i, site, kind), id) == Find(targets, id)
  {
    FindSame(targets, WithKind(targets, i, site, kind), id);
  }
}
