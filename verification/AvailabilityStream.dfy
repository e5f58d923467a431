/**
 * The availability incident of one target, told as a function of the target's own stored results,
 * whatever else happens to the shared tables in between.
 */
module AvailabilityStream {
  import opened Basics
  import opened Incidents
  import opened IncidentRuns

  // ---------------------------------------------------------------- histories

  /** The statuses after the last UP. */
  function SinceUp(h: seq<CheckStatus>): seq<CheckStatus> {
    if h == [] || h[|h| - 1].Up? then [] else SinceUp(h[..|h| - 1]) + [h[|h| - 1]]
  }

  /** `k` consecutive DOWNs end just before position `e`. */
  predicate RunEndsAt(g: seq<CheckStatus>, k: nat, e: int) {
    k <= e <= |g| && forall i :: e - k <= i < e ==> g[i].Down?
  }

  ghost predicate HasRun(g: seq<CheckStatus>, k: nat, from: int) {
    exists e :: e > from && RunEndsAt(g, k, e)
  }

  /** How many results there were up to the last UP. */
  function LastUp(h: seq<CheckStatus>): int {
    |h| - |SinceUp(h)|
  }

  /** After the first `cut` results, the results since the last UP complete `k` consecutive DOWNs. */
  ghost predicate Outage(h: seq<CheckStatus>, k: nat, cut: int) {
    HasRun(SinceUp(h), k, cut - LastUp(h))
  }

  /** Where the first run of `k` DOWNs ends, after position `from`, or -1. */
  function FirstRunEnd(g: seq<CheckStatus>, k: nat, from: int): (e: int)
    ensures e >= 0 ==> e > from && RunEndsAt(g, k, e)
    ensures forall e' :: e' > from && RunEndsAt(g, k, e') ==> 0 <= e <= e'
  {
    if 0 > from && RunEndsAt(g, k, 0) then 0
    else if g == [] then -1
    else
      var e := FirstRunEnd(g[..|g| - 1], k, from);
      assert forall e' :: e' < |g| ==> (RunEndsAt(g, k, e') <==> RunEndsAt(g[..|g| - 1], k, e'));
      if e >= 0 then e else if |g| > from && RunEndsAt(g, k, |g|) then |g| else -1
  }

  function Downs(g: seq<CheckStatus>): nat {
    if g == [] then 0 else Downs(g[..|g| - 1]) + if g[|g| - 1].Down? then 1 else 0
  }

  /** The DOWNs after the first run that ends after `from`. */
  function DownsAfterRun(g: seq<CheckStatus>, k: nat, from: int): nat {
    var e := FirstRunEnd(g, k, from);
    if e < 0 then 0 else Downs(g[e..])
  }

  /** The DOWNs stored after the one that confirmed the outage. */
  function DownsSinceConfirmed(h: seq<CheckStatus>, k: nat, cut: int): nat {
    DownsAfterRun(SinceUp(h), k, cut - LastUp(h))
  }

  lemma {:induction false} SinceUpIsTail(h: seq<CheckStatus>)
    ensures var g := SinceUp(h);
            && |g| <= |h| && g == h[|h| - |g|..]
            && Up !in g
            && (|g| < |h| ==> h[|h| - |g| - 1].Up?)
  {
    if h != [] && !h[|h| - 1].Up? {
      SinceUpIsTail(h[..|h| - 1]);
    }
  }

  /** A tail of DOWNs cannot reach back past the last UP. */
  lemma TailAfterLastUp(h: seq<CheckStatus>, g: seq<CheckStatus>, k: nat)
    requires |g| <= |h| && g == h[|h| - |g|..] && (|g| < |h| ==> h[|h| - |g| - 1].Up?)
    ensures RunEndsAt(h, k, |h|) <==> RunEndsAt(g, k, |g|)
  {
    var shift := |h| - |g|;
    assert forall i :: 0 <= i < |g| ==> g[i] == h[i + shift];
    if RunEndsAt(g, k, |g|) {
      assert forall i :: |h| - k <= i < |h| ==> h[i] == g[i - shift];
    }
  }

  /** The window of the last k results is a full run exactly when the run lies after the last UP. */
  lemma ConfirmedIsRun(h: seq<CheckStatus>, setting: int)
    ensures ConfirmedIn(h, setting) <==> RunEndsAt(SinceUp(h), Window(setting), |SinceUp(h)|)
  {
    hide ConfirmedIn, SinceUp;
    ConfirmedIsTail(h, setting);
    SinceUpIsTail(h);
    TailAfterLastUp(h, SinceUp(h), Window(setting));
  }

  /** The first run of a longer sequence is the one it had, or one that ends with the new element. */
  lemma FirstRunGrows(g: seq<CheckStatus>, s: CheckStatus, k: nat, from: int)
    requires k >= 1 && from <= |g|
    ensures HasRun(g, k, from) ==>
              HasRun(g + [s], k, from) && FirstRunEnd(g + [s], k, from) == FirstRunEnd(g, k, from) >= 0
    ensures !HasRun(g, k, from) ==>
              FirstRunEnd(g, k, from) == -1
              && (HasRun(g + [s], k, from) <==> RunEndsAt(g + [s], k, |g| + 1))
              && FirstRunEnd(g + [s], k, from) == if RunEndsAt(g + [s], k, |g| + 1) then |g| + 1 else -1
  {
    var g' := g + [s];
    assert g'[..|g|] == g && forall i :: 0 <= i < |g| ==> g[i] == g'[i];
    assert forall e :: e <= |g| ==> (RunEndsAt(g', k, e) <==> RunEndsAt(g, k, e));
    if HasRun(g, k, from) {
      assert RunEndsAt(g', k, FirstRunEnd(g, k, from));
    } else if HasRun(g', k, from) {
      assert RunEndsAt(g', k, FirstRunEnd(g', k, from));
    }
  }

  lemma OneMoreElement(g: seq<CheckStatus>, s: CheckStatus, k: nat, from: int)
    requires k >= 1 && from <= |g|
    ensures s.Unknown? ==> (HasRun(g + [s], k, from) <==> HasRun(g, k, from))
    ensures s.Down? ==> (HasRun(g + [s], k, from) <==> HasRun(g, k, from) || RunEndsAt(g + [s], k, |g| + 1))
    ensures HasRun(g, k, from) ==>
              DownsAfterRun(g + [s], k, from) == DownsAfterRun(g, k, from) + if s.Down? then 1 else 0
    ensures !HasRun(g, k, from) ==> DownsAfterRun(g + [s], k, from) == 0
  {
    hide FirstRunEnd, HasRun;
    var g' := g + [s];
    FirstRunGrows(g, s, k, from);
    assert RunEndsAt(g', k, |g'|) ==> g'[|g|].Down?;
    if HasRun(g, k, from) {
      var e := FirstRunEnd(g, k, from);
      assert g'[e..][..|g'[e..]| - 1] == g[e..];
    } else {
      assert g'[|g'|..] == [];
    }
  }

  lemma SinceUpAppend(h: seq<CheckStatus>, s: CheckStatus)
    ensures SinceUp(h + [s]) == if s.Up? then [] else SinceUp(h) + [s]
  {
    var h' := h + [s];
    assert h'[..|h'| - 1] == h && h'[|h'| - 1] == s;
  }

  lemma SinceUpGrows(h: seq<CheckStatus>, s: CheckStatus)
    ensures SinceUp(h + [s]) == if s.Up? then [] else SinceUp(h) + [s]
    ensures LastUp(h + [s]) == if s.Up? then |h| + 1 else LastUp(h)
  {
    hide SinceUp;
    SinceUpAppend(h, s);
  }

  /** What one more result does to the notions above. */
  lemma OneMoreResult(h: seq<CheckStatus>, s: CheckStatus, k: nat, cut: nat)
    requires k >= 1 && cut <= |h|
    ensures s.Up? ==> !Outage(h + [s], k, cut) && SinceUp(h + [s]) == []
    ensures s.Unknown? ==> (Outage(h + [s], k, cut) <==> Outage(h, k, cut))
    ensures s.Down? ==> (Outage(h + [s], k, cut) <==>
                           Outage(h, k, cut) || RunEndsAt(SinceUp(h + [s]), k, |SinceUp(h + [s])|))
    ensures !s.Up? && Outage(h, k, cut) ==>
              DownsSinceConfirmed(h + [s], k, cut) == DownsSinceConfirmed(h, k, cut) + if s.Down? then 1 else 0
    ensures !Outage(h, k, cut) ==> DownsSinceConfirmed(h + [s], k, cut) == 0
    ensures !s.Up? ==> SinceUp(h + [s]) == SinceUp(h) + [s]
  {
    SinceUpGrows(h, s);
    hide SinceUp, DownsAfterRun, RunEndsAt;
    if s.Up? {
      NothingRuns(k, cut - |h| - 1);
    } else {
      OneMoreElement(SinceUp(h), s, k, cut - LastUp(h));
    }
  }

  lemma NothingRuns(k: nat, from: int)
    requires k >= 1
    ensures !HasRun([], k, from) && DownsAfterRun([], k, from) == 0
  {
  }

  /** Nothing is completed after the whole history. */
  lemma NoOutageYet(h: seq<CheckStatus>, k: nat)
    ensures !Outage(h, k, |h|) && DownsSinceConfirmed(h, k, |h|) == 0
  {
  }

  // ---------------------------------------------------------------- the incident

  function History(w: World, target: nat): seq<CheckStatus> {
    StatusesOf(w.results, target)
  }

  /** The step deletes the open availability incident of the target. */
  predicate ErasesOpen(w: World, step: Step, target: nat) {
    step.Erase? && step.incidentId < |w.incidents| && OpenFor(w.incidents[step.incidentId], AvailabilitySlot(target))
  }

  /** How many results the target had when its open incident was last deleted, or 0. */
  function Cut(steps: seq<Step>, setting: int, target: nat): nat {
    if steps == [] then 0
    else
      var prefix, step := steps[..|steps| - 1], steps[|steps| - 1];
      var w := Run(prefix, setting);
      if ErasesOpen(w, step, target) then |History(w, target)| else Cut(prefix, setting, target)
  }

  /** The open availability incident says exactly what the target's own results after the cut say. */
  ghost predicate Tracks(w: World, target: nat, setting: int, cut: nat) {
    var i := FindOpen(w.incidents, AvailabilitySlot(target));
    var h, k := History(w, target), Window(setting);
    && cut <= |h|
    && (i >= 0 <==> Outage(h, k, cut))
    && (i >= 0 ==> w.incidents[i].failureCount == setting + DownsSinceConfirmed(h, k, cut))
  }

  lemma HistoryOfNext(w: World, step: Step, setting: int, target: nat)
    ensures History(Next(w, step, setting), target) ==
            History(w, target) + if step.Primary? && step.targetId == target then [step.status] else []
  {
    if step.Primary? {
      assert Stored(w, step)[..|w.results|] == w.results;
    }
  }

  lemma OwnSlotAfterFailure(rows: seq<Incident>, slot: Slot, severity: Option<Severity>, confirmed: bool, setting: int,
                            suppressed: bool, at: Time, now: Time)
    ensures var i := FindOpen(rows, slot);
            var after := AfterFailure(rows, slot, severity, confirmed, setting, suppressed, at, now).rows;
            var j := FindOpen(after, slot);
            && (j >= 0 <==> i >= 0 || confirmed)
            && (j >= 0 ==> after[j].failureCount == if i >= 0 then rows[i].failureCount + 1 else setting)
  {
    var i := FindOpen(rows, slot);
    var after := AfterFailure(rows, slot, severity, confirmed, setting, suppressed, at, now).rows;
    if i >= 0 || confirmed {
      assert OpenFor(after[if i >= 0 then i else |rows|], slot);
    }
  }

  lemma OwnSlotAfterRecovery(rows: seq<Incident>, slot: Slot, suppressed: bool, at: Time, now: Time)
    requires UniqueOpen(rows)
    ensures FindOpen(AfterRecovery(rows, slot, true, suppressed, at, now).rows, slot) < 0
  {
    var i := FindOpen(rows, slot);
    assert i >= 0 ==> forall l :: 0 <= l < i ==> !OpenFor(rows[l], slot);
  }

  /** What a result does to the open incident of its own slot. */
  lemma OwnSlotAfterResult(rows: seq<Incident>, slot: Slot, status: CheckStatus, confirmed: bool, setting: int,
                           suppressed: bool, at: Time, now: Time)
    requires UniqueOpen(rows)
    ensures var i := FindOpen(rows, slot);
            var after := AfterResult(rows, slot, status, confirmed, setting, suppressed, at, now).rows;
            var j := FindOpen(after, slot);
            && (j >= 0 <==> !status.Up? && (i >= 0 || (status.Down? && confirmed)))
            && (j >= 0 ==>
                  after[j].failureCount ==
                  if i >= 0 then rows[i].failureCount + (if status.Down? then 1 else 0)
                                                    else setting)
  {
    hide FindOpen, AfterFailure, AfterRecovery;
    OwnSlotAfterFailure(rows, slot, if slot.CheckSlot? then Some(Critical) else None, confirmed, setting, suppressed,
                        at, now);
    OwnSlotAfterRecovery(rows, slot, suppressed, at, now);
  }

  lemma StepKeepsTrack(w: World, step: Step, setting: int, target: nat, cut: nat)
    requires UniqueOpen(w.incidents) && Tracks(w, target, setting, cut)
    ensures Tracks(Next(w, step, setting), target, setting,
                   if ErasesOpen(w, step, target) then |History(w, target)| else cut)
  {
    var slot := AvailabilitySlot(target);
    HistoryOfNext(w, step, setting, target);
    assert History(w, target) + [] == History(w, target);
    if ErasesOpen(w, step, target) {
      EraseKeepsUnique(w.incidents, step.incidentId);
      NoOutageYet(History(w, target), Window(setting));
    } else if Clerical(step) {
      ClericalKeepsAvailability(w, step, setting, target);
      SameOpenSameLookup(w.incidents, Next(w, step, setting).incidents, slot);
    } else if SlotOf(step) != slot {
      StepOneRow(w, step, setting);
      OtherSlotsUntouched(w.incidents, Effect(w, step, setting), SlotOf(step), slot);
      SameOpenSameLookup(w.incidents, Next(w, step, setting).incidents, slot);
    } else {
      OwnResultKeepsTrack(w, step, setting, cut);
    }
  }

  lemma ClericalKeepsAvailability(w: World, step: Step, setting: int, target: nat)
    requires Clerical(step) && !ErasesOpen(w, step, target)
    ensures SameOpen(w.incidents, Next(w, step, setting).incidents, AvailabilitySlot(target))
  {
    var slot := AvailabilitySlot(target);
    if step.Administrative? {
      SilentResolveKeepsOthers(w.incidents, step.targetId, step.checkId, step.alsoCheck, step.detach, step.now, slot);
    } else if step.Erase? {
      EraseKeepsOthers(w.incidents, step.incidentId, slot);
    }
  }

  lemma OwnResultKeepsTrack(w: World, step: Step, setting: int, cut: nat)
    requires step.Primary?
    requires UniqueOpen(w.incidents) && Tracks(w, step.targetId, setting, cut)
    ensures Tracks(Next(w, step, setting), step.targetId, setting, cut)
  {
    var slot, after := AvailabilitySlot(step.targetId), Next(w, step, setting);
    var h, k := History(w, step.targetId), Window(setting);
    HistoryOfNext(w, step, setting, step.targetId);
    var h' := h + [step.status];
    assert History(after, step.targetId) == h';
    OneMoreResult(h, step.status, k, cut);
    ConfirmedIsRun(h', setting);
    OwnSlotAfterResult(w.incidents, slot, step.status, ConfirmedIn(h', setting), setting, step.suppressed, step.at,
                       step.now);
    assert RunEndsAt(SinceUp(h'), k, |SinceUp(h')|) && !Outage(h, k, cut) ==> DownsSinceConfirmed(h', k, cut) == 0;
  }

  /**
   * In every run, an availability incident is open exactly when the target's results since its last
   * UP, and since its open incident was last deleted, completed k consecutive DOWNs, and it counts the
   * configured number plus the DOWNs since then.
   */
  lemma {:induction false} IncidentFollowsResults(steps: seq<Step>, setting: int, target: nat)
    ensures Tracks(Run(steps, setting), target, setting, Cut(steps, setting, target))
  {
    if steps == [] {
      assert SinceUp([]) == [];
    } else {
      var prefix := steps[..|steps| - 1];
      IncidentFollowsResults(prefix, setting, target);
      AtMostOneOpen(prefix, setting);
      StepKeepsTrack(Run(prefix, setting), steps[|steps| - 1], setting, target, Cut(prefix, setting, target));
    }
  }

  lemma SameRuns(g: seq<CheckStatus>, k: nat, from: int, from': int)
    requires k >= 1 && from <= 0 && from' <= 0
    ensures HasRun(g, k, from) == HasRun(g, k, from') && DownsAfterRun(g, k, from) == DownsAfterRun(g, k, from')
  {
    assert forall e :: RunEndsAt(g, k, e) ==> e > from && e > from';
    assert FirstRunEnd(g, k, from) == FirstRunEnd(g, k, from');
  }

  /** A deletion up to the last UP leaves no trace. */
  lemma OldCutsDoNotMatter(h: seq<CheckStatus>, k: nat, cut: int)
    requires k >= 1 && cut <= LastUp(h)
    ensures Outage(h, k, cut) == Outage(h, k, 0) && DownsSinceConfirmed(h, k, cut) == DownsSinceConfirmed(h, k, 0)
  {
    LastUpBounds(h);
    hide *;
    ByRuns(h, k, cut);
    ByRuns(h, k, 0);
    SameRuns(SinceUp(h), k, cut - LastUp(h), 0 - LastUp(h));
  }

  lemma LastUpBounds(h: seq<CheckStatus>)
    ensures 0 <= LastUp(h) <= |h|
  {
    SinceUpIsTail(h);
  }

  lemma ByRuns(h: seq<CheckStatus>, k: nat, cut: int)
    ensures Outage(h, k, cut) == HasRun(SinceUp(h), k, cut - LastUp(h))
    ensures DownsSinceConfirmed(h, k, cut) == DownsAfterRun(SinceUp(h), k, cut - LastUp(h))
  {
  }

  lemma EarlierRuns(g: seq<CheckStatus>, k: nat, from: int, from': int)
    requires from' <= from
    ensures HasRun(g, k, from) ==> HasRun(g, k, from')
    ensures !HasRun(g, k, from) <==> forall e :: RunEndsAt(g, k, e) ==> e <= from
  {
  }

  /** What was complete after the cut was complete anyway; the rest was complete before it only. */
  lemma CutOutage(h: seq<CheckStatus>, k: nat, cut: nat)
    ensures Outage(h, k, cut) ==> Outage(h, k, 0)
    ensures !Outage(h, k, cut) <==> forall e :: RunEndsAt(SinceUp(h), k, e) ==> e <= cut - LastUp(h)
  {
    hide *;
    ByRuns(h, k, cut);
    ByRuns(h, k, 0);
    EarlierRuns(SinceUp(h), k, cut - LastUp(h), 0 - LastUp(h));
  }

  /**
   * Without the deletions: an incident is open exactly when the results since the last UP contain k
   * consecutive DOWNs, except exactly when its open incident was deleted after every such k were
   * complete; a deletion no later than the last UP cannot do that.
   */
  lemma {:induction false} DeletionsApart(steps: seq<Step>, setting: int, target: nat)
    ensures var w, cut := Run(steps, setting), Cut(steps, setting, target);
            var h, k := History(w, target), Window(setting);
            && (cut <= LastUp(h) ==> (FindOpen(w.incidents, AvailabilitySlot(target)) >= 0 <==> Outage(h, k, 0)))
            && ((FindOpen(w.incidents, AvailabilitySlot(target)) >= 0 <==> Outage(h, k, 0))
                <==> !(Outage(h, k, 0) && forall e :: RunEndsAt(SinceUp(h), k, e) ==> e <= cut - LastUp(h)))
  {
    hide Run, SinceUp, Cut, Outage, RunEndsAt, LastUp, DownsSinceConfirmed;
    IncidentFollowsResults(steps, setting, target);
    var w, cut := Run(steps, setting), Cut(steps, setting, target);
    var h, k := History(w, target), Window(setting);
    CutOutage(h, k, cut);
    if cut <= LastUp(h) {
      OldCutsDoNotMatter(h, k, cut);
    }
  }

  /**
   * What an open incident counts is the number of DOWNs, from the k that confirmed it on, exactly when
   * the configured number is one the editor accepts.
   */
  lemma {:induction false} CountIsTrueExactly(steps: seq<Step>, setting: int, target: nat)
    requires FindOpen(Run(steps, setting).incidents, AvailabilitySlot(target)) >= 0
    ensures var w := Run(steps, setting);
            w.incidents[FindOpen(w.incidents, AvailabilitySlot(target))].failureCount
              == Window(setting) + DownsSinceConfirmed(History(w, target), Window(setting), Cut(steps, setting, target))
            <==> 1 <= setting <= 10
  {
    hide Run, DownsSinceConfirmed, Cut;
    IncidentFollowsResults(steps, setting, target);
  }

  /** A stored setting of 0, which the editor refuses, opens an incident at the first DOWN that counts no failure. */
  lemma UnlistedSettingMiscounts()
    ensures var incidents := Run([Primary(1, Down, false, 10, 10)], 0).incidents;
            var i := FindOpen(incidents, AvailabilitySlot(1));
            i >= 0 && incidents[i].failureCount == 0
  {
    var step, w := Primary(1, Down, false, 10, 10), World([], [], []);
    hide FindOpen, AfterResult, ConfirmedIn;
    assert [step][..0] == [];
    assert Run([step], 0) == Next(w, step, 0);
    OneDown(w, step);
    ConfirmedIsTail([Down], 0);
    OwnSlotAfterResult([], AvailabilitySlot(1), Down, true, 0, false, 10, 10);
    NothingOpen(AvailabilitySlot(1));
  }

  lemma OneDown(w: World, step: Step)
    requires step == Primary(1, Down, false, 10, 10) && w.results == []
    ensures StatusesOf(Stored(w, step), 1) == [Down]
  {
    assert Stored(w, step)[..0] == [];
  }

  lemma NothingOpen(slot: Slot)
    ensures FindOpen([], slot) < 0
  {
  }
}
