/** The unstable-link marker of one target over runs, told as a function of the target's own stored results. */
module MarkerStream {
  import opened Basics
  import opened UnstableLinks
  import opened Incidents
  import opened IncidentRuns
  import opened AvailabilityStream

  // ---------------------------------------------------------------- the unstable-link marker

  function ResultsOf(results: seq<CheckResult>, target: nat): seq<CheckResult> {
    if results == [] then []
    else
      ResultsOf(results[..|results| - 1], target)
      + if results[|results| - 1].targetId == target then [results[|results| - 1]] else []
  }

  function Statuses(rs: seq<CheckResult>): (h: seq<CheckStatus>)
    ensures |h| == |rs| && forall i :: 0 <= i < |rs| ==> h[i] == rs[i].status
  {
    seq(|rs|, i requires 0 <= i < |rs| => rs[i].status)
  }

  lemma {:induction false} StatusesOfResults(results: seq<CheckResult>, target: nat)
    ensures Statuses(ResultsOf(results, target)) == StatusesOf(results, target)
  {
    if results != [] {
      StatusesOfResults(results[..|results| - 1], target);
    }
  }

  /** The marker of a fresh target after a run. */
  function Marker(steps: seq<Step>, setting: int, target: nat): LinkMark {
    if steps == [] then LinkMark(false, None)
    else
      var prefix, step := steps[..|steps| - 1], steps[|steps| - 1];
      var before, after := Run(prefix, setting), Run(steps, setting);
      var mark := Marker(prefix, setting, target);
      if step.Primary? && step.targetId == target then
        MarkAfter(mark, step.status.Down?, step.status.Up?,
                  FindOpen(before.incidents, AvailabilitySlot(target)) >= 0,
                  FindOpen(after.incidents, AvailabilitySlot(target)) >= 0, step.at)
      else if step == ResetMarker(target) then LinkMark(false, None)
      else mark
  }

  /** How many results the target had when its marker was last reset by hand, or 0. */
  function ResetAt(steps: seq<Step>, setting: int, target: nat): nat {
    if steps == [] then 0
    else
      var prefix, step := steps[..|steps| - 1], steps[|steps| - 1];
      if step == ResetMarker(target) then |History(Run(prefix, setting), target)| else ResetAt(prefix, setting, target)
  }

  /** For each result of the target, the cut at the time it was processed. */
  function Cuts(steps: seq<Step>, setting: int, target: nat): seq<nat> {
    if steps == [] then []
    else
      var prefix, step := steps[..|steps| - 1], steps[|steps| - 1];
      Cuts(prefix, setting, target)
      + if step.Primary? && step.targetId == target then [Cut(prefix, setting, target)] else []
  }

  // ---------------------------------------------------------------- what the results say about the marker

  /** A DOWN came since the last UP, the last reset and the last deletion, and no outage is confirmed. */
  ghost predicate Pends(h: seq<CheckStatus>, k: nat, cut: nat, reset: nat)
    requires cut <= |h| && reset <= |h|
  {
    SinceUpIsTail(h);
    Down in h[Max(LastUp(h), Max(cut, reset))..] && !Outage(h, k, cut)
  }

  predicate Bounded(cuts: seq<nat>) {
    forall i :: 0 <= i < |cuts| ==> cuts[i] <= i
  }

  /** Result `i` is an UP that ends an outage nobody confirmed. */
  ghost predicate EndsUnconfirmed(h: seq<CheckStatus>, i: nat, k: nat, cut: nat, reset: nat)
    requires i < |h| && cut <= i && reset <= i
  {
    h[i].Up? && Pends(h[..i], k, cut, reset)
  }

  /** Result `i` is a DOWN of a confirmed outage. */
  ghost predicate ConfirmedDown(h: seq<CheckStatus>, i: nat, k: nat, cut: nat)
    requires i < |h|
  {
    h[i].Down? && Outage(h[..i + 1], k, cut)
  }

  /** Result `i` either set the marker or cleared it. */
  ghost predicate Acts(h: seq<CheckStatus>, i: nat, k: nat, cuts: seq<nat>, reset: nat)
    requires |cuts| == |h| && Bounded(cuts) && reset <= i < |h|
  {
    EndsUnconfirmed(h, i, k, cuts[i], reset) || ConfirmedDown(h, i, k, cuts[i])
  }

  /** Result `i` is the last since the reset that either set the marker or cleared it. */
  ghost predicate Decides(h: seq<CheckStatus>, i: nat, k: nat, cuts: seq<nat>, reset: nat)
    requires |cuts| == |h| && Bounded(cuts)
  {
    && reset <= i < |h| && Acts(h, i, k, cuts, reset)
    && forall j: nat :: i < j < |h| ==> !Acts(h, j, k, cuts, reset)
  }

  /** No result since the reset has set or cleared the marker. */
  ghost predicate Undecided(h: seq<CheckStatus>, k: nat, cuts: seq<nat>, reset: nat)
    requires |cuts| == |h| && Bounded(cuts)
  {
    forall i: nat :: reset <= i < |h| ==> !Acts(h, i, k, cuts, reset)
  }

  ghost predicate UntilTells(until: Option<Time>, rs: seq<CheckResult>, h: seq<CheckStatus>, k: nat, cuts: seq<nat>,
                             reset: nat)
    requires |h| == |rs| == |cuts| && Bounded(cuts)
  {
    && (forall i: nat :: i < |h| && Decides(h, i, k, cuts, reset) ==>
          until == if h[i].Up? then Some(rs[i].checkedAt + UNSTABLE_LINK_TTL) else None)
    && (Undecided(h, k, cuts, reset) ==> until.None?)
  }

  /** What the marker says about the results of its target. */
  ghost predicate MarkTells(mark: LinkMark, rs: seq<CheckResult>, h: seq<CheckStatus>, k: nat, cut: nat, cuts: seq<nat>,
                            reset: nat)
  {
    && |h| == |rs| == |cuts| && Bounded(cuts) && cut <= |h| && reset <= |h|
    && (mark.pendingDown <==> Pends(h, k, cut, reset))
    && UntilTells(mark.until, rs, h, k, cuts, reset)
  }

  // ---------------------------------------------------------------- one more result

  lemma PrefixActs(h: seq<CheckStatus>, s: CheckStatus, i: nat, k: nat, cuts: seq<nat>, cut: nat, reset: nat)
    requires |cuts| == |h| && Bounded(cuts) && cut <= |h| && reset <= i < |h|
    ensures Bounded(cuts + [cut])
    ensures Acts(h + [s], i, k, cuts + [cut], reset) <==> Acts(h, i, k, cuts, reset)
  {
    assert (h + [s])[..i] == h[..i] && (h + [s])[..i + 1] == h[..i + 1];
  }

  lemma LastActs(h: seq<CheckStatus>, s: CheckStatus, k: nat, cuts: seq<nat>, cut: nat, reset: nat)
    requires |cuts| == |h| && Bounded(cuts) && cut <= |h| && reset <= |h|
    ensures Acts(h + [s], |h|, k, cuts + [cut], reset)
            <==> (s.Up? && Pends(h, k, cut, reset)) || (s.Down? && Outage(h + [s], k, cut))
  {
    assert (h + [s])[..|h|] == h && (h + [s])[..|h| + 1] == h + [s];
  }

  lemma PendsLonger(h: seq<CheckStatus>, s: CheckStatus, from: nat)
    requires from <= |h|
    ensures LastUp(h) >= 0 && LastUp(h) <= |h| && LastUp(h + [s]) <= |h| + 1
    ensures Down in (h + [s])[Max(LastUp(h + [s]), from)..] <==>
            !s.Up? && (s.Down? || Down in h[Max(LastUp(h), from)..])
  {
    SinceUpIsTail(h);
    SinceUpGrows(h, s);
    hide SinceUp;
    if s.Up? {
      assert (h + [s])[|h| + 1..] == [];
    } else {
      assert (h + [s])[Max(LastUp(h), from)..] == h[Max(LastUp(h), from)..] + [s];
    }
  }

  lemma ResultKeepsPending(mark: LinkMark, h: seq<CheckStatus>, s: CheckStatus, k: nat, cut: nat, reset: nat, at: Time)
    requires k >= 1 && cut <= |h| && reset <= |h| && (mark.pendingDown <==> Pends(h, k, cut, reset))
    ensures MarkAfter(mark, s.Down?, s.Up?, Outage(h, k, cut), Outage(h + [s], k, cut), at).pendingDown
            <==> Pends(h + [s], k, cut, reset)
  {
    hide SinceUp, Outage, LastUp, RunEndsAt;
    OneMoreResult(h, s, k, cut);
    PendsLonger(h, s, Max(cut, reset));
  }

  /** The last result to act in a longer history is the new one, or the one it was. */
  lemma DecidesLonger(h: seq<CheckStatus>, s: CheckStatus, k: nat, cuts: seq<nat>, cut: nat, reset: nat)
    requires |cuts| == |h| && Bounded(cuts) && cut <= |h| && reset <= |h|
    ensures Bounded(cuts + [cut])
    ensures var last := Acts(h + [s], |h|, k, cuts + [cut], reset);
            && (forall i: nat :: Decides(h + [s], i, k, cuts + [cut], reset)
                                 ==> if i == |h| then last else !last && Decides(h, i, k, cuts, reset))
            && (Undecided(h + [s], k, cuts + [cut], reset) ==> !last && Undecided(h, k, cuts, reset))
  {
    var h', cuts' := h + [s], cuts + [cut];
    forall i: nat | reset <= i < |h|
      ensures Acts(h', i, k, cuts', reset) <==> Acts(h, i, k, cuts, reset)
    {
      PrefixActs(h, s, i, k, cuts, cut, reset);
    }
    hide Acts;
    forall i: nat | Decides(h', i, k, cuts', reset)
      ensures if i == |h| then Acts(h', |h|, k, cuts', reset)
              else !Acts(h', |h|, k, cuts', reset) && Decides(h, i, k, cuts, reset)
    {
      assert forall j: nat :: i < j < |h| ==> !Acts(h', j, k, cuts', reset);
    }
  }

  /** A result that decides moves the deadline, any other leaves it. */
  lemma {:induction false} ResultKeepsUntil(mark: LinkMark, rs: seq<CheckResult>, h: seq<CheckStatus>, r: CheckResult,
                                            k: nat, cut: nat, cuts: seq<nat>, reset: nat)
    requires MarkTells(mark, rs, h, k, cut, cuts, reset)
    ensures Bounded(cuts + [cut])
    ensures UntilTells(MarkAfter(mark, r.status.Down?, r.status.Up?, Outage(h, k, cut), Outage(h + [r.status], k, cut),
                                 r.checkedAt).until,
                       rs + [r], h + [r.status], k, cuts + [cut], reset)
  {
    hide Outage, Acts, Decides, Undecided;
    LastActs(h, r.status, k, cuts, cut, reset);
    DecidesLonger(h, r.status, k, cuts, cut, reset);
    DecidesInside(h + [r.status], k, cuts + [cut], reset);
    PendsNotOutage(h, k, cut, reset);
    hide Pends;
  }

  lemma PendsNotOutage(h: seq<CheckStatus>, k: nat, cut: nat, reset: nat)
    requires cut <= |h| && reset <= |h|
    ensures Pends(h, k, cut, reset) ==> !Outage(h, k, cut)
  {
  }

  lemma DecidesInside(h: seq<CheckStatus>, k: nat, cuts: seq<nat>, reset: nat)
    requires |cuts| == |h| && Bounded(cuts)
    ensures forall i: nat :: Decides(h, i, k, cuts, reset) ==> i < |h|
  {
  }

  lemma {:induction false} ResultKeepsMark(mark: LinkMark, mark': LinkMark, rs: seq<CheckResult>, h: seq<CheckStatus>,
                                           r: CheckResult, k: nat, cut: nat, cuts: seq<nat>, reset: nat)
    requires k >= 1 && MarkTells(mark, rs, h, k, cut, cuts, reset)
    requires mark' ==
             MarkAfter(mark, r.status.Down?, r.status.Up?, Outage(h, k, cut), Outage(h + [r.status], k, cut),
                       r.checkedAt)
    ensures MarkTells(mark', rs + [r], h + [r.status], k, cut, cuts + [cut], reset)
  {
    hide Outage, UntilTells, Pends;
    ResultKeepsUntil(mark, rs, h, r, k, cut, cuts, reset);
    ResultKeepsPending(mark, h, r.status, k, cut, reset, r.checkedAt);
  }

  // ---------------------------------------------------------------- over runs

  /** Everything `MarkTells` asks about, after a run. */
  ghost predicate Told(steps: seq<Step>, setting: int, target: nat) {
    var rs := ResultsOf(Run(steps, setting).results, target);
    MarkTells(Marker(steps, setting, target), rs, Statuses(rs), Window(setting),
              Cut(steps, setting, target), Cuts(steps, setting, target), ResetAt(steps, setting, target))
  }

  lemma {:induction false} ResultStepParts(prefix: seq<Step>, step: Step, setting: int, target: nat)
    requires step.Primary? && step.targetId == target
    ensures var steps := prefix + [step];
            && ResultsOf(Run(steps, setting).results, target)
               == ResultsOf(Run(prefix, setting).results, target) + [CheckResult(target, step.status, step.at)]
            && Cut(steps, setting, target) == Cut(prefix, setting, target)
            && Cuts(steps, setting, target) == Cuts(prefix, setting, target) + [Cut(prefix, setting, target)]
            && ResetAt(steps, setting, target) == ResetAt(prefix, setting, target)
            && Marker(steps, setting, target)
               == MarkAfter(Marker(prefix, setting, target), step.status.Down?, step.status.Up?,
                            FindOpen(Run(prefix, setting).incidents, AvailabilitySlot(target)) >= 0,
                            FindOpen(Run(steps, setting).incidents, AvailabilitySlot(target)) >= 0, step.at)
  {
    hide Effect, MarkAfter, FindOpen;
    var steps := prefix + [step];
    assert steps[..|steps| - 1] == prefix;
    assert Run(steps, setting).results[..|Run(prefix, setting).results|] == Run(prefix, setting).results;
  }

  lemma {:induction false} ResultStepTold(prefix: seq<Step>, step: Step, setting: int, target: nat)
    requires Told(prefix, setting, target) && step.Primary? && step.targetId == target
    ensures Told(prefix + [step], setting, target)
  {
    hide Run, MarkTells, Outage, MarkAfter, Cut, Cuts, ResetAt, Marker, FindOpen, ResultsOf;
    var rs := ResultsOf(Run(prefix, setting).results, target);
    var r := CheckResult(target, step.status, step.at);
    ResultStepParts(prefix, step, setting, target);
    assert Statuses(rs + [r]) == Statuses(rs) + [r.status];
    TrackedOutage(prefix, setting, target);
    TrackedOutage(prefix + [step], setting, target);
    ResultKeepsMark(Marker(prefix, setting, target), Marker(prefix + [step], setting, target), rs, Statuses(rs), r,
                    Window(setting), Cut(prefix, setting, target), Cuts(prefix, setting, target),
                    ResetAt(prefix, setting, target));
  }

  lemma {:induction false} TrackedOutage(steps: seq<Step>, setting: int, target: nat)
    ensures FindOpen(Run(steps, setting).incidents, AvailabilitySlot(target)) >= 0
            <==> Outage(Statuses(ResultsOf(Run(steps, setting).results, target)), Window(setting),
                        Cut(steps, setting, target))
  {
    hide Run, Outage, Cut;
    IncidentFollowsResults(steps, setting, target);
    StatusesOfResults(Run(steps, setting).results, target);
  }

  lemma NothingPends(h: seq<CheckStatus>, k: nat, cut: nat, reset: nat)
    requires cut <= |h| && reset <= |h| && (cut == |h| || reset == |h|)
    ensures !Pends(h, k, cut, reset)
  {
    SinceUpIsTail(h);
    assert h[|h|..] == [];
  }

  /** Deleting the open incident moves the cut to the end of the history. */
  lemma {:induction false} ErasedTells(mark: LinkMark, rs: seq<CheckResult>, h: seq<CheckStatus>, k: nat, cut: nat,
                                       cuts: seq<nat>, reset: nat)
    requires MarkTells(mark, rs, h, k, cut, cuts, reset) && Outage(h, k, cut)
    ensures MarkTells(mark, rs, h, k, |h|, cuts, reset)
  {
    PendsNotOutage(h, k, cut, reset);
    NothingPends(h, k, |h|, reset);
    hide Pends, UntilTells, Outage;
  }

  /** Resetting the marker moves the reset to the end of the history. */
  lemma {:induction false} ResetTells(mark: LinkMark, rs: seq<CheckResult>, h: seq<CheckStatus>, k: nat, cut: nat,
                                      cuts: seq<nat>, reset: nat)
    requires MarkTells(mark, rs, h, k, cut, cuts, reset)
    ensures MarkTells(LinkMark(false, None), rs, h, k, cut, cuts, |h|)
  {
    NothingPends(h, k, cut, |h|);
    hide Pends, Acts;
  }

  lemma {:induction false} QuietStepParts(prefix: seq<Step>, step: Step, setting: int, target: nat)
    requires !(step.Primary? && step.targetId == target)
    ensures var steps, before := prefix + [step], Run(prefix, setting);
            && Run(steps, setting) == Next(before, step, setting)
            && Cut(steps, setting, target)
               == (if ErasesOpen(before, step, target) then |History(before, target)| else Cut(prefix, setting, target))
            && Cuts(steps, setting, target) == Cuts(prefix, setting, target)
            && ResetAt(steps, setting, target)
               == (if step == ResetMarker(target) then |History(before, target)| else ResetAt(prefix, setting, target))
            && Marker(steps, setting, target)
               == (if step == ResetMarker(target) then LinkMark(false, None) else Marker(prefix, setting, target))
  {
    hide Next, ErasesOpen, History;
    var steps := prefix + [step];
    assert steps[..|steps| - 1] == prefix;
    assert Cuts(prefix, setting, target) + [] == Cuts(prefix, setting, target);
  }

  /** A deletion or a reset moves a bound to the end of the history; any other step changes nothing here. */
  lemma {:induction false} QuietStepTold(prefix: seq<Step>, step: Step, setting: int, target: nat)
    requires Told(prefix, setting, target) && !(step.Primary? && step.targetId == target)
    ensures Told(prefix + [step], setting, target)
  {
    var before := Run(prefix, setting);
    var rs := ResultsOf(before.results, target);
    QuietStepParts(prefix, step, setting, target);
    SameResults(before, step, setting, target);
    StatusesOfResults(before.results, target);
    TrackedOutage(prefix, setting, target);
    hide Run, Next, Cut, Cuts, ResetAt, Marker, MarkTells, ResultsOf, StatusesOf, Outage;
    var cut, cuts, reset :=
      Cut(prefix, setting, target), Cuts(prefix, setting, target), ResetAt(prefix, setting, target);
    if ErasesOpen(before, step, target) {
      OpenWhenErased(before, step, target);
      ErasedTells(Marker(prefix, setting, target), rs, Statuses(rs), Window(setting), cut, cuts, reset);
    } else if step == ResetMarker(target) {
      ResetTells(Marker(prefix, setting, target), rs, Statuses(rs), Window(setting), cut, cuts, reset);
    }
  }

  lemma OpenWhenErased(w: World, step: Step, target: nat)
    requires ErasesOpen(w, step, target)
    ensures FindOpen(w.incidents, AvailabilitySlot(target)) >= 0
  {
  }

  lemma SameResults(w: World, step: Step, setting: int, target: nat)
    requires !(step.Primary? && step.targetId == target)
    ensures ResultsOf(Next(w, step, setting).results, target) == ResultsOf(w.results, target)
  {
    if step.Primary? {
      assert Stored(w, step)[..|w.results|] == w.results;
      assert ResultsOf(w.results, target) + [] == ResultsOf(w.results, target);
    }
  }

  /**
   * Over any run, a pending DOWN means exactly: a DOWN since the last UP, reset and deletion, and no
   * incident open; and the deadline is that of the last UP since the reset that ended an unconfirmed
   * outage, unless a confirmed one followed.
   */
  lemma {:induction false} MarkerFollowsResults(steps: seq<Step>, setting: int, target: nat)
    ensures Told(steps, setting, target)
  {
    hide Told, Run, SinceUp;
    if steps != [] {
      var prefix, step := steps[..|steps| - 1], steps[|steps| - 1];
      MarkerFollowsResults(prefix, setting, target);
      assert prefix + [step] == steps;
      if step.Primary? && step.targetId == target {
        ResultStepTold(prefix, step, setting, target);
      } else {
        QuietStepTold(prefix, step, setting, target);
      }
    } else {
      NothingTold(setting, target);
    }
  }

  lemma NothingTold(setting: int, target: nat)
    ensures Told([], setting, target)
  {
    assert SinceUp([]) == [];
  }

  /**
   * The marker shows exactly for an hour after an UP that ended an unconfirmed outage and that nothing has
   * overruled since.
   */
  lemma {:induction false} ShowsExactly(steps: seq<Step>, setting: int, target: nat, now: Time)
    ensures var rs, cuts, reset := ResultsOf(Run(steps, setting).results, target), Cuts(steps, setting, target),
                                   ResetAt(steps, setting, target);
            && |cuts| == |rs| && Bounded(cuts)
            && (ShowsAt(Marker(steps, setting, target), now) <==>
                  exists i: nat :: i < |rs| && Decides(Statuses(rs), i, Window(setting), cuts, reset)
                                   && rs[i].status.Up? && now < rs[i].checkedAt + UNSTABLE_LINK_TTL)
  {
    hide Run, Marker, Decides, Undecided, Pends, Cut;
    MarkerFollowsResults(steps, setting, target);
    var rs := ResultsOf(Run(steps, setting).results, target);
    LastDecider(Statuses(rs), Window(setting), Cuts(steps, setting, target), ResetAt(steps, setting, target));
  }

  /** With one failure enough to confirm, every DOWN after the cut is an outage. */
  lemma {:induction false} DownIsOutage(h: seq<CheckStatus>, cut: nat, reset: nat)
    requires cut <= |h| && reset <= |h|
    ensures !Pends(h, 1, cut, reset)
  {
    SinceUpIsTail(h);
    var from := Max(LastUp(h), Max(cut, reset));
    if Down in h[from..] {
      var i :| from <= i < |h| && h[i].Down?;
      assert SinceUp(h)[i - LastUp(h)] == h[i];
      assert RunEndsAt(SinceUp(h), 1, i - LastUp(h) + 1);
    }
  }

  /** With one failure enough to confirm, the marker never shows. */
  lemma {:induction false} ImmediateConfirmationNeverUnstable(steps: seq<Step>, target: nat)
    ensures Marker(steps, 1, target) == LinkMark(false, None)
  {
    hide Run, Outage, Cut;
    var rs := ResultsOf(Run(steps, 1).results, target);
    var h, cuts, reset := Statuses(rs), Cuts(steps, 1, target), ResetAt(steps, 1, target);
    MarkerFollowsResults(steps, 1, target);
    DownIsOutage(h, Cut(steps, 1, target), reset);
    forall i: nat | reset <= i < |h| ensures !EndsUnconfirmed(h, i, 1, cuts[i], reset) {
      DownIsOutage(h[..i], cuts[i], reset);
    }
    hide Pends;
    LastDecider(h, 1, cuts, reset);
  }

  /** Either nothing since the reset set or cleared the marker, or some last result did. */
  lemma {:induction false} LastDecider(h: seq<CheckStatus>, k: nat, cuts: seq<nat>, reset: nat)
    requires |cuts| == |h| && Bounded(cuts) && reset <= |h|
    ensures Undecided(h, k, cuts, reset) || exists i: nat :: i < |h| && Decides(h, i, k, cuts, reset)
  {
    var n := |h|;
    while n > reset && !Acts(h, n - 1, k, cuts, reset)
      invariant reset <= n <= |h|
      invariant forall j: nat :: n <= j < |h| ==> !Acts(h, j, k, cuts, reset)
    {
      n := n - 1;
    }
    if n > reset {
      assert Decides(h, n - 1, k, cuts, reset);
    }
  }
}
