/**
 * Retention of primary results: the nightly cleanup deletes what is older than a threshold, also
 * results a confirmation would still have asked about.
 */
module ResultRetention {
  import opened Basics
  import opened Incidents
  import opened IncidentRuns
  import opened AvailabilityStream
  import opened Monitoring

  const DAY := 86_400_000_000

  /** The rows a cleanup leaves. */
  function Kept(results: seq<CheckResult>, threshold: int): (kept: seq<CheckResult>)
    ensures |kept| <= |results|
    ensures forall row :: row in kept <==> row in results && row.checkedAt >= threshold
  {
    if results == [] then []
    else
      var last := results[|results| - 1];
      assert results == results[..|results| - 1] + [last];
      Kept(results[..|results| - 1], threshold) + if last.checkedAt >= threshold then [last] else []
  }

  function KeptOfChecks(results: seq<TargetCheckResult>, threshold: int): (kept: seq<TargetCheckResult>)
    ensures |kept| <= |results|
    ensures forall row :: row in kept <==> row in results && row.checkedAt >= threshold
  {
    if results == [] then []
    else
      var last := results[|results| - 1];
      assert results == results[..|results| - 1] + [last];
      KeptOfChecks(results[..|results| - 1], threshold) + if last.checkedAt >= threshold then [last] else []
  }

  /** How long results stay: 90 days when nothing readable is set, never under a week or over ten years. */
  function RetentionDays(setting: Option<int>): (days: int)
    ensures 7 <= days <= 3650
    ensures setting.Some? && 7 <= setting.value <= 3650 ==> days == setting.value
  {
    Max(7, Min(3650, if setting.Some? then setting.value else 90))
  }

  datatype Act = Work(step: Step) | Cleanup(threshold: int)

  function After(w: World, act: Act, setting: int): World {
    match act
    case Work(step) => Next(w, step, setting)
    case Cleanup(threshold) => w.(results := Kept(w.results, threshold))
  }

  /** A run with its cleanups. */
  function Tidied(acts: seq<Act>, setting: int): World {
    if acts == [] then World([], [], [])
    else After(Tidied(acts[..|acts| - 1], setting), acts[|acts| - 1], setting)
  }

  /** The same run without them. */
  function Worked(acts: seq<Act>): seq<Step> {
    if acts == [] then []
    else
      var last := acts[|acts| - 1];
      Worked(acts[..|acts| - 1]) + if last.Work? then [last.step] else []
  }

  /** One cleanup of the tables; `days` is the stored number, if there is a readable one. */
  method CleanupCheckHistory(session: Session, days: Option<int>, now: Time, ghost log: seq<Event>)
    returns (deleted: nat)
    modifies session`results, session`checkResults
    ensures Seen(session, log) ==
            After(old(Seen(session, log)), Cleanup(now - RetentionDays(days) * DAY), session.failuresBeforeIncident)
    ensures session.checkResults == KeptOfChecks(old(session.checkResults), now - RetentionDays(days) * DAY)
    ensures deleted == |old(session.results)| - |session.results| + |old(session.checkResults)| - |session.checkResults|
  {
    var threshold := now - RetentionDays(days) * DAY;
    var results, checkResults := Kept(session.results, threshold), KeptOfChecks(session.checkResults, threshold);
    deleted := |session.results| - |results| + |session.checkResults| - |checkResults|;
    session.results, session.checkResults := results, checkResults;
  }

  // ---------------------------------------------------------------- what is left of a history

  /** The results of each target are stored in the order of their time, so that newest means stored last. */
  ghost predicate InTime(results: seq<CheckResult>) {
    forall i, j :: 0 <= i < j < |results| && results[i].targetId == results[j].targetId ==>
      results[i].checkedAt <= results[j].checkedAt
  }

  predicate Tail(g: seq<CheckStatus>, h: seq<CheckStatus>) {
    |g| <= |h| && g == h[|h| - |g|..]
  }

  lemma OneMoreInTime(kept: seq<CheckResult>, results: seq<CheckResult>, row: CheckResult)
    requires InTime(kept) && InTime(results + [row])
    requires forall other :: other in kept ==> other in results
    ensures InTime(kept + [row])
  {
    forall i | 0 <= i < |kept| && kept[i].targetId == row.targetId ensures kept[i].checkedAt <= row.checkedAt {
      assert kept[i] in results;
      var j :| 0 <= j < |results| && results[j] == kept[i];
      assert (results + [row])[j] == kept[i] && (results + [row])[|results|] == row;
    }
  }

  lemma TailGrows(g: seq<CheckStatus>, h: seq<CheckStatus>, more: seq<CheckStatus>)
    requires Tail(g, h)
    ensures Tail(g + more, h + more)
  {
  }

  lemma {:induction false} NoneOfTarget(results: seq<CheckResult>, target: nat)
    requires forall row :: row in results ==> row.targetId != target
    ensures StatusesOf(results, target) == []
  {
    if results != [] {
      NoneOfTarget(results[..|results| - 1], target);
    }
  }

  lemma StatusesGrow(results: seq<CheckResult>, row: CheckResult, target: nat)
    ensures StatusesOf(results + [row], target) ==
            StatusesOf(results, target) + if row.targetId == target then [row.status] else []
  {
    assert (results + [row])[..|results|] == results;
  }

  lemma {:induction false} KeptInTime(results: seq<CheckResult>, threshold: int)
    requires InTime(results)
    ensures InTime(Kept(results, threshold))
  {
    if results != [] {
      var front, last := results[..|results| - 1], results[|results| - 1];
      assert InTime(front) && front + [last] == results;
      hide InTime;
      KeptInTime(front, threshold);
      if last.checkedAt >= threshold {
        OneMoreInTime(Kept(front, threshold), front, last);
      }
    }
  }

  /** What is kept beside a dropped newest row of a target is of other targets. */
  lemma DroppedIsOldest(kept: seq<CheckResult>, front: seq<CheckResult>, last: CheckResult)
    requires InTime(front + [last])
    requires forall row :: row in kept ==> row in front && row.checkedAt > last.checkedAt
    ensures StatusesOf(kept, last.targetId) == []
  {
    forall row | row in kept ensures row.targetId != last.targetId {
      var j :| 0 <= j < |front| && front[j] == row;
      assert (front + [last])[j] == row && (front + [last])[|front|] == last;
    }
    NoneOfTarget(kept, last.targetId);
  }

  lemma KeptGrows(front: seq<CheckResult>, last: CheckResult, threshold: int)
    ensures Kept(front + [last], threshold) ==
            Kept(front, threshold) + if last.checkedAt >= threshold then [last] else []
  {
    assert (front + [last])[..|front|] == front;
  }

  lemma OneMoreIsTail(front: seq<CheckResult>, last: CheckResult, threshold: int, target: nat)
    requires InTime(front + [last])
    requires Tail(StatusesOf(Kept(front, threshold), target), StatusesOf(front, target))
    ensures Tail(StatusesOf(Kept(front + [last], threshold), target), StatusesOf(front + [last], target))
  {
    hide InTime, StatusesOf, Tail, Kept;
    var kept, more := Kept(front, threshold), if last.targetId == target then [last.status] else [];
    KeptGrows(front, last, threshold);
    StatusesGrow(front, last, target);
    StatusesGrow(kept, last, target);
    if last.checkedAt >= threshold {
      TailGrows(StatusesOf(kept, target), StatusesOf(front, target), more);
    } else {
      assert kept + [] == kept && StatusesOf(front, target) + [] == StatusesOf(front, target);
      if last.targetId == target {
        DroppedIsOldest(kept, front, last);
        NothingIsTail(StatusesOf(front + [last], target));
      }
    }
  }

  /** A cleanup cuts the history of a target from its old end. */
  lemma {:induction false} KeptIsTail(results: seq<CheckResult>, threshold: int, target: nat)
    requires InTime(results)
    ensures Tail(StatusesOf(Kept(results, threshold), target), StatusesOf(results, target))
  {
    if results != [] {
      var front, last := results[..|results| - 1], results[|results| - 1];
      assert InTime(front) && front + [last] == results;
      hide InTime;
      KeptIsTail(front, threshold, target);
      OneMoreIsTail(front, last, threshold, target);
    }
  }

  lemma NothingIsTail(h: seq<CheckStatus>)
    ensures Tail([], h)
  {
  }

  lemma TailTransitive(f: seq<CheckStatus>, g: seq<CheckStatus>, h: seq<CheckStatus>)
    requires Tail(f, g) && Tail(g, h)
    ensures Tail(f, h)
  {
  }

  /** What is left of a history confirms what the history confirms if it is long enough. */
  lemma TailConfirms(g: seq<CheckStatus>, h: seq<CheckStatus>, setting: int)
    requires Tail(g, h)
    ensures ConfirmedIn(g, setting) <==> ConfirmedIn(h, setting) && |g| >= Window(setting)
  {
    hide ConfirmedIn, Window;
    ConfirmedIsTail(g, setting);
    ConfirmedIsTail(h, setting);
    assert forall i :: 0 <= i < |g| ==> g[i] == h[i + |h| - |g|];
    if |g| >= Window(setting) && ConfirmedIn(g, setting) {
      assert forall i :: |h| - Window(setting) <= i < |h| ==> h[i] == g[i - |h| + |g|];
    }
  }

  /** Every target's stored results are the newest of all it ever had. */
  ghost predicate Remains(v: World, w: World) {
    && InTime(v.results)
    && (forall row :: row in v.results ==> row in w.results)
    && forall target: nat :: Tail(History(v, target), History(w, target))
  }

  lemma WorkKeepsRemains(v: World, w: World, step: Step, setting: int)
    requires Remains(v, w) && InTime(Next(w, step, setting).results)
    ensures Remains(Next(v, step, setting), Next(w, step, setting))
  {
    hide InTime, Effect, Tail, StatusesOf;
    if step.Primary? {
      OneMoreInTime(v.results, w.results, CheckResult(step.targetId, step.status, step.at));
    }
    forall target: nat
      ensures Tail(History(Next(v, step, setting), target), History(Next(w, step, setting), target))
    {
      assert Tail(History(v, target), History(w, target));
      HistoryOfNext(v, step, setting, target);
      HistoryOfNext(w, step, setting, target);
      TailGrows(History(v, target), History(w, target),
                if step.Primary? && step.targetId == target then [step.status] else []);
    }
  }

  lemma CleanupKeepsRemains(v: World, w: World, threshold: int, setting: int)
    requires Remains(v, w)
    ensures Remains(After(v, Cleanup(threshold), setting), w)
  {
    forall target: nat
      ensures Tail(History(After(v, Cleanup(threshold), setting), target), History(w, target))
    {
      KeptIsTail(v.results, threshold, target);
      TailTransitive(StatusesOf(Kept(v.results, threshold), target), History(v, target), History(w, target));
    }
    KeptInTime(v.results, threshold);
  }

  lemma {:induction false} RunRemains(acts: seq<Act>, setting: int)
    requires InTime(Run(Worked(acts), setting).results)
    ensures Remains(Tidied(acts, setting), Run(Worked(acts), setting))
  {
    if acts != [] {
      var front, last := acts[..|acts| - 1], acts[|acts| - 1];
      var v, w := Tidied(front, setting), Run(Worked(front), setting);
      WorkedGrows(acts, setting);
      hide Remains, Run, Next, InTime;
      RunRemains(front, setting);
      if last.Work? {
        WorkKeepsRemains(v, w, last.step, setting);
      } else {
        CleanupKeepsRemains(v, w, last.threshold, setting);
      }
    }
  }

  /** One more act; what is stored in time was so before it. */
  lemma WorkedGrows(acts: seq<Act>, setting: int)
    requires acts != []
    ensures var w, last := Run(Worked(acts[..|acts| - 1]), setting), acts[|acts| - 1];
            && Run(Worked(acts), setting) == (if last.Work? then Next(w, last.step, setting) else w)
            && (InTime(Run(Worked(acts), setting).results) ==> InTime(w.results))
  {
    var before, last := Worked(acts[..|acts| - 1]), acts[|acts| - 1];
    if last.Work? {
      assert (before + [last.step])[..|before|] == before;
      var w := Run(before, setting);
      assert forall i :: 0 <= i < |w.results| ==> Stored(w, last.step)[i] == w.results[i];
    } else {
      assert before + [] == before;
    }
  }

  // ---------------------------------------------------------------- what a cleanup changes

  predicate SameIncidents(v: World, w: World) {
    v.incidents == w.incidents && v.log == w.log
  }

  /**
   * A DOWN of a target without open incident whose k - 1 latest results were DOWN, while cleanups
   * have left fewer than k - 1 of its results.
   */
  predicate Misses(v: World, w: World, act: Act, setting: int) {
    && act.Work? && act.step.Primary? && act.step.status.Down?
    && FindOpen(w.incidents, AvailabilitySlot(act.step.targetId)) < 0
    && var h, k := History(w, act.step.targetId), Window(setting);
       RunEndsAt(h, k - 1, |h|) && |History(v, act.step.targetId)| < k - 1
  }

  lemma DownConfirms(h: seq<CheckStatus>, setting: int)
    ensures ConfirmedIn(h + [Down], setting) <==> RunEndsAt(h, Window(setting) - 1, |h|)
  {
    hide ConfirmedIn;
    var h', k := h + [Down], Window(setting);
    ConfirmedIsTail(h', setting);
    assert forall i :: 0 <= i < |h| ==> h'[i] == h[i];
    if RunEndsAt(h, k - 1, |h|) {
      assert forall i :: |h'| - k <= i < |h'| ==> i == |h| || h'[i] == h[i];
    }
  }

  /** A confirmation matters exactly when nothing is open. */
  lemma ConfirmationMatters(rows: seq<Incident>, slot: Slot, a: bool, b: bool, setting: int, suppressed: bool, at: Time,
                            now: Time)
    ensures AfterFailure(rows, slot, None, a, setting, suppressed, at, now).rows
            == AfterFailure(rows, slot, None, b, setting, suppressed, at, now).rows
            <==> FindOpen(rows, slot) >= 0 || a == b
    ensures FindOpen(rows, slot) >= 0 || a == b ==>
              AfterFailure(rows, slot, None, a, setting, suppressed, at, now)
              == AfterFailure(rows, slot, None, b, setting, suppressed, at, now)
  {
    hide OpeningGate, NewIncident;
  }

  lemma DownConfirmedAlike(v: World, w: World, step: Step, setting: int)
    requires step.Primary? && step.status.Down? && Remains(v, w)
    ensures var g, h := History(v, step.targetId), History(w, step.targetId);
            && (ConfirmedIn(StatusesOf(Stored(w, step), step.targetId), setting) <==>
                RunEndsAt(h, Window(setting) - 1, |h|))
            && (ConfirmedIn(StatusesOf(Stored(v, step), step.targetId), setting) <==>
                RunEndsAt(h, Window(setting) - 1, |h|) && |g| >= Window(setting) - 1)
  {
    var g, h := History(v, step.targetId), History(w, step.targetId);
    assert Tail(g, h);
    hide ConfirmedIn, RunEndsAt, Remains, Window;
    StatusesGrow(v.results, CheckResult(step.targetId, step.status, step.at), step.targetId);
    StatusesGrow(w.results, CheckResult(step.targetId, step.status, step.at), step.targetId);
    TailGrows(g, h, [Down]);
    TailConfirms(g + [Down], h + [Down], setting);
    DownConfirms(h, setting);
  }

  lemma PrimaryDownDiffersExactly(v: World, w: World, step: Step, setting: int)
    requires step.Primary? && step.status.Down?
    requires SameIncidents(v, w) && Remains(v, w)
    ensures SameIncidents(Next(v, step, setting), Next(w, step, setting)) <==> !Misses(v, w, Work(step), setting)
  {
    hide ConfirmedIn, Remains, RunEndsAt, StatusesOf, FindOpen, AfterFailure, Window, Stored;
    DownConfirmedAlike(v, w, step, setting);
    ConfirmationMatters(w.incidents, AvailabilitySlot(step.targetId),
                        ConfirmedIn(StatusesOf(Stored(v, step), step.targetId), setting),
                        ConfirmedIn(StatusesOf(Stored(w, step), step.targetId), setting),
                        setting, step.suppressed, step.at, step.now);
  }

  lemma ActDiffersExactly(v: World, w: World, act: Act, setting: int)
    requires SameIncidents(v, w) && Remains(v, w)
    ensures SameIncidents(After(v, act, setting), if act.Work? then Next(w, act.step, setting) else w) <==>
            !Misses(v, w, act, setting)
  {
    if act.Work? && act.step.Primary? && act.step.status.Down? {
      PrimaryDownDiffersExactly(v, w, act.step, setting);
    }
  }

  predicate SameSoFar(acts: seq<Act>, n: nat, setting: int)
    requires n <= |acts|
  {
    SameIncidents(Tidied(acts[..n], setting), Run(Worked(acts[..n]), setting))
  }

  predicate MissesAt(acts: seq<Act>, n: nat, setting: int)
    requires n < |acts|
  {
    Misses(Tidied(acts[..n], setting), Run(Worked(acts[..n]), setting), acts[n], setting)
  }

  lemma OneMoreAct(acts: seq<Act>, setting: int)
    requires acts != [] && InTime(Run(Worked(acts), setting).results)
    requires SameSoFar(acts, |acts| - 1, setting)
    ensures SameSoFar(acts, |acts|, setting) <==> !MissesAt(acts, |acts| - 1, setting)
  {
    var front := acts[..|acts| - 1];
    assert acts[..|acts|] == acts;
    WorkedGrows(acts, setting);
    hide Run, InTime, Remains, Misses, Next, SameIncidents;
    RunRemains(front, setting);
    ActDiffersExactly(Tidied(front, setting), Run(Worked(front), setting), acts[|acts| - 1], setting);
  }

  lemma FrontAgrees(acts: seq<Act>, front: seq<Act>, n: nat, setting: int)
    requires acts != [] && front == acts[..|acts| - 1] && n <= |front|
    ensures SameSoFar(front, n, setting) <==> SameSoFar(acts, n, setting)
    ensures n < |front| ==> (MissesAt(front, n, setting) <==> MissesAt(acts, n, setting))
  {
    assert front[..n] == acts[..n];
  }

  lemma NothingYet(acts: seq<Act>, setting: int)
    ensures SameSoFar(acts, 0, setting)
  {
  }

  /**
   * Whatever is deleted and whenever: the incidents and their events are at every moment those of the
   * run without cleanups, exactly when no DOWN comes to a target without open incident that completes
   * k DOWNs in a row of which the cleanups have left too few.
   */
  lemma {:induction false} RetentionChangesExactly(acts: seq<Act>, setting: int)
    requires InTime(Run(Worked(acts), setting).results)
    ensures (forall n :: 0 <= n <= |acts| ==> SameSoFar(acts, n, setting)) <==>
            (forall n :: 0 <= n < |acts| ==> !MissesAt(acts, n, setting))
  {
    hide SameSoFar, MissesAt, Run, Worked, InTime;
    if acts == [] {
      NothingYet(acts, setting);
    } else {
      var front := acts[..|acts| - 1];
      WorkedGrows(acts, setting);
      RetentionChangesExactly(front, setting);
      forall n | 0 <= n <= |front|
        ensures SameSoFar(front, n, setting) <==> SameSoFar(acts, n, setting)
        ensures n < |front| ==> (MissesAt(front, n, setting) <==> MissesAt(acts, n, setting))
      {
        FrontAgrees(acts, front, n, setting);
      }
      if SameSoFar(front, |front|, setting) {
        OneMoreAct(acts, setting);
      }
    }
  }

  // ---------------------------------------------------------------- retention that keeps enough

  /** A cleanup that leaves each target its k - 1 newest stored results, or all of them. */
  ghost predicate Spares(v: World, threshold: int, setting: int) {
    forall target: nat ::
      |StatusesOf(Kept(v.results, threshold), target)| >= Min(|History(v, target)|, Window(setting) - 1)
  }

  /** Every cleanup of the run spares what a confirmation may ask about. */
  ghost predicate AlwaysSpares(acts: seq<Act>, setting: int) {
    forall n :: 0 <= n < |acts| && acts[n].Cleanup? ==> Spares(Tidied(acts[..n], setting), acts[n].threshold, setting)
  }

  lemma SparesBefore(acts: seq<Act>, setting: int, n: nat)
    requires AlwaysSpares(acts, setting) && n <= |acts|
    ensures AlwaysSpares(acts[..n], setting)
  {
    hide Spares, Tidied;
    assert forall i :: 0 <= i < n ==> acts[..n][..i] == acts[..i];
  }

  lemma {:induction false} EnoughIsKept(acts: seq<Act>, setting: int, target: nat)
    requires AlwaysSpares(acts, setting)
    ensures |History(Tidied(acts, setting), target)| >=
            Min(|History(Run(Worked(acts), setting), target)|, Window(setting) - 1)
  {
    if acts != [] {
      var front, last := acts[..|acts| - 1], acts[|acts| - 1];
      var v, w := Tidied(front, setting), Run(Worked(front), setting);
      SparesBefore(acts, setting, |acts| - 1);
      assert last.Cleanup? ==> Spares(v, last.threshold, setting);
      WorkedGrows(acts, setting);
      hide Run, Window, AlwaysSpares, InTime, Effect, StatusesOf;
      EnoughIsKept(front, setting, target);
      if last.Work? {
        HistoryOfNext(v, last.step, setting, target);
        HistoryOfNext(w, last.step, setting, target);
      }
    }
  }

  lemma NothingMissed(acts: seq<Act>, setting: int, n: nat)
    requires AlwaysSpares(acts, setting) && n < |acts|
    ensures !MissesAt(acts, n, setting)
  {
    hide AlwaysSpares, Run, Tidied, Worked, FindOpen, StatusesOf;
    SparesBefore(acts, setting, n);
    if acts[n].Work? && acts[n].step.Primary? {
      EnoughIsKept(acts[..n], setting, acts[n].step.targetId);
    }
  }

  /** Retention that keeps the k - 1 newest results of every target changes no incident and no event. */
  lemma SparingRetentionChangesNothing(acts: seq<Act>, setting: int)
    requires InTime(Run(Worked(acts), setting).results) && AlwaysSpares(acts, setting)
    ensures SameIncidents(Tidied(acts, setting), Run(Worked(acts), setting))
  {
    hide AlwaysSpares, MissesAt, InTime, Run, Worked, Tidied, SameIncidents;
    forall n | 0 <= n < |acts| ensures !MissesAt(acts, n, setting) {
      NothingMissed(acts, setting, n);
    }
    RetentionChangesExactly(acts, setting);
    assert SameSoFar(acts, |acts|, setting) && acts[..|acts|] == acts;
  }

  lemma FirstOpening(w: World, step: Step, setting: int)
    requires w.incidents == [] && step.Primary? && step.status.Down?
    ensures var after := Next(w, step, setting).incidents;
            var confirmed := RunEndsAt(History(w, step.targetId), Window(setting) - 1, |History(w, step.targetId)|);
            && (FindOpen(after, AvailabilitySlot(step.targetId)) >= 0 <==> confirmed)
            && (!confirmed ==> after == [])
  {
    var slot, h := AvailabilitySlot(step.targetId), History(w, step.targetId);
    HistoryOfNext(w, step, setting, step.targetId);
    DownConfirms(h, setting);
    NothingOpen(slot);
    assert StatusesOf(Stored(w, step), step.targetId) == h + [Down];
    hide FindOpen, ConfirmedIn, StatusesOf, RunEndsAt, Window;
    OwnSlotAfterResult([], slot, Down, ConfirmedIn(h + [Down], setting), setting, step.suppressed, step.at, step.now);
  }

  /** Two DOWNs with a cleanup between them that deletes the first: the second opens nothing. */
  lemma RetentionDelaysOpening()
    ensures var acts := [Work(Primary(1, Down, false, 10, 10)), Cleanup(20), Work(Primary(1, Down, false, 30, 30))];
            && FindOpen(Run(Worked(acts), 2).incidents, AvailabilitySlot(1)) >= 0
            && FindOpen(Tidied(acts, 2).incidents, AvailabilitySlot(1)) < 0
  {
    var first, second := Primary(1, Down, false, 10, 10), Primary(1, Down, false, 30, 30);
    var acts := [Work(first), Cleanup(20), Work(second)];
    var w, v := ThreeActs(first, 20, second, 2);
    hide FindOpen, Effect, Run, Tidied, Worked, Window;
    HistoryOfNext(World([], [], []), first, 2, 1);
    FirstOpening(World([], [], []), first, 2);
    assert w.results == [CheckResult(1, Down, 10)] && v.results == [];
    FirstOpening(w, second, 2);
    FirstOpening(v, second, 2);
  }

  lemma ThreeActs(first: Step, threshold: int, second: Step, setting: int) returns (w: World, v: World)
    ensures var acts := [Work(first), Cleanup(threshold), Work(second)];
            && w == Next(World([], [], []), first, setting) && v == After(w, Cleanup(threshold), setting)
            && Run(Worked(acts), setting) == Next(w, second, setting)
            && Tidied(acts, setting) == Next(v, second, setting)
  {
    hide Next, Kept, Run, Worked, Tidied;
    w := Next(World([], [], []), first, setting);
    v := After(w, Cleanup(threshold), setting);
    NoActs(setting);
    Grows([], Work(first), setting);
    Grows([Work(first)], Cleanup(threshold), setting);
    Grows([Work(first), Cleanup(threshold)], Work(second), setting);
    assert [] + [Work(first)] == [Work(first)];
    assert [Work(first)] + [Cleanup(threshold)] == [Work(first), Cleanup(threshold)];
    assert [Work(first), Cleanup(threshold)] + [Work(second)] == [Work(first), Cleanup(threshold), Work(second)];
  }

  lemma NoActs(setting: int)
    ensures Tidied([], setting) == World([], [], []) && Run(Worked([]), setting) == World([], [], [])
  {
  }

  lemma Grows(acts: seq<Act>, act: Act, setting: int)
    ensures Tidied(acts + [act], setting) == After(Tidied(acts, setting), act, setting)
    ensures Run(Worked(acts + [act]), setting) ==
            if act.Work? then Next(Run(Worked(acts), setting), act.step, setting) else Run(Worked(acts), setting)
  {
    assert (acts + [act])[..|acts|] == acts;
    WorkedGrows(acts + [act], setting);
  }
}
