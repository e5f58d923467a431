/** The metric history over every run of one target: polls in flight, edits, caps and retention. */
module MetricRuns {
  import opened Basics
  import opened InterfaceTraffic
  import opened PollRequests
  import opened MetricSamples

  datatype World = World(
    metrics: map<nat, Metric>,
    samples: seq<MetricSample>,
    clock: Time,
    setting: Option<Option<int>>,
    pending: Option<seq<MetricPoll>>)

  /** `Prepare` loads a request; `Save` stores the reply to the request in flight. */
  datatype Step =
    | AddMetric(id: nat, enabled: bool)
    | EditMetric(id: nat, enabled: bool)
    | DeleteMetric(id: nat)
    | Prepare(polls: seq<MetricPoll>)
    | Save(reply: Reply, at: Time)
    | ChangeLimit(newSetting: Option<Option<int>>)
    | Retain(threshold: Time)
    | ClearData

  predicate Increasing(polls: seq<MetricPoll>) {
    forall i, j :: 0 <= i < j < |polls| ==> polls[i].id < polls[j].id
  }

  /** The request lists the enabled metrics by id. */
  predicate Loads(polls: seq<MetricPoll>, metrics: map<nat, Metric>) {
    && Increasing(polls)
    && (forall i :: 0 <= i < |polls| ==> polls[i].id in metrics && metrics[polls[i].id].enabled)
    && (forall id :: id in metrics && metrics[id].enabled ==> exists i :: 0 <= i < |polls| && polls[i].id == id)
  }

  function Without(s: seq<MetricSample>, id: nat): (r: seq<MetricSample>)
    ensures |r| <= |s|
    ensures forall x :: x in r ==> x in s && x.metricId != id
  {
    if s == [] then []
    else
      var rest := Without(s[..|s| - 1], id);
      if s[|s| - 1].metricId == id then rest else rest + [s[|s| - 1]]
  }

  function Since(s: seq<MetricSample>, threshold: Time): (r: seq<MetricSample>)
    ensures |r| <= |s|
    ensures forall x :: x in r ==> x in s && x.collectedAt >= threshold
  {
    if s == [] then []
    else
      var rest := Since(s[..|s| - 1], threshold);
      if s[|s| - 1].collectedAt >= threshold then rest + [s[|s| - 1]] else rest
  }

  function Saved(w: World, polls: seq<MetricPoll>, reply: Reply, at: Time): World {
    w.(metrics := SavedMetrics(w.metrics, polls, reply, at),
       samples := Trimmed(w.samples + NewSamples(w.metrics.Keys, polls, reply, at), SampleLimit(w.setting)),
       clock := at,
       pending := None)
  }

  function Next(w: World, step: Step): World {
    match step
    case AddMetric(id, enabled) =>
      if id in w.metrics || |w.metrics| >= MAX_METRICS then w
      else w.(metrics := w.metrics[id := Metric(enabled, None, None, false)])
    case EditMetric(id, enabled) =>
      if id in w.metrics then w.(metrics := w.metrics[id := w.metrics[id].(enabled := enabled)]) else w
    case DeleteMetric(id) => w.(metrics := w.metrics - {id}, samples := Without(w.samples, id))
    case Prepare(polls) => if Loads(polls, w.metrics) then w.(pending := Some(polls)) else w
    case Save(reply, at) => if w.pending.None? || at <= w.clock then w else Saved(w, w.pending.value, reply, at)
    case ChangeLimit(newSetting) => w.(setting := newSetting, samples := Trimmed(w.samples, SampleLimit(newSetting)))
    case Retain(threshold) => w.(samples := Since(w.samples, threshold))
    case ClearData => w.(metrics := map id | id in w.metrics :: Metric(w.metrics[id].enabled, None, None, false),
                         samples := [])
  }

  function Run(steps: seq<Step>, setting: Option<Option<int>>): World {
    if steps == [] then World(map[], [], 0, setting, None)
    else Next(Run(steps[..|steps| - 1], setting), steps[|steps| - 1])
  }

  // ---------------------------------------------------------------- what every run keeps

  predicate Sound(w: World) {
    && InOrder(w.samples)
    && (forall s :: s in w.samples ==> s.collectedAt <= w.clock && s.metricId in w.metrics)
    && |w.samples| <= SampleLimit(w.setting)
    && |w.metrics| <= MAX_METRICS
    && (w.pending.Some? ==> Increasing(w.pending.value) && |w.pending.value| <= MAX_METRICS)
  }

  lemma {:induction false} WithoutInOrder(s: seq<MetricSample>, id: nat)
    requires InOrder(s)
    ensures InOrder(Without(s, id))
  {
    if s != [] {
      WithoutInOrder(s[..|s| - 1], id);
    }
  }

  lemma {:induction false} SinceInOrder(s: seq<MetricSample>, threshold: Time)
    requires InOrder(s)
    ensures InOrder(Since(s, threshold))
  {
    if s != [] {
      SinceInOrder(s[..|s| - 1], threshold);
    }
  }

  lemma {:induction false} SavedMetricsKeepKeys(metrics: map<nat, Metric>, polls: seq<MetricPoll>, reply: Reply,
                                                now: Time)
    ensures SavedMetrics(metrics, polls, reply, now).Keys == metrics.Keys
    ensures forall id :: id in metrics ==> SavedMetrics(metrics, polls, reply, now)[id].enabled == metrics[id].enabled
  {
    hide MetricOutcome;
    if polls != [] {
      SavedMetricsKeepKeys(metrics, polls[..|polls| - 1], reply, now);
    }
  }

  /**
   * What a saved poll leaves of a metric it asked about: a number with its time, no number but a time when the
   * variable answered with something else, and otherwise the error beside what was there.
   */
  lemma {:induction false} SavedFields(metrics: map<nat, Metric>, polls: seq<MetricPoll>, reply: Reply, now: Time,
                                       id: nat)
    requires Increasing(polls) && id in metrics
    ensures id in SavedMetrics(metrics, polls, reply, now)
    ensures var m, n := metrics[id], SavedMetrics(metrics, polls, reply, now)[id];
            && ((forall i :: 0 <= i < |polls| ==> polls[i].id != id) ==> n == m)
            && (forall i :: 0 <= i < |polls| && polls[i].id == id ==>
                  match MetricOutcome(polls[i], reply)
                  case Produced(number) => n == Metric(m.enabled, Some(number), Some(now), false)
                  case Answered => n == Metric(m.enabled, None, Some(now), false)
                  case _ => n == Metric(m.enabled, m.lastNumber, m.lastCollectedAt, true))
  {
    hide MetricOutcome;
    if polls != [] {
      SavedFields(metrics, polls[..|polls| - 1], reply, now, id);
    }
  }

  /** Deleting a metric drops its rows, and retention those before its threshold; neither drops another row. */
  lemma {:induction false} DropsExactly(s: seq<MetricSample>, id: nat, threshold: Time, x: MetricSample)
    ensures multiset(Without(s, id))[x] == if x.metricId == id then 0 else multiset(s)[x]
    ensures multiset(Since(s, threshold))[x] == if x.collectedAt < threshold then 0 else multiset(s)[x]
  {
    if s != [] {
      DropsExactly(s[..|s| - 1], id, threshold, x);
      assert s == s[..|s| - 1] + [s[|s| - 1]];
    }
  }

  /** A list of distinct metrics is no longer than the table it was loaded from. */
  lemma {:induction false} LoadedFits(polls: seq<MetricPoll>, ids: set<nat>)
    requires Increasing(polls) && forall i :: 0 <= i < |polls| ==> polls[i].id in ids
    ensures |polls| <= |ids|
  {
    if polls != [] {
      var last := |polls| - 1;
      LoadedFits(polls[..last], ids - {polls[last].id});
    }
  }

  lemma TrimmedStaysSound(s: seq<MetricSample>, limit: nat)
    requires InOrder(s)
    ensures InOrder(Trimmed(s, limit)) && |Trimmed(s, limit)| <= limit
    ensures forall x :: x in Trimmed(s, limit) ==> x in s
  {
    TrimKeepsNewest(s, limit);
  }

  lemma AppendedInOrder(s: seq<MetricSample>, added: seq<MetricSample>, clock: Time, at: Time)
    requires InOrder(s) && clock <= at
    requires forall x :: x in s ==> x.collectedAt <= clock
    requires forall x :: x in added ==> x.collectedAt == at
    ensures InOrder(s + added)
  {
    forall i, j | 0 <= i < j < |s + added|
      ensures (s + added)[i].collectedAt <= (s + added)[j].collectedAt
    {
      if j >= |s| {
        assert (s + added)[j] in added;
        assert (s + added)[i] in s || (s + added)[i] in added;
      }
    }
  }

  lemma SaveKeepsSound(w: World, polls: seq<MetricPoll>, reply: Reply, at: Time)
    requires Sound(w) && at > w.clock
    ensures Sound(Saved(w, polls, reply, at))
  {
    hide Trimmed, InOrder, MetricOutcome, NewSamples, SavedMetrics, SampleLimit;
    var added := NewSamples(w.metrics.Keys, polls, reply, at);
    AppendedInOrder(w.samples, added, w.clock, at);
    TrimmedStaysSound(w.samples + added, SampleLimit(w.setting));
    SavedMetricsKeepKeys(w.metrics, polls, reply, at);
  }

  lemma AddKeepsSound(w: World, id: nat, enabled: bool)
    requires Sound(w)
    ensures Sound(Next(w, AddMetric(id, enabled)))
  {
    hide InOrder, SampleLimit, Increasing;
    assert (w.metrics[id := Metric(enabled, None, None, false)]).Keys == w.metrics.Keys + {id};
  }

  lemma DeleteKeepsSound(w: World, id: nat)
    requires Sound(w)
    ensures Sound(Next(w, DeleteMetric(id)))
  {
    hide InOrder, Without, SampleLimit, Increasing;
    WithoutInOrder(w.samples, id);
    assert (w.metrics - {id}).Keys == w.metrics.Keys - {id};
  }

  lemma EditKeepsSound(w: World, id: nat, enabled: bool)
    requires Sound(w)
    ensures Sound(Next(w, EditMetric(id, enabled)))
  {
    hide InOrder, SampleLimit, Increasing;
    assert id in w.metrics ==> Next(w, EditMetric(id, enabled)).metrics.Keys == w.metrics.Keys;
  }

  lemma PrepareKeepsSound(w: World, polls: seq<MetricPoll>)
    requires Sound(w)
    ensures Sound(Next(w, Prepare(polls)))
  {
    hide InOrder, SampleLimit, Increasing;
    if Loads(polls, w.metrics) {
      LoadedFits(polls, w.metrics.Keys);
    }
  }

  lemma SampleStepKeepsSound(w: World, step: Step)
    requires Sound(w) && (step.ChangeLimit? || step.Retain? || step.ClearData?)
    ensures Sound(Next(w, step))
  {
    hide Trimmed, InOrder, Since, SampleLimit, Increasing;
    match step
    case ChangeLimit(setting) => TrimmedStaysSound(w.samples, SampleLimit(setting));
    case Retain(threshold) => SinceInOrder(w.samples, threshold);
    case ClearData =>
      assert Next(w, step).metrics.Keys == w.metrics.Keys;
      NothingInOrder();
  }

  lemma StepKeepsSound(w: World, step: Step)
    requires Sound(w)
    ensures Sound(Next(w, step))
  {
    hide Next, Sound;
    match step
    case AddMetric(id, enabled) => AddKeepsSound(w, id, enabled);
    case EditMetric(id, enabled) => EditKeepsSound(w, id, enabled);
    case DeleteMetric(id) => DeleteKeepsSound(w, id);
    case Prepare(polls) => PrepareKeepsSound(w, polls);
    case Save(reply, at) => SaveStepKeepsSound(w, reply, at);
    case _ => SampleStepKeepsSound(w, step);
  }

  lemma SaveStepKeepsSound(w: World, reply: Reply, at: Time)
    requires Sound(w)
    ensures Sound(Next(w, Save(reply, at)))
  {
    hide InOrder, Saved, Increasing;
    if w.pending.Some? && at > w.clock {
      SaveKeepsSound(w, w.pending.value, reply, at);
    }
  }

  lemma NothingInOrder()
    ensures InOrder([])
  {
  }

  /** In every state a run reaches, the history is in order, within its cap, and belongs to existing metrics. */
  lemma {:induction false} RunSound(steps: seq<Step>, setting: Option<Option<int>>)
    ensures Sound(Run(steps, setting))
  {
    hide Next;
    if steps != [] {
      RunSound(steps[..|steps| - 1], setting);
      StepKeepsSound(Run(steps[..|steps| - 1], setting), steps[|steps| - 1]);
    }
  }

  // ---------------------------------------------------------------- the poll just saved

  /**
   * The cap never drops a row of the poll being saved: what it drops is the oldest part of the
   * history before that poll, and no more than the cap requires.
   */
  lemma CapSparesCurrentPoll(w: World, reply: Reply, at: Time)
    requires Sound(w) && w.pending.Some? && at > w.clock
    ensures var added := NewSamples(w.metrics.Keys, w.pending.value, reply, at);
            var limit := SampleLimit(w.setting);
            |added| <= MAX_METRICS <= limit
            && Next(w, Save(reply, at)).samples == w.samples[Max(0, |w.samples| + |added| - limit)..] + added
  {
    hide Trimmed, InOrder, MetricOutcome, SavedMetrics, NewSamples;
    var added := NewSamples(w.metrics.Keys, w.pending.value, reply, at);
    AppendedInOrder(w.samples, added, w.clock, at);
    TrimKeepsNewest(w.samples + added, SampleLimit(w.setting));
  }

  /** The number the poll produced for a metric, if it did. */
  function ProducedFor(polls: seq<MetricPoll>, reply: Reply, id: nat): Option<real> {
    if polls == [] then None
    else
      var last := polls[|polls| - 1];
      if last.id == id && MetricOutcome(last, reply).Produced? then Some(MetricOutcome(last, reply).number)
      else ProducedFor(polls[..|polls| - 1], reply, id)
  }

  lemma {:induction false} ProducedForUnlisted(polls: seq<MetricPoll>, reply: Reply, id: nat)
    requires forall i :: 0 <= i < |polls| ==> polls[i].id != id
    ensures ProducedFor(polls, reply, id).None?
  {
    if polls != [] {
      ProducedForUnlisted(polls[..|polls| - 1], reply, id);
    }
  }

  /** Each metric is asked about once, so its own outcome decides. */
  lemma {:induction false} ProducedForListed(polls: seq<MetricPoll>, reply: Reply, i: nat)
    requires Increasing(polls) && i < |polls|
    ensures var outcome := MetricOutcome(polls[i], reply);
            ProducedFor(polls, reply, polls[i].id) == if outcome.Produced? then Some(outcome.number) else None
  {
    hide MetricOutcome;
    var last := |polls| - 1;
    if i < last {
      ProducedForListed(polls[..last], reply, i);
    } else {
      ProducedForUnlisted(polls[..last], reply, polls[i].id);
    }
  }

  lemma {:induction false} NewestAfterPoll(s: seq<MetricSample>, known: set<nat>, polls: seq<MetricPoll>, reply: Reply,
                                           now: Time, id: nat)
    requires id in known && forall x :: x in s ==> x.collectedAt <= now
    ensures var produced := ProducedFor(polls, reply, id);
            NewestOf(s + NewSamples(known, polls, reply, now), id)
            == if produced.Some? then Some(MetricSample(id, now, produced.value)) else NewestOf(s, id)
  {
    hide MetricOutcome;
    if polls == [] {
      assert s + NewSamples(known, polls, reply, now) == s;
    } else {
      var before, added := NewSamples(known, polls[..|polls| - 1], reply, now), NewSamples(known, polls, reply, now);
      NewestAfterPoll(s, known, polls[..|polls| - 1], reply, now, id);
      if added != before {
        assert (s + added)[..|s + added| - 1] == s + before;
        assert (s + added)[|s + added| - 1] == added[|added| - 1];
      }
    }
  }

  lemma {:induction false} NewestIsOld(s: seq<MetricSample>, id: nat, clock: Time)
    requires forall x :: x in s ==> x.collectedAt <= clock
    ensures NewestOf(s, id).Some? ==> NewestOf(s, id).value.collectedAt <= clock
  {
  }

  /**
   * Right after a poll is saved, a metric's threshold gets a value exactly when the metric is still
   * there, is enabled, and this very poll produced a number for it; the value is that number.
   */
  lemma ThresholdSeesThisPoll(w: World, reply: Reply, at: Time, id: nat)
    requires Sound(w) && w.pending.Some? && at > w.clock
    ensures var after := Next(w, Save(reply, at));
            MetricReading(after.metrics, after.samples, id, at)
            == if id in w.metrics && w.metrics[id].enabled then ProducedFor(w.pending.value, reply, id) else None
  {
    hide Trimmed, InOrder, MetricOutcome, SavedMetrics, NewSamples, SampleLimit, ProducedFor, NewestOf;
    CapSparesCurrentPoll(w, reply, at);
    SavedMetricsKeepKeys(w.metrics, w.pending.value, reply, at);
    if id in w.metrics {
      var added := NewSamples(w.metrics.Keys, w.pending.value, reply, at);
      var d := Max(0, |w.samples| + |added| - SampleLimit(w.setting));
      var rest := w.samples[d..];
      assert forall x :: x in rest ==> x in w.samples;
      NewestAfterPoll(rest, w.metrics.Keys, w.pending.value, reply, at, id);
      NewestIsOld(rest, id, w.clock);
    }
  }

  /** The same over every run. */
  lemma ThresholdSeesThisPollInRuns(steps: seq<Step>, setting: Option<Option<int>>, reply: Reply, at: Time, i: nat)
    requires var w := Run(steps, setting); w.pending.Some? && at > w.clock && i < |w.pending.value|
    ensures var w := Run(steps, setting);
            var after, poll := Next(w, Save(reply, at)), w.pending.value[i];
            var outcome := MetricOutcome(poll, reply);
            MetricReading(after.metrics, after.samples, poll.id, at)
            == if poll.id in w.metrics && w.metrics[poll.id].enabled && outcome.Produced? then Some(outcome.number)
               else None
  {
    hide Run, Next, MetricOutcome, MetricReading;
    RunSound(steps, setting);
    var w := Run(steps, setting);
    ThresholdSeesThisPoll(w, reply, at, w.pending.value[i].id);
    ProducedForListed(w.pending.value, reply, i);
  }
}
