/**
 * The history of numeric metrics of one target: what a poll appends, what the cap on its size drops,
 * and what a metric threshold reads back.
 */
module MetricSamples {
  import opened Basics
  import opened InterfaceTraffic
  import opened PollRequests

  const MAX_METRICS: nat := 32
  const DEFAULT_SAMPLE_LIMIT: nat := 1000
  const MIN_SAMPLE_LIMIT: int := 100
  const MAX_SAMPLE_LIMIT: int := 100_000

  /** The stored cap; `setting` is absent, or text that is a number or not. */
  function SampleLimit(setting: Option<Option<int>>): (limit: nat)
    ensures MIN_SAMPLE_LIMIT <= limit <= MAX_SAMPLE_LIMIT
    ensures setting.Some? && setting.value.Some? && MIN_SAMPLE_LIMIT <= setting.value.value <= MAX_SAMPLE_LIMIT
            ==> limit == setting.value.value
  {
    if setting.None? || setting.value.None? || !(MIN_SAMPLE_LIMIT <= setting.value.value <= MAX_SAMPLE_LIMIT)
    then DEFAULT_SAMPLE_LIMIT
    else setting.value.value
  }

  datatype Metric = Metric(enabled: bool, lastNumber: Option<real>, lastCollectedAt: Option<Time>, lastError: bool)

  /** Rows in insertion order, which is the order of their ids. */
  datatype MetricSample = MetricSample(metricId: nat, collectedAt: Time, value: real)

  // ---------------------------------------------------------------- saving a poll

  function SavedMetric(m: Metric, outcome: Outcome, now: Time): Metric {
    match outcome
    case Produced(number) => m.(lastNumber := Some(number), lastCollectedAt := Some(now), lastError := false)
    case Answered => m.(lastNumber := None, lastCollectedAt := Some(now), lastError := false)
    case _ => m.(lastError := true)
  }

  function SavedMetrics(metrics: map<nat, Metric>, polls: seq<MetricPoll>, reply: Reply, now: Time): map<nat, Metric> {
    if polls == [] then metrics
    else
      var before := SavedMetrics(metrics, polls[..|polls| - 1], reply, now);
      var last := polls[|polls| - 1];
      if last.id !in before then before
      else before[last.id := SavedMetric(before[last.id], MetricOutcome(last, reply), now)]
  }

  /** The samples a poll adds: one for each metric that still exists and got a number. */
  function NewSamples(known: set<nat>, polls: seq<MetricPoll>, reply: Reply, now: Time): (r: seq<MetricSample>)
    ensures |r| <= |polls|
    ensures forall s :: s in r ==> s.collectedAt == now && s.metricId in known
  {
    if polls == [] then []
    else
      var before := NewSamples(known, polls[..|polls| - 1], reply, now);
      var last := polls[|polls| - 1];
      var outcome := MetricOutcome(last, reply);
      if last.id !in known || !outcome.Produced? then before else before + [MetricSample(last.id, now, outcome.number)]
  }

  // ---------------------------------------------------------------- the cap

  /** Row `i` comes before row `j` when the newest come first. */
  predicate Newer(s: seq<MetricSample>, i: int, j: int)
    requires 0 <= i < |s| && 0 <= j < |s|
  {
    s[i].collectedAt > s[j].collectedAt || (s[i].collectedAt == s[j].collectedAt && i > j)
  }

  function NewerThan(s: seq<MetricSample>, j: int): set<int>
    requires 0 <= j < |s|
  {
    set i | 0 <= i < |s| && Newer(s, i, j)
  }

  predicate Kept(s: seq<MetricSample>, limit: nat, j: int)
    requires 0 <= j < |s|
  {
    |NewerThan(s, j)| < limit
  }

  function KeptFrom(s: seq<MetricSample>, limit: nat, j: nat): seq<MetricSample>
    requires j <= |s|
    decreases |s| - j
  {
    if j == |s| then [] else (if Kept(s, limit, j) then [s[j]] else []) + KeptFrom(s, limit, j + 1)
  }

  /** The rows with fewer than `limit` newer ones, in their order. */
  function Trimmed(s: seq<MetricSample>, limit: nat): seq<MetricSample> {
    KeptFrom(s, limit, 0)
  }

  lemma NewerRanksLower(s: seq<MetricSample>, i: int, j: int)
    requires 0 <= i < |s| && 0 <= j < |s| && Newer(s, i, j)
    ensures |NewerThan(s, i)| < |NewerThan(s, j)|
  {
    var a, b := NewerThan(s, i), NewerThan(s, j);
    assert i in b && i !in a;
    assert b == a + {i} + (b - a - {i});
  }

  /** Whatever the order of the rows, a dropped row is older than every kept one. */
  lemma TrimDropsOnlyOlder(s: seq<MetricSample>, limit: nat, kept: int, dropped: int)
    requires 0 <= kept < |s| && 0 <= dropped < |s| && Kept(s, limit, kept) && !Kept(s, limit, dropped)
    ensures Newer(s, kept, dropped)
  {
    if Newer(s, dropped, kept) {
      NewerRanksLower(s, dropped, kept);
    }
  }

  predicate InOrder(s: seq<MetricSample>) {
    forall i, j :: 0 <= i < j < |s| ==> s[i].collectedAt <= s[j].collectedAt
  }

  function Interval(low: int, high: int): (r: set<int>)
    requires low <= high
    ensures |r| == high - low
    ensures forall i :: i in r <==> low <= i < high
    decreases high - low
  {
    if low == high then {} else Interval(low, high - 1) + {high - 1}
  }

  lemma RankInOrder(s: seq<MetricSample>, j: int)
    requires InOrder(s) && 0 <= j < |s|
    ensures |NewerThan(s, j)| == |s| - 1 - j
  {
    assert NewerThan(s, j) == Interval(j + 1, |s|);
  }

  lemma {:induction false} KeptSuffix(s: seq<MetricSample>, limit: nat, j: nat)
    requires InOrder(s) && j <= |s|
    ensures KeptFrom(s, limit, j) == s[Max(j, |s| - limit)..]
    decreases |s| - j
  {
    if j < |s| {
      KeptSuffix(s, limit, j + 1);
      RankInOrder(s, j);
      if |s| - limit <= j {
        assert [s[j]] + s[j + 1..] == s[j..];
      }
    }
  }

  /** Rows in order of time: the cap keeps exactly the newest ones. */
  lemma TrimKeepsNewest(s: seq<MetricSample>, limit: nat)
    requires InOrder(s)
    ensures Trimmed(s, limit) == s[Max(0, |s| - limit)..]
  {
    KeptSuffix(s, limit, 0);
  }

  // ---------------------------------------------------------------- the threshold's view

  /** The newest row of a metric. */
  function NewestOf(s: seq<MetricSample>, id: nat): (r: Option<MetricSample>)
    ensures r.Some? ==> r.value in s && r.value.metricId == id
  {
    if s == [] then None
    else
      var before := NewestOf(s[..|s| - 1], id);
      var last := s[|s| - 1];
      if last.metricId == id && (before.None? || before.value.collectedAt <= last.collectedAt) then Some(last)
        else before
  }

  /** What a metric threshold gets from the observation made at `observedAt`. */
  function MetricReading(metrics: map<nat, Metric>, s: seq<MetricSample>, id: nat, observedAt: Time): Option<real> {
    if id !in metrics || !metrics[id].enabled then None
    else
      var newest := NewestOf(s, id);
      if newest.None? || newest.value.collectedAt != observedAt then None else Some(newest.value.value)
  }

  // ---------------------------------------------------------------- the tables of one target

  class MetricTable {
    var metrics: map<nat, Metric>
    var samples: seq<MetricSample>

    /** Stores a reply for the metrics the request was prepared with; metrics deleted since are skipped. */
    method SavePoll(polls: seq<MetricPoll>, reply: Reply, now: Time, setting: Option<Option<int>>)
      modifies this
      ensures metrics == SavedMetrics(old(metrics), polls, reply, now)
      ensures samples == Trimmed(old(samples) + NewSamples(old(metrics).Keys, polls, reply, now), SampleLimit(setting))
    {
      for i := 0 to |polls|
        invariant metrics == SavedMetrics(old(metrics), polls[..i], reply, now)
        invariant metrics.Keys == old(metrics).Keys
        invariant samples == old(samples) + NewSamples(old(metrics).Keys, polls[..i], reply, now)
      {
        assert polls[..i + 1][..i] == polls[..i];
        var poll := polls[i];
        if poll.id in metrics {
          var outcome := MetricOutcome(poll, reply);
          metrics := metrics[poll.id := SavedMetric(metrics[poll.id], outcome, now)];
          if outcome.Produced? {
            samples := samples + [MetricSample(poll.id, now, outcome.number)];
          }
        }
      }
      assert polls[..|polls|] == polls;
      Trim(setting);
    }

    method Trim(setting: Option<Option<int>>)
      modifies this`samples
      ensures samples == Trimmed(old(samples), SampleLimit(setting))
    {
      samples := Trimmed(samples, SampleLimit(setting));
    }
  }
}
