/**
 * Whole runs of one interface: polls (prepared, then saved), discoveries, selections, clearing and
 * retention in any order.  Polls of a target never overlap, so at most one is in flight; everything
 * else may happen between its preparation and its save.
 */
module TrafficRuns {
  import opened Basics
  import opened CounterRates
  import opened InterfaceTraffic
  import opened TrafficRates

  /** A prepared poll: the counter mode it was built with, and the generation of the name it will measure under. */
  datatype Flight = Flight(mode: Option<CounterMode>, generation: nat)

  /**
   * What a sample was made of.  `epoch` counts the discontinuities so far, `generation` the changes of
   * name before the poll that read the counters, `base` is the time of the baseline its rates came from.
   */
  datatype Origin = Origin(
    baseline: Baseline,
    epoch: nat,
    generation: nat,
    base: Option<Time>,
    speed: Option<int>)

  /**
   * An interface with what the proofs remember about it.  `known` is the last name it was found under,
   * which outlives a discovery without a name; `generation` counts how often another one was found.
   */
  datatype Life = Life(
    port: Port,
    known: string,
    flight: Option<Flight>,
    clock: Time,
    origins: seq<Origin>,
    epoch: nat,
    generation: nat,
    baseGeneration: nat)

  datatype Step =
    | Prepare
    | Save(reply: Reply, uptime: Option<int>, now: Time)
    | Abandon
    | Discover(found: Option<Found>)
    | Select(enabled: bool)
    | ClearAll
    | Retain(threshold: Time)

  predicate CounterError(reply: Reply, ifIndex: nat, mode: Option<CounterMode>) {
    BuildSnapshot(reply, ifIndex, mode).counters.None?
  }

  /** A save at a later time than every one before it; the clock strictly increases. */
  function Saved(l: Life, ifIndex: nat, reply: Reply, uptime: Option<int>, now: Time): Life
    requires l.flight.Some?
  {
    var flight := l.flight.value;
    var before, after := l.port, Polled(l.port, reply, ifIndex, flight.mode, uptime, now);
    var landed := l.(port := after, flight := None, clock := now);
    if !StatusAnswered(reply, ifIndex) then landed
    else if CounterError(reply, ifIndex, flight.mode) then landed.(epoch := l.epoch + 1)
    else
      var b := before.interface.baseline;
      var broken := b.mode.Some? && (b.mode != after.interface.baseline.mode || Rebooted(b.uptime, uptime));
      var epoch := if broken then l.epoch + 1 else l.epoch;
      landed.(epoch := epoch, baseGeneration := flight.generation,
              origins := l.origins + [Origin(after.interface.baseline, epoch, flight.generation,
                                             if after.interface.rx.Some? then b.at else None, before.interface.speed)])
  }

  function DroppedBefore(log: seq<Sample>, origins: seq<Origin>, threshold: Time): (r: seq<Origin>)
    requires |log| == |origins|
    ensures |r| == |Retained(log, threshold)|
  {
    if log == [] then []
    else
      var rest := DroppedBefore(log[..|log| - 1], origins[..|log| - 1], threshold);
      if log[|log| - 1].collectedAt >= threshold then rest + [origins[|log| - 1]] else rest
  }

  /** The interface is found under another name than it last had, whether or not the portal notices. */
  predicate Renamed(l: Life, found: Found) {
    l.known != "" && found.identity != "" && found.identity != l.known
  }

  function Next(l: Life, ifIndex: nat, step: Step): Life
    requires |l.origins| == |l.port.log|
    ensures |Next(l, ifIndex, step).origins| == |Next(l, ifIndex, step).port.log|
  {
    var i := l.port.interface;
    match step
    case Prepare =>
      if i.monitorEnabled && i.present && l.flight.None? then l.(flight := Some(Flight(i.baseline.mode, l.generation)))
        else l
    case Save(reply, uptime, now) =>
      if l.flight.Some? && now > l.clock then Saved(l, ifIndex, reply, uptime, now) else l
    case Abandon => l.(flight := None)
    case Discover(found) =>
      if found.None? then l.(port := Missed(l.port), epoch := l.epoch + 1)
      else
        var f := found.value;
        var changed := IdentityChanged(i, f);
        l.(port := Discovered(l.port, f), known := if f.identity != "" then f.identity else l.known,
           origins := if changed then [] else l.origins, epoch := if changed then l.epoch + 1 else l.epoch,
           generation := if Renamed(l, f) then l.generation + 1 else l.generation)
    case Select(enabled) =>
      if i.monitorEnabled == enabled then l else l.(port := Selected(l.port, enabled), epoch := l.epoch + 1)
    case ClearAll => l.(port := Cleared(l.port), origins := [], epoch := l.epoch + 1)
    case Retain(threshold) =>
      l.(port := l.port.(log := Retained(l.port.log, threshold)),
         origins := DroppedBefore(l.port.log, l.origins, threshold))
  }

  function Run(ifIndex: nat, steps: seq<Step>): (l: Life)
    ensures |l.origins| == |l.port.log|
  {
    if steps == [] then Life(Port(NEW_INTERFACE, []), "", None, 0, [], 0, 0, 0)
    else Next(Run(ifIndex, steps[..|steps| - 1]), ifIndex, steps[|steps| - 1])
  }

  // ---------------------------------------------------------------- what every run keeps

  /** A baseline is whole or absent. */
  predicate WholeBaseline(b: Baseline) {
    && (b.mode.Some? <==> b.inOctets.Some?) && (b.mode.Some? <==> b.outOctets.Some?) && (b.mode.Some? <==> b.at.Some?)
    && (b.uptime.Some? ==> b.mode.Some?)
  }

  /** ... and rates come in pairs and only with a baseline. */
  predicate Whole(i: Interface) {
    && WholeBaseline(i.baseline)
    && (i.rx.Some? <==> i.tx.Some?)
    && (i.rx.Some? ==> i.baseline.mode.Some?)
  }

  /** A poll in flight was built with the mode of the baseline that still stands. */
  predicate FlightKeepsMode(l: Life) {
    l.flight.Some? && l.port.interface.baseline.mode.Some? ==>
      l.flight.value.mode == l.port.interface.baseline.mode && l.port.interface.monitorEnabled
  }

  /** The newest sample is the baseline, unless the log is empty. */
  predicate Aligned(l: Life)
    requires |l.origins| == |l.port.log|
  {
    var b, n := l.port.interface.baseline, |l.port.log|;
    b.mode.Some? && n > 0 ==>
      && b.at == Some(l.port.log[n - 1].collectedAt)
      && l.port.interface.rx == l.port.log[n - 1].rx && l.port.interface.tx == l.port.log[n - 1].tx
      && l.origins[n - 1].baseline == b
      && l.origins[n - 1].epoch == l.epoch
      && l.origins[n - 1].generation == l.baseGeneration
  }

  predicate InTime(l: Life) {
    && (l.port.interface.baseline.at.Some? ==> l.port.interface.baseline.at.value <= l.clock)
    && (forall j :: 0 <= j < |l.port.log| ==> l.port.log[j].collectedAt <= l.clock)
    && Ascending(l.port.log)
  }

  /** The rates of a sample are those the two whole readings give: in one mode, forward in time. */
  predicate RatesBetween(from: Baseline, to: Baseline, speed: Option<int>, rx: Option<int>, tx: Option<int>)
    requires WholeBaseline(from) && WholeBaseline(to) && from.mode.Some? && to.mode.Some?
  {
    RatesGiven(from, to, speed) && rx == Some(InRate(from, to)) && tx == Some(OutRate(from, to))
  }

  /** Sample `j` and its predecessor, if the log still has it. */
  predicate Linked(log: seq<Sample>, origins: seq<Origin>, j: nat)
    requires |origins| == |log| && j < |log|
  {
    var o := origins[j];
    && WholeBaseline(o.baseline) && o.baseline.at == Some(log[j].collectedAt)
    && (log[j].rx.Some? <==> log[j].tx.Some?) && (log[j].rx.Some? <==> o.base.Some?)
    && (j > 0 && log[j].rx.Some? ==>
          && o.base == Some(log[j - 1].collectedAt)
          && o.epoch == origins[j - 1].epoch
          && WholeBaseline(origins[j - 1].baseline) && origins[j - 1].baseline.mode.Some?
          && RatesBetween(origins[j - 1].baseline, o.baseline, o.speed, log[j].rx, log[j].tx))
  }

  predicate Sound(l: Life) {
    && |l.origins| == |l.port.log|
    && (l.port.interface.identity != "" ==> l.port.interface.identity == l.known)
    && Whole(l.port.interface) && FlightKeepsMode(l) && Aligned(l) && InTime(l)
    && forall j :: 0 <= j < |l.port.log| ==> Linked(l.port.log, l.origins, j)
  }

  // ---------------------------------------------------------------- saving a poll

  /** What rates say about the two readings they come from. */
  lemma RatesSinceSound(b: Baseline, c: Counters, uptime: Option<int>, speed: Option<int>, now: Time)
    requires WholeBaseline(b)
    ensures var r := RatesSince(b, c, uptime, speed, now);
            var to := Baseline(Some(c.mode), Some(c.inOctets), Some(c.outOctets), Some(now), uptime);
            && (r.rx.Some? ==> b.mode == Some(c.mode) && !Rebooted(b.uptime, uptime))
            && (r.rx.Some? ==> RatesBetween(b, to, speed, r.rx, r.tx))
  {
    hide RatesSince, InRate, OutRate;
    NoBaselineNoRates(b, c, uptime, speed, now);
    if b.mode.Some? {
      RatesSinceExactly(b, c, uptime, speed, now);
    }
  }

  lemma SaveKeepsSound(l: Life, ifIndex: nat, reply: Reply, uptime: Option<int>, now: Time)
    requires Sound(l) && l.flight.Some? && now > l.clock
    ensures Sound(Saved(l, ifIndex, reply, uptime, now))
  {
    hide BuildSnapshot, RatesSince, RatesBetween;
    var after := Saved(l, ifIndex, reply, uptime, now);
    if StatusAnswered(reply, ifIndex) && !CounterError(reply, ifIndex, l.flight.value.mode) {
      var b, n := l.port.interface.baseline, |l.port.log|;
      var c := BuildSnapshot(reply, ifIndex, l.flight.value.mode).counters.value;
      RatesSinceSound(b, c, uptime, l.port.interface.speed, now);
      forall j | 0 <= j < |after.port.log| ensures Linked(after.port.log, after.origins, j) {
        if j < n {
          assert Linked(l.port.log, l.origins, j);
        }
      }
    }
  }

  // ---------------------------------------------------------------- everything else

  predicate Ascending(log: seq<Sample>) {
    forall j, k :: 0 <= j < k < |log| ==> log[j].collectedAt < log[k].collectedAt
  }

  lemma {:induction false} RetainedNone(log: seq<Sample>, origins: seq<Origin>, threshold: Time)
    requires |log| == |origins| && forall j :: 0 <= j < |log| ==> log[j].collectedAt < threshold
    ensures Retained(log, threshold) == [] && DroppedBefore(log, origins, threshold) == []
  {
    if log != [] {
      RetainedNone(log[..|log| - 1], origins[..|log| - 1], threshold);
    }
  }

  lemma TailAppend<T>(s: seq<T>, n: nat)
    requires n < |s|
    ensures s[n..] == s[..|s| - 1][n..] + [s[|s| - 1]]
  {
  }

  /** Of an ascending log, retention keeps a tail, and the origins with it. */
  lemma {:induction false} RetainedTail(log: seq<Sample>, origins: seq<Origin>, threshold: Time)
    requires |log| == |origins| && Ascending(log)
    ensures var n := |log| - |Retained(log, threshold)|;
            Retained(log, threshold) == log[n..] && DroppedBefore(log, origins, threshold) == origins[n..]
  {
    if log != [] {
      var last := |log| - 1;
      if log[last].collectedAt < threshold {
        RetainedNone(log, origins, threshold);
      } else {
        RetainedTail(log[..last], origins[..last], threshold);
        var n := last - |Retained(log[..last], threshold)|;
        TailAppend(log, n);
        TailAppend(origins, n);
      }
    }
  }

  lemma RetainKeepsSound(l: Life, ifIndex: nat, threshold: Time)
    requires Sound(l)
    ensures Sound(Next(l, ifIndex, Retain(threshold)))
  {
    hide Linked;
    var after := Next(l, ifIndex, Retain(threshold));
    RetainedTail(l.port.log, l.origins, threshold);
    var n := |l.port.log| - |after.port.log|;
    assert after.port.log == l.port.log[n..] && after.origins == l.origins[n..];
    assert after.port.log != [] ==> after.port.log[|after.port.log| - 1] == l.port.log[|l.port.log| - 1]
                                    && after.origins[|after.port.log| - 1] == l.origins[|l.port.log| - 1];
    forall j | 0 <= j < |after.port.log| ensures Linked(after.port.log, after.origins, j) {
      LinkedInTail(l.port.log, l.origins, n, j);
    }
  }

  lemma LinkedInTail(log: seq<Sample>, origins: seq<Origin>, n: nat, j: nat)
    requires |log| == |origins| && n + j < |log| && Linked(log, origins, n + j)
    ensures Linked(log[n..], origins[n..], j)
  {
  }

  lemma DiscoverKeepsSound(l: Life, ifIndex: nat, found: Option<Found>)
    requires Sound(l)
    ensures Sound(Next(l, ifIndex, Discover(found)))
  {
    hide Linked, IdentityChanged, Sound;
    if found.None? {
      MissingKeepsSound(l, ifIndex);
    } else {
      FoundKeepsSound(l, ifIndex, found.value);
    }
  }

  lemma MissingKeepsSound(l: Life, ifIndex: nat)
    requires Sound(l)
    ensures Sound(Next(l, ifIndex, Discover(None)))
  {
    hide Linked, IdentityChanged;
    assert forall j :: 0 <= j < |l.port.log| ==> Linked(l.port.log, l.origins, j);
  }

  lemma FoundKeepsSound(l: Life, ifIndex: nat, found: Found)
    requires Sound(l)
    ensures Sound(Next(l, ifIndex, Discover(Some(found))))
  {
    hide Linked, IdentityChanged, Ascending, Sound;
    if IdentityChanged(l.port.interface, found) {
      ChangedKeepsSound(l, ifIndex, found);
    } else {
      SameKeepsSound(l, ifIndex, found);
    }
  }

  lemma ChangedKeepsSound(l: Life, ifIndex: nat, found: Found)
    requires Sound(l) && IdentityChanged(l.port.interface, found)
    ensures Sound(Next(l, ifIndex, Discover(Some(found))))
  {
    hide Linked, IdentityChanged;
  }

  lemma SameKeepsSound(l: Life, ifIndex: nat, found: Found)
    requires Sound(l) && !IdentityChanged(l.port.interface, found)
    ensures Sound(Next(l, ifIndex, Discover(Some(found))))
  {
    hide Linked, IdentityChanged, Ascending;
    assert forall j :: 0 <= j < |l.port.log| ==> Linked(l.port.log, l.origins, j);
  }

  lemma SelectKeepsSound(l: Life, ifIndex: nat, enabled: bool)
    requires Sound(l)
    ensures Sound(Next(l, ifIndex, Select(enabled)))
  {
    hide Linked;
    assert forall j :: 0 <= j < |l.port.log| ==> Linked(l.port.log, l.origins, j);
  }

  lemma FlightKeepsSound(l: Life, ifIndex: nat, step: Step)
    requires Sound(l) && (step.Prepare? || step.Abandon? || step.ClearAll?)
    ensures Sound(Next(l, ifIndex, step))
  {
    hide Linked;
    assert forall j :: 0 <= j < |l.port.log| ==> Linked(l.port.log, l.origins, j);
  }

  lemma StepKeepsSound(l: Life, ifIndex: nat, step: Step)
    requires Sound(l)
    ensures Sound(Next(l, ifIndex, step))
  {
    hide Sound, Saved, Missed, Discovered, Selected, Cleared, Retained, DroppedBefore;
    match step
    case Save(reply, uptime, now) =>
      if l.flight.Some? && now > l.clock {
        SaveKeepsSound(l, ifIndex, reply, uptime, now);
      }
    case Retain(threshold) => RetainKeepsSound(l, ifIndex, threshold);
    case Discover(found) => DiscoverKeepsSound(l, ifIndex, found);
    case Select(enabled) => SelectKeepsSound(l, ifIndex, enabled);
    case _ => FlightKeepsSound(l, ifIndex, step);
  }

  lemma {:induction false} RunSound(ifIndex: nat, steps: seq<Step>)
    ensures Sound(Run(ifIndex, steps))
  {
    if steps != [] {
      RunSound(ifIndex, steps[..|steps| - 1]);
      StepKeepsSound(Run(ifIndex, steps[..|steps| - 1]), ifIndex, steps[|steps| - 1]);
    }
  }

  // ---------------------------------------------------------------- what follows

  /**
   * An interface that holds a baseline has an empty log or a newest sample taken at the baseline; and
   * mode, counters and time of a baseline, like the two rates, are there together or not at all.
   */
  lemma NewestSampleIsBaseline(ifIndex: nat, steps: seq<Step>)
    ensures var p := Run(ifIndex, steps).port;
            && Whole(p.interface)
            && (p.interface.baseline.mode.Some? && p.log != [] ==>
                  && p.interface.baseline.at == Some(p.log[|p.log| - 1].collectedAt)
                  && p.interface.rx == p.log[|p.log| - 1].rx && p.interface.tx == p.log[|p.log| - 1].tx)
  {
    RunSound(ifIndex, steps);
  }

  /**
   * A sample with rates that still has a predecessor got them from exactly that predecessor's reading,
   * in the same counter mode, forward in time and without a detected reboot or any other break between.
   */
  lemma RatesComeFromPredecessor(ifIndex: nat, steps: seq<Step>, j: nat)
    requires 0 < j < |Run(ifIndex, steps).port.log| && Run(ifIndex, steps).port.log[j].rx.Some?
    ensures var l := Run(ifIndex, steps);
            var from, to := l.origins[j - 1], l.origins[j];
            && WholeBaseline(from.baseline) && WholeBaseline(to.baseline)
            && from.baseline.at == Some(l.port.log[j - 1].collectedAt) == to.base
            && to.baseline.at == Some(l.port.log[j].collectedAt)
            && to.epoch == from.epoch
            && from.baseline.mode.Some? && to.baseline.mode.Some?
            && RatesBetween(from.baseline, to.baseline, to.speed, l.port.log[j].rx, l.port.log[j].tx)
  {
    RunSound(ifIndex, steps);
    var l := Run(ifIndex, steps);
    assert Linked(l.port.log, l.origins, j) && Linked(l.port.log, l.origins, j - 1);
  }

  /** A counter never switches its mode but through a cleared baseline. */
  lemma ModeSwitchesOnlyWhenCleared(ifIndex: nat, steps: seq<Step>, step: Step)
    ensures var before := Run(ifIndex, steps);
            var after := Next(before, ifIndex, step);
            before.port.interface.baseline.mode.Some? && after.port.interface.baseline.mode.Some? ==>
              after.port.interface.baseline.mode == before.port.interface.baseline.mode
  {
    RunSound(ifIndex, steps);
  }

  /** An error or discard delta a threshold sees lies between two samples with no break between them. */
  lemma DeltaSpansNoBreak(ifIndex: nat, steps: seq<Step>, field: Field, observedAt: Time)
    requires field.ErrorsDelta? || field.DiscardsDelta?
    requires InterfaceReading(Run(ifIndex, steps).port, field, observedAt).Some?
    ensures var l := Run(ifIndex, steps);
            var n := |l.port.log|;
            && n >= 2
            && l.origins[n - 2].epoch == l.origins[n - 1].epoch
            && l.origins[n - 1].base == Some(l.port.log[n - 2].collectedAt)
            && var now, was := StatTotal(l.port.log[n - 1].stats, field), StatTotal(l.port.log[n - 2].stats, field);
               now.Some? && was.Some?
                 && InterfaceReading(l.port, field, observedAt) == Some((now.value - was.value) as real)
  {
    hide Run, RatesBetween;
    RunSound(ifIndex, steps);
    var l := Run(ifIndex, steps);
    assert Linked(l.port.log, l.origins, |l.port.log| - 1);
  }

  // ---------------------------------------------------------------- one device or two

  /** The baseline of a monitored interface was read under its present name. */
  predicate OfThisDevice(l: Life) {
    l.port.interface.baseline.mode.Some? && l.port.interface.monitorEnabled ==> l.baseGeneration == l.generation
  }

  /** The step saves counters. */
  predicate SavesCounters(l: Life, ifIndex: nat, step: Step) {
    && step.Save? && l.flight.Some? && step.now > l.clock
    && StatusAnswered(step.reply, ifIndex) && !CounterError(step.reply, ifIndex, l.flight.value.mode)
  }

  /** A poll prepared under another name than the present one is saved for a monitored interface. */
  predicate LateSave(l: Life, ifIndex: nat, step: Step) {
    SavesCounters(l, ifIndex, step) && l.port.interface.monitorEnabled && l.flight.value.generation != l.generation
  }

  /** Another name is found after a discovery without one, so that the portal keeps the baseline of the old. */
  predicate SilentRename(l: Life, step: Step) {
    && step.Discover? && step.found.Some? && Renamed(l, step.found.value)
       && !IdentityChanged(l.port.interface, step.found.value)
    && l.port.interface.monitorEnabled && l.port.interface.baseline.mode.Some?
  }

  predicate Settled(l: Life, ifIndex: nat, step: Step) {
    !LateSave(l, ifIndex, step) && !SilentRename(l, step)
  }

  /** These two, and no other step, leave a monitored interface with the baseline of another name. */
  lemma StepKeepsDeviceExactly(l: Life, ifIndex: nat, step: Step)
    requires Sound(l) && OfThisDevice(l)
    ensures OfThisDevice(Next(l, ifIndex, step)) <==> Settled(l, ifIndex, step)
  {
    hide BuildSnapshot, RatesSince;
  }

  predicate AllSettled(ifIndex: nat, steps: seq<Step>) {
    forall n :: 0 <= n < |steps| ==> Settled(Run(ifIndex, steps[..n]), ifIndex, steps[n])
  }

  /** Samples joined by rates were read under one name. */
  predicate OneDevice(l: Life)
    requires |l.origins| == |l.port.log|
  {
    forall j :: 0 < j < |l.port.log| && l.port.log[j].rx.Some? ==>
      l.origins[j].generation == l.origins[j - 1].generation
  }

  lemma StepKeepsOneDevice(l: Life, ifIndex: nat, step: Step)
    requires Sound(l) && OfThisDevice(l) && OneDevice(l) && Settled(l, ifIndex, step)
    ensures OneDevice(Next(l, ifIndex, step))
  {
    hide BuildSnapshot, RatesSince;
    if SavesCounters(l, ifIndex, step) {
      var c := BuildSnapshot(step.reply, ifIndex, l.flight.value.mode).counters.value;
      RatesSinceSound(l.port.interface.baseline, c, step.uptime, l.port.interface.speed, step.now);
    } else if step.Retain? {
      RetainedTail(l.port.log, l.origins, step.threshold);
    }
  }

  /** Without late saves and silent renames, no rates and no deltas join readings under two names. */
  lemma {:induction false} SettledRunsJoinOneDevice(ifIndex: nat, steps: seq<Step>)
    requires AllSettled(ifIndex, steps)
    ensures OneDevice(Run(ifIndex, steps)) && OfThisDevice(Run(ifIndex, steps))
  {
    if steps != [] {
      var last := |steps| - 1;
      forall n | 0 <= n < last ensures Settled(Run(ifIndex, steps[..last][..n]), ifIndex, steps[..last][n]) {
        assert steps[..last][..n] == steps[..n];
      }
      SettledRunsJoinOneDevice(ifIndex, steps[..last]);
      RunSound(ifIndex, steps[..last]);
      StepKeepsDeviceExactly(Run(ifIndex, steps[..last]), ifIndex, steps[last]);
      StepKeepsOneDevice(Run(ifIndex, steps[..last]), ifIndex, steps[last]);
    }
  }

  /**
   * The step saves counters whose rates come out, on top of a logged baseline that was read under
   * another name than the poll in flight was prepared for.
   */
  predicate Joins(l: Life, ifIndex: nat, step: Step)
    requires Sound(l)
  {
    && SavesCounters(l, ifIndex, step) && l.port.log != [] && l.flight.value.generation != l.baseGeneration
    && GivesRates(l, ifIndex, step)
  }

  /** The baseline and the reading saved are two readings that give rates. */
  predicate GivesRates(l: Life, ifIndex: nat, step: Step)
    requires WholeBaseline(l.port.interface.baseline) && SavesCounters(l, ifIndex, step)
  {
    var b, c := l.port.interface.baseline, SavedCounters(l, ifIndex, step);
    var to := Baseline(Some(c.mode), Some(c.inOctets), Some(c.outOctets), Some(step.now), step.uptime);
    b.mode.Some? && RatesGiven(b, to, l.port.interface.speed)
  }

  lemma GivesRatesExactly(l: Life, ifIndex: nat, step: Step)
    requires WholeBaseline(l.port.interface.baseline) && SavesCounters(l, ifIndex, step)
    ensures GivesRates(l, ifIndex, step) <==>
            RatesSince(l.port.interface.baseline, SavedCounters(l, ifIndex, step), step.uptime, l.port.interface.speed,
                       step.now).rx.Some?
  {
    hide RatesSince, RatesGiven, BuildSnapshot;
    var b, c := l.port.interface.baseline, SavedCounters(l, ifIndex, step);
    NoBaselineNoRates(b, c, step.uptime, l.port.interface.speed, step.now);
    if b.mode.Some? {
      RatesSinceExactly(b, c, step.uptime, l.port.interface.speed, step.now);
    }
  }

  /** From a log of one device, one more step joins two exactly when it is such a save. */
  lemma StepJoinsDevicesExactly(l: Life, ifIndex: nat, step: Step)
    requires Sound(l) && OneDevice(l)
    ensures OneDevice(Next(l, ifIndex, step)) <==> !Joins(l, ifIndex, step)
  {
    if SavesCounters(l, ifIndex, step) {
      SaveJoinsExactly(l, ifIndex, step);
    } else if step.Retain? {
      RetainedTail(l.port.log, l.origins, step.threshold);
    } else if step.Save? {
      UnsavedKeepsOneDevice(l, ifIndex, step);
    }
  }

  /** The counters a saving step reads. */
  function SavedCounters(l: Life, ifIndex: nat, step: Step): Counters
    requires SavesCounters(l, ifIndex, step)
  {
    BuildSnapshot(step.reply, ifIndex, l.flight.value.mode).counters.value
  }

  lemma UnsavedKeepsOneDevice(l: Life, ifIndex: nat, step: Step)
    requires Sound(l) && OneDevice(l) && step.Save? && !SavesCounters(l, ifIndex, step)
    ensures OneDevice(Next(l, ifIndex, step))
  {
    hide BuildSnapshot, RatesSince, Linked;
  }

  lemma SaveJoinsExactly(l: Life, ifIndex: nat, step: Step)
    requires Sound(l) && OneDevice(l) && SavesCounters(l, ifIndex, step)
    ensures OneDevice(Next(l, ifIndex, step)) <==>
            !(l.port.log != [] && l.flight.value.generation != l.baseGeneration && GivesRates(l, ifIndex, step))
  {
    hide BuildSnapshot, RatesSince, Linked, GivesRates;
    GivesRatesExactly(l, ifIndex, step);
    var after, n := Next(l, ifIndex, step), |l.port.log|;
    var c := SavedCounters(l, ifIndex, step);
    RatesSinceSound(l.port.interface.baseline, c, step.uptime, l.port.interface.speed, step.now);
    assert after.port.log[..n] == l.port.log && after.origins[..n] == l.origins;
    assert after.port.log[n].rx ==
      RatesSince(l.port.interface.baseline, c, step.uptime, l.port.interface.speed, step.now).rx;
    assert after.origins[n].generation == l.flight.value.generation;
  }

  /** A run that goes on from a given state. */
  function Continued(l: Life, ifIndex: nat, steps: seq<Step>): (r: Life)
    requires |l.origins| == |l.port.log|
    ensures |r.origins| == |r.port.log|
  {
    if steps == [] then l else Next(Continued(l, ifIndex, steps[..|steps| - 1]), ifIndex, steps[|steps| - 1])
  }

  /** A reply that repeats the counters of a baseline. */
  function SameCounters(ifIndex: nat, c: Counters): Reply {
    var v, i, o := VarBind(Some(1.0), true, false), VarBind(Some(c.inOctets as real), true, false),
                   VarBind(Some(c.outOctets as real), true, false);
    map[ColumnOid(IF_ADMIN_STATUS, ifIndex) := v, ColumnOid(IF_OPER_STATUS, ifIndex) := v,
        InOctetsOid(c.mode, ifIndex) := i, OutOctetsOid(c.mode, ifIndex) := o]
  }

  lemma ColumnsDiffer(ifIndex: nat)
    ensures ColumnOid(IF_ADMIN_STATUS, ifIndex) != ColumnOid(IF_OPER_STATUS, ifIndex)
    ensures forall mode: CounterMode ::
              && InOctetsOid(mode, ifIndex) != OutOctetsOid(mode, ifIndex)
              && InOctetsOid(mode, ifIndex) != ColumnOid(IF_ADMIN_STATUS, ifIndex)
              && OutOctetsOid(mode, ifIndex) != ColumnOid(IF_ADMIN_STATUS, ifIndex)
              && InOctetsOid(mode, ifIndex) != ColumnOid(IF_OPER_STATUS, ifIndex)
              && OutOctetsOid(mode, ifIndex) != ColumnOid(IF_OPER_STATUS, ifIndex)
  {
    hide Decimal;
    assert ColumnOid(IF_ADMIN_STATUS, ifIndex)[18] == '7' && ColumnOid(IF_OPER_STATUS, ifIndex)[18] == '8';
    assert ColumnOid(IF_IN_OCTETS, ifIndex)[19] == '0' && ColumnOid(IF_OUT_OCTETS, ifIndex)[19] == '6';
    assert ColumnOid(IF_IN_OCTETS, ifIndex)[18] == '1' && ColumnOid(IF_OUT_OCTETS, ifIndex)[18] == '1';
    assert ColumnOid(IF_HC_IN_OCTETS, ifIndex)[21] == '6' && ColumnOid(IF_HC_OUT_OCTETS, ifIndex)[21] == '1';
    assert ColumnOid(IF_HC_IN_OCTETS, ifIndex)[12] == '3' && ColumnOid(IF_HC_OUT_OCTETS, ifIndex)[12] == '3';
    assert ColumnOid(IF_ADMIN_STATUS, ifIndex)[12] == '2' && ColumnOid(IF_OPER_STATUS, ifIndex)[12] == '2';
  }

  lemma SameCountersRead(ifIndex: nat, c: Counters)
    ensures BuildSnapshot(SameCounters(ifIndex, c), ifIndex, Some(c.mode)).counters == Some(c)
    ensures StatusAnswered(SameCounters(ifIndex, c), ifIndex)
  {
    hide ColumnOid;
    ColumnsDiffer(ifIndex);
    var reply := SameCounters(ifIndex, c);
    assert IntegerValue(reply, InOctetsOid(c.mode, ifIndex)) == Some(c.inOctets as int);
    assert IntegerValue(reply, OutOctetsOid(c.mode, ifIndex)) == Some(c.outOctets as int);
  }

  /** Counters that have not moved give rates of zero a moment later. */
  lemma UnmovedRates(b: Baseline, now: Time)
    requires WholeBaseline(b) && b.mode.Some? && now > b.at.value
    ensures RatesSince(b, Counters(b.mode.value, b.inOctets.value, b.outOctets.value), None, None, now).rx == Some(0)
  {
    var elapsed := Elapsed(b.uptime, None, b.at.value, now);
    assert elapsed > 0.0;
    assert 0.0 / elapsed == 0.0;
  }

  ghost predicate NeverJoins(ifIndex: nat, steps: seq<Step>) {
    forall n :: 0 <= n < |steps| ==>
      Sound(Run(ifIndex, steps[..n])) && !Joins(Run(ifIndex, steps[..n]), ifIndex, steps[n])
  }

  predicate AlwaysOneDevice(ifIndex: nat, steps: seq<Step>) {
    forall n :: 0 <= n <= |steps| ==> OneDevice(Run(ifIndex, steps[..n]))
  }

  /** No state of a run has rates or deltas over two devices exactly when no step of it is such a save. */
  lemma {:induction false} RunJoinsDevicesExactly(ifIndex: nat, steps: seq<Step>)
    ensures AlwaysOneDevice(ifIndex, steps) <==> NeverJoins(ifIndex, steps)
  {
    hide Sound, OneDevice, Joins, Run;
    if steps == [] {
      NothingJoined(ifIndex);
    } else {
      var last := |steps| - 1;
      var prefix := steps[..last];
      RunJoinsDevicesExactly(ifIndex, prefix);
      RunSound(ifIndex, prefix);
      assert forall n :: 0 <= n <= last ==> prefix[..n] == steps[..n];
      assert steps[..|steps|] == steps;
      RunStep(ifIndex, steps);
      if AlwaysOneDevice(ifIndex, prefix) {
        assert OneDevice(Run(ifIndex, prefix[..last]));
        StepJoinsDevicesExactly(Run(ifIndex, prefix), ifIndex, steps[last]);
      }
      assert AlwaysOneDevice(ifIndex, steps) ==> AlwaysOneDevice(ifIndex, prefix) by {
        forall n | 0 <= n <= last && AlwaysOneDevice(ifIndex, steps) ensures OneDevice(Run(ifIndex, prefix[..n])) {
          assert OneDevice(Run(ifIndex, steps[..n]));
        }
      }
      assert NeverJoins(ifIndex, steps) ==> NeverJoins(ifIndex, prefix) by {
        forall n | 0 <= n < last && NeverJoins(ifIndex, steps)
          ensures Sound(Run(ifIndex, prefix[..n])) && !Joins(Run(ifIndex, prefix[..n]), ifIndex, prefix[n])
        {
          assert Sound(Run(ifIndex, steps[..n])) && !Joins(Run(ifIndex, steps[..n]), ifIndex, steps[n]);
        }
      }
    }
  }

  /** Behind every such save there is a late save, this one or an earlier one, or a silent rename. */
  lemma JoinsComeFrom(ifIndex: nat, steps: seq<Step>, step: Step)
    requires Sound(Run(ifIndex, steps)) && Joins(Run(ifIndex, steps), ifIndex, step)
    ensures exists n :: 0 <= n <= |steps| &&
              (LateSave(Run(ifIndex, (steps + [step])[..n]), ifIndex, (steps + [step])[n])
               || SilentRename(Run(ifIndex, (steps + [step])[..n]), (steps + [step])[n]))
  {
    hide Sound, Joins, Run, LateSave, SilentRename, OneDevice;
    var all := steps + [step];
    if AllSettled(ifIndex, all) {
      assert AllSettled(ifIndex, steps) by {
        forall n | 0 <= n < |steps| ensures Settled(Run(ifIndex, steps[..n]), ifIndex, steps[n]) {
          assert all[..n] == steps[..n] && Settled(Run(ifIndex, all[..n]), ifIndex, all[n]);
        }
      }
      SettledRunsJoinOneDevice(ifIndex, steps);
      SettledRunsJoinOneDevice(ifIndex, all);
      RunSnoc(ifIndex, steps, step);
      StepJoinsDevicesExactly(Run(ifIndex, steps), ifIndex, step);
      assert false;
    }
    var n :| 0 <= n < |all| && !Settled(Run(ifIndex, all[..n]), ifIndex, all[n]);
  }

  lemma RunStep(ifIndex: nat, steps: seq<Step>)
    requires steps != []
    ensures Run(ifIndex, steps) == Next(Run(ifIndex, steps[..|steps| - 1]), ifIndex, steps[|steps| - 1])
  {
  }

  lemma NothingJoined(ifIndex: nat)
    ensures OneDevice(Run(ifIndex, []))
  {
  }

  /** What a run is followed by below: the interface is found as it is, polled, and its counters have not moved. */
  function OneMorePoll(l: Life, ifIndex: nat): seq<Step>
    requires WholeBaseline(l.port.interface.baseline) && l.port.interface.baseline.mode.Some?
  {
    var b := l.port.interface.baseline;
    [Abandon, Discover(Some(Found(ifIndex, l.port.interface.identity, None))), Prepare,
     Save(SameCounters(ifIndex, Counters(b.mode.value, b.inOctets.value, b.outOctets.value)), None, l.clock + 1)]
  }

  /**
   * Either of the two is one short run away from joining two devices, if any sample is left to join:
   * discover the interface as it is, prepare the next poll, and save counters that have not moved.
   */
  lemma UnsettledStepCanJoin(l: Life, ifIndex: nat, step: Step)
    requires Sound(l) && OfThisDevice(l) && !Settled(l, ifIndex, step)
    ensures var after := Next(l, ifIndex, step);
            && WholeBaseline(after.port.interface.baseline) && after.port.interface.baseline.mode.Some?
            && (after.port.log != [] ==> !OneDevice(Continued(after, ifIndex, OneMorePoll(after, ifIndex))))
            && (LateSave(l, ifIndex, step) ==> after.port.log != [])
  {
    hide BuildSnapshot, RatesSince, Linked, SameCounters, StatusAnswered;
    var after := Next(l, ifIndex, step);
    StepKeepsSound(l, ifIndex, step);
    StepKeepsDeviceExactly(l, ifIndex, step);
    if after.port.log != [] {
      var b := after.port.interface.baseline;
      var c := Counters(b.mode.value, b.inOctets.value, b.outOctets.value);
      var found := Found(ifIndex, after.port.interface.identity, None);
      var s1, s3 := Discover(Some(found)), Save(SameCounters(ifIndex, c), None, after.clock + 1);
      JoinAfter(after, ifIndex, found, c);
      ContinuedFour(after, ifIndex, Abandon, s1, Prepare, s3);
    }
  }

  lemma ContinuedFour(l: Life, ifIndex: nat, a: Step, b: Step, c: Step, d: Step)
    requires |l.origins| == |l.port.log|
    ensures Continued(l, ifIndex, [a, b, c, d]) ==
            Next(Next(Next(Next(l, ifIndex, a), ifIndex, b), ifIndex, c), ifIndex, d)
  {
    hide Next;
    assert [a, b, c, d][..3] == [a, b, c] && [a, b, c][..2] == [a, b] && [a, b][..1] == [a] && [a][..0] == [];
    assert Continued(l, ifIndex, [a]) == Next(l, ifIndex, a);
    assert Continued(l, ifIndex, [a, b]) == Next(Next(l, ifIndex, a), ifIndex, b);
    assert Continued(l, ifIndex, [a, b, c]) == Next(Next(Next(l, ifIndex, a), ifIndex, b), ifIndex, c);
  }

  /** The two devices of the run above. */
  lemma JoinAfter(l: Life, ifIndex: nat, found: Found, c: Counters)
    requires Sound(l) && l.port.log != [] && l.port.interface.monitorEnabled
    requires l.port.interface.baseline.mode.Some? && l.baseGeneration != l.generation
    requires var b := l.port.interface.baseline; c == Counters(b.mode.value, b.inOctets.value, b.outOctets.value)
    requires found == Found(ifIndex, l.port.interface.identity, None)
    ensures var s1, s3 := Discover(Some(found)), Save(SameCounters(ifIndex, c), None, l.clock + 1);
            !OneDevice(Next(Next(Next(Next(l, ifIndex, Abandon), ifIndex, s1), ifIndex, Prepare), ifIndex, s3))
  {
    hide BuildSnapshot, RatesSince, Linked, SameCounters, StatusAnswered;
    var b := l.port.interface.baseline;
    var l0 := Next(l, ifIndex, Abandon);
    var l1 := Next(l0, ifIndex, Discover(Some(found)));
    var l2 := Next(l1, ifIndex, Prepare);
    assert l2.port.interface.baseline == b && l2.port.interface.speed.None? && l2.origins == l.origins
      && l2.port.log == l.port.log;
    assert l2.flight == Some(Flight(b.mode, l.generation)) && l2.baseGeneration == l.baseGeneration
      && l2.clock == l.clock;
    SameCountersRead(ifIndex, c);
    UnmovedRates(b, l.clock + 1);
    var l3 := Next(l2, ifIndex, Save(SameCounters(ifIndex, c), None, l.clock + 1));
    var n := |l.port.log|;
    assert |l3.port.log| == n + 1 && l3.port.log[n].rx == Some(0);
    assert l3.origins[n].generation == l.generation && l3.origins[n - 1].generation == l.baseGeneration;
  }

  /** A reply in which every variable of the interface that matters reads the same number. */
  function UniformReply(ifIndex: nat, octets: nat): Reply {
    var v := VarBind(Some(octets as real), true, false);
    map[ColumnOid(IF_ADMIN_STATUS, ifIndex) := v, ColumnOid(IF_OPER_STATUS, ifIndex) := v,
        ColumnOid(IF_HC_IN_OCTETS, ifIndex) := v, ColumnOid(IF_HC_OUT_OCTETS, ifIndex) := v]
  }

  /** An unnamed stretch of the run below: nothing yet measured, a poll in flight from before the change. */
  function BeforeLateSave(): Life {
    Life(Port(NEW_INTERFACE.(identity := "eth9", monitorEnabled := true), []), "eth9", Some(Flight(None, 0)), 0, [], 3,
         1, 0)
  }

  /** One sample, read under the first name, and the interface now known by another. */
  function ReadAs(identity: string, known: string, stats: Stats, epoch: nat, generation: nat): Life {
    var b := Baseline(Some(Hc64), Some(1000), Some(1000), Some(10), Some(100));
    var i := NEW_INTERFACE.(identity := identity, monitorEnabled := true, baseline := b, stats := stats);
    Life(Port(i, [Sample(10, None, None, stats)]), known, None, 10, [Origin(b, epoch, 0, None, None)], epoch,
         generation, 0)
  }

  function AfterLateSave(stats: Stats): Life {
    ReadAs("eth9", "eth9", stats, 3, 1)
  }

  lemma UniformSnapshot(ifIndex: nat, octets: nat, mode: Option<CounterMode>)
    requires mode != Some(Legacy32)
    ensures BuildSnapshot(UniformReply(ifIndex, octets), ifIndex, mode).counters == Some(Counters(Hc64, octets, octets))
    ensures StatusAnswered(UniformReply(ifIndex, octets), ifIndex)
  {
    hide Decimal, ColumnOid;
  }

  lemma SavedLate()
    ensures exists stats ::
              Next(BeforeLateSave(), 1, Save(UniformReply(1, 1000), Some(100), 10)) == AfterLateSave(stats)
  {
    UniformSnapshot(1, 1000, None);
    hide BuildSnapshot, StatusAnswered, UniformReply;
    var stats := BuildSnapshot(UniformReply(1, 1000), 1, None).stats;
    assert Next(BeforeLateSave(), 1, Save(UniformReply(1, 1000), Some(100), 10)) == AfterLateSave(stats);
  }

  lemma NextPollComputesRates(stats: Stats, epoch: nat)
    ensures var l :=
            Next(Next(ReadAs("eth9", "eth9", stats, epoch, 1), 1, Prepare), 1,
                 Save(UniformReply(1, 2000), Some(200), 20));
            |l.port.log| == 2 && l.port.log[1].rx == Some(8000) && l.origins[0].generation == 0
              && l.origins[1].generation == 1
  {
    UniformSnapshot(1, 2000, Some(Hc64));
    hide BuildSnapshot, StatusAnswered, UniformReply;
    var l := ReadAs("eth9", "eth9", stats, epoch, 1);
    assert Next(l, 1, Prepare) == l.(flight := Some(Flight(Some(Hc64), 1)));
    assert Elapsed(Some(100), Some(200), 10, 20) == 1.0;
    assert CounterRate(2000, 1000, 1.0, Hc64, None) == Some(8000);
  }

  /**
   * The condition is needed: a poll prepared before the identity changed and saved after an
   * administrator switched monitoring on again leaves a baseline of the old device, and the next
   * poll computes rates from it.
   */
  lemma UnsettledSaveJoinsTwoDevices()
    ensures var steps := [Discover(Some(Found(1, "eth0", None))), Select(true), Prepare,
                          Discover(Some(Found(1, "eth9", None))), Select(true),
                          Save(UniformReply(1, 1000), Some(100), 10), Prepare,
                          Save(UniformReply(1, 2000), Some(200), 20)];
            var l := Run(1, steps);
            |l.port.log| == 2 && l.port.log[1].rx == Some(8000) && l.origins[0].generation == 0
              && l.origins[1].generation == 1
  {
    hide *;
    var s0, s3 := Discover(Some(Found(1, "eth0", None))), Discover(Some(Found(1, "eth9", None)));
    var s5, s7 := Save(UniformReply(1, 1000), Some(100), 10), Save(UniformReply(1, 2000), Some(200), 20);
    var ls := Early();
    EarlySteps();
    RunEmpty(1);
    RunSnoc(1, [], s0);
    RunSnoc(1, [s0], Select(true));
    RunSnoc(1, [s0, Select(true)], Prepare);
    RunSnoc(1, [s0, Select(true), Prepare], s3);
    RunSnoc(1, [s0, Select(true), Prepare, s3], Select(true));
    SavedLate();
    var stats :| Next(BeforeLateSave(), 1, s5) == AfterLateSave(stats);
    RunSnoc(1, [s0, Select(true), Prepare, s3, Select(true)], s5);
    RunSnoc(1, [s0, Select(true), Prepare, s3, Select(true), s5], Prepare);
    NextPollComputesRates(stats, 3);
    LateSaveState(stats);
    RunSnoc(1, [s0, Select(true), Prepare, s3, Select(true), s5, Prepare], s7);
    assert [] + [s0] == [s0];
    assert [s0] + [Select(true)] == [s0, Select(true)];
    assert [s0, Select(true)] + [Prepare] == [s0, Select(true), Prepare];
    assert [s0, Select(true), Prepare] + [s3] == [s0, Select(true), Prepare, s3];
    assert [s0, Select(true), Prepare, s3] + [Select(true)] == [s0, Select(true), Prepare, s3, Select(true)];
    assert [s0, Select(true), Prepare, s3, Select(true)] + [s5] == [s0, Select(true), Prepare, s3, Select(true), s5];
    assert [s0, Select(true), Prepare, s3, Select(true), s5] + [Prepare] ==
      [s0, Select(true), Prepare, s3, Select(true), s5, Prepare];
    assert [s0, Select(true), Prepare, s3, Select(true), s5, Prepare] + [s7] ==
      [s0, Select(true), Prepare, s3, Select(true), s5, Prepare, s7];
  }

  lemma LateSaveState(stats: Stats)
    ensures AfterLateSave(stats) == ReadAs("eth9", "eth9", stats, 3, 1)
  {
  }

  /**
   * Nor does it take a late save: a discovery without a name makes the next one under another name go
   * unnoticed, the baseline of the old device stays, and the next poll computes rates from it.
   */
  lemma SilentRenameJoinsTwoDevices()
    ensures var steps := SilentSteps();
            var l := Run(1, steps);
            && |l.port.log| == 2 && l.port.log[1].rx == Some(8000)
            && l.origins[0].generation == 0 && l.origins[1].generation == 1
            && SilentRename(Run(1, steps[..5]), steps[5])
            && forall n :: 0 <= n < |steps| ==> !LateSave(Run(1, steps[..n]), 1, steps[n])
  {
    hide *;
    var steps := SilentSteps();
    SilentStepsAre();
    EarlySteps();
    RunEmpty(1);
    assert steps[..0] == [];
    RunTo(steps, 0);
    RunTo(steps, 1);
    RunTo(steps, 2);
    var stats := FirstReading();
    RunTo(steps, 3);
    RunTo(steps, 4);
    RunTo(steps, 5);
    SilentStates(stats);
    RunTo(steps, 6);
    RunTo(steps, 7);
    NextPollComputesRates(stats, 1);
    assert steps[..8] == steps;
    forall n | 0 <= n < |steps| ensures !LateSave(Run(1, steps[..n]), 1, steps[n]) {
      if n == 3 {
        InTimeIsNotLate(Run(1, steps[..3]), steps[3]);
      } else if n == 7 {
        PreparedIsNotLate(stats, steps[7]);
      } else {
        OnlySavesAreLate(Run(1, steps[..n]), steps[n]);
      }
    }
  }

  function SilentSteps(): (steps: seq<Step>)
    ensures |steps| == 8
  {
    [Discover(Some(Found(1, "eth0", None))), Select(true), Prepare, Save(UniformReply(1, 1000), Some(100), 10),
     Discover(Some(Found(1, "", None))), Discover(Some(Found(1, "eth9", None))), Prepare,
     Save(UniformReply(1, 2000), Some(200), 20)]
  }

  lemma SilentStepsAre()
    ensures var s := SilentSteps();
            && s[0] == Discover(Some(Found(1, "eth0", None))) && s[1] == Select(true) && s[2] == Prepare
            && s[3] == Save(UniformReply(1, 1000), Some(100), 10)
            && s[4] == Discover(Some(Found(1, "", None))) && s[5] == Discover(Some(Found(1, "eth9", None)))
            && s[6] == Prepare && s[7] == Save(UniformReply(1, 2000), Some(200), 20)
  {
  }

  lemma RunTo(steps: seq<Step>, n: nat)
    requires n < |steps|
    ensures Run(1, steps[..n + 1]) == Next(Run(1, steps[..n]), 1, steps[n])
  {
    assert steps[..n + 1][..n] == steps[..n];
  }

  lemma FirstReading() returns (stats: Stats)
    ensures Next(Early()[3], 1, Save(UniformReply(1, 1000), Some(100), 10)) == ReadAs("eth0", "eth0", stats, 1, 0)
  {
    UniformSnapshot(1, 1000, None);
    hide BuildSnapshot, StatusAnswered, UniformReply;
    stats := BuildSnapshot(UniformReply(1, 1000), 1, None).stats;
  }

  lemma SilentStates(stats: Stats)
    ensures var named, nameless := ReadAs("eth0", "eth0", stats, 1, 0), ReadAs("", "eth0", stats, 1, 0);
            && Next(named, 1, Discover(Some(Found(1, "", None)))) == nameless
            && Next(nameless, 1, Discover(Some(Found(1, "eth9", None)))) == ReadAs("eth9", "eth9", stats, 1, 1)
            && SilentRename(nameless, Discover(Some(Found(1, "eth9", None))))
  {
    assert "eth0" != "eth9" by { assert "eth0"[3] != "eth9"[3]; }
  }

  lemma OnlySavesAreLate(l: Life, step: Step)
    requires !step.Save?
    ensures !LateSave(l, 1, step)
  {
  }

  lemma InTimeIsNotLate(l: Life, step: Step)
    requires l == Early()[3]
    ensures !LateSave(l, 1, step)
  {
  }

  lemma PreparedIsNotLate(stats: Stats, step: Step)
    ensures !LateSave(Next(ReadAs("eth9", "eth9", stats, 1, 1), 1, Prepare), 1, step)
  {
  }

  /** The run up to the poll in flight that meets a new device. */
  function Early(): (ls: seq<Life>)
    ensures |ls| == 5
  {
    var on := NEW_INTERFACE.(identity := "eth0", monitorEnabled := true);
    [Life(Port(NEW_INTERFACE, []), "", None, 0, [], 0, 0, 0),
     Life(Port(NEW_INTERFACE.(identity := "eth0"), []), "eth0", None, 0, [], 0, 0, 0),
     Life(Port(on, []), "eth0", None, 0, [], 1, 0, 0),
     Life(Port(on, []), "eth0", Some(Flight(None, 0)), 0, [], 1, 0, 0),
     Life(Port(NEW_INTERFACE.(identity := "eth9"), []), "eth9", Some(Flight(None, 0)), 0, [], 2, 1, 0)]
  }

  lemma EarlySteps()
    ensures var ls := Early();
            && Next(ls[0], 1, Discover(Some(Found(1, "eth0", None)))) == ls[1]
            && Next(ls[1], 1, Select(true)) == ls[2]
            && Next(ls[2], 1, Prepare) == ls[3]
            && Next(ls[3], 1, Discover(Some(Found(1, "eth9", None)))) == ls[4]
            && Next(ls[4], 1, Select(true)) == BeforeLateSave()
            && ls[0] == Life(Port(NEW_INTERFACE, []), "", None, 0, [], 0, 0, 0)
  {
    assert "eth0" != "eth9" by { assert "eth0"[3] != "eth9"[3]; }
  }

  lemma RunEmpty(ifIndex: nat)
    ensures Run(ifIndex, []) == Life(Port(NEW_INTERFACE, []), "", None, 0, [], 0, 0, 0)
  {
  }

  lemma RunSnoc(ifIndex: nat, steps: seq<Step>, step: Step)
    ensures Run(ifIndex, steps + [step]) == Next(Run(ifIndex, steps), ifIndex, step)
  {
    assert (steps + [step])[..|steps|] == steps;
  }
}
