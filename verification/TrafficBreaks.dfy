/** What a break in an interface's traffic is, and that neither a rate nor a delta reaches across one. */
module TrafficBreaks {
  import opened Basics
  import opened CounterRates
  import opened InterfaceTraffic
  import opened TrafficRuns

  /**
   * A step that breaks an interface's traffic: a saved poll whose counters fail, come in another mode or show
   * an uptime that fell, a discovery that misses the interface or finds another name, a new choice, clearing.
   */
  predicate Breaks(l: Life, ifIndex: nat, step: Step)
    requires |l.origins| == |l.port.log|
  {
    var i := l.port.interface;
    match step
    case Save(reply, uptime, now) =>
      && l.flight.Some? && now > l.clock && StatusAnswered(reply, ifIndex)
      && var from, to := i.baseline, Next(l, ifIndex, step).port.interface.baseline;
         to.mode.None?
           || (from.mode.Some?
               && (to.mode != from.mode || (from.uptime.Some? && uptime.Some? && uptime.value < from.uptime.value)))
    case Discover(found) =>
      found.None?
        || (i.identity != "" && found.value.identity != "" && found.value.identity != i.identity)
    case Select(enabled) => enabled != i.monitorEnabled
    case ClearAll => true
    case _ => false
  }

  /** Epochs count the breaks, and the clock tells the last saved poll. */
  lemma EpochCountsBreaks(l: Life, ifIndex: nat, step: Step)
    requires |l.origins| == |l.port.log|
    ensures var after := Next(l, ifIndex, step);
            && after.epoch == l.epoch + (if Breaks(l, ifIndex, step) then 1 else 0)
            && after.clock == if step.Save? && l.flight.Some? && step.now > l.clock then step.now else l.clock
  {
    hide BuildSnapshot, RatesSince, StatusAnswered, Missed, Discovered, Cleared, Selected, Retained, DroppedBefore;
  }

  // ---------------------------------------------------------------- samples and epochs

  /** Sample `j` of the log is one of an earlier log, with the origin it had there. */
  predicate Kept(before: Life, after: Life, j: nat)
    requires |before.origins| == |before.port.log| && |after.origins| == |after.port.log| && j < |after.port.log|
  {
    exists h :: 0 <= h < |before.port.log| && after.port.log[j] == before.port.log[h]
                && after.origins[j] == before.origins[h]
  }

  lemma RetentionKeeps(l: Life, ifIndex: nat, threshold: Time, j: nat)
    requires Sound(l) && j < |Next(l, ifIndex, Retain(threshold)).port.log|
    ensures Kept(l, Next(l, ifIndex, Retain(threshold)), j)
  {
    hide Linked, Aligned, Kept;
    var after := Next(l, ifIndex, Retain(threshold));
    RetainedTail(l.port.log, l.origins, threshold);
    KeptAt(l, after, j, |l.port.log| - |after.port.log| + j);
  }

  lemma KeptAt(before: Life, after: Life, j: nat, h: nat)
    requires |before.origins| == |before.port.log| && |after.origins| == |after.port.log|
    requires j < |after.port.log| && h < |before.port.log|
    requires after.port.log[j] == before.port.log[h] && after.origins[j] == before.origins[h]
    ensures Kept(before, after, j)
  {
  }

  /** A step keeps samples, or drops them, or logs one at a later time and in the epoch it leaves. */
  lemma StepLogs(l: Life, ifIndex: nat, step: Step, j: nat)
    requires Sound(l) && j < |Next(l, ifIndex, step).port.log|
    ensures var after := Next(l, ifIndex, step);
            Kept(l, after, j)
              || (after.port.log[j].collectedAt == after.clock > l.clock && after.origins[j].epoch == after.epoch)
  {
    hide BuildSnapshot, RatesSince, StatusAnswered, Linked, Kept, Aligned, Retained, DroppedBefore;
    if step.Retain? {
      RetentionKeeps(l, ifIndex, step.threshold, j);
    } else if j < |l.port.log| {
      KeptAt(l, Next(l, ifIndex, step), j, j);
    }
  }

  /** No sample is of a later epoch than the present one; and the later ones are of later epochs. */
  predicate Parted(l: Life, time: Time, epoch: nat)
    requires |l.origins| == |l.port.log|
  {
    && epoch <= l.epoch && time <= l.clock
    && forall j :: 0 <= j < |l.port.log| ==>
         && l.origins[j].epoch <= l.epoch
         && (if l.port.log[j].collectedAt <= time then l.origins[j].epoch < epoch else l.origins[j].epoch >= epoch)
  }

  lemma StepKeepsParted(l: Life, ifIndex: nat, step: Step, time: Time, epoch: nat)
    requires Sound(l) && Parted(l, time, epoch)
    ensures Parted(Next(l, ifIndex, step), time, epoch)
  {
    hide Next, Breaks, Linked, Aligned, InTime;
    EpochCountsBreaks(l, ifIndex, step);
    var after := Next(l, ifIndex, step);
    forall j | 0 <= j < |after.port.log|
      ensures after.origins[j].epoch <= after.epoch
      ensures if after.port.log[j].collectedAt <= time then after.origins[j].epoch < epoch
              else after.origins[j].epoch >= epoch
    {
      StepLogs(l, ifIndex, step, j);
    }
  }

  predicate Bounded(l: Life)
    requires |l.origins| == |l.port.log|
  {
    forall j :: 0 <= j < |l.port.log| ==> l.origins[j].epoch <= l.epoch && l.port.log[j].collectedAt <= l.clock
  }

  lemma {:induction false} RunBounded(ifIndex: nat, steps: seq<Step>)
    ensures Bounded(Run(ifIndex, steps))
  {
    hide Next, Breaks, Sound;
    if steps != [] {
      var front, step := steps[..|steps| - 1], steps[|steps| - 1];
      RunBounded(ifIndex, front);
      RunSound(ifIndex, front);
      var l := Run(ifIndex, front);
      EpochCountsBreaks(l, ifIndex, step);
      forall j | 0 <= j < |Next(l, ifIndex, step).port.log|
        ensures Next(l, ifIndex, step).origins[j].epoch <= Next(l, ifIndex, step).epoch
        ensures Next(l, ifIndex, step).port.log[j].collectedAt <= Next(l, ifIndex, step).clock
      {
        StepLogs(l, ifIndex, step, j);
      }
    }
  }

  /** A break parts the samples before it from those since. */
  lemma BreakParts(ifIndex: nat, steps: seq<Step>, step: Step)
    requires Breaks(Run(ifIndex, steps), ifIndex, step)
    ensures var l := Run(ifIndex, steps);
            Parted(Next(l, ifIndex, step), l.clock, l.epoch + 1)
  {
    hide Next, Breaks, Sound, Run;
    RunBounded(ifIndex, steps);
    RunSound(ifIndex, steps);
    var l := Run(ifIndex, steps);
    EpochCountsBreaks(l, ifIndex, step);
    var after := Next(l, ifIndex, step);
    forall j | 0 <= j < |after.port.log|
      ensures after.origins[j].epoch <= after.epoch
      ensures if after.port.log[j].collectedAt <= l.clock then after.origins[j].epoch < l.epoch + 1
              else after.origins[j].epoch >= l.epoch + 1
    {
      StepLogs(l, ifIndex, step, j);
    }
  }

  lemma {:induction false} StaysParted(ifIndex: nat, steps: seq<Step>, k: nat)
    requires k < |steps| && Breaks(Run(ifIndex, steps[..k]), ifIndex, steps[k])
    ensures Parted(Run(ifIndex, steps), Run(ifIndex, steps[..k]).clock, Run(ifIndex, steps[..k]).epoch + 1)
  {
    hide Next, Breaks, Sound, Parted;
    var last := |steps| - 1;
    if k == last {
      BreakParts(ifIndex, steps[..k], steps[k]);
    } else {
      var front := steps[..last];
      assert front[..k] == steps[..k];
      StaysParted(ifIndex, front, k);
      RunSound(ifIndex, front);
      StepKeepsParted(Run(ifIndex, front), ifIndex, steps[last], Run(ifIndex, steps[..k]).clock,
                      Run(ifIndex, steps[..k]).epoch + 1);
    }
  }

  /**
   * Whatever breaks an interface's traffic in the course of a run, no sample since has rates reaching back to a
   * sample before it.
   */
  lemma RatesCrossNoBreak(ifIndex: nat, steps: seq<Step>, k: nat, j: nat)
    requires k < |steps| && Breaks(Run(ifIndex, steps[..k]), ifIndex, steps[k])
    requires 0 < j < |Run(ifIndex, steps).port.log| && Run(ifIndex, steps).port.log[j].rx.Some?
    ensures var at, log := Run(ifIndex, steps[..k]).clock, Run(ifIndex, steps).port.log;
            log[j].collectedAt > at ==> log[j - 1].collectedAt > at
  {
    hide Run, RatesBetween, Breaks;
    StaysParted(ifIndex, steps, k);
    RatesComeFromPredecessor(ifIndex, steps, j);
  }

  /** ... and no later poll gives a threshold an error or discard delta until two samples were taken since. */
  lemma DeltasCrossNoBreak(ifIndex: nat, steps: seq<Step>, k: nat, field: Field, observedAt: Time)
    requires k < |steps| && Breaks(Run(ifIndex, steps[..k]), ifIndex, steps[k])
    requires field.ErrorsDelta? || field.DiscardsDelta?
    requires observedAt > Run(ifIndex, steps[..k]).clock
    requires InterfaceReading(Run(ifIndex, steps).port, field, observedAt).Some?
    ensures var at, log := Run(ifIndex, steps[..k]).clock, Run(ifIndex, steps).port.log;
            |log| >= 2 && log[|log| - 2].collectedAt > at && log[|log| - 1].collectedAt == observedAt
  {
    hide Run, Breaks;
    StaysParted(ifIndex, steps, k);
    DeltaSpansNoBreak(ifIndex, steps, field, observedAt);
  }
}
