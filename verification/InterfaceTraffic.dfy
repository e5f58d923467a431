/**
 * Polling of interface traffic for one target: reading the counters of a reply, keeping a baseline
 * and rates per interface, and logging one sample per successful poll.
 *
 * Interfaces are keyed by ifIndex, which is unique within a target.
 */
module InterfaceTraffic {
  import opened Basics
  import opened CounterRates

  // ---------------------------------------------------------------- replies

  /** One variable of a reply: its value as a number, if its text is one, and whether its type is numeric. */
  datatype VarBind = VarBind(number: Option<real>, numericType: bool, error: bool)

  type Reply = map<string, VarBind>

  function Integral(number: Option<real>): Option<int> {
    if number.Some? && number.value.Floor as real == number.value then Some(number.value.Floor) else None
  }

  /** A whole number of a numeric type, whether or not the variable also reports an error. */
  function NumericValue(item: VarBind): Option<int> {
    if item.numericType then Integral(item.number) else None
  }

  /** A whole number of any type, unless the variable reports an error. */
  function IntegerValue(reply: Reply, oid: string): Option<int> {
    if oid !in reply || reply[oid].error then None else Integral(reply[oid].number)
  }

  const IF_ADMIN_STATUS := "1.3.6.1.2.1.2.2.1.7"
  const IF_OPER_STATUS := "1.3.6.1.2.1.2.2.1.8"
  const IF_IN_OCTETS := "1.3.6.1.2.1.2.2.1.10"
  const IF_IN_DISCARDS := "1.3.6.1.2.1.2.2.1.13"
  const IF_IN_ERRORS := "1.3.6.1.2.1.2.2.1.14"
  const IF_OUT_OCTETS := "1.3.6.1.2.1.2.2.1.16"
  const IF_OUT_DISCARDS := "1.3.6.1.2.1.2.2.1.19"
  const IF_OUT_ERRORS := "1.3.6.1.2.1.2.2.1.20"
  const IF_HC_IN_OCTETS := "1.3.6.1.2.1.31.1.1.1.6"
  const IF_HC_OUT_OCTETS := "1.3.6.1.2.1.31.1.1.1.10"

  function ColumnOid(base: string, ifIndex: nat): string {
    base + "." + Decimal(ifIndex)
  }

  /** The variables a poll asks for about one interface's traffic. */
  function TrafficPollOids(ifIndex: nat, mode: Option<CounterMode>, supportsCounter64: bool): seq<string> {
    var hc := [ColumnOid(IF_HC_IN_OCTETS, ifIndex), ColumnOid(IF_HC_OUT_OCTETS, ifIndex)];
    var legacy := [ColumnOid(IF_IN_OCTETS, ifIndex), ColumnOid(IF_OUT_OCTETS, ifIndex)];
    var common := [ColumnOid(IF_IN_ERRORS, ifIndex), ColumnOid(IF_OUT_ERRORS, ifIndex),
                   ColumnOid(IF_IN_DISCARDS, ifIndex), ColumnOid(IF_OUT_DISCARDS, ifIndex)];
    var counters :=
      if mode == Some(Hc64) && supportsCounter64 then hc
      else if mode == Some(Legacy32) then legacy
      else if supportsCounter64 then hc + legacy
      else legacy;
    counters + common
  }

  // ---------------------------------------------------------------- the counters of a reply

  datatype Stats = Stats(inErrors: Option<int>, outErrors: Option<int>, inDiscards: Option<int>,
                         outDiscards: Option<int>)

  const NO_STATS := Stats(None, None, None, None)

  /** A counter pair under one mode. */
  datatype Counters = Counters(mode: CounterMode, inOctets: nat, outOctets: nat)

  /** No counters means the reply had an error about them. */
  datatype Snapshot = Snapshot(counters: Option<Counters>, stats: Stats)

  function Counter(reply: Reply, base: string, ifIndex: nat): (r: Option<nat>) {
    var value := IntegerValue(reply, ColumnOid(base, ifIndex));
    if value.Some? && value.value >= 0 then Some(value.value) else None
  }

  function CounterPair(reply: Reply, ifIndex: nat, mode: CounterMode): Option<Counters> {
    var inOctets := Counter(reply, if mode.Hc64? then IF_HC_IN_OCTETS else IF_IN_OCTETS, ifIndex);
    var outOctets := Counter(reply, if mode.Hc64? then IF_HC_OUT_OCTETS else IF_OUT_OCTETS, ifIndex);
    if inOctets.Some? && outOctets.Some? then Some(Counters(mode, inOctets.value, outOctets.value)) else None
  }

  /** A mode once chosen is kept; with none chosen yet, the wide counters come first. */
  function BuildSnapshot(reply: Reply, ifIndex: nat, mode: Option<CounterMode>): Snapshot {
    var counters :=
      if mode.Some? then CounterPair(reply, ifIndex, mode.value)
      else
        var hc := CounterPair(reply, ifIndex, Hc64);
        if hc.Some? then hc else CounterPair(reply, ifIndex, Legacy32);
    Snapshot(counters, Stats(Counter(reply, IF_IN_ERRORS, ifIndex), Counter(reply, IF_OUT_ERRORS, ifIndex),
                             Counter(reply, IF_IN_DISCARDS, ifIndex), Counter(reply, IF_OUT_DISCARDS, ifIndex)))
  }

  function InOctetsOid(mode: CounterMode, ifIndex: nat): string {
    ColumnOid(if mode.Hc64? then IF_HC_IN_OCTETS else IF_IN_OCTETS, ifIndex)
  }

  function OutOctetsOid(mode: CounterMode, ifIndex: nat): string {
    ColumnOid(if mode.Hc64? then IF_HC_OUT_OCTETS else IF_OUT_OCTETS, ifIndex)
  }

  predicate Agree(a: Reply, b: Reply, oid: string) {
    (oid in a <==> oid in b) && (oid in a ==> a[oid] == b[oid])
  }

  ghost predicate SameAnswers(oids: seq<string>, a: Reply, b: Reply) {
    forall oid :: oid in oids ==> Agree(a, b, oid)
  }

  predicate WideAsked(oids: seq<string>, ifIndex: nat) {
    ColumnOid(IF_HC_IN_OCTETS, ifIndex) in oids && ColumnOid(IF_HC_OUT_OCTETS, ifIndex) in oids
  }

  /** When the reader can only look at columns among `oids`. */
  predicate ReadsWithin(oids: seq<string>, ifIndex: nat, mode: Option<CounterMode>, supportsCounter64: bool) {
    supportsCounter64 || mode == Some(Legacy32) || WideAsked(oids, ifIndex)
  }

  predicate Asks(oids: seq<string>, base: string, ifIndex: nat) {
    ColumnOid(base, ifIndex) in oids
  }

  /**
   * What a poll asks for: errors and discards always, the wide counters unless the protocol has none or the
   * narrow mode is chosen, and the narrow ones unless the wide mode is chosen and the protocol has them.
   */
  lemma TrafficPollAsks(ifIndex: nat, mode: Option<CounterMode>, supportsCounter64: bool)
    ensures var oids := TrafficPollOids(ifIndex, mode, supportsCounter64);
            var wide, narrow := supportsCounter64 && mode != Some(Legacy32), !(supportsCounter64 && mode == Some(Hc64));
            && (Asks(oids, IF_HC_IN_OCTETS, ifIndex) <==> wide) && (Asks(oids, IF_HC_OUT_OCTETS, ifIndex) <==> wide)
            && (Asks(oids, IF_IN_OCTETS, ifIndex) <==> narrow) && (Asks(oids, IF_OUT_OCTETS, ifIndex) <==> narrow)
            && Asks(oids, IF_IN_ERRORS, ifIndex) && Asks(oids, IF_OUT_ERRORS, ifIndex)
            && Asks(oids, IF_IN_DISCARDS, ifIndex) && Asks(oids, IF_OUT_DISCARDS, ifIndex)
            && |oids| == (if wide && narrow then 8 else 6)
  {
    ColumnsApart(ifIndex);
    hide ColumnOid, Decimal;
    var oids := TrafficPollOids(ifIndex, mode, supportsCounter64);
    var a, b := ColumnOid(IF_HC_IN_OCTETS, ifIndex), ColumnOid(IF_HC_OUT_OCTETS, ifIndex);
    var c, d := ColumnOid(IF_IN_OCTETS, ifIndex), ColumnOid(IF_OUT_OCTETS, ifIndex);
    var e, f := ColumnOid(IF_IN_ERRORS, ifIndex), ColumnOid(IF_OUT_ERRORS, ifIndex);
    var g, h := ColumnOid(IF_IN_DISCARDS, ifIndex), ColumnOid(IF_OUT_DISCARDS, ifIndex);
    if supportsCounter64 && mode == Some(Hc64) {
      assert oids == [a, b, e, f, g, h];
    } else if supportsCounter64 && mode.None? {
      assert oids == [a, b, c, d, e, f, g, h];
    } else {
      assert mode.Some? ==> mode.value.Hc64? || mode.value.Legacy32?;
      assert oids == [c, d, e, f, g, h];
    }
  }

  /** The octet columns share no identifier with each other's kind or with the columns of errors and discards. */
  lemma ColumnsApart(ifIndex: nat)
    ensures var a, b := ColumnOid(IF_HC_IN_OCTETS, ifIndex), ColumnOid(IF_HC_OUT_OCTETS, ifIndex);
            var c, d := ColumnOid(IF_IN_OCTETS, ifIndex), ColumnOid(IF_OUT_OCTETS, ifIndex);
            var e, f := ColumnOid(IF_IN_ERRORS, ifIndex), ColumnOid(IF_OUT_ERRORS, ifIndex);
            var g, h := ColumnOid(IF_IN_DISCARDS, ifIndex), ColumnOid(IF_OUT_DISCARDS, ifIndex);
            && a !in [c, d, e, f, g, h] && b !in [c, d, e, f, g, h]
            && c !in [a, b, e, f, g, h] && d !in [a, b, e, f, g, h]
  {
    hide Decimal;
    var a, b := ColumnOid(IF_HC_IN_OCTETS, ifIndex), ColumnOid(IF_HC_OUT_OCTETS, ifIndex);
    var c, d := ColumnOid(IF_IN_OCTETS, ifIndex), ColumnOid(IF_OUT_OCTETS, ifIndex);
    var e, f := ColumnOid(IF_IN_ERRORS, ifIndex), ColumnOid(IF_OUT_ERRORS, ifIndex);
    var g, h := ColumnOid(IF_IN_DISCARDS, ifIndex), ColumnOid(IF_OUT_DISCARDS, ifIndex);
    assert a[12] == '3' && b[12] == '3' && c[12] == '2' && d[12] == '2';
    assert e[12] == '2' && f[12] == '2' && g[12] == '2' && h[12] == '2';
    assert c[18] == '1' && c[19] == '0' && d[18] == '1' && d[19] == '6';
    assert e[18] == '1' && e[19] == '4' && f[18] == '2' && g[18] == '1' && g[19] == '3' && h[18] == '1' && h[19] == '9';
  }

  /** The reply gives this count for a column: a whole number, not negative, without an error. */
  predicate Gives(reply: Reply, base: string, ifIndex: nat, count: nat) {
    var oid := ColumnOid(base, ifIndex);
    oid in reply && !reply[oid].error && reply[oid].number == Some(count as real)
  }

  lemma CounterGives(reply: Reply, base: string, ifIndex: nat, count: nat)
    ensures Counter(reply, base, ifIndex) == Some(count) <==> Gives(reply, base, ifIndex, count)
  {
    hide ColumnOid;
  }

  /**
   * What is read off a reply: in a mode once chosen, its two columns or nothing; with none chosen, the wide two
   * if the reply gives both, and otherwise the narrow two if it gives both.
   */
  lemma SnapshotExactly(reply: Reply, ifIndex: nat, mode: Option<CounterMode>, received: nat, sent: nat)
    ensures var counters := BuildSnapshot(reply, ifIndex, mode).counters;
            var wide := Gives(reply, IF_HC_IN_OCTETS, ifIndex, received)
                        && Gives(reply, IF_HC_OUT_OCTETS, ifIndex, sent);
            var narrow := Gives(reply, IF_IN_OCTETS, ifIndex, received) && Gives(reply, IF_OUT_OCTETS, ifIndex, sent);
            var anyWide := (exists n: nat :: Gives(reply, IF_HC_IN_OCTETS, ifIndex, n))
                           && exists n: nat :: Gives(reply, IF_HC_OUT_OCTETS, ifIndex, n);
            && (counters == Some(Counters(Hc64, received, sent)) <==> mode != Some(Legacy32) && wide)
            && (counters == Some(Counters(Legacy32, received, sent)) <==>
                  mode != Some(Hc64) && narrow && (mode.None? ==> !anyWide))
  {
    hide ColumnOid, Gives, Counter;
    forall base, n: nat ensures Counter(reply, base, ifIndex) == Some(n) <==> Gives(reply, base, ifIndex, n) {
      CounterGives(reply, base, ifIndex, n);
    }
    var a, b := Counter(reply, IF_HC_IN_OCTETS, ifIndex), Counter(reply, IF_HC_OUT_OCTETS, ifIndex);
    if a.Some? && b.Some? {
      assert Gives(reply, IF_HC_IN_OCTETS, ifIndex, a.value) && Gives(reply, IF_HC_OUT_OCTETS, ifIndex, b.value);
    }
  }

  lemma PairsAgree(a: Reply, b: Reply, ifIndex: nat, mode: CounterMode)
    ensures (Agree(a, b, InOctetsOid(mode, ifIndex)) && Agree(a, b, OutOctetsOid(mode, ifIndex)))
            ==> CounterPair(a, ifIndex, mode) == CounterPair(b, ifIndex, mode)
  {
  }

  lemma SameSnapshot(oids: seq<string>, a: Reply, b: Reply, ifIndex: nat, mode: Option<CounterMode>,
                     supportsCounter64: bool)
    requires SameAnswers(oids, a, b) && ReadsWithin(oids, ifIndex, mode, supportsCounter64)
    requires forall i :: 0 <= i < |TrafficPollOids(ifIndex, mode, supportsCounter64)|
                         ==> TrafficPollOids(ifIndex, mode, supportsCounter64)[i] in oids
    ensures BuildSnapshot(a, ifIndex, mode) == BuildSnapshot(b, ifIndex, mode)
  {
    hide ColumnOid, Decimal;
    var asked := TrafficPollOids(ifIndex, mode, supportsCounter64);
    var n := |asked| - 4;
    assert asked[n] in oids && asked[n + 1] in oids && asked[n + 2] in oids && asked[n + 3] in oids;
    assert asked[0] in oids && asked[1] in oids && asked[n - 2] in oids && asked[n - 1] in oids;
    PairsAgree(a, b, ifIndex, Hc64);
    PairsAgree(a, b, ifIndex, Legacy32);
  }

  const ZERO := VarBind(Some(0.0), true, false)

  /** An answer with status and wide counters, asked for or not. */
  function WideReply(ifIndex: nat): Reply {
    map[ColumnOid(IF_ADMIN_STATUS, ifIndex) := ZERO, ColumnOid(IF_OPER_STATUS, ifIndex) := ZERO,
        ColumnOid(IF_HC_IN_OCTETS, ifIndex) := ZERO, ColumnOid(IF_HC_OUT_OCTETS, ifIndex) := ZERO]
  }

  /** The part of a reply that was asked for. */
  function Within(oids: seq<string>, reply: Reply): Reply {
    map oid | oid in reply && oid in oids :: reply[oid]
  }

  lemma UnaskedWideCounters(oids: seq<string>, ifIndex: nat, mode: Option<CounterMode>)
    requires !ReadsWithin(oids, ifIndex, mode, false)
    ensures var wide := WideReply(ifIndex);
            var b := BuildSnapshot(Within(oids, wide), ifIndex, mode);
            && SameAnswers(oids, wide, Within(oids, wide))
            && BuildSnapshot(wide, ifIndex, mode).counters == Some(Counters(Hc64, 0, 0))
            && (b.counters.Some? ==> b.counters.value.mode.Legacy32?)
  {
    hide ColumnOid, Decimal;
    var wide := WideReply(ifIndex);
    assert Counter(wide, IF_HC_IN_OCTETS, ifIndex) == Some(0) && Counter(wide, IF_HC_OUT_OCTETS, ifIndex) == Some(0);
    assert CounterPair(wide, ifIndex, Hc64) == Some(Counters(Hc64, 0, 0));
    assert CounterPair(Within(oids, wide), ifIndex, Hc64).None?;
  }

  lemma NarrowPollAsksNoWide(ifIndex: nat, mode: Option<CounterMode>)
    ensures !WideAsked(TrafficPollOids(ifIndex, mode, false), ifIndex)
  {
    var oids := TrafficPollOids(ifIndex, mode, false);
    forall i | 0 <= i < |oids| ensures oids[i] != ColumnOid(IF_HC_IN_OCTETS, ifIndex) {
      assert oids[i][12] == '2' && ColumnOid(IF_HC_IN_OCTETS, ifIndex)[12] == '3';
    }
  }

  /**
   * The snapshot depends on nothing but what the poll asked for exactly when the protocol knows
   * Counter64 or the narrow mode is already chosen.  Otherwise a reply that volunteers the wide
   * counters is believed.
   */
  lemma SnapshotReadsOnlyPolled(ifIndex: nat, mode: Option<CounterMode>, supportsCounter64: bool)
    ensures (forall a: Reply, b: Reply :: SameAnswers(TrafficPollOids(ifIndex, mode, supportsCounter64), a, b) ==>
               BuildSnapshot(a, ifIndex, mode) == BuildSnapshot(b, ifIndex, mode))
            <==> supportsCounter64 || mode == Some(Legacy32)
  {
    var oids := TrafficPollOids(ifIndex, mode, supportsCounter64);
    if supportsCounter64 || mode == Some(Legacy32) {
      forall a: Reply, b: Reply | SameAnswers(oids, a, b)
        ensures BuildSnapshot(a, ifIndex, mode) == BuildSnapshot(b, ifIndex, mode)
      {
        SameSnapshot(oids, a, b, ifIndex, mode, supportsCounter64);
      }
    } else {
      NarrowPollAsksNoWide(ifIndex, mode);
      hide TrafficPollOids, BuildSnapshot, Within, WideReply;
      UnaskedWideCounters(oids, ifIndex, mode);
    }
  }

  // ---------------------------------------------------------------- an interface and its log

  /** Where the next rates will be measured from. */
  datatype Baseline = Baseline(
    mode: Option<CounterMode>,
    inOctets: Option<nat>,
    outOctets: Option<nat>,
    at: Option<Time>,
    uptime: Option<int>)

  const NO_BASELINE := Baseline(None, None, None, None, None)

  /** `identity` is the name, or failing that the description, without surrounding blanks. */
  datatype Interface = Interface(
    identity: string,
    speed: Option<int>,
    monitorEnabled: bool,
    present: bool,
    baseline: Baseline,
    rx: Option<int>,
    tx: Option<int>,
    stats: Stats,
    trafficError: bool)

  datatype Sample = Sample(collectedAt: Time, rx: Option<int>, tx: Option<int>, stats: Stats)

  /** An interface row with its samples, oldest first. */
  datatype Port = Port(interface: Interface, log: seq<Sample>)

  function ClearedRuntime(interface: Interface, clearStats: bool): Interface {
    interface.(baseline := NO_BASELINE, rx := None, tx := None, trafficError := false,
               stats := if clearStats then NO_STATS else interface.stats)
  }

  /** Seconds between the baseline and now, by the device's own clock when both polls read it. */
  function Elapsed(from: Option<int>, to: Option<int>, previousAt: Time, now: Time): real {
    if from.Some? && to.Some? then (to.value - from.value) as real / 100.0
    else (now - previousAt) as real / 1000000.0
  }

  predicate Rebooted(from: Option<int>, to: Option<int>) {
    from.Some? && to.Some? && to.value < from.value
  }

  /** Rates of both directions, or none. */
  datatype Rates = Rates(rx: Option<int>, tx: Option<int>)

  function RatesSince(b: Baseline, c: Counters, uptime: Option<int>, speed: Option<int>, now: Time): (r: Rates)
    ensures r.rx.Some? <==> r.tx.Some?
  {
    var modeChanged := b.mode.Some? && b.mode != Some(c.mode);
    if modeChanged || Rebooted(b.uptime, uptime) || b.inOctets.None? || b.outOctets.None? || b.at.None? then
      Rates(None, None)
    else
      var elapsed := Elapsed(b.uptime, uptime, b.at.value, now);
      var rx := CounterRate(c.inOctets, b.inOctets.value, elapsed, c.mode, speed);
      var tx := CounterRate(c.outOctets, b.outOctets.value, elapsed, c.mode, speed);
      if rx.None? || tx.None? then Rates(None, None) else Rates(rx, tx)
  }

  predicate StatusAnswered(reply: Reply, ifIndex: nat) {
    && ColumnOid(IF_ADMIN_STATUS, ifIndex) in reply && ColumnOid(IF_OPER_STATUS, ifIndex) in reply
    && !reply[ColumnOid(IF_ADMIN_STATUS, ifIndex)].error && !reply[ColumnOid(IF_OPER_STATUS, ifIndex)].error
  }

  /** What saving a reply does to one interface; `mode` is the counter mode the request was built with. */
  function Polled(p: Port, reply: Reply, ifIndex: nat, mode: Option<CounterMode>, uptime: Option<int>, now: Time): Port
  {
    if !StatusAnswered(reply, ifIndex) then p
    else
      var snapshot := BuildSnapshot(reply, ifIndex, mode);
      var i := p.interface.(stats := snapshot.stats);
      if snapshot.counters.None? then Port(ClearedRuntime(i, false).(trafficError := true), p.log)
      else
        var c := snapshot.counters.value;
        var rates := RatesSince(i.baseline, c, uptime, i.speed, now);
        Port(i.(baseline := Baseline(Some(c.mode), Some(c.inOctets), Some(c.outOctets), Some(now), uptime),
                rx := rates.rx, tx := rates.tx, trafficError := false),
             p.log + [Sample(now, rates.rx, rates.tx, snapshot.stats)])
  }

  /** Both status variables are there without an error; a reply without them changes nothing. */
  lemma StatusDecides(p: Port, reply: Reply, ifIndex: nat, mode: Option<CounterMode>, uptime: Option<int>, now: Time)
    ensures var admin, oper := ColumnOid(IF_ADMIN_STATUS, ifIndex), ColumnOid(IF_OPER_STATUS, ifIndex);
            var answered := admin in reply && oper in reply && !reply[admin].error && !reply[oper].error;
            && (answered <==> StatusAnswered(reply, ifIndex))
            && (!answered ==> Polled(p, reply, ifIndex, mode, uptime, now) == p)
  {
  }

  predicate Counts(reply: Reply, oid: string, value: Option<nat>) {
    if value.Some? then IntegerValue(reply, oid) == Some(value.value)
      else IntegerValue(reply, oid).None? || IntegerValue(reply, oid).value < 0
  }

  /**
   * A poll that logs a sample takes baseline and sample from this very reply: the octets of the mode
   * it chose, which is the one it was asked in, or the wide one whenever the reply has both wide
   * counters; errors and discards from their own columns.  A poll that logs none keeps no baseline.
   */
  lemma PolledFromReply(p: Port, reply: Reply, ifIndex: nat, mode: Option<CounterMode>, uptime: Option<int>, now: Time)
    requires StatusAnswered(reply, ifIndex)
    ensures var q := Polled(p, reply, ifIndex, mode, uptime, now);
            var b, stats := q.interface.baseline, q.interface.stats;
            && Counts(reply, ColumnOid(IF_IN_ERRORS, ifIndex), stats.inErrors)
            && Counts(reply, ColumnOid(IF_OUT_ERRORS, ifIndex), stats.outErrors)
            && Counts(reply, ColumnOid(IF_IN_DISCARDS, ifIndex), stats.inDiscards)
            && Counts(reply, ColumnOid(IF_OUT_DISCARDS, ifIndex), stats.outDiscards)
            && if b.mode.Some? then
                 && q.log == p.log + [Sample(now, q.interface.rx, q.interface.tx, stats)]
                 && b.at == Some(now) && b.uptime == uptime && !q.interface.trafficError
                 && b.inOctets.Some? && Counts(reply, InOctetsOid(b.mode.value, ifIndex), b.inOctets)
                 && b.outOctets.Some? && Counts(reply, OutOctetsOid(b.mode.value, ifIndex), b.outOctets)
                 && (mode.Some? ==> b.mode == mode)
                 && (mode.None? && b.mode == Some(Legacy32) ==>
                       Counts(reply, InOctetsOid(Hc64, ifIndex), None)
                         || Counts(reply, OutOctetsOid(Hc64, ifIndex), None))
               else
                 q.log == p.log && b == NO_BASELINE && q.interface.rx.None? && q.interface.tx.None?
                   && q.interface.trafficError
  {
    hide ColumnOid, RatesSince, IntegerValue;
  }

  /** What one discovered row says about an interface. */
  datatype Found = Found(ifIndex: nat, identity: string, speed: Option<int>)

  predicate IdentityChanged(interface: Interface, found: Found) {
    interface.identity != "" && found.identity != "" && interface.identity != found.identity
  }

  function Discovered(p: Port, found: Found): Port {
    var kept := if IdentityChanged(p.interface, found)
                then Port(ClearedRuntime(p.interface, true).(monitorEnabled := false), [])
                else p;
    kept.(interface := kept.interface.(identity := found.identity, speed := found.speed, present := true))
  }

  function Missed(p: Port): Port {
    p.(interface := ClearedRuntime(p.interface, true).(present := false))
  }

  function Selected(p: Port, enabled: bool): Port {
    if p.interface.monitorEnabled == enabled then p
    else p.(interface := ClearedRuntime(p.interface, true).(monitorEnabled := enabled))
  }

  function Cleared(p: Port): Port {
    Port(ClearedRuntime(p.interface, true), [])
  }

  function ClearedAll(ports: map<nat, Port>): map<nat, Port> {
    map k | k in ports :: Cleared(ports[k])
  }

  /** Retention drops the samples taken before a threshold. */
  function Retained(log: seq<Sample>, threshold: Time): (r: seq<Sample>)
    ensures |r| <= |log|
  {
    if log == [] then []
    else
      var rest := Retained(log[..|log| - 1], threshold);
      if log[|log| - 1].collectedAt >= threshold then rest + [log[|log| - 1]] else rest
  }

  const NEW_INTERFACE := Interface("", None, false, true, NO_BASELINE, None, None, NO_STATS, false)

  // ---------------------------------------------------------------- what a threshold reads

  datatype Field = RxBps | TxBps | ErrorsDelta | DiscardsDelta

  function SafeCounterDelta(current: Option<int>, previous: Option<int>): Option<int> {
    if current.None? || previous.None? || current.value < previous.value then None
    else Some(current.value - previous.value)
  }

  function Total(a: Option<int>, b: Option<int>): Option<int> {
    if a.None? || b.None? then None else Some(a.value + b.value)
  }

  function StatTotal(stats: Stats, field: Field): Option<int> {
    if field.ErrorsDelta? then Total(stats.inErrors, stats.outErrors) else Total(stats.inDiscards, stats.outDiscards)
  }

  /** The value a threshold on this interface gets from a poll made at `observedAt`. */
  function InterfaceReading(p: Port, field: Field, observedAt: Time): Option<real> {
    var n := |p.log|;
    if !p.interface.monitorEnabled || !p.interface.present || n == 0 || p.log[n - 1].collectedAt != observedAt then None
    else
      var current := p.log[n - 1];
      match field
      case RxBps => if current.rx.Some? then Some(current.rx.value as real / 1000000.0) else None
      case TxBps => if current.tx.Some? then Some(current.tx.value as real / 1000000.0) else None
      case _ =>
        if n < 2 || (current.rx.None? && current.tx.None?) then None
        else
          var delta := SafeCounterDelta(StatTotal(current.stats, field), StatTotal(p.log[n - 2].stats, field));
          if delta.Some? then Some(delta.value as real) else None
  }

  /**
   * Clearing forgets the past: two interfaces alike in identity, speed, choice and presence become one,
   * and neither the cleared interface nor the first poll after it, under whatever mode it was asked,
   * gives a threshold anything.
   */
  lemma ClearedForgets(p: Port, q: Port, reply: Reply, ifIndex: nat, mode: Option<CounterMode>, uptime: Option<int>,
                       now: Time, field: Field, observedAt: Time)
    requires p.interface.identity == q.interface.identity && p.interface.speed == q.interface.speed
    requires p.interface.monitorEnabled == q.interface.monitorEnabled && p.interface.present == q.interface.present
    ensures Cleared(p) == Cleared(q)
    ensures InterfaceReading(Cleared(p), field, observedAt).None?
    ensures var first := Polled(Cleared(p), reply, ifIndex, mode, uptime, now);
            |first.log| <= 1 && InterfaceReading(first, field, observedAt).None?
  {
    hide BuildSnapshot;
    var first := Polled(Cleared(p), reply, ifIndex, mode, uptime, now);
    assert |first.log| == 1 ==> first.log[0].rx.None? && first.log[0].tx.None?;
  }

  // ---------------------------------------------------------------- the tables of one target

  /** What a poll remembers of an interface from the moment it was prepared. */
  datatype Request = Request(ifIndex: nat, mode: Option<CounterMode>)

  function PolledAll(ports: map<nat, Port>, requests: seq<Request>, reply: Reply, uptime: Option<int>,
                     now: Time): map<nat, Port>
  {
    if requests == [] then ports
    else
      var before := PolledAll(ports, requests[..|requests| - 1], reply, uptime, now);
      var r := requests[|requests| - 1];
      if r.ifIndex !in before then before
      else before[r.ifIndex := Polled(before[r.ifIndex], reply, r.ifIndex, r.mode, uptime, now)]
  }

  lemma {:induction false} UnrequestedUntouched(ports: map<nat, Port>, requests: seq<Request>, reply: Reply,
                                                uptime: Option<int>, now: Time, k: nat)
    requires k in ports && forall i :: 0 <= i < |requests| ==> requests[i].ifIndex != k
    ensures k in PolledAll(ports, requests, reply, uptime, now)
            && PolledAll(ports, requests, reply, uptime, now)[k] == ports[k]
  {
    if requests != [] {
      hide Polled;
      UnrequestedUntouched(ports, requests[..|requests| - 1], reply, uptime, now, k);
    }
  }

  /** Interface by interface: a poll saves the one request it has for an interface. */
  lemma {:induction false} RequestedPolledOnce(ports: map<nat, Port>, requests: seq<Request>, reply: Reply,
                                               uptime: Option<int>, now: Time, i: nat)
    requires i < |requests| && requests[i].ifIndex in ports
    requires forall j :: 0 <= j < |requests| && j != i ==> requests[j].ifIndex != requests[i].ifIndex
    ensures var after, k := PolledAll(ports, requests, reply, uptime, now), requests[i].ifIndex;
            k in after && after[k] == Polled(ports[k], reply, k, requests[i].mode, uptime, now)
  {
    hide Polled;
    var last := |requests| - 1;
    if i == last {
      UnrequestedUntouched(ports, requests[..last], reply, uptime, now, requests[i].ifIndex);
    } else {
      RequestedPolledOnce(ports, requests[..last], reply, uptime, now, i);
    }
  }

  predicate Seen(found: seq<Found>, ifIndex: nat) {
    exists i :: 0 <= i < |found| && found[i].ifIndex == ifIndex
  }

  /** Every discovered row applied; an interface met for the first time starts from a blank row. */
  function DiscoveredAll(ports: map<nat, Port>, found: seq<Found>): map<nat, Port> {
    if found == [] then ports
    else
      var before := DiscoveredAll(ports, found[..|found| - 1]);
      var f := found[|found| - 1];
      before[f.ifIndex := Discovered(if f.ifIndex in before then before[f.ifIndex] else Port(NEW_INTERFACE, []), f)]
  }

  /** A discovery: rows that were not seen again lose their baseline. */
  function Inventoried(ports: map<nat, Port>, found: seq<Found>): map<nat, Port> {
    var after := DiscoveredAll(ports, found);
    map k | k in after :: if Seen(found, k) then after[k] else Missed(after[k])
  }

  /** Interface by interface: a discovery applies its own row once, or marks it missing. */
  lemma {:induction false} DiscoveredPointwise(ports: map<nat, Port>, found: seq<Found>, k: nat)
    requires forall i, j :: 0 <= i < j < |found| ==> found[i].ifIndex != found[j].ifIndex
    ensures var after := DiscoveredAll(ports, found);
            && (k in after <==> k in ports || Seen(found, k))
            && (k in ports && !Seen(found, k) ==> after[k] == ports[k])
            && (forall i :: 0 <= i < |found| && found[i].ifIndex == k ==>
                  after[k] == Discovered(if k in ports then ports[k] else Port(NEW_INTERFACE, []), found[i]))
  {
    if found != [] {
      var before, f := found[..|found| - 1], found[|found| - 1];
      DiscoveredPointwise(ports, before, k);
      assert Seen(found, k) <==> Seen(before, k) || f.ifIndex == k;
      assert f.ifIndex == k ==> !Seen(before, k);
    }
  }

  /** Nothing of earlier polls is left but samples. */
  predicate Blank(i: Interface) {
    && i.baseline.mode.None? && i.baseline.inOctets.None? && i.baseline.outOctets.None? && i.baseline.at.None?
    && i.baseline.uptime.None? && i.rx.None? && i.tx.None? && !i.trafficError
    && i.stats.inErrors.None? && i.stats.outErrors.None? && i.stats.inDiscards.None? && i.stats.outDiscards.None?
  }

  /** Everything but identity, speed and presence is as it was. */
  predicate KeepsTraffic(before: Port, after: Port) {
    && after.log == before.log && after.interface.monitorEnabled == before.interface.monitorEnabled
    && after.interface.baseline == before.interface.baseline && after.interface.stats == before.interface.stats
    && after.interface.rx == before.interface.rx && after.interface.tx == before.interface.tx
    && after.interface.trafficError == before.interface.trafficError
  }

  /**
   * After a discovery, interface by interface: one that was found has what was found and is there; if it is new,
   * or was known under another name, it starts blank, unmonitored and without samples, and otherwise keeps its
   * traffic; one that was not found is blank and not there, and keeps its samples, its name and the choice.
   */
  lemma InventoryDecides(ports: map<nat, Port>, found: seq<Found>, k: nat)
    requires forall i, j :: 0 <= i < j < |found| ==> found[i].ifIndex != found[j].ifIndex
    ensures var after := Inventoried(ports, found);
            && (k in after <==> k in ports || exists i :: 0 <= i < |found| && found[i].ifIndex == k)
            && (k in ports && (forall i :: 0 <= i < |found| ==> found[i].ifIndex != k) ==>
                  var p, q := ports[k], after[k];
                  && Blank(q.interface) && !q.interface.present && q.log == p.log
                  && q.interface.identity == p.interface.identity && q.interface.speed == p.interface.speed
                  && q.interface.monitorEnabled == p.interface.monitorEnabled)
            && (forall i :: 0 <= i < |found| && found[i].ifIndex == k ==>
                  var q, f := after[k], found[i];
                  && q.interface.identity == f.identity && q.interface.speed == f.speed && q.interface.present
                  && (k !in ports || (ports[k].interface.identity != "" && f.identity != ""
                                      && ports[k].interface.identity != f.identity) ==>
                        Blank(q.interface) && !q.interface.monitorEnabled && q.log == [])
                  && (k in ports && (ports[k].interface.identity == "" || f.identity == ""
                                     || ports[k].interface.identity == f.identity) ==>
                        KeepsTraffic(ports[k], q)))
  {
    hide DiscoveredAll;
    DiscoveredPointwise(ports, found, k);
  }

  /** Choosing an interface anew blanks it, and leaves its samples, its name and whether it is there. */
  lemma SelectionDecides(p: Port, enabled: bool)
    ensures var q := Selected(p, enabled);
            && q.interface.monitorEnabled == enabled && q.log == p.log
            && q.interface.identity == p.interface.identity && q.interface.speed == p.interface.speed
            && q.interface.present == p.interface.present
            && (if p.interface.monitorEnabled == enabled then q == p else Blank(q.interface))
  {
  }

  class InterfaceTable {
    var ports: map<nat, Port>

    constructor ()
      ensures ports == map[]
    {
      ports := map[];
    }

    /** The interface loop of a poll: `requests` were prepared earlier, the rows are as they are now. */
    method SavePoll(requests: seq<Request>, reply: Reply, uptime: Option<int>, now: Time)
      modifies this
      ensures ports == PolledAll(old(ports), requests, reply, uptime, now)
    {
      for n := 0 to |requests|
        invariant ports == PolledAll(old(ports), requests[..n], reply, uptime, now)
      {
        assert requests[..n + 1][..n] == requests[..n];
        var r := requests[n];
        if r.ifIndex !in ports {
          continue;
        }
        if !StatusAnswered(reply, r.ifIndex) {
          assert ports[r.ifIndex := ports[r.ifIndex]] == ports;
          continue;
        }
        var port := ports[r.ifIndex];
        var traffic := BuildSnapshot(reply, r.ifIndex, r.mode);
        var interface := port.interface.(stats := traffic.stats);
        if traffic.counters.None? {
          interface := ClearedRuntime(interface, false).(trafficError := true);
          ports := ports[r.ifIndex := port.(interface := interface)];
          continue;
        }
        var c := traffic.counters.value;
        var b := interface.baseline;
        var modeChanged := b.mode.Some? && b.mode.value != c.mode;
        var rebooted := uptime.Some? && b.uptime.Some? && uptime.value < b.uptime.value;
        var rx, tx := None, None;
        if !modeChanged && !rebooted && b.inOctets.Some? && b.outOctets.Some? && b.at.Some? {
          var elapsed := Elapsed(b.uptime, uptime, b.at.value, now);
          rx := CounterRate(c.inOctets, b.inOctets.value, elapsed, c.mode, interface.speed);
          tx := CounterRate(c.outOctets, b.outOctets.value, elapsed, c.mode, interface.speed);
          if rx.None? || tx.None? {
            rx, tx := None, None;
          }
        }
        interface := interface.(baseline := Baseline(Some(c.mode), Some(c.inOctets), Some(c.outOctets), Some(now),
                                                     uptime),
                                rx := rx, tx := tx, trafficError := false);
        ports := ports[r.ifIndex := Port(interface, port.log + [Sample(now, rx, tx, traffic.stats)])];
      }
      assert requests[..|requests|] == requests;
    }

    /** A discovery of the whole interface table of the device. */
    method SaveInventory(found: seq<Found>)
      modifies this
      ensures ports == Inventoried(old(ports), found)
    {
      for n := 0 to |found|
        invariant ports == DiscoveredAll(old(ports), found[..n])
      {
        assert found[..n + 1][..n] == found[..n];
        var f := found[n];
        var port := Port(NEW_INTERFACE, []);
        if f.ifIndex in ports {
          port := ports[f.ifIndex];
          if IdentityChanged(port.interface, f) {
            port := Port(ClearedRuntime(port.interface, true).(monitorEnabled := false), []);
          }
        }
        ports := ports[f.ifIndex := port.(interface := port.interface.(identity := f.identity, speed := f.speed,
                                                                       present := true))];
      }
      assert found[..|found|] == found;
      ports := map k | k in ports :: if Seen(found, k) then ports[k] else Missed(ports[k]);
    }

    /** Deletes the samples of every interface, then walks the interfaces and clears what they hold. */
    method ClearData()
      modifies this
      ensures ports == ClearedAll(old(ports))
    {
      hide ClearedRuntime;
      ghost var before := ports;
      ports := map k | k in ports :: Port(ports[k].interface, []);
      var left := ports.Keys;
      while left != {}
        invariant left <= ports.Keys == before.Keys
        invariant forall k :: k in left ==> ports[k] == Port(before[k].interface, [])
        invariant forall k :: k in ports && k !in left ==> ports[k] == Cleared(before[k])
        decreases |left|
      {
        var k :| k in left;
        left := left - {k};
        ports := ports[k := Port(ClearedRuntime(ports[k].interface, true), ports[k].log)];
      }
      assert ports == ClearedAll(before);
    }
  }
}
