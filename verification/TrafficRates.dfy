/**
 * The rates a poll saves, as whole numbers: which two readings they are between, over which time, and
 * exactly when they are given.
 */
module TrafficRates {
  import opened Basics
  import opened CounterRates
  import opened InterfaceTraffic

  // ---------------------------------------------------------------- two readings

  /** Octets from one reading to the next; a smaller one has passed 2^32, and one beyond that counts as none. */
  function Passed(from: nat, to: nat): nat {
    if to >= from then to - from else Max(0, to - from + 4_294_967_296)
  }

  /** A smaller reading counts as one turn of a Counter32, from its last tenth into its first. */
  predicate Believed(from: nat, to: nat, mode: Option<CounterMode>) {
    to >= from || (mode == Some(Legacy32) && from >= 3_865_470_566 && to <= 429_496_729)
  }

  /** Both polls read the device's own clock, in hundredths of a second. */
  predicate ByUptime(from: Baseline, to: Baseline) {
    from.uptime.Some? && to.uptime.Some?
  }

  predicate WholeReading(b: Baseline) {
    b.mode.Some? && b.inOctets.Some? && b.outOctets.Some? && b.at.Some?
  }

  predicate Forward(from: Baseline, to: Baseline)
    requires from.at.Some? && to.at.Some?
  {
    if ByUptime(from, to) then to.uptime.value > from.uptime.value else to.at.value > from.at.value
  }

  /** Bits a second, rounded down: of hundredths by the device's clock, of microseconds by the portal's. */
  function BitRate(octets: nat, from: Baseline, to: Baseline): int
    requires from.at.Some? && to.at.Some? && Forward(from, to)
  {
    if ByUptime(from, to) then 800 * octets / (to.uptime.value - from.uptime.value)
    else 8_000_000 * octets / (to.at.value - from.at.value)
  }

  /** A known speed allows a quarter more. */
  predicate WithinSpeed(rate: int, speed: Option<int>) {
    speed.Some? && speed.value > 0 ==> 4 * rate <= 5 * speed.value
  }

  function InRate(from: Baseline, to: Baseline): int
    requires WholeReading(from) && WholeReading(to) && Forward(from, to)
  {
    BitRate(Passed(from.inOctets.value, to.inOctets.value), from, to)
  }

  function OutRate(from: Baseline, to: Baseline): int
    requires WholeReading(from) && WholeReading(to) && Forward(from, to)
  {
    BitRate(Passed(from.outOctets.value, to.outOctets.value), from, to)
  }

  /** When two readings in one mode give rates. */
  predicate RatesGiven(from: Baseline, to: Baseline, speed: Option<int>)
    requires WholeReading(from) && WholeReading(to)
  {
    && from.mode == to.mode && Forward(from, to)
    && Believed(from.inOctets.value, to.inOctets.value, to.mode)
    && Believed(from.outOctets.value, to.outOctets.value, to.mode)
    && WithinSpeed(InRate(from, to), speed) && WithinSpeed(OutRate(from, to), speed)
  }

  // ---------------------------------------------------------------- whole numbers

  lemma FloorOfQuotient(a: nat, b: int)
    requires b > 0
    ensures (a as real / b as real).Floor == a / b
  {
    var q, r, y := a / b, a % b, b as real;
    assert a == q * b + r;
    WholeProduct(q, b);
    assert a as real == q as real * y + r as real;
    assert a as real / y == q as real + r as real / y by {
      Split(q as real, r as real, y);
    }
    assert 0.0 <= r as real / y < 1.0 by {
      Fraction(r, b);
    }
  }

  lemma WholeProduct(q: nat, b: nat)
    ensures (q * b) as real == q as real * b as real
  {
    if q > 0 {
      WholeProduct(q - 1, b);
      assert q * b == (q - 1) * b + b;
      assert q as real * b as real == (q - 1) as real * b as real + b as real;
    }
  }

  lemma Split(q: real, r: real, y: real)
    requires y > 0.0
    ensures (q * y + r) / y == q + r / y
  {
    assert (q + r / y) * y == q * y + r;
  }

  lemma Fraction(r: nat, b: int)
    requires r < b
    ensures 0.0 <= r as real / b as real < 1.0
  {
    var x, y := r as real, b as real;
    assert x / y * y == x;
    Cancelled(x / y, y);
  }

  lemma Cancelled(q: real, y: real)
    requires y > 0.0 && 0.0 <= q * y < y
    ensures 0.0 <= q < 1.0
  {
  }

  lemma Scaled(octets: nat, span: int, unit: real)
    requires span > 0 && unit > 0.0
    ensures (octets * 8) as real / (span as real / unit) == (octets * 8) as real * unit / span as real
  {
    var x, s := (octets * 8) as real, span as real;
    assert s / unit * unit == s;
    assert x * unit / s * s == x * unit;
    assert x * unit / s * (s / unit) == x * unit / unit;
    assert x * unit / unit == x;
  }

  /** Eight bits an octet over a span given in parts of a second. */
  lemma RateOverSpan(octets: nat, span: int, parts: nat)
    requires span > 0 && (parts == 100 || parts == 1_000_000)
    ensures ((octets * 8) as real / (span as real / parts as real)).Floor == 8 * parts * octets / span
  {
    Scaled(octets, span, parts as real);
    assert (octets * 8) as real * parts as real == (8 * parts * octets) as real;
    FloorOfQuotient(8 * parts * octets, span);
  }

  lemma SpeedInQuarters(rate: int, speed: int)
    requires speed > 0
    ensures rate > (speed as real * 1.25).Floor <==> 4 * rate > 5 * speed
  {
  }

  /** One direction over a span of time. */
  lemma OneRate(from: nat, to: nat, span: int, parts: nat, mode: CounterMode, speed: Option<int>)
    requires parts == 100 || parts == 1_000_000
    ensures var r := CounterRate(to, from, span as real / parts as real, mode, speed);
            && (r.Some? <==> span > 0 && Believed(from, to, Some(mode))
                             && WithinSpeed(8 * parts * Passed(from, to) / span, speed))
            && (r.Some? ==> r.value == 8 * parts * Passed(from, to) / span)
  {
    if span > 0 {
      PositiveSpan(span, parts);
      if Believed(from, to, Some(mode)) {
        var octets := Passed(from, to);
        var delta := CounterDelta(to, from, mode).value;
        RateOverSpan(octets, span, parts);
        if speed.Some? && speed.value > 0 {
          SpeedInQuarters(8 * parts * octets / span, speed.value);
        }
        assert 8 * parts * octets / span >= 0;
        if delta < 0 {
          BelowZero((delta * 8) as real, span as real / parts as real);
        }
      }
    } else {
      NoSpan(span, parts);
    }
  }

  lemma BelowZero(x: real, y: real)
    requires x < 0.0 && y > 0.0
    ensures (x / y).Floor < 0
  {
    assert x / y * y == x;
  }

  lemma PositiveSpan(span: int, parts: nat)
    requires span > 0 && parts > 0
    ensures span as real / parts as real > 0.0
  {
  }

  lemma NoSpan(span: int, parts: nat)
    requires span <= 0 && parts > 0
    ensures span as real / parts as real <= 0.0
  {
  }

  // ---------------------------------------------------------------- what a poll computes

  lemma RatesSinceExactly(b: Baseline, c: Counters, uptime: Option<int>, speed: Option<int>, now: Time)
    requires WholeReading(b)
    ensures var r := RatesSince(b, c, uptime, speed, now);
            var to := Baseline(Some(c.mode), Some(c.inOctets), Some(c.outOctets), Some(now), uptime);
            && (r.rx.Some? <==> RatesGiven(b, to, speed))
            && (r.rx.Some? ==> r.rx == Some(InRate(b, to)) && r.tx == Some(OutRate(b, to)))
  {
    hide CounterRate;
    var span, parts := if b.uptime.Some? && uptime.Some? then uptime.value - b.uptime.value else now - b.at.value,
                       if b.uptime.Some? && uptime.Some? then 100 else 1_000_000;
    assert Elapsed(b.uptime, uptime, b.at.value, now) == span as real / parts as real;
    OneRate(b.inOctets.value, c.inOctets, span, parts, c.mode, speed);
    OneRate(b.outOctets.value, c.outOctets, span, parts, c.mode, speed);
  }

  /**
   * What a poll saves and logs: with a whole baseline, rates exactly when the two readings give them, and
   * then those of the octets passed, eight bits each; without one, none.
   */
  lemma SavedRates(p: Port, reply: Reply, ifIndex: nat, mode: Option<CounterMode>, uptime: Option<int>, now: Time)
    requires StatusAnswered(reply, ifIndex)
    requires Polled(p, reply, ifIndex, mode, uptime, now).interface.baseline.mode.Some?
    ensures var q := Polled(p, reply, ifIndex, mode, uptime, now);
            var from, to := p.interface.baseline, q.interface.baseline;
            && |q.log| == |p.log| + 1
            && q.log[|p.log|].rx == q.interface.rx && q.log[|p.log|].tx == q.interface.tx
            && WholeReading(to) && to.at == Some(now) && to.uptime == uptime
            && (q.interface.rx.Some? <==> q.interface.tx.Some?)
            && (from.inOctets.None? || from.outOctets.None? || from.at.None? ==> q.interface.rx.None?)
            && (WholeReading(from) ==>
                  && (q.interface.rx.Some? <==> RatesGiven(from, to, p.interface.speed))
                  && (q.interface.rx.Some? ==>
                        q.interface.rx == Some(InRate(from, to)) && q.interface.tx == Some(OutRate(from, to))))
  {
    hide RatesSince, BuildSnapshot, ColumnOid;
    var c := BuildSnapshot(reply, ifIndex, mode).counters.value;
    if WholeReading(p.interface.baseline) {
      RatesSinceExactly(p.interface.baseline, c, uptime, p.interface.speed, now);
    }
    NoBaselineNoRates(p.interface.baseline, c, uptime, p.interface.speed, now);
  }

  lemma NoBaselineNoRates(b: Baseline, c: Counters, uptime: Option<int>, speed: Option<int>, now: Time)
    ensures b.inOctets.None? || b.outOctets.None? || b.at.None? ==> RatesSince(b, c, uptime, speed, now).rx.None?
  {
    hide CounterRate;
  }

  // ---------------------------------------------------------------- the traffic there was

  /** What a counter shows when `octets` more have passed. */
  predicate Shows(reading: nat, before: nat, octets: nat, mode: CounterMode) {
    reading == if mode.Legacy32? then (before + octets) % 4_294_967_296 else before + octets
  }

  /** Counter32 readings are below 2^32, and between two polls less than one turn passes. */
  predicate WithinTurn(before: nat, octets: nat, mode: CounterMode) {
    mode.Legacy32? ==> before < 4_294_967_296 && octets < 4_294_967_296
  }

  lemma PassedIsTrue(before: nat, octets: nat, reading: nat, mode: CounterMode)
    requires Shows(reading, before, octets, mode) && WithinTurn(before, octets, mode)
    ensures Passed(before, reading) == octets
    ensures Believed(before, reading, Some(mode)) <==>
            (mode.Legacy32? && before + octets >= 4_294_967_296 ==> before >= 3_865_470_566 && reading <= 429_496_729)
  {
    if mode.Legacy32? {
      assert reading == if before + octets < 4_294_967_296 then before + octets else before + octets - 4_294_967_296;
    }
  }

  /**
   * If `received` and `sent` octets really passed between two polls in one mode, the saved and logged rates
   * are exactly those, over the portal's clock when a poll did not read the device's, and otherwise over
   * the device's; and they are given exactly when time went forward, a turn of either counter ran from its
   * last tenth into its first, and both rates keep within five quarters of the speed.
   */
  lemma SavedRatesAreTrue(p: Port, reply: Reply, ifIndex: nat, mode: Option<CounterMode>, uptime: Option<int>,
                          now: Time, received: nat, sent: nat)
    requires StatusAnswered(reply, ifIndex) && WholeReading(p.interface.baseline)
    requires var from, to := p.interface.baseline, Polled(p, reply, ifIndex, mode, uptime, now).interface.baseline;
             && to.mode == from.mode
             && WithinTurn(from.inOctets.value, received, from.mode.value)
             && WithinTurn(from.outOctets.value, sent, from.mode.value)
             && (to.inOctets.Some? ==> Shows(to.inOctets.value, from.inOctets.value, received, from.mode.value))
             && (to.outOctets.Some? ==> Shows(to.outOctets.value, from.outOctets.value, sent, from.mode.value))
    ensures var q := Polled(p, reply, ifIndex, mode, uptime, now);
            var from, to, speed := p.interface.baseline, q.interface.baseline, p.interface.speed;
            var device := from.uptime.Some? && uptime.Some?;
            var span := if device then uptime.value - from.uptime.value else now - from.at.value;
            var turned := (before: nat, octets: nat) => from.mode == Some(Legacy32) && before + octets >= 4_294_967_296;
            && to.inOctets.Some? && to.outOctets.Some?
            && (q.interface.rx.Some? <==>
                  && span > 0
                  && (turned(from.inOctets.value, received) ==>
                        from.inOctets.value >= 3_865_470_566 && to.inOctets.value <= 429_496_729)
                  && (turned(from.outOctets.value, sent) ==>
                        from.outOctets.value >= 3_865_470_566 && to.outOctets.value <= 429_496_729)
                  && (speed.Some? && speed.value > 0 ==>
                        4 * ((if device then 800 else 8_000_000) * received / span) <= 5 * speed.value
                        && 4 * ((if device then 800 else 8_000_000) * sent / span) <= 5 * speed.value))
            && (q.interface.rx.Some? ==>
                  && q.interface.rx == Some((if device then 800 else 8_000_000) * received / span)
                  && q.interface.tx == Some((if device then 800 else 8_000_000) * sent / span)
                  && q.log == p.log + [Sample(now, q.interface.rx, q.interface.tx, q.interface.stats)])
  {
    SavedRates(p, reply, ifIndex, mode, uptime, now);
    PolledFromReply(p, reply, ifIndex, mode, uptime, now);
    hide Polled, StatusAnswered, Passed, Believed, Shows;
    var from, to := p.interface.baseline, Polled(p, reply, ifIndex, mode, uptime, now).interface.baseline;
    PassedIsTrue(from.inOctets.value, received, to.inOctets.value, from.mode.value);
    PassedIsTrue(from.outOctets.value, sent, to.outOctets.value, from.mode.value);
  }

  // ---------------------------------------------------------------- what thresholds make of it

  /**
   * Right after a poll that logs a sample, a threshold on a monitored, present interface reads the saved rate of
   * its own direction in megabits, or how many errors, or discards, both directions together have had since
   * the sample before, if both samples have them all, the poll gave rates and they did not go back.
   */
  lemma ReadingAfterPoll(p: Port, reply: Reply, ifIndex: nat, mode: Option<CounterMode>, uptime: Option<int>, now: Time)
    requires StatusAnswered(reply, ifIndex) && p.interface.monitorEnabled && p.interface.present
    requires Polled(p, reply, ifIndex, mode, uptime, now).interface.baseline.mode.Some?
    ensures var q, n := Polled(p, reply, ifIndex, mode, uptime, now), |p.log|;
            var rx, tx, s := q.interface.rx, q.interface.tx, q.interface.stats;
            && InterfaceReading(q, RxBps, now) == (if rx.Some? then Some(rx.value as real / 1000000.0) else None)
            && InterfaceReading(q, TxBps, now) == (if tx.Some? then Some(tx.value as real / 1000000.0) else None)
            && InterfaceReading(q, ErrorsDelta, now) ==
               (if n > 0 && rx.Some? then Grown(s.inErrors, s.outErrors, p.log[n - 1].stats.inErrors,
                                                p.log[n - 1].stats.outErrors) else None)
            && InterfaceReading(q, DiscardsDelta, now) ==
               (if n > 0 && rx.Some? then Grown(s.inDiscards, s.outDiscards, p.log[n - 1].stats.inDiscards,
                                                p.log[n - 1].stats.outDiscards) else None)
  {
    SavedRates(p, reply, ifIndex, mode, uptime, now);
    PolledFromReply(p, reply, ifIndex, mode, uptime, now);
    hide Polled, StatusAnswered;
  }

  /** The growth of two counters together, when all four readings are there and the sum did not fall. */
  function Grown(a: Option<int>, b: Option<int>, oldA: Option<int>, oldB: Option<int>): Option<real> {
    if a.None? || b.None? || oldA.None? || oldB.None? || a.value + b.value < oldA.value + oldB.value then None
    else Some((a.value + b.value - oldA.value - oldB.value) as real)
  }

  /** At any other moment, or while the interface is not monitored or not there, a threshold reads nothing. */
  lemma NothingToRead(p: Port, field: Field, observedAt: Time)
    ensures (!p.interface.monitorEnabled || !p.interface.present || p.log == []
             || p.log[|p.log| - 1].collectedAt != observedAt)
            ==> InterfaceReading(p, field, observedAt).None?
  {
  }
}
