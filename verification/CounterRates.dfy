/**
 * Bit rates from two readings of an octet counter.
 *
 * A Counter32 wraps to zero after 2^32 - 1 (section 7.1.6 of RFC 2578); a Counter64 does the same
 * at 2^64, which no interface reaches between two polls (section 7.1.10).
 */
module CounterRates {
  import opened Basics

  datatype CounterMode = Hc64 | Legacy32

  const COUNTER32_MODULUS: nat := 0x1_0000_0000
  const HIGH_WATERMARK: nat := COUNTER32_MODULUS * 9 / 10
  const LOW_WATERMARK: nat := COUNTER32_MODULUS / 10

  /** Octets between two readings, when they can be told. */
  function CounterDelta(newValue: int, oldValue: int, mode: CounterMode): Option<int> {
    if newValue >= oldValue then Some(newValue - oldValue)
    else if mode.Legacy32? then
      if oldValue < HIGH_WATERMARK || newValue > LOW_WATERMARK then None
      else Some(COUNTER32_MODULUS - oldValue + newValue)
    else None
  }

  /**
   * The rate in bits per second; `speed` is the interface speed, if known.  A negative quotient, which
   * needs a reading beyond 32 bits, is cut off at zero, so rounding down and toward zero agree.
   */
  function CounterRate(newValue: int, oldValue: int, elapsed: real, mode: CounterMode,
                       speed: Option<int>): (r: Option<int>)
    ensures r.Some? ==> r.value >= 0 && elapsed > 0.0
  {
    if newValue < 0 || oldValue < 0 || elapsed <= 0.0 then None
    else
      var delta := CounterDelta(newValue, oldValue, mode);
      if delta.None? then None
      else
        var rate := ((delta.value * 8) as real / elapsed).Floor;
        if speed.Some? && speed.value > 0 && rate > (speed.value as real * 1.25).Floor then None
        else Some(Max(rate, 0))
  }

  /** What the counter shows after `octets` more octets. */
  function Advanced(oldValue: nat, octets: nat, mode: CounterMode): nat {
    if mode.Legacy32? then (oldValue + octets) % COUNTER32_MODULUS else oldValue + octets
  }

  /** When the counter passes its end, and how far. */
  lemma AdvanceWraps(oldValue: nat, octets: nat)
    requires oldValue < COUNTER32_MODULUS && octets < COUNTER32_MODULUS
    ensures Advanced(oldValue, octets, Legacy32)
            == if oldValue + octets < COUNTER32_MODULUS then oldValue + octets
               else oldValue + octets - COUNTER32_MODULUS
  {
  }

  /** The octets a reading pair shows are the octets that passed, or nothing; a wrap is accepted only when short. */
  lemma DeltaIsTrue(oldValue: nat, octets: nat, mode: CounterMode)
    requires octets < COUNTER32_MODULUS && (mode.Legacy32? ==> oldValue < COUNTER32_MODULUS)
    ensures var newValue := Advanced(oldValue, octets, mode);
            var wrapped := mode.Legacy32? && oldValue + octets >= COUNTER32_MODULUS;
            && CounterDelta(newValue, oldValue, mode)
               == (if !wrapped || (oldValue >= HIGH_WATERMARK && newValue <= LOW_WATERMARK) then Some(octets) else None)
            && (wrapped && CounterDelta(newValue, oldValue, mode).Some? ==> octets <= 858_993_459)
  {
    if mode.Legacy32? {
      AdvanceWraps(oldValue, octets);
    }
  }

  lemma QuotientNonNegative(a: real, b: real)
    requires a >= 0.0 && b > 0.0
    ensures a / b >= 0.0
  {
  }

  /**
   * For a true increase of less than 2^32 octets, a rate that is given at all is the exact rate, and
   * it is given exactly when time has passed, a wrap lies inside the watermarks and the rate fits the
   * interface with a quarter to spare.
   */
  lemma RateIsExact(oldValue: nat, octets: nat, elapsed: real, mode: CounterMode, speed: Option<int>)
    requires octets < COUNTER32_MODULUS && (mode.Legacy32? ==> oldValue < COUNTER32_MODULUS)
    ensures var newValue := Advanced(oldValue, octets, mode);
            var wrapped := mode.Legacy32? && oldValue + octets >= COUNTER32_MODULUS;
            var r := CounterRate(newValue, oldValue, elapsed, mode, speed);
            && (r.Some? <==>
                  && elapsed > 0.0
                  && (wrapped ==> oldValue >= HIGH_WATERMARK && newValue <= LOW_WATERMARK)
                  && (speed.Some? && speed.value > 0 ==>
                        ((8 * octets) as real / elapsed).Floor <= (speed.value as real * 1.25).Floor))
            && (r.Some? ==> r.value == ((8 * octets) as real / elapsed).Floor)
            && (r.Some? && wrapped ==> octets <= 858_993_459)
  {
    DeltaIsTrue(oldValue, octets, mode);
    if elapsed > 0.0 {
      QuotientNonNegative((octets * 8) as real, elapsed);
    }
  }

  /** The bound on the increase is needed: one whole turn of a Counter32 leaves no trace. */
  lemma WholeTurnInvisible(oldValue: nat, octets: nat, elapsed: real, speed: Option<int>)
    requires oldValue < COUNTER32_MODULUS
    ensures CounterRate(Advanced(oldValue, octets + COUNTER32_MODULUS, Legacy32), oldValue, elapsed, Legacy32, speed)
            == CounterRate(Advanced(oldValue, octets, Legacy32), oldValue, elapsed, Legacy32, speed)
  {
    assert (oldValue + octets + COUNTER32_MODULUS) % COUNTER32_MODULUS == (oldValue + octets) % COUNTER32_MODULUS;
  }

  /** With a known speed, no rate exceeds five quarters of it. */
  lemma RateWithinSpeed(newValue: int, oldValue: int, elapsed: real, mode: CounterMode, speed: int)
    requires speed > 0
    ensures var r := CounterRate(newValue, oldValue, elapsed, mode, Some(speed));
            r.Some? ==> 4 * r.value <= 5 * speed
  {
    assert 4.0 * (speed as real * 1.25) == 5.0 * speed as real;
  }
}
