/** Rate-limit configuration, and the arithmetic that turns it into a quota. */
module Quotas {
  import opened Wrappers
  import opened DocumentedLimits
  import opened Gcra

  const U32_MAX: nat := 0xFFFF_FFFF

  type NonZeroU32 = n: int | 0 < n <= 0xFFFF_FFFF witness 1

  datatype QuotaOverride = QuotaOverride(
    rps: Option<NonZeroU32>, burstRps: Option<NonZeroU32>, burstDuration: Option<nat>)

  /** Override keys come already parsed, in map order; None is a key that did not parse. */
  datatype Override = Override(key: Option<Key>, quota: QuotaOverride)

  /** `HandlerRateLimitConfig`, with the burst duration in nanoseconds. */
  datatype Config = Config(
    key: Source, rps: Option<NonZeroU32>, burstRps: Option<NonZeroU32>, burstDuration: nat,
    overrides: seq<Override>, requireKey: bool)

  /** What `quota()` does: nothing to enforce, a quota, or a panic in `unwrap`. */
  datatype QuotaOutcome = Unlimited | Limited(quota: Quota) | Panics

  function PeakRps(rps: NonZeroU32, burstRps: Option<NonZeroU32>): NonZeroU32 {
    if burstRps.Some? && burstRps.value > rps then burstRps.value else rps
  }

  function Ceil(x: real): int {
    -((-x).Floor)
  }

  /** The `as u32` cast of a float that is not negative: it saturates. */
  function SaturateToU32(n: int): nat {
    if n < 0 then 0 else if n > U32_MAX then U32_MAX else n
  }

  /** The burst duration in seconds, times a rate. */
  function RequestsIn(duration: nat, rps: nat): real {
    duration as real / NANOS_PER_SECOND as real * rps as real
  }

  function BurstSize(c: Config): Option<NonZeroU32> {
    if c.rps.None? then None
    else
      var size := SaturateToU32(Ceil(RequestsIn(c.burstDuration, PeakRps(c.rps.value, c.burstRps))));
      Some(if size == 0 then c.rps.value else size)
  }

  function Period(c: Config): Option<nat> {
    if c.rps.None? then None else Some(NANOS_PER_SECOND / c.rps.value)
  }

  function QuotaFrom(c: Config): QuotaOutcome {
    var period := Period(c);
    if period.None? then Unlimited
    else if period.value == 0 then Panics
    else
      var burst := BurstSize(c);
      if burst.None? then Unlimited else Limited(RawQuota(period.value, burst.value))
  }

  function OrElse<T>(first: Option<T>, second: Option<T>): Option<T> {
    if first.Some? then first else second
  }

  function WithOverride(c: Config, o: QuotaOverride): Config {
    c.(rps := OrElse(o.rps, c.rps),
       burstRps := OrElse(o.burstRps, c.burstRps),
       burstDuration := if o.burstDuration.Some? then o.burstDuration.value else c.burstDuration,
       overrides := [])
  }

  // ---------- What the arithmetic means ----------

  /** The period is a second divided by rps, rounded down; it is zero exactly above 1 GHz. */
  lemma PeriodRoundsDown(rps: NonZeroU32)
    ensures var p := NANOS_PER_SECOND / rps;
            && p * rps <= NANOS_PER_SECOND < (p + 1) * rps
            && (p == 0 <==> rps > NANOS_PER_SECOND)
  {
    var p := NANOS_PER_SECOND / rps;
    assert NANOS_PER_SECOND == rps * p + NANOS_PER_SECOND % rps;
    assert (p + 1) * rps == rps * p + rps;
  }

  /** Building a quota panics exactly when rps is over 10^9; otherwise it exists iff rps is set. */
  lemma QuotaPanicsIff(c: Config)
    ensures QuotaFrom(c).Panics? <==> c.rps.Some? && c.rps.value > NANOS_PER_SECOND
    ensures QuotaFrom(c).Unlimited? <==> c.rps.None?
  {
    if c.rps.Some? {
      PeriodRoundsDown(c.rps.value);
    }
  }

  // ---------- The refill rate, over runs ----------

  /** In every window of every run, admissions stay within the burst and `rps` per second. */
  ghost predicate KeepsRate(q: Quota, rps: NonZeroU32) {
    forall ats: seq<Ticks>, from: nat, to: nat | Monotone(ats) && from <= to ::
      CountIn(Served(q, ats).times, from, to) <= q.burst + (to - from) * rps / NANOS_PER_SECOND
  }

  lemma PeriodIsExactIff(rps: NonZeroU32)
    ensures NANOS_PER_SECOND / rps * rps == NANOS_PER_SECOND <==> NANOS_PER_SECOND % rps == 0
  {
    assert NANOS_PER_SECOND == rps * (NANOS_PER_SECOND / rps) + NANOS_PER_SECOND % rps;
  }

  /** With an exact period, periods and configured requests are counted alike. */
  lemma ExactPeriodCounts(length: nat, period: nat, rps: nat)
    requires 0 < period && period * rps == NANOS_PER_SECOND
    ensures length / period <= length * rps / NANOS_PER_SECOND
  {
    var n := length / period;
    DivIff(n, length, period);
    MulMonotone(n * period, length, rps);
    assert n * period * rps == n * (period * rps);
    DivIff(n, length * rps, NANOS_PER_SECOND);
  }

  function AtZero(n: nat): (ats: seq<Ticks>)
    ensures |ats| == n && forall i | 0 <= i < n :: ats[i] == Ticks(0, 0, 0)
  {
    if n == 0 then [] else AtZero(n - 1) + [Ticks(0, 0, 0)]
  }

  lemma {:induction false} AtZeroIsMonotone(n: nat)
    ensures Monotone(AtZero(n)) && LastCheck(AtZero(n)) == 0
  {
    if n > 0 {
      AtZeroIsMonotone(n - 1);
      MonotoneInit(AtZero(n - 1), Ticks(0, 0, 0));
    }
  }

  /** The burst at once and one more request after a period all pass, within one period. */
  lemma BurstAndOneMore(q: Quota) returns (ats: seq<Ticks>)
    ensures Monotone(ats) && CountIn(Served(q, ats).times, 0, q.period) == q.burst + 1
  {
    var burst, late := AtZero(q.burst), Ticks(q.period, q.period, q.period);
    ats := burst + [late];
    AtZeroIsMonotone(q.burst);
    MonotoneInit(burst, late);
    SimultaneousBurst(q, burst, 0);
    ServedStep(q, burst, late);
    FullBurst(q);
    EveryRunFaithful(q, ats);
    AllInWindow(Served(q, ats).times, q.period);
  }

  lemma AllInWindow(times: seq<nat>, to: nat)
    requires SortedUpTo(times, to)
    ensures CountIn(times, 0, to) == |times|
  {
    CountIsSuffix(times, 0, to);
    assert times != [] ==> 0 <= times[0];
  }

  lemma TruncatedPeriodOverruns(q: Quota, rps: NonZeroU32)
    requires q.period * rps < NANOS_PER_SECOND
    ensures !KeepsRate(q, rps)
  {
    var ats := BurstAndOneMore(q);
    assert q.period * rps / NANOS_PER_SECOND == 0;
    assert CountIn(Served(q, ats).times, 0, q.period) > q.burst + (q.period - 0) * rps / NANOS_PER_SECOND;
  }

  lemma ExactPeriodKeepsRate(q: Quota, rps: NonZeroU32)
    requires q.period * rps == NANOS_PER_SECOND
    ensures KeepsRate(q, rps)
  {
    forall ats: seq<Ticks>, from: nat, to: nat | Monotone(ats) && from <= to
      ensures CountIn(Served(q, ats).times, from, to) <= q.burst + (to - from) * rps / NANOS_PER_SECOND
    {
      WindowBound(q, ats, from, to);
      ExactPeriodCounts(to - from, q.period, rps);
    }
  }

  /**
   The refill rate is the configured one, over every run and in every window, exactly when rps
   divides 10^9. Otherwise the period is rounded down and the bucket refills too fast.
   */
  lemma RateIsExactIff(c: Config, q: Quota)
    requires QuotaFrom(c) == Limited(q)
    ensures KeepsRate(q, c.rps.value) <==> NANOS_PER_SECOND % c.rps.value == 0
  {
    PeriodRoundsDown(c.rps.value);
    PeriodIsExactIff(c.rps.value);
    if NANOS_PER_SECOND % c.rps.value == 0 {
      ExactPeriodKeepsRate(q, c.rps.value);
    } else {
      TruncatedPeriodOverruns(q, c.rps.value);
    }
  }

  /**
   A limit of 600 million requests per second: one request every nanosecond, a thousand
   million per second, is admitted without end.
   */
  lemma FasterThanConfigured(c: Config, ats: seq<Ticks>)
    requires c.rps == Some(600_000_000) && c.burstRps.None? && c.burstDuration == NANOS_PER_SECOND
    requires forall i | 0 <= i < |ats| :: ats[i].check == i
    ensures QuotaFrom(c) == Limited(RawQuota(1, 600_000_000))
    ensures |Served(QuotaFrom(c).quota, ats).times| == |ats|
  {
    DefaultCapacityIsRps(c);
    SteadyClient(RawQuota(1, 600_000_000), ats, 0, 1);
  }

  // ---------- The reported wait ----------

  /** No configured period is longer than a second, and only one request per second makes it one. */
  lemma ConfiguredPeriod(c: Config, q: Quota)
    requires QuotaFrom(c) == Limited(q)
    ensures q.period <= NANOS_PER_SECOND && (q.period == NANOS_PER_SECOND <==> c.rps == Some(1))
  {
    PeriodRoundsDown(c.rps.value);
    if c.rps.value > 1 {
      MulMonotone(2, c.rps.value, q.period);
    }
  }

  /**
   What a configured limit tells a rejected caller, over every run: zero seconds, except that
   with one request per second it is one second when no window has room until then, and that
   only happens if the wait is computed at the very instant of the last check.
   */
  lemma ConfiguredWait(c: Config, q: Quota, ats: seq<Ticks>, at: Ticks, seconds: nat)
    requires QuotaFrom(c) == Limited(q) && Monotone(ats + [at])
    requires Check(q, Served(q, ats).tat, at).0 == LimitReached(seconds)
    ensures seconds <= 1
    ensures seconds == 1 ==> at.wait == LastCheck(ats)
    ensures seconds == 1 <==>
            c.rps == Some(1) && !EveryWindowHasRoom(q, Served(q, ats).times, at.wait + NANOS_PER_SECOND - 1)
  {
    var h := Served(q, ats);
    ConfiguredPeriod(c, q);
    WaitWithinPeriod(q, ats, at);
    MonotoneInit(ats, at);
    EveryRunFaithful(q, ats);
    AdmitsIffRoom(q, h, LastCheck(ats), at.wait + NANOS_PER_SECOND - 1);
  }

  /**
   Retrying after the reported wait can fail: with one request per second, used at 0, a request
   half a second later is told to wait zero seconds, and is rejected again if it does.
   */
  lemma RetryAfterReportedWaitMayFail()
    ensures var c := Config(UserId, Some(1), None, NANOS_PER_SECOND, [], false);
            var q := RawQuota(NANOS_PER_SECOND, 1);
            var half := NANOS_PER_SECOND / 2;
            var first, second := Ticks(0, 0, 0), Ticks(half, half, half);
            && QuotaFrom(c) == Limited(q) && Monotone([first, second, second])
            && Check(q, Served(q, [first]).tat, second).0 == LimitReached(0)
            && Check(q, Served(q, [first, second]).tat, second).0 == LimitReached(0)
  {
    var half := NANOS_PER_SECOND / 2;
    var first, second := Ticks(0, 0, 0), Ticks(half, half, half);
    DefaultCapacityIsRps(Config(UserId, Some(1), None, NANOS_PER_SECOND, [], false));
    MonotoneInit([], first);
    assert [] + [first] == [first];
    MonotoneInit([first], second);
    MonotoneInit([first, second], second);
    assert [first] + [second] == [first, second];
    assert [first, second] + [second] == [first, second, second];
    ServedStep(RawQuota(NANOS_PER_SECOND, 1), [first], second);
  }

  // ---------- Capacity ----------

  lemma CeilBrackets(x: real)
    ensures Ceil(x) as real - 1.0 < x <= Ceil(x) as real
  {}

  lemma CeilOfQuotient(n: nat, c: int)
    requires c == Ceil(n as real / NANOS_PER_SECOND as real)
    ensures (c - 1) * NANOS_PER_SECOND < n <= c * NANOS_PER_SECOND
  {
    CeilBrackets(n as real / NANOS_PER_SECOND as real);
  }

  lemma ProductOfCasts(a: nat, b: nat)
    ensures a as real * b as real == (a * b) as real
  {}

  lemma ScaleQuotient(a: real, b: real, p: real)
    requires p > 0.0
    ensures a / p * b == a * b / p
  {}

  /** The number whose ceiling is taken, as one fraction. */
  lemma VolumeInSeconds(duration: nat, peak: nat)
    ensures RequestsIn(duration, peak) == (duration * peak) as real / NANOS_PER_SECOND as real
  {
    ScaleQuotient(duration as real, peak as real, NANOS_PER_SECOND as real);
    ProductOfCasts(duration, peak);
  }

  lemma ProductIsZeroIff(a: nat, b: nat)
    requires b > 0
    ensures a * b == 0 <==> a == 0
  {}

  lemma SaturatedCeil(volume: nat, size: int)
    requires (size - 1) * NANOS_PER_SECOND < volume <= size * NANOS_PER_SECOND
    ensures var b := SaturateToU32(size);
            && (b == 0 <==> volume == 0)
            && (volume > 0 ==> (b - 1) * NANOS_PER_SECOND < volume)
            && (b < U32_MAX ==> volume <= b * NANOS_PER_SECOND)
  {}

  /**
   Bucket capacity in integers: `max(burst_rps, rps) * burst_duration` rounded up, capped at
   the largest `u32`; `rps` is the capacity only when the duration is zero.
   */
  lemma BurstIsRoundedUp(c: Config)
    requires c.rps.Some?
    ensures var volume := c.burstDuration * PeakRps(c.rps.value, c.burstRps);
            var b := BurstSize(c).value;
            if c.burstDuration == 0 then b == c.rps.value
            else
              && (b - 1) * NANOS_PER_SECOND < volume
              && (b < U32_MAX ==> volume <= b * NANOS_PER_SECOND)
  {
    var peak: nat := PeakRps(c.rps.value, c.burstRps);
    VolumeInSeconds(c.burstDuration, peak);
    ProductIsZeroIff(c.burstDuration, peak);
    CapacityOfVolume(c, c.burstDuration * peak);
  }

  /** The capacity, once the volume is known; nothing is multiplied any more. */
  lemma CapacityOfVolume(c: Config, volume: nat)
    requires c.rps.Some?
    requires RequestsIn(c.burstDuration, PeakRps(c.rps.value, c.burstRps)) == volume as real / NANOS_PER_SECOND as real
    ensures var b := BurstSize(c).value;
            if volume == 0 then b == c.rps.value
            else
              && (b - 1) * NANOS_PER_SECOND < volume
              && (b < U32_MAX ==> volume <= b * NANOS_PER_SECOND)
  {
    var size := Ceil(volume as real / NANOS_PER_SECOND as real);
    CeilOfQuotient(volume, size);
    SaturatedCeil(volume, size);
  }

  /** `peak` is the larger of `rps` and `burst_rps`, where the latter is set. */
  ghost predicate IsPeak(c: Config, peak: nat)
    requires c.rps.Some?
  {
    && c.rps.value <= peak && (c.burstRps.Some? ==> c.burstRps.value <= peak)
    && (peak == c.rps.value || (c.burstRps.Some? && peak == c.burstRps.value))
  }

  /**
   The quota of a configuration, from its fields: the period is a second divided by `rps`, the
   capacity the peak rate times the burst duration, rounded up, or `rps` if that is nothing.
   */
  lemma QuotaMeans(c: Config, peak: nat)
    requires c.rps.Some? && c.rps.value <= NANOS_PER_SECOND && IsPeak(c, peak)
    ensures QuotaFrom(c).Limited?
    ensures var q := QuotaFrom(c).quota;
            && q.period * c.rps.value <= NANOS_PER_SECOND < (q.period + 1) * c.rps.value
            && q.burst <= U32_MAX
            && if c.burstDuration == 0 then q.burst == c.rps.value
               else
                 && (q.burst - 1) * NANOS_PER_SECOND < c.burstDuration * peak
                 && (q.burst < U32_MAX ==> c.burstDuration * peak <= q.burst * NANOS_PER_SECOND)
  {
    PeriodRoundsDown(c.rps.value);
    BurstIsRoundedUp(c);
    assert PeakRps(c.rps.value, c.burstRps) == peak;
  }

  /** Each field of an override counts where it is set, and that of the limit where it is not. */
  lemma OverrideMeans(c: Config, o: QuotaOverride)
    ensures var d := WithOverride(c, o);
            && (o.rps.Some? ==> d.rps == o.rps) && (o.rps.None? ==> d.rps == c.rps)
            && (o.burstRps.Some? ==> d.burstRps == o.burstRps) && (o.burstRps.None? ==> d.burstRps == c.burstRps)
            && (o.burstDuration.Some? ==> d.burstDuration == o.burstDuration.value)
            && (o.burstDuration.None? ==> d.burstDuration == c.burstDuration)
            && d.key == c.key && d.requireKey == c.requireKey
  {}

  /** With the default duration of one second and no `burst_rps`, capacity equals rps. */
  lemma DefaultCapacityIsRps(c: Config)
    requires c.rps.Some? && c.burstRps.None? && c.burstDuration == NANOS_PER_SECOND
    ensures BurstSize(c) == Some(c.rps.value)
  {
    BurstIsRoundedUp(c);
  }

  /** The documented example: a bucket of 100 that, once drained, is full again after 10 seconds. */
  lemma DocumentedExample(c: Config, ats: seq<Ticks>, t: nat, now: nat)
    requires c.rps == Some(10) && c.burstRps == Some(50) && c.burstDuration == 2 * NANOS_PER_SECOND
    requires |ats| == 100 && forall i | 0 <= i < |ats| :: ats[i].check == t
    ensures QuotaFrom(c) == Limited(RawQuota(100_000_000, 100))
    ensures |Served(QuotaFrom(c).quota, ats).times| == 100
    ensures Debt(Served(QuotaFrom(c).quota, ats).tat, now) == 0 <==> t + 10 * NANOS_PER_SECOND <= now
  {
    BurstIsRoundedUp(c);
    var q := RawQuota(100_000_000, 100);
    SimultaneousBurst(q, ats, t);
    DrainedBucketRefills(q, ats, t, now);
  }

  lemma DurationFitsBurst(duration: nat, peak: nat, burst: nat, d: nat)
    requires 0 < peak && duration * peak <= burst * NANOS_PER_SECOND && NANOS_PER_SECOND <= d * peak
    ensures duration <= burst * d
  {
    MulMonotone(NANOS_PER_SECOND, d * peak, burst);
    assert burst * (d * peak) == burst * d * peak;
    if burst * d < duration {
      MulMonotone(burst * d + 1, duration, peak);
    }
  }

  /**
   A client that sends evenly at `burst_rps` or slower. The request that comes when `burst` have
   been sent, which is not before the burst duration is over, passes exactly if a request has
   been refilled by then. So the client lasts longer than the burst duration if that duration
   is at least a period, as documented, but may not if it is shorter.
   */
  lemma OutlastsBurstDurationIff(c: Config, q: Quota, ats: seq<Ticks>, start: nat, d: nat, at: Ticks)
    requires QuotaFrom(c) == Limited(q) && c.burstDuration > 0 && q.burst < U32_MAX
    requires NANOS_PER_SECOND <= d * PeakRps(c.rps.value, c.burstRps)
    requires |ats| == q.burst && at.check == start + q.burst * d
    requires forall i | 0 <= i < |ats| :: ats[i].check == start + i * d
    ensures |Served(q, ats).times| == q.burst && start + c.burstDuration <= at.check
    ensures Check(q, Served(q, ats).tat, at).0.Pass? <==> q.period <= q.burst * d
    ensures q.period <= c.burstDuration ==> Check(q, Served(q, ats).tat, at).0.Pass?
  {
    BurstIsRoundedUp(c);
    DurationFitsBurst(c.burstDuration, PeakRps(c.rps.value, c.burstRps), q.burst, d);
    BurstThenOneMore(q, ats, start, d, at);
  }

  /** The exception: 10 per second for 100 ms are allowed, and the request after 100 ms is rejected. */
  lemma ShortBurstIsCutOff(c: Config, first: Ticks, second: Ticks)
    requires c.rps == Some(1) && c.burstRps == Some(10) && c.burstDuration == 100_000_000
    requires first.check == 0 && second.check == 100_000_000
    ensures QuotaFrom(c) == Limited(RawQuota(NANOS_PER_SECOND, 1))
    ensures Check(QuotaFrom(c).quota, Served(QuotaFrom(c).quota, [first]).tat, second).0.LimitReached?
  {
    BurstIsRoundedUp(c);
    OutlastsBurstDurationIff(c, RawQuota(NANOS_PER_SECOND, 1), [first], 0, 100_000_000, second);
  }

  /** Two configs whose volumes are equal have equal bursts, when the duration is not zero. */
  lemma BurstFollowsVolume(c: Config, d: Config)
    requires c.rps.Some? && d.rps.Some? && c.burstDuration == d.burstDuration != 0
    requires PeakRps(c.rps.value, c.burstRps) == PeakRps(d.rps.value, d.burstRps)
    ensures BurstSize(c) == BurstSize(d)
  {
    BurstIsRoundedUp(c);
    BurstIsRoundedUp(d);
  }

  /**
   Lowering rps for a key under a limit with a large `burst_rps` keeps the large burst; with
   a zero burst duration it does not, and the burst falls to the new rps.
   */
  lemma LoweringRpsKeepsBurst(c: Config, o: QuotaOverride)
    requires c.rps.Some? && c.burstRps.Some? && o.rps.Some?
    requires o.rps.value <= c.rps.value <= c.burstRps.value
    requires o.burstRps.None? && o.burstDuration.None?
    ensures BurstSize(WithOverride(c, o)) == if c.burstDuration == 0 then o.rps else BurstSize(c)
  {
    BurstIsRoundedUp(WithOverride(c, o));
    if c.burstDuration != 0 {
      BurstFollowsVolume(WithOverride(c, o), c);
    }
  }

  /**
   An override imposes nothing exactly when neither it nor the limit sets rps. So whenever an
   override is dropped for want of a quota, there is no default quota to expose its key to.
   */
  lemma DroppedOverrideHasNoDefault(c: Config, o: QuotaOverride)
    ensures QuotaFrom(WithOverride(c, o)).Unlimited? <==> o.rps.None? && c.rps.None?
    ensures QuotaFrom(WithOverride(c, o)).Unlimited? ==> QuotaFrom(c).Unlimited?
  {
    QuotaPanicsIff(c);
    QuotaPanicsIff(WithOverride(c, o));
  }

  /** The exception to the above: 5 instead of 10 per second, with a zero burst duration. */
  lemma ZeroDurationLosesBurst()
    ensures var c := Config(UserId, Some(10), Some(50), 0, [], false);
            var o := QuotaOverride(Some(5), None, None);
            BurstSize(c) == Some(10) && BurstSize(WithOverride(c, o)) == Some(5)
  {
    var c := Config(UserId, Some(10), Some(50), 0, [], false);
    var o := QuotaOverride(Some(5), None, None);
    BurstIsRoundedUp(c);
    BurstIsRoundedUp(WithOverride(c, o));
  }
}
