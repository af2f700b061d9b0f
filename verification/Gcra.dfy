/**
 One rate-limiting bucket: the generic cell rate algorithm of Annex A of ITU-T I.371 in its
 virtual-scheduling form, over integer nanoseconds. The bucket is one number, the theoretical
 arrival time (`tat`) of the next request. A bucket nobody has used has tat 0.

 Assumed of the `governor` crate, whose code is not part of this model: a request at `t` is
 admitted exactly when `tat - t <= (burst - 1) * period`; admission stores
 `max(tat, t) + period`; a rejection stores nothing. Also assumed: the clock never goes back.
 */
module Gcra {
  import opened Sequences

  const NANOS_PER_SECOND: nat := 1_000_000_000

  datatype RawQuota = RawQuota(period: nat, burst: nat)

  /** Both numbers are NonZero in the source. */
  type Quota = q: RawQuota | 0 < q.period && 0 < q.burst witness RawQuota(1, 1)

  /** The clock readings one check may make: to evict, to decide, to compute the wait. */
  datatype Ticks = Ticks(sweep: nat, check: nat, wait: nat)

  /** Outcome of a check: `Ok(())` or one of the two errors of `RateLimitError`. */
  datatype Verdict = Pass | LimitReached(remainingSeconds: nat) | KeyMissing

  /** How far tat may run ahead of the clock before requests are rejected. */
  function Slack(q: Quota): nat {
    (q.burst - 1) * q.period
  }

  predicate Admits(q: Quota, tat: nat, t: nat) {
    tat <= t + Slack(q)
  }

  /** How much of the bucket is missing at `t`, in nanoseconds of refilling. */
  function Debt(tat: nat, t: nat): nat {
    if tat > t then tat - t else 0
  }

  /** `NotUntil::wait_time_from(now).as_secs()`: saturating subtraction, then truncation. */
  function RemainingSeconds(q: Quota, tat: nat, now: nat): nat {
    if tat > now + Slack(q) then (tat - Slack(q) - now) / NANOS_PER_SECOND else 0
  }

  function Check(q: Quota, tat: nat, at: Ticks): (r: (Verdict, nat)) {
    if Admits(q, tat, at.check) then
      (Pass, (if tat > at.check then tat else at.check) + q.period)
    else
      (LimitReached(RemainingSeconds(q, tat, at.wait)), tat)
  }

  /** `GlobalLimiter`: a bucket with its quota. */
  class GlobalLimiter {
    const quota: Quota
    var tat: nat

    constructor (quota: Quota)
      ensures this.quota == quota && tat == 0
    {
      this.quota := quota;
      tat := 0;
    }

    method CheckLimit(at: Ticks) returns (verdict: Verdict)
      modifies this
      ensures (verdict, tat) == Check(quota, old(tat), at)
    {
      if tat <= at.check + (quota.burst - 1) * quota.period {
        tat := (if tat > at.check then tat else at.check) + quota.period;
        verdict := Pass;
      } else {
        var earliest := tat - (quota.burst - 1) * quota.period;
        var wait := if earliest > at.wait then earliest - at.wait else 0;
        verdict := LimitReached(wait / NANOS_PER_SECOND);
      }
    }
  }

  // ---------- Runs of one bucket ----------

  function LastCheck(ats: seq<Ticks>): nat {
    if ats == [] then 0 else ats[|ats| - 1].check
  }

  /** Readings of consecutive checks under a clock that never goes back. */
  ghost predicate Monotone(ats: seq<Ticks>) {
    ats == [] ||
    var before, at := ats[..|ats| - 1], ats[|ats| - 1];
    Monotone(before) && LastCheck(before) <= at.sweep <= at.check <= at.wait
  }

  /** A bucket together with the times at which it has admitted a request. */
  datatype History = History(tat: nat, times: seq<nat>)

  function Serve(q: Quota, h: History, at: Ticks): History {
    History(Check(q, h.tat, at).1, if Admits(q, h.tat, at.check) then h.times + [at.check] else h.times)
  }

  /** The bucket that started full and has served `ats`. */
  function Served(q: Quota, ats: seq<Ticks>): History {
    if ats == [] then History(0, [])
    else Serve(q, Served(q, ats[..|ats| - 1]), ats[|ats| - 1])
  }

  /** How many of `times` lie in the window from `from` to `to`, ends included. */
  function CountIn(times: seq<nat>, from: nat, to: nat): nat {
    if times == [] then 0
    else
      var last := times[|times| - 1];
      CountIn(times[..|times| - 1], from, to) + if from <= last <= to then 1 else 0
  }

  ghost predicate SortedUpTo(times: seq<nat>, t: nat) {
    && (forall i, j | 0 <= i < j < |times| :: times[i] <= times[j])
    && (forall i | 0 <= i < |times| :: times[i] <= t)
  }

  /** The room a window of `length` ns leaves under the documented limit. */
  function WindowLimit(q: Quota, length: nat): nat {
    q.burst + length / q.period
  }

  // ---------- Arithmetic ----------

  lemma MulMonotone(a: int, b: int, p: nat)
    requires a <= b
    ensures a * p <= b * p
  {}

  lemma DivIff(x: int, d: nat, p: nat)
    requires 0 < p
    ensures x <= d / p <==> x * p <= d
  {
    if x <= d / p {
      MulMonotone(x, d / p, p);
    } else {
      MulMonotone(d / p + 1, x, p);
      assert (d / p + 1) * p == d / p * p + p;
    }
  }

  // ---------- The window theorem ----------

  /** In a sorted list, the times from `from` on are exactly the last `CountIn` ones. */
  lemma {:induction false} CountIsSuffix(times: seq<nat>, from: nat, to: nat)
    requires SortedUpTo(times, to)
    ensures CountIn(times, from, to) <= |times|
    ensures forall i | 0 <= i < |times| :: from <= times[i] <==> |times| - CountIn(times, from, to) <= i
  {
    if times != [] {
      var init := times[..|times| - 1];
      CountIsSuffix(init, from, to);
      forall i | 0 <= i < |times|
        ensures from <= times[i] <==> |times| - CountIn(times, from, to) <= i
      {
        if i < |init| {
          assert times[i] == init[i];
          assert times[i] <= times[|times| - 1];
        }
      }
    }
  }

  /**
   The stored time is the latest of "admission j, plus one period for it and each later one".
   Both halves together say that tat remembers exactly what the window limit needs.
   */
  ghost predicate Summarises(q: Quota, tat: nat, times: seq<nat>) {
    var n := |times|;
    && (forall j | 0 <= j < n :: times[j] + (n - j) * q.period <= tat)
    && (if n == 0 then tat == 0 else exists j :: 0 <= j < n && tat == times[j] + (n - j) * q.period)
  }

  lemma SummaryStep(q: Quota, tat: nat, times: seq<nat>, t: nat)
    requires Summarises(q, tat, times)
    ensures Summarises(q, (if tat > t then tat else t) + q.period, times + [t])
  {
    var next := (if tat > t then tat else t) + q.period;
    var after := times + [t];
    var n := |times|;
    forall j | 0 <= j < n + 1
      ensures after[j] + (n + 1 - j) * q.period <= next
    {
      if j < n {
        assert after[j] == times[j];
        assert (n + 1 - j) * q.period == (n - j) * q.period + q.period;
      }
    }
    if tat > t {
      var j :| 0 <= j < n && tat == times[j] + (n - j) * q.period;
      assert (n + 1 - j) * q.period == (n - j) * q.period + q.period;
      assert next == after[j] + (n + 1 - j) * q.period;
    } else {
      assert next == after[n] + (n + 1 - n) * q.period;
    }
  }

  /** What every run keeps, as of time `now`. */
  ghost predicate Faithful(q: Quota, h: History, now: nat) {
    SortedUpTo(h.times, now) && Summarises(q, h.tat, h.times)
  }

  lemma SortedAppend(times: seq<nat>, now: nat, t: nat)
    requires SortedUpTo(times, now) && now <= t
    ensures SortedUpTo(times, t) && SortedUpTo(times + [t], t)
  {}

  lemma ServeKeepsFaithful(q: Quota, h: History, now: nat, at: Ticks)
    requires Faithful(q, h, now) && now <= at.check
    ensures Faithful(q, Serve(q, h, at), at.check)
  {
    SortedAppend(h.times, now, at.check);
    SummaryStep(q, h.tat, h.times, at.check);
  }

  lemma MonotoneInit(ats: seq<Ticks>, at: Ticks)
    ensures Monotone(ats + [at]) <==> Monotone(ats) && LastCheck(ats) <= at.sweep <= at.check <= at.wait
  {
    DropLeft(ats, [at]);
  }

  lemma ServedStep(q: Quota, ats: seq<Ticks>, at: Ticks)
    ensures Served(q, ats + [at]) == Serve(q, Served(q, ats), at)
  {
    DropLeft(ats, [at]);
  }

  /** After every run, the stored time summarises the admissions made so far. */
  lemma {:induction false} EveryRunFaithful(q: Quota, ats: seq<Ticks>)
    requires Monotone(ats)
    ensures Faithful(q, Served(q, ats), LastCheck(ats))
  {
    if ats != [] {
      var before, at := ats[..|ats| - 1], ats[|ats| - 1];
      Snoc(ats);
      MonotoneInit(before, at);
      EveryRunFaithful(q, before);
      ServeKeepsFaithful(q, Served(q, before), LastCheck(before), at);
    }
  }

  /** `c` earlier admissions from `from` on, and one more now, fit the window up to `t`. */
  lemma FitsIff(q: Quota, c: nat, from: nat, t: nat)
    requires from <= t
    ensures c + 1 <= WindowLimit(q, t - from) <==> from + c * q.period <= t + Slack(q)
  {
    DivIff(c + 1 - q.burst, t - from, q.period);
    assert (c + 1 - q.burst) * q.period == c * q.period - Slack(q);
  }

  ghost predicate EveryWindowHasRoom(q: Quota, times: seq<nat>, t: nat) {
    forall from: nat | from <= t :: CountIn(times, from, t) + 1 <= WindowLimit(q, t - from)
  }

  lemma AdmitsIffRoom(q: Quota, h: History, now: nat, t: nat)
    requires Faithful(q, h, now) && now <= t
    ensures Admits(q, h.tat, t) <==> EveryWindowHasRoom(q, h.times, t)
  {
    if Admits(q, h.tat, t) {
      forall from: nat | from <= t
        ensures CountIn(h.times, from, t) + 1 <= WindowLimit(q, t - from)
      {
        RoomWhenAdmitted(q, h.tat, h.times, from, t);
      }
    } else {
      NoRoomWhenRejected(q, h.tat, h.times, t);
    }
  }

  lemma NoRoomWhenRejected(q: Quota, tat: nat, times: seq<nat>, t: nat)
    requires Summarises(q, tat, times) && SortedUpTo(times, t) && !Admits(q, tat, t)
    ensures !EveryWindowHasRoom(q, times, t)
  {
    var j :| 0 <= j < |times| && tat == times[j] + (|times| - j) * q.period;
    CountIsSuffix(times, times[j], t);
    var c := CountIn(times, times[j], t);
    MulMonotone(|times| - j, c, q.period);
    FitsIff(q, c, times[j], t);
    assert !(CountIn(times, times[j], t) + 1 <= WindowLimit(q, t - times[j]));
  }

  lemma RoomWhenAdmitted(q: Quota, tat: nat, times: seq<nat>, from: nat, t: nat)
    requires Summarises(q, tat, times) && SortedUpTo(times, t) && Admits(q, tat, t) && from <= t
    ensures CountIn(times, from, t) + 1 <= WindowLimit(q, t - from)
  {
    CountIsSuffix(times, from, t);
    var c := CountIn(times, from, t);
    if c > 0 {
      var i := |times| - c;
      assert from <= times[i];
      assert times[i] + (|times| - i) * q.period <= tat;
      assert from + c * q.period <= t + Slack(q);
    }
    FitsIff(q, c, from, t);
  }

  lemma {:induction false} CountShrinksWindow(times: seq<nat>, from: nat, t: nat, to: nat)
    requires SortedUpTo(times, t) && t <= to
    ensures CountIn(times, from, to) == CountIn(times, from, t)
    ensures t < from ==> CountIn(times, from, to) == 0
  {
    if times != [] {
      CountShrinksWindow(times[..|times| - 1], from, t, to);
    }
  }

  lemma CountOneMore(times: seq<nat>, t: nat, from: nat, to: nat)
    ensures CountIn(times + [t], from, to) == CountIn(times, from, to) + if from <= t <= to then 1 else 0
  {
    DropLeft(times, [t]);
  }

  lemma LimitGrows(q: Quota, length: nat, longer: nat)
    requires length <= longer
    ensures WindowLimit(q, length) <= WindowLimit(q, longer)
  {
    DivIff(length / q.period, longer, q.period);
    DivIff(length / q.period, length, q.period);
  }

  /**
   Exactness, after any run: a request is admitted if and only if, counting it, no window that
   ends with it holds more than `burst + floor(length / period)` admissions. So the bucket
   never exceeds the documented limit and never rejects a request the limit has room for.
   */
  lemma AdmittedIffWindowsHaveRoom(q: Quota, ats: seq<Ticks>, at: Ticks)
    requires Monotone(ats + [at])
    ensures Check(q, Served(q, ats).tat, at).0.Pass? <==>
            EveryWindowHasRoom(q, Served(q, ats).times, at.check)
  {
    MonotoneInit(ats, at);
    EveryRunFaithful(q, ats);
    AdmitsIffRoom(q, Served(q, ats), LastCheck(ats), at.check);
  }

  /** Room in the window that ends now is room in every longer one. */
  lemma RoomLater(q: Quota, times: seq<nat>, from: nat, t: nat, to: nat)
    requires SortedUpTo(times, t) && EveryWindowHasRoom(q, times, t) && from <= t <= to
    ensures CountIn(times, from, to) + 1 <= WindowLimit(q, to - from)
  {
    CountShrinksWindow(times, from, t, to);
    LimitGrows(q, t - from, to - from);
  }

  lemma ServeKeepsBound(q: Quota, h: History, now: nat, at: Ticks, from: nat, to: nat)
    requires Faithful(q, h, now) && now <= at.check && from <= to
    requires CountIn(h.times, from, to) <= WindowLimit(q, to - from)
    ensures CountIn(Serve(q, h, at).times, from, to) <= WindowLimit(q, to - from)
  {
    CountOneMore(h.times, at.check, from, to);
    if Admits(q, h.tat, at.check) && from <= at.check <= to {
      AdmitsIffRoom(q, h, now, at.check);
      RoomLater(q, h.times, from, at.check, to);
    }
  }

  /** Over every run, no window holds more admissions than the documented limit. */
  lemma {:induction false} WindowBound(q: Quota, ats: seq<Ticks>, from: nat, to: nat)
    requires Monotone(ats) && from <= to
    ensures CountIn(Served(q, ats).times, from, to) <= WindowLimit(q, to - from)
  {
    if ats != [] {
      var before, at := ats[..|ats| - 1], ats[|ats| - 1];
      Snoc(ats);
      MonotoneInit(before, at);
      WindowBound(q, before, from, to);
      EveryRunFaithful(q, before);
      ServeKeepsBound(q, Served(q, before), LastCheck(before), at, from, to);
    }
  }

  /** Every window of these request times, admitted or not, respects the documented limit. */
  ghost predicate Conforms(q: Quota, times: seq<nat>) {
    times == [] ||
    var init, t := times[..|times| - 1], times[|times| - 1];
    Conforms(q, init) && EveryWindowHasRoom(q, init, t)
  }

  /** A client whose requests themselves respect the limit is never rejected. */
  lemma {:induction false} ConformingClientNeverRejected(q: Quota, ats: seq<Ticks>)
    requires Monotone(ats) && Conforms(q, CheckTimes(ats))
    ensures Served(q, ats).times == CheckTimes(ats)
  {
    if ats != [] {
      var before, at := ats[..|ats| - 1], ats[|ats| - 1];
      Snoc(ats);
      assert CheckTimes(ats)[..|ats| - 1] == CheckTimes(before);
      MonotoneInit(before, at);
      ConformingClientNeverRejected(q, before);
      EveryRunFaithful(q, before);
      AdmitsIffRoom(q, Served(q, before), LastCheck(before), at.check);
    }
  }

  function CheckTimes(ats: seq<Ticks>): (times: seq<nat>)
    ensures |times| == |ats| && forall i | 0 <= i < |ats| :: times[i] == ats[i].check
  {
    seq(|ats|, i requires 0 <= i < |ats| => ats[i].check)
  }

  lemma FitsInBurst(k: int, burst: int, p: int)
    requires 0 < p
    ensures k < burst <==> k * p <= (burst - 1) * p
    ensures (k + 1) * p == k * p + p
  {
    if k < burst {
      MulMonotone(k, burst - 1, p);
    } else {
      MulMonotone(burst, k, p);
      assert burst * p == (burst - 1) * p + p;
    }
  }

  lemma FullBurst(q: Quota)
    ensures q.burst * q.period == Slack(q) + q.period
  {}

  lemma ServeOneOfBurst(q: Quota, h: History, at: Ticks)
    requires |h.times| <= q.burst
    requires h == History(0, []) || h.tat == at.check + |h.times| * q.period
    ensures var h' := Serve(q, h, at);
            && h'.tat == at.check + |h'.times| * q.period
            && |h'.times| == if |h.times| < q.burst then |h.times| + 1 else q.burst
  {
    FitsInBurst(|h.times|, q.burst, q.period);
  }

  /** Tightness: of `n` simultaneous requests a full bucket admits exactly `min(n, burst)`. */
  lemma {:induction false} SimultaneousBurst(q: Quota, ats: seq<Ticks>, t: nat)
    requires forall i | 0 <= i < |ats| :: ats[i].check == t
    ensures |Served(q, ats).times| == if |ats| <= q.burst then |ats| else q.burst
    ensures ats != [] ==> Served(q, ats).tat == t + |Served(q, ats).times| * q.period
  {
    if ats != [] {
      var before := ats[..|ats| - 1];
      SimultaneousBurst(q, before, t);
      ServeOneOfBurst(q, Served(q, before), ats[|ats| - 1]);
    }
  }

  lemma ServeSteady(q: Quota, h: History, start: nat, d: nat, at: Ticks)
    requires d <= q.period && at.check == start + |h.times| * d
    requires h == History(0, []) || h.tat == start + |h.times| * q.period
    ensures Admits(q, h.tat, at.check) <==> |h.times| * (q.period - d) <= Slack(q)
    ensures Admits(q, h.tat, at.check) ==> Serve(q, h, at).tat == start + (|h.times| + 1) * q.period
  {
    var n := |h.times|;
    MulMonotone(d, q.period, n);
    assert n * (q.period - d) == n * q.period - n * d;
    assert (n + 1) * q.period == n * q.period + q.period;
    if n == 0 {
      assert n * d == 0 && n * (q.period - d) == 0;
    }
  }

  /**
   A client that sends evenly, faster than the refill, spends its burst at the difference of
   the two rates: the first `n` requests all pass exactly while `(n - 1) * (period - d)` fits
   into the slack of the bucket.
   */
  lemma {:induction false} SteadyClient(q: Quota, ats: seq<Ticks>, start: nat, d: nat)
    requires d <= q.period && forall i | 0 <= i < |ats| :: ats[i].check == start + i * d
    requires |ats| > 0 ==> (|ats| - 1) * (q.period - d) <= Slack(q)
    ensures |Served(q, ats).times| == |ats|
    ensures ats != [] ==> Served(q, ats).tat == start + |ats| * q.period
    ensures forall at: Ticks | at.check == start + |ats| * d ::
              Check(q, Served(q, ats).tat, at).0.Pass? <==> |ats| * (q.period - d) <= Slack(q)
  {
    if ats != [] {
      var before, n := ats[..|ats| - 1], |ats| - 1;
      if n > 0 {
        MulMonotone(n - 1, n, q.period - d);
      }
      SteadyClient(q, before, start, d);
      ServeSteady(q, Served(q, before), start, d, ats[n]);
    }
    forall at: Ticks | at.check == start + |ats| * d
      ensures Check(q, Served(q, ats).tat, at).0.Pass? <==> |ats| * (q.period - d) <= Slack(q)
    {
      ServeSteady(q, Served(q, ats), start, d, at);
    }
  }

  /** A client that sends no faster than the refill is never rejected. */
  lemma {:induction false} SlowClient(q: Quota, ats: seq<Ticks>, start: nat, d: nat)
    requires q.period <= d && forall i | 0 <= i < |ats| :: ats[i].check == start + i * d
    ensures |Served(q, ats).times| == |ats| && Served(q, ats).tat <= start + |ats| * d
  {
    if ats != [] {
      SlowClient(q, ats[..|ats| - 1], start, d);
      var n := |ats| - 1;
      assert (n + 1) * d == n * d + d;
    }
  }

  lemma SlackOfBurst(burst: nat, p: nat, d: nat)
    requires 0 < burst && d <= p
    ensures (burst - 1) * (p - d) <= (burst - 1) * p
    ensures burst * (p - d) <= (burst - 1) * p <==> p <= burst * d
  {
    assert (burst - 1) * (p - d) == (burst - 1) * p - (burst - 1) * d;
    assert burst * (p - d) == (burst - 1) * p + p - burst * d;
  }

  /**
   The first `burst` evenly spaced requests pass whatever their distance, and one more passes
   exactly if a request has been refilled by then.
   */
  lemma BurstThenOneMore(q: Quota, ats: seq<Ticks>, start: nat, d: nat, at: Ticks)
    requires |ats| == q.burst && at.check == start + q.burst * d
    requires forall i | 0 <= i < |ats| :: ats[i].check == start + i * d
    ensures |Served(q, ats).times| == q.burst
    ensures Check(q, Served(q, ats).tat, at).0.Pass? <==> q.period <= q.burst * d
  {
    if d <= q.period {
      SlackOfBurst(q.burst, q.period, d);
      SteadyClient(q, ats, start, d);
    } else {
      SlowClient(q, ats, start, d);
      MulMonotone(1, q.burst, d);
    }
  }

  /** A bucket drained at `t` is full again exactly `burst` periods later. */
  lemma DrainedBucketRefills(q: Quota, ats: seq<Ticks>, t: nat, now: nat)
    requires |ats| >= q.burst && forall i | 0 <= i < |ats| :: ats[i].check == t
    ensures Debt(Served(q, ats).tat, now) == 0 <==> t + q.burst * q.period <= now
  {
    SimultaneousBurst(q, ats, t);
  }

  /**
   The documented example, 50 requests per second into a bucket of 100 refilled at 10 per
   second: 124 requests pass, and the one due after 2.48 seconds is the first to be rejected.
   */
  lemma SustainedBurstExample(ats: seq<Ticks>, at: Ticks)
    requires |ats| == 124 && at.check == 2_480_000_000
    requires forall i | 0 <= i < |ats| :: ats[i].check == i * 20_000_000
    ensures var q: Quota := RawQuota(100_000_000, 100);
            |Served(q, ats).times| == 124 && !Check(q, Served(q, ats).tat, at).0.Pass?
  {
    SteadyClient(RawQuota(100_000_000, 100), ats, 0, 20_000_000);
  }

  // ---------- The reported wait ----------

  /**
   With no admission in between, a rejected caller stays rejected for the whole reported wait,
   counted from the second clock reading, and is admitted one second after it at the latest.
   Retrying exactly when told to succeeds only if the true wait was a whole number of seconds.
   */
  lemma ReportedWaitBrackets(q: Quota, tat: nat, at: Ticks, retry: nat)
    requires at.check <= at.wait <= retry && !Admits(q, tat, at.check)
    ensures Check(q, tat, at).0.LimitReached? && Check(q, tat, at).1 == tat
    ensures var told := Check(q, tat, at).0.remainingSeconds * NANOS_PER_SECOND;
            && (retry < at.wait + told ==> !Admits(q, tat, retry))
            && (at.wait + told + NANOS_PER_SECOND <= retry ==> Admits(q, tat, retry))
            && (Admits(q, tat, at.wait + told) <==>
                Admits(q, tat, at.wait) || (tat - Slack(q) - at.wait) % NANOS_PER_SECOND == 0)
  {
    if !Admits(q, tat, at.wait) {
      var wait := tat - Slack(q) - at.wait;
      assert wait == wait / NANOS_PER_SECOND * NANOS_PER_SECOND + wait % NANOS_PER_SECOND;
    }
  }

  /** However the bucket is used, it never lacks more than all of its capacity. */
  lemma {:induction false} TatAhead(q: Quota, ats: seq<Ticks>)
    requires Monotone(ats)
    ensures Served(q, ats).tat <= LastCheck(ats) + Slack(q) + q.period
  {
    if ats != [] {
      var before, at := ats[..|ats| - 1], ats[|ats| - 1];
      Snoc(ats);
      MonotoneInit(before, at);
      TatAhead(q, before);
    }
  }

  /**
   Over every run, a rejected request has at most one period to wait, counted from the last
   check before it. So the reported seconds never add up to more than a period.
   */
  lemma {:induction false} WaitWithinPeriod(q: Quota, ats: seq<Ticks>, at: Ticks)
    requires Monotone(ats + [at]) && Check(q, Served(q, ats).tat, at).0.LimitReached?
    ensures var told := Check(q, Served(q, ats).tat, at).0.remainingSeconds * NANOS_PER_SECOND;
            && told <= q.period
            && (told > 0 ==> at.wait + told <= LastCheck(ats) + q.period)
    ensures forall now: nat | LastCheck(ats) + q.period <= now :: Admits(q, Served(q, ats).tat, now)
  {
    MonotoneInit(ats, at);
    TatAhead(q, ats);
  }

  /**
   With a period of a second at most, one second is the longest wait reported, and a retry on
   time passes exactly if it was reported or the true wait was already over.
   */
  lemma OnTimeIff(q: Quota, tat: nat, at: Ticks)
    requires at.check <= at.wait && !Admits(q, tat, at.check)
    requires tat <= at.wait + Slack(q) + NANOS_PER_SECOND
    ensures var seconds := Check(q, tat, at).0.remainingSeconds;
            && seconds <= 1
            && (Admits(q, tat, at.wait + seconds * NANOS_PER_SECOND) <==> seconds == 1 || Admits(q, tat, at.wait))
  {}

  /**
   What a wait of `seconds`, reported at `told` to a bucket that has served `ats`, says of the
   answer to a retry at `now`. It is rejected before the wait is over, and passes a second after
   it at the latest, and also one period after the last check before the rejection. With a
   period of a second at most, a retry on time passes exactly if the reported wait was a second
   or every window had room again when it was reported.
   */
  ghost predicate Brackets(q: Quota, ats: seq<Ticks>, told: nat, seconds: nat, now: nat, answer: Verdict) {
    var due := told + seconds * NANOS_PER_SECOND;
    && (now < due ==> answer.LimitReached?)
    && (due + NANOS_PER_SECOND <= now || LastCheck(ats) + q.period <= now ==> answer.Pass?)
    && (q.period <= NANOS_PER_SECOND && now == due ==>
          (answer.Pass? <==> seconds == 1 || EveryWindowHasRoom(q, Served(q, ats).times, told)))
  }

  lemma WaitBrackets(q: Quota, ats: seq<Ticks>, at: Ticks, retry: Ticks, seconds: nat)
    requires Monotone(ats + [at]) && at.wait <= retry.check
    requires Check(q, Served(q, ats).tat, at).0 == LimitReached(seconds)
    ensures Brackets(q, ats, at.wait, seconds, retry.check, Check(q, Served(q, ats).tat, retry).0)
  {
    var h := Served(q, ats);
    MonotoneInit(ats, at);
    TatAhead(q, ats);
    EveryRunFaithful(q, ats);
    AdmitsIffRoom(q, h, LastCheck(ats), at.wait);
    ReportedWaitBrackets(q, h.tat, at, retry.check);
    if q.period <= NANOS_PER_SECOND {
      OnTimeIff(q, h.tat, at);
    }
  }

  // ---------- What a check depends on ----------

  /** A check sees the stored time only through the debt: stale values are interchangeable. */
  lemma DebtDecides(q: Quota, tat: nat, other: nat, now: nat, at: Ticks)
    requires Debt(tat, now) == Debt(other, now) && now <= at.check <= at.wait
    ensures Check(q, tat, at).0 == Check(q, other, at).0
    ensures Debt(Check(q, tat, at).1, at.check) == Debt(Check(q, other, at).1, at.check)
  {}

  lemma DebtDecays(tat: nat, other: nat, now: nat, later: nat)
    requires Debt(tat, now) == Debt(other, now) && now <= later
    ensures Debt(tat, later) == Debt(other, later)
  {}
}
