/**
 The bucket the documentation of the rate limiter describes: it holds up to `burst` requests,
 starts full, refills continuously at one request per period, each admitted request takes one,
 and a rejected request takes nothing. This module proves that `Gcra` is that bucket.
 */
module TokenBucket {
  import opened Sequences
  import opened Gcra

  datatype Bucket = Bucket(tokens: real, asOf: nat)

  function Full(q: Quota): Bucket {
    Bucket(q.burst as real, 0)
  }

  /** Tokens at `t`: whatever was left, refilled at one per period, up to the capacity. */
  function Tokens(q: Quota, b: Bucket, t: nat): real
    requires b.asOf <= t
  {
    var refilled := b.tokens + (t - b.asOf) as real / q.period as real;
    if refilled < q.burst as real then refilled else q.burst as real
  }

  /** Whole seconds until the bucket holds one token, seen from `t`. */
  function WholeSecondsToToken(q: Quota, b: Bucket, t: nat): int
    requires b.asOf <= t
  {
    var missing := 1.0 - Tokens(q, b, t);
    if missing <= 0.0 then 0
    else (missing * q.period as real / NANOS_PER_SECOND as real).Floor
  }

  function Take(q: Quota, b: Bucket, at: Ticks): (Verdict, Bucket)
    requires b.asOf <= at.check <= at.wait
  {
    var tokens := Tokens(q, b, at.check);
    if tokens >= 1.0 then (Pass, Bucket(tokens - 1.0, at.check))
    else
      var wait := WholeSecondsToToken(q, b, at.wait);
      (LimitReached(if wait >= 0 then wait else 0), b)
  }

  /** The tokens missing from the bucket are the debt of the stored time, counted in periods. */
  ghost predicate Represents(q: Quota, tat: nat, b: Bucket, now: nat) {
    && b.asOf <= now
    && Tokens(q, b, now) == q.burst as real - Debt(tat, now) as real / q.period as real
    && b.tokens <= q.burst as real
  }

  lemma DivAdd(a: real, b: real, p: real)
    requires p > 0.0
    ensures (a + b) / p == a / p + b / p
  {}

  lemma DivSign(a: real, p: real)
    requires p > 0.0
    ensures a / p >= 0.0 <==> a >= 0.0
    ensures a / p > 0.0 <==> a > 0.0
  {}

  lemma DivSelf(p: real)
    requires p > 0.0
    ensures p / p == 1.0
  {}

  /** Time passing keeps the two in step: debt drains at the rate tokens come in. */
  lemma RefillKeeps(q: Quota, tat: nat, b: Bucket, now: nat, later: nat)
    requires Represents(q, tat, b, now) && now <= later
    ensures Represents(q, tat, b, later)
  {
    var p, burst := q.period as real, q.burst as real;
    var debt, passed := Debt(tat, now) as real, (later - now) as real;
    DivAdd((now - b.asOf) as real, passed, p);
    DivAdd(debt - passed, passed, p);
    DivSign(passed, p);
    DivSign(passed - debt, p);
    DivAdd(passed - debt, debt - passed, p);
    DivSign(debt, p);
  }

  lemma TokenIffAdmits(q: Quota, tat: nat, b: Bucket, now: nat)
    requires Represents(q, tat, b, now)
    ensures Tokens(q, b, now) >= 1.0 <==> Admits(q, tat, now)
    ensures (1.0 - Tokens(q, b, now)) * q.period as real == Debt(tat, now) as real - Slack(q) as real
  {
    var p, burst, debt := q.period as real, q.burst as real, Debt(tat, now) as real;
    assert debt / p * p == debt;
    assert (q.burst - 1) as real * p == Slack(q) as real;
    var short := 1.0 - Tokens(q, b, now);
    assert short == debt / p - (q.burst - 1) as real;
    assert short * p == debt - Slack(q) as real;
    assert short > 0.0 <==> short * p > 0.0;
    assert Debt(tat, now) > Slack(q) <==> !Admits(q, tat, now);
  }

  lemma WholeSeconds(n: nat)
    ensures (n as real / NANOS_PER_SECOND as real).Floor == n / NANOS_PER_SECOND
  {
    var k := n / NANOS_PER_SECOND;
    assert n == k * NANOS_PER_SECOND + n % NANOS_PER_SECOND;
    assert k as real <= n as real / NANOS_PER_SECOND as real < (k + 1) as real;
  }

  lemma WaitsAgree(q: Quota, tat: nat, b: Bucket, now: nat)
    requires Represents(q, tat, b, now)
    ensures WholeSecondsToToken(q, b, now) == RemainingSeconds(q, tat, now)
  {
    TokenIffAdmits(q, tat, b, now);
    if !Admits(q, tat, now) {
      WholeSeconds(tat - Slack(q) - now);
    }
  }

  /** Debt grows by a period when a token goes: in tokens, one more is missing. */
  lemma OneTokenLess(burst: real, debt: real, p: real)
    requires p > 0.0
    ensures burst - debt / p - 1.0 == burst - (debt + p) / p
  {
    DivAdd(debt, p, p);
    DivSelf(p);
  }

  lemma AtOnce(q: Quota, b: Bucket)
    requires b.tokens <= q.burst as real
    ensures Tokens(q, b, b.asOf) == b.tokens
  {
    DivZero(q.period as real);
  }

  lemma DivZero(p: real)
    requires p > 0.0
    ensures 0.0 / p == 0.0
  {}

  lemma AdmissionKeeps(q: Quota, tat: nat, b: Bucket, t: nat)
    requires Represents(q, tat, b, t) && Admits(q, tat, t)
    ensures Represents(q, (if tat > t then tat else t) + q.period, Bucket(Tokens(q, b, t) - 1.0, t), t)
  {
    var debt := Debt(tat, t);
    OneTokenLess(q.burst as real, debt as real, q.period as real);
    DivSign(debt as real, q.period as real);
    AtOnce(q, Bucket(Tokens(q, b, t) - 1.0, t));
    assert Debt((if tat > t then tat else t) + q.period, t) == debt + q.period;
  }

  /**
   Refinement, one step: from representing states, the single stored number and the documented
   bucket give the same verdict, reported wait included, and end in representing states.
   */
  lemma CheckIsTake(q: Quota, tat: nat, b: Bucket, now: nat, at: Ticks)
    requires Represents(q, tat, b, now) && now <= at.check <= at.wait
    ensures Check(q, tat, at).0 == Take(q, b, at).0
    ensures Represents(q, Check(q, tat, at).1, Take(q, b, at).1, at.check)
  {
    RefillKeeps(q, tat, b, now, at.check);
    TokenIffAdmits(q, tat, b, at.check);
    if Admits(q, tat, at.check) {
      AdmissionKeeps(q, tat, b, at.check);
    } else {
      RefillKeeps(q, tat, b, at.check, at.wait);
      WaitsAgree(q, tat, b, at.wait);
    }
  }

  /** The documented bucket after serving `ats` from full. */
  function BucketAfter(q: Quota, ats: seq<Ticks>): (b: Bucket)
    requires Monotone(ats)
    ensures b.asOf <= LastCheck(ats)
    decreases |ats|
  {
    if ats == [] then Full(q)
    else
      var before, at := ats[..|ats| - 1], ats[|ats| - 1];
      Snoc(ats);
      MonotoneInit(before, at);
      Take(q, BucketAfter(q, before), at).1
  }

  /** What the documentation says a fresh bucket answers to `at` after the checks `earlier`. */
  ghost function Documented(q: Quota, earlier: seq<Ticks>, at: Ticks): Verdict
    requires Monotone(earlier + [at])
  {
    MonotoneInit(earlier, at);
    Take(q, BucketAfter(q, earlier), at).0
  }

  lemma {:induction false} RunsRepresent(q: Quota, ats: seq<Ticks>)
    requires Monotone(ats)
    ensures Represents(q, Served(q, ats).tat, BucketAfter(q, ats), LastCheck(ats))
  {
    if ats != [] {
      var before, at := ats[..|ats| - 1], ats[|ats| - 1];
      Snoc(ats);
      MonotoneInit(before, at);
      RunsRepresent(q, before);
      CheckIsTake(q, Served(q, before).tat, BucketAfter(q, before), LastCheck(before), at);
    }
  }

  /** Refinement, every run: verdict and wait are those of the documented token bucket. */
  lemma GcraIsTokenBucket(q: Quota, earlier: seq<Ticks>, at: Ticks)
    requires Monotone(earlier + [at])
    ensures Check(q, Served(q, earlier).tat, at).0 == Documented(q, earlier, at)
  {
    MonotoneInit(earlier, at);
    RunsRepresent(q, earlier);
    CheckIsTake(q, Served(q, earlier).tat, BucketAfter(q, earlier), LastCheck(earlier), at);
  }
}
