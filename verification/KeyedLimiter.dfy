/**
 A limit with a bucket per key: overridden keys have buckets of their own, all other keys share
 one quota and a map of stored times from which refilled buckets are evicted now and then.
 */
module KeyedLimiting {
  import opened Wrappers
  import opened Sequences
  import opened DocumentedLimits
  import opened Gcra
  import opened TokenBucket

  const EVICTION_INTERVAL: nat := 4096
  const U32_RANGE: nat := 0x1_0000_0000

  /** The changing part: stored times of shared and overridden keys, and the `u32` counter. */
  datatype State = State(shared: map<Key, nat>, own: map<Key, nat>, checks: nat)

  ghost predicate Fits(lim: Limits, s: State) {
    s.own.Keys == lim.own.Keys
  }

  function Fresh(lim: Limits): (s: State)
    ensures Fits(lim, s)
  {
    State(map[], map k | k in lim.own :: 0, 0)
  }

  /** A key that is not stored counts as a full bucket. */
  function Stored(shared: map<Key, nat>, key: Key): nat {
    if key in shared then shared[key] else 0
  }

  /** Keys whose buckets are full again at `t`. */
  function Stale(shared: map<Key, nat>, t: nat): set<Key> {
    set k | k in shared && shared[k] <= t
  }

  /** Whether a request is checked against the shared quota, and so counted. */
  predicate UsesShared(lim: Limits, req: Request) {
    var key := lim.KeyOf(req);
    key.Some? && key.value !in lim.own && lim.shared.Some?
  }

  /** One check that first forgets the keys in `dropped`. */
  function Handle(lim: Limits, s: State, req: Request, dropped: set<Key>): (r: (State, Verdict))
    requires Fits(lim, s)
    ensures Fits(lim, r.0)
  {
    var key := lim.KeyOf(req);
    if key.None? then (s, if lim.requireKey then KeyMissing else Pass)
    else
      var k := key.value;
      if k in lim.own then
        var (verdict, tat) := Check(lim.own[k], s.own[k], req.at);
        (s.(own := s.own[k := tat]), verdict)
      else if lim.shared.None? then (s, Pass)
      else
        var kept := s.shared - dropped;
        var (verdict, tat) := Check(lim.shared.value, Stored(kept, k), req.at);
        (s.(shared := kept[k := tat], checks := (s.checks + 1) % U32_RANGE), verdict)
  }

  /** The keys the source forgets before a check: all stale ones, once per interval. */
  function Evicted(s: State, req: Request): set<Key> {
    if s.checks % EVICTION_INTERVAL == 0 then Stale(s.shared, req.at.sweep) else {}
  }

  function Step(lim: Limits, s: State, req: Request): (r: (State, Verdict))
    requires Fits(lim, s)
    ensures Fits(lim, r.0)
  {
    Handle(lim, s, req, Evicted(s, req))
  }

  /** `KeyedLimiter`: the same limiter, updated in place. */
  class KeyedLimiter {
    const source: Source
    const quota: Option<Quota>
    const overrides: map<Key, GlobalLimiter>
    const requireKey: bool
    var shared: map<Key, nat>
    var checks: nat

    /** Every overridden key has a bucket object to itself. */
    ghost predicate Valid() {
      forall k, k' | k in overrides && k' in overrides && k != k' :: overrides[k] != overrides[k']
    }

    ghost function Repr(): set<object> {
      {this} + set k | k in overrides :: overrides[k]
    }

    ghost function Config(): Limits {
      Limits(source, quota, map k | k in overrides :: overrides[k].quota, requireKey)
    }

    ghost function View(): State
      reads Repr()
    {
      State(shared, map k | k in overrides :: overrides[k].tat, checks)
    }

    constructor (source: Source, quota: Option<Quota>, overrides: map<Key, GlobalLimiter>, requireKey: bool)
      requires forall k, k' | k in overrides && k' in overrides && k != k' :: overrides[k] != overrides[k']
      ensures Valid() && this.source == source && this.quota == quota
      ensures this.overrides == overrides && this.requireKey == requireKey
      ensures shared == map[] && checks == 0
    {
      this.source, this.quota, this.overrides, this.requireKey := source, quota, overrides, requireKey;
      shared, checks := map[], 0;
    }

    /** `retain_recent`. */
    method RetainRecent(now: nat)
      modifies this`shared
      ensures shared == old(shared) - Stale(old(shared), now)
    {
      shared := map k | k in shared && shared[k] > now :: shared[k];
    }

    /** `check_key` of the shared state. */
    method CheckKey(q: Quota, key: Key, at: Ticks) returns (verdict: Verdict)
      modifies this`shared
      ensures verdict == Check(q, Stored(old(shared), key), at).0
      ensures shared == old(shared)[key := Check(q, Stored(old(shared), key), at).1]
    {
      var tat := if key in shared then shared[key] else 0;
      var r := Check(q, tat, at);
      shared := shared[key := r.1];
      return r.0;
    }

    method CheckLimit(req: Request) returns (verdict: Verdict)
      requires Valid()
      modifies Repr()
      ensures Fits(Config(), old(View()))
      ensures (View(), verdict) == Step(Config(), old(View()), req)
    {
      var extracted := Extract(source, req);
      if extracted.None? {
        return if requireKey then KeyMissing else Pass;
      }
      var key := extracted.value;
      if key in overrides {
        verdict := CheckOverride(key, req.at);
        return;
      }
      if quota.None? {
        return Pass;
      }
      verdict := CheckShared(quota.value, key, req.at);
      assert View() == State(shared, old(View()).own, checks);
    }

    method CheckOverride(key: Key, at: Ticks) returns (verdict: Verdict)
      requires Valid() && key in overrides
      modifies Repr() - {this}
      ensures var r := Check(Config().own[key], old(View()).own[key], at);
              verdict == r.0 && View() == old(View()).(own := old(View()).own[key := r.1])
    {
      verdict := overrides[key].CheckLimit(at);
      assert View().own == old(View()).own[key := View().own[key]];
    }

    method CheckShared(q: Quota, key: Key, at: Ticks) returns (verdict: Verdict)
      modifies this`shared, this`checks
      ensures checks == (old(checks) + 1) % U32_RANGE
      ensures var stale := if old(checks) % EVICTION_INTERVAL == 0 then Stale(old(shared), at.sweep) else {};
              var kept := old(shared) - stale;
              var r := Check(q, Stored(kept, key), at);
              verdict == r.0 && shared == kept[key := r.1]
    {
      var check := checks;
      checks := (checks + 1) % U32_RANGE;
      if check % EVICTION_INTERVAL == 0 {
        RetainRecent(at.sweep);
      }
      verdict := CheckKey(q, key, at);
    }
  }

  // ---------- Runs ----------

  /** A fresh limiter that has served `reqs`, forgetting `drops[i]` before request `i`. */
  function Forgetful(lim: Limits, reqs: seq<Request>, drops: seq<set<Key>>): (s: State)
    requires |drops| == |reqs|
    ensures Fits(lim, s)
    decreases |reqs|
  {
    if reqs == [] then Fresh(lim)
    else
      var n := |reqs| - 1;
      Handle(lim, Forgetful(lim, reqs[..n], drops[..n]), reqs[n], drops[n]).0
  }

  /** Only full buckets are ever forgotten, whenever and however many. */
  ghost predicate DropsOnlyStale(lim: Limits, reqs: seq<Request>, drops: seq<set<Key>>)
    requires |drops| == |reqs|
    decreases |reqs|
  {
    reqs == [] ||
    var n := |reqs| - 1;
    && DropsOnlyStale(lim, reqs[..n], drops[..n])
    && drops[n] <= Stale(Forgetful(lim, reqs[..n], drops[..n]).shared, reqs[n].at.sweep)
  }

  /** A fresh limiter that has served `reqs`, as the source does it. */
  function After(lim: Limits, reqs: seq<Request>): (s: State)
    ensures Fits(lim, s)
    decreases |reqs|
  {
    if reqs == [] then Fresh(lim)
    else Step(lim, After(lim, reqs[..|reqs| - 1]), reqs[|reqs| - 1]).0
  }

  // ---------- Losslessness, isolation, refinement ----------

  function TatOf(lim: Limits, s: State, key: Key): nat
    requires Fits(lim, s)
  {
    if key in lim.own then s.own[key] else Stored(s.shared, key)
  }

  /** The limiter owes `key` exactly what a bucket with stored time `tat` would. */
  ghost predicate Matches(lim: Limits, s: State, key: Key, tat: nat, now: nat) {
    && Fits(lim, s)
    && Debt(TatOf(lim, s, key), now) == Debt(tat, now)
  }

  /**
   The simulation step. An absent key matches any stored time that is not ahead of the clock,
   so forgetting stale keys keeps the relation, and so do the requests of other keys.
   */
  lemma HandleSimulates(lim: Limits, s: State, req: Request, dropped: set<Key>, key: Key, tat: nat, now: nat)
    requires Matches(lim, s, key, tat, now) && lim.QuotaOf(key).Some?
    requires dropped <= Stale(s.shared, req.at.sweep)
    requires now <= req.at.sweep <= req.at.check <= req.at.wait
    ensures var (s', verdict) := Handle(lim, s, req, dropped);
            if lim.KeyOf(req) == Some(key) then
              var (v, tat') := Check(lim.QuotaOf(key).value, tat, req.at);
              verdict == v && Matches(lim, s', key, tat', req.at.check)
            else
              Matches(lim, s', key, tat, req.at.check)
  {
    DebtDecays(TatOf(lim, s, key), tat, now, req.at.sweep);
    if lim.KeyOf(req) == Some(key) {
      if key !in lim.own {
        var kept := Stored(s.shared - dropped, key);
        assert Debt(kept, req.at.sweep) == Debt(tat, req.at.sweep);
        DebtDecides(lim.shared.value, kept, tat, req.at.sweep, req.at);
      } else {
        DebtDecides(lim.own[key], s.own[key], tat, now, req.at);
      }
    } else {
      DebtDecays(TatOf(lim, s, key), tat, req.at.sweep, req.at.check);
    }
  }

  lemma {:induction false} RunSimulates(lim: Limits, reqs: seq<Request>, drops: seq<set<Key>>, key: Key)
    requires |drops| == |reqs| && InOrder(reqs) && DropsOnlyStale(lim, reqs, drops)
    requires lim.QuotaOf(key).Some?
    ensures Matches(lim, Forgetful(lim, reqs, drops), key,
                    Served(lim.QuotaOf(key).value, ChecksOf(lim, key, reqs)).tat, LastInstant(reqs))
    decreases |reqs|
  {
    if reqs != [] {
      var n := |reqs| - 1;
      var q := lim.QuotaOf(key).value;
      var before, ticks := Forgetful(lim, reqs[..n], drops[..n]), ChecksOf(lim, key, reqs[..n]);
      RunSimulates(lim, reqs[..n], drops[..n], key);
      HandleSimulates(lim, before, reqs[n], drops[n], key, Served(q, ticks).tat, LastInstant(reqs[..n]));
      ServedStep(q, ticks, reqs[n].at);
    }
  }

  /**
   The main theorem. Whatever keys are interleaved, and whatever full buckets are forgotten at
   whatever points, the limiter answers every request as the documentation says: by a token
   bucket of that key alone, kept forever.
   */
  lemma VerdictIsDocumented(lim: Limits, earlier: seq<Request>, drops: seq<set<Key>>, req: Request, dropped: set<Key>)
    requires |drops| == |earlier| && InOrder(earlier + [req])
    requires DropsOnlyStale(lim, earlier, drops)
    requires dropped <= Stale(Forgetful(lim, earlier, drops).shared, req.at.sweep)
    ensures Handle(lim, Forgetful(lim, earlier, drops), req, dropped).1 == DocumentedVerdict(lim, earlier, req)
  {
    InOrderInit(earlier, req);
    var key := lim.KeyOf(req);
    if key.Some? && lim.QuotaOf(key.value).Some? {
      var k, q := key.value, lim.QuotaOf(key.value).value;
      var ticks := ChecksOf(lim, k, earlier);
      RunSimulates(lim, earlier, drops, k);
      HandleSimulates(lim, Forgetful(lim, earlier, drops), req, dropped, k, Served(q, ticks).tat, LastInstant(earlier));
      KeyClockNext(lim, k, earlier, req);
      GcraIsTokenBucket(q, ticks, req.at);
    }
  }

  /** The evictions the source makes, written as a list of drops. */
  function Evictions(lim: Limits, reqs: seq<Request>): (drops: seq<set<Key>>)
    ensures |drops| == |reqs|
  {
    if reqs == [] then []
    else
      var before := reqs[..|reqs| - 1];
      Evictions(lim, before) + [Evicted(After(lim, before), reqs[|reqs| - 1])]
  }

  lemma {:induction false} EvictionsAreDrops(lim: Limits, reqs: seq<Request>)
    ensures Forgetful(lim, reqs, Evictions(lim, reqs)) == After(lim, reqs)
    ensures DropsOnlyStale(lim, reqs, Evictions(lim, reqs))
  {
    if reqs != [] {
      var n := |reqs| - 1;
      EvictionsAreDrops(lim, reqs[..n]);
      assert Evictions(lim, reqs)[..n] == Evictions(lim, reqs[..n]);
    }
  }

  /** The main theorem for the limiter as written, with its periodic eviction. */
  lemma SourceVerdictIsDocumented(lim: Limits, earlier: seq<Request>, req: Request)
    requires InOrder(earlier + [req])
    ensures Step(lim, After(lim, earlier), req).1 == DocumentedVerdict(lim, earlier, req)
  {
    EvictionsAreDrops(lim, earlier);
    VerdictIsDocumented(lim, earlier, Evictions(lim, earlier), req, Evicted(After(lim, earlier), req));
  }

  /** The drops of a limiter that never forgets a key. */
  function Never(n: nat): (drops: seq<set<Key>>)
    ensures |drops| == n
  {
    seq(n, _ => {})
  }

  /** Eviction is lossless: the same verdict and wait as a limiter that never forgets a key. */
  lemma EvictionIsLossless(lim: Limits, earlier: seq<Request>, req: Request)
    requires InOrder(earlier + [req])
    ensures Step(lim, After(lim, earlier), req).1
         == Handle(lim, Forgetful(lim, earlier, Never(|earlier|)), req, {}).1
  {
    SourceVerdictIsDocumented(lim, earlier, req);
    NothingForgotten(lim, earlier);
    VerdictIsDocumented(lim, earlier, Never(|earlier|), req, {});
  }

  lemma {:induction false} NothingForgotten(lim: Limits, reqs: seq<Request>)
    ensures DropsOnlyStale(lim, reqs, Never(|reqs|))
  {
    if reqs != [] {
      var n := |reqs| - 1;
      NothingForgotten(lim, reqs[..n]);
      assert Never(|reqs|)[..n] == Never(n);
    }
  }

  /** Isolation: two histories that agree on the checks of a key answer its next request alike. */
  lemma KeysAreIsolated(lim: Limits, one: seq<Request>, other: seq<Request>, req: Request)
    requires InOrder(one + [req]) && InOrder(other + [req])
    requires lim.KeyOf(req).Some? ==>
               ChecksOf(lim, lim.KeyOf(req).value, one) == ChecksOf(lim, lim.KeyOf(req).value, other)
    ensures Step(lim, After(lim, one), req).1 == Step(lim, After(lim, other), req).1
  {
    SourceVerdictIsDocumented(lim, one, req);
    SourceVerdictIsDocumented(lim, other, req);
  }

  lemma {:induction false} ChecksOfAppend(lim: Limits, key: Key, a: seq<Request>, b: seq<Request>)
    ensures ChecksOf(lim, key, a + b) == ChecksOf(lim, key, a) + ChecksOf(lim, key, b)
    decreases |b|
  {
    if b == [] {
      assert a + b == a;
    } else {
      var last := b[|b| - 1];
      InitLast(a, b);
      ChecksOfAppend(lim, key, a, b[..|b| - 1]);
      Assoc(ChecksOf(lim, key, a), ChecksOf(lim, key, b[..|b| - 1]), [last.at]);
    }
  }

  /**
   Isolation, request by request: leaving a request with another key, or with none, out of the
   history changes no answer. So no caller can use up, or win back, what belongs to another key.
   */
  lemma ForeignRequestsDoNotMatter(
    lim: Limits, before: seq<Request>, foreign: Request, after: seq<Request>, req: Request)
    requires InOrder(before + [foreign] + after + [req]) && InOrder(before + after + [req])
    requires lim.KeyOf(foreign) != lim.KeyOf(req)
    ensures Step(lim, After(lim, before + [foreign] + after), req).1 == Step(lim, After(lim, before + after), req).1
  {
    if lim.KeyOf(req).Some? {
      var key := lim.KeyOf(req).value;
      ChecksOfAppend(lim, key, before + [foreign], after);
      ChecksOfAppend(lim, key, before, after);
      ChecksOfStep(lim, key, before, foreign);
    }
    KeysAreIsolated(lim, before + [foreign] + after, before + after, req);
  }

  /** A request with a limited key passes exactly when every window of that key has room. */
  lemma PassIffKeyWindowsHaveRoom(lim: Limits, earlier: seq<Request>, req: Request)
    requires InOrder(earlier + [req])
    requires lim.KeyOf(req).Some? && lim.QuotaOf(lim.KeyOf(req).value).Some?
    ensures var key := lim.KeyOf(req).value;
            var q := lim.QuotaOf(key).value;
            Step(lim, After(lim, earlier), req).1.Pass? <==>
            EveryWindowHasRoom(q, Served(q, ChecksOf(lim, key, earlier)).times, req.at.check)
  {
    var key := lim.KeyOf(req).value;
    var q := lim.QuotaOf(key).value;
    SourceVerdictIsDocumented(lim, earlier, req);
    KeyClockNext(lim, key, earlier, req);
    GcraIsTokenBucket(q, ChecksOf(lim, key, earlier), req.at);
    AdmittedIffWindowsHaveRoom(q, ChecksOf(lim, key, earlier), req.at);
  }

  lemma StepIsGcra(lim: Limits, earlier: seq<Request>, req: Request, key: Key)
    requires InOrder(earlier + [req]) && lim.KeyOf(req) == Some(key) && lim.QuotaOf(key).Some?
    ensures var q := lim.QuotaOf(key).value;
            Step(lim, After(lim, earlier), req).1 == Check(q, Served(q, ChecksOf(lim, key, earlier)).tat, req.at).0
  {
    SourceVerdictIsDocumented(lim, earlier, req);
    KeyClockNext(lim, key, earlier, req);
    GcraIsTokenBucket(lim.QuotaOf(key).value, ChecksOf(lim, key, earlier), req.at);
  }

  // ---------- The reported wait, over runs ----------

  /** After `earlier`, the limiter admits no request with `key` among `mid`. */
  ghost predicate NothingAdmitted(lim: Limits, key: Key, earlier: seq<Request>, mid: seq<Request>) {
    mid == [] ||
    var before, last := mid[..|mid| - 1], mid[|mid| - 1];
    && NothingAdmitted(lim, key, earlier, before)
    && (lim.KeyOf(last) == Some(key) ==> !Step(lim, After(lim, earlier + before), last).1.Pass?)
  }

  lemma ChecksOfStep(lim: Limits, key: Key, reqs: seq<Request>, req: Request)
    ensures ChecksOf(lim, key, reqs + [req]) ==
            if lim.KeyOf(req) == Some(key) then ChecksOf(lim, key, reqs) + [req.at] else ChecksOf(lim, key, reqs)
  {
    DropLeft(reqs, [req]);
  }

  /** The stored time of the bucket that belongs to `key` alone. */
  function OwnTat(lim: Limits, key: Key, reqs: seq<Request>): nat
    requires lim.QuotaOf(key).Some?
  {
    Served(lim.QuotaOf(key).value, ChecksOf(lim, key, reqs)).tat
  }

  lemma RejectionKeepsTat(lim: Limits, key: Key, reqs: seq<Request>, req: Request)
    requires InOrder(reqs + [req]) && lim.QuotaOf(key).Some?
    requires lim.KeyOf(req) == Some(key) ==> !Step(lim, After(lim, reqs), req).1.Pass?
    ensures OwnTat(lim, key, reqs + [req]) == OwnTat(lim, key, reqs)
  {
    ChecksOfStep(lim, key, reqs, req);
    if lim.KeyOf(req) == Some(key) {
      StepIsGcra(lim, reqs, req, key);
      ServedStep(lim.QuotaOf(key).value, ChecksOf(lim, key, reqs), req.at);
    }
  }

  lemma {:induction false} RejectionsKeepTat(lim: Limits, key: Key, earlier: seq<Request>, mid: seq<Request>)
    requires InOrder(earlier + mid) && lim.QuotaOf(key).Some? && NothingAdmitted(lim, key, earlier, mid)
    ensures OwnTat(lim, key, earlier + mid) == OwnTat(lim, key, earlier)
    decreases |mid|
  {
    if mid == [] {
      assert earlier + mid == earlier;
    } else {
      var before, last := mid[..|mid| - 1], mid[|mid| - 1];
      Snoc(mid);
      Assoc(earlier, before, [last]);
      InOrderInit(earlier + before, last);
      RejectionsKeepTat(lim, key, earlier, before);
      RejectionKeepsTat(lim, key, earlier + before, last);
    }
  }

  /**
   The reported wait, over every run: a key is told to wait, then nothing is admitted for it
   while other keys come and go, its own retries are rejected and buckets are evicted. Whatever
   happened in between, the wait brackets the moment from which a retry passes.
   */
  lemma RetryBrackets(
    lim: Limits, key: Key, earlier: seq<Request>, req: Request, mid: seq<Request>, retry: Request, seconds: nat)
    requires InOrder(earlier + [req] + mid + [retry]) && lim.QuotaOf(key).Some?
    requires lim.KeyOf(req) == lim.KeyOf(retry) == Some(key)
    requires Step(lim, After(lim, earlier), req).1 == LimitReached(seconds)
    requires NothingAdmitted(lim, key, earlier + [req], mid)
    requires req.at.wait <= retry.at.check
    ensures Brackets(lim.QuotaOf(key).value, ChecksOf(lim, key, earlier), req.at.wait, seconds,
                     retry.at.check, Step(lim, After(lim, earlier + [req] + mid), retry).1)
  {
    InOrderInit(earlier + [req] + mid, retry);
    BucketUntouched(lim, key, earlier, req, mid);
    StepIsGcra(lim, earlier, req, key);
    KeyClockNext(lim, key, earlier, req);
    RetryFromTat(lim, key, earlier + [req] + mid, retry, ChecksOf(lim, key, earlier), req.at, seconds);
  }

  /** What a limiter reports is at most a period of the key's quota. */
  lemma ReportedWaitWithinPeriod(lim: Limits, key: Key, earlier: seq<Request>, req: Request)
    requires InOrder(earlier + [req]) && lim.KeyOf(req) == Some(key) && lim.QuotaOf(key).Some?
    requires Step(lim, After(lim, earlier), req).1.LimitReached?
    ensures var told := Step(lim, After(lim, earlier), req).1.remainingSeconds * NANOS_PER_SECOND;
            var period := lim.QuotaOf(key).value.period;
            && told <= period
            && (told > 0 ==> req.at.wait + told <= LastCheck(ChecksOf(lim, key, earlier)) + period)
  {
    StepIsGcra(lim, earlier, req, key);
    KeyClockNext(lim, key, earlier, req);
    WaitWithinPeriod(lim.QuotaOf(key).value, ChecksOf(lim, key, earlier), req.at);
  }

  /** A rejected request, and a stretch without admissions, leave the bucket of the key alone. */
  lemma BucketUntouched(lim: Limits, key: Key, earlier: seq<Request>, req: Request, mid: seq<Request>)
    requires InOrder(earlier + [req] + mid) && lim.QuotaOf(key).Some? && lim.KeyOf(req) == Some(key)
    requires !Step(lim, After(lim, earlier), req).1.Pass?
    requires NothingAdmitted(lim, key, earlier + [req], mid)
    ensures InOrder(earlier + [req]) && req.at.check <= req.at.wait
    ensures OwnTat(lim, key, earlier + [req] + mid) == OwnTat(lim, key, earlier)
  {
    DropLeft(earlier + [req], mid);
    InOrderPrefix(earlier + [req] + mid, |earlier| + 1);
    InOrderInit(earlier, req);
    RejectionKeepsTat(lim, key, earlier, req);
    RejectionsKeepTat(lim, key, earlier + [req], mid);
  }

  /** The answer to a retry when the bucket is as it was when the wait was reported. */
  lemma RetryFromTat(
    lim: Limits, key: Key, reqs: seq<Request>, retry: Request, ats: seq<Ticks>, at: Ticks, seconds: nat)
    requires InOrder(reqs + [retry]) && lim.KeyOf(retry) == Some(key) && lim.QuotaOf(key).Some?
    requires Monotone(ats + [at]) && at.wait <= retry.at.check
    requires OwnTat(lim, key, reqs) == Served(lim.QuotaOf(key).value, ats).tat
    requires Check(lim.QuotaOf(key).value, Served(lim.QuotaOf(key).value, ats).tat, at).0 == LimitReached(seconds)
    ensures Brackets(lim.QuotaOf(key).value, ats, at.wait, seconds, retry.at.check, Step(lim, After(lim, reqs), retry).1)
  {
    StepIsGcra(lim, reqs, retry, key);
    WaitBrackets(lim.QuotaOf(key).value, ats, at, retry.at, seconds);
  }

  // ---------- Bound on the stored keys ----------

  /** Bookkeeping beside a run: shared checks so far, and what the last eviction looked at. */
  datatype Audit = Audit(count: nat, sweptBefore: nat, seen: map<Key, nat>, seenAt: nat)

  function AuditNext(lim: Limits, s: State, a: Audit, req: Request): Audit {
    if !UsesShared(lim, req) then a
    else if s.checks % EVICTION_INTERVAL == 0 then Audit(a.count + 1, a.count, s.shared, req.at.sweep)
    else a.(count := a.count + 1)
  }

  function AuditAfter(lim: Limits, reqs: seq<Request>): Audit
    decreases |reqs|
  {
    if reqs == [] then Audit(0, 0, map[], 0)
    else
      var before := reqs[..|reqs| - 1];
      AuditNext(lim, After(lim, before), AuditAfter(lim, before), reqs[|reqs| - 1])
  }

  function InDebt(shared: map<Key, nat>, t: nat): set<Key> {
    set k | k in shared && shared[k] > t
  }

  /** The counter follows the true count, and the last eviction is under an interval away. */
  ghost predicate PhaseOk(checks: nat, count: nat, sweptBefore: nat) {
    checks == count % U32_RANGE && SweepOk(count, sweptBefore)
  }

  ghost predicate SweepOk(count: nat, sweptBefore: nat) {
    && sweptBefore % EVICTION_INTERVAL == 0
    && (if count == 0 then sweptBefore == 0
        else sweptBefore < count <= sweptBefore + EVICTION_INTERVAL)
  }

  ghost predicate AuditOk(s: State, a: Audit) {
    PhaseOk(s.checks, a.count, a.sweptBefore) && SizeOk(s, a)
  }

  ghost predicate SizeOk(s: State, a: Audit) {
    |s.shared| + a.sweptBefore <= |InDebt(a.seen, a.seenAt)| + a.count
  }

  lemma MultipleVanishes(k: nat, r: nat)
    ensures (4096 * k + r) % 4096 == r % 4096
  {}

  lemma WrapOnce(n: nat, wraps: nat, r: nat)
    requires n == 0x1_0000_0000 * wraps + r && r < 0x1_0000_0000
    ensures (r + 1) % 0x1_0000_0000 == (n + 1) % 0x1_0000_0000
  {}

  lemma DivModU32(n: nat)
    ensures n == 0x1_0000_0000 * (n / 0x1_0000_0000) + n % 0x1_0000_0000
  {}

  /** The wrap of the counter keeps its phase: the interval divides the range. */
  lemma WrapKeepsPhase(n: nat)
    ensures n % U32_RANGE % EVICTION_INTERVAL == n % EVICTION_INTERVAL
    ensures (n % U32_RANGE + 1) % U32_RANGE == (n + 1) % U32_RANGE
  {
    var wraps, r := n / U32_RANGE, n % U32_RANGE;
    DivModU32(n);
    MultipleVanishes(0x10_0000 * wraps, r);
    WrapOnce(n, wraps, r);
  }

  lemma GrowsByOne(m: map<Key, nat>, key: Key, tat: nat)
    ensures |m[key := tat]| <= |m| + 1
  {
    assert m[key := tat].Keys == m.Keys + {key};
    assert |m[key := tat].Keys| <= |m.Keys| + 1;
  }

  lemma {:induction false} AuditHolds(lim: Limits, reqs: seq<Request>)
    ensures AuditOk(After(lim, reqs), AuditAfter(lim, reqs))
    decreases |reqs|
  {
    if reqs != [] {
      var before, req := reqs[..|reqs| - 1], reqs[|reqs| - 1];
      AuditHolds(lim, before);
      AuditStep(lim, After(lim, before), AuditAfter(lim, before), req);
    }
  }

  lemma NextMultiple(n: nat)
    requires n % 4096 == 0
    ensures (n + 4096) % 4096 == 0
  {}

  lemma SweepStep(count: nat, sweptBefore: nat)
    requires SweepOk(count, sweptBefore)
    ensures SweepOk(count + 1, if count % EVICTION_INTERVAL == 0 then count else sweptBefore)
  {
    NextMultiple(sweptBefore);
  }

  lemma PhaseStep(checks: nat, count: nat, sweptBefore: nat)
    requires PhaseOk(checks, count, sweptBefore)
    ensures PhaseOk((checks + 1) % U32_RANGE, count + 1,
                    if checks % EVICTION_INTERVAL == 0 then count else sweptBefore)
  {
    WrapKeepsPhase(count);
    SweepStep(count, sweptBefore);
  }

  /** One shared check adds at most one key to those that survive its eviction. */
  lemma SharedGrowth(lim: Limits, s: State, req: Request)
    requires Fits(lim, s) && UsesShared(lim, req)
    ensures var s' := Step(lim, s, req).0;
            && s'.checks == (s.checks + 1) % U32_RANGE
            && |s'.shared| <= 1 + if s.checks % EVICTION_INTERVAL == 0 then |InDebt(s.shared, req.at.sweep)| else |s.shared|
  {
    var kept := s.shared - Evicted(s, req);
    var key := lim.KeyOf(req).value;
    GrowsByOne(kept, key, Step(lim, s, req).0.shared[key]);
    if s.checks % EVICTION_INTERVAL == 0 {
      assert kept.Keys == InDebt(s.shared, req.at.sweep);
      assert |kept| == |kept.Keys|;
    } else {
      assert kept == s.shared;
    }
  }

  lemma SizeStep(lim: Limits, s: State, a: Audit, req: Request)
    requires Fits(lim, s) && UsesShared(lim, req) && SizeOk(s, a)
    ensures SizeOk(Step(lim, s, req).0, AuditNext(lim, s, a, req))
  {
    SharedGrowth(lim, s, req);
  }

  lemma CountStep(lim: Limits, s: State, a: Audit, req: Request)
    requires Fits(lim, s) && UsesShared(lim, req) && PhaseOk(s.checks, a.count, a.sweptBefore)
    ensures var a' := AuditNext(lim, s, a, req);
            PhaseOk(Step(lim, s, req).0.checks, a'.count, a'.sweptBefore)
  {
    PhaseStep(s.checks, a.count, a.sweptBefore);
  }

  lemma AuditStep(lim: Limits, s: State, a: Audit, req: Request)
    requires Fits(lim, s) && AuditOk(s, a)
    ensures AuditOk(Step(lim, s, req).0, AuditNext(lim, s, a, req))
  {
    if UsesShared(lim, req) {
      SizeStep(lim, s, a, req);
      CountStep(lim, s, a, req);
    }
  }

  /**
   Eviction runs at every 4096th shared check and at no other, however often the counter has
   wrapped around, and the map never holds more keys than were in debt at the last eviction
   plus one for each shared check since, of which there are at most 4096.
   */
  lemma StoredKeysBounded(lim: Limits, reqs: seq<Request>)
    ensures var s, a := After(lim, reqs), AuditAfter(lim, reqs);
            && (s.checks % EVICTION_INTERVAL == 0 <==> a.count % EVICTION_INTERVAL == 0)
            && a.sweptBefore % EVICTION_INTERVAL == 0
            && a.count - a.sweptBefore <= EVICTION_INTERVAL
            && |s.shared| <= |InDebt(a.seen, a.seenAt)| + (a.count - a.sweptBefore)
  {
    AuditHolds(lim, reqs);
    WrapKeepsPhase(AuditAfter(lim, reqs).count);
  }
}
