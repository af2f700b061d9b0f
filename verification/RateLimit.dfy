/** The ordered chain of limits in front of a handler, and how it is built from configuration. */
module RateLimiting {
  import opened Sequences
  import opened Wrappers
  import opened DocumentedLimits
  import opened Gcra
  import opened KeyedLimiting
  import opened Quotas

  // ---------- Limits of a configuration ----------

  function LimitedTo(c: Config): Option<Quota> {
    var q := QuotaFrom(c);
    if q.Limited? then Some(q.quota) else None
  }

  /** Quotas of overridden keys; a later entry with a quota replaces an earlier one. */
  function OwnQuotas(c: Config, entries: seq<Override>): map<Key, Quota> {
    if entries == [] then map[]
    else
      var own, last := OwnQuotas(c, entries[..|entries| - 1]), entries[|entries| - 1];
      var quota := LimitedTo(WithOverride(c, last.quota));
      if last.key.Some? && quota.Some? then own[last.key.value := quota.value] else own
  }

  /** The limit a config describes, whether or not it can ever reject. */
  function LimitsOf(c: Config): Limits {
    if c.key.Global? then
      var quota := LimitedTo(c);
      Limits(Global, None, if quota.Some? then map[Everyone := quota.value] else map[], false)
    else
      Limits(c.key, LimitedTo(c), OwnQuotas(c, c.overrides), c.requireKey)
  }

  /** The test by which the source leaves a limiter out. */
  predicate NeverRejects(lim: Limits) {
    lim.shared.None? && lim.own == map[] && !lim.requireKey
  }

  /** `filter_map(make_limiter)`. */
  function Kept(lims: seq<Limits>): seq<Limits> {
    if lims == [] then []
    else (if NeverRejects(lims[0]) then [] else [lims[0]]) + Kept(lims[1..])
  }

  /** Every `unwrap` reached while building the limiter of `c` succeeds. */
  predicate Buildable(c: Config) {
    && !QuotaFrom(c).Panics?
    && (!c.key.Global? ==>
          forall o | o in c.overrides && o.key.Some? :: !QuotaFrom(WithOverride(c, o.quota)).Panics?)
  }

  /** Entry `i` overrides `key` and comes to a quota. */
  ghost predicate Gives(c: Config, entries: seq<Override>, key: Key, i: int) {
    0 <= i < |entries| && entries[i].key == Some(key) && LimitedTo(WithOverride(c, entries[i].quota)).Some?
  }

  /** `i` is the last entry that gives `key` a quota, or -1 when none does. */
  ghost predicate GivesLast(c: Config, entries: seq<Override>, key: Key, i: int) {
    && -1 <= i < |entries|
    && (i >= 0 ==> Gives(c, entries, key, i))
    && forall j | i < j < |entries| :: !Gives(c, entries, key, j)
  }

  lemma {:induction false} OwnQuotaOf(c: Config, entries: seq<Override>, key: Key, i: int)
    requires GivesLast(c, entries, key, i)
    ensures var own := OwnQuotas(c, entries);
            (if key in own then Some(own[key]) else None) ==
            if i == -1 then None else LimitedTo(WithOverride(c, entries[i].quota))
  {
    if entries != [] {
      var n := |entries| - 1;
      assert i != n ==> !Gives(c, entries, key, n);
      if i < n {
        forall j | i < j < n
          ensures !Gives(c, entries[..n], key, j)
        {
          assert !Gives(c, entries, key, j);
        }
        OwnQuotaOf(c, entries[..n], key, i);
      }
    }
  }

  /**
   In a per-key limit, however many overrides name a key, the last one that comes to a quota
   decides. A key whose overrides all come to nothing is not limited at all, because then there
   is no default either; any other key has the default quota.
   */
  lemma OverrideDecidesItsKey(c: Config, key: Key, i: int)
    requires !c.key.Global? && Buildable(c) && GivesLast(c, c.overrides, key, i)
    ensures LimitsOf(c).QuotaOf(key) == LimitedTo(if i == -1 then c else WithOverride(c, c.overrides[i].quota))
    ensures i == -1 && (exists o :: o in c.overrides && o.key == Some(key)) ==> LimitsOf(c).QuotaOf(key) == None
  {
    OwnQuotaOf(c, c.overrides, key, i);
    if i == -1 && exists o :: o in c.overrides && o.key == Some(key) {
      var o :| o in c.overrides && o.key == Some(key);
      var j :| 0 <= j < |c.overrides| && c.overrides[j] == o;
      assert !Gives(c, c.overrides, key, j);
      DroppedOverrideHasNoDefault(c, o.quota);
    }
  }

  // ---------- What a configured limit does ----------

  /** What each kind of limit goes by. */
  lemma KeyMeans(c: Config, req: Request)
    ensures c.key.Global? ==> LimitsOf(c).KeyOf(req) == Some(Everyone)
    ensures c.key.PeerIp? ==> LimitsOf(c).KeyOf(req) == req.peerIp
    ensures c.key.SmartIp? ==> LimitsOf(c).KeyOf(req) == req.smartIp
    ensures c.key.UserId? ==> LimitsOf(c).KeyOf(req) == req.userId
  {}

  function AllTicks(reqs: seq<Request>): seq<Ticks> {
    seq(|reqs|, i requires 0 <= i < |reqs| => reqs[i].at)
  }

  lemma {:induction false} EveryoneIsChecked(lim: Limits, reqs: seq<Request>)
    requires lim.source.Global?
    ensures ChecksOf(lim, Everyone, reqs) == AllTicks(reqs)
  {
    if reqs != [] {
      EveryoneIsChecked(lim, reqs[..|reqs| - 1]);
    }
  }

  /**
   A global limit, over every run: one bucket for all requests, whatever their keys, with the
   quota of the configuration. Without `rps` everything passes.
   */
  lemma GlobalLimitMeans(c: Config, earlier: seq<Request>, req: Request)
    requires c.key.Global? && !QuotaFrom(c).Panics? && InOrder(earlier + [req])
    ensures var answer := Step(LimitsOf(c), After(LimitsOf(c), earlier), req).1;
            if c.rps.None? then answer == Pass
            else
              && QuotaFrom(c).Limited?
              && var q := QuotaFrom(c).quota;
              && !answer.KeyMissing?
              && (answer.Pass? <==> EveryWindowHasRoom(q, Served(q, AllTicks(earlier)).times, req.at.check))
  {
    var lim := LimitsOf(c);
    QuotaPanicsIff(c);
    EveryoneIsChecked(lim, earlier);
    if c.rps.Some? {
      PassIffKeyWindowsHaveRoom(lim, earlier, req);
      StepIsGcra(lim, earlier, req, Everyone);
    }
  }

  /** A request without the key that a limit goes by is rejected exactly where a key is required. */
  lemma KeylessRequest(c: Config, earlier: seq<Request>, req: Request)
    requires !c.key.Global? && LimitsOf(c).KeyOf(req).None?
    ensures Step(LimitsOf(c), After(LimitsOf(c), earlier), req).1 == if c.requireKey then KeyMissing else Pass
  {}

  /**
   A request with a key, over every run: the bucket of that key alone decides, with the quota of
   the last override that names the key and comes to one, or else of the limit itself; where
   neither sets `rps`, it passes.
   */
  lemma KeyedLimitMeans(c: Config, key: Key, i: int, earlier: seq<Request>, req: Request)
    requires !c.key.Global? && Buildable(c) && GivesLast(c, c.overrides, key, i)
    requires InOrder(earlier + [req]) && LimitsOf(c).KeyOf(req) == Some(key)
    ensures var d := if i == -1 then c else WithOverride(c, c.overrides[i].quota);
            var answer := Step(LimitsOf(c), After(LimitsOf(c), earlier), req).1;
            if d.rps.None? then answer == Pass
            else
              && QuotaFrom(d).Limited?
              && var q := QuotaFrom(d).quota;
              && !answer.KeyMissing?
              && (answer.Pass? <==>
                  EveryWindowHasRoom(q, Served(q, ChecksOf(LimitsOf(c), key, earlier)).times, req.at.check))
  {
    var lim := LimitsOf(c);
    var d := if i == -1 then c else WithOverride(c, c.overrides[i].quota);
    OverrideDecidesItsKey(c, key, i);
    QuotaPanicsIff(d);
    if d.rps.Some? {
      PassIffKeyWindowsHaveRoom(lim, earlier, req);
      StepIsGcra(lim, earlier, req, key);
    }
  }

  /** Building the limiter of a config works exactly if every rate it needs is at most 10^9. */
  lemma BuildableIff(c: Config)
    ensures Buildable(c) <==>
            && (c.rps.Some? ==> c.rps.value <= NANOS_PER_SECOND)
            && (!c.key.Global? ==>
                  forall o | o in c.overrides && o.key.Some? && o.quota.rps.Some? ::
                    o.quota.rps.value <= NANOS_PER_SECOND)
  {
    QuotaPanicsIff(c);
    forall o | o in c.overrides
      ensures QuotaFrom(WithOverride(c, o.quota)).Panics? <==>
              var rps := if o.quota.rps.Some? then o.quota.rps else c.rps;
              rps.Some? && rps.value > NANOS_PER_SECOND
    {
      QuotaPanicsIff(WithOverride(c, o.quota));
    }
  }

  /** The configs that need no limiter, from their fields. */
  ghost predicate SetsNoLimit(c: Config) {
    && c.rps.None?
    && (!c.key.Global? ==>
          !c.requireKey && forall o | o in c.overrides && o.key.Some? :: o.quota.rps.None?)
  }

  lemma {:induction false} NoOwnQuotasIff(c: Config, entries: seq<Override>)
    requires c.rps.None?
    requires forall o | o in entries && o.key.Some? :: !QuotaFrom(WithOverride(c, o.quota)).Panics?
    ensures OwnQuotas(c, entries) == map[] <==> forall o | o in entries && o.key.Some? :: o.quota.rps.None?
  {
    if entries != [] {
      var init, last := entries[..|entries| - 1], entries[|entries| - 1];
      Snoc(entries);
      assert forall o :: o in entries <==> o in init || o == last;
      NoOwnQuotasIff(c, init);
      QuotaPanicsIff(WithOverride(c, last.quota));
      if last.key.Some? && last.quota.rps.Some? {
        assert last.key.value in OwnQuotas(c, entries);
      }
    }
  }

  /** A limiter is left out exactly where nothing in the configuration could make it reject. */
  lemma NoLimiterIff(c: Config)
    requires Buildable(c)
    ensures NeverRejects(LimitsOf(c)) <==> SetsNoLimit(c)
  {
    QuotaPanicsIff(c);
    if !c.key.Global? && c.rps.None? {
      NoOwnQuotasIff(c, c.overrides);
    }
    if c.key.Global? && c.rps.Some? {
      assert Everyone in LimitsOf(c).own;
    }
  }

  // ---------- The chain as a function ----------

  ghost predicate AllFit(lims: seq<Limits>, ss: seq<State>) {
    |ss| == |lims| && forall i | 0 <= i < |lims| :: Fits(lims[i], ss[i])
  }

  /** `try_for_each`: check in order, stop at the first error. */
  function Call(lims: seq<Limits>, ss: seq<State>, req: Request): (r: (seq<State>, Verdict))
    requires AllFit(lims, ss)
    ensures AllFit(lims, r.0)
  {
    if lims == [] then ([], Pass)
    else
      var (s, verdict) := Step(lims[0], ss[0], req);
      if !verdict.Pass? then ([s] + ss[1..], verdict)
      else
        var rest := Call(lims[1..], ss[1..], req);
        ([s] + rest.0, rest.1)
  }

  /** What every limit would do with the request. */
  function Outcomes(lims: seq<Limits>, ss: seq<State>, req: Request): (outs: seq<(State, Verdict)>)
    requires AllFit(lims, ss)
    ensures |outs| == |lims| && forall i | 0 <= i < |lims| :: outs[i] == Step(lims[i], ss[i], req)
  {
    seq(|lims|, i requires 0 <= i < |lims| => Step(lims[i], ss[i], req))
  }

  ghost predicate AllPass(outs: seq<(State, Verdict)>, i: nat)
    requires i <= |outs|
  {
    forall j | 0 <= j < i :: outs[j].1.Pass?
  }

  /** The request passes the first `i` limits. */
  ghost predicate Reaches(lims: seq<Limits>, ss: seq<State>, req: Request, i: nat)
    requires AllFit(lims, ss) && i <= |lims|
  {
    AllPass(Outcomes(lims, ss, req), i)
  }

  /**
   Stopping at the first rejection, limit by limit: exactly the limits that are reached are
   updated, all is well when every one passes, and otherwise the first to object answers.
   */
  ghost predicate StopsAtFirst(ss: seq<State>, outs: seq<(State, Verdict)>, ss': seq<State>, verdict: Verdict) {
    && |ss'| == |ss| == |outs|
    && (forall i | 0 <= i < |outs| :: ss'[i] == if AllPass(outs, i) then outs[i].0 else ss[i])
    && (verdict.Pass? <==> AllPass(outs, |outs|))
    && (forall i | 0 <= i < |outs| :: AllPass(outs, i) && !outs[i].1.Pass? ==> verdict == outs[i].1)
  }

  lemma AllPassCons(out: (State, Verdict), outs: seq<(State, Verdict)>, i: nat)
    requires i <= |outs| && out.1.Pass?
    ensures AllPass([out] + outs, i + 1) <==> AllPass(outs, i)
  {
    var all := [out] + outs;
    if AllPass(all, i + 1) {
      forall j | 0 <= j < i
        ensures outs[j].1.Pass?
      {
        ConsAt(out, outs, j + 1);
      }
    }
    if AllPass(outs, i) {
      forall j | 0 <= j < i + 1
        ensures all[j].1.Pass?
      {
        ConsAt(out, outs, j);
      }
    }
  }

  lemma StopsCons(
    s: State, out: (State, Verdict), ss: seq<State>, outs: seq<(State, Verdict)>, ss': seq<State>, verdict: Verdict)
    requires out.1.Pass? && StopsAtFirst(ss, outs, ss', verdict)
    ensures StopsAtFirst([s] + ss, [out] + outs, [out.0] + ss', verdict)
  {
    var all := [out] + outs;
    forall i | 0 <= i < |all|
      ensures ([out.0] + ss')[i] == if AllPass(all, i) then all[i].0 else ([s] + ss)[i]
      ensures AllPass(all, i) && !all[i].1.Pass? ==> verdict == all[i].1
    {
      ConsAt(out.0, ss', i);
      ConsAt(out, outs, i);
      ConsAt(s, ss, i);
      if i > 0 {
        AllPassCons(out, outs, i - 1);
      }
    }
    AllPassCons(out, outs, |outs|);
  }

  lemma StopsAtOnce(ss: seq<State>, outs: seq<(State, Verdict)>)
    requires |ss| == |outs| > 0 && !outs[0].1.Pass?
    ensures StopsAtFirst(ss, outs, [outs[0].0] + ss[1..], outs[0].1)
  {
    forall i | 0 < i <= |outs|
      ensures !AllPass(outs, i)
    {
      assert !outs[0].1.Pass?;
    }
    forall i | 0 <= i < |outs|
      ensures ([outs[0].0] + ss[1..])[i] == if i == 0 then outs[0].0 else ss[i]
    {
      ConsAt(outs[0].0, ss[1..], i);
    }
  }

  lemma OutcomesCons(lims: seq<Limits>, ss: seq<State>, req: Request)
    requires AllFit(lims, ss) && lims != []
    ensures Outcomes(lims, ss, req) == [Step(lims[0], ss[0], req)] + Outcomes(lims[1..], ss[1..], req)
  {}

  /** One call of the chain does what stopping at the first rejection means. */
  lemma {:induction false} CallPointwise(lims: seq<Limits>, ss: seq<State>, req: Request)
    requires AllFit(lims, ss)
    ensures StopsAtFirst(ss, Outcomes(lims, ss, req), Call(lims, ss, req).0, Call(lims, ss, req).1)
  {
    if lims != [] {
      var outs := Outcomes(lims, ss, req);
      if outs[0].1.Pass? {
        CallPointwise(lims[1..], ss[1..], req);
        var rest := Call(lims[1..], ss[1..], req);
        StopsCons(ss[0], outs[0], ss[1..], Outcomes(lims[1..], ss[1..], req), rest.0, rest.1);
        OutcomesCons(lims, ss, req);
        ConsTail(ss);
      } else {
        StopsAtOnce(ss, outs);
      }
    }
  }

  /** What one call does to one limit. */
  lemma CallAt(lims: seq<Limits>, ss: seq<State>, req: Request, i: nat)
    requires AllFit(lims, ss) && i < |lims|
    ensures Call(lims, ss, req).0[i] == if Reaches(lims, ss, req, i) then Step(lims[i], ss[i], req).0 else ss[i]
  {
    CallPointwise(lims, ss, req);
  }

  // ---------- Runs of a chain ----------

  function FreshChain(lims: seq<Limits>): (ss: seq<State>)
    ensures AllFit(lims, ss)
    ensures forall i | 0 <= i < |lims| :: ss[i] == Fresh(lims[i])
  {
    seq(|lims|, i requires 0 <= i < |lims| => Fresh(lims[i]))
  }

  function ChainAfter(lims: seq<Limits>, reqs: seq<Request>): (ss: seq<State>)
    ensures AllFit(lims, ss)
    decreases |reqs|
  {
    if reqs == [] then FreshChain(lims)
    else Call(lims, ChainAfter(lims, reqs[..|reqs| - 1]), reqs[|reqs| - 1]).0
  }

  /** The requests of a run that got past the limits before `i`. */
  ghost function Reaching(lims: seq<Limits>, reqs: seq<Request>, i: nat): seq<Request>
    requires i <= |lims|
    decreases |reqs|
  {
    if reqs == [] then []
    else
      var before, last := reqs[..|reqs| - 1], reqs[|reqs| - 1];
      if Reaches(lims, ChainAfter(lims, before), last, i) then Reaching(lims, before, i) + [last]
      else Reaching(lims, before, i)
  }

  /**
   Over every run, limit `i` of a chain is in exactly the state it would have reached alone,
   serving only the requests that passed the limits before it: later limits and requests
   rejected earlier leave no trace in it.
   */
  lemma {:induction false} ChainSplits(lims: seq<Limits>, reqs: seq<Request>, i: nat)
    requires i < |lims|
    ensures ChainAfter(lims, reqs)[i] == After(lims[i], Reaching(lims, reqs, i))
    decreases |reqs|
  {
    if reqs != [] {
      var before, last := reqs[..|reqs| - 1], reqs[|reqs| - 1];
      ChainSplits(lims, before, i);
      CallAt(lims, ChainAfter(lims, before), last, i);
      DropLeft(Reaching(lims, before, i), [last]);
    }
  }

  lemma {:induction false} ReachingInOrder(lims: seq<Limits>, reqs: seq<Request>, i: nat)
    requires i <= |lims| && InOrder(reqs)
    ensures InOrder(Reaching(lims, reqs, i))
    ensures LastInstant(Reaching(lims, reqs, i)) <= LastInstant(reqs)
    decreases |reqs|
  {
    if reqs != [] {
      var before, last := reqs[..|reqs| - 1], reqs[|reqs| - 1];
      ReachingInOrder(lims, before, i);
      InOrderInit(Reaching(lims, before, i), last);
    }
  }

  lemma ReachingNext(lims: seq<Limits>, earlier: seq<Request>, req: Request, i: nat)
    requires i <= |lims| && InOrder(earlier + [req])
    ensures InOrder(Reaching(lims, earlier, i) + [req])
  {
    InOrderInit(earlier, req);
    ReachingInOrder(lims, earlier, i);
    InOrderInit(Reaching(lims, earlier, i), req);
  }

  /** What request `req` adds to the requests that reach the limit after `i`. */
  lemma ReachesNext(lims: seq<Limits>, earlier: seq<Request>, req: Request, i: nat)
    requires i < |lims| && InOrder(earlier + [req])
    ensures InOrder(Reaching(lims, earlier, i) + [req])
    ensures Reaches(lims, ChainAfter(lims, earlier), req, i + 1) <==>
            && Reaches(lims, ChainAfter(lims, earlier), req, i)
            && DocumentedVerdict(lims[i], Reaching(lims, earlier, i), req).Pass?
  {
    ReachingNext(lims, earlier, req, i);
    ChainSplits(lims, earlier, i);
    SourceVerdictIsDocumented(lims[i], Reaching(lims, earlier, i), req);
  }

  lemma ReachingStep(lims: seq<Limits>, reqs: seq<Request>, req: Request, i: nat)
    requires i <= |lims|
    ensures Reaching(lims, reqs + [req], i) ==
            if Reaches(lims, ChainAfter(lims, reqs), req, i) then Reaching(lims, reqs, i) + [req]
            else Reaching(lims, reqs, i)
  {
    DropLeft(reqs, [req]);
  }

  ghost predicate Filtered(lims: seq<Limits>, reqs: seq<Request>, i: nat)
    requires i < |lims|
  {
    IsStage(lims[i], Reaching(lims, reqs, i), Reaching(lims, reqs, i + 1))
  }

  lemma FilteredEmpty(lims: seq<Limits>, i: nat)
    requires i < |lims|
    ensures Filtered(lims, [], i)
  {}

  lemma FilteredStep(lims: seq<Limits>, reqs: seq<Request>, req: Request, i: nat)
    requires i < |lims| && InOrder(reqs + [req]) && Filtered(lims, reqs, i)
    ensures Filtered(lims, reqs + [req], i)
  {
    ReachesNext(lims, reqs, req, i);
    ReachingStep(lims, reqs, req, i);
    ReachingStep(lims, reqs, req, i + 1);
    PassedStep(lims[i], Reaching(lims, reqs, i), req);
  }

  lemma {:induction false} ReachingIsFiltered(lims: seq<Limits>, reqs: seq<Request>, i: nat)
    requires i < |lims| && InOrder(reqs)
    ensures Filtered(lims, reqs, i)
    decreases |reqs|
  {
    if reqs == [] {
      FilteredEmpty(lims, i);
    } else {
      Snoc(reqs);
      ReachingIsFiltered(lims, reqs[..|reqs| - 1], i);
      FilteredStep(lims, reqs[..|reqs| - 1], reqs[|reqs| - 1], i);
    }
  }

  lemma {:induction false} EverythingReachesFirst(lims: seq<Limits>, reqs: seq<Request>)
    ensures Reaching(lims, reqs, 0) == reqs
  {
    if reqs != [] {
      EverythingReachesFirst(lims, reqs[..|reqs| - 1]);
      Snoc(reqs);
    }
  }

  /** What each limit of the chain sees of a run, and what comes out in the end. */
  ghost function Stages(lims: seq<Limits>, reqs: seq<Request>): (stages: seq<seq<Request>>)
    ensures |stages| == |lims| + 1
    ensures forall i | 0 <= i <= |lims| :: stages[i] == Reaching(lims, reqs, i)
  {
    seq(|lims| + 1, i requires 0 <= i <= |lims| => Reaching(lims, reqs, i))
  }

  lemma StagesArePipeline(lims: seq<Limits>, reqs: seq<Request>)
    requires InOrder(reqs)
    ensures IsPipeline(lims, Stages(lims, reqs)) && Stages(lims, reqs)[0] == reqs
  {
    EverythingReachesFirst(lims, reqs);
    var stages := Stages(lims, reqs);
    forall i | 0 <= i < |lims|
      ensures IsStage(lims[i], stages[i], stages[i + 1])
    {
      ReachingIsFiltered(lims, reqs, i);
    }
  }

  /**
   Over every run, the requests that reach a limit are those that pass the documented buckets
   of the limits before it.
   */
  lemma ReachingIsDocumented(lims: seq<Limits>, reqs: seq<Request>, i: nat)
    requires i <= |lims| && InOrder(reqs)
    ensures Reaching(lims, reqs, i) == PassedBefore(lims, reqs, i)
  {
    StagesArePipeline(lims, reqs);
    PipelineIsPassedBefore(lims, Stages(lims, reqs), i);
  }

  /** Within a run of the chain, each limit answers as its documented buckets would. */
  lemma LimitIsDocumented(lims: seq<Limits>, earlier: seq<Request>, req: Request, i: nat)
    requires i < |lims| && InOrder(earlier + [req])
    ensures Step(lims[i], ChainAfter(lims, earlier)[i], req).1 == DocumentedVerdicts(lims, earlier, req)[i]
  {
    InOrderInit(earlier, req);
    ReachingIsDocumented(lims, earlier, i);
    ReachingNext(lims, earlier, req, i);
    ChainSplits(lims, earlier, i);
    SourceVerdictIsDocumented(lims[i], Reaching(lims, earlier, i), req);
  }

  lemma StopsAnswers(ss: seq<State>, outs: seq<(State, Verdict)>, ss': seq<State>, verdict: Verdict, i: nat)
    requires StopsAtFirst(ss, outs, ss', verdict) && i <= |outs| && AllPass(outs, i)
    ensures i == |outs| ==> verdict == Pass
    ensures i < |outs| ==> if outs[i].1.Pass? then AllPass(outs, i + 1) else verdict == outs[i].1
  {}

  /** Stopping at the first rejection is answering with the first objection. */
  lemma {:induction false} StopsIsFirstObjection(
    ss: seq<State>, outs: seq<(State, Verdict)>, ss': seq<State>, verdict: Verdict, verdicts: seq<Verdict>, i: nat)
    requires StopsAtFirst(ss, outs, ss', verdict) && i <= |outs| && AllPass(outs, i)
    requires |verdicts| == |outs| && forall j | 0 <= j < |outs| :: outs[j].1 == verdicts[j]
    ensures verdict == FirstObjection(verdicts)
    decreases |outs| - i
  {
    StopsAnswers(ss, outs, ss', verdict, i);
    if i < |outs| && outs[i].1.Pass? {
      StopsIsFirstObjection(ss, outs, ss', verdict, verdicts, i + 1);
    } else {
      FirstObjectionMeans(verdicts, i);
    }
  }

  /** Every run of the whole chain answers as documented: verdict, wait and all. */
  lemma ChainIsDocumented(lims: seq<Limits>, earlier: seq<Request>, req: Request)
    requires InOrder(earlier + [req])
    ensures Call(lims, ChainAfter(lims, earlier), req).1 == DocumentedAnswer(lims, earlier, req)
  {
    var ss := ChainAfter(lims, earlier);
    var r := Call(lims, ss, req);
    CallPointwise(lims, ss, req);
    forall i | 0 <= i < |lims|
      ensures Outcomes(lims, ss, req)[i].1 == DocumentedVerdicts(lims, earlier, req)[i]
    {
      LimitIsDocumented(lims, earlier, req, i);
    }
    StopsIsFirstObjection(ss, Outcomes(lims, ss, req), r.0, r.1, DocumentedVerdicts(lims, earlier, req), 0);
  }

  // ---------- The reported wait of configured limits ----------

  /** Every quota of a configured limit is that of the config or of one of its overrides. */
  lemma {:induction false} OwnQuotaIsConfigured(c: Config, entries: seq<Override>, key: Key) returns (d: Config)
    requires key in OwnQuotas(c, entries)
    ensures QuotaFrom(d) == Limited(OwnQuotas(c, entries)[key])
    ensures exists o :: o in entries && d == WithOverride(c, o.quota)
  {
    var init, last := entries[..|entries| - 1], entries[|entries| - 1];
    d := WithOverride(c, last.quota);
    if last.key != Some(key) || LimitedTo(d).None? {
      d := OwnQuotaIsConfigured(c, init, key);
    }
  }

  /** The configuration, or one of its overrides, sets one request per second. */
  ghost predicate SetsOnePerSecond(c: Config) {
    c.rps == Some(1) || exists o :: o in c.overrides && o.quota.rps == Some(1)
  }

  lemma QuotaIsConfigured(c: Config, key: Key) returns (d: Config)
    requires LimitsOf(c).QuotaOf(key).Some?
    ensures QuotaFrom(d) == Limited(LimitsOf(c).QuotaOf(key).value)
    ensures d.rps == Some(1) ==> SetsOnePerSecond(c)
  {
    d := c;
    if !c.key.Global? && key in OwnQuotas(c, c.overrides) {
      d := OwnQuotaIsConfigured(c, c.overrides, key);
    }
  }

  /**
   The reported wait of a configured limit, over every run of it: zero seconds, or one if some
   key is limited to one request per second and its wait is computed at the instant of the last
   check of that key. A retry is answered as the wait says, and passes one period after that
   last check at the latest.
   */
  lemma ConfiguredRetry(
    c: Config, key: Key, earlier: seq<Request>, req: Request, mid: seq<Request>, retry: Request, seconds: nat)
    requires InOrder(earlier + [req] + mid + [retry]) && LimitsOf(c).QuotaOf(key).Some?
    requires LimitsOf(c).KeyOf(req) == LimitsOf(c).KeyOf(retry) == Some(key)
    requires Step(LimitsOf(c), After(LimitsOf(c), earlier), req).1 == LimitReached(seconds)
    requires NothingAdmitted(LimitsOf(c), key, earlier + [req], mid)
    requires req.at.wait <= retry.at.check
    ensures var q := LimitsOf(c).QuotaOf(key).value;
            var checks := ChecksOf(LimitsOf(c), key, earlier);
            var answer := Step(LimitsOf(c), After(LimitsOf(c), earlier + [req] + mid), retry).1;
            var due := req.at.wait + seconds * NANOS_PER_SECOND;
            && seconds <= 1
            && (seconds == 1 ==> SetsOnePerSecond(c) && req.at.wait == LastCheck(checks))
            && (retry.at.check < due ==> answer.LimitReached?)
            && (LastCheck(checks) + q.period <= retry.at.check ==> answer.Pass?)
            && (retry.at.check == due ==>
                  (answer.Pass? <==> seconds == 1 || EveryWindowHasRoom(q, Served(q, checks).times, req.at.wait)))
  {
    var lim := LimitsOf(c);
    RetryBrackets(lim, key, earlier, req, mid, retry, seconds);
    InOrderPrefix(earlier + [req] + mid + [retry], |earlier| + 1);
    assert (earlier + [req] + mid + [retry])[..|earlier| + 1] == earlier + [req];
    ConfiguredReport(c, key, earlier, req);
    var d := QuotaIsConfigured(c, key);
    ConfiguredPeriod(d, lim.QuotaOf(key).value);
  }

  lemma ConfiguredReport(c: Config, key: Key, earlier: seq<Request>, req: Request)
    requires InOrder(earlier + [req])
    requires LimitsOf(c).KeyOf(req) == Some(key) && LimitsOf(c).QuotaOf(key).Some?
    requires Step(LimitsOf(c), After(LimitsOf(c), earlier), req).1.LimitReached?
    ensures var seconds := Step(LimitsOf(c), After(LimitsOf(c), earlier), req).1.remainingSeconds;
            && seconds <= 1
            && (seconds == 1 ==>
                  SetsOnePerSecond(c) && req.at.wait == LastCheck(ChecksOf(LimitsOf(c), key, earlier)))
  {
    var d := QuotaIsConfigured(c, key);
    StepIsGcra(LimitsOf(c), earlier, req, key);
    KeyClockNext(LimitsOf(c), key, earlier, req);
    ConfiguredWait(d, LimitsOf(c).QuotaOf(key).value, ChecksOf(LimitsOf(c), key, earlier), req.at,
                   Step(LimitsOf(c), After(LimitsOf(c), earlier), req).1.remainingSeconds);
  }

  lemma {:induction false} FirstToReject(outs: seq<(State, Verdict)>, n: nat) returns (i: nat)
    requires n <= |outs| && !AllPass(outs, n)
    ensures i < n && AllPass(outs, i) && !outs[i].1.Pass?
  {
    i := n - 1;
    if !AllPass(outs, n - 1) {
      i := FirstToReject(outs, n - 1);
    }
  }

  /**
   What callers are told, over every run of the chain: wait for one second at most, and for zero
   seconds unless some limit or override is set to one request per second.
   */
  lemma ChainReportsZero(configs: seq<Config>, lims: seq<Limits>, earlier: seq<Request>, req: Request)
    requires InOrder(earlier + [req])
    requires |lims| == |configs| && forall i | 0 <= i < |lims| :: lims[i] == LimitsOf(configs[i])
    requires Call(lims, ChainAfter(lims, earlier), req).1.LimitReached?
    ensures var seconds := Call(lims, ChainAfter(lims, earlier), req).1.remainingSeconds;
            seconds == 0 || (seconds == 1 && exists c :: c in configs && SetsOnePerSecond(c))
  {
    var ss := ChainAfter(lims, earlier);
    CallPointwise(lims, ss, req);
    var i := FirstToReject(Outcomes(lims, ss, req), |lims|);
    ChainSplits(lims, earlier, i);
    ReachingNext(lims, earlier, req, i);
    LimitReportsZero(configs[i], Reaching(lims, earlier, i), req);
    assert configs[i] in configs;
  }

  lemma LimitReportsZero(c: Config, earlier: seq<Request>, req: Request)
    requires InOrder(earlier + [req])
    requires Step(LimitsOf(c), After(LimitsOf(c), earlier), req).1.LimitReached?
    ensures var seconds := Step(LimitsOf(c), After(LimitsOf(c), earlier), req).1.remainingSeconds;
            seconds == 0 || (seconds == 1 && SetsOnePerSecond(c))
  {
    SourceVerdictIsDocumented(LimitsOf(c), earlier, req);
    ConfiguredReport(c, LimitsOf(c).KeyOf(req).value, earlier, req);
  }

  // ---------- Every limit bounds what the chain admits ----------

  /** Times at which the chain admitted requests that carry `key` for limit `i`. */
  function ChainAdmitted(lims: seq<Limits>, reqs: seq<Request>, i: nat, key: Key): seq<nat>
    requires i < |lims|
    decreases |reqs|
  {
    if reqs == [] then []
    else
      var before, last := reqs[..|reqs| - 1], reqs[|reqs| - 1];
      var times := ChainAdmitted(lims, before, i, key);
      if lims[i].KeyOf(last) == Some(key) && Call(lims, ChainAfter(lims, before), last).1.Pass?
      then times + [last.at.check] else times
  }

  /** Times at which limit `i` itself admitted requests with `key`, as part of the chain. */
  ghost function LimitAdmitted(lims: seq<Limits>, reqs: seq<Request>, i: nat, key: Key): seq<nat>
    requires i < |lims| && lims[i].QuotaOf(key).Some?
  {
    Served(lims[i].QuotaOf(key).value, ChecksOf(lims[i], key, Reaching(lims, reqs, i))).times
  }

  lemma LimitAdmittedStep(lims: seq<Limits>, reqs: seq<Request>, req: Request, i: nat, key: Key)
    requires i < |lims| && InOrder(reqs + [req]) && lims[i].QuotaOf(key).Some?
    ensures var ss := ChainAfter(lims, reqs);
            var times := LimitAdmitted(lims, reqs, i, key);
            LimitAdmitted(lims, reqs + [req], i, key) ==
            if Reaches(lims, ss, req, i) && lims[i].KeyOf(req) == Some(key) && Step(lims[i], ss[i], req).1.Pass?
            then times + [req.at.check] else times
  {
    var reached, ss := Reaching(lims, reqs, i), ChainAfter(lims, reqs);
    DropLeft(reqs, [req]);
    if Reaches(lims, ss, req, i) {
      DropLeft(reached, [req]);
      if lims[i].KeyOf(req) == Some(key) {
        ChainSplits(lims, reqs, i);
        ReachingNext(lims, reqs, req, i);
        StepIsGcra(lims[i], reached, req, key);
        ServedStep(lims[i].QuotaOf(key).value, ChecksOf(lims[i], key, reached), req.at);
      }
    }
  }

  lemma ChainPassIsLimitPass(lims: seq<Limits>, ss: seq<State>, req: Request, i: nat)
    requires AllFit(lims, ss) && i < |lims| && Call(lims, ss, req).1.Pass?
    ensures Reaches(lims, ss, req, i) && Step(lims[i], ss[i], req).1.Pass?
  {
    CallPointwise(lims, ss, req);
  }

  lemma {:induction false} ChainAdmitsNoMoreThanLimit(
    lims: seq<Limits>, reqs: seq<Request>, i: nat, key: Key, from: nat, to: nat)
    requires i < |lims| && InOrder(reqs) && lims[i].QuotaOf(key).Some?
    ensures CountIn(ChainAdmitted(lims, reqs, i, key), from, to) <= CountIn(LimitAdmitted(lims, reqs, i, key), from, to)
    decreases |reqs|
  {
    if reqs != [] {
      var before, last := reqs[..|reqs| - 1], reqs[|reqs| - 1];
      Snoc(reqs);
      ChainAdmitsNoMoreThanLimit(lims, before, i, key, from, to);
      LimitAdmittedStep(lims, before, last, i, key);
      CountOneMore(ChainAdmitted(lims, before, i, key), last.at.check, from, to);
      CountOneMore(LimitAdmitted(lims, before, i, key), last.at.check, from, to);
      if Call(lims, ChainAfter(lims, before), last).1.Pass? {
        ChainPassIsLimitPass(lims, ChainAfter(lims, before), last, i);
      }
    }
  }

  /**
   Chain safety: over every run, the requests the chain lets through respect, in every window,
   the limit of every configured limiter for every key it limits.
   */
  lemma ChainWindowBound(lims: seq<Limits>, reqs: seq<Request>, i: nat, key: Key, from: nat, to: nat)
    requires i < |lims| && InOrder(reqs) && lims[i].QuotaOf(key).Some? && from <= to
    ensures CountIn(ChainAdmitted(lims, reqs, i, key), from, to)
         <= WindowLimit(lims[i].QuotaOf(key).value, to - from)
  {
    ChainAdmitsNoMoreThanLimit(lims, reqs, i, key, from, to);
    ReachingInOrder(lims, reqs, i);
    KeyClock(lims[i], key, Reaching(lims, reqs, i));
    WindowBound(lims[i].QuotaOf(key).value, ChecksOf(lims[i], key, Reaching(lims, reqs, i)), from, to);
  }

  // ---------- Leaving limiters out ----------

  /** The states of the limits that were kept. */
  function KeptStates(lims: seq<Limits>, ss: seq<State>): (r: seq<State>)
    requires AllFit(lims, ss)
    ensures AllFit(Kept(lims), r)
  {
    if lims == [] then []
    else (if NeverRejects(lims[0]) then [] else [ss[0]]) + KeptStates(lims[1..], ss[1..])
  }

  lemma KeptHead(lims: seq<Limits>, ss: seq<State>)
    requires lims != [] && AllFit(lims, ss)
    ensures if NeverRejects(lims[0]) then
              Kept(lims) == Kept(lims[1..]) && KeptStates(lims, ss) == KeptStates(lims[1..], ss[1..])
            else
              && Kept(lims) != [] && Kept(lims)[0] == lims[0] && Kept(lims)[1..] == Kept(lims[1..])
              && KeptStates(lims, ss)[0] == ss[0] && KeptStates(lims, ss)[1..] == KeptStates(lims[1..], ss[1..])
  {
    var rest, states := Kept(lims[1..]), KeptStates(lims[1..], ss[1..]);
    if !NeverRejects(lims[0]) {
      DropLeft([lims[0]], rest);
      DropLeft([ss[0]], states);
    }
  }

  lemma {:induction false} CallWithoutDropped(lims: seq<Limits>, ss: seq<State>, req: Request)
    requires AllFit(lims, ss)
    ensures Call(Kept(lims), KeptStates(lims, ss), req).0 == KeptStates(lims, Call(lims, ss, req).0)
    ensures Call(Kept(lims), KeptStates(lims, ss), req).1 == Call(lims, ss, req).1
  {
    if lims != [] {
      var after := Call(lims, ss, req).0;
      CallWithoutDropped(lims[1..], ss[1..], req);
      KeptHead(lims, ss);
      KeptHead(lims, after);
      if Step(lims[0], ss[0], req).1.Pass? {
        assert after[1..] == Call(lims[1..], ss[1..], req).0;
      } else {
        assert after[1..] == ss[1..];
      }
    }
  }

  lemma {:induction false} FreshWithoutDropped(lims: seq<Limits>)
    ensures KeptStates(lims, FreshChain(lims)) == FreshChain(Kept(lims))
  {
    if lims != [] {
      FreshWithoutDropped(lims[1..]);
      assert FreshChain(lims)[1..] == FreshChain(lims[1..]);
      if !NeverRejects(lims[0]) {
        assert Kept(lims)[1..] == Kept(lims[1..]);
      }
    }
  }

  lemma {:induction false} RunWithoutDropped(lims: seq<Limits>, reqs: seq<Request>)
    ensures ChainAfter(Kept(lims), reqs) == KeptStates(lims, ChainAfter(lims, reqs))
    decreases |reqs|
  {
    if reqs == [] {
      FreshWithoutDropped(lims);
    } else {
      RunWithoutDropped(lims, reqs[..|reqs| - 1]);
      CallWithoutDropped(lims, ChainAfter(lims, reqs[..|reqs| - 1]), reqs[|reqs| - 1]);
    }
  }

  /** Leaving out limiters that never reject is unobservable, after every run. */
  lemma DroppingLimitersIsUnobservable(lims: seq<Limits>, earlier: seq<Request>, req: Request)
    ensures Call(Kept(lims), ChainAfter(Kept(lims), earlier), req).1 == Call(lims, ChainAfter(lims, earlier), req).1
  {
    RunWithoutDropped(lims, earlier);
    CallWithoutDropped(lims, ChainAfter(lims, earlier), req);
  }

  ghost predicate RejectsSomeRun(lim: Limits) {
    exists reqs, req :: InOrder(reqs + [req]) && !Step(lim, After(lim, reqs), req).1.Pass?
  }

  function Repeated(req: Request, n: nat): seq<Request> {
    if n == 0 then [] else Repeated(req, n - 1) + [req]
  }

  lemma {:induction false} RepeatedInOrder(req: Request, n: nat)
    requires req.at == Ticks(0, 0, 0)
    ensures InOrder(Repeated(req, n)) && LastInstant(Repeated(req, n)) == 0
  {
    if n > 0 {
      RepeatedInOrder(req, n - 1);
      InOrderInit(Repeated(req, n - 1), req);
    }
  }

  lemma {:induction false} RepeatedChecks(lim: Limits, req: Request, key: Key, n: nat)
    requires req.at == Ticks(0, 0, 0) && lim.KeyOf(req) == Some(key)
    ensures ChecksOf(lim, key, Repeated(req, n)) == AtZero(n)
  {
    if n > 0 {
      RepeatedChecks(lim, req, key, n - 1);
      ChecksOfStep(lim, key, Repeated(req, n - 1), req);
    }
  }

  lemma FloodIsRejected(lim: Limits, req: Request, key: Key)
    requires req.at == Ticks(0, 0, 0) && lim.KeyOf(req) == Some(key) && lim.QuotaOf(key).Some?
    ensures RejectsSomeRun(lim)
  {
    var q := lim.QuotaOf(key).value;
    var flood := Repeated(req, q.burst);
    RepeatedInOrder(req, q.burst);
    RepeatedChecks(lim, req, key, q.burst);
    InOrderInit(flood, req);
    SimultaneousBurst(q, AtZero(q.burst), 0);
    FullBurst(q);
    StepIsGcra(lim, flood, req, key);
    assert InOrder(flood + [req]) && !Step(lim, After(lim, flood), req).1.Pass?;
  }

  /** A config gets no limiter exactly when no run whatever could make its limit reject. */
  lemma DroppedIffNeverRejects(c: Config)
    requires Buildable(c)
    ensures NeverRejects(LimitsOf(c)) <==> !RejectsSomeRun(LimitsOf(c))
  {
    var lim := LimitsOf(c);
    if lim.requireKey {
      var anonymous := Request(None, None, None, Ticks(0, 0, 0));
      InOrderInit([], anonymous);
      assert !Step(lim, After(lim, []), anonymous).1.Pass?;
    } else if !NeverRejects(lim) {
      var key: Key :| lim.QuotaOf(key).Some? && (lim.source.Global? ==> key == Everyone) by {
        if lim.shared.Some? {
          assert lim.QuotaOf(Everyone).Some?;
        } else {
          var k :| k in lim.own;
          assert lim.QuotaOf(k).Some?;
        }
      }
      FloodIsRejected(lim, Request(Some(key), Some(key), Some(key), Ticks(0, 0, 0)), key);
    }
  }
}
