/** The chain of limiters as objects: how it is built, and how a request is put through it. */
module RateLimitService {
  import opened Sequences
  import opened Wrappers
  import opened DocumentedLimits
  import opened Gcra
  import opened KeyedLimiting
  import opened Quotas
  import opened RateLimiting

  datatype Limiter = Direct(bucket: GlobalLimiter) | PerKey(limiter: KeyedLimiter) {
    ghost predicate Valid() {
      PerKey? ==> limiter.Valid()
    }

    ghost function Repr(): set<object> {
      if Direct? then {bucket} else limiter.Repr()
    }

    ghost function Config(): Limits {
      if Direct? then Limits(Global, None, map[Everyone := bucket.quota], false) else limiter.Config()
    }

    ghost function View(): State
      reads Repr()
    {
      if Direct? then State(map[], OneKey(bucket.tat), 0) else limiter.View()
    }

    method CheckLimit(req: Request) returns (verdict: Verdict)
      requires Valid()
      modifies Repr()
      ensures Fits(Config(), old(View()))
      ensures (View(), verdict) == Step(Config(), old(View()), req)
    {
      match this
      case Direct(bucket) =>
        verdict := bucket.CheckLimit(req.at);
        assert View().own == old(View()).own[Everyone := bucket.tat];
      case PerKey(limiter) =>
        verdict := limiter.CheckLimit(req);
    }
  }

  function OneKey(tat: nat): map<Key, nat> {
    map[Everyone := tat]
  }

  /** No two limiters share an object. */
  ghost predicate Separate(ls: seq<Limiter>) {
    && (forall i | 0 <= i < |ls| :: ls[i].Valid())
    && (forall i, j | 0 <= i < j < |ls| :: ls[i].Repr() !! ls[j].Repr())
  }

  ghost function AllRepr(ls: seq<Limiter>): set<object> {
    set i, o | 0 <= i < |ls| && o in ls[i].Repr() :: o
  }

  ghost function Configs(ls: seq<Limiter>): (lims: seq<Limits>)
    ensures |lims| == |ls| && forall i | 0 <= i < |ls| :: lims[i] == ls[i].Config()
  {
    seq(|ls|, i requires 0 <= i < |ls| => ls[i].Config())
  }

  ghost function Views(ls: seq<Limiter>): (ss: seq<State>)
    reads AllRepr(ls)
    ensures |ss| == |ls| && forall i | 0 <= i < |ls| :: ss[i] == ls[i].View()
  {
    seq(|ls|, i requires 0 <= i < |ls| reads AllRepr(ls) => ls[i].View())
  }

  lemma LimiterFits(l: Limiter)
    ensures Fits(l.Config(), l.View())
  {}

  /** `RateLimit`: an immutable, shared list of limiters. */
  datatype RateLimit = RateLimit(limiters: seq<Limiter>) {
    ghost predicate Valid() {
      Separate(limiters)
    }

    /** Put a request through every limiter in order, stopping at the first rejection. */
    method Check(req: Request) returns (verdict: Verdict)
      requires Valid()
      modifies AllRepr(limiters)
      ensures AllFit(Configs(limiters), old(Views(limiters)))
      ensures (Views(limiters), verdict) == Call(Configs(limiters), old(Views(limiters)), req)
    {
      ghost var lims, ss := Configs(limiters), Views(limiters);
      forall i | 0 <= i < |limiters|
        ensures Fits(lims[i], ss[i])
      {
        LimiterFits(limiters[i]);
      }
      for i := 0 to |limiters|
        invariant Reaches(lims, ss, req, i)
        invariant Views(limiters) == Progress(lims, ss, req, i)
      {
        verdict := CheckAt(i, req);
        if !verdict.Pass? {
          StoppedAt(lims, ss, req, i);
          return;
        }
        assert Progress(lims, ss, req, i)[i := Step(lims[i], ss[i], req).0] == Progress(lims, ss, req, i + 1);
      }
      StoppedAt(lims, ss, req, |limiters|);
      return Pass;
    }

    /** One limiter is checked, the others do not change. */
    method CheckAt(i: nat, req: Request) returns (verdict: Verdict)
      requires Valid() && i < |limiters|
      modifies limiters[i].Repr()
      ensures Fits(limiters[i].Config(), old(limiters[i].View()))
      ensures var r := Step(limiters[i].Config(), old(limiters[i].View()), req);
              verdict == r.1 && Views(limiters) == old(Views(limiters))[i := r.0]
    {
      verdict := limiters[i].CheckLimit(req);
      forall j | 0 <= j < |limiters| && j != i
        ensures limiters[j].View() == old(limiters[j].View())
      {
        assert if j < i then limiters[j].Repr() !! limiters[i].Repr() else limiters[i].Repr() !! limiters[j].Repr();
      }
    }
  }

  /** The states when the first `i` limits have been checked. */
  ghost function Progress(lims: seq<Limits>, ss: seq<State>, req: Request, i: nat): (r: seq<State>)
    requires AllFit(lims, ss) && i <= |lims|
    ensures |r| == |ss|
    ensures forall j | 0 <= j < |ss| :: r[j] == if j < i then Step(lims[j], ss[j], req).0 else ss[j]
  {
    seq(|ss|, j requires 0 <= j < |ss| => if j < i then Step(lims[j], ss[j], req).0 else ss[j])
  }

  lemma StoppedAt(lims: seq<Limits>, ss: seq<State>, req: Request, i: nat)
    requires AllFit(lims, ss) && i <= |lims| && Reaches(lims, ss, req, i)
    requires i < |lims| ==> !Step(lims[i], ss[i], req).1.Pass?
    ensures var r := Call(lims, ss, req);
            if i == |lims| then r == (Progress(lims, ss, req, i), Pass)
            else r == (Progress(lims, ss, req, i)[i := Step(lims[i], ss[i], req).0], Step(lims[i], ss[i], req).1)
  {
    var expected := Progress(lims, ss, req, i);
    if i < |lims| {
      expected := expected[i := Step(lims[i], ss[i], req).0];
    }
    var outs, r := Outcomes(lims, ss, req), Call(lims, ss, req);
    CallPointwise(lims, ss, req);
    StopsAnswers(ss, outs, r.0, r.1, i);
    forall j | 0 <= j < |lims|
      ensures r.0[j] == expected[j]
    {
      CallAt(lims, ss, req, j);
      ReachedUpTo(outs, i, j);
    }
    assert r.0 == expected;
  }

  lemma ReachedUpTo(outs: seq<(State, Verdict)>, i: nat, j: nat)
    requires i <= |outs| && j < |outs| && AllPass(outs, i) && (i < |outs| ==> !outs[i].1.Pass?)
    ensures AllPass(outs, j) <==> j <= i
  {}

  // ---------- Building the chain ----------

  lemma {:induction false} KeptAppend(lims: seq<Limits>, lim: Limits)
    ensures Kept(lims + [lim]) == Kept(lims) + OneKept(lim)
  {
    if lims == [] {
      assert [lim][1..] == [];
    } else {
      KeptAppend(lims[1..], lim);
      HeadTail(lims, [lim]);
      Assoc(OneKept(lims[0]), Kept(lims[1..]), OneKept(lim));
    }
  }

  lemma FreshAppend(lims: seq<Limits>, more: seq<Limits>)
    ensures FreshChain(lims + more) == FreshChain(lims) + FreshChain(more)
  {}

  /** The chain for one config more. */
  lemma KeptStep(lims: seq<Limits>, n: nat)
    requires n < |lims|
    ensures Kept(lims[..n + 1]) == Kept(lims[..n]) + OneKept(lims[n])
    ensures FreshChain(Kept(lims[..n + 1])) == FreshChain(Kept(lims[..n])) + FreshChain(OneKept(lims[n]))
  {
    PrefixSnoc(lims, n);
    KeptAppend(lims[..n], lims[n]);
    FreshAppend(Kept(lims[..n]), OneKept(lims[n]));
  }

  /** The bucket objects of the overridden keys, each with its own quota. */
  method MakeOverrides(c: Config) returns (own: map<Key, GlobalLimiter>)
    requires !c.key.Global? && Buildable(c)
    ensures (map k | k in own :: own[k].quota) == OwnQuotas(c, c.overrides)
    ensures forall k | k in own :: fresh(own[k]) && own[k].tat == 0
    ensures forall k, k' | k in own && k' in own && k != k' :: own[k] != own[k']
  {
    own := map[];
    for n := 0 to |c.overrides|
      invariant (map k | k in own :: own[k].quota) == OwnQuotas(c, c.overrides[..n])
      invariant forall k | k in own :: fresh(own[k]) && own[k].tat == 0
      invariant forall k, k' | k in own && k' in own && k != k' :: own[k] != own[k']
    {
      var entry := c.overrides[n];
      PrefixSnoc(c.overrides, n);
      if entry.key.Some? {
        var quota := QuotaFrom(WithOverride(c, entry.quota));
        if quota.Limited? {
          var bucket := new GlobalLimiter(quota.quota);
          own := own[entry.key.value := bucket];
        }
      }
    }
    WholePrefix(c.overrides);
  }

  /** `KeyedLimiter::new` */
  method MakeKeyed(c: Config) returns (r: Option<Limiter>)
    requires !c.key.Global? && Buildable(c)
    ensures r.None? <==> NeverRejects(LimitsOf(c))
    ensures r.Some? ==> r.value.Valid() && fresh(r.value.Repr())
    ensures r.Some? ==> r.value.Config() == LimitsOf(c) && r.value.View() == Fresh(LimitsOf(c))
  {
    var quota := QuotaFrom(c);
    var own := MakeOverrides(c);
    assert own.Keys == OwnQuotas(c, c.overrides).Keys;
    if !quota.Limited? && own == map[] && !c.requireKey {
      return None;
    }
    var limiter := new KeyedLimiter(c.key, if quota.Limited? then Some(quota.quota) else None, own, c.requireKey);
    assert limiter.View().own == Fresh(LimitsOf(c)).own;
    return Some(PerKey(limiter));
  }

  /** `make_limiter`: a fresh limiter for the config, or none when it would never reject. */
  method MakeLimiter(c: Config) returns (r: Option<Limiter>)
    requires Buildable(c)
    ensures r.None? <==> NeverRejects(LimitsOf(c))
    ensures r.None? <==> SetsNoLimit(c)
    ensures r.Some? ==> r.value.Valid() && fresh(r.value.Repr())
    ensures r.Some? ==> r.value.Config() == LimitsOf(c) && r.value.View() == Fresh(LimitsOf(c))
  {
    NoLimiterIff(c);
    if !c.key.Global? {
      r := MakeKeyed(c);
      return;
    }
    var quota := QuotaFrom(c);
    if !quota.Limited? {
      return None;
    }
    var bucket := new GlobalLimiter(quota.quota);
    assert Everyone in LimitsOf(c).own;
    return Some(Direct(bucket));
  }

  lemma AppendLimiter(ls: seq<Limiter>, l: Limiter)
    requires Separate(ls) && l.Valid() && l.Repr() !! AllRepr(ls)
    ensures Separate(ls + [l]) && AllRepr(ls + [l]) == AllRepr(ls) + l.Repr()
    ensures Configs(ls + [l]) == Configs(ls) + [l.Config()]
    ensures Views(ls + [l]) == Views(ls) + [l.View()]
  {
    var all := ls + [l];
    assert forall i | 0 <= i < |ls| :: all[i] == ls[i];
    assert all[|ls|] == l;
    forall i | 0 <= i < |ls|
      ensures ls[i].Repr() <= AllRepr(ls) && ls[i].Repr() <= AllRepr(all)
    {
      assert ls[i] == all[i];
    }
    assert l.Repr() <= AllRepr(all);
  }

  /** The limits of the full configuration, those that will be left out included. */
  function LimitsOfAll(configs: seq<Config>): (lims: seq<Limits>)
    ensures |lims| == |configs| && forall i | 0 <= i < |configs| :: lims[i] == LimitsOf(configs[i])
  {
    seq(|configs|, i requires 0 <= i < |configs| => LimitsOf(configs[i]))
  }

  function OneKept(lim: Limits): seq<Limits> {
    if NeverRejects(lim) then [] else [lim]
  }

  function WithMade(ls: seq<Limiter>, made: Option<Limiter>): seq<Limiter> {
    if made.Some? then ls + [made.value] else ls
  }

  /** What adding the limiter made for `lim` does to the chain. */
  lemma AddMade(ls: seq<Limiter>, made: Option<Limiter>, lim: Limits)
    requires Separate(ls) && (made.None? <==> NeverRejects(lim))
    requires made.Some? ==> made.value.Valid() && made.value.Repr() !! AllRepr(ls)
    requires made.Some? ==> made.value.Config() == lim && made.value.View() == Fresh(lim)
    ensures Separate(WithMade(ls, made))
    ensures AllRepr(WithMade(ls, made)) == AllRepr(ls) + if made.Some? then made.value.Repr() else {}
    ensures Configs(WithMade(ls, made)) == Configs(ls) + OneKept(lim)
    ensures Views(WithMade(ls, made)) == Views(ls) + FreshChain(OneKept(lim))
  {
    if made.Some? {
      AppendLimiter(ls, made.value);
    }
  }

  /** Make the limiter of `c` and put it at the end of the chain, if it needs one. */
  method MakeAndAdd(ls: seq<Limiter>, c: Config) returns (all: seq<Limiter>)
    requires Separate(ls) && Buildable(c)
    ensures Separate(all) && fresh(AllRepr(all) - AllRepr(ls))
    ensures Configs(all) == Configs(ls) + OneKept(LimitsOf(c))
    ensures Views(all) == old(Views(ls)) + FreshChain(OneKept(LimitsOf(c)))
  {
    var made := MakeLimiter(c);
    ViewsKept(ls);
    AddMade(ls, made, LimitsOf(c));
    all := WithMade(ls, made);
  }

  twostate lemma ViewsKept(ls: seq<Limiter>)
    requires unchanged(AllRepr(ls))
    ensures Views(ls) == old(Views(ls))
  {
    forall i | 0 <= i < |ls|
      ensures ls[i].View() == old(ls[i].View())
    {
    }
  }

  /** `configs.iter().filter_map(make_limiter).collect()` */
  method MakeLimiters(configs: seq<Config>) returns (ls: seq<Limiter>)
    requires forall c | c in configs :: Buildable(c)
    ensures Separate(ls) && fresh(AllRepr(ls))
    ensures Configs(ls) == Kept(LimitsOfAll(configs))
    ensures Views(ls) == FreshChain(Kept(LimitsOfAll(configs)))
  {
    ls := [];
    ghost var lims := LimitsOfAll(configs);
    for n := 0 to |configs|
      invariant Separate(ls) && fresh(AllRepr(ls))
      invariant Configs(ls) == Kept(lims[..n])
      invariant Views(ls) == FreshChain(Kept(lims[..n]))
    {
      KeptStep(lims, n);
      ls := MakeAndAdd(ls, configs[n]);
    }
    WholePrefix(lims);
  }

  // ---------- The whole service under a whole trace ----------

  /** `RateLimit::new`: a service for a list of limits, leaving out those that never reject. */
  method NewRateLimit(configs: seq<Config>) returns (service: RateLimit)
    requires forall c | c in configs :: Buildable(c)
    ensures HasServed(service, LimitsOfAll(configs), []) && fresh(AllRepr(service.limiters))
  {
    var ls := MakeLimiters(configs);
    service := RateLimit(ls);
  }

  /** The documented answer to a request: that of the first limit whose bucket objects. */
  ghost predicate IsDocumented(lims: seq<Limits>, earlier: seq<Request>, req: Request, verdict: Verdict) {
    InOrder(earlier + [req]) && verdict == DocumentedAnswer(lims, earlier, req)
  }

  lemma ServiceStep(lims: seq<Limits>, earlier: seq<Request>, req: Request)
    requires InOrder(earlier + [req])
    ensures var r := Call(Kept(lims), ChainAfter(Kept(lims), earlier), req);
            && r.0 == ChainAfter(Kept(lims), earlier + [req])
            && IsDocumented(lims, earlier, req, r.1)
  {
    assert (earlier + [req])[..|earlier|] == earlier;
    DroppingLimitersIsUnobservable(lims, earlier, req);
    ChainIsDocumented(lims, earlier, req);
  }

  /** The answers given so far to a trace are the documented ones. */
  ghost predicate AllDocumented(lims: seq<Limits>, reqs: seq<Request>, verdicts: seq<Verdict>) {
    && |verdicts| <= |reqs|
    && forall i | 0 <= i < |verdicts| :: IsDocumented(lims, reqs[..i], reqs[i], verdicts[i])
  }

  lemma OneMoreDocumented(lims: seq<Limits>, reqs: seq<Request>, verdicts: seq<Verdict>, verdict: Verdict)
    requires |verdicts| < |reqs| && AllDocumented(lims, reqs, verdicts)
    requires IsDocumented(lims, reqs[..|verdicts|], reqs[|verdicts|], verdict)
    ensures AllDocumented(lims, reqs, verdicts + [verdict])
  {
    var all := verdicts + [verdict];
    forall i | 0 <= i < |all|
      ensures IsDocumented(lims, reqs[..i], reqs[i], all[i])
    {
      if i < |verdicts| {
        assert all[i] == verdicts[i];
      } else {
        assert all[i] == verdict;
      }
    }
  }

  /** The service is the kept part of `lims` after serving `reqs`. */
  ghost predicate HasServed(service: RateLimit, lims: seq<Limits>, reqs: seq<Request>)
    reads AllRepr(service.limiters)
  {
    && service.Valid()
    && Configs(service.limiters) == Kept(lims)
    && Views(service.limiters) == ChainAfter(Kept(lims), reqs)
  }

  method ServeOne(service: RateLimit, ghost lims: seq<Limits>, ghost earlier: seq<Request>, req: Request)
    returns (verdict: Verdict)
    requires HasServed(service, lims, earlier) && InOrder(earlier + [req])
    modifies AllRepr(service.limiters)
    ensures HasServed(service, lims, earlier + [req]) && IsDocumented(lims, earlier, req, verdict)
  {
    ServiceStep(lims, earlier, req);
    verdict := service.Check(req);
  }

  /**
   Built from any configuration and put through any trace, the service answers every request
   as the documentation of the full configuration says, limits it left out included.
   */
  method ServeTrace(configs: seq<Config>, reqs: seq<Request>) returns (verdicts: seq<Verdict>)
    requires (forall c | c in configs :: Buildable(c)) && InOrder(reqs)
    ensures |verdicts| == |reqs|
    ensures AllDocumented(LimitsOfAll(configs), reqs, verdicts)
  {
    ghost var lims := LimitsOfAll(configs);
    var service := NewRateLimit(configs);
    verdicts := [];
    for i := 0 to |reqs|
      invariant fresh(AllRepr(service.limiters)) && HasServed(service, lims, reqs[..i])
      invariant |verdicts| == i && AllDocumented(lims, reqs, verdicts)
    {
      InOrderPrefix(reqs, i + 1);
      PrefixSnoc(reqs, i);
      var verdict := ServeOne(service, lims, reqs[..i], reqs[i]);
      OneMoreDocumented(lims, reqs, verdicts, verdict);
      verdicts := verdicts + [verdict];
    }
  }
}
