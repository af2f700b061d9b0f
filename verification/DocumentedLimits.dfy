/**
 What the documentation of the rate limiter promises about whole traces, said with documented
 token buckets only: nothing here mentions stored times, eviction or the state of a limiter.
 */
module DocumentedLimits {
  import opened Wrappers
  import opened Sequences
  import opened Gcra
  import opened TokenBucket

  datatype Source = Global | PeerIp | SmartIp | UserId

  datatype Key = Everyone | Ip(address: string) | User(id: string)

  /** A request as the limits see it: what each extractor finds in it, and when it is checked. */
  datatype Request = Request(peerIp: Option<Key>, smartIp: Option<Key>, userId: Option<Key>, at: Ticks)

  function Extract(source: Source, req: Request): Option<Key> {
    match source
    case Global => Some(Everyone)
    case PeerIp => req.peerIp
    case SmartIp => req.smartIp
    case UserId => req.userId
  }

  /** The fixed part of a limit. A global limit is one override, for the key `Everyone`. */
  datatype Limits = Limits(source: Source, shared: Option<Quota>, own: map<Key, Quota>, requireKey: bool) {
    function KeyOf(req: Request): Option<Key> {
      Extract(source, req)
    }

    function QuotaOf(key: Key): Option<Quota> {
      if key in own then Some(own[key]) else shared
    }
  }

  function LastInstant(reqs: seq<Request>): nat {
    if reqs == [] then 0 else reqs[|reqs| - 1].at.check
  }

  /** Requests arriving under a clock that never goes back. */
  ghost predicate InOrder(reqs: seq<Request>) {
    reqs == [] ||
    var before, at := reqs[..|reqs| - 1], reqs[|reqs| - 1].at;
    InOrder(before) && LastInstant(before) <= at.sweep <= at.check <= at.wait
  }

  /** The checks made for one key: the only part of a run its bucket should know about. */
  function ChecksOf(lim: Limits, key: Key, reqs: seq<Request>): seq<Ticks> {
    if reqs == [] then []
    else
      var before, last := reqs[..|reqs| - 1], reqs[|reqs| - 1];
      if lim.KeyOf(last) == Some(key) then ChecksOf(lim, key, before) + [last.at]
      else ChecksOf(lim, key, before)
  }

  lemma InOrderInit(reqs: seq<Request>, req: Request)
    ensures InOrder(reqs + [req]) <==>
            InOrder(reqs) && LastInstant(reqs) <= req.at.sweep <= req.at.check <= req.at.wait
  {
    DropLeft(reqs, [req]);
  }

  lemma {:induction false} InOrderPrefix(reqs: seq<Request>, i: nat)
    requires InOrder(reqs) && i <= |reqs|
    ensures InOrder(reqs[..i])
    decreases |reqs|
  {
    if i < |reqs| {
      Snoc(reqs);
      InOrderInit(reqs[..|reqs| - 1], reqs[|reqs| - 1]);
      InOrderPrefix(reqs[..|reqs| - 1], i);
      SamePrefix(reqs[..|reqs| - 1], reqs, i);
    } else {
      WholePrefix(reqs);
    }
  }

  lemma {:induction false} KeyClock(lim: Limits, key: Key, reqs: seq<Request>)
    requires InOrder(reqs)
    ensures Monotone(ChecksOf(lim, key, reqs))
    ensures LastCheck(ChecksOf(lim, key, reqs)) <= LastInstant(reqs)
  {
    if reqs != [] {
      var before, last := reqs[..|reqs| - 1], reqs[|reqs| - 1];
      KeyClock(lim, key, before);
      MonotoneInit(ChecksOf(lim, key, before), last.at);
    }
  }

  lemma KeyClockNext(lim: Limits, key: Key, reqs: seq<Request>, req: Request)
    requires InOrder(reqs + [req])
    ensures Monotone(ChecksOf(lim, key, reqs) + [req.at])
  {
    InOrderInit(reqs, req);
    KeyClock(lim, key, reqs);
    MonotoneInit(ChecksOf(lim, key, reqs), req.at);
  }

  /**
   The documented answer to `req` after `earlier`: that of a token bucket which belongs to the
   key of `req`, started full, and was only ever used by requests with that key.
   */
  ghost function DocumentedVerdict(lim: Limits, earlier: seq<Request>, req: Request): Verdict
    requires InOrder(earlier + [req])
  {
    var key := lim.KeyOf(req);
    if key.None? then (if lim.requireKey then KeyMissing else Pass)
    else if lim.QuotaOf(key.value).None? then Pass
    else
      KeyClockNext(lim, key.value, earlier, req);
      Documented(lim.QuotaOf(key.value).value, ChecksOf(lim, key.value, earlier), req.at)
  }

  /** The requests of a trace that a limit lets through, when they are all it sees. */
  ghost function Passed(lim: Limits, reqs: seq<Request>): (r: seq<Request>)
    requires InOrder(reqs)
    ensures InOrder(r) && LastInstant(r) <= LastInstant(reqs)
    decreases |reqs|
  {
    if reqs == [] then []
    else
      var before, last := reqs[..|reqs| - 1], reqs[|reqs| - 1];
      Snoc(reqs);
      var passed := Passed(lim, before);
      InOrderInit(passed, last);
      if DocumentedVerdict(lim, before, last).Pass? then passed + [last] else passed
  }

  lemma PassedStep(lim: Limits, reqs: seq<Request>, req: Request)
    requires InOrder(reqs + [req])
    ensures InOrder(reqs)
    ensures Passed(lim, reqs + [req]) ==
            if DocumentedVerdict(lim, reqs, req).Pass? then Passed(lim, reqs) + [req] else Passed(lim, reqs)
  {
    DropLeft(reqs, [req]);
    InOrderInit(reqs, req);
  }

  /** The requests of a trace that get past the limits before `i`, one limit after another. */
  ghost function PassedBefore(lims: seq<Limits>, reqs: seq<Request>, i: nat): (r: seq<Request>)
    requires InOrder(reqs) && i <= |lims|
    ensures InOrder(r) && LastInstant(r) <= LastInstant(reqs)
  {
    if i == 0 then reqs else Passed(lims[i - 1], PassedBefore(lims, reqs, i - 1))
  }

  /** `stages[i]` is what limit `i` of a chain sees, for every limit, and what comes out in the end. */
  ghost predicate IsPipeline(lims: seq<Limits>, stages: seq<seq<Request>>) {
    && |stages| == |lims| + 1
    && forall i | 0 <= i < |lims| :: IsStage(lims[i], stages[i], stages[i + 1])
  }

  ghost predicate IsStage(lim: Limits, before: seq<Request>, after: seq<Request>) {
    InOrder(before) && after == Passed(lim, before)
  }

  lemma {:induction false} PipelineIsPassedBefore(lims: seq<Limits>, stages: seq<seq<Request>>, i: nat)
    requires IsPipeline(lims, stages) && InOrder(stages[0]) && i <= |lims|
    ensures stages[i] == PassedBefore(lims, stages[0], i)
  {
    if i > 0 {
      PipelineIsPassedBefore(lims, stages, i - 1);
      assert IsStage(lims[i - 1], stages[i - 1], stages[i - 1 + 1]);
    }
  }

  lemma PassedBeforeNext(lims: seq<Limits>, earlier: seq<Request>, req: Request, i: nat)
    requires i <= |lims| && InOrder(earlier + [req])
    ensures InOrder(earlier) && InOrder(PassedBefore(lims, earlier, i) + [req])
  {
    InOrderInit(earlier, req);
    InOrderInit(PassedBefore(lims, earlier, i), req);
  }

  /** What the documented buckets of each limit answer to a request, had it come that far. */
  ghost function DocumentedVerdicts(lims: seq<Limits>, earlier: seq<Request>, req: Request): (r: seq<Verdict>)
    requires InOrder(earlier + [req])
    ensures |r| == |lims|
  {
    seq(|lims|, i requires 0 <= i < |lims| =>
      PassedBeforeNext(lims, earlier, req, i);
      DocumentedVerdict(lims[i], PassedBefore(lims, earlier, i), req))
  }

  /** The answer of a chain: the first verdict that is not a pass. */
  function FirstObjection(verdicts: seq<Verdict>): Verdict {
    if verdicts == [] then Pass
    else if verdicts[0].Pass? then FirstObjection(verdicts[1..])
    else verdicts[0]
  }

  /** The documented answer of a chain of limits to `req` after `earlier`. */
  ghost function DocumentedAnswer(lims: seq<Limits>, earlier: seq<Request>, req: Request): Verdict
    requires InOrder(earlier + [req])
  {
    FirstObjection(DocumentedVerdicts(lims, earlier, req))
  }

  lemma {:induction false} FirstObjectionMeans(verdicts: seq<Verdict>, i: nat)
    requires i <= |verdicts| && forall j | 0 <= j < i :: verdicts[j].Pass?
    requires i < |verdicts| ==> !verdicts[i].Pass?
    ensures FirstObjection(verdicts) == if i == |verdicts| then Pass else verdicts[i]
  {
    if i > 0 {
      FirstObjectionMeans(verdicts[1..], i - 1);
    }
  }
}
