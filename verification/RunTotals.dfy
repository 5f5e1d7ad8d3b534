/** What the metrics count over a run of requests, in terms of its requests and replies. */
module RunTotals {
  import opened Message
  import opened Names
  import opened Server
  import L = ReplyLaws
  import M = Metrics
  import P = Pipeline
  import R = RequestRuns

  /** The observations of a run: one for each request, in order. */
  function Observations(cfg: P.Config, evs: seq<P.Event>, replies: seq<P.Reply>): (h: seq<M.Query>)
    requires |evs| == |replies|
    ensures |h| == |evs| && forall i :: 0 <= i < |h| ==> h[i] == Observation(cfg, evs[i].r, replies[i])
  {
    seq(|evs|, i requires 0 <= i < |evs| => Observation(cfg, evs[i].r, replies[i]))
  }

  /** In every run of requests the blocked total is the number of requests for blocked names,
      the cached total the number of replies from the cache, stale ones included, and each
      request counts for its name. */
  lemma TotalsOfRun(cfg: P.Config, s: P.Cache, evs: seq<P.Event>)
    ensures var replies := P.Replies(cfg, s, evs); var h := Observations(cfg, evs, replies);
      && M.Tally(h, M.Blocked) ==
        |set i | 0 <= i < |evs| && evs[i].r.question != [] && cfg.check(P.QName(evs[i].r.question[0].name))|
      && M.Tally(h, M.Cached) == |set i | 0 <= i < |evs| && replies[i].cached|
      && forall i, t :: 0 <= i < |evs| && evs[i].r.question != [] && L.Undotted(evs[i].r.question[0].name, t) ==>
        SameName(h[i].qname, t)
  {
    hide P.Handle, P.QName;
    var replies := P.Replies(cfg, s, evs);
    var h := Observations(cfg, evs, replies);
    M.TotalsAre(h);
    forall i | 0 <= i < |evs|
      ensures h[i].blocked <==> evs[i].r.question != [] && cfg.check(P.QName(evs[i].r.question[0].name))
      ensures h[i].cached <==> replies[i].cached
    {
      R.BlockedReplies(cfg, s, evs, i);
      FlagsMean(cfg, s, evs, i);
    }
    assert (set i | 0 <= i < |h| && h[i].blocked) ==
      set i | 0 <= i < |evs| && evs[i].r.question != [] && cfg.check(P.QName(evs[i].r.question[0].name));
    assert (set i | 0 <= i < |h| && h[i].cached) == set i | 0 <= i < |evs| && replies[i].cached;
    forall i, t | 0 <= i < |evs| && evs[i].r.question != [] && L.Undotted(evs[i].r.question[0].name, t)
      ensures SameName(h[i].qname, t)
    {
      NameCounted(evs[i].r.question[0].name, t);
    }
  }

  lemma NameCounted(n: Name, t: Name)
    requires L.Undotted(n, t)
    ensures SameName(TrimDot(Lower(n)), t)
  {
    LowerIsCase(t, t);
    if n != [] && n[|n| - 1] == '.' {
      assert n[..|n| - 1] == t;
      assert Lower(n)[..|n| - 1] == Lower(t);
    }
  }

  /** A reply that is marked either way is there. */
  lemma {:induction false} FlagsMean(cfg: P.Config, s: P.Cache, evs: seq<P.Event>, i: nat)
    requires i < |evs|
    ensures var reply := P.Replies(cfg, s, evs)[i]; reply.blocked || reply.cached ==> reply.msg.Some?
    decreases evs
  {
    if i == 0 {
      OneFlags(cfg, s, evs[0]);
    } else {
      hide P.Handle;
      FlagsMean(cfg, P.Handle(cfg, s, evs[0]).0, evs[1..], i - 1);
    }
  }

  lemma OneFlags(cfg: P.Config, s: P.Cache, ev: P.Event)
    ensures var reply := P.Handle(cfg, s, ev).1; reply.blocked || reply.cached ==> reply.msg.Some?
  {
  }
}
