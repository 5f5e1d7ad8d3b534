/** Whole runs of requests: they are runs of cache calls, so what holds of all those holds of
    them, and with the filter's own verdicts their replies are clean. */
module RequestRuns {
  import opened CacheRuns
  import opened Lru
  import opened Message
  import opened Names
  import opened Prelude
  import P = Pipeline
  import R = Refresh

  // ----- the cache steps of a run -----

  /** The cache calls one request makes. */
  function CacheOps(cfg: P.Config, s: P.Cache, ev: P.Event): seq<Op<MsgView>> {
    if ev.r.question == [] || cfg.check(P.QName(ev.r.question[0].name)) then []
    else
      var key := P.Key(cfg, ev.r.question[0], ev.r.dnssecOk);
      [Get(key, ev.looked)] +
      if GetStep(s, key, ev.looked).1.Fresh? || ev.upstream.None? || !P.Cacheable(ev.upstream.value.rcode) then []
      else [Put(key, P.Processed(cfg, ev.r, ev.upstream.value), P.FreshFor(cfg, ev.r, ev.upstream.value), ev.stored)]
  }

  /** What one request does to the cache is a run of these calls. */
  lemma HandleIsCacheRun(cfg: P.Config, s: P.Cache, ev: P.Event)
    ensures P.Handle(cfg, s, ev).0 == Run(cfg.size, cfg.staleFor, s, CacheOps(cfg, s, ev))
  {
    hide P.Processed, P.FreshFor, P.Key, GetStep, PutStep;
    var ops := CacheOps(cfg, s, ev);
    if ops != [] {
      RunUnfold(cfg, s, ops);
    }
  }

  lemma RunUnfold(cfg: P.Config, s: P.Cache, ops: seq<Op<MsgView>>)
    requires 1 <= |ops| <= 2
    ensures var s1 := Step(cfg.size, cfg.staleFor, s, ops[0]).0;
      Run(cfg.size, cfg.staleFor, s, ops) ==
        if |ops| == 1 then s1 else Step(cfg.size, cfg.staleFor, s1, ops[1]).0
  {
    hide Step;
    var s1 := Step(cfg.size, cfg.staleFor, s, ops[0]).0;
    if |ops| == 2 {
      assert ops[1..][0] == ops[1] && ops[1..][1..] == [];
      assert Run(cfg.size, cfg.staleFor, s1, ops[1..]) == Step(cfg.size, cfg.staleFor, s1, ops[1]).0;
    }
  }

  /** The cache calls of a run of requests. */
  function RunOps(cfg: P.Config, s: P.Cache, evs: seq<P.Event>): seq<Op<MsgView>>
    decreases evs
  {
    if evs == [] then [] else CacheOps(cfg, s, evs[0]) + RunOps(cfg, P.Handle(cfg, s, evs[0]).0, evs[1..])
  }

  /** Every cache state of the pipeline is one of a run of cache calls. */
  lemma {:induction false} RunIsCacheRun(cfg: P.Config, s: P.Cache, evs: seq<P.Event>)
    ensures P.Run(cfg, s, evs) == Run(cfg.size, cfg.staleFor, s, RunOps(cfg, s, evs))
    decreases evs
  {
    hide P.Handle, CacheOps;
    if evs != [] {
      var s' := P.Handle(cfg, s, evs[0]).0;
      HandleIsCacheRun(cfg, s, evs[0]);
      RunIsCacheRun(cfg, s', evs[1..]);
      RunConcat(cfg.size, cfg.staleFor, s, CacheOps(cfg, s, evs[0]), RunOps(cfg, s', evs[1..]));
    }
  }

  /** In every run a reply from the cache is what the last request to store under its key
      stored, fresh or stale by the deadlines set then. */
  lemma CachedIsLastStored(cfg: P.Config, evs: seq<P.Event>, ev: P.Event)
    requires cfg.size > 0
    ensures var reply, memo := P.Handle(cfg, P.Run(cfg, [], evs), ev).1, Memo(cfg.staleFor, map[], RunOps(cfg, [], evs));
      reply.cached ==>
        && ev.r.question != [] && var key := P.Key(cfg, ev.r.question[0], ev.r.dnssecOk);
        && key in memo && reply.msg == Some(memo[key].msg.(id := ev.r.id))
        && (reply.stale <==> ev.looked >= memo[key].valid) && (reply.stale ==> ev.looked < memo[key].stale)
  {
    hide RunOps, P.Run, P.Key, P.Resolve, P.Processed;
    RunIsCacheRun(cfg, [], evs);
    if ev.r.question != [] {
      GetReturnsLastPut(cfg.size, cfg.staleFor, RunOps(cfg, [], evs), P.Key(cfg, ev.r.question[0], ev.r.dnssecOk), ev.looked);
    }
  }

  // ----- retention -----

  /** The keys other than `key` that the requests ask for. */
  function Asked(cfg: P.Config, evs: seq<P.Event>, key: string): set<string> {
    set ev | ev in evs && ev.r.question != [] && P.Key(cfg, ev.r.question[0], ev.r.dnssecOk) != key
      :: P.Key(cfg, ev.r.question[0], ev.r.dnssecOk)
  }

  /** The request is not for this entry, or comes before its fresh deadline, or before its
      stale one with nothing new to store. */
  predicate Harmless(cfg: P.Config, ev: P.Event, e: Entry<MsgView>) {
    || ev.r.question == []
    || cfg.check(P.QName(ev.r.question[0].name))
    || P.Key(cfg, ev.r.question[0], ev.r.dnssecOk) != e.key
    || ev.looked < e.valid
    || (ev.looked < e.stale && (ev.upstream.None? || !P.Cacheable(ev.upstream.value.rcode)))
  }

  /** What a harmless request does to the cache leaves the entry alone and touches at most
      the key it asks for. */
  lemma HarmlessOps(cfg: P.Config, s: P.Cache, ev: P.Event, e: Entry<MsgView>)
    requires Distinct(s) && e in s && Harmless(cfg, ev, e)
    ensures LeavesAlone(CacheOps(cfg, s, ev), e)
    ensures Touched(cfg.size, cfg.staleFor, s, CacheOps(cfg, s, ev), e.key) <= Asked(cfg, [ev], e.key)
  {
    hide P.Processed, P.FreshFor, P.Key;
    FindUnique(s, e);
    var ops := CacheOps(cfg, s, ev);
    if ops != [] {
      var key := P.Key(cfg, ev.r.question[0], ev.r.dnssecOk);
      assert forall op :: op in ops ==> op.key == key;
      TouchedKeys(cfg.size, cfg.staleFor, s, ops, e.key);
      assert ev in [ev];
      assert key != e.key ==> key in Asked(cfg, [ev], e.key);
    }
  }

  /** A stored entry outlives any run of harmless requests for fewer than `size` other keys. */
  lemma {:induction false} RequestsKeep(cfg: P.Config, s: P.Cache, e: Entry<MsgView>, ahead: set<string>, evs: seq<P.Event>)
    requires cfg.size > 0 && Distinct(s) && |s| <= cfg.size && Behind(s, e, ahead)
    requires e.key !in ahead && |ahead + Asked(cfg, evs, e.key)| < cfg.size
    requires forall ev :: ev in evs ==> Harmless(cfg, ev, e)
    ensures e in P.Run(cfg, s, evs)
    decreases evs
  {
    hide P.Handle, CacheOps, Harmless, P.Key, Distinct;
    if evs != [] {
      var ops := CacheOps(cfg, s, evs[0]);
      HarmlessOps(cfg, s, evs[0], e);
      var more := Touched(cfg.size, cfg.staleFor, s, ops, e.key);
      AskedCons(cfg, evs, e.key);
      SubsetSize(ahead + more, ahead + Asked(cfg, evs, e.key));
      Retained(cfg.size, cfg.staleFor, s, e, ahead, ops);
      HandleIsCacheRun(cfg, s, evs[0]);
      RunBounded(cfg.size, cfg.staleFor, s, ops);
      SubsetSize(ahead + more + Asked(cfg, evs[1..], e.key), ahead + Asked(cfg, evs, e.key));
      RequestsKeep(cfg, P.Handle(cfg, s, evs[0]).0, e, ahead + more, evs[1..]);
    }
  }

  lemma AskedCons(cfg: P.Config, evs: seq<P.Event>, key: string)
    requires evs != []
    ensures Asked(cfg, [evs[0]], key) <= Asked(cfg, evs, key) && Asked(cfg, evs[1..], key) <= Asked(cfg, evs, key)
    ensures key !in Asked(cfg, evs, key) && key !in Asked(cfg, [evs[0]], key)
  {
  }

  /** The entry a request stores, when it is not answered from the cache. */
  function StoredBy(cfg: P.Config, ev: P.Event): Entry<MsgView>
    requires ev.r.question != [] && ev.upstream.Some?
  {
    var valid := ev.stored + P.FreshFor(cfg, ev.r, ev.upstream.value);
    Entry(P.Key(cfg, ev.r.question[0], ev.r.dnssecOk), P.Processed(cfg, ev.r, ev.upstream.value), valid, valid + cfg.staleFor)
  }

  /** Retention for requests: after any run, a reply that is stored answers every later
      request for its key, without asking upstream until its lifetime is over and as a stale
      reply after that if upstream fails, whatever fewer than `size` other keys are asked for
      in between. */
  lemma StoredRepliesServed(cfg: P.Config, before: seq<P.Event>, ev: P.Event, after: seq<P.Event>, again: P.Event)
    requires cfg.size > 0
    requires P.Handle(cfg, P.Run(cfg, [], before), ev).1.asked && ev.upstream.Some? && P.Cacheable(ev.upstream.value.rcode)
    requires ev.r.question != [] && |Asked(cfg, after, StoredBy(cfg, ev).key)| < cfg.size
    requires forall x :: x in after ==> Harmless(cfg, x, StoredBy(cfg, ev))
    requires again.r.question != [] && !cfg.check(P.QName(again.r.question[0].name))
    requires P.Key(cfg, again.r.question[0], again.r.dnssecOk) == StoredBy(cfg, ev).key
    requires again.looked < StoredBy(cfg, ev).valid || (again.looked < StoredBy(cfg, ev).stale && again.upstream.None?)
    ensures var e, s := StoredBy(cfg, ev), P.Run(cfg, P.Handle(cfg, P.Run(cfg, [], before), ev).0, after);
      var isFresh := again.looked < e.valid;
      P.Handle(cfg, s, again).1 == P.Reply(Some(e.msg.(id := again.r.id)), false, true, !isFresh, !isFresh)
  {
    hide P.Run, P.Processed, P.FreshFor, P.Key, Distinct, Harmless;
    var s0 := P.Run(cfg, [], before);
    RunIsCacheRun(cfg, [], before);
    RunBounded(cfg.size, cfg.staleFor, [], RunOps(cfg, [], before));
    var s1 := P.Handle(cfg, s0, ev).0;
    HandleIsCacheRun(cfg, s0, ev);
    RunBounded(cfg.size, cfg.staleFor, s0, CacheOps(cfg, s0, ev));
    var e := StoredBy(cfg, ev);
    assert s1[0] == e;
    assert Behind(s1, e, {});
    assert {} + Asked(cfg, after, e.key) == Asked(cfg, after, e.key);
    RequestsKeep(cfg, s1, e, {}, after);
    RunIsCacheRun(cfg, s1, after);
    RunBounded(cfg.size, cfg.staleFor, s1, RunOps(cfg, s1, after));
    FindUnique(P.Run(cfg, s1, after), e);
  }

  // ----- the filter's verdicts -----

  lemma EmptyNotBlocked(s: R.State)
    ensures !R.Blocks(s, [])
  {
    assert Normalize([]) == [];
  }

  /** With the filter of the engine in some state, no alias of a successful reply of any run,
      other than a block response, leads to a name that state blocks. */
  lemma RunFiltered(cfg: P.Config, filter: R.State, s: P.Cache, evs: seq<P.Event>, i: nat)
    requires forall name :: cfg.check(name) <==> R.Blocks(filter, name)
    requires P.CleanCache(cfg.check, s) && i < |evs|
    ensures var reply := P.Replies(cfg, s, evs)[i];
      reply.msg.Some? && !reply.blocked && reply.msg.value.rcode == NOERROR ==>
        forall rr :: rr in reply.msg.value.answer && rr.data.CNAME? ==> !R.Blocks(filter, P.QName(rr.data.target))
    ensures var reply := P.Replies(cfg, s, evs)[i];
      reply.blocked <==> evs[i].r.question != [] && R.Blocks(filter, P.QName(evs[i].r.question[0].name))
  {
    hide P.Handle, R.Blocks;
    P.RunClean(cfg, s, evs);
    EmptyNotBlocked(filter);
    BlockedReplies(cfg, s, evs, i);
    var reply := P.Replies(cfg, s, evs)[i];
    if reply.msg.Some? && !reply.blocked && reply.msg.value.rcode == NOERROR {
      forall rr | rr in reply.msg.value.answer && rr.data.CNAME? ensures !R.Blocks(filter, P.QName(rr.data.target)) {
        var j :| 0 <= j < |reply.msg.value.answer| && reply.msg.value.answer[j] == rr;
        assert !P.Tracker(cfg.check, reply.msg.value.answer[j]);
      }
    }
  }

  lemma {:induction false} BlockedReplies(cfg: P.Config, s: P.Cache, evs: seq<P.Event>, i: nat)
    requires i < |evs|
    ensures P.Replies(cfg, s, evs)[i].blocked <==> evs[i].r.question != [] && cfg.check(P.QName(evs[i].r.question[0].name))
    decreases evs
  {
    hide P.Handle;
    P.ReplyCases(cfg, s, evs[0]);
    if i > 0 {
      BlockedReplies(cfg, P.Handle(cfg, s, evs[0]).0, evs[1..], i - 1);
    }
  }
}
