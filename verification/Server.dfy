/** The server's request path over message objects, proved against Pipeline. */
module Server {
  import opened Lru
  import opened Prelude
  import opened Names
  import opened Message
  import opened Ttl
  import C = ReplyCache
  import M = Metrics
  import P = Pipeline

  /** The query sent upstream: no ID, a normalized fully qualified name, no EDNS options. */
  function UpstreamQuery(r: Request): Request
    requires r.question != []
  {
    Request(0, r.question[0 := r.question[0].(name := P.QName(P.QName(r.question[0].name)) + ".")], false)
  }

  /** The upstream is asked for the client's first question: the same type and class and, up to
      case, the same name with one dot at its end; further questions go along unchanged. */
  lemma AskedQuery(r: Request, n: Name, k: nat)
    requires r.question != [] && n == r.question[0].name
    requires k <= |n| && |n| - 2 <= k && forall i :: k <= i < |n| ==> n[i] == '.'
    requires k == 0 || k == |n| - 2 || n[k - 1] != '.'
    ensures var q := UpstreamQuery(r);
      && q.id == 0 && !q.dnssecOk && |q.question| == |r.question|
      && q.question[0].qtype == r.question[0].qtype && q.question[0].qclass == r.question[0].qclass
      && SameName(q.question[0].name, n[..k] + ['.'])
      && forall i :: 0 < i < |r.question| ==> q.question[i] == r.question[i]
  {
    LowerIsCase(n[..k], n[..k]);
    if k == |n| {
      assert n[..k] == n && TrimDot(n) == n;
      LowerIsCase(n, n);
      assert TrimDot(Lower(n)) == Lower(n);
      LowerIsCase(Lower(n), n);
    } else if k == |n| - 1 {
      assert TrimDot(n) == n[..k];
      assert TrimDot(Lower(n[..k])) == Lower(n[..k]);
      LowerIsCase(Lower(n[..k]), n[..k]);
    } else {
      assert TrimDot(n) == n[..|n| - 1];
      assert TrimDot(Lower(n[..|n| - 1])) == Lower(n[..|n| - 1])[..k] == Lower(n[..k]);
      LowerIsCase(Lower(n[..k]), n[..k]);
    }
    assert Lower(Lower(n[..k])) == Lower(n[..k]);
  }

  /** What is recorded of a query and its reply. */
  function Observation(cfg: P.Config, r: Request, reply: P.Reply): M.Query {
    M.Query("local", 0,
            if r.question == [] then "" else TrimDot(Lower(r.question[0].name)),
            if r.question == [] then "" else cfg.typeName(r.question[0].qtype),
            reply.msg.Some? && reply.blocked, reply.msg.Some? && reply.cached)
  }

  /** The upstream pool as the pipeline sees it: it logs what it is asked, and unpacks the
      reply it receives, if any, into new objects. */
  class Upstream {
    var asked: seq<Request>

    constructor ()
      ensures asked == []
    {
      asked := [];
    }

    method Query(req: Request, reply: Option<MsgView>) returns (m: Msg?)
      modifies this
      ensures asked == old(asked) + [req]
      ensures m == null <==> reply.None?
      ensures m != null ==> fresh(m.Objects()) && m.View() == reply.value
    {
      asked := asked + [req];
      match reply
      case None => m := null;
      case Some(v) => m := new Msg(v);
    }
  }

  class Server {
    const cfg: P.Config
    const cache: C.ReplyCache
    const pool: Upstream
    const live: M.Metrics

    ghost predicate Valid()
      reads cache, live
    {
      && cache.Valid() && live.Valid()
      && (forall q :: q in live.history ==> !(q.blocked && q.cached))
      && cache.size == cfg.size && cache.staleFor == cfg.staleFor && cache.typeName == cfg.typeName
    }

    constructor (cfg: P.Config)
      ensures Valid() && cache.order == [] && pool.asked == [] && live.history == []
      ensures this.cfg == cfg.(size := if cfg.size < 1024 then 1024 else cfg.size)
      ensures fresh(cache) && fresh(pool) && fresh(live)
    {
      hide C.Agree, M.DomainTable, M.ClientTable, M.Recent, M.Tally;
      var c := new C.ReplyCache(cfg.size, cfg.staleFor, cfg.typeName);
      var u := new Upstream();
      var m := new M.Metrics();
      this.cfg := cfg.(size := if cfg.size < 1024 then 1024 else cfg.size);
      cache, pool, live := c, u, m;
    }

    /** The synthetic reply for a blocked name. */
    method BlockResponse(r: Request) returns (m: Msg)
      requires r.question != []
      ensures fresh(m.Objects()) && m.View() == P.BlockReply(cfg, r)
    {
      var q := r.question[0];
      if q.qtype == TYPE_A {
        m := new Msg(MsgView(r.id, NOERROR, [q], [Record(q.name, 60, A(cfg.block4))], [], []));
      } else if q.qtype == TYPE_AAAA {
        m := new Msg(MsgView(r.id, NOERROR, [q], [Record(q.name, 60, AAAA(cfg.block6))], [], []));
      } else {
        m := new Msg(MsgView(r.id, NXDOMAIN, [q], [], [], []));
      }
    }

    /** Walks the aliases of a successful reply, checking each target once, and empties
        the reply when one is blocked. */
    method Uncloak(qname: Name, resp: Msg)
      modifies resp
      ensures resp.View() == P.Uncloak(cfg.check, qname, old(resp.View()))
      ensures resp.Objects() <= old(resp.Objects())
    {
      if resp.rcode != NOERROR || |resp.answer| == 0 {
        return;
      }
      var check := cfg.check;
      var seen: set<Name> := {qname};
      var blocked := false;
      var i := 0;
      while i < |resp.answer| && !blocked
        invariant 0 <= i <= |resp.answer|
        invariant !blocked ==> forall t :: t in seen && t != qname ==> !check(t)
        invariant forall j :: 0 <= j < i && !blocked ==>
          !(P.Tracker(check, resp.answer[j].View()) && P.QName(resp.answer[j].data.target) != qname)
        invariant qname in seen
        invariant blocked ==> P.Cloaked(check, qname, Views(resp.answer))
      {
        var data := resp.answer[i].data;
        if data.CNAME? {
          var target := P.QName(data.target);
          if target != [] && target !in seen {
            seen := seen + {target};
            if check(target) {
              blocked := true;
              assert Views(resp.answer)[i] == resp.answer[i].View();
            }
          }
        }
        i := i + 1;
      }
      if blocked {
        resp.answer := [];
        resp.ns := [];
        resp.extra := [];
      }
    }

    /** Makes an upstream reply the client's: identity, uncloaking, TTLs.  Also gives
        its lifetime in the cache. */
    method Process(r: Request, qname: Name, resp: Msg) returns (ttl: int)
      requires r.question != [] && qname == P.QName(r.question[0].name)
      modifies resp.Objects()
      ensures resp.Objects() <= old(resp.Objects())
      ensures resp.View() == P.Processed(cfg, r, old(resp.View())) && resp.rcode == old(resp.rcode)
      ensures P.Cacheable(resp.rcode) ==> ttl == P.FreshFor(cfg, r, old(resp.View()))
    {
      hide Clamped, Lifetime, P.Uncloak;
      ttl := 0;
      resp.id := r.id;
      resp.question := r.question;
      Uncloak(qname, resp);
      UncloakRcode(qname, r, old(resp.View()));
      if resp.rcode == NOERROR || resp.rcode == NXDOMAIN {
        assert forall x: object :: x in resp.answer || x in resp.ns || x in resp.extra ==> x in resp.Objects();
        ttl := ClampTtls(resp, cfg.minTtl, cfg.maxTtl);
        if resp.rcode == NXDOMAIN && cfg.failTtl > 0 {
          ttl := cfg.failTtl;
        }
      }
    }

    lemma UncloakRcode(qname: Name, r: Request, v: MsgView)
      ensures P.Uncloak(cfg.check, qname, v.(id := r.id, question := r.question)).rcode == v.rcode
      ensures forall w, lo, hi :: Clamped(w, lo, hi).rcode == w.rcode
    {
    }

    /** Sends the query upstream, processes the reply and caches it if it is legitimate. */
    method Resolve(r: Request, qname: Name, upstream: Option<MsgView>, now: int) returns (resp: Msg?)
      requires Valid() && r.question != [] && qname == P.QName(r.question[0].name)
      modifies cache`items, cache`order, pool
      ensures Valid() && pool.asked == old(pool.asked) + [UpstreamQuery(r)]
      ensures resp == null <==> upstream.None?
      ensures resp != null ==> fresh(resp.Objects()) && resp.View() == P.Processed(cfg, r, upstream.value)
      ensures if upstream.Some? && P.Cacheable(upstream.value.rcode) then
          cache.order == PutStep<Msg>(cfg.size, cfg.staleFor, old(cache.order), P.Key(cfg, r.question[0], r.dnssecOk),
                                 resp, P.FreshFor(cfg, r, upstream.value), now)
        else cache.order == old(cache.order)
    {
      hide PutStep, P.Processed, P.FreshFor, P.QName;
      resp := pool.Query(UpstreamQuery(r), upstream);
      if resp == null {
        return;
      }
      var ttl := Process(r, qname, resp);
      if P.Cacheable(resp.rcode) {
        cache.Put(r.question[0], r.dnssecOk, resp, ttl, now);
      }
    }

    /** After a lookup that gave no fresh answer: ask upstream, else fall back to the stale
        copy `c`, if there is one. */
    method Answer(r: Request, upstream: Option<MsgView>, stored: int, c: Msg?) returns (m: Msg?, cached: bool)
      requires Valid() && r.question != []
      modifies cache`items, cache`order, pool, live`staleTotal, if c == null then {} else {c}
      ensures Valid() && live.history == old(live.history) && pool.asked == old(pool.asked) + [UpstreamQuery(r)]
      ensures upstream.Some? ==> !cached && m != null && fresh(m.Objects()) && m.View() == P.Processed(cfg, r, upstream.value)
      ensures upstream.None? ==>
        && m == c && cached == (c != null)
        && (c != null ==> c.View() == old(c.View()).(id := r.id) && c.Objects() == old(c.Objects()))
      ensures live.staleTotal == old(live.staleTotal) + (if cached then 1 else 0)
      ensures if upstream.Some? && P.Cacheable(upstream.value.rcode) then
          m != null && cache.order ==
            PutStep<Msg>(cfg.size, cfg.staleFor, old(cache.order), P.Key(cfg, r.question[0], r.dnssecOk),
                         m, P.FreshFor(cfg, r, upstream.value), stored)
        else cache.order == old(cache.order)
    {
      hide PutStep, P.Processed, P.FreshFor, P.QName;
      m := Resolve(r, P.QName(r.question[0].name), upstream, stored);
      if m != null {
        return m, false;
      }
      if c != null {
        c.id := r.id;
        live.ObserveStale();
        return c, true;
      }
      return null, false;
    }

    lemma KeptEntries(s: seq<Entry<Msg>>, key: string, now: int)
      ensures C.Objects(GetStep(s, key, now).0) <= C.Objects(s)
    {
      assert forall e :: e in GetStep(s, key, now).0 ==> e in s;
    }

    /** The cache lookup; the copy it returns, if any, has the cached contents. */
    method Lookup(r: Request, looked: int) returns (c: Msg?, isFresh: bool, ok: bool)
      requires Valid() && r.question != []
      modifies cache
      ensures Valid()
      ensures var (s', out) := GetStep(old(C.Contents(cache.order)), P.Key(cfg, r.question[0], r.dnssecOk), looked);
        && C.Contents(cache.order) == s'
        && ok == out.Hit() && isFresh == out.Fresh? && (c != null <==> ok)
        && (ok ==> fresh(c.Objects()) && c.View() == out.msg)
      ensures c != null ==> c.Objects() !! C.Objects(cache.order)
    {
      hide C.Contents, GetStep, C.ReplyCache.Valid, M.Metrics.Valid;
      ghost var before := cache.order;
      c, isFresh, ok := cache.Get(r.question[0], r.dnssecOk, looked);
      C.ContentsKept(before);
      C.ContentsGet(before, P.Key(cfg, r.question[0], r.dnssecOk), looked);
      KeptEntries(before, P.Key(cfg, r.question[0], r.dnssecOk), looked);
    }

    /** A fresh hit: the copy becomes the reply. */
    method Serve(r: Request, c: Msg)
      requires c.Objects() !! C.Objects(cache.order)
      modifies c
      ensures c.View() == old(c.View()).(id := r.id) && c.Objects() == old(c.Objects())
      ensures C.Contents(cache.order) == old(C.Contents(cache.order))
    {
      c.id := r.id;
      C.ContentsKept(cache.order);
    }

    /** The same as Answer, in terms of the cache contents. */
    method Finish(r: Request, upstream: Option<MsgView>, stored: int, c: Msg?) returns (m: Msg?, cached: bool)
      requires Valid() && r.question != []
      requires c != null ==> c.Objects() !! C.Objects(cache.order)
      modifies cache`items, cache`order, pool, live`staleTotal, if c == null then {} else {c}
      ensures Valid() && live.history == old(live.history) && pool.asked == old(pool.asked) + [UpstreamQuery(r)]
      ensures upstream.Some? ==> !cached && m != null && fresh(m.Objects()) && m.View() == P.Processed(cfg, r, upstream.value)
      ensures upstream.None? ==>
        && m == c && cached == (c != null)
        && (c != null ==> c.View() == old(c.View()).(id := r.id) && c.Objects() == old(c.Objects()))
      ensures live.staleTotal == old(live.staleTotal) + (if cached then 1 else 0)
      ensures C.Contents(cache.order) == P.Resolve(cfg, old(C.Contents(cache.order)), P.Event(r, stored, upstream, stored))
    {
      hide C.Contents, PutStep, P.Processed, P.FreshFor, P.Key;
      ghost var before := cache.order;
      m, cached := Answer(r, upstream, stored, c);
      C.ContentsKept(before);
      if upstream.Some? && P.Cacheable(upstream.value.rcode) {
        ghost var key, life := P.Key(cfg, r.question[0], r.dnssecOk), P.FreshFor(cfg, r, upstream.value);
        C.ContentsPut(cfg.size, cfg.staleFor, before, key, m, life, stored);
      }
    }

    /** The whole pipeline for one request.  The reply is made of new objects; nothing
        that existed before the call changes except the server's own cache, log and counters,
        so no cached message does. */
    method Handle(r: Request, looked: int, upstream: Option<MsgView>, stored: int)
      returns (m: Msg?, blocked: bool, cached: bool)
      requires Valid()
      modifies cache, pool, live
      ensures Valid()
      ensures var (s', reply) := P.Handle(cfg, old(C.Contents(cache.order)), P.Event(r, looked, upstream, stored));
        && C.Contents(cache.order) == s'
        && (m == null <==> reply.msg.None?)
        && (m != null ==> m.View() == reply.msg.value && fresh(m.Objects()))
        && blocked == reply.blocked && cached == reply.cached
        && pool.asked == old(pool.asked) + (if reply.asked then [UpstreamQuery(r)] else [])
        && live.history == old(live.history) && live.staleTotal == old(live.staleTotal) + (if reply.stale then 1 else 0)
    {
      hide C.Contents, GetStep, PutStep, P.Processed, P.FreshFor, P.BlockReply;
      if |r.question| == 0 {
        return null, false, false;
      }
      var q := r.question[0];
      var check := cfg.check;
      if check(P.QName(q.name)) {
        ghost var before := cache.order;
        m := BlockResponse(r);
        C.ContentsKept(before);
        return m, true, false;
      }
      var c, isFresh, ok := Lookup(r, looked);
      blocked := false;
      if ok && isFresh {
        Serve(r, c);
        m, cached := c, true;
      } else {
        m, cached := Finish(r, upstream, stored, c);
      }
    }

    /** Answers one plain-DNS query and records it; a null reply stands for SERVFAIL. */
    method ServeDns(r: Request, looked: int, upstream: Option<MsgView>, stored: int) returns (m: Msg?)
      requires Valid()
      modifies cache, pool, live
      ensures Valid()
      ensures var (s', reply) := P.Handle(cfg, old(C.Contents(cache.order)), P.Event(r, looked, upstream, stored));
        && C.Contents(cache.order) == s'
        && (m == null <==> reply.msg.None?)
        && (m != null ==> m.View() == reply.msg.value && fresh(m.Objects()))
        && live.history == old(live.history) + [Observation(cfg, r, reply)]
        && live.staleTotal == old(live.staleTotal) + (if reply.stale then 1 else 0)
        && pool.asked == old(pool.asked) + (if reply.asked then [UpstreamQuery(r)] else [])
    {
      hide P.Handle, C.Contents, M.DomainTable, M.ClientTable, M.Recent, M.Tally;
      var blocked, cached;
      ghost var reply := P.Handle(cfg, C.Contents(cache.order), P.Event(r, looked, upstream, stored)).1;
      P.ReplyCases(cfg, C.Contents(cache.order), P.Event(r, looked, upstream, stored));
      m, blocked, cached := Handle(r, looked, upstream, stored);
      if m == null {
        blocked, cached := false, false;
      }
      var name, kind := "", "";
      if |r.question| > 0 {
        name := TrimDot(Lower(r.question[0].name));
        kind := cache.typeName(r.question[0].qtype);
      }
      ghost var order := cache.order;
      assert M.Query("local", 0, name, kind, blocked, cached) == Observation(cfg, r, reply);
      label Handled:
      live.Observe(M.Query("local", 0, name, kind, blocked, cached));
      C.ContentsKept@Handled(order);
      if m != null {
        C.MsgKept@Handled(m);
      }
    }

    /** At every moment the per-domain counts add up to the totals, and blocked and cached
        queries together never exceed them. */
    lemma TotalsAddUp()
      requires Valid()
      ensures M.Sum(live.byDomain) == M.Count(live.queriesTotal, live.blockedTotal)
      ensures live.blockedTotal + live.cachedTotal <= live.queriesTotal
    {
      M.Conservation(live.history);
      M.BlockedPlusCached(live.history);
    }
  }
}
