/** The request pipeline (block, cache, upstream, uncloak, clamp, store) as a function
    of the cache contents, and what every run of requests guarantees. */
module Pipeline {
  import opened Lru
  import opened Prelude
  import opened Names
  import opened Message
  import opened Ttl

  type Cache = seq<Entry<MsgView>>

  /** `typeName` prints a query type; `check` is the filter's verdict on a name. */
  datatype Config = Config(
    size: nat, staleFor: int, minTtl: int, maxTtl: int, failTtl: int,
    block4: nat, block6: nat, typeName: nat -> string, check: Name -> bool)

  /** One request, the time of the cache lookup, what the upstream pool returns if it is
      asked, and the time of the store. */
  datatype Event = Event(r: Request, looked: int, upstream: Option<MsgView>, stored: int)

  /** The reply with the two flags of `handle`, whether the upstream was asked, and
      whether a stale message was served. */
  datatype Reply = Reply(msg: Option<MsgView>, blocked: bool, cached: bool, asked: bool, stale: bool)

  function QName(name: Name): Name {
    Lower(TrimDot(name))
  }

  function Key(cfg: Config, q: Question, dnssecOk: bool): string {
    CacheKey(cfg.typeName, q, dnssecOk)
  }

  function BlockReply(cfg: Config, r: Request): MsgView
    requires r.question != []
  {
    var q := r.question[0];
    if q.qtype == TYPE_A then MsgView(r.id, NOERROR, [q], [Record(q.name, 60, A(cfg.block4))], [], [])
    else if q.qtype == TYPE_AAAA then MsgView(r.id, NOERROR, [q], [Record(q.name, 60, AAAA(cfg.block6))], [], [])
    else MsgView(r.id, NXDOMAIN, [q], [], [], [])
  }

  /** The record is an alias for a name the filter blocks. */
  predicate Tracker(check: Name -> bool, rr: Record) {
    rr.data.CNAME? && QName(rr.data.target) != [] && check(QName(rr.data.target))
  }

  predicate Cloaked(check: Name -> bool, qname: Name, rs: seq<Record>) {
    exists i :: 0 <= i < |rs| && Tracker(check, rs[i]) && QName(rs[i].data.target) != qname
  }

  /** Empties a successful reply whose alias chain leads to a blocked name. */
  function Uncloak(check: Name -> bool, qname: Name, v: MsgView): MsgView {
    if v.rcode == NOERROR && Cloaked(check, qname, v.answer) then v.(answer := [], ns := [], extra := []) else v
  }

  predicate Cacheable(rcode: nat) {
    rcode == NOERROR || rcode == NXDOMAIN
  }

  /** The upstream's reply as it is sent to the client. */
  function Processed(cfg: Config, r: Request, v: MsgView): MsgView
    requires r.question != []
  {
    var u := Uncloak(cfg.check, QName(r.question[0].name), v.(id := r.id, question := r.question));
    if Cacheable(u.rcode) then Clamped(u, cfg.minTtl, cfg.maxTtl) else u
  }

  /** How long the processed reply stays authoritative. */
  function FreshFor(cfg: Config, r: Request, v: MsgView): int
    requires r.question != []
  {
    var u := Uncloak(cfg.check, QName(r.question[0].name), v.(id := r.id, question := r.question));
    if u.rcode == NXDOMAIN && cfg.failTtl > 0 then cfg.failTtl else Lifetime(u, cfg.minTtl, cfg.maxTtl)
  }

  function Resolve(cfg: Config, s: Cache, ev: Event): Cache
    requires ev.r.question != []
  {
    if ev.upstream.Some? && Cacheable(ev.upstream.value.rcode) then
      PutStep(cfg.size, cfg.staleFor, s, Key(cfg, ev.r.question[0], ev.r.dnssecOk),
              Processed(cfg, ev.r, ev.upstream.value), FreshFor(cfg, ev.r, ev.upstream.value), ev.stored)
    else s
  }

  function Handle(cfg: Config, s: Cache, ev: Event): (Cache, Reply) {
    if ev.r.question == [] then (s, Reply(None, false, false, false, false))
    else
      var q := ev.r.question[0];
      if cfg.check(QName(q.name)) then (s, Reply(Some(BlockReply(cfg, ev.r)), true, false, false, false))
      else
        var (s1, out) := GetStep(s, Key(cfg, q, ev.r.dnssecOk), ev.looked);
        if out.Fresh? then (s1, Reply(Some(out.msg.(id := ev.r.id)), false, true, false, false))
        else
          var s2 := Resolve(cfg, s1, ev);
          if ev.upstream.Some? then (s2, Reply(Some(Processed(cfg, ev.r, ev.upstream.value)), false, false, true, false))
          else if out.Stale? then (s2, Reply(Some(out.msg.(id := ev.r.id)), false, true, true, true))
          else (s2, Reply(None, false, false, true, false))
  }

  function Run(cfg: Config, s: Cache, evs: seq<Event>): Cache
    decreases evs
  {
    if evs == [] then s else Run(cfg, Handle(cfg, s, evs[0]).0, evs[1..])
  }

  function Replies(cfg: Config, s: Cache, evs: seq<Event>): (r: seq<Reply>)
    ensures |r| == |evs|
    decreases evs
  {
    if evs == [] then []
    else
      var (s', reply) := Handle(cfg, s, evs[0]);
      [reply] + Replies(cfg, s', evs[1..])
  }

  // ----- one request -----

  /** Which replies a request can get: none exactly when there is no question, or the
      upstream failed and nothing usable was cached; a stale one only when the upstream
      was asked in the same call and failed; and a blocked name reaches neither the
      cache nor the upstream. */
  lemma ReplyCases(cfg: Config, s: Cache, ev: Event)
    ensures var (s', reply) := Handle(cfg, s, ev);
      && !(reply.blocked && reply.cached)
      && (reply.msg.Some? ==> reply.msg.value.id == ev.r.id)
      && (ev.r.question == [] ==> reply.msg.None?)
      && (ev.r.question != [] && cfg.check(QName(ev.r.question[0].name)) ==>
            && reply.blocked && s' == s && !reply.asked
            && reply.msg == Some(BlockReply(cfg, ev.r)))
      && (reply.blocked ==> ev.r.question != [] && cfg.check(QName(ev.r.question[0].name)))
      && (reply.stale ==> reply.asked && ev.upstream.None? && reply.cached)
      && (reply.asked && ev.upstream.Some? ==> !reply.cached && reply.msg.Some?)
      && (ev.r.question != [] && reply.msg.None? ==>
            && reply.asked && ev.upstream.None?
            && GetStep(s, Key(cfg, ev.r.question[0], ev.r.dnssecOk), ev.looked).1.Miss?)
  {
  }

  // ----- run invariants -----

  /** No alias in a successful message leads to a blocked name. */
  predicate CleanMsg(check: Name -> bool, v: MsgView) {
    v.rcode == NOERROR ==> forall i :: 0 <= i < |v.answer| ==> !Tracker(check, v.answer[i])
  }

  predicate CleanCache(check: Name -> bool, s: Cache) {
    forall e :: e in s ==> CleanMsg(check, e.msg)
  }

  lemma ProcessedClean(cfg: Config, r: Request, v: MsgView)
    requires r.question != [] && !cfg.check(QName(r.question[0].name))
    ensures CleanMsg(cfg.check, Processed(cfg, r, v))
  {
    var qname := QName(r.question[0].name);
    var u := Uncloak(cfg.check, qname, v.(id := r.id, question := r.question));
    forall i | 0 <= i < |u.answer| && u.rcode == NOERROR ensures !Tracker(cfg.check, u.answer[i]) {
    }
  }

  /** What a step may put into the cache: old entries, and the processed reply under the
      request's key when the name is not blocked. */
  lemma HandleEntries(cfg: Config, s: Cache, ev: Event, e: Entry<MsgView>)
    requires e in Handle(cfg, s, ev).0
    ensures e in s || (ev.r.question != [] && !cfg.check(QName(ev.r.question[0].name))
      && ev.upstream.Some? && Cacheable(ev.upstream.value.rcode)
      && e.key == Key(cfg, ev.r.question[0], ev.r.dnssecOk) && e.msg == Processed(cfg, ev.r, ev.upstream.value))
  {
    hide Processed, FreshFor, Key;
    if ev.r.question != [] && !cfg.check(QName(ev.r.question[0].name)) {
      var key := Key(cfg, ev.r.question[0], ev.r.dnssecOk);
      var s1 := GetStep(s, key, ev.looked).0;
      assert forall x :: x in s1 ==> x in s;
      assert forall x :: x in Room(cfg.size, s1, key) ==> x in s1;
    }
  }

  /** Where a reply's message comes from. */
  lemma ReplySource(cfg: Config, s: Cache, ev: Event)
    ensures var reply := Handle(cfg, s, ev).1;
      reply.msg.Some? && !reply.blocked ==>
        && ev.r.question != [] && !cfg.check(QName(ev.r.question[0].name))
        && if reply.cached
           then exists e :: e in s && e.key == Key(cfg, ev.r.question[0], ev.r.dnssecOk) && reply.msg.value == e.msg.(id := ev.r.id)
           else ev.upstream.Some? && reply.msg.value == Processed(cfg, ev.r, ev.upstream.value)
  {
    hide Processed, FreshFor, Key;
    if ev.r.question != [] {
      var f := Find(s, Key(cfg, ev.r.question[0], ev.r.dnssecOk));
      if f.Some? {
        assert f.value in s;
      }
    }
  }

  lemma CleanStep(cfg: Config, s: Cache, ev: Event)
    requires CleanCache(cfg.check, s)
    ensures var (s', reply) := Handle(cfg, s, ev);
      && CleanCache(cfg.check, s')
      && (reply.msg.Some? && !reply.blocked ==> CleanMsg(cfg.check, reply.msg.value))
  {
    hide Handle;
    var (s', reply) := Handle(cfg, s, ev);
    forall e | e in s' ensures CleanMsg(cfg.check, e.msg) {
      HandleEntries(cfg, s, ev, e);
      if e !in s {
        ProcessedClean(cfg, ev.r, ev.upstream.value);
      }
    }
    ReplySource(cfg, s, ev);
    if reply.msg.Some? && !reply.blocked && !reply.cached {
      ProcessedClean(cfg, ev.r, ev.upstream.value);
    }
  }

  /** While the filter does not change, no successful reply other than a block response,
      fresh, stale or just resolved, aliases a blocked name: in every run of requests. */
  lemma {:induction false} RunClean(cfg: Config, s: Cache, evs: seq<Event>)
    requires CleanCache(cfg.check, s)
    ensures CleanCache(cfg.check, Run(cfg, s, evs))
    ensures forall i :: 0 <= i < |evs| ==> var reply := Replies(cfg, s, evs)[i];
      reply.msg.Some? && !reply.blocked ==> CleanMsg(cfg.check, reply.msg.value)
    decreases evs
  {
    hide Handle;
    if evs != [] {
      CleanStep(cfg, s, evs[0]);
      RunClean(cfg, Handle(cfg, s, evs[0]).0, evs[1..]);
    }
  }

  // ----- the question a reply answers -----

  /** Type names are distinct and contain no separator. */
  ghost predicate GoodTypeNames(f: nat -> string) {
    && (forall a, b :: f(a) == f(b) ==> a == b)
    && (forall a :: '|' !in f(a))
  }

  /** Two questions share a cache key exactly when they agree on the name up to case, the type
      and the DNSSEC flag; the class plays no part. */
  lemma KeyInjective(cfg: Config, p: Question, q: Question, d: bool, e: bool)
    requires GoodTypeNames(cfg.typeName)
    ensures Key(cfg, p, d) == Key(cfg, q, e) <==> SameName(p.name, q.name) && p.qtype == q.qtype && d == e
  {
    LowerIsCase(p.name, q.name);
    var a, b := Lower(p.name), Lower(q.name);
    var t, u := cfg.typeName(p.qtype), cfg.typeName(q.qtype);
    if Key(cfg, p, d) == Key(cfg, q, e) {
      var x, y := if d then "|1" else "|0", if e then "|1" else "|0";
      assert Key(cfg, p, d)[|Key(cfg, p, d)| - 1] == x[1] && Key(cfg, q, e)[|Key(cfg, q, e)| - 1] == y[1];
      assert x == y;
      assert Key(cfg, p, d)[..|Key(cfg, p, d)| - 2] == a + "|" + t;
      assert Key(cfg, q, e)[..|Key(cfg, q, e)| - 2] == b + "|" + u;
      LastSeparator(a, t, b, u);
    }
  }

  lemma LastSeparator(a: string, t: string, b: string, u: string)
    requires a + "|" + t == b + "|" + u && '|' !in t && '|' !in u
    ensures a == b && t == u
  {
    var s := a + "|" + t;
    assert s[|a|] == '|' && s[|b|] == '|';
    assert forall i :: |a| < i < |s| ==> s[i] == t[i - |a| - 1];
    assert forall i :: |b| < i < |s| ==> s[i] == u[i - |b| - 1];
    assert |a| == |b|;
    assert a == s[..|a|] && t == s[|a| + 1..] && b == s[..|b|] && u == s[|b| + 1..];
  }

  /** The message answers a question of this name (up to case) and type. */
  predicate Answers(v: MsgView, q: Question) {
    v.question != [] && SameName(v.question[0].name, q.name) && v.question[0].qtype == q.qtype
  }

  /** Every entry is filed under the key of the question its message answers. */
  ghost predicate FiledRight(cfg: Config, s: Cache) {
    forall e :: e in s ==> e.msg.question != [] && exists d :: e.key == Key(cfg, e.msg.question[0], d)
  }

  lemma FiledStep(cfg: Config, s: Cache, ev: Event)
    requires GoodTypeNames(cfg.typeName) && FiledRight(cfg, s)
    ensures var (s', reply) := Handle(cfg, s, ev);
      && FiledRight(cfg, s')
      && (reply.msg.Some? ==> ev.r.question != [] && Answers(reply.msg.value, ev.r.question[0]))
  {
    hide Handle, Key;
    var (s', reply) := Handle(cfg, s, ev);
    forall e | e in s' ensures e.msg.question != [] && exists d :: e.key == Key(cfg, e.msg.question[0], d) {
      HandleEntries(cfg, s, ev, e);
    }
    ReplySource(cfg, s, ev);
    ReplyCases(cfg, s, ev);
    if reply.msg.Some? && reply.cached {
      var q := ev.r.question[0];
      var e :| e in s && e.key == Key(cfg, q, ev.r.dnssecOk) && reply.msg.value == e.msg.(id := ev.r.id);
      var d :| e.key == Key(cfg, e.msg.question[0], d);
      KeyInjective(cfg, e.msg.question[0], q, d, ev.r.dnssecOk);
    }
  }

  /** In every run each reply carries the request's ID and answers a question of the same
      name (up to case) and type. */
  lemma {:induction false} RunAnswers(cfg: Config, s: Cache, evs: seq<Event>)
    requires GoodTypeNames(cfg.typeName) && FiledRight(cfg, s)
    ensures forall i :: 0 <= i < |evs| ==> var reply := Replies(cfg, s, evs)[i];
      reply.msg.Some? ==>
        reply.msg.value.id == evs[i].r.id && evs[i].r.question != [] && Answers(reply.msg.value, evs[i].r.question[0])
    decreases evs
  {
    hide Handle;
    if evs != [] {
      FiledStep(cfg, s, evs[0]);
      ReplyCases(cfg, s, evs[0]);
      RunAnswers(cfg, Handle(cfg, s, evs[0]).0, evs[1..]);
    }
  }

  // ----- TTLs of cached messages -----

  /** Clamping the cached messages again would change nothing. */
  predicate Settled(cfg: Config, s: Cache) {
    forall e :: e in s ==> Clamped(e.msg, cfg.minTtl, cfg.maxTtl) == e.msg
  }

  /** In every run of well-formed upstream replies, every cached message, and so every
      reply served from the cache, carries clamped TTLs. */
  lemma {:induction false} RunSettled(cfg: Config, s: Cache, evs: seq<Event>)
    requires Settled(cfg, s)
    requires forall ev :: ev in evs && ev.upstream.Some? ==> WireTtls(ev.upstream.value)
    ensures Settled(cfg, Run(cfg, s, evs))
    decreases evs
  {
    hide Handle, Clamped;
    if evs != [] {
      var ev := evs[0];
      var s' := Handle(cfg, s, ev).0;
      forall e | e in s' ensures Clamped(e.msg, cfg.minTtl, cfg.maxTtl) == e.msg {
        HandleEntries(cfg, s, ev, e);
        if e !in s {
          ProcessedSettled(cfg, ev.r, ev.upstream.value);
        }
      }
      RunSettled(cfg, s', evs[1..]);
    }
  }

  lemma ProcessedSettled(cfg: Config, r: Request, v: MsgView)
    requires r.question != [] && WireTtls(v) && Cacheable(v.rcode)
    ensures Clamped(Processed(cfg, r, v), cfg.minTtl, cfg.maxTtl) == Processed(cfg, r, v)
  {
    hide Clamped;
    ClampTwice(Uncloak(cfg.check, QName(r.question[0].name), v.(id := r.id, question := r.question)), cfg.minTtl, cfg.maxTtl);
  }
}
