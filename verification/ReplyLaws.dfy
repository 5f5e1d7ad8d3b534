/** What a client gets and what is stored, in terms of the request, the upstream's message and
    the filter's verdicts only. */
module ReplyLaws {
  import opened Lru
  import opened Message
  import opened Names
  import opened Prelude
  import opened Ttl
  import P = Pipeline

  // ----- the name that is checked -----

  /** A name without its last dot. */
  predicate Undotted(n: Name, t: Name) {
    if n != [] && n[|n| - 1] == '.' then n == t + ['.'] else n == t
  }

  /** The name the filter is asked about is the queried one without its last dot, up to case,
      and has no capitals. */
  lemma CheckedName(n: Name, t: Name)
    requires Undotted(n, t)
    ensures SameName(P.QName(n), t) && forall c :: c in P.QName(n) ==> !('A' <= c <= 'Z')
  {
    assert TrimDot(n) == t;
    LowerIsCase(t, t);
  }

  // ----- block replies -----

  /** A blocked name: an address query gets the configured address for a minute, any other
      query NXDOMAIN, and both only the question besides. */
  lemma BlockedReply(cfg: P.Config, s: P.Cache, ev: P.Event)
    requires ev.r.question != [] && cfg.check(P.QName(ev.r.question[0].name))
    ensures var reply, q := P.Handle(cfg, s, ev).1, ev.r.question[0];
      && reply.msg.Some? && reply.blocked && var m := reply.msg.value;
      && m.id == ev.r.id && m.question == [q] && m.ns == [] && m.extra == []
      && (q.qtype == 1 || q.qtype == 28 ==> m.rcode == 0 && |m.answer| == 1 && m.answer[0].name == q.name && m.answer[0].ttl == 60)
      && (q.qtype == 1 ==> m.answer[0].data == A(cfg.block4))
      && (q.qtype == 28 ==> m.answer[0].data == AAAA(cfg.block6))
      && (q.qtype != 1 && q.qtype != 28 ==> m.rcode == 3 && m.answer == [])
  {
  }

  // ----- resolved replies -----

  /** The same records in the same order, up to their TTLs. */
  predicate SameRecords(a: seq<Record>, b: seq<Record>) {
    |a| == |b| && forall i :: 0 <= i < |a| ==> a[i].name == b[i].name && a[i].data == b[i].data
  }

  /** The upstream's message is successful and has an alias for a blocked name. */
  ghost predicate LeadsToBlocked(check: Name -> bool, v: MsgView) {
    && v.rcode == 0
    && exists i :: 0 <= i < |v.answer| && BlockedAlias(check, v.answer[i])
  }

  predicate BlockedAlias(check: Name -> bool, rr: Record) {
    rr.data.CNAME? && P.QName(rr.data.target) != [] && check(P.QName(rr.data.target))
  }

  /** The request is answered by the upstream. */
  predicate AnsweredUpstream(cfg: P.Config, s: P.Cache, ev: P.Event) {
    P.Handle(cfg, s, ev).1.asked && ev.upstream.Some?
  }

  /** The upstream is asked exactly for names that are not blocked and have no cached reply
      that is still fresh. */
  lemma AskedIff(cfg: P.Config, s: P.Cache, ev: P.Event)
    requires Distinct(s)
    ensures P.Handle(cfg, s, ev).1.asked <==>
      && ev.r.question != [] && !cfg.check(P.QName(ev.r.question[0].name))
      && !exists e :: e in s && e.key == P.Key(cfg, ev.r.question[0], ev.r.dnssecOk) && ev.looked < e.valid
  {
    hide P.Resolve, P.Processed, P.Key, P.QName;
    if ev.r.question != [] {
      if e :| e in s && e.key == P.Key(cfg, ev.r.question[0], ev.r.dnssecOk) && ev.looked < e.valid {
        FindUnique(s, e);
      }
    }
  }

  /** A message from upstream is passed on with all its records, unless an alias in it leads to
      a blocked name: then it is emptied, and only then.  Either way the reply has the
      client's ID and question and the upstream's code. */
  lemma PassedOn(cfg: P.Config, s: P.Cache, ev: P.Event)
    requires AnsweredUpstream(cfg, s, ev)
    ensures var reply, v := P.Handle(cfg, s, ev).1, ev.upstream.value;
      && reply.msg.Some? && !reply.blocked && !reply.cached && var m := reply.msg.value;
      && m.id == ev.r.id && m.question == ev.r.question && m.rcode == v.rcode
      && (LeadsToBlocked(cfg.check, v) ==> m.answer == [] && m.ns == [] && m.extra == [])
      && (!LeadsToBlocked(cfg.check, v) ==>
            SameRecords(m.answer, v.answer) && SameRecords(m.ns, v.ns) && SameRecords(m.extra, v.extra))
      && (v.rcode != 0 && v.rcode != 3 ==> m.answer == v.answer && m.ns == v.ns && m.extra == v.extra)
  {
    hide P.FreshFor, GetStep, PutStep, P.Key, P.QName;
    var v, qname := ev.upstream.value, P.QName(ev.r.question[0].name);
    UncloakIs(cfg.check, qname, v.(id := ev.r.id, question := ev.r.question));
    assert LeadsToBlocked(cfg.check, v.(id := ev.r.id, question := ev.r.question)) <==> LeadsToBlocked(cfg.check, v);
  }

  lemma UncloakIs(check: Name -> bool, qname: Name, v: MsgView)
    requires !check(qname)
    ensures P.Uncloak(check, qname, v) == if LeadsToBlocked(check, v) then v.(answer := [], ns := [], extra := []) else v
  {
    hide P.QName;
    if LeadsToBlocked(check, v) {
      var i :| 0 <= i < |v.answer| && BlockedAlias(check, v.answer[i]);
      assert P.Tracker(check, v.answer[i]);
    }
  }

  // ----- what is stored -----

  /** A message with exactly these records lives this long. */
  ghost predicate Lives(cfg: P.Config, answer: seq<Record>, ns: seq<Record>, life: int) {
    exists base :: LivesOn(answer, ns, base) && Within(base, cfg.minTtl, cfg.maxTtl, life)
  }

  /** Replies with code 0 or 3 are stored, in front and under the request's key, and no others;
      a stored reply is the one sent, and lives as long as the records of the upstream's message
      say, or of an empty one when it was emptied, or as long as is set for NXDOMAIN. */
  lemma StoredAs(cfg: P.Config, s: P.Cache, ev: P.Event)
    requires AnsweredUpstream(cfg, s, ev)
    ensures var (s', reply), v := P.Handle(cfg, s, ev), ev.upstream.value;
      if v.rcode == 0 || v.rcode == 3 then
        && s' != [] && Some(s'[0].msg) == reply.msg && s'[0].key == P.Key(cfg, ev.r.question[0], ev.r.dnssecOk)
        && s'[0].stale == s'[0].valid + cfg.staleFor
        && var life := s'[0].valid - ev.stored;
        if v.rcode == 3 && cfg.failTtl > 0 then life == cfg.failTtl
        else if LeadsToBlocked(cfg.check, v) then Lives(cfg, [], [], life)
        else Lives(cfg, v.answer, v.ns, life)
      else forall e :: e in s' ==> e in s
  {
    hide GetStep, P.Key, P.QName, P.Processed;
    var v, qname := ev.upstream.value, P.QName(ev.r.question[0].name);
    var w := v.(id := ev.r.id, question := ev.r.question);
    UncloakIs(cfg.check, qname, w);
    assert LeadsToBlocked(cfg.check, w) <==> LeadsToBlocked(cfg.check, v);
    LifetimeIs(P.Uncloak(cfg.check, qname, w), cfg.minTtl, cfg.maxTtl);
    LookupKeeps(s, P.Key(cfg, ev.r.question[0], ev.r.dnssecOk), ev.looked);
  }

  lemma LookupKeeps(s: P.Cache, key: string, now: int)
    ensures forall e :: e in GetStep(s, key, now).0 ==> e in s
  {
  }
}
