/** Live counters, per-domain and per-client aggregates, and the window of recent queries. */
module Metrics {

  datatype Query = Query(client: string, clientId: int, qname: string, qtype: string, blocked: bool, cached: bool)

  datatype Count = Count(queries: nat, blocked: nat)

  datatype TopEntry = TopEntry(domain: string, queries: nat, blocked: nat)

  datatype Snapshot = Snapshot(
    queries: nat, blocked: nat, cached: nat, stale: nat, top: seq<TopEntry>, clients: map<int, Count>, recent: seq<Query>)

  const WINDOW: nat := 200
  const DROP: nat := 100

  // ----- the aggregates as functions of the whole history -----

  /** A kind of query to count. */
  datatype Kind = Blocked | Cached | Domain(d: string) | BlockedDomain(d: string) | Client(id: int) | BlockedClient(id: int) {
    predicate Has(q: Query) {
      match this
      case Blocked => q.blocked
      case Cached => q.cached
      case Domain(d) => q.qname == d
      case BlockedDomain(d) => q.qname == d && q.blocked
      case Client(id) => q.clientId == id
      case BlockedClient(id) => q.clientId == id && q.blocked
    }
  }

  function Tally(h: seq<Query>, k: Kind): nat {
    if h == [] then 0 else Tally(h[..|h| - 1], k) + if k.Has(h[|h| - 1]) then 1 else 0
  }

  function DomainTable(h: seq<Query>): map<string, Count> {
    map d | d in (set q | q in h :: q.qname) :: Count(Tally(h, Domain(d)), Tally(h, BlockedDomain(d)))
  }

  function ClientTable(h: seq<Query>): map<int, Count> {
    map c | c in (set q | q in h && q.clientId > 0 :: q.clientId) :: Count(Tally(h, Client(c)), Tally(h, BlockedClient(c)))
  }

  lemma TallySnoc(h: seq<Query>, q: Query, k: Kind)
    ensures Tally(h + [q], k) == Tally(h, k) + if k.Has(q) then 1 else 0
  {
    assert (h + [q])[..|h|] == h;
  }

  lemma {:induction false} TallyNone(h: seq<Query>, k: Kind)
    requires forall q :: q in h ==> !k.Has(q)
    ensures Tally(h, k) == 0
  {
    if h != [] {
      TallyNone(h[..|h| - 1], k);
    }
  }

  /** A count with one more query in it. */
  function Bump(c: Count, blocked: bool): Count {
    Count(c.queries + 1, c.blocked + if blocked then 1 else 0)
  }

  function Old<K>(m: map<K, Count>, k: K): Count {
    if k in m then m[k] else Count(0, 0)
  }

  lemma DomainSnoc(h: seq<Query>, q: Query)
    ensures DomainTable(h + [q]) == DomainTable(h)[q.qname := Bump(Old(DomainTable(h), q.qname), q.blocked)]
  {
    var t := DomainTable(h)[q.qname := Bump(Old(DomainTable(h), q.qname), q.blocked)];
    assert forall x :: x in h + [q] <==> x in h || x == q;
    if q.qname !in DomainTable(h) {
      TallyNone(h, Domain(q.qname));
      TallyNone(h, BlockedDomain(q.qname));
    }
    forall d | d in t ensures d in DomainTable(h + [q]) && t[d] == DomainTable(h + [q])[d] {
      TallySnoc(h, q, Domain(d));
      TallySnoc(h, q, BlockedDomain(d));
    }
  }

  lemma ClientSnoc(h: seq<Query>, q: Query)
    ensures ClientTable(h + [q]) ==
      if q.clientId > 0 then ClientTable(h)[q.clientId := Bump(Old(ClientTable(h), q.clientId), q.blocked)]
      else ClientTable(h)
  {
    var t := if q.clientId > 0 then ClientTable(h)[q.clientId := Bump(Old(ClientTable(h), q.clientId), q.blocked)]
             else ClientTable(h);
    assert forall x :: x in h + [q] <==> x in h || x == q;
    if q.clientId > 0 && q.clientId !in ClientTable(h) {
      TallyNone(h, Client(q.clientId));
      TallyNone(h, BlockedClient(q.clientId));
    }
    forall c | c in t ensures c in ClientTable(h + [q]) && t[c] == ClientTable(h + [q])[c] {
      TallySnoc(h, q, Client(c));
      TallySnoc(h, q, BlockedClient(c));
    }
  }

  // ----- the tallies as numbers of observations -----

  lemma {:induction false} TallyIsSize(h: seq<Query>, k: Kind)
    ensures Tally(h, k) == |set i | 0 <= i < |h| && k.Has(h[i])|
  {
    hide Kind.Has;
    if h != [] {
      var g, n := h[..|h| - 1], |h| - 1;
      TallyIsSize(g, k);
      var a, b := set i | 0 <= i < |g| && k.Has(g[i]), set i | 0 <= i < |h| && k.Has(h[i]);
      assert forall i :: 0 <= i < n ==> g[i] == h[i];
      if k.Has(h[n]) {
        assert b == a + {n};
      } else {
        assert b == a;
      }
    }
  }

  /** The totals count the observations with each mark. */
  lemma TotalsAre(h: seq<Query>)
    ensures Tally(h, Blocked) == |set i | 0 <= i < |h| && h[i].blocked|
    ensures Tally(h, Cached) == |set i | 0 <= i < |h| && h[i].cached|
  {
    TallyIsSize(h, Blocked);
    TallyIsSize(h, Cached);
    assert (set i | 0 <= i < |h| && Blocked.Has(h[i])) == set i | 0 <= i < |h| && h[i].blocked;
    assert (set i | 0 <= i < |h| && Cached.Has(h[i])) == set i | 0 <= i < |h| && h[i].cached;
  }

  /** The per-domain table has the observed names, each with the number of its observations
      and of the blocked ones among them. */
  lemma DomainsAre(h: seq<Query>, d: string)
    ensures d in DomainTable(h) <==> exists i :: 0 <= i < |h| && h[i].qname == d
    ensures d in DomainTable(h) ==>
      && DomainTable(h)[d].queries == |set i | 0 <= i < |h| && h[i].qname == d|
      && DomainTable(h)[d].blocked == |set i | 0 <= i < |h| && h[i].qname == d && h[i].blocked|
  {
    TallyIsSize(h, Domain(d));
    TallyIsSize(h, BlockedDomain(d));
    assert (set i | 0 <= i < |h| && Domain(d).Has(h[i])) == set i | 0 <= i < |h| && h[i].qname == d;
    assert (set i | 0 <= i < |h| && BlockedDomain(d).Has(h[i])) == set i | 0 <= i < |h| && h[i].qname == d && h[i].blocked;
  }

  /** The per-client table has the observed clients with positive numbers, counted the same way. */
  lemma ClientsAre(h: seq<Query>, c: int)
    ensures c in ClientTable(h) <==> c > 0 && exists i :: 0 <= i < |h| && h[i].clientId == c
    ensures c in ClientTable(h) ==>
      && ClientTable(h)[c].queries == |set i | 0 <= i < |h| && h[i].clientId == c|
      && ClientTable(h)[c].blocked == |set i | 0 <= i < |h| && h[i].clientId == c && h[i].blocked|
  {
    TallyIsSize(h, Client(c));
    TallyIsSize(h, BlockedClient(c));
    assert (set i | 0 <= i < |h| && Client(c).Has(h[i])) == set i | 0 <= i < |h| && h[i].clientId == c;
    assert (set i | 0 <= i < |h| && BlockedClient(c).Has(h[i])) == set i | 0 <= i < |h| && h[i].clientId == c && h[i].blocked;
  }

  /** The entries of the snapshot's table: one for each observed name, with its numbers. */
  lemma EntriesAre(h: seq<Query>, e: TopEntry)
    ensures e in Entries(DomainTable(h)) <==>
      && (exists i :: 0 <= i < |h| && h[i].qname == e.domain)
      && e.queries == |set i | 0 <= i < |h| && h[i].qname == e.domain|
      && e.blocked == |set i | 0 <= i < |h| && h[i].qname == e.domain && h[i].blocked|
  {
    hide DomainTable;
    DomainsAre(h, e.domain);
  }

  // ----- conservation -----

  ghost function Sum<K(!new)>(m: map<K, Count>): Count {
    if m == map[] then Count(0, 0)
    else
      var k :| k in m;
      var rest := Sum(m - {k});
      Count(m[k].queries + rest.queries, m[k].blocked + rest.blocked)
  }

  /** The sum may be taken in any order. */
  lemma {:induction false} SumRemove<K(!new)>(m: map<K, Count>, k: K)
    requires k in m
    ensures Sum(m) == Count(m[k].queries + Sum(m - {k}).queries, m[k].blocked + Sum(m - {k}).blocked)
  {
    var x :| x in m && Sum(m) == Count(m[x].queries + Sum(m - {x}).queries, m[x].blocked + Sum(m - {x}).blocked);
    if x != k {
      SumRemove(m - {x}, k);
      SumRemove(m - {k}, x);
      assert m - {x} - {k} == m - {k} - {x};
    }
  }

  lemma SumBump<K(!new)>(m: map<K, Count>, k: K, blocked: bool)
    ensures Sum(m[k := Bump(Old(m, k), blocked)]) == Bump(Sum(m), blocked)
  {
    var m' := m[k := Bump(Old(m, k), blocked)];
    SumRemove(m', k);
    if k in m {
      SumRemove(m, k);
      assert m' - {k} == m - {k};
    } else {
      assert m' - {k} == m;
    }
  }

  /** The per-domain counts sum to the totals, whatever was observed. */
  lemma {:induction false} Conservation(h: seq<Query>)
    ensures Sum(DomainTable(h)) == Count(|h|, Tally(h, Blocked))
  {
    if h != [] {
      var g, q := h[..|h| - 1], h[|h| - 1];
      assert h == g + [q];
      Conservation(g);
      DomainSnoc(g, q);
      SumBump(DomainTable(g), q.qname, q.blocked);
    }
  }

  /** Blocked and cached queries are disjoint when no query is marked both ways, and then
      their counts fit into the total. */
  lemma {:induction false} BlockedPlusCached(h: seq<Query>)
    requires forall q :: q in h ==> !(q.blocked && q.cached)
    ensures Tally(h, Blocked) + Tally(h, Cached) <= |h|
  {
    if h != [] {
      BlockedPlusCached(h[..|h| - 1]);
      assert h[|h| - 1] in h;
    }
  }

  // ----- the recent window -----

  /** How many of `n` observations the window still holds. */
  function WindowSize(n: nat): nat {
    if n <= WINDOW then n else WINDOW - DROP + 1 + (n - WINDOW - 1) % DROP
  }

  /** All of the first 200 queries; after that 101, and one more with each query up to 200. */
  lemma WindowIs(n: nat, cycle: nat, j: nat)
    ensures n <= 200 ==> WindowSize(n) == n
    ensures n == 201 + 100 * cycle + j && j < 100 ==> WindowSize(n) == 101 + j
  {
    if n == 201 + 100 * cycle + j && j < 100 {
      assert (n - 201) % 100 == j;
    }
  }

  /** Past 200 queries, the oldest 100 are dropped in one step. */
  lemma WindowStep(n: nat)
    ensures WindowSize(n) <= n && WindowSize(n) <= WINDOW
    ensures WindowSize(n + 1) == if WindowSize(n) == WINDOW then WINDOW - DROP + 1 else WindowSize(n) + 1
  {
    if n > WINDOW {
      var k := n - WINDOW - 1;
      if k % DROP == DROP - 1 {
        assert (k + 1) % DROP == 0;
      } else {
        assert (k + 1) % DROP == k % DROP + 1;
      }
    }
  }

  function Recent(h: seq<Query>): seq<Query> {
    WindowStep(|h|);
    h[|h| - WindowSize(|h|)..]
  }

  lemma RecentSnoc(h: seq<Query>, q: Query)
    ensures var r := Recent(h) + [q]; Recent(h + [q]) == if |r| > WINDOW then r[DROP..] else r
  {
    hide WindowSize;
    WindowStep(|h|);
    Drop(h, q, |h| - WindowSize(|h|), DROP);
  }

  lemma Drop(h: seq<Query>, q: Query, k: nat, m: nat)
    requires k <= |h|
    ensures h[k..] + [q] == (h + [q])[k..]
    ensures k + m <= |h| ==> (h[k..] + [q])[m..] == (h + [q])[k + m..]
  {
  }

  // ----- the snapshot -----

  function Entries(m: map<string, Count>): set<TopEntry> {
    set d | d in m :: TopEntry(d, m[d].queries, m[d].blocked)
  }

  predicate NonIncreasing(t: seq<TopEntry>) {
    forall i, j :: 0 <= i < j < |t| ==> t[i].queries >= t[j].queries
  }

  lemma EntriesAdd(m: map<string, Count>, d: string, c: Count)
    requires d !in m
    ensures Entries(m[d := c]) == Entries(m) + {TopEntry(d, c.queries, c.blocked)}
    ensures TopEntry(d, c.queries, c.blocked) !in Entries(m)
  {
    var m' := m[d := c];
    forall k | k in m' ensures TopEntry(k, m'[k].queries, m'[k].blocked) in Entries(m) + {TopEntry(d, c.queries, c.blocked)} {
      if k != d {
        assert TopEntry(k, m[k].queries, m[k].blocked) in Entries(m);
      }
    }
    forall k | k in m ensures TopEntry(k, m[k].queries, m[k].blocked) in Entries(m') {
      assert k in m' && m'[k] == m[k];
    }
    assert d in m';
  }

  lemma NoEntries()
    ensures Entries(map[]) == {}
  {
  }

  method SortTop(t: array<TopEntry>)
    modifies t
    ensures NonIncreasing(t[..])
    ensures multiset(t[..]) == multiset(old(t[..]))
  {
    var i := 1;
    while i < t.Length
      invariant 1 <= i
      invariant forall a, b :: 0 <= a < b < i && b < t.Length ==> t[a].queries >= t[b].queries
      invariant multiset(t[..]) == multiset(old(t[..]))
    {
      var j := i;
      while j > 0 && t[j].queries > t[j - 1].queries
        invariant 0 <= j <= i
        invariant forall a, b :: 0 <= a < b <= i && b != j ==> t[a].queries >= t[b].queries
        invariant multiset(t[..]) == multiset(old(t[..]))
      {
        t[j], t[j - 1] := t[j - 1], t[j];
        j := j - 1;
      }
      i := i + 1;
    }
  }

  /** Counts one query under a key, adding the key when it is new. */
  method CountIn<K(==)>(m: map<K, Count>, k: K, blocked: bool) returns (r: map<K, Count>)
    ensures r == m[k := Bump(Old(m, k), blocked)]
  {
    if k in m {
      var c := m[k];
      r := m[k := Count(c.queries + 1, if blocked then c.blocked + 1 else c.blocked)];
    } else {
      r := m[k := Count(1, if blocked then 1 else 0)];
    }
  }

  lemma MultisetSnoc(out: seq<TopEntry>, s: set<TopEntry>, e: TopEntry)
    requires multiset(out) == multiset(s) && e !in s
    ensures multiset(out + [e]) == multiset(s + {e})
  {
  }

  lemma EntryListed(out: seq<TopEntry>, m: map<string, Count>, d: string, c: Count)
    requires multiset(out) == multiset(Entries(m)) && d !in m
    ensures multiset(out + [TopEntry(d, c.queries, c.blocked)]) == multiset(Entries(m[d := c]))
  {
    hide Entries;
    EntriesAdd(m, d, c);
    MultisetSnoc(out, Entries(m), TopEntry(d, c.queries, c.blocked));
  }

  class Metrics {
    var byDomain: map<string, Count>
    var byClient: map<int, Count>
    var recent: seq<Query>
    var blockedTotal: nat
    var queriesTotal: nat
    var cachedTotal: nat
    var staleTotal: nat
    ghost var history: seq<Query>

    ghost predicate Valid()
      reads this
    {
      && queriesTotal == |history|
      && blockedTotal == Tally(history, Blocked)
      && cachedTotal == Tally(history, Cached)
      && byDomain == DomainTable(history)
      && byClient == ClientTable(history)
      && recent == Recent(history)
    }

    constructor ()
      ensures Valid() && history == [] && staleTotal == 0
    {
      byDomain, byClient, recent := map[], map[], [];
      blockedTotal, queriesTotal, cachedTotal, staleTotal := 0, 0, 0, 0;
      history := [];
    }

    /** Counts a query in every total and table it belongs to. */
    method Observe(q: Query)
      requires Valid()
      modifies this
      ensures Valid() && history == old(history) + [q] && staleTotal == old(staleTotal)
    {
      hide DomainTable, ClientTable, Recent, Tally, Bump, Old;
      DomainSnoc(history, q);
      ClientSnoc(history, q);
      RecentSnoc(history, q);
      TallySnoc(history, q, Blocked);
      TallySnoc(history, q, Cached);
      history := history + [q];
      queriesTotal := queriesTotal + 1;
      if q.blocked {
        blockedTotal := blockedTotal + 1;
      }
      if q.cached {
        cachedTotal := cachedTotal + 1;
      }
      byDomain := CountIn(byDomain, q.qname, q.blocked);
      if q.clientId > 0 {
        byClient := CountIn(byClient, q.clientId, q.blocked);
      }
      recent := recent + [q];
      if |recent| > WINDOW {
        recent := recent[DROP..];
      }
    }

    method ObserveStale()
      requires Valid()
      modifies this`staleTotal
      ensures Valid() && staleTotal == old(staleTotal) + 1
    {
      staleTotal := staleTotal + 1;
    }

    /** The dashboard's view: totals, the per-domain table by descending queries, and the
        recent window, newest first. */
    method TakeSnapshot() returns (s: Snapshot)
      requires Valid()
      ensures s.queries == |history| && s.blocked == Tally(history, Blocked) && s.cached == Tally(history, Cached)
      ensures s.stale == staleTotal && s.clients == ClientTable(history)
      ensures multiset(s.top) == multiset(Entries(DomainTable(history))) && NonIncreasing(s.top)
      ensures |s.recent| == WindowSize(|history|)
      ensures forall i :: 0 <= i < |s.recent| ==> s.recent[i] == history[|history| - 1 - i]
    {
      WindowStep(|history|);
      var newest := [];
      for i := 0 to |recent|
        invariant |newest| == i && forall j :: 0 <= j < i ==> newest[j] == recent[i - 1 - j]
      {
        newest := [recent[i]] + newest;
      }
      var listed := ListDomains();
      var top := new TopEntry[|listed|](i requires 0 <= i < |listed| => listed[i]);
      assert top[..] == listed;
      SortTop(top);
      s := Snapshot(queriesTotal, blockedTotal, cachedTotal, staleTotal, top[..], byClient, newest);
    }

    /** The per-domain table in no particular order. */
    method ListDomains() returns (out: seq<TopEntry>)
      ensures multiset(out) == multiset(Entries(byDomain))
    {
      hide Entries;
      out := [];
      var todo := byDomain.Keys;
      ghost var done: map<string, Count> := map[];
      NoEntries();
      while todo != {}
        invariant done.Keys !! todo && done.Keys + todo == byDomain.Keys
        invariant forall d :: d in done ==> done[d] == byDomain[d]
        invariant multiset(out) == multiset(Entries(done))
        decreases todo
      {
        var d :| d in todo;
        var e := TopEntry(d, byDomain[d].queries, byDomain[d].blocked);
        EntryListed(out, done, d, byDomain[d]);
        out := out + [e];
        todo := todo - {d};
        done := done[d := byDomain[d]];
      }
      assert done == byDomain;
    }
  }
}
