/** The upstream pool: ordering the candidates, failing over, and probing.  Calls run one
    at a time here; Upstreams.dfy has the interleavings of a single upstream. */
module Pool {
  import opened Upstreams

  class Upstream {
    const weight: int
    var healthy: bool
    var browser: bool
    var inflight: int
    var latency: nat
    var fails: int

    ghost function View(): Counters
      reads `healthy, `inflight, `latency, `fails
    {
      Counters(healthy, inflight, fails, latency)
    }

    constructor (weight: int)
      ensures View() == FRESH && this.weight == weight && !browser
    {
      this.weight := weight;
      healthy, browser, inflight, latency, fails := true, false, 0, 0, 0;
    }

    /** Asks the upstream; `net` is what the network makes of it. */
    method Exchange(net: NetResult) returns (ok: bool)
      modifies `healthy, `inflight, `latency, `fails
      ensures ok <==> net.Reply?
      ensures View() == Exchanged(old(View()), net)
    {
      inflight := inflight + 1;
      if net.Failure? {
        fails := fails + 1;
        if fails >= 2 {
          healthy := false;
        }
        inflight := inflight - 1;
        return false;
      }
      fails := 0;
      healthy := true;
      var us := net.sample;
      var prev := latency;
      if prev == 0 {
        latency := us;
      } else {
        latency := (prev * 3 + us) / 4;
      }
      inflight := inflight - 1;
      return true;
    }

    /** Whether the upstream is tried before `v`: fewer in flight, then a better latency,
        then a larger weight. */
    method Less(v: Upstream) returns (less: bool)
      ensures less == Before(View(), weight, v.View(), v.weight)
    {
      if inflight != v.inflight {
        return inflight < v.inflight;
      }
      if latency != v.latency {
        return latency < v.latency;
      }
      return weight > v.weight;
    }
  }

  predicate Before(c: Counters, w: int, d: Counters, v: int) {
    c.inflight < d.inflight
    || (c.inflight == d.inflight && (c.latency < d.latency || (c.latency == d.latency && w > v)))
  }

  /** The counters of all upstreams at one moment. */
  type Snapshot = map<Upstream, Counters>

  predicate Known(snap: Snapshot, us: seq<Upstream>) {
    forall u :: u in us ==> u in snap
  }

  predicate Sorted(snap: Snapshot, us: seq<Upstream>)
    requires Known(snap, us)
  {
    forall i, j :: 0 <= i < j < |us| ==> !Before(snap[us[j]], us[j].weight, snap[us[i]], us[i].weight)
  }

  predicate NoRepeats(us: seq<Upstream>) {
    forall i, j :: 0 <= i < j < |us| ==> us[i] != us[j]
  }

  /** Fewest in flight first; then the lowest latency; then the largest weight. */
  predicate NoLater(c: Counters, w: int, d: Counters, v: int) {
    && c.inflight <= d.inflight
    && (c.inflight == d.inflight ==> c.latency <= d.latency)
    && (c.inflight == d.inflight && c.latency == d.latency ==> w >= v)
  }

  ghost predicate FastestFirst(us: seq<Upstream>)
    reads us
  {
    forall i, j :: 0 <= i < j < |us| ==>
      && us[i].inflight <= us[j].inflight
      && (us[i].inflight == us[j].inflight ==> us[i].latency <= us[j].latency)
      && (us[i].inflight == us[j].inflight && us[i].latency == us[j].latency ==> us[i].weight >= us[j].weight)
  }

  lemma BeforeMeans(c: Counters, w: int, d: Counters, v: int)
    ensures !Before(d, v, c, w) <==> NoLater(c, w, d, v)
  {
  }

  /** The candidates for a query: the healthy upstreams in order or, when none is healthy,
      all of them as configured. */
  predicate Candidates(all: seq<Upstream>, snap: Snapshot, out: seq<Upstream>)
    requires Known(snap, all)
  {
    && NoRepeats(out)
    && Known(snap, out)
    && (if exists u :: u in all && snap[u].healthy
        then
          && (forall u :: u in out ==> u in all && snap[u].healthy)
          && (forall u :: u in all && snap[u].healthy ==> u in out)
          && Sorted(snap, out)
        else out == all)
  }

  datatype Answer = From(u: Upstream) | Browser(u: Upstream) | AllFailed

  function Tries(cs: seq<Upstream>): nat {
    if |cs| < 3 then |cs| else 3
  }

  /** The network has an outcome for each of these. */
  predicate Answers(us: seq<Upstream>, net: map<Upstream, NetResult>) {
    forall u :: u in us ==> u in net
  }

  predicate AllFail(cs: seq<Upstream>, n: int, net: map<Upstream, NetResult>)
    requires Answers(cs, net)
  {
    forall j :: 0 <= j < n && j < |cs| ==> net[cs[j]].Failure?
  }

  /** What a query gives after trying the first `k` candidates: the answer of the last of
      them, all others having failed; or, when every try failed, the browser's answer. */
  predicate FailsOver(cs: seq<Upstream>, k: nat, net: map<Upstream, NetResult>, browser: bool, r: Answer)
    requires Answers(cs, net)
  {
    match r
    case From(u) => 0 < k <= Tries(cs) && u == cs[k - 1] && net[u].Reply? && AllFail(cs, k - 1, net)
    case Browser(u) => 0 < k == Tries(cs) && u == cs[k - 1] && browser && AllFail(cs, k, net)
    case AllFailed => k == Tries(cs) && !browser && AllFail(cs, k, net)
  }

  /** The counters after exchanges with `tried`, one after the other. */
  function Tried(snap: Snapshot, tried: seq<Upstream>, net: map<Upstream, NetResult>): (r: Snapshot)
    requires Known(snap, tried) && Answers(tried, net)
    ensures r.Keys == snap.Keys
  {
    if tried == [] then snap
    else
      var before, u := Tried(snap, tried[..|tried| - 1], net), tried[|tried| - 1];
      before[u := Exchanged(before[u], net[u])]
  }

  /** An answer of the browser makes the last upstream tried healthy. */
  function Revived(snap: Snapshot, r: Answer): Snapshot
    requires r.Browser? ==> r.u in snap
  {
    if r.Browser? then snap[r.u := snap[r.u].(healthy := true)] else snap
  }

  /** A probe leaves alone what is healthy and has not failed. */
  function Probed(c: Counters, net: NetResult): Counters {
    if c.healthy && c.fails == 0 then c else Exchanged(c, net)
  }

  class Pool {
    const upstreams: seq<Upstream>
    const hasBrowser: bool

    ghost predicate Valid() {
      |upstreams| > 0 && NoRepeats(upstreams)
    }

    ghost function Now(): (snap: Snapshot)
      reads upstreams
      ensures Known(snap, upstreams)
    {
      map u | u in upstreams :: u.View()
    }

    constructor (upstreams: seq<Upstream>, hasBrowser: bool)
      requires |upstreams| > 0 && NoRepeats(upstreams)
      ensures Valid() && this.upstreams == upstreams && this.hasBrowser == hasBrowser
    {
      this.upstreams, this.hasBrowser := upstreams, hasBrowser;
    }

    /** Exactly the healthy upstreams, fastest first; all of them as configured when there is
        none. */
    ghost predicate Chosen(out: seq<Upstream>)
      reads upstreams, out
    {
      if exists u :: u in upstreams && u.healthy
      then (forall u :: u in out ==> u in upstreams && u.healthy) && (forall u :: u in upstreams && u.healthy ==> u in out) && FastestFirst(out)
      else out == upstreams
    }

    /** The candidates for the next query. */
    method Select() returns (out: seq<Upstream>)
      requires Valid()
      ensures Candidates(upstreams, Now(), out) && |out| > 0
      ensures Chosen(out)
    {
      out := [];
      for i := 0 to |upstreams|
        invariant forall u :: u in out <==> u in upstreams[..i] && u.healthy
        invariant NoRepeats(out)
      {
        if upstreams[i].healthy {
          assert upstreams[i] !in upstreams[..i];
          out := out + [upstreams[i]];
        }
      }
      out := SortSlice(out, Now());
      assert |out| > 0 ==> out[0] in out;
      ghost var sorted := out;
      forall i, j | 0 <= i < j < |sorted|
        ensures NoLater(sorted[i].View(), sorted[i].weight, sorted[j].View(), sorted[j].weight)
      {
        BeforeMeans(sorted[i].View(), sorted[i].weight, sorted[j].View(), sorted[j].weight);
      }
      if |out| == 0 {
        out := upstreams;
      }
    }

    /** Asks the candidates in turn, three at most, and the browser after the last failure. */
    method Query(net: map<Upstream, NetResult>, browserOk: bool) returns (r: Answer, ghost cs: seq<Upstream>, ghost k: nat)
      requires Valid()
      requires Answers(upstreams, net)
      modifies upstreams
      ensures Candidates(upstreams, old(Now()), cs) && |cs| > 0
      ensures Answers(cs, net) && k <= |cs|
      ensures FailsOver(cs, k, net, hasBrowser && browserOk, r)
      ensures Now() == Revived(Tried(old(Now()), cs[..k], net), r)
      ensures Known(old(Now()), upstreams) && Known(old(Now()), cs[..k])
      ensures forall u: Upstream, v: Upstream :: u in cs[..k] && v in upstreams && old(Now())[v].healthy && v !in cs[..k] ==>
        NoLater(old(Now())[u], u.weight, old(Now())[v], v.weight)
    {
      hide NoLater, Exchanged, Candidates, Before, Chosen, Tried, NoRepeats, Known, Answers, FailsOver;
      ghost var snap := Now();
      var candidates := Select();
      cs := candidates;
      CandidatesListed(upstreams, snap, candidates);
      AnswersListed(upstreams, candidates, net);
      r, k := TryEach(candidates, net, browserOk);
      forall u: Upstream, v: Upstream | u in cs[..k] && v in upstreams && snap[v].healthy && v !in cs[..k]
        ensures NoLater(snap[u], u.weight, snap[v], v.weight)
      {
        NoneBetter(upstreams, snap, cs, k, u, v);
      }
    }

    /** The tries of a query. */
    method TryEach(candidates: seq<Upstream>, net: map<Upstream, NetResult>, browserOk: bool) returns (r: Answer, ghost k: nat)
      requires |candidates| > 0 && Answers(candidates, net)
      requires forall j :: 0 <= j < |candidates| ==> candidates[j] in upstreams && candidates[j] in net
      requires forall j :: 0 <= j <= |candidates| ==> Known(Now(), candidates[..j]) && Answers(candidates[..j], net)
      modifies upstreams
      ensures k <= |candidates| && Known(old(Now()), candidates[..k]) && Answers(candidates[..k], net)
      ensures FailsOver(candidates, k, net, hasBrowser && browserOk, r)
      ensures Now() == Revived(Tried(old(Now()), candidates[..k], net), r)
    {
      hide Exchanged, Tried, Known, Answers;
      ghost var snap := Now();
      r, k := AllFailed, 0;
      TriedNone(snap, candidates, net);
      var n := if |candidates| < 3 then |candidates| else 3;
      for i := 0 to n
        invariant k == i && r == AllFailed
        invariant AllFail(candidates, i, net)
        invariant Now() == Tried(snap, candidates[..i], net)
        invariant i == n ==> !(hasBrowser && browserOk)
      {
        var u := candidates[i];
        TriedSnoc(snap, candidates, i, net);
        var ok := Ask(u, net[u]);
        k := i + 1;
        if ok {
          r := From(u);
          return;
        }
        if i == n - 1 && hasBrowser {
          var served := AskBrowser(u, browserOk);
          if served {
            r := Browser(u);
            return;
          }
        }
      }
    }

    method Ask(u: Upstream, net: NetResult) returns (ok: bool)
      requires u in upstreams
      modifies u`healthy, u`inflight, u`latency, u`fails
      ensures ok <==> net.Reply?
      ensures Now() == old(Now())[u := Exchanged(old(Now())[u], net)]
    {
      ok := u.Exchange(net);
    }

    method AskBrowser(u: Upstream, browserOk: bool) returns (ok: bool)
      requires u in upstreams
      modifies u`browser, u`healthy
      ensures ok <==> browserOk
      ensures Now() == if ok then old(Now())[u := old(Now())[u].(healthy := true)] else old(Now())
    {
      u.browser := true;
      if browserOk {
        u.healthy := true;
      }
      return browserOk;
    }

    /** Probes every upstream that is unhealthy or has failed since its last success. */
    method ProbeAll(net: map<Upstream, NetResult>)
      requires Valid()
      requires Answers(upstreams, net)
      modifies upstreams
      ensures forall u :: u in upstreams ==> u.View() == Probed(old(u.View()), net[u])
      ensures forall u :: u in upstreams && old(u.healthy) && old(u.fails) == 0 ==> u.View() == old(u.View())
      ensures forall u :: u in upstreams && !(old(u.healthy) && old(u.fails) == 0) ==> u.View() == Exchanged(old(u.View()), net[u])
      ensures forall u :: u in upstreams && net[u].Reply? ==> u.healthy && u.fails == 0
    {
      for i := 0 to |upstreams|
        invariant forall j :: 0 <= j < i ==> upstreams[j].View() == Probed(old(upstreams[j].View()), net[upstreams[j]])
        invariant forall j :: i <= j < |upstreams| ==> upstreams[j].View() == old(upstreams[j].View())
      {
        var u := upstreams[i];
        if !(u.healthy && u.fails == 0) {
          var ok := u.Exchange(net[u]);
          if ok {
            u.healthy := true;
          }
        }
      }
    }
  }

  /** Since the tries of a query are different upstreams, each one's counters are those of
      one exchange, and every other upstream keeps its own. */
  lemma {:induction false} TriedOnce(snap: Snapshot, tried: seq<Upstream>, net: map<Upstream, NetResult>, u: Upstream)
    requires Known(snap, tried) && NoRepeats(tried) && Answers(tried, net) && u in snap
    ensures Tried(snap, tried, net)[u] == if u in tried then Exchanged(snap[u], net[u]) else snap[u]
  {
    if tried != [] {
      TriedOnce(snap, tried[..|tried| - 1], net, u);
      assert tried == tried[..|tried| - 1] + [tried[|tried| - 1]];
    }
  }

  /** A query fails exactly when the first three of its candidates, or all if there are fewer,
      fail and no browser answers; the browser is used exactly when they all fail, whatever
      the health of the upstreams not tried; and otherwise the first of them to reply answers. */
  lemma WhenQueriesFail(cs: seq<Upstream>, k: nat, net: map<Upstream, NetResult>, browser: bool, r: Answer)
    requires |cs| > 0 && Answers(cs, net) && FailsOver(cs, k, net, browser, r)
    ensures r.AllFailed? <==> !browser && forall j :: 0 <= j < 3 && j < |cs| ==> net[cs[j]].Failure?
    ensures r.Browser? <==> browser && forall j :: 0 <= j < 3 && j < |cs| ==> net[cs[j]].Failure?
    ensures r.From? ==> 0 < k <= 3 && r.u == cs[k - 1] && net[r.u].Reply? && forall j :: 0 <= j < k - 1 ==> net[cs[j]].Failure?
    ensures !r.From? ==> k == if |cs| < 3 then |cs| else 3
    ensures r.Browser? ==> r.u == cs[k - 1]
  {
    if r.From? {
      assert net[cs[k - 1]].Reply?;
    }
  }

  /** While some upstream is healthy only healthy ones are tried, each once, and none that
      is left out would have come before one that was tried. */
  lemma BestFirst(all: seq<Upstream>, snap: Snapshot, cs: seq<Upstream>, k: nat, u: Upstream)
    requires Known(snap, all) && Candidates(all, snap, cs) && k <= |cs| && u in cs[..k]
    ensures (exists v :: v in all && snap[v].healthy) ==> u in all && snap[u].healthy
    ensures forall v :: v in all && snap[v].healthy && v !in cs[..k] ==>
      && snap[u].inflight <= snap[v].inflight
      && (snap[u].inflight == snap[v].inflight ==> snap[u].latency <= snap[v].latency)
      && (snap[u].inflight == snap[v].inflight && snap[u].latency == snap[v].latency ==> u.weight >= v.weight)
    ensures forall i, j :: 0 <= i < j < k ==> cs[..k][i] != cs[..k][j]
  {
    var i :| 0 <= i < k && cs[i] == u;
    forall v | v in all && snap[v].healthy && v !in cs[..k] ensures NoLater(snap[u], u.weight, snap[v], v.weight) {
      var j :| 0 <= j < |cs| && cs[j] == v;
      assert j >= k;
      BeforeMeans(snap[u], u.weight, snap[v], v.weight);
    }
  }

  lemma NoneBetter(all: seq<Upstream>, snap: Snapshot, cs: seq<Upstream>, k: nat, u: Upstream, v: Upstream)
    requires Known(snap, all) && Candidates(all, snap, cs) && k <= |cs| && u in cs[..k]
    requires v in all && snap[v].healthy && v !in cs[..k]
    ensures u in snap && NoLater(snap[u], u.weight, snap[v], v.weight)
  {
    BestFirst(all, snap, cs, k, u);
  }

  /** "Only when every upstream is unhealthy" is not when the browser is used: with more than
      three upstreams, all healthy, of which three fail and the others would answer, it is. */
  lemma BrowserWhileHealthy(us: seq<Upstream>, snap: Snapshot, net: map<Upstream, NetResult>)
    requires |us| > 3 && NoRepeats(us) && Known(snap, us) && Answers(us, net)
    requires forall u :: u in us ==> snap[u] == FRESH && u.weight == 1
    requires forall j :: 0 <= j < |us| ==> (net[us[j]].Failure? <==> j < 3)
    ensures Candidates(us, snap, us) && FailsOver(us, 3, net, true, Browser(us[2]))
    ensures us[3] in us && snap[us[3]].healthy && net[us[3]].Reply?
  {
    assert us[0] in us && us[3] in us;
  }

  /** The counters after a query: each tried upstream has had one exchange, the one the browser
      answered for is healthy, and every other upstream is as before. */
  lemma QueryCounters(snap: Snapshot, tried: seq<Upstream>, net: map<Upstream, NetResult>, r: Answer, u: Upstream)
    requires Known(snap, tried) && NoRepeats(tried) && Answers(tried, net) && u in snap
    requires r.Browser? ==> r.u in tried
    ensures var c, d := snap[u], Revived(Tried(snap, tried, net), r)[u];
      && (u !in tried ==> d == c)
      && (u in tried ==> d.inflight == c.inflight)
      && (u in tried && net[u].Failure? ==>
            d.fails == c.fails + 1 && d.latency == c.latency && (d.healthy <==> r == Browser(u) || (c.healthy && c.fails + 1 < 2)))
      && (u in tried && net[u].Reply? ==> d.fails == 0 && d.healthy && d.latency == Ema(c.latency, net[u].sample))
  {
    TriedOnce(snap, tried, net, u);
  }

  lemma TriedNone(snap: Snapshot, cs: seq<Upstream>, net: map<Upstream, NetResult>)
    ensures Tried(snap, cs[..0], net) == snap
  {
  }

  lemma TriedSnoc(snap: Snapshot, cs: seq<Upstream>, i: nat, net: map<Upstream, NetResult>)
    requires Known(snap, cs) && Answers(cs, net) && i < |cs|
    ensures Tried(snap, cs[..i + 1], net) ==
      Tried(snap, cs[..i], net)[cs[i] := Exchanged(Tried(snap, cs[..i], net)[cs[i]], net[cs[i]])]
  {
    assert cs[..i + 1][..i] == cs[..i];
  }

  lemma CandidatesListed(all: seq<Upstream>, snap: Snapshot, out: seq<Upstream>)
    requires Known(snap, all) && Candidates(all, snap, out)
    ensures NoRepeats(out) && Known(snap, out)
    ensures forall j :: 0 <= j < |out| ==> out[j] in all && out[j] in snap
    ensures forall j :: 0 <= j <= |out| ==> Known(snap, out[..j])
  {
  }

  lemma AnswersListed(all: seq<Upstream>, cs: seq<Upstream>, net: map<Upstream, NetResult>)
    requires Answers(all, net) && forall j :: 0 <= j < |cs| ==> cs[j] in all
    ensures Answers(cs, net)
    ensures forall j :: 0 <= j < |cs| ==> cs[j] in net
    ensures forall j :: 0 <= j <= |cs| ==> Answers(cs[..j], net)
  {
  }

  /** The counters of `us` have not changed since the snapshot. */
  ghost predicate Current(snap: Snapshot, us: seq<Upstream>)
    reads us
  {
    forall u :: u in us ==> u in snap && u.View() == snap[u]
  }

  /** Orders a slice; ties may come out in any order. */
  method SortSlice(us: seq<Upstream>, ghost snap: Snapshot) returns (out: seq<Upstream>)
    requires NoRepeats(us) && Current(snap, us)
    ensures NoRepeats(out)
    ensures forall u :: u in out <==> u in us
    ensures Known(snap, out) && Sorted(snap, out)
  {
    hide Before, Sorted;
    out := [];
    assert Sorted(snap, []) by {
      SortedEmpty(snap);
    }
    for i := 0 to |us|
      invariant NoRepeats(out) && Known(snap, out) && Sorted(snap, out)
      invariant forall u :: u in out <==> u in us[..i]
    {
      var u := us[i];
      assert us[..i + 1] == us[..i] + [u];
      assert u !in us[..i];
      var at := 0;
      while at < |out|
        invariant 0 <= at <= |out|
        invariant forall a :: 0 <= a < at ==> !Before(snap[u], u.weight, snap[out[a]], out[a].weight)
        decreases |out| - at
      {
        assert out[at] in us[..i];
        var less := u.Less(out[at]);
        if less {
          break;
        }
        at := at + 1;
      }
      InsertSorted(snap, out, u, at);
      InsertMembers(out, u, at);
      out := out[..at] + [u] + out[at..];
    }
    assert us[..|us|] == us;
  }

  lemma SortedEmpty(snap: Snapshot)
    ensures Sorted(snap, [])
  {
  }

  lemma InsertSorted(snap: Snapshot, us: seq<Upstream>, u: Upstream, at: nat)
    requires Known(snap, us) && u in snap && Sorted(snap, us) && at <= |us|
    requires forall a :: 0 <= a < at ==> !Before(snap[u], u.weight, snap[us[a]], us[a].weight)
    requires at < |us| ==> Before(snap[u], u.weight, snap[us[at]], us[at].weight)
    ensures Known(snap, us[..at] + [u] + us[at..]) && Sorted(snap, us[..at] + [u] + us[at..])
  {
    forall b | at <= b < |us| ensures !Before(snap[us[b]], us[b].weight, snap[u], u.weight) {
      assert b == at || !Before(snap[us[b]], us[b].weight, snap[us[at]], us[at].weight);
    }
  }

  lemma InsertMembers(us: seq<Upstream>, u: Upstream, at: nat)
    requires NoRepeats(us) && u !in us && at <= |us|
    ensures NoRepeats(us[..at] + [u] + us[at..])
    ensures forall v: Upstream :: v in us[..at] + [u] + us[at..] <==> v in us + [u]
  {
    assert us == us[..at] + us[at..];
  }
}
