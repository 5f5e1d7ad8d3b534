/** The reply cache as a value: the recency order, front first, of entries that
    carry two deadlines.  The class in ReplyCache.dfy is proved against these
    functions; CacheRuns.dfy proves what whole runs of them guarantee. */
module Lru {
  import opened Prelude

  datatype Entry<+M> = Entry(key: string, msg: M, valid: int, stale: int)

  /** What one call reports: a miss, a hit (authoritative or stale), or a store. */
  datatype Outcome<+M> = Miss | Fresh(msg: M) | Stale(msg: M) | Stored {
    predicate Hit() {
      Fresh? || Stale?
    }
  }

  datatype Op<+M> = Get(key: string, now: int) | Put(key: string, msg: M, ttl: int, now: int)

  predicate Distinct<M>(s: seq<Entry<M>>) {
    forall i, j :: 0 <= i < j < |s| ==> s[i].key != s[j].key
  }

  function Find<M>(s: seq<Entry<M>>, key: string): (r: Option<Entry<M>>)
    ensures r.Some? ==> r.value in s && r.value.key == key
    ensures r.None? <==> forall e :: e in s ==> e.key != key
  {
    if s == [] then None
    else if s[0].key == key then Some(s[0])
    else Find(s[1..], key)
  }

  /** The entries whose key is not `key`, in their old order. */
  function Without<M>(s: seq<Entry<M>>, key: string): (r: seq<Entry<M>>)
    ensures |r| <= |s|
    ensures forall e :: e in r ==> e in s && e.key != key
    ensures forall e :: e in s && e.key != key ==> e in r
  {
    if s == [] then []
    else if s[0].key == key then Without(s[1..], key)
    else [s[0]] + Without(s[1..], key)
  }

  function DropLast<M>(s: seq<Entry<M>>): seq<Entry<M>> {
    if s == [] then [] else s[..|s| - 1]
  }

  function GetStep<M>(s: seq<Entry<M>>, key: string, now: int): (seq<Entry<M>>, Outcome<M>) {
    match Find(s, key)
    case None => (s, Miss)
    case Some(e) =>
      if now < e.valid then ([e] + Without(s, key), Fresh(e.msg))
      else if now < e.stale then ([e] + Without(s, key), Stale(e.msg))
      else (Without(s, key), Miss)
  }

  /** The list that a put pushes onto: the key is dropped first, then the oldest
      entry if the list is still full. */
  function Room<M>(size: nat, s: seq<Entry<M>>, key: string): seq<Entry<M>> {
    var rest := Without(s, key);
    if |rest| >= size then DropLast(rest) else rest
  }

  function PutStep<M>(size: nat, staleFor: int, s: seq<Entry<M>>, key: string, msg: M, ttl: int, now: int)
    : seq<Entry<M>>
  {
    [Entry(key, msg, now + ttl, now + ttl + staleFor)] + Room(size, s, key)
  }

  function Step<M>(size: nat, staleFor: int, s: seq<Entry<M>>, op: Op<M>): (seq<Entry<M>>, Outcome<M>) {
    match op
    case Get(key, now) => GetStep(s, key, now)
    case Put(key, msg, ttl, now) => (PutStep(size, staleFor, s, key, msg, ttl, now), Stored)
  }

  /** The state after a run. */
  function Run<M>(size: nat, staleFor: int, s: seq<Entry<M>>, ops: seq<Op<M>>): seq<Entry<M>>
    decreases ops
  {
    if ops == [] then s else Run(size, staleFor, Step(size, staleFor, s, ops[0]).0, ops[1..])
  }

  /** What each call of a run reports. */
  function Results<M>(size: nat, staleFor: int, s: seq<Entry<M>>, ops: seq<Op<M>>): (r: seq<Outcome<M>>)
    ensures |r| == |ops|
    decreases ops
  {
    if ops == [] then [] else
      var (s', out) := Step(size, staleFor, s, ops[0]);
      [out] + Results(size, staleFor, s', ops[1..])
  }

  // ----- basic facts about the list operations -----

  lemma {:induction false} WithoutAbsent<M>(s: seq<Entry<M>>, key: string)
    requires forall e :: e in s ==> e.key != key
    ensures Without(s, key) == s
  {
    if s != [] {
      assert s == [s[0]] + s[1..];
      WithoutAbsent(s[1..], key);
    }
  }

  lemma DistinctCons<M>(e: Entry<M>, s: seq<Entry<M>>)
    requires Distinct(s) && forall x :: x in s ==> x.key != e.key
    ensures Distinct([e] + s)
  {
    forall i, j | 0 <= i < j < |[e] + s| ensures ([e] + s)[i].key != ([e] + s)[j].key {
      assert ([e] + s)[j] == s[j - 1];
    }
  }

  lemma {:induction false} WithoutDistinct<M>(s: seq<Entry<M>>, key: string)
    requires Distinct(s)
    ensures Distinct(Without(s, key))
    ensures |Without(s, key)| == if Find(s, key).Some? then |s| - 1 else |s|
  {
    if s != [] {
      WithoutDistinct(s[1..], key);
      if s[0].key == key {
        WithoutAbsent(s[1..], key);
      } else {
        DistinctCons(s[0], Without(s[1..], key));
      }
    }
  }

  lemma FindUnique<M>(s: seq<Entry<M>>, e: Entry<M>)
    requires Distinct(s) && e in s
    ensures Find(s, e.key) == Some(e)
  {
    var f := Find(s, e.key).value;
    var i :| 0 <= i < |s| && s[i] == e;
    var j :| 0 <= j < |s| && s[j] == f;
  }

  /** Every step keeps the keys distinct and the list within its size. */
  lemma StepBounded<M>(size: nat, staleFor: int, s: seq<Entry<M>>, op: Op<M>)
    requires size > 0 && Distinct(s) && |s| <= size
    ensures var t := Step(size, staleFor, s, op).0; Distinct(t) && |t| <= size
  {
    WithoutDistinct(s, op.key);
    match op
    case Get(key, now) =>
      if Find(s, key).Some? {
        DistinctCons(Find(s, key).value, Without(s, key));
      }
    case Put(key, msg, ttl, now) =>
      DistinctCons(Entry(key, msg, now + ttl, now + ttl + staleFor), Room(size, s, key));
  }
}
