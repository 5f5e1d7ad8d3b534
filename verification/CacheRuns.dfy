/** What every run of the reply cache guarantees: LRU inclusion between two sizes,
    retention of recently used keys, and agreement with an unbounded memo. */
module CacheRuns {
  import opened Lru
  import opened Prelude

  // ----- LRU inclusion -----

  /** `a` is `b` with some entries left out. */
  predicate Subsequence<M(==)>(a: seq<Entry<M>>, b: seq<Entry<M>>)
    decreases b
  {
    if a == [] then true
    else if b == [] then false
    else if a[0] == b[0] then Subsequence(a[1..], b[1..])
    else Subsequence(a, b[1..])
  }

  /** The small recency order is a subsequence of the large one, entries and all,
      and the small cache has no more free slots than the large one. */
  predicate Included<M(==)>(m: nat, small: seq<Entry<M>>, n: nat, large: seq<Entry<M>>) {
    && 0 < m <= n && |small| <= m && |large| <= n
    && Distinct(small) && Distinct(large)
    && Subsequence(small, large)
    && m - |small| <= n - |large|
  }

  lemma {:induction false} SubsequenceMembers<M>(a: seq<Entry<M>>, b: seq<Entry<M>>)
    requires Subsequence(a, b)
    ensures |a| <= |b|
    ensures forall e :: e in a ==> e in b
    decreases b
  {
    if a != [] {
      var a' := if a[0] == b[0] then a[1..] else a;
      SubsequenceMembers(a', b[1..]);
      forall e | e in a ensures e in b {
        assert e == a[0] || e in a[1..];
      }
    }
  }

  /** Leaving out more entries on the left keeps a subsequence. */
  lemma {:induction false} SubsequenceTail<M>(a: seq<Entry<M>>, b: seq<Entry<M>>)
    requires a != [] && Subsequence(a, b)
    ensures Subsequence(a[1..], b)
    decreases b
  {
    if a[0] == b[0] {
      if a[1..] != [] {
        if a[1..][0] == b[0] {
          SubsequenceTail(a[1..], b[1..]);
        }
      }
    } else {
      SubsequenceTail(a, b[1..]);
      if a[1..] != [] && a[1..][0] == b[0] {
        SubsequenceTail(a[1..], b[1..]);
      }
    }
  }

  lemma {:induction false} SubsequenceCons<M>(x: Entry<M>, a: seq<Entry<M>>, b: seq<Entry<M>>)
    requires Subsequence(a, b)
    ensures Subsequence([x] + a, [x] + b)
    ensures Subsequence(a, [x] + b)
  {
    assert ([x] + b)[1..] == b && ([x] + a)[1..] == a;
    if a != [] && a[0] == x {
      SubsequenceTail(a, b);
    }
  }

  lemma {:induction false} SubsequenceWithout<M>(a: seq<Entry<M>>, b: seq<Entry<M>>, key: string)
    requires Subsequence(a, b)
    ensures Subsequence(Without(a, key), Without(b, key))
    decreases b
  {
    if a != [] {
      var a' := if a[0] == b[0] then a[1..] else a;
      SubsequenceWithout(a', b[1..], key);
      if b[0].key != key {
        SubsequenceCons(b[0], Without(a', key), Without(b[1..], key));
      }
    }
  }

  lemma DropLastCons<M>(s: seq<Entry<M>>)
    requires |s| > 1
    ensures DropLast(s) == [s[0]] + DropLast(s[1..])
  {
  }

  lemma {:induction false} SubsequenceDropLast<M>(a: seq<Entry<M>>, b: seq<Entry<M>>)
    requires Subsequence(a, b)
    ensures Subsequence(DropLast(a), DropLast(b))
    ensures Subsequence(DropLast(a), b)
    decreases b
  {
    if |a| > 0 {
      var a' := if a[0] == b[0] then a[1..] else a;
      SubsequenceMembers(a', b[1..]);
      SubsequenceDropLast(a', b[1..]);
      if |a'| > 0 {
        DropLastCons(b);
        assert b == [b[0]] + b[1..];
        SubsequenceCons(b[0], DropLast(a'), DropLast(b[1..]));
        SubsequenceCons(b[0], DropLast(a'), b[1..]);
        if a[0] == b[0] {
          DropLastCons(a);
        }
      }
    }
  }

  /** Where both caches hold the key, they hold the same entry. */
  lemma {:induction false} SameEntry<M>(small: seq<Entry<M>>, large: seq<Entry<M>>, key: string)
    requires Distinct(large) && Subsequence(small, large)
    ensures Find(small, key).Some? ==> Find(large, key) == Find(small, key)
  {
    if Find(small, key).Some? {
      SubsequenceMembers(small, large);
      FindUnique(large, Find(small, key).value);
    }
  }

  lemma {:induction false} SubsequenceGet<M>(small: seq<Entry<M>>, large: seq<Entry<M>>, key: string, now: int)
    requires Distinct(large) && Subsequence(small, large)
    ensures Subsequence(GetStep(small, key, now).0, GetStep(large, key, now).0)
  {
    SameEntry(small, large, key);
    if Find(large, key).Some? {
      SubsequenceWithout(small, large, key);
      SubsequenceCons(Find(large, key).value, Without(small, key), Without(large, key));
      if Find(small, key).None? {
        WithoutAbsent(small, key);
      }
    }
  }

  /** What a get does to the length of the list. */
  lemma {:induction false} GetLength<M>(s: seq<Entry<M>>, key: string, now: int)
    requires Distinct(s)
    ensures |GetStep(s, key, now).0| ==
      if Find(s, key).Some? && GetStep(s, key, now).1.Miss? then |s| - 1 else |s|
  {
    WithoutDistinct(s, key);
  }

  lemma {:induction false} IncludedGet<M>(m: nat, small: seq<Entry<M>>, n: nat, large: seq<Entry<M>>, key: string, now: int)
    requires Included(m, small, n, large)
    ensures Included(m, GetStep(small, key, now).0, n, GetStep(large, key, now).0)
    ensures GetStep(small, key, now).1.Hit() ==> GetStep(large, key, now).1 == GetStep(small, key, now).1
  {
    SameEntry(small, large, key);
    SubsequenceGet(small, large, key, now);
    GetLength(small, key, now);
    GetLength(large, key, now);
    StepBounded(m, 0, small, Get(key, now));
    StepBounded(n, 0, large, Get(key, now));
  }

  lemma {:induction false} SubsequencePut<M>(
    m: nat, small: seq<Entry<M>>, n: nat, large: seq<Entry<M>>, staleFor: int, key: string, msg: M, ttl: int, now: int)
    requires Included(m, small, n, large)
    ensures Subsequence(PutStep(m, staleFor, small, key, msg, ttl, now), PutStep(n, staleFor, large, key, msg, ttl, now))
    ensures m - |PutStep(m, staleFor, small, key, msg, ttl, now)| <= n - |PutStep(n, staleFor, large, key, msg, ttl, now)|
  {
    SameEntry(small, large, key);
    SubsequenceWithout(small, large, key);
    WithoutDistinct(small, key);
    WithoutDistinct(large, key);
    var a, b := Without(small, key), Without(large, key);
    // A full large cache leaves the small one no free slot, so both evict.
    assert |b| >= n ==> |a| >= m;
    SubsequenceDropLast(a, b);
    SubsequenceCons(Entry(key, msg, now + ttl, now + ttl + staleFor), Room(m, small, key), Room(n, large, key));
  }

  lemma {:induction false} IncludedPut<M>(
    m: nat, small: seq<Entry<M>>, n: nat, large: seq<Entry<M>>, staleFor: int, key: string, msg: M, ttl: int, now: int)
    requires Included(m, small, n, large)
    ensures Included(m, PutStep(m, staleFor, small, key, msg, ttl, now),
                     n, PutStep(n, staleFor, large, key, msg, ttl, now))
  {
    SubsequencePut(m, small, n, large, staleFor, key, msg, ttl, now);
    StepBounded(m, staleFor, small, Put(key, msg, ttl, now));
    StepBounded(n, staleFor, large, Put(key, msg, ttl, now));
  }

  /** Every hit of the small cache is the same hit of the large one, in every run
      of the same calls at the same times, although a get may reorder only the large one. */
  lemma {:induction false} Inclusion<M>(
    m: nat, small: seq<Entry<M>>, n: nat, large: seq<Entry<M>>, staleFor: int, ops: seq<Op<M>>)
    requires Included(m, small, n, large)
    ensures Included(m, Run(m, staleFor, small, ops), n, Run(n, staleFor, large, ops))
    ensures forall i :: 0 <= i < |ops| && Results(m, staleFor, small, ops)[i].Hit()
              ==> Results(n, staleFor, large, ops)[i] == Results(m, staleFor, small, ops)[i]
    decreases ops
  {
    if ops != [] {
      match ops[0] {
        case Get(key, now) => IncludedGet(m, small, n, large, key, now);
        case Put(key, msg, ttl, now) => IncludedPut(m, small, n, large, staleFor, key, msg, ttl, now);
      }
      Inclusion(m, Step(m, staleFor, small, ops[0]).0, n, Step(n, staleFor, large, ops[0]).0, staleFor, ops[1..]);
    }
  }

  // ----- agreement with an unbounded memo -----

  /** The record of the last put of every key: no size, no recency, no expiry. */
  function Memo<M>(staleFor: int, memo: map<string, Entry<M>>, ops: seq<Op<M>>): map<string, Entry<M>>
    decreases ops
  {
    if ops == [] then memo
    else match ops[0]
      case Get(_, _) => Memo(staleFor, memo, ops[1..])
      case Put(key, msg, ttl, now) =>
        Memo(staleFor, memo[key := Entry(key, msg, now + ttl, now + ttl + staleFor)], ops[1..])
  }

  predicate Agrees<M(==)>(s: seq<Entry<M>>, memo: map<string, Entry<M>>) {
    forall e :: e in s ==> e.key in memo && memo[e.key] == e
  }

  /** In every run the keys stay distinct and at most `size` in number. */
  lemma {:induction false} RunBounded<M>(size: nat, staleFor: int, s: seq<Entry<M>>, ops: seq<Op<M>>)
    requires size > 0 && Distinct(s) && |s| <= size
    ensures Distinct(Run(size, staleFor, s, ops)) && |Run(size, staleFor, s, ops)| <= size
    decreases ops
  {
    if ops != [] {
      StepBounded(size, staleFor, s, ops[0]);
      RunBounded(size, staleFor, Step(size, staleFor, s, ops[0]).0, ops[1..]);
    }
  }

  /** In every run the cache holds for each key exactly what the last put of it stored. */
  lemma {:induction false} RunAgrees<M>(
    size: nat, staleFor: int, s: seq<Entry<M>>, memo: map<string, Entry<M>>, ops: seq<Op<M>>)
    requires Agrees(s, memo)
    ensures Agrees(Run(size, staleFor, s, ops), Memo(staleFor, memo, ops))
    decreases ops
  {
    if ops != [] {
      var s' := Step(size, staleFor, s, ops[0]).0;
      match ops[0] {
        case Get(key, now) =>
          RunAgrees(size, staleFor, s', memo, ops[1..]);
        case Put(key, msg, ttl, now) =>
          RunAgrees(size, staleFor, s', memo[key := Entry(key, msg, now + ttl, now + ttl + staleFor)], ops[1..]);
      }
    }
  }

  /** A get in any reachable state returns the message of the last put of its key,
      fresh exactly before the fresh deadline and never at or after the stale one;
      a get that misses either finds no entry or finds one past its stale deadline. */
  lemma {:induction false} GetReturnsLastPut<M>(size: nat, staleFor: int, ops: seq<Op<M>>, key: string, now: int)
    requires size > 0
    ensures var out := GetStep(Run(size, staleFor, [], ops), key, now).1;
      var memo := Memo(staleFor, map[], ops);
      && (out.Hit() ==> key in memo && out.msg == memo[key].msg && (out.Fresh? <==> now < memo[key].valid)
                        && (out.Stale? ==> memo[key].valid <= now < memo[key].stale))
      && (out.Miss? <==> (forall e :: e in Run(size, staleFor, [], ops) && e.key == key ==> e.valid <= now && e.stale <= now))
  {
    RunAgrees(size, staleFor, [], map[], ops);
    RunBounded(size, staleFor, [], ops);
    var s := Run(size, staleFor, [], ops);
    if e :| e in s && e.key == key {
      FindUnique(s, e);
    }
  }

  lemma {:induction false} RunConcat<M>(size: nat, staleFor: int, s: seq<Entry<M>>, a: seq<Op<M>>, b: seq<Op<M>>)
    ensures Run(size, staleFor, s, a + b) == Run(size, staleFor, Run(size, staleFor, s, a), b)
    decreases a
  {
    if a == [] {
      assert a + b == b;
    } else {
      assert (a + b)[1..] == a[1..] + b;
      RunConcat(size, staleFor, Step(size, staleFor, s, a[0]).0, a[1..], b);
    }
  }

  // ----- retention -----

  /** The keys other than `key` that a run puts or hits. */
  function Touched<M>(size: nat, staleFor: int, s: seq<Entry<M>>, ops: seq<Op<M>>, key: string): set<string>
    decreases ops
  {
    if ops == [] then {}
    else
      var (s', out) := Step(size, staleFor, s, ops[0]);
      (if out.Miss? || ops[0].key == key then {} else {ops[0].key}) + Touched(size, staleFor, s', ops[1..], key)
  }

  /** Nothing in the run replaces the entry, and no get of its key comes past its stale deadline. */
  predicate LeavesAlone<M(==)>(ops: seq<Op<M>>, e: Entry<M>) {
    forall op :: op in ops && op.key == e.key ==> op.Get? && (op.now < e.valid || op.now < e.stale)
  }

  /** `e` is resident and every key ahead of it in the recency order is in `ahead`. */
  predicate Behind<M(==)>(s: seq<Entry<M>>, e: Entry<M>, ahead: set<string>) {
    exists i :: 0 <= i < |s| && s[i] == e && forall j :: 0 <= j < i ==> s[j].key in ahead
  }

  function KeySet<M>(s: seq<Entry<M>>): (r: set<string>) {
    if s == [] then {} else {s[0].key} + KeySet(s[1..])
  }

  lemma {:induction false} KeySetSize<M>(s: seq<Entry<M>>)
    requires Distinct(s)
    ensures |KeySet(s)| == |s|
    ensures forall k :: k in KeySet(s) <==> exists i :: 0 <= i < |s| && s[i].key == k
  {
    if s != [] {
      KeySetSize(s[1..]);
      assert forall i :: 0 <= i < |s[1..]| ==> s[1..][i].key == s[i + 1].key;
      assert s[0].key !in KeySet(s[1..]);
      forall k | k in KeySet(s) ensures exists i :: 0 <= i < |s| && s[i].key == k {
        if k != s[0].key {
          var i :| 0 <= i < |s[1..]| && s[1..][i].key == k;
          assert s[i + 1].key == k;
        }
      }
      forall i | 0 <= i < |s| ensures s[i].key in KeySet(s) {
        if i > 0 {
          assert s[1..][i - 1].key == s[i].key;
        }
      }
    }
  }

  lemma {:induction false} BehindWithout<M>(s: seq<Entry<M>>, e: Entry<M>, ahead: set<string>, key: string)
    requires Behind(s, e, ahead) && key != e.key
    ensures Behind(Without(s, key), e, ahead - {key})
  {
    var i :| 0 <= i < |s| && s[i] == e && forall j :: 0 <= j < i ==> s[j].key in ahead;
    if i == 0 {
      assert Without(s, key)[0] == e;
    } else {
      assert s[1..][i - 1] == e;
      assert forall j :: 0 <= j < i - 1 ==> s[1..][j].key in ahead;
      BehindWithout(s[1..], e, ahead, key);
      if s[0].key != key {
        BehindCons(Without(s[1..], key), e, ahead - {key}, s[0]);
        assert ahead - {key} + {s[0].key} == ahead - {key};
      }
    }
  }

  lemma {:induction false} BehindCons<M>(s: seq<Entry<M>>, e: Entry<M>, ahead: set<string>, x: Entry<M>)
    requires Behind(s, e, ahead)
    ensures Behind([x] + s, e, ahead + {x.key})
  {
    var i :| 0 <= i < |s| && s[i] == e && forall j :: 0 <= j < i ==> s[j].key in ahead;
    assert ([x] + s)[i + 1] == e;
    assert forall j :: 0 <= j < i + 1 ==> ([x] + s)[j].key in ahead + {x.key};
  }

  lemma BehindMore<M>(s: seq<Entry<M>>, e: Entry<M>, a: set<string>, b: set<string>)
    requires Behind(s, e, a) && a <= b
    ensures Behind(s, e, b)
  {
  }

  lemma {:induction false} TouchedKeys<M>(size: nat, staleFor: int, s: seq<Entry<M>>, ops: seq<Op<M>>, key: string)
    ensures forall k :: k in Touched(size, staleFor, s, ops, key) ==> k != key && exists op :: op in ops && op.key == k
    decreases ops
  {
    if ops != [] {
      TouchedKeys(size, staleFor, Step(size, staleFor, s, ops[0]).0, ops[1..], key);
      assert ops[0] in ops;
      assert forall op :: op in ops[1..] ==> op in ops;
    }
  }

  /** An entry with too few keys ahead of it is not the one an eviction takes. */
  lemma {:induction false} BehindRoom<M>(size: nat, s: seq<Entry<M>>, e: Entry<M>, ahead: set<string>, key: string)
    requires Distinct(s) && |s| <= size && Behind(s, e, ahead) && key != e.key
    requires |ahead + {key}| < size
    ensures Behind(Room(size, s, key), e, ahead)
  {
    BehindWithout(s, e, ahead, key);
    WithoutDistinct(s, key);
    var r := Without(s, key);
    var i :| 0 <= i < |r| && r[i] == e && forall j :: 0 <= j < i ==> r[j].key in ahead - {key};
    if |r| >= size {
      if i == |r| - 1 {
        KeySetSize(r[..i]);
        assert KeySet(r[..i]) <= ahead - {key};
        SubsetSize(KeySet(r[..i]), ahead - {key});
        AddNew(ahead, key);
        assert false;
      }
      assert DropLast(r)[i] == e;
      assert forall j :: 0 <= j < i ==> DropLast(r)[j].key in ahead;
    }
  }

  lemma AddNew(ahead: set<string>, key: string)
    ensures |ahead + {key}| == |ahead - {key}| + 1
  {
    assert ahead + {key} == (ahead - {key}) + {key};
  }

  /** A key that was put or hit stays retrievable while fewer than `size` distinct
      other keys are put or hit: `ahead` holds those touched so far. */
  lemma {:induction false} Retained<M>(
    size: nat, staleFor: int, s: seq<Entry<M>>, e: Entry<M>, ahead: set<string>, ops: seq<Op<M>>)
    requires size > 0 && Distinct(s) && |s| <= size && Behind(s, e, ahead)
    requires LeavesAlone(ops, e)
    requires e.key !in ahead && |ahead + Touched(size, staleFor, s, ops, e.key)| < size
    ensures e in Run(size, staleFor, s, ops)
    ensures Behind(Run(size, staleFor, s, ops), e, ahead + Touched(size, staleFor, s, ops, e.key))
    decreases ops
  {
    if ops != [] {
      var op := ops[0];
      var (s', out) := Step(size, staleFor, s, op);
      StepBounded(size, staleFor, s, op);
      var rest := Touched(size, staleFor, s', ops[1..], e.key);
      var all := ahead + Touched(size, staleFor, s, ops, e.key);
      if op.key == e.key {
        FindUnique(s, e);
        assert s'[0] == e;
        SubsetSize({} + rest, all);
        Retained(size, staleFor, s', e, {}, ops[1..]);
        BehindMore(Run(size, staleFor, s', ops[1..]), e, {} + rest, all);
      } else if out.Miss? {
        if Find(s, op.key).Some? {
          BehindWithout(s, e, ahead, op.key);
        }
        assert Behind(s', e, ahead);
        SubsetSize(ahead + rest, all);
        Retained(size, staleFor, s', e, ahead, ops[1..]);
      } else {
        if op.Get? {
          BehindWithout(s, e, ahead, op.key);
          BehindCons(Without(s, op.key), e, ahead - {op.key}, s'[0]);
        } else {
          SubsetSize(ahead + {op.key}, all);
          BehindRoom(size, s, e, ahead, op.key);
          BehindCons(Room(size, s, op.key), e, ahead, s'[0]);
        }
        assert (ahead - {op.key}) + {op.key} == ahead + {op.key};
        assert ahead + {op.key} + rest == all;
        Retained(size, staleFor, s', e, ahead + {op.key}, ops[1..]);
      }
    }
  }

  /** Retention over whole runs: after any run `before` and a call that puts or hits
      `key`, the entry it leaves in front survives any further run that touches fewer than
      `size` other keys, and a get of it before its stale deadline returns its message. */
  lemma {:induction false} Retention<M>(
    size: nat, staleFor: int, before: seq<Op<M>>, touch: Op<M>, after: seq<Op<M>>, now: int)
    requires size > 0
    requires !Step(size, staleFor, Run(size, staleFor, [], before), touch).1.Miss?
    requires var s := Step(size, staleFor, Run(size, staleFor, [], before), touch).0;
      s != [] && LeavesAlone(after, s[0]) && |Touched(size, staleFor, s, after, s[0].key)| < size
      && (now < s[0].valid || now < s[0].stale)
    ensures var s := Step(size, staleFor, Run(size, staleFor, [], before), touch).0;
      s[0].key == touch.key &&
      GetStep(Run(size, staleFor, s, after), touch.key, now).1 ==
        if now < s[0].valid then Fresh(s[0].msg) else Stale(s[0].msg)
  {
    RunBounded(size, staleFor, [], before);
    var s0 := Run(size, staleFor, [], before);
    var s := Step(size, staleFor, s0, touch).0;
    StepBounded(size, staleFor, s0, touch);
    var e := s[0];
    assert Behind(s, e, {});
    assert {} + Touched(size, staleFor, s, after, e.key) == Touched(size, staleFor, s, after, e.key);
    Retained(size, staleFor, s, e, {}, after);
    RunBounded(size, staleFor, s, after);
    FindUnique(Run(size, staleFor, s, after), e);
  }
}
