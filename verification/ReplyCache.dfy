/** The reply cache as an object: a map from keys to elements and a recency list, whose
    messages are shared with nobody that changes them. */
module ReplyCache {
  import opened Lru
  import opened Prelude
  import opened Names
  import opened Message
  import P = Pipeline

  /** The messages of a recency list and their records. */
  ghost function Objects(s: seq<Entry<Msg>>): set<object>
    reads set e | e in s :: e.msg
  {
    set e, x | e in s && x in e.msg.Objects() :: x
  }

  ghost function Content(e: Entry<Msg>): Entry<MsgView>
    reads e.msg, e.msg.answer, e.msg.ns, e.msg.extra
  {
    Entry(e.key, e.msg.View(), e.valid, e.stale)
  }

  /** The list with each message replaced by its contents. */
  ghost function Contents(s: seq<Entry<Msg>>): (r: P.Cache)
    reads set e | e in s :: e.msg
    reads Objects(s)
    ensures |r| == |s|
  {
    if s == [] then [] else
      assert s[0] in s && forall e :: e in s[1..] ==> e in s;
      assert forall x: object :: x in s[0].msg.Objects() ==> x in Objects(s);
      assert forall x: object :: x in Objects(s[1..]) ==> x in Objects(s);
      [Content(s[0])] + Contents(s[1..])
  }

  lemma {:induction false} ContentsAt(s: seq<Entry<Msg>>)
    ensures forall i :: 0 <= i < |s| ==> Contents(s)[i] == Content(s[i])
  {
    if s != [] {
      ContentsAt(s[1..]);
    }
  }

  twostate lemma ViewsKept(rrs: seq<RR>)
    requires forall x :: x in rrs ==> unchanged(x)
    ensures Views(rrs) == old(Views(rrs))
  {
    forall i | 0 <= i < |rrs| ensures rrs[i].View() == old(rrs[i].View()) {
      assert rrs[i] in rrs;
    }
  }

  twostate lemma MsgKept(m: Msg)
    requires forall x :: x in old(m.Objects()) ==> unchanged(x)
    ensures m.View() == old(m.View())
  {
    assert m in old(m.Objects());
    assert m.answer == old(m.answer) && m.ns == old(m.ns) && m.extra == old(m.extra);
    forall x: RR | x in m.answer || x in m.ns || x in m.extra ensures unchanged(x) {
      assert x in old(m.answer + m.ns + m.extra);
      var o: object := x;
      assert o in old(m.Objects());
    }
    ViewsKept(m.answer);
    ViewsKept(m.ns);
    ViewsKept(m.extra);
  }

  twostate lemma ObjectsKept(s: seq<Entry<Msg>>)
    requires forall x :: x in old(Objects(s)) ==> unchanged(x)
    ensures Objects(s) == old(Objects(s))
  {
    forall e | e in s ensures unchanged(e.msg) {
      var o: object := e.msg;
      assert o in old(e.msg.Objects());
      assert o in old(Objects(s));
    }
  }

  /** Contents change only when a message in the list does. */
  twostate lemma {:induction false} ContentsKept(s: seq<Entry<Msg>>)
    requires forall x :: x in old(Objects(s)) ==> unchanged(x)
    ensures Contents(s) == old(Contents(s))
    ensures Objects(s) == old(Objects(s))
  {
    ObjectsKept(s);
    if s != [] {
      assert s[0] in s && forall e :: e in s[1..] ==> e in s;
      assert forall x :: x in old(s[0].msg.Objects()) ==> x in old(Objects(s));
      assert forall x :: x in old(Objects(s[1..])) ==> x in old(Objects(s));
      MsgKept(s[0].msg);
      ContentsKept(s[1..]);
    }
  }

  // ----- the list operations look only at keys and deadlines -----

  lemma {:induction false} ContentsFind(s: seq<Entry<Msg>>, key: string)
    ensures Find(Contents(s), key) == match Find(s, key) case None => None case Some(e) => Some(Content(e))
  {
    if s != [] {
      ContentsFind(s[1..], key);
    }
  }

  lemma {:induction false} ContentsWithout(s: seq<Entry<Msg>>, key: string)
    ensures Contents(Without(s, key)) == Without(Contents(s), key)
  {
    if s != [] {
      ContentsWithout(s[1..], key);
      if s[0].key != key {
        var r := Without(s, key);
        assert r[1..] == Without(s[1..], key);
      }
    }
  }

  lemma {:induction false} ContentsDropLast(s: seq<Entry<Msg>>)
    ensures Contents(DropLast(s)) == DropLast(Contents(s))
  {
    ContentsAt(s);
    ContentsAt(DropLast(s));
  }

  lemma ContentsCons(e: Entry<Msg>, s: seq<Entry<Msg>>)
    ensures Contents([e] + s) == [Content(e)] + Contents(s)
  {
    assert ([e] + s)[1..] == s;
  }

  lemma ContentsGet(s: seq<Entry<Msg>>, key: string, now: int)
    ensures var (t, out), (t', out') := GetStep(s, key, now), GetStep(Contents(s), key, now);
      && t' == Contents(t)
      && (out.Fresh? <==> out'.Fresh?) && (out.Stale? <==> out'.Stale?) && (out.Miss? <==> out'.Miss?)
      && (out.Hit() ==> out'.msg == out.msg.View())
  {
    hide Contents, Without, Find;
    ContentsFind(s, key);
    ContentsWithout(s, key);
    match Find(s, key)
    case None =>
    case Some(e) => ContentsCons(e, Without(s, key));
  }

  lemma ContentsPut(size: nat, staleFor: int, s: seq<Entry<Msg>>, key: string, m: Msg, ttl: int, now: int)
    ensures Contents(PutStep(size, staleFor, s, key, m, ttl, now)) ==
      PutStep(size, staleFor, Contents(s), key, m.View(), ttl, now)
  {
    hide Contents, Without;
    ContentsWithout(s, key);
    ContentsDropLast(Without(s, key));
    ContentsCons(Entry(key, m, now + ttl, now + ttl + staleFor), Room(size, s, key));
  }

  // ----- the map and the list -----

  /** The map and the recency list hold the same elements, each key once. */
  ghost predicate Agree(items: map<string, Entry<Msg>>, order: seq<Entry<Msg>>) {
    && Distinct(order)
    && (forall e :: e in order ==> e.key in items && items[e.key] == e)
    && (forall k :: k in items ==> items[k] in order && items[k].key == k)
  }

  lemma AgreeWithout(items: map<string, Entry<Msg>>, order: seq<Entry<Msg>>, key: string)
    requires Agree(items, order)
    ensures Agree(items - {key}, Without(order, key))
    ensures Find(order, key).Some? <==> key in items
    ensures key in items ==> Find(order, key) == Some(items[key])
    ensures |Without(order, key)| == if key in items then |order| - 1 else |order|
  {
    WithoutDistinct(order, key);
    if key in items {
      FindUnique(order, items[key]);
    }
  }

  lemma AgreeDropLast(items: map<string, Entry<Msg>>, order: seq<Entry<Msg>>)
    requires Agree(items, order) && order != []
    ensures Agree(items - {order[|order| - 1].key}, order[..|order| - 1])
  {
    var r := order[..|order| - 1];
    forall k | k in items && k != order[|order| - 1].key ensures items[k] in r {
      var i :| 0 <= i < |order| && order[i] == items[k];
      assert r[i] == items[k];
    }
  }

  lemma AgreeCons(items: map<string, Entry<Msg>>, order: seq<Entry<Msg>>, e: Entry<Msg>)
    requires Agree(items, order) && e.key !in items
    ensures Agree(items[e.key := e], [e] + order)
  {
    DistinctCons(e, order);
  }

  class ReplyCache {
    const size: nat
    const staleFor: int
    const typeName: nat -> string
    var items: map<string, Entry<Msg>>
    var order: seq<Entry<Msg>>  // most recently used first
    var hits: nat
    var misses: nat
    var stales: nat

    /** The map and the recency list hold the same elements, each key once. */
    ghost predicate Valid()
      reads this
    {
      size > 0 && |order| <= size && Agree(items, order)
    }

    constructor (size: nat, staleFor: int, typeName: nat -> string)
      ensures Valid() && order == [] && this.staleFor == staleFor && this.typeName == typeName
      ensures this.size == if size < 1024 then 1024 else size
      ensures hits == misses == stales == 0
    {
      this.size := if size < 1024 then 1024 else size;
      this.staleFor, this.typeName := staleFor, typeName;
      items, order := map[], [];
      hits, misses, stales := 0, 0, 0;
    }

    /** Looks a question up; a hit gives a new message, not fresh once the first deadline is over.
        Each call counts as exactly one hit, stale hit or miss. */
    method Get(q: Question, dnssecOk: bool, now: int) returns (m: Msg?, isFresh: bool, ok: bool)
      requires Valid()
      modifies this`items, this`order, this`hits, this`misses, this`stales
      ensures Valid() && order == GetStep(old(order), CacheKey(typeName, q, dnssecOk), now).0
      ensures var out := GetStep(old(order), CacheKey(typeName, q, dnssecOk), now).1;
        && ok == out.Hit() && isFresh == out.Fresh? && (m != null <==> ok)
        && (ok ==> fresh(m.Objects()) && m.View() == out.msg.View())
        && hits == old(hits) + (if out.Fresh? then 1 else 0)
        && stales == old(stales) + (if out.Stale? then 1 else 0)
        && misses == old(misses) + (if out.Miss? then 1 else 0)
    {
      hide Agree, Distinct, Without, Find;
      var key := CacheKey(typeName, q, dnssecOk);
      AgreeWithout(items, order, key);
      if key !in items {
        misses := misses + 1;
        return null, false, false;
      }
      var e := items[key];
      // Move to front.
      var rest := Without(order, key);
      AgreeCons(items - {key}, rest, e);
      assert (items - {key})[key := e] == items;
      order := [e] + rest;
      if now < e.valid {
        hits := hits + 1;
        m := e.msg.Copy();
        return m, true, true;
      }
      if now < e.stale {
        stales := stales + 1;
        m := e.msg.Copy();
        return m, false, true;
      }
      order := rest;
      items := items - {key};
      misses := misses + 1;
      return null, false, false;
    }

    /** Stores a message, which stays authoritative for `ttl`. */
    method Put(q: Question, dnssecOk: bool, m: Msg, ttl: int, now: int)
      requires Valid()
      modifies this`items, this`order
      ensures Valid() && order == PutStep(size, staleFor, old(order), CacheKey(typeName, q, dnssecOk), m, ttl, now)
    {
      hide Agree, Distinct, Without, Find;
      var key := CacheKey(typeName, q, dnssecOk);
      AgreeWithout(items, order, key);
      if key in items {
        order := Without(order, key);
        items := items - {key};
      } else {
        WithoutAbsent(order, key);
        assert items - {key} == items;
      }
      if |order| >= size {
        AgreeDropLast(items, order);
        var oldest := order[|order| - 1];
        items := items - {oldest.key};
        order := order[..|order| - 1];
      }
      var el := Entry(key, m, now + ttl, now + ttl + staleFor);
      AgreeCons(items, order, el);
      order := [el] + order;
      items := items[key := el];
    }
  }
}
