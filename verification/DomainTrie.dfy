/** The two-level trie of domain suffixes, proved to hold exactly the rules of the
    entries that were added to it. */
module DomainTrie {
  import opened Names
  import opened Prelude
  import opened Rules

  /** A place in the trie: a TLD, a second-level domain, or a third-level label. */
  datatype Path = Top(tld: Name) | Second(sld: Name, tld: Name) | Third(sub: Name, sld: Name, tld: Name) {
    function Rule(): Rule {
      match this
      case Top(t) => [t]
      case Second(s, t) => [s, t]
      case Third(u, s, t) => [u, s, t]
    }
  }

  function PathOf(r: Rule): (p: Path)
    requires 1 <= |r| <= 3
    ensures p.Rule() == r
  {
    if |r| == 1 then Top(r[0]) else if |r| == 2 then Second(r[0], r[1]) else Third(r[0], r[1], r[2])
  }

  /** The place of a name's last `k` labels. */
  function Group(ls: Labels, k: nat): (p: Path)
    requires 1 <= k <= 3 && k <= |ls|
    ensures p.Rule() == ls[|ls| - k..]
  {
    var n := |ls|;
    if k == 1 then Top(ls[n - 1]) else if k == 2 then Second(ls[n - 2], ls[n - 1])
    else Third(ls[n - 3], ls[n - 2], ls[n - 1])
  }

  lemma GroupUnique(p: Path, ls: Labels)
    requires Suffix(p.Rule(), ls)
    ensures p == Group(ls, |p.Rule()|)
  {
    var r := p.Rule();
    assert forall i :: 0 <= i < |r| ==> r[i] == ls[|ls| - |r| + i];
  }

  /** The rules of a set of places. */
  ghost function RuleSet(paths: set<Path>): set<Rule> {
    set p | p in paths :: p.Rule()
  }

  lemma InRuleSet(paths: set<Path>, p: Path)
    ensures p.Rule() in RuleSet(paths) <==> p in paths
  {
    if p.Rule() in RuleSet(paths) {
      var x :| x in paths && x.Rule() == p.Rule();
      assert |x.Rule()| == |p.Rule()|;
      assert forall i :: 0 <= i < |x.Rule()| ==> x.Rule()[i] == p.Rule()[i];
      assert x == p;
    }
  }

  lemma {:induction false} RuleSetAdd(paths: set<Path>, p: Path)
    ensures RuleSet(paths + {p}) == RuleSet(paths) + {p.Rule()}
  {
  }

  lemma {:induction false} RuleSetSize(paths: set<Path>)
    ensures |RuleSet(paths)| == |paths|
  {
    if paths != {} {
      var p :| p in paths;
      RuleSetSize(paths - {p});
      RuleSetAdd(paths - {p}, p);
      InRuleSet(paths - {p}, p);
      assert paths == (paths - {p}) + {p};
    }
  }

  /** A name is covered exactly when the place of one of its last three label groups is. */
  lemma CoveredByGroups(paths: set<Path>, ls: Labels)
    requires |ls| >= 1
    ensures Covered(RuleSet(paths), ls) <==> exists k: nat :: 1 <= k <= 3 && k <= |ls| && Group(ls, k) in paths
  {
    if Covered(RuleSet(paths), ls) {
      var r :| r in RuleSet(paths) && Suffix(r, ls);
      var p :| p in paths && p.Rule() == r;
      GroupUnique(p, ls);
    }
    if k: nat :| 1 <= k <= 3 && k <= |ls| && Group(ls, k) in paths {
      GroupCovers(paths, ls, k);
    }
  }

  lemma GroupCovers(paths: set<Path>, ls: Labels, k: nat)
    requires 1 <= k <= 3 && k <= |ls| && Group(ls, k) in paths
    ensures Covered(RuleSet(paths), ls)
  {
    var p := Group(ls, k);
    InRuleSet(paths, p);
    assert Suffix(p.Rule(), ls);
  }

  lemma PathOfTruncate(ls: Labels)
    requires |ls| >= 1
    ensures PathOf(Truncate(ls)) == if |ls| <= 3 then Group(ls, |ls|) else Group(ls, 3)
  {
    GroupUnique(PathOf(Truncate(ls)), ls);
  }

  /** Only rules of accepted entries. */
  ghost predicate Formed(paths: set<Path>) {
    forall p :: p in paths ==> StoredForm(p.Rule())
  }

  /** What adding one accepted entry does to the places and to their rules. */
  lemma AddedRule(paths: set<Path>, ls: Labels)
    requires |ls| >= 1 && StoredForm(Truncate(ls))
    ensures var p := Group(ls, if |ls| <= 3 then |ls| else 3);
      && (Formed(paths) ==> Formed(paths + {p}))
      && RuleSet(paths + {p}) == RuleSet(paths) + {Truncate(ls)}
      && (p in paths <==> RuleSet(paths + {p}) == RuleSet(paths))
  {
    var p := Group(ls, if |ls| <= 3 then |ls| else 3);
    PathOfTruncate(ls);
    RuleSetAdd(paths, p);
    InRuleSet(paths, p);
  }

  // ----- enumeration -----

  /** The places the enumeration shows: those below no other marked place. */
  ghost function Shown(paths: set<Path>): set<Path> {
    set p | p in paths && (!p.Top? ==> Top(p.tld) !in paths) && (p.Third? ==> Second(p.sld, p.tld) !in paths)
  }

  ghost function ShownTld(paths: set<Path>, t: Name): set<Path> {
    set p | p in Shown(paths) && p.tld == t
  }

  ghost function ShownSld(paths: set<Path>, s: Name, t: Name): set<Path> {
    set p | p in paths && !p.Top? && p.tld == t && p.sld == s && (p.Third? ==> Second(s, t) !in paths)
  }

  ghost function Thirds(subs: set<Name>, s: Name, t: Name): set<Path> {
    set u | u in subs :: Third(u, s, t)
  }

  /** The shown places of the second-level domains visited so far. */
  ghost function TldPart(paths: set<Path>, t: Name, done: set<Name>): set<Path> {
    set p | p in ShownTld(paths, t) && !p.Top? && p.sld in done
  }

  lemma TldPartAdd(paths: set<Path>, t: Name, done: set<Name>, s: Name)
    requires Top(t) !in paths && s !in done && Formed(paths)
    ensures TldPart(paths, t, done + {s}) == TldPart(paths, t, done) + ShownSld(paths, s, t)
    ensures TldPart(paths, t, done) !! ShownSld(paths, s, t)
    ensures Formed(TldPart(paths, t, done)) && Formed(ShownSld(paths, s, t))
  {
  }

  /** The shown places of the top-level domains visited so far. */
  ghost function Part(paths: set<Path>, done: set<Name>): set<Path> {
    set p | p in Shown(paths) && p.tld in done
  }

  lemma PartAdd(paths: set<Path>, done: set<Name>, t: Name)
    requires t !in done && Formed(paths)
    ensures Part(paths, done + {t}) == Part(paths, done) + ShownTld(paths, t)
    ensures Part(paths, done) !! ShownTld(paths, t)
    ensures Formed(Part(paths, done)) && Formed(ShownTld(paths, t))
  {
  }

  /** `out` lists each of the places once, written as a name. */
  ghost predicate Lists(out: seq<Name>, ps: set<Path>) {
    && (forall i, j :: 0 <= i < j < |out| ==> out[i] != out[j])
    && (forall d :: d in out ==> exists p :: p in ps && d == Join(p.Rule()))
    && (forall p :: p in ps ==> Join(p.Rule()) in out)
  }

  lemma JoinThree(u: Name, s: Name, t: Name)
    ensures Join([u, s, t]) == u + ['.'] + (s + ['.'] + t)
  {
    assert [u, s, t][1..] == [s, t] && [s, t][1..] == [t];
    assert Join([t]) == t;
    assert Join([s, t]) == s + ['.'] + t;
  }

  lemma WrittenApart(p: Path, q: Path)
    requires StoredForm(p.Rule()) && StoredForm(q.Rule()) && Join(p.Rule()) == Join(q.Rule())
    ensures p == q
  {
    SplitJoin(p.Rule());
    SplitJoin(q.Rule());
    InRuleSet({p}, q);
  }

  lemma ListsConcat(a: seq<Name>, ps: set<Path>, b: seq<Name>, qs: set<Path>)
    requires Lists(a, ps) && Lists(b, qs) && ps !! qs && Formed(ps) && Formed(qs)
    ensures Lists(a + b, ps + qs)
  {
    forall i, j | 0 <= i < j < |a + b| ensures (a + b)[i] != (a + b)[j] {
      if i < |a| <= j && a[i] == b[j - |a|] {
        assert a[i] in a;
        var p :| p in ps && a[i] == Join(p.Rule());
        assert b[j - |a|] in b;
        var q :| q in qs && b[j - |a|] == Join(q.Rule());
        WrittenApart(p, q);
        assert false;
      }
    }
  }

  lemma ListsNone()
    ensures Lists([], {})
  {
  }

  lemma ListsOne(p: Path)
    ensures Lists([Join(p.Rule())], {p})
  {
  }

  lemma ListsAppend(a: seq<Name>, ps: set<Path>, p: Path)
    requires Lists(a, ps) && p !in ps && Formed(ps) && StoredForm(p.Rule())
    ensures Lists(a + [Join(p.Rule())], ps + {p})
  {
    ListsOne(p);
    ListsConcat(a, ps, [Join(p.Rule())], {p});
  }

  /** The places shown are those of the minimal rules. */
  lemma ShownMinimal(paths: set<Path>, out: seq<Name>)
    requires Lists(out, Shown(paths))
    ensures Enumerates(out, RuleSet(paths))
  {
    forall p | p in paths ensures p.Rule() in Minimal(RuleSet(paths)) <==> p in Shown(paths) {
      ShownIsMinimal(paths, p);
    }
    forall r | r in Minimal(RuleSet(paths)) ensures |r| >= 1 && Join(r) in out {
      var p :| p in paths && p.Rule() == r;
    }
    forall d | d in out ensures exists r :: r in Minimal(RuleSet(paths)) && |r| >= 1 && d == Join(r) {
      var p :| p in Shown(paths) && d == Join(p.Rule());
      assert p.Rule() in Minimal(RuleSet(paths));
    }
  }

  lemma ShownIsMinimal(paths: set<Path>, p: Path)
    requires p in paths
    ensures p.Rule() in Minimal(RuleSet(paths)) <==> p in Shown(paths)
  {
    var r := p.Rule();
    InRuleSet(paths, p);
    forall q | q in paths && q != p && Suffix(q.Rule(), r) ensures p !in Shown(paths) {
      var s := q.Rule();
      assert forall i :: 0 <= i < |s| ==> s[i] == r[|r| - |s| + i];
    }
    if p in Shown(paths) {
      forall s | s in RuleSet(paths) && s != r ensures !Suffix(s, r) {
        var q :| q in paths && q.Rule() == s;
      }
    } else {
      var q := if !p.Top? && Top(p.tld) in paths then Top(p.tld) else Second(p.sld, p.tld);
      InRuleSet(paths, q);
      assert Suffix(q.Rule(), r) && q.Rule() != r;
    }
  }

  /** A node two labels deep: its own mark and the third labels marked below it. */
  class SldNode {
    ghost const place: Path
    var blocked: bool
    var subs: set<Name>

    constructor (ghost place: Path)
      ensures this.place == place && !blocked && subs == {}
    {
      this.place := place;
      blocked, subs := false, {};
    }
  }

  /** A node one label deep: its own mark and its children. */
  class TldNode {
    ghost const place: Path
    var blocked: bool
    var slds: map<Name, SldNode>

    constructor (ghost place: Path)
      ensures this.place == place && !blocked && slds == map[]
    {
      this.place := place;
      blocked, slds := false, map[];
    }
  }

  method IsTldLike(s: Name) returns (b: bool)
    ensures b <==> TldLike(s)
  {
    if s == [] {
      return false;
    }
    for i := 0 to |s|
      invariant forall c :: c in s[..i] ==> TldChar(c)
    {
      assert s[i] in s;
      if !TldChar(s[i]) {
        return false;
      }
    }
    assert s[..|s|] == s;
    return true;
  }

  /** The third-level labels below one second-level domain, written as names. */
  method EachSub(t: Name, s: Name, subs: set<Name>) returns (out: seq<Name>)
    requires Formed(Thirds(subs, s, t))
    ensures Lists(out, Thirds(subs, s, t))
  {
    out := [];
    var todo := subs;
    ghost var done: set<Name> := {};
    while todo != {}
      invariant done + todo == subs && done !! todo
      invariant Lists(out, Thirds(done, s, t))
      decreases todo
    {
      var u :| u in todo;
      assert Thirds(done + {u}, s, t) == Thirds(done, s, t) + {Third(u, s, t)};
      assert Third(u, s, t) in Thirds(subs, s, t);
      assert Formed(Thirds(done, s, t)) by {
        forall p | p in Thirds(done, s, t) ensures p in Thirds(subs, s, t) {
          assert p == Third(p.sub, s, t) && p.sub in subs;
        }
      }
      ListsAppend(out, Thirds(done, s, t), Third(u, s, t));
      JoinThree(u, s, t);
      out := out + [u + ['.'] + (s + ['.'] + t)];
      todo := todo - {u};
      done := done + {u};
    }
    assert done == subs;
  }

  class DomainSet {
    var tlds: map<Name, TldNode>
    var n: nat
    ghost var paths: set<Path>
    ghost var nodes: set<object>

    /** Whether the trie marks the place `p`. */
    ghost predicate Marks(p: Path)
      requires Tree()
      reads this`tlds, this`nodes, nodes
    {
      match p
      case Top(t) => t in tlds && tlds[t].blocked
      case Second(s, t) => t in tlds && s in tlds[t].slds && tlds[t].slds[s].blocked
      case Third(u, s, t) => t in tlds && s in tlds[t].slds && u in tlds[t].slds[s].subs
    }

    /** Every node sits at its own place, so no node is shared. */
    ghost predicate Tree()
      reads this`tlds, this`nodes, nodes
    {
      && (forall t :: t in tlds ==> tlds[t] in nodes && tlds[t].place == Top(t))
      && (forall t, s :: t in tlds && s in tlds[t].slds ==>
            tlds[t].slds[s] in nodes && tlds[t].slds[s].place == Second(s, t))
    }

    /** The trie marks exactly `paths`, and `n` counts them. */
    ghost predicate Core()
      reads this, nodes
    {
      && this !in nodes && Tree()
      && (forall p :: p in paths <==> Marks(p))
      && n == |paths|
    }

    ghost predicate Valid()
      reads this, nodes
    {
      Core() && Formed(paths)
    }

    /** The rules the set stands for. */
    ghost function Rules(): set<Rule>
      reads this`paths
    {
      RuleSet(paths)
    }

    lemma Counted()
      requires Valid()
      ensures n == |Rules()|
    {
      RuleSetSize(paths);
    }

    constructor ()
      ensures Valid() && Rules() == {} && fresh(nodes)
    {
      tlds, n, paths, nodes := map[], 0, {}, {};
    }

    /** The node of a TLD, made if it is missing. */
    method Tld(name: Name) returns (node: TldNode)
      requires Core()
      modifies this`tlds, this`nodes
      ensures Core() && fresh(nodes - old(nodes))
      ensures name in tlds && tlds[name] == node
    {
      if name in tlds {
        node := tlds[name];
      } else {
        node := new TldNode(Top(name));
        tlds := tlds[name := node];
        nodes := nodes + {node};
        assert forall p :: Marks(p) <==> old(Marks(p));
      }
    }

    /** A new node for a second-level domain marks nothing. */
    twostate lemma SldNew(p: Path)
      requires old(Tree()) && p.Second? && p.tld in tlds && tlds == old(tlds)
      requires var t := tlds[p.tld];
        && p.sld !in old(t.slds) && p.sld in t.slds && t.slds == old(t.slds)[p.sld := t.slds[p.sld]]
        && t.blocked == old(t.blocked) && fresh(t.slds[p.sld]) && t.slds[p.sld].place == p
        && !t.slds[p.sld].blocked && t.slds[p.sld].subs == {} && nodes == old(nodes) + {t.slds[p.sld]}
        && forall x :: x in old(nodes) && x != t ==> unchanged(x)
      ensures Tree() && forall q :: Marks(q) <==> old(Marks(q))
    {
    }

    /** The node of a second-level domain below `t`, made if it is missing. */
    method Sld(ghost tld: Name, t: TldNode, name: Name) returns (node: SldNode)
      requires Core() && tld in tlds && tlds[tld] == t
      modifies this`nodes, t`slds
      ensures Core() && fresh(nodes - old(nodes))
      ensures name in t.slds && t.slds[name] == node
    {
      if name in t.slds {
        node := t.slds[name];
      } else {
        node := new SldNode(Second(name, tld));
        t.slds := t.slds[name := node];
        nodes := nodes + {node};
        SldNew(Second(name, tld));
      }
    }

    /** The nodes on the way to a second-level domain. */
    method Below(tld: Name, sld: Name) returns (tn: TldNode, sn: SldNode)
      requires Core()
      modifies this`tlds, this`nodes, nodes
      ensures Core() && fresh(nodes - old(nodes))
      ensures tld in tlds && tlds[tld] == tn && sld in tn.slds && tn.slds[sld] == sn
    {
      tn := Tld(tld);
      ghost var more := nodes - old(nodes);
      sn := Sld(tld, tn, sld);
      assert nodes - old(nodes) <= (nodes - (old(nodes) + more)) + more;
    }

    /** The rest of the tree when one node changes. */
    twostate predicate OthersUnchanged(new node: object)
      reads this`tlds, this`nodes, nodes
    {
      tlds == old(tlds) && nodes == old(nodes) && forall x :: x in nodes && x != node ==> unchanged(x)
    }

    twostate lemma TldMarked(p: Path)
      requires old(Tree()) && p.Top? && p.tld in tlds && OthersUnchanged(tlds[p.tld])
      requires tlds[p.tld].blocked && tlds[p.tld].slds == old(tlds[p.tld].slds)
      ensures Tree() && forall x :: Marks(x) <==> old(Marks(x)) || x == p
    {
    }

    twostate lemma SldMarked(p: Path)
      requires old(Tree()) && p.Second? && p.tld in tlds && p.sld in tlds[p.tld].slds
      requires var s := tlds[p.tld].slds[p.sld]; OthersUnchanged(s) && s.blocked && s.subs == old(s.subs)
      ensures Tree() && forall x :: Marks(x) <==> old(Marks(x)) || x == p
    {
    }

    twostate lemma SubMarked(p: Path)
      requires old(Tree()) && p.Third? && p.tld in tlds && p.sld in tlds[p.tld].slds
      requires var s := tlds[p.tld].slds[p.sld];
        OthersUnchanged(s) && s.blocked == old(s.blocked) && s.subs == old(s.subs) + {p.sub}
      ensures Tree() && forall x :: Marks(x) <==> old(Marks(x)) || x == p
    {
    }

    /** Marks the TLD itself; false when it was marked before. */
    method BlockTld(name: Name, t: TldNode) returns (added: bool)
      requires Core() && name in tlds && tlds[name] == t
      modifies this`paths, this`n, t`blocked
      ensures Core() && paths == old(paths) + {Top(name)}
      ensures added <==> Top(name) !in old(paths)
      ensures n == old(n) + if added then 1 else 0
    {
      assert Top(name) in paths <==> Marks(Top(name));
      if t.blocked {
        return false;
      }
      paths := paths + {Top(name)};
      n := n + 1;
      t.blocked := true;
      TldMarked(Top(name));
      added := true;
    }

    /** Marks a second-level domain; false when it was marked before. */
    method BlockSld(ghost tld: Name, ghost t: TldNode, ghost name: Name, s: SldNode) returns (added: bool)
      requires Core() && tld in tlds && tlds[tld] == t && name in t.slds && t.slds[name] == s
      modifies this`paths, this`n, s`blocked
      ensures Core() && paths == old(paths) + {Second(name, tld)}
      ensures added <==> Second(name, tld) !in old(paths)
      ensures n == old(n) + if added then 1 else 0
    {
      assert Second(name, tld) in paths <==> Marks(Second(name, tld));
      if s.blocked {
        return false;
      }
      paths := paths + {Second(name, tld)};
      n := n + 1;
      s.blocked := true;
      SldMarked(Second(name, tld));
      return true;
    }

    /** Marks a third label; deeper ones are never stored. */
    method BlockSub(ghost tld: Name, ghost t: TldNode, ghost sld: Name, s: SldNode, name: Name) returns (added: bool)
      requires Core() && tld in tlds && tlds[tld] == t && sld in t.slds && t.slds[sld] == s
      modifies this`paths, this`n, s`subs
      ensures Core() && paths == old(paths) + {Third(name, sld, tld)}
      ensures added <==> Third(name, sld, tld) !in old(paths)
      ensures n == old(n) + if added then 1 else 0
    {
      assert Third(name, sld, tld) in paths <==> Marks(Third(name, sld, tld));
      if name in s.subs {
        return false;
      }
      paths := paths + {Third(name, sld, tld)};
      n := n + 1;
      s.subs := s.subs + {name};
      SubMarked(Third(name, sld, tld));
      return true;
    }

    /** Inserts the labels of a normalized name that has at least two. */
    method AddBelow(labels: Labels) returns (added: bool)
      requires Core() && |labels| >= 2
      modifies this, nodes
      ensures Core() && fresh(nodes - old(nodes))
      ensures var p := Group(labels, if |labels| == 2 then 2 else 3);
        paths == old(paths) + {p} && (added <==> p !in old(paths))
      ensures n == old(n) + if added then 1 else 0
    {
      var k := |labels|;
      var tn, sn := Below(labels[k - 1], labels[k - 2]);
      if k == 2 {
        added := BlockSld(labels[1], tn, labels[0], sn);
      } else {
        added := BlockSub(labels[k - 1], tn, labels[k - 2], sn, labels[k - 3]);
      }
    }

    /** Inserts the labels of a normalized name. */
    method AddLabels(labels: Labels) returns (added: bool)
      requires Core() && |labels| >= 1
      modifies this, nodes
      ensures Core() && fresh(nodes - old(nodes))
      ensures var p := Group(labels, if |labels| <= 3 then |labels| else 3);
        paths == old(paths) + {p} && (added <==> p !in old(paths))
      ensures n == old(n) + if added then 1 else 0
    {
      if |labels| == 1 {
        var t := Tld(labels[0]);
        added := BlockTld(labels[0], t);
      } else {
        added := AddBelow(labels);
      }
    }

    /** Inserts the rule of an accepted entry. */
    method AddRule(ghost domain: Name, labels: Labels) returns (added: bool)
      requires Valid() && |labels| >= 1 && RuleOf(domain) == Some(Truncate(labels))
      modifies this, nodes
      ensures Valid() && fresh(nodes - old(nodes))
      ensures Rules() == old(Rules()) + Accepted(domain)
      ensures added <==> Rules() != old(Rules())
      ensures n == old(n) + if added then 1 else 0
    {
      RuleOfForm(domain);
      AddedRule(paths, labels);
      added := AddLabels(labels);
    }

    /** Inserts a domain and reports whether its rule is new. */
    method Add(domain: Name) returns (added: bool)
      requires Valid()
      modifies this, nodes
      ensures Valid() && fresh(nodes - old(nodes))
      ensures Rules() == old(Rules()) + Accepted(domain)
      ensures added <==> Rules() != old(Rules())
      ensures n == old(n) + if added then 1 else 0
    {
      var d := Normalize(domain);
      if d == [] {
        return false;
      }
      var labels := Split(d);
      if |labels| == 1 {
        var like := IsTldLike(labels[0]);
        if !like {
          return false;
        }
      }
      added := AddRule(domain, labels);
    }

    lemma CoveredByMarks(ls: Labels)
      requires Core() && |ls| >= 1
      ensures var n := |ls|; Covered(RuleSet(paths), ls) <==>
        || Marks(Top(ls[n - 1]))
        || (n >= 2 && Marks(Second(ls[n - 2], ls[n - 1])))
        || (n >= 3 && Marks(Third(ls[n - 3], ls[n - 2], ls[n - 1])))
    {
      CoveredByGroups(paths, ls);
      assert Group(ls, 1) in paths <==> Marks(Group(ls, 1));
      assert |ls| >= 2 ==> (Group(ls, 2) in paths <==> Marks(Group(ls, 2)));
      assert |ls| >= 3 ==> (Group(ls, 3) in paths <==> Marks(Group(ls, 3)));
    }

    method HasLabels(labels: Labels) returns (b: bool)
      requires Core() && |labels| >= 1
      ensures b <==> Covered(RuleSet(paths), labels)
    {
      var k := |labels|;
      CoveredByMarks(labels);
      if labels[k - 1] !in tlds {
        return false;
      }
      var tn := tlds[labels[k - 1]];
      if tn.blocked {
        return true;
      }
      if k == 1 {
        return false;
      }
      if labels[k - 2] !in tn.slds {
        return false;
      }
      var sn := tn.slds[labels[k - 2]];
      if sn.blocked {
        return true;
      }
      if k >= 3 {
        return labels[k - 3] in sn.subs;
      }
      return false;
    }

    /** Whether the domain matches a stored rule. */
    method Has(domain: Name) returns (b: bool)
      requires Valid()
      ensures b <==> Matches(Rules(), domain)
      ensures forall other: Name :: SameName(domain, other) ==> (b <==> Matches(Rules(), other))
    {
      forall other: Name | SameName(domain, other) ensures Matches(Rules(), domain) <==> Matches(Rules(), other) {
        CaseIgnored(Rules(), domain, other);
      }
      var d := Normalize(domain);
      if d == [] {
        return false;
      }
      b := HasLabels(Split(d));
    }

    /** The number of distinct rules stored. */
    method Len() returns (k: nat)
      requires Valid()
      ensures k == |Rules()|
    {
      RuleSetSize(paths);
      return n;
    }

    lemma SldShown(t: Name, s: Name)
      requires Core() && t in tlds && s in tlds[t].slds
      ensures Second(s, t) in paths <==> tlds[t].slds[s].blocked
      ensures ShownSld(paths, s, t) ==
        if tlds[t].slds[s].blocked then {Second(s, t)} else Thirds(tlds[t].slds[s].subs, s, t)
    {
      var sn := tlds[t].slds[s];
      assert Second(s, t) in paths <==> Marks(Second(s, t));
      assert forall u :: Third(u, s, t) in paths <==> Marks(Third(u, s, t));
    }

    /** The rules below one second-level domain, as the names that were added. */
    method EachSld(t: Name, s: Name, sn: SldNode) returns (out: seq<Name>)
      requires Valid() && t in tlds && s in tlds[t].slds && tlds[t].slds[s] == sn
      ensures Lists(out, ShownSld(paths, s, t))
    {
      SldShown(t, s);
      if sn.blocked {
        ListsOne(Second(s, t));
        return [s + ['.'] + t];
      }
      out := EachSub(t, s, sn.subs);
    }

    lemma TldShown(t: Name)
      requires Core()
      ensures Top(t) in paths <==> t in tlds && tlds[t].blocked
      ensures t in tlds ==> forall p :: p in ShownTld(paths, t) && !p.Top? ==> p.sld in tlds[t].slds
      ensures forall p :: p in paths ==> p.tld in tlds
    {
      assert Top(t) in paths <==> Marks(Top(t));
      assert forall p :: p in paths ==> Marks(p);
    }

    /** The rules below one top-level domain. */
    method EachTld(t: Name, tn: TldNode) returns (out: seq<Name>)
      requires Valid() && t in tlds && tlds[t] == tn
      ensures Lists(out, ShownTld(paths, t))
    {
      hide Lists, ShownSld, Formed, Tree;
      TldShown(t);
      ListsNone();
      if tn.blocked {
        ListsOne(Top(t));
        assert ShownTld(paths, t) == {Top(t)};
        return [t];
      }
      out := [];
      var todo := tn.slds.Keys;
      ghost var done: set<Name> := {};
      assert TldPart(paths, t, done) == {};
      while todo != {}
        invariant done + todo == tn.slds.Keys && done !! todo
        invariant Lists(out, TldPart(paths, t, done))
        decreases todo
      {
        var s :| s in todo;
        var more := EachSld(t, s, tn.slds[s]);
        TldPartAdd(paths, t, done, s);
        ListsConcat(out, TldPart(paths, t, done), more, ShownSld(paths, s, t));
        out := out + more;
        todo := todo - {s};
        done := done + {s};
      }
      assert TldPart(paths, t, done) == ShownTld(paths, t);
    }

    /** Every stored rule that no shorter one covers, as the name that was added. */
    method Each() returns (out: seq<Name>)
      requires Valid()
      ensures Enumerates(out, Rules())
    {
      out := [];
      var todo := tlds.Keys;
      ghost var done: set<Name> := {};
      while todo != {}
        invariant done + todo == tlds.Keys && done !! todo
        invariant Lists(out, Part(paths, done))
        decreases todo
      {
        var t :| t in todo;
        var more := EachTld(t, tlds[t]);
        PartAdd(paths, done, t);
        ListsConcat(out, Part(paths, done), more, ShownTld(paths, t));
        out := out + more;
        todo := todo - {t};
        done := done + {t};
      }
      TldShown([]);
      assert Part(paths, done) == Shown(paths);
      ShownMinimal(paths, out);
    }
  }
}
