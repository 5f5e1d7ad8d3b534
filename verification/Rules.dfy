/** What a set of filter entries means: each accepted entry is reduced to the rule
    made of its last (at most three) labels, and a rule matches every name that ends
    in its labels.  The trie in DomainTrie.dfy is proved equal to this. */
module Rules {
  import opened Names
  import opened Prelude

  type Rule = Labels

  predicate TldChar(c: Ascii) {
    'a' <= c <= 'z' || '0' <= c <= '9' || c == '-'
  }

  predicate TldLike(l: Name) {
    l != [] && forall c :: c in l ==> TldChar(c)
  }

  function Truncate(ls: Labels): Rule
    requires |ls| >= 1
  {
    if |ls| <= 3 then ls else ls[|ls| - 3..]
  }

  function RuleOf(entry: Name): Option<Rule> {
    var d := Normalize(entry);
    var ls := Split(d);
    if d == [] || (|ls| == 1 && !TldLike(ls[0])) then None else Some(Truncate(ls))
  }

  /** The rule an entry adds, if it is accepted. */
  function Accepted(entry: Name): set<Rule> {
    match RuleOf(entry)
    case None => {}
    case Some(r) => {r}
  }

  function RulesOf(entries: seq<Name>): set<Rule> {
    if entries == [] then {}
    else RulesOf(entries[..|entries| - 1]) + Accepted(entries[|entries| - 1])
  }

  lemma {:induction false} InRulesOf(entries: seq<Name>, x: Rule)
    ensures x in RulesOf(entries) <==> exists e :: e in entries && RuleOf(e) == Some(x)
  {
    if entries != [] {
      var k := |entries| - 1;
      InRulesOf(entries[..k], x);
      assert entries == entries[..k] + [entries[k]];
      forall e ensures e in entries <==> e in entries[..k] || e == entries[k] {
      }
    }
  }

  ghost predicate Covered(rules: set<Rule>, ls: Labels) {
    exists r :: r in rules && Suffix(r, ls)
  }

  /** Whether the rules match the queried name. */
  ghost predicate Matches(rules: set<Rule>, query: Name) {
    Normalize(query) != [] && Covered(rules, Split(Normalize(query)))
  }

  // ----- entries and the names they match -----

  /** The form every accepted rule has. */
  predicate StoredForm(r: Rule) {
    && 1 <= |r| <= 3 && NoDots(r) && AllLower(r) && r[|r| - 1] != []
    && (|r| == 1 ==> TldLike(r[0]))
    && (|r| == 2 ==> r[0] != [])
  }

  lemma RuleOfForm(entry: Name)
    requires RuleOf(entry).Some?
    ensures StoredForm(RuleOf(entry).value)
  {
    JoinSplit(Normalize(entry));
    TruncatedForm(Split(Normalize(entry)));
  }

  lemma TruncatedForm(ls: Labels)
    requires |ls| >= 1 && NoDots(ls) && IsLower(Join(ls)) && Join(ls) != []
    requires Join(ls)[0] != '.' && Join(ls)[|Join(ls)| - 1] != '.'
    requires |ls| == 1 ==> TldLike(ls[0])
    ensures StoredForm(Truncate(ls))
  {
    JoinLower(ls);
    JoinEnds(ls);
    if ls[|ls| - 1] == [] {
      TrailingEmpty(ls);
    }
  }

  lemma {:induction false} TrailingEmpty(ls: Labels)
    requires |ls| >= 1 && ls[|ls| - 1] == []
    ensures Join(ls) == [] || Join(ls)[|Join(ls)| - 1] == '.'
  {
    if |ls| > 1 {
      TrailingEmpty(ls[1..]);
    }
  }

  /** Truncation never loses a subdomain: whatever lies under an accepted entry is matched. */
  lemma SubdomainMatched(rules: set<Rule>, entry: Name, query: Name, sub: Name)
    requires RuleOf(entry).Some? && RuleOf(entry).value in rules
    requires Normalize(query) == Normalize(entry) || Normalize(query) == sub + ['.'] + Normalize(entry)
    ensures Matches(rules, query)
  {
    SplitSuffix(sub, Normalize(entry));
    CoveredBelow(rules, Split(Normalize(entry)), Split(Normalize(query)));
  }

  lemma CoveredBelow(rules: set<Rule>, parent: Labels, ls: Labels)
    requires |parent| >= 1 && Truncate(parent) in rules
    requires Suffix(parent, ls)
    ensures Covered(rules, ls)
  {
    assert Suffix(Truncate(parent), parent);
    SuffixTransitive(Truncate(parent), parent, ls);
  }

  /** Truncation matches exactly the entry's own subtree when the entry has at most
      three labels, and strictly more otherwise. */
  lemma TruncationExact(ls: Labels)
    requires |ls| >= 1
    ensures (forall q: Labels :: Suffix(Truncate(ls), q) <==> Suffix(ls, q)) <==> |ls| <= 3
    ensures forall q: Labels :: Suffix(ls, q) ==> Suffix(Truncate(ls), q)
  {
    assert Suffix(Truncate(ls), Truncate(ls));
    if |ls| > 3 {
      assert !Suffix(ls, Truncate(ls));
    }
    forall q: Labels | Suffix(ls, q) ensures Suffix(Truncate(ls), q) {
      assert Suffix(Truncate(ls), ls);
      SuffixTransitive(Truncate(ls), ls, q);
    }
  }

  // ----- what is matched, in terms of the text -----

  lemma {:induction false} TrimSame(a: Name, b: Name, cut: set<char>)
    requires SameName(a, b) && forall c: Ascii, d: Ascii :: SameLetter(c, d) ==> (c in cut <==> d in cut)
    ensures SameName(Trim(a, cut), Trim(b, cut))
  {
    TrimLeftSame(a, b, cut);
    TrimRightSame(TrimLeft(a, cut), TrimLeft(b, cut), cut);
  }

  lemma {:induction false} TrimLeftSame(a: Name, b: Name, cut: set<char>)
    requires SameName(a, b) && forall c: Ascii, d: Ascii :: SameLetter(c, d) ==> (c in cut <==> d in cut)
    ensures SameName(TrimLeft(a, cut), TrimLeft(b, cut))
  {
    if a != [] && a[0] in cut {
      assert SameLetter(a[0], b[0]);
      TrimLeftSame(a[1..], b[1..], cut);
    } else if a != [] {
      assert SameLetter(a[0], b[0]);
    }
  }

  lemma {:induction false} TrimRightSame(a: Name, b: Name, cut: set<char>)
    requires SameName(a, b) && forall c: Ascii, d: Ascii :: SameLetter(c, d) ==> (c in cut <==> d in cut)
    ensures SameName(TrimRight(a, cut), TrimRight(b, cut))
  {
    if a != [] {
      assert SameLetter(a[|a| - 1], b[|b| - 1]);
      if a[|a| - 1] in cut {
        TrimRightSame(a[..|a| - 1], b[..|b| - 1], cut);
      }
    }
  }

  /** Case plays no part, neither in a queried name nor in an entry. */
  lemma CaseIgnored(rules: set<Rule>, a: Name, b: Name)
    requires SameName(a, b)
    ensures Matches(rules, a) <==> Matches(rules, b)
    ensures RuleOf(a) == RuleOf(b)
  {
    NoLetters();
    TrimSame(a, b, Spaces());
    TrimSame(Trim(a, Spaces()), Trim(b, Spaces()), {'.'});
    LowerIsCase(Trim(Trim(a, Spaces()), {'.'}), Trim(Trim(b, Spaces()), {'.'}));
    assert Normalize(a) == Normalize(b);
  }

  lemma NoLetters()
    ensures forall c: Ascii, d: Ascii :: SameLetter(c, d) ==> (c in Spaces() <==> d in Spaces())
    ensures forall c: Ascii, d: Ascii :: SameLetter(c, d) ==> (c in {'.'} <==> d in {'.'})
  {
    forall c: Ascii, d: Ascii | SameLetter(c, d) ensures c in Spaces() <==> d in Spaces() {
      SpacesAre(c);
      SpacesAre(d);
    }
  }

  /** Nothing is trimmed off the name. */
  predicate Bare(s: Name) {
    s != [] && s[0] !in Spaces() + {'.'} && s[|s| - 1] !in Spaces() + {'.'}
  }

  lemma BareNormalized(s: Name)
    requires Bare(s)
    ensures Normalize(s) == Lower(s)
  {
    assert Trim(s, Spaces()) == s;
    assert Trim(s, {'.'}) == s;
  }

  /** An accepted entry matches a name exactly when the text of the name, or what follows one
      of its dots, is up to case the entry's: all of it, or what follows its third dot from
      the right. */
  lemma MatchesText(entry: Name, tail: Name, j: nat, query: Name)
    requires Bare(entry) && Bare(query) && RuleOf(entry).Some?
    requires AfterDot(tail, entry, j) && if |Split(entry)| <= 3 then j == 0 else |Split(tail)| == 3
    ensures Matches({RuleOf(entry).value}, query) <==>
      exists k: nat :: k <= |query| && (k == 0 || query[k - 1] == '.') && SameName(query[k..], tail)
  {
    hide RuleOf, Normalize, Split;
    TailRule(entry, tail, j);
    BareNormalized(query);
    SuffixText(Lower(tail), Lower(query));
    forall k: nat | k <= |query| ensures AfterDot(Lower(tail), Lower(query), k) <==>
      (k == 0 || query[k - 1] == '.') && SameName(query[k..], tail)
    {
      LowerTail(query, k);
      LowerIsCase(query[k..], tail);
    }
    OneRule(RuleOf(entry).value, Split(Lower(query)));
    forall k: nat | AfterDot(Lower(tail), Lower(query), k)
      ensures k <= |query| && (k == 0 || query[k - 1] == '.') && SameName(query[k..], tail)
    {
      assert k <= |Lower(query)|;
    }
  }

  lemma LowerTail(s: Name, k: nat)
    requires k <= |s|
    ensures Lower(s)[k..] == Lower(s[k..])
    ensures k > 0 ==> (Lower(s)[k - 1] == '.' <==> s[k - 1] == '.')
  {
  }

  lemma OneRule(r: Rule, ls: Labels)
    ensures Covered({r}, ls) <==> Suffix(r, ls)
  {
    assert r in {r};
  }

  /** The rule of an entry is made of the labels of its tail. */
  lemma TailRule(entry: Name, tail: Name, j: nat)
    requires Bare(entry) && RuleOf(entry).Some?
    requires AfterDot(tail, entry, j) && if |Split(entry)| <= 3 then j == 0 else |Split(tail)| == 3
    ensures RuleOf(entry).value == Split(Lower(tail))
  {
    hide Split, Normalize, Lower;
    BareNormalized(entry);
    SplitLower(entry);
    SplitLower(tail);
    LowerTail(entry, j);
    assert AfterDot(Lower(tail), Lower(entry), j);
    SuffixText(Lower(tail), Lower(entry));
    if j == 0 {
      assert tail == entry;
    }
  }

  /** Lower case does not move a dot. */
  lemma {:induction false} SplitLower(s: Name)
    ensures |Split(Lower(s))| == |Split(s)|
  {
    if s != [] {
      LowerTail(s, 1);
      assert Lower(s)[0] == '.' <==> s[0] == '.';
      SplitLower(s[1..]);
    }
  }

  /** A letter of either case, a digit or the hyphen, by its code. */
  predicate Plain(c: Ascii) {
    97 <= c as int <= 122 || 65 <= c as int <= 90 || 48 <= c as int <= 57 || c as int == 45
  }

  /** Which entries are accepted: with a dot inside, or a single label of letters, digits and
      hyphens, once surrounding white space and dots are gone. */
  lemma AcceptedIff(entry: Name)
    requires Bare(entry)
    ensures RuleOf(entry).Some? <==> '.' in entry || forall c :: c in entry ==> Plain(c)
  {
    hide Normalize;
    BareNormalized(entry);
    SplitLower(entry);
    if '.' in entry {
      DotSplits(entry);
    } else {
      SplitLabel(entry);
      SplitLabel(Lower(entry));
      assert forall i :: 0 <= i < |entry| ==> (TldChar(Lower(entry)[i]) <==> Plain(entry[i]));
      assert TldLike(Lower(entry)) <==> forall i :: 0 <= i < |entry| ==> TldChar(Lower(entry)[i]);
    }
  }

  lemma {:induction false} DotSplits(s: Name)
    requires '.' in s
    ensures |Split(s)| >= 2
  {
    if s[0] != '.' {
      assert s == [s[0]] + s[1..];
      DotSplits(s[1..]);
    }
  }

  // ----- enumeration and round trip -----

  /** The rules that no shorter rule of the set makes redundant. */
  ghost function Minimal(rules: set<Rule>): set<Rule> {
    set r | r in rules && !exists s :: s in rules && s != r && Suffix(s, r)
  }

  /** Written out and added again, a rule comes back as itself exactly when it does not
      begin with an empty label or a blank and does not end in a blank. */
  predicate Stable(r: Rule) {
    && r != [] && r[0] != [] && r[0][0] !in Spaces()
    && var z := r[|r| - 1]; z != [] && z[|z| - 1] !in Spaces()
  }

  lemma RoundTripIff(r: Rule)
    requires StoredForm(r)
    ensures RuleOf(Join(r)) == Some(r) <==> Stable(r)
  {
    JoinLower(r);
    StableEnds(r);
    SplitJoin(r);
    NormalizeFixed(Join(r));
    RoundTrip(r, Join(r));
  }

  lemma RoundTrip(r: Rule, d: Name)
    requires StoredForm(r) && Split(d) == r && Join(r) == d && d != []
    requires Normalize(d) == d <==> |Normalize(d)| == |d|
    ensures RuleOf(d) == Some(r) <==> Normalize(d) == d
  {
    if Normalize(d) != d {
      ShorterRule(Normalize(d), r);
    }
  }

  lemma StableEnds(r: Rule)
    requires StoredForm(r)
    ensures var d := Join(r);
      d != [] && (Stable(r) <==> d[0] !in Spaces() + {'.'} && d[|d| - 1] !in Spaces() + {'.'})
  {
    JoinEnds(r);
    var z := r[|r| - 1];
    assert z in r && r[0] in r;
    assert z[|z| - 1] in z;
    assert r[0] != [] ==> r[0][0] in r[0];
  }

  /** A name shorter than the rule written out cannot give that rule. */
  lemma ShorterRule(d: Name, r: Rule)
    requires |r| >= 1 && |d| < |Join(r)|
    ensures Truncate(Split(d)) != r
  {
    JoinSplit(d);
    TruncateLength(Split(d));
  }

  lemma {:induction false} TruncateLength(ls: Labels)
    requires |ls| >= 1
    ensures |Join(Truncate(ls))| <= |Join(ls)|
  {
    if |ls| > 3 {
      assert Truncate(ls) == Truncate(ls[1..]);
      TruncateLength(ls[1..]);
    }
  }

  /** Every rule is under a minimal one. */
  lemma {:induction false} MinimalBelow(rules: set<Rule>, r: Rule) returns (m: Rule)
    requires r in rules
    ensures m in Minimal(rules) && Suffix(m, r)
    decreases |r|
  {
    if s :| s in rules && s != r && Suffix(s, r) {
      assert |s| == |r| ==> s == r;
      m := MinimalBelow(rules, s);
      SuffixTransitive(m, s, r);
    } else {
      m := r;
    }
  }

  /** No rule of the minimal set is under another, and it matches the same names. */
  lemma MinimalAntichain(rules: set<Rule>)
    ensures forall a, b :: a in Minimal(rules) && b in Minimal(rules) && Suffix(a, b) ==> a == b
    ensures forall ls: Labels :: Covered(Minimal(rules), ls) <==> Covered(rules, ls)
  {
    forall ls: Labels | Covered(rules, ls) ensures Covered(Minimal(rules), ls) {
      var r :| r in rules && Suffix(r, ls);
      var m := MinimalBelow(rules, r);
      SuffixTransitive(m, r, ls);
    }
  }

  /** `out` lists each minimal rule once, written as a name. */
  ghost predicate Enumerates(out: seq<Name>, rules: set<Rule>) {
    && (forall i, j :: 0 <= i < j < |out| ==> out[i] != out[j])
    && (forall d :: d in out ==> exists r :: r in Minimal(rules) && |r| >= 1 && d == Join(r))
    && (forall r :: r in Minimal(rules) ==> |r| >= 1 && Join(r) in out)
  }

  /** Adding the enumeration of a set to any other set yields the disjunction of the two. */
  lemma EachFaithful(rules: set<Rule>, out: seq<Name>, into: set<Rule>)
    requires Enumerates(out, rules)
    requires forall r :: r in rules ==> StoredForm(r) && Stable(r)
    ensures RulesOf(out) == Minimal(rules)
    ensures forall q :: Matches(into + RulesOf(out), q) <==> Matches(into, q) || Matches(rules, q)
  {
    forall r | r in rules ensures RuleOf(Join(r)) == Some(r) {
      RoundTripIff(r);
    }
    forall x ensures x in RulesOf(out) <==> x in Minimal(rules) {
      InRulesOf(out, x);
    }
    MinimalAntichain(rules);
    forall q ensures Matches(into + RulesOf(out), q) <==> Matches(into, q) || Matches(rules, q) {
      CoveredUnion(into, Minimal(rules), Split(Normalize(q)));
    }
  }

  lemma CoveredUnion(a: set<Rule>, b: set<Rule>, ls: Labels)
    ensures Covered(a + b, ls) <==> Covered(a, ls) || Covered(b, ls)
  {
    if Covered(a, ls) {
      var r :| r in a && Suffix(r, ls);
      assert r in a + b;
    }
    if Covered(b, ls) {
      var r :| r in b && Suffix(r, ls);
      assert r in a + b;
    }
  }

  /** No label is empty or starts with a blank, and the last does not end with one: so for
      every rule of labels without blanks. */
  predicate Solid(ls: Labels) {
    && (forall l :: l in ls ==> l != [] && l[0] !in Spaces())
    && (ls != [] ==> var z := ls[|ls| - 1]; z == [] || z[|z| - 1] !in Spaces())
  }

  lemma SolidSuffix(m: Labels, x: Labels)
    requires Suffix(m, x) && Solid(x)
    ensures Solid(m)
  {
    forall l | l in m ensures l in x {
      var i :| 0 <= i < |m| && m[i] == l;
      assert x[|x| - |m| + i] == l;
    }
  }

  /** What re-adding the enumeration of a set yields. */
  ghost function Reread(rules: set<Rule>): set<Rule> {
    set r | r in Minimal(rules) && |r| >= 1 && RuleOf(Join(r)).Some? :: RuleOf(Join(r)).value
  }

  lemma RereadEnumeration(rules: set<Rule>, out: seq<Name>)
    requires Enumerates(out, rules)
    ensures RulesOf(out) == Reread(rules)
  {
    forall x ensures x in RulesOf(out) <==> x in Reread(rules) {
      InRulesOf(out, x);
      if x in RulesOf(out) {
        var e :| e in out && RuleOf(e) == Some(x);
        var r :| r in Minimal(rules) && |r| >= 1 && e == Join(r);
      }
    }
  }

  /** Whatever else is in the set, re-adding its enumeration keeps matching every name that
      a solid rule of the set matches. */
  lemma SolidKept(rules: set<Rule>, x: Rule, ls: Labels)
    requires forall r :: r in rules ==> StoredForm(r)
    requires x in rules && Solid(x) && Suffix(x, ls)
    ensures Covered(Reread(rules), ls)
  {
    var m := MinimalBelow(rules, x);
    SolidSuffix(m, x);
    assert m[0] in m && m[|m| - 1] in m;
    StableKept(rules, m);
    SuffixTransitive(m, x, ls);
  }

  lemma StableKept(rules: set<Rule>, m: Rule)
    requires m in Minimal(rules) && StoredForm(m) && Stable(m)
    ensures m in Reread(rules)
  {
    RoundTripIff(m);
  }

  /** One set matches every name another one does exactly when it matches the enumerated
      rules of that one. */
  lemma KeepsIff(a: set<Rule>, b: set<Rule>)
    ensures (forall ls: Labels :: Covered(a, ls) ==> Covered(b, ls)) <==> forall m :: m in Minimal(a) ==> Covered(b, m)
  {
    if forall ls: Labels :: Covered(a, ls) ==> Covered(b, ls) {
      forall m | m in Minimal(a) ensures Covered(b, m) {
        assert Suffix(m, m);
      }
    }
    if forall m :: m in Minimal(a) ==> Covered(b, m) {
      forall ls: Labels | Covered(a, ls) ensures Covered(b, ls) {
        var x :| x in a && Suffix(x, ls);
        CoveredOver(a, b, x, ls);
      }
    }
  }

  lemma CoveredOver(a: set<Rule>, b: set<Rule>, x: Rule, ls: Labels)
    requires forall m :: m in Minimal(a) ==> Covered(b, m)
    requires x in a && Suffix(x, ls)
    ensures Covered(b, ls)
  {
    var m := MinimalBelow(a, x);
    var y :| y in b && Suffix(y, m);
    SuffixTransitive(y, m, x);
    SuffixTransitive(y, x, ls);
  }

  /** Re-adding the enumeration of a set keeps every name exactly when each enumerated rule
      that does not survive the round trip is still matched, which only another rule's
      round trip, or its own into something shorter, can bring about. */
  lemma RereadKeepsIff(rules: set<Rule>)
    requires forall r :: r in rules ==> StoredForm(r)
    ensures (forall ls: Labels :: Covered(rules, ls) ==> Covered(Reread(rules), ls)) <==>
      forall m :: m in Minimal(rules) && !Stable(m) ==> Covered(Reread(rules), m)
  {
    KeepsIff(rules, Reread(rules));
    forall m | m in Minimal(rules) && Stable(m) ensures Covered(Reread(rules), m) {
      StableKept(rules, m);
      assert Suffix(m, m);
    }
  }

  /** The condition matters: below any top-level domain, a rule with a blank label turns
      into the whole domain when it is written out and read back. */
  lemma BlankLabelWidens(blank: Name, tld: Name, entry: Name, stored: Rule)
    requires blank == [' '] && TldLike(tld)
    requires entry == ['.'] + (blank + ['.'] + tld) && stored == [blank, tld]
    ensures RuleOf(entry) == Some(stored) && RuleOf(Join(stored)) == Some([tld])
    ensures forall s: Name :: Suffix([tld], [s, tld]) && (Suffix(stored, [s, tld]) <==> s == blank)
  {
    hide RuleOf, Normalize, TldLike, IsLower, Join;
    BlankLower(blank, tld);
    BlankEntry(blank, tld, entry);
    JoinTwo(blank, tld);
    forall s: Name ensures Suffix([tld], [s, tld]) && (Suffix(stored, [s, tld]) <==> s == blank) {
    }
  }

  /** A stored rule whose first label starts with a blank is lost: written out and read back
      it is another rule, which does not match the entry it came from. */
  lemma BlankStartLost(blank: Name, l: Name, stored: Rule, entry: Name)
    requires blank == [' '] && TldLike(l) && stored == [blank + l, l, l]
    requires entry == l + ['.'] + (blank + l + ['.'] + (l + ['.'] + l))
    ensures RuleOf(entry) == Some(stored) && RuleOf(Join(stored)) == Some([l, l, l])
    ensures Matches({stored}, entry) && !Matches(Reread({stored}), entry)
    ensures Split(Normalize(entry)) == [l] + stored
  {
    hide RuleOf, Normalize, TldLike, IsLower, Join, Split;
    BlankStartRead(blank, l, stored, entry);
    var ls := [l] + stored;
    assert ls[1..] == stored;
    assert Minimal({stored}) == {stored};
    assert Reread({stored}) == {[l, l, l]} by {
      assert stored in Minimal({stored});
    }
    assert ls[1] != l;
  }

  lemma BlankStartRead(blank: Name, l: Name, stored: Rule, entry: Name)
    requires blank == [' '] && TldLike(l) && stored == [blank + l, l, l]
    requires entry == l + ['.'] + (blank + l + ['.'] + (l + ['.'] + l))
    ensures RuleOf(entry) == Some(stored) && RuleOf(Join(stored)) == Some([l, l, l])
    ensures Normalize(entry) == entry && entry != [] && Split(entry) == [l] + stored
  {
    hide RuleOf, Normalize, TldLike, IsLower, Join, Split;
    BlankLower(blank, l);
    BlankDots(blank, l);
    var back := [l, l, l];
    assert entry == Join([l] + stored) && Join(stored) == blank + Join(back) by {
      JoinThrees(blank, l);
    }
    JoinLower(back);
    JoinLower([l] + stored);
    JoinEnds(back);
    JoinEnds([l] + stored);
    NormalizeBy(entry, entry, entry);
    NormalizeBy(Join(stored), Join(back), Join(back));
    RuleOfLabels(entry, [l] + stored);
    RuleOfLabels(Join(stored), back);
    assert ([l] + stored)[1..] == stored;
  }

  lemma BlankDots(blank: Name, l: Name)
    requires blank == [' '] && TldLike(l)
    ensures NoDots([l, blank + l, l, l]) && AllLower([l, blank + l, l, l]) && NoDots([l, l, l]) && AllLower([l, l, l])
  {
    BlankLower(blank, l);
    LowerConcat(blank, l);
    LowerConcat(blank, ['.']);
    LowerConcat(blank + ['.'], l);
  }

  lemma JoinThrees(blank: Name, l: Name)
    ensures Join([l, l, l]) == l + ['.'] + (l + ['.'] + l)
    ensures Join([blank + l, l, l]) == blank + Join([l, l, l])
    ensures Join([l] + [blank + l, l, l]) == l + ['.'] + (blank + l + ['.'] + (l + ['.'] + l))
  {
    JoinTwo(l, l);
    assert [l, l, l][1..] == [l, l] && [blank + l, l, l][1..] == [l, l];
    assert ([l] + [blank + l, l, l])[1..] == [blank + l, l, l];
  }

  lemma RuleOfLabels(entry: Name, ls: Labels)
    requires |ls| >= 2 && NoDots(ls) && Normalize(entry) == Join(ls)
    ensures RuleOf(entry) == Some(Truncate(ls)) && Split(Normalize(entry)) == ls
  {
    SplitJoin(ls);
    assert Split(Normalize(entry)) == ls;
  }

  /** A rule with empty labels comes back as what is left of it. */
  lemma EmptyLabelsWiden(l: Name, entry: Name, stored: Rule)
    requires TldLike(l) && entry == l + (['.', '.', '.'] + l) && stored == [[], [], l]
    ensures RuleOf(entry) == Some(stored) && RuleOf(Join(stored)) == Some([l])
    ensures [l] in Reread({stored})
  {
    hide RuleOf, Normalize, TldLike, IsLower, Join, Split;
    EmptyLabelsRead(l, entry, stored);
    assert stored in Minimal({stored});
  }

  lemma EmptyLabelsRead(l: Name, entry: Name, stored: Rule)
    requires TldLike(l) && entry == l + (['.', '.', '.'] + l) && stored == [[], [], l]
    ensures RuleOf(entry) == Some(stored) && RuleOf(Join(stored)) == Some([l])
  {
    hide RuleOf, TldLike, IsLower, Split;
    BlankLower([' '], l);
    var ls: Labels := [l] + stored;
    assert ls[1..] == stored && stored[1..] == [[], l] && [[], l][1..] == [l];
    JoinTwo([], l);
    assert Join(stored) == [] + ['.'] + Join([[], l]);
    assert Join(stored) == ['.', '.'] + l;
    assert entry == Join(ls);
    assert NoDots(ls) && AllLower(ls) by {
      EmptyLabelsLower(l, stored);
    }
    JoinLower(ls);
    NormalizeBy(entry, entry, entry);
    RuleOfLabels(entry, ls);
    TwoDots(l);
    RuleOfOne(Join(stored), l);
  }

  lemma EmptyLabelsLower(l: Name, stored: Rule)
    requires TldLike(l) && stored == [[], [], l]
    ensures NoDots([l] + stored) && AllLower([l] + stored)
  {
    BlankLower([' '], l);
  }

  lemma TwoDots(l: Name)
    requires TldLike(l)
    ensures Normalize(['.', '.'] + l) == l
  {
    BlankLower([' '], l);
    var d: Name, g: Name := ['.', '.'] + l, ['.'] + l;
    assert Trim(d, Spaces()) == d by { TrimOne(d, d, Spaces()); }
    assert d[1..] == g && g[1..] == l;
    assert TrimLeft(d, {'.'}) == TrimLeft(g, {'.'}) == TrimLeft(l, {'.'}) == l;
    assert TrimRight(l, {'.'}) == l;
    LowerFixed(l);
  }

  lemma SecondLevel(l: Name, entry: Name)
    requires TldLike(l) && entry == l + ['.'] + l
    ensures RuleOf(entry) == Some([l, l]) && Normalize(entry) == entry != [] && Split(entry) == [l, l]
  {
    hide RuleOf, TldLike, Normalize;
    BlankLower([' '], l);
    assert NoDots([l, l]) && AllLower([l, l]);
    JoinTwo(l, l);
    JoinLower([l, l]);
    NormalizeBy(entry, entry, entry);
    RuleOfLabels(entry, [l, l]);
  }

  /** A rule of more labels than a name has does not match it. */
  lemma LongerMatchesNot(query: Name, r: Rule, ls: Labels)
    requires Split(Normalize(query)) == ls && |r| > |ls|
    ensures !Matches({r}, query)
  {
  }

  lemma MatchedBy(rules: set<Rule>, query: Name, r: Rule)
    requires r in rules && Normalize(query) != [] && Suffix(r, Split(Normalize(query)))
    ensures Matches(rules, query)
  {
  }

  lemma JoinTwo(a: Name, b: Name)
    ensures Join([a, b]) == a + ['.'] + b
  {
    assert [a, b][1..] == [b];
  }

  lemma BlankEntry(blank: Name, tld: Name, entry: Name)
    requires blank == [' '] && TldLike(tld) && entry == ['.'] + (blank + ['.'] + tld)
    ensures RuleOf(entry) == Some([blank, tld]) && RuleOf(blank + ['.'] + tld) == Some([tld])
  {
    hide RuleOf, Normalize, TldLike, IsLower;
    var g: Name, f: Name := ['.'] + tld, blank + ['.'] + tld;
    BlankLower(blank, tld);
    assert entry[1..] == f && f[1..] == g && g[1..] == tld;
    NormalizeBy(entry, entry, f);
    NormalizeBy(f, g, tld);
    RuleOfTwo(entry, blank, tld);
    RuleOfOne(f, tld);
  }

  lemma BlankLower(blank: Name, tld: Name)
    requires blank == [' '] && TldLike(tld)
    ensures '.' !in blank && '.' !in tld && IsLower(tld) && IsLower(blank + ['.'] + tld)
    ensures |tld| > 0 && tld[0] !in Spaces() && tld[|tld| - 1] !in Spaces() && tld[0] != '.' && tld[|tld| - 1] != '.'
  {
    assert tld[0] in tld && tld[|tld| - 1] in tld;
    assert blank[0] == ' ';
    LowerConcat(blank, ['.']);
    LowerConcat(blank + ['.'], tld);
  }

  lemma RuleOfTwo(entry: Name, a: Name, b: Name)
    requires '.' !in a && '.' !in b && Normalize(entry) == a + ['.'] + b
    ensures RuleOf(entry) == Some([a, b])
  {
    SplitCons(a, b);
    SplitLabel(b);
    assert Normalize(entry)[|a|] == '.';
    assert [a] + [b] == [a, b];
  }

  lemma RuleOfOne(entry: Name, bare: Name)
    requires Normalize(entry) == bare && TldLike(bare)
    ensures RuleOf(entry) == Some([bare])
  {
    SplitLabel(bare);
  }

  lemma NormalizeBy(e: Name, f: Name, g: Name)
    requires f != [] && f[0] !in Spaces() && f[|f| - 1] !in Spaces()
    requires g != [] && g[0] != '.' && g[|g| - 1] != '.' && IsLower(g)
    requires e == f || (e != [] && e[0] in Spaces() && e[1..] == f)
    requires f == g || (f[0] == '.' && f[1..] == g)
    ensures Normalize(e) == g
  {
    assert Trim(e, Spaces()) == f by { TrimOne(e, f, Spaces()); }
    assert Trim(f, {'.'}) == g by { TrimOne(f, g, {'.'}); }
    LowerFixed(g);
  }

  lemma TrimOne(e: Name, f: Name, cut: set<char>)
    requires f != [] && f[0] !in cut && f[|f| - 1] !in cut
    requires e == f || (e != [] && e[0] in cut && e[1..] == f)
    ensures Trim(e, cut) == f
  {
    assert TrimLeft(e, cut) == f;
    assert TrimRight(f, cut) == f;
  }
}
