/** The verdict on a name, an allow rule winning over a block rule, and exactly when one pair
    of rule sets blocks every name that another pair blocks. */
module Verdicts {
  import opened Names
  import opened Prelude
  import opened Rules

  /** The verdict: blocked, and not allowed. */
  ghost predicate Decides(blocked: set<Rule>, allowed: set<Rule>, query: Name) {
    !Matches(allowed, query) && Matches(blocked, query)
  }

  /** Every block rule is allowed as a whole already or still matched. */
  ghost predicate StillMatched(blocked: set<Rule>, allowed: set<Rule>, blocked': set<Rule>) {
    forall m :: m in blocked ==> Covered(allowed, m) || Covered(blocked', m)
  }

  /** Wherever a new allow rule meets a block rule, one being a suffix of the other, the names
      of both, those of the longer one, were allowed already. */
  ghost predicate AllowsNoMore(blocked: set<Rule>, allowed: set<Rule>, allowed': set<Rule>) {
    forall x, y :: x in allowed' && x !in allowed && y in blocked ==> Apart(allowed, x, y)
  }

  ghost predicate Apart(allowed: set<Rule>, x: Rule, y: Rule) {
    (Suffix(x, y) ==> Covered(allowed, y)) && (Suffix(y, x) ==> Covered(allowed, x))
  }

  // ----- names that only some rules reach -----

  lemma {:induction false} LabelBound(rules: set<Rule>) returns (n: nat)
    ensures forall r, l :: r in rules && l in r ==> |l| <= n
  {
    n := 0;
    if rules != {} {
      var r :| r in rules;
      n := LabelBound(rules - {r});
      for i := 0 to |r|
        invariant forall s, l :: s in rules - {r} && l in s ==> |l| <= n
        invariant forall j :: 0 <= j < i ==> |r[j]| <= n
      {
        if |r[i]| > n {
          n := |r[i]|;
        }
      }
    }
  }

  /** A label that is in none of the rules. */
  lemma FreshLabel(rules: set<Rule>) returns (z: Name)
    ensures TldLike(z) && forall r :: r in rules ==> z !in r
  {
    var n := LabelBound(rules);
    z := seq(n + 1, _ => 'a');
  }

  /** Below a stored rule, with a first label of its own, there is always a name. */
  lemma NameBelow(z: Name, r: Rule) returns (q: Name)
    requires TldLike(z) && StoredForm(r)
    ensures Normalize(q) != [] && Split(Normalize(q)) == [z] + r
  {
    hide StoredForm, Normalize, Split;
    var ls := [z] + r;
    var d := Join(ls);
    EndsBelow(z, r);
    q := d + ['.'];
    DotTrimmed(d);
    SplitJoin(ls);
  }

  lemma EndsBelow(z: Name, r: Rule)
    requires TldLike(z) && StoredForm(r)
    ensures var ls := [z] + r; var d := Join(ls);
      && NoDots(ls) && IsLower(d) && d != []
      && d[0] !in Spaces() && d[0] != '.' && d[|d| - 1] != '.'
  {
    var ls := [z] + r;
    assert z[0] in z;
    var last := r[|r| - 1];
    assert last in r && last[|last| - 1] in last;
    assert ls[0] == z && ls[|ls| - 1] == last;
    JoinEnds(ls);
    JoinLower(ls);
  }

  lemma DotTrimmed(d: Name)
    requires IsLower(d) && d != [] && d[0] !in Spaces() && d[0] != '.' && d[|d| - 1] != '.'
    ensures Normalize(d + ['.']) == d
  {
    var q := d + ['.'];
    assert Trim(q, Spaces()) == q;
    assert TrimLeft(q, {'.'}) == q;
    assert q[..|q| - 1] == d;
    assert TrimRight(q, {'.'}) == TrimRight(d, {'.'}) == d;
    LowerFixed(d);
  }

  /** A label of no rule in front changes nothing about what the rules match. */
  lemma FreshCovered(rules: set<Rule>, z: Name, r: Labels)
    requires forall x :: x in rules ==> z !in x
    ensures Covered(rules, [z] + r) <==> Covered(rules, r)
  {
    if Covered(rules, [z] + r) {
      var x :| x in rules && Suffix(x, [z] + r);
      assert |x| <= |r|;
      assert Suffix(x, r);
    }
    if Covered(rules, r) {
      var x :| x in rules && Suffix(x, r);
      assert Suffix(x, [z] + r);
    }
  }

  /** A name below `r` that `allowed` does not reach unless it allows all of `r`, and `blocked'`
      not unless it matches all of `r`. */
  lemma Witness(blocked: set<Rule>, allowed: set<Rule>, blocked': set<Rule>, y: Rule, r: Rule) returns (q: Name)
    requires y in blocked && Suffix(y, r) && StoredForm(r) && !Covered(allowed, r)
    ensures Decides(blocked, allowed, q)
    ensures Matches(blocked', q) ==> Covered(blocked', r)
    ensures forall a, x :: x in a && Suffix(x, r) ==> Matches(a, q)
  {
    hide Normalize, Split, StoredForm;
    var z := FreshLabel(allowed + blocked');
    q := NameBelow(z, r);
    FreshCovered(allowed, z, r);
    FreshCovered(blocked', z, r);
    assert Suffix(y, [z] + r);
    forall a, x | x in a && Suffix(x, r) ensures Matches(a, q) {
      assert Suffix(x, [z] + r);
    }
  }

  // ----- the exact condition -----

  /** Every name that one pair of sets blocks another one blocks too exactly when each block
      rule is still matched, or was allowed as a whole, and no new allow rule meets a block
      rule where that was not allowed already. */
  lemma VerdictsKeptIff(blocked: set<Rule>, allowed: set<Rule>, blocked': set<Rule>, allowed': set<Rule>)
    requires forall r :: r in blocked + allowed' ==> StoredForm(r)
    ensures (forall q :: Decides(blocked, allowed, q) ==> Decides(blocked', allowed', q)) <==>
      StillMatched(blocked, allowed, blocked') && AllowsNoMore(blocked, allowed, allowed')
  {
    hide StoredForm, Decides, Covered, Suffix, StillMatched, AllowsNoMore;
    if forall q :: Decides(blocked, allowed, q) ==> Decides(blocked', allowed', q) {
      KeptNeeds(blocked, allowed, blocked', allowed');
    }
    if StillMatched(blocked, allowed, blocked') && AllowsNoMore(blocked, allowed, allowed') {
      forall q | Decides(blocked, allowed, q) ensures Decides(blocked', allowed', q) {
        KeptFollows(blocked, allowed, blocked', allowed', q);
      }
    }
  }

  lemma KeptNeeds(blocked: set<Rule>, allowed: set<Rule>, blocked': set<Rule>, allowed': set<Rule>)
    requires forall r :: r in blocked + allowed' ==> StoredForm(r)
    requires forall q :: Decides(blocked, allowed, q) ==> Decides(blocked', allowed', q)
    ensures StillMatched(blocked, allowed, blocked') && AllowsNoMore(blocked, allowed, allowed')
  {
    hide StoredForm, Matches, Covered;
    forall m | m in blocked && !Covered(allowed, m) ensures Covered(blocked', m) {
      assert m in blocked + allowed' && Suffix(m, m);
      var q := Witness(blocked, allowed, blocked', m, m);
    }
    forall x, y | x in allowed' && y in blocked ensures Apart(allowed, x, y) {
      assert y in blocked + allowed' && x in blocked + allowed' && Suffix(x, x) && Suffix(y, y);
      if Suffix(x, y) && !Covered(allowed, y) {
        var q := Witness(blocked, allowed, blocked', y, y);
        assert false;
      }
      if Suffix(y, x) && !Covered(allowed, x) {
        var q := Witness(blocked, allowed, blocked', y, x);
        assert false;
      }
    }
  }

  lemma KeptFollows(blocked: set<Rule>, allowed: set<Rule>, blocked': set<Rule>, allowed': set<Rule>, q: Name)
    requires StillMatched(blocked, allowed, blocked') && AllowsNoMore(blocked, allowed, allowed')
    requires Decides(blocked, allowed, q)
    ensures Decides(blocked', allowed', q)
  {
    hide Normalize, Split;
    var ls := Split(Normalize(q));
    var y :| y in blocked && Suffix(y, ls);
    if Covered(allowed, y) {
      CoveredUp(allowed, y, ls);
    }
    CoveredUp(blocked', y, ls);
    if Covered(allowed', ls) {
      var x :| x in allowed' && Suffix(x, ls);
      Comparable(x, y, ls);
      assert Apart(allowed, x, y);
      if Suffix(x, y) {
        CoveredUp(allowed, y, ls);
      } else {
        CoveredUp(allowed, x, ls);
      }
    }
  }

  lemma CoveredUp(rules: set<Rule>, r: Rule, ls: Labels)
    requires Covered(rules, r) && Suffix(r, ls)
    ensures Covered(rules, ls)
  {
    var x :| x in rules && Suffix(x, r);
    SuffixTransitive(x, r, ls);
  }

  lemma Comparable(a: Labels, b: Labels, ls: Labels)
    requires Suffix(a, ls) && Suffix(b, ls)
    ensures Suffix(a, b) || Suffix(b, a)
  {
    if |a| <= |b| {
      assert b[|b| - |a|..] == ls[|ls| - |b|..][|b| - |a|..] == ls[|ls| - |a|..];
    } else {
      assert a[|a| - |b|..] == ls[|ls| - |a|..][|a| - |b|..] == ls[|ls| - |b|..];
    }
  }

  // ----- sets that are enumerated and added again -----

  /** The condition on the block rules, when the enumeration of the old ones is among the new
      ones: only enumerated rules that do not survive the round trip matter. */
  lemma StillMatchedIff(blocked: set<Rule>, allowed: set<Rule>, blocked': set<Rule>)
    requires (forall r :: r in blocked ==> StoredForm(r)) && Reread(blocked) <= blocked'
    ensures StillMatched(blocked, allowed, blocked') <==>
      forall m :: m in Minimal(blocked) && !Stable(m) ==> Covered(allowed, m) || Covered(blocked', m)
  {
    hide StoredForm, Reread, Stable;
    if forall m :: m in Minimal(blocked) && !Stable(m) ==> Covered(allowed, m) || Covered(blocked', m) {
      forall r | r in blocked ensures Covered(allowed, r) || Covered(blocked', r) {
        var m := MinimalBelow(blocked, r);
        if Stable(m) {
          StableKept(blocked, m);
          assert Suffix(m, m);
        }
        if Covered(allowed, m) {
          CoveredUp(allowed, m, r);
        } else {
          CoveredUp(blocked', m, r);
        }
      }
    }
  }

  /** The rule `x` comes back as `w` when it is written out and added. */
  predicate ReadAs(x: Rule, w: Rule) {
    |x| >= 1 && RuleOf(Join(x)) == Some(w)
  }

  lemma InReread(rules: set<Rule>, w: Rule)
    ensures w in Reread(rules) <==> exists x :: x in Minimal(rules) && ReadAs(x, w)
  {
  }

  /** Both sets written out and added again: which verdicts are kept, as a condition on the
      old sets alone.  Only rules that do not survive the round trip matter. */
  lemma RereadVerdictsIff(blocked: set<Rule>, allowed: set<Rule>)
    requires forall r :: r in blocked + allowed ==> StoredForm(r)
    ensures (forall q :: Decides(blocked, allowed, q) ==> Decides(Reread(blocked), Reread(allowed), q)) <==>
      && (forall m :: m in Minimal(blocked) && !Stable(m) ==> Covered(allowed, m) || Covered(Reread(blocked), m))
      && (forall x, w, y :: x in Minimal(allowed) && !Stable(x) && ReadAs(x, w) && y in blocked ==> Apart(allowed, w, y))
  {
    RereadForm(allowed);
    assert forall r :: r in blocked ==> r in blocked + allowed;
    assert forall r :: r in allowed ==> r in blocked + allowed;
    VerdictsKeptIff(blocked, allowed, Reread(blocked), Reread(allowed));
    StillMatchedIff(blocked, allowed, Reread(blocked));
    AllowsNoMoreIff(blocked, allowed);
  }

  lemma RereadForm(rules: set<Rule>)
    requires forall r :: r in rules ==> StoredForm(r)
    ensures forall r :: r in Reread(rules) ==> StoredForm(r)
  {
    forall r | r in Reread(rules) ensures StoredForm(r) {
      var m :| m in Minimal(rules) && |m| >= 1 && RuleOf(Join(m)) == Some(r);
      RuleOfForm(Join(m));
    }
  }

  lemma AllowsNoMoreIff(blocked: set<Rule>, allowed: set<Rule>)
    requires forall r :: r in allowed ==> StoredForm(r)
    ensures AllowsNoMore(blocked, allowed, Reread(allowed)) <==>
      forall x, w, y :: x in Minimal(allowed) && !Stable(x) && ReadAs(x, w) && y in blocked ==> Apart(allowed, w, y)
  {
    hide Stable, ReadAs, Reread, Apart, StoredForm;
    if AllowsNoMore(blocked, allowed, Reread(allowed)) {
      forall x, w, y | x in Minimal(allowed) && ReadAs(x, w) && y in blocked ensures Apart(allowed, w, y) {
        InReread(allowed, w);
        if w in allowed {
          MemberApart(allowed, w, y);
        }
      }
    }
    if forall x, w, y :: x in Minimal(allowed) && !Stable(x) && ReadAs(x, w) && y in blocked ==> Apart(allowed, w, y) {
      forall w, y | w in Reread(allowed) && w !in allowed && y in blocked ensures Apart(allowed, w, y) {
        InReread(allowed, w);
        var x :| x in Minimal(allowed) && ReadAs(x, w);
        ReadStable(x, w);
      }
    }
  }

  lemma ReadStable(x: Rule, w: Rule)
    requires StoredForm(x) && ReadAs(x, w)
    ensures Stable(x) ==> w == x
  {
    RoundTripIff(x);
  }

  lemma MemberApart(allowed: set<Rule>, x: Rule, y: Rule)
    requires x in allowed
    ensures Apart(allowed, x, y)
  {
    assert Suffix(x, x);
  }
}
