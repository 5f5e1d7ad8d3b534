/** ASCII domain names and the string operations the filter applies to them. */
module Names {

  type Ascii = c: char | c as int < 128 witness 'a'
  type Name = seq<Ascii>
  type Labels = seq<Name>

  function Spaces(): set<char> {
    {' ', '\t', '\n', '\U{000B}', '\U{000C}', '\r'}
  }

  function LowerChar(c: Ascii): (r: Ascii)
    ensures !('A' <= r <= 'Z') && (r == '.' <==> c == '.')
  {
    if 'A' <= c <= 'Z' then (c as int + 32) as char else c
  }

  function Lower(s: Name): (r: Name)
    ensures |r| == |s|
    ensures forall i :: 0 <= i < |s| ==> r[i] == LowerChar(s[i])
  {
    seq(|s|, i requires 0 <= i < |s| => LowerChar(s[i]))
  }

  predicate IsLower(s: Name) {
    forall c :: c in s ==> !('A' <= c <= 'Z')
  }

  lemma LowerFixed(s: Name)
    requires IsLower(s)
    ensures Lower(s) == s
  {
    assert forall i :: 0 <= i < |s| ==> s[i] in s;
  }

  // ----- letter case -----

  /** The same character, or the same place in the two alphabets A..Z and a..z. */
  predicate SameLetter(c: Ascii, d: Ascii) {
    || c == d
    || ('A' <= c <= 'Z' && 'a' <= d <= 'z' && c as int - 'A' as int == d as int - 'a' as int)
    || ('a' <= c <= 'z' && 'A' <= d <= 'Z' && c as int - 'a' as int == d as int - 'A' as int)
  }

  /** The same name up to case. */
  predicate SameName(a: Name, b: Name) {
    |a| == |b| && forall i :: 0 <= i < |a| ==> SameLetter(a[i], b[i])
  }

  /** Names have one lower-case form exactly when they are the same up to case; it is itself
      the same name, and has no capitals. */
  lemma LowerIsCase(a: Name, b: Name)
    ensures Lower(a) == Lower(b) <==> SameName(a, b)
    ensures SameName(Lower(a), a) && forall i :: 0 <= i < |a| ==> !('A' <= Lower(a)[i] <= 'Z')
    ensures (forall i :: 0 <= i < |a| ==> !('A' <= a[i] <= 'Z')) ==> Lower(a) == a
  {
    if SameName(a, b) {
      forall i | 0 <= i < |a| ensures Lower(a)[i] == Lower(b)[i] {
        assert SameLetter(a[i], b[i]);
      }
    }
    if Lower(a) == Lower(b) {
      forall i | 0 <= i < |a| ensures SameLetter(a[i], b[i]) {
        assert LowerChar(a[i]) == Lower(a)[i] == LowerChar(b[i]);
      }
    }
  }

  /** The white space that is trimmed: tab to carriage return, and the space. */
  lemma SpacesAre(c: Ascii)
    ensures c in Spaces() <==> c as int == 32 || 9 <= c as int <= 13
  {
  }

  function TrimLeft(s: Name, cut: set<char>): (r: Name)
    ensures |r| <= |s|
    ensures r == [] || r[0] !in cut
    ensures if s != [] && s[0] in cut then |r| < |s| else r == s
  {
    if s != [] && s[0] in cut then TrimLeft(s[1..], cut) else s
  }

  function TrimRight(s: Name, cut: set<char>): (r: Name)
    ensures |r| <= |s|
    ensures r == [] || (r[|r| - 1] !in cut && s != [] && r[0] == s[0])
    ensures if s != [] && s[|s| - 1] in cut then |r| < |s| else r == s
  {
    if s != [] && s[|s| - 1] in cut then TrimRight(s[..|s| - 1], cut) else s
  }

  /** Strips leading and trailing characters of `cut`. */
  function Trim(s: Name, cut: set<char>): (r: Name)
    ensures |r| <= |s|
    ensures r == [] || (r[0] !in cut && r[|r| - 1] !in cut)
    ensures |r| == |s| <==> (s == [] || (s[0] !in cut && s[|s| - 1] !in cut))
    ensures |r| == |s| ==> r == s
  {
    TrimRight(TrimLeft(s, cut), cut)
  }

  /** Nothing but characters of `cut` is stripped, and all of them at either end. */
  lemma TrimExact(s: Name, cut: set<char>) returns (i: nat, j: nat)
    ensures i <= j <= |s| && Trim(s, cut) == s[i..j]
    ensures forall k :: 0 <= k < i || j <= k < |s| ==> s[k] in cut
    ensures i < j ==> s[i] !in cut && s[j - 1] !in cut
  {
    i := TrimLeftExact(s, cut);
    var k := TrimRightExact(s[i..], cut);
    j := i + k;
    assert forall x :: j <= x < |s| ==> s[x] == s[i..][x - i];
  }

  lemma {:induction false} TrimLeftExact(s: Name, cut: set<char>) returns (i: nat)
    ensures i <= |s| && TrimLeft(s, cut) == s[i..] && forall k :: 0 <= k < i ==> s[k] in cut
  {
    i := 0;
    if s != [] && s[0] in cut {
      var n := TrimLeftExact(s[1..], cut);
      assert forall k :: 1 <= k < n + 1 ==> s[k] == s[1..][k - 1];
      i := n + 1;
    }
  }

  lemma {:induction false} TrimRightExact(s: Name, cut: set<char>) returns (j: nat)
    ensures j <= |s| && TrimRight(s, cut) == s[..j] && forall k :: j <= k < |s| ==> s[k] in cut
  {
    j := |s|;
    if s != [] && s[|s| - 1] in cut {
      j := TrimRightExact(s[..|s| - 1], cut);
      assert forall k :: j <= k < |s| - 1 ==> s[k] == s[..|s| - 1][k];
    }
  }

  /** Strips one trailing dot, if there is one. */
  function TrimDot(s: Name): Name {
    if s != [] && s[|s| - 1] == '.' then s[..|s| - 1] else s
  }

  function Normalize(s: Name): (r: Name)
    ensures |r| <= |s|
    ensures IsLower(r)
    ensures r == [] || (r[0] != '.' && r[|r| - 1] != '.')
  {
    var t := Trim(Trim(s, Spaces()), {'.'});
    assert IsLower(Lower(t)) by {
      forall c | c in Lower(t) ensures !('A' <= c <= 'Z') {
        var i :| 0 <= i < |t| && Lower(t)[i] == c;
      }
    }
    Lower(t)
  }

  /** A lower-case name is left alone exactly when neither end is a dot or a blank;
      otherwise it gets shorter. */
  lemma NormalizeFixed(s: Name)
    requires IsLower(s)
    ensures Normalize(s) == s <==> |Normalize(s)| == |s|
    ensures Normalize(s) == s <==>
      (s == [] || (s[0] !in Spaces() + {'.'} && s[|s| - 1] !in Spaces() + {'.'}))
  {
    LowerFixed(s);
    var t := Trim(s, Spaces());
    if |t| == |s| {
      assert t == s;
      assert |Normalize(s)| == |Trim(t, {'.'})|;
    } else {
      assert |Normalize(s)| <= |t| < |s|;
    }
  }

  /** Splits at every dot; a name always has at least one label. */
  function Split(s: Name): (r: Labels)
    ensures |r| >= 1
  {
    if s == [] then [[]]
    else
      var r := Split(s[1..]);
      if s[0] == '.' then [[]] + r else [[s[0]] + r[0]] + r[1..]
  }

  function Join(ls: Labels): Name
    requires |ls| >= 1
  {
    if |ls| == 1 then ls[0] else ls[0] + ['.'] + Join(ls[1..])
  }

  predicate NoDots(ls: Labels) {
    forall l :: l in ls ==> '.' !in l
  }

  lemma {:induction false} JoinSplit(s: Name)
    ensures Join(Split(s)) == s
    ensures NoDots(Split(s))
  {
    if s != [] {
      JoinSplit(s[1..]);
      var r := Split(s[1..]);
      assert s == [s[0]] + s[1..];
      assert r == [r[0]] + r[1..];
      if s[0] == '.' {
        assert ([[]] + r)[1..] == r;
      } else {
        assert ([[s[0]] + r[0]] + r[1..])[1..] == r[1..];
        forall l | l in Split(s) ensures '.' !in l {
          assert l == [s[0]] + r[0] || l in r;
        }
      }
    }
  }

  lemma {:induction false} SplitLabel(l: Name)
    requires '.' !in l
    ensures Split(l) == [l]
  {
    if l != [] {
      assert l == [l[0]] + l[1..];
      SplitLabel(l[1..]);
    }
  }

  lemma {:induction false} SplitCons(l: Name, rest: Name)
    requires '.' !in l
    ensures Split(l + ['.'] + rest) == [l] + Split(rest)
  {
    var s := l + ['.'] + rest;
    if l == [] {
      assert s == ['.'] + rest;
      assert s[1..] == rest;
    } else {
      assert l == [l[0]] + l[1..];
      assert s[1..] == l[1..] + ['.'] + rest;
      SplitCons(l[1..], rest);
      assert Split(s) == [[s[0]] + l[1..]] + Split(rest);
    }
  }

  lemma {:induction false} SplitJoin(ls: Labels)
    requires |ls| >= 1 && NoDots(ls)
    ensures Split(Join(ls)) == ls
  {
    if |ls| == 1 {
      SplitLabel(ls[0]);
      assert ls == [ls[0]];
    } else {
      assert NoDots(ls[1..]);
      SplitJoin(ls[1..]);
      SplitCons(ls[0], Join(ls[1..]));
      assert ls == [ls[0]] + ls[1..];
    }
  }

  /** The length of a joined name, and its two ends. */
  lemma {:induction false} JoinEnds(ls: Labels)
    requires |ls| >= 1
    ensures ls[0] != [] ==> Join(ls) != [] && Join(ls)[0] == ls[0][0]
    ensures ls[0] == [] && |ls| > 1 ==> Join(ls)[0] == '.'
    ensures var z := ls[|ls| - 1]; z != [] ==> Join(ls) != [] && Join(ls)[|Join(ls)| - 1] == z[|z| - 1]
    ensures |ls| > 1 ==> |Join(ls)| == |ls[0]| + 1 + |Join(ls[1..])|
  {
    if |ls| > 1 {
      JoinEnds(ls[1..]);
    }
  }

  predicate AllLower(ls: Labels) {
    forall l :: l in ls ==> IsLower(l)
  }

  lemma LowerConcat(a: Name, b: Name)
    ensures IsLower(a + b) <==> IsLower(a) && IsLower(b)
  {
    forall i | 0 <= i < |a| ensures a[i] in a + b {
      assert (a + b)[i] == a[i];
    }
    forall i | 0 <= i < |b| ensures b[i] in a + b {
      assert (a + b)[|a| + i] == b[i];
    }
  }

  lemma {:induction false} JoinLower(ls: Labels)
    requires |ls| >= 1
    ensures IsLower(Join(ls)) <==> AllLower(ls)
  {
    if |ls| == 1 {
      assert ls == [ls[0]];
    } else {
      JoinLower(ls[1..]);
      LowerConcat(ls[0], ['.']);
      LowerConcat(ls[0] + ['.'], Join(ls[1..]));
      assert ls == [ls[0]] + ls[1..];
    }
  }

  // ----- label suffixes -----

  predicate Suffix(a: Labels, b: Labels) {
    |a| <= |b| && b[|b| - |a|..] == a
  }

  lemma SuffixTransitive(a: Labels, b: Labels, c: Labels)
    requires Suffix(a, b) && Suffix(b, c)
    ensures Suffix(a, c)
  {
    assert c[|c| - |a|..] == c[|c| - |b|..][|b| - |a|..];
  }

  /** A name is a subdomain of every name formed by its last labels. */
  lemma {:induction false} SplitSuffix(sub: Name, parent: Name)
    ensures Suffix(Split(parent), Split(sub + ['.'] + parent))
  {
    var s := sub + ['.'] + parent;
    if sub == [] {
      assert s[1..] == parent;
    } else {
      assert s[1..] == sub[1..] + ['.'] + parent;
      SplitSuffix(sub[1..], parent);
      var r, p := Split(s[1..]), Split(parent);
      if s[0] == '.' {
        SuffixTransitive(p, r, Split(s));
      } else {
        // The longer name has at least one more label than the parent.
        SplitCount(sub[1..], parent);
        assert Split(s)[|r| - |p|..] == r[|r| - |p|..];
      }
    }
  }

  lemma {:induction false} SplitCount(sub: Name, parent: Name)
    ensures |Split(sub + ['.'] + parent)| > |Split(parent)|
  {
    var s := sub + ['.'] + parent;
    if sub == [] {
      assert s[1..] == parent;
    } else {
      assert s[1..] == sub[1..] + ['.'] + parent;
      SplitCount(sub[1..], parent);
    }
  }

  // ----- label suffixes as text -----

  /** `a` is `b`, or what follows some dot of `b`. */
  predicate AfterDot(a: Name, b: Name, k: nat) {
    k <= |b| && (k == 0 || b[k - 1] == '.') && b[k..] == a
  }

  /** The labels of one name are the last labels of another exactly when its text is all of
      that one's or follows one of its dots. */
  lemma {:induction false} SuffixText(a: Name, b: Name)
    ensures Suffix(Split(a), Split(b)) <==> exists k :: AfterDot(a, b, k)
  {
    if exists k :: AfterDot(a, b, k) {
      var k :| AfterDot(a, b, k);
      if k == 0 {
        assert a == b;
      } else {
        assert b == b[..k - 1] + ['.'] + a;
        SplitSuffix(b[..k - 1], a);
      }
    }
    if Suffix(Split(a), Split(b)) {
      JoinSplit(a);
      JoinSplit(b);
      var k := JoinSuffix(Split(a), Split(b));
    }
  }

  lemma {:induction false} JoinSuffix(a: Labels, b: Labels) returns (k: nat)
    requires |a| >= 1 && Suffix(a, b)
    ensures AfterDot(Join(a), Join(b), k)
    decreases b
  {
    if |a| == |b| {
      assert b[0..] == b;
      k := 0;
    } else {
      assert b[1..][|b| - 1 - |a|..] == b[|b| - |a|..];
      var j := JoinSuffix(a, b[1..]);
      k := |b[0]| + 1 + j;
      var rest := Join(b[1..]);
      assert Join(b) == b[0] + ['.'] + rest;
      assert Join(b)[k..] == rest[j..];
      assert Join(b)[k - 1] == if j == 0 then '.' else rest[j - 1];
    }
  }
}
