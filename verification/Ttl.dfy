/** TTL clamping of a reply before it is cached and sent (durations in nanoseconds). */
module Ttl {
  import opened Message

  const SECOND: int := 1_000_000_000
  const WORD: int := 0x1_0000_0000

  function AdjustedMin(min: int): int {
    if min <= 0 then 30 * SECOND else min
  }

  function AdjustedMax(min: int, max: int): int {
    if max <= 0 || max < AdjustedMin(min) then 24 * 3600 * SECOND else max
  }

  /** The smallest positive TTL, or 0 when there is none. */
  function LeastTtl(rs: seq<Record>): (t: nat)
    ensures t == 0 <==> forall r :: r in rs ==> r.ttl == 0
    ensures t > 0 ==> exists r :: r in rs && r.ttl == t
    ensures forall r :: r in rs && r.ttl > 0 ==> t <= r.ttl
  {
    if rs == [] then 0
    else
      var k := |rs| - 1;
      var t := LeastTtl(rs[..k]);
      assert forall r :: r in rs <==> r in rs[..k] || r == rs[k];
      if rs[k].ttl > 0 && (t == 0 || rs[k].ttl < t) then rs[k].ttl else t
  }

  /** The MINIMUM field of the first SOA record, or 0. */
  function SoaMinimum(rs: seq<Record>): nat {
    if rs == [] then 0 else if rs[0].data.SOA? then rs[0].data.minttl else SoaMinimum(rs[1..])
  }

  /** The lifetime of a reply before it is clamped. */
  function Base(v: MsgView): int {
    var t := LeastTtl(v.answer);
    if t > 0 then t * SECOND
    else if SoaMinimum(v.ns) > 0 then SoaMinimum(v.ns) * SECOND
    else 300 * SECOND
  }

  function Clamp(base: int, lo: int, hi: int): int {
    var b := if base < lo then lo else base;
    if b > hi then hi else b
  }

  function Lifetime(v: MsgView, min: int, max: int): int {
    Clamp(Base(v), AdjustedMin(min), AdjustedMax(min, max))
  }

  function Stamp(rs: seq<Record>, ttl: nat): (r: seq<Record>)
    ensures |r| == |rs|
    ensures forall i :: 0 <= i < |rs| ==> r[i] == if rs[i].data.OPT? then rs[i] else rs[i].(ttl := ttl)
  {
    seq(|rs|, i requires 0 <= i < |rs| => if rs[i].data.OPT? then rs[i] else rs[i].(ttl := ttl))
  }

  /** The TTL written, truncated to 32 bits. */
  function Written(v: MsgView, min: int, max: int): nat {
    Lifetime(v, min, max) / SECOND % WORD
  }

  function Clamped(v: MsgView, min: int, max: int): MsgView {
    var t := Written(v, min, max);
    v.(answer := Stamp(v.answer, t), ns := Stamp(v.ns, t), extra := Stamp(v.extra, t))
  }

  /** Sets the TTL of every record that is not an OPT pseudo-record. */
  method StampAll(rrs: seq<RR>, ttl: nat)
    modifies rrs
    ensures forall x :: x in rrs ==> x.ttl == if x.data.OPT? then old(x.ttl) else ttl
  {
    for i := 0 to |rrs|
      invariant forall x :: x in rrs ==>
        x.ttl == (if !x.data.OPT? && x in rrs[..i] then ttl else old(x.ttl))
    {
      if !rrs[i].data.OPT? {
        rrs[i].ttl := ttl;
      }
    }
    assert rrs[..|rrs|] == rrs;
  }

  /** The same on all three sections of a message. */
  method StampMsg(m: Msg, ttl: nat)
    modifies m.answer, m.ns, m.extra
    ensures var v := old(m.View());
      m.View() == v.(answer := Stamp(v.answer, ttl), ns := Stamp(v.ns, ttl), extra := Stamp(v.extra, ttl))
    ensures m.Objects() == old(m.Objects())
  {
    ghost var v := m.View();
    StampAll(m.answer + m.ns + m.extra, ttl);
    assert forall x :: x in m.answer || x in m.ns || x in m.extra ==> x in m.answer + m.ns + m.extra;
    assert Views(m.answer) == Stamp(v.answer, ttl);
    assert Views(m.ns) == Stamp(v.ns, ttl);
    assert Views(m.extra) == Stamp(v.extra, ttl);
  }

  lemma LeastStep(rs: seq<Record>, i: nat)
    requires i < |rs|
    ensures var t := LeastTtl(rs[..i]);
      LeastTtl(rs[..i + 1]) == if rs[i].ttl > 0 && (t == 0 || rs[i].ttl < t) then rs[i].ttl else t
  {
    assert rs[..i + 1][..i] == rs[..i];
  }

  /** The least positive TTL of the answer section, as a duration. */
  method LeastLife(rrs: seq<RR>) returns (base: int)
    ensures base == LeastTtl(Views(rrs)) * SECOND
  {
    base := 0;
    ghost var rs := Views(rrs);
    assert rs[..0] == [];
    assert LeastTtl([]) == 0;
    hide LeastTtl;
    for i := 0 to |rrs|
      invariant base == LeastTtl(rs[..i]) * SECOND
    {
      LeastStep(rs, i);
      var t := rrs[i].ttl;
      if t > 0 && (base == 0 || t * SECOND < base) {
        base := t * SECOND;
      }
    }
    assert rs[..|rs|] == rs;
  }

  /** The SOA minimum of the authority section, as a duration. */
  method SoaLife(rrs: seq<RR>) returns (base: int)
    ensures base == SoaMinimum(Views(rrs)) * SECOND
  {
    ghost var rs := Views(rrs);
    for i := 0 to |rrs|
      invariant SoaMinimum(rs) == SoaMinimum(rs[i..])
    {
      if rrs[i].data.SOA? {
        return rrs[i].data.minttl * SECOND;
      }
    }
    return 0;
  }

  /** The lifetime of a message: its least positive answer TTL, its SOA minimum or five
      minutes, within the bounds. */
  method LifeOf(m: Msg, min: int, max: int) returns (life: int)
    ensures life == Lifetime(m.View(), min, max) && life >= 0
  {
    hide LeastTtl, SoaMinimum;
    var lo := if min <= 0 then 30 * SECOND else min;
    var hi := if max <= 0 || max < lo then 24 * 3600 * SECOND else max;
    var base := LeastLife(m.answer);
    if base == 0 {
      base := SoaLife(m.ns);
    }
    if base == 0 {
      base := 300 * SECOND;
    }
    if base < lo {
      base := lo;
    }
    if base > hi {
      base := hi;
    }
    return base;
  }

  /** Stamps the lifetime on a message, in place, and gives it. */
  method ClampTtls(m: Msg, min: int, max: int) returns (life: int)
    modifies m.answer, m.ns, m.extra
    ensures life == Lifetime(old(m.View()), min, max)
    ensures m.View() == Clamped(old(m.View()), min, max)
    ensures m.Objects() == old(m.Objects())
  {
    hide Lifetime, Stamp;
    life := LifeOf(m, min, max);
    var ttl := life / SECOND % WORD;
    StampMsg(m, ttl);
  }

  // ----- the lifetime, from the records -----

  /** What a reply lives on before the bounds: its least positive answer TTL; without one, the
      MINIMUM of its first SOA record; without that, five minutes. */
  ghost predicate LivesOn(answer: seq<Record>, ns: seq<Record>, base: int) {
    if exists r :: r in answer && r.ttl > 0 then
      && (exists r :: r in answer && r.ttl > 0 && base == r.ttl * 1_000_000_000)
      && (forall r :: r in answer && r.ttl > 0 ==> base <= r.ttl * 1_000_000_000)
    else if exists i :: FirstSoa(ns, i) && ns[i].data.minttl > 0 then
      exists i :: FirstSoa(ns, i) && base == ns[i].data.minttl * 1_000_000_000
    else base == 300_000_000_000
  }

  predicate FirstSoa(ns: seq<Record>, i: int) {
    0 <= i < |ns| && ns[i].data.SOA? && forall j :: 0 <= j < i ==> !ns[j].data.SOA?
  }

  /** The least bound is half a minute when none is set; the greatest is a day when none is set
      or the one set is below the least. */
  ghost predicate Within(base: int, min: int, max: int, life: int) {
    var lo := if min > 0 then min else 30_000_000_000;
    var hi := if max > 0 && max >= lo then max else 86_400_000_000_000;
    && (lo <= base <= hi ==> life == base)
    && (base < lo <= hi ==> life == lo)
    && (base > hi || lo > hi ==> life == hi)
  }

  lemma LifetimeIs(v: MsgView, min: int, max: int)
    ensures exists base :: LivesOn(v.answer, v.ns, base) && Within(base, min, max, Lifetime(v, min, max))
  {
    var i := SoaAt(v.ns);
    var t := LeastTtl(v.answer);
    if t > 0 {
      var r :| r in v.answer && r.ttl == t;
    } else if i >= 0 {
      assert FirstSoa(v.ns, i);
      assert forall j :: FirstSoa(v.ns, j) ==> j == i;
    }
    assert LivesOn(v.answer, v.ns, Base(v));
    assert Within(Base(v), min, max, Lifetime(v, min, max));
  }

  lemma {:induction false} SoaAt(ns: seq<Record>) returns (i: int)
    ensures if i >= 0 then FirstSoa(ns, i) && SoaMinimum(ns) == ns[i].data.minttl
      else SoaMinimum(ns) == 0 && forall j :: 0 <= j < |ns| ==> !ns[j].data.SOA?
  {
    i := -1;
    if ns != [] {
      if ns[0].data.SOA? {
        i := 0;
      } else {
        var k := SoaAt(ns[1..]);
        assert forall j :: 0 < j < |ns| ==> ns[j] == ns[1..][j - 1];
        i := if k >= 0 then k + 1 else -1;
      }
    }
  }

  // ----- what clamping guarantees -----

  /** Whether the adjusted bounds are in order: a minimum above a day needs an explicit
      maximum that is no smaller. */
  predicate BoundsInOrder(min: int, max: int) {
    min <= 24 * 3600 * SECOND || min <= max
  }

  /** The lifetime lies between the adjusted bounds for every message exactly when the
      bounds are in order. */
  lemma WithinBounds(v: MsgView, min: int, max: int)
    ensures AdjustedMin(min) <= Lifetime(v, min, max) <= AdjustedMax(min, max) <==> BoundsInOrder(min, max)
  {
  }

  predicate WireTtls(v: MsgView) {
    && (forall r :: r in v.answer ==> r.ttl < WORD)
    && SoaMinimum(v.ns) < WORD
  }

  /** The TTL written is the lifetime in whole seconds exactly when no minimum of 2^32
      seconds or more gets through. */
  lemma NoOverflow(v: MsgView, min: int, max: int)
    requires WireTtls(v)
    ensures Written(v, min, max) == Lifetime(v, min, max) / SECOND <==> !(WORD * SECOND <= min <= max)
  {
    var t := LeastTtl(v.answer);
    if t > 0 {
      var r :| r in v.answer && r.ttl == t;
    }
    if WORD * SECOND <= min <= max {
      assert Lifetime(v, min, max) == min;
      assert min / SECOND >= WORD;
    } else {
      assert Lifetime(v, min, max) < WORD * SECOND;
    }
  }

  /** No positive answer TTL is raised, except up to the minimum. */
  lemma OnlyRaisedToMinimum(v: MsgView, min: int, max: int, i: nat)
    requires i < |v.answer| && v.answer[i].ttl > 0 && !v.answer[i].data.OPT?
    ensures var t := Clamped(v, min, max).answer[i].ttl;
      t <= v.answer[i].ttl || t * SECOND <= AdjustedMin(min)
  {
    var t0 := v.answer[i].ttl;
    assert v.answer[i] in v.answer;
    assert LeastTtl(v.answer) <= t0;
    var life := Lifetime(v, min, max);
    assert life <= t0 * SECOND || life <= AdjustedMin(min);
    assert life / SECOND % WORD <= life / SECOND;
    assert (life / SECOND) * SECOND <= life;
  }

  /** After clamping, the least answer TTL is the written one, or an OPT record's that is
      no smaller than the lifetime found before. */
  lemma LeastAfter(v: MsgView, min: int, max: int)
    ensures var t, t' := LeastTtl(v.answer), LeastTtl(Clamped(v, min, max).answer);
      var w := Written(v, min, max);
      && (t' > 0 ==> t' == w || (t > 0 && t' >= t))
      && (w > 0 && t' > w ==> forall r :: r in v.answer ==> r.data.OPT?)
      && (t' == 0 ==> t == 0 || w == 0)
  {
    hide LeastTtl, Written, Lifetime;
    var c := Clamped(v, min, max).answer;
    var t, t' := LeastTtl(v.answer), LeastTtl(c);
    if t' > 0 {
      var r :| r in c && r.ttl == t';
      var i :| 0 <= i < |c| && c[i] == r;
      assert v.answer[i] in v.answer;
    }
    forall r | r in v.answer && !r.data.OPT? ensures LeastTtl(c) <= Written(v, min, max) || Written(v, min, max) == 0 {
      var i :| 0 <= i < |c| && v.answer[i] == r;
      assert c[i] in c;
    }
    if t' == 0 && t > 0 {
      var r :| r in v.answer && r.ttl == t;
      var i :| 0 <= i < |c| && v.answer[i] == r;
      assert c[i] in c;
    }
  }

  lemma SoaAfter(rs: seq<Record>, ttl: nat)
    ensures SoaMinimum(Stamp(rs, ttl)) == SoaMinimum(rs)
  {
    if rs != [] {
      assert Stamp(rs, ttl)[1..] == Stamp(rs[1..], ttl);
    }
  }

  /** A second clamp with the same bounds changes no TTL. */
  lemma ClampTwice(v: MsgView, min: int, max: int)
    requires WireTtls(v)
    ensures Clamped(Clamped(v, min, max), min, max) == Clamped(v, min, max)
  {
    var c := Clamped(v, min, max);
    WrittenTwice(v, min, max);
    var t := Written(v, min, max);
    assert Stamp(c.answer, t) == c.answer;
    assert Stamp(c.ns, t) == c.ns;
    assert Stamp(c.extra, t) == c.extra;
  }

  /** When a second pass starts from `b1` instead of `b0`, the whole seconds agree. */
  lemma SecondPass(b0: int, b1: int, lo: int, hi: int)
    requires b0 % SECOND == 0 && b0 >= SECOND
    requires var w := Clamp(b0, lo, hi) / SECOND;
      b1 == b0 || b1 == w * SECOND || (w == 0 && b1 >= SECOND) || b0 <= b1 < w * SECOND
    ensures Clamp(b1, lo, hi) / SECOND == Clamp(b0, lo, hi) / SECOND
  {
    var life := Clamp(b0, lo, hi);
    var w := life / SECOND;
    assert w * SECOND <= life < (w + 1) * SECOND;
  }

  /** Where a second pass starts from. */
  lemma BaseAfter(v: MsgView, min: int, max: int)
    ensures var b0, b1, w := Base(v), Base(Clamped(v, min, max)), Written(v, min, max);
      b1 == b0 || b1 == w * SECOND || (w == 0 && b1 >= SECOND) || b0 <= b1 < w * SECOND
  {
    hide Stamp, Written;
    var c, w := Clamped(v, min, max), Written(v, min, max);
    var t, t' := LeastTtl(v.answer), LeastTtl(c.answer);
    SoaAfter(v.ns, w);
    LeastAfter(v, min, max);
    if t' > w > 0 {
      assert c.answer == v.answer;
    }
  }

  lemma WrittenTwice(v: MsgView, min: int, max: int)
    requires WireTtls(v)
    ensures Written(Clamped(v, min, max), min, max) == Written(v, min, max)
  {
    hide Stamp, Clamped, Base;
    var c, w := Clamped(v, min, max), Written(v, min, max);
    NoOverflow(v, min, max);
    if WORD * SECOND <= min <= max {
      ClampedWire(v, min, max);
      ForcedMinimum(v, min, max);
      ForcedMinimum(c, min, max);
    } else {
      BaseAfter(v, min, max);
      BaseWhole(v);
      SecondPass(Base(v), Base(c), AdjustedMin(min), AdjustedMax(min, max));
    }
  }

  lemma BaseWhole(v: MsgView)
    ensures Base(v) % SECOND == 0 && Base(v) >= SECOND
  {
  }

  lemma ClampedWire(v: MsgView, min: int, max: int)
    requires WireTtls(v)
    ensures var c := Clamped(v, min, max); LeastTtl(c.answer) < WORD && SoaMinimum(c.ns) < WORD
  {
    OptBound(v, Written(v, min, max));
    SoaAfter(v.ns, Written(v, min, max));
  }

  lemma ForcedMinimum(v: MsgView, min: int, max: int)
    requires WORD * SECOND <= min <= max
    requires LeastTtl(v.answer) < WORD && SoaMinimum(v.ns) < WORD
    ensures Lifetime(v, min, max) == min
  {
    hide LeastTtl, SoaMinimum;
  }

  lemma OptBound(v: MsgView, w: nat)
    requires forall r :: r in v.answer ==> r.ttl < WORD
    requires w < WORD
    ensures LeastTtl(Stamp(v.answer, w)) < WORD
  {
    var c := Stamp(v.answer, w);
    if LeastTtl(c) > 0 {
      var r :| r in c && r.ttl == LeastTtl(c);
      var i :| 0 <= i < |c| && c[i] == r;
      assert v.answer[i] in v.answer;
    }
  }
}
