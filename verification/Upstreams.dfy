/** The counters of one upstream.  Exchanges run at the same time and update the counters
    one at a time, so the machine below has one step for each load and each store. */
module Upstreams {
  import opened Prelude

  datatype Counters = Counters(healthy: bool, inflight: int, fails: int, latency: nat)

  /** Where an exchange is: waiting for the answer; counted as a failure; about to mark the
      upstream unhealthy; counted as a success; about to read and to store the latency; done. */
  datatype Phase = Asking | Failed | Marking | Answered(sample: nat) | Timed(sample: nat) | Averaging(sample: nat, prev: nat) | Leaving

  datatype State = State(c: Counters, running: map<nat, Phase>)

  /** One step of exchange `t`; `Revive` is the store of a probe or of the browser fallback. */
  datatype Action =
    | Start(t: nat) | Fail(t: nat) | Check(t: nat) | Mark(t: nat)
    | Succeed(t: nat, sample: nat) | Restore(t: nat) | Read(t: nat) | Store(t: nat)
    | Leave(t: nat) | Revive

  const FRESH := Counters(true, 0, 0, 0)

  /** The new average of an old latency and a sample; zero stands for no latency yet. */
  function Ema(prev: nat, sample: nat): nat {
    if prev == 0 then sample else (prev * 3 + sample) / 4
  }

  predicate Enabled(s: State, a: Action) {
    match a
    case Start(t) => t !in s.running
    case Fail(t) => t in s.running && s.running[t].Asking?
    case Check(t) => t in s.running && s.running[t].Failed?
    case Mark(t) => t in s.running && s.running[t].Marking?
    case Succeed(t, _) => t in s.running && s.running[t].Asking?
    case Restore(t) => t in s.running && s.running[t].Answered?
    case Read(t) => t in s.running && s.running[t].Timed?
    case Store(t) => t in s.running && s.running[t].Averaging?
    case Leave(t) => t in s.running && s.running[t].Leaving?
    case Revive => true
  }

  function Apply(s: State, a: Action): State
    requires Enabled(s, a)
  {
    match a
    case Start(t) => State(s.c.(inflight := s.c.inflight + 1), s.running[t := Asking])
    case Fail(t) => State(s.c.(fails := s.c.fails + 1), s.running[t := Failed])
    case Check(t) => State(s.c, s.running[t := if s.c.fails >= 2 then Marking else Leaving])
    case Mark(t) => State(s.c.(healthy := false), s.running[t := Leaving])
    case Succeed(t, sample) => State(s.c.(fails := 0), s.running[t := Answered(sample)])
    case Restore(t) => State(s.c.(healthy := true), s.running[t := Timed(s.running[t].sample)])
    case Read(t) => State(s.c, s.running[t := Averaging(s.running[t].sample, s.c.latency)])
    case Store(t) => State(s.c.(latency := Ema(s.running[t].prev, s.running[t].sample)), s.running[t := Leaving])
    case Leave(t) => State(s.c.(inflight := s.c.inflight - 1), s.running - {t})
    case Revive => State(s.c.(healthy := true), s.running)
  }

  function After(s: State, actions: seq<Action>): Option<State> {
    if actions == [] then Some(s)
    else
      match After(s, actions[..|actions| - 1])
      case None => None
      case Some(u) => if Enabled(u, actions[|actions| - 1]) then Some(Apply(u, actions[|actions| - 1])) else None
  }

  /** One more step. */
  lemma Go(s: State, actions: seq<Action>, u: State, a: Action) returns (actions': seq<Action>, u': State)
    requires After(s, actions) == Some(u) && Enabled(u, a)
    ensures actions' == actions + [a] && u' == Apply(u, a) && After(s, actions') == Some(u')
  {
    actions', u' := actions + [a], Apply(u, a);
    assert (actions + [a])[..|actions|] == actions;
  }

  // ----- what holds in every interleaving -----

  /** The failures since the last success. */
  function FailsSince(actions: seq<Action>): nat {
    if actions == [] then 0
    else
      match actions[|actions| - 1]
      case Fail(_) => FailsSince(actions[..|actions| - 1]) + 1
      case Succeed(_, _) => 0
      case _ => FailsSince(actions[..|actions| - 1])
  }

  /** At some time two failures had followed each other without a success. */
  ghost predicate TwoInARow(actions: seq<Action>) {
    exists k :: 0 <= k <= |actions| && FailsSince(actions[..k]) >= 2
  }

  /** A sample was measured that is at most, and one that is at least, `x`. */
  ghost predicate Bounded(actions: seq<Action>, x: nat) {
    && (exists a :: a in actions && a.Succeed? && a.sample <= x)
    && (exists a :: a in actions && a.Succeed? && x <= a.sample)
  }

  ghost predicate PhaseOk(actions: seq<Action>, p: Phase) {
    match p
    case Marking => TwoInARow(actions)
    case Answered(sample) => Bounded(actions, sample)
    case Timed(sample) => Bounded(actions, sample)
    case Averaging(sample, prev) => Bounded(actions, sample) && (prev == 0 || Bounded(actions, prev))
    case _ => true
  }

  ghost predicate Inv(actions: seq<Action>, s: State) {
    && s.c.inflight == |s.running|
    && s.c.fails == FailsSince(actions)
    && (!s.c.healthy ==> TwoInARow(actions))
    && (forall t :: t in s.running ==> PhaseOk(actions, s.running[t]))
    && (s.c.latency == 0 || Bounded(actions, s.c.latency))
    && ((exists a :: a in actions && a.Store?) ==> Bounded(actions, s.c.latency))
  }

  lemma EmaBetween(prev: nat, sample: nat)
    ensures prev != 0 && prev <= sample ==> prev <= Ema(prev, sample) <= sample
    ensures prev != 0 && prev >= sample ==> sample <= Ema(prev, sample) <= prev
  {
  }

  lemma Later(actions: seq<Action>, a: Action)
    ensures TwoInARow(actions) ==> TwoInARow(actions + [a])
    ensures forall x :: Bounded(actions, x) ==> Bounded(actions + [a], x)
    ensures FailsSince(actions + [a]) ==
      match a case Fail(_) => FailsSince(actions) + 1 case Succeed(_, _) => 0 case _ => FailsSince(actions)
  {
    assert (actions + [a])[..|actions|] == actions;
    if TwoInARow(actions) {
      var k :| 0 <= k <= |actions| && FailsSince(actions[..k]) >= 2;
      assert (actions + [a])[..k] == actions[..k];
    }
    assert forall b :: b in actions ==> b in actions + [a];
  }

  lemma PhaseLater(actions: seq<Action>, a: Action, p: Phase)
    requires PhaseOk(actions, p)
    ensures PhaseOk(actions + [a], p)
  {
    hide FailsSince, TwoInARow, Bounded;
    Later(actions, a);
  }

  lemma Average(actions: seq<Action>, prev: nat, sample: nat)
    requires Bounded(actions, sample) && (prev == 0 || Bounded(actions, prev))
    ensures Bounded(actions, Ema(prev, sample))
  {
    EmaBetween(prev, sample);
  }

  lemma InvStep(actions: seq<Action>, s: State, a: Action)
    requires Inv(actions, s) && Enabled(s, a)
    ensures Inv(actions + [a], Apply(s, a))
  {
    hide FailsSince, Bounded, TwoInARow, Ema;
    var after, t := actions + [a], Apply(s, a);
    Later(actions, a);
    Counted(s, a);
    forall i | i in t.running ensures PhaseOk(after, t.running[i]) {
      if i in s.running && s.running[i] == t.running[i] {
        PhaseLater(actions, a, s.running[i]);
      } else {
        Moved(actions, s, a, i);
      }
    }
    if a.Store? {
      assert PhaseOk(actions, s.running[a.t]);
      Average(actions, s.running[a.t].prev, s.running[a.t].sample);
    }
    if a.Mark? {
      assert PhaseOk(actions, s.running[a.t]);
    }
    assert forall b :: b in after && b.Store? ==> b in actions || b == a;
  }

  /** The exchange that takes the step moves to a phase that fits the run. */
  lemma Moved(actions: seq<Action>, s: State, a: Action, i: nat)
    requires Inv(actions, s) && Enabled(s, a) && i in Apply(s, a).running
    requires i !in s.running || s.running[i] != Apply(s, a).running[i]
    ensures PhaseOk(actions + [a], Apply(s, a).running[i])
  {
    hide FailsSince, Ema;
    Later(actions, a);
    match a
    case Check(t) =>
      assert (actions + [a])[..|actions|] == actions;
    case Succeed(t, sample) =>
      assert a in actions + [a];
    case Restore(t) =>
      assert PhaseOk(actions, s.running[t]);
    case Read(t) =>
      assert PhaseOk(actions, s.running[t]);
    case _ =>
  }

  lemma Counted(s: State, a: Action)
    requires Enabled(s, a) && s.c.inflight == |s.running|
    ensures Apply(s, a).c.inflight == |Apply(s, a).running|
  {
    if !a.Start? && !a.Leave? && !a.Revive? {
      assert Apply(s, a).running.Keys == s.running.Keys;
    } else if a.Leave? {
      assert (s.running - {a.t}).Keys == s.running.Keys - {a.t};
    }
  }

  /** In every interleaving the in-flight count is the number of running exchanges, the
      failure count is the number of failures since the last success, no upstream is ever
      marked unhealthy on a single failure, and the latency lies between the smallest and
      the largest sample. */
  lemma {:induction false} EveryInterleaving(actions: seq<Action>)
    requires After(State(FRESH, map[]), actions).Some?
    ensures Inv(actions, After(State(FRESH, map[]), actions).value)
  {
    hide Enabled, Apply;
    if actions != [] {
      var rest, a := actions[..|actions| - 1], actions[|actions| - 1];
      EveryInterleaving(rest);
      assert actions == rest + [a];
      InvStep(rest, After(State(FRESH, map[]), rest).value, a);
    }
  }

  // ----- one exchange at a time -----

  predicate OneAtATime(s: State, actions: seq<Action>)
    requires After(s, actions).Some?
  {
    |After(s, actions).value.running| <= 1 && (actions == [] || OneAtATime(s, actions[..|actions| - 1]))
  }

  /** What the counters say, by the phase of the only exchange; `revived` tells whether a
      probe or the fallback has ever set the upstream healthy. */
  predicate Settled(c: Counters, p: Phase, revived: bool) {
    match p
    case Failed => (!c.healthy ==> c.fails >= 3) && (!revived && c.fails >= 3 ==> !c.healthy)
    case Marking => c.fails >= 2
    case Answered(_) => c.fails == 0
    case _ => Quiet(c, revived)
  }

  predicate Quiet(c: Counters, revived: bool) {
    (!c.healthy ==> c.fails >= 2) && (!revived && c.fails >= 2 ==> !c.healthy)
  }

  predicate Calm(s: State, revived: bool) {
    if s.running == map[] then Quiet(s.c, revived)
    else forall t :: t in s.running ==> Settled(s.c, s.running[t], revived)
  }

  /** When exchanges run one at a time, an upstream that is unhealthy between them has
      failed at least twice in a row; without revivals it is unhealthy exactly then. */
  lemma {:induction false} Sequential(actions: seq<Action>)
    requires After(State(FRESH, map[]), actions).Some? && OneAtATime(State(FRESH, map[]), actions)
    ensures var s := After(State(FRESH, map[]), actions).value;
      s.running == map[] ==> (!s.c.healthy ==> s.c.fails >= 2) && (Revive !in actions ==> (s.c.healthy <==> s.c.fails < 2))
    ensures Calm(After(State(FRESH, map[]), actions).value, Revive in actions)
  {
    if actions != [] {
      var rest, a := actions[..|actions| - 1], actions[|actions| - 1];
      Sequential(rest);
      assert actions == rest + [a];
      CalmStep(After(State(FRESH, map[]), rest).value, a, Revive in rest);
    }
  }

  lemma CalmStep(s: State, a: Action, revived: bool)
    requires Calm(s, revived) && Enabled(s, a) && |s.running| <= 1 && |Apply(s, a).running| <= 1
    ensures Calm(Apply(s, a), revived || a == Revive)
  {
    var u := Apply(s, a);
    if a.Revive? {
    } else {
      Only(s.running, a.t);
      Only(u.running, a.t);
    }
  }

  lemma Only(m: map<nat, Phase>, t: nat)
    requires |m| <= 1
    ensures t in m ==> forall u :: u in m ==> u == t
    ensures t in m ==> m - {t} == map[]
  {
    if t in m {
      assert |m.Keys - {t}| == |m.Keys| - 1;
      assert m.Keys - {t} == {};
    }
  }

  // ----- exchanges that overlap -----

  /** No success is counted while an exchange that saw two failures has still to mark the
      upstream. */
  predicate NoLateMark(s: State, actions: seq<Action>)
    requires After(s, actions).Some?
  {
    actions == [] ||
    (NoLateMark(s, actions[..|actions| - 1])
     && (actions[|actions| - 1].Succeed? ==> NoneMarking(After(s, actions[..|actions| - 1]).value)))
  }

  predicate NoneMarking(s: State) {
    forall t :: t in s.running ==> !s.running[t].Marking?
  }

  /** An upstream about to be marked, or marked, has failed twice in a row, unless a success is
      about to restore it. */
  ghost predicate Watched(s: State) {
    && (forall t :: t in s.running && s.running[t].Marking? ==> s.c.fails >= 2)
    && (!s.c.healthy ==> s.c.fails >= 2 || exists t :: t in s.running && s.running[t].Answered?)
  }

  lemma WatchedStep(s: State, a: Action)
    requires Watched(s) && Enabled(s, a) && (a.Succeed? ==> NoneMarking(s))
    ensures Watched(Apply(s, a))
  {
    var u := Apply(s, a);
    if !a.Restore? && !a.Revive? && exists t :: t in s.running && s.running[t].Answered? {
      var t :| t in s.running && s.running[t].Answered?;
      assert t in u.running && u.running[t].Answered?;
    }
    if a.Succeed? {
      assert a.t in u.running && u.running[a.t].Answered?;
    }
  }

  /** However exchanges overlap, if no success is counted between a check that saw two failures
      and its mark, an upstream that is unhealthy at rest has failed at least twice in a row. */
  lemma {:induction false} AtRest(actions: seq<Action>)
    requires After(State(FRESH, map[]), actions).Some? && NoLateMark(State(FRESH, map[]), actions)
    ensures Watched(After(State(FRESH, map[]), actions).value)
    ensures var s := After(State(FRESH, map[]), actions).value;
      s.running == map[] && !s.c.healthy ==> s.c.fails >= 2 && FailsSince(actions) >= 2
  {
    EveryInterleaving(actions);
    if actions != [] {
      var rest, a := actions[..|actions| - 1], actions[|actions| - 1];
      AtRest(rest);
      WatchedStep(After(State(FRESH, map[]), rest).value, a);
    }
  }

  /** Otherwise they can leave an upstream unhealthy although the last answer it
      gave was a success and no failure has followed: a check that saw two failures marks it
      after the success has been counted. */
  lemma LateMark() returns (actions: seq<Action>, s: State)
    ensures After(State(FRESH, map[]), actions) == Some(s)
    ensures s.running == map[] && !s.c.healthy && s.c.fails == 0
  {
    var s0 := State(FRESH, map[]);
    actions, s := [], s0;
    assert After(s0, actions) == Some(s);
    hide After;
    // one failure
    actions, s := Go(s0, actions, s, Start(0));
    actions, s := Go(s0, actions, s, Fail(0));
    actions, s := Go(s0, actions, s, Check(0));
    actions, s := Go(s0, actions, s, Leave(0));
    // a second one, seen by its check
    actions, s := Go(s0, actions, s, Start(1));
    actions, s := Go(s0, actions, s, Fail(1));
    actions, s := Go(s0, actions, s, Check(1));
    // a whole successful exchange
    actions, s := Go(s0, actions, s, Start(2));
    actions, s := Go(s0, actions, s, Succeed(2, 1));
    actions, s := Go(s0, actions, s, Restore(2));
    actions, s := Go(s0, actions, s, Read(2));
    actions, s := Go(s0, actions, s, Store(2));
    actions, s := Go(s0, actions, s, Leave(2));
    // the mark that was still to come
    actions, s := Go(s0, actions, s, Mark(1));
    actions, s := Go(s0, actions, s, Leave(1));
  }

  // ----- one exchange from start to end -----

  /** How an exchange ends: with an error, or with an answer after some time. */
  datatype NetResult = Failure | Reply(sample: nat)

  /** The counters after an exchange that runs alone. */
  function Exchanged(c: Counters, o: NetResult): Counters {
    match o
    case Failure => c.(fails := c.fails + 1, healthy := c.healthy && c.fails + 1 < 2)
    case Reply(sample) => Counters(true, c.inflight, 0, Ema(c.latency, sample))
  }

  /** An exchange that runs alone leaves exactly these counters. */
  lemma Alone(c: Counters, o: NetResult) returns (actions: seq<Action>)
    ensures After(State(c, map[]), actions) == Some(State(Exchanged(c, o), map[]))
  {
    var s0 := State(c, map[]);
    var s := s0;
    actions := [];
    assert After(s0, actions) == Some(s);
    hide After;
    actions, s := Go(s0, actions, s, Start(0));
    if o.Failure? {
      actions, s := Go(s0, actions, s, Fail(0));
      actions, s := Go(s0, actions, s, Check(0));
      if s.c.fails >= 2 {
        actions, s := Go(s0, actions, s, Mark(0));
      }
    } else {
      actions, s := Go(s0, actions, s, Succeed(0, o.sample));
      actions, s := Go(s0, actions, s, Restore(0));
      actions, s := Go(s0, actions, s, Read(0));
      actions, s := Go(s0, actions, s, Store(0));
    }
    actions, s := Go(s0, actions, s, Leave(0));
    assert s.running == map[];
  }

  // ----- the average under steady samples -----

  /** The new average is three parts the old one and one part the sample, rounded down; the
      first sample is taken as it is. */
  lemma EmaWeights(prev: nat, sample: nat)
    ensures prev == 0 ==> Ema(prev, sample) == sample
    ensures prev > 0 ==> 3 * prev + sample - 3 <= 4 * Ema(prev, sample) <= 3 * prev + sample
  {
  }

  /** The latency after `n` more samples `b`. */
  function Averaged(a: nat, b: nat, n: nat): nat
    decreases n
  {
    if n == 0 then a else Averaged(Ema(a, b), b, n - 1)
  }

  /** Where it ends: at the sample from above and from zero, but up to three below it from
      below, because the division rounds down. */
  function Limit(a: nat, b: nat): nat {
    if a == 0 || a >= b then b else if b - a <= 3 then a else b - 3
  }

  function Gap(a: nat, b: nat): nat {
    if a < b then b - a else a - b
  }

  lemma LimitKept(a: nat, b: nat)
    requires b > 0
    ensures Limit(Ema(a, b), b) == Limit(a, b)
    ensures a != 0 && a != Limit(a, b) ==> Gap(Ema(a, b), b) < Gap(a, b)
    ensures a == Limit(a, b) ==> Ema(a, b) == a
  {
  }

  /** Under equal positive samples the average reaches its limit within as many steps as
      the first latency is away from the sample, and stays there. */
  lemma {:induction false} Settles(a: nat, b: nat, n: nat)
    requires b > 0 && n > 0 && (a == 0 || n >= Gap(a, b))
    ensures Averaged(a, b, n) == Limit(a, b)
    ensures b - 3 <= Averaged(a, b, n) <= b
    decreases n
  {
    LimitKept(a, b);
    if a == 0 {
      LimitStays(b, b, n - 1);
    } else if a == Limit(a, b) {
      LimitStays(a, b, n);
    } else if n == 1 {
    } else {
      Settles(Ema(a, b), b, n - 1);
    }
  }

  lemma {:induction false} LimitStays(a: nat, b: nat, n: nat)
    requires b > 0 && a == Limit(a, b)
    ensures Averaged(a, b, n) == a
  {
    LimitKept(a, b);
    if n > 0 {
      LimitStays(a, b, n - 1);
    }
  }
}
