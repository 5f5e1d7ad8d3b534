/** Runs of the peer steps in which calls that overlap leave the kernel wrong, so that the
    conditions of WgPeers are needed. */
module WgRaces {
  import opened Prelude
  import opened WgAddress
  import opened WgKernel
  import opened WgPeers

  lemma More(p: Prefix, states: seq<State>, actions: seq<Action>, a: Action, t: State)
    returns (states': seq<State>, actions': seq<Action>)
    requires IsRun(p, states, actions) && Step(p, states[|actions|], a, t)
    ensures IsRun(p, states', actions') && states' == states + [t] && actions' == actions + [a]
  {
    states', actions' := states + [t], actions + [a];
    forall k | 0 <= k < |actions'| ensures Step(p, states'[k], actions'[k], states'[k + 1]) {
      if k < |actions| {
        assert Step(p, states[k], actions[k], states[k + 1]);
      }
    }
  }

  // ----- what applying one row does -----

  lemma PlanOne(k: Kernel, q: KernelPeer, extras: seq<Key>)
    ensures Plan(k, [q], extras) == Change(k.Keys, q) + Drops(extras)
    ensures Desired([q]) == if q.remove then map[] else map[q.key := q.ip]
  {
    assert [q][..0] == [];
    assert Changes(k.Keys, [q]) == Change(k.Keys, q);
  }

  lemma AppliedPart(k: Kernel, peers: seq<KernelPeer>, extras: seq<Key>, n: nat, ok: bool)
    requires Extras(k, peers, extras) && n <= |Plan(k, peers, extras)| && (ok ==> n == |Plan(k, peers, extras)|)
    ensures Applied(k, peers, ok, Configure(k, Plan(k, peers, extras)[..n]))
  {
  }

  lemma OneConfig(k: Kernel, c: PeerConfig)
    ensures Configure(k, [c]) == Configure1(k, c)
  {
    assert [c][..0] == [];
  }

  lemma ListOne(r: Row)
    ensures KernelPeers([r]) == [KernelPeerOf(r)]
  {
  }

  /** A new peer joins the table. */
  lemma Joins(r: Row)
    requires r.active
    ensures Applied(map[], KernelPeers([r]), true, map[r.key := {r.ip}])
  {
    ListOne(r);
    PlanOne(map[], KernelPeerOf(r), []);
    assert Plan(map[], [KernelPeerOf(r)], [])[..1] == [Set(r.key, r.ip)];
    OneConfig(map[], Set(r.key, r.ip));
    AppliedPart(map[], [KernelPeerOf(r)], [], 1, true);
    assert Configure1(map[], Set(r.key, r.ip)) == map[r.key := {r.ip}];
  }

  /** A list with another peer for the same address stops after its first entry, which takes
      the address away. */
  lemma TakesAddress(a: Row, b: Key)
    requires a.active && a.key != b
    ensures Applied(map[b := {a.ip}], KernelPeers([a]), false, map[b := {}, a.key := {a.ip}])
  {
    hide KernelPeers, Plan, Changes, Configure, Configure1, Desired, Applied;
    var k: Kernel, q := map[b := {a.ip}], KernelPeerOf(a);
    ListOne(a);
    PlanOne(k, q, [b]);
    assert Change(k.Keys, q) == [Set(a.key, a.ip)];
    assert Plan(k, [q], [b])[..1] == [Set(a.key, a.ip)];
    OneConfig(k, Set(a.key, a.ip));
    AppliedPart(k, [q], [b], 1, false);
    Moved(b, a.key, a.ip);
  }

  lemma Moved(b: Key, a: Key, ip: Addr)
    requires a != b
    ensures Configure1(map[b := {ip}], Set(a, ip)) == map[b := {}, a := {ip}]
  {
    assert {ip} - {ip} == {};
  }

  /** The peer that lost its address is not sent again. */
  lemma NotRestored(b: Row, a: Key, ip: Addr)
    requires b.active && a != b.key
    ensures Applied(map[b.key := {}, a := {ip}], KernelPeers([b]), true, map[b.key := {}])
  {
    hide KernelPeers, Changes, Configure, Desired, Applied;
    var k: Kernel := map[b.key := {}, a := {ip}];
    ListOne(b);
    PlanOne(k, KernelPeerOf(b), [a]);
    assert Plan(k, [KernelPeerOf(b)], [a]) == [Drop(a)];
    assert Plan(k, [KernelPeerOf(b)], [a])[..1] == [Drop(a)];
    OneConfig(k, Drop(a));
    AppliedPart(k, [KernelPeerOf(b)], [a], 1, true);
    assert k - {a} == map[b.key := {}];
  }

  // ----- the runs -----

  /** One peer has been added, and its rows have been listed by a reconciliation that has not
      been applied when the peer is deleted. */
  lemma DeletedAfterListing(p: Prefix, ip: Addr, name: string, key: Key) returns (states: seq<State>, actions: seq<Action>)
    requires LeastFree(p, Taken(p, []), Allocated(ip)) && name != ""
    ensures IsRun(p, states, actions)
    ensures states[|actions|] == State([], 1, map[key := ip], [], [[Row(0, name, key, ip, true)]], map[])
  {
    hide LeastFree, Taken;
    var r := Row(0, name, key, ip, true);
    states, actions := [State([], 0, map[], [], [], map[])], [];
    states, actions := More(p, states, actions, Begin(name), State([], 0, map[], [Pending(name, ip)], [], map[]));
    states, actions := More(p, states, actions, Commit(0, key), State([r], 1, map[key := ip], [], [], map[]));
    states, actions := More(p, states, actions, List, State([r], 1, map[key := ip], [], [[r]], map[]));
    assert [r][1..] == [];
    states, actions := More(p, states, actions, Delete(0), State([], 1, map[key := ip], [], [[r]], map[]));
  }

  /** A list read before a peer is deleted and applied after puts the peer back, and the
      application succeeds. */
  lemma DeletedPeerReturns(p: Prefix, ip: Addr, name: string, key: Key) returns (states: seq<State>, actions: seq<Action>)
    requires LeastFree(p, Taken(p, []), Allocated(ip)) && name != ""
    ensures IsRun(p, states, actions) && |actions| > 0 && actions[|actions| - 1] == Apply(0, true)
    ensures var s := states[|actions|];
      s.rows == [] && s.kernel == map[key := {ip}] && !Agrees(s.rows, s.kernel)
  {
    hide Step, Applied;
    states, actions := DeletedAfterListing(p, ip, name, key);
    var r := Row(0, name, key, ip, true);
    Joins(r);
    var t := State([], 1, map[key := ip], [], [], map[key := {ip}]);
    ApplyFirst(p, states[|actions|], true, t);
    states, actions := More(p, states, actions, Apply(0, true), t);
    assert key in t.kernel.Keys && key !in ActiveKeys([]);
  }

  lemma ApplyFirst(p: Prefix, s: State, ok: bool, t: State)
    requires |s.lists| > 0 && Applied(s.kernel, KernelPeers(s.lists[0]), ok, t.kernel)
    requires t == s.(lists := s.lists[1..], kernel := t.kernel)
    ensures Step(p, s, Apply(0, ok), t)
  {
    assert s.lists[..0] + s.lists[1..] == s.lists[1..];
  }

  /** The address of the deleted peer goes to another one; then the old list is applied and
      stops half-way.  The next reconciliation reads the rows and applies them, both without
      trouble, and still leaves the new peer without its address. */
  lemma CutShortLoses(p: Prefix, ip: Addr, names: (string, string), keys: (Key, Key))
    returns (states: seq<State>, actions: seq<Action>)
    requires LeastFree(p, Taken(p, []), Allocated(ip)) && names.0 != "" && names.1 != "" && keys.0 != keys.1
    ensures IsRun(p, states, actions) && |actions| > 0 && actions[|actions| - 1] == Apply(0, true)
    ensures var s, t := states[|actions| - 1], states[|actions|];
      s.lists == [s.rows] && t.rows == [Row(1, names.1, keys.1, ip, true)]
      && t.kernel == map[keys.1 := {}] && !Agrees(t.rows, t.kernel)
  {
    states, actions := DeletedAfterListing(p, ip, names.0, keys.0);
    var a, b := Row(0, names.0, keys.0, ip, true), Row(1, names.1, keys.1, ip, true);
    var ips := map[keys.0 := ip, keys.1 := ip];
    states, actions := Readded(p, ip, names, keys, states, actions);
    hide Step, Applied;
    TakesAddress(a, b.key);
    var cut: State := State([b], 2, ips, [], [], map[b.key := {}, a.key := {ip}]);
    ApplyFirst(p, states[|actions|], false, cut);
    states, actions := More(p, states, actions, Apply(0, false), cut);
    var listed := cut.(lists := [[b]]);
    ListStep(p, cut, listed);
    states, actions := More(p, states, actions, List, listed);
    NotRestored(b, a.key, ip);
    var last: State := State([b], 2, ips, [], [], map[b.key := {}]);
    ApplyFirst(p, listed, true, last);
    states, actions := More(p, states, actions, Apply(0, true), last);
    assert b in last.rows && ip in {ip} && last.kernel[b.key] == {};
  }

  lemma ListStep(p: Prefix, s: State, t: State)
    requires t == s.(lists := s.lists + [s.rows])
    ensures Step(p, s, List, t)
  {
  }

  lemma Readded(p: Prefix, ip: Addr, names: (string, string), keys: (Key, Key), before: seq<State>, done: seq<Action>)
    returns (states: seq<State>, actions: seq<Action>)
    requires LeastFree(p, Taken(p, []), Allocated(ip)) && names.1 != "" && keys.0 != keys.1
    requires IsRun(p, before, done)
    requires before[|done|] == State([], 1, map[keys.0 := ip], [], [[Row(0, names.0, keys.0, ip, true)]], map[])
    ensures IsRun(p, states, actions)
    ensures states[|actions|] == State([Row(1, names.1, keys.1, ip, true)], 2, map[keys.0 := ip, keys.1 := ip], [],
      [[Row(0, names.0, keys.0, ip, true)]], map[keys.1 := {ip}])
  {
    hide LeastFree, Taken, Applied;
    var a, b := Row(0, names.0, keys.0, ip, true), Row(1, names.1, keys.1, ip, true);
    var ips := map[keys.0 := ip, keys.1 := ip];
    states, actions := before, done;
    states, actions := More(p, states, actions, Begin(names.1), State([], 1, map[keys.0 := ip], [Pending(names.1, ip)], [[a]], map[]));
    states, actions := More(p, states, actions, Commit(0, keys.1), State([b], 2, ips, [], [[a]], map[]));
    states, actions := More(p, states, actions, List, State([b], 2, ips, [], [[a], [b]], map[]));
    Joins(b);
    assert [[a], [b]][..1] + [[a], [b]][2..] == [[a]];
    states, actions := More(p, states, actions, Apply(1, true), State([b], 2, ips, [], [[a]], map[b.key := {ip}]));
  }
}
