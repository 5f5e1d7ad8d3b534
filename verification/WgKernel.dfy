/** The kernel's peer table and its reconciliation with a desired peer list by a diff. */
module WgKernel {
  import opened WgAddress

  type Key = string

  /** Each peer with its allowed addresses.  An address belongs to at most one peer: giving
      it to another peer moves it. */
  type Kernel = map<Key, set<Addr>>

  datatype KernelPeer = KernelPeer(key: Key, ip: Addr, remove: bool)

  /** One entry of a device configuration: remove a peer, or set it to one address. */
  datatype PeerConfig = Drop(key: Key) | Set(key: Key, ip: Addr)

  /** How a call can fail: the device cannot be read, or configuring it stops early. */
  datatype Fault = NoFault | NoDevice | StopsAfter(n: nat)

  function Configure1(k: Kernel, c: PeerConfig): Kernel {
    match c
    case Drop(key) => k - {key}
    case Set(key, ip) => (map x | x in k :: k[x] - {ip})[key := {ip}]
  }

  function Configure(k: Kernel, cs: seq<PeerConfig>): Kernel {
    if cs == [] then k else Configure1(Configure(k, cs[..|cs| - 1]), cs[|cs| - 1])
  }

  lemma {:induction false} ConfigureConcat(k: Kernel, a: seq<PeerConfig>, b: seq<PeerConfig>)
    ensures Configure(k, a + b) == Configure(Configure(k, a), b)
  {
    if b == [] {
      assert a + b == a;
    } else {
      assert (a + b)[..|a + b| - 1] == a + b[..|b| - 1];
      ConfigureConcat(k, a, b[..|b| - 1]);
    }
  }

  /** The peers that are wanted, with their addresses. */
  function Desired(peers: seq<KernelPeer>): map<Key, Addr> {
    if peers == [] then map[]
    else
      var p := peers[|peers| - 1];
      var rest := Desired(peers[..|peers| - 1]);
      if p.remove then rest else rest[p.key := p.ip]
  }

  /** The entry the first loop makes for one peer: only new and revoked ones get any. */
  function Change(existing: set<Key>, p: KernelPeer): seq<PeerConfig> {
    if p.remove then (if p.key in existing then [Drop(p.key)] else [])
    else if p.key in existing then [] else [Set(p.key, p.ip)]
  }

  function Changes(existing: set<Key>, peers: seq<KernelPeer>): seq<PeerConfig> {
    if peers == [] then []
    else Changes(existing, peers[..|peers| - 1]) + Change(existing, peers[|peers| - 1])
  }

  function Drops(keys: seq<Key>): (r: seq<PeerConfig>)
    ensures |r| == |keys| && forall i :: 0 <= i < |keys| ==> r[i] == Drop(keys[i])
  {
    seq(|keys|, i requires 0 <= i < |keys| => Drop(keys[i]))
  }

  /** `extras` lists the existing peers that are not wanted. */
  ghost predicate Extras(k: Kernel, peers: seq<KernelPeer>, extras: seq<Key>) {
    forall x :: x in extras <==> x in k && x !in Desired(peers)
  }

  /** The configuration that one reconciliation sends. */
  function Plan(k: Kernel, peers: seq<KernelPeer>, extras: seq<Key>): seq<PeerConfig> {
    Changes(k.Keys, peers) + Drops(extras)
  }

  /** What a reconciliation may leave: a success carries out a whole plan, a failure some
      first part of one. */
  ghost predicate Applied(k: Kernel, peers: seq<KernelPeer>, ok: bool, k': Kernel) {
    exists extras, n: nat ::
      Extras(k, peers, extras) && n <= |Plan(k, peers, extras)| && (ok ==> n == |Plan(k, peers, extras)|)
      && k' == Configure(k, Plan(k, peers, extras)[..n])
  }

  class Manager {
    var kernel: Kernel

    constructor ()
      ensures kernel == map[]
    {
      kernel := map[];
    }

    /** Reconciles the kernel peers with the desired list. */
    method ApplyPeers(peers: seq<KernelPeer>, fault: Fault) returns (ok: bool)
      modifies this
      ensures Applied(old(kernel), peers, ok, kernel)
      ensures fault == NoFault ==> ok
    {
      ghost var k := kernel;
      if fault.NoDevice? {
        NothingApplied(k, peers);
        return false;
      }
      var existing := kernel.Keys;
      var desired: set<Key> := {};
      var cfgs := [];
      for i := 0 to |peers|
        invariant desired == Desired(peers[..i]).Keys
        invariant cfgs == Changes(existing, peers[..i])
      {
        assert peers[..i + 1][..i] == peers[..i];
        var p := peers[i];
        if p.remove {
          if p.key in existing {
            cfgs := cfgs + [Drop(p.key)];
          }
        } else {
          desired := desired + {p.key};
          if p.key !in existing {
            cfgs := cfgs + [Set(p.key, p.ip)];
          }
        }
      }
      assert peers[..|peers|] == peers;
      var todo := existing;
      ghost var extras: seq<Key> := [];
      while todo != {}
        invariant todo <= existing
        invariant forall x :: x in extras <==> x in existing - todo && x !in desired
        invariant cfgs == Changes(existing, peers) + Drops(extras)
        decreases todo
      {
        var pub :| pub in todo;
        todo := todo - {pub};
        if pub !in desired {
          cfgs := cfgs + [Drop(pub)];
          extras := extras + [pub];
        }
      }
      assert Extras(k, peers, extras);
      assert cfgs == Plan(k, peers, extras);
      if |cfgs| == 0 {
        assert cfgs[..0] == cfgs;
        return true;
      }
      var n := if fault.StopsAfter? && fault.n < |cfgs| then fault.n else |cfgs|;
      assert cfgs[..n] == Plan(k, peers, extras)[..n];
      kernel := Configure(kernel, cfgs[..n]);
      return !fault.StopsAfter?;
    }
  }

  lemma NothingApplied(k: Kernel, peers: seq<KernelPeer>)
    ensures Applied(k, peers, false, k)
  {
    var extras := ListOf(k.Keys - Desired(peers).Keys);
    assert Extras(k, peers, extras);
    assert Configure(k, Plan(k, peers, extras)[..0]) == k;
  }

  lemma {:induction false} ListOf(s: set<Key>) returns (l: seq<Key>)
    ensures forall x :: x in l <==> x in s
  {
    if s == {} {
      l := [];
    } else {
      var x :| x in s;
      var rest := ListOf(s - {x});
      l := rest + [x];
    }
  }

  // ----- what a successful reconciliation leaves -----

  /** No key and no address appears twice in the list. */
  predicate DistinctPeers(peers: seq<KernelPeer>) {
    forall i, j :: 0 <= i < j < |peers| ==> peers[i].key != peers[j].key && peers[i].ip != peers[j].ip
  }

  /** The addresses given to peers that are new. */
  function NewIps(existing: set<Key>, peers: seq<KernelPeer>): set<Addr> {
    set p | p in peers && !p.remove && p.key !in existing :: p.ip
  }

  /** Existing peers keep what they have, less the addresses moved to new peers. */
  function Reconciled(k: Kernel, peers: seq<KernelPeer>): Kernel {
    map x | x in Desired(peers) :: if x in k then k[x] - NewIps(k.Keys, peers) else {Desired(peers)[x]}
  }

  predicate Wanted(peers: seq<KernelPeer>, x: Key) {
    exists p :: p in peers && !p.remove && p.key == x
  }

  predicate Revoked(peers: seq<KernelPeer>, x: Key) {
    exists p :: p in peers && p.remove && p.key == x
  }

  lemma DesiredSnoc(rest: seq<KernelPeer>, p: KernelPeer)
    ensures Desired(rest + [p]) == if p.remove then Desired(rest) else Desired(rest)[p.key := p.ip]
  {
    assert (rest + [p])[..|rest|] == rest;
  }

  lemma {:induction false} InDesired(peers: seq<KernelPeer>, x: Key)
    ensures x in Desired(peers) <==> Wanted(peers, x)
  {
    if peers != [] {
      var rest, last := peers[..|peers| - 1], peers[|peers| - 1];
      InDesired(rest, x);
      assert peers == rest + [last];
    }
  }

  /** With distinct keys, a wanted peer is wanted at its own address. */
  lemma {:induction false} DesiredAt(peers: seq<KernelPeer>, i: nat)
    requires DistinctPeers(peers) && i < |peers| && !peers[i].remove
    ensures peers[i].key in Desired(peers) && Desired(peers)[peers[i].key] == peers[i].ip
  {
    if i < |peers| - 1 {
      DesiredAt(peers[..|peers| - 1], i);
    }
  }

  lemma DesiredOf(peers: seq<KernelPeer>, x: Key)
    requires DistinctPeers(peers) && x in Desired(peers)
    ensures exists p :: p in peers && !p.remove && p.key == x && p.ip == Desired(peers)[x]
  {
    InDesired(peers, x);
    var p :| p in peers && !p.remove && p.key == x;
    var i :| 0 <= i < |peers| && peers[i] == p;
    DesiredAt(peers, i);
  }

  /** The table after the first loop's changes. */
  function Changed(k: Kernel, peers: seq<KernelPeer>): Kernel {
    map x | x in k.Keys + Desired(peers).Keys && !Revoked(peers, x)
      :: if x in k then k[x] - NewIps(k.Keys, peers) else {Desired(peers)[x]}
  }

  lemma {:induction false} ChangesApplied(k: Kernel, peers: seq<KernelPeer>)
    requires DistinctPeers(peers)
    ensures Configure(k, Changes(k.Keys, peers)) == Changed(k, peers)
  {
    if peers == [] {
      assert NewIps(k.Keys, peers) == {};
      assert forall x :: x in k ==> k[x] - {} == k[x];
      assert Changed(k, peers) == k;
    } else {
      hide Changed, Change, DistinctPeers;
      var rest, p := peers[..|peers| - 1], peers[|peers| - 1];
      assert peers == rest + [p];
      Alone(rest, p);
      ChangesApplied(k, rest);
      ConfigureConcat(k, Changes(k.Keys, rest), Change(k.Keys, p));
      ChangeApplied(k, rest, p);
    }
  }

  lemma ChangeApplied(k: Kernel, rest: seq<KernelPeer>, p: KernelPeer)
    requires DistinctPeers(rest + [p])
    ensures Configure(Changed(k, rest), Change(k.Keys, p)) == Changed(k, rest + [p])
  {
    hide Changed, Configure1;
    var was := Changed(k, rest);
    if !p.remove && p.key !in k {
      NewPeer(k, rest, p);
      ConfigureOne(was, Set(p.key, p.ip));
    } else {
      OldPeer(k, rest, p);
      ConfigureOne(was, Drop(p.key));
    }
  }

  lemma ConfigureOne(k: Kernel, c: PeerConfig)
    ensures Configure(k, [c]) == Configure1(k, c)
    ensures c.Drop? ==> Configure1(k, c) == k - {c.key}
  {
  }

  lemma OldPeer(k: Kernel, rest: seq<KernelPeer>, p: KernelPeer)
    requires DistinctPeers(rest + [p]) && (p.remove || p.key in k)
    ensures Changed(k, rest + [p]) == if p.remove && p.key in k then Changed(k, rest) - {p.key} else Changed(k, rest)
  {
    hide Desired, NewIps, Revoked, DistinctPeers;
    DesiredSnoc(rest, p);
    Alone(rest, p);
    RevokedSnoc(rest, p);
    NewIpsSnoc(k.Keys, rest, p);
  }

  lemma NewPeer(k: Kernel, rest: seq<KernelPeer>, p: KernelPeer)
    requires DistinctPeers(rest + [p]) && !p.remove && p.key !in k
    ensures Changed(k, rest + [p]) == Configure1(Changed(k, rest), Set(p.key, p.ip))
  {
    hide Desired, NewIps, Revoked, DistinctPeers;
    var was, now := Changed(k, rest), Changed(k, rest + [p]);
    DesiredSnoc(rest, p);
    Alone(rest, p);
    RevokedSnoc(rest, p);
    NewIpsSnoc(k.Keys, rest, p);
    forall x | x in was ensures now[x] == was[x] - {p.ip} {
      if x in k {
        assert now[x] == k[x] - (NewIps(k.Keys, rest) + {p.ip});
      } else {
        assert Desired(rest)[x] != p.ip;
      }
    }
  }

  lemma RevokedSnoc(rest: seq<KernelPeer>, p: KernelPeer)
    ensures forall x :: Revoked(rest + [p], x) <==> Revoked(rest, x) || (p.remove && p.key == x)
  {
    assert forall q :: q in rest + [p] <==> q in rest || q == p;
  }

  lemma NewIpsSnoc(existing: set<Key>, rest: seq<KernelPeer>, p: KernelPeer)
    ensures NewIps(existing, rest + [p]) ==
      if p.remove || p.key in existing then NewIps(existing, rest) else NewIps(existing, rest) + {p.ip}
  {
    assert forall q :: q in rest + [p] <==> q in rest || q == p;
  }

  /** The last peer shares nothing with the ones before it. */
  lemma Alone(rest: seq<KernelPeer>, p: KernelPeer)
    requires DistinctPeers(rest + [p])
    ensures DistinctPeers(rest)
    ensures !Revoked(rest, p.key) && p.key !in Desired(rest)
    ensures forall x :: x in Desired(rest) ==> Desired(rest)[x] != p.ip
  {
    forall i, j | 0 <= i < j < |rest| ensures rest[i].key != rest[j].key && rest[i].ip != rest[j].ip {
      assert (rest + [p])[i] == rest[i] && (rest + [p])[j] == rest[j];
    }
    forall q | q in rest ensures q.key != p.key && q.ip != p.ip {
      var i :| 0 <= i < |rest| && rest[i] == q;
      assert (rest + [p])[i] == q && (rest + [p])[|rest|] == p;
    }
    InDesired(rest, p.key);
    forall x | x in Desired(rest) ensures Desired(rest)[x] != p.ip {
      DesiredOf(rest, x);
    }
  }

  lemma {:induction false} DropsApplied(k: Kernel, keys: seq<Key>)
    ensures Configure(k, Drops(keys)) == k - (set x | x in keys)
  {
    if keys != [] {
      var rest, last := keys[..|keys| - 1], keys[|keys| - 1];
      DropsApplied(k, rest);
      assert Drops(keys)[..|keys| - 1] == Drops(rest);
      assert keys == rest + [last];
    }
  }

  /** A successful reconciliation leaves exactly the wanted peers; those that existed are
      not sent again, so they keep their old addresses. */
  lemma ApplyExact(k: Kernel, peers: seq<KernelPeer>, k': Kernel)
    requires DistinctPeers(peers) && Applied(k, peers, true, k')
    ensures k' == Reconciled(k, peers)
  {
    var extras, n: nat :| Extras(k, peers, extras) && n == |Plan(k, peers, extras)|
      && k' == Configure(k, Plan(k, peers, extras)[..n]);
    hide Changed, Changes, Drops, DistinctPeers, Reconciled, Configure, Extras;
    assert Plan(k, peers, extras)[..n] == Plan(k, peers, extras);
    ConfigureConcat(k, Changes(k.Keys, peers), Drops(extras));
    ChangesApplied(k, peers);
    DropsApplied(Changed(k, peers), extras);
    ExtrasGone(k, peers, extras);
  }

  lemma NotRevoked(peers: seq<KernelPeer>, x: Key)
    requires DistinctPeers(peers) && x in Desired(peers)
    ensures !Revoked(peers, x)
  {
    DesiredOf(peers, x);
  }

  lemma ExtrasGone(k: Kernel, peers: seq<KernelPeer>, extras: seq<Key>)
    requires DistinctPeers(peers) && Extras(k, peers, extras)
    ensures Changed(k, peers) - (set x | x in extras) == Reconciled(k, peers)
  {
    hide NewIps, Revoked, Desired, DistinctPeers;
    forall x | x in Desired(peers) ensures !Revoked(peers, x) {
      NotRevoked(peers, x);
    }
  }

  /** So the table is the wanted one exactly when every wanted peer that existed had its own
      address and no other, apart from addresses that move to new peers. */
  lemma AgreesIff(k: Kernel, peers: seq<KernelPeer>, k': Kernel)
    requires DistinctPeers(peers) && Applied(k, peers, true, k')
    ensures k' == (map x | x in Desired(peers) :: {Desired(peers)[x]}) <==>
      forall x :: x in Desired(peers) && x in k ==> k[x] - NewIps(k.Keys, peers) == {Desired(peers)[x]}
  {
    ApplyExact(k, peers, k');
    var want := map x | x in Desired(peers) :: {Desired(peers)[x]};
    if k' == want {
      forall x | x in Desired(peers) && x in k ensures k[x] - NewIps(k.Keys, peers) == {Desired(peers)[x]} {
        assert k'[x] == want[x];
      }
    }
  }

  /** The condition matters: a wanted peer that the device holds with another address keeps
      that address through a reconciliation that succeeds. */
  lemma ForeignAddressStays(key: Key, ip: Addr, foreign: Addr)
    requires ip != foreign
    ensures var k, peers := map[key := {foreign}], [KernelPeer(key, ip, false)];
      Applied(k, peers, true, k) && k != map[key := {ip}] && Desired(peers) == map[key := ip]
  {
    var k, p := map[key := {foreign}], KernelPeer(key, ip, false);
    assert [p][..0] == [];
    assert Changes(k.Keys, [p]) == Changes(k.Keys, []) + Change(k.Keys, p);
    assert Plan(k, [p], []) == [];
    assert Extras(k, [p], []);
    assert k == Configure(k, Plan(k, [p], [])[..0]);
    assert foreign in k[key] && foreign !in map[key := {ip}][key];
  }

  // ----- what every reconciliation keeps, successful or not -----

  /** Every listed peer that is in the table has exactly its own address there. */
  predicate OwnAddresses(k: Kernel, peers: seq<KernelPeer>) {
    forall p :: p in peers && p.key in k ==> k[p.key] == {p.ip}
  }

  lemma {:induction false} ConfigureKeeps(k: Kernel, peers: seq<KernelPeer>, cs: seq<PeerConfig>)
    requires DistinctPeers(peers) && OwnAddresses(k, peers)
    requires SetsListed(peers, cs)
    ensures OwnAddresses(Configure(k, cs), peers)
  {
    if cs != [] {
      var rest, c := cs[..|cs| - 1], cs[|cs| - 1];
      assert cs == rest + [c];
      ConfigureKeeps(k, peers, rest);
      if c.Set? {
        var q :| q in peers && q.key == c.key && q.ip == c.ip;
        forall p | p in peers && p.key in Configure(k, cs) ensures Configure(k, cs)[p.key] == {p.ip} {
          assert p.key == q.key <==> p == q;
          assert p.ip == q.ip <==> p == q;
        }
      }
    }
  }

  /** What a plan sets are listed peers that are wanted, at their own addresses. */
  predicate SetsListed(peers: seq<KernelPeer>, cs: seq<PeerConfig>) {
    forall c :: c in cs && c.Set? ==> exists p :: p in peers && !p.remove && p.key == c.key && p.ip == c.ip
  }

  lemma {:induction false} ChangesListed(existing: set<Key>, peers: seq<KernelPeer>)
    ensures SetsListed(peers, Changes(existing, peers))
  {
    if peers != [] {
      var rest, p := peers[..|peers| - 1], peers[|peers| - 1];
      ChangesListed(existing, rest);
      assert peers == rest + [p];
    }
  }

  /** A reconciliation, successful or not, is a sequence of entries that set listed peers. */
  lemma AppliedEntries(k: Kernel, peers: seq<KernelPeer>, ok: bool, k': Kernel) returns (cs: seq<PeerConfig>)
    requires Applied(k, peers, ok, k')
    ensures k' == Configure(k, cs) && SetsListed(peers, cs)
  {
    var extras, n: nat :| Extras(k, peers, extras) && n <= |Plan(k, peers, extras)|
      && k' == Configure(k, Plan(k, peers, extras)[..n]);
    ChangesListed(k.Keys, peers);
    cs := Plan(k, peers, extras)[..n];
    assert forall c :: c in cs ==> c in Changes(k.Keys, peers) || c in Drops(extras);
  }

  /** Whether it succeeds or stops early, a reconciliation never gives a listed peer
      another address than its own. */
  lemma ApplyKeeps(k: Kernel, peers: seq<KernelPeer>, ok: bool, k': Kernel)
    requires DistinctPeers(peers) && OwnAddresses(k, peers) && Applied(k, peers, ok, k')
    ensures OwnAddresses(k', peers)
    ensures forall x :: x in k' ==> x in k || exists p :: p in peers && p.key == x
  {
    var cs := AppliedEntries(k, peers, ok, k');
    ConfigureKeeps(k, peers, cs);
    ConfigureKeys(k, peers, cs);
  }

  lemma {:induction false} ConfigureKeys(k: Kernel, peers: seq<KernelPeer>, cs: seq<PeerConfig>)
    requires SetsListed(peers, cs)
    ensures forall x :: x in Configure(k, cs) ==> x in k || exists p :: p in peers && p.key == x
  {
    if cs != [] {
      assert cs == cs[..|cs| - 1] + [cs[|cs| - 1]];
      ConfigureKeys(k, peers, cs[..|cs| - 1]);
    }
  }
}
