/** The peer table and the steps that change it and the kernel.  Picking an address and
    inserting the row are two steps of an AddPeer call, and listing the rows and applying the
    list are two steps of a reconciliation, so that the steps of other calls can come between. */
module WgPeers {
  import opened Prelude
  import opened WgAddress
  import opened WgKernel

  datatype Row = Row(id: nat, name: string, key: Key, ip: Addr, active: bool)

  /** An AddPeer call that has picked an address but not inserted its row. */
  datatype Pending = Pending(name: string, ip: Addr)

  /** The rows in order of id, the next id, every key seen so far with the address picked for
      it, the calls between pick and insert, the lists read but not applied yet, and the
      kernel table. */
  datatype State = State(
    rows: seq<Row>, nextId: nat, ips: map<Key, Addr>, pending: seq<Pending>, lists: seq<seq<Row>>, kernel: Kernel)

  datatype Action =
    | Begin(name: string)
    | Commit(i: nat, key: Key)
    | Delete(id: nat)
    | SetActive(id: nat, active: bool)
    | List
    | Apply(i: nat, ok: bool)
    | Down

  predicate Named(rows: seq<Row>, name: string) {
    exists r :: r in rows && r.name == name
  }

  /** The addresses of all rows, revoked ones included, and the gateway if there is one. */
  function Taken(p: Prefix, rows: seq<Row>): set<Addr> {
    (set r | r in rows :: r.ip) + match ServerIp(p) case None => {} case Some(a) => {a}
  }

  /** The UNIQUE columns. */
  predicate Clashes(rows: seq<Row>, r: Row) {
    exists q :: q in rows && (q.name == r.name || q.key == r.key || q.ip == r.ip)
  }

  /** An insert that the UNIQUE columns may refuse. */
  function Insert(rows: seq<Row>, r: Row): seq<Row> {
    if Clashes(rows, r) then rows else rows + [r]
  }

  function DeleteRow(rows: seq<Row>, id: nat): seq<Row> {
    if rows == [] then []
    else if rows[0].id == id then DeleteRow(rows[1..], id)
    else [rows[0]] + DeleteRow(rows[1..], id)
  }

  function UpdateActive(rows: seq<Row>, id: nat, active: bool): (r: seq<Row>)
    ensures |r| == |rows|
    ensures forall i :: 0 <= i < |r| ==> r[i] == if rows[i].id == id then rows[i].(active := active) else rows[i]
  {
    seq(|rows|, i requires 0 <= i < |rows| => if rows[i].id == id then rows[i].(active := active) else rows[i])
  }

  function KernelPeerOf(r: Row): KernelPeer {
    KernelPeer(r.key, r.ip, !r.active)
  }

  /** The kernel list: every row, newest first, revoked ones marked for removal. */
  function KernelPeers(rows: seq<Row>): (r: seq<KernelPeer>)
    ensures |r| == |rows|
    ensures forall i :: 0 <= i < |r| ==> r[i] == KernelPeerOf(rows[|rows| - 1 - i])
  {
    seq(|rows|, i requires 0 <= i < |rows| => KernelPeerOf(rows[|rows| - 1 - i]))
  }

  ghost predicate Step(p: Prefix, s: State, a: Action, t: State) {
    match a
    case Begin(name) =>
      name != "" && !Named(s.rows, name)
      && exists ip :: LeastFree(p, Taken(p, s.rows), Allocated(ip)) && t == s.(pending := s.pending + [Pending(name, ip)])
    case Commit(i, key) =>
      i < |s.pending| && key !in s.ips
      && t == s.(
        rows := Insert(s.rows, Row(s.nextId, s.pending[i].name, key, s.pending[i].ip, true)),
        nextId := s.nextId + 1,
        ips := s.ips[key := s.pending[i].ip],
        pending := s.pending[..i] + s.pending[i + 1..])
    case Delete(id) => t == s.(rows := DeleteRow(s.rows, id))
    case SetActive(id, active) => t == s.(rows := UpdateActive(s.rows, id, active))
    case List => t == s.(lists := s.lists + [s.rows])
    case Apply(i, ok) =>
      i < |s.lists|
      && t == s.(lists := s.lists[..i] + s.lists[i + 1..], kernel := t.kernel)
      && Applied(s.kernel, KernelPeers(s.lists[i]), ok, t.kernel)
    case Down => t == s.(kernel := map[])
  }

  // ----- what every step keeps -----

  predicate DistinctRows(rows: seq<Row>) {
    forall i, j :: 0 <= i < j < |rows| ==>
      rows[i].name != rows[j].name && rows[i].key != rows[j].key && rows[i].ip != rows[j].ip && rows[i].id < rows[j].id
  }

  /** An address for a peer: assignable, and not the gateway when there is one. */
  predicate PeerAddress(p: Prefix, a: Addr) {
    Assignable(p, a) && ServerIp(p) != Some(a)
  }

  /** The promise about addresses: peers, revoked ones included, have different ones, all of
      them above the network address and inside the subnet, none its broadcast address, and
      none the one after the configured address when that is inside. */
  predicate Safe(p: Prefix, rows: seq<Row>) {
    && (forall i, j :: 0 <= i < j < |rows| ==> rows[i].ip != rows[j].ip)
    && (forall r :: r in rows ==>
          && Network(p) < r.ip < Network(p) + Size(p)
          && (1 <= p.bits <= 31 ==> r.ip != Network(p) + Size(p) - 1)
          && (p.addr + 1 < Network(p) + Size(p) ==> r.ip != p.addr + 1))
  }

  lemma PeerAddressIs(p: Prefix, a: Addr)
    requires PeerAddress(p, a)
    ensures Network(p) < a < Network(p) + Size(p)
    ensures 1 <= p.bits <= 31 ==> a != Network(p) + Size(p) - 1
    ensures p.addr + 1 < Network(p) + Size(p) ==> a != p.addr + 1
  {
    AssignableIff(p, a);
    GatewayIff(p, a);
  }

  lemma InvSafe(p: Prefix, s: State)
    requires Inv(p, s)
    ensures Safe(p, s.rows)
  {
    hide Network, Size, PeerAddress;
    forall r | r in s.rows
      ensures Network(p) < r.ip < Network(p) + Size(p) && (1 <= p.bits <= 31 ==> r.ip != Network(p) + Size(p) - 1)
      ensures p.addr + 1 < Network(p) + Size(p) ==> r.ip != p.addr + 1
    {
      PeerAddressIs(p, r.ip);
    }
  }

  predicate Addressed(p: Prefix, s: State) {
    && (forall r :: r in s.rows ==> PeerAddress(p, r.ip))
    && (forall c :: c in s.pending ==> PeerAddress(p, c.ip))
  }

  predicate Issued(ips: map<Key, Addr>, rows: seq<Row>) {
    forall r :: r in rows ==> r.key in ips && ips[r.key] == r.ip
  }

  /** A key has in the kernel the address picked for it, or none, and no other. */
  predicate Bare(ips: map<Key, Addr>, kernel: Kernel) {
    forall x :: x in kernel ==> x in ips && kernel[x] <= {ips[x]}
  }

  predicate Accounted(s: State) {
    && (forall r :: r in s.rows ==> r.id < s.nextId)
    && Issued(s.ips, s.rows)
    && (forall l :: l in s.lists ==> DistinctRows(l) && Issued(s.ips, l))
    && Bare(s.ips, s.kernel)
  }

  predicate Inv(p: Prefix, s: State) {
    DistinctRows(s.rows) && Addressed(p, s) && Accounted(s)
  }

  /** A row's peer, when it is in the kernel table, has the row's address there. */
  predicate Own(rows: seq<Row>, kernel: Kernel) {
    forall r :: r in rows && r.key in kernel ==> kernel[r.key] == {r.ip}
  }

  /** The keys of the active rows. */
  function ActiveKeys(rows: seq<Row>): set<Key> {
    set r | r in rows && r.active :: r.key
  }

  /** The kernel table is exactly the active rows, each at its own address. */
  predicate Agrees(rows: seq<Row>, kernel: Kernel) {
    kernel.Keys == ActiveKeys(rows) && forall r :: r in rows && r.active ==> kernel[r.key] == {r.ip}
  }

  lemma {:induction false} Deleted(rows: seq<Row>, id: nat)
    ensures forall r :: r in DeleteRow(rows, id) <==> r in rows && r.id != id
    ensures DistinctRows(rows) ==> DistinctRows(DeleteRow(rows, id))
  {
    if rows != [] {
      Deleted(rows[1..], id);
      assert rows == [rows[0]] + rows[1..];
      if DistinctRows(rows) && rows[0].id != id {
        var rest := DeleteRow(rows[1..], id);
        forall j | 0 <= j < |rest|
          ensures rows[0].name != rest[j].name && rows[0].key != rest[j].key && rows[0].ip != rest[j].ip
          ensures rows[0].id < rest[j].id
        {
          assert rest[j] in rows[1..];
        }
      }
    }
  }

  lemma Inserted(rows: seq<Row>, r: Row)
    requires DistinctRows(rows) && forall q :: q in rows ==> q.id < r.id
    ensures DistinctRows(Insert(rows, r))
  {
    assert forall i :: 0 <= i < |rows| ==> rows[i] in rows;
  }

  lemma Listed(rows: seq<Row>)
    ensures forall r :: r in rows ==> KernelPeerOf(r) in KernelPeers(rows)
    ensures forall q :: q in KernelPeers(rows) ==> exists r :: r in rows && q == KernelPeerOf(r)
    ensures DistinctRows(rows) ==> DistinctPeers(KernelPeers(rows))
  {
    forall r | r in rows ensures KernelPeerOf(r) in KernelPeers(rows) {
      var i :| 0 <= i < |rows| && rows[i] == r;
      assert KernelPeers(rows)[|rows| - 1 - i] == KernelPeerOf(r);
    }
  }

  lemma {:induction false} ConfigureBare(ips: map<Key, Addr>, k: Kernel, cs: seq<PeerConfig>)
    requires Bare(ips, k) && forall c :: c in cs && c.Set? ==> c.key in ips && ips[c.key] == c.ip
    ensures Bare(ips, Configure(k, cs))
  {
    if cs != [] {
      var rest, c := cs[..|cs| - 1], cs[|cs| - 1];
      assert cs == rest + [c];
      ConfigureBare(ips, k, rest);
    }
  }

  lemma ApplyBare(ips: map<Key, Addr>, list: seq<Row>, k: Kernel, ok: bool, k': Kernel)
    requires Bare(ips, k) && Issued(ips, list) && Applied(k, KernelPeers(list), ok, k')
    ensures Bare(ips, k')
  {
    hide Applied, KernelPeers;
    Listed(list);
    var cs := AppliedEntries(k, KernelPeers(list), ok, k');
    ConfigureBare(ips, k, cs);
  }

  lemma Steps(p: Prefix, s: State, a: Action, t: State)
    requires Inv(p, s) && Step(p, s, a, t)
    ensures Inv(p, t)
  {
    match a
    case Begin(name) => BeginKeeps(p, s, name, t);
    case Commit(i, key) => CommitKeeps(p, s, i, key, t);
    case Delete(id) => DeleteKeeps(p, s, id);
    case SetActive(id, active) => SetActiveKeeps(p, s, id, active);
    case List =>
      hide DistinctRows, Issued, Bare;
    case Apply(i, ok) =>
      hide DistinctRows, Issued, Bare, Applied;
      assert s.lists[i] in s.lists;
      ApplyBare(s.ips, s.lists[i], s.kernel, ok, t.kernel);
    case Down =>
      hide DistinctRows, Issued;
  }

  lemma BeginKeeps(p: Prefix, s: State, name: string, t: State)
    requires Inv(p, s) && Step(p, s, Begin(name), t)
    ensures Inv(p, t)
  {
    hide DistinctRows, Issued, Bare;
  }

  lemma DeleteKeeps(p: Prefix, s: State, id: nat)
    requires Inv(p, s)
    ensures Inv(p, s.(rows := DeleteRow(s.rows, id)))
    ensures forall r :: r in DeleteRow(s.rows, id) ==> r in s.rows
  {
    hide DistinctRows, Bare;
    Deleted(s.rows, id);
  }

  lemma SetActiveKeeps(p: Prefix, s: State, id: nat, active: bool)
    requires Inv(p, s)
    ensures Inv(p, s.(rows := UpdateActive(s.rows, id, active)))
    ensures forall r :: r in UpdateActive(s.rows, id, active) ==> exists q :: q in s.rows && r == q.(active := r.active)
  {
    hide Bare;
    assert forall r :: r in UpdateActive(s.rows, id, active) ==> exists q :: q in s.rows && r == q.(active := r.active);
  }

  lemma CommitKeeps(p: Prefix, s: State, i: nat, key: Key, t: State)
    requires Inv(p, s) && Step(p, s, Commit(i, key), t)
    ensures Inv(p, t)
  {
    hide DistinctRows;
    var c := s.pending[i];
    assert c in s.pending;
    Inserted(s.rows, Row(s.nextId, c.name, key, c.ip, true));
    forall l | l in t.lists ensures Issued(t.ips, l) {
      assert Issued(s.ips, l);
    }
  }

  // ----- agreement of the kernel -----

  /** An active row's peer that is in the kernel table has the row's address there. */
  predicate OwnActive(rows: seq<Row>, kernel: Kernel) {
    forall r :: r in rows && r.active && r.key in kernel ==> kernel[r.key] == {r.ip}
  }

  /** What a successful application does with the key of an active listed row. */
  lemma AppliedAt(list: seq<Row>, k: Kernel, k': Kernel, r: Row)
    requires DistinctRows(list) && Applied(k, KernelPeers(list), true, k') && r in list && r.active
    ensures r.key in k'
    ensures r.key in k ==> k'[r.key] <= k[r.key] && (r.ip in k[r.key] ==> r.ip in k'[r.key])
    ensures r.key !in k ==> k'[r.key] == {r.ip}
  {
    hide Applied, Desired, KernelPeers, DistinctRows;
    var peers := KernelPeers(list);
    Listed(list);
    ApplyExact(k, peers, k');
    var i :| 0 <= i < |peers| && peers[i] == KernelPeerOf(r);
    DesiredAt(peers, i);
    forall q | q in peers && !q.remove && q.key !in k && q.ip == r.ip ensures r.key !in k {
      var j :| 0 <= j < |peers| && peers[j] == q;
      assert i == j;
    }
  }

  /** A successful application leaves exactly the keys of the active listed rows. */
  lemma AppliedKeys(list: seq<Row>, k: Kernel, k': Kernel)
    requires DistinctRows(list) && Applied(k, KernelPeers(list), true, k')
    ensures k'.Keys == ActiveKeys(list)
  {
    hide Applied, Desired, KernelPeers, DistinctRows;
    var peers := KernelPeers(list);
    Listed(list);
    ApplyExact(k, peers, k');
    forall x ensures x in k' <==> x in ActiveKeys(list) {
      InDesired(peers, x);
    }
  }

  /** Whatever list is applied, however old: on success the kernel agrees with the rows
      exactly when the active keys are those listed and each active peer that was in the
      kernel had its own address. */
  lemma AppliedAgreesIff(ips: map<Key, Addr>, rows: seq<Row>, list: seq<Row>, k: Kernel, k': Kernel)
    requires DistinctRows(list) && Issued(ips, rows) && Issued(ips, list) && Bare(ips, k)
    requires Applied(k, KernelPeers(list), true, k')
    ensures Agrees(rows, k') <==> ActiveKeys(list) == ActiveKeys(rows) && OwnActive(rows, k)
  {
    hide Applied, KernelPeers, DistinctRows;
    AppliedKeys(list, k, k');
    if ActiveKeys(list) == ActiveKeys(rows) {
      forall r | r in rows && r.active ensures r.key in k' && (k'[r.key] == {r.ip} <==> r.key in k ==> k[r.key] == {r.ip}) {
        assert r.key in ActiveKeys(rows);
        var q :| q in list && q.active && q.key == r.key;
        AppliedAt(list, k, k', q);
        assert k'[r.key] == {r.ip} ==> r.ip in k'[r.key];
      }
    }
  }

  // ----- runs -----

  ghost predicate IsRun(p: Prefix, states: seq<State>, actions: seq<Action>) {
    && |states| == |actions| + 1
    && states[0] == State([], 0, map[], [], [], map[])
    && forall k :: 0 <= k < |actions| ==> Step(p, states[k], actions[k], states[k + 1])
  }

  /** In every run, however the steps of the calls interleave and whatever fails, the
      addresses stay safe, and an application that succeeds makes the kernel agree with the
      rows exactly when the list is still the active rows' and each of them that was in the
      kernel had its own address. */
  lemma {:induction false} RunSafe(p: Prefix, states: seq<State>, actions: seq<Action>, k: nat)
    requires IsRun(p, states, actions) && k < |states|
    ensures Safe(p, states[k].rows) && Inv(p, states[k])
    ensures k > 0 && actions[k - 1].Apply? && actions[k - 1].ok ==>
      var s, t := states[k - 1], states[k];
      Agrees(t.rows, t.kernel) <==> ActiveKeys(s.lists[actions[k - 1].i]) == ActiveKeys(t.rows) && OwnActive(t.rows, s.kernel)
  {
    hide Step, Safe;
    InitialInv(p, states[0]);
    if k > 0 {
      RunSafe(p, states, actions, k - 1);
      Steps(p, states[k - 1], actions[k - 1], states[k]);
      if actions[k - 1].Apply? && actions[k - 1].ok {
        StepAgreesIff(p, states[k - 1], actions[k - 1].i, states[k]);
      }
    }
    InvSafe(p, states[k]);
  }

  lemma InitialInv(p: Prefix, s: State)
    requires s == State([], 0, map[], [], [], map[])
    ensures Inv(p, s)
  {
  }

  lemma StepAgreesIff(p: Prefix, s: State, i: nat, t: State)
    requires Inv(p, s) && Step(p, s, Apply(i, true), t)
    ensures Agrees(t.rows, t.kernel) <==> ActiveKeys(s.lists[i]) == ActiveKeys(t.rows) && OwnActive(t.rows, s.kernel)
  {
    hide DistinctRows, Applied, Issued, Bare, Agrees, OwnActive, ActiveKeys;
    assert s.lists[i] in s.lists;
    AppliedAgreesIff(s.ips, s.rows, s.lists[i], s.kernel, t.kernel);
  }

  /** The list wants a peer whose address a row with another key has now. */
  predicate Reused(rows: seq<Row>, list: seq<Row>) {
    exists a, r :: a in list && a.active && r in rows && a.key != r.key && a.ip == r.ip
  }

  /** No application of a list with a reused address stops half-way. */
  predicate Whole(s: State, a: Action, t: State) {
    a.Apply? && a.i < |s.lists| && !a.ok && Reused(s.rows, s.lists[a.i]) ==> t.kernel == s.kernel
  }

  lemma {:induction false} ConfigureOwn(rows: seq<Row>, k: Kernel, cs: seq<PeerConfig>)
    requires Own(rows, k)
    requires forall c, r :: c in cs && c.Set? && r in rows ==> (c.key == r.key <==> c.ip == r.ip)
    ensures Own(rows, Configure(k, cs))
  {
    if cs != [] {
      var rest, c := cs[..|cs| - 1], cs[|cs| - 1];
      assert cs == rest + [c];
      ConfigureOwn(rows, k, rest);
    }
  }

  lemma ApplyOwn(ips: map<Key, Addr>, rows: seq<Row>, list: seq<Row>, k: Kernel, ok: bool, k': Kernel)
    requires Issued(ips, rows) && Issued(ips, list) && DistinctRows(list) && Own(rows, k)
    requires Applied(k, KernelPeers(list), ok, k') && (ok || !Reused(rows, list))
    ensures Own(rows, k')
  {
    hide Applied, KernelPeers, DistinctRows;
    if ok {
      AppliedKeys(list, k, k');
      forall r | r in rows && r.key in k' ensures k'[r.key] == {r.ip} {
        assert r.key in ActiveKeys(list);
        var q :| q in list && q.active && q.key == r.key;
        AppliedAt(list, k, k', q);
      }
    } else {
      Listed(list);
      var cs := AppliedEntries(k, KernelPeers(list), ok, k');
      ConfigureOwn(rows, k, cs);
    }
  }

  lemma OwnStep(p: Prefix, s: State, a: Action, t: State)
    requires Inv(p, s) && Own(s.rows, s.kernel) && Step(p, s, a, t) && Whole(s, a, t)
    ensures Own(t.rows, t.kernel)
  {
    match a
    case Delete(id) => DeleteKeeps(p, s, id);
    case SetActive(id, active) => SetActiveKeeps(p, s, id, active);
    case Apply(i, ok) =>
      hide Applied, DistinctRows;
      assert s.lists[i] in s.lists;
      if t.kernel != s.kernel {
        ApplyOwn(s.ips, s.rows, s.lists[i], s.kernel, ok, t.kernel);
      }
    case _ =>
  }

  /** So in every run where that does not happen, each application that succeeds leaves the
      kernel with exactly the active rows, each at its own address, exactly when the active
      keys are still those listed, whatever else failed before it. */
  lemma {:induction false} RunAgrees(p: Prefix, states: seq<State>, actions: seq<Action>, k: nat)
    requires IsRun(p, states, actions) && k < |states|
    requires forall j :: 0 <= j < k ==> Whole(states[j], actions[j], states[j + 1])
    ensures Own(states[k].rows, states[k].kernel)
    ensures k > 0 && actions[k - 1].Apply? && actions[k - 1].ok ==>
      (Agrees(states[k].rows, states[k].kernel) <==> ActiveKeys(states[k - 1].lists[actions[k - 1].i]) == ActiveKeys(states[k].rows))
  {
    hide Step, Whole;
    if k > 0 {
      RunAgrees(p, states, actions, k - 1);
      RunSafe(p, states, actions, k - 1);
      RunSafe(p, states, actions, k);
      OwnStep(p, states[k - 1], actions[k - 1], states[k]);
      if actions[k - 1].Apply? {
        ApplyRows(p, states[k - 1], actions[k - 1], states[k]);
      }
    }
  }

  lemma ApplyRows(p: Prefix, s: State, a: Action, t: State)
    requires a.Apply? && Step(p, s, a, t)
    ensures t.rows == s.rows && a.i < |s.lists|
  {
  }

  /** Two AddPeer calls that both pick an address before either inserts its row pick the same
      one: one peer is added and the other call fails, even if more addresses are free. */
  lemma TwinsClash(p: Prefix, s: State, names: (string, string), keys: (Key, Key),
                   s1: State, s2: State, s3: State, s4: State)
    requires Inv(p, s) && s.pending == []
    requires Step(p, s, Begin(names.0), s1) && Step(p, s1, Begin(names.1), s2)
    requires Step(p, s2, Commit(0, keys.0), s3) && Step(p, s3, Commit(0, keys.1), s4)
    ensures s4.rows == s3.rows && |s3.rows| == |s.rows| + 1 && s4.pending == []
    ensures s3.rows[|s.rows|].name == names.0
  {
    var ip :| LeastFree(p, Taken(p, s.rows), Allocated(ip)) && s1 == s.(pending := s.pending + [Pending(names.0, ip)]);
    var ip' :| LeastFree(p, Taken(p, s.rows), Allocated(ip')) && s2 == s1.(pending := s1.pending + [Pending(names.1, ip')]);
    assert ip == ip' by {
      assert !(ip < ip') && !(ip' < ip);
    }
    assert s2.pending == [Pending(names.0, ip), Pending(names.1, ip)];
    assert s3.pending == [Pending(names.1, ip)];
    assert forall r :: r in s.rows ==> r.ip in Taken(p, s.rows);
    var r := Row(s.nextId, names.0, keys.0, ip, true);
    assert !Clashes(s.rows, r);
    assert r in s3.rows;
  }
}
