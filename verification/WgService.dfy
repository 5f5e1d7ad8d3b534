/** The peer service: each call changes the peer table and then brings the kernel in line. */
module WgService {
  import opened Names
  import opened Prelude
  import opened WgAddress
  import opened WgKernel
  import opened WgPeers

  /** What goes wrong outside the service during a call: store calls that fail, key
      generation, and the kernel. */
  datatype Trouble = Trouble(lookup: bool, addresses: bool, keys: bool, write: bool, list: bool, kernel: Fault) {
    predicate None() {
      !lookup && !addresses && !keys && !write && !list && kernel.NoFault?
    }
  }

  datatype AddResult = Added(row: Row) | NameRequired | NameExists | NoAddress | KeyError | StoreError

  /** The steps of one successful AddPeer call: pick an address, insert the row, and
      reconcile unless there is no kernel side or the rows cannot be listed. */
  ghost predicate Adds(p: Prefix, s: State, name: string, key: Key, t: State) {
    exists s1, s2 :: Step(p, s, Begin(name), s1) && Step(p, s1, Commit(|s.pending|, key), s2) && Reconciles(p, s2, t)
  }

  ghost predicate Reconciles(p: Prefix, s: State, t: State) {
    t == s || exists s1, ok :: Step(p, s, List, s1) && Step(p, s1, Apply(|s.lists|, ok), t)
  }

  /** What an AddPeer call reports, by whether the name is taken and an address is free. */
  predicate Reports(name: string, named: bool, free: bool, trouble: Trouble, r: AddResult) {
    if name == "" then r == NameRequired
    else if !trouble.lookup && named then r == NameExists
    else if trouble.addresses then r == StoreError
    else if !free then r == NoAddress
    else if trouble.keys then r == KeyError
    else if trouble.write || named then r == StoreError
    else r.Added?
  }

  class Service {
    const subnet: Option<Prefix>
    var rows: seq<Row>
    var nextId: nat
    ghost var ips: map<Key, Addr>
    const mgr: Manager?

    ghost function Net(): Prefix {
      if subnet.Some? then subnet.value else RawPrefix.Prefix(0, 0)
    }

    ghost function Table(): Kernel
      reads mgr
    {
      if mgr == null then map[] else mgr.kernel
    }

    ghost function View(): State
      reads this, mgr
    {
      State(rows, nextId, ips, [], [], Table())
    }

    ghost predicate Valid()
      reads this, mgr
    {
      Inv(Net(), View()) && Own(rows, Table())
    }

    /** There is an address for a new peer. */
    ghost predicate HasAddress()
      reads this
    {
      subnet.Some? && exists a :: Free(subnet.value, Taken(subnet.value, rows), a)
    }

    constructor (subnet: Option<Prefix>, mgr: Manager?)
      requires mgr != null ==> mgr.kernel == map[]
      ensures Valid() && this.subnet == subnet && this.mgr == mgr && rows == []
    {
      this.subnet, this.mgr := subnet, mgr;
      rows, nextId, ips := [], 0, map[];
    }

    /** The kernel list of the rows. */
    method ListPeers() returns (out: seq<KernelPeer>)
      ensures out == KernelPeers(rows)
    {
      out := [];
      for i := 0 to |rows|
        invariant out == KernelPeers(rows)[..i]
      {
        var r := rows[|rows| - 1 - i];
        out := out + [KernelPeer(r.key, r.ip, !r.active)];
      }
    }

    /** Brings the kernel in line with the rows. */
    method ReconcilePeers(trouble: Trouble) returns (ok: bool)
      requires Valid() && mgr != null
      modifies mgr
      ensures Valid()
      ensures Reconciles(Net(), old(View()), View())
      ensures ok ==> Agrees(rows, mgr.kernel)
      ensures !trouble.list && trouble.kernel.NoFault? ==> ok
    {
      hide Step, Inv, Applied, Agrees, Own;
      if trouble.list {
        return false;
      }
      var peers := ListPeers();
      ghost var s := View();
      ok := mgr.ApplyPeers(peers, trouble.kernel);
      ReconcileStep(Net(), s, ok, View());
    }

    /** Inserts a row, active, with the next id, unless the store fails or a UNIQUE column
        refuses it. */
    method CreatePeer(name: string, key: Key, ip: Addr, fails: bool) returns (r: Option<Row>)
      modifies `rows, `nextId, `ips
      ensures ips == old(ips)[key := ip]
      ensures r.Some? <==> !fails && !Clashes(old(rows), Row(old(nextId), name, key, ip, true))
      ensures r.Some? ==> r.value == Row(old(nextId), name, key, ip, true)
      ensures r.Some? ==> rows == old(rows) + [r.value] && nextId == old(nextId) + 1
      ensures r.None? ==> rows == old(rows) && nextId == old(nextId)
    {
      ips := ips[key := ip];
      var row := Row(nextId, name, key, ip, true);
      if fails || Clashes(rows, row) {
        return None;
      }
      rows, nextId := rows + [row], nextId + 1;
      return Some(row);
    }

    /** The addresses that must not be given out: those of the rows, and the gateway. */
    method TakenAddresses() returns (taken: set<Addr>)
      ensures subnet.Some? ==> taken == Taken(subnet.value, rows)
    {
      taken := set row | row in rows :: row.ip;
      if subnet.Some? {
        var gateway := ServerIp(subnet.value);
        if gateway.Some? {
          taken := taken + {gateway.value};
        }
      }
    }

    /** Adds a peer: a row with the least free address, then the kernel, whose failure is
        only logged. */
    method AddPeer(name: Name, key: Key, trouble: Trouble) returns (r: AddResult)
      requires Valid() && key !in ips
      modifies this, mgr
      ensures Valid()
      ensures r.Added? ==> subnet.Some? && Adds(Net(), old(View()), Trim(name, Spaces()), key, View())
      ensures r.Added? ==> rows == old(rows) + [r.row] && r.row == Row(old(nextId), Trim(name, Spaces()), key, r.row.ip, true)
      ensures r.Added? ==> LeastFree(Net(), Taken(Net(), old(rows)), Allocated(r.row.ip))
      ensures r.Added? && old(rows) == [] && subnet.value.addr == Network(subnet.value) && subnet.value.bits <= 30 ==>
        r.row.ip == Network(subnet.value) + 2
      ensures !r.Added? ==> rows == old(rows) && Table() == old(Table())
      ensures Reports(Trim(name, Spaces()), old(Named(rows, Trim(name, Spaces()))), old(HasAddress()), trouble, r)
      ensures r.Added? && mgr != null && !trouble.list && trouble.kernel.NoFault? ==> Agrees(rows, mgr.kernel)
    {
      hide Trim, Inv, Own, Agrees, Clashes, Taken, Free, Adds, Reconciles, Spaces;
      var trimmed: string := Trim(name, Spaces());
      if trimmed == "" {
        return NameRequired;
      }
      if !trouble.lookup && Named(rows, trimmed) {
        return NameExists;
      }
      if trouble.addresses {
        return StoreError;
      }
      var taken := TakenAddresses();
      var ip := AllocIp(subnet, taken);
      if !ip.Allocated? {
        return NoAddress;
      }
      if trouble.keys {
        return KeyError;
      }
      ghost var s := View();
      NoClash(Net(), s, Row(nextId, trimmed, key, ip.addr, true));
      var row := CreatePeer(trimmed, key, ip.addr, trouble.write);
      if row.None? {
        IssueKeeps(Net(), s, key, ip.addr);
        return StoreError;
      }
      AddStep(Net(), s, row.value, View());
      ReconcilesSame(Net(), View());
      if mgr != null {
        var ok := ReconcilePeers(trouble);
      }
      FirstAddress(Net(), s.rows, ip.addr);
      return Added(row.value);
    }

    /** Deletes a row, which need not exist, and reconciles. */
    method RemovePeer(id: nat, trouble: Trouble) returns (ok: bool)
      requires Valid()
      modifies this, mgr
      ensures Valid()
      ensures rows == if trouble.write then old(rows) else DeleteRow(old(rows), id)
      ensures Reconciles(Net(), old(View()).(rows := rows), View())
      ensures trouble.write ==> !ok && Table() == old(Table())
      ensures mgr == null ==> (ok <==> !trouble.write)
      ensures ok && mgr != null ==> Agrees(rows, mgr.kernel)
      ensures trouble.None() ==> ok
    {
      ReconcilesSame(Net(), View());
      if trouble.write {
        return false;
      }
      DeleteKeeps(Net(), View(), id);
      rows := DeleteRow(rows, id);
      if mgr == null {
        return true;
      }
      ok := ReconcilePeers(trouble);
    }

    /** Revokes or restores a peer, which need not exist, and reconciles. */
    method SetPeerActive(id: nat, active: bool, trouble: Trouble) returns (ok: bool)
      requires Valid()
      modifies this, mgr
      ensures Valid()
      ensures rows == if trouble.write then old(rows) else UpdateActive(old(rows), id, active)
      ensures Reconciles(Net(), old(View()).(rows := rows), View())
      ensures trouble.write ==> !ok && Table() == old(Table())
      ensures mgr == null ==> (ok <==> !trouble.write)
      ensures ok && mgr != null ==> Agrees(rows, mgr.kernel)
      ensures trouble.None() ==> ok
    {
      ReconcilesSame(Net(), View());
      if trouble.write {
        return false;
      }
      SetActiveKeeps(Net(), View(), id, active);
      rows := UpdateActive(rows, id, active);
      if mgr == null {
        return true;
      }
      ok := ReconcilePeers(trouble);
    }
  }

  /** The insert cannot be refused when the name is new and the address is free. */
  lemma NoClash(p: Prefix, s: State, row: Row)
    requires Inv(p, s) && row.key !in s.ips
    requires LeastFree(p, Taken(p, s.rows), Allocated(row.ip))
    ensures Clashes(s.rows, row) <==> Named(s.rows, row.name)
  {
    assert forall r :: r in s.rows ==> r.ip in Taken(p, s.rows);
  }

  lemma FirstAddress(p: Prefix, rows: seq<Row>, ip: Addr)
    requires LeastFree(p, Taken(p, rows), Allocated(ip))
    ensures rows == [] && p.addr == Network(p) && p.bits <= 30 ==> ip == Network(p) + 2
  {
    hide LeastFree, Network, ServerIp;
    if rows == [] && p.addr == Network(p) && p.bits <= 30 {
      assert forall a :: a in Taken(p, rows) <==> ServerIp(p) == Some(a);
      FirstPeer(p, Taken(p, rows), ip);
    }
  }

  lemma IssueKeeps(p: Prefix, s: State, key: Key, ip: Addr)
    requires Inv(p, s) && key !in s.ips
    ensures Inv(p, s.(ips := s.ips[key := ip]))
  {
    hide DistinctRows;
    forall l | l in s.lists ensures Issued(s.ips[key := ip], l) {
      assert Issued(s.ips, l);
    }
  }

  lemma ReconcilesSame(p: Prefix, s: State)
    ensures Reconciles(p, s, s)
  {
  }

  lemma AddStep(p: Prefix, s: State, row: Row, t: State)
    requires Inv(p, s) && Own(s.rows, s.kernel)
    requires row == Row(s.nextId, row.name, row.key, row.ip, true) && row.key !in s.ips
    requires row.name != "" && !Clashes(s.rows, row) && LeastFree(p, Taken(p, s.rows), Allocated(row.ip))
    requires t == s.(rows := s.rows + [row], nextId := s.nextId + 1, ips := s.ips[row.key := row.ip])
    ensures Inv(p, t) && Own(t.rows, t.kernel)
    ensures forall u :: Reconciles(p, t, u) ==> Adds(p, s, row.name, row.key, u)
  {
    hide Inv, Own, LeastFree;
    var c := Pending(row.name, row.ip);
    var s1 := s.(pending := s.pending + [c]);
    assert Step(p, s, Begin(row.name), s1);
    assert s1.pending[..|s.pending|] + s1.pending[|s.pending| + 1..] == s.pending;
    assert Step(p, s1, Commit(|s.pending|, row.key), t);
    Steps(p, s, Begin(row.name), s1);
    Steps(p, s1, Commit(|s.pending|, row.key), t);
    OwnStep(p, s, Begin(row.name), s1);
    OwnStep(p, s1, Commit(|s.pending|, row.key), t);
  }

  /** Listing the rows and applying the list at once: on success the kernel agrees. */
  lemma ReconcileStep(p: Prefix, s: State, ok: bool, t: State)
    requires Inv(p, s) && Own(s.rows, s.kernel)
    requires t == s.(kernel := t.kernel) && Applied(s.kernel, KernelPeers(s.rows), ok, t.kernel)
    ensures Reconciles(p, s, t) && Inv(p, t) && Own(t.rows, t.kernel)
    ensures ok ==> Agrees(t.rows, t.kernel)
  {
    hide Inv, Own, Applied;
    var s1 := s.(lists := s.lists + [s.rows]);
    assert Step(p, s, List, s1);
    assert s1.lists[..|s.lists|] + s1.lists[|s.lists| + 1..] == s.lists;
    assert Step(p, s1, Apply(|s.lists|, ok), t);
    Steps(p, s, List, s1);
    OwnStep(p, s, List, s1);
    Steps(p, s1, Apply(|s.lists|, ok), t);
    NotReused(p, s);
    OwnStep(p, s1, Apply(|s.lists|, ok), t);
    if ok {
      StepAgreesIff(p, s1, |s.lists|, t);
      assert OwnActive(t.rows, s1.kernel) by {
        OwnToo(s.rows, s.kernel);
      }
    }
  }

  lemma NotReused(p: Prefix, s: State)
    requires Inv(p, s)
    ensures !Reused(s.rows, s.rows)
  {
  }

  lemma OwnToo(rows: seq<Row>, kernel: Kernel)
    requires Own(rows, kernel)
    ensures OwnActive(rows, kernel)
  {
  }
}
