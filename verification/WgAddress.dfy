/** IPv4 tunnel addresses: prefixes, the gateway, the broadcast test and the search for
    the first free address.  Addresses are numbers; bits are read off one at a time. */
module WgAddress {
  import opened Prelude

  function Pow2(n: nat): (r: nat)
    ensures r > 0
  {
    if n == 0 then 1 else 2 * Pow2(n - 1)
  }

  /** The low `n` bits. */
  function Low(a: nat, n: nat): (r: nat)
    ensures r <= a && r < Pow2(n)
  {
    if n == 0 then 0 else a % 2 + 2 * Low(a / 2, n - 1)
  }

  /** Shift right. */
  function Shr(a: nat, n: nat): nat {
    if n == 0 then a else Shr(a / 2, n - 1)
  }

  /** Bitwise or. */
  function Or(x: nat, y: nat): nat
    decreases x + y
  {
    if x == 0 then y else if y == 0 then x
    else (if x % 2 == 1 || y % 2 == 1 then 1 else 0) + 2 * Or(x / 2, y / 2)
  }

  const SPACE: nat := 0x1_0000_0000

  type Addr = a: nat | a < SPACE

  datatype RawPrefix = Prefix(addr: Addr, bits: nat)

  /** A parsed prefix; its address need not be the network address. */
  type Prefix = p: RawPrefix | p.bits <= 32 witness RawPrefix.Prefix(0, 0)

  function HostBits(p: Prefix): nat {
    32 - p.bits
  }

  /** The number of addresses of the prefix. */
  function Size(p: Prefix): nat {
    Pow2(HostBits(p))
  }

  function Network(p: Prefix): Addr {
    p.addr - Low(p.addr, HostBits(p))
  }

  function Masked(p: Prefix): Prefix {
    RawPrefix.Prefix(Network(p), p.bits)
  }

  /** The address agrees with the prefix on all but the host bits. */
  predicate Contains(p: Prefix, a: Addr) {
    Shr(a, HostBits(p)) == Shr(p.addr, HostBits(p))
  }

  /** The next address; there is none after the last one. */
  function Next(a: Addr): Option<Addr> {
    if a + 1 < SPACE then Some(a + 1) else None
  }

  /** The address after the configured one, when it is inside the prefix. */
  function ServerIp(p: Prefix): Option<Addr> {
    match Next(p.addr)
    case None => None
    case Some(a) => if Contains(p, a) then Some(a) else None
  }

  /** The last address of a prefix that has one to spare. */
  predicate Broadcast(p: Prefix, a: Addr) {
    1 <= HostBits(p) <= 31 && a == Network(p) + Size(p) - 1
  }

  /** An address a peer may be given. */
  predicate Assignable(p: Prefix, a: Addr) {
    Network(p) < a && Contains(p, a) && !Broadcast(p, a)
  }

  predicate Free(p: Prefix, taken: set<Addr>, a: Addr) {
    Assignable(p, a) && a !in taken
  }

  // ----- bits -----

  /** Numbers with the same high bits are those of one block of size 2^n. */
  lemma {:induction false} SameHigh(a: nat, b: nat, n: nat)
    ensures Shr(a, n) == Shr(b, n) <==> b - Low(b, n) <= a < b - Low(b, n) + Pow2(n)
  {
    if n > 0 {
      SameHigh(a / 2, b / 2, n - 1);
    }
  }

  lemma {:induction false} LowOfHigh(b: nat, n: nat)
    ensures Low(b - Low(b, n), n) == 0
  {
    if n > 0 {
      LowOfHigh(b / 2, n - 1);
      assert (b - Low(b, n)) / 2 == b / 2 - Low(b / 2, n - 1);
    }
  }

  lemma {:induction false} LowAll(a: nat, n: nat)
    requires a < Pow2(n)
    ensures Low(a, n) == a
  {
    if n > 0 {
      LowAll(a / 2, n - 1);
    }
  }

  lemma {:induction false} LowLow(x: nat, n: nat, t: nat)
    requires t <= n
    ensures Low(Low(x, n), t) == Low(x, t)
  {
    if t > 0 {
      LowLow(x / 2, n - 1, t - 1);
    }
  }

  lemma {:induction false} ShrShr(a: nat, m: nat, n: nat)
    ensures Shr(Shr(a, m), n) == Shr(a, m + n)
  {
    if m > 0 {
      ShrShr(a / 2, m - 1, n);
    }
  }

  lemma Double(x: nat, y: nat)
    ensures 2 * (x * y) == (2 * x) * y
  {
  }

  lemma {:induction false} LowAdd(a: nat, m: nat, n: nat)
    ensures Low(a, m + n) == Low(a, m) + Pow2(m) * Low(Shr(a, m), n)
  {
    if m > 0 {
      LowAdd(a / 2, m - 1, n);
      Double(Pow2(m - 1), Low(Shr(a, m), n));
    }
  }

  lemma {:induction false} OrOnes(b: nat, t: nat)
    ensures Or(b, Pow2(t) - 1) == b - Low(b, t) + Pow2(t) - 1
  {
    if t > 0 {
      OrOnes(b / 2, t - 1);
      assert (Pow2(t) - 1) / 2 == Pow2(t - 1) - 1;
      if b == 0 {
        LowAll(0, t);
      }
    }
  }

  lemma {:induction false} ShrOnes(n: nat, s: nat)
    ensures Shr(Pow2(n + s) - 1, s) == Pow2(n) - 1
  {
    if s > 0 {
      assert (Pow2(n + s) - 1) / 2 == Pow2(n + s - 1) - 1;
      ShrOnes(n, s - 1);
    }
  }

  lemma PowersOfTwo()
    ensures Pow2(0) == 1 && Pow2(8) == 0x100 && Pow2(16) == 0x1_0000 && Pow2(24) == 0x100_0000 && Pow2(32) == SPACE
  {
    assert Pow2(4) == 16 && Pow2(8) == 0x100 && Pow2(12) == 0x1000 && Pow2(16) == 0x1_0000;
    assert Pow2(20) == 0x10_0000 && Pow2(24) == 0x100_0000 && Pow2(28) == 0x1000_0000;
  }

  // ----- prefixes -----

  /** A prefix contains exactly the `Size` addresses from the network address on, whether
      or not it is written with that address. */
  lemma ContainsRange(p: Prefix, a: Addr)
    ensures Contains(p, a) <==> Network(p) <= a < Network(p) + Size(p)
    ensures Network(Masked(p)) == Network(p)
    ensures Contains(Masked(p), a) <==> Contains(p, a)
  {
    SameHigh(a, p.addr, HostBits(p));
    LowOfHigh(p.addr, HostBits(p));
    SameHigh(a, Network(p), HostBits(p));
  }

  /** A number is its high bits, shifted back, and its low ones. */
  lemma {:induction false} HighLow(a: nat, n: nat)
    ensures a == Pow2(n) * Shr(a, n) + Low(a, n)
  {
    if n > 0 {
      HighLow(a / 2, n - 1);
      Double(Pow2(n - 1), Shr(a / 2, n - 1));
    }
  }

  /** The network address is the address with its host bits cleared: the greatest multiple of
      the prefix's size that is not above it. */
  lemma NetworkIs(p: Prefix)
    ensures Network(p) == Pow2(HostBits(p)) * Shr(p.addr, HostBits(p))
    ensures Network(p) <= p.addr < Network(p) + Pow2(32 - p.bits) && Size(p) == Pow2(32 - p.bits)
  {
    HighLow(p.addr, HostBits(p));
  }

  /** There is a gateway exactly when the address after the configured one is in the prefix,
      and it is that address. */
  lemma GatewayIff(p: Prefix, a: Addr)
    ensures ServerIp(p) == Some(a) <==> a == p.addr + 1 && a < Network(p) + Size(p)
  {
    ContainsRange(p, a);
  }

  /** The gateway is the first host exactly when the configured subnet is written with its
      network address. */
  lemma GatewayIsFirstHost(p: Prefix)
    requires ServerIp(p).Some?
    ensures Network(p) < ServerIp(p).value && Contains(p, ServerIp(p).value)
    ensures ServerIp(p).value == Network(p) + 1 <==> p.addr == Network(p)
  {
  }

  /** What a peer may be given: everything above the network address and inside the prefix, but
      the last address of a prefix with 1 to 31 host bits. */
  lemma AssignableIff(p: Prefix, a: Addr)
    ensures Assignable(p, a) <==>
      Network(p) < a < Network(p) + Size(p) && !(1 <= p.bits <= 31 && a == Network(p) + Size(p) - 1)
  {
    ContainsRange(p, a);
  }

  /** With no peer yet, a subnet written with its network address and at least two host bits
      has two free above the gateway, and the first of them is next. */
  lemma FirstPeer(p: Prefix, taken: set<Addr>, ip: Addr)
    requires p.addr == Network(p) && p.bits <= 30
    requires forall a :: a in taken <==> ServerIp(p) == Some(a)
    requires LeastFree(p, taken, Allocated(ip))
    ensures ip == Network(p) + 2
  {
    hide Network, ServerIp, Broadcast, Contains;
    SizeAtLeastFour(p);
    var gateway: Addr, next: Addr := Network(p) + 1, Network(p) + 2;
    GatewayIff(p, gateway);
    GatewayIff(p, next);
    AssignableIff(p, next);
    AssignableIff(p, ip);
    assert Free(p, taken, next);
    assert gateway in taken;
  }

  lemma SizeAtLeastFour(p: Prefix)
    requires p.bits <= 30
    ensures Size(p) >= 4 && Network(p) + Size(p) <= SPACE
  {
    var h := HostBits(p);
    assert Pow2(h) == 2 * Pow2(h - 1) && Pow2(h - 1) == 2 * Pow2(h - 2);
    PowersOfTwo();
    BlockFits(p.addr, h, 32);
  }

  // ----- bytes -----

  predicate Bytes(b: seq<nat>) {
    |b| == 4 && forall i :: 0 <= i < 4 ==> b[i] < 0x100
  }

  function As4(a: Addr): (r: seq<nat>)
    ensures Bytes(r)
  {
    PowersOfTwo();
    [Low(Shr(a, 24), 8), Low(Shr(a, 16), 8), Low(Shr(a, 8), 8), Low(a, 8)]
  }

  function Value(b: seq<nat>): nat
    requires Bytes(b)
  {
    b[0] * 0x100_0000 + b[1] * 0x1_0000 + b[2] * 0x100 + b[3]
  }

  /** The value of the last `k` bytes. */
  function Tail(b: seq<nat>, k: nat): nat
    requires Bytes(b) && k <= 4
  {
    if k == 0 then 0 else if k == 1 then b[3] else if k == 2 then b[2] * 0x100 + b[3]
    else if k == 3 then b[1] * 0x1_0000 + b[2] * 0x100 + b[3] else Value(b)
  }

  lemma TailOfAddress(a: Addr, k: nat)
    requires k <= 4
    ensures Tail(As4(a), k) == Low(a, 8 * k)
  {
    hide Low, Shr, Pow2;
    PowersOfTwo();
    ShrZero(a);
    LowZero(a);
    LowAdd(a, 8, 8);
    LowAdd(a, 16, 8);
    LowAdd(a, 24, 8);
  }

  lemma ShrZero(a: nat)
    ensures Shr(a, 0) == a
  {
  }

  lemma LowZero(a: nat)
    ensures Low(a, 0) == 0
  {
  }

  lemma ValueAs4(a: Addr)
    ensures Value(As4(a)) == a
  {
    hide As4, Low, Pow2;
    TailOfAddress(a, 4);
    PowersOfTwo();
    LowAll(a, 32);
  }

  lemma ValueInjective(b: seq<nat>, c: seq<nat>)
    requires Bytes(b) && Bytes(c)
    ensures Value(b) == Value(c) <==> b == c
  {
    if Value(b) == Value(c) {
      assert b[0] == c[0] && b[1] == c[1] && b[2] == c[2] && b[3] == c[3];
    }
  }

  /** A byte with its low `take` bits set. */
  function OrByte(b: nat, take: nat): (r: nat)
    requires b < 0x100 && 1 <= take <= 8
    ensures r == b - Low(b, take) + Pow2(take) - 1 && r < 0x100
  {
    PowersOfTwo();
    ShrOnes(take, 8 - take);
    OrOnes(b, take);
    OrInByte(b, take);
    Or(b, Shr(0xff, 8 - take))
  }

  lemma OrInByte(b: nat, take: nat)
    requires b < 0x100 && take <= 8
    ensures b - Low(b, take) + Pow2(take) <= 0x100
  {
    SameHigh(b, b, take);
    BlockFits(b, take, 8);
    PowersOfTwo();
  }

  lemma {:induction false} BlockFits(b: nat, t: nat, n: nat)
    requires t <= n && b < Pow2(n)
    ensures b - Low(b, t) + Pow2(t) <= Pow2(n)
  {
    if t > 0 {
      BlockFits(b / 2, t - 1, n - 1);
    }
  }

  /** The bytes with the low `bits` bits set, each byte on its own. */
  function OrLow(b: seq<nat>, bits: nat): (r: seq<nat>)
    requires Bytes(b) && bits <= 32
    ensures Bytes(r)
  {
    seq(4, i requires 0 <= i < 4 =>
      var take := bits - 8 * (3 - i);
      if take <= 0 then b[i] else OrByte(b[i], if take > 8 then 8 else take))
  }

  /** The weight of the byte that has `k` bytes after it. */
  function Weight(k: nat): nat
    requires k <= 3
  {
    if k == 0 then 1 else if k == 1 then 0x100 else if k == 2 then 0x1_0000 else 0x100_0000
  }

  lemma OrLowBytes(b: seq<nat>, k: nat, take: nat)
    requires Bytes(b) && k <= 3 && 1 <= take <= 8
    ensures Value(OrLow(b, 8 * k + take)) ==
      Value(b) - Tail(b, k) + (Pow2(take) - Low(b[3 - k], take)) * Weight(k) - 1
  {
    hide Pow2, Low, OrByte;
    PowersOfTwo();
    var r := OrLow(b, 8 * k + take);
    var d := Pow2(take) - Low(b[3 - k], take);
    assert r[3 - k] == b[3 - k] + d - 1;
    forall i | 3 - k < i <= 3 ensures r[i] == 255 {
      assert r[i] == OrByte(b[i], 8);
      LowAll(b[i], 8);
    }
    assert forall i :: 0 <= i < 3 - k ==> r[i] == b[i];
    FilledValue(b, r, k, d);
  }

  lemma FilledValue(b: seq<nat>, r: seq<nat>, k: nat, d: int)
    requires Bytes(b) && Bytes(r) && k <= 3
    requires forall i :: 0 <= i < 4 ==> r[i] == if i < 3 - k then b[i] else if i == 3 - k then b[i] + d - 1 else 255
    ensures Value(r) == Value(b) - Tail(b, k) + d * Weight(k) - 1
  {
  }

  lemma {:induction false} Pow2Add(m: nat, n: nat)
    ensures Pow2(m + n) == Pow2(m) * Pow2(n)
  {
    if m > 0 {
      Pow2Add(m - 1, n);
      Double(Pow2(m - 1), Pow2(n));
    }
  }

  lemma ByteBits(a: Addr, k: nat, take: nat)
    requires k <= 3 && take <= 8
    ensures Low(As4(a)[3 - k], take) == Low(Shr(a, 8 * k), take)
  {
    hide Low, Shr;
    ShrZero(a);
    assert As4(a)[3 - k] == Low(Shr(a, 8 * k), 8);
    LowLow(Shr(a, 8 * k), 8, take);
  }

  /** OR-ing byte by byte sets the low bits of the whole address: the last address of the
      block of size 2^bits around it. */
  lemma OrLowValue(a: Addr, bits: nat)
    requires 1 <= bits <= 31
    ensures Value(OrLow(As4(a), bits)) == a - Low(a, bits) + Pow2(bits) - 1
  {
    hide Pow2, Low, Shr, OrLow, Value, As4, Tail;
    var k := (bits - 1) / 8;
    var take := bits - 8 * k;
    PowersOfTwo();
    Pow2Add(8 * k, take);
    LowAdd(a, 8 * k, take);
    ByteBits(a, k, take);
    TailOfAddress(a, k);
    ValueAs4(a);
    OrLowBytes(As4(a), k, take);
    var m, d, low := Weight(k), Pow2(take), Low(As4(a)[3 - k], take);
    assert m == Pow2(8 * k);
    Distribute(m, d, low);
  }

  lemma Distribute(m: nat, d: int, low: int)
    ensures (d - low) * m == m * d - m * low
  {
  }

  /** Whether `a` is the last address of the prefix: the host bits all ones. */
  method IsBroadcast(p: Prefix, a: Addr) returns (b: bool)
    ensures b <==> Broadcast(p, a)
  {
    hide Pow2, Low, Shr, Value, As4;
    var net := As4(p.addr);
    var hostBits := 32 - p.bits;
    if hostBits == 0 || hostBits > 31 {
      return false;
    }
    var last := new nat[4](i requires 0 <= i < 4 => net[i]);
    var remaining: int := hostBits;
    var i := 3;
    while i >= 0 && remaining > 0
      invariant -1 <= i <= 3
      invariant remaining == if hostBits > 8 * (3 - i) then hostBits - 8 * (3 - i) else 0
      invariant forall j :: 0 <= j < 4 ==> last[j] == if j > i then OrLow(net, hostBits)[j] else net[j]
    {
      var take := if remaining > 8 then 8 else remaining;
      last[i] := OrByte(net[i], take);
      remaining := remaining - take;
      i := i - 1;
    }
    assert last[..] == OrLow(net, hostBits);
    OrLowValue(p.addr, hostBits);
    ValueAs4(a);
    ValueInjective(last[..], As4(a));
    return last[..] == As4(a);
  }

  // ----- allocation -----

  datatype AllocResult = Allocated(addr: Addr) | BadSubnet | NoFree

  /** The result is the least free address, and there is no result only when no address is free. */
  ghost predicate LeastFree(p: Prefix, taken: set<Addr>, r: AllocResult) {
    && (r.Allocated? ==> Free(p, taken, r.addr) && forall b: Addr :: b < r.addr ==> !Free(p, taken, b))
    && (r.NoFree? ==> forall b: Addr :: !Free(p, taken, b))
  }

  /** The first free address of a subnet, given as parsed text. */
  method AllocIp(subnet: Option<Prefix>, taken: set<Addr>) returns (r: AllocResult)
    ensures r.BadSubnet? <==> subnet.None?
    ensures subnet.Some? ==> LeastFree(subnet.value, taken, r)
  {
    if subnet.None? {
      return BadSubnet;
    }
    hide Pow2, Low, Shr, Contains, Broadcast, Network;
    var p := Masked(subnet.value);
    MaskedSame(subnet.value);
    var addr: Option<Addr> := Next(p.addr);
    while addr.Some? && Contains(p, addr.value)
      invariant addr.Some? ==> addr.value > p.addr
      invariant forall b: Addr :: p.addr < b && (addr.Some? ==> b < addr.value) ==> !Free(subnet.value, taken, b)
      decreases if addr.Some? then SPACE - addr.value else 0
    {
      var broadcast := IsBroadcast(p, addr.value);
      if !broadcast && addr.value !in taken {
        return Allocated(addr.value);
      }
      addr := Next(addr.value);
    }
    forall b: Addr ensures !Free(subnet.value, taken, b) {
      ContainsRange(p, b);
      if addr.Some? {
        ContainsRange(p, addr.value);
      }
    }
    return NoFree;
  }

  lemma MaskedSame(p: Prefix)
    ensures Network(Masked(p)) == Network(p) == Masked(p).addr
    ensures forall a: Addr :: Contains(Masked(p), a) <==> Contains(p, a)
    ensures forall a: Addr :: Broadcast(Masked(p), a) <==> Broadcast(p, a)
  {
    forall a: Addr ensures Contains(Masked(p), a) <==> Contains(p, a) {
      ContainsRange(p, a);
    }
    LowOfHigh(p.addr, HostBits(p));
  }
}
