/** IPv4 subnets as CIDR blocks (section 3.1 of RFC 4632) and the enumeration of their hosts. */
module Cidr {
  import opened Bits

  const WIDTH := 32

  type Address = x: nat | x < Pow2(WIDTH) witness 0

  datatype RawNet = RawNet(addr: Address, ones: nat)

  /** An address with a prefix length; the address need not be the network address. */
  type Subnet = n: RawNet | n.ones <= WIDTH witness RawNet(0, 0)

  function HostBits(n: Subnet): nat { WIDTH - n.ones }

  function MaskOf(n: Subnet): nat { HighOnes(HostBits(n), WIDTH) }

  /** The network address: what masking an interface address, or parsing CIDR text, yields. */
  function Canonical(n: Subnet): (r: Subnet)
    ensures r == RawNet(Floor(n.addr, HostBits(n)), n.ones)
  {
    AndHigh(n.addr, HostBits(n), WIDTH);
    RawNet(BitAnd(n.addr, MaskOf(n), WIDTH), n.ones)
  }

  ghost predicate IsBlock(n: Subnet) {
    Canonical(n) == n
  }

  predicate Contains(n: Subnet, ip: Address) {
    BitAnd(ip, MaskOf(n), WIDTH) == BitAnd(n.addr, MaskOf(n), WIDTH)
  }

  /** The addresses of a block: 2^hostBits consecutive ones. */
  ghost predicate InBlock(b: Subnet, ip: Address) {
    b.addr <= ip < b.addr + Pow2(HostBits(b))
  }

  ghost predicate Within(b: Subnet, a: Subnet) {
    forall ip: Address :: InBlock(b, ip) ==> InBlock(a, ip)
  }

  ghost predicate Disjoint(a: Subnet, b: Subnet) {
    forall ip: Address :: !(InBlock(a, ip) && InBlock(b, ip))
  }

  // ─── Blocks ───

  lemma InBlockIsPrefix(b: Subnet, ip: Address)
    requires IsBlock(b)
    ensures InBlock(b, ip) <==> Floor(ip, HostBits(b)) == b.addr
  {
    if InBlock(b, ip) {
      FloorIs(ip, b.addr, HostBits(b));
    }
  }

  lemma ContainsIsPrefix(n: Subnet, ip: Address)
    ensures Contains(n, ip) <==> Floor(ip, HostBits(n)) == Floor(n.addr, HostBits(n))
  {
    AndHigh(ip, HostBits(n), WIDTH);
    AndHigh(n.addr, HostBits(n), WIDTH);
  }

  /** The library's mask comparison is membership in the block. */
  lemma ContainsIsMembership(n: Subnet, ip: Address)
    ensures Contains(n, ip) <==> InBlock(Canonical(n), ip)
  {
    ContainsIsPrefix(n, ip);
    CanonicalIsBlock(n);
    InBlockIsPrefix(Canonical(n), ip);
  }

  lemma CanonicalIsBlock(n: Subnet)
    ensures IsBlock(Canonical(n))
  {
    FloorTwice(n.addr, HostBits(n), HostBits(n));
  }

  /** Of two blocks, the longer prefix lies inside the other or they share no address. */
  lemma NestedOrDisjoint(a: Subnet, b: Subnet)
    requires IsBlock(a) && IsBlock(b) && a.ones <= b.ones
    ensures if InBlock(a, b.addr) then Within(b, a) else Disjoint(a, b)
  {
    InBlockIsPrefix(a, b.addr);
    forall ip: Address ensures InBlock(b, ip) ==> (InBlock(a, ip) <==> InBlock(a, b.addr)) {
      InBlockIsPrefix(a, ip);
      InBlockIsPrefix(b, ip);
      FloorTwice(ip, HostBits(b), HostBits(a));
    }
  }

  lemma Pow2Strict(h: nat, k: nat)
    requires h < k
    ensures Pow2(h) < Pow2(k)
  {
    Pow2Grows(h + 1, k);
  }

  /** The exclusion test: "contains the base address, prefix not longer" is inclusion of every address. */
  lemma WithinIff(b: Subnet, a: Subnet)
    requires IsBlock(a) && IsBlock(b)
    ensures Within(b, a) <==> InBlock(a, b.addr) && a.ones <= b.ones
  {
    assert InBlock(b, b.addr);
    FloorBounded(b.addr, HostBits(b), WIDTH);
    var last: Address := b.addr + Pow2(HostBits(b)) - 1;
    assert InBlock(b, last);
    if a.ones <= b.ones {
      NestedOrDisjoint(a, b);
    } else {
      Pow2Strict(HostBits(a), HostBits(b));
    }
  }

  /** The network of an address is the one block of that length that contains it. */
  lemma CanonicalIff(m: Subnet, n: Subnet)
    ensures n == Canonical(m) <==> n.ones == m.ones && IsBlock(n) && InBlock(n, m.addr)
  {
    CanonicalIsBlock(m);
    InBlockIsPrefix(Canonical(m), m.addr);
    FloorTwice(m.addr, HostBits(m), HostBits(m));
    if IsBlock(n) {
      InBlockIsPrefix(n, m.addr);
    }
  }

  lemma MulGrows(a: nat, b: nat, m: nat)
    requires a <= b
    ensures a * m <= b * m
  {}

  lemma DivideSum(q: nat, m: nat, r: nat)
    requires r < m
    ensures (q * m + r) / m == q
  {
    var d := (q * m + r) / m;
    assert d * m <= q * m + r < d * m + m;
    if d < q {
      MulGrows(d + 1, q, m);
    } else if d > q {
      MulGrows(q + 1, d, m);
    }
  }

  lemma HalfThenDivide(x: nat, m: nat)
    requires m > 0
    ensures x / 2 / m == x / (2 * m)
  {
    var q, r := x / (2 * m), x % (2 * m);
    assert x == q * (2 * m) + r == 2 * (q * m) + r;
    assert x / 2 == q * m + r / 2 && 0 <= r / 2 < m;
    DivideSum(q, m, r / 2);
  }

  lemma TwiceProduct(q: nat, m: nat)
    ensures 2 * (q * m) == q * (2 * m)
  {}

  lemma {:induction false} FloorIsDivision(x: nat, h: nat)
    ensures Floor(x, h) == x / Pow2(h) * Pow2(h)
  {
    if h > 0 {
      FloorIsDivision(x / 2, h - 1);
      HalfThenDivide(x, Pow2(h - 1));
      TwiceProduct(x / 2 / Pow2(h - 1), Pow2(h - 1));
    }
  }

  lemma SameQuotient(x: nat, y: nat, h: nat)
    ensures Floor(x, h) == Floor(y, h) <==> x / Pow2(h) == y / Pow2(h)
  {
    FloorIsDivision(x, h);
    FloorIsDivision(y, h);
    var p, q, m := x / Pow2(h), y / Pow2(h), Pow2(h);
    if p * m == q * m {
      SameFactor(p, q, m);
    }
  }

  lemma SameFactor(p: nat, q: nat, m: nat)
    requires m > 0 && p * m == q * m
    ensures p == q
  {
    DivideSum(p, m, 0);
    DivideSum(q, m, 0);
  }

  lemma BaseInsideIff(n: Subnet, m: Subnet)
    requires m.ones <= n.ones
    ensures InBlock(Canonical(m), Canonical(n).addr) <==> Floor(n.addr, HostBits(m)) == Floor(m.addr, HostBits(m))
  {
    CanonicalIsBlock(m);
    InBlockIsPrefix(Canonical(m), Canonical(n).addr);
    FloorTwice(n.addr, HostBits(n), HostBits(m));
  }

  /** One network lies in another exactly if its prefix is not shorter and the addresses agree in the other's bits. */
  lemma WithinByPrefix(n: Subnet, m: Subnet)
    ensures Within(Canonical(n), Canonical(m)) <==>
      m.ones <= n.ones && n.addr / Pow2(HostBits(m)) == m.addr / Pow2(HostBits(m))
  {
    CanonicalIsBlock(n);
    CanonicalIsBlock(m);
    WithinIff(Canonical(n), Canonical(m));
    if m.ones <= n.ones {
      BaseInsideIff(n, m);
      SameQuotient(n.addr, m.addr, HostBits(m));
    }
  }

  // ─── Hosts ───

  function Range(lo: nat, hi: nat): (r: seq<nat>)
    ensures |r| == if lo < hi then hi - lo else 0
    ensures forall i :: 0 <= i < |r| ==> r[i] == lo + i
  {
    if lo < hi then seq(hi - lo, i requires 0 <= i => lo + i) else []
  }

  function Broadcast(n: Subnet): (r: nat)
    ensures r < Pow2(WIDTH)
  {
    OrLow(n.addr, HostBits(n), WIDTH);
    NotHigh(HostBits(n), WIDTH);
    FloorBounded(n.addr, HostBits(n), WIDTH);
    BitOr(n.addr, BitNot(MaskOf(n), WIDTH), WIDTH)
  }

  const MAX_HOST_BITS := 12

  /** `uint32` addition. */
  function Add32(x: nat, y: nat): (r: Address) {
    ModRange(x + y, Pow2(WIDTH));
    (x + y) % Pow2(WIDTH)
  }

  ghost function Hosts(n: Subnet): seq<nat> {
    if HostBits(n) > MAX_HOST_BITS then [] else Range(Add32(n.addr, 1), Broadcast(n))
  }

  method HostIPs(n: Subnet) returns (ips: seq<Address>)
    ensures ips == Hosts(n)
  {
    ips := [];
    if HostBits(n) > MAX_HOST_BITS {
      return;
    }
    var broadcast := Broadcast(n);
    var first := Add32(n.addr, 1);
    var addr := first;
    while addr < broadcast
      invariant first <= addr && (addr <= broadcast || addr == first)
      invariant ips == Range(first, addr)
    {
      ips := ips + [addr];
      Add32Small(addr);
      addr := Add32(addr, 1);
    }
  }

  lemma SmallMod(x: nat, m: nat)
    requires x < m
    ensures x % m == x
  {}

  lemma SelfMod(m: nat)
    requires m > 0
    ensures m % m == 0
  {}

  lemma Add32Small(x: nat)
    requires x + 1 < Pow2(WIDTH)
    ensures Add32(x, 1) == x + 1
  {
    SmallMod(x + 1, Pow2(WIDTH));
  }

  lemma Add32Wraps(x: nat)
    requires x + 1 == Pow2(WIDTH)
    ensures Add32(x, 1) == 0
  {
    SelfMod(x + 1);
  }

  /** 255.255.255.255/32. */
  ghost function LastAddressBlock(): Subnet {
    RawNet(Pow2(WIDTH) - 1, WIDTH)
  }

  lemma BroadcastIsLast(b: Subnet)
    requires IsBlock(b)
    ensures Broadcast(b) == b.addr + Pow2(HostBits(b)) - 1
  {
    OrLow(b.addr, HostBits(b), WIDTH);
    NotHigh(HostBits(b), WIDTH);
  }

  ghost predicate IsHost(b: Subnet, ip: nat) {
    b.addr < ip < b.addr + Pow2(HostBits(b)) - 1
  }

  lemma LastAddressIsAlone(b: Subnet)
    requires IsBlock(b) && b.addr + 1 == Pow2(WIDTH)
    ensures b == LastAddressBlock()
  {
    FloorBounded(b.addr, HostBits(b), WIDTH);
    assert HostBits(b) > 0 ==> Pow2(HostBits(b)) >= 2;
  }

  lemma OrdinaryFirst(b: Subnet)
    requires IsBlock(b) && b != LastAddressBlock()
    ensures Add32(b.addr, 1) == b.addr + 1
  {
    if b.addr + 1 == Pow2(WIDTH) {
      LastAddressIsAlone(b);
    }
    Add32Small(b.addr);
  }

  lemma OrdinaryRange(b: Subnet)
    requires IsBlock(b) && HostBits(b) <= MAX_HOST_BITS && b != LastAddressBlock()
    ensures Hosts(b) == Range(b.addr + 1, b.addr + Pow2(HostBits(b)) - 1)
  {
    BroadcastIsLast(b);
    OrdinaryFirst(b);
  }

  lemma OrdinaryCount(b: Subnet)
    requires IsBlock(b) && HostBits(b) <= MAX_HOST_BITS && b != LastAddressBlock()
    ensures |Hosts(b)| == if HostBits(b) < 2 then 0 else Pow2(HostBits(b)) - 2
  {
    OrdinaryRange(b);
    if HostBits(b) >= 2 {
      Pow2Grows(2, HostBits(b));
      assert Pow2(2) == 4;
    }
  }

  lemma OrdinaryHosts(b: Subnet, ip: nat)
    requires IsBlock(b) && HostBits(b) <= MAX_HOST_BITS && b != LastAddressBlock()
    ensures ip in Hosts(b) <==> IsHost(b, ip)
  {
    OrdinaryRange(b);
    RangeMembers(b.addr + 1, b.addr + Pow2(HostBits(b)) - 1, ip);
  }

  lemma WrappedHosts(b: Subnet)
    requires IsBlock(b) && b.addr + 1 == Pow2(WIDTH) && HostBits(b) == 0
    ensures Hosts(b) == Range(0, b.addr)
  {
    BroadcastIsLast(b);
    Add32Wraps(b.addr);
  }

  lemma RangeMembers(lo: nat, hi: nat, ip: nat)
    ensures ip in Range(lo, hi) <==> lo <= ip < hi
  {
    if lo <= ip < hi {
      assert Range(lo, hi)[ip - lo] == ip;
    }
  }

  lemma LastBlockHosts(b: Subnet, ip: nat)
    requires IsBlock(b) && b == LastAddressBlock()
    ensures |Hosts(b)| == Pow2(WIDTH) - 1
    ensures ip in Hosts(b) <==> ip < b.addr
    ensures b.addr > 0 && !IsHost(b, ip)
  {
    WrappedHosts(b);
    RangeMembers(0, b.addr, ip);
    Pow2Strict(0, WIDTH);
  }

  /**
   * The enumeration yields, in ascending order, exactly the addresses strictly between network and broadcast
   * address, of every block of at most 2^12 addresses but one: for 255.255.255.255/32 the first address wraps
   * to zero and the rest of the address space is enumerated.
   */
  lemma HostsAreUsableIff(b: Subnet)
    requires IsBlock(b) && HostBits(b) <= MAX_HOST_BITS
    ensures (forall ip: nat :: ip in Hosts(b) <==> IsHost(b, ip)) <==> b != LastAddressBlock()
    ensures |Hosts(b)| ==
      if b == LastAddressBlock() then Pow2(WIDTH) - 1 else if HostBits(b) < 2 then 0 else Pow2(HostBits(b)) - 2
    ensures forall i, j :: 0 <= i < j < |Hosts(b)| ==> Hosts(b)[i] < Hosts(b)[j]
  {
    if b == LastAddressBlock() {
      LastBlockHosts(b, 0);
      assert 0 in Hosts(b) && !IsHost(b, 0);
    } else {
      OrdinaryCount(b);
      forall ip: nat ensures ip in Hosts(b) <==> IsHost(b, ip) {
        OrdinaryHosts(b, ip);
      }
    }
  }

  /** Never more than 4094 hosts, and none at all for prefixes shorter than /20. */
  lemma HostsAreFew(b: Subnet)
    requires IsBlock(b) && b != LastAddressBlock()
    ensures |Hosts(b)| <= 4094
    ensures b.ones < 20 ==> Hosts(b) == []
  {
    if HostBits(b) <= MAX_HOST_BITS {
      HostsAreUsableIff(b);
      Pow2Grows(HostBits(b), 12);
      assert Pow2(12) == 4096;
    }
  }
}
