/** One network scan of the probe: which subnets it scans and which devices it reports. */
module ProbeScan {
  import opened Wrappers
  import opened Sequences
  import opened Bits
  import opened Cidr
  import ScanPool

  // ─── Configuration texts ───

  /** A subnet text of the configuration: CIDR notation, a bare address, or anything else. */
  datatype SubnetText = CidrText(net: Subnet) | BareAddress(addr: Address) | OtherText(text: string)

  function ParseCIDR(text: SubnetText): Option<Subnet> {
    if text.CidrText? then Some(Canonical(text.net)) else None
  }

  /** An exclusion: CIDR text, or a bare address read as a /24. */
  function ParseExclusion(text: SubnetText): Option<Subnet> {
    match text
    case CidrText(net) => Some(Canonical(net))
    case BareAddress(addr) => Some(Canonical(RawNet(addr, 24)))
    case OtherText(_) => None
  }

  /** The meaning of the exclusion list: some exclusion contains every address of the subnet. */
  ghost predicate Excluded(subnet: SubnetText, exclusions: seq<SubnetText>) {
    var sn := ParseCIDR(subnet);
    if sn == None then
      subnet in exclusions
    else
      exists ex :: ex in exclusions && ParseExclusion(ex).Some? && Within(sn.value, ParseExclusion(ex).value)
  }

  // ─── Interfaces ───

  datatype InterfaceAddress = NetAddress(net: Subnet) | PlainAddress(addr: Address) | NotIPv4

  datatype Interface = Interface(loopback: bool, up: bool, isVirtual: bool, addresses: Option<seq<InterfaceAddress>>)

  /** The prefix length of the classful default mask. */
  function DefaultOnes(addr: Address): nat {
    var firstByte := addr / Pow2(24);
    if firstByte < 0x80 then 8 else if firstByte < 0xC0 then 16 else 24
  }

  function AddressSubnet(a: InterfaceAddress): seq<Subnet> {
    match a
    case NetAddress(net) => [Canonical(net)]
    case PlainAddress(addr) => [Canonical(RawNet(addr, DefaultOnes(addr)))]
    case NotIPv4 => []
  }

  function AddressSubnets(addresses: seq<InterfaceAddress>): seq<Subnet> {
    if addresses == [] then [] else AddressSubnet(addresses[0]) + AddressSubnets(addresses[1..])
  }

  predicate Skipped(i: Interface) {
    i.loopback || !i.up || i.isVirtual || i.addresses == None
  }

  function InterfaceSubnets(interfaces: seq<Interface>): seq<Subnet> {
    if interfaces == [] then []
    else
      (if Skipped(interfaces[0]) then [] else AddressSubnets(interfaces[0].addresses.value))
      + InterfaceSubnets(interfaces[1..])
  }

  function ExtraSubnets(extras: seq<SubnetText>): seq<Subnet> {
    if extras == [] then []
    else (if extras[0].CidrText? then [Canonical(extras[0].net)] else []) + ExtraSubnets(extras[1..])
  }

  // ─── Devices ───

  datatype Device = Device(ip: Address, mac: string, hostname: string, isOnline: bool, openPorts: Option<seq<int>>)

  /** What the network answers during the scan of one subnet. */
  datatype World = World(
    answering: set<Address>, arp: map<Address, string>, names: map<Address, string>, open: map<Address, seq<int>>)

  function Lookup(m: map<Address, string>, ip: Address): string { if ip in m then m[ip] else "" }

  ghost function Alive(n: Subnet, w: World): set<Address> {
    set ip: Address | ip in w.answering && ip in Hosts(n)
  }

  /** The addresses reported for a subnet: those that answered, and ARP entries inside the subnet. */
  ghost function Found(n: Subnet, w: World): set<Address> {
    if Hosts(n) == [] then {}
    else Alive(n, w) + set ip | ip in w.arp.Keys && InBlock(Canonical(n), ip)
  }

  function NewDevice(ip: Address, alive: bool, w: World, ports: seq<int>): Device {
    var mac := Lookup(w.arp, ip);
    Device(ip, mac, Lookup(w.names, ip), alive || mac != "",
      if ports == [] then None else Some(if alive && ip in w.open then w.open[ip] else []))
  }

  /** `d` is what the scan of `n` has to say about `d.ip`. */
  ghost predicate Describes(d: Device, n: Subnet, w: World, ports: seq<int>) {
    && d.ip in Found(n, w)
    && d.mac == (if d.ip in w.arp then w.arp[d.ip] else "")
    && d.hostname == (if d.ip in w.names then w.names[d.ip] else "")
    && (d.isOnline <==> d.ip in Alive(n, w) || (d.ip in w.arp && w.arp[d.ip] != ""))
    && (d.openPorts == None <==> ports == [])
    && (ports != [] && d.ip in Alive(n, w) && d.ip in w.open ==> d.openPorts == Some(w.open[d.ip]))
    && (ports != [] && !(d.ip in Alive(n, w) && d.ip in w.open) ==> d.openPorts == Some([]))
  }

  ghost predicate Explained(d: Device, scanned: seq<Subnet>, world: Subnet -> World, ports: seq<int>) {
    exists n :: n in scanned && Describes(d, n, world(n), ports)
  }

  function Ips(devices: seq<Device>): (r: seq<Address>)
    ensures |r| == |devices| && forall i :: 0 <= i < |r| ==> r[i] == devices[i].ip
  {
    seq(|devices|, i requires 0 <= i < |devices| => devices[i].ip)
  }

  ghost function CountIf<T>(s: seq<T>, p: T -> bool): nat {
    if s == [] then 0 else (if p(s[0]) then 1 else 0) + CountIf(s[1..], p)
  }

  ghost function Reporting(world: Subnet -> World, ip: Address): Subnet -> bool {
    (n: Subnet) => ip in Found(n, world(n))
  }

  /** How many of the scanned subnets report `ip`. */
  ghost function Reports(scanned: seq<Subnet>, world: Subnet -> World, ip: Address): nat {
    CountIf(scanned, Reporting(world, ip))
  }

  ghost function NotExcluded(subnets: seq<Subnet>, exclusions: seq<SubnetText>): seq<Subnet> {
    if subnets == [] then []
    else
      (if Excluded(CidrText(subnets[0]), exclusions) then [] else [subnets[0]])
      + NotExcluded(subnets[1..], exclusions)
  }

  datatype Self = Self(ip: Address, mac: string)

  lemma AddressStep(addresses: seq<InterfaceAddress>, before: seq<Subnet>)
    requires addresses != []
    ensures before + AddressSubnets(addresses)
         == (if addresses[0].NotIPv4? then before else before + [AddressSubnet(addresses[0])[0]])
            + AddressSubnets(addresses[1..])
  {
    var first, rest := AddressSubnet(addresses[0]), AddressSubnets(addresses[1..]);
    Assoc(before, first, rest);
    if addresses[0].NotIPv4? {
      assert before + first == before;
    } else {
      assert first == [first[0]];
    }
  }

  lemma InterfaceStep(interfaces: seq<Interface>, before: seq<Subnet>)
    requires interfaces != []
    ensures before + InterfaceSubnets(interfaces)
         == (if Skipped(interfaces[0]) then before else before + AddressSubnets(interfaces[0].addresses.value))
            + InterfaceSubnets(interfaces[1..])
  {}

  /** The list under construction and the keys already in it. */
  class Collector {
    var subnets: seq<Subnet>
    var seen: set<Subnet>
    ghost var offered: seq<Subnet>

    ghost predicate Valid()
      reads this
    {
      && subnets == FirstOccurrences(offered, {})
      && forall x :: x in seen <==> x in offered
    }

    constructor ()
      ensures Valid() && offered == []
    {
      subnets, seen, offered := [], {}, [];
    }

    method Add(key: Subnet)
      requires Valid()
      modifies this
      ensures Valid() && offered == old(offered) + [key]
    {
      OneMoreCandidate(offered, key, {});
      offered := offered + [key];
      if key !in seen {
        seen := seen + {key};
        subnets := subnets + [key];
      }
    }

    method AddAll(addresses: seq<InterfaceAddress>)
      requires Valid()
      modifies this
      ensures Valid() && offered == old(offered) + AddressSubnets(addresses)
    {
      for j := 0 to |addresses|
        invariant Valid()
        invariant offered + AddressSubnets(addresses[j..]) == old(offered) + AddressSubnets(addresses)
      {
        assert addresses[j..][0] == addresses[j] && addresses[j..][1..] == addresses[j + 1..];
        AddressStep(addresses[j..], offered);
        if !addresses[j].NotIPv4? {
          Add(AddressSubnet(addresses[j])[0]);
        }
      }
    }

    method AddInterfaces(interfaces: seq<Interface>)
      requires Valid()
      modifies this
      ensures Valid() && offered == old(offered) + InterfaceSubnets(interfaces)
    {
      for i := 0 to |interfaces|
        invariant Valid()
        invariant offered + InterfaceSubnets(interfaces[i..]) == old(offered) + InterfaceSubnets(interfaces)
      {
        var iface := interfaces[i];
        assert interfaces[i..][0] == iface && interfaces[i..][1..] == interfaces[i + 1..];
        InterfaceStep(interfaces[i..], offered);
        if !Skipped(iface) {
          AddAll(iface.addresses.value);
        }
      }
    }

    method AddExtras(extras: seq<SubnetText>)
      requires Valid()
      modifies this
      ensures Valid() && offered == old(offered) + ExtraSubnets(extras)
    {
      for i := 0 to |extras|
        invariant Valid()
        invariant offered + ExtraSubnets(extras[i..]) == old(offered) + ExtraSubnets(extras)
      {
        assert extras[i..][1..] == extras[i + 1..];
        var parsed := ParseCIDR(extras[i]);
        if parsed == None {
          continue;
        }
        Assoc(offered, [parsed.value], ExtraSubnets(extras[i + 1..]));
        Add(parsed.value);
      }
    }
  }

  class Probe {
    var cachedExcluded: seq<SubnetText>
    var cachedExtra: seq<SubnetText>
    /** Ports to scan; empty when port scanning is off. */
    var cachedPortScanPorts: seq<int>

    method IsExcluded(subnet: SubnetText) returns (r: bool)
      ensures r <==> Excluded(subnet, cachedExcluded)
    {
      var parsed := ParseCIDR(subnet);
      if parsed == None {
        return subnet in cachedExcluded;
      }
      var sn := parsed.value;
      CanonicalIsBlock(subnet.net);
      for i := 0 to |cachedExcluded|
        invariant forall k :: 0 <= k < i && ParseExclusion(cachedExcluded[k]).Some? ==>
          !Within(sn, ParseExclusion(cachedExcluded[k]).value)
      {
        var text := cachedExcluded[i];
        var exclusion := ParseExclusion(text);
        if exclusion == None {
          if text == subnet {
            return true;
          }
          continue;
        }
        var ex := exclusion.value;
        CanonicalIsBlock(if text.CidrText? then text.net else RawNet(text.addr, 24));
        ContainsIsMembership(ex, sn.addr);
        WithinIff(sn, ex);
        if ex == sn {
          assert Within(sn, ex);
          return true;
        }
        if Contains(ex, sn.addr) {
          if ex.ones <= sn.ones {
            return true;
          }
        }
      }
      r := false;
    }

    method DiscoverSubnets(interfaces: Option<seq<Interface>>) returns (subnets: seq<Subnet>)
      ensures subnets == if interfaces == None then [] else
        FirstOccurrences(InterfaceSubnets(interfaces.value) + ExtraSubnets(cachedExtra), {})
    {
      if interfaces == None {
        return [];
      }
      var c := new Collector();
      c.AddInterfaces(interfaces.value);
      c.AddExtras(cachedExtra);
      assert [] + InterfaceSubnets(interfaces.value) == InterfaceSubnets(interfaces.value);
      subnets := c.subnets;
    }

    method ScanSubnet(n: Subnet, w: World) returns (devices: seq<Device>)
      ensures NoDuplicates(Ips(devices))
      ensures forall ip: Address :: ip in Ips(devices) <==> ip in Found(n, w)
      ensures forall d :: d in devices ==> Describes(d, n, w, cachedPortScanPorts)
      ensures forall d :: d in devices ==>
        && d.mac == (if d.ip in w.arp then w.arp[d.ip] else "")
        && d.hostname == (if d.ip in w.names then w.names[d.ip] else "")
        && (d.isOnline <==> d.ip in Alive(n, w) || (d.ip in w.arp && w.arp[d.ip] != ""))
        && (d.openPorts == None <==> cachedPortScanPorts == [])
        && (cachedPortScanPorts != [] && d.ip !in Alive(n, w) ==> d.openPorts == Some([]))
    {
      devices := [];
      var ips := HostIPs(n);
      if |ips| == 0 {
        return;
      }
      var alive := set ip | ip in ips && ip in w.answering;
      var nearby := set ip | ip in w.arp.Keys && Contains(n, ip);
      forall ip: Address ensures Contains(n, ip) <==> InBlock(Canonical(n), ip) {
        ContainsIsMembership(n, ip);
      }
      assert alive == Alive(n, w);
      assert alive + nearby == Found(n, w);
      devices := ListDevices(alive + nearby, alive, w);
    }

    method ListDevices(seen: set<Address>, alive: set<Address>, w: World) returns (devices: seq<Device>)
      ensures NoDuplicates(Ips(devices))
      ensures forall ip: Address :: ip in Ips(devices) <==> ip in seen
      ensures forall d :: d in devices ==> d == NewDevice(d.ip, d.ip in alive, w, cachedPortScanPorts)
    {
      devices := [];
      var todo := seen;
      while todo != {}
        invariant todo <= seen
        invariant NoDuplicates(Ips(devices))
        invariant forall ip: Address :: ip in Ips(devices) <==> ip in seen && ip !in todo
        invariant forall d :: d in devices ==> d == NewDevice(d.ip, d.ip in alive, w, cachedPortScanPorts)
        decreases todo
      {
        var ip :| ip in todo;
        todo := todo - {ip};
        var d := NewDevice(ip, ip in alive, w, cachedPortScanPorts);
        assert Ips(devices + [d]) == Ips(devices) + [ip];
        devices := devices + [d];
      }
    }

    method DoScan(interfaces: Option<seq<Interface>>, world: Subnet -> World, self: Option<Self>, hostname: string)
      returns (scanned: seq<Subnet>, devices: seq<Device>, ghost found: seq<Device>)
      ensures scanned == NotExcluded(
        if interfaces == None then []
        else FirstOccurrences(InterfaceSubnets(interfaces.value) + ExtraSubnets(cachedExtra), {}), cachedExcluded)
      ensures forall ip: Address :: multiset(Ips(found))[ip] == Reports(scanned, world, ip)
      ensures forall d :: d in found ==> Explained(d, scanned, world, cachedPortScanPorts)
      ensures devices == if self == None then found else InjectSelf(found, self.value, hostname)
    {
      var subnets := DiscoverSubnets(interfaces);
      scanned, devices := ScanAll(subnets, world);
      found := devices;
      if self.Some? {
        devices := AddSelf(devices, self.value, hostname);
      }
    }

    method ScanAll(subnets: seq<Subnet>, world: Subnet -> World) returns (scanned: seq<Subnet>, devices: seq<Device>)
      ensures scanned == NotExcluded(subnets, cachedExcluded)
      ensures forall ip: Address :: multiset(Ips(devices))[ip] == Reports(scanned, world, ip)
      ensures forall d :: d in devices ==> Explained(d, scanned, world, cachedPortScanPorts)
    {
      scanned, devices := [], [];
      for i := 0 to |subnets|
        invariant scanned + NotExcluded(subnets[i..], cachedExcluded) == NotExcluded(subnets, cachedExcluded)
        invariant forall ip: Address :: multiset(Ips(devices))[ip] == Reports(scanned, world, ip)
        invariant forall d :: d in devices ==> Explained(d, scanned, world, cachedPortScanPorts)
      {
        var sn := subnets[i];
        assert subnets[i..][0] == sn && subnets[i..][1..] == subnets[i + 1..];
        ExclusionStep(subnets[i..], cachedExcluded, scanned);
        var excluded := IsExcluded(CidrText(sn));
        if !excluded {
          var inSubnet := ScanSubnet(sn, world(sn));
          ReportsStep(devices, scanned, inSubnet, sn, world);
          ExplainedStep(devices, scanned, inSubnet, sn, world, cachedPortScanPorts);
          scanned := scanned + [sn];
          devices := devices + inSubnet;
        }
      }
    }

    method AddSelf(found: seq<Device>, self: Self, hostname: string) returns (devices: seq<Device>)
      ensures devices == InjectSelf(found, self, hostname)
    {
      devices := found;
      for i := 0 to |found|
        invariant devices == found
        invariant InjectSelf(found, self, hostname) == found[..i] + InjectSelf(found[i..], self, hostname)
      {
        InjectStep(found, self, hostname, i);
        if devices[i].ip == self.ip {
          devices := devices[i := devices[i].(mac := self.mac, isOnline := true)];
          return;
        }
      }
      assert found[..|found|] == found && found[|found|..] == [];
      devices := devices + [Device(self.ip, self.mac, hostname, true, None)];
    }
  }

  /** The probe's own entry: the first device with its address gets its MAC, or a new device is appended. */
  function InjectSelf(found: seq<Device>, self: Self, hostname: string): seq<Device> {
    if found == [] then
      [Device(self.ip, self.mac, hostname, true, None)]
    else if found[0].ip == self.ip then
      [found[0].(mac := self.mac, isOnline := true)] + found[1..]
    else
      [found[0]] + InjectSelf(found[1..], self, hostname)
  }

  lemma InjectStep(found: seq<Device>, self: Self, hostname: string, i: nat)
    requires i < |found|
    ensures found[..i] + InjectSelf(found[i..], self, hostname) ==
      if found[i].ip == self.ip then found[i := found[i].(mac := self.mac, isOnline := true)]
      else found[..i + 1] + InjectSelf(found[i + 1..], self, hostname)
  {
    assert found[i..][0] == found[i] && found[i..][1..] == found[i + 1..];
    if found[i].ip != self.ip {
      Assoc(found[..i], [found[i]], InjectSelf(found[i + 1..], self, hostname));
      assert found[..i] + [found[i]] == found[..i + 1];
    }
  }

  lemma ExclusionStep(subnets: seq<Subnet>, exclusions: seq<SubnetText>, before: seq<Subnet>)
    requires subnets != []
    ensures before + NotExcluded(subnets, exclusions)
         == (if Excluded(CidrText(subnets[0]), exclusions) then before else before + [subnets[0]])
            + NotExcluded(subnets[1..], exclusions)
  {}

  lemma {:induction false} CountOneMore<T>(s: seq<T>, x: T, p: T -> bool)
    ensures CountIf(s + [x], p) == CountIf(s, p) + if p(x) then 1 else 0
  {
    if s == [] {
      assert [x][1..] == [];
    } else {
      assert (s + [x])[1..] == s[1..] + [x];
      CountOneMore(s[1..], x, p);
    }
  }

  lemma ExplainedStep(
      devices: seq<Device>, scanned: seq<Subnet>, inSubnet: seq<Device>, sn: Subnet, world: Subnet -> World,
      ports: seq<int>)
    requires forall d :: d in devices ==> Explained(d, scanned, world, ports)
    requires forall d :: d in inSubnet ==> Describes(d, sn, world(sn), ports)
    ensures forall d :: d in devices + inSubnet ==> Explained(d, scanned + [sn], world, ports)
  {
    forall d | d in devices + inSubnet ensures Explained(d, scanned + [sn], world, ports) {
      if d in devices {
        var n :| n in scanned && Describes(d, n, world(n), ports);
        assert n in scanned + [sn];
      } else {
        assert sn in scanned + [sn];
      }
    }
  }

  lemma ReportsStep(
      devices: seq<Device>, scanned: seq<Subnet>, inSubnet: seq<Device>, sn: Subnet, world: Subnet -> World)
    requires forall ip: Address :: multiset(Ips(devices))[ip] == Reports(scanned, world, ip)
    requires NoDuplicates(Ips(inSubnet))
    requires forall ip: Address :: ip in Ips(inSubnet) <==> ip in Found(sn, world(sn))
    ensures forall ip: Address :: multiset(Ips(devices + inSubnet))[ip] == Reports(scanned + [sn], world, ip)
  {
    assert Ips(devices + inSubnet) == Ips(devices) + Ips(inSubnet);
    forall ip: Address ensures multiset(Ips(devices + inSubnet))[ip] == Reports(scanned + [sn], world, ip) {
      CountConcat(Ips(devices), Ips(inSubnet), ip);
      OccursOnce(Ips(inSubnet), ip);
      CountOneMore(scanned, sn, Reporting(world, ip));
    }
  }

  /** A CIDR exclusion covers the networks of at least its prefix length that agree with it in those bits. */
  lemma CidrExclusionIff(n: Subnet, m: Subnet)
    ensures Excluded(CidrText(n), [CidrText(m)]) <==>
      m.ones <= n.ones && n.addr / Pow2(HostBits(m)) == m.addr / Pow2(HostBits(m))
  {
    WithinByPrefix(n, m);
    OneExclusion(n, CidrText(m));
  }

  /** A bare address excludes the networks, of prefix length 24 or more, with the same first three octets. */
  lemma BareExclusionIff(n: Subnet, addr: Address)
    ensures Excluded(CidrText(n), [BareAddress(addr)]) <==> n.ones >= 24 && n.addr / 256 == addr / 256
  {
    var m: Subnet := RawNet(addr, 24);
    assert Pow2(8) == 256;
    WithinByPrefix(n, m);
    OneExclusion(n, BareAddress(addr));
  }

  lemma OneExclusion(n: Subnet, ex: SubnetText)
    ensures Excluded(CidrText(n), [ex]) <==>
      ParseExclusion(ex).Some? && Within(Canonical(n), ParseExclusion(ex).value)
  {
    assert ex in [ex];
  }

  /** Any other text excludes no network; the list excludes what one of its entries does. */
  lemma ExcludedByOne(n: Subnet, exclusions: seq<SubnetText>, text: string)
    ensures !Excluded(CidrText(n), [OtherText(text)])
    ensures Excluded(CidrText(n), exclusions) <==> exists ex :: ex in exclusions && Excluded(CidrText(n), [ex])
  {
    OneExclusion(n, OtherText(text));
    forall ex ensures Excluded(CidrText(n), [ex]) <==>
      ParseExclusion(ex).Some? && Within(Canonical(n), ParseExclusion(ex).value)
    {
      OneExclusion(n, ex);
    }
  }

  /** Exclusion passes down: every block inside an excluded one is excluded. */
  lemma ExclusionPassesDown(outer: Subnet, inner: Subnet, exclusions: seq<SubnetText>)
    requires Within(Canonical(inner), Canonical(outer)) && Excluded(CidrText(outer), exclusions)
    ensures Excluded(CidrText(inner), exclusions)
  {
    var ex :| ex in exclusions && ParseExclusion(ex).Some? && Within(Canonical(outer), ParseExclusion(ex).value);
    assert Within(Canonical(inner), ParseExclusion(ex).value);
  }

  // ─── The concurrent scans compute what is reported ───

  const PROBE_PORTS: seq<int> := [22, 80, 443, 445, 8080, 8443, 554, 21, 23, 3389, 9100, 515, 631]

  const PING_CONCURRENCY := 256

  ghost function TcpScan(targets: seq<int>, answers: (int, int) -> bool): ScanPool.Scan {
    ScanPool.Scan(targets, PROBE_PORTS, answers, true, PING_CONCURRENCY)
  }

  ghost function TcpScanPorts(targets: seq<int>, ports: seq<int>, answers: (int, int) -> bool): ScanPool.Scan {
    ScanPool.Scan(targets, ports, answers, false, PING_CONCURRENCY)
  }

  /** An address answers if one of the thirteen probe ports does. */
  ghost predicate AnswersSomewhere(w: World, answers: (int, int) -> bool) {
    forall ip: Address :: ip in w.answering <==>
      exists p :: p in {22, 80, 443, 445, 8080, 8443, 554, 21, 23, 3389, 9100, 515, 631} && answers(ip, p)
  }

  lemma ProbePortsAreListed(p: int)
    ensures p in PROBE_PORTS <==> p in {22, 80, 443, 445, 8080, 8443, 554, 21, 23, 3389, 9100, 515, 631}
  {}

  lemma AnswersAsListed(w: World, answers: (int, int) -> bool, ip: Address)
    requires AnswersSomewhere(w, answers)
    ensures ip in w.answering <==> exists p :: p in PROBE_PORTS && answers(ip, p)
  {
    forall p ensures p in PROBE_PORTS <==> p in {22, 80, 443, 445, 8080, 8443, 554, 21, 23, 3389, 9100, 515, 631} {
      ProbePortsAreListed(p);
    }
  }

  lemma ScannedIffAnswers(
      c: ScanPool.Scan, s: ScanPool.State, steps: seq<ScanPool.Step>, x: int)
    requires c.capacity > 0 && ScanPool.Reachable(c, s, steps) && s.main == ScanPool.Returned
    ensures x in s.results <==> x in c.targets && exists p :: p in c.ports && c.answers(x, p)
  {
    ScanPool.ScanIsDeterministic(c, s, steps);
    ScanPool.ExpectedIffSomePortAnswers(c, x);
  }

  lemma HostIsAddress(n: Subnet, x: int)
    requires x in Hosts(n)
    ensures 0 <= x < Pow2(WIDTH)
  {}

  /** Whatever the schedule: once the concurrent scan of a subnet has returned, its result is the alive set. */
  lemma PoolFindsAlive(
      n: Subnet, w: World, answers: (int, int) -> bool, s: ScanPool.State, steps: seq<ScanPool.Step>, x: int)
    requires AnswersSomewhere(w, answers)
    requires ScanPool.Reachable(TcpScan(Hosts(n), answers), s, steps) && s.main == ScanPool.Returned
    ensures x in s.results <==> 0 <= x < Pow2(WIDTH) && x in Alive(n, w)
  {
    ScannedIffAnswers(TcpScan(Hosts(n), answers), s, steps, x);
    if x in Hosts(n) {
      HostIsAddress(n, x);
      AnswersAsListed(w, answers, x);
    }
  }

  /** At no time are more than 256 targets dialled, by either scan. */
  lemma AtMost256AtOnce(
      targets: seq<int>, ports: seq<int>, answers: (int, int) -> bool, s: ScanPool.State, steps: seq<ScanPool.Step>)
    requires ScanPool.Reachable(TcpScan(targets, answers), s, steps)
      || ScanPool.Reachable(TcpScanPorts(targets, ports, answers), s, steps)
    ensures ScanPool.FlightCount(s.workers) <= 256
  {
    if ScanPool.Reachable(TcpScan(targets, answers), s, steps) {
      ScanPool.InFlightIsBounded(TcpScan(targets, answers), s, steps);
    } else {
      ScanPool.InFlightIsBounded(TcpScanPorts(targets, ports, answers), s, steps);
    }
  }

  /** And once the port scan of the alive addresses has returned, each alive device lists exactly its open ports. */
  lemma PoolFindsPorts(
      targets: seq<int>, ports: seq<int>, answers: (int, int) -> bool, s: ScanPool.State, steps: seq<ScanPool.Step>,
      w: World, ip: Address)
    requires ip in targets && ports != []
    requires ScanPool.Reachable(TcpScanPorts(targets, ports, answers), s, steps) && s.main == ScanPool.Returned
    requires ip in w.open <==> ip in s.results
    requires ip in w.open ==> w.open[ip] == s.results[ip]
    ensures NewDevice(ip, true, w, ports).openPorts == Some(ScanPool.OpenPorts(answers, ip, ports))
  {
    var c := TcpScanPorts(targets, ports, answers);
    ScanPool.ScanIsDeterministic(c, s, steps);
    assert ScanPool.Expected(c, ip) == ScanPool.OpenPorts(answers, ip, ports);
  }

  // ─── What is discovered ───

  /** `n` is the network of an interface address: with its own prefix length, or that of its class. */
  ghost predicate IsNetworkOf(n: Subnet, a: InterfaceAddress) {
    && IsBlock(n)
    && match a
       case NetAddress(net) => n.ones == net.ones && InBlock(n, net.addr)
       case PlainAddress(addr) =>
         InBlock(n, addr) && n.ones == if addr < 0x8000_0000 then 8 else if addr < 0xC000_0000 then 16 else 24
       case NotIPv4 => false
  }

  lemma ClassByAddress(addr: Address)
    ensures DefaultOnes(addr) == if addr < 0x8000_0000 then 8 else if addr < 0xC000_0000 then 16 else 24
  {
    assert Pow2(8) == 0x100;
    assert Pow2(16) == 0x1_0000;
    assert Pow2(24) == 0x100_0000;
  }

  lemma AddressSubnetIff(a: InterfaceAddress, n: Subnet)
    ensures n in AddressSubnet(a) <==> IsNetworkOf(n, a)
  {
    match a
    case NetAddress(net) => CanonicalIff(net, n);
    case PlainAddress(addr) =>
      ClassByAddress(addr);
      CanonicalIff(RawNet(addr, DefaultOnes(addr)), n);
    case NotIPv4 =>
  }

  lemma {:induction false} AddressSubnetsIff(addresses: seq<InterfaceAddress>, n: Subnet)
    ensures n in AddressSubnets(addresses) <==> exists a :: a in addresses && IsNetworkOf(n, a)
  {
    if addresses != [] {
      AddressSubnetIff(addresses[0], n);
      AddressSubnetsIff(addresses[1..], n);
      assert forall a :: a in addresses <==> a == addresses[0] || a in addresses[1..];
    }
  }

  /** The interface is up, neither a loopback nor virtual, and one of its addresses is in the network. */
  ghost predicate Offers(i: Interface, n: Subnet) {
    && i.up && !i.loopback && !i.isVirtual && i.addresses.Some?
    && exists a :: a in i.addresses.value && IsNetworkOf(n, a)
  }

  lemma OffersIff(i: Interface, n: Subnet)
    ensures n in (if Skipped(i) then [] else AddressSubnets(i.addresses.value)) <==> Offers(i, n)
  {
    if i.addresses.Some? {
      AddressSubnetsIff(i.addresses.value, n);
    }
  }

  lemma {:induction false} InterfaceSubnetsIff(interfaces: seq<Interface>, n: Subnet)
    ensures n in InterfaceSubnets(interfaces) <==> exists i :: i in interfaces && Offers(i, n)
  {
    if interfaces != [] {
      OffersIff(interfaces[0], n);
      InterfaceSubnetsIff(interfaces[1..], n);
      assert forall i :: i in interfaces <==> i == interfaces[0] || i in interfaces[1..];
    }
  }

  lemma {:induction false} ExtraSubnetsIff(extras: seq<SubnetText>, n: Subnet)
    ensures n in ExtraSubnets(extras) <==> exists e :: e in extras && e.CidrText? && IsNetworkOf(n, NetAddress(e.net))
  {
    if extras != [] {
      if extras[0].CidrText? {
        CanonicalIff(extras[0].net, n);
      }
      ExtraSubnetsIff(extras[1..], n);
      assert forall e :: e in extras <==> e == extras[0] || e in extras[1..];
    }
  }

  /** Discovered are the networks of the usable interfaces' IPv4 addresses and of the extra CIDR texts, no others. */
  lemma DiscoveredIff(interfaces: seq<Interface>, extras: seq<SubnetText>, n: Subnet)
    ensures n in FirstOccurrences(InterfaceSubnets(interfaces) + ExtraSubnets(extras), {}) <==>
      || (exists i :: i in interfaces && Offers(i, n))
      || (exists e :: e in extras && e.CidrText? && IsNetworkOf(n, NetAddress(e.net)))
  {
    FirstOccurrencesAreDistinct(InterfaceSubnets(interfaces) + ExtraSubnets(extras), {});
    InterfaceSubnetsIff(interfaces, n);
    ExtraSubnetsIff(extras, n);
  }

  /** What the scan of an ordinary block reports: hosts that answered, and ARP entries inside the block. */
  lemma FoundIff(b: Subnet, w: World, ip: Address)
    requires IsBlock(b) && IsScannable(b) && b != LastAddressBlock()
    ensures ip in Found(b, w) <==> (ip in w.answering && IsHost(b, ip)) || (ip in w.arp && InBlock(b, ip))
  {
    ScannableIff(b);
    HostsAreUsableIff(b);
  }

  // ─── Can a device be reported twice? ───

  lemma {:induction false} CandidatesAreBlocks(interfaces: seq<Interface>, extras: seq<SubnetText>, n: Subnet)
    requires n in InterfaceSubnets(interfaces) + ExtraSubnets(extras)
    ensures IsBlock(n)
    decreases |interfaces| + |extras|
  {
    if n in InterfaceSubnets(interfaces) {
      if !Skipped(interfaces[0]) && n in AddressSubnets(interfaces[0].addresses.value) {
        AddressesAreBlocks(interfaces[0].addresses.value, n);
      } else {
        CandidatesAreBlocks(interfaces[1..], extras, n);
      }
    } else if extras[0].CidrText? && n == Canonical(extras[0].net) {
      CanonicalIsBlock(extras[0].net);
    } else {
      CandidatesAreBlocks([], extras[1..], n);
    }
  }

  lemma {:induction false} AddressesAreBlocks(addresses: seq<InterfaceAddress>, n: Subnet)
    requires n in AddressSubnets(addresses)
    ensures IsBlock(n)
  {
    if n in AddressSubnet(addresses[0]) {
      CanonicalIsBlock(if addresses[0].NetAddress? then addresses[0].net
                       else RawNet(addresses[0].addr, DefaultOnes(addresses[0].addr)));
    } else {
      AddressesAreBlocks(addresses[1..], n);
    }
  }

  lemma {:induction false} NotExcludedKeeps(subnets: seq<Subnet>, exclusions: seq<SubnetText>)
    requires NoDuplicates(subnets)
    ensures NoDuplicates(NotExcluded(subnets, exclusions))
    ensures forall n :: n in NotExcluded(subnets, exclusions) <==>
      n in subnets && !Excluded(CidrText(n), exclusions)
  {
    if subnets != [] {
      NotExcludedKeeps(subnets[1..], exclusions);
      assert forall n :: n in subnets <==> n == subnets[0] || n in subnets[1..];
    }
  }

  /** What is scanned: each discovered block that no exclusion contains, once. */
  lemma ScannedBlocks(
      interfaces: seq<Interface>, extras: seq<SubnetText>, exclusions: seq<SubnetText>, n: Subnet)
    ensures var candidates := InterfaceSubnets(interfaces) + ExtraSubnets(extras);
      var scanned := NotExcluded(FirstOccurrences(candidates, {}), exclusions);
      && NoDuplicates(scanned)
      && (n in scanned ==> IsBlock(n))
      && (n in scanned <==> n in candidates && !exists ex ::
            ex in exclusions && ParseExclusion(ex).Some? && Within(n, ParseExclusion(ex).value))
  {
    var candidates := InterfaceSubnets(interfaces) + ExtraSubnets(extras);
    FirstOccurrencesAreDistinct(candidates, {});
    NotExcludedKeeps(FirstOccurrences(candidates, {}), exclusions);
    if n in candidates {
      CandidatesAreBlocks(interfaces, extras, n);
    }
  }

  lemma FoundIsInside(b: Subnet, w: World, ip: Address)
    requires IsBlock(b) && b != LastAddressBlock() && ip in Found(b, w)
    ensures InBlock(b, ip)
  {
    if ip in Alive(b, w) {
      HostsAreUsableIff(b);
    }
  }

  lemma {:induction false} OneHit<T>(s: seq<T>, p: T -> bool) returns (i: nat)
    requires CountIf(s, p) >= 1
    ensures i < |s| && p(s[i])
  {
    i := 0;
    if !p(s[0]) {
      var k := OneHit(s[1..], p);
      i := k + 1;
    }
  }

  lemma {:induction false} TwoHits<T>(s: seq<T>, p: T -> bool) returns (i: nat, j: nat)
    requires CountIf(s, p) >= 2
    ensures i < j < |s| && p(s[i]) && p(s[j])
  {
    if p(s[0]) {
      var k := OneHit(s[1..], p);
      i, j := 0, k + 1;
    } else {
      var k, l := TwoHits(s[1..], p);
      i, j := k + 1, l + 1;
    }
  }

  lemma {:induction false} TwoMembersCount<T>(s: seq<T>, p: T -> bool, a: T, b: T)
    requires a in s && b in s && a != b && p(a) && p(b)
    ensures CountIf(s, p) >= 2
  {
    if s[0] == a {
      OneMemberCounts(s[1..], p, b);
    } else if s[0] == b {
      OneMemberCounts(s[1..], p, a);
    } else {
      TwoMembersCount(s[1..], p, a, b);
    }
  }

  lemma {:induction false} OneMemberCounts<T>(s: seq<T>, p: T -> bool, a: T)
    requires a in s && p(a)
    ensures CountIf(s, p) >= 1
  {
    if s[0] != a {
      OneMemberCounts(s[1..], p, a);
    }
  }

  /** A block whose scan reports anything: a prefix from /20 to /30, or the block whose enumeration wraps. */
  ghost predicate IsScannable(b: Subnet) {
    20 <= b.ones <= 30 || b == LastAddressBlock()
  }

  lemma ScannableIff(b: Subnet)
    requires IsBlock(b)
    ensures Hosts(b) != [] <==> IsScannable(b)
  {
    if HostBits(b) <= MAX_HOST_BITS {
      HostsAreUsableIff(b);
      Pow2Strict(0, WIDTH);
      if HostBits(b) >= 2 {
        Pow2Grows(2, HostBits(b));
        assert Pow2(2) == 4;
      }
    }
  }

  /** Two scanned blocks that can both report one device: one inside the other, or one wraps. */
  ghost predicate CanShareDevice(a: Subnet, b: Subnet) {
    && IsScannable(a) && IsScannable(b)
    && (a == LastAddressBlock() || b == LastAddressBlock() || Within(a, b) || Within(b, a))
  }

  lemma DuplicateMeansShared(scanned: seq<Subnet>, world: Subnet -> World, ip: Address)
    returns (a: Subnet, b: Subnet)
    requires NoDuplicates(scanned) && forall n :: n in scanned ==> IsBlock(n)
    requires Reports(scanned, world, ip) >= 2
    ensures a in scanned && b in scanned && a != b && CanShareDevice(a, b)
  {
    var i, j := TwoHits(scanned, Reporting(world, ip));
    a, b := scanned[i], scanned[j];
    ScannableIff(a);
    ScannableIff(b);
    if a != LastAddressBlock() && b != LastAddressBlock() {
      FoundIsInside(a, world(a), ip);
      FoundIsInside(b, world(b), ip);
      if a.ones <= b.ones {
        NestedOrDisjoint(a, b);
      } else {
        NestedOrDisjoint(b, a);
      }
    }
  }

  /** A network in which only `ip` exists. */
  ghost function OnlyDevice(ip: Address): Subnet -> World {
    (n: Subnet) => World({ip}, map[ip := "mac"], map[], map[])
  }

  lemma FoundInOwnBlock(b: Subnet, ip: Address)
    requires IsBlock(b) && IsScannable(b) && InBlock(b, ip)
    ensures ip in Found(b, OnlyDevice(ip)(b))
  {
    ScannableIff(b);
  }

  lemma FoundByWrapping(ip: Address)
    requires ip + 1 < Pow2(WIDTH)
    ensures ip in Found(LastAddressBlock(), OnlyDevice(ip)(LastAddressBlock()))
  {
    var last := LastAddressBlock();
    assert Floor(last.addr, 0) == last.addr;
    LastBlockHosts(last, ip);
    assert ip in Alive(last, OnlyDevice(ip)(last));
  }

  lemma SharedWithWrapping(b: Subnet)
    requires IsBlock(b) && IsScannable(b) && b != LastAddressBlock()
    ensures b.addr in Found(b, OnlyDevice(b.addr)(b))
    ensures b.addr in Found(LastAddressBlock(), OnlyDevice(b.addr)(LastAddressBlock()))
  {
    FloorBounded(b.addr, HostBits(b), WIDTH);
    Pow2Grows(2, HostBits(b));
    assert Pow2(2) == 4;
    FoundInOwnBlock(b, b.addr);
    FoundByWrapping(b.addr);
  }

  lemma SharedWhenNested(outer: Subnet, inner: Subnet)
    requires IsBlock(outer) && IsBlock(inner) && IsScannable(outer) && IsScannable(inner) && Within(inner, outer)
    ensures inner.addr in Found(outer, OnlyDevice(inner.addr)(outer))
    ensures inner.addr in Found(inner, OnlyDevice(inner.addr)(inner))
  {
    assert InBlock(inner, inner.addr);
    FoundInOwnBlock(outer, inner.addr);
    FoundInOwnBlock(inner, inner.addr);
  }

  lemma SharedDevice(a: Subnet, b: Subnet) returns (ip: Address)
    requires IsBlock(a) && IsBlock(b) && a != b && CanShareDevice(a, b)
    ensures ip in Found(a, OnlyDevice(ip)(a)) && ip in Found(b, OnlyDevice(ip)(b))
  {
    if a == LastAddressBlock() {
      ip := b.addr;
      SharedWithWrapping(b);
    } else if b == LastAddressBlock() {
      ip := a.addr;
      SharedWithWrapping(a);
    } else if Within(a, b) {
      ip := a.addr;
      SharedWhenNested(b, a);
    } else {
      ip := b.addr;
      SharedWhenNested(a, b);
    }
  }

  /** Whatever the network answers, no address is reported twice: iff no two scanned blocks can share a device. */
  lemma ReportsAreUniqueIff(scanned: seq<Subnet>)
    requires NoDuplicates(scanned) && forall n :: n in scanned ==> IsBlock(n)
    ensures (forall world: Subnet -> World, ip: Address :: Reports(scanned, world, ip) <= 1) <==>
      (forall a, b :: a in scanned && b in scanned && a != b ==> !CanShareDevice(a, b))
  {
    if a, b :| a in scanned && b in scanned && a != b && CanShareDevice(a, b) {
      var ip := SharedDevice(a, b);
      TwoMembersCount(scanned, Reporting(OnlyDevice(ip), ip), a, b);
      assert Reports(scanned, OnlyDevice(ip), ip) >= 2;
    } else {
      forall world: Subnet -> World, ip: Address ensures Reports(scanned, world, ip) <= 1 {
        if Reports(scanned, world, ip) >= 2 {
          var a, b := DuplicateMeansShared(scanned, world, ip);
        }
      }
    }
  }

  /**
   * The probe's own entry in full: the first device with its address keeps its place, name and ports and gets the
   * probe's MAC and state; if there is none, a new device with the probe's name comes last.
   */
  lemma {:induction false} SelfEntry(found: seq<Device>, self: Self, hostname: string) returns (i: nat)
    ensures i <= |found| && forall k :: 0 <= k < i ==> found[k].ip != self.ip
    ensures i < |found| ==>
      && found[i].ip == self.ip
      && InjectSelf(found, self, hostname)
         == found[i := Device(self.ip, self.mac, found[i].hostname, true, found[i].openPorts)]
    ensures i == |found| ==>
      InjectSelf(found, self, hostname) == found + [Device(self.ip, self.mac, hostname, true, None)]
  {
    i := 0;
    if found != [] && found[0].ip != self.ip {
      i := SelfEntry(found[1..], self, hostname);
      i := i + 1;
      assert found == [found[0]] + found[1..];
    }
  }

  lemma {:induction false} SelfIsInjectedOnce(found: seq<Device>, self: Self, hostname: string)
    requires NoDuplicates(Ips(found))
    ensures NoDuplicates(Ips(InjectSelf(found, self, hostname)))
    ensures forall ip :: ip in Ips(InjectSelf(found, self, hostname)) <==> ip in Ips(found) || ip == self.ip
    ensures exists d :: d in InjectSelf(found, self, hostname) && d.ip == self.ip && d.mac == self.mac && d.isOnline
    ensures forall d :: d in found && d.ip != self.ip ==> d in InjectSelf(found, self, hostname)
  {
    var devices := InjectSelf(found, self, hostname);
    if found == [] {
      assert devices[0] in devices && Ips(devices) == [self.ip];
    } else if found[0].ip == self.ip {
      assert Ips(devices) == Ips(found);
      assert devices[0] in devices;
    } else {
      var rest := InjectSelf(found[1..], self, hostname);
      assert Ips(found[1..]) == Ips(found)[1..];
      SelfIsInjectedOnce(found[1..], self, hostname);
      assert Ips(devices) == [found[0].ip] + Ips(rest) && Ips(found) == [found[0].ip] + Ips(found[1..]);
      ConsDistinct(found[0].ip, Ips(found[1..]));
      ConsDistinct(found[0].ip, Ips(rest));
    }
  }

  /**
   * If no two scanned blocks can share a device, no address is reported twice, neither before nor after the
   * probe adds itself; and the probe's own address is then reported exactly once, online and with its MAC.
   */
  lemma ScanReportsEachDeviceOnce(
      scanned: seq<Subnet>, world: Subnet -> World, found: seq<Device>, self: Self, hostname: string)
    requires NoDuplicates(scanned) && forall b :: b in scanned ==> IsBlock(b)
    requires forall a, b :: a in scanned && b in scanned && a != b ==> !CanShareDevice(a, b)
    requires forall ip: Address :: multiset(Ips(found))[ip] == Reports(scanned, world, ip)
    ensures NoDuplicates(Ips(found)) && NoDuplicates(Ips(InjectSelf(found, self, hostname)))
    ensures exists d :: d in InjectSelf(found, self, hostname) && d.ip == self.ip && d.mac == self.mac && d.isOnline
  {
    ReportsAreUniqueIff(scanned);
    forall ip: Address ensures multiset(Ips(found))[ip] <= 1 {
      assert Reports(scanned, world, ip) <= 1;
    }
    CountsMakeDistinct(Ips(found));
    SelfIsInjectedOnce(found, self, hostname);
  }
}
