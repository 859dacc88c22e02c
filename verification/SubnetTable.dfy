/** The device table of a site: sorting, and grouping into /24 subnets. */
module SubnetTable {
  import opened Wrappers
  import opened Sequences
  import opened Sorting
  import opened Bits
  import opened Text

  // ─── 32-bit operators of JavaScript ───

  function ToUint32(x: int): nat { x % 0x1_0000_0000 }

  function ToInt32(x: int): int {
    if ToUint32(x) >= 0x8000_0000 then ToUint32(x) - 0x1_0000_0000 else ToUint32(x)
  }

  function ShiftLeft(x: int, k: nat): int { ToInt32(ToUint32(x) * Pow2(k)) }

  function Or(x: int, y: int): int { ToInt32(BitOr(ToUint32(x), ToUint32(y), 32)) }

  // ─── Addresses ───

  /** An address text, split at the dots. */
  type Ip = seq<string>

  function IpToNum(ip: Ip): nat {
    if |ip| != 4 then 0
    else
      ToUint32(Or(Or(Or(ShiftLeft(Number(ip[0]), 24), ShiftLeft(Number(ip[1]), 16)), ShiftLeft(Number(ip[2]), 8)),
        Number(ip[3])))
  }

  /** The /24 prefix; text that is not a quad is its own group. */
  function SubnetOf(ip: Ip): Ip {
    if |ip| == 4 then ip[..3] else ip
  }

  predicate IsOctet(s: string) {
    Number(s) < 256 && s == Decimal(Number(s))
  }

  /** A dotted quad in the usual spelling. */
  predicate IsQuad(ip: Ip) {
    |ip| == 4 && IsOctet(ip[0]) && IsOctet(ip[1]) && IsOctet(ip[2]) && IsOctet(ip[3])
  }

  ghost predicate AllQuads(items: seq<SiteItem>) {
    forall x :: x in items ==> IsQuad(x.ip)
  }

  /** The decimal text of a number below 256. */
  ghost predicate SpellsOctet(s: string) {
    exists n: nat :: n < 256 && s == Decimal(n)
  }

  lemma OctetIff(s: string)
    ensures IsOctet(s) <==> SpellsOctet(s)
  {
    if n: nat :| n < 256 && s == Decimal(n) {
      NumberOfDecimal(n);
    }
  }

  /** Quads are exactly the texts of four octets. */
  lemma QuadsAreUsualSpelling(ip: Ip)
    ensures IsQuad(ip) <==> |ip| == 4 && forall i :: 0 <= i < 4 ==> SpellsOctet(ip[i])
  {
    if |ip| == 4 {
      OctetIff(ip[0]);
      OctetIff(ip[1]);
      OctetIff(ip[2]);
      OctetIff(ip[3]);
    }
  }

  function Positional(ip: Ip): nat
    requires |ip| == 4
  {
    0x1000000 * Number(ip[0]) + 0x10000 * Number(ip[1]) + 0x100 * Number(ip[2]) + Number(ip[3])
  }

  lemma Powers()
    ensures Pow2(8) == 0x100 && Pow2(16) == 0x1_0000 && Pow2(24) == 0x100_0000
    ensures Pow2(31) == 0x8000_0000 && Pow2(32) == 0x1_0000_0000
  {}

  lemma SignedRoundTrip(x: nat)
    requires x < 0x1_0000_0000
    ensures ToUint32(ToInt32(x)) == x
  {}

  lemma OrOfDisjoint(x: int, y: int, high: nat, h: nat)
    requires h <= 32 && ToUint32(x) == high * Pow2(h) && ToUint32(y) < Pow2(h)
    requires ToUint32(x) + ToUint32(y) < 0x1_0000_0000
    ensures ToUint32(Or(x, y)) == ToUint32(x) + ToUint32(y)
  {
    Powers();
    OrDisjoint(high, ToUint32(y), h, 32);
    SignedRoundTrip(ToUint32(x) + ToUint32(y));
  }

  lemma ShiftOfSmall(x: nat, k: nat, shifted: nat)
    requires x < 0x1_0000_0000 && shifted == x * Pow2(k) && shifted < 0x1_0000_0000
    ensures ToUint32(ShiftLeft(x, k)) == shifted
  {
    assert ToUint32(x) == x;
    SignedRoundTrip(shifted);
  }

  /** The combined value is the positional one, although the first shift may go negative. */
  lemma IpToNumIsPositional(ip: Ip)
    requires |ip| == 4 && forall i :: 0 <= i < 4 ==> Number(ip[i]) < 256
    ensures IpToNum(ip) == Positional(ip)
  {
    Powers();
    var a, b, c, d := Number(ip[0]), Number(ip[1]), Number(ip[2]), Number(ip[3]);
    var first, second, third := ShiftLeft(a, 24), ShiftLeft(b, 16), ShiftLeft(c, 8);
    ShiftOfSmall(a, 24, 0x1000000 * a);
    ShiftOfSmall(b, 16, 0x10000 * b);
    ShiftOfSmall(c, 8, 0x100 * c);
    assert ToUint32(d) == d;
    OrOfDisjoint(first, second, a, 24);
    OrOfDisjoint(Or(first, second), third, 0x100 * a + b, 16);
    OrOfDisjoint(Or(Or(first, second), third), d, 0x10000 * a + 0x100 * b + c, 8);
  }

  // ─── Sorting ───

  /** A date text: missing, readable as a time in milliseconds, or not a date. */
  datatype Date = Never | At(ms: int) | Unreadable

  datatype SiteItem = SiteItem(
    id: int, ip: Ip, mac: Option<string>, customName: Option<string>, hostname: Option<string>,
    vendor: Option<string>, deviceType: Option<string>, lastSeenAt: Date, offline: bool)

  datatype TextColumn = Mac | Name | Vendor | Type

  /** What to sort by; `localeCompare` is the locale's comparison of texts. */
  datatype SortKey = ByIp | ByText(column: TextColumn, localeCompare: (string, string) -> int) | ByLastSeen

  datatype SortDir = Asc | Desc

  function OrEmpty(s: Option<string>): (r: string)
    ensures s == None ==> r == ""
    ensures s.Some? ==> Some(r) == s
  {
    if s.Some? then s.value else ""
  }

  function TextOf(item: SiteItem, column: TextColumn): string {
    match column
    case Mac => OrEmpty(item.mac)
    case Name => Lower(if item.customName.Some? then item.customName.value else OrEmpty(item.hostname))
    case Vendor => OrEmpty(item.vendor)
    case Type => OrEmpty(item.deviceType)
  }

  /** `None`: not a number. */
  function TimeOf(item: SiteItem): Option<int> {
    match item.lastSeenAt
    case Never => Some(0)
    case At(ms) => Some(ms)
    case Unreadable => None
  }

  function Difference(x: Option<int>, y: Option<int>): Option<int> {
    if x.Some? && y.Some? then Some(x.value - y.value) else None
  }

  /** The result is `None` if it is not a number. */
  function CompareSiteItems(a: SiteItem, b: SiteItem, key: SortKey, dir: SortDir): Option<int> {
    var cmp := match key
      case ByIp => Some(IpToNum(a.ip) - IpToNum(b.ip))
      case ByText(column, localeCompare) => Some(localeCompare(TextOf(a, column), TextOf(b, column)))
      case ByLastSeen => Difference(TimeOf(a), TimeOf(b));
    if dir == Desc && cmp.Some? then Some(-cmp.value) else cmp
  }

  /** How the sort reads a comparison: a result that is not a number counts as zero. */
  function ItemOrder(key: SortKey, dir: SortDir): (SiteItem, SiteItem) -> bool {
    (a: SiteItem, b: SiteItem) =>
      var cmp := CompareSiteItems(a, b, key, dir);
      cmp == None || cmp.value <= 0
  }

  /** What the language promises of `localeCompare`: a consistent comparison of all texts. */
  ghost predicate IsCollation(compare: (string, string) -> int) {
    && (forall s, t :: compare(s, t) <= 0 <==> compare(t, s) >= 0)
    && (forall s, t, u :: compare(s, t) <= 0 && compare(t, u) <= 0 ==> compare(s, u) <= 0)
  }

  /** No date is unreadable, or all readable ones are the same. */
  ghost predicate DatesCompare(items: set<SiteItem>) {
    || (forall a :: a in items ==> TimeOf(a).Some?)
    || (forall a, b :: a in items && b in items && TimeOf(a).Some? && TimeOf(b).Some? ==> TimeOf(a) == TimeOf(b))
  }

  lemma UnreadableDateBreaksOrder(items: set<SiteItem>, dir: SortDir, a: SiteItem, b: SiteItem, c: SiteItem)
    requires a in items && b in items && c in items
    requires TimeOf(a).Some? && TimeOf(b).Some? && TimeOf(a).value < TimeOf(b).value && TimeOf(c) == None
    ensures !IsPreorderOn(items, ItemOrder(ByLastSeen, dir))
  {
    var leq := ItemOrder(ByLastSeen, dir);
    assert leq(a, c) && leq(c, b) && leq(b, c) && leq(c, a);
    assert !leq(a, b) || !leq(b, a);
  }

  lemma TextsCompare(items: set<SiteItem>, key: SortKey, dir: SortDir)
    requires key.ByText? && IsCollation(key.localeCompare)
    ensures IsPreorderOn(items, ItemOrder(key, dir))
  {
    var leq := ItemOrder(key, dir);
    forall a, b | a in items && b in items ensures leq(a, b) || leq(b, a) {
      var s, t := TextOf(a, key.column), TextOf(b, key.column);
      assert key.localeCompare(s, t) <= 0 <==> key.localeCompare(t, s) >= 0;
    }
    forall a, b, c | a in items && b in items && c in items && leq(a, b) && leq(b, c) ensures leq(a, c) {
      var s, t, u := TextOf(a, key.column), TextOf(b, key.column), TextOf(c, key.column);
      assert key.localeCompare(s, t) <= 0 <==> key.localeCompare(t, s) >= 0;
      assert key.localeCompare(t, u) <= 0 <==> key.localeCompare(u, t) >= 0;
      assert key.localeCompare(s, u) <= 0 <==> key.localeCompare(u, s) >= 0;
      assert key.localeCompare(t, s) <= 0 <==> key.localeCompare(s, t) >= 0;
      assert key.localeCompare(u, t) <= 0 <==> key.localeCompare(t, u) >= 0;
      assert key.localeCompare(u, s) <= 0 <==> key.localeCompare(s, u) >= 0;
    }
  }

  /**
   * For every column, direction and set of items: the comparison is a total preorder, as a sort needs it, except
   * when it is by date, some date is unreadable and two readable ones differ.
   */
  lemma ComparisonIsOrderIff(items: set<SiteItem>, key: SortKey, dir: SortDir)
    requires key.ByText? ==> IsCollation(key.localeCompare)
    ensures IsPreorderOn(items, ItemOrder(key, dir)) <==> (key.ByLastSeen? ==> DatesCompare(items))
  {
    match key
    case ByIp =>
    case ByText(_, _) => TextsCompare(items, key, dir);
    case ByLastSeen =>
      if !DatesCompare(items) {
        var c :| c in items && TimeOf(c) == None;
        var a, b :| a in items && b in items && TimeOf(a).Some? && TimeOf(b).Some? && TimeOf(a) != TimeOf(b);
        if TimeOf(a).value < TimeOf(b).value {
          UnreadableDateBreaksOrder(items, dir, a, b, c);
        } else {
          UnreadableDateBreaksOrder(items, dir, b, a, c);
        }
      }
  }

  ghost function ElementsOf<T>(s: seq<T>): set<T> {
    set x | x in s
  }

  /** The list the page shows, for any column: see `Sorting.SortSpec` for what that means. */
  lemma SortedItems(items: seq<SiteItem>, key: SortKey, dir: SortDir, x: SiteItem)
    requires key.ByText? ==> IsCollation(key.localeCompare)
    requires key.ByLastSeen? ==> DatesCompare(ElementsOf(items))
    requires x in items
    ensures Ascending(StableSort(items, ItemOrder(key, dir)), ItemOrder(key, dir))
    ensures Ties(StableSort(items, ItemOrder(key, dir)), x, ItemOrder(key, dir)) == Ties(items, x, ItemOrder(key, dir))
  {
    ComparisonIsOrderIff(ElementsOf(items), key, dir);
    SortSpec(items, x, ItemOrder(key, dir), ElementsOf(items));
  }

  lemma SortedPair(items: seq<SiteItem>, key: SortKey, dir: SortDir, sorted: seq<SiteItem>, i: nat, j: nat)
    requires key.ByText? ==> IsCollation(key.localeCompare)
    requires key.ByLastSeen? ==> DatesCompare(ElementsOf(items))
    requires sorted == StableSort(items, ItemOrder(key, dir)) && i < j < |sorted|
    ensures ItemOrder(key, dir)(sorted[i], sorted[j])
  {
    SortIsPermutation(items, ItemOrder(key, dir));
    assert sorted[i] in multiset(sorted);
    SortedItems(items, key, dir, sorted[i]);
    AscendingPair(sorted, ItemOrder(key, dir), i, j);
  }

  /** Sorted by address: `low` before `high` in ascending, after it in descending order. */
  lemma SortedByIp(
      items: seq<SiteItem>, dir: SortDir, sorted: seq<SiteItem>, i: nat, j: nat, low: SiteItem, high: SiteItem)
    requires sorted == StableSort(items, ItemOrder(ByIp, dir)) && i < j < |sorted|
    requires if dir == Asc then low == sorted[i] && high == sorted[j] else low == sorted[j] && high == sorted[i]
    ensures IpToNum(low.ip) <= IpToNum(high.ip)
  {
    SortedPair(items, ByIp, dir, sorted, i, j);
    IpOrder(sorted[i], sorted[j], dir);
  }

  lemma IpOrder(a: SiteItem, b: SiteItem, dir: SortDir)
    requires ItemOrder(ByIp, dir)(a, b)
    ensures if dir == Asc then IpToNum(a.ip) <= IpToNum(b.ip) else IpToNum(b.ip) <= IpToNum(a.ip)
  {}

  lemma TextOrder(a: SiteItem, b: SiteItem, column: TextColumn, compare: (string, string) -> int, dir: SortDir)
    requires IsCollation(compare) && ItemOrder(ByText(column, compare), dir)(a, b)
    ensures if dir == Asc then compare(TextOf(a, column), TextOf(b, column)) <= 0
            else compare(TextOf(b, column), TextOf(a, column)) <= 0
  {
    var s, t := TextOf(a, column), TextOf(b, column);
    assert compare(t, s) <= 0 <==> compare(s, t) >= 0;
  }

  /**
   * Sorted by a text column: the texts ascend or descend in the locale's order, a missing one being empty. The name
   * is the custom name, or else the host name, in lower case.
   */
  lemma SortedByText(
      items: seq<SiteItem>, column: TextColumn, compare: (string, string) -> int, dir: SortDir,
      sorted: seq<SiteItem>, i: nat, j: nat, low: SiteItem, high: SiteItem)
    requires IsCollation(compare)
    requires sorted == StableSort(items, ItemOrder(ByText(column, compare), dir)) && i < j < |sorted|
    requires if dir == Asc then low == sorted[i] && high == sorted[j] else low == sorted[j] && high == sorted[i]
    ensures column == Mac ==> compare(OrEmpty(low.mac), OrEmpty(high.mac)) <= 0
    ensures column == Vendor ==> compare(OrEmpty(low.vendor), OrEmpty(high.vendor)) <= 0
    ensures column == Type ==> compare(OrEmpty(low.deviceType), OrEmpty(high.deviceType)) <= 0
    ensures column == Name ==>
      compare(Lower(OrEmpty(if low.customName == None then low.hostname else low.customName)),
              Lower(OrEmpty(if high.customName == None then high.hostname else high.customName))) <= 0
  {
    SortedPair(items, ByText(column, compare), dir, sorted, i, j);
    TextOrder(sorted[i], sorted[j], column, compare, dir);
  }

  /** Sorted by date: the times ascend or descend, a missing date counting as time 0. */
  lemma SortedByLastSeen(
      items: seq<SiteItem>, dir: SortDir, sorted: seq<SiteItem>, i: nat, j: nat, low: SiteItem, high: SiteItem)
    requires DatesCompare(ElementsOf(items))
    requires sorted == StableSort(items, ItemOrder(ByLastSeen, dir)) && i < j < |sorted|
    requires if dir == Asc then low == sorted[i] && high == sorted[j] else low == sorted[j] && high == sorted[i]
    ensures low.lastSeenAt.At? && high.lastSeenAt.At? ==> low.lastSeenAt.ms <= high.lastSeenAt.ms
    ensures low.lastSeenAt.Never? && high.lastSeenAt.At? ==> 0 <= high.lastSeenAt.ms
    ensures low.lastSeenAt.At? && high.lastSeenAt.Never? ==> low.lastSeenAt.ms <= 0
  {
    SortedPair(items, ByLastSeen, dir, sorted, i, j);
    if TimeOf(sorted[i]).Some? && TimeOf(sorted[j]).Some? {
      TimeOrder(sorted[i], sorted[j], dir);
    }
  }

  lemma TimeOrder(a: SiteItem, b: SiteItem, dir: SortDir)
    requires ItemOrder(ByLastSeen, dir)(a, b) && TimeOf(a).Some? && TimeOf(b).Some?
    ensures if dir == Asc then TimeOf(a).value <= TimeOf(b).value else TimeOf(b).value <= TimeOf(a).value
  {}

  // ─── Grouping ───

  function Visible(items: seq<SiteItem>, hideOffline: bool): seq<SiteItem> {
    if items == [] then []
    else (if hideOffline && items[0].offline then [] else [items[0]]) + Visible(items[1..], hideOffline)
  }

  function Keys(items: seq<SiteItem>): (r: seq<Ip>)
    ensures |r| == |items|
  {
    if items == [] then [] else [SubnetOf(items[0].ip)] + Keys(items[1..])
  }

  /** The items of one subnet, in the order of `items`. */
  function Bucket(items: seq<SiteItem>, key: Ip): seq<SiteItem> {
    if items == [] then []
    else (if SubnetOf(items[0].ip) == key then [items[0]] else []) + Bucket(items[1..], key)
  }

  lemma {:induction false} KeysOfOneMore(items: seq<SiteItem>, x: SiteItem)
    ensures Keys(items + [x]) == Keys(items) + [SubnetOf(x.ip)]
  {
    if items == [] {
      assert [x][1..] == [];
    } else {
      KeysOfOneMore(items[1..], x);
      assert (items + [x])[1..] == items[1..] + [x];
    }
  }

  lemma {:induction false} BucketOfOneMore(items: seq<SiteItem>, x: SiteItem, key: Ip)
    ensures Bucket(items + [x], key) == Bucket(items, key) + if SubnetOf(x.ip) == key then [x] else []
  {
    if items == [] {
      assert [x][1..] == [];
    } else {
      BucketOfOneMore(items[1..], x, key);
      assert (items + [x])[1..] == items[1..] + [x];
      Assoc(if SubnetOf(items[0].ip) == key then [items[0]] else [], Bucket(items[1..], key),
        if SubnetOf(x.ip) == key then [x] else []);
    }
  }

  ghost predicate AreBuckets(subnets: map<Ip, seq<SiteItem>>, items: seq<SiteItem>) {
    && (forall key :: key in subnets <==> key in Keys(items))
    && (forall key :: Bucket(items, key) == if key in subnets then subnets[key] else [])
  }

  lemma BucketsOfOneMore(subnets: map<Ip, seq<SiteItem>>, items: seq<SiteItem>, x: SiteItem)
    requires AreBuckets(subnets, items)
    ensures AreBuckets(subnets[SubnetOf(x.ip) := Bucket(items, SubnetOf(x.ip)) + [x]], items + [x])
  {
    KeysOfOneMore(items, x);
    var k := SubnetOf(x.ip);
    var updated := subnets[k := Bucket(items, k) + [x]];
    forall key ensures Bucket(items + [x], key) == if key in updated then updated[key] else [] {
      BucketOfOneMore(items, x, key);
      if key != k {
        assert Bucket(items, key) + [] == Bucket(items, key);
      }
    }
  }

  /** The page's loop; `order` is the insertion order of the map's keys. */
  method GroupBySubnet(items: seq<SiteItem>) returns (order: seq<Ip>, subnets: map<Ip, seq<SiteItem>>)
    ensures order == FirstOccurrences(Keys(items), {})
    ensures AreBuckets(subnets, items)
  {
    order, subnets := [], map[];
    for i := 0 to |items|
      invariant order == FirstOccurrences(Keys(items[..i]), {})
      invariant AreBuckets(subnets, items[..i])
    {
      var item := items[i];
      var subnet := SubnetOf(item.ip);
      assert items[..i + 1] == items[..i] + [item];
      KeysOfOneMore(items[..i], item);
      BucketsOfOneMore(subnets, items[..i], item);
      OneMoreCandidate(Keys(items[..i]), subnet, {});
      if subnet !in subnets {
        subnets := subnets[subnet := []];
        order := order + [subnet];
      }
      subnets := subnets[subnet := subnets[subnet] + [item]];
    }
    assert items[..|items|] == items;
  }

  function KeyNum(key: Ip): int {
    IpToNum(key + ["0"])
  }

  function KeyOrder(): (Ip, Ip) -> bool {
    (a: Ip, b: Ip) => KeyNum(a) - KeyNum(b) <= 0
  }

  /** The groups as shown, one after the other. */
  ghost function Shown(keys: seq<Ip>, items: seq<SiteItem>): seq<SiteItem> {
    if keys == [] then [] else Bucket(items, keys[0]) + Shown(keys[1..], items)
  }

  function SubnetKeys(items: seq<SiteItem>): seq<Ip> {
    StableSort(FirstOccurrences(Keys(items), {}), KeyOrder())
  }

  /** Two texts are in one group exactly if they are the same, or in three or four parts with the same first three. */
  lemma SameGroupIff(p: Ip, q: Ip)
    ensures SubnetOf(p) == SubnetOf(q) <==>
      p == q || (|p| in {3, 4} && |q| in {3, 4} && p[0] == q[0] && p[1] == q[1] && p[2] == q[2])
  {
    if |p| in {3, 4} && |q| in {3, 4} {
      assert p[..3] == [p[0], p[1], p[2]] && q[..3] == [q[0], q[1], q[2]];
      assert |p| == 3 ==> p[..3] == p;
      assert |q| == 3 ==> q[..3] == q;
    }
  }

  /** Text that is not in four parts sorts as number 0 and is a group of its own, whatever its parts. */
  lemma NotInFourParts(ip: Ip)
    requires |ip| != 4
    ensures IpToNum(ip) == 0 && SubnetOf(ip) == ip
  {}

  // ─── Every item is shown once ───

  lemma {:induction false} BucketCount(items: seq<SiteItem>, key: Ip, x: SiteItem)
    ensures multiset(Bucket(items, key))[x] == if SubnetOf(x.ip) == key then multiset(items)[x] else 0
  {
    if items != [] {
      BucketCount(items[1..], key, x);
      assert items == [items[0]] + items[1..];
      CountConcat([items[0]], items[1..], x);
      CountConcat(if SubnetOf(items[0].ip) == key then [items[0]] else [], Bucket(items[1..], key), x);
    }
  }

  lemma {:induction false} ShownCount(keys: seq<Ip>, items: seq<SiteItem>, x: SiteItem)
    requires NoDuplicates(keys)
    ensures multiset(Shown(keys, items))[x] == if SubnetOf(x.ip) in keys then multiset(items)[x] else 0
  {
    if keys != [] {
      ShownCount(keys[1..], items, x);
      BucketCount(items, keys[0], x);
      CountConcat(Bucket(items, keys[0]), Shown(keys[1..], items), x);
      if SubnetOf(x.ip) == keys[0] {
        assert SubnetOf(x.ip) !in keys[1..];
      }
    }
  }

  lemma {:induction false} KeyOfMember(items: seq<SiteItem>, x: SiteItem)
    requires x in items
    ensures SubnetOf(x.ip) in Keys(items)
  {
    if x != items[0] {
      KeyOfMember(items[1..], x);
    }
  }

  lemma SubnetKeysSpec(items: seq<SiteItem>)
    ensures NoDuplicates(SubnetKeys(items)) && Ascending(SubnetKeys(items), KeyOrder())
    ensures forall key :: key in SubnetKeys(items) <==> key in Keys(items)
  {
    var order := FirstOccurrences(Keys(items), {});
    FirstOccurrencesAreDistinct(Keys(items), {});
    SortIsPermutation(order, KeyOrder());
    SortAscends(order, KeyOrder(), set key | key in order);
    forall key ensures key in SubnetKeys(items) <==> key in order {
      assert key in multiset(SubnetKeys(items)) <==> key in multiset(order);
    }
    forall key | key in SubnetKeys(items) ensures multiset(SubnetKeys(items))[key] <= 1 {
      OccursOnce(order, key);
    }
    CountsMakeDistinct(SubnetKeys(items));
  }

  /** For every sort column: the groups shown contain every listed item, each as often as it is listed. */
  lemma GroupsPartitionItems(items: seq<SiteItem>, x: SiteItem)
    ensures multiset(Shown(SubnetKeys(items), items))[x] == multiset(items)[x]
  {
    SubnetKeysSpec(items);
    ShownCount(SubnetKeys(items), items, x);
    if x in items {
      KeyOfMember(items, x);
    } else {
      assert x !in multiset(items);
    }
  }

  // ─── Sorted by address, grouping changes nothing ───

  /** The first three octets as one number. */
  ghost function High(ip: Ip): int
    requires |ip| >= 3
  {
    0x10000 * Number(ip[0]) + 0x100 * Number(ip[1]) + Number(ip[2])
  }

  lemma PositionalOfQuad(a: string, b: string, c: string, d: string)
    ensures Positional([a, b, c, d]) == 0x100 * High([a, b, c]) + Number(d)
  {}

  lemma OctetZero()
    ensures Number("0") == 0
  {
    assert "0"[..0] == [];
  }

  lemma QuadNumbers(ip: Ip)
    requires IsQuad(ip)
    ensures IpToNum(ip) == 0x100 * High(ip) + Number(ip[3])
    ensures KeyNum(SubnetOf(ip)) == 0x100 * High(ip)
  {
    var a, b, c, d := ip[0], ip[1], ip[2], ip[3];
    assert ip == [a, b, c, d];
    IpToNumIsPositional([a, b, c, d]);
    PositionalOfQuad(a, b, c, d);
    OctetZero();
    assert SubnetOf(ip) + ["0"] == [a, b, c, "0"];
    IpToNumIsPositional([a, b, c, "0"]);
    PositionalOfQuad(a, b, c, "0");
  }

  lemma SameHigh(p: Ip, q: Ip)
    requires IsQuad(p) && IsQuad(q) && High(p) == High(q)
    ensures SubnetOf(p) == SubnetOf(q)
  {
    assert Number(p[0]) == Number(q[0]) && Number(p[1]) == Number(q[1]) && Number(p[2]) == Number(q[2]);
    assert p[..3] == [p[0], p[1], p[2]] && q[..3] == [q[0], q[1], q[2]];
  }

  /** On quads, subnets are ordered like their addresses, and equal numbers mean the same subnet. */
  lemma SubnetsFollowAddresses(p: Ip, q: Ip)
    requires IsQuad(p) && IsQuad(q)
    ensures IpToNum(p) <= IpToNum(q) ==> KeyNum(SubnetOf(p)) <= KeyNum(SubnetOf(q))
    ensures KeyNum(SubnetOf(p)) == KeyNum(SubnetOf(q)) ==> SubnetOf(p) == SubnetOf(q)
  {
    QuadNumbers(p);
    QuadNumbers(q);
    if High(p) == High(q) {
      SameHigh(p, q);
    }
  }

  lemma {:induction false} SeenIsIrrelevant(s: seq<Ip>, k: Ip, seen: set<Ip>)
    requires k !in s
    ensures FirstOccurrences(s, seen + {k}) == FirstOccurrences(s, seen)
  {
    if s != [] {
      SeenIsIrrelevant(s[1..], k, if s[0] in seen then seen else seen + {s[0]});
      assert seen + {k} + {s[0]} == seen + {s[0]} + {k};
    }
  }

  lemma BucketSkips(x: SiteItem, rest: seq<SiteItem>, key: Ip)
    requires SubnetOf(x.ip) != key
    ensures Bucket([x] + rest, key) == Bucket(rest, key)
  {
    assert ([x] + rest)[1..] == rest;
    assert [] + Bucket(rest, key) == Bucket(rest, key);
  }

  lemma {:induction false} ShownSkips(keys: seq<Ip>, x: SiteItem, rest: seq<SiteItem>)
    requires SubnetOf(x.ip) !in keys
    ensures Shown(keys, [x] + rest) == Shown(keys, rest)
  {
    if keys != [] {
      ShownSkips(keys[1..], x, rest);
      BucketSkips(x, rest, keys[0]);
    }
  }

  lemma {:induction false} BucketEmpty(items: seq<SiteItem>, key: Ip)
    requires key !in Keys(items)
    ensures Bucket(items, key) == []
  {
    if items != [] {
      BucketEmpty(items[1..], key);
    }
  }

  lemma {:induction false} KeysOfAscending(items: seq<SiteItem>, x: SiteItem, key: Ip)
    requires IsQuad(x.ip) && (forall y :: y in items ==> IsQuad(y.ip) && IpToNum(x.ip) <= IpToNum(y.ip))
    requires key in Keys(items)
    ensures KeyNum(SubnetOf(x.ip)) <= KeyNum(key)
    ensures KeyNum(SubnetOf(x.ip)) == KeyNum(key) ==> SubnetOf(x.ip) == key
  {
    if key == SubnetOf(items[0].ip) {
      SubnetsFollowAddresses(x.ip, items[0].ip);
    } else {
      KeysOfAscending(items[1..], x, key);
    }
  }

  /** One more item in front: it opens a new group or joins the first one. */
  lemma OrderWithFirst(x: SiteItem, rest: seq<SiteItem>)
    requires SubnetOf(x.ip) in Keys(rest) ==> Keys(rest)[0] == SubnetOf(x.ip)
    ensures FirstOccurrences(Keys([x] + rest), {})
         == (if SubnetOf(x.ip) in Keys(rest) then [] else [SubnetOf(x.ip)]) + FirstOccurrences(Keys(rest), {})
  {
    var k := SubnetOf(x.ip);
    assert ([x] + rest)[1..] == rest;
    assert Keys([x] + rest)[1..] == Keys(rest);
    if k !in Keys(rest) {
      SeenIsIrrelevant(Keys(rest), k, {});
    }
  }

  lemma ShownWithFirst(x: SiteItem, rest: seq<SiteItem>)
    requires SubnetOf(x.ip) in Keys(rest) ==> Keys(rest)[0] == SubnetOf(x.ip)
    requires Shown(FirstOccurrences(Keys(rest), {}), rest) == rest
    ensures Shown(FirstOccurrences(Keys([x] + rest), {}), [x] + rest) == [x] + rest
  {
    var k, keys := SubnetOf(x.ip), FirstOccurrences(Keys(rest), {});
    OrderWithFirst(x, rest);
    FirstOccurrencesAreDistinct(Keys(rest), {});
    assert ([x] + rest)[1..] == rest;
    if k in Keys(rest) {
      assert keys[0] == k;
      ShownSkips(keys[1..], x, rest);
      Assoc([x], Bucket(rest, k), Shown(keys[1..], rest));
    } else {
      ShownSkips(keys, x, rest);
      BucketEmpty(rest, k);
      assert ([k] + keys)[1..] == keys;
    }
  }

  lemma AscendingKeysCons(k: Ip, keys: seq<Ip>)
    requires Ascending(keys, KeyOrder()) && forall key :: key in keys ==> KeyNum(k) <= KeyNum(key)
    ensures Ascending([k] + keys, KeyOrder())
  {
    AscendingCons(k, keys, KeyOrder());
  }

  lemma KeysAscendStep(x: SiteItem, rest: seq<SiteItem>)
    requires Ascending(FirstOccurrences(Keys(rest), {}), KeyOrder())
    requires forall key :: key in Keys(rest) ==> KeyNum(SubnetOf(x.ip)) <= KeyNum(key)
    requires SubnetOf(x.ip) in Keys(rest) ==> Keys(rest)[0] == SubnetOf(x.ip)
    ensures Ascending(FirstOccurrences(Keys([x] + rest), {}), KeyOrder())
  {
    OrderWithFirst(x, rest);
    FirstOccurrencesAreDistinct(Keys(rest), {});
    if SubnetOf(x.ip) !in Keys(rest) {
      AscendingKeysCons(SubnetOf(x.ip), FirstOccurrences(Keys(rest), {}));
    }
  }

  /** In an ascending list of quads the subnets come in ascending order. */
  lemma {:induction false} KeysAscend(items: seq<SiteItem>)
    requires Ascending(items, ItemOrder(ByIp, Asc)) && AllQuads(items)
    ensures Ascending(FirstOccurrences(Keys(items), {}), KeyOrder())
  {
    if items != [] {
      KeysAscend(items[1..]);
      FirstIsLeast(items);
      KeysAscendStep(items[0], items[1..]);
      assert items == [items[0]] + items[1..];
    }
  }

  /** In such a list, showing the subnets in turn is the list itself. */
  lemma {:induction false} AscendingListIsGrouped(items: seq<SiteItem>)
    requires Ascending(items, ItemOrder(ByIp, Asc)) && AllQuads(items)
    ensures Shown(FirstOccurrences(Keys(items), {}), items) == items
  {
    if items != [] {
      AscendingListIsGrouped(items[1..]);
      FirstIsLeast(items);
      ShownWithFirst(items[0], items[1..]);
      assert items == [items[0]] + items[1..];
    }
  }

  lemma OrderByIp(x: SiteItem, y: SiteItem)
    ensures ItemOrder(ByIp, Asc)(x, y) <==> IpToNum(x.ip) <= IpToNum(y.ip)
  {}

  lemma LeastByIp(items: seq<SiteItem>)
    requires items != [] && Ascending(items, ItemOrder(ByIp, Asc))
    ensures forall y :: y in items ==> IpToNum(items[0].ip) <= IpToNum(y.ip)
  {
    forall y | y in items ensures IpToNum(items[0].ip) <= IpToNum(y.ip) {
      OrderByIp(items[0], y);
    }
  }

  lemma FirstIsLeast(items: seq<SiteItem>)
    requires items != [] && Ascending(items, ItemOrder(ByIp, Asc)) && AllQuads(items)
    ensures forall key :: key in Keys(items[1..]) ==> KeyNum(SubnetOf(items[0].ip)) <= KeyNum(key)
    ensures SubnetOf(items[0].ip) in Keys(items[1..]) ==> Keys(items[1..])[0] == SubnetOf(items[0].ip)
  {
    var x, rest := items[0], items[1..];
    LeastByIp(items);
    forall key | key in Keys(rest) ensures KeyNum(SubnetOf(x.ip)) <= KeyNum(key) {
      KeysOfAscending(rest, x, key);
    }
    if SubnetOf(x.ip) in Keys(rest) {
      LeastByIp(rest);
      assert rest[0] in rest;
      KeysOfAscending(rest, rest[0], SubnetOf(x.ip));
      KeysOfAscending(rest, x, SubnetOf(rest[0].ip));
    }
  }

  /** Sorted by ascending address, the grouped table shows exactly the stably sorted list of visible items. */
  lemma SortedByIpGroupsConcatenate(items: seq<SiteItem>, hideOffline: bool)
    requires AllQuads(items)
    ensures var sorted := StableSort(Visible(items, hideOffline), ItemOrder(ByIp, Asc));
      Shown(SubnetKeys(sorted), sorted) == sorted
  {
    var visible := Visible(items, hideOffline);
    var sorted := StableSort(visible, ItemOrder(ByIp, Asc));
    VisibleAreItems(items, hideOffline);
    SortIsPermutation(visible, ItemOrder(ByIp, Asc));
    ComparisonIsOrderIff(ElementsOf(visible), ByIp, Asc);
    SortAscends(visible, ItemOrder(ByIp, Asc), ElementsOf(visible));
    forall x | x in sorted ensures IsQuad(x.ip) {
      assert x in multiset(visible);
    }
    AscendingListIsGrouped(sorted);
    KeysAscend(sorted);
    SortOfAscending(FirstOccurrences(Keys(sorted), {}), KeyOrder());
  }

  lemma {:induction false} VisibleAreItems(items: seq<SiteItem>, hideOffline: bool)
    ensures forall x :: x in Visible(items, hideOffline) <==> x in items && !(hideOffline && x.offline)
  {
    if items != [] {
      VisibleAreItems(items[1..], hideOffline);
      assert forall x :: x in items <==> x == items[0] || x in items[1..];
    }
  }

  lemma {:induction false} VisibleOfOneMore(items: seq<SiteItem>, x: SiteItem, hideOffline: bool)
    ensures Visible(items + [x], hideOffline)
         == Visible(items, hideOffline) + if hideOffline && x.offline then [] else [x]
  {
    if items == [] {
      assert [x][1..] == [];
    } else {
      VisibleOfOneMore(items[1..], x, hideOffline);
      assert (items + [x])[1..] == items[1..] + [x];
      Assoc(if hideOffline && items[0].offline then [] else [items[0]], Visible(items[1..], hideOffline),
        if hideOffline && x.offline then [] else [x]);
    }
  }

  /** The items shown are those at the ascending places `at`, which are all the places of items not to hide. */
  lemma {:induction false} VisibleKeepsOrder(items: seq<SiteItem>, hideOffline: bool) returns (at: seq<nat>)
    ensures |at| == |Visible(items, hideOffline)|
    ensures forall i, j :: 0 <= i < j < |at| ==> at[i] < at[j]
    ensures forall i :: 0 <= i < |at| ==> at[i] < |items| && items[at[i]] == Visible(items, hideOffline)[i]
    ensures forall k :: 0 <= k < |items| ==> (k in at <==> !(hideOffline && items[k].offline))
    decreases |items|
  {
    at := [];
    if items != [] {
      var last := |items| - 1;
      var front := items[..last];
      assert items == front + [items[last]];
      VisibleOfOneMore(front, items[last], hideOffline);
      at := VisibleKeepsOrder(front, hideOffline);
      if !(hideOffline && items[last].offline) {
        at := at + [last];
      }
    }
  }
}
