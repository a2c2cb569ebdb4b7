/** Scan ranges: backend/internal/discovery/range.go. An IPv4 address is its
    32-bit number; CIDR text is taken as already parsed. */
module Ranges {
  import opened ScanTargets

  const SPACE := 0x1_0000_0000
  const MIN_PREFIX_BITS := 22
  const MAX_RANGES := 16

  datatype Prefix = Prefix(addr: int, bits: int)

  function Pow2(n: nat): (r: nat)
    ensures r > 0
  {
    if n == 0 then 1 else 2 * Pow2(n - 1)
  }

  ghost predicate ValidPrefix(p: Prefix) { 0 <= p.addr < SPACE && 0 <= p.bits <= 32 }

  function Size(p: Prefix): (r: nat)
    requires 0 <= p.bits <= 32
    ensures r > 0
  {
    Pow2(32 - p.bits)
  }

  function Masked(p: Prefix): Prefix
    requires 0 <= p.bits <= 32
  {
    p.(addr := p.addr - p.addr % Size(p))
  }

  /** The leading bits agree. */
  predicate Contains(p: Prefix, a: int)
    requires 0 <= p.bits <= 32
  {
    a / Size(p) == p.addr / Size(p)
  }

  const TEN := Prefix(0x0A00_0000, 8)
  const ONE_SEVEN_TWO := Prefix(0xAC10_0000, 12)
  const ONE_NINE_TWO := Prefix(0xC0A8_0000, 16)
  const MESH := Prefix(0x6440_0000, 10)
  const LOOPBACK := Prefix(0x7F00_0000, 8)
  const LINK_LOCAL := Prefix(0xA9FE_0000, 16)
  const MULTICAST := Prefix(0xE000_0000, 4)

  predicate Dangerous(a: int) {
    Contains(LOOPBACK, a) || Contains(LINK_LOCAL, a) || Contains(MULTICAST, a) || a == 0
  }

  predicate Allowed(a: int) {
    !Dangerous(a) && (Contains(TEN, a) || Contains(ONE_SEVEN_TWO, a) || Contains(ONE_NINE_TWO, a) || Contains(MESH, a))
  }

  predicate InBlock(block: Prefix, p: Prefix)
    requires 0 <= block.bits <= 32
  {
    p.bits >= block.bits && Contains(block, p.addr)
  }

  predicate InIpv4Range(p: Prefix) {
    InBlock(TEN, p) || InBlock(ONE_SEVEN_TWO, p) || InBlock(ONE_NINE_TWO, p) || InBlock(MESH, p)
  }

  // ------------------------------------------------------ prefix arithmetic

  lemma DivBounds(a: int, b: int, s: nat)
    requires s > 0 && b % s == 0
    ensures a / s == b / s <==> b <= a < b + s
  {
    var q := b / s;
    assert b == q * s;
    if b <= a < b + s {
      DivUnique(a, s, q, a - b);
    }
    assert a == (a / s) * s + a % s;
  }

  lemma DivUnique(a: int, s: nat, q: int, r: int)
    requires s > 0 && a == q * s + r && 0 <= r < s
    ensures a / s == q
  {
    assert a == (a / s) * s + a % s;
    if q < a / s {
      MulMono(q + 1, a / s, s);
      assert false;
    }
    if a / s < q {
      MulMono(a / s + 1, q, s);
      assert false;
    }
  }

  lemma MulMono(x: int, y: int, s: nat)
    requires x <= y
    ensures x * s <= y * s
  {
    assert (y - x) * s >= 0;
  }

  ghost predicate Aligned(p: Prefix) { 0 <= p.bits <= 32 && p.addr % Size(p) == 0 }

  lemma ContainsIsInterval(p: Prefix, a: int)
    requires Aligned(p)
    ensures Contains(p, a) <==> p.addr <= a < p.addr + Size(p)
  {
    DivBounds(a, p.addr, Size(p));
  }

  lemma MaskedIsAligned(p: Prefix)
    requires ValidPrefix(p)
    ensures Aligned(Masked(p)) && 0 <= Masked(p).addr <= p.addr
    ensures Contains(Masked(p), p.addr)
  {
    MaskArithmetic(p.addr, Size(p));
  }

  lemma MaskArithmetic(a: int, s: nat)
    requires s > 0 && a >= 0
    ensures (a - a % s) % s == 0 && 0 <= a - a % s <= a && a / s == (a - a % s) / s
  {
    var q, m := a / s, a - a % s;
    assert m == q * s + 0;
    DivUnique(m, s, q, 0);
    assert m == (m / s) * s + m % s;
  }

  lemma Pow2Values()
    ensures Pow2(16) == 0x1_0000 && Pow2(20) == 0x10_0000 && Pow2(22) == 0x40_0000
    ensures Pow2(24) == 0x100_0000 && Pow2(28) == 0x1000_0000
  {
    Pow2Sum(8, 8);
    assert Pow2(8) == 256;
    Pow2Sum(16, 4);
    assert Pow2(4) == 16;
    Pow2Sum(20, 2);
    Pow2Sum(20, 4);
    Pow2Sum(24, 4);
  }

  lemma {:induction false} Pow2Sum(a: nat, b: nat)
    ensures Pow2(a + b) == Pow2(a) * Pow2(b)
  {
    if b > 0 {
      Pow2Sum(a, b - 1);
      assert Pow2(a + b) == 2 * Pow2(a + b - 1);
    }
  }

  /** The permitted and the forbidden blocks as intervals. */
  lemma Blocks(a: int)
    ensures Contains(TEN, a) <==> 0x0A00_0000 <= a < 0x0B00_0000
    ensures Contains(ONE_SEVEN_TWO, a) <==> 0xAC10_0000 <= a < 0xAC20_0000
    ensures Contains(ONE_NINE_TWO, a) <==> 0xC0A8_0000 <= a < 0xC0A9_0000
    ensures Contains(MESH, a) <==> 0x6440_0000 <= a < 0x6480_0000
    ensures Contains(LOOPBACK, a) <==> 0x7F00_0000 <= a < 0x8000_0000
    ensures Contains(LINK_LOCAL, a) <==> 0xA9FE_0000 <= a < 0xA9FF_0000
    ensures Contains(MULTICAST, a) <==> 0xE000_0000 <= a < 0xF000_0000
  {
    Pow2Values();
    hide Pow2;
    ContainsIsInterval(TEN, a);
    ContainsIsInterval(ONE_SEVEN_TWO, a);
    ContainsIsInterval(ONE_NINE_TWO, a);
    ContainsIsInterval(MESH, a);
    ContainsIsInterval(LOOPBACK, a);
    ContainsIsInterval(LINK_LOCAL, a);
    ContainsIsInterval(MULTICAST, a);
  }

  /** An aligned prefix that starts in a block and is no wider lies inside it. */
  lemma PrefixInsideBlock(block: Prefix, p: Prefix, a: int)
    requires Aligned(block) && Aligned(p) && InBlock(block, p) && Contains(p, a)
    ensures Contains(block, a)
  {
    var s, t := Size(p), Size(block);
    Pow2Sum(32 - p.bits, p.bits - block.bits);
    var k := Pow2(p.bits - block.bits);
    assert t == s * k;
    ContainsIsInterval(p, a);
    ContainsIsInterval(block, p.addr);
    ContainsIsInterval(block, a);
    AlignedFits(block.addr, p.addr, s, k);
  }

  lemma AlignedFits(lo: int, x: int, s: nat, k: nat)
    requires s > 0 && k > 0 && x % s == 0 && lo % (s * k) == 0 && lo <= x < lo + s * k
    ensures x + s <= lo + s * k
  {
    var q, b := x / s, lo / (s * k);
    assert x == q * s && lo == b * (s * k);
    assert lo + s * k == (b * k + k) * s;
    MulLess(q, b * k + k, s);
  }

  lemma MulLess(q: int, n: int, s: nat)
    requires s > 0 && q * s < n * s
    ensures q * s + s <= n * s
  {
    if q >= n {
      MulMono(n, q, s);
      assert false;
    }
    MulMono(q + 1, n, s);
  }

  /** Every address of an accepted prefix may be scanned. */
  lemma PrefixIsAllowed(p: Prefix, a: int)
    requires Aligned(p) && InIpv4Range(p) && Contains(p, a)
    ensures Allowed(a)
  {
    Pow2Values();
    hide Contains, Pow2;
    if InBlock(TEN, p) {
      PrefixInsideBlock(TEN, p, a);
    } else if InBlock(ONE_SEVEN_TWO, p) {
      PrefixInsideBlock(ONE_SEVEN_TWO, p, a);
    } else if InBlock(ONE_NINE_TWO, p) {
      PrefixInsideBlock(ONE_NINE_TWO, p, a);
    } else {
      PrefixInsideBlock(MESH, p, a);
    }
    Blocks(a);
  }

  // ------------------------------------------------- addresses of both families

  const SPACE6 := 0x100000000000000000000000000000000
  const UNIT_8 := 0x1000000000000000000000000000000   // addresses of an IPv6 /8
  const UNIT_10 := 0x400000000000000000000000000000  // addresses of an IPv6 /10

  datatype Addr = Ip4(n: int) | Ip6(n: int, zone: string)

  ghost predicate ValidAddr(a: Addr) {
    match a
    case Ip4(n) => 0 <= n < SPACE
    case Ip6(n, _) => 0 <= n < SPACE6
  }

  /** An IPv4-mapped IPv6 address (::ffff:0:0/96) is its IPv4 address. */
  function Unmap(a: Addr): Addr {
    if a.Ip6? && a.n / SPACE == 0xFFFF then Ip4(a.n % SPACE) else a
  }

  /** Unspecified, loopback, link-local (fe80::/10) and multicast (ff00::/8). */
  predicate Dangerous6(n: int) {
    n == 0 || n == 1 || n / UNIT_10 == 0x3FA || n / UNIT_8 == 0xFF
  }

  predicate AllowedAddr(a: Addr) {
    !(a.Ip6? && a.zone != "") &&
    match Unmap(a)
    case Ip4(n) => Allowed(n)
    case Ip6(n, _) => !Dangerous6(n) && n / UNIT_8 == 0xFD
  }

  predicate InPrivateBlock(n: int) {
    || 0x0A00_0000 <= n < 0x0B00_0000 || 0xAC10_0000 <= n < 0xAC20_0000
    || 0xC0A8_0000 <= n < 0xC0A9_0000 || 0x6440_0000 <= n < 0x6480_0000
  }

  /** Exactly the addresses of the private blocks may be scanned, of either family;
      none of them is a dangerous one, and one with a zone never is. */
  lemma AllowedExactly(a: Addr)
    requires ValidAddr(a)
    ensures AllowedAddr(a) <==>
              match a
              case Ip4(n) => InPrivateBlock(n)
              case Ip6(n, zone) =>
                zone == "" && ((n / SPACE == 0xFFFF && InPrivateBlock(n % SPACE)) || 0xFD * UNIT_8 <= n < 0xFE * UNIT_8)
  {
    match Unmap(a)
    case Ip4(n) => AllowedBlocks(n);
    case Ip6(n, _) =>
  }

  lemma AllowedBlocks(n: int)
    ensures Allowed(n) <==> InPrivateBlock(n)
  {
    Blocks(n);
    hide Contains;
  }

  // ------------------------------------------------------------------ hosts

  /** The addresses from lo up to hi, in order. */
  ghost predicate Interval(s: seq<int>, lo: int, hi: int) {
    |s| == (if hi >= lo then hi - lo else 0) && forall i :: 0 <= i < |s| ==> s[i] == lo + i
  }

  method Hosts(p: Prefix) returns (hosts: seq<int>)
    requires ValidPrefix(p) && Aligned(p) && p.addr + Size(p) <= SPACE
    ensures p.bits <= 30 ==> Interval(hosts, p.addr + 1, p.addr + Size(p) - 1) && |hosts| == Size(p) - 2
    ensures p.bits > 30 ==> Interval(hosts, p.addr, p.addr + Size(p)) && |hosts| == Size(p)
  {
    hosts := [];
    var addr := p.addr;
    ContainsIsInterval(p, addr);
    while Contains(p, addr)
      invariant p.addr <= addr <= p.addr + Size(p) && addr <= SPACE
      invariant Interval(hosts, p.addr, addr)
      invariant Contains(p, addr) <==> addr < p.addr + Size(p)
      decreases p.addr + Size(p) - addr
    {
      hosts := hosts + [addr];
      addr := addr + 1;
      ContainsIsInterval(p, addr);
      if addr == SPACE {
        break;
      }
    }
    if p.bits <= 30 {
      Pow2Sum(30 - p.bits, 2);
      assert Size(p) >= 4;
      hosts := hosts[1..|hosts| - 1];
    }
  }

  ghost predicate Distinct(s: seq<int>) {
    forall i, j :: 0 <= i < j < |s| ==> s[i] != s[j]
  }

  /** An address to probe: not the network or broadcast address of a /30 or wider. */
  ghost predicate Usable(p: Prefix, a: int) {
    0 <= p.bits <= 32 && if p.bits <= 30 then p.addr < a < p.addr + Size(p) - 1 else p.addr <= a < p.addr + Size(p)
  }

  ghost predicate Accepted(p: Prefix) {
    ValidPrefix(p) && Aligned(p) && InIpv4Range(p) && p.bits >= MIN_PREFIX_BITS
  }

  lemma AcceptedIsAllowed(p: Prefix, a: int)
    requires Accepted(p) && Usable(p, a)
    ensures Allowed(a) && Contains(p, a)
  {
    ContainsIsInterval(p, a);
    hide Contains;
    PrefixIsAllowed(p, a);
  }

  /** An accepted prefix is far from the end of the address space. */
  lemma AcceptedFits(p: Prefix)
    requires Accepted(p)
    ensures p.addr + Size(p) <= SPACE
  {
    var last := p.addr + Size(p) - 1;
    ContainsIsInterval(p, last);
    hide Contains;
    PrefixIsAllowed(p, last);
    Blocks(last);
  }

  /** a is listed before b: it is in a range before all that have b, or in the first
      of them and smaller. */
  ghost predicate Precedes(rs: seq<Prefix>, a: int, b: int) {
    exists k :: 0 <= k < |rs| && Usable(rs[k], a) && NotBefore(rs, b, k) && (Usable(rs[k], b) ==> a < b)
  }

  ghost predicate NotBefore(rs: seq<Prefix>, b: int, k: int)
    requires k <= |rs|
  {
    forall l :: 0 <= l < k ==> !Usable(rs[l], b)
  }

  ghost predicate InOrder(rs: seq<Prefix>, hosts: seq<int>) {
    forall i, j :: 0 <= i < j < |hosts| ==> Precedes(rs, hosts[i], hosts[j])
  }

  /** No address precedes itself, so a list in order has no address twice. */
  lemma OrderIsStrict(rs: seq<Prefix>, hosts: seq<int>)
    requires InOrder(rs, hosts)
    ensures Distinct(hosts)
  {
    hide Usable;
  }

  /** The union of the ranges in range and host order, each address once, and all
      of them permitted. */
  ghost predicate UnionOf(rs: seq<Prefix>, hosts: seq<int>) {
    && Distinct(hosts) && InOrder(rs, hosts)
    && (forall a :: a in hosts <==> exists k :: 0 <= k < |rs| && Usable(rs[k], a))
    && (forall a :: a in hosts ==> Allowed(a))
  }

  /** Where the inner loop stands: the first i hosts of range k are merged in. */
  ghost predicate Merged(rs: seq<Prefix>, hosts: seq<int>, k: nat, some: seq<int>, i: nat)
    requires k <= |rs| && i <= |some|
  {
    && InOrder(rs, hosts)
    && (forall a :: a in hosts <==> !NotBefore(rs, a, k) || a in some[..i])
  }

  lemma MergeHost(rs: seq<Prefix>, hosts: seq<int>, k: nat, some: seq<int>, i: nat)
    requires k < |rs| && i < |some| && Merged(rs, hosts, k, some, i)
    requires (forall a :: a in some <==> Usable(rs[k], a)) && forall x, y :: 0 <= x < y < |some| ==> some[x] < some[y]
    ensures Merged(rs, if some[i] in hosts then hosts else hosts + [some[i]], k, some, i + 1)
  {
    hide Usable;
    var h := some[i];
    assert some[..i + 1] == some[..i] + [h];
    if h !in hosts {
      assert h in some;
      forall a | a in hosts
        ensures Precedes(rs, a, h)
      {
        if a in some[..i] {
          var x :| 0 <= x < i && some[x] == a;
          assert a in some;
          assert Usable(rs[k], a) && NotBefore(rs, h, k) && a < h;
        } else {
          var l :| 0 <= l < k && Usable(rs[l], a);
          assert !Usable(rs[l], h) && NotBefore(rs, h, l);
        }
      }
      var more := hosts + [h];
      forall x, y | 0 <= x < y < |more|
        ensures Precedes(rs, more[x], more[y])
      {
        if y == |hosts| {
          assert more[x] in hosts;
        }
      }
    }
  }

  lemma NextRange(rs: seq<Prefix>, hosts: seq<int>, k: nat, some: seq<int>)
    requires k < |rs| && Merged(rs, hosts, k, some, |some|) && forall a :: a in some <==> Usable(rs[k], a)
    ensures Merged(rs, hosts, k + 1, [], 0)
  {
    hide Usable;
    assert some[..|some|] == some;
    forall a
      ensures a in hosts <==> !NotBefore(rs, a, k + 1)
    {
      assert NotBefore(rs, a, k + 1) <==> NotBefore(rs, a, k) && !Usable(rs[k], a);
    }
  }

  method AllHosts(rs: seq<Prefix>) returns (hosts: seq<int>)
    requires forall i :: 0 <= i < |rs| ==> Accepted(rs[i])
    ensures UnionOf(rs, hosts)
  {
    hide Allowed, Accepted, Usable, Merged, InOrder;
    var seen: set<int> := {};
    hosts := [];
    NothingMerged(rs);
    for k := 0 to |rs|
      invariant Merged(rs, hosts, k, [], 0) && seen == set a | a in hosts
    {
      var some := HostsOf(rs[k]);
      StartRange(rs, hosts, k, some);
      for i := 0 to |some|
        invariant Merged(rs, hosts, k, some, i) && seen == set a | a in hosts
      {
        MergeHost(rs, hosts, k, some, i);
        var addr := some[i];
        if addr in seen {
          continue;
        }
        seen := seen + {addr};
        hosts := hosts + [addr];
      }
      NextRange(rs, hosts, k, some);
    }
    MergedIsUnion(rs, hosts);
  }

  lemma NothingMerged(rs: seq<Prefix>)
    ensures Merged(rs, [], 0, [], 0)
  {
  }

  lemma StartRange(rs: seq<Prefix>, hosts: seq<int>, k: nat, some: seq<int>)
    requires k < |rs| && Merged(rs, hosts, k, [], 0)
    ensures Merged(rs, hosts, k, some, 0)
  {
  }

  lemma MergedIsUnion(rs: seq<Prefix>, hosts: seq<int>)
    requires Merged(rs, hosts, |rs|, [], 0) && forall i :: 0 <= i < |rs| ==> Accepted(rs[i])
    ensures UnionOf(rs, hosts)
  {
    hide Allowed, Accepted, Usable;
    OrderIsStrict(rs, hosts);
    forall a | a in hosts
      ensures Allowed(a)
    {
      var k :| 0 <= k < |rs| && Usable(rs[k], a);
      AcceptedIsAllowed(rs[k], a);
    }
  }

  method HostsOf(p: Prefix) returns (hosts: seq<int>)
    requires Accepted(p)
    ensures forall a :: a in hosts <==> Usable(p, a)
    ensures forall x, y :: 0 <= x < y < |hosts| ==> hosts[x] < hosts[y]
  {
    AcceptedFits(p);
    hosts := Hosts(p);
    forall a
      ensures a in hosts <==> Usable(p, a)
    {
      if Usable(p, a) {
        assert hosts[a - hosts[0]] == a;
      }
    }
  }

  // ---------------------------------------------------------------- parsing

  /** What netip.ParsePrefix makes of the text. */
  datatype Cidr = Malformed | V6 | V4(prefix: Prefix)

  datatype Reason = InvalidCidr | NotIpv4 | NotPrivate | TooWide | TooManyRanges | TooManyAddresses

  datatype Result<T> = Ok(value: T) | Err(reason: Reason, field: int)

  function ParseRange(c: Cidr): Result<Prefix>
    requires c.V4? ==> ValidPrefix(c.prefix)
  {
    match c
    case Malformed => Err(InvalidCidr, -1)
    case V6 => Err(NotIpv4, -1)
    case V4(p) =>
      var m := Masked(p);
      if !InIpv4Range(m) then Err(NotPrivate, -1)
      else if m.bits < MIN_PREFIX_BITS then Err(TooWide, -1)
      else Ok(m)
  }

  lemma ParsedIsAccepted(c: Cidr)
    requires c.V4? ==> ValidPrefix(c.prefix)
    ensures ParseRange(c).Ok? ==> Accepted(ParseRange(c).value) && Contains(ParseRange(c).value, c.prefix.addr)
  {
    if c.V4? {
      MaskedIsAligned(c.prefix);
    }
  }

  ghost predicate AllV4Valid(cidrs: seq<Cidr>) {
    forall i :: 0 <= i < |cidrs| ==> cidrs[i].V4? ==> ValidPrefix(cidrs[i].prefix)
  }

  /** The range may be scanned: an IPv4 prefix, at most a /22, of allowed addresses. */
  ghost predicate Good(c: Cidr)
    requires c.V4? ==> ValidPrefix(c.prefix)
  {
    c.V4? && c.prefix.bits >= MIN_PREFIX_BITS && AllAllowed(c.prefix)
  }

  ghost function Refusal(c: Cidr): Reason
    requires c.V4? ==> ValidPrefix(c.prefix)
  {
    match c
    case Malformed => InvalidCidr
    case V6 => NotIpv4
    case V4(p) => if AllAllowed(p) then TooWide else NotPrivate
  }

  ghost predicate FirstRefused(cidrs: seq<Cidr>, i: int)
    requires AllV4Valid(cidrs)
  {
    0 <= i < |cidrs| && !Good(cidrs[i]) && forall k :: 0 <= k < i ==> Good(cidrs[k])
  }

  ghost predicate AllGood(cidrs: seq<Cidr>)
    requires AllV4Valid(cidrs)
  {
    forall i :: 0 <= i < |cidrs| ==> Good(cidrs[i])
  }

  /** a is covered by the prefix, and up to a /30 is neither its first nor its last. */
  ghost predicate HostOf(c: Cidr, a: int) {
    && c.V4? && 0 <= c.prefix.bits <= 32 && Contains(c.prefix, a)
    && (c.prefix.bits <= 30 ==> Contains(c.prefix, a - 1) && Contains(c.prefix, a + 1))
  }

  /** Each host of the list, once. */
  ghost predicate AllHostsOf(cidrs: seq<Cidr>, hosts: seq<int>) {
    Distinct(hosts) && forall a :: a in hosts <==> exists k :: 0 <= k < |cidrs| && HostOf(cidrs[k], a)
  }

  /** A list is accepted if and only if it has at most sixteen ranges, all good, with
      at most 1024 hosts together; a range that is not is reported by the first index
      that has one, with the reason. */
  method ParseRanges(cidrs: seq<Cidr>) returns (r: Result<seq<Prefix>>, hosts: seq<int>)
    requires AllV4Valid(cidrs)
    ensures |cidrs| > MAX_RANGES <==> r == Err(TooManyRanges, -1)
    ensures |cidrs| <= MAX_RANGES && AllGood(cidrs) ==> AllHostsOf(cidrs, hosts)
    ensures |cidrs| <= MAX_RANGES && AllGood(cidrs) ==>
      r == if |hosts| <= MAX_ADDRESSES then Ok(seq(|cidrs|, i requires 0 <= i < |cidrs| => Masked(cidrs[i].prefix))) else Err(TooManyAddresses, -1)
    ensures |cidrs| <= MAX_RANGES && !AllGood(cidrs) ==>
      exists i :: FirstRefused(cidrs, i) && r == Err(Refusal(cidrs[i]), i)
    ensures r.Ok? ==> UnionOf(r.value, hosts) && forall i :: 0 <= i < |r.value| ==> Accepted(r.value[i])
  {
    hide ParseRange, Accepted, UnionOf, Good, AllHostsOf;
    hosts := [];
    if |cidrs| > MAX_RANGES {
      r := Err(TooManyRanges, -1);
      return;
    }
    var ranges := [];
    for i := 0 to |cidrs|
      invariant |ranges| == i
      invariant forall k :: 0 <= k < i ==> Good(cidrs[k]) && cidrs[k].V4? && ranges[k] == Masked(cidrs[k].prefix) && Accepted(ranges[k])
    {
      var one := ParseRange(cidrs[i]);
      ParsedIsGood(cidrs[i]);
      if one.Err? {
        assert FirstRefused(cidrs, i);
        r := Err(one.reason, i);
        return;
      }
      ranges := ranges + [one.value];
    }
    hosts := AllHosts(ranges);
    UnionIsHosts(cidrs, ranges, hosts);
    assert ranges == seq(|cidrs|, i requires 0 <= i < |cidrs| => Masked(cidrs[i].prefix));
    if |hosts| > MAX_ADDRESSES {
      r := Err(TooManyAddresses, -1);
    } else {
      r := Ok(ranges);
    }
  }

  lemma ParsedIsGood(c: Cidr)
    requires c.V4? ==> ValidPrefix(c.prefix)
    ensures Good(c) ==> c.V4? && ParseRange(c) == Ok(Masked(c.prefix)) && Accepted(Masked(c.prefix))
    ensures !Good(c) ==> ParseRange(c) == Err(Refusal(c), -1)
  {
    hide Contains, AllAllowed, InIpv4Range, Accepted;
    if c.V4? {
      ParseRangeExactly(c.prefix);
      ParsedIsAccepted(c);
    }
  }

  lemma UsableIsHost(p: Prefix, a: int)
    requires ValidPrefix(p)
    ensures Usable(Masked(p), a) <==> HostOf(V4(p), a)
  {
    MaskedIsAligned(p);
    MaskCovers(p);
    ContainsIsInterval(Masked(p), a - 1);
    ContainsIsInterval(Masked(p), a);
    ContainsIsInterval(Masked(p), a + 1);
    hide Contains;
  }

  lemma UnionIsHosts(cidrs: seq<Cidr>, ranges: seq<Prefix>, hosts: seq<int>)
    requires AllV4Valid(cidrs) && |ranges| == |cidrs| && UnionOf(ranges, hosts)
    requires forall k :: 0 <= k < |cidrs| ==> cidrs[k].V4? && ranges[k] == Masked(cidrs[k].prefix)
    ensures AllHostsOf(cidrs, hosts)
  {
    hide Usable, HostOf, Allowed;
    forall a ensures a in hosts <==> exists k :: 0 <= k < |cidrs| && HostOf(cidrs[k], a) {
      forall k | 0 <= k < |cidrs| ensures Usable(ranges[k], a) <==> HostOf(cidrs[k], a) {
        UsableIsHost(cidrs[k].prefix, a);
      }
    }
  }

  // -------------------------------------------------- what a range must look like

  lemma DivDiv(x: int, s: nat, k: nat)
    requires x >= 0 && s > 0 && k > 0
    ensures s * k > 0 && (x / s) / k == x / (s * k)
  {
    var q, r := x / s, x % s;
    var p, t := q / k, q % k;
    assert x == q * s + r && q == p * k + t;
    assert x == p * (s * k) + (t * s + r);
    MulMono(t + 1, k, s);
    assert 0 <= t * s + r < s * k;
    DivUnique(x, s * k, p, t * s + r);
  }

  /** A wider aligned prefix that starts in one half of a pair of blocks holds the
      other half too. */
  lemma HoldsSibling(p: Prefix, bits: nat, x: int, y: int)
    requires 0 <= p.bits < bits <= 32 && x >= 0 && y >= 0
    requires Contains(p, x) && x / (2 * Pow2(32 - bits)) == y / (2 * Pow2(32 - bits))
    ensures Contains(p, y)
  {
    var s, k := 2 * Pow2(32 - bits), Pow2(bits - 1 - p.bits);
    Pow2Sum(32 - bits + 1, bits - 1 - p.bits);
    assert Pow2(32 - bits + 1) == s;
    assert Size(p) == s * k;
    DivDiv(x, s, k);
    DivDiv(y, s, k);
  }

  ghost predicate AllAllowed(p: Prefix)
    requires 0 <= p.bits <= 32
  {
    forall a :: 0 <= a < SPACE && Contains(p, a) ==> Allowed(a)
  }

  /** An address outside each private block, in the other half of the next wider one. */
  lemma Neighbours()
    ensures !Allowed(0x0B00_0000) && !Allowed(0xAC00_0000) && !Allowed(0xC0A9_0000) && !Allowed(0x6400_0000)
  {
    AllowedBlocks(0x0B00_0000);
    AllowedBlocks(0xAC00_0000);
    AllowedBlocks(0xC0A9_0000);
    AllowedBlocks(0x6400_0000);
  }

  lemma NotWider(p: Prefix, bits: nat, x: int, y: int)
    requires ValidPrefix(p) && AllAllowed(p) && bits <= 32 && x >= 0 && Contains(p, x)
    requires 0 <= y < SPACE && !Allowed(y) && x / (2 * Pow2(32 - bits)) == y / (2 * Pow2(32 - bits))
    ensures p.bits >= bits
  {
    hide Allowed, Contains, Pow2;
    if p.bits < bits {
      HoldsSibling(p, bits, x, y);
    }
  }

  lemma WithinTen(p: Prefix)
    requires ValidPrefix(p) && Aligned(p) && AllAllowed(p) && 0x0A00_0000 <= p.addr < 0x0B00_0000
    ensures p.bits >= 8
  {
    StartsInside(p);
    Pow2Values();
    Neighbours();
    hide Allowed, Contains, Pow2, AllAllowed, Aligned;
    NotWider(p, 8, p.addr, 0x0B00_0000);
  }

  lemma WithinOneSevenTwo(p: Prefix)
    requires ValidPrefix(p) && Aligned(p) && AllAllowed(p) && 0xAC10_0000 <= p.addr < 0xAC20_0000
    ensures p.bits >= 12
  {
    StartsInside(p);
    Pow2Values();
    Neighbours();
    hide Allowed, Contains, Pow2, AllAllowed, Aligned;
    NotWider(p, 12, p.addr, 0xAC00_0000);
  }

  lemma WithinOneNineTwo(p: Prefix)
    requires ValidPrefix(p) && Aligned(p) && AllAllowed(p) && 0xC0A8_0000 <= p.addr < 0xC0A9_0000
    ensures p.bits >= 16
  {
    StartsInside(p);
    Pow2Values();
    Neighbours();
    hide Allowed, Contains, Pow2, AllAllowed, Aligned;
    NotWider(p, 16, p.addr, 0xC0A9_0000);
  }

  lemma WithinMesh(p: Prefix)
    requires ValidPrefix(p) && Aligned(p) && AllAllowed(p) && 0x6440_0000 <= p.addr < 0x6480_0000
    ensures p.bits >= 10
  {
    StartsInside(p);
    Pow2Values();
    Neighbours();
    hide Allowed, Contains, Pow2, AllAllowed, Aligned;
    NotWider(p, 10, p.addr, 0x6400_0000);
  }

  /** A prefix lies in a private block exactly when all its addresses are allowed. */
  lemma PrivateExactly(p: Prefix)
    requires ValidPrefix(p) && Aligned(p)
    ensures InIpv4Range(p) <==> AllAllowed(p)
  {
    hide Allowed, Contains;
    if InIpv4Range(p) {
      forall a | 0 <= a < SPACE && Contains(p, a) ensures Allowed(a) {
        PrefixIsAllowed(p, a);
      }
    }
    if AllAllowed(p) {
      StartsInside(p);
      AllowedBlocks(p.addr);
      Blocks(p.addr);
      hide AllAllowed, Aligned;
      if p.addr < 0x0B00_0000 {
        WithinTen(p);
      } else if p.addr < 0x6480_0000 {
        WithinMesh(p);
      } else if p.addr < 0xAC20_0000 {
        WithinOneSevenTwo(p);
      } else {
        WithinOneNineTwo(p);
      }
    }
  }

  lemma StartsInside(p: Prefix)
    requires Aligned(p)
    ensures Contains(p, p.addr)
  {
    ContainsIsInterval(p, p.addr);
  }

  /** A range is accepted exactly when it is at most a /22 and every address it covers
      may be scanned; it is refused as not private when some may not, and as too wide
      when all may. The accepted range covers the same addresses as the one given. */
  lemma ParseRangeExactly(p: Prefix)
    requires ValidPrefix(p)
    ensures ParseRange(V4(p)).Ok? <==> p.bits >= MIN_PREFIX_BITS && AllAllowed(p)
    ensures ParseRange(V4(p)) == Err(NotPrivate, -1) <==> !AllAllowed(p)
    ensures ParseRange(V4(p)) == Err(TooWide, -1) <==> AllAllowed(p) && p.bits < MIN_PREFIX_BITS
    ensures ParseRange(V4(p)).Ok? ==> ParseRange(V4(p)).value == Masked(p)
  {
    hide Allowed, InIpv4Range;
    MaskedIsAligned(p);
    MaskCovers(p);
    PrivateExactly(Masked(p));
  }

  lemma MaskCovers(p: Prefix)
    requires ValidPrefix(p)
    ensures forall a :: Contains(Masked(p), a) <==> Contains(p, a)
    ensures AllAllowed(Masked(p)) <==> AllAllowed(p)
  {
    MaskArithmetic(p.addr, Size(p));
  }
}
