/** Networks in prefix notation, the configured allow-list, and the client scan it guards. */
module Cidr {
  import opened Wrappers
  import opened Bits

  datatype Version = V4 | V6
  datatype Address = Address(version: Version, value: nat)
  datatype Network = Network(version: Version, base: nat, prefix: nat)

  function Width(v: Version): nat {
    if v.V4? then 32 else 128
  }

  function AllOnes(v: Version): nat {
    Ones(Width(v))
  }

  predicate IsAddress(a: Address) {
    a.value <= AllOnes(a.version)
  }

  function Netmask(v: Version, prefix: nat): nat {
    Bitwise(Xor, AllOnes(v), Shr(AllOnes(v), prefix))
  }

  function Hostmask(v: Version, prefix: nat): nat {
    Bitwise(Xor, Netmask(v, prefix), AllOnes(v))
  }

  /** `ip_network` of an address and a prefix length, without `strict`: the host bits are cleared. */
  function IpNetwork(a: Address, prefix: nat): Network {
    Network(a.version, Bitwise(And, a.value, Netmask(a.version, prefix)), prefix)
  }

  /** Networks are what `ip_network` returns. */
  ghost predicate IsNetwork(n: Network) {
    n.prefix <= Width(n.version)
    && exists a :: IsAddress(a) && n == IpNetwork(a, n.prefix)
  }

  function Broadcast(n: Network): nat {
    Bitwise(Or, n.base, Hostmask(n.version, n.prefix))
  }

  function NumAddresses(n: Network): int {
    Broadcast(n) - n.base + 1
  }

  /** `address in network`: the masked address is the network address. */
  predicate InNetwork(a: Address, n: Network) {
    a.version == n.version && Bitwise(And, a.value, Netmask(n.version, n.prefix)) == n.base
  }

  predicate SubnetOf(m: Network, n: Network) {
    n.base <= m.base && Broadcast(m) <= Broadcast(n)
  }

  // ----- the address spaces

  lemma ShiftedOn(a: nat, b: nat, c: nat, j: nat, k: nat, whole: nat)
    requires Shl(a, j) == b && Shl(b, k) == c && whole == j + k
    ensures Shl(a, whole) == c
  {
    ShlTwice(a, j, k);
  }

  lemma Shl8(a: nat)
    ensures Shl(a, 8) == 0x100 * a
  {
    assert Shl(a, 4) == 16 * a;
    assert Shl(16 * a, 4) == 16 * (16 * a);
    ShiftedOn(a, 16 * a, 0x100 * a, 4, 4, 8);
  }

  lemma Shl16(a: nat)
    ensures Shl(a, 16) == 0x1_0000 * a
  {
    Shl8(a);
    Shl8(0x100 * a);
    ShiftedOn(a, 0x100 * a, 0x1_0000 * a, 8, 8, 16);
  }

  lemma Shl32(a: nat)
    ensures Shl(a, 32) == 0x1_0000_0000 * a
  {
    Shl16(a);
    Shl16(0x1_0000 * a);
    ShiftedOn(a, 0x1_0000 * a, 0x1_0000_0000 * a, 16, 16, 32);
  }

  lemma Shl64(a: nat)
    ensures Shl(a, 64) == 0x1_0000_0000_0000_0000 * a
  {
    Shl32(a);
    Shl32(0x1_0000_0000 * a);
    ShiftedOn(a, 0x1_0000_0000 * a, 0x1_0000_0000_0000_0000 * a, 32, 32, 64);
  }

  /** IPv4 addresses are the numbers below 2 to the 32nd, IPv6 addresses those below 2 to the 128th. */
  lemma {:induction false} AddressSpaces(a: Address)
    ensures a.version.V4? ==> (IsAddress(a) <==> a.value < 0x1_0000_0000)
    ensures a.version.V6? ==> (IsAddress(a) <==> a.value < 0x1_0000_0000_0000_0000_0000_0000_0000_0000)
  {
    Shl32(1);
    Shl64(1);
    Shl64(0x1_0000_0000_0000_0000);
    ShiftedOn(1, 0x1_0000_0000_0000_0000, 0x1_0000_0000_0000_0000_0000_0000_0000_0000, 64, 64, 128);
  }

  // ----- masks and ranges

  /** The number of bits below a prefix. */
  function HostBits(v: Version, prefix: nat): nat
    requires prefix <= Width(v)
  {
    Width(v) - prefix
  }

  /** How many addresses share a prefix. */
  function Block(v: Version, prefix: nat): (r: nat)
    requires prefix <= Width(v)
    ensures r > 0
  {
    Shl(1, HostBits(v, prefix))
  }

  /** All ones, cut at bit `k`. */
  lemma OnesSplit(w: nat, p: nat, k: nat)
    requires w == p + k
    ensures Ones(w) == Join(Ones(p), k, Ones(k))
  {
    ShlTwice(1, p, k);
    ShlSum(Ones(p), 1, k);
  }

  lemma OnesShifted(w: nat, p: nat, k: nat)
    requires w == p + k
    ensures Shr(Ones(w), p) == Ones(k)
  {
    OnesSplit(w, k, p);
    ShrUnique(Ones(k), Ones(p), p);
  }

  lemma ZeroUnder(k: nat, l: nat)
    ensures Join(0, k, l) == l
  {
    if k > 0 { ZeroUnder(k - 1, l); }
  }

  /** The mask has `p` ones over `k` zeros. */
  lemma MaskBits(w: nat, p: nat, k: nat)
    requires w == p + k
    ensures Bitwise(Xor, Ones(w), Ones(k)) == Shl(Ones(p), k)
  {
    OnesSplit(w, p, k);
    ZeroUnder(k, Ones(k));
    WithZero(Ones(p));
    XorSelf(Ones(k));
    Halves(Xor, k, Ones(p), Ones(k), 0, Ones(k));
    JoinNone(Ones(p), k);
  }

  /** Its complement has `k` ones. */
  lemma ComplementBits(w: nat, p: nat, k: nat)
    requires w == p + k
    ensures Bitwise(Xor, Shl(Ones(p), k), Ones(w)) == Ones(k)
  {
    OnesSplit(w, p, k);
    JoinNone(Ones(p), k);
    WithZero(Ones(k));
    XorSelf(Ones(p));
    Halves(Xor, k, Ones(p), 0, Ones(p), Ones(k));
    ZeroUnder(k, Ones(k));
  }

  lemma NetmaskIs(v: Version, prefix: nat)
    requires prefix <= Width(v)
    ensures Netmask(v, prefix) == Shl(Ones(prefix), HostBits(v, prefix))
  {
    OnesShifted(Width(v), prefix, HostBits(v, prefix));
    MaskBits(Width(v), prefix, HostBits(v, prefix));
  }

  lemma HostmaskIs(v: Version, prefix: nat)
    requires prefix <= Width(v)
    ensures Hostmask(v, prefix) == Ones(HostBits(v, prefix))
  {
    NetmaskIs(v, prefix);
    ComplementBits(Width(v), prefix, HostBits(v, prefix));
  }

  lemma TopBits(a: nat, w: nat, p: nat, k: nat) returns (l: nat)
    requires w == p + k && a <= Ones(w)
    ensures a == Join(Shr(a, k), k, l) && l < Shl(1, k) && Shr(a, k) < Shl(1, p)
  {
    l := LowPart(a, k);
    ShlTwice(1, p, k);
    ShlOrder(Shr(a, k), Shl(1, p), k);
  }

  lemma ClearLow(a: nat, w: nat, p: nat, k: nat)
    requires w == p + k && a <= Ones(w)
    ensures Bitwise(And, a, Shl(Ones(p), k)) == Shl(Shr(a, k), k)
  {
    var l := TopBits(a, w, p, k);
    AndOnes(Shr(a, k), p);
    WithZero(l);
    JoinNone(Ones(p), k);
    JoinNone(Shr(a, k), k);
    Halves(And, k, Shr(a, k), l, Ones(p), 0);
  }

  /** Masking an address keeps its block number and clears the rest. */
  lemma {:induction false} Masked(a: Address, prefix: nat)
    requires IsAddress(a) && prefix <= Width(a.version)
    ensures Bitwise(And, a.value, Netmask(a.version, prefix))
         == Shl(Shr(a.value, HostBits(a.version, prefix)), HostBits(a.version, prefix))
  {
    NetmaskIs(a.version, prefix);
    ClearLow(a.value, Width(a.version), prefix, HostBits(a.version, prefix));
  }

  lemma FillLow(h: nat, k: nat)
    ensures Bitwise(Or, Shl(h, k), Ones(k)) == Join(h, k, Ones(k))
  {
    ZeroUnder(k, Ones(k));
    JoinNone(h, k);
    WithZero(h);
    WithZero(Ones(k));
    Halves(Or, k, h, 0, 0, Ones(k));
  }

  lemma BlockFits(a: nat, w: nat, p: nat, k: nat)
    requires w == p + k && a <= Ones(w)
    ensures Shl(Shr(a, k), k) + Shl(1, k) - 1 <= Ones(w)
  {
    var _ := TopBits(a, w, p, k);
    ShlTwice(1, p, k);
    ShlOrder(Shr(a, k), Shl(1, p), k);
  }

  lemma LastAddress(n: Network, h: nat)
    requires n.prefix <= Width(n.version) && n.base == Shl(h, HostBits(n.version, n.prefix))
    ensures Broadcast(n) == n.base + Block(n.version, n.prefix) - 1
  {
    HostmaskIs(n.version, n.prefix);
    FillLow(h, HostBits(n.version, n.prefix));
  }

  /** A network starts at a multiple of its block and is one block long. */
  lemma {:induction false} Aligned(n: Network) returns (h: nat)
    requires IsNetwork(n)
    ensures n.base == Shl(h, HostBits(n.version, n.prefix))
    ensures Broadcast(n) == n.base + Block(n.version, n.prefix) - 1
    ensures Broadcast(n) <= AllOnes(n.version)
  {
    var a :| IsAddress(a) && n == IpNetwork(a, n.prefix);
    var k := HostBits(n.version, n.prefix);
    h := Shr(a.value, k);
    Masked(a, n.prefix);
    LastAddress(n, h);
    BlockFits(a.value, Width(n.version), n.prefix, k);
  }

  lemma SameBlock(q: nat, h: nat, k: nat, l: nat)
    requires l < Shl(1, k)
    ensures Shl(q, k) == Shl(h, k) <==> Shl(h, k) <= Shl(q, k) + l <= Shl(h, k) + Shl(1, k) - 1
  {
    ShlOrder(q, h, k);
    ShlOrder(h, q, k);
  }

  /** Membership by mask is membership by range. */
  lemma {:induction false} MembershipIsRange(a: Address, n: Network)
    requires IsAddress(a) && IsNetwork(n)
    ensures InNetwork(a, n) <==> a.version == n.version && n.base <= a.value <= Broadcast(n)
  {
    var h := Aligned(n);
    if a.version == n.version {
      var k := HostBits(n.version, n.prefix);
      Masked(a, n.prefix);
      var l := LowPart(a.value, k);
      SameBlock(Shr(a.value, k), h, k, l);
    }
  }

  // ----- the allow-list

  datatype Outcome = Answer(allowed: bool) | ValueError

  /** `ip_is_allowed`; `address` is the parsed text, or None when it does not parse. */
  function IpIsAllowed(configured: seq<Network>, production: bool, address: Option<Address>): Outcome {
    if configured == [] then Answer(!production)
    else if address.None? then ValueError
    else Answer(exists n :: n in configured && InNetwork(address.value, n))
  }

  /** `network_is_allowed`. */
  function NetworkIsAllowed(configured: seq<Network>, production: bool, network: Option<Network>): Outcome {
    if configured == [] then Answer(!production)
    else if network.None? then ValueError
    else Answer(exists n :: n in configured && network.value.version == n.version && SubnetOf(network.value, n))
  }

  ghost predicate Configured(ns: seq<Network>) {
    forall n :: n in ns ==> IsNetwork(n)
  }

  lemma SubnetHolds(m: Network, n: Network, a: Address)
    requires IsNetwork(m) && IsNetwork(n) && m.version == n.version && SubnetOf(m, n)
    requires IsAddress(a) && InNetwork(a, m)
    ensures InNetwork(a, n)
  {
    MembershipIsRange(a, m);
    MembershipIsRange(a, n);
  }

  lemma EndsInside(m: Network, n: Network, first: Address, last: Address)
    requires IsNetwork(m) && IsNetwork(n)
    requires first == Address(m.version, m.base) && last == Address(m.version, Broadcast(m))
    ensures IsAddress(first) && IsAddress(last) && InNetwork(first, m) && InNetwork(last, m)
    ensures InNetwork(first, n) && InNetwork(last, n) ==> m.version == n.version && SubnetOf(m, n)
  {
    var _ := Aligned(m);
    MembershipIsRange(first, m);
    MembershipIsRange(last, m);
    MembershipIsRange(first, n);
    MembershipIsRange(last, n);
  }

  /** With a non-empty list, an address is allowed exactly when it lies in the range of a configured network of its version. */
  lemma {:induction false} AddressAllowedExactly(configured: seq<Network>, production: bool, a: Address)
    requires Configured(configured) && configured != [] && IsAddress(a)
    ensures IpIsAllowed(configured, production, Some(a)) == Answer(true) <==>
            exists n :: n in configured && n.version == a.version && n.base <= a.value <= Broadcast(n)
    ensures IpIsAllowed(configured, production, None) == NetworkIsAllowed(configured, production, None) == ValueError
  {
    forall n | n in configured ensures InNetwork(a, n) <==> n.version == a.version && n.base <= a.value <= Broadcast(n) {
      MembershipIsRange(a, n);
    }
  }

  /** With nothing configured nothing is refused outside production and nothing is allowed in production, not even parsed. */
  lemma {:induction false} NothingConfigured(production: bool, address: Option<Address>, network: Option<Network>)
    ensures IpIsAllowed([], production, address) == Answer(!production) == NetworkIsAllowed([], production, network)
  {
  }

  /** One network holds every address of another exactly when it is of the same version and a supernet. */
  lemma {:induction false} SubnetIsInclusion(m: Network, n: Network)
    requires IsNetwork(m) && IsNetwork(n)
    ensures (m.version == n.version && SubnetOf(m, n)) <==> (forall a :: IsAddress(a) && InNetwork(a, m) ==> InNetwork(a, n))
  {
    EndsInside(m, n, Address(m.version, m.base), Address(m.version, Broadcast(m)));
    if m.version == n.version && SubnetOf(m, n) {
      forall a | IsAddress(a) && InNetwork(a, m) ensures InNetwork(a, n) {
        SubnetHolds(m, n, a);
      }
    }
  }

  /** With a non-empty list, a network is allowed exactly when one configured network holds all of it. */
  lemma {:induction false} NetworkAllowedExactly(configured: seq<Network>, production: bool, m: Network)
    requires Configured(configured) && configured != [] && IsNetwork(m)
    ensures NetworkIsAllowed(configured, production, Some(m)) == Answer(true) <==>
            exists n :: n in configured && forall a :: IsAddress(a) && InNetwork(a, m) ==> InNetwork(a, n)
  {
    forall n | n in configured
      ensures (m.version == n.version && SubnetOf(m, n)) <==> (forall a :: IsAddress(a) && InNetwork(a, m) ==> InNetwork(a, n))
    {
      SubnetIsInclusion(m, n);
    }
  }

  /** Every address of an allowed network is allowed. */
  lemma {:induction false} AllowedNetworkIsSound(configured: seq<Network>, production: bool, m: Network, a: Address)
    requires Configured(configured) && IsNetwork(m)
    requires NetworkIsAllowed(configured, production, Some(m)) == Answer(true)
    requires IsAddress(a) && InNetwork(a, m)
    ensures IpIsAllowed(configured, production, Some(a)) == Answer(true)
  {
    if configured != [] {
      NetworkAllowedExactly(configured, production, m);
    }
  }

  /** A network of one address is allowed exactly when the address is. */
  lemma {:induction false} SingleAddress(configured: seq<Network>, production: bool, a: Address)
    requires Configured(configured) && IsAddress(a)
    ensures NetworkIsAllowed(configured, production, Some(IpNetwork(a, Width(a.version))))
         == IpIsAllowed(configured, production, Some(a))
  {
    var m := IpNetwork(a, Width(a.version));
    var _ := Aligned(m);
    Masked(a, m.prefix);
    forall n | n in configured
      ensures (m.version == n.version && SubnetOf(m, n)) <==> InNetwork(a, n)
    {
      MembershipIsRange(a, n);
    }
  }

  /** Two blocks, the second no longer than the first, are nested or apart. */
  lemma NestedOrApart(h: nat, i: nat, j: nat, k: nat, whole: nat)
    requires whole == j + k
    ensures Shl(i, k) < Shl(h, whole) + Shl(1, whole) ==> Shl(i, k) + Shl(1, k) <= Shl(h, whole) + Shl(1, whole)
  {
    ShlSum(h, 1, whole);
    ShlTwice(h + 1, j, k);
    ShlOrder(i, Shl(h + 1, j), k);
  }

  lemma LongerBlock(j: nat, k: nat, whole: nat)
    requires j > 0 && whole == j + k
    ensures Shl(1, whole) > Shl(1, k)
  {
    ShlTwice(1, j, k);
    ShlOrder(1, Shl(1, j), k);
  }

  lemma BlocksNested(h: nat, i: nat, kn: nat, km: nat)
    ensures Shl(h, kn) <= Shl(i, km) && Shl(i, km) + Shl(1, km) <= Shl(h, kn) + Shl(1, kn)
       <==> Shl(h, kn) <= Shl(i, km) < Shl(h, kn) + Shl(1, kn) && km <= kn
  {
    if km <= kn {
      NestedOrApart(h, i, kn - km, km, kn);
    } else {
      LongerBlock(km - kn, kn, km);
    }
  }

  lemma SubnetRange(m: Network, n: Network, i: nat, h: nat)
    requires m.prefix <= Width(m.version) && m.base == Shl(i, HostBits(m.version, m.prefix))
    requires n.prefix <= Width(n.version) && n.base == Shl(h, HostBits(n.version, n.prefix))
    ensures SubnetOf(m, n) <==>
            n.base <= m.base && m.base + Block(m.version, m.prefix) <= n.base + Block(n.version, n.prefix)
  {
    LastAddress(m, i);
    LastAddress(n, h);
  }

  lemma FirstInside(m: Network, n: Network)
    requires IsNetwork(m) && IsNetwork(n) && m.version == n.version
    ensures InNetwork(Address(m.version, m.base), n) <==> n.base <= m.base < n.base + Block(n.version, n.prefix)
  {
    var _ := Aligned(m);
    var _ := Aligned(n);
    MembershipIsRange(Address(m.version, m.base), n);
  }

  lemma SubnetByStart(m: Network, n: Network, i: nat, h: nat)
    requires m.prefix <= Width(m.version) && m.base == Shl(i, HostBits(m.version, m.prefix))
    requires n.prefix <= Width(n.version) && n.base == Shl(h, HostBits(n.version, n.prefix))
    requires m.version == n.version
    ensures SubnetOf(m, n) <==> n.base <= m.base < n.base + Block(n.version, n.prefix) && n.prefix <= m.prefix
  {
    SubnetRange(m, n, i, h);
    BlocksNested(h, i, HostBits(n.version, n.prefix), HostBits(m.version, m.prefix));
  }

  /** A network is inside another exactly when its first address is and its prefix is at least as long. */
  lemma {:induction false} SubnetByFirstAddress(m: Network, n: Network)
    requires IsNetwork(m) && IsNetwork(n)
    ensures (m.version == n.version && SubnetOf(m, n)) <==> (InNetwork(Address(m.version, m.base), n) && n.prefix <= m.prefix)
  {
    if m.version == n.version {
      var i := Aligned(m);
      var h := Aligned(n);
      FirstInside(m, n);
      SubnetByStart(m, n, i, h);
    }
  }

  /**
    Allowing every address does not allow the network. Given the former, the latter fails exactly when
    every configured network that holds the first address is smaller than the one asked for.
   */
  lemma {:induction false} GapExactly(configured: seq<Network>, production: bool, m: Network)
    requires Configured(configured) && IsNetwork(m)
    requires forall a :: IsAddress(a) && InNetwork(a, m) ==> IpIsAllowed(configured, production, Some(a)) == Answer(true)
    ensures NetworkIsAllowed(configured, production, Some(m)) == Answer(false) <==>
            configured != [] && forall n :: n in configured && InNetwork(Address(m.version, m.base), n) ==> n.prefix > m.prefix
  {
    forall n | n in configured
      ensures (m.version == n.version && SubnetOf(m, n)) <==> (InNetwork(Address(m.version, m.base), n) && n.prefix <= m.prefix)
    {
      SubnetByFirstAddress(m, n);
    }
    if configured == [] {
      var _ := Aligned(m);
      MembershipIsRange(Address(m.version, m.base), m);
      assert IpIsAllowed(configured, production, Some(Address(m.version, m.base))) == Answer(true);
    }
  }

  /** The network of the addresses that share block number `h`. */
  lemma BlockNetwork(v: Version, h: nat, prefix: nat) returns (n: Network)
    requires prefix <= Width(v) && Shl(h, HostBits(v, prefix)) <= AllOnes(v)
    ensures IsNetwork(n) && n == Network(v, Shl(h, HostBits(v, prefix)), prefix)
  {
    n := Network(v, Shl(h, HostBits(v, prefix)), prefix);
    IsBlock(n, h);
  }

  lemma IsBlock(n: Network, h: nat)
    requires n.prefix <= Width(n.version) && n.base == Shl(h, HostBits(n.version, n.prefix)) <= AllOnes(n.version)
    ensures IsNetwork(n)
  {
    var a := Address(n.version, n.base);
    JoinNone(h, HostBits(n.version, n.prefix));
    ShrUnique(h, 0, HostBits(n.version, n.prefix));
    Masked(a, n.prefix);
    assert n == IpNetwork(a, n.prefix);
  }

  lemma TwoBlocks(h: nat, k: nat, whole: nat)
    requires whole == k + 1
    ensures Shl(2 * h, k) == Shl(h, whole) && Shl(2 * h + 1, k) == Shl(h, whole) + Shl(1, k)
    ensures Shl(1, whole) == 2 * Shl(1, k)
  {
    ShlTwice(h, 1, k);
    ShlSum(2 * h, 1, k);
  }

  lemma HalfNetwork(v: Version, h: nat, prefix: nat) returns (n: Network)
    requires prefix <= Width(v) && Shl(h, HostBits(v, prefix)) <= AllOnes(v)
    ensures IsNetwork(n) && n.version == v && n.prefix == prefix && n.base == Shl(h, HostBits(v, prefix))
    ensures Broadcast(n) == n.base + Block(v, prefix) - 1
  {
    n := BlockNetwork(v, h, prefix);
    LastAddress(n, h);
  }

  lemma HalvesAt(m: Network, h: nat, prefix: nat) returns (lo: Network, hi: Network)
    requires prefix == m.prefix + 1 && prefix <= Width(m.version)
    requires m.base == Shl(h, HostBits(m.version, m.prefix))
    requires Broadcast(m) == m.base + Block(m.version, m.prefix) - 1 <= AllOnes(m.version)
    ensures IsNetwork(lo) && IsNetwork(hi) && lo.version == hi.version == m.version
    ensures lo.prefix == hi.prefix == prefix
    ensures lo.base == m.base && Broadcast(lo) + 1 == hi.base && Broadcast(hi) == Broadcast(m)
  {
    TwoBlocks(h, HostBits(m.version, prefix), HostBits(m.version, m.prefix));
    var even, odd := 2 * h, 2 * h + 1;
    lo := HalfNetwork(m.version, even, prefix);
    hi := HalfNetwork(m.version, odd, prefix);
  }

  /** The two halves of a network. */
  lemma {:induction false} HalvesOf(m: Network) returns (lo: Network, hi: Network)
    requires IsNetwork(m) && m.prefix < Width(m.version)
    ensures IsNetwork(lo) && IsNetwork(hi) && lo.version == hi.version == m.version
    ensures lo.prefix == hi.prefix == m.prefix + 1
    ensures lo.base == m.base && Broadcast(lo) + 1 == hi.base && Broadcast(hi) == Broadcast(m)
  {
    var h := Aligned(m);
    lo, hi := HalvesAt(m, h, m.prefix + 1);
  }

  lemma EitherHalf(m: Network, lo: Network, hi: Network, a: Address)
    requires IsNetwork(m) && IsNetwork(lo) && IsNetwork(hi) && lo.version == hi.version == m.version
    requires lo.base == m.base && Broadcast(lo) + 1 == hi.base && Broadcast(hi) == Broadcast(m)
    requires IsAddress(a) && InNetwork(a, m)
    ensures InNetwork(a, lo) || InNetwork(a, hi)
  {
    MembershipIsRange(a, m);
    MembershipIsRange(a, lo);
    MembershipIsRange(a, hi);
  }

  lemma HalfAllows(configured: seq<Network>, production: bool, a: Address, lo: Network, hi: Network)
    requires configured == [lo, hi] && (InNetwork(a, lo) || InNetwork(a, hi))
    ensures IpIsAllowed(configured, production, Some(a)) == Answer(true)
  {
    assert lo in configured && hi in configured;
  }

  lemma OnlyLonger(configured: seq<Network>, lo: Network, hi: Network, prefix: nat)
    requires configured == [lo, hi] && lo.prefix == hi.prefix > prefix && IsNetwork(lo) && IsNetwork(hi)
    ensures Configured(configured) && forall n :: n in configured ==> n.prefix > prefix
  {
  }

  lemma LongerRefuse(configured: seq<Network>, production: bool, m: Network)
    requires Configured(configured) && configured != [] && IsNetwork(m)
    requires forall n :: n in configured ==> n.prefix > m.prefix
    ensures NetworkIsAllowed(configured, production, Some(m)) == Answer(false)
  {
    forall n | n in configured ensures !(m.version == n.version && SubnetOf(m, n)) {
      SubnetByFirstAddress(m, n);
    }
  }

  /** Listing any network as its two halves allows all its addresses and refuses the network. */
  lemma {:induction false} HalvesRefuseTheWhole(m: Network, production: bool) returns (configured: seq<Network>)
    requires IsNetwork(m) && m.prefix < Width(m.version)
    ensures Configured(configured)
    ensures forall a :: IsAddress(a) && InNetwork(a, m) ==> IpIsAllowed(configured, production, Some(a)) == Answer(true)
    ensures NetworkIsAllowed(configured, production, Some(m)) == Answer(false)
  {
    var lo, hi := HalvesOf(m);
    configured := [lo, hi];
    OnlyLonger(configured, lo, hi, m.prefix);
    LongerRefuse(configured, production, m);
    forall a | IsAddress(a) && InNetwork(a, m) ensures IpIsAllowed(configured, production, Some(a)) == Answer(true) {
      EitherHalf(m, lo, hi, a);
      HalfAllows(configured, production, a, lo, hi);
    }
  }

  // ----- the client scan

  /** The addresses `hosts()` lists: for IPv4 without network and broadcast address, for IPv6 without the former. */
  function FirstHost(n: Network): nat {
    if n.prefix + 1 >= Width(n.version) then n.base else n.base + 1
  }

  function LastHost(n: Network): int {
    if n.prefix + 1 >= Width(n.version) || n.version.V6? then Broadcast(n) else Broadcast(n) - 1
  }

  /** The answers of `scan_clients` before anything is pinged; `network` is the parsed request. */
  datatype Scan = Invalid | TooLarge | Outside | Ping(hosts: seq<Address>)

  method Hosts(n: Network) returns (hosts: seq<Address>)
    requires IsNetwork(n)
    ensures forall a :: a in hosts <==> a.version == n.version && FirstHost(n) <= a.value <= LastHost(n)
    ensures |hosts| == LastHost(n) - FirstHost(n) + 1
    ensures forall i, j {:trigger hosts[i], hosts[j]} :: 0 <= i < j < |hosts| ==> hosts[i].value < hosts[j].value
  {
    BlockSizes(n);
    hosts := [];
    var v: nat := FirstHost(n);
    while v <= LastHost(n)
      invariant FirstHost(n) <= v <= LastHost(n) + 1
      invariant |hosts| == v - FirstHost(n)
      invariant forall i :: 0 <= i < |hosts| ==> hosts[i] == Address(n.version, FirstHost(n) + i)
    {
      hosts := hosts + [Address(n.version, v)];
      v := v + 1;
    }
    forall a: Address | a.version == n.version && FirstHost(n) <= a.value <= LastHost(n) ensures a in hosts {
      assert hosts[a.value - FirstHost(n)] == a;
    }
  }

  lemma BlockSizes(n: Network)
    requires IsNetwork(n)
    ensures n.base <= FirstHost(n) <= LastHost(n) <= Broadcast(n) <= AllOnes(n.version)
  {
    var _ := Aligned(n);
    if n.prefix + 1 < Width(n.version) {
      FourOrMore(HostBits(n.version, n.prefix));
    }
  }

  lemma FourOrMore(k: nat)
    requires k >= 2
    ensures Shl(1, k) >= 4
  {
    assert Shl(1, k) == 2 * Shl(1, k - 1) == 4 * Shl(1, k - 2);
  }

  /** Every host of a network is one of its addresses. */
  lemma {:induction false} HostsAreInside(n: Network, a: Address)
    requires IsNetwork(n) && a.version == n.version && FirstHost(n) <= a.value <= LastHost(n)
    ensures IsAddress(a) && InNetwork(a, n)
  {
    BlockSizes(n);
    MembershipIsRange(a, n);
  }

  /** Some other address of the network is smaller. */
  ghost predicate HasBelow(a: Address, n: Network) {
    exists b :: IsAddress(b) && InNetwork(b, n) && b.value < a.value
  }

  ghost predicate HasAbove(a: Address, n: Network) {
    exists b :: IsAddress(b) && InNetwork(b, n) && b.value > a.value
  }

  lemma ExtremesInside(a: Address, n: Network)
    requires IsNetwork(n) && IsAddress(a) && InNetwork(a, n)
    ensures HasBelow(a, n) <==> a.value != n.base
    ensures HasAbove(a, n) <==> a.value != Broadcast(n)
  {
    var first, last := Address(n.version, n.base), Address(n.version, Broadcast(n));
    EndsInside(n, n, first, last);
    MembershipIsRange(a, n);
    if HasBelow(a, n) {
      var b :| IsAddress(b) && InNetwork(b, n) && b.value < a.value;
      MembershipIsRange(b, n);
    }
    if HasAbove(a, n) {
      var b :| IsAddress(b) && InNetwork(b, n) && b.value > a.value;
      MembershipIsRange(b, n);
    }
  }

  /**
    The hosts of a network are its addresses without the lowest one and, for IPv4, without the highest one;
    the networks of one or two addresses lose neither.
   */
  lemma {:induction false} HostsExactly(n: Network, a: Address)
    requires IsNetwork(n) && IsAddress(a)
    ensures a.version == n.version && FirstHost(n) <= a.value <= LastHost(n) <==>
            && InNetwork(a, n)
            && (n.prefix >= (match n.version case V4 => 31 case V6 => 127)
                || (HasBelow(a, n) && (n.version.V6? || HasAbove(a, n))))
  {
    BlockSizes(n);
    MembershipIsRange(a, n);
    if InNetwork(a, n) {
      ExtremesInside(a, n);
    }
  }

  lemma SmallBlocks(k: nat)
    ensures Shl(1, k) <= 1024 <==> k <= 10
  {
    assert Shl(1, 2) == 4;
    Shl8(1);
    ShlTwice(1, 2, 8);
    Shl8(4);
    assert Shl(1, 10) == 1024;
    if k <= 10 {
      ShlTwice(1, k, 10 - k);
      ShlAtLeast(Shl(1, k), 10 - k);
      assert Shl(1, 10) == Shl(Shl(1, k), 10 - k);
    } else {
      ShlTwice(1, 11, k - 11);
      ShlAtLeast(Shl(1, 11), k - 11);
      assert Shl(1, 11) == 2048;
    }
  }

  lemma {:induction false} ShlAtLeast(a: nat, k: nat)
    ensures Shl(a, k) >= a
    decreases k
  {
    if k > 0 { ShlAtLeast(a, k - 1); }
  }

  /** At most 1024 addresses: an IPv4 prefix of 22 or longer, an IPv6 prefix of 118 or longer. */
  lemma {:induction false} LargestScan(n: Network)
    requires IsNetwork(n)
    ensures NumAddresses(n) <= 1024 <==> n.prefix >= (match n.version case V4 => 22 case V6 => 118)
  {
    var _ := Aligned(n);
    SmallBlocks(HostBits(n.version, n.prefix));
  }

  method ScanTargets(configured: seq<Network>, production: bool, network: Option<Network>) returns (r: Scan)
    requires Configured(configured) && (network.Some? ==> IsNetwork(network.value))
    ensures r.Invalid? <==> network.None?
    ensures r.TooLarge? <==> network.Some? && NumAddresses(network.value) > 1024
    ensures r.TooLarge? <==> network.Some? && network.value.prefix < (match network.value.version case V4 => 22 case V6 => 118)
    ensures configured == [] && production ==> !r.Ping?
    ensures configured == [] && !production && network.Some? && !r.TooLarge? ==> r.Ping?
    ensures r.Ping? ==> forall a :: IsAddress(a) ==> (a in r.hosts <==>
              && InNetwork(a, network.value)
              && (network.value.prefix >= (match network.value.version case V4 => 31 case V6 => 127)
                  || (HasBelow(a, network.value) && (network.value.version.V6? || HasAbove(a, network.value)))))
    ensures r.Ping? <==>
              && network.Some? && NumAddresses(network.value) <= 1024
              && NetworkIsAllowed(configured, production, network) == Answer(true)
    ensures r.Ping? ==>
              && 1 <= |r.hosts| <= 1024
              && (forall i, j {:trigger r.hosts[i], r.hosts[j]} :: 0 <= i < j < |r.hosts| ==> r.hosts[i] != r.hosts[j])
              && (forall a :: a in r.hosts ==> IsAddress(a) && InNetwork(a, network.value))
              && (forall a :: a in r.hosts ==> IpIsAllowed(configured, production, Some(a)) == Answer(true))
  {
    if network.None? {
      return Invalid;
    }
    LargestScan(network.value);
    if NumAddresses(network.value) > 1024 {
      return TooLarge;
    }
    if NetworkIsAllowed(configured, production, network) != Answer(true) {
      return Outside;
    }
    var hosts := Hosts(network.value);
    BlockSizes(network.value);
    forall a | a in hosts
      ensures IsAddress(a) && InNetwork(a, network.value)
      ensures IpIsAllowed(configured, production, Some(a)) == Answer(true)
    {
      HostsAreInside(network.value, a);
      AllowedNetworkIsSound(configured, production, network.value, a);
    }
    forall a | IsAddress(a) { HostsExactly(network.value, a); }
    return Ping(hosts);
  }
}
