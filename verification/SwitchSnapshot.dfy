/**
  The switch port snapshot: a hash join over the interface, bridge-port, FDB, ARP and PVID tables
  (dot1dBasePortIfIndex and dot1dTpFdbPort of the Definitions section of RFC 4188; dot1qPvid of RFC 4363).
 */
module SwitchSnapshot {
  import opened Wrappers
  import opened MacFormat
  import opened Walks
  import opened SwitchPorts

  type IntWalk = seq<Item<int, int>>
  type FdbWalk = seq<Item<string, int>>
  type ArpWalk = seq<Item<string, string>>

  datatype MacEntry = MacEntry(mac: string, port: Option<int>, bridgePort: int)
  datatype ArpEntry = ArpEntry(ip: string, mac: string)

  /** An interface as `get_switch_ports` returns it, with the fields the snapshot adds. */
  datatype Port = Port(shown: Interface, pvid: Option<int>, macCount: nat, macs: seq<string>, ips: seq<string>)

  // ----- the tables as relations

  /** The MACs learned on an interface: FDB rows whose bridge port maps to it. */
  function PortMacs(bridge: IntWalk, fdb: FdbWalk, ifIndex: int): set<string> {
    set i | 0 <= i < |fdb| && fdb[i].Item? && LastValue(bridge, fdb[i].value) == Some(ifIndex) :: FormatMac(fdb[i].index)
  }

  /** The MAC an address has in the ARP table: the last row for it. */
  function ArpMac(arp: ArpWalk, ip: string): Option<string> {
    if arp == [] then None
    else
      var last := arp[|arp| - 1];
      if last.Item? && IpFromArpIndex(last.index) == ip then Some(FormatMac(last.value)) else ArpMac(arp[..|arp| - 1], ip)
  }

  function ArpIps(arp: ArpWalk): set<string> {
    set i | 0 <= i < |arp| && arp[i].Item? :: IpFromArpIndex(arp[i].index)
  }

  /** The addresses whose ARP entry is one of the MACs. */
  function IpsOf(arp: ArpWalk, macs: set<string>): set<string> {
    set ip | ip in ArpIps(arp) && ArpMac(arp, ip).Some? && ArpMac(arp, ip).value in macs
  }

  /** The PVID rows read before the first failure; a failed bridge-port walk gives none. */
  function PvidRows(bridge: IntWalk, pvid: IntWalk): IntWalk {
    if !Complete(bridge) then [] else ReadPrefix(pvid)
  }

  function ReadPrefix(w: IntWalk): IntWalk {
    if w == [] || w[0].Bad? then [] else [w[0]] + ReadPrefix(w[1..])
  }

  /** The last PVID row whose bridge port maps to the interface. */
  function PortPvid(bridge: IntWalk, rows: IntWalk, ifIndex: int): Option<int> {
    if rows == [] then None
    else
      var last := rows[|rows| - 1];
      if last.Item? && LastValue(bridge, last.index) == Some(ifIndex) then Some(last.value)
      else PortPvid(bridge, rows[..|rows| - 1], ifIndex)
  }

  /** `_ip_from_arp_index`: the last four parts when they are octets, otherwise the index itself. */
  function IpFromArpIndex(index: string): string {
    var parts := Split(index);
    if |parts| >= 4 && (forall i :: |parts| - 4 <= i < |parts| ==> Octet(parts[i]))
    then JoinDots(parts[|parts| - 4..])
    else index
  }

  predicate Octet(part: string) {
    AllDigits(part) && ParseNat(part) <= 255
  }

  lemma LastFour(parts: seq<string>)
    requires DotFree(parts) && |parts| >= 4 && forall i :: |parts| - 4 <= i < |parts| ==> Octet(parts[i])
    ensures IpFromArpIndex(JoinDots(parts)) == JoinDots(parts[|parts| - 4..])
  {
    SplitJoinFree(parts);
  }

  lemma FourJoined(a: string, b: string, c: string, d: string)
    ensures JoinDots([a, b, c, d]) == a + "." + (b + "." + (c + "." + d))
  {
    assert [a, b, c, d][1..] == [b, c, d] && [b, c, d][1..] == [c, d] && [c, d][1..] == [d];
    assert JoinDots([c, d]) == c + "." + d;
    assert JoinDots([b, c, d]) == b + "." + JoinDots([c, d]);
  }

  /** Whatever comes before them, four decimal octets at the end of an index are the address. */
  lemma {:induction false} ArpIndexIsAddress(before: seq<string>, a: string, b: string, c: string, d: string)
    requires DotFree(before) && Octet(a) && Octet(b) && Octet(c) && Octet(d)
    ensures IpFromArpIndex(JoinDots(before + [a, b, c, d])) == a + "." + (b + "." + (c + "." + d))
  {
    var parts := before + [a, b, c, d];
    assert parts[|parts| - 4..] == [a, b, c, d];
    LastFour(parts);
    FourJoined(a, b, c, d);
  }

  /** Any other index is taken as it is. */
  lemma {:induction false} OtherIndexUnchanged(parts: seq<string>)
    requires parts != [] && DotFree(parts)
    requires |parts| < 4 || exists i :: |parts| - 4 <= i < |parts| && !Octet(parts[i])
    ensures IpFromArpIndex(JoinDots(parts)) == JoinDots(parts)
  {
    SplitJoinFree(parts);
  }

  // ----- sorted sets of strings

  /** Code-point order, as `sorted` compares strings. */
  predicate Less(a: string, b: string)
    decreases |a|
  {
    if b == "" then false
    else if a == "" then true
    else if a[0] != b[0] then a[0] < b[0]
    else Less(a[1..], b[1..])
  }

  lemma LessTransitive(a: string, b: string, c: string)
    requires Less(a, b) && Less(b, c)
    ensures Less(a, c)
    decreases |a|
  {
    if a != "" && a[0] == b[0] == c[0] {
      LessTransitive(a[1..], b[1..], c[1..]);
    }
  }

  lemma LessTotal(a: string, b: string)
    ensures a == b || Less(a, b) || Less(b, a)
    ensures !(Less(a, b) && Less(b, a)) && !Less(a, a)
    decreases |a|
  {
    if a != "" {
      LessTotal(a[1..], a[1..]);
      if b != "" && a[0] == b[0] {
        LessTotal(a[1..], b[1..]);
        assert a[1..] == b[1..] ==> a == b by { assert a == [a[0]] + a[1..] && b == [b[0]] + b[1..]; }
      }
    }
  }

  /** The strings first differ at `k`, or the shorter ends there. */
  predicate LessAt(a: string, b: string, k: int) {
    0 <= k <= |a| && k < |b| && a[..k] == b[..k] && (k == |a| || a[k] < b[k])
  }

  lemma {:induction false} LessBy(a: string, b: string, k: nat)
    requires LessAt(a, b, k)
    ensures Less(a, b)
    decreases k
  {
    if k > 0 {
      assert a[0] == a[..k][0] && b[0] == b[..k][0];
      assert a[1..][..k - 1] == a[..k][1..] && b[1..][..k - 1] == b[..k][1..];
      LessBy(a[1..], b[1..], k - 1);
    }
  }

  lemma {:induction false} LessHas(a: string, b: string) returns (k: nat)
    requires Less(a, b)
    ensures LessAt(a, b, k)
    decreases |a|
  {
    if a == "" || a[0] != b[0] {
      k := 0;
    } else {
      var n := LessHas(a[1..], b[1..]);
      assert a[..n + 1] == [a[0]] + a[1..][..n] && b[..n + 1] == [b[0]] + b[1..][..n];
      k := n + 1;
    }
  }

  /** The order of code points: at the first difference, or the shorter first. */
  lemma {:induction false} LessExactly(a: string, b: string)
    ensures Less(a, b) <==> exists k :: LessAt(a, b, k)
  {
    if Less(a, b) {
      var k := LessHas(a, b);
    }
    if k :| LessAt(a, b, k) {
      LessBy(a, b, k);
    }
  }

  ghost predicate Ascending(s: seq<string>) {
    forall i, j :: 0 <= i < j < |s| ==> Less(s[i], s[j])
  }

  function Insert(s: seq<string>, x: string): (r: seq<string>)
    ensures forall y :: y in r <==> y in s || y == x
  {
    if s == [] then [x]
    else if x == s[0] then s
    else if Less(x, s[0]) then [x] + s
    else [s[0]] + Insert(s[1..], x)
  }

  lemma InsertAscending(s: seq<string>, x: string)
    requires Ascending(s)
    ensures Ascending(Insert(s, x))
  {
    if s != [] && x != s[0] {
      LessTotal(x, s[0]);
      if Less(x, s[0]) {
        forall j | 0 <= j < |s| ensures Less(x, s[j]) {
          if j > 0 { LessTransitive(x, s[0], s[j]); }
        }
      } else {
        InsertAscending(s[1..], x);
        var rest := Insert(s[1..], x);
        forall j | 0 <= j < |rest| ensures Less(s[0], rest[j]) {
          assert rest[j] in rest;
          if rest[j] != x {
            var k :| 0 <= k < |s[1..]| && s[1..][k] == rest[j];
            assert s[k + 1] == rest[j];
          }
        }
      }
    }
  }

  /** `sorted(set(xs))` */
  function SortedSet(xs: seq<string>): (r: seq<string>)
    ensures Ascending(r) && forall y :: y in r <==> y in xs
  {
    if xs == [] then []
    else
      var r := SortedSet(xs[..|xs| - 1]);
      InsertAscending(r, xs[|xs| - 1]);
      Insert(r, xs[|xs| - 1])
  }

  /** An ascending list of a set is unique and as long as the set. */
  lemma {:induction false} AscendingUnique(a: seq<string>, b: seq<string>)
    requires Ascending(a) && Ascending(b) && forall y :: y in a <==> y in b
    ensures a == b
    decreases |a|
  {
    assert (a == [] || a[0] in a) && (b == [] || b[0] in b);
    if a != [] {
      assert a[0] in b && b != [] && b[0] in a;
      LessTotal(a[0], b[0]);
      assert a[0] == b[0];
      forall y ensures y in a[1..] <==> y in b[1..] {
        LessTotal(a[0], a[0]);
        if y in a[1..] {
          var i :| 0 <= i < |a[1..]| && a[1..][i] == y;
          assert Less(a[0], a[i + 1]) && y in a;
        }
        if y in b[1..] {
          var i :| 0 <= i < |b[1..]| && b[1..][i] == y;
          assert Less(b[0], b[i + 1]) && y in b;
        }
      }
      AscendingUnique(a[1..], b[1..]);
      assert a == [a[0]] + a[1..] && b == [b[0]] + b[1..];
    }
  }

  lemma {:induction false} AscendingSize(a: seq<string>, xs: set<string>)
    requires Ascending(a) && forall y :: y in a <==> y in xs
    ensures |a| == |xs|
    decreases |a|
  {
    if a == [] {
      assert xs == {};
    } else {
      forall y ensures y in a[1..] <==> y in xs - {a[0]} {
        LessTotal(a[0], a[0]);
        if y in a[1..] {
          var i :| 0 <= i < |a[1..]| && a[1..][i] == y;
          assert Less(a[0], a[i + 1]) && y in a;
        }
      }
      assert a[0] in a;
      AscendingSize(a[1..], xs - {a[0]});
    }
  }

  // ----- the walks

  /** The bridge-port dictionary; false when a row could not be read. */
  method BridgePorts(bridge: IntWalk) returns (ok: bool, toIfIndex: map<int, int>)
    ensures ok <==> Complete(bridge)
    ensures ok ==> forall k :: LastValue(bridge, k) == if k in toIfIndex then Some(toIfIndex[k]) else None
  {
    toIfIndex := map[];
    for i := 0 to |bridge|
      invariant Complete(bridge[..i])
      invariant forall k :: LastValue(bridge[..i], k) == if k in toIfIndex then Some(toIfIndex[k]) else None
    {
      if bridge[i].Bad? {
        return false, map[];
      }
      forall k { LastValueSnoc(bridge, i, k); }
      toIfIndex := toIfIndex[bridge[i].index := bridge[i].value];
    }
    assert bridge[..|bridge|] == bridge;
    ok := true;
  }

  method GetMacTable(bridge: IntWalk, fdb: FdbWalk) returns (macs: seq<MacEntry>)
    ensures !Complete(bridge) || !Complete(fdb) ==> macs == []
    ensures Complete(bridge) && Complete(fdb) ==>
              && |macs| == |fdb|
              && forall i :: 0 <= i < |fdb| ==>
                   macs[i] == MacEntry(FormatMac(fdb[i].index), LastValue(bridge, fdb[i].value), fdb[i].value)
  {
    macs := [];
    var ok, toIfIndex := BridgePorts(bridge);
    if !ok {
      return;
    }
    for i := 0 to |fdb|
      invariant Complete(fdb[..i]) && |macs| == i
      invariant forall j :: 0 <= j < i ==>
                  macs[j] == MacEntry(FormatMac(fdb[j].index), LastValue(bridge, fdb[j].value), fdb[j].value)
    {
      if fdb[i].Bad? {
        return [];
      }
      var bridgePort := fdb[i].value;
      var port := if bridgePort in toIfIndex then Some(toIfIndex[bridgePort]) else None;
      macs := macs + [MacEntry(FormatMac(fdb[i].index), port, bridgePort)];
    }
    assert fdb[..|fdb|] == fdb;
  }

  lemma ArpMacSnoc(arp: ArpWalk, i: nat, ip: string)
    requires i < |arp|
    ensures ArpMac(arp[..i + 1], ip)
            == if arp[i].Item? && IpFromArpIndex(arp[i].index) == ip then Some(FormatMac(arp[i].value)) else ArpMac(arp[..i], ip)
  {
    assert arp[..i + 1][..i] == arp[..i];
  }

  lemma ArpMacKnown(arp: ArpWalk, ip: string)
    ensures ArpMac(arp, ip).Some? <==> ip in ArpIps(arp)
  {
    if arp != [] {
      var front, last := arp[..|arp| - 1], arp[|arp| - 1];
      ArpMacKnown(front, ip);
      if ip in ArpIps(arp) && !(last.Item? && IpFromArpIndex(last.index) == ip) {
        var i :| 0 <= i < |arp| && arp[i].Item? && IpFromArpIndex(arp[i].index) == ip;
        assert front[i] == arp[i];
      }
      if ip in ArpIps(front) {
        var i :| 0 <= i < |front| && front[i].Item? && IpFromArpIndex(front[i].index) == ip;
        assert arp[i] == front[i];
      }
    }
  }

  /** Dictionary assignment: an existing key keeps its place. */
  function PutEntry(entries: seq<ArpEntry>, ip: string, mac: string): (r: seq<ArpEntry>)
    requires DistinctIps(entries)
    ensures forall a, m :: ArpEntry(a, m) in r <==> if a == ip then m == mac else ArpEntry(a, m) in entries
    ensures DistinctIps(r)
  {
    if entries == [] then [ArpEntry(ip, mac)]
    else if entries[0].ip == ip then [ArpEntry(ip, mac)] + entries[1..]
    else [entries[0]] + PutEntry(entries[1..], ip, mac)
  }

  function PutRow(entries: seq<ArpEntry>, row: Item<string, string>): (r: seq<ArpEntry>)
    requires DistinctIps(entries) && row.Item?
    ensures DistinctIps(r)
  {
    PutEntry(entries, IpFromArpIndex(row.index), FormatMac(row.value))
  }

  /** The entries list exactly the addresses the rows define, each with its MAC. */
  ghost predicate Lists(entries: seq<ArpEntry>, arp: ArpWalk) {
    forall ip, mac :: ArpEntry(ip, mac) in entries <==> ArpMac(arp, ip) == Some(mac)
  }

  predicate DistinctIps(entries: seq<ArpEntry>) {
    forall i, j :: 0 <= i < j < |entries| ==> entries[i].ip != entries[j].ip
  }

  lemma PutLists(entries: seq<ArpEntry>, arp: ArpWalk, i: nat)
    requires i < |arp| && arp[i].Item? && Lists(entries, arp[..i]) && DistinctIps(entries)
    ensures Lists(PutRow(entries, arp[i]), arp[..i + 1])
  {
    var ip, mac := IpFromArpIndex(arp[i].index), FormatMac(arp[i].value);
    var r := PutEntry(entries, ip, mac);
    forall a, m ensures ArpEntry(a, m) in r <==> ArpMac(arp[..i + 1], a) == Some(m) {
      ArpMacSnoc(arp, i, a);
    }
  }

  /** The ARP dictionary by address, in order of first appearance. */
  method GetArpTable(arp: ArpWalk) returns (entries: seq<ArpEntry>)
    ensures !Complete(arp) ==> entries == []
    ensures Complete(arp) ==> Lists(entries, arp)
    ensures DistinctIps(entries)
  {
    entries := [];
    for i := 0 to |arp|
      invariant Complete(arp[..i]) && Lists(entries, arp[..i]) && DistinctIps(entries)
    {
      if arp[i].Bad? {
        return [];
      }
      CompleteSnoc(arp, i);
      PutLists(entries, arp, i);
      entries := PutRow(entries, arp[i]);
    }
    assert arp[..|arp|] == arp;
  }

  // ----- the join

  /** What each table contributes when its walk failed: nothing. */
  function ReadFdb(bridge: IntWalk, fdb: FdbWalk): FdbWalk {
    if Complete(bridge) && Complete(fdb) then fdb else []
  }

  function ReadArp(arp: ArpWalk): ArpWalk {
    if Complete(arp) then arp else []
  }

  /** The enriched port equals its relational definition. */
  ghost predicate PortIs(p: Port, ifIndex: int, bridge: IntWalk, fdb: FdbWalk, arp: ArpWalk, vlanBridge: IntWalk, pvid: IntWalk) {
    && p.shown.port == ifIndex
    && Ascending(p.macs) && (forall m :: m in p.macs <==> m in PortMacs(bridge, ReadFdb(bridge, fdb), ifIndex))
    && p.macCount == |PortMacs(bridge, ReadFdb(bridge, fdb), ifIndex)| == |p.macs|
    && Ascending(p.ips)
    && (forall ip :: ip in p.ips <==> ip in IpsOf(ReadArp(arp), PortMacs(bridge, ReadFdb(bridge, fdb), ifIndex)))
    && p.pvid == PortPvid(vlanBridge, PvidRows(vlanBridge, pvid), ifIndex)
  }

  function Listed<K, V>(m: map<K, seq<V>>, key: K): seq<V> {
    if key in m then m[key] else []
  }

  /** `ips_by_mac` */
  method IpsByMac(entries: seq<ArpEntry>) returns (byMac: map<string, seq<string>>)
    ensures forall mac, ip :: ip in Listed(byMac, mac) <==> ArpEntry(ip, mac) in entries
  {
    byMac := map[];
    for i := 0 to |entries|
      invariant forall mac, ip :: ip in Listed(byMac, mac) <==> ArpEntry(ip, mac) in entries[..i]
    {
      var e := entries[i];
      byMac := byMac[e.mac := Listed(byMac, e.mac) + [e.ip]];
      assert entries[..i + 1] == entries[..i] + [e];
    }
    assert entries[..|entries|] == entries;
  }

  /** `macs_by_port` */
  method MacsByPort(macs: seq<MacEntry>) returns (byPort: map<int, seq<string>>)
    ensures forall port, mac :: mac in Listed(byPort, port) <==>
              exists i :: 0 <= i < |macs| && macs[i].port == Some(port) && macs[i].mac == mac
  {
    byPort := map[];
    for i := 0 to |macs|
      invariant forall port, mac :: mac in Listed(byPort, port) <==>
                  exists j :: 0 <= j < i && macs[j].port == Some(port) && macs[j].mac == mac
    {
      if macs[i].port.Some? {
        var port := macs[i].port.value;
        ghost var before := byPort;
        byPort := byPort[port := Listed(byPort, port) + [macs[i].mac]];
        forall p, m ensures m in Listed(byPort, p) <==> m in Listed(before, p) || (p == port && m == macs[i].mac) {}
      }
    }
  }

  lemma ReadPrefixIs(w: IntWalk, i: nat)
    requires i <= |w| && Complete(w[..i]) && (i == |w| || w[i].Bad?)
    ensures ReadPrefix(w) == w[..i]
  {
    if i > 0 {
      var read := w[..i];
      assert read[0] == w[0];
      assert w[1..][..i - 1] == read[1..];
      ReadPrefixIs(w[1..], i - 1);
      assert w[..i] == [w[0]] + w[1..][..i - 1];
    }
  }

  lemma PortPvidSnoc(bridge: IntWalk, rows: IntWalk, i: nat, ifIndex: int)
    requires i < |rows|
    ensures PortPvid(bridge, rows[..i + 1], ifIndex)
            == if rows[i].Item? && LastValue(bridge, rows[i].index) == Some(ifIndex) then Some(rows[i].value)
               else PortPvid(bridge, rows[..i], ifIndex)
  {
    assert rows[..i + 1][..i] == rows[..i];
  }

  /** `pvid_by_ifindex`: what was read before a failure is kept. */
  method PvidByIfIndex(bridge: IntWalk, pvid: IntWalk) returns (byIfIndex: map<int, int>)
    ensures forall k :: PortPvid(bridge, PvidRows(bridge, pvid), k)
                        == if k in byIfIndex then Some(byIfIndex[k]) else None
  {
    byIfIndex := map[];
    var ok, toIfIndex := BridgePorts(bridge);
    if !ok {
      return;
    }
    for i := 0 to |pvid|
      invariant Complete(pvid[..i])
      invariant forall k :: PortPvid(bridge, pvid[..i], k) == if k in byIfIndex then Some(byIfIndex[k]) else None
    {
      if pvid[i].Bad? {
        ReadPrefixIs(pvid, i);
        return;
      }
      forall k { PortPvidSnoc(bridge, pvid, i, k); }
      assert LastValue(bridge, pvid[i].index)
             == if pvid[i].index in toIfIndex then Some(toIfIndex[pvid[i].index]) else None;
      if pvid[i].index in toIfIndex {
        byIfIndex := byIfIndex[toIfIndex[pvid[i].index] := pvid[i].value];
      }
    }
    ReadPrefixIs(pvid, |pvid|);
    assert pvid[..|pvid|] == pvid;
  }

  /** The addresses of a port's MACs, gathered list by list. */
  method GatherIps(macs: seq<string>, byMac: map<string, seq<string>>) returns (ips: seq<string>)
    ensures forall ip :: ip in ips <==> exists mac :: mac in macs && ip in Listed(byMac, mac)
  {
    ips := [];
    for i := 0 to |macs|
      invariant forall ip :: ip in ips <==> exists mac :: mac in macs[..i] && ip in Listed(byMac, mac)
    {
      ghost var before := ips;
      ips := ips + Listed(byMac, macs[i]);
      assert macs[..i + 1] == macs[..i] + [macs[i]];
      forall ip ensures ip in ips <==> exists mac :: mac in macs[..i + 1] && ip in Listed(byMac, mac) {
        if ip in Listed(byMac, macs[i]) { assert macs[i] in macs[..i + 1]; }
      }
    }
    assert macs[..|macs|] == macs;
  }

  lemma PortMacsOf(bridge: IntWalk, fdb: FdbWalk, macs: seq<MacEntry>, ifIndex: int, mac: string)
    requires !Complete(bridge) || !Complete(fdb) ==> macs == []
    requires Complete(bridge) && Complete(fdb) ==>
               && |macs| == |fdb|
               && forall i :: 0 <= i < |fdb| ==>
                    macs[i] == MacEntry(FormatMac(fdb[i].index), LastValue(bridge, fdb[i].value), fdb[i].value)
    ensures mac in PortMacs(bridge, ReadFdb(bridge, fdb), ifIndex) <==>
            exists i :: 0 <= i < |macs| && macs[i].port == Some(ifIndex) && macs[i].mac == mac
  {
  }

  /** Every listed interface, in order and otherwise as listed, enriched as the relational definition says. */
  ghost predicate IsSnapshot(ports: seq<Port>, interfaces: seq<Interface>, bridge: IntWalk, fdb: FdbWalk, arp: ArpWalk,
      vlanBridge: IntWalk, pvid: IntWalk)
  {
    && |ports| == |interfaces|
    && forall k :: 0 <= k < |ports| ==>
         ports[k].shown == interfaces[k] && PortIs(ports[k], interfaces[k].port, bridge, fdb, arp, vlanBridge, pvid)
  }

  /** `get_switch_port_snapshot` */
  method GetSwitchPortSnapshot(index: IntColumn, descr: TextColumn, oper: IntColumn, alias: TextColumn, speed: IntColumn,
      bridge: IntWalk, fdb: FdbWalk, arp: ArpWalk, vlanBridge: IntWalk, pvid: IntWalk)
    returns (ports: seq<Port>)
    ensures IsSnapshot(ports, Table(index, descr, oper, alias, speed), bridge, fdb, arp, vlanBridge, pvid)
  {
    var interfaces := GetSwitchPorts(index, descr, oper, alias, speed);
    ports := Enrich(interfaces, bridge, fdb, arp, vlanBridge, pvid);
  }

  method Enrich(interfaces: seq<Interface>, bridge: IntWalk, fdb: FdbWalk, arp: ArpWalk, vlanBridge: IntWalk, pvid: IntWalk)
    returns (ports: seq<Port>)
    ensures IsSnapshot(ports, interfaces, bridge, fdb, arp, vlanBridge, pvid)
  {
    ports := seq(|interfaces|, i requires 0 <= i < |interfaces| => Port(interfaces[i], None, 0, [], []));
    if ports == [] {
      return;
    }
    var macs := GetMacTable(bridge, fdb);
    var entries := GetArpTable(arp);
    var byMac := IpsByMac(entries);
    var byPort := MacsByPort(macs);
    var pvidOf := PvidByIfIndex(vlanBridge, pvid);
    for k := 0 to |ports|
      invariant |ports| == |interfaces|
      invariant forall j :: 0 <= j < |ports| ==> ports[j].shown == interfaces[j]
      invariant forall j :: 0 <= j < k ==> PortIs(ports[j], interfaces[j].port, bridge, fdb, arp, vlanBridge, pvid)
    {
      var p := ports[k].shown.port;
      var learned := SortedSet(Listed(byPort, p));
      var gathered := GatherIps(learned, byMac);
      var ips := SortedSet(gathered);
      var enriched := Port(ports[k].shown, if p in pvidOf then Some(pvidOf[p]) else None, |learned|, learned, ips);
      Enriched(p, bridge, fdb, arp, vlanBridge, pvid, macs, byPort, entries, byMac, gathered, enriched);
      ports := ports[k := enriched];
    }
  }

  /** The hash join agrees with the relations. */
  lemma Enriched(p: int, bridge: IntWalk, fdb: FdbWalk, arp: ArpWalk, vlanBridge: IntWalk, pvid: IntWalk,
      macs: seq<MacEntry>, byPort: map<int, seq<string>>, entries: seq<ArpEntry>, byMac: map<string, seq<string>>,
      gathered: seq<string>, r: Port)
    requires !Complete(bridge) || !Complete(fdb) ==> macs == []
    requires Complete(bridge) && Complete(fdb) ==>
               && |macs| == |fdb|
               && forall i :: 0 <= i < |fdb| ==>
                    macs[i] == MacEntry(FormatMac(fdb[i].index), LastValue(bridge, fdb[i].value), fdb[i].value)
    requires forall port, mac :: mac in Listed(byPort, port) <==>
               exists i :: 0 <= i < |macs| && macs[i].port == Some(port) && macs[i].mac == mac
    requires if Complete(arp) then Lists(entries, arp) else entries == []
    requires forall mac, ip :: ip in Listed(byMac, mac) <==> ArpEntry(ip, mac) in entries
    requires r.shown.port == p && r.macs == SortedSet(Listed(byPort, p)) && r.macCount == |r.macs|
    requires forall ip :: ip in gathered <==> exists mac :: mac in r.macs && ip in Listed(byMac, mac)
    requires r.ips == SortedSet(gathered)
    requires r.pvid == PortPvid(vlanBridge, PvidRows(vlanBridge, pvid), p)
    ensures PortIs(r, p, bridge, fdb, arp, vlanBridge, pvid)
  {
    var learned := PortMacs(bridge, ReadFdb(bridge, fdb), p);
    forall m ensures m in r.macs <==> m in learned { PortMacsOf(bridge, fdb, macs, p, m); }
    AscendingSize(r.macs, learned);
    forall ip ensures ip in r.ips <==> ip in IpsOf(ReadArp(arp), learned) {
      ArpMacKnown(ReadArp(arp), ip);
      if ip in r.ips {
        var mac :| mac in r.macs && ip in Listed(byMac, mac);
        assert ArpEntry(ip, mac) in entries;
      }
      if ip in IpsOf(ReadArp(arp), learned) {
        var mac := ArpMac(ReadArp(arp), ip).value;
        assert ArpEntry(ip, mac) in entries && mac in r.macs && ip in Listed(byMac, mac);
      }
    }
  }

  // ----- the snapshot read off the walks

  /** The ARP rows as the dictionary takes them: address and formatted MAC. */
  function Keyed(arp: ArpWalk): (r: seq<Item<string, string>>)
    ensures |r| == |arp|
  {
    seq(|arp|, i requires 0 <= i < |arp| =>
      if arp[i].Bad? then Bad else Item(IpFromArpIndex(arp[i].index), FormatMac(arp[i].value)))
  }

  lemma {:induction false} ArpMacIsLast(arp: ArpWalk, ip: string)
    ensures ArpMac(arp, ip) == LastValue(Keyed(arp), ip)
  {
    if arp != [] {
      ArpMacIsLast(arp[..|arp| - 1], ip);
      assert Keyed(arp)[..|arp| - 1] == Keyed(arp[..|arp| - 1]);
    }
  }

  lemma {:induction false} PortPvidExactly(bridge: IntWalk, rows: IntWalk, ifIndex: int, value: int)
    ensures PortPvid(bridge, rows, ifIndex) == Some(value) <==>
            exists i :: 0 <= i < |rows| && rows[i].Item? && LastValue(bridge, rows[i].index) == Some(ifIndex) && rows[i].value == value
                        && forall j :: i < j < |rows| && rows[j].Item? ==> LastValue(bridge, rows[j].index) != Some(ifIndex)
  {
    if rows != [] {
      var front, last := rows[..|rows| - 1], rows[|rows| - 1];
      PortPvidExactly(bridge, front, ifIndex, value);
      if !(last.Item? && LastValue(bridge, last.index) == Some(ifIndex)) {
        forall i | 0 <= i < |front| ensures front[i] == rows[i] {}
      }
    }
  }

  /** The last bridge-port row of the number names the interface. */
  ghost predicate MapsTo(bridge: IntWalk, bridgePort: int, ifIndex: int) {
    exists b :: LastRow(bridge, b, bridgePort, ifIndex)
  }

  /** The last ARP row of the address names the MAC. */
  ghost predicate HasMac(arp: ArpWalk, ip: string, mac: string) {
    exists i :: LastRow(Keyed(arp), i, ip, mac)
  }

  /** A MAC is on a port exactly when an FDB row with it has a bridge port that maps to the port's interface. */
  lemma {:induction false} MacsRead(p: Port, bridge: IntWalk, fdb: FdbWalk, arp: ArpWalk, vlanBridge: IntWalk, pvid: IntWalk, mac: string)
    requires PortIs(p, p.shown.port, bridge, fdb, arp, vlanBridge, pvid) && Complete(bridge) && Complete(fdb)
    ensures mac in p.macs <==>
            exists i :: 0 <= i < |fdb| && FormatMac(fdb[i].index) == mac && MapsTo(bridge, fdb[i].value, p.shown.port)
  {
    forall i | 0 <= i < |fdb|
      ensures LastValue(bridge, fdb[i].value) == Some(p.shown.port) <==> MapsTo(bridge, fdb[i].value, p.shown.port)
    {
      LastValueExactly(bridge, fdb[i].value, p.shown.port);
    }
  }

  /** An address is on a port exactly when the last ARP row for it has one of the port's MACs. */
  lemma {:induction false} IpsRead(p: Port, bridge: IntWalk, fdb: FdbWalk, arp: ArpWalk, vlanBridge: IntWalk, pvid: IntWalk, ip: string)
    requires PortIs(p, p.shown.port, bridge, fdb, arp, vlanBridge, pvid) && Complete(arp)
    ensures ip in p.ips <==> exists mac :: mac in p.macs && HasMac(arp, ip, mac)
  {
    ArpMacKnown(arp, ip);
    ArpMacIsLast(arp, ip);
    forall mac ensures ArpMac(arp, ip) == Some(mac) <==> HasMac(arp, ip, mac) { LastValueExactly(Keyed(arp), ip, mac); }
    if ip in p.ips {
      assert ArpMac(arp, ip).value in p.macs;
    }
  }

  /** A port's PVID is that of the last row, before a failure, whose bridge port maps to its interface. */
  lemma {:induction false} PvidRead(p: Port, bridge: IntWalk, fdb: FdbWalk, arp: ArpWalk, vlanBridge: IntWalk, pvid: IntWalk, n: nat, value: int)
    requires PortIs(p, p.shown.port, bridge, fdb, arp, vlanBridge, pvid) && Complete(vlanBridge)
    requires n <= |pvid| && Complete(pvid[..n]) && (n == |pvid| || pvid[n].Bad?)
    ensures p.pvid == Some(value) <==>
            exists i :: 0 <= i < n && pvid[i].Item? && pvid[i].value == value && MapsTo(vlanBridge, pvid[i].index, p.shown.port)
                        && forall j :: i < j < n && pvid[j].Item? ==> !MapsTo(vlanBridge, pvid[j].index, p.shown.port)
  {
    var rows := pvid[..n];
    ReadPrefixIs(pvid, n);
    PortPvidExactly(vlanBridge, rows, p.shown.port, value);
    forall i | 0 <= i < n
      ensures rows[i] == pvid[i] && rows[i].Item?
      ensures (LastValue(vlanBridge, rows[i].index) == Some(p.shown.port) <==> MapsTo(vlanBridge, pvid[i].index, p.shown.port))
    {
      LastValueExactly(vlanBridge, pvid[i].index, p.shown.port);
    }
  }

  /** A walk that failed contributes nothing: no MACs without the bridge ports or the FDB, no addresses without the ARP table. */
  lemma {:induction false} FailedWalksShowNothing(p: Port, bridge: IntWalk, fdb: FdbWalk, arp: ArpWalk, vlanBridge: IntWalk, pvid: IntWalk)
    requires PortIs(p, p.shown.port, bridge, fdb, arp, vlanBridge, pvid)
    ensures !Complete(bridge) || !Complete(fdb) ==> p.macs == [] && p.macCount == 0 && p.ips == []
    ensures !Complete(arp) ==> p.ips == []
    ensures !Complete(vlanBridge) ==> p.pvid == None
    ensures p.macCount == |p.macs|
  {
    if !Complete(bridge) || !Complete(fdb) {
      assert PortMacs(bridge, [], p.shown.port) == {};
    }
    NothingListed(p.ips, !Complete(bridge) || !Complete(fdb) || !Complete(arp));
  }

  lemma NothingListed(ips: seq<string>, none: bool)
    requires none ==> forall ip :: ip !in ips
    ensures none ==> ips == []
  {
    assert ips == [] || ips[0] in ips;
  }

  // ----- conservation

  /** The FDB rows whose bridge port maps to one of the interfaces. */
  function MappedRows(bridge: IntWalk, fdb: FdbWalk, ifIndexes: set<int>): set<nat> {
    set i: nat | i < |fdb| && fdb[i].Item? && LastValue(bridge, fdb[i].value).Some?
                 && LastValue(bridge, fdb[i].value).value in ifIndexes
  }

  ghost predicate DistinctMacs(fdb: FdbWalk) {
    forall i, j :: 0 <= i < j < |fdb| && fdb[i].Item? && fdb[j].Item? ==> FormatMac(fdb[i].index) != FormatMac(fdb[j].index)
  }

  /** An interface has one MAC per FDB row that maps to it. */
  lemma OneMacPerRow(bridge: IntWalk, fdb: FdbWalk, ifIndex: int)
    requires DistinctMacs(fdb)
    ensures |PortMacs(bridge, fdb, ifIndex)| == |MappedRows(bridge, fdb, {ifIndex})|
  {
    ImageSize(MappedRows(bridge, fdb, {ifIndex}), fdb);
    assert PortMacs(bridge, fdb, ifIndex) == Image(MappedRows(bridge, fdb, {ifIndex}), fdb);
  }

  function Image(rows: set<nat>, fdb: FdbWalk): set<string> {
    set i | i in rows && i < |fdb| && fdb[i].Item? :: FormatMac(fdb[i].index)
  }

  lemma ImageWithout(rows: set<nat>, fdb: FdbWalk, i: nat)
    requires DistinctMacs(fdb) && i in rows && i < |fdb| && fdb[i].Item?
    ensures FormatMac(fdb[i].index) !in Image(rows - {i}, fdb)
    ensures Image(rows, fdb) == Image(rows - {i}, fdb) + {FormatMac(fdb[i].index)}
  {
  }

  lemma ImageSize(rows: set<nat>, fdb: FdbWalk)
    requires DistinctMacs(fdb)
    requires forall i :: i in rows ==> i < |fdb| && fdb[i].Item?
    ensures |Image(rows, fdb)| == |rows|
  {
    if i :| i in rows {
      ImageWithout(rows, fdb, i);
      ImageSize(rows - {i}, fdb);
    }
  }

  function SumCounts(ports: seq<Port>): nat {
    if ports == [] then 0 else SumCounts(ports[..|ports| - 1]) + ports[|ports| - 1].macCount
  }

  function IndexSet(ifIndexes: seq<int>): set<int> {
    set i | 0 <= i < |ifIndexes| :: ifIndexes[i]
  }

  /**
    Conservation: with distinct interfaces and FDB MACs that format differently, different ports share no
    MAC and no address, and the counts add up to the FDB rows that map to a listed interface.
   */
  lemma {:induction false} Conservation(ports: seq<Port>, ifIndexes: seq<int>, bridge: IntWalk, fdb: FdbWalk, arp: ArpWalk,
      vlanBridge: IntWalk, pvid: IntWalk)
    requires |ports| == |ifIndexes|
    requires forall k :: 0 <= k < |ports| ==> PortIs(ports[k], ifIndexes[k], bridge, fdb, arp, vlanBridge, pvid)
    requires forall i, j :: 0 <= i < j < |ifIndexes| ==> ifIndexes[i] != ifIndexes[j]
    requires DistinctMacs(fdb)
    ensures forall i, j, m :: 0 <= i < j < |ports| && m in ports[i].macs ==> m !in ports[j].macs
    ensures forall i, j, ip :: 0 <= i < j < |ports| && ip in ports[i].ips ==> ip !in ports[j].ips
    ensures SumCounts(ports) == |MappedRows(bridge, ReadFdb(bridge, fdb), IndexSet(ifIndexes))|
  {
    var rows := ReadFdb(bridge, fdb);
    forall i, j, m | 0 <= i < j < |ports| && m in ports[i].macs ensures m !in ports[j].macs {
      MacsApart(bridge, rows, ifIndexes[i], ifIndexes[j]);
    }
    forall i, j, ip | 0 <= i < j < |ports| && ip in ports[i].ips ensures ip !in ports[j].ips {
      MacsApart(bridge, rows, ifIndexes[i], ifIndexes[j]);
    }
    CountsAddUp(ports, ifIndexes, bridge, rows);
  }

  lemma MacsApart(bridge: IntWalk, fdb: FdbWalk, a: int, b: int)
    requires DistinctMacs(fdb) && a != b
    ensures PortMacs(bridge, fdb, a) !! PortMacs(bridge, fdb, b)
  {
  }

  predicate DistinctIndexes(ifIndexes: seq<int>) {
    forall i, j {:trigger ifIndexes[i], ifIndexes[j]} :: 0 <= i < j < |ifIndexes| ==> ifIndexes[i] != ifIndexes[j]
  }

  ghost predicate CountsAre(ports: seq<Port>, ifIndexes: seq<int>, bridge: IntWalk, fdb: FdbWalk)
    requires |ports| == |ifIndexes|
  {
    forall k :: 0 <= k < |ports| ==> ports[k].macCount == |PortMacs(bridge, fdb, ifIndexes[k])|
  }

  lemma CountsFront(ports: seq<Port>, ifIndexes: seq<int>, bridge: IntWalk, fdb: FdbWalk, n: nat)
    requires |ports| == |ifIndexes| == n + 1 && CountsAre(ports, ifIndexes, bridge, fdb) && DistinctIndexes(ifIndexes)
    ensures CountsAre(ports[..n], ifIndexes[..n], bridge, fdb) && DistinctIndexes(ifIndexes[..n])
    ensures SumCounts(ports) == SumCounts(ports[..n]) + |PortMacs(bridge, fdb, ifIndexes[n])|
    ensures ifIndexes == ifIndexes[..n] + [ifIndexes[n]]
  {
  }

  /** The interface listed last adds its own rows. */
  lemma LastCount(ifIndexes: seq<int>, bridge: IntWalk, fdb: FdbWalk, front: seq<int>, last: int)
    requires DistinctMacs(fdb) && ifIndexes == front + [last]
    requires DistinctIndexes(ifIndexes)
    ensures |MappedRows(bridge, fdb, IndexSet(ifIndexes))|
         == |MappedRows(bridge, fdb, IndexSet(front))| + |PortMacs(bridge, fdb, last)|
  {
    assert ifIndexes[..|front|] == front;
    IndexSetSnoc(ifIndexes);
    OneMacPerRow(bridge, fdb, last);
    RowsSplit(bridge, fdb, IndexSet(front), last);
  }

  lemma {:induction false} CountsAddUp(ports: seq<Port>, ifIndexes: seq<int>, bridge: IntWalk, fdb: FdbWalk)
    requires |ports| == |ifIndexes| && DistinctMacs(fdb)
    requires CountsAre(ports, ifIndexes, bridge, fdb)
    requires DistinctIndexes(ifIndexes)
    ensures SumCounts(ports) == |MappedRows(bridge, fdb, IndexSet(ifIndexes))|
  {
    if ports == [] {
      assert MappedRows(bridge, fdb, IndexSet(ifIndexes)) == {};
    } else {
      var n := |ports| - 1;
      CountsFront(ports, ifIndexes, bridge, fdb, n);
      CountsAddUp(ports[..n], ifIndexes[..n], bridge, fdb);
      LastCount(ifIndexes, bridge, fdb, ifIndexes[..n], ifIndexes[n]);
    }
  }

  lemma IndexSetSnoc(ifIndexes: seq<int>)
    requires ifIndexes != [] && DistinctIndexes(ifIndexes)
    ensures var n := |ifIndexes| - 1;
            IndexSet(ifIndexes) == IndexSet(ifIndexes[..n]) + {ifIndexes[n]} && ifIndexes[n] !in IndexSet(ifIndexes[..n])
  {
    var n := |ifIndexes| - 1;
    forall x | x in IndexSet(ifIndexes[..n]) ensures x in IndexSet(ifIndexes) {
      var i :| 0 <= i < n && ifIndexes[..n][i] == x;
      assert ifIndexes[i] == x;
    }
    forall x | x in IndexSet(ifIndexes) && x != ifIndexes[n] ensures x in IndexSet(ifIndexes[..n]) {
      var i :| 0 <= i < |ifIndexes| && ifIndexes[i] == x;
      assert ifIndexes[..n][i] == x;
    }
  }

  lemma RowsSplit(bridge: IntWalk, fdb: FdbWalk, front: set<int>, last: int)
    requires last !in front
    ensures |MappedRows(bridge, fdb, front + {last})| == |MappedRows(bridge, fdb, front)| + |MappedRows(bridge, fdb, {last})|
  {
    var a, b := MappedRows(bridge, fdb, front), MappedRows(bridge, fdb, {last});
    assert MappedRows(bridge, fdb, front + {last}) == a + b;
    assert a !! b;
  }

  function PortNumbers(interfaces: seq<Interface>): (r: seq<int>)
    ensures |r| == |interfaces|
  {
    seq(|interfaces|, i requires 0 <= i < |interfaces| => interfaces[i].port)
  }

  /** Conservation for whatever a switch answers, when no two interface rows carry the same ifIndex. */
  lemma {:induction false} SnapshotConserves(ports: seq<Port>, index: IntColumn, descr: TextColumn, oper: IntColumn,
      alias: TextColumn, speed: IntColumn, bridge: IntWalk, fdb: FdbWalk, arp: ArpWalk, vlanBridge: IntWalk, pvid: IntWalk)
    requires OneIndexPerPort(index) && DistinctMacs(fdb)
    requires IsSnapshot(ports, Table(index, descr, oper, alias, speed), bridge, fdb, arp, vlanBridge, pvid)
    ensures forall i, j, m :: 0 <= i < j < |ports| && m in ports[i].macs ==> m !in ports[j].macs
    ensures forall i, j, ip :: 0 <= i < j < |ports| && ip in ports[i].ips ==> ip !in ports[j].ips
    ensures SumCounts(ports)
         == |MappedRows(bridge, ReadFdb(bridge, fdb), IndexSet(PortNumbers(Table(index, descr, oper, alias, speed))))|
  {
    PortsAreDistinct(index, descr, oper, alias, speed);
    Conservation(ports, PortNumbers(Table(index, descr, oper, alias, speed)), bridge, fdb, arp, vlanBridge, pvid);
  }

  /** Distinct six-octet FDB indexes meet the hypothesis. */
  lemma {:induction false} OctetIndexesAreDistinct(fdb: FdbWalk, parts: seq<seq<string>>, octets: seq<Octets>)
    requires |fdb| == |parts| == |octets|
    requires forall i :: 0 <= i < |fdb| ==>
               && fdb[i].Item? && fdb[i].index == JoinDots(parts[i])
               && |parts[i]| == 6 && forall k :: 0 <= k < 6 ==> AllDigits(parts[i][k]) && ParseNat(parts[i][k]) == octets[i][k]
    requires forall i, j :: 0 <= i < j < |octets| ==> octets[i] != octets[j]
    ensures DistinctMacs(fdb)
  {
    forall i, j | 0 <= i < j < |fdb| ensures FormatMac(fdb[i].index) != FormatMac(fdb[j].index) {
      DottedSpelling(parts[i], octets[i]);
      DottedSpelling(parts[j], octets[j]);
      if Canonical(octets[i]) == Canonical(octets[j]) {
        CanonicalInjective(octets[i], octets[j]);
      }
    }
  }
}
