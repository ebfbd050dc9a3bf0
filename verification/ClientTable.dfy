/** Network clients: resolving an observed address and MAC to a row of a fully flushed table. */
module ClientTable {
  import opened Wrappers

  type Id = nat
  type Ip = string
  type Mac = string

  datatype Row = Row(ip: Ip, mac: Option<Mac>, hostname: Option<string>, status: string, firstSeen: int, lastSeen: int)

  /** One item of a batch; an empty MAC or hostname counts as absent. */
  datatype Observation = Observation(ip: Ip, mac: Option<Mac>, hostname: Option<string>, seenAt: int)

  /** The table and the next value of its id sequence. */
  datatype Clients = Clients(rows: map<Id, Row>, nextId: nat)

  /** The first row with the given IP among ids below `n`, as `filter_by(ip=ip).first()` returns it. */
  function IdByIp(rows: map<Id, Row>, n: nat, ip: Ip): (r: Option<Id>)
    ensures r.Some? ==> r.value < n && r.value in rows && rows[r.value].ip == ip
    ensures r.None? ==> forall id :: id in rows && id < n ==> rows[id].ip != ip
  {
    if n == 0 then None
    else
      var r := IdByIp(rows, n - 1, ip);
      if r.None? && n - 1 in rows && rows[n - 1].ip == ip then Some(n - 1) else r
  }

  /** The first row with the given MAC; no row for an observation without one. */
  function IdByMac(rows: map<Id, Row>, n: nat, mac: Option<Mac>): (r: Option<Id>)
    ensures r.Some? ==> mac.Some? && r.value < n && r.value in rows && rows[r.value].mac == mac
    ensures r.None? && mac.Some? ==> forall id :: id in rows && id < n ==> rows[id].mac != mac
  {
    if n == 0 || mac.None? then None
    else
      var r := IdByMac(rows, n - 1, mac);
      if r.None? && n - 1 in rows && rows[n - 1].mac == mac then Some(n - 1) else r
  }

  /** The row as the observation loop leaves it. */
  function Touched(r: Row, o: Observation): Row {
    Row(o.ip, if o.mac.Some? then o.mac else r.mac, if o.hostname.Some? then o.hostname else r.hostname,
        "online", r.firstSeen, o.seenAt)
  }

  /** A row inserted for an observation; `now` is the server default of `first_seen`. */
  function NewRow(o: Observation, now: int): Row {
    Touched(Row(o.ip, None, None, "unknown", now, now), o)
  }

  function Min(a: int, b: int): int {
    if a < b then a else b
  }

  /** One observation on a table where every earlier change has been flushed. */
  function Observe(c: Clients, o: Observation, now: int): Clients {
    var byIp := IdByIp(c.rows, c.nextId, o.ip);
    var byMac := IdByMac(c.rows, c.nextId, o.mac);
    if byMac.Some? && byIp.Some? && byMac != byIp then
      var first := Min(c.rows[byIp.value].firstSeen, c.rows[byMac.value].firstSeen);
      c.(rows := (c.rows - {byIp.value})[byMac.value := Touched(c.rows[byMac.value].(firstSeen := first), o)])
    else if byMac.Some? then c.(rows := c.rows[byMac.value := Touched(c.rows[byMac.value], o)])
    else if byIp.Some? then c.(rows := c.rows[byIp.value := Touched(c.rows[byIp.value], o)])
    else Clients(c.rows[c.nextId := NewRow(o, now)], c.nextId + 1)
  }

  function ObserveAll(c: Clients, os: seq<Observation>, now: int): Clients
    decreases |os|
  {
    if os == [] then c else ObserveAll(Observe(c, os[0], now), os[1..], now)
  }

  // ----- one row per IP, one row per MAC

  ghost predicate OneToOne(rows: map<Id, Row>) {
    && (forall i, j {:trigger rows[i], rows[j]} :: i in rows && j in rows && i != j ==> rows[i].ip != rows[j].ip)
    && (forall i, j {:trigger rows[i], rows[j]} :: i in rows && j in rows && i != j && rows[i].mac.Some? ==> rows[i].mac != rows[j].mac)
  }

  ghost predicate Valid(c: Clients) {
    OneToOne(c.rows) && forall id :: id in c.rows ==> id < c.nextId
  }

  /** Where an observation ends: on a row with its IP and, if it has one, its MAC. */
  ghost predicate Landed(c: Clients, c': Clients, o: Observation, id: Id) {
    && id in c'.rows && c'.rows[id].ip == o.ip && (o.mac.Some? ==> c'.rows[id].mac == o.mac)
    // a client known by its MAC keeps its row
    && (forall k :: k in c.rows && o.mac.Some? && c.rows[k].mac == o.mac ==> k == id)
    // the row is refreshed; an absent hostname or MAC leaves what was known
    && c'.rows[id].status == "online" && c'.rows[id].lastSeen == o.seenAt
    && c'.rows[id].hostname == (if o.hostname.Some? then o.hostname else if id in c.rows then c.rows[id].hostname else None)
    && (o.mac.None? ==> c'.rows[id].mac == if id in c.rows then c.rows[id].mac else None)
    // an address without a known MAC keeps the row that held it
    && (IdByMac(c.rows, c.nextId, o.mac).None? ==> forall k :: k in c.rows && c.rows[k].ip == o.ip ==> k == id)
  }

  /** The effect of one observation on every other row, on ids and on `first_seen`. */
  ghost predicate Resolved(c: Clients, c': Clients, o: Observation, now: int, id: Id)
    requires id in c'.rows
  {
    // every other row is unchanged, and only the stale holder of the address disappears
    && (forall k :: k in c'.rows && k != id ==> k in c.rows && c'.rows[k] == c.rows[k])
    && (forall k :: k in c.rows && k !in c'.rows ==> c.rows[k].ip == o.ip && k != id)
    // first_seen: the minimum on a merge, otherwise kept, `now` on a new row
    && (id in c.rows ==>
          && c'.rows[id].firstSeen <= c.rows[id].firstSeen
          && (forall k :: k in c.rows && k !in c'.rows ==>
                c'.rows[id].firstSeen <= c.rows[k].firstSeen
                && (c'.rows[id].firstSeen == c.rows[k].firstSeen || c'.rows[id].firstSeen == c.rows[id].firstSeen))
          && (c.rows.Keys <= c'.rows.Keys ==> c'.rows[id].firstSeen == c.rows[id].firstSeen))
    && (id !in c.rows ==> id == c.nextId && c'.rows[id].firstSeen == now && c.rows.Keys <= c'.rows.Keys)
  }

  /** The row an observation resolves to: by its MAC first, then by its address, else a new one. */
  function RowFor(c: Clients, o: Observation): Id {
    var byIp := IdByIp(c.rows, c.nextId, o.ip);
    var byMac := IdByMac(c.rows, c.nextId, o.mac);
    if byMac.Some? then byMac.value else if byIp.Some? then byIp.value else c.nextId
  }

  /** Rows taken over unchanged stay one-to-one with a row that shares neither address nor MAC with them. */
  lemma OneToOneWith(rows: map<Id, Row>, rows': map<Id, Row>, id: Id)
    requires OneToOne(rows) && id in rows'
    requires forall k :: k in rows' && k != id ==>
               k in rows && rows'[k] == rows[k] && rows'[k].ip != rows'[id].ip
               && (rows'[k].mac.Some? ==> rows'[k].mac != rows'[id].mac)
    ensures OneToOne(rows')
  {
  }

  lemma ObserveValid(c: Clients, o: Observation, now: int)
    requires Valid(c)
    ensures Valid(Observe(c, o, now))
  {
    var c', id := Observe(c, o, now), RowFor(c, o);
    forall k | k in c'.rows && k != id
      ensures k in c.rows && c'.rows[k] == c.rows[k] && c'.rows[k].ip != c'.rows[id].ip
              && (c'.rows[k].mac.Some? ==> c'.rows[k].mac != c'.rows[id].mac)
    {
    }
    OneToOneWith(c.rows, c'.rows, id);
  }

  lemma ObserveLands(c: Clients, o: Observation, now: int)
    requires Valid(c)
    ensures Landed(c, Observe(c, o, now), o, RowFor(c, o))
  {
  }

  /** What `_client_for_observation` promises, for any flushed one-to-one table and any observation. */
  lemma {:induction false} ObserveResolves(c: Clients, o: Observation, now: int) returns (id: Id)
    requires Valid(c)
    ensures Valid(Observe(c, o, now))
    ensures Landed(c, Observe(c, o, now), o, id)
    ensures Resolved(c, Observe(c, o, now), o, now, id)
  {
    ObserveValid(c, o, now);
    ObserveLands(c, o, now);
    id := RowFor(c, o);
  }

  /** The invariant over every batch. */
  lemma {:induction false} ObserveAllValid(c: Clients, os: seq<Observation>, now: int)
    requires Valid(c)
    ensures Valid(ObserveAll(c, os, now))
    ensures c.nextId <= ObserveAll(c, os, now).nextId <= c.nextId + |os|
    decreases |os|
  {
    if os != [] {
      var _ := ObserveResolves(c, os[0], now);
      ObserveAllValid(Observe(c, os[0], now), os[1..], now);
    }
  }

  /** Over every batch a surviving row's `first_seen` never increases. */
  lemma {:induction false} FirstSeenNeverIncreases(c: Clients, os: seq<Observation>, now: int, id: Id)
    requires Valid(c) && id in c.rows && id in ObserveAll(c, os, now).rows
    ensures ObserveAll(c, os, now).rows[id].firstSeen <= c.rows[id].firstSeen
    decreases |os|
  {
    if os != [] {
      var c' := Observe(c, os[0], now);
      var landed := ObserveResolves(c, os[0], now);
      if id in c'.rows {
        FirstSeenNeverIncreases(c', os[1..], now, id);
      } else {
        GoneForGood(c', os[1..], now, id);
      }
    }
  }

  /** An id that has been handed out and lost is not used again. */
  lemma {:induction false} GoneForGood(c: Clients, os: seq<Observation>, now: int, id: Id)
    requires Valid(c) && id < c.nextId && id !in c.rows
    ensures id !in ObserveAll(c, os, now).rows
    decreases |os|
  {
    if os != [] {
      var landed := ObserveResolves(c, os[0], now);
      GoneForGood(Observe(c, os[0], now), os[1..], now, id);
    }
  }

  // ----- the address relation

  type Pair = (Ip, Option<Mac>)

  ghost function Pairs(c: Clients): set<Pair> {
    set id | id in c.rows :: (c.rows[id].ip, c.rows[id].mac)
  }

  function PairOf(o: Observation): Pair {
    (o.ip, o.mac)
  }

  /** The pairs share the address, or share a MAC. */
  predicate Touches(p: Pair, q: Pair) {
    p.0 == q.0 || (p.1.Some? && p.1 == q.1)
  }

  /** An observation with a MAC drops every pair it touches and adds its own. */
  lemma ObservePairs(c: Clients, o: Observation, now: int, p: Pair)
    requires Valid(c) && o.mac.Some?
    ensures p in Pairs(Observe(c, o, now)) <==> p == PairOf(o) || (p in Pairs(c) && !Touches(PairOf(o), p))
  {
    var c' := Observe(c, o, now);
    var id := ObserveResolves(c, o, now);
    if p in Pairs(c') {
      var k :| k in c'.rows && p == (c'.rows[k].ip, c'.rows[k].mac);
      if k != id {
        assert c'.rows[k] == c.rows[k];
        assert p in Pairs(c);
      }
    }
    if p in Pairs(c) && !Touches(PairOf(o), p) {
      var k :| k in c.rows && p == (c.rows[k].ip, c.rows[k].mac);
      assert k in c'.rows && c'.rows[k] == c.rows[k];
    }
  }

  /** A pair of the old relation that no observation touches, or an observed pair not displaced later. */
  ghost predicate InClosedForm(old_: set<Pair>, os: seq<Observation>, p: Pair) {
    || (p in old_ && forall k :: 0 <= k < |os| ==> !Touches(PairOf(os[k]), p))
    || (exists k :: 0 <= k < |os| && PairOf(os[k]) == p
                    && forall j :: k < j < |os| ==> PairOf(os[j]) == p || !Touches(PairOf(os[j]), p))
  }

  /** The whole batch in one formula, for every table and every batch in which all MACs are present. */
  lemma {:induction false} ClosedForm(c: Clients, os: seq<Observation>, now: int, p: Pair)
    requires Valid(c) && forall k :: 0 <= k < |os| ==> os[k].mac.Some?
    ensures p in Pairs(ObserveAll(c, os, now)) <==> InClosedForm(Pairs(c), os, p)
    decreases |os|
  {
    if os != [] {
      var c' := Observe(c, os[0], now);
      var _ := ObserveResolves(c, os[0], now);
      ObservePairs(c, os[0], now, p);
      ClosedForm(c', os[1..], now, p);
      ClosedFormStep(Pairs(c), Pairs(c'), os, p);
    }
  }

  lemma ClosedFormStep(r: set<Pair>, r': set<Pair>, os: seq<Observation>, p: Pair)
    requires os != []
    requires p in r' <==> p == PairOf(os[0]) || (p in r && !Touches(PairOf(os[0]), p))
    ensures InClosedForm(r', os[1..], p) <==> InClosedForm(r, os, p)
  {
    var rest := os[1..];
    if InClosedForm(r', rest, p) {
      if p in r' && forall k :: 0 <= k < |rest| ==> !Touches(PairOf(rest[k]), p) {
        forall k | 0 < k < |os| ensures !Touches(PairOf(os[k]), p) { assert os[k] == rest[k - 1]; }
        assert PairOf(os[0]) == p || !Touches(PairOf(os[0]), p);
      } else {
        var k :| 0 <= k < |rest| && PairOf(rest[k]) == p
                 && forall j :: k < j < |rest| ==> PairOf(rest[j]) == p || !Touches(PairOf(rest[j]), p);
        forall j | k + 1 < j < |os| ensures PairOf(os[j]) == p || !Touches(PairOf(os[j]), p) {
          assert os[j] == rest[j - 1];
        }
        assert PairOf(os[k + 1]) == p;
      }
    }
    if InClosedForm(r, os, p) {
      ClosedFormTail(r, r', os, p);
    }
  }

  lemma ClosedFormTail(r: set<Pair>, r': set<Pair>, os: seq<Observation>, p: Pair)
    requires os != [] && InClosedForm(r, os, p)
    requires p in r' <==> p == PairOf(os[0]) || (p in r && !Touches(PairOf(os[0]), p))
    ensures InClosedForm(r', os[1..], p)
  {
    var rest := os[1..];
    if p in r && forall k :: 0 <= k < |os| ==> !Touches(PairOf(os[k]), p) {
      forall k | 0 <= k < |rest| ensures !Touches(PairOf(rest[k]), p) { assert rest[k] == os[k + 1]; }
    } else {
      var k :| 0 <= k < |os| && PairOf(os[k]) == p
               && forall j :: k < j < |os| ==> PairOf(os[j]) == p || !Touches(PairOf(os[j]), p);
      if k > 0 {
        LastOccurrence(r', rest, p, k - 1);
      } else if exists i :: 0 <= i < |rest| && PairOf(rest[i]) == p {
        var i :| 0 <= i < |rest| && PairOf(rest[i]) == p;
        forall j | i < j < |rest| ensures PairOf(rest[j]) == p || !Touches(PairOf(rest[j]), p) {
          assert rest[j] == os[j + 1];
        }
        LastOccurrence(r', rest, p, i);
      } else {
        forall j | 0 <= j < |rest| ensures !Touches(PairOf(rest[j]), p) { assert rest[j] == os[j + 1]; }
      }
    }
  }

  lemma LastOccurrence(r: set<Pair>, os: seq<Observation>, p: Pair, k: nat)
    requires k < |os| && PairOf(os[k]) == p
    requires forall j :: k < j < |os| ==> PairOf(os[j]) == p || !Touches(PairOf(os[j]), p)
    ensures InClosedForm(r, os, p)
  {
  }

  /** Re-applying a batch in which all MACs are present changes no address. */
  lemma {:induction false} Idempotent(c: Clients, os: seq<Observation>, now: int, later: int)
    requires Valid(c) && forall k :: 0 <= k < |os| ==> os[k].mac.Some?
    ensures Pairs(ObserveAll(ObserveAll(c, os, now), os, later)) == Pairs(ObserveAll(c, os, now))
  {
    var c1 := ObserveAll(c, os, now);
    ObserveAllValid(c, os, now);
    forall p ensures p in Pairs(ObserveAll(c1, os, later)) <==> p in Pairs(c1) {
      ClosedForm(c, os, now, p);
      ClosedForm(c1, os, later, p);
    }
  }

  lemma ObserveTwo(c: Clients, a: Observation, b: Observation, now: int)
    ensures ObserveAll(c, [a, b], now) == Observe(Observe(c, a, now), b, now)
  {
    assert [a, b][1..] == [b] && [b][1..] == [];
    assert ObserveAll(Observe(c, a, now), [b], now) == ObserveAll(Observe(Observe(c, a, now), b, now), [], now);
  }

  /** An observation of a known address without a MAC, then one of its client at another address. */
  lemma MoveAfterSighting(c: Clients, a: Ip, b: Ip, m: Mac, now: int)
    requires Valid(c) && a != b && IdByIp(c.rows, c.nextId, b) == None
    requires 0 in c.rows && c.rows[0] == Row(a, Some(m), None, "online", now, now) && c.rows.Keys == {0}
    ensures ObserveAll(c, [Observation(a, None, None, now), Observation(b, Some(m), None, now)], now)
            == c.(rows := map[0 := Row(b, Some(m), None, "online", now, now)])
  {
    var x, y := Observation(a, None, None, now), Observation(b, Some(m), None, now);
    ObserveTwo(c, x, y, now);
    assert Observe(c, x, now) == c by { assert c.rows[0 := c.rows[0]] == c.rows; }
    assert c.rows[0 := Row(b, Some(m), None, "online", now, now)] == map[0 := Row(b, Some(m), None, "online", now, now)];
  }

  /** Without the MACs the law fails: an address observed before its client moves away is listed twice over. */
  lemma NotIdempotentWithoutMacs(a: Ip, b: Ip, m: Mac, now: int)
    requires a != b
    ensures var c := Clients(map[0 := Row(a, Some(m), None, "online", now, now)], 1);
            var os := [Observation(a, None, None, now), Observation(b, Some(m), None, now)];
            && Valid(c)
            && Pairs(ObserveAll(ObserveAll(c, os, now), os, now)) != Pairs(ObserveAll(c, os, now))
  {
    var c := Clients(map[0 := Row(a, Some(m), None, "online", now, now)], 1);
    var x, y := Observation(a, None, None, now), Observation(b, Some(m), None, now);
    MoveAfterSighting(c, a, b, m, now);
    var c2 := ObserveAll(c, [x, y], now);
    assert c2.rows[0].ip == b && IdByIp(c2.rows, 1, a) == None;
    ObserveTwo(c2, x, y, now);
    var c3 := Observe(c2, x, now);
    assert 1 in c3.rows && c3.rows[1].ip == a && c3.rows[1].mac == None && 0 in c3.rows;
    var c4 := Observe(c3, y, now);
    assert IdByMac(c3.rows, 2, Some(m)) == Some(0);
    assert 1 in c4.rows && c4.rows[1] == c3.rows[1];
    assert (a, None) in Pairs(c4);
    assert (a, None) !in Pairs(c2);
  }
}
