/** When a production batch, whose lookups miss pending changes, still commits the flushed result. */
module ClientBatch {
  import opened Wrappers
  import opened ClientTable
  import opened ClientSession

  datatype Key = IpKey(ip: Ip) | MacKey(mac: Mac)

  function Keys(ip: Ip, mac: Option<Mac>): set<Key> {
    if mac.Some? then {IpKey(ip), MacKey(mac.value)} else {IpKey(ip)}
  }

  function RowKeys(r: Row): set<Key> {
    Keys(r.ip, r.mac)
  }

  function ObsKeys(o: Observation): set<Key> {
    Keys(o.ip, o.mac)
  }

  /** The observation matches the row, by address or by MAC. */
  predicate Matches(r: Row, o: Observation) {
    r.ip == o.ip || (o.mac.Some? && r.mac == o.mac)
  }

  /** The observation's own keys and those of the initial rows it matches. */
  ghost predicate InFootprint(rows: map<Id, Row>, o: Observation, k: Key) {
    k in ObsKeys(o) || exists id :: id in rows && Matches(rows[id], o) && k in RowKeys(rows[id])
  }

  /** No two items of the batch share a key. */
  ghost predicate DisjointFootprints(rows: map<Id, Row>, os: seq<Observation>) {
    forall i, j, k :: 0 <= i < j < |os| && InFootprint(rows, os[i], k) ==> !InFootprint(rows, os[j], k)
  }

  /** A key some item of the processed prefix may have touched. */
  ghost predicate Used(rows: map<Id, Row>, done: seq<Observation>, k: Key) {
    exists i :: 0 <= i < |done| && InFootprint(rows, done[i], k)
  }

  ghost predicate AllUsed(rows: map<Id, Row>, done: seq<Observation>, r: Row) {
    forall k :: k in RowKeys(r) ==> Used(rows, done, k)
  }

  ghost predicate NoneUsed(rows: map<Id, Row>, done: seq<Observation>, r: Row) {
    forall k :: k in RowKeys(r) ==> !Used(rows, done, k)
  }

  /** A flushed row is either untouched, as in the initial table, or lies within the used keys, old and new. */
  ghost predicate RowLinked(rows: map<Id, Row>, done: seq<Observation>, s: Session, id: Id)
    requires Wf(s) && id in s.db
  {
    || (NoneUsed(rows, done, s.db[id]) && id in rows && rows[id] == s.db[id] == s.objs[id])
    || (AllUsed(rows, done, s.db[id]) && AllUsed(rows, done, s.objs[id]))
  }

  /** The session after the items `done` of a batch over the initial rows. */
  ghost predicate Linked(rows: map<Id, Row>, done: seq<Observation>, s: Session) {
    && Wf(s)
    && (forall id :: id in s.db ==> RowLinked(rows, done, s, id))
    && (forall i :: 0 <= i < |s.added| ==> AllUsed(rows, done, s.added[i]))
  }

  /** The next item has nothing to do with what was processed. */
  ghost predicate Unused(rows: map<Id, Row>, done: seq<Observation>, o: Observation) {
    forall k :: InFootprint(rows, o, k) ==> !Used(rows, done, k)
  }

  /** A flushed row the item matches is untouched. */
  lemma MatchedIsUntouched(rows: map<Id, Row>, done: seq<Observation>, s: Session, o: Observation, id: Id)
    requires Linked(rows, done, s) && Unused(rows, done, o) && id in s.db && Matches(s.db[id], o)
    ensures NoneUsed(rows, done, s.db[id]) && id in rows && rows[id] == s.db[id] == s.objs[id]
  {
    assert RowLinked(rows, done, s, id);
    var k := if s.db[id].ip == o.ip then IpKey(o.ip) else MacKey(o.mac.value);
    assert k in RowKeys(s.db[id]) && InFootprint(rows, o, k);
  }

  /** A row of the session's view that the item matches is a flushed row with the same values. */
  lemma SeenIsFlushed(rows: map<Id, Row>, done: seq<Observation>, s: Session, c: Clients, o: Observation, id: Id)
    requires Linked(rows, done, s) && StandsFor(s, c) && Unused(rows, done, o)
    requires id in c.rows && Matches(c.rows[id], o)
    ensures id in s.db && s.db[id] == c.rows[id]
  {
    var k := if c.rows[id].ip == o.ip then IpKey(o.ip) else MacKey(o.mac.value);
    assert k in RowKeys(c.rows[id]) && InFootprint(rows, o, k);
    assert c.rows[id] == View(s)[id];
    assert forall i :: 0 <= i < |s.added| ==> AllUsed(rows, done, s.added[i]);
    assert id in s.db ==> RowLinked(rows, done, s, id);
  }

  predicate SameKeys(a: Row, b: Row) {
    a.ip == b.ip && a.mac == b.mac
  }

  /** What the item matches in `here` has the same address and MAC in `there`. */
  ghost predicate MatchesCarry(here: map<Id, Row>, there: map<Id, Row>, o: Observation) {
    forall id :: id in here && Matches(here[id], o) ==> id in there && SameKeys(there[id], here[id])
  }

  lemma MatchesAgree(s: Session, c: Clients, o: Observation)
    requires StandsFor(s, c) && MatchesCarry(s.db, c.rows, o) && MatchesCarry(c.rows, s.db, o)
    ensures LookupsAgree(s, c, o)
  {
    SameMatches(s, c, o);
  }

  lemma FlushedIsSeen(rows: map<Id, Row>, done: seq<Observation>, s: Session, c: Clients, o: Observation)
    requires Linked(rows, done, s) && StandsFor(s, c) && Unused(rows, done, o)
    ensures Settled(s, o) && MatchesCarry(s.db, c.rows, o)
  {
    forall id | id in s.db && Matches(s.db[id], o) ensures s.objs[id] == s.db[id] && id in c.rows && c.rows[id] == s.db[id] {
      MatchedIsUntouched(rows, done, s, o, id);
      assert View(s)[id] == s.objs[id];
    }
  }

  /** So both lookups agree with the session's own view. */
  lemma LookupsMeet(rows: map<Id, Row>, done: seq<Observation>, s: Session, c: Clients, o: Observation)
    requires Linked(rows, done, s) && StandsFor(s, c) && Unused(rows, done, o)
    ensures Settled(s, o) && LookupsAgree(s, c, o)
  {
    FlushedIsSeen(rows, done, s, c, o);
    forall id | id in c.rows && Matches(c.rows[id], o) ensures id in s.db && s.db[id] == c.rows[id] {
      SeenIsFlushed(rows, done, s, c, o, id);
    }
    MatchesAgree(s, c, o);
  }

  lemma UsedGrows(rows: map<Id, Row>, done: seq<Observation>, o: Observation, k: Key)
    ensures Used(rows, done + [o], k) <==> Used(rows, done, k) || InFootprint(rows, o, k)
  {
    var more := done + [o];
    assert more[|done|] == o;
    forall i | 0 <= i < |done| ensures more[i] == done[i] {}
  }

  /** A row of the initial table that shares a key with the item's footprint is matched by the item. */
  lemma FootprintIsClosed(c0: Clients, o: Observation, id: Id, k: Key)
    requires Valid(c0) && id in c0.rows && k in RowKeys(c0.rows[id]) && InFootprint(c0.rows, o, k)
    ensures Matches(c0.rows[id], o)
  {
    if k !in ObsKeys(o) {
      var j :| j in c0.rows && Matches(c0.rows[j], o) && k in RowKeys(c0.rows[j]);
      assert j == id;
    }
  }

  /** An unmatched row stays linked when the item's keys become used. */
  lemma StaysLinked(c0: Clients, done: seq<Observation>, s: Session, o: Observation, id: Id)
    requires Valid(c0) && Wf(s) && id in s.db && RowLinked(c0.rows, done, s, id)
    ensures RowLinked(c0.rows, done + [o], s, id)
  {
    forall k ensures Used(c0.rows, done + [o], k) <==> Used(c0.rows, done, k) || InFootprint(c0.rows, o, k) {
      UsedGrows(c0.rows, done, o, k);
    }
    if NoneUsed(c0.rows, done, s.db[id]) && id in c0.rows && c0.rows[id] == s.db[id] == s.objs[id] {
      if Matches(s.db[id], o) {
        forall k | k in RowKeys(s.db[id]) ensures Used(c0.rows, done + [o], k) { assert InFootprint(c0.rows, o, k); }
      } else {
        forall k | k in RowKeys(s.db[id]) ensures !Used(c0.rows, done + [o], k) {
          if InFootprint(c0.rows, o, k) { FootprintIsClosed(c0, o, id, k); }
        }
      }
    }
  }

  /** A row whose keys lie in the item's footprint. */
  ghost predicate WithinFootprint(rows: map<Id, Row>, o: Observation, r: Row) {
    forall k :: k in RowKeys(r) ==> InFootprint(rows, o, k)
  }

  lemma WithinIsUsed(rows: map<Id, Row>, done: seq<Observation>, o: Observation, r: Row)
    requires WithinFootprint(rows, o, r)
    ensures AllUsed(rows, done + [o], r)
  {
    forall k | k in RowKeys(r) ensures Used(rows, done + [o], k) { UsedGrows(rows, done, o, k); }
  }

  lemma UsedStaysUsed(rows: map<Id, Row>, done: seq<Observation>, o: Observation, r: Row)
    requires AllUsed(rows, done, r)
    ensures AllUsed(rows, done + [o], r)
  {
    forall k | k in RowKeys(r) ensures Used(rows, done + [o], k) { UsedGrows(rows, done, o, k); }
  }

  /** What the loop writes to a matched row stays within the footprint. */
  lemma TouchedWithin(rows: map<Id, Row>, o: Observation, id: Id, r: Row)
    requires id in rows && Matches(rows[id], o) && r.mac == rows[id].mac
    ensures WithinFootprint(rows, o, Touched(r, o)) && WithinFootprint(rows, o, rows[id])
  {
    forall k | k in RowKeys(Touched(r, o)) ensures InFootprint(rows, o, k) {
      assert k in ObsKeys(o) || k in RowKeys(rows[id]);
    }
  }

  lemma EditLinked(c0: Clients, done: seq<Observation>, s: Session, o: Observation, m: Id, row: Row)
    requires Valid(c0) && Linked(c0.rows, done, s) && m in s.db
    requires WithinFootprint(c0.rows, o, s.db[m]) && WithinFootprint(c0.rows, o, row)
    ensures Linked(c0.rows, done + [o], s.(objs := s.objs[m := row]))
  {
    var s' := s.(objs := s.objs[m := row]);
    WithinIsUsed(c0.rows, done, o, row);
    WithinIsUsed(c0.rows, done, o, s.db[m]);
    forall id | id in s'.db ensures RowLinked(c0.rows, done + [o], s', id) {
      if id != m {
        StaysLinked(c0, done, s, o, id);
        assert RowLinked(c0.rows, done + [o], s, id);
      }
    }
    forall i | 0 <= i < |s.added| ensures AllUsed(c0.rows, done + [o], s.added[i]) {
      UsedStaysUsed(c0.rows, done, o, s.added[i]);
    }
  }

  lemma AddLinked(c0: Clients, done: seq<Observation>, s: Session, o: Observation, now: int)
    requires Valid(c0) && Linked(c0.rows, done, s)
    ensures Linked(c0.rows, done + [o], s.(added := s.added + [NewRow(o, now)]))
  {
    var s' := s.(added := s.added + [NewRow(o, now)]);
    forall id | id in s'.db ensures RowLinked(c0.rows, done + [o], s', id) {
      StaysLinked(c0, done, s, o, id);
      assert RowLinked(c0.rows, done + [o], s, id);
    }
    forall i | 0 <= i < |s'.added| ensures AllUsed(c0.rows, done + [o], s'.added[i]) {
      if i < |s.added| {
        UsedStaysUsed(c0.rows, done, o, s.added[i]);
      } else {
        assert RowKeys(s'.added[i]) == ObsKeys(o);
        WithinIsUsed(c0.rows, done, o, s'.added[i]);
      }
    }
  }

  /** A flushed session keeps its links: what was pending is now flushed. */
  lemma CleanLinked(c0: Clients, done: seq<Observation>, s: Session, c: Clients)
    requires Linked(c0.rows, done, s) && StandsFor(s, c)
    ensures Linked(c0.rows, done, Clean(c))
  {
    var f := Clean(c);
    forall id | id in f.db ensures RowLinked(c0.rows, done, f, id) {
      assert f.db[id] == View(s)[id];
      if id in s.db {
        assert RowLinked(c0.rows, done, s, id);
      } else {
        assert AllUsed(c0.rows, done, s.added[id - s.nextId]);
      }
    }
  }

  /** So does one whose merge has deleted a row and changed only `first_seen` of the item's row. */
  lemma MergeLinked(c0: Clients, done: seq<Observation>, c: Clients, o: Observation, i: Id, m: Id, aged: Row, row: Row)
    requires Valid(c0) && Linked(c0.rows, done, Clean(c)) && m in c.rows && i != m
    requires WithinFootprint(c0.rows, o, aged) && WithinFootprint(c0.rows, o, row)
    ensures Linked(c0.rows, done + [o], Clean(c.(rows := c.rows[m := aged] - {i})).(objs := (c.rows[m := aged] - {i})[m := row]))
  {
    var f := Clean(c);
    var f' := Clean(c.(rows := c.rows[m := aged] - {i})).(objs := (c.rows[m := aged] - {i})[m := row]);
    WithinIsUsed(c0.rows, done, o, aged);
    WithinIsUsed(c0.rows, done, o, row);
    forall id | id in f'.db ensures RowLinked(c0.rows, done + [o], f', id) {
      if id != m {
        assert RowLinked(c0.rows, done, f, id);
        StaysLinked(c0, done, f, o, id);
        assert f'.db[id] == f.db[id] && f'.objs[id] == f.objs[id];
      }
    }
  }

  /** One more item whose keys are unused keeps the link, in every branch. */
  lemma ItemLinked(c0: Clients, done: seq<Observation>, s: Session, c: Clients, o: Observation, now: int)
    requires Valid(c0) && Linked(c0.rows, done, s) && StandsFor(s, c) && Unused(c0.rows, done, o)
    ensures Resolve(s, o, now).Some? && Linked(c0.rows, done + [o], Resolve(s, o, now).value)
  {
    LookupsMeet(c0.rows, done, s, c, o);
    var byIp := IdByIp(s.db, s.nextId, o.ip);
    var byMac := IdByMac(s.db, s.nextId, o.mac);
    if byMac.None? && byIp.None? {
      AddLinked(c0, done, s, o, now);
    } else {
      var m := if byMac.Some? then byMac.value else byIp.value;
      MatchedIsUntouched(c0.rows, done, s, o, m);
      TouchedWithin(c0.rows, o, m, s.objs[m]);
      if byMac.Some? && byIp.Some? && byMac != byIp {
        ItemMerges(c0, done, s, c, o, byIp.value, m);
      } else {
        EditLinked(c0, done, s, o, m, Touched(s.objs[m], o));
      }
    }
  }

  lemma ItemMerges(c0: Clients, done: seq<Observation>, s: Session, c: Clients, o: Observation, i: Id, m: Id)
    requires Valid(c0) && Linked(c0.rows, done, s) && StandsFor(s, c)
    requires i in s.db && m in s.db && i != m && m in c0.rows
    requires Matches(c0.rows[m], o) && c0.rows[m] == s.db[m] == s.objs[m]
    ensures var first := Min(s.objs[i].firstSeen, s.objs[m].firstSeen);
            var f := Flush(s.(objs := s.objs[m := s.objs[m].(firstSeen := first)]), {i});
            f.Some? && m in f.value.objs
            && Linked(c0.rows, done + [o], f.value.(objs := f.value.objs[m := Touched(f.value.objs[m], o)]))
  {
    var first := Min(s.objs[i].firstSeen, s.objs[m].firstSeen);
    assert View(s)[m] == s.objs[m];
    var aged := c.rows[m].(firstSeen := first);
    MergeFlush(s, c, i, m, first);
    CleanLinked(c0, done, s, c);
    TouchedWithin(c0.rows, o, m, aged);
    assert RowKeys(aged) == RowKeys(c0.rows[m]);
    MergeLinked(c0, done, c, o, i, m, aged, Touched(aged, o));
  }

  /** The next item of a batch with disjoint footprints is unused by the items before it. */
  lemma NextUnused(rows: map<Id, Row>, done: seq<Observation>, os: seq<Observation>)
    requires os != [] && DisjointFootprints(rows, done + os)
    ensures Unused(rows, done, os[0])
  {
    var all := done + os;
    assert all[|done|] == os[0];
    forall k | InFootprint(rows, os[0], k) ensures !Used(rows, done, k) {
      forall i | 0 <= i < |done| ensures !InFootprint(rows, done[i], k) { assert all[i] == done[i]; }
    }
  }

  lemma ItemFollows(c0: Clients, done: seq<Observation>, s: Session, c: Clients, o: Observation, now: int)
    requires Valid(c0) && Linked(c0.rows, done, s) && StandsFor(s, c) && Unused(c0.rows, done, o)
    ensures Resolve(s, o, now).Some? && Linked(c0.rows, done + [o], Resolve(s, o, now).value)
    ensures StandsFor(Resolve(s, o, now).value, Observe(c, o, now))
  {
    LookupsMeet(c0.rows, done, s, c, o);
    ResolveFollows(s, c, o, now);
    ItemLinked(c0, done, s, c, o, now);
  }

  /** The production session follows the flushed table item by item. */
  lemma {:induction false} BatchFollows(c0: Clients, done: seq<Observation>, s: Session, c: Clients, os: seq<Observation>, now: int)
    requires Valid(c0) && Linked(c0.rows, done, s) && StandsFor(s, c)
    requires DisjointFootprints(c0.rows, done + os)
    ensures RunItems(s, os, now, false).Some?
    ensures StandsFor(RunItems(s, os, now, false).value, ObserveAll(c, os, now))
    decreases |os|
  {
    if os != [] {
      assert done + os == (done + [os[0]]) + os[1..];
      NextUnused(c0.rows, done, os);
      ItemFollows(c0, done, s, c, os[0], now);
      BatchFollows(c0, done + [os[0]], Resolve(s, os[0], now).value, Observe(c, os[0], now), os[1..], now);
    }
  }

  /**
    A production batch whose items have pairwise disjoint footprints commits exactly the table that
    processing each item on a fully flushed table gives, ids and all.
   */
  lemma {:induction false} DisjointBatchRefines(c: Clients, os: seq<Observation>, now: int)
    requires Valid(c) && DisjointFootprints(c.rows, os)
    ensures Batch(c, os, now, false) == Some(ObserveAll(c, os, now))
  {
    CleanStandsFor(c);
    forall id | id in c.rows ensures RowLinked(c.rows, [], Clean(c), id) {}
    assert [] + os == os;
    BatchFollows(c, [], Clean(c), c, os, now);
    FlushAll(RunItems(Clean(c), os, now, false).value, ObserveAll(c, os, now));
  }

  // ----- exactly when, for clients the table does not know

  /** No item matches a row of the table. */
  ghost predicate UnknownClients(rows: map<Id, Row>, os: seq<Observation>) {
    forall i, id :: 0 <= i < |os| && id in rows ==> !Matches(rows[id], os[i])
  }

  /** The two observations share an address or a MAC. */
  predicate Share(a: Observation, b: Observation) {
    a.ip == b.ip || (a.mac.Some? && a.mac == b.mac)
  }

  lemma {:induction false} UnknownAreAdded(s: Session, os: seq<Observation>, now: int)
    requires Wf(s) && UnknownClients(s.db, os)
    ensures RunItems(s, os, now, false).Some?
    ensures var s' := RunItems(s, os, now, false).value;
            s'.nextId + |s'.added| == s.nextId + |s.added| + |os|
    decreases |os|
  {
    if os != [] {
      assert forall id :: id in s.db ==> !Matches(s.db[id], os[0]);
      var s1 := Resolve(s, os[0], now).value;
      assert s1 == s.(added := s.added + [NewRow(os[0], now)]);
      UnknownAreAdded(s1, os[1..], now);
    }
  }

  lemma NewIdMeansUnknown(c: Clients, o: Observation, now: int)
    requires Valid(c) && Observe(c, o, now).nextId == c.nextId + 1
    ensures Observe(c, o, now).rows == c.rows[c.nextId := NewRow(o, now)]
    ensures forall id :: id in c.rows ==> !Matches(c.rows[id], o)
  {
  }

  /** If every item took a new id then no two items share a key and none matched a row. */
  lemma {:induction false} AllNewAreApart(c: Clients, os: seq<Observation>, now: int)
    requires Valid(c) && ObserveAll(c, os, now).nextId == c.nextId + |os|
    ensures UnknownClients(c.rows, os)
    ensures forall i, j :: 0 <= i < j < |os| ==> !Share(os[i], os[j])
    decreases |os|
  {
    if os != [] {
      var c1 := Observe(c, os[0], now);
      ObserveAllValid(c, [os[0]], now) by { assert [os[0]][1..] == []; }
      ObserveValid(c, os[0], now);
      ObserveAllValid(c1, os[1..], now);
      assert c1.nextId <= c.nextId + 1;
      NewIdMeansUnknown(c, os[0], now);
      AllNewAreApart(c1, os[1..], now);
      ApartFirst(c, os, now);
    }
  }

  lemma ApartFirst(c: Clients, os: seq<Observation>, now: int)
    requires os != [] && Valid(c) && forall id :: id in c.rows ==> !Matches(c.rows[id], os[0])
    requires UnknownClients(c.rows[c.nextId := NewRow(os[0], now)], os[1..])
    requires forall i, j :: 0 <= i < j < |os[1..]| ==> !Share(os[1..][i], os[1..][j])
    ensures UnknownClients(c.rows, os)
    ensures forall i, j :: 0 <= i < j < |os| ==> !Share(os[i], os[j])
  {
    var rows, rest := c.rows[c.nextId := NewRow(os[0], now)], os[1..];
    forall i, j | 0 <= i < j < |os| ensures !Share(os[i], os[j]) {
      assert os[j] == rest[j - 1];
      if i == 0 {
        assert !Matches(rows[c.nextId], rest[j - 1]);
      } else {
        assert os[i] == rest[i - 1];
      }
    }
    forall i, id | 0 <= i < |os| && id in c.rows ensures !Matches(c.rows[id], os[i]) {
      if i > 0 { assert os[i] == rest[i - 1] && rows[id] == c.rows[id]; }
    }
  }

  lemma ApartIsDisjoint(rows: map<Id, Row>, os: seq<Observation>)
    requires UnknownClients(rows, os)
    requires forall i, j :: 0 <= i < j < |os| ==> !Share(os[i], os[j])
    ensures DisjointFootprints(rows, os)
  {
    forall i, j, k | 0 <= i < j < |os| && InFootprint(rows, os[i], k) ensures !InFootprint(rows, os[j], k) {
      assert k in ObsKeys(os[i]) && !Share(os[i], os[j]);
    }
  }

  /** For clients the table does not know, disjoint footprints are also necessary. */
  lemma {:induction false} ExactForUnknownClients(c: Clients, os: seq<Observation>, now: int)
    requires Valid(c) && UnknownClients(c.rows, os)
    ensures Batch(c, os, now, false) == Some(ObserveAll(c, os, now)) <==> DisjointFootprints(c.rows, os)
  {
    if DisjointFootprints(c.rows, os) {
      DisjointBatchRefines(c, os, now);
    }
    if Batch(c, os, now, false) == Some(ObserveAll(c, os, now)) {
      UnknownAreAdded(Clean(c), os, now);
      AllNewAreApart(c, os, now);
      ApartIsDisjoint(c.rows, os);
    }
  }

  // ----- what overlapping items do

  lemma RunTwo(s: Session, a: Observation, b: Observation, now: int)
    requires Wf(s) && Resolve(s, a, now).Some?
    ensures RunItems(s, [a, b], now, false) == Resolve(Resolve(s, a, now).value, b, now)
  {
    assert [a, b][1..] == [b] && [b][1..] == [];
    var s1 := Resolve(s, a, now).value;
    if Resolve(s1, b, now).Some? {
      assert RunItems(Resolve(s1, b, now).value, [], now, false) == Resolve(s1, b, now);
    }
  }

  function Client(ip: Ip, mac: Mac, now: int): Row {
    Row(ip, Some(mac), None, "online", now, now)
  }

  function Seen(ip: Ip, mac: Mac, now: int): Observation {
    Observation(ip, Some(mac), None, now)
  }

  /** Two known clients, at two addresses. */
  function TwoClients(a: Ip, b: Ip, m1: Mac, m2: Mac, now: int): Clients {
    Clients(map[0 := Client(a, m1, now), 1 := Client(b, m2, now)], 2)
  }

  /** Each is now seen at the other's address. */
  function Swap(a: Ip, b: Ip, m1: Mac, m2: Mac, now: int): seq<Observation> {
    [Seen(b, m1, now), Seen(a, m2, now)]
  }

  lemma SwapFlushed(a: Ip, b: Ip, m1: Mac, m2: Mac, now: int)
    requires a != b && m1 != m2
    ensures Valid(TwoClients(a, b, m1, m2, now))
    ensures ObserveAll(TwoClients(a, b, m1, m2, now), Swap(a, b, m1, m2, now), now)
            == Clients(map[0 := Client(b, m1, now), 2 := Client(a, m2, now)], 3)
  {
    var c, x, y := TwoClients(a, b, m1, m2, now), Seen(b, m1, now), Seen(a, m2, now);
    ObserveTwo(c, x, y, now);
    assert IdByIp(c.rows, 2, b) == Some(1) && IdByMac(c.rows, 2, Some(m1)) == Some(0);
    var c1 := Observe(c, x, now);
    assert c1.rows == map[0 := Client(b, m1, now)];
    assert IdByIp(c1.rows, 2, a) == None && IdByMac(c1.rows, 2, Some(m2)) == None;
    assert Observe(c1, y, now).rows == map[0 := Client(b, m1, now), 2 := Client(a, m2, now)];
  }

  /** The first item merges; the address change stays pending. */
  lemma SwapFirst(a: Ip, b: Ip, m1: Mac, m2: Mac, now: int)
    requires a != b && m1 != m2
    ensures Resolve(Clean(TwoClients(a, b, m1, m2, now)), Seen(b, m1, now), now)
            == Some(Session(map[0 := Client(a, m1, now)], map[0 := Client(b, m1, now)], [], 2))
  {
    var c, x := TwoClients(a, b, m1, m2, now), Seen(b, m1, now);
    var s := Clean(c);
    CleanStandsFor(c);
    assert IdByIp(s.db, 2, b) == Some(1) && IdByMac(s.db, 2, Some(m1)) == Some(0);
    MergeFlush(s, c, 1, 0, now);
    var rows := map[0 := Client(a, m1, now)];
    assert c.rows[0 := c.rows[0].(firstSeen := now)] - {1} == rows;
    assert rows[0 := Client(b, m1, now)] == map[0 := Client(b, m1, now)];
  }

  /** The second item finds the merged row under the address it is about to leave. */
  lemma SwapSecond(a: Ip, b: Ip, m1: Mac, m2: Mac, now: int)
    requires a != b && m1 != m2
    ensures Resolve(Session(map[0 := Client(a, m1, now)], map[0 := Client(b, m1, now)], [], 2), Seen(a, m2, now), now)
            == Some(Session(map[0 := Client(a, m1, now)], map[0 := Client(a, m2, now)], [], 2))
  {
    var rows := map[0 := Client(a, m1, now)];
    var byIp, byMac := IdByIp(rows, 2, a), IdByMac(rows, 2, Some(m2));
    assert rows[0].ip == a && byIp == Some(0);
    assert forall id :: id in rows ==> rows[id].mac != Some(m2);
    assert map[0 := Client(b, m1, now)][0 := Client(a, m2, now)] == map[0 := Client(a, m2, now)];
  }

  lemma OneLeft(a: Ip, m1: Mac, m2: Mac, now: int)
    ensures Flush(Session(map[0 := Client(a, m1, now)], map[0 := Client(a, m2, now)], [], 2), {})
            == Some(Clean(Clients(map[0 := Client(a, m2, now)], 2)))
  {
    var lost := Clients(map[0 := Client(a, m2, now)], 2);
    var s := Session(map[0 := Client(a, m1, now)], lost.rows, [], 2);
    assert View(s) == lost.rows;
    FlushAll(s, lost);
  }

  /** A batch of two from its two items and its last flush. */
  lemma BatchOfTwo(c: Clients, x: Observation, y: Observation, now: int, s1: Session, s2: Session, end: Clients)
    requires Valid(c) && Wf(s1) && Wf(s2) && Wf(Clean(end))
    requires Resolve(Clean(c), x, now) == Some(s1) && Resolve(s1, y, now) == Some(s2) && Flush(s2, {}) == Some(Clean(end))
    ensures Batch(c, [x, y], now, false) == Some(end)
  {
    RunTwo(Clean(c), x, y, now);
  }

  lemma SwapCommits(a: Ip, b: Ip, m1: Mac, m2: Mac, now: int)
    requires a != b && m1 != m2 && Valid(TwoClients(a, b, m1, m2, now))
    ensures Batch(TwoClients(a, b, m1, m2, now), Swap(a, b, m1, m2, now), now, false)
            == Some(Clients(map[0 := Client(a, m2, now)], 2))
  {
    SwapFirst(a, b, m1, m2, now);
    SwapSecond(a, b, m1, m2, now);
    OneLeft(a, m1, m2, now);
    BatchOfTwo(TwoClients(a, b, m1, m2, now), Seen(b, m1, now), Seen(a, m2, now), now,
      Session(map[0 := Client(a, m1, now)], map[0 := Client(b, m1, now)], [], 2),
      Session(map[0 := Client(a, m1, now)], map[0 := Client(a, m2, now)], [], 2),
      Clients(map[0 := Client(a, m2, now)], 2));
  }

  /** Two known clients that swapped addresses: the batch keeps one of them, the flushed table both. */
  lemma SwapLosesAClient(a: Ip, b: Ip, m1: Mac, m2: Mac, now: int) returns (kept: Clients, lost: Clients)
    requires a != b && m1 != m2
    ensures Valid(TwoClients(a, b, m1, m2, now))
    ensures ObserveAll(TwoClients(a, b, m1, m2, now), Swap(a, b, m1, m2, now), now) == kept
    ensures Batch(TwoClients(a, b, m1, m2, now), Swap(a, b, m1, m2, now), now, false) == Some(lost)
    ensures Pairs(kept) == {(b, Some(m1)), (a, Some(m2))} && Pairs(lost) == {(a, Some(m2))}
  {
    SwapFlushed(a, b, m1, m2, now);
    SwapCommits(a, b, m1, m2, now);
    lost := Clients(map[0 := Client(a, m2, now)], 2);
    kept := Clients(map[0 := Client(b, m1, now), 2 := Client(a, m2, now)], 3);
    SwapPairs(a, b, m1, m2, now);
  }

  lemma SwapPairs(a: Ip, b: Ip, m1: Mac, m2: Mac, now: int)
    ensures Pairs(Clients(map[0 := Client(a, m2, now)], 2)) == {(a, Some(m2))}
    ensures Pairs(Clients(map[0 := Client(b, m1, now), 2 := Client(a, m2, now)], 3)) == {(b, Some(m1)), (a, Some(m2))}
  {
    var lost := map[0 := Client(a, m2, now)];
    assert lost[0].ip == a && lost.Keys == {0};
    var kept := map[0 := Client(b, m1, now), 2 := Client(a, m2, now)];
    assert kept[0].ip == b && kept[2].ip == a && kept.Keys == {0, 2};
  }

  lemma BothAdded(a: Observation, b: Observation, now: int)
    ensures RunItems(Clean(Clients(map[], 0)), [a, b], now, false)
            == Some(Session(map[], map[], [NewRow(a, now), NewRow(b, now)], 0))
  {
    var s := Clean(Clients(map[], 0));
    assert [] + [NewRow(a, now)] == [NewRow(a, now)];
    assert [NewRow(a, now)] + [NewRow(b, now)] == [NewRow(a, now), NewRow(b, now)];
    RunTwo(s, a, b, now);
  }

  /** One unknown MAC seen at two addresses in a batch: the commit leaves two rows with that MAC. */
  lemma NewMacTwiceIsDuplicated(a: Ip, b: Ip, m: Mac, now: int) returns (c: Clients)
    requires a != b
    ensures Batch(Clients(map[], 0), [Seen(a, m, now), Seen(b, m, now)], now, false) == Some(c) && !OneToOne(c.rows)
    ensures OneToOne(ObserveAll(Clients(map[], 0), [Seen(a, m, now), Seen(b, m, now)], now).rows)
  {
    var x, y := Seen(a, m, now), Seen(b, m, now);
    BothAdded(x, y, now);
    var s2 := Session(map[], map[], [NewRow(x, now), NewRow(y, now)], 0);
    FlushBoth(s2, {}, map[]);
    var rows := WithAdded(map[], s2.added, 0);
    c := Clients(rows, 2);
    assert rows - {} == rows;
    assert 0 in rows && 1 in rows && rows[0].mac == rows[1].mac == Some(m);
    ObserveAllValid(Clients(map[], 0), [x, y], now);
  }
}
