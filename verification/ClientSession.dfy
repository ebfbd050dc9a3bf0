/**
  The same batches through a database session with pending changes. Production sessions do not flush
  before a query, so lookups see only flushed rows, although they return the session's own objects.
 */
module ClientSession {
  import opened Wrappers
  import opened ClientTable

  /** Flushed rows, the session's view of the same rows, and the objects added but not yet inserted. */
  datatype Session = Session(db: map<Id, Row>, objs: map<Id, Row>, added: seq<Row>, nextId: nat)

  ghost predicate Wf(s: Session) {
    s.objs.Keys == s.db.Keys && forall id :: id in s.db ==> id < s.nextId
  }

  function Clean(c: Clients): Session {
    Session(c.rows, c.rows, [], c.nextId)
  }

  // ----- flushing

  /** No other row holds the address: the unique index accepts it. */
  predicate IpFree(rows: map<Id, Row>, ip: Ip, id: Id) {
    forall j :: j in rows && j != id ==> rows[j].ip != ip
  }

  /** The UPDATE of one row, when its object is dirty and not marked deleted; a taken address fails it. */
  function UpdateOne(rows: map<Id, Row>, db: map<Id, Row>, objs: map<Id, Row>, gone: set<Id>, id: Id)
    : (r: Option<map<Id, Row>>)
    requires objs.Keys == db.Keys
    ensures r.Some? && id in rows ==> r.value.Keys == rows.Keys
  {
    if id !in db || id in gone || objs[id] == db[id] then Some(rows)
    else if IpFree(rows, objs[id].ip, id) then Some(rows[id := objs[id]])
    else None
  }

  /** The UPDATE statements of a flush, in primary-key order. */
  function Updates(db: map<Id, Row>, objs: map<Id, Row>, gone: set<Id>, n: nat): (r: Option<map<Id, Row>>)
    requires objs.Keys == db.Keys
    ensures r.Some? ==> r.value.Keys == db.Keys
  {
    if n == 0 then Some(db)
    else
      var before := Updates(db, objs, gone, n - 1);
      if before.None? then None else UpdateOne(before.value, db, objs, gone, n - 1)
  }

  /** The ids the sequence hands out next. */
  function NewIds(id: Id, n: nat): (ids: set<Id>)
    ensures forall k :: k in ids <==> id <= k < id + n
  {
    if n == 0 then {} else NewIds(id, n - 1) + {id + n - 1}
  }

  /** The INSERT statements of a flush, in the order the objects were added. */
  function Inserts(rows: map<Id, Row>, added: seq<Row>, id: Id): Option<map<Id, Row>>
    decreases |added|
  {
    if added == [] then Some(rows)
    else if IpFree(rows, added[0].ip, id) then Inserts(rows[id := added[0]], added[1..], id + 1)
    else None
  }

  lemma {:induction false} InsertsKeys(rows: map<Id, Row>, added: seq<Row>, id: Id)
    requires Inserts(rows, added, id).Some?
    ensures Inserts(rows, added, id).value.Keys == rows.Keys + NewIds(id, |added|)
    decreases |added|
  {
    if added != [] {
      InsertsKeys(rows[id := added[0]], added[1..], id + 1);
    }
  }

  /** Updates, then inserts, then the deletion of `gone`; None is the driver's integrity error. */
  function Flush(s: Session, gone: set<Id>): (r: Option<Session>)
    requires Wf(s)
    ensures r.Some? ==> Wf(r.value) && r.value.db.Keys == s.db.Keys + NewIds(s.nextId, |s.added|) - gone
  {
    var updated := Updates(s.db, s.objs, gone, s.nextId);
    if updated.None? then None
    else
      var inserted := Inserts(updated.value, s.added, s.nextId);
      if inserted.None? then None
      else
        InsertsKeys(updated.value, s.added, s.nextId);
        Some(Session(inserted.value - gone, inserted.value - gone, [], s.nextId + |s.added|))
  }

  // ----- one item, and a batch

  function WithAdded(rows: map<Id, Row>, added: seq<Row>, id: Id): map<Id, Row> {
    map k | k in rows.Keys + NewIds(id, |added|) :: if id <= k < id + |added| then added[k - id] else rows[k]
  }

  /** The row a flush would give each id, that is, the session's own view of the table. */
  function View(s: Session): map<Id, Row> {
    WithAdded(s.objs, s.added, s.nextId)
  }

  /** `_client_for_observation` and the assignments after it. */
  function Resolve(s: Session, o: Observation, now: int): (r: Option<Session>)
    requires Wf(s)
    ensures r.Some? ==> Wf(r.value)
  {
    var byIp := IdByIp(s.db, s.nextId, o.ip);
    var byMac := IdByMac(s.db, s.nextId, o.mac);
    if byMac.Some? && byIp.Some? && byMac != byIp then
      var m := byMac.value;
      var first := Min(s.objs[byIp.value].firstSeen, s.objs[m].firstSeen);
      var flushed := Flush(s.(objs := s.objs[m := s.objs[m].(firstSeen := first)]), {byIp.value});
      if flushed.None? then None
      else Some(flushed.value.(objs := flushed.value.objs[m := Touched(flushed.value.objs[m], o)]))
    else if byMac.Some? then Some(s.(objs := s.objs[byMac.value := Touched(s.objs[byMac.value], o)]))
    else if byIp.Some? then Some(s.(objs := s.objs[byIp.value := Touched(s.objs[byIp.value], o)]))
    else Some(s.(added := s.added + [NewRow(o, now)]))
  }

  /** The loop of `agent_sync` and `scan_clients`; with `autoflush` each query flushes first. */
  function RunItems(s: Session, os: seq<Observation>, now: int, autoflush: bool): (r: Option<Session>)
    requires Wf(s)
    ensures r.Some? ==> Wf(r.value)
    decreases |os|
  {
    if os == [] then Some(s)
    else
      var s0 := if autoflush then Flush(s, {}) else Some(s);
      if s0.None? then None
      else
        var s1 := Resolve(s0.value, os[0], now);
        if s1.None? then None else RunItems(s1.value, os[1..], now, autoflush)
  }

  /** The batch and its commit; None when the database rejects it, which rolls everything back. */
  function Batch(c: Clients, os: seq<Observation>, now: int, autoflush: bool): Option<Clients>
    requires forall id :: id in c.rows ==> id < c.nextId
  {
    var s := RunItems(Clean(c), os, now, autoflush);
    if s.None? then None
    else
      var done := Flush(s.value, {});
      if done.None? then None else Some(Clients(done.value.db, done.value.nextId))
  }

  // ----- when a flush succeeds

  /** No row's flushed address is wanted by another row. */
  ghost predicate CrossUnique(s: Session)
    requires Wf(s)
  {
    forall i, j {:trigger s.db[i], View(s)[j]} :: i in s.db && j in View(s) && i != j ==> s.db[i].ip != View(s)[j].ip
  }

  /** The session stands for the table `c`: flushed now, it would become it, in any statement order. */
  ghost predicate StandsFor(s: Session, c: Clients) {
    && Wf(s) && Valid(c)
    && View(s) == c.rows && c.nextId == s.nextId + |s.added|
    && CrossUnique(s)
  }

  /** Addresses differ between any two rows, whether each still has its flushed address or its new one. */
  ghost predicate AnyMixUnique(db: map<Id, Row>, objs: map<Id, Row>)
    requires objs.Keys == db.Keys
  {
    && (forall i, j {:trigger db[i], objs[j]} :: i in db && j in db && i != j ==> db[i].ip != objs[j].ip)
    && (forall i, j {:trigger objs[i], objs[j]} :: i in db && j in db && i != j ==> objs[i].ip != objs[j].ip)
  }

  lemma UpdateOneSucceeds(db: map<Id, Row>, objs: map<Id, Row>, gone: set<Id>, before: map<Id, Row>, id: Id)
    returns (mixed: map<Id, Row>)
    requires objs.Keys == db.Keys == before.Keys && AnyMixUnique(db, objs)
    requires forall k :: k in before ==> before[k] == if k < id && k !in gone then objs[k] else db[k]
    ensures UpdateOne(before, db, objs, gone, id) == Some(mixed) && mixed.Keys == db.Keys
    ensures forall k :: k in mixed ==> mixed[k] == if k < id + 1 && k !in gone then objs[k] else db[k]
  {
    if id in db {
      forall j | j in before && j != id ensures before[j].ip != objs[id].ip {
        assert before[j] == objs[j] || before[j] == db[j];
      }
    }
    mixed := UpdateOne(before, db, objs, gone, id).value;
  }

  lemma {:induction false} UpdatesSucceed(db: map<Id, Row>, objs: map<Id, Row>, gone: set<Id>, n: nat)
    returns (mixed: map<Id, Row>)
    requires objs.Keys == db.Keys && AnyMixUnique(db, objs)
    ensures Updates(db, objs, gone, n) == Some(mixed) && mixed.Keys == db.Keys
    ensures forall k :: k in mixed ==> mixed[k] == if k < n && k !in gone then objs[k] else db[k]
  {
    if n == 0 {
      mixed := db;
    } else {
      var before := UpdatesSucceed(db, objs, gone, n - 1);
      mixed := UpdateOneSucceeds(db, objs, gone, before, n - 1);
    }
  }

  /** No addition has the address of a row, nor of another addition. */
  ghost predicate AddedApart(rows: map<Id, Row>, added: seq<Row>) {
    && (forall k, i {:trigger rows[k], added[i]} :: k in rows && 0 <= i < |added| ==> rows[k].ip != added[i].ip)
    && (forall i, j :: 0 <= i < j < |added| ==> added[i].ip != added[j].ip)
  }

  lemma AddedApartTail(rows: map<Id, Row>, added: seq<Row>, id: Id)
    requires added != [] && AddedApart(rows, added)
    ensures AddedApart(rows[id := added[0]], added[1..])
  {
    var rows', rest := rows[id := added[0]], added[1..];
    forall k, i | k in rows' && 0 <= i < |rest| ensures rows'[k].ip != rest[i].ip {
      assert rest[i] == added[i + 1];
    }
  }

  lemma AddedFirst(rows: map<Id, Row>, added: seq<Row>, id: Id)
    requires added != [] && forall k :: k in rows ==> k < id
    ensures WithAdded(rows[id := added[0]], added[1..], id + 1) == WithAdded(rows, added, id)
  {
  }

  lemma FirstFree(rows: map<Id, Row>, added: seq<Row>, id: Id)
    requires added != [] && AddedApart(rows, added)
    ensures IpFree(rows, added[0].ip, id)
  {
  }

  lemma {:induction false} InsertsSucceed(rows: map<Id, Row>, added: seq<Row>, id: Id)
    requires forall k :: k in rows ==> k < id
    requires AddedApart(rows, added)
    ensures Inserts(rows, added, id) == Some(WithAdded(rows, added, id))
    decreases |added|
  {
    if added == [] {
      assert WithAdded(rows, added, id) == rows;
    } else {
      FirstFree(rows, added, id);
      AddedApartTail(rows, added, id);
      AddedFirst(rows, added, id);
      InsertsSucceed(rows[id := added[0]], added[1..], id + 1);
    }
  }

  lemma AnyMix(s: Session, c: Clients)
    requires StandsFor(s, c)
    ensures AnyMixUnique(s.db, s.objs)
  {
    forall i, j | i in s.db && j in s.db && i != j ensures s.db[i].ip != s.objs[j].ip && s.objs[i].ip != s.objs[j].ip {
      assert View(s)[i] == s.objs[i] && View(s)[j] == s.objs[j];
      assert c.rows[i] == s.objs[i] && c.rows[j] == s.objs[j];
    }
  }

  /** Whatever mix of flushed and new addresses the rows are in, the additions keep apart from them. */
  lemma MixApart(s: Session, c: Clients, mixed: map<Id, Row>)
    requires StandsFor(s, c) && mixed.Keys == s.db.Keys
    requires forall k :: k in mixed ==> mixed[k] == s.objs[k] || mixed[k] == s.db[k]
    ensures AddedApart(mixed, s.added)
  {
    forall k, i | k in mixed && 0 <= i < |s.added| ensures mixed[k].ip != s.added[i].ip {
      assert View(s)[s.nextId + i] == s.added[i] && View(s)[k] == s.objs[k];
    }
    forall i, j | 0 <= i < j < |s.added| ensures s.added[i].ip != s.added[j].ip {
      assert View(s)[s.nextId + i] == s.added[i] && View(s)[s.nextId + j] == s.added[j];
    }
  }

  lemma MixedView(s: Session, mixed: map<Id, Row>, gone: set<Id>)
    requires Wf(s) && mixed.Keys == s.db.Keys
    requires forall k :: k in mixed && k !in gone ==> mixed[k] == s.objs[k]
    requires gone <= s.db.Keys
    ensures WithAdded(mixed, s.added, s.nextId) - gone == View(s) - gone
  {
    var a, b := WithAdded(mixed, s.added, s.nextId) - gone, View(s) - gone;
    assert a.Keys == b.Keys;
    forall k | k in a ensures a[k] == b[k] {}
  }

  lemma FlushBoth(s: Session, gone: set<Id>, mixed: map<Id, Row>)
    requires Wf(s) && mixed.Keys == s.db.Keys
    requires Updates(s.db, s.objs, gone, s.nextId) == Some(mixed) && AddedApart(mixed, s.added)
    ensures var rows := WithAdded(mixed, s.added, s.nextId) - gone;
            Flush(s, gone) == Some(Session(rows, rows, [], s.nextId + |s.added|))
  {
    InsertsSucceed(mixed, s.added, s.nextId);
  }

  /** A session that stands for a table flushes to it, less the deleted row. */
  lemma {:induction false} FlushReaches(s: Session, c: Clients, gone: set<Id>)
    requires StandsFor(s, c) && gone <= s.db.Keys
    ensures Flush(s, gone) == Some(Session(c.rows - gone, c.rows - gone, [], c.nextId))
  {
    AnyMix(s, c);
    var mixed := UpdatesSucceed(s.db, s.objs, gone, s.nextId);
    MixApart(s, c, mixed);
    FlushBoth(s, gone, mixed);
    MixedView(s, mixed, gone);
  }

  // ----- one item, when the lookups are not misled

  /** Flushed rows that the observation can match have the address and the MAC the session holds. */
  ghost predicate Settled(s: Session, o: Observation)
    requires Wf(s)
  {
    forall id :: id in s.db && (s.db[id].ip == o.ip || (o.mac.Some? && s.db[id].mac == o.mac)) ==>
      s.objs[id].ip == s.db[id].ip && s.objs[id].mac == s.db[id].mac
  }

  /** The lookups on flushed rows find what they would find on the session's own view. */
  ghost predicate LookupsAgree(s: Session, c: Clients, o: Observation) {
    && IdByIp(s.db, s.nextId, o.ip) == IdByIp(c.rows, c.nextId, o.ip)
    && IdByMac(s.db, s.nextId, o.mac) == IdByMac(c.rows, c.nextId, o.mac)
  }

  /** They do when the flushed rows it matches are the rows of the view it matches. */
  lemma SameMatches(s: Session, c: Clients, o: Observation)
    requires StandsFor(s, c)
    requires forall id :: id in s.db && s.db[id].ip == o.ip ==> id in c.rows && c.rows[id].ip == o.ip
    requires forall id :: id in c.rows && c.rows[id].ip == o.ip ==> id in s.db && s.db[id].ip == o.ip
    requires forall id :: id in s.db && o.mac.Some? && s.db[id].mac == o.mac ==> id in c.rows && c.rows[id].mac == o.mac
    requires forall id :: id in c.rows && o.mac.Some? && c.rows[id].mac == o.mac ==> id in s.db && s.db[id].mac == o.mac
    ensures LookupsAgree(s, c, o)
  {
    SameIp(s.db, s.nextId, c, o.ip);
    if o.mac.Some? { SameMac(s.db, s.nextId, c, o.mac); }
  }

  lemma SameIp(db: map<Id, Row>, n: nat, c: Clients, ip: Ip)
    requires Valid(c) && forall id :: id in db ==> id < n
    requires forall id :: id in db && db[id].ip == ip ==> id in c.rows && c.rows[id].ip == ip
    requires forall id :: id in c.rows && c.rows[id].ip == ip ==> id in db && db[id].ip == ip
    ensures IdByIp(db, n, ip) == IdByIp(c.rows, c.nextId, ip)
  {
    var a, b := IdByIp(db, n, ip), IdByIp(c.rows, c.nextId, ip);
    assert a.Some? <==> b.Some?;
  }

  lemma SameMac(db: map<Id, Row>, n: nat, c: Clients, mac: Option<Mac>)
    requires Valid(c) && mac.Some? && forall id :: id in db ==> id < n
    requires forall id :: id in db && db[id].mac == mac ==> id in c.rows && c.rows[id].mac == mac
    requires forall id :: id in c.rows && c.rows[id].mac == mac ==> id in db && db[id].mac == mac
    ensures IdByMac(db, n, mac) == IdByMac(c.rows, c.nextId, mac)
  {
    var a, b := IdByMac(db, n, mac), IdByMac(c.rows, c.nextId, mac);
    assert a.Some? <==> b.Some?;
  }

  lemma AddItem(s: Session, c: Clients, row: Row)
    requires StandsFor(s, c)
    requires forall id :: id in s.db ==> s.db[id].ip != row.ip
    requires Valid(Clients(c.rows[c.nextId := row], c.nextId + 1))
    ensures StandsFor(s.(added := s.added + [row]), Clients(c.rows[c.nextId := row], c.nextId + 1))
  {
    var s' := s.(added := s.added + [row]);
    assert View(s') == c.rows[c.nextId := row];
  }

  lemma EditView(s: Session, id: Id, row: Row)
    requires Wf(s) && id in s.db
    ensures View(s.(objs := s.objs[id := row])) == View(s)[id := row]
  {
  }

  lemma EditCross(s: Session, s': Session, id: Id)
    requires Wf(s) && CrossUnique(s) && id in s.db && Wf(s') && s'.db == s.db && id in View(s')
    requires View(s').Keys == View(s).Keys && forall k :: k in View(s) && k != id ==> View(s')[k] == View(s)[k]
    requires forall k :: k in s.db && k != id ==> s.db[k].ip != View(s')[id].ip
    ensures CrossUnique(s')
  {
  }

  lemma EditItem(s: Session, c: Clients, id: Id, row: Row)
    requires StandsFor(s, c) && id in s.db
    requires forall k :: k in s.db && k != id ==> s.db[k].ip != row.ip
    requires Valid(c.(rows := c.rows[id := row]))
    ensures StandsFor(s.(objs := s.objs[id := row]), c.(rows := c.rows[id := row]))
  {
    EditView(s, id, row);
    EditCross(s, s.(objs := s.objs[id := row]), id);
  }

  lemma CleanStandsFor(c: Clients)
    requires Valid(c)
    ensures StandsFor(Clean(c), c)
  {
    assert View(Clean(c)) == c.rows;
  }

  /** At most one flushed row holds a settled address. */
  lemma OneHolder(s: Session, c: Clients, o: Observation, i: Id, j: Id)
    requires StandsFor(s, c) && Settled(s, o)
    requires i in s.db && j in s.db && s.db[i].ip == o.ip == s.db[j].ip
    ensures i == j
  {
    assert View(s)[i] == s.objs[i] && View(s)[j] == s.objs[j];
  }

  /** The merge's explicit flush: the known row has the earlier `first_seen`, the stale row is deleted. */
  lemma MergeFlush(s: Session, c: Clients, i: Id, m: Id, first: int)
    requires StandsFor(s, c) && i in s.db && m in s.db && i != m
    ensures var f := Flush(s.(objs := s.objs[m := s.objs[m].(firstSeen := first)]), {i});
            f == Some(Clean(c.(rows := c.rows[m := c.rows[m].(firstSeen := first)] - {i})))
  {
    assert View(s)[m] == s.objs[m];
    var aged := c.rows[m].(firstSeen := first);
    var c1 := c.(rows := c.rows[m := aged]);
    assert c1.rows[m].ip == c.rows[m].ip && c1.rows[m].mac == c.rows[m].mac;
    forall k | k in s.db && k != m ensures s.db[k].ip != aged.ip {
      assert View(s)[m].ip == aged.ip;
    }
    EditItem(s, c, m, aged);
    FlushReaches(s.(objs := s.objs[m := aged]), c1, {i});
  }

  lemma StillValid(c: Clients, i: Id, m: Id, first: int)
    requires Valid(c) && m in c.rows && i != m
    ensures Valid(c.(rows := c.rows[m := c.rows[m].(firstSeen := first)]))
    ensures Valid(c.(rows := c.rows[m := c.rows[m].(firstSeen := first)] - {i}))
  {
  }

  /** After it the known row takes the address over. */
  lemma MergeTouch(c: Clients, o: Observation, i: Id, m: Id, row: Row)
    requires Valid(c) && i in c.rows && m in c.rows && i != m && c.rows[i].ip == o.ip == row.ip
    requires Valid(c.(rows := (c.rows - {i})[m := row]))
    ensures var c2 := c.(rows := c.rows - {i});
            StandsFor(Clean(c2).(objs := c2.rows[m := row]), c.(rows := (c.rows - {i})[m := row]))
  {
    var c2 := c.(rows := c.rows - {i});
    CleanStandsFor(c2);
    forall k | k in c2.rows && k != m ensures c2.rows[k].ip != row.ip {
      assert c.rows[k].ip != c.rows[i].ip;
    }
    EditItem(Clean(c2), c2, m, row);
  }

  lemma MergeRows(rows: map<Id, Row>, i: Id, m: Id, aged: Row, row: Row)
    requires m in rows && i != m
    ensures (rows[m := aged] - {i})[m := row] == (rows - {i})[m := row]
    ensures m in rows[m := aged] - {i} && (rows[m := aged] - {i})[m] == aged
  {
  }

  lemma MergeItem(s: Session, c: Clients, o: Observation, i: Id, m: Id, first: int)
    requires StandsFor(s, c) && i in s.db && m in s.db && i != m && s.objs[i].ip == o.ip
    requires Valid(c.(rows := (c.rows - {i})[m := Touched(c.rows[m].(firstSeen := first), o)]))
    ensures var f := Flush(s.(objs := s.objs[m := s.objs[m].(firstSeen := first)]), {i});
            && f.Some? && m in f.value.objs
            && StandsFor(f.value.(objs := f.value.objs[m := Touched(f.value.objs[m], o)]),
                         c.(rows := (c.rows - {i})[m := Touched(c.rows[m].(firstSeen := first), o)]))
  {
    MergeFlush(s, c, i, m, first);
    assert View(s)[i] == s.objs[i] && View(s)[m] == s.objs[m];
    var aged := c.rows[m].(firstSeen := first);
    MergeRows(c.rows, i, m, aged, Touched(aged, o));
    StillValid(c, i, m, first);
    MergeTouch(c.(rows := c.rows[m := aged]), o, i, m, Touched(aged, o));
  }

  /** One item does to the session what it does to the table the session stands for. */
  lemma {:induction false} ResolveFollows(s: Session, c: Clients, o: Observation, now: int)
    requires StandsFor(s, c) && Settled(s, o) && LookupsAgree(s, c, o)
    ensures Resolve(s, o, now).Some?
    ensures StandsFor(Resolve(s, o, now).value, Observe(c, o, now))
  {
    ObserveValid(c, o, now);
    var byIp := IdByIp(s.db, s.nextId, o.ip);
    var byMac := IdByMac(s.db, s.nextId, o.mac);
    forall id | id in s.db ensures View(s)[id] == s.objs[id] {}
    if byMac.Some? && byIp.Some? && byMac != byIp {
      var first := Min(s.objs[byIp.value].firstSeen, s.objs[byMac.value].firstSeen);
      MergeItem(s, c, o, byIp.value, byMac.value, first);
    } else if byMac.Some? || byIp.Some? {
      var id := if byMac.Some? then byMac.value else byIp.value;
      forall k | k in s.db && k != id ensures s.db[k].ip != o.ip {
        if s.db[k].ip == o.ip { OneHolder(s, c, o, k, byIp.value); }
      }
      EditItem(s, c, id, Touched(s.objs[id], o));
    } else {
      AddItem(s, c, NewRow(o, now));
    }
  }

  // ----- a session that flushes before every query

  lemma CleanStep(c: Clients, o: Observation, now: int)
    requires Valid(c)
    ensures Valid(Observe(c, o, now)) && Resolve(Clean(c), o, now).Some?
    ensures StandsFor(Resolve(Clean(c), o, now).value, Observe(c, o, now))
  {
    CleanStandsFor(c);
    ResolveFollows(Clean(c), c, o, now);
  }

  lemma FlushAll(s: Session, c: Clients)
    requires StandsFor(s, c)
    ensures Flush(s, {}) == Some(Clean(c))
  {
    FlushReaches(s, c, {});
    assert c.rows - {} == c.rows;
  }

  lemma {:induction false} AutoflushFollows(s: Session, c: Clients, os: seq<Observation>, now: int)
    requires StandsFor(s, c)
    ensures RunItems(s, os, now, true).Some?
    ensures StandsFor(RunItems(s, os, now, true).value, ObserveAll(c, os, now))
    decreases |os|
  {
    if os != [] {
      FlushAll(s, c);
      CleanStep(c, os[0], now);
      AutoflushFollows(Resolve(Clean(c), os[0], now).value, Observe(c, os[0], now), os[1..], now);
    }
  }

  /** With autoflush every batch on every one-to-one table commits the flushed result. */
  lemma {:induction false} AutoflushRefines(c: Clients, os: seq<Observation>, now: int)
    requires Valid(c)
    ensures Batch(c, os, now, true) == Some(ObserveAll(c, os, now))
  {
    CleanStandsFor(c);
    AutoflushFollows(Clean(c), c, os, now);
    FlushAll(RunItems(Clean(c), os, now, true).value, ObserveAll(c, os, now));
  }
}
