/** When the database accepts a flush, what it then holds, and that no commit leaves an address twice. */
module ClientFlush {
  import opened Wrappers
  import opened ClientTable
  import opened ClientSession
  import opened ClientBatch

  /** The unique index on addresses. */
  ghost predicate UniqueIps(rows: map<Id, Row>) {
    forall i, j {:trigger rows[i], rows[j]} :: i in rows && j in rows && i != j ==> rows[i].ip != rows[j].ip
  }

  // ----- what the statements leave

  lemma {:induction false} UpdatedRows(db: map<Id, Row>, objs: map<Id, Row>, gone: set<Id>, n: nat, r: Id)
    requires objs.Keys == db.Keys && Updates(db, objs, gone, n).Some?
    ensures r in db ==> Updates(db, objs, gone, n).value[r] == if r < n && r !in gone then objs[r] else db[r]
  {
    if n > 0 {
      UpdatedRows(db, objs, gone, n - 1, r);
    }
  }

  lemma {:induction false} InsertedRows(rows: map<Id, Row>, added: seq<Row>, id: Id, r: Id)
    requires Inserts(rows, added, id).Some? && r < id
    ensures r in Inserts(rows, added, id).value <==> r in rows
    ensures r in rows ==> Inserts(rows, added, id).value[r] == rows[r]
    decreases |added|
  {
    if added != [] {
      InsertedRows(rows[id := added[0]], added[1..], id + 1, r);
    }
  }

  /** A flush gives a row what the session holds for it. */
  lemma FlushedRow(s: Session, gone: set<Id>, r: Id)
    requires Wf(s) && Flush(s, gone).Some? && r < s.nextId
    ensures r < Flush(s, gone).value.nextId
    ensures r in Flush(s, gone).value.objs ==> r in s.objs && r !in gone && Flush(s, gone).value.objs[r] == s.objs[r]
  {
    UpdatedRows(s.db, s.objs, gone, s.nextId, r);
    var updated := Updates(s.db, s.objs, gone, s.nextId).value;
    InsertedRows(updated, s.added, s.nextId, r);
  }

  // ----- when they are accepted

  /** The row is not changed, or no other row has its new address at the moment of its UPDATE. */
  ghost predicate MayUpdate(db: map<Id, Row>, objs: map<Id, Row>, gone: set<Id>, id: Id)
    requires objs.Keys == db.Keys
  {
    id in db && id !in gone && objs[id] != db[id] ==>
      forall j :: j in db && j != id ==> objs[id].ip != (if j < id && j !in gone then objs[j].ip else db[j].ip)
  }

  lemma MayUpdateIs(db: map<Id, Row>, objs: map<Id, Row>, gone: set<Id>, before: map<Id, Row>, id: Id)
    requires objs.Keys == db.Keys == before.Keys
    requires forall k :: k in db ==> before[k] == if k < id && k !in gone then objs[k] else db[k]
    ensures UpdateOne(before, db, objs, gone, id).Some? <==> MayUpdate(db, objs, gone, id)
  {
  }

  /** The updates go through exactly when each finds its address free. */
  lemma {:induction false} UpdatesExactly(db: map<Id, Row>, objs: map<Id, Row>, gone: set<Id>, n: nat)
    requires objs.Keys == db.Keys
    ensures Updates(db, objs, gone, n).Some? <==> forall id :: 0 <= id < n ==> MayUpdate(db, objs, gone, id)
  {
    if n > 0 {
      UpdatesExactly(db, objs, gone, n - 1);
      var before := Updates(db, objs, gone, n - 1);
      if before.Some? {
        forall k | k in db ensures before.value[k] == if k < n - 1 && k !in gone then objs[k] else db[k] {
          UpdatedRows(db, objs, gone, n - 1, k);
        }
        MayUpdateIs(db, objs, gone, before.value, n - 1);
      }
    }
  }

  lemma ApartStep(rows: map<Id, Row>, added: seq<Row>, id: Id)
    requires added != [] && forall k :: k in rows ==> k < id
    ensures AddedApart(rows, added) <==> IpFree(rows, added[0].ip, id) && AddedApart(rows[id := added[0]], added[1..])
  {
    var rows', rest := rows[id := added[0]], added[1..];
    if AddedApart(rows, added) {
      AddedApartTail(rows, added, id);
    }
    if IpFree(rows, added[0].ip, id) && AddedApart(rows', rest) {
      forall k, i | k in rows && 0 <= i < |added| ensures rows[k].ip != added[i].ip {
        if i > 0 { assert rows'[k].ip != rest[i - 1].ip; }
      }
      forall i, j | 0 <= i < j < |added| ensures added[i].ip != added[j].ip {
        assert rest[j - 1] == added[j];
        if i == 0 { assert rows'[id].ip != rest[j - 1].ip; } else { assert rest[i - 1] == added[i]; }
      }
    }
  }

  /** The insertions go through exactly when no address is taken, by a row or by another addition. */
  lemma {:induction false} InsertsExactly(rows: map<Id, Row>, added: seq<Row>, id: Id)
    requires forall k :: k in rows ==> k < id
    ensures Inserts(rows, added, id).Some? <==> AddedApart(rows, added)
    decreases |added|
  {
    if added != [] {
      ApartStep(rows, added, id);
      InsertsExactly(rows[id := added[0]], added[1..], id + 1);
    }
  }

  /** The flushed rows after the updates: the session's values, but for the row about to be deleted. */
  function Mixed(db: map<Id, Row>, objs: map<Id, Row>, gone: set<Id>): map<Id, Row>
    requires objs.Keys == db.Keys
  {
    map k | k in db :: if k in gone then db[k] else objs[k]
  }

  lemma UpdatedIsMixed(s: Session, gone: set<Id>)
    requires Wf(s) && Updates(s.db, s.objs, gone, s.nextId).Some?
    ensures Updates(s.db, s.objs, gone, s.nextId) == Some(Mixed(s.db, s.objs, gone))
  {
    var updated := Updates(s.db, s.objs, gone, s.nextId).value;
    forall k | k in s.db ensures updated[k] == Mixed(s.db, s.objs, gone)[k] {
      UpdatedRows(s.db, s.objs, gone, s.nextId, k);
    }
    assert updated == Mixed(s.db, s.objs, gone);
  }

  /** A flush is accepted exactly when every changed row and every addition finds its address free. */
  lemma {:induction false} FlushExactly(s: Session, gone: set<Id>)
    requires Wf(s)
    ensures Flush(s, gone).Some? <==>
              (forall id :: 0 <= id < s.nextId ==> MayUpdate(s.db, s.objs, gone, id))
              && AddedApart(Mixed(s.db, s.objs, gone), s.added)
  {
    UpdatesExactly(s.db, s.objs, gone, s.nextId);
    if Updates(s.db, s.objs, gone, s.nextId).Some? {
      UpdatedIsMixed(s, gone);
      InsertsExactly(Mixed(s.db, s.objs, gone), s.added, s.nextId);
    }
  }

  /** And then it holds each remaining row as the session has it, and the additions under the next ids. */
  lemma {:induction false} FlushHolds(s: Session, gone: set<Id>, k: Id)
    requires Wf(s) && Flush(s, gone).Some?
    ensures var rows := Flush(s, gone).value.db;
            && (k < s.nextId ==> (k in rows <==> k in s.db && k !in gone) && (k in rows ==> rows[k] == s.objs[k]))
            && (k >= s.nextId && k !in gone ==>
                  (k in rows <==> k < s.nextId + |s.added|) && (k in rows ==> rows[k] == s.added[k - s.nextId]))
  {
    FlushExactly(s, gone);
    UpdatedIsMixed(s, gone);
    InsertsSucceed(Mixed(s.db, s.objs, gone), s.added, s.nextId);
  }

  // ----- unique addresses

  lemma {:induction false} UpdatesKeepUnique(db: map<Id, Row>, objs: map<Id, Row>, gone: set<Id>, n: nat)
    requires objs.Keys == db.Keys && UniqueIps(db) && Updates(db, objs, gone, n).Some?
    ensures UniqueIps(Updates(db, objs, gone, n).value)
  {
    if n > 0 {
      UpdatesKeepUnique(db, objs, gone, n - 1);
    }
  }

  lemma {:induction false} InsertsKeepUnique(rows: map<Id, Row>, added: seq<Row>, id: Id)
    requires UniqueIps(rows) && Inserts(rows, added, id).Some?
    ensures UniqueIps(Inserts(rows, added, id).value)
    decreases |added|
  {
    if added != [] {
      assert forall j :: j in rows && j != id ==> rows[j].ip != added[0].ip;
      InsertsKeepUnique(rows[id := added[0]], added[1..], id + 1);
    }
  }

  lemma FlushKeepsUnique(s: Session, gone: set<Id>)
    requires Wf(s) && UniqueIps(s.db) && Flush(s, gone).Some?
    ensures UniqueIps(Flush(s, gone).value.db)
  {
    UpdatesKeepUnique(s.db, s.objs, gone, s.nextId);
    InsertsKeepUnique(Updates(s.db, s.objs, gone, s.nextId).value, s.added, s.nextId);
  }

  lemma ResolveKeepsUnique(s: Session, o: Observation, now: int)
    requires Wf(s) && UniqueIps(s.db) && Resolve(s, o, now).Some?
    ensures UniqueIps(Resolve(s, o, now).value.db)
  {
    var byIp := IdByIp(s.db, s.nextId, o.ip);
    var byMac := IdByMac(s.db, s.nextId, o.mac);
    if byMac.Some? && byIp.Some? && byMac != byIp {
      var first := Min(s.objs[byIp.value].firstSeen, s.objs[byMac.value].firstSeen);
      FlushKeepsUnique(s.(objs := s.objs[byMac.value := s.objs[byMac.value].(firstSeen := first)]), {byIp.value});
    }
  }

  lemma {:induction false} ItemsKeepUnique(s: Session, os: seq<Observation>, now: int, autoflush: bool)
    requires Wf(s) && UniqueIps(s.db) && RunItems(s, os, now, autoflush).Some?
    ensures UniqueIps(RunItems(s, os, now, autoflush).value.db)
    decreases |os|
  {
    if os != [] {
      if autoflush { FlushKeepsUnique(s, {}); }
      var s0 := if autoflush then Flush(s, {}).value else s;
      ResolveKeepsUnique(s0, os[0], now);
      ItemsKeepUnique(Resolve(s0, os[0], now).value, os[1..], now, autoflush);
    }
  }

  /** Every committed batch, of any items and with or without autoflush, leaves no address on two rows. */
  lemma {:induction false} BatchKeepsAddresses(c: Clients, os: seq<Observation>, now: int, autoflush: bool)
    requires UniqueIps(c.rows) && (forall id :: id in c.rows ==> id < c.nextId)
    requires Batch(c, os, now, autoflush).Some?
    ensures UniqueIps(Batch(c, os, now, autoflush).value.rows)
  {
    ItemsKeepUnique(Clean(c), os, now, autoflush);
    FlushKeepsUnique(RunItems(Clean(c), os, now, autoflush).value, {});
  }

  // ----- which batches are rejected

  function NewRows(os: seq<Observation>, now: int): (r: seq<Row>)
    ensures |r| == |os| && forall i :: 0 <= i < |os| ==> r[i] == NewRow(os[i], now)
  {
    seq(|os|, i requires 0 <= i < |os| => NewRow(os[i], now))
  }

  lemma UnknownStep(s: Session, o: Observation, now: int)
    requires Wf(s) && forall id :: id in s.db ==> !Matches(s.db[id], o)
    ensures Resolve(s, o, now) == Some(s.(added := s.added + [NewRow(o, now)]))
  {
  }

  lemma NewRowsFirst(added: seq<Row>, os: seq<Observation>, now: int)
    requires os != []
    ensures added + [NewRow(os[0], now)] + NewRows(os[1..], now) == added + NewRows(os, now)
  {
  }

  lemma {:induction false} UnknownRun(s: Session, os: seq<Observation>, now: int)
    requires Wf(s) && UnknownClients(s.db, os)
    ensures RunItems(s, os, now, false) == Some(s.(added := s.added + NewRows(os, now)))
    decreases |os|
  {
    if os == [] {
      assert s.added + NewRows(os, now) == s.added;
    } else {
      assert forall id :: id in s.db ==> !Matches(s.db[id], os[0]);
      UnknownStep(s, os[0], now);
      assert UnknownClients(s.db, os[1..]);
      UnknownRun(s.(added := s.added + [NewRow(os[0], now)]), os[1..], now);
      NewRowsFirst(s.added, os, now);
    }
  }

  /** A session of additions only is flushed exactly when their addresses are free. */
  lemma AdditionsFlush(c: Clients, added: seq<Row>)
    requires forall id :: id in c.rows ==> id < c.nextId
    ensures Flush(Session(c.rows, c.rows, added, c.nextId), {}).Some? <==> AddedApart(c.rows, added)
  {
    UnchangedUpdates(c.rows, {}, c.nextId);
    InsertsExactly(c.rows, added, c.nextId);
  }

  lemma UnknownApart(rows: map<Id, Row>, os: seq<Observation>, now: int)
    requires UnknownClients(rows, os)
    ensures AddedApart(rows, NewRows(os, now)) <==> forall i, j :: 0 <= i < j < |os| ==> os[i].ip != os[j].ip
  {
    var added := NewRows(os, now);
    forall k, i | k in rows && 0 <= i < |added| ensures rows[k].ip != added[i].ip {
      assert !Matches(rows[k], os[i]);
    }
    if AddedApart(rows, added) {
      forall i, j | 0 <= i < j < |os| ensures os[i].ip != os[j].ip { assert added[i].ip != added[j].ip; }
    }
  }

  lemma BatchOfAdditions(c: Clients, os: seq<Observation>, now: int, added: seq<Row>)
    requires forall id :: id in c.rows ==> id < c.nextId
    requires RunItems(Clean(c), os, now, false) == Some(Session(c.rows, c.rows, added, c.nextId))
    ensures Batch(c, os, now, false).Some? <==> AddedApart(c.rows, added)
  {
    AdditionsFlush(c, added);
  }

  lemma UnknownRunClean(c: Clients, os: seq<Observation>, now: int)
    requires (forall id :: id in c.rows ==> id < c.nextId) && UnknownClients(c.rows, os)
    ensures RunItems(Clean(c), os, now, false) == Some(Session(c.rows, c.rows, NewRows(os, now), c.nextId))
  {
    UnknownRun(Clean(c), os, now);
    assert [] + NewRows(os, now) == NewRows(os, now);
  }

  /** For clients the table does not know a production batch is accepted exactly when no address comes twice. */
  lemma {:induction false} UnknownAcceptedExactly(c: Clients, os: seq<Observation>, now: int)
    requires (forall id :: id in c.rows ==> id < c.nextId) && UnknownClients(c.rows, os)
    ensures Batch(c, os, now, false).Some? <==> forall i, j :: 0 <= i < j < |os| ==> os[i].ip != os[j].ip
  {
    UnknownRunClean(c, os, now);
    BatchOfAdditions(c, os, now, NewRows(os, now));
    UnknownApart(c.rows, os, now);
  }

  lemma {:induction false} UnchangedUpdates(db: map<Id, Row>, gone: set<Id>, n: nat)
    ensures Updates(db, db, gone, n) == Some(db)
  {
    if n > 0 { UnchangedUpdates(db, gone, n - 1); }
  }

  /** The client at `id` is known by the MAC of an observation whose address no row has: its row moves there. */
  lemma KnownMoves(s: Session, o: Observation, now: int, id: Id)
    requires Wf(s) && id in s.db && o.mac.Some? && s.db[id].mac == o.mac
    requires forall k :: k in s.db ==> s.db[k].ip != o.ip
    requires forall k :: k in s.db && k != id ==> s.db[k].mac != o.mac
    ensures Resolve(s, o, now) == Some(s.(objs := s.objs[id := Touched(s.objs[id], o)]))
  {
    assert IdByMac(s.db, s.nextId, o.mac) == Some(id);
  }

  /** Two known clients seen at one new address: the database rejects the batch and keeps the table. */
  lemma {:induction false} TwoClientsOneAddressRejected(c: Clients, x: Observation, y: Observation, now: int, i: Id, j: Id)
    requires Valid(c) && i in c.rows && j in c.rows && i != j && x.mac.Some? && y.mac.Some?
    requires c.rows[i].mac == x.mac && c.rows[j].mac == y.mac && x.ip == y.ip
    requires forall k :: k in c.rows ==> c.rows[k].ip != x.ip
    ensures Batch(c, [x, y], now, false) == None
  {
    var s := Clean(c);
    KnownMoves(s, x, now, i);
    var s1 := s.(objs := s.objs[i := Touched(s.objs[i], x)]);
    KnownMoves(s1, y, now, j);
    var s2 := s1.(objs := s1.objs[j := Touched(s1.objs[j], y)]);
    RunTwo(s, x, y, now);
    if Flush(s2, {}).Some? {
      FlushKeepsUnique(s2, {});
      FlushedRow(s2, {}, i);
      FlushedRow(s2, {}, j);
    }
  }
}
