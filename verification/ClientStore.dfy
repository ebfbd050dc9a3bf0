/** The client routes in their own form: a session object whose fields the batch loop updates. */
module ClientStore {
  import opened Wrappers
  import opened ClientTable
  import opened ClientSession
  import opened ClientBatch
  import opened ClientFlush
  import opened ClientMoves

  class ClientDatabase {
    // production sessions are created with autoflush off, test sessions with the default, on
    const autoflush: bool
    var rows: map<Id, Row>
    var nextId: nat
    // the open session: flushed rows, objects, additions
    var db: map<Id, Row>
    var objs: map<Id, Row>
    var added: seq<Row>

    /** The session as a value. */
    function Session(): Session
      reads this
    {
      ClientSession.Session.Session(db, objs, added, nextId)
    }

    constructor (autoflush: bool)
      ensures this.autoflush == autoflush && rows == map[] && nextId == 0
    {
      this.autoflush := autoflush;
      rows, nextId, db, objs, added := map[], 0, map[], map[], [];
    }

    /** The UPDATE statements, in id order; false when the unique index rejects one. */
    method EmitUpdates(gone: set<Id>) returns (ok: bool, current: map<Id, Row>)
      requires Wf(Session())
      ensures ok <==> forall id :: 0 <= id < nextId ==> MayUpdate(db, objs, gone, id)
      ensures ok ==> Updates(db, objs, gone, nextId) == Some(current)
    {
      UpdatesExactly(db, objs, gone, nextId);
      current := db;
      for id := 0 to nextId
        invariant Updates(db, objs, gone, id) == Some(current)
      {
        if id in db && id !in gone && objs[id] != db[id] {
          if !IpFree(current, objs[id].ip, id) {
            UpdatesStayFailed(db, objs, gone, id + 1, nextId);
            return false, current;
          }
          current := current[id := objs[id]];
        }
      }
      ok := true;
    }

    /** The INSERT statements, in the order of the additions. */
    method EmitInserts(updated: map<Id, Row>) returns (ok: bool, current: map<Id, Row>)
      requires forall id :: id in updated ==> id < nextId
      ensures ok <==> AddedApart(updated, added)
      ensures ok ==> Inserts(updated, added, nextId) == Some(current)
    {
      InsertsExactly(updated, added, nextId);
      current := updated;
      var rest, id := added, nextId;
      while rest != []
        invariant Inserts(current, rest, id) == Inserts(updated, added, nextId)
        decreases |rest|
      {
        if !IpFree(current, rest[0].ip, id) {
          return false, current;
        }
        current, rest, id := current[id := rest[0]], rest[1..], id + 1;
      }
      ok := true;
    }

    /** Emits the pending statements; false when the unique index rejects one of them. */
    method FlushPending(gone: set<Id>) returns (ok: bool)
      requires Wf(Session())
      modifies this`db, this`objs, this`added, this`nextId
      ensures ok <==> old((forall id :: 0 <= id < nextId ==> MayUpdate(db, objs, gone, id))
                          && AddedApart(Mixed(db, objs, gone), added))
      ensures ok <==> Flush(old(Session()), gone).Some?
      ensures ok ==> Session() == Flush(old(Session()), gone).value
      ensures !ok ==> Session() == old(Session())
    {
      var current;
      UpdatesExactly(db, objs, gone, nextId);
      ok, current := EmitUpdates(gone);
      if !ok {
        return;
      }
      UpdatedIsMixed(Session(), gone);
      InsertsExactly(current, added, nextId);
      ok, current := EmitInserts(current);
      if !ok {
        return;
      }
      current := current - gone;
      db, objs, nextId, added := current, current, nextId + |added|, [];
    }

    /** `_client_for_observation` and the field assignments of the loop body. */
    method ResolveItem(o: Observation, now: int) returns (ok: bool)
      requires Wf(Session())
      modifies this`db, this`objs, this`added, this`nextId
      ensures ok <==> Resolve(old(Session()), o, now).Some?
      ensures ok ==> Session() == Resolve(old(Session()), o, now).value
    {
      var byIp := IdByIp(db, nextId, o.ip);
      var byMac := IdByMac(db, nextId, o.mac);
      if byMac.Some? && byIp.Some? && byMac.value != byIp.value {
        if objs[byIp.value].firstSeen < objs[byMac.value].firstSeen {
          objs := objs[byMac.value := objs[byMac.value].(firstSeen := objs[byIp.value].firstSeen)];
        } else {
          assert objs[byMac.value := objs[byMac.value].(firstSeen := objs[byMac.value].firstSeen)] == objs;
        }
        ok := FlushPending({byIp.value});
        if !ok {
          return;
        }
        byIp := None;
      }
      var id := if byMac.Some? then byMac else byIp;
      if id.None? {
        added := added + [NewRow(o, now)];
      } else {
        objs := objs[id.value := Touched(objs[id.value], o)];
      }
      ok := true;
    }

    /** The whole request: every item, then the commit; a rejected statement rolls everything back. */
    method AgentSync(os: seq<Observation>, now: int) returns (ok: bool)
      requires forall id :: id in rows ==> id < nextId
      modifies this
      ensures var r := Batch(old(Clients(rows, nextId)), os, now, autoflush);
              && (ok <==> r.Some?)
              && (ok ==> Clients(rows, nextId) == r.value)
              && (!ok ==> rows == old(rows))
      ensures UniqueIps(old(rows)) ==> UniqueIps(rows)
      ensures old(Valid(Clients(rows, nextId))) && (autoflush || DisjointFootprints(old(rows), os)) ==>
                ok && Clients(rows, nextId) == ObserveAll(old(Clients(rows, nextId)), os, now)
      ensures old(Valid(Clients(rows, nextId))) && !autoflush && DistinctItems(os) ==>
                ((ok && Clients(rows, nextId) == ObserveAll(old(Clients(rows, nextId)), os, now))
                 <==> Undisturbed(old(Clients(rows, nextId)), map[], os, now))
    {
      ghost var before := Clients(rows, nextId);
      WhenFlushed(before, os, now, autoflush);
      WhenDistinct(before, os, now);
      WhenCommitted(before, os, now, autoflush);
      db, objs, added := rows, rows, [];
      for i := 0 to |os|
        invariant Wf(Session()) && rows == old(rows)
        invariant RunItems(Session(), os[i..], now, autoflush) == RunItems(Clean(before), os, now, autoflush)
      {
        assert os[i..][0] == os[i] && os[i..][1..] == os[i + 1..];
        if autoflush {
          ok := FlushPending({});
          if !ok {
            return;
          }
        }
        ok := ResolveItem(os[i], now);
        if !ok {
          return;
        }
      }
      assert os[|os|..] == [];
      ok := FlushPending({});
      if ok {
        rows := db;
      }
    }
  }

  /** The two configurations in which a batch commits the flushed table. */
  lemma WhenFlushed(c: Clients, os: seq<Observation>, now: int, autoflush: bool)
    ensures Valid(c) && (autoflush || DisjointFootprints(c.rows, os)) ==>
              Batch(c, os, now, autoflush) == Some(ObserveAll(c, os, now))
  {
    if Valid(c) && autoflush {
      AutoflushRefines(c, os, now);
    } else if Valid(c) && DisjointFootprints(c.rows, os) {
      DisjointBatchRefines(c, os, now);
    }
  }

  lemma WhenDistinct(c: Clients, os: seq<Observation>, now: int)
    ensures Valid(c) && DistinctItems(os) ==>
              (Batch(c, os, now, false) == Some(ObserveAll(c, os, now)) <==> Undisturbed(c, map[], os, now))
  {
    if Valid(c) && DistinctItems(os) {
      ExactForDistinctItems(c, os, now);
    }
  }

  lemma WhenCommitted(c: Clients, os: seq<Observation>, now: int, autoflush: bool)
    requires forall id :: id in c.rows ==> id < c.nextId
    ensures UniqueIps(c.rows) && Batch(c, os, now, autoflush).Some? ==> UniqueIps(Batch(c, os, now, autoflush).value.rows)
  {
    if UniqueIps(c.rows) && Batch(c, os, now, autoflush).Some? {
      BatchKeepsAddresses(c, os, now, autoflush);
    }
  }

  lemma UpdatesStayFailed(db: map<Id, Row>, objs: map<Id, Row>, gone: set<Id>, n: nat, m: nat)
    requires objs.Keys == db.Keys && n <= m && Updates(db, objs, gone, n).None?
    ensures Updates(db, objs, gone, m).None?
  {
    if n < m {
      UpdatesStayFailed(db, objs, gone, n, m - 1);
    }
  }
}
