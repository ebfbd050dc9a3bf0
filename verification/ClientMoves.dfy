/**
  When a production batch commits the flushed result, known clients included: exactly when no item asks
  for an address or a MAC that a known client gave up earlier in the batch and that is still flushed.
 */
module ClientMoves {
  import opened Wrappers
  import opened ClientTable
  import opened ClientSession
  import opened ClientFlush
  import opened ClientBatch

  /** No two items share an address or a MAC, as in one sweep over a network. */
  predicate DistinctItems(os: seq<Observation>) {
    forall i, j {:trigger os[i], os[j]} :: 0 <= i < j < |os| ==> !Share(os[i], os[j])
  }

  /** The item's client is known and another row holds its address: the branch that flushes. */
  predicate Merges(c: Clients, o: Observation) {
    var byIp, byMac := IdByIp(c.rows, c.nextId, o.ip), IdByMac(c.rows, c.nextId, o.mac);
    byMac.Some? && byIp.Some? && byMac != byIp
  }

  /**
    The rows, as they were, of the known clients that have changed address or MAC since the last flush: an
    item adds its own client's row, and a merge flushes the others.
   */
  function GivenUp(c: Clients, stale: map<Id, Row>, o: Observation): map<Id, Row> {
    var m := RowFor(c, o);
    if m !in c.rows || SameKeys(c.rows[m], Touched(c.rows[m], o)) then stale
    else if Merges(c, o) then map[m := c.rows[m]]
    else stale[m := c.rows[m]]
  }

  /** The item asks for nothing that has been given up. */
  predicate AsksNothingOf(stale: map<Id, Row>, o: Observation) {
    forall r :: r in stale ==> !Matches(stale[r], o)
  }

  /** Neither does any later item, along the flushed run. */
  predicate Undisturbed(c: Clients, stale: map<Id, Row>, os: seq<Observation>, now: int)
    decreases |os|
  {
    os == [] || (AsksNothingOf(stale, os[0]) && Undisturbed(Observe(c, os[0], now), GivenUp(c, stale, os[0]), os[1..], now))
  }

  // ----- the session and what has been given up

  /** Rows that were given up are flushed under their old address and MAC, all others under the present ones. */
  ghost predicate KeysTracked(s: Session, stale: map<Id, Row>)
    requires Wf(s)
  {
    && stale.Keys <= s.db.Keys
    && forall r :: r in s.db ==> if r in stale then SameKeys(stale[r], s.db[r]) else SameKeys(s.objs[r], s.db[r])
  }

  /** The item has no address and no MAC that an earlier item brought. */
  ghost predicate Misses(s: Session, stale: map<Id, Row>, o: Observation)
    requires Wf(s)
  {
    && (forall i :: 0 <= i < |s.added| ==> !Matches(s.added[i], o))
    && (forall r :: r in stale && r in s.objs ==> !Matches(s.objs[r], o))
  }

  ghost predicate Tracks(s: Session, c: Clients, stale: map<Id, Row>) {
    StandsFor(s, c) && OneToOne(s.db) && KeysTracked(s, stale)
  }

  lemma FlushedKey(s: Session, c: Clients, stale: map<Id, Row>, o: Observation, id: Id)
    requires Tracks(s, c, stale) && AsksNothingOf(stale, o) && id in s.db && Matches(s.db[id], o)
    ensures id !in stale && SameKeys(s.objs[id], s.db[id]) && id in c.rows && c.rows[id] == s.objs[id]
  {
    assert View(s)[id] == s.objs[id];
  }

  lemma SeenKey(s: Session, c: Clients, stale: map<Id, Row>, o: Observation, id: Id)
    requires Tracks(s, c, stale) && Misses(s, stale, o) && id in c.rows && Matches(c.rows[id], o)
    ensures id in s.db && SameKeys(c.rows[id], s.db[id])
  {
    assert c.rows[id] == View(s)[id];
  }

  lemma FlushedKeys(s: Session, c: Clients, stale: map<Id, Row>, o: Observation)
    requires Tracks(s, c, stale) && AsksNothingOf(stale, o)
    ensures Settled(s, o) && MatchesCarry(s.db, c.rows, o)
  {
    forall id | id in s.db && Matches(s.db[id], o)
      ensures SameKeys(s.objs[id], s.db[id]) && id in c.rows && SameKeys(c.rows[id], s.db[id])
    {
      FlushedKey(s, c, stale, o, id);
    }
  }

  /** The lookups of an undisturbed item are not misled. */
  lemma NotMisled(s: Session, c: Clients, stale: map<Id, Row>, o: Observation)
    requires Tracks(s, c, stale) && Misses(s, stale, o) && AsksNothingOf(stale, o)
    ensures Settled(s, o) && LookupsAgree(s, c, o)
  {
    FlushedKeys(s, c, stale, o);
    forall id | id in c.rows && Matches(c.rows[id], o) ensures id in s.db && SameKeys(s.db[id], c.rows[id]) {
      SeenKey(s, c, stale, o, id);
    }
    MatchesAgree(s, c, o);
  }

  /** What the item's row is, when the lookups are not misled. */
  lemma ItemRow(s: Session, c: Clients, stale: map<Id, Row>, o: Observation) returns (m: Id)
    requires Tracks(s, c, stale) && AsksNothingOf(stale, o) && LookupsAgree(s, c, o)
    ensures m == RowFor(c, o)
    ensures m in c.rows ==> m in s.db && m !in stale && s.objs[m] == c.rows[m] && SameKeys(c.rows[m], s.db[m])
    ensures m !in c.rows ==> !Merges(c, o)
  {
    m := RowFor(c, o);
    if m in c.rows && m in s.db {
      FlushedKey(s, c, stale, o, m);
    }
  }

  /** The session after an item that does not merge. */
  lemma PlainItem(s: Session, c: Clients, stale: map<Id, Row>, o: Observation, now: int)
    requires Tracks(s, c, stale) && AsksNothingOf(stale, o) && LookupsAgree(s, c, o) && !Merges(c, o)
    ensures var m := RowFor(c, o);
            Resolve(s, o, now) == Some(if m in c.rows then s.(objs := s.objs[m := Touched(c.rows[m], o)])
                                       else s.(added := s.added + [NewRow(o, now)]))
  {
    var m := ItemRow(s, c, stale, o);
  }

  /** The session after a merge: everything flushed, the client's own row about to take the address. */
  lemma MergingItem(s: Session, c: Clients, stale: map<Id, Row>, o: Observation, now: int) returns (rows: map<Id, Row>)
    requires Tracks(s, c, stale) && AsksNothingOf(stale, o) && LookupsAgree(s, c, o) && Merges(c, o)
    ensures RowFor(c, o) in rows && RowFor(c, o) in c.rows && SameKeys(rows[RowFor(c, o)], c.rows[RowFor(c, o)])
    ensures OneToOne(rows) && forall k :: k in rows ==> k < c.nextId
    ensures Resolve(s, o, now)
         == Some(Session(rows, rows[RowFor(c, o) := Touched(rows[RowFor(c, o)], o)], [], c.nextId))
  {
    var i, m := IdByIp(s.db, s.nextId, o.ip).value, IdByMac(s.db, s.nextId, o.mac).value;
    FlushedKey(s, c, stale, o, i);
    FlushedKey(s, c, stale, o, m);
    var first := Min(s.objs[i].firstSeen, s.objs[m].firstSeen);
    MergeFlush(s, c, i, m, first);
    StillValid(c, i, m, first);
    rows := c.rows[m := c.rows[m].(firstSeen := first)] - {i};
  }

  lemma EditTracked(s: Session, stale: map<Id, Row>, m: Id, before: Row, after: Row)
    requires Wf(s) && KeysTracked(s, stale) && m in s.db && m !in stale && SameKeys(before, s.db[m])
    ensures KeysTracked(s.(objs := s.objs[m := after]), if SameKeys(before, after) then stale else stale[m := before])
  {
  }

  lemma PlainTracks(s: Session, c: Clients, stale: map<Id, Row>, o: Observation, now: int)
    requires Tracks(s, c, stale) && AsksNothingOf(stale, o) && LookupsAgree(s, c, o) && !Merges(c, o)
    requires Resolve(s, o, now).Some?
    ensures OneToOne(Resolve(s, o, now).value.db) && KeysTracked(Resolve(s, o, now).value, GivenUp(c, stale, o))
  {
    PlainItem(s, c, stale, o, now);
    var m := ItemRow(s, c, stale, o);
    if m in c.rows {
      EditTracked(s, stale, m, c.rows[m], Touched(c.rows[m], o));
    }
  }

  lemma MergeTracks(s: Session, c: Clients, stale: map<Id, Row>, o: Observation, now: int)
    requires Tracks(s, c, stale) && AsksNothingOf(stale, o) && LookupsAgree(s, c, o) && Merges(c, o)
    requires Resolve(s, o, now).Some?
    ensures OneToOne(Resolve(s, o, now).value.db) && KeysTracked(Resolve(s, o, now).value, GivenUp(c, stale, o))
  {
    var rows := MergingItem(s, c, stale, o, now);
    MovesOnMerge(c, o);
  }

  /** A merge gives up the client's former address. */
  lemma MovesOnMerge(c: Clients, o: Observation)
    requires Valid(c) && Merges(c, o)
    ensures RowFor(c, o) in c.rows && c.rows[RowFor(c, o)].ip != o.ip
  {
  }

  /** Only an item with a MAC gives anything up. */
  lemma GivesUpForMac(c: Clients, o: Observation)
    requires Valid(c) && RowFor(c, o) in c.rows && !SameKeys(c.rows[RowFor(c, o)], Touched(c.rows[RowFor(c, o)], o))
    ensures o.mac.Some?
  {
  }

  lemma TouchedMisses(r: Row, o: Observation, later: Observation)
    requires !Share(o, later) && o.mac.Some?
    ensures !Matches(Touched(r, o), later)
  {
  }

  lemma EditMisses(s: Session, stale: map<Id, Row>, m: Id, before: Row, after: Row, later: Observation)
    requires Wf(s) && Misses(s, stale, later) && m in s.db && m !in stale
    requires SameKeys(before, after) || !Matches(after, later)
    ensures Misses(s.(objs := s.objs[m := after]), if SameKeys(before, after) then stale else stale[m := before], later)
  {
  }

  lemma PlainMisses(s: Session, c: Clients, stale: map<Id, Row>, o: Observation, now: int, later: Observation)
    requires Tracks(s, c, stale) && AsksNothingOf(stale, o) && LookupsAgree(s, c, o) && !Merges(c, o)
    requires !Share(o, later) && Misses(s, stale, later) && Resolve(s, o, now).Some?
    ensures Misses(Resolve(s, o, now).value, GivenUp(c, stale, o), later)
  {
    PlainItem(s, c, stale, o, now);
    var m := ItemRow(s, c, stale, o);
    if m !in c.rows {
      NewMisses(o, now, later);
    } else {
      if !SameKeys(c.rows[m], Touched(c.rows[m], o)) {
        GivesUpForMac(c, o);
        TouchedMisses(c.rows[m], o, later);
      }
      EditMisses(s, stale, m, c.rows[m], Touched(c.rows[m], o), later);
    }
  }

  lemma MergeMisses(s: Session, c: Clients, stale: map<Id, Row>, o: Observation, now: int, later: Observation)
    requires Tracks(s, c, stale) && AsksNothingOf(stale, o) && LookupsAgree(s, c, o) && Merges(c, o)
    requires !Share(o, later) && Resolve(s, o, now).Some?
    ensures Misses(Resolve(s, o, now).value, GivenUp(c, stale, o), later)
  {
    var rows := MergingItem(s, c, stale, o, now);
    MovesOnMerge(c, o);
    TouchedMisses(rows[RowFor(c, o)], o, later);
  }

  /** A later item misses what this one brings. */
  lemma StepMisses(s: Session, c: Clients, stale: map<Id, Row>, o: Observation, now: int, later: Observation)
    requires Tracks(s, c, stale) && AsksNothingOf(stale, o) && LookupsAgree(s, c, o)
    requires !Share(o, later) && Misses(s, stale, later) && Resolve(s, o, now).Some?
    ensures Misses(Resolve(s, o, now).value, GivenUp(c, stale, o), later)
  {
    if Merges(c, o) {
      MergeMisses(s, c, stale, o, now, later);
    } else {
      PlainMisses(s, c, stale, o, now, later);
    }
  }

  lemma NewMisses(o: Observation, now: int, later: Observation)
    requires !Share(o, later)
    ensures !Matches(NewRow(o, now), later)
  {
  }

  ghost predicate AllMiss(s: Session, stale: map<Id, Row>, os: seq<Observation>)
    requires Wf(s)
  {
    forall k :: 0 <= k < |os| ==> Misses(s, stale, os[k])
  }

  /** One undisturbed item keeps session, table and record together. */
  lemma ItemTracks(s: Session, c: Clients, stale: map<Id, Row>, os: seq<Observation>, now: int)
    requires Tracks(s, c, stale) && os != [] && AsksNothingOf(stale, os[0])
    requires AllMiss(s, stale, os) && DistinctItems(os)
    ensures Resolve(s, os[0], now).Some?
    ensures Tracks(Resolve(s, os[0], now).value, Observe(c, os[0], now), GivenUp(c, stale, os[0]))
    ensures AllMiss(Resolve(s, os[0], now).value, GivenUp(c, stale, os[0]), os[1..]) && DistinctItems(os[1..])
  {
    var o := os[0];
    NotMisled(s, c, stale, o);
    ResolveFollows(s, c, o, now);
    if Merges(c, o) {
      MergeTracks(s, c, stale, o, now);
    } else {
      PlainTracks(s, c, stale, o, now);
    }
    forall k | 0 <= k < |os[1..]| ensures Misses(Resolve(s, o, now).value, GivenUp(c, stale, o), os[1..][k]) {
      assert os[1..][k] == os[k + 1];
      StepMisses(s, c, stale, o, now, os[k + 1]);
    }
  }

  lemma {:induction false} UndisturbedFollows(s: Session, c: Clients, stale: map<Id, Row>, os: seq<Observation>, now: int)
    requires Tracks(s, c, stale) && AllMiss(s, stale, os) && DistinctItems(os)
    requires Undisturbed(c, stale, os, now)
    ensures RunItems(s, os, now, false).Some?
    ensures StandsFor(RunItems(s, os, now, false).value, ObserveAll(c, os, now))
    decreases |os|
  {
    if os != [] {
      ItemTracks(s, c, stale, os, now);
      UndisturbedFollows(Resolve(s, os[0], now).value, Observe(c, os[0], now), GivenUp(c, stale, os[0]), os[1..], now);
    }
  }

  // ----- what a misled item loses

  /** The row is gone, or no longer at the address. */
  ghost predicate NotAt(s: Session, r: Id, ip: Ip) {
    r < s.nextId && (r in s.objs ==> s.objs[r].ip != ip)
  }

  /** An item for another address does not bring the row back. */
  lemma StaysAway(s: Session, o: Observation, now: int, r: Id, ip: Ip)
    requires Wf(s) && NotAt(s, r, ip) && o.ip != ip && Resolve(s, o, now).Some?
    ensures NotAt(Resolve(s, o, now).value, r, ip)
  {
    var byIp := IdByIp(s.db, s.nextId, o.ip);
    var byMac := IdByMac(s.db, s.nextId, o.mac);
    if byMac.Some? && byIp.Some? && byMac != byIp {
      var first := Min(s.objs[byIp.value].firstSeen, s.objs[byMac.value].firstSeen);
      FlushedRow(s.(objs := s.objs[byMac.value := s.objs[byMac.value].(firstSeen := first)]), {byIp.value}, r);
    }
  }

  lemma {:induction false} StaysAwayAlong(s: Session, os: seq<Observation>, now: int, r: Id, ip: Ip)
    requires Wf(s) && NotAt(s, r, ip) && RunItems(s, os, now, false).Some?
    requires forall k :: 0 <= k < |os| ==> os[k].ip != ip
    ensures NotAt(RunItems(s, os, now, false).value, r, ip)
    decreases |os|
  {
    if os != [] {
      StaysAway(s, os[0], now, r, ip);
      forall k | 0 <= k < |os[1..]| ensures os[1..][k].ip != ip { assert os[1..][k] == os[k + 1]; }
      StaysAwayAlong(Resolve(s, os[0], now).value, os[1..], now, r, ip);
    }
  }

  /** The item whose lookup finds a row takes that row for its own, or deletes it. */
  lemma MisledTakes(s: Session, o: Observation, now: int, r: Id)
    requires Wf(s) && OneToOne(s.db) && r in s.db && Matches(s.db[r], o) && Resolve(s, o, now).Some?
    ensures r < Resolve(s, o, now).value.nextId
    ensures r in Resolve(s, o, now).value.objs ==> Resolve(s, o, now).value.objs[r].ip == o.ip
  {
    var byIp := IdByIp(s.db, s.nextId, o.ip);
    var byMac := IdByMac(s.db, s.nextId, o.mac);
    assert byIp == Some(r) || byMac == Some(r);
    if byMac.Some? && byIp.Some? && byMac != byIp {
      var first := Min(s.objs[byIp.value].firstSeen, s.objs[byMac.value].firstSeen);
      FlushedRow(s.(objs := s.objs[byMac.value := s.objs[byMac.value].(firstSeen := first)]), {byIp.value}, r);
    }
  }

  /** In the flushed run a row that no item matches stays. */
  lemma {:induction false} UnmatchedStays(c: Clients, os: seq<Observation>, now: int, r: Id)
    requires Valid(c) && r in c.rows && forall k :: 0 <= k < |os| ==> !Matches(c.rows[r], os[k])
    ensures r in ObserveAll(c, os, now).rows && ObserveAll(c, os, now).rows[r] == c.rows[r]
    decreases |os|
  {
    if os != [] {
      ObserveValid(c, os[0], now);
      assert r in Observe(c, os[0], now).rows && Observe(c, os[0], now).rows[r] == c.rows[r];
      forall k | 0 <= k < |os[1..]| ensures !Matches(c.rows[r], os[1..][k]) { assert os[1..][k] == os[k + 1]; }
      UnmatchedStays(Observe(c, os[0], now), os[1..], now, r);
    }
  }

  /** The committed table of a session, if its run and its last flush succeed. */
  function Committed(s: Session, os: seq<Observation>, now: int): Option<Clients>
    requires Wf(s)
  {
    var end := RunItems(s, os, now, false);
    if end.None? then None
    else
      var done := Flush(end.value, {});
      if done.None? then None else Some(Clients(done.value.db, done.value.nextId))
  }

  lemma CommittedStep(s: Session, os: seq<Observation>, now: int)
    requires Wf(s) && os != []
    ensures Committed(s, os, now) == if Resolve(s, os[0], now).None? then None
                                     else Committed(Resolve(s, os[0], now).value, os[1..], now)
  {
  }

  lemma LostAtCommit(s: Session, os: seq<Observation>, now: int, r: Id, ip: Ip)
    requires Wf(s) && NotAt(s, r, ip) && forall k :: 0 <= k < |os| ==> os[k].ip != ip
    requires Committed(s, os, now).Some?
    ensures r in Committed(s, os, now).value.rows ==> Committed(s, os, now).value.rows[r].ip != ip
  {
    StaysAwayAlong(s, os, now, r, ip);
    FlushedRow(RunItems(s, os, now, false).value, {}, r);
  }

  /** The row a misled item found does not come out of the batch at its new address. */
  lemma MisledLoses(s: Session, os: seq<Observation>, now: int, r: Id, ip: Ip)
    requires Wf(s) && OneToOne(s.db) && os != [] && r in s.db && Matches(s.db[r], os[0])
    requires forall k :: 0 <= k < |os| ==> os[k].ip != ip
    requires Committed(s, os, now).Some?
    ensures r in Committed(s, os, now).value.rows ==> Committed(s, os, now).value.rows[r].ip != ip
  {
    CommittedStep(s, os, now);
    MisledTakes(s, os[0], now, r);
    forall k | 0 <= k < |os[1..]| ensures os[1..][k].ip != ip { assert os[1..][k] == os[k + 1]; }
    LostAtCommit(Resolve(s, os[0], now).value, os[1..], now, r, ip);
  }

  /** An item that asks for something given up costs the client its row, whatever follows. */
  lemma MisledDiffers(s: Session, c: Clients, stale: map<Id, Row>, os: seq<Observation>, now: int)
    requires Tracks(s, c, stale) && os != [] && AllMiss(s, stale, os) && !AsksNothingOf(stale, os[0])
    ensures Committed(s, os, now) != Some(ObserveAll(c, os, now))
  {
    var r :| r in stale && Matches(stale[r], os[0]);
    assert View(s)[r] == s.objs[r] == c.rows[r];
    forall k | 0 <= k < |os| ensures !Matches(c.rows[r], os[k]) { assert Misses(s, stale, os[k]); }
    UnmatchedStays(c, os, now, r);
    if Committed(s, os, now).Some? {
      MisledLoses(s, os, now, r, c.rows[r].ip);
    }
  }

  lemma {:induction false} CommitsExactly(s: Session, c: Clients, stale: map<Id, Row>, os: seq<Observation>, now: int)
    requires Tracks(s, c, stale) && AllMiss(s, stale, os) && DistinctItems(os)
    ensures Committed(s, os, now) == Some(ObserveAll(c, os, now)) <==> Undisturbed(c, stale, os, now)
    decreases |os|
  {
    if os == [] {
      FlushAll(s, c);
    } else if !AsksNothingOf(stale, os[0]) {
      MisledDiffers(s, c, stale, os, now);
    } else {
      ItemTracks(s, c, stale, os, now);
      CommittedStep(s, os, now);
      CommitsExactly(Resolve(s, os[0], now).value, Observe(c, os[0], now), GivenUp(c, stale, os[0]), os[1..], now);
    }
  }

  /**
    For every one-to-one table and every batch in which no two items share an address or a MAC, a production
    session commits the flushed result if and only if no item asks for an address or a MAC that a known
    client gave up earlier in the batch and that no merge has flushed since.
   */
  lemma {:induction false} ExactForDistinctItems(c: Clients, os: seq<Observation>, now: int)
    requires Valid(c) && DistinctItems(os)
    ensures Batch(c, os, now, false) == Some(ObserveAll(c, os, now)) <==> Undisturbed(c, map[], os, now)
  {
    CleanStandsFor(c);
    CommitsExactly(Clean(c), c, map[], os, now);
    assert Batch(c, os, now, false) == Committed(Clean(c), os, now);
  }

  /**
    In particular whenever a known client is seen at a new address and the next item is for its former one,
    the batch commits something else, whatever the rest of the table is.
   */
  lemma {:induction false} FormerAddressIsMisread(c: Clients, x: Observation, y: Observation, now: int, r: Id)
    requires Valid(c) && !Share(x, y)
    requires r in c.rows && x.mac.Some? && c.rows[r].mac == x.mac && c.rows[r].ip == y.ip
    ensures Batch(c, [x, y], now, false) != Some(ObserveAll(c, [x, y], now))
  {
    var os := [x, y];
    assert RowFor(c, x) == r;
    assert r in GivenUp(c, map[], x) && GivenUp(c, map[], x)[r] == c.rows[r];
    assert os[1..][0] == y && os[0] == x;
    ExactForDistinctItems(c, os, now);
  }
}
