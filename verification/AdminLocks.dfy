/** When concurrent administration requests cannot block each other for ever. */
module AdminLocks {
  import opened Wrappers
  import opened Users
  import opened AdminProtocol
  import opened AdminRaces

  /** The request has taken its snapshot and has not ended. */
  predicate InFlight(s: State, t: Tid) {
    && t in s.txns
    && (s.txns[t].phase.Locking? || (s.txns[t].phase.Ready? && LocksRows(s.txns[t].req)))
  }

  function SnapOf(s: State, t: Tid): seq<Id>
    requires InFlight(s, t)
  {
    s.txns[t].phase.snap
  }

  /** All requests in flight took the same snapshot. */
  ghost predicate SameSnapshot(s: State, snap: seq<Id>) {
    snap != [] && forall t :: InFlight(s, t) ==> SnapOf(s, t) == snap
  }

  predicate CanStep(s: State, t: Tid) {
    Enabled(s, LockNext(t)) || Enabled(s, LockTarget(t)) || (Enabled(s, Finish(t)) && LocksRows(s.txns[t].req))
  }

  /** Whoever holds a lock is in flight and holds the first row of the common snapshot. */
  lemma HolderHasFirst(s: State, snap: seq<Id>, t: Tid)
    requires Inv(s) && SameSnapshot(s, snap) && t in s.txns && Held(s, t) != {}
    ensures InFlight(s, t) && snap[0] in s.locks && s.locks[snap[0]] == t
  {
    assert TxnOk(s, t);
    assert InFlight(s, t);
    if s.txns[t].phase.Locking? {
      assert snap[..s.txns[t].phase.done][0] == snap[0];
      assert snap[0] in Range(snap[..s.txns[t].phase.done]);
    } else {
      assert snap[0] in Range(snap);
    }
    assert snap[0] in Held(s, t);
  }

  /** With one common snapshot at most one request is past its first lock. */
  lemma {:induction false} OneHolder(s: State, snap: seq<Id>, i: Id, j: Id)
    requires Inv(s) && SameSnapshot(s, snap) && i in s.locks && j in s.locks
    ensures s.locks[i] == s.locks[j]
  {
    assert i in Held(s, s.locks[i]) && j in Held(s, s.locks[j]);
    HolderHasFirst(s, snap, s.locks[i]);
    HolderHasFirst(s, snap, s.locks[j]);
  }

  /** With one common snapshot nobody waits in a circle, whatever the targets are. */
  lemma {:induction false} SameSnapshotNoCycle(s: State, snap: seq<Id>, c: seq<Tid>)
    requires Inv(s) && SameSnapshot(s, snap)
    ensures !WaitCycle(s, c)
  {
    if WaitCycle(s, c) {
      var next := if 1 < |c| then 1 else 0;
      assert WaitsFor(s, c[0], c[next]);
      assert WaitsFor(s, c[next], c[if next + 1 < |c| then next + 1 else 0]);
      OneHolder(s, snap, Wants(s, c[0]).value, Wants(s, c[next]).value);
    }
  }

  /** With one common snapshot some request in flight can always take its next step. */
  lemma {:induction false} SameSnapshotProgress(s: State, snap: seq<Id>, t: Tid) returns (u: Tid)
    requires Inv(s) && SameSnapshot(s, snap) && InFlight(s, t)
    ensures InFlight(s, u) && CanStep(s, u)
  {
    if id :| id in s.locks {
      u := s.locks[id];
      assert id in Held(s, u);
      HolderHasFirst(s, snap, u);
      forall j | j in s.locks ensures s.locks[j] == u { OneHolder(s, snap, id, j); }
    } else {
      u := t;
    }
    assert TxnOk(s, u);
  }

  // ----- any snapshots, targets in id order

  /** The target is in the request's own snapshot or comes after all of it. */
  ghost predicate TargetInOrder(s: State, t: Tid)
    requires InFlight(s, t)
  {
    var target := s.txns[t].req.target;
    target in SnapOf(s, t) || forall id :: id in SnapOf(s, t) ==> id < target
  }

  /** A request whose target is in order waits only for a row above everything it holds. */
  lemma WaitsUpwards(s: State, t: Tid, u: Tid, id: Id)
    requires Inv(s) && WaitsFor(s, t, u) && TargetInOrder(s, t)
    requires id in s.locks && s.locks[id] == t
    ensures id < Wants(s, t).value
  {
    assert TxnOk(s, t);
    var p := s.txns[t].phase;
    assert id in Held(s, t);
    assert id in p.snap[..p.done];
    var k :| 0 <= k < p.done && p.snap[k] == id;
    assert p.done == |p.snap| ==> p.snap[..p.done] == p.snap;
    assert p.done == |p.snap| ==> Held(s, t) == Range(p.snap);
    assert Wants(s, t).value !in Held(s, t);
  }

  lemma CycleClimbs(s: State, c: seq<Tid>, k: nat)
    requires Inv(s) && WaitCycle(s, c) && k < |c|
    requires forall i :: 0 <= i < |c| ==> InFlight(s, c[i]) && TargetInOrder(s, c[i])
    ensures Wants(s, c[0]).Some? && Wants(s, c[k]).Some?
    ensures Wants(s, c[0]).value <= Wants(s, c[k]).value
  {
    assert WaitsFor(s, c[0], c[if 0 + 1 < |c| then 0 + 1 else 0]);
    if k > 0 {
      CycleClimbs(s, c, k - 1);
      assert WaitsFor(s, c[k - 1], c[if k - 1 + 1 < |c| then k - 1 + 1 else 0]);
      assert WaitsFor(s, c[k], c[if k + 1 < |c| then k + 1 else 0]);
      WaitsUpwards(s, c[k], c[if k + 1 < |c| then k + 1 else 0], Wants(s, c[k - 1]).value);
    }
  }

  /** Even with differing snapshots there is no circle when every target is in order. */
  lemma {:induction false} OrderedTargetsNoCycle(s: State, c: seq<Tid>)
    requires Inv(s)
    requires forall t :: InFlight(s, t) ==> TargetInOrder(s, t)
    ensures !WaitCycle(s, c)
  {
    if WaitCycle(s, c) {
      forall i | 0 <= i < |c| ensures InFlight(s, c[i]) {
        assert WaitsFor(s, c[i], c[if i + 1 < |c| then i + 1 else 0]);
      }
      var last := |c| - 1;
      CycleClimbs(s, c, last);
      assert WaitsFor(s, c[last], c[if last + 1 < |c| then last + 1 else 0]);
      assert WaitsFor(s, c[0], c[if 0 + 1 < |c| then 0 + 1 else 0]);
      WaitsUpwards(s, c[0], c[if 0 + 1 < |c| then 0 + 1 else 0], Wants(s, c[last]).value);
    }
  }
}
