/** Runs that show what the locking statements do not prevent when snapshots differ. */
module AdminRaces {
  import opened Wrappers
  import opened Users
  import opened AdminProtocol
  import opened AdminSafety

  ghost predicate Reaches(s: State, s': State) {
    exists ls :: Valid(s, ls) && Exec(s, ls) == s'
  }

  lemma {:induction false} ExecSnoc(s: State, ls: seq<Label>, l: Label)
    requires Valid(s, ls) && Enabled(Exec(s, ls), l)
    ensures Valid(s, ls + [l]) && Exec(s, ls + [l]) == Next(Exec(s, ls), l)
    decreases |ls|
  {
    if ls == [] {
      assert ls + [l] == [l];
      assert [l][1..] == [];
    } else {
      assert (ls + [l])[1..] == ls[1..] + [l];
      ExecSnoc(Next(s, ls[0]), ls[1..], l);
    }
  }

  lemma Extend(s: State, s': State, l: Label)
    requires Reaches(s, s') && Enabled(s', l)
    ensures Reaches(s, Next(s', l))
  {
    var ls :| Valid(s, ls) && Exec(s, ls) == s';
    ExecSnoc(s, ls, l);
  }

  lemma Step(s0: State, s: State, l: Label) returns (s': State)
    requires Reaches(s0, s) && Enabled(s, l)
    ensures s' == Next(s, l) && Reaches(s0, s')
  {
    Extend(s0, s, l);
    s' := Next(s, l);
  }

  /** A request submitted by an active administrator takes its snapshot. */
  lemma TakeSnapshot(s0: State, s: State, t: Tid, r: Request) returns (s': State)
    requires Reaches(s0, s) && t !in s.txns && LocksRows(r)
    requires r.actor in s.users && ActiveAdmin(s.users[r.actor])
    ensures Reaches(s0, s')
    ensures s' == s.(txns := s.txns[t := Txn(r, Locking(ActiveAdmins(s.users, s.nextId), 0, []))])
  {
    s' := Step(s0, s, Submit(t, r));
    s' := Step(s0, s', Authorise(t));
    s' := Step(s0, s', Snapshot(t));
  }

  /** With nobody else holding a row, the first statement locks and keeps its whole snapshot. */
  lemma LockAll(s0: State, s: State, t: Tid) returns (s': State)
    requires Reaches(s0, s) && t in s.txns && s.txns[t].phase.Locking?
    requires forall id :: id in s.locks ==> s.locks[id] == t
    requires forall id :: id in s.txns[t].phase.snap ==> id in s.users && ActiveAdmin(s.users[id])
    requires s.txns[t].phase.done <= |s.txns[t].phase.snap|
    requires s.txns[t].phase.kept == s.txns[t].phase.snap[..s.txns[t].phase.done]
    ensures Reaches(s0, s')
    ensures forall id :: id in s'.locks ==> s'.locks[id] == t
    ensures var snap := s.txns[t].phase.snap;
            s'.(locks := s.locks) == InPhase(s, t, Locking(snap, |snap|, snap))
    decreases |s.txns[t].phase.snap| - s.txns[t].phase.done
  {
    var Locking(snap, done, kept) := s.txns[t].phase;
    if done == |snap| {
      assert snap[..done] == snap;
      s' := s;
    } else {
      assert snap[done] in snap;
      assert snap[..done + 1] == snap[..done] + [snap[done]];
      s' := Step(s0, s, LockNext(t));
      s' := LockAll(s0, s', t);
    }
  }

  /** With its list complete and no other lock about, a request locks and re-reads its target. */
  lemma TargetAlone(s0: State, s: State, t: Tid) returns (s': State)
    requires Reaches(s0, s) && t in s.txns && s.txns[t].phase.Locking?
    requires forall id :: id in s.locks ==> s.locks[id] == t
    requires s.txns[t].phase.done == |s.txns[t].phase.snap|
    ensures Reaches(s0, s')
    ensures forall id :: id in s'.locks ==> s'.locks[id] == t
    ensures var p := s.txns[t].phase;
            s'.(locks := s.locks) == InPhase(s, t, Ready(p.snap, p.kept, s.txns[t].req.target in s.users))
  {
    s' := Step(s0, s, LockTarget(t));
  }

  /** It then decides, commits and releases everything. */
  lemma FinishAlone(s0: State, s: State, t: Tid) returns (s': State)
    requires Reaches(s0, s) && t in s.txns && s.txns[t].phase.Ready?
    requires forall id :: id in s.locks ==> s.locks[id] == t
    requires s.txns[t].phase.found <==> s.txns[t].req.target in s.users
    ensures Reaches(s0, s')
    ensures var r := s.txns[t].req;
            var v := Decide(s.users, r, Lookup(s.users, r.target), |s.txns[t].phase.kept|);
            s' == s.(users := Written(s.users, r.target, v),
                     audit := if v.Granted? then s.audit + [v.row] else s.audit,
                     txns := s.txns[t := Txn(r, Done(Some(v)))],
                     locks := map[])
  {
    assert Released(s.locks, t) == map[];
    s' := Step(s0, s, Finish(t));
  }

  lemma SnapshotAndLock(s0: State, s: State, t: Tid, r: Request) returns (s': State)
    requires Reaches(s0, s) && s.locks == map[] && t !in s.txns && LocksRows(r)
    requires r.actor in s.users && ActiveAdmin(s.users[r.actor])
    ensures Reaches(s0, s')
    ensures forall id :: id in s'.locks ==> s'.locks[id] == t
    ensures var admins := ActiveAdmins(s.users, s.nextId);
            s'.(locks := map[]) == s.(txns := s.txns[t := Txn(r, Locking(admins, |admins|, admins))])
  {
    var s1 := TakeSnapshot(s0, s, t, r);
    s' := LockAll(s0, s1, t);
  }

  lemma FinishReady(s0: State, s: State, s2: State, t: Tid, r: Request) returns (s': State)
    requires Reaches(s0, s2) && s.locks == map[]
    requires forall id :: id in s2.locks ==> s2.locks[id] == t
    requires var admins := ActiveAdmins(s.users, s.nextId);
             s2.(locks := map[]) == s.(txns := s.txns[t := Txn(r, Ready(admins, admins, r.target in s.users))])
    ensures Reaches(s0, s')
    ensures var v := DecideAlone(s.users, s.nextId, r);
            s' == s.(users := Written(s.users, r.target, v),
                     audit := if v.Granted? then s.audit + [v.row] else s.audit,
                     txns := s.txns[t := Txn(r, Done(Some(v)))])
  {
    assert s2.users == s.users && s2.audit == s.audit && s2.nextId == s.nextId && s2.born == s.born;
    s' := FinishAlone(s0, s2, t);
    assert s'.txns == s.txns[t := s'.txns[t]];
  }

  /** With no row locked, a role or status request can run to its end, with the verdict it reaches alone. */
  lemma {:induction false} RunAlone(s0: State, s: State, t: Tid, r: Request) returns (s': State)
    requires Reaches(s0, s) && s.locks == map[] && t !in s.txns && LocksRows(r)
    requires r.actor in s.users && ActiveAdmin(s.users[r.actor])
    ensures Reaches(s0, s')
    ensures var v := DecideAlone(s.users, s.nextId, r);
            s' == s.(users := Written(s.users, r.target, v),
                     audit := if v.Granted? then s.audit + [v.row] else s.audit,
                     txns := s.txns[t := Txn(r, Done(Some(v)))])
  {
    var admins := ActiveAdmins(s.users, s.nextId);
    var s1 := SnapshotAndLock(s0, s, t, r);
    var s2 := TargetAlone(s0, s1, t);
    assert s2.txns == s.txns[t := Txn(r, Ready(admins, admins, r.target in s.users))];
    s' := FinishReady(s0, s, s2, t, r);
  }

  // ----- two administrators changing places under a waiting request

  function Person(name: string, role: Role): User {
    User(name, None, name, role, true)
  }

  /** User 1 is the administrator, user 2 is not one yet. */
  function Start(): State {
    Quiescent(map[1 := Person("primary", Admin), 2 := Person("secondary", Viewer)], 3)
  }

  /** Request 1 has its snapshot [1] and has locked nothing. */
  function Snapped(r: Request): State {
    Start().(txns := map[1 := Txn(r, Locking([1], 0, []))])
  }

  /** Meanwhile user 2 was made an administrator and user 1 was demoted. */
  function Swapped(r: Request): State {
    var promotion := AuditRow(1, 2, RoleUpdated(Viewer, Admin));
    var demotion := AuditRow(2, 1, RoleUpdated(Admin, Viewer));
    State(
      map[1 := Person("primary", Viewer), 2 := Person("secondary", Admin)], 3, map[],
      map[1 := Txn(r, Locking([1], 0, [])),
          2 := Txn(PutRole(1, 2, Admin), Done(Some(Granted(Person("secondary", Admin), promotion)))),
          3 := Txn(PutRole(2, 1, Viewer), Done(Some(Granted(Person("primary", Viewer), demotion))))],
      [promotion, demotion], Start().born)
  }

  lemma AdminsOf(users: map<Id, User>)
    requires users.Keys == {1, 2}
    ensures ActiveAdmins(users, 3) ==
            if ActiveAdmin(users[1]) then (if ActiveAdmin(users[2]) then [1, 2] else [1])
            else if ActiveAdmin(users[2]) then [2] else []
  {
    assert ActiveAdmins(users, 0) == [];
    assert ActiveAdmins(users, 1) == [];
    assert ActiveAdmins(users, 2) == if ActiveAdmin(users[1]) then [1] else [];
  }

  lemma ReachSnapped(r: Request)
    requires r.actor == 1 && LocksRows(r)
    ensures Reaches(Start(), Snapped(r))
  {
    var s0 := Start();
    assert Valid(s0, []) && Exec(s0, []) == s0;
    var s := TakeSnapshot(s0, s0, 1, r);
    AdminsOf(s0.users);
    assert s == Snapped(r);
  }

  /** A role change of another user by user 1 or 2 that leaves an administrator is granted. */
  lemma RoleVerdict(users: map<Id, User>, actor: Id, target: Id, role: Role)
    requires users.Keys == {1, 2} && target in users && target != actor
    requires ActiveAdmin(users[target]) && role != Admin ==> ActiveAdmin(users[1]) && ActiveAdmin(users[2])
    ensures DecideAlone(users, 3, PutRole(actor, target, role))
            == Granted(users[target].(role := role), AuditRow(actor, target, RoleUpdated(users[target].role, role)))
  {
    AdminsOf(users);
  }

  /** A granted role change among two users, from submission to commit. */
  lemma RunRole(s0: State, s: State, t: Tid, actor: Id, target: Id, role: Role) returns (s': State)
    requires Reaches(s0, s) && s.locks == map[] && t !in s.txns && s.nextId == 3
    requires s.users.Keys == {1, 2} && actor in s.users && ActiveAdmin(s.users[actor])
    requires target in s.users && target != actor
    ensures Reaches(s0, s')
    ensures var row := AuditRow(actor, target, RoleUpdated(s.users[target].role, role));
            var u := s.users[target].(role := role);
            s' == s.(users := s.users[target := u], audit := s.audit + [row],
                     txns := s.txns[t := Txn(PutRole(actor, target, role), Done(Some(Granted(u, row))))])
  {
    RoleVerdict(s.users, actor, target, role);
    s' := RunAlone(s0, s, t, PutRole(actor, target, role));
  }

  lemma ReachSwapped(r: Request)
    requires r.actor == 1 && LocksRows(r)
    ensures Reaches(Start(), Swapped(r))
  {
    ReachSnapped(r);
    var s := RunRole(Start(), Snapped(r), 2, 1, 2, Admin);
    s := RunRole(Start(), s, 3, 2, 1, Viewer);
    assert s == Swapped(r);
  }

  /** The waiting request now finds its one snapshot row demoted and locks its target. */
  lemma ReachEmptyList(r: Request) returns (s: State)
    requires r.actor == 1 && r.target == 2 && LocksRows(r)
    ensures Reaches(Start(), s) && s.users == Swapped(r).users && s.locks == map[1 := 1, 2 := 1]
    ensures 1 in s.txns && s.txns[1] == Txn(r, Ready([1], [], true))
  {
    ReachSwapped(r);
    var s0 := Swapped(r);
    assert 2 in s0.users && !ActiveAdmin(s0.users[1]);
    var s1 := Step(Start(), s0, LockNext(1));
    assert s1.txns[1] == Txn(r, Locking([1], 1, []));
    assert s1.locks == map[1 := 1];
    s := Step(Start(), s1, LockTarget(1));
  }

  /** The role changes in between touch no name. */
  lemma SameNames(username: Option<string>, email: Option<string>)
    requires !Clashes(Start().users, Some(2), username, email)
    ensures forall r :: !Clashes(Swapped(r).users, Some(2), username, email)
  {
    assert Start().users[1].username == "primary" && 1 in Start().users;
  }

  /**
    The PATCH guard is needed: for every PATCH of another user that takes administrator status away and
    meets no duplicate name, there is a run from one active administrator to none.
   */
  lemma UncheckedPatchLeavesNoAdmin(c: Changes) returns (s: State)
    requires (c.role.Some? && c.role.value != Admin) || (c.active.Some? && !c.active.value)
    requires !Clashes(Start().users, Some(2), c.username, GetOr(c.email, None))
    ensures Inv(Start()) && HasActiveAdmin(Start().users)
    ensures Reaches(Start(), s) && !HasActiveAdmin(s.users)
  {
    assert 1 in Start().users && ActiveAdmin(Start().users[1]);
    var r := Patch(1, 2, c);
    var s1 := ReachEmptyList(r);
    SameNames(c.username, GetOr(c.email, None));
    assert UncheckedRemoval(s1, 1);
    UncheckedVerdict(s1, 1);
    var v := FinishVerdict(s1, 1);
    s := Step(Start(), s1, Finish(1));
    assert s.users == s1.users[2 := v.user] && s1.users.Keys == {1, 2};
  }

  // ----- waiting

  /** The row a request needs next, when it is inside one of the locking statements. */
  function Wants(s: State, t: Tid): Option<Id> {
    if t in s.txns && s.txns[t].phase.Locking? then
      var p := s.txns[t].phase;
      if p.done < |p.snap| then Some(p.snap[p.done])
      else if s.txns[t].req.target in s.users then Some(s.txns[t].req.target)
      else None
    else None
  }

  ghost predicate WaitsFor(s: State, t: Tid, u: Tid) {
    Wants(s, t).Some? && Wants(s, t).value in s.locks && s.locks[Wants(s, t).value] == u && u != t
  }

  /** Each request of the list waits for the next one, and the last for the first. */
  ghost predicate WaitCycle(s: State, c: seq<Tid>) {
    |c| > 0 && forall i :: 0 <= i < |c| ==> WaitsFor(s, c[i], c[if i + 1 < |c| then i + 1 else 0])
  }

  lemma SecondIsAdmin(r: Request)
    ensures var s := Swapped(r);
            4 !in s.txns && 2 in s.users && ActiveAdmin(s.users[2]) && ActiveAdmins(s.users, s.nextId) == [2]
  {
    AdminsOf(Swapped(r).users);
  }

  /** A fourth request, by the new administrator, takes the snapshot [2]. */
  lemma SnapSecond(r: Request) returns (s: State)
    requires r.actor == 1 && LocksRows(r)
    ensures Reaches(Start(), s)
    ensures s == Swapped(r).(txns := Swapped(r).txns[4 := Txn(PutRole(2, 1, Admin), Locking([2], 0, []))])
  {
    ReachSwapped(r);
    var s0 := Swapped(r);
    SecondIsAdmin(r);
    s := TakeSnapshot(Start(), s0, 4, PutRole(2, 1, Admin));
  }

  /** Request 4 holds row 2 and will want row 1, request 1 is about to lock row 1 and will want row 2. */
  lemma ReachOneEach() returns (s: State)
    ensures Reaches(Start(), s) && s.users == Swapped(PutRole(1, 2, Viewer)).users && s.locks == map[2 := 4]
    ensures {1, 4} <= s.txns.Keys
    ensures s.txns[1] == Txn(PutRole(1, 2, Viewer), Locking([1], 0, []))
    ensures s.txns[4] == Txn(PutRole(2, 1, Admin), Locking([2], 1, [2]))
  {
    var r := PutRole(1, 2, Viewer);
    var s1 := SnapSecond(r);
    s := Step(Start(), s1, LockNext(4));
    assert [] + [2] == [2];
  }

  /** The target lock is taken out of id order, so differing snapshots can end in a deadlock. */
  lemma DeadlockReachable() returns (s: State, c: seq<Tid>)
    ensures Reaches(Start(), s) && WaitCycle(s, c)
  {
    var s1 := ReachOneEach();
    s := Step(Start(), s1, LockNext(1));
    assert s.txns[1].phase == Locking([1], 1, []) && s.txns[4] == s1.txns[4];
    assert s.locks == map[2 := 4, 1 := 1];
    c := [1, 4];
    assert WaitsFor(s, 1, 4) && WaitsFor(s, 4, 1);
  }
}
