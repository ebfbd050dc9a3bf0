/** Every interleaving leaves an active administrator, unless a PATCH skips the check on an empty list. */
module AdminSafety {
  import opened Wrappers
  import opened Users
  import opened AdminProtocol

  /** A PATCH about to take administrator status away although its first statement kept no row. */
  ghost predicate UncheckedRemoval(s: State, t: Tid)
    requires Enabled(s, Finish(t))
  {
    var x := s.txns[t];
    x.req.Patch? && x.phase.kept == [] && x.phase.found && RemovesActiveAdmin(s.users[x.req.target], x.req)
  }

  /** The step is not such a commit: the guard of `update_user` saw a non-empty list. */
  ghost predicate Guarded(s: State, l: Label)
    requires Enabled(s, l)
  {
    l.Finish? ==> !UncheckedRemoval(s, l.t)
  }

  ghost predicate GuardedRun(s: State, ls: seq<Label>)
    requires Valid(s, ls)
    decreases |ls|
  {
    ls == [] || (Guarded(s, ls[0]) && GuardedRun(Next(s, ls[0]), ls[1..]))
  }

  /**
    What a concurrent request commits is what it would commit alone at that moment: stale snapshots
    and re-tested rows can only add refusals.
   */
  lemma {:induction false} CommitIsSerial(s: State, t: Tid)
    requires Inv(s) && Enabled(s, Finish(t))
    requires FinishVerdict(s, t).Granted? && !UncheckedRemoval(s, t)
    ensures FinishVerdict(s, t) == DecideAlone(s.users, s.nextId, s.txns[t].req)
  {
    assert TxnOk(s, t);
    KeptBound(s.users, s.nextId, s.txns[t].phase.kept);
  }

  /** The checks of PATCH that still stand before such a write: not the own account, no duplicate. */
  ghost predicate PassesOtherChecks(s: State, t: Tid)
    requires t in s.txns
  {
    var r := s.txns[t].req;
    r.Patch? && r.target != r.actor && !Clashes(s.users, Some(r.target), r.changes.username, GetOr(r.changes.email, None))
  }

  /** Such a PATCH is granted exactly when they pass, and then its row is no active administrator. */
  lemma UncheckedVerdict(s: State, t: Tid)
    requires Enabled(s, Finish(t)) && UncheckedRemoval(s, t)
    ensures FinishVerdict(s, t).Granted? <==> PassesOtherChecks(s, t)
    ensures FinishVerdict(s, t).Granted? ==> !ActiveAdmin(FinishVerdict(s, t).user)
  {
  }

  lemma OthersRemain(users: map<Id, User>, target: Id, u: User)
    requires HasActiveAdmin(users) && target in users && ActiveAdmin(users[target]) && !ActiveAdmin(u)
    ensures HasActiveAdmin(users[target := u]) <==> !SoleAdmin(users, target)
  {
    var after := users[target := u];
    if SoleAdmin(users, target) {
      assert forall id :: id in after ==> id == target || after[id] == users[id];
    } else {
      var other :| other in users && ActiveAdmin(users[other]) && other != target;
      assert other in after && ActiveAdmin(after[other]);
    }
  }

  /**
    The exact cost of the skipped check, read off the request and the table: a commit leaves no active
    administrator exactly when a PATCH with an empty list removes the sole one, from another account and
    without a duplicate name.
   */
  lemma {:induction false} FinishKeepsAdminIff(s: State, t: Tid)
    requires Inv(s) && Enabled(s, Finish(t)) && HasActiveAdmin(s.users)
    ensures HasActiveAdmin(Next(s, Finish(t)).users) <==>
            !(UncheckedRemoval(s, t) && PassesOtherChecks(s, t) && SoleAdmin(s.users, s.txns[t].req.target))
  {
    var v := FinishVerdict(s, t);
    if UncheckedRemoval(s, t) {
      UncheckedVerdict(s, t);
      if v.Granted? {
        OthersRemain(s.users, s.txns[t].req.target, v.user);
      }
    } else if v.Granted? {
      CommitIsSerial(s, t);
      AloneKeepsAdmin(s.users, s.nextId, s.txns[t].req);
    }
  }

  lemma {:induction false} StepKeepsAdmin(s: State, l: Label)
    requires Inv(s) && Enabled(s, l) && Guarded(s, l) && HasActiveAdmin(s.users)
    ensures HasActiveAdmin(Next(s, l).users)
  {
    if l.Finish? {
      FinishKeepsAdminIff(s, l.t);
    } else {
      var id :| id in s.users && ActiveAdmin(s.users[id]);
      assert id in Next(s, l).users && ActiveAdmin(Next(s, l).users[id]);
    }
  }

  /** Over every run, of any length and any number of requests, an active administrator remains. */
  lemma {:induction false} AlwaysAnActiveAdmin(s: State, ls: seq<Label>)
    requires Inv(s) && HasActiveAdmin(s.users)
    requires Valid(s, ls) && GuardedRun(s, ls)
    ensures HasActiveAdmin(Exec(s, ls).users)
    decreases |ls|
  {
    if ls != [] {
      StepInv(s, ls[0]);
      StepKeepsAdmin(s, ls[0]);
      AlwaysAnActiveAdmin(Next(s, ls[0]), ls[1..]);
    }
  }

  /** The same from any table with nothing under way: what the system promises an operator. */
  lemma {:induction false} TableKeepsAdmin(users: map<Id, User>, n: nat, ls: seq<Label>)
    requires (forall id :: id in users ==> id < n) && HasActiveAdmin(users)
    requires Valid(Quiescent(users, n), ls) && GuardedRun(Quiescent(users, n), ls)
    ensures HasActiveAdmin(Exec(Quiescent(users, n), ls).users)
  {
    QuiescentInv(users, n);
    AlwaysAnActiveAdmin(Quiescent(users, n), ls);
  }

  /** No request under way is a PATCH of a role or a status. */
  ghost predicate NoRolePatch(s: State) {
    forall t :: t in s.txns ==> ProfileOnly(s.txns[t].req)
  }

  predicate ProfileOnly(r: Request) {
    r.Patch? ==> !LocksRows(r)
  }

  lemma StepNoRolePatch(s: State, l: Label)
    requires Enabled(s, l) && NoRolePatch(s)
    requires l.Submit? ==> ProfileOnly(l.req)
    ensures Guarded(s, l) && NoRolePatch(Next(s, l))
  {
    var s' := Next(s, l);
    forall t | t in s'.txns ensures ProfileOnly(s'.txns[t].req) {
      assert t in s.txns ==> s'.txns[t].req == s.txns[t].req;
    }
  }

  /** The role and status routes alone need no proviso. */
  lemma {:induction false} PutRoutesAreGuarded(s: State, ls: seq<Label>)
    requires Valid(s, ls) && NoRolePatch(s)
    requires forall i :: 0 <= i < |ls| && ls[i].Submit? ==> ProfileOnly(ls[i].req)
    ensures GuardedRun(s, ls)
    decreases |ls|
  {
    if ls != [] {
      StepNoRolePatch(s, ls[0]);
      PutRoutesAreGuarded(Next(s, ls[0]), ls[1..]);
    }
  }

  // ----- the hypothesis on PATCH, from a lock step with no commit in between

  /** No step of the run changes a committed row. */
  ghost predicate QuietRun(s: State, ls: seq<Label>)
    requires Valid(s, ls)
    decreases |ls|
  {
    ls == [] || (Next(s, ls[0]).users == s.users && QuietRun(Next(s, ls[0]), ls[1..]))
  }

  /** The first statement has kept all it has locked so far. */
  ghost predicate KeepsAll(s: State, t: Tid, admins: seq<Id>) {
    && t in s.txns
    && (s.txns[t].phase.Locking? ==>
          s.txns[t].phase.snap == admins && s.txns[t].phase.done <= |admins|
          && s.txns[t].phase.kept == admins[..s.txns[t].phase.done])
    && (s.txns[t].phase.Ready? ==>
          s.txns[t].phase.kept == admins && (s.txns[t].phase.found <==> s.txns[t].req.target in s.users))
    && !s.txns[t].phase.Submitted? && !s.txns[t].phase.Authorised?
  }

  lemma {:induction false} QuietKeepsAll(s: State, ls: seq<Label>, t: Tid)
    requires Inv(s) && Valid(s, ls) && QuietRun(s, ls)
    requires KeepsAll(s, t, ActiveAdmins(s.users, s.nextId))
    ensures Exec(s, ls).users == s.users && Exec(s, ls).nextId == s.nextId
    ensures KeepsAll(Exec(s, ls), t, ActiveAdmins(s.users, s.nextId))
    decreases |ls|
  {
    if ls != [] {
      var s' := Next(s, ls[0]);
      StepInv(s, ls[0]);
      assert s'.nextId == s.nextId by { assert s.nextId !in s.users; }
      QuietStepKeepsAll(s, ls[0], t);
      QuietKeepsAll(s', ls[1..], t);
    }
  }

  /** A step that is not `t`'s own locking leaves its list alone or ends it. */
  lemma OtherStep(s: State, l: Label, t: Tid)
    requires Enabled(s, l) && t in s.txns && l != LockNext(t) && l != LockTarget(t)
    requires !s.txns[t].phase.Submitted? && !s.txns[t].phase.Authorised?
    ensures t in Next(s, l).txns && Next(s, l).txns[t].req == s.txns[t].req
    ensures Next(s, l).txns[t] == s.txns[t] || Next(s, l).txns[t].phase.Done?
  {
  }

  lemma LockNextKeepsAll(s: State, t: Tid, admins: seq<Id>)
    requires Enabled(s, LockNext(t)) && KeepsAll(s, t, admins)
    requires forall id :: id in admins ==> id in s.users && ActiveAdmin(s.users[id])
    ensures KeepsAll(Next(s, LockNext(t)), t, admins)
  {
    var p := s.txns[t].phase;
    assert admins[p.done] in admins;
    assert admins[..p.done + 1] == admins[..p.done] + [admins[p.done]];
  }

  lemma LockTargetKeepsAll(s: State, t: Tid, admins: seq<Id>)
    requires Enabled(s, LockTarget(t)) && KeepsAll(s, t, admins)
    ensures KeepsAll(Next(s, LockTarget(t)), t, admins)
  {
    assert admins[..|admins|] == admins;
  }

  lemma QuietStepKeepsAll(s: State, l: Label, t: Tid)
    requires Enabled(s, l) && Next(s, l).users == s.users
    requires KeepsAll(s, t, ActiveAdmins(s.users, s.nextId))
    ensures KeepsAll(Next(s, l), t, ActiveAdmins(s.users, s.nextId))
  {
    var admins := ActiveAdmins(s.users, s.nextId);
    if l == LockNext(t) {
      LockNextKeepsAll(s, t, admins);
    } else if l == LockTarget(t) {
      LockTargetKeepsAll(s, t, admins);
    } else {
      OtherStep(s, l, t);
    }
  }

  /**
    A request whose locking ran with no commit in between kept every active administrator, so the PATCH
    guard is not skipped and the verdict is that of the request run alone.
   */
  lemma {:induction false} QuietLockingIsSerial(s: State, ls: seq<Label>, t: Tid)
    requires Inv(s) && HasActiveAdmin(s.users) && Enabled(s, Snapshot(t))
    requires Valid(Next(s, Snapshot(t)), ls) && QuietRun(Next(s, Snapshot(t)), ls)
    requires Enabled(Exec(Next(s, Snapshot(t)), ls), Finish(t))
    ensures Guarded(Exec(Next(s, Snapshot(t)), ls), Finish(t))
    ensures FinishVerdict(Exec(Next(s, Snapshot(t)), ls), t)
            == DecideAlone(s.users, s.nextId, Exec(Next(s, Snapshot(t)), ls).txns[t].req)
  {
    var s0 := Next(s, Snapshot(t));
    StepInv(s, Snapshot(t));
    var admins := ActiveAdmins(s.users, s.nextId);
    assert admins[..0] == [];
    QuietKeepsAll(s0, ls, t);
    var id :| id in s.users && ActiveAdmin(s.users[id]);
    assert id in admins;
  }
}
