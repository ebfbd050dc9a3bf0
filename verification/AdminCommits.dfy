/** What the concurrent requests commit: what was asked for, under unique names, by someone who was an administrator. */
module AdminCommits {
  import opened Wrappers
  import opened Users
  import opened AdminProtocol

  // ----- what was asked for

  /** A granted commit, in any interleaving, writes the target alone: the requested values and no other field. */
  lemma {:induction false} CommitWritesRequest(s: State, t: Tid)
    requires Enabled(s, Finish(t)) && FinishVerdict(s, t).Granted?
    ensures var r, s' := s.txns[t].req, Next(s, Finish(t));
            && r.target in s.users && r.target in s'.users
            && s'.users == s.users[r.target := s'.users[r.target]]
            && var before, after := s.users[r.target], s'.users[r.target];
            && (r.PutRole? ==> after == before.(role := r.role))
            && (r.PutRole? ==> s'.audit == s.audit + [AuditRow(r.actor, r.target, RoleUpdated(before.role, r.role))])
            && (r.PutStatus? ==> after == before.(active := r.active))
            && (r.PutStatus? ==> s'.audit == s.audit + [AuditRow(r.actor, r.target, StatusUpdated(before.active, r.active))])
            && (r.Patch? ==> FieldsSet(before, after, r.changes) && |s'.audit| == |s.audit| + 1)
  {
  }

  // ----- unique names

  lemma StepKeepsNames(s: State, l: Label)
    requires Enabled(s, l) && UniqueNames(s.users) && forall id :: id in s.users ==> id < s.nextId
    ensures UniqueNames(Next(s, l).users)
  {
    match l
    case Finish(t) =>
      if s.txns[t].phase.found {
        WriteKeepsNames(s.users, s.txns[t].req, |s.txns[t].phase.kept|);
      }
    case Create(_, u) => InsertKeepsNames(s.users, s.nextId, u);
    case Register(u) => InsertKeepsNames(s.users, s.nextId, u);
    case Rehash(id, hash) => NamesWith(s.users, id, s.users[id].(hash := hash));
    case _ =>
  }

  /** Over every run no two users share a username, or an email that is not null. */
  lemma {:induction false} NamesStayUnique(s: State, ls: seq<Label>)
    requires Inv(s) && Valid(s, ls) && UniqueNames(s.users)
    ensures UniqueNames(Exec(s, ls).users)
    decreases |ls|
  {
    if ls != [] {
      StepInv(s, ls[0]);
      StepKeepsNames(s, ls[0]);
      NamesStayUnique(Next(s, ls[0]), ls[1..]);
    }
  }

  // ----- who acted

  /** The users who were active administrators at some moment of the run. */
  ghost function EverAdmin(s: State, ls: seq<Label>): set<Id>
    requires Valid(s, ls)
    decreases |ls|
  {
    (set id | id in s.users && s.users[id].role == Admin && s.users[id].active)
    + (if ls == [] then {} else EverAdmin(Next(s, ls[0]), ls[1..]))
  }

  /** Requests past their authorisation, and what was recorded, come from the given actors. */
  ghost predicate ActedBy(s: State, actors: set<Id>) {
    && (forall t :: t in s.txns && !s.txns[t].phase.Submitted? && s.txns[t].phase != Done(None) ==> s.txns[t].req.actor in actors)
    && (forall i :: 0 <= i < |s.audit| && !s.audit[i].action.UserCreated? ==> s.audit[i].actor in actors)
  }

  lemma GrantedActor(s: State, t: Tid)
    requires Enabled(s, Finish(t)) && FinishVerdict(s, t).Granted?
    ensures FinishVerdict(s, t).row.actor == s.txns[t].req.actor
  {
  }

  lemma StepActedBy(s: State, l: Label, actors: set<Id>)
    requires Enabled(s, l) && ActedBy(s, actors)
    requires forall id :: id in s.users && s.users[id].role == Admin && s.users[id].active ==> id in actors
    ensures ActedBy(Next(s, l), actors)
  {
    var s' := Next(s, l);
    if l.Finish? {
      assert s.txns[l.t].req.actor in actors;
      if FinishVerdict(s, l.t).Granted? { GrantedActor(s, l.t); }
    }
    forall t | t in s'.txns && !s'.txns[t].phase.Submitted? && s'.txns[t].phase != Done(None)
      ensures s'.txns[t].req.actor in actors
    {
      if t in s.txns { assert s'.txns[t].req == s.txns[t].req; }
    }
  }

  lemma {:induction false} RunActedBy(s: State, ls: seq<Label>, actors: set<Id>)
    requires Valid(s, ls) && ActedBy(s, actors) && EverAdmin(s, ls) <= actors
    ensures ActedBy(Exec(s, ls), actors)
    decreases |ls|
  {
    if ls != [] {
      StepActedBy(s, ls[0], actors);
      RunActedBy(Next(s, ls[0]), ls[1..], actors);
    }
  }

  /** Over every run from a table at rest, whoever is recorded as having changed a user was an active administrator. */
  lemma {:induction false} OnlyAdminsAct(users: map<Id, User>, n: nat, ls: seq<Label>, row: AuditRow)
    requires Valid(Quiescent(users, n), ls)
    requires row in Exec(Quiescent(users, n), ls).audit && !row.action.UserCreated?
    ensures row.actor in EverAdmin(Quiescent(users, n), ls)
  {
    RunActedBy(Quiescent(users, n), ls, EverAdmin(Quiescent(users, n), ls));
  }
}
