/** The audit log, read in commit order, tells the whole role and status history of every user. */
module AdminAudit {
  import opened Wrappers
  import opened Users
  import opened AdminProtocol
  import opened Chains

  /** The role transition a row records about a user, if any. */
  function RoleEntry(row: AuditRow, id: Id): seq<(Role, Role)> {
    if row.subject != id then []
    else match row.action
      case RoleUpdated(o, n) => [(o, n)]
      case UserUpdated(Some(change), _) => [change]
      case _ => []
  }

  function StatusEntry(row: AuditRow, id: Id): seq<(bool, bool)> {
    if row.subject != id then []
    else match row.action
      case StatusUpdated(o, n) => [(o, n)]
      case UserUpdated(_, Some(change)) => [change]
      case _ => []
  }

  function RoleTrail(audit: seq<AuditRow>, id: Id): seq<(Role, Role)> {
    if audit == [] then []
    else RoleTrail(audit[..|audit| - 1], id) + RoleEntry(audit[|audit| - 1], id)
  }

  function StatusTrail(audit: seq<AuditRow>, id: Id): seq<(bool, bool)> {
    if audit == [] then []
    else StatusTrail(audit[..|audit| - 1], id) + StatusEntry(audit[|audit| - 1], id)
  }

  lemma TrailSnoc(audit: seq<AuditRow>, row: AuditRow, id: Id)
    ensures RoleTrail(audit + [row], id) == RoleTrail(audit, id) + RoleEntry(row, id)
    ensures StatusTrail(audit + [row], id) == StatusTrail(audit, id) + StatusEntry(row, id)
  {
    assert (audit + [row])[..|audit|] == audit;
  }

  lemma NoTrail(audit: seq<AuditRow>, id: Id)
    requires forall i :: 0 <= i < |audit| ==> audit[i].subject != id
    ensures RoleTrail(audit, id) == [] && StatusTrail(audit, id) == []
  {
  }

  /** From the user as created to the user as committed now. */
  ghost predicate Told(s: State, id: Id)
    requires id in s.users && id in s.born
  {
    && Chain(s.born[id].role, RoleTrail(s.audit, id), s.users[id].role)
    && Chain(s.born[id].active, StatusTrail(s.audit, id), s.users[id].active)
  }

  /** Every row is about a known user, and a creation row gives the role the user was created with. */
  ghost predicate RowsOk(audit: seq<AuditRow>, born: map<Id, User>) {
    forall i :: 0 <= i < |audit| ==> RowOk(audit[i], born)
  }

  predicate RowOk(row: AuditRow, born: map<Id, User>) {
    row.subject in born && (row.action.UserCreated? ==> born[row.subject].role == row.action.role)
  }

  ghost predicate AuditInv(s: State) {
    && s.born.Keys == s.users.Keys
    && (forall id :: id in s.users ==> id < s.nextId)
    && RowsOk(s.audit, s.born)
    && (forall id :: id in s.users ==> Told(s, id))
  }

  /** A granted write and its row describe the same transition. */
  lemma GrantedRow(s: State, t: Tid)
    requires Enabled(s, Finish(t)) && FinishVerdict(s, t).Granted?
    ensures s.txns[t].req.target in s.users
    ensures var target := s.txns[t].req.target;
            var u, v := s.users[target], FinishVerdict(s, t);
            && v.row.subject == target
            && !v.row.action.UserCreated?
            && RoleEntry(v.row, target) == (if v.row.action.RoleUpdated? || u.role != v.user.role
                                            then [(u.role, v.user.role)] else [])
            && StatusEntry(v.row, target) == (if v.row.action.StatusUpdated? || u.active != v.user.active
                                              then [(u.active, v.user.active)] else [])
  {
  }

  /** A row that records the change of its subject continues everybody's trail. */
  lemma ToldByRow(s: State, s': State, row: AuditRow, u': User, id: Id)
    requires row.subject in s.users && id in s.users && id in s.born && Told(s, id)
    requires s'.audit == s.audit + [row] && s'.users == s.users[row.subject := u'] && s'.born == s.born
    requires var u := s.users[row.subject];
             && (RoleEntry(row, row.subject) == [(u.role, u'.role)] || (RoleEntry(row, row.subject) == [] && u.role == u'.role))
             && (StatusEntry(row, row.subject) == [(u.active, u'.active)] || (StatusEntry(row, row.subject) == [] && u.active == u'.active))
    ensures Told(s', id)
  {
    TrailSnoc(s.audit, row, id);
    if id == row.subject {
      ChainSnoc(s.born[id].role, RoleTrail(s.audit, id), s.users[id].role, u'.role);
      ChainSnoc(s.born[id].active, StatusTrail(s.audit, id), s.users[id].active, u'.active);
    }
    assert RoleTrail(s.audit, id) + [] == RoleTrail(s.audit, id);
    assert StatusTrail(s.audit, id) + [] == StatusTrail(s.audit, id);
  }

  lemma WriteTold(s: State, s': State, row: AuditRow, u': User)
    requires AuditInv(s) && row.subject in s.users && !row.action.UserCreated?
    requires s'.audit == s.audit + [row] && s'.users == s.users[row.subject := u']
    requires s'.born == s.born && s'.nextId == s.nextId
    requires var u := s.users[row.subject];
             && (RoleEntry(row, row.subject) == [(u.role, u'.role)] || (RoleEntry(row, row.subject) == [] && u.role == u'.role))
             && (StatusEntry(row, row.subject) == [(u.active, u'.active)] || (StatusEntry(row, row.subject) == [] && u.active == u'.active))
    ensures AuditInv(s')
  {
    assert s'.users.Keys == s.users.Keys;
    assert RowOk(row, s.born);
    forall id | id in s'.users ensures Told(s', id) {
      ToldByRow(s, s', row, u', id);
    }
  }

  /** Nothing the history speaks about has changed. */
  ghost predicate SameHistory(s: State, s': State) {
    && s'.audit == s.audit && s'.born == s.born && s'.nextId == s.nextId && s'.users.Keys == s.users.Keys
    && forall id :: id in s.users ==> s'.users[id].role == s.users[id].role && s'.users[id].active == s.users[id].active
  }

  lemma SameTold(s: State, s': State)
    requires AuditInv(s) && SameHistory(s, s')
    ensures AuditInv(s')
  {
    forall id | id in s'.users ensures Told(s', id) { assert Told(s, id); }
  }

  lemma FinishTold(s: State, t: Tid)
    requires AuditInv(s) && Enabled(s, Finish(t))
    ensures AuditInv(Next(s, Finish(t)))
  {
    if FinishVerdict(s, t).Granted? {
      GrantedRow(s, t);
      WriteTold(s, Next(s, Finish(t)), FinishVerdict(s, t).row, FinishVerdict(s, t).user);
    } else {
      SameTold(s, Next(s, Finish(t)));
    }
  }

  /** The state after an insertion, with the audit rows `added` for it. */
  ghost predicate Insertion(s: State, s': State, u: User, added: seq<AuditRow>) {
    && s'.users == s.users[s.nextId := u] && s'.born == s.born[s.nextId := u] && s'.nextId == s.nextId + 1
    && s'.audit == s.audit + added
    && (added == [] || (|added| == 1 && added[0].subject == s.nextId && added[0].action == UserCreated(u.role)))
  }

  lemma InsertRows(audit: seq<AuditRow>, born: map<Id, User>, id: Id, u: User, added: seq<AuditRow>)
    requires RowsOk(audit, born) && id !in born
    requires forall i :: 0 <= i < |added| ==> RowOk(added[i], born[id := u])
    ensures RowsOk(audit + added, born[id := u])
  {
    forall i | 0 <= i < |audit + added| ensures RowOk((audit + added)[i], born[id := u]) {
      if i < |audit| {
        assert RowOk(audit[i], born);
      }
    }
  }

  lemma InsertTells(s: State, s': State, u: User, added: seq<AuditRow>, id: Id)
    requires AuditInv(s) && Insertion(s, s', u, added) && id in s'.users && id in s'.born
    ensures Told(s', id)
  {
    if added != [] {
      TrailSnoc(s.audit, added[0], id);
      assert added == [added[0]];
      assert RoleTrail(s.audit, id) + [] == RoleTrail(s.audit, id);
      assert StatusTrail(s.audit, id) + [] == StatusTrail(s.audit, id);
    } else {
      assert s'.audit == s.audit;
    }
    assert RoleTrail(s'.audit, id) == RoleTrail(s.audit, id);
    assert StatusTrail(s'.audit, id) == StatusTrail(s.audit, id);
    if id == s.nextId {
      forall i | 0 <= i < |s.audit| ensures s.audit[i].subject != id {
        assert RowOk(s.audit[i], s.born);
      }
      NoTrail(s.audit, id);
    } else {
      assert Told(s, id);
    }
  }

  lemma InsertRowsOk(s: State, s': State, u: User, added: seq<AuditRow>)
    requires AuditInv(s) && Insertion(s, s', u, added)
    ensures RowsOk(s'.audit, s'.born)
  {
    InsertRows(s.audit, s.born, s.nextId, u, added);
  }

  lemma InsertKeys(s: State, s': State, u: User, added: seq<AuditRow>)
    requires s.born.Keys == s.users.Keys && (forall id :: id in s.users ==> id < s.nextId)
    requires Insertion(s, s', u, added)
    ensures s'.born.Keys == s'.users.Keys && (forall id :: id in s'.users ==> id < s'.nextId)
  {
    assert s'.born.Keys == s.born.Keys + {s.nextId} && s'.users.Keys == s.users.Keys + {s.nextId};
  }

  lemma InsertTold(s: State, s': State, u: User, added: seq<AuditRow>)
    requires AuditInv(s) && Insertion(s, s', u, added)
    ensures AuditInv(s')
  {
    InsertRowsOk(s, s', u, added);
    InsertKeys(s, s', u, added);
    forall id | id in s'.users ensures id in s'.born && Told(s', id) {
      InsertTells(s, s', u, added, id);
    }
  }

  lemma StepTold(s: State, l: Label)
    requires AuditInv(s) && Enabled(s, l)
    ensures AuditInv(Next(s, l))
  {
    match l
    case Finish(t) => FinishTold(s, t);
    case Create(actor, u) => InsertTold(s, Next(s, l), u, [AuditRow(actor, s.nextId, UserCreated(u.role))]);
    case Register(u) => InsertTold(s, Next(s, l), u, []);
    case _ => SameTold(s, Next(s, l));
  }

  /**
    Over every run from a table at rest: for each user the committed role transitions form a chain from
    the role at creation to the present role, likewise the status transitions.
   */
  lemma {:induction false} AuditTellsHistory(s: State, ls: seq<Label>)
    requires AuditInv(s) && Valid(s, ls)
    ensures AuditInv(Exec(s, ls))
    decreases |ls|
  {
    if ls != [] {
      StepTold(s, ls[0]);
      AuditTellsHistory(Next(s, ls[0]), ls[1..]);
    }
  }

  lemma {:induction false} AuditStarts(users: map<Id, User>, n: nat)
    requires forall id :: id in users ==> id < n
    ensures AuditInv(Quiescent(users, n))
  {
    var s := Quiescent(users, n);
    forall id | id in s.users ensures Told(s, id) {}
  }

  /**
    So over every run from a table at rest, each of its users has an audit trail that chains from the role
    and the status in that table to the present ones.
   */
  lemma {:induction false} TableTellsHistory(users: map<Id, User>, n: nat, ls: seq<Label>, id: Id)
    requires (forall i :: i in users ==> i < n) && id in users
    requires Valid(Quiescent(users, n), ls)
    ensures var s := Exec(Quiescent(users, n), ls);
            && id in s.users
            && Chain(users[id].role, RoleTrail(s.audit, id), s.users[id].role)
            && Chain(users[id].active, StatusTrail(s.audit, id), s.users[id].active)
  {
    AuditStarts(users, n);
    AuditTellsHistory(Quiescent(users, n), ls);
    BornStays(Quiescent(users, n), ls, id);
  }

  /** What a user was inserted as is never rewritten. */
  lemma {:induction false} BornStays(s: State, ls: seq<Label>, id: Id)
    requires AuditInv(s) && Valid(s, ls) && id in s.born
    ensures id in Exec(s, ls).born && Exec(s, ls).born[id] == s.born[id]
    decreases |ls|
  {
    if ls != [] {
      StepTold(s, ls[0]);
      assert s.nextId !in s.users;
      BornStays(Next(s, ls[0]), ls[1..], id);
    }
  }

  /** A step that changes an existing user's role or status commits exactly the row that says so. */
  lemma {:induction false} NoSilentChange(s: State, l: Label, id: Id)
    requires Enabled(s, l) && id in s.users && id < s.nextId
    ensures var u, u' := s.users[id], Next(s, l).users[id];
            (u.role != u'.role || u.active != u'.active) ==>
            exists row :: Next(s, l).audit == s.audit + [row]
              && RoleEntry(row, id) == (if row.action.RoleUpdated? || u.role != u'.role then [(u.role, u'.role)] else [])
              && StatusEntry(row, id) == (if row.action.StatusUpdated? || u.active != u'.active then [(u.active, u'.active)] else [])
  {
    if l.Finish? && FinishVerdict(s, l.t).Granted? {
      GrantedRow(s, l.t);
      var row := FinishVerdict(s, l.t).row;
      assert Next(s, l).audit == s.audit + [row];
    }
  }

  /** A refused, unchanged or aborted request leaves every row and the log as they were. */
  lemma {:induction false} RefusedLeavesNoTrace(s: State, l: Label)
    requires Enabled(s, l)
    requires l.Abort? || (l.Finish? && !FinishVerdict(s, l.t).Granted?)
    ensures Next(s, l).users == s.users && Next(s, l).audit == s.audit
    ensures forall t :: t != l.t ==> Held(Next(s, l), t) == Held(s, t)
    ensures Held(Next(s, l), l.t) == {}
  {
    var s' := Next(s, l);
    forall t | t != l.t ensures Held(s', t) == Held(s, t) {}
  }
}
