/**
  Concurrent role and status requests as small steps under PostgreSQL's Read Committed isolation
  (section 13.2.1 of the PostgreSQL manual). The first locking statement takes a snapshot of the active
  administrators and locks them one at a time in id order; a row that no longer matches leaves the result
  but stays locked. The second statement locks and re-reads the target. All locks last until the request ends.
 */
module AdminProtocol {
  import opened Wrappers
  import opened Users

  /** One database transaction, that is, one request. */
  type Tid = nat

  datatype Phase =
    | Submitted
    | Authorised
    // in the first statement: `snap[..done]` is locked, `kept` is what passed the re-test
    | Locking(snap: seq<Id>, done: nat, kept: seq<Id>)
    // both statements returned
    | Ready(snap: seq<Id>, kept: seq<Id>, found: bool)
    | Done(verdict: Option<Verdict>)

  datatype Txn = Txn(req: Request, phase: Phase)

  /** Committed rows, row locks, requests and the audit log; `born` records each row as it was inserted. */
  datatype State = State(
    users: map<Id, User>,
    nextId: nat,
    locks: map<Id, Tid>,
    txns: map<Tid, Txn>,
    audit: seq<AuditRow>,
    born: map<Id, User>)

  datatype Label =
    | Submit(t: Tid, req: Request)
    | Authorise(t: Tid)
    | Snapshot(t: Tid)
    | LockNext(t: Tid)
    | LockTarget(t: Tid)
    | ReadTarget(t: Tid)
    | Finish(t: Tid)
    | Abort(t: Tid)
    | Create(actor: Id, user: User)
    | Register(user: User)
    | Rehash(id: Id, hash: Hash)

  /** The row is not locked by another transaction. */
  predicate Free(s: State, id: Id, t: Tid) {
    id in s.locks ==> s.locks[id] == t
  }

  predicate Enabled(s: State, l: Label) {
    match l
    case Submit(t, _) => t !in s.txns
    case Authorise(t) => t in s.txns && s.txns[t].phase.Submitted?
    case Snapshot(t) => t in s.txns && s.txns[t].phase.Authorised? && LocksRows(s.txns[t].req)
    case ReadTarget(t) => t in s.txns && s.txns[t].phase.Authorised? && !LocksRows(s.txns[t].req)
    case LockNext(t) =>
      && t in s.txns && s.txns[t].phase.Locking?
      && var p := s.txns[t].phase;
      && p.done < |p.snap| && Free(s, p.snap[p.done], t)
    case LockTarget(t) =>
      && t in s.txns && s.txns[t].phase.Locking?
      && s.txns[t].phase.done == |s.txns[t].phase.snap|
      && (s.txns[t].req.target in s.users ==> Free(s, s.txns[t].req.target, t))
    case Finish(t) =>
      && t in s.txns && s.txns[t].phase.Ready?
      && (s.txns[t].phase.found ==> s.txns[t].req.target in s.users && Free(s, s.txns[t].req.target, t))
    case Abort(t) => t in s.txns && !s.txns[t].phase.Done?
    case Create(_, u) => u.active && !Clashes(s.users, None, Some(u.username), u.email)
    case Register(u) => u.active && u.role == Viewer && !Clashes(s.users, None, Some(u.username), u.email)
    case Rehash(id, _) => id in s.users && id !in s.locks
  }

  function Released(locks: map<Id, Tid>, t: Tid): map<Id, Tid> {
    map id | id in locks && locks[id] != t :: locks[id]
  }

  function InPhase(s: State, t: Tid, p: Phase): State
    requires t in s.txns
  {
    s.(txns := s.txns[t := s.txns[t].(phase := p)])
  }

  function Authorisation(s: State, actor: Id): Phase {
    if actor in s.users && ActiveAdmin(s.users[actor]) then Authorised else Done(None)
  }

  /** The verdict a request whose statements have returned reaches against the committed rows. */
  function FinishVerdict(s: State, t: Tid): Verdict
    requires Enabled(s, Finish(t))
  {
    var x := s.txns[t];
    Decide(s.users, x.req, if x.phase.found then Some(s.users[x.req.target]) else None, |x.phase.kept|)
  }

  function Finished(s: State, t: Tid): State
    requires Enabled(s, Finish(t))
  {
    var v := FinishVerdict(s, t);
    InPhase(s, t, Done(Some(v))).(
      users := Written(s.users, s.txns[t].req.target, v),
      audit := if v.Granted? then s.audit + [v.row] else s.audit,
      locks := Released(s.locks, t))
  }

  function Inserted(s: State, u: User): State {
    s.(users := s.users[s.nextId := u], born := s.born[s.nextId := u], nextId := s.nextId + 1)
  }

  function Next(s: State, l: Label): State
    requires Enabled(s, l)
  {
    match l
    case Submit(t, req) => s.(txns := s.txns[t := Txn(req, Submitted)])
    case Authorise(t) => InPhase(s, t, Authorisation(s, s.txns[t].req.actor))
    case Snapshot(t) => InPhase(s, t, Locking(ActiveAdmins(s.users, s.nextId), 0, []))
    case ReadTarget(t) => InPhase(s, t, Ready([], [], s.txns[t].req.target in s.users))
    case LockNext(t) =>
      var p := s.txns[t].phase;
      var id := p.snap[p.done];
      var kept := if id in s.users && ActiveAdmin(s.users[id]) then p.kept + [id] else p.kept;
      InPhase(s, t, Locking(p.snap, p.done + 1, kept)).(locks := s.locks[id := t])
    case LockTarget(t) =>
      var p := s.txns[t].phase;
      var target := s.txns[t].req.target;
      if target in s.users then
        InPhase(s, t, Ready(p.snap, p.kept, true)).(locks := s.locks[target := t])
      else
        InPhase(s, t, Ready(p.snap, p.kept, false))
    case Finish(t) => Finished(s, t)
    case Abort(t) => InPhase(s, t, Done(None)).(locks := Released(s.locks, t))
    case Create(actor, u) =>
      Inserted(s, u).(audit := s.audit + [AuditRow(actor, s.nextId, UserCreated(u.role))])
    case Register(u) => Inserted(s, u)
    case Rehash(id, hash) => s.(users := s.users[id := s.users[id].(hash := hash)])
  }

  // ----- runs

  predicate Valid(s: State, ls: seq<Label>)
    decreases |ls|
  {
    ls == [] || (Enabled(s, ls[0]) && Valid(Next(s, ls[0]), ls[1..]))
  }

  function Exec(s: State, ls: seq<Label>): State
    requires Valid(s, ls)
    decreases |ls|
  {
    if ls == [] then s else Exec(Next(s, ls[0]), ls[1..])
  }

  /** A user table with no request under way. */
  function Quiescent(users: map<Id, User>, n: nat): State {
    State(users, n, map[], map[], [], users)
  }

  // ----- the invariant

  function Held(s: State, t: Tid): set<Id> {
    set id | id in s.locks && s.locks[id] == t
  }

  /** Locked, re-tested administrators are still administrators. */
  ghost predicate KeptOk(s: State, t: Tid, kept: seq<Id>) {
    && Ascending(kept)
    && forall id :: id in kept ==> id in s.locks && s.locks[id] == t && id in s.users && ActiveAdmin(s.users[id])
  }

  ghost predicate TxnOk(s: State, t: Tid)
    requires t in s.txns
  {
    var x := s.txns[t];
    match x.phase
    case Submitted => Held(s, t) == {}
    case Authorised => Held(s, t) == {}
    case Done(_) => Held(s, t) == {}
    case Locking(snap, done, kept) =>
      && LocksRows(x.req)
      && Ascending(snap) && Range(snap) <= s.users.Keys
      && done <= |snap| && Held(s, t) == Range(snap[..done])
      && KeptOk(s, t, kept) && Range(kept) <= Range(snap[..done])
    case Ready(snap, kept, found) =>
      && (found ==> x.req.target in s.users)
      && KeptOk(s, t, kept)
      && if LocksRows(x.req)
         then Held(s, t) == Range(snap) + (if found then {x.req.target} else {})
         else Held(s, t) == {} && kept == []
  }

  ghost predicate Inv(s: State) {
    && (forall id :: id in s.users ==> id < s.nextId)
    && (forall id :: id in s.locks ==> id in s.users && s.locks[id] in s.txns)
    && (forall t :: t in s.txns ==> TxnOk(s, t))
  }

  lemma QuiescentInv(users: map<Id, User>, n: nat)
    requires forall id :: id in users ==> id < n
    ensures Inv(Quiescent(users, n))
  {
  }

  /** A transaction is not disturbed by a step that leaves its locks and its locked administrators alone. */
  lemma Frame(s: State, s': State, u: Tid)
    requires u in s.txns && TxnOk(s, u)
    requires u in s'.txns && s'.txns[u] == s.txns[u]
    requires Held(s', u) == Held(s, u)
    requires s.users.Keys <= s'.users.Keys
    requires forall id :: id in Held(s, u) && id in s.users && ActiveAdmin(s.users[id]) ==> ActiveAdmin(s'.users[id])
    ensures TxnOk(s', u)
  {
    forall id | id in Held(s, u) ensures id in s'.locks && s'.locks[id] == u {
      assert id in Held(s', u);
    }
    match s.txns[u].phase
    case Locking(snap, done, kept) =>
      forall id | id in kept ensures id in Held(s, u) {}
    case Ready(snap, kept, found) =>
      forall id | id in kept ensures id in Held(s, u) {}
    case _ =>
  }

  /** Locks and administrators of every transaction but `t` are the same in both states. */
  ghost predicate OthersKept(s: State, s': State, t: Tid) {
    && s.users.Keys <= s'.users.Keys
    && (forall u :: u != t ==> (u in s.txns <==> u in s'.txns))
    && (forall u :: u in s.txns && u != t ==> s'.txns[u] == s.txns[u])
    && (forall id :: id in s.locks && s.locks[id] != t ==> id in s'.locks && s'.locks[id] == s.locks[id])
    && (forall id :: id in s'.locks && s'.locks[id] != t ==> id in s.locks && s'.locks[id] == s.locks[id])
    && (forall id :: id in s.users && id in s.locks && s.locks[id] != t && ActiveAdmin(s.users[id]) ==> ActiveAdmin(s'.users[id]))
  }

  lemma FrameOthers(s: State, s': State, t: Tid)
    requires Inv(s) && OthersKept(s, s', t)
    ensures forall u :: u in s'.txns && u != t ==> TxnOk(s', u)
  {
    forall u | u in s'.txns && u != t ensures TxnOk(s', u) {
      assert Held(s', u) == Held(s, u);
      Frame(s, s', u);
    }
  }

  lemma Taken(snap: seq<Id>, done: nat)
    requires done < |snap|
    ensures Range(snap[..done + 1]) == Range(snap[..done]) + {snap[done]}
  {
    assert snap[..done + 1] == snap[..done] + [snap[done]];
  }

  /** Ids kept so far come before the next id of the snapshot. */
  lemma KeptBefore(snap: seq<Id>, done: nat, kept: seq<Id>)
    requires Ascending(snap) && done < |snap|
    requires Ascending(kept) && Range(kept) <= Range(snap[..done])
    ensures Ascending(kept + [snap[done]])
  {
    forall i | 0 <= i < |kept| ensures kept[i] < snap[done] {
      assert kept[i] in Range(kept);
      assert kept[i] in snap[..done];
    }
  }

  lemma LockNextOk(s: State, t: Tid)
    requires Inv(s) && Enabled(s, LockNext(t))
    ensures TxnOk(Next(s, LockNext(t)), t)
  {
    var s' := Next(s, LockNext(t));
    var Locking(snap, done, kept) := s.txns[t].phase;
    var id := snap[done];
    assert Held(s', t) == Held(s, t) + {id};
    Taken(snap, done);
    KeptBefore(snap, done, kept);
    var kept' := s'.txns[t].phase.kept;
    assert Range(kept + [id]) == Range(kept) + {id};
    assert Ascending(kept');
    forall i | i in kept' ensures i in s'.locks && s'.locks[i] == t && i in s'.users && ActiveAdmin(s'.users[i]) {
      assert i in kept || (i == id && ActiveAdmin(s.users[id]));
    }
  }

  lemma LockNextInv(s: State, t: Tid)
    requires Inv(s) && Enabled(s, LockNext(t))
    ensures Inv(Next(s, LockNext(t)))
  {
    var s' := Next(s, LockNext(t));
    LockNextOk(s, t);
    var p := s.txns[t].phase;
    assert p.snap[p.done] in Range(p.snap);
    FrameOthers(s, s', t);
  }

  lemma LockTargetOk(s: State, t: Tid)
    requires Inv(s) && Enabled(s, LockTarget(t))
    ensures TxnOk(Next(s, LockTarget(t)), t)
  {
    var s' := Next(s, LockTarget(t));
    var p := s.txns[t].phase;
    assert TxnOk(s, t);
    assert p.snap[..p.done] == p.snap;
    if s.txns[t].req.target in s.users {
      assert Held(s', t) == Held(s, t) + {s.txns[t].req.target};
    } else {
      assert Held(s', t) == Held(s, t);
    }
  }

  lemma LockTargetInv(s: State, t: Tid)
    requires Inv(s) && Enabled(s, LockTarget(t))
    ensures Inv(Next(s, LockTarget(t)))
  {
    LockTargetOk(s, t);
    FrameOthers(s, Next(s, LockTarget(t)), t);
  }

  /** A write that lands on a row no transaction but `t` holds spares the administrators the others hold. */
  lemma FinishInv(s: State, t: Tid)
    requires Inv(s) && Enabled(s, Finish(t))
    ensures Inv(Next(s, Finish(t)))
  {
    var s' := Next(s, Finish(t));
    assert Held(s', t) == {};
    FrameOthers(s, s', t);
  }

  lemma InsertInv(s: State, s': State, u: User)
    requires Inv(s)
    requires s'.users == s.users[s.nextId := u] && s'.nextId == s.nextId + 1
    requires s'.locks == s.locks && s'.txns == s.txns
    ensures Inv(s')
  {
    forall x | x in s'.txns ensures TxnOk(s', x) {
      assert Held(s', x) == Held(s, x);
      Frame(s, s', x);
    }
  }

  lemma RehashInv(s: State, id: Id, hash: Hash)
    requires Inv(s) && Enabled(s, Rehash(id, hash))
    ensures Inv(Next(s, Rehash(id, hash)))
  {
    var s' := Next(s, Rehash(id, hash));
    forall u | u in s'.txns ensures TxnOk(s', u) {
      assert Held(s', u) == Held(s, u);
      Frame(s, s', u);
    }
  }

  /** The steps that lock nothing: submission, authorisation, snapshot, unlocked read, abort. */
  lemma LocklessInv(s: State, l: Label)
    requires Inv(s) && Enabled(s, l)
    requires l.Submit? || l.Authorise? || l.Snapshot? || l.ReadTarget? || l.Abort?
    ensures Inv(Next(s, l))
  {
    var s' := Next(s, l);
    assert Held(s', l.t) == {};
    FrameOthers(s, s', l.t);
    if l.Snapshot? {
      assert s'.txns[l.t].phase.snap[..0] == [];
    }
  }

  /** Every step keeps the invariant. */
  lemma StepInv(s: State, l: Label)
    requires Inv(s) && Enabled(s, l)
    ensures Inv(Next(s, l))
  {
    match l
    case LockNext(t) => LockNextInv(s, t);
    case LockTarget(t) => LockTargetInv(s, t);
    case Finish(t) => FinishInv(s, t);
    case Create(_, u) => InsertInv(s, Next(s, l), u);
    case Register(u) => InsertInv(s, Next(s, l), u);
    case Rehash(id, hash) => RehashInv(s, id, hash);
    case _ => LocklessInv(s, l);
  }

  lemma {:induction false} RunInv(s: State, ls: seq<Label>)
    requires Inv(s) && Valid(s, ls)
    ensures Inv(Exec(s, ls))
    decreases |ls|
  {
    if ls != [] {
      StepInv(s, ls[0]);
      RunInv(Next(s, ls[0]), ls[1..]);
    }
  }
}
