/** The `users` table and the decision each administration route takes once it has its rows. */
module Users {
  import opened Wrappers

  /** Primary key of a user row; the sequence hands out ids in increasing order. */
  type Id = nat

  /** A salted password hash. */
  type Hash = string

  datatype Role = Admin | Operator | Viewer

  datatype User = User(username: string, email: Option<string>, hash: Hash, role: Role, active: bool)

  /** The fields a PATCH body sets; `Some(None)` for the email clears it. */
  datatype Changes = Changes(
    username: Option<string>,
    email: Option<Option<string>>,
    role: Option<Role>,
    active: Option<bool>,
    hash: Option<Hash>)

  /** The three routes that may change a role or a status, each with the acting user and the target. */
  datatype Request =
    | PutRole(actor: Id, target: Id, role: Role)
    | PutStatus(actor: Id, target: Id, active: bool)
    | Patch(actor: Id, target: Id, changes: Changes)

  datatype Action =
    | UserCreated(role: Role)
    | RoleUpdated(oldRole: Role, newRole: Role)
    | StatusUpdated(oldActive: bool, newActive: bool)
    | UserUpdated(roleChange: Option<(Role, Role)>, statusChange: Option<(bool, bool)>)

  datatype AuditRow = AuditRow(actor: Id, subject: Id, action: Action)

  /** What a route does with a request: one of its error answers, a no-op, or a write with its audit row. */
  datatype Verdict =
    | NotFound
    | OwnAccount
    | LastAdmin
    | Clash
    | Unchanged
    | Granted(user: User, row: AuditRow)

  predicate ActiveAdmin(u: User) {
    u.role == Admin && u.active
  }

  ghost predicate HasActiveAdmin(users: map<Id, User>) {
    exists id :: id in users && ActiveAdmin(users[id])
  }

  /** `id` is the one active administrator of the table. */
  ghost predicate SoleAdmin(users: map<Id, User>, id: Id) {
    id in users && ActiveAdmin(users[id]) && forall j :: j in users && ActiveAdmin(users[j]) ==> j == id
  }

  predicate Ascending(ids: seq<Id>) {
    forall i, j :: 0 <= i < j < |ids| ==> ids[i] < ids[j]
  }

  function Range(ids: seq<Id>): set<Id> {
    set id | id in ids
  }

  /** The active administrators with an id below `n`, in id order. */
  function ActiveAdmins(users: map<Id, User>, n: nat): (ids: seq<Id>)
    ensures Ascending(ids)
    ensures forall id :: id in ids <==> id < n && id in users && ActiveAdmin(users[id])
  {
    if n == 0 then []
    else
      var below := ActiveAdmins(users, n - 1);
      assert forall i :: 0 <= i < |below| ==> below[i] in below;
      if n - 1 in users && ActiveAdmin(users[n - 1]) then below + [n - 1] else below
  }

  /** Whether the request goes through the two locking statements. */
  predicate LocksRows(r: Request) {
    r.Patch? ==> r.changes.role.Some? || r.changes.active.Some?
  }

  function NewRole(r: Request): Option<Role> {
    match r
    case PutRole(_, _, role) => Some(role)
    case PutStatus(_, _, _) => None
    case Patch(_, _, c) => c.role
  }

  function NewActive(r: Request): Option<bool> {
    match r
    case PutRole(_, _, _) => None
    case PutStatus(_, _, active) => Some(active)
    case Patch(_, _, c) => c.active
  }

  /** The request would take active-administrator status away from a user in state `u`. */
  predicate RemovesActiveAdmin(u: User, r: Request) {
    && ActiveAdmin(u)
    && ((NewRole(r).Some? && NewRole(r).value != Admin) || (NewActive(r).Some? && !NewActive(r).value))
  }

  /** Another row already has the username, or the non-null email. */
  predicate Clashes(users: map<Id, User>, self: Option<Id>, username: Option<string>, email: Option<string>) {
    exists id :: id in users && Some(id) != self
              && (Some(users[id].username) == username || (email.Some? && users[id].email == email))
  }

  function GetOr<T>(o: Option<T>, default: T): T {
    if o.Some? then o.value else default
  }

  function ApplyChanges(u: User, c: Changes): User {
    User(GetOr(c.username, u.username), GetOr(c.email, u.email), GetOr(c.hash, u.hash),
         GetOr(c.role, u.role), GetOr(c.active, u.active))
  }

  function ChangeOf<T(==)>(before: T, after: Option<T>): Option<(T, T)> {
    if after.Some? && after.value != before then Some((before, after.value)) else None
  }

  /** No field of the body differs from the row, and no password is set. */
  predicate NothingChanges(u: User, c: Changes) {
    && c.hash.None?
    && GetOr(c.username, u.username) == u.username
    && GetOr(c.email, u.email) == u.email
    && GetOr(c.role, u.role) == u.role
    && GetOr(c.active, u.active) == u.active
  }

  /**
    The routes' decision for a request whose second statement returned `user` and whose first
    returned `kept` active administrators. Only PATCH skips the last-administrator check on an
    empty list.
   */
  function Decide(users: map<Id, User>, r: Request, user: Option<User>, kept: nat): Verdict {
    if user.None? then NotFound
    else
      var u := user.value;
      match r
      case PutRole(actor, target, role) =>
        if target == actor then OwnAccount
        else if RemovesActiveAdmin(u, r) && kept <= 1 then LastAdmin
        else Granted(u.(role := role), AuditRow(actor, target, RoleUpdated(u.role, role)))
      case PutStatus(actor, target, active) =>
        if target == actor && !active then OwnAccount
        else if RemovesActiveAdmin(u, r) && kept <= 1 then LastAdmin
        else Granted(u.(active := active), AuditRow(actor, target, StatusUpdated(u.active, active)))
      case Patch(actor, target, c) =>
        if target == actor then OwnAccount
        else if kept > 0 && RemovesActiveAdmin(u, r) && kept <= 1 then LastAdmin
        else if Clashes(users, Some(target), c.username, GetOr(c.email, None)) then Clash
        else if NothingChanges(u, c) then Unchanged
        else Granted(ApplyChanges(u, c),
                     AuditRow(actor, target, UserUpdated(ChangeOf(u.role, c.role), ChangeOf(u.active, c.active))))
  }

  function Lookup(users: map<Id, User>, id: Id): Option<User> {
    if id in users then Some(users[id]) else None
  }

  /** The decision of a request that runs alone: it sees the row and every active administrator. */
  function DecideAlone(users: map<Id, User>, n: nat, r: Request): Verdict {
    Decide(users, r, Lookup(users, r.target), |ActiveAdmins(users, n)|)
  }

  /** The table after a verdict on a request for `target`. */
  function Written(users: map<Id, User>, target: Id, v: Verdict): map<Id, User> {
    if v.Granted? then users[target := v.user] else users
  }

  // ----- properties of the decision

  lemma AscendingCount(ids: seq<Id>)
    requires Ascending(ids)
    ensures |Range(ids)| == |ids|
  {
    if ids != [] {
      var front, last := ids[..|ids| - 1], ids[|ids| - 1];
      AscendingCount(front);
      assert ids == front + [last];
      assert Range(ids) == Range(front) + {last};
      assert last !in Range(front);
    }
  }

  /** A list of distinct active administrators is no longer than the full one. */
  lemma {:induction false} KeptBound(users: map<Id, User>, n: nat, kept: seq<Id>)
    requires Ascending(kept)
    requires forall id :: id in kept ==> id < n && id in users && ActiveAdmin(users[id])
    ensures |kept| <= |ActiveAdmins(users, n)|
  {
    var all := ActiveAdmins(users, n);
    AscendingCount(kept);
    AscendingCount(all);
    assert Range(kept) <= Range(all);
    SubsetSize(Range(kept), Range(all));
  }

  lemma SubsetSize(a: set<Id>, b: set<Id>)
    requires a <= b
    ensures |a| <= |b|
  {
    assert b == a + (b - a);
  }

  /** Two distinct active administrators in the list leave one beside any single target. */
  lemma OtherAdminSurvives(users: map<Id, User>, kept: seq<Id>, target: Id, u: User)
    requires Ascending(kept) && |kept| >= 2
    requires forall id :: id in kept ==> id in users && ActiveAdmin(users[id])
    ensures HasActiveAdmin(users[target := u])
  {
    var other := if kept[0] == target then kept[1] else kept[0];
    assert other in kept && other != target;
    assert other in users[target := u];
  }

  /** A write that does not take active-administrator status away keeps every such user. */
  lemma {:induction false} HarmlessWrite(users: map<Id, User>, r: Request, kept: nat)
    requires r.target in users && !RemovesActiveAdmin(users[r.target], r)
    requires HasActiveAdmin(users)
    ensures HasActiveAdmin(Written(users, r.target, Decide(users, r, Some(users[r.target]), kept)))
  {
    var w := Written(users, r.target, Decide(users, r, Some(users[r.target]), kept));
    var id :| id in users && ActiveAdmin(users[id]);
    assert id in w && ActiveAdmin(w[id]);
  }

  /** A request that runs alone is refused as "last administrator" exactly for the sole active one. */
  lemma {:induction false} RefusedExactlyForSoleAdmin(users: map<Id, User>, n: nat, r: Request)
    requires forall id :: id in users ==> id < n
    ensures DecideAlone(users, n, r).LastAdmin? <==>
            r.target in users && r.target != r.actor
            && RemovesActiveAdmin(users[r.target], r) && SoleAdmin(users, r.target)
  {
    var all := ActiveAdmins(users, n);
    if r.target in users && ActiveAdmin(users[r.target]) {
      assert r.target in all;
      if |all| <= 1 {
        assert all == [r.target];
        forall j | j in users && ActiveAdmin(users[j]) ensures j == r.target {
          assert j in all;
        }
      } else {
        var other := if all[0] == r.target then all[1] else all[0];
        assert other in all && other != r.target;
      }
    }
  }

  /** Run alone, no request of any kind removes the last active administrator. */
  lemma {:induction false} AloneKeepsAdmin(users: map<Id, User>, n: nat, r: Request)
    requires forall id :: id in users ==> id < n
    requires HasActiveAdmin(users)
    ensures HasActiveAdmin(Written(users, r.target, DecideAlone(users, n, r)))
  {
    var v := DecideAlone(users, n, r);
    if v.Granted? {
      if RemovesActiveAdmin(users[r.target], r) {
        var all := ActiveAdmins(users, n);
        assert r.target in all;
        OtherAdminSurvives(users, all, r.target, v.user);
      } else {
        HarmlessWrite(users, r, |ActiveAdmins(users, n)|);
      }
    }
  }

  // ----- the answers, read off the request and the table

  /** No other user is an active administrator. */
  ghost predicate NoOtherAdmin(users: map<Id, User>, id: Id) {
    forall j :: j in users && users[j].role == Admin && users[j].active ==> j == id
  }

  /** PUT role: each answer exactly when, and what a granted request writes and records. */
  lemma {:induction false} RoleAnswer(users: map<Id, User>, n: nat, actor: Id, target: Id, role: Role)
    requires forall id :: id in users ==> id < n
    ensures var v := DecideAlone(users, n, PutRole(actor, target, role));
            && (v.NotFound? <==> target !in users)
            && (v.OwnAccount? <==> target in users && target == actor)
            && (v.LastAdmin? <==> target in users && target != actor
                                  && users[target].role == Admin && users[target].active && role != Admin
                                  && NoOtherAdmin(users, target))
            && !v.Clash? && !v.Unchanged?
            && (v.Granted? ==>
                  && v.user.role == role && v.user.active == users[target].active
                  && v.user.username == users[target].username && v.user.email == users[target].email
                  && v.user.hash == users[target].hash
                  && v.row == AuditRow(actor, target, RoleUpdated(users[target].role, role)))
  {
    RefusedExactlyForSoleAdmin(users, n, PutRole(actor, target, role));
  }

  /** PUT status: the same; only a deactivation is refused on the own account. */
  lemma {:induction false} StatusAnswer(users: map<Id, User>, n: nat, actor: Id, target: Id, active: bool)
    requires forall id :: id in users ==> id < n
    ensures var v := DecideAlone(users, n, PutStatus(actor, target, active));
            && (v.NotFound? <==> target !in users)
            && (v.OwnAccount? <==> target in users && target == actor && !active)
            && (v.LastAdmin? <==> target in users && target != actor
                                  && users[target].role == Admin && users[target].active && !active
                                  && NoOtherAdmin(users, target))
            && !v.Clash? && !v.Unchanged?
            && (v.Granted? ==>
                  && v.user.active == active && v.user.role == users[target].role
                  && v.user.username == users[target].username && v.user.email == users[target].email
                  && v.user.hash == users[target].hash
                  && v.row == AuditRow(actor, target, StatusUpdated(users[target].active, active)))
  {
    RefusedExactlyForSoleAdmin(users, n, PutStatus(actor, target, active));
  }

  /** Another user has the requested name, or the requested email that is not null. */
  ghost predicate Duplicate(users: map<Id, User>, target: Id, c: Changes) {
    exists id :: id in users && id != target
      && (c.username == Some(users[id].username)
          || (c.email.Some? && c.email.value.Some? && users[id].email == c.email.value))
  }

  /** Every field the body sets has the value it sets, every other field its old value. */
  ghost predicate FieldsSet(before: User, after: User, c: Changes) {
    && (if c.username.Some? then after.username == c.username.value else after.username == before.username)
    && (if c.email.Some? then after.email == c.email.value else after.email == before.email)
    && (if c.hash.Some? then after.hash == c.hash.value else after.hash == before.hash)
    && (if c.role.Some? then after.role == c.role.value else after.role == before.role)
    && (if c.active.Some? then after.active == c.active.value else after.active == before.active)
  }

  /** PATCH: the answers in the order of the route's checks, the row field by field, and the recorded transitions. */
  lemma {:induction false} PatchAnswer(users: map<Id, User>, n: nat, actor: Id, target: Id, c: Changes)
    requires forall id :: id in users ==> id < n
    ensures var v := DecideAlone(users, n, Patch(actor, target, c));
            && (v.NotFound? <==> target !in users)
            && (v.OwnAccount? <==> target in users && target == actor)
            && (v.LastAdmin? <==> target in users && target != actor
                                  && users[target].role == Admin && users[target].active
                                  && ((c.role.Some? && c.role.value != Admin) || c.active == Some(false))
                                  && NoOtherAdmin(users, target))
            && (v.Clash? <==> target in users && target != actor && !v.LastAdmin? && Duplicate(users, target, c))
            && (v.Unchanged? <==> target in users && target != actor && !v.LastAdmin? && !Duplicate(users, target, c)
                                  && c.hash.None? && FieldsSet(users[target], users[target], c))
            && (v.Granted? ==>
                  && FieldsSet(users[target], v.user, c)
                  && v.row == AuditRow(actor, target, UserUpdated(
                       if v.user.role != users[target].role then Some((users[target].role, v.user.role)) else None,
                       if v.user.active != users[target].active then Some((users[target].active, v.user.active)) else None)))
  {
    RefusedExactlyForSoleAdmin(users, n, Patch(actor, target, c));
    ClashIsDuplicate(users, target, c);
  }

  lemma ClashIsDuplicate(users: map<Id, User>, target: Id, c: Changes)
    ensures Clashes(users, Some(target), c.username, GetOr(c.email, None)) <==> Duplicate(users, target, c)
  {
  }

  /** A request that takes no lock can write neither a role nor a status. */
  lemma {:induction false} UnlockedWritesNoStatus(users: map<Id, User>, r: Request, u: User, kept: nat)
    requires !LocksRows(r) && Decide(users, r, Some(u), kept).Granted?
    ensures var after := Decide(users, r, Some(u), kept).user; after.role == u.role && after.active == u.active
  {
  }

  // ----- unique names

  /** The two unique indexes: usernames, and emails that are not null. */
  ghost predicate UniqueNames(users: map<Id, User>) {
    forall i, j {:trigger users[i], users[j]} :: i in users && j in users && i != j ==>
      users[i].username != users[j].username && (users[i].email.Some? ==> users[i].email != users[j].email)
  }

  lemma NamesWith(users: map<Id, User>, id: Id, u: User)
    requires UniqueNames(users)
    requires forall j :: j in users && j != id ==>
               users[j].username != u.username && (u.email.Some? ==> users[j].email != u.email)
    ensures UniqueNames(users[id := u])
  {
  }

  /** A new row whose name and email meet no duplicate fits in. */
  lemma InsertKeepsNames(users: map<Id, User>, id: Id, u: User)
    requires UniqueNames(users) && id !in users && !Clashes(users, None, Some(u.username), u.email)
    ensures UniqueNames(users[id := u])
  {
    forall j | j in users ensures users[j].username != u.username && (u.email.Some? ==> users[j].email != u.email) {
      assert Some(j) != None && Some(users[j].username) != Some(u.username);
    }
    NamesWith(users, id, u);
  }

  /** No route writes a name or an email that another user has. */
  lemma {:induction false} WriteKeepsNames(users: map<Id, User>, r: Request, kept: nat)
    requires UniqueNames(users) && r.target in users
    ensures UniqueNames(Written(users, r.target, Decide(users, r, Some(users[r.target]), kept)))
  {
    var u, v := users[r.target], Decide(users, r, Some(users[r.target]), kept);
    if v.Granted? {
      forall j | j in users && j != r.target
        ensures users[j].username != v.user.username && (v.user.email.Some? ==> users[j].email != v.user.email)
      {
        assert users[r.target].username != users[j].username;
        if r.Patch? {
          assert !(Some(users[j].username) == r.changes.username);
        }
      }
      NamesWith(users, r.target, v.user);
    }
  }
}
