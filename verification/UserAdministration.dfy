/** The administration routes as one request runs them, over the table and the audit log they update. */
module UserAdministration {
  import opened Wrappers
  import opened Users

  class UserTable {
    var users: map<Id, User>
    var nextId: nat
    var audit: seq<AuditRow>

    ghost predicate Valid()
      reads this
    {
      forall id :: id in users ==> id < nextId
    }

    /** The bootstrap command on an empty table: it sets role and status itself. */
    constructor (username: string, email: Option<string>, hash: Hash)
      ensures Valid() && HasActiveAdmin(users)
      ensures users == map[0 := User(username, email, hash, Admin, true)] && audit == []
    {
      users, nextId, audit := map[0 := User(username, email, hash, Admin, true)], 1, [];
      new;
      assert 0 in users && ActiveAdmin(users[0]);
    }

    /** The two locking statements with nobody else about: the active administrators in id order, and the row. */
    method LockUserManagementRows(target: Id) returns (user: Option<User>, admins: seq<Id>)
      requires Valid()
      ensures user.Some? <==> target in users
      ensures user.Some? ==> user.value == users[target]
      ensures Ascending(admins)
      ensures forall id :: id in admins <==> id in users && ActiveAdmin(users[id])
      ensures admins == ActiveAdmins(users, nextId)
    {
      admins := [];
      for id := 0 to nextId
        invariant admins == ActiveAdmins(users, id)
      {
        if id in users && ActiveAdmin(users[id]) {
          admins := admins + [id];
        }
      }
      user := if target in users then Some(users[target]) else None;
    }

    method CreateUser(actor: Id, username: string, email: Option<string>, hash: Hash, role: Role)
      returns (created: Option<Id>)
      requires Valid()
      modifies this
      ensures Valid()
      ensures created.None? <==>
                exists u :: u in old(users).Values && (u.username == username || (email.Some? && u.email == email))
      ensures created.None? ==> users == old(users) && audit == old(audit)
      ensures created.Some? ==>
                && created.value !in old(users)
                && users == old(users)[created.value := User(username, email, hash, role, true)]
                && audit == old(audit) + [AuditRow(actor, created.value, UserCreated(role))]
      ensures old(HasActiveAdmin(users)) ==> HasActiveAdmin(users)
      ensures old(UniqueNames(users)) ==> UniqueNames(users)
    {
      ghost var before := users;
      if Clashes(users, None, Some(username), email) {
        return None;
      }
      InsertIfUnique(users, nextId, User(username, email, hash, role, true));
      users := users[nextId := User(username, email, hash, role, true)];
      audit := audit + [AuditRow(actor, nextId, UserCreated(role))];
      created := Some(nextId);
      nextId := nextId + 1;
      assert forall id :: id in before ==> id in users && users[id] == before[id];
    }

    method UpdateUserRole(actor: Id, target: Id, role: Role) returns (v: Verdict)
      requires Valid()
      modifies this
      ensures Valid()
      ensures v == old(DecideAlone(users, nextId, PutRole(actor, target, role)))
      ensures v.NotFound? <==> target !in old(users)
      ensures v.OwnAccount? <==> target in old(users) && target == actor
      ensures v.LastAdmin? <==> target in old(users) && target != actor && old(users)[target].role == Admin
                                && old(users)[target].active && role != Admin && NoOtherAdmin(old(users), target)
      ensures !v.Granted? ==> users == old(users) && audit == old(audit)
      ensures v.Granted? ==>
                && users == old(users)[target := old(users)[target].(role := role)]
                && audit == old(audit) + [AuditRow(actor, target, RoleUpdated(old(users)[target].role, role))]
      ensures old(HasActiveAdmin(users)) ==> HasActiveAdmin(users)
    {
      AloneWhenAny(users, nextId, PutRole(actor, target, role));
      RoleAnswer(users, nextId, actor, target, role);
      var user, admins := LockUserManagementRows(target);
      if user.None? {
        return NotFound;
      }
      if target == actor {
        return OwnAccount;
      }
      var ok := ActiveAdminRemains(user.value, admins, Some(role), None);
      if !ok {
        return LastAdmin;
      }
      var oldRole := user.value.role;
      users := users[target := user.value.(role := role)];
      v := Granted(users[target], AuditRow(actor, target, RoleUpdated(oldRole, role)));
      audit := audit + [v.row];
    }

    method UpdateUserStatus(actor: Id, target: Id, active: bool) returns (v: Verdict)
      requires Valid()
      modifies this
      ensures Valid()
      ensures v == old(DecideAlone(users, nextId, PutStatus(actor, target, active)))
      ensures v.NotFound? <==> target !in old(users)
      ensures v.OwnAccount? <==> target in old(users) && target == actor && !active
      ensures v.LastAdmin? <==> target in old(users) && target != actor && old(users)[target].role == Admin
                                && old(users)[target].active && !active && NoOtherAdmin(old(users), target)
      ensures !v.Granted? ==> users == old(users) && audit == old(audit)
      ensures v.Granted? ==>
                && users == old(users)[target := old(users)[target].(active := active)]
                && audit == old(audit) + [AuditRow(actor, target, StatusUpdated(old(users)[target].active, active))]
      ensures old(HasActiveAdmin(users)) ==> HasActiveAdmin(users)
    {
      AloneWhenAny(users, nextId, PutStatus(actor, target, active));
      StatusAnswer(users, nextId, actor, target, active);
      var user, admins := LockUserManagementRows(target);
      if user.None? {
        return NotFound;
      }
      if target == actor && !active {
        return OwnAccount;
      }
      var ok := ActiveAdminRemains(user.value, admins, None, Some(active));
      if !ok {
        return LastAdmin;
      }
      var oldStatus := user.value.active;
      users := users[target := user.value.(active := active)];
      v := Granted(users[target], AuditRow(actor, target, StatusUpdated(oldStatus, active)));
      audit := audit + [v.row];
    }

    /** PATCH: locks only for a role or a status, and skips the last-administrator check on an empty list. */
    method UpdateUser(actor: Id, target: Id, c: Changes) returns (v: Verdict)
      requires Valid()
      modifies this
      ensures Valid()
      ensures v == old(DecideAlone(users, nextId, Patch(actor, target, c)))
      ensures v.NotFound? <==> target !in old(users)
      ensures v.OwnAccount? <==> target in old(users) && target == actor
      ensures v.LastAdmin? <==> target in old(users) && target != actor && old(users)[target].role == Admin
                                && old(users)[target].active
                                && ((c.role.Some? && c.role.value != Admin) || c.active == Some(false))
                                && NoOtherAdmin(old(users), target)
      ensures v.Clash? <==> target in old(users) && target != actor && !v.LastAdmin? && Duplicate(old(users), target, c)
      ensures v.Unchanged? <==> target in old(users) && target != actor && !v.LastAdmin? && !Duplicate(old(users), target, c)
                                && c.hash.None? && FieldsSet(old(users)[target], old(users)[target], c)
      ensures !v.Granted? ==> users == old(users) && audit == old(audit)
      ensures v.Granted? ==>
                && target in users && users == old(users)[target := users[target]]
                && FieldsSet(old(users)[target], users[target], c)
                && audit == old(audit) + [AuditRow(actor, target, UserUpdated(
                     if users[target].role != old(users)[target].role then Some((old(users)[target].role, users[target].role)) else None,
                     if users[target].active != old(users)[target].active then Some((old(users)[target].active, users[target].active)) else None))]
      ensures old(HasActiveAdmin(users)) ==> HasActiveAdmin(users)
      ensures old(UniqueNames(users)) ==> UniqueNames(users)
    {
      AloneWhenAny(users, nextId, Patch(actor, target, c));
      PatchAnswer(users, nextId, actor, target, c);
      WriteIfUnique(users, nextId, Patch(actor, target, c));
      var user, admins;
      if c.role.Some? || c.active.Some? {
        user, admins := LockUserManagementRows(target);
      } else {
        user, admins := if target in users then Some(users[target]) else None, [];
      }
      if user.None? {
        return NotFound;
      }
      v := DecidePatch(users, user.value, admins, actor, target, c);
      if v.Granted? {
        users := users[target := v.user];
        audit := audit + [v.row];
      }
    }
  }

  /** `_ensure_active_admin_remains`: false where the route answers with its 400 error. */
  method ActiveAdminRemains(user: User, admins: seq<Id>, newRole: Option<Role>, newActive: Option<bool>)
    returns (ok: bool)
    ensures !ok <==> |admins| <= 1 && ActiveAdmin(user)
                     && !ActiveAdmin(user.(role := GetOr(newRole, user.role), active := GetOr(newActive, user.active)))
  {
    var effectiveRole := GetOr(newRole, user.role);
    var effectiveActive := GetOr(newActive, user.active);
    var removes := user.role == Admin && user.active && (effectiveRole != Admin || !effectiveActive);
    ok := !(removes && |admins| <= 1);
  }

  /** The part of `update_user` between reading its rows and committing. */
  method DecidePatch(users: map<Id, User>, user: User, admins: seq<Id>, actor: Id, target: Id, c: Changes)
    returns (v: Verdict)
    ensures v == Decide(users, Patch(actor, target, c), Some(user), |admins|)
  {
    if target == actor {
      return OwnAccount;
    }
    if admins != [] {
      var ok := ActiveAdminRemains(user, admins, c.role, c.active);
      if !ok {
        return LastAdmin;
      }
    }
    if Clashes(users, Some(target), c.username, GetOr(c.email, None)) {
      return Clash;
    }
    var row, roleChange, statusChange, changed := SetChangedFields(user, c);
    if !changed {
      return Unchanged;
    }
    v := Granted(row, AuditRow(actor, target, UserUpdated(roleChange, statusChange)));
  }

  /** Assigns each field of the body that differs from the row and notes the role and status transitions. */
  method SetChangedFields(user: User, c: Changes)
    returns (row: User, roleChange: Option<(Role, Role)>, statusChange: Option<(bool, bool)>, changed: bool)
    ensures row == ApplyChanges(user, c)
    ensures changed <==> c.hash.Some? || row != user
    ensures roleChange == if row.role != user.role then Some((user.role, row.role)) else None
    ensures statusChange == if row.active != user.active then Some((user.active, row.active)) else None
  {
    row, roleChange, statusChange, changed := user, None, None, false;
    if c.username.Some? && c.username.value != row.username {
      row, changed := row.(username := c.username.value), true;
    }
    if c.email.Some? && c.email.value != row.email {
      row, changed := row.(email := c.email.value), true;
    }
    if c.role.Some? && c.role.value != row.role {
      roleChange, changed := Some((row.role, c.role.value)), true;
      row := row.(role := c.role.value);
    }
    if c.active.Some? && c.active.value != row.active {
      statusChange, changed := Some((row.active, c.active.value)), true;
      row := row.(active := c.active.value);
    }
    if c.hash.Some? {
      row, changed := row.(hash := c.hash.value), true;
    }
  }

  /** `AloneKeepsAdmin` wherever it applies. */
  lemma AloneWhenAny(users: map<Id, User>, n: nat, r: Request)
    requires forall id :: id in users ==> id < n
    ensures HasActiveAdmin(users) ==> HasActiveAdmin(Written(users, r.target, DecideAlone(users, n, r)))
  {
    if HasActiveAdmin(users) {
      AloneKeepsAdmin(users, n, r);
    }
  }

  lemma InsertIfUnique(users: map<Id, User>, id: Id, u: User)
    requires id !in users && !Clashes(users, None, Some(u.username), u.email)
    ensures UniqueNames(users) ==> UniqueNames(users[id := u])
  {
    if UniqueNames(users) {
      InsertKeepsNames(users, id, u);
    }
  }

  lemma WriteIfUnique(users: map<Id, User>, n: nat, r: Request)
    ensures UniqueNames(users) ==> UniqueNames(Written(users, r.target, DecideAlone(users, n, r)))
  {
    if UniqueNames(users) && r.target in users {
      WriteKeepsNames(users, r, |ActiveAdmins(users, n)|);
    }
  }
}
