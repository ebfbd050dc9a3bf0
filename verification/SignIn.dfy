/**
  Signing in as the statements it is made of, and what a bearer token is worth after renames, resets,
  rehashes, username reuse and deactivation that commit at any moment in between.
 */
module SignIn {
  import opened Wrappers
  import opened Users
  import Limiter = LoginLimiter

  /** The password version in a token; a free constructor, so the digest has no collisions. */
  datatype Digest = Sha256(of: Hash)

  /** The claims that bind a token to an account: the username and the password version. */
  datatype Token = Token(sub: string, pwd: Digest)

  /** A token as issued, with the account, the hash it was issued under and the password that was verified. */
  datatype Issued = Issued(token: Token, id: Id, hash: Hash, password: string)

  /** One request to `login`. */
  type Lid = nat

  /** A login whose password was right: the account's key, the password, and whether its rehash is still to come. */
  datatype Login = Login(id: Id, password: string, rehash: bool)

  /** Accounts, the password each hash ever stored was made from, logins under way, and issued tokens. */
  datatype State = State(users: map<Id, User>, nextId: nat, made: map<Hash, string>, logins: map<Lid, Login>, issued: set<Issued>)

  /** The row with a username; ids below `n`. */
  function ByUsername(users: map<Id, User>, n: nat, username: string): (r: Option<Id>)
    ensures r.Some? ==> r.value < n && r.value in users && users[r.value].username == username
    ensures r.None? ==> forall id :: id in users && id < n ==> users[id].username != username
  {
    if n == 0 then None
    else
      var r := ByUsername(users, n - 1, username);
      if r.None? && n - 1 in users && users[n - 1].username == username then Some(n - 1) else r
  }

  /** `get_current_user` on a token whose signature and expiry are in order. */
  function CurrentUser(s: State, t: Token): Option<Id> {
    var id := ByUsername(s.users, s.nextId, t.sub);
    if id.None? || !s.users[id.value].active || t.pwd != Sha256(s.users[id.value].hash) then None else id
  }

  // ----- the committed operations on accounts, and the statements of a login

  /**
    `Verify` reads the row and checks the password; `Rehash` commits the stronger hash of that password;
    `Issue` reads the row again, after the commits have expired it, and builds the token from it.
   */
  datatype Op =
    | Create(user: User, password: string)
    | Edit(id: Id, user: User, reset: Option<string>)
    | Verify(lid: Lid, username: string, given: string, needsUpdate: bool)
    | Rehash(lid: Lid, account: Id, verified: string, hash: Hash)
    | Issue(lid: Lid)

  /** No other account has the username. */
  predicate NameFree(users: map<Id, User>, username: string, self: Option<Id>) {
    forall id :: id in users && Some(id) != self ==> users[id].username != username
  }

  /** The unique index on usernames, the freshness of salted hashes, and the order of a login's statements. */
  predicate Possible(s: State, op: Op) {
    match op
    case Create(u, _) => NameFree(s.users, u.username, None) && u.hash !in s.made
    case Edit(id, u, reset) =>
      && id in s.users && NameFree(s.users, u.username, Some(id))
      && (if reset.Some? then u.hash !in s.made else u.hash == s.users[id].hash)
    case Verify(l, _, _, _) => l !in s.logins
    case Rehash(l, account, verified, hash) =>
      && l in s.logins && s.logins[l] == Login(account, verified, true)
      && account in s.users && hash !in s.made
    case Issue(l) => l in s.logins && !s.logins[l].rehash && s.logins[l].id in s.users
  }

  /** The login's account, when it is active and the password is right. */
  function Admitted(s: State, username: string, given: string): Option<Id> {
    var id := ByUsername(s.users, s.nextId, username);
    if id.Some? && s.users[id.value].active && Knows(s, s.users[id.value].hash, given) then id else None
  }

  /** `verify_password` */
  predicate Knows(s: State, hash: Hash, given: string) {
    hash in s.made && s.made[hash] == given
  }

  function TokenFor(u: User): Token {
    Token(u.username, Sha256(u.hash))
  }

  function Next(s: State, op: Op): State
    requires Possible(s, op)
  {
    match op
    case Create(u, password) =>
      s.(users := s.users[s.nextId := u], nextId := s.nextId + 1, made := s.made[u.hash := password])
    case Edit(id, u, reset) =>
      s.(users := s.users[id := u], made := if reset.Some? then s.made[u.hash := reset.value] else s.made)
    case Verify(l, username, given, needsUpdate) =>
      var id := Admitted(s, username, given);
      if id.None? then s else s.(logins := s.logins[l := Login(id.value, given, needsUpdate)])
    case Rehash(l, account, verified, hash) =>
      s.(users := s.users[account := s.users[account].(hash := hash)], made := s.made[hash := verified],
         logins := s.logins[l := Login(account, verified, false)])
    case Issue(l) =>
      var u := s.users[s.logins[l].id];
      s.(logins := s.logins - {l}, issued := s.issued + {Issued(TokenFor(u), s.logins[l].id, u.hash, s.logins[l].password)})
  }

  predicate ValidRun(s: State, ops: seq<Op>)
    decreases |ops|
  {
    ops == [] || (Possible(s, ops[0]) && ValidRun(Next(s, ops[0]), ops[1..]))
  }

  function Run(s: State, ops: seq<Op>): State
    requires ValidRun(s, ops)
    decreases |ops|
  {
    if ops == [] then s else Run(Next(s, ops[0]), ops[1..])
  }

  // ----- the invariant

  ghost predicate AccountsOk(users: map<Id, User>, n: nat, made: map<Hash, string>) {
    && (forall id :: id in users ==> id < n && users[id].hash in made)
    && (forall i, j {:trigger users[i], users[j]} :: i in users && j in users && i != j ==>
          users[i].username != users[j].username && users[i].hash != users[j].hash)
  }

  ghost predicate TokenOk(s: State, t: Issued) {
    && t.token.pwd == Sha256(t.hash) && t.hash in s.made && t.id < s.nextId
    && forall j :: j in s.users && s.users[j].hash == t.hash ==> j == t.id
  }

  ghost predicate Inv(s: State) {
    && AccountsOk(s.users, s.nextId, s.made)
    && (forall l :: l in s.logins ==> s.logins[l].id in s.users)
    && (forall t :: t in s.issued ==> TokenOk(s, t))
  }

  /** A row with a free name and a new hash, or its own, fits in. */
  lemma AccountsWith(users: map<Id, User>, n: nat, made: map<Hash, string>, id: Id, u: User, password: string)
    requires AccountsOk(users, n, made) && NameFree(users, u.username, Some(id)) && u.hash !in made
    ensures AccountsOk(users[id := u], if id < n then n else id + 1, made[u.hash := password])
  {
  }

  lemma AccountsRenamed(users: map<Id, User>, n: nat, made: map<Hash, string>, id: Id, u: User)
    requires AccountsOk(users, n, made) && id in users && NameFree(users, u.username, Some(id)) && u.hash == users[id].hash
    ensures AccountsOk(users[id := u], n, made)
  {
  }

  lemma StepAccounts(s: State, op: Op)
    requires Inv(s) && Possible(s, op)
    ensures AccountsOk(Next(s, op).users, Next(s, op).nextId, Next(s, op).made) && s.users.Keys <= Next(s, op).users.Keys
  {
    match op
    case Create(u, password) => AccountsWith(s.users, s.nextId, s.made, s.nextId, u, password);
    case Edit(id, u, reset) =>
      if reset.Some? {
        AccountsWith(s.users, s.nextId, s.made, id, u, reset.value);
      } else {
        AccountsRenamed(s.users, s.nextId, s.made, id, u);
      }
    case Rehash(_, id, verified, hash) =>
      AccountsWith(s.users, s.nextId, s.made, id, s.users[id].(hash := hash), verified);
    case _ =>
  }

  /** An account keeps its hash or gets a new one. */
  lemma StepHashes(s: State, op: Op, j: Id)
    requires Possible(s, op) && j in Next(s, op).users
    ensures Next(s, op).users[j].hash !in s.made || (j in s.users && Next(s, op).users[j].hash == s.users[j].hash)
    ensures s.made.Keys <= Next(s, op).made.Keys && s.nextId <= Next(s, op).nextId
    ensures forall h :: h in s.made ==> Next(s, op).made[h] == s.made[h]
  {
  }

  lemma StepTokens(s: State, op: Op, t: Issued)
    requires Inv(s) && Possible(s, op) && t in Next(s, op).issued
    ensures TokenOk(Next(s, op), t)
  {
    var s' := Next(s, op);
    if t in s.issued {
      forall j | j in s'.users && s'.users[j].hash == t.hash ensures j == t.id { StepHashes(s, op, j); }
    }
  }

  lemma {:induction false} StepInv(s: State, op: Op)
    requires Inv(s) && Possible(s, op)
    ensures Inv(Next(s, op))
  {
    var s' := Next(s, op);
    StepAccounts(s, op);
    forall t | t in s'.issued ensures TokenOk(s', t) { StepTokens(s, op, t); }
  }

  lemma {:induction false} RunInv(s: State, ops: seq<Op>)
    requires Inv(s) && ValidRun(s, ops)
    ensures Inv(Run(s, ops))
    decreases |ops|
  {
    if ops != [] {
      StepInv(s, ops[0]);
      RunInv(Next(s, ops[0]), ops[1..]);
    }
  }

  /**
    Over every run, whoever presents an issued token is the account it was issued to, still under the same
    password hash and active.
   */
  lemma {:induction false} AcceptedTokenIsBound(s: State, ops: seq<Op>, t: Issued)
    requires Inv(s) && ValidRun(s, ops)
    requires t in Run(s, ops).issued && CurrentUser(Run(s, ops), t.token).Some?
    ensures var e := Run(s, ops);
            && CurrentUser(e, t.token) == Some(t.id)
            && t.id in e.users && e.users[t.id].hash == t.hash && e.users[t.id].active
            && e.users[t.id].username == t.token.sub
  {
    RunInv(s, ops);
    assert TokenOk(Run(s, ops), t);
  }

  /** Exactly when an issued token is accepted: its account has the same name and hash as then and is active. */
  lemma {:induction false} AcceptedExactly(s: State, t: Issued)
    requires Inv(s) && t in s.issued
    ensures CurrentUser(s, t.token).Some? <==>
            t.id in s.users && s.users[t.id].active && s.users[t.id].hash == t.hash && s.users[t.id].username == t.token.sub
  {
    assert TokenOk(s, t);
    var id := ByUsername(s.users, s.nextId, t.token.sub);
    if t.id in s.users && s.users[t.id].username == t.token.sub && id.Some? {
      assert id.value == t.id;
    }
  }

  /** A login is admitted exactly for the active account with the username whose hash was made from the password. */
  lemma {:induction false} AdmittedExactly(s: State, username: string, given: string, id: Id)
    requires Inv(s)
    ensures Admitted(s, username, given) == Some(id) <==>
            && id in s.users && s.users[id].username == username && s.users[id].active
            && s.users[id].hash in s.made && s.made[s.users[id].hash] == given
  {
    var found := ByUsername(s.users, s.nextId, username);
    if id in s.users && s.users[id].username == username && found.Some? {
      assert found.value == id;
    }
  }

  // ----- resets and rehashes

  /** No account has the hash, and none can get it again. */
  ghost predicate Retired(s: State, hash: Hash) {
    hash in s.made && forall id :: id in s.users ==> s.users[id].hash != hash
  }

  lemma {:induction false} RetiredForGood(s: State, ops: seq<Op>, hash: Hash)
    requires Retired(s, hash) && ValidRun(s, ops)
    ensures Retired(Run(s, ops), hash)
    decreases |ops|
  {
    if ops != [] {
      var s' := Next(s, ops[0]);
      forall id | id in s'.users ensures s'.users[id].hash != hash { StepHashes(s, ops[0], id); }
      StepKeepsMade(s, ops[0], hash);
      RetiredForGood(s', ops[1..], hash);
    }
  }

  lemma StepKeepsMade(s: State, op: Op, hash: Hash)
    requires Possible(s, op) && hash in s.made
    ensures hash in Next(s, op).made
  {
  }

  /** The password the operation writes for the account, if it writes its hash: a reset or a rehash. */
  function Writes(op: Op, id: Id): Option<string> {
    match op
    case Edit(i, _, reset) => if i == id then reset else None
    case Rehash(_, account, verified, _) => if account == id then Some(verified) else None
    case _ => None
  }

  /** A reset or a rehash leaves no token the account was issued before. */
  lemma WriteRetires(s: State, op: Op, t: Issued)
    requires Inv(s) && Possible(s, op) && Writes(op, t.id).Some? && t in s.issued
    ensures Retired(Next(s, op), t.hash)
  {
    var s' := Next(s, op);
    assert TokenOk(s, t);
    forall j | j in s'.users ensures s'.users[j].hash != t.hash {
      if j != t.id { assert s'.users[j] == s.users[j]; }
    }
  }

  /** After a password reset, or a rehash, every token issued to the account before is rejected, for good. */
  lemma {:induction false} WriteRejectsForGood(s: State, op: Op, ops: seq<Op>, t: Issued)
    requires Inv(s) && Possible(s, op) && Writes(op, t.id).Some? && t in s.issued
    requires ValidRun(Next(s, op), ops)
    ensures CurrentUser(Run(Next(s, op), ops), t.token) == None
  {
    WriteRetires(s, op, t);
    RetiredForGood(Next(s, op), ops, t.hash);
    assert TokenOk(s, t);
    StepInv(s, op);
    RunInv(Next(s, op), ops);
  }

  // ----- whose password is behind an account, and behind a token

  /** The password last written for the account by the run, if any. */
  function LastWrite(ops: seq<Op>, id: Id): Option<string> {
    if ops == [] then None
    else
      var later := LastWrite(ops[1..], id);
      if later.Some? then later else Writes(ops[0], id)
  }

  /** The password the account's hash was made from. */
  function PasswordOf(s: State, id: Id): Option<string> {
    if id in s.users && s.users[id].hash in s.made then Some(s.made[s.users[id].hash]) else None
  }

  lemma StepPassword(s: State, op: Op, id: Id)
    requires Inv(s) && Possible(s, op) && id in s.users
    ensures id in Next(s, op).users
    ensures PasswordOf(Next(s, op), id) == if Writes(op, id).Some? then Writes(op, id) else PasswordOf(s, id)
  {
    assert s.nextId != id;
  }

  /** Over every run the account's password is the one written last, by a reset or by a login's rehash. */
  lemma {:induction false} PasswordIsLastWrite(s: State, ops: seq<Op>, id: Id)
    requires Inv(s) && ValidRun(s, ops) && id in s.users
    ensures id in Run(s, ops).users
    ensures PasswordOf(Run(s, ops), id) == if LastWrite(ops, id).Some? then LastWrite(ops, id) else PasswordOf(s, id)
    decreases |ops|
  {
    if ops != [] {
      StepPassword(s, ops[0], id);
      StepInv(s, ops[0]);
      PasswordIsLastWrite(Next(s, ops[0]), ops[1..], id);
    }
  }

  /** The login's own statements are done but for the token, and the account's password is the verified one. */
  ghost predicate JustVerified(s: State, l: Lid) {
    && l in s.logins && !s.logins[l].rehash
    && PasswordOf(s, s.logins[l].id) == Some(s.logins[l].password)
  }

  /** A successful check without rehash, and every rehash, leaves the login there. */
  lemma {:induction false} OwnStepVerifies(s: State, op: Op)
    requires Inv(s) && Possible(s, op)
    requires op.Rehash? || (op.Verify? && !op.needsUpdate && Admitted(s, op.username, op.given).Some?)
    ensures JustVerified(Next(s, op), op.lid)
  {
  }

  /** A login that waits is not disturbed. */
  lemma {:induction false} LoginWaits(s: State, ops: seq<Op>, l: Lid)
    requires l in s.logins && !s.logins[l].rehash && ValidRun(s, ops)
    requires forall k :: 0 <= k < |ops| ==> ops[k] != Issue(l)
    ensures l in Run(s, ops).logins && Run(s, ops).logins[l] == s.logins[l]
    decreases |ops|
  {
    if ops != [] {
      assert ops[0] != Issue(l);
      LoginWaits(Next(s, ops[0]), ops[1..], l);
    }
  }

  /**
    The hash in the token of a login is one whose password that login verified if and only if the last
    password written for the account since, by anybody, is none or the same.
   */
  lemma {:induction false} IssuedForVerifiedExactly(s: State, ops: seq<Op>, l: Lid) returns (t: Issued)
    requires Inv(s) && JustVerified(s, l) && ValidRun(s, ops)
    requires forall k :: 0 <= k < |ops| ==> ops[k] != Issue(l)
    ensures Possible(Run(s, ops), Issue(l))
    ensures var e := Next(Run(s, ops), Issue(l));
            && e.issued == Run(s, ops).issued + {t} && t.id == s.logins[l].id && t.password == s.logins[l].password
            && t.hash in e.made
            && (e.made[t.hash] == t.password <==> LastWrite(ops, t.id).None? || LastWrite(ops, t.id).value == t.password)
  {
    LoginWaits(s, ops, l);
    RunInv(s, ops);
    var id := s.logins[l].id;
    PasswordIsLastWrite(s, ops, id);
    var u := Run(s, ops).users[id];
    t := Issued(TokenFor(u), id, u.hash, s.logins[l].password);
  }

  lemma RunThree(s: State, a: Op, b: Op, c: Op)
    requires Possible(s, a) && Possible(Next(s, a), b) && Possible(Next(Next(s, a), b), c)
    ensures ValidRun(s, [a, b, c]) && Run(s, [a, b, c]) == Next(Next(Next(s, a), b), c)
  {
    assert [a, b, c][1..] == [b, c] && [b, c][1..] == [c] && [c][1..] == [];
    var s2 := Next(Next(s, a), b);
    assert ValidRun(s2, [c]) && Run(s2, [c]) == Next(s2, c);
  }

  /** A reset of the account's password, its other fields kept. */
  function Reset(s: State, id: Id, password: string, hash: Hash): Op
    requires id in s.users
  {
    Edit(id, s.users[id].(hash := hash), Some(password))
  }

  lemma ResetPossible(s: State, id: Id, password: string, hash: Hash)
    requires Inv(s) && id in s.users && hash !in s.made
    ensures Possible(s, Reset(s, id, password, hash))
  {
  }

  /** A reset between a login's check and its rehash is undone: the account ends with the password the login verified. */
  lemma {:induction false} RehashUndoesReset(s: State, l: Lid, username: string, given: string, reset: string, h1: Hash, h2: Hash)
    returns (ops: seq<Op>)
    requires Inv(s) && l !in s.logins && Admitted(s, username, given).Some?
    requires h1 !in s.made && h2 !in s.made && h1 != h2
    ensures ValidRun(s, ops) && |ops| == 3 && ops[1].Edit? && ops[1].reset == Some(reset)
    ensures PasswordOf(Run(s, ops), Admitted(s, username, given).value) == Some(given)
  {
    var id := Admitted(s, username, given).value;
    var a := Verify(l, username, given, true);
    ResetPossible(s, id, reset, h1);
    var b := Reset(s, id, reset, h1);
    var c := Rehash(l, id, given, h2);
    assert Next(s, a).users == s.users && Next(s, a).made == s.made;
    var s2 := Next(Next(s, a), b);
    assert s2.logins[l] == Login(id, given, true) && h2 !in s2.made && id in s2.users;
    RunThree(s, a, b, c);
    ops := [a, b, c];
  }

  /** A reset between the check and the token: the token is bound to the new password's hash, and accepted. */
  lemma {:induction false} LateTokenOutlivesReset(s: State, l: Lid, username: string, given: string, reset: string, h1: Hash)
    returns (ops: seq<Op>, t: Issued)
    requires Inv(s) && l !in s.logins && Admitted(s, username, given).Some? && h1 !in s.made
    ensures ValidRun(s, ops) && |ops| == 3 && ops[1].Edit? && ops[1].reset == Some(reset)
    ensures t in Run(s, ops).issued && t.password == given && t.hash == h1
    ensures CurrentUser(Run(s, ops), t.token) == Some(t.id)
  {
    var id := Admitted(s, username, given).value;
    var a := Verify(l, username, given, false);
    ResetPossible(s, id, reset, h1);
    var b := Reset(s, id, reset, h1);
    assert Next(s, a).users == s.users && Next(s, a).made == s.made;
    var s2 := Next(Next(s, a), b);
    assert s2.logins[l] == Login(id, given, false) && id in s2.users;
    RunThree(s, a, b, Issue(l));
    ops := [a, b, Issue(l)];
    t := Issued(TokenFor(s2.users[id]), id, h1, given);
    RunInv(s, ops);
    AcceptedExactly(Run(s, ops), t);
    AcceptedTokenIsBound(s, ops, t);
  }

  // ----- the login route

  /** The statements of a login with nothing in between. */
  function Statements(l: Lid, username: string, given: string, id: Id, rehash: Option<Hash>): seq<Op> {
    if rehash.Some? then [Verify(l, username, given, true), Rehash(l, id, given, rehash.value), Issue(l)]
    else [Verify(l, username, given, false), Issue(l)]
  }

  function LoggedIn(s: State, id: Id, given: string, rehash: Option<Hash>): State
    requires id in s.users
  {
    var u := if rehash.Some? then s.users[id].(hash := rehash.value) else s.users[id];
    s.(users := s.users[id := u], made := if rehash.Some? then s.made[rehash.value := given] else s.made,
       issued := s.issued + {Issued(TokenFor(u), id, u.hash, given)})
  }

  /** Run without interruption they write the rehash and issue one token for what is then stored. */
  lemma {:induction false} StatementsRun(s: State, l: Lid, username: string, given: string, rehash: Option<Hash>)
    requires Inv(s) && l !in s.logins && Admitted(s, username, given).Some?
    requires rehash.Some? ==> rehash.value !in s.made
    ensures var id := Admitted(s, username, given).value;
            ValidRun(s, Statements(l, username, given, id, rehash))
            && Run(s, Statements(l, username, given, id, rehash)) == LoggedIn(s, id, given, rehash)
  {
    var id := Admitted(s, username, given).value;
    var a := Verify(l, username, given, rehash.Some?);
    var s1 := Next(s, a);
    assert s1 == s.(logins := s.logins[l := Login(id, given, rehash.Some?)]);
    if rehash.Some? {
      var b := Rehash(l, id, given, rehash.value);
      RunThree(s, a, b, Issue(l));
      assert s.logins[l := Login(id, given, true)][l := Login(id, given, false)] - {l} == s.logins;
    } else {
      assert [a, Issue(l)][1..] == [Issue(l)] && [Issue(l)][1..] == [];
      assert ValidRun(s1, [Issue(l)]) && Run(s1, [Issue(l)]) == Next(s1, Issue(l));
      assert s.logins[l := Login(id, given, false)] - {l} == s.logins;
      assert s.users[id := s.users[id]] == s.users;
    }
  }

  /** An uninterrupted login's token is accepted at once, for the account that logged in. */
  lemma {:induction false} FreshTokenIsAccepted(s: State, l: Lid, username: string, given: string, rehash: Option<Hash>)
    requires Inv(s) && l !in s.logins && Admitted(s, username, given).Some?
    requires rehash.Some? ==> rehash.value !in s.made
    ensures var id := Admitted(s, username, given).value;
            var e := LoggedIn(s, id, given, rehash);
            Inv(e) && CurrentUser(e, TokenFor(e.users[id])) == Some(id)
  {
    var id := Admitted(s, username, given).value;
    var ops := Statements(l, username, given, id, rehash);
    StatementsRun(s, l, username, given, rehash);
    RunInv(s, ops);
    var e := LoggedIn(s, id, given, rehash);
    var t := Issued(TokenFor(e.users[id]), id, e.users[id].hash, given);
    AcceptedExactly(e, t);
    AcceptedTokenIsBound(s, ops, t);
  }

  /** The active account with the username, and the password its hash was made from. */
  ghost predicate RightPassword(s: State, username: string, given: string, id: Id) {
    && id in s.users && s.users[id].username == username && s.users[id].active
    && s.users[id].hash in s.made && s.made[s.users[id].hash] == given
  }

  lemma AdmittedIfRight(s: State, username: string, given: string)
    requires Inv(s)
    ensures Admitted(s, username, given).Some? <==> exists id :: RightPassword(s, username, given, id)
  {
    if Admitted(s, username, given).Some? {
      AdmittedExactly(s, username, given, Admitted(s, username, given).value);
      assert RightPassword(s, username, given, Admitted(s, username, given).value);
    }
    if id :| RightPassword(s, username, given, id) {
      AdmittedExactly(s, username, given, id);
    }
  }

  datatype Answer = TooMany | Refused | Bearer(token: Token)

  class AuthService {
    const limiter: Limiter.LoginAttempts
    var state: State
    var audit: seq<(string, string)>

    constructor ()
      ensures state == State(map[], 0, map[], map[], {}) && audit == [] && fresh(limiter) && limiter.attempts == map[]
    {
      limiter := new Limiter.LoginAttempts();
      state, audit := State(map[], 0, map[], map[], {}), [];
    }

    /**
      `login` with nothing else committing meanwhile: the limiter first, then the account and password, then
      the rehash of an old hash and the token. `newHash` is the hash a rehash would store.
     */
    method SignIn(l: Lid, username: string, given: string, needsUpdate: bool, newHash: Hash, now: real)
      returns (answer: Answer)
      requires Inv(state) && l !in state.logins && newHash !in state.made
      modifies this, limiter
      ensures Inv(state)
      ensures answer.TooMany? <==> |Limiter.Young(Limiter.Of(old(limiter.attempts), username), now)| >= 5
      ensures answer.Bearer? <==> !answer.TooMany? && old(Admitted(state, username, given)).Some?
      ensures answer.Bearer? <==> !answer.TooMany? && exists id :: RightPassword(old(state), username, given, id)
      ensures answer.Bearer? ==> answer.token.sub == username
      ensures answer.Bearer? ==>
                var id := old(Admitted(state, username, given)).value;
                var ops := Statements(l, username, given, id, if needsUpdate then Some(newHash) else None);
                && ValidRun(old(state), ops) && state == Run(old(state), ops)
                && CurrentUser(state, answer.token) == Some(id) && PasswordOf(state, id) == Some(given)
                && username !in limiter.attempts && audit == old(audit) + [(username, "login_succeeded")]
      ensures !answer.Bearer? ==> state == old(state)
      ensures answer.Refused? ==>
                && Limiter.Of(limiter.attempts, username)
                   == Limiter.Recent(Limiter.Of(old(limiter.attempts), username), now) + [now]
                && audit == old(audit) + [(username, "login_failed")]
      ensures answer.TooMany? ==> audit == old(audit)
      ensures forall u :: u != username ==> Limiter.Of(limiter.attempts, u) == Limiter.Of(old(limiter.attempts), u)
    {
      AdmittedIfRight(state, username, given);
      var ok := limiter.LoginAllowed(username, now);
      if !ok {
        return TooMany;
      }
      var id := ByUsername(state.users, state.nextId, username);
      if id.None? || !state.users[id.value].active || !Knows(state, state.users[id.value].hash, given) {
        limiter.RecordFailedLogin(username, now);
        audit := audit + [(username, "login_failed")];
        return Refused;
      }
      limiter.ClearLoginAttempts(username);
      ghost var rehash := if needsUpdate then Some(newHash) else None;
      StatementsRun(state, l, username, given, rehash);
      FreshTokenIsAccepted(state, l, username, given, rehash);
      ghost var end := LoggedIn(state, id.value, given, rehash);
      if needsUpdate {
        state := state.(users := state.users[id.value := state.users[id.value].(hash := newHash)],
                        made := state.made[newHash := given]);
      }
      var row := state.users[id.value];
      audit := audit + [(row.username, "login_succeeded")];
      answer := Bearer(TokenFor(row));
      state := state.(issued := state.issued + {Issued(TokenFor(row), id.value, row.hash, given)});
      assert state.users == end.users;
      assert state == end;
    }
  }
}
