/** The failed-login limiter: a pruned list per username that must agree with the whole history. */
module LoginLimiter {
  import opened Wrappers

  const WINDOW := 300.0
  const LIMIT := 5

  /** The entries less than 300 seconds old. */
  function Recent(times: seq<real>, now: real): (r: seq<real>)
    ensures forall t :: t in r <==> t in times && now - t < WINDOW
    ensures |r| <= |times|
  {
    if times == [] then []
    else
      var rest := Recent(times[..|times| - 1], now);
      if now - times[|times| - 1] < WINDOW then rest + [times[|times| - 1]] else rest
  }

  /** The positions of the entries less than 300 seconds old. */
  function Young(times: seq<real>, now: real): set<nat> {
    set i: nat | i < |times| && now - times[i] < 300.0
  }

  lemma YoungSnoc(times: seq<real>, now: real)
    requires times != []
    ensures var n := |times| - 1;
            Young(times, now) == if now - times[n] < 300.0 then Young(times[..n], now) + {n} else Young(times[..n], now)
  {
  }

  /** `Recent` keeps as many entries as there are young ones. */
  lemma {:induction false} RecentCounts(times: seq<real>, now: real)
    ensures |Recent(times, now)| == |Young(times, now)|
  {
    if times != [] {
      RecentCounts(times[..|times| - 1], now);
      YoungSnoc(times, now);
    }
  }

  function Of(attempts: map<string, seq<real>>, username: string): seq<real> {
    if username in attempts then attempts[username] else []
  }

  /** The process-wide dictionary of failed attempts. */
  class LoginAttempts {
    var attempts: map<string, seq<real>>

    constructor ()
      ensures attempts == map[]
    {
      attempts := map[];
    }

    method LoginAllowed(username: string, now: real) returns (ok: bool)
      modifies this
      ensures attempts == old(attempts)[username := Recent(Of(old(attempts), username), now)]
      ensures ok <==> |Young(Of(old(attempts), username), now)| < 5
    {
      RecentCounts(Of(attempts, username), now);
      var kept: seq<real> := [];
      var all := Of(attempts, username);
      for i := 0 to |all|
        invariant kept == Recent(all[..i], now)
      {
        assert all[..i + 1][..i] == all[..i];
        if now - all[i] < WINDOW {
          kept := kept + [all[i]];
        }
      }
      assert all[..|all|] == all;
      attempts := attempts[username := kept];
      ok := |kept| < LIMIT;
    }

    method RecordFailedLogin(username: string, now: real)
      modifies this
      ensures attempts == old(attempts)[username := Of(old(attempts), username) + [now]]
    {
      attempts := attempts[username := Of(attempts, username) + [now]];
    }

    method ClearLoginAttempts(username: string)
      modifies this
      ensures attempts == old(attempts) - {username}
    {
      attempts := attempts - {username};
    }
  }

  // ----- against the unpruned history

  datatype Event = Check(username: string, at: real) | Failed(username: string, at: real) | Cleared(username: string, at: real)

  /** The dictionary after an event. */
  function Step(attempts: map<string, seq<real>>, e: Event): map<string, seq<real>> {
    match e
    case Check(u, t) => attempts[u := Recent(Of(attempts, u), t)]
    case Failed(u, t) => attempts[u := Of(attempts, u) + [t]]
    case Cleared(u, _) => attempts - {u}
  }

  function Run(h: seq<Event>): map<string, seq<real>> {
    if h == [] then map[] else Step(Run(h[..|h| - 1]), h[|h| - 1])
  }

  /** All failures of the user since the last success, pruned by nobody. */
  function FailuresSince(h: seq<Event>, username: string): seq<real> {
    if h == [] then []
    else
      var before, e := h[..|h| - 1], h[|h| - 1];
      if e.username != username || e.Check? then FailuresSince(before, username)
      else if e.Failed? then FailuresSince(before, username) + [e.at]
      else []
  }

  ghost predicate Monotone(h: seq<Event>) {
    forall i, j :: 0 <= i < j < |h| ==> h[i].at <= h[j].at
  }

  lemma RecentSnoc(times: seq<real>, t: real, now: real)
    ensures Recent(times + [t], now) == Recent(times, now) + if now - t < WINDOW then [t] else []
  {
    assert (times + [t])[..|times|] == times;
  }

  /** Pruning at an earlier time loses nothing a later window would count. */
  lemma {:induction false} RecentTwice(times: seq<real>, earlier: real, now: real)
    requires earlier <= now
    ensures Recent(Recent(times, earlier), now) == Recent(times, now)
  {
    if times != [] {
      var front, last := times[..|times| - 1], times[|times| - 1];
      RecentTwice(front, earlier, now);
      if earlier - last < WINDOW {
        RecentSnoc(Recent(front, earlier), last, now);
      }
    }
  }

  /** With a clock that does not run backwards the pruned window is the true window, now and later. */
  lemma {:induction false} PrunedAgrees(h: seq<Event>, username: string, now: real)
    requires Monotone(h) && forall i :: 0 <= i < |h| ==> h[i].at <= now
    ensures Recent(Of(Run(h), username), now) == Recent(FailuresSince(h, username), now)
  {
    if h != [] {
      var before, e := h[..|h| - 1], h[|h| - 1];
      PrunedAgrees(before, username, now);
      if e.username == username {
        match e
        case Check(u, t) => RecentTwice(Of(Run(before), u), t, now);
        case Failed(u, t) =>
          RecentSnoc(Of(Run(before), u), t, now);
          RecentSnoc(FailuresSince(before, u), t, now);
        case Cleared(_, _) =>
      }
    }
  }

  /** `login_allowed` answers by the whole history: fewer than five failures younger than 300 s since the last success. */
  lemma {:induction false} AllowedExactly(h: seq<Event>, username: string, now: real)
    requires Monotone(h) && forall i :: 0 <= i < |h| ==> h[i].at <= now
    ensures |Young(Of(Run(h), username), now)| < 5 <==> |Young(FailuresSince(h, username), now)| < 5
  {
    PrunedAgrees(h, username, now);
    RecentCounts(Of(Run(h), username), now);
    RecentCounts(FailuresSince(h, username), now);
  }

  /** With a clock set back the agreement fails: what a later check pruned is missing from an earlier window. */
  lemma ClockSetBack(username: string)
    ensures var h := [Failed(username, 0.0), Check(username, 300.0)];
            Recent(Of(Run(h), username), 299.0) == [] && Recent(FailuresSince(h, username), 299.0) == [0.0]
  {
    var h := [Failed(username, 0.0), Check(username, 300.0)];
    assert h[..1] == [Failed(username, 0.0)] && h[..1][..0] == [];
    assert Run(h[..1][..0]) == map[] && [] + [0.0] == [0.0];
    assert Run(h[..1]) == map[username := [0.0]];
    assert [0.0][..0] == [];
    assert Recent([0.0], 300.0) == [];
    assert FailuresSince(h[..1], username) == [0.0];
  }

  /** The positions of the user's failures from `since` on. */
  function FailedAt(h: seq<Event>, username: string, since: nat): set<nat> {
    set i: nat | since <= i < |h| && h[i].Failed? && h[i].username == username
  }

  lemma FailedAtSnoc(h: seq<Event>, username: string, since: nat)
    requires h != [] && since < |h|
    ensures var n := |h| - 1;
            FailedAt(h, username, since)
            == if h[n].Failed? && h[n].username == username then FailedAt(h[..n], username, since) + {n}
               else FailedAt(h[..n], username, since)
  {
    assert forall i :: 0 <= i < |h| - 1 ==> h[..|h| - 1][i] == h[i];
  }

  /** No success of the user from `since` on, and one just before it unless it is the start. */
  ghost predicate LastSuccess(h: seq<Event>, username: string, since: nat) {
    && since <= |h|
    && (since > 0 ==> h[since - 1].Cleared? && h[since - 1].username == username)
    && forall i :: since <= i < |h| ==> !(h[i].Cleared? && h[i].username == username)
  }

  lemma LastSuccessFront(h: seq<Event>, username: string, since: nat)
    requires LastSuccess(h, username, since) && since < |h|
    ensures LastSuccess(h[..|h| - 1], username, since)
  {
    assert forall i :: 0 <= i < |h| - 1 ==> h[..|h| - 1][i] == h[i];
  }

  /** The history's failures are as many as the user's after the last success, and at their times. */
  lemma {:induction false} FailuresCounted(h: seq<Event>, username: string, since: nat)
    requires LastSuccess(h, username, since)
    ensures |FailuresSince(h, username)| == |FailedAt(h, username, since)|
  {
    if since == |h| {
      assert FailedAt(h, username, since) == {};
    } else {
      LastSuccessFront(h, username, since);
      FailuresCounted(h[..|h| - 1], username, since);
      FailedAtSnoc(h, username, since);
    }
  }

  lemma {:induction false} FailuresTimed(h: seq<Event>, username: string, since: nat, t: real)
    requires LastSuccess(h, username, since)
    ensures t in FailuresSince(h, username) <==> exists i :: i in FailedAt(h, username, since) && h[i].at == t
  {
    if since == |h| {
      assert FailedAt(h, username, since) == {};
    } else {
      LastSuccessFront(h, username, since);
      FailuresTimed(h[..|h| - 1], username, since, t);
      FailedAtSnoc(h, username, since);
    }
  }

  /** Plays a history on the dictionary. */
  method Play(h: seq<Event>) returns (limiter: LoginAttempts)
    ensures fresh(limiter) && limiter.attempts == Run(h)
  {
    limiter := new LoginAttempts();
    for i := 0 to |h|
      invariant fresh(limiter) && limiter.attempts == Run(h[..i])
    {
      assert h[..i + 1][..i] == h[..i];
      match h[i]
      case Check(username, at) => var ok := limiter.LoginAllowed(username, at);
      case Failed(username, at) => limiter.RecordFailedLogin(username, at);
      case Cleared(username, at) => limiter.ClearLoginAttempts(username);
    }
    assert h[..|h|] == h;
  }

  // ----- serial logins

  /** Every failure was let through by a check just before it, as `login` does when logins do not overlap. */
  ghost predicate Serial(h: seq<Event>) {
    forall i :: 0 <= i < |h| && h[i].Failed? ==>
      && i > 0 && h[i - 1].Check? && h[i - 1].username == h[i].username
      && |Recent(Of(Run(h[..i - 1]), h[i].username), h[i - 1].at)| < LIMIT
  }

  ghost predicate NonDecreasing(times: seq<real>) {
    forall i, j {:trigger times[i], times[j]} :: 0 <= i < j < |times| ==> times[i] <= times[j]
  }

  lemma FailuresAscend(h: seq<Event>, username: string)
    requires Monotone(h)
    ensures NonDecreasing(FailuresSince(h, username))
    ensures forall t :: t in FailuresSince(h, username) ==> exists k :: 0 <= k < |h| && h[k].at == t
  {
    if h != [] {
      var before, e := h[..|h| - 1], h[|h| - 1];
      FailuresAscend(before, username);
      var g, f := FailuresSince(before, username), FailuresSince(h, username);
      forall t | t in g ensures t <= e.at && exists k :: 0 <= k < |h| && h[k].at == t {
        var k :| 0 <= k < |before| && before[k].at == t;
        assert h[k].at == t;
      }
      if f == g + [e.at] {
        forall i | 0 <= i < |g| ensures g[i] <= e.at { assert g[i] in g; }
      }
    }
  }

  /** The last n of an ascending list are recent if the oldest of them is. */
  lemma RecentTail(times: seq<real>, n: nat, now: real)
    requires n <= |times| && NonDecreasing(times)
    requires n > 0 ==> now - times[|times| - n] < WINDOW
    ensures |Recent(times, now)| >= n
  {
    if n > 0 {
      var front := times[..|times| - 1];
      assert times[|times| - n] <= times[|times| - 1];
      RecentTail(front, n - 1, now);
    }
  }

  /** Fewer than five recent entries of an ascending list: the fifth from the end is old. */
  lemma FifthOfList(g: seq<real>, at: real)
    requires NonDecreasing(g)
    requires |Recent(g, at)| < LIMIT && |g| >= 5
    ensures at - g[|g| - 5] >= WINDOW
  {
    if at - g[|g| - 5] < WINDOW {
      RecentTail(g, 5, at);
    }
  }

  /** A check that let a login through saw the fifth failure from the end leave the window. */
  lemma FifthIsOld(h: seq<Event>, username: string, at: real)
    requires Monotone(h) && (forall i :: 0 <= i < |h| ==> h[i].at <= at)
    requires |Recent(Of(Run(h), username), at)| < LIMIT && |FailuresSince(h, username)| >= 5
    ensures at - FailuresSince(h, username)[|FailuresSince(h, username)| - 5] >= WINDOW
  {
    FailuresAscend(h, username);
    PrunedAgrees(h, username, at);
    FifthOfList(FailuresSince(h, username), at);
  }

  lemma SerialPrefix(h: seq<Event>)
    requires h != [] && Serial(h) && Monotone(h)
    ensures Serial(h[..|h| - 1]) && Monotone(h[..|h| - 1])
  {
    var before := h[..|h| - 1];
    forall i | 0 <= i < |before| && before[i].Failed?
      ensures i > 0 && before[i - 1].Check? && before[i - 1].username == before[i].username
              && |Recent(Of(Run(before[..i - 1]), before[i].username), before[i - 1].at)| < LIMIT
    {
      assert before[i] == h[i] && before[i - 1] == h[i - 1];
      assert before[..i - 1] == h[..i - 1];
    }
  }

  /** Every failure but one just recorded was there before the last event. */
  lemma EarlierFailure(h: seq<Event>, username: string, i: nat)
    requires h != [] && i < |FailuresSince(h, username)|
    requires !h[|h| - 1].Failed? || h[|h| - 1].username != username || i + 1 < |FailuresSince(h, username)|
    ensures i < |FailuresSince(h[..|h| - 1], username)|
    ensures FailuresSince(h[..|h| - 1], username)[i] == FailuresSince(h, username)[i]
  {
  }

  /** In serial runs any six consecutive failures without a success span at least 300 seconds. */
  lemma {:induction false} SixFailuresSpanTheWindow(h: seq<Event>, username: string, i: nat)
    requires Monotone(h) && Serial(h)
    requires i + 5 < |FailuresSince(h, username)|
    ensures FailuresSince(h, username)[i + 5] - FailuresSince(h, username)[i] >= 300.0
  {
    var e, j := h[|h| - 1], i + 5;
    if e.Failed? && e.username == username && j + 1 == |FailuresSince(h, username)| {
      LastSix(h, username);
    } else {
      SerialPrefix(h);
      EarlierFailure(h, username, i);
      EarlierFailure(h, username, j);
      SixFailuresSpanTheWindow(h[..|h| - 1], username, i);
    }
  }

  /** The last failure of a serial history, its check, and the failures before both. */
  lemma LastFailure(h: seq<Event>, username: string)
    requires h != [] && Serial(h) && h[|h| - 1].Failed? && h[|h| - 1].username == username
    ensures |h| >= 2
    ensures FailuresSince(h, username) == FailuresSince(h[..|h| - 2], username) + [h[|h| - 1].at]
    ensures |Recent(Of(Run(h[..|h| - 2]), username), h[|h| - 2].at)| < LIMIT
  {
    var n := |h| - 1;
    assert h[n - 1].Check? && h[n - 1].username == username;
    assert h[..n][..n - 1] == h[..n - 1] && h[..n][n - 1] == h[n - 1];
  }

  lemma LastSix(h: seq<Event>, username: string)
    requires Monotone(h) && Serial(h) && h != []
    requires h[|h| - 1].Failed? && h[|h| - 1].username == username && |FailuresSince(h, username)| >= 6
    ensures var f := FailuresSince(h, username); f[|f| - 1] - f[|f| - 6] >= WINDOW
  {
    LastFailure(h, username);
    MonotonePrefix(h, |h| - 2);
    FifthIsOld(h[..|h| - 2], username, h[|h| - 2].at);
  }

  lemma MonotonePrefix(h: seq<Event>, n: nat)
    requires Monotone(h) && n < |h| - 1
    ensures Monotone(h[..n]) && (forall i :: 0 <= i < n ==> h[..n][i].at <= h[n].at) && h[n].at <= h[|h| - 1].at
  {
  }

  /** `n` logins of the user that all fail, each checked first, at one moment. */
  function FailedLogins(username: string, at: real, n: nat): seq<Event> {
    if n == 0 then [] else FailedLogins(username, at, n - 1) + [Check(username, at), Failed(username, at)]
  }

  lemma {:induction false} AllRecent(times: seq<real>, now: real)
    requires forall i :: 0 <= i < |times| ==> now - times[i] < WINDOW
    ensures Recent(times, now) == times
  {
    if times != [] {
      AllRecent(times[..|times| - 1], now);
      assert times == times[..|times| - 1] + [times[|times| - 1]];
    }
  }

  lemma RunSnoc(h: seq<Event>, e: Event, username: string)
    ensures Run(h + [e]) == Step(Run(h), e)
    ensures e.username == username && e.Check? ==> FailuresSince(h + [e], username) == FailuresSince(h, username)
    ensures e.username == username && e.Failed? ==> FailuresSince(h + [e], username) == FailuresSince(h, username) + [e.at]
  {
    assert (h + [e])[..|h|] == h;
  }

  lemma PairAdds(g: seq<Event>, username: string, at: real)
    requires Of(Run(g), username) == FailuresSince(g, username)
    requires forall i :: 0 <= i < |FailuresSince(g, username)| ==> FailuresSince(g, username)[i] == at
    ensures var h := g + [Check(username, at), Failed(username, at)];
            && FailuresSince(h, username) == FailuresSince(g, username) + [at]
            && Of(Run(h), username) == FailuresSince(h, username)
  {
    var c, f := Check(username, at), Failed(username, at);
    AllRecent(FailuresSince(g, username), at);
    RunSnoc(g, c, username);
    RunSnoc(g + [c], f, username);
    assert g + [c] + [f] == g + [c, f];
  }

  lemma {:induction false} FailedLoginsCount(username: string, at: real, n: nat)
    ensures var h := FailedLogins(username, at, n);
            && Of(Run(h), username) == FailuresSince(h, username) && |FailuresSince(h, username)| == n
            && forall i :: 0 <= i < n ==> FailuresSince(h, username)[i] == at
  {
    if n > 0 {
      FailedLoginsCount(username, at, n - 1);
      PairAdds(FailedLogins(username, at, n - 1), username, at);
    }
  }

  lemma PrefixCounts(username: string, at: real, n: nat)
    ensures |Recent(Of(Run(FailedLogins(username, at, n)), username), at)| == n
  {
    FailedLoginsCount(username, at, n);
    AllRecent(FailuresSince(FailedLogins(username, at, n), username), at);
  }

  lemma SerialAppend(g: seq<Event>, h: seq<Event>, username: string, at: real)
    requires Serial(g) && |Recent(Of(Run(g), username), at)| < LIMIT
    requires h == g + [Check(username, at), Failed(username, at)]
    ensures Serial(h)
  {
    assert h[..|g|] == g;
    forall i | 0 <= i < |h| && h[i].Failed?
      ensures i > 0 && h[i - 1].Check? && h[i - 1].username == h[i].username
      ensures |Recent(Of(Run(h[..i - 1]), h[i].username), h[i - 1].at)| < LIMIT
    {
      if i < |g| {
        assert h[i] == g[i] && h[i - 1] == g[i - 1] && h[..i - 1] == g[..i - 1];
      }
    }
  }

  lemma NothingIsSerial()
    ensures Serial([])
  {
  }

  lemma NextPair(username: string, at: real, n: nat, m: nat) returns (g: seq<Event>, h: seq<Event>)
    requires m == n + 1 && m <= 5
    ensures g == FailedLogins(username, at, n) && h == FailedLogins(username, at, m)
    ensures h == g + [Check(username, at), Failed(username, at)] && |Recent(Of(Run(g), username), at)| < LIMIT
  {
    g, h := FailedLogins(username, at, n), FailedLogins(username, at, m);
    PrefixCounts(username, at, n);
  }

  lemma {:induction false} SerialPairs(username: string, at: real, n: nat) returns (h: seq<Event>)
    requires n <= 5
    ensures h == FailedLogins(username, at, n) && Serial(h)
  {
    if n == 0 {
      h := [];
      NothingIsSerial();
    } else {
      var before := SerialPairs(username, at, n - 1);
      var g, after := NextPair(username, at, n - 1, n);
      SerialAppend(g, after, username, at);
      h := after;
    }
  }

  lemma {:induction false} PairsAtOnce(username: string, at: real, n: nat)
    ensures Monotone(FailedLogins(username, at, n))
    ensures forall i :: 0 <= i < |FailedLogins(username, at, n)| ==> FailedLogins(username, at, n)[i].at == at
  {
    if n > 0 {
      PairsAtOnce(username, at, n - 1);
    }
  }

  lemma CountedLater(username: string, at: real, now: real, n: nat)
    requires at <= now < at + 300.0
    ensures |FailuresSince(FailedLogins(username, at, n), username)| == n
    ensures |Recent(Of(Run(FailedLogins(username, at, n)), username), now)| == n
  {
    FailedLoginsCount(username, at, n);
    AllRecent(FailuresSince(FailedLogins(username, at, n), username), now);
  }

  lemma FailingOn(username: string, at: real, now: real, n: nat) returns (h: seq<Event>, h': seq<Event>)
    requires n < 5 && at <= now < at + 300.0
    ensures Serial(h') && Monotone(h') && h <= h'
    ensures |FailuresSince(h, username)| == n && |FailuresSince(h', username)| == n + 1
    ensures |Recent(Of(Run(h), username), now)| == n && |Recent(Of(Run(h'), username), now)| == n + 1
  {
    h := FailedLogins(username, at, n);
    h' := SerialPairs(username, at, n + 1);
    PairsAtOnce(username, at, n + 1);
    CountedLater(username, at, now, n);
    CountedLater(username, at, now, n + 1);
  }

  /**
    The limit is reached: for every user and time there are serial logins that fail five times within 300
    seconds; after four failures the next check still admits, after five it does not.
   */
  lemma {:induction false} FiveFailuresCloseTheWindow(username: string, at: real, now: real) returns (four: seq<Event>, five: seq<Event>)
    requires at <= now < at + 300.0
    ensures Serial(five) && Monotone(five) && four <= five
    ensures |FailuresSince(four, username)| == 4 && |FailuresSince(five, username)| == 5
    ensures Admits(four, Check(username, now)) && !Admits(five, Check(username, now))
  {
    four, five := FailingOn(username, at, now, 4);
  }

  // ----- overlapping logins, each limiter call one atomic step

  /** The check at `e` lets the login through. */
  predicate Admits(before: seq<Event>, e: Event) {
    e.Check? && |Recent(Of(Run(before), e.username), e.at)| < LIMIT
  }

  /** Logins of the user that were let through and have not failed or succeeded yet. */
  function InFlight(h: seq<Event>, username: string): int {
    if h == [] then 0
    else
      var before, e := h[..|h| - 1], h[|h| - 1];
      var n := InFlight(before, username);
      if e.username != username then n
      else if e.Check? then (if Admits(before, e) then n + 1 else n)
      else n - 1
  }

  /** Logins of the user end only after they were let through, and at most `c` overlap at any time. */
  predicate Overlapping(h: seq<Event>, username: string, c: nat) {
    forall n :: 0 <= n <= |h| ==> 0 <= InFlight(h[..n], username) <= c
  }

  lemma OverlappingFront(h: seq<Event>, username: string, c: nat)
    requires h != [] && Overlapping(h, username, c) && Monotone(h)
    ensures Overlapping(h[..|h| - 1], username, c) && Monotone(h[..|h| - 1])
    ensures 0 <= InFlight(h, username) <= c && 0 <= InFlight(h[..|h| - 1], username) <= c
  {
    var before := h[..|h| - 1];
    forall n | 0 <= n <= |before| ensures 0 <= InFlight(before[..n], username) <= c {
      assert before[..n] == h[..n];
    }
    assert h[..|h|] == h;
  }

  lemma RecentShrinks(times: seq<real>, earlier: real, now: real)
    requires earlier <= now
    ensures |Recent(times, now)| <= |Recent(times, earlier)|
  {
  }

  /** What one event does to the user's window at its own time. */
  lemma WindowStep(before: seq<Event>, e: Event, username: string)
    ensures e.username != username ==> Of(Step(Run(before), e), username) == Of(Run(before), username)
    ensures e.username == username && e.Check? ==>
              Recent(Of(Step(Run(before), e), username), e.at) == Recent(Of(Run(before), username), e.at)
    ensures e.username == username && e.Failed? ==>
              |Recent(Of(Step(Run(before), e), username), e.at)| == |Recent(Of(Run(before), username), e.at)| + 1
    ensures e.username == username && e.Cleared? ==> Of(Step(Run(before), e), username) == []
  {
    if e.username == username && e.Check? {
      RecentTwice(Of(Run(before), username), e.at, e.at);
    } else if e.username == username && e.Failed? {
      RecentSnoc(Of(Run(before), username), e.at, e.at);
    }
  }

  /**
    In every interleaving of any users' logins, with at most c of one user's logins in flight at a time, the
    user's window and the logins still in flight never exceed 4 + c together.
   */
  lemma {:induction false} WindowAndFlight(h: seq<Event>, username: string, c: nat, now: real)
    requires Monotone(h) && Overlapping(h, username, c)
    requires forall i :: 0 <= i < |h| ==> h[i].at <= now
    ensures |Recent(Of(Run(h), username), now)| + InFlight(h, username) <= 4 + c
  {
    if h != [] {
      var before, e := h[..|h| - 1], h[|h| - 1];
      OverlappingFront(h, username, c);
      WindowAndFlight(before, username, c, e.at);
      WindowStep(before, e, username);
      RecentShrinks(Of(Run(h), username), e.at, now);
    }
  }

  /** So neither the dictionary's window nor that of the unpruned history ever holds more than 4 + c failures. */
  lemma {:induction false} WindowBound(h: seq<Event>, username: string, c: nat, now: real)
    requires Monotone(h) && Overlapping(h, username, c)
    requires forall i :: 0 <= i < |h| ==> h[i].at <= now
    ensures |Young(Of(Run(h), username), now)| <= 4 + c && |Young(FailuresSince(h, username), now)| <= 4 + c
  {
    WindowAndFlight(h, username, c, now);
    PrunedAgrees(h, username, now);
    RecentCounts(Of(Run(h), username), now);
    RecentCounts(FailuresSince(h, username), now);
    assert h[..|h|] == h;
  }
}
