/** Users, refresh tokens and access tokens: what auth stores, and what it hands out. */
module Sessions {
  import opened Primitives
  import opened Utf8
  import Base64Url

  datatype User = User(id: Str, passwordHash: Str)

  /** A row of refresh_tokens, found by the hash of the token. */
  datatype RefreshRow = RefreshRow(user: Str, expiresAt: Time, revokedAt: Option<Time>)

  /** A signed access token: its two claims, the expiry in whole seconds, and its signature. */
  datatype Jwt = Jwt(subject: Str, exp: Time, tag: Str)

  /** Configuration, and the cryptography of which no more is known than what a lemma asks for. */
  datatype Env = Env(refreshTTL: Time, accessTTL: Time,
                     hash: Str -> Str, matches: (Str, Str) -> bool, sign: (Str, Time) -> Str)

  ghost predicate CollisionFree(env: Env) {
    forall a, b {:trigger env.hash(a), env.hash(b)} :: env.hash(a) == env.hash(b) ==> a == b
  }

  // ------- Access tokens -------

  /** A NumericDate keeps whole seconds. */
  function TruncateToSecond(t: Time): (r: Time)
    ensures r <= t < r + 1_000_000_000 && r % 1_000_000_000 == 0
  {
    t - t % SECOND
  }

  lemma TruncateMonotone(t: Time, u: Time)
    requires t <= u
    ensures TruncateToSecond(t) <= TruncateToSecond(u)
  {
    assert TruncateToSecond(t) == t / SECOND * SECOND && TruncateToSecond(u) == u / SECOND * SECOND;
  }

  /** issueAccessToken at `now`. */
  function IssueAccess(env: Env, user: Str, now: Time): Jwt {
    var subject := Base64Url.Encode(user);
    var exp := TruncateToSecond(now + env.accessTTL);
    Jwt(subject, exp, env.sign(subject, exp))
  }

  /** parseJWT accepts the token. */
  predicate Verifies(env: Env, jwt: Jwt) {
    jwt.tag == env.sign(jwt.subject, jwt.exp)
  }

  /** Authenticate: the user of a token that verifies, is not past its expiry and names one. */
  function Authenticated(env: Env, jwt: Jwt, now: Time): Option<Str> {
    if !Verifies(env, jwt) then None
    else if jwt.exp < now then None
    else Base64Url.Decode(jwt.subject)
  }

  /** A token that was issued authenticates its user up to its expiry in whole seconds, and nobody
      from then on. Its subject is text that generateJWT accepts. */
  lemma IssuedAuthenticates(env: Env, user: Str, at: Time, now: Time)
    ensures Authenticated(env, IssueAccess(env, user, at), now) ==
            if now <= TruncateToSecond(at + env.accessTTL) then Some(user) else None
    ensures IsAscii(IssueAccess(env, user, at).subject)
  {
    Base64Url.RoundTrip(user);
    Base64Url.EncodedSymbols(user);
    Base64Url.SymbolsAreAscii(Base64Url.Encode(user));
  }

  // ------- Refresh tokens -------

  /** UPDATE ... SET revoked_at = now WHERE token_hash = h AND revoked_at IS NULL. */
  function Revoke(rows: map<Str, RefreshRow>, h: Str, now: Time): map<Str, RefreshRow> {
    if h in rows && rows[h].revokedAt.None? then rows[h := rows[h].(revokedAt := Some(now))] else rows
  }

  /** The user that Refresh mints an access token for, if the row of the token allows it. */
  function Refreshable(rows: map<Str, RefreshRow>, h: Str, now: Time): Option<Str> {
    if h !in rows || rows[h].revokedAt.Some? || rows[h].expiresAt < now then None else Some(rows[h].user)
  }

  // ------- The history of sessions -------

  /** What happened to sessions: a login stored a token, a logout revoked one, and an access token
      was issued in the session that event number `session` started. */
  datatype Event =
    | LoggedIn(token: Str, user: Str, expiresAt: Time, at: Time, login: Str, password: Str)
    | LoggedOut(token: Str, at: Time)
    | Issued(jwt: Jwt, at: Time, session: nat)

  function Replay(env: Env, rows: map<Str, RefreshRow>, e: Event): map<Str, RefreshRow> {
    match e
    case LoggedIn(token, user, expiresAt, _, _, _) => rows[env.hash(token) := RefreshRow(user, expiresAt, None)]
    case LoggedOut(token, at) => Revoke(rows, env.hash(token), at)
    case Issued(_, _, _) => rows
  }

  /** The rows that a history leaves behind. */
  function Rows(env: Env, log: seq<Event>): map<Str, RefreshRow> {
    if log == [] then map[] else Replay(env, Rows(env, log[..|log| - 1]), log[|log| - 1])
  }

  /** token_hash is UNIQUE: a login that stores a token finds no row with its hash. */
  ghost predicate UniqueHashes(env: Env, log: seq<Event>) {
    forall n {:trigger Rows(env, log[..n])} :: 0 <= n < |log| && log[n].LoggedIn? ==> env.hash(log[n].token) !in Rows(env, log[..n])
  }

  lemma UniquePrefix(env: Env, log: seq<Event>, n: nat)
    requires UniqueHashes(env, log) && n <= |log|
    ensures UniqueHashes(env, log[..n])
  {
    forall k | 0 <= k < n && log[..n][k].LoggedIn? ensures env.hash(log[..n][k].token) !in Rows(env, log[..n][..k]) {
      assert log[..n][..k] == log[..k];
    }
  }

  /** The token was stored by event `i` and no logout has revoked it since. */
  predicate ActiveSince(log: seq<Event>, i: nat, token: Str) {
    && i < |log| && log[i].LoggedIn? && log[i].token == token
    && forall j :: i < j < |log| && log[j].LoggedOut? ==> log[j].token != token
  }

  /** What the rows say of a token is what the history says of it. */
  lemma {:induction false} RowsTellHistory(env: Env, log: seq<Event>, token: Str)
    requires CollisionFree(env) && UniqueHashes(env, log)
    ensures var rows, h := Rows(env, log), env.hash(token);
            && (h in rows <==> exists i :: 0 <= i < |log| && log[i].LoggedIn? && log[i].token == token)
            && (forall i :: 0 <= i < |log| && log[i].LoggedIn? && log[i].token == token ==>
                  rows[h].user == log[i].user && rows[h].expiresAt == log[i].expiresAt
                  && (rows[h].revokedAt.None? <==> ActiveSince(log, i, token)))
  {
    if log != [] {
      var n := |log| - 1;
      var past := log[..n];
      UniquePrefix(env, log, n);
      RowsTellHistory(env, past, token);
      assert log[n].LoggedIn? ==> env.hash(log[n].token) !in Rows(env, past);
      HistoryGrows(env, log, token);
    }
  }

  /** The induction step: one more event. */
  lemma HistoryGrows(env: Env, log: seq<Event>, token: Str)
    requires CollisionFree(env) && log != []
    requires var past, e := log[..|log| - 1], log[|log| - 1];
             var rows, h := Rows(env, past), env.hash(token);
             && (e.LoggedIn? ==> env.hash(e.token) !in rows)
             && (h in rows <==> exists i :: 0 <= i < |past| && past[i].LoggedIn? && past[i].token == token)
             && (forall i :: 0 <= i < |past| && past[i].LoggedIn? && past[i].token == token ==>
                   rows[h].user == past[i].user && rows[h].expiresAt == past[i].expiresAt
                   && (rows[h].revokedAt.None? <==> ActiveSince(past, i, token)))
    ensures var rows, h := Rows(env, log), env.hash(token);
            && (h in rows <==> exists i :: 0 <= i < |log| && log[i].LoggedIn? && log[i].token == token)
            && (forall i :: 0 <= i < |log| && log[i].LoggedIn? && log[i].token == token ==>
                  rows[h].user == log[i].user && rows[h].expiresAt == log[i].expiresAt
                  && (rows[h].revokedAt.None? <==> ActiveSince(log, i, token)))
  {
    var n := |log| - 1;
    var past, e := log[..n], log[n];
    var h := env.hash(token);
    assert forall i :: 0 <= i < n ==> past[i] == log[i];
    if h in Rows(env, past) {
      var i :| 0 <= i < |past| && past[i].LoggedIn? && past[i].token == token;
      assert log[i].LoggedIn? && log[i].token == token;
    }
    forall i | 0 <= i < n && log[i].LoggedIn? && log[i].token == token
      ensures ActiveSince(log, i, token) <==> ActiveSince(past, i, token) && !(e.LoggedOut? && e.token == token)
    {
      assert past[i] == log[i];
    }
  }

  /** Refresh succeeds at `now` exactly for a token that an earlier login stored, that is not past
      its expiry, and that no logout has revoked since; and it is that login's user it mints for. */
  lemma RefreshCharacterised(env: Env, log: seq<Event>, token: Str, now: Time, user: Str)
    requires CollisionFree(env) && UniqueHashes(env, log)
    ensures Refreshable(Rows(env, log), env.hash(token), now) == Some(user) <==>
            exists i: nat :: ActiveSince(log, i, token) && now <= log[i].expiresAt && log[i].user == user
  {
    RowsTellHistory(env, log, token);
    var rows, h := Rows(env, log), env.hash(token);
    if Refreshable(rows, h, now) == Some(user) {
      var i :| 0 <= i < |log| && log[i].LoggedIn? && log[i].token == token;
      assert ActiveSince(log, i, token);
    }
    if exists i: nat :: ActiveSince(log, i, token) && now <= log[i].expiresAt && log[i].user == user {
      var i: nat :| ActiveSince(log, i, token) && now <= log[i].expiresAt && log[i].user == user;
      assert log[i].LoggedIn? && log[i].token == token;
    }
  }

  /** A stored token that is rejected once is rejected ever after, whatever happens then. */
  lemma {:induction false} RejectedForever(env: Env, log: seq<Event>, n: nat, h: Str, now: Time, later: Time)
    requires UniqueHashes(env, log) && n <= |log|
    requires h in Rows(env, log[..n]) && Refreshable(Rows(env, log[..n]), h, now).None? && now <= later
    ensures h in Rows(env, log) && Refreshable(Rows(env, log), h, later).None?
    ensures Rows(env, log)[h].user == Rows(env, log[..n])[h].user && Rows(env, log)[h].expiresAt == Rows(env, log[..n])[h].expiresAt
    decreases |log|
  {
    if n == |log| {
      assert log[..n] == log;
    } else {
      var m := |log| - 1;
      UniquePrefix(env, log, m);
      assert log[..m][..n] == log[..n];
      RejectedForever(env, log[..m], n, h, now, later);
      assert log[m].LoggedIn? ==> env.hash(log[m].token) !in Rows(env, log[..m]);
    }
  }
}
