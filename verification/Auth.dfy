/** The auth service with its user and refresh-token tables as one object that its calls update. */
module Auth {
  import opened Primitives
  import opened Sessions
  import Base64Url

  datatype RegisterError = InvalidLogin | InvalidPassword | LoginNotUnique | RepoFailed

  datatype Grant = Granted(token: Str, jwt: Jwt) | BadCredentials | LoginFailed

  datatype Renewal = Renewed(jwt: Jwt) | InvalidToken | RefreshFailed

  const MAX_LOGIN: nat := 64

  class Service {
    const env: Env
    var users: map<Str, User>
    var refreshTokens: map<Str, RefreshRow>
    /** Every login that stored a token, every logout and every access token issued. */
    ghost var log: seq<Event>

    /** The token table holds what the history of the sessions says, and nothing else. */
    ghost predicate Valid()
      reads this
    {
      UniqueHashes(env, log) && refreshTokens == Rows(env, log)
    }

    constructor (env: Env)
      ensures Valid() && this.env == env && users == map[] && refreshTokens == map[] && log == []
    {
      this.env := env;
      users := map[];
      refreshTokens := map[];
      log := [];
    }

    ghost method Record(e: Event)
      requires UniqueHashes(env, log) && refreshTokens == Replay(env, Rows(env, log), e)
      requires e.LoggedIn? ==> env.hash(e.token) !in Rows(env, log)
      modifies this`log
      ensures Valid() && log == old(log) + [e]
    {
      var past := log;
      log := log + [e];
      assert log[..|log| - 1] == past;
      forall n | 0 <= n < |log| && log[n].LoggedIn? ensures env.hash(log[n].token) !in Rows(env, log[..n]) {
        assert n < |past| ==> log[..n] == past[..n];
      }
    }

    /** Register. `hashed` is the password hash, absent when the password cannot be hashed; `id` is
        the identifier that the repository gives the user. */
    method Register(login: Str, hashed: Option<Str>, id: Str, save: Fault) returns (error: Option<RegisterError>)
      requires Valid()
      modifies this`users
      ensures Valid()
      ensures error == Some(InvalidLogin) <==> |login| > 64
      ensures error == Some(InvalidPassword) <==> |login| <= 64 && hashed.None?
      ensures error.None? || error == Some(LoginNotUnique) ==> save.Fine? && (error.None? <==> login !in old(users))
      ensures |login| <= 64 && hashed.Some? ==> (error == Some(RepoFailed) <==> !save.Fine?)
      ensures users == if |login| <= 64 && hashed.Some? && !save.LostBefore? && login !in old(users)
                       then old(users)[login := User(id, hashed.value)] else old(users)
    {
      if |login| > MAX_LOGIN {
        return Some(InvalidLogin);
      }
      if hashed.None? {
        return Some(InvalidPassword);
      }
      if save.LostBefore? {
        return Some(RepoFailed);
      }
      if login in users {
        return if save.Fine? then Some(LoginNotUnique) else Some(RepoFailed);
      }
      users := users[login := User(id, hashed.value)];
      return if save.Fine? then None else Some(RepoFailed);
    }

    /** Login, with the random token it would hand out. */
    method Login(login: Str, password: Str, random: Option<Str>, now: Time, select: Fault, save: Fault) returns (grant: Grant)
      requires Valid()
      modifies this`refreshTokens, this`log
      ensures Valid()
      ensures grant == BadCredentials <==>
                select.Fine? && (login !in users || !env.matches(password, users[login].passwordHash))
      ensures var known := select.Fine? && login in users && env.matches(password, users[login].passwordHash);
              var stored := known && random.Some? && !save.LostBefore? && env.hash(random.value) !in old(refreshTokens);
              && (grant.Granted? <==> stored && save.Fine?)
              && (!stored ==> refreshTokens == old(refreshTokens) && log == old(log))
              && (stored ==>
                    var user, expiresAt := users[login].id, now + env.refreshTTL;
                    var started := LoggedIn(random.value, user, expiresAt, now, login, password);
                    && refreshTokens == old(refreshTokens)[env.hash(random.value) := RefreshRow(user, expiresAt, None)]
                    && log == old(log) + [started] + (if grant.Granted? then [Issued(grant.jwt, now, |old(log)|)] else [])
                    && (grant.Granted? ==> grant.token == random.value && grant.jwt == IssueAccess(env, user, now)))
    {
      if !select.Fine? {
        return LoginFailed;
      }
      if login !in users {
        return BadCredentials;
      }
      var user := users[login];
      if !env.matches(password, user.passwordHash) {
        return BadCredentials;
      }
      if random.None? {
        return LoginFailed;
      }
      var token := random.value;
      var expiresAt := now + env.refreshTTL;
      if save.LostBefore? || env.hash(token) in refreshTokens {
        return LoginFailed;
      }
      refreshTokens := refreshTokens[env.hash(token) := RefreshRow(user.id, expiresAt, None)];
      Record(LoggedIn(token, user.id, expiresAt, now, login, password));
      if !save.Fine? {
        return LoginFailed;
      }
      var jwt := IssueAccess(env, user.id, now);
      Record(Issued(jwt, now, |log| - 1));
      return Granted(token, jwt);
    }

    /** Refresh reads a row and hands out a token; nothing stored changes. */
    method Refresh(token: Str, now: Time, select: Fault) returns (renewal: Renewal)
      requires Valid()
      ensures !select.Fine? <==> renewal == RefreshFailed
      ensures var h := env.hash(token);
              && (renewal.Renewed? <==> select.Fine? && h in refreshTokens
                                        && refreshTokens[h].revokedAt.None? && now <= refreshTokens[h].expiresAt)
              && (renewal.Renewed? ==> renewal.jwt == IssueAccess(env, refreshTokens[h].user, now))
      ensures select.Fine? && CollisionFree(env) ==>
                (renewal.Renewed? <==> exists i: nat :: ActiveSince(log, i, token) && now <= log[i].expiresAt)
      ensures CollisionFree(env) ==> forall i: nat :: ActiveSince(log, i, token) && renewal.Renewed? ==>
                renewal.jwt == IssueAccess(env, log[i].user, now)
    {
      ghost var h := env.hash(token);
      if CollisionFree(env) {
        RowsTellHistory(env, log, token);
        assert forall i: nat :: ActiveSince(log, i, token) ==> 0 <= i < |log| && log[i].LoggedIn? && log[i].token == token;
      }
      if !select.Fine? {
        return RefreshFailed;
      }
      if env.hash(token) !in refreshTokens {
        return InvalidToken;
      }
      var row := refreshTokens[env.hash(token)];
      if row.revokedAt.Some? {
        return InvalidToken;
      }
      if row.expiresAt < now {
        return InvalidToken;
      }
      return Renewed(IssueAccess(env, row.user, now));
    }

    /** Logout. When it reports no error the token cannot be refreshed at any time. */
    method Logout(token: Str, now: Time, update: Fault) returns (ok: bool)
      requires Valid()
      modifies this`refreshTokens, this`log
      ensures Valid()
      ensures ok <==> update.Fine?
      ensures log == if !update.LostBefore? then old(log) + [LoggedOut(token, now)] else old(log)
      ensures ok ==> forall t :: Refreshable(refreshTokens, env.hash(token), t).None?
      ensures var h := env.hash(token);
              refreshTokens == if !update.LostBefore? && h in old(refreshTokens) && old(refreshTokens)[h].revokedAt.None?
                               then old(refreshTokens)[h := old(refreshTokens)[h].(revokedAt := Some(now))]
                               else old(refreshTokens)
    {
      if TakesEffect(update) {
        var h := env.hash(token);
        if h in refreshTokens && refreshTokens[h].revokedAt.None? {
          refreshTokens := refreshTokens[h := refreshTokens[h].(revokedAt := Some(now))];
        }
        Record(LoggedOut(token, now));
      }
      return update.Fine?;
    }

    /** Authenticate, which reads no table: a token counts if it is signed for what it says, is not
        past its expiry, and names a user. */
    method Authenticate(jwt: Jwt, now: Time) returns (user: Option<Str>)
      ensures user.Some? <==>
                jwt.tag == env.sign(jwt.subject, jwt.exp) && now <= jwt.exp && Base64Url.Decode(jwt.subject).Some?
      ensures user.Some? ==> user == Base64Url.Decode(jwt.subject)
      ensures user == Authenticated(env, jwt, now)
      ensures forall u, at :: jwt == IssueAccess(env, u, at) ==>
                user == if now <= TruncateToSecond(at + env.accessTTL) then Some(u) else None
    {
      forall u, at | jwt == IssueAccess(env, u, at)
        ensures Authenticated(env, jwt, now) == if now <= TruncateToSecond(at + env.accessTTL) then Some(u) else None
      {
        IssuedAuthenticates(env, u, at, now);
      }
      if !Verifies(env, jwt) {
        return None;
      }
      if jwt.exp < now {
        return None;
      }
      return Base64Url.Decode(jwt.subject);
    }
  }
}
