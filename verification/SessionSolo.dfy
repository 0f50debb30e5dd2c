/**
 A call of the session machine that runs alone: it is granted, refused or failed exactly as the
 service's own methods say, and leaves what they leave.
 */
module SessionSolo {
  import opened Primitives
  import opened Sessions
  import opened SessionMachine

  /** How each access of a call goes: reading, generating a token, and writing. */
  datatype Luck = Luck(select: Fault, random: Option<Str>, save: Fault)

  function ChoiceAt(luck: Luck, pc: Pc): Choice {
    match pc
    case GetUser(_, _) | GetToken(_) => Choice(luck.select, None)
    case MakeToken(_, _, _) => Choice(Fine, luck.random)
    case SaveToken(_, _, _, _, _) | RevokeToken(_) => Choice(luck.save, None)
    case _ => Choice(Fine, None)
  }

  function StepsLeft(pc: Pc): nat {
    match pc
    case GetUser(_, _) => 4
    case MakeToken(_, _, _) => 3
    case SaveToken(_, _, _, _, _) => 2
    case GetToken(_) => 3
    case CheckToken(_, _) => 2
    case IssueToken(_, _, _, _) => 1
    case RevokeToken(_) => 1
    case Ended(_) => 0
  }

  /** The call runs to its end with nobody else taking a step. */
  function Solo(env: Env, w: World, pc: Pc, luck: Luck): (e: Effect)
    ensures e.pc.Ended?
    decreases StepsLeft(pc)
  {
    if pc.Ended? then Effect(w, pc)
    else
      var e := Act(env, w, pc, ChoiceAt(luck, pc));
      Solo(env, e.w, e.pc, luck)
  }

  lemma Onwards(env: Env, w: World, pc: Pc, luck: Luck)
    requires !pc.Ended?
    ensures var e := Act(env, w, pc, ChoiceAt(luck, pc)); Solo(env, w, pc, luck) == Solo(env, e.w, e.pc, luck)
  {
  }

  /** From saving the refresh token on. */
  lemma SaveAlone(env: Env, w: World, login: Str, password: Str, user: Str, token: Str, expiresAt: Time, luck: Luck)
    ensures var e := Solo(env, w, SaveToken(login, password, user, token, expiresAt), luck);
            var stored := !luck.save.LostBefore? && env.hash(token) !in w.rows;
            var started := LoggedIn(token, user, expiresAt, w.now, login, password);
            var jwt := IssueAccess(env, user, w.now);
            && e.pc == Ended(if stored && luck.save.Fine? then LoggedInWith(token, jwt) else Failure)
            && e.w.rows == (if stored then w.rows[env.hash(token) := RefreshRow(user, expiresAt, None)] else w.rows)
            && e.w.log == w.log + (if stored then [started] else [])
                                + (if stored && luck.save.Fine? then [Issued(jwt, w.now, |w.log|)] else [])
  {
    var save := SaveToken(login, password, user, token, expiresAt);
    Onwards(env, w, save, luck);
    var e := Act(env, w, save, ChoiceAt(luck, save));
    if e.pc.IssueToken? {
      Onwards(env, e.w, e.pc, luck);
    }
  }

  lemma LoginAlone(env: Env, w: World, login: Str, password: Str, luck: Luck)
    ensures var e := Solo(env, w, GetUser(login, password), luck);
            var known := login in w.users && env.matches(password, w.users[login].passwordHash);
            && (e.pc == Ended(InvalidCredentials) <==> luck.select.Fine? && !known)
            && (e.pc.reply.LoggedInWith? <==> luck.select.Fine? && known && luck.random.Some?
                                              && env.hash(luck.random.value) !in w.rows && luck.save.Fine?)
            && (e.pc.reply.LoggedInWith? ==>
                  var user, jwt, expiresAt := w.users[login].id, e.pc.reply.jwt, w.now + env.refreshTTL;
                  && e.pc.reply.token == luck.random.value && jwt == IssueAccess(env, user, w.now)
                  && e.w.rows == w.rows[env.hash(luck.random.value) := RefreshRow(user, expiresAt, None)]
                  && e.w.log == w.log + [LoggedIn(luck.random.value, user, expiresAt, w.now, login, password)]
                                      + [Issued(jwt, w.now, |w.log|)])
            && (!luck.select.Fine? || !known || luck.random.None? ==> e.w == w)
  {
    var get := GetUser(login, password);
    Onwards(env, w, get, luck);
    var made := Act(env, w, get, ChoiceAt(luck, get)).pc;
    if made.MakeToken? {
      Onwards(env, w, made, luck);
      if luck.random.Some? {
        SaveAlone(env, w, login, password, made.user, luck.random.value, w.now + env.refreshTTL, luck);
      }
    }
  }

  lemma RefreshAlone(env: Env, w: World, token: Str, luck: Luck)
    ensures var e := Solo(env, w, GetToken(token), luck);
            var h := env.hash(token);
            var good := h in w.rows && w.rows[h].revokedAt.None? && w.now <= w.rows[h].expiresAt;
            && e.w.rows == w.rows
            && (e.pc == Ended(Failure) <==> !luck.select.Fine?)
            && (e.pc == Ended(InvalidToken) <==> luck.select.Fine? && !good)
            && (luck.select.Fine? && good ==> e.pc == Ended(Access(IssueAccess(env, w.rows[h].user, w.now))))
  {
    var get := GetToken(token);
    Onwards(env, w, get, luck);
    var check := Act(env, w, get, ChoiceAt(luck, get)).pc;
    if check.CheckToken? {
      Onwards(env, w, check, luck);
      var issue := Act(env, w, check, ChoiceAt(luck, check)).pc;
      if issue.IssueToken? {
        Onwards(env, w, issue, luck);
      }
    }
  }

  lemma LogoutAlone(env: Env, w: World, token: Str, luck: Luck)
    ensures var e := Solo(env, w, RevokeToken(token), luck);
            var h := env.hash(token);
            && e.pc == Ended(if luck.save.Fine? then LoggedOutOk else Failure)
            && e.w.rows == (if !luck.save.LostBefore? && h in w.rows && w.rows[h].revokedAt.None?
                            then w.rows[h := w.rows[h].(revokedAt := Some(w.now))] else w.rows)
            && e.w.log == (if !luck.save.LostBefore? then w.log + [LoggedOut(token, w.now)] else w.log)
  {
    Onwards(env, w, RevokeToken(token), luck);
  }
}
