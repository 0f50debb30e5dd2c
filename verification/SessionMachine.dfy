/**
 The session protocol with calls in flight at once: Login and Refresh advance one access to the
 clock or the repository at a time, while logouts revoke and time passes.
 */
module SessionMachine {
  import opened Primitives
  import opened Sessions

  /** A row as a call has read it, and the event that stored it. */
  datatype Held = Held(row: RefreshRow, session: nat)

  datatype Reply = LoggedInWith(token: Str, jwt: Jwt) | Access(jwt: Jwt) | LoggedOutOk | InvalidCredentials | InvalidToken | Failure

  datatype Pc =
    | GetUser(login: Str, password: Str)
    | MakeToken(login: Str, password: Str, user: Str)
    | SaveToken(login: Str, password: Str, user: Str, token: Str, expiresAt: Time)
    | GetToken(token: Str)
    | CheckToken(token: Str, held: Held)
    | IssueToken(token: Str, user: Str, session: nat, first: bool)
    | RevokeToken(token: Str)
    | Ended(reply: Reply)

  datatype Call = Call(start: Time, pc: Pc)

  datatype World = World(now: Time, users: map<Str, User>, rows: map<Str, RefreshRow>, log: seq<Event>)

  datatype State = State(w: World, calls: map<nat, Call>)

  datatype Choice = Choice(fault: Fault, random: Option<Str>)

  datatype Step =
    | Tick(to: Time)
    | Register(login: Str, user: User)
    | BeginLogin(id: nat, login: Str, password: Str)
    | BeginRefresh(id: nat, token: Str)
    | BeginLogout(id: nat, token: Str)
    | Advance(id: nat, choice: Choice)

  datatype Effect = Effect(w: World, pc: Pc)

  function Init(now: Time): State {
    State(World(now, map[], map[], []), map[])
  }

  function Record(env: Env, w: World, e: Event): World {
    w.(rows := Replay(env, w.rows, e), log := w.log + [e])
  }

  /** The event that stored the token with the hash of `token`, among the first n: the latest one. */
  function SessionOf(env: Env, log: seq<Event>, token: Str): nat {
    if log == [] then 0
    else if log[|log| - 1].LoggedIn? && env.hash(log[|log| - 1].token) == env.hash(token) then |log| - 1
    else SessionOf(env, log[..|log| - 1], token)
  }

  /** One atomic step of a call. */
  function Act(env: Env, w: World, pc: Pc, choice: Choice): Effect
    requires !pc.Ended?
  {
    var fault := choice.fault;
    match pc
    case GetUser(login, password) =>
      if !fault.Fine? then Effect(w, Ended(Failure))
      else if login !in w.users || !env.matches(password, w.users[login].passwordHash) then Effect(w, Ended(InvalidCredentials))
      else Effect(w, MakeToken(login, password, w.users[login].id))
    case MakeToken(login, password, user) =>
      if choice.random.None? then Effect(w, Ended(Failure))
      else Effect(w, SaveToken(login, password, user, choice.random.value, w.now + env.refreshTTL))
    case SaveToken(login, password, user, token, expiresAt) =>
      if fault.LostBefore? || env.hash(token) in w.rows then Effect(w, Ended(Failure))
      else
        var w' := Record(env, w, LoggedIn(token, user, expiresAt, w.now, login, password));
        if fault.Fine? then Effect(w', IssueToken(token, user, |w.log|, true)) else Effect(w', Ended(Failure))
    case GetToken(token) =>
      if !fault.Fine? then Effect(w, Ended(Failure))
      else if env.hash(token) !in w.rows then Effect(w, Ended(InvalidToken))
      else Effect(w, CheckToken(token, Held(w.rows[env.hash(token)], SessionOf(env, w.log, token))))
    case CheckToken(token, held) =>
      if held.row.revokedAt.Some? || held.row.expiresAt < w.now then Effect(w, Ended(InvalidToken))
      else Effect(w, IssueToken(token, held.row.user, held.session, false))
    case IssueToken(token, user, session, first) =>
      var jwt := IssueAccess(env, user, w.now);
      Effect(Record(env, w, Issued(jwt, w.now, session)),
             Ended(if first then LoggedInWith(token, jwt) else Access(jwt)))
    case RevokeToken(token) =>
      Effect(if TakesEffect(fault) then Record(env, w, LoggedOut(token, w.now)) else w,
             Ended(if fault.Fine? then LoggedOutOk else Failure))
  }

  /** Time passes only as long as no call in flight outlasts `bound`. */
  predicate Enabled(bound: Time, s: State, step: Step) {
    match step
    case Tick(to) => s.w.now <= to && forall id :: id in s.calls && !s.calls[id].pc.Ended? ==> to <= s.calls[id].start + bound
    case Register(login, _) => login !in s.w.users
    case BeginLogin(id, _, _) => id !in s.calls
    case BeginRefresh(id, _) => id !in s.calls
    case BeginLogout(id, _) => id !in s.calls
    case Advance(id, _) => id in s.calls && !s.calls[id].pc.Ended?
  }

  function Apply(env: Env, bound: Time, s: State, step: Step): State
    requires Enabled(bound, s, step)
  {
    match step
    case Tick(to) => s.(w := s.w.(now := to))
    case Register(login, user) => s.(w := s.w.(users := s.w.users[login := user]))
    case BeginLogin(id, login, password) => s.(calls := s.calls[id := Call(s.w.now, GetUser(login, password))])
    case BeginRefresh(id, token) => s.(calls := s.calls[id := Call(s.w.now, GetToken(token))])
    case BeginLogout(id, token) => s.(calls := s.calls[id := Call(s.w.now, RevokeToken(token))])
    case Advance(id, choice) =>
      var e := Act(env, s.w, s.calls[id].pc, choice);
      State(e.w, s.calls[id := s.calls[id].(pc := e.pc)])
  }

  ghost predicate Runs(env: Env, bound: Time, s: State, steps: seq<Step>)
    decreases |steps|, 0
  {
    steps == [] ||
    (var n := |steps| - 1;
     Runs(env, bound, s, steps[..n]) && Enabled(bound, After(env, bound, s, steps[..n]), steps[n]))
  }

  ghost function After(env: Env, bound: Time, s: State, steps: seq<Step>): State
    requires Runs(env, bound, s, steps)
    decreases |steps|, 1
  {
    if steps == [] then s
    else
      var n := |steps| - 1;
      Apply(env, bound, After(env, bound, s, steps[..n]), steps[n])
  }

  // ------- The invariant -------

  /** Event `i` started a session of `user` under the hash of `token`. */
  predicate Started(env: Env, log: seq<Event>, i: nat, token: Str, user: Str) {
    i < |log| && log[i].LoggedIn? && env.hash(log[i].token) == env.hash(token) && log[i].user == user
  }

  /** No logout has revoked the session that event `i` started before `t`. */
  ghost predicate UnrevokedUntil(env: Env, log: seq<Event>, i: nat, t: Time)
    requires i < |log| && log[i].LoggedIn?
  {
    forall j :: i < j < |log| && log[j].LoggedOut? && env.hash(log[j].token) == env.hash(log[i].token) ==> t <= log[j].at
  }

  /** An access token issued in a session carries the session's user, and neither the session's
      expiry nor any of its logouts lies more than `bound` before its issue. */
  ghost predicate MintOk(env: Env, bound: Time, log: seq<Event>, k: nat)
    requires k < |log| && log[k].Issued?
  {
    var i := log[k].session;
    && i < k && log[i].LoggedIn?
    && log[k].jwt == IssueAccess(env, log[i].user, log[k].at)
    && log[k].at <= log[i].expiresAt + bound
    && UnrevokedUntil(env, log, i, log[k].at - bound)
  }

  /** A session starts only with the password of a registered login, for that login's user. */
  predicate LoginOk(env: Env, users: map<Str, User>, login: Str, password: Str, user: Str) {
    login in users && users[login].id == user && env.matches(password, users[login].passwordHash)
  }

  ghost predicate WorldOk(env: Env, bound: Time, w: World) {
    && UniqueHashes(env, w.log)
    && w.rows == Rows(env, w.log)
    && (forall i :: 0 <= i < |w.log| ==> w.log[i].at <= w.now)
    && (forall k :: 0 <= k < |w.log| && w.log[k].Issued? ==> MintOk(env, bound, w.log, k))
    && (forall i :: 0 <= i < |w.log| && w.log[i].LoggedIn? ==> LoginOk(env, w.users, w.log[i].login, w.log[i].password, w.log[i].user))
  }

  ghost predicate PcOk(env: Env, w: World, start: Time, pc: Pc) {
    match pc
    case MakeToken(login, password, user) => LoginOk(env, w.users, login, password, user)
    case SaveToken(login, password, user, _, expiresAt) =>
      LoginOk(env, w.users, login, password, user) && start + env.refreshTTL <= expiresAt
    case CheckToken(token, held) =>
      && Started(env, w.log, held.session, token, held.row.user)
      && w.log[held.session].expiresAt == held.row.expiresAt
      && (held.row.revokedAt.None? ==> UnrevokedUntil(env, w.log, held.session, start))
    case IssueToken(token, user, session, _) =>
      && Started(env, w.log, session, token, user)
      && start <= w.log[session].expiresAt
      && UnrevokedUntil(env, w.log, session, start)
    case _ => true
  }

  ghost predicate CallOk(env: Env, bound: Time, w: World, call: Call) {
    && call.start <= w.now
    && (!call.pc.Ended? ==> w.now <= call.start + bound)
    && PcOk(env, w, call.start, call.pc)
  }

  ghost predicate Inv(env: Env, bound: Time, s: State) {
    WorldOk(env, bound, s.w) && forall id :: id in s.calls ==> CallOk(env, bound, s.w, s.calls[id])
  }

  // ------- Its preservation -------

  ghost predicate Grows(w: World, w': World) {
    && w'.now == w.now && w'.users == w.users
    && (w'.log == w.log ||
        (|w'.log| == |w.log| + 1 && w'.log[..|w.log|] == w.log && w'.log[|w.log|].at == w.now))
  }

  lemma EventsKept(w: World, w': World, k: nat)
    requires Grows(w, w') && k < |w.log|
    ensures k < |w'.log| && w'.log[k] == w.log[k]
  {
    assert w'.log[..|w.log|][k] == w.log[k];
  }

  lemma UnrevokedGrows(env: Env, w: World, w': World, i: nat, t: Time)
    requires Grows(w, w') && i < |w.log| && w.log[i].LoggedIn? && UnrevokedUntil(env, w.log, i, t) && t <= w.now
    ensures i < |w'.log| && w'.log[i].LoggedIn? && UnrevokedUntil(env, w'.log, i, t)
  {
    EventsKept(w, w', i);
    forall j | i < j < |w'.log| && w'.log[j].LoggedOut? && env.hash(w'.log[j].token) == env.hash(w'.log[i].token)
      ensures t <= w'.log[j].at
    {
      if j < |w.log| {
        EventsKept(w, w', j);
      }
    }
  }

  lemma CallOkGrows(env: Env, bound: Time, w: World, w': World, call: Call)
    requires Grows(w, w') && CallOk(env, bound, w, call)
    ensures CallOk(env, bound, w', call)
  {
    match call.pc
    case CheckToken(_, held) =>
      EventsKept(w, w', held.session);
      if held.row.revokedAt.None? {
        UnrevokedGrows(env, w, w', held.session, call.start);
      }
    case IssueToken(_, _, session, _) =>
      EventsKept(w, w', session);
      UnrevokedGrows(env, w, w', session, call.start);
    case _ =>
  }

  lemma MintGrows(env: Env, bound: Time, w: World, w': World, k: nat)
    requires Grows(w, w') && WorldOk(env, bound, w) && 0 <= bound
    requires k < |w.log| && w.log[k].Issued?
    ensures k < |w'.log| && w'.log[k].Issued? && MintOk(env, bound, w'.log, k)
  {
    EventsKept(w, w', k);
    assert MintOk(env, bound, w.log, k);
    EventsKept(w, w', w.log[k].session);
    UnrevokedGrows(env, w, w', w.log[k].session, w.log[k].at - bound);
  }

  lemma HashesStayUnique(env: Env, log: seq<Event>, e: Event)
    requires UniqueHashes(env, log) && (e.LoggedIn? ==> env.hash(e.token) !in Rows(env, log))
    ensures UniqueHashes(env, log + [e])
  {
    var more := log + [e];
    assert more[..|log|] == log;
    forall n | 0 <= n < |more| && more[n].LoggedIn? ensures env.hash(more[n].token) !in Rows(env, more[..n]) {
      assert n < |log| ==> more[..n] == log[..n];
    }
  }

  lemma MintsStay(env: Env, bound: Time, w: World, w': World)
    requires WorldOk(env, bound, w) && 0 <= bound && Grows(w, w') && |w'.log| == |w.log| + 1
    requires w'.log[|w.log|].Issued? ==> MintOk(env, bound, w'.log, |w.log|)
    ensures forall k :: 0 <= k < |w'.log| && w'.log[k].Issued? ==> MintOk(env, bound, w'.log, k)
  {
    forall k | 0 <= k < |w'.log| && w'.log[k].Issued? ensures MintOk(env, bound, w'.log, k) {
      if k < |w.log| {
        EventsKept(w, w', k);
        MintGrows(env, bound, w, w', k);
      }
    }
  }

  lemma LoginsStay(env: Env, bound: Time, w: World, w': World)
    requires WorldOk(env, bound, w) && Grows(w, w') && |w'.log| == |w.log| + 1
    requires var e := w'.log[|w.log|]; e.LoggedIn? ==> LoginOk(env, w.users, e.login, e.password, e.user)
    ensures forall i :: 0 <= i < |w'.log| ==> w'.log[i].at <= w'.now
    ensures forall i :: 0 <= i < |w'.log| && w'.log[i].LoggedIn? ==>
              LoginOk(env, w'.users, w'.log[i].login, w'.log[i].password, w'.log[i].user)
  {
    forall i | 0 <= i < |w.log| ensures w'.log[i] == w.log[i] {
      EventsKept(w, w', i);
    }
  }

  /** An event that fits the history keeps the world in order. */
  lemma RecordOk(env: Env, bound: Time, w: World, e: Event)
    requires WorldOk(env, bound, w) && 0 <= bound && e.at == w.now
    requires e.LoggedIn? ==> env.hash(e.token) !in w.rows && LoginOk(env, w.users, e.login, e.password, e.user)
    requires e.Issued? ==> MintOk(env, bound, w.log + [e], |w.log|)
    ensures WorldOk(env, bound, Record(env, w, e)) && Grows(w, Record(env, w, e))
  {
    var w' := Record(env, w, e);
    assert w'.log[..|w.log|] == w.log;
    HashesStayUnique(env, w.log, e);
    MintsStay(env, bound, w, w');
    LoginsStay(env, bound, w, w');
  }

  /** A row was stored by the event that SessionOf names; it is unrevoked only while no logout of
      its hash follows that event. */
  lemma {:induction false} RowSession(env: Env, log: seq<Event>, token: Str)
    requires UniqueHashes(env, log) && env.hash(token) in Rows(env, log)
    ensures var i, row := SessionOf(env, log, token), Rows(env, log)[env.hash(token)];
            && Started(env, log, i, token, row.user) && log[i].expiresAt == row.expiresAt
            && (row.revokedAt.None? ==>
                forall j :: i < j < |log| && log[j].LoggedOut? ==> env.hash(log[j].token) != env.hash(token))
  {
    var n := |log| - 1;
    var e, past := log[n], log[..n];
    if !(e.LoggedIn? && env.hash(e.token) == env.hash(token)) {
      UniquePrefix(env, log, n);
      RowSession(env, past, token);
      var i := SessionOf(env, past, token);
      assert past[i] == log[i];
      assert forall j :: 0 <= j < n ==> past[j] == log[j];
    }
  }

  lemma RowRead(env: Env, bound: Time, w: World, token: Str, start: Time)
    requires WorldOk(env, bound, w) && env.hash(token) in w.rows
    ensures PcOk(env, w, start, CheckToken(token, Held(w.rows[env.hash(token)], SessionOf(env, w.log, token))))
  {
    RowSession(env, w.log, token);
  }

  /** The step of a call keeps the world in order, only adds to its history, and keeps the call so. */
  ghost predicate ActKeeps(env: Env, bound: Time, w: World, call: Call, e: Effect) {
    WorldOk(env, bound, e.w) && Grows(w, e.w) && PcOk(env, e.w, call.start, e.pc)
  }

  lemma ActOk(env: Env, bound: Time, w: World, call: Call, choice: Choice)
    requires WorldOk(env, bound, w) && CallOk(env, bound, w, call) && !call.pc.Ended?
    requires 0 <= bound && 0 <= env.refreshTTL
    ensures ActKeeps(env, bound, w, call, Act(env, w, call.pc, choice))
  {
    match call.pc
    case SaveToken(_, _, _, _, _) => SaveOk(env, bound, w, call, choice);
    case IssueToken(_, _, _, _) => IssueOk(env, bound, w, call, choice);
    case RevokeToken(_) => RevokeOk(env, bound, w, call, choice);
    case _ => ReadOk(env, bound, w, call, choice);
  }

  /** The steps that change nothing but the call. */
  lemma ReadOk(env: Env, bound: Time, w: World, call: Call, choice: Choice)
    requires WorldOk(env, bound, w) && CallOk(env, bound, w, call)
    requires call.pc.GetUser? || call.pc.MakeToken? || call.pc.GetToken? || call.pc.CheckToken?
    ensures ActKeeps(env, bound, w, call, Act(env, w, call.pc, choice))
  {
    var e := Act(env, w, call.pc, choice);
    assert e.w == w;
    if call.pc.GetToken? && env.hash(call.pc.token) in w.rows {
      RowRead(env, bound, w, call.pc.token, call.start);
    }
  }

  lemma IssueOk(env: Env, bound: Time, w: World, call: Call, choice: Choice)
    requires WorldOk(env, bound, w) && CallOk(env, bound, w, call) && call.pc.IssueToken? && 0 <= bound
    ensures ActKeeps(env, bound, w, call, Act(env, w, call.pc, choice))
  {
    var e := Issued(IssueAccess(env, call.pc.user, w.now), w.now, call.pc.session);
    IssueFits(env, bound, w, call, e);
    RecordOk(env, bound, w, e);
  }

  lemma RevokeOk(env: Env, bound: Time, w: World, call: Call, choice: Choice)
    requires WorldOk(env, bound, w) && call.pc.RevokeToken? && 0 <= bound
    ensures ActKeeps(env, bound, w, call, Act(env, w, call.pc, choice))
  {
    RecordOk(env, bound, w, LoggedOut(call.pc.token, w.now));
  }

  /** A session starts unrevoked. */
  lemma SavedOk(env: Env, w: World, w': World, e: Event, start: Time)
    requires w'.log == w.log + [e] && e.LoggedIn? && start <= e.expiresAt
    ensures PcOk(env, w', start, IssueToken(e.token, e.user, |w.log|, true))
  {
    assert w'.log[|w.log|] == e;
  }

  lemma SaveOk(env: Env, bound: Time, w: World, call: Call, choice: Choice)
    requires WorldOk(env, bound, w) && CallOk(env, bound, w, call) && call.pc.SaveToken?
    requires 0 <= bound && 0 <= env.refreshTTL
    ensures ActKeeps(env, bound, w, call, Act(env, w, call.pc, choice))
  {
    var SaveToken(login, password, user, token, expiresAt) := call.pc;
    if env.hash(token) !in w.rows {
      var e := LoggedIn(token, user, expiresAt, w.now, login, password);
      RecordOk(env, bound, w, e);
      SavedOk(env, w, Record(env, w, e), e, call.start);
    }
  }

  lemma IssueFits(env: Env, bound: Time, w: World, call: Call, e: Event)
    requires CallOk(env, bound, w, call) && call.pc.IssueToken?
    requires e == Issued(IssueAccess(env, call.pc.user, w.now), w.now, call.pc.session)
    ensures MintOk(env, bound, w.log + [e], |w.log|)
  {
    var log, i := w.log + [e], call.pc.session;
    assert log[i] == w.log[i];
    forall j | i < j < |log| && log[j].LoggedOut? && env.hash(log[j].token) == env.hash(log[i].token)
      ensures w.now - bound <= log[j].at
    {
      assert log[j] == w.log[j];
    }
  }

  lemma StepOk(env: Env, bound: Time, s: State, step: Step)
    requires Inv(env, bound, s) && 0 <= bound && 0 <= env.refreshTTL && Enabled(bound, s, step)
    ensures Inv(env, bound, Apply(env, bound, s, step))
  {
    var s' := Apply(env, bound, s, step);
    match step
    case Tick(_) =>
    case Register(_, _) => RegisterOk(env, bound, s, step);
    case Advance(id, choice) =>
      ActOk(env, bound, s.w, s.calls[id], choice);
      forall other | other in s.calls ensures CallOk(env, bound, s'.w, s.calls[other]) || other == id {
        CallOkGrows(env, bound, s.w, s'.w, s.calls[other]);
      }
    case _ =>
  }

  lemma RegisterOk(env: Env, bound: Time, s: State, step: Step)
    requires Inv(env, bound, s) && step.Register? && Enabled(bound, s, step)
    ensures Inv(env, bound, Apply(env, bound, s, step))
  {
    var s' := Apply(env, bound, s, step);
    forall id | id in s'.calls ensures CallOk(env, bound, s'.w, s'.calls[id]) {
      assert CallOk(env, bound, s.w, s.calls[id]);
    }
  }

  lemma {:induction false} RunOk(env: Env, bound: Time, t0: Time, steps: seq<Step>)
    requires 0 <= bound && 0 <= env.refreshTTL && Runs(env, bound, Init(t0), steps)
    ensures Inv(env, bound, After(env, bound, Init(t0), steps))
  {
    if steps != [] {
      var n := |steps| - 1;
      RunOk(env, bound, t0, steps[..n]);
      StepOk(env, bound, After(env, bound, Init(t0), steps[..n]), steps[n]);
    }
  }

  // ------- The results -------

  /** The last instant at which an access token can be accepted whose session was over at `over`:
      accessTTL and the length of a call later, cut to whole seconds. */
  function CutOff(env: Env, bound: Time, over: Time): Time {
    TruncateToSecond(over + bound + env.accessTTL)
  }

  /** Session cut-off, over every run of every interleaving: an access token is accepted, as its
      session's user, no later than the cut-off of its session's expiry and of each of its logouts.
      Authenticate itself reads no row. */
  lemma MintCutOff(env: Env, bound: Time, t0: Time, steps: seq<Step>, k: nat, now: Time)
    requires 0 <= bound && 0 <= env.refreshTTL && Runs(env, bound, Init(t0), steps)
    requires var log := End(env, bound, t0, steps).log; k < |log| && log[k].Issued?
    requires Authenticated(env, End(env, bound, t0, steps).log[k].jwt, now).Some?
    ensures var log := End(env, bound, t0, steps).log;
            var i := log[k].session;
            && i < k && log[i].LoggedIn?
            && Authenticated(env, log[k].jwt, now) == Some(log[i].user)
            && now <= CutOff(env, bound, log[i].expiresAt)
            && forall j :: i < j < |log| && log[j].LoggedOut? && env.hash(log[j].token) == env.hash(log[i].token) ==>
                 now <= CutOff(env, bound, log[j].at)
  {
    RunOk(env, bound, t0, steps);
    MintAccepted(env, bound, End(env, bound, t0, steps).log, k, now);
  }

  lemma MintAccepted(env: Env, bound: Time, log: seq<Event>, k: nat, now: Time)
    requires k < |log| && log[k].Issued? && MintOk(env, bound, log, k)
    requires Authenticated(env, log[k].jwt, now).Some?
    ensures var i := log[k].session;
            && i < k && log[i].LoggedIn?
            && Authenticated(env, log[k].jwt, now) == Some(log[i].user)
            && now <= CutOff(env, bound, log[i].expiresAt)
            && forall j :: i < j < |log| && log[j].LoggedOut? && env.hash(log[j].token) == env.hash(log[i].token) ==>
                 now <= CutOff(env, bound, log[j].at)
  {
    var i, at := log[k].session, log[k].at;
    AcceptedBefore(env, bound, log[i].user, at, log[i].expiresAt, now);
    forall j | i < j < |log| && log[j].LoggedOut? && env.hash(log[j].token) == env.hash(log[i].token)
      ensures now <= CutOff(env, bound, log[j].at)
    {
      AcceptedBefore(env, bound, log[i].user, at, log[j].at, now);
    }
  }

  lemma AcceptedBefore(env: Env, bound: Time, user: Str, at: Time, over: Time, now: Time)
    requires at <= over + bound && Authenticated(env, IssueAccess(env, user, at), now).Some?
    ensures Authenticated(env, IssueAccess(env, user, at), now) == Some(user) && now <= CutOff(env, bound, over)
  {
    IssuedAuthenticates(env, user, at, now);
    TruncateMonotone(at + env.accessTTL, over + bound + env.accessTTL);
  }

  ghost function End(env: Env, bound: Time, t0: Time, steps: seq<Step>): World
    requires Runs(env, bound, Init(t0), steps)
  {
    After(env, bound, Init(t0), steps).w
  }

  /** Unforgeability: a token whose tag is the signature of its claims has been issued. */
  ghost predicate Unforged(env: Env, log: seq<Event>, jwt: Jwt) {
    jwt.tag == env.sign(jwt.subject, jwt.exp) ==> exists k :: 0 <= k < |log| && log[k].Issued? && log[k].jwt == jwt
  }

  /** Whoever is authenticated had logged in: under unforgeability, the user of an accepted token is
      the user of a login whose password matched, and no cut-off of that session has passed. */
  lemma AuthenticatedLoggedIn(env: Env, bound: Time, t0: Time, steps: seq<Step>, jwt: Jwt, now: Time) returns (i: nat)
    requires 0 <= bound && 0 <= env.refreshTTL && Runs(env, bound, Init(t0), steps)
    requires Unforged(env, End(env, bound, t0, steps).log, jwt)
    requires Authenticated(env, jwt, now).Some?
    ensures var w := End(env, bound, t0, steps);
            && i < |w.log| && w.log[i].LoggedIn?
            && Authenticated(env, jwt, now) == Some(w.log[i].user)
            && LoginOk(env, w.users, w.log[i].login, w.log[i].password, w.log[i].user)
            && now <= CutOff(env, bound, w.log[i].expiresAt)
            && forall j :: i < j < |w.log| && w.log[j].LoggedOut? && env.hash(w.log[j].token) == env.hash(w.log[i].token) ==>
                 now <= CutOff(env, bound, w.log[j].at)
  {
    RunOk(env, bound, t0, steps);
    var log := End(env, bound, t0, steps).log;
    var k :| 0 <= k < |log| && log[k].Issued? && log[k].jwt == jwt;
    MintCutOff(env, bound, t0, steps, k, now);
    i := log[k].session;
  }

  /** The rows always tell the history, so that RefreshCharacterised and RejectedForever speak
      about every reachable state. */
  lemma RowsReachable(env: Env, bound: Time, t0: Time, steps: seq<Step>)
    requires 0 <= bound && 0 <= env.refreshTTL && Runs(env, bound, Init(t0), steps)
    ensures var w := End(env, bound, t0, steps); UniqueHashes(env, w.log) && w.rows == Rows(env, w.log)
  {
    RunOk(env, bound, t0, steps);
  }

  // ------- The cut-off is no sooner -------

  lemma LoginPrepared(env: Env, bound: Time, login: Str, password: Str, user: User, token: Str) returns (steps: seq<Step>, s: State)
    requires 0 <= bound && env.matches(password, user.passwordHash)
    ensures Reached(env, bound, steps, s)
    ensures s.w == World(0, map[login := user], map[], [])
    ensures s.calls == map[0 := Call(0, SaveToken(login, password, user.id, token, env.refreshTTL))]
  {
    steps, s := [], Init(0);
    steps, s := Then(env, bound, steps, s, Register(login, user));
    steps, s := Then(env, bound, steps, s, BeginLogin(0, login, password));
    steps, s := Then(env, bound, steps, s, Advance(0, Choice(Fine, None)));
    steps, s := Then(env, bound, steps, s, Advance(0, Choice(Fine, Some(token))));
  }

  lemma LoggedInOnce(env: Env, bound: Time, login: Str, password: Str, user: User, token: Str) returns (steps: seq<Step>, s: State)
    requires 0 <= bound && env.matches(password, user.passwordHash)
    ensures Reached(env, bound, steps, s)
    ensures s.w.now == 0 && |s.w.log| == 2
    ensures s.w.log[0] == LoggedIn(token, user.id, env.refreshTTL, 0, login, password) && s.w.log[1].Issued?
    ensures s.w.rows == map[env.hash(token) := RefreshRow(user.id, env.refreshTTL, None)]
    ensures s.calls.Keys == {0} && s.calls[0].pc.Ended?
  {
    steps, s := LoginPrepared(env, bound, login, password, user, token);
    steps, s := Then(env, bound, steps, s, Advance(0, Choice(Fine, None)));
    steps, s := Then(env, bound, steps, s, Advance(0, Choice(Fine, None)));
  }

  /** A session, and a refresh of it that has read its row when a logout revokes the row and returns. */
  lemma RefreshOvertaken(env: Env, bound: Time, login: Str, password: Str, user: User, token: Str) returns (steps: seq<Step>, s: State)
    requires 0 <= bound && 0 <= env.refreshTTL && env.matches(password, user.passwordHash)
    ensures Reached(env, bound, steps, s)
    ensures s.w.now == 0 && |s.w.log| == 3
    ensures s.w.log[0] == LoggedIn(token, user.id, env.refreshTTL, 0, login, password)
    ensures s.w.log[2] == LoggedOut(token, 0)
    ensures s.calls.Keys == {0, 1, 2} && s.calls[0].pc.Ended? && s.calls[2].pc == Ended(LoggedOutOk)
    ensures s.calls[1] == Call(0, IssueToken(token, user.id, 0, false))
  {
    var fine := Choice(Fine, None);
    steps, s := LoggedInOnce(env, bound, login, password, user, token);
    steps, s := Then(env, bound, steps, s, BeginRefresh(1, token));
    steps, s := ReadRow(env, bound, steps, s, token, fine);
    steps, s := Then(env, bound, steps, s, BeginLogout(2, token));
    steps, s := Then(env, bound, steps, s, Advance(2, fine));
  }

  lemma ReadRow(env: Env, bound: Time, steps: seq<Step>, s: State, token: Str, fine: Choice) returns (more: seq<Step>, s': State)
    requires Reached(env, bound, steps, s) && fine.fault.Fine?
    requires 1 in s.calls && s.calls[1].pc == GetToken(token)
    requires |s.w.log| == 2 && s.w.log[0].LoggedIn? && s.w.log[0].token == token && s.w.log[1].Issued?
    requires env.hash(token) in s.w.rows
    requires s.w.rows[env.hash(token)].revokedAt.None? && s.w.now <= s.w.rows[env.hash(token)].expiresAt
    ensures Reached(env, bound, more, s') && s'.w == s.w
    ensures s'.calls == s.calls[1 := s.calls[1].(pc := IssueToken(token, s.w.rows[env.hash(token)].user, 0, false))]
  {
    assert s.w.log[..1][0] == s.w.log[0];
    assert SessionOf(env, s.w.log[..1], token) == 0;
    assert SessionOf(env, s.w.log, token) == 0;
    more, s' := Then(env, bound, steps, s, Advance(1, fine));
    more, s' := Then(env, bound, more, s', Advance(1, fine));
  }

  ghost predicate Reached(env: Env, bound: Time, steps: seq<Step>, s: State) {
    Runs(env, bound, Init(0), steps) && After(env, bound, Init(0), steps) == s
  }

  lemma Then(env: Env, bound: Time, steps: seq<Step>, s: State, step: Step) returns (more: seq<Step>, s': State)
    requires Reached(env, bound, steps, s) && Enabled(bound, s, step)
    ensures s' == Apply(env, bound, s, step) && Reached(env, bound, more, s')
  {
    more, s' := steps + [step], Apply(env, bound, s, step);
    assert more[..|more| - 1] == steps;
  }

  lemma StillAccepted(env: Env, bound: Time, user: Str, over: Time)
    ensures Authenticated(env, IssueAccess(env, user, over + bound), CutOff(env, bound, over)) == Some(user)
  {
    IssuedAuthenticates(env, user, over + bound, CutOff(env, bound, over));
  }

  /** The cut-off cannot be moved forward: in some run a session is logged out, with success, at an
      instant L, and an access token issued in it is still accepted at the cut-off of L. */
  lemma CutOffReached(env: Env, bound: Time, login: Str, password: Str, user: User, token: Str)
    returns (steps: seq<Step>, s: State)
    requires 0 <= bound && 0 <= env.refreshTTL && env.matches(password, user.passwordHash)
    ensures Reached(env, bound, steps, s)
    ensures |s.w.log| == 4 && s.w.log[2] == LoggedOut(token, 0) && s.calls.Keys == {0, 1, 2} && s.calls[2].pc == Ended(LoggedOutOk)
    ensures s.w.log[0].LoggedIn? && s.w.log[0].token == token && s.w.log[3].Issued? && s.w.log[3].session == 0
    ensures s.calls[1].pc == Ended(Access(s.w.log[3].jwt))
    ensures Authenticated(env, s.w.log[3].jwt, CutOff(env, bound, s.w.log[2].at)) == Some(user.id)
  {
    steps, s := RefreshOvertaken(env, bound, login, password, user, token);
    steps, s := Then(env, bound, steps, s, Tick(bound));
    var jwt := IssueAccess(env, user.id, bound);
    steps, s := Then(env, bound, steps, s, Advance(1, Choice(Fine, None)));
    assert s.w.log[3] == Issued(jwt, bound, 0);
    StillAccepted(env, bound, user.id, 0);
  }

  /** Nor can the cut-off of the expiry: in some run nobody logs out, and an access token issued in
      the session is still accepted at the cut-off of the instant at which the session expired. */
  lemma ExpiryCutOffReached(env: Env, bound: Time, login: Str, password: Str, user: User, token: Str)
    returns (steps: seq<Step>, s: State)
    requires 0 <= bound && 0 <= env.refreshTTL && env.matches(password, user.passwordHash)
    ensures Reached(env, bound, steps, s)
    ensures |s.w.log| == 3 && s.w.log[0].LoggedIn? && s.w.log[0].token == token
    ensures s.w.log[2].Issued? && s.w.log[2].session == 0
    ensures s.calls.Keys == {0, 1} && s.calls[1].pc == Ended(Access(s.w.log[2].jwt))
    ensures Authenticated(env, s.w.log[2].jwt, CutOff(env, bound, s.w.log[0].expiresAt)) == Some(user.id)
  {
    var fine, expiry := Choice(Fine, None), env.refreshTTL;
    steps, s := LoggedInOnce(env, bound, login, password, user, token);
    steps, s := Then(env, bound, steps, s, Tick(expiry));
    steps, s := Then(env, bound, steps, s, BeginRefresh(1, token));
    steps, s := ReadRow(env, bound, steps, s, token, fine);
    steps, s := Then(env, bound, steps, s, Tick(expiry + bound));
    var jwt := IssueAccess(env, user.id, expiry + bound);
    steps, s := Then(env, bound, steps, s, Advance(1, fine));
    assert s.w.log[2] == Issued(jwt, expiry + bound, 0);
    StillAccepted(env, bound, user.id, expiry);
  }
}
