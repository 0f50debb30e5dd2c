/**
 The cache-aside protocol of the shortener as a state machine: calls of createToken, ResolveToken
 and DeleteToken in flight at once, each advancing one access to the clock, the repository or the
 cache at a time.
 */
module CacheAside {
  import opened Primitives
  import opened Store

  /** A row together with the position in the log of the insert that made it. */
  datatype Version = Version(row: Row, gen: nat)

  /** A cache entry. `gen`, `computedAt` and `writtenAt` only record where it came from. */
  datatype Copy = Copy(url: Str, expiry: Expiry, gen: nat, computedAt: Time, writtenAt: Time)

  /** The history of the repository: every effective insert and delete. A delete records the row that
      its call had seen, and how long the history was then. */
  datatype Event =
    | Inserted(token: Str, row: Row, at: Time, creator: nat, raw: Str)
    | Deleted(token: Str, gen: nat, at: Time, requester: Str, seen: Version, readAt: nat)

  datatype World = World(now: Time, rows: map<Str, Version>, cache: map<Str, Copy>, log: seq<Event>)

  datatype Request =
    | Resolve(token: Str)
    | Create(input: CreateInput)
    | Delete(token: Str, requester: Str)

  datatype Reply =
    | Found(url: Str, gen: nat)
    | Expired
    | NotExist
    | RepoFailure
    | Created(token: Str, version: Version)
    | Refused(error: CreateError)
    | NotUnique(token: Str)
    | NotOwner
    | CacheFailure
    | Gone

  /** Where a call stands: what it does when it is scheduled next, with its local variables. */
  datatype Pc =
    | CacheGet(token: Str)
    | RepoGet(token: Str)
    | CheckExpiry(token: Str, v: Version)
    | ComputeTtl(token: Str, v: Version, reply: Reply)
    | CacheSet(token: Str, v: Version, ttl: Time, computedAt: Time, reply: Reply)
    | PrepareRow(input: CreateInput)
    | Insert(token: Str, row: Row, raw: Str)
    | DeleteGet(token: Str, requester: Str)
    | CacheDelete(token: Str, requester: Str, seen: Version, readAt: nat)
    | RepoDelete(token: Str, requester: Str, seen: Version, readAt: nat)
    | Finished(reply: Reply, at: Time)

  datatype Call = Call(request: Request, start: Time, pc: Pc)

  datatype State = State(w: World, calls: map<nat, Call>)

  /** What the scheduler and the environment choose for one step of one call. */
  datatype Choice = Choice(fault: Fault, random: Option<Str>)

  datatype Step =
    | Tick(to: Time)
    | Evict(token: Str)
    | Begin(id: nat, request: Request)
    | Advance(id: nat, choice: Choice)

  function Init(now: Time): State {
    State(World(now, map[], map[], []), map[])
  }

  function FirstPc(r: Request): Pc {
    match r
    case Resolve(token) => CacheGet(token)
    case Create(input) => PrepareRow(input)
    case Delete(token, requester) => DeleteGet(token, requester)
  }

  // ------- One step of one call -------

  /** A call's access to the world: the world it leaves and where the call stands after it. */
  datatype Effect = Effect(w: World, pc: Pc)

  function Finish(w: World, reply: Reply): Effect {
    Effect(w, Finished(reply, w.now))
  }

  /** One atomic step of the call `id`. Any repository or cache access may fail. */
  function Act(c: Config, w: World, id: nat, pc: Pc, choice: Choice): Effect
    requires !pc.Finished?
  {
    var fault := choice.fault;
    match pc
    case CacheGet(token) =>
      if fault.Fine? && token in w.cache && Live(w.cache[token].expiry, w.now)
      then Finish(w, Found(w.cache[token].url, w.cache[token].gen))
      else Effect(w, RepoGet(token))
    case RepoGet(token) =>
      if !fault.Fine? then Finish(w, RepoFailure)
      else if token !in w.rows then Finish(w, NotExist)
      else Effect(w, CheckExpiry(token, w.rows[token]))
    case CheckExpiry(token, v) =>
      if v.row.expiresAt < w.now then Finish(w, Expired)
      else Effect(w, ComputeTtl(token, v, Found(v.row.url, v.gen)))
    case ComputeTtl(token, v, reply) =>
      Effect(w, CacheSet(token, v, Min(c.maxCacheTTL, v.row.expiresAt - w.now), w.now, reply))
    case CacheSet(token, v, ttl, computedAt, reply) =>
      Finish(if TakesEffect(fault) then WriteCache(c, w, token, v, ttl, computedAt) else w, reply)
    case PrepareRow(input) =>
      (match Prepare(c, input, choice.random, w.now)
       case Rejected(e) => Finish(w, Refused(e))
       case Ready(token, row) => Effect(w, Insert(token, row, input.url)))
    case Insert(token, row, raw) =>
      if fault.LostBefore? then Finish(w, RepoFailure)
      else if token in w.rows then Finish(w, if fault.Fine? then NotUnique(token) else RepoFailure)
      else if fault.LostAfter? then Finish(InsertRow(w, token, row, id, raw), RepoFailure)
      else
        var v := Version(row, |w.log|);
        Effect(InsertRow(w, token, row, id, raw), ComputeTtl(token, v, Created(token, v)))
    case DeleteGet(token, requester) =>
      if !fault.Fine? then Finish(w, RepoFailure)
      else if token !in w.rows then Finish(w, Gone)
      else if w.rows[token].row.owner != requester then Finish(w, NotOwner)
      else Effect(w, CacheDelete(token, requester, w.rows[token], |w.log|))
    case CacheDelete(token, requester, seen, readAt) =>
      var w' := if TakesEffect(fault) then w.(cache := w.cache - {token}) else w;
      if fault.Fine? then Effect(w', RepoDelete(token, requester, seen, readAt)) else Finish(w', CacheFailure)
    case RepoDelete(token, requester, seen, readAt) =>
      Finish(if TakesEffect(fault) then DeleteRow(w, token, requester, seen, readAt) else w,
             if fault.Fine? then Gone else RepoFailure)
  }

  function WriteCache(c: Config, w: World, token: Str, v: Version, ttl: Time, computedAt: Time): World {
    match StoredExpiry(c, w.now, ttl)
    case None => w.(cache := w.cache - {token})
    case Some(expiry) => w.(cache := w.cache[token := Copy(v.row.url, expiry, v.gen, computedAt, w.now)])
  }

  function InsertRow(w: World, token: Str, row: Row, creator: nat, raw: Str): World {
    w.(rows := w.rows[token := Version(row, |w.log|)], log := w.log + [Inserted(token, row, w.now, creator, raw)])
  }

  /** DELETE ... WHERE token = $1: whatever row the token has by then goes, if there is one. */
  function DeleteRow(w: World, token: Str, requester: Str, seen: Version, readAt: nat): World {
    if token !in w.rows then w
    else w.(rows := w.rows - {token},
            log := w.log + [Deleted(token, w.rows[token].gen, w.now, requester, seen, readAt)])
  }

  // ------- Runs -------

  /** Time passes only as long as no call in flight outlasts `bound`. */
  predicate Enabled(bound: Time, s: State, step: Step) {
    match step
    case Tick(to) => s.w.now <= to && forall id :: id in s.calls && !s.calls[id].pc.Finished? ==> to <= s.calls[id].start + bound
    case Evict(_) => true
    case Begin(id, _) => id !in s.calls
    case Advance(id, _) => id in s.calls && !s.calls[id].pc.Finished?
  }

  function Apply(c: Config, bound: Time, s: State, step: Step): State
    requires Enabled(bound, s, step)
  {
    match step
    case Tick(to) => s.(w := s.w.(now := to))
    case Evict(token) => s.(w := s.w.(cache := s.w.cache - {token}))
    case Begin(id, r) => s.(calls := s.calls[id := Call(r, s.w.now, FirstPc(r))])
    case Advance(id, choice) =>
      var e := Act(c, s.w, id, s.calls[id].pc, choice);
      State(e.w, s.calls[id := s.calls[id].(pc := e.pc)])
  }

  /** The steps run one after another from `s`, each enabled when its turn comes. */
  ghost predicate Runs(c: Config, bound: Time, s: State, steps: seq<Step>)
    decreases |steps|, 0
  {
    steps == [] ||
    (var n := |steps| - 1;
     Runs(c, bound, s, steps[..n]) && Enabled(bound, After(c, bound, s, steps[..n]), steps[n]))
  }

  ghost function After(c: Config, bound: Time, s: State, steps: seq<Step>): State
    requires Runs(c, bound, s, steps)
    decreases |steps|, 1
  {
    if steps == [] then s
    else
      var n := |steps| - 1;
      Apply(c, bound, After(c, bound, s, steps[..n]), steps[n])
  }

  /** The step writes to the cache with a time to live that is not positive. */
  predicate WritesNonPositive(s: State, step: Step) {
    && step.Advance? && step.id in s.calls
    && s.calls[step.id].pc.CacheSet? && s.calls[step.id].pc.ttl <= 0
  }

  /** No step of the run writes to the cache with a time to live that is not positive. */
  ghost predicate PositiveTtls(c: Config, bound: Time, s: State, steps: seq<Step>)
    requires Runs(c, bound, s, steps)
  {
    steps == [] ||
    (var n := |steps| - 1;
     PositiveTtls(c, bound, s, steps[..n]) && !WritesNonPositive(After(c, bound, s, steps[..n]), steps[n]))
  }

  /** Either the cache drops entries that are already over, or no such write happens. */
  ghost predicate TtlSafe(c: Config, bound: Time, s: State, steps: seq<Step>)
    requires Runs(c, bound, s, steps)
  {
    c.nonPositive.DropsEntry? || PositiveTtls(c, bound, s, steps)
  }
}
