/**
 What every step of the cache-aside protocol keeps of the cache, in every interleaving: where each
 URL came from, and how long a deleted or expired row can still be seen.
 */
module CacheAsideInvariant {
  import opened Primitives
  import opened Store
  import opened CacheAside
  import opened RepoHistory
  import opened RepoInvariant

  /** How long after the delete of a row a resolve may still start and return it. */
  function Staleness(c: Config, bound: Time): Time {
    if bound + c.maxCacheTTL >= 0 then bound + c.maxCacheTTL else 0
  }

  /** The version inserted by event `gen` was not deleted before `t`. */
  ghost predicate StandsUntil(log: seq<Event>, gen: nat, t: Time) {
    forall i :: 0 <= i < |log| && log[i].Deleted? && log[i].gen == gen ==> t <= log[i].at
  }

  /** Event `gen` stored `url` for `token`. */
  predicate Stored(log: seq<Event>, token: Str, gen: nat, url: Str) {
    gen < |log| && log[gen].Inserted? && log[gen].token == token && log[gen].row.url == url
  }

  ghost predicate CopyOk(c: Config, bound: Time, w: World, token: Str, copy: Copy) {
    && Stored(w.log, token, copy.gen, copy.url)
    && copy.expiry.Until?
    && copy.computedAt <= copy.writtenAt <= w.now && copy.writtenAt - copy.computedAt <= bound
    && copy.expiry.at <= copy.writtenAt + c.maxCacheTTL
    && copy.expiry.at <= w.log[copy.gen].row.expiresAt + (copy.writtenAt - copy.computedAt)
    && StandsUntil(w.log, copy.gen, copy.expiry.at - Staleness(c, bound))
  }

  ghost predicate CacheOk(c: Config, bound: Time, w: World) {
    forall token :: token in w.cache ==> CopyOk(c, bound, w, token, w.cache[token])
  }

  /** What a call holds to fill the cache with: a row that was not deleted before the call started. */
  ghost predicate Fresh(log: seq<Event>, start: Time, token: Str, v: Version, reply: Reply) {
    && Born(log, token, v) && StandsUntil(log, v.gen, start)
    && (reply.Found? ==> start <= v.row.expiresAt)
  }

  ghost predicate PcOk(c: Config, bound: Time, w: World, request: Request, start: Time, pc: Pc) {
    match pc
    case CheckExpiry(token, v) => Born(w.log, token, v) && StandsUntil(w.log, v.gen, start)
    case ComputeTtl(token, v, reply) => Fresh(w.log, start, token, v, reply)
    case CacheSet(token, v, ttl, computedAt, reply) =>
      && Fresh(w.log, start, token, v, reply)
      && ttl <= c.maxCacheTTL && ttl <= v.row.expiresAt - computedAt && start <= computedAt <= w.now
    case Finished(reply, at) =>
      at <= start + bound && (reply.Found? ==> FoundOk(c, bound, w.log, request, start, reply, at))
    case _ => true
  }

  /** What a resolved URL tells about the history of the repository. */
  ghost predicate FoundOk(c: Config, bound: Time, log: seq<Event>, request: Request, start: Time, reply: Reply, at: Time)
    requires reply.Found?
  {
    && request.Resolve? && Stored(log, request.token, reply.gen, reply.url)
    && StandsUntil(log, reply.gen, start - Staleness(c, bound))
    && at <= log[reply.gen].row.expiresAt + bound
  }

  ghost predicate CallOk(c: Config, bound: Time, w: World, call: Call) {
    && call.start <= w.now
    && (!call.pc.Finished? ==> w.now <= call.start + bound)
    && PcOk(c, bound, w, call.request, call.start, call.pc)
  }

  ghost predicate Inv(c: Config, bound: Time, s: State) {
    && RepoInv(c, s)
    && CacheOk(c, bound, s.w)
    && forall id :: id in s.calls ==> CallOk(c, bound, s.w, s.calls[id])
  }

  // ------- A growing history takes nothing away -------

  lemma StandsGrows(w: World, w': World, gen: nat, t: Time)
    requires Grows(w, w') && StandsUntil(w.log, gen, t) && t <= w.now
    ensures StandsUntil(w'.log, gen, t)
  {
    forall i | 0 <= i < |w'.log| && w'.log[i].Deleted? && w'.log[i].gen == gen ensures t <= w'.log[i].at {
      assert i < |w.log| ==> w'.log[i] == w'.log[..|w.log|][i];
    }
  }

  lemma CallOkGrows(c: Config, bound: Time, w: World, w': World, call: Call)
    requires Grows(w, w') && CallOk(c, bound, w, call) && 0 <= bound
    ensures CallOk(c, bound, w', call)
  {
    forall k | 0 <= k < |w.log| ensures k < |w'.log| && w'.log[k] == w.log[k] {
      EventsKept(w, w', k);
    }
    match call.pc
    case CheckExpiry(_, v) => StandsGrows(w, w', v.gen, call.start);
    case ComputeTtl(_, v, _) => StandsGrows(w, w', v.gen, call.start);
    case CacheSet(_, v, _, _, _) => StandsGrows(w, w', v.gen, call.start);
    case Finished(reply, _) =>
      if reply.Found? {
        StandsGrows(w, w', reply.gen, call.start - Staleness(c, bound));
      }
    case _ =>
  }

  lemma CopyOkGrows(c: Config, bound: Time, w: World, w': World, token: Str, copy: Copy)
    requires Grows(w, w') && CopyOk(c, bound, w, token, copy) && 0 <= bound
    ensures CopyOk(c, bound, w', token, copy)
  {
    EventsKept(w, w', copy.gen);
    StandsGrows(w, w', copy.gen, copy.expiry.at - Staleness(c, bound));
  }

  /** Entries may go; those that stay are as good as they were. */
  lemma CacheKept(c: Config, bound: Time, w: World, w': World)
    requires CacheOk(c, bound, w) && Grows(w, w') && 0 <= bound
    requires forall t :: t in w'.cache ==> t in w.cache && w'.cache[t] == w.cache[t]
    ensures CacheOk(c, bound, w')
  {
    forall t | t in w'.cache ensures CopyOk(c, bound, w', t, w'.cache[t]) {
      CopyOkGrows(c, bound, w, w', t, w.cache[t]);
    }
  }

  // ------- One step of a call -------

  ghost predicate ActOk(c: Config, bound: Time, call: Call, e: Effect) {
    CacheOk(c, bound, e.w) && PcOk(c, bound, e.w, call.request, call.start, e.pc)
  }

  /** A row read from the repository was born there and has not been deleted. */
  lemma RowRead(c: Config, w: World, token: Str, start: Time)
    requires Recorded(c, w) && token in w.rows
    ensures Born(w.log, token, w.rows[token]) && StandsUntil(w.log, w.rows[token].gen, start)
  {
    TableBorn(c, w.log, token);
    forall i | 0 <= i < |w.log| && w.log[i].Deleted? ensures w.log[i].gen != w.rows[token].gen {
      StandingUndeleted(c, w.log, token, i);
    }
  }

  lemma ResolveActOk(c: Config, bound: Time, w: World, id: nat, call: Call, choice: Choice)
    requires Recorded(c, w) && CacheOk(c, bound, w) && CallOk(c, bound, w, call) && RepoCall(c, w, id, call) && 0 <= bound
    requires call.pc.CacheGet? || call.pc.RepoGet? || call.pc.CheckExpiry? || call.pc.ComputeTtl?
    ensures ActOk(c, bound, call, Act(c, w, id, call.pc, choice))
  {
    match call.pc
    case CacheGet(token) =>
      if token in w.cache && Live(w.cache[token].expiry, w.now) {
        var copy := w.cache[token];
        assert CopyOk(c, bound, w, token, copy);
        assert StandsUntil(w.log, copy.gen, call.start - Staleness(c, bound));
      }
    case RepoGet(token) =>
      if token in w.rows {
        RowRead(c, w, token, call.start);
      }
    case CheckExpiry(_, _) =>
    case ComputeTtl(_, _, _) =>
  }

  /** An entry written now expires in time. */
  lemma WrittenOk(c: Config, bound: Time, w: World, call: Call, copy: Copy)
    requires CallOk(c, bound, w, call) && call.pc.CacheSet? && call.pc.ttl > 0 && 0 <= bound
    requires copy == Copy(call.pc.v.row.url, Until(w.now + call.pc.ttl), call.pc.v.gen, call.pc.computedAt, w.now)
    ensures CopyOk(c, bound, w, call.pc.token, copy)
  {
    assert StandsUntil(w.log, copy.gen, copy.expiry.at - Staleness(c, bound));
  }

  lemma CacheSetOk(c: Config, bound: Time, w: World, id: nat, call: Call, choice: Choice)
    requires CacheOk(c, bound, w) && CallOk(c, bound, w, call) && RepoCall(c, w, id, call) && 0 <= bound
    requires call.pc.CacheSet? && (c.nonPositive.DropsEntry? || call.pc.ttl > 0)
    ensures ActOk(c, bound, call, Act(c, w, id, call.pc, choice))
  {
    var CacheSet(token, v, ttl, _, _) := call.pc;
    var w' := Act(c, w, id, call.pc, choice).w;
    forall t | t in w'.cache ensures CopyOk(c, bound, w', t, w'.cache[t]) {
      if TakesEffect(choice.fault) && t == token {
        WrittenOk(c, bound, w, call, w'.cache[t]);
      } else {
        CopyOkGrows(c, bound, w, w', t, w.cache[t]);
      }
    }
    assert StandsUntil(w.log, v.gen, call.start - Staleness(c, bound));
  }

  /** No delete names the row that an insert makes next. */
  lemma NewRowFresh(c: Config, w: World, w': World, token: Str, v: Version, start: Time)
    requires Recorded(c, w) && Grows(w, w') && Born(w'.log, token, v) && v.gen == |w.log|
    ensures Fresh(w'.log, start, token, v, Created(token, v))
  {
    forall i | 0 <= i < |w'.log| && w'.log[i].Deleted? ensures w'.log[i].gen != v.gen {
      EventsKept(w, w', i);
      DeleteIsPast(c, w.log, i);
    }
  }

  /** The steps that leave the cache alone, or only take entries out of it. */
  lemma CreateActOk(c: Config, bound: Time, w: World, id: nat, call: Call, choice: Choice)
    requires Recorded(c, w) && CacheOk(c, bound, w) && CallOk(c, bound, w, call) && 0 <= bound
    requires call.pc.PrepareRow? || call.pc.Insert?
    requires RepoKeeps(c, w, id, call, Act(c, w, id, call.pc, choice))
    ensures ActOk(c, bound, call, Act(c, w, id, call.pc, choice))
  {
    var e := Act(c, w, id, call.pc, choice);
    CacheKept(c, bound, w, e.w);
    if e.pc.ComputeTtl? {
      NewRowFresh(c, w, e.w, e.pc.token, e.pc.v, call.start);
    }
  }

  lemma DeleteActOk(c: Config, bound: Time, w: World, id: nat, call: Call, choice: Choice)
    requires CacheOk(c, bound, w) && CallOk(c, bound, w, call) && 0 <= bound
    requires call.pc.DeleteGet? || call.pc.CacheDelete? || call.pc.RepoDelete?
    requires Grows(w, Act(c, w, id, call.pc, choice).w)
    ensures ActOk(c, bound, call, Act(c, w, id, call.pc, choice))
  {
    CacheKept(c, bound, w, Act(c, w, id, call.pc, choice).w);
  }

  lemma AdvanceOk(c: Config, bound: Time, w: World, id: nat, call: Call, choice: Choice)
    requires Recorded(c, w) && CacheOk(c, bound, w) && CallOk(c, bound, w, call) && RepoCall(c, w, id, call) && 0 <= bound
    requires !call.pc.Finished? && (call.pc.CacheSet? ==> c.nonPositive.DropsEntry? || call.pc.ttl > 0)
    ensures ActOk(c, bound, call, Act(c, w, id, call.pc, choice)) && Grows(w, Act(c, w, id, call.pc, choice).w)
  {
    ActKeeps(c, w, id, call, choice);
    if call.pc.CacheSet? {
      CacheSetOk(c, bound, w, id, call, choice);
    } else if call.pc.PrepareRow? || call.pc.Insert? {
      CreateActOk(c, bound, w, id, call, choice);
    } else if call.pc.DeleteGet? || call.pc.CacheDelete? || call.pc.RepoDelete? {
      DeleteActOk(c, bound, w, id, call, choice);
    } else {
      ResolveActOk(c, bound, w, id, call, choice);
    }
  }

  // ------- One step of the machine, and runs -------

  lemma StepOk(c: Config, bound: Time, s: State, step: Step)
    requires Inv(c, bound, s) && 0 <= bound && Enabled(bound, s, step)
    requires c.nonPositive.DropsEntry? || !WritesNonPositive(s, step)
    ensures Inv(c, bound, Apply(c, bound, s, step))
  {
    var s' := Apply(c, bound, s, step);
    StepKeeps(c, bound, s, step);
    match step
    case Tick(to) => TickOk(c, bound, s, to);
    case Advance(id, choice) =>
      AdvanceOk(c, bound, s.w, id, s.calls[id], choice);
      OthersOk(c, bound, s, s', s.calls.Keys - {id});
    case _ =>
      CacheKept(c, bound, s.w, s'.w);
      OthersOk(c, bound, s, s', s.calls.Keys);
  }

  /** Calls that the step did not schedule keep what they had. */
  lemma OthersOk(c: Config, bound: Time, s: State, s': State, ids: set<nat>)
    requires Inv(c, bound, s) && 0 <= bound && Grows(s.w, s'.w) && ids <= s.calls.Keys
    ensures forall id :: id in ids ==> CallOk(c, bound, s'.w, s.calls[id])
  {
    forall id | id in ids ensures CallOk(c, bound, s'.w, s.calls[id]) {
      CallOkGrows(c, bound, s.w, s'.w, s.calls[id]);
    }
  }

  lemma TickOk(c: Config, bound: Time, s: State, to: Time)
    requires Inv(c, bound, s) && Enabled(bound, s, Tick(to))
    ensures var s' := Apply(c, bound, s, Tick(to));
            CacheOk(c, bound, s'.w) && forall id :: id in s'.calls ==> CallOk(c, bound, s'.w, s'.calls[id])
  {
    var s' := Apply(c, bound, s, Tick(to));
    forall token | token in s'.w.cache ensures CopyOk(c, bound, s'.w, token, s'.w.cache[token]) {
      assert CopyOk(c, bound, s.w, token, s.w.cache[token]);
    }
    forall id | id in s'.calls ensures CallOk(c, bound, s'.w, s'.calls[id]) {
      assert CallOk(c, bound, s.w, s.calls[id]);
    }
  }

  /** Every state of every run satisfies the invariant. */
  lemma {:induction false} RunOk(c: Config, bound: Time, t0: Time, steps: seq<Step>)
    requires 0 <= bound && Runs(c, bound, Init(t0), steps) && TtlSafe(c, bound, Init(t0), steps)
    ensures Inv(c, bound, After(c, bound, Init(t0), steps))
  {
    if steps != [] {
      var n := |steps| - 1;
      RunOk(c, bound, t0, steps[..n]);
      StepOk(c, bound, After(c, bound, Init(t0), steps[..n]), steps[n]);
    }
  }
}
