/**
 What every step keeps of the repository and of what calls say about it, in every interleaving and
 whatever the cache does.
 */
module RepoInvariant {
  import opened Primitives
  import opened Store
  import opened CacheAside
  import opened RepoHistory

  /** The log is a lawful history up to now, and the rows are what it leaves behind. */
  ghost predicate Recorded(c: Config, w: World) {
    && LawfulLog(c, w.log)
    && w.rows == Table(w.log)
    && forall i :: 0 <= i < |w.log| ==> w.log[i].at <= w.now
  }

  /** The log was `n` events long at some instant from `start` to `end`. */
  ghost predicate During(log: seq<Event>, n: nat, start: Time, end: Time) {
    && n <= |log|
    && (forall i :: 0 <= i < n ==> log[i].at <= end)
    && (forall i :: n <= i < |log| ==> start <= log[i].at)
  }

  /** The rows there were after `n` events bear out a reply that a call refused by the repository, or
      finished with a delete, gives at `at`. */
  ghost predicate BornOut(log: seq<Event>, n: nat, request: Request, reply: Reply, at: Time)
    requires n <= |log|
  {
    var rows := Table(log[..n]);
    match reply
    case Expired => request.Resolve? && request.token in rows && rows[request.token].row.expiresAt < at
    case NotExist => request.Resolve? && request.token !in rows
    case NotUnique(token) => request.Create? && Chosen(request.input, token) && token in rows
    case NotOwner => request.Delete? && request.token in rows && rows[request.token].row.owner != request.requester
    case Gone => request.Delete? && request.token !in rows
    case _ => true
  }

  /** The token is the one asked for, if one was. */
  predicate Chosen(input: CreateInput, token: Str) {
    input.token != [] ==> token == input.token
  }

  /** The reply is true of the rows at some instant of the call. */
  ghost predicate Truthful(log: seq<Event>, request: Request, start: Time, reply: Reply, at: Time) {
    exists n: nat :: During(log, n, start, at) && BornOut(log, n, request, reply, at)
  }

  ghost predicate CreatedOk(log: seq<Event>, id: nat, request: Request, token: Str, v: Version) {
    request.Create? && Chosen(request.input, token) && Born(log, token, v) && log[v.gen].creator == id
  }

  ghost predicate RepoPc(c: Config, w: World, id: nat, request: Request, start: Time, pc: Pc) {
    match pc
    case CacheGet(token) => request == Resolve(token)
    case RepoGet(token) => request == Resolve(token)
    case CheckExpiry(token, v) =>
      request == Resolve(token) && exists n: nat :: During(w.log, n, start, w.now) && Stood(w.log, token, v, n)
    case ComputeTtl(token, v, reply) => Held(w.log, id, request, token, v, reply)
    case CacheSet(token, v, _, _, reply) => Held(w.log, id, request, token, v, reply)
    case PrepareRow(input) => request == Create(input)
    case Insert(token, row, raw) =>
      request.Create? && raw == request.input.url && c.normalize(raw) == Some(row.url) && Chosen(request.input, token)
    case DeleteGet(token, requester) => request == Delete(token, requester)
    case CacheDelete(token, requester, seen, readAt) =>
      request == Delete(token, requester) && Stood(w.log, token, seen, readAt) && seen.row.owner == requester
    case RepoDelete(token, requester, seen, readAt) =>
      request == Delete(token, requester) && Stood(w.log, token, seen, readAt) && seen.row.owner == requester
    case Finished(reply, at) =>
      && start <= at <= w.now && Truthful(w.log, request, start, reply, at)
      && (reply.Created? ==> CreatedOk(w.log, id, request, reply.token, reply.version))
  }

  /** A call on its way to the cache will reply with the row it read or made. */
  ghost predicate Held(log: seq<Event>, id: nat, request: Request, token: Str, v: Version, reply: Reply) {
    || (request == Resolve(token) && reply == Found(v.row.url, v.gen))
    || (reply == Created(token, v) && CreatedOk(log, id, request, token, v))
  }

  ghost predicate RepoCall(c: Config, w: World, id: nat, call: Call) {
    call.start <= w.now && RepoPc(c, w, id, call.request, call.start, call.pc)
  }

  ghost predicate RepoInv(c: Config, s: State) {
    Recorded(c, s.w) && forall id :: id in s.calls ==> RepoCall(c, s.w, id, s.calls[id])
  }

  // ------- A step only adds to the history -------

  ghost predicate Grows(w: World, w': World) {
    && w'.now == w.now
    && (w'.log == w.log ||
        (|w'.log| == |w.log| + 1 && w'.log[..|w.log|] == w.log && w'.log[|w.log|].at == w.now))
  }

  lemma EventsKept(w: World, w': World, k: nat)
    requires Grows(w, w') && k < |w.log|
    ensures k < |w'.log| && w'.log[k] == w.log[k]
  {
    assert w'.log[..|w.log|][k] == w.log[k];
  }

  lemma PastKept(w: World, w': World, n: nat)
    requires Grows(w, w') && n <= |w.log|
    ensures n <= |w'.log| && w'.log[..n] == w.log[..n]
  {
    assert w'.log[..|w.log|][..n] == w.log[..n];
  }

  lemma DuringKept(w: World, w': World, n: nat, start: Time, end: Time)
    requires Grows(w, w') && During(w.log, n, start, end) && start <= w.now
    ensures During(w'.log, n, start, end)
  {
    forall i | 0 <= i < |w.log| ensures w'.log[i] == w.log[i] {
      EventsKept(w, w', i);
    }
  }

  lemma TruthKept(w: World, w': World, request: Request, start: Time, reply: Reply, at: Time)
    requires Grows(w, w') && Truthful(w.log, request, start, reply, at) && start <= w.now
    ensures Truthful(w'.log, request, start, reply, at)
  {
    var n: nat :| During(w.log, n, start, at) && BornOut(w.log, n, request, reply, at);
    DuringKept(w, w', n, start, at);
    PastKept(w, w', n);
  }

  lemma StoodKept(w: World, w': World, token: Str, v: Version, n: nat)
    requires Grows(w, w') && Stood(w.log, token, v, n)
    ensures Stood(w'.log, token, v, n)
  {
    PastKept(w, w', n);
  }

  lemma RepoCallGrows(c: Config, w: World, w': World, id: nat, call: Call)
    requires Grows(w, w') && RepoCall(c, w, id, call)
    ensures RepoCall(c, w', id, call)
  {
    match call.pc
    case CheckExpiry(token, v) =>
      var n: nat :| During(w.log, n, call.start, w.now) && Stood(w.log, token, v, n);
      DuringKept(w, w', n, call.start, w.now);
      StoodKept(w, w', token, v, n);
    case ComputeTtl(token, v, reply) => HeldKept(w, w', id, call.request, token, v, reply);
    case CacheSet(token, v, _, _, reply) => HeldKept(w, w', id, call.request, token, v, reply);
    case CacheDelete(token, _, seen, readAt) => StoodKept(w, w', token, seen, readAt);
    case RepoDelete(token, _, seen, readAt) => StoodKept(w, w', token, seen, readAt);
    case Finished(reply, at) =>
      TruthKept(w, w', call.request, call.start, reply, at);
      if reply.Created? {
        EventsKept(w, w', reply.version.gen);
      }
    case _ =>
  }

  lemma HeldKept(w: World, w': World, id: nat, request: Request, token: Str, v: Version, reply: Reply)
    requires Grows(w, w') && Held(w.log, id, request, token, v, reply)
    ensures Held(w'.log, id, request, token, v, reply)
  {
    if reply.Created? {
      EventsKept(w, w', v.gen);
    }
  }

  // ------- One step of a call -------

  /** The world now bears out the reply. */
  lemma TruthNow(c: Config, w: World, request: Request, start: Time, reply: Reply)
    requires Recorded(c, w) && BornOut(w.log, |w.log|, request, reply, w.now)
    ensures Truthful(w.log, request, start, reply, w.now)
  {
    assert During(w.log, |w.log|, start, w.now);
  }

  lemma Now(c: Config, w: World)
    requires Recorded(c, w)
    ensures w.log[..|w.log|] == w.log && Table(w.log[..|w.log|]) == w.rows
    ensures forall start: Time :: During(w.log, |w.log|, start, w.now)
  {
    assert w.log[..|w.log|] == w.log;
  }

  lemma EventKeeps(c: Config, w: World, w': World, e: Event)
    requires Recorded(c, w) && Lawful(c, w.log, e) && e.at == w.now
    requires w'.now == w.now && w'.log == w.log + [e] && w'.rows == Replay(w.rows, |w.log|, e)
    ensures Recorded(c, w') && Grows(w, w')
  {
    LawfulAppend(c, w.log, e);
    assert w'.log[..|w.log|] == w.log;
  }

  ghost predicate RepoKeeps(c: Config, w: World, id: nat, call: Call, e: Effect) {
    Recorded(c, e.w) && Grows(w, e.w) && RepoPc(c, e.w, id, call.request, call.start, e.pc)
  }

  lemma ResolveKeeps(c: Config, w: World, id: nat, call: Call, choice: Choice)
    requires Recorded(c, w) && RepoCall(c, w, id, call)
    requires call.pc.CacheGet? || call.pc.RepoGet? || call.pc.CheckExpiry?
    ensures RepoKeeps(c, w, id, call, Act(c, w, id, call.pc, choice))
  {
    var e := Act(c, w, id, call.pc, choice);
    assert e.w == w;
    Now(c, w);
    if call.pc.CheckExpiry? {
      var CheckExpiry(token, v) := call.pc;
      var n: nat :| During(w.log, n, call.start, w.now) && Stood(w.log, token, v, n);
      assert e.pc.Finished? ==> BornOut(w.log, n, call.request, Expired, w.now);
    } else if e.pc.Finished? {
      TruthNow(c, w, call.request, call.start, e.pc.reply);
    } else if e.pc.CheckExpiry? {
      assert Stood(w.log, e.pc.token, e.pc.v, |w.log|);
    }
  }

  lemma CacheKeeps(c: Config, w: World, id: nat, call: Call, choice: Choice)
    requires Recorded(c, w) && RepoCall(c, w, id, call)
    requires call.pc.ComputeTtl? || call.pc.CacheSet?
    ensures RepoKeeps(c, w, id, call, Act(c, w, id, call.pc, choice))
  {
    var e := Act(c, w, id, call.pc, choice);
    assert e.w == w.(cache := e.w.cache);
    if e.pc.Finished? {
      TruthNow(c, e.w, call.request, call.start, e.pc.reply);
    }
  }

  lemma PrepareKeeps(c: Config, w: World, id: nat, call: Call, choice: Choice)
    requires Recorded(c, w) && RepoCall(c, w, id, call) && call.pc.PrepareRow?
    ensures RepoKeeps(c, w, id, call, Act(c, w, id, call.pc, choice))
  {
    var e := Act(c, w, id, call.pc, choice);
    if e.pc.Finished? {
      TruthNow(c, w, call.request, call.start, e.pc.reply);
    }
  }

  /** An insert that takes effect. */
  lemma RowInserted(c: Config, w: World, id: nat, request: Request, token: Str, row: Row, raw: Str)
    requires Recorded(c, w) && token !in w.rows
    requires request.Create? && c.normalize(raw) == Some(row.url) && Chosen(request.input, token)
    ensures var w' := InsertRow(w, token, row, id, raw);
            Recorded(c, w') && Grows(w, w') && CreatedOk(w'.log, id, request, token, Version(row, |w.log|))
  {
    EventKeeps(c, w, InsertRow(w, token, row, id, raw), Inserted(token, row, w.now, id, raw));
  }

  lemma InsertKeeps(c: Config, w: World, id: nat, call: Call, choice: Choice)
    requires Recorded(c, w) && RepoCall(c, w, id, call) && call.pc.Insert?
    ensures RepoKeeps(c, w, id, call, Act(c, w, id, call.pc, choice))
  {
    var Insert(token, row, raw) := call.pc;
    var e := Act(c, w, id, call.pc, choice);
    if choice.fault.LostBefore? || token in w.rows {
      Now(c, w);
    } else {
      RowInserted(c, w, id, call.request, token, row, raw);
    }
    if e.pc.Finished? {
      TruthNow(c, e.w, call.request, call.start, e.pc.reply);
    }
  }

  lemma LookKeeps(c: Config, w: World, id: nat, call: Call, choice: Choice)
    requires Recorded(c, w) && RepoCall(c, w, id, call)
    requires call.pc.DeleteGet? || call.pc.CacheDelete?
    ensures RepoKeeps(c, w, id, call, Act(c, w, id, call.pc, choice))
  {
    var e := Act(c, w, id, call.pc, choice);
    Now(c, w);
    assert e.w == w.(cache := e.w.cache);
    if e.pc.Finished? {
      TruthNow(c, e.w, call.request, call.start, e.pc.reply);
    }
  }

  lemma DeleteKeeps(c: Config, w: World, id: nat, call: Call, choice: Choice)
    requires Recorded(c, w) && RepoCall(c, w, id, call) && call.pc.RepoDelete?
    ensures RepoKeeps(c, w, id, call, Act(c, w, id, call.pc, choice))
  {
    var RepoDelete(token, requester, seen, readAt) := call.pc;
    var e := Act(c, w, id, call.pc, choice);
    if e.w != w {
      EventKeeps(c, w, e.w, Deleted(token, w.rows[token].gen, w.now, requester, seen, readAt));
    }
    Now(c, e.w);
    TruthNow(c, e.w, call.request, call.start, e.pc.reply);
  }

  lemma ActKeeps(c: Config, w: World, id: nat, call: Call, choice: Choice)
    requires Recorded(c, w) && RepoCall(c, w, id, call) && !call.pc.Finished?
    ensures RepoKeeps(c, w, id, call, Act(c, w, id, call.pc, choice))
  {
    match call.pc
    case PrepareRow(_) => PrepareKeeps(c, w, id, call, choice);
    case Insert(_, _, _) => InsertKeeps(c, w, id, call, choice);
    case DeleteGet(_, _) => LookKeeps(c, w, id, call, choice);
    case CacheDelete(_, _, _, _) => LookKeeps(c, w, id, call, choice);
    case RepoDelete(_, _, _, _) => DeleteKeeps(c, w, id, call, choice);
    case ComputeTtl(_, _, _) => CacheKeeps(c, w, id, call, choice);
    case CacheSet(_, _, _, _, _) => CacheKeeps(c, w, id, call, choice);
    case _ => ResolveKeeps(c, w, id, call, choice);
  }

  // ------- One step of the machine, and runs -------

  lemma TickKeeps(c: Config, bound: Time, s: State, to: Time)
    requires RepoInv(c, s) && Enabled(bound, s, Tick(to))
    ensures RepoInv(c, Apply(c, bound, s, Tick(to)))
  {
    var s' := Apply(c, bound, s, Tick(to));
    forall id | id in s'.calls ensures RepoCall(c, s'.w, id, s'.calls[id]) {
      var call := s.calls[id];
      assert RepoCall(c, s.w, id, call);
      if call.pc.CheckExpiry? {
        var n: nat :| During(s.w.log, n, call.start, s.w.now) && Stood(s.w.log, call.pc.token, call.pc.v, n);
        assert During(s'.w.log, n, call.start, to);
      }
    }
  }

  /** Calls that the step did not schedule keep what they had. */
  lemma OthersKeep(c: Config, s: State, w': World, ids: set<nat>)
    requires RepoInv(c, s) && Grows(s.w, w') && ids <= s.calls.Keys
    ensures forall id :: id in ids ==> RepoCall(c, w', id, s.calls[id])
  {
    forall id | id in ids ensures RepoCall(c, w', id, s.calls[id]) {
      RepoCallGrows(c, s.w, w', id, s.calls[id]);
    }
  }

  lemma StepKeeps(c: Config, bound: Time, s: State, step: Step)
    requires RepoInv(c, s) && Enabled(bound, s, step)
    ensures RepoInv(c, Apply(c, bound, s, step))
  {
    var s' := Apply(c, bound, s, step);
    match step
    case Tick(to) => TickKeeps(c, bound, s, to);
    case Advance(id, choice) =>
      ActKeeps(c, s.w, id, s.calls[id], choice);
      OthersKeep(c, s, s'.w, s.calls.Keys - {id});
    case _ => OthersKeep(c, s, s'.w, s.calls.Keys);
  }

  /** Every state of every run satisfies the invariant. */
  lemma {:induction false} RunKeeps(c: Config, bound: Time, t0: Time, steps: seq<Step>)
    requires Runs(c, bound, Init(t0), steps)
    ensures RepoInv(c, After(c, bound, Init(t0), steps))
  {
    if steps != [] {
      var n := |steps| - 1;
      RunKeeps(c, bound, t0, steps[..n]);
      StepKeeps(c, bound, After(c, bound, Init(t0), steps[..n]), steps[n]);
    }
  }
}
