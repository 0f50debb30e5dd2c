/**
 A call that runs alone: the steps of the interleaved machine, taken without interference, are the
 call as the serialised store knows it.
 */
module CacheAsideSolo {
  import opened Primitives
  import opened Store
  import opened CacheAside
  import opened CacheAsideTheorems
  import S = SerialStore

  /** The call of the machine that a serialised command stands for. */
  function RequestOf(cmd: S.Command): Request
    requires !cmd.Evict?
  {
    match cmd
    case CreateToken(input, _, _, _, _) => Create(input)
    case ResolveToken(token, _, _, _, _) => Resolve(token)
    case DeleteToken(token, requester, _, _, _, _) => Delete(token, requester)
  }

  /** How the access at `pc` goes, as the command says. */
  function ChoiceAt(cmd: S.Command, pc: Pc): Choice
    requires !cmd.Evict?
  {
    match cmd
    case CreateToken(_, random, _, insert, save) => Choice(if pc.Insert? then insert else save, random)
    case ResolveToken(_, _, get, select, save) =>
      Choice(if pc.CacheGet? then get else if pc.RepoGet? then select else save, None)
    case DeleteToken(_, _, _, select, clear, delete) =>
      Choice(if pc.DeleteGet? then select else if pc.CacheDelete? then clear else delete, None)
  }

  /** The most steps a call still takes. */
  function StepsLeft(pc: Pc): nat {
    match pc
    case CacheGet(_) => 5
    case RepoGet(_) => 4
    case CheckExpiry(_, _) => 3
    case ComputeTtl(_, _, _) => 2
    case CacheSet(_, _, _, _, _) => 1
    case PrepareRow(_) => 4
    case Insert(_, _, _) => 3
    case DeleteGet(_, _) => 3
    case CacheDelete(_, _, _, _) => 2
    case RepoDelete(_, _, _, _) => 1
    case Finished(_, _) => 0
  }

  /** The call runs to its end with nobody else taking a step. */
  function Solo(c: Config, w: World, id: nat, pc: Pc, cmd: S.Command): (e: Effect)
    requires !cmd.Evict?
    ensures e.pc.Finished? && e.w.now == w.now
    decreases StepsLeft(pc)
  {
    if pc.Finished? then Effect(w, pc)
    else
      var e := Act(c, w, id, pc, ChoiceAt(cmd, pc));
      Solo(c, e.w, id, e.pc, cmd)
  }

  /** The rows and entries of a world, without what is recorded about where they came from. */
  function Contents(w: World): S.Cached {
    S.Cached(map t | t in w.rows :: w.rows[t].row, map t | t in w.cache :: S.Entry(w.cache[t].url, w.cache[t].expiry))
  }

  function Plain(r: Reply): S.Answer {
    match r
    case Found(url, _) => S.Found(url)
    case Expired => S.Expired
    case NotExist => S.NotExist
    case RepoFailure => S.RepoFailure
    case Created(token, v) => S.Created(token, v.row)
    case Refused(e) => S.Refused(e)
    case NotUnique(_) => S.NotUnique
    case NotOwner => S.NotOwner
    case CacheFailure => S.CacheFailure
    case Gone => S.Gone
  }

  lemma WriteIsSerial(c: Config, w: World, token: Str, v: Version, fault: Fault)
    ensures var ttl := Min(c.maxCacheTTL, v.row.expiresAt - w.now);
            var w' := if TakesEffect(fault) then WriteCache(c, w, token, v, ttl, w.now) else w;
            Contents(w') == Contents(w).(cache := S.WriteEntry(c, Contents(w).cache, token, v.row, w.now, fault))
  {
    var ttl := Min(c.maxCacheTTL, v.row.expiresAt - w.now);
    if TakesEffect(fault) {
      var w' := WriteCache(c, w, token, v, ttl, w.now);
      assert Contents(w').cache == S.WriteEntry(c, Contents(w).cache, token, v.row, w.now, fault);
    }
  }

  /** From computing the time to live on, a lone call only writes its entry and replies. */
  lemma TailIsSerial(c: Config, w: World, id: nat, token: Str, v: Version, reply: Reply, cmd: S.Command)
    requires !cmd.Evict?
    ensures var pc := ComputeTtl(token, v, reply);
            var fault := ChoiceAt(cmd, CacheSet(token, v, 0, 0, reply)).fault;
            var e := Solo(c, w, id, pc, cmd);
            && e.pc == Finished(reply, w.now)
            && Contents(e.w) == Contents(w).(cache := S.WriteEntry(c, Contents(w).cache, token, v.row, w.now, fault))
  {
    var ttl := Min(c.maxCacheTTL, v.row.expiresAt - w.now);
    var saving := CacheSet(token, v, ttl, w.now, reply);
    var fault := ChoiceAt(cmd, saving).fault;
    WriteIsSerial(c, w, token, v, fault);
    var e := Act(c, w, id, saving, ChoiceAt(cmd, saving));
    assert Solo(c, w, id, ComputeTtl(token, v, reply), cmd) == Solo(c, w, id, saving, cmd) == Solo(c, e.w, id, e.pc, cmd) == e;
  }

  /** A step that answers is the last one. */
  lemma LastStep(c: Config, w: World, id: nat, pc: Pc, cmd: S.Command)
    requires !cmd.Evict? && !pc.Finished? && Act(c, w, id, pc, ChoiceAt(cmd, pc)).pc.Finished?
    ensures Solo(c, w, id, pc, cmd) == Act(c, w, id, pc, ChoiceAt(cmd, pc))
  {
  }

  lemma SoloResolve(c: Config, w: World, id: nat, cmd: S.Command)
    requires cmd.ResolveToken? && cmd.now == w.now
    ensures var e := Solo(c, w, id, CacheGet(cmd.token), cmd);
            (Contents(e.w), Plain(e.pc.reply)) == S.Exec(c, Contents(w), cmd)
  {
    var token := cmd.token;
    if cmd.get.Fine? && token in w.cache && Live(w.cache[token].expiry, w.now) {
    } else {
      assert Solo(c, w, id, CacheGet(token), cmd) == Solo(c, w, id, RepoGet(token), cmd);
      if cmd.select.Fine? && token in w.rows {
        var v := w.rows[token];
        assert Solo(c, w, id, RepoGet(token), cmd) == Solo(c, w, id, CheckExpiry(token, v), cmd);
        if v.row.expiresAt >= w.now {
          var tail := ComputeTtl(token, v, Found(v.row.url, v.gen));
          assert Solo(c, w, id, CheckExpiry(token, v), cmd) == Solo(c, w, id, tail, cmd);
          TailIsSerial(c, w, id, token, v, tail.reply, cmd);
        } else {
          LastStep(c, w, id, CheckExpiry(token, v), cmd);
        }
      } else {
        LastStep(c, w, id, RepoGet(token), cmd);
      }
    }
  }

  /** The repository's part of a create, and what follows it. */
  function InsertAnswer(c: Config, s: S.Cached, cmd: S.Command, token: Str, row: Row): (S.Cached, S.Answer)
    requires cmd.CreateToken?
  {
    if cmd.insert.LostBefore? then (s, S.RepoFailure)
    else if token in s.rows then (s, if cmd.insert.Fine? then S.NotUnique else S.RepoFailure)
    else if cmd.insert.LostAfter? then (s.(rows := s.rows[token := row]), S.RepoFailure)
    else (S.Cached(s.rows[token := row], S.WriteEntry(c, s.cache, token, row, cmd.now, cmd.save)), S.Created(token, row))
  }

  lemma SoloInsert(c: Config, w: World, id: nat, token: Str, row: Row, raw: Str, cmd: S.Command)
    requires cmd.CreateToken? && cmd.now == w.now
    ensures var e := Solo(c, w, id, Insert(token, row, raw), cmd);
            (Contents(e.w), Plain(e.pc.reply)) == InsertAnswer(c, Contents(w), cmd, token, row)
  {
    var insert := Insert(token, row, raw);
    if !cmd.insert.LostBefore? && token !in w.rows {
      var w' := InsertRow(w, token, row, id, raw);
      assert Contents(w') == Contents(w).(rows := Contents(w).rows[token := row]);
      if cmd.insert.Fine? {
        var v := Version(row, |w.log|);
        assert Solo(c, w, id, insert, cmd) == Solo(c, w', id, ComputeTtl(token, v, Created(token, v)), cmd);
        TailIsSerial(c, w', id, token, v, Created(token, v), cmd);
      } else {
        LastStep(c, w, id, insert, cmd);
      }
    } else {
      LastStep(c, w, id, insert, cmd);
    }
  }

  lemma SoloCreate(c: Config, w: World, id: nat, cmd: S.Command)
    requires cmd.CreateToken? && cmd.now == w.now
    ensures var e := Solo(c, w, id, PrepareRow(cmd.input), cmd);
            (Contents(e.w), Plain(e.pc.reply)) == S.Exec(c, Contents(w), cmd)
  {
    var p := Prepare(c, cmd.input, cmd.random, w.now);
    if p.Ready? {
      var insert := Insert(p.token, p.row, cmd.input.url);
      assert Solo(c, w, id, PrepareRow(cmd.input), cmd) == Solo(c, w, id, insert, cmd);
      assert S.Exec(c, Contents(w), cmd) == InsertAnswer(c, Contents(w), cmd, p.token, p.row);
      SoloInsert(c, w, id, p.token, p.row, cmd.input.url, cmd);
    } else {
      LastStep(c, w, id, PrepareRow(cmd.input), cmd);
    }
  }

  lemma SoloRepoDelete(c: Config, w: World, id: nat, token: Str, requester: Str, seen: Version, readAt: nat, cmd: S.Command)
    requires cmd.DeleteToken? && token in w.rows
    ensures var e := Solo(c, w, id, RepoDelete(token, requester, seen, readAt), cmd);
            && Contents(e.w) == Contents(w).(rows := if TakesEffect(cmd.delete) then Contents(w).rows - {token} else Contents(w).rows)
            && e.pc.reply == if cmd.delete.Fine? then Gone else RepoFailure
  {
    var w' := DeleteRow(w, token, requester, seen, readAt);
    assert Contents(w') == Contents(w).(rows := Contents(w).rows - {token});
    LastStep(c, w, id, RepoDelete(token, requester, seen, readAt), cmd);
  }

  lemma SoloDelete(c: Config, w: World, id: nat, cmd: S.Command)
    requires cmd.DeleteToken? && cmd.now == w.now
    ensures var e := Solo(c, w, id, DeleteGet(cmd.token, cmd.requester), cmd);
            (Contents(e.w), Plain(e.pc.reply)) == S.Exec(c, Contents(w), cmd)
  {
    var token, requester := cmd.token, cmd.requester;
    var get := DeleteGet(token, requester);
    if cmd.select.Fine? && token in w.rows && w.rows[token].row.owner == requester {
      var seen, readAt := w.rows[token], |w.log|;
      var clear := CacheDelete(token, requester, seen, readAt);
      assert Solo(c, w, id, get, cmd) == Solo(c, w, id, clear, cmd);
      var cleared := w.(cache := w.cache - {token});
      assert Contents(cleared) == Contents(w).(cache := Contents(w).cache - {token});
      if cmd.clear.Fine? {
        assert Solo(c, w, id, clear, cmd) == Solo(c, cleared, id, RepoDelete(token, requester, seen, readAt), cmd);
        SoloRepoDelete(c, cleared, id, token, requester, seen, readAt, cmd);
      } else {
        LastStep(c, w, id, clear, cmd);
      }
    } else {
      LastStep(c, w, id, get, cmd);
    }
  }

  /** A lone call of the machine is the serialised call. */
  lemma SoloIsSerial(c: Config, w: World, id: nat, cmd: S.Command)
    requires !cmd.Evict? && cmd.now == w.now
    ensures var e := Solo(c, w, id, FirstPc(RequestOf(cmd)), cmd);
            (Contents(e.w), Plain(e.pc.reply)) == S.Exec(c, Contents(w), cmd)
  {
    match cmd
    case CreateToken(_, _, _, _, _) => SoloCreate(c, w, id, cmd);
    case ResolveToken(_, _, _, _, _) => SoloResolve(c, w, id, cmd);
    case DeleteToken(_, _, _, _, _, _) => SoloDelete(c, w, id, cmd);
  }

  // ------- Lone calls as parts of runs -------

  /** Some run of the machine ends in `s`. */
  ghost predicate Reached(c: Config, bound: Time, t0: Time, steps: seq<Step>, s: State) {
    0 <= bound && Runs(c, bound, Init(t0), steps) && After(c, bound, Init(t0), steps) == s
  }

  lemma Then(c: Config, bound: Time, t0: Time, steps: seq<Step>, s: State, step: Step) returns (more: seq<Step>)
    requires Reached(c, bound, t0, steps, s) && Enabled(bound, s, step)
    ensures more == steps + [step] && Reached(c, bound, t0, more, Apply(c, bound, s, step))
  {
    more := steps + [step];
    assert more[..|more| - 1] == steps;
  }

  /** One step of a call that runs alone. */
  lemma SoloStep(c: Config, bound: Time, t0: Time, steps: seq<Step>, s: State, id: nat, cmd: S.Command) returns (more: seq<Step>, s': State)
    requires Reached(c, bound, t0, steps, s) && id in s.calls && !cmd.Evict? && !s.calls[id].pc.Finished?
    ensures var e := Act(c, s.w, id, s.calls[id].pc, ChoiceAt(cmd, s.calls[id].pc));
            s' == State(e.w, s.calls[id := s.calls[id].(pc := e.pc)])
    ensures Reached(c, bound, t0, more, s') && steps <= more
  {
    var step := Advance(id, ChoiceAt(cmd, s.calls[id].pc));
    s' := Apply(c, bound, s, step);
    more := Then(c, bound, t0, steps, s, step);
  }

  /** What is left of a call can always run on its own. */
  lemma SoloRuns(c: Config, bound: Time, t0: Time, steps: seq<Step>, s: State, id: nat, cmd: S.Command) returns (more: seq<Step>)
    requires Reached(c, bound, t0, steps, s) && id in s.calls && !cmd.Evict?
    ensures var e := Solo(c, s.w, id, s.calls[id].pc, cmd);
            Reached(c, bound, t0, more, State(e.w, s.calls[id := s.calls[id].(pc := e.pc)])) && steps <= more
    decreases StepsLeft(s.calls[id].pc)
  {
    var pc := s.calls[id].pc;
    var e := Solo(c, s.w, id, pc, cmd);
    if pc.Finished? {
      more := steps;
      assert s.calls[id := s.calls[id].(pc := pc)] == s.calls;
    } else {
      var s';
      more, s' := SoloStep(c, bound, t0, steps, s, id, cmd);
      StepsShrink(c, s.w, id, pc, ChoiceAt(cmd, pc));
      more := SoloRuns(c, bound, t0, more, s', id, cmd);
      assert s'.calls[id := s'.calls[id].(pc := e.pc)] == s.calls[id := s.calls[id].(pc := e.pc)];
    }
  }

  lemma StepsShrink(c: Config, w: World, id: nat, pc: Pc, choice: Choice)
    requires !pc.Finished?
    ensures StepsLeft(Act(c, w, id, pc, choice).pc) < StepsLeft(pc)
  {
  }

  /** A serialised command is a run of the machine: a new call that nothing interferes with. */
  lemma CommandRuns(c: Config, bound: Time, t0: Time, steps: seq<Step>, s: State, id: nat, cmd: S.Command) returns (more: seq<Step>)
    requires Reached(c, bound, t0, steps, s) && id !in s.calls && !cmd.Evict? && cmd.now == s.w.now
    ensures var r := RequestOf(cmd);
            var e := Solo(c, s.w, id, FirstPc(r), cmd);
            && Reached(c, bound, t0, more, State(e.w, s.calls[id := Call(r, s.w.now, e.pc)])) && steps <= more
            && (Contents(e.w), Plain(e.pc.reply)) == S.Exec(c, Contents(s.w), cmd)
  {
    var r := RequestOf(cmd);
    var s' := Apply(c, bound, s, Begin(id, r));
    more := Then(c, bound, t0, steps, s, Begin(id, r));
    more := SoloRuns(c, bound, t0, more, s', id, cmd);
    SoloIsSerial(c, s.w, id, cmd);
    var e := Solo(c, s.w, id, FirstPc(r), cmd);
    assert s'.calls[id := s'.calls[id].(pc := e.pc)] == s.calls[id := Call(r, s.w.now, e.pc)];
  }

  /** What the rows hold of a token, as a resolve answers it. */
  predicate AnswersRows(w: World, token: Str, reply: Reply) {
    if token !in w.rows then reply == NotExist
    else if w.rows[token].row.expiresAt < w.now then reply == Expired
    else reply.Found? && reply.url == w.rows[token].row.url
  }

  lemma ColdResolve(c: Config, w: World, id: nat, token: Str)
    requires token !in w.cache
    ensures var cmd := S.ResolveToken(token, w.now, Fine, Fine, Fine);
            AnswersRows(w, token, Solo(c, w, id, CacheGet(token), cmd).pc.reply)
  {
    var cmd := S.ResolveToken(token, w.now, Fine, Fine, Fine);
    SoloResolve(c, w, id, cmd);
    assert Plain(Solo(c, w, id, CacheGet(token), cmd).pc.reply) == S.Lookup(Contents(w).rows, token, w.now);
  }

  /** Whatever the cache has come to hold, evicting the token's entry makes the next resolve answer
      with what the rows hold: from every state that any run reaches. */
  lemma EvictionHeals(c: Config, bound: Time, t0: Time, steps: seq<Step>, s: State, id: nat, token: Str) returns (more: seq<Step>, s': State)
    requires Reached(c, bound, t0, steps, s) && id !in s.calls
    ensures Reached(c, bound, t0, more, s') && steps + [Evict(token)] <= more
    ensures id in s'.calls && s'.calls[id].request == Resolve(token) && s'.calls[id].pc.Finished?
    ensures AnswersRows(s.w, token, s'.calls[id].pc.reply)
  {
    more := Then(c, bound, t0, steps, s, Evict(token));
    var evicted := Apply(c, bound, s, Evict(token));
    ColdResolve(c, evicted.w, id, token);
    var cmd := S.ResolveToken(token, s.w.now, Fine, Fine, Fine);
    more := CommandRuns(c, bound, t0, more, evicted, id, cmd);
    var e := Solo(c, evicted.w, id, CacheGet(token), cmd);
    s' := State(e.w, evicted.calls[id := Call(Resolve(token), s.w.now, e.pc)]);
  }
}
