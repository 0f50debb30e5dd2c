/**
 Runs that show where the results about the interleaved protocol cannot be strengthened: the
 staleness bound is reached, and a delete can take a row that its requester never owned.
 */
module CacheAsideRaces {
  import opened Primitives
  import opened Utf8
  import opened Store
  import opened CacheAside
  import opened CacheAsideInvariant
  import opened CacheAsideTheorems
  import opened CacheAsideSolo
  import S = SerialStore

  const TOKEN: Str := [0x61]

  const FINE: Choice := Choice(Fine, None)

  function Asking(raw: Str, ttl: Time, owner: Str): CreateInput {
    CreateInput(raw, ttl, TOKEN, owner)
  }

  /** A create whose cache write is lost. */
  function Creating(input: CreateInput, now: Time): S.Command {
    S.CreateToken(input, None, now, Fine, LostBefore)
  }

  function Deleting(owner: Str, now: Time): S.Command {
    S.DeleteToken(TOKEN, owner, now, Fine, Fine, Fine)
  }

  lemma LoneCreate(c: Config, w: World, id: nat, raw: Str, url: Str, ttl: Time, owner: Str)
    requires TOKEN !in w.rows && c.normalize(raw) == Some(url) && ttl > 0
    ensures var row := Row(url, w.now + ttl, owner);
            var e := Solo(c, w, id, PrepareRow(Asking(raw, ttl, owner)), Creating(Asking(raw, ttl, owner), w.now));
            && e.w == InsertRow(w, TOKEN, row, id, raw)
            && e.pc == Finished(Created(TOKEN, Version(row, |w.log|)), w.now)
  {
    var row := Row(url, w.now + ttl, owner);
    var input := Asking(raw, ttl, owner);
    var cmd := Creating(input, w.now);
    AsciiRuneCount(TOKEN);
    assert Prepare(c, input, None, w.now) == Ready(TOKEN, row);
    var w', v := InsertRow(w, TOKEN, row, id, raw), Version(row, |w.log|);
    var insert, tail := Insert(TOKEN, row, raw), ComputeTtl(TOKEN, v, Created(TOKEN, v));
    assert Solo(c, w, id, PrepareRow(input), cmd) == Solo(c, w, id, insert, cmd);
    assert Solo(c, w, id, insert, cmd) == Solo(c, w', id, tail, cmd);
    var saving := Act(c, w', id, tail, ChoiceAt(cmd, tail)).pc;
    assert Solo(c, w', id, tail, cmd) == Solo(c, w', id, saving, cmd);
    LastStep(c, w', id, saving, cmd);
  }

  lemma LoneDelete(c: Config, w: World, id: nat, owner: Str)
    requires TOKEN in w.rows && w.rows[TOKEN].row.owner == owner
    ensures var e := Solo(c, w, id, DeleteGet(TOKEN, owner), Deleting(owner, w.now));
            e.w == DeleteRow(w.(cache := w.cache - {TOKEN}), TOKEN, owner, w.rows[TOKEN], |w.log|)
  {
    var cmd, seen := Deleting(owner, w.now), w.rows[TOKEN];
    var w1 := w.(cache := w.cache - {TOKEN});
    assert Solo(c, w, id, DeleteGet(TOKEN, owner), cmd) == Solo(c, w, id, CacheDelete(TOKEN, owner, seen, |w.log|), cmd);
    assert Solo(c, w, id, CacheDelete(TOKEN, owner, seen, |w.log|), cmd) == Solo(c, w1, id, RepoDelete(TOKEN, owner, seen, |w.log|), cmd);
    LastStep(c, w1, id, RepoDelete(TOKEN, owner, seen, |w.log|), cmd);
  }

  /** The world after the token was created once, at time 0. */
  function Once(url: Str, ttl: Time, owner: Str, raw: Str): World {
    InsertRow(Init(0).w, TOKEN, Row(url, ttl, owner), 0, raw)
  }

  lemma CreatedOnce(c: Config, bound: Time, raw: Str, url: Str, ttl: Time, owner: Str) returns (steps: seq<Step>, s: State)
    requires 0 <= bound && ttl > 0 && c.normalize(raw) == Some(url)
    ensures Reached(c, bound, 0, steps, s) && s.w == Once(url, ttl, owner, raw)
    ensures s.calls.Keys == {0} && s.calls[0].pc.Finished?
  {
    var w := Init(0).w;
    var input := Asking(raw, ttl, owner);
    LoneCreate(c, w, 0, raw, url, ttl, owner);
    steps := CommandRuns(c, bound, 0, [], Init(0), 0, Creating(input, 0));
    var e := Solo(c, w, 0, PrepareRow(input), Creating(input, 0));
    s := State(e.w, Init(0).calls[0 := Call(Create(input), 0, e.pc)]);
  }

  lemma Take(c: Config, bound: Time, steps: seq<Step>, s: State, step: Step) returns (more: seq<Step>, s': State)
    requires Reached(c, bound, 0, steps, s) && Enabled(bound, s, step)
    ensures s' == Apply(c, bound, s, step) && Reached(c, bound, 0, more, s')
  {
    s' := Apply(c, bound, s, step);
    more := Then(c, bound, 0, steps, s, step);
  }

  /** One step of the call `id` that leaves the world as it is. */
  lemma Move(c: Config, bound: Time, steps: seq<Step>, s: State, id: nat, pc: Pc) returns (more: seq<Step>, s': State)
    requires Reached(c, bound, 0, steps, s) && id in s.calls && !s.calls[id].pc.Finished?
    requires Act(c, s.w, id, s.calls[id].pc, FINE) == Effect(s.w, pc)
    ensures s' == s.(calls := s.calls[id := s.calls[id].(pc := pc)]) && Reached(c, bound, 0, more, s')
  {
    more, s' := Take(c, bound, steps, s, Advance(id, FINE));
  }

  /** A resolve misses the cache and reads the row. */
  lemma RowReadOut(c: Config, bound: Time, steps: seq<Step>, s: State, id: nat, v: Version) returns (more: seq<Step>, s': State)
    requires Reached(c, bound, 0, steps, s) && id !in s.calls
    requires s.w.rows == map[TOKEN := v] && s.w.cache == map[] && s.w.now <= v.row.expiresAt
    ensures Reached(c, bound, 0, more, s')
    ensures s' == s.(calls := s.calls[id := Call(Resolve(TOKEN), s.w.now, ComputeTtl(TOKEN, v, Found(v.row.url, v.gen)))])
  {
    more, s' := Take(c, bound, steps, s, Begin(id, Resolve(TOKEN)));
    more, s' := Move(c, bound, more, s', id, RepoGet(TOKEN));
    more, s' := Move(c, bound, more, s', id, CheckExpiry(TOKEN, v));
    more, s' := Move(c, bound, more, s', id, ComputeTtl(TOKEN, v, Found(v.row.url, v.gen)));
  }

  /** A delete by the owner of the one row that is there runs alone. */
  lemma DeletedAlone(c: Config, bound: Time, steps: seq<Step>, s: State, id: nat, v: Version) returns (more: seq<Step>, s': State)
    requires Reached(c, bound, 0, steps, s) && id !in s.calls
    requires s.w.rows == map[TOKEN := v] && s.w.cache == map[] && s.w.now == 0
    ensures Reached(c, bound, 0, more, s')
    ensures s'.w == World(0, map[], map[], s.w.log + [Deleted(TOKEN, v.gen, 0, v.row.owner, v, |s.w.log|)])
    ensures s'.calls.Keys == s.calls.Keys + {id} && s'.calls[id].pc.Finished?
    ensures forall i :: i in s.calls ==> s'.calls[i] == s.calls[i]
  {
    var owner := v.row.owner;
    var e := Solo(c, s.w, id, DeleteGet(TOKEN, owner), Deleting(owner, 0));
    LoneDelete(c, s.w, id, owner);
    more := CommandRuns(c, bound, 0, steps, s, id, Deleting(owner, 0));
    s' := State(e.w, s.calls[id := Call(Delete(TOKEN, owner), 0, e.pc)]);
    assert e.w.rows == map[] && e.w.cache == map[];
  }

  /** A resolve reads the row, a delete takes it, and the resolve goes on. */
  lemma ReadThenDeleted(c: Config, bound: Time, raw: Str, url: Str, ttl: Time, owner: Str) returns (steps: seq<Step>, s: State)
    requires 0 <= bound && ttl > 0 && c.normalize(raw) == Some(url)
    ensures Reached(c, bound, 0, steps, s)
    ensures var row := Row(url, ttl, owner);
            && s.w == World(0, map[], map[], [Inserted(TOKEN, row, 0, 0, raw), Deleted(TOKEN, 0, 0, owner, Version(row, 0), 1)])
            && s.calls.Keys == {0, 1, 2} && s.calls[0].pc.Finished? && s.calls[2].pc.Finished?
            && s.calls[1] == Call(Resolve(TOKEN), 0, ComputeTtl(TOKEN, Version(row, 0), Found(url, 0)))
  {
    steps, s := CreatedOnce(c, bound, raw, url, ttl, owner);
    var v := Version(Row(url, ttl, owner), 0);
    assert s.w == World(0, map[TOKEN := v], map[], [Inserted(TOKEN, v.row, 0, 0, raw)]);
    steps, s := RowReadOut(c, bound, steps, s, 1, v);
    steps, s := DeletedAlone(c, bound, steps, s, 2, v);
  }

  /** A call about to compute its time to live fills the cache at the end of its time. */
  lemma LateFill(c: Config, bound: Time, steps: seq<Step>, s: State, id: nat, v: Version) returns (more: seq<Step>, s': State)
    requires Reached(c, bound, 0, steps, s) && id in s.calls && c.maxCacheTTL > 0
    requires s.calls[id] == Call(Resolve(TOKEN), 0, ComputeTtl(TOKEN, v, Found(v.row.url, v.gen)))
    requires s.w.now == 0 && s.w.cache == map[] && v.row.expiresAt == bound + c.maxCacheTTL
    requires forall i :: i in s.calls && i != id ==> s.calls[i].pc.Finished?
    requires 0 <= bound
    ensures Reached(c, bound, 0, more, s')
    ensures s'.w == s.w.(now := bound, cache := map[TOKEN := Copy(v.row.url, Until(bound + c.maxCacheTTL), v.gen, bound, bound)])
    ensures s'.calls.Keys == s.calls.Keys && forall i :: i in s'.calls ==> s'.calls[i].pc.Finished?
  {
    more, s' := Take(c, bound, steps, s, Tick(bound));
    more, s' := Move(c, bound, more, s', id, CacheSet(TOKEN, v, c.maxCacheTTL, bound, Found(v.row.url, v.gen)));
    more, s' := Take(c, bound, more, s', Advance(id, FINE));
  }

  /** A resolve of a token whose entry is live is answered from the cache. */
  lemma ServedFromCache(c: Config, bound: Time, steps: seq<Step>, s: State, id: nat, later: Time) returns (more: seq<Step>, s': State)
    requires Reached(c, bound, 0, steps, s) && id !in s.calls && s.w.now <= later
    requires forall i :: i in s.calls ==> s.calls[i].pc.Finished?
    requires TOKEN in s.w.cache && Live(s.w.cache[TOKEN].expiry, later)
    ensures Reached(c, bound, 0, more, s') && s'.w == s.w.(now := later)
    ensures Answered(s', id, Found(s.w.cache[TOKEN].url, s.w.cache[TOKEN].gen)) && s'.calls[id].start == later
  {
    more, s' := Take(c, bound, steps, s, Tick(later));
    more, s' := Take(c, bound, more, s', Begin(id, Resolve(TOKEN)));
    more, s' := Take(c, bound, more, s', Advance(id, FINE));
  }

  /** The staleness bound is tight: for every configuration and every bound on calls there is a run
      in which a resolve that starts exactly `bound + maxCacheTTL` after a row was deleted, by a
      delete that had returned, still returns its URL. */
  lemma StalenessReached(c: Config, bound: Time, raw: Str, url: Str, owner: Str) returns (steps: seq<Step>, s: State)
    requires 0 <= bound && c.maxCacheTTL > 0 && c.normalize(raw) == Some(url)
    ensures Reached(c, bound, 0, steps, s)
    ensures |s.w.log| == 2 && s.w.log[1].Deleted? && s.w.log[1].gen == 0
    ensures Answered(s, 3, Found(url, 0)) && s.calls[3].start == s.w.log[1].at + Staleness(c, bound)
  {
    var ttl := bound + c.maxCacheTTL;
    steps, s := ReadThenDeleted(c, bound, raw, url, ttl, owner);
    steps, s := LateFill(c, bound, steps, s, 1, Version(Row(url, ttl, owner), 0));
    steps, s := ServedFromCache(c, bound, steps, s, 3, ttl);
  }

  /** An entry without end, written with a negative time to live. */
  lemma WrittenForEver(c: Config, bound: Time, raw: Str, url: Str, owner: Str) returns (steps: seq<Step>, s: State)
    requires c.nonPositive.KeepsForever? && 1 <= bound && c.normalize(raw) == Some(url)
    ensures Reached(c, bound, 0, steps, s)
    ensures s.w == World(2, map[TOKEN := Version(Row(url, 1, owner), 0)], map[TOKEN := Copy(url, Never, 0, 2, 2)],
                         [Inserted(TOKEN, Row(url, 1, owner), 0, 0, raw)])
    ensures s.calls.Keys == {0, 1} && s.calls[0].pc.Finished? && s.calls[1].pc.Finished?
  {
    steps, s := CreatedOnce(c, bound, raw, url, 1, owner);
    var v := Version(Row(url, 1, owner), 0);
    assert s.w == World(0, map[TOKEN := v], map[], [Inserted(TOKEN, v.row, 0, 0, raw)]);
    steps, s := Take(c, bound, steps, s, Tick(1));
    steps, s := RowReadOut(c, bound, steps, s, 1, v);
    steps, s := Take(c, bound, steps, s, Tick(2));
    steps, s := Move(c, bound, steps, s, 1, CacheSet(TOKEN, v, Min(c.maxCacheTTL, -1), 2, Found(url, 0)));
    steps, s := Take(c, bound, steps, s, Advance(1, FINE));
  }

  /** The assumption on times to live is needed under interleaving: if the cache keeps for ever what
      it is given with a negative time to live, and a call can last at all, then a row that passes its
      expiry between the check and the computation of that time is served at any later time. */
  lemma NegativeTtlKept(c: Config, bound: Time, raw: Str, url: Str, owner: Str, later: Time) returns (steps: seq<Step>, s: State)
    requires c.nonPositive.KeepsForever? && 1 <= bound && c.normalize(raw) == Some(url) && 2 <= later
    ensures Reached(c, bound, 0, steps, s)
    ensures s.w.log == [Inserted(TOKEN, Row(url, 1, owner), 0, 0, raw)]
    ensures Answered(s, 2, Found(url, 0)) && s.calls[2].start == later
  {
    steps, s := WrittenForEver(c, bound, raw, url, owner);
    steps, s := ServedFromCache(c, bound, steps, s, 2, later);
  }

  /** Two deletes by the owner: one is about to reach the repository when the other ends. */
  lemma DeletesRacing(c: Config, bound: Time, raw: Str, url: Str, owner: Str) returns (steps: seq<Step>, s: State)
    requires 0 <= bound && c.normalize(raw) == Some(url)
    ensures Reached(c, bound, 0, steps, s)
    ensures s.w.now == 0 && s.w.rows == map[] && |s.w.log| == 2
    ensures s.calls.Keys == {0, 1, 2} && s.calls[0].pc.Finished? && s.calls[2].pc.Finished?
    ensures s.calls[1] == Call(Delete(TOKEN, owner), 0, RepoDelete(TOKEN, owner, Version(Row(url, 1, owner), 0), 1))
  {
    steps, s := CreatedOnce(c, bound, raw, url, 1, owner);
    var v := Version(Row(url, 1, owner), 0);
    assert s.w == World(0, map[TOKEN := v], map[], [Inserted(TOKEN, v.row, 0, 0, raw)]);
    steps, s := Take(c, bound, steps, s, Begin(1, Delete(TOKEN, owner)));
    steps, s := Move(c, bound, steps, s, 1, CacheDelete(TOKEN, owner, v, 1));
    assert s.w.cache - {TOKEN} == s.w.cache;
    steps, s := Move(c, bound, steps, s, 1, RepoDelete(TOKEN, owner, v, 1));
    steps, s := DeletedAlone(c, bound, steps, s, 2, v);
  }

  /** Ownership fails under interleaving: a delete that has seen its requester own the token can
      take the row of somebody who created the token anew in the meantime. */
  lemma ForeignRowDeleted(c: Config, bound: Time, raw: Str, url: Str, first: Str, second: Str) returns (steps: seq<Step>, s: State)
    requires 0 <= bound && c.normalize(raw) == Some(url) && first != second
    ensures Reached(c, bound, 0, steps, s)
    ensures |s.w.log| == 4 && s.w.log[2].Inserted? && s.w.log[2].row.owner == second
    ensures s.w.log[3].Deleted? && s.w.log[3].gen == 2 && s.w.log[3].requester == first
    ensures Answered(s, 1, Gone)
  {
    steps, s := DeletesRacing(c, bound, raw, url, first);
    var input := Asking(raw, 1, second);
    LoneCreate(c, s.w, 3, raw, url, 1, second);
    steps := CommandRuns(c, bound, 0, steps, s, 3, Creating(input, 0));
    var e := Solo(c, s.w, 3, PrepareRow(input), Creating(input, 0));
    s := State(e.w, s.calls[3 := Call(Create(input), 0, e.pc)]);
    steps, s := Take(c, bound, steps, s, Advance(1, FINE));
  }
}
