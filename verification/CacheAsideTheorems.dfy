/** The results about the cache-aside protocol: statements over every run of every interleaving. */
module CacheAsideTheorems {
  import opened Primitives
  import opened Store
  import opened CacheAside
  import opened RepoHistory
  import opened RepoInvariant
  import opened CacheAsideInvariant

  /** A run that starts with an empty store, in which every call lasts at most `bound` and the cache
      treats times to live that are not positive as it is assumed to. */
  ghost predicate GoodRun(c: Config, bound: Time, t0: Time, steps: seq<Step>) {
    0 <= bound && Runs(c, bound, Init(t0), steps) && TtlSafe(c, bound, Init(t0), steps)
  }

  ghost function End(c: Config, bound: Time, t0: Time, steps: seq<Step>): State
    requires Runs(c, bound, Init(t0), steps)
  {
    After(c, bound, Init(t0), steps)
  }

  /** The call `id` has ended, and `reply` is what it returned. */
  ghost predicate Answered(s: State, id: nat, reply: Reply) {
    id in s.calls && s.calls[id].pc.Finished? && s.calls[id].pc.reply == reply
  }

  /** Bounded staleness. Once a row has been deleted at time d, no ResolveToken that starts after
      d + bound + maxCacheTTL returns it, even if the token has been created again since. */
  lemma BoundedStaleness(c: Config, bound: Time, t0: Time, steps: seq<Step>, id: nat, url: Str, gen: nat, k: nat)
    requires GoodRun(c, bound, t0, steps) && Answered(End(c, bound, t0, steps), id, Found(url, gen))
    requires var log := End(c, bound, t0, steps).w.log; k < |log| && log[k].Deleted? && log[k].gen == gen
    ensures var s := End(c, bound, t0, steps);
            s.calls[id].start <= s.w.log[k].at + Staleness(c, bound)
  {
    RunOk(c, bound, t0, steps);
  }

  /** The same bound on what the cache itself holds: an entry copied from a row that is deleted at
      time d expires by d + bound + maxCacheTTL. */
  lemma CacheStaleness(c: Config, bound: Time, t0: Time, steps: seq<Step>, token: Str, k: nat)
    requires GoodRun(c, bound, t0, steps) && token in End(c, bound, t0, steps).w.cache
    requires var w := End(c, bound, t0, steps).w;
             k < |w.log| && w.log[k].Deleted? && w.log[k].gen == w.cache[token].gen
    ensures var w := End(c, bound, t0, steps).w;
            w.cache[token].expiry.Until? && w.cache[token].expiry.at <= w.log[k].at + Staleness(c, bound)
  {
    RunOk(c, bound, t0, steps);
    assert CopyOk(c, bound, End(c, bound, t0, steps).w, token, End(c, bound, t0, steps).w.cache[token]);
  }

  /** Provenance. A resolved URL was stored for that very token by an earlier insert, and is the
      normal form of the text which that create was given. */
  lemma Provenance(c: Config, bound: Time, t0: Time, steps: seq<Step>, id: nat, url: Str, gen: nat)
    requires GoodRun(c, bound, t0, steps) && Answered(End(c, bound, t0, steps), id, Found(url, gen))
    ensures var s := End(c, bound, t0, steps);
            && s.calls[id].request.Resolve?
            && Stored(s.w.log, s.calls[id].request.token, gen, url)
            && c.normalize(s.w.log[gen].raw) == Some(url)
  {
    RunOk(c, bound, t0, steps);
    var log := End(c, bound, t0, steps).w.log;
    assert Lawful(c, log[..gen], log[gen]);
  }

  /** Provenance of the cache, and the arithmetic of its lifetimes: an entry expires no later than
      maxCacheTTL after it was written, and outlives its row by no more than the time that passed
      between computing its time to live and writing it, which is at most the length of a call. */
  lemma CacheLifetime(c: Config, bound: Time, t0: Time, steps: seq<Step>, token: Str)
    requires GoodRun(c, bound, t0, steps) && token in End(c, bound, t0, steps).w.cache
    ensures var w := End(c, bound, t0, steps).w;
            var e := w.cache[token];
            && Stored(w.log, token, e.gen, e.url) && c.normalize(w.log[e.gen].raw) == Some(e.url)
            && e.expiry.Until?
            && e.expiry.at <= Min(e.writtenAt + c.maxCacheTTL, w.log[e.gen].row.expiresAt + (e.writtenAt - e.computedAt))
            && 0 <= e.writtenAt - e.computedAt <= bound
  {
    RunOk(c, bound, t0, steps);
    var w := End(c, bound, t0, steps).w;
    assert CopyOk(c, bound, w, token, w.cache[token]);
    assert Lawful(c, w.log[..w.cache[token].gen], w.log[w.cache[token].gen]);
  }

  /** No URL is returned later than `bound` after its row expired. */
  lemma ExpiryRespected(c: Config, bound: Time, t0: Time, steps: seq<Step>, id: nat, url: Str, gen: nat)
    requires GoodRun(c, bound, t0, steps) && Answered(End(c, bound, t0, steps), id, Found(url, gen))
    ensures var s := End(c, bound, t0, steps);
            gen < |s.w.log| && s.w.log[gen].Inserted? && s.calls[id].pc.at <= s.w.log[gen].row.expiresAt + bound
  {
    RunOk(c, bound, t0, steps);
  }

  /** What a call on its way through ResolveToken or createToken holds: a row and its token. */
  function Holding(pc: Pc): Option<(Str, Version)> {
    match pc
    case CheckExpiry(token, v) => Some((token, v))
    case ComputeTtl(token, v, _) => Some((token, v))
    case CacheSet(token, v, _, _, _) => Some((token, v))
    case _ => None
  }

  /** Provenance of what a call in flight holds. */
  lemma ProvenanceInFlight(c: Config, bound: Time, t0: Time, steps: seq<Step>, id: nat, token: Str, v: Version)
    requires GoodRun(c, bound, t0, steps)
    requires var s := End(c, bound, t0, steps); id in s.calls && Holding(s.calls[id].pc) == Some((token, v))
    ensures var s := End(c, bound, t0, steps);
            && Stored(s.w.log, token, v.gen, v.row.url) && s.w.log[v.gen].row == v.row
            && c.normalize(s.w.log[v.gen].raw) == Some(v.row.url)
            && (s.calls[id].request.Resolve? ==> s.calls[id].request.token == token)
  {
    RunOk(c, bound, t0, steps);
    var log := End(c, bound, t0, steps).w.log;
    assert Lawful(c, log[..v.gen], log[v.gen]);
  }

  // ------- The repository, whatever the cache does -------

  /** A call that is refused, or has deleted, told the truth about some instant of its own: the row
      was past its expiry, was not there, was there already, was not the requester's, or is gone. */
  lemma RefusalsTrue(c: Config, bound: Time, t0: Time, steps: seq<Step>, id: nat, reply: Reply)
    requires Runs(c, bound, Init(t0), steps) && Answered(End(c, bound, t0, steps), id, reply)
    ensures var s := End(c, bound, t0, steps);
            exists n: nat :: && During(s.w.log, n, s.calls[id].start, s.calls[id].pc.at)
                             && BornOut(s.w.log, n, s.calls[id].request, reply, s.calls[id].pc.at)
  {
    RunKeeps(c, bound, t0, steps);
    var s := End(c, bound, t0, steps);
    assert Truthful(s.w.log, s.calls[id].request, s.calls[id].start, reply, s.calls[id].pc.at);
  }

  /** Every access that the call `id` made worked. */
  predicate Smooth(steps: seq<Step>, id: nat) {
    forall k :: 0 <= k < |steps| && steps[k].Advance? && steps[k].id == id ==> steps[k].choice.fault.Fine?
  }

  predicate Failure(reply: Reply) {
    reply.RepoFailure? || reply.CacheFailure?
  }

  /** A call reports a failure of the repository or the cache only if one of its own accesses failed,
      whatever other calls do meanwhile; so of two deletes that race, both succeed. */
  lemma {:induction false} FailureHasCause(c: Config, bound: Time, t0: Time, steps: seq<Step>, id: nat)
    requires Runs(c, bound, Init(t0), steps) && Smooth(steps, id)
    ensures var s := End(c, bound, t0, steps);
            id in s.calls && s.calls[id].pc.Finished? ==> !Failure(s.calls[id].pc.reply)
  {
    if steps != [] {
      var n := |steps| - 1;
      FailureHasCause(c, bound, t0, steps[..n], id);
      RunKeeps(c, bound, t0, steps[..n]);
      WorkingStep(c, bound, After(c, bound, Init(t0), steps[..n]), steps[n], id);
      assert steps[n].Advance? && steps[n].id == id ==> steps[n].choice.fault.Fine?;
    }
  }

  lemma WorkingStep(c: Config, bound: Time, s: State, step: Step, id: nat)
    requires Enabled(bound, s, step)
    requires id in s.calls && s.calls[id].pc.Finished? ==> !Failure(s.calls[id].pc.reply)
    requires RepoInv(c, s)
    requires step.Advance? && step.id == id ==> step.choice.fault.Fine?
    ensures var s' := Apply(c, bound, s, step);
            id in s'.calls && s'.calls[id].pc.Finished? ==> !Failure(s'.calls[id].pc.reply)
  {
    assert id in s.calls ==> RepoCall(c, s.w, id, s.calls[id]);
  }

  /** Conservation: per token, effective inserts minus effective deletes count the row there is. */
  lemma RowsConserved(c: Config, bound: Time, t0: Time, steps: seq<Step>, token: Str)
    requires Runs(c, bound, Init(t0), steps)
    ensures var w := End(c, bound, t0, steps).w;
            Inserts(w.log, token) - Deletes(w.log, token) == if token in w.rows then 1 else 0
  {
    RunKeeps(c, bound, t0, steps);
    Conservation(c, End(c, bound, t0, steps).w.log, token);
  }

  /** Unique winner: two calls that both created the same token are separated by a delete of it. */
  lemma UniqueWinner(c: Config, bound: Time, t0: Time, steps: seq<Step>, id1: nat, id2: nat, token: Str, v1: Version, v2: Version)
    requires Runs(c, bound, Init(t0), steps) && id1 != id2
    requires Answered(End(c, bound, t0, steps), id1, Created(token, v1))
    requires Answered(End(c, bound, t0, steps), id2, Created(token, v2))
    ensures var log := End(c, bound, t0, steps).w.log;
            exists k :: (v1.gen < k < v2.gen || v2.gen < k < v1.gen) && k < |log| && log[k].Deleted? && log[k].token == token
  {
    RunKeeps(c, bound, t0, steps);
    var s := End(c, bound, t0, steps);
    CreatorsDiffer(c, s, id1, id2, token, v1, v2);
    if v1.gen < v2.gen {
      DeleteBetweenInserts(c, s.w.log, v1.gen, v2.gen);
    } else {
      DeleteBetweenInserts(c, s.w.log, v2.gen, v1.gen);
    }
  }

  lemma CreatorsDiffer(c: Config, s: State, id1: nat, id2: nat, token: Str, v1: Version, v2: Version)
    requires RepoInv(c, s) && id1 != id2
    requires Answered(s, id1, Created(token, v1)) && Answered(s, id2, Created(token, v2))
    ensures Born(s.w.log, token, v1) && Born(s.w.log, token, v2) && v1.gen != v2.gen
  {
    assert RepoCall(c, s.w, id1, s.calls[id1]);
    assert RepoCall(c, s.w, id2, s.calls[id2]);
  }

  /** While no delete of its token takes effect, a row keeps its URL, its expiry and its owner. */
  lemma RowsFrozen(c: Config, bound: Time, t0: Time, steps: seq<Step>, i: nat, token: Str)
    requires Runs(c, bound, Init(t0), steps)
    requires var log := End(c, bound, t0, steps).w.log;
             && i <= |log| && token in Table(log[..i])
             && forall k :: i <= k < |log| && log[k].Deleted? ==> log[k].token != token
    ensures var w := End(c, bound, t0, steps).w; token in w.rows && w.rows[token] == Table(w.log[..i])[token]
  {
    RunKeeps(c, bound, t0, steps);
    RowFrozen(c, End(c, bound, t0, steps).w.log, i, token);
  }
}
