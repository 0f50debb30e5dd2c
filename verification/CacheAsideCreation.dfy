/** What rows are made of, in every interleaving: each is what the call that inserted it was asked for. */
module CacheAsideCreation {
  import opened Primitives
  import opened Store
  import opened CacheAside
  import opened RepoHistory
  import opened RepoInvariant
  import opened CacheAsideTheorems

  function Lifetime(c: Config, input: CreateInput): Time {
    if input.ttl > 0 then input.ttl else c.tokenTTL
  }

  /** The row is what `call` was asked to create: its URL normalised, its owner, and a lifetime that
      began during the call, no later than `at`. */
  predicate AskedFor(c: Config, call: Call, token: Str, row: Row, raw: Str, at: Time) {
    && call.request.Create?
    && var input := call.request.input;
    && raw == input.url && c.normalize(input.url) == Some(row.url)
    && (input.token != [] ==> token == input.token)
    && row.owner == input.owner
    && call.start + Lifetime(c, input) <= row.expiresAt <= at + Lifetime(c, input)
  }

  ghost predicate PendingOk(c: Config, w: World, call: Call) {
    call.pc.Insert? ==> AskedFor(c, call, call.pc.token, call.pc.row, call.pc.raw, w.now)
  }

  ghost predicate EventOk(c: Config, calls: map<nat, Call>, e: Event) {
    e.Inserted? ==> e.creator in calls && AskedFor(c, calls[e.creator], e.token, e.row, e.raw, e.at)
  }

  ghost predicate AskedInv(c: Config, s: State) {
    && (forall id :: id in s.calls ==> PendingOk(c, s.w, s.calls[id]))
    && (forall k :: 0 <= k < |s.w.log| ==> EventOk(c, s.calls, s.w.log[k]))
  }

  /** The step of one call: it prepares what it was asked for, and logs what it prepared. */
  lemma ActAsked(c: Config, w: World, id: nat, call: Call, choice: Choice)
    requires RepoCall(c, w, id, call) && PendingOk(c, w, call) && !call.pc.Finished?
    ensures var e := Act(c, w, id, call.pc, choice);
            && PendingOk(c, e.w, call.(pc := e.pc))
            && (|e.w.log| > |w.log| && e.w.log[|w.log|].Inserted? ==>
                  var i := e.w.log[|w.log|];
                  i.creator == id && AskedFor(c, call, i.token, i.row, i.raw, i.at))
  {
  }

  /** Calls keep what they were asked for, and with it the events they logged. */
  lemma EventsStayAsked(c: Config, s: State, s': State)
    requires AskedInv(c, s) && Grows(s.w, s'.w)
    requires forall id :: id in s.calls ==>
               id in s'.calls && s'.calls[id].request == s.calls[id].request && s'.calls[id].start == s.calls[id].start
    requires |s'.w.log| > |s.w.log| ==> EventOk(c, s'.calls, s'.w.log[|s.w.log|])
    ensures forall k :: 0 <= k < |s'.w.log| ==> EventOk(c, s'.calls, s'.w.log[k])
  {
    forall k | 0 <= k < |s'.w.log| ensures EventOk(c, s'.calls, s'.w.log[k]) {
      if k < |s.w.log| {
        EventsKept(s.w, s'.w, k);
        assert EventOk(c, s.calls, s.w.log[k]);
      }
    }
  }

  lemma AdvanceAsked(c: Config, bound: Time, s: State, id: nat, choice: Choice)
    requires RepoInv(c, s) && AskedInv(c, s) && Enabled(bound, s, Advance(id, choice))
    ensures AskedInv(c, Apply(c, bound, s, Advance(id, choice)))
  {
    var call := s.calls[id];
    var s' := Apply(c, bound, s, Advance(id, choice));
    ActKeeps(c, s.w, id, call, choice);
    ActAsked(c, s.w, id, call, choice);
    EventsStayAsked(c, s, s');
    assert s'.w.now == s.w.now;
  }

  lemma StepAsked(c: Config, bound: Time, s: State, step: Step)
    requires RepoInv(c, s) && AskedInv(c, s) && Enabled(bound, s, step)
    ensures AskedInv(c, Apply(c, bound, s, step))
  {
    if step.Advance? {
      AdvanceAsked(c, bound, s, step.id, step.choice);
    } else {
      var s' := Apply(c, bound, s, step);
      forall k | 0 <= k < |s'.w.log| ensures EventOk(c, s'.calls, s'.w.log[k]) {
        assert EventOk(c, s.calls, s.w.log[k]);
      }
    }
  }

  lemma {:induction false} RunAsked(c: Config, bound: Time, t0: Time, steps: seq<Step>)
    requires Runs(c, bound, Init(t0), steps)
    ensures AskedInv(c, After(c, bound, Init(t0), steps))
  {
    if steps != [] {
      var n := |steps| - 1;
      RunAsked(c, bound, t0, steps[..n]);
      RunKeeps(c, bound, t0, steps[..n]);
      StepAsked(c, bound, After(c, bound, Init(t0), steps[..n]), steps[n]);
    }
  }

  /** Every row ever inserted, in every run, has the URL, the owner and the lifetime that the call
      which inserted it was asked for. */
  lemma InsertedAsAsked(c: Config, bound: Time, t0: Time, steps: seq<Step>, k: nat)
    requires Runs(c, bound, Init(t0), steps)
    requires var log := End(c, bound, t0, steps).w.log; k < |log| && log[k].Inserted?
    ensures var s := End(c, bound, t0, steps);
            var e := s.w.log[k];
            e.creator in s.calls && AskedFor(c, s.calls[e.creator], e.token, e.row, e.raw, e.at)
  {
    RunAsked(c, bound, t0, steps);
    assert EventOk(c, End(c, bound, t0, steps).calls, End(c, bound, t0, steps).w.log[k]);
  }

  /** So is every row that a create answers with, and the insert fell within that call. */
  lemma CreatedAsAsked(c: Config, bound: Time, t0: Time, steps: seq<Step>, id: nat, token: Str, v: Version)
    requires Runs(c, bound, Init(t0), steps) && Answered(End(c, bound, t0, steps), id, Created(token, v))
    ensures var s := End(c, bound, t0, steps);
            && Born(s.w.log, token, v)
            && AskedFor(c, s.calls[id], token, v.row, s.w.log[v.gen].raw, s.w.log[v.gen].at)
  {
    RunKeeps(c, bound, t0, steps);
    var s := End(c, bound, t0, steps);
    assert RepoCall(c, s.w, id, s.calls[id]);
    InsertedAsAsked(c, bound, t0, steps, v.gen);
  }
}
