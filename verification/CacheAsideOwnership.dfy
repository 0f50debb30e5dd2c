/**
 Whose rows a delete takes when calls overlap, whatever the cache does: exactly when it is the row
 the call had checked, and a discipline for callers under which it always is.
 */
module CacheAsideOwnership {
  import opened Primitives
  import opened Store
  import opened CacheAside
  import opened RepoHistory
  import opened RepoInvariant
  import opened CacheAsideTheorems

  /** Ownership in every run. A row goes only through a delete whose requester owned the row that its
      call had looked at. It is that same row that goes if, and only if, no other delete of the token
      took effect between the look and the delete; and otherwise it is one that was created since. */
  lemma OwnershipExact(c: Config, bound: Time, t0: Time, steps: seq<Step>, k: nat)
    requires Runs(c, bound, Init(t0), steps)
    requires var log := End(c, bound, t0, steps).w.log; k < |log| && log[k].Deleted?
    ensures var log := End(c, bound, t0, steps).w.log;
            var e := log[k];
            && e.readAt <= k && Stood(log, e.token, e.seen, e.readAt) && e.seen.row.owner == e.requester
            && e.gen < k && log[e.gen].Inserted? && log[e.gen].token == e.token
            && (e.gen == e.seen.gen <==> Undisturbed(log, k))
            && (e.gen == e.seen.gen <==> e.gen < e.readAt)
            && (Undisturbed(log, k) ==> log[e.gen].row.owner == e.requester)
  {
    RunKeeps(c, bound, t0, steps);
    var log := End(c, bound, t0, steps).w.log;
    var e := log[k];
    assert Lawful(c, log[..k], e);
    assert log[..k][..e.readAt] == log[..e.readAt];
    DeleteExact(c, log, k);
    StoodBorn(c, log, e.token, e.seen, e.readAt);
    LawfulPrefix(c, log, k);
    TableBorn(c, log[..k], e.token);
  }

  // ------- A discipline that callers can keep -------

  /** Two deletes of one token are in flight at once. */
  predicate Overlap(a: Call, b: Call) {
    && a.request.Delete? && !a.pc.Finished?
    && b.request.Delete? && !b.pc.Finished?
    && a.request.token == b.request.token
  }

  ghost predicate Apart(s: State) {
    forall i, j :: i in s.calls && j in s.calls && Overlap(s.calls[i], s.calls[j]) ==> i == j
  }

  /** At no step of the run are two deletes of one token in flight. */
  ghost predicate AlwaysApart(c: Config, bound: Time, s: State, steps: seq<Step>)
    requires Runs(c, bound, s, steps)
  {
    steps == [] ||
    (var n := |steps| - 1;
     AlwaysApart(c, bound, s, steps[..n]) && Apart(After(c, bound, s, steps[..n])))
  }

  /** No delete of the token took effect since the call looked at its row. */
  ghost predicate Unopposed(log: seq<Event>, token: Str, readAt: nat) {
    forall j :: readAt <= j < |log| && log[j].Deleted? ==> log[j].token != token
  }

  /** What a delete in flight has checked: the token and the length of the history when it looked. */
  function Checked(pc: Pc): Option<(Str, nat)> {
    match pc
    case CacheDelete(token, _, _, readAt) => Some((token, readAt))
    case RepoDelete(token, _, _, readAt) => Some((token, readAt))
    case _ => None
  }

  ghost predicate CallUnopposed(log: seq<Event>, call: Call) {
    Checked(call.pc).Some? ==> Unopposed(log, Checked(call.pc).value.0, Checked(call.pc).value.1)
  }

  ghost predicate AllUndisturbed(log: seq<Event>) {
    forall k :: 0 <= k < |log| && log[k].Deleted? ==> Undisturbed(log, k)
  }

  ghost predicate ApartInv(s: State) {
    AllUndisturbed(s.w.log) && forall id :: id in s.calls ==> CallUnopposed(s.w.log, s.calls[id])
  }

  lemma UndisturbedKept(w: World, w': World)
    requires Grows(w, w') && AllUndisturbed(w.log)
    requires |w'.log| > |w.log| && w'.log[|w.log|].Deleted? ==> Undisturbed(w'.log, |w.log|)
    ensures AllUndisturbed(w'.log)
  {
    forall i | 0 <= i < |w.log| ensures i < |w'.log| && w'.log[i] == w.log[i] {
      EventsKept(w, w', i);
    }
  }

  lemma UnopposedKept(w: World, w': World, token: Str, readAt: nat)
    requires Grows(w, w') && Unopposed(w.log, token, readAt)
    requires |w'.log| > |w.log| && w'.log[|w.log|].Deleted? ==> w'.log[|w.log|].token != token
    ensures Unopposed(w'.log, token, readAt)
  {
    forall i | 0 <= i < |w.log| ensures i < |w'.log| && w'.log[i] == w.log[i] {
      EventsKept(w, w', i);
    }
  }

  /** The step of one call disturbs no delete, when deletes of one token are kept apart. */
  lemma AdvanceApart(c: Config, bound: Time, s: State, id: nat, choice: Choice)
    requires RepoInv(c, s) && ApartInv(s) && Apart(s) && Enabled(bound, s, Advance(id, choice))
    ensures ApartInv(Apply(c, bound, s, Advance(id, choice)))
  {
    var call := s.calls[id];
    var s' := Apply(c, bound, s, Advance(id, choice));
    var w, w' := s.w, s'.w;
    ActKeeps(c, w, id, call, choice);
    LoggedDelete(c, w, id, call, choice);
    UndisturbedKept(w, w');
    forall i | i in s'.calls ensures CallUnopposed(w'.log, s'.calls[i]) {
      var pc := s'.calls[i].pc;
      if i != id && Checked(pc).Some? {
        assert RepoCall(c, w, i, s.calls[i]);
        assert Overlap(s.calls[i], call) ==> i == id;
        UnopposedKept(w, w', Checked(pc).value.0, Checked(pc).value.1);
      }
    }
  }

  /** A delete is logged only by a call that is about to delete that token. */
  lemma LoggedDelete(c: Config, w: World, id: nat, call: Call, choice: Choice)
    requires RepoCall(c, w, id, call) && !call.pc.Finished? && CallUnopposed(w.log, call)
    ensures var e := Act(c, w, id, call.pc, choice);
            && (|e.w.log| > |w.log| && e.w.log[|w.log|].Deleted? ==>
                  && Undisturbed(e.w.log, |w.log|)
                  && call.request.Delete? && call.request.token == e.w.log[|w.log|].token)
            && CallUnopposed(e.w.log, call.(pc := e.pc))
  {
  }

  lemma StepApart(c: Config, bound: Time, s: State, step: Step)
    requires RepoInv(c, s) && ApartInv(s) && Apart(s) && Enabled(bound, s, step)
    ensures ApartInv(Apply(c, bound, s, step))
  {
    if step.Advance? {
      AdvanceApart(c, bound, s, step.id, step.choice);
    }
  }

  lemma {:induction false} RunApart(c: Config, bound: Time, t0: Time, steps: seq<Step>)
    requires Runs(c, bound, Init(t0), steps) && AlwaysApart(c, bound, Init(t0), steps)
    ensures ApartInv(After(c, bound, Init(t0), steps))
  {
    if steps != [] {
      var n := |steps| - 1;
      RunApart(c, bound, t0, steps[..n]);
      RunKeeps(c, bound, t0, steps[..n]);
      StepApart(c, bound, After(c, bound, Init(t0), steps[..n]), steps[n]);
    }
  }

  /** Only the owner deletes: as long as no two deletes of one token overlap, whatever else does,
      every row that goes belonged to the requester of the delete that took it. */
  lemma OwnershipWhenApart(c: Config, bound: Time, t0: Time, steps: seq<Step>, k: nat)
    requires Runs(c, bound, Init(t0), steps) && AlwaysApart(c, bound, Init(t0), steps)
    requires var log := End(c, bound, t0, steps).w.log; k < |log| && log[k].Deleted?
    ensures var log := End(c, bound, t0, steps).w.log;
            var e := log[k];
            && e.gen == e.seen.gen && e.gen < k
            && log[e.gen].Inserted? && log[e.gen].token == e.token && log[e.gen].row.owner == e.requester
  {
    RunApart(c, bound, t0, steps);
    OwnershipExact(c, bound, t0, steps, k);
  }
}
