/**
 timeoutMiddleware as a machine of two threads: the handler's goroutine, which makes the calls of a
 script on a wrapper, and the goroutine that waits for it or for the timer, with the wrapper's mutex
 between them.
 */
module TimeoutRace {
  import opened Primitives
  import opened Responses

  datatype Owner = Free | HeldByHandler | HeldByMain

  /** The fields of the wrapper, with the owner of its mutex. */
  datatype Wrapper = Wrapper(status: int, wroteHeader: bool, buffer: Str, aborted: bool, owner: Owner)

  /** The handler's goroutine: between calls, inside WriteHeader, inside Write (and inside the
      WriteHeader that Write calls), or past its end. */
  datatype HandlerPc =
    | Between
    | HeaderLock(status: int)
    | HeaderSet(status: int)
    | WriteLock(bytes: Str)
    | WriteCheck(bytes: Str)
    | NestedLock(bytes: Str)
    | WriteAppend(bytes: Str)
    | Unlock
    | Closed

  /** The selecting goroutine. */
  datatype MainPc =
    | Select
    | AbortLock
    | AbortSet
    | AbortUnlock
    | ErrorStatus
    | ErrorBody
    | FlushStatus
    | FlushBody
    | Done

  /** `position` counts the calls of the script that the handler has finished; `out` is what the
      wrapped writer has been given. */
  datatype State = State(ww: Wrapper, handler: HandlerPc, position: nat, expired: bool, main: MainPc, out: Script)

  datatype Step = HandlerStep | TimerFires | TakeTimeout | TakeDone | MainStep

  const UNAVAILABLE: int := 503

  /** The body that http.Error writes. */
  const TIMEOUT_TEXT: Str := Ascii("Server timeout\n")

  function Init(): State {
    State(Wrapper(0, false, [], false, Free), Between, 0, false, Select, [])
  }

  predicate HandlerEnabled(s: State) {
    match s.handler
    case HeaderLock(_) | WriteLock(_) | NestedLock(_) => s.ww.owner.Free?
    case Closed => false
    case _ => true
  }

  predicate MainEnabled(s: State) {
    match s.main
    case AbortLock => s.ww.owner.Free?
    case Select => false
    case Done => false
    case _ => true
  }

  predicate Enabled(s: State, step: Step) {
    match step
    case HandlerStep => HandlerEnabled(s)
    case TimerFires => !s.expired
    case TakeTimeout => s.main.Select? && s.expired
    case TakeDone => s.main.Select? && s.handler.Closed?
    case MainStep => MainEnabled(s)
  }

  function HandlerNext(script: Script, s: State): State
    requires HandlerEnabled(s)
  {
    var ww := s.ww;
    match s.handler
    case Between =>
      if s.position >= |script| then s.(handler := Closed)
      else
        (match script[s.position]
         case Header(status) => s.(handler := HeaderLock(status))
         case Body(bytes) => s.(handler := WriteLock(bytes)))
    case HeaderLock(status) => s.(ww := ww.(owner := HeldByHandler), handler := HeaderSet(status))
    case HeaderSet(status) =>
      if ww.aborted || ww.wroteHeader then s.(handler := Unlock)
      else s.(ww := ww.(status := status, wroteHeader := true), handler := Unlock)
    case WriteLock(bytes) => s.(ww := ww.(owner := HeldByHandler), handler := WriteCheck(bytes))
    case WriteCheck(bytes) =>
      s.(handler := if ww.aborted then Unlock else if !ww.wroteHeader then NestedLock(bytes) else WriteAppend(bytes))
    case NestedLock(bytes) =>
      s.(ww := ww.(owner := HeldByHandler, status := OK, wroteHeader := true), handler := WriteAppend(bytes))
    case WriteAppend(bytes) => s.(ww := ww.(buffer := ww.buffer + bytes), handler := Unlock)
    case Unlock => s.(ww := ww.(owner := Free), handler := Between, position := s.position + 1)
    case Closed => s
  }

  function MainNext(s: State): State
    requires MainEnabled(s)
  {
    var ww := s.ww;
    match s.main
    case AbortLock => s.(ww := ww.(owner := HeldByMain), main := AbortSet)
    case AbortSet => s.(ww := ww.(aborted := true, buffer := []), main := AbortUnlock)
    case AbortUnlock => s.(ww := ww.(owner := Free), main := ErrorStatus)
    case ErrorStatus => s.(out := s.out + [Header(UNAVAILABLE)], main := ErrorBody)
    case ErrorBody => s.(out := s.out + [Body(TIMEOUT_TEXT)], main := Done)
    case FlushStatus =>
      var status := if ww.wroteHeader then ww.status else OK;
      s.(ww := ww.(status := status), out := s.out + [Header(status)], main := FlushBody)
    case FlushBody => s.(out := s.out + [Body(ww.buffer)], main := Done)
    case Select | Done => s
  }

  function Apply(script: Script, s: State, step: Step): State
    requires Enabled(s, step)
  {
    match step
    case HandlerStep => HandlerNext(script, s)
    case TimerFires => s.(expired := true)
    case TakeTimeout => s.(main := AbortLock)
    case TakeDone => s.(main := FlushStatus)
    case MainStep => MainNext(s)
  }

  ghost predicate Runs(script: Script, steps: seq<Step>)
    decreases |steps|, 0
  {
    steps == [] ||
    (var n := |steps| - 1; Runs(script, steps[..n]) && Enabled(After(script, steps[..n]), steps[n]))
  }

  ghost function After(script: Script, steps: seq<Step>): State
    requires Runs(script, steps)
    decreases |steps|, 1
  {
    if steps == [] then Init()
    else
      var n := |steps| - 1;
      Apply(script, After(script, steps[..n]), steps[n])
  }

  // ------- The invariant -------

  function TimeoutResponse(): Script {
    [Header(UNAVAILABLE), Body(TIMEOUT_TEXT)]
  }

  /** How many calls of the script have had their effect. */
  function Effective(s: State): nat {
    if s.handler.Unlock? then s.position + 1 else s.position
  }

  /** The handler is inside WriteHeader or Write, past its lock. */
  predicate HandlerInside(s: State) {
    match s.handler
    case HeaderSet(_) | WriteCheck(_) | NestedLock(_) | WriteAppend(_) | Unlock => true
    case _ => false
  }

  predicate MutexOk(s: State) {
    && (s.ww.owner.HeldByHandler? <==> HandlerInside(s))
    && (s.ww.owner.HeldByMain? <==> s.main.AbortSet? || s.main.AbortUnlock?)
  }

  /** The call that the handler is making is the next one of the script. */
  predicate PositionOk(script: Script, s: State) {
    match s.handler
    case Between => s.position <= |script|
    case HeaderLock(status) => s.position < |script| && script[s.position] == Header(status)
    case HeaderSet(status) => s.position < |script| && script[s.position] == Header(status)
    case WriteLock(bytes) => s.position < |script| && script[s.position] == Body(bytes)
    case WriteCheck(bytes) => s.position < |script| && script[s.position] == Body(bytes)
    case NestedLock(bytes) => s.position < |script| && script[s.position] == Body(bytes)
    case WriteAppend(bytes) => s.position < |script| && script[s.position] == Body(bytes)
    case Unlock => s.position < |script|
    case Closed => s.position == |script|
  }

  /** While it is live, the wrapper holds what the effective calls amount to. */
  predicate BufferOk(script: Script, s: State)
    requires PositionOk(script, s)
  {
    var done := script[..Effective(s)];
    !s.ww.aborted ==>
      && StatusFirst(done) && s.ww.buffer == Concat(done)
      && (s.ww.wroteHeader <==> done != [])
      && (s.ww.wroteHeader ==> s.ww.status == FirstStatus(done))
      && (s.handler.NestedLock? ==> done == [])
      && (s.handler.WriteAppend? ==> done != [])
  }

  /** What the wrapped writer has been given, by where the selecting goroutine stands. */
  predicate OutOk(script: Script, s: State) {
    match s.main
    case Select | AbortLock | AbortSet => s.out == [] && !s.ww.aborted
    case AbortUnlock | ErrorStatus => s.out == [] && s.ww.aborted
    case ErrorBody => s.out == [Header(UNAVAILABLE)] && s.ww.aborted
    case FlushStatus => s.out == [] && !s.ww.aborted && s.handler.Closed?
    case FlushBody => s.out == [Header(FirstStatus(script))] && !s.ww.aborted && s.handler.Closed?
    case Done => if s.ww.aborted then s.out == TimeoutResponse() else s.out == Buffered(script) && s.handler.Closed?
  }

  predicate Inv(script: Script, s: State) {
    && MutexOk(s) && PositionOk(script, s) && BufferOk(script, s) && OutOk(script, s)
    && (s.main.AbortLock? || s.main.AbortSet? || s.ww.aborted ==> s.expired)
    && (s.handler.NestedLock? || s.handler.WriteAppend? ==> !s.ww.aborted)
  }

  lemma ConcatNext(script: Script, k: nat)
    requires k < |script|
    ensures Concat(script[..k + 1]) == Concat(script[..k]) + (if script[k].Body? then script[k].bytes else [])
    ensures FirstStatus(script[..k + 1]) == (if k > 0 then FirstStatus(script[..k]) else FirstStatus([script[0]]))
  {
    var p := script[..k + 1];
    assert p[..|p| - 1] == script[..k];
  }

  /** A call takes effect under the mutex, in one step. */
  lemma EffectKeepsInv(script: Script, s: State)
    requires Inv(script, s) && (s.handler.HeaderSet? || s.handler.WriteAppend?)
    ensures Inv(script, HandlerNext(script, s))
  {
    var k := s.position;
    ConcatNext(script, k);
    assert script[..k] == [] <==> k == 0;
    assert script[..k + 1][0] == script[0];
  }

  lemma QuietKeepsInv(script: Script, s: State)
    requires Inv(script, s) && HandlerEnabled(s) && !s.handler.HeaderSet? && !s.handler.WriteAppend?
    ensures Inv(script, HandlerNext(script, s))
  {
    var s' := HandlerNext(script, s);
    assert s'.handler.Unlock? ==> s.ww.aborted;
    assert !s'.ww.aborted ==> Effective(s') == Effective(s);
  }

  lemma HandlerKeepsInv(script: Script, s: State)
    requires Inv(script, s) && HandlerEnabled(s)
    ensures Inv(script, HandlerNext(script, s))
  {
    if s.handler.HeaderSet? || s.handler.WriteAppend? {
      EffectKeepsInv(script, s);
    } else {
      QuietKeepsInv(script, s);
    }
  }

  lemma MainKeepsInv(script: Script, s: State)
    requires Inv(script, s) && MainEnabled(s)
    ensures Inv(script, MainNext(s))
  {
    assert script[..|script|] == script;
  }

  lemma {:induction false} RunKeepsInv(script: Script, steps: seq<Step>)
    requires Runs(script, steps)
    ensures Inv(script, After(script, steps))
  {
    if steps != [] {
      var n := |steps| - 1;
      RunKeepsInv(script, steps[..n]);
      var s := After(script, steps[..n]);
      match steps[n]
      case HandlerStep => HandlerKeepsInv(script, s);
      case MainStep => MainKeepsInv(script, s);
      case _ =>
    }
  }

  // ------- All or nothing -------

  /** Whenever the selecting goroutine is done, in every interleaving with the handler and the timer,
      the wrapped writer has been given exactly one status and one body: the timeout response if the
      wrapper was aborted, and otherwise what all calls of the handler amount to. Before that it has
      been given a part of one of the two. */
  lemma AllOrNothing(script: Script, steps: seq<Step>)
    requires Runs(script, steps)
    ensures var s := After(script, steps);
            && (s.main.Done? ==>
                  s.out == if s.ww.aborted then [Header(503), Body(Ascii("Server timeout\n"))] else Buffered(script))
            && (s.out <= TimeoutResponse() || s.out <= Buffered(script))
            && (s.main.Done? && s.ww.aborted ==> s.expired)
            && (s.main.Done? && !s.ww.aborted ==> s.handler.Closed?)
  {
    RunKeepsInv(script, steps);
  }

  /** No step of the handler reaches the wrapped writer. */
  lemma HandlerSilent(script: Script, s: State)
    requires HandlerEnabled(s)
    ensures HandlerNext(script, s).out == s.out && HandlerNext(script, s).main == s.main
  {
  }

  /** What leaves the timeout middleware sets its status first, so the middleware around it neither
      gets stuck nor changes it, and the status it logs is 503 or the handler's own. */
  lemma ServerResponse(script: Script, steps: seq<Step>)
    requires Runs(script, steps) && After(script, steps).main.Done?
    ensures var out := After(script, steps).out;
            && StatusFirst(out) && Buffered(out) == out
            && (Received(out) == (503, Ascii("Server timeout\n")) || Received(out) == Received(script))
  {
    AllOrNothing(script, steps);
    BufferedTransparent(script);
    var timeout: Script := [Header(UNAVAILABLE), Body(TIMEOUT_TEXT)];
    BufferedTransparent(timeout);
    var h: Script := [Header(UNAVAILABLE)];
    assert timeout[..1] == h && h[..0] == [];
    assert Concat(h) == [];
    assert Concat(timeout) == [] + TIMEOUT_TEXT == TIMEOUT_TEXT;
  }

  // ------- Progress -------

  /** The handler waits for the mutex that it holds. */
  predicate SelfWait(s: State) {
    s.handler.NestedLock? && s.ww.owner.HeldByHandler?
  }

  /** Nothing can happen any more. */
  predicate Stuck(s: State) {
    forall step :: step in {HandlerStep, TimerFires, TakeTimeout, TakeDone, MainStep} ==> !Enabled(s, step)
  }

  function HandlerWork(script: Script, s: State): int {
    var left := 6 * (|script| - s.position);
    match s.handler
    case Between => left + 1
    case HeaderLock(_) | WriteLock(_) => left
    case HeaderSet(_) | WriteCheck(_) => left - 1
    case NestedLock(_) => left - 2
    case WriteAppend(_) => left - 3
    case Unlock => left - 4
    case Closed => 0
  }

  function MainWork(s: State): nat {
    match s.main
    case Select => 7
    case AbortLock => 6
    case AbortSet => 5
    case AbortUnlock => 4
    case ErrorStatus => 3
    case ErrorBody => 2
    case FlushStatus => 2
    case FlushBody => 1
    case Done => 0
  }

  /** The steps that are left, at most. */
  function Work(script: Script, s: State): int {
    HandlerWork(script, s) + MainWork(s) + (if s.expired then 0 else 1)
  }

  lemma HandlerWorks(script: Script, s: State)
    requires PositionOk(script, s) && HandlerEnabled(s)
    ensures HandlerWork(script, HandlerNext(script, s)) < HandlerWork(script, s)
  {
  }

  lemma MainWorks(s: State)
    requires MainEnabled(s)
    ensures MainWork(MainNext(s)) < MainWork(s) && MainNext(s).expired == s.expired
    ensures MainNext(s).handler == s.handler && MainNext(s).position == s.position
  {
  }

  lemma StepWorks(script: Script, s: State, step: Step)
    requires PositionOk(script, s) && Enabled(s, step)
    ensures Work(script, Apply(script, s, step)) < Work(script, s)
  {
    match step
    case HandlerStep => HandlerWorks(script, s);
    case MainStep => MainWorks(s);
    case _ =>
  }

  lemma WorkLeft(script: Script, s: State)
    requires PositionOk(script, s)
    ensures 0 <= Work(script, s)
  {
  }

  /** Every run is finite: no more than 6 steps for each call of the script, and 9 besides. */
  lemma {:induction false} RunsEnd(script: Script, steps: seq<Step>)
    requires Runs(script, steps)
    ensures |steps| + Work(script, After(script, steps)) <= 6 * |script| + 9
    ensures Work(script, After(script, steps)) >= 0
  {
    RunKeepsInv(script, steps);
    WorkLeft(script, After(script, steps));
    if steps != [] {
      var n := |steps| - 1;
      RunsEnd(script, steps[..n]);
      RunKeepsInv(script, steps[..n]);
      StepWorks(script, After(script, steps[..n]), steps[n]);
    }
  }

  /** With a status before the first write, no call waits for itself and nothing gets stuck before
      the response is out. */
  lemma ProgressWhenSafe(script: Script, s: State)
    requires StatusFirst(script) && Inv(script, s)
    ensures !SelfWait(s) && (Stuck(s) ==> s.main.Done?)
  {
    assert s.handler.NestedLock? ==> s.position == 0;
    if Stuck(s) {
      assert !Enabled(s, HandlerStep) && !Enabled(s, MainStep) && !Enabled(s, TakeDone) && !Enabled(s, TakeTimeout) && !Enabled(s, TimerFires);
    }
  }

  // ------- Who answers -------

  lemma Then(script: Script, steps: seq<Step>, step: Step) returns (more: seq<Step>)
    requires Runs(script, steps) && Enabled(After(script, steps), step)
    ensures more == steps + [step]
    ensures Runs(script, more) && After(script, more) == Apply(script, After(script, steps), step)
  {
    more := steps + [step];
    assert more[..|more| - 1] == steps;
  }

  /** Only the timer can still do anything. */
  predicate Idle(s: State) {
    forall step :: step in {HandlerStep, TakeTimeout, TakeDone, MainStep} ==> !Enabled(s, step)
  }

  lemma {:induction false} NoTimer(script: Script, steps: seq<Step>)
    requires Runs(script, steps) && TimerFires !in steps
    ensures !After(script, steps).expired
  {
    if steps != [] {
      var n := |steps| - 1;
      assert steps[n] in steps;
      assert forall x :: x in steps[..n] ==> x in steps;
      NoTimer(script, steps[..n]);
    }
  }

  lemma IdleIsDone(script: Script, s: State)
    requires StatusFirst(script) && Inv(script, s) && Idle(s)
    ensures s.main.Done?
  {
    assert s.handler.NestedLock? ==> s.position == 0;
    assert !Enabled(s, HandlerStep) && !Enabled(s, TakeTimeout) && !Enabled(s, TakeDone) && !Enabled(s, MainStep);
  }

  /** While the timer has not fired, a script that sets its status first is never cut short: once
      nothing but the timer is left to happen, the writer has been given the handler's response. */
  lemma HandlerAnswers(script: Script, steps: seq<Step>)
    requires StatusFirst(script) && Runs(script, steps) && TimerFires !in steps && Idle(After(script, steps))
    ensures var s := After(script, steps); s.main.Done? && !s.ww.aborted && s.out == Buffered(script)
  {
    RunKeepsInv(script, steps);
    NoTimer(script, steps);
    IdleIsDone(script, After(script, steps));
  }

  /** A run that something other than the timer can go on with has less left after that. */
  lemma GoOn(script: Script, steps: seq<Step>) returns (step: Step)
    requires Runs(script, steps) && !Idle(After(script, steps))
    ensures step != TimerFires && Runs(script, steps + [step])
    ensures 0 <= Work(script, After(script, steps + [step])) < Work(script, After(script, steps))
  {
    var s := After(script, steps);
    step :| step in {HandlerStep, TakeTimeout, TakeDone, MainStep} && Enabled(s, step);
    var next := Then(script, steps, step);
    RunKeepsInv(script, steps);
    RunKeepsInv(script, next);
    StepWorks(script, s, step);
    WorkLeft(script, After(script, next));
  }

  /** From wherever a run stands, it can go on without the timer until only that is left. */
  lemma {:induction false} CanFinish(script: Script, steps: seq<Step>) returns (more: seq<Step>)
    requires Runs(script, steps)
    ensures Runs(script, steps + more) && TimerFires !in more && Idle(After(script, steps + more))
    decreases Work(script, After(script, steps))
  {
    if Idle(After(script, steps)) {
      more := [];
      assert steps + more == steps;
    } else {
      var step := GoOn(script, steps);
      var rest := CanFinish(script, steps + [step]);
      more := [step] + rest;
      assert steps + more == (steps + [step]) + rest;
    }
  }

  /** The handler's response reaches the client: for every script there is a run without the timer,
      and it ends with that response. */
  lemma HandlerCanAnswer(script: Script) returns (steps: seq<Step>)
    requires StatusFirst(script)
    ensures Runs(script, steps) && TimerFires !in steps
    ensures After(script, steps).main.Done? && After(script, steps).out == Buffered(script)
  {
    var more := CanFinish(script, []);
    steps := more;
    assert [] + more == more;
    HandlerAnswers(script, steps);
  }

  /** The timeout has been chosen. */
  predicate TimedOut(s: State) {
    match s.main
    case AbortLock | AbortSet => true
    case AbortUnlock | ErrorStatus | ErrorBody | Done => s.ww.aborted
    case _ => false
  }

  lemma TimedOutStep(script: Script, s: State, step: Step)
    requires TimedOut(s) && Enabled(s, step)
    ensures TimedOut(Apply(script, s, step))
  {
  }

  lemma {:induction false} TimedOutStays(script: Script, steps: seq<Step>, more: seq<Step>)
    requires Runs(script, steps) && TimedOut(After(script, steps)) && Runs(script, steps + more)
    ensures TimedOut(After(script, steps + more))
  {
    if more == [] {
      assert steps + more == steps;
    } else {
      var n := |more| - 1;
      var all, before := steps + more, steps + more[..n];
      assert all[..|all| - 1] == before && all[|all| - 1] == more[n];
      TimedOutStays(script, steps, more[..n]);
      TimedOutStep(script, After(script, before), more[n]);
    }
  }

  lemma ChooseTimeout(script: Script, steps: seq<Step>) returns (more: seq<Step>)
    requires Runs(script, steps) && After(script, steps).main.Select?
    ensures Runs(script, steps + more) && After(script, steps + more).main.AbortLock?
  {
    if After(script, steps).expired {
      var chosen := Then(script, steps, TakeTimeout);
      more := [TakeTimeout];
    } else {
      var fired := Then(script, steps, TimerFires);
      var chosen := Then(script, fired, TakeTimeout);
      more := [TimerFires, TakeTimeout];
      assert steps + more == chosen;
    }
  }

  /** And so does the timeout. As long as the select has not chosen, and even when the handler has
      ended by then, it can still be the timeout that the client is told of. */
  lemma TimeoutCanAnswer(script: Script, steps: seq<Step>) returns (more: seq<Step>)
    requires StatusFirst(script) && Runs(script, steps) && After(script, steps).main.Select?
    ensures Runs(script, steps + more)
    ensures var s := After(script, steps + more); s.main.Done? && s.out == [Header(503), Body(Ascii("Server timeout\n"))]
  {
    var choice := ChooseTimeout(script, steps);
    var next := steps + choice;
    var rest := CanFinish(script, next);
    TimedOutStays(script, next, rest);
    RunKeepsInv(script, next + rest);
    IdleIsDone(script, After(script, next + rest));
    more := choice + rest;
    assert steps + more == next + rest;
  }

  // ------- The precondition is exact -------

  /** A script whose first call is Write can stop everything: Write waits for the mutex it holds, the
      timer fires, Abort waits for the same mutex, and the client is never answered. */
  lemma WriteFirstDeadlocks(script: Script) returns (steps: seq<Step>)
    requires script != [] && script[0].Body?
    ensures Runs(script, steps)
    ensures var s := After(script, steps); SelfWait(s) && Stuck(s) && s.main.AbortLock? && s.out == []
  {
    steps := Then(script, [], HandlerStep);
    steps := Then(script, steps, HandlerStep);
    steps := Then(script, steps, HandlerStep);
    assert After(script, steps).handler.NestedLock?;
    steps := Then(script, steps, TimerFires);
    steps := Then(script, steps, TakeTimeout);
  }

  /** Lock progress, exactly: no run gets stuck without having answered if, and only if, the script
      sets a status before its first write; and the same holds of a thread that waits for itself. */
  lemma LockProgress(script: Script)
    ensures StatusFirst(script) <==> forall steps :: Runs(script, steps) ==> (Stuck(After(script, steps)) ==> After(script, steps).main.Done?)
    ensures StatusFirst(script) <==> forall steps :: Runs(script, steps) ==> !SelfWait(After(script, steps))
  {
    if StatusFirst(script) {
      forall steps | Runs(script, steps)
        ensures !SelfWait(After(script, steps)) && (Stuck(After(script, steps)) ==> After(script, steps).main.Done?)
      {
        RunKeepsInv(script, steps);
        ProgressWhenSafe(script, After(script, steps));
      }
    } else {
      var steps := WriteFirstDeadlocks(script);
      assert Runs(script, steps);
    }
  }
}
