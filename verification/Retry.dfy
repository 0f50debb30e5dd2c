/** The bounded retry loop around every statement (withRetry), and the insert it guards. */
module Retry {
  import opened Primitives

  const MAX_ATTEMPTS: nat := 3
  const DELAY: Time := 100_000_000

  /** The SQLSTATE codes the program looks for, and all others. */
  datatype SqlState = SerializationFailure | DeadlockDetected | UniqueViolation | OtherState(number: nat)

  /** An error of the driver: one that the server names by a code, or anything else. */
  datatype DbError = Pg(code: SqlState) | Other

  /** isRetryableError. */
  predicate IsRetryable(e: DbError) {
    e.Pg? && (e.code == SerializationFailure || e.code == DeadlockDetected)
  }

  /** isNotUniqueError. */
  predicate IsNotUnique(e: DbError) {
    e.Pg? && e.code == UniqueViolation
  }

  /** A row, and which request wrote it. */
  datatype Row = Row(url: Str, writer: nat)

  datatype Statement = Insert(token: Str, row: Row) | Delete(token: Str)

  /** How the server serves one attempt: it carries the statement out; it rolls back with a code; or
      the connection is lost, with the statement carried out or not. */
  datatype Service = Healthy | RolledBack(code: SqlState) | ConnectionLost(carriedOut: bool)

  /** What surrounds one attempt: the context is cancelled before it, other requests change the
      table, the server serves it, and the context is cancelled so long into the sleep after it. */
  datatype Round = Round(cancelledBefore: bool, others: seq<Statement>, service: Service, cancelledAfter: Option<nat>)

  /** A statement on the table: the table after it, the error, and whether it changed the table. */
  function Carry(rows: map<Str, Row>, stmt: Statement): (map<Str, Row>, Option<DbError>, bool) {
    match stmt
    case Insert(token, row) =>
      if token in rows then (rows, Some(Pg(UniqueViolation)), false) else (rows[token := row], None, true)
    case Delete(token) => (rows - {token}, None, token in rows)
  }

  function Attempt(rows: map<Str, Row>, stmt: Statement, service: Service): (map<Str, Row>, Option<DbError>, bool) {
    match service
    case Healthy => Carry(rows, stmt)
    case RolledBack(code) => (rows, Some(Pg(code)), false)
    case ConnectionLost(carriedOut) =>
      if carriedOut then (Carry(rows, stmt).0, Some(Other), Carry(rows, stmt).2) else (rows, Some(Other), false)
  }

  function CarryAll(rows: map<Str, Row>, stmts: seq<Statement>): map<Str, Row>
    decreases stmts
  {
    if stmts == [] then rows else CarryAll(Carry(rows, stmts[0]).0, stmts[1..])
  }

  /** One round: the other requests, then the attempt. */
  function Serve(rows: map<Str, Row>, stmt: Statement, round: Round): (map<Str, Row>, Option<DbError>, bool) {
    Attempt(CarryAll(rows, round.others), stmt, round.service)
  }

  /** What withRetry is given to call: what one round of it does to the table. */
  type Operation = (map<Str, Row>, Round) -> (map<Str, Row>, Option<DbError>, bool)

  function Running(stmt: Statement): Operation {
    (rows, round) => Serve(rows, stmt, round)
  }

  datatype Result = Done | Failed(error: DbError) | Cancelled | Exhausted(last: DbError)

  /** How a retried statement went: the table it left, the result, what each attempt returned, how
      long it slept, and how often the statement changed the table. */
  datatype Report = Report(rows: map<Str, Row>, result: Result, outcomes: seq<Option<DbError>>, slept: Time, effects: nat)

  /** The whole of a run of which `rest` is the part still ahead. */
  function After(outcomes: seq<Option<DbError>>, slept: Time, effects: nat, rest: Report): Report {
    Report(rest.rows, rest.result, outcomes + rest.outcomes, slept + rest.slept, effects + rest.effects)
  }

  lemma AfterAfter(o1: seq<Option<DbError>>, s1: Time, e1: nat, o2: seq<Option<DbError>>, s2: Time, e2: nat, rest: Report)
    ensures After(o1, s1, e1, After(o2, s2, e2, rest)) == After(o1 + o2, s1 + s2, e1 + e2, rest)
  {
    assert o1 + (o2 + rest.outcomes) == (o1 + o2) + rest.outcomes;
  }

  /** The attempts from number `attempt` on, of which there are |rounds| in all. */
  function RetryFrom(fn: Operation, rows: map<Str, Row>, rounds: seq<Round>, attempt: nat, last: DbError): Report
    requires 1 <= attempt <= |rounds| + 1
    decreases |rounds| + 1 - attempt
  {
    if attempt > |rounds| then Report(rows, Exhausted(last), [], 0, 0)
    else if rounds[attempt - 1].cancelledBefore then Report(rows, Cancelled, [], 0, 0)
    else
      var round := rounds[attempt - 1];
      var (rows', err, changed) := fn(rows, round);
      var effect := if changed then 1 else 0;
      if err.None? then Report(rows', Done, [err], 0, effect)
      else if !IsRetryable(err.value) then Report(rows', Failed(err.value), [err], 0, effect)
      else if round.cancelledAfter.Some? && round.cancelledAfter.value < attempt * DELAY then
        Report(rows', Cancelled, [err], round.cancelledAfter.value, effect)
      else
        After([err], attempt * DELAY, effect, RetryFrom(fn, rows', rounds, attempt + 1, err.value))
  }

  // ------- The loop -------

  class Table {
    var rows: map<Str, Row>
    /** What the attempts of the statement being retried have returned so far. */
    var outcomes: seq<Option<DbError>>
    var slept: Time
    var effects: nat

    constructor (rows: map<Str, Row>)
      ensures this.rows == rows && outcomes == [] && slept == 0 && effects == 0
    {
      this.rows := rows;
      outcomes, slept, effects := [], 0, 0;
    }

    method Exec(fn: Operation, round: Round) returns (err: Option<DbError>)
      modifies this`rows, this`outcomes, this`effects
      ensures rows == fn(old(rows), round).0 && err == fn(old(rows), round).1
      ensures effects == old(effects) + (if fn(old(rows), round).2 then 1 else 0)
      ensures outcomes == old(outcomes) + [err]
    {
      var (rows', e, changed) := fn(rows, round);
      rows := rows';
      err := e;
      outcomes := outcomes + [err];
      if changed {
        effects := effects + 1;
      }
    }

    /** withRetry, around one operation. */
    method WithRetry(fn: Operation, rounds: seq<Round>) returns (result: Result)
      requires rounds != []
      modifies this
      ensures Report(rows, result, outcomes, slept, effects)
           == After(old(outcomes), old(slept), old(effects), RetryFrom(fn, old(rows), rounds, 1, Other))
    {
      ghost var whole := After(outcomes, slept, effects, RetryFrom(fn, rows, rounds, 1, Other));
      var lastErr := Other;
      var attempt := 1;
      while attempt <= |rounds|
        invariant 1 <= attempt <= |rounds| + 1
        invariant After(outcomes, slept, effects, RetryFrom(fn, rows, rounds, attempt, lastErr)) == whole
      {
        var round := rounds[attempt - 1];
        if round.cancelledBefore {
          return Cancelled;
        }
        ghost var before, done, ran := outcomes, slept, effects;
        var err := Exec(fn, round);
        if err.None? {
          return Done;
        }
        lastErr := err.value;
        if !IsRetryable(err.value) {
          return Failed(err.value);
        }
        var sleep := attempt * DELAY;
        if round.cancelledAfter.Some? && round.cancelledAfter.value < sleep {
          slept := slept + round.cancelledAfter.value;
          return Cancelled;
        }
        slept := slept + sleep;
        attempt := attempt + 1;
        AfterAfter(before, done, ran, [err], sleep, effects - ran, RetryFrom(fn, rows, rounds, attempt, lastErr));
      }
      return Exhausted(lastErr);
    }
  }

  // ------- What the loop guarantees -------

  /** k + (k + 1) + ... + n. */
  function Sum(k: nat, n: nat): nat
    decreases n - k
  {
    if k > n then 0 else k + Sum(k + 1, n)
  }

  lemma {:induction false} SumClosed(k: nat, n: nat)
    requires 1 <= k <= n + 1
    ensures 2 * Sum(k, n) == n * (n + 1) - k * (k - 1)
    decreases n - k
  {
    if k <= n {
      SumClosed(k + 1, n);
      assert (k + 1) * k == k * (k - 1) + 2 * k;
    }
  }

  /** The attempts from number `attempt` on sleep at most the sum of their delays. */
  lemma {:induction false} SleepFrom(fn: Operation, rows: map<Str, Row>, rounds: seq<Round>, attempt: nat, last: DbError)
    requires 1 <= attempt <= |rounds| + 1
    ensures 0 <= RetryFrom(fn, rows, rounds, attempt, last).slept <= DELAY * Sum(attempt, |rounds|)
    decreases |rounds| + 1 - attempt
  {
    if attempt <= |rounds| && !rounds[attempt - 1].cancelledBefore {
      var (rows', err, _) := fn(rows, rounds[attempt - 1]);
      if err.Some? {
        SleepFrom(fn, rows', rounds, attempt + 1, err.value);
      }
    }
  }

  /** At most N attempts, sleeping at most DELAY * N(N+1)/2 in all. */
  lemma RetryBounded(fn: Operation, rows: map<Str, Row>, rounds: seq<Round>)
    requires rounds != []
    ensures var r := RetryFrom(fn, rows, rounds, 1, Other);
            var n := |rounds|;
            |r.outcomes| <= n && 0 <= r.slept && 2 * r.slept <= DELAY * (n * (n + 1))
    ensures |rounds| == MAX_ATTEMPTS ==> |rounds| == 3 && RetryFrom(fn, rows, rounds, 1, Other).slept <= 600_000_000
  {
    SleepFrom(fn, rows, rounds, 1, Other);
    SumClosed(1, |rounds|);
    RetriesOnly(fn, rows, rounds, 1, Other);
  }

  /** Every attempt but the last failed with an error worth retrying. */
  predicate OnlyRetries(outcomes: seq<Option<DbError>>) {
    forall i :: 0 <= i < |outcomes| - 1 ==> outcomes[i].Some? && IsRetryable(outcomes[i].value)
  }

  /** A run of at most `limit` attempts went on exactly over retryable errors: it reports success if
      and only if its last attempt succeeded, an error of the server as it came if and only if that
      error ended it, and exhaustion only after the last of all attempts. */
  predicate Honest(r: Report, limit: nat) {
    var k := |r.outcomes|;
    && k <= limit
    && OnlyRetries(r.outcomes)
    && (r.result.Done? <==> k > 0 && r.outcomes[k - 1].None?)
    && (r.result.Failed? <==> k > 0 && r.outcomes[k - 1].Some? && !IsRetryable(r.outcomes[k - 1].value))
    && (r.result.Failed? ==> r.outcomes[k - 1] == Some(r.result.error))
    && (r.result.Exhausted? ==> k == limit)
  }

  lemma OneMoreRetry(err: DbError, slept: Time, effects: nat, rest: Report, limit: nat)
    requires Honest(rest, limit) && IsRetryable(err)
    ensures Honest(After([Some(err)], slept, effects, rest), limit + 1)
  {
    var k, all := |rest.outcomes|, [Some(err)] + rest.outcomes;
    assert |all| == k + 1 && all[0] == Some(err);
    assert forall i :: 1 <= i <= k ==> all[i] == rest.outcomes[i - 1];
  }

  /** Whatever the operation and its outcomes, the loop reports them honestly. */
  lemma {:induction false} RetriesOnly(fn: Operation, rows: map<Str, Row>, rounds: seq<Round>, attempt: nat, last: DbError)
    requires 1 <= attempt <= |rounds| + 1
    ensures Honest(RetryFrom(fn, rows, rounds, attempt, last), |rounds| + 1 - attempt)
    decreases |rounds| + 1 - attempt
  {
    var r := RetryFrom(fn, rows, rounds, attempt, last);
    if attempt <= |rounds| && !rounds[attempt - 1].cancelledBefore {
      var (rows', err, changed) := fn(rows, rounds[attempt - 1]);
      if err.Some? && IsRetryable(err.value) && |r.outcomes| > 1 {
        RetriesOnly(fn, rows', rounds, attempt + 1, err.value);
        var rest := RetryFrom(fn, rows', rounds, attempt + 1, err.value);
        OneMoreRetry(err.value, attempt * DELAY, if changed then 1 else 0, rest, |rounds| - attempt);
      } else {
        assert r.outcomes == [err];
      }
    } else {
      assert r.outcomes == [];
    }
  }

  // ------- Cancellation, and when it goes on -------

  /** The context is cancelled while the loop sleeps after attempt number i + 1. */
  predicate CancelledAsleep(rounds: seq<Round>, i: nat)
    requires i < |rounds|
  {
    rounds[i].cancelledAfter.Some? && rounds[i].cancelledAfter.value < (i + 1) * 100_000_000
  }

  predicate Uncancelled(rounds: seq<Round>) {
    forall i :: 0 <= i < |rounds| ==> !rounds[i].cancelledBefore && !CancelledAsleep(rounds, i)
  }

  /** How many attempts of the run failed with an error worth retrying. */
  function Retries(outcomes: seq<Option<DbError>>): nat {
    if outcomes == [] then 0
    else (if outcomes[0].Some? && IsRetryable(outcomes[0].value) then 1 else 0) + Retries(outcomes[1..])
  }

  /** Without cancellation the loop is never Cancelled, every error worth retrying before the last
      attempt is followed by another attempt, and it sleeps its whole delay after each such error. */
  lemma {:induction false} GoesOn(fn: Operation, rows: map<Str, Row>, rounds: seq<Round>, attempt: nat, last: DbError)
    requires 1 <= attempt <= |rounds| + 1 && Uncancelled(rounds)
    ensures var r := RetryFrom(fn, rows, rounds, attempt, last);
            var k := |r.outcomes|;
            && !r.result.Cancelled?
            && (k < |rounds| + 1 - attempt ==> r.result.Done? || r.result.Failed?)
            && r.slept == 100_000_000 * Sum(attempt, attempt + Retries(r.outcomes) - 1)
    decreases |rounds| + 1 - attempt
  {
    if attempt <= |rounds| {
      assert !CancelledAsleep(rounds, attempt - 1);
      var (rows', err, _) := fn(rows, rounds[attempt - 1]);
      if err.Some? && IsRetryable(err.value) {
        GoesOn(fn, rows', rounds, attempt + 1, err.value);
        var rest := RetryFrom(fn, rows', rounds, attempt + 1, err.value).outcomes;
        assert ([err] + rest)[1..] == rest;
      } else {
        assert [err][1..] == [];
      }
    }
  }

  /** A cancelled context stops the loop: no attempt is made in the round it is cancelled before, nor
      in the one after a sleep that it cuts short. And nothing else does: the loop reports
      cancellation only if the context was cancelled. */
  lemma {:induction false} StopsWhenCancelled(fn: Operation, rows: map<Str, Row>, rounds: seq<Round>, attempt: nat, last: DbError)
    requires 1 <= attempt <= |rounds| + 1
    ensures var r := RetryFrom(fn, rows, rounds, attempt, last);
            var made := attempt - 1 + |r.outcomes|;
            && (forall i :: attempt - 1 <= i < |rounds| && rounds[i].cancelledBefore ==> made <= i)
            && (forall i :: attempt - 1 <= i < |rounds| && CancelledAsleep(rounds, i) ==> made <= i + 1)
            && (r.result.Cancelled? ==> !Uncancelled(rounds))
    decreases |rounds| + 1 - attempt
  {
    if attempt <= |rounds| && !rounds[attempt - 1].cancelledBefore {
      var (rows', err, _) := fn(rows, rounds[attempt - 1]);
      assert CancelledAsleep(rounds, attempt - 1) ==> !Uncancelled(rounds);
      if err.Some? && IsRetryable(err.value) && !CancelledAsleep(rounds, attempt - 1) {
        StopsWhenCancelled(fn, rows', rounds, attempt + 1, err.value);
      }
    }
  }

  // ------- Which errors pass -------

  /** The server rolls back the round for one of the two reasons that pass by themselves. */
  predicate Transient(round: Round) {
    && round.others == []
    && (round.service == RolledBack(SerializationFailure) || round.service == RolledBack(DeadlockDetected))
  }

  /** After any number of serialization failures and deadlocks short of the last attempt, a statement
      that is then served takes its effect and succeeds. */
  lemma {:induction false} TransientPasses(stmt: Statement, rows: map<Str, Row>, rounds: seq<Round>, attempt: nat, last: DbError, good: nat)
    requires Uncancelled(rounds) && 1 <= attempt <= good + 1 <= |rounds|
    requires forall i :: attempt - 1 <= i < good ==> Transient(rounds[i])
    requires rounds[good].others == [] && rounds[good].service.Healthy? && Carry(rows, stmt).1.None?
    ensures var r := RetryFrom(Running(stmt), rows, rounds, attempt, last);
            && r.result == Done && r.rows == Carry(rows, stmt).0
            && r.slept == 100_000_000 * Sum(attempt, good) && |r.outcomes| == good + 2 - attempt
    decreases good + 1 - attempt
  {
    if attempt <= good {
      assert Transient(rounds[attempt - 1]) && !CancelledAsleep(rounds, attempt - 1);
      var (rows', err, _) := Serve(rows, stmt, rounds[attempt - 1]);
      TransientPasses(stmt, rows', rounds, attempt + 1, err.value, good);
    }
  }

  /** Any other error ends the loop at once, and as it came. */
  lemma OthersFail(fn: Operation, rows: map<Str, Row>, rounds: seq<Round>, error: DbError)
    requires rounds != [] && !rounds[0].cancelledBefore && fn(rows, rounds[0]).1 == Some(error)
    requires error != Pg(SerializationFailure) && error != Pg(DeadlockDetected)
    ensures var r := RetryFrom(fn, rows, rounds, 1, Other);
            r.result == Failed(error) && r.outcomes == [Some(error)] && r.slept == 0 && r.rows == fn(rows, rounds[0]).0
  {
  }

  /** What one statement does to the table: an insert needs a free token, a delete frees it, and
      neither touches another token. */
  lemma StatementEffect(rows: map<Str, Row>, stmt: Statement)
    ensures var (rows', err, changed) := Carry(rows, stmt);
            && rows' - {stmt.token} == rows - {stmt.token}
            && (stmt.Insert? ==> stmt.token in rows' && (err.None? <==> stmt.token !in rows) && (err.None? <==> changed)
                                 && (changed ==> rows'[stmt.token] == stmt.row) && (!changed ==> rows' == rows)
                                 && (err.Some? ==> err.value == Pg(UniqueViolation)))
            && (stmt.Delete? ==> stmt.token !in rows' && err.None? && (changed <==> stmt.token in rows))
  {
  }

  // ------- The guarded insert -------

  /** No row of `rows` was written by `writer`. */
  predicate Foreign(rows: map<Str, Row>, writer: nat) {
    forall t :: t in rows ==> rows[t].writer != writer
  }

  /** The other requests do not write under our name. */
  predicate OthersForeign(stmts: seq<Statement>, writer: nat) {
    forall i :: 0 <= i < |stmts| && stmts[i].Insert? ==> stmts[i].row.writer != writer
  }

  lemma {:induction false} ForeignKept(rows: map<Str, Row>, stmts: seq<Statement>, writer: nat)
    requires Foreign(rows, writer) && OthersForeign(stmts, writer)
    ensures Foreign(CarryAll(rows, stmts), writer)
    decreases stmts
  {
    if stmts != [] {
      ForeignKept(Carry(rows, stmts[0]).0, stmts[1..], writer);
    }
  }

  /** The rounds an insert by `writer` meets: a rolled-back attempt carries a code that the server
      gives when it has undone the attempt, so never a unique violation. */
  predicate FairRounds(rounds: seq<Round>, writer: nat) {
    forall i :: 0 <= i < |rounds| ==>
      OthersForeign(rounds[i].others, writer) && rounds[i].service != RolledBack(UniqueViolation)
  }

  /** One round of the insert, its own row not being there yet. */
  lemma InsertRound(rows: map<Str, Row>, token: Str, row: Row, round: Round)
    requires Foreign(rows, row.writer) && OthersForeign(round.others, row.writer)
    requires round.service != RolledBack(UniqueViolation)
    ensures var (rows', err, changed) := Serve(rows, Insert(token, row), round);
            && (changed ==> token in rows' && rows'[token] == row && (err.None? || err == Some(Other)))
            && (!changed ==> Foreign(rows', row.writer) && err.Some?)
            && (err == Some(Pg(UniqueViolation)) ==> token in rows')
  {
    ForeignKept(rows, round.others, row.writer);
  }

  /** A retried insert takes effect at most once. It took effect exactly when the table holds its
      row as a result; success means that it did, and a unique violation that it never did: the row
      in the way is somebody else's, never the insert's own earlier attempt. */
  lemma {:induction false} InsertAtMostOnce(rows: map<Str, Row>, token: Str, row: Row, rounds: seq<Round>, attempt: nat, last: DbError)
    requires 1 <= attempt <= |rounds| + 1
    requires Foreign(rows, row.writer) && FairRounds(rounds, row.writer)
    ensures var r := RetryFrom(Running(Insert(token, row)), rows, rounds, attempt, last);
            && r.effects <= 1
            && (r.effects == 1 <==> token in r.rows && r.rows[token] == row)
            && (r.effects == 0 ==> Foreign(r.rows, row.writer))
            && (r.result.Done? ==> r.effects == 1)
            && (r.result.Failed? && IsNotUnique(r.result.error) ==>
                r.effects == 0 && token in r.rows && r.rows[token].writer != row.writer)
            && (r.effects == 1 && !r.result.Done? ==> r.result == Failed(Other))
    decreases |rounds| + 1 - attempt
  {
    if attempt <= |rounds| && !rounds[attempt - 1].cancelledBefore {
      var round := rounds[attempt - 1];
      InsertRound(rows, token, row, round);
      var (rows', err, changed) := Serve(rows, Insert(token, row), round);
      if err.Some? && IsRetryable(err.value) {
        assert !changed;
        InsertAtMostOnce(rows', token, row, rounds, attempt + 1, err.value);
      }
    }
  }

  /** An insert that fails transiently and is overtaken before its next attempt reports that the token
      is taken, and leaves the other request's row alone. */
  lemma Overtaken(rows: map<Str, Row>, token: Str, row: Row, other: Row, rounds: seq<Round>)
    requires Uncancelled(rounds) && |rounds| >= 2 && token !in rows
    requires Transient(rounds[0]) && rounds[1].others == [Insert(token, other)] && rounds[1].service.Healthy?
    ensures var r := RetryFrom(Running(Insert(token, row)), rows, rounds, 1, Other);
            r.result == Failed(Pg(UniqueViolation)) && r.rows == rows[token := other] && r.effects == 0
  {
    var stmt, after := Insert(token, row), Carry(rows, Insert(token, other)).0;
    assert !CancelledAsleep(rounds, 0);
    assert Serve(rows, stmt, rounds[0]).0 == rows;
    assert rounds[1].others[1..] == [];
    assert CarryAll(rows, rounds[1].others) == CarryAll(after, []) == after;
    var last := Serve(rows, stmt, rounds[0]).1.value;
    assert RetryFrom(Running(stmt), rows, rounds, 2, last).result == Failed(Pg(UniqueViolation));
  }
}
