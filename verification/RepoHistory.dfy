/**
 The history of the repository: what the log of effective inserts and deletes says about the rows,
 whatever the calls that caused them did with the cache.
 */
module RepoHistory {
  import opened Primitives
  import opened Store
  import opened CacheAside

  /** The rows after the event `e`, the n-th of the log. */
  function Replay(rows: map<Str, Version>, n: nat, e: Event): map<Str, Version> {
    if e.Inserted? then rows[e.token := Version(e.row, n)] else rows - {e.token}
  }

  /** The rows that the log leaves behind. */
  function Table(log: seq<Event>): map<Str, Version> {
    if log == [] then map[] else Replay(Table(log[..|log| - 1]), |log| - 1, log[|log| - 1])
  }

  /** `v` is the version that event `v.gen` inserted for `token`. */
  predicate Born(log: seq<Event>, token: Str, v: Version) {
    v.gen < |log| && log[v.gen].Inserted? && log[v.gen].token == token && log[v.gen].row == v.row
  }

  /** `v` was the row of `token` when the log was `n` events long. */
  predicate Stood(log: seq<Event>, token: Str, v: Version, n: nat) {
    n <= |log| && token in Table(log[..n]) && Table(log[..n])[token] == v
  }

  /** What an event must find in the log it is appended to: an insert a free token and a URL that is
      the normal form of what its creator asked for; a delete a row, and a requester that owned the
      row it saw when it looked. */
  ghost predicate Lawful(c: Config, log: seq<Event>, e: Event) {
    match e
    case Inserted(token, row, _, _, raw) =>
      token !in Table(log) && c.normalize(raw) == Some(row.url)
    case Deleted(token, gen, _, requester, seen, readAt) =>
      && token in Table(log) && Table(log)[token].gen == gen
      && Stood(log, token, seen, readAt) && seen.row.owner == requester
  }

  ghost predicate LawfulLog(c: Config, log: seq<Event>) {
    forall n {:trigger Lawful(c, log[..n], log[n])} :: 0 <= n < |log| ==> Lawful(c, log[..n], log[n])
  }

  lemma LawfulAppend(c: Config, log: seq<Event>, e: Event)
    requires LawfulLog(c, log) && Lawful(c, log, e)
    ensures LawfulLog(c, log + [e])
    ensures Table(log + [e]) == Replay(Table(log), |log|, e)
  {
    var l := log + [e];
    assert l[..|log|] == log;
    forall n | 0 <= n < |l| ensures Lawful(c, l[..n], l[n]) {
      assert n < |log| ==> l[..n] == log[..n];
    }
  }

  lemma LawfulPrefix(c: Config, log: seq<Event>, n: nat)
    requires LawfulLog(c, log) && n <= |log|
    ensures LawfulLog(c, log[..n])
  {
    forall k | 0 <= k < n ensures Lawful(c, log[..n][..k], log[..n][k]) {
      assert log[..n][..k] == log[..k];
    }
  }

  /** Every row stands as its insert made it. */
  lemma {:induction false} TableBorn(c: Config, log: seq<Event>, token: Str)
    requires LawfulLog(c, log) && token in Table(log)
    ensures Born(log, token, Table(log)[token])
  {
    var n := |log| - 1;
    LawfulPrefix(c, log, n);
    if log[n].token != token {
      TableBorn(c, log[..n], token);
    }
  }

  /** No delete names a row that still stands. */
  lemma {:induction false} StandingUndeleted(c: Config, log: seq<Event>, token: Str, i: nat)
    requires LawfulLog(c, log) && token in Table(log)
    requires i < |log| && log[i].Deleted?
    ensures log[i].gen != Table(log)[token].gen
  {
    var n := |log| - 1;
    var past := log[..n];
    LawfulPrefix(c, log, n);
    if log[n].token == token {
      DeleteIsPast(c, log, i);
    } else if i < n {
      StandingUndeleted(c, past, token, i);
    } else {
      DeletedStood(c, log, i);
      TableBorn(c, past, token);
      TableBorn(c, past, log[i].token);
    }
  }

  lemma DeletedStood(c: Config, log: seq<Event>, i: nat)
    requires LawfulLog(c, log) && i < |log| && log[i].Deleted?
    ensures log[i].token in Table(log[..i]) && Table(log[..i])[log[i].token].gen == log[i].gen
  {
    assert Lawful(c, log[..i], log[i]);
  }

  /** A delete names an insert that precedes it. */
  lemma DeleteIsPast(c: Config, log: seq<Event>, i: nat)
    requires LawfulLog(c, log) && i < |log| && log[i].Deleted?
    ensures log[i].gen < i
  {
    DeletedStood(c, log, i);
    LawfulPrefix(c, log, i);
    TableBorn(c, log[..i], log[i].token);
  }

  // ------- Conservation and the unique winner -------

  function Inserts(log: seq<Event>, token: Str): nat {
    if log == [] then 0
    else Inserts(log[..|log| - 1], token) + (if log[|log| - 1].Inserted? && log[|log| - 1].token == token then 1 else 0)
  }

  function Deletes(log: seq<Event>, token: Str): nat {
    if log == [] then 0
    else Deletes(log[..|log| - 1], token) + (if log[|log| - 1].Deleted? && log[|log| - 1].token == token then 1 else 0)
  }

  /** Per token, inserts exceed deletes by one while a row exists and by none otherwise. */
  lemma {:induction false} Conservation(c: Config, log: seq<Event>, token: Str)
    requires LawfulLog(c, log)
    ensures Inserts(log, token) - Deletes(log, token) == if token in Table(log) then 1 else 0
  {
    if log != [] {
      var n := |log| - 1;
      LawfulPrefix(c, log, n);
      Conservation(c, log[..n], token);
      assert Lawful(c, log[..n], log[n]);
    }
  }

  /** A row stays, with its URL, expiry and owner, until a delete of its token. */
  lemma {:induction false} RowFrozen(c: Config, log: seq<Event>, i: nat, token: Str)
    requires LawfulLog(c, log) && i <= |log| && token in Table(log[..i])
    requires forall k :: i <= k < |log| && log[k].Deleted? ==> log[k].token != token
    ensures token in Table(log) && Table(log)[token] == Table(log[..i])[token]
    decreases |log|
  {
    var n := |log| - 1;
    if i == |log| {
      assert log[..i] == log;
    } else {
      var past := log[..n];
      LawfulPrefix(c, log, n);
      assert past[..i] == log[..i];
      RowFrozen(c, past, i, token);
      assert Lawful(c, past, log[n]);
      assert log[n].token != token;
    }
  }

  /** Between two inserts of one token there is a delete of it. */
  lemma DeleteBetweenInserts(c: Config, log: seq<Event>, i: nat, j: nat)
    requires LawfulLog(c, log) && i < j < |log|
    requires log[i].Inserted? && log[j].Inserted? && log[i].token == log[j].token
    ensures exists k :: i < k < j && log[k].Deleted? && log[k].token == log[i].token
  {
    var token := log[i].token;
    assert Lawful(c, log[..j], log[j]);
    if forall k :: i < k < j && log[k].Deleted? ==> log[k].token != token {
      LawfulPrefix(c, log, j);
      LawfulPrefix(c, log, i + 1);
      assert log[..j][..i + 1] == log[..i + 1];
      assert log[..i + 1][..i] == log[..i];
      RowFrozen(c, log[..j], i + 1, token);
    }
  }

  // ------- Which row a delete takes -------

  lemma StoodBorn(c: Config, log: seq<Event>, token: Str, v: Version, n: nat)
    requires LawfulLog(c, log) && Stood(log, token, v, n)
    ensures v.gen < n && Born(log, token, v)
  {
    LawfulPrefix(c, log, n);
    TableBorn(c, log[..n], token);
    assert log[..n][v.gen] == log[v.gen];
  }

  /** A row that stands is younger than every delete of its token. */
  lemma {:induction false} StandingIsYounger(log: seq<Event>, token: Str, j: nat)
    requires token in Table(log) && j < |log| && log[j].Deleted? && log[j].token == token
    ensures Table(log)[token].gen > j
  {
    var n := |log| - 1;
    if log[n].token != token {
      assert log[..n][j] == log[j];
      StandingIsYounger(log[..n], token, j);
    }
  }

  /** No other delete of the token took effect between the look of delete `k` and its own effect. */
  ghost predicate Undisturbed(log: seq<Event>, k: nat)
    requires k < |log| && log[k].Deleted?
  {
    forall j :: log[k].readAt <= j < k && log[j].Deleted? ==> log[j].token != log[k].token
  }

  /** A delete takes the row it looked at if, and only if, no other delete of the token came between;
      otherwise it takes a row that was not there yet when it looked. */
  lemma DeleteExact(c: Config, log: seq<Event>, k: nat)
    requires LawfulLog(c, log) && k < |log| && log[k].Deleted?
    ensures log[k].gen == log[k].seen.gen <==> Undisturbed(log, k)
    ensures log[k].gen == log[k].seen.gen <==> log[k].gen < log[k].readAt
    ensures Undisturbed(log, k) ==> Stood(log, log[k].token, log[k].seen, k)
  {
    var e, before := log[k], log[..k];
    assert Lawful(c, before, e);
    LawfulPrefix(c, log, k);
    assert before[..e.readAt] == log[..e.readAt];
    StoodBorn(c, before, e.token, e.seen, e.readAt);
    if Undisturbed(log, k) {
      RowFrozen(c, before, e.readAt, e.token);
    } else {
      var j :| e.readAt <= j < k && log[j].Deleted? && log[j].token == e.token;
      StandingIsYounger(before, e.token, j);
    }
  }
}
