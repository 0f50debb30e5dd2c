/**
 The shortener when its calls run one after another: the cached store, command by command, next to
 a store that has no cache at all.
 */
module SerialStore {
  import opened Primitives
  import opened Store

  datatype Entry = Entry(url: Str, expiry: Expiry)

  datatype Cached = Cached(rows: map<Str, Row>, cache: map<Str, Entry>)

  datatype Answer =
    | Found(url: Str)
    | Expired
    | NotExist
    | RepoFailure
    | Created(token: Str, row: Row)
    | Refused(error: CreateError)
    | NotUnique
    | NotOwner
    | CacheFailure
    | Gone

  /** One call, the instant it runs at, and how each of its accesses goes. */
  datatype Command =
    | CreateToken(input: CreateInput, random: Option<Str>, now: Time, insert: Fault, save: Fault)
    | ResolveToken(token: Str, now: Time, get: Fault, select: Fault, save: Fault)
    | DeleteToken(token: Str, requester: Str, now: Time, select: Fault, clear: Fault, delete: Fault)
    | Evict(token: Str)

  // ------- The cached store -------

  function WriteEntry(c: Config, cache: map<Str, Entry>, token: Str, row: Row, now: Time, fault: Fault): map<Str, Entry> {
    if !TakesEffect(fault) then cache
    else
      match StoredExpiry(c, now, Min(c.maxCacheTTL, row.expiresAt - now))
      case None => cache - {token}
      case Some(expiry) => cache[token := Entry(row.url, expiry)]
  }

  /** What a call does to the cached store, and what it answers. */
  function Exec(c: Config, s: Cached, cmd: Command): (Cached, Answer) {
    match cmd
    case CreateToken(input, random, now, insert, save) =>
      (match Prepare(c, input, random, now)
       case Rejected(e) => (s, Refused(e))
       case Ready(token, row) =>
         if insert.LostBefore? then (s, RepoFailure)
         else if token in s.rows then (s, if insert.Fine? then NotUnique else RepoFailure)
         else if insert.LostAfter? then (s.(rows := s.rows[token := row]), RepoFailure)
         else (Cached(s.rows[token := row], WriteEntry(c, s.cache, token, row, now, save)), Created(token, row)))
    case ResolveToken(token, now, get, select, save) =>
      if get.Fine? && token in s.cache && Live(s.cache[token].expiry, now) then (s, Found(s.cache[token].url))
      else if !select.Fine? then (s, RepoFailure)
      else if token !in s.rows then (s, NotExist)
      else if s.rows[token].expiresAt < now then (s, Expired)
      else (s.(cache := WriteEntry(c, s.cache, token, s.rows[token], now, save)), Found(s.rows[token].url))
    case DeleteToken(token, requester, now, select, clear, delete) =>
      if !select.Fine? then (s, RepoFailure)
      else if token !in s.rows then (s, Gone)
      else if s.rows[token].owner != requester then (s, NotOwner)
      else
        var cleared := if TakesEffect(clear) then s.cache - {token} else s.cache;
        if !clear.Fine? then (s.(cache := cleared), CacheFailure)
        else (Cached(if TakesEffect(delete) then s.rows - {token} else s.rows, cleared),
              if delete.Fine? then Gone else RepoFailure)
    case Evict(token) => (s.(cache := s.cache - {token}), Gone)
  }

  // ------- The store without a cache -------

  function Lookup(rows: map<Str, Row>, token: Str, now: Time): Answer {
    if token !in rows then NotExist
    else if rows[token].expiresAt < now then Expired
    else Found(rows[token].url)
  }

  /** The same call on rows alone. A failure of the cache only shows where the caller sees it: as a
      delete that is called off. */
  function RepoOnly(c: Config, rows: map<Str, Row>, cmd: Command): (map<Str, Row>, Answer) {
    match cmd
    case CreateToken(input, random, now, insert, _) =>
      (match Prepare(c, input, random, now)
       case Rejected(e) => (rows, Refused(e))
       case Ready(token, row) =>
         if insert.LostBefore? then (rows, RepoFailure)
         else if token in rows then (rows, if insert.Fine? then NotUnique else RepoFailure)
         else (rows[token := row], if insert.Fine? then Created(token, row) else RepoFailure))
    case ResolveToken(token, now, _, select, _) =>
      (rows, if select.Fine? then Lookup(rows, token, now) else RepoFailure)
    case DeleteToken(token, requester, now, select, clear, delete) =>
      if !select.Fine? then (rows, RepoFailure)
      else if token !in rows then (rows, Gone)
      else if rows[token].owner != requester then (rows, NotOwner)
      else if !clear.Fine? then (rows, CacheFailure)
      else (if TakesEffect(delete) then rows - {token} else rows, if delete.Fine? then Gone else RepoFailure)
    case Evict(_) => (rows, Gone)
  }

  // ------- Refinement -------

  /** Every cache entry repeats a row that is there and does not outlive it. */
  ghost predicate Coherent(s: Cached) {
    forall token :: token in s.cache ==>
      && token in s.rows
      && s.cache[token].url == s.rows[token].url
      && s.cache[token].expiry.Until? && s.cache[token].expiry.at <= s.rows[token].expiresAt
  }

  /** Only a resolve may answer better than the rows alone could: from the cache, while the
      repository is failing, and then with what the rows hold. */
  predicate Agrees(rows: map<Str, Row>, cmd: Command, answer: Answer, repoOnly: Answer) {
    answer == repoOnly || (cmd.ResolveToken? && !cmd.select.Fine? && answer == Lookup(rows, cmd.token, cmd.now))
  }

  /** The call reaches its write to the cache, and the time to live is not positive there: the row
      expires at this very instant, or the configured maximum is not positive. */
  predicate WritesOver(c: Config, s: Cached, cmd: Command) {
    match cmd
    case CreateToken(input, random, now, insert, save) =>
      var p := Prepare(c, input, random, now);
      && p.Ready? && insert.Fine? && p.token !in s.rows && TakesEffect(save)
      && Min(c.maxCacheTTL, p.row.expiresAt - now) <= 0
    case ResolveToken(token, now, get, select, save) =>
      && !(get.Fine? && token in s.cache && Live(s.cache[token].expiry, now))
      && select.Fine? && token in s.rows && now <= s.rows[token].expiresAt && TakesEffect(save)
      && Min(c.maxCacheTTL, s.rows[token].expiresAt - now) <= 0
    case _ => false
  }

  lemma ResolveRefines(c: Config, s: Cached, cmd: Command)
    requires Coherent(s) && cmd.ResolveToken?
    ensures Exec(c, s, cmd).0.rows == s.rows
    ensures Agrees(s.rows, cmd, Exec(c, s, cmd).1, RepoOnly(c, s.rows, cmd).1)
  {
    if cmd.token in s.cache && Live(s.cache[cmd.token].expiry, cmd.now) {
      assert Lookup(s.rows, cmd.token, cmd.now) == Found(s.cache[cmd.token].url);
    }
  }

  /** Writing the entry of a row that is there keeps a store coherent, unless the entry is already
      over and kept for ever. */
  lemma WriteCoherent(c: Config, s: Cached, token: Str, now: Time, fault: Fault)
    requires Coherent(s) && token in s.rows
    ensures var row := s.rows[token];
            Coherent(s.(cache := WriteEntry(c, s.cache, token, row, now, fault))) <==>
            !(c.nonPositive.KeepsForever? && TakesEffect(fault) && Min(c.maxCacheTTL, row.expiresAt - now) <= 0)
  {
    var row := s.rows[token];
    var cache := WriteEntry(c, s.cache, token, row, now, fault);
    if c.nonPositive.KeepsForever? && TakesEffect(fault) && Min(c.maxCacheTTL, row.expiresAt - now) <= 0 {
      assert cache[token].expiry.Never?;
    }
  }

  lemma CreateCoherent(c: Config, s: Cached, cmd: Command)
    requires Coherent(s) && cmd.CreateToken?
    ensures Coherent(Exec(c, s, cmd).0) <==> c.nonPositive.DropsEntry? || !WritesOver(c, s, cmd)
  {
    var p := Prepare(c, cmd.input, cmd.random, cmd.now);
    if p.Ready? && !cmd.insert.LostBefore? && p.token !in s.rows {
      var inserted := s.(rows := s.rows[p.token := p.row]);
      assert Coherent(inserted);
      WriteCoherent(c, inserted, p.token, cmd.now, cmd.save);
    }
  }

  lemma ResolveCoherent(c: Config, s: Cached, cmd: Command)
    requires Coherent(s) && cmd.ResolveToken?
    ensures Coherent(Exec(c, s, cmd).0) <==> c.nonPositive.DropsEntry? || !WritesOver(c, s, cmd)
  {
    if cmd.token in s.rows {
      WriteCoherent(c, s, cmd.token, cmd.now, cmd.save);
    }
  }

  lemma OthersCoherent(c: Config, s: Cached, cmd: Command)
    requires Coherent(s) && (cmd.DeleteToken? || cmd.Evict?)
    ensures Coherent(Exec(c, s, cmd).0)
  {
  }

  /** One call on a coherent store refines the same call on the rows alone. The store stays coherent
      unless, and only unless, the call writes an entry that is already over and the cache keeps
      such entries. */
  lemma ExecRefines(c: Config, s: Cached, cmd: Command)
    requires Coherent(s)
    ensures var (s', answer) := Exec(c, s, cmd);
            var (rows', repoOnly) := RepoOnly(c, s.rows, cmd);
            s'.rows == rows' && Agrees(s.rows, cmd, answer, repoOnly)
    ensures Coherent(Exec(c, s, cmd).0) <==> c.nonPositive.DropsEntry? || !WritesOver(c, s, cmd)
  {
    match cmd
    case CreateToken(_, _, _, _, _) => CreateCoherent(c, s, cmd);
    case ResolveToken(_, _, _, _, _) =>
      ResolveRefines(c, s, cmd);
      ResolveCoherent(c, s, cmd);
    case _ => OthersCoherent(c, s, cmd);
  }

  /** The cached store and its answers after a sequence of calls. */
  function ExecAll(c: Config, s: Cached, cmds: seq<Command>): (Cached, seq<Answer>)
    decreases cmds
  {
    if cmds == [] then (s, [])
    else
      var (s1, a) := Exec(c, s, cmds[0]);
      var (s2, answers) := ExecAll(c, s1, cmds[1..]);
      (s2, [a] + answers)
  }

  /** The answers of `ExecAll` agree, one by one, with those of the rows alone. */
  ghost predicate AllAgree(c: Config, rows: map<Str, Row>, cmds: seq<Command>, answers: seq<Answer>)
    requires |answers| == |cmds|
    decreases cmds
  {
    cmds == [] ||
    (var (rows', repoOnly) := RepoOnly(c, rows, cmds[0]);
     Agrees(rows, cmds[0], answers[0], repoOnly) && AllAgree(c, rows', cmds[1..], answers[1..]))
  }

  function RepoOnlyAll(c: Config, rows: map<Str, Row>, cmds: seq<Command>): map<Str, Row>
    decreases cmds
  {
    if cmds == [] then rows else RepoOnlyAll(c, RepoOnly(c, rows, cmds[0]).0, cmds[1..])
  }

  /** The cache drops entries that are already over, or no call of the sequence writes one. */
  ghost predicate TtlSafe(c: Config, s: Cached, cmds: seq<Command>)
    decreases cmds
  {
    c.nonPositive.DropsEntry? || cmds == [] ||
    (!WritesOver(c, s, cmds[0]) && TtlSafe(c, Exec(c, s, cmds[0]).0, cmds[1..]))
  }

  /** For every sequence of calls, evictions and failures: the cached store has the rows that the
      store without a cache has, its entries repeat them, and its answers agree. */
  lemma {:induction false} RunRefines(c: Config, s: Cached, cmds: seq<Command>)
    requires Coherent(s) && TtlSafe(c, s, cmds)
    ensures var (s', answers) := ExecAll(c, s, cmds);
            && |answers| == |cmds|
            && Coherent(s')
            && s'.rows == RepoOnlyAll(c, s.rows, cmds)
            && AllAgree(c, s.rows, cmds, answers)
    decreases cmds
  {
    if cmds != [] {
      ExecRefines(c, s, cmds[0]);
      var (s1, a) := Exec(c, s, cmds[0]);
      RunRefines(c, s1, cmds[1..]);
      assert ([a] + ExecAll(c, s1, cmds[1..]).1)[1..] == ExecAll(c, s1, cmds[1..]).1;
    }
  }

  function RowsAfter(c: Config, s: Cached, cmds: seq<Command>, n: nat): map<Str, Row>
    requires n <= |cmds|
  {
    ExecAll(c, s, cmds[..n]).0.rows
  }

  /** The row stands up to call number `i`, which takes it: a delete that the row's owner asked for. */
  ghost predicate OwnerDeletes(c: Config, s: Cached, cmds: seq<Command>, i: nat, token: Str, row: Row) {
    && i < |cmds|
    && (forall j :: 0 <= j <= i ==> token in RowsAfter(c, s, cmds, j) && RowsAfter(c, s, cmds, j)[token] == row)
    && token !in RowsAfter(c, s, cmds, i + 1)
    && cmds[i].DeleteToken? && cmds[i].token == token && cmds[i].requester == row.owner
  }

  lemma RowsAfterFirst(c: Config, s: Cached, cmds: seq<Command>, n: nat)
    requires n < |cmds|
    ensures RowsAfter(c, s, cmds, n + 1) == RowsAfter(c, Exec(c, s, cmds[0]).0, cmds[1..], n)
    ensures RowsAfter(c, s, cmds, 0) == s.rows
  {
    assert cmds[..n + 1][1..] == cmds[1..][..n];
  }

  /** Ownership over serialised runs: a row goes, or changes, only through a delete by its owner, and
      that delete is the first call after which it is no longer there. */
  lemma {:induction false} OwnershipStrong(c: Config, s: Cached, cmds: seq<Command>, token: Str)
    requires token in s.rows
    requires var rows := ExecAll(c, s, cmds).0.rows; token !in rows || rows[token] != s.rows[token]
    ensures exists i: nat :: OwnerDeletes(c, s, cmds, i, token, s.rows[token])
    decreases cmds
  {
    var row, s1 := s.rows[token], Exec(c, s, cmds[0]).0;
    RowsAfterFirst(c, s, cmds, 0);
    assert RowsAfter(c, s1, cmds[1..], 0) == s1.rows;
    if token in s1.rows && s1.rows[token] == row {
      OwnershipStrong(c, s1, cmds[1..], token);
      var i: nat :| OwnerDeletes(c, s1, cmds[1..], i, token, row);
      forall j | 0 <= j <= i + 1
        ensures token in RowsAfter(c, s, cmds, j) && RowsAfter(c, s, cmds, j)[token] == row
      {
        if j > 0 {
          RowsAfterFirst(c, s, cmds, j - 1);
        }
      }
      RowsAfterFirst(c, s, cmds, i + 1);
      assert OwnerDeletes(c, s, cmds, i + 1, token, row);
    } else {
      assert OwnerDeletes(c, s, cmds, 0, token, row);
    }
  }

  /** The row that a create makes is what was asked for. */
  lemma CreatedAsAsked(c: Config, s: Cached, create: Command, token: Str, row: Row)
    requires create.CreateToken? && Exec(c, s, create).1 == Created(token, row)
    ensures var input := create.input;
            && c.normalize(input.url) == Some(row.url) && row.owner == input.owner
            && row.expiresAt == create.now + (if input.ttl > 0 then input.ttl else c.tokenTTL)
            && token == if input.token != [] then input.token else create.random.value
    ensures var s1 := Exec(c, s, create).0; token in s1.rows && s1.rows[token] == row
  {
  }

  /** The owner of the token does not ask for it to be deleted. */
  predicate Undeleted(cmds: seq<Command>, token: Str, owner: Str) {
    forall i :: 0 <= i < |cmds| && cmds[i].DeleteToken? ==> !(cmds[i].token == token && cmds[i].requester == owner)
  }

  lemma StandsUndeleted(c: Config, s: Cached, cmds: seq<Command>, token: Str)
    requires token in s.rows && Undeleted(cmds, token, s.rows[token].owner)
    ensures var rows := ExecAll(c, s, cmds).0.rows; token in rows && rows[token] == s.rows[token]
  {
    var rows := ExecAll(c, s, cmds).0.rows;
    if token !in rows || rows[token] != s.rows[token] {
      OwnershipStrong(c, s, cmds, token);
    }
  }

  /** The whole life of a token: once created it resolves to the normal form of what was asked for,
      up to and including the instant its lifetime ends, and is Expired after that, whatever other
      calls and evictions come in between, as long as its owner does not ask for it to be deleted. */
  lemma CreatedTokenLives(c: Config, s: Cached, create: Command, between: seq<Command>, resolve: Command, token: Str, row: Row)
    requires Coherent(s) && create.CreateToken? && Exec(c, s, create).1 == Created(token, row)
    requires TtlSafe(c, s, [create] + between) && Undeleted(between, token, create.input.owner)
    requires resolve.ResolveToken? && resolve.token == token && resolve.select.Fine?
    ensures var input := create.input;
            var ends := create.now + (if input.ttl > 0 then input.ttl else c.tokenTTL);
            var s' := ExecAll(c, Exec(c, s, create).0, between).0;
            && c.normalize(input.url).Some?
            && Exec(c, s', resolve).1 == if resolve.now <= ends then Found(c.normalize(input.url).value) else Expired
  {
    var s1 := Exec(c, s, create).0;
    var s2 := ExecAll(c, s1, between).0;
    assert ([create] + between)[1..] == between;
    ExecRefines(c, s, create);
    RunRefines(c, s1, between);
    CreatedAsAsked(c, s, create, token, row);
    StandsUndeleted(c, s1, between, token);
    ResolveRefines(c, s2, resolve);
  }

  // ------- The assumption on times to live is needed -------

  /** When the cache keeps entries for ever whose time to live is not positive, resolving a token at
      the very instant it expires makes an entry that is served at any later time. */
  lemma KeptForever(c: Config, token: Str, row: Row, later: Time)
    requires c.nonPositive.KeepsForever? && row.expiresAt < later
    ensures var s := Cached(map[token := row], map[]);
            var (s', answers) := ExecAll(c, s, [ResolveToken(token, row.expiresAt, Fine, Fine, Fine), ResolveToken(token, later, Fine, Fine, Fine)]);
            answers == [Found(row.url), Found(row.url)] && Lookup(s'.rows, token, later) == Expired && !Coherent(s')
  {
    var s := Cached(map[token := row], map[]);
    var c0, c1 := ResolveToken(token, row.expiresAt, Fine, Fine, Fine), ResolveToken(token, later, Fine, Fine, Fine);
    var (s1, _) := Exec(c, s, c0);
    assert s1.cache == map[token := Entry(row.url, Never)];
    assert [c0, c1][1..] == [c1];
    assert [c1][1..] == [];
    assert ExecAll(c, s1, []) == (s1, []);
    assert Exec(c, s1, c1) == (s1, Found(row.url));
    assert ExecAll(c, s1, [c1]) == (s1, [Found(row.url)] + []);
    assert s1.cache[token].expiry.Never?;
  }
}
