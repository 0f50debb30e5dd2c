# Verification of pet-urls

A Dafny model of a URL shortener: short tokens stand for URLs, a repository holds them, a cache with
expiring entries stands in front of it, users log in and own tokens, and an HTTP layer answers with a
timeout. The model follows the Go sources member by member and proves what holds in every run.

Run `dafny verify dfyconfig.toml` to check it.

## Parts

- `Primitives`, `Utf8`: Go strings as bytes, decoding as Go does it, time, and how a call can fail.
- `HostName`: the host-name recogniser, its grammar, and a one-pass automaton for the same language.
- `PercentEncoding`, `UrlNormal`, `UrlIdempotence`: URL normalisation over a parser and a printer of
  absolute URLs; the normal form keeps the meaning and is stable.
- `UrlGrammar`, `Normalizer`: a grammar of texts that knows nothing of the parser, and the proof that
  normalisation accepts exactly its texts and returns their canonical form.
- `Store`, `SerialStore`, `Shortener`: the shortener when calls run one after another, as an object
  whose calls update rows and cache, refined to a store that has no cache.
- `CacheAside`, `RepoHistory`, `RepoInvariant`, `CacheAsideInvariant`, `CacheAsideTheorems`: the same
  protocol with any number of calls in flight, each advancing one access at a time: bounded staleness,
  provenance, lifetimes, conservation, and the truth of refusals.
- `CacheAsideCreation`: every row is what its creator was asked for.
- `CacheAsideOwnership`: exactly when a delete takes the row it checked.
- `CacheAsideSolo`, `CacheAsideRaces`: a call that runs alone is the serialised call; runs that reach
  the staleness bound, that break ownership, and that need the assumption on times to live.
- `EndToEnd`: what a resolve can return when tokens are created through the normaliser.
- `Responses`, `TimeoutRace`: the buffering writer, and the race of a handler with a timer over it.
- `Base64Url`, `Sessions`, `SessionMachine`, `Auth`: access and refresh tokens; the service as an
  object, and the protocol with calls in flight.
- `SessionSolo`: a session call that runs alone ends as the object's methods say.
- `Retry`: the bounded retry loop and the insert it guards.

## Assumptions

- The repository is a map with insert-if-absent, update and delete; the cache is a map whose entries
  may vanish at any time. Every call to either may fail, before or after it took effect. An effect
  that arrives later than the error it was reported with is not modelled.
- `DropsEntry`: storing a cache entry with a time to live that is not positive leaves no live entry.
  The cache interface (`internal/services/shortener/dependencies.go:28-29`) does not say so and the
  Redis adapter passes such values on. Results that need it say so, or need only that no such write
  happens; `KeptForever` and `NegativeTtlKept` show what goes wrong otherwise, and `ExecRefines` exactly
  when. What is said about the repository alone (conservation, refusals, ownership) does not need it.
- A cache entry may still be served at the very instant it expires.
- In the interleaved machines each call lasts at most `bound`; without such a bound no staleness
  result can hold. A `bound` of 0 gives the results for calls that take no time.
- Cryptography is abstract: `CollisionFree` (hashing of tokens) and `Unforged` (signatures) are
  hypotheses of the lemmas that use them. JWT expiries are cut to whole seconds.
- `IpParser` stands for net.ParseIP, of which only the alphabet of accepted text is assumed. net/url,
  encoding/base64 and unicode/utf8 are not part of this repository; the model has its own versions.

## Where code and documentation differ

- `internal/services/auth/service.go:49-55` promises that an access token authenticates while its
  session is active. The code never looks at the session: `MintCutOff` bounds how long a token
  survives its session, and `CutOffReached` shows a run in which it survives that long.
- `internal/services/shortener/service.go:33-35` promises that only the owner deletes a token. A
  delete takes the row whose owner it checked if, and only if, no other delete of the token takes effect
  in between (`OwnershipExact`). So the promise holds as long as no two deletes of one token are in
  flight together (`OwnershipWhenApart`), and `ForeignRowDeleted` is a run of two in which it fails.
- `internal/transport/http/middleware.go:139-141` means to imply status 200 on a first write. The
  mutex is held there, so the call waits for itself (`LockProgress`, `WriterWrapper.Write`).

## Model

| member | source | states |
|---|---|---|
| HostName.IsValidFqdnLabel | internal/services/shortener/url.go:70-86 | the loop over runes decides the grammar over bytes: 1 to 63 letters, digits or hyphens, no hyphen at an end |
| HostName.IsValidFqdn | internal/services/shortener/url.go:52-68 | true exactly for at most 255 runes that are dot-joined labels with at most one trailing dot |
| HostName.SplitCharacterises | internal/services/shortener/url.go:57-65 | some way to join labels into the name exists exactly when the pieces of the split are labels |
| HostName.HostNameIsAutomaton | internal/services/shortener/url.go:52-68 | split-and-loop and a one-pass automaton over at most 255 bytes accept the same strings |
| HostName.RuneCapIsByteCap | internal/services/shortener/url.go:53-76 | an accepted name is ASCII, at most 255 bytes, at most 128 labels, although the code counts runes |
| Utf8.RuneDecoded | internal/services/shortener/url.go:54-76 | ranging over a string yields every encoded rune as it was encoded |
| Utf8.RuneWritten | internal/services/shortener/url.go:54-76 | and nothing else: any other byte is one replacement rune |
| Utf8.RunesCounted | internal/services/shortener/url.go:12-54 | the rune count of a text is the number of runes it encodes |
| PercentEncoding.UnescapeEscape | internal/services/shortener/url.go:18-28 | percent-decoding undoes percent-encoding for every byte string |
| UrlNormal.UrlIsValid | internal/services/shortener/url.go:31-50 | decides validity: scheme http or https spelled out, nothing opaque, no user, host name or IP once the port is cut |
| Normalizer.NormalizeHttp | internal/services/shortener/url.go:11-29 | accepts exactly the texts of at most 2000 runes that the grammar derives and returns their canonical form, which means the same but for the fragment and is stable up to 2000 runes |
| UrlGrammar.NormalizedExactly | internal/services/shortener/url.go:11-50 | acceptance and result characterised over the text alone: scheme, host, port, path, query and fragment, without the parser |
| UrlGrammar.OtherSchemesRefused | internal/services/shortener/url.go:31-34 | every other scheme is refused |
| UrlGrammar.UserInfoRefused | internal/services/shortener/url.go:36-43 | every authority with an at sign is refused |
| UrlIdempotence.ParsePrint | internal/services/shortener/url.go:18-28 | printing a validated URL and parsing the text gives the URL back, with its path as it was printed |
| UrlIdempotence.NormalFormKeepsMeaning | internal/services/shortener/url.go:11-29 | the normal form parses to the input's scheme, host, decoded path and query; only the fragment is lost; no control byte remains |
| UrlIdempotence.NormalizationIdempotent | internal/services/shortener/url.go:11-29 | a normal form normalises to itself exactly when it has at most 2000 runes, and is refused otherwise |
| UrlIdempotence.LongNormalFormRefused | internal/services/shortener/url.go:12-17 | an accepted text whose normal form is refused: the length condition is needed |
| Shortener.Service.CreateToken | internal/services/shortener/shortener.go:314-392 | when each refusal is given; otherwise the row stored has the normalised URL, the owner and the lifetime asked for or the default; answers for each outcome of the insert; cache filled; as a store without a cache would |
| Shortener.Service.ResolveToken | internal/services/shortener/shortener.go:159-215 | the row's URL through its expiry, expired after it, not found without a row, a failure only without cache and repository; fills the cache; rows untouched |
| Shortener.Service.DeleteToken | internal/services/shortener/shortener.go:248-300 | which answer when; the cache is cleared only for the owner, the row taken only once the cache is cleared |
| Shortener.Service.SaveToCache | internal/services/shortener/shortener.go:199-204 | an effective write is served up to the row's expiry and no longer than the maximum, one that is over leaves no entry, a lost one changes nothing; all other entries stay |
| SerialStore.ExecRefines | internal/services/shortener/shortener.go:159-300 | each call refines the same call on rows alone; the cache stays coherent exactly unless an entry already over is written and kept |
| SerialStore.RunRefines | internal/services/shortener/shortener.go:159-392 | for every sequence of calls, failures and evictions: same rows, agreeing answers, coherent cache |
| SerialStore.OwnershipStrong | internal/services/shortener/shortener.go:264-281 | when calls do not overlap a row stands unchanged up to a delete by its owner, and that is the call which takes it |
| SerialStore.CreatedTokenLives | internal/services/shortener/shortener.go:334-344 | a created token resolves to its normalised URL through the lifetime asked for, or the default, and is expired after, whatever comes between but a delete by its owner |
| SerialStore.KeptForever | internal/cache/redis/shortenerCache.go:22-24 | a cache that keeps entries with a non-positive time to live serves an expired token at any later time |
| CacheAsideTheorems.BoundedStaleness | internal/services/shortener/shortener.go:159-300 | no resolve that starts later than bound + maxCacheTTL after a row was deleted returns that row, in any interleaving |
| CacheAsideTheorems.CacheStaleness | internal/services/shortener/shortener.go:190-204 | a cache entry copied from a deleted row expires within the same bound |
| CacheAsideTheorems.Provenance | internal/services/shortener/shortener.go:163-173 | a resolved URL was stored for that token by an earlier create and is the normal form of its input |
| CacheAsideTheorems.ProvenanceInFlight | internal/services/shortener/shortener.go:174-204 | so is every URL that a call in flight holds |
| CacheAsideTheorems.CacheLifetime | internal/services/shortener/shortener.go:384-390 | an entry expires by write time + maxCacheTTL and by row expiry + the delay between computing and writing |
| CacheAsideTheorems.ExpiryRespected | internal/services/shortener/shortener.go:190-199 | no URL is returned later than bound after its row expired |
| CacheAsideTheorems.RefusalsTrue | internal/services/shortener/shortener.go:176-195 | expired, missing, taken, not owned, deleted: each such reply was true of the rows at some instant of the call |
| CacheAsideTheorems.FailureHasCause | internal/services/shortener/shortener.go:176-300 | a call reports a failure only if one of its own accesses failed; racing deletes both succeed |
| CacheAsideTheorems.RowsConserved | internal/db/postgres/migrations/000001_initial.up.sql:3 | per token, effective inserts minus effective deletes is 1 if a row exists and 0 otherwise, whatever the cache does |
| CacheAsideTheorems.UniqueWinner | internal/services/shortener/shortener.go:369-381 | two calls that both created one token are separated by a delete of it |
| CacheAsideTheorems.RowsFrozen | internal/services/shortener/shortener.go:369-381 | a row keeps URL, expiry and owner until a delete of its token |
| RepoHistory.DeleteExact | internal/services/shortener/shortener.go:251-281 | in every lawful history a delete takes the row it looked at exactly when no other delete of the token came between, and else a younger one |
| CacheAsideOwnership.OwnershipExact | internal/services/shortener/shortener.go:251-281 | in every interleaving a deleter owned the row it looked at, and takes that row exactly when no other delete of the token takes effect in between; otherwise one created since |
| CacheAsideOwnership.OwnershipWhenApart | internal/services/shortener/shortener.go:264-281 | while no two deletes of one token are in flight together, whatever else overlaps, only owners delete |
| RepoInvariant.StepKeeps | internal/services/shortener/shortener.go:159-392 | every step of every call keeps the history lawful, the rows equal to it, and what calls and replies say of it true |
| CacheAsideCreation.InsertedAsAsked | internal/services/shortener/shortener.go:322-369 | in every interleaving every row inserted has the URL, owner and lifetime its creator was asked for |
| CacheAsideCreation.CreatedAsAsked | internal/services/shortener/shortener.go:322-392 | so has every row a create answers with |
| CacheAsideInvariant.StepOk | internal/services/shortener/shortener.go:159-392 | every step of every call keeps the invariant of the protocol |
| CacheAsideSolo.SoloIsSerial | internal/services/shortener/shortener.go:159-392 | the steps of a call without interference amount to the serialised call |
| CacheAsideSolo.EvictionHeals | docker/redis.conf:2 | from every reachable state, once the entry is evicted a resolve answers what the rows hold |
| CacheAsideRaces.StalenessReached | internal/services/shortener/shortener.go:273-281 | for every configuration a run reaches the staleness bound exactly |
| CacheAsideRaces.ForeignRowDeleted | internal/services/shortener/shortener.go:264-281 | a run in which a delete takes the row of another owner |
| CacheAsideRaces.NegativeTtlKept | internal/services/shortener/shortener.go:190-199 | a run in which time passes between the expiry check and the computed time to live, and a cache that keeps such entries serves the URL at any later time |
| RepoHistory.Conservation | internal/db/postgres/migrations/000001_initial.up.sql:3 | the counting law on lawful histories |
| RepoHistory.DeleteBetweenInserts | internal/services/shortener/shortener.go:369-381 | between two inserts of a token there is a delete of it |
| EndToEnd.ResolvedUrlIsNormal | internal/services/shortener/shortener.go:324-332 | a resolved URL parses to what its creator gave, without fragment, and is stable under normalising |
| Responses.WriterWrapper.WriteHeader | internal/transport/http/middleware.go:120-129 | the first status counts; nothing once aborted |
| Responses.WriterWrapper.Write | internal/transport/http/middleware.go:131-144 | appends to the buffer; stuck exactly on a live wrapper without a status |
| Responses.WriterWrapper.Flush | internal/transport/http/middleware.go:146-152 | hands on one status and one body that amount to all calls made, and keeps the status it sent |
| Responses.WriterWrapper.Abort | internal/transport/http/middleware.go:154-160 | drops the buffer and ends all effects |
| Responses.Observe | internal/transport/http/middleware.go:53-85 | the wrapped writer gets what the handler amounts to, and the status logged is the status sent |
| Responses.BufferedTransparent | internal/transport/http/middleware.go:120-152 | the client receives the same through a wrapper, and wrapping again changes nothing |
| Responses.Chain | internal/transport/http/middleware.go:19-24 | the backwards loop composes the middlewares, the first one outermost |
| Responses.StackIsOne | internal/transport/http/middleware.go:19-24 | for scripts that set a status first, any stack of wrappers is as good as one |
| TimeoutRace.AllOrNothing | internal/transport/http/middleware.go:162-186 | in every interleaving the writer gets exactly 503 with the timeout text or all of the handler's calls, and only parts of one of them before |
| TimeoutRace.HandlerAnswers | internal/transport/http/middleware.go:175-183 | while the timer has not fired, a script that sets a status first always ends with the handler's response |
| TimeoutRace.HandlerCanAnswer | internal/transport/http/middleware.go:181-182 | and every such script has a run that does |
| TimeoutRace.TimeoutCanAnswer | internal/transport/http/middleware.go:175-180 | as long as the select has not chosen, the timeout can still answer, even after the handler ended |
| TimeoutRace.ServerResponse | internal/transport/http/server.go:71-77 | what leaves the timeout middleware passes the next wrapper unchanged and is 503 or the handler's answer |
| TimeoutRace.RunsEnd | internal/transport/http/middleware.go:162-186 | every run ends within 6 steps per call of the handler and 9 more |
| TimeoutRace.LockProgress | internal/transport/http/middleware.go:120-160 | no run gets stuck unanswered, and no thread waits for itself, exactly when a status is set before the first write |
| TimeoutRace.WriteFirstDeadlocks | internal/transport/http/middleware.go:131-160 | a run in which Write and then Abort wait for ever |
| Base64Url.RoundTrip | internal/services/auth/auth.go:31-39 | decoding the encoding of any user ID returns it |
| Base64Url.EncodeDecode | internal/services/auth/auth.go:36-39 | a text is an encoding exactly when it is canonical, and then re-encoding its decoding returns it |
| Base64Url.GroupEncoded | internal/services/auth/auth.go:31-34 | the symbols of a group are the number its bytes are, in base 64, filled up with zero bits |
| Base64Url.DecodeDefined | internal/services/auth/auth.go:36-39 | decoding fails exactly on a foreign byte or a single symbol left over |
| Base64Url.BreaksSkipped | internal/services/auth/auth.go:36-39 | line breaks change nothing |
| Sessions.IssuedAuthenticates | internal/services/auth/auth.go:262-289 | an issued token authenticates its user exactly until issue time + TTL in whole seconds |
| Sessions.RefreshCharacterised | internal/services/auth/auth.go:221-260 | refresh succeeds exactly for a token stored by a login, not past its expiry, with no logout since; for that login's user |
| Sessions.RejectedForever | internal/db/postgres/authRepo.go:113-123 | a stored token once rejected stays rejected; rows keep user and expiry |
| SessionMachine.MintCutOff | internal/services/auth/auth.go:205-289 | an access token is not accepted longer than bound + accessTTL, cut to whole seconds, after its session expired or was logged out |
| SessionMachine.AuthenticatedLoggedIn | internal/services/auth/auth.go:163-203 | whoever is authenticated by a token that cannot be forged is the user of a login with a matching password |
| SessionMachine.StepOk | internal/services/auth/auth.go:163-326 | every step of the protocol keeps its invariant |
| SessionMachine.RowsReachable | internal/db/postgres/migrations/000002_auth.up.sql:8-16 | in every reachable state the rows tell the history and hashes are unique |
| SessionMachine.CutOffReached | internal/services/auth/auth.go:262-289 | a run in which a token of a logged-out session is accepted up to that very cut-off |
| SessionMachine.ExpiryCutOffReached | internal/services/auth/auth.go:239-289 | a run in which a token of an expired session is accepted up to that very cut-off |
| SessionSolo.LoginAlone | internal/services/auth/auth.go:163-203 | a login without interference is granted, refused or failed exactly when the service says so |
| SessionSolo.RefreshAlone | internal/services/auth/auth.go:221-260 | so is a refresh |
| SessionSolo.LogoutAlone | internal/services/auth/auth.go:205-219 | and so is a logout |
| Auth.Service.Register | internal/services/auth/auth.go:128-161 | which error when; the user added is exactly the one named, and only if the login is free |
| Auth.Service.Login | internal/services/auth/auth.go:163-203 | granted if and only if the password matches and everything works, refused if and only if it does not match; the one row stored, none overwritten |
| Auth.Service.Refresh | internal/services/auth/auth.go:221-260 | renews exactly for an active, unexpired session, for its user; changes nothing |
| Auth.Service.Logout | internal/services/auth/auth.go:205-219 | on success the token can never be refreshed; other rows untouched |
| Auth.Service.Authenticate | internal/services/auth/auth.go:262-289 | accepts exactly what is signed for its claims, not past its expiry, and names a user; an issued token exactly up to its expiry |
| Retry.Table.WithRetry | internal/db/postgres/postgres.go:92-119 | for any operation, the loop over it is the recursion the lemmas below are about |
| Retry.RetryBounded | internal/db/postgres/postgres.go:94-117 | for any operation and any N: at most N attempts, at most delay*N(N+1)/2 of sleep, 600 ms for three |
| Retry.RetriesOnly | internal/db/postgres/postgres.go:92-130 | for any operation: success exactly when the last attempt succeeded, after retryable failures only; exhaustion only after N |
| Retry.GoesOn | internal/db/postgres/postgres.go:94-118 | without cancellation every retryable error before the last attempt is followed by another attempt, after its whole delay |
| Retry.StopsWhenCancelled | internal/db/postgres/postgres.go:95-117 | a cancelled context stops the loop, and nothing else is reported as cancelled |
| Retry.TransientPasses | internal/db/postgres/postgres.go:92-130 | serialization failures and deadlocks short of the last attempt are overcome |
| Retry.InsertAtMostOnce | internal/db/postgres/shortenerRepo.go:22-38 | a retried insert takes effect at most once and never collides with its own earlier attempt |
| Retry.Overtaken | internal/db/postgres/shortenerRepo.go:22-38 | an insert overtaken between its attempts reports the token taken and leaves the other row alone |

## Left out

- CacheAsideTheorems.BoundedStaleness: an effect of a cache or repository call that arrives after the call was reported to have failed is not modelled.
- TimeoutRace.AllOrNothing: headers other than the status go straight to the wrapped writer and are not covered; neither are 1xx statuses and handler panics.
- Normalizer.NormalizeHttp: relative references and the inside of user information are not parsed, because validation refuses such URLs whatever else they hold; what net.ParseIP accepts is open but for its alphabet.
- Auth.Service.Authenticate: a signed token without an expiry is not modelled, because the service issues none.
- Postgres, Redis, pgx and go-redis themselves, connection pools, and the defaulting of configuration values.
- SHA-256, bcrypt, HMAC and random generation: abstract functions and parameters.
- base58: generated tokens are parameters.
- The interplay of the retry loop with the cache protocol: the protocol sees a repository call as one access that may fail.
- Logging, metrics, JSON bodies, cookies, routing, environment loading, the commands and the health checks: plumbing.
- The rejection of a missing owner, and the mapping of errors to HTTP statuses: each settled by reading one branch.
