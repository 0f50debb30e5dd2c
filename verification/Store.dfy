/** What the shortener stores, and the effect of one call to its repository or its cache. */
module Store {
  import opened Primitives
  import opened Utf8

  /** A row of url_tokens; an absent owner and an empty one compare equal, so both are []. */
  datatype Row = Row(url: Str, expiresAt: Time, owner: Str)

  /** How long a cache entry may be served: up to and including an instant, or for ever. */
  datatype Expiry = Until(at: Time) | Never

  /** What the cache does with a time to live that is not positive. The cache interface does not
      say: `DropsEntry` is the assumption that no live entry results. */
  datatype NonPositiveTtl = DropsEntry | KeepsForever

  datatype Config = Config(maxCacheTTL: Time, tokenTTL: Time, nonPositive: NonPositiveTtl,
                           normalize: Str -> Option<Str>)

  /** The expiry of an entry written at `now`, if there is an entry at all. */
  function StoredExpiry(c: Config, now: Time, ttl: Time): Option<Expiry> {
    if ttl > 0 then Some(Until(now + ttl))
    else if c.nonPositive.KeepsForever? then Some(Never)
    else None
  }

  predicate Live(e: Expiry, now: Time) {
    e.Never? || now <= e.at
  }

  // ------- Creating a token -------

  datatype CreateInput = CreateInput(url: Str, ttl: Time, token: Str, owner: Str)

  datatype CreateError = InvalidUrl | InvalidToken | RandomFailure

  datatype Prepared = Rejected(error: CreateError) | Ready(token: Str, row: Row)

  const MAX_TOKEN_RUNES: nat := 64

  /** The part of createToken before the repository is called: normalise the URL, fix the expiry,
      choose the token. `random` is the generated token, absent when generation fails. */
  function Prepare(c: Config, input: CreateInput, random: Option<Str>, now: Time): Prepared {
    match c.normalize(input.url)
    case None => Rejected(InvalidUrl)
    case Some(url) =>
      var expiresAt := now + (if input.ttl > 0 then input.ttl else c.tokenTTL);
      if RuneCount(input.token) > MAX_TOKEN_RUNES then Rejected(InvalidToken)
      else if input.token != [] then Ready(input.token, Row(url, expiresAt, input.owner))
      else if random.None? then Rejected(RandomFailure)
      else Ready(random.value, Row(url, expiresAt, input.owner))
  }
}
