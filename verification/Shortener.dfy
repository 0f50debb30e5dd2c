/** The shortener service, its repository and its cache as one object that its calls update. */
module Shortener {
  import opened Primitives
  import opened Store
  import opened SerialStore
  import opened Utf8

  /** The cache serves the row's URL as long as the row is good, but not for longer than the maximum
      from `now` on. */
  ghost predicate Serves(cache: map<Str, Entry>, token: Str, row: Row, now: Time, maxCacheTTL: Time) {
    && token in cache && cache[token].url == row.url
    && forall t :: Live(cache[token].expiry, t) <==> t <= row.expiresAt && t <= now + maxCacheTTL
  }

  predicate SameElsewhere(cache: map<Str, Entry>, before: map<Str, Entry>, token: Str) {
    cache - {token} == before - {token}
  }

  class Service {
    const config: Config
    var rows: map<Str, Row>
    var cache: map<Str, Entry>

    /** The cache entries repeat rows; the cache drops entries that are over when written. */
    ghost predicate Valid()
      reads this
    {
      config.nonPositive.DropsEntry? && Coherent(Contents())
    }

    ghost function Contents(): Cached
      reads this
    {
      Cached(rows, cache)
    }

    constructor (config: Config)
      requires config.nonPositive.DropsEntry?
      ensures Valid() && this.config == config && Contents() == Cached(map[], map[])
    {
      this.config := config;
      rows := map[];
      cache := map[];
    }

    /** cache.SaveToken, with the time to live computed as its callers do: the entry is served as long
        as its row is good, but no longer than the maximum, and nothing else in the cache changes. */
    method SaveToCache(token: Str, row: Row, now: Time, fault: Fault)
      modifies this`cache
      ensures SameElsewhere(cache, old(cache), token)
      ensures fault.LostBefore? ==> cache == old(cache)
      ensures !fault.LostBefore? && config.maxCacheTTL > 0 && row.expiresAt > now ==>
                Serves(cache, token, row, now, config.maxCacheTTL)
      ensures !fault.LostBefore? && config.nonPositive.DropsEntry? && (config.maxCacheTTL <= 0 || row.expiresAt <= now) ==>
                token !in cache
      ensures cache == WriteEntry(config, old(cache), token, row, now, fault)
    {
      var ttl := Min(config.maxCacheTTL, row.expiresAt - now);
      if TakesEffect(fault) {
        var expiry := StoredExpiry(config, now, ttl);
        match expiry
        case None => cache := cache - {token};
        case Some(e) => cache := cache[token := Entry(row.url, e)];
      }
    }

    /** createToken: when it refuses, what it stores when it does not, and what it answers. */
    method CreateToken(input: CreateInput, random: Option<Str>, now: Time, insert: Fault, save: Fault) returns (answer: Answer)
      requires Valid()
      modifies this
      ensures Valid()
      ensures answer == Refused(InvalidUrl) <==> config.normalize(input.url).None?
      ensures answer == Refused(InvalidToken) <==> config.normalize(input.url).Some? && RuneCount(input.token) > 64
      ensures answer == Refused(RandomFailure) <==>
                config.normalize(input.url).Some? && input.token == [] && random.None?
      ensures answer.Refused? ==> Contents() == old(Contents())
      ensures !answer.Refused? ==>
                var token := if input.token != [] then input.token else random.value;
                var lifetime := if input.ttl > 0 then input.ttl else config.tokenTTL;
                var row := Row(config.normalize(input.url).value, now + lifetime, input.owner);
                var saved := !insert.LostBefore? && token !in old(rows);
                && rows == (if saved then old(rows)[token := row] else old(rows))
                && answer == (if !insert.Fine? then RepoFailure else if saved then Created(token, row) else NotUnique)
                && SameElsewhere(cache, old(cache), token)
                && (answer.Created? && !save.LostBefore? && config.maxCacheTTL > 0 && lifetime > 0 ==>
                      Serves(cache, token, row, now, config.maxCacheTTL))
                && (!answer.Created? || save.LostBefore? ==> cache == old(cache))
      ensures (Contents(), answer) == Exec(config, old(Contents()), SerialStore.CreateToken(input, random, now, insert, save))
      ensures (rows, answer) == RepoOnly(config, old(rows), SerialStore.CreateToken(input, random, now, insert, save))
    {
      ExecRefines(config, Contents(), SerialStore.CreateToken(input, random, now, insert, save));
      var prepared := Prepare(config, input, random, now);
      if prepared.Rejected? {
        return Refused(prepared.error);
      }
      var Ready(token, row) := prepared;
      if insert.LostBefore? {
        return RepoFailure;
      }
      if token in rows {
        return if insert.Fine? then NotUnique else RepoFailure;
      }
      rows := rows[token := row];
      if !insert.Fine? {
        return RepoFailure;
      }
      SaveToCache(token, row, now, save);
      return Created(token, row);
    }

    /** ResolveToken: what the rows hold is the answer, and what it reads from them it leaves in the
        cache. */
    method ResolveToken(token: Str, now: Time, get: Fault, select: Fault, save: Fault) returns (answer: Answer)
      requires Valid()
      modifies this`cache
      ensures Valid()
      ensures select.Fine? && token !in rows ==> answer == NotExist
      ensures select.Fine? && token in rows ==>
                answer == if rows[token].expiresAt < now then Expired else Found(rows[token].url)
      ensures var hit := get.Fine? && token in old(cache) && Live(old(cache)[token].expiry, now);
              && (!select.Fine? ==> if hit then token in rows && answer == Found(rows[token].url) else answer == RepoFailure)
              && SameElsewhere(cache, old(cache), token)
              && (hit || !answer.Found? || save.LostBefore? ==> cache == old(cache))
              && (answer.Found? && !hit && !save.LostBefore? && config.maxCacheTTL > 0 && now < rows[token].expiresAt ==>
                    Serves(cache, token, rows[token], now, config.maxCacheTTL))
      ensures (Contents(), answer) == Exec(config, old(Contents()), SerialStore.ResolveToken(token, now, get, select, save))
    {
      ExecRefines(config, Contents(), SerialStore.ResolveToken(token, now, get, select, save));
      if get.Fine? && token in cache && Live(cache[token].expiry, now) {
        return Found(cache[token].url);
      }
      if !select.Fine? {
        return RepoFailure;
      }
      if token !in rows {
        return NotExist;
      }
      var row := rows[token];
      if row.expiresAt < now {
        return Expired;
      }
      SaveToCache(token, row, now, save);
      return Found(row.url);
    }

    /** DeleteToken: only the owner gets as far as the cache, and only past the cache to the row. */
    method DeleteToken(token: Str, requester: Str, now: Time, select: Fault, clear: Fault, delete: Fault) returns (answer: Answer)
      requires Valid()
      modifies this
      ensures Valid()
      ensures var owned := select.Fine? && token in old(rows) && old(rows)[token].owner == requester;
              && (answer == NotOwner <==> select.Fine? && token in old(rows) && old(rows)[token].owner != requester)
              && (answer == Gone <==> (select.Fine? && token !in old(rows)) || (owned && clear.Fine? && delete.Fine?))
              && (answer == CacheFailure <==> owned && !clear.Fine?)
              && (answer == RepoFailure <==> !select.Fine? || (owned && clear.Fine? && !delete.Fine?))
              && rows == (if owned && clear.Fine? && !delete.LostBefore? then old(rows) - {token} else old(rows))
              && cache == (if owned && !clear.LostBefore? then old(cache) - {token} else old(cache))
      ensures (Contents(), answer) == Exec(config, old(Contents()), SerialStore.DeleteToken(token, requester, now, select, clear, delete))
      ensures (rows, answer) == RepoOnly(config, old(rows), SerialStore.DeleteToken(token, requester, now, select, clear, delete))
    {
      ExecRefines(config, Contents(), SerialStore.DeleteToken(token, requester, now, select, clear, delete));
      if !select.Fine? {
        return RepoFailure;
      }
      if token !in rows {
        return Gone;
      }
      if rows[token].owner != requester {
        return NotOwner;
      }
      if TakesEffect(clear) {
        cache := cache - {token};
      }
      if !clear.Fine? {
        return CacheFailure;
      }
      if TakesEffect(delete) {
        rows := rows - {token};
      }
      return if delete.Fine? then Gone else RepoFailure;
    }

    /** The cache makes room, whatever entry that costs. */
    method Evict(token: Str)
      requires Valid()
      modifies this`cache
      ensures Valid() && cache == old(cache) - {token}
      ensures Contents() == Exec(config, old(Contents()), SerialStore.Evict(token)).0
    {
      cache := cache - {token};
    }
  }
}
