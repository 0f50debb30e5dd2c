/** The shortener with its own normaliser: what can come out of a resolve, whatever went on. */
module EndToEnd {
  import opened Primitives
  import opened Utf8
  import opened Store
  import opened CacheAside
  import opened CacheAsideTheorems
  import UrlNormal
  import UrlIdempotence

  /** Tokens are created through normalizeHTTP. */
  ghost predicate UsesNormalizer(c: Config, ip: UrlNormal.IpParser) {
    forall raw :: c.normalize(raw) == UrlNormal.Normalized(ip, raw)
  }

  /** In every interleaving, the URL that a resolve returns is one that somebody asked for, without
      its fragment: it parses to the scheme, host, decoded path and query of what the creator of the
      token gave. It holds no control byte, and normalising it again changes nothing unless it has
      outgrown the limit. */
  lemma ResolvedUrlIsNormal(c: Config, ip: UrlNormal.IpParser, bound: Time, t0: Time, steps: seq<Step>, id: nat, url: Str, gen: nat)
    requires UsesNormalizer(c, ip)
    requires GoodRun(c, bound, t0, steps) && Answered(End(c, bound, t0, steps), id, Found(url, gen))
    ensures var log := End(c, bound, t0, steps).w.log;
            && gen < |log| && log[gen].Inserted?
            && UrlIdempotence.KeepsMeaning(log[gen].raw, url)
    ensures UrlIdempotence.Clean(url)
    ensures RuneCount(url) <= UrlNormal.MAX_RUNES ==> UrlNormal.Normalized(ip, url) == Some(url)
  {
    Provenance(c, bound, t0, steps, id, url, gen);
    var raw := End(c, bound, t0, steps).w.log[gen].raw;
    UrlIdempotence.NormalFormKeepsMeaning(ip, raw);
    UrlIdempotence.NormalizationIdempotent(ip, raw);
  }
}
