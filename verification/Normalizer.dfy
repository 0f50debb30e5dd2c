/** normalizeHTTP, with what it promises its caller. */
module Normalizer {
  import opened Primitives
  import opened Utf8
  import opened UrlNormal
  import opened UrlIdempotence
  import opened UrlGrammar

  /** normalizeHTTP: it accepts exactly the texts of at most 2000 runes that read as a URL of the
      grammar, and returns them in canonical form. The result holds no control byte, parses to the
      same URL but for the fragment, and is left as it is unless it has outgrown the limit. */
  method NormalizeHttp(ip: IpParser, raw: Str) returns (url: Option<Str>)
    ensures url.Some? <==> RuneCount(raw) <= 2000 && exists p :: UrlPieces(ip, p) && Text(p) == FullText(raw)
    ensures forall p :: url.Some? && UrlPieces(ip, p) && Text(p) == FullText(raw) ==> url.value == Canonical(p)
    ensures url.Some? ==> KeepsMeaning(raw, url.value) && Clean(url.value)
    ensures url.Some? ==> Normalized(ip, url.value) == if RuneCount(url.value) <= 2000 then url else None
    ensures url == Normalized(ip, raw)
  {
    Promises(ip, raw);
    if Normalized(ip, raw).Some? {
      NormalFormKeepsMeaning(ip, raw);
      NormalizationIdempotent(ip, raw);
    }
    if RuneCount(raw) > MAX_RUNES {
      return None;
    }
    var text := raw;
    if !HasSeparator(text) {
      text := HTTP + SEPARATOR + text;
    }
    var parsed := Parse(text);
    if parsed.None? {
      return None;
    }
    var u := parsed.value;
    var valid := UrlIsValid(ip, u);
    if !valid {
      return None;
    }
    u := u.(scheme := ToLower(u.scheme));
    u := u.(fragment := []);
    return Some(Print(u));
  }

  lemma Promises(ip: IpParser, raw: Str)
    ensures Normalized(ip, raw).Some? <==>
            RuneCount(raw) <= 2000 && exists p :: UrlPieces(ip, p) && Text(p) == FullText(raw)
    ensures forall p :: Normalized(ip, raw).Some? && UrlPieces(ip, p) && Text(p) == FullText(raw) ==>
              Normalized(ip, raw).value == Canonical(p)
  {
    if Normalized(ip, raw).Some? {
      NormalizedExactly(ip, raw, Normalized(ip, raw).value);
    }
    forall p | RuneCount(raw) <= 2000 && UrlPieces(ip, p) && Text(p) == FullText(raw)
      ensures Normalized(ip, raw) == Some(Canonical(p))
    {
      NormalizedExactly(ip, raw, Canonical(p));
    }
  }
}
