/**
 Normalisation settles in one step: what it prints parses back to the same URL, so a normal form
 normalises to itself exactly when it is short enough to be looked at again.
 */
module UrlIdempotence {
  import opened Primitives
  import opened Utf8
  import opened PercentEncoding
  import opened UrlNormal
  import HostName

  // ------- Hosts that pass validation -------

  /** The bytes a validated host is made of: none of them is ever percent-encoded. */
  predicate PlainByte(c: Byte) {
    HostName.LabelChar(c) || c == HostName.DOT || c == COLON || c == OPEN || c == CLOSE
  }

  predicate Plain(s: Str) {
    forall i :: 0 <= i < |s| ==> PlainByte(s[i])
  }

  lemma NamePlain(ip: IpParser, s: Str)
    requires HostName.ValidName(s) || IsIp(ip, s)
    ensures s != [] && Plain(s)
  {
    if HostName.ValidName(s) {
      HostName.SplitCharacterises(s);
      HostName.NamesAreAscii(s);
    } else if COLON in s && s[0] == OPEN && s[|s| - 1] == CLOSE {
      var inner := s[1..|s| - 1];
      assert ip(inner);
      assert s == [OPEN] + inner + [CLOSE];
    } else {
      assert ip(s);
    }
  }

  lemma PortDigits(host: Str)
    ensures Plain(Port(host))
  {
    var colon := LastIndexOf(host, COLON);
    if colon.Some? && ValidOptionalPort(host[colon.value..]) {
      var port := host[colon.value..];
      assert Port(host) == port[1..];
    }
  }

  lemma PlainAgain(name: Str, port: Str)
    requires Plain(name) && Plain(port)
    ensures Plain(name + ([COLON] + port))
  {
  }

  lemma HostPlain(ip: IpParser, u: Url)
    requires ValidUrl(ip, u)
    ensures u.host != [] && Plain(u.host)
  {
    NamePlain(ip, NameOf(u));
    HostOfName(u);
  }

  lemma HostOfName(u: Url)
    requires NameOf(u) != [] && Plain(NameOf(u))
    ensures u.host != [] && Plain(u.host)
  {
    var name, port := NameOf(u), Port(u.host);
    PortDigits(u.host);
    if name != u.host {
      assert u.host == name + ([COLON] + port);
      PlainAgain(name, port);
    }
  }

  /** Decoding left a plain host as it was written. */
  lemma PlainHostWritten(s: Str, host: Str)
    requires ParseHost(s) == Some(host) && Plain(host)
    ensures s == host
  {
    if Unescape(s, HostMode) == Some(host) {
      UnescapedPlain(s, host);
    } else {
      ZoneLeavesPercent(s, host);
      assert false;
    }
  }

  /** A zone starts with an encoded percent sign, which decoding turns into a plain one. */
  lemma ZoneLeavesPercent(s: Str, host: Str)
    requires ParseHost(s) == Some(host) && Unescape(s, HostMode) != Some(host)
    ensures PERCENT in host
  {
    var k := LastIndexOf(s, CLOSE).value;
    var zone := ZoneIndex(s[..k]);
    var a, b, c := Unescape(s[..zone], HostMode), Unescape(s[zone..k], ZoneMode), Unescape(s[k..], HostMode);
    assert Append(a, Append(b, c)) == Some(host);
    ZoneStarts(s[..k]);
    assert s[..k][zone..] == s[zone..k];
    ZoneDecodes(s[zone..k], b.value);
    assert host == a.value + (b.value + c.value);
    assert host[|a.value|] == PERCENT;
  }

  lemma ZoneDecodes(s: Str, t: Str)
    requires |s| >= 3 && s[0] == PERCENT && s[1] == 0x32 && s[2] == 0x35
    requires Unescape(s, ZoneMode) == Some(t)
    ensures t != [] && t[0] == PERCENT
  {
    assert Triplet(s, ZoneMode) == Some(PERCENT);
  }

  lemma {:induction false} ZoneStarts(s: Str)
    ensures var k := ZoneIndex(s);
            k < |s| ==> k + 3 <= |s| && s[k] == PERCENT && s[k + 1] == 0x32 && s[k + 2] == 0x35
    decreases |s|
  {
    if |s| >= 3 && s[..3] != [PERCENT, 0x32, 0x35] {
      ZoneStarts(s[1..]);
    } else if |s| >= 3 {
      assert s[0] == s[..3][0] && s[1] == s[..3][1] && s[2] == s[..3][2];
    }
  }

  // ------- URLs as Parse leaves them -------

  /** Neither a delimiter that would cut the text elsewhere, nor a control byte. */
  predicate Clean(s: Str) {
    forall i :: 0 <= i < |s| ==> s[i] != HASH && !IsControl(s[i])
  }

  predicate PathText(p: Str, path: Str) {
    && Clean(p) && QUESTION !in p
    && (p == [] || p[0] == SLASH)
    && Unescape(p, PathMode) == Some(path)
  }

  /** What the path of a parsed URL satisfies, whether or not its written form was remembered. */
  predicate PathParsed(u: Url) {
    && (u.path == [] || u.path[0] == SLASH)
    && (u.rawPath != [] ==> PathText(u.rawPath, u.path))
  }

  predicate Web(scheme: Str) {
    scheme == HTTP || scheme == HTTPS
  }

  predicate TailParsed(tail: Tail) {
    Clean(tail.rawQuery) && (tail.forceQuery ==> tail.rawQuery == [])
  }

  predicate HostParsed(host: Str) {
    host != [] && Plain(host) && ParseHost(host) == Some(host)
  }

  predicate WellParsed(u: Url) {
    && Web(u.scheme) && u.opaquePart == [] && !u.hasUser
    && HostParsed(u.host) && PathParsed(u) && TailParsed(TailOf(u))
  }

  lemma ParsedIsWellParsed(ip: IpParser, s: Str, u: Url)
    requires Parse(s) == Some(u) && ValidUrl(ip, u)
    ensures WellParsed(u)
  {
    var scheme, rest, tail, v := ParsedParts(s, u);
    HostPlain(ip, u);
    RestParsed(scheme, rest, tail, v);
    assert PathParsed(u) && TailOf(u) == tail;
  }

  /** What Parse saw before it looked at the fragment. */
  lemma ParsedParts(s: Str, u: Url) returns (scheme: Str, rest: Str, tail: Tail, v: Url)
    requires Parse(s) == Some(u)
    ensures ParseRest(scheme, rest, tail) == Some(v) && u == v.(fragment := u.fragment)
    ensures Clean(rest) && QUESTION !in rest && TailParsed(tail)
  {
    var t := s[..IndexOf(s, HASH)];
    var end := ScanScheme(t, 0).end;
    scheme, rest, tail := ToLower(t[..end]), CutQuery(t[end + 1..]).0, CutQuery(t[end + 1..]).1;
    v := ParseRest(scheme, rest, tail).value;
    CutClean(t, end + 1);
  }

  lemma CutClean(t: Str, k: nat)
    requires Clean(t) && k <= |t|
    ensures var (rest, tail) := CutQuery(t[k..]); Clean(rest) && QUESTION !in rest && TailParsed(tail)
  {
  }

  lemma RestParsed(scheme: Str, rest: Str, tail: Tail, u: Url)
    requires Clean(rest) && QUESTION !in rest
    requires ParseRest(scheme, rest, tail) == Some(u)
    requires u.opaquePart == [] && !u.hasUser && u.host != [] && Plain(u.host)
    ensures u.scheme == scheme && TailOf(u) == tail
    ensures ParseHost(u.host) == Some(u.host)
    ensures PathParsed(u)
  {
    var base := Url(scheme, [], false, [], [], [], tail.forceQuery, tail.rawQuery, []);
    var authority, written := Authority(rest), WrittenPath(rest);
    assert ParseHost(authority) == Some(u.host);
    assert SetPath(base.(host := u.host), written) == Some(u);
    PlainHostWritten(authority, u.host);
    WrittenPathClean(rest);
    SetPathFacts(base.(host := u.host), written, u);
  }

  lemma WrittenPathClean(rest: Str)
    requires Clean(rest) && QUESTION !in rest && rest != [] && rest[0] == SLASH
    ensures var p := WrittenPath(rest); Clean(p) && QUESTION !in p && (p == [] || p[0] == SLASH)
  {
  }

  lemma SetPathFacts(u: Url, written: Str, v: Url)
    requires Clean(written) && QUESTION !in written && (written == [] || written[0] == SLASH)
    requires SetPath(u, written) == Some(v)
    ensures v == u.(path := v.path, rawPath := v.rawPath)
    ensures PathParsed(v)
  {
  }

  // ------- Printing and parsing back -------

  lemma PrintedPath(u: Url)
    requires PathParsed(u)
    ensures var p := EscapedPath(u); PathText(p, u.path) && (p == [] <==> u.path == [])
  {
    UnescapeEscape(u.path, PathMode);
    EscapedPathBytes(u.path);
  }

  function Assembled(scheme: Str, rest: Str, tail: Tail): Str {
    scheme + [COLON] + rest + TailText(tail)
  }

  /** What follows the scheme's colon in a printed URL, up to the query. */
  function Middle(u: Url): Str {
    [SLASH, SLASH] + u.host + EscapedPath(u)
  }

  lemma PrintAssembles(u: Url)
    requires u.opaquePart == [] && u.host != [] && Plain(u.host) && PathParsed(u)
    ensures Print(u) == Assembled(u.scheme, Middle(u), TailOf(u))
  {
    PrintedPath(u);
    HostUnescaped(u.host);
    var p := EscapedPath(u);
    assert Print(u) == u.scheme + [COLON] + [SLASH, SLASH] + u.host + [] + p + TailText(TailOf(u));
  }

  lemma HostUnescaped(s: Str)
    requires Plain(s)
    ensures Escape(s, HostMode) == s
  {
    PlainHost(s);
  }

  lemma ScanLetters(s: Str, i: nat, k: nat)
    requires i <= k < |s| && s[k] == COLON && k > 0
    requires forall j :: i <= j < k ==> Letter(s[j])
    ensures ScanScheme(s, i) == SchemeEnds(k)
    decreases k - i
  {
  }

  lemma CutNothing(rest: Str)
    requires QUESTION !in rest
    ensures CutQuery(rest) == (rest, Tail(false, []))
  {
    IndexOfUnique(rest, QUESTION, |rest|);
  }

  lemma CutAt(rest: Str, query: Str)
    requires QUESTION !in rest
    ensures CutQuery(rest + [QUESTION] + query) == (rest, Tail(query == [], query))
  {
    var s := rest + [QUESTION] + query;
    IndexOfUnique(s, QUESTION, |rest|);
    assert s[..|rest|] == rest && s[|rest| + 1..] == query;
  }

  lemma CutTail(rest: Str, tail: Tail)
    requires QUESTION !in rest
    requires tail.forceQuery ==> tail.rawQuery == []
    ensures CutQuery(rest + TailText(tail)) == (rest, tail)
  {
    if TailText(tail) == [] {
      assert rest + TailText(tail) == rest;
      CutNothing(rest);
    } else {
      assert rest + TailText(tail) == rest + [QUESTION] + tail.rawQuery;
      CutAt(rest, tail.rawQuery);
    }
  }

  lemma ParseRestBack(u: Url)
    requires u.opaquePart == [] && !u.hasUser && u.fragment == []
    requires HostParsed(u.host) && PathParsed(u)
    ensures ParseRest(u.scheme, Middle(u), TailOf(u)) == Some(Reparsed(u))
  {
    var base := Url(u.scheme, [], false, u.host, [], [], u.forceQuery, u.rawQuery, []);
    PrintedPath(u);
    SetPathBack(base, u);
    RestParsesAs(u.scheme, u.host, EscapedPath(u), TailOf(u), Reparsed(u));
  }

  lemma RestParsesAs(scheme: Str, host: Str, path: Str, tail: Tail, u: Url)
    requires HostParsed(host) && (path == [] || path[0] == SLASH)
    requires SetPath(Url(scheme, [], false, host, [], [], tail.forceQuery, tail.rawQuery, []), path) == Some(u)
    ensures ParseRest(scheme, [SLASH, SLASH] + host + path, tail) == Some(u)
  {
    var rest := [SLASH, SLASH] + host + path;
    var parts := (Authority(rest), WrittenPath(rest));
    MiddleSplits(host, path);
    PlainHasNoAt(host);
    assert parts == (host, path) && rest[0] == SLASH;
    ParseRestWith(scheme, rest, tail, host, u);
  }

  lemma PlainHasNoAt(host: Str)
    requires Plain(host)
    ensures AT !in host
  {
  }

  lemma SetPathBack(base: Url, u: Url)
    requires PathParsed(u) && base == u.(path := [], rawPath := [])
    ensures SetPath(base, EscapedPath(u)) == Some(Reparsed(u))
  {
    PrintedPath(u);
  }

  lemma ParseRestWith(scheme: Str, rest: Str, tail: Tail, host: Str, u: Url)
    requires rest != [] && rest[0] == SLASH && Authority(rest) == host && AT !in host
    requires ParseHost(host) == Some(host)
    requires SetPath(Url(scheme, [], false, host, [], [], tail.forceQuery, tail.rawQuery, []), WrittenPath(rest)) == Some(u)
    ensures ParseRest(scheme, rest, tail) == Some(u)
  {
  }

  lemma MiddleSplits(host: Str, path: Str)
    requires Plain(host) && (path == [] || path[0] == SLASH)
    ensures var rest := [SLASH, SLASH] + host + path;
            HasAuthority(rest) && Authority(rest) == host && WrittenPath(rest) == path
  {
    var rest := [SLASH, SLASH] + host + path;
    assert rest[2..] == host + path;
    IndexOfUnique(host + path, SLASH, |host|);
  }

  /** What printing keeps of a URL: everything, except that the written path may be dropped. */
  function Reparsed(u: Url): Url {
    u.(rawPath := if EscapedPath(u) == Escape(u.path, PathMode) then [] else EscapedPath(u))
  }

  /** The normal form parses to the URL it was printed from. */
  lemma ParsePrint(u: Url)
    requires WellParsed(u) && u.fragment == []
    ensures Parse(Print(u)) == Some(Reparsed(u))
  {
    var tail := TailOf(u);
    PrintAssembles(u);
    PrintedPath(u);
    MiddleClean(u.host, EscapedPath(u));
    AssembledClean(u.scheme, Middle(u), tail);
    AssembledParts(u.scheme, Middle(u), tail);
    ParseRestBack(u);
    ParseAssembled(Print(u), |u.scheme|, Middle(u), tail, Reparsed(u));
  }

  lemma ParseAssembled(s: Str, end: nat, rest: Str, tail: Tail, u: Url)
    requires Clean(s) && ScanScheme(s, 0) == SchemeEnds(end)
    requires CutQuery(s[end + 1..]) == (rest, tail)
    requires ParseRest(ToLower(s[..end]), rest, tail) == Some(u)
    ensures Parse(s) == Some(u)
  {
    IndexOfUnique(s, HASH, |s|);
    assert s[..|s|] == s;
  }

  lemma MiddleClean(host: Str, path: Str)
    requires Plain(host) && Clean(path) && QUESTION !in path
    ensures var rest := [SLASH, SLASH] + host + path; Clean(rest) && QUESTION !in rest
  {
  }

  lemma AssembledClean(scheme: Str, rest: Str, tail: Tail)
    requires scheme == HTTP || scheme == HTTPS
    requires Clean(rest) && Clean(tail.rawQuery)
    ensures Clean(Assembled(scheme, rest, tail))
  {
  }

  lemma AssembledParts(scheme: Str, rest: Str, tail: Tail)
    requires scheme == HTTP || scheme == HTTPS
    requires QUESTION !in rest && (tail.forceQuery ==> tail.rawQuery == [])
    ensures var s, end := Assembled(scheme, rest, tail), |scheme|;
            ScanScheme(s, 0) == SchemeEnds(end) && ToLower(s[..end]) == scheme && CutQuery(s[end + 1..]) == (rest, tail)
  {
    var s, end := Assembled(scheme, rest, tail), |scheme|;
    assert s[..end] == scheme;
    ScanLetters(s, 0, end);
    assert s[end + 1..] == rest + TailText(tail);
    CutTail(rest, tail);
  }

  lemma PrintIsClean(u: Url)
    requires WellParsed(u)
    ensures Clean(Print(u))
  {
    PrintAssembles(u);
    PrintedPath(u);
    MiddleClean(u.host, EscapedPath(u));
    AssembledClean(u.scheme, Middle(u), TailOf(u));
  }

  lemma PrintReparsed(u: Url)
    requires PathParsed(u)
    ensures Print(Reparsed(u)) == Print(u)
  {
    PrintedPath(u);
  }

  // ------- The results -------

  /** The URL whose printed form is the normal form of `raw`. */
  ghost function NormalUrl(ip: IpParser, raw: Str): Url
    requires Normalized(ip, raw).Some?
  {
    Parse(WithScheme(raw)).value.(fragment := [])
  }

  lemma WebIsLower(scheme: Str)
    requires Web(scheme)
    ensures ToLower(scheme) == scheme
  {
  }

  /** Validation looks at nothing but the scheme, the opaque part, the user and the host. */
  lemma SameVerdict(ip: IpParser, u: Url, v: Url)
    requires ValidUrl(ip, u)
    requires v.scheme == u.scheme && v.opaquePart == u.opaquePart && v.hasUser == u.hasUser && v.host == u.host
    ensures ValidUrl(ip, v)
  {
    assert NameOf(v) == NameOf(u);
  }

  lemma NormalUrlFacts(ip: IpParser, raw: Str)
    requires Normalized(ip, raw).Some?
    ensures WellParsed(NormalUrl(ip, raw)) && ValidUrl(ip, NormalUrl(ip, raw))
    ensures Normalized(ip, raw) == Some(Print(NormalUrl(ip, raw)))
  {
    var u := Parse(WithScheme(raw)).value;
    ParsedIsWellParsed(ip, WithScheme(raw), u);
    WebIsLower(u.scheme);
    SameVerdict(ip, u, NormalUrl(ip, raw));
    assert u.(scheme := u.scheme, fragment := []) == NormalUrl(ip, raw);
  }

  /** A short text with a scheme that parses to a fragment-free web URL normalises to its printed form. */
  lemma NormalizedAs(ip: IpParser, text: Str, u: Url)
    requires RuneCount(text) <= MAX_RUNES && HasSeparator(text)
    requires Parse(text) == Some(u) && ValidUrl(ip, u) && u.fragment == []
    ensures Normalized(ip, text) == Some(Print(u))
  {
    WebIsLower(u.scheme);
    assert u.(scheme := u.scheme, fragment := []) == u;
  }

  /** Both texts parse, and to the same URL, except that `text` has no fragment and its path may be
      written in another way. */
  predicate KeepsMeaning(raw: Str, text: Str) {
    var u, v := Parse(WithScheme(raw)), Parse(text);
    u.Some? && v.Some? && v.value == u.value.(fragment := [], rawPath := v.value.rawPath)
  }

  /** Normalising changes no meaning: the normal form names the same host, port, decoded path and
      query as the text it came from, and it has lost nothing but the fragment. */
  lemma NormalFormKeepsMeaning(ip: IpParser, raw: Str)
    requires Normalized(ip, raw).Some?
    ensures KeepsMeaning(raw, Normalized(ip, raw).value)
    ensures Clean(Normalized(ip, raw).value)
  {
    NormalUrlFacts(ip, raw);
    ParsePrint(NormalUrl(ip, raw));
    PrintIsClean(NormalUrl(ip, raw));
  }

  /** A normal form normalises to itself if, and only if, it is at most 2000 runes long; a longer
      one, which adding the scheme or encoding bytes can produce, is refused. */
  lemma NormalizationIdempotent(ip: IpParser, raw: Str)
    requires Normalized(ip, raw).Some?
    ensures var y := Normalized(ip, raw).value;
            Normalized(ip, y) == if RuneCount(y) <= MAX_RUNES then Some(y) else None
  {
    var u, y := NormalUrl(ip, raw), Normalized(ip, raw).value;
    NormalUrlFacts(ip, raw);
    ParsePrint(u);
    PrintReparsed(u);
    PrintSeparates(u);
    SameVerdict(ip, u, Reparsed(u));
    if RuneCount(y) <= MAX_RUNES {
      NormalizedAs(ip, y, Reparsed(u));
    }
  }

  lemma PrintSeparates(u: Url)
    requires WellParsed(u)
    ensures HasSeparator(Print(u))
  {
    PrintAssembles(u);
    AssembledSeparates(u.scheme, Middle(u), TailOf(u));
  }

  lemma AssembledSeparates(scheme: Str, rest: Str, tail: Tail)
    requires HasAuthority(rest)
    ensures HasSeparator(Assembled(scheme, rest, tail))
  {
    var s, end := Assembled(scheme, rest, tail), |scheme|;
    assert s[end] == COLON && s[end + 1] == SLASH && s[end + 2] == SLASH;
  }

  // ------- The length condition is needed -------

  /** The letter a, a slash and 1998 more letters: 2000 runes, the longest text that is looked at. */
  predicate LongText(s: Str) {
    |s| == MAX_RUNES && s[1] == SLASH && forall i :: 0 <= i < |s| && i != 1 ==> s[i] == 0x61
  }

  const LETTER: Str := [0x61]

  function LongUrl(path: Str): Url {
    Url(HTTP, [], false, LETTER, path, [], false, [], [])
  }

  lemma {:induction false} LettersUnescaped(s: Str)
    requires forall i :: 0 <= i < |s| ==> s[i] == 0x61 || s[i] == SLASH
    ensures Escape(s, PathMode) == s
  {
    if s != [] {
      LettersUnescaped(s[1..]);
      assert s == [s[0]] + s[1..];
    }
  }

  lemma LetterIsHost()
    ensures HostName.ValidName(LETTER) && ParseHost(LETTER) == Some(LETTER) && Plain(LETTER)
  {
    PlainHost(LETTER);
    assert LETTER[1..] == [];
    assert HostName.Run(HostName.Inside(1, false), []) == HostName.Inside(1, false);
    HostName.HostNameIsAutomaton(LETTER);
  }

  lemma LongUrlParsed(ip: IpParser, path: Str)
    requires path != [] && path[0] == SLASH && forall i :: 0 <= i < |path| ==> path[i] == 0x61 || path[i] == SLASH
    ensures WellParsed(LongUrl(path)) && ValidUrl(ip, LongUrl(path))
    ensures Print(LongUrl(path)) == HTTP + SEPARATOR + (LETTER + path)
  {
    var u := LongUrl(path);
    LetterIsHost();
    LetterHostValid(ip, u);
    LettersUnescaped(path);
    assert EscapedPath(u) == path;
    PrintAssembles(u);
    SplitLongText(path);
  }

  lemma LetterHostValid(ip: IpParser, u: Url)
    requires u.scheme == HTTP && u.opaquePart == [] && !u.hasUser && u.host == LETTER
    ensures ValidUrl(ip, u)
  {
    LetterIsHost();
    assert NameOf(u) == LETTER;
  }

  lemma SplitLongText(path: Str)
    ensures Assembled(HTTP, [SLASH, SLASH] + LETTER + path, Tail(false, [])) == HTTP + SEPARATOR + (LETTER + path)
  {
  }

  lemma LongTextNormalized(ip: IpParser, raw: Str)
    requires LongText(raw)
    ensures Normalized(ip, raw) == Some(HTTP + SEPARATOR + raw)
  {
    AsciiRuneCount(raw);
    var u := LongTextParsed(ip, raw);
    SchemeAdded(ip, raw, u);
  }

  lemma LongTextParsed(ip: IpParser, raw: Str) returns (u: Url)
    requires LongText(raw)
    ensures Parse(HTTP + SEPARATOR + raw) == Some(u) && Print(u) == HTTP + SEPARATOR + raw
    ensures ValidUrl(ip, u) && u.fragment == []
  {
    var path := raw[1..];
    assert raw == LETTER + path;
    u := Reparsed(LongUrl(path));
    LongUrlParsed(ip, path);
    ParsePrint(LongUrl(path));
    PrintReparsed(LongUrl(path));
    SameVerdict(ip, LongUrl(path), u);
  }

  /** The length condition of NormalizationIdempotent is needed: such a text is accepted, and its
      normal form is refused. */
  lemma LongNormalFormRefused(ip: IpParser, raw: Str)
    requires LongText(raw)
    ensures Normalized(ip, raw) == Some(HTTP + SEPARATOR + raw)
    ensures Normalized(ip, HTTP + SEPARATOR + raw) == None
  {
    LongTextNormalized(ip, raw);
    LongerTextRefused(ip, raw);
  }

  lemma LongerTextRefused(ip: IpParser, raw: Str)
    requires LongText(raw)
    ensures Normalized(ip, HTTP + SEPARATOR + raw) == None
  {
    var text := HTTP + SEPARATOR + raw;
    assert IsAscii(text);
    TooLong(ip, text);
  }

  lemma TooLong(ip: IpParser, text: Str)
    requires |text| > MAX_RUNES && IsAscii(text)
    ensures Normalized(ip, text) == None
  {
    AsciiRuneCount(text);
  }

  /** A text without a scheme normalises as the same text behind "http://" parses. */
  lemma SchemeAdded(ip: IpParser, raw: Str, u: Url)
    requires RuneCount(raw) <= MAX_RUNES && COLON !in raw
    requires Parse(HTTP + SEPARATOR + raw) == Some(u) && ValidUrl(ip, u) && u.fragment == []
    ensures Normalized(ip, raw) == Some(Print(u))
  {
    WebIsLower(u.scheme);
    assert u.(scheme := u.scheme, fragment := []) == u;
  }
}
