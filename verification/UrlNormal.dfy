/**
 URL normalisation: normalizeHTTP, urlIsValid and isIP, over a parser and a printer of absolute
 URLs (section 3 of RFC 3986) that take the same decisions as Go's net/url.
 */
module UrlNormal {
  import opened Primitives
  import opened Utf8
  import opened PercentEncoding
  import HostName

  const HASH: Byte := 0x23
  const SLASH: Byte := 0x2F
  const COLON: Byte := 0x3A
  const QUESTION: Byte := 0x3F
  const AT: Byte := 0x40
  const OPEN: Byte := 0x5B
  const CLOSE: Byte := 0x5D
  const HTTP: Str := [0x68, 0x74, 0x74, 0x70]
  const HTTPS: Str := [0x68, 0x74, 0x74, 0x70, 0x73]
  const SEPARATOR: Str := [COLON, SLASH, SLASH]
  const MAX_RUNES: nat := 2000

  // ------- IP literals -------

  /** Digits, hexadecimal letters, dots and colons: all a textual IP address is made of. */
  predicate IpChar(c: Byte) {
    HexValue(c).Some? || c == 0x2E || c == COLON
  }

  ghost predicate IpAlphabet(f: Str -> bool) {
    forall s :: f(s) ==> s != [] && forall i :: 0 <= i < |s| ==> IpChar(s[i])
  }

  /** net.ParseIP, of which only the alphabet of what it accepts is assumed. */
  type IpParser = f: Str -> bool | IpAlphabet(f) witness (s: Str) => false

  predicate IsIp(ip: IpParser, s: Str) {
    if COLON in s && s[0] == OPEN && s[|s| - 1] == CLOSE then ip(s[1..|s| - 1]) else ip(s)
  }

  // ------- Parsing -------

  datatype Url = Url(scheme: Str, opaquePart: Str, hasUser: bool, host: Str, path: Str, rawPath: Str,
                     forceQuery: bool, rawQuery: Str, fragment: Str)

  /** How the text up to the first colon reads: an error, no scheme, or a scheme of `end` bytes. */
  datatype SchemeScan = BadScheme | NoScheme | SchemeEnds(end: nat)

  predicate Letter(c: Byte) {
    0x61 <= c <= 0x7A || 0x41 <= c <= 0x5A
  }

  function ScanScheme(s: Str, i: nat): (r: SchemeScan)
    requires i <= |s|
    ensures r.SchemeEnds? ==> r.end < |s| && s[r.end] == COLON
    decreases |s| - i
  {
    if i == |s| then NoScheme
    else if Letter(s[i]) then ScanScheme(s, i + 1)
    else if 0x30 <= s[i] <= 0x39 || s[i] == 0x2B || s[i] == 0x2D || s[i] == 0x2E then
      if i == 0 then NoScheme else ScanScheme(s, i + 1)
    else if s[i] == COLON then
      if i == 0 then BadScheme else SchemeEnds(i)
    else NoScheme
  }

  function Lower(c: Byte): Byte {
    if 0x41 <= c <= 0x5A then c + 32 else c
  }

  /** strings.ToLower on the ASCII text of a scheme. */
  function ToLower(s: Str): (t: Str)
    ensures |t| == |s|
  {
    seq(|s|, i requires 0 <= i < |s| => Lower(s[i]))
  }

  predicate IsControl(c: Byte) {
    c < 0x20 || c == 0x7F
  }

  predicate HasControl(s: Str) {
    exists i :: 0 <= i < |s| && IsControl(s[i])
  }

  /** An empty string, or a colon and digits. */
  predicate ValidOptionalPort(s: Str) {
    s == [] || (s[0] == COLON && forall i :: 1 <= i < |s| ==> 0x30 <= s[i] <= 0x39)
  }

  /** The position of the first "%25" in `s`, or |s|. */
  function ZoneIndex(s: Str): (k: nat)
    ensures k <= |s|
    decreases |s|
  {
    if |s| < 3 then |s|
    else if s[..3] == [PERCENT, 0x32, 0x35] then 0
    else 1 + ZoneIndex(s[1..])
  }

  function Append(a: Option<Str>, b: Option<Str>): Option<Str> {
    if a.Some? && b.Some? then Some(a.value + b.value) else None
  }

  /** The host with its port: a bracketed literal, which may carry a zone, or anything else. */
  function ParseHost(s: Str): Option<Str> {
    if s != [] && s[0] == OPEN then
      match LastIndexOf(s, CLOSE)
      case None => None
      case Some(k) =>
        var zone := ZoneIndex(s[..k]);
        if !ValidOptionalPort(s[k + 1..]) then None
        else if zone < k then
          Append(Unescape(s[..zone], HostMode),
                 Append(Unescape(s[zone..k], ZoneMode), Unescape(s[k..], HostMode)))
        else Unescape(s, HostMode)
    else
      var colon := LastIndexOf(s, COLON);
      if colon.Some? && !ValidOptionalPort(s[colon.value..]) then None else Unescape(s, HostMode)
  }

  /** The bytes that may stand in an encoded path without being escaped. */
  predicate ValidEncoded(s: Str) {
    forall i :: 0 <= i < |s| ==>
      || s[i] == 0x21 || 0x24 <= s[i] <= 0x2C || s[i] == COLON || s[i] == 0x3B || s[i] == 0x3D || s[i] == AT
      || s[i] == OPEN || s[i] == CLOSE || !ShouldEscape(s[i], PathMode)
  }

  /** The text after the path: nothing, a bare question mark, or a query. */
  datatype Tail = Tail(forceQuery: bool, rawQuery: Str)

  /** A lone final question mark forces an empty query; otherwise the first one starts the query. */
  function CutQuery(s: Str): (Str, Tail) {
    var k := IndexOf(s, QUESTION);
    if k == |s| then (s, Tail(false, []))
    else if k == |s| - 1 then (s[..k], Tail(true, []))
    else (s[..k], Tail(false, s[k + 1..]))
  }

  predicate HasAuthority(rest: Str) {
    |rest| >= 2 && rest[0] == SLASH && rest[1] == SLASH
  }

  /** What stands between the two slashes and the path. */
  function Authority(rest: Str): Str {
    if HasAuthority(rest) then rest[2..2 + IndexOf(rest[2..], SLASH)] else []
  }

  function WrittenPath(rest: Str): Str {
    if HasAuthority(rest) then rest[2 + IndexOf(rest[2..], SLASH)..] else rest
  }

  /** URL.setPath: the written path is remembered when it is not the default encoding. */
  function SetPath(u: Url, written: Str): Option<Url> {
    match Unescape(written, PathMode)
    case None => None
    case Some(path) => Some(u.(path := path, rawPath := if written == Escape(path, PathMode) then [] else written))
  }

  /** Everything behind the scheme's colon, the query already cut off. */
  function ParseRest(scheme: Str, rest: Str, tail: Tail): Option<Url> {
    var base := Url(scheme, [], false, [], [], [], tail.forceQuery, tail.rawQuery, []);
    if rest == [] || rest[0] != SLASH then Some(base.(opaquePart := rest))
    else
      match LastIndexOf(Authority(rest), AT)
      case Some(_) => Some(base.(hasUser := true))
      case None =>
        match ParseHost(Authority(rest))
        case None => None
        case Some(host) => SetPath(base.(host := host), WrittenPath(rest))
  }

  /** url.Parse, up to URLs that urlIsValid refuses whatever else they hold: relative references
      parse to None, and an authority with user information is not looked into any further. */
  function Parse(s: Str): Option<Url> {
    var k := IndexOf(s, HASH);
    var t := s[..k];
    if HasControl(t) then None
    else
      match ScanScheme(t, 0)
      case BadScheme | NoScheme => None
      case SchemeEnds(end) =>
        var (rest, tail) := CutQuery(t[end + 1..]);
        match ParseRest(ToLower(t[..end]), rest, tail)
        case None => None
        case Some(u) =>
          if k >= |s| - 1 then Some(u)
          else
            match Unescape(s[k + 1..], FragmentMode)
            case None => None
            case Some(f) => Some(u.(fragment := f))
  }

  // ------- Printing -------

  /** URL.EscapedPath. */
  function EscapedPath(u: Url): Str {
    if u.rawPath != [] && ValidEncoded(u.rawPath) && Unescape(u.rawPath, PathMode) == Some(u.path) then u.rawPath
    else if u.path == [0x2A] then u.path
    else Escape(u.path, PathMode)
  }

  function TailOf(u: Url): Tail {
    Tail(u.forceQuery, u.rawQuery)
  }

  function TailText(tail: Tail): Str {
    if tail.forceQuery || tail.rawQuery != [] then [QUESTION] + tail.rawQuery else []
  }

  /** URL.String for a URL that has a scheme and neither user information nor a fragment. */
  function Print(u: Url): Str {
    var path := EscapedPath(u);
    if u.opaquePart != [] then u.scheme + [COLON] + u.opaquePart + TailText(TailOf(u))
    else
      u.scheme + [COLON]
      + (if u.host != [] || u.path != [] then [SLASH, SLASH] else [])
      + Escape(u.host, HostMode)
      + (if path != [] && path[0] != SLASH && u.host != [] then [SLASH] else [])
      + path + TailText(TailOf(u))
  }

  // ------- Validation and normalisation -------

  /** URL.Port. */
  function Port(host: Str): Str {
    var colon := LastIndexOf(host, COLON);
    if colon.Some? && ValidOptionalPort(host[colon.value..]) then host[colon.value + 1..] else []
  }

  /** strings.CutSuffix(s, suffix). */
  function CutSuffix(s: Str, suffix: Str): Str {
    if |suffix| <= |s| && s[|s| - |suffix|..] == suffix then s[..|s| - |suffix|] else s
  }

  /** The host as validation sees it: without its port, brackets kept. */
  function NameOf(u: Url): Str {
    CutSuffix(u.host, [COLON] + Port(u.host))
  }

  /** urlIsValid. */
  ghost predicate ValidUrl(ip: IpParser, u: Url) {
    && (u.scheme == HTTP || u.scheme == HTTPS)
    && u.opaquePart == []
    && !u.hasUser
    && (HostName.ValidName(NameOf(u)) || IsIp(ip, NameOf(u)))
  }

  predicate HasSeparator(s: Str) {
    exists i :: 0 <= i < |s| - 2 && s[i] == COLON && s[i + 1] == SLASH && s[i + 2] == SLASH
  }

  /** The text that gets parsed: a missing scheme is taken to be http. */
  function WithScheme(raw: Str): Str {
    if HasSeparator(raw) then raw else HTTP + SEPARATOR + raw
  }

  /** What normalizeHTTP returns for `raw`: the normal form, or nothing when `raw` is refused. */
  ghost function Normalized(ip: IpParser, raw: Str): Option<Str> {
    if RuneCount(raw) > MAX_RUNES then None
    else
      var u := Parse(WithScheme(raw));
      if u.Some? && ValidUrl(ip, u.value)
      then Some(Print(u.value.(scheme := ToLower(u.value.scheme), fragment := [])))
      else None
  }

  method UrlIsValid(ip: IpParser, u: Url) returns (ok: bool)
    ensures ok <==>
              && (u.scheme == Ascii("http") || u.scheme == Ascii("https")) && u.opaquePart == [] && !u.hasUser
              && (HostName.ValidName(NameOf(u)) || IsIp(ip, NameOf(u)))
    ensures ok <==> ValidUrl(ip, u)
  {
    assert Ascii("http") == HTTP && Ascii("https") == HTTPS;
    if u.scheme != HTTP && u.scheme != HTTPS {
      return false;
    }
    if u.opaquePart != [] {
      return false;
    }
    if u.hasUser {
      return false;
    }
    var hostname := CutSuffix(u.host, [COLON] + Port(u.host));
    var named := HostName.IsValidFqdn(hostname);
    return named || IsIp(ip, hostname);
  }
}
