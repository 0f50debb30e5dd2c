/**
 What normalizeHTTP accepts and what it returns, said of the text alone: a grammar that knows nothing
 of how the text is parsed, printed or validated.
 */
module UrlGrammar {
  import opened Primitives
  import opened Utf8
  import opened PercentEncoding
  import opened UrlNormal
  import opened UrlIdempotence
  import HostName

  // ------- The grammar -------

  datatype Pieces = Pieces(scheme: Str, host: Str, port: Str, path: Str, query: Str, fragment: Str)

  function Text(p: Pieces): Str {
    p.scheme + Ascii("://") + (p.host + p.port) + p.path + p.query + p.fragment
  }

  /** `s` is the lower-case word `w`, in any mixture of cases. */
  predicate EqualFold(s: Str, w: Str) {
    |s| == |w| && forall i :: 0 <= i < |s| ==> s[i] == w[i] || s[i] as int + 32 == w[i]
  }

  /** A host name; or an IP address, in brackets when it holds a colon, or followed by a port. */
  ghost predicate HostPart(ip: IpParser, host: Str, port: Str) {
    || HostName.ValidName(host)
    || (ip(host) && (':' as int in host ==> port != []))
    || (|host| >= 2 && host[0] == '[' as int && host[|host| - 1] == ']' as int
        && ':' as int in host && ip(host[1..|host| - 1]))
  }

  predicate PortPart(port: Str) {
    port == [] || (port[0] == ':' as int && forall i :: 1 <= i < |port| ==> '0' as int <= port[i] <= '9' as int)
  }

  /** No byte of `s` is `c`, nor a control byte. */
  predicate Without(s: Str, c: int) {
    forall i :: 0 <= i < |s| ==> s[i] != c && s[i] >= 0x20 && s[i] != 0x7F
  }

  predicate Hex(c: int) {
    '0' as int <= c <= '9' as int || 'a' as int <= c <= 'f' as int || 'A' as int <= c <= 'F' as int
  }

  /** Every percent sign is followed by two hexadecimal digits. */
  predicate WellEscaped(s: Str)
    decreases |s|
  {
    if s == [] then true
    else if s[0] == '%' as int then |s| >= 3 && Hex(s[1]) && Hex(s[2]) && WellEscaped(s[3..])
    else WellEscaped(s[1..])
  }

  predicate PathPart(path: Str) {
    && (path == [] || path[0] == '/' as int)
    && Without(path, '#' as int) && '?' as int !in path && WellEscaped(path)
  }

  predicate QueryPart(query: Str) {
    (query == [] || query[0] == '?' as int) && Without(query, '#' as int)
  }

  predicate FragmentPart(fragment: Str) {
    fragment == [] || (fragment[0] == '#' as int && WellEscaped(fragment[1..]))
  }

  ghost predicate UrlPieces(ip: IpParser, p: Pieces) {
    && (EqualFold(p.scheme, Ascii("http")) || EqualFold(p.scheme, Ascii("https")))
    && HostPart(ip, p.host, p.port) && PortPart(p.port)
    && PathPart(p.path) && QueryPart(p.query) && FragmentPart(p.fragment)
  }

  /** The bytes that a path may be written with: unreserved ones, and those with a use in paths. */
  predicate PathByte(c: int) {
    || 'a' as int <= c <= 'z' as int || 'A' as int <= c <= 'Z' as int || '0' as int <= c <= '9' as int
    || c == '-' as int || c == '.' as int || c == '_' as int || c == '~' as int
    || c == '!' as int || c == '$' as int || c == '%' as int || c == '&' as int || c == '\'' as int
    || c == '(' as int || c == ')' as int || c == '*' as int || c == '+' as int || c == ',' as int
    || c == '/' as int || c == ':' as int || c == ';' as int || c == '=' as int || c == '@' as int
    || c == '[' as int || c == ']' as int
  }

  /** A path of such bytes stays as it is written; any other is decoded and encoded anew. */
  function PathAgain(path: Str): Str
    requires WellEscaped(path)
  {
    if forall i :: 0 <= i < |path| ==> PathByte(path[i]) then path
    else
      EscapedDefined(path, PathMode);
      Escape(Unescape(path, PathMode).value, PathMode)
  }

  function Canonical(p: Pieces): Str
    requires WellEscaped(p.path)
  {
    Ascii(if |p.scheme| == 4 then "http" else "https") + Ascii("://") + (p.host + p.port) + PathAgain(p.path) + p.query
  }

  lemma {:induction false} EscapedDefined(s: Str, mode: Mode)
    requires mode.PathMode? || mode.FragmentMode?
    ensures Unescape(s, mode).Some? <==> WellEscaped(s)
    decreases |s|
  {
    if s != [] {
      if s[0] == PERCENT {
        if |s| >= 3 {
          EscapedDefined(s[3..], mode);
        }
      } else {
        EscapedDefined(s[1..], mode);
      }
    }
  }

  // ------- Words -------

  lemma Words()
    ensures Ascii("http") == HTTP && Ascii("https") == HTTPS && Ascii("://") == SEPARATOR
  {
  }

  lemma Folded(s: Str, w: Str)
    requires EqualFold(s, w) && (w == HTTP || w == HTTPS)
    ensures ToLower(s) == w && forall i :: 0 <= i < |s| ==> Letter(s[i])
  {
    forall i | 0 <= i < |s| ensures Letter(s[i]) && Lower(s[i]) == w[i] {
      assert 0x61 <= w[i] <= 0x7A;
    }
  }

  lemma Unfolded(s: Str)
    requires Web(ToLower(s))
    ensures EqualFold(s, ToLower(s))
  {
    var w := ToLower(s);
    forall i | 0 <= i < |s| ensures s[i] == w[i] || s[i] as int + 32 == w[i] {
      assert w[i] == Lower(s[i]);
    }
  }

  // ------- Hosts -------

  lemma NameParses(hp: Str)
    requires hp != [] && Plain(hp) && hp[0] != OPEN
    requires LastIndexOf(hp, COLON).Some? ==> ValidOptionalPort(hp[LastIndexOf(hp, COLON).value..])
    ensures ParseHost(hp) == Some(hp)
  {
    PlainHost(hp);
  }

  lemma NoZone(s: Str)
    requires Plain(s)
    ensures ZoneIndex(s) == |s|
  {
    ZoneStarts(s);
  }

  lemma BracketParses(hp: Str, k: nat)
    requires Plain(hp) && k < |hp| && hp[0] == OPEN && LastIndexOf(hp, CLOSE) == Some(k)
    requires ValidOptionalPort(hp[k + 1..])
    ensures ParseHost(hp) == Some(hp)
  {
    PlainHost(hp);
    NoZone(hp[..k]);
  }

  lemma LastAt(s: Str, b: Byte, k: nat)
    requires k < |s| && s[k] == b && forall i :: k < i < |s| ==> s[i] != b
    ensures LastIndexOf(s, b) == Some(k)
  {
    assert s[k] in s;
  }

  lemma PortStarts(host: Str, port: Str)
    requires PortPart(port) && port != []
    ensures LastIndexOf(host + port, COLON) == Some(|host|)
  {
    var hp := host + port;
    assert forall i :: |host| < i < |hp| ==> hp[i] == port[i - |host|];
    LastAt(hp, COLON, |host|);
  }

  lemma PortIsValid(port: Str)
    requires PortPart(port)
    ensures ValidOptionalPort(port)
  {
  }

  lemma HeadAndTail(s: Str, k: nat)
    requires k < |s|
    ensures s[k..] == [s[k]] + s[k + 1..]
  {
  }

  lemma PortRead(hp: Str, k: nat)
    requires LastIndexOf(hp, COLON) == Some(k) && k < |hp| && hp[k] == COLON && ValidOptionalPort(hp[k..])
    ensures [COLON] + Port(hp) == hp[k..]
  {
    assert Port(hp) == hp[k + 1..];
    HeadAndTail(hp, k);
  }

  /** The host and its port are told apart again. */
  lemma PortCut(host: Str, port: Str)
    requires PortPart(port) && port != []
    ensures var hp := host + port; CutSuffix(hp, [COLON] + Port(hp)) == host
  {
    var hp := host + port;
    assert hp[|host|..] == port;
    PortStarts(host, port);
    PortIsValid(port);
    PortRead(hp, |host|);
    SuffixCut(host, port);
  }

  lemma SuffixCut(host: Str, suffix: Str)
    ensures CutSuffix(host + suffix, suffix) == host
  {
    var s := host + suffix;
    assert s[|host|..] == suffix && s[..|host|] == host;
  }

  lemma NoPort(host: Str)
    requires host != [] && host[|host| - 1] != COLON
    requires COLON in host ==> host[|host| - 1] == CLOSE
    ensures CutSuffix(host, [COLON] + Port(host)) == host
  {
    var colon := LastIndexOf(host, COLON);
    if colon.Some? {
      var tail := host[colon.value..];
      assert tail[|tail| - 1] == CLOSE;
    }
    assert Port(host) == [];
    assert host[|host| - 1..] == [host[|host| - 1]];
  }

  lemma HostAndPort(ip: IpParser, host: Str, port: Str)
    requires HostPart(ip, host, port) && PortPart(port)
    ensures HostParsed(host + port) && host != []
    ensures HostName.ValidName(host) || IsIp(ip, host)
    ensures CutSuffix(host + port, [COLON] + Port(host + port)) == host
  {
    if HostName.ValidName(host) {
      Unbracketed(ip, host, port);
    } else if ip(host) {
      Unbracketed(ip, host, port);
      IpIsIp(ip, host);
    } else {
      Bracketed(ip, host, port);
    }
  }

  lemma IpIsIp(ip: IpParser, host: Str)
    requires ip(host)
    ensures IsIp(ip, host)
  {
    assert forall i :: 0 <= i < |host| ==> IpChar(host[i]);
  }

  lemma Unbracketed(ip: IpParser, host: Str, port: Str)
    requires PortPart(port)
    requires HostName.ValidName(host) || (ip(host) && (COLON in host ==> port != []))
    ensures HostParsed(host + port) && host != []
    ensures CutSuffix(host + port, [COLON] + Port(host + port)) == host
  {
    UnbracketedBytes(ip, host);
    var hp := host + port;
    assert Plain(hp) && hp[0] == host[0] != OPEN;
    if port != [] {
      PortStarts(host, port);
      assert hp[|host|..] == port;
      PortCut(host, port);
    } else {
      assert hp == host && COLON !in host;
      NoPort(host);
    }
    NameParses(hp);
  }

  lemma NameBytes(ip: IpParser, host: Str)
    requires HostName.ValidName(host)
    ensures host != [] && Plain(host) && OPEN !in host && COLON !in host
  {
    NamePlain(ip, host);
    HostName.SplitCharacterises(host);
    HostName.NamesAreAscii(host);
  }

  lemma UnbracketedBytes(ip: IpParser, host: Str)
    requires HostName.ValidName(host) || ip(host)
    ensures host != [] && Plain(host) && host[0] != OPEN
    ensures HostName.ValidName(host) ==> COLON !in host
  {
    if HostName.ValidName(host) {
      NameBytes(ip, host);
    }
  }

  lemma Bracketed(ip: IpParser, host: Str, port: Str)
    requires PortPart(port) && |host| >= 2 && host[0] == OPEN && host[|host| - 1] == CLOSE
    requires COLON in host && ip(host[1..|host| - 1])
    ensures HostParsed(host + port) && IsIp(ip, host)
    ensures CutSuffix(host + port, [COLON] + Port(host + port)) == host
  {
    var hp := host + port;
    NamePlain(ip, host);
    assert Plain(hp);
    LastAt(hp, CLOSE, |host| - 1);
    assert hp[|host|..] == port;
    BracketParses(hp, |host| - 1);
    if port != [] {
      PortCut(host, port);
    } else {
      assert hp == host;
      NoPort(host);
    }
  }

  // ------- From the pieces to the normal form -------

  function QueryTail(query: Str): Tail
    requires QueryPart(query)
  {
    if query == [] then Tail(false, []) else Tail(query == [QUESTION], query[1..])
  }

  lemma QueryTailText(query: Str)
    requires QueryPart(query)
    ensures TailText(QueryTail(query)) == query && TailParsed(QueryTail(query))
  {
  }

  predicate Letters(s: Str) {
    s != [] && forall i :: 0 <= i < |s| ==> Letter(s[i])
  }

  lemma LetteredParts(scheme: Str, rest: Str, tail: Tail)
    requires Letters(scheme) && Clean(rest) && QUESTION !in rest && TailParsed(tail)
    ensures var s, end := Assembled(scheme, rest, tail), |scheme|;
            && Clean(s) && ScanScheme(s, 0) == SchemeEnds(end) && s[..end] == scheme
            && CutQuery(s[end + 1..]) == (rest, tail)
  {
    var s, end := Assembled(scheme, rest, tail), |scheme|;
    assert s[..end] == scheme;
    assert forall j :: 0 <= j < end ==> s[j] == scheme[j];
    ScanLetters(s, 0, end);
    assert s[end + 1..] == rest + TailText(tail);
    CutTail(rest, tail);
    LetteredClean(scheme, rest, tail);
  }

  lemma LetteredClean(scheme: Str, rest: Str, tail: Tail)
    requires Letters(scheme) && Clean(rest) && TailParsed(tail)
    ensures Clean(Assembled(scheme, rest, tail))
  {
  }

  lemma PathByteIs(path: Str)
    ensures ValidEncoded(path) <==> forall i :: 0 <= i < |path| ==> PathByte(path[i])
  {
  }

  /** The path as printing leaves it. */
  lemma PathPrinted(base: Url, path: Str)
    requires PathPart(path)
    ensures var v := SetPath(base, path); v.Some? && EscapedPath(v.value) == PathAgain(path) && PathParsed(v.value)
    ensures var v := SetPath(base, path).value; v == base.(path := v.path, rawPath := v.rawPath)
  {
    EscapedDefined(path, PathMode);
    PathByteIs(path);
    SetPathFacts(base, path, SetPath(base, path).value);
    PathHead(path, SetPath(base, path).value.path);
  }

  lemma PathHead(path: Str, decoded: Str)
    requires Unescape(path, PathMode) == Some(decoded) && (path == [] || path[0] == SLASH)
    ensures decoded != [0x2A] && (path != [] ==> decoded != [])
  {
    if path != [] {
      assert decoded[0] == SLASH;
    }
  }

  /** What the parser makes of the pieces, before the fragment is looked at. */
  ghost function BaseUrl(p: Pieces): Url
    requires QueryPart(p.query)
  {
    var tail := QueryTail(p.query);
    Url(ToLower(p.scheme), [], false, p.host + p.port, [], [], tail.forceQuery, tail.rawQuery, [])
  }

  ghost function PiecesUrl(p: Pieces): Url
    requires QueryPart(p.query) && PathPart(p.path)
  {
    PathPrinted(BaseUrl(p), p.path);
    SetPath(BaseUrl(p), p.path).value
  }

  lemma PiecesParse(p: Pieces)
    requires Letters(p.scheme) && HostParsed(p.host + p.port) && PathPart(p.path) && QueryPart(p.query)
    ensures var t := Text(p.(fragment := [])); Clean(t) && Parse(t) == Some(PiecesUrl(p))
  {
    var hp, tail := p.host + p.port, QueryTail(p.query);
    var rest := [SLASH, SLASH] + hp + p.path;
    QueryTailText(p.query);
    TextAssembled(p);
    MiddleClean(hp, p.path);
    BaseParses(p);
    LetteredParses(p.scheme, rest, tail, PiecesUrl(p));
  }

  lemma LetteredParses(scheme: Str, rest: Str, tail: Tail, u: Url)
    requires Letters(scheme) && Clean(rest) && QUESTION !in rest && TailParsed(tail)
    requires ParseRest(ToLower(scheme), rest, tail) == Some(u)
    ensures var t := Assembled(scheme, rest, tail); Clean(t) && Parse(t) == Some(u)
  {
    LetteredParts(scheme, rest, tail);
    ParseAssembled(Assembled(scheme, rest, tail), |scheme|, rest, tail, u);
  }

  lemma BaseParses(p: Pieces)
    requires HostParsed(p.host + p.port) && PathPart(p.path) && QueryPart(p.query)
    ensures ParseRest(ToLower(p.scheme), [SLASH, SLASH] + (p.host + p.port) + p.path, QueryTail(p.query)) == Some(PiecesUrl(p))
  {
    var tail := QueryTail(p.query);
    PathPrinted(BaseUrl(p), p.path);
    RestParsesAs(ToLower(p.scheme), p.host + p.port, p.path, tail, PiecesUrl(p));
  }

  lemma TextAssembled(p: Pieces)
    requires QueryPart(p.query)
    ensures Text(p.(fragment := [])) == Assembled(p.scheme, [SLASH, SLASH] + (p.host + p.port) + p.path, QueryTail(p.query))
  {
    QueryTailText(p.query);
    Words();
    Regroup(p.scheme, p.host + p.port, p.path, p.query);
  }

  lemma Regroup(scheme: Str, hp: Str, path: Str, query: Str)
    ensures scheme + SEPARATOR + hp + path + query + [] == scheme + [COLON] + ([SLASH, SLASH] + hp + path) + query
  {
    assert scheme + SEPARATOR == scheme + [COLON] + [SLASH, SLASH];
    assert scheme + [COLON] + ([SLASH, SLASH] + hp + path) == scheme + [COLON] + [SLASH, SLASH] + hp + path;
  }

  lemma HashFound(t: Str, fragment: Str)
    requires Clean(t) && fragment != [] && fragment[0] == HASH
    ensures var s := t + fragment;
            IndexOf(s, HASH) == |t| && s[..|t|] == t && s[|t| + 1..] == fragment[1..] && IndexOf(t, HASH) == |t|
  {
    IndexOfUnique(t + fragment, HASH, |t|);
    IndexOfUnique(t, HASH, |t|);
  }

  lemma ParseUpToHash(s: Str, t: Str, u: Url)
    requires Parse(t) == Some(u) && u.fragment == [] && t[..|t|] == t && IndexOf(t, HASH) == |t|
    requires |t| < |s| && IndexOf(s, HASH) == |t| && s[..|t|] == t && WellEscaped(s[|t| + 1..])
    ensures Parse(s).Some? && Parse(s).value == u.(fragment := Parse(s).value.fragment)
  {
    EscapedDefined(s[|t| + 1..], FragmentMode);
  }

  lemma FragmentParses(t: Str, u: Url, fragment: Str)
    requires Clean(t) && Parse(t) == Some(u) && u.fragment == [] && FragmentPart(fragment)
    ensures var v := Parse(t + fragment); v.Some? && v.value == u.(fragment := v.value.fragment)
  {
    if fragment == [] {
      assert t + fragment == t;
    } else {
      HashFound(t, fragment);
      assert t[..|t|] == t;
      ParseUpToHash(t + fragment, t, u);
    }
  }

  lemma PiecesValid(ip: IpParser, p: Pieces, u: Url)
    requires UrlPieces(ip, p) && u.opaquePart == [] && !u.hasUser
    requires u.scheme == ToLower(p.scheme) && u.host == p.host + p.port
    ensures ValidUrl(ip, u)
  {
    Words();
    WebScheme(ip, p);
    HostAndPort(ip, p.host, p.port);
    assert NameOf(u) == p.host;
  }

  lemma WebScheme(ip: IpParser, p: Pieces)
    requires UrlPieces(ip, p)
    ensures Letters(p.scheme) && ToLower(p.scheme) == if |p.scheme| == 4 then HTTP else HTTPS
  {
    Words();
    Folded(p.scheme, if EqualFold(p.scheme, HTTP) then HTTP else HTTPS);
  }

  lemma PiecesPrinted(ip: IpParser, p: Pieces)
    requires UrlPieces(ip, p)
    ensures Print(PiecesUrl(p)) == Canonical(p)
  {
    var u := PiecesUrl(p);
    Words();
    WebScheme(ip, p);
    HostAndPort(ip, p.host, p.port);
    PathPrinted(BaseUrl(p), p.path);
    PrintAssembles(u);
    QueryTailText(p.query);
    Regroup(u.scheme, p.host + p.port, PathAgain(p.path), p.query);
  }

  /** Every text of the grammar is one that parsing and validating accept, whole. */
  lemma PiecesNormal(ip: IpParser, p: Pieces)
    requires UrlPieces(ip, p)
    ensures var v := Parse(Text(p));
            && v.Some? && ValidUrl(ip, v.value)
            && Print(v.value.(scheme := ToLower(v.value.scheme), fragment := [])) == Canonical(p)
  {
    WebScheme(ip, p);
    HostAndPort(ip, p.host, p.port);
    PiecesParse(p);
    var t, u := Text(p.(fragment := [])), PiecesUrl(p);
    PathPrinted(BaseUrl(p), p.path);
    FragmentParses(t, u, p.fragment);
    assert Text(p) == t + p.fragment by {
      assert t == p.scheme + Ascii("://") + (p.host + p.port) + p.path + p.query;
    }
    var v := Parse(Text(p)).value;
    PiecesValid(ip, p, v);
    WebIsLower(u.scheme);
    assert v.(scheme := ToLower(v.scheme), fragment := []) == u;
    PiecesPrinted(ip, p);
  }

  // ------- From what parses to its pieces -------

  lemma QueryWritten(s: Str)
    ensures var (rest, tail) := CutQuery(s);
            s == rest + TailText(tail) && QUESTION !in rest && (Clean(s) ==> Clean(rest) && QueryPart(TailText(tail)))
  {
    var k := IndexOf(s, QUESTION);
    if k < |s| {
      HeadAndTail(s, k);
      assert s == s[..k] + s[k..];
      if k == |s| - 1 {
        assert s[k + 1..] == [];
      }
    } else {
      assert s[..k] == s;
    }
  }

  /** What Parse has seen of a text that it accepts, up to the hash. */
  lemma ParseSeen(s: Str, u: Url) returns (t: Str, end: nat, rest: Str, tail: Tail, v: Url)
    requires Parse(s) == Some(u)
    ensures t == s[..IndexOf(s, HASH)] && !HasControl(t) && end < |t| && t[end] == COLON
    ensures (rest, tail) == CutQuery(t[end + 1..])
    ensures ParseRest(ToLower(t[..end]), rest, tail) == Some(v) && u == v.(fragment := u.fragment)
  {
    t := s[..IndexOf(s, HASH)];
    end := ScanScheme(t, 0).end;
    rest, tail := CutQuery(t[end + 1..]).0, CutQuery(t[end + 1..]).1;
    v := ParseRest(ToLower(t[..end]), rest, tail).value;
  }

  lemma UpToHash(s: Str, k: nat)
    requires k == IndexOf(s, HASH) && !HasControl(s[..k])
    ensures Clean(s[..k]) && forall i :: 0 <= i <= k ==> Clean(s[..k][i..])
  {
    var t := s[..k];
    assert forall i :: 0 <= i < k ==> t[i] == s[i] && !IsControl(t[i]);
  }

  lemma SchemePrefix(t: Str, end: nat)
    requires end < |t| && t[end] == COLON
    ensures t[..end] + [COLON] <= t && |t[..end]| == end
  {
  }

  lemma ParseFound(s: Str, u: Url) returns (t: Str, scheme: Str, rest: Str, tail: Tail, v: Url)
    requires Parse(s) == Some(u)
    ensures t == s[..IndexOf(s, HASH)] && scheme + [COLON] <= t && t[|scheme| + 1..] == rest + TailText(tail)
    ensures Clean(rest) && QUESTION !in rest && QueryPart(TailText(tail))
    ensures ParseRest(ToLower(scheme), rest, tail) == Some(v) && u == v.(fragment := u.fragment)
  {
    var end;
    t, end, rest, tail, v := ParseSeen(s, u);
    scheme := t[..end];
    SchemePrefix(t, end);
    UpToHash(s, IndexOf(s, HASH));
    QueryWritten(t[end + 1..]);
  }

  lemma FragmentFound(s: Str, u: Url)
    requires Parse(s) == Some(u)
    ensures FragmentPart(s[IndexOf(s, HASH)..])
  {
    var k := IndexOf(s, HASH);
    if k < |s| - 1 {
      assert Unescape(s[k + 1..], FragmentMode).Some?;
      EscapedDefined(s[k + 1..], FragmentMode);
      HeadAndTail(s, k);
    }
  }

  lemma Rejoin(t: Str, scheme: Str, rest: Str, query: Str)
    requires scheme + [COLON] <= t && t[|scheme| + 1..] == rest + query
    ensures t == scheme + [COLON] + rest + query
  {
    assert t == (scheme + [COLON]) + (rest + query);
  }

  lemma HashCut(s: Str)
    ensures s == s[..IndexOf(s, HASH)] + s[IndexOf(s, HASH)..]
  {
  }

  /** The text, cut where the parser cuts it. */
  lemma TextCut(s: Str, u: Url) returns (scheme: Str, rest: Str, tail: Tail, fragment: Str, v: Url)
    requires Parse(s) == Some(u)
    ensures s == Assembled(scheme, rest, tail) + fragment && FragmentPart(fragment)
    ensures Clean(rest) && QUESTION !in rest && QueryPart(TailText(tail))
    ensures ParseRest(ToLower(scheme), rest, tail) == Some(v) && u == v.(fragment := u.fragment)
  {
    var t;
    t, scheme, rest, tail, v := ParseFound(s, u);
    FragmentFound(s, u);
    fragment := s[IndexOf(s, HASH)..];
    Rejoin(t, scheme, rest, TailText(tail));
    HashCut(s);
  }

  /** The authority and the path behind it, as they stand in the text. */
  lemma RestWritten(scheme: Str, rest: Str, tail: Tail, v: Url)
    requires Clean(rest) && QUESTION !in rest && ParseRest(scheme, rest, tail) == Some(v)
    requires v.opaquePart == [] && !v.hasUser && v.host != [] && Plain(v.host)
    ensures v.scheme == scheme && ParseHost(v.host) == Some(v.host)
    ensures rest == [SLASH, SLASH] + v.host + WrittenPath(rest) && PathPart(WrittenPath(rest))
  {
    RestParsed(scheme, rest, tail, v);
    var written := WrittenPath(rest);
    assert ParseHost(Authority(rest)) == Some(v.host);
    PlainHostWritten(Authority(rest), v.host);
    assert HasAuthority(rest) && Authority(rest) == v.host;
    AuthorityAndPath(rest);
    WrittenPathClean(rest);
    assert Unescape(written, PathMode).Some?;
    EscapedDefined(written, PathMode);
  }

  lemma AuthorityAndPath(rest: Str)
    requires HasAuthority(rest)
    ensures rest == [SLASH, SLASH] + Authority(rest) + WrittenPath(rest)
  {
    var k := 2 + IndexOf(rest[2..], SLASH);
    assert rest == rest[..2] + rest[2..k] + rest[k..];
  }

  /** Every text that parses to a valid URL is one of the grammar. */
  lemma UrlTextPieces(ip: IpParser, s: Str, u: Url) returns (p: Pieces)
    requires Parse(s) == Some(u) && ValidUrl(ip, u)
    ensures UrlPieces(ip, p) && s == Text(p)
  {
    var scheme, rest, tail, fragment, v := TextCut(s, u);
    HostPlain(ip, u);
    p := RestPieces(ip, scheme, rest, tail, fragment, v);
  }

  lemma RestPieces(ip: IpParser, scheme: Str, rest: Str, tail: Tail, fragment: Str, v: Url) returns (p: Pieces)
    requires Clean(rest) && QUESTION !in rest && QueryPart(TailText(tail)) && FragmentPart(fragment)
    requires ParseRest(ToLower(scheme), rest, tail) == Some(v)
    requires v.opaquePart == [] && !v.hasUser && v.host != [] && Plain(v.host)
    requires Web(v.scheme) && (HostName.ValidName(NameOf(v)) || IsIp(ip, NameOf(v)))
    ensures UrlPieces(ip, p) && Assembled(scheme, rest, tail) + fragment == Text(p)
  {
    RestWritten(ToLower(scheme), rest, tail, v);
    var path := WrittenPath(rest);
    var host, port := SplitHost(ip, v);
    p := Pieces(scheme, host, port, path, TailText(tail), fragment);
    PiecesWritten(p, rest, tail);
    Words();
    Unfolded(scheme);
  }

  lemma PiecesWritten(p: Pieces, rest: Str, tail: Tail)
    requires rest == [SLASH, SLASH] + (p.host + p.port) + p.path && p.query == TailText(tail)
    ensures Assembled(p.scheme, rest, tail) + p.fragment == Text(p)
  {
    Words();
    Regroup(p.scheme, p.host + p.port, p.path, p.query);
    assert p.scheme + SEPARATOR + (p.host + p.port) + p.path + p.query + [] == p.scheme + SEPARATOR + (p.host + p.port) + p.path + p.query;
  }

  /** The host of a valid URL, told apart from its port. */
  lemma SplitHost(ip: IpParser, u: Url) returns (host: Str, port: Str)
    requires HostName.ValidName(NameOf(u)) || IsIp(ip, NameOf(u))
    requires ParseHost(u.host) == Some(u.host)
    ensures u.host == host + port && HostPart(ip, host, port) && PortPart(port)
  {
    host := NameOf(u);
    port := u.host[|host|..];
    PortWritten(u.host);
    NameIsHostPart(ip, host, port, u.host);
  }

  lemma PortWritten(hp: Str)
    ensures var host := CutSuffix(hp, [COLON] + Port(hp)); host <= hp && PortPart(hp[|host|..])
  {
    PortDigitsOnly(hp);
    var suffix := [COLON] + Port(hp);
    if |suffix| <= |hp| && hp[|hp| - |suffix|..] == suffix {
      assert PortPart(suffix);
    }
  }

  lemma PortDigitsOnly(hp: Str)
    ensures forall i :: 0 <= i < |Port(hp)| ==> '0' as int <= Port(hp)[i] <= '9' as int
  {
    var colon := LastIndexOf(hp, COLON);
    if colon.Some? && ValidOptionalPort(hp[colon.value..]) {
      var port := hp[colon.value..];
      assert Port(hp) == port[1..];
    }
  }

  /** A colon outside brackets starts a port. */
  lemma ColonStartsPort(hp: Str)
    requires COLON in hp && hp[0] != OPEN && ParseHost(hp).Some?
    ensures |CutSuffix(hp, [COLON] + Port(hp))| < |hp|
  {
    var k := LastIndexOf(hp, COLON).value;
    PortRead(hp, k);
  }

  lemma NameIsHostPart(ip: IpParser, host: Str, port: Str, hp: Str)
    requires host == CutSuffix(hp, [COLON] + Port(hp)) && hp == host + port && ParseHost(hp) == Some(hp)
    requires HostName.ValidName(host) || IsIp(ip, host)
    ensures HostPart(ip, host, port)
  {
    if COLON in host && hp[0] != OPEN {
      ColonStartsPort(hp);
    }
  }

  // ------- The result -------

  predicate HasScheme(raw: Str) {
    exists i :: 0 <= i < |raw| - 2 && raw[i] == ':' as int && raw[i + 1] == '/' as int && raw[i + 2] == '/' as int
  }

  /** The text with its scheme, which is http when it has none. */
  function FullText(raw: Str): Str {
    if HasScheme(raw) then raw else Ascii("http") + Ascii("://") + raw
  }

  lemma FullTextIs(raw: Str)
    ensures FullText(raw) == WithScheme(raw)
  {
    Words();
  }

  /** normalizeHTTP, exactly: it accepts a text of at most 2000 runes if, and only if, the text reads
      as a URL of the grammar, and returns that URL with its scheme in lower case, its path encoded
      anew if it must be, and without its fragment. */
  lemma NormalizedExactly(ip: IpParser, raw: Str, y: Str)
    ensures Normalized(ip, raw) == Some(y) <==>
            RuneCount(raw) <= 2000 && exists p :: UrlPieces(ip, p) && Text(p) == FullText(raw) && Canonical(p) == y
  {
    FullTextIs(raw);
    if Normalized(ip, raw) == Some(y) {
      var p := UrlTextPieces(ip, WithScheme(raw), Parse(WithScheme(raw)).value);
      PiecesNormal(ip, p);
      assert UrlPieces(ip, p) && Text(p) == FullText(raw) && Canonical(p) == y;
    }
    if RuneCount(raw) <= 2000 && exists p :: UrlPieces(ip, p) && Text(p) == FullText(raw) && Canonical(p) == y {
      var p :| UrlPieces(ip, p) && Text(p) == FullText(raw) && Canonical(p) == y;
      PiecesNormal(ip, p);
    }
  }

  // ------- What is refused -------

  lemma FirstColon(s1: Str, rest1: Str, s2: Str, rest2: Str)
    requires COLON !in s1 && COLON !in s2 && s1 + SEPARATOR + rest1 == s2 + SEPARATOR + rest2
    ensures s1 == s2 && rest1 == rest2
  {
    var text := s1 + SEPARATOR + rest1;
    IndexOfUnique(text, COLON, |s1|);
    IndexOfUnique(text, COLON, |s2|);
    assert s1 == text[..|s1|] && s2 == text[..|s2|];
    assert rest1 == text[|s1| + 3..] && rest2 == text[|s2| + 3..];
  }

  /** The scheme of a text of the grammar is what stands before its first colon. */
  lemma SchemeIsFirst(ip: IpParser, p: Pieces, s: Str, rest: Str)
    requires UrlPieces(ip, p) && ':' as int !in s && Text(p) == s + Ascii("://") + rest
    ensures p.scheme == s
    ensures (p.host + p.port) + p.path + p.query + p.fragment == rest
  {
    Words();
    WebScheme(ip, p);
    var behind := (p.host + p.port) + p.path + p.query + p.fragment;
    Regrouped(p.scheme + SEPARATOR, p.host + p.port, p.path, p.query, p.fragment);
    FirstColon(p.scheme, behind, s, rest);
  }

  lemma Regrouped(a: Str, b: Str, c: Str, d: Str, e: Str)
    ensures a + b + c + d + e == a + (b + c + d + e)
  {
  }

  /** A text with any scheme but http and https, in whatever case, is refused. */
  lemma OtherSchemesRefused(ip: IpParser, s: Str, rest: Str)
    requires ':' as int !in s && !EqualFold(s, Ascii("http")) && !EqualFold(s, Ascii("https"))
    ensures Normalized(ip, s + Ascii("://") + rest) == None
  {
    var raw := s + Ascii("://") + rest;
    Separated(s, rest);
    if Normalized(ip, raw).Some? {
      var y := Normalized(ip, raw).value;
      NormalizedExactly(ip, raw, y);
      var p :| UrlPieces(ip, p) && Text(p) == FullText(raw) && Canonical(p) == y;
      SchemeIsFirst(ip, p, s, rest);
      assert false;
    }
  }

  lemma Separated(s: Str, rest: Str)
    ensures HasScheme(s + Ascii("://") + rest)
  {
    Words();
    var raw, i := s + Ascii("://") + rest, |s|;
    assert raw[i] == COLON && raw[i + 1] == SLASH && raw[i + 2] == SLASH;
  }

  /** An authority with an at sign in it is refused, whatever else the text holds. */
  lemma UserInfoRefused(ip: IpParser, s: Str, authority: Str, rest: Str)
    requires ':' as int !in s && '@' as int in authority
    requires '/' as int !in authority && '?' as int !in authority && '#' as int !in authority
    ensures Normalized(ip, s + Ascii("://") + (authority + rest)) == None
  {
    var raw := s + Ascii("://") + (authority + rest);
    Separated(s, authority + rest);
    if Normalized(ip, raw).Some? {
      var y := Normalized(ip, raw).value;
      NormalizedExactly(ip, raw, y);
      var p :| UrlPieces(ip, p) && Text(p) == FullText(raw) && Canonical(p) == y;
      SchemeIsFirst(ip, p, s, authority + rest);
      HostAndPort(ip, p.host, p.port);
      AtNotInHost(p.host + p.port, p.path, p.query, p.fragment, authority, rest);
      assert false;
    }
  }

  /** Behind the host and its port stands nothing, or one of three delimiters. */
  lemma DelimiterBehind(hp: Str, path: Str, query: Str, fragment: Str)
    requires PathPart(path) && QueryPart(query) && FragmentPart(fragment)
    ensures var text := hp + path + query + fragment;
            && hp <= text
            && (|text| > |hp| ==> text[|hp|] == SLASH || text[|hp|] == QUESTION || text[|hp|] == HASH)
  {
    FirstByte(path, query, fragment);
    var behind := path + query + fragment;
    assert hp + path + query + fragment == hp + behind;
  }

  lemma FirstByte(a: Str, b: Str, c: Str)
    ensures var s := a + b + c; s != [] ==> s[0] == if a != [] then a[0] else if b != [] then b[0] else c[0]
  {
  }

  lemma AtNotInHost(hp: Str, path: Str, query: Str, fragment: Str, authority: Str, rest: Str)
    requires Plain(hp) && PathPart(path) && QueryPart(query) && FragmentPart(fragment)
    requires hp + path + query + fragment == authority + rest
    requires SLASH !in authority && QUESTION !in authority && HASH !in authority
    ensures AT !in authority
  {
    var text := authority + rest;
    DelimiterBehind(hp, path, query, fragment);
    assert forall i :: 0 <= i < |authority| ==> text[i] == authority[i];
    assert |authority| <= |hp|;
    assert authority == hp[..|authority|];
  }
}
