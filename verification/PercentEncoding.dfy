/** Percent-encoding (section 2.1 of RFC 3986) with the per-component rules of Go's net/url. */
module PercentEncoding {
  import opened Primitives

  const PERCENT: Byte := 0x25

  /** The component a byte belongs to: each leaves a different set of bytes as they are. */
  datatype Mode = HostMode | ZoneMode | PathMode | FragmentMode

  /** ! $ & ' ( ) * + , ; = : [ ] < > " may stand in a host. */
  predicate HostPunctuation(c: Byte) {
    c == 0x21 || c == 0x22 || c == 0x24 || 0x26 <= c <= 0x2C || 0x3A <= c <= 0x3E || c == 0x5B || c == 0x5D
  }

  /** $ & + , / : ; = ? @ */
  predicate Reserved(c: Byte) {
    c == 0x24 || c == 0x26 || c == 0x2B || c == 0x2C || c == 0x2F || c == 0x3A || c == 0x3B || c == 0x3D || c == 0x3F || c == 0x40
  }

  predicate ShouldEscape(c: Byte, mode: Mode) {
    if Alphanumeric(c) then false
    else if (mode.HostMode? || mode.ZoneMode?) && HostPunctuation(c) then false
    else if c == 0x2D || c == 0x2E || c == 0x5F || c == 0x7E then false
    else if Reserved(c) then
      match mode
      case PathMode => c == 0x3F
      case FragmentMode => false
      case _ => true
    else if mode.FragmentMode? && (c == 0x21 || 0x28 <= c <= 0x2A) then false
    else true
  }

  function HexDigit(n: nat): Byte
    requires n < 16
  {
    if n < 10 then 0x30 + n else 0x41 + (n - 10)
  }

  /** The value of a hexadecimal digit of either case. */
  function HexValue(c: Byte): (n: Option<nat>)
    ensures n.Some? ==> n.value < 16
  {
    if 0x30 <= c <= 0x39 then Some(c - 0x30)
    else if 0x41 <= c <= 0x46 then Some(c - 0x41 + 10)
    else if 0x61 <= c <= 0x66 then Some(c - 0x61 + 10)
    else None
  }

  function EscapeByte(c: Byte, mode: Mode): Str {
    if ShouldEscape(c, mode) then [PERCENT, HexDigit(c / 16), HexDigit(c % 16)] else [c]
  }

  function Escape(s: Str, mode: Mode): Str {
    if s == [] then [] else EscapeByte(s[0], mode) + Escape(s[1..], mode)
  }

  /** The byte that the triplet at the head of `s` stands for, if the component accepts it. */
  function Triplet(s: Str, mode: Mode): Option<Byte> {
    if |s| < 3 || HexValue(s[1]).None? || HexValue(s[2]).None? then None
    else
      var v := HexValue(s[1]).value * 16 + HexValue(s[2]).value;
      match mode
      case HostMode => if v < 0x80 && v != PERCENT then None else Some(v)
      case ZoneMode => if v != PERCENT && v != 0x20 && ShouldEscape(v, HostMode) then None else Some(v)
      case _ => Some(v)
  }

  function Unescape(s: Str, mode: Mode): Option<Str>
    decreases |s|
  {
    if s == [] then Some([])
    else if s[0] == PERCENT then
      match Triplet(s, mode)
      case None => None
      case Some(b) =>
        match Unescape(s[3..], mode)
        case None => None
        case Some(t) => Some([b] + t)
    else if (mode.HostMode? || mode.ZoneMode?) && s[0] < 0x80 && ShouldEscape(s[0], mode) then None
    else
      match Unescape(s[1..], mode)
      case None => None
      case Some(t) => Some([s[0]] + t)
  }

  lemma TripletOf(c: Byte, mode: Mode, rest: Str)
    requires mode.PathMode? || mode.FragmentMode?
    ensures Triplet([PERCENT, HexDigit(c / 16), HexDigit(c % 16)] + rest, mode) == Some(c)
  {
    assert HexValue(HexDigit(c / 16)) == Some(c / 16);
    assert HexValue(HexDigit(c % 16)) == Some(c % 16);
  }

  /** Decoding undoes encoding, for every byte string. */
  lemma {:induction false} UnescapeEscape(s: Str, mode: Mode)
    requires mode.PathMode? || mode.FragmentMode?
    ensures Unescape(Escape(s, mode), mode) == Some(s)
  {
    if s != [] {
      var e, t := EscapeByte(s[0], mode), Escape(s[1..], mode);
      UnescapeEscape(s[1..], mode);
      TripletOf(s[0], mode, t);
      assert (e + t)[|e|..] == t;
      assert s == [s[0]] + s[1..];
    }
  }

  /** Bytes no component rewrites pass through both directions. */
  lemma {:induction false} PlainHost(s: Str)
    requires forall i :: 0 <= i < |s| ==> !ShouldEscape(s[i], HostMode)
    ensures Escape(s, HostMode) == s && Unescape(s, HostMode) == Some(s)
  {
    if s != [] {
      PlainHost(s[1..]);
      assert s == [s[0]] + s[1..];
    }
  }

  /** When decoding a host yields neither a percent sign nor a byte above 0x7F, it changed nothing. */
  lemma {:induction false} UnescapedPlain(s: Str, t: Str)
    requires Unescape(s, HostMode) == Some(t)
    requires forall i :: 0 <= i < |t| ==> t[i] < 0x80 && t[i] != PERCENT
    ensures s == t
    decreases |s|
  {
    if s != [] {
      if s[0] == PERCENT {
        DecodedHead(s, t);
        assert false;
      } else {
        UnescapedPlain(s[1..], t[1..]);
        assert s == [s[0]] + s[1..];
      }
    }
  }

  lemma DecodedHead(s: Str, t: Str)
    requires s != [] && s[0] == PERCENT && Unescape(s, HostMode) == Some(t)
    ensures t != [] && (t[0] >= 0x80 || t[0] == PERCENT)
  {
    assert t[0] == Triplet(s, HostMode).value;
  }

  /** A byte the path encoder itself writes, or one it lets through. */
  predicate EscapedPathByte(c: Byte) {
    c == PERCENT || Alphanumeric(c) || !ShouldEscape(c, PathMode)
  }

  lemma {:induction false} EscapedPathBytes(s: Str)
    ensures forall i :: 0 <= i < |Escape(s, PathMode)| ==> EscapedPathByte(Escape(s, PathMode)[i])
    ensures s != [] && s[0] == 0x2F ==> Escape(s, PathMode) != [] && Escape(s, PathMode)[0] == 0x2F
    ensures s == [] <==> Escape(s, PathMode) == []
  {
    if s != [] {
      EscapedPathBytes(s[1..]);
    }
  }

  // ------- The tables -------

  /** What may stand unescaped: RFC 3986 calls letters, digits and - . _ ~ unreserved; each component
      lets some of the reserved bytes stand besides. */
  lemma Unescaped(c: Byte)
    ensures var unreserved := || 'a' as int <= c <= 'z' as int || 'A' as int <= c <= 'Z' as int || '0' as int <= c <= '9' as int
                              || c == '-' as int || c == '.' as int || c == '_' as int || c == '~' as int;
            var common := c == '$' as int || c == '&' as int || c == '+' as int || c == ',' as int
                          || c == ':' as int || c == ';' as int || c == '=' as int;
            var brackets := c == '!' as int || c == '(' as int || c == ')' as int || c == '*' as int;
            && (!ShouldEscape(c, PathMode) <==> unreserved || common || c == '/' as int || c == '@' as int)
            && (!ShouldEscape(c, FragmentMode) <==>
                  unreserved || common || brackets || c == '/' as int || c == '@' as int || c == '?' as int)
            && (!ShouldEscape(c, HostMode) <==>
                  || unreserved || common || brackets || c == '\'' as int || c == '"' as int
                  || c == '[' as int || c == ']' as int || c == '<' as int || c == '>' as int)
  {
  }

  /** Any other byte is written as a percent sign and two upper-case hexadecimal digits, high first. */
  lemma EscapedByte(c: Byte, mode: Mode)
    ensures EscapeByte(c, mode) ==
            if !ShouldEscape(c, mode) then [c]
            else ['%' as int,
                  if c / 16 < 10 then '0' as int + c / 16 else 'A' as int + c / 16 - 10,
                  if c % 16 < 10 then '0' as int + c % 16 else 'A' as int + c % 16 - 10]
  {
  }

  lemma Reassociate(a: Str, b: Str, c: Str)
    ensures a + (b + c) == (a + b) + c
  {
  }

  /** Encoding goes byte by byte. */
  lemma {:induction false} EscapeConcat(s: Str, t: Str, mode: Mode)
    ensures Escape(s + t, mode) == Escape(s, mode) + Escape(t, mode)
  {
    if s == [] {
      assert s + t == t;
    } else {
      var e, rest := EscapeByte(s[0], mode), Escape(s[1..], mode);
      EscapeConcat(s[1..], t, mode);
      assert (s + t)[1..] == s[1..] + t;
      Reassociate(e, rest, Escape(t, mode));
    }
  }

  /** Decoding reads hexadecimal digits of either case, high first. */
  lemma UnescapedTriplet(high: Byte, low: Byte, rest: Str, mode: Mode, h: nat, l: nat)
    requires mode.PathMode? || mode.FragmentMode?
    requires h < 16 && l < 16
    requires high == (if h < 10 then '0' as int + h else 'A' as int + h - 10) || (h >= 10 && high == 'a' as int + h - 10)
    requires low == (if l < 10 then '0' as int + l else 'A' as int + l - 10) || (l >= 10 && low == 'a' as int + l - 10)
    ensures Unescape(['%' as int, high, low] + rest, mode) ==
            match Unescape(rest, mode)
            case None => None
            case Some(t) => Some([h * 16 + l] + t)
  {
    var s := ['%' as int, high, low] + rest;
    assert s[3..] == rest;
  }
}
