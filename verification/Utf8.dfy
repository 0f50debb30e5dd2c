/** UTF-8 decoding as Go performs it: bad bytes decode, one at a time, to U+FFFD. */
module Utf8 {
  import opened Primitives

  const REPLACEMENT: int := 0xFFFD

  /** What a leading byte announces: the encoded length and the range allowed for the second byte. */
  datatype Lead = Lead(size: nat, lo: int, hi: int)

  function LeadOf(b: Byte): Lead {
    if b < 0x80 then Lead(1, 0, 0)
    else if b < 0xC2 then Lead(0, 0, 0)
    else if b < 0xE0 then Lead(2, 0x80, 0xBF)
    else if b == 0xE0 then Lead(3, 0xA0, 0xBF)
    else if b == 0xED then Lead(3, 0x80, 0x9F)
    else if b < 0xF0 then Lead(3, 0x80, 0xBF)
    else if b == 0xF0 then Lead(4, 0x90, 0xBF)
    else if b < 0xF4 then Lead(4, 0x80, 0xBF)
    else if b == 0xF4 then Lead(4, 0x80, 0x8F)
    else Lead(0, 0, 0)
  }

  predicate Continuation(b: Byte) {
    0x80 <= b <= 0xBF
  }

  /** Whether `s` starts with a complete, well-formed encoding of more than one byte. */
  predicate WellFormedHead(s: Str)
    requires s != []
  {
    var lead := LeadOf(s[0]);
    && 2 <= lead.size <= |s|
    && lead.lo <= s[1] <= lead.hi
    && (lead.size >= 3 ==> Continuation(s[2]))
    && (lead.size >= 4 ==> Continuation(s[3]))
  }

  /** The number of bytes the first rune of `s` takes. */
  function RuneSize(s: Str): (n: nat)
    requires s != []
    ensures 1 <= n <= |s|
    ensures s[0] < 0x80 ==> n == 1
  {
    if WellFormedHead(s) then LeadOf(s[0]).size else 1
  }

  /** The first rune of `s`. */
  function FirstRune(s: Str): (r: int)
    requires s != []
    ensures s[0] < 0x80 ==> r == s[0]
    ensures s[0] >= 0x80 ==> r >= 0x80
  {
    if s[0] < 0x80 then s[0]
    else if !WellFormedHead(s) then REPLACEMENT
    else
      var lead, b1 := s[0] as int, s[1] as int - 0x80;
      if LeadOf(s[0]).size == 2 then (lead - 0xC0) * 64 + b1
      else if LeadOf(s[0]).size == 3 then (lead - 0xE0) * 4096 + b1 * 64 + (s[2] as int - 0x80)
      else (lead - 0xF0) * 262144 + b1 * 4096 + (s[2] as int - 0x80) * 64 + (s[3] as int - 0x80)
  }

  /** utf8.RuneCountInString. */
  function RuneCount(s: Str): (n: nat)
    ensures n <= |s|
  {
    if s == [] then 0 else 1 + RuneCount(s[RuneSize(s)..])
  }

  predicate IsAscii(s: Str) {
    forall i :: 0 <= i < |s| ==> s[i] < 0x80
  }

  /** On ASCII text, and only there, counting runes is counting bytes with nothing above 0x7F. */
  lemma {:induction false} AsciiRuneCount(s: Str)
    requires IsAscii(s)
    ensures RuneCount(s) == |s|
  {
    if s != [] {
      AsciiRuneCount(s[1..]);
    }
  }

  // ------- What decoding undoes (section 3 of RFC 3629) -------

  predicate Scalar(r: int) {
    0 <= r <= 0xD7FF || 0xE000 <= r <= 0x10FFFF
  }

  /** The encoding of a Unicode scalar value. */
  function EncodeRune(r: int): (s: Str)
    requires Scalar(r)
    ensures 1 <= |s| <= 4
  {
    if r < 0x80 then [r]
    else if r < 0x800 then [0xC0 + r / 64, 0x80 + r % 64]
    else if r < 0x10000 then [0xE0 + r / 4096, 0x80 + r / 64 % 64, 0x80 + r % 64]
    else [0xF0 + r / 262144, 0x80 + r / 4096 % 64, 0x80 + r / 64 % 64, 0x80 + r % 64]
  }

  function EncodeRunes(rs: seq<int>): Str
    requires forall i :: 0 <= i < |rs| ==> Scalar(rs[i])
  {
    if rs == [] then [] else EncodeRune(rs[0]) + EncodeRunes(rs[1..])
  }

  /** `r` is written at the head of `s` in two, three or four bytes. */
  predicate TwoBytes(r: int, s: Str) {
    |s| >= 2 && 0x80 <= r < 0x800 && s[0] == 0xC0 + r / 64 && s[1] == 0x80 + r % 64
  }

  predicate ThreeBytes(r: int, s: Str) {
    && |s| >= 3 && Scalar(r) && 0x800 <= r < 0x10000
    && s[0] == 0xE0 + r / 4096 && s[1] == 0x80 + r / 64 % 64 && s[2] == 0x80 + r % 64
  }

  predicate FourBytes(r: int, s: Str) {
    && |s| >= 4 && 0x10000 <= r <= 0x10FFFF
    && s[0] == 0xF0 + r / 262144 && s[1] == 0x80 + r / 4096 % 64 && s[2] == 0x80 + r / 64 % 64 && s[3] == 0x80 + r % 64
  }

  lemma TwoDecoded(r: int, s: Str)
    requires TwoBytes(r, s)
    ensures FirstRune(s) == r && RuneSize(s) == 2
  {
  }

  lemma ThreeDecoded(r: int, s: Str)
    requires ThreeBytes(r, s)
    ensures FirstRune(s) == r && RuneSize(s) == 3
  {
    assert r == r / 4096 * 4096 + r / 64 % 64 * 64 + r % 64;
    assert WellFormedHead(s);
  }

  lemma FourDecoded(r: int, s: Str)
    requires FourBytes(r, s)
    ensures FirstRune(s) == r && RuneSize(s) == 4
  {
    Sixes(r);
    assert WellFormedHead(s);
  }

  lemma Sixes(r: int)
    requires 0x10000 <= r <= 0x10FFFF
    ensures r == r / 262144 * 262144 + r / 4096 % 64 * 4096 + r / 64 % 64 * 64 + r % 64
    ensures 0 <= r / 262144 <= 4
    ensures r / 262144 == 0 ==> r / 4096 % 64 >= 16
    ensures r / 262144 == 4 ==> r / 4096 % 64 <= 15
  {
    assert r / 4096 == r / 262144 * 64 + r / 4096 % 64;
    assert r / 64 == r / 4096 * 64 + r / 64 % 64;
  }

  lemma TwoWritten(s: Str)
    requires s != [] && s[0] >= 0x80 && RuneSize(s) == 2
    ensures TwoBytes(FirstRune(s), s)
  {
  }

  lemma ThreeWritten(s: Str)
    requires s != [] && s[0] >= 0x80 && RuneSize(s) == 3
    ensures ThreeBytes(FirstRune(s), s)
  {
    Split64(s[0] - 0xE0, s[1] - 0x80, s[2] - 0x80);
  }

  lemma FourWritten(s: Str)
    requires s != [] && s[0] >= 0x80 && RuneSize(s) == 4
    ensures FourBytes(FirstRune(s), s)
  {
    var high := (s[0] as int - 0xF0) * 64 + (s[1] as int - 0x80);
    Split64(high, s[2] - 0x80, s[3] - 0x80);
    assert high / 64 == s[0] - 0xF0 && high % 64 == s[1] - 0x80;
    assert FirstRune(s) / 262144 == FirstRune(s) / 4096 / 64;
  }

  lemma Split64(a: int, b: int, c: int)
    requires 0 <= a && 0 <= b < 64 && 0 <= c < 64
    ensures var r := a * 4096 + b * 64 + c; r / 4096 == a && r / 64 % 64 == b && r % 64 == c
  {
    var r := a * 4096 + b * 64 + c;
    assert r == (a * 64 + b) * 64 + c;
    assert r / 64 == a * 64 + b;
  }

  /** An encoded rune is decoded as it was, whatever follows. */
  lemma RuneDecoded(r: int, rest: Str)
    requires Scalar(r)
    ensures var s := EncodeRune(r) + rest; FirstRune(s) == r && RuneSize(s) == |EncodeRune(r)|
  {
    var s := EncodeRune(r) + rest;
    if 0x80 <= r < 0x800 {
      TwoDecoded(r, s);
    } else if 0x800 <= r < 0x10000 {
      ThreeDecoded(r, s);
    } else if 0x10000 <= r {
      FourDecoded(r, s);
    }
  }

  /** And nothing else is: what decodes as more than one byte is the encoding of its rune, and a byte
      that starts no encoding is replaced on its own. */
  lemma RuneWritten(s: Str)
    requires s != []
    ensures var n := RuneSize(s);
            if s[0] < 0x80 || n > 1 then Scalar(FirstRune(s)) && EncodeRune(FirstRune(s)) == s[..n]
            else FirstRune(s) == 0xFFFD && forall r :: Scalar(r) ==> !(EncodeRune(r) <= s)
  {
    if s[0] >= 0x80 && RuneSize(s) == 1 {
      forall r | Scalar(r) ensures !(EncodeRune(r) <= s) {
        NotEncoded(s, r);
      }
    } else if RuneSize(s) == 2 {
      TwoWritten(s);
    } else if RuneSize(s) == 3 {
      ThreeWritten(s);
    } else if RuneSize(s) == 4 {
      FourWritten(s);
    }
  }

  lemma NotEncoded(s: Str, r: int)
    requires s != [] && s[0] >= 0x80 && RuneSize(s) == 1 && Scalar(r)
    ensures !(EncodeRune(r) <= s)
  {
    var e := EncodeRune(r);
    if e <= s {
      assert s == e + s[|e|..];
      RuneDecoded(r, s[|e|..]);
    }
  }

  /** Text has as many runes as it was encoded from. */
  lemma {:induction false} RunesCounted(rs: seq<int>)
    requires forall i :: 0 <= i < |rs| ==> Scalar(rs[i])
    ensures RuneCount(EncodeRunes(rs)) == |rs|
  {
    if rs != [] {
      RuneDecoded(rs[0], EncodeRunes(rs[1..]));
      RunesCounted(rs[1..]);
      var s, n := EncodeRunes(rs), |EncodeRune(rs[0])|;
      assert s[n..] == EncodeRunes(rs[1..]);
    }
  }
}
