/** The unpadded base64url encoding (section 5 of RFC 4648) of user IDs in access tokens. */
module Base64Url {
  import opened Primitives

  const UNDERSCORE: Byte := 0x5F

  function Symbol(n: nat): (c: Byte)
    requires n < 64
    ensures Value(c) == Some(n)
  {
    if n < 26 then 0x41 + n
    else if n < 52 then 0x61 + (n - 26)
    else if n < 62 then 0x30 + (n - 52)
    else if n == 62 then HYPHEN
    else UNDERSCORE
  }

  function Value(c: Byte): (n: Option<nat>)
    ensures n.Some? ==> n.value < 64
  {
    if 0x41 <= c <= 0x5A then Some(c - 0x41)
    else if 0x61 <= c <= 0x7A then Some(c - 0x61 + 26)
    else if 0x30 <= c <= 0x39 then Some(c - 0x30 + 52)
    else if c == HYPHEN then Some(62)
    else if c == UNDERSCORE then Some(63)
    else None
  }

  lemma SymbolOfValue(c: Byte)
    requires Value(c).Some?
    ensures Symbol(Value(c).value) == c
  {
  }

  /** The first symbol of a group, its second, third and fourth. */
  function Symbol1(a: Byte): Byte { Symbol(a / 4) }
  function Symbol2(a: Byte, b: Byte): Byte { Symbol(a % 4 * 16 + b / 16) }
  function Symbol3(b: Byte, c: Byte): Byte { Symbol(b % 16 * 4 + c / 64) }
  function Symbol4(c: Byte): Byte { Symbol(c % 64) }

  /** toBase64: RawURLEncoding.EncodeToString. */
  function Encode(s: Str): Str
    decreases |s|
  {
    if s == [] then []
    else if |s| == 1 then [Symbol1(s[0]), Symbol2(s[0], 0)]
    else if |s| == 2 then [Symbol1(s[0]), Symbol2(s[0], s[1]), Symbol3(s[1], 0)]
    else [Symbol1(s[0]), Symbol2(s[0], s[1]), Symbol3(s[1], s[2]), Symbol4(s[2])] + Encode(s[3..])
  }

  /** Line breaks are skipped wherever they stand. */
  function SkipBreaks(t: Str): Str {
    if t == [] then []
    else (if t[0] == 0x0A || t[0] == 0x0D then [] else [t[0]]) + SkipBreaks(t[1..])
  }

  predicate AllSymbols(t: Str) {
    forall i :: 0 <= i < |t| ==> Value(t[i]).Some?
  }

  /** The bytes of a group of two, three or four symbols; bits left over are dropped. */
  function Group(t: Str): Str
    requires 2 <= |t| <= 4 && AllSymbols(t)
  {
    var v, w := Value(t[0]).value, Value(t[1]).value;
    var a: Byte := v * 4 + w / 16;
    if |t| == 2 then [a]
    else
      var x := Value(t[2]).value;
      var b: Byte := w % 16 * 16 + x / 4;
      if |t| == 3 then [a, b] else [a, b, x % 4 * 64 + Value(t[3]).value]
  }

  function DecodeGroups(t: Str): Option<Str>
    decreases |t|
  {
    if t == [] then Some([])
    else if |t| == 1 then None
    else
      var k := if |t| >= 4 then 4 else |t|;
      if !AllSymbols(t[..k]) then None
      else
        match DecodeGroups(t[k..])
        case None => None
        case Some(rest) => Some(Group(t[..k]) + rest)
  }

  /** userIDfromBase64: RawURLEncoding.DecodeString. */
  function Decode(t: Str): Option<Str> {
    DecodeGroups(SkipBreaks(t))
  }

  // ------- Round trips -------

  /** Two neighbours share a number: high bits from the one, low bits from the other. */
  lemma SharedByte(hi: nat, lo: nat, k: nat)
    requires k == 4 || k == 16 || k == 64
    requires lo < k
    ensures (hi * k + lo) / k == hi && (hi * k + lo) % k == lo
  {
    if k == 4 {
    } else if k == 16 {
    }
  }

  lemma GroupOfOne(a: Byte)
    ensures Group([Symbol1(a), Symbol2(a, 0)]) == [a]
  {
    SharedByte(a % 4, 0, 16);
  }

  lemma GroupOfTwo(a: Byte, b: Byte)
    ensures Group([Symbol1(a), Symbol2(a, b), Symbol3(b, 0)]) == [a, b]
  {
    SharedByte(a % 4, b / 16, 16);
    SharedByte(b % 16, 0, 4);
  }

  lemma GroupOfThree(a: Byte, b: Byte, c: Byte)
    ensures Group([Symbol1(a), Symbol2(a, b), Symbol3(b, c), Symbol4(c)]) == [a, b, c]
  {
    SharedByte(a % 4, b / 16, 16);
    SharedByte(b % 16, c / 64, 4);
  }

  lemma SymbolsAreAscii(t: Str)
    requires AllSymbols(t)
    ensures forall i :: 0 <= i < |t| ==> t[i] < 0x80
  {
  }

  lemma Joined(g: Str, a: Str, b: Str)
    ensures g + (a + b) == (g + a) + b
  {
  }

  lemma CutJoined(s: Str, t: Str, k: nat)
    requires k <= |s|
    ensures (s + t)[..k] == s[..k] && (s + t)[k..] == s[k..] + t
  {
  }

  lemma AllSymbolsJoin(t: Str, u: Str)
    requires AllSymbols(t) && AllSymbols(u)
    ensures AllSymbols(t + u)
  {
  }

  lemma {:induction false} EncodedSymbols(s: Str)
    ensures AllSymbols(Encode(s))
    decreases |s|
  {
    if |s| == 1 {
      assert Encode(s) == [Symbol1(s[0]), Symbol2(s[0], 0)];
    } else if |s| == 2 {
      assert Encode(s) == [Symbol1(s[0]), Symbol2(s[0], s[1]), Symbol3(s[1], 0)];
    } else if |s| >= 3 {
      var head := [Symbol1(s[0]), Symbol2(s[0], s[1]), Symbol3(s[1], s[2]), Symbol4(s[2])];
      EncodedSymbols(s[3..]);
      AllSymbolsJoin(head, Encode(s[3..]));
      assert Encode(s) == head + Encode(s[3..]);
    }
  }

  lemma {:induction false} NothingSkipped(t: Str)
    requires AllSymbols(t)
    ensures SkipBreaks(t) == t
  {
    if t != [] {
      NothingSkipped(t[1..]);
      assert t == [t[0]] + t[1..];
    }
  }

  lemma {:induction false} GroupsRoundTrip(s: Str)
    ensures DecodeGroups(Encode(s)) == Some(s)
    decreases |s|
  {
    EncodedSymbols(s);
    var t := Encode(s);
    if |s| == 1 {
      GroupOfOne(s[0]);
      assert t[..2] == t && t[2..] == [];
      assert s == [s[0]] + [];
    } else if |s| == 2 {
      GroupOfTwo(s[0], s[1]);
      assert t[..3] == t && t[3..] == [];
      assert s == [s[0], s[1]] + [];
    } else if |s| >= 3 {
      GroupOfThree(s[0], s[1], s[2]);
      GroupsRoundTrip(s[3..]);
      assert t[..4] == [Symbol1(s[0]), Symbol2(s[0], s[1]), Symbol3(s[1], s[2]), Symbol4(s[2])];
      assert t[4..] == Encode(s[3..]);
      assert s == [s[0], s[1], s[2]] + s[3..];
    }
  }

  /** Every user ID comes back from its encoding. */
  lemma RoundTrip(s: Str)
    ensures Decode(Encode(s)) == Some(s)
  {
    EncodedSymbols(s);
    NothingSkipped(Encode(s));
    GroupsRoundTrip(s);
  }

  /** The text is one an encoder writes: symbols only, with no bits left over in the last group. */
  predicate Canonical(t: Str)
    decreases |t|
  {
    if |t| >= 4 then AllSymbols(t[..4]) && Canonical(t[4..])
    else if |t| == 3 then AllSymbols(t) && Value(t[2]).value % 4 == 0
    else if |t| == 2 then AllSymbols(t) && Value(t[1]).value % 16 == 0
    else t == []
  }

  lemma EncodedGroup(t: Str)
    requires 2 <= |t| <= 4 && AllSymbols(t) && Canonical(t)
    ensures Encode(Group(t)) == t
  {
    if |t| == 2 {
      PairGroup(t);
    } else if |t| == 3 {
      TripleGroup(t);
    } else {
      FullGroup(t);
    }
  }

  /** Three bytes made of four numbers, and the four numbers read off again. */
  lemma Regrouped(v: nat, w: nat, x: nat, y: nat)
    requires v < 64 && w < 64 && x < 64 && y < 64
    ensures var a, b, c := v * 4 + w / 16, w % 16 * 16 + x / 4, x % 4 * 64 + y;
            && a / 4 == v && a % 4 == w / 16
            && b / 16 == w % 16 && b % 16 == x / 4
            && c / 64 == x % 4 && c % 64 == y
  {
    SharedByte(v, w / 16, 4);
    SharedByte(w % 16, x / 4, 16);
    SharedByte(x % 4, y, 64);
  }

  lemma Halves(n: nat, k: nat)
    requires k == 4 || k == 16
    ensures n % k + n / k * k == n
  {
  }

  lemma PairGroup(t: Str)
    requires |t| == 2 && AllSymbols(t) && Value(t[1]).value % 16 == 0
    ensures Encode(Group(t)) == t
  {
    SymbolOfValue(t[0]);
    SymbolOfValue(t[1]);
    var v, w, a := Value(t[0]).value, Value(t[1]).value, Group(t)[0];
    Regrouped(v, w, 0, 0);
    Halves(w, 16);
    assert Symbol1(a) == t[0] && Symbol2(a, 0) == t[1];
  }

  lemma TripleGroup(t: Str)
    requires |t| == 3 && AllSymbols(t) && Value(t[2]).value % 4 == 0
    ensures Encode(Group(t)) == t
  {
    SymbolOfValue(t[0]);
    SymbolOfValue(t[1]);
    SymbolOfValue(t[2]);
    var v, w, x := Value(t[0]).value, Value(t[1]).value, Value(t[2]).value;
    var a, b := Group(t)[0], Group(t)[1];
    Regrouped(v, w, x, 0);
    Halves(w, 16);
    Halves(x, 4);
    assert a / 4 == v && a % 4 * 16 + b / 16 == w && b % 16 * 4 == x;
    assert Symbol1(a) == t[0] && Symbol2(a, b) == t[1] && Symbol3(b, 0) == t[2];
  }

  lemma FullGroup(t: Str)
    requires |t| == 4 && AllSymbols(t)
    ensures Encode(Group(t)) == t
  {
    SymbolOfValue(t[0]);
    SymbolOfValue(t[1]);
    SymbolOfValue(t[2]);
    SymbolOfValue(t[3]);
    var v, w, x, y := Value(t[0]).value, Value(t[1]).value, Value(t[2]).value, Value(t[3]).value;
    var g := Group(t);
    var a, b, c := g[0], g[1], g[2];
    Regrouped(v, w, x, y);
    Halves(w, 16);
    Halves(x, 4);
    assert a / 4 == v && a % 4 * 16 + b / 16 == w && b % 16 * 4 + c / 64 == x && c % 64 == y;
    assert g[3..] == [];
    assert Symbol1(a) == t[0] && Symbol2(a, b) == t[1] && Symbol3(b, c) == t[2] && Symbol4(c) == t[3];
  }

  /** The other direction: a text is the encoding of what it decodes to exactly when it is canonical,
      so two different texts for one user ID exist only outside the encoder's output. */
  lemma {:induction false} EncodeDecode(t: Str)
    ensures (exists s :: Encode(s) == t) <==> Canonical(t)
    ensures Canonical(t) ==> Decode(t).Some? && Encode(Decode(t).value) == t
    decreases |t|
  {
    if Canonical(t) {
      CanonicalSymbols(t);
      NothingSkipped(t);
      CanonicalDecodes(t);
    }
    if exists s :: Encode(s) == t {
      var s :| Encode(s) == t;
      EncodedCanonical(s);
    }
  }

  lemma {:induction false} CanonicalSymbols(t: Str)
    requires Canonical(t)
    ensures AllSymbols(t)
    decreases |t|
  {
    if |t| >= 4 {
      CanonicalSymbols(t[4..]);
      assert t == t[..4] + t[4..];
    }
  }

  lemma {:induction false} CanonicalDecodes(t: Str)
    requires Canonical(t)
    ensures DecodeGroups(t).Some? && Encode(DecodeGroups(t).value) == t
    decreases |t|
  {
    if |t| >= 4 {
      CanonicalDecodes(t[4..]);
      assert t[..4][4..] == [];
      EncodedGroup(t[..4]);
      var g, rest := Group(t[..4]), DecodeGroups(t[4..]).value;
      assert (g + rest)[3..] == rest;
      assert Encode(g + rest) == Encode(g)[..4] + Encode(rest);
    } else if |t| >= 2 {
      assert t[..|t|] == t && t[|t|..] == [];
      EncodedGroup(t);
      assert Group(t) + [] == Group(t);
    }
  }

  lemma {:induction false} EncodedCanonical(s: Str)
    ensures Canonical(Encode(s))
    decreases |s|
  {
    EncodedSymbols(s);
    if |s| == 1 {
      SharedByte(s[0] % 4, 0, 16);
    } else if |s| == 2 {
      SharedByte(s[1] % 16, 0, 4);
    } else if |s| >= 3 {
      EncodedCanonical(s[3..]);
      assert Encode(s)[4..] == Encode(s[3..]);
    }
  }

  // ------- The alphabet and the numbers (section 5 of RFC 4648) -------

  lemma Alphabet(n: nat)
    requires n < 64
    ensures Symbol(n) ==
            if n < 26 then 'A' as int + n
            else if n < 52 then 'a' as int + n - 26
            else if n < 62 then '0' as int + n - 52
            else if n == 62 then '-' as int else '_' as int
  {
  }

  /** The number that the symbols of a group write in base 64. */
  function Number(t: Str): nat
    requires AllSymbols(t)
  {
    if t == [] then 0 else Number(t[..|t| - 1]) * 64 + Value(t[|t| - 1]).value
  }

  lemma NumberOf(t: Str)
    requires AllSymbols(t)
    ensures |t| == 2 ==> Number(t) == Value(t[0]).value * 64 + Value(t[1]).value
    ensures |t| == 3 ==> Number(t) == Value(t[0]).value * 4096 + Value(t[1]).value * 64 + Value(t[2]).value
    ensures |t| == 4 ==>
              Number(t) == Value(t[0]).value * 262144 + Value(t[1]).value * 4096 + Value(t[2]).value * 64 + Value(t[3]).value
  {
    if |t| == 4 {
      NumberOf(t[..3]);
    } else if |t| == 3 {
      NumberOf(t[..2]);
    } else if |t| == 2 {
      assert t[..1][..0] == [] && Number(t[..1]) == Value(t[0]).value;
    }
  }

  /** One byte is two symbols, two bytes are three and three bytes are four; read in base 64 they are
      the number that the bytes are in base 256, with zero bits behind it to fill the last symbol. */
  lemma GroupEncoded(a: Byte, b: Byte, c: Byte)
    ensures var t := Encode([a]); |t| == 2 && AllSymbols(t) && Number(t) == a * 16
    ensures var t := Encode([a, b]); |t| == 3 && AllSymbols(t) && Number(t) == (a as int * 256 + b) * 4
    ensures var t := Encode([a, b, c]); |t| == 4 && AllSymbols(t) && Number(t) == a as int * 65536 + b as int * 256 + c
  {
    EncodedSymbols([a]);
    EncodedSymbols([a, b]);
    EncodedSymbols([a, b, c]);
    assert [a, b, c][3..] == [];
    assert Encode([a, b, c]) == [Symbol1(a), Symbol2(a, b), Symbol3(b, c), Symbol4(c)];
    NumberOf(Encode([a]));
    NumberOf(Encode([a, b]));
    NumberOf(Encode([a, b, c]));
  }

  /** Groups of three bytes are encoded one after another. */
  lemma {:induction false} EncodeConcat(s: Str, t: Str)
    requires |s| % 3 == 0
    ensures Encode(s + t) == Encode(s) + Encode(t)
    decreases |s|
  {
    if s == [] {
      assert s + t == t;
    } else {
      EncodeConcat(s[3..], t);
      CutJoined(s, t, 3);
      var head := [Symbol1(s[0]), Symbol2(s[0], s[1]), Symbol3(s[1], s[2]), Symbol4(s[2])];
      Joined(head, Encode(s[3..]), Encode(t));
    }
  }

  // ------- What decoding accepts -------

  lemma {:induction false} SkipConcat(s: Str, t: Str)
    ensures SkipBreaks(s + t) == SkipBreaks(s) + SkipBreaks(t)
  {
    if s == [] {
      assert s + t == t;
    } else {
      CutJoined(s, t, 1);
      SkipConcat(s[1..], t);
      Joined(if s[0] == 0x0A || s[0] == 0x0D then [] else [s[0]], SkipBreaks(s[1..]), SkipBreaks(t));
    }
  }

  /** A line feed or a carriage return changes nothing, wherever it stands. */
  lemma BreaksSkipped(s: Str, t: Str, c: Byte)
    requires c == '\n' as int || c == '\r' as int
    ensures Decode(s + ([c] + t)) == Decode(s + t)
  {
    SkipConcat(s, [c] + t);
    SkipConcat(s, t);
    assert ([c] + t)[1..] == t;
    assert SkipBreaks([c] + t) == SkipBreaks(t);
  }

  /** Decoding fails exactly on a byte outside the alphabet and on a single symbol left over. */
  lemma {:induction false} DecodeDefined(t: Str)
    ensures DecodeGroups(t).Some? <==> AllSymbols(t) && |t| % 4 != 1
    decreases |t|
  {
    if |t| >= 2 {
      var k := if |t| >= 4 then 4 else |t|;
      DecodeDefined(t[k..]);
      assert t == t[..k] + t[k..];
    }
  }

  /** The bits that a short group has too many are dropped, whatever they are. */
  lemma GroupDecoded(t: Str)
    requires 2 <= |t| <= 4 && AllSymbols(t)
    ensures |t| == 2 ==> |Group(t)| == 1 && Group(t)[0] == Number(t) / 16
    ensures |t| == 3 ==> |Group(t)| == 2 && Group(t)[0] as int * 256 + Group(t)[1] == Number(t) / 4
    ensures |t| == 4 ==> |Group(t)| == 3 && Group(t)[0] as int * 65536 + Group(t)[1] as int * 256 + Group(t)[2] == Number(t)
  {
    NumberOf(t);
  }

  lemma DecodeStep(t: Str)
    requires |t| >= 4
    ensures var rest := DecodeGroups(t[4..]);
            DecodeGroups(t) == if AllSymbols(t[..4]) && rest.Some? then Some(Group(t[..4]) + rest.value) else None
  {
  }

  /** Groups of four symbols are decoded one after another. */
  lemma {:induction false} DecodeConcat(s: Str, t: Str)
    requires |s| % 4 == 0
    ensures var a, b, c := DecodeGroups(s), DecodeGroups(t), DecodeGroups(s + t);
            if a.Some? && b.Some? then c == Some(a.value + b.value) else c.None?
    decreases |s|
  {
    var b := DecodeGroups(t);
    if s == [] {
      assert s + t == t;
      if b.Some? {
        assert [] + b.value == b.value;
      }
    } else {
      var a := DecodeGroups(s[4..]);
      DecodeConcat(s[4..], t);
      CutJoined(s, t, 4);
      DecodeStep(s);
      DecodeStep(s + t);
      if AllSymbols(s[..4]) && a.Some? && b.Some? {
        Joined(Group(s[..4]), a.value, b.value);
      }
    }
  }
}
