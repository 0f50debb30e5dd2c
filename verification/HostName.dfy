/** Host-name recognition: isValidFQDN, isValidFQDNLabel and isValidFQDNLabelChar. */
module HostName {
  import opened Primitives
  import opened Utf8

  const DOT: Byte := 0x2E
  const MAX_NAME: nat := 255
  const MAX_LABEL: nat := 63

  // ------- The grammar (sections 2.3.1 and 2.3.4 of RFC 1035, section 2.1 of RFC 1123) -------

  /** Letters, digits and the hyphen. */
  predicate LabelChar(r: int) {
    Alphanumeric(r) || r == HYPHEN
  }

  predicate LabelChars(l: Str) {
    forall i :: 0 <= i < |l| ==> LabelChar(l[i])
  }

  predicate Label(l: Str) {
    && 1 <= |l| <= MAX_LABEL
    && LabelChars(l)
    && l[0] != HYPHEN && l[|l| - 1] != HYPHEN
  }

  predicate Labels(ls: seq<Str>) {
    forall i :: 0 <= i < |ls| ==> Label(ls[i])
  }

  function Join(ls: seq<Str>): Str
    requires ls != []
  {
    if |ls| == 1 then ls[0] else ls[0] + [DOT] + Join(ls[1..])
  }

  /** strings.CutSuffix(s, "."). */
  function DropDot(s: Str): Str {
    if s != [] && s[|s| - 1] == DOT then s[..|s| - 1] else s
  }

  /** A name of the grammar: dot-joined labels, then at most one dot, in at most 255 runes. */
  ghost predicate ValidName(s: Str) {
    RuneCount(s) <= MAX_NAME && exists ls: seq<Str> :: ls != [] && Labels(ls) && DropDot(s) == Join(ls)
  }

  // ------- Splitting -------

  /** strings.Split(s, "."). */
  function Split(s: Str): (ls: seq<Str>)
    ensures ls != []
    decreases |s|
  {
    var k := IndexOf(s, DOT);
    if k == |s| then [s] else [s[..k]] + Split(s[k + 1..])
  }

  lemma JoinCons(l: Str, ls: seq<Str>)
    requires ls != []
    ensures Join([l] + ls) == l + [DOT] + Join(ls)
  {
    assert ([l] + ls)[1..] == ls;
  }

  lemma {:induction false} JoinSplit(s: Str)
    ensures Join(Split(s)) == s
    decreases |s|
  {
    var k := IndexOf(s, DOT);
    if k == |s| {
      assert Split(s) == [s];
    } else {
      var l, t := s[..k], s[k + 1..];
      JoinSplit(t);
      JoinCons(l, Split(t));
      Rejoined(s, k);
      assert Split(s) == [l] + Split(t);
    }
  }

  lemma Rejoined(s: Str, k: nat)
    requires k < |s| && s[k] == DOT
    ensures s[..k] + [DOT] + s[k + 1..] == s
  {
  }

  lemma SplitAt(s: Str, k: nat)
    requires k < |s| && s[k] == DOT && DOT !in s[..k]
    ensures Split(s) == [s[..k]] + Split(s[k + 1..])
  {
    assert forall i :: 0 <= i < k ==> s[i] == s[..k][i];
    IndexOfUnique(s, DOT, k);
  }

  lemma {:induction false} SplitJoin(ls: seq<Str>)
    requires ls != [] && forall i :: 0 <= i < |ls| ==> DOT !in ls[i]
    ensures Split(Join(ls)) == ls
  {
    var s := Join(ls);
    if |ls| == 1 {
      IndexOfUnique(s, DOT, |s|);
    } else {
      var k, rest := |ls[0]|, ls[1..];
      SplitJoin(rest);
      assert s[..k] == ls[0] && s[k + 1..] == Join(rest);
      SplitAt(s, k);
      assert ls == [ls[0]] + rest;
    }
  }

  lemma DotAppended(s: Str, k: nat)
    requires k <= |s|
    ensures var t := s + [DOT];
            t[..k] == s[..k] && t[k + 1..] == if k == |s| then [] else s[k + 1..] + [DOT]
  {
  }

  lemma {:induction false} SplitTrailingDot(s: Str)
    ensures Split(s + [DOT]) == Split(s) + [[]]
    decreases |s|
  {
    var t, k := s + [DOT], IndexOf(s, DOT);
    DotAppended(s, k);
    SplitAt(t, k);
    if k == |s| {
      assert s[..k] == s;
      SplitNothing();
    } else {
      var l, rest := s[..k], s[k + 1..];
      SplitTrailingDot(rest);
      assert Split(t) == [l] + (Split(rest) + [[]]) == ([l] + Split(rest)) + [[]];
      SplitAt(s, k);
    }
  }

  lemma SplitNothing()
    ensures Split([]) == [[]]
  {
    assert IndexOf([], DOT) == 0;
  }

  // ------- The recogniser -------

  /** isValidFQDNLabel: the range loop runs over runes, the length test over bytes. */
  method IsValidFqdnLabel(l: Str) returns (ok: bool)
    ensures ok <==>
              && 1 <= |l| <= 63 && l[0] != '-' as int && l[|l| - 1] != '-' as int
              && forall i :: 0 <= i < |l| ==>
                   || 'a' as int <= l[i] <= 'z' as int || 'A' as int <= l[i] <= 'Z' as int
                   || '0' as int <= l[i] <= '9' as int || l[i] == '-' as int
    ensures ok <==> Label(l)
  {
    if |l| == 0 || |l| > MAX_LABEL {
      return false;
    }
    var i := 0;
    while i < |l|
      invariant 0 <= i <= |l|
      invariant forall k :: 0 <= k < i ==> LabelChar(l[k])
    {
      var r := FirstRune(l[i..]);
      if !LabelChar(r) {
        assert !LabelChar(l[i]);
        return false;
      }
      i := i + RuneSize(l[i..]);
    }
    if l[0] == HYPHEN || l[|l| - 1] == HYPHEN {
      return false;
    }
    return true;
  }

  /** isValidFQDN. */
  method IsValidFqdn(s: Str) returns (ok: bool)
    ensures ok <==> RuneCount(s) <= 255 && exists ls: seq<Str> :: ls != [] && Labels(ls) && DropDot(s) == Join(ls)
  {
    if RuneCount(s) > MAX_NAME {
      return false;
    }
    var labels := Split(DropDot(s));
    SplitCharacterises(s);
    for i := 0 to |labels|
      invariant Labels(labels[..i])
    {
      var valid := IsValidFqdnLabel(labels[i]);
      if !valid {
        assert !Labels(labels);
        return false;
      }
      assert labels[..i + 1] == labels[..i] + [labels[i]];
    }
    assert labels[..|labels|] == labels;
    return true;
  }

  lemma SplitCharacterises(s: Str)
    ensures ValidName(s) <==> RuneCount(s) <= MAX_NAME && Labels(Split(DropDot(s)))
  {
    JoinSplit(DropDot(s));
    if ValidName(s) {
      var ls: seq<Str> :| ls != [] && Labels(ls) && DropDot(s) == Join(ls);
      SplitJoin(ls);
    }
  }

  // ------- A one-pass automaton for the same language -------

  /** Where the automaton stands: before any byte, inside a label, just past a dot, or lost. */
  datatype Scan = Start | Inside(length: nat, hyphen: bool) | AfterDot | Lost

  function Next(st: Scan, b: Byte): Scan {
    match st
    case Start | AfterDot => if Alphanumeric(b) then Inside(1, false) else Lost
    case Inside(n, hyphen) =>
      if b == DOT then (if hyphen then Lost else AfterDot)
      else if LabelChar(b) && n < MAX_LABEL then Inside(n + 1, b == HYPHEN)
      else Lost
    case Lost => Lost
  }

  function Run(st: Scan, s: Str): Scan
    decreases s
  {
    if s == [] then st else Run(Next(st, s[0]), s[1..])
  }

  predicate Accepting(st: Scan) {
    st.AfterDot? || (st.Inside? && !st.hyphen)
  }

  lemma {:induction false} RunAppend(st: Scan, s: Str, t: Str)
    ensures Run(st, s + t) == Run(Run(st, s), t)
    decreases s
  {
    if s == [] {
      assert s + t == t;
    } else {
      assert (s + t)[1..] == s[1..] + t;
      RunAppend(Next(st, s[0]), s[1..], t);
    }
  }

  lemma {:induction false} RunLost(s: Str)
    ensures Run(Lost, s) == Lost
  {
    if s != [] {
      RunLost(s[1..]);
    }
  }

  /** Within one label the automaton counts bytes and remembers whether the last was a hyphen. */
  lemma {:induction false} RunInside(n: nat, hyphen: bool, s: Str)
    requires DOT !in s && n <= MAX_LABEL
    ensures Run(Inside(n, hyphen), s) ==
            if n + |s| <= MAX_LABEL && LabelChars(s)
            then Inside(n + |s|, if s == [] then hyphen else s[|s| - 1] == HYPHEN)
            else Lost
    decreases s
  {
    if s != [] {
      if LabelChar(s[0]) && n < MAX_LABEL {
        RunInside(n + 1, s[0] == HYPHEN, s[1..]);
        AllChars(s);
      } else {
        RunLost(s[1..]);
      }
    }
  }

  lemma AllChars(l: Str)
    requires l != []
    ensures LabelChars(l) <==> LabelChar(l[0]) && LabelChars(l[1..])
  {
    assert l == [l[0]] + l[1..];
  }

  lemma RunLabel(st: Scan, l: Str)
    requires st.Start? || st.AfterDot?
    requires DOT !in l
    ensures Label(l) ==> Run(st, l) == Inside(|l|, false)
    ensures l != [] && !Label(l) ==> Run(st, l).Lost? || (Run(st, l).Inside? && Run(st, l).hyphen)
  {
    if l != [] {
      if Alphanumeric(l[0]) {
        RunInside(1, false, l[1..]);
        AllChars(l);
      } else {
        RunLost(l[1..]);
      }
    }
  }

  /** The labels the automaton accepts from `st`: all valid, or all but an empty last one. */
  predicate Acceptable(st: Scan, ls: seq<Str>)
    requires ls != []
  {
    var last := ls[|ls| - 1];
    && Labels(ls[..|ls| - 1])
    && (Label(last) || (last == [] && (|ls| >= 2 || st.AfterDot?)))
  }

  lemma FirstLabel(l: Str, ls: seq<Str>)
    ensures Labels([l] + ls) <==> Label(l) && Labels(ls)
  {
    assert ([l] + ls)[0] == l;
    assert forall i :: 0 <= i < |ls| ==> ls[i] == ([l] + ls)[i + 1];
  }

  lemma {:induction false} RunSplit(st: Scan, s: Str)
    requires st.Start? || st.AfterDot?
    ensures Accepting(Run(st, s)) <==> Acceptable(st, Split(s))
    decreases |s|
  {
    var k := IndexOf(s, DOT);
    if k == |s| {
      RunLabel(st, s);
    } else {
      var l, rest := s[..k], s[k + 1..];
      SplitAt(s, k);
      assert s == l + ([DOT] + rest);
      RunPastDot(st, l, rest);
      RunSplit(AfterDot, rest);
      AcceptablePastDot(st, l, Split(rest));
    }
  }

  /** Up to and including the first dot, only a valid label keeps the automaton alive. */
  lemma RunPastDot(st: Scan, l: Str, rest: Str)
    requires st.Start? || st.AfterDot?
    requires DOT !in l
    ensures Run(st, l + ([DOT] + rest)) == if Label(l) then Run(AfterDot, rest) else Lost
  {
    assert ([DOT] + rest)[1..] == rest;
    RunAppend(st, l, [DOT] + rest);
    RunLabel(st, l);
    RunLost(rest);
  }

  lemma AcceptablePastDot(st: Scan, l: Str, ls: seq<Str>)
    requires ls != []
    ensures Acceptable(st, [l] + ls) <==> Label(l) && Acceptable(AfterDot, ls)
  {
    var all := [l] + ls;
    assert all[..|all| - 1] == [l] + ls[..|ls| - 1];
    FirstLabel(l, ls[..|ls| - 1]);
  }

  /** An empty last label is exactly what a trailing dot leaves behind. */
  lemma SplitDropDot(s: Str)
    ensures Acceptable(Start, Split(s)) <==> Labels(Split(DropDot(s)))
  {
    var ls, d := Split(s), DropDot(s);
    if s != [] && s[|s| - 1] == DOT {
      assert s == d + [DOT];
      SplitTrailingDot(d);
      assert ls[..|ls| - 1] == Split(d);
    } else {
      LastLabelNonEmpty(s);
      LastLabel(ls);
    }
  }

  lemma LastLabel(ls: seq<Str>)
    requires ls != []
    ensures Labels(ls) <==> Labels(ls[..|ls| - 1]) && Label(ls[|ls| - 1])
  {
    assert ls == ls[..|ls| - 1] + [ls[|ls| - 1]];
  }

  /** The split-and-loop recogniser and the one-pass automaton accept the same names. */
  lemma HostNameIsAutomaton(s: Str)
    ensures ValidName(s) <==> |s| <= 255 && Accepting(Run(Start, s))
  {
    RunSplit(Start, s);
    SplitDropDot(s);
    SplitCharacterises(s);
    if Labels(Split(DropDot(s))) {
      NamesAreAscii(s);
      AsciiRuneCount(s);
    }
  }

  lemma LastOfMore(l: Str, ls: seq<Str>)
    requires ls != []
    ensures ([l] + ls)[|[l] + ls| - 1] == ls[|ls| - 1]
  {
  }

  lemma {:induction false} LastLabelNonEmpty(s: Str)
    requires s == [] || s[|s| - 1] != DOT
    ensures |Split(s)| >= 2 ==> Split(s)[|Split(s)| - 1] != []
    decreases |s|
  {
    var k := IndexOf(s, DOT);
    if k < |s| {
      var t := s[k + 1..];
      var rest := Split(t);
      assert t != [] && t[|t| - 1] == s[|s| - 1];
      LastLabelNonEmpty(t);
      assert Split(s) == [s[..k]] + rest;
      LastOfMore(s[..k], rest);
    }
  }

  // ------- Counting -------

  /** k labels need 2k - 1 bytes. */
  lemma {:induction false} JoinedLabels(ls: seq<Str>)
    requires ls != [] && Labels(ls)
    ensures IsAscii(Join(ls)) && |Join(ls)| >= 2 * |ls| - 1
    ensures forall i :: 0 <= i < |Join(ls)| ==> LabelChar(Join(ls)[i]) || Join(ls)[i] == DOT
  {
    if |ls| > 1 {
      JoinedLabels(ls[1..]);
    }
  }

  /** ASCII letters, digits, hyphens and dots. */
  predicate NameBytes(s: Str) {
    forall i :: 0 <= i < |s| ==> LabelChar(s[i]) || s[i] == DOT
  }

  lemma NameBytesUndropped(s: Str)
    requires NameBytes(DropDot(s))
    ensures NameBytes(s) && IsAscii(s)
  {
    var d := DropDot(s);
    assert s == d || s == d + [DOT];
  }

  lemma NamesAreAscii(s: Str)
    requires Labels(Split(DropDot(s)))
    ensures IsAscii(s) && NameBytes(s)
  {
    JoinSplit(DropDot(s));
    JoinedLabels(Split(DropDot(s)));
    NameBytesUndropped(s);
  }

  /** The cap on runes is a cap on bytes, and it leaves room for at most 128 labels. */
  lemma RuneCapIsByteCap(s: Str)
    requires ValidName(s)
    ensures IsAscii(s) && |s| <= MAX_NAME && |Split(DropDot(s))| <= 128
  {
    SplitCharacterises(s);
    NamesAreAscii(s);
    AsciiRuneCount(s);
    var d := DropDot(s);
    JoinSplit(d);
    JoinedLabels(Split(d));
    forall i | 0 <= i < |s| ensures LabelChar(s[i]) || s[i] == DOT {
      assert i < |d| ==> s[i] == d[i];
    }
  }
}
