/** Vocabulary shared by every component: Go strings as byte sequences, time as an integer. */
module Primitives {

  /** One byte of a Go string or byte slice. */
  type Byte = b: int | 0 <= b < 256

  /** A Go `string` or `[]byte`: neither is required to be valid UTF-8. */
  type Str = seq<Byte>

  /** An instant or a duration, in nanoseconds. */
  type Time = int

  /** The bytes of an ASCII literal. */
  function Ascii(s: string): (t: Str)
    ensures |t| == |s|
  {
    seq(|s|, i requires 0 <= i < |s| => if s[i] < 0x80 as char then s[i] as int else 0x3F)
  }

  const HYPHEN: Byte := 0x2D

  const SECOND: Time := 1_000_000_000

  datatype Option<+T> = None | Some(value: T)

  /** How a call to the repository or the cache goes: it works, it fails without effect, or it
      takes effect and an error is reported all the same. */
  datatype Fault = Fine | LostBefore | LostAfter

  predicate TakesEffect(f: Fault) {
    !f.LostBefore?
  }

  /** An ASCII letter or digit, as a byte or as a rune. */
  predicate Alphanumeric(c: int) {
    0x61 <= c <= 0x7A || 0x41 <= c <= 0x5A || 0x30 <= c <= 0x39
  }

  function Min(a: int, b: int): int {
    if a <= b then a else b
  }

  /** The position of the first `b` in `s`, or |s| when there is none. */
  function IndexOf(s: Str, b: Byte): (k: nat)
    ensures k <= |s|
    ensures k < |s| ==> s[k] == b
    ensures forall i :: 0 <= i < k ==> s[i] != b
  {
    if s == [] then 0 else if s[0] == b then 0 else 1 + IndexOf(s[1..], b)
  }

  /** The position of the last `b` in `s`, if there is one. */
  function LastIndexOf(s: Str, b: Byte): (k: Option<nat>)
    ensures k.Some? ==> k.value < |s| && s[k.value] == b && forall i :: k.value < i < |s| ==> s[i] != b
    ensures k.None? <==> b !in s
  {
    if s == [] then None
    else if s[|s| - 1] == b then Some(|s| - 1)
    else LastIndexOf(s[..|s| - 1], b)
  }

  /** A first occurrence is found wherever only other bytes come before it. */
  lemma IndexOfUnique(s: Str, b: Byte, k: nat)
    requires k <= |s| && (k < |s| ==> s[k] == b)
    requires forall i :: 0 <= i < k ==> s[i] != b
    ensures IndexOf(s, b) == k
  {
  }
}
