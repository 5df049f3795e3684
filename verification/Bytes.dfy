/** Byte strings, and the searches in them that the HTTP/1.1 code shares. */
module Bytes {

  type byte = b: nat | b < 256

  datatype Option<+T> = None | Some(value: T)

  const CR: byte := 13
  const LF: byte := 10
  const CRLF: seq<byte> := [13, 10]

  /** The bytes of an ASCII literal. */
  function Ascii(s: string): seq<byte>
    requires forall i :: 0 <= i < |s| ==> s[i] < 128 as char
  {
    seq(|s|, i requires 0 <= i < |s| => s[i] as int)
  }

  /** Bytes read as characters. */
  function TextOf(s: seq<byte>): string { seq(|s|, i requires 0 <= i < |s| => s[i] as char) }

  const LOWER: string := "abcdefghijklmnopqrstuvwxyz"
  const UPPER: string := "ABCDEFGHIJKLMNOPQRSTUVWXYZ"

  /** A line end starts at `k`. */
  predicate CrlfAt(s: seq<byte>, k: nat) {
    k + 1 < |s| && s[k] == CR && s[k + 1] == LF
  }

  ghost predicate CrlfFree(s: seq<byte>) {
    forall k: nat :: !CrlfAt(s, k)
  }

  /** Lines each ended by CRLF. */
  function Lines(ls: seq<seq<byte>>): seq<byte> {
    if ls == [] then [] else ls[0] + CRLF + Lines(ls[1..])
  }

  /** The first line end at or after `i`. */
  function FindCrlf(s: seq<byte>, i: nat): (r: Option<nat>)
    requires i <= |s|
    ensures r.Some? ==> i <= r.value && CrlfAt(s, r.value)
    ensures r.Some? ==> forall k :: i <= k < r.value ==> !CrlfAt(s, k)
    ensures r.None? ==> forall k :: i <= k ==> !CrlfAt(s, k)
    decreases |s| - i
  {
    if i + 1 >= |s| then None
    else if CrlfAt(s, i) then Some(i)
    else FindCrlf(s, i + 1)
  }

  /** Only bytes already present decide where the first line end is. */
  lemma {:induction false} FindCrlfIs(s: seq<byte>, i: nat, k: nat)
    requires i <= k && CrlfAt(s, k)
    requires forall j :: i <= j < k ==> !CrlfAt(s, j)
    ensures FindCrlf(s, i) == Some(k)
  {
  }

  /** Reading `a` then `b` at `i`. */
  lemma {:induction false} PrefixSplit(s: seq<byte>, i: nat, a: seq<byte>, b: seq<byte>)
    requires i <= |s| && a + b <= s[i..]
    ensures a <= s[i..] && s[i..i + |a|] == a
    ensures i + |a| <= |s| && b <= s[i + |a|..]
  {
    assert s[i..][..|a + b|] == a + b;
    assert s[i..i + |a|] == (a + b)[..|a|];
    assert s[i + |a|..] == s[i..][|a|..];
    assert s[i + |a|..][..|b|] == s[i..][..|a + b|][|a|..];
  }
}
