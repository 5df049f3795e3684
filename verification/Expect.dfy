/**
The `Expect` field of a request head (section 10.1.1 of RFC 9110), read
straight from the bytes as `expectation` does.
*/
module Expect {
  import opened Bytes

  datatype Expectation = NoExpect | Continue | Unsupported

  predicate BlankAt(s: seq<byte>, k: nat) {
    k + 3 < |s| && s[k] == CR && s[k + 1] == LF && s[k + 2] == CR && s[k + 3] == LF
  }

  /** Where the head's blank line starts. */
  function FindBlank(s: seq<byte>, i: nat): (r: Option<nat>)
    requires i <= |s|
    ensures r.Some? ==> i <= r.value && BlankAt(s, r.value)
    ensures r.Some? ==> forall k :: i <= k < r.value ==> !BlankAt(s, k)
    ensures r.None? ==> forall k :: i <= k ==> !BlankAt(s, k)
    decreases |s| - i
  {
    if i + 3 >= |s| then None
    else if BlankAt(s, i) then Some(i)
    else FindBlank(s, i + 1)
  }

  function Split(s: seq<byte>, sep: byte): (r: seq<seq<byte>>)
    ensures r != []
  {
    if s == [] then [[]]
    else
      var rest := Split(s[1..], sep);
      if s[0] == sep then [[]] + rest else [[s[0]] + rest[0]] + rest[1..]
  }

  lemma {:induction false} SplitAt(a: seq<byte>, b: seq<byte>, sep: byte)
    requires sep !in a
    ensures Split(a + [sep] + b, sep) == [a] + Split(b, sep)
  {
    var s := a + [sep] + b;
    if a == [] {
      assert s[1..] == b;
    } else {
      assert s[1..] == a[1..] + [sep] + b;
      SplitAt(a[1..], b, sep);
      var rest := [a[1..]] + Split(b, sep);
      assert rest[1..] == Split(b, sep) && [a[0]] + rest[0] == a;
    }
  }

  lemma {:induction false} SplitNone(a: seq<byte>, sep: byte)
    requires sep !in a
    ensures Split(a, sep) == [a]
  {
    if a != [] {
      SplitNone(a[1..], sep);
      assert [a[0]] + a[1..] == a;
    }
  }

  predicate IsSpace(b: byte) { b in {32, 9, 10, 12, 13} }

  lemma {:induction false} SpaceExactly(b: byte)
    ensures IsSpace(b) <==> b in Ascii(" \t\n\r") || b == 12
  {
    assert Ascii(" \t\n\r") == [32, 9, 10, 13];
  }

  function TrimAscii(s: seq<byte>): seq<byte> {
    if s != [] && IsSpace(s[0]) then TrimAscii(s[1..])
    else if s != [] && IsSpace(s[|s| - 1]) then TrimAscii(s[..|s| - 1])
    else s
  }

  function LowerByte(b: byte): byte { if 65 <= b <= 90 then b + 32 else b }

  predicate EqFoldBytes(a: seq<byte>, b: seq<byte>) {
    |a| == |b| && forall i :: 0 <= i < |a| ==> LowerByte(a[i]) == LowerByte(b[i])
  }

  /** `c` is the capital of the letter `l`. */
  predicate CapitalOf(c: byte, l: byte) {
    exists k :: 0 <= k < 26 && Ascii(UPPER)[k] == c && Ascii(LOWER)[k] == l
  }

  /** `a` is the text `lit`, each letter in either case. */
  predicate Spells(a: seq<byte>, lit: seq<byte>) {
    |a| == |lit| && forall i :: 0 <= i < |a| ==> a[i] == lit[i] || CapitalOf(a[i], lit[i])
  }

  lemma {:induction false} Alphabet(k: nat)
    requires k < 26
    ensures Ascii(LOWER)[k] == 97 + k && Ascii(UPPER)[k] == 65 + k
  {
  }

  lemma {:induction false} CapitalExactly(c: byte, l: byte)
    ensures CapitalOf(c, l) <==> 65 <= c <= 90 && l == c + 32
  {
    if 65 <= c <= 90 {
      Alphabet(c - 65);
    }
    if k :| 0 <= k < 26 && Ascii(UPPER)[k] == c && Ascii(LOWER)[k] == l {
      Alphabet(k);
    }
  }

  lemma {:induction false} FoldByteExactly(c: byte, l: byte)
    requires !(65 <= l <= 90)
    ensures LowerByte(c) == LowerByte(l) <==> c == l || CapitalOf(c, l)
  {
    hide CapitalOf;
    CapitalExactly(c, l);
  }

  /** Equality up to case with a text that has no capitals is spelling it, each letter in either case. */
  lemma {:induction false} FoldExactly(a: seq<byte>, lit: seq<byte>)
    requires forall i :: 0 <= i < |lit| ==> !(65 <= lit[i] <= 90)
    ensures EqFoldBytes(a, lit) <==> Spells(a, lit)
  {
    hide LowerByte, CapitalOf;
    if |a| == |lit| {
      forall i | 0 <= i < |a| ensures LowerByte(a[i]) == LowerByte(lit[i]) <==> a[i] == lit[i] || CapitalOf(a[i], lit[i]) {
        FoldByteExactly(a[i], lit[i]);
      }
    }
  }

  /** The one expectation understood, in any mix of cases and no other text. */
  lemma {:induction false} UnderstoodExactly(m: seq<byte>)
    ensures Understood(m) <==> Spells(m, Ascii("100-continue"))
  {
    hide EqFoldBytes, Spells;
    FoldExactly(m, Ascii("100-continue"));
  }

  predicate EndsWith(s: seq<byte>, t: seq<byte>) {
    |t| <= |s| && s[|s| - |t|..] == t
  }

  /** A request line an HTTP/1.1 client sent: only it can read an interim response. */
  predicate IsHttp11Line(line: seq<byte>) {
    EndsWith(line, Ascii("HTTP/1.1") + [CR]) || EndsWith(line, Ascii("HTTP/1.1"))
  }

  function FindByte(s: seq<byte>, b: byte): (r: Option<nat>)
    ensures r.Some? ==> r.value < |s| && s[r.value] == b && b !in s[..r.value]
    ensures r.None? ==> b !in s
  {
    if s == [] then None
    else if s[0] == b then Some(0)
    else match FindByte(s[1..], b) case None => None case Some(k) => assert s[..k + 1] == [s[0]] + s[1..][..k]; Some(k + 1)
  }

  // ---- every member of every `Expect` line ----

  function NonEmpty(ms: seq<seq<byte>>): seq<seq<byte>> {
    if ms == [] then []
    else
      var m := TrimAscii(ms[|ms| - 1]);
      NonEmpty(ms[..|ms| - 1]) + if m == [] then [] else [m]
  }

  function LineMembers(line: seq<byte>): seq<seq<byte>> {
    match FindByte(line, 58)
    case None => []
    case Some(colon) =>
      if EqFoldBytes(line[..colon], Ascii("expect")) then NonEmpty(Split(line[colon + 1..], 44)) else []
  }

  function Members(lines: seq<seq<byte>>): seq<seq<byte>> {
    if lines == [] then [] else Members(lines[..|lines| - 1]) + LineMembers(lines[|lines| - 1])
  }

  predicate Understood(m: seq<byte>) { EqFoldBytes(m, Ascii("100-continue")) }

  /** One member not understood spoils the request; otherwise any member asks to continue. */
  function Combine(ms: seq<seq<byte>>): Expectation {
    if exists i :: 0 <= i < |ms| && !Understood(ms[i]) then Unsupported
    else if ms == [] then NoExpect
    else Continue
  }

  function OfHead(head: seq<byte>): Expectation {
    var lines := Split(head, LF);
    if !IsHttp11Line(lines[0]) then NoExpect else Combine(Members(lines[1..]))
  }

  /** `None` while the head is still arriving. */
  function Expected(buf: seq<byte>): Option<Expectation> {
    match FindBlank(buf, 0)
    case None => None
    case Some(end) => Some(OfHead(buf[..end]))
  }

  lemma {:induction false} BlankIs(s: seq<byte>, i: nat, k: nat)
    requires i <= k && BlankAt(s, k)
    requires forall j :: i <= j < k ==> !BlankAt(s, j)
    ensures FindBlank(s, i) == Some(k)
  {
  }

  lemma {:induction false} BlankStable(s: seq<byte>, x: seq<byte>)
    requires FindBlank(s, 0).Some?
    ensures FindBlank(s + x, 0) == FindBlank(s, 0)
  {
    var k := FindBlank(s, 0).value;
    forall j | 0 <= j < k ensures !BlankAt(s + x, j) {
      assert !BlankAt(s, j);
    }
    BlankIs(s + x, 0, k);
  }

  /** Once the head is in, later bytes do not change what it asks for. */
  lemma {:induction false} ExpectedStable(buf: seq<byte>, x: seq<byte>)
    requires Expected(buf).Some?
    ensures Expected(buf + x) == Expected(buf)
  {
    hide OfHead;
    BlankStable(buf, x);
    var end := FindBlank(buf, 0).value;
    assert (buf + x)[..end] == buf[..end];
  }

  // ---- the code ----

  method ReadLine(line: seq<byte>, before: Expectation) returns (found: Expectation)
    requires before != Unsupported
    ensures found == if Combine(LineMembers(line)) == NoExpect then before else Combine(LineMembers(line))
  {
    hide Split, TrimAscii, EqFoldBytes, Combine, Understood, NonEmpty;
    found := before;
    CombineNone();
    var colon := FindByte(line, 58);
    if colon.None? || !EqFoldBytes(line[..colon.value], Ascii("expect")) {
      return;
    }
    var parts := Split(line[colon.value + 1..], 44);
    var i := 0;
    while i < |parts|
      invariant i <= |parts|
      invariant Combine(NonEmpty(parts[..i])) != Unsupported
      invariant found == if Combine(NonEmpty(parts[..i])) == NoExpect then before else Continue
    {
      NonEmptySnoc(parts, i);
      var m := TrimAscii(parts[i]);
      if m != [] {
        CombineSnoc(NonEmpty(parts[..i]), m);
        if Understood(m) {
          if found == NoExpect {
            found := Continue;
          }
        } else {
          NonEmptyPrefix(parts, i + 1);
          CombinePrefix(NonEmpty(parts[..i + 1]), NonEmpty(parts));
          return Unsupported;
        }
      }
      i := i + 1;
    }
    assert parts[..i] == parts;
  }

  lemma {:induction false} CombineNone()
    ensures NonEmpty([]) == [] && Combine([]) == NoExpect
  {
  }

  lemma {:induction false} NonEmptySnoc(parts: seq<seq<byte>>, i: nat)
    requires i < |parts|
    ensures var m := TrimAscii(parts[i]);
            NonEmpty(parts[..i + 1]) == if m == [] then NonEmpty(parts[..i]) else NonEmpty(parts[..i]) + [m]
  {
    hide TrimAscii;
    assert parts[..i + 1][..i] == parts[..i];
  }

  lemma {:induction false} CombineSnoc(ms: seq<seq<byte>>, m: seq<byte>)
    ensures Combine(ms + [m]) ==
            if !Understood(m) then Unsupported else if Combine(ms) == NoExpect then Continue else Combine(ms)
  {
    hide Understood;
    var all := ms + [m];
    assert all[|ms|] == m;
    if i :| 0 <= i < |ms| && !Understood(ms[i]) {
      assert all[i] == ms[i];
    }
  }

  lemma {:induction false} CombinePrefix(a: seq<seq<byte>>, b: seq<seq<byte>>)
    requires a <= b && Combine(a) == Unsupported
    ensures Combine(b) == Unsupported
  {
    hide Understood;
    var i :| 0 <= i < |a| && !Understood(a[i]);
    assert b[i] == a[i];
  }

  lemma {:induction false} NonEmptyPrefix(ms: seq<seq<byte>>, k: nat)
    requires k <= |ms|
    ensures NonEmpty(ms[..k]) <= NonEmpty(ms)
    decreases |ms|
  {
    if k < |ms| {
      assert ms[..|ms| - 1][..k] == ms[..k];
      NonEmptyPrefix(ms[..|ms| - 1], k);
    } else {
      assert ms[..k] == ms;
    }
  }

  lemma {:induction false} CombineConcat(a: seq<seq<byte>>, b: seq<seq<byte>>)
    requires Combine(a) != Unsupported
    ensures Combine(a + b) == if Combine(b) == NoExpect then Combine(a) else Combine(b)
  {
    hide Understood;
    if i :| 0 <= i < |b| && !Understood(b[i]) {
      assert (a + b)[|a| + i] == b[i];
    }
  }

  lemma {:induction false} MembersPrefix(lines: seq<seq<byte>>, k: nat)
    requires k <= |lines|
    ensures Members(lines[..k]) <= Members(lines)
    decreases |lines|
  {
    hide LineMembers;
    if k < |lines| {
      assert lines[..|lines| - 1][..k] == lines[..k];
      MembersPrefix(lines[..|lines| - 1], k);
    } else {
      assert lines[..k] == lines;
    }
  }

  method ReadExpectation(buf: seq<byte>) returns (r: Option<Expectation>)
    ensures r == Expected(buf)
  {
    hide Split, LineMembers, IsHttp11Line, Combine, FindBlank;
    var end := FindBlank(buf, 0);
    if end.None? {
      return None;
    }
    var all := Split(buf[..end.value], LF);
    if !IsHttp11Line(all[0]) {
      return Some(NoExpect);
    }
    var lines := all[1..];
    var found := NoExpect;
    var i := 0;
    CombineNone();
    while i < |lines|
      invariant i <= |lines|
      invariant found == Combine(Members(lines[..i])) && found != Unsupported
    {
      assert lines[..i + 1][..i] == lines[..i];
      CombineConcat(Members(lines[..i]), LineMembers(lines[i]));
      found := ReadLine(lines[i], found);
      if found == Unsupported {
        MembersPrefix(lines, i + 1);
        CombinePrefix(Members(lines[..i + 1]), Members(lines));
        return Some(Unsupported);
      }
      i := i + 1;
    }
    assert lines[..i] == lines;
    return Some(found);
  }
}
