/**
The `Link` to the next page: the request's query with its cursor replaced.
*/
module NextLink {
  import opened Bytes
  import Chunked
  import Expect

  const AMP: byte := 38
  const EQ: byte := 61
  const PERCENT: byte := 37

  predicate Alnum(b: byte) { 48 <= b <= 57 || 65 <= b <= 90 || 97 <= b <= 122 }

  /** Bytes a query may carry as they are: letters, digits and `-._~!$'()*+,;=:@/?%`. */
  predicate QuerySafe(b: byte) {
    Alnum(b) || b in {45, 46, 95, 126, 33, 36, 39, 40, 41, 42, 43, 44, 59, 61, 58, 64, 47, 63, 37}
  }

  function Alphanumeric(): seq<byte> { Ascii("0123456789") + Ascii(UPPER) + Ascii(LOWER) }

  /** A byte is left as it is exactly when it stands in this alphabet. */
  lemma {:induction false} QuerySafeExactly(b: byte)
    ensures QuerySafe(b) <==> b in Alphanumeric() || b in Ascii("-._~!$'()*+,;=:@/?%")
  {
    AlnumExactly(b);
    Marks(b);
  }

  lemma {:induction false} AlnumExactly(b: byte)
    ensures Alnum(b) <==> b in Alphanumeric()
  {
    InDigits(b);
    InUpper(b);
    InLower(b);
  }

  lemma {:induction false} InDigits(b: byte)
    ensures b in Ascii("0123456789") <==> 48 <= b <= 57
  {
    assert Ascii("0123456789") == [48, 49, 50, 51, 52, 53, 54, 55, 56, 57];
  }

  lemma {:induction false} InUpper(b: byte)
    ensures b in Ascii(UPPER) <==> 65 <= b <= 90
  {
    if 65 <= b <= 90 {
      Expect.Alphabet(b - 65);
    }
    if i :| 0 <= i < 26 && Ascii(UPPER)[i] == b {
      Expect.Alphabet(i);
    }
  }

  lemma {:induction false} InLower(b: byte)
    ensures b in Ascii(LOWER) <==> 97 <= b <= 122
  {
    if 97 <= b <= 122 {
      Expect.Alphabet(b - 97);
    }
    if i :| 0 <= i < 26 && Ascii(LOWER)[i] == b {
      Expect.Alphabet(i);
    }
  }

  lemma {:induction false} Marks(b: byte)
    ensures b in Ascii("-._~!$'()*+,;=:@/?%") <==>
            b in {45, 46, 95, 126, 33, 36, 39, 40, 41, 42, 43, 44, 59, 61, 58, 64, 47, 63, 37}
  {
    var m := Ascii("-._~!$'()*+,;=:@/?%");
    assert m == [45, 46, 95, 126, 33, 36, 39, 40, 41, 42, 43, 44, 59, 61, 58, 64, 47, 63, 37];
  }

  /** A cursor is 1 to 128 bytes of this alphabet, and nothing in it needs escaping. */
  lemma {:induction false} CursorExactly(c: seq<byte>)
    ensures CursorText(c) <==>
            1 <= |c| <= 128 && forall i :: 0 <= i < |c| ==> c[i] in Alphanumeric() || c[i] in Ascii("-._~")
  {
    forall i | 0 <= i < |c|
      ensures Alnum(c[i]) || c[i] in {45, 46, 95, 126} <==> c[i] in Alphanumeric() || c[i] in Ascii("-._~")
    {
      AlnumExactly(c[i]);
      assert Ascii("-._~") == [45, 46, 95, 126];
    }
  }

  function Cursor(): seq<byte> { Ascii("cursor") }

  /** What `Cursor::new` accepts: 1 to 128 bytes of letters, digits and `-._~`. */
  predicate CursorText(c: seq<byte>) {
    1 <= |c| <= 128 && forall i :: 0 <= i < |c| ==> Alnum(c[i]) || c[i] in {45, 46, 95, 126}
  }

  // ---- pairs ----

  function NonEmpty(ps: seq<seq<byte>>): seq<seq<byte>> {
    if ps == [] then [] else (if ps[0] == [] then [] else [ps[0]]) + NonEmpty(ps[1..])
  }

  /** The non-empty pieces of a query between ampersands. */
  function Pairs(q: seq<byte>): seq<seq<byte>> { NonEmpty(Expect.Split(q, AMP)) }

  /** The raw key: up to the first `=`, or all of it. */
  function Key(p: seq<byte>): seq<byte> {
    match Expect.FindByte(p, EQ)
    case Some(k) => p[..k]
    case None => p
  }

  /** The raw value: after the first `=`. */
  function Value(p: seq<byte>): seq<byte> {
    match Expect.FindByte(p, EQ)
    case Some(k) => p[k + 1..]
    case None => []
  }

  /** The pairs that are not the cursor. */
  function Others(ps: seq<seq<byte>>): seq<seq<byte>> {
    if ps == [] then [] else (if Key(ps[0]) == Cursor() then [] else [ps[0]]) + Others(ps[1..])
  }

  /** A pair with an equals sign is cut at its first; one without is all key. */
  lemma {:induction false} PairExactly(p: seq<byte>, k: seq<byte>, v: seq<byte>)
    ensures EQ !in k && p == k + [EQ] + v ==> Key(p) == k && Value(p) == v
    ensures EQ !in p ==> Key(p) == p && Value(p) == []
    ensures EQ in p ==> EQ !in Key(p) && p == Key(p) + [EQ] + Value(p)
  {
    hide Expect.FindByte;
    var f := Expect.FindByte(p, EQ);
    if EQ !in k && p == k + [EQ] + v {
      assert p[|k|] == EQ && p[..|k|] == k && p[|k| + 1..] == v;
      FindByteIs(p, EQ, |k|);
    }
    if f.Some? {
      assert p == p[..f.value] + [EQ] + p[f.value + 1..];
    }
  }

  /** The other parameters are, in order, exactly the pairs from `from` on whose key is not `cursor`: `at` says which. */
  lemma {:induction false} OthersExactly(ps: seq<seq<byte>>, from: nat) returns (at: seq<nat>)
    requires from <= |ps|
    ensures |at| == |Others(ps[from..])|
    ensures forall i :: 0 <= i < |at| ==> from <= at[i] < |ps| && Others(ps[from..])[i] == ps[at[i]]
    ensures forall i, j :: 0 <= i < j < |at| ==> at[i] < at[j]
    ensures forall k :: from <= k < |ps| ==> (k in at <==> Key(ps[k]) != Ascii("cursor"))
    decreases |ps| - from
  {
    hide Key, Ascii;
    at := [];
    if from < |ps| {
      var rest := OthersExactly(ps, from + 1);
      assert ps[from..][1..] == ps[from + 1..];
      if Key(ps[from]) == Cursor() {
        assert from !in rest;
        at := rest;
      } else {
        at := [from] + rest;
      }
    }
  }

  // ---- escaping ----

  function HexUpper(n: nat): byte
    requires n < 16
  {
    if n < 10 then 48 + n else 55 + n
  }

  function EscapeByte(b: byte): seq<byte> {
    if QuerySafe(b) then [b] else [PERCENT, HexUpper(b / 16), HexUpper(b % 16)]
  }

  /** A byte that is not left as it is becomes a percent sign and two digits, in capitals. */
  lemma {:induction false} EscapedExactly(b: byte)
    requires !QuerySafe(b)
    ensures b < Chunked.Pow16(2) && EscapeByte(b) == Ascii("%") + Chunked.HexText(b, [true, true])
  {
    hide QuerySafe, Chunked.DigitText;
    Chunked.HexAlphabets(b / 16);
    Chunked.HexAlphabets(b % 16);
    assert Chunked.Pow16(1) == 16 && Chunked.Pow16(2) == 256;
    assert [true, true][..1] == [true] && [true][..0] == [];
    assert Chunked.HexText(b / 16, [true]) == [] + [Chunked.DigitText(b / 16, true)];
    assert Ascii("%") == [37];
  }

  function Escape(p: seq<byte>): seq<byte> {
    if p == [] then [] else EscapeByte(p[0]) + Escape(p[1..])
  }

  function EscapeAll(ps: seq<seq<byte>>): seq<seq<byte>> {
    if ps == [] then [] else [Escape(ps[0])] + EscapeAll(ps[1..])
  }

  /** Pairs each followed by an ampersand. */
  function Joined(ps: seq<seq<byte>>): seq<byte> {
    if ps == [] then [] else ps[0] + [AMP] + Joined(ps[1..])
  }

  /** The query of the next request. */
  function NextQuery(q: seq<byte>, c: seq<byte>): seq<byte> {
    Joined(EscapeAll(Others(Pairs(q)))) + Cursor() + [EQ] + c
  }

  function Link(q: seq<byte>, c: seq<byte>): seq<byte> {
    Ascii("<?") + NextQuery(q, c) + Ascii(">; rel=\"next\"")
  }

  /** What is left to write for the pairs still to come. */
  function Rest(pieces: seq<seq<byte>>): seq<byte> { Joined(EscapeAll(Others(NonEmpty(pieces)))) }

  lemma {:induction false} RestStep(pieces: seq<seq<byte>>)
    requires pieces != []
    ensures Rest(pieces) ==
            (if pieces[0] == [] || Key(pieces[0]) == Cursor() then [] else Escape(pieces[0]) + [AMP]) + Rest(pieces[1..])
  {
    hide Key, Cursor, Escape;
    var pair, rest := pieces[0], NonEmpty(pieces[1..]);
    assert [] + Rest(pieces[1..]) == Rest(pieces[1..]);
    if pair == [] {
      assert NonEmpty(pieces) == rest;
    } else {
      assert NonEmpty(pieces) == [pair] + rest && ([pair] + rest)[1..] == rest;
      if Key(pair) == Cursor() {
        assert Others([pair] + rest) == Others(rest);
      } else {
        var kept := [pair] + Others(rest);
        assert Others([pair] + rest) == kept && kept[1..] == Others(rest);
        var escaped := [Escape(pair)] + EscapeAll(Others(rest));
        assert EscapeAll(kept) == escaped && escaped[1..] == EscapeAll(Others(rest));
      }
    }
  }

  method AppendEscaped(start: seq<byte>, pair: seq<byte>) returns (out: seq<byte>)
    ensures out == start + Escape(pair)
  {
    hide EscapeByte;
    out := start;
    var j := 0;
    assert pair[0..] == pair;
    while j < |pair|
      invariant j <= |pair|
      invariant out + Escape(pair[j..]) == start + Escape(pair)
    {
      assert pair[j..][1..] == pair[j + 1..];
      assert out + EscapeByte(pair[j]) + Escape(pair[j + 1..]) == out + Escape(pair[j..]);
      out := out + EscapeByte(pair[j]);
      j := j + 1;
    }
    assert pair[j..] == [] && out + [] == out;
  }

  method MakeLink(q: seq<byte>, c: seq<byte>) returns (out: seq<byte>)
    ensures out == Link(q, c)
  {
    hide Key, Cursor, Escape, Rest, Expect.Split;
    out := Ascii("<?");
    ghost var start := out;
    var pieces := Expect.Split(q, AMP);
    var i := 0;
    assert pieces[i..] == pieces;
    while i < |pieces|
      invariant i <= |pieces|
      invariant out + Rest(pieces[i..]) == start + Rest(pieces)
    {
      var pair := pieces[i];
      ghost var before := out;
      assert pieces[i..][1..] == pieces[i + 1..] && pieces[i..][0] == pair;
      RestStep(pieces[i..]);
      if pair != [] && Key(pair) != Cursor() {
        out := AppendEscaped(out, pair);
        out := out + [AMP];
        assert before + (Escape(pair) + [AMP] + Rest(pieces[i + 1..])) == out + Rest(pieces[i + 1..]);
      } else {
        assert before + ([] + Rest(pieces[i + 1..])) == before + Rest(pieces[i + 1..]);
      }
      i := i + 1;
    }
    assert pieces[i..] == [];
    RestOfNothing(q);
    assert out + [] == out;
    out := out + Cursor() + [EQ] + c + Ascii(">; rel=\"next\"");
    assert out == start + (Rest(pieces) + Cursor() + [EQ] + c) + Ascii(">; rel=\"next\"");
  }

  lemma {:induction false} RestOfNothing(q: seq<byte>)
    ensures Rest([]) == []
    ensures Rest(Expect.Split(q, AMP)) == Joined(EscapeAll(Others(Pairs(q))))
  {
  }

  // ---- safe bytes ----

  ghost predicate Safe(s: seq<byte>) { forall i :: 0 <= i < |s| ==> QuerySafe(s[i]) }

  lemma {:induction false} EscapeSafe(p: seq<byte>)
    ensures Safe(Escape(p))
    ensures AMP !in p ==> AMP !in Escape(p)
    ensures p != [] ==> Escape(p) != []
  {
    if p != [] {
      EscapeSafe(p[1..]);
    }
  }

  /** Escaping twice is escaping once. */
  lemma {:induction false} EscapeFixed(p: seq<byte>)
    requires Safe(p)
    ensures Escape(p) == p
  {
    if p != [] {
      EscapeFixed(p[1..]);
      assert p == [p[0]] + p[1..];
    }
  }

  lemma {:induction false} EscapeConcat(a: seq<byte>, b: seq<byte>)
    ensures Escape(a + b) == Escape(a) + Escape(b)
  {
    if a == [] {
      assert a + b == b;
    } else {
      assert (a + b)[1..] == a[1..] + b;
      EscapeConcat(a[1..], b);
      assert Escape(a + b) == EscapeByte(a[0]) + (Escape(a[1..]) + Escape(b));
    }
  }

  // ---- keys and values through escaping ----

  lemma {:induction false} FindByteIs(s: seq<byte>, b: byte, k: nat)
    requires k < |s| && s[k] == b && b !in s[..k]
    ensures Expect.FindByte(s, b) == Some(k)
  {
    var r := Expect.FindByte(s, b);
    assert s[k] in s;
    assert forall j :: 0 <= j < k ==> s[..k][j] == s[j];
    assert forall j :: 0 <= j < r.value ==> s[..r.value][j] == s[j];
  }

  lemma {:induction false} EscapeKeepsNoEq(p: seq<byte>)
    requires EQ !in p
    ensures EQ !in Escape(p)
  {
    if p != [] {
      EscapeKeepsNoEq(p[1..]);
    }
  }

  /** Escaping a pair escapes its key and its value. */
  lemma {:induction false} KeyOfEscape(p: seq<byte>)
    ensures Key(Escape(p)) == Escape(Key(p)) && Value(Escape(p)) == Escape(Value(p))
  {
    hide Escape;
    var at := Expect.FindByte(p, EQ);
    if at.None? {
      EscapeKeepsNoEq(p);
      EscapeNothing();
    } else {
      var k, v := p[..at.value], p[at.value + 1..];
      assert p == k + ([EQ] + v);
      EscapeConcat(k, [EQ] + v);
      EscapeConcat([EQ], v);
      EscapeFixed([EQ]);
      EscapeKeepsNoEq(k);
      var e := Escape(p);
      assert e == Escape(k) + [EQ] + Escape(v);
      assert e[..|Escape(k)|] == Escape(k) && e[|Escape(k)| + 1..] == Escape(v);
      FindByteIs(e, EQ, |Escape(k)|);
    }
  }

  lemma {:induction false} EscapeNothing()
    ensures Escape([]) == []
  {
  }

  /** Escaping makes no cursor: an escape always shows a percent sign. */
  lemma {:induction false} EscapeMakesNoCursor(k: seq<byte>)
    requires Escape(k) == Cursor()
    ensures k == Cursor()
  {
    assert PERCENT !in Cursor();
    if !Safe(k) {
      UnsafeShows(k);
    } else {
      EscapeFixed(k);
    }
  }

  lemma {:induction false} UnsafeShows(k: seq<byte>)
    requires !Safe(k)
    ensures PERCENT in Escape(k)
  {
    if QuerySafe(k[0]) {
      assert !Safe(k[1..]) by {
        var i :| 0 <= i < |k| && !QuerySafe(k[i]);
        assert k[1..][i - 1] == k[i];
      }
      UnsafeShows(k[1..]);
    } else {
      assert Escape(k)[0] == PERCENT;
    }
  }

  // ---- splitting the result ----

  ghost predicate PairsOk(ps: seq<seq<byte>>) {
    forall i :: 0 <= i < |ps| ==> ps[i] != [] && AMP !in ps[i]
  }

  lemma {:induction false} SplitPieces(s: seq<byte>)
    ensures forall i :: 0 <= i < |Expect.Split(s, AMP)| ==> AMP !in Expect.Split(s, AMP)[i]
  {
    if s != [] {
      SplitPieces(s[1..]);
    }
  }

  lemma {:induction false} NonEmptyOk(ps: seq<seq<byte>>)
    requires forall i :: 0 <= i < |ps| ==> AMP !in ps[i]
    ensures PairsOk(NonEmpty(ps))
  {
    if ps != [] {
      NonEmptyOk(ps[1..]);
    }
  }

  lemma {:induction false} OthersOk(ps: seq<seq<byte>>)
    requires PairsOk(ps)
    ensures PairsOk(Others(ps))
    ensures forall i :: 0 <= i < |Others(ps)| ==> Key(Others(ps)[i]) != Cursor()
  {
    hide Key, Cursor;
    if ps != [] {
      OthersOk(ps[1..]);
    }
  }

  lemma {:induction false} EscapeAllOk(ps: seq<seq<byte>>)
    requires PairsOk(ps)
    ensures |EscapeAll(ps)| == |ps| && PairsOk(EscapeAll(ps))
    ensures forall i :: 0 <= i < |ps| ==> EscapeAll(ps)[i] == Escape(ps[i]) && Safe(EscapeAll(ps)[i])
  {
    hide Escape, Safe;
    if ps != [] {
      EscapeSafe(ps[0]);
      EscapeAllOk(ps[1..]);
    }
  }

  /** Splitting what was joined gives the pairs back. */
  lemma {:induction false} PairsOfJoined(ps: seq<seq<byte>>, last: seq<byte>)
    requires PairsOk(ps) && last != [] && AMP !in last
    ensures Pairs(Joined(ps) + last) == ps + [last]
  {
    hide Expect.Split, NonEmpty;
    if ps == [] {
      assert Joined(ps) + last == last && ps + [last] == [last];
      Expect.SplitNone(last, AMP);
      NonEmptyOne(last);
    } else {
      hide Joined;
      var rest := Joined(ps[1..]) + last;
      JoinedFront(ps);
      assert Joined(ps) + last == ps[0] + [AMP] + rest;
      Expect.SplitAt(ps[0], rest, AMP);
      PairsOfJoined(ps[1..], last);
      NonEmptyFront(ps[0], Expect.Split(rest, AMP));
      assert [ps[0]] + (ps[1..] + [last]) == ps + [last];
    }
  }

  lemma {:induction false} JoinedFront(ps: seq<seq<byte>>)
    requires ps != []
    ensures Joined(ps) == ps[0] + [AMP] + Joined(ps[1..])
  {
  }

  lemma {:induction false} NonEmptyOne(p: seq<byte>)
    requires p != []
    ensures NonEmpty([p]) == [p]
  {
    assert [p][1..] == [];
  }

  lemma {:induction false} NonEmptyFront(p: seq<byte>, rest: seq<seq<byte>>)
    requires p != []
    ensures NonEmpty([p] + rest) == [p] + NonEmpty(rest)
  {
    assert ([p] + rest)[1..] == rest;
  }

  function CursorPair(c: seq<byte>): seq<byte> { Cursor() + [EQ] + c }

  lemma {:induction false} CursorPairOk(c: seq<byte>)
    requires CursorText(c)
    ensures CursorPair(c) != [] && AMP !in CursorPair(c) && Safe(CursorPair(c))
    ensures Key(CursorPair(c)) == Cursor() && Value(CursorPair(c)) == c
  {
    var p := CursorPair(c);
    assert EQ !in Cursor();
    assert p[..|Cursor()|] == Cursor();
    FindByteIs(p, EQ, |Cursor()|);
  }

  lemma {:induction false} CursorName(c: seq<byte>)
    ensures CursorPair(c) == Ascii("cursor=") + c
  {
    assert Ascii("cursor=") == Ascii("cursor") + [EQ];
  }

  /** The parameters of the next request: the old ones escaped, and one cursor. */
  lemma {:induction false} NextPairs(q: seq<byte>, c: seq<byte>)
    requires CursorText(c)
    ensures Pairs(NextQuery(q, c)) == EscapeAll(Others(Pairs(q))) + [CursorPair(c)]
    ensures CursorPair(c) == Ascii("cursor=") + c
    ensures PairsOk(Others(Pairs(q)))
  {
    CursorName(c);
    hide Escape, Key, Cursor, Safe;
    SplitPieces(q);
    NonEmptyOk(Expect.Split(q, AMP));
    OthersOk(Pairs(q));
    EscapeAllOk(Others(Pairs(q)));
    CursorPairOk(c);
    PairsOfJoined(EscapeAll(Others(Pairs(q))), CursorPair(c));
    assert NextQuery(q, c) == Joined(EscapeAll(Others(Pairs(q)))) + CursorPair(c);
  }

  lemma {:induction false} OthersOfEscaped(ps: seq<seq<byte>>, c: seq<byte>)
    requires forall i :: 0 <= i < |ps| ==> Key(ps[i]) != Cursor()
    requires CursorText(c)
    ensures Others(EscapeAll(ps) + [CursorPair(c)]) == EscapeAll(ps)
  {
    hide Escape, Key, Cursor;
    var all := EscapeAll(ps) + [CursorPair(c)];
    if ps == [] {
      CursorPairOk(c);
      assert all[1..] == [];
    } else {
      KeyOfEscape(ps[0]);
      if Key(Escape(ps[0])) == Cursor() {
        EscapeMakesNoCursor(Key(ps[0]));
      }
      OthersOfEscaped(ps[1..], c);
      assert all[1..] == EscapeAll(ps[1..]) + [CursorPair(c)];
    }
  }

  lemma {:induction false} EscapeAllFixed(ps: seq<seq<byte>>)
    ensures EscapeAll(EscapeAll(ps)) == EscapeAll(ps)
  {
    hide Escape;
    if ps != [] {
      EscapeSafe(ps[0]);
      EscapeFixed(Escape(ps[0]));
      EscapeAllFixed(ps[1..]);
      assert EscapeAll(ps)[1..] == EscapeAll(ps[1..]);
    }
  }

  /** The other parameters of the next request, read back. */
  lemma {:induction false} NextOthers(q: seq<byte>, c: seq<byte>)
    requires CursorText(c)
    ensures Others(Pairs(NextQuery(q, c))) == EscapeAll(Others(Pairs(q)))
  {
    hide Escape, Key, Cursor, NextQuery, Expect.Split;
    NextPairs(q, c);
    SplitPieces(q);
    NonEmptyOk(Expect.Split(q, AMP));
    OthersOk(Pairs(q));
    OthersOfEscaped(Others(Pairs(q)), c);
  }

  /** From the second hop on only the cursor changes. */
  lemma {:induction false} HopForgetsCursor(q: seq<byte>, c: seq<byte>, d: seq<byte>)
    requires CursorText(c)
    ensures NextQuery(NextQuery(q, c), d) == NextQuery(q, d)
  {
    hide Escape, Key, Cursor, Pairs;
    NextOthers(q, c);
    EscapeAllFixed(Others(Pairs(q)));
  }

  /** The query after following links with these cursors. */
  function Follow(q: seq<byte>, cs: seq<seq<byte>>): seq<byte> {
    if cs == [] then q else NextQuery(Follow(q, cs[..|cs| - 1]), cs[|cs| - 1])
  }

  /** Any number of hops is one hop with the last cursor, and leaves exactly one cursor. */
  lemma {:induction false} FollowIsOneHop(q: seq<byte>, cs: seq<seq<byte>>)
    requires cs != [] && forall i :: 0 <= i < |cs| ==> CursorText(cs[i])
    ensures var last := cs[|cs| - 1];
            && Follow(q, cs) == NextQuery(q, last)
            && Pairs(Follow(q, cs)) == EscapeAll(Others(Pairs(q))) + [CursorPair(last)]
            && Others(Pairs(Follow(q, cs))) == EscapeAll(Others(Pairs(q)))
            && |Pairs(Follow(q, cs))| == |Others(Pairs(Follow(q, cs)))| + 1
    decreases |cs|
  {
    hide Escape, Key, Cursor, Pairs, NextQuery, CursorText;
    var init, last := cs[..|cs| - 1], cs[|cs| - 1];
    if init != [] {
      FollowIsOneHop(q, init);
      HopForgetsCursor(q, init[|init| - 1], last);
    }
    NextPairs(q, last);
    NextOthers(q, last);
  }

  lemma {:induction false} JoinedSafe(ps: seq<seq<byte>>)
    requires forall i :: 0 <= i < |ps| ==> Safe(ps[i])
    ensures forall b :: b in Joined(ps) ==> QuerySafe(b) || b == AMP
  {
    hide QuerySafe;
    if ps != [] {
      JoinedSafe(ps[1..]);
    }
  }

  /** Nothing in the query can end the link early: only safe bytes and separators. */
  lemma {:induction false} NextQuerySafe(q: seq<byte>, c: seq<byte>)
    requires CursorText(c)
    ensures forall b :: b in NextQuery(q, c) ==> QuerySafe(b) || b == AMP
  {
    hide Escape, Key, Cursor, QuerySafe, CursorText, Pairs, Others;
    NextPairs(q, c);
    EscapeAllOk(Others(Pairs(q)));
    JoinedSafe(EscapeAll(Others(Pairs(q))));
    CursorPairOk(c);
    assert NextQuery(q, c) == Joined(EscapeAll(Others(Pairs(q)))) + CursorPair(c);
  }

  // ---- meaning ----

  /** A percent sign and two hex digits. */
  predicate Triple(s: seq<byte>) {
    |s| >= 3 && s[0] == PERCENT && Chunked.HexDigit(s[1]).Some? && Chunked.HexDigit(s[2]).Some?
  }

  /** Percent-decoding that takes a malformed `%` literally; `plus` reads `+` as a space. */
  function Decoded(s: seq<byte>, plus: bool): seq<byte> {
    if s == [] then []
    else if Triple(s) then
      var v: byte := 16 * Chunked.HexDigit(s[1]).value + Chunked.HexDigit(s[2]).value;
      [v] + Decoded(s[3..], plus)
    else [if plus && s[0] == 43 then 32 else s[0]] + Decoded(s[1..], plus)
  }

  lemma {:induction false} EscapeHead(p: seq<byte>)
    requires p != []
    ensures Escape(p) != []
    ensures Chunked.HexDigit(Escape(p)[0]).Some? <==> Chunked.HexDigit(p[0]).Some?
    ensures Chunked.HexDigit(p[0]).Some? ==> Escape(p) == [p[0]] + Escape(p[1..])
  {
  }

  /** Escaping neither makes nor breaks a percent escape. */
  lemma {:induction false} EscapeTriple(p: seq<byte>)
    requires p != [] && p[0] == PERCENT
    ensures Escape(p) == [PERCENT] + Escape(p[1..])
    ensures Triple(Escape(p)) <==> Triple(p)
    ensures Triple(p) ==> Escape(p) == p[..3] + Escape(p[3..])
  {
    hide Chunked.HexDigit;
    var rest := Escape(p[1..]);
    if |p| >= 2 {
      EscapeHead(p[1..]);
      if Chunked.HexDigit(p[1]).Some? {
        assert p[1..][1..] == p[2..] && rest == [p[1]] + Escape(p[2..]);
        if |p| >= 3 {
          EscapeHead(p[2..]);
          assert p[2..][1..] == p[3..];
        }
      }
    }
  }

  lemma {:induction false} DecodedUnsafe(b: byte, rest: seq<byte>, plus: bool)
    requires !QuerySafe(b)
    ensures b != 43 && Decoded(EscapeByte(b) + rest, plus) == [b] + Decoded(rest, plus)
  {
    var s := EscapeByte(b) + rest;
    assert s[0] == PERCENT && s[1] == HexUpper(b / 16) && s[2] == HexUpper(b % 16) && s[3..] == rest;
    assert Chunked.HexDigit(s[1]) == Some(b / 16) && Chunked.HexDigit(s[2]) == Some(b % 16);
  }

  /** Escaping does not change what a parameter decodes to. */
  lemma {:induction false} EscapeKeepsMeaning(p: seq<byte>, plus: bool)
    ensures Decoded(Escape(p), plus) == Decoded(p, plus)
    decreases |p|
  {
    hide QuerySafe, HexUpper, Chunked.HexDigit;
    if p != [] {
      var e, rest := Escape(p), Escape(p[1..]);
      EscapeKeepsMeaning(p[1..], plus);
      if p[0] == PERCENT {
        EscapeTriple(p);
        assert e[1..] == rest;
        if Triple(p) {
          assert e[3..] == Escape(p[3..]);
          EscapeKeepsMeaning(p[3..], plus);
        }
      } else if QuerySafe(p[0]) {
        assert e == [p[0]] + rest && e[1..] == rest;
      } else {
        assert e == EscapeByte(p[0]) + rest;
        DecodedUnsafe(p[0], rest, plus);
      }
    }
  }

  /** Every parameter of the next request decodes, key and value, as in the request before. */
  lemma {:induction false} NextKeepsMeaning(q: seq<byte>, c: seq<byte>, i: nat, plus: bool)
    requires CursorText(c) && i < |Others(Pairs(q))|
    ensures |Others(Pairs(NextQuery(q, c)))| == |Others(Pairs(q))|
    ensures var before, after := Others(Pairs(q))[i], Others(Pairs(NextQuery(q, c)))[i];
            && Decoded(Key(after), plus) == Decoded(Key(before), plus)
            && Decoded(Value(after), plus) == Decoded(Value(before), plus)
  {
    hide Escape, Key, Value, Cursor, NextQuery, Pairs, Others;
    NextOthers(q, c);
    NextPairs(q, c);
    EscapeAllOk(Others(Pairs(q)));
    var before := Others(Pairs(q))[i];
    KeyOfEscape(before);
    EscapeKeepsMeaning(Key(before), plus);
    EscapeKeepsMeaning(Value(before), plus);
  }

  // ---- the field as a client reads it ----

  /** What stands between the angle brackets. */
  function LinkTarget(h: seq<byte>): Option<seq<byte>> {
    if h == [] || h[0] != 60 then None
    else
      match Expect.FindByte(h, 62)
      case Some(k) => Some(h[1..k])
      case None => None
  }

  function Unquoted(v: seq<byte>): seq<byte> {
    if |v| >= 2 && v[0] == 34 && v[|v| - 1] == 34 then v[1..|v| - 1] else v
  }

  /** The value of the first parameter after the target. */
  function LinkParam(h: seq<byte>): Option<(seq<byte>, seq<byte>)> {
    match Expect.FindByte(h, 62)
    case None => None
    case Some(k) =>
      var ps := Expect.Split(h[k + 1..], 59);
      if |ps| < 2 then None
      else
        var p := Expect.TrimAscii(ps[1]);
        Some((Key(p), Unquoted(Value(p))))
  }

  /** A client reads the query of the next request as the target, and the relation it stands in. */
  lemma {:induction false} LinkReads(q: seq<byte>, c: seq<byte>)
    requires CursorText(c)
    ensures LinkTarget(Link(q, c)) == Some(Ascii("?") + NextQuery(q, c))
    ensures LinkParam(Link(q, c)) == Some((Ascii("rel"), Ascii("next")))
  {
    hide Expect.FindByte, NextQuery, Key, Value, Expect.TrimAscii, Expect.Split, Unquoted;
    var n, h, rel, next := NextQuery(q, c), Link(q, c), Ascii("rel"), Ascii("next");
    assert 62 !in n by {
      NextQuerySafe(q, c);
    }
    LinkText();
    RelationText();
    hide Ascii;
    var end := [59] + ([32] + rel + [EQ] + ([34] + next + [34]));
    var k := 2 + |n|;
    assert h == [60, 63] + n + [62] + end;
    assert h[..k] == [60, 63] + n && h[k] == 62 && h[k + 1..] == end;
    FindByteIs(h, 62, k);
    assert h[1..k] == [63] + n;
    ParamReads(rel, next);
  }

  lemma {:induction false} LinkText()
    ensures Ascii("<?") == [60, 63] && Ascii("?") == [63]
    ensures Ascii(">; rel=\"next\"") == [62] + ([59] + ([32] + Ascii("rel") + [EQ] + ([34] + Ascii("next") + [34])))
  {
  }

  lemma {:induction false} RelationText()
    ensures Ascii("rel") != [] && EQ !in Ascii("rel") && 59 !in Ascii("rel") && !Expect.IsSpace(Ascii("rel")[0])
    ensures 59 !in Ascii("next")
  {
  }

  /** A parameter with a quoted value, read back. */
  lemma {:induction false} ParamReads(rel: seq<byte>, next: seq<byte>)
    requires rel != [] && EQ !in rel && 59 !in rel && !Expect.IsSpace(rel[0]) && 59 !in next
    ensures var p := rel + [EQ] + ([34] + next + [34]);
            var spaced := [32] + rel + [EQ] + ([34] + next + [34]);
            && Expect.Split([59] + spaced, 59) == [[], spaced]
            && Expect.TrimAscii(spaced) == p && Key(p) == rel && Unquoted(Value(p)) == next
  {
    hide Expect.Split, Key, Value;
    var v := [34] + next + [34];
    var p := rel + [EQ] + v;
    var spaced := [32] + rel + [EQ] + v;
    assert 59 !in spaced;
    assert [59] + spaced == [] + [59] + spaced;
    Expect.SplitAt([], spaced, 59);
    Expect.SplitNone(spaced, 59);
    assert spaced[1..] == p && p[0] == rel[0] && p[|p| - 1] == 34;
    assert Expect.TrimAscii(p) == p;
    PairExactly(p, rel, v);
    assert v[1..|v| - 1] == next;
  }
}
