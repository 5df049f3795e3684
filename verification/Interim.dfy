/**
`Expect: 100-continue` served: what a written head asks for, member by member,
and the loop's answer to a client that holds its body back until it is told to
go on.
*/
module Interim {
  import opened Bytes
  import opened Framing
  import opened ReadLoop
  import opened Heads
  import Expect

  // ---- `Expect` lines as they are written ----

  const COLON: byte := 58
  const COMMA: byte := 44

  /** One member of a list, with the blanks around it; the word may be missing. */
  datatype Member = Member(before: seq<byte>, word: seq<byte>, after: seq<byte>)

  datatype Line =
    | Other(text: seq<byte>)
    | Expects(name: seq<byte>, members: seq<Member>)

  ghost predicate Blanks(s: seq<byte>) { forall i :: 0 <= i < |s| ==> s[i] == 32 || s[i] == 9 }

  ghost predicate MemberOk(m: Member) {
    && Blanks(m.before) && Blanks(m.after)
    && COMMA !in m.word && CR !in m.word && LF !in m.word
    && (m.word != [] ==> !Expect.IsSpace(m.word[0]) && !Expect.IsSpace(m.word[|m.word| - 1]))
  }

  function MemberText(m: Member): seq<byte> { m.before + m.word + m.after }

  function ListText(ms: seq<Member>): seq<byte> {
    if ms == [] then [] else if |ms| == 1 then MemberText(ms[0]) else MemberText(ms[0]) + [COMMA] + ListText(ms[1..])
  }

  ghost predicate LineOk(l: Line) {
    match l
    case Other(text) =>
      Plain(text) && forall name, rest :: text == name + [COLON] + rest ==> !Expect.Spells(name, Ascii("expect"))
    case Expects(name, members) =>
      && Expect.Spells(name, Ascii("expect")) && members != []
      && forall i :: 0 <= i < |members| ==> MemberOk(members[i])
  }

  function LineText(l: Line): seq<byte> {
    match l
    case Other(text) => text
    case Expects(name, members) => name + [COLON] + ListText(members)
  }

  /** The members that are not empty. */
  function Words(ms: seq<Member>): seq<seq<byte>> {
    if ms == [] then [] else (if ms[0].word == [] then [] else [ms[0].word]) + Words(ms[1..])
  }

  function LineWords(l: Line): seq<seq<byte>> {
    match l case Other(_) => [] case Expects(_, members) => Words(members)
  }

  function AllWords(ls: seq<Line>): seq<seq<byte>> {
    if ls == [] then [] else LineWords(ls[0]) + AllWords(ls[1..])
  }

  function Texts(ls: seq<Line>): (ts: seq<seq<byte>>)
    ensures |ts| == |ls| && forall i :: 0 <= i < |ls| ==> ts[i] == LineText(ls[i])
  {
    seq(|ls|, i requires 0 <= i < |ls| => LineText(ls[i]))
  }

  ghost predicate LinesOk(ls: seq<Line>) { forall i :: 0 <= i < |ls| ==> LineOk(ls[i]) }

  // ---- reading them back ----

  lemma {:induction false} TrimIs(before: seq<byte>, w: seq<byte>, after: seq<byte>)
    requires forall i :: 0 <= i < |before| ==> Expect.IsSpace(before[i])
    requires forall i :: 0 <= i < |after| ==> Expect.IsSpace(after[i])
    requires w != [] ==> !Expect.IsSpace(w[0]) && !Expect.IsSpace(w[|w| - 1])
    ensures Expect.TrimAscii(before + w + after) == w
    decreases |before| + |after|
  {
    hide Expect.IsSpace;
    var s := before + w + after;
    if before != [] {
      assert s[1..] == before[1..] + w + after;
      TrimIs(before[1..], w, after);
    } else if after != [] {
      if w == [] {
        assert s[0] == after[0] && s[1..] == [] + w + after[1..];
        TrimIs([], w, after[1..]);
      } else {
        assert s[0] == w[0] && s[..|s| - 1] == [] + w + after[..|after| - 1];
        TrimIs([], w, after[..|after| - 1]);
      }
    } else {
      assert s == w;
    }
  }

  /** A member with a line end's carriage return behind it, if it is the last of its line. */
  lemma {:induction false} MemberTrims(m: Member, tail: seq<byte>)
    requires MemberOk(m) && (tail == [] || tail == [CR])
    ensures Expect.TrimAscii(MemberText(m) + tail) == m.word && COMMA !in MemberText(m) + tail
  {
    TrimIs(m.before, m.word, m.after + tail);
    assert m.before + m.word + (m.after + tail) == MemberText(m) + tail;
    assert forall b :: b in m.before || b in m.after ==> b != COMMA;
  }

  lemma {:induction false} NonEmptyFront(p: seq<byte>, rest: seq<seq<byte>>)
    ensures Expect.NonEmpty([p] + rest) ==
            (if Expect.TrimAscii(p) == [] then [] else [Expect.TrimAscii(p)]) + Expect.NonEmpty(rest)
  {
    hide Expect.TrimAscii;
    var all := [p] + rest;
    if rest == [] {
      assert all[..|all| - 1] == [] && all[|all| - 1] == p;
    } else {
      assert all[..|all| - 1] == [p] + rest[..|rest| - 1];
      NonEmptyFront(p, rest[..|rest| - 1]);
    }
  }

  lemma {:induction false} ListReads(ms: seq<Member>, tail: seq<byte>)
    requires ms != [] && (forall i :: 0 <= i < |ms| ==> MemberOk(ms[i])) && (tail == [] || tail == [CR])
    ensures Expect.NonEmpty(Expect.Split(ListText(ms) + tail, COMMA)) == Words(ms)
    decreases |ms|
  {
    hide Expect.TrimAscii, Expect.Split, Expect.NonEmpty, MemberOk, MemberText;
    var t := MemberText(ms[0]);
    if |ms| == 1 {
      MemberTrims(ms[0], tail);
      Expect.SplitNone(t + tail, COMMA);
      NonEmptyFront(t + tail, []);
      assert [t + tail] + [] == [t + tail];
      NothingToSplit();
      assert Words(ms[1..]) == [];
    } else {
      MemberTrims(ms[0], []);
      assert t + [] == t;
      assert ListText(ms) + tail == t + [COMMA] + (ListText(ms[1..]) + tail);
      Expect.SplitAt(t, ListText(ms[1..]) + tail, COMMA);
      NonEmptyFront(t, Expect.Split(ListText(ms[1..]) + tail, COMMA));
      ListReads(ms[1..], tail);
    }
  }

  lemma {:induction false} NothingToSplit()
    ensures Expect.NonEmpty([]) == []
  {
  }

  lemma {:induction false} ColonAt(line: seq<byte>, k: nat)
    requires k < |line| && line[k] == COLON && COLON !in line[..k]
    ensures Expect.FindByte(line, COLON) == Some(k)
  {
    hide Expect.FindByte;
    assert COLON in line;
    var f := Expect.FindByte(line, COLON);
    assert forall i :: 0 <= i < k ==> line[i] in line[..k];
    assert forall i :: k < i <= |line| ==> line[..i][k] == COLON;
  }

  lemma {:induction false} NameHasNoColon(name: seq<byte>)
    requires Expect.Spells(name, Ascii("expect"))
    ensures COLON !in name && CR !in name && LF !in name && name != []
  {
    var lit := Ascii("expect");
    assert |lit| == 6 && forall i :: 0 <= i < 6 ==> 97 <= lit[i] <= 122;
    hide Ascii, Expect.CapitalOf;
    forall i | 0 <= i < |name| ensures name[i] != COLON && name[i] != CR && name[i] != LF {
      Expect.CapitalExactly(name[i], lit[i]);
    }
  }

  /** The members of a line, whatever its kind. */
  lemma {:induction false} LineReads(l: Line, tail: seq<byte>)
    requires LineOk(l) && (tail == [] || tail == [CR])
    ensures Expect.LineMembers(LineText(l) + tail) == LineWords(l)
  {
    hide LineOk, Expect.LineMembers;
    match l
    case Expects(name, members) => ExpectReads(name, members, tail);
    case Other(text) => OtherReads(text, tail);
  }

  lemma {:induction false} ExpectReads(name: seq<byte>, ms: seq<Member>, tail: seq<byte>)
    requires LineOk(Expects(name, ms)) && (tail == [] || tail == [CR])
    ensures Expect.LineMembers(LineText(Expects(name, ms)) + tail) == Words(ms)
  {
    hide Expect.NonEmpty, Expect.Split, Expect.EqFoldBytes, Expect.Spells, Expect.FindByte, MemberOk, ListText, Words;
    var list := ListText(ms) + tail;
    var line := LineText(Expects(name, ms)) + tail;
    assert line == name + [COLON] + list;
    NameHasNoColon(name);
    assert line[..|name|] == name && line[|name|] == COLON && line[|name| + 1..] == list;
    ColonAt(line, |name|);
    NameIsExpect(name);
    ListReads(ms, tail);
  }

  lemma {:induction false} NameIsExpect(name: seq<byte>)
    ensures Expect.EqFoldBytes(name, Ascii("expect")) <==> Expect.Spells(name, Ascii("expect"))
  {
    hide Expect.EqFoldBytes, Expect.Spells;
    Expect.FoldExactly(name, Ascii("expect"));
  }

  lemma {:induction false} OtherReads(text: seq<byte>, tail: seq<byte>)
    requires LineOk(Other(text)) && (tail == [] || tail == [CR])
    ensures Expect.LineMembers(text + tail) == []
  {
    hide Expect.NonEmpty, Expect.Split, Expect.EqFoldBytes, Expect.Spells, Expect.FindByte, Plain;
    var line := text + tail;
    var k := Expect.FindByte(line, COLON);
    if k.Some? {
      var name, rest := line[..k.value], line[k.value + 1..|text|];
      assert k.value < |text|;
      assert text == name + [COLON] + rest;
      NameIsExpect(name);
    }
  }

  lemma {:induction false} MembersFront(line: seq<byte>, rest: seq<seq<byte>>)
    ensures Expect.Members([line] + rest) == Expect.LineMembers(line) + Expect.Members(rest)
  {
    hide Expect.LineMembers;
    var all := [line] + rest;
    if rest == [] {
      assert all[..|all| - 1] == [] && all[|all| - 1] == line;
    } else {
      assert all[..|all| - 1] == [line] + rest[..|rest| - 1];
      MembersFront(line, rest[..|rest| - 1]);
    }
  }

  lemma {:induction false} LinesRead(ls: seq<Line>)
    requires ls != [] && LinesOk(ls)
    ensures Expect.Members(WithCr(Texts(ls))) == AllWords(ls)
    decreases |ls|
  {
    hide Expect.Members, LineOk, LineText, LineWords;
    var ts := WithCr(Texts(ls));
    LineReads(ls[0], if |ls| == 1 then [] else [CR]);
    assert LineText(ls[0]) + [] == LineText(ls[0]);
    MembersFront(ts[0], ts[1..]);
    assert ts == [ts[0]] + ts[1..];
    if |ls| == 1 {
      NoMembers();
      assert ts[1..] == [] && AllWords(ls[1..]) == [];
    } else {
      LinesRead(ls[1..]);
      assert Texts(ls)[1..] == Texts(ls[1..]);
    }
  }

  lemma {:induction false} NoMembers()
    ensures Expect.Members([]) == []
  {
  }

  lemma {:induction false} MemberIsPlain(m: Member)
    requires MemberOk(m)
    ensures CR !in MemberText(m) && LF !in MemberText(m)
  {
    assert forall b :: b in m.before || b in m.after ==> b != CR && b != LF;
  }

  lemma {:induction false} ListIsPlain(ms: seq<Member>)
    requires ms != [] && forall i :: 0 <= i < |ms| ==> MemberOk(ms[i])
    ensures CR !in ListText(ms) && LF !in ListText(ms)
    decreases |ms|
  {
    hide MemberOk, MemberText;
    MemberIsPlain(ms[0]);
    if |ms| > 1 {
      ListIsPlain(ms[1..]);
    }
  }

  lemma {:induction false} TextIsPlain(l: Line)
    requires LineOk(l)
    ensures Plain(LineText(l))
  {
    hide MemberOk, Expect.Spells;
    if l.Expects? {
      NameHasNoColon(l.name);
      ListIsPlain(l.members);
    }
  }

  ghost predicate Http11(request: seq<byte>) { exists x :: request == x + Ascii("HTTP/1.1") }

  lemma {:induction false} Http11Exactly(request: seq<byte>, tail: seq<byte>)
    requires CR !in request && (tail == [] || tail == [CR])
    ensures Expect.IsHttp11Line(request + tail) <==> Http11(request)
  {
    var v := Ascii("HTTP/1.1");
    assert CR !in v;
    hide Ascii, Expect.EndsWith;
    EndsExactly(request + tail, v);
    EndsExactly(request + tail, v + [CR]);
    if x :| request == x + v {
      assert request + tail == if tail == [] then x + v else x + (v + [CR]);
    }
    if x :| request + tail == x + v {
      assert v[|v| - 1] in v;
      LastByte(request, tail, x, v);
    } else if x :| request + tail == x + (v + [CR]) {
      LastByte(request, tail, x, v + [CR]);
      assert (request + [CR])[..|request|] == (x + v + [CR])[..|x + v|];
    }
  }

  lemma {:induction false} LastByte(request: seq<byte>, tail: seq<byte>, x: seq<byte>, w: seq<byte>)
    requires CR !in request && (tail == [] || tail == [CR]) && w != [] && request + tail == x + w
    ensures tail == [CR] <==> w[|w| - 1] == CR
    ensures tail == [] ==> request == x + w
  {
    var line := request + tail;
    assert line[|line| - 1] == w[|w| - 1];
    if tail == [] {
      assert line == request && line[|line| - 1] in request;
    }
  }

  lemma {:induction false} EndsExactly(s: seq<byte>, t: seq<byte>)
    ensures Expect.EndsWith(s, t) <==> exists x :: s == x + t
  {
    if Expect.EndsWith(s, t) {
      assert s == s[..|s| - |t|] + t;
    }
  }

  /**
  What a written head asks for: nothing unless its request line is of HTTP/1.1;
  otherwise something unsupported if any member is another text than
  `100-continue`, in any mix of cases, and to continue if there is a member at all.
  */
  lemma {:induction false} ExpectedOfWritten(request: seq<byte>, ls: seq<Line>)
    requires Plain(request) && LinesOk(ls)
    ensures var ws := AllWords(ls);
            Expect.Expected(HeadText([request] + Texts(ls))) ==
            Some(if !Http11(request) then Expect.NoExpect
                 else if exists i :: 0 <= i < |ws| && !Expect.Spells(ws[i], Ascii("100-continue")) then Expect.Unsupported
                 else if ws != [] then Expect.Continue else Expect.NoExpect)
  {
    hide Expect.Expected, HeadText, Expect.Members, Expect.Understood, Expect.Spells, Expect.IsHttp11Line, LineOk, LineText, AllWords, Http11;
    var all := [request] + Texts(ls);
    forall i | 0 <= i < |ls| ensures Plain(LineText(ls[i])) {
      TextIsPlain(ls[i]);
    }
    ExpectedOfLines(all);
    Http11Exactly(request, if ls == [] then [] else [CR]);
    assert request + [] == request;
    var ws := AllWords(ls);
    forall i | 0 <= i < |ws| ensures Expect.Understood(ws[i]) <==> Expect.Spells(ws[i], Ascii("100-continue")) {
      Expect.UnderstoodExactly(ws[i]);
    }
    assert Expect.Members(WithCr(all)[1..]) == ws by {
      if ls == [] {
        NoMembers();
        NoWords();
        assert WithCr(all)[1..] == [];
      } else {
        LinesRead(ls);
        assert all[1..] == Texts(ls);
        assert WithCr(all)[1..] == WithCr(Texts(ls));
      }
    }
  }

  lemma {:induction false} NoWords()
    ensures AllWords([]) == []
  {
  }

  // ---- a client that holds its body back ----

  /** The reads from `from` up to `to` bring exactly `s`, in some cutting. */
  ghost predicate Sends(peer: Peer, from: nat, s: seq<byte>, to: nat)
    decreases |s|
  {
    if s == [] then from == to
    else
      var r := peer(from);
      r.Got? && r.data != [] && r.data <= s && Sends(peer, from + 1, s[|r.data|..], to)
  }

  /** A whole head within its cap, with its body still to come. */
  ghost predicate Awaits(env: Env, head: seq<byte>) {
    && env.head(head).Parsed? && Parse(env, head).Incomplete? && |head| <= MAX_HEADER_BYTES
    && |head| >= 4 && Expect.FindBlank(head, 0) == Some(|head| - 4)
  }

  lemma {:induction false} NoBlankYet(head: seq<byte>, k: nat)
    requires |head| >= 4 && Expect.FindBlank(head, 0) == Some(|head| - 4) && k < |head|
    ensures Expect.Expected(head[..k]).None?
  {
    hide Expect.OfHead;
    assert forall i: nat :: Expect.BlankAt(head[..k], i) ==> Expect.BlankAt(head, i) && i + 4 <= k;
  }

  /**
  When the head is in, the interim response goes out before anything else is
  read: whatever the peer does afterwards, it is written exactly once, after the
  head and nothing more.
  */
  lemma {:induction false} WrittenAfterHead(env: Env, peer: Peer, head: seq<byte>, k: nat, calls: nat, to: nat)
    requires Incremental(env) && Awaits(env, head) && Expect.Expected(head) == Some(Expect.Continue)
    requires k <= |head| && Sends(peer, calls, head[k..], to)
    ensures Loop(env, peer, true, head[..k], false, calls).sentAt == [head]
    decreases |head| - k
  {
    hide Loop, Parse, Incremental, Expect.Expected;
    if k == |head| {
      assert head[..k] == head;
      WrittenNow(env, peer, head, calls);
    } else {
      var d := peer(calls).data;
      assert head[..k] + d == head[..k + |d|] && head[k..][|d|..] == head[k + |d|..];
      NotYetWritten(env, peer, head, k, calls);
      WrittenAfterHead(env, peer, head, k + |d|, calls + 1, to);
    }
  }

  lemma {:induction false} WrittenNow(env: Env, peer: Peer, head: seq<byte>, calls: nat)
    requires Awaits(env, head) && Expect.Expected(head) == Some(Expect.Continue)
    ensures Loop(env, peer, true, head, false, calls).sentAt == [head]
  {
    hide Loop, Parse, Expect.Expected;
    LoopTurn(env, peer, true, head, false, calls, []);
    assert [] + [head] == [head] && [head] + [] == [head];
    var here, next := Loop(env, peer, true, head, false, calls).sentAt, peer(calls);
    assert [] + here == here;
    if !IsEnd(next) {
      InterimOnce(env, peer, true, head + next.data, true, calls + 1);
    }
  }

  lemma {:induction false} NotYetWritten(env: Env, peer: Peer, head: seq<byte>, k: nat, calls: nat)
    requires Incremental(env) && Awaits(env, head) && k < |head| && peer(calls).Got? && peer(calls).data != []
    ensures Loop(env, peer, true, head[..k], false, calls).sentAt ==
            Loop(env, peer, true, head[..k] + peer(calls).data, false, calls + 1).sentAt
  {
    hide Loop, Parse, Incremental, Expect.Expected;
    assert head[..|head|] == head;
    NotDecidedBefore(env, head, |head|, k);
    NoBlankYet(head, k);
    LoopTurn(env, peer, true, head[..k], false, calls, []);
    var here := Loop(env, peer, true, head[..k], false, calls).sentAt;
    var rest := Loop(env, peer, true, head[..k] + peer(calls).data, false, calls + 1).sentAt;
    assert [] + here == here && [] + rest == rest;
  }

  lemma {:induction false} SendsThenDelivers(peer: Peer, from: nat, a: seq<byte>, to: nat, b: seq<byte>, last: Read)
    requires Sends(peer, from, a, to) && Delivers(peer, to, b, last)
    ensures Delivers(peer, from, a + b, last)
    decreases |a|
  {
    if a == [] {
      assert a + b == b;
    } else {
      var d := peer(from).data;
      SendsThenDelivers(peer, from + 1, a[|d|..], to, b, last);
      assert (a + b)[|d|..] == a[|d|..] + b;
    }
  }

  /** And with the body sent after it, the request is returned. */
  lemma {:induction false} ThenReturned(env: Env, peer: Peer, head: seq<byte>, to: nat, body: seq<byte>, last: Read)
    requires Incremental(env) && Awaits(env, head) && Expect.Expected(head) == Some(Expect.Continue)
    requires Parse(env, head + body).Complete? && |head + body| <= LIMIT
    requires Sends(peer, 0, head, to) && Delivers(peer, to, body, last) && IsEnd(last)
    ensures Loop(env, peer, true, [], false, 0).result == Ok(Parse(env, head + body).req)
  {
    hide Loop, Parse, Expect.Expected, Delivers, Sends, EndsWithEmptyLine;
    var s := head + body;
    SendsThenDelivers(peer, 0, head, to, body, last);
    Expect.ExpectedStable(head, body);
    assert s[..|s|] == s;
    assert env.head(s) == env.head(head);
    assert env.head(head).head.size <= |head| by { SizeWithin(head, env.head(head).head.size); }
    SameRequestForEveryCut(env, peer, s, last, |s|);
  }

  /**
  A client of HTTP/1.1 that asks to continue, in one or more `Expect` lines of
  any spelling and spacing and nothing else in them, and sends its body only
  after it was told to: exactly one interim response, after the head, and then
  the request.
  */
  lemma {:induction false} ContinueServed(env: Env, peer: Peer, request: seq<byte>, ls: seq<Line>, to: nat,
                                          body: seq<byte>, last: Read)
    requires Incremental(env) && Plain(request) && LinesOk(ls)
    requires Http11(request) && AllWords(ls) != []
    requires forall i :: 0 <= i < |AllWords(ls)| ==> Expect.Spells(AllWords(ls)[i], Ascii("100-continue"))
    requires var head := HeadText([request] + Texts(ls));
             && env.head(head).Parsed? && Parse(env, head).Incomplete? && |head| <= MAX_HEADER_BYTES
             && Sends(peer, 0, head, to)
    ensures var head := HeadText([request] + Texts(ls));
            && Loop(env, peer, true, [], false, 0).sentAt == [head]
            && (Parse(env, head + body).Complete? && |head + body| <= LIMIT
                && Delivers(peer, to, body, last) && IsEnd(last) ==>
                  Loop(env, peer, true, [], false, 0).result == Ok(Parse(env, head + body).req))
  {
    hide Loop, Parse, Expect.Expected, Delivers, Sends, Incremental, HeadText, AllWords, LineText, LineOk, Plain, Http11;
    var all := [request] + Texts(ls);
    var head := HeadText(all);
    ExpectedOfWritten(request, ls);
    forall i | 0 <= i < |ls| ensures Plain(LineText(ls[i])) {
      TextIsPlain(ls[i]);
    }
    OneBlank(all, 0);
    HeadTextEnds(all);
    assert head[..0] == [] && head[0..] == head;
    WrittenAfterHead(env, peer, head, 0, 0, to);
    if Parse(env, head + body).Complete? && |head + body| <= LIMIT && Delivers(peer, to, body, last) && IsEnd(last) {
      ThenReturned(env, peer, head, to, body, last);
    }
  }
}
