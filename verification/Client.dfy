/**
A peer that reads responses off a connection knowing only the method it asked
with: it reads a head, takes the status from it, and decides from method and
status whether a body follows (section 6.3 of RFC 9112).
*/
module Client {
  import opened Bytes
  import opened Responder
  import Chunked
  import Expect
  import Framing

  datatype Answer = Answer(status: nat, body: seq<byte>, used: nat)

  /** The number between the first two spaces of a status line. */
  function StatusOf(line: seq<byte>): Option<nat> {
    var version := Ascii("HTTP/1.1 ");
    if !(version <= line) then None
    else
      match Expect.FindByte(line[|version|..], SPACE)
      case None => None
      case Some(k) => Framing.DigitsValue(TextOf(line[|version|..][..k]))
  }

  /** No body follows an answer to HEAD, an interim one, a 204 or a 304. */
  predicate NoBody(verb: string, status: nat) {
    verb == "HEAD" || status == 204 || status == 304 || status / 100 == 1
  }

  function ReadResponse(verb: string, s: seq<byte>): Option<Answer> {
    match ReadHead(s, 0)
    case None => None
    case Some(h) =>
      if h.lines == [] || StatusOf(h.lines[0]).None? then None
      else
        var status := StatusOf(h.lines[0]).value;
        if NoBody(verb, status) then Some(Answer(status, [], h.body))
        else
          var ns := Lengths(h.lines);
          if |ns| == 1 && ns[0].Some? && h.body + ns[0].value <= |s| then
            Some(Answer(status, s[h.body..h.body + ns[0].value], h.body + ns[0].value))
          else None
  }

  lemma {:induction false} DigitBytes(n: nat)
    ensures SPACE !in DecimalBytes(n) && TextOf(DecimalBytes(n)) == Framing.Decimal(n)
  {
    var d := Framing.Decimal(n);
    forall i | 0 <= i < |d| ensures d[i] as int != 32 {
      assert Framing.IsDigit(d[i]);
    }
    hide Framing.Decimal;
    assert forall i :: 0 <= i < |d| ==> TextOf(Ascii(d))[i] == d[i];
  }

  /** The status a client reads is the status written, whatever the reason. */
  lemma {:induction false} StatusReads(status: nat, x: seq<byte>)
    ensures StatusOf(Ascii("HTTP/1.1 ") + DecimalBytes(status) + [SPACE] + x) == Some(status)
  {
    hide DecimalBytes, Expect.FindByte, Ascii, TextOf;
    var v, d := Ascii("HTTP/1.1 "), DecimalBytes(status);
    var rest := d + [SPACE] + x;
    assert v + d + [SPACE] + x == v + rest;
    DigitBytes(status);
    SpaceAt(d, x);
    assert rest[..|d|] == d;
    Framing.DecimalValue(status);
  }

  lemma {:induction false} SpaceAt(d: seq<byte>, x: seq<byte>)
    requires SPACE !in d
    ensures Expect.FindByte(d + [SPACE] + x, SPACE) == Some(|d|)
  {
    hide Expect.FindByte;
    var s := d + [SPACE] + x;
    assert s[|d|] == SPACE;
    var f := Expect.FindByte(s, SPACE);
    assert forall i :: 0 <= i < |d| ==> s[i] in d;
    assert forall i :: |d| < i <= |s| ==> s[..i][|d|] == SPACE;
  }

  /** A line that a line end cuts keeps its beginning. */
  lemma {:induction false} FirstWire(fixed: seq<byte>, x: seq<byte>) returns (y: seq<byte>)
    requires CR !in fixed
    ensures WireLines(fixed + x)[0] == fixed + y
  {
    hide FindCrlf;
    var l := fixed + x;
    match FindCrlf(l, 0)
    case None => y := x;
    case Some(e) =>
      assert forall i :: 0 <= i < |fixed| ==> l[i] in fixed;
      assert e >= |fixed|;
      y := l[|fixed|..e];
      assert l[..e] == fixed + y;
  }

  /** The status in the first line on the wire. */
  lemma {:induction false} StatusOnWire(status: nat, reason: seq<byte>, more: seq<seq<byte>>)
    ensures StatusOf(AllWire([StatusLine(status, reason)] + more)[0]) == Some(status)
  {
    hide WireLines, DecimalBytes, StatusOf;
    var fixed := Ascii("HTTP/1.1 ") + DecimalBytes(status) + [SPACE];
    assert CR !in Ascii("HTTP/1.1 ") && CR !in fixed;
    hide Ascii;
    var y := FirstWire(fixed, reason);
    assert StatusLine(status, reason) == fixed + reason;
    StatusReads(status, y);
  }

  /** What goes out for a response: the head, and the body where one may follow. */
  function Sent(verb: string, status: nat, reason: seq<byte>, fs: seq<Field>, keepAlive: bool, body: seq<byte>): seq<byte> {
    HeadBytes(status, reason, fs, |body|, keepAlive)
    + if Bodyless(Framing.EqFold(verb, "HEAD"), status) then [] else body
  }

  /** A client that gets no body expects none. */
  function Shown(verb: string, status: nat, body: seq<byte>): seq<byte> { if NoBody(verb, status) then [] else body }

  /** Client and server agree on the method: it is HEAD, or no spelling of it. */
  predicate Agreed(verb: string, status: nat, body: seq<byte>) {
    verb == "HEAD" || !Framing.EqFold(verb, "HEAD") || status == 204 || status == 304 || status / 100 == 1 || body == []
  }

  lemma {:induction false} HeadIsHead()
    ensures Framing.EqFold("HEAD", "HEAD")
  {
  }

  /** The decision about the body, on both sides. */
  lemma {:induction false} BodyDecision(verb: string, status: nat, body: seq<byte>)
    ensures NoBody(verb, status) ==> Bodyless(Framing.EqFold(verb, "HEAD"), status)
    ensures Agreed(verb, status, body) <==>
            Shown(verb, status, body) == if Bodyless(Framing.EqFold(verb, "HEAD"), status) then [] else body
  {
    hide Framing.EqFold;
    HeadIsHead();
  }

  /** What a client makes of the bytes after a harmless head. */
  lemma {:induction false} ReadsHead(verb: string, status: nat, reason: seq<byte>, fs: seq<Field>, keepAlive: bool,
                                     length: nat, after: seq<byte>)
    requires length <= Chunked.USIZE_MAX && HeadHarmless(status, reason, fs)
    ensures var head := HeadBytes(status, reason, fs, length, keepAlive);
            ReadResponse(verb, head + after) ==
            if NoBody(verb, status) then Some(Answer(status, [], |head|))
            else if length <= |after| then Some(Answer(status, after[..length], |head| + length))
            else None
  {
    hide ReadHead, HeadBytes, Lengths, AllWire, StatusOf, HeadHarmless, StatusLine, KeptLines, LengthLine, ConnectionLine;
    var head := HeadBytes(status, reason, fs, length, keepAlive);
    HarmlessReads(status, reason, fs, length, keepAlive, after);
    HeadReads(status, reason, fs, length, keepAlive, after);
    StatusOnWire(status, reason, KeptLines(fs) + [LengthLine(length), ConnectionLine(keepAlive)]);
    var ls := HeadLines(status, reason, fs, length, keepAlive);
    assert ls == [StatusLine(status, reason)] + (KeptLines(fs) + [LengthLine(length), ConnectionLine(keepAlive)]);
    assert AllWire(ls) != [] by { WireStarts(ls); }
    assert length <= |after| ==> (head + after)[|head|..|head| + length] == after[..length];
  }

  lemma {:induction false} WireStarts(ls: seq<seq<byte>>)
    requires ls != []
    ensures AllWire(ls) != []
  {
  }

  /**
  A client reads exactly the response sent, and stops where it ends, if and only
  if the two agree on the method. A method like `head`, which is not HEAD to the
  client, is answered without the body that the client then waits for.
  */
  lemma {:induction false} ResponseReadsExactly(verb: string, status: nat, reason: seq<byte>, fs: seq<Field>,
                                                keepAlive: bool, body: seq<byte>, rest: seq<byte>)
    requires |body| <= Chunked.USIZE_MAX && HeadHarmless(status, reason, fs)
    ensures var sent := Sent(verb, status, reason, fs, keepAlive, body);
            ReadResponse(verb, sent + rest) == Some(Answer(status, Shown(verb, status, body), |sent|)) <==>
            Agreed(verb, status, body)
  {
    hide ReadResponse, HeadBytes, HeadHarmless, Bodyless, NoBody, Agreed, Framing.EqFold;
    var head := HeadBytes(status, reason, fs, |body|, keepAlive);
    BodyDecision(verb, status, body);
    var out := if Bodyless(Framing.EqFold(verb, "HEAD"), status) then [] else body;
    ReadsHead(verb, status, reason, fs, keepAlive, |body|, out + rest);
    assert Sent(verb, status, reason, fs, keepAlive, body) + rest == head + (out + rest);
    assert out == body ==> (out + rest)[..|body|] == body;
  }

  datatype Reply = Reply(verb: string, status: nat, reason: seq<byte>, fields: seq<Field>, body: seq<byte>)

  /** What goes out for several requests on one connection. */
  function AllSent(rs: seq<Reply>, keepAlive: bool): seq<byte> {
    if rs == [] then []
    else Sent(rs[0].verb, rs[0].status, rs[0].reason, rs[0].fields, keepAlive, rs[0].body) + AllSent(rs[1..], keepAlive)
  }

  /** What a client that made these requests reads, one response after the other. */
  function AllRead(verbs: seq<string>, s: seq<byte>): Option<seq<(nat, seq<byte>)>> {
    if verbs == [] then Some([])
    else
      match ReadResponse(verbs[0], s)
      case None => None
      case Some(a) =>
        if a.used > |s| then None
        else
          match AllRead(verbs[1..], s[a.used..])
          case None => None
          case Some(more) => Some([(a.status, a.body)] + more)
  }

  function Verbs(rs: seq<Reply>): seq<string> { if rs == [] then [] else [rs[0].verb] + Verbs(rs[1..]) }

  function AllShown(rs: seq<Reply>): seq<(nat, seq<byte>)> {
    if rs == [] then [] else [(rs[0].status, Shown(rs[0].verb, rs[0].status, rs[0].body))] + AllShown(rs[1..])
  }

  ghost predicate ReplyOk(r: Reply) {
    |r.body| <= Chunked.USIZE_MAX && HeadHarmless(r.status, r.reason, r.fields) && Agreed(r.verb, r.status, r.body)
  }

  /** Responses sent one after the other on a connection are read as exactly those. */
  lemma {:induction false} ResponsesRead(rs: seq<Reply>, keepAlive: bool, rest: seq<byte>)
    requires forall i :: 0 <= i < |rs| ==> ReplyOk(rs[i])
    ensures AllRead(Verbs(rs), AllSent(rs, keepAlive) + rest) == Some(AllShown(rs))
  {
    hide ReadResponse, Sent, Shown, HeadHarmless, Agreed;
    if rs != [] {
      var r := rs[0];
      assert ReplyOk(r);
      var first, others := Sent(r.verb, r.status, r.reason, r.fields, keepAlive, r.body), AllSent(rs[1..], keepAlive);
      assert AllSent(rs, keepAlive) + rest == first + (others + rest);
      ResponseReadsExactly(r.verb, r.status, r.reason, r.fields, keepAlive, r.body, others + rest);
      assert (first + (others + rest))[|first|..] == others + rest;
      ResponsesRead(rs[1..], keepAlive, rest);
      assert Verbs(rs)[1..] == Verbs(rs[1..]);
    }
  }

  /** Not so for `head`: the body the head announces never comes. */
  lemma {:induction false} LowerCaseHeadDiffers(reason: seq<byte>, fs: seq<Field>, keepAlive: bool, body: seq<byte>)
    requires |body| <= Chunked.USIZE_MAX && HeadHarmless(200, reason, fs) && body != []
    ensures ReadResponse("head", Sent("head", 200, reason, fs, keepAlive, body)) == None
  {
    hide ReadResponse, HeadBytes, HeadHarmless;
    assert Framing.EqFold("head", "HEAD");
    var head := HeadBytes(200, reason, fs, |body|, keepAlive);
    ReadsHead("head", 200, reason, fs, keepAlive, |body|, []);
    assert Sent("head", 200, reason, fs, keepAlive, body) == head + [];
  }

  // ---- the other fields, and whether the connection stays ----

  /** A field line as a client takes it apart: the name, and the value without the blanks around it. */
  function FieldOf(line: seq<byte>): Option<Field> {
    match Expect.FindByte(line, COLON)
    case None => None
    case Some(k) => Some((line[..k], Expect.TrimAscii(line[k + 1..])))
  }

  lemma {:induction false} FieldReads(f: Field)
    requires COLON !in f.0
    ensures FieldOf(FieldLine(f)) == Some((f.0, Expect.TrimAscii(f.1)))
  {
    hide Expect.FindByte;
    var line := FieldLine(f);
    assert line == f.0 + [COLON] + ([SPACE] + f.1);
    NameOfLine(f.0, [SPACE] + f.1);
    assert line[|f.0| + 1..] == [SPACE] + f.1 && ([SPACE] + f.1)[1..] == f.1;
  }

  /** The values of the `Connection` fields among some lines. */
  function Connections(ls: seq<seq<byte>>): seq<seq<byte>> {
    if ls == [] then [] else ConnectionOf(ls[0]) + Connections(ls[1..])
  }

  function ConnectionOf(line: seq<byte>): seq<seq<byte>> {
    match FieldOf(line)
    case Some(f) => if Expect.EqFoldBytes(f.0, Ascii("connection")) then [f.1] else []
    case None => []
  }

  lemma {:induction false} ConnectionsConcat(a: seq<seq<byte>>, b: seq<seq<byte>>)
    ensures Connections(a + b) == Connections(a) + Connections(b)
  {
    hide ConnectionOf;
    if a == [] {
      assert a + b == b;
    } else {
      assert (a + b)[1..] == a[1..] + b;
      ConnectionsConcat(a[1..], b);
      assert ConnectionOf(a[0]) + (Connections(a[1..]) + Connections(b)) == ConnectionOf(a[0]) + Connections(a[1..]) + Connections(b);
    }
  }

  lemma {:induction false} NoKeptConnection(fs: seq<Field>)
    requires forall i :: 0 <= i < |fs| ==> COLON !in fs[i].0
    ensures Connections(KeptLines(fs)) == []
  {
    hide Expect.EqFoldBytes, FieldOf, FieldLine;
    if fs != [] {
      NoKeptConnection(fs[1..]);
      FieldReads(fs[0]);
      assert ([FieldLine(fs[0])] + KeptLines(fs[1..]))[1..] == KeptLines(fs[1..]);
    }
  }

  lemma {:induction false} OwnConnection(keepAlive: bool)
    ensures ConnectionOf(ConnectionLine(keepAlive)) == [if keepAlive then Ascii("keep-alive") else Ascii("close")]
  {
    hide Expect.FindByte, Expect.EqFoldBytes;
    var name, value := Ascii("Connection"), if keepAlive then Ascii("keep-alive") else Ascii("close");
    ConnectionName();
    assert Expect.EqFoldBytes(name, Ascii("connection")) by { SameName(); }
    assert !Expect.IsSpace(value[0]) && !Expect.IsSpace(value[|value| - 1]);
    hide Ascii;
    FieldReads((name, value));
    assert ConnectionLine(keepAlive) == FieldLine((name, value));
    assert Expect.TrimAscii(value) == value;
  }

  lemma {:induction false} SameName()
    ensures Expect.EqFoldBytes(Ascii("Connection"), Ascii("connection"))
  {
  }

  lemma {:induction false} LengthIsNoConnection(length: nat)
    ensures ConnectionOf(LengthLine(length)) == []
  {
    hide Expect.FindByte, DecimalBytes, Expect.TrimAscii;
    var name, rest := Ascii("Content-Length"), [SPACE] + DecimalBytes(length);
    assert LengthLine(length) == name + [COLON] + rest;
    assert COLON !in name;
    NameOfLine(name, rest);
    assert (name + [COLON] + rest)[..|name|] == name;
  }

  /** The head says once, and rightly, whether the connection stays, whatever the caller put into its fields. */
  lemma {:induction false} PersistenceReads(fs: seq<Field>, length: nat, keepAlive: bool)
    requires forall i :: 0 <= i < |fs| ==> COLON !in fs[i].0
    ensures Connections(KeptLines(fs) + [LengthLine(length), ConnectionLine(keepAlive)]) ==
            [if keepAlive then Ascii("keep-alive") else Ascii("close")]
  {
    hide ConnectionOf, LengthLine, ConnectionLine, KeptLines, Ascii;
    var a: seq<seq<byte>>, b: seq<seq<byte>> := [LengthLine(length)], [ConnectionLine(keepAlive)];
    NoKeptConnection(fs);
    OwnConnection(keepAlive);
    LengthIsNoConnection(length);
    ConnectionsConcat(KeptLines(fs), a + b);
    ConnectionsConcat(a, b);
    assert a[1..] == [] && b[1..] == [];
    assert a + b == [LengthLine(length), ConnectionLine(keepAlive)];
  }
}
