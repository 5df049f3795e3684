/**
Streams for which two cuttings get different answers: whole families, and one
message of each with a head parser that knows it; and one that asks to continue.
*/
module CutSamples {
  import opened Bytes
  import opened Framing
  import opened ReadLoop
  import opened Cuts
  import opened Heads
  import opened Interim
  import Chunked
  import Expect

  lemma {:induction false} NoBlankBefore(s: seq<byte>, m: nat, k: nat)
    requires k <= m <= |s| && !HeadDone(s[..m])
    ensures !HeadDone(s[..k]) && Expect.Expected(s[..k]).None?
  {
    hide Expect.FindBlank;
    assert s[..k] + s[k..m] == s[..m];
    if HeadDone(s[..k]) {
      Expect.BlankStable(s[..k], s[k..m]);
    }
  }

  /** While neither the blank line nor a decision is there, the header cap alone stops the loop. */
  lemma {:induction false} HeadArriving(env: Env, s: seq<byte>, m: nat, k: nat)
    requires Incremental(env) && k <= m <= |s| && !HeadDone(s[..m]) && Parse(env, s[..m]).Incomplete?
    ensures StopAt(env, s, k) == if k > MAX_HEADER_BYTES then Some(Err(RequestTooLarge)) else None
  {
    hide Parse, Incremental, Expect.Expected, HeadDone;
    NotDecidedBefore(env, s, m, k);
    NoBlankBefore(s, m, k);
  }

  /** A head that no read completes from within the header cap is too large for every cutting. */
  lemma {:induction false} HeadBeyondOneRead(env: Env, s: seq<byte>, last: Read)
    requires Incremental(env) && IsEnd(last) && |s| >= MAX_HEADER_BYTES + READ_SIZE
    requires !HeadDone(s[..MAX_HEADER_BYTES + READ_SIZE]) && Parse(env, s[..MAX_HEADER_BYTES + READ_SIZE]).Incomplete?
    ensures forall p: Peer :: Delivers(p, 0, s, last) ==> Loop(env, p, true, [], false, 0).result == Err(RequestTooLarge)
  {
    hide Parse, Incremental, HeadDone, StopAt, Loop, Delivers, Known;
    forall k: nat | k <= MAX_HEADER_BYTES + READ_SIZE
      ensures StopAt(env, s, k) == if k > MAX_HEADER_BYTES then Some(Err(RequestTooLarge)) else None
    {
      HeadArriving(env, s, MAX_HEADER_BYTES + READ_SIZE, k);
    }
    FirstKnown(s);
    forall p: Peer | Delivers(p, 0, s, last) ensures Loop(env, p, true, [], false, 0).result == Err(RequestTooLarge) {
      WallStops(env, p, s, last, MAX_HEADER_BYTES + 1, Err(RequestTooLarge), 0, false, 0);
    }
  }

  /** Two cuttings with these answers. */
  ghost predicate Differ(env: Env, s: seq<byte>, last: Read, a: Result, b: Result) {
    exists p: Peer, q: Peer ::
      && Delivers(p, 0, s, last) && Loop(env, p, true, [], false, 0).result == a
      && Delivers(q, 0, s, last) && Loop(env, q, true, [], false, 0).result == b
  }

  lemma {:induction false} BothReached(env: Env, s: seq<byte>, last: Read, j: nat, k: nat)
    requires IsEnd(last) && j <= |s| && k <= |s| && Reached(env, s, j) && Reached(env, s, k)
    requires StopAt(env, s, j).Some? && StopAt(env, s, k).Some?
    ensures Differ(env, s, last, StopAt(env, s, j).value, StopAt(env, s, k).value)
  {
    hide StopAt, Reached, Delivers, Loop;
    var p := ReachedIsAnswer(env, s, last, j);
    var q := ReachedIsAnswer(env, s, last, k);
  }

  lemma {:induction false} CompleteStops(env: Env, s: seq<byte>)
    requires Parse(env, s).Complete?
    ensures StopAt(env, s, |s|) == Some(Ok(Parse(env, s).req))
  {
    hide Parse;
    assert s[..|s|] == s;
  }

  /**
  A whole message with its blank line beyond the header cap, but within one read
  of it: accepted if that read brings it, refused if a shorter one comes first.
  */
  lemma {:induction false} LongHeadDiffers(env: Env, s: seq<byte>, last: Read)
    requires Incremental(env) && IsEnd(last) && Parse(env, s).Complete?
    requires MAX_HEADER_BYTES + 1 < |s| <= MAX_HEADER_BYTES + READ_SIZE
    requires !HeadDone(s[..MAX_HEADER_BYTES + 1]) && Parse(env, s[..MAX_HEADER_BYTES + 1]).Incomplete?
    ensures Differ(env, s, last, Ok(Parse(env, s).req), Err(RequestTooLarge))
  {
    hide Parse, Incremental, HeadDone, StopAt, Reached, Differ;
    forall k: nat | k <= MAX_HEADER_BYTES + 1
      ensures StopAt(env, s, k) == if k > MAX_HEADER_BYTES then Some(Err(RequestTooLarge)) else None
    {
      HeadArriving(env, s, MAX_HEADER_BYTES + 1, k);
    }
    OpenUpTo(env, s, MAX_HEADER_BYTES);
    Beyond(env, s, MAX_HEADER_BYTES, |s|);
    Beyond(env, s, MAX_HEADER_BYTES, MAX_HEADER_BYTES + 1);
    CompleteStops(env, s);
    BothReached(env, s, last, |s|, MAX_HEADER_BYTES + 1);
  }

  lemma {:induction false} OpenUpTo(env: Env, s: seq<byte>, k: nat)
    requires k <= |s| && forall j: nat :: j < k ==> StopAt(env, s, j).None?
    ensures Reached(env, s, k)
  {
    hide StopAt, Reached;
    if k == 0 {
      ReachedFirst(env, s);
    } else {
      OpenUpTo(env, s, k - 1);
      Beyond(env, s, k - 1, k);
    }
  }

  /**
  A whole message of at most one read with an expectation the server cannot
  meet: accepted if it comes at once, refused if its head comes first.
  */
  lemma {:induction false} ExpectDiffers(env: Env, s: seq<byte>, last: Read, k: nat)
    requires Incremental(env) && IsEnd(last) && Parse(env, s).Complete? && |s| <= READ_SIZE
    requires 0 < k < |s| && Parse(env, s[..k]).Incomplete? && Expect.Expected(s[..k]) == Some(Expect.Unsupported)
    ensures Differ(env, s, last, Ok(Parse(env, s).req), Err(ExpectationFailed))
  {
    hide Parse, Incremental, Expect.Expected, Reached, Differ, Cap;
    assert StopAt(env, s, k) == Some(Err(ExpectationFailed)) by { CapAtLeast(s[..k]); }
    NotDecidedBefore(env, s, k, 0);
    assert StopAt(env, s, 0).None? by { NothingYet(s); }
    hide StopAt;
    ReachedFirst(env, s);
    Beyond(env, s, 0, |s|);
    Beyond(env, s, 0, k);
    CompleteStops(env, s);
    BothReached(env, s, last, |s|, k);
  }

  lemma {:induction false} CapAtLeast(buf: seq<byte>)
    ensures Cap(buf) >= MAX_HEADER_BYTES
  {
  }

  lemma {:induction false} NothingYet(s: seq<byte>)
    ensures Expect.Expected(s[..0]).None?
  {
    assert s[..0] == [] && Expect.FindBlank([], 0).None?;
  }

  // ---- a head parser that knows one head ----

  function Knows(bytes: seq<byte>, head: Head): Env {
    Env(
      (b: seq<byte>) => if bytes <= b then Parsed(head) else if b <= bytes then Partial else Refused,
      (v: seq<byte>) => Some(TextOf(v)),
      (h: string) => true)
  }

  lemma {:induction false} KnowsIncremental(bytes: seq<byte>, head: Head)
    requires head.size == |bytes| && EndsWithEmptyLine(bytes, |bytes|)
    ensures Incremental(Knows(bytes, head))
  {
    var env := Knows(bytes, head);
    forall b: seq<byte>, x: seq<byte> | env.head(b) != Partial ensures env.head(b + x) == env.head(b) {
      if bytes <= b + x {
        assert |b| <= |bytes| ==> b == (b + x)[..|b|] == bytes[..|b|];
        assert |bytes| <= |b| ==> bytes == (b + x)[..|bytes|] == b[..|bytes|];
      }
      if b + x <= bytes {
        assert b == bytes[..|b|];
      }
    }
    forall b: seq<byte> | env.head(b).Parsed? ensures EndsWithEmptyLine(b, env.head(b).head.size) {
      assert b[..|bytes|] == bytes;
    }
  }

  // ---- a head beyond the cap ----

  function RequestLine(): seq<byte> { Ascii("GET / HTTP/1.1") }
  function HostLine(): seq<byte> { Ascii("Host: a") }
  function Host(): Header { Header("Host", Ascii("a")) }

  function Padding(): seq<byte> { seq(8200, i => 97) }
  function LongLines(): seq<seq<byte>> { [RequestLine(), HostLine(), Ascii("X: ") + Padding()] }
  function LongHead(): Head {
    Head(|HeadText(LongLines())|, "GET", "/", true, [Host(), Header("X", Padding())])
  }

  lemma {:induction false} ScanHost(bytes: seq<byte>, head: Head, sc: Scan)
    ensures ScanOne(Knows(bytes, head), Host(), sc) ==
            Some(sc.(hosts := sc.hosts + 1, fwd := sc.fwd + [("Host", "a")]))
  {
    assert TextOf(Ascii("a")) == "a";
    assert Trim("a") == "a";
  }

  lemma {:induction false} ScanOther(bytes: seq<byte>, head: Head, h: Header, sc: Scan)
    requires !Is(h, "transfer-encoding") && !Is(h, "content-length") && !Is(h, "host")
    ensures ScanOne(Knows(bytes, head), h, sc) == Some(sc.(fwd := sc.fwd + [(h.name, TextOf(h.value))]))
  {
    hide Is, TextOf, Trim;
  }

  lemma {:induction false} ScanSnoc(env: Env, hs: seq<Header>, h: Header)
    requires ScanAll(env, hs).Some?
    ensures ScanAll(env, hs + [h]) == ScanOne(env, h, ScanAll(env, hs).value)
  {
    assert (hs + [h])[..|hs|] == hs;
  }

  lemma {:induction false} ScanNothing(env: Env)
    ensures ScanAll(env, []) == Some(NO_FIELDS)
  {
  }

  lemma {:induction false} LongVerdict(bytes: seq<byte>)
    ensures Verdict(Knows(bytes, LongHead()), LongHead().headers, true) == Some(Length(0))
  {
    hide HeadText, LongLines, TextOf, ScanOne, ScanAll;
    var env, x := Knows(bytes, LongHead()), Header("X", Padding());
    assert !Is(x, "transfer-encoding") && !Is(x, "content-length") && !Is(x, "host");
    hide Is, Padding;
    ScanNothing(env);
    ScanSnoc(env, [], Host());
    ScanHost(bytes, LongHead(), NO_FIELDS);
    assert [] + [Host()] == [Host()];
    ScanSnoc(env, [Host()], x);
    ScanOther(bytes, LongHead(), x, ScanAll(env, [Host()]).value);
    assert [Host()] + [x] == LongHead().headers;
  }

  lemma {:induction false} PlainCommon()
    ensures Plain(RequestLine()) && |RequestLine()| == 14 && Plain(HostLine()) && |HostLine()| == 7
  {
  }

  lemma {:induction false} LongIsPlain()
    ensures |LongLines()| == 3 && forall i :: 0 <= i < 3 ==> Plain(LongLines()[i])
    ensures |HeadText(LongLines())| == 8232
  {
    hide HeadText, Plain;
    PlainCommon();
    var ls := LongLines();
    var l := Ascii("X: ") + Padding();
    assert Plain(l) && |l| == 8203 by { PaddedIsPlain(); }
    HeadTextStep(ls);
    HeadTextStep(ls[1..]);
    HeadTextStep(ls[1..][1..]);
    NoLines(ls[1..][1..][1..]);
  }

  lemma {:induction false} PaddedIsPlain()
    ensures Plain(Ascii("X: ") + Padding()) && |Ascii("X: ") + Padding()| == 8203
  {
    assert CR !in Ascii("X: ") && LF !in Ascii("X: ");
  }

  /** A request of 8232 bytes: accepted when its last read starts at 8192, refused when one ends between. */
  lemma {:induction false} LongHeadSample(last: Read)
    requires IsEnd(last)
    ensures var s := HeadText(LongLines());
            var env := Knows(s, LongHead());
            && Incremental(env) && Parse(env, s).Complete?
            && Differ(env, s, last, Ok(Parse(env, s).req), Err(RequestTooLarge))
  {
    hide HeadText, LongLines, Plain, BareLf, ScanAll, Decide, Frame, Differ, Padding, BodyOf;
    var s := HeadText(LongLines());
    var env := Knows(s, LongHead());
    LongIsPlain();
    HeadTextEnds(LongLines());
    KnowsIncremental(s, LongHead());
    NoBareLf(LongLines());
    LongVerdict(s);
    assert s[..|s|] == s && s[|s|..] == [];
    assert BodyOf([], Length(0), []) by { NoBody(); }
    CompleteExactly(env, s, []);
    var m := MAX_HEADER_BYTES + 1;
    assert !HeadDone(s[..m]) by {
      if HeadDone(s[..m]) {
        OneBlank(LongLines(), Expect.FindBlank(s[..m], 0).value);
      }
    }
    assert s[..m] <= s && !(s <= s[..m]);
    LongHeadDiffers(env, s, last);
  }

  lemma {:induction false} NoBody()
    ensures BodyOf([], Length(0), [])
  {
  }

  // ---- expectations ----

  function LengthLine(): seq<byte> { Ascii("Content-Length: 1") }

  /** A head with this member in its `Expect` line. */
  function ExpectFields(word: seq<byte>): seq<Line> {
    [Expects(Ascii("Expect"), [Member([32], word, [])]), Other(HostLine()), Other(LengthLine())]
  }

  function ExpectBytes(word: seq<byte>): seq<byte> { HeadText([RequestLine()] + Texts(ExpectFields(word))) }

  function OneLength(): Header { Header("Content-Length", Ascii("1")) }

  function ExpectHead(word: seq<byte>): Head {
    Head(|ExpectBytes(word)|, "GET", "/", true, [Header("Expect", word), Host(), OneLength()])
  }

  lemma {:induction false} ScanLength(bytes: seq<byte>, head: Head, sc: Scan)
    requires sc.cl.None?
    ensures ScanOne(Knows(bytes, head), OneLength(), sc) ==
            Some(sc.(cl := Some("1"), fwd := sc.fwd + [("Content-Length", "1")]))
  {
    assert TextOf(Ascii("1")) == "1";
    assert Trim("1") == "1";
    ContentLengthName();
  }

  lemma {:induction false} ExpectVerdict(bytes: seq<byte>, word: seq<byte>)
    ensures Verdict(Knows(bytes, ExpectHead(word)), ExpectHead(word).headers, true) == Some(Length(1))
  {
    hide ExpectBytes, TextOf, ScanOne, ScanAll, ParseUsize;
    var head := ExpectHead(word);
    var env, x := Knows(bytes, head), Header("Expect", word);
    assert !Is(x, "transfer-encoding") && !Is(x, "content-length") && !Is(x, "host");
    hide Is;
    assert [] + [x] == [x] && [x] + [Host()] == [x, Host()] && [x, Host()] + [OneLength()] == head.headers;
    ScanNothing(env);
    ScanSnoc(env, [], x);
    ScanOther(bytes, head, x, NO_FIELDS);
    ScanSnoc(env, [x], Host());
    ScanHost(bytes, head, ScanAll(env, [x]).value);
    ScanSnoc(env, [x, Host()], OneLength());
    ScanLength(bytes, head, ScanAll(env, [x, Host()]).value);
    OneReads();
  }

  lemma {:induction false} OneReads()
    ensures ParseUsize("1") == Some(1)
  {
    assert DigitsValue("") == Some(0) && "1"[..0] == "";
    assert DigitsValue("1") == Some(1);
  }

  lemma {:induction false} NotExpect(text: seq<byte>)
    requires Plain(text) && (|text| > 6 ==> text[6] != 58)
    ensures LineOk(Other(text))
  {
    hide Expect.CapitalOf, Plain;
    assert |Ascii("expect")| == 6;
    forall name: seq<byte>, rest: seq<byte> | text == name + [58] + rest
      ensures !Expect.Spells(name, Ascii("expect"))
    {
      assert text[|name|] == 58;
    }
  }

  lemma {:induction false} OtherLinesOk()
    ensures LineOk(Other(HostLine())) && LineOk(Other(LengthLine()))
    ensures |LengthLine()| == 17
  {
    hide LineOk;
    PlainCommon();
    assert Plain(LengthLine()) && |LengthLine()| == 17 && LengthLine()[6] != 58 && HostLine()[6] != 58;
    NotExpect(HostLine());
    NotExpect(LengthLine());
  }

  lemma {:induction false} ExpectName()
    ensures Expect.Spells(Ascii("Expect"), Ascii("expect")) && |Ascii("Expect")| == 6
  {
    Expect.CapitalExactly(69, 101);
  }

  lemma {:induction false} FieldsOk(word: seq<byte>)
    requires word != [] && MemberOk(Member([32], word, []))
    ensures LinesOk(ExpectFields(word)) && AllWords(ExpectFields(word)) == [word]
  {
    hide Ascii, MemberOk, Plain, Expect.Spells, HostLine, LengthLine;
    OtherLinesOk();
    ExpectName();
    var ls := ExpectFields(word);
    assert ls[1..] == [Other(HostLine()), Other(LengthLine())] && ls[1..][1..] == [Other(LengthLine())];
    var ms := [Member([32], word, [])];
    assert ms[1..] == [];
    assert Words(ms) == [word] + [];
    assert AllWords(ls[1..][1..][1..]) == [] && AllWords(ls[1..][1..]) == [] && AllWords(ls[1..]) == [];
  }

  lemma {:induction false} ExpectLength(word: seq<byte>)
    ensures |ExpectBytes(word)| == 56 + |word|
  {
    PlainCommon();
    OtherLinesOk();
    ExpectName();
    hide HeadText, RequestLine, HostLine, LengthLine, Ascii, Plain, LineOk;
    var ms := [Member([32], word, [])];
    assert ListText(ms) == [32] + word + [];
    var ls := [RequestLine()] + Texts(ExpectFields(word));
    assert |ls[1]| == 8 + |word|;
    HeadTextStep(ls);
    HeadTextStep(ls[1..]);
    HeadTextStep(ls[1..][1..]);
    HeadTextStep(ls[1..][1..][1..]);
    NoLines(ls[1..][1..][1..][1..]);
  }

  lemma {:induction false} RequestIsHttp11()
    ensures Plain(RequestLine()) && Http11(RequestLine())
  {
    assert RequestLine() == Ascii("GET / ") + Ascii("HTTP/1.1");
  }

  /** The head alone is incomplete; with one more byte it is a request. */
  lemma {:induction false} ExpectParses(word: seq<byte>)
    requires word != [] && MemberOk(Member([32], word, []))
    ensures var bytes := ExpectBytes(word);
            var env := Knows(bytes, ExpectHead(word));
            && Incremental(env) && env.head(bytes).Parsed? && Parse(env, bytes).Incomplete?
            && Parse(env, bytes + [98]).Complete? && Parse(env, bytes + [98]).req.body == [98]
  {
    hide HeadText, Plain, MemberOk, LineOk, LineText, BareLf, EndsWithEmptyLine, Incremental, Parse, ExpectFields, RequestLine;
    var bytes := ExpectBytes(word);
    var all := [RequestLine()] + Texts(ExpectFields(word));
    AllPlain(word);
    HeadTextEnds(all);
    KnowsIncremental(bytes, ExpectHead(word));
    NoBareLf(all);
    KnownParses(bytes, word);
  }

  lemma {:induction false} KnownParses(bytes: seq<byte>, word: seq<byte>)
    requires bytes == ExpectBytes(word) && !BareLf(bytes)
    ensures var env := Knows(bytes, ExpectHead(word));
            && env.head(bytes).Parsed? && Parse(env, bytes).Incomplete?
            && Parse(env, bytes + [98]).Complete? && Parse(env, bytes + [98]).req.body == [98]
  {
    hide ExpectBytes, BareLf, ScanAll, Decide, SplitQuery, StripAbsoluteForm;
    ExpectVerdict(bytes, word);
    var s, n := bytes + [98], |bytes|;
    assert s[..n] == bytes && bytes[..n] == bytes && s[n..n + 1] == [98];
  }

  lemma {:induction false} AllPlain(word: seq<byte>)
    requires word != [] && MemberOk(Member([32], word, []))
    ensures var all := [RequestLine()] + Texts(ExpectFields(word));
            forall i :: 0 <= i < |all| ==> Plain(all[i])
  {
    hide Plain, LineOk, LineText, RequestLine;
    FieldsOk(word);
    RequestIsHttp11();
    var fs := ExpectFields(word);
    forall i | 0 <= i < |fs| ensures Plain(LineText(fs[i])) {
      TextIsPlain(fs[i]);
    }
  }

  lemma {:induction false} WordX()
    ensures Ascii("x") != [] && MemberOk(Member([32], Ascii("x"), [])) && |Ascii("x")| == 1
    ensures !Expect.Spells(Ascii("x"), Ascii("100-continue"))
  {
  }

  /** A request of 58 bytes with `Expect: x`: accepted when it comes in one read, refused when its head comes first. */
  lemma {:induction false} ExpectSample(last: Read)
    requires IsEnd(last)
    ensures var bytes := ExpectBytes(Ascii("x"));
            var env, s := Knows(bytes, ExpectHead(Ascii("x"))), bytes + [98];
            && Incremental(env) && Parse(env, s).Complete? && Parse(env, s).req.body == [98] && |s| == 58
            && Differ(env, s, last, Ok(Parse(env, s).req), Err(ExpectationFailed))
  {
    hide HeadText, Parse, Differ, Expect.Expected, Expect.Spells, Incremental, ExpectFields, AllWords, LineText, MemberOk, Ascii;
    var word := Ascii("x");
    var bytes := ExpectBytes(word);
    WordX();
    FieldsOk(word);
    ExpectLength(word);
    ExpectParses(word);
    RequestIsHttp11();
    ExpectedOfWritten(RequestLine(), ExpectFields(word));
    assert AllWords(ExpectFields(word))[0] == word;
    assert (bytes + [98])[..57] == bytes;
    ExpectDiffers(Knows(bytes, ExpectHead(word)), bytes + [98], last, 57);
  }

  lemma {:induction false} WordContinue()
    ensures var w := Ascii("100-Continue"); w != [] && MemberOk(Member([32], w, [])) && |w| == 12
    ensures Expect.Spells(Ascii("100-Continue"), Ascii("100-continue"))
  {
    Expect.CapitalExactly(67, 99);
  }

  lemma {:induction false} OneByteSends(s: seq<byte>, last: Read, k: nat, n: nat)
    requires k <= n <= |s|
    ensures Sends(OneByte(s, last), k, s[k..n], n)
    decreases n - k
  {
    if k < n {
      OneByteSends(s, last, k + 1, n);
      assert s[k..n][1..] == s[k + 1..n];
    }
  }

  /** A request of 69 bytes with `Expect: 100-Continue`, byte by byte: told to go on after its head, and returned. */
  lemma {:induction false} ContinueSample(last: Read)
    requires IsEnd(last)
    ensures var bytes := ExpectBytes(Ascii("100-Continue"));
            var env, s := Knows(bytes, ExpectHead(Ascii("100-Continue"))), bytes + [98];
            var r := Loop(env, OneByte(s, last), true, [], false, 0);
            && Incremental(env) && |s| == 69 && Parse(env, s).Complete?
            && r.sentAt == [bytes] && r.result == Ok(Parse(env, s).req)
  {
    hide HeadText, Parse, Loop, Expect.Expected, Expect.Spells, Incremental, ExpectFields, AllWords, LineText, MemberOk, Ascii, Delivers, Sends;
    var word := Ascii("100-Continue");
    var bytes := ExpectBytes(word);
    var s := bytes + [98];
    WordContinue();
    FieldsOk(word);
    ExpectLength(word);
    ExpectParses(word);
    RequestIsHttp11();
    OneByteSends(s, last, 0, |bytes|);
    OneByteDelivers(s, last, |bytes|);
    assert s[0..|bytes|] == bytes && s[|bytes|..] == [98];
    ContinueServed(Knows(bytes, ExpectHead(word)), OneByte(s, last), RequestLine(), ExpectFields(word), |bytes|, [98], last);
  }
}
