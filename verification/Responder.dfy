/**
The one way a backend answers: a head with its own framing fields, then a body
from memory or from a reader.

`Response` is what goes out as a function of the inputs; `ReadHead` is a reader
of heads that knows nothing of how they were written. The results: what the peer
reads as `Content-Length` is what follows, whatever the body reader does.
*/
module Responder {
  import opened Bytes
  import Chunked
  import Expect
  import Framing

  const COLON: byte := 58
  const SPACE: byte := 32
  const BLOCK: nat := 64 * 1024

  type Field = (seq<byte>, seq<byte>)

  function DecimalBytes(n: nat): (s: seq<byte>)
    ensures CR !in s && LF !in s && COLON !in s
  {
    Ascii(Framing.Decimal(n))
  }

  // ---- the head ----

  predicate IsOwn(name: seq<byte>) {
    Expect.EqFoldBytes(name, Ascii("content-length")) || Expect.EqFoldBytes(name, Ascii("connection"))
  }

  /** Exactly these two names, in any mix of cases, are the responder's own. */
  lemma {:induction false} OwnExactly(name: seq<byte>)
    ensures IsOwn(name) <==> Expect.Spells(name, Ascii("content-length")) || Expect.Spells(name, Ascii("connection"))
  {
    hide Expect.EqFoldBytes, Expect.Spells;
    Expect.FoldExactly(name, Ascii("content-length"));
    Expect.FoldExactly(name, Ascii("connection"));
  }

  function FieldLine(f: Field): seq<byte> { f.0 + [COLON, SPACE] + f.1 }

  /** The caller's fields, without the ones the responder writes itself. */
  function KeptLines(fs: seq<Field>): seq<seq<byte>> {
    if fs == [] then []
    else
      var rest := KeptLines(fs[1..]);
      if IsOwn(fs[0].0) then rest else [FieldLine(fs[0])] + rest
  }

  function StatusLine(status: nat, reason: seq<byte>): seq<byte> {
    Ascii("HTTP/1.1 ") + DecimalBytes(status) + [SPACE] + reason
  }

  function LengthLine(length: nat): seq<byte> { Ascii("Content-Length: ") + DecimalBytes(length) }

  function ConnectionLine(keepAlive: bool): seq<byte> {
    Ascii("Connection: ") + (if keepAlive then Ascii("keep-alive") else Ascii("close"))
  }

  function HeadLines(status: nat, reason: seq<byte>, fs: seq<Field>, length: nat, keepAlive: bool): seq<seq<byte>> {
    [StatusLine(status, reason)] + KeptLines(fs) + [LengthLine(length), ConnectionLine(keepAlive)]
  }

  function HeadBytes(status: nat, reason: seq<byte>, fs: seq<Field>, length: nat, keepAlive: bool): seq<byte> {
    Lines(HeadLines(status, reason, fs, length, keepAlive)) + CRLF
  }

  /** Whether no body may follow. */
  predicate Bodyless(isHead: bool, status: nat) {
    isHead || status == 204 || status == 304 || 100 <= status < 200
  }

  // ---- the body from a reader ----

  /** What the n-th read brings when at most `want` bytes are asked for; `None` is an error, nothing is the end. */
  type Reader = (nat, nat) -> Option<seq<byte>>

  function Min(a: nat, b: nat): nat { if a < b then a else b }

  /** A read never brings more than was asked for. */
  function ReadOnce(r: Reader, n: nat, want: nat): (d: Option<seq<byte>>)
    ensures d.Some? ==> |d.value| <= want
  {
    match r(n, want)
    case None => None
    case Some(d) => Some(d[..Min(|d|, want)])
  }

  datatype Pull = Pull(data: seq<byte>, end: Ending, calls: nat)
  datatype Ending = Whole | Short | ReadFailed

  /** Everything the reader yields before `remaining` bytes are there, or it stops. */
  function Pulled(r: Reader, n: nat, remaining: nat): (p: Pull)
    ensures |p.data| <= remaining && (p.end == Whole <==> |p.data| == remaining)
    ensures p.calls >= n && (remaining == 0 ==> p.calls == n)
    decreases remaining
  {
    if remaining == 0 then Pull([], Whole, n)
    else
      match ReadOnce(r, n, Min(BLOCK, remaining))
      case None => Pull([], ReadFailed, n + 1)
      case Some(d) =>
        if d == [] then Pull([], Short, n + 1)
        else
          var rest := Pulled(r, n + 1, remaining - |d|);
          rest.(data := d + rest.data)
  }

  // ---- the code ----

  /** The peer's end: it takes `room` bytes and then fails. */
  class Sink {
    var out: seq<byte>
    const room: nat

    constructor (room: nat)
      ensures out == [] && this.room == room
    {
      out := [];
      this.room := room;
    }

    method WriteAll(data: seq<byte>) returns (ok: bool)
      modifies this
      ensures ok <==> |old(out)| + |data| <= room
      ensures old(out) <= out <= old(out) + data
      ensures ok ==> out == old(out) + data
    {
      ok := |out| + |data| <= room;
      if ok {
        out := out + data;
      } else {
        out := out + data[..if |out| < room then room - |out| else 0];
      }
    }
  }

  datatype Sent = Ok | WriteFailed | UnexpectedEof | SourceFailed

  function EndOf(e: Ending): Sent {
    match e case Whole => Ok case Short => UnexpectedEof case ReadFailed => SourceFailed
  }

  class Responder {
    const w: Sink
    const isHead: bool
    const keepAlive: bool
    var written: nat

    /** The method decides whether a body goes out at all. */
    constructor (w: Sink, verb: string, keepAlive: bool)
      ensures this.w == w && this.keepAlive == keepAlive && written == 0
      ensures isHead <==> Framing.EqFold(verb, "HEAD")
    {
      this.w, this.keepAlive, written := w, keepAlive, 0;
      isHead := Framing.EqFold(verb, "HEAD");
    }

    function Head(status: nat, reason: seq<byte>, fs: seq<Field>, length: nat): seq<byte> {
      HeadBytes(status, reason, fs, length, keepAlive)
    }

    method BuildHead(status: nat, reason: seq<byte>, fs: seq<Field>, length: nat) returns (head: seq<byte>)
      ensures head == Head(status, reason, fs, length)
    {
      hide StatusLine, FieldLine, LengthLine, ConnectionLine, IsOwn;
      var status := StatusLine(status, reason);
      head := status + CRLF;
      LinesStart(status, KeptLines(fs));
      assert fs[0..] == fs;
      for i := 0 to |fs|
        invariant head + Lines(KeptLines(fs[i..])) == Lines([status] + KeptLines(fs))
      {
        assert fs[i..][1..] == fs[i + 1..];
        if !IsOwn(fs[i].0) {
          LinesStart(FieldLine(fs[i]), KeptLines(fs[i + 1..]));
          Regroup(head, FieldLine(fs[i]), Lines(KeptLines(fs[i + 1..])));
          head := head + FieldLine(fs[i]) + CRLF;
        }
      }
      assert fs[|fs|..] == [] && head + [] == head;
      HeadEnd(head, [status] + KeptLines(fs), LengthLine(length), ConnectionLine(keepAlive));
      head := head + LengthLine(length) + CRLF + ConnectionLine(keepAlive) + CRLF + CRLF;
    }

    /** The head goes out through one buffered writer. `None` is a failed write. */
    method WriteHead(status: nat, reason: seq<byte>, fs: seq<Field>, length: nat) returns (bodyless: Option<bool>)
      modifies w
      ensures old(w.out) <= w.out <= old(w.out) + Head(status, reason, fs, length)
      ensures bodyless.Some? <==> |old(w.out)| + |Head(status, reason, fs, length)| <= w.room
      ensures bodyless.Some? ==>
                w.out == old(w.out) + Head(status, reason, fs, length) && bodyless.value == Bodyless(isHead, status)
      ensures bodyless.Some? ==> (bodyless.value <==> isHead || status == 204 || status == 304 || status / 100 == 1)
    {
      hide HeadBytes;
      var head := BuildHead(status, reason, fs, length);
      var ok := w.WriteAll(head);
      if !ok {
        return None;
      }
      return Some(Bodyless(isHead, status));
    }

    /** `length` is what the header says; `body` goes out only where a body may. */
    method SendWithLength(status: nat, reason: seq<byte>, fs: seq<Field>, body: seq<byte>, length: nat) returns (r: Sent)
      modifies this, w
      ensures r == Ok || r == WriteFailed
      ensures r == Ok <==>
                |old(w.out)| + |Head(status, reason, fs, length)| + (if Bodyless(isHead, status) then 0 else |body|) <= w.room
      ensures r == Ok && (isHead || status == 204 || status == 304 || status / 100 == 1) ==>
                w.out == old(w.out) + Head(status, reason, fs, length) && written == old(written)
      ensures r == Ok && !(isHead || status == 204 || status == 304 || status / 100 == 1) ==>
                w.out == old(w.out) + Head(status, reason, fs, length) + body && written == old(written) + |body|
      ensures r == Ok ==>
                && w.out == old(w.out) + Head(status, reason, fs, length) + (if Bodyless(isHead, status) then [] else body)
                && written == old(written) + (if Bodyless(isHead, status) then 0 else |body|)
      ensures r != Ok ==> written == old(written)
    {
      var bodyless := WriteHead(status, reason, fs, length);
      if bodyless.None? {
        return WriteFailed;
      }
      if !bodyless.value {
        var ok := w.WriteAll(body);
        if !ok {
          return WriteFailed;
        }
        written := written + |body|;
      }
      return Ok;
    }

    method Send(status: nat, reason: seq<byte>, fs: seq<Field>, body: seq<byte>) returns (r: Sent)
      modifies this, w
      ensures r == Ok || r == WriteFailed
      ensures r == Ok <==>
                |old(w.out)| + |Head(status, reason, fs, |body|)| + (if Bodyless(isHead, status) then 0 else |body|) <= w.room
      ensures r == Ok && (isHead || status == 204 || status == 304 || status / 100 == 1) ==>
                w.out == old(w.out) + Head(status, reason, fs, |body|) && written == old(written)
      ensures r == Ok && !(isHead || status == 204 || status == 304 || status / 100 == 1) ==>
                w.out == old(w.out) + Head(status, reason, fs, |body|) + body && written == old(written) + |body|
      ensures r == Ok ==>
                && w.out == old(w.out) + Head(status, reason, fs, |body|) + (if Bodyless(isHead, status) then [] else body)
                && written == old(written) + (if Bodyless(isHead, status) then 0 else |body|)
    {
      r := SendWithLength(status, reason, fs, body, |body|);
    }

    /** Block by block, until the promised length is there. */
    method CopyBody(length: nat, body: Reader) returns (r: Sent, calls: nat)
      requires |w.out| <= w.room
      modifies this, w
      ensures var p := Pulled(body, 0, length);
              && old(w.out) <= w.out <= old(w.out) + p.data
              && (r == WriteFailed <==> |old(w.out)| + |p.data| > w.room)
              && (r != WriteFailed ==> w.out == old(w.out) + p.data && calls == p.calls && r == EndOf(p.end))
              && (r != WriteFailed ==> written == old(written) + |p.data|)
    {
      hide Pulled, ReadOnce, Min;
      calls := 0;
      ghost var start, all := w.out, Pulled(body, 0, length);
      var remaining: nat := length;
      ghost var got: seq<byte> := [];
      ghost var rest := all;
      while remaining > 0
        invariant remaining <= length && |got| == length - remaining
        invariant w.out == start + got && written == old(written) + |got|
        invariant |w.out| <= w.room
        invariant rest == Pulled(body, calls, remaining)
        invariant all.data == got + rest.data && all.end == rest.end && all.calls == rest.calls
        decreases remaining
      {
        ghost var n := calls;
        var d := ReadOnce(body, calls, Min(BLOCK, remaining));
        calls := calls + 1;
        if d.None? || d.value == [] {
          PulledStops(body, n, remaining);
          assert got == all.data;
          return if d.None? then SourceFailed else UnexpectedEof, calls;
        }
        PulledGoesOn(body, n, remaining, got);
        rest := Pulled(body, calls, remaining - |d.value|);
        var ok := w.WriteAll(d.value);
        Grown(start, got, d.value, rest.data, w.out);
        if !ok {
          return WriteFailed, calls;
        }
        got := got + d.value;
        written := written + |d.value|;
        remaining := remaining - |d.value|;
      }
      assert got == all.data;
      return Ok, calls;
    }

    /** The body from a reader, capped at `length` and required to reach it. */
    method SendStream(status: nat, reason: seq<byte>, fs: seq<Field>, length: nat, body: Reader)
      returns (r: Sent, calls: nat)
      modifies this, w
      ensures var head := Head(status, reason, fs, length);
              var p := Pulled(body, 0, length);
              && (r == Ok && Bodyless(isHead, status) ==> w.out == old(w.out) + head)
              && (r == Ok && !Bodyless(isHead, status) ==> p.end == Whole && w.out == old(w.out) + head + p.data)
              && (r == UnexpectedEof ==> p.end == Short && w.out == old(w.out) + head + p.data)
              && (r == SourceFailed ==> p.end == ReadFailed && w.out == old(w.out) + head + p.data)
              && (r == WriteFailed <==>
                    |old(w.out)| + |head| + (if Bodyless(isHead, status) then 0 else |p.data|) > w.room)
              && old(w.out) <= w.out <= old(w.out) + head + p.data
      ensures isHead || status == 204 || status == 304 || status / 100 == 1 ==>
                calls == 0 && written == old(written) && (r == Ok ==> w.out == old(w.out) + Head(status, reason, fs, length))
      ensures r == Ok && !(isHead || status == 204 || status == 304 || status / 100 == 1) ==>
                && w.out == old(w.out) + Head(status, reason, fs, length) + Pulled(body, 0, length).data
                && |Pulled(body, 0, length).data| == length && written == old(written) + length
      ensures !Bodyless(isHead, status) && r != WriteFailed ==> calls == Pulled(body, 0, length).calls
      ensures Bodyless(isHead, status) ==> calls == 0 && written == old(written) && (r == Ok || r == WriteFailed)
      ensures r == Ok && !Bodyless(isHead, status) ==> written == old(written) + length
    {
      hide HeadBytes, Pulled;
      calls := 0;
      var bodyless := WriteHead(status, reason, fs, length);
      if bodyless.None? {
        return WriteFailed, 0;
      }
      if bodyless.value {
        return Ok, 0;
      }
      r, calls := CopyBody(length, body);
    }
  }

  /** One more block, whole or in part, after what is out already. */
  lemma {:induction false} Grown(start: seq<byte>, got: seq<byte>, d: seq<byte>, rest: seq<byte>, out: seq<byte>)
    requires start + got <= out <= start + got + d
    ensures start <= out <= start + (got + d + rest)
    ensures start + got + d == start + (got + d)
  {
    assert start + (got + d + rest) == start + got + d + rest;
  }

  lemma {:induction false} PulledStops(r: Reader, n: nat, remaining: nat)
    requires remaining > 0
    requires var d := ReadOnce(r, n, Min(BLOCK, remaining)); d.None? || d.value == []
    ensures var d := ReadOnce(r, n, Min(BLOCK, remaining));
            Pulled(r, n, remaining) == Pull([], if d.None? then ReadFailed else Short, n + 1)
  {
  }

  /** One read further. */
  lemma {:induction false} PulledGoesOn(r: Reader, n: nat, remaining: nat, got: seq<byte>)
    requires remaining > 0
    requires var d := ReadOnce(r, n, Min(BLOCK, remaining)); d.Some? && d.value != []
    ensures var d := ReadOnce(r, n, Min(BLOCK, remaining)).value;
            var rest := Pulled(r, n + 1, remaining - |d|);
            var p := Pulled(r, n, remaining);
            && p.end == rest.end && p.calls == rest.calls
            && got + p.data == got + d + rest.data
            && d <= p.data
  {
    var d := ReadOnce(r, n, Min(BLOCK, remaining)).value;
    var rest := Pulled(r, n + 1, remaining - |d|);
    assert Pulled(r, n, remaining).data == d + rest.data;
  }

  lemma {:induction false} Regroup(a: seq<byte>, l: seq<byte>, b: seq<byte>)
    ensures a + (l + CRLF + b) == a + l + CRLF + b
  {
  }

  lemma {:induction false} LinesStart(l: seq<byte>, ls: seq<seq<byte>>)
    ensures Lines([l] + ls) == l + CRLF + Lines(ls)
  {
    assert ([l] + ls)[1..] == ls;
  }

  lemma {:induction false} LinesConcat(a: seq<seq<byte>>, b: seq<seq<byte>>)
    ensures Lines(a + b) == Lines(a) + Lines(b)
  {
    if a == [] {
      assert a + b == b;
    } else {
      assert (a + b)[1..] == a[1..] + b;
      LinesConcat(a[1..], b);
    }
  }

  lemma {:induction false} HeadEnd(head: seq<byte>, first: seq<seq<byte>>, x: seq<byte>, y: seq<byte>)
    requires head == Lines(first)
    ensures Lines(first + [x, y]) + CRLF == head + x + CRLF + y + CRLF + CRLF
  {
    LinesConcat(first, [x, y]);
    hide Lines;
    LinesOfNone();
    LinesStart(x, [y]);
    LinesStart(y, []);
    assert [x] + [y] == [x, y] && [y] + [] == [y];
  }

  // ---- reading a head back ----

  datatype Parsed = Parsed(lines: seq<seq<byte>>, body: nat)

  /** Lines up to an empty one, and where the body starts. */
  function ReadHead(s: seq<byte>, i: nat): Option<Parsed>
    requires i <= |s|
    decreases |s| - i
  {
    match FindCrlf(s, i)
    case None => None
    case Some(e) =>
      if e == i then Some(Parsed([], i + 2))
      else
        match ReadHead(s, e + 2)
        case None => None
        case Some(rest) => Some(Parsed([s[i..e]] + rest.lines, rest.body))
  }

  function FieldName(line: seq<byte>): seq<byte> {
    match Expect.FindByte(line, COLON)
    case Some(k) => line[..k]
    case None => line
  }

  predicate IsLength(line: seq<byte>) {
    Expect.EqFoldBytes(FieldName(line), Ascii("content-length"))
  }

  /** The number in a length field, read as the request parser reads one. */
  function LengthIn(line: seq<byte>): Option<nat> {
    match Expect.FindByte(line, COLON)
    case Some(k) => Framing.ParseUsize(Framing.Trim(TextOf(line[k + 1..])))
    case None => None
  }

  function LengthOf(line: seq<byte>): seq<Option<nat>> {
    if IsLength(line) then [LengthIn(line)] else []
  }

  /** The length fields among some lines. */
  function Lengths(ls: seq<seq<byte>>): seq<Option<nat>> {
    if ls == [] then [] else LengthOf(ls[0]) + Lengths(ls[1..])
  }

  /** A field a caller may pass: a name without colon, neither part with a line end. */
  ghost predicate FieldOk(f: Field) { COLON !in f.0 && CrlfFree(FieldLine(f)) }

  /** One more line in front. */
  lemma {:induction false} ReadHeadStep(s: seq<byte>, i: nat, l: seq<byte>, rest: Parsed)
    requires i + |l| + 2 <= |s| && s[i..i + |l| + 2] == l + CRLF && l != [] && CrlfFree(l)
    requires ReadHead(s, i + |l| + 2) == Some(rest)
    ensures ReadHead(s, i) == Some(Parsed([l] + rest.lines, rest.body))
  {
    Chunked.LineFound(s, i, l);
  }

  lemma {:induction false} ReadHeadOfLines(pre: seq<byte>, ls: seq<seq<byte>>, body: seq<byte>)
    requires forall i :: 0 <= i < |ls| ==> ls[i] != [] && CrlfFree(ls[i])
    ensures ReadHead(pre + (Lines(ls) + CRLF + body), |pre|) == Some(Parsed(ls, |pre| + |Lines(ls)| + 2))
    decreases |ls|
  {
    hide CrlfFree, FindCrlf, ReadHead, Lines;
    var s := pre + (Lines(ls) + CRLF + body);
    if ls == [] {
      ReadHeadEnd(pre, body);
      assert Lines(ls) == [] by { LinesOfNone(); }
      assert [] + CRLF == CRLF;
    } else {
      var l := ls[0];
      assert [l] + ls[1..] == ls;
      LinesStart(l, ls[1..]);
      LineInFront(pre, l, Lines(ls[1..]), body);
      ReadHeadOfLines(pre + l + CRLF, ls[1..], body);
      ReadHeadStep(s, |pre|, l, Parsed(ls[1..], |pre| + |Lines(ls)| + 2));
    }
  }

  lemma {:induction false} ReadHeadEnd(pre: seq<byte>, body: seq<byte>)
    ensures ReadHead(pre + (CRLF + body), |pre|) == Some(Parsed([], |pre| + 2))
  {
    var s := pre + (CRLF + body);
    assert s[|pre|] == CR && s[|pre| + 1] == LF;
  }

  lemma {:induction false} LinesOfNone()
    ensures Lines([]) == []
  {
  }

  lemma {:induction false} LineInFront(pre: seq<byte>, l: seq<byte>, more: seq<byte>, body: seq<byte>)
    ensures var s := pre + ((l + CRLF + more) + CRLF + body);
            && s == (pre + l + CRLF) + (more + CRLF + body)
            && s[|pre|..|pre| + |l| + 2] == l + CRLF
  {
  }

  lemma {:induction false} CrlfFreeWithout(s: seq<byte>)
    requires CR !in s
    ensures CrlfFree(s)
  {
    forall k: nat ensures !CrlfAt(s, k) {
      assert k < |s| ==> s[k] in s;
    }
  }

  lemma {:induction false} NameOfLine(name: seq<byte>, rest: seq<byte>)
    requires COLON !in name
    ensures FieldName(name + [COLON] + rest) == name
    ensures Expect.FindByte(name + [COLON] + rest, COLON) == Some(|name|)
  {
    var line := name + [COLON] + rest;
    assert line[..|name|] == name && line[|name|] == COLON;
    assert COLON in line;
    var k := Expect.FindByte(line, COLON).value;
    assert forall j :: 0 <= j < |name| ==> line[j] == name[j];
    assert forall j :: 0 <= j < k ==> line[..k][j] == line[j];
  }

  lemma {:induction false} KeptAreOk(fs: seq<Field>)
    requires forall i :: 0 <= i < |fs| ==> FieldOk(fs[i])
    ensures Lengths(KeptLines(fs)) == []
    ensures forall i :: 0 <= i < |KeptLines(fs)| ==> KeptLines(fs)[i] != [] && CrlfFree(KeptLines(fs)[i])
  {
    hide Expect.EqFoldBytes, CrlfFree;
    if fs != [] {
      KeptAreOk(fs[1..]);
      assert FieldOk(fs[0]);
      assert FieldLine(fs[0]) == fs[0].0 + [COLON] + ([SPACE] + fs[0].1);
      NameOfLine(fs[0].0, [SPACE] + fs[0].1);
      if !IsOwn(fs[0].0) {
        assert ([FieldLine(fs[0])] + KeptLines(fs[1..]))[1..] == KeptLines(fs[1..]);
      }
    }
  }

  /**
  Of the caller's fields from `from` on, exactly those the responder does not
  write itself go out, in order: `at` says which.
  */
  lemma {:induction false} OthersKept(fs: seq<Field>, from: nat) returns (at: seq<nat>)
    requires from <= |fs|
    ensures |at| == |KeptLines(fs[from..])|
    ensures forall i :: 0 <= i < |at| ==> from <= at[i] < |fs| && KeptLines(fs[from..])[i] == FieldLine(fs[at[i]])
    ensures forall i, j :: 0 <= i < j < |at| ==> at[i] < at[j]
    ensures forall k :: from <= k < |fs| ==> (k in at <==> !IsOwn(fs[k].0))
    decreases |fs| - from
  {
    hide IsOwn, FieldLine;
    at := [];
    if from < |fs| {
      var rest := OthersKept(fs, from + 1);
      assert fs[from..][1..] == fs[from + 1..];
      if IsOwn(fs[from].0) {
        assert from !in rest;
        at := rest;
      } else {
        at := [from] + rest;
      }
    }
  }

  lemma {:induction false} LengthsConcat(a: seq<seq<byte>>, b: seq<seq<byte>>)
    ensures Lengths(a + b) == Lengths(a) + Lengths(b)
  {
    hide LengthOf;
    if a == [] {
      assert a + b == b;
    } else {
      assert (a + b)[1..] == a[1..] + b;
      LengthsConcat(a[1..], b);
      assert LengthOf(a[0]) + (Lengths(a[1..]) + Lengths(b)) == LengthOf(a[0]) + Lengths(a[1..]) + Lengths(b);
    }
  }

  lemma {:induction false} DigitsRead(length: nat)
    requires length <= Chunked.USIZE_MAX
    ensures Framing.ParseUsize(Framing.Trim(TextOf([SPACE] + DecimalBytes(length)))) == Some(length)
  {
    hide Framing.ParseUsize, Framing.TrimEnd;
    var d := Framing.Decimal(length);
    var text := TextOf([SPACE] + DecimalBytes(length));
    assert text == [' '] + d by {
      hide Framing.Decimal;
    }
    assert text[1..] == d;
    Framing.DecimalReads(length);
  }

  lemma {:induction false} NamedLine(name: seq<byte>, rest: seq<byte>)
    requires COLON !in name && CR !in name && CR !in rest
    ensures var line := name + [COLON] + rest;
            && CrlfFree(line) && FieldName(line) == name
            && Expect.FindByte(line, COLON) == Some(|name|) && line[|name| + 1..] == rest
  {
    CrlfFreeWithout(name + [COLON] + rest);
    NameOfLine(name, rest);
  }

  lemma {:induction false} LengthLineReads(length: nat)
    requires length <= Chunked.USIZE_MAX
    ensures CrlfFree(LengthLine(length)) && LengthLine(length) != []
    ensures IsLength(LengthLine(length)) && LengthIn(LengthLine(length)) == Some(length)
  {
    hide CrlfFree, Framing.ParseUsize, Framing.Trim, TextOf, DecimalBytes, FieldName, Expect.FindByte;
    var name, rest := Ascii("Content-Length"), [SPACE] + DecimalBytes(length);
    assert LengthLine(length) == name + [COLON] + rest;
    NamedLine(name, rest);
    DigitsRead(length);
  }

  lemma {:induction false} ConnectionName()
    ensures Ascii("Connection: ") == Ascii("Connection") + [COLON, SPACE]
    ensures !Expect.EqFoldBytes(Ascii("Connection"), Ascii("content-length"))
    ensures CR !in Ascii("Connection") && COLON !in Ascii("Connection")
  {
  }

  lemma {:induction false} ConnectionLineIsOther(keepAlive: bool)
    ensures CrlfFree(ConnectionLine(keepAlive)) && ConnectionLine(keepAlive) != []
    ensures !IsLength(ConnectionLine(keepAlive))
  {
    hide CrlfFree, Expect.FindByte, FieldName, Expect.EqFoldBytes;
    var value := if keepAlive then Ascii("keep-alive") else Ascii("close");
    assert CR !in value;
    hide Ascii;
    var name := Ascii("Connection");
    ConnectionName();
    assert ConnectionLine(keepAlive) == name + [COLON] + ([SPACE] + value);
    NamedLine(name, [SPACE] + value);
  }

  lemma {:induction false} StatusLineIsOther(status: nat, reason: seq<byte>)
    requires CrlfFree(reason)
    ensures CrlfFree(StatusLine(status, reason)) && StatusLine(status, reason) != []
    ensures !IsLength(StatusLine(status, reason))
  {
    var l := StatusLine(status, reason);
    var fixed := Ascii("HTTP/1.1 ") + DecimalBytes(status) + [SPACE];
    assert forall i :: 0 <= i < |fixed| ==> fixed[i] != CR && fixed[i] != COLON;
    forall k: nat ensures !CrlfAt(l, k) {
      if k >= |fixed| {
        assert !CrlfAt(reason, k - |fixed|);
      }
    }
    assert l[4] == 47;
    var k := Expect.FindByte(l, COLON);
    if k.Some? {
      assert k.value >= |fixed|;
      assert l[..k.value][4] == 47;
    }
  }

  // ---- what a peer finds, whatever the caller's fields hold ----

  /** The lines a peer sees where one was written: a line end inside it makes two. */
  function WireLines(l: seq<byte>): (ws: seq<seq<byte>>)
    ensures ws != []
    decreases |l|
  {
    match FindCrlf(l, 0)
    case None => [l]
    case Some(e) => [l[..e]] + WireLines(l[e + 2..])
  }

  function AllWire(ls: seq<seq<byte>>): seq<seq<byte>> {
    if ls == [] then [] else WireLines(ls[0]) + AllWire(ls[1..])
  }

  lemma {:induction false} WireLinesOk(l: seq<byte>)
    ensures Lines(WireLines(l)) == l + CRLF
    ensures forall i :: 0 <= i < |WireLines(l)| ==> CrlfFree(WireLines(l)[i])
    ensures CrlfFree(l) ==> WireLines(l) == [l]
    decreases |l|
  {
    hide Lines, FindCrlf;
    var f := FindCrlf(l, 0);
    if f.None? {
      LinesStart(l, []);
      LinesOfNone();
      assert [l] + [] == [l] && l + CRLF + [] == l + CRLF;
    } else {
      var e := f.value;
      WireLinesOk(l[e + 2..]);
      LinesStart(l[..e], WireLines(l[e + 2..]));
      CutAt(l, e);
    }
  }

  lemma {:induction false} CutAt(l: seq<byte>, e: nat)
    requires CrlfAt(l, e) && forall k :: 0 <= k < e ==> !CrlfAt(l, k)
    ensures CrlfFree(l[..e]) && l + CRLF == l[..e] + CRLF + (l[e + 2..] + CRLF)
  {
    assert l[e..e + 2] == CRLF;
    assert l == l[..e] + l[e..e + 2] + l[e + 2..];
    forall k: nat ensures !CrlfAt(l[..e], k) {
      assert !CrlfAt(l, k) || k >= e;
    }
  }

  lemma {:induction false} WireLinesStep(a: seq<byte>, b: seq<byte>)
    requires CrlfFree(a)
    ensures WireLines(a + CRLF + b) == [a] + WireLines(b)
  {
    var l := a + CRLF + b;
    assert l[0..|a| + 2] == a + CRLF;
    Chunked.LineFound(l, 0, a);
    assert l[..|a|] == a && l[|a| + 2..] == b;
  }

  lemma {:induction false} AllWireOk(ls: seq<seq<byte>>)
    ensures Lines(AllWire(ls)) == Lines(ls)
    ensures forall i :: 0 <= i < |AllWire(ls)| ==> CrlfFree(AllWire(ls)[i])
    ensures (forall i :: 0 <= i < |ls| ==> CrlfFree(ls[i])) ==> AllWire(ls) == ls
  {
    hide WireLines, CrlfFree;
    if ls != [] {
      AllWireOk(ls[1..]);
      WireLinesOk(ls[0]);
      LinesConcat(WireLines(ls[0]), AllWire(ls[1..]));
      assert [ls[0]] + ls[1..] == ls;
    }
  }

  lemma {:induction false} AllWireConcat(a: seq<seq<byte>>, b: seq<seq<byte>>)
    ensures AllWire(a + b) == AllWire(a) + AllWire(b)
  {
    hide WireLines;
    if a == [] {
      assert a + b == b;
    } else {
      assert (a + b)[1..] == a[1..] + b;
      AllWireConcat(a[1..], b);
      assert WireLines(a[0]) + (AllWire(a[1..]) + AllWire(b)) == WireLines(a[0]) + AllWire(a[1..]) + AllWire(b);
    }
  }

  /** An empty line ends the head early. */
  lemma {:induction false} ReadHeadUpTo(ws: seq<seq<byte>>, e: nat, body: seq<byte>)
    requires e < |ws| && ws[e] == [] && forall i :: 0 <= i < e ==> ws[i] != []
    requires forall i :: 0 <= i < |ws| ==> CrlfFree(ws[i])
    ensures ReadHead(Lines(ws) + CRLF + body, 0) == Some(Parsed(ws[..e], |Lines(ws[..e])| + 2))
    ensures |Lines(ws[..e])| + 2 < |Lines(ws) + CRLF|
  {
    hide Lines, CrlfFree, ReadHead;
    var a, b := ws[..e], ws[e + 1..];
    assert ws == a + ([[]] + b);
    LinesConcat(a, [[]] + b);
    LinesStart([], b);
    var rest := Lines(b) + CRLF + body;
    assert Lines(ws) + CRLF + body == [] + (Lines(a) + CRLF + rest);
    ReadHeadOfLines([], a, rest);
  }

  /** A line that neither ends the head nor states a length. */
  predicate Harmless(line: seq<byte>) { line != [] && !IsLength(line) }

  /** What the caller's reason and fields must be for the head to say what the responder means. */
  ghost predicate HeadHarmless(status: nat, reason: seq<byte>, fs: seq<Field>) {
    var ws := AllWire([StatusLine(status, reason)] + KeptLines(fs));
    forall i :: 0 <= i < |ws| ==> Harmless(ws[i])
  }

  lemma {:induction false} NoLengths(ws: seq<seq<byte>>)
    ensures Lengths(ws) == [] <==> forall i :: 0 <= i < |ws| ==> !IsLength(ws[i])
  {
    hide IsLength, LengthIn;
    if ws != [] {
      NoLengths(ws[1..]);
      assert forall i :: 1 <= i < |ws| ==> ws[i] == ws[1..][i - 1];
    }
  }

  /** The two lines the responder adds, as a peer sees them. */
  lemma {:induction false} OwnLines(length: nat, keepAlive: bool)
    requires length <= Chunked.USIZE_MAX
    ensures var own := [LengthLine(length), ConnectionLine(keepAlive)];
            AllWire(own) == own && Lengths(own) == [Some(length)] && own[0] != [] && own[1] != []
  {
    hide LengthLine, ConnectionLine, IsLength, LengthIn, CrlfFree, WireLines;
    var own := [LengthLine(length), ConnectionLine(keepAlive)];
    LengthLineReads(length);
    ConnectionLineIsOther(keepAlive);
    AllWireOk(own);
    var a: seq<seq<byte>>, b: seq<seq<byte>> := [own[0]], [own[1]];
    LengthsConcat(a, b);
    assert a + b == own && a[1..] == [] && b[1..] == [];
  }

  /** How a head reads, by the lines a peer sees. */
  lemma {:induction false} HeadOnWire(status: nat, reason: seq<byte>, fs: seq<Field>, length: nat, keepAlive: bool)
    requires length <= Chunked.USIZE_MAX
    ensures var ws := AllWire(HeadLines(status, reason, fs, length, keepAlive));
            var first := AllWire([StatusLine(status, reason)] + KeptLines(fs));
            var own := [LengthLine(length), ConnectionLine(keepAlive)];
            && ws == first + own && Lengths(ws) == Lengths(first) + [Some(length)]
            && HeadBytes(status, reason, fs, length, keepAlive) == Lines(ws) + CRLF
            && (forall i :: 0 <= i < |ws| ==> CrlfFree(ws[i])) && own[0] != [] && own[1] != []
  {
    hide AllWire, Lengths, Lines, CrlfFree, LengthLine, ConnectionLine, StatusLine, KeptLines;
    var first, own := [StatusLine(status, reason)] + KeptLines(fs), [LengthLine(length), ConnectionLine(keepAlive)];
    OwnLines(length, keepAlive);
    AllWireConcat(first, own);
    AllWireOk(first + own);
    LengthsConcat(AllWire(first), own);
  }

  /** Harmless fields: the lines a peer reads are those on the wire, up to the end of the head. */
  lemma {:induction false} HarmlessReads(status: nat, reason: seq<byte>, fs: seq<Field>, length: nat, keepAlive: bool,
                                         body: seq<byte>)
    requires length <= Chunked.USIZE_MAX && HeadHarmless(status, reason, fs)
    ensures var head := HeadBytes(status, reason, fs, length, keepAlive);
            ReadHead(head + body, 0) == Some(Parsed(AllWire(HeadLines(status, reason, fs, length, keepAlive)), |head|))
  {
    hide AllWire, Lines, CrlfFree, LengthLine, ConnectionLine, StatusLine, KeptLines, HeadLines, HeadBytes, IsLength, ReadHead;
    var first := AllWire([StatusLine(status, reason)] + KeptLines(fs));
    var ws := AllWire(HeadLines(status, reason, fs, length, keepAlive));
    HeadOnWire(status, reason, fs, length, keepAlive);
    forall i | 0 <= i < |ws| ensures ws[i] != [] {
      assert i < |first| ==> ws[i] == first[i] && Harmless(first[i]);
    }
    ReadHeadOfLines([], ws, body);
    assert [] + (Lines(ws) + CRLF + body) == Lines(ws) + CRLF + body;
  }

  /**
  Whatever follows, a peer that reads the head finds the body right after it and
  exactly one length field, with the length given, if and only if no line that
  the caller's reason and fields put on the wire is empty or states a length.
  */
  lemma {:induction false} HeadReads(status: nat, reason: seq<byte>, fs: seq<Field>, length: nat, keepAlive: bool,
                                     body: seq<byte>)
    requires length <= Chunked.USIZE_MAX
    ensures var head := HeadBytes(status, reason, fs, length, keepAlive);
            var r := ReadHead(head + body, 0);
            && r.Some? && r.value.body <= |head|
            && (r.value.body == |head| && Lengths(r.value.lines) == [Some(length)] <==> HeadHarmless(status, reason, fs))
  {
    hide AllWire, Lengths, Lines, CrlfFree, LengthLine, ConnectionLine, StatusLine, KeptLines, HeadLines, HeadBytes, IsLength, ReadHead;
    var first := AllWire([StatusLine(status, reason)] + KeptLines(fs));
    var ws := AllWire(HeadLines(status, reason, fs, length, keepAlive));
    HeadOnWire(status, reason, fs, length, keepAlive);
    NoLengths(first);
    if k :| 0 <= k < |ws| && ws[k] == [] {
      var e := FirstEmpty(ws, k);
      assert e < |first| && first[e] == [];
      ReadHeadUpTo(ws, e, body);
    } else {
      ReadHeadOfLines([], ws, body);
      assert [] + (Lines(ws) + CRLF + body) == Lines(ws) + CRLF + body;
      assert forall i :: 0 <= i < |first| ==> first[i] == ws[i];
    }
  }

  lemma {:induction false} FirstEmpty(ws: seq<seq<byte>>, k: nat) returns (e: nat)
    requires k < |ws| && ws[k] == []
    ensures e <= k && ws[e] == [] && forall i :: 0 <= i < e ==> ws[i] != []
  {
    e := 0;
    while ws[e] != []
      invariant e <= k && forall i :: 0 <= i < e ==> ws[i] != []
      decreases k - e
    {
      e := e + 1;
    }
  }

  /** A peer reads back exactly the lines written if and only if none of them holds a line end. */
  lemma {:induction false} LinesReadBackExactly(status: nat, reason: seq<byte>, fs: seq<Field>, length: nat,
                                                keepAlive: bool, body: seq<byte>)
    requires length <= Chunked.USIZE_MAX
    ensures var ls := HeadLines(status, reason, fs, length, keepAlive);
            var head := HeadBytes(status, reason, fs, length, keepAlive);
            ReadHead(head + body, 0) == Some(Parsed(ls, |head|)) <==> forall i :: 0 <= i < |ls| ==> CrlfFree(ls[i])
  {
    hide AllWire, Lengths, Lines, CrlfFree, LengthLine, ConnectionLine, StatusLine, KeptLines, HeadLines, HeadBytes, ReadHead;
    var ls := HeadLines(status, reason, fs, length, keepAlive);
    var ws := AllWire(ls);
    HeadOnWire(status, reason, fs, length, keepAlive);
    AllWireOk(ls);
    if k :| 0 <= k < |ws| && ws[k] == [] {
      var e := FirstEmpty(ws, k);
      ReadHeadUpTo(ws, e, body);
      if ws == ls {
        LinesNotEmpty(status, reason, fs, length, keepAlive, e);
      }
    } else {
      ReadHeadOfLines([], ws, body);
      assert [] + (Lines(ws) + CRLF + body) == Lines(ws) + CRLF + body;
    }
  }

  lemma {:induction false} LinesNotEmpty(status: nat, reason: seq<byte>, fs: seq<Field>, length: nat, keepAlive: bool, i: nat)
    requires i < |HeadLines(status, reason, fs, length, keepAlive)|
    ensures HeadLines(status, reason, fs, length, keepAlive)[i] != []
  {
    var at := OthersKept(fs, 0);
    assert fs[0..] == fs;
  }

  /** Fields and reasons without line ends, and names without a colon, are harmless. */
  lemma {:induction false} PlainIsHarmless(status: nat, reason: seq<byte>, fs: seq<Field>)
    requires CrlfFree(reason) && forall i :: 0 <= i < |fs| ==> FieldOk(fs[i])
    ensures HeadHarmless(status, reason, fs)
  {
    hide IsLength, StatusLine, KeptLines, CrlfFree, FieldOk, Lengths;
    var ls := [StatusLine(status, reason)] + KeptLines(fs);
    StatusLineIsOther(status, reason);
    KeptAreOk(fs);
    NoLengths(KeptLines(fs));
    AllWireOk(ls);
  }

  /** Not so a value that holds one: here a peer reads two lengths. */
  lemma {:induction false} LineEndInValueAddsALength(length: nat, keepAlive: bool, body: seq<byte>)
    requires length <= Chunked.USIZE_MAX
    ensures var fs := [(Ascii("X"), Ascii("a") + CRLF + LengthLine(5))];
            var r := ReadHead(HeadBytes(200, Ascii("OK"), fs, length, keepAlive) + body, 0);
            r.Some? && Lengths(r.value.lines) == [Some(5), Some(length)]
  {
    hide HeadBytes, ReadHead, Lengths, KeptLines, CrlfFree, IsLength, FieldLine;
    var a, reason := Ascii("a"), Ascii("OK");
    var fs := [(Ascii("X"), a + CRLF + LengthLine(5))];
    assert CR !in reason;
    CrlfFreeWithout(reason);
    SampleFields(fs, a);
    TwoLengths(200, reason, fs, FieldLine((Ascii("X"), a)), length, keepAlive, body);
  }

  lemma {:induction false} TwoLengths(status: nat, reason: seq<byte>, fs: seq<Field>, plain: seq<byte>, length: nat,
                                      keepAlive: bool, body: seq<byte>)
    requires length <= Chunked.USIZE_MAX && CrlfFree(reason)
    requires KeptLines(fs) == [plain + CRLF + LengthLine(5)] && CrlfFree(plain) && plain != [] && !IsLength(plain)
    ensures var r := ReadHead(HeadBytes(status, reason, fs, length, keepAlive) + body, 0);
            r.Some? && Lengths(r.value.lines) == [Some(5), Some(length)]
  {
    hide AllWire, Lengths, Lines, CrlfFree, LengthLine, ConnectionLine, StatusLine, KeptLines, HeadLines, HeadBytes, IsLength, LengthIn, ReadHead;
    var line := StatusLine(status, reason);
    StatusLineIsOther(status, reason);
    LengthLineReads(5);
    var ws := AllWire(HeadLines(status, reason, fs, length, keepAlive));
    SampleWire(line, fs, plain);
    HeadOnWire(status, reason, fs, length, keepAlive);
    ThreeLengths(line, plain, LengthLine(5));
    ReadHeadOfLines([], ws, body);
    assert [] + (Lines(ws) + CRLF + body) == Lines(ws) + CRLF + body;
  }

  lemma {:induction false} ThreeLengths(a: seq<byte>, b: seq<byte>, c: seq<byte>)
    requires !IsLength(a) && !IsLength(b) && IsLength(c)
    ensures Lengths([a, b, c]) == [LengthIn(c)]
  {
    hide IsLength, LengthIn;
    var one: seq<seq<byte>>, two: seq<seq<byte>>, three: seq<seq<byte>> := [c], [b, c], [a, b, c];
    assert three[1..] == two && two[1..] == one && one[1..] == [];
    assert Lengths(one) == [LengthIn(c)] + [];
  }

  lemma {:induction false} SampleFields(fs: seq<Field>, a: seq<byte>)
    requires a == Ascii("a") && fs == [(Ascii("X"), a + CRLF + LengthLine(5))]
    ensures var plain := FieldLine((Ascii("X"), a));
            && KeptLines(fs) == [plain + CRLF + LengthLine(5)]
            && CrlfFree(plain) && plain != [] && !IsLength(plain)
  {
    hide LengthLine;
    var name := Ascii("X");
    assert !IsOwn(name);
    assert fs[1..] == [];
    var plain := FieldLine((name, a));
    assert FieldLine(fs[0]) == plain + CRLF + LengthLine(5);
    assert plain == name + [COLON] + ([SPACE] + a);
    NamedLine(name, [SPACE] + a);
  }

  lemma {:induction false} SampleWire(status: seq<byte>, fs: seq<Field>, plain: seq<byte>)
    requires CrlfFree(status) && CrlfFree(plain) && KeptLines(fs) == [plain + CRLF + LengthLine(5)]
    requires CrlfFree(LengthLine(5))
    ensures AllWire([status] + KeptLines(fs)) == [status, plain, LengthLine(5)]
  {
    hide CrlfFree, WireLines, LengthLine, KeptLines;
    var l := plain + CRLF + LengthLine(5);
    WireLinesOk(status);
    WireLinesOk(LengthLine(5));
    WireLinesStep(plain, LengthLine(5));
    var one: seq<seq<byte>> := [l];
    assert ([status] + one)[1..] == one && one[1..] == [];
    assert AllWire(one) == WireLines(l) + [];
    assert WireLines(l) == [plain, LengthLine(5)];
  }

  /**
  For every reader: with harmless fields the bytes after the head never exceed
  the length the peer reads, and equal it exactly when the reader delivered.
  */
  lemma {:induction false} FramedByItsLength(status: nat, reason: seq<byte>, fs: seq<Field>, keepAlive: bool,
                                             reader: Reader, length: nat)
    requires length <= Chunked.USIZE_MAX
    ensures var out := HeadBytes(status, reason, fs, length, keepAlive) + Pulled(reader, 0, length).data;
            var r := ReadHead(out, 0);
            && r.Some? && r.value.body <= |out|
            && (HeadHarmless(status, reason, fs) ==>
                  && Lengths(r.value.lines) == [Some(length)]
                  && |out| - r.value.body <= length
                  && (Pulled(reader, 0, length).end == Whole <==> |out| - r.value.body == length))
  {
    hide Lengths, ReadHead, HeadBytes, HeadHarmless;
    HeadReads(status, reason, fs, length, keepAlive, Pulled(reader, 0, length).data);
  }

  /** The reader hands out `body`, in pieces of any size it likes. */
  ghost predicate Feeds(r: Reader, n: nat, body: seq<byte>)
    decreases |body|
  {
    body == [] ||
    var d := ReadOnce(r, n, Min(BLOCK, |body|));
    d.Some? && d.value != [] && d.value <= body && Feeds(r, n + 1, body[|d.value|..])
  }

  /** Streaming a slice sends the bytes that sending it would. */
  lemma {:induction false} StreamedSlice(r: Reader, n: nat, body: seq<byte>)
    requires Feeds(r, n, body)
    ensures Pulled(r, n, |body|).data == body && Pulled(r, n, |body|).end == Whole
    decreases |body|
  {
    if body != [] {
      var d := ReadOnce(r, n, Min(BLOCK, |body|)).value;
      StreamedSlice(r, n + 1, body[|d|..]);
      assert d + body[|d|..] == body;
    }
  }

  /** From read `n` up to `m` the reader hands out `part`, when `want` bytes are asked of it in blocks. */
  ghost predicate Yields(r: Reader, n: nat, part: seq<byte>, want: nat, m: nat)
    requires |part| <= want
    decreases |part|
  {
    if part == [] then n == m
    else
      var d := r(n, if want < 65536 then want else 65536);
      && d.Some? && 0 < |d.value| <= want && |d.value| <= 65536
      && d.value <= part && Yields(r, n + 1, part[|d.value|..], want - |d.value|, m)
  }

  /** Whatever the reader does: what it hands out goes out, and how it stops is how the copy ends. */
  lemma {:induction false} PulledExactly(r: Reader, n: nat, part: seq<byte>, want: nat, m: nat)
    requires |part| <= want && Yields(r, n, part, want, m)
    ensures var left := want - |part|;
            var next := r(m, if left < 65536 then left else 65536);
            && (left == 0 ==> Pulled(r, n, want) == Pull(part, Whole, m))
            && (left > 0 && next == Some([]) ==> Pulled(r, n, want) == Pull(part, Short, m + 1))
            && (left > 0 && next == None ==> Pulled(r, n, want) == Pull(part, ReadFailed, m + 1))
    decreases |part|
  {
    if part != [] {
      var d := r(n, if want < 65536 then want else 65536).value;
      assert d[..|d|] == d;
      PulledExactly(r, n + 1, part[|d|..], want - |d|, m);
      assert d + part[|d|..] == part;
    }
  }
}
