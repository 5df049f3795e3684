/**
The text of a head as a client writes it: lines, each with its line end, and an
empty line.
*/
module Heads {
  import opened Bytes
  import opened Framing
  import Expect

  /** Line text as it appears in a head. */
  ghost predicate Plain(l: seq<byte>) { l != [] && CR !in l && LF !in l }

  function HeadText(ls: seq<seq<byte>>): seq<byte> { Lines(ls) + CRLF }

  lemma {:induction false} HeadTextStep(ls: seq<seq<byte>>)
    requires ls != []
    ensures HeadText(ls) == ls[0] + CRLF + HeadText(ls[1..])
  {
  }

  /** Its only blank line is at its end. */
  lemma {:induction false} OneBlank(ls: seq<seq<byte>>, k: nat)
    requires ls != [] && forall i :: 0 <= i < |ls| ==> Plain(ls[i])
    ensures |HeadText(ls)| >= 4
    ensures Expect.BlankAt(HeadText(ls), k) <==> k == |HeadText(ls)| - 4
    decreases |ls|
  {
    hide HeadText, Expect.BlankAt;
    HeadTextStep(ls);
    var l, rest := ls[0], HeadText(ls[1..]);
    if |ls| == 1 {
      NoLines(ls[1..]);
      BlankInFront(l, rest, k);
    } else {
      OneBlank(ls[1..], if k >= |l| + 2 then k - |l| - 2 else 0);
      HeadTextStep(ls[1..]);
      assert rest[0] == ls[1][0] && ls[1][0] in ls[1];
      BlankInFront(l, rest, k);
    }
  }

  /** Where a line in front leaves the blank lines. */
  lemma {:induction false} BlankInFront(l: seq<byte>, rest: seq<byte>, k: nat)
    requires Plain(l) && (rest == CRLF || (|rest| > 0 && rest[0] != CR))
    ensures Expect.BlankAt(l + CRLF + rest, k) <==>
            if rest == CRLF then k == |l| else k >= |l| + 2 && Expect.BlankAt(rest, k - |l| - 2)
  {
    var s := l + CRLF + rest;
    assert forall i :: 0 <= i < |l| ==> s[i] == l[i] && l[i] in l;
    assert forall i :: 0 <= i < |rest| ==> s[|l| + 2 + i] == rest[i];
    assert s[|l|] == CR && s[|l| + 1] == LF;
  }

  lemma {:induction false} NoLines(ls: seq<seq<byte>>)
    requires ls == []
    ensures HeadText(ls) == CRLF
  {
  }

  /** And it has no line feed on its own. */
  lemma {:induction false} NoBareLf(ls: seq<seq<byte>>)
    requires forall i :: 0 <= i < |ls| ==> Plain(ls[i])
    ensures !BareLf(HeadText(ls))
  {
    hide HeadText;
    if ls == [] {
      NoLines(ls);
    } else {
      HeadTextStep(ls);
      NoBareLf(ls[1..]);
      var l, rest := ls[0], HeadText(ls[1..]);
      var s := l + CRLF + rest;
      assert forall i :: 0 <= i < |l| ==> s[i] == l[i] && l[i] in l;
      forall i | 0 <= i < |s| && s[i] == LF ensures i > 0 && s[i - 1] == CR {
        if i >= |l| + 2 {
          assert s[i] == rest[i - |l| - 2];
          assert i > |l| + 2 ==> s[i - 1] == rest[i - |l| - 3];
        }
      }
    }
  }

  lemma {:induction false} HeadTextEnds(ls: seq<seq<byte>>)
    requires ls != [] && forall i :: 0 <= i < |ls| ==> Plain(ls[i])
    ensures EndsWithEmptyLine(HeadText(ls), |HeadText(ls)|)
    ensures Expect.FindBlank(HeadText(ls), 0) == Some(|HeadText(ls)| - 4)
  {
    hide HeadText;
    var s := HeadText(ls);
    OneBlank(ls, 0);
    forall k: nat ensures Expect.BlankAt(s, k) <==> k == |s| - 4 {
      OneBlank(ls, k);
    }
    Expect.BlankIs(s, 0, |s| - 4);
  }

  // ---- read line by line ----

  /** The head without its blank line. */
  function Inner(ls: seq<seq<byte>>): seq<byte>
    requires ls != []
  {
    if |ls| == 1 then ls[0] else ls[0] + CRLF + Inner(ls[1..])
  }

  /** Its lines as a split at line feeds leaves them: all but the last with a carriage return. */
  function WithCr(ls: seq<seq<byte>>): (r: seq<seq<byte>>)
    requires ls != []
    ensures |r| == |ls| && forall i :: 0 <= i < |ls| ==> r[i] == if i < |ls| - 1 then ls[i] + [CR] else ls[i]
  {
    if |ls| == 1 then ls else [ls[0] + [CR]] + WithCr(ls[1..])
  }

  lemma {:induction false} HeadTextIs(ls: seq<seq<byte>>)
    requires ls != []
    ensures HeadText(ls) == Inner(ls) + CRLF + CRLF
  {
    hide HeadText;
    HeadTextStep(ls);
    if |ls| == 1 {
      NoLines(ls[1..]);
    } else {
      HeadTextIs(ls[1..]);
      assert ls[0] + CRLF + (Inner(ls[1..]) + CRLF + CRLF) == ls[0] + CRLF + Inner(ls[1..]) + CRLF + CRLF;
    }
  }

  lemma {:induction false} SplitInner(ls: seq<seq<byte>>)
    requires ls != [] && forall i :: 0 <= i < |ls| ==> Plain(ls[i])
    ensures Expect.Split(Inner(ls), LF) == WithCr(ls)
  {
    hide Expect.Split;
    assert Plain(ls[0]);
    if |ls| == 1 {
      Expect.SplitNone(ls[0], LF);
      assert ls == [ls[0]];
    } else {
      SplitInner(ls[1..]);
      assert ls[0] + CRLF + Inner(ls[1..]) == (ls[0] + [CR]) + [LF] + Inner(ls[1..]);
      Expect.SplitAt(ls[0] + [CR], Inner(ls[1..]), LF);
    }
  }

  /** The expectation of a written head, line by line. */
  lemma {:induction false} ExpectedOfLines(ls: seq<seq<byte>>)
    requires ls != [] && forall i :: 0 <= i < |ls| ==> Plain(ls[i])
    ensures var rs := WithCr(ls);
            Expect.Expected(HeadText(ls)) ==
            Some(if !Expect.IsHttp11Line(rs[0]) then Expect.NoExpect else Expect.Combine(Expect.Members(rs[1..])))
  {
    hide HeadText, Inner, Expect.IsHttp11Line, Expect.Combine, Expect.Members, Plain;
    HeadTextEnds(ls);
    HeadTextIs(ls);
    SplitInner(ls);
    var s := HeadText(ls);
    assert s[..|s| - 4] == Inner(ls);
  }
}
