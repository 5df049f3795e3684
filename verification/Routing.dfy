/**
Route patterns, their score and the choice of a route.

The score is a number computed from a pattern's shape; what it stands for is
inclusion of the sets of paths matched. `MoreSpecific` is the bridge, and
`FindRoute` is the loop that picks the winner.
*/
module Routing {
  import opened Bytes

  datatype Segment = Literal(text: string) | Param(name: string) | Wildcard(name: string)

  datatype Verb = Any | Get | Post | Put | Patch | Delete

  predicate Allows(v: Verb, verb: string) {
    match v
    case Any => true
    case Get => verb == "GET" || verb == "HEAD"
    case Post => verb == "POST"
    case Put => verb == "PUT"
    case Patch => verb == "PATCH"
    case Delete => verb == "DELETE"
  }

  function VerbKey(v: Verb): string {
    match v
    case Any => "ANY"
    case Get => "GET"
    case Post => "POST"
    case Put => "PUT"
    case Patch => "PATCH"
    case Delete => "DELETE"
  }

  /** A verb takes the method it is named after, GET takes HEAD as well, and `Any` takes everything. */
  lemma {:induction false} AllowsExactly(v: Verb, verb: string)
    ensures Allows(v, verb) <==> v == Any || verb == VerbKey(v) || (v == Get && verb == "HEAD")
  {
  }

  // ---- paths ----

  /** A path segment: not empty, no slash. */
  predicate SegmentText(s: string) { s != "" && '/' !in s }

  ghost predicate PathOk(p: seq<string>) { forall i :: 0 <= i < |p| ==> SegmentText(p[i]) }

  /** Text up to the first slash. */
  function UpToSlash(s: string): (r: string)
    ensures r <= s && '/' !in r && (|r| < |s| ==> s[|r|] == '/')
  {
    if s == "" || s[0] == '/' then "" else [s[0]] + UpToSlash(s[1..])
  }

  /** The non-empty pieces between slashes. */
  function Segments(s: string): (r: seq<string>)
    ensures forall i :: 0 <= i < |r| ==> SegmentText(r[i])
    decreases |s|
  {
    if s == "" then []
    else if s[0] == '/' then Segments(s[1..])
    else
      var first := UpToSlash(s);
      [first] + Segments(s[|first|..])
  }

  /** Segments joined by single slashes. */
  function Join(p: seq<string>): string {
    if p == [] then "" else if |p| == 1 then p[0] else p[0] + "/" + Join(p[1..])
  }

  lemma {:induction false} UpToSlashIs(a: string, b: string)
    requires '/' !in a && (b == "" || b[0] == '/')
    ensures UpToSlash(a + b) == a
  {
    if a == "" {
      assert a + b == b;
    } else {
      assert (a + b)[1..] == a[1..] + b;
      UpToSlashIs(a[1..], b);
    }
  }

  /** Joining and splitting again loses nothing. */
  lemma {:induction false} SegmentsOfJoin(p: seq<string>)
    requires PathOk(p)
    ensures Segments(Join(p)) == p
  {
    if p != [] {
      assert SegmentText(p[0]);
      if |p| == 1 {
        UpToSlashIs(p[0], "");
        assert p[0] + "" == p[0];
        assert Segments(p[0][|p[0]|..]) == [];
      } else {
        var rest := "/" + Join(p[1..]);
        assert Join(p) == p[0] + rest;
        UpToSlashIs(p[0], rest);
        SegmentsOfJoin(p[1..]);
        assert rest[1..] == Join(p[1..]) && Segments(rest) == p[1..];
        assert Join(p)[|p[0]|..] == rest && Join(p)[0] == p[0][0];
        assert [p[0]] + p[1..] == p;
      }
    }
  }

  lemma {:induction false} UpToSlashConcat(a: string, b: string)
    ensures UpToSlash(a + "/" + b) == UpToSlash(a)
  {
    var s := a + "/" + b;
    if a != "" {
      assert s[1..] == a[1..] + "/" + b;
      UpToSlashConcat(a[1..], b);
    }
  }

  /** Splitting at slashes goes piece by piece; empty pieces are dropped. */
  lemma {:induction false} SegmentsConcat(a: string, b: string)
    ensures Segments(a + "/" + b) == Segments(a) + Segments(b)
    decreases |a|
  {
    hide UpToSlash;
    var s := a + "/" + b;
    if a == "" {
      assert s[1..] == b && Segments(a) + Segments(b) == Segments(b);
    } else if a[0] == '/' {
      assert s[1..] == a[1..] + "/" + b;
      SegmentsConcat(a[1..], b);
    } else {
      var first := UpToSlash(a);
      UpToSlashConcat(a, b);
      assert |first| > 0 by { StartsSegment(a); }
      assert s[|first|..] == a[|first|..] + "/" + b;
      SegmentsConcat(a[|first|..], b);
      assert [first] + (Segments(a[|first|..]) + Segments(b)) == [first] + Segments(a[|first|..]) + Segments(b);
    }
  }

  lemma {:induction false} StartsSegment(a: string)
    requires a != "" && a[0] != '/'
    ensures UpToSlash(a) != ""
  {
  }

  lemma {:induction false} OneSegment(x: string)
    requires SegmentText(x)
    ensures Segments(x) == [x] && Segments("") == []
  {
    SegmentsOfJoin([x]);
    assert Join([x]) == x;
  }

  /** Joining puts one slash between two parts. */
  lemma {:induction false} JoinConcat(a: seq<string>, b: seq<string>)
    requires a != [] && b != []
    ensures Join(a + b) == Join(a) + "/" + Join(b)
  {
    if |a| == 1 {
      assert (a + b)[1..] == b;
    } else {
      assert (a + b)[1..] == a[1..] + b;
      JoinConcat(a[1..], b);
    }
  }

  // ---- patterns ----

  predicate Braced(s: string) { 2 <= |s| && s[0] == '{' && s[|s| - 1] == '}' }

  /** One segment of a pattern; a star counts only in last position. */
  function CompileSegment(s: string, last: bool): Segment {
    if !Braced(s) then Literal(s)
    else
      var inner := s[1..|s| - 1];
      if inner != "" && inner[0] == '*' then
        if last then Wildcard(inner[1..]) else Param(inner[1..])
      else Param(inner)
  }

  function CompileFrom(raw: seq<string>, i: nat): (r: seq<Segment>)
    requires i <= |raw|
    ensures |r| == |raw| - i
    ensures forall k :: 0 <= k < |r| ==> r[k] == CompileSegment(raw[i + k], i + k == |raw| - 1)
    decreases |raw| - i
  {
    if i == |raw| then []
    else [CompileSegment(raw[i], i == |raw| - 1)] + CompileFrom(raw, i + 1)
  }

  function CompilePattern(pattern: string): seq<Segment> { CompileFrom(Segments(pattern), 0) }

  /** What compiling guarantees: literals are segments, a wildcard is last. */
  ghost predicate Compiled(r: seq<Segment>) {
    forall i :: 0 <= i < |r| ==>
      && (r[i].Literal? ==> SegmentText(r[i].text))
      && (r[i].Wildcard? ==> i == |r| - 1)
  }

  lemma {:induction false} CompilePatternCompiled(pattern: string)
    ensures Compiled(CompilePattern(pattern))
  {
    var raw := Segments(pattern);
    var r := CompilePattern(pattern);
    forall i | 0 <= i < |r|
      ensures (r[i].Literal? ==> SegmentText(r[i].text)) && (r[i].Wildcard? ==> i == |r| - 1)
    {
      assert r[i] == CompileSegment(raw[0 + i], 0 + i == |raw| - 1);
    }
  }

  /** A segment as it is written in a pattern. */
  function Shown(s: Segment): string {
    match s
    case Literal(text) => text
    case Param(name) => "{" + name + "}"
    case Wildcard(name) => "{*" + name + "}"
  }

  function ShownAll(r: seq<Segment>): (p: seq<string>)
    ensures |p| == |r| && forall i :: 0 <= i < |r| ==> p[i] == Shown(r[i])
  {
    seq(|r|, i requires 0 <= i < |r| => Shown(r[i]))
  }

  /** Segments that have a form of their own: a literal not in braces, a parameter without a leading star. */
  ghost predicate Writable(r: seq<Segment>) {
    && Compiled(r)
    && forall i :: 0 <= i < |r| ==>
         match r[i]
         case Literal(text) => !Braced(text)
         case Param(name) => '/' !in name && (name == "" || name[0] != '*')
         case Wildcard(name) => '/' !in name
  }

  lemma {:induction false} ShownCompiles(s: Segment, last: bool)
    requires s.Literal? ==> SegmentText(s.text) && !Braced(s.text)
    requires s.Param? ==> '/' !in s.name && (s.name == "" || s.name[0] != '*')
    requires s.Wildcard? ==> '/' !in s.name && last
    ensures SegmentText(Shown(s)) && CompileSegment(Shown(s), last) == s
  {
    var t := Shown(s);
    if s.Param? {
      assert t[1..|t| - 1] == s.name;
    }
    if s.Wildcard? {
      assert t[1..|t| - 1] == "*" + s.name;
      assert ("*" + s.name)[1..] == s.name;
    }
  }

  /** Compiling a written pattern gives back its segments. */
  lemma {:induction false} CompileRoundTrip(r: seq<Segment>)
    requires Writable(r)
    ensures CompilePattern(Join(ShownAll(r))) == r
  {
    hide Shown, CompileSegment, SegmentText, Braced, Segments, Join;
    var raw := ShownAll(r);
    forall i | 0 <= i < |r| ensures SegmentText(raw[i]) && CompileSegment(raw[i], i == |r| - 1) == r[i] {
      ShownCompiles(r[i], i == |r| - 1);
    }
    SegmentsOfJoin(raw);
    var c := CompileFrom(raw, 0);
    assert forall i :: 0 <= i < |c| ==> c[i] == CompileSegment(raw[0 + i], 0 + i == |raw| - 1);
  }

  /** A star counts only in last place: before it, it names an ordinary parameter. */
  lemma {:induction false} StarInTheMiddle(a: seq<Segment>, name: string, b: seq<Segment>)
    requires Writable(a) && Writable(b) && b != [] && '/' !in name
    requires forall i :: 0 <= i < |a| ==> !a[i].Wildcard?
    ensures CompilePattern(Join(ShownAll(a) + ["{*" + name + "}"] + ShownAll(b))) == a + [Param(name)] + b
  {
    hide Shown, CompileSegment, SegmentText, Braced, Segments, Join;
    var star := "{*" + name + "}";
    var raw, r := ShownAll(a) + [star] + ShownAll(b), a + [Param(name)] + b;
    StarCompiles(name);
    forall i | 0 <= i < |r| ensures SegmentText(raw[i]) && CompileSegment(raw[i], i == |r| - 1) == r[i] {
      if i < |a| {
        ShownCompiles(a[i], false);
      } else if i > |a| {
        ShownCompiles(b[i - |a| - 1], i == |r| - 1);
      }
    }
    SegmentsOfJoin(raw);
    var c := CompileFrom(raw, 0);
    assert forall i :: 0 <= i < |c| ==> c[i] == CompileSegment(raw[0 + i], 0 + i == |raw| - 1);
  }

  lemma {:induction false} StarCompiles(name: string)
    requires '/' !in name
    ensures SegmentText("{*" + name + "}") && CompileSegment("{*" + name + "}", false) == Param(name)
  {
    var t := "{*" + name + "}";
    assert t[1..|t| - 1] == "*" + name;
    assert ("*" + name)[1..] == name;
  }

  predicate Greedy(r: seq<Segment>) { r != [] && r[|r| - 1].Wildcard? }

  // ---- the score ----

  function Weight(s: Segment): int {
    match s
    case Literal(_) => 3
    case Param(_) => 2
    case Wildcard(_) => 1
  }

  /** Two per segment, one more for a literal, one less for a wildcard. */
  function Score(r: seq<Segment>): int {
    if r == [] then 0 else Score(r[..|r| - 1]) + Weight(r[|r| - 1])
  }

  method RouteSpecificity(r: seq<Segment>) returns (score: int)
    ensures score == Score(r)
  {
    score := |r| * 2;
    var i := 0;
    while i < |r|
      invariant i <= |r| && score == |r| * 2 - i * 2 + Score(r[..i])
    {
      assert r[..i + 1][..i] == r[..i];
      match r[i] {
        case Literal(_) => score := score + 1;
        case Param(_) =>
        case Wildcard(_) => score := score - 1;
      }
      i := i + 1;
    }
    assert r[..i] == r;
  }

  // ---- matching ----

  type Params = seq<(string, string)>

  predicate LengthFits(r: seq<Segment>, p: seq<string>) {
    if Greedy(r) then |p| >= |r| else |p| == |r|
  }

  /** The captures of the first `k` segments, or none when a literal differs. */
  function Captures(r: seq<Segment>, p: seq<string>, k: nat): Option<Params>
    requires k <= |r| && LengthFits(r, p)
  {
    if k == 0 then Some([])
    else
      match Captures(r, p, k - 1)
      case None => None
      case Some(ps) =>
        match r[k - 1]
        case Literal(text) => if p[k - 1] == text then Some(ps) else None
        case Param(name) => Some(ps + [(name, p[k - 1])])
        case Wildcard(name) => Some(ps + [(name, Join(p[k - 1..]))])
  }

  function MatchRoute(p: seq<string>, r: seq<Segment>): Option<Params> {
    if LengthFits(r, p) then Captures(r, p, |r|) else None
  }

  method MatchSegments(p: seq<string>, r: seq<Segment>) returns (params: Option<Params>)
    ensures params == MatchRoute(p, r)
  {
    if Greedy(r) {
      if |p| < |r| {
        return None;
      }
    } else if |p| != |r| {
      return None;
    }
    var got: Params := [];
    var i := 0;
    while i < |r|
      invariant i <= |r| && Captures(r, p, i) == Some(got)
    {
      match r[i] {
        case Literal(text) =>
          if p[i] != text {
            NoCaptures(r, p, i + 1, |r|);
            return None;
          }
        case Param(name) => got := got + [(name, p[i])];
        case Wildcard(name) => got := got + [(name, Join(p[i..]))];
      }
      i := i + 1;
    }
    return Some(got);
  }

  lemma {:induction false} NoCaptures(r: seq<Segment>, p: seq<string>, k: nat, n: nat)
    requires k <= n <= |r| && LengthFits(r, p) && Captures(r, p, k).None?
    ensures Captures(r, p, n).None?
    decreases n
  {
    if k < n {
      NoCaptures(r, p, k, n - 1);
    }
  }

  /** The paths a pattern matches, without the captures. */
  ghost predicate Matches(r: seq<Segment>, p: seq<string>) {
    LengthFits(r, p) && forall i :: 0 <= i < |r| && r[i].Literal? ==> p[i] == r[i].text
  }

  lemma {:induction false} CapturesMeaning(r: seq<Segment>, p: seq<string>, k: nat)
    requires k <= |r| && LengthFits(r, p)
    ensures Captures(r, p, k).Some? <==> forall i :: 0 <= i < k && r[i].Literal? ==> p[i] == r[i].text
  {
    if k > 0 {
      CapturesMeaning(r, p, k - 1);
    }
  }

  lemma {:induction false} MatchMeaning(r: seq<Segment>, p: seq<string>)
    ensures MatchRoute(p, r).Some? <==> Matches(r, p)
  {
    if LengthFits(r, p) {
      CapturesMeaning(r, p, |r|);
    }
  }

  /** A path written out from a pattern: literals as they are, any segment for a parameter, any rest for a wildcard. */
  ghost predicate Derives(r: seq<Segment>, p: seq<string>) {
    if r == [] then p == []
    else
      && p != []
      && match r[0]
         case Literal(text) => p[0] == text && Derives(r[1..], p[1..])
         case Param(_) => Derives(r[1..], p[1..])
         case Wildcard(_) => true
  }

  /** A pattern matches exactly the paths that can be written out from it. */
  lemma {:induction false} MatchIsDerived(r: seq<Segment>, p: seq<string>)
    requires Compiled(r)
    ensures MatchRoute(p, r).Some? <==> Derives(r, p)
  {
    hide MatchRoute;
    MatchMeaning(r, p);
    MatchesIsDerived(r, p);
  }

  lemma {:induction false} MatchesIsDerived(r: seq<Segment>, p: seq<string>)
    requires Compiled(r)
    ensures Matches(r, p) <==> Derives(r, p)
  {
    hide SegmentText;
    if r != [] && p != [] {
      if r[0].Wildcard? {
        assert |r| == 1;
      } else {
        var t, q := r[1..], p[1..];
        assert Compiled(t);
        MatchesIsDerived(t, q);
        assert forall i :: 1 <= i < |r| ==> t[i - 1] == r[i];
        assert LengthFits(r, p) ==> forall i :: 1 <= i < |r| ==> q[i - 1] == p[i];
      }
    }
  }

  function NameOf(s: Segment): string
    requires !s.Literal?
  {
    match s case Param(name) => name case Wildcard(name) => name
  }

  /**
  The captures of the first `n` segments, by position: one for each that is not
  a literal, in order, under that segment's name; a parameter's is the path
  segment in its place, a wildcard's the rest of the path with slashes between.
  `at` gives the positions.
  */
  lemma {:induction false} CapturesExactly(r: seq<Segment>, p: seq<string>, n: nat) returns (at: seq<nat>)
    requires n <= |r| && LengthFits(r, p) && Captures(r, p, n).Some?
    ensures var ps := Captures(r, p, n).value;
            && |ps| == |at|
            && forall i :: 0 <= i < |at| ==> CapturedAs(r, p, at[i], ps[i])
    ensures forall i :: 0 <= i < |at| ==> at[i] < n
    ensures forall i, j :: 0 <= i < j < |at| ==> at[i] < at[j]
    ensures forall k :: 0 <= k < n ==> (k in at <==> !r[k].Literal?)
  {
    hide CapturedAs;
    at := [];
    if n > 0 {
      var before := CapturesExactly(r, p, n - 1);
      CapturesNext(r, p, n);
      if r[n - 1].Literal? {
        at := before;
      } else {
        at := before + [n - 1];
      }
    }
  }

  ghost predicate CapturedAs(r: seq<Segment>, p: seq<string>, k: nat, v: (string, string)) {
    && k < |r| && k < |p| && !r[k].Literal? && v.0 == NameOf(r[k])
    && v.1 == if r[k].Param? then p[k] else Join(p[k..])
  }

  lemma {:induction false} CapturesNext(r: seq<Segment>, p: seq<string>, n: nat)
    requires 0 < n <= |r| && LengthFits(r, p) && Captures(r, p, n).Some?
    ensures Captures(r, p, n - 1).Some?
    ensures var before, now := Captures(r, p, n - 1).value, Captures(r, p, n).value;
            if r[n - 1].Literal? then now == before
            else |now| == |before| + 1 && now[..|before|] == before && CapturedAs(r, p, n - 1, now[|before|])
  {
    hide Join;
  }

  /** What a matched route hands on. */
  lemma {:induction false} MatchCaptures(r: seq<Segment>, p: seq<string>) returns (at: seq<nat>)
    requires MatchRoute(p, r).Some?
    ensures var ps := MatchRoute(p, r).value;
            && |ps| == |at| && forall i :: 0 <= i < |at| ==> CapturedAs(r, p, at[i], ps[i])
    ensures forall i, j :: 0 <= i < j < |at| ==> at[i] < at[j]
    ensures forall k :: 0 <= k < |r| ==> (k in at <==> !r[k].Literal?)
  {
    at := CapturesExactly(r, p, |r|);
  }

  /** The pattern with captured values put back, as path segments. */
  function Fill(r: seq<Segment>, ps: Params, k: nat): seq<string>
    requires k <= |r|
  {
    if k == 0 then []
    else
      match r[k - 1]
      case Literal(text) => Fill(r, ps, k - 1) + [text]
      case Param(_) => if ps == [] then [] else Fill(r, ps[..|ps| - 1], k - 1) + [ps[|ps| - 1].1]
      case Wildcard(_) => if ps == [] then [] else Fill(r, ps[..|ps| - 1], k - 1) + Segments(ps[|ps| - 1].1)
  }

  lemma {:induction false} TailRejoins(p: seq<string>, k: nat)
    requires PathOk(p) && k <= |p|
    ensures p[..k] + Segments(Join(p[k..])) == p
  {
    hide Segments, Join, SegmentText;
    var tail := p[k..];
    assert forall i :: 0 <= i < |tail| ==> tail[i] == p[k + i];
    SegmentsOfJoin(tail);
  }

  lemma {:induction false} FillSnoc(r: seq<Segment>, ps: Params, v: (string, string), k: nat)
    requires 0 < k <= |r| && !r[k - 1].Literal?
    ensures Fill(r, ps + [v], k) == Fill(r, ps, k - 1) + if r[k - 1].Param? then [v.1] else Segments(v.1)
  {
    hide Segments;
    assert (ps + [v])[..|ps + [v]| - 1] == ps;
  }

  lemma {:induction false} FillCaptures(r: seq<Segment>, p: seq<string>, k: nat)
    requires Compiled(r) && PathOk(p) && k <= |r| && LengthFits(r, p) && Captures(r, p, k).Some?
    ensures Fill(r, Captures(r, p, k).value, k) == if k > 0 && r[k - 1].Wildcard? then p else p[..k]
  {
    hide Segments, Join, SegmentText, PathOk;
    if k > 0 {
      FillCaptures(r, p, k - 1);
      var ps := Captures(r, p, k - 1).value;
      assert p[..k - 1] + [p[k - 1]] == p[..k];
      match r[k - 1]
      case Wildcard(name) =>
        hide Fill;
        FillSnoc(r, ps, (name, Join(p[k - 1..])), k);
        TailRejoins(p, k - 1);
      case Param(name) =>
        hide Fill;
        FillSnoc(r, ps, (name, p[k - 1]), k);
      case Literal(_) =>
    }
  }

  /** A match loses nothing: putting the captures back gives the path. */
  lemma {:induction false} MatchRoundTrip(r: seq<Segment>, p: seq<string>)
    requires Compiled(r) && PathOk(p) && MatchRoute(p, r).Some?
    ensures Fill(r, MatchRoute(p, r).value, |r|) == p
  {
    hide Fill, Captures, Compiled, PathOk;
    FillCaptures(r, p, |r|);
    assert !Greedy(r) ==> p[..|r|] == p;
  }

  // ---- the score against the paths matched ----

  /** Every path `a` matches, `b` matches. */
  ghost predicate Within(a: seq<Segment>, b: seq<Segment>) {
    forall p :: PathOk(p) && Matches(a, p) ==> Matches(b, p)
  }

  /** A path that `a` matches, with `fill` wherever the pattern leaves it open, and `extra` more segments. */
  function Sample(a: seq<Segment>, fill: string, extra: nat): (p: seq<string>)
    ensures |p| == |a| + extra
    ensures forall i :: 0 <= i < |p| ==>
              p[i] == if i < |a| && a[i].Literal? then a[i].text else fill
  {
    seq(|a| + extra, i requires 0 <= i < |a| + extra => if i < |a| && a[i].Literal? then a[i].text else fill)
  }

  lemma {:induction false} SampleMatches(a: seq<Segment>, fill: string, extra: nat)
    requires Compiled(a) && SegmentText(fill) && (extra > 0 ==> Greedy(a))
    ensures PathOk(Sample(a, fill, extra)) && Matches(a, Sample(a, fill, extra))
  {
  }

  /** Shape of inclusion: the segments of `b` bind no more than those of `a`. */
  ghost predicate Covers(a: seq<Segment>, b: seq<Segment>) {
    && |b| <= |a|
    && (!Greedy(b) ==> !Greedy(a) && |a| == |b|)
    && (forall i :: 0 <= i < |b| && b[i].Literal? ==> a[i] == b[i])
  }

  lemma {:induction false} CoversIsWithin(a: seq<Segment>, b: seq<Segment>)
    requires Compiled(a) && Compiled(b) && Covers(a, b)
    ensures Within(a, b)
  {
    forall p | PathOk(p) && Matches(a, p) ensures Matches(b, p) {
      forall i | 0 <= i < |b| && b[i].Literal? ensures p[i] == b[i].text {
        assert a[i] == b[i];
      }
    }
  }

  lemma {:induction false} WithinIsCovers(a: seq<Segment>, b: seq<Segment>)
    requires Compiled(a) && Compiled(b) && Within(a, b)
    ensures Covers(a, b)
  {
    SampleMatches(a, "a", 0);
    SampleMatches(a, "b", 0);
    var p, q := Sample(a, "a", 0), Sample(a, "b", 0);
    assert Matches(b, p) && Matches(b, q);
    if Greedy(a) {
      SampleMatches(a, "a", 1);
      assert Matches(b, Sample(a, "a", 1));
    }
    forall i | 0 <= i < |b| && b[i].Literal? ensures a[i] == b[i] {
      assert p[i] == b[i].text == q[i];
    }
  }

  lemma {:induction false} ScoreBounds(a: seq<Segment>, n: nat)
    requires Compiled(a) && n <= |a|
    ensures Score(a[..n]) <= Score(a)
    ensures n < |a| ==> Score(a[..n]) < Score(a)
    decreases |a|
  {
    if n < |a| {
      var init := a[..|a| - 1];
      assert init[..n] == a[..n];
      ScoreBounds(init, n);
    } else {
      assert a[..n] == a;
    }
  }

  /** Position by position, with equality only for equal kinds. */
  lemma {:induction false} ScorePointwise(a: seq<Segment>, b: seq<Segment>)
    requires |a| == |b| && forall i :: 0 <= i < |a| ==> Weight(a[i]) >= Weight(b[i])
    ensures Score(a) >= Score(b)
    ensures Score(a) == Score(b) ==> forall i :: 0 <= i < |a| ==> Weight(a[i]) == Weight(b[i])
  {
    if a != [] {
      ScorePointwise(a[..|a| - 1], b[..|b| - 1]);
    }
  }

  /**
  Inclusion of matched paths is the order the score respects: a pattern within
  another scores at least as high, and exactly as high only when the two match
  the same paths.
  */
  lemma {:induction false} MoreSpecific(a: seq<Segment>, b: seq<Segment>)
    requires Compiled(a) && Compiled(b) && Within(a, b)
    ensures Score(a) >= Score(b)
    ensures Score(a) == Score(b) <==> Within(b, a)
  {
    WithinIsCovers(a, b);
    var h := a[..|b|];
    forall i | 0 <= i < |h| ensures Weight(h[i]) >= Weight(b[i]) {
      if h[i].Wildcard? {
        assert i == |a| - 1;
      }
    }
    ScorePointwise(h, b);
    ScoreBounds(a, |b|);
    if Score(a) == Score(b) {
      assert h == a;
      forall i | 0 <= i < |a| && a[i].Literal? ensures b[i] == a[i] {
        assert Weight(h[i]) == Weight(b[i]);
      }
      CoversIsWithin(b, a);
    }
    if Within(b, a) {
      WithinIsCovers(b, a);
      assert h == a;
      forall i | 0 <= i < |a| ensures Weight(a[i]) == Weight(b[i]) {
      }
      ScorePointwise(b, a);
    }
  }

  // ---- choosing a route ----

  datatype Route = Route(
    pattern: string, verb: Verb, segments: seq<Segment>, specificity: int,
    template: Option<string>, handler: Option<string>, params: seq<string>)

  /** As built from its pattern. */
  predicate Built(route: Route) {
    route.segments == CompilePattern(route.pattern) && route.specificity == Score(route.segments)
  }

  predicate Candidate(route: Route, p: seq<string>, verb: string) {
    Allows(route.verb, verb) && MatchRoute(p, route.segments).Some?
  }

  /** Among the first `n` routes: the highest score, and of those the earliest. */
  function Best(routes: seq<Route>, p: seq<string>, verb: string, n: nat): (r: Option<nat>)
    requires n <= |routes|
    ensures r.None? <==> forall j :: 0 <= j < n ==> !Candidate(routes[j], p, verb)
    ensures r.Some? ==>
              var i := r.value;
              && i < n && Candidate(routes[i], p, verb)
              && (forall j :: 0 <= j < n && Candidate(routes[j], p, verb) ==>
                    routes[j].specificity <= routes[i].specificity)
              && (forall j :: 0 <= j < i && Candidate(routes[j], p, verb) ==>
                    routes[j].specificity < routes[i].specificity)
  {
    if n == 0 then None
    else
      var b := Best(routes, p, verb, n - 1);
      if Candidate(routes[n - 1], p, verb)
         && (b.None? || routes[n - 1].specificity > routes[b.value].specificity) then Some(n - 1)
      else b
  }

  method FindRoute(path: string, verb: string, routes: seq<Route>) returns (r: Option<(nat, Params)>)
    ensures r.None? <==> Best(routes, Segments(path), verb, |routes|).None?
    ensures r.Some? ==> Best(routes, Segments(path), verb, |routes|) == Some(r.value.0)
    ensures r.Some? ==> MatchRoute(Segments(path), routes[r.value.0].segments) == Some(r.value.1)
  {
    var p := Segments(path);
    r := None;
    var i := 0;
    while i < |routes|
      invariant i <= |routes|
      invariant Best(routes, p, verb, i) == if r.Some? then Some(r.value.0) else None
      invariant r.Some? ==> r.value.0 < i && MatchRoute(p, routes[r.value.0].segments) == Some(r.value.1)
    {
      if Allows(routes[i].verb, verb) {
        var params := MatchSegments(p, routes[i].segments);
        if params.Some? && (r.None? || routes[i].specificity > routes[r.value.0].specificity) {
          r := Some((i, params.value));
        }
      }
      i := i + 1;
    }
  }

  /** The winner is never strictly more general than another route for the same path and method. */
  lemma {:induction false} WinnerIsMostSpecific(routes: seq<Route>, p: seq<string>, verb: string, j: nat)
    requires forall k :: 0 <= k < |routes| ==> Built(routes[k])
    requires j < |routes| && Candidate(routes[j], p, verb)
    ensures var w := Best(routes, p, verb, |routes|);
            && w.Some?
            && (Within(routes[j].segments, routes[w.value].segments) ==>
                  && Within(routes[w.value].segments, routes[j].segments)
                  && w.value <= j)
  {
    var w := Best(routes, p, verb, |routes|).value;
    assert Built(routes[j]) && Built(routes[w]);
    CompilePatternCompiled(routes[j].pattern);
    CompilePatternCompiled(routes[w].pattern);
    if Within(routes[j].segments, routes[w].segments) {
      MoreSpecific(routes[j].segments, routes[w].segments);
    }
  }

  function Literals(r: seq<Segment>): nat {
    if r == [] then 0 else Literals(r[..|r| - 1]) + if r[|r| - 1].Literal? then 1 else 0
  }

  lemma {:induction false} ScoreIs(r: seq<Segment>)
    requires Compiled(r)
    ensures Score(r) == 2 * |r| + Literals(r) - if Greedy(r) then 1 else 0
  {
    if r != [] {
      var init := r[..|r| - 1];
      ScoreIs(init);
      assert init != [] ==> !init[|init| - 1].Wildcard?;
    }
  }

  /** A fixed pattern outscores a catch-all exactly when the catch-all's extra literals do not make up for its lesser length. */
  lemma {:induction false} FixedBeatsCatchAllExactly(a: seq<Segment>, b: seq<Segment>)
    requires Compiled(a) && Compiled(b) && !Greedy(a) && Greedy(b)
    ensures Score(a) > Score(b) <==> Literals(b) <= Literals(a) + 2 * (|a| - |b|)
  {
    hide Score, Literals;
    ScoreIs(a);
    ScoreIs(b);
  }

  /** The route of a written pattern. */
  function RouteOf(r: seq<Segment>): (route: Route)
    requires Writable(r)
    ensures route.segments == r
  {
    Route(Join(ShownAll(r)), Any, r, Score(r), None, None, [])
  }

  /**
  A score is not a precedence of fixed routes over wildcards: for `/a/b/c` the
  catch-all `/a/b/{*r}` is chosen over `/{x}/{y}/{z}`, whichever comes first.
  */
  lemma {:induction false} CatchAllCanOutscoreFixed()
    ensures var a, b := [Literal("a"), Literal("b"), Wildcard("r")], [Param("x"), Param("y"), Param("z")];
            && Score(a) == 7 && Score(b) == 6 && Writable(a) && Writable(b)
            && Built(RouteOf(a)) && Built(RouteOf(b))
            && Best([RouteOf(b), RouteOf(a)], ["a", "b", "c"], "GET", 2) == Some(1)
            && Best([RouteOf(a), RouteOf(b)], ["a", "b", "c"], "GET", 2) == Some(0)
  {
    hide Score, MatchRoute, CompilePattern, Join, Best;
    var a, b := [Literal("a"), Literal("b"), Wildcard("r")], [Param("x"), Param("y"), Param("z")];
    TwoPatterns(a, b);
    CompileRoundTrip(a);
    CompileRoundTrip(b);
    HigherWins(RouteOf(b), RouteOf(a), ["a", "b", "c"], "GET");
  }

  lemma {:induction false} TwoPatterns(a: seq<Segment>, b: seq<Segment>)
    requires a == [Literal("a"), Literal("b"), Wildcard("r")] && b == [Param("x"), Param("y"), Param("z")]
    ensures Score(a) == 7 && Score(b) == 6 && Writable(a) && Writable(b)
    ensures MatchRoute(["a", "b", "c"], a).Some? && MatchRoute(["a", "b", "c"], b).Some?
  {
    assert a[..2] == [Literal("a"), Literal("b")] && a[..2][..1] == [Literal("a")];
    assert Score(a[..2][..1]) == 3 && Score(a[..2]) == 6;
    assert b[..2] == [Param("x"), Param("y")] && b[..2][..1] == [Param("x")];
    assert Score(b[..2][..1]) == 2 && Score(b[..2]) == 4;
    assert Score(a) == 7 && Score(b) == 6;
    hide Score, MatchRoute;
    assert Matches(a, ["a", "b", "c"]) && Matches(b, ["a", "b", "c"]);
    MatchMeaning(a, ["a", "b", "c"]);
    MatchMeaning(b, ["a", "b", "c"]);
  }

  lemma {:induction false} HigherWins(x: Route, y: Route, p: seq<string>, verb: string)
    requires Candidate(x, p, verb) && Candidate(y, p, verb) && y.specificity > x.specificity
    ensures Best([x, y], p, verb, 2) == Some(1) && Best([y, x], p, verb, 2) == Some(0)
  {
    hide Candidate;
    assert Best([x, y], p, verb, 1) == Some(0) && Best([y, x], p, verb, 1) == Some(0);
  }
}
