/**
From a parsed head to a framed request: everything `parse_request` decides
after `httparse` has returned.

`httparse`, UTF-8 decoding and the `Host` grammar are outside the model and are
the fields of `Env`. `Parse` is the decision as a function of the bytes seen;
`ParseRequest` is the code with its loops.
*/
module Framing {
  import opened Bytes
  import Chunked

  // ---- text ----

  function Lower(c: char): char {
    if 'A' <= c <= 'Z' then c + 32 as char else c
  }

  /** ASCII case-insensitive equality; other characters must be identical. */
  predicate EqFold(a: string, b: string) {
    |a| == |b| && forall i :: 0 <= i < |a| ==> Lower(a[i]) == Lower(b[i])
  }

  /** `c` is the capital of the letter `l`. */
  predicate CapitalOf(c: char, l: char) { exists k :: 0 <= k < 26 && UPPER[k] == c && LOWER[k] == l }

  /** `a` is the text `lit`, each letter in either case. */
  predicate Spells(a: string, lit: string) {
    |a| == |lit| && forall i :: 0 <= i < |a| ==> a[i] == lit[i] || CapitalOf(a[i], lit[i])
  }

  lemma {:induction false} Alphabet(k: nat)
    requires k < 26
    ensures LOWER[k] == 'a' + k as char && UPPER[k] == 'A' + k as char
  {
  }

  lemma {:induction false} CapitalExactly(c: char, l: char)
    ensures CapitalOf(c, l) <==> 'A' <= c <= 'Z' && l == c + 32 as char
  {
    if 'A' <= c <= 'Z' {
      Alphabet((c - 'A') as nat);
    }
    if k :| 0 <= k < 26 && UPPER[k] == c && LOWER[k] == l {
      Alphabet(k);
    }
  }

  lemma {:induction false} FoldCharExactly(c: char, l: char)
    requires !('A' <= l <= 'Z')
    ensures Lower(c) == Lower(l) <==> c == l || CapitalOf(c, l)
  {
    hide CapitalOf;
    CapitalExactly(c, l);
  }

  /** Equality up to case with a text that has no capitals is spelling it, each letter in either case. */
  lemma {:induction false} FoldExactly(a: string, lit: string)
    requires forall i :: 0 <= i < |lit| ==> !('A' <= lit[i] <= 'Z')
    ensures EqFold(a, lit) <==> Spells(a, lit)
  {
    hide Lower, CapitalOf;
    if |a| == |lit| {
      forall i | 0 <= i < |a| ensures Lower(a[i]) == Lower(lit[i]) <==> a[i] == lit[i] || CapitalOf(a[i], lit[i]) {
        FoldCharExactly(a[i], lit[i]);
      }
    }
  }

  /** The characters `str::trim` removes. */
  predicate IsWhite(c: char) {
    || 0x9 as char <= c <= 0xD as char
    || c in {0x20 as char, 0x85 as char, 0xA0 as char, 0x1680 as char, 0x2028 as char, 0x2029 as char,
             0x202F as char, 0x205F as char, 0x3000 as char}
    || 0x2000 as char <= c <= 0x200A as char
  }

  function TrimStart(s: string): string {
    if s != "" && IsWhite(s[0]) then TrimStart(s[1..]) else s
  }

  function TrimEnd(s: string): string {
    if s != "" && IsWhite(s[|s| - 1]) then TrimEnd(s[..|s| - 1]) else s
  }

  function Trim(s: string): string { TrimEnd(TrimStart(s)) }

  /** What is left of a text is what stands between its outer white space. */
  lemma {:induction false} TrimExactly(s: string, t: string)
    ensures Trim(s) == t <==>
            && (t == "" || (!IsWhite(t[0]) && !IsWhite(t[|t| - 1])))
            && exists a: string, b: string :: s == a + t + b && AllWhite(a) && AllWhite(b)
  {
    hide IsWhite;
    if Trim(s) == t {
      var a := StartOff(s);
      var b := EndOff(TrimStart(s));
      assert s == a + t + b;
    }
    if a: string, b: string :| s == a + t + b && AllWhite(a) && AllWhite(b) {
      if t == "" || (!IsWhite(t[0]) && !IsWhite(t[|t| - 1])) {
        TrimIs(a, t, b);
      }
    }
  }

  ghost predicate AllWhite(s: string) { forall i :: 0 <= i < |s| ==> IsWhite(s[i]) }

  lemma {:induction false} StartOff(s: string) returns (a: string)
    ensures AllWhite(a) && s == a + TrimStart(s)
    ensures TrimStart(s) != "" ==> !IsWhite(TrimStart(s)[0])
  {
    hide IsWhite;
    a := "";
    if s != "" && IsWhite(s[0]) {
      var b := StartOff(s[1..]);
      a := [s[0]] + b;
    }
  }

  lemma {:induction false} EndOff(s: string) returns (b: string)
    ensures AllWhite(b) && s == TrimEnd(s) + b
    ensures TrimEnd(s) != "" ==> !IsWhite(TrimEnd(s)[|TrimEnd(s)| - 1])
    ensures s != "" && !IsWhite(s[0]) ==> TrimEnd(s) != "" && TrimEnd(s)[0] == s[0]
  {
    hide IsWhite;
    b := "";
    if s != "" && IsWhite(s[|s| - 1]) {
      var a := EndOff(s[..|s| - 1]);
      b := a + [s[|s| - 1]];
    }
  }

  lemma {:induction false} TrimIs(a: string, t: string, b: string)
    requires AllWhite(a) && AllWhite(b) && (t == "" || (!IsWhite(t[0]) && !IsWhite(t[|t| - 1])))
    ensures Trim(a + t + b) == t
    decreases |a| + |b|
  {
    hide IsWhite;
    var s := a + t + b;
    if a != "" {
      assert s[1..] == a[1..] + t + b;
      TrimIs(a[1..], t, b);
    } else if t == "" {
      if b != "" {
        assert s[1..] == "" + t + b[1..];
        TrimIs("", t, b[1..]);
      }
    } else if b != "" {
      assert s[0] == t[0] && s[..|s| - 1] == "" + t + b[..|b| - 1];
      TrimIs("", t, b[..|b| - 1]);
    } else {
      assert s == t;
    }
  }

  /** Of the first 128 characters these are white. */
  lemma {:induction false} AsciiWhite(c: char)
    requires c < 128 as char
    ensures IsWhite(c) <==> c in " \t\n\r" || c == 11 as char || c == 12 as char
  {
  }

  predicate IsDigit(c: char) { '0' <= c <= '9' }

  /** Value of a run of decimal digits. */
  function DigitsValue(s: string): (v: Option<nat>)
  {
    if s == "" then Some(0)
    else
      var hi := DigitsValue(s[..|s| - 1]);
      if hi.Some? && IsDigit(s[|s| - 1]) then Some(10 * hi.value + (s[|s| - 1] - '0') as int) else None
  }

  /** `str::parse::<usize>`: an optional `+`, at least one digit, no overflow. */
  function ParseUsize(s: string): (v: Option<nat>)
    ensures v.Some? ==> v.value <= Chunked.USIZE_MAX
  {
    var t := if s != "" && s[0] == '+' then s[1..] else s;
    if t == "" then None
    else
      match DigitsValue(t)
      case Some(n) => if n <= Chunked.USIZE_MAX then Some(n) else None
      case None => None
  }

  const DIGITS: string := "0123456789"

  /** `to_string` of a length. */
  function Decimal(n: nat): (s: string)
    ensures s != "" && forall i :: 0 <= i < |s| ==> IsDigit(s[i])
  {
    var last := [DIGITS[n % 10]];
    if n < 10 then last else Decimal(n / 10) + last
  }

  /** A length that the code writes is the length the code reads. */
  lemma {:induction false} DecimalValue(n: nat)
    ensures DigitsValue(Decimal(n)) == Some(n)
  {
    var s := Decimal(n);
    if n < 10 {
      assert s[..0] == "";
    } else {
      DecimalValue(n / 10);
      assert s[..|s| - 1] == Decimal(n / 10);
    }
  }

  lemma {:induction false} DecimalReads(n: nat)
    requires n <= Chunked.USIZE_MAX
    ensures ParseUsize(Trim(Decimal(n))) == Some(n)
  {
    var s := Decimal(n);
    assert IsDigit(s[0]) && IsDigit(s[|s| - 1]);
    assert TrimStart(s) == s && TrimEnd(s) == s;
    DecimalValue(n);
  }

  function Zeros(k: nat): (z: string)
    ensures |z| == k && forall i :: 0 <= i < k ==> z[i] == '0'
  {
    seq(k, i => '0')
  }

  lemma {:induction false} DigitsConcatZeros(k: nat, s: string)
    ensures DigitsValue(Zeros(k) + s) == DigitsValue(s)
  {
    var all := Zeros(k) + s;
    if s == "" {
      assert all == Zeros(k);
      if k > 0 {
        assert all[..|all| - 1] == Zeros(k - 1) + "";
        DigitsConcatZeros(k - 1, "");
      }
    } else {
      assert all[..|all| - 1] == Zeros(k) + s[..|s| - 1];
      DigitsConcatZeros(k, s[..|s| - 1]);
    }
  }

  /** Digits are read as `n` exactly when they are `n` written out after any number of zeros. */
  lemma {:induction false} DigitsAreDecimal(s: string) returns (k: nat)
    requires s != "" && DigitsValue(s).Some?
    ensures s == Zeros(k) + Decimal(DigitsValue(s).value)
  {
    var init, last, n := s[..|s| - 1], s[|s| - 1], DigitsValue(s).value;
    DigitAt(last);
    assert s == init + [last];
    if init == "" {
      k := 0;
      assert DigitsValue(init) == Some(0);
      assert s == Zeros(0) + Decimal(n);
    } else {
      var hi := DigitsValue(init).value;
      var j := DigitsAreDecimal(init);
      assert n / 10 == hi && n % 10 == (last - '0') as int;
      if hi == 0 {
        k := j + 1;
        assert Decimal(0) == "0";
        assert s == Zeros(k) + Decimal(n);
      } else {
        k := j;
        assert Decimal(n) == Decimal(hi) + [last];
      }
    }
  }

  lemma {:induction false} DigitAt(c: char)
    requires IsDigit(c)
    ensures DIGITS[(c - '0') as int] == c
  {
  }

  /** A length is read as `n` exactly from `n` written out, zeros before it and a plus sign before those allowed. */
  lemma {:induction false} UsizeExactly(s: string, n: nat)
    ensures ParseUsize(s) == Some(n) <==>
            n <= Chunked.USIZE_MAX
            && exists k: nat :: s == Zeros(k) + Decimal(n) || s == "+" + Zeros(k) + Decimal(n)
  {
    hide Decimal, DigitsValue;
    var t := if s != "" && s[0] == '+' then s[1..] else s;
    if ParseUsize(s) == Some(n) {
      var k := DigitsAreDecimal(t);
      assert s == t || s == "+" + t;
      assert "+" + (Zeros(k) + Decimal(n)) == "+" + Zeros(k) + Decimal(n);
    }
    if k: nat :| s == Zeros(k) + Decimal(n) || s == "+" + Zeros(k) + Decimal(n) {
      var d := Zeros(k) + Decimal(n);
      assert d[0] != '+' by {
        assert k > 0 ==> d[0] == '0';
        assert k == 0 ==> d[0] == Decimal(n)[0] && IsDigit(Decimal(n)[0]);
      }
      assert s == d || s == "+" + d;
      assert s != d ==> s[1..] == d;
      DigitsConcatZeros(k, Decimal(n));
      DecimalValue(n);
    }
  }

  // ---- the request ----

  datatype Header = Header(name: string, value: seq<byte>)

  /** What a head parser reports: bytes used, request line, version, field lines. */
  datatype Head = Head(size: nat, verb: string, target: string, http11: bool, headers: seq<Header>)
  datatype HeadResult = Partial | Refused | Parsed(head: Head)

  /** The foreign parts. */
  datatype Env = Env(head: seq<byte> -> HeadResult, text: seq<byte> -> Option<string>, hostOk: string -> bool)

  type Field = (string, string)
  datatype Request = Request(verb: string, path: string, query: Option<string>, http11: bool,
                             headers: seq<Field>, body: seq<byte>)
  datatype ParseResult = Incomplete | Error | Complete(req: Request)

  // ---- the request target ----

  function FindStr(s: string, what: string, i: nat): (r: Option<nat>)
    requires i <= |s| && what != ""
    ensures r.Some? ==> i <= r.value && r.value + |what| <= |s| && what <= s[r.value..]
    decreases |s| - i
  {
    if i == |s| then None
    else if what <= s[i..] then Some(i)
    else FindStr(s, what, i + 1)
  }

  predicate IsAlpha(c: char) { 'a' <= Lower(c) <= 'z' }

  predicate IsScheme(s: string) {
    && s != "" && IsAlpha(s[0])
    && forall i :: 0 <= i < |s| ==> IsAlpha(s[i]) || IsDigit(s[i]) || s[i] in {'+', '-', '.'}
  }

  function StripAbsoluteForm(t: string): string {
    match FindStr(t, "://", 0)
    case None => t
    case Some(k) =>
      if !IsScheme(t[..k]) then t
      else
        var after := t[k + 3..];
        match FindStr(after, "/", 0)
        case Some(j) => after[j..]
        case None => "/"
  }

  function SplitQuery(t: string): (string, Option<string>) {
    match FindStr(t, "?", 0)
    case Some(q) => (t[..q], Some(t[q + 1..]))
    case None => (t, None)
  }

  lemma {:induction false} FindStrFirst(s: string, what: string, i: nat, k: nat)
    requires what != "" && i <= k && k + |what| <= |s| && what <= s[k..]
    requires forall j :: i <= j < k ==> !(what <= s[j..])
    ensures FindStr(s, what, i) == Some(k)
    decreases k - i
  {
    if i < k {
      FindStrFirst(s, what, i + 1, k);
    }
  }

  /** An absolute-form target is reduced to its path, whatever the authority. */
  lemma {:induction false} AbsoluteFormReduced(scheme: string, authority: string, path: string)
    requires IsScheme(scheme) && '/' !in authority && (path == "" || path[0] == '/')
    ensures StripAbsoluteForm(scheme + "://" + authority + path) == if path == "" then "/" else path
  {
    var t := scheme + "://" + authority + path;
    var after := authority + path;
    var k := |scheme|;
    assert t[k..] == "://" + after;
    forall j | 0 <= j < k ensures !("://" <= t[j..]) {
      assert t[j..][0] == scheme[j] != ':';
    }
    FindStrFirst(t, "://", 0, k);
    assert t[..k] == scheme && t[k + 3..] == after;
    if path == "" {
      assert after == authority;
      forall j | 0 <= j < |after| ensures !("/" <= after[j..]) {
        assert after[j..][0] == authority[j];
      }
    } else {
      var n := |authority|;
      assert after[n..] == path;
      forall j | 0 <= j < n ensures !("/" <= after[j..]) {
        assert after[j..][0] == authority[j];
      }
      FindStrFirst(after, "/", 0, n);
    }
  }

  /** Every other form, `//host/path` included, is left alone. */
  lemma {:induction false} OtherFormsKept(t: string)
    requires forall scheme, rest :: IsScheme(scheme) ==> t != scheme + "://" + rest
    ensures StripAbsoluteForm(t) == t
  {
    var r := FindStr(t, "://", 0);
    if r.Some? {
      var k := r.value;
      assert t == t[..k] + t[k..];
      assert t[k..] == "://" + t[k + 3..];
      assert t == t[..k] + "://" + t[k + 3..];
    }
  }

  /** A scheme as section 3.1 of RFC 3986 spells it: a letter, then letters, digits, `+`, `-` and `.`. */
  lemma {:induction false} SchemeExactly(s: string)
    ensures IsScheme(s) <==>
            && s != "" && s[0] in LOWER + UPPER
            && forall i :: 0 <= i < |s| ==> s[i] in LOWER + UPPER + DIGITS + "+-."
  {
    hide IsAlpha, IsDigit;
    forall i | 0 <= i < |s|
      ensures IsAlpha(s[i]) <==> s[i] in LOWER + UPPER
      ensures IsDigit(s[i]) <==> s[i] in DIGITS
    {
      AlphaExactly(s[i]);
      DigitExactly(s[i]);
    }
  }

  lemma {:induction false} AlphaExactly(c: char)
    ensures IsAlpha(c) <==> c in LOWER + UPPER
  {
    InLower(c);
    InUpper(c);
  }

  lemma {:induction false} InLower(c: char)
    ensures c in LOWER <==> 'a' <= c <= 'z'
  {
    if 'a' <= c <= 'z' {
      Alphabet((c - 'a') as nat);
    }
    if i :| 0 <= i < 26 && LOWER[i] == c {
      Alphabet(i);
    }
  }

  lemma {:induction false} InUpper(c: char)
    ensures c in UPPER <==> 'A' <= c <= 'Z'
  {
    if 'A' <= c <= 'Z' {
      Alphabet((c - 'A') as nat);
    }
    if i :| 0 <= i < 26 && UPPER[i] == c {
      Alphabet(i);
    }
  }

  lemma {:induction false} DigitExactly(c: char)
    ensures IsDigit(c) <==> c in DIGITS
  {
    if IsDigit(c) {
      DigitAt(c);
    }
  }

  ghost predicate Absolute(t: string, scheme: string, authority: string, path: string) {
    && IsScheme(scheme) && '/' !in authority && (path == "" || path[0] == '/')
    && t == scheme + "://" + authority + path
  }

  /** `r` is the target `t` without scheme and authority. */
  ghost predicate Reduced(t: string, r: string) {
    || (exists scheme: string, authority: string, path: string :: Absolute(t, scheme, authority, path)
          && r == if path == "" then "/" else path)
    || (r == t && forall scheme: string, rest: string :: IsScheme(scheme) ==> t != scheme + "://" + rest)
  }

  lemma {:induction false} FindStrAt(s: string, what: string, i: nat)
    requires i <= |s| && what != ""
    ensures FindStr(s, what, i).Some? ==> forall j :: i <= j < FindStr(s, what, i).value ==> !(what <= s[j..])
    ensures FindStr(s, what, i).None? ==> forall j :: i <= j <= |s| ==> !(what <= s[j..])
    decreases |s| - i
  {
    if i < |s| && !(what <= s[i..]) {
      FindStrAt(s, what, i + 1);
    }
  }

  /** What the router is given is the target reduced. */
  lemma {:induction false} StripReduces(t: string)
    ensures Reduced(t, StripAbsoluteForm(t))
  {
    hide IsScheme, StripAbsoluteForm;
    if scheme: string, rest: string :| IsScheme(scheme) && t == scheme + "://" + rest {
      var authority, path := UpToPath(rest);
      assert scheme + "://" + (authority + path) == scheme + "://" + authority + path;
      assert Absolute(t, scheme, authority, path);
      AbsoluteFormReduced(scheme, authority, path);
    } else {
      OtherFormsKept(t);
    }
  }

  lemma {:induction false} UpToPath(rest: string) returns (authority: string, path: string)
    ensures rest == authority + path && '/' !in authority && (path == "" || path[0] == '/')
  {
    var f := FindStr(rest, "/", 0);
    FindStrAt(rest, "/", 0);
    var n := if f.Some? then f.value else |rest|;
    authority, path := rest[..n], rest[n..];
    assert forall j :: 0 <= j < n ==> rest[j..][0] == authority[j];
  }

  /** A target's path holds no question mark, and with its query it is the target again. */
  lemma {:induction false} SplitQueryExactly(t: string, path: string, query: Option<string>)
    ensures SplitQuery(t) == (path, query) <==>
            '?' !in path && t == path + match query case Some(q) => "?" + q case None => ""
  {
    SplitQueryRejoins(t);
    if '?' !in path && t == path + match query case Some(q) => "?" + q case None => "" {
      FirstMark(t, path, query);
    }
  }

  lemma {:induction false} SplitQueryRejoins(t: string)
    ensures var (path, query) := SplitQuery(t);
            '?' !in path && t == path + match query case Some(q) => "?" + q case None => ""
  {
    var f := FindStr(t, "?", 0);
    FindStrAt(t, "?", 0);
    assert forall j :: 0 <= j < |t| ==> t[j..][0] == t[j];
    if f.Some? {
      assert t == t[..f.value] + ("?" + t[f.value + 1..]);
    } else {
      assert t == t + "";
    }
  }

  lemma {:induction false} FirstMark(t: string, path: string, query: Option<string>)
    requires '?' !in path && t == path + match query case Some(q) => "?" + q case None => ""
    ensures SplitQuery(t) == (path, query)
  {
    assert forall j :: 0 <= j < |path| ==> t[j..][0] == path[j];
    if query.Some? {
      assert t[|path|..] == "?" + query.value;
      FindStrFirst(t, "?", 0, |path|);
      assert t[..|path|] == path && t[|path| + 1..] == query.value;
    } else {
      assert t == path;
      FindStrAt(t, "?", 0);
    }
  }

  // ---- one pass over the field lines ----

  datatype Scan = Scan(cl: Option<string>, hosts: nat, hostEmpty: bool, te: bool, fwd: seq<Field>)

  const NO_FIELDS := Scan(None, 0, false, false, [])

  predicate Is(h: Header, name: string) { EqFold(h.name, name) }

  /** A transfer coding this server decodes: `chunked`, alone. */
  predicate ChunkedOnly(v: string) {
    ',' !in v && EqFold(Trim(v), "chunked")
  }

  /** `chunked` in any mix of cases, with white space around it, and nothing else. */
  lemma {:induction false} ChunkedOnlyExactly(v: string)
    ensures ChunkedOnly(v) <==>
            exists a: string, w: string, b: string :: v == a + w + b && AllWhite(a) && AllWhite(b) && Spells(w, "chunked")
  {
    hide IsWhite, EqFold, Trim, Spells;
    if ChunkedOnly(v) {
      FoldExactly(Trim(v), "chunked");
      TrimExactly(v, Trim(v));
    }
    if a: string, w: string, b: string :| v == a + w + b && AllWhite(a) && AllWhite(b) && Spells(w, "chunked") {
      FoldExactly(w, "chunked");
      ChunkedIsText(w);
      TrimIs(a, w, b);
      assert ',' !in a && ',' !in b by { CommaIsNotWhite(); }
    }
  }

  lemma {:induction false} CommaIsNotWhite()
    ensures !IsWhite(',')
  {
  }

  lemma {:induction false} ChunkedIsText(w: string)
    requires Spells(w, "chunked")
    ensures ',' !in w && w != "" && !IsWhite(w[0]) && !IsWhite(w[|w| - 1])
  {
    hide IsWhite;
    forall i | 0 <= i < |w| ensures w[i] in LOWER + UPPER && w[i] != ',' && !IsWhite(w[i]) {
      LetterIsText("chunked"[i], w[i]);
    }
  }

  lemma {:induction false} LetterIsText(l: char, c: char)
    requires 'a' <= l <= 'z' && (c == l || CapitalOf(c, l))
    ensures c in LOWER + UPPER && c != ',' && !IsWhite(c)
  {
    Alphabet((l - 'a') as nat);
    if c != l {
      var k :| 0 <= k < 26 && UPPER[k] == c && LOWER[k] == l;
      Alphabet(k);
    }
    AlphaExactly(c);
  }

  function ScanOne(env: Env, h: Header, sc: Scan): Option<Scan> {
    var text := env.text(h.value);
    if Is(h, "transfer-encoding") then
      if text.Some? && ChunkedOnly(text.value) then Some(sc.(te := true)) else None
    else if Is(h, "content-length") && (text.None? || (sc.cl.Some? && sc.cl.value != Trim(text.value))) then None
    else
      var sc := if Is(h, "content-length") && sc.cl.None? then sc.(cl := Some(Trim(text.value))) else sc;
      if Is(h, "host") && text.Some? && Trim(text.value) != "" && !env.hostOk(Trim(text.value)) then None
      else
        var sc := if Is(h, "host") then
                    sc.(hosts := sc.hosts + 1, hostEmpty := sc.hostEmpty || text.None? || Trim(text.value) == "")
                  else sc;
        Some(if text.Some? then sc.(fwd := sc.fwd + [(h.name, text.value)]) else sc)
  }

  function ScanAll(env: Env, hs: seq<Header>): Option<Scan> {
    if hs == [] then Some(NO_FIELDS)
    else
      match ScanAll(env, hs[..|hs| - 1])
      case None => None
      case Some(sc) => ScanOne(env, hs[|hs| - 1], sc)
  }

  /** Everything decided from the field lines before the body is looked at. */
  datatype Framing = Length(n: nat) | ChunkedBody

  function Decide(sc: Scan, http11: bool): Option<Framing> {
    if sc.hosts > 1 then None
    else if http11 && (sc.hosts == 0 || sc.hostEmpty) then None
    else if sc.te && !http11 then None
    else if sc.te && sc.cl.Some? then None
    else
      match sc.cl
      case Some(v) => (match ParseUsize(v) case Some(n) => Some(Length(n)) case None => None)
      case None => Some(if sc.te then ChunkedBody else Length(0))
  }

  /** A line feed that does not end a CRLF. */
  predicate BareLf(s: seq<byte>) {
    exists i :: 0 <= i < |s| && s[i] == LF && (i == 0 || s[i - 1] != CR)
  }

  function Frame(buf: seq<byte>, head: Head, sc: Scan, f: Framing): ParseResult
    requires head.size <= |buf|
  {
    var (path, query) := SplitQuery(StripAbsoluteForm(head.target));
    var req := Request(head.verb, path, query, head.http11, sc.fwd, []);
    match f
    case ChunkedBody =>
      (match Chunked.Decode(buf[head.size..], 0, [])
       case Incomplete => Incomplete
       case Bad => Error
       case Done(body, _) => Complete(req.(headers := sc.fwd + [("Content-Length", Decimal(|body|))], body := body)))
    case Length(n) =>
      if |buf| - head.size < n then Incomplete
      else Complete(req.(body := buf[head.size..head.size + n]))
  }

  /** The decision on the bytes seen so far. */
  function Parse(env: Env, buf: seq<byte>): ParseResult {
    match env.head(buf)
    case Partial => Incomplete
    case Refused => Error
    case Parsed(head) =>
      if head.size > |buf| || BareLf(buf[..head.size]) then Error
      else
        match ScanAll(env, head.headers)
        case None => Error
        case Some(sc) =>
          match Decide(sc, head.http11)
          case None => Error
          case Some(f) => Frame(buf, head, sc, f)
  }

  // ---- what the pass over the field lines amounts to ----

  /** A field line that refuses the request whatever else it carries. */
  ghost predicate Rejects(env: Env, h: Header) {
    var text := env.text(h.value);
    if Is(h, "transfer-encoding") then text.None? || !ChunkedOnly(text.value)
    else if Is(h, "content-length") then text.None?
    else Is(h, "host") && text.Some? && Trim(text.value) != "" && !env.hostOk(Trim(text.value))
  }

  /** Two `Content-Length` lines that do not agree. */
  ghost predicate Disagree(env: Env, a: Header, b: Header) {
    && Is(a, "content-length") && Is(b, "content-length")
    && env.text(a.value).Some? && env.text(b.value).Some?
    && Trim(env.text(a.value).value) != Trim(env.text(b.value).value)
  }

  ghost predicate BlankHost(env: Env, h: Header) {
    Is(h, "host") && (env.text(h.value).None? || Trim(env.text(h.value).value) == "")
  }

  function HostLines(hs: seq<Header>): nat {
    if hs == [] then 0
    else HostLines(hs[..|hs| - 1]) + if Is(hs[|hs| - 1], "host") then 1 else 0
  }

  /** The lines handed on: everything readable except transfer codings. */
  function Forward(env: Env, hs: seq<Header>): seq<Field> {
    if hs == [] then []
    else
      var h := hs[|hs| - 1];
      var before := Forward(env, hs[..|hs| - 1]);
      if !Is(h, "transfer-encoding") && env.text(h.value).Some? then before + [(h.name, env.text(h.value).value)]
      else before
  }

  ghost predicate Refused(env: Env, hs: seq<Header>) {
    || (exists h :: h in hs && Rejects(env, h))
    || (exists a, b :: a in hs && b in hs && Disagree(env, a, b))
  }

  ghost predicate Summary(env: Env, hs: seq<Header>, sc: Scan) {
    && (sc.te <==> exists h :: h in hs && Is(h, "transfer-encoding"))
    && (sc.cl.Some? <==> exists h :: h in hs && Is(h, "content-length"))
    && (forall h :: h in hs && Is(h, "content-length") ==>
          env.text(h.value).Some? && sc.cl == Some(Trim(env.text(h.value).value)))
    && sc.hosts == HostLines(hs)
    && (sc.hostEmpty <==> exists h :: h in hs && BlankHost(env, h))
    && sc.fwd == Forward(env, hs)
  }

  lemma {:induction false} NamesApart(h: Header)
    ensures !(Is(h, "transfer-encoding") && Is(h, "content-length"))
    ensures !(Is(h, "transfer-encoding") && Is(h, "host"))
    ensures !(Is(h, "content-length") && Is(h, "host"))
  {
  }

  lemma {:induction false} RefusedSnoc(env: Env, init: seq<Header>, h: Header)
    ensures Refused(env, init + [h]) <==>
            Refused(env, init) || Rejects(env, h) || exists a :: a in init && Disagree(env, a, h)
  {
    hide Rejects, Is, Trim;
    var hs := init + [h];
    assert forall x :: x in hs <==> x in init || x == h;
    if a :| a in init && Disagree(env, a, h) {
      assert a in hs && h in hs;
    }
    if Rejects(env, h) {
      assert h in hs;
    }
    if Refused(env, init) {
      if x :| x in init && Rejects(env, x) {
        assert x in hs;
      } else {
        var x, y :| x in init && y in init && Disagree(env, x, y);
        assert x in hs && y in hs;
      }
    }
  }

  lemma {:induction false} ScanOneRefuses(env: Env, init: seq<Header>, h: Header, sc: Scan)
    requires Summary(env, init, sc)
    ensures ScanOne(env, h, sc).None? <==> Rejects(env, h) || exists a :: a in init && Disagree(env, a, h)
  {
    hide Is, Trim, ChunkedOnly, Forward, HostLines, BlankHost;
    NamesApart(h);
    var text := env.text(h.value);
    if Is(h, "content-length") && text.Some? && sc.cl.Some? {
      var a :| a in init && Is(a, "content-length");
      assert Disagree(env, a, h) <==> sc.cl.value != Trim(text.value);
    }
  }

  lemma {:induction false} ScanOneSummary(env: Env, init: seq<Header>, h: Header, sc: Scan)
    requires Summary(env, init, sc) && ScanOne(env, h, sc).Some?
    ensures Summary(env, init + [h], ScanOne(env, h, sc).value)
  {
    hide Is, Trim, ChunkedOnly;
    NamesApart(h);
    var hs := init + [h];
    var sc' := ScanOne(env, h, sc).value;
    assert hs[..|hs| - 1] == init;
    assert forall x :: x in hs <==> x in init || x == h;
    assert h in hs;
    assert sc'.hosts == HostLines(hs) && sc'.fwd == Forward(env, hs);
    assert sc'.te <==> sc.te || Is(h, "transfer-encoding");
    assert sc'.cl.Some? <==> sc.cl.Some? || Is(h, "content-length");
    assert sc'.hostEmpty <==> sc.hostEmpty || BlankHost(env, h);
    if x :| x in init && BlankHost(env, x) {
      assert x in hs;
    }
    if x :| x in init && Is(x, "transfer-encoding") {
      assert x in hs;
    }
    if x :| x in init && Is(x, "content-length") {
      assert x in hs;
    }
  }

  /** The pass refuses exactly on a bad or disagreeing line; otherwise its answer is the summary of the list. */
  lemma {:induction false} ScanMeaning(env: Env, hs: seq<Header>)
    ensures ScanAll(env, hs).None? <==> Refused(env, hs)
    ensures ScanAll(env, hs).Some? ==> Summary(env, hs, ScanAll(env, hs).value)
  {
    hide ScanOne, Rejects, Disagree, Is;
    if hs != [] {
      var init, h := hs[..|hs| - 1], hs[|hs| - 1];
      assert hs == init + [h];
      ScanMeaning(env, init);
      RefusedSnoc(env, init, h);
      if ScanAll(env, init).Some? {
        var sc := ScanAll(env, init).value;
        ScanOneRefuses(env, init, h, sc);
        if ScanOne(env, h, sc).Some? {
          ScanOneSummary(env, init, h, sc);
        }
      }
    }
  }

  // ---- the verdict on a list of field lines ----

  function Verdict(env: Env, hs: seq<Header>, http11: bool): Option<Framing> {
    match ScanAll(env, hs)
    case None => None
    case Some(sc) => Decide(sc, http11)
  }

  ghost predicate Has(hs: seq<Header>, name: string) { exists h :: h in hs && Is(h, name) }

  /** The request is framed exactly when nothing about its framing or its `Host` is in doubt. */
  lemma {:induction false} AcceptedExactly(env: Env, hs: seq<Header>, http11: bool)
    ensures Verdict(env, hs, http11).Some? <==>
            && !Refused(env, hs)
            && HostLines(hs) <= 1
            && (http11 ==> HostLines(hs) == 1 && !exists h :: h in hs && BlankHost(env, h))
            && (Has(hs, "transfer-encoding") ==> http11 && !Has(hs, "content-length"))
            && (forall h :: h in hs && Is(h, "content-length") && env.text(h.value).Some? ==>
                  ParseUsize(Trim(env.text(h.value).value)).Some?)
    ensures var v := Verdict(env, hs, http11);
            && (v.Some? && Has(hs, "transfer-encoding") ==> v.value == ChunkedBody)
            && (v.Some? && !Has(hs, "transfer-encoding") ==>
                  && v.value.Length?
                  && (!Has(hs, "content-length") ==> v.value.n == 0)
                  && forall h :: h in hs && Is(h, "content-length") ==>
                       env.text(h.value).Some? && ParseUsize(Trim(env.text(h.value).value)) == Some(v.value.n))
  {
    hide Is, Trim, ParseUsize, Forward, Refused, BlankHost;
    ScanMeaning(env, hs);
    if ScanAll(env, hs).Some? {
      var sc := ScanAll(env, hs).value;
      if sc.cl.Some? {
        var h :| h in hs && Is(h, "content-length");
        assert sc.cl == Some(Trim(env.text(h.value).value));
      }
    }
  }

  lemma {:induction false} HostLinesSplit(a: seq<Header>, b: seq<Header>)
    ensures HostLines(a + b) == HostLines(a) + HostLines(b)
  {
    if b == [] {
      assert a + b == a;
    } else {
      assert (a + b)[..|a + b| - 1] == a + b[..|b| - 1];
      HostLinesSplit(a, b[..|b| - 1]);
    }
  }

  /** The last line of `a`, found in `b` and taken out of both. */
  lemma {:induction false} TakenOut(a: seq<Header>, b: seq<Header>) returns (k: nat)
    requires multiset(a) == multiset(b) && a != []
    ensures k < |b| && b[k] == a[|a| - 1]
    ensures multiset(a[..|a| - 1]) == multiset(b[..k] + b[k + 1..])
  {
    var h := a[|a| - 1];
    assert h in multiset(b);
    k :| 0 <= k < |b| && b[k] == h;
    assert a == a[..|a| - 1] + [h];
    assert b == b[..k] + ([h] + b[k + 1..]);
    assert multiset(b) == multiset(b[..k] + b[k + 1..]) + multiset{h};
    assert multiset(a) == multiset(a[..|a| - 1]) + multiset{h};
    assert multiset(a[..|a| - 1]) == multiset(a) - multiset{h};
    assert multiset(b[..k] + b[k + 1..]) == multiset(b) - multiset{h};
  }

  lemma {:induction false} HostLinesPermute(a: seq<Header>, b: seq<Header>)
    requires multiset(a) == multiset(b)
    ensures HostLines(a) == HostLines(b)
    decreases |a|
  {
    hide HostLines;
    assert |multiset(a)| == |a| && |multiset(b)| == |b|;
    if a != [] {
      var h := a[|a| - 1];
      var k := TakenOut(a, b);
      var rest := b[..k] + b[k + 1..];
      assert a == a[..|a| - 1] + [h];
      assert b == b[..k] + ([h] + b[k + 1..]);
      HostLinesPermute(a[..|a| - 1], rest);
      HostLinesSplit(b[..k], b[k + 1..]);
      HostLinesSplit(b[..k], [h] + b[k + 1..]);
      HostLinesSplit([h], b[k + 1..]);
      HostLinesSplit(a[..|a| - 1], [h]);
    }
  }

  /** The verdict does not depend on the order of the lines. */
  lemma {:induction false} OrderFree(env: Env, a: seq<Header>, b: seq<Header>, http11: bool)
    requires multiset(a) == multiset(b)
    ensures Verdict(env, a, http11) == Verdict(env, b, http11)
  {
    hide Is, Trim, ParseUsize, Forward, Rejects, Disagree, BlankHost, HostLines, ScanAll;
    ScanMeaning(env, a);
    ScanMeaning(env, b);
    HostLinesPermute(a, b);
    assert forall h :: h in a <==> h in multiset(a);
    assert forall h :: h in b <==> h in multiset(b);
    assert Refused(env, a) <==> Refused(env, b);
    if !Refused(env, a) {
      var x, y := ScanAll(env, a).value, ScanAll(env, b).value;
      if x.cl.Some? {
        var h :| h in a && Is(h, "content-length");
        assert x.cl == y.cl;
      }
      assert x.(fwd := []) == y.(fwd := []);
    }
  }

  // ---- what a complete request carries ----

  function FieldLines(fs: seq<Field>, name: string): nat {
    if fs == [] then 0
    else FieldLines(fs[..|fs| - 1], name) + if EqFold(fs[|fs| - 1].0, name) then 1 else 0
  }

  /** One reading of where the body ends and of which site is meant. */
  ghost predicate Unambiguous(req: Request) {
    && (forall f :: f in req.headers ==> !EqFold(f.0, "transfer-encoding"))
    && (forall f :: f in req.headers && EqFold(f.0, "content-length") ==>
          ParseUsize(Trim(f.1)) == Some(|req.body|))
    && ((forall f :: f in req.headers ==> !EqFold(f.0, "content-length")) ==> req.body == [])
    && FieldLines(req.headers, "host") <= 1
    && (req.http11 ==> FieldLines(req.headers, "host") == 1)
  }

  lemma {:induction false} ForwardMeaning(env: Env, hs: seq<Header>)
    ensures forall f :: f in Forward(env, hs) <==>
              exists h :: h in hs && !Is(h, "transfer-encoding") && env.text(h.value) == Some(f.1) && f.0 == h.name
    ensures FieldLines(Forward(env, hs), "host") <= HostLines(hs)
    ensures (forall h :: h in hs && Is(h, "host") ==> env.text(h.value).Some?) ==>
              FieldLines(Forward(env, hs), "host") == HostLines(hs)
  {
    hide EqFold;
    if hs != [] {
      var init, h := hs[..|hs| - 1], hs[|hs| - 1];
      assert hs == init + [h];
      assert forall x :: x in hs <==> x in init || x == h;
      ForwardMeaning(env, init);
      NamesApart(h);
      var fs := Forward(env, hs);
      if !Is(h, "transfer-encoding") && env.text(h.value).Some? {
        assert fs[..|fs| - 1] == Forward(env, init);
        assert forall f :: f in fs <==> f in Forward(env, init) || f == (h.name, env.text(h.value).value);
      }
    }
  }

  lemma {:induction false} UnambiguousFields(env: Env, hs: seq<Header>, sc: Scan, http11: bool)
    requires Summary(env, hs, sc) && Decide(sc, http11).Some?
    ensures forall f :: f in sc.fwd ==> !EqFold(f.0, "transfer-encoding")
    ensures forall f :: f in sc.fwd && EqFold(f.0, "content-length") ==> sc.cl == Some(Trim(f.1))
    ensures (exists f :: f in sc.fwd && EqFold(f.0, "content-length")) <==> sc.cl.Some?
    ensures FieldLines(sc.fwd, "host") <= 1 && (http11 ==> FieldLines(sc.fwd, "host") == 1)
  {
    hide EqFold, Trim, ParseUsize, Forward, HostLines, FieldLines;
    ForwardMeaning(env, hs);
    if sc.cl.Some? {
      var h :| h in hs && Is(h, "content-length");
      NamesApart(h);
      var f := (h.name, env.text(h.value).value);
      assert f in sc.fwd;
    }
  }

  lemma {:induction false} ContentLengthName()
    ensures EqFold("Content-Length", "content-length")
    ensures !EqFold("Content-Length", "transfer-encoding") && !EqFold("Content-Length", "host")
  {
  }

  /** A decoded body's length field, added to lines that carry no length. */
  lemma {:induction false} LengthAdded(req: Request, fwd: seq<Field>)
    requires |req.body| <= Chunked.USIZE_MAX && req.headers == fwd + [("Content-Length", Decimal(|req.body|))]
    requires forall f :: f in fwd ==> !EqFold(f.0, "transfer-encoding") && !EqFold(f.0, "content-length")
    requires FieldLines(fwd, "host") <= 1 && (req.http11 ==> FieldLines(fwd, "host") == 1)
    ensures Unambiguous(req)
  {
    hide EqFold, Trim, ParseUsize, Decimal;
    var f := ("Content-Length", Decimal(|req.body|));
    DecimalReads(|req.body|);
    ContentLengthName();
    assert req.headers[..|req.headers| - 1] == fwd;
    assert f in req.headers && forall g :: g in req.headers <==> g in fwd || g == f;
  }

  /** No complete request leaves its framing or its host to interpretation. */
  lemma {:induction false} CompleteIsUnambiguous(env: Env, buf: seq<byte>)
    requires Parse(env, buf).Complete?
    ensures Unambiguous(Parse(env, buf).req)
  {
    hide EqFold, Trim, ParseUsize, Parse, Decimal, ScanAll, FieldLines;
    CompleteParts(env, buf);
    var head := env.head(buf).head;
    var sc := ScanAll(env, head.headers).value;
    var req := Parse(env, buf).req;
    ScanMeaning(env, head.headers);
    UnambiguousFields(env, head.headers, sc, head.http11);
    if Decide(sc, head.http11).value.ChunkedBody? {
      LengthAdded(req, sc.fwd);
    }
  }

  lemma {:induction false} CompleteParts(env: Env, buf: seq<byte>)
    requires Parse(env, buf).Complete?
    ensures env.head(buf).Parsed?
    ensures var head, req := env.head(buf).head, Parse(env, buf).req;
            && req.http11 == head.http11 && ScanAll(env, head.headers).Some?
            && var sc := ScanAll(env, head.headers).value;
            && Decide(sc, head.http11).Some?
            && match Decide(sc, head.http11).value
               case Length(n) => |req.body| == n && req.headers == sc.fwd
               case ChunkedBody =>
                 |req.body| <= Chunked.USIZE_MAX && req.headers == sc.fwd + [("Content-Length", Decimal(|req.body|))]
  {
    hide Chunked.ReadItem, Decimal, BareLf, StripAbsoluteForm, SplitQuery, Decide, ScanAll;
  }

  ghost predicate Carries(s: seq<byte>, body: seq<byte>, e: Chunked.Encoding) {
    && Chunked.EncodingOk(e) && |Chunked.Body(e)| <= Chunked.MAX_CHUNKED_BODY
    && Chunked.Wire(e) <= s && Chunked.Body(e) == body
  }

  /** What the bytes after the head must be for `body` to be the request's body. */
  ghost predicate BodyOf(rest: seq<byte>, f: Framing, body: seq<byte>) {
    match f
    case Length(n) => |body| == n && body <= rest
    case ChunkedBody => exists e :: Carries(rest, body, e)
  }

  /** A request is complete, with a given body, exactly when its framing finds that body after its head. */
  lemma {:induction false} CompleteExactly(env: Env, buf: seq<byte>, body: seq<byte>)
    ensures Parse(env, buf).Complete? && Parse(env, buf).req.body == body <==>
            && env.head(buf).Parsed?
            && var head := env.head(buf).head;
            && head.size <= |buf| && !BareLf(buf[..head.size])
            && var v := Verdict(env, head.headers, head.http11);
            v.Some? && BodyOf(buf[head.size..], v.value, body)
  {
    hide BareLf, Decide, ScanAll, SplitQuery, StripAbsoluteForm, Chunked.Decode, Decimal, Carries;
    if env.head(buf).Parsed? && env.head(buf).head.size <= |buf| {
      var head := env.head(buf).head;
      var rest := buf[head.size..];
      var v := Verdict(env, head.headers, head.http11);
      if v.Some? {
        match v.value
        case ChunkedBody => DecodedExactly(rest, body);
        case Length(n) =>
          assert n <= |rest| ==> rest[..n] == buf[head.size..head.size + n];
      }
    }
  }

  lemma {:induction false} DecodedExactly(s: seq<byte>, body: seq<byte>)
    ensures var r := Chunked.Decode(s, 0, []);
            r.Done? && r.body == body <==> exists e :: Carries(s, body, e)
  {
    hide Chunked.Decode, Chunked.EncodingOk, Chunked.Wire, Chunked.Body;
    var r := Chunked.Decode(s, 0, []);
    if r.Done? && r.body == body {
      Chunked.AcceptsExactlyEncodings(s, body, r.used);
      var e :| Chunked.EncodingOk(e) && |Chunked.Body(e)| <= Chunked.MAX_CHUNKED_BODY && Chunked.Wire(e) <= s
               && Chunked.Body(e) == body && |Chunked.Wire(e)| == r.used;
      assert Carries(s, body, e);
    }
    if e :| Carries(s, body, e) {
      Chunked.AcceptsExactlyEncodings(s, body, |Chunked.Wire(e)|);
    }
  }

  /** The forwarded lines are the readable ones of the first `n` but for the transfer codings, in order: `at` says which. */
  lemma {:induction false} ForwardExactly(env: Env, hs: seq<Header>, n: nat) returns (at: seq<nat>)
    requires n <= |hs|
    ensures |at| == |Forward(env, hs[..n])|
    ensures forall i :: 0 <= i < |at| ==> at[i] < n && ForwardedAs(env, hs[at[i]], Forward(env, hs[..n])[i])
    ensures forall i, j :: 0 <= i < j < |at| ==> at[i] < at[j]
    ensures forall k :: 0 <= k < n ==> (k in at <==> Forwarded(env, hs[k]))
  {
    hide Forwarded, ForwardedAs;
    at := [];
    if n > 0 {
      var before := ForwardExactly(env, hs, n - 1);
      ForwardNext(env, hs, n);
      if Forwarded(env, hs[n - 1]) {
        at := before + [n - 1];
      } else {
        at := before;
      }
    }
  }

  ghost predicate Forwarded(env: Env, h: Header) { !EqFold(h.name, "transfer-encoding") && env.text(h.value).Some? }

  ghost predicate ForwardedAs(env: Env, h: Header, f: Field) { f.0 == h.name && env.text(h.value) == Some(f.1) }

  lemma {:induction false} ForwardNext(env: Env, hs: seq<Header>, n: nat)
    requires 0 < n <= |hs|
    ensures var before, now := Forward(env, hs[..n - 1]), Forward(env, hs[..n]);
            if Forwarded(env, hs[n - 1]) then
              |now| == |before| + 1 && now[..|before|] == before && ForwardedAs(env, hs[n - 1], now[|before|])
            else now == before
  {
    hide EqFold;
    assert hs[..n][..n - 1] == hs[..n - 1];
  }

  /** The lines that go on: those of the head, and the decoded body's length if it was chunked. */
  function Onward(env: Env, head: Head, body: seq<byte>): seq<Field> {
    Forward(env, head.headers)
    + if Verdict(env, head.headers, head.http11) == Some(ChunkedBody) then [("Content-Length", Decimal(|body|))] else []
  }

  /**
  A complete request says what its head says: method and version as they are,
  the target reduced and cut at its first question mark, and the head's lines.
  */
  lemma {:induction false} RequestIsHeads(env: Env, buf: seq<byte>)
    requires Parse(env, buf).Complete?
    ensures env.head(buf).Parsed?
    ensures var head, req := env.head(buf).head, Parse(env, buf).req;
            && req.verb == head.verb && req.http11 == head.http11
            && '?' !in req.path
            && Reduced(head.target, req.path + match req.query case Some(q) => "?" + q case None => "")
            && req.headers == Onward(env, head, req.body)
  {
    hide Chunked.Decode, Decimal, BareLf, StripAbsoluteForm, SplitQuery, Reduced, Forward, Decide, Is;
    var head, req := env.head(buf).head, Parse(env, buf).req;
    ScanMeaning(env, head.headers);
    StripReduces(head.target);
    var t := StripAbsoluteForm(head.target);
    SplitQueryExactly(t, SplitQuery(t).0, SplitQuery(t).1);
    assert Forward(env, head.headers) + [] == Forward(env, head.headers);
  }

  /** What is refused: by the head parser, for a bare line feed, for the field lines, or for the chunks. */
  lemma {:induction false} RefusedExactly(env: Env, buf: seq<byte>)
    ensures Parse(env, buf).Error? <==>
            || env.head(buf).Refused?
            || (&& env.head(buf).Parsed?
                && var head := env.head(buf).head;
                   || head.size > |buf| || BareLf(buf[..head.size])
                   || Verdict(env, head.headers, head.http11).None?
                   || (Verdict(env, head.headers, head.http11) == Some(ChunkedBody)
                       && Chunked.Decode(buf[head.size..], 0, []).Bad?))
  {
    hide Chunked.Decode, Decimal, BareLf, StripAbsoluteForm, SplitQuery, Decide, ScanAll;
  }

  // ---- growing buffers ----

  /**
  What is relied on of the head parser: a decision stands when more bytes
  arrive, and a parsed head lies in the buffer and ends with an empty line.
  */
  ghost predicate Incremental(env: Env) {
    && (forall b: seq<byte>, x: seq<byte> :: env.head(b) != Partial ==> env.head(b + x) == env.head(b))
    && (forall b: seq<byte> :: env.head(b).Parsed? ==> EndsWithEmptyLine(b, env.head(b).head.size))
  }

  predicate EndsWithEmptyLine(b: seq<byte>, n: nat) {
    && 3 <= n <= |b| && b[n - 1] == LF
    && (b[n - 2] == LF || (b[n - 2] == CR && b[n - 3] == LF))
  }

  /** Acceptance and refusal are unchanged by any appended bytes. */
  lemma {:induction false} ParseStable(env: Env, buf: seq<byte>, x: seq<byte>)
    requires Incremental(env) && Parse(env, buf) != Incomplete
    ensures Parse(env, buf + x) == Parse(env, buf)
  {
    hide BareLf, Decide, ScanAll, SplitQuery, StripAbsoluteForm, Chunked.Decode, EndsWithEmptyLine;
    assert env.head(buf + x) == env.head(buf);
    if env.head(buf).Parsed? {
      var head := env.head(buf).head;
      var n := head.size;
      assert EndsWithEmptyLine(buf, n);
      SizeWithin(buf, n);
      assert (buf + x)[..n] == buf[..n];
      assert (buf + x)[n..] == buf[n..] + x;
      var v := Verdict(env, head.headers, head.http11);
      if !BareLf(buf[..n]) && v.Some? {
        match v.value
        case ChunkedBody => Chunked.DecodeStable(buf[n..], x, 0, []);
        case Length(k) => assert (buf + x)[n..n + k] == buf[n..n + k];
      }
    }
  }

  lemma {:induction false} SizeWithin(b: seq<byte>, n: nat)
    requires EndsWithEmptyLine(b, n)
    ensures 3 <= n <= |b|
  {
  }

  // ---- the code ----

  /** The scan of the head for a line feed on its own. */
  method HasBareLf(head: seq<byte>) returns (found: bool)
    ensures found == BareLf(head)
  {
    var i := 0;
    while i < |head|
      invariant i <= |head|
      invariant forall k :: 0 <= k < i && head[k] == LF ==> k > 0 && head[k - 1] == CR
    {
      if head[i] == LF && (i == 0 || head[i - 1] != CR) {
        return true;
      }
      i := i + 1;
    }
    return false;
  }

  /** The pass over the field lines. */
  method ScanHeaders(env: Env, hs: seq<Header>) returns (r: Option<Scan>)
    ensures r == ScanAll(env, hs)
  {
    hide ScanOne;
    var sc := NO_FIELDS;
    var i := 0;
    while i < |hs|
      invariant i <= |hs| && ScanAll(env, hs[..i]) == Some(sc)
    {
      assert hs[..i + 1][..i] == hs[..i];
      var next := ScanOne(env, hs[i], sc);
      if next.None? {
        ScanPrefix(env, hs, i + 1);
        return None;
      }
      sc := next.value;
      i := i + 1;
    }
    assert hs[..i] == hs;
    return Some(sc);
  }

  lemma {:induction false} ScanPrefix(env: Env, hs: seq<Header>, k: nat)
    requires k <= |hs| && ScanAll(env, hs[..k]).None?
    ensures ScanAll(env, hs).None?
    decreases |hs|
  {
    hide ScanOne;
    if k < |hs| {
      assert hs[..|hs| - 1][..k] == hs[..k];
      ScanPrefix(env, hs[..|hs| - 1], k);
    } else {
      assert hs[..k] == hs;
    }
  }

  method ParseRequest(env: Env, buf: seq<byte>) returns (r: ParseResult)
    ensures r == Parse(env, buf)
  {
    hide BareLf, ScanAll, SplitQuery, StripAbsoluteForm, Chunked.Decode, Decimal;
    match env.head(buf)
    case Partial => return Incomplete;
    case Refused => return Error;
    case Parsed(head) =>
      if head.size > |buf| {
        return Error;
      }
      var bare := HasBareLf(buf[..head.size]);
      if bare {
        return Error;
      }
      var (path, query) := SplitQuery(StripAbsoluteForm(head.target));
      var scanned := ScanHeaders(env, head.headers);
      if scanned.None? {
        return Error;
      }
      var sc := scanned.value;
      var framing := Decide(sc, head.http11);
      if framing.None? {
        return Error;
      }
      if framing.value.ChunkedBody? {
        var decoded := Chunked.DecodeChunked(buf[head.size..]);
        match decoded
        case Incomplete => return Incomplete;
        case Bad => return Error;
        case Done(body, _) =>
          var fwd := sc.fwd + [("Content-Length", Decimal(|body|))];
          return Complete(Request(head.verb, path, query, head.http11, fwd, body));
      }
      var n := framing.value.n;
      if |buf| - head.size < n {
        return Incomplete;
      }
      return Complete(Request(head.verb, path, query, head.http11, sc.fwd, buf[head.size..head.size + n]));
  }
}
