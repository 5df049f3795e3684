/**
The chunked transfer coding (section 7.1 of RFC 9112), as `decode_chunked` reads it.

`Decode` is the decoder as a function of the bytes seen so far, `DecodeChunked`
is the loop that computes it, and `Encoding` is an independent grammar of the
wire format. The results: an answer never changes when more bytes arrive, no
shorter input gets an answer early, and the accepted inputs are exactly the
encodings of the grammar, with the body that the grammar says.
*/
module Chunked {
  import opened Bytes

  /** Largest decoded body. */
  const MAX_CHUNKED_BODY: nat := 16 * 1024 * 1024
  const USIZE_MAX: nat := 0xFFFF_FFFF_FFFF_FFFF
  const SEMI: byte := 59

  /** `used` is where the reading position stood on success. */
  datatype Chunked = Done(body: seq<byte>, used: nat) | Incomplete | Bad

  // ---- the size field ----

  const HEX_LOWER: string := "0123456789abcdef"
  const HEX_UPPER: string := "0123456789ABCDEF"

  function HexDigit(c: byte): (d: Option<nat>)
    ensures d.Some? ==> d.value < 16
  {
    if 48 <= c <= 57 then Some(c - 48)
    else if 97 <= c <= 102 then Some(c - 97 + 10)
    else if 65 <= c <= 70 then Some(c - 65 + 10)
    else None
  }

  /** Value of a run of hex digits; `None` for any other byte. */
  function HexValue(s: seq<byte>): (v: Option<nat>)
  {
    if s == [] then Some(0)
    else
      match (HexValue(s[..|s| - 1]), HexDigit(s[|s| - 1]))
      case (Some(hi), Some(lo)) => Some(16 * hi + lo)
      case _ => None
  }

  /** One digit as it is written, in either case. */
  function DigitText(d: nat, upper: bool): (c: byte)
    requires d < 16
  {
    if upper then Ascii(HEX_UPPER)[d] else Ascii(HEX_LOWER)[d]
  }

  /** `n` in as many hex digits as `upper` has entries, each in the case it says; leading zeros fill up. */
  function HexText(n: nat, upper: seq<bool>): (s: seq<byte>)
    requires n < Pow16(|upper|)
    ensures |s| == |upper|
  {
    if upper == [] then []
    else HexText(n / 16, upper[..|upper| - 1]) + [DigitText(n % 16, upper[|upper| - 1])]
  }

  /** A byte is read as a digit exactly when it stands in one of the two alphabets, and by its place there. */
  lemma {:induction false} HexDigitExactly(c: byte, d: nat)
    requires d < 16
    ensures HexDigit(c) == Some(d) <==> c == DigitText(d, false) || c == DigitText(d, true)
  {
    HexAlphabets(d);
  }

  lemma {:induction false} HexAlphabets(d: nat)
    requires d < 16
    ensures DigitText(d, false) == if d < 10 then 48 + d else 87 + d
    ensures DigitText(d, true) == if d < 10 then 48 + d else 55 + d
  {
  }

  /** Hex digits read as `n` exactly when they are `n` written out, whatever the case and the leading zeros. */
  lemma {:induction false} HexExactly(s: seq<byte>, n: nat)
    ensures HexValue(s) == Some(n) <==>
            n < Pow16(|s|) && exists upper: seq<bool> :: |upper| == |s| && HexText(n, upper) == s
  {
    hide HexDigit, DigitText;
    if HexValue(s) == Some(n) {
      HexBound(s);
      var upper := HexIsText(s, n);
    }
    if n < Pow16(|s|) {
      if upper: seq<bool> :| |upper| == |s| && HexText(n, upper) == s {
        TextIsHex(n, upper);
      }
    }
  }

  lemma {:induction false} HexIsText(s: seq<byte>, n: nat) returns (upper: seq<bool>)
    requires HexValue(s) == Some(n)
    ensures |upper| == |s| && n < Pow16(|s|) && HexText(n, upper) == s
  {
    hide HexDigit, DigitText;
    HexBound(s);
    if s == [] {
      upper := [];
    } else {
      var init, last := s[..|s| - 1], s[|s| - 1];
      var before := HexIsText(init, n / 16);
      HexDigitExactly(last, n % 16);
      upper := before + [last != DigitText(n % 16, false)];
      assert upper[..|upper| - 1] == before;
      assert s == init + [last];
    }
  }

  lemma {:induction false} TextIsHex(n: nat, upper: seq<bool>)
    requires n < Pow16(|upper|)
    ensures HexValue(HexText(n, upper)) == Some(n)
  {
    hide HexDigit, DigitText;
    if upper != [] {
      var init, last := upper[..|upper| - 1], upper[|upper| - 1];
      TextIsHex(n / 16, init);
      var s := HexText(n, upper);
      assert s[..|s| - 1] == HexText(n / 16, init);
      HexDigitExactly(DigitText(n % 16, last), n % 16);
    }
  }

  /** Every size that fits is read from each of its written forms of one to sixteen digits; other texts are no size. */
  lemma {:induction false} SizeExactly(s: seq<byte>, n: nat)
    ensures ReadSize(s) == Some(n) <==>
            1 <= |s| <= 16 && n < Pow16(|s|)
            && exists upper: seq<bool> :: |upper| == |s| && HexText(n, upper) == s
    ensures ReadSize(s) == Some(n) ==> n <= USIZE_MAX
    ensures ReadSize(s).None? <==>
            |s| == 0 || |s| > 16 || exists i :: 0 <= i < |s| && s[i] !in Ascii(HEX_LOWER) && s[i] !in Ascii(HEX_UPPER)
  {
    hide HexValue;
    HexExactly(s, n);
    Pow16Sixteen();
    HexRefuses(s);
  }

  lemma {:induction false} HexRefuses(s: seq<byte>)
    ensures HexValue(s).None? <==> exists i :: 0 <= i < |s| && s[i] !in Ascii(HEX_LOWER) && s[i] !in Ascii(HEX_UPPER)
  {
    hide HexDigit;
    if s != [] {
      var init := s[..|s| - 1];
      HexRefuses(init);
      DigitRefuses(s[|s| - 1]);
      if i :| 0 <= i < |init| && init[i] !in Ascii(HEX_LOWER) && init[i] !in Ascii(HEX_UPPER) {
        assert s[i] == init[i];
      }
    }
  }

  lemma {:induction false} DigitRefuses(c: byte)
    ensures HexDigit(c).None? <==> c !in Ascii(HEX_LOWER) && c !in Ascii(HEX_UPPER)
  {
    if HexDigit(c).Some? {
      var d := HexDigit(c).value;
      HexDigitExactly(c, d);
      assert DigitText(d, false) in Ascii(HEX_LOWER) && DigitText(d, true) in Ascii(HEX_UPPER);
    } else {
      forall d: nat | d < 16 ensures Ascii(HEX_LOWER)[d] != c && Ascii(HEX_UPPER)[d] != c {
        HexDigitExactly(c, d);
      }
    }
  }

  function Pow16(n: nat): (p: nat)
  {
    if n == 0 then 1 else 16 * Pow16(n - 1)
  }

  lemma {:induction false} HexBound(s: seq<byte>)
    requires HexValue(s).Some?
    ensures HexValue(s).value < Pow16(|s|)
  {
    if s != [] {
      HexBound(s[..|s| - 1]);
    }
  }

  lemma {:induction false} HexPrefix(s: seq<byte>, k: nat)
    requires k <= |s| && HexValue(s).Some?
    ensures HexValue(s[..k]).Some? && HexValue(s[..k]).value <= HexValue(s).value
  {
    if k < |s| {
      HexPrefix(s[..|s| - 1], k);
      assert s[..|s| - 1][..k] == s[..k];
    } else {
      assert s[..k] == s;
    }
  }

  /** Sixteen hex digits always fit, so the overflow test never fires. */
  lemma {:induction false} Pow16Sixteen()
    ensures forall n: nat :: n <= 16 ==> Pow16(n) <= USIZE_MAX + 1
  {
    assert Pow16(4) == 0x1_0000;
    assert Pow16(8) == 0x1_0000_0000;
    assert Pow16(12) == 0x1_0000_0000_0000;
    assert Pow16(16) == USIZE_MAX + 1;
    forall n: nat | n <= 16 ensures Pow16(n) <= USIZE_MAX + 1 {
      Pow16Grows(n, 16);
    }
  }

  lemma {:induction false} Pow16Grows(m: nat, n: nat)
    requires m <= n
    ensures Pow16(m) <= Pow16(n)
  {
    if m < n {
      Pow16Grows(m, n - 1);
    }
  }

  /** A size field: one to sixteen hex digits. */
  function ReadSize(s: seq<byte>): (v: Option<nat>)
  {
    if s == [] || |s| > 16 then None else HexValue(s)
  }

  /** The part of a chunk line before the first `;`. */
  function SizeField(line: seq<byte>): (r: seq<byte>)
    ensures r <= line && SEMI !in r
    ensures r == line || line[|r|] == SEMI
  {
    if line == [] || line[0] == SEMI then []
    else [line[0]] + SizeField(line[1..])
  }

  lemma {:induction false} SizeFieldIs(size: seq<byte>, ext: seq<byte>)
    requires SEMI !in size && (ext == [] || ext[0] == SEMI)
    ensures SizeField(size + ext) == size
  {
    if size == [] {
      assert size + ext == ext;
    } else {
      assert (size + ext)[1..] == size[1..] + ext;
      SizeFieldIs(size[1..], ext);
    }
  }

  // ---- the decoder ----

  /** The trailer section: lines up to and including an empty one. */
  function Trailer(s: seq<byte>, i: nat): (r: Option<nat>)
    requires i <= |s|
    ensures r.Some? ==> i < r.value <= |s|
    decreases |s| - i
  {
    match FindCrlf(s, i)
    case None => None
    case Some(e) => if e == i then Some(i + 2) else Trailer(s, e + 2)
  }

  /** What one round of the loop finds at `i`, with `held` body bytes already collected. */
  datatype Item = More | Malformed | Last(end: nat) | Data(at: nat, size: nat)

  function ReadItem(s: seq<byte>, i: nat, held: nat): (r: Item)
    requires i <= |s|
    ensures r.Last? ==> i < r.end <= |s|
    ensures r.Data? ==> i < r.at && 0 < r.size && r.at + r.size + 2 <= |s| && held + r.size <= MAX_CHUNKED_BODY
  {
    match FindCrlf(s, i)
    case None => More
    case Some(e) =>
      match ReadSize(SizeField(s[i..e]))
      case None => Malformed
      case Some(size) =>
        var d := e + 2;
        if size == 0 then
          match Trailer(s, d)
          case None => More
          case Some(end) => Last(end)
        else if held + size > MAX_CHUNKED_BODY then Malformed
        else if |s| < d + size + 2 then More
        else if s[d + size..d + size + 2] != CRLF then Malformed
        else Data(d, size)
  }

  /** Decoding from position `i` with `out` already collected. */
  function Decode(s: seq<byte>, i: nat, out: seq<byte>): (r: Chunked)
    requires i <= |s|
    ensures r.Done? ==> i < r.used <= |s|
    ensures r.Done? && |out| <= MAX_CHUNKED_BODY ==> |r.body| <= MAX_CHUNKED_BODY
    decreases |s| - i
  {
    match ReadItem(s, i, |out|)
    case More => Incomplete
    case Malformed => Bad
    case Last(end) => Done(out, end)
    case Data(d, n) => Decode(s, d + n + 2, out + s[d..d + n])
  }

  /** The size accumulator, with its overflow test. */
  method ParseSize(text: seq<byte>) returns (size: Option<nat>)
    ensures size == ReadSize(text)
  {
    if text == [] || |text| > 16 {
      return None;
    }
    var v := 0;
    var k := 0;
    while k < |text|
      invariant k <= |text|
      invariant HexValue(text[..k]) == Some(v)
    {
      assert text[..k + 1][..k] == text[..k];
      var d := HexDigit(text[k]);
      if d.None? {
        if HexValue(text).Some? {
          HexPrefix(text, k + 1);
        }
        return None;
      }
      HexBound(text[..k + 1]);
      Pow16Sixteen();
      if v * 16 + d.value > USIZE_MAX {
        assert false;
      }
      v := v * 16 + d.value;
      k := k + 1;
    }
    assert text[..k] == text;
    size := Some(v);
  }

  /** The inner loop: trailer lines up to the empty one. */
  method SkipTrailer(buf: seq<byte>, start: nat) returns (end: Option<nat>)
    requires start <= |buf|
    ensures end == Trailer(buf, start)
  {
    var i := start;
    while true
      invariant start <= i <= |buf|
      invariant Trailer(buf, start) == Trailer(buf, i)
      decreases |buf| - i
    {
      var eol := FindCrlf(buf, i);
      if eol.None? {
        return None;
      }
      var empty := eol.value == i;
      i := eol.value + 2;
      if empty {
        return Some(i);
      }
    }
  }

  /** One round of the loop. */
  method NextItem(buf: seq<byte>, i: nat, held: nat) returns (r: Item)
    requires i <= |buf|
    ensures r == ReadItem(buf, i, held)
  {
    hide Trailer, SizeField, ReadSize, FindCrlf;
    var eol := FindCrlf(buf, i);
    if eol.None? {
      return More;
    }
    var size := ParseSize(SizeField(buf[i..eol.value]));
    if size.None? {
      return Malformed;
    }
    var at := eol.value + 2;
    if size.value == 0 {
      var end := SkipTrailer(buf, at);
      return if end.None? then More else Last(end.value);
    }
    if held + size.value > MAX_CHUNKED_BODY {
      return Malformed;
    }
    if |buf| < at + size.value + 2 {
      return More;
    }
    if buf[at + size.value..at + size.value + 2] != CRLF {
      return Malformed;
    }
    return Data(at, size.value);
  }

  method DecodeChunked(buf: seq<byte>) returns (r: Chunked)
    ensures r == Decode(buf, 0, [])
  {
    hide ReadItem;
    var out: seq<byte> := [];
    var i := 0;
    while true
      invariant i <= |buf|
      invariant Decode(buf, 0, []) == Decode(buf, i, out)
      decreases |buf| - i
    {
      var item := NextItem(buf, i, |out|);
      match item
      case More => return Incomplete;
      case Malformed => return Bad;
      case Last(end) => return Done(out, end);
      case Data(at, size) =>
        out := out + buf[at..at + size];
        i := at + size + 2;
    }
  }

  // ---- answers do not depend on what arrives later ----

  lemma {:induction false} FindCrlfStable(s: seq<byte>, x: seq<byte>, i: nat)
    requires i <= |s| && FindCrlf(s, i).Some?
    ensures FindCrlf(s + x, i) == FindCrlf(s, i)
  {
    var k := FindCrlf(s, i).value;
    forall j | i <= j < k ensures !CrlfAt(s + x, j) {
      assert !CrlfAt(s, j);
    }
    FindCrlfIs(s + x, i, k);
  }

  lemma {:induction false} TrailerStable(s: seq<byte>, x: seq<byte>, i: nat)
    requires i <= |s| && Trailer(s, i).Some?
    ensures Trailer(s + x, i) == Trailer(s, i)
    decreases |s| - i
  {
    FindCrlfStable(s, x, i);
    var e := FindCrlf(s, i).value;
    if e != i {
      TrailerStable(s, x, e + 2);
    }
  }

  lemma {:induction false} ItemStable(s: seq<byte>, x: seq<byte>, i: nat, held: nat)
    requires i <= |s| && ReadItem(s, i, held) != More
    ensures ReadItem(s + x, i, held) == ReadItem(s, i, held)
  {
    FindCrlfStable(s, x, i);
    var e := FindCrlf(s, i).value;
    assert (s + x)[i..e] == s[i..e];
    var size := ReadSize(SizeField(s[i..e]));
    if size.Some? {
      var d := e + 2;
      if size.value == 0 {
        TrailerStable(s, x, d);
      } else if |s| >= d + size.value + 2 {
        assert (s + x)[d + size.value..d + size.value + 2] == s[d + size.value..d + size.value + 2];
      }
    }
  }

  /** An answer, success or refusal, is unchanged by any appended bytes. */
  lemma {:induction false} DecodeStable(s: seq<byte>, x: seq<byte>, i: nat, out: seq<byte>)
    requires i <= |s| && Decode(s, i, out) != Incomplete
    ensures Decode(s + x, i, out) == Decode(s, i, out)
    decreases |s| - i
  {
    hide ReadItem;
    ItemStable(s, x, i, |out|);
    match ReadItem(s, i, |out|)
    case Data(d, n) =>
      assert (s + x)[d..d + n] == s[d..d + n];
      DecodeStable(s, x, d + n + 2, out + s[d..d + n]);
    case _ =>
  }

  lemma {:induction false} TrailerLocal(s: seq<byte>, i: nat)
    requires i <= |s| && Trailer(s, i).Some?
    ensures Trailer(s[..Trailer(s, i).value], i) == Trailer(s, i)
    decreases |s| - i
  {
    var n := Trailer(s, i).value;
    var e := FindCrlf(s, i).value;
    if e != i {
      TrailerLocal(s, e + 2);
    }
    FindCrlfLocal(s, n, i);
  }

  lemma {:induction false} FindCrlfLocal(s: seq<byte>, n: nat, i: nat)
    requires i <= n <= |s| && FindCrlf(s, i).Some? && FindCrlf(s, i).value + 2 <= n
    ensures FindCrlf(s[..n], i) == FindCrlf(s, i)
  {
    var k := FindCrlf(s, i).value;
    forall j | i <= j < k ensures !CrlfAt(s[..n], j) {
      assert !CrlfAt(s, j);
    }
    FindCrlfIs(s[..n], i, k);
  }

  lemma {:induction false} ItemLocal(s: seq<byte>, n: nat, i: nat, held: nat)
    requires i <= n <= |s|
    requires match ReadItem(s, i, held) case Last(end) => end == n case Data(d, k) => d + k + 2 <= n case _ => false
    ensures ReadItem(s[..n], i, held) == ReadItem(s, i, held)
  {
    hide SizeField, FindCrlf, Trailer, ReadSize, CrlfAt;
    var e := FindCrlf(s, i).value;
    var size := ReadSize(SizeField(s[i..e])).value;
    var d := e + 2;
    if size == 0 {
      TrailerLocal(s, d);
    } else {
      assert s[..n][d + size..d + size + 2] == s[d + size..d + size + 2];
    }
    FindCrlfLocal(s, n, i);
    assert s[..n][i..e] == s[i..e];
  }

  /** A success is already decided by the bytes it consumed. */
  lemma {:induction false} DecodeLocal(s: seq<byte>, i: nat, out: seq<byte>)
    requires i <= |s| && Decode(s, i, out).Done?
    ensures Decode(s[..Decode(s, i, out).used], i, out) == Decode(s, i, out)
    decreases |s| - i
  {
    hide ReadItem;
    var n := Decode(s, i, out).used;
    match ReadItem(s, i, |out|)
    case Data(d, k) =>
      DecodeLocal(s, d + k + 2, out + s[d..d + k]);
      ItemLocal(s, n, i, |out|);
      assert s[..n][d..d + k] == s[d..d + k];
    case Last(_) =>
      ItemLocal(s, n, i, |out|);
    case _ =>
  }

  /** The three stability facts of the decoder in one place. */
  lemma {:induction false} DecodeIsIncremental(s: seq<byte>, x: seq<byte>)
    ensures Decode(s, 0, []) != Incomplete ==> Decode(s + x, 0, []) == Decode(s, 0, [])
    ensures Decode(s, 0, []).Done? ==>
              var n := Decode(s, 0, []).used;
              && |Decode(s, 0, []).body| <= MAX_CHUNKED_BODY
              && Decode(s[..n] + x, 0, []) == Decode(s, 0, [])
              && forall k :: 0 <= k < n ==> Decode(s[..k], 0, []) == Incomplete
  {
    hide ReadItem;
    if Decode(s, 0, []) != Incomplete {
      DecodeStable(s, x, 0, []);
    }
    if Decode(s, 0, []).Done? {
      var n := Decode(s, 0, []).used;
      DecodeLocal(s, 0, []);
      DecodeStable(s[..n], x, 0, []);
      forall k | 0 <= k < n ensures Decode(s[..k], 0, []) == Incomplete {
        assert s[..k] + s[k..] == s;
        if Decode(s[..k], 0, []) != Incomplete {
          DecodeStable(s[..k], s[k..], 0, []);
        }
      }
    }
  }

  // ---- the wire format, independently ----

  /** One data chunk as written: size digits, extension, data. */
  datatype Chunk = Chunk(size: seq<byte>, ext: seq<byte>, data: seq<byte>)

  /** A whole chunked body as written. */
  datatype Encoding = Encoding(chunks: seq<Chunk>, zero: seq<byte>, zeroExt: seq<byte>, trailers: seq<seq<byte>>)

  /** Size text for `n`: `n` written in one to sixteen hex digits. */
  ghost predicate SizeText(t: seq<byte>, n: nat) {
    && 1 <= |t| <= 16 && n < Pow16(|t|)
    && exists upper: seq<bool> :: |upper| == |t| && HexText(n, upper) == t
  }

  lemma {:induction false} SizeTextReads(t: seq<byte>, n: nat)
    ensures SizeText(t, n) <==> ReadSize(t) == Some(n)
  {
    SizeExactly(t, n);
  }

  ghost predicate ExtText(ext: seq<byte>) {
    CrlfFree(ext) && (ext == [] || ext[0] == SEMI)
  }

  ghost predicate ChunkOk(c: Chunk) {
    c.data != [] && SizeText(c.size, |c.data|) && ExtText(c.ext)
  }

  ghost predicate EncodingOk(e: Encoding) {
    && (forall k :: 0 <= k < |e.chunks| ==> ChunkOk(e.chunks[k]))
    && SizeText(e.zero, 0) && ExtText(e.zeroExt)
    && (forall k :: 0 <= k < |e.trailers| ==> e.trailers[k] != [] && CrlfFree(e.trailers[k]))
  }

  function ChunkBytes(c: Chunk): seq<byte> {
    c.size + c.ext + CRLF + c.data + CRLF
  }

  function TrailerBytes(ts: seq<seq<byte>>): seq<byte> {
    if ts == [] then CRLF else ts[0] + CRLF + TrailerBytes(ts[1..])
  }

  function WireFrom(e: Encoding, k: nat): seq<byte>
    requires k <= |e.chunks|
    decreases |e.chunks| - k
  {
    if k == |e.chunks| then e.zero + e.zeroExt + CRLF + TrailerBytes(e.trailers)
    else ChunkBytes(e.chunks[k]) + WireFrom(e, k + 1)
  }

  function Wire(e: Encoding): seq<byte> { WireFrom(e, 0) }

  function BodyFrom(e: Encoding, k: nat): seq<byte>
    requires k <= |e.chunks|
    decreases |e.chunks| - k
  {
    if k == |e.chunks| then [] else e.chunks[k].data + BodyFrom(e, k + 1)
  }

  function Body(e: Encoding): seq<byte> { BodyFrom(e, 0) }

  lemma {:induction false} HexHasNoMarks(t: seq<byte>)
    requires HexValue(t).Some?
    ensures forall k :: 0 <= k < |t| ==> t[k] != CR && t[k] != LF && t[k] != SEMI
  {
    if t != [] {
      HexHasNoMarks(t[..|t| - 1]);
    }
  }

  /** A line that holds no line end, followed by one, is found whole. */
  lemma {:induction false} LineFound(s: seq<byte>, i: nat, line: seq<byte>)
    requires CrlfFree(line)
    requires i + |line| + 2 <= |s| && s[i..i + |line| + 2] == line + CRLF
    ensures FindCrlf(s, i) == Some(i + |line|) && s[i..i + |line|] == line
  {
    var e := i + |line|;
    var w := s[i..e + 2];
    var marked := line + CRLF;
    assert marked[|line|] == CR && marked[|line| + 1] == LF;
    assert s[e] == w[|line|] == marked[|line|] && s[e + 1] == w[|line| + 1] == marked[|line| + 1];
    assert s[e] == CR && s[e + 1] == LF;
    assert s[i..e] == w[..|line|];
    forall j | i <= j < e ensures !CrlfAt(s, j) {
      assert s[j] == w[j - i] == line[j - i];
      if j + 1 < e {
        assert s[j + 1] == w[j + 1 - i] == line[j + 1 - i];
        assert !CrlfAt(line, j - i);
      }
    }
    FindCrlfIs(s, i, e);
  }

  lemma {:induction false} SizeLineCrlfFree(size: seq<byte>, ext: seq<byte>)
    requires ReadSize(size).Some? && ExtText(ext)
    ensures CrlfFree(size + ext) && SizeField(size + ext) == size
  {
    HexHasNoMarks(size);
    SizeFieldIs(size, ext);
    forall k: nat ensures !CrlfAt(size + ext, k) {
      if |size| <= k && k + 1 < |size + ext| {
        assert !CrlfAt(ext, k - |size|);
      }
    }
  }

  lemma {:induction false} EmptyCrlfFree()
    ensures CrlfFree([])
  {
  }

  lemma {:induction false} SliceSplits(s: seq<byte>, i: nat, a: seq<byte>, b: seq<byte>)
    requires i + |a + b| <= |s| && s[i..i + |a + b|] == a + b
    ensures s[i..i + |a|] == a && s[i + |a|..i + |a| + |b|] == b
  {
    var w := s[i..i + |a + b|];
    assert s[i..i + |a|] == w[..|a|];
    assert s[i + |a|..i + |a| + |b|] == w[|a|..];
  }

  lemma {:induction false} TrailerOfWire(s: seq<byte>, i: nat, ts: seq<seq<byte>>)
    requires forall k :: 0 <= k < |ts| ==> ts[k] != [] && CrlfFree(ts[k])
    requires i + |TrailerBytes(ts)| <= |s| && s[i..i + |TrailerBytes(ts)|] == TrailerBytes(ts)
    ensures Trailer(s, i) == Some(i + |TrailerBytes(ts)|)
    decreases |ts|
  {
    hide FindCrlf, CrlfFree;
    if ts == [] {
      assert s[i..i + 2] == [] + CRLF;
      assert CrlfFree([]) by { EmptyCrlfFree(); }
      LineFound(s, i, []);
    } else {
      var rest := TrailerBytes(ts[1..]);
      var j := |ts[0]| + 2;
      SliceSplits(s, i, ts[0] + CRLF, rest);
      LineFound(s, i, ts[0]);
      TrailerOfWire(s, i + j, ts[1..]);
    }
  }

  /** The last chunk and the trailer section, read back. */
  lemma {:induction false} LastOfWire(s: seq<byte>, i: nat, zero: seq<byte>, ext: seq<byte>, ts: seq<seq<byte>>, held: nat)
    requires SizeText(zero, 0) && ExtText(ext)
    requires forall k :: 0 <= k < |ts| ==> ts[k] != [] && CrlfFree(ts[k])
    requires i <= |s| && zero + ext + CRLF + TrailerBytes(ts) <= s[i..]
    ensures ReadItem(s, i, held) == Last(i + |zero + ext + CRLF + TrailerBytes(ts)|)
  {
    hide Trailer, TrailerBytes, SizeField, SizeText, ReadSize, FindCrlf, CrlfFree;
    SizeTextReads(zero, 0);
    var line := zero + ext;
    SizeLineCrlfFree(zero, ext);
    var w := line + CRLF + TrailerBytes(ts);
    assert s[i..i + |w|] == s[i..][..|w|] == w;
    assert s[i..i + |line| + 2] == w[..|line| + 2] == line + CRLF;
    LineFound(s, i, line);
    var d := i + |line| + 2;
    assert s[d..i + |w|] == w[|line| + 2..] == TrailerBytes(ts);
    TrailerOfWire(s, d, ts);
  }

  /** A data chunk, read back. */
  lemma {:induction false} ChunkOfWire(s: seq<byte>, i: nat, c: Chunk, held: nat)
    requires ChunkOk(c) && i <= |s| && ChunkBytes(c) <= s[i..]
    requires held + |c.data| <= MAX_CHUNKED_BODY
    ensures var d := i + |c.size| + |c.ext| + 2;
            ReadItem(s, i, held) == Data(d, |c.data|) && s[d..d + |c.data|] == c.data
            && |ChunkBytes(c)| == d + |c.data| + 2 - i
  {
    hide Trailer, SizeField, SizeText, ReadSize, FindCrlf, CrlfFree;
    SizeTextReads(c.size, |c.data|);
    var line := c.size + c.ext;
    var n := |c.data|;
    SizeLineCrlfFree(c.size, c.ext);
    assert ChunkBytes(c) == (line + CRLF) + (c.data + CRLF);
    PrefixSplit(s, i, line + CRLF, c.data + CRLF);
    LineFound(s, i, line);
    var d := i + |line| + 2;
    PrefixSplit(s, d, c.data, CRLF);
    assert s[d + n..d + n + 2] == s[d + n..][..2];
  }

  lemma {:induction false} DecodeOfChunk(s: seq<byte>, i: nat, c: Chunk, out: seq<byte>)
    requires ChunkOk(c) && i + |ChunkBytes(c)| <= |s| && ChunkBytes(c) <= s[i..] && |out| + |c.data| <= MAX_CHUNKED_BODY
    ensures Decode(s, i, out) == Decode(s, i + |ChunkBytes(c)|, out + c.data)
  {
    hide ReadItem, ChunkBytes, ChunkOk;
    ChunkOfWire(s, i, c, |out|);
  }

  lemma {:induction false} DecodeOfLast(s: seq<byte>, i: nat, e: Encoding, out: seq<byte>)
    requires EncodingOk(e) && i <= |s| && e.zero + e.zeroExt + CRLF + TrailerBytes(e.trailers) <= s[i..]
    ensures Decode(s, i, out) == Done(out, i + |e.zero + e.zeroExt + CRLF + TrailerBytes(e.trailers)|)
  {
    hide ReadItem, TrailerBytes, SizeText, ExtText, CrlfFree;
    LastOfWire(s, i, e.zero, e.zeroExt, e.trailers, |out|);
  }

  /** Round trip from chunk `k` on. */
  lemma {:induction false} DecodeOfWireFrom(s: seq<byte>, i: nat, e: Encoding, k: nat, out: seq<byte>)
    requires EncodingOk(e) && k <= |e.chunks|
    requires i <= |s| && WireFrom(e, k) <= s[i..]
    requires |out| + |BodyFrom(e, k)| <= MAX_CHUNKED_BODY
    ensures Decode(s, i, out) == Done(out + BodyFrom(e, k), i + |WireFrom(e, k)|)
    decreases |e.chunks| - k
  {
    hide Decode, ChunkBytes, ChunkOk, SizeText, ExtText, TrailerBytes, CrlfFree;
    if k == |e.chunks| {
      DecodeOfLast(s, i, e, out);
      assert out + [] == out;
    } else {
      var c := e.chunks[k];
      assert ChunkOk(c);
      PrefixSplit(s, i, ChunkBytes(c), WireFrom(e, k + 1));
      DecodeOfChunk(s, i, c, out);
      DecodeOfWireFrom(s, i + |ChunkBytes(c)|, e, k + 1, out + c.data);
      assert out + c.data + BodyFrom(e, k + 1) == out + (c.data + BodyFrom(e, k + 1));
    }
  }

  /** Decoding any encoding, whatever follows it, gives exactly its body. */
  lemma {:induction false} DecodeOfWire(e: Encoding, rest: seq<byte>)
    requires EncodingOk(e) && |Body(e)| <= MAX_CHUNKED_BODY
    ensures Decode(Wire(e) + rest, 0, []) == Done(Body(e), |Wire(e)|)
  {
    var s := Wire(e) + rest;
    assert s[0..] == s;
    DecodeOfWireFrom(s, 0, e, 0, []);
    assert [] + BodyFrom(e, 0) == BodyFrom(e, 0);
  }

  // ---- and nothing else is accepted ----

  lemma {:induction false} TrailerIsWire(s: seq<byte>, i: nat) returns (ts: seq<seq<byte>>)
    requires i <= |s| && Trailer(s, i).Some?
    ensures forall k :: 0 <= k < |ts| ==> ts[k] != [] && CrlfFree(ts[k])
    ensures s[i..Trailer(s, i).value] == TrailerBytes(ts)
    decreases |s| - i
  {
    var e := FindCrlf(s, i).value;
    var n := Trailer(s, i).value;
    assert s[e..e + 2] == CRLF;
    if e == i {
      ts := [];
    } else {
      var rest := TrailerIsWire(s, e + 2);
      var line := s[i..e];
      forall k: nat ensures !CrlfAt(line, k) {
        assert !CrlfAt(s, i + k) || k + 1 >= |line|;
      }
      ts := [line] + rest;
      assert ts[1..] == rest;
      assert s[i..n] == line + s[e..e + 2] + s[e + 2..n];
    }
  }

  lemma {:induction false} SizeLineShape(s: seq<byte>, i: nat, e: nat) returns (size: seq<byte>, ext: seq<byte>)
    requires i <= e <= |s| && ReadSize(SizeField(s[i..e])).Some?
    requires forall k :: i <= k < e ==> !CrlfAt(s, k)
    ensures s[i..e] == size + ext && size == SizeField(s[i..e]) && ExtText(ext)
  {
    var line := s[i..e];
    size := SizeField(line);
    ext := line[|size|..];
    forall k: nat ensures !CrlfAt(ext, k) {
      if k + 1 < |ext| {
        assert ext[k] == s[i + |size| + k] && ext[k + 1] == s[i + |size| + k + 1];
        assert !CrlfAt(s, i + |size| + k);
      }
    }
  }

  lemma {:induction false} LastIsWire(s: seq<byte>, i: nat, held: nat) returns (e: Encoding)
    requires i <= |s| && ReadItem(s, i, held).Last?
    ensures EncodingOk(e) && e.chunks == [] && s[i..ReadItem(s, i, held).end] == Wire(e)
  {
    hide Trailer, TrailerBytes, SizeField, SizeText, ReadSize, FindCrlf;
    var end := ReadItem(s, i, held).end;
    var el := FindCrlf(s, i).value;
    var size, ext := SizeLineShape(s, i, el);
    SizeTextReads(size, 0);
    var ts := TrailerIsWire(s, el + 2);
    e := Encoding([], size, ext, ts);
    assert s[el..el + 2] == CRLF;
    assert s[i..end] == s[i..el] + s[el..el + 2] + s[el + 2..end];
  }

  lemma {:induction false} Pieces(s: seq<byte>, a: nat, b: nat, c: nat, d: nat, e: nat)
    requires a <= b <= c <= d <= e <= |s|
    ensures s[a..e] == s[a..b] + s[b..c] + s[c..d] + s[d..e]
  {
    assert s[a..c] == s[a..b] + s[b..c];
    assert s[a..d] == s[a..c] + s[c..d];
    assert s[a..e] == s[a..d] + s[d..e];
  }

  lemma {:induction false} DataIsWire(s: seq<byte>, i: nat, held: nat) returns (c: Chunk)
    requires i <= |s| && ReadItem(s, i, held).Data?
    ensures var item := ReadItem(s, i, held);
            ChunkOk(c) && s[i..item.at + item.size + 2] == ChunkBytes(c) && c.data == s[item.at..item.at + item.size]
  {
    hide Trailer, SizeField, SizeText, ReadSize, FindCrlf, CrlfFree, ExtText;
    var Data(d, n) := ReadItem(s, i, held);
    var el := FindCrlf(s, i).value;
    var size, ext := SizeLineShape(s, i, el);
    SizeTextReads(size, n);
    c := Chunk(size, ext, s[d..d + n]);
    assert s[el..d] == CRLF;
    Pieces(s, i, el, d, d + n, d + n + 2);
  }

  /** The chunks from position `i` on, when decoding from there succeeds. */
  lemma {:induction false} DoneIsWireFrom(s: seq<byte>, i: nat, out: seq<byte>) returns (e: Encoding)
    requires i <= |s| && Decode(s, i, out).Done?
    ensures EncodingOk(e)
    ensures s[i..Decode(s, i, out).used] == Wire(e)
    ensures Decode(s, i, out).body == out + Body(e)
    decreases |s| - i
  {
    hide ReadItem, EncodingOk, ChunkOk, ChunkBytes, WireFrom, BodyFrom;
    var r := Decode(s, i, out);
    match ReadItem(s, i, |out|)
    case Last(end) =>
      e := LastIsWire(s, i, |out|);
      assert out + Body(e) == out by { NoChunks(e); }
    case Data(d, n) =>
      var c := DataIsWire(s, i, |out|);
      var tail := DoneIsWireFrom(s, d + n + 2, out + c.data);
      e := tail.(chunks := [c] + tail.chunks);
      ConsEncoding(c, tail, e);
      assert s[i..r.used] == s[i..d + n + 2] + s[d + n + 2..r.used];
      assert out + c.data + Body(tail) == out + (c.data + Body(tail));
    case _ =>
  }

  lemma {:induction false} ConsEncoding(c: Chunk, tail: Encoding, e: Encoding)
    requires e == tail.(chunks := [c] + tail.chunks)
    ensures Wire(e) == ChunkBytes(c) + Wire(tail)
    ensures Body(e) == c.data + Body(tail)
    ensures ChunkOk(c) && EncodingOk(tail) ==> EncodingOk(e)
  {
    hide ChunkOk, SizeText, ExtText, ChunkBytes;
    ShiftEncoding(c, tail, e, 0);
  }

  lemma {:induction false} NoChunks(e: Encoding)
    requires e.chunks == []
    ensures Body(e) == []
  {
  }

  lemma {:induction false} ShiftEncoding(c: Chunk, tail: Encoding, e: Encoding, k: nat)
    requires e == tail.(chunks := [c] + tail.chunks) && k <= |tail.chunks|
    ensures WireFrom(e, k + 1) == WireFrom(tail, k)
    ensures BodyFrom(e, k + 1) == BodyFrom(tail, k)
    decreases |tail.chunks| - k
  {
    if k < |tail.chunks| {
      ShiftEncoding(c, tail, e, k + 1);
    }
  }

  /** The decoder succeeds exactly on the encodings, with their bodies. */
  lemma {:induction false} AcceptsExactlyEncodings(s: seq<byte>, body: seq<byte>, n: nat)
    ensures Decode(s, 0, []) == Done(body, n) <==>
            exists e :: EncodingOk(e) && |Body(e)| <= MAX_CHUNKED_BODY && Wire(e) <= s
                        && Body(e) == body && |Wire(e)| == n
  {
    hide Decode, EncodingOk, WireFrom, BodyFrom;
    if Decode(s, 0, []) == Done(body, n) {
      var e := DoneIsWireFrom(s, 0, []);
      assert [] + Body(e) == Body(e);
      assert s[0..n] == s[..n];
    }
    if e :| EncodingOk(e) && |Body(e)| <= MAX_CHUNKED_BODY && Wire(e) <= s && Body(e) == body && |Wire(e)| == n {
      DecodeOfWire(e, s[n..]);
      assert s == Wire(e) + s[n..];
    }
  }

  // ---- and what is refused ----

  /** A size line that is no size, a chunk beyond the cap, or chunk data not followed by a line end. */
  ghost predicate Broken(size: seq<byte>, after: seq<byte>, held: nat) {
    || (forall n: nat :: !SizeText(size, n))
    || (exists n: nat :: SizeText(size, n) && n > 0
          && (held + n > MAX_CHUNKED_BODY || (|after| >= n + 2 && after[n..n + 2] != CRLF)))
  }

  /** What stands where the next chunk should. */
  ghost predicate BrokenStart(rest: seq<byte>, held: nat) {
    exists size: seq<byte>, ext: seq<byte>, after: seq<byte> ::
      && rest == size + ext + CRLF + after && SEMI !in size && CrlfFree(size + ext) && (ext == [] || ext[0] == SEMI)
      && Broken(size, after, held)
  }

  function ChunksBytes(cs: seq<Chunk>): seq<byte> {
    if cs == [] then [] else ChunkBytes(cs[0]) + ChunksBytes(cs[1..])
  }

  function ChunksData(cs: seq<Chunk>): seq<byte> {
    if cs == [] then [] else cs[0].data + ChunksData(cs[1..])
  }

  ghost predicate ChunksOk(cs: seq<Chunk>) { forall k :: 0 <= k < |cs| ==> ChunkOk(cs[k]) }

  lemma {:induction false} BrokenIsMalformed(s: seq<byte>, i: nat, held: nat, size: seq<byte>, ext: seq<byte>, after: seq<byte>)
    requires i <= |s| && s[i..] == size + ext + CRLF + after
    requires SEMI !in size && CrlfFree(size + ext) && (ext == [] || ext[0] == SEMI) && Broken(size, after, held)
    ensures ReadItem(s, i, held) == Malformed
  {
    hide SizeText, ReadSize, FindCrlf, CrlfFree, SizeField, Trailer;
    var line := size + ext;
    var e := i + |line|;
    assert s[i..e + 2] == s[i..][..|line| + 2] == line + CRLF;
    LineFound(s, i, line);
    SizeFieldIs(size, ext);
    assert s[e + 2..] == s[i..][|line| + 2..] == after;
    forall n: nat ensures SizeText(size, n) <==> ReadSize(size) == Some(n) {
      SizeTextReads(size, n);
    }
    if ReadSize(size).Some? {
      var n := ReadSize(size).value;
      assert SizeText(size, n);
      assert |after| >= n + 2 ==> s[e + 2 + n..e + 2 + n + 2] == after[n..n + 2];
    }
  }

  lemma {:induction false} MalformedIsBroken(s: seq<byte>, i: nat, held: nat)
    requires i <= |s| && ReadItem(s, i, held) == Malformed
    ensures BrokenStart(s[i..], held)
  {
    hide SizeText, ReadSize, FindCrlf, SizeField, Trailer;
    var e := FindCrlf(s, i).value;
    var line := s[i..e];
    var size := SizeField(line);
    var ext, after := line[|size|..], s[e + 2..];
    assert line == size + ext;
    assert CrlfFree(line) by {
      forall k: nat ensures !CrlfAt(line, k) {
        assert !CrlfAt(s, i + k) || k + 1 >= |line|;
      }
    }
    assert s[e..e + 2] == CRLF;
    assert s[i..] == s[i..e] + s[e..e + 2] + s[e + 2..];
    forall n: nat ensures SizeText(size, n) <==> ReadSize(size) == Some(n) {
      SizeTextReads(size, n);
    }
    assert Broken(size, after, held) by {
      if ReadSize(size).Some? {
        var n := ReadSize(size).value;
        assert SizeText(size, n);
        assert |after| >= n + 2 ==> after[n..n + 2] == s[e + 2 + n..e + 2 + n + 2];
      }
    }
  }

  lemma {:induction false} MalformedIsBad(s: seq<byte>, i: nat, out: seq<byte>)
    requires i <= |s| && ReadItem(s, i, |out|) == Malformed
    ensures Decode(s, i, out) == Bad
  {
    hide ReadItem;
  }

  lemma {:induction false} SplitOff(s: seq<byte>, i: nat, a: seq<byte>, b: seq<byte>, rest: seq<byte>)
    requires i <= |s| && s[i..] == a + b + rest
    ensures i + |a| <= |s| && a <= s[i..] && s[i + |a|..] == b + rest
  {
    assert s[i..] == a + (b + rest);
    assert s[i + |a|..] == s[i..][|a|..];
  }

  lemma {:induction false} DecodeOfBroken(s: seq<byte>, i: nat, cs: seq<Chunk>, rest: seq<byte>, out: seq<byte>)
    requires i <= |s| && s[i..] == ChunksBytes(cs) + rest && ChunksOk(cs)
    requires |out| + |ChunksData(cs)| <= MAX_CHUNKED_BODY && BrokenStart(rest, |out| + |ChunksData(cs)|)
    ensures Decode(s, i, out) == Bad
    decreases |cs|
  {
    hide ReadItem, ChunkOk, ChunkBytes, Broken, Decode, CrlfFree;
    if cs == [] {
      assert s[i..] == rest;
      var size, ext, after :| rest == size + ext + CRLF + after && SEMI !in size && CrlfFree(size + ext)
                              && (ext == [] || ext[0] == SEMI) && Broken(size, after, |out|);
      BrokenIsMalformed(s, i, |out|, size, ext, after);
      MalformedIsBad(s, i, out);
    } else {
      var c := cs[0];
      assert ChunkOk(c);
      var next := i + |ChunkBytes(c)|;
      SplitOff(s, i, ChunkBytes(c), ChunksBytes(cs[1..]), rest);
      DecodeOfChunk(s, i, c, out);
      DecodeOfBroken(s, next, cs[1..], rest, out + c.data);
    }
  }

  lemma {:induction false} BadIsBroken(s: seq<byte>, i: nat, out: seq<byte>) returns (cs: seq<Chunk>, rest: seq<byte>)
    requires i <= |s| && Decode(s, i, out) == Bad && |out| <= MAX_CHUNKED_BODY
    ensures s[i..] == ChunksBytes(cs) + rest && ChunksOk(cs)
    ensures |out| + |ChunksData(cs)| <= MAX_CHUNKED_BODY && BrokenStart(rest, |out| + |ChunksData(cs)|)
    decreases |s| - i
  {
    hide ReadItem, ChunkOk, BrokenStart, ChunkBytes;
    var item := ReadItem(s, i, |out|);
    if item.Data? {
      var Data(d, n) := item;
      var c := DataIsWire(s, i, |out|);
      var more, r := BadIsBroken(s, d + n + 2, out + c.data);
      cs, rest := [c] + more, r;
      assert cs[1..] == more;
      assert s[i..] == s[i..d + n + 2] + s[d + n + 2..];
      assert ChunkBytes(c) + (ChunksBytes(more) + rest) == ChunksBytes(cs) + rest;
    } else {
      cs, rest := [], s[i..];
      MalformedIsBroken(s, i, |out|);
    }
  }

  /**
  The decoder refuses exactly what starts, after some whole chunks within the
  cap, with a line that is no size, a chunk beyond the cap, or chunk data that
  no line end follows. Everything else that is not accepted is incomplete.
  */
  lemma {:induction false} RefusesExactly(s: seq<byte>)
    ensures Decode(s, 0, []) == Bad <==>
            exists cs: seq<Chunk>, rest: seq<byte> ::
              && s == ChunksBytes(cs) + rest && ChunksOk(cs) && |ChunksData(cs)| <= MAX_CHUNKED_BODY
              && BrokenStart(rest, |ChunksData(cs)|)
  {
    hide Decode, ChunksBytes, ChunksData, ChunksOk, BrokenStart;
    assert s[0..] == s;
    if Decode(s, 0, []) == Bad {
      var cs, rest := BadIsBroken(s, 0, []);
    }
    if cs: seq<Chunk>, rest: seq<byte> :|
      && s == ChunksBytes(cs) + rest && ChunksOk(cs) && |ChunksData(cs)| <= MAX_CHUNKED_BODY
      && BrokenStart(rest, |ChunksData(cs)|)
    {
      DecodeOfBroken(s, 0, cs, rest, []);
    }
  }
}
