/**
The blocking read loop: it reads, asks the parser about the whole buffer again,
and stops on an answer, a cap, an expectation it cannot meet or the end of the
stream.

The main result here says when the loop is as good as parsing the whole stream
at once: for every way of cutting the stream into reads, exactly when no prefix
trips a cap or carries an unsupported expectation before the parser decides.
When two cuttings get different answers is the matter of `Cuts`.
*/
module ReadLoop {
  import opened Bytes
  import opened Framing
  import Expect

  const MAX_HEADER_BYTES: nat := 8 * 1024
  const MAX_BODY_BYTES: nat := 16 * 1024 * 1024
  const READ_SIZE: nat := 1024
  const LIMIT: nat := MAX_HEADER_BYTES + MAX_BODY_BYTES

  /** What one `read` into the 1024-byte buffer can bring. No bytes means end of stream. */
  type Chunk = s: seq<byte> | |s| <= READ_SIZE
  datatype Read = Got(data: Chunk) | TimedOut | Failed

  /** A peer: the outcome of the n-th read. */
  type Peer = nat -> Read

  datatype ParseError =
    | ConnectionClosed | InvalidRequestLine | InvalidHeader | RequestTooLarge
    | RequestTimeout | ExpectationFailed | Io

  datatype Result = Ok(req: Request) | Err(error: ParseError)

  /** How a run ended: answer, reads made, bytes held, and the bytes held at each interim response written. */
  datatype Run = Run(result: Result, calls: nat, buf: seq<byte>, sentAt: seq<seq<byte>>)

  predicate HeadDone(buf: seq<byte>) { Expect.FindBlank(buf, 0).Some? }

  function Cap(buf: seq<byte>): (c: nat)
    ensures c <= LIMIT
  {
    if HeadDone(buf) then LIMIT else MAX_HEADER_BYTES
  }

  /** The end of the stream, by how it ends and whether anything arrived. */
  function AtEnd(buf: seq<byte>, last: Read): ParseError
    requires last == Got([]) || !last.Got?
  {
    match last
    case Got(_) => if buf == [] then ConnectionClosed else InvalidRequestLine
    case TimedOut => if buf == [] then ConnectionClosed else RequestTimeout
    case Failed => Io
  }

  predicate IsEnd(r: Read) { r == Got([]) || !r.Got? }

  /** Writing the interim response. */
  predicate Asks(buf: seq<byte>, answered: bool) {
    !answered && Expect.Expected(buf) == Some(Expect.Continue)
  }

  predicate Gives(buf: seq<byte>, answered: bool) {
    !answered && Expect.Expected(buf) == Some(Expect.Unsupported)
  }

  /** The answer on the bytes held, if one is due before the next read: the parser's, a cap, the expectation. */
  function Settled(env: Env, buf: seq<byte>, answered: bool, writable: bool): (r: Option<Result>)
    ensures r.None? ==> |buf| <= LIMIT
  {
    match Parse(env, buf)
    case Complete(req) => Some(Ok(req))
    case Error => Some(Err(InvalidHeader))
    case Incomplete =>
      if |buf| > Cap(buf) then Some(Err(RequestTooLarge))
      else if Gives(buf, answered) then Some(Err(ExpectationFailed))
      else if Asks(buf, answered) && !writable then Some(Err(Io))
      else None
  }

  /** The loop from a buffer on. `writable` says whether the interim response can be written. */
  function Loop(env: Env, peer: Peer, writable: bool, buf: seq<byte>, answered: bool, calls: nat): (r: Run)
    ensures buf <= r.buf && calls <= r.calls
    decreases LIMIT + 1 - |buf|
  {
    match Settled(env, buf, answered, writable)
    case Some(result) => Run(result, calls, buf, [])
    case None =>
      var last := peer(calls);
      var r := if IsEnd(last) then Run(Err(AtEnd(buf, last)), calls + 1, buf, [])
               else Loop(env, peer, writable, buf + last.data, answered || Expect.Expected(buf).Some?, calls + 1);
      if Asks(buf, answered) then r.(sentAt := [buf] + r.sentAt) else r
  }

  /** One turn up to the read; `sent` says that the interim response went out. */
  method Settle(env: Env, buf: seq<byte>, answered: bool, writable: bool)
    returns (done: Option<Result>, answered': bool, sent: bool)
    ensures done == Settled(env, buf, answered, writable)
    ensures done.None? ==> answered' == (answered || Expect.Expected(buf).Some?) && sent == Asks(buf, answered)
  {
    hide Parse, Cap, Expect.Expected;
    done, answered', sent := None, answered, false;
    var parsed := ParseRequest(env, buf);
    match parsed {
      case Complete(req) => return Some(Ok(req)), answered, false;
      case Error => return Some(Err(InvalidHeader)), answered, false;
      case Incomplete =>
    }
    if |buf| > Cap(buf) {
      return Some(Err(RequestTooLarge)), answered, false;
    }
    if !answered {
      var e := Expect.ReadExpectation(buf);
      match e
      case None =>
      case Some(NoExpect) => answered' := true;
      case Some(Continue) =>
        answered' := true;
        if !writable {
          return Some(Err(Io)), true, false;
        }
        sent := true;
      case Some(Unsupported) =>
        return Some(Err(ExpectationFailed)), answered, false;
    }
  }

  method ReadRequest(env: Env, peer: Peer, writable: bool) returns (r: Run)
    ensures r == Loop(env, peer, writable, [], false, 0)
  {
    hide Settled, Loop, Asks, Expect.Expected;
    var buf: seq<byte> := [];
    var answered := false;
    var calls := 0;
    var sentAt: seq<seq<byte>> := [];
    ghost var all := Loop(env, peer, writable, [], false, 0);
    while true
      invariant var rest := Loop(env, peer, writable, buf, answered, calls);
                all == rest.(sentAt := sentAt + rest.sentAt)
      decreases LIMIT + 1 - |buf|
    {
      LoopTurn(env, peer, writable, buf, answered, calls, sentAt);
      var done, answered', sent := Settle(env, buf, answered, writable);
      if done.Some? {
        return Run(done.value, calls, buf, sentAt);
      }
      if sent {
        sentAt := sentAt + [buf];
      }
      var last := peer(calls);
      if IsEnd(last) {
        return Run(Err(AtEnd(buf, last)), calls + 1, buf, sentAt);
      }
      buf := buf + last.data;
      answered := answered';
      calls := calls + 1;
    }
  }

  /** One turn of the run, after the interim responses in `before`. */
  lemma {:induction false} LoopTurn(env: Env, peer: Peer, writable: bool, buf: seq<byte>, answered: bool, calls: nat,
                                    before: seq<seq<byte>>)
    ensures var here := Loop(env, peer, writable, buf, answered, calls);
            var upTo := if Asks(buf, answered) then before + [buf] else before;
            var last := peer(calls);
            match Settled(env, buf, answered, writable)
            case Some(result) => here.(sentAt := before + here.sentAt) == Run(result, calls, buf, before)
            case None =>
              if IsEnd(last) then
                here.(sentAt := before + here.sentAt) == Run(Err(AtEnd(buf, last)), calls + 1, buf, upTo)
              else
                var rest := Loop(env, peer, writable, buf + last.data, answered || Expect.Expected(buf).Some?, calls + 1);
                here.(sentAt := before + here.sentAt) == rest.(sentAt := upTo + rest.sentAt)
  {
    hide Settled, Asks, Expect.Expected;
  }

  // ---- against any peer ----

  /** Boundedly many reads, and never more than one read past the cap in force. */
  lemma {:induction false} Bounded(env: Env, peer: Peer, writable: bool, buf: seq<byte>, answered: bool, calls: nat)
    requires |buf| <= Cap(buf) + READ_SIZE
    ensures var r := Loop(env, peer, writable, buf, answered, calls);
            && r.calls <= calls + (if |buf| <= LIMIT then LIMIT + 1 - |buf| else 0)
            && |r.buf| <= Cap(r.buf) + READ_SIZE
    decreases LIMIT + 1 - |buf|
  {
    hide Parse, Expect.Expected, Expect.FindBlank;
    var last := peer(calls);
    if Parse(env, buf).Incomplete? && |buf| <= Cap(buf) && !Gives(buf, answered) && (writable || !Asks(buf, answered))
       && !IsEnd(last)
    {
      CapGrows(buf, last.data);
      Bounded(env, peer, writable, buf + last.data, answered || Expect.Expected(buf).Some?, calls + 1);
    }
  }

  lemma {:induction false} CapGrows(buf: seq<byte>, x: seq<byte>)
    ensures Cap(buf) <= Cap(buf + x)
  {
    hide Expect.FindBlank;
    if HeadDone(buf) {
      Expect.BlankStable(buf, x);
    }
  }

  /** The point at which `100 Continue` may be written. */
  ghost predicate MayContinue(env: Env, b: seq<byte>) {
    && Parse(env, b).Incomplete?
    && HeadDone(b)
    && Expect.IsHttp11Line(Expect.Split(b[..Expect.FindBlank(b, 0).value], LF)[0])
    && Expect.Expected(b) == Some(Expect.Continue)
  }

  /** At most one interim response, and only where one is due. */
  lemma {:induction false} InterimOnce(env: Env, peer: Peer, writable: bool, buf: seq<byte>, answered: bool, calls: nat)
    ensures var r := Loop(env, peer, writable, buf, answered, calls);
            && (answered ==> r.sentAt == [])
            && |r.sentAt| <= 1
            && forall b :: b in r.sentAt ==> b <= r.buf && MayContinue(env, b)
    decreases LIMIT + 1 - |buf|
  {
    hide Parse, Expect.FindBlank, Expect.Combine, Expect.Members, Expect.Split, Expect.IsHttp11Line;
    var last := peer(calls);
    if Parse(env, buf).Incomplete? && |buf| <= Cap(buf) && !IsEnd(last) {
      InterimOnce(env, peer, writable, buf + last.data, answered || Expect.Expected(buf).Some?, calls + 1);
    }
  }

  // ---- idle or broken off ----

  lemma {:induction false} StartedIsAnswered(env: Env, peer: Peer, writable: bool, buf: seq<byte>, answered: bool,
                                             calls: nat)
    requires buf != []
    ensures Loop(env, peer, writable, buf, answered, calls).result != Err(ConnectionClosed)
    decreases LIMIT + 1 - |buf|
  {
    hide Parse, Expect.Expected, Expect.FindBlank;
    var last := peer(calls);
    if Parse(env, buf).Incomplete? && |buf| <= Cap(buf) && !IsEnd(last) {
      StartedIsAnswered(env, peer, writable, buf + last.data, answered || Expect.Expected(buf).Some?, calls + 1);
    }
  }

  /** A connection is closed without an answer exactly when it ends or times out before its first byte. */
  lemma {:induction false} SilentExactlyWhenIdle(env: Env, peer: Peer, writable: bool)
    requires Parse(env, []).Incomplete?
    ensures Loop(env, peer, writable, [], false, 0).result == Err(ConnectionClosed) <==>
            peer(0) == Got([]) || peer(0) == TimedOut
  {
    hide Parse;
    assert Expect.FindBlank([], 0).None?;
    var last := peer(0);
    if !IsEnd(last) {
      assert [] + last.data == last.data;
      StartedIsAnswered(env, peer, writable, last.data, false, 1);
    }
  }

  // ---- independence from how the stream is cut ----

  /** From its `from`-th read on, the peer sends `s` in some cutting and then `last`. */
  ghost predicate Delivers(peer: Peer, from: nat, s: seq<byte>, last: Read)
    decreases |s|
  {
    if s == [] then peer(from) == last
    else
      var r := peer(from);
      r.Got? && r.data != [] && r.data <= s && Delivers(peer, from + 1, s[|r.data|..], last)
  }

  /** The answer for the stream taken whole. */
  function Whole(env: Env, s: seq<byte>, last: Read): Result
    requires IsEnd(last)
  {
    match Parse(env, s)
    case Complete(req) => Ok(req)
    case Error => Err(InvalidHeader)
    case Incomplete => Err(AtEnd(s, last))
  }

  /** The first `k` bytes stop the loop although the parser has not decided. */
  ghost predicate Trips(env: Env, s: seq<byte>, k: nat)
    requires k <= |s|
  {
    && Parse(env, s[..k]).Incomplete?
    && (k > Cap(s[..k]) || Expect.Expected(s[..k]) == Some(Expect.Unsupported))
  }

  ghost predicate NeverTrips(env: Env, s: seq<byte>) {
    forall k: nat :: k <= |s| ==> !Trips(env, s, k)
  }

  lemma {:induction false} AnyCut(env: Env, peer: Peer, s: seq<byte>, last: Read, k: nat, answered: bool, calls: nat)
    requires Incremental(env) && NeverTrips(env, s) && k <= |s|
    requires IsEnd(last) && Delivers(peer, calls, s[k..], last)
    ensures Loop(env, peer, true, s[..k], answered, calls).result == Whole(env, s, last)
    decreases |s| - k
  {
    hide Loop, Parse, Cap, Expect.Expected, Incremental;
    var buf := s[..k];
    assert buf + s[k..] == s;
    assert !Trips(env, s, k);
    LoopTurn(env, peer, true, buf, answered, calls, []);
    if Parse(env, buf) != Incomplete {
      ParseStable(env, buf, s[k..]);
    } else if k == |s| {
      assert buf == s;
    } else {
      var d := peer(calls).data;
      assert s[..k + |d|] == buf + d;
      assert s[k..][|d|..] == s[k + |d|..];
      AnyCut(env, peer, s, last, k + |d|, answered || Expect.Expected(buf).Some?, calls + 1);
    }
  }

  /** A peer that sends one byte per read. */
  function OneByte(s: seq<byte>, last: Read): Peer {
    (n: nat) => if n < |s| then Got([s[n]]) else last
  }

  lemma {:induction false} OneByteDelivers(s: seq<byte>, last: Read, k: nat)
    requires k <= |s|
    ensures Delivers(OneByte(s, last), k, s[k..], last)
    decreases |s| - k
  {
    if k < |s| {
      OneByteDelivers(s, last, k + 1);
      assert s[k..][1..] == s[k + 1..];
    }
  }

  lemma {:induction false} NotDecidedBefore(env: Env, s: seq<byte>, trip: nat, k: nat)
    requires Incremental(env) && k <= trip <= |s| && Parse(env, s[..trip]).Incomplete?
    ensures Parse(env, s[..k]).Incomplete?
  {
    hide Parse, Incremental;
    assert s[..k] + s[k..trip] == s[..trip];
    if Parse(env, s[..k]) != Incomplete {
      ParseStable(env, s[..k], s[k..trip]);
    }
  }

  /** That peer meets every prefix, so the loop stops on the first that trips. */
  lemma {:induction false} OneByteTrips(env: Env, s: seq<byte>, last: Read, trip: nat, k: nat, answered: bool)
    requires Incremental(env) && IsEnd(last) && k <= trip <= |s| && Trips(env, s, trip)
    requires answered ==> Expect.Expected(s[..k]).Some? && Expect.Expected(s[..k]) != Some(Expect.Unsupported)
    ensures Loop(env, OneByte(s, last), true, s[..k], answered, k).result in
              {Err(RequestTooLarge), Err(ExpectationFailed)}
    decreases trip - k
  {
    hide Parse, Cap, Expect.Expected, Incremental, Loop;
    var buf, peer := s[..k], OneByte(s, last);
    NotDecidedBefore(env, s, trip, k);
    LoopTurn(env, peer, true, buf, answered, k, []);
    if k <= Cap(buf) && !Gives(buf, answered) {
      assert k < trip;
      assert s[..k + 1] == buf + [s[k]];
      var answered' := answered || Expect.Expected(buf).Some?;
      if answered' {
        Expect.ExpectedStable(buf, [s[k]]);
      }
      OneByteTrips(env, s, last, trip, k + 1, answered');
    }
  }

  /**
  The loop answers as if it had the whole stream, for every cutting of it into
  reads, exactly when no prefix trips.
  */
  lemma {:induction false} AnswersAsWholeExactly(env: Env, s: seq<byte>, last: Read)
    requires Incremental(env) && IsEnd(last)
    ensures NeverTrips(env, s) <==>
            forall peer: Peer :: Delivers(peer, 0, s, last) ==>
              Loop(env, peer, true, [], false, 0).result == Whole(env, s, last)
  {
    hide Incremental, Loop, Whole, Delivers, Trips;
    if NeverTrips(env, s) {
      assert s[..0] == [] && s[0..] == s;
      forall peer: Peer | Delivers(peer, 0, s, last)
        ensures Loop(env, peer, true, [], false, 0).result == Whole(env, s, last)
      {
        AnyCut(env, peer, s, last, 0, false, 0);
      }
    } else {
      var trip: nat :| trip <= |s| && Trips(env, s, trip);
      SomeCutTrips(env, s, last, trip);
    }
  }

  lemma {:induction false} SomeCutTrips(env: Env, s: seq<byte>, last: Read, trip: nat)
    requires Incremental(env) && IsEnd(last) && trip <= |s| && Trips(env, s, trip)
    ensures Delivers(OneByte(s, last), 0, s, last)
    ensures Loop(env, OneByte(s, last), true, [], false, 0).result != Whole(env, s, last)
  {
    hide Parse, Expect.Expected, Expect.FindBlank, Incremental, Loop, Trips, Delivers, OneByte;
    assert s[..0] == [] && s[0..] == s;
    OneByteDelivers(s, last, 0);
    OneByteTrips(env, s, last, trip, 0, false);
  }

  lemma {:induction false} AcceptedHeadHasBlankLine(env: Env, b: seq<byte>)
    requires Incremental(env) && Parse(env, b).Complete?
    ensures env.head(b).Parsed?
    ensures var n := env.head(b).head.size; 4 <= n <= |b| && Expect.BlankAt(b[..n], n - 4)
  {
    hide ScanAll, Decide, Frame;
    var n := env.head(b).head.size;
    assert EndsWithEmptyLine(b, n);
    var h := b[..n];
    assert !BareLf(h);
    assert h[n - 1] == LF && h[n - 3] == LF;
  }

  /**
  A request whose head and whole message are within the caps, with no
  expectation the server cannot meet, is parsed the same for every cutting.
  */
  lemma {:induction false} SameRequestForEveryCut(env: Env, peer: Peer, s: seq<byte>, last: Read, m: nat)
    requires Incremental(env) && IsEnd(last) && Delivers(peer, 0, s, last)
    requires m <= |s| && m <= LIMIT && Parse(env, s[..m]).Complete?
    requires env.head(s[..m]).head.size <= MAX_HEADER_BYTES
    requires Expect.Expected(s) != Some(Expect.Unsupported)
    ensures Loop(env, peer, true, [], false, 0).result == Ok(Parse(env, s[..m]).req)
  {
    hide Parse, Expect.OfHead, Expect.FindBlank, Incremental, Loop, Delivers;
    AcceptedHeadHasBlankLine(env, s[..m]);
    var n := env.head(s[..m]).head.size;
    forall k: nat | k <= |s| ensures !Trips(env, s, k) {
      assert s[..k] + s[k..] == s;
      if m <= k {
        assert s[..m] + s[m..k] == s[..k];
        ParseStable(env, s[..m], s[m..k]);
      } else {
        if Expect.Expected(s[..k]).Some? {
          Expect.ExpectedStable(s[..k], s[k..]);
        }
        if k > MAX_HEADER_BYTES {
          assert s[..m][..n] == s[..k][..n];
          assert Expect.BlankAt(s[..k], n - 4);
        }
      }
    }
    AnswersAsWholeExactly(env, s, last);
    assert s[..m] + s[m..] == s;
    ParseStable(env, s[..m], s[m..]);
  }
}
