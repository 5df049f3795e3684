/**
When the read loop's answer depends on how the stream is cut into reads.

`StopAt` says what the loop answers once it holds a prefix of the stream. A
cutting is a path through the prefixes in strides of at most one read, and its
answer is that of the first prefix it meets that stops the loop. Two cuttings
get different answers unless some stretch of prefixes, too long for one read to
step over, stops every path that reaches it with one and the same answer.
*/
module Cuts {
  import opened Bytes
  import opened Framing
  import opened ReadLoop
  import Expect

  /** The answer on the first `k` bytes, if they stop the loop. */
  function StopAt(env: Env, s: seq<byte>, k: nat): Option<Result>
    requires k <= |s|
  {
    Settled(env, s[..k], false, true)
  }

  /** What the loop knows of the expectation when it goes on. */
  ghost predicate Known(s: seq<byte>, k: nat, answered: bool)
    requires k <= |s|
  {
    answered ==> Expect.Expected(s[..k]).Some? && Expect.Expected(s[..k]) != Some(Expect.Unsupported)
  }

  /** One turn of the loop at a prefix. */
  lemma {:induction false} Turn(env: Env, peer: Peer, s: seq<byte>, k: nat, answered: bool, calls: nat)
    requires k <= |s| && Known(s, k, answered)
    ensures var r := Loop(env, peer, true, s[..k], answered, calls).result;
            match StopAt(env, s, k)
            case Some(result) => r == result
            case None => IsEnd(peer(calls)) ==> r == Err(AtEnd(s[..k], peer(calls)))
  {
    hide Loop, Parse, Cap, Expect.Expected;
    LoopTurn(env, peer, true, s[..k], answered, calls, []);
  }

  /** And the next one, when the loop goes on. */
  lemma {:induction false} NextTurn(env: Env, peer: Peer, s: seq<byte>, k: nat, m: nat, answered: bool, calls: nat)
    requires k < m <= |s| && Known(s, k, answered) && StopAt(env, s, k).None?
    requires peer(calls).Got? && peer(calls).data == s[k..m]
    ensures var answered' := answered || Expect.Expected(s[..k]).Some?;
            && Known(s, m, answered')
            && Loop(env, peer, true, s[..k], answered, calls).result ==
                 Loop(env, peer, true, s[..m], answered', calls + 1).result
  {
    hide Loop, Parse, Cap, Expect.Expected;
    LoopTurn(env, peer, true, s[..k], answered, calls, []);
    assert s[..k] + s[k..m] == s[..m];
    if Expect.Expected(s[..k]).Some? {
      Expect.ExpectedStable(s[..k], s[k..m]);
    }
  }

  // ---- a stretch that no read steps over ----

  /** From `t` on, one read's length or to the end of the stream, every prefix stops with `r`; none stops otherwise before. */
  ghost predicate Wall(env: Env, s: seq<byte>, t: nat, r: Result) {
    && t <= |s|
    && (forall k: nat :: t <= k <= |s| && k < t + READ_SIZE ==> StopAt(env, s, k) == Some(r))
    && (forall k: nat :: k < t ==> StopAt(env, s, k).None? || StopAt(env, s, k) == Some(r))
  }

  lemma {:induction false} WallStops(env: Env, peer: Peer, s: seq<byte>, last: Read, t: nat, r: Result, k: nat,
                                     answered: bool, calls: nat)
    requires Wall(env, s, t, r) && k <= |s| && k < t + READ_SIZE && Known(s, k, answered)
    requires Delivers(peer, calls, s[k..], last)
    ensures Loop(env, peer, true, s[..k], answered, calls).result == r
    decreases |s| - k
  {
    hide Loop, StopAt, Known;
    Turn(env, peer, s, k, answered, calls);
    if StopAt(env, s, k).None? {
      var d := peer(calls).data;
      var m := k + |d|;
      assert d == s[k..m] && s[k..][|d|..] == s[m..];
      NextTurn(env, peer, s, k, m, answered, calls);
      WallStops(env, peer, s, last, t, r, m, answered || Expect.Expected(s[..k]).Some?, calls + 1);
    }
  }

  lemma {:induction false} NothingStops(env: Env, peer: Peer, s: seq<byte>, last: Read, k: nat, answered: bool, calls: nat)
    requires forall j: nat :: j <= |s| ==> StopAt(env, s, j).None?
    requires k <= |s| && Known(s, k, answered) && IsEnd(last) && Delivers(peer, calls, s[k..], last)
    ensures Loop(env, peer, true, s[..k], answered, calls).result == Err(AtEnd(s, last))
    decreases |s| - k
  {
    hide Loop, StopAt, Known;
    Turn(env, peer, s, k, answered, calls);
    if k == |s| {
      assert s[..k] == s;
    } else {
      var d := peer(calls).data;
      var m := k + |d|;
      assert d == s[k..m] && s[k..][|d|..] == s[m..];
      NextTurn(env, peer, s, k, m, answered, calls);
      NothingStops(env, peer, s, last, m, answered || Expect.Expected(s[..k]).Some?, calls + 1);
    }
  }

  /**
  A stream that nothing stops ends as it ends: a peer that sent part of a
  request and closed gets one answer, one that stopped another, one that sent
  nothing none, and a broken connection is reported as broken.
  */
  lemma {:induction false} BrokenOff(env: Env, peer: Peer, s: seq<byte>, last: Read)
    requires forall j: nat :: j <= |s| ==> StopAt(env, s, j).None?
    requires IsEnd(last) && Delivers(peer, 0, s, last)
    ensures var r := Loop(env, peer, true, [], false, 0).result;
            && (last == Got([]) && s != [] ==> r == Err(InvalidRequestLine))
            && (last == TimedOut && s != [] ==> r == Err(RequestTimeout))
            && ((last == Got([]) || last == TimedOut) && s == [] ==> r == Err(ConnectionClosed))
            && (last == Failed ==> r == Err(ParseError.Io))
  {
    hide Loop, StopAt, Delivers;
    assert s[..0] == [] && s[0..] == s;
    NothingStops(env, peer, s, last, 0, false, 0);
  }

  // ---- cuttings as paths through the prefixes ----

  ghost predicate Path(s: seq<byte>, ps: seq<nat>) {
    && ps != [] && ps[0] == 0
    && (forall i :: 0 <= i < |ps| ==> ps[i] <= |s|)
    && (forall i :: 0 <= i < |ps| - 1 ==> ps[i] < ps[i + 1] <= ps[i] + READ_SIZE)
  }

  /** A peer that cuts the stream along a path and goes on one byte at a time. */
  ghost function PathPeer(s: seq<byte>, ps: seq<nat>, last: Read): Peer
    requires Path(s, ps)
  {
    (n: nat) =>
      if n + 1 < |ps| then Got(s[ps[n]..ps[n + 1]])
      else
        var m := ps[|ps| - 1] + (n + 1 - |ps|);
        if m < |s| then Got([s[m]]) else last
  }

  lemma {:induction false} TailDelivers(s: seq<byte>, ps: seq<nat>, last: Read, n: nat)
    requires Path(s, ps) && |ps| <= n + 1 && ps[|ps| - 1] + (n + 1 - |ps|) <= |s|
    ensures Delivers(PathPeer(s, ps, last), n, s[ps[|ps| - 1] + (n + 1 - |ps|)..], last)
    decreases |s| - (ps[|ps| - 1] + (n + 1 - |ps|))
  {
    var m := ps[|ps| - 1] + (n + 1 - |ps|);
    if m < |s| {
      TailDelivers(s, ps, last, n + 1);
      assert s[m..][1..] == s[m + 1..];
    }
  }

  lemma {:induction false} PathDelivers(s: seq<byte>, ps: seq<nat>, last: Read, i: nat)
    requires Path(s, ps) && i < |ps|
    ensures Delivers(PathPeer(s, ps, last), i, s[ps[i]..], last)
    decreases |ps| - i
  {
    if i == |ps| - 1 {
      TailDelivers(s, ps, last, i);
    } else {
      PathDelivers(s, ps, last, i + 1);
      var d := s[ps[i]..ps[i + 1]];
      assert s[ps[i]..][|d|..] == s[ps[i + 1]..] && s[ps[i]..][..|d|] == d;
    }
  }

  /** The loop goes on at every prefix of the path but the last. */
  ghost predicate Open(env: Env, s: seq<byte>, ps: seq<nat>)
    requires Path(s, ps)
  {
    forall i :: 0 <= i < |ps| - 1 ==> StopAt(env, s, ps[i]).None?
  }

  /** So the answer is the one at the end of the path. */
  lemma {:induction false} PathAnswers(env: Env, s: seq<byte>, ps: seq<nat>, last: Read, i: nat, answered: bool)
    requires Path(s, ps) && Open(env, s, ps) && i < |ps| && Known(s, ps[i], answered) && IsEnd(last)
    ensures var r := Loop(env, PathPeer(s, ps, last), true, s[..ps[i]], answered, i).result;
            var end := ps[|ps| - 1];
            && (StopAt(env, s, end).Some? ==> r == StopAt(env, s, end).value)
            && (StopAt(env, s, end).None? && end == |s| ==> r == Err(AtEnd(s, last)))
    decreases |ps| - i
  {
    hide Loop, StopAt, Known;
    var peer := PathPeer(s, ps, last);
    if i == |ps| - 1 {
      Turn(env, peer, s, ps[i], answered, i);
      assert s[..|s|] == s;
    } else {
      NextTurn(env, peer, s, ps[i], ps[i + 1], answered, i);
      PathAnswers(env, s, ps, last, i + 1, answered || Expect.Expected(s[..ps[i]]).Some?);
    }
  }

  /** Some cutting meets this prefix. */
  ghost predicate Reached(env: Env, s: seq<byte>, k: nat) {
    exists ps :: Path(s, ps) && Open(env, s, ps) && ps[|ps| - 1] == k
  }

  lemma {:induction false} ReachedFirst(env: Env, s: seq<byte>)
    ensures Reached(env, s, 0)
  {
    assert Path(s, [0]) && Open(env, s, [0]);
  }

  lemma {:induction false} ReachedNext(env: Env, s: seq<byte>, ps: seq<nat>, m: nat)
    requires Path(s, ps) && Open(env, s, ps) && ps[|ps| - 1] < m <= |s| && m <= ps[|ps| - 1] + READ_SIZE
    requires StopAt(env, s, ps[|ps| - 1]).None?
    ensures Reached(env, s, m)
  {
    hide StopAt;
    var all := ps + [m];
    assert forall i :: 0 <= i < |ps| ==> all[i] == ps[i];
    assert Path(s, all) && Open(env, s, all);
  }

  /** Every prefix up to a reached one is reached: the stride over it can be cut short. */
  lemma {:induction false} ReachedBelow(env: Env, s: seq<byte>, ps: seq<nat>, k: nat)
    requires Path(s, ps) && Open(env, s, ps) && k <= ps[|ps| - 1]
    ensures Reached(env, s, k)
    decreases |ps|
  {
    hide StopAt;
    if k < ps[|ps| - 1] {
      var init := ps[..|ps| - 1];
      assert |ps| > 1;
      assert forall i :: 0 <= i < |init| ==> init[i] == ps[i];
      assert StopAt(env, s, ps[|ps| - 2]).None?;
      if k <= init[|init| - 1] {
        ReachedBelow(env, s, init, k);
      } else {
        ReachedNext(env, s, init, k);
      }
    }
  }

  lemma {:induction false} FirstKnown(s: seq<byte>)
    ensures Known(s, 0, false) && s[..0] == [] && s[0..] == s
  {
  }

  /** What stops a reached prefix is the answer of some cutting. */
  lemma {:induction false} ReachedIsAnswer(env: Env, s: seq<byte>, last: Read, k: nat) returns (peer: Peer)
    requires Reached(env, s, k) && k <= |s| && IsEnd(last) && (StopAt(env, s, k).Some? || k == |s|)
    ensures Delivers(peer, 0, s, last)
    ensures var r := Loop(env, peer, true, [], false, 0).result;
            r == if StopAt(env, s, k).Some? then StopAt(env, s, k).value else Err(AtEnd(s, last))
  {
    hide Loop, StopAt, Delivers, PathPeer, Known;
    var ps :| Path(s, ps) && Open(env, s, ps) && ps[|ps| - 1] == k;
    FirstKnown(s);
    PathDelivers(s, ps, last, 0);
    PathAnswers(env, s, ps, last, 0, false);
    peer := PathPeer(s, ps, last);
  }

  // ---- when all cuttings agree ----

  ghost predicate Agree(env: Env, s: seq<byte>, last: Read) {
    forall p: Peer, q: Peer :: Delivers(p, 0, s, last) && Delivers(q, 0, s, last) ==>
      Loop(env, p, true, [], false, 0).result == Loop(env, q, true, [], false, 0).result
  }

  /** Nothing stops the loop before the stream ends, or a wall does. */
  ghost predicate OneAnswer(env: Env, s: seq<byte>) {
    (forall k: nat :: k <= |s| ==> StopAt(env, s, k).None?) || exists t: nat, r: Result :: Wall(env, s, t, r)
  }

  /** The last prefix up to `n` at which some cutting goes on. */
  lemma {:induction false} LastOpen(env: Env, s: seq<byte>, n: nat) returns (x: nat)
    requires n <= |s| && StopAt(env, s, 0).None?
    ensures x <= n && Reached(env, s, x) && StopAt(env, s, x).None?
    ensures forall k: nat :: x < k <= n ==> !(Reached(env, s, k) && StopAt(env, s, k).None?)
  {
    hide StopAt, Reached;
    if n == 0 {
      ReachedFirst(env, s);
      x := 0;
    } else if Reached(env, s, n) && StopAt(env, s, n).None? {
      x := n;
    } else {
      x := LastOpen(env, s, n - 1);
    }
  }

  /** With nothing read, only the parser can stop the loop, and then it says the same of every prefix. */
  lemma {:induction false} DecidedAtOnce(env: Env, s: seq<byte>)
    requires Incremental(env) && StopAt(env, s, 0).Some?
    ensures Wall(env, s, 0, StopAt(env, s, 0).value)
  {
    hide Parse, Incremental, Expect.OfHead;
    assert s[..0] == [] && Expect.FindBlank([], 0).None?;
    forall k: nat | k <= |s| ensures StopAt(env, s, k) == StopAt(env, s, 0) {
      assert [] + s[..k] == s[..k];
      ParseStable(env, [], s[..k]);
    }
  }

  lemma {:induction false} StopIsNotEnd(env: Env, s: seq<byte>, k: nat, last: Read)
    requires k <= |s| && IsEnd(last)
    ensures StopAt(env, s, k) != Some(Err(AtEnd(s, last)))
  {
    hide Parse, Cap, Expect.Expected;
  }

  /** If all cuttings agree, there is a wall, or nothing stops. */
  lemma {:induction false} AgreeingIsOneAnswer(env: Env, s: seq<byte>, last: Read)
    requires Incremental(env) && IsEnd(last) && Agree(env, s, last)
    ensures OneAnswer(env, s)
  {
    hide Incremental, Loop, StopAt, Reached, Delivers, AtEnd;
    if StopAt(env, s, 0).Some? {
      DecidedAtOnce(env, s);
    } else {
      var x := LastOpen(env, s, |s|);
      var r := AnswerAt(env, s, last, x);
      forall k: nat | k <= |s| && Reached(env, s, k) && StopAt(env, s, k).Some? ensures StopAt(env, s, k) == Some(r) {
        var p := ReachedIsAnswer(env, s, last, k);
      }
      forall k: nat | k <= x ensures Reached(env, s, k) {
        Below(env, s, x, k);
      }
      if x == |s| {
        forall k: nat | k <= |s| ensures StopAt(env, s, k).None? {
          StopIsNotEnd(env, s, k, last);
        }
      } else {
        forall k: nat | x < k <= |s| && k <= x + READ_SIZE ensures Reached(env, s, k) {
          Beyond(env, s, x, k);
        }
        assert Wall(env, s, x + 1, r);
      }
    }
  }

  lemma {:induction false} Below(env: Env, s: seq<byte>, x: nat, k: nat)
    requires Reached(env, s, x) && k <= x
    ensures Reached(env, s, k)
  {
    hide Open;
    var ps :| Path(s, ps) && Open(env, s, ps) && ps[|ps| - 1] == x;
    ReachedBelow(env, s, ps, k);
  }

  lemma {:induction false} Beyond(env: Env, s: seq<byte>, x: nat, k: nat)
    requires Reached(env, s, x) && x <= |s| && StopAt(env, s, x).None? && x < k <= |s| && k <= x + READ_SIZE
    ensures Reached(env, s, k)
  {
    hide Open, StopAt;
    var ps :| Path(s, ps) && Open(env, s, ps) && ps[|ps| - 1] == x;
    ReachedNext(env, s, ps, k);
  }

  /** The answer they agree on; at the end of the stream it is the end's. */
  lemma {:induction false} AnswerAt(env: Env, s: seq<byte>, last: Read, x: nat) returns (r: Result)
    requires IsEnd(last) && Agree(env, s, last) && x <= |s| && Reached(env, s, x) && StopAt(env, s, x).None?
    ensures forall p: Peer :: Delivers(p, 0, s, last) ==> Loop(env, p, true, [], false, 0).result == r
    ensures x == |s| ==> r == Err(AtEnd(s, last))
  {
    hide Loop, StopAt, Reached, Delivers, OneByte;
    FirstKnown(s);
    OneByteDelivers(s, last, 0);
    r := Loop(env, OneByte(s, last), true, [], false, 0).result;
    if x == |s| {
      var p := ReachedIsAnswer(env, s, last, x);
    }
  }

  /**
  All cuttings of a stream get one answer if and only if nothing stops the loop
  before the stream ends, or a stretch of prefixes as long as one read, or up to
  the end, stops it with one answer and nothing before stops it with another.
  */
  lemma {:induction false} CutsAgreeExactly(env: Env, s: seq<byte>, last: Read)
    requires Incremental(env) && IsEnd(last)
    ensures Agree(env, s, last) <==> OneAnswer(env, s)
  {
    hide Incremental, Loop, StopAt, Delivers, Wall;
    if Agree(env, s, last) {
      AgreeingIsOneAnswer(env, s, last);
    }
    if OneAnswer(env, s) {
      FirstKnown(s);
      forall p: Peer, q: Peer | Delivers(p, 0, s, last) && Delivers(q, 0, s, last)
        ensures Loop(env, p, true, [], false, 0).result == Loop(env, q, true, [], false, 0).result
      {
        if t: nat, r: Result :| Wall(env, s, t, r) {
          WallStops(env, p, s, last, t, r, 0, false, 0);
          WallStops(env, q, s, last, t, r, 0, false, 0);
        } else {
          NothingStops(env, p, s, last, 0, false, 0);
          NothingStops(env, q, s, last, 0, false, 0);
        }
      }
    }
  }
}
