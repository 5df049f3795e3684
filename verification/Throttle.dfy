/**
The login throttle with several workers.

A worker checks the throttle under its lock, gives that lock up, verifies the
password under the database lock, and only then counts or clears. Between the
check and the count any number of other workers may pass the same check. The
run is any interleaving of these steps, with time moving on at will; the results
bound what one address can still get counted.
*/
module Throttle {
  import opened Bytes

  type Ip = string

  /** Nanoseconds to a second; the clock is compared in whole seconds. */
  const SECOND: nat := 1_000_000_000

  datatype Entry = Entry(count: nat, started: nat)
  type Table = map<Ip, Entry>

  datatype Limits = Limits(maxAttempts: nat, windowSecs: nat)

  predicate Expired(l: Limits, started: nat, now: nat) {
    (if now < started then 0 else (now - started) / SECOND) >= l.windowSecs
  }

  predicate Blocked(l: Limits, t: Table, ip: Ip, now: nat) {
    ip in t && !Expired(l, t[ip].started, now) && t[ip].count >= l.maxAttempts
  }

  /** The clock is read twice: `now` is what a new window starts at, `later` what an old one is compared with. */
  function Recorded(l: Limits, t: Table, ip: Ip, now: nat, later: nat): Table {
    if ip !in t || Expired(l, t[ip].started, later) then t[ip := Entry(1, now)]
    else t[ip := t[ip].(count := t[ip].count + 1)]
  }

  function Cleared(t: Table, ip: Ip): Table { t - {ip} }

  class RateLimiter {
    var table: Table
    const limits: Limits

    constructor (limits: Limits)
      ensures this.limits == limits && table == map[]
    {
      this.limits := limits;
      table := map[];
    }

    method IsBlocked(ip: Ip, now: nat) returns (blocked: bool)
      ensures blocked == Blocked(limits, table, ip, now)
    {
      if ip in table {
        var Entry(count, started) := table[ip];
        if Expired(limits, started, now) {
          return false;
        }
        return count >= limits.maxAttempts;
      }
      return false;
    }

    method RecordFailure(ip: Ip, now: nat, later: nat)
      requires now <= later
      modifies this
      ensures table == Recorded(limits, old(table), ip, now, later)
      ensures forall other :: other != ip ==> (other in table <==> other in old(table))
                                              && (other in table ==> table[other] == old(table)[other])
    {
      var entry := if ip in table then table[ip] else Entry(0, now);
      if Expired(limits, entry.started, later) {
        entry := Entry(0, now);
      }
      table := table[ip := entry.(count := entry.count + 1)];
    }

    method Clear(ip: Ip)
      modifies this
      ensures table == Cleared(old(table), ip) && ip !in table
    {
      table := table - {ip};
    }
  }

  // ---- the workers ----

  /** Where a worker is in a login. */
  datatype Worker =
    | Free
    | Checked(ip: Ip)    // passed the throttle, not counted yet
    | Verifying(ip: Ip)  // the same, holding the database
    | Issuing            // password right and count cleared, still holding the database

  /** What the throttle was told, with its two clock readings and the entry it left. */
  datatype Event = Wrong(ip: Ip, at: nat, counted: nat, entry: Entry) | Right(ip: Ip)

  datatype State = State(table: Table, now: nat, workers: seq<Worker>, db: Option<nat>, history: seq<Event>)

  datatype Step =
    | Tick(to: nat)
    | Check(w: nat, ip: Ip)  // answers 429 and stays free when blocked
    | BadBody(w: nat)        // a JSON body that does not parse
    | LockDb(w: nat)
    | WrongPassword(w: nat, later: nat)
    | RightPassword(w: nat)
    | DbError(w: nat)
    | Release(w: nat)        // tokens issued or not, the response is built

  predicate Enabled(s: State, step: Step) {
    match step
    case Tick(to) => s.now <= to
    case Check(w, _) => w < |s.workers| && s.workers[w].Free?
    case BadBody(w) => w < |s.workers| && s.workers[w].Checked?
    case LockDb(w) => w < |s.workers| && s.workers[w].Checked? && s.db.None?
    case WrongPassword(w, later) => w < |s.workers| && s.workers[w].Verifying? && s.now <= later
    case RightPassword(w) => w < |s.workers| && s.workers[w].Verifying?
    case DbError(w) => w < |s.workers| && s.workers[w].Verifying?
    case Release(w) => w < |s.workers| && s.workers[w].Issuing?
  }

  function Do(l: Limits, s: State, step: Step): State
    requires Enabled(s, step)
  {
    match step
    case Tick(to) => s.(now := to)
    case Check(w, ip) => if Blocked(l, s.table, ip, s.now) then s else s.(workers := s.workers[w := Checked(ip)])
    case BadBody(w) => s.(workers := s.workers[w := Free])
    case LockDb(w) => s.(workers := s.workers[w := Verifying(s.workers[w].ip)], db := Some(w))
    case WrongPassword(w, later) =>
      var ip := s.workers[w].ip;
      var t := Recorded(l, s.table, ip, s.now, later);
      s.(table := t, now := later, workers := s.workers[w := Free], db := None,
         history := s.history + [Wrong(ip, s.now, later, t[ip])])
    case RightPassword(w) =>
      var ip := s.workers[w].ip;
      s.(table := Cleared(s.table, ip), workers := s.workers[w := Issuing], history := s.history + [Right(ip)])
    case DbError(w) => s.(workers := s.workers[w := Free], db := None)
    case Release(w) => s.(workers := s.workers[w := Free], db := None)
  }

  predicate CanRun(l: Limits, s: State, steps: seq<Step>)
    decreases |steps|
  {
    steps == [] || (Enabled(s, steps[0]) && CanRun(l, Do(l, s, steps[0]), steps[1..]))
  }

  function Exec(l: Limits, s: State, steps: seq<Step>): State
    requires CanRun(l, s, steps)
    decreases |steps|
  {
    if steps == [] then s else Exec(l, Do(l, s, steps[0]), steps[1..])
  }

  ghost predicate Init(s: State, n: nat) {
    s.table == map[] && s.workers == seq(n, i => Free) && s.db.None? && s.history == []
  }

  // ---- the budget ----

  predicate Pends(w: Worker, ip: Ip) { (w.Checked? || w.Verifying?) && w.ip == ip }

  /** The workers that passed the check for `ip` and have not counted yet. */
  function Pending(ws: seq<Worker>, ip: Ip): nat {
    if ws == [] then 0
    else Pending(ws[..|ws| - 1], ip) + if Pends(ws[|ws| - 1], ip) then 1 else 0
  }

  lemma {:induction false} PendingUpdate(ws: seq<Worker>, w: nat, v: Worker, ip: Ip)
    requires w < |ws|
    ensures Pending(ws[w := v], ip) + (if Pends(ws[w], ip) then 1 else 0)
         == Pending(ws, ip) + (if Pends(v, ip) then 1 else 0)
  {
    var init := ws[..|ws| - 1];
    if w < |init| {
      PendingUpdate(init, w, v, ip);
      assert ws[w := v][..|ws| - 1] == init[w := v];
    } else {
      assert ws[w := v][..|ws| - 1] == init;
    }
  }

  lemma {:induction false} PendingAtMost(ws: seq<Worker>, ip: Ip)
    ensures Pending(ws, ip) <= |ws|
  {
    if ws != [] {
      PendingAtMost(ws[..|ws| - 1], ip);
    }
  }

  /** The most that can be counted in one window with `n` workers. */
  function Budget(l: Limits, n: nat): nat {
    (if l.maxAttempts == 0 then 1 else l.maxAttempts) + n - 1
  }

  /** What has been counted and what may still be counted stays in the budget, until the window is over. */
  ghost predicate InBudget(l: Limits, s: State, ip: Ip) {
    ip in s.table ==>
      && s.table[ip].count <= Budget(l, |s.workers|)
      && s.table[ip].started <= s.now
      && (Expired(l, s.table[ip].started, s.now)
          || s.table[ip].count + Pending(s.workers, ip) <= Budget(l, |s.workers|))
  }

  lemma {:induction false} ExpiredStays(l: Limits, started: nat, a: nat, b: nat)
    requires a <= b && Expired(l, started, a)
    ensures Expired(l, started, b)
  {
  }

  lemma {:induction false} StepBudget(l: Limits, s: State, step: Step, ip: Ip)
    requires InBudget(l, s, ip) && Enabled(s, step)
    ensures InBudget(l, Do(l, s, step), ip)
  {
    hide Expired, Pending;
    var s' := Do(l, s, step);
    PendingAtMost(s.workers, ip);
    PendingAtMost(s'.workers, ip);
    if !step.Tick? {
      PendingUpdate(s.workers, step.w, s'.workers[step.w], ip);
      assert s'.workers == s.workers[step.w := s'.workers[step.w]];
    }
    match step
    case Tick(to) =>
      if ip in s.table && Expired(l, s.table[ip].started, s.now) {
        ExpiredStays(l, s.table[ip].started, s.now, to);
      }
    case WrongPassword(_, later) =>
      if ip in s.table && Expired(l, s.table[ip].started, s.now) {
        ExpiredStays(l, s.table[ip].started, s.now, later);
      }
    case _ =>
  }

  // ---- what the history says ----

  /** The entry that the events so far leave for `ip`. */
  function Left(h: seq<Event>, ip: Ip): Option<Entry> {
    if h == [] then None
    else
      match h[|h| - 1]
      case Wrong(who, _, _, entry) => if who == ip then Some(entry) else Left(h[..|h| - 1], ip)
      case Right(who) => if who == ip then None else Left(h[..|h| - 1], ip)
  }

  /** The event extends the window it finds, or opens one: at once after a clear, otherwise when it is over. */
  ghost predicate Follows(l: Limits, before: Option<Entry>, e: Event)
    requires e.Wrong?
  {
    if before.Some? && !Expired(l, before.value.started, e.counted)
    then e.entry == Entry(before.value.count + 1, before.value.started)
    else e.entry == Entry(1, e.at)
  }

  ghost predicate HistoryOk(l: Limits, n: nat, h: seq<Event>, now: nat) {
    && (forall k :: 0 <= k < |h| && h[k].Wrong? ==>
          && Follows(l, Left(h[..k], h[k].ip), h[k])
          && h[k].entry.count <= Budget(l, n) && h[k].at <= h[k].counted <= now)
    && (forall j, k :: 0 <= j < k < |h| && h[j].Wrong? && h[k].Wrong? ==> h[j].counted <= h[k].at)
  }

  ghost predicate Inv(l: Limits, s: State) {
    && (forall ip :: InBudget(l, s, ip))
    && HistoryOk(l, |s.workers|, s.history, s.now)
    && (forall ip :: Left(s.history, ip) == if ip in s.table then Some(s.table[ip]) else None)
    && (forall w :: 0 <= w < |s.workers| ==>
          (s.workers[w].Verifying? || s.workers[w].Issuing? <==> s.db == Some(w)))
  }

  function After(e: Event): Option<Entry> { if e.Wrong? then Some(e.entry) else None }

  lemma {:induction false} LeftSnoc(h: seq<Event>, e: Event, ip: Ip)
    ensures Left(h + [e], ip) == if ip == e.ip then After(e) else Left(h, ip)
  {
    assert (h + [e])[..|h|] == h;
  }

  /** One more event that fits. */
  lemma {:induction false} HistorySnoc(l: Limits, n: nat, h: seq<Event>, now: nat, e: Event, later: nat)
    requires HistoryOk(l, n, h, now) && now <= later
    requires e.Wrong? ==>
               && e.at == now && e.counted == later
               && Follows(l, Left(h, e.ip), e) && e.entry.count <= Budget(l, n)
    ensures HistoryOk(l, n, h + [e], later)
  {
    hide Follows, Left, Budget;
    var h' := h + [e];
    assert h'[..|h|] == h;
    assert forall k :: 0 <= k < |h| ==> h'[k] == h[k] && h'[..k] == h[..k];
  }

  lemma {:induction false} HistoryLater(l: Limits, n: nat, h: seq<Event>, now: nat, later: nat)
    requires HistoryOk(l, n, h, now) && now <= later
    ensures HistoryOk(l, n, h, later)
  {
    hide Follows, Left, Budget;
  }

  lemma {:induction false} StepHistory(l: Limits, s: State, step: Step)
    requires Inv(l, s) && Enabled(s, step)
    requires forall ip :: InBudget(l, Do(l, s, step), ip)
    ensures var s' := Do(l, s, step);
            && HistoryOk(l, |s'.workers|, s'.history, s'.now)
            && forall ip :: Left(s'.history, ip) == if ip in s'.table then Some(s'.table[ip]) else None
  {
    hide Expired, Pending, Budget, HistoryOk, Left;
    var s' := Do(l, s, step);
    if step.WrongPassword? || step.RightPassword? {
      var h, e := s.history, s'.history[|s.history|];
      assert s'.history == h + [e];
      assert InBudget(l, s', e.ip);
      HistorySnoc(l, |s.workers|, h, s.now, e, s'.now);
      forall ip ensures Left(h + [e], ip) == if ip == e.ip then After(e) else Left(h, ip) {
        LeftSnoc(h, e, ip);
      }
    } else {
      HistoryLater(l, |s.workers|, s.history, s.now, s'.now);
    }
  }

  lemma {:induction false} StepInv(l: Limits, s: State, step: Step)
    requires Inv(l, s) && Enabled(s, step)
    ensures Inv(l, Do(l, s, step))
  {
    hide Expired, Pending, HistoryOk, Left, InBudget;
    forall ip ensures InBudget(l, Do(l, s, step), ip) {
      StepBudget(l, s, step, ip);
    }
    StepHistory(l, s, step);
  }

  lemma {:induction false} RunInv(l: Limits, s: State, steps: seq<Step>)
    requires Inv(l, s) && CanRun(l, s, steps)
    ensures Inv(l, Exec(l, s, steps)) && |Exec(l, s, steps).workers| == |s.workers|
    decreases |steps|
  {
    hide Inv;
    if steps != [] {
      StepInv(l, s, steps[0]);
      RunInv(l, Do(l, s, steps[0]), steps[1..]);
    }
  }

  lemma {:induction false} InitInv(l: Limits, s: State, n: nat)
    requires Init(s, n)
    ensures Inv(l, s)
  {
  }

  // ---- the bounds ----

  /** Wrong passwords of `ip` among the events from `i` to `j`. */
  function Wrongs(h: seq<Event>, i: nat, j: nat, ip: Ip): nat
    requires i <= j <= |h|
  {
    if i == j then 0
    else Wrongs(h, i, j - 1, ip) + if h[j - 1].Wrong? && h[j - 1].ip == ip then 1 else 0
  }

  ghost predicate NoClear(h: seq<Event>, i: nat, j: nat, ip: Ip)
    requires i <= j <= |h|
  {
    forall k :: i <= k < j ==> h[k] != Right(ip)
  }

  /** The count kept for `ip` is the number of wrong passwords since one point, with no clear in between. */
  lemma {:induction false} CountIsWrongs(l: Limits, n: nat, h: seq<Event>, now: nat, j: nat, ip: Ip) returns (i: nat)
    requires HistoryOk(l, n, h, now) && j <= |h| && Left(h[..j], ip).Some?
    ensures i < j && Wrongs(h, i, j, ip) == Left(h[..j], ip).value.count
    ensures NoClear(h, i, j, ip)
    ensures h[i].Wrong? && h[i].ip == ip && h[i].at == Left(h[..j], ip).value.started
    ensures forall k :: i <= k < j && h[k].Wrong? && h[k].ip == ip ==> h[k].entry.started == h[i].at
  {
    hide HistoryOk, Left, Expired;
    LeftAt(h, j, ip);
    var e := h[j - 1];
    if e.Wrong? && e.ip == ip {
      FollowsAt(l, n, h, now, j - 1);
    }
    if e.Wrong? && e.ip == ip && e.entry == Entry(1, e.at) {
      i := j - 1;
      assert Wrongs(h, i, i, ip) == 0;
    } else {
      i := CountIsWrongs(l, n, h, now, j - 1, ip);
    }
  }

  lemma {:induction false} LeftAt(h: seq<Event>, j: nat, ip: Ip)
    requires j <= |h|
    ensures j == 0 ==> Left(h[..j], ip).None?
    ensures j > 0 ==> Left(h[..j], ip) == if h[j - 1].ip == ip then After(h[j - 1]) else Left(h[..j - 1], ip)
  {
    if j > 0 {
      assert h[..j] == h[..j - 1] + [h[j - 1]];
      LeftSnoc(h[..j - 1], h[j - 1], ip);
    }
  }

  lemma {:induction false} FollowsAt(l: Limits, n: nat, h: seq<Event>, now: nat, k: nat)
    requires HistoryOk(l, n, h, now) && k < |h| && h[k].Wrong?
    ensures Follows(l, Left(h[..k], h[k].ip), h[k])
  {
    hide Follows, Left;
  }

  /**
  In every interleaving, one address never has more than `max_attempts + N - 1`
  wrong passwords counted in one window since its last clear.
  */
  lemma {:induction false} WindowBound(l: Limits, s: State, n: nat, steps: seq<Step>, ip: Ip)
    requires Init(s, n) && CanRun(l, s, steps)
    ensures var e := Exec(l, s, steps);
            && (ip in e.table ==> 1 <= e.table[ip].count <= Budget(l, n))
            && forall k :: 0 <= k < |e.history| && e.history[k].Wrong? ==> e.history[k].entry.count <= Budget(l, n)
  {
    hide Expired, Pending, Wrongs;
    InitInv(l, s, n);
    RunInv(l, s, steps);
    var e := Exec(l, s, steps);
    assert InBudget(l, e, ip);
    if ip in e.table {
      assert e.history[..|e.history|] == e.history;
      var i := CountIsWrongs(l, n, e.history, e.now, |e.history|, ip);
      WrongsPositive(e.history, i, |e.history|, ip);
    }
  }

  /** Failure `i` of `ip` and later ones that extend its window. */
  ghost predicate OneWindow(h: seq<Event>, i: nat, j: nat, ip: Ip) {
    && i < j <= |h| && h[i].Wrong? && h[i].ip == ip
    && forall k :: i < k < j && h[k].Wrong? && h[k].ip == ip ==> h[k].entry.count > 1
  }

  lemma {:induction false} WindowCounts(l: Limits, n: nat, h: seq<Event>, now: nat, i: nat, j: nat, ip: Ip) returns (k: nat)
    requires HistoryOk(l, n, h, now) && OneWindow(h, i, j, ip)
    ensures i <= k < j && h[k].Wrong? && h[k].ip == ip && Wrongs(h, i, j, ip) <= h[k].entry.count
    ensures Left(h[..j], ip) in {None, Some(h[k].entry)}
    decreases j
  {
    hide HistoryOk, Left, Expired;
    LeftAt(h, j, ip);
    var e := h[j - 1];
    if e.Wrong? && e.ip == ip {
      FollowsAt(l, n, h, now, j - 1);
    }
    if i + 1 == j {
      k := i;
      assert Wrongs(h, i, i, ip) == 0;
    } else {
      var before := WindowCounts(l, n, h, now, i, j - 1, ip);
      k := if e.Wrong? && e.ip == ip then j - 1 else before;
    }
  }

  /** In every interleaving, so many wrong passwords of one address at most are counted in one window. */
  lemma {:induction false} WindowWrongs(l: Limits, s: State, n: nat, steps: seq<Step>, i: nat, j: nat, ip: Ip)
    requires Init(s, n) && CanRun(l, s, steps) && OneWindow(Exec(l, s, steps).history, i, j, ip)
    ensures Wrongs(Exec(l, s, steps).history, i, j, ip) <= Budget(l, n)
  {
    hide Expired, Pending, Wrongs;
    InitInv(l, s, n);
    RunInv(l, s, steps);
    var e := Exec(l, s, steps);
    var k := WindowCounts(l, n, e.history, e.now, i, j, ip);
    CountWithin(l, n, e.history, e.now, k);
  }

  lemma {:induction false} CountWithin(l: Limits, n: nat, h: seq<Event>, now: nat, k: nat)
    requires HistoryOk(l, n, h, now) && k < |h| && h[k].Wrong?
    ensures h[k].entry.count <= Budget(l, n)
  {
    hide Follows, Left, Budget;
  }

  lemma {:induction false} WrongsPositive(h: seq<Event>, i: nat, j: nat, ip: Ip)
    requires i < j <= |h| && h[i].Wrong? && h[i].ip == ip
    ensures Wrongs(h, i, j, ip) >= 1
    decreases j
  {
    if i + 1 < j {
      WrongsPositive(h, i, j - 1, ip);
    } else {
      assert Wrongs(h, i, i, ip) == 0;
    }
  }

  /** Events of `ip` from `i` to `j`, starting at wrong password `i`, all within less than one window. */
  ghost predicate Burst(l: Limits, h: seq<Event>, i: nat, j: nat, ip: Ip) {
    && i < j <= |h| && h[i].Wrong? && h[i].ip == ip && NoClear(h, i, j, ip)
    && forall k :: i <= k < j && h[k].Wrong? && h[k].ip == ip ==> !Expired(l, h[i].at, h[k].counted)
  }

  lemma {:induction false} BurstSplits(l: Limits, n: nat, h: seq<Event>, now: nat, i: nat, j: nat, ip: Ip)
    requires HistoryOk(l, n, h, now) && Burst(l, h, i, j, ip)
    ensures Left(h[..j], ip).Some?
    ensures var e := Left(h[..j], ip).value;
            || (e.started == h[i].entry.started && Wrongs(h, i, j, ip) + h[i].entry.count - 1 == e.count)
            || (e.started >= h[i].at && Wrongs(h, i, j, ip) <= Budget(l, n) - 1 + e.count)
    decreases j
  {
    hide Budget, HistoryOk, Left;
    LeftAt(h, j, ip);
    LeftAt(h, j - 1, ip);
    var last := h[j - 1];
    if last.Wrong? && last.ip == ip {
      FollowsAt(l, n, h, now, j - 1);
    }
    if i + 1 == j {
      assert Wrongs(h, i, i, ip) == 0;
    } else {
      BurstSplits(l, n, h, now, i, j - 1, ip);
      var before := Left(h[..j - 1], ip).value;
      LeftWithin(l, n, h, now, j - 1, ip);
      OpenedOrLater(l, n, h, now, i);
      if last.Wrong? && last.ip == ip {
        InOrder(l, n, h, now, i, j - 1);
        assert !Expired(l, h[i].at, last.counted);
      }
    }
  }

  /** A failure that is the first of its window has opened it; any other is at least the second. */
  lemma {:induction false} OpenedOrLater(l: Limits, n: nat, h: seq<Event>, now: nat, k: nat)
    requires HistoryOk(l, n, h, now) && k < |h| && h[k].Wrong?
    ensures h[k].entry.count >= 1 && (h[k].entry.count == 1 ==> h[k].entry.started == h[k].at)
  {
    hide HistoryOk, Left, Expired;
    FollowsAt(l, n, h, now, k);
    LeftPositive(l, n, h, now, k, h[k].ip);
  }

  lemma {:induction false} LeftPositive(l: Limits, n: nat, h: seq<Event>, now: nat, j: nat, ip: Ip)
    requires HistoryOk(l, n, h, now) && j <= |h|
    ensures Left(h[..j], ip).Some? ==> Left(h[..j], ip).value.count >= 1
  {
    hide HistoryOk, Left, Expired;
    LeftAt(h, j, ip);
    if j > 0 {
      if h[j - 1].Wrong? {
        FollowsAt(l, n, h, now, j - 1);
      }
      LeftPositive(l, n, h, now, j - 1, ip);
    }
  }

  lemma {:induction false} InOrder(l: Limits, n: nat, h: seq<Event>, now: nat, i: nat, j: nat)
    requires HistoryOk(l, n, h, now) && i < j < |h| && h[i].Wrong? && h[j].Wrong?
    ensures h[i].at <= h[j].at
  {
    hide Follows, Left, Budget;
  }

  lemma {:induction false} LeftWithin(l: Limits, n: nat, h: seq<Event>, now: nat, j: nat, ip: Ip)
    requires HistoryOk(l, n, h, now) && j <= |h| && Left(h[..j], ip).Some?
    ensures Left(h[..j], ip).value.count <= Budget(l, n)
  {
    hide Expired, Follows;
    assert h[..j][..j - 1] == h[..j - 1];
    if !(h[j - 1].Wrong? && h[j - 1].ip == ip) {
      LeftWithin(l, n, h, now, j - 1, ip);
    }
  }

  /**
  Windows are fixed, not sliding, so a burst can straddle two of them: over any
  stretch shorter than the window, with no clear, at most one less than twice the
  budget, because the failure that opened the first window is not in it.
  */
  lemma {:induction false} SlidingBound(l: Limits, s: State, n: nat, steps: seq<Step>, i: nat, j: nat, ip: Ip)
    requires Init(s, n) && CanRun(l, s, steps)
    requires Burst(l, Exec(l, s, steps).history, i, j, ip)
    ensures Wrongs(Exec(l, s, steps).history, i, j, ip) <= 2 * Budget(l, n) - 1
  {
    hide Expired, Pending, Wrongs, NoClear;
    InitInv(l, s, n);
    RunInv(l, s, steps);
    var e := Exec(l, s, steps);
    BurstSplits(l, n, e.history, e.now, i, j, ip);
    LeftWithin(l, n, e.history, e.now, j, ip);
    OpenedOrLater(l, n, e.history, e.now, i);
  }

  // ---- the bound is reached ----

  lemma {:induction false} RunConcat(l: Limits, s: State, a: seq<Step>, b: seq<Step>)
    requires CanRun(l, s, a) && CanRun(l, Exec(l, s, a), b)
    ensures CanRun(l, s, a + b) && Exec(l, s, a + b) == Exec(l, Exec(l, s, a), b)
    decreases |a|
  {
    hide Do, Enabled;
    if a == [] {
      assert a + b == b;
    } else {
      assert (a + b)[1..] == a[1..] + b;
      RunConcat(l, Do(l, s, a[0]), a[1..], b);
    }
  }

  lemma {:induction false} RunOne(l: Limits, s: State, step: Step)
    requires Enabled(s, step)
    ensures CanRun(l, s, [step]) && Exec(l, s, [step]) == Do(l, s, step)
  {
    hide Do, Enabled;
    assert CanRun(l, Do(l, s, step), []);
  }

  /**
  `c` wrong passwords of `ip` counted in a window that opened at `start`, none
  for no open window; workers `i` to `j` have passed the check, the others are free.
  */
  ghost predicate At(l: Limits, s: State, n: nat, ip: Ip, c: nat, start: nat, i: nat, j: nat) {
    && |s.workers| == n && s.db.None?
    && (c == 0 ==> ip !in s.table || Expired(l, s.table[ip].started, s.now))
    && (c > 0 ==> ip in s.table && s.table[ip] == Entry(c, start) && !Expired(l, start, s.now))
    && (forall w :: 0 <= w < n ==> s.workers[w] == if i <= w < j then Checked(ip) else Free)
  }

  /** From `s` to `e`, `m` wrong passwords of `ip` were counted, all at once. */
  ghost predicate Failed(s: State, e: State, ip: Ip, m: nat) {
    && e.now == s.now && s.history <= e.history && |e.history| == |s.history| + m
    && forall k :: |s.history| <= k < |e.history| ==>
         e.history[k].Wrong? && e.history[k].ip == ip && e.history[k].at == s.now && e.history[k].counted == s.now
  }

  lemma {:induction false} FailedMore(s: State, t: State, e: State, ip: Ip, a: nat, b: nat)
    requires Failed(s, t, ip, a) && Failed(t, e, ip, b)
    ensures Failed(s, e, ip, a + b)
  {
    assert forall k :: |s.history| <= k < |t.history| ==> e.history[k] == t.history[k];
  }

  /** Worker `j` passes the check too. */
  lemma {:induction false} OneMoreChecked(l: Limits, s: State, n: nat, ip: Ip, c: nat, start: nat, j: nat)
    requires At(l, s, n, ip, c, start, 0, j) && j < n && (c == 0 || c < l.maxAttempts)
    ensures Enabled(s, Check(j, ip)) && At(l, Do(l, s, Check(j, ip)), n, ip, c, start, 0, j + 1)
    ensures Failed(s, Do(l, s, Check(j, ip)), ip, 0)
  {
    hide Expired;
  }

  /** Worker `i` gets a wrong password counted; the first one opens a window. */
  lemma {:induction false} OneMoreCounted(l: Limits, s: State, n: nat, ip: Ip, c: nat, start: nat, i: nat, j: nat)
    returns (steps: seq<Step>)
    requires At(l, s, n, ip, c, start, i, j) && i < j <= n && l.windowSecs > 0
    ensures CanRun(l, s, steps)
    ensures At(l, Exec(l, s, steps), n, ip, c + 1, if c == 0 then s.now else start, i + 1, j)
    ensures Failed(s, Exec(l, s, steps), ip, 1)
  {
    hide CanRun, Exec;
    var s1 := Do(l, s, LockDb(i));
    var s2 := Do(l, s1, WrongPassword(i, s.now));
    assert !Expired(l, s.now, s.now);
    hide Expired;
    RunOne(l, s, LockDb(i));
    RunOne(l, s1, WrongPassword(i, s.now));
    steps := [LockDb(i)] + [WrongPassword(i, s.now)];
    RunConcat(l, s, [LockDb(i)], [WrongPassword(i, s.now)]);
  }

  lemma {:induction false} NothingDone(l: Limits, s: State, ip: Ip)
    ensures CanRun(l, s, []) && Exec(l, s, []) == s && Failed(s, s, ip, 0)
  {
  }

  /** Workers up to `j` pass the check, one after another. */
  lemma {:induction false} AllChecked(l: Limits, s: State, n: nat, ip: Ip, c: nat, start: nat, j: nat)
    returns (steps: seq<Step>)
    requires At(l, s, n, ip, c, start, 0, 0) && j <= n && (c == 0 || c < l.maxAttempts)
    ensures CanRun(l, s, steps) && At(l, Exec(l, s, steps), n, ip, c, start, 0, j) && Failed(s, Exec(l, s, steps), ip, 0)
  {
    hide Do, Enabled, At, CanRun, Exec, Failed;
    NothingDone(l, s, ip);
    steps := [];
    if j > 0 {
      var before := AllChecked(l, s, n, ip, c, start, j - 1);
      var s' := Exec(l, s, before);
      OneMoreChecked(l, s', n, ip, c, start, j - 1);
      RunOne(l, s', Check(j - 1, ip));
      RunConcat(l, s, before, [Check(j - 1, ip)]);
      steps := before + [Check(j - 1, ip)];
      FailedMore(s, s', Exec(l, s, steps), ip, 0, 0);
    }
  }

  /** Workers `i` to `i + m` get theirs counted. */
  lemma {:induction false} AllCounted(l: Limits, s: State, n: nat, ip: Ip, c: nat, start: nat, i: nat, m: nat, j: nat)
    returns (steps: seq<Step>)
    requires At(l, s, n, ip, c, start, i, j) && i + m <= j <= n && l.windowSecs > 0
    ensures CanRun(l, s, steps)
    ensures At(l, Exec(l, s, steps), n, ip, c + m, if c == 0 then s.now else start, i + m, j)
    ensures Failed(s, Exec(l, s, steps), ip, m)
    decreases m
  {
    hide Do, Enabled, At, CanRun, Exec, Failed;
    NothingDone(l, s, ip);
    steps := [];
    if m == 0 {
      if c == 0 {
        AnyStart(l, s, n, ip, start, s.now, i, j);
      }
    } else {
      var before := AllCounted(l, s, n, ip, c, start, i, m - 1, j);
      var s' := Exec(l, s, before);
      SameTime(s, s', ip, m - 1);
      var more := OneMoreCounted(l, s', n, ip, c + m - 1, if c == 0 then s.now else start, i + m - 1, j);
      RunConcat(l, s, before, more);
      steps := before + more;
      FailedMore(s, s', Exec(l, s, steps), ip, m - 1, 1);
    }
  }

  lemma {:induction false} AnyStart(l: Limits, s: State, n: nat, ip: Ip, a: nat, b: nat, i: nat, j: nat)
    requires At(l, s, n, ip, 0, a, i, j)
    ensures At(l, s, n, ip, 0, b, i, j)
  {
  }

  lemma {:induction false} SameTime(s: State, e: State, ip: Ip, m: nat)
    requires Failed(s, e, ip, m)
    ensures e.now == s.now
  {
  }

  lemma {:induction false} NoneChecked(l: Limits, s: State, n: nat, ip: Ip, c: nat, start: nat, j: nat)
    requires At(l, s, n, ip, c, start, j, j)
    ensures At(l, s, n, ip, c, start, 0, 0)
  {
  }

  /** The first `j` workers check, then count: `j` more than before, if a login was still allowed. */
  lemma {:induction false} Together(l: Limits, s: State, n: nat, ip: Ip, c: nat, start: nat, j: nat)
    returns (steps: seq<Step>)
    requires At(l, s, n, ip, c, start, 0, 0) && j <= n && (c == 0 || c < l.maxAttempts) && l.windowSecs > 0
    ensures CanRun(l, s, steps)
    ensures At(l, Exec(l, s, steps), n, ip, c + j, if c == 0 then s.now else start, 0, 0)
    ensures Failed(s, Exec(l, s, steps), ip, j)
  {
    hide Do, Enabled, At, CanRun, Exec, Failed;
    var a := AllChecked(l, s, n, ip, c, start, j);
    var s' := Exec(l, s, a);
    SameTime(s, s', ip, 0);
    var b := AllCounted(l, s', n, ip, c, start, 0, j, j);
    RunConcat(l, s, a, b);
    steps := a + b;
    NoneChecked(l, Exec(l, s, steps), n, ip, c + j, if c == 0 then s.now else start, j);
    FailedMore(s, s', Exec(l, s, steps), ip, 0, j);
  }

  /** One worker alone, `m` more, staying below the limit. */
  lemma {:induction false} Alone(l: Limits, s: State, n: nat, ip: Ip, c: nat, start: nat, m: nat)
    returns (steps: seq<Step>)
    requires At(l, s, n, ip, c, start, 0, 0) && 0 < n && (m == 0 || c + m < l.maxAttempts) && l.windowSecs > 0
    ensures CanRun(l, s, steps)
    ensures At(l, Exec(l, s, steps), n, ip, c + m, if c == 0 then s.now else start, 0, 0)
    ensures Failed(s, Exec(l, s, steps), ip, m)
    decreases m
  {
    hide Do, Enabled, At, CanRun, Exec, Failed;
    NothingDone(l, s, ip);
    steps := [];
    if m == 0 {
      if c == 0 {
        AnyStart(l, s, n, ip, start, s.now, 0, 0);
      }
    } else {
      var before := Alone(l, s, n, ip, c, start, m - 1);
      var s' := Exec(l, s, before);
      SameTime(s, s', ip, m - 1);
      var more := Together(l, s', n, ip, c + m - 1, if c == 0 then s.now else start, 1);
      RunConcat(l, s, before, more);
      steps := before + more;
      FailedMore(s, s', Exec(l, s, steps), ip, m - 1, 1);
    }
  }

  /** The rest of the budget, all at once: one worker up to one short of the limit, then all of them. */
  lemma {:induction false} FillWindow(l: Limits, s: State, n: nat, ip: Ip, c: nat, start: nat)
    returns (steps: seq<Step>)
    requires At(l, s, n, ip, c, start, 0, 0) && 0 < n && (c == 0 || c < l.maxAttempts) && l.windowSecs > 0
    ensures c <= Budget(l, n) && CanRun(l, s, steps)
    ensures At(l, Exec(l, s, steps), n, ip, Budget(l, n), if c == 0 then s.now else start, 0, 0)
    ensures Failed(s, Exec(l, s, steps), ip, Budget(l, n) - c)
  {
    hide Do, Enabled, At, CanRun, Exec, Failed;
    var m := if l.maxAttempts == 0 then 0 else l.maxAttempts - 1 - c;
    var a := Alone(l, s, n, ip, c, start, m);
    var s' := Exec(l, s, a);
    SameTime(s, s', ip, m);
    var b := Together(l, s', n, ip, c + m, if c == 0 then s.now else start, n);
    RunConcat(l, s, a, b);
    steps := a + b;
    FailedMore(s, s', Exec(l, s, steps), ip, m, n);
  }

  lemma {:induction false} AtStart(l: Limits, s: State, n: nat, ip: Ip)
    requires Init(s, n)
    ensures At(l, s, n, ip, 0, 0, 0, 0)
  {
  }

  /** The budget is no overestimate: some run counts exactly that many in one window. */
  lemma {:induction false} BudgetReached(l: Limits, s: State, n: nat, ip: Ip) returns (steps: seq<Step>)
    requires Init(s, n) && 0 < n && l.windowSecs > 0
    ensures CanRun(l, s, steps)
    ensures ip in Exec(l, s, steps).table && Exec(l, s, steps).table[ip].count == Budget(l, n)
  {
    hide Do, Enabled, CanRun, Exec;
    AtStart(l, s, n, ip);
    steps := FillWindow(l, s, n, ip, 0, 0);
  }

  // ---- nor is the bound on a burst ----

  /** One failure now, and everything ready for the rest of the budget later in its window. */
  lemma {:induction false} FirstFailure(l: Limits, s: State, n: nat, ip: Ip) returns (steps: seq<Step>)
    requires At(l, s, n, ip, 0, 0, 0, 0) && 0 < n && l.windowSecs > 0
    ensures CanRun(l, s, steps) && Failed(s, Exec(l, s, steps), ip, 1)
    ensures if l.maxAttempts >= 2 then At(l, Exec(l, s, steps), n, ip, 1, s.now, 0, 0)
            else At(l, Exec(l, s, steps), n, ip, 1, s.now, 1, n)
  {
    hide Do, Enabled, At, CanRun, Exec, Failed;
    if l.maxAttempts >= 2 {
      steps := Together(l, s, n, ip, 0, 0, 1);
    } else {
      var a := AllChecked(l, s, n, ip, 0, 0, n);
      var s' := Exec(l, s, a);
      SameTime(s, s', ip, 0);
      var b := OneMoreCounted(l, s', n, ip, 0, 0, 0, n);
      RunConcat(l, s, a, b);
      steps := a + b;
      FailedMore(s, s', Exec(l, s, steps), ip, 0, 1);
    }
  }

  /** And that rest. */
  lemma {:induction false} OtherFailures(l: Limits, s: State, n: nat, ip: Ip, start: nat) returns (steps: seq<Step>)
    requires 0 < n && l.windowSecs > 0
    requires if l.maxAttempts >= 2 then At(l, s, n, ip, 1, start, 0, 0) else At(l, s, n, ip, 1, start, 1, n)
    ensures CanRun(l, s, steps) && Failed(s, Exec(l, s, steps), ip, Budget(l, n) - 1)
    ensures At(l, Exec(l, s, steps), n, ip, Budget(l, n), start, 0, 0)
  {
    hide Do, Enabled, At, CanRun, Exec, Failed;
    if l.maxAttempts >= 2 {
      steps := FillWindow(l, s, n, ip, 1, start);
    } else {
      steps := AllCounted(l, s, n, ip, 1, start, 1, n - 1, n);
      NoneChecked(l, Exec(l, s, steps), n, ip, n, start, n);
    }
  }

  /** Time passes: within the window, or to its end. */
  lemma {:induction false} Wait(l: Limits, s: State, n: nat, ip: Ip, c: nat, start: nat, i: nat, j: nat, to: nat)
    requires At(l, s, n, ip, c, start, i, j) && c > 0 && s.now <= to
    ensures CanRun(l, s, [Tick(to)]) && Exec(l, s, [Tick(to)]) == s.(now := to)
    ensures At(l, s.(now := to), n, ip, if Expired(l, start, to) then 0 else c, start, i, j)
  {
    hide CanRun, Exec, Expired;
    RunOne(l, s, Tick(to));
  }

  lemma {:induction false} AllWrong(h: seq<Event>, i: nat, j: nat, ip: Ip)
    requires i <= j <= |h| && forall k :: i <= k < j ==> h[k].Wrong? && h[k].ip == ip
    ensures Wrongs(h, i, j, ip) == j - i
    decreases j
  {
    if i < j {
      AllWrong(h, i, j - 1, ip);
    }
  }

  /** Some run reaches the bound on a burst: one failure, the rest of its window at its end, then a whole new one. */
  lemma {:induction false} BurstReached(l: Limits, s: State, n: nat, ip: Ip) returns (steps: seq<Step>)
    requires Init(s, n) && 0 < n && l.windowSecs > 0
    ensures CanRun(l, s, steps)
    ensures var h := Exec(l, s, steps).history;
            Burst(l, h, 1, |h|, ip) && Wrongs(h, 1, |h|, ip) == 2 * Budget(l, n) - 1
  {
    hide Do, Enabled, At, CanRun, Exec, Failed, Wrongs, Budget;
    var end := s.now + l.windowSecs * SECOND;
    AtStart(l, s, n, ip);
    var a := FirstFailure(l, s, n, ip);
    var s1 := Exec(l, s, a);
    SameTime(s, s1, ip, 1);
    var s2 := s1.(now := end - 1);
    WindowEnds(l, s.now);
    if l.maxAttempts >= 2 {
      Wait(l, s1, n, ip, 1, s.now, 0, 0, end - 1);
    } else {
      Wait(l, s1, n, ip, 1, s.now, 1, n, end - 1);
    }
    RunConcat(l, s, a, [Tick(end - 1)]);
    var b := OtherFailures(l, s2, n, ip, s.now);
    var s3 := Exec(l, s2, b);
    RunConcat(l, s, a + [Tick(end - 1)], b);
    BudgetPositive(l, n);
    SameTime(s2, s3, ip, Budget(l, n) - 1);
    Wait(l, s3, n, ip, Budget(l, n), s.now, 0, 0, end);
    var s4 := s3.(now := end);
    RunConcat(l, s, a + [Tick(end - 1)] + b, [Tick(end)]);
    var c := FillWindow(l, s4, n, ip, 0, s.now);
    RunConcat(l, s, a + [Tick(end - 1)] + b + [Tick(end)], c);
    steps := a + [Tick(end - 1)] + b + [Tick(end)] + c;
    BurstIs(l, s, s1, s2, s3, s4, Exec(l, s, steps), n, ip);
  }

  lemma {:induction false} BudgetPositive(l: Limits, n: nat)
    requires n > 0
    ensures Budget(l, n) >= 1
  {
  }

  lemma {:induction false} WindowEnds(l: Limits, start: nat)
    requires l.windowSecs > 0
    ensures !Expired(l, start, start + l.windowSecs * SECOND - 1)
    ensures Expired(l, start, start + l.windowSecs * SECOND)
  {
  }

  lemma {:induction false} BurstIs(l: Limits, s: State, s1: State, s2: State, s3: State, s4: State, e: State, n: nat, ip: Ip)
    requires l.windowSecs > 0 && Budget(l, n) >= 1 && s.history == [] && Failed(s, s1, ip, 1)
    requires s2.history == s1.history && Failed(s2, s3, ip, Budget(l, n) - 1)
    requires s4.history == s3.history && s4.now == s2.now + 1 && Failed(s4, e, ip, Budget(l, n))
    ensures var h := e.history;
            Burst(l, h, 1, |h|, ip) && Wrongs(h, 1, |h|, ip) == 2 * Budget(l, n) - 1
  {
    hide Wrongs, Budget;
    var h := e.history;
    assert forall k :: 0 <= k < |s3.history| ==> h[k] == s3.history[k];
    assert forall k :: 1 <= k < |h| ==>
        h[k].Wrong? && h[k].ip == ip && h[k].counted == h[k].at && s2.now <= h[k].at <= s2.now + 1;
    AllWrong(h, 1, |h|, ip);
  }
}
