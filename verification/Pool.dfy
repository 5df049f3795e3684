/**
The bounded worker pool: a channel of limited size, workers that take turns
receiving from it, and a cell per submitted job from which its resource is taken
exactly once, either by the job or by the submitter that could not queue it.
*/
module Pool {
  import opened Bytes

  type Job = nat

  datatype Worker =
    | Waiting              // about to lock the receiver
    | Receiving            // holds the receiver, inside `recv`
    | Took(job: Job)       // received, not counted yet
    | Counted(job: Job)    // `in_flight` raised, resource not taken yet
    | Serving(job: Job)    // running with the resource
    | Finished             // the job returned, `in_flight` not lowered yet
    | Panicked             // the job unwound; the thread is gone
    | Exited               // the channel closed

  /**
  `cells` says whether a job's resource is still in its cell. The rest is
  history: the jobs begun and returned, those the channel accepted, and those
  workers received, each in order.
  */
  datatype State = State(
    cap: nat, queue: seq<Job>, closed: bool, workers: seq<Worker>, inFlight: nat,
    cells: map<Job, bool>, refused: set<Job>, ran: seq<Job>, returned: seq<Job>,
    accepted: seq<Job>, received: seq<Job>)

  datatype Step =
    | Submit(job: Job)     // new cell, `try_send`
    | TakeBack(job: Job)   // the submitter recovers the resource
    | Close                // the pool is dropped
    | LockRx(w: nat)
    | Recv(w: nat)
    | RecvClosed(w: nat)
    | Count(w: nat)
    | Take(w: nat)         // `take().unwrap()` inside the job
    | Return(w: nat)
    | Panic(w: nat)
    | Uncount(w: nat)

  predicate At(s: State, w: nat, k: Worker) { w < |s.workers| && s.workers[w] == k }

  predicate Gone(w: Worker) { w.Panicked? || w.Exited? }

  /** The index of the worker inside `recv`, if any. */
  function Receiver(ws: seq<Worker>): (r: Option<nat>)
    ensures r.Some? ==> r.value < |ws| && ws[r.value].Receiving?
    ensures r.None? ==> forall i :: 0 <= i < |ws| ==> !ws[i].Receiving?
  {
    if ws == [] then None
    else if ws[|ws| - 1].Receiving? then Some(|ws| - 1)
    else Receiver(ws[..|ws| - 1])
  }

  /** The receiving end is dropped with the last worker. */
  predicate Disconnected(s: State) {
    forall i :: 0 <= i < |s.workers| ==> Gone(s.workers[i])
  }

  predicate Enabled(s: State, step: Step) {
    match step
    case Submit(job) => !s.closed && job !in s.cells
    case TakeBack(job) => job in s.refused
    case Close => !s.closed
    case LockRx(w) => At(s, w, Waiting) && Receiver(s.workers).None?
    case Recv(w) => At(s, w, Receiving) && s.queue != []
    case RecvClosed(w) => At(s, w, Receiving) && s.queue == [] && s.closed
    case Count(w) => w < |s.workers| && s.workers[w].Took?
    case Take(w) => w < |s.workers| && s.workers[w].Counted?
    case Return(w) => w < |s.workers| && s.workers[w].Serving?
    case Panic(w) => w < |s.workers| && s.workers[w].Serving?
    case Uncount(w) => At(s, w, Finished) && s.inFlight > 0
  }

  function Set(s: State, w: nat, k: Worker): State
    requires w < |s.workers|
  {
    s.(workers := s.workers[w := k])
  }

  /** The job worker `w` has just got. */
  function Received(s: State, w: nat): State
    requires w < |s.workers| && s.workers[w].Took?
  {
    s.(received := s.received + [s.workers[w].job])
  }

  function Do(s: State, step: Step): State
    requires Enabled(s, step)
  {
    match step
    case Submit(job) =>
      var s' := s.(cells := s.cells[job := true]);
      if !Disconnected(s) && |s.queue| < s.cap then s'.(queue := s.queue + [job], accepted := s.accepted + [job])
      else if s.cap == 0 && Receiver(s.workers).Some? then
        Set(s', Receiver(s.workers).value, Took(job)).(accepted := s.accepted + [job], received := s.received + [job])
      else s'.(refused := s.refused + {job})
    case TakeBack(job) =>
      s.(cells := s.cells[job := false], refused := s.refused - {job}, returned := s.returned + [job])
    case Close => s.(closed := true)
    case LockRx(w) => Set(s, w, Receiving)
    case Recv(w) => Received(Set(s, w, Took(s.queue[0])).(queue := s.queue[1..]), w)
    case RecvClosed(w) => Set(s, w, Exited)
    case Count(w) => Set(s, w, Counted(s.workers[w].job)).(inFlight := s.inFlight + 1)
    case Take(w) =>
      var job := s.workers[w].job;
      Set(s, w, Serving(job)).(cells := s.cells[job := false], ran := s.ran + [job])
    case Return(w) => Set(s, w, Finished)
    case Panic(w) => Set(s, w, Panicked)
    case Uncount(w) => Set(s, w, Waiting).(inFlight := s.inFlight - 1)
  }

  predicate CanRun(s: State, steps: seq<Step>)
    decreases |steps|
  {
    steps == [] || (Enabled(s, steps[0]) && CanRun(Do(s, steps[0]), steps[1..]))
  }

  function Exec(s: State, steps: seq<Step>): State
    requires CanRun(s, steps)
    decreases |steps|
  {
    if steps == [] then s else Exec(Do(s, steps[0]), steps[1..])
  }

  ghost predicate Init(s: State, size: nat, cap: nat) {
    s == State(cap, [], false, seq(size, i => Waiting), 0, map[], {}, [], [], [], [])
  }

  // ---- where jobs are ----

  predicate Holds(w: Worker, j: Job) { (w.Took? || w.Counted?) && w.job == j }

  /** How many workers have received `j` and not begun it. */
  function Held(ws: seq<Worker>, j: Job): nat {
    if ws == [] then 0 else Held(ws[..|ws| - 1], j) + if Holds(ws[|ws| - 1], j) then 1 else 0
  }

  /** Places of `j` in which the resource is still in its cell. */
  function Waits(s: State, j: Job): nat {
    multiset(s.queue)[j] + Held(s.workers, j) + if j in s.refused then 1 else 0
  }

  /** Every place a submitted job can be in. */
  function Places(s: State, j: Job): nat {
    Waits(s, j) + multiset(s.ran)[j] + multiset(s.returned)[j]
  }

  predicate Counts(w: Worker) { w.Counted? || w.Serving? || w.Finished? || w.Panicked? }

  function CountedOnes(ws: seq<Worker>): nat {
    if ws == [] then 0 else CountedOnes(ws[..|ws| - 1]) + if Counts(ws[|ws| - 1]) then 1 else 0
  }

  lemma {:induction false} UpdateHeld(ws: seq<Worker>, w: nat, k: Worker, j: Job)
    requires w < |ws|
    ensures Held(ws[w := k], j) + (if Holds(ws[w], j) then 1 else 0)
         == Held(ws, j) + (if Holds(k, j) then 1 else 0)
  {
    hide Holds;
    var init := ws[..|ws| - 1];
    if w < |init| {
      UpdateHeld(init, w, k, j);
      assert ws[w := k][..|ws| - 1] == init[w := k];
    } else {
      assert ws[w := k][..|ws| - 1] == init;
    }
  }

  lemma {:induction false} UpdateCounted(ws: seq<Worker>, w: nat, k: Worker)
    requires w < |ws|
    ensures CountedOnes(ws[w := k]) + (if Counts(ws[w]) then 1 else 0)
         == CountedOnes(ws) + (if Counts(k) then 1 else 0)
  {
    hide Counts;
    var init := ws[..|ws| - 1];
    if w < |init| {
      UpdateCounted(init, w, k);
      assert ws[w := k][..|ws| - 1] == init[w := k];
    } else {
      assert ws[w := k][..|ws| - 1] == init;
    }
  }

  lemma {:induction false} HeldHas(ws: seq<Worker>, w: nat, j: Job)
    requires w < |ws| && Holds(ws[w], j)
    ensures Held(ws, j) >= 1
  {
    if w < |ws| - 1 {
      HeldHas(ws[..|ws| - 1], w, j);
    }
  }

  // ---- the invariant ----

  /** A submitted job is in one place, and its resource in its cell exactly while it waits. */
  ghost predicate JobOk(s: State, j: Job) {
    && Places(s, j) == (if j in s.cells then 1 else 0)
    && (j in s.cells ==> (s.cells[j] <==> Waits(s, j) == 1))
  }

  /** One worker at a time holds the receiver. */
  ghost predicate OneReceiver(ws: seq<Worker>) {
    forall a, b :: 0 <= a < |ws| && 0 <= b < |ws| && ws[a].Receiving? && ws[b].Receiving? ==> a == b
  }

  ghost predicate Inv(s: State) {
    && |s.queue| <= s.cap
    && (forall j :: JobOk(s, j))
    && s.inFlight == CountedOnes(s.workers)
    && OneReceiver(s.workers)
  }

  /** The worker a step moves, if any. */
  function Mover(s: State, step: Step): Option<nat>
    requires Enabled(s, step)
  {
    match step
    case Submit(_) =>
      if (Disconnected(s) || |s.queue| >= s.cap) && s.cap == 0 then Receiver(s.workers) else None
    case TakeBack(_) => None
    case Close => None
    case _ => Some(step.w)
  }

  lemma {:induction false} StepMoves(s: State, step: Step)
    requires Enabled(s, step)
    ensures var m, s' := Mover(s, step), Do(s, step);
            if m.Some? then m.value < |s.workers| && s'.workers == s.workers[m.value := s'.workers[m.value]]
            else s'.workers == s.workers
  {
    hide Disconnected, Receiver;
  }

  /** What moving one worker does to the count of received jobs. */
  lemma {:induction false} StepHeld(s: State, step: Step, j: Job)
    requires Enabled(s, step)
    ensures var m, s' := Mover(s, step), Do(s, step);
            if m.None? then s'.workers == s.workers
            else
              && m.value < |s.workers| && s'.workers == s.workers[m.value := s'.workers[m.value]]
              && Held(s'.workers, j) + (if Holds(s.workers[m.value], j) then 1 else 0)
                   == Held(s.workers, j) + (if Holds(s'.workers[m.value], j) then 1 else 0)
              && (Holds(s.workers[m.value], j) ==> Held(s.workers, j) >= 1)
  {
    hide Held, Disconnected, Receiver;
    StepMoves(s, step);
    var m, s' := Mover(s, step), Do(s, step);
    if m.Some? {
      UpdateHeld(s.workers, m.value, s'.workers[m.value], j);
      if Holds(s.workers[m.value], j) {
        HeldHas(s.workers, m.value, j);
      }
    }
  }

  lemma {:induction false} SubmitJob(s: State, job: Job, j: Job)
    requires JobOk(s, j) && Enabled(s, Submit(job))
    ensures JobOk(Do(s, Submit(job)), j)
  {
    hide Held, Disconnected, Receiver;
    StepHeld(s, Submit(job), j);
  }

  lemma {:induction false} ReceiveJob(s: State, w: nat, j: Job)
    requires JobOk(s, j) && Enabled(s, Recv(w))
    ensures JobOk(Do(s, Recv(w)), j)
  {
    hide Held, Disconnected, Receiver;
    StepHeld(s, Recv(w), j);
    assert s.queue == [s.queue[0]] + s.queue[1..];
  }

  lemma {:induction false} BeginJob(s: State, w: nat, j: Job)
    requires JobOk(s, j) && Enabled(s, Take(w))
    ensures JobOk(Do(s, Take(w)), j)
  {
    hide Held;
    StepHeld(s, Take(w), j);
  }

  lemma {:induction false} ReturnJob(s: State, job: Job, j: Job)
    requires JobOk(s, j) && Enabled(s, TakeBack(job))
    ensures JobOk(Do(s, TakeBack(job)), j)
  {
    hide Held;
  }

  /** The other steps move no job. */
  lemma {:induction false} QuietJob(s: State, step: Step, j: Job)
    requires JobOk(s, j) && Enabled(s, step)
    requires !step.Submit? && !step.Recv? && !step.Take? && !step.TakeBack?
    ensures JobOk(Do(s, step), j)
  {
    hide Held, Receiver;
    StepHeld(s, step, j);
  }

  lemma {:induction false} StepJob(s: State, step: Step, j: Job)
    requires JobOk(s, j) && Enabled(s, step)
    ensures JobOk(Do(s, step), j)
  {
    hide JobOk, Do, Enabled;
    match step
    case Submit(job) => SubmitJob(s, job, j);
    case Recv(w) => ReceiveJob(s, w, j);
    case Take(w) => BeginJob(s, w, j);
    case TakeBack(job) => ReturnJob(s, job, j);
    case _ => QuietJob(s, step, j);
  }

  lemma {:induction false} StepRest(s: State, step: Step)
    requires Inv(s) && Enabled(s, step)
    ensures var s' := Do(s, step);
            && |s'.queue| <= s'.cap && s'.inFlight == CountedOnes(s'.workers) && OneReceiver(s'.workers)
  {
    hide Held, Disconnected, JobOk, CountedOnes;
    var s' := Do(s, step);
    var m := Mover(s, step);
    StepMoves(s, step);
    if m.Some? {
      UpdateCounted(s.workers, m.value, s'.workers[m.value]);
    }
  }

  lemma {:induction false} StepInv(s: State, step: Step)
    requires Inv(s) && Enabled(s, step)
    ensures Inv(Do(s, step))
  {
    hide Do, JobOk, CountedOnes, OneReceiver;
    StepRest(s, step);
    forall j ensures JobOk(Do(s, step), j) {
      StepJob(s, step, j);
    }
  }

  lemma {:induction false} RunInv(s: State, steps: seq<Step>)
    requires Inv(s) && CanRun(s, steps)
    ensures Inv(Exec(s, steps))
    decreases |steps|
  {
    hide Inv;
    if steps != [] {
      StepInv(s, steps[0]);
      RunInv(Do(s, steps[0]), steps[1..]);
    }
  }

  lemma {:induction false} InitInv(s: State, size: nat, cap: nat)
    requires Init(s, size, cap)
    ensures Inv(s)
  {
    forall j ensures JobOk(s, j) {
      NothingHeld(size, j);
    }
    NothingHeld(size, 0);
  }

  lemma {:induction false} NothingHeld(n: nat, j: Job)
    ensures Held(seq(n, i => Waiting), j) == 0 && CountedOnes(seq(n, i => Waiting)) == 0
  {
    var ws: seq<Worker> := seq(n, i => Waiting);
    if n > 0 {
      assert ws[..n - 1] == seq(n - 1, i => Waiting);
      NothingHeld(n - 1, j);
    }
  }

  // ---- what a run guarantees ----

  /**
  In every interleaving, each job submitted is in exactly one place: queued, in
  a worker's hands, refused and about to be returned, returned, or begun by one
  worker once; the queue keeps to its size; `in_flight` counts exactly the
  workers between the two updates, plus those a panic took away.
  */
  lemma {:induction false} EachJobOnce(s: State, size: nat, cap: nat, steps: seq<Step>, j: Job)
    requires Init(s, size, cap) && CanRun(s, steps)
    ensures var e := Exec(s, steps);
            && Places(e, j) == (if j in e.cells then 1 else 0)
            && multiset(e.ran)[j] + multiset(e.returned)[j] <= 1
            && |e.queue| <= e.cap
            && e.inFlight == CountedOnes(e.workers)
  {
    InitInv(s, size, cap);
    RunInv(s, steps);
    assert JobOk(Exec(s, steps), j);
  }

  /** Both unwraps find the resource: the job's when it starts, the submitter's when it was refused. */
  lemma {:induction false} UnwrapsNeverFail(s: State, step: Step)
    requires Inv(s) && Enabled(s, step)
    ensures step.Take? ==> s.workers[step.w].job in s.cells && s.cells[s.workers[step.w].job]
    ensures step.TakeBack? ==> step.job in s.cells && s.cells[step.job]
  {
    hide CountedOnes, Receiver, Held;
    if step.Take? {
      HeldHas(s.workers, step.w, s.workers[step.w].job);
      assert JobOk(s, s.workers[step.w].job);
    }
    if step.TakeBack? {
      assert JobOk(s, step.job);
    }
  }

  /** Lowering `in_flight` never goes below zero. */
  lemma {:induction false} UncountHasSomething(s: State, w: nat)
    requires Inv(s) && At(s, w, Finished)
    ensures Enabled(s, Uncount(w))
  {
    CountedAtLeast(s.workers, w);
  }

  lemma {:induction false} CountedAtLeast(ws: seq<Worker>, w: nat)
    requires w < |ws| && Counts(ws[w])
    ensures CountedOnes(ws) >= 1
  {
    if w < |ws| - 1 {
      CountedAtLeast(ws[..|ws| - 1], w);
    }
  }

  // ---- in what order ----

  /** What was accepted has been received, in that order, or is still queued, in that order. */
  ghost predicate InOrder(s: State) {
    s.accepted == s.received + s.queue && (s.cap == 0 ==> s.queue == [])
  }

  lemma {:induction false} StepInOrder(s: State, step: Step)
    requires InOrder(s) && |s.queue| <= s.cap && Enabled(s, step)
    ensures InOrder(Do(s, step))
  {
    if step.Recv? {
      assert [s.queue[0]] + s.queue[1..] == s.queue;
      assert s.received + [s.queue[0]] + s.queue[1..] == s.received + ([s.queue[0]] + s.queue[1..]);
    }
  }

  lemma {:induction false} RunInOrder(s: State, steps: seq<Step>)
    requires Inv(s) && InOrder(s) && CanRun(s, steps)
    ensures InOrder(Exec(s, steps))
    decreases |steps|
  {
    hide Inv, Do, Enabled, InOrder;
    if steps != [] {
      StepInv(s, steps[0]);
      assert |s.queue| <= s.cap by { QueueFits(s); }
      StepInOrder(s, steps[0]);
      RunInOrder(Do(s, steps[0]), steps[1..]);
    }
  }

  lemma {:induction false} QueueFits(s: State)
    requires Inv(s)
    ensures |s.queue| <= s.cap
  {
  }

  /** Jobs leave the queue in the order in which they were accepted, whoever takes them. */
  lemma {:induction false} FirstInFirstOut(s: State, size: nat, cap: nat, steps: seq<Step>)
    requires Init(s, size, cap) && CanRun(s, steps)
    ensures Exec(s, steps).accepted == Exec(s, steps).received + Exec(s, steps).queue
  {
    hide Inv, Do, Enabled;
    InitInv(s, size, cap);
    RunInOrder(s, steps);
  }

  /** A worker leaves only a closed and empty channel, and nothing comes after. */
  ghost predicate LeftEmpty(s: State) {
    forall w :: 0 <= w < |s.workers| && s.workers[w].Exited? ==> s.closed && s.queue == []
  }

  lemma {:induction false} StepLeftEmpty(s: State, step: Step)
    requires LeftEmpty(s) && Enabled(s, step)
    ensures LeftEmpty(Do(s, step))
  {
    hide Disconnected;
    StepMoves(s, step);
  }

  /** In every run workers go home, unless a panic takes them, only when all that was queued is taken. */
  lemma {:induction false} NothingLeftBehind(s: State, steps: seq<Step>, w: nat)
    requires LeftEmpty(s) && CanRun(s, steps)
    requires w < |Exec(s, steps).workers| && Exec(s, steps).workers[w].Exited?
    ensures Exec(s, steps).closed && Exec(s, steps).queue == []
    decreases |steps|
  {
    hide Do, Enabled;
    if steps != [] {
      StepLeftEmpty(s, steps[0]);
      NothingLeftBehind(Do(s, steps[0]), steps[1..], w);
    }
  }

  // ---- what `drain` can and cannot conclude ----

  lemma {:induction false} CountedNone(ws: seq<Worker>)
    ensures CountedOnes(ws) == 0 <==> forall i :: 0 <= i < |ws| ==> !Counts(ws[i])
  {
    if ws != [] {
      CountedNone(ws[..|ws| - 1]);
    }
  }

  /** `drain` returns exactly when no worker is between the two updates of `in_flight` and none has panicked. */
  lemma {:induction false} DrainedExactly(s: State)
    requires Inv(s)
    ensures s.inFlight == 0 <==> forall i :: 0 <= i < |s.workers| ==> !Counts(s.workers[i])
  {
    CountedNone(s.workers);
  }

  lemma {:induction false} HeldNone(ws: seq<Worker>, j: Job)
    requires forall i :: 0 <= i < |ws| ==> !ws[i].Took? && !ws[i].Counted?
    ensures Held(ws, j) == 0
  {
    if ws != [] {
      HeldNone(ws[..|ws| - 1], j);
    }
  }

  /** A job that waits anywhere has neither run nor come back. */
  lemma {:induction false} WaitingIsUnfinished(s: State, j: Job)
    requires Inv(s) && Waits(s, j) >= 1
    ensures j in s.cells && j !in s.ran && j !in s.returned
  {
    hide Waits;
    assert JobOk(s, j);
  }

  /**
  A drained pool has finished or returned every job submitted if and only if
  none is queued, none refused and not yet taken back, and none just received.
  */
  lemma {:induction false} DrainedHasFinishedExactly(s: State)
    requires Inv(s) && s.inFlight == 0
    ensures (forall j :: j in s.cells ==> j in s.ran || j in s.returned) <==>
            s.queue == [] && s.refused == {} && forall i :: 0 <= i < |s.workers| ==> !s.workers[i].Took?
  {
    hide JobOk, Held;
    CountedNone(s.workers);
    if s.queue != [] {
      var j := s.queue[0];
      assert j in multiset(s.queue);
      WaitingIsUnfinished(s, j);
    } else if s.refused != {} {
      var j :| j in s.refused;
      WaitingIsUnfinished(s, j);
    } else if i :| 0 <= i < |s.workers| && s.workers[i].Took? {
      var j := s.workers[i].job;
      HeldHas(s.workers, i, j);
      WaitingIsUnfinished(s, j);
    } else {
      forall j | j in s.cells ensures j in s.ran || j in s.returned {
        assert JobOk(s, j);
        HeldNone(s.workers, j);
        PlacesLeft(s, j);
      }
    }
  }

  lemma {:induction false} PlacesLeft(s: State, j: Job)
    requires JobOk(s, j) && j in s.cells && Waits(s, j) == 0
    ensures j in s.ran || j in s.returned
  {
    assert j in multiset(s.ran) || j in multiset(s.returned);
  }

  /** So it says nothing about queued jobs: right after a submit the pool is drained with the job still waiting. */
  lemma {:induction false} DrainMissesQueuedJobs(s: State, size: nat, cap: nat, job: Job)
    requires Init(s, size, cap) && size > 0 && cap > 0
    ensures CanRun(s, [Submit(job)])
    ensures var e := Exec(s, [Submit(job)]); e.inFlight == 0 && e.queue == [job] && e.ran == []
  {
    assert s.workers[0] == Waiting;
    assert [Submit(job)][1..] == [];
    assert Exec(s, [Submit(job)]) == Do(s, Submit(job));
  }

  /** After a panic it never returns: nothing lowers the count the job raised. */
  lemma {:induction false} PanicBlocksDrain(s: State, steps: seq<Step>, w: nat)
    requires Inv(s) && CanRun(s, steps) && At(s, w, Panicked)
    ensures Exec(s, steps).inFlight > 0 && At(Exec(s, steps), w, Panicked)
    decreases |steps|
  {
    hide Inv;
    if steps == [] {
      assert CountedOnes(s.workers) == s.inFlight by { InvCounts(s); }
      CountedAtLeast(s.workers, w);
    } else {
      StepInv(s, steps[0]);
      PanicBlocksDrain(Do(s, steps[0]), steps[1..], w);
    }
  }

  lemma {:induction false} InvCounts(s: State)
    requires Inv(s)
    ensures s.inFlight == CountedOnes(s.workers)
  {
  }

  // ---- the code ----

  class ThreadPool {
    var world: State

    /** `Some(job)` gives the resource back to the caller. */
    method TrySubmit(job: Job) returns (back: Option<Job>)
      requires Inv(world) && !world.closed && job !in world.cells
      modifies this
      ensures Inv(world)
      ensures back == None || back == Some(job)
      ensures back.Some? <==>
                old((|world.queue| >= world.cap
                     || forall w :: 0 <= w < |world.workers| ==> world.workers[w].Panicked? || world.workers[w].Exited?)
                    && (world.cap == 0 ==> forall w :: 0 <= w < |world.workers| ==> !world.workers[w].Receiving?))
      ensures back.Some? ==>
                world == old(world).(cells := old(world.cells)[job := false], returned := old(world.returned) + [job])
      ensures back.None? ==> Waits(world, job) == 1 && world.cells == old(world.cells)[job := true]
    {
      hide Inv, Held;
      ghost var before := world;
      NotThereYet(world, job);
      StepInv(world, Submit(job));
      world := Do(world, Submit(job));
      back := None;
      if job in world.refused {
        UnwrapsNeverFail(world, TakeBack(job));
        StepInv(world, TakeBack(job));
        world := Do(world, TakeBack(job));
        assert before.refused + {job} - {job} == before.refused;
        back := Some(job);
      } else {
        WaitsOnce(world, job);
      }
    }
  }

  lemma {:induction false} NotThereYet(s: State, job: Job)
    requires Inv(s) && job !in s.cells
    ensures job !in s.refused
  {
    assert JobOk(s, job);
  }

  lemma {:induction false} WaitsOnce(s: State, job: Job)
    requires Inv(s) && job in s.cells && s.cells[job]
    ensures Waits(s, job) == 1
  {
    assert JobOk(s, job);
  }
}
