/**
Reopening the analytics log while a rotation tool renames it.

Any number of threads write lines or reopen the path; a rotation tool renames
the live path to fresh names whenever it likes. One lock serialises writers and
reopeners. `Step` lists the atomic steps of all of them and a run is any
sequence of enabled steps, so every interleaving is covered. Files are numbered
in the order in which they came to be the live file.
*/
module LogReopen {
  import opened Bytes

  type Tid = nat
  type Name = string

  datatype Pc =
    | Idle
    | Writing(line: seq<byte>, done: nat)  // inside `write_all`, holding the lock
    | Reopening                            // inside `reopen`, holding the lock, path not opened yet
    | Opened(file: nat)                    // the fresh handle is in hand, the old one still in place

  /**
  `dir` and `files` are the file system, `handle`, `lock` and `pcs` the process.
  `base`, `pieces` and `log` are history: what each file held to begin with, what
  each write left in it, and what the writes left, in the order they were made.
  */
  datatype State = State(
    dir: map<Name, nat>, files: seq<seq<byte>>, handle: nat, lock: Option<Tid>, pcs: map<Tid, Pc>,
    base: seq<seq<byte>>, pieces: seq<seq<seq<byte>>>, log: seq<seq<byte>>)

  datatype Step =
    | BeginWrite(t: Tid, line: seq<byte>)  // take the lock for one line
    | WriteSome(t: Tid, n: nat)            // one `write` call took `n` bytes
    | EndWrite(t: Tid)                     // the whole line is out; release
    | FailWrite(t: Tid)                    // a `write` call failed; release
    | BeginReopen(t: Tid)                  // take the lock
    | OpenOk(t: Tid)                       // open the path, creating it if it is not there
    | OpenFails(t: Tid)                    // the open failed; release
    | Swap(t: Tid)                         // replace the handle; release
    | Rename(name: Name)                   // the rotation tool

  function PcOf(s: State, t: Tid): Pc { if t in s.pcs then s.pcs[t] else Idle }

  predicate Enabled(live: Name, s: State, step: Step) {
    match step
    case BeginWrite(t, _) => s.lock.None? && PcOf(s, t) == Idle
    case WriteSome(t, n) =>
      PcOf(s, t).Writing? && 0 < n && PcOf(s, t).done + n <= |PcOf(s, t).line| && s.handle < |s.files|
    case EndWrite(t) => PcOf(s, t).Writing? && PcOf(s, t).done == |PcOf(s, t).line| && s.handle < |s.pieces|
    case FailWrite(t) => PcOf(s, t).Writing? && PcOf(s, t).done < |PcOf(s, t).line| && s.handle < |s.pieces|
    case BeginReopen(t) => s.lock.None? && PcOf(s, t) == Idle
    case OpenOk(t) => PcOf(s, t).Reopening?
    case OpenFails(t) => PcOf(s, t).Reopening?
    case Swap(t) => PcOf(s, t).Opened?
    case Rename(name) => live in s.dir && name !in s.dir && name != live
  }

  /** Leaving the lock with `piece` as what this write left in the file. */
  function Finish(s: State, t: Tid, piece: seq<byte>): State
    requires s.handle < |s.pieces|
  {
    s.(lock := None, pcs := s.pcs[t := Idle],
       pieces := s.pieces[s.handle := s.pieces[s.handle] + [piece]], log := s.log + [piece])
  }

  function Do(live: Name, s: State, step: Step): State
    requires Enabled(live, s, step)
  {
    match step
    case BeginWrite(t, line) => s.(lock := Some(t), pcs := s.pcs[t := Writing(line, 0)])
    case WriteSome(t, n) =>
      var Writing(line, done) := PcOf(s, t);
      s.(files := s.files[s.handle := s.files[s.handle] + line[done..done + n]],
         pcs := s.pcs[t := Writing(line, done + n)])
    case EndWrite(t) => Finish(s, t, PcOf(s, t).line)
    case FailWrite(t) => Finish(s, t, PcOf(s, t).line[..PcOf(s, t).done])
    case BeginReopen(t) => s.(lock := Some(t), pcs := s.pcs[t := Reopening])
    case OpenOk(t) =>
      if live in s.dir then s.(pcs := s.pcs[t := Opened(s.dir[live])])
      else
        var n := |s.files|;
        s.(dir := s.dir[live := n], files := s.files + [[]], base := s.base + [[]], pieces := s.pieces + [[]],
           pcs := s.pcs[t := Opened(n)])
    case OpenFails(t) => s.(lock := None, pcs := s.pcs[t := Idle])
    case Swap(t) => s.(handle := PcOf(s, t).file, lock := None, pcs := s.pcs[t := Idle])
    case Rename(name) => s.(dir := (s.dir - {live})[name := s.dir[live]])
  }

  predicate CanRun(live: Name, s: State, steps: seq<Step>)
    decreases |steps|
  {
    steps == [] || (Enabled(live, s, steps[0]) && CanRun(live, Do(live, s, steps[0]), steps[1..]))
  }

  function Exec(live: Name, s: State, steps: seq<Step>): State
    requires CanRun(live, s, steps)
    decreases |steps|
  {
    if steps == [] then s else Exec(live, Do(live, s, steps[0]), steps[1..])
  }

  // ---- the invariant ----

  function Flatten(ps: seq<seq<byte>>): seq<byte> {
    if ps == [] then [] else Flatten(ps[..|ps| - 1]) + ps[|ps| - 1]
  }

  function Concat(pss: seq<seq<seq<byte>>>): seq<seq<byte>> {
    if pss == [] then [] else Concat(pss[..|pss| - 1]) + pss[|pss| - 1]
  }

  /** The bytes of the line being written that are already in file `i`. */
  function Partial(s: State, i: nat): seq<byte> {
    if s.lock.Some? && PcOf(s, s.lock.value).Writing? && i == s.handle
       && PcOf(s, s.lock.value).done <= |PcOf(s, s.lock.value).line|
    then PcOf(s, s.lock.value).line[..PcOf(s, s.lock.value).done]
    else []
  }

  /** Exactly the lock holder is busy. */
  ghost predicate LockOk(s: State) {
    forall t: Tid :: PcOf(s, t) != Idle <==> s.lock == Some(t)
  }

  /** The newest file is the live one, and the handle is on it unless it is about to be swapped in. */
  ghost predicate NewestOk(live: Name, s: State) {
    && s.files != [] && |s.base| == |s.files| && |s.pieces| == |s.files| && s.handle < |s.files|
    && (live in s.dir ==> s.dir[live] == |s.files| - 1)
    && (s.handle == |s.files| - 1
        || (s.lock.Some? && PcOf(s, s.lock.value).Opened? && s.handle == |s.files| - 2 && s.pieces[|s.files| - 1] == []))
    && (s.lock.Some? && PcOf(s, s.lock.value).Opened? ==> PcOf(s, s.lock.value).file == |s.files| - 1)
    && (s.lock.Some? && PcOf(s, s.lock.value).Writing? ==>
          PcOf(s, s.lock.value).done <= |PcOf(s, s.lock.value).line|)
  }

  /** Every file holds what it began with and then whole writes, nothing else, bar the line in progress. */
  ghost predicate ContentsOk(s: State)
    requires |s.base| == |s.files| == |s.pieces|
  {
    forall i :: 0 <= i < |s.files| ==> s.files[i] == s.base[i] + Flatten(s.pieces[i]) + Partial(s, i)
  }

  ghost predicate Inv(live: Name, s: State) {
    && LockOk(s) && NewestOk(live, s) && ContentsOk(s)
    && s.log == Concat(s.pieces)
  }

  /** The process has just opened the live path; other files may be there already. */
  ghost predicate Init(live: Name, s: State) {
    && s.files != [] && s.base == s.files && s.handle == |s.files| - 1
    && live in s.dir && s.dir[live] == s.handle
    && s.lock.None? && s.pcs == map[]
    && s.pieces == seq(|s.files|, i => []) && s.log == []
  }

  lemma {:induction false} ConcatEmpty(n: nat)
    ensures Concat(seq(n, i => [])) == []
  {
    var pss: seq<seq<seq<byte>>> := seq(n, i => []);
    if n > 0 {
      assert pss[..n - 1] == seq(n - 1, i => []);
      ConcatEmpty(n - 1);
    }
  }

  lemma {:induction false} InitInv(live: Name, s: State)
    requires Init(live, s)
    ensures Inv(live, s)
  {
    ConcatEmpty(|s.files|);
    assert forall i :: 0 <= i < |s.files| ==> s.pieces[i] == [];
  }

  lemma {:induction false} StepLock(live: Name, s: State, step: Step)
    requires LockOk(s) && Enabled(live, s, step)
    ensures LockOk(Do(live, s, step))
  {
  }

  lemma {:induction false} StepNewest(live: Name, s: State, step: Step)
    requires LockOk(s) && NewestOk(live, s) && Enabled(live, s, step)
    ensures NewestOk(live, Do(live, s, step))
  {
    assert step.WriteSome? || step.EndWrite? || step.FailWrite? || step.OpenOk? || step.OpenFails? || step.Swap? ==>
        s.lock == Some(step.t);
  }

  /** A line is appended where the handle points, whole or as far as it got. */
  lemma {:induction false} StepContents(live: Name, s: State, step: Step)
    requires LockOk(s) && NewestOk(live, s) && ContentsOk(s) && Enabled(live, s, step)
    ensures NewestOk(live, Do(live, s, step)) && ContentsOk(Do(live, s, step))
  {
    hide LockOk;
    StepNewest(live, s, step);
    var s' := Do(live, s, step);
    assert step.WriteSome? || step.EndWrite? || step.FailWrite? || step.OpenOk? || step.OpenFails? || step.Swap? ==>
        s.lock == Some(step.t) by { HolderSteps(live, s, step); }
    forall i | 0 <= i < |s'.files|
      ensures s'.files[i] == s'.base[i] + Flatten(s'.pieces[i]) + Partial(s', i)
    {
      if i < |s.files| {
        assert s.files[i] == s.base[i] + Flatten(s.pieces[i]) + Partial(s, i);
        match step
        case WriteSome(t, n) =>
          if i == s.handle {
            var Writing(line, done) := PcOf(s, t);
            assert line[..done] + line[done..done + n] == line[..done + n];
          }
        case EndWrite(t) => FinishContents(s, t, PcOf(s, t).line, i);
        case FailWrite(t) => FinishContents(s, t, PcOf(s, t).line[..PcOf(s, t).done], i);
        case _ =>
      }
    }
  }

  lemma {:induction false} HolderSteps(live: Name, s: State, step: Step)
    requires LockOk(s) && Enabled(live, s, step)
    ensures step.WriteSome? || step.EndWrite? || step.FailWrite? || step.OpenOk? || step.OpenFails? || step.Swap? ==>
              s.lock == Some(step.t)
  {
  }

  lemma {:induction false} FinishContents(s: State, t: Tid, piece: seq<byte>, i: nat)
    requires s.handle < |s.pieces| == |s.files| && |s.base| == |s.files| && i < |s.files|
    requires s.files[i] == s.base[i] + Flatten(s.pieces[i]) + (if i == s.handle then piece else [])
    ensures var s' := Finish(s, t, piece);
            s'.files[i] == s'.base[i] + Flatten(s'.pieces[i]) + []
  {
    if i == s.handle {
      var ps := s.pieces[i] + [piece];
      assert ps[..|ps| - 1] == s.pieces[i];
      assert s.base[i] + Flatten(s.pieces[i]) + piece == s.base[i] + Flatten(ps);
    }
  }

  lemma {:induction false} StepLog(live: Name, s: State, step: Step)
    requires LockOk(s) && NewestOk(live, s) && s.log == Concat(s.pieces) && Enabled(live, s, step)
    ensures Do(live, s, step).log == Concat(Do(live, s, step).pieces)
  {
    var s' := Do(live, s, step);
    match step
    case EndWrite(t) => ConcatSnoc(s.pieces, PcOf(s, t).line);
    case FailWrite(t) => ConcatSnoc(s.pieces, PcOf(s, t).line[..PcOf(s, t).done]);
    case OpenOk(t) => assert live !in s.dir ==> s'.pieces[..|s'.pieces| - 1] == s.pieces;
    case _ =>
  }

  lemma {:induction false} ConcatSnoc(pss: seq<seq<seq<byte>>>, piece: seq<byte>)
    requires pss != []
    ensures var k := |pss| - 1; Concat(pss[k := pss[k] + [piece]]) == Concat(pss) + [piece]
  {
    var k := |pss| - 1;
    var pss' := pss[k := pss[k] + [piece]];
    assert pss'[..k] == pss[..k];
  }

  lemma {:induction false} StepInv(live: Name, s: State, step: Step)
    requires Inv(live, s) && Enabled(live, s, step)
    ensures Inv(live, Do(live, s, step))
  {
    StepLock(live, s, step);
    StepContents(live, s, step);
    StepLog(live, s, step);
  }

  lemma {:induction false} RunInv(live: Name, s: State, steps: seq<Step>)
    requires Inv(live, s) && CanRun(live, s, steps)
    ensures Inv(live, Exec(live, s, steps))
    decreases |steps|
  {
    hide Inv, Do, Enabled;
    if steps != [] {
      StepInv(live, s, steps[0]);
      RunInv(live, Do(live, s, steps[0]), steps[1..]);
    }
  }

  // ---- what a run guarantees ----

  /** The lines whose writes ended in `steps`, as they were left in the file. */
  function Landed(live: Name, s: State, steps: seq<Step>): seq<seq<byte>>
    requires CanRun(live, s, steps)
    decreases |steps|
  {
    if steps == [] then []
    else
      (match steps[0]
       case EndWrite(t) => [PcOf(s, t).line]
       case FailWrite(t) => [PcOf(s, t).line[..PcOf(s, t).done]]
       case _ => []) + Landed(live, Do(live, s, steps[0]), steps[1..])
  }

  lemma {:induction false} LogIsLanded(live: Name, s: State, steps: seq<Step>)
    requires CanRun(live, s, steps)
    ensures Exec(live, s, steps).log == s.log + Landed(live, s, steps)
    decreases |steps|
  {
    if steps != [] {
      var s' := Do(live, s, steps[0]);
      LogIsLanded(live, s', steps[1..]);
      assert s'.log + Landed(live, s', steps[1..]) == s.log + Landed(live, s, steps);
    }
  }

  /**
  Every line written lands once, in one file, in write order: reading the
  writes file by file in the order the files went live gives them in the order
  they were made, and a file is what it held before followed by its writes.
  */
  lemma {:induction false} EveryLineLandsOnce(live: Name, s: State, steps: seq<Step>)
    requires Init(live, s) && CanRun(live, s, steps)
    ensures var e := Exec(live, s, steps);
            && |e.files| == |e.base| == |e.pieces| && s.files <= e.base
            && (forall i :: |s.files| <= i < |e.base| ==> e.base[i] == [])
            && Concat(e.pieces) == Landed(live, s, steps)
            && forall i :: 0 <= i < |e.files| ==>
                 e.files[i] == e.base[i] + Flatten(e.pieces[i]) + Partial(e, i)
  {
    InitInv(live, s);
    RunInv(live, s, steps);
    LogIsLanded(live, s, steps);
    BaseGrows(live, s, steps);
    assert [] + Landed(live, s, steps) == Landed(live, s, steps);
  }

  lemma {:induction false} BaseGrows(live: Name, s: State, steps: seq<Step>)
    requires CanRun(live, s, steps)
    ensures var e := Exec(live, s, steps);
            s.base <= e.base && forall i :: |s.base| <= i < |e.base| ==> e.base[i] == []
    decreases |steps|
  {
    if steps != [] {
      BaseGrows(live, Do(live, s, steps[0]), steps[1..]);
    }
  }

  /**
  Once the live path exists, every other file is finished: no run from there
  adds a byte to it. A rotation tool that sees the path again after its rename
  can take the renamed file away.
  */
  lemma {:induction false} RenamedFileIsFinished(live: Name, s: State, steps: seq<Step>, i: nat)
    requires Inv(live, s) && CanRun(live, s, steps)
    requires live in s.dir && i < |s.files| && i != s.dir[live]
    ensures i < |Exec(live, s, steps).files| && Exec(live, s, steps).files[i] == s.files[i]
  {
    OlderFilesFixed(live, s, steps, i);
  }

  lemma {:induction false} OlderFilesFixed(live: Name, s: State, steps: seq<Step>, i: nat)
    requires Inv(live, s) && CanRun(live, s, steps) && i + 1 < |s.files|
    ensures i < |Exec(live, s, steps).files| && Exec(live, s, steps).files[i] == s.files[i]
    decreases |steps|
  {
    hide ContentsOk;
    if steps != [] {
      var s' := Do(live, s, steps[0]);
      StepInv(live, s, steps[0]);
      HolderSteps(live, s, steps[0]);
      assert s'.files[i] == s.files[i] && |s.files| <= |s'.files|;
      OlderFilesFixed(live, s', steps[1..], i);
    }
  }

  /** A line is never split between two files: a reopen cannot begin while one is being written. */
  lemma {:induction false} NoSwapInsideALine(live: Name, s: State, step: Step, t: Tid)
    requires Inv(live, s) && Enabled(live, s, step) && PcOf(s, t).Writing?
    ensures Do(live, s, step).handle == s.handle
    ensures !step.BeginReopen? && !step.BeginWrite?
  {
    hide ContentsOk, NewestOk;
    HolderSteps(live, s, step);
  }

  /** The rename alone does not finish the file: until a reopen, lines still go to it. */
  lemma {:induction false} RenameAloneDoesNotFinish(live: Name, s: State, name: Name, line: seq<byte>)
    requires Init(live, s) && name !in s.dir && line != []
    ensures var steps := [Rename(name), BeginWrite(0, line), WriteSome(0, |line|), EndWrite(0)];
            && CanRun(live, s, steps)
            && var e := Exec(live, s, steps);
               && name in e.dir && e.dir[name] == s.dir[live] == s.handle < |e.files|
               && e.files[s.handle] == s.files[s.handle] + line
  {
    var steps := [Rename(name), BeginWrite(0, line), WriteSome(0, |line|), EndWrite(0)];
    var s1 := Do(live, s, steps[0]);
    var s2 := Do(live, s1, steps[1]);
    assert s2.pcs[0] == Writing(line, 0);
    var s3 := Do(live, s2, steps[2]);
    assert line[0..|line|] == line;
    assert s3.pcs[0] == Writing(line, |line|);
    var s4 := Do(live, s3, steps[3]);
    RunFour(live, s, steps, s1, s2, s3, s4);
  }

  lemma {:induction false} RunFour(live: Name, s: State, steps: seq<Step>, s1: State, s2: State, s3: State, s4: State)
    requires |steps| == 4
    requires Enabled(live, s, steps[0]) && s1 == Do(live, s, steps[0])
    requires Enabled(live, s1, steps[1]) && s2 == Do(live, s1, steps[1])
    requires Enabled(live, s2, steps[2]) && s3 == Do(live, s2, steps[2])
    requires Enabled(live, s3, steps[3]) && s4 == Do(live, s3, steps[3])
    ensures CanRun(live, s, steps) && Exec(live, s, steps) == s4
  {
    hide Do, Enabled;
    var a, b, c, d := steps[1..], steps[1..][1..], steps[1..][1..][1..], steps[1..][1..][1..][1..];
    assert d == [] && c[0] == steps[3] && b[0] == steps[2] && a[0] == steps[1];
    assert CanRun(live, s4, d) && Exec(live, s4, d) == s4;
    assert CanRun(live, s3, c) && Exec(live, s3, c) == s4;
    assert CanRun(live, s2, b) && Exec(live, s2, b) == s4;
    assert CanRun(live, s1, a) && Exec(live, s1, a) == s4;
  }

  lemma {:induction false} RunSnoc(live: Name, s: State, steps: seq<Step>, step: Step)
    requires CanRun(live, s, steps) && Enabled(live, Exec(live, s, steps), step)
    ensures CanRun(live, s, steps + [step])
    ensures Exec(live, s, steps + [step]) == Do(live, Exec(live, s, steps), step)
    decreases |steps|
  {
    hide Do, Enabled;
    var all := steps + [step];
    if steps == [] {
      assert all[1..] == [];
    } else {
      assert all[1..] == steps[1..] + [step];
      RunSnoc(live, Do(live, s, steps[0]), steps[1..], step);
    }
  }
}
