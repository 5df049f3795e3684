/**
The code of the log file: `write_all`, `reopen` and `reopen_in`, each shown to
be a run of the steps of `LogReopen`. `accept` and `opens` stand for what the
operating system answers.
*/
module LogFile {
  import opened Bytes
  import opened LogReopen

  datatype Reopened = NoFile | Done | Failed

  lemma {:induction false} EmptyRun(live: Name, s: State)
    ensures CanRun(live, s, []) && Exec(live, s, []) == s
  {
  }

  /** The state with `done` bytes of `line` out. */
  function MidLine(s: State, t: Tid, line: seq<byte>, done: nat): State
    requires s.handle < |s.files| && done <= |line|
  {
    s.(lock := Some(t), pcs := s.pcs[t := Writing(line, done)],
       files := s.files[s.handle := s.files[s.handle] + line[..done]])
  }

  lemma {:induction false} AtLineStart(live: Name, s: State, t: Tid, line: seq<byte>)
    requires Inv(live, s) && s.lock.None?
    ensures Enabled(live, s, BeginWrite(t, line)) && s.handle < |s.files| == |s.pieces|
    ensures Do(live, s, BeginWrite(t, line)) == MidLine(s, t, line, 0)
  {
    assert s.files[s.handle] + line[..0] == s.files[s.handle];
    assert s.files[s.handle := s.files[s.handle]] == s.files;
  }

  lemma {:induction false} WriteSomeMidLine(live: Name, s: State, t: Tid, line: seq<byte>, done: nat, n: nat)
    requires s.handle < |s.files| && 0 < n && done + n <= |line|
    ensures Enabled(live, MidLine(s, t, line, done), WriteSome(t, n))
    ensures Do(live, MidLine(s, t, line, done), WriteSome(t, n)) == MidLine(s, t, line, done + n)
  {
    var was := s.files[s.handle];
    assert was + line[..done] + line[done..done + n] == was + line[..done + n];
    assert s.files[s.handle := was + line[..done]][s.handle := was + line[..done + n]]
        == s.files[s.handle := was + line[..done + n]];
    assert s.pcs[t := Writing(line, done)][t := Writing(line, done + n)] == s.pcs[t := Writing(line, done + n)];
  }

  lemma {:induction false} InMidLine(live: Name, s: State, t: Tid, line: seq<byte>, done: nat)
    requires s.handle < |s.files| == |s.pieces| && done <= |line|
    ensures var m := MidLine(s, t, line, done);
            && Enabled(live, m, EndWrite(t)) == (done == |line|)
            && Enabled(live, m, FailWrite(t)) == (done < |line|)
            && PcOf(m, t) == Writing(line, done)
  {
  }

  /** Counters of the reopens, zero meaning never. */
  class ReopenRecord {
    var ok: nat
    var failed: nat

    constructor ()
      ensures ok == 0 && failed == 0
    {
      ok, failed := 0, 0;
    }
  }

  class ReopenableFile {
    const live: Name
    var world: State

    constructor (live: Name, world: State)
      requires Init(live, world)
      ensures this.live == live && this.world == world && Inv(live, world)
    {
      this.live := live;
      this.world := world;
      InitInv(live, world);
    }

    /** What one call did, as a run of the shared steps. */
    ghost predicate Ran(before: State, steps: seq<Step>)
      reads this
    {
      CanRun(live, before, steps) && world == Exec(live, before, steps) && Inv(live, world)
    }

    method Take(ghost before: State, ghost steps: seq<Step>, step: Step)
      requires Ran(before, steps) && Enabled(live, world, step)
      modifies this`world
      ensures Ran(before, steps + [step])
      ensures world == Do(live, old(world), step)
    {
      RunSnoc(live, before, steps, step);
      StepInv(live, world, step);
      world := Do(live, world, step);
    }

    /** One line under one lock. The n-th `write` takes up to `accept(n)` bytes or fails; `sent` bytes got out. */
    method WriteAll(t: Tid, line: seq<byte>, accept: nat -> Option<nat>) returns (sent: nat, ghost steps: seq<Step>)
      requires Inv(live, world) && world.lock.None?
      modifies this`world
      ensures Ran(old(world), steps)
      ensures sent <= |line| && ((forall k :: accept(k).Some? && accept(k).value > 0) ==> sent == |line|)
      ensures old(world.handle) < |old(world.files)|
      ensures world.lock.None? && world.handle == old(world.handle) && world.dir == old(world.dir)
      ensures world.log == old(world.log) + [line[..sent]]
      ensures world.files == old(world.files)[world.handle := old(world.files)[world.handle] + line[..sent]]
    {
      hide Exec, CanRun, Inv;
      ghost var before := world;
      AtLineStart(live, before, t, line);
      steps := [];
      assert Exec(live, before, []) == before && CanRun(live, before, []) by { EmptyRun(live, before); }
      Take(before, steps, BeginWrite(t, line));
      steps := steps + [BeginWrite(t, line)];
      sent := 0;
      var n := 0;
      while sent < |line|
        invariant Ran(before, steps) && sent <= |line|
        invariant world == MidLine(before, t, line, sent)
      {
        var got := accept(n);
        n := n + 1;
        InMidLine(live, before, t, line, sent);
        if got.None? || got.value == 0 {
          Take(before, steps, FailWrite(t));
          steps := steps + [FailWrite(t)];
          return;
        }
        var k := if got.value <= |line| - sent then got.value else |line| - sent;
        WriteSomeMidLine(live, before, t, line, sent, k);
        Take(before, steps, WriteSome(t, k));
        steps := steps + [WriteSome(t, k)];
        sent := sent + k;
      }
      InMidLine(live, before, t, line, sent);
      assert line[..sent] == line;
      Take(before, steps, EndWrite(t));
      steps := steps + [EndWrite(t)];
    }

    /** Open the path afresh and swap it in; if the open fails the old handle stays. */
    method Reopen(t: Tid, opens: bool) returns (good: bool, ghost steps: seq<Step>)
      requires Inv(live, world) && world.lock.None?
      modifies this`world
      ensures Ran(old(world), steps) && world.lock.None? && world.log == old(world.log)
      ensures good == opens
      ensures opens ==> live in world.dir && world.handle == world.dir[live]
      ensures old(live in world.dir) ==> world.files == old(world.files) && world.handle == old(world.handle)
      ensures opens && old(live !in world.dir) ==> world.files == old(world.files) + [[]]
      ensures !opens ==> world.files == old(world.files) && world.handle == old(world.handle) && world.dir == old(world.dir)
    {
      ghost var before := world;
      steps := [];
      Take(before, steps, BeginReopen(t));
      steps := steps + [BeginReopen(t)];
      if !opens {
        Take(before, steps, OpenFails(t));
        steps := steps + [OpenFails(t)];
        return false, steps;
      }
      Take(before, steps, OpenOk(t));
      steps := steps + [OpenOk(t)];
      Take(before, steps, Swap(t));
      steps := steps + [Swap(t)];
      good := true;
    }
  }

  /** A reopen request: what it did is what is counted. */
  method ReopenIn(slot: ReopenableFile?, rec: ReopenRecord, t: Tid, opens: bool) returns (r: Reopened)
    requires slot != null ==> Inv(slot.live, slot.world) && slot.world.lock.None?
    modifies rec, slot
    ensures r == if slot == null then NoFile else if opens then Done else Failed
    ensures rec.ok == old(rec.ok) + (if r == Done then 1 else 0)
    ensures rec.failed == old(rec.failed) + (if r == Failed then 1 else 0)
    ensures slot != null ==> Inv(slot.live, slot.world) && slot.world.lock.None?
    ensures r == Done ==> slot.live in slot.world.dir && slot.world.handle == slot.world.dir[slot.live]
    ensures r == Failed ==> slot.world.handle == old(slot.world.handle) && slot.world.files == old(slot.world.files)
  {
    if slot == null {
      return NoFile;
    }
    var good, _ := slot.Reopen(t, opens);
    if good {
      rec.ok := rec.ok + 1;
      r := Done;
    } else {
      rec.failed := rec.failed + 1;
      r := Failed;
    }
  }
}
