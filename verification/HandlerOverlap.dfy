/**
 One DELETE and one PUT config handler whose steps interleave in any way
 (`src/engine_ops.rs`, `src/server.rs`).
 */
module HandlerOverlap {
  import opened Generations

  /** Where in a run the DELETE resolves its generation, writes and swaps, and where the PUT reads the
      counters, writes and swaps. */
  datatype Positions = Positions(begin: nat, persist: nat, swap: nat, read: nat, write: nat, swapPut: nat)

  /** The run holds one DELETE of `r` and one PUT, both writes working, among any other steps of other
      tasks, and no crash. */
  predicate OneOfEach(steps: seq<Step>, r: Repo, at: Positions) {
    && at.begin < at.persist < at.swap < |steps| && at.read < at.write < at.swapPut < |steps|
    && (forall i :: 0 <= i < |steps| ==> IsAt(steps[i], i, r, at))
  }

  predicate IsAt(step: Step, i: nat, r: Repo, at: Positions) {
    && (step.BeginDelete? <==> i == at.begin) && (step.BeginDelete? ==> step.repo == r)
    && (step.PersistDelete? <==> i == at.persist) && (step.PersistDelete? ==> step.outcome.Works?)
    && (step.SwapDelete? <==> i == at.swap)
    && (step.BeginPut? <==> i == at.read)
    && (step.PersistPut? <==> i == at.write) && (step.PersistPut? ==> step.outcome.Works?)
    && (step.SwapPut? <==> i == at.swapPut)
    && !step.Crash?
  }

  /** What the PUT reads, when the counter was `g` before both. */
  function Read(at: Positions, g: nat): nat {
    if at.swap < at.read then SaturatingNext(g) else g
  }

  ghost predicate DeletePhase(s: State, r: Repo, g: nat, at: Positions, k: nat) {
    if k <= at.begin then s.del.NoDelete?
    else if k <= at.persist then
      && (s.del.Resolved? || s.del.Closed? || s.del.Prepared?) && s.del.repo == r && s.del.prior == g
      && (s.del.Prepared? ==> GenOf(s.del.toWrite, r) == SaturatingNext(g))
    else if k <= at.swap then s.del.Persisted? && s.del.repo == r && s.del.prior == g
    else s.del.NoDelete? || s.del.Swapped?
  }

  ghost predicate PutPhase(s: State, r: Repo, g: nat, at: Positions, k: nat) {
    if k <= at.read || at.swapPut < k then s.put.NoPut?
    else if k <= at.write then s.put.Checked? && GenOf(s.put.saved, r) == Read(at, g)
    else s.put.Saved? && GenOf(s.put.saved, r) == Read(at, g)
  }

  ghost predicate MemoryPhase(s: State, r: Repo, g: nat, at: Positions, k: nat) {
    GenOf(s.memory, r)
    == if k <= at.swap then g
       else if at.swap < at.swapPut < k then Read(at, g)
       else SaturatingNext(g)
  }

  /** The disk holds what the later of the writes so far wrote. */
  ghost predicate DiskPhase(s: State, r: Repo, g: nat, at: Positions, k: nat) {
    if at.persist < k && (k <= at.write || at.write < at.persist) then GenOf(s.disk, r) == SaturatingNext(g)
    else at.persist < at.write < k ==> GenOf(s.disk, r) == Read(at, g)
  }

  ghost predicate Phase(s: State, r: Repo, g: nat, at: Positions, k: nat) {
    DeletePhase(s, r, g, at, k) && PutPhase(s, r, g, at, k) && MemoryPhase(s, r, g, at, k) && DiskPhase(s, r, g, at, k)
  }

  lemma PhaseStep(s: State, step: Step, r: Repo, g: nat, at: Positions, k: nat)
    requires at.begin < at.persist < at.swap && at.read < at.write < at.swapPut
    requires Phase(s, r, g, at, k) && Enabled(s, step) && IsAt(step, k, r, at)
    ensures Phase(After(s, step), r, g, at, k + 1)
  {
  }

  lemma {:induction false} PhaseRun(s: State, steps: seq<Step>, k: nat, t: State, r: Repo, g: nat, at: Positions)
    requires k <= |steps| && OneOfEach(steps, r, at) && Run(s, steps[k..], t, false) && Phase(s, r, g, at, k)
    ensures Phase(t, r, g, at, |steps|)
    decreases |steps| - k
  {
    if k < |steps| {
      assert steps[k..][0] == steps[k] && steps[k..][1..] == steps[k + 1..];
      PhaseStep(s, steps[k], r, g, at, k);
      PhaseRun(After(s, steps[k]), steps, k + 1, t, r, g, at);
    }
  }

  /** In every interleaving the bump survives on disk exactly when the PUT wrote before the DELETE's write
      or read the counters after its swap, and in memory exactly when the PUT swapped before the DELETE
      swapped or read after; otherwise the old counter is back. */
  lemma BumpSurvivesExactly(s: State, steps: seq<Step>, t: State, r: Repo, at: Positions)
    requires s.del.NoDelete? && s.put.NoPut? && GenOf(s.memory, r) < U32_MAX
    requires OneOfEach(steps, r, at) && Run(s, steps, t, false)
    ensures var g := GenOf(s.memory, r);
            && GenOf(t.disk, r) == (if at.write < at.persist || at.swap < at.read then g + 1 else g)
            && GenOf(t.memory, r) == (if at.swapPut < at.swap || at.swap < at.read then g + 1 else g)
  {
    assert steps[0..] == steps;
    assert IsAt(steps[at.persist], at.persist, r, at) && at.persist != at.write;
    assert IsAt(steps[at.swap], at.swap, r, at) && at.swap != at.swapPut && at.swap != at.read;
    PhaseRun(s, steps, 0, t, r, GenOf(s.memory, r), at);
  }
}
