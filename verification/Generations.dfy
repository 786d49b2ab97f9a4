/**
 Index generations: the DELETE and PUT config handlers as crashable steps (`src/engine_ops.rs`,
 `src/server.rs`, `src/store/mod.rs`, `src/config.rs`).

 One step is one lock section, one settings write, or one directory removal. `removed` records every
 index directory ever deleted.
 */
module Generations {

  const U32_MAX: nat := 0xFFFF_FFFF

  datatype Repo = Repo(path: string)
  datatype Dir = Dir(repo: Repo, gen: nat)

  datatype Settings = Settings(repos: set<Repo>, gens: map<Repo, nat>)

  function GenOf(s: Settings, r: Repo): nat {
    if r in s.gens then s.gens[r] else 0
  }

  function SaturatingNext(g: nat): nat {
    if g >= U32_MAX then U32_MAX else g + 1
  }

  /** Where a DELETE stands; `prior` is the generation it resolved first. */
  datatype DeleteJob =
    | NoDelete
    | Resolved(repo: Repo, drop: bool, prior: nat)
    | Closed(repo: Repo, drop: bool, prior: nat)
    | Prepared(repo: Repo, drop: bool, prior: nat, toWrite: Settings)
    | Persisted(repo: Repo, drop: bool, prior: nat)
    | Swapped(repo: Repo, drop: bool, prior: nat)

  datatype PutJob = NoPut | Checked(saved: Settings) | Saved(saved: Settings)

  /** `openers` are the settings snapshots some task took and may still open with; `handles` is the
      process-wide cache of open databases, by repo. */
  datatype State = State(disk: Settings, memory: Settings, del: DeleteJob, put: PutJob,
                         openers: set<Dir>, handles: map<Repo, nat>, removed: set<Dir>)

  /** A settings write works, fails before the rename, or fails after it. */
  datatype Outcome = Works | FailsBefore | FailsAfter

  datatype Step =
    | BeginDelete(repo: Repo, drop: bool)
    | CloseHandle
    | CloneSettings
    | PersistDelete(outcome: Outcome)
    | SwapDelete
    | RemoveDir(ok: bool)
    | BeginPut(repos: set<Repo>)
    | PersistPut(outcome: Outcome)
    | SwapPut
    | TakeSnapshot(repo: Repo)
    | Open(snapshot: Dir)
    | Crash(swept: set<Dir>)

  /** What a DELETE writes: one settings value with the bump and, if asked for, the repo gone. */
  function Bumped(s: Settings, r: Repo, drop: bool, prior: nat): Settings {
    Settings(if drop then s.repos - {r} else s.repos, s.gens[r := SaturatingNext(prior)])
  }

  /** What the boot sweep may delete. */
  predicate Sweepable(s: Settings, d: Dir) {
    d.repo in s.repos && d.gen < GenOf(s, d.repo)
  }

  /** The code's own order of steps. */
  predicate Enabled(s: State, step: Step) {
    match step
    case BeginDelete(_, _) => s.del.NoDelete?
    case CloseHandle => s.del.Resolved?
    case CloneSettings => s.del.Closed?
    case PersistDelete(_) => s.del.Prepared?
    case SwapDelete => s.del.Persisted?
    case RemoveDir(_) => s.del.Swapped?
    case BeginPut(_) => s.put.NoPut?
    case PersistPut(_) => s.put.Checked?
    case SwapPut => s.put.Saved?
    case TakeSnapshot(_) => true
    case Open(snapshot) => snapshot in s.openers
    case Crash(swept) => forall d :: d in swept ==> Sweepable(s.disk, d)
  }

  /** The generation an open with `snapshot` gets a handle on: the cached one, if there is one. */
  function Opened(s: State, snapshot: Dir): nat {
    if snapshot.repo in s.handles then s.handles[snapshot.repo] else snapshot.gen
  }

  function After(s: State, step: Step): State
    requires Enabled(s, step)
  {
    match step
    case BeginDelete(r, drop) => s.(del := Resolved(r, drop, GenOf(s.memory, r)))
    case CloseHandle => s.(del := Closed(s.del.repo, s.del.drop, s.del.prior), handles := s.handles - {s.del.repo})
    case CloneSettings =>
      s.(del := Prepared(s.del.repo, s.del.drop, s.del.prior, Bumped(s.memory, s.del.repo, s.del.drop, s.del.prior)))
    case PersistDelete(outcome) =>
      var written := if outcome.FailsBefore? then s else s.(disk := s.del.toWrite);
      written.(del := if outcome.Works? then Persisted(s.del.repo, s.del.drop, s.del.prior) else NoDelete)
    case SwapDelete =>
      s.(memory := Bumped(s.memory, s.del.repo, s.del.drop, s.del.prior),
         del := Swapped(s.del.repo, s.del.drop, s.del.prior))
    case RemoveDir(ok) =>
      s.(del := NoDelete, removed := if ok then s.removed + {Dir(s.del.repo, s.del.prior)} else s.removed)
    case BeginPut(repos) => s.(put := Checked(Settings(repos, s.memory.gens)))
    case PersistPut(outcome) =>
      var written := if outcome.FailsBefore? then s else s.(disk := s.put.saved);
      written.(put := if outcome.Works? then Saved(s.put.saved) else NoPut)
    case SwapPut => s.(memory := s.put.saved, put := NoPut)
    case TakeSnapshot(r) => s.(openers := s.openers + {Dir(r, GenOf(s.memory, r))})
    case Open(snapshot) =>
      s.(openers := s.openers - {snapshot}, handles := s.handles[snapshot.repo := Opened(s, snapshot)])
    case Crash(swept) => State(s.disk, s.disk, NoDelete, NoPut, {}, map[], s.removed + swept)
  }

  /** Handlers do not overlap, and no counter is at its ceiling. */
  predicate Orderly(s: State, step: Step) {
    match step
    case BeginDelete(r, _) => s.put.NoPut? && GenOf(s.memory, r) < U32_MAX
    case BeginPut(_) => s.del.NoDelete?
    case _ => true
  }

  const BOOT := State(Settings({}, map[]), Settings({}, map[]), NoDelete, NoPut, {}, map[], {})

  ghost predicate Run(s: State, steps: seq<Step>, t: State, orderly: bool)
    decreases |steps|
  {
    if steps == [] then t == s
    else Enabled(s, steps[0]) && (orderly ==> Orderly(s, steps[0])) && Run(After(s, steps[0]), steps[1..], t, orderly)
  }

  // ---------------------------------------------------------------------------------------
  // The invariant
  // ---------------------------------------------------------------------------------------

  /** What holds of one repo: the disk is at or one ahead of memory, and everything removed is behind both. */
  ghost predicate RepoInv(s: State, r: Repo) {
    && GenOf(s.memory, r) <= GenOf(s.disk, r) <= GenOf(s.memory, r) + 1
    && forall g: nat :: Dir(r, g) in s.removed ==> g < GenOf(s.memory, r)
  }

  predicate DeleteInv(s: State) {
    match s.del
    case NoDelete => true
    case Resolved(r, _, prior) => s.put.NoPut? && prior == GenOf(s.memory, r) < U32_MAX
    case Closed(r, _, prior) => s.put.NoPut? && prior == GenOf(s.memory, r) < U32_MAX
    case Prepared(r, drop, prior, toWrite) =>
      s.put.NoPut? && prior == GenOf(s.memory, r) < U32_MAX && toWrite == Bumped(s.memory, r, drop, prior)
    case Persisted(r, drop, prior) =>
      s.put.NoPut? && prior == GenOf(s.memory, r) < U32_MAX && s.disk == Bumped(s.memory, r, drop, prior)
    case Swapped(r, _, prior) => s.put.NoPut? && prior < GenOf(s.memory, r)
  }

  predicate PutInv(s: State) {
    match s.put
    case NoPut => true
    case Checked(saved) => saved.gens == s.memory.gens
    case Saved(saved) => saved.gens == s.memory.gens && s.disk == saved
  }

  ghost predicate Inv(s: State) {
    DeleteInv(s) && PutInv(s) && forall r :: RepoInv(s, r)
  }

  lemma StepKeepsRepo(s: State, step: Step, r: Repo)
    requires Inv(s) && Enabled(s, step) && Orderly(s, step)
    ensures RepoInv(After(s, step), r)
    ensures GenOf(s.memory, r) <= GenOf(After(s, step).memory, r)
  {
    assert RepoInv(s, r);
  }

  lemma StepKeepsJobs(s: State, step: Step)
    requires DeleteInv(s) && PutInv(s) && Enabled(s, step) && Orderly(s, step)
    ensures DeleteInv(After(s, step)) && PutInv(After(s, step))
  {
  }

  lemma StepKeepsInv(s: State, step: Step)
    requires Inv(s) && Enabled(s, step) && Orderly(s, step)
    ensures Inv(After(s, step))
  {
    StepKeepsJobs(s, step);
    forall r ensures RepoInv(After(s, step), r) { StepKeepsRepo(s, step, r); }
  }

  /** Over any orderly run, crashes and failed writes included: the invariant holds, and the
      generation opens resolve never goes back. */
  lemma {:induction false} RunKeepsInv(s: State, steps: seq<Step>, t: State, r: Repo)
    requires Inv(s) && Run(s, steps, t, true)
    ensures Inv(t) && GenOf(s.memory, r) <= GenOf(t.memory, r)
    decreases |steps|
  {
    if steps != [] {
      StepKeepsInv(s, steps[0]);
      StepKeepsRepo(s, steps[0], r);
      RunKeepsInv(After(s, steps[0]), steps[1..], t, r);
    }
  }

  lemma BootInv()
    ensures Inv(BOOT)
  {
  }

  /** Everything ever removed, by a DELETE or by a boot sweep, is older than both copies of the counter;
      so a snapshot taken now names a directory that was never removed. */
  lemma RemovedIsOlder(steps: seq<Step>, t: State, d: Dir)
    requires Run(BOOT, steps, t, true) && d in t.removed
    ensures d.gen < GenOf(t.memory, d.repo) <= GenOf(t.disk, d.repo)
    ensures d != Dir(d.repo, GenOf(t.memory, d.repo))
  {
    BootInv();
    RunKeepsInv(BOOT, steps, t, d.repo);
    assert RepoInv(t, d.repo) && Dir(d.repo, d.gen) in t.removed;
  }

  /** Once a DELETE has swapped memory, no later snapshot names the directory it goes on to remove. */
  lemma SnapshotsAfterTheSwapAreNewer(before: seq<Step>, s: State, later: seq<Step>, t: State)
    requires Run(BOOT, before, s, true) && s.del.Swapped? && Run(s, later, t, true)
    ensures GenOf(t.memory, s.del.repo) > s.del.prior
    ensures Dir(s.del.repo, GenOf(t.memory, s.del.repo)) !in t.removed
  {
    BootInv();
    RunKeepsInv(BOOT, before, s, s.del.repo);
    RunKeepsInv(s, later, t, s.del.repo);
    assert RepoInv(t, s.del.repo);
  }

  /** Only a DELETE's write raises the durable counter, and the same write drops the repo if asked to. */
  lemma BumpCarriesItsDrop(s: State, step: Step, r: Repo)
    requires Inv(s) && Enabled(s, step) && Orderly(s, step)
    requires GenOf(After(s, step).disk, r) > GenOf(s.disk, r)
    ensures step.PersistDelete? && s.del.repo == r
    ensures s.del.drop ==> r !in After(s, step).disk.repos
  {
    assert RepoInv(s, r);
  }

  lemma Cons(s: State, step: Step, rest: seq<Step>, t: State, orderly: bool)
    requires Enabled(s, step) && (orderly ==> Orderly(s, step)) && Run(After(s, step), rest, t, orderly)
    ensures Run(s, [step] + rest, t, orderly)
  {
    assert ([step] + rest)[1..] == rest;
  }

  /** A DELETE up to and with its settings write. */
  lemma UpToItsWrite(s: State, r: Repo, drop: bool, persist: Outcome, orderly: bool)
    returns (steps: seq<Step>, t: State)
    requires s.del.NoDelete? && (orderly ==> Orderly(s, BeginDelete(r, drop)))
    ensures steps == [BeginDelete(r, drop), CloseHandle, CloneSettings, PersistDelete(persist)]
    ensures Run(s, steps, t, orderly)
    ensures var prior := GenOf(s.memory, r);
            t == After(s.(handles := s.handles - {r},
                          del := Prepared(r, drop, prior, Bumped(s.memory, r, drop, prior))), PersistDelete(persist))
  {
    var s1 := After(s, BeginDelete(r, drop));
    var s2 := After(s1, CloseHandle);
    var s3 := After(s2, CloneSettings);
    t := After(s3, PersistDelete(persist));
    Cons(s3, PersistDelete(persist), [], t, orderly);
    Cons(s2, CloneSettings, [PersistDelete(persist)], t, orderly);
    Cons(s1, CloseHandle, [CloneSettings] + [PersistDelete(persist)], t, orderly);
    steps := [BeginDelete(r, drop)] + ([CloseHandle] + ([CloneSettings] + [PersistDelete(persist)]));
    Cons(s, BeginDelete(r, drop), [CloseHandle] + ([CloneSettings] + [PersistDelete(persist)]), t, orderly);
  }

  /** What a DELETE does after its write. */
  lemma AfterItsWrite(s: State, removable: bool, orderly: bool) returns (steps: seq<Step>, t: State)
    requires s.del.Persisted?
    ensures Run(s, steps, t, orderly)
    ensures t == After(After(s, SwapDelete), RemoveDir(removable))
  {
    var s1 := After(s, SwapDelete);
    t := After(s1, RemoveDir(removable));
    Cons(s1, RemoveDir(removable), [], t, orderly);
    Cons(s, SwapDelete, [RemoveDir(removable)], t, orderly);
    steps := [SwapDelete] + [RemoveDir(removable)];
  }

  // ---------------------------------------------------------------------------------------
  // Which repositories stay listed
  // ---------------------------------------------------------------------------------------

  predicate TakesEffect(outcome: Outcome) {
    outcome != FailsBefore
  }

  /** Which repositories the durable list holds after a step. */
  lemma DurableListExactly(s: State, step: Step, r: Repo)
    requires Inv(s) && Enabled(s, step) && Orderly(s, step)
    ensures r in After(s, step).disk.repos <==>
            if step.PersistPut? && TakesEffect(step.outcome) then r in s.put.saved.repos
            else if step.PersistDelete? && TakesEffect(step.outcome) then
              r in s.memory.repos && !(s.del.repo == r && s.del.drop)
            else r in s.disk.repos
  {
  }

  /** Both copies of the list hold the repository, and no job under way will drop it. */
  predicate Listed(s: State, r: Repo) {
    && r in s.disk.repos && r in s.memory.repos
    && (!s.put.NoPut? ==> r in s.put.saved.repos)
    && (!s.del.NoDelete? ==> !(s.del.repo == r && s.del.drop))
    && (s.del.Prepared? ==> r in s.del.toWrite.repos)
  }

  /** A config write whose body omits the repository, or its own DELETE with the drop. */
  predicate AsksToDrop(step: Step, r: Repo) {
    || (step.BeginPut? && r !in step.repos)
    || (step.BeginDelete? && step.repo == r && step.drop)
  }

  lemma StepKeepsListed(s: State, step: Step, r: Repo)
    requires Listed(s, r) && Enabled(s, step) && !AsksToDrop(step, r)
    ensures Listed(After(s, step), r)
  {
  }

  /** Over any run, overlapping handlers, crashes and late failures included: a listed repository stays
      listed, on disk and in memory, until somebody asks to drop it. */
  lemma {:induction false} ListedUntilDropped(s: State, steps: seq<Step>, t: State, orderly: bool, r: Repo)
    requires Listed(s, r) && Run(s, steps, t, orderly) && forall i :: 0 <= i < |steps| ==> !AsksToDrop(steps[i], r)
    ensures Listed(t, r)
    decreases |steps|
  {
    if steps != [] {
      assert !AsksToDrop(steps[0], r);
      StepKeepsListed(s, steps[0], r);
      ListedUntilDropped(After(s, steps[0]), steps[1..], t, orderly, r);
    }
  }

  /** A step takes a repository off the durable list exactly when it writes a config whose body omits it,
      or is the write of a DELETE: its own with the drop, or any, if memory does not list it. */
  lemma LeavesTheListExactly(s: State, step: Step, r: Repo)
    requires Inv(s) && Enabled(s, step) && Orderly(s, step) && r in s.disk.repos
    ensures r !in After(s, step).disk.repos <==>
            || (step.PersistPut? && TakesEffect(step.outcome) && r !in s.put.saved.repos)
            || (step.PersistDelete? && TakesEffect(step.outcome)
                && ((s.del.repo == r && s.del.drop) || r !in s.memory.repos))
  {
    DurableListExactly(s, step, r);
  }

  /** Memory does not list what the disk lists only after a late failure: with clean failures the two
      lists agree but between a handler's write and its swap. */
  predicate ListsAgree(s: State) {
    s.del.Persisted? || s.put.Saved? || s.disk.repos == s.memory.repos
  }

  lemma StepKeepsListsAgreed(s: State, step: Step)
    requires Inv(s) && ListsAgree(s) && Enabled(s, step) && Orderly(s, step) && CleanFailures(step)
    ensures ListsAgree(After(s, step))
  {
  }

  lemma {:induction false} CleanListsAgree(s: State, steps: seq<Step>, t: State)
    requires Inv(s) && ListsAgree(s) && CleanRun(s, steps, t)
    ensures Inv(t) && ListsAgree(t)
    decreases |steps|
  {
    if steps != [] {
      StepKeepsInv(s, steps[0]);
      StepKeepsListsAgreed(s, steps[0]);
      CleanListsAgree(After(s, steps[0]), steps[1..], t);
    }
  }

  /** With clean failures a repository leaves the durable list only in a config write whose body omits
      it, or in its own DELETE with the drop. */
  lemma CleanlyOnlyItsOwnDeleteDrops(steps: seq<Step>, s: State, step: Step, r: Repo)
    requires CleanRun(BOOT, steps, s) && Enabled(s, step) && Orderly(s, step) && r in s.disk.repos
    ensures r !in After(s, step).disk.repos <==>
            || (step.PersistPut? && TakesEffect(step.outcome) && r !in s.put.saved.repos)
            || (step.PersistDelete? && TakesEffect(step.outcome) && s.del.repo == r && s.del.drop)
  {
    BootInv();
    CleanListsAgree(BOOT, steps, s);
    LeavesTheListExactly(s, step, r);
  }

  /** A config write that adds a repository, lands and still fails; the next DELETE of another one, which
      drops nothing, takes it off again. */
  lemma LateFailureUnlistsARepo(r: Repo, q: Repo) returns (first: seq<Step>, mid: State, second: seq<Step>, t: State)
    requires r != q
    ensures Run(BOOT, first, mid, true) && Run(mid, second, t, true)
    ensures r in mid.disk.repos && r !in t.disk.repos
    ensures second == [BeginDelete(q, false), CloseHandle, CloneSettings, PersistDelete(Works)]
  {
    var s1 := After(BOOT, BeginPut({r}));
    mid := After(s1, PersistPut(FailsAfter));
    Cons(s1, PersistPut(FailsAfter), [], mid, true);
    Cons(BOOT, BeginPut({r}), [PersistPut(FailsAfter)], mid, true);
    first := [BeginPut({r})] + [PersistPut(FailsAfter)];
    second, t := UpToItsWrite(mid, q, false, Works, true);
  }

  // ---------------------------------------------------------------------------------------
  // When the durable counter can go back
  // ---------------------------------------------------------------------------------------

  /** No write takes effect and still reports a failure. */
  predicate CleanFailures(step: Step) {
    match step
    case PersistDelete(outcome) => !outcome.FailsAfter?
    case PersistPut(outcome) => !outcome.FailsAfter?
    case _ => true
  }

  predicate InSync(s: State) {
    s.del.Persisted? || s.disk.gens == s.memory.gens
  }

  ghost predicate CleanRun(s: State, steps: seq<Step>, t: State)
    decreases |steps|
  {
    if steps == [] then t == s
    else
      && Enabled(s, steps[0]) && Orderly(s, steps[0]) && CleanFailures(steps[0])
      && CleanRun(After(s, steps[0]), steps[1..], t)
  }

  lemma CleanStep(s: State, step: Step, r: Repo)
    requires Inv(s) && InSync(s) && Enabled(s, step) && Orderly(s, step) && CleanFailures(step)
    ensures InSync(After(s, step)) && GenOf(s.disk, r) <= GenOf(After(s, step).disk, r)
  {
    assert RepoInv(s, r);
  }

  /** With clean failures the durable counter never decreases. */
  lemma {:induction false} DurableNeverDecreases(s: State, steps: seq<Step>, t: State, r: Repo)
    requires Inv(s) && InSync(s) && CleanRun(s, steps, t)
    ensures Inv(t) && InSync(t) && GenOf(s.disk, r) <= GenOf(t.disk, r)
    decreases |steps|
  {
    if steps != [] {
      StepKeepsInv(s, steps[0]);
      CleanStep(s, steps[0], r);
      DurableNeverDecreases(After(s, steps[0]), steps[1..], t, r);
    }
  }

  /** A config write keeps every durable counter exactly when memory and disk agree on all of them. */
  lemma PutKeepsCountersExactlyInSync(s: State)
    requires Inv(s) && s.put.Checked?
    ensures (forall r :: GenOf(s.disk, r) <= GenOf(After(s, PersistPut(Works)).disk, r))
            <==> (forall r :: GenOf(s.memory, r) == GenOf(s.disk, r))
  {
    var t := After(s, PersistPut(Works));
    forall r ensures GenOf(t.disk, r) == GenOf(s.memory, r) && GenOf(s.memory, r) <= GenOf(s.disk, r) {
      assert RepoInv(s, r);
    }
  }

  /** A write that takes effect from a memory that is behind the disk on `r`; a DELETE of `r` itself
      catches up. */
  predicate WritesStale(s: State, step: Step, r: Repo) {
    && GenOf(s.memory, r) < GenOf(s.disk, r)
    && match step
       case PersistPut(outcome) => !outcome.FailsBefore?
       case PersistDelete(outcome) => !outcome.FailsBefore? && s.del.Prepared? && s.del.repo != r
       case _ => false
  }

  /** Which steps take the durable counter back. */
  lemma DurableGoesBackExactly(s: State, step: Step, r: Repo)
    requires Inv(s) && Enabled(s, step) && Orderly(s, step)
    ensures GenOf(After(s, step).disk, r) < GenOf(s.disk, r) <==> WritesStale(s, step, r)
  {
    assert RepoInv(s, r);
  }

  ghost predicate NeverGoesBack(s: State, steps: seq<Step>, r: Repo)
    decreases |steps|
  {
    steps == [] ||
    (&& Enabled(s, steps[0])
     && GenOf(s.disk, r) <= GenOf(After(s, steps[0]).disk, r)
     && NeverGoesBack(After(s, steps[0]), steps[1..], r))
  }

  ghost predicate NeverWritesStale(s: State, steps: seq<Step>, r: Repo)
    decreases |steps|
  {
    steps == [] ||
    (&& Enabled(s, steps[0])
     && !WritesStale(s, steps[0], r)
     && NeverWritesStale(After(s, steps[0]), steps[1..], r))
  }

  /** Over any orderly run, late failures included: the durable counter never decreases exactly when no
      write goes out from a memory that is behind the disk. */
  lemma {:induction false} DurableNeverDecreasesExactly(s: State, steps: seq<Step>, t: State, r: Repo)
    requires Inv(s) && Run(s, steps, t, true)
    ensures NeverGoesBack(s, steps, r) <==> NeverWritesStale(s, steps, r)
    decreases |steps|
  {
    if steps != [] {
      DurableGoesBackExactly(s, steps[0], r);
      StepKeepsInv(s, steps[0]);
      DurableNeverDecreasesExactly(After(s, steps[0]), steps[1..], t, r);
    }
  }

  /** A DELETE whose write lands and still fails: memory stays behind the disk. */
  lemma FailLate(r: Repo) returns (steps: seq<Step>, t: State)
    ensures Run(BOOT, steps, t, true)
    ensures GenOf(t.disk, r) == 1 && t.memory == BOOT.memory && t.del.NoDelete? && t.put.NoPut?
  {
    steps, t := UpToItsWrite(BOOT, r, false, FailsAfter, true);
  }

  /** The next config write undoes the bump. */
  lemma LateFailureLosesTheBump(r: Repo) returns (first: seq<Step>, mid: State, second: seq<Step>, t: State)
    ensures Run(BOOT, first, mid, true) && Run(mid, second, t, true)
    ensures GenOf(mid.disk, r) == 1 && GenOf(t.disk, r) == 0
  {
    first, mid := FailLate(r);
    var s5 := After(mid, BeginPut({}));
    t := After(s5, PersistPut(Works));
    Cons(s5, PersistPut(Works), [], t, true);
    Cons(mid, BeginPut({}), [PersistPut(Works)], t, true);
    second := [BeginPut({})] + [PersistPut(Works)];
  }

  /** So does the next DELETE of another repository. */
  lemma AnotherDeleteLosesTheBump(r: Repo, q: Repo) returns (first: seq<Step>, mid: State, second: seq<Step>, t: State)
    requires r != q
    ensures Run(BOOT, first, mid, true) && Run(mid, second, t, true)
    ensures GenOf(mid.disk, r) == 1 && GenOf(t.disk, r) == 0 && GenOf(t.disk, q) == 1
  {
    first, mid := FailLate(r);
    second, t := UpToItsWrite(mid, q, false, Works, true);
  }

  // ---------------------------------------------------------------------------------------
  // What an open is handed
  // ---------------------------------------------------------------------------------------

  /** Every handle and every snapshot of the repo is of the current generation. */
  ghost predicate Fresh(s: State, r: Repo) {
    && (r in s.handles ==> s.handles[r] == GenOf(s.memory, r))
    && (forall d :: d in s.openers && d.repo == r ==> d.gen == GenOf(s.memory, r))
  }

  predicate Unheld(s: State, r: Repo) {
    r !in s.handles && forall d :: d in s.openers ==> d.repo != r
  }

  /** While handles are fresh, no open is handed a removed directory. */
  lemma FreshOpensAreSafe(s: State, d: Dir)
    requires Inv(s) && Fresh(s, d.repo) && d in s.openers
    ensures Opened(s, d) == d.gen && Dir(d.repo, Opened(s, d)) !in s.removed
  {
    assert RepoInv(s, d.repo);
  }

  /** Handles stay fresh through every step, except that a DELETE's swap keeps them so exactly when
      nobody holds a handle or a snapshot of its repo. */
  lemma HandlesStayFreshExactlyWhen(s: State, step: Step, r: Repo)
    requires Inv(s) && Fresh(s, r) && Enabled(s, step) && Orderly(s, step)
    ensures Fresh(After(s, step), r) <==> (step.SwapDelete? && s.del.repo == r ==> Unheld(s, r))
  {
    var t := After(s, step);
    if step.SwapDelete? && s.del.repo == r {
      assert GenOf(t.memory, r) == GenOf(s.memory, r) + 1;
      forall d | d in s.openers && d.repo == r ensures d in t.openers && d.gen != GenOf(t.memory, r) {}
    } else {
      SameGeneration(s, step, r);
    }
  }

  lemma SameGeneration(s: State, step: Step, r: Repo)
    requires Inv(s) && Enabled(s, step) && Orderly(s, step) && !(step.SwapDelete? && s.del.repo == r)
    ensures step.Crash? || GenOf(After(s, step).memory, r) == GenOf(s.memory, r)
  {
  }

  /** Some open of the repo in this run is handed a directory that was already removed. */
  ghost predicate HandsOutRemoved(s: State, steps: seq<Step>, r: Repo)
    decreases |steps|
  {
    && steps != []
    && Enabled(s, steps[0])
    && (|| (steps[0].Open? && steps[0].snapshot.repo == r && Dir(r, Opened(s, steps[0].snapshot)) in s.removed)
        || HandsOutRemoved(After(s, steps[0]), steps[1..], r))
  }

  /** No further DELETE of the repo begins. */
  predicate NoOtherDelete(steps: seq<Step>, r: Repo) {
    forall i :: 0 <= i < |steps| ==> !(steps[i].BeginDelete? && steps[i].repo == r)
  }

  /** No DELETE of the repo has its swap still before it. */
  predicate PastSwap(s: State, r: Repo) {
    s.del.NoDelete? || s.del.Swapped? || s.del.repo != r
  }

  lemma {:induction false} FreshRunsAreSafe(s: State, steps: seq<Step>, t: State, r: Repo)
    requires Inv(s) && Fresh(s, r) && PastSwap(s, r) && NoOtherDelete(steps, r) && Run(s, steps, t, true)
    ensures !HandsOutRemoved(s, steps, r)
    decreases |steps|
  {
    if steps != [] {
      var step := steps[0];
      if step.Open? && step.snapshot.repo == r { FreshOpensAreSafe(s, step.snapshot); }
      HandlesStayFreshExactlyWhen(s, step, r);
      StepKeepsInv(s, step);
      FreshRunsAreSafe(After(s, step), steps[1..], t, r);
    }
  }

  /** If somebody holds a handle or a snapshot at the swap, this run hands out the removed directory. */
  lemma HeldAtTheSwapIsUnsafe(s: State, r: Repo) returns (steps: seq<Step>, u: State)
    requires Inv(s) && Fresh(s, r) && s.del.Persisted? && s.del.repo == r && !Unheld(s, r)
    ensures Run(After(s, SwapDelete), steps, u, true) && NoOtherDelete(steps, r)
    ensures HandsOutRemoved(After(s, SwapDelete), steps, r)
  {
    var t := After(s, SwapDelete);
    var t1 := After(t, RemoveDir(true));
    assert Dir(r, s.del.prior) in t1.removed;
    if r in s.handles {
      var d := Dir(r, GenOf(t1.memory, r));
      var t2 := After(t1, TakeSnapshot(r));
      u := After(t2, Open(d));
      Cons(t2, Open(d), [], u, true);
      Cons(t1, TakeSnapshot(r), [Open(d)], u, true);
      Cons(t, RemoveDir(true), [TakeSnapshot(r)] + [Open(d)], u, true);
      HandsOutLater(t1, TakeSnapshot(r), [Open(d)], r);
      HandsOutLater(t, RemoveDir(true), [TakeSnapshot(r)] + [Open(d)], r);
      steps := [RemoveDir(true)] + ([TakeSnapshot(r)] + [Open(d)]);
    } else {
      var d :| d in s.openers && d.repo == r;
      assert d == Dir(r, s.del.prior);
      u := After(t1, Open(d));
      Cons(t1, Open(d), [], u, true);
      Cons(t, RemoveDir(true), [Open(d)], u, true);
      HandsOutLater(t, RemoveDir(true), [Open(d)], r);
      steps := [RemoveDir(true)] + [Open(d)];
    }
  }

  lemma HandsOutLater(s: State, step: Step, rest: seq<Step>, r: Repo)
    requires Enabled(s, step) && HandsOutRemoved(After(s, step), rest, r)
    ensures HandsOutRemoved(s, [step] + rest, r)
  {
    assert ([step] + rest)[1..] == rest;
  }

  /** Until the next DELETE of the repo, no open is ever handed a removed directory. */
  ghost predicate OpensAreSafe(s: State, r: Repo) {
    forall steps, t :: Run(s, steps, t, true) && NoOtherDelete(steps, r) ==> !HandsOutRemoved(s, steps, r)
  }

  /** After a DELETE's swap opens are safe exactly when nobody held a handle or a snapshot of the repo at
      the swap. */
  lemma OpensAreSafeExactlyWhenUnheld(s: State, r: Repo)
    requires Inv(s) && Fresh(s, r) && s.del.Persisted? && s.del.repo == r
    ensures OpensAreSafe(After(s, SwapDelete), r) <==> Unheld(s, r)
  {
    var t := After(s, SwapDelete);
    if Unheld(s, r) {
      HandlesStayFreshExactlyWhen(s, SwapDelete, r);
      StepKeepsInv(s, SwapDelete);
      forall steps, u | Run(t, steps, u, true) && NoOtherDelete(steps, r) ensures !HandsOutRemoved(t, steps, r) {
        FreshRunsAreSafe(t, steps, u, r);
      }
    } else {
      var steps, u := HeldAtTheSwapIsUnsafe(s, r);
      assert Run(t, steps, u, true) && HandsOutRemoved(t, steps, r);
    }
  }

  lemma {:induction false} RunConcat(s: State, a: seq<Step>, mid: State, b: seq<Step>, t: State, orderly: bool)
    requires Run(s, a, mid, orderly) && Run(mid, b, t, orderly)
    ensures Run(s, a + b, t, orderly)
    decreases |a|
  {
    if a == [] {
      assert a + b == b;
    } else {
      RunConcat(After(s, a[0]), a[1..], mid, b, t, orderly);
      assert (a + b)[0] == a[0] && (a + b)[1..] == a[1..] + b;
    }
  }

  /** The steps of a DELETE after it closed the handle, all succeeding. */
  lemma FinishDelete(s: State, orderly: bool) returns (steps: seq<Step>, t: State)
    requires s.del.Closed?
    ensures Run(s, steps, t, orderly)
    ensures t.memory == Bumped(s.memory, s.del.repo, s.del.drop, s.del.prior) == t.disk
    ensures t.removed == s.removed + {Dir(s.del.repo, s.del.prior)}
    ensures t.del.NoDelete? && t.put == s.put && t.openers == s.openers && t.handles == s.handles
  {
    var s1 := After(s, CloneSettings);
    var s2 := After(s1, PersistDelete(Works));
    var rest;
    rest, t := AfterItsWrite(s2, true, orderly);
    Cons(s1, PersistDelete(Works), rest, t, orderly);
    Cons(s, CloneSettings, [PersistDelete(Works)] + rest, t, orderly);
    steps := [CloneSettings] + ([PersistDelete(Works)] + rest);
  }

  /** A task that read the settings before the bump and opens after the handle was closed leaves the
      old index in the cache, and opens of the new generation are handed a removed directory. */
  lemma StaleOpenPinsTheOldIndex(r: Repo) returns (steps: seq<Step>, t: State)
    ensures Run(BOOT, steps, t, true)
    ensures Dir(r, 1) in t.openers && GenOf(t.memory, r) == 1
    ensures Opened(t, Dir(r, 1)) == 0 && Dir(r, 0) in t.removed
  {
    var s1 := After(BOOT, TakeSnapshot(r));
    var s2 := After(s1, BeginDelete(r, false));
    var s3 := After(s2, CloseHandle);
    var s4 := After(s3, Open(Dir(r, 0)));
    var rest, s8 := FinishDelete(s4, true);
    t := After(s8, TakeSnapshot(r));
    Cons(s8, TakeSnapshot(r), [], t, true);
    RunConcat(s4, rest, s8, [TakeSnapshot(r)], t, true);
    var r4 := rest + [TakeSnapshot(r)];
    Cons(s3, Open(Dir(r, 0)), r4, t, true);
    var r3 := [Open(Dir(r, 0))] + r4;
    Cons(s2, CloseHandle, r3, t, true);
    var r2 := [CloseHandle] + r3;
    Cons(s1, BeginDelete(r, false), r2, t, true);
    var r1 := [BeginDelete(r, false)] + r2;
    Cons(BOOT, TakeSnapshot(r), r1, t, true);
    steps := [TakeSnapshot(r)] + r1;
  }

  /** A config write that began before a DELETE and lands after it undoes the bump: the next open is
      sent to the removed directory. */
  lemma OverlapLosesTheBump(r: Repo) returns (steps: seq<Step>, t: State)
    ensures Run(BOOT, steps, t, false)
    ensures Dir(r, GenOf(t.memory, r)) in t.removed && GenOf(t.disk, r) == 0
  {
    var s1 := After(BOOT, BeginPut({}));
    var s2 := After(s1, BeginDelete(r, false));
    var s3 := After(s2, CloseHandle);
    var rest, s7 := FinishDelete(s3, false);
    var s8 := After(s7, PersistPut(Works));
    t := After(s8, SwapPut);
    Cons(s8, SwapPut, [], t, false);
    Cons(s7, PersistPut(Works), [SwapPut], t, false);
    var r7 := [PersistPut(Works)] + [SwapPut];
    RunConcat(s3, rest, s7, r7, t, false);
    var r3 := rest + r7;
    Cons(s2, CloseHandle, r3, t, false);
    var r2 := [CloseHandle] + r3;
    Cons(s1, BeginDelete(r, false), r2, t, false);
    var r1 := [BeginDelete(r, false)] + r2;
    Cons(BOOT, BeginPut({}), r1, t, false);
    steps := [BeginPut({})] + r1;
  }

  /** A DELETE removes a directory older than the one it leaves current exactly below the ceiling. */
  lemma DeleteOutlivesItsDirectoryExactlyBelowTheCeiling(s: State, r: Repo) returns (steps: seq<Step>, t: State)
    requires s.del.NoDelete? && s.put.NoPut? && GenOf(s.memory, r) <= U32_MAX
    ensures Run(s, steps, t, false) && Dir(r, GenOf(s.memory, r)) in t.removed
    ensures GenOf(s.memory, r) < GenOf(t.memory, r) == GenOf(t.disk, r) <==> GenOf(s.memory, r) < U32_MAX
  {
    var s1 := After(s, BeginDelete(r, false));
    var s2 := After(s1, CloseHandle);
    var rest;
    rest, t := FinishDelete(s2, false);
    Cons(s1, CloseHandle, rest, t, false);
    Cons(s, BeginDelete(r, false), [CloseHandle] + rest, t, false);
    steps := [BeginDelete(r, false)] + ([CloseHandle] + rest);
  }

  // ---------------------------------------------------------------------------------------
  // The two handlers, each run without interruption
  // ---------------------------------------------------------------------------------------

  /** `Failed` is the error return: the new generation could not be persisted. */
  datatype RemoveOutcome = Removed | Pending | Failed

  class Server {
    var disk: Settings
    var memory: Settings
    var openers: set<Dir>
    var handles: map<Repo, nat>
    var removed: set<Dir>

    ghost function At(): State
      reads this
    {
      State(disk, memory, NoDelete, NoPut, openers, handles, removed)
    }

    /** A boot: settings are read from disk, nothing is open. */
    constructor (disk: Settings)
      ensures At() == State(disk, disk, NoDelete, NoPut, {}, map[], {})
    {
      this.disk, this.memory := disk, disk;
      openers, handles, removed := {}, map[], {};
    }

    method WriteSettings(settings: Settings, outcome: Outcome) returns (ok: bool)
      modifies this`disk
      ensures ok <==> outcome.Works?
      ensures disk == if outcome.FailsBefore? then old(disk) else settings
    {
      if !outcome.FailsBefore? {
        disk := settings;
      }
      ok := outcome.Works?;
    }

    /** The DELETE handler is a run of the machine: handle, durable bump, memory, directory, in this
        order, and nothing after a failed write. */
    method RemoveIndex(r: Repo, alsoDropRepo: bool, persist: Outcome, removable: bool)
      returns (outcome: RemoveOutcome, ghost steps: seq<Step>)
      modifies this
      ensures Run(old(At()), steps, At(), false)
      ensures outcome.Failed? <==> !persist.Works?
      ensures outcome.Failed? ==> memory == old(memory) && removed == old(removed)
      ensures persist.FailsBefore? ==> disk == old(disk)
      ensures !outcome.Failed? ==>
                && GenOf(memory, r) == GenOf(disk, r) == SaturatingNext(GenOf(old(memory), r))
                && (r in memory.repos <==> r in old(memory).repos && !alsoDropRepo)
                && (r in disk.repos <==> r in old(memory).repos && !alsoDropRepo)
                && (forall q :: q != r ==> (q in memory.repos <==> q in old(memory).repos))
                && (forall q :: q != r ==> (q in disk.repos <==> q in old(memory).repos))
                && (forall q :: q != r ==> GenOf(memory, q) == GenOf(disk, q) == GenOf(old(memory), q))
                && (outcome.Removed? <==> removable)
                && removed == old(removed) + if removable then {Dir(r, GenOf(old(memory), r))} else {}
    {
      ghost var s0 := At();
      var currentGeneration := GenOf(memory, r);
      handles := handles - {r};
      var nextGeneration := SaturatingNext(currentGeneration);
      var toWrite := memory.(gens := memory.gens[r := nextGeneration]);
      if alsoDropRepo {
        toWrite := toWrite.(repos := toWrite.repos - {r});
      }
      ghost var s1;
      steps, s1 := UpToItsWrite(s0, r, alsoDropRepo, persist, false);
      var ok := WriteSettings(toWrite, persist);
      if !ok {
        return Failed, steps;
      }
      memory := memory.(gens := memory.gens[r := nextGeneration]);
      if alsoDropRepo {
        memory := memory.(repos := memory.repos - {r});
      }
      if removable {
        removed := removed + {Dir(r, currentGeneration)};
      }
      ghost var rest, s2 := AfterItsWrite(s1, removable, false);
      RunConcat(s0, steps, s1, rest, s2, false);
      steps := steps + rest;
      outcome := if removable then Removed else Pending;
    }

    /** The PUT handler keeps the live counters whatever the client sent. */
    method PutConfig(body: Settings, persist: Outcome) returns (ok: bool, ghost steps: seq<Step>)
      modifies this
      ensures Run(old(At()), steps, At(), false)
      ensures ok <==> persist.Works?
      ensures ok ==> memory == disk == Settings(body.repos, old(memory).gens)
      ensures !ok ==> memory == old(memory)
    {
      ghost var s0 := At();
      var settings := body.(gens := memory.gens);
      ok := WriteSettings(settings, persist);
      ghost var s1 := After(s0, BeginPut(body.repos));
      ghost var s2 := After(s1, PersistPut(persist));
      Cons(s1, PersistPut(persist), [], s2, false);
      Cons(s0, BeginPut(body.repos), [PersistPut(persist)], s2, false);
      steps := [BeginPut(body.repos)] + [PersistPut(persist)];
      if ok {
        memory := settings;
        ghost var s3 := After(s2, SwapPut);
        Cons(s2, SwapPut, [], s3, false);
        RunConcat(s0, steps, s2, [SwapPut], s3, false);
        steps := steps + [SwapPut];
      }
    }
  }
}
