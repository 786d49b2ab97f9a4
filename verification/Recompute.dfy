/**
 The debounced, single-flight refresh of a repository's graph and statistics caches
 (`src/indexing/mod.rs`: `RecomputeSlot`, `note_index_completion`, `run_debounced_recompute`).

 Every critical section of the source is one method of `RecomputeSlots`, proved against a
 function on slots. `System` then interleaves completions, time and any number of scheduler
 tasks at the granularity of those critical sections, and the theorems quantify over every run.
 */
module Recompute {
  import opened Options

  type Repo = string

  /** Milliseconds a repository must be quiet before a pass starts. */
  const DEBOUNCE: nat := 4000

  datatype Slot = Slot(lastCompletion: Option<nat>, scheduled: bool, recomputing: bool, rearm: bool)

  const DEFAULT_SLOT := Slot(None, false, false, false)

  type Slots = map<Repo, Slot>

  function SlotOf(slots: Slots, repo: Repo): Slot {
    if repo in slots then slots[repo] else DEFAULT_SLOT
  }

  // ---------------------------------------------------------------------------------------
  // The critical sections
  // ---------------------------------------------------------------------------------------

  function Noted(slots: Slots, repo: Repo, now: nat): Slots {
    var s := SlotOf(slots, repo);
    slots[repo := Slot(Some(now), true, s.recomputing, s.rearm || (s.scheduled && s.recomputing))]
  }

  /** The remaining debounce time, 0 when the task may proceed. */
  function Wait(slots: Slots, repo: Repo, now: nat): nat {
    match SlotOf(slots, repo).lastCompletion
    case None => 0
    case Some(last) =>
      var elapsed := if last <= now then now - last else 0;
      if elapsed < DEBOUNCE then DEBOUNCE - elapsed else 0
  }

  function Marked(slots: Slots, repo: Repo): Slots {
    if repo in slots then slots[repo := slots[repo].(recomputing := true, rearm := false)] else slots
  }

  /** The verdict after a pass: does the task loop once more? */
  function Again(slots: Slots, repo: Repo): bool {
    repo in slots && slots[repo].rearm
  }

  function Decided(slots: Slots, repo: Repo): Slots {
    if repo !in slots then slots
    else if slots[repo].rearm then slots[repo := slots[repo].(recomputing := false, rearm := false)]
    else slots[repo := slots[repo].(recomputing := false, scheduled := false)]
  }

  class RecomputeSlots {
    var slots: Slots

    constructor ()
      ensures slots == map[]
    {
      slots := map[];
    }

    /** Every completion is stamped, whatever the slot was doing; it re-arms a running pass; `spawn` tells
        the caller to start a scheduler task. */
    method NoteIndexCompletion(repo: Repo, now: nat) returns (spawn: bool)
      modifies this
      ensures repo in slots && slots[repo].lastCompletion == Some(now) && slots[repo].scheduled
      ensures var before := SlotOf(old(slots), repo);
              && slots[repo].recomputing == before.recomputing
              && (slots[repo].rearm <==> before.rearm || (before.scheduled && before.recomputing))
      ensures slots - {repo} == old(slots) - {repo}
      ensures slots == Noted(old(slots), repo, now)
      ensures spawn == !SlotOf(old(slots), repo).scheduled
    {
      var slot := if repo in slots then slots[repo] else DEFAULT_SLOT;
      slot := slot.(lastCompletion := Some(now));
      spawn := !slot.scheduled;
      if slot.scheduled {
        if slot.recomputing {
          slot := slot.(rearm := true);
        }
      } else {
        slot := slot.(scheduled := true);
      }
      slots := slots[repo := slot];
    }

    /** 0 exactly when there is no stamp or the window has passed; otherwise the wait ends when the window
        does. A stamp from the future counts as just made. */
    method PollDebounce(repo: Repo, now: nat) returns (wait: nat)
      ensures var last := SlotOf(slots, repo).lastCompletion;
              && (wait == 0 <==> last.None? || last.value + DEBOUNCE <= now)
              && (wait > 0 && last.value <= now ==> now + wait == last.value + DEBOUNCE)
              && (wait > 0 && now < last.value ==> wait == DEBOUNCE)
      ensures wait == Wait(slots, repo, now)
    {
      wait := 0;
      if repo in slots && slots[repo].lastCompletion.Some? {
        var last := slots[repo].lastCompletion.value;
        var elapsed := if now < last then 0 else now - last;
        if elapsed <= DEBOUNCE {
          wait := DEBOUNCE - elapsed;
        }
      }
    }

    method MarkRecomputing(repo: Repo)
      modifies this
      ensures slots.Keys == old(slots).Keys && slots - {repo} == old(slots) - {repo}
      ensures repo in slots ==>
                && slots[repo].recomputing && !slots[repo].rearm
                && slots[repo].scheduled == old(slots)[repo].scheduled
                && slots[repo].lastCompletion == old(slots)[repo].lastCompletion
      ensures slots == Marked(old(slots), repo)
    {
      if repo in slots {
        var slot := slots[repo];
        slot := slot.(recomputing := true);
        slot := slot.(rearm := false);
        slots := slots[repo := slot];
      }
    }

    method RearmOrRetire(repo: Repo) returns (again: bool)
      modifies this
      ensures slots.Keys == old(slots).Keys && slots - {repo} == old(slots) - {repo}
      ensures repo in slots ==>
                && again == old(slots)[repo].rearm
                && !slots[repo].recomputing && !slots[repo].rearm
                && (slots[repo].scheduled <==> again && old(slots)[repo].scheduled)
                && slots[repo].lastCompletion == old(slots)[repo].lastCompletion
      ensures repo !in slots ==> !again
      ensures slots == Decided(old(slots), repo)
      ensures again == Again(old(slots), repo)
    {
      again := false;
      if repo in slots {
        var slot := slots[repo].(recomputing := false);
        if slot.rearm {
          slot := slot.(rearm := false);
          again := true;
        } else {
          slot := slot.(scheduled := false);
        }
        slots := slots[repo := slot];
      }
    }
  }

  // ---------------------------------------------------------------------------------------
  // The concurrent system
  // ---------------------------------------------------------------------------------------

  /** Where a scheduler task stands between two critical sections. */
  datatype Pc = Spawning | Polling | Sleeping(wake: nat) | Quiet(polledAt: nat) | Running

  datatype Task = Task(repo: Repo, pc: Pc)

  /** Observer's record for one repository: completions so far, passes begun, and the number of
      completions that had happened when the latest pass began. */
  datatype History = History(completions: nat, passes: nat, seen: nat)

  datatype System = System(slots: Slots, tasks: map<nat, Task>, now: nat, log: map<Repo, History>)

  datatype Step =
    | Complete(repo: Repo, id: nat)
    | Tick(elapsed: nat)
    | Start(id: nat)
    | Poll(id: nat)
    | Wake(id: nat)
    | Mark(id: nat)
    | Finish(id: nat)

  const INITIAL := System(map[], map[], 0, map[])

  function HistoryOf(s: System, repo: Repo): History {
    if repo in s.log then s.log[repo] else History(0, 0, 0)
  }

  ghost predicate Enabled(s: System, step: Step) {
    match step
    case Complete(repo, id) => id !in s.tasks
    case Tick(_) => true
    case Start(id) => id in s.tasks && s.tasks[id].pc.Spawning?
    case Poll(id) => id in s.tasks && s.tasks[id].pc.Polling?
    case Wake(id) => id in s.tasks && s.tasks[id].pc.Sleeping? && s.tasks[id].pc.wake <= s.now
    case Mark(id) => id in s.tasks && s.tasks[id].pc.Quiet?
    case Finish(id) => id in s.tasks && s.tasks[id].pc.Running?
  }

  ghost function Moved(s: System, id: nat, pc: Pc): System
    requires id in s.tasks
  {
    s.(tasks := s.tasks[id := s.tasks[id].(pc := pc)])
  }

  ghost function Next(s: System, step: Step): System
    requires Enabled(s, step)
  {
    match step
    case Complete(repo, id) =>
      var h := HistoryOf(s, repo);
      var t := s.(slots := Noted(s.slots, repo, s.now), log := s.log[repo := h.(completions := h.completions + 1)]);
      if SlotOf(s.slots, repo).scheduled then t
      else t.(tasks := s.tasks[id := Task(repo, Spawning)])
    case Tick(elapsed) => s.(now := s.now + elapsed)
    case Start(id) => Moved(s, id, Polling)
    case Poll(id) =>
      var wait := Wait(s.slots, s.tasks[id].repo, s.now);
      Moved(s, id, if wait > 0 then Sleeping(s.now + wait) else Quiet(s.now))
    case Wake(id) => Moved(s, id, Polling)
    case Mark(id) =>
      var repo := s.tasks[id].repo;
      var h := HistoryOf(s, repo);
      Moved(s, id, Running).(slots := Marked(s.slots, repo),
                             log := s.log[repo := History(h.completions, h.passes + 1, h.completions)])
    case Finish(id) =>
      var repo := s.tasks[id].repo;
      var t := s.(slots := Decided(s.slots, repo));
      if Again(s.slots, repo) then Moved(t, id, Polling)
      else t.(tasks := s.tasks - {id})
  }

  ghost predicate Runs(s: System, steps: seq<Step>)
    decreases |steps|
  {
    steps == [] || (Enabled(s, steps[0]) && Runs(Next(s, steps[0]), steps[1..]))
  }

  ghost function After(s: System, steps: seq<Step>): System
    requires Runs(s, steps)
    decreases |steps|
  {
    if steps == [] then s else After(Next(s, steps[0]), steps[1..])
  }

  // ---------------------------------------------------------------------------------------
  // What every run keeps
  // ---------------------------------------------------------------------------------------

  ghost predicate HasTask(s: System, repo: Repo) {
    exists id :: id in s.tasks && s.tasks[id].repo == repo
  }

  /** At most one task per repository, and one exactly while `scheduled` is set. */
  ghost predicate SingleFlight(s: System) {
    && (forall i, j :: i in s.tasks && j in s.tasks && s.tasks[i].repo == s.tasks[j].repo ==> i == j)
    && (forall repo :: SlotOf(s.slots, repo).scheduled <==> HasTask(s, repo))
  }

  /** Completions the latest pass has not seen. */
  predicate Pending(s: System, repo: Repo) {
    HistoryOf(s, repo).seen < HistoryOf(s, repo).completions
  }

  /** With no task left, the latest pass began after the last completion. */
  ghost predicate NothingLost(s: System) {
    forall repo :: !HasTask(s, repo) ==> !Pending(s, repo)
  }

  predicate Bounded(s: System, repo: Repo) {
    HistoryOf(s, repo).passes <= HistoryOf(s, repo).seen <= HistoryOf(s, repo).completions
  }

  ghost predicate PassesBounded(s: System) {
    forall repo :: Bounded(s, repo)
  }

  ghost predicate TaskInv(s: System, task: Task) {
    var slot := SlotOf(s.slots, task.repo);
    && task.repo in s.slots
    && slot.lastCompletion.Some?
    && slot.lastCompletion.value <= s.now
    && (slot.recomputing <==> task.pc.Running?)
    && (slot.rearm <==> task.pc.Running? && Pending(s, task.repo))
    && (!task.pc.Running? ==> Pending(s, task.repo))
    // A pass about to begin follows a quiet window; only a completion after the poll can be closer.
    && (task.pc.Quiet? ==> task.pc.polledAt <= s.now &&
                           (slot.lastCompletion.value + DEBOUNCE <= task.pc.polledAt ||
                            task.pc.polledAt <= slot.lastCompletion.value))
  }

  predicate IdleInv(s: System, repo: Repo) {
    var slot := SlotOf(s.slots, repo);
    !slot.scheduled ==> !slot.recomputing && !slot.rearm && !Pending(s, repo)
  }

  ghost predicate Inv(s: System) {
    && SingleFlight(s)
    && PassesBounded(s)
    && (forall id :: id in s.tasks ==> TaskInv(s, s.tasks[id]))
    && (forall repo :: IdleInv(s, repo))
  }

  /** A step that replaces or keeps each task of `s` keeps the owner of every repository. */
  lemma SameOwners(s: System, t: System, repo: Repo)
    requires forall id :: id in s.tasks ==> id in t.tasks && t.tasks[id].repo == s.tasks[id].repo
    requires forall id :: id in t.tasks && t.tasks[id].repo == repo ==> id in s.tasks
    ensures HasTask(t, repo) <==> HasTask(s, repo)
  {
    if HasTask(s, repo) {
      var id :| id in s.tasks && s.tasks[id].repo == repo;
      assert id in t.tasks && t.tasks[id].repo == repo;
    }
  }

  lemma CompleteKeepsOwners(s: System, step: Step, repo: Repo)
    requires Inv(s) && step.Complete? && Enabled(s, step)
    ensures SlotOf(Next(s, step).slots, repo).scheduled <==> HasTask(Next(s, step), repo)
  {
    var t := Next(s, step);
    if repo != step.repo || SlotOf(s.slots, repo).scheduled {
      SameOwners(s, t, repo);
    } else {
      assert t.tasks[step.id].repo == step.repo;
    }
  }

  lemma CompleteKeepsSingleFlight(s: System, step: Step)
    requires Inv(s) && step.Complete? && Enabled(s, step)
    ensures SingleFlight(Next(s, step))
  {
    if !SlotOf(s.slots, step.repo).scheduled {
      assert forall i :: i in s.tasks ==> s.tasks[i].repo != step.repo by {
        assert !HasTask(s, step.repo);
      }
    }
    forall repo ensures SlotOf(Next(s, step).slots, repo).scheduled <==> HasTask(Next(s, step), repo) {
      CompleteKeepsOwners(s, step, repo);
    }
  }

  lemma CompleteKeepsTask(s: System, step: Step, id: nat)
    requires Inv(s) && step.Complete? && Enabled(s, step) && id in Next(s, step).tasks
    ensures TaskInv(Next(s, step), Next(s, step).tasks[id])
  {
    if id in s.tasks { assert TaskInv(s, s.tasks[id]); }
    assert Bounded(s, Next(s, step).tasks[id].repo) && IdleInv(s, Next(s, step).tasks[id].repo);
  }

  lemma CompleteKeepsRepo(s: System, step: Step, repo: Repo)
    requires Inv(s) && step.Complete? && Enabled(s, step)
    ensures Bounded(Next(s, step), repo) && IdleInv(Next(s, step), repo)
  {
    assert Bounded(s, repo) && IdleInv(s, repo);
  }

  lemma CompleteKeepsInv(s: System, step: Step)
    requires Inv(s) && step.Complete? && Enabled(s, step)
    ensures Inv(Next(s, step))
  {
    CompleteKeepsSingleFlight(s, step);
    forall id | id in Next(s, step).tasks ensures TaskInv(Next(s, step), Next(s, step).tasks[id]) {
      CompleteKeepsTask(s, step, id);
    }
    forall repo ensures Bounded(Next(s, step), repo) && IdleInv(Next(s, step), repo) {
      CompleteKeepsRepo(s, step, repo);
    }
  }

  predicate Retires(s: System, step: Step) {
    step.Finish? && step.id in s.tasks && s.tasks[step.id].pc.Running? && !Again(s.slots, s.tasks[step.id].repo)
  }

  lemma RetireKeepsOwners(s: System, step: Step, repo: Repo)
    requires Inv(s) && Retires(s, step)
    ensures SlotOf(Next(s, step).slots, repo).scheduled <==> HasTask(Next(s, step), repo)
  {
    var t := Next(s, step);
    if repo != s.tasks[step.id].repo && HasTask(s, repo) {
      var id :| id in s.tasks && s.tasks[id].repo == repo;
      assert id in t.tasks && t.tasks[id].repo == repo;
    }
  }

  lemma RetireKeepsRepo(s: System, step: Step, repo: Repo)
    requires Inv(s) && Retires(s, step)
    ensures Bounded(Next(s, step), repo) && IdleInv(Next(s, step), repo)
  {
    assert Bounded(s, repo) && IdleInv(s, repo) && TaskInv(s, s.tasks[step.id]);
  }

  lemma RetireKeepsTask(s: System, step: Step, id: nat)
    requires Inv(s) && Retires(s, step) && id in Next(s, step).tasks
    ensures TaskInv(Next(s, step), Next(s, step).tasks[id])
  {
    assert TaskInv(s, s.tasks[id]) && s.tasks[id].repo != s.tasks[step.id].repo;
  }

  lemma RetireKeepsInv(s: System, step: Step)
    requires Inv(s) && step.Finish? && Enabled(s, step) && !Again(s.slots, s.tasks[step.id].repo)
    ensures Inv(Next(s, step))
  {
    var t := Next(s, step);
    forall repo ensures SlotOf(t.slots, repo).scheduled <==> HasTask(t, repo) { RetireKeepsOwners(s, step, repo); }
    forall repo ensures Bounded(t, repo) && IdleInv(t, repo) { RetireKeepsRepo(s, step, repo); }
    forall id | id in t.tasks ensures TaskInv(t, t.tasks[id]) { RetireKeepsTask(s, step, id); }
  }

  /** Every other task step keeps the task, and keeps which repositories are scheduled. */
  lemma MoveKeepsSingleFlight(s: System, step: Step)
    requires Inv(s) && !step.Complete? && Enabled(s, step)
    requires step.Finish? ==> Again(s.slots, s.tasks[step.id].repo)
    ensures SingleFlight(Next(s, step))
  {
    var t := Next(s, step);
    forall repo ensures SlotOf(t.slots, repo).scheduled <==> HasTask(t, repo) {
      SameOwners(s, t, repo);
      assert SlotOf(s.slots, repo).scheduled == SlotOf(t.slots, repo).scheduled;
    }
  }

  lemma MoveKeepsRepo(s: System, step: Step, repo: Repo)
    requires Inv(s) && !step.Complete? && Enabled(s, step)
    requires step.Finish? ==> Again(s.slots, s.tasks[step.id].repo)
    ensures Bounded(Next(s, step), repo) && IdleInv(Next(s, step), repo)
  {
    assert Bounded(s, repo) && IdleInv(s, repo);
    if !step.Tick? {
      assert TaskInv(s, s.tasks[step.id]);
      assert HasTask(s, s.tasks[step.id].repo);
    }
  }

  lemma MoveKeepsTask(s: System, step: Step, id: nat)
    requires Inv(s) && !step.Complete? && Enabled(s, step) && id in Next(s, step).tasks
    requires step.Finish? ==> Again(s.slots, s.tasks[step.id].repo)
    ensures TaskInv(Next(s, step), Next(s, step).tasks[id])
  {
    if id in s.tasks { assert TaskInv(s, s.tasks[id]); }
    assert Bounded(s, Next(s, step).tasks[id].repo) && IdleInv(s, Next(s, step).tasks[id].repo);
  }

  lemma TaskStepKeepsInv(s: System, step: Step)
    requires Inv(s) && !step.Complete? && Enabled(s, step)
    ensures Inv(Next(s, step))
  {
    if step.Finish? && !Again(s.slots, s.tasks[step.id].repo) {
      RetireKeepsInv(s, step);
    } else {
      MoveKeepsSingleFlight(s, step);
      forall repo ensures Bounded(Next(s, step), repo) && IdleInv(Next(s, step), repo) {
        MoveKeepsRepo(s, step, repo);
      }
      forall id | id in Next(s, step).tasks ensures TaskInv(Next(s, step), Next(s, step).tasks[id]) {
        MoveKeepsTask(s, step, id);
      }
    }
  }

  lemma InvMeansNothingLost(s: System)
    requires Inv(s)
    ensures NothingLost(s)
  {
    forall repo | !HasTask(s, repo) ensures !Pending(s, repo) {
      assert IdleInv(s, repo);
    }
  }

  /** Safety over whole runs: single flight, no lost completion, passes never outnumber completions. */
  lemma {:induction false} NoLostRecompute(s: System, steps: seq<Step>)
    requires Inv(s) && Runs(s, steps)
    ensures Inv(After(s, steps))
    decreases |steps|
  {
    if steps != [] {
      if steps[0].Complete? { CompleteKeepsInv(s, steps[0]); } else { TaskStepKeepsInv(s, steps[0]); }
      NoLostRecompute(Next(s, steps[0]), steps[1..]);
    }
  }

  lemma EveryRunFromBoot(steps: seq<Step>)
    requires Runs(INITIAL, steps)
    ensures var s := After(INITIAL, steps); SingleFlight(s) && NothingLost(s) && PassesBounded(s)
  {
    NoLostRecompute(INITIAL, steps);
    InvMeansNothingLost(After(INITIAL, steps));
  }

  // ---------------------------------------------------------------------------------------
  // The quiet window
  // ---------------------------------------------------------------------------------------

  /** The time after `steps`, and the time of the last completion of `repo` among them: read off the
      steps alone. */
  function Clock(steps: seq<Step>): nat {
    if steps == [] then 0
    else
      var last, before := steps[|steps| - 1], Clock(steps[..|steps| - 1]);
      if last.Tick? then before + last.elapsed else before
  }

  function LastCompletedAt(steps: seq<Step>, repo: Repo): Option<nat> {
    if steps == [] then None
    else
      var last, before := steps[|steps| - 1], steps[..|steps| - 1];
      if last.Complete? && last.repo == repo then Some(Clock(before)) else LastCompletedAt(before, repo)
  }

  /** The system's time and stamps are those of its steps. */
  ghost predicate TimesAgree(s: System, steps: seq<Step>) {
    s.now == Clock(steps) && forall repo :: SlotOf(s.slots, repo).lastCompletion == LastCompletedAt(steps, repo)
  }

  lemma StepKeepsTimes(s: System, past: seq<Step>, step: Step)
    requires TimesAgree(s, past) && Enabled(s, step)
    ensures TimesAgree(Next(s, step), past + [step])
  {
    var t, steps := Next(s, step), past + [step];
    assert steps[..|past|] == past;
    forall repo ensures SlotOf(t.slots, repo).lastCompletion == LastCompletedAt(steps, repo) {
      assert SlotOf(s.slots, repo).lastCompletion == LastCompletedAt(past, repo);
    }
  }

  lemma {:induction false} RunKeepsTimes(s: System, past: seq<Step>, steps: seq<Step>)
    requires TimesAgree(s, past) && Runs(s, steps)
    ensures TimesAgree(After(s, steps), past + steps)
    decreases |steps|
  {
    if steps == [] {
      assert past + steps == past;
    } else {
      StepKeepsTimes(s, past, steps[0]);
      RunKeepsTimes(Next(s, steps[0]), past + [steps[0]], steps[1..]);
      assert past + [steps[0]] + steps[1..] == past + steps;
    }
  }

  /** After any run from boot, a poll goes on exactly when its repository has been quiet for the whole
      window since its last completion, however many completions came before; otherwise it sleeps until
      the window that this completion opened is over. */
  lemma PollWaitsOutTheLastCompletion(steps: seq<Step>, id: nat)
    requires Runs(INITIAL, steps) && Enabled(After(INITIAL, steps), Poll(id))
    ensures var s := After(INITIAL, steps);
            var last, pc := LastCompletedAt(steps, s.tasks[id].repo), Next(s, Poll(id)).tasks[id].pc;
            && s.now == Clock(steps) && last.Some?
            && (last.value + DEBOUNCE <= Clock(steps) ==> pc == Quiet(Clock(steps)))
            && (Clock(steps) < last.value + DEBOUNCE ==> pc == Sleeping(last.value + DEBOUNCE))
  {
    var s := After(INITIAL, steps);
    assert [] + steps == steps;
    RunKeepsTimes(INITIAL, [], steps);
    NoLostRecompute(INITIAL, steps);
    assert TaskInv(s, s.tasks[id]);
    assert SlotOf(s.slots, s.tasks[id].repo).lastCompletion == LastCompletedAt(steps, s.tasks[id].repo);
  }

  /** A pass begins only after a poll of its task that found the window over: the last completion is a
      whole window older than that poll, or came after it. */
  lemma PassFollowsAQuietPoll(steps: seq<Step>, id: nat)
    requires Runs(INITIAL, steps) && Enabled(After(INITIAL, steps), Mark(id))
    ensures var s := After(INITIAL, steps);
            var last, polled := LastCompletedAt(steps, s.tasks[id].repo), s.tasks[id].pc.polledAt;
            last.Some? && polled <= Clock(steps) && (last.value + DEBOUNCE <= polled || polled <= last.value)
  {
    var s := After(INITIAL, steps);
    assert [] + steps == steps;
    RunKeepsTimes(INITIAL, [], steps);
    NoLostRecompute(INITIAL, steps);
    assert TaskInv(s, s.tasks[id]);
    assert SlotOf(s.slots, s.tasks[id].repo).lastCompletion == LastCompletedAt(steps, s.tasks[id].repo);
  }

  // ---------------------------------------------------------------------------------------
  // Exactly one more pass
  // ---------------------------------------------------------------------------------------

  /** Passes begun plus the one still owed: what a completion-free run conserves. */
  function PassesDue(s: System, repo: Repo): nat {
    HistoryOf(s, repo).passes + if Pending(s, repo) then 1 else 0
  }

  ghost predicate CompletionFree(steps: seq<Step>) {
    forall i :: 0 <= i < |steps| ==> !steps[i].Complete?
  }

  lemma {:induction false} PassesDueConserved(s: System, steps: seq<Step>, repo: Repo)
    requires Inv(s) && Runs(s, steps) && CompletionFree(steps)
    ensures PassesDue(After(s, steps), repo) == PassesDue(s, repo)
    decreases |steps|
  {
    if steps != [] {
      TaskStepKeepsInv(s, steps[0]);
      PassesDueConserved(Next(s, steps[0]), steps[1..], repo);
    }
  }

  /** After the last completion of a burst, a repository gets exactly one more pass when some
      completion is still unseen, and none otherwise. */
  lemma BurstCoalesces(s: System, steps: seq<Step>, repo: Repo)
    requires Inv(s) && Runs(s, steps) && CompletionFree(steps)
    requires !HasTask(After(s, steps), repo)
    ensures HistoryOf(After(s, steps), repo).passes
            == HistoryOf(s, repo).passes + if Pending(s, repo) then 1 else 0
    ensures !Pending(After(s, steps), repo)
  {
    NoLostRecompute(s, steps);
    InvMeansNothingLost(After(s, steps));
    PassesDueConserved(s, steps, repo);
  }

  // ---------------------------------------------------------------------------------------
  // Every task can retire
  // ---------------------------------------------------------------------------------------

  lemma {:induction false} RunsConcat(s: System, a: seq<Step>, b: seq<Step>)
    requires Runs(s, a) && Runs(After(s, a), b)
    ensures Runs(s, a + b) && After(s, a + b) == After(After(s, a), b)
    decreases |a|
  {
    if a == [] {
      assert a + b == b;
    } else {
      RunsConcat(Next(s, a[0]), a[1..], b);
      assert (a + b)[0] == a[0] && (a + b)[1..] == a[1..] + b;
    }
  }

  function Distance(pc: Pc, owed: bool): nat {
    match pc
    case Spawning => 5
    case Polling => 4
    case Sleeping(_) => 5
    case Quiet(_) => 2
    case Running => if owed then 6 else 1
  }

  /** The task's own next step. */
  function OwnStep(pc: Pc, id: nat): Step {
    match pc
    case Spawning => Start(id)
    case Polling => Poll(id)
    case Sleeping(_) => Wake(id)
    case Quiet(_) => Mark(id)
    case Running => Finish(id)
  }

  /** Once the debounce window has passed, each of the task's own steps brings it nearer to retiring. */
  lemma OwnStepAdvances(s: System, id: nat)
    requires Inv(s) && id in s.tasks
    requires SlotOf(s.slots, s.tasks[id].repo).lastCompletion.value + DEBOUNCE <= s.now
    requires s.tasks[id].pc.Sleeping? ==> s.tasks[id].pc.wake <= s.now
    ensures var step := OwnStep(s.tasks[id].pc, id);
            && Enabled(s, step)
            && Next(s, step).now == s.now
            && Next(s, step).tasks - {id} == s.tasks - {id}
            && (id in Next(s, step).tasks ==>
                  && Next(s, step).tasks[id].repo == s.tasks[id].repo
                  && !Next(s, step).tasks[id].pc.Sleeping?
                  && SlotOf(Next(s, step).slots, s.tasks[id].repo).lastCompletion
                     == SlotOf(s.slots, s.tasks[id].repo).lastCompletion
                  && Distance(Next(s, step).tasks[id].pc, Again(Next(s, step).slots, s.tasks[id].repo))
                     < Distance(s.tasks[id].pc, Again(s.slots, s.tasks[id].repo)))
  {
  }

  lemma {:induction false} TaskRetires(s: System, id: nat) returns (steps: seq<Step>)
    requires Inv(s) && id in s.tasks
    requires SlotOf(s.slots, s.tasks[id].repo).lastCompletion.value + DEBOUNCE <= s.now
    requires s.tasks[id].pc.Sleeping? ==> s.tasks[id].pc.wake <= s.now
    ensures Runs(s, steps) && CompletionFree(steps)
    ensures After(s, steps).tasks == s.tasks - {id}
    decreases Distance(s.tasks[id].pc, Again(s.slots, s.tasks[id].repo))
  {
    var step := OwnStep(s.tasks[id].pc, id);
    OwnStepAdvances(s, id);
    TaskStepKeepsInv(s, step);
    var t := Next(s, step);
    var rest := [];
    if id in t.tasks {
      rest := TaskRetires(t, id);
    } else {
      assert t.tasks == t.tasks - {id};
    }
    steps := [step] + rest;
    assert steps[1..] == rest;
  }

  /** Waits out the window and retires one task. */
  lemma SettleOne(s: System, id: nat) returns (steps: seq<Step>)
    requires Inv(s) && id in s.tasks
    ensures Runs(s, steps) && CompletionFree(steps)
    ensures After(s, steps).tasks.Keys == s.tasks.Keys - {id} && Inv(After(s, steps))
  {
    var pause := DEBOUNCE + if s.tasks[id].pc.Sleeping? then s.tasks[id].pc.wake else 0;
    TaskStepKeepsInv(s, Tick(pause));
    var t := Next(s, Tick(pause));
    var own := TaskRetires(t, id);
    NoLostRecompute(t, own);
    steps := [Tick(pause)] + own;
    assert steps[1..] == own;
  }

  lemma {:induction false} RetireAll(s: System) returns (steps: seq<Step>)
    requires Inv(s)
    ensures Runs(s, steps) && CompletionFree(steps)
    ensures After(s, steps).tasks == map[] && Inv(After(s, steps))
    decreases |s.tasks.Keys|
  {
    if s.tasks == map[] {
      steps := [];
    } else {
      var id :| id in s.tasks;
      var first := SettleOne(s, id);
      var rest := RetireAll(After(s, first));
      RunsConcat(s, first, rest);
      steps := first + rest;
    }
  }

  /** No run gets stuck: from every reachable state the scheduler can retire every task without
      any further completion, and then no repository has an unseen completion. */
  lemma CanAlwaysSettle(s: System) returns (steps: seq<Step>)
    requires Inv(s)
    ensures Runs(s, steps) && CompletionFree(steps)
    ensures After(s, steps).tasks == map[]
    ensures forall repo :: !Pending(After(s, steps), repo)
  {
    steps := RetireAll(s);
    InvMeansNothingLost(After(s, steps));
    forall repo ensures !HasTask(After(s, steps), repo) {}
  }
}
