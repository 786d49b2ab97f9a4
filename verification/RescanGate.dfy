/**
 Coalesced full rescans of one watcher (`src/indexing/watcher.rs`: `RescanGate`, `dispatch`).

 The send into the bounded trigger channel and the clearing of `pending` are separate steps here,
 as they are in the source; the channel stays open.
 */
module RescanGate {
  import opened IgnoreRules
  import opened ChangeFilter
  import opened Sequences

  datatype Change = Change(path: Target, kind: ChangeKind)
  datatype ChangeKind = Added | Modified | Deleted

  /** What this watcher sends; `Foreign` stands for the triggers of other repositories, which share the
      channel. */
  datatype Trigger = Rescan | Batch(changes: seq<Change>) | Foreign

  /** `waiting` sends have not entered the channel; `entered` ones have, but not cleared `pending`.
      `entries` counts the rescans that ever entered. */
  datatype State = State(pending: bool, waiting: nat, entered: nat, queue: seq<Trigger>, entries: nat)

  const IDLE := State(false, 0, 0, [], 0)

  const CAPACITY: nat := 256

  function Requested(s: State): State {
    if s.pending then s else s.(pending := true, waiting := s.waiting + 1)
  }

  datatype Outcome = WatcherError | Events(changes: seq<Change>)

  ghost function Relevant(root: Node, cfg: Config, changes: seq<Change>): seq<Change> {
    if changes == [] then []
    else (if MayAffectIndex(root, cfg, changes[0].path) then [changes[0]] else []) + Relevant(root, cfg, changes[1..])
  }

  ghost predicate AreTheRelevant(root: Node, cfg: Config, changes: seq<Change>, batch: seq<Change>) {
    KeepsInOrder(batch, changes, (c: Change) => MayAffectIndex(root, cfg, c.path))
  }

  /** A batch holds exactly the changes that may affect the index, in the order they arrived. */
  lemma {:induction false} RelevantIsExact(root: Node, cfg: Config, changes: seq<Change>)
    ensures AreTheRelevant(root, cfg, changes, Relevant(root, cfg, changes))
  {
    var may := (c: Change) => MayAffectIndex(root, cfg, c.path);
    if changes == [] {
      KeepsNothing(may);
    } else {
      RelevantIsExact(root, cfg, changes[1..]);
      KeepsOneBefore(Relevant(root, cfg, changes[1..]), changes[1..], changes[0], may);
      FirstAndRest(changes);
    }
  }

  /** An error or a full channel becomes a rescan request; an empty batch sends nothing. */
  function Dispatched(s: State, errored: bool, relevant: seq<Change>): State {
    if errored then Requested(s)
    else if relevant == [] then s
    else if |s.queue| < CAPACITY then s.(queue := s.queue + [Batch(relevant)])
    else Requested(s)
  }

  /** What a callback does to the channel and to the request, field by field. */
  predicate SentOrAsked(before: State, after: State, errored: bool, relevant: seq<Change>) {
    && (!errored && relevant == [] ==> after == before)
    && (!errored && relevant != [] && |before.queue| < CAPACITY ==>
          after == before.(queue := before.queue + [Batch(relevant)]))
    && (errored || (relevant != [] && |before.queue| >= CAPACITY) ==>
          && after.pending && after.queue == before.queue && after.entered == before.entered
          && after.waiting == before.waiting + if before.pending then 0 else 1)
  }

  class Gate {
    var state: State

    constructor ()
      ensures state == IDLE
    {
      state := IDLE;
    }

    method Request()
      modifies this
      ensures state == Requested(old(state))
      ensures state.pending && state.waiting == old(state).waiting + if old(state).pending then 0 else 1
      ensures state.queue == old(state).queue && state.entered == old(state).entered
    {
      var was := state.pending;
      state := state.(pending := true);
      if was {
        return;
      }
      state := state.(waiting := state.waiting + 1);
    }

    /** One debouncer callback: filters the batch with a fresh filter, then sends or asks for a rescan. */
    method Dispatch(outcome: Outcome, root: Node, rootName: string, extensions: set<string>)
      modifies this
      ensures var relevant :=
                if outcome.Events? then Relevant(root, Config(extensions, {}, {}), outcome.changes) else [];
              && state == Dispatched(old(state), outcome.WatcherError?, relevant)
              && SentOrAsked(old(state), state, outcome.WatcherError?, relevant)
              && (outcome.Events? ==> AreTheRelevant(root, Config(extensions, {}, {}), outcome.changes, relevant))
    {
      if outcome.WatcherError? {
        Request();
        return;
      }
      var kept := Retain(outcome.changes, root, rootName, extensions);
      if kept == [] {
        return;
      }
      if |state.queue| < CAPACITY {
        state := state.(queue := state.queue + [Batch(kept)]);
      } else {
        Request();
      }
    }
  }

  /** The changes of a batch that may affect the index. */
  method Retain(changes: seq<Change>, root: Node, rootName: string, extensions: set<string>)
    returns (kept: seq<Change>)
    ensures kept == Relevant(root, Config(extensions, {}, {}), changes)
    ensures AreTheRelevant(root, Config(extensions, {}, {}), changes, kept)
  {
    var cfg := Config(extensions, {}, {});
    var filter := new Filter(root, rootName, cfg);
    kept := [];
    var i := 0;
    while i < |changes|
      invariant 0 <= i <= |changes|
      invariant filter.Valid() && fresh(filter)
      invariant Relevant(root, cfg, changes) == kept + Relevant(root, cfg, changes[i..])
    {
      var may := filter.MayAffectIndexQuery(changes[i].path);
      if may {
        kept := kept + [changes[i]];
      }
      i := i + 1;
    }
    assert changes[i..] == [] && kept + [] == kept;
    RelevantIsExact(root, cfg, changes);
  }

  // ---------------------------------------------------------------------------------------
  // All interleavings
  // ---------------------------------------------------------------------------------------

  datatype Step =
    | Callback(errored: bool, relevant: seq<Change>)
    | SafetyNet
    | SendEnters
    | ClearPending
    | Receive
    | ForeignEnters

  predicate Enabled(s: State, step: Step) {
    match step
    case SendEnters => s.waiting > 0 && |s.queue| < CAPACITY
    case ClearPending => s.entered > 0
    case Receive => s.queue != []
    case ForeignEnters => |s.queue| < CAPACITY
    case _ => true
  }

  function Next(s: State, step: Step): State
    requires Enabled(s, step)
  {
    match step
    case Callback(errored, relevant) => Dispatched(s, errored, relevant)
    case SafetyNet => Requested(s)
    case SendEnters =>
      State(s.pending, s.waiting - 1, s.entered + 1, s.queue + [Rescan], s.entries + 1)
    case ClearPending => s.(entered := s.entered - 1, pending := false)
    case Receive => s.(queue := s.queue[1..])
    case ForeignEnters => s.(queue := s.queue + [Foreign])
  }

  /** A step that must be followed by a full scan: a watcher error, a batch the full channel
      refused, or the safety-net tick. */
  predicate Needs(s: State, step: Step) {
    || step.SafetyNet?
    || (step.Callback? && (step.errored || (step.relevant != [] && |s.queue| >= CAPACITY)))
  }

  ghost predicate Runs(s: State, steps: seq<Step>)
    decreases |steps|
  {
    steps == [] || (Enabled(s, steps[0]) && Runs(Next(s, steps[0]), steps[1..]))
  }

  ghost function After(s: State, steps: seq<Step>): State
    requires Runs(s, steps)
    decreases |steps|
  {
    if steps == [] then s else After(Next(s, steps[0]), steps[1..])
  }

  /** At most one rescan send exists, and exactly while `pending` is set. */
  predicate Inv(s: State) {
    && s.waiting + s.entered == (if s.pending then 1 else 0)
    && |s.queue| <= CAPACITY
  }

  lemma {:induction false} AtMostOneSend(s: State, steps: seq<Step>)
    requires Inv(s) && Runs(s, steps)
    ensures Inv(After(s, steps)) && After(s, steps).entries >= s.entries
    decreases |steps|
  {
    if steps != [] { AtMostOneSend(Next(s, steps[0]), steps[1..]); }
  }

  /** A send is outstanding, or a full rescan has entered the channel since `s`. */
  ghost predicate Honoured(s: State, steps: seq<Step>)
    requires Runs(s, steps)
  {
    After(s, steps).waiting > 0 || After(s, steps).entries > s.entries
  }

  lemma {:induction false} OutstandingSendIsHonoured(s: State, steps: seq<Step>)
    requires Inv(s) && s.waiting > 0 && Runs(s, steps)
    ensures Honoured(s, steps)
    decreases |steps|
  {
    if steps != [] {
      var t := Next(s, steps[0]);
      if t.waiting > 0 {
        OutstandingSendIsHonoured(t, steps[1..]);
      } else {
        AtMostOneSend(t, steps[1..]);
      }
    }
  }

  /** A full scan starts during the run: some step receives a rescan. */
  ghost predicate Scans(s: State, steps: seq<Step>)
    requires Runs(s, steps)
    decreases |steps|
  {
    steps != [] && ((steps[0].Receive? && s.queue[0].Rescan?) || Scans(Next(s, steps[0]), steps[1..]))
  }

  /** A rescan is on its way: waiting to enter, or in the channel. */
  predicate OnItsWay(s: State) {
    s.waiting > 0 || Rescan in s.queue
  }

  /** The promise about a need: a full scan has started since, or one is on its way. */
  ghost predicate Served(s: State, steps: seq<Step>)
    requires Runs(s, steps)
  {
    Scans(s, steps) || OnItsWay(After(s, steps))
  }

  /** Some step of the run receives `trigger`. */
  ghost predicate Receives(s: State, steps: seq<Step>, trigger: Trigger)
    requires Runs(s, steps)
    decreases |steps|
  {
    && steps != []
    && ((steps[0].Receive? && s.queue[0] == trigger) || Receives(Next(s, steps[0]), steps[1..], trigger))
  }

  lemma StaysQueued(s: State, step: Step, trigger: Trigger)
    requires trigger in s.queue && Enabled(s, step) && !(step.Receive? && s.queue[0] == trigger)
    ensures trigger in Next(s, step).queue
  {
    if step.Receive? {
      FirstAndRest(s.queue);
    }
  }

  /** What is in the channel is received, or still there. */
  lemma {:induction false} QueuedIsReceived(s: State, steps: seq<Step>, trigger: Trigger)
    requires trigger in s.queue && Runs(s, steps)
    ensures Receives(s, steps, trigger) || trigger in After(s, steps).queue
    decreases |steps|
  {
    if steps != [] && !(steps[0].Receive? && s.queue[0] == trigger) {
      StaysQueued(s, steps[0], trigger);
      QueuedIsReceived(Next(s, steps[0]), steps[1..], trigger);
    }
  }

  /** The changes of a callback are never dropped in silence: in every continuation their batch has been
      received or is still queued, unless the channel was full, and then a rescan is asked for. */
  lemma NoBatchIsLost(s: State, relevant: seq<Change>, steps: seq<Step>)
    requires Inv(s) && relevant != [] && Runs(Next(s, Callback(false, relevant)), steps)
    ensures var t := Next(s, Callback(false, relevant));
            if |s.queue| < CAPACITY
            then Receives(t, steps, Batch(relevant)) || Batch(relevant) in After(t, steps).queue
            else Needs(s, Callback(false, relevant)) && t.pending
  {
    var t := Next(s, Callback(false, relevant));
    if |s.queue| < CAPACITY {
      assert t.queue[|s.queue|] == Batch(relevant);
      QueuedIsReceived(t, steps, Batch(relevant));
    }
  }

  lemma StaysOnItsWay(s: State, step: Step)
    requires OnItsWay(s) && Enabled(s, step) && !(step.Receive? && s.queue[0].Rescan?)
    ensures OnItsWay(Next(s, step))
  {
    if step.Receive? && Rescan in s.queue {
      assert s.queue == [s.queue[0]] + s.queue[1..];
    }
  }

  lemma {:induction false} OnItsWayIsServed(s: State, steps: seq<Step>)
    requires OnItsWay(s) && Runs(s, steps)
    ensures Served(s, steps)
    decreases |steps|
  {
    if steps != [] && !(steps[0].Receive? && s.queue[0].Rescan?) {
      StaysOnItsWay(s, steps[0]);
      OnItsWayIsServed(Next(s, steps[0]), steps[1..]);
    }
  }

  /** Every need is followed by a full scan, started or on its way in every continuation, exactly when it
      does not arrive after its predecessor's rescan was received and before `pending` was cleared. */
  lemma NeedIsServedExactlyOutsideTheWindow(s: State, step: Step)
    requires Inv(s) && Enabled(s, step) && Needs(s, step)
    ensures (forall steps :: Runs(Next(s, step), steps) ==> Served(Next(s, step), steps))
            <==> s.entered == 0 || Rescan in s.queue
  {
    var t := Next(s, step);
    if s.entered == 0 || Rescan in s.queue {
      forall steps | Runs(t, steps) ensures Served(t, steps) {
        OnItsWayIsServed(t, steps);
      }
    } else {
      assert Runs(t, []) && !Served(t, []);
    }
  }

  lemma Cons(s: State, step: Step, rest: seq<Step>)
    requires Enabled(s, step)
    ensures Runs(s, [step] + rest) == Runs(Next(s, step), rest)
    ensures Runs(s, [step] + rest) ==> After(s, [step] + rest) == After(Next(s, step), rest)
  {
    assert ([step] + rest)[1..] == rest;
  }

  /** The window can swallow a need for good: a run that ends idle with no scan started since the error. */
  lemma WindowLosesANeed() returns (before: seq<Step>, after: seq<Step>)
    ensures Runs(IDLE, before)
    ensures var s := After(IDLE, before); Needs(s, Callback(true, [])) && Enabled(s, Callback(true, []))
    ensures var t := Next(After(IDLE, before), Callback(true, []));
            && Runs(t, after) && !Served(t, after)
            && After(t, after).(entries := 0) == IDLE
  {
    before := [SafetyNet] + ([SendEnters] + ([Receive] + []));
    after := [ClearPending] + [];
    var s1 := Next(IDLE, SafetyNet);
    var s2 := Next(s1, SendEnters);
    var s3 := Next(s2, Receive);
    assert s3 == State(true, 0, 1, [], 1);
    Cons(s2, Receive, []);
    Cons(s1, SendEnters, [Receive] + []);
    Cons(IDLE, SafetyNet, [SendEnters] + ([Receive] + []));
    var t := Next(s3, Callback(true, []));
    Cons(t, ClearPending, []);
    assert !Scans(t, after) by { assert after[1..] == []; }
  }
}
