/**
 Several processes over one session directory: the router and every worker keep a store of their own
 (`src/router/mod.rs`, `src/server.rs`) beside the same files (`src/mcp_session_store.rs`:
 `mcp_sessions_dir`).

 Each process acts as `SessionStore` says on its own memory and the common directory. What a load
 answers is read off the history of all of them.
 */
module SharedSessions {
  import opened Options
  import opened Recency
  import opened Sequences
  import opened SessionStore

  datatype Memory = Memory(recency: seq<Id>, mem: map<Id, State>)

  datatype World = World(memories: map<nat, Memory>, disk: map<Id, State>)

  const NOBODY := World(map[], map[])

  /** A process that has done nothing yet holds nothing. */
  function MemoryOf(w: World, p: nat): Memory {
    if p in w.memories then w.memories[p] else Memory([], map[])
  }

  function View(w: World, p: nat): Model {
    Model(MemoryOf(w, p).recency, MemoryOf(w, p).mem, w.disk)
  }

  datatype Act = Act(process: nat, op: Op)

  function Step(w: World, a: Act): World {
    var m := Next(View(w, a.process), true, a.op);
    World(w.memories[a.process := Memory(m.recency, m.mem)], m.disk)
  }

  datatype Deed = Deed(process: nat, event: Event)

  function DeedsOf(p: nat, events: seq<Event>): (deeds: seq<Deed>)
    ensures |deeds| == |events| && forall i :: 0 <= i < |deeds| ==> deeds[i] == Deed(p, events[i])
  {
    seq(|events|, i requires 0 <= i < |events| => Deed(p, events[i]))
  }

  function EventsIn(deeds: seq<Deed>): (events: seq<Event>)
    ensures |events| == |deeds| && forall i :: 0 <= i < |deeds| ==> events[i] == deeds[i].event
  {
    seq(|deeds|, i requires 0 <= i < |deeds| => deeds[i].event)
  }

  /** The last word of the whole history on a durable session: what the directory holds. */
  function DiskWord(deeds: seq<Deed>, id: Id): Option<State> {
    LastFate(EventsIn(deeds), id, true)
  }

  /** The last word of `p` itself; a load that found nothing in memory brought in the directory's. */
  function MemoryWord(deeds: seq<Deed>, p: nat, id: Id): Option<State> {
    if deeds == [] then None
    else
      var last, before := deeds[|deeds| - 1], deeds[..|deeds| - 1];
      if last.process != p then MemoryWord(before, p, id)
      else
        match last.event
        case Wrote(x, state) => if x == id then Some(state) else MemoryWord(before, p, id)
        case Evicted(x) => if x == id then None else MemoryWord(before, p, id)
        case Erased(x) => if x == id then None else MemoryWord(before, p, id)
        case Touched(x) =>
          if x == id && MemoryWord(before, p, id).None? then DiskWord(before, id) else MemoryWord(before, p, id)
        case Rebooted => None
  }

  function Find(m: map<Id, State>, id: Id): Option<State> {
    if id in m then Some(m[id]) else None
  }

  ghost predicate WellKept(recency: seq<Id>, ids: set<Id>) {
    exists times: map<Id, nat>, high: int :: -1 <= high && OldestFirst(recency, ids, times, high)
  }

  ghost predicate MemoriesTold(deeds: seq<Deed>, w: World) {
    forall p, id :: Find(MemoryOf(w, p).mem, id) == MemoryWord(deeds, p, id)
  }

  ghost predicate DiskTold(deeds: seq<Deed>, w: World) {
    forall id :: Safe(id) ==> Find(w.disk, id) == DiskWord(deeds, id)
  }

  ghost predicate AllKept(w: World) {
    forall p :: WellKept(MemoryOf(w, p).recency, MemoryOf(w, p).mem.Keys)
  }

  /** A world explained by the history of all its processes. */
  ghost predicate Told(deeds: seq<Deed>, w: World) {
    MemoriesTold(deeds, w) && DiskTold(deeds, w) && AllKept(w)
  }

  // ---------------------------------------------------------------------------------------
  // One more deed
  // ---------------------------------------------------------------------------------------

  lemma EventsPush(deeds: seq<Deed>, d: Deed)
    ensures EventsIn(deeds + [d]) == EventsIn(deeds) + [d.event]
    ensures (deeds + [d])[..|deeds|] == deeds
  {
  }

  lemma DiskWordPush(deeds: seq<Deed>, d: Deed, id: Id)
    ensures DiskWord(deeds + [d], id)
            == match d.event
               case Wrote(x, state) => if x == id then Some(state) else DiskWord(deeds, id)
               case Evicted(x) => if x == id then None else DiskWord(deeds, id)
               case Erased(x) => if x == id then None else DiskWord(deeds, id)
               case Touched(_) => DiskWord(deeds, id)
               case Rebooted => DiskWord(deeds, id)
  {
    EventsPush(deeds, d);
    Pushed(EventsIn(deeds), d.event);
  }

  lemma DeedsPush(p: nat, events: seq<Event>, e: Event)
    ensures DeedsOf(p, events + [e]) == DeedsOf(p, events) + [Deed(p, e)]
  {
  }

  /** What evictions by `p` change: its memory and the directory lose the victims. */
  lemma {:induction false} WordsAfterEvictions(deeds: seq<Deed>, p: nat, victims: seq<Id>, q: nat, id: Id)
    ensures var after := deeds + DeedsOf(p, Evictions(victims));
            && MemoryWord(after, q, id)
               == (if q == p && id in ToSet(victims) then None else MemoryWord(deeds, q, id))
            && DiskWord(after, id) == (if id in ToSet(victims) then None else DiskWord(deeds, id))
    decreases |victims|
  {
    if victims == [] {
      assert deeds + DeedsOf(p, Evictions(victims)) == deeds;
    } else {
      var d := Deed(p, Evicted(victims[0]));
      EventsPush(deeds, d);
      DiskWordPush(deeds, d, id);
      WordsAfterEvictions(deeds + [d], p, victims[1..], q, id);
      assert deeds + [d] + DeedsOf(p, Evictions(victims[1..])) == deeds + DeedsOf(p, Evictions(victims));
    }
  }

  // ---------------------------------------------------------------------------------------
  // One more act
  // ---------------------------------------------------------------------------------------

  /** Admitting `id` keeps the memory in order, and the victims were in it. */
  lemma AdmitKept(m: Model, id: Id, state: State, victims: seq<Id>)
    requires WellKept(m.recency, m.mem.Keys) && victims <= m.recency
    requires |m.recency| - |victims| < MAX_SESSIONS || (victims == [] && id in m.mem)
    ensures var t := Entered(m, id, state, victims); WellKept(t.recency, t.mem.Keys)
    ensures ToSet(victims) <= m.mem.Keys
  {
    var times: map<Id, nat>, high: int :| -1 <= high && OldestFirst(m.recency, m.mem.Keys, times, high);
    AdmitKeepsOrder(m, times, high, state, victims, id, high + 1, times[id := high + 1]);
    var t := Entered(m, id, state, victims);
    assert OldestFirst(t.recency, t.mem.Keys, times[id := high + 1], high + 1);
  }

  lemma DeleteKept(m: Model, id: Id)
    requires WellKept(m.recency, m.mem.Keys)
    ensures WellKept(Without(m.recency, id), m.mem.Keys - {id})
  {
    var times: map<Id, nat>, high: int :| -1 <= high && OldestFirst(m.recency, m.mem.Keys, times, high);
    DeleteKeepsOrder(m.recency, id, times, high);
    assert OldestFirst(Without(m.recency, id), m.mem.Keys - {id}, times, high + 1);
  }

  lemma NextKept(m: Model, op: Op)
    requires WellKept(m.recency, m.mem.Keys)
    ensures var t := Next(m, true, op); WellKept(t.recency, t.mem.Keys)
    ensures op.StoreOp? ==> ToSet(StoreVictims(m, op.id)) <= m.mem.Keys
    ensures op.LoadOp? ==> ToSet(LoadVictims(m, true, op.id)) <= m.mem.Keys
  {
    match op
    case StoreOp(id, state) => AdmitKept(m, id, state, StoreVictims(m, id));
    case LoadOp(id) =>
      if LoadResult(m, true, id).Some? {
        LoadIsEntry(m, true, id);
        AdmitKept(m, id, LoadResult(m, true, id).value, LoadVictims(m, true, id));
      }
    case DeleteOp(id) => DeleteKept(m, id);
    case RestartOp =>
      var none: map<Id, nat> := map[];
      assert OldestFirst([], Restarted(m).mem.Keys, none, -1);
  }

  /** What one act does to the words of its process and of the directory. */
  lemma WordsAfterEntry(deeds: seq<Deed>, p: nat, victims: seq<Id>, e: Event, q: nat, id: Id)
    ensures var after := deeds + DeedsOf(p, Evictions(victims) + [e]);
            var before := deeds + DeedsOf(p, Evictions(victims));
            && after == before + [Deed(p, e)]
            && MemoryWord(before, q, id) == (if q == p && id in ToSet(victims) then None else MemoryWord(deeds, q, id))
            && DiskWord(before, id) == (if id in ToSet(victims) then None else DiskWord(deeds, id))
  {
    DeedsPush(p, Evictions(victims), e);
    Assoc(deeds, DeedsOf(p, Evictions(victims)), [Deed(p, e)]);
    WordsAfterEvictions(deeds, p, victims, q, id);
  }

  lemma MemoryWordPush(deeds: seq<Deed>, d: Deed, p: nat, id: Id)
    ensures MemoryWord(deeds + [d], p, id)
            == if d.process != p then MemoryWord(deeds, p, id)
               else
                 match d.event
                 case Wrote(x, state) => if x == id then Some(state) else MemoryWord(deeds, p, id)
                 case Evicted(x) => if x == id then None else MemoryWord(deeds, p, id)
                 case Erased(x) => if x == id then None else MemoryWord(deeds, p, id)
                 case Touched(x) =>
                   if x == id && MemoryWord(deeds, p, id).None? then DiskWord(deeds, id) else MemoryWord(deeds, p, id)
                 case Rebooted => None
  {
    Pushed(deeds, d);
  }

  function DeedsOfAct(w: World, a: Act): seq<Deed> {
    DeedsOf(a.process, EventsOf(View(w, a.process), true, a.op))
  }

  /** What process `q` and the directory hold of `id` after the act is what the longer history says. */
  ghost predicate ActTold(deeds: seq<Deed>, w: World, a: Act, q: nat, id: Id) {
    var after, t := deeds + DeedsOfAct(w, a), Step(w, a);
    && Find(MemoryOf(t, q).mem, id) == MemoryWord(after, q, id)
    && (Safe(id) ==> Find(t.disk, id) == DiskWord(after, id))
  }

  lemma StoreWords(deeds: seq<Deed>, p: nat, victims: seq<Id>, x: Id, state: State, q: nat, id: Id)
    ensures var after := deeds + DeedsOf(p, Evictions(victims) + [Wrote(x, state)]);
            && MemoryWord(after, q, id)
               == (if q != p then MemoryWord(deeds, q, id)
                   else if id == x then Some(state)
                   else if id in ToSet(victims) then None
                   else MemoryWord(deeds, q, id))
            && DiskWord(after, id)
               == (if id == x then Some(state) else if id in ToSet(victims) then None else DiskWord(deeds, id))
  {
    WordsAfterEntry(deeds, p, victims, Wrote(x, state), q, id);
    var before := deeds + DeedsOf(p, Evictions(victims));
    MemoryWordPush(before, Deed(p, Wrote(x, state)), q, id);
    DiskWordPush(before, Deed(p, Wrote(x, state)), id);
  }

  /** The same of the store. */
  lemma StoreHolds(m: Model, x: Id, state: State, id: Id)
    requires ToSet(StoreVictims(m, x)) <= m.mem.Keys
    ensures var victims, t := ToSet(StoreVictims(m, x)), Stored(m, true, x, state);
            && Find(t.mem, id)
               == (if id == x then Some(state) else if id in victims then None else Find(m.mem, id))
            && (Safe(id) ==>
                  Find(t.disk, id)
                  == if id == x then Some(state) else if id in victims then None else Find(m.disk, id))
  {
  }

  lemma StoreTold(deeds: seq<Deed>, w: World, p: nat, x: Id, state: State, q: nat, id: Id)
    requires Told(deeds, w)
    ensures ActTold(deeds, w, Act(p, StoreOp(x, state)), q, id)
  {
    NextKept(View(w, p), StoreOp(x, state));
    StoreHolds(View(w, p), x, state, id);
    StoreWords(deeds, p, StoreVictims(View(w, p), x), x, state, q, id);
    assert Find(MemoryOf(w, q).mem, id) == MemoryWord(deeds, q, id);
  }

  /** A load that finds the id in memory, or nothing at all. */
  lemma HitTold(deeds: seq<Deed>, w: World, p: nat, x: Id, q: nat, id: Id)
    requires Told(deeds, w) && !Restorable(View(w, p), true, x)
    ensures ActTold(deeds, w, Act(p, LoadOp(x)), q, id)
  {
    assert Find(MemoryOf(w, q).mem, id) == MemoryWord(deeds, q, id);
    if LoadResult(View(w, p), true, x).None? {
      assert deeds + DeedsOfAct(w, Act(p, LoadOp(x))) == deeds;
    } else {
      assert Find(MemoryOf(w, p).mem, x) == MemoryWord(deeds, p, x);
      assert DeedsOfAct(w, Act(p, LoadOp(x))) == [Deed(p, Touched(x))];
      MemoryWordPush(deeds, Deed(p, Touched(x)), q, id);
      DiskWordPush(deeds, Deed(p, Touched(x)), id);
    }
  }

  /** What the load brings in is the directory's word. */
  lemma RestoreWord(deeds: seq<Deed>, w: World, p: nat, x: Id)
    requires Told(deeds, w) && Restorable(View(w, p), true, x)
    ensures x !in ToSet(LoadVictims(View(w, p), true, x))
    ensures MemoryWord(deeds, p, x).None? && DiskWord(deeds, x) == Some(w.disk[x])
  {
    NextKept(View(w, p), LoadOp(x));
    assert Find(MemoryOf(w, p).mem, x) == MemoryWord(deeds, p, x);
    assert Find(w.disk, x) == DiskWord(deeds, x);
  }

  lemma TouchWords(deeds: seq<Deed>, p: nat, victims: seq<Id>, x: Id, q: nat, id: Id)
    requires x !in ToSet(victims) && MemoryWord(deeds, p, x).None?
    ensures var after := deeds + DeedsOf(p, Evictions(victims) + [Touched(x)]);
            && MemoryWord(after, q, id)
               == (if q != p then MemoryWord(deeds, q, id)
                   else if id == x then DiskWord(deeds, x)
                   else if id in ToSet(victims) then None
                   else MemoryWord(deeds, q, id))
            && DiskWord(after, id) == (if id in ToSet(victims) then None else DiskWord(deeds, id))
  {
    WordsAfterEntry(deeds, p, victims, Touched(x), q, id);
    var before := deeds + DeedsOf(p, Evictions(victims));
    MemoryWordPush(before, Deed(p, Touched(x)), q, id);
    DiskWordPush(before, Deed(p, Touched(x)), id);
  }

  lemma RestoreTold(deeds: seq<Deed>, w: World, p: nat, x: Id, q: nat, id: Id)
    requires Told(deeds, w) && Restorable(View(w, p), true, x)
    ensures ActTold(deeds, w, Act(p, LoadOp(x)), q, id)
  {
    RestoreWord(deeds, w, p, x);
    TouchWords(deeds, p, LoadVictims(View(w, p), true, x), x, q, id);
    assert Find(MemoryOf(w, q).mem, id) == MemoryWord(deeds, q, id);
  }

  lemma LossTold(deeds: seq<Deed>, w: World, p: nat, op: Op, q: nat, id: Id)
    requires Told(deeds, w) && (op.DeleteOp? || op.RestartOp?)
    ensures ActTold(deeds, w, Act(p, op), q, id)
  {
    var e := if op.DeleteOp? then Erased(op.id) else Rebooted;
    assert DeedsOfAct(w, Act(p, op)) == [Deed(p, e)];
    MemoryWordPush(deeds, Deed(p, e), q, id);
    DiskWordPush(deeds, Deed(p, e), id);
    assert Find(MemoryOf(w, q).mem, id) == MemoryWord(deeds, q, id);
  }

  lemma EveryActTold(deeds: seq<Deed>, w: World, a: Act, q: nat, id: Id)
    requires Told(deeds, w)
    ensures ActTold(deeds, w, a, q, id)
  {
    match a.op
    case StoreOp(x, state) => StoreTold(deeds, w, a.process, x, state, q, id);
    case LoadOp(x) =>
      if Restorable(View(w, a.process), true, x) {
        RestoreTold(deeds, w, a.process, x, q, id);
      } else {
        HitTold(deeds, w, a.process, x, q, id);
      }
    case DeleteOp(_) => LossTold(deeds, w, a.process, a.op, q, id);
    case RestartOp => LossTold(deeds, w, a.process, a.op, q, id);
  }

  lemma StepTold(deeds: seq<Deed>, w: World, a: Act)
    requires Told(deeds, w)
    ensures Told(deeds + DeedsOfAct(w, a), Step(w, a))
  {
    var after, t := deeds + DeedsOfAct(w, a), Step(w, a);
    NextKept(View(w, a.process), a.op);
    forall q ensures WellKept(MemoryOf(t, q).recency, MemoryOf(t, q).mem.Keys) {
      if q != a.process {
        assert MemoryOf(t, q) == MemoryOf(w, q);
        assert WellKept(MemoryOf(w, q).recency, MemoryOf(w, q).mem.Keys);
      }
    }
    forall q, id ensures Find(MemoryOf(t, q).mem, id) == MemoryWord(after, q, id) {
      EveryActTold(deeds, w, a, q, id);
    }
    forall id | Safe(id) ensures Find(t.disk, id) == DiskWord(after, id) {
      EveryActTold(deeds, w, a, a.process, id);
    }
  }

  // ---------------------------------------------------------------------------------------
  // Whole histories of all processes
  // ---------------------------------------------------------------------------------------

  ghost function HistoryFrom(w: World, acts: seq<Act>): (seq<Deed>, World)
    decreases |acts|
  {
    if acts == [] then ([], w)
    else
      var (deeds, last) := HistoryFrom(Step(w, acts[0]), acts[1..]);
      (DeedsOfAct(w, acts[0]) + deeds, last)
  }

  lemma {:induction false} HistoryIsTold(deeds: seq<Deed>, w: World, acts: seq<Act>)
    requires Told(deeds, w)
    ensures var (more, last) := HistoryFrom(w, acts); Told(deeds + more, last)
    decreases |acts|
  {
    if acts == [] {
      assert deeds + [] == deeds;
    } else {
      StepTold(deeds, w, acts[0]);
      HistoryIsTold(deeds + DeedsOfAct(w, acts[0]), Step(w, acts[0]), acts[1..]);
      var (rest, last) := HistoryFrom(Step(w, acts[0]), acts[1..]);
      Assoc(deeds, DeedsOfAct(w, acts[0]), rest);
    }
  }

  lemma NobodyIsTold()
    ensures Told([], NOBODY)
  {
    var none: map<Id, nat> := map[];
    assert forall p :: OldestFirst(MemoryOf(NOBODY, p).recency, MemoryOf(NOBODY, p).mem.Keys, none, -1);
  }

  /** After any history of any number of processes: a load answers the process's own last word, and
      the directory's when it has none. It answers the last word of the whole history, as a single
      process would, exactly when the process's own word, if any, is that word. */
  lemma LoadAnswersMemoryThenDirectory(acts: seq<Act>, p: nat, id: Id)
    ensures var (deeds, w) := HistoryFrom(NOBODY, acts);
            var own, answer := MemoryWord(deeds, p, id), LoadResult(View(w, p), true, id);
            && answer == (if own.Some? then own else if Safe(id) then DiskWord(deeds, id) else None)
            && (Safe(id) ==> (answer == DiskWord(deeds, id) <==> own.None? || own == DiskWord(deeds, id)))
  {
    NobodyIsTold();
    HistoryIsTold([], NOBODY, acts);
    var (deeds, w) := HistoryFrom(NOBODY, acts);
    assert [] + deeds == deeds;
    assert Find(MemoryOf(w, p).mem, id) == MemoryWord(deeds, p, id);
  }

  predicate About(e: Event, id: Id) {
    !e.Rebooted? && e.id == id
  }

  /** Only `p` ever stored, loaded, evicted or deleted `id`. */
  predicate SoleHandler(deeds: seq<Deed>, p: nat, id: Id) {
    forall i :: 0 <= i < |deeds| && About(deeds[i].event, id) ==> deeds[i].process == p
  }

  /** What the one process that handles a session remembers of it is the last word on it. */
  lemma {:induction false} SoleHandlerAgrees(deeds: seq<Deed>, p: nat, id: Id)
    requires SoleHandler(deeds, p, id)
    ensures MemoryWord(deeds, p, id).Some? ==> MemoryWord(deeds, p, id) == DiskWord(deeds, id)
    decreases |deeds|
  {
    if deeds != [] {
      var last, before := deeds[|deeds| - 1], deeds[..|deeds| - 1];
      SoleHandlerAgrees(before, p, id);
      assert before + [last] == deeds;
      MemoryWordPush(before, last, p, id);
      DiskWordPush(before, last, id);
    }
  }

  /** A session that a single process handles is answered as if that process had the directory to
      itself, whatever the others do meanwhile. */
  lemma OneHandlerIsEnough(acts: seq<Act>, p: nat, id: Id)
    requires Safe(id) && SoleHandler(HistoryFrom(NOBODY, acts).0, p, id)
    ensures var (deeds, w) := HistoryFrom(NOBODY, acts);
            LoadResult(View(w, p), true, id) == LastFate(EventsIn(deeds), id, true)
  {
    LoadAnswersMemoryThenDirectory(acts, p, id);
    SoleHandlerAgrees(HistoryFrom(NOBODY, acts).0, p, id);
  }

  /** A deletion elsewhere does not reach a copy in memory. */
  lemma DeletedElsewhereStillAnswers(id: Id, state: State) returns (acts: seq<Act>)
    requires Safe(id)
    ensures var (deeds, w) := HistoryFrom(NOBODY, acts);
            LoadResult(View(w, 1), true, id) == Some(state) && DiskWord(deeds, id) == None
  {
    var w1 := Step(NOBODY, Act(0, StoreOp(id, state)));
    var w2 := Step(w1, Act(1, LoadOp(id)));
    var w3 := Step(w2, Act(0, DeleteOp(id)));
    acts := [Act(0, StoreOp(id, state)), Act(1, LoadOp(id)), Act(0, DeleteOp(id))];
    var d1, d2 := DeedsOfAct(NOBODY, acts[0]), DeedsOfAct(w1, acts[1]);
    var d3 := DeedsOfAct(w2, acts[2]);
    assert HistoryFrom(w3, []) == ([], w3);
    assert HistoryFrom(w2, [acts[2]]) == (d3 + [], w3);
    assert [acts[1], acts[2]][1..] == [acts[2]];
    assert HistoryFrom(w1, [acts[1], acts[2]]) == (d2 + (d3 + []), w3);
    assert acts[1..] == [acts[1], acts[2]];
    assert HistoryFrom(NOBODY, acts) == (d1 + (d2 + (d3 + [])), w3);
    assert d3 == [Deed(0, Erased(id))];
    Assoc(d1, d2, d3);
    DiskWordPush(d1 + d2, Deed(0, Erased(id)), id);
  }
}
