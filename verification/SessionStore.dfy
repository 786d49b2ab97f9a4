/**
 The bounded MCP session store and its disk mirror (`src/mcp_session_store.rs`).

 `Store` is the class with the source's session map, clock and eviction loop. Its methods are
 proved to act as the operations on `Model`, a recency list beside two maps, and the theorems about
 whole histories are stated on that model.
 */
module SessionStore {
  import opened Options
  import opened Recency
  import opened Sequences

  datatype State = State(parameters: string)

  const MAX_SESSIONS: nat := 8192

  datatype Entry = Entry(state: State, lastUsed: nat)

  predicate SafeText(text: string) {
    text == "" ||
    (var c := text[0];
     ('a' <= c <= 'z' || 'A' <= c <= 'Z' || '0' <= c <= '9' || c == '-' || c == '_') && SafeText(text[1..]))
  }

  predicate FileNameChar(c: char) {
    'a' <= c <= 'z' || 'A' <= c <= 'Z' || '0' <= c <= '9' || c == '-' || c == '_'
  }

  lemma {:induction false} SafeTextIsAllSafe(text: string)
    ensures SafeText(text) <==> forall i :: 0 <= i < |text| ==> FileNameChar(text[i])
  {
    if text != "" {
      SafeTextIsAllSafe(text[1..]);
      assert forall i :: 0 < i < |text| ==> text[i] == text[1..][i - 1];
    }
  }

  /** The ids that name a file are the non-empty ones of ASCII letters and digits, `-` and `_`. */
  lemma SafeIdsExactly(id: Id)
    ensures Safe(id) <==> |id.text| > 0 && forall i :: 0 <= i < |id.text| ==> FileNameChar(id.text[i])
  {
    SafeTextIsAllSafe(id.text);
  }

  /** Only these ids name a file. */
  predicate Safe(id: Id) {
    id.text != "" && SafeText(id.text)
  }

  /** `recency` lists the ids in memory, least recently touched first. */
  datatype Model = Model(recency: seq<Id>, mem: map<Id, State>, disk: map<Id, State>)

  const EMPTY := Model([], map[], map[])

  /** The ids to evict so that one more fits. */
  function Overflow(recency: seq<Id>): seq<Id> {
    if |recency| < MAX_SESSIONS then [] else recency[..|recency| - MAX_SESSIONS + 1]
  }

  /** `id` enters memory as the most recent entry after `victims`, the oldest ones, have left. */
  function Entered(m: Model, id: Id, state: State, victims: seq<Id>): Model
    requires victims <= m.recency
  {
    Model(Without(m.recency[|victims|..], id) + [id], (m.mem - ToSet(victims))[id := state], m.disk)
  }

  function StoreVictims(m: Model, id: Id): (v: seq<Id>)
    ensures v <= m.recency
  {
    if id in m.mem then [] else Overflow(m.recency)
  }

  function Stored(m: Model, persist: bool, id: Id, state: State): Model {
    var victims := StoreVictims(m, id);
    var t := Entered(m, id, state, victims);
    if !persist then t
    else t.(disk := (if Safe(id) then m.disk[id := state] else m.disk) - SafeOnes(victims))
  }

  function SafeOnes(ids: seq<Id>): set<Id> {
    set x | x in ToSet(ids) && Safe(x)
  }

  predicate Restorable(m: Model, persist: bool, id: Id) {
    persist && id !in m.mem && Safe(id) && id in m.disk
  }

  function LoadResult(m: Model, persist: bool, id: Id): Option<State> {
    if id in m.mem then Some(m.mem[id])
    else if Restorable(m, persist, id) then Some(m.disk[id])
    else None
  }

  function LoadVictims(m: Model, persist: bool, id: Id): (v: seq<Id>)
    ensures v <= m.recency
  {
    if Restorable(m, persist, id) then Overflow(m.recency) else []
  }

  function Loaded(m: Model, persist: bool, id: Id): Model {
    if id in m.mem then m.(recency := Without(m.recency, id) + [id])
    else if Restorable(m, persist, id) then
      var victims := LoadVictims(m, persist, id);
      Entered(m, id, m.disk[id], victims).(disk := m.disk - SafeOnes(victims))
    else m
  }

  function Deleted(m: Model, persist: bool, id: Id): Model {
    Model(Without(m.recency, id), m.mem - {id}, if persist && Safe(id) then m.disk - {id} else m.disk)
  }

  function Restarted(m: Model): Model {
    Model([], map[], m.disk)
  }

  /** `q` has to leave so that `id` may enter: memory is full, `id` is not there, and `q` is the oldest. */
  predicate MakesWay(m: Model, id: Id, q: Id) {
    id !in m.mem && |m.recency| == MAX_SESSIONS && q == m.recency[0]
  }

  lemma OneVictim(m: Model)
    requires |m.recency| <= MAX_SESSIONS
    ensures Overflow(m.recency) == if |m.recency| == MAX_SESSIONS then [m.recency[0]] else []
    ensures forall q :: q in ToSet(Overflow(m.recency)) <==> |m.recency| == MAX_SESSIONS && q == m.recency[0]
  {
    if |m.recency| == MAX_SESSIONS {
      assert Overflow(m.recency) == [m.recency[0]];
      ToSetAppend([], m.recency[0]);
      assert [] + [m.recency[0]] == [m.recency[0]];
    }
  }

  /** After a store memory holds the new state and whatever else it held, less the oldest session if the
      id was new and memory full; the files follow. */
  lemma StoreDropsOnlyTheOldest(m: Model, persist: bool, id: Id, state: State, q: Id)
    requires |m.recency| <= MAX_SESSIONS && ToSet(m.recency) == m.mem.Keys && q != id
    ensures var t := Stored(m, persist, id, state);
            && id in t.mem && t.mem[id] == state
            && (q in t.mem <==> q in m.mem && !MakesWay(m, id, q)) && (q in t.mem ==> t.mem[q] == m.mem[q])
            && (persist && Safe(id) ==> id in t.disk && t.disk[id] == state)
            && (q in t.disk <==> q in m.disk && !(persist && Safe(q) && MakesWay(m, id, q)))
            && (q in t.disk ==> t.disk[q] == m.disk[q])
            && (!persist || !Safe(id) ==> (id in t.disk <==> id in m.disk))
  {
    OneVictim(m);
  }

  /** A load that finds its id in memory moves nothing; one that restores a file makes room as a store. */
  lemma LoadDropsOnlyTheOldest(m: Model, persist: bool, id: Id, q: Id)
    requires |m.recency| <= MAX_SESSIONS && ToSet(m.recency) == m.mem.Keys && q != id
    ensures var t := Loaded(m, persist, id);
            var restores := persist && id !in m.mem && Safe(id) && id in m.disk;
            && (id in t.mem <==> id in m.mem || restores)
            && (id in t.mem ==> t.mem[id] == if id in m.mem then m.mem[id] else m.disk[id])
            && (q in t.mem <==> q in m.mem && !(restores && MakesWay(m, id, q)))
            && (q in t.mem ==> t.mem[q] == m.mem[q])
            && (q in t.disk <==> q in m.disk && !(restores && Safe(q) && MakesWay(m, id, q)))
            && (q in t.disk ==> t.disk[q] == m.disk[q]) && (id in t.disk <==> id in m.disk)
  {
    OneVictim(m);
  }

  function StampsOf(sessions: map<Id, Entry>): (stamps: map<Id, nat>)
    ensures stamps.Keys == sessions.Keys
  {
    map id | id in sessions :: sessions[id].lastUsed
  }

  // ---------------------------------------------------------------------------------------
  // The store
  // ---------------------------------------------------------------------------------------

  function StatesOf(sessions: map<Id, Entry>): map<Id, State> {
    map id | id in sessions :: sessions[id].state
  }

  lemma LessCommutes(sessions: map<Id, Entry>, gone: set<Id>)
    ensures StatesOf(sessions - gone) == StatesOf(sessions) - gone
    ensures StampsOf(sessions - gone) == StampsOf(sessions) - gone
  {
  }

  lemma PutCommutes(sessions: map<Id, Entry>, id: Id, entry: Entry)
    ensures StatesOf(sessions[id := entry]) == StatesOf(sessions)[id := entry.state]
    ensures StampsOf(sessions[id := entry]) == StampsOf(sessions)[id := entry.lastUsed]
  {
  }

  lemma NothingGone(recency: seq<Id>, sessions: map<Id, Entry>)
    ensures recency[0..] == recency && sessions - ToSet([]) == sessions
  {
  }

  /** Taking one more from the old end of the list. */
  lemma NextVictim(recency: seq<Id>, k: nat)
    requires k < |recency|
    ensures recency[..k + 1] == recency[..k] + [recency[k]] && recency[k + 1..] == recency[k..][1..]
    ensures recency[k..][0] == recency[k] && ToSet(recency[..k + 1]) == ToSet(recency[..k]) + {recency[k]}
  {
    ToSetAppend(recency[..k], recency[k]);
    assert recency[..k + 1] == recency[..k] + [recency[k]];
  }

  class Store {
    var sessions: map<Id, Entry>
    var clock: nat
    const persist: bool
    var disk: map<Id, State>
    ghost var recency: seq<Id>

    ghost function Contents(): Model
      reads this
    {
      Model(recency, StatesOf(sessions), disk)
    }

    ghost predicate Valid()
      reads this`sessions, this`recency, this`clock
    {
      Ordered(recency, StampsOf(sessions), clock) && |recency| <= MAX_SESSIONS
    }

    /** A new process over the files an earlier one left. */
    constructor (persist: bool, disk: map<Id, State>)
      ensures Valid() && this.persist == persist
      ensures Contents() == Restarted(Model([], map[], disk))
    {
      this.persist, this.disk := persist, disk;
      sessions, clock, recency := map[], 0, [];
    }

    /** The entry with the smallest stamp. */
    method MinByLastUsed(ghost bound: int) returns (victim: Id)
      requires Ordered(recency, StampsOf(sessions), bound) && sessions != map[]
      ensures recency != [] && victim == recency[0]
    {
      var rest := sessions.Keys;
      victim :| victim in rest;
      rest := rest - {victim};
      while rest != {}
        invariant victim in sessions && rest <= sessions.Keys
        invariant forall id :: id in sessions && id !in rest ==> sessions[victim].lastUsed <= sessions[id].lastUsed
        decreases rest
      {
        var id :| id in rest;
        if sessions[id].lastUsed < sessions[victim].lastUsed {
          victim := id;
        }
        rest := rest - {id};
      }
      assert victim in ToSet(recency);
      DropOldest(recency, StampsOf(sessions), bound);
    }

    method EvictOldest(ghost bound: int) returns (victim: Id)
      requires Ordered(recency, StampsOf(sessions), bound) && sessions != map[]
      modifies this`sessions, this`recency
      ensures old(recency) != [] && victim == old(recency)[0] && recency == old(recency)[1..]
      ensures sessions == old(sessions) - {victim} && Ordered(recency, StampsOf(sessions), bound)
    {
      victim := MinByLastUsed(bound);
      DropOldest(recency, StampsOf(sessions), bound);
      LessCommutes(sessions, {victim});
      sessions := sessions - {victim};
      recency := recency[1..];
    }

    method EvictToCap(ghost bound: int) returns (victims: seq<Id>)
      requires Ordered(recency, StampsOf(sessions), bound) && |recency| <= MAX_SESSIONS
      modifies this`sessions, this`recency
      ensures Ordered(recency, StampsOf(sessions), bound) && |recency| < MAX_SESSIONS
      ensures victims == Overflow(old(recency)) && recency == old(recency)[|victims|..]
      ensures sessions == old(sessions) - ToSet(victims)
    {
      victims := [];
      SizeIsOrder(recency, StampsOf(sessions), bound);
      while |sessions| >= MAX_SESSIONS
        invariant Ordered(recency, StampsOf(sessions), bound) && |sessions| == |recency|
        invariant |victims| <= |old(recency)| && victims == old(recency)[..|victims|]
        invariant recency == old(recency)[|victims|..]
        invariant sessions == old(sessions) - ToSet(victims)
        invariant victims != [] ==> |recency| >= MAX_SESSIONS - 1
        decreases |sessions|
      {
        var victim := EvictOldest(bound);
        SizeIsOrder(recency, StampsOf(sessions), bound);
        NextVictim(old(recency), |victims|);
        victims := victims + [victim];
      }
    }

    /** Stamps `id` as the most recent entry. */
    method Insert(id: Id, state: State)
      requires clock > 0 && Ordered(recency, StampsOf(sessions), clock - 1)
      modifies this`sessions, this`recency
      ensures Ordered(recency, StampsOf(sessions), clock)
      ensures recency == Without(old(recency), id) + [id]
      ensures |recency| == |old(recency)| + if id in old(sessions) then 0 else 1
      ensures StatesOf(sessions) == StatesOf(old(sessions))[id := state]
    {
      MoveToEnd(recency, StampsOf(sessions), clock - 1, id);
      PutCommutes(sessions, id, Entry(state, clock));
      sessions := sessions[id := Entry(state, clock)];
      recency := Without(recency, id) + [id];
    }

    method DeleteFiles(victims: seq<Id>)
      modifies this`disk
      ensures disk == old(disk) - SafeOnes(victims)
    {
      var i := 0;
      while i < |victims|
        invariant 0 <= i <= |victims|
        invariant disk == old(disk) - SafeOnes(victims[..i])
      {
        if Safe(victims[i]) {
          disk := disk - {victims[i]};
        }
        assert victims[..i + 1] == victims[..i] + [victims[i]];
        ToSetAppend(victims[..i], victims[i]);
        i := i + 1;
      }
      assert victims[..i] == victims;
    }

    /** The disk-restore half of `Load`: the clock has ticked, `id` is not in memory. */
    method MakeRoomAndInsert(id: Id, state: State) returns (victims: seq<Id>)
      requires clock > 0 && Ordered(recency, StampsOf(sessions), clock - 1) && |recency| <= MAX_SESSIONS
      requires id !in sessions
      modifies this`sessions, this`recency
      ensures Valid()
      ensures victims == Overflow(old(recency))
      ensures Contents() == Entered(old(Contents()), id, state, victims)
    {
      victims := [];
      SizeIsOrder(recency, StampsOf(sessions), clock - 1);
      if |sessions| >= MAX_SESSIONS {
        victims := EvictToCap(clock - 1);
      }
      assert recency == old(recency)[|victims|..] && sessions == old(sessions) - ToSet(victims);
      LessCommutes(old(sessions), ToSet(victims));
      Insert(id, state);
    }

    method Load(id: Id) returns (result: Option<State>)
      requires Valid()
      modifies this
      ensures Valid()
      ensures result == LoadResult(old(Contents()), persist, id)
      ensures Contents() == Loaded(old(Contents()), persist, id)
    {
      clock := clock + 1;
      if id in sessions {
        result := Some(sessions[id].state);
        Insert(id, sessions[id].state);
        return;
      }
      if !persist || !Safe(id) || id !in disk {
        Later(recency, StampsOf(sessions), clock - 1);
        return None;
      }
      var state := disk[id];
      var victims := MakeRoomAndInsert(id, state);
      DeleteFiles(victims);
      result := Some(state);
    }

    /** An id already in memory needs no room. */
    method MakeRoom(id: Id) returns (victims: seq<Id>)
      requires Valid()
      modifies this`sessions, this`recency
      ensures Valid() && (id in sessions || |recency| < MAX_SESSIONS)
      ensures victims == StoreVictims(old(Contents()), id)
      ensures recency == old(recency)[|victims|..] && sessions == old(sessions) - ToSet(victims)
    {
      victims := [];
      if id !in sessions {
        victims := EvictToCap(clock);
      } else {
        NothingGone(recency, sessions);
      }
    }

    /** The memory half of `StoreSession`. */
    method Remember(id: Id, state: State) returns (victims: seq<Id>)
      requires Valid()
      modifies this`sessions, this`recency, this`clock
      ensures Valid()
      ensures victims == StoreVictims(old(Contents()), id)
      ensures Contents() == Entered(old(Contents()), id, state, victims)
    {
      victims := MakeRoom(id);
      clock := clock + 1;
      LessCommutes(old(sessions), ToSet(victims));
      Insert(id, state);
    }

    method StoreSession(id: Id, state: State)
      requires Valid()
      modifies this
      ensures Valid()
      ensures Contents() == Stored(old(Contents()), persist, id, state)
    {
      var victims := Remember(id, state);
      if persist {
        if Safe(id) {
          disk := disk[id := state];
        }
        DeleteFiles(victims);
      }
    }

    method Delete(id: Id)
      requires Valid()
      modifies this
      ensures Valid()
      ensures Contents() == Deleted(old(Contents()), persist, id)
    {
      Forget(recency, StampsOf(sessions), clock, id);
      LessCommutes(sessions, {id});
      sessions := sessions - {id};
      recency := Without(recency, id);
      if persist && Safe(id) {
        disk := disk - {id};
      }
    }
  }

  // ---------------------------------------------------------------------------------------
  // Whole histories, restarts included
  // ---------------------------------------------------------------------------------------

  datatype Op = LoadOp(id: Id) | StoreOp(id: Id, state: State) | DeleteOp(id: Id) | RestartOp

  /** What an observer of a history can tell: writes, touches, and the three ways a session goes. */
  datatype Event = Wrote(id: Id, state: State) | Touched(id: Id) | Evicted(id: Id) | Erased(id: Id) | Rebooted

  function Next(m: Model, persist: bool, op: Op): Model {
    match op
    case LoadOp(id) => Loaded(m, persist, id)
    case StoreOp(id, state) => Stored(m, persist, id, state)
    case DeleteOp(id) => Deleted(m, persist, id)
    case RestartOp => Restarted(m)
  }

  function Evictions(ids: seq<Id>): seq<Event> {
    if ids == [] then [] else [Evicted(ids[0])] + Evictions(ids[1..])
  }

  function EventsOf(m: Model, persist: bool, op: Op): seq<Event> {
    match op
    case LoadOp(id) =>
      if LoadResult(m, persist, id).None? then [] else Evictions(LoadVictims(m, persist, id)) + [Touched(id)]
    case StoreOp(id, state) => Evictions(StoreVictims(m, id)) + [Wrote(id, state)]
    case DeleteOp(id) => [Erased(id)]
    case RestartOp => [Rebooted]
  }

  /** The last word of a history on `id`; only durable sessions outlive a restart. */
  function LastFate(events: seq<Event>, id: Id, durable: bool): Option<State> {
    if events == [] then None
    else
      var last, before := events[|events| - 1], events[..|events| - 1];
      match last
      case Wrote(x, state) => if x == id then Some(state) else LastFate(before, id, durable)
      case Evicted(x) => if x == id then None else LastFate(before, id, durable)
      case Erased(x) => if x == id then None else LastFate(before, id, durable)
      case Touched(_) => LastFate(before, id, durable)
      case Rebooted => if durable then LastFate(before, id, durable) else None
  }

  /** When each id was last written or touched, as a position in the history. Statements name this
      function; its recursion stays apart, where no proof about whole histories unfolds it. */
  function TouchTimes(events: seq<Event>): map<Id, nat> {
    TimesOf(events)
  }

  function TimesOf(events: seq<Event>): map<Id, nat> {
    if events == [] then map[]
    else
      var last, before := events[|events| - 1], TimesOf(events[..|events| - 1]);
      if last.Wrote? || last.Touched? then before[last.id := |events| - 1] else before
  }

  /** The recency list is the order of last touch, oldest first. */
  ghost predicate InTouchOrder(events: seq<Event>, m: Model) {
    OldestFirst(m.recency, m.mem.Keys, TouchTimes(events), |events| - 1)
  }

  ghost predicate OldestFirst(recency: seq<Id>, ids: set<Id>, times: map<Id, nat>, high: int) {
    ids == ToSet(recency) && |recency| <= MAX_SESSIONS && Rising(recency, times, -1, high)
  }

  ghost predicate Mirrored(m: Model, persist: bool) {
    persist ==> forall id :: id in m.mem && Safe(id) ==> id in m.disk && m.disk[id] == m.mem[id]
  }

  ghost predicate AnswersFate(events: seq<Event>, m: Model, persist: bool) {
    forall id :: LoadResult(m, persist, id) == LastFate(events, id, persist && Safe(id))
  }

  /** A model state explained by a history. */
  ghost predicate Explains(events: seq<Event>, m: Model, persist: bool) {
    InTouchOrder(events, m) && Mirrored(m, persist) && AnswersFate(events, m, persist)
  }

  lemma {:induction false} FateAfterEvictions(events: seq<Event>, ids: seq<Id>, id: Id, durable: bool)
    ensures LastFate(events + Evictions(ids), id, durable)
            == if id in ToSet(ids) then None else LastFate(events, id, durable)
    ensures TouchTimes(events + Evictions(ids)) == TouchTimes(events)
    decreases |ids|
  {
    if ids == [] {
      assert events + Evictions(ids) == events;
    } else {
      var next := events + [Evicted(ids[0])];
      FateAfterEvictions(next, ids[1..], id, durable);
      assert next + Evictions(ids[1..]) == events + Evictions(ids);
      assert next[..|next| - 1] == events;
    }
  }

  /** The order in memory once the first `k` are out and `id` is in, seen `now` steps into the history. */
  lemma AdmitRises(s: seq<Id>, ids: set<Id>, k: nat, times: map<Id, nat>, high: int, id: Id, now: nat)
    requires OldestFirst(s, ids, times, high) && high < now && k <= |s|
    requires |s| - k < MAX_SESSIONS || (k == 0 && id in ids)
    ensures OldestFirst(Without(s[k..], id) + [id], ids - ToSet(s[..k]) + {id}, times[id := now], now)
    ensures ToSet(s[..k]) <= ids
  {
    RisingDrop(s, k, times, -1, high);
    PrefixIsDisjoint(s, k, times, -1, high);
    SplitMembers(s, k);
    RisingTouch(s[k..], times, high, id, now);
    assert k == 0 ==> s[..k] == [];
  }

  lemma {:induction false} EvictionsLength(ids: seq<Id>)
    ensures |Evictions(ids)| == |ids|
  {
    if ids != [] { EvictionsLength(ids[1..]); }
  }

  lemma TouchStep(events: seq<Event>, now: Event)
    requires now.Wrote? || now.Touched?
    ensures TouchTimes(events + [now]) == TouchTimes(events)[now.id := |events|]
  {
    assert (events + [now])[..|events|] == events;
  }

  lemma AdmitTimes(events: seq<Event>, victims: seq<Id>, now: Event)
    requires now.Wrote? || now.Touched?
    ensures |events + (Evictions(victims) + [now])| == |events| + |victims| + 1
    ensures TouchTimes(events + (Evictions(victims) + [now])) == TouchTimes(events)[now.id := |events| + |victims|]
  {
    Assoc(events, Evictions(victims), [now]);
    EvictionsLength(victims);
    FateAfterEvictions(events, victims, now.id, true);
    TouchStep(events + Evictions(victims), now);
  }

  lemma EnteredIs(m: Model, id: Id, state: State, victims: seq<Id>)
    requires victims <= m.recency
    ensures Entered(m, id, state, victims).recency == Without(m.recency[|victims|..], id) + [id]
    ensures Entered(m, id, state, victims).mem.Keys == m.mem.Keys - ToSet(victims) + {id}
    ensures m.recency[..|victims|] == victims
  {
  }

  /** Admitting `id` after evicting the oldest `victims`, seen in the touch order of the history. */
  lemma AdmitKeepsOrder(m: Model, times: map<Id, nat>, high: int, state: State, victims: seq<Id>, id: Id, now: nat,
                        later: map<Id, nat>)
    requires OldestFirst(m.recency, m.mem.Keys, times, high) && victims <= m.recency && high < now
    requires |m.recency| - |victims| < MAX_SESSIONS || (victims == [] && id in m.mem)
    requires later == times[id := now]
    ensures var t := Entered(m, id, state, victims); OldestFirst(t.recency, t.mem.Keys, later, now)
    ensures ToSet(victims) <= m.mem.Keys
  {
    AdmitRises(m.recency, m.mem.Keys, |victims|, times, high, id, now);
    EnteredIs(m, id, state, victims);
  }

  lemma EntryKeepsOrder(events: seq<Event>, after: seq<Event>, m: Model, state: State, victims: seq<Id>, id: Id)
    requires InTouchOrder(events, m) && victims <= m.recency
    requires |m.recency| - |victims| < MAX_SESSIONS || (victims == [] && id in m.mem)
    requires |after| == |events| + |victims| + 1
    requires TouchTimes(after) == TouchTimes(events)[id := |events| + |victims|]
    ensures InTouchOrder(after, Entered(m, id, state, victims))
    ensures ToSet(victims) <= m.mem.Keys
  {
    AdmitKeepsOrder(m, TouchTimes(events), |events| - 1, state, victims, id, |after| - 1, TouchTimes(after));
  }

  lemma StoreAnswersFate(events: seq<Event>, m: Model, persist: bool, id: Id, state: State)
    requires AnswersFate(events, m, persist) && Mirrored(m, persist)
    requires ToSet(StoreVictims(m, id)) <= m.mem.Keys
    ensures AnswersFate(events + EventsOf(m, persist, StoreOp(id, state)), Stored(m, persist, id, state), persist)
    ensures Mirrored(Stored(m, persist, id, state), persist)
  {
    var victims := StoreVictims(m, id);
    var before := events + Evictions(victims);
    var after := before + [Wrote(id, state)];
    var t := Stored(m, persist, id, state);
    assert after == events + EventsOf(m, persist, StoreOp(id, state)) && after[..|before|] == before;
    forall x ensures LoadResult(t, persist, x) == LastFate(after, x, persist && Safe(x)) {
      assert LoadResult(m, persist, x) == LastFate(events, x, persist && Safe(x));
      FateAfterEvictions(events, victims, x, persist && Safe(x));
    }
  }

  lemma RestoreAnswersFate(events: seq<Event>, m: Model, persist: bool, id: Id)
    requires AnswersFate(events, m, persist) && Mirrored(m, persist)
    requires ToSet(LoadVictims(m, persist, id)) <= m.mem.Keys
    requires LoadResult(m, persist, id).Some?
    ensures AnswersFate(events + EventsOf(m, persist, LoadOp(id)), Loaded(m, persist, id), persist)
    ensures Mirrored(Loaded(m, persist, id), persist)
  {
    var victims := LoadVictims(m, persist, id);
    var before := events + Evictions(victims);
    var after := before + [Touched(id)];
    var t := Loaded(m, persist, id);
    assert after == events + EventsOf(m, persist, LoadOp(id)) && after[..|before|] == before;
    forall x ensures LoadResult(t, persist, x) == LastFate(after, x, persist && Safe(x)) {
      assert LoadResult(m, persist, x) == LastFate(events, x, persist && Safe(x));
      FateAfterEvictions(events, victims, x, persist && Safe(x));
    }
  }

  lemma StoreIsExplained(events: seq<Event>, m: Model, persist: bool, id: Id, state: State)
    requires Explains(events, m, persist)
    ensures Explains(events + EventsOf(m, persist, StoreOp(id, state)), Stored(m, persist, id, state), persist)
  {
    var victims := StoreVictims(m, id);
    AdmitTimes(events, victims, Wrote(id, state));
    EntryKeepsOrder(events, events + (Evictions(victims) + [Wrote(id, state)]), m, state, victims, id);
    StoreAnswersFate(events, m, persist, id, state);
  }

  lemma LoadIsEntry(m: Model, persist: bool, id: Id)
    requires LoadResult(m, persist, id).Some?
    ensures var t := Entered(m, id, LoadResult(m, persist, id).value, LoadVictims(m, persist, id));
            Loaded(m, persist, id).recency == t.recency && Loaded(m, persist, id).mem == t.mem
    ensures var victims := LoadVictims(m, persist, id);
            |m.recency| - |victims| < MAX_SESSIONS || (victims == [] && id in m.mem)
  {
    assert m.recency[0..] == m.recency;
  }

  lemma LoadKeepsOrder(events: seq<Event>, m: Model, persist: bool, id: Id)
    requires InTouchOrder(events, m) && LoadResult(m, persist, id).Some?
    ensures InTouchOrder(events + (Evictions(LoadVictims(m, persist, id)) + [Touched(id)]), Loaded(m, persist, id))
    ensures ToSet(LoadVictims(m, persist, id)) <= m.mem.Keys
  {
    LoadIsEntry(m, persist, id);
    var victims := LoadVictims(m, persist, id);
    AdmitTimes(events, victims, Touched(id));
    var after := events + (Evictions(victims) + [Touched(id)]);
    EntryKeepsOrder(events, after, m, LoadResult(m, persist, id).value, victims, id);
  }

  lemma LoadIsExplained(events: seq<Event>, m: Model, persist: bool, id: Id)
    requires Explains(events, m, persist)
    ensures Explains(events + EventsOf(m, persist, LoadOp(id)), Loaded(m, persist, id), persist)
  {
    if LoadResult(m, persist, id).None? {
      assert events + [] == events;
    } else {
      LoadKeepsOrder(events, m, persist, id);
      RestoreAnswersFate(events, m, persist, id);
    }
  }

  lemma DeleteKeepsOrder(s: seq<Id>, id: Id, times: map<Id, nat>, high: int)
    requires Rising(s, times, -1, high)
    ensures Rising(Without(s, id), times, -1, high + 1)
    ensures ToSet(Without(s, id)) == ToSet(s) - {id} && |Without(s, id)| <= |s|
  {
    RisingWithout(s, id, times, -1, high);
    WithoutMembers(s, id);
    RisingBounds(Without(s, id), times, -1, high);
    RisingIn(Without(s, id), times, -1, high, times, -1, high + 1);
  }

  lemma DeleteAnswersFate(events: seq<Event>, m: Model, persist: bool, id: Id)
    requires AnswersFate(events, m, persist) && Mirrored(m, persist)
    ensures AnswersFate(events + [Erased(id)], Deleted(m, persist, id), persist)
    ensures Mirrored(Deleted(m, persist, id), persist)
  {
    var after, t := events + [Erased(id)], Deleted(m, persist, id);
    assert after[..|events|] == events;
    forall x ensures LoadResult(t, persist, x) == LastFate(after, x, persist && Safe(x)) {
      assert LoadResult(m, persist, x) == LastFate(events, x, persist && Safe(x));
    }
  }

  lemma DeleteIsExplained(events: seq<Event>, m: Model, persist: bool, id: Id)
    requires Explains(events, m, persist)
    ensures Explains(events + [Erased(id)], Deleted(m, persist, id), persist)
  {
    var after := events + [Erased(id)];
    assert after[..|events|] == events && TouchTimes(after) == TouchTimes(events);
    DeleteKeepsOrder(m.recency, id, TouchTimes(events), |events| - 1);
    DeleteAnswersFate(events, m, persist, id);
  }

  lemma RestartIsExplained(events: seq<Event>, m: Model, persist: bool)
    requires Explains(events, m, persist)
    ensures Explains(events + [Rebooted], Restarted(m), persist)
  {
    var after, t := events + [Rebooted], Restarted(m);
    assert after[..|events|] == events;
    forall x ensures LoadResult(t, persist, x) == LastFate(after, x, persist && Safe(x)) {
      assert LoadResult(m, persist, x) == LastFate(events, x, persist && Safe(x));
    }
  }

  lemma StepIsExplained(events: seq<Event>, m: Model, persist: bool, op: Op)
    requires Explains(events, m, persist)
    ensures Explains(events + EventsOf(m, persist, op), Next(m, persist, op), persist)
  {
    match op
    case LoadOp(id) => LoadIsExplained(events, m, persist, id);
    case StoreOp(id, state) => StoreIsExplained(events, m, persist, id, state);
    case DeleteOp(id) => DeleteIsExplained(events, m, persist, id);
    case RestartOp => RestartIsExplained(events, m, persist);
  }

  ghost function HistoryFrom(m: Model, persist: bool, ops: seq<Op>): (seq<Event>, Model)
    decreases |ops|
  {
    if ops == [] then ([], m)
    else
      var (events, last) := HistoryFrom(Next(m, persist, ops[0]), persist, ops[1..]);
      (EventsOf(m, persist, ops[0]) + events, last)
  }

  lemma {:induction false} HistoryIsExplained(events: seq<Event>, m: Model, persist: bool, ops: seq<Op>)
    requires Explains(events, m, persist)
    ensures var (more, last) := HistoryFrom(m, persist, ops); Explains(events + more, last, persist)
    decreases |ops|
  {
    if ops == [] {
      assert events + [] == events;
    } else {
      StepIsExplained(events, m, persist, ops[0]);
      var step, next := EventsOf(m, persist, ops[0]), Next(m, persist, ops[0]);
      HistoryIsExplained(events + step, next, persist, ops[1..]);
      var (rest, last) := HistoryFrom(next, persist, ops[1..]);
      Assoc(events, step, rest);
    }
  }

  lemma OrderCountsMemory(recency: seq<Id>, mem: map<Id, State>, times: map<Id, nat>, high: int)
    requires OldestFirst(recency, mem.Keys, times, high)
    ensures |mem| == |recency| <= MAX_SESSIONS
  {
    RisingBounds(recency, times, -1, high);
    assert |mem| == |mem.Keys|;
  }

  /** After any history from an empty store: a load answers the last state stored, exactly for the
      ids not deleted, evicted, or (unless durable) rebooted away since; memory stays within the cap. */
  lemma LoadAnswersTheLastStore(persist: bool, ops: seq<Op>, id: Id)
    ensures var (events, m) := HistoryFrom(EMPTY, persist, ops);
            && LoadResult(m, persist, id) == LastFate(events, id, persist && Safe(id))
            && |m.mem| <= MAX_SESSIONS
  {
    var (events, m) := HistoryFrom(EMPTY, persist, ops);
    HistoryIsExplained([], EMPTY, persist, ops);
    assert [] + events == events;
    OrderCountsMemory(m.recency, m.mem, TouchTimes(events), |events| - 1);
  }

  /** Whoever is evicted, by a store or by a load, was touched before everyone who stays; at most one
      entry goes, only when memory is full, and touching an entry in memory evicts nobody. */
  lemma VictimsAreTheLeastRecentlyTouched(events: seq<Event>, m: Model, persist: bool, id: Id, victims: seq<Id>)
    requires Explains(events, m, persist)
    requires victims == StoreVictims(m, id) || victims == LoadVictims(m, persist, id)
    ensures id in m.mem ==> victims == []
    ensures forall v, w :: v in ToSet(victims) && w in m.mem && w !in ToSet(victims) ==>
              v in TouchTimes(events) && w in TouchTimes(events) && TouchTimes(events)[v] < TouchTimes(events)[w]
    ensures victims != [] ==> |m.mem| == MAX_SESSIONS && |victims| == 1
  {
    forall v, w | v in ToSet(victims) && w in m.mem && w !in ToSet(victims)
      ensures v in TouchTimes(events) && w in TouchTimes(events) && TouchTimes(events)[v] < TouchTimes(events)[w]
    {
      OlderThanSurvivors(m.recency, |victims|, TouchTimes(events), |events| - 1, v, w);
    }
    OrderCountsMemory(m.recency, m.mem, TouchTimes(events), |events| - 1);
  }

  lemma OlderThanSurvivors(recency: seq<Id>, k: nat, times: map<Id, nat>, high: int, v: Id, w: Id)
    requires Rising(recency, times, -1, high) && k <= |recency|
    requires v in ToSet(recency[..k]) && w in ToSet(recency) && w !in ToSet(recency[..k])
    ensures v in times && w in times && times[v] < times[w]
  {
    SplitMembers(recency, k);
    PrefixIsOlder(recency, k, times, -1, high, v, w);
  }
}
