/**
 The in-memory chat store (`src/chat.rs`).

 `ConversationStore` keeps the source's map with its stamps; `Model` is the same store as a recency
 list beside a map without stamps, and the theorems about histories are stated on it. Every call
 reads a clock that has moved on since the last.
 */
module Conversations {
  import opened Options
  import opened Recency
  import opened Sequences
  import opened Utf8

  const MAX_CONVERSATIONS: nat := 64
  const MAX_TURNS_KEPT: nat := 40
  const TOOL_CTX_TURNS_KEPT: nat := 3
  const TOOL_CTX_PER_TURN_CAP: nat := 1500
  const TOOL_CTX_TOTAL_CAP: nat := 3000

  datatype Repo = Repo(path: string)
  datatype Words = Words(text: string)

  datatype Turn = Turn(user: Words, answer: Words, toolContext: Words)

  datatype Message = User(text: Words) | Assistant(text: Words)

  datatype Chat = Chat(repo: Repo, turns: seq<Turn>)

  datatype Conversation = Conversation(repo: Repo, turns: seq<Turn>, lastUsed: nat)

  // ---------------------------------------------------------------------------------------
  // One conversation
  // ---------------------------------------------------------------------------------------

  /** The last `n` elements. */
  function LastN<T>(s: seq<T>, n: nat): (r: seq<T>)
    ensures |r| <= n && |r| <= |s|
  {
    if |s| <= n then s else s[|s| - n..]
  }

  /** These are the end of the list, as much of it as the bound lets in. */
  lemma LastNIsTheEnd<T>(s: seq<T>, n: nat)
    ensures |LastN(s, n)| == if |s| <= n then |s| else n
    ensures forall k :: 0 <= k < |LastN(s, n)| ==> LastN(s, n)[k] == s[|s| - |LastN(s, n)| + k]
  {
  }

  lemma LastNPush<T>(s: seq<T>, n: nat, x: T)
    ensures LastN(LastN(s, n) + [x], n) == LastN(s + [x], n)
  {
    if |s| > n { assert LastN(s, n) + [x] == (s + [x])[|s| - n..]; }
  }

  function Transcript(turns: seq<Turn>): seq<Message> {
    if turns == [] then []
    else Transcript(turns[..|turns| - 1]) + [User(turns[|turns| - 1].user), Assistant(turns[|turns| - 1].answer)]
  }

  /** Each turn is two messages, the question first, and the turns come in the order they were taken. */
  lemma {:induction false} QuestionThenAnswer(turns: seq<Turn>)
    ensures |Transcript(turns)| == 2 * |turns|
    ensures forall k :: 0 <= k < |turns| ==>
              && Transcript(turns)[2 * k] == User(turns[k].user)
              && Transcript(turns)[2 * k + 1] == Assistant(turns[k].answer)
  {
    if turns != [] {
      var n := |turns| - 1;
      QuestionThenAnswer(turns[..n]);
      forall k | 0 <= k < |turns|
        ensures Transcript(turns)[2 * k] == User(turns[k].user)
        ensures Transcript(turns)[2 * k + 1] == Assistant(turns[k].answer)
      {
        if k < n { assert turns[..n][k] == turns[k]; }
      }
    }
  }

  /** The summaries of the turns that ran a tool, oldest first. */
  function Summaries(turns: seq<Turn>): seq<Words> {
    if turns == [] then []
    else if turns[0].toolContext.text == "" then Summaries(turns[1..])
    else [turns[0].toolContext] + Summaries(turns[1..])
  }

  function Joined(parts: seq<Words>): string {
    if parts == [] then ""
    else if |parts| == 1 then parts[0].text
    else parts[0].text + "\n\n" + Joined(parts[1..])
  }

  /** The turns whose summary says something, each with it, in the order they were taken. */
  lemma {:induction false} SummariesAreExact(turns: seq<Turn>)
    ensures exists ran :: KeepsInOrder(ran, turns, (t: Turn) => t.toolContext.text != "") && SummaryOfEach(turns, ran)
  {
    var p := (t: Turn) => t.toolContext.text != "";
    if turns == [] {
      KeepsNothing(p);
      assert SummaryOfEach(turns, []);
    } else {
      SummariesAreExact(turns[1..]);
      var rest :| KeepsInOrder(rest, turns[1..], p) && SummaryOfEach(turns[1..], rest);
      KeepsOneBefore(rest, turns[1..], turns[0], p);
      FirstAndRest(turns);
      assert SummaryOfEach(turns, (if p(turns[0]) then [turns[0]] else []) + rest);
    }
  }

  predicate SummaryOfEach(turns: seq<Turn>, ran: seq<Turn>) {
    |Summaries(turns)| == |ran| && forall k :: 0 <= k < |ran| ==> Summaries(turns)[k] == ran[k].toolContext
  }

  /** Two summaries are joined in their order, with a blank line between them; so are three. */
  lemma JoinedInOrder(a: Words, b: Words, c: Words)
    ensures Joined([a]) == a.text
    ensures Joined([a, b]) == a.text + "\n\n" + b.text
    ensures Joined([a, b, c]) == a.text + "\n\n" + (b.text + "\n\n" + c.text)
  {
    assert [a, b][1..] == [b] && [a, b, c][1..] == [b, c] && [b, c][1..] == [c];
    assert Joined([b, c]) == b.text + "\n\n" + c.text;
  }

  /** What is replayed into the next question. */
  function ToolContext(turns: seq<Turn>): string {
    Truncated(Joined(LastN(Summaries(turns), TOOL_CTX_TURNS_KEPT)), TOOL_CTX_TOTAL_CAP)
  }

  /** The replayed text stays within its cap plus the marker, whatever was stored. */
  lemma ToolContextFits(turns: seq<Turn>)
    ensures Size(ToolContext(turns)) <= TOOL_CTX_TOTAL_CAP + 3
    ensures Summaries(turns) == [] ==> ToolContext(turns) == ""
  {
    TruncatedFits(Joined(LastN(Summaries(turns), TOOL_CTX_TURNS_KEPT)), TOOL_CTX_TOTAL_CAP);
  }

  /** The summary as stored. */
  function Capped(turn: Turn): Turn {
    turn.(toolContext := Words(Truncated(turn.toolContext.text, TOOL_CTX_PER_TURN_CAP)))
  }

  predicate StoredTurn(turn: Turn) {
    Size(turn.toolContext.text) <= TOOL_CTX_PER_TURN_CAP + 3
  }

  lemma CappedIsStored(turn: Turn)
    ensures StoredTurn(Capped(turn))
  {
    TruncatedFits(turn.toolContext.text, TOOL_CTX_PER_TURN_CAP);
  }

  lemma DropOne<T>(s: seq<T>, k: nat)
    requires k < |s|
    ensures s[k..][0] == s[k] && s[k..][1..] == s[k + 1..]
  {
  }

  /** Walks the turns from the newest and stops at three summaries. */
  method RecentSummaries(turns: seq<Turn>) returns (picked: seq<Words>)
    ensures picked == LastN(Summaries(turns), TOOL_CTX_TURNS_KEPT)
  {
    var newestFirst: seq<Words> := [];
    var i := |turns|;
    while i > 0 && |newestFirst| < TOOL_CTX_TURNS_KEPT
      invariant 0 <= i <= |turns| && |newestFirst| <= TOOL_CTX_TURNS_KEPT
      invariant Reversed(newestFirst) == Summaries(turns[i..])
      decreases i
    {
      i := i - 1;
      DropOne(turns, i);
      if turns[i].toolContext.text != "" {
        ReversedPush(newestFirst, turns[i].toolContext);
        newestFirst := newestFirst + [turns[i].toolContext];
      }
    }
    SummariesSuffix(turns, i);
    ReversedLength(newestFirst);
    picked := Reversed(newestFirst);
    if i == 0 { assert turns[0..] == turns; }
  }

  function Reversed<T>(s: seq<T>): seq<T> {
    if s == [] then [] else [s[|s| - 1]] + Reversed(s[..|s| - 1])
  }

  lemma ReversedPush<T>(s: seq<T>, x: T)
    ensures Reversed(s + [x]) == [x] + Reversed(s)
  {
    assert (s + [x])[..|s|] == s;
  }

  lemma {:induction false} ReversedLength<T>(s: seq<T>)
    ensures |Reversed(s)| == |s|
  {
    if s != [] { ReversedLength(s[..|s| - 1]); }
  }

  /** The summaries of the newer turns end the summaries of all. */
  lemma {:induction false} SummariesSuffix(turns: seq<Turn>, i: nat)
    requires i <= |turns|
    ensures var all, newer := Summaries(turns), Summaries(turns[i..]);
            |newer| <= |all| && all[|all| - |newer|..] == newer
    decreases |turns|
  {
    if i == 0 {
      assert turns[0..] == turns;
    } else {
      SummariesSuffix(turns[1..], i - 1);
      assert turns[1..][i - 1..] == turns[i..];
      if turns[0].toolContext.text != "" {
        ShiftSuffix(turns[0].toolContext, Summaries(turns[1..]), |Summaries(turns[i..])|);
      }
    }
  }

  lemma ShiftSuffix<T>(x: T, s: seq<T>, n: nat)
    requires n <= |s|
    ensures ([x] + s)[|s| + 1 - n..] == s[|s| - n..]
  {
  }

  // ---------------------------------------------------------------------------------------
  // The store
  // ---------------------------------------------------------------------------------------

  /** `recency` lists the conversations, least recently used first. */
  datatype Model = Model(recency: seq<Id>, chats: map<Id, Chat>)

  const EMPTY := Model([], map[])

  predicate BoundTo(m: Model, id: Id, repo: Repo) {
    id in m.chats && m.chats[id].repo == repo
  }

  function Refreshed(m: Model, id: Id, repo: Repo): Model {
    if BoundTo(m, id, repo) then m.(recency := Without(m.recency, id) + [id]) else m
  }

  /** The turns an append adds to: none when the id is new or belonged to another repo. */
  function Continued(m: Model, id: Id, repo: Repo): seq<Turn> {
    if BoundTo(m, id, repo) then m.chats[id].turns else []
  }

  function Written(m: Model, id: Id, repo: Repo, turn: Turn): Model {
    Model(Without(m.recency, id) + [id],
          m.chats[id := Chat(repo, LastN(Continued(m, id, repo) + [Capped(turn)], MAX_TURNS_KEPT))])
  }

  /** Whom the append evicts: the least recently used, when there is one too many. */
  function Victim(recency: seq<Id>): Option<Id> {
    if |recency| > MAX_CONVERSATIONS then Some(recency[0]) else None
  }

  function Evicted(m: Model): Model {
    match Victim(m.recency)
    case None => m
    case Some(oldest) => Model(m.recency[1..], m.chats - {oldest})
  }

  function Appended(m: Model, id: Id, repo: Repo, turn: Turn): Model {
    Evicted(Written(m, id, repo, turn))
  }

  /** An append evicts exactly when its id is new and the store full, and then the least recently used
      conversation; every other one is as it was. */
  lemma AppendEvictsOnlyTheOldest(m: Model, stamps: map<Id, nat>, clock: nat, id: Id, repo: Repo, turn: Turn, q: Id)
    requires Ordered(m.recency, stamps, clock) && stamps.Keys == m.chats.Keys
    requires |m.recency| <= MAX_CONVERSATIONS && q != id
    ensures var t := Appended(m, id, repo, turn);
            && id in t.chats
            && (q in t.chats <==>
                  q in m.chats && !(id !in m.chats && |m.recency| == MAX_CONVERSATIONS && q == m.recency[0]))
            && (q in t.chats ==> t.chats[q] == m.chats[q])
  {
    MoveToEnd(m.recency, stamps, clock, id);
    RisingWithout(m.recency, id, stamps, -1, clock);
    if Victim(Without(m.recency, id) + [id]).Some? {
      assert id !in m.chats && (m.recency + [id])[0] == m.recency[0];
    }
  }

  /** The conversation after an append: its last turn is the new one with its summary cut, and before it
      come the latest turns it had, if it belonged to the same repository. */
  lemma AppendedTurnComesLast(m: Model, id: Id, repo: Repo, turn: Turn)
    ensures var had := if id in m.chats && m.chats[id].repo == repo then m.chats[id].turns else [];
            var chat := Written(m, id, repo, turn).chats[id];
            var n := |chat.turns| - 1;
            && chat.repo == repo && n == (if |had| < MAX_TURNS_KEPT then |had| else MAX_TURNS_KEPT - 1)
            && chat.turns[n].user == turn.user && chat.turns[n].answer == turn.answer
            && chat.turns[n].toolContext.text == Truncated(turn.toolContext.text, TOOL_CTX_PER_TURN_CAP)
            && forall k :: 0 <= k < n ==> chat.turns[k] == had[|had| - n + k]
  {
    var had := Continued(m, id, repo);
    LastNIsTheEnd(had + [Capped(turn)], MAX_TURNS_KEPT);
  }

  function Dropped(m: Model, id: Id): Model {
    Model(Without(m.recency, id), m.chats - {id})
  }

  function StampsOf(conversations: map<Id, Conversation>): (stamps: map<Id, nat>)
    ensures stamps.Keys == conversations.Keys
  {
    map id | id in conversations :: conversations[id].lastUsed
  }

  function ChatsOf(conversations: map<Id, Conversation>): map<Id, Chat> {
    map id | id in conversations :: Chat(conversations[id].repo, conversations[id].turns)
  }

  lemma LessCommutes(conversations: map<Id, Conversation>, id: Id)
    ensures ChatsOf(conversations - {id}) == ChatsOf(conversations) - {id}
    ensures StampsOf(conversations - {id}) == StampsOf(conversations) - {id}
  {
  }

  lemma PutCommutes(conversations: map<Id, Conversation>, id: Id, conv: Conversation)
    ensures ChatsOf(conversations[id := conv]) == ChatsOf(conversations)[id := Chat(conv.repo, conv.turns)]
    ensures StampsOf(conversations[id := conv]) == StampsOf(conversations)[id := conv.lastUsed]
  {
  }

  /** Refreshing a stamp leaves the chats alone. */
  lemma ChatsStay(conversations: map<Id, Conversation>, id: Id, now: nat)
    requires id in conversations
    ensures ChatsOf(conversations[id := conversations[id].(lastUsed := now)]) == ChatsOf(conversations)
    ensures StampsOf(conversations[id := conversations[id].(lastUsed := now)]) == StampsOf(conversations)[id := now]
  {
  }

  method TrimTurns(all: seq<Turn>) returns (turns: seq<Turn>)
    ensures turns == LastN(all, MAX_TURNS_KEPT)
  {
    turns := all;
    ghost var gone: nat := 0;
    while |turns| > MAX_TURNS_KEPT
      invariant gone <= |all| && turns == all[gone..]
      invariant gone > 0 ==> |turns| >= MAX_TURNS_KEPT
      decreases |turns|
    {
      DropOne(all, gone);
      turns, gone := turns[1..], gone + 1;
    }
  }

  class ConversationStore {
    var conversations: map<Id, Conversation>
    var clock: nat
    ghost var recency: seq<Id>

    ghost function Contents(): Model
      reads this`conversations, this`recency
    {
      Model(recency, ChatsOf(conversations))
    }

    ghost predicate Valid()
      reads this
    {
      Ordered(recency, StampsOf(conversations), clock) && |recency| <= MAX_CONVERSATIONS
    }

    constructor ()
      ensures Valid() && Contents() == EMPTY
    {
      conversations, clock, recency := map[], 0, [];
    }

    /** Moves `id` to the most recent place. */
    method Refresh(id: Id)
      requires Valid() && id in conversations
      modifies this
      ensures Valid() && recency == Without(old(recency), id) + [id]
      ensures ChatsOf(conversations) == ChatsOf(old(conversations))
      ensures id in conversations && conversations[id].turns == old(conversations)[id].turns
    {
      var conv := conversations[id].(lastUsed := clock + 1);
      MoveToEnd(recency, StampsOf(conversations), clock, id);
      ChatsStay(conversations, id, clock + 1);
      clock := clock + 1;
      conversations := conversations[id := conv];
      recency := Without(recency, id) + [id];
    }

    method Snapshot(id: Id, repo: Repo) returns (out: seq<Message>)
      requires Valid()
      modifies this
      ensures Valid() && Contents() == Refreshed(old(Contents()), id, repo)
      ensures out == if BoundTo(old(Contents()), id, repo) then Transcript(old(Contents()).chats[id].turns) else []
      ensures BoundTo(old(Contents()), id, repo) ==>
                var turns := old(Contents()).chats[id].turns;
                && |out| == 2 * |turns|
                && forall k :: 0 <= k < |turns| ==>
                     out[2 * k] == User(turns[k].user) && out[2 * k + 1] == Assistant(turns[k].answer)
    {
      if id !in conversations || conversations[id].repo != repo {
        return [];
      }
      Refresh(id);
      var turns := conversations[id].turns;
      out := [];
      for i := 0 to |turns|
        invariant out == Transcript(turns[..i])
      {
        assert turns[..i + 1][..i] == turns[..i];
        out := out + [User(turns[i].user), Assistant(turns[i].answer)];
      }
      assert turns[..|turns|] == turns;
      QuestionThenAnswer(turns);
    }

    method RecentToolContext(id: Id, repo: Repo) returns (context: string)
      requires Valid()
      modifies this
      ensures Valid() && Contents() == Refreshed(old(Contents()), id, repo)
      ensures context == if BoundTo(old(Contents()), id, repo) then ToolContext(old(Contents()).chats[id].turns) else ""
    {
      if id !in conversations || conversations[id].repo != repo {
        return "";
      }
      Refresh(id);
      var picked := RecentSummaries(conversations[id].turns);
      if picked == [] {
        return "";
      }
      context := TruncateBytes(Joined(picked), TOOL_CTX_TOTAL_CAP);
    }

    /** The entry with the smallest stamp. */
    method LeastRecentlyUsed() returns (oldest: Id)
      requires Ordered(recency, StampsOf(conversations), clock) && conversations != map[]
      ensures recency != [] && oldest == recency[0]
    {
      var rest := conversations.Keys;
      oldest :| oldest in rest;
      rest := rest - {oldest};
      while rest != {}
        invariant oldest in conversations && rest <= conversations.Keys
        invariant forall id :: id in conversations && id !in rest ==>
                    conversations[oldest].lastUsed <= conversations[id].lastUsed
        decreases rest
      {
        var id :| id in rest;
        if conversations[id].lastUsed < conversations[oldest].lastUsed {
          oldest := id;
        }
        rest := rest - {id};
      }
      assert oldest in ToSet(recency);
      DropOldest(recency, StampsOf(conversations), clock);
    }

    /** The conversation of `id`, bound to `repo`, with the turn added and the oldest turns trimmed. */
    method Extended(id: Id, repo: Repo, turn: Turn) returns (conv: Conversation)
      ensures conv == Conversation(repo, Written(Contents(), id, repo, turn).chats[id].turns, clock + 1)
    {
      conv := if id in conversations then conversations[id] else Conversation(repo, [], clock + 1);
      if conv.repo != repo {
        conv := Conversation(repo, [], conv.lastUsed);
      }
      var toolContext := TruncateBytes(turn.toolContext.text, TOOL_CTX_PER_TURN_CAP);
      conv := Conversation(conv.repo, conv.turns + [turn.(toolContext := Words(toolContext))], clock + 1);
      var turns := TrimTurns(conv.turns);
      conv := conv.(turns := turns);
    }

    method Evict(oldest: Id)
      requires Ordered(recency, StampsOf(conversations), clock) && recency != [] && oldest == recency[0]
      modifies this`conversations, this`recency
      ensures Ordered(recency, StampsOf(conversations), clock) && recency == old(recency)[1..]
      ensures ChatsOf(conversations) == ChatsOf(old(conversations)) - {oldest}
    {
      DropOldest(recency, StampsOf(conversations), clock);
      LessCommutes(conversations, oldest);
      conversations := conversations - {oldest};
      recency := recency[1..];
    }

    /** Evicts the least recently used conversation when there is one too many, but never `id`. */
    method EvictOne(id: Id)
      requires Ordered(recency, StampsOf(conversations), clock) && |recency| <= MAX_CONVERSATIONS + 1
      requires |recency| > 1 ==> recency[0] != id
      modifies this`conversations, this`recency
      ensures Valid() && Contents() == Evicted(old(Contents()))
    {
      SizeIsOrder(recency, StampsOf(conversations), clock);
      if |conversations| > MAX_CONVERSATIONS {
        var oldest := LeastRecentlyUsed();
        if oldest != id {
          Evict(oldest);
        }
      }
    }

    method AppendTurn(id: Id, repo: Repo, turn: Turn)
      requires Valid()
      modifies this
      ensures Valid() && Contents() == Appended(old(Contents()), id, repo, turn)
    {
      var conv := Extended(id, repo, turn);
      MoveToEnd(recency, StampsOf(conversations), clock, id);
      PutCommutes(conversations, id, conv);
      clock := clock + 1;
      conversations := conversations[id := conv];
      recency := Without(recency, id) + [id];
      assert Contents() == Written(old(Contents()), id, repo, turn);
      NotTheLast(old(recency), id);
      EvictOne(id);
    }

    method DropConversation(id: Id)
      requires Valid()
      modifies this
      ensures Valid() && Contents() == Dropped(old(Contents()), id)
    {
      Forget(recency, StampsOf(conversations), clock, id);
      LessCommutes(conversations, id);
      conversations := conversations - {id};
      recency := Without(recency, id);
    }
  }

  /** The conversation just used is not the oldest of two or more. */
  lemma NotTheLast(recency: seq<Id>, id: Id)
    ensures var r := Without(recency, id) + [id]; |r| > 1 ==> r[0] != id
  {
    WithoutMembers(recency, id);
    if Without(recency, id) != [] { assert Without(recency, id)[0] in ToSet(Without(recency, id)); }
  }

  // ---------------------------------------------------------------------------------------
  // Whole histories
  // ---------------------------------------------------------------------------------------

  datatype Op =
    | SnapshotOp(id: Id, repo: Repo)
    | ContextOp(id: Id, repo: Repo)
    | AppendOp(id: Id, repo: Repo, turn: Turn)
    | DropOp(id: Id)

  /** What an observer can tell: turns said, other uses, and the two ways a conversation goes. */
  datatype Event = Said(id: Id, repo: Repo, turn: Turn) | Used(id: Id) | Gone(id: Id) | Closed(id: Id)

  function Next(m: Model, op: Op): Model {
    match op
    case SnapshotOp(id, repo) => Refreshed(m, id, repo)
    case ContextOp(id, repo) => Refreshed(m, id, repo)
    case AppendOp(id, repo, turn) => Appended(m, id, repo, turn)
    case DropOp(id) => Dropped(m, id)
  }

  function EventsOf(m: Model, op: Op): seq<Event> {
    match op
    case SnapshotOp(id, repo) => if BoundTo(m, id, repo) then [Used(id)] else []
    case ContextOp(id, repo) => if BoundTo(m, id, repo) then [Used(id)] else []
    case AppendOp(id, repo, turn) =>
      [Said(id, repo, turn)]
      + match Victim(Written(m, id, repo, turn).recency) { case None => [] case Some(oldest) => [Gone(oldest)] }
    case DropOp(id) => [Closed(id)]
  }

  /** Everything said in the conversation since it was created or changed repo, nothing trimmed. */
  function FullChat(events: seq<Event>, id: Id): Option<Chat> {
    if events == [] then None
    else
      var last, before := events[|events| - 1], FullChat(events[..|events| - 1], id);
      if last.id != id then before
      else
        match last
        case Said(_, repo, turn) =>
          var kept := if before.Some? && before.value.repo == repo then before.value.turns else [];
          Some(Chat(repo, kept + [Capped(turn)]))
        case Used(_) => before
        case Gone(_) => None
        case Closed(_) => None
  }

  /** Every summary kept is within its cap plus the marker. */
  lemma {:induction false} EverySummaryFits(events: seq<Event>, id: Id, t: Turn)
    requires FullChat(events, id).Some? && t in FullChat(events, id).value.turns
    ensures StoredTurn(t)
  {
    var last, before := events[|events| - 1], events[..|events| - 1];
    if last.id == id && last.Said? && t == Capped(last.turn) {
      CappedIsStored(last.turn);
    } else {
      EverySummaryFits(before, id, t);
    }
  }

  /** When each conversation was last used. */
  function Times(events: seq<Event>): map<Id, nat> {
    if events == [] then map[]
    else
      var last, before := events[|events| - 1], Times(events[..|events| - 1]);
      if last.Said? || last.Used? then before[last.id := |events| - 1] else before
  }

  /** What the store keeps of a conversation. */
  function Trimmed(full: Option<Chat>): Option<Chat> {
    match full
    case None => None
    case Some(chat) => Some(Chat(chat.repo, LastN(chat.turns, MAX_TURNS_KEPT)))
  }

  function ChatOf(m: Model, id: Id): Option<Chat> {
    if id in m.chats then Some(m.chats[id]) else None
  }

  ghost predicate Tells(events: seq<Event>, m: Model) {
    forall id :: ChatOf(m, id) == Trimmed(FullChat(events, id))
  }

  ghost predicate InUseOrder(recency: seq<Id>, ids: set<Id>, times: map<Id, nat>, high: int) {
    ids == ToSet(recency) && Rising(recency, times, -1, high)
  }

  ghost predicate Explains(events: seq<Event>, m: Model) {
    Tells(events, m) && InUseOrder(m.recency, m.chats.Keys, Times(events), |events| - 1)
  }

  lemma OneMore(events: seq<Event>, e: Event, id: Id)
    ensures Times(events + [e]) == if e.Said? || e.Used? then Times(events)[e.id := |events|] else Times(events)
    ensures FullChat(events + [e], id)
            == if e.id != id || e.Used? then FullChat(events, id)
               else if e.Said? then
                 var before := FullChat(events, id);
                 Some(Chat(e.repo, (if before.Some? && before.value.repo == e.repo then before.value.turns else [])
                                   + [Capped(e.turn)]))
               else None
  {
    assert (events + [e])[..|events|] == events;
  }

  lemma UseKeepsOrder(recency: seq<Id>, ids: set<Id>, times: map<Id, nat>, now: nat, id: Id)
    requires InUseOrder(recency, ids, times, now - 1)
    ensures InUseOrder(Without(recency, id) + [id], ids + {id}, times[id := now], now)
    ensures |Without(recency, id) + [id]| == |recency| + if id in ids then 0 else 1
  {
    RisingTouch(recency, times, now - 1, id, now);
  }

  lemma LossKeepsOrder(recency: seq<Id>, ids: set<Id>, times: map<Id, nat>, now: nat, id: Id)
    requires InUseOrder(recency, ids, times, now - 1)
    ensures InUseOrder(Without(recency, id), ids - {id}, times, now)
  {
    RisingWithout(recency, id, times, -1, now - 1);
    WithoutMembers(recency, id);
    RisingBounds(Without(recency, id), times, -1, now - 1);
    RisingIn(Without(recency, id), times, -1, now - 1, times, -1, now);
  }

  lemma FirstIsOldest(recency: seq<Id>, ids: set<Id>, times: map<Id, nat>, high: int)
    requires InUseOrder(recency, ids, times, high) && recency != []
    ensures Without(recency, recency[0]) == recency[1..]
    ensures recency[0] in ids && forall id :: id in ids && id != recency[0] ==>
              recency[0] in times && id in times && times[recency[0]] < times[id]
  {
    RisingBounds(recency[1..], times, times[recency[0]], high);
    RisingWithout(recency[1..], recency[0], times, times[recency[0]], high);
  }

  lemma WriteIsExplained(events: seq<Event>, m: Model, id: Id, repo: Repo, turn: Turn)
    requires Explains(events, m)
    ensures Explains(events + [Said(id, repo, turn)], Written(m, id, repo, turn))
    ensures |Written(m, id, repo, turn).recency| == |m.recency| + if id in m.chats then 0 else 1
  {
    var e, t := Said(id, repo, turn), Written(m, id, repo, turn);
    OneMore(events, e, id);
    UseKeepsOrder(m.recency, m.chats.Keys, Times(events), |events|, id);
    assert t.chats.Keys == m.chats.Keys + {id};
    forall x ensures ChatOf(t, x) == Trimmed(FullChat(events + [e], x)) {
      OneMore(events, e, x);
      assert ChatOf(m, x) == Trimmed(FullChat(events, x));
      if x == id { WriteTrims(FullChat(events, id), m, id, repo, turn); }
    }
  }

  lemma WriteTrims(before: Option<Chat>, m: Model, id: Id, repo: Repo, turn: Turn)
    requires ChatOf(m, id) == Trimmed(before)
    ensures var kept := if before.Some? && before.value.repo == repo then before.value.turns else [];
            ChatOf(Written(m, id, repo, turn), id) == Trimmed(Some(Chat(repo, kept + [Capped(turn)])))
  {
    if before.Some? && before.value.repo == repo {
      LastNPush(before.value.turns, MAX_TURNS_KEPT, Capped(turn));
    }
  }

  lemma LossIsExplained(events: seq<Event>, m: Model, id: Id, e: Event)
    requires Explains(events, m) && e.id == id && (e.Gone? || e.Closed?)
    ensures Explains(events + [e], Dropped(m, id))
  {
    var t := Dropped(m, id);
    OneMore(events, e, id);
    LossKeepsOrder(m.recency, m.chats.Keys, Times(events), |events|, id);
    assert t.chats.Keys == m.chats.Keys - {id};
    forall x ensures ChatOf(t, x) == Trimmed(FullChat(events + [e], x)) {
      OneMore(events, e, x);
      assert ChatOf(m, x) == Trimmed(FullChat(events, x));
    }
  }

  lemma UseIsExplained(events: seq<Event>, m: Model, id: Id, repo: Repo)
    requires Explains(events, m) && BoundTo(m, id, repo)
    ensures Explains(events + [Used(id)], Refreshed(m, id, repo))
  {
    var e, t := Used(id), Refreshed(m, id, repo);
    OneMore(events, e, id);
    UseKeepsOrder(m.recency, m.chats.Keys, Times(events), |events|, id);
    assert t.chats.Keys == m.chats.Keys + {id};
    forall x ensures ChatOf(t, x) == Trimmed(FullChat(events + [e], x)) {
      OneMore(events, e, x);
      assert ChatOf(m, x) == Trimmed(FullChat(events, x));
    }
  }

  lemma EvictionIsExplained(events: seq<Event>, m: Model)
    requires Explains(events, m) && |m.recency| > MAX_CONVERSATIONS
    ensures Explains(events + [Gone(m.recency[0])], Evicted(m))
    ensures forall id :: id in m.chats && id != m.recency[0] ==>
              m.recency[0] in Times(events) && id in Times(events) && Times(events)[m.recency[0]] < Times(events)[id]
  {
    FirstIsOldest(m.recency, m.chats.Keys, Times(events), |events| - 1);
    LossIsExplained(events, m, m.recency[0], Gone(m.recency[0]));
  }

  /** An append evicts at most the least recently used conversation, never the one it wrote. */
  lemma AppendIsExplained(events: seq<Event>, m: Model, id: Id, repo: Repo, turn: Turn)
    requires Explains(events, m) && |m.recency| <= MAX_CONVERSATIONS
    ensures Explains(events + EventsOf(m, AppendOp(id, repo, turn)), Appended(m, id, repo, turn))
    ensures |Appended(m, id, repo, turn).recency| <= MAX_CONVERSATIONS
    ensures id in Appended(m, id, repo, turn).chats
    ensures id in m.chats ==> Victim(Written(m, id, repo, turn).recency).None?
  {
    var t, said := Written(m, id, repo, turn), events + [Said(id, repo, turn)];
    WriteIsExplained(events, m, id, repo, turn);
    Assoc(said, [], []);
    if |t.recency| > MAX_CONVERSATIONS {
      EvictionIsExplained(said, t);
      NotTheLast(m.recency, id);
      Assoc(events, [Said(id, repo, turn)], [Gone(t.recency[0])]);
    }
  }

  lemma StepIsExplained(events: seq<Event>, m: Model, op: Op)
    requires Explains(events, m) && |m.recency| <= MAX_CONVERSATIONS
    ensures Explains(events + EventsOf(m, op), Next(m, op)) && |Next(m, op).recency| <= MAX_CONVERSATIONS
  {
    Assoc(events, [], []);
    match op
    case SnapshotOp(id, repo) => RefreshIsExplained(events, m, id, repo);
    case ContextOp(id, repo) => RefreshIsExplained(events, m, id, repo);
    case AppendOp(id, repo, turn) => AppendIsExplained(events, m, id, repo, turn);
    case DropOp(id) =>
      LossIsExplained(events, m, id, Closed(id));
      RisingWithout(m.recency, id, Times(events), -1, |events| - 1);
  }

  lemma RefreshIsExplained(events: seq<Event>, m: Model, id: Id, repo: Repo)
    requires Explains(events, m)
    ensures Explains(events + (if BoundTo(m, id, repo) then [Used(id)] else []), Refreshed(m, id, repo))
    ensures |Refreshed(m, id, repo).recency| == |m.recency|
  {
    Assoc(events, [], []);
    if BoundTo(m, id, repo) {
      UseIsExplained(events, m, id, repo);
      UseKeepsOrder(m.recency, m.chats.Keys, Times(events), |events|, id);
    }
  }

  ghost function HistoryFrom(m: Model, ops: seq<Op>): (seq<Event>, Model)
    decreases |ops|
  {
    if ops == [] then ([], m)
    else
      var (events, last) := HistoryFrom(Next(m, ops[0]), ops[1..]);
      (EventsOf(m, ops[0]) + events, last)
  }

  lemma {:induction false} HistoryIsExplained(events: seq<Event>, m: Model, ops: seq<Op>)
    requires Explains(events, m) && |m.recency| <= MAX_CONVERSATIONS
    ensures var (more, last) := HistoryFrom(m, ops);
            Explains(events + more, last) && |last.recency| <= MAX_CONVERSATIONS
    decreases |ops|
  {
    if ops == [] {
      Assoc(events, [], []);
    } else {
      StepIsExplained(events, m, ops[0]);
      var step, next := EventsOf(m, ops[0]), Next(m, ops[0]);
      HistoryIsExplained(events + step, next, ops[1..]);
      var (rest, last) := HistoryFrom(next, ops[1..]);
      Assoc(events, step, rest);
    }
  }

  /** After any history: at most 64 conversations, and each holds the last 40 of the turns said in it
      since it was created, changed repo, was evicted or was closed. */
  lemma StoredTurnsAreTheMostRecent(ops: seq<Op>, id: Id)
    ensures var (events, m) := HistoryFrom(EMPTY, ops);
            && |m.chats| <= MAX_CONVERSATIONS
            && ChatOf(m, id) == Trimmed(FullChat(events, id))
            && (id in m.chats ==> |m.chats[id].turns| <= MAX_TURNS_KEPT)
  {
    var (events, m) := HistoryFrom(EMPTY, ops);
    HistoryIsExplained([], EMPTY, ops);
    assert [] + events == events;
    assert ChatOf(m, id) == Trimmed(FullChat(events, id));
    RisingBounds(m.recency, Times(events), -1, |events| - 1);
    assert |m.chats| == |m.chats.Keys|;
  }
}
