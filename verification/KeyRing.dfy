/**
 Spreading requests over a provider's API keys (`src/llm/keys.rs`).

 What an attempt does is an oracle `reply(key, number)`: the answer of the attempt with that number,
 counted from 0 over the whole request, on that key.
 */
module KeyRotation {
  import opened Numbers
  import opened Sequences

  const USIZE_MODULUS: nat := 0x1_0000_0000_0000_0000

  datatype Key = Key(secret: string)
  datatype Error = Error(message: string)

  datatype Outcome<T> = Success(value: T) | Retry(error: Error) | Stop(error: Error)

  datatype SendError = NoKey | Last(error: Error) | RateLimited(limited: nat, keys: nat, last: Error)

  datatype SendResult<T> = Sent(value: T) | Failed(why: SendError)

  /** One attempt: the key's index and what came back. */
  datatype Attempt<T> = Attempt(key: nat, outcome: Outcome<T>)

  predicate Contains(text: string, part: string) {
    part <= text || (text != "" && Contains(text[1..], part))
  }

  predicate IsRateLimited(e: Error) {
    && Contains(e.message, "429")
    && (Contains(e.message, "Too Many Requests") || Contains(e.message, "RESOURCE_EXHAUSTED")
        || Contains(e.message, "rate") || Contains(e.message, "quota"))
  }

  /** `part` stands in `text` from index `i` on. */
  predicate OccursAt(text: string, part: string, i: nat) {
    i + |part| <= |text| && text[i..i + |part|] == part
  }

  ghost predicate Occurs(text: string, part: string) {
    exists i: nat :: OccursAt(text, part, i)
  }

  lemma {:induction false} ContainsIsOccurs(text: string, part: string)
    ensures Contains(text, part) <==> Occurs(text, part)
  {
    assert OccursAt(text, part, 0) <==> part <= text;
    if text != "" {
      var rest := text[1..];
      ContainsIsOccurs(rest, part);
      forall i: nat ensures OccursAt(rest, part, i) <==> OccursAt(text, part, i + 1) {
        OccursLater(text, part, i);
      }
      if i: nat :| OccursAt(rest, part, i) { assert OccursAt(text, part, i + 1); }
      if i: nat :| OccursAt(text, part, i) { assert i == 0 || OccursAt(rest, part, i - 1); }
    }
  }

  lemma OccursLater(text: string, part: string, i: nat)
    requires text != ""
    ensures OccursAt(text[1..], part, i) <==> OccursAt(text, part, i + 1)
  {
    if i + |part| <= |text[1..]| { assert text[1..][i..i + |part|] == text[i + 1..i + 1 + |part|]; }
  }

  /** A rate limit is an error whose text has the status code and one of the four phrases in it, anywhere. */
  lemma RateLimitIsCodeAndPhrase(e: Error)
    ensures IsRateLimited(e) <==>
            && Occurs(e.message, "429")
            && exists phrase :: phrase in PHRASES && Occurs(e.message, phrase)
  {
    ContainsIsOccurs(e.message, "429");
    ContainsIsOccurs(e.message, "Too Many Requests");
    ContainsIsOccurs(e.message, "RESOURCE_EXHAUSTED");
    ContainsIsOccurs(e.message, "rate");
    ContainsIsOccurs(e.message, "quota");
    assert "Too Many Requests" in PHRASES && "RESOURCE_EXHAUSTED" in PHRASES;
    assert "rate" in PHRASES && "quota" in PHRASES;
  }

  const PHRASES := {"Too Many Requests", "RESOURCE_EXHAUSTED", "rate", "quota"}

  predicate IsLimit<T>(outcome: Outcome<T>) {
    outcome.Retry? && IsRateLimited(outcome.error)
  }

  // ---------------------------------------------------------------------------------------
  // The plan of a request
  // ---------------------------------------------------------------------------------------

  /** The key tried at position `k` of the first pass. */
  function KeyAt(n: nat, start: nat, k: nat): (key: nat)
    requires start < n && k < n
    ensures key < n
  {
    if start + k < n then start + k else start + k - n
  }

  /** Which positions of the first pass meet a rate limit. */
  function Limits<T>(n: nat, start: nat, reply: (nat, nat) -> Outcome<T>): (limits: seq<bool>)
    requires start < n
    ensures |limits| == n
  {
    seq(n, k requires 0 <= k < n => IsLimit(reply(KeyAt(n, start, k), k)))
  }

  /** The keys of a whole pass. */
  function Rotation(n: nat, start: nat): (keys: seq<nat>)
    requires start < n
    ensures |keys| == n && forall k :: 0 <= k < n ==> keys[k] == KeyAt(n, start, k)
  {
    seq(n, k requires 0 <= k < n => KeyAt(n, start, k))
  }

  /** The keys at the first `m` positions that met no rate limit, in the same order. */
  function Kept(start: nat, limits: seq<bool>, m: nat): (keys: seq<nat>)
    requires start < |limits| && m <= |limits|
    ensures |keys| <= m
  {
    if m == 0 then []
    else if limits[m - 1] then Kept(start, limits, m - 1)
    else Kept(start, limits, m - 1) + [KeyAt(|limits|, start, m - 1)]
  }

  /** Every key in rotation order, then again those that met no rate limit. */
  function Plan(start: nat, limits: seq<bool>): (keys: seq<nat>)
    requires start < |limits|
    ensures |limits| <= |keys| <= 2 * |limits|
  {
    Rotation(|limits|, start) + Kept(start, limits, |limits|)
  }

  function CountTrue(s: seq<bool>): nat {
    if s == [] then 0 else CountTrue(s[..|s| - 1]) + if s[|s| - 1] then 1 else 0
  }

  lemma KeyAtWrapsAround(n: nat, start: nat, k: nat)
    requires start < n && k < n
    ensures KeyAt(n, start, k) == (start + k) % n
  {
  }

  /** A pass tries each key once. */
  lemma PassVisitsEachKeyOnce(n: nat, start: nat, key: nat) returns (k: nat)
    requires start < n && key < n
    ensures k < n && Rotation(n, start)[k] == key
    ensures forall j :: 0 <= j < n && Rotation(n, start)[j] == key ==> j == k
  {
    k := if key >= start then key - start else key + n - start;
  }

  /** How often the retry pass, cut off after `m` positions, tries the key at position `k`. */
  function Retries(start: nat, limits: seq<bool>, m: nat, k: nat): nat
    requires start < |limits| && k < |limits| && m <= |limits|
  {
    multiset(Kept(start, limits, m))[KeyAt(|limits|, start, k)]
  }

  /** The retry pass has exactly the keys whose first attempt met no limit, each once. */
  lemma RetriesAreTheUnlimited(start: nat, limits: seq<bool>, m: nat, k: nat)
    requires start < |limits| && k < |limits| && m <= |limits|
    ensures Retries(start, limits, m, k) == if k < m && !limits[k] then 1 else 0
  {
    var i, retries := 0, 0;
    assert Retries(start, limits, 0, k) == 0;
    while i < m
      invariant i <= m && retries == Retries(start, limits, i, k)
      invariant retries == if k < i && !limits[k] then 1 else 0
    {
      KeptCount(start, limits, i, k);
      retries := Retries(start, limits, i + 1, k);
      i := i + 1;
    }
  }

  lemma KeysDiffer(n: nat, start: nat, j: nat, k: nat)
    requires start < n && j < n && k < n
    ensures KeyAt(n, start, j) == KeyAt(n, start, k) <==> j == k
  {
  }

  lemma KeptCount(start: nat, limits: seq<bool>, m: nat, k: nat)
    requires start < |limits| && m < |limits| && k < |limits|
    ensures Retries(start, limits, m + 1, k) == Retries(start, limits, m, k) + if m == k && !limits[k] then 1 else 0
  {
    KeysDiffer(|limits|, start, m, k);
    CountPushed(Kept(start, limits, m), KeyAt(|limits|, start, m), KeyAt(|limits|, start, k));
  }

  /** No retry pass exactly when every key met a limit. */
  lemma {:induction false} RetriesAndLimits(start: nat, limits: seq<bool>, m: nat)
    requires start < |limits| && m <= |limits|
    ensures |Kept(start, limits, m)| == m - CountTrue(limits[..m])
  {
    if m > 0 {
      RetriesAndLimits(start, limits, m - 1);
      assert limits[..m][..m - 1] == limits[..m - 1];
    }
  }

  /** The plan by place: position `k` of the rotation is tried first as number `k`, and a second time, if
      it met no limit, behind the whole rotation and the unlimited positions before it. */
  lemma PlanByPlace(start: nat, limits: seq<bool>, k: nat)
    requires start < |limits| && k < |limits|
    ensures var n, plan := |limits|, Plan(start, limits);
            && |plan| == 2 * n - CountTrue(limits)
            && plan[k] == (start + k) % n
            && (!limits[k] ==>
                  var again := n + k - CountTrue(limits[..k]); n <= again < |plan| && plan[again] == (start + k) % n)
  {
    KeyAtWrapsAround(|limits|, start, k);
    RetriesAndLimits(start, limits, |limits|);
    assert limits[..|limits|] == limits;
    if !limits[k] {
      RetriesAndLimits(start, limits, k);
      NextRetry(start, limits, k);
    }
  }

  // ---------------------------------------------------------------------------------------
  // The flags kept by key index
  // ---------------------------------------------------------------------------------------

  lemma {:induction false} CountAppend(s: seq<bool>, t: seq<bool>)
    ensures CountTrue(s + t) == CountTrue(s) + CountTrue(t)
  {
    if t == [] {
      assert s + t == s;
    } else {
      CountAppend(s, t[..|t| - 1]);
      assert (s + t)[..|s + t| - 1] == s + t[..|t| - 1];
    }
  }

  /** `flags`, read in rotation order, says which of the first `m` positions met a limit. */
  predicate Flags(start: nat, limits: seq<bool>, flags: seq<bool>, m: nat)
    requires start < |limits| == |flags| && m <= |flags|
  {
    forall k :: 0 <= k < m ==> flags[KeyAt(|flags|, start, k)] == limits[k]
  }

  lemma SetFlag(start: nat, limits: seq<bool>, flags: seq<bool>, m: nat)
    requires start < |limits| == |flags| && m < |flags| && Flags(start, limits, flags, m)
    ensures Flags(start, limits, flags[KeyAt(|flags|, start, m) := limits[m]], m + 1)
  {
  }

  /** Counting the flags by index counts the limited positions. */
  lemma FlagsCount(start: nat, limits: seq<bool>, flags: seq<bool>)
    requires start < |limits| == |flags| && Flags(start, limits, flags, |flags|)
    ensures CountTrue(flags) == CountTrue(limits)
  {
    var read := flags[start..] + flags[..start];
    forall k | 0 <= k < |flags| ensures read[k] == limits[k] {}
    assert read == limits;
    CountAppend(flags[start..], flags[..start]);
    CountAppend(flags[..start], flags[start..]);
    assert flags == flags[..start] + flags[start..];
  }

  // ---------------------------------------------------------------------------------------
  // What a request did
  // ---------------------------------------------------------------------------------------

  /** The attempts made: a prefix of the plan, each but the last a retryable failure. */
  ghost predicate Follows<T>(plan: seq<nat>, reply: (nat, nat) -> Outcome<T>, trace: seq<Attempt<T>>) {
    && |trace| <= |plan|
    && (forall k :: 0 <= k < |trace| ==> trace[k] == Attempt(plan[k], reply(plan[k], k)))
    && (forall k :: 0 <= k < |trace| - 1 ==> trace[k].outcome.Retry?)
  }

  /** What the caller is told after those attempts. */
  ghost predicate Reports<T>(plan: seq<nat>, limited: nat, keys: nat, trace: seq<Attempt<T>>, result: SendResult<T>) {
    && trace != []
    && match trace[|trace| - 1].outcome
       case Success(v) => result == Sent(v)
       case Stop(e) => result == Failed(Last(e))
       case Retry(e) =>
         && |trace| == |plan|
         && result == Failed(if limited == 0 then Last(e) else RateLimited(limited, keys, e))
  }

  lemma FollowsPush<T>(plan: seq<nat>, reply: (nat, nat) -> Outcome<T>, trace: seq<Attempt<T>>, i: nat)
    requires Follows(plan, reply, trace) && |trace| < |plan| && plan[|trace|] == i
    requires trace != [] ==> trace[|trace| - 1].outcome.Retry?
    ensures Follows(plan, reply, trace + [Attempt(i, reply(i, |trace|))])
  {
  }

  /** The first pass, from `start`: stops at once on a success or a `Stop`. */
  method FirstPass<T>(n: nat, start: nat, reply: (nat, nat) -> Outcome<T>)
    returns (rateLimited: array<bool>, last: Outcome<T>, ghost trace: seq<Attempt<T>>)
    requires start < n
    ensures fresh(rateLimited) && rateLimited.Length == n
    ensures Follows(Rotation(n, start), reply, trace) && trace != [] && last == trace[|trace| - 1].outcome
    ensures last.Retry? ==> |trace| == n && Flags(start, Limits(n, start, reply), rateLimited[..], n)
  {
    rateLimited := new bool[n](_ => false);
    last, trace := Retry(Error("")), [];
    ghost var limits := Limits(n, start, reply);
    for offset := 0 to n
      invariant |trace| == offset && Follows(Rotation(n, start), reply, trace)
      invariant offset > 0 ==> trace[offset - 1].outcome == last
      invariant last.Retry?
      invariant Flags(start, limits, rateLimited[..], offset)
    {
      var i := (start + offset) % n;
      KeyAtWrapsAround(n, start, offset);
      last := reply(i, offset);
      FollowsPush(Rotation(n, start), reply, trace, i);
      trace := trace + [Attempt(i, last)];
      if !last.Retry? {
        return;
      }
      SetFlag(start, limits, rateLimited[..], offset);
      rateLimited[i] := IsRateLimited(last.error);
    }
  }

  lemma PassIsPlanPrefix<T>(start: nat, limits: seq<bool>, reply: (nat, nat) -> Outcome<T>, trace: seq<Attempt<T>>)
    requires start < |limits| && Follows(Rotation(|limits|, start), reply, trace)
    ensures Follows(Plan(start, limits), reply, trace)
  {
    forall k | 0 <= k < |trace| ensures trace[k] == Attempt(Plan(start, limits)[k], reply(Plan(start, limits)[k], k)) {
      assert Plan(start, limits)[k] == Rotation(|limits|, start)[k];
    }
  }

  lemma {:induction false} KeptPrefix(start: nat, limits: seq<bool>, m: nat, n: nat)
    requires start < |limits| && m <= n <= |limits|
    ensures Kept(start, limits, m) <= Kept(start, limits, n)
  {
    if m < n { KeptPrefix(start, limits, m, n - 1); }
  }

  /** The key the plan retries once position `m` of the rotation is reached. */
  lemma NextRetry(start: nat, limits: seq<bool>, m: nat)
    requires start < |limits| && m < |limits| && !limits[m]
    ensures var at := |limits| + |Kept(start, limits, m)|;
            at < |Plan(start, limits)| && Plan(start, limits)[at] == KeyAt(|limits|, start, m)
  {
    KeptPrefix(start, limits, m + 1, |limits|);
  }

  /** Tries the keys that met no limit again. */
  method RetryPass<T>(n: nat, start: nat, reply: (nat, nat) -> Outcome<T>, rateLimited: array<bool>, first: Outcome<T>,
                      ghost limits: seq<bool>, ghost before: seq<Attempt<T>>)
    returns (last: Outcome<T>, ghost trace: seq<Attempt<T>>)
    requires start < n == rateLimited.Length == |limits| == |before|
    requires first.Retry? && before[n - 1].outcome == first
    requires Flags(start, limits, rateLimited[..], n) && Follows(Plan(start, limits), reply, before)
    ensures Follows(Plan(start, limits), reply, trace)
    ensures trace != [] && last == trace[|trace| - 1].outcome
    ensures last.Retry? ==> |trace| == |Plan(start, limits)|
  {
    last, trace := first, before;
    ghost var plan := Plan(start, limits);
    var number := n;
    for offset := 0 to n
      invariant number == |trace| == n + |Kept(start, limits, offset)|
      invariant Follows(plan, reply, trace) && last.Retry? && last == trace[|trace| - 1].outcome
    {
      var i := (start + offset) % n;
      RetryAt(start, limits, rateLimited[..], offset);
      if !rateLimited[i] {
        last := reply(i, number);
        FollowsPush(plan, reply, trace, i);
        trace := trace + [Attempt(i, last)];
        number := number + 1;
        if !last.Retry? {
          return;
        }
      }
    }
  }

  /** What the flag of position `k` says of the rest of the plan. */
  lemma RetryAt(start: nat, limits: seq<bool>, flags: seq<bool>, k: nat)
    requires start < |limits| == |flags| && k < |flags| && Flags(start, limits, flags, |flags|)
    ensures var i, kept, plan := (start + k) % |flags|, |Kept(start, limits, k)|, Plan(start, limits);
            && i < |flags| && |Kept(start, limits, k + 1)| == kept + (if flags[i] then 0 else 1)
            && (!flags[i] ==> |flags| + kept < |plan| && plan[|flags| + kept] == i)
  {
    KeyAtWrapsAround(|flags|, start, k);
    assert flags[KeyAt(|flags|, start, k)] == limits[k];
    if !limits[k] { NextRetry(start, limits, k); }
  }

  method CountFlags(flags: array<bool>) returns (count: nat)
    ensures count == CountTrue(flags[..])
  {
    count := 0;
    for i := 0 to flags.Length
      invariant count == CountTrue(flags[..i])
    {
      assert flags[..i + 1][..i] == flags[..i];
      if flags[i] {
        count := count + 1;
      }
    }
    assert flags[..flags.Length] == flags[..];
  }

  function Stopped<T>(last: Outcome<T>): SendResult<T>
    requires !last.Retry?
  {
    match last
    case Success(v) => Sent(v)
    case Stop(e) => Failed(Last(e))
  }

  lemma {:induction false} KeptIsUnlimited(start: nat, limits: seq<bool>, m: nat, i: nat) returns (j: nat)
    requires start < |limits| && m <= |limits| && i < |Kept(start, limits, m)|
    ensures j < m && !limits[j] && Kept(start, limits, m)[i] == KeyAt(|limits|, start, j)
  {
    if limits[m - 1] || i < |Kept(start, limits, m - 1)| {
      j := KeptIsUnlimited(start, limits, m - 1, i);
    } else {
      j := m - 1;
    }
  }

  /** At most two attempts a key; a second attempt happens only after every key failed retryably, and
      only on a key whose first failure was no rate limit. */
  lemma SecondAttemptsAreEarned<T>(n: nat, start: nat, reply: (nat, nat) -> Outcome<T>, trace: seq<Attempt<T>>)
    requires start < n && Follows(Plan(start, Limits(n, start, reply)), reply, trace)
    ensures |trace| <= 2 * n
    ensures |trace| > n ==> forall k :: 0 <= k < n ==> trace[k].outcome.Retry? && trace[k].key == KeyAt(n, start, k)
    ensures forall k :: n <= k < |trace| ==>
              exists j :: 0 <= j < n && trace[k].key == trace[j].key && !IsLimit(trace[j].outcome)
  {
    var limits := Limits(n, start, reply);
    var plan := Plan(start, limits);
    forall k | n <= k < |trace|
      ensures exists j :: 0 <= j < n && trace[k].key == trace[j].key && !IsLimit(trace[j].outcome)
    {
      assert plan[k] == Kept(start, limits, n)[k - n];
      var j := KeptIsUnlimited(start, limits, n, k - n);
      assert plan[j] == KeyAt(n, start, j) && trace[j] == Attempt(plan[j], reply(plan[j], j));
      assert limits[j] == IsLimit(trace[j].outcome);
    }
  }

  class Cursor {
    var next: nat

    constructor ()
      ensures next == 0
    {
      next := 0;
    }

    method FetchAdd() returns (value: nat)
      modifies this
      ensures value == old(next) && next == (old(next) + 1) % USIZE_MODULUS
    {
      value := next;
      next := (next + 1) % USIZE_MODULUS;
    }
  }

  class KeyRing {
    const keys: seq<Key>
    const cursor: Cursor

    /** `cursor` is fresh, or shared with other rings of the same keys. */
    constructor (keys: seq<Key>, cursor: Cursor)
      ensures this.keys == keys && this.cursor == cursor
    {
      this.keys, this.cursor := keys, cursor;
    }

    method Send<T>(reply: (nat, nat) -> Outcome<T>) returns (result: SendResult<T>, ghost trace: seq<Attempt<T>>)
      modifies cursor
      ensures keys == [] ==> result == Failed(NoKey) && trace == [] && cursor.next == old(cursor.next)
      ensures keys != [] ==>
                var start := old(cursor.next) % |keys|;
                var limits := Limits(|keys|, start, reply);
                && cursor.next == (old(cursor.next) + 1) % USIZE_MODULUS
                && Follows(Plan(start, limits), reply, trace)
                && Reports(Plan(start, limits), CountTrue(limits), |keys|, trace, result)
    {
      var n := |keys|;
      if n == 0 {
        return Failed(NoKey), [];
      }
      var value := cursor.FetchAdd();
      var start := value % n;
      ghost var limits := Limits(n, start, reply);
      ghost var plan := Plan(start, limits);
      var rateLimited, last, first := FirstPass(n, start, reply);
      PassIsPlanPrefix(start, limits, reply, first);
      if !last.Retry? {
        return Stopped(last), first;
      }
      FlagsCount(start, limits, rateLimited[..]);
      last, trace := RetryPass(n, start, reply, rateLimited, last, limits, first);
      if !last.Retry? {
        return Stopped(last), trace;
      }
      var limited := CountFlags(rateLimited);
      result := Failed(if limited == 0 then Last(last.error) else RateLimited(limited, n, last.error));
    }
  }

  // ---------------------------------------------------------------------------------------
  // Rotation between requests
  // ---------------------------------------------------------------------------------------

  /** The next request starts on the next key, except where the cursor wraps and the number of keys
      does not divide its range. */
  lemma RequestsStartOnSuccessiveKeys(cursor: nat, n: nat)
    requires 0 < n && cursor < USIZE_MODULUS
    ensures (cursor + 1) % USIZE_MODULUS % n == (cursor % n + 1) % n
            <==> cursor < USIZE_MODULUS - 1 || USIZE_MODULUS % n == 0
  {
    NextModulo(cursor, n);
    if cursor == USIZE_MODULUS - 1 { assert 0 % n == 0; }
  }

  lemma NextModulo(c: nat, n: nat)
    requires n > 0
    ensures (c + 1) % n == (c % n + 1) % n
  {
    var q, r := c / n, c % n;
    assert c == q * n + r;
    if r + 1 < n {
      Remainder(c + 1, n, q, r + 1);
      Remainder(r + 1, n, 0, r + 1);
    } else {
      Remainder(c + 1, n, q + 1, 0);
      Remainder(n, n, 1, 0);
    }
  }
}
