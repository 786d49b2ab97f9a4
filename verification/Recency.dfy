/**
 Lists of ids kept least recently used first, and the stamps that say the same
 (`src/mcp_session_store.rs`, `src/chat.rs`).
 */
module Recency {

  datatype Id = Id(text: string)

  function Without(s: seq<Id>, id: Id): seq<Id> {
    if s == [] then []
    else if s[0] == id then Without(s[1..], id)
    else [s[0]] + Without(s[1..], id)
  }

  function ToSet(s: seq<Id>): set<Id> {
    if s == [] then {} else {s[0]} + ToSet(s[1..])
  }

  lemma {:induction false} WithoutMembers(s: seq<Id>, id: Id)
    ensures ToSet(Without(s, id)) == ToSet(s) - {id}
  {
    if s != [] {
      WithoutMembers(s[1..], id);
      if s[0] != id {
        var r := Without(s, id);
        assert r[0] == s[0] && r[1..] == Without(s[1..], id);
      }
    }
  }

  lemma {:induction false} ToSetAppend(s: seq<Id>, id: Id)
    ensures ToSet(s + [id]) == ToSet(s) + {id}
  {
    var r := s + [id];
    if s != [] {
      ToSetAppend(s[1..], id);
      assert r[0] == s[0] && r[1..] == s[1..] + [id];
    } else {
      assert r[1..] == [];
    }
  }

  /** `key` strictly increases along `s`, all above `low` and none above `high`. */
  ghost predicate Rising(s: seq<Id>, key: map<Id, nat>, low: int, high: int) {
    s == [] ||
    (&& s[0] in key
     && low < key[s[0]] <= high
     && Rising(s[1..], key, key[s[0]], high))
  }

  lemma {:induction false} RisingBounds(s: seq<Id>, key: map<Id, nat>, low: int, high: int)
    requires Rising(s, key, low, high)
    ensures forall id :: id in ToSet(s) ==> id in key && low < key[id] <= high
    ensures |ToSet(s)| == |s|
  {
    if s != [] {
      RisingBounds(s[1..], key, key[s[0]], high);
      assert s[0] !in ToSet(s[1..]);
    }
  }

  /** Only the stamps along `s` matter, and the bounds may be widened. */
  lemma {:induction false} RisingIn(s: seq<Id>, key: map<Id, nat>, low: int, high: int,
                                    other: map<Id, nat>, low': int, high': int)
    requires Rising(s, key, low, high) && low' <= low && high <= high'
    requires forall id :: id in ToSet(s) ==> id in other && id in key && other[id] == key[id]
    ensures Rising(s, other, low', high')
  {
    if s != [] {
      RisingIn(s[1..], key, key[s[0]], high, other, key[s[0]], high');
    }
  }

  lemma {:induction false} RisingWithout(s: seq<Id>, id: Id, key: map<Id, nat>, low: int, high: int)
    requires Rising(s, key, low, high)
    ensures Rising(Without(s, id), key, low, high)
    ensures |Without(s, id)| == if id in ToSet(s) then |s| - 1 else |s|
    ensures id !in ToSet(s) ==> Without(s, id) == s
  {
    if s != [] {
      var stamp, rest := key[s[0]], Without(s[1..], id);
      RisingWithout(s[1..], id, key, stamp, high);
      RisingBounds(s[1..], key, stamp, high);
      if s[0] == id {
        RisingIn(rest, key, stamp, high, key, low, high);
      } else {
        var r := Without(s, id);
        assert r[0] == s[0] && r[1..] == rest;
      }
    }
  }

  lemma {:induction false} RisingAppend(s: seq<Id>, key: map<Id, nat>, low: int, high: int, id: Id)
    requires Rising(s, key, low, high)
    requires id in key && low < key[id] && high < key[id]
    ensures Rising(s + [id], key, low, key[id])
  {
    var r := s + [id];
    if s != [] {
      RisingAppend(s[1..], key, key[s[0]], high, id);
      assert r[0] == s[0] && r[1..] == s[1..] + [id];
    } else {
      assert r[1..] == [];
    }
  }

  /** Moving `id` to the end matches giving it a key above all others. */
  lemma RisingTouch(s: seq<Id>, key: map<Id, nat>, high: int, id: Id, now: nat)
    requires Rising(s, key, -1, high) && high < now
    ensures Rising(Without(s, id) + [id], key[id := now], -1, now)
    ensures ToSet(Without(s, id) + [id]) == ToSet(s) + {id}
    ensures |Without(s, id) + [id]| == |s| + if id in ToSet(s) then 0 else 1
  {
    RisingBounds(s, key, -1, high);
    RisingWithout(s, id, key, -1, high);
    WithoutMembers(s, id);
    RisingIn(Without(s, id), key, -1, high, key[id := now], -1, high);
    RisingAppend(Without(s, id), key[id := now], -1, high, id);
    ToSetAppend(Without(s, id), id);
  }

  lemma {:induction false} SplitMembers(s: seq<Id>, k: nat)
    requires k <= |s|
    ensures ToSet(s) == ToSet(s[..k]) + ToSet(s[k..])
  {
    if k == 0 {
      assert s[0..] == s && s[..0] == [];
    } else {
      SplitMembers(s[1..], k - 1);
      assert s[1..][k - 1..] == s[k..] && s[1..][..k - 1] == s[..k][1..];
    }
  }

  lemma {:induction false} RisingDrop(s: seq<Id>, k: nat, key: map<Id, nat>, low: int, high: int)
    requires Rising(s, key, low, high) && k <= |s|
    ensures Rising(s[k..], key, low, high)
  {
    if k == 0 {
      assert s[0..] == s;
    } else {
      RisingDrop(s[1..], k - 1, key, key[s[0]], high);
      assert s[1..][k - 1..] == s[k..];
      RisingBounds(s[k..], key, key[s[0]], high);
      RisingIn(s[k..], key, key[s[0]], high, key, low, high);
    }
  }

  lemma {:induction false} PrefixIsOlder(s: seq<Id>, k: nat, key: map<Id, nat>, low: int, high: int, v: Id, w: Id)
    requires Rising(s, key, low, high) && k <= |s| && v in ToSet(s[..k]) && w in ToSet(s[k..])
    ensures v in key && w in key && key[v] < key[w]
  {
    assert s != [];
    var next := key[s[0]];
    assert s[1..][k - 1..] == s[k..] && s[1..][..k - 1] == s[..k][1..];
    SplitMembers(s[1..], k - 1);
    RisingBounds(s[1..], key, next, high);
    if v != s[0] { PrefixIsOlder(s[1..], k - 1, key, next, high, v, w); }
  }

  lemma PrefixIsDisjoint(s: seq<Id>, k: nat, key: map<Id, nat>, low: int, high: int)
    requires Rising(s, key, low, high) && k <= |s|
    ensures ToSet(s[k..]) == ToSet(s) - ToSet(s[..k])
  {
    SplitMembers(s, k);
    forall w | w in ToSet(s[k..]) ensures w !in ToSet(s[..k]) {
      if w in ToSet(s[..k]) { PrefixIsOlder(s, k, key, low, high, w, w); }
    }
  }

  // ---------------------------------------------------------------------------------------
  // Stamped entries
  // ---------------------------------------------------------------------------------------

  /** The stamps are distinct, none is in the future, and they say the same as the list. */
  ghost predicate Ordered(order: seq<Id>, stamps: map<Id, nat>, clock: int) {
    stamps.Keys == ToSet(order) && Rising(order, stamps, -1, clock)
  }

  lemma SizeIsOrder(order: seq<Id>, stamps: map<Id, nat>, clock: int)
    requires Ordered(order, stamps, clock)
    ensures |stamps.Keys| == |order|
  {
    RisingBounds(order, stamps, -1, clock);
  }

  lemma Later(order: seq<Id>, stamps: map<Id, nat>, clock: int)
    requires Ordered(order, stamps, clock)
    ensures Ordered(order, stamps, clock + 1)
  {
    RisingBounds(order, stamps, -1, clock);
    RisingIn(order, stamps, -1, clock, stamps, -1, clock + 1);
  }

  lemma DropOldest(order: seq<Id>, stamps: map<Id, nat>, clock: int)
    requires Ordered(order, stamps, clock) && order != []
    ensures Ordered(order[1..], stamps - {order[0]}, clock)
    ensures order[0] in stamps && forall id :: id in stamps && id != order[0] ==> stamps[order[0]] < stamps[id]
  {
    var oldest := order[0];
    RisingBounds(order[1..], stamps, stamps[oldest], clock);
    RisingIn(order[1..], stamps, stamps[oldest], clock, stamps - {oldest}, -1, clock);
    forall id | id in stamps && id != oldest ensures stamps[oldest] < stamps[id] {}
  }

  lemma MoveToEnd(order: seq<Id>, stamps: map<Id, nat>, clock: int, id: Id)
    requires Ordered(order, stamps, clock) && clock >= -1
    ensures Ordered(Without(order, id) + [id], stamps[id := clock + 1], clock + 1)
    ensures |Without(order, id) + [id]| == |order| + if id in stamps then 0 else 1
  {
    RisingTouch(order, stamps, clock, id, clock + 1);
  }

  lemma Forget(order: seq<Id>, stamps: map<Id, nat>, clock: int, id: Id)
    requires Ordered(order, stamps, clock)
    ensures Ordered(Without(order, id), stamps - {id}, clock) && |Without(order, id)| <= |order|
  {
    RisingWithout(order, id, stamps, -1, clock);
    WithoutMembers(order, id);
    RisingBounds(order, stamps, -1, clock);
    RisingIn(Without(order, id), stamps, -1, clock, stamps - {id}, -1, clock);
  }
}
