/**
 Facts about sequences that the other modules use.
 */
module Sequences {

  lemma Pushed<T>(s: seq<T>, x: T)
    ensures (s + [x])[..|s|] == s && (s + [x])[|s|] == x
  {
  }

  lemma TakeOneMore<T>(s: seq<T>, i: nat)
    requires i < |s|
    ensures s[..i] + [s[i]] == s[..i + 1]
    ensures forall x :: x in s[..i] ==> x in s
    ensures s[i] in s
  {
  }

  lemma Assoc<T>(a: seq<T>, b: seq<T>, c: seq<T>)
    ensures (a + b) + c == a + (b + c)
    ensures a + [] == a
  {
  }

  lemma TakeAppend<T>(a: seq<T>, b: seq<T>, k: nat)
    requires k <= |b|
    ensures (a + b)[..|a| + k] == a + b[..k]
    ensures b == [] ==> a + b == a
  {
  }

  lemma FirstAndRest<T>(s: seq<T>)
    requires s != []
    ensures s == [s[0]] + s[1..]
  {
  }

  lemma SplitAt<T>(s: seq<T>, i: nat)
    requires i < |s|
    ensures s == s[..i] + [s[i]] + s[i + 1..]
    ensures multiset(s) == multiset(s[..i] + s[i + 1..]) + multiset{s[i]}
  {
    assert s == s[..i] + [s[i]] + s[i + 1..];
  }

  /** Taking the last of `a` and its equal out of a permutation leaves permutations. */
  lemma SameRest<T>(a: seq<T>, b: seq<T>, i: nat)
    requires a != [] && multiset(a) == multiset(b) && i < |b| && b[i] == a[|a| - 1]
    ensures multiset(a[..|a| - 1]) == multiset(b[..i] + b[i + 1..])
  {
    var k := |a| - 1;
    SplitAt(a, k);
    SplitAt(b, i);
    assert a[..k] + a[k + 1..] == a[..k];
    assert multiset(a[..k]) == multiset(a) - multiset{b[i]};
  }

  lemma CountPushed<T>(s: seq<T>, x: T, y: T)
    ensures multiset(s + [x])[y] == multiset(s)[y] + if x == y then 1 else 0
  {
  }

  /** How many elements of `s` satisfy `p`. */
  ghost function Count<T>(s: seq<T>, p: T -> bool): nat {
    if s == [] then 0 else Count(s[..|s| - 1], p) + if p(s[|s| - 1]) then 1 else 0
  }

  /** `kept` is what is left of `all` when only elements that satisfy `p` stay: each of them once, at the
      place the earlier ones leave it. */
  ghost predicate KeepsInOrder<T>(kept: seq<T>, all: seq<T>, p: T -> bool) {
    && |kept| == Count(all, p)
    && forall i :: 0 <= i < |all| && p(all[i]) ==> StandsAt(kept, Count(all[..i], p), all[i])
  }

  predicate StandsAt<T(==)>(s: seq<T>, k: nat, x: T) {
    k < |s| && s[k] == x
  }

  lemma {:induction false} CountFromTheFront<T>(x: T, s: seq<T>, p: T -> bool)
    ensures Count([x] + s, p) == (if p(x) then 1 else 0) + Count(s, p)
  {
    var all := [x] + s;
    if s == [] {
      assert all == [x] && all[..0] == [];
      assert Count(all, p) == Count(all[..0], p) + if p(x) then 1 else 0;
    } else {
      assert all[..|all| - 1] == [x] + s[..|s| - 1];
      CountFromTheFront(x, s[..|s| - 1], p);
    }
  }

  lemma KeepsNothing<T>(p: T -> bool)
    ensures KeepsInOrder<T>([], [], p)
  {
  }

  lemma KeepsOneBefore<T>(kept: seq<T>, all: seq<T>, x: T, p: T -> bool)
    requires KeepsInOrder(kept, all, p)
    ensures KeepsInOrder((if p(x) then [x] else []) + kept, [x] + all, p)
  {
    var more, longer := (if p(x) then [x] else []) + kept, [x] + all;
    CountFromTheFront(x, all, p);
    forall i | 0 <= i < |longer| && p(longer[i]) ensures StandsAt(more, Count(longer[..i], p), longer[i]) {
      if i > 0 {
        assert longer[..i] == [x] + all[..i - 1];
        CountFromTheFront(x, all[..i - 1], p);
        assert StandsAt(kept, Count(all[..i - 1], p), all[i - 1]);
      }
    }
  }

  lemma {:induction false} ElementAtPlace<T>(all: seq<T>, p: T -> bool, k: nat) returns (i: nat)
    requires k < Count(all, p)
    ensures i < |all| && p(all[i]) && Count(all[..i], p) == k
  {
    var n := |all| - 1;
    if k < Count(all[..n], p) {
      i := ElementAtPlace(all[..n], p, k);
      assert all[..n][..i] == all[..i];
    } else {
      i := n;
    }
  }

  /** There is only one such list. */
  lemma KeptIsDetermined<T>(a: seq<T>, b: seq<T>, all: seq<T>, p: T -> bool)
    requires KeepsInOrder(a, all, p) && KeepsInOrder(b, all, p)
    ensures a == b
  {
    forall k | 0 <= k < |a| ensures a[k] == b[k] {
      var i := ElementAtPlace(all, p, k);
      assert StandsAt(a, k, all[i]) && StandsAt(b, k, all[i]);
    }
  }
}
