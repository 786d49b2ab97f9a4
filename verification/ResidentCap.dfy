/**
 Which shards leave memory when the resident bytes pass the cap
 (`src/vector/sharded.rs`: `evict_to_cap`): what the survivors are, without the loop that picks them.
 */
module ResidentCap {

  type Repo = string

  ghost function Pick(repos: set<Repo>): (r: Repo)
    requires repos != {}
    ensures r in repos
  {
    var r :| r in repos;
    r
  }

  /** The bytes that `repos` hold together. */
  ghost function Total(sizes: map<Repo, nat>, repos: set<Repo>): nat
    requires repos <= sizes.Keys
  {
    if repos == {} then 0
    else
      var r := Pick(repos);
      sizes[r] + Total(sizes, repos - {r})
  }

  lemma {:induction false} TotalWithout(sizes: map<Repo, nat>, repos: set<Repo>, r: Repo)
    requires repos <= sizes.Keys && r in repos
    ensures Total(sizes, repos) == sizes[r] + Total(sizes, repos - {r})
  {
    var p := Pick(repos);
    if p != r {
      TotalWithout(sizes, repos - {p}, r);
      TotalWithout(sizes, repos - {r}, p);
      assert repos - {p} - {r} == repos - {r} - {p};
    }
  }

  lemma {:induction false} TotalGrows(sizes: map<Repo, nat>, some: set<Repo>, more: set<Repo>)
    requires some <= more <= sizes.Keys
    ensures Total(sizes, some) <= Total(sizes, more)
  {
    if some == more {
    } else {
      var r :| r in more && r !in some;
      TotalGrows(sizes, some, more - {r});
      TotalWithout(sizes, more, r);
    }
  }

  /** Only the sizes of `repos` matter. */
  lemma {:induction false} SameTotal(sizes: map<Repo, nat>, other: map<Repo, nat>, repos: set<Repo>)
    requires repos <= sizes.Keys && repos <= other.Keys
    requires forall r :: r in repos ==> sizes[r] == other[r]
    ensures Total(sizes, repos) == Total(other, repos)
  {
    if repos != {} {
      SameTotal(sizes, other, repos - {Pick(repos)});
    }
  }

  /** No two repositories carry the same stamp. */
  ghost predicate Distinct(stamps: map<Repo, nat>) {
    forall r, s {:trigger stamps[r], stamps[s]} ::
      r in stamps && s in stamps && r != s ==> stamps[r] != stamps[s]
  }

  /** `v` left last, and had to. */
  ghost predicate LastToLeave(sizes: map<Repo, nat>, left: set<Repo>, stamps: map<Repo, nat>, cap: nat, v: Repo)
    requires left <= sizes.Keys <= stamps.Keys
  {
    && v in sizes.Keys - left
    && (forall u :: u in sizes.Keys - left ==> stamps[u] <= stamps[v])
    && Total(sizes, left + {v}) > cap
  }

  /** Everything in `kept` is still there, nothing went before something longer untouched, and
      nothing went that the cap did not push out. */
  ghost predicate Trimmed(sizes: map<Repo, nat>, left: set<Repo>, kept: set<Repo>, stamps: map<Repo, nat>, cap: nat)
    requires sizes.Keys <= stamps.Keys
  {
    && left <= sizes.Keys
    && sizes.Keys * kept <= left
    && (forall v, w :: v in sizes.Keys - left && w in left - kept ==> stamps[v] < stamps[w])
    && (left != sizes.Keys ==> exists v :: LastToLeave(sizes, left, stamps, cap, v))
  }

  /** `left` is what stays of `sizes`, within the cap or with nothing more that may go. A cap of 0
      is none. */
  ghost predicate Cut(sizes: map<Repo, nat>, left: set<Repo>, kept: set<Repo>, stamps: map<Repo, nat>, cap: nat)
    requires sizes.Keys <= stamps.Keys
  {
    && Trimmed(sizes, left, kept, stamps, cap)
    && if cap == 0 then left == sizes.Keys else Total(sizes, left) <= cap || left <= kept
  }

  /** No cut keeps a shard that another one lets go. */
  lemma CutKeepsNoMore(sizes: map<Repo, nat>, a: set<Repo>, b: set<Repo>, kept: set<Repo>, stamps: map<Repo, nat>,
                       cap: nat, v: Repo)
    requires sizes.Keys <= stamps.Keys
    requires Cut(sizes, a, kept, stamps, cap) && Cut(sizes, b, kept, stamps, cap)
    ensures !(v in a && v !in b)
  {
    if v in a && v !in b {
      var last :| LastToLeave(sizes, b, stamps, cap, last);
      assert b + {last} <= a;
      TotalGrows(sizes, b + {last}, a);
    }
  }

  /** The cap, the stamps and what must stay determine what stays. */
  lemma CutIsUnique(sizes: map<Repo, nat>, a: set<Repo>, b: set<Repo>, kept: set<Repo>, stamps: map<Repo, nat>,
                    cap: nat)
    requires sizes.Keys <= stamps.Keys
    requires Cut(sizes, a, kept, stamps, cap) && Cut(sizes, b, kept, stamps, cap)
    ensures a == b
  {
    forall v ensures v in a <==> v in b {
      CutKeepsNoMore(sizes, a, b, kept, stamps, cap, v);
      CutKeepsNoMore(sizes, b, a, kept, stamps, cap, v);
    }
  }

  /** Taking the longest untouched of what may go from a set still over the cap. */
  lemma TrimOneMore(sizes: map<Repo, nat>, left: set<Repo>, kept: set<Repo>, stamps: map<Repo, nat>, cap: nat, v: Repo)
    requires sizes.Keys <= stamps.Keys && Trimmed(sizes, left, kept, stamps, cap)
    requires v in left - kept && Distinct(stamps) && Total(sizes, left) > cap
    requires forall w :: w in left - kept ==> stamps[v] <= stamps[w]
    ensures Trimmed(sizes, left - {v}, kept, stamps, cap)
  {
    assert left - {v} + {v} == left;
    forall u, w | u in sizes.Keys - (left - {v}) && w in left - {v} - kept ensures stamps[u] < stamps[w] {
      if u == v { assert stamps[v] != stamps[w]; }
    }
    assert LastToLeave(sizes, left - {v}, stamps, cap, v);
  }

  ghost predicate IsOldest(v: Repo, among: set<Repo>, stamps: map<Repo, nat>)
    requires among <= stamps.Keys
  {
    v in among && forall w :: w in among ==> stamps[v] <= stamps[w]
  }

  lemma OldestIsUnique(v: Repo, among: set<Repo>, stamps: map<Repo, nat>)
    requires among <= stamps.Keys && Distinct(stamps) && IsOldest(v, among, stamps)
    ensures v == Oldest(among, stamps)
  {
    var w := Oldest(among, stamps);
    assert stamps[v] <= stamps[w] && stamps[w] <= stamps[v];
  }

  ghost function Oldest(among: set<Repo>, stamps: map<Repo, nat>): (v: Repo)
    requires among != {} && among <= stamps.Keys
    ensures IsOldest(v, among, stamps)
  {
    var p := Pick(among);
    if among == {p} then p
    else
      var v := Oldest(among - {p}, stamps);
      if stamps[p] <= stamps[v] then p else v
  }

  /** What is left of `left` once shards went, the longest untouched first, until the cap held. */
  ghost function Survivors(sizes: map<Repo, nat>, left: set<Repo>, kept: set<Repo>, stamps: map<Repo, nat>, cap: nat)
    : (r: set<Repo>)
    requires left <= sizes.Keys <= stamps.Keys
    ensures left * kept <= r <= left
    decreases left
  {
    if cap == 0 || Total(sizes, left) <= cap || left <= kept then left
    else
      StillSome(left, kept);
      Survivors(sizes, left - {Oldest(left - kept, stamps)}, kept, stamps, cap)
  }

  lemma SurvivorsWithout(sizes: map<Repo, nat>, left: set<Repo>, kept: set<Repo>, stamps: map<Repo, nat>, cap: nat,
                         v: Repo)
    requires left <= sizes.Keys <= stamps.Keys && Distinct(stamps)
    requires cap != 0 && Total(sizes, left) > cap && IsOldest(v, left - kept, stamps)
    ensures Survivors(sizes, left, kept, stamps, cap) == Survivors(sizes, left - {v}, kept, stamps, cap)
  {
    OldestIsUnique(v, left - kept, stamps);
  }

  lemma StillSome(left: set<Repo>, kept: set<Repo>)
    requires !(left <= kept)
    ensures left - kept != {}
  {
    var r :| r in left && r !in kept;
    assert r in left - kept;
  }

  /** Evicting one by one keeps exactly what the cap lets stay. */
  lemma {:induction false} SurvivorsAreTheCut(sizes: map<Repo, nat>, left: set<Repo>, kept: set<Repo>,
                                              stamps: map<Repo, nat>, cap: nat)
    requires sizes.Keys <= stamps.Keys && Distinct(stamps)
    requires Trimmed(sizes, left, kept, stamps, cap) && (cap == 0 ==> left == sizes.Keys)
    ensures Cut(sizes, Survivors(sizes, left, kept, stamps, cap), kept, stamps, cap)
    decreases left
  {
    if !(cap == 0 || Total(sizes, left) <= cap || left <= kept) {
      StillSome(left, kept);
      var v := Oldest(left - kept, stamps);
      TrimOneMore(sizes, left, kept, stamps, cap, v);
      SurvivorsAreTheCut(sizes, left - {v}, kept, stamps, cap);
    }
  }
}
