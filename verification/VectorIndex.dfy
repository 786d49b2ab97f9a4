/**
 The per-repository vector shards and their mutation fence
 (`src/vector/sharded.rs`: `ShardedVectorIndex`).

 The class keeps the source's separate tables; `EntryOf` collects what they say about one
 repository. Every method is proved to change that entry by the function named here; beside it,
 other repositories lose a live shard to the byte cap, in the order `ResidentCap` says, or the rows
 that lie inside a removed repository, and nothing else.
 */
module VectorIndex {
  import opened Maps
  import opened Options
  import opened ResidentCap

  datatype Chunk = Chunk(file: string, lineStart: nat, lineEnd: nat)

  type Vector = seq<int>

  /** The searchable rows of a repository: what a shard holds and what the chunk table holds. */
  type Rows = map<Chunk, Vector>

  datatype Shard = Shard(rows: Rows, identity: string)

  datatype Entry = Entry(live: Option<Shard>, pending: Option<Shard>, stale: Option<Shard>,
                         mutating: bool, epoch: nat)

  const FRESH := Entry(None, None, None, false, 0)

  /** Drops the rows of `removed`, then adds `added`. */
  function Delta(rows: Rows, removed: set<string>, added: Rows): Rows {
    (map c | c in rows && c.file !in removed :: rows[c]) + added
  }

  /** Row by row: every added row is there with its vector, and of the old ones exactly those of the files
      not removed, unless an added one takes the place. */
  ghost predicate Merges(before: Rows, removed: set<string>, added: Rows, after: Rows) {
    && (forall c :: c in after <==> c in added || (c in before && c.file !in removed))
    && (forall c :: c in after ==> after[c] == if c in added then added[c] else before[c])
  }

  lemma DeltaMerges(before: Rows, removed: set<string>, added: Rows, after: Rows)
    ensures Merges(before, removed, added, after) <==> after == Delta(before, removed, added)
  {
    if Merges(before, removed, added, after) {
      var d := Delta(before, removed, added);
      assert forall c :: c in after <==> c in d;
      assert forall c :: c in after ==> after[c] == d[c];
    }
  }

  /** An empty shard carries no information and is never kept. */
  function NonEmpty(rows: Rows, identity: string): Option<Shard> {
    if rows == map[] then None else Some(Shard(rows, identity))
  }

  function OrElse(a: Option<Shard>, b: Option<Shard>): Option<Shard> {
    if a.Some? then a else b
  }

  function BegunFull(e: Entry): Entry {
    Entry(None, None, OrElse(OrElse(e.live, e.pending), e.stale), true, e.epoch + 1)
  }

  function BegunIncremental(e: Entry): Entry {
    Entry(None, e.live, e.stale, true, e.epoch + 1)
  }

  function Aborted(e: Entry): Entry {
    Entry(None, None, OrElse(OrElse(e.live, e.pending), e.stale), true, e.epoch + 1)
  }

  function PublishedFull(e: Entry, rows: Rows, identity: string): Entry {
    Entry(NonEmpty(rows, identity), None, None, false, e.epoch + 1)
  }

  /** Only a shard that was resident at the start absorbs the delta; a cold repository stays cold. */
  function PublishedIncremental(e: Entry, removed: set<string>, added: Rows, identity: string): Entry {
    match e.pending
    case None => Entry(e.live, None, None, false, e.epoch + 1)
    case Some(base) => Entry(NonEmpty(Delta(base.rows, removed, added), identity), None, None, false, e.epoch + 2)
  }

  /** Removing a repository's index leaves the fence and its epoch as they were. */
  function Removed(e: Entry): Entry {
    Entry(None, None, None, e.mutating, e.epoch)
  }

  function Stem(repo: Repo): string {
    if repo != "" && repo[|repo| - 1] in {'/', '\\'} then repo[..|repo| - 1] else repo
  }

  /** The file is the repository's root or lies below it. */
  predicate PathInRepo(file: string, repo: Repo) {
    var root := Stem(repo);
    file == root || (root < file && file[|root|] in {'/', '\\'})
  }

  /** A name that only continues the root's is not inside it, and one separator behind the root changes
      nothing. */
  lemma OnlyASeparatorLeadsInside(root: string, rest: string, sep: char)
    requires sep in {'/', '\\'} && Stem(root) == root
    ensures PathInRepo(root, root) && PathInRepo(root + [sep] + rest, root)
    ensures PathInRepo(root + rest, root) <==> rest == "" || rest[0] in {'/', '\\'}
    ensures forall file :: PathInRepo(file, root + [sep]) <==> PathInRepo(file, root)
    ensures forall file :: PathInRepo(file, root) ==> root <= file
  {
    assert Stem(root + [sep]) == root;
    assert (root + [sep] + rest)[|root|] == sep;
    if rest != "" { assert (root + rest)[|root|] == rest[0]; }
  }

  function Outside(rows: Rows, repo: Repo): (r: Rows)
    ensures forall c :: c in r <==> c in rows && !PathInRepo(c.file, repo)
    ensures forall c :: c in r ==> r[c] == rows[c]
  {
    map c | c in rows && !PathInRepo(c.file, repo) :: rows[c]
  }

  /** Another repository's entry after `repo` was removed: its shard stays, even when emptied. */
  function Stripped(e: Entry, repo: Repo): Entry {
    match e.live
    case None => e
    case Some(shard) => e.(live := Some(Shard(Outside(shard.rows, repo), shard.identity)))
  }

  /** The shard, none standing for no rows, is the merge, in the space named. */
  ghost predicate Carries(shard: Option<Shard>, before: Rows, removed: set<string>, added: Rows, identity: string) {
    && Merges(before, removed, added, if shard.Some? then shard.value.rows else map[])
    && (shard.Some? ==> shard.value.identity == identity)
  }

  lemma DeltaCarries(before: Rows, removed: set<string>, added: Rows, identity: string)
    ensures Carries(NonEmpty(Delta(before, removed, added), identity), before, removed, added, identity)
  {
    DeltaMerges(before, removed, added, Delta(before, removed, added));
  }

  /** The tables by repository. */
  datatype Tables = Tables(shards: map<Repo, Shard>, pending: map<Repo, Shard>, stale: map<Repo, Shard>,
                           mutating: set<Repo>, epochs: map<Repo, nat>)
  {
    function EntryOf(repo: Repo): Entry {
      Entry(if repo in shards then Some(shards[repo]) else None,
            if repo in pending then Some(pending[repo]) else None,
            if repo in stale then Some(stale[repo]) else None,
            repo in mutating,
            if repo in epochs then epochs[repo] else 0)
    }
  }

  /** At most the live shard is gone. */
  predicate AtMostEvicted(before: Entry, after: Entry) {
    after == before || after == before.(live := None)
  }

  ghost predicate OthersAtMostEvicted(before: Tables, after: Tables, repo: Repo) {
    forall r :: r != repo ==> AtMostEvicted(before.EntryOf(r), after.EntryOf(r))
  }

  /** `repo` has `shard`; of the others some may be gone. */
  ghost predicate Replaced(before: map<Repo, Shard>, after: map<Repo, Shard>, repo: Repo, shard: Option<Shard>) {
    && (if repo in after then shard == Some(after[repo]) else shard == None)
    && forall r :: r in after && r != repo ==> r in before && after[r] == before[r]
  }

  lemma ReplacedPut(before: map<Repo, Shard>, after: map<Repo, Shard>, repo: Repo, hidden: Shard, shard: Option<Shard>)
    requires Replaced(before[repo := hidden], after, repo, shard)
    ensures Replaced(before, after, repo, shard)
    ensures repo in after ==> before[repo := hidden][repo := after[repo]] == before[repo := after[repo]]
  {
  }

  /** Only `repo` differs, and has `e`. */
  ghost predicate Changed(before: Tables, after: Tables, repo: Repo, e: Entry) {
    after.EntryOf(repo) == e && forall r :: r != repo ==> after.EntryOf(r) == before.EntryOf(r)
  }

  /** The tables once the live shard is out of the way and the fence is up. */
  function Fenced(t: Tables, repo: Repo, pending: map<Repo, Shard>, stale: map<Repo, Shard>): Tables {
    Tables(t.shards - {repo}, pending, stale, t.mutating + {repo}, t.epochs[repo := t.EntryOf(repo).epoch + 1])
  }

  function PutIn(m: map<Repo, Shard>, repo: Repo, shard: Option<Shard>): map<Repo, Shard> {
    if shard.Some? then m[repo := shard.value] else m
  }

  lemma RetiredEntries(t: Tables, repo: Repo)
    ensures var e := t.EntryOf(repo);
            var stale := PutIn(t.stale, repo, OrElse(e.live, e.pending));
            Changed(t, Fenced(t, repo, t.pending - {repo}, stale), repo, BegunFull(e))
  {
  }

  lemma HiddenEntries(t: Tables, repo: Repo)
    ensures var e := t.EntryOf(repo);
            Changed(t, Fenced(t, repo, PutIn(t.pending - {repo}, repo, e.live), t.stale), repo, BegunIncremental(e))
  {
  }

  /** Every shard without the rows inside `repo`. */
  function Strip(shards: map<Repo, Shard>, repo: Repo): map<Repo, Shard> {
    map r | r in shards :: Shard(Outside(shards[r].rows, repo), shards[r].identity)
  }

  /** The tables once `repo` is gone and its rows are out of every other shard. */
  function Cleared(t: Tables, repo: Repo): Tables {
    t.(shards := Strip(t.shards - {repo}, repo), pending := t.pending - {repo}, stale := t.stale - {repo})
  }

  lemma ClearedEntries(t: Tables, repo: Repo)
    ensures Cleared(t, repo).EntryOf(repo) == Removed(t.EntryOf(repo))
    ensures forall r :: r != repo ==> Cleared(t, repo).EntryOf(r) == Stripped(t.EntryOf(r), repo)
  {
  }

  /** The tables after a publish, but for the live shards. */
  function Opened(t: Tables, repo: Repo, shards: map<Repo, Shard>, epoch: nat): Tables {
    Tables(shards, t.pending - {repo}, t.stale - {repo}, t.mutating - {repo}, t.epochs[repo := epoch])
  }

  lemma OpenedEntries(before: Tables, repo: Repo, shards: map<Repo, Shard>, epoch: nat, shard: Option<Shard>)
    requires Replaced(before.shards, shards, repo, shard)
    ensures var after := Opened(before, repo, shards, epoch);
            after.EntryOf(repo) == Entry(shard, None, None, false, epoch) && OthersAtMostEvicted(before, after, repo)
  {
  }

  lemma AppliedEntries(before: Tables, repo: Repo, shards: map<Repo, Shard>, epoch: nat, shard: Option<Shard>)
    requires Replaced(before.shards, shards, repo, shard)
    ensures var after := before.(shards := shards, epochs := before.epochs[repo := epoch]);
            after.EntryOf(repo) == before.EntryOf(repo).(live := shard, epoch := epoch)
            && OthersAtMostEvicted(before, after, repo)
  {
  }

  lemma InstalledEntries(before: Tables, repo: Repo, shards: map<Repo, Shard>, shard: Option<Shard>)
    requires Replaced(before.shards, shards, repo, shard)
    ensures var after := before.(shards := shards);
            after.EntryOf(repo) == before.EntryOf(repo).(live := shard) && OthersAtMostEvicted(before, after, repo)
  {
  }

  /** An update in place: a resident shard absorbs the delta, a cold repository stays cold. */
  function Applied(e: Entry, removed: set<string>, added: Rows, identity: string): Entry {
    match e.live
    case None => e.(epoch := e.epoch + 1)
    case Some(shard) => e.(epoch := e.epoch + 1, live := NonEmpty(Delta(shard.rows, removed, added), identity))
  }

  /** What a query could last be answered from: the live shard, else the base hidden for an incremental
      run, else the snapshot kept from before. */
  function LastSearchable(e: Entry): Option<Shard> {
    match e.live
    case Some(_) => e.live
    case None => if e.pending.Some? then e.pending else e.stale
  }

  /** Beginning or aborting an update takes the live shard away but not the last answer; an incremental
      begin does exactly when it meets no leftover base of a run that neither published nor aborted. */
  lemma UpdatesKeepTheLastAnswer(e: Entry)
    ensures forall f :: f in {BegunFull(e), BegunIncremental(e), Aborted(e)} ==>
              f.live.None? && f.mutating && f.epoch == e.epoch + 1
    ensures BegunFull(e).pending.None? && LastSearchable(BegunFull(e)) == LastSearchable(e)
    ensures Aborted(e).pending.None? && LastSearchable(Aborted(e)) == LastSearchable(e)
    ensures BegunIncremental(e).pending == e.live && BegunIncremental(e).stale == e.stale
    ensures LastSearchable(BegunIncremental(e)) == LastSearchable(e)
            <==> e.live.Some? || e.pending.None? || e.pending == e.stale
  {
  }

  /** Either publish takes the fence down, leaves nothing hidden and moves the epoch on; what is live then
      is the full rows, or the base with the delta, or what was live if there was no base. */
  lemma PublishesOpenTheFence(e: Entry, rows: Rows, removed: set<string>, added: Rows, identity: string)
    ensures forall f :: f in {PublishedFull(e, rows, identity), PublishedIncremental(e, removed, added, identity)} ==>
              !f.mutating && f.pending.None? && f.stale.None? && f.epoch > e.epoch
    ensures PublishedFull(e, rows, identity).live == if rows == map[] then None else Some(Shard(rows, identity))
    ensures var live := PublishedIncremental(e, removed, added, identity).live;
            if e.pending.None? then live == e.live
            else Carries(live, e.pending.value.rows, removed, added, identity)
  {
    if e.pending.Some? { DeltaCarries(e.pending.value.rows, removed, added, identity); }
  }

  predicate Installable(e: Entry, scanEpoch: nat) {
    !e.mutating && e.epoch == scanEpoch
  }

  function Installed(e: Entry, shard: Shard, scanEpoch: nat): Entry {
    if Installable(e, scanEpoch) then e.(live := NonEmpty(shard.rows, shard.identity)) else e
  }

  class ShardedVectorIndex {
    var shards: map<Repo, Shard>
    var mutatingRepos: set<Repo>
    var pendingIncremental: map<Repo, Shard>
    var stale: map<Repo, Shard>
    var epochs: map<Repo, nat>
    var touched: map<Repo, nat>
    var clock: nat
    const sizeOf: Shard -> nat
    const capBytes: nat

    /** Every stamp is given out once, and every shard that is or may come back live has one. */
    ghost predicate Valid()
      reads this
    {
      Clocked() && Tracked()
    }

    ghost predicate Clocked()
      reads this`touched, this`clock
    {
      Distinct(touched) && forall r {:trigger touched[r]} :: r in touched ==> touched[r] <= clock
    }

    ghost predicate Tracked()
      reads this`touched, this`shards, this`pendingIncremental
    {
      shards.Keys + pendingIncremental.Keys <= touched.Keys
    }

    function State(): Tables
      reads this
    {
      Tables(shards, pendingIncremental, stale, mutatingRepos, epochs)
    }

    function EntryOf(repo: Repo): Entry
      reads this
    {
      State().EntryOf(repo)
    }

    function Sizes(some: map<Repo, Shard>): map<Repo, nat> {
      map r | r in some :: sizeOf(some[r])
    }

    /** What the cap leaves of `some`, `kept` in any case. */
    ghost function WithinCap(some: map<Repo, Shard>, kept: set<Repo>): (r: map<Repo, Shard>)
      reads this
      ensures r.Keys <= some.Keys && some.Keys * kept <= r.Keys
      ensures forall repo :: repo in r ==> r[repo] == some[repo]
    {
      if some.Keys <= touched.Keys then
        Restrict(some, Survivors(Sizes(some), some.Keys, kept, touched, capBytes))
      else
        some
    }

    constructor (sizeOf: Shard -> nat, capBytes: nat)
      ensures Valid() && forall r :: EntryOf(r) == FRESH
      ensures this.sizeOf == sizeOf && this.capBytes == capBytes
    {
      shards, mutatingRepos, pendingIncremental, stale, epochs := map[], {}, map[], map[], map[];
      touched, clock := map[], 0;
      this.sizeOf, this.capBytes := sizeOf, capBytes;
    }

    method BumpEpoch(repo: Repo)
      modifies this`epochs
      ensures epochs == old(epochs)[repo := old(EntryOf(repo)).epoch + 1]
    {
      epochs := epochs[repo := (if repo in epochs then epochs[repo] else 0) + 1];
    }

    method RetainStale(repo: Repo, shard: Option<Shard>)
      modifies this`stale
      ensures stale == if shard.Some? then old(stale)[repo := shard.value] else old(stale)
    {
      if shard.Some? {
        stale := stale[repo := shard.value];
      }
    }

    /** A stamp above every other. */
    method Stamp(repo: Repo)
      requires Valid()
      modifies this`touched, this`clock
      ensures Valid() && clock == old(clock) + 1 && touched == old(touched)[repo := clock]
    {
      clock := clock + 1;
      touched := touched[repo := clock];
    }

    /** A search makes the repository the most recently used. */
    method Touch(repo: Repo)
      requires Valid()
      modifies this`touched, this`clock
      ensures Valid()
      ensures repo in shards ==>
                touched == old(touched)[repo := clock] && forall r :: r in old(touched) ==> old(touched)[r] < clock
      ensures repo !in shards ==> touched == old(touched)
    {
      if repo in shards {
        Stamp(repo);
      }
    }

    method BeginFullUpdate(repo: Repo)
      requires Tracked()
      modifies this`shards, this`pendingIncremental, this`stale, this`mutatingRepos, this`epochs
      ensures Tracked()
      ensures Changed(old(State()), State(), repo, BegunFull(old(EntryOf(repo))))
    {
      BumpEpoch(repo);
      var before := EntryOf(repo);
      shards := shards - {repo};
      pendingIncremental := pendingIncremental - {repo};
      RetainStale(repo, OrElse(before.live, before.pending));
      mutatingRepos := mutatingRepos + {repo};
      RetiredEntries(old(State()), repo);
    }

    method BeginIncrementalUpdate(repo: Repo)
      requires Tracked()
      modifies this`shards, this`pendingIncremental, this`mutatingRepos, this`epochs
      ensures Tracked()
      ensures Changed(old(State()), State(), repo, BegunIncremental(old(EntryOf(repo))))
    {
      BumpEpoch(repo);
      pendingIncremental := pendingIncremental - {repo};
      if repo in shards {
        pendingIncremental := pendingIncremental[repo := shards[repo]];
        shards := shards - {repo};
      }
      mutatingRepos := mutatingRepos + {repo};
      HiddenEntries(old(State()), repo);
    }

    method AbortUpdateFailClosed(repo: Repo)
      requires Tracked()
      modifies this`shards, this`pendingIncremental, this`stale, this`mutatingRepos, this`epochs
      ensures Tracked()
      ensures Changed(old(State()), State(), repo, Aborted(old(EntryOf(repo))))
    {
      BumpEpoch(repo);
      var before := EntryOf(repo);
      shards := shards - {repo};
      pendingIncremental := pendingIncremental - {repo};
      RetainStale(repo, OrElse(before.live, before.pending));
      mutatingRepos := mutatingRepos + {repo};
      RetiredEntries(old(State()), repo);
    }

    method ResidentBytes() returns (bytes: nat)
      requires Valid()
      ensures bytes == Total(Sizes(shards), shards.Keys)
    {
      bytes := 0;
      var counted: set<Repo> := {};
      while counted != shards.Keys
        invariant counted <= shards.Keys && bytes == Total(Sizes(shards), counted)
        decreases shards.Keys - counted
      {
        var r :| r in shards && r !in counted;
        bytes := bytes + sizeOf(shards[r]);
        counted := counted + {r};
        TotalWithout(Sizes(shards), counted, r);
        assert counted - {r} + {r} == counted;
      }
    }

    /** The longest untouched of the live shards that may go. */
    method Victim(kept: set<Repo>) returns (victim: Option<Repo>)
      requires Valid()
      ensures victim.None? <==> shards.Keys <= kept
      ensures victim.Some? ==> IsOldest(victim.value, shards.Keys - kept, touched)
    {
      victim := None;
      var rest := shards.Keys - kept;
      while rest != {}
        invariant rest <= shards.Keys - kept
        invariant victim.None? <==> rest == shards.Keys - kept
        invariant victim.Some? ==> victim.value in shards.Keys - kept
                                   && forall r :: r in shards.Keys - kept - rest ==> touched[victim.value] <= touched[r]
        decreases rest
      {
        var r :| r in rest;
        if victim.None? || touched[r] < touched[victim.value] {
          victim := Some(r);
        }
        rest := rest - {r};
      }
      if victim.None? {
        forall r | r in shards ensures r in kept { assert r !in shards.Keys - kept; }
      }
    }

    /** Evicts the least recently touched shards outside `kept` until the cap holds. */
    method EvictToCap(kept: set<Repo>)
      requires Valid()
      modifies this`shards
      ensures Valid() && shards == WithinCap(old(shards), kept)
    {
      if capBytes == 0 {
        return;
      }
      ghost var all := shards;
      ghost var sizes := Sizes(all);
      var bytes := ResidentBytes();
      RestrictLess(all, all.Keys, "");
      while bytes > capBytes
        invariant shards == Restrict(all, shards.Keys) && shards.Keys <= all.Keys
        invariant bytes == Total(sizes, shards.Keys)
        invariant Survivors(sizes, shards.Keys, kept, touched, capBytes)
                  == Survivors(sizes, all.Keys, kept, touched, capBytes)
        decreases shards.Keys
      {
        var victim := Victim(kept);
        if victim.None? {
          break;
        }
        SurvivorsWithout(sizes, shards.Keys, kept, touched, capBytes, victim.value);
        RestrictLess(all, shards.Keys, victim.value);
        shards := shards - {victim.value};
        bytes := ResidentBytes();
        SameTotal(sizes, Sizes(shards), shards.Keys);
      }
    }

    method InstallShard(repo: Repo, rows: Rows, identity: string, active: set<Repo>)
      requires Valid()
      modifies this`shards, this`touched, this`clock
      ensures Valid()
      ensures Replaced(old(shards), shards, repo, NonEmpty(rows, identity))
      ensures rows == map[] ==> shards == old(shards) - {repo} && touched == old(touched)
      ensures rows != map[] ==> touched == old(touched)[repo := clock]
      ensures rows != map[] ==> shards == WithinCap(old(shards)[repo := Shard(rows, identity)], {repo} + active)
    {
      if rows == map[] {
        shards := shards - {repo};
      } else {
        Stamp(repo);
        shards := shards[repo := Shard(rows, identity)];
        EvictToCap({repo} + active);
      }
    }

    /** The epoch advances and nothing hidden of the repository is left. */
    method Retire(repo: Repo)
      modifies this`epochs, this`pendingIncremental, this`stale
      ensures epochs == old(epochs)[repo := old(EntryOf(repo)).epoch + 1]
      ensures pendingIncremental == old(pendingIncremental) - {repo} && stale == old(stale) - {repo}
    {
      BumpEpoch(repo);
      pendingIncremental := pendingIncremental - {repo};
      stale := stale - {repo};
    }

    method PublishFullUpdate(repo: Repo, rows: Rows, identity: string)
      requires Valid()
      modifies this
      ensures Valid() && EntryOf(repo) == PublishedFull(old(EntryOf(repo)), rows, identity)
      ensures OthersAtMostEvicted(old(State()), State(), repo)
      ensures if rows == map[] then shards == old(shards) - {repo}
              else shards == WithinCap(old(shards)[repo := Shard(rows, identity)], {repo})
    {
      Retire(repo);
      shards := shards - {repo};
      PutTwice(old(shards), repo, Shard(rows, identity), Shard(rows, identity));
      InstallShard(repo, rows, identity, {});
      assert {repo} + {} == {repo};
      mutatingRepos := mutatingRepos - {repo};
      OpenedEntries(old(State()), repo, shards, old(EntryOf(repo)).epoch + 1, NonEmpty(rows, identity));
    }

    /** Changes a resident shard in place; a cold repository only has its epoch bumped. */
    method Absorb(repo: Repo, removed: set<string>, added: Rows, identity: string, active: set<Repo>)
      requires Valid()
      modifies this`shards, this`epochs, this`touched, this`clock
      ensures Valid() && epochs == old(epochs)[repo := old(EntryOf(repo)).epoch + 1]
      ensures Replaced(old(shards), shards, repo, Applied(old(EntryOf(repo)), removed, added, identity).live)
      ensures if repo in shards then shards == WithinCap(old(shards)[repo := shards[repo]], {repo} + active)
              else shards == old(shards) - {repo}
    {
      BumpEpoch(repo);
      if repo in shards {
        InstallShard(repo, Delta(shards[repo].rows, removed, added), identity, active);
      }
    }

    method ApplyIncremental(repo: Repo, removed: set<string>, added: Rows, identity: string, active: set<Repo>)
      requires Valid()
      modifies this`shards, this`epochs, this`touched, this`clock
      ensures Valid() && EntryOf(repo) == Applied(old(EntryOf(repo)), removed, added, identity)
      ensures OthersAtMostEvicted(old(State()), State(), repo)
      ensures old(repo !in shards) ==> repo !in shards
      ensures old(repo in shards) ==>
                Carries(if repo in shards then Some(shards[repo]) else None,
                        old(shards)[repo].rows, removed, added, identity)
      ensures if repo in shards then shards == WithinCap(old(shards)[repo := shards[repo]], {repo} + active)
              else shards == old(shards) - {repo}
    {
      ghost var after := Applied(EntryOf(repo), removed, added, identity);
      Absorb(repo, removed, added, identity, active);
      AppliedEntries(old(State()), repo, shards, after.epoch, after.live);
      if old(repo in shards) { DeltaCarries(old(shards)[repo].rows, removed, added, identity); }
    }

    /** The retained shard comes back, changed by the delta. */
    method Restore(repo: Repo, removed: set<string>, added: Rows, identity: string)
      requires Valid() && repo in pendingIncremental
      modifies this`shards, this`pendingIncremental, this`epochs, this`touched, this`clock
      ensures Valid() && epochs == old(epochs)[repo := old(EntryOf(repo)).epoch + 1]
      ensures pendingIncremental == old(pendingIncremental) - {repo}
      ensures Replaced(old(shards), shards, repo,
                       NonEmpty(Delta(old(pendingIncremental)[repo].rows, removed, added), identity))
      ensures repo in shards ==> shards == WithinCap(old(shards)[repo := shards[repo]], {repo})
    {
      shards := shards[repo := pendingIncremental[repo]];
      pendingIncremental := pendingIncremental - {repo};
      Absorb(repo, removed, added, identity, {});
      assert {repo} + {} == {repo};
      ghost var hidden := old(pendingIncremental)[repo];
      ReplacedPut(old(shards), shards, repo, hidden, NonEmpty(Delta(hidden.rows, removed, added), identity));
    }

    /** The last of an incremental publish: the epoch advances and the fence comes down. */
    method OpenFence(repo: Repo)
      modifies this`stale, this`epochs, this`mutatingRepos
      ensures stale == old(stale) - {repo} && mutatingRepos == old(mutatingRepos) - {repo}
      ensures epochs == old(epochs)[repo := old(EntryOf(repo)).epoch + 1]
    {
      stale := stale - {repo};
      BumpEpoch(repo);
      mutatingRepos := mutatingRepos - {repo};
    }

    method PublishIncrementalUpdate(repo: Repo, removed: set<string>, added: Rows, identity: string)
      requires Valid()
      modifies this
      ensures Valid() && EntryOf(repo) == PublishedIncremental(old(EntryOf(repo)), removed, added, identity)
      ensures OthersAtMostEvicted(old(State()), State(), repo)
      ensures old(repo !in pendingIncremental) ==> shards == old(shards)
      ensures old(repo in pendingIncremental) ==>
                Carries(if repo in shards then Some(shards[repo]) else None,
                        old(pendingIncremental)[repo].rows, removed, added, identity)
      ensures old(repo in pendingIncremental) && repo in shards
              ==> shards == WithinCap(old(shards)[repo := shards[repo]], {repo})
    {
      ghost var after := PublishedIncremental(EntryOf(repo), removed, added, identity);
      if repo in pendingIncremental {
        Restore(repo, removed, added, identity);
      }
      OpenFence(repo);
      PutTwice(old(epochs), repo, after.epoch - 1, after.epoch);
      OpenedEntries(old(State()), repo, shards, after.epoch, after.live);
      if old(repo in pendingIncremental) { DeltaCarries(old(pendingIncremental)[repo].rows, removed, added, identity); }
    }

    method InstallShardIfNotMutating(repo: Repo, shard: Shard, active: set<Repo>, scanEpoch: nat)
      returns (installed: bool)
      requires Valid()
      modifies this
      ensures Valid() && installed == Installable(old(EntryOf(repo)), scanEpoch)
      ensures installed <==>
                repo !in old(mutatingRepos) && scanEpoch == if repo in old(epochs) then old(epochs)[repo] else 0
      ensures EntryOf(repo) == Installed(old(EntryOf(repo)), shard, scanEpoch)
      ensures OthersAtMostEvicted(old(State()), State(), repo)
      ensures !installed ==> shards == old(shards)
      ensures installed && shard.rows != map[] ==> shards == WithinCap(old(shards)[repo := shard], {repo} + active)
    {
      var current := if repo in epochs then epochs[repo] else 0;
      if repo in mutatingRepos || current != scanEpoch {
        return false;
      }
      InstallShard(repo, shard.rows, shard.identity, active);
      assert Shard(shard.rows, shard.identity) == shard;
      InstalledEntries(old(State()), repo, shards, NonEmpty(shard.rows, shard.identity));
      installed := true;
    }

    /** Takes the rows inside `repo` out of every live shard. */
    method StripInside(repo: Repo)
      modifies this`shards
      ensures shards == Strip(old(shards), repo)
    {
      ghost var before := shards;
      var rest := shards.Keys;
      while rest != {}
        invariant rest <= shards.Keys == before.Keys
        invariant forall r :: r in shards ==>
                    shards[r] == if r in rest then before[r]
                                 else Shard(Outside(before[r].rows, repo), before[r].identity)
        decreases rest
      {
        var r :| r in rest;
        shards := shards[r := Shard(Outside(shards[r].rows, repo), shards[r].identity)];
        rest := rest - {r};
      }
    }

    /** A removed repository also takes the rows that lie inside it out of every other live shard. */
    method RemoveRepo(repo: Repo)
      requires Tracked()
      modifies this`shards, this`pendingIncremental, this`stale
      ensures Tracked() && EntryOf(repo) == Removed(old(EntryOf(repo)))
      ensures forall r :: r != repo ==> EntryOf(r) == Stripped(old(EntryOf(r)), repo)
    {
      shards := shards - {repo};
      pendingIncremental := pendingIncremental - {repo};
      stale := stale - {repo};
      StripInside(repo);
      ClearedEntries(old(State()), repo);
    }
  }
}
