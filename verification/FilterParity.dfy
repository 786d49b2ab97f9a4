/**
 The agreement theorems: the per-path filter against the walk, the watcher's early drop, and the
 subtree walk (`src/indexing/walker.rs`, `src/indexing/watcher.rs`).
 */
module FilterParity {
  import opened Options
  import opened IgnoreRules
  import opened ChangeFilter
  import opened Walker
  import opened Sequences

  /** The repository root itself contains `.git`. */
  predicate RootIsGit(root: Node) {
    root.Dir? && root.ignores.hasGit
  }

  /** The two decisions part exactly where no `.git` governs the candidate and only a `.gitignore`
      speaks, and then it is the filter that ignores. */
  lemma DecisionsPartExactly(stack: seq<DirIgnores>, c: Path, isDir: bool)
    requires |stack| == |c|
    ensures Ignored(stack, c, isDir, true) ==> Ignored(stack, c, isDir, false)
    ensures Ignored(stack, c, isDir, false) && !Ignored(stack, c, isDir, true)
            <==> && !AnyGit(stack)
                 && Nearest(stack, Custom, c, isDir, |c|) == NoMatch
                 && Nearest(stack, Plain, c, isDir, |c|) == NoMatch
                 && NearestGit(stack, c, isDir, |c|) == Ignore
  {
  }

  lemma RootGitGoverns(root: Node, c: Path, isDir: bool)
    requires RootIsGit(root) && c != []
    ensures FilterIgnored(root, c, isDir) == WalkIgnored(root, c, isDir)
  {
    assert c[..0] == [];
    assert StackOf(root, c)[0].hasGit;
  }

  /** The filter never admits a file the walk leaves out, with or without a `.git`. */
  lemma FilterAdmitsOnlyWalked(root: Node, rootName: string, cfg: Config, p: Path)
    requires p != [] && Lookup(root, p) == Some(File)
    requires Allows(root, rootName, cfg, Inside(p), false)
    ensures Walked(root, cfg, p)
  {
    forall k: nat | 0 < k <= |p| ensures Passes(root, p, k) {
      DecisionsPartExactly(StackOf(root, p[..k]), p[..k], k < |p|);
      if k == |p| { assert p[..k] == p; }
    }
    assert p[0..] == p;
  }

  lemma WalkedIsNotGitignored(root: Node, p: Path)
    requires RootIsGit(root) && p != [] && InWalk(root, [], p)
    ensures !IsGitignored(root, Inside(p), false)
  {
    forall k | 0 < k <= |p| ensures !FilterIgnored(root, p[..k], k < |p|) {
      assert Passes(root, p, k);
      RootGitGoverns(root, p[..k], k < |p|);
      if k == |p| { assert p[..k] == p; }
    }
    assert p[..|p|] == p;
  }

  lemma WalkedIsNotPruned(root: Node, p: Path)
    requires p != [] && InWalk(root, [], p)
    ensures !UnderPrunedDir(p)
  {
    forall i | 0 <= i < |p| - 1 ensures !Pruned(p[i]) {
      PassedIsNotPruned(root, p, i + 1);
    }
  }

  lemma PassedIsNotPruned(root: Node, p: Path, k: nat)
    requires InWalk(root, [], p) && 0 < k < |p|
    ensures !Pruned(p[k - 1])
  {
    assert Passes(root, p, k);
  }

  /** With a `.git` at the root, the filter turns no walked file away. */
  lemma FilterAdmitsEveryWalked(root: Node, rootName: string, cfg: Config, p: Path)
    requires RootIsGit(root) && p != [] && Lookup(root, p) == Some(File)
    requires Walked(root, cfg, p)
    ensures Allows(root, rootName, cfg, Inside(p), false)
  {
    WalkedIsNotGitignored(root, p);
    WalkedIsNotPruned(root, p);
    assert p[0..] == p;
  }

  /** In a repository whose root holds `.git`, the memo-free filter admits exactly the walked files. */
  lemma FilterEqualsWalk(root: Node, rootName: string, cfg: Config, p: Path)
    requires RootIsGit(root) && p != [] && Lookup(root, p) == Some(File)
    ensures Allows(root, rootName, cfg, Inside(p), false) <==> Walked(root, cfg, p)
  {
    if Allows(root, rootName, cfg, Inside(p), false) {
      FilterAdmitsOnlyWalked(root, rootName, cfg, p);
    }
    if Walked(root, cfg, p) {
      FilterAdmitsEveryWalked(root, rootName, cfg, p);
    }
  }

  /** A `.gitignore` that no `.git` governs is the only voice on component `k` of `p`, and says ignore. */
  predicate UngovernedGitignore(root: Node, p: Path, k: nat)
    requires 1 <= k <= |p|
  {
    var c, stack := p[..k], StackOf(root, p[..k]);
    && !AnyGit(stack)
    && Nearest(stack, Custom, c, k < |p|, k) == NoMatch
    && Nearest(stack, Plain, c, k < |p|, k) == NoMatch
    && NearestGit(stack, c, k < |p|, k) == Ignore
  }

  lemma WalkedComponent(root: Node, p: Path, k: nat)
    requires InWalk(root, [], p) && 1 <= k <= |p|
    ensures k < |p| ==> !Pruned(p[k - 1])
    ensures FilterIgnored(root, p[..k], k < |p|) <==> UngovernedGitignore(root, p, k)
  {
    assert Passes(root, p, k);
    assert p[..|p|] == p;
    DecisionsPartExactly(StackOf(root, p[..k]), p[..k], k < |p|);
  }

  lemma TakeTake<T>(s: seq<T>, n: nat, k: nat)
    requires k <= n <= |s|
    ensures s[..n][..k] == s[..k]
  {
  }

  /** On the way to a walked file, ignore files exclude its first `n` components exactly when an
      ungoverned `.gitignore` does. */
  lemma GitignoredOnTheWay(root: Node, p: Path, n: nat)
    requires InWalk(root, [], p) && 1 <= n <= |p|
    ensures IsGitignored(root, Inside(p[..n]), n < |p|) <==> exists k :: 1 <= k <= n && UngovernedGitignore(root, p, k)
  {
    var c := p[..n];
    assert c[..n] == c;
    if IsGitignored(root, Inside(c), n < |p|) {
      var k :| 1 <= k <= n && FilterIgnored(root, c[..k], k < n || n < |p|);
      TakeTake(p, n, k);
      WalkedComponent(root, p, k);
    }
    if exists k :: 1 <= k <= n && UngovernedGitignore(root, p, k) {
      var k :| 1 <= k <= n && UngovernedGitignore(root, p, k);
      TakeTake(p, n, k);
      WalkedComponent(root, p, k);
      assert FilterIgnored(root, c[..k], k < |p|);
    }
  }

  /** On any tree, the walked files the filter turns away are exactly those with such a component. */
  lemma WalkedButTurnedAway(root: Node, rootName: string, cfg: Config, p: Path)
    requires Walked(root, cfg, p)
    ensures !Allows(root, rootName, cfg, Inside(p), false)
            <==> exists k :: 1 <= k <= |p| && UngovernedGitignore(root, p, k)
  {
    assert p[..|p|] == p && p[0..] == p;
    GitignoredOnTheWay(root, p, |p|);
    WalkedIsNotPruned(root, p);
  }

  /** No resurrection: below an ignored or pruned directory nothing is walked, whatever deeper
      ignore files say. */
  lemma NothingBelowABlockedDirectory(root: Node, cfg: Config, dir: Path, p: Path)
    requires dir != [] && dir < p
    requires Pruned(dir[|dir| - 1]) || WalkIgnored(root, dir, true)
    ensures !Walked(root, cfg, p)
  {
    assert p[..|dir|] == dir && p[|dir| - 1] == dir[|dir| - 1];
    assert !Passes(root, p, |dir|);
  }

  /** Where the filter says no indexed file can live, the walk returns none below. */
  lemma NothingBelowAnExcludedDirectory(root: Node, filterCfg: Config, cfg: Config, dir: Path, p: Path)
    requires RootIsGit(root) && filterCfg.ignorePaths == {}
    requires !CouldContainIndexed(root, filterCfg, Inside(dir)) && dir <= p && dir != p
    ensures !Walked(root, cfg, p)
  {
    if UnderPrunedDir(dir + ["_"]) {
      var i :| 0 <= i < |dir| && Pruned((dir + ["_"])[i]);
      assert p[i] == dir[i];
      assert !Passes(root, p, i + 1);
    } else {
      var k :| 1 <= k <= |dir| && FilterIgnored(root, dir[..k], true) by {
        assert dir[..|dir|] == dir;
      }
      assert p[..k] == dir[..k];
      RootGitGoverns(root, p[..k], true);
      assert !Passes(root, p, k);
    }
  }

  /** Sound early drop: a path the watcher discards, and everything below it, is not in the walk,
      whatever the extensions, ignored file names and ignored paths of the repository. */
  lemma EarlyDropIsSound(root: Node, filterCfg: Config, cfg: Config, t: Target, p: Path)
    requires RootIsGit(root) && filterCfg.ignorePaths == {}
    requires !MayAffectIndex(root, filterCfg, t)
    requires t.rel <= p
    ensures !Walked(root, cfg, p)
  {
    var rel := t.rel;
    var parent := rel[..|rel| - 1];
    if !CouldContainIndexed(root, filterCfg, Inside(parent)) {
      NothingBelowAnExcludedDirectory(root, filterCfg, cfg, parent, p);
    } else if rel[|rel| - 1] in SKIP_DIRS {
      if p == rel {
        SkipNameIsNotIndexable(p[|p| - 1], cfg.extensions);
      } else {
        assert p[|rel| - 1] == rel[|rel| - 1];
        assert !Passes(root, p, |rel|);
      }
    } else if p != rel {
      NothingBelowAnExcludedDirectory(root, filterCfg, cfg, rel, p);
    }
  }

  /** Above a walked file the filter excludes a directory exactly when an ungoverned `.gitignore` does. */
  lemma DirectoryOfWalked(root: Node, filterCfg: Config, p: Path, n: nat)
    requires InWalk(root, [], p) && n < |p| && filterCfg.ignorePaths == {}
    ensures !CouldContainIndexed(root, filterCfg, Inside(p[..n]))
            <==> exists k :: 1 <= k <= n && UngovernedGitignore(root, p, k)
  {
    forall i | 0 <= i < n ensures !Pruned((p[..n] + ["_"])[i]) { WalkedComponent(root, p, i + 1); }
    if n > 0 { GitignoredOnTheWay(root, p, n); }
  }

  lemma AboveAFileIsADirectory(root: Node, rel: Path, p: Path)
    requires Lookup(root, p) == Some(File) && rel <= p && rel != p
    ensures IsDir(root, Inside(rel))
  {
    if Lookup(root, rel).None? {
      MissingBelow(root, rel, p);
    } else {
      LookupBelow(root, rel, p[|rel|..]);
      assert rel + p[|rel|..] == p;
    }
  }

  /** On any tree, the watcher drops an event at or above a walked file exactly when an ungoverned
      `.gitignore` names a directory at or above the event. */
  lemma EarlyDropLosesAWalkedFileExactly(root: Node, filterCfg: Config, cfg: Config, rel: Path, p: Path)
    requires filterCfg.ignorePaths == {} && rel != [] && rel <= p && Walked(root, cfg, p)
    ensures !MayAffectIndex(root, filterCfg, Inside(rel))
            <==> exists k :: 1 <= k <= |rel| && k < |p| && UngovernedGitignore(root, p, k)
  {
    var n := |rel|;
    assert p[..n] == rel;
    TakeTake(p, n, n - 1);
    DirectoryOfWalked(root, filterCfg, p, n - 1);
    if n < |p| {
      WalkedComponent(root, p, n);
      AboveAFileIsADirectory(root, rel, p);
      DirectoryOfWalked(root, filterCfg, p, n);
    } else {
      assert p[..n] == p;
      if rel[n - 1] in SKIP_DIRS { SkipNameIsNotIndexable(p[n - 1], cfg.extensions); }
    }
  }

  /** The matcher of a one-line ignore file naming `name` in its own directory. */
  function Naming(name: string): Matcher {
    (below: Path, isDir: bool) => if below == [name] then Ignore else NoMatch
  }

  // A tree without `.git`: `gen/a.rs`, and a `.gitignore` at the root naming `gen`.

  function BareIgnores(): DirIgnores {
    NO_IGNORES.(git := Naming("gen"))
  }

  function BareGen(): Node {
    Dir(NO_IGNORES, [Entry("a.rs", File)])
  }

  function BareTree(): Node {
    Dir(BareIgnores(), [Entry("gen", BareGen())])
  }

  const GEN: Path := ["gen"]
  const GEN_FILE: Path := ["gen", "a.rs"]

  lemma BareLookups()
    ensures WellFormed(BareTree())
    ensures Lookup(BareTree(), []) == Some(BareTree())
    ensures Lookup(BareTree(), GEN) == Some(BareGen())
    ensures Lookup(BareTree(), GEN_FILE) == Some(File)
  {
    assert WellFormed(File) && WellFormed(BareGen());
    assert GEN[1..] == [] && GEN_FILE[1..] == ["a.rs"] && ["a.rs"][1..] == [];
    assert Lookup(BareGen(), ["a.rs"]) == Some(File);
  }

  lemma BareStacks()
    ensures StackOf(BareTree(), GEN) == [BareIgnores()]
    ensures StackOf(BareTree(), GEN_FILE) == [BareIgnores(), NO_IGNORES]
  {
    BareLookups();
    assert GEN[..0] == [] && GEN_FILE[..0] == [] && GEN_FILE[..1] == GEN;
  }

  lemma BareDirectoryVerdicts()
    ensures FilterIgnored(BareTree(), GEN, true) && !WalkIgnored(BareTree(), GEN, true)
  {
    BareStacks();
    var stack := [BareIgnores()];
    assert GEN[0..] == GEN;
    assert NearestGit(stack, GEN, true, 1) == Ignore;
    assert !AnyGit(stack);
    assert Nearest(stack, Custom, GEN, true, 1) == NoMatch;
    assert Nearest(stack, Plain, GEN, true, 1) == NoMatch;
  }

  lemma BareFileVerdict()
    ensures !WalkIgnored(BareTree(), GEN_FILE, false)
  {
    BareStacks();
    var stack := [BareIgnores(), NO_IGNORES];
    assert !AnyGit(stack);
    assert Nearest(stack, Custom, GEN_FILE, false, 1) == NoMatch;
    assert Nearest(stack, Custom, GEN_FILE, false, 2) == NoMatch;
    assert Nearest(stack, Plain, GEN_FILE, false, 1) == NoMatch;
    assert Nearest(stack, Plain, GEN_FILE, false, 2) == NoMatch;
  }

  lemma RustFileIsIndexable()
    ensures HasIndexableExtension("a.rs", {"rs"})
  {
    assert "a.rs"[..3] == "a.r" && "a.r"[..2] == "a." && "a.rs"[2..] == "rs";
    assert LastDot("a.") == 1;
    assert LastDot("a.r") == 1;
    assert LastDot("a.rs") == 1;
    assert Lower("rs") == "rs";
  }

  lemma BareFilePasses()
    ensures Passes(BareTree(), GEN_FILE, 1) && Passes(BareTree(), GEN_FILE, 2)
  {
    BareDirectoryVerdicts();
    BareFileVerdict();
    assert GEN_FILE[..1] == GEN;
  }

  lemma BareFileIsKept()
    ensures Kept(Config({"rs"}, {}, {}), [], GEN_FILE)
  {
    RustFileIsIndexable();
  }

  lemma BareFileIsWalked()
    ensures Walked(BareTree(), Config({"rs"}, {}, {}), GEN_FILE)
  {
    BareLookups();
    BareFilePasses();
    BareFileIsKept();
    forall k | 0 < k <= |GEN_FILE| ensures Passes(BareTree(), GEN_FILE, k) {
      assert k == 1 || k == 2;
    }
  }

  /** Without a `.git` the walk disregards `.gitignore` while the filter honours it: parity and the
      early drop both fail on this tree. */
  lemma WithoutGitTheFilterDropsWalkedFiles() returns (root: Node, cfg: Config, p: Path, t: Target)
    ensures root.Dir? && WellFormed(root) && !RootIsGit(root)
    ensures Walked(root, cfg, p) && !Allows(root, "r", cfg, Inside(p), false)
    ensures t.Inside? && t.rel < p && cfg.ignorePaths == {} && !MayAffectIndex(root, cfg, t)
  {
    root, cfg, p, t := BareTree(), Config({"rs"}, {}, {}), GEN_FILE, Inside(GEN);
    BareLookups();
    BareDirectoryVerdicts();
    BareFileIsWalked();
    assert GEN_FILE[..1] == GEN;
    assert IsGitignored(root, Inside(p), false);
    assert IsGitignored(root, t, true);
    assert IsDir(root, t);
  }

  // ---------------------------------------------------------------------------------------
  // The subtree walk
  // ---------------------------------------------------------------------------------------

  method RetainAllowed(filter: Filter, found: seq<Path>) returns (files: seq<Path>)
    requires filter.Valid()
    modifies filter
    ensures filter.Valid()
    ensures forall p :: p in files <==>
              p in found && Allows(filter.root, filter.rootName, filter.cfg, Inside(p), false)
  {
    files := [];
    for i := 0 to |found|
      invariant filter.Valid()
      invariant forall p :: p in files <==>
                  p in found[..i] && Allows(filter.root, filter.rootName, filter.cfg, Inside(p), false)
    {
      var allowed := filter.AllowsAs(Inside(found[i]), false);
      TakeOneMore(found, i);
      if allowed {
        files := files + [found[i]];
      }
    }
    assert found[..|found|] == found;
  }

  /** Walks `dir` alone and re-applies the repository-wide rules to what it finds. */
  method WalkSubtree(root: Node, rootName: string, dir: Path, cfg: Config) returns (files: seq<Path>)
    requires WellFormed(root) && dir != []
    requires Lookup(root, dir).Some? ==> Lookup(root, dir).value.Dir?
    ensures CouldContainIndexed(root, cfg, Inside(dir)) ==>
              forall p :: p in files <==>
                (InWalk(root, dir, p) && Kept(cfg.(ignorePaths := {}), dir, p)
                 && Allows(root, rootName, cfg, Inside(p), false))
    ensures !CouldContainIndexed(root, cfg, Inside(dir)) ==> files == []
    // In a git repository: exactly the files of the full walk below `dir`.
    ensures RootIsGit(root) && dir !in cfg.ignorePaths ==>
              forall p :: p in files <==> Walked(root, cfg, p) && dir <= p && dir != p
  {
    files := [];
    var filter := new Filter(root, rootName, cfg);
    var could := filter.CouldContainIndexedQuery(Inside(dir));
    if could {
      var found := WalkFrom(root, dir, cfg.(ignorePaths := {}));
      files := RetainAllowed(filter, found);
      if Lookup(root, dir).None? {
        forall p ensures !InWalk(root, dir, p) { NothingUnderMissing(root, dir, p); }
      }
    }
    SubtreeIsExact(root, rootName, cfg, dir, files);
  }

  lemma SubtreeIsExact(root: Node, rootName: string, cfg: Config, dir: Path, files: seq<Path>)
    requires dir != []
    requires CouldContainIndexed(root, cfg, Inside(dir)) ==>
               forall p :: p in files <==>
                 (InWalk(root, dir, p) && Kept(cfg.(ignorePaths := {}), dir, p)
                  && Allows(root, rootName, cfg, Inside(p), false))
    requires !CouldContainIndexed(root, cfg, Inside(dir)) ==> files == []
    ensures RootIsGit(root) && dir !in cfg.ignorePaths ==>
              forall p :: p in files <==> Walked(root, cfg, p) && dir <= p && dir != p
  {
    if RootIsGit(root) && dir !in cfg.ignorePaths {
      forall p ensures p in files <==> Walked(root, cfg, p) && dir <= p && dir != p {
        SubtreeIsRestriction(root, rootName, cfg, dir, p);
      }
    }
  }

  lemma NothingUnderMissing(root: Node, dir: Path, p: Path)
    requires Lookup(root, dir).None?
    ensures !InWalk(root, dir, p)
  {
    if dir <= p { MissingBelow(root, dir, p); }
  }

  lemma {:induction false} MissingBelow(node: Node, dir: Path, p: Path)
    requires Lookup(node, dir).None? && dir <= p
    ensures Lookup(node, p).None?
    decreases |dir|
  {
    if node.Dir? && FindChild(node.children, dir[0]).Some? {
      MissingBelow(FindChild(node.children, dir[0]).value, dir[1..], p[1..]);
    }
  }

  /** The inner walk plus the filter is the full walk restricted to `dir`. */
  lemma SubtreeIsRestriction(root: Node, rootName: string, cfg: Config, dir: Path, p: Path)
    requires RootIsGit(root) && dir != [] && dir !in cfg.ignorePaths
    ensures CouldContainIndexed(root, cfg, Inside(dir))
            && InWalk(root, dir, p) && Kept(cfg.(ignorePaths := {}), dir, p)
            && Allows(root, rootName, cfg, Inside(p), false)
            <==> Walked(root, cfg, p) && dir <= p && dir != p
  {
    if Walked(root, cfg, p) && dir <= p && dir != p {
      FilterEqualsWalk(root, rootName, cfg, p);
      if !CouldContainIndexed(root, cfg, Inside(dir)) {
        NothingBelowAnExcludedDirectory(root, cfg.(ignorePaths := {}), cfg, dir, p);
      }
    } else if InWalk(root, dir, p) && Allows(root, rootName, cfg, Inside(p), false) {
      FilterEqualsWalk(root, rootName, cfg, p);
    }
  }
}
