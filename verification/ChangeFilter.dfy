/**
 The memoised per-path filter of the watcher and of incremental runs
 (`src/indexing/walker.rs`: `ChangeFilter`; `src/indexing/watcher.rs`: `may_affect_index`).

 The functions are the memo-free answers on a fixed tree (a filter is built per batch); the class
 keeps the source's two memo tables and is proved to give the same answers in any query order.
 */
module ChangeFilter {
  import opened Options
  import opened IgnoreRules

  /** A queried path: below (or equal to) the repository root, or somewhere else. */
  datatype Target = Inside(rel: Path) | Outside(name: string)

  function FileName(t: Target, rootName: string): string {
    match t
    case Inside(rel) => if rel == [] then rootName else rel[|rel| - 1]
    case Outside(name) => name
  }

  /** Excluded by an ignore file, itself or through an ancestor directory. */
  ghost predicate IsGitignored(root: Node, t: Target, isDir: bool) {
    && t.Inside?
    && t.rel != []
    && ((exists k :: 1 <= k < |t.rel| && FilterIgnored(root, t.rel[..k], true)) || FilterIgnored(root, t.rel, isDir))
  }

  ghost predicate Allows(root: Node, rootName: string, cfg: Config, t: Target, isDir: bool) {
    && HasIndexableExtension(FileName(t, rootName), cfg.extensions)
    && !(t.Inside? && UnderPrunedDir(t.rel))
    && FileName(t, rootName) !in cfg.ignoreFilenames
    && !(t.Inside? && t.rel in cfg.ignorePaths)
    && !IsGitignored(root, t, isDir)
  }

  ghost predicate CouldContainIndexed(root: Node, cfg: Config, t: Target) {
    && !(t.Inside? && UnderPrunedDir(t.rel + ["_"]))
    && !(t.Inside? && t.rel in cfg.ignorePaths)
    && !IsGitignored(root, t, true)
  }

  predicate IsDir(root: Node, t: Target) {
    t.Inside? && Lookup(root, t.rel).Some? && Lookup(root, t.rel).value.Dir?
  }

  ghost predicate MayAffectIndex(root: Node, cfg: Config, t: Target) {
    || t.Outside?
    || t.rel == []
    || (&& CouldContainIndexed(root, cfg, Inside(t.rel[..|t.rel| - 1]))
        && t.rel[|t.rel| - 1] !in SKIP_DIRS
        && !(IsDir(root, t) && !CouldContainIndexed(root, cfg, t)))
  }

  // ---------------------------------------------------------------------------------------
  // The answers, from the names and the ignore files' matchers
  // ---------------------------------------------------------------------------------------

  /** An ignore file excludes the path or one of the directories on the way to it. */
  ghost predicate ShutOut(root: Node, rel: Path, isDir: bool) {
    exists k :: 1 <= k <= |rel| && Excluded(root, rel[..k], k < |rel| || isDir, false)
  }

  /** None of the first `n` names starts with a dot or is one of the skipped ones. */
  predicate PlainNames(rel: Path, n: nat)
    requires n <= |rel|
  {
    forall i :: 0 <= i < n ==> !("." <= rel[i]) && rel[i] !in SKIP_DIRS
  }

  /** A directory in which indexed files can lie. */
  ghost predicate Habitable(root: Node, cfg: Config, rel: Path) {
    PlainNames(rel, |rel|) && rel !in cfg.ignorePaths && !ShutOut(root, rel, true)
  }

  lemma GitignoredIsShutOut(root: Node, rel: Path, isDir: bool)
    ensures IsGitignored(root, Inside(rel), isDir) <==> ShutOut(root, rel, isDir)
  {
    forall k | 1 <= k <= |rel|
      ensures FilterIgnored(root, rel[..k], k < |rel| || isDir) <==> Excluded(root, rel[..k], k < |rel| || isDir, false)
    {
      IgnoredIsExcluded(root, rel[..k], k < |rel| || isDir, false);
    }
    assert rel[..|rel|] == rel;
  }

  lemma PrunedIsNotPlain(rel: Path)
    requires rel != []
    ensures UnderPrunedDir(rel) <==> !PlainNames(rel, |rel| - 1)
  {
  }

  /** A child's parents are the directory and its own parents. */
  lemma ProbeNames(rel: Path)
    ensures UnderPrunedDir(rel + ["_"]) <==> !PlainNames(rel, |rel|)
  {
    var probe := rel + ["_"];
    if UnderPrunedDir(probe) {
      var i :| 0 <= i < |probe| - 1 && Pruned(probe[i]);
      assert probe[i] == rel[i];
    }
    if !PlainNames(rel, |rel|) {
      var i :| 0 <= i < |rel| && !(!("." <= rel[i]) && rel[i] !in SKIP_DIRS);
      assert probe[i] == rel[i] && Pruned(probe[i]);
    }
  }

  lemma AllowsIs(root: Node, rootName: string, cfg: Config, rel: Path, isDir: bool)
    requires rel != []
    ensures Allows(root, rootName, cfg, Inside(rel), isDir)
            <==> && HasIndexableExtension(rel[|rel| - 1], cfg.extensions) && PlainNames(rel, |rel| - 1)
                 && rel[|rel| - 1] !in cfg.ignoreFilenames && rel !in cfg.ignorePaths
                 && !ShutOut(root, rel, isDir)
  {
    GitignoredIsShutOut(root, rel, isDir);
    PrunedIsNotPlain(rel);
  }

  lemma CouldContainIs(root: Node, cfg: Config, rel: Path)
    ensures CouldContainIndexed(root, cfg, Inside(rel)) <==> Habitable(root, cfg, rel)
  {
    GitignoredIsShutOut(root, rel, true);
    ProbeNames(rel);
  }

  class Filter {
    const root: Node
    const rootName: string
    const cfg: Config
    var dirIgnores: map<Path, DirIgnores>
    var dirIgnored: map<Path, bool>

    constructor (root: Node, rootName: string, cfg: Config)
      ensures Valid() && this.root == root && this.rootName == rootName && this.cfg == cfg
    {
      this.root, this.rootName, this.cfg := root, rootName, cfg;
      dirIgnores, dirIgnored := map[], map[];
    }

    /** Every memo entry is the memo-free answer. */
    ghost predicate Valid()
      reads this
    {
      && (forall d :: d in dirIgnores ==> dirIgnores[d] == IgnoresAt(root, d))
      && (forall d :: d in dirIgnored ==> (dirIgnored[d] <==> FilterIgnored(root, d, true)))
    }

    method IgnoresOf(dir: Path) returns (ig: DirIgnores)
      requires Valid()
      modifies this`dirIgnores
      ensures Valid()
      ensures ig == IgnoresAt(root, dir)
    {
      if dir in dirIgnores {
        return dirIgnores[dir];
      }
      ig := IgnoresAt(root, dir);
      dirIgnores := dirIgnores[dir := ig];
    }

    /** Walks the ancestors closest-first, keeping the first match of each layer. */
    method IsIgnoredByFiles(candidate: Path, isDir: bool) returns (ignored: bool)
      requires Valid()
      modifies this`dirIgnores
      ensures Valid()
      ensures ignored == FilterIgnored(root, candidate, isDir)
      ensures ignored == Excluded(root, candidate, isDir, false)
    {
      ghost var stack := StackOf(root, candidate);
      var custom, ignore, git := NoMatch, NoMatch, NoMatch;
      var sawGit := false;
      var k := |candidate|;
      while k > 0
        invariant 0 <= k <= |candidate|
        invariant Valid()
        invariant Nearest(stack, Custom, candidate, isDir, |candidate|)
                  == if custom != NoMatch then custom else Nearest(stack, Custom, candidate, isDir, k)
        invariant Nearest(stack, Plain, candidate, isDir, |candidate|)
                  == if ignore != NoMatch then ignore else Nearest(stack, Plain, candidate, isDir, k)
        invariant NearestGit(stack, candidate, isDir, |candidate|)
                  == if git != NoMatch then git
                     else if sawGit then NoMatch
                     else NearestGit(stack, candidate, isDir, k)
      {
        var ig := IgnoresOf(candidate[..k - 1]);
        assert ig == stack[k - 1];
        var below := candidate[k - 1..];
        if custom == NoMatch {
          custom := ig.custom(below, isDir);
        }
        if ignore == NoMatch {
          ignore := ig.ignore(below, isDir);
        }
        if !sawGit && git == NoMatch {
          git := ig.git(below, isDir);
        }
        sawGit := sawGit || ig.hasGit;
        k := k - 1;
      }
      var decisive := if custom != NoMatch then custom else if ignore != NoMatch then ignore else git;
      ignored := decisive == Ignore;
      IgnoredIsExcluded(root, candidate, isDir, false);
    }

    method IsGitignoredQuery(t: Target, isDir: bool) returns (ignored: bool)
      requires Valid()
      modifies this
      ensures Valid()
      ensures ignored == IsGitignored(root, t, isDir)
    {
      if t.Outside? || t.rel == [] {
        return false;
      }
      var k := 1;
      while k < |t.rel|
        invariant 1 <= k <= |t.rel|
        invariant Valid()
        invariant forall j :: 1 <= j < k ==> !FilterIgnored(root, t.rel[..j], true)
      {
        var dir := t.rel[..k];
        var verdict: bool;
        if dir in dirIgnored {
          verdict := dirIgnored[dir];
        } else {
          verdict := IsIgnoredByFiles(dir, true);
          dirIgnored := dirIgnored[dir := verdict];
        }
        if verdict {
          return true;
        }
        k := k + 1;
      }
      ignored := IsIgnoredByFiles(t.rel, isDir);
    }

    /** The verdict for any path, whatever was asked before. */
    method AllowsAs(t: Target, isDir: bool) returns (allowed: bool)
      requires Valid()
      modifies this
      ensures Valid()
      ensures allowed == Allows(root, rootName, cfg, t, isDir)
      ensures t.Inside? && t.rel != [] ==>
                (allowed <==> var name := t.rel[|t.rel| - 1];
                              && HasIndexableExtension(name, cfg.extensions) && PlainNames(t.rel, |t.rel| - 1)
                              && name !in cfg.ignoreFilenames && t.rel !in cfg.ignorePaths
                              && !ShutOut(root, t.rel, isDir))
      ensures t.Outside? ==>
                (allowed <==> HasIndexableExtension(t.name, cfg.extensions) && t.name !in cfg.ignoreFilenames)
    {
      if t.Inside? && t.rel != [] { AllowsIs(root, rootName, cfg, t.rel, isDir); }
      var name := FileName(t, rootName);
      if !HasIndexableExtension(name, cfg.extensions) || (t.Inside? && UnderPrunedDir(t.rel)) {
        return false;
      }
      if cfg.ignoreFilenames != {} && name in cfg.ignoreFilenames {
        return false;
      }
      if cfg.ignorePaths != {} && t.Inside? && t.rel in cfg.ignorePaths {
        return false;
      }
      var ignored := IsGitignoredQuery(t, isDir);
      allowed := !ignored;
    }

    method CouldContainIndexedQuery(t: Target) returns (could: bool)
      requires Valid()
      modifies this
      ensures Valid()
      ensures could == CouldContainIndexed(root, cfg, t)
      ensures could <==> t.Outside? || Habitable(root, cfg, t.rel)
    {
      if t.Inside? { CouldContainIs(root, cfg, t.rel); }
      if t.Inside? && UnderPrunedDir(t.rel + ["_"]) {
        return false;
      }
      if cfg.ignorePaths != {} && t.Inside? && t.rel in cfg.ignorePaths {
        return false;
      }
      var ignored := IsGitignoredQuery(t, true);
      could := !ignored;
    }

    method MayAffectIndexQuery(t: Target) returns (may: bool)
      requires Valid()
      modifies this
      ensures Valid()
      ensures may == MayAffectIndex(root, cfg, t)
      ensures may <==> || t.Outside? || t.rel == []
                       || (&& Habitable(root, cfg, t.rel[..|t.rel| - 1]) && t.rel[|t.rel| - 1] !in SKIP_DIRS
                           && (IsDir(root, t) ==> Habitable(root, cfg, t.rel)))
    {
      if t.Outside? || t.rel == [] {
        return true;
      }
      var parent := CouldContainIndexedQuery(Inside(t.rel[..|t.rel| - 1]));
      if !parent {
        return false;
      }
      if t.rel[|t.rel| - 1] in SKIP_DIRS {
        return false;
      }
      may := true;
      if IsDir(root, t) {
        may := CouldContainIndexedQuery(t);
      }
    }
  }
}
