/**
 The pruning walk, and its agreement with the per-path filter and the watcher's early drop
 (`src/indexing/walker.rs`: `walk_repo_with`, `walk_subtree_with`;
 `src/indexing/watcher.rs`: `may_affect_index`).

 `Yield` is the depth-first iteration the walk consumes: it carries the ignore sources of the
 directories above an entry and never descends into an ignored or pruned directory.
 */
module Walker {
  import opened Options
  import opened IgnoreRules
  import opened ChangeFilter

  function Yield(entry: Entry, parent: Path, stack: seq<DirIgnores>): seq<Path>
    requires |stack| == |parent| + 1
    decreases entry, 0
  {
    var c := parent + [entry.name];
    if Ignored(stack, c, entry.node.Dir?, true) then []
    else if entry.node.File? then [c]
    else if Pruned(entry.name) then []
    else YieldAll(entry.node.children, c, stack + [entry.node.ignores])
  }

  function YieldAll(children: seq<Entry>, parent: Path, stack: seq<DirIgnores>): seq<Path>
    requires |stack| == |parent| + 1
    decreases children, 1
  {
    if children == [] then [] else Yield(children[0], parent, stack) + YieldAll(children[1..], parent, stack)
  }

  predicate Kept(cfg: Config, root: Path, p: Path)
    requires root <= p && root != p
  {
    && HasIndexableExtension(p[|p| - 1], cfg.extensions)
    && p[|p| - 1] !in cfg.ignoreFilenames
    && p[|root|..] !in cfg.ignorePaths
  }

  /** Walks the directory `start` of the tree, consulting the ignore files of its ancestors too. */
  method WalkFrom(root: Node, start: Path, cfg: Config) returns (files: seq<Path>)
    requires WellFormed(root)
    ensures Lookup(root, start).None? ==> files == []
    ensures IsDir(root, Inside(start)) ==>
              forall p :: p in files <==> InWalk(root, start, p) && Kept(cfg, start, p)
    ensures IsDir(root, Inside(start)) ==> forall p :: p in files <==> IndexedBelow(root, start, cfg, p)
  {
    files := [];
    if Lookup(root, start).None? || Lookup(root, start).value.File? {
      return;
    }
    var node := Lookup(root, start).value;
    var stack := StackOf(root, start) + [node.ignores];
    var found := YieldAll(node.children, start, stack);
    forall p ensures p in found <==> InWalk(root, start, p) {
      WalkVisits(root, start, p);
    }
    var i := 0;
    while i < |found|
      invariant 0 <= i <= |found|
      invariant forall p :: p in files <==> p in found[..i] && InWalk(root, start, p) && Kept(cfg, start, p)
    {
      var path := found[i];
      assert InWalk(root, start, path);
      if HasIndexableExtension(path[|path| - 1], cfg.extensions) {
        if !(cfg.ignoreFilenames != {} && path[|path| - 1] in cfg.ignoreFilenames) &&
           !(cfg.ignorePaths != {} && path[|start|..] in cfg.ignorePaths) {
          files := files + [path];
        }
      }
      assert found[..i + 1] == found[..i] + [path];
      i := i + 1;
    }
    assert found[..i] == found;
    forall p ensures p in files <==> IndexedBelow(root, start, cfg, p) { InWalkIsIndexed(root, start, cfg, p); }
  }

  method WalkRepo(root: Node, cfg: Config) returns (files: seq<Path>)
    requires root.Dir? && WellFormed(root)
    ensures forall p :: p in files <==> Walked(root, cfg, p)
    ensures forall p :: p in files <==> Indexed(root, cfg, p)
  {
    files := WalkFrom(root, [], cfg);
    forall p ensures p in files <==> Walked(root, cfg, p) {
      if p != [] { assert p[0..] == p; }
    }
    forall p ensures p in files <==> Indexed(root, cfg, p) { WalkedIsIndexed(root, cfg, p); }
  }

  // ---------------------------------------------------------------------------------------
  // What the walk visits, path by path
  // ---------------------------------------------------------------------------------------

  /** Component `k` of `p` neither prunes nor ignores: the walk gets past it. */
  predicate Passes(root: Node, p: Path, k: nat)
    requires 1 <= k <= |p|
  {
    if k < |p| then !Pruned(p[k - 1]) && !WalkIgnored(root, p[..k], true)
    else !WalkIgnored(root, p, false)
  }

  /** `p` is a file strictly below `start` that no component below `start` keeps the walk from. */
  ghost predicate InWalk(root: Node, start: Path, p: Path) {
    && start <= p && start != p
    && Lookup(root, p) == Some(File)
    && forall k :: |start| < k <= |p| ==> Passes(root, p, k)
  }

  ghost predicate Walked(root: Node, cfg: Config, p: Path) {
    InWalk(root, [], p) && Kept(cfg, [], p)
  }

  /** The ancestors' ignore files leave component `k` of `p` in, and if it is a directory above `p` its name
      neither starts with a dot nor is one of the skipped ones. */
  predicate LetsPass(root: Node, p: Path, k: nat)
    requires 1 <= k <= |p|
  {
    && !Excluded(root, p[..k], k < |p|, true)
    && (k < |p| ==> !("." <= p[k - 1]) && p[k - 1] !in SKIP_DIRS)
  }

  /** What the walk from `start` returns, from the tree, the ignore files' matchers and the settings. */
  ghost predicate IndexedBelow(root: Node, start: Path, cfg: Config, p: Path) {
    && start < p
    && Lookup(root, p) == Some(File)
    && (forall k :: |start| < k <= |p| ==> LetsPass(root, p, k))
    && HasIndexableExtension(p[|p| - 1], cfg.extensions)
    && p[|p| - 1] !in cfg.ignoreFilenames
    && p[|start|..] !in cfg.ignorePaths
  }

  ghost predicate Indexed(root: Node, cfg: Config, p: Path) {
    IndexedBelow(root, [], cfg, p)
  }

  lemma PassesIsLetsPass(root: Node, p: Path, k: nat)
    requires 1 <= k <= |p|
    ensures Passes(root, p, k) <==> LetsPass(root, p, k)
  {
    assert p[..|p|] == p;
    IgnoredIsExcluded(root, p[..k], k < |p|, true);
  }

  lemma InWalkIsIndexed(root: Node, start: Path, cfg: Config, p: Path)
    ensures InWalk(root, start, p) && Kept(cfg, start, p) <==> IndexedBelow(root, start, cfg, p)
  {
    forall k | |start| < k <= |p| ensures Passes(root, p, k) <==> LetsPass(root, p, k) { PassesIsLetsPass(root, p, k); }
  }

  lemma WalkedIsIndexed(root: Node, cfg: Config, p: Path)
    ensures Walked(root, cfg, p) <==> Indexed(root, cfg, p)
  {
    InWalkIsIndexed(root, [], cfg, p);
  }

  lemma {:induction false} LookupBelow(node: Node, path: Path, rest: Path)
    requires Lookup(node, path).Some?
    ensures Lookup(node, path + rest) == Lookup(Lookup(node, path).value, rest)
    decreases |path|
  {
    if path == [] {
      assert path + rest == rest;
    } else {
      var child := FindChild(node.children, path[0]).value;
      LookupBelow(child, path[1..], rest);
      assert (path + rest)[1..] == path[1..] + rest && (path + rest)[0] == path[0];
    }
  }

  lemma {:induction false} ChildIsFound(children: seq<Entry>, i: nat)
    requires i < |children|
    requires forall a, b :: 0 <= a < b < |children| ==> children[a].name != children[b].name
    ensures FindChild(children, children[i].name) == Some(children[i].node)
  {
    if i > 0 { ChildIsFound(children[1..], i - 1); }
  }

  lemma {:induction false} FoundIsChild(children: seq<Entry>, name: string)
    requires FindChild(children, name).Some?
    ensures exists i :: 0 <= i < |children| && children[i] == Entry(name, FindChild(children, name).value)
  {
    if children[0].name == name {
      assert children[0] == Entry(name, FindChild(children, name).value);
    } else {
      FoundIsChild(children[1..], name);
      var i :| 0 <= i < |children[1..]| && children[1..][i] == Entry(name, FindChild(children, name).value);
      assert children[i + 1] == Entry(name, FindChild(children, name).value);
    }
  }

  /** Everything an entry yields lies at or below it. */
  lemma {:induction false} YieldsBelow(entry: Entry, parent: Path, stack: seq<DirIgnores>, p: Path)
    requires |stack| == |parent| + 1 && p in Yield(entry, parent, stack)
    ensures parent + [entry.name] <= p
    decreases entry, 0
  {
    var c := parent + [entry.name];
    if entry.node.Dir? {
      YieldsAllBelow(entry.node.children, c, stack + [entry.node.ignores], p);
    }
  }

  lemma {:induction false} YieldsAllBelow(children: seq<Entry>, parent: Path, stack: seq<DirIgnores>, p: Path)
    requires |stack| == |parent| + 1 && p in YieldAll(children, parent, stack)
    ensures parent < p
    ensures exists i :: 0 <= i < |children| && p in Yield(children[i], parent, stack)
    decreases children, 1
  {
    if p in Yield(children[0], parent, stack) {
      YieldsBelow(children[0], parent, stack, p);
      assert p in Yield(children[0], parent, stack);
    } else {
      YieldsAllBelow(children[1..], parent, stack, p);
      var i :| 0 <= i < |children[1..]| && p in Yield(children[1..][i], parent, stack);
      assert p in Yield(children[i + 1], parent, stack);
    }
  }

  lemma {:induction false} YieldIsPart(children: seq<Entry>, parent: Path, stack: seq<DirIgnores>, i: nat, p: Path)
    requires |stack| == |parent| + 1 && i < |children| && p in Yield(children[i], parent, stack)
    ensures p in YieldAll(children, parent, stack)
    decreases i
  {
    if i > 0 { YieldIsPart(children[1..], parent, stack, i - 1, p); }
  }

  /** An entry yields exactly the files at or below it that every component lets the walk reach. */
  lemma {:induction false} EntryVisits(root: Node, parent: Path, i: nat, p: Path)
    requires WellFormed(root) && IsDir(root, Inside(parent))
    requires var node := Lookup(root, parent).value;
             WellFormed(node) && i < |node.children|
    ensures var node := Lookup(root, parent).value;
            p in Yield(node.children[i], parent, StackOf(root, parent) + [node.ignores])
            <==> parent + [node.children[i].name] <= p && InWalk(root, parent, p)
    decreases Lookup(root, parent).value.children[i], 0
  {
    var node := Lookup(root, parent).value;
    var entry := node.children[i];
    var c := parent + [entry.name];
    var stack := StackOf(root, parent) + [node.ignores];
    EntryIsFound(root, parent, i);
    if p in Yield(entry, parent, stack) { YieldsBelow(entry, parent, stack, p); }
    if c <= p {
      if entry.node.File? {
        FileEntryVisits(root, parent, i, p);
      } else {
        WalkVisits(root, c, p);
        EntryPasses(root, parent, entry.name, p);
      }
    }
  }

  /** A child's path, and the ignore files above what lies in it. */
  lemma EntryIsFound(root: Node, parent: Path, i: nat)
    requires WellFormed(root) && IsDir(root, Inside(parent))
    requires var node := Lookup(root, parent).value; WellFormed(node) && i < |node.children|
    ensures var node := Lookup(root, parent).value;
            var c := parent + [node.children[i].name];
            && Lookup(root, c) == Some(node.children[i].node)
            && StackOf(root, c) == StackOf(root, parent) + [node.ignores]
  {
    var node := Lookup(root, parent).value;
    var name := node.children[i].name;
    var c := parent + [name];
    LookupBelow(root, parent, [name]);
    ChildIsFound(node.children, i);
    assert [name][1..] == [];
    forall k | 0 <= k < |c| ensures StackOf(root, c)[k] == (StackOf(root, parent) + [node.ignores])[k] {
      if k < |parent| { assert c[..k] == parent[..k]; } else { assert c[..k] == parent; }
    }
  }

  lemma FileEntryVisits(root: Node, parent: Path, i: nat, p: Path)
    requires WellFormed(root) && IsDir(root, Inside(parent))
    requires var node := Lookup(root, parent).value;
             WellFormed(node) && i < |node.children| && node.children[i].node.File?
             && parent + [node.children[i].name] <= p
    ensures var node := Lookup(root, parent).value;
            p in Yield(node.children[i], parent, StackOf(root, parent) + [node.ignores]) <==> InWalk(root, parent, p)
  {
    var c := parent + [Lookup(root, parent).value.children[i].name];
    EntryIsFound(root, parent, i);
    if p != c {
      LookupBelow(root, c, p[|c|..]);
      assert c + p[|c|..] == p;
    } else {
      assert InWalk(root, parent, p) <==> Passes(root, p, |p|);
    }
  }

  /** Below a directory entry, the walk from the parent passes the entry and then walks it. */
  lemma EntryPasses(root: Node, parent: Path, name: string, p: Path)
    requires parent + [name] <= p && IsDir(root, Inside(parent + [name]))
    ensures var c := parent + [name];
            InWalk(root, parent, p) <==> InWalk(root, c, p) && !Pruned(name) && !WalkIgnored(root, c, true)
  {
    var c := parent + [name];
    assert p[..|c|] == c && p[|c| - 1] == c[|c| - 1] == name && parent <= p;
    if p == c {
      assert Lookup(root, p) != Some(File);
    } else {
      assert Passes(root, p, |c|) <==> !Pruned(name) && !WalkIgnored(root, c, true);
    }
  }

  /** The walk's output, characterised path by path. */
  lemma {:induction false} WalkVisits(root: Node, start: Path, p: Path)
    requires WellFormed(root) && IsDir(root, Inside(start))
    ensures var node := Lookup(root, start).value;
            p in YieldAll(node.children, start, StackOf(root, start) + [node.ignores]) <==> InWalk(root, start, p)
    decreases Lookup(root, start).value.children, 1
  {
    var node := Lookup(root, start).value;
    var stack := StackOf(root, start) + [node.ignores];
    WellFormedBelow(root, start);
    if p in YieldAll(node.children, start, stack) {
      YieldsAllBelow(node.children, start, stack, p);
      var i :| 0 <= i < |node.children| && p in Yield(node.children[i], start, stack);
      EntryVisits(root, start, i, p);
    }
    if InWalk(root, start, p) {
      var rest := p[|start|..];
      assert start + rest == p;
      LookupBelow(root, start, rest);
      FoundIsChild(node.children, rest[0]);
      var i :| 0 <= i < |node.children| && node.children[i] == Entry(rest[0], FindChild(node.children, rest[0]).value);
      EntryVisits(root, start, i, p);
      YieldIsPart(node.children, start, stack, i, p);
    }
  }

  lemma {:induction false} WellFormedBelow(node: Node, path: Path)
    requires WellFormed(node) && Lookup(node, path).Some?
    ensures WellFormed(Lookup(node, path).value)
    decreases |path|
  {
    if path != [] {
      FoundIsChild(node.children, path[0]);
      WellFormedBelow(FindChild(node.children, path[0]).value, path[1..]);
    }
  }
}
