/**
 A repository tree with its ignore files, and the precedence that decides one candidate
 (`src/indexing/walker.rs`: `DirIgnores`, `is_ignored_by_files`, the plain path predicates).

 An ignore file is an arbitrary three-valued function of the candidate's path below it and of
 whether the candidate is a directory.
 */
module IgnoreRules {
  import opened Options

  /** Components below the repository root; `[]` is the root itself. */
  type Path = seq<string>

  datatype Match = NoMatch | Ignore | Whitelist

  type Matcher = (Path, bool) -> Match

  /** The ignore sources of one directory, and whether it contains `.git`. */
  datatype DirIgnores = DirIgnores(custom: Matcher, ignore: Matcher, git: Matcher, hasGit: bool)

  const NO_IGNORES := DirIgnores((_, _) => NoMatch, (_, _) => NoMatch, (_, _) => NoMatch, false)

  datatype Node = File | Dir(ignores: DirIgnores, children: seq<Entry>)

  datatype Entry = Entry(name: string, node: Node)

  ghost predicate WellFormed(node: Node) {
    node.Dir? ==>
      && (forall i, j :: 0 <= i < j < |node.children| ==> node.children[i].name != node.children[j].name)
      && (forall e :: e in node.children ==> WellFormed(e.node))
  }

  function FindChild(children: seq<Entry>, name: string): Option<Node> {
    if children == [] then None
    else if children[0].name == name then Some(children[0].node)
    else FindChild(children[1..], name)
  }

  function Lookup(node: Node, path: Path): Option<Node>
    decreases |path|
  {
    if path == [] then Some(node)
    else if node.File? then None
    else match FindChild(node.children, path[0])
      case None => None
      case Some(child) => Lookup(child, path[1..])
  }

  /** What reading the ignore files of `dir` yields; a missing directory has none. */
  function IgnoresAt(root: Node, dir: Path): DirIgnores {
    match Lookup(root, dir)
    case Some(Dir(ignores, _)) => ignores
    case _ => NO_IGNORES
  }

  // ---------------------------------------------------------------------------------------
  // One decision, from the ignore sources of the candidate's ancestors
  // ---------------------------------------------------------------------------------------

  datatype Layer = Custom | Plain

  function Matched(ig: DirIgnores, layer: Layer, below: Path, isDir: bool): Match {
    match layer
    case Custom => ig.custom(below, isDir)
    case Plain => ig.ignore(below, isDir)
  }

  /** The closest match among the first `k` ancestors; `stack[i]` belongs to directory `c[..i]`. */
  function Nearest(stack: seq<DirIgnores>, layer: Layer, c: Path, isDir: bool, k: nat): Match
    requires k <= |stack| && k <= |c|
  {
    if k == 0 then NoMatch
    else
      var m := Matched(stack[k - 1], layer, c[k - 1..], isDir);
      if m != NoMatch then m else Nearest(stack, layer, c, isDir, k - 1)
  }

  /** Likewise for `.gitignore`, which stops applying above the nearest `.git`. */
  function NearestGit(stack: seq<DirIgnores>, c: Path, isDir: bool, k: nat): Match
    requires k <= |stack| && k <= |c|
  {
    if k == 0 then NoMatch
    else
      var m := stack[k - 1].git(c[k - 1..], isDir);
      if m != NoMatch then m
      else if stack[k - 1].hasGit then NoMatch
      else NearestGit(stack, c, isDir, k - 1)
  }

  function Decisive(custom: Match, ignore: Match, git: Match): Match {
    if custom != NoMatch then custom else if ignore != NoMatch then ignore else git
  }

  predicate AnyGit(stack: seq<DirIgnores>) {
    exists i :: 0 <= i < |stack| && stack[i].hasGit
  }

  /** `requireGit` is the walker's rule that `.gitignore` counts only inside a git repository. */
  predicate Ignored(stack: seq<DirIgnores>, c: Path, isDir: bool, requireGit: bool)
    requires |stack| == |c|
  {
    var git := if requireGit && !AnyGit(stack) then NoMatch else NearestGit(stack, c, isDir, |c|);
    Decisive(Nearest(stack, Custom, c, isDir, |c|), Nearest(stack, Plain, c, isDir, |c|), git) == Ignore
  }

  /** The ignore sources of every directory strictly above `c`. */
  function StackOf(root: Node, c: Path): (stack: seq<DirIgnores>)
    ensures |stack| == |c|
    ensures forall i :: 0 <= i < |c| ==> stack[i] == IgnoresAt(root, c[..i])
  {
    seq(|c|, i requires 0 <= i < |c| => IgnoresAt(root, c[..i]))
  }

  predicate FilterIgnored(root: Node, c: Path, isDir: bool) {
    Ignored(StackOf(root, c), c, isDir, false)
  }

  predicate WalkIgnored(root: Node, c: Path, isDir: bool) {
    Ignored(StackOf(root, c), c, isDir, true)
  }

  // ---------------------------------------------------------------------------------------
  // The same decision, said of the ancestors one by one
  // ---------------------------------------------------------------------------------------

  /** What the files of the ancestor `c[..i]` say of `c`. */
  function CustomSays(root: Node, c: Path, isDir: bool, i: nat): Match
    requires i < |c|
  {
    IgnoresAt(root, c[..i]).custom(c[i..], isDir)
  }

  function IgnoreSays(root: Node, c: Path, isDir: bool, i: nat): Match
    requires i < |c|
  {
    IgnoresAt(root, c[..i]).ignore(c[i..], isDir)
  }

  function GitSays(root: Node, c: Path, isDir: bool, i: nat): Match
    requires i < |c|
  {
    IgnoresAt(root, c[..i]).git(c[i..], isDir)
  }

  predicate HoldsGit(root: Node, c: Path, i: nat)
    requires i < |c|
  {
    IgnoresAt(root, c[..i]).hasGit
  }

  /** The deepest custom file that matches is the one at `i`. */
  predicate CustomFrom(root: Node, c: Path, isDir: bool, i: nat)
    requires i < |c|
  {
    CustomSays(root, c, isDir, i) != NoMatch && forall j :: i < j < |c| ==> CustomSays(root, c, isDir, j) == NoMatch
  }

  predicate NoCustom(root: Node, c: Path, isDir: bool) {
    forall j :: 0 <= j < |c| ==> CustomSays(root, c, isDir, j) == NoMatch
  }

  predicate IgnoreFrom(root: Node, c: Path, isDir: bool, i: nat)
    requires i < |c|
  {
    IgnoreSays(root, c, isDir, i) != NoMatch && forall j :: i < j < |c| ==> IgnoreSays(root, c, isDir, j) == NoMatch
  }

  predicate NoIgnore(root: Node, c: Path, isDir: bool) {
    forall j :: 0 <= j < |c| ==> IgnoreSays(root, c, isDir, j) == NoMatch
  }

  /** The deepest `.gitignore` that matches is the one at `i`, and no `.git` lies below it. */
  predicate GitFrom(root: Node, c: Path, isDir: bool, i: nat)
    requires i < |c|
  {
    && GitSays(root, c, isDir, i) != NoMatch
    && forall j :: i < j < |c| ==> GitSays(root, c, isDir, j) == NoMatch && !HoldsGit(root, c, j)
  }

  predicate InGit(root: Node, c: Path) {
    exists j :: 0 <= j < |c| && HoldsGit(root, c, j)
  }

  /** Custom files first; only where none matches, `.ignore` files; only where neither does, the
      `.gitignore` files at or below the nearest `.git`, under `requireGit` only inside a repository.
      Among files of one kind the deepest match decides. */
  predicate Excluded(root: Node, c: Path, isDir: bool, requireGit: bool) {
    || (exists i :: 0 <= i < |c| && CustomFrom(root, c, isDir, i) && CustomSays(root, c, isDir, i) == Ignore)
    || (&& NoCustom(root, c, isDir)
        && exists i :: 0 <= i < |c| && IgnoreFrom(root, c, isDir, i) && IgnoreSays(root, c, isDir, i) == Ignore)
    || (&& NoCustom(root, c, isDir) && NoIgnore(root, c, isDir)
        && (requireGit ==> InGit(root, c))
        && exists i :: 0 <= i < |c| && GitFrom(root, c, isDir, i) && GitSays(root, c, isDir, i) == Ignore)
  }

  lemma {:induction false} NearestCustom(root: Node, c: Path, isDir: bool, k: nat) returns (i: nat)
    requires k <= |c|
    ensures var m := Nearest(StackOf(root, c), Custom, c, isDir, k);
            && (m == NoMatch <==> forall j :: 0 <= j < k ==> CustomSays(root, c, isDir, j) == NoMatch)
            && (m != NoMatch ==>
                  && i < k && m == CustomSays(root, c, isDir, i)
                  && forall j :: i < j < k ==> CustomSays(root, c, isDir, j) == NoMatch)
  {
    i := 0;
    if k > 0 {
      if CustomSays(root, c, isDir, k - 1) != NoMatch {
        i := k - 1;
      } else {
        i := NearestCustom(root, c, isDir, k - 1);
      }
    }
  }

  lemma {:induction false} NearestIgnore(root: Node, c: Path, isDir: bool, k: nat) returns (i: nat)
    requires k <= |c|
    ensures var m := Nearest(StackOf(root, c), Plain, c, isDir, k);
            && (m == NoMatch <==> forall j :: 0 <= j < k ==> IgnoreSays(root, c, isDir, j) == NoMatch)
            && (m != NoMatch ==>
                  && i < k && m == IgnoreSays(root, c, isDir, i)
                  && forall j :: i < j < k ==> IgnoreSays(root, c, isDir, j) == NoMatch)
  {
    i := 0;
    if k > 0 {
      if IgnoreSays(root, c, isDir, k - 1) != NoMatch {
        i := k - 1;
      } else {
        i := NearestIgnore(root, c, isDir, k - 1);
      }
    }
  }

  lemma {:induction false} NearestGitFrom(root: Node, c: Path, isDir: bool, k: nat) returns (i: nat)
    requires k <= |c| && NearestGit(StackOf(root, c), c, isDir, k) != NoMatch
    ensures i < k && NearestGit(StackOf(root, c), c, isDir, k) == GitSays(root, c, isDir, i)
    ensures forall j :: i < j < k ==> GitSays(root, c, isDir, j) == NoMatch && !HoldsGit(root, c, j)
  {
    if GitSays(root, c, isDir, k - 1) != NoMatch {
      i := k - 1;
    } else {
      assert !HoldsGit(root, c, k - 1);
      i := NearestGitFrom(root, c, isDir, k - 1);
    }
  }

  lemma {:induction false} GitFromDecides(root: Node, c: Path, isDir: bool, i: nat, k: nat)
    requires i < k <= |c| && GitSays(root, c, isDir, i) != NoMatch
    requires forall j :: i < j < k ==> GitSays(root, c, isDir, j) == NoMatch && !HoldsGit(root, c, j)
    ensures NearestGit(StackOf(root, c), c, isDir, k) == GitSays(root, c, isDir, i)
  {
    if i < k - 1 {
      assert GitSays(root, c, isDir, k - 1) == NoMatch && !HoldsGit(root, c, k - 1);
      GitFromDecides(root, c, isDir, i, k - 1);
    }
  }

  lemma CustomVerdict(root: Node, c: Path, isDir: bool)
    ensures var m := Nearest(StackOf(root, c), Custom, c, isDir, |c|);
            && (m == NoMatch <==> NoCustom(root, c, isDir))
            && (m == Ignore <==>
                  exists i :: 0 <= i < |c| && CustomFrom(root, c, isDir, i) && CustomSays(root, c, isDir, i) == Ignore)
  {
    var i := NearestCustom(root, c, isDir, |c|);
    if Nearest(StackOf(root, c), Custom, c, isDir, |c|) != NoMatch { assert CustomFrom(root, c, isDir, i); }
  }

  lemma IgnoreVerdict(root: Node, c: Path, isDir: bool)
    ensures var m := Nearest(StackOf(root, c), Plain, c, isDir, |c|);
            && (m == NoMatch <==> NoIgnore(root, c, isDir))
            && (m == Ignore <==>
                  exists i :: 0 <= i < |c| && IgnoreFrom(root, c, isDir, i) && IgnoreSays(root, c, isDir, i) == Ignore)
  {
    var i := NearestIgnore(root, c, isDir, |c|);
    if Nearest(StackOf(root, c), Plain, c, isDir, |c|) != NoMatch { assert IgnoreFrom(root, c, isDir, i); }
  }

  lemma GitVerdict(root: Node, c: Path, isDir: bool)
    ensures NearestGit(StackOf(root, c), c, isDir, |c|) == Ignore <==>
              exists i :: 0 <= i < |c| && GitFrom(root, c, isDir, i) && GitSays(root, c, isDir, i) == Ignore
  {
    if NearestGit(StackOf(root, c), c, isDir, |c|) != NoMatch {
      var i := NearestGitFrom(root, c, isDir, |c|);
      assert GitFrom(root, c, isDir, i);
    }
    forall i | 0 <= i < |c| && GitFrom(root, c, isDir, i)
      ensures NearestGit(StackOf(root, c), c, isDir, |c|) == GitSays(root, c, isDir, i)
    {
      GitFromDecides(root, c, isDir, i, |c|);
    }
  }

  /** The computed verdict is the one the ancestors' files give. */
  lemma IgnoredIsExcluded(root: Node, c: Path, isDir: bool, requireGit: bool)
    ensures Ignored(StackOf(root, c), c, isDir, requireGit) <==> Excluded(root, c, isDir, requireGit)
  {
    CustomVerdict(root, c, isDir);
    IgnoreVerdict(root, c, isDir);
    GitVerdict(root, c, isDir);
    GitAmongAncestors(root, c);
  }

  lemma GitAmongAncestors(root: Node, c: Path)
    ensures AnyGit(StackOf(root, c)) <==> InGit(root, c)
  {
    if AnyGit(StackOf(root, c)) {
      var j :| 0 <= j < |c| && StackOf(root, c)[j].hasGit;
      assert HoldsGit(root, c, j);
    }
    if InGit(root, c) {
      var j :| 0 <= j < |c| && HoldsGit(root, c, j);
      assert StackOf(root, c)[j].hasGit;
    }
  }

  /** One voice decides: the deepest matching custom file whatever the others say, else the deepest
      matching `.ignore` whatever the `.gitignore` files say, else the governing `.gitignore`. */
  lemma TheDeepestOfTheFirstKindDecides(root: Node, c: Path, isDir: bool, i: nat)
    requires i < |c|
    ensures var ignored := Ignored(StackOf(root, c), c, isDir, false);
            && (CustomFrom(root, c, isDir, i) ==> (ignored <==> CustomSays(root, c, isDir, i) == Ignore))
            && (NoCustom(root, c, isDir) && IgnoreFrom(root, c, isDir, i) ==>
                  (ignored <==> IgnoreSays(root, c, isDir, i) == Ignore))
            && (NoCustom(root, c, isDir) && NoIgnore(root, c, isDir) && GitFrom(root, c, isDir, i) ==>
                  (ignored <==> GitSays(root, c, isDir, i) == Ignore))
  {
    IgnoredIsExcluded(root, c, isDir, false);
    SameVoice(root, c, isDir, i);
  }

  lemma SameVoice(root: Node, c: Path, isDir: bool, i: nat)
    requires i < |c|
    ensures CustomFrom(root, c, isDir, i) ==>
              forall k :: 0 <= k < |c| && CustomFrom(root, c, isDir, k) ==> k == i
    ensures IgnoreFrom(root, c, isDir, i) ==>
              forall k :: 0 <= k < |c| && IgnoreFrom(root, c, isDir, k) ==> k == i
    ensures GitFrom(root, c, isDir, i) ==>
              forall k :: 0 <= k < |c| && GitFrom(root, c, isDir, k) ==> k == i
  {
  }

  // ---------------------------------------------------------------------------------------
  // Names
  // ---------------------------------------------------------------------------------------

  const SKIP_DIRS: set<string> := {"node_modules", "target", "build", "dist", "__pycache__", "vendor"}

  const EXTENSIONLESS: set<string> := {"dockerfile", "makefile", "justfile"}

  predicate Hidden(name: string) {
    |name| > 0 && name[0] == '.'
  }

  predicate Pruned(name: string) {
    Hidden(name) || name in SKIP_DIRS
  }

  function LastDot(name: string): (i: int)
    ensures -1 <= i < |name|
    ensures 0 <= i ==> name[i] == '.'
  {
    if name == "" then -1
    else if name[|name| - 1] == '.' then |name| - 1
    else LastDot(name[..|name| - 1])
  }

  function Lower(s: string): (r: string)
    ensures |r| == |s|
  {
    seq(|s|, i requires 0 <= i < |s| => if 'A' <= s[i] <= 'Z' then s[i] - 'A' + 'a' else s[i])
  }

  /** A leading dot alone does not start an extension. */
  predicate HasIndexableExtension(name: string, extensions: set<string>) {
    var dot := LastDot(name);
    if dot > 0 then Lower(name[dot + 1..]) in extensions else Lower(name) in EXTENSIONLESS
  }

  /** The extension is what follows the last dot, in any case, unless that dot is the first character. */
  lemma ExtensionFollowsTheLastDot(stem: string, ext: string, extensions: set<string>)
    requires '.' !in ext
    ensures stem != "" ==> (HasIndexableExtension(stem + "." + ext, extensions) <==> Lower(ext) in extensions)
    ensures HasIndexableExtension("." + ext, extensions) <==> Lower("." + ext) in EXTENSIONLESS
    ensures HasIndexableExtension(ext, extensions) <==> Lower(ext) in EXTENSIONLESS
  {
    LastDotOf(stem, ext);
    LastDotOf("", ext);
    NoDotOf(ext);
    assert (stem + "." + ext)[|stem| + 1..] == ext;
    assert "" + "." + ext == "." + ext;
  }

  lemma {:induction false} NoDotOf(ext: string)
    requires '.' !in ext
    ensures LastDot(ext) == -1
  {
    if ext != "" { NoDotOf(ext[..|ext| - 1]); }
  }

  lemma {:induction false} LastDotOf(stem: string, ext: string)
    requires '.' !in ext
    ensures LastDot(stem + "." + ext) == |stem|
  {
    var name := stem + "." + ext;
    if ext == "" {
      assert name[|name| - 1] == '.';
    } else {
      LastDotOf(stem, ext[..|ext| - 1]);
      assert name[..|name| - 1] == stem + "." + ext[..|ext| - 1];
      assert name[|name| - 1] == ext[|ext| - 1];
    }
  }

  /** Only the capitals A to Z change. */
  lemma LowerIsAscii(s: string, i: nat)
    requires i < |s|
    ensures 'A' <= s[i] <= 'Z' ==> 'a' <= Lower(s)[i] <= 'z' && Lower(s)[i] as int - s[i] as int == 32
    ensures !('A' <= s[i] <= 'Z') ==> Lower(s)[i] == s[i]
  {
  }

  lemma SkipNameIsNotIndexable(name: string, extensions: set<string>)
    requires name in SKIP_DIRS
    ensures !HasIndexableExtension(name, extensions)
  {
    assert '.' !in name;
    assert LastDot(name) == -1;
    assert |name| !in {8, 10};
    assert |Lower(name)| == |name|;
  }

  /** Any directory component above the last one is dot-prefixed or in `SKIP_DIRS`. */
  predicate UnderPrunedDir(path: Path) {
    exists i :: 0 <= i < |path| - 1 && Pruned(path[i])
  }

  datatype Config = Config(extensions: set<string>, ignoreFilenames: set<string>, ignorePaths: set<Path>)
}
