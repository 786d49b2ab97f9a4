/**
 Ignoring every file that matches a filter, page by page (`src/server.rs`, `src/store/ops.rs`).

 The database is its ignore list and its tables. A row of a relation table joins two files and goes
 with either of them; every other row belongs to one file. The last table is `file_meta`, which the
 page query reads. Every durable write is recorded, so that a
 property of all recorded states is a property of every point at which the process may die.
 `relOf` is a path's form relative to the repository root: none for a path outside it, for the root
 itself, or for a name that is not valid Unicode.
 */
module BatchIgnore {
  import opened Options

  const BATCH: nat := 1000
  const TABLES: nat := 9

  datatype Path = Path(text: string)
  datatype Rel = Rel(text: string)

  datatype Row = Owned(file: Path) | Edge(inFile: Path, outFile: Path)

  datatype Durable = Durable(ignored: seq<Rel>, tables: seq<set<Row>>)

  function Ends(row: Row): set<Path> {
    match row
    case Owned(file) => {file}
    case Edge(inFile, outFile) => {inFile, outFile}
  }

  /** What the deletion of the rows of `paths` leaves: an edge goes with either of its ends. */
  function Cleared(rows: set<Row>, paths: set<Path>): set<Row> {
    set row | row in rows && Ends(row) !! paths
  }

  function FilesIn(rows: set<Row>): set<Path> {
    set row | row in rows && row.Owned? :: row.file
  }

  /** Row by row: a file's own row stays when it was there and the file is not in `paths`, an edge when it
      was there and neither of its files is in `paths`. */
  ghost predicate OnlyOthersLeft(before: set<Row>, now: set<Row>, paths: set<Path>) {
    && (forall f :: Owned(f) in now <==> Owned(f) in before && f !in paths)
    && (forall x, y :: Edge(x, y) in now <==> Edge(x, y) in before && x !in paths && y !in paths)
  }

  /** Nothing that touches `done` is left, and nothing is gone that touches neither `done` nor `page`. */
  ghost predicate HalfwayLeft(before: set<Row>, now: set<Row>, done: set<Path>, page: set<Path>) {
    && (forall f :: Owned(f) in now ==> Owned(f) in before && f !in done)
    && (forall x, y :: Edge(x, y) in now ==> Edge(x, y) in before && x !in done && y !in done)
    && (forall f :: Owned(f) in before && f !in done && f !in page ==> Owned(f) in now)
    && (forall x, y :: Edge(x, y) in before && x !in done && y !in done && x !in page && y !in page ==>
          Edge(x, y) in now)
  }

  lemma ClearedLeavesOthers(rows: set<Row>, now: set<Row>, paths: set<Path>)
    ensures now == Cleared(rows, paths) <==> OnlyOthersLeft(rows, now, paths)
  {
    if OnlyOthersLeft(rows, now, paths) {
      forall row ensures row in now <==> row in Cleared(rows, paths) {
        match row {
          case Owned(f) =>
          case Edge(x, y) =>
        }
      }
    }
  }

  lemma BoundsLeaveHalfway(rows: set<Row>, now: set<Row>, done: set<Path>, page: set<Path>)
    requires Cleared(rows, done + page) <= now <= Cleared(rows, done)
    ensures HalfwayLeft(rows, now, done, page)
  {
    forall f | Owned(f) in now ensures Owned(f) in rows && f !in done {
      assert Owned(f) in Cleared(rows, done);
    }
    forall x, y | Edge(x, y) in now ensures Edge(x, y) in rows && x !in done && y !in done {
      assert Edge(x, y) in Cleared(rows, done);
    }
    forall f | Owned(f) in rows && f !in done && f !in page ensures Owned(f) in now {
      assert Owned(f) in Cleared(rows, done + page);
    }
    forall x, y | Edge(x, y) in rows && x !in done && y !in done && x !in page && y !in page ensures Edge(x, y) in now {
      assert Edge(x, y) in Cleared(rows, done + page);
    }
  }

  lemma ClearedTwice(rows: set<Row>, a: set<Path>, b: set<Path>)
    ensures Cleared(Cleared(rows, a), b) == Cleared(rows, a + b)
    ensures Cleared(rows, {}) == rows
  {
  }

  lemma ClearedFiles(rows: set<Row>, paths: set<Path>)
    ensures FilesIn(Cleared(rows, paths)) == FilesIn(rows) - paths
  {
    forall file | file in FilesIn(rows) - paths ensures file in FilesIn(Cleared(rows, paths)) {
      assert Owned(file) in rows && Owned(file) in Cleared(rows, paths);
    }
  }

  /** A write works, fails without effect, or fails although it took effect. */
  datatype Fault = Works | FailsBefore | FailsAfter

  datatype Response = Done(count: nat) | Failed(count: nat)

  // ---------------------------------------------------------------------------------------
  // The order of paths
  // ---------------------------------------------------------------------------------------

  predicate Less(a: string, b: string) {
    b != "" && (a == "" || a[0] < b[0] || (a[0] == b[0] && Less(a[1..], b[1..])))
  }

  predicate Before(a: Path, b: Path) {
    Less(a.text, b.text)
  }

  lemma {:induction false} LessIsTransitive(a: string, b: string, c: string)
    requires Less(a, b) && Less(b, c)
    ensures Less(a, c)
  {
    if a != "" && a[0] == b[0] && b[0] == c[0] { LessIsTransitive(a[1..], b[1..], c[1..]); }
  }

  lemma {:induction false} LessIsTotal(a: string, b: string)
    ensures !(Less(a, b) && Less(b, a)) && (Less(a, b) || Less(b, a) || a == b)
  {
    if a != "" && b != "" && a[0] == b[0] {
      LessIsTotal(a[1..], b[1..]);
      assert a == [a[0]] + a[1..] && b == [b[0]] + b[1..];
    }
  }

  predicate DiffersAt(a: string, b: string, i: nat) {
    i < |a| && i < |b| && a[..i] == b[..i] && a[i] < b[i]
  }

  lemma DiffersAfter(a: string, b: string, i: nat)
    requires a != "" && b != "" && a[0] == b[0]
    ensures DiffersAt(a[1..], b[1..], i) <==> DiffersAt(a, b, i + 1)
  {
    var u, v := a[1..], b[1..];
    if i < |u| && i < |v| {
      assert a[..i + 1] == [a[0]] + u[..i] && b[..i + 1] == [b[0]] + v[..i];
      assert u[..i] == a[..i + 1][1..] && v[..i] == b[..i + 1][1..];
    }
  }

  lemma BeginsAfter(a: string, b: string)
    requires a != "" && b != "" && a[0] == b[0]
    ensures a[1..] < b[1..] <==> a < b
  {
    assert a == [a[0]] + a[1..] && b == [b[0]] + b[1..];
  }

  lemma {:induction false} DifferenceDecides(a: string, b: string, i: nat)
    requires DiffersAt(a, b, i)
    ensures Less(a, b)
  {
    if i > 0 {
      assert a[..i][0] == a[0] && b[..i][0] == b[0];
      DiffersAfter(a, b, i - 1);
      DifferenceDecides(a[1..], b[1..], i - 1);
    }
  }

  lemma {:induction false} PrefixIsLess(a: string, b: string)
    requires a < b
    ensures Less(a, b)
  {
    if a != "" {
      BeginsAfter(a, b);
      PrefixIsLess(a[1..], b[1..]);
    }
  }

  lemma {:induction false} LessHasAReason(a: string, b: string)
    requires Less(a, b)
    ensures a < b || exists i: nat :: DiffersAt(a, b, i)
  {
    if a == "" {
    } else if a[0] < b[0] {
      assert DiffersAt(a, b, 0);
    } else {
      LessHasAReason(a[1..], b[1..]);
      BeginsAfter(a, b);
      if i: nat :| DiffersAt(a[1..], b[1..], i) { DiffersAfter(a, b, i); }
    }
  }

  /** The order is the one of dictionaries: at the first difference the smaller character comes first, and
      a proper prefix comes before what it begins. */
  lemma LessIsLexicographic(a: string, b: string)
    ensures Less(a, b) <==> a < b || exists i: nat :: DiffersAt(a, b, i)
  {
    if Less(a, b) { LessHasAReason(a, b); }
    if a < b { PrefixIsLess(a, b); }
    if i: nat :| DiffersAt(a, b, i) { DifferenceDecides(a, b, i); }
  }

  lemma {:induction false} LessIsStrict(a: string)
    ensures !Less(a, a)
  {
    if a != "" { LessIsStrict(a[1..]); }
  }

  // ---------------------------------------------------------------------------------------
  // The page query
  // ---------------------------------------------------------------------------------------

  function Members(s: seq<Path>): set<Path> {
    if s == [] then {} else Members(s[..|s| - 1]) + {s[|s| - 1]}
  }

  /** What the query ranges over: rows behind the cursor that match. */
  function Ahead(meta: set<Path>, matches: Path -> bool, cursor: Path): set<Path> {
    set p | p in meta && matches(p) && Before(cursor, p)
  }

  /** `last` is the greatest of `taken` and comes before all of `rest`. */
  ghost predicate Divides(taken: set<Path>, last: Path, rest: set<Path>) {
    && (forall p :: p in rest ==> Before(last, p))
    && (forall p :: p in taken ==> p == last || Before(p, last))
  }

  /** The first of `ahead` in path order, at most `limit`; fewer only when that is all there is. */
  ghost predicate IsPage(ahead: set<Path>, limit: nat, page: seq<Path>) {
    && Members(page) <= ahead && |Members(page)| == |page| <= limit
    && (|page| < limit ==> Members(page) == ahead)
    && (page != [] ==> Divides(Members(page), page[|page| - 1], ahead - Members(page)))
  }

  method First(paths: set<Path>) returns (first: Path)
    requires paths != {}
    ensures first in paths && forall p :: p in paths ==> p == first || Before(first, p)
  {
    first :| first in paths;
    var rest := paths - {first};
    while rest != {}
      invariant first in paths && rest <= paths
      invariant forall p :: p in paths && p !in rest ==> p == first || Before(first, p)
      decreases rest
    {
      var p :| p in rest;
      LessIsTotal(p.text, first.text);
      if Before(p, first) {
        forall q | q in paths && q !in rest && q != p ensures Before(p, q) {
          if q != first { LessIsTransitive(p.text, first.text, q.text); }
        }
        first := p;
      }
      rest := rest - {p};
    }
  }

  lemma DivideNext(taken: set<Path>, last: Path, rest: set<Path>, next: Path)
    requires Divides(taken, last, rest) && next in rest
    requires forall p :: p in rest ==> p == next || Before(next, p)
    ensures Divides(taken + {next}, next, rest - {next})
  {
    forall p | p in taken ensures Before(p, next) {
      if p != last { LessIsTransitive(p.text, last.text, next.text); }
    }
  }

  lemma MembersPush(page: seq<Path>, next: Path)
    ensures Members(page + [next]) == Members(page) + {next} && (page + [next])[|page|] == next
  {
    assert (page + [next])[..|page|] == page;
  }

  lemma MovedOver(all: set<Path>, taken: set<Path>, rest: set<Path>, next: Path)
    requires rest <= all && taken == all - rest && next in rest
    ensures rest - {next} <= all && taken + {next} == all - (rest - {next})
    ensures |taken + {next}| == |taken| + 1
  {
  }

  lemma DivideFirst(rest: set<Path>, next: Path)
    requires forall p :: p in rest ==> p == next || Before(next, p)
    ensures Divides({next}, next, rest - {next})
  {
  }

  /** What the query has collected, in order, with `rest` still to come. */
  ghost predicate Collected(ahead: set<Path>, page: seq<Path>, rest: set<Path>) {
    && rest <= ahead && Members(page) == ahead - rest && |Members(page)| == |page|
    && (page != [] ==> Divides(Members(page), page[|page| - 1], rest))
  }

  lemma CollectNext(ahead: set<Path>, page: seq<Path>, rest: set<Path>, next: Path)
    requires Collected(ahead, page, rest) && next in rest
    requires forall p :: p in rest ==> p == next || Before(next, p)
    ensures Collected(ahead, page + [next], rest - {next})
  {
    MembersPush(page, next);
    MovedOver(ahead, Members(page), rest, next);
    if page == [] {
      DivideFirst(rest, next);
      assert Members(page) + {next} == {next};
    } else {
      DivideNext(Members(page), page[|page| - 1], rest, next);
    }
  }

  lemma CollectedIsPage(ahead: set<Path>, page: seq<Path>, rest: set<Path>, limit: nat)
    requires Collected(ahead, page, rest) && |page| <= limit && (rest == {} || |page| == limit)
    ensures IsPage(ahead, limit, page)
  {
    assert ahead - Members(page) == rest;
  }

  method QueryPage(meta: set<Path>, matches: Path -> bool, cursor: Path, limit: nat) returns (page: seq<Path>)
    ensures IsPage(Ahead(meta, matches, cursor), limit, page)
  {
    page := TakeFirst(Ahead(meta, matches, cursor), limit);
  }

  method TakeFirst(ahead: set<Path>, limit: nat) returns (page: seq<Path>)
    ensures IsPage(ahead, limit, page)
  {
    var rest := ahead;
    page := [];
    while rest != {} && |page| < limit
      invariant Collected(ahead, page, rest) && |page| <= limit
      decreases rest
    {
      var next := First(rest);
      CollectNext(ahead, page, rest, next);
      page := page + [next];
      rest := rest - {next};
    }
    CollectedIsPage(ahead, page, rest, limit);
  }

  // ---------------------------------------------------------------------------------------
  // Durable writes
  // ---------------------------------------------------------------------------------------

  function Marks(ignored: seq<Rel>, page: seq<Path>, relOf: Path -> Option<Rel>): seq<Rel> {
    if page == [] then ignored
    else
      var k := |page| - 1;
      var before := Marks(ignored, page[..k], relOf);
      match relOf(page[k])
      case None => before
      case Some(rel) => if rel in before then before else before + [rel]
  }

  predicate IsMarked(ignored: seq<Rel>, p: Path, relOf: Path -> Option<Rel>) {
    relOf(p).Some? ==> relOf(p).value in ignored
  }

  /** Marks are only added, and each page path with a relative form is marked. */
  lemma {:induction false} MarksCoverThePage(ignored: seq<Rel>, page: seq<Path>, relOf: Path -> Option<Rel>)
    ensures ignored <= Marks(ignored, page, relOf)
    ensures forall p :: p in Members(page) ==> IsMarked(Marks(ignored, page, relOf), p, relOf)
    ensures forall rel :: rel in Marks(ignored, page, relOf) ==>
              rel in ignored || exists p :: p in Members(page) && relOf(p) == Some(rel)
  {
    if page != [] {
      var k := |page| - 1;
      MarksCoverThePage(ignored, page[..k], relOf);
    }
  }

  /** One of the row's files is in the request's match, and its marker is in the list. */
  ghost predicate Accounted(row: Row, ignored: seq<Rel>, relOf: Path -> Option<Rel>, matching: set<Path>) {
    exists p :: p in Ends(row) && p in matching && IsMarked(ignored, p, relOf)
  }

  /** Whatever row is gone, the file it went with is matched, and is marked already: for a row owned by
      a file that file, for an edge one of its two. */
  ghost predicate MarkedFirst(initial: Durable, d: Durable, relOf: Path -> Option<Rel>, matching: set<Path>) {
    && |d.tables| == |initial.tables|
    && initial.ignored <= d.ignored
    && forall t, row :: 0 <= t < |d.tables| && row in initial.tables[t] && row !in d.tables[t] ==>
         Accounted(row, d.ignored, relOf, matching)
  }

  class RepoDb {
    var now: Durable
    ghost var history: seq<Durable>

    constructor (initial: Durable)
      ensures now == initial && history == [initial]
    {
      now, history := initial, [initial];
    }

    method SetIgnored(ignored: seq<Rel>, fault: Fault) returns (ok: bool)
      modifies this
      ensures ok <==> fault.Works?
      ensures now == if fault.FailsBefore? then old(now) else old(now).(ignored := ignored)
      ensures history == old(history) + [now]
    {
      if !fault.FailsBefore? {
        now := now.(ignored := ignored);
      }
      history := history + [now];
      ok := fault.Works?;
    }

    method DeleteFrom(table: nat, paths: set<Path>, fault: Fault) returns (ok: bool)
      requires table < |now.tables|
      modifies this
      ensures ok <==> fault.Works?
      ensures now == if fault.FailsBefore? then old(now)
                     else old(now).(tables := old(now).tables[table := Cleared(old(now).tables[table], paths)])
      ensures history == old(history) + [now]
    {
      if !fault.FailsBefore? {
        now := now.(tables := now.tables[table := Cleared(now.tables[table], paths)]);
      }
      history := history + [now];
      ok := fault.Works?;
    }
  }

  ghost predicate AllMarked(initial: Durable, history: seq<Durable>, relOf: Path -> Option<Rel>, matching: set<Path>) {
    forall d :: d in history ==> MarkedFirst(initial, d, relOf, matching)
  }

  lemma PrefixIsTransitive<T>(a: seq<T>, b: seq<T>, c: seq<T>)
    requires a <= b <= c
    ensures a <= c && forall x :: x in b ==> x in c
  {
  }

  lemma MarkingKeepsMarks(initial: Durable, d: Durable, more: seq<Rel>, relOf: Path -> Option<Rel>,
                          matching: set<Path>)
    requires MarkedFirst(initial, d, relOf, matching) && d.ignored <= more
    ensures MarkedFirst(initial, d.(ignored := more), relOf, matching)
  {
    PrefixIsTransitive(initial.ignored, d.ignored, more);
    forall t, row | 0 <= t < |d.tables| && row in initial.tables[t] && row !in d.tables[t]
      ensures Accounted(row, more, relOf, matching)
    {
      assert Accounted(row, d.ignored, relOf, matching);
      var p :| p in Ends(row) && p in matching && IsMarked(d.ignored, p, relOf);
      assert IsMarked(more, p, relOf);
    }
  }

  /** Deleting what goes with marked, matched files. */
  lemma DeletingKeepsMarks(initial: Durable, d: Durable, table: nat, paths: set<Path>, relOf: Path -> Option<Rel>,
                           matching: set<Path>)
    requires MarkedFirst(initial, d, relOf, matching) && table < |d.tables|
    requires paths <= matching && forall p :: p in paths ==> IsMarked(d.ignored, p, relOf)
    ensures MarkedFirst(initial, d.(tables := d.tables[table := Cleared(d.tables[table], paths)]), relOf, matching)
  {
    forall row | row in d.tables[table] && !(Ends(row) !! paths) ensures Accounted(row, d.ignored, relOf, matching) {
      var p :| p in Ends(row) && p in paths;
    }
  }

  function SetOf(s: seq<Rel>): set<Rel> {
    set rel | rel in s
  }

  /** Adds the page's relative paths to the list, and persists the list if it grew. */
  method MarkPage(db: RepoDb, ignoredVec: seq<Rel>, ignoredSet: set<Rel>, page: seq<Path>, relOf: Path -> Option<Rel>,
                  fault: Fault, ghost initial: Durable, ghost matching: set<Path>)
    returns (newVec: seq<Rel>, newSet: set<Rel>, ok: bool)
    requires ignoredVec == db.now.ignored && ignoredSet == SetOf(ignoredVec)
    requires MarkedFirst(initial, db.now, relOf, matching) && AllMarked(initial, db.history, relOf, matching)
    modifies db
    ensures newVec == Marks(ignoredVec, page, relOf) && newSet == SetOf(newVec)
    ensures db.now.tables == old(db.now.tables)
    ensures db.now.ignored == newVec || (!ok && db.now.ignored == ignoredVec)
    ensures fault.Works? ==> ok
    ensures MarkedFirst(initial, db.now, relOf, matching) && AllMarked(initial, db.history, relOf, matching)
  {
    newVec, newSet := ignoredVec, ignoredSet;
    var added := false;
    for i := 0 to |page|
      invariant newVec == Marks(ignoredVec, page[..i], relOf) && newSet == SetOf(newVec)
      invariant !added ==> newVec == ignoredVec
    {
      assert page[..i + 1][..i] == page[..i];
      var rel := relOf(page[i]);
      if rel.Some? && rel.value !in newSet {
        newVec, newSet := newVec + [rel.value], newSet + {rel.value};
        added := true;
      }
    }
    assert page[..|page|] == page;
    ok := true;
    if added {
      MarksCoverThePage(ignoredVec, page, relOf);
      MarkingKeepsMarks(initial, db.now, newVec, relOf, matching);
      ok := db.SetIgnored(newVec, fault);
    }
  }

  /** Every table lies between its old rows and what clearing `paths` leaves of them. */
  predicate Between(before: seq<set<Row>>, now: seq<set<Row>>, paths: set<Path>) {
    |now| == |before| && forall t :: 0 <= t < |now| ==> Cleared(before[t], paths) <= now[t] <= before[t]
  }

  predicate Without(before: seq<set<Row>>, now: seq<set<Row>>, paths: set<Path>) {
    |now| == |before| && forall t :: 0 <= t < |now| ==> now[t] == Cleared(before[t], paths)
  }

  ghost predicate EveryTable(before: seq<set<Row>>, now: seq<set<Row>>, paths: set<Path>) {
    |now| == |before| && forall t :: 0 <= t < |now| ==> OnlyOthersLeft(before[t], now[t], paths)
  }

  ghost predicate EveryTableHalfway(before: seq<set<Row>>, now: seq<set<Row>>, done: set<Path>, page: set<Path>) {
    |now| == |before| && forall t :: 0 <= t < |now| ==> HalfwayLeft(before[t], now[t], done, page)
  }

  lemma WithoutLeavesOthers(before: seq<set<Row>>, now: seq<set<Row>>, paths: set<Path>)
    ensures Without(before, now, paths) <==> EveryTable(before, now, paths)
  {
    if |now| == |before| {
      forall t | 0 <= t < |now|
        ensures now[t] == Cleared(before[t], paths) <==> OnlyOthersLeft(before[t], now[t], paths)
      {
        ClearedLeavesOthers(before[t], now[t], paths);
      }
    }
  }

  lemma BetweenIsHalfway(before: seq<set<Row>>, now: seq<set<Row>>, paths: set<Path>)
    requires Between(before, now, paths)
    ensures EveryTableHalfway(before, now, {}, paths)
  {
    forall t | 0 <= t < |now| ensures HalfwayLeft(before[t], now[t], {}, paths) {
      assert {} + paths == paths;
      ClearedTwice(before[t], {}, {});
      BoundsLeaveHalfway(before[t], now[t], {}, paths);
    }
  }

  /** Deletes the page table by table, `file_meta` last; a failure leaves the rest for later. */
  method DeletePage(db: RepoDb, paths: set<Path>, relOf: Path -> Option<Rel>, fault: nat -> Fault,
                    ghost initial: Durable,
                    ghost matching: set<Path>)
    returns (ok: bool)
    requires MarkedFirst(initial, db.now, relOf, matching) && AllMarked(initial, db.history, relOf, matching)
    requires paths <= matching && forall p :: p in paths ==> IsMarked(db.now.ignored, p, relOf)
    modifies db
    ensures db.now.ignored == old(db.now.ignored)
    ensures Between(old(db.now.tables), db.now.tables, paths)
    ensures ok ==> Without(old(db.now.tables), db.now.tables, paths)
    ensures ok ==> EveryTable(old(db.now.tables), db.now.tables, paths)
    ensures EveryTableHalfway(old(db.now.tables), db.now.tables, {}, paths)
    ensures (forall k: nat :: fault(k).Works?) ==> ok
    ensures MarkedFirst(initial, db.now, relOf, matching) && AllMarked(initial, db.history, relOf, matching)
  {
    for t := 0 to |db.now.tables|
      invariant |db.now.tables| == |old(db.now.tables)| && db.now.ignored == old(db.now.ignored)
      invariant MarkedFirst(initial, db.now, relOf, matching) && AllMarked(initial, db.history, relOf, matching)
      invariant forall u :: 0 <= u < t ==> db.now.tables[u] == Cleared(old(db.now.tables)[u], paths)
      invariant forall u :: t <= u < |db.now.tables| ==> db.now.tables[u] == old(db.now.tables)[u]
    {
      DeletingKeepsMarks(initial, db.now, t, paths, relOf, matching);
      ok := db.DeleteFrom(t, paths, fault(1 + t));
      if !ok {
        BetweenIsHalfway(old(db.now.tables), db.now.tables, paths);
        return;
      }
    }
    ok := true;
    WithoutLeavesOthers(old(db.now.tables), db.now.tables, paths);
    BetweenIsHalfway(old(db.now.tables), db.now.tables, paths);
  }

  // ---------------------------------------------------------------------------------------
  // The handler
  // ---------------------------------------------------------------------------------------

  /** New markers stand for files of `paths` only. */
  ghost predicate NewMarksFrom(before: seq<Rel>, now: seq<Rel>, paths: set<Path>, relOf: Path -> Option<Rel>) {
    forall rel :: rel in now ==> rel in before || exists p :: p in paths && relOf(p) == Some(rel)
  }

  ghost predicate AllIn(ignored: seq<Rel>, paths: set<Path>, relOf: Path -> Option<Rel>) {
    forall p :: p in paths ==> IsMarked(ignored, p, relOf)
  }

  /** Exactly the rows that go with the files of `done` are gone, and exactly these files are newly marked. */
  ghost predicate Committed(initial: Durable, now: Durable, done: set<Path>, relOf: Path -> Option<Rel>) {
    && Without(initial.tables, now.tables, done)
    && AllIn(now.ignored, done, relOf)
    && NewMarksFrom(initial.ignored, now.ignored, done, relOf)
  }

  /** At most the files of `page` are half way. */
  ghost predicate Interrupted(initial: Durable, now: Durable, done: set<Path>, page: set<Path>,
                              relOf: Path -> Option<Rel>)
  {
    && |now.tables| == |initial.tables|
    && (forall t :: 0 <= t < |now.tables| ==>
          Cleared(initial.tables[t], done + page) <= now.tables[t] <= Cleared(initial.tables[t], done))
    && AllIn(now.ignored, done, relOf)
    && NewMarksFrom(initial.ignored, now.ignored, done + page, relOf)
  }

  /** What a request leaves when it has handled `done` and nothing else: of every table the rows of other
      files, and the old list with the relative forms of `done` added. */
  ghost predicate HandledExactly(before: Durable, now: Durable, done: set<Path>, relOf: Path -> Option<Rel>) {
    && EveryTable(before.tables, now.tables, done)
    && forall rel :: rel in now.ignored <==> rel in before.ignored || exists p :: p in done && relOf(p) == Some(rel)
  }

  /** The same while `page` is under way. */
  ghost predicate HandledUpTo(before: Durable, now: Durable, done: set<Path>, page: set<Path>,
                              relOf: Path -> Option<Rel>)
  {
    && EveryTableHalfway(before.tables, now.tables, done, page)
    && (forall rel :: rel in now.ignored ==>
          rel in before.ignored || exists p :: (p in done || p in page) && relOf(p) == Some(rel))
    && (forall rel :: rel in before.ignored || (exists p :: p in done && relOf(p) == Some(rel)) ==> rel in now.ignored)
  }

  lemma CommittedIsExact(before: Durable, now: Durable, done: set<Path>, relOf: Path -> Option<Rel>)
    requires Committed(before, now, done, relOf) && before.ignored <= now.ignored
    ensures HandledExactly(before, now, done, relOf)
  {
    WithoutLeavesOthers(before.tables, now.tables, done);
    forall rel | exists p :: p in done && relOf(p) == Some(rel) ensures rel in now.ignored {
      var p :| p in done && relOf(p) == Some(rel);
      assert IsMarked(now.ignored, p, relOf);
    }
  }

  lemma InterruptedIsBounded(before: Durable, now: Durable, done: set<Path>, page: set<Path>,
                             relOf: Path -> Option<Rel>)
    requires Interrupted(before, now, done, page, relOf) && before.ignored <= now.ignored
    ensures HandledUpTo(before, now, done, page, relOf)
  {
    forall t | 0 <= t < |now.tables| ensures HalfwayLeft(before.tables[t], now.tables[t], done, page) {
      BoundsLeaveHalfway(before.tables[t], now.tables[t], done, page);
    }
    forall rel | exists p :: p in done && relOf(p) == Some(rel) ensures rel in now.ignored {
      var p :| p in done && relOf(p) == Some(rel);
      assert IsMarked(now.ignored, p, relOf);
    }
    forall rel | rel in now.ignored && rel !in before.ignored
      ensures exists p :: (p in done || p in page) && relOf(p) == Some(rel)
    {
      var p :| p in done + page && relOf(p) == Some(rel);
      assert p in done || p in page;
    }
  }

  lemma NotTaken(taken: set<Path>, last: Path, rest: set<Path>, p: Path)
    requires Divides(taken, last, rest) && Before(last, p)
    ensures p !in taken
  {
    LessIsTotal(p.text, last.text);
    LessIsStrict(last.text);
  }

  lemma CursorMovesOver(meta: set<Path>, matches: Path -> bool, cursor: Path, page: seq<Path>)
    requires IsPage(Ahead(meta, matches, cursor), BATCH, page) && page != []
    ensures Ahead(meta, matches, page[|page| - 1]) == Ahead(meta, matches, cursor) - Members(page)
    ensures page[|page| - 1] in Members(page)
  {
    var last, ahead := page[|page| - 1], Ahead(meta, matches, cursor);
    assert last in Members(page);
    forall p | p in Ahead(meta, matches, last) ensures p in ahead - Members(page) {
      LessIsTransitive(cursor.text, last.text, p.text);
      NotTaken(Members(page), last, ahead - Members(page), p);
    }
    forall p | p in ahead - Members(page) ensures p in Ahead(meta, matches, last) {
      assert Before(last, p);
    }
  }

  lemma PageCommits(initial: Durable, before: Durable, now: Durable, done: set<Path>, page: seq<Path>,
                    relOf: Path -> Option<Rel>)
    requires Committed(initial, before, done, relOf)
    requires Without(before.tables, now.tables, Members(page))
    requires now.ignored == Marks(before.ignored, page, relOf)
    ensures Committed(initial, now, done + Members(page), relOf)
  {
    MarksCoverThePage(before.ignored, page, relOf);
    forall t | 0 <= t < |now.tables| ensures now.tables[t] == Cleared(initial.tables[t], done + Members(page)) {
      ClearedTwice(initial.tables[t], done, Members(page));
    }
  }

  lemma PageInterrupts(initial: Durable, before: Durable, now: Durable, done: set<Path>, page: seq<Path>,
                       relOf: Path -> Option<Rel>)
    requires Committed(initial, before, done, relOf)
    requires Between(before.tables, now.tables, Members(page))
    requires now.ignored == Marks(before.ignored, page, relOf) || now.ignored == before.ignored
    ensures Interrupted(initial, now, done, Members(page), relOf)
  {
    MarksCoverThePage(before.ignored, page, relOf);
    forall t | 0 <= t < |now.tables|
      ensures Cleared(initial.tables[t], done + Members(page)) <= now.tables[t] <= Cleared(initial.tables[t], done)
    {
      ClearedTwice(initial.tables[t], done, Members(page));
    }
  }

  /** One page: markers first, then the rows. */
  method IgnorePage(db: RepoDb, ignoredVec: seq<Rel>, ignoredSet: set<Rel>, absPaths: seq<Path>,
                    relOf: Path -> Option<Rel>, fault: nat -> Fault, ghost initial: Durable, ghost done: set<Path>,
                    ghost matching: set<Path>)
    returns (newVec: seq<Rel>, newSet: set<Rel>, ok: bool)
    requires ignoredVec == db.now.ignored && ignoredSet == SetOf(ignoredVec)
    requires MarkedFirst(initial, db.now, relOf, matching) && AllMarked(initial, db.history, relOf, matching)
    requires Committed(initial, db.now, done, relOf) && Members(absPaths) <= matching
    modifies db
    ensures MarkedFirst(initial, db.now, relOf, matching) && AllMarked(initial, db.history, relOf, matching)
    ensures ok ==> Committed(initial, db.now, done + Members(absPaths), relOf)
    ensures ok ==> newVec == db.now.ignored && newSet == SetOf(newVec)
    ensures !ok ==> Interrupted(initial, db.now, done, Members(absPaths), relOf)
    ensures (forall k: nat :: fault(k).Works?) ==> ok
  {
    ghost var before := db.now;
    newVec, newSet, ok := MarkPage(db, ignoredVec, ignoredSet, absPaths, relOf, fault(0), initial, matching);
    if !ok {
      PageInterrupts(initial, before, db.now, done, absPaths, relOf);
      return;
    }
    MarksCoverThePage(before.ignored, absPaths, relOf);
    ok := DeletePage(db, Members(absPaths), relOf, fault, initial, matching);
    if ok {
      PageCommits(initial, before, db.now, done, absPaths, relOf);
    } else {
      PageInterrupts(initial, before, db.now, done, absPaths, relOf);
    }
  }

  /** Between pages nothing is half way. */
  lemma NothingHalfway(initial: Durable, now: Durable, done: set<Path>, relOf: Path -> Option<Rel>)
    requires Committed(initial, now, done, relOf)
    ensures Interrupted(initial, now, done, {}, relOf)
  {
    assert done + {} == done;
  }

  /** The rows the whole request is about. */
  ghost function Matching(initial: Durable, matches: Path -> bool): set<Path>
    requires |initial.tables| == TABLES
  {
    Ahead(FilesIn(initial.tables[TABLES - 1]), matches, Path(""))
  }

  /** The request is about the files that have a row of their own in the last table, match, and have a name. */
  lemma MatchingIsByRow(initial: Durable, matches: Path -> bool)
    requires |initial.tables| == TABLES
    ensures forall p :: p in Matching(initial, matches)
              <==> Owned(p) in initial.tables[TABLES - 1] && matches(p) && p.text != ""
  {
  }

  /** The loop between two pages: `done` is handled, the rest of the match lies behind the cursor. */
  ghost predicate Paused(initial: Durable, now: Durable, matches: Path -> bool, cursor: Path, done: set<Path>,
                         relOf: Path -> Option<Rel>)
    requires |initial.tables| == TABLES
  {
    && Committed(initial, now, done, relOf)
    && MarkedFirst(initial, now, relOf, Matching(initial, matches))
    && done <= Matching(initial, matches)
    && Ahead(FilesIn(initial.tables[TABLES - 1]), matches, cursor) == Matching(initial, matches) - done
  }

  lemma PageIsNext(initial: Durable, now: Durable, matches: Path -> bool, cursor: Path, done: set<Path>,
                   relOf: Path -> Option<Rel>, page: seq<Path>)
    requires |initial.tables| == TABLES && Paused(initial, now, matches, cursor, done, relOf)
    requires IsPage(Ahead(FilesIn(now.tables[TABLES - 1]), matches, cursor), BATCH, page)
    ensures Members(page) <= Matching(initial, matches) - done && |done + Members(page)| == |done| + |page|
    ensures |page| < BATCH ==> done + Members(page) == Matching(initial, matches)
    ensures page != [] ==> Members(page) != {}
    ensures page != [] ==> Ahead(FilesIn(initial.tables[TABLES - 1]), matches, page[|page| - 1])
                           == Matching(initial, matches) - (done + Members(page))
  {
    var meta := FilesIn(initial.tables[TABLES - 1]);
    StillAhead(initial, now, matches, cursor, done, relOf);
    TakenFromRest(Matching(initial, matches), done, Members(page));
    if page != [] { CursorMovesOver(meta, matches, cursor, page); }
  }

  lemma StillAhead(initial: Durable, now: Durable, matches: Path -> bool, cursor: Path, done: set<Path>,
                   relOf: Path -> Option<Rel>)
    requires |initial.tables| == TABLES && Paused(initial, now, matches, cursor, done, relOf)
    ensures Ahead(FilesIn(now.tables[TABLES - 1]), matches, cursor) == Matching(initial, matches) - done
  {
    ClearedFiles(initial.tables[TABLES - 1], done);
  }

  lemma TakenFromRest(all: set<Path>, done: set<Path>, taken: set<Path>)
    requires done <= all && taken <= all - done
    ensures |done + taken| == |done| + |taken|
    ensures (all - done) - taken == all - (done + taken)
    ensures taken == all - done ==> done + taken == all
  {
  }

  /** The list covers everything deleted exactly when every deleted file has a relative form; a row
      whose path is not below the root is deleted without a marker. */
  lemma IgnoredCoversDeletedExactlyBelowTheRoot(initial: Durable, now: Durable, done: set<Path>,
                                                relOf: Path -> Option<Rel>)
    requires Committed(initial, now, done, relOf)
    ensures (forall p :: p in done ==> exists rel :: rel in now.ignored && relOf(p) == Some(rel))
            <==> (forall p :: p in done ==> relOf(p).Some?)
  {
    forall p | p in done && relOf(p).Some? ensures exists rel :: rel in now.ignored && relOf(p) == Some(rel) {
      assert IsMarked(now.ignored, p, relOf);
      assert relOf(p) == Some(relOf(p).value);
    }
  }

  method IgnoreFiles(db: RepoDb, matches: Path -> bool, relOf: Path -> Option<Rel>, queryFails: nat -> bool,
                     fault: nat -> nat -> Fault)
    returns (response: Response, ghost done: set<Path>, ghost page: set<Path>)
    requires |db.now.tables| == TABLES && db.history == [db.now]
    modifies db
    ensures AllMarked(old(db.now), db.history, relOf, Matching(old(db.now), matches))
    ensures response.count == |done| && done <= Matching(old(db.now), matches)
    ensures response.Failed? ==>
              page <= Matching(old(db.now), matches) - done && Interrupted(old(db.now), db.now, done, page, relOf)
    ensures response.Done? ==> done == Matching(old(db.now), matches) && Committed(old(db.now), db.now, done, relOf)
    ensures response.Failed? ==> HandledUpTo(old(db.now), db.now, done, page, relOf)
    ensures response.Done? ==> HandledExactly(old(db.now), db.now, done, relOf)
    ensures response.Done? ==>
              forall p :: p in done <==> Owned(p) in old(db.now).tables[TABLES - 1] && matches(p) && p.text != ""
    ensures (forall k: nat :: !queryFails(k)) && (forall k: nat, o: nat :: fault(k)(o).Works?) ==> response.Done?
  {
    ghost var initial := db.now;
    ghost var matching := Matching(initial, matches);
    var ignoredVec := db.now.ignored;
    var ignoredSet := SetOf(ignoredVec);
    var cursor, total := Path(""), 0;
    var number: nat := 0;
    done, page := {}, {};
    while true
      invariant Paused(initial, db.now, matches, cursor, done, relOf) && AllMarked(initial, db.history, relOf, matching)
      invariant ignoredVec == db.now.ignored && ignoredSet == SetOf(ignoredVec) && total == |done| && page == {}
      decreases matching - done
    {
      NothingHalfway(initial, db.now, done, relOf);
      InterruptedIsBounded(initial, db.now, done, {}, relOf);
      CommittedIsExact(initial, db.now, done, relOf);
      MatchingIsByRow(initial, matches);
      if queryFails(number) {
        return Failed(total), done, page;
      }
      var absPaths := QueryPage(FilesIn(db.now.tables[TABLES - 1]), matches, cursor, BATCH);
      PageIsNext(initial, db.now, matches, cursor, done, relOf, absPaths);
      if absPaths == [] {
        return Done(total), done, page;
      }
      cursor := absPaths[|absPaths| - 1];
      page := Members(absPaths);
      var ok;
      ignoredVec, ignoredSet, ok := IgnorePage(db, ignoredVec, ignoredSet, absPaths, relOf, fault(number), initial,
                                               done, matching);
      if !ok {
        InterruptedIsBounded(initial, db.now, done, page, relOf);
        return Failed(total), done, page;
      }
      done, page := done + page, {};
      total := total + |absPaths|;
      number := number + 1;
      if |absPaths| < BATCH {
        CommittedIsExact(initial, db.now, done, relOf);
        return Done(total), done, page;
      }
    }
  }

  // ---------------------------------------------------------------------------------------
  // What the request does to other files
  // ---------------------------------------------------------------------------------------

  /** A file that was not handled keeps all its own rows, and loses exactly the edges that join it to a
      handled file. */
  lemma OtherFilesLoseExactlySharedEdges(initial: Durable, now: Durable, done: set<Path>, relOf: Path -> Option<Rel>,
                                         file: Path, t: nat, row: Row)
    requires Committed(initial, now, done, relOf) && file !in done
    requires t < |initial.tables| && row in initial.tables[t] && file in Ends(row)
    ensures row !in now.tables[t] <==> row.Edge? && exists other :: other in Ends(row) && other in done
  {
    if row.Edge? && row !in now.tables[t] {
      var other :| other in Ends(row) && other in done;
    }
  }

  /** "Untouched" holds of a file that was not handled exactly when no edge joins it to a handled one. */
  lemma UntouchedExactlyWhenUnlinked(initial: Durable, now: Durable, done: set<Path>, relOf: Path -> Option<Rel>,
                                     file: Path)
    requires Committed(initial, now, done, relOf) && file !in done
    ensures (forall t, row :: 0 <= t < |initial.tables| && row in initial.tables[t] && file in Ends(row) ==>
               row in now.tables[t])
            <==> (forall t, row :: 0 <= t < |initial.tables| && row in initial.tables[t] && file in Ends(row) ==>
                    Ends(row) !! done)
  {
    forall t, row | 0 <= t < |initial.tables| && row in initial.tables[t]
      ensures row in now.tables[t] <==> Ends(row) !! done
    {
    }
  }

  function AllTables(first: set<Row>, meta: set<Row>): (tables: seq<set<Row>>)
    ensures |tables| == TABLES && tables[0] == first && tables[TABLES - 1] == meta
  {
    [first, {}, {}, {}, {}, {}, {}, {}, meta]
  }

  /** Ignoring `a` alone, with nothing failing, takes an edge away from `b`. */
  method AnUnmatchedFileLosesAnEdge() returns (before: Durable, after: Durable, a: Path, b: Path)
    ensures |before.tables| == |after.tables| == TABLES
    ensures a != b && Edge(b, a) in before.tables[0] && Edge(b, a) !in after.tables[0]
    ensures Owned(b) in after.tables[TABLES - 1] && forall rel :: rel in after.ignored ==> rel == Rel("a")
  {
    a, b := Path("/r/a"), Path("/r/b");
    before := Durable([], AllTables({Edge(b, a)}, {Owned(a), Owned(b)}));
    var db := new RepoDb(before);
    var relOf := (p: Path) => if p == a then Some(Rel("a")) else None;
    assert before.tables[TABLES - 1] == {Owned(a), Owned(b)};
    assert FilesIn(before.tables[TABLES - 1]) == {a, b} by {
      assert Owned(a) in before.tables[TABLES - 1] && Owned(b) in before.tables[TABLES - 1];
    }
    assert Less("", a.text);
    assert Matching(before, (p: Path) => p == a) == {a};
    var response, done, page := IgnoreFiles(db, (p: Path) => p == a, relOf, _ => false, _ => (_ => Works));
    after := db.now;
  }

  /** A row outside the root is deleted, with nothing failing, and no marker is written. */
  method ARowOutsideTheRootGoesUnmarked() returns (before: Durable, after: Durable, a: Path)
    ensures |before.tables| == TABLES && Owned(a) in before.tables[TABLES - 1]
    ensures forall t :: 0 <= t < |after.tables| ==> Owned(a) !in after.tables[t]
    ensures forall rel :: rel !in after.ignored
  {
    a := Path("/elsewhere/a");
    before := Durable([], AllTables({}, {Owned(a)}));
    var db := new RepoDb(before);
    assert FilesIn(before.tables[TABLES - 1]) == {a} by { assert Owned(a) in before.tables[TABLES - 1]; }
    assert Less("", a.text);
    assert Matching(before, (p: Path) => true) == {a};
    var response, done, page := IgnoreFiles(db, (p: Path) => true, (p: Path) => None, _ => false, _ => (_ => Works));
    after := db.now;
  }
}
