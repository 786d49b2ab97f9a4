/**
 Merging overlapping result blocks before they are shown (`src/mcp.rs`).

 `MergeOverlappingBlocks` keeps the source's shape: group by file, sort each group by first line,
 one merge pass that grows the last run in place, and a final sort by earliest original index. What
 a merged run means is said by `WellRun`, without reference to the pass that builds it.
 */
module BlockMerge {
  import opened Options
  import opened Sequences

  type u32 = n: nat | n <= 0xFFFF_FFFF

  datatype File = File(path: string)
  datatype Name = Name(text: string)

  /** A count with the files and names it belongs to; callees leave `files` empty. */
  datatype Stats = Stats(count: Option<nat>, files: Option<nat>, names: seq<Name>)

  /** `duplicates` stands for the sorted, deduplicated list of identical copies. */
  datatype Block = Block(file: File, lineStart: u32, lineEnd: u32, duplicates: set<Name>,
                         callers: Stats, callees: Stats, symbols: seq<Name>)

  datatype Item = Item(index: nat, block: Block)

  /** A merged block, the smallest index among what it absorbed, and what it absorbed. */
  datatype Run = Run(minIndex: nat, block: Block, originals: seq<Item>)

  // ---------------------------------------------------------------------------------------
  // What a run means
  // ---------------------------------------------------------------------------------------

  predicate StartsBefore(a: Item, b: Item) {
    a.block.lineStart <= b.block.lineStart
  }

  predicate InOrder(items: seq<Item>) {
    |items| <= 1 ||
    (InOrder(items[..|items| - 1]) && StartsBefore(items[|items| - 2], items[|items| - 1]))
  }

  lemma {:induction false} OrderOfPrefix(items: seq<Item>, k: nat)
    requires InOrder(items) && k <= |items|
    ensures InOrder(items[..k])
    ensures forall it :: it in items[..k] ==> items[0].block.lineStart <= it.block.lineStart
    decreases |items|
  {
    if k == |items| {
      assert items[..k] == items;
      if k > 1 {
        OrderOfPrefix(items[..k - 1], k - 1);
        assert items[..k - 1][..k - 1] == items[..k - 1];
        assert items[k - 2] in items[..k - 1];
      }
    } else {
      OrderOfPrefix(items[..|items| - 1], k);
      assert items[..|items| - 1][..k] == items[..k];
    }
  }

  /** One file, one list of copies, and the exact span of `items`. */
  predicate Spans(block: Block, items: seq<Item>) {
    && items != []
    && block.lineStart == items[0].block.lineStart
    && (forall it :: it in items ==>
          it.block.file == block.file && it.block.duplicates == block.duplicates && it.block.lineEnd <= block.lineEnd)
    && (exists it :: it in items && it.block.lineEnd == block.lineEnd)
  }

  /** No uncovered line between one item and those before it. */
  predicate Gapless(items: seq<Item>) {
    |items| <= 1 ||
    (var k := |items| - 1; Gapless(items[..k]) && Reached(items[..k], items[k].block.lineStart))
  }

  predicate Reached(items: seq<Item>, line: nat) {
    exists it :: it in items && line <= it.block.lineEnd + 1
  }

  predicate Earliest(index: nat, items: seq<Item>) {
    && (exists it :: it in items && it.index == index)
    && (forall it :: it in items ==> index <= it.index)
  }

  function CountOf(s: Stats): nat {
    s.count.GetOr(0)
  }

  /** `s` is, whole, the first of `all` that reaches the largest count. */
  predicate FirstLargest(s: Stats, all: seq<Stats>) {
    exists j :: 0 <= j < |all| && IsFirstLargest(s, all, j)
  }

  predicate IsFirstLargest(s: Stats, all: seq<Stats>, j: nat)
    requires j < |all|
  {
    && s == all[j]
    && (forall i :: 0 <= i < j ==> CountOf(all[i]) < CountOf(s))
    && (forall i :: j < i < |all| ==> CountOf(all[i]) <= CountOf(s))
  }

  function CallersOf(items: seq<Item>): (r: seq<Stats>)
    ensures |r| == |items|
  {
    seq(|items|, i requires 0 <= i < |items| => items[i].block.callers)
  }

  function CalleesOf(items: seq<Item>): (r: seq<Stats>)
    ensures |r| == |items|
  {
    seq(|items|, i requires 0 <= i < |items| => items[i].block.callees)
  }

  function SymbolsOf(items: seq<Item>): seq<Name> {
    if items == [] then [] else SymbolsOf(items[..|items| - 1]) + items[|items| - 1].block.symbols
  }

  predicate WellPlaced(r: Run) {
    Spans(r.block, r.originals) && InOrder(r.originals) && Gapless(r.originals) && Earliest(r.minIndex, r.originals)
  }

  predicate WellLabelled(block: Block, items: seq<Item>) {
    && FirstLargest(block.callers, CallersOf(items))
    && FirstLargest(block.callees, CalleesOf(items))
    && block.symbols == SymbolsOf(items)
  }

  predicate WellRun(r: Run) {
    WellPlaced(r) && WellLabelled(r.block, r.originals)
  }

  /** `line + 1` as a release build adds: it wraps at the largest line number. */
  function Successor(line: u32): u32 {
    if line == 0xFFFF_FFFF then 0 else line + 1
  }

  /** The guard of the merge pass. */
  predicate Joins(current: Block, next: Block) {
    next.lineStart <= Successor(current.lineEnd) && next.duplicates == current.duplicates
  }

  function Busier(current: Stats, next: Stats): Stats {
    if CountOf(next) > CountOf(current) then next else current
  }

  lemma BusierIsFirstLargest(s: Stats, all: seq<Stats>, next: Stats)
    requires FirstLargest(s, all)
    ensures FirstLargest(Busier(s, next), all + [next])
  {
    var j :| 0 <= j < |all| && IsFirstLargest(s, all, j);
    var k := if CountOf(next) > CountOf(s) then |all| else j;
    assert IsFirstLargest(Busier(s, next), all + [next], k);
  }

  lemma GrowSpan(block: Block, items: seq<Item>, next: Item, grown: Block)
    requires Spans(block, items) && Joins(block, next.block) && next.block.file == block.file
    requires grown.file == block.file && grown.duplicates == block.duplicates && grown.lineStart == block.lineStart
    requires grown.lineEnd == if next.block.lineEnd > block.lineEnd then next.block.lineEnd else block.lineEnd
    ensures Spans(grown, items + [next])
  {
    var last :| last in items && last.block.lineEnd == block.lineEnd;
    assert last in items + [next] && next in items + [next];
    assert (items + [next])[0] == items[0];
  }

  lemma GrowOrder(items: seq<Item>, next: Item)
    requires InOrder(items) && items != []
    requires StartsBefore(items[|items| - 1], next)
    ensures InOrder(items + [next])
  {
    var all := items + [next];
    Pushed(items, next);
    assert all[|all| - 2] == items[|items| - 1];
  }

  lemma GrowGapless(block: Block, items: seq<Item>, next: Item)
    requires Spans(block, items) && Gapless(items) && Joins(block, next.block)
    ensures Gapless(items + [next])
  {
    Pushed(items, next);
    var last :| last in items && last.block.lineEnd == block.lineEnd;
  }

  lemma GrowIndex(index: nat, items: seq<Item>, next: Item)
    requires Earliest(index, items)
    ensures Earliest(if next.index < index then next.index else index, items + [next])
  {
    var it :| it in items && it.index == index;
    assert it in items + [next] && next in items + [next];
  }

  lemma GrowStats(items: seq<Item>, next: Item)
    ensures CallersOf(items + [next]) == CallersOf(items) + [next.block.callers]
    ensures CalleesOf(items + [next]) == CalleesOf(items) + [next.block.callees]
    ensures SymbolsOf(items + [next]) == SymbolsOf(items) + next.block.symbols
  {
    Pushed(items, next);
  }

  lemma AloneIsWell(it: Item)
    ensures WellRun(Run(it.index, it.block, [it]))
  {
    assert it in [it];
    assert IsFirstLargest(it.block.callers, CallersOf([it]), 0);
    assert IsFirstLargest(it.block.callees, CalleesOf([it]), 0);
    assert SymbolsOf([it]) == [] + it.block.symbols;
  }

  // ---------------------------------------------------------------------------------------
  // The merge pass over one file
  // ---------------------------------------------------------------------------------------

  function Flatten(runs: seq<Run>): seq<Item> {
    if runs == [] then [] else Flatten(runs[..|runs| - 1]) + runs[|runs| - 1].originals
  }

  lemma FlattenPush(runs: seq<Run>, r: Run)
    ensures Flatten(runs + [r]) == Flatten(runs) + r.originals
  {
    Pushed(runs, r);
  }

  predicate AllWell(runs: seq<Run>) {
    forall r :: r in runs ==> WellRun(r)
  }

  /** Two neighbouring runs do not join. */
  predicate Maximal(runs: seq<Run>) {
    forall k :: 0 <= k < |runs| - 1 ==> BreaksBetween(runs[k], runs[k + 1])
  }

  predicate BreaksBetween(r: Run, s: Run) {
    s.originals != [] && !Joins(r.block, s.originals[0].block)
  }

  lemma MaximalPush(runs: seq<Run>, r: Run)
    requires Maximal(runs) && (runs != [] ==> BreaksBetween(runs[|runs| - 1], r))
    ensures Maximal(runs + [r])
  {
    var all := runs + [r];
    forall k | 0 <= k < |all| - 1 ensures BreaksBetween(all[k], all[k + 1]) {
      if k < |runs| - 1 { assert BreaksBetween(runs[k], runs[k + 1]); }
    }
  }

  lemma AllWellPush(runs: seq<Run>, r: Run)
    requires AllWell(runs) && WellRun(r)
    ensures AllWell(runs + [r])
  {
  }

  /** Putting a run at the end, behind a run it does not join. */
  lemma PushRun(runs: seq<Run>, r: Run)
    requires AllWell(runs) && Maximal(runs) && WellRun(r)
    requires runs != [] ==> BreaksBetween(runs[|runs| - 1], r)
    ensures AllWell(runs + [r]) && Maximal(runs + [r]) && Flatten(runs + [r]) == Flatten(runs) + r.originals
  {
    FlattenPush(runs, r);
    MaximalPush(runs, r);
    AllWellPush(runs, r);
  }

  /** What is known of the runs before the last one. */
  lemma PopRun(runs: seq<Run>)
    requires AllWell(runs) && Maximal(runs) && runs != []
    ensures var before := runs[..|runs| - 1];
            && Flatten(runs) == Flatten(before) + runs[|runs| - 1].originals
            && AllWell(before) && Maximal(before) && WellRun(runs[|runs| - 1])
            && (before != [] ==> BreaksBetween(before[|before| - 1], runs[|runs| - 1]))
  {
    var before := runs[..|runs| - 1];
    forall k | 0 <= k < |before| - 1 ensures BreaksBetween(before[k], before[k + 1]) {
      assert BreaksBetween(runs[k], runs[k + 1]);
    }
    if before != [] { assert BreaksBetween(runs[|runs| - 2], runs[|runs| - 1]); }
  }

  predicate OneFile(items: seq<Item>, file: File) {
    forall it :: it in items ==> it.block.file == file
  }

  /** Grows the run `current` by `next`; the two statistics each move as one. */
  method Absorb(current: Run, next: Item) returns (grown: Run)
    requires WellRun(current) && next.block.file == current.block.file && Joins(current.block, next.block)
    requires current.originals[|current.originals| - 1].block.lineStart <= next.block.lineStart
    ensures WellRun(grown) && grown.originals == current.originals + [next]
    ensures grown.block.symbols == current.block.symbols + next.block.symbols
    ensures grown.block.lineStart == current.block.lineStart && grown.block.duplicates == current.block.duplicates
  {
    var lineEnd, minIndex := current.block.lineEnd, current.minIndex;
    var callers, callees := current.block.callers, current.block.callees;
    if next.block.lineEnd > lineEnd {
      lineEnd := next.block.lineEnd;
    }
    if next.index < minIndex {
      minIndex := next.index;
    }
    if next.block.callers.count.GetOr(0) > callers.count.GetOr(0) {
      callers := next.block.callers;
    }
    if next.block.callees.count.GetOr(0) > callees.count.GetOr(0) {
      callees := next.block.callees;
    }
    var block := current.block.(lineEnd := lineEnd, callers := callers, callees := callees,
                                symbols := current.block.symbols + next.block.symbols);
    grown := Run(minIndex, block, current.originals + [next]);
    GrowPlace(current, next, grown);
    GrowLabels(current.block, current.originals, next, block);
  }

  lemma GrowPlace(r: Run, next: Item, grown: Run)
    requires WellPlaced(r) && Joins(r.block, next.block) && next.block.file == r.block.file
    requires r.originals[|r.originals| - 1].block.lineStart <= next.block.lineStart
    requires grown.originals == r.originals + [next]
    requires grown.minIndex == if next.index < r.minIndex then next.index else r.minIndex
    requires grown.block.file == r.block.file && grown.block.duplicates == r.block.duplicates
    requires grown.block.lineStart == r.block.lineStart
    requires grown.block.lineEnd == if next.block.lineEnd > r.block.lineEnd then next.block.lineEnd else r.block.lineEnd
    ensures WellPlaced(grown)
  {
    GrowSpan(r.block, r.originals, next, grown.block);
    GrowOrder(r.originals, next);
    GrowGapless(r.block, r.originals, next);
    GrowIndex(r.minIndex, r.originals, next);
  }

  lemma GrowLabels(block: Block, items: seq<Item>, next: Item, grown: Block)
    requires WellLabelled(block, items)
    requires grown.callers == Busier(block.callers, next.block.callers)
    requires grown.callees == Busier(block.callees, next.block.callees)
    requires grown.symbols == block.symbols + next.block.symbols
    ensures WellLabelled(grown, items + [next])
  {
    GrowStats(items, next);
    BusierIsFirstLargest(block.callers, CallersOf(items), next.block.callers);
    BusierIsFirstLargest(block.callees, CalleesOf(items), next.block.callees);
  }

  /** One turn of the merge pass: `next` joins the last run or starts a run of its own. */
  method MergeNext(merged: seq<Run>, next: Item) returns (after: seq<Run>)
    requires AllWell(merged) && Maximal(merged)
    requires InOrder(Flatten(merged) + [next])
    requires OneFile(Flatten(merged), next.block.file)
    ensures AllWell(after) && Maximal(after) && Flatten(after) == Flatten(merged) + [next]
  {
    if merged != [] {
      var before, current := merged[..|merged| - 1], merged[|merged| - 1];
      PopRun(merged);
      LastOfTail(Flatten(before), current, next);
      var limit := Successor(current.block.lineEnd);
      if next.block.lineStart <= limit && next.block.duplicates == current.block.duplicates {
        var grown := Absorb(current, next);
        PushRun(before, grown);
        Assoc(Flatten(before), current.originals, [next]);
        return before + [grown];
      }
    }
    AloneIsWell(next);
    var alone := Run(next.index, next.block, [next]);
    PushRun(merged, alone);
    after := merged + [alone];
  }

  /** What the group's order and file say of its last run. */
  lemma LastOfTail(before: seq<Item>, current: Run, next: Item)
    requires WellRun(current) && InOrder(before + current.originals + [next])
    requires OneFile(before + current.originals, next.block.file)
    ensures current.block.file == next.block.file
    ensures current.originals[|current.originals| - 1].block.lineStart <= next.block.lineStart
  {
    var items, all := current.originals, before + current.originals;
    assert all[|before|] == items[0] && items[0] in all && items[0] in items;
    assert all[|all| - 1] == items[|items| - 1];
    assert (all + [next])[..|all|] == all;
  }

  lemma PrefixIsReady(group: seq<Item>, i: nat, file: File)
    requires InOrder(group) && OneFile(group, file) && i < |group|
    ensures group[..i] + [group[i]] == group[..i + 1] && InOrder(group[..i + 1])
    ensures OneFile(group[..i], group[i].block.file)
  {
    TakeOneMore(group, i);
    OrderOfPrefix(group, i + 1);
  }

  method MergeGroup(group: seq<Item>, ghost file: File) returns (merged: seq<Run>)
    requires InOrder(group) && OneFile(group, file)
    ensures Flatten(merged) == group && AllWell(merged) && Maximal(merged)
  {
    merged := [];
    for i := 0 to |group|
      invariant Flatten(merged) == group[..i] && AllWell(merged) && Maximal(merged)
    {
      PrefixIsReady(group, i, file);
      merged := MergeNext(merged, group[i]);
    }
    assert group[..|group|] == group;
  }

  // ---------------------------------------------------------------------------------------
  // All files
  // ---------------------------------------------------------------------------------------

  predicate IsItem(blocks: seq<Block>, it: Item) {
    it.index < |blocks| && it.block == blocks[it.index]
  }

  /** The blocks of one file, in their original order. */
  function ItemsOf(blocks: seq<Block>, file: File): seq<Item> {
    if blocks == [] then []
    else
      var k := |blocks| - 1;
      ItemsOf(blocks[..k], file) + if blocks[k].file == file then [Item(k, blocks[k])] else []
  }

  function FilesOf(blocks: seq<Block>): set<File> {
    if blocks == [] then {} else FilesOf(blocks[..|blocks| - 1]) + {blocks[|blocks| - 1].file}
  }

  lemma {:induction false} ItemsOfCounts(blocks: seq<Block>, file: File, it: Item)
    ensures multiset(ItemsOf(blocks, file))[it] == if IsItem(blocks, it) && it.block.file == file then 1 else 0
  {
    if blocks != [] {
      var k := |blocks| - 1;
      ItemsOfCounts(blocks[..k], file, it);
    }
  }

  lemma {:induction false} FilesOfCovers(blocks: seq<Block>, i: nat)
    requires i < |blocks|
    ensures blocks[i].file in FilesOf(blocks)
  {
    if i < |blocks| - 1 { FilesOfCovers(blocks[..|blocks| - 1], i); }
  }

  function GroupIn(byFile: map<File, seq<Item>>, f: File): seq<Item> {
    if f in byFile then byFile[f] else []
  }

  /** Each file has its blocks, in their original order. */
  ghost predicate Grouped(byFile: map<File, seq<Item>>, blocks: seq<Block>) {
    byFile.Keys == FilesOf(blocks) && forall f :: GroupIn(byFile, f) == ItemsOf(blocks, f)
  }

  lemma GroupOne(byFile: map<File, seq<Item>>, blocks: seq<Block>, b: Block)
    requires Grouped(byFile, blocks)
    ensures Grouped(byFile[b.file := GroupIn(byFile, b.file) + [Item(|blocks|, b)]], blocks + [b])
  {
    var more, all := byFile[b.file := GroupIn(byFile, b.file) + [Item(|blocks|, b)]], blocks + [b];
    Pushed(blocks, b);
    assert FilesOf(all) == FilesOf(blocks) + {b.file};
    forall f ensures GroupIn(more, f) == ItemsOf(all, f) {
      assert GroupIn(byFile, f) == ItemsOf(blocks, f);
      assert ItemsOf(all, f) == ItemsOf(blocks, f) + if b.file == f then [Item(|blocks|, b)] else [];
    }
  }

  method GroupByFile(blocks: seq<Block>) returns (byFile: map<File, seq<Item>>)
    ensures byFile.Keys == FilesOf(blocks)
    ensures forall f :: f in byFile ==> byFile[f] == ItemsOf(blocks, f)
  {
    byFile := map[];
    for i := 0 to |blocks|
      invariant Grouped(byFile, blocks[..i])
    {
      GroupOne(byFile, blocks[..i], blocks[i]);
      TakeOneMore(blocks, i);
      var key := blocks[i].file;
      byFile := byFile[key := GroupIn(byFile, key) + [Item(i, blocks[i])]];
    }
    assert blocks[..|blocks|] == blocks;
    forall f | f in byFile ensures byFile[f] == ItemsOf(blocks, f) {
      assert GroupIn(byFile, f) == ItemsOf(blocks, f);
    }
  }

  /** The group in order of first line; the order among equal first lines is left open. */
  method SortByLineStart(group: seq<Item>) returns (sorted: seq<Item>)
    ensures InOrder(sorted) && multiset(sorted) == multiset(group)
  {
    var rest := multiset(group);
    sorted := [];
    while rest != multiset{}
      invariant InOrder(sorted) && multiset(sorted) + rest == multiset(group)
      invariant sorted != [] ==> forall it :: it in rest ==> sorted[|sorted| - 1].block.lineStart <= it.block.lineStart
      decreases |rest|
    {
      var next := LeastLineStart(rest);
      GrowOrderOrStart(sorted, next);
      sorted := sorted + [next];
      rest := rest - multiset{next};
    }
  }

  lemma GrowOrderOrStart(items: seq<Item>, next: Item)
    requires InOrder(items)
    requires items != [] ==> items[|items| - 1].block.lineStart <= next.block.lineStart
    ensures InOrder(items + [next])
  {
    if items != [] { GrowOrder(items, next); }
  }

  method LeastLineStart(items: multiset<Item>) returns (least: Item)
    requires items != multiset{}
    ensures least in items && forall it :: it in items ==> least.block.lineStart <= it.block.lineStart
  {
    least :| least in items;
    var rest := items - multiset{least};
    while rest != multiset{}
      invariant rest <= items && least in items
      invariant forall it :: it in items && it !in rest ==> least.block.lineStart <= it.block.lineStart
      decreases |rest|
    {
      var it :| it in rest;
      if it.block.lineStart < least.block.lineStart { least := it; }
      rest := rest - multiset{it};
    }
  }

  method LeastIndex(runs: multiset<Run>) returns (least: Run)
    requires runs != multiset{}
    ensures least in runs && forall r :: r in runs ==> least.minIndex <= r.minIndex
  {
    least :| least in runs;
    var rest := runs - multiset{least};
    while rest != multiset{}
      invariant rest <= runs && least in runs
      invariant forall r :: r in runs && r !in rest ==> least.minIndex <= r.minIndex
      decreases |rest|
    {
      var r :| r in rest;
      if r.minIndex < least.minIndex { least := r; }
      rest := rest - multiset{r};
    }
  }

  predicate ByIndex(runs: seq<Run>) {
    forall i, j :: 0 <= i < j < |runs| ==> runs[i].minIndex <= runs[j].minIndex
  }

  method SortByIndex(runs: seq<Run>) returns (sorted: seq<Run>)
    ensures ByIndex(sorted) && multiset(sorted) == multiset(runs)
  {
    var rest := multiset(runs);
    sorted := [];
    while rest != multiset{}
      invariant ByIndex(sorted) && multiset(sorted) + rest == multiset(runs)
      invariant forall r, s :: r in sorted && s in rest ==> r.minIndex <= s.minIndex
      decreases |rest|
    {
      var next := LeastIndex(rest);
      sorted := sorted + [next];
      rest := rest - multiset{next};
    }
  }

  // ---------------------------------------------------------------------------------------
  // Partition
  // ---------------------------------------------------------------------------------------

  lemma {:induction false} FlattenAppend(a: seq<Run>, b: seq<Run>)
    ensures Flatten(a + b) == Flatten(a) + Flatten(b)
  {
    if b == [] {
      assert a + b == a;
    } else {
      var k := |b| - 1;
      FlattenAppend(a, b[..k]);
      TakeAppend(a, b, k);
      Assoc(Flatten(a), Flatten(b[..k]), b[k].originals);
    }
  }

  lemma FlattenSplit(runs: seq<Run>, i: nat)
    requires i < |runs|
    ensures Flatten(runs) == Flatten(runs[..i]) + runs[i].originals + Flatten(runs[i + 1..])
    ensures Flatten(runs[..i] + runs[i + 1..]) == Flatten(runs[..i]) + Flatten(runs[i + 1..])
  {
    SplitAt(runs, i);
    FlattenAppend(runs[..i] + [runs[i]], runs[i + 1..]);
    FlattenPush(runs[..i], runs[i]);
    FlattenAppend(runs[..i], runs[i + 1..]);
  }

  lemma {:induction false} FlattenPermutes(a: seq<Run>, b: seq<Run>)
    requires multiset(a) == multiset(b)
    ensures multiset(Flatten(a)) == multiset(Flatten(b))
    decreases |a|
  {
    if a == [] {
      assert |multiset(b)| == 0;
    } else {
      var k := |a| - 1;
      assert a[k] in multiset(b);
      var i :| 0 <= i < |b| && b[i] == a[k];
      SameRest(a, b, i);
      FlattenPermutes(a[..k], b[..i] + b[i + 1..]);
      FlattenSplit(b, i);
    }
  }

  lemma FlattenHas(runs: seq<Run>, i: nat, it: Item)
    requires i < |runs| && it in runs[i].originals
    ensures it in Flatten(runs)
  {
    FlattenSplit(runs, i);
  }

  lemma {:induction false} FlattenFrom(runs: seq<Run>, it: Item) returns (r: Run)
    requires it in Flatten(runs)
    ensures r in runs && it in r.originals
  {
    var k := |runs| - 1;
    if it in runs[k].originals {
      r := runs[k];
    } else {
      r := FlattenFrom(runs[..k], it);
    }
  }

  /** An item absorbed by two runs is counted twice. */
  lemma CountedTwice(runs: seq<Run>, i: nat, j: nat, it: Item)
    requires i < j < |runs| && it in runs[i].originals && it in runs[j].originals
    ensures multiset(Flatten(runs))[it] >= 2
  {
    FlattenSplit(runs, j);
    assert runs[..j][i] == runs[i];
    FlattenHas(runs[..j], i, it);
  }

  /** Every input block is absorbed by one run, once. */
  ghost predicate Partition(blocks: seq<Block>, runs: seq<Run>) {
    forall it :: multiset(Flatten(runs))[it] == if IsItem(blocks, it) then 1 else 0
  }

  // ---------------------------------------------------------------------------------------
  // Coverage
  // ---------------------------------------------------------------------------------------

  predicate Holds(b: Block, file: File, duplicates: set<Name>, line: nat) {
    b.file == file && b.duplicates == duplicates && b.lineStart <= line <= b.lineEnd
  }

  predicate Covered(blocks: seq<Block>, file: File, duplicates: set<Name>, line: nat) {
    exists i :: 0 <= i < |blocks| && Holds(blocks[i], file, duplicates, line)
  }

  function BlocksOf(runs: seq<Run>): (blocks: seq<Block>)
    ensures |blocks| == |runs| && forall k :: 0 <= k < |runs| ==> blocks[k] == runs[k].block
  {
    seq(|runs|, k requires 0 <= k < |runs| => runs[k].block)
  }

  /** A line between the first start and some end lies in one of the items. */
  lemma {:induction false} NoHole(items: seq<Item>, line: nat, end: Item) returns (it: Item)
    requires InOrder(items) && Gapless(items) && items != []
    requires items[0].block.lineStart <= line <= end.block.lineEnd && end in items
    ensures it in items && it.block.lineStart <= line <= it.block.lineEnd
  {
    var k := |items| - 1;
    var last := items[k];
    if last.block.lineStart <= line <= last.block.lineEnd {
      it := last;
    } else {
      if end !in items[..k] {
        assert end == last;
        var before :| before in items[..k] && last.block.lineStart <= before.block.lineEnd + 1;
        it := NoHole(items[..k], line, before);
      } else {
        it := NoHole(items[..k], line, end);
      }
    }
  }

  lemma RunCovers(r: Run, line: nat) returns (it: Item)
    requires WellRun(r) && r.block.lineStart <= line <= r.block.lineEnd
    ensures it in r.originals && Holds(it.block, r.block.file, r.block.duplicates, line)
  {
    var end :| end in r.originals && end.block.lineEnd == r.block.lineEnd;
    it := NoHole(r.originals, line, end);
  }

  lemma RunContains(r: Run, it: Item)
    requires WellRun(r) && it in r.originals
    ensures it.block.file == r.block.file && it.block.duplicates == r.block.duplicates
    ensures r.block.lineStart <= it.block.lineStart && it.block.lineEnd <= r.block.lineEnd
  {
    OrderOfPrefix(r.originals, |r.originals|);
    assert r.originals[..|r.originals|] == r.originals;
  }

  /** The run that absorbed block `i`. */
  lemma RunOfBlock(blocks: seq<Block>, runs: seq<Run>, i: nat) returns (r: Run)
    requires Partition(blocks, runs) && i < |blocks|
    ensures r in runs && Item(i, blocks[i]) in r.originals
  {
    var it := Item(i, blocks[i]);
    assert multiset(Flatten(runs))[it] == 1;
    r := FlattenFrom(runs, it);
  }

  lemma AbsorbedIsInput(blocks: seq<Block>, runs: seq<Run>, r: Run, it: Item)
    requires Partition(blocks, runs) && r in runs && it in r.originals
    ensures IsItem(blocks, it)
  {
    var k :| 0 <= k < |runs| && runs[k] == r;
    FlattenHas(runs, k, it);
    assert multiset(Flatten(runs))[it] > 0;
  }

  lemma CoverageIsExact(blocks: seq<Block>, runs: seq<Run>, file: File, duplicates: set<Name>, line: nat)
    requires Partition(blocks, runs) && AllWell(runs)
    ensures Covered(blocks, file, duplicates, line) <==> Covered(BlocksOf(runs), file, duplicates, line)
  {
    if Covered(blocks, file, duplicates, line) {
      var i :| 0 <= i < |blocks| && Holds(blocks[i], file, duplicates, line);
      var r := RunOfBlock(blocks, runs, i);
      RunContains(r, Item(i, blocks[i]));
      var k :| 0 <= k < |runs| && runs[k] == r;
      assert Holds(BlocksOf(runs)[k], file, duplicates, line);
    }
    if Covered(BlocksOf(runs), file, duplicates, line) {
      var k :| 0 <= k < |runs| && Holds(BlocksOf(runs)[k], file, duplicates, line);
      var it := RunCovers(runs[k], line);
      AbsorbedIsInput(blocks, runs, runs[k], it);
      assert Holds(blocks[it.index], file, duplicates, line);
    }
  }

  // ---------------------------------------------------------------------------------------
  // Separation and order
  // ---------------------------------------------------------------------------------------

  /** Every block of the file is well formed, ends before the largest line number and carries the
      same list of copies. */
  predicate Plain(blocks: seq<Block>, file: File) {
    && (forall b :: b in blocks && b.file == file ==> b.lineStart <= b.lineEnd < 0xFFFF_FFFF)
    && (forall b, c :: b in blocks && c in blocks && b.file == file && c.file == file ==> b.duplicates == c.duplicates)
  }

  /** Neither overlapping nor adjacent. */
  predicate Apart(b: Block, c: Block) {
    b.lineEnd + 1 < c.lineStart || c.lineEnd + 1 < b.lineStart
  }

  ghost predicate Settled(blocks: seq<Block>, runs: seq<Run>) {
    forall r, s :: r in runs && s in runs && r != s && r.block.file == s.block.file && Plain(blocks, r.block.file)
      ==> Apart(r.block, s.block)
  }

  predicate Priority(runs: seq<Run>) {
    forall i, j :: 0 <= i < j < |runs| ==> runs[i].minIndex < runs[j].minIndex
  }

  ghost predicate MergedFrom(blocks: seq<Block>, runs: seq<Run>) {
    Partition(blocks, runs) && AllWell(runs) && Settled(blocks, runs) && Priority(runs)
  }

  predicate PlainBlock(b: Block, duplicates: set<Name>) {
    b.lineStart <= b.lineEnd < 0xFFFF_FFFF && b.duplicates == duplicates
  }

  /** Neighbours that do not join are apart, and so is everything further on. */
  lemma {:induction false} ApartInGroup(merged: seq<Run>, i: nat, j: nat)
    requires AllWell(merged) && Maximal(merged) && i < j < |merged|
    requires forall k :: 0 <= k < |merged| ==> PlainBlock(merged[k].block, merged[0].block.duplicates)
    ensures merged[i].block.lineEnd + 1 < merged[j].block.lineStart
  {
    var r, s := merged[j - 1], merged[j];
    assert s in merged && WellRun(s);
    assert BreaksBetween(r, s) && PlainBlock(r.block, s.block.duplicates);
    BreakIsApart(r, s);
    if i < j - 1 {
      ApartInGroup(merged, i, j - 1);
    }
  }

  lemma BreakIsApart(r: Run, s: Run)
    requires WellRun(s) && BreaksBetween(r, s)
    requires PlainBlock(r.block, s.block.duplicates)
    ensures r.block.lineEnd + 1 < s.block.lineStart
  {
    assert s.originals[0] in s.originals;
    RunContains(s, s.originals[0]);
  }

  predicate IsOfFile(blocks: seq<Block>, it: Item, file: File) {
    IsItem(blocks, it) && it.block.file == file
  }

  ghost predicate IsFileGroup(blocks: seq<Block>, group: seq<Item>, file: File) {
    forall it :: multiset(group)[it] == if IsOfFile(blocks, it, file) then 1 else 0
  }

  lemma GroupIsFile(blocks: seq<Block>, file: File, group: seq<Item>)
    requires multiset(group) == multiset(ItemsOf(blocks, file))
    ensures IsFileGroup(blocks, group, file) && OneFile(group, file)
  {
    forall it ensures multiset(group)[it] == if IsOfFile(blocks, it, file) then 1 else 0 {
      ItemsOfCounts(blocks, file, it);
    }
    forall it | it in group ensures IsOfFile(blocks, it, file) {
      assert it in multiset(group);
    }
  }

  lemma GroupRunIsFile(blocks: seq<Block>, file: File, merged: seq<Run>, r: Run)
    requires AllWell(merged) && IsFileGroup(blocks, Flatten(merged), file) && r in merged
    ensures r.block.file == file
    ensures forall it :: it in r.originals ==> IsOfFile(blocks, it, file)
  {
    var k :| 0 <= k < |merged| && merged[k] == r;
    forall it | it in r.originals ensures IsOfFile(blocks, it, file) {
      FlattenHas(merged, k, it);
      assert it in multiset(Flatten(merged));
    }
    assert r.originals[0] in r.originals;
  }

  /** In a plain file a run is well formed and carries the file's one list. */
  lemma PlainRun(blocks: seq<Block>, file: File, merged: seq<Run>, r: Run) returns (b: Block)
    requires AllWell(merged) && IsFileGroup(blocks, Flatten(merged), file) && r in merged && Plain(blocks, file)
    ensures r.block.lineStart <= r.block.lineEnd < 0xFFFF_FFFF
    ensures b in blocks && b.file == file && b.duplicates == r.block.duplicates
  {
    GroupRunIsFile(blocks, file, merged, r);
    var it := r.originals[0];
    assert it in r.originals;
    b := blocks[it.index];
    assert b in blocks;
    var last :| last in r.originals && last.block.lineEnd == r.block.lineEnd;
    assert blocks[last.index] in blocks;
  }

  lemma GroupApart(blocks: seq<Block>, file: File, merged: seq<Run>, i: nat, j: nat)
    requires AllWell(merged) && Maximal(merged) && IsFileGroup(blocks, Flatten(merged), file)
    requires Plain(blocks, file) && i < j < |merged|
    ensures Apart(merged[i].block, merged[j].block)
  {
    var first := PlainRun(blocks, file, merged, merged[0]);
    forall k | 0 <= k < |merged| ensures PlainBlock(merged[k].block, merged[0].block.duplicates) {
      var b := PlainRun(blocks, file, merged, merged[k]);
    }
    ApartInGroup(merged, i, j);
  }

  lemma PairsApart(merged: seq<Run>, r: Run, s: Run)
    requires forall i, j :: 0 <= i < j < |merged| ==> Apart(merged[i].block, merged[j].block)
    requires r in merged && s in merged && r != s
    ensures Apart(r.block, s.block)
  {
    var i :| 0 <= i < |merged| && merged[i] == r;
    var j :| 0 <= j < |merged| && merged[j] == s;
    assert if i < j then Apart(merged[i].block, merged[j].block) else Apart(merged[j].block, merged[i].block);
  }

  lemma GroupSettled(blocks: seq<Block>, file: File, merged: seq<Run>)
    requires AllWell(merged) && Maximal(merged) && IsFileGroup(blocks, Flatten(merged), file)
    ensures Settled(blocks, merged)
    ensures forall r :: r in merged ==> r.block.file == file
  {
    forall r | r in merged ensures r.block.file == file {
      GroupRunIsFile(blocks, file, merged, r);
    }
    if Plain(blocks, file) {
      forall i, j | 0 <= i < j < |merged| ensures Apart(merged[i].block, merged[j].block) {
        GroupApart(blocks, file, merged, i, j);
      }
      forall r, s | r in merged && s in merged && r != s ensures Apart(r.block, s.block) {
        PairsApart(merged, r, s);
      }
    }
  }

  /** What the loop over files has collected while `todo` is left. */
  ghost predicate Collected(blocks: seq<Block>, runs: seq<Run>, todo: set<File>) {
    && (forall it :: multiset(Flatten(runs))[it] == if IsItem(blocks, it) && it.block.file !in todo then 1 else 0)
    && AllWell(runs)
    && Settled(blocks, runs)
    && (forall r :: r in runs ==> r.block.file !in todo)
  }

  lemma CollectFile(blocks: seq<Block>, runs: seq<Run>, todo: set<File>, file: File, merged: seq<Run>)
    requires Collected(blocks, runs, todo) && file in todo
    requires AllWell(merged) && Maximal(merged) && IsFileGroup(blocks, Flatten(merged), file)
    ensures Collected(blocks, runs + merged, todo - {file})
  {
    GroupSettled(blocks, file, merged);
    forall it ensures multiset(Flatten(runs + merged))[it]
                      == if IsItem(blocks, it) && it.block.file !in todo - {file} then 1 else 0 {
      CollectItem(blocks, runs, todo, file, merged, it);
    }
    SettledTogether(blocks, runs, merged, file);
  }

  lemma CollectItem(blocks: seq<Block>, runs: seq<Run>, todo: set<File>, file: File, merged: seq<Run>, it: Item)
    requires Collected(blocks, runs, todo) && file in todo && IsFileGroup(blocks, Flatten(merged), file)
    ensures multiset(Flatten(runs + merged))[it]
            == if IsItem(blocks, it) && it.block.file !in todo - {file} then 1 else 0
  {
    FlattenAppend(runs, merged);
    assert multiset(Flatten(runs))[it] == if IsItem(blocks, it) && it.block.file !in todo then 1 else 0;
    assert multiset(Flatten(merged))[it] == if IsOfFile(blocks, it, file) then 1 else 0;
  }

  /** Runs of one more file are settled among the runs of others. */
  lemma SettledTogether(blocks: seq<Block>, runs: seq<Run>, merged: seq<Run>, file: File)
    requires Settled(blocks, runs) && Settled(blocks, merged)
    requires forall r :: r in runs ==> r.block.file != file
    requires forall r :: r in merged ==> r.block.file == file
    ensures Settled(blocks, runs + merged)
  {
  }

  lemma IndexesDiffer(blocks: seq<Block>, runs: seq<Run>, i: nat, j: nat)
    requires Partition(blocks, runs) && AllWell(runs) && i < j < |runs|
    ensures runs[i].minIndex != runs[j].minIndex
  {
    var r, s := runs[i], runs[j];
    assert WellRun(r) && WellRun(s);
    var a :| a in r.originals && a.index == r.minIndex;
    var b :| b in s.originals && b.index == s.minIndex;
    AbsorbedIsInput(blocks, runs, r, a);
    AbsorbedIsInput(blocks, runs, s, b);
    if a == b {
      CountedTwice(runs, i, j, a);
    }
  }

  lemma SortedIsMerged(blocks: seq<Block>, positioned: seq<Run>, runs: seq<Run>)
    requires Collected(blocks, positioned, {})
    requires multiset(runs) == multiset(positioned) && ByIndex(runs)
    ensures MergedFrom(blocks, runs)
  {
    FlattenPermutes(runs, positioned);
    forall r | r in runs ensures r in positioned {
      assert r in multiset(runs);
    }
    forall i, j | 0 <= i < j < |runs| ensures runs[i].minIndex < runs[j].minIndex {
      IndexesDiffer(blocks, runs, i, j);
    }
  }

  /** The files may come in any order, and equal first lines in any order. */
  method MergeOverlappingBlocks(blocks: seq<Block>) returns (out: seq<Block>, ghost runs: seq<Run>)
    ensures out == BlocksOf(runs) && MergedFrom(blocks, runs)
    ensures forall f, d, line :: Covered(blocks, f, d, line) <==> Covered(out, f, d, line)
  {
    var byFile := GroupByFile(blocks);
    var positioned: seq<Run> := [];
    var todo := byFile.Keys;
    forall i | 0 <= i < |blocks| ensures blocks[i].file in todo { FilesOfCovers(blocks, i); }
    while todo != {}
      invariant todo <= byFile.Keys && Collected(blocks, positioned, todo)
      decreases todo
    {
      var file :| file in todo;
      var group := SortByLineStart(byFile[file]);
      GroupIsFile(blocks, file, group);
      var merged := MergeGroup(group, file);
      CollectFile(blocks, positioned, todo, file, merged);
      positioned := positioned + merged;
      todo := todo - {file};
    }
    var sorted := SortByIndex(positioned);
    runs := sorted;
    SortedIsMerged(blocks, positioned, runs);
    out := [];
    for k := 0 to |sorted|
      invariant out == BlocksOf(runs[..k])
    {
      out := out + [sorted[k].block];
    }
    assert runs[..|sorted|] == runs;
    forall f, d, line ensures Covered(blocks, f, d, line) <==> Covered(out, f, d, line) {
      CoverageIsExact(blocks, runs, f, d, line);
    }
  }

  // ---------------------------------------------------------------------------------------
  // What does not depend on the order of files or of equal first lines
  // ---------------------------------------------------------------------------------------

  /** The run covering `line` in another merge of the same blocks. */
  lemma CoveringRun(blocks: seq<Block>, runs: seq<Run>, other: seq<Run>, r: Run, line: nat) returns (s: Run)
    requires MergedFrom(blocks, runs) && MergedFrom(blocks, other)
    requires r in runs && r.block.lineStart <= line <= r.block.lineEnd
    ensures s in other && Holds(s.block, r.block.file, r.block.duplicates, line)
  {
    var it := RunCovers(r, line);
    AbsorbedIsInput(blocks, runs, r, it);
    s := RunOfBlock(blocks, other, it.index);
    RunContains(s, it);
  }

  /** A run of a plain file, in one merge, has its exact span and position in every other merge. */
  lemma SpansAreDetermined(blocks: seq<Block>, runs: seq<Run>, other: seq<Run>, r: Run) returns (s: Run)
    requires MergedFrom(blocks, runs) && MergedFrom(blocks, other)
    requires r in runs && Plain(blocks, r.block.file)
    ensures s in other && s.block.file == r.block.file && s.block.duplicates == r.block.duplicates
    ensures s.block.lineStart == r.block.lineStart && s.block.lineEnd == r.block.lineEnd
    ensures s.minIndex == r.minIndex
  {
    RunIsPlain(blocks, runs, r);
    s := CoveringRun(blocks, runs, other, r, r.block.lineStart);
    RunIsPlain(blocks, other, s);
    SpanWithin(blocks, runs, other, r, s);
    SpanWithin(blocks, other, runs, s, r);
    MinIndexBelow(blocks, runs, other, r, s);
    MinIndexBelow(blocks, other, runs, s, r);
  }

  lemma RunIsPlain(blocks: seq<Block>, runs: seq<Run>, r: Run)
    requires MergedFrom(blocks, runs) && r in runs && Plain(blocks, r.block.file)
    ensures r.block.lineStart <= r.block.lineEnd
  {
    var it := r.originals[0];
    assert it in r.originals;
    AbsorbedIsInput(blocks, runs, r, it);
    assert blocks[it.index] in blocks;
  }

  lemma TouchingIsSame(blocks: seq<Block>, runs: seq<Run>, r: Run, t: Run, line: nat)
    requires Settled(blocks, runs) && r in runs && t in runs && Plain(blocks, r.block.file)
    requires r.block.file == t.block.file && t.block.lineStart <= line <= t.block.lineEnd
    requires r.block.lineStart <= line + 1 && line <= r.block.lineEnd + 1
    ensures t == r
  {
  }

  /** Two touching runs of different merges: `s` reaches no line just outside `r`. */
  lemma NoReachOut(blocks: seq<Block>, runs: seq<Run>, other: seq<Run>, r: Run, s: Run, line: nat)
    requires MergedFrom(blocks, runs) && MergedFrom(blocks, other) && r in runs && s in other
    requires Plain(blocks, r.block.file) && r.block.file == s.block.file
    requires s.block.lineStart <= line <= s.block.lineEnd
    requires r.block.lineStart <= line + 1 && line <= r.block.lineEnd + 1
    ensures r.block.lineStart <= line <= r.block.lineEnd
  {
    var t := CoveringRun(blocks, other, runs, s, line);
    TouchingIsSame(blocks, runs, r, t, line);
  }

  lemma SpanWithin(blocks: seq<Block>, runs: seq<Run>, other: seq<Run>, r: Run, s: Run)
    requires MergedFrom(blocks, runs) && MergedFrom(blocks, other) && r in runs && s in other
    requires Plain(blocks, r.block.file) && r.block.file == s.block.file
    requires r.block.lineStart <= s.block.lineEnd && s.block.lineStart <= r.block.lineEnd
    requires r.block.lineStart <= r.block.lineEnd
    ensures r.block.lineStart <= s.block.lineStart && s.block.lineEnd <= r.block.lineEnd
  {
    if s.block.lineStart < r.block.lineStart {
      NoReachOut(blocks, runs, other, r, s, r.block.lineStart - 1);
    }
    if r.block.lineEnd < s.block.lineEnd {
      NoReachOut(blocks, runs, other, r, s, r.block.lineEnd + 1);
    }
  }

  lemma MinIndexBelow(blocks: seq<Block>, runs: seq<Run>, other: seq<Run>, r: Run, s: Run)
    requires MergedFrom(blocks, runs) && MergedFrom(blocks, other) && r in runs && s in other
    requires Plain(blocks, r.block.file) && r.block.file == s.block.file
    requires r.block.lineStart == s.block.lineStart && s.block.lineEnd == r.block.lineEnd
    ensures s.minIndex <= r.minIndex
  {
    assert WellRun(r);
    var it :| it in r.originals && it.index == r.minIndex;
    AbsorbedIsInput(blocks, runs, r, it);
    RunContains(r, it);
    var b := blocks[it.index];
    assert b in blocks && b.lineStart <= b.lineEnd;
    var t := RunOfBlock(blocks, other, it.index);
    RunContains(t, it);
    TouchingIsSame(blocks, other, s, t, b.lineStart);
    assert WellRun(s);
  }

  // ---------------------------------------------------------------------------------------
  // What a merged block reports
  // ---------------------------------------------------------------------------------------

  /** A block's count, files and names all come from one absorbed block, and no absorbed block has a
      larger count; callees likewise. */
  lemma StatsTravelTogether(blocks: seq<Block>, runs: seq<Run>, k: nat) returns (i: nat, j: nat)
    requires MergedFrom(blocks, runs) && k < |runs|
    ensures i < |blocks| && runs[k].block.callers == blocks[i].callers && Item(i, blocks[i]) in runs[k].originals
    ensures j < |blocks| && runs[k].block.callees == blocks[j].callees && Item(j, blocks[j]) in runs[k].originals
    ensures forall it :: it in runs[k].originals ==>
              && CountOf(it.block.callers) <= CountOf(blocks[i].callers)
              && CountOf(it.block.callees) <= CountOf(blocks[j].callees)
  {
    var r := runs[k];
    assert r in runs && WellRun(r);
    var a := LargestAt(r.block.callers, CallersOf(r.originals));
    var b := LargestAt(r.block.callees, CalleesOf(r.originals));
    AbsorbedIsInput(blocks, runs, r, r.originals[a]);
    AbsorbedIsInput(blocks, runs, r, r.originals[b]);
    i, j := r.originals[a].index, r.originals[b].index;
    forall it | it in r.originals
      ensures CountOf(it.block.callers) <= CountOf(blocks[i].callers)
      ensures CountOf(it.block.callees) <= CountOf(blocks[j].callees)
    {
      var c :| 0 <= c < |r.originals| && r.originals[c] == it;
      assert CallersOf(r.originals)[c] == it.block.callers && CalleesOf(r.originals)[c] == it.block.callees;
    }
  }

  lemma LargestAt(s: Stats, all: seq<Stats>) returns (j: nat)
    requires FirstLargest(s, all)
    ensures j < |all| && s == all[j] && forall i :: 0 <= i < |all| ==> CountOf(all[i]) <= CountOf(s)
  {
    j :| 0 <= j < |all| && IsFirstLargest(s, all, j);
  }

  function SymbolBag(blocks: seq<Block>): multiset<Name> {
    if blocks == [] then multiset{}
    else SymbolBag(blocks[..|blocks| - 1]) + multiset(blocks[|blocks| - 1].symbols)
  }

  function Items(blocks: seq<Block>): (items: seq<Item>)
    ensures |items| == |blocks|
    ensures forall k :: 0 <= k < |blocks| ==> items[k] == Item(k, blocks[k])
  {
    seq(|blocks|, k requires 0 <= k < |blocks| => Item(k, blocks[k]))
  }

  lemma {:induction false} BagOfItems(blocks: seq<Block>)
    ensures multiset(SymbolsOf(Items(blocks))) == SymbolBag(blocks)
  {
    if blocks != [] {
      var k := |blocks| - 1;
      BagOfItems(blocks[..k]);
      assert Items(blocks)[..k] == Items(blocks[..k]);
    }
  }

  lemma {:induction false} SymbolsAppend(a: seq<Item>, b: seq<Item>)
    ensures SymbolsOf(a + b) == SymbolsOf(a) + SymbolsOf(b)
  {
    if b == [] {
      assert a + b == a;
    } else {
      var k := |b| - 1;
      SymbolsAppend(a, b[..k]);
      TakeAppend(a, b, k);
      Assoc(SymbolsOf(a), SymbolsOf(b[..k]), b[k].block.symbols);
    }
  }

  lemma BlocksOfFront(runs: seq<Run>)
    requires runs != []
    ensures BlocksOf(runs)[..|runs| - 1] == BlocksOf(runs[..|runs| - 1])
  {
  }

  lemma {:induction false} BagOfRuns(runs: seq<Run>)
    requires AllWell(runs)
    ensures multiset(SymbolsOf(Flatten(runs))) == SymbolBag(BlocksOf(runs))
  {
    if runs != [] {
      var k := |runs| - 1;
      assert runs[k] in runs;
      BagOfRuns(runs[..k]);
      SymbolsAppend(Flatten(runs[..k]), runs[k].originals);
      BlocksOfFront(runs);
    }
  }

  lemma {:induction false} SymbolsPermute(a: seq<Item>, b: seq<Item>)
    requires multiset(a) == multiset(b)
    ensures multiset(SymbolsOf(a)) == multiset(SymbolsOf(b))
    decreases |a|
  {
    if a == [] {
      assert |multiset(b)| == 0;
    } else {
      var k := |a| - 1;
      assert a[k] in multiset(b);
      var i :| 0 <= i < |b| && b[i] == a[k];
      SameRest(a, b, i);
      SymbolsPermute(a[..k], b[..i] + b[i + 1..]);
      SplitAt(b, i);
      SymbolsAppend(b[..i] + [b[i]], b[i + 1..]);
      SymbolsAppend(b[..i], b[i + 1..]);
      Pushed(b[..i], b[i]);
    }
  }

  lemma {:induction false} ItemsCount(blocks: seq<Block>, it: Item)
    ensures multiset(Items(blocks))[it] == if IsItem(blocks, it) then 1 else 0
  {
    if blocks != [] {
      var k := |blocks| - 1;
      ItemsCount(blocks[..k], it);
      assert Items(blocks) == Items(blocks[..k]) + [Item(k, blocks[k])];
    }
  }

  /** No symbol is lost or invented by merging. */
  lemma SymbolsAreConserved(blocks: seq<Block>, runs: seq<Run>)
    requires MergedFrom(blocks, runs)
    ensures SymbolBag(BlocksOf(runs)) == SymbolBag(blocks)
  {
    forall it ensures multiset(Flatten(runs))[it] == multiset(Items(blocks))[it] { ItemsCount(blocks, it); }
    assert multiset(Flatten(runs)) == multiset(Items(blocks));
    SymbolsPermute(Flatten(runs), Items(blocks));
    BagOfRuns(runs);
    BagOfItems(blocks);
  }
}
