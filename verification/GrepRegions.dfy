/**
 The addressable regions of a `grep` answer (`src/fs_tools.rs`).

 The walk is a list of files, `None` where the source skips one (too large, unreadable, binary);
 the regular expression is any predicate on lines.
 */
module GrepRegions {
  import opened Numbers
  import opened Options
  import opened Sequences

  const GREP_MAX_MATCHES: nat := 200
  const GREP_MAX_PER_FILE: nat := 20
  const GREP_MAX_FILES_SCANNED: nat := 20_000

  datatype Path = Path(text: string)
  datatype Line = Line(text: string)
  datatype SourceFile = SourceFile(relPath: Path, lines: seq<Line>)
  datatype Region = Region(relPath: Path, lineStart: nat, lineEnd: nat)

  /** The indices of the matching lines among the first `n`. */
  function Hits(lines: seq<Line>, isMatch: Line -> bool, n: nat): seq<nat>
    requires n <= |lines|
  {
    if n == 0 then []
    else if isMatch(lines[n - 1]) then Hits(lines, isMatch, n - 1) + [n - 1]
    else Hits(lines, isMatch, n - 1)
  }

  /** The band of lines, numbered from 1, around the match at index `idx`. */
  function Low(idx: nat, context: nat): nat {
    Max(if idx + 1 >= context then idx + 1 - context else 0, 1)
  }

  function High(idx: nat, context: nat, total: nat): nat {
    Min(idx + 1 + context, Max(total, 1))
  }

  predicate InBand(idx: nat, context: nat, total: nat, line: nat) {
    Low(idx, context) <= line <= High(idx, context, total)
  }

  /** The band holds exactly the lines of the file at most `context` away from the matching one. */
  lemma BandIsAroundTheMatch(idx: nat, context: nat, total: nat, line: nat)
    requires idx < total
    ensures InBand(idx, context, total, line)
            <==> 1 <= line <= total && line <= idx + 1 + context && idx + 1 <= line + context
  {
  }

  predicate InSomeBand(hits: seq<nat>, context: nat, total: nat, line: nat) {
    exists k :: 0 <= k < |hits| && InBand(hits[k], context, total, line)
  }

  predicate InSomeRegion(regions: seq<Region>, line: nat) {
    exists k :: 0 <= k < |regions| && Within(regions[k], line)
  }

  predicate Within(r: Region, line: nat) {
    r.lineStart <= line <= r.lineEnd
  }

  /** Increasing, with an uncovered line between any two. */
  predicate Separated(regions: seq<Region>) {
    forall i, j :: 0 <= i < j < |regions| ==> regions[i].lineEnd + 1 < regions[j].lineStart
  }

  predicate OfFile(regions: seq<Region>, relPath: Path) {
    forall r :: r in regions ==> r.relPath == relPath && 1 <= r.lineStart <= r.lineEnd
  }

  /** The regions of one file say exactly what its recorded matches cover. */
  ghost predicate Covers(regions: seq<Region>, relPath: Path, hits: seq<nat>, context: nat, total: nat) {
    && OfFile(regions, relPath)
    && Separated(regions)
    && forall line :: InSomeRegion(regions, line) <==> InSomeBand(hits, context, total, line)
  }

  /** Two lists of regions with the same coverage are the same list. */
  lemma {:induction false} CoverageDecides(a: seq<Region>, b: seq<Region>, relPath: Path)
    requires OfFile(a, relPath) && OfFile(b, relPath) && Separated(a) && Separated(b)
    requires forall line :: InSomeRegion(a, line) <==> InSomeRegion(b, line)
    ensures a == b
  {
    if a == [] {
      if b != [] { CoversItsFirst(b, relPath); }
    } else {
      CoversItsFirst(a, relPath);
      assert InSomeRegion(b, a[0].lineStart);
      FirstsAgree(a, b, relPath);
      RestsAgree(a, b, relPath);
      CoverageDecides(a[1..], b[1..], relPath);
      FirstAndRest(a);
      FirstAndRest(b);
    }
  }

  lemma RestsAgree(a: seq<Region>, b: seq<Region>, relPath: Path)
    requires OfFile(a, relPath) && OfFile(b, relPath) && Separated(a) && Separated(b)
    requires a != [] && b != [] && a[0] == b[0]
    requires forall line :: InSomeRegion(a, line) <==> InSomeRegion(b, line)
    ensures OfFile(a[1..], relPath) && OfFile(b[1..], relPath) && Separated(a[1..]) && Separated(b[1..])
    ensures forall line :: InSomeRegion(a[1..], line) <==> InSomeRegion(b[1..], line)
  {
    forall line ensures InSomeRegion(a[1..], line) <==> InSomeRegion(b[1..], line) {
      RestCovers(a, relPath, line);
      RestCovers(b, relPath, line);
      assert InSomeRegion(a, line) <==> InSomeRegion(b, line);
    }
  }

  lemma CoversItsFirst(a: seq<Region>, relPath: Path)
    requires OfFile(a, relPath) && a != []
    ensures InSomeRegion(a, a[0].lineStart)
  {
    assert Within(a[0], a[0].lineStart);
  }

  lemma RestCovers(a: seq<Region>, relPath: Path, line: nat)
    requires OfFile(a, relPath) && Separated(a) && a != []
    ensures InSomeRegion(a[1..], line) <==> InSomeRegion(a, line) && a[0].lineEnd < line
  {
    if InSomeRegion(a[1..], line) {
      var k :| 0 <= k < |a[1..]| && Within(a[1..][k], line);
      assert Within(a[k + 1], line) && a[0].lineEnd + 1 < a[k + 1].lineStart;
    }
    if InSomeRegion(a, line) && a[0].lineEnd < line {
      var k :| 0 <= k < |a| && Within(a[k], line);
      assert a[1..][k - 1] == a[k];
    }
  }

  lemma FirstsAgree(a: seq<Region>, b: seq<Region>, relPath: Path)
    requires OfFile(a, relPath) && OfFile(b, relPath) && Separated(a) && Separated(b) && a != [] && b != []
    requires forall line :: InSomeRegion(a, line) <==> InSomeRegion(b, line)
    ensures a[0] == b[0]
  {
    FirstStartsBefore(a, b, relPath);
    FirstStartsBefore(b, a, relPath);
    FirstEndsBefore(a, b, relPath);
    FirstEndsBefore(b, a, relPath);
  }

  lemma FirstStartsBefore(a: seq<Region>, b: seq<Region>, relPath: Path)
    requires OfFile(a, relPath) && OfFile(b, relPath) && Separated(a) && a != [] && b != []
    requires forall line :: InSomeRegion(a, line) <==> InSomeRegion(b, line)
    ensures a[0].lineStart <= b[0].lineStart
  {
    assert Within(b[0], b[0].lineStart) && InSomeRegion(b, b[0].lineStart);
    assert InSomeRegion(a, b[0].lineStart);
    var k :| 0 <= k < |a| && Within(a[k], b[0].lineStart);
  }

  lemma FirstEndsBefore(a: seq<Region>, b: seq<Region>, relPath: Path)
    requires OfFile(a, relPath) && OfFile(b, relPath) && Separated(b) && a != [] && b != []
    requires forall line :: InSomeRegion(a, line) <==> InSomeRegion(b, line)
    requires a[0].lineStart == b[0].lineStart
    ensures a[0].lineEnd <= b[0].lineEnd
  {
    var line := b[0].lineEnd + 1;
    assert Within(a[0], line) ==> InSomeRegion(a, line);
    GapAfterFirst(b);
  }

  lemma GapAfterFirst(b: seq<Region>)
    requires Separated(b) && b != []
    ensures !InSomeRegion(b, b[0].lineEnd + 1)
  {
  }

  // ---------------------------------------------------------------------------------------
  // One file
  // ---------------------------------------------------------------------------------------

  /** The matches a file may record when `room` are left overall. */
  function Recorded(lines: seq<Line>, isMatch: Line -> bool, room: nat): (hits: seq<nat>)
    ensures |hits| <= room && |hits| <= GREP_MAX_PER_FILE
  {
    var all := Hits(lines, isMatch, |lines|);
    all[..Min(|all|, Min(GREP_MAX_PER_FILE, room))]
  }

  lemma {:induction false} HitsRise(lines: seq<Line>, isMatch: Line -> bool, n: nat)
    requires n <= |lines|
    ensures forall k :: 0 <= k < |Hits(lines, isMatch, n)| ==> Hits(lines, isMatch, n)[k] < n
    ensures forall i, j :: 0 <= i < j < |Hits(lines, isMatch, n)| ==>
              Hits(lines, isMatch, n)[i] < Hits(lines, isMatch, n)[j]
  {
    if n > 0 { HitsRise(lines, isMatch, n - 1); }
  }

  /** The hits are the matching lines, all of them and nothing else. */
  lemma {:induction false} HitsAreTheMatches(lines: seq<Line>, isMatch: Line -> bool, n: nat)
    requires n <= |lines|
    ensures forall i :: i in Hits(lines, isMatch, n) <==> 0 <= i < n && isMatch(lines[i])
  {
    if n > 0 { HitsAreTheMatches(lines, isMatch, n - 1); }
  }

  /** How many lines before the one at index `i` match. */
  function MatchesBefore(lines: seq<Line>, isMatch: Line -> bool, i: nat): nat
    requires i <= |lines|
  {
    |set j | 0 <= j < i && isMatch(lines[j])|
  }

  lemma {:induction false} HitsCount(lines: seq<Line>, isMatch: Line -> bool, n: nat)
    requires n <= |lines|
    ensures |Hits(lines, isMatch, n)| == MatchesBefore(lines, isMatch, n)
  {
    if n > 0 {
      HitsCount(lines, isMatch, n - 1);
      var before := set j | 0 <= j < n - 1 && isMatch(lines[j]);
      assert (set j | 0 <= j < n && isMatch(lines[j])) == before + if isMatch(lines[n - 1]) then {n - 1} else {};
    }
  }

  /** A line is recorded exactly when it matches and fewer matches than the caps allow come before it. */
  lemma RecordedAreTheFirstMatches(lines: seq<Line>, isMatch: Line -> bool, room: nat, i: nat)
    requires i < |lines|
    ensures i in Recorded(lines, isMatch, room)
            <==> isMatch(lines[i]) && MatchesBefore(lines, isMatch, i) < Min(GREP_MAX_PER_FILE, room)
  {
    var all, k := Hits(lines, isMatch, |lines|), |Hits(lines, isMatch, i)|;
    HitsCount(lines, isMatch, i);
    HitsAreTheMatches(lines, isMatch, |lines|);
    HitsRise(lines, isMatch, |lines|);
    if isMatch(lines[i]) {
      HitsPrefix(lines, isMatch, i + 1, |lines|);
      assert all[k] == i;
      assert forall j :: 0 <= j < |all| && all[j] == i ==> j == k;
      if k < |Recorded(lines, isMatch, room)| { assert Recorded(lines, isMatch, room)[k] == i; }
    }
  }

  lemma {:induction false} HitsPrefix(lines: seq<Line>, isMatch: Line -> bool, n: nat, m: nat)
    requires n <= m <= |lines|
    ensures Hits(lines, isMatch, n) <= Hits(lines, isMatch, m)
  {
    if n < m { HitsPrefix(lines, isMatch, n, m - 1); }
  }

  /** `regions` with one more band at the end, for bands that only move forward. */
  function Grown(regions: seq<Region>, relPath: Path, lo: nat, hi: nat): (after: seq<Region>)
    ensures after != [] && after[|after| - 1].lineEnd == hi
  {
    var k := |regions| - 1;
    if regions != [] && lo <= regions[k].lineEnd + 1 then regions[..k] + [Region(relPath, regions[k].lineStart, hi)]
    else regions + [Region(relPath, lo, hi)]
  }

  /** The last region neither starts after `lo` nor ends after `hi`. */
  predicate Forward(regions: seq<Region>, lo: nat, hi: nat) {
    regions != [] ==> regions[|regions| - 1].lineStart <= lo && regions[|regions| - 1].lineEnd <= hi
  }

  /** The band starts inside or right after the last region, which is of its file. */
  predicate JoinsLast(regions: seq<Region>, relPath: Path, lo: nat) {
    && regions != []
    && regions[|regions| - 1].relPath == relPath
    && lo <= regions[|regions| - 1].lineEnd + 1
  }

  predicate Shows(regions: seq<Region>, relPath: Path, line: nat) {
    exists k :: 0 <= k < |regions| && regions[k].relPath == relPath && Within(regions[k], line)
  }

  function Pushed(regions: seq<Region>, relPath: Path, lo: nat, hi: nat): seq<Region> {
    if JoinsLast(regions, relPath, lo) then
      var last := regions[|regions| - 1];
      regions[..|regions| - 1] + [Region(relPath, Min(last.lineStart, lo), Max(last.lineEnd, hi))]
    else regions + [Region(relPath, lo, hi)]
  }

  /** The lines a push adds: the band, or the hull of the last region and the band. */
  predicate PushAdds(regions: seq<Region>, relPath: Path, lo: nat, hi: nat, line: nat) {
    if JoinsLast(regions, relPath, lo) then
      var last := regions[|regions| - 1];
      Min(last.lineStart, lo) <= line <= Max(last.lineEnd, hi)
    else lo <= line <= hi
  }

  lemma PushShows(regions: seq<Region>, relPath: Path, lo: nat, hi: nat, p: Path, line: nat)
    ensures Shows(Pushed(regions, relPath, lo, hi), p, line)
            <==> Shows(regions, p, line) || (p == relPath && PushAdds(regions, relPath, lo, hi, line))
  {
    var after := Pushed(regions, relPath, lo, hi);
    var n := |after| - 1;
    if Shows(regions, p, line) {
      var k :| 0 <= k < |regions| && regions[k].relPath == p && Within(regions[k], line);
      assert after[k].relPath == p && Within(after[k], line);
    }
    if p == relPath && PushAdds(regions, relPath, lo, hi, line) {
      assert after[n].relPath == p && Within(after[n], line);
    }
    if Shows(after, p, line) {
      var k :| 0 <= k < |after| && after[k].relPath == p && Within(after[k], line);
      if k < n { assert regions[k].relPath == p && Within(regions[k], line); }
    }
  }

  lemma ForwardPushShows(regions: seq<Region>, relPath: Path, lo: nat, hi: nat, line: nat)
    requires JoinsLast(regions, relPath, lo) ==> regions[|regions| - 1].lineStart <= lo
    ensures Shows(Pushed(regions, relPath, lo, hi), relPath, line)
            <==> Shows(regions, relPath, line) || lo <= line <= hi
  {
    PushShows(regions, relPath, lo, hi, relPath, line);
    if JoinsLast(regions, relPath, lo) && Within(regions[|regions| - 1], line) {
      assert Shows(regions, relPath, line);
    }
  }

  /** The band is shown afterwards and other files are as before; a band that does not start before the
      last region adds its own lines and no others. A new region appears exactly when the band does not
      join the last one, and the regions before the last stay as they are. */
  method PushRegion(regions: seq<Region>, relPath: Path, lo: nat, hi: nat) returns (after: seq<Region>)
    ensures forall p, line: nat :: p != relPath ==> (Shows(after, p, line) <==> Shows(regions, p, line))
    ensures forall line: nat :: Shows(after, relPath, line)
                           <==> Shows(regions, relPath, line) || PushAdds(regions, relPath, lo, hi, line)
    ensures (JoinsLast(regions, relPath, lo) ==> regions[|regions| - 1].lineStart <= lo) ==>
              forall line: nat :: Shows(after, relPath, line) <==> Shows(regions, relPath, line) || lo <= line <= hi
    ensures |after| == |regions| + if JoinsLast(regions, relPath, lo) then 0 else 1
    ensures after == Pushed(regions, relPath, lo, hi)
  {
    forall p, line: nat
      ensures Shows(Pushed(regions, relPath, lo, hi), p, line)
              <==> Shows(regions, p, line) || (p == relPath && PushAdds(regions, relPath, lo, hi, line))
    {
      PushShows(regions, relPath, lo, hi, p, line);
    }
    if JoinsLast(regions, relPath, lo) ==> regions[|regions| - 1].lineStart <= lo {
      forall line: nat
        ensures Shows(Pushed(regions, relPath, lo, hi), relPath, line)
                <==> Shows(regions, relPath, line) || lo <= line <= hi
      {
        ForwardPushShows(regions, relPath, lo, hi, line);
      }
    }
    if regions != [] {
      var k := |regions| - 1;
      var last := regions[k];
      if last.relPath == relPath && lo <= last.lineEnd + 1 {
        last := last.(lineEnd := Max(last.lineEnd, hi));
        last := last.(lineStart := Min(last.lineStart, lo));
        return regions[..k] + [last];
      }
    }
    after := regions + [Region(relPath, lo, hi)];
  }

  /** Behind another file's regions, a push only touches the file's own. */
  lemma PushIsGrowth(regions: seq<Region>, own: seq<Region>, relPath: Path, lo: nat, hi: nat)
    requires regions != [] ==> regions[|regions| - 1].relPath != relPath
    requires OfFile(own, relPath) && Forward(own, lo, hi)
    ensures Pushed(regions + own, relPath, lo, hi) == regions + Grown(own, relPath, lo, hi)
  {
    if own == [] {
      assert regions + own == regions;
    } else {
      assert own[|own| - 1] in own;
      assert (regions + own)[..|regions + own| - 1] == regions + own[..|own| - 1];
    }
  }

  /** Adding the band of a later match to the regions of the earlier ones. */
  lemma PushKeepsCover(regions: seq<Region>, relPath: Path, hits: seq<nat>, context: nat, total: nat, idx: nat)
    requires Covers(regions, relPath, hits, context, total) && idx < total
    requires Forward(regions, Low(idx, context), High(idx, context, total))
    ensures Covers(Grown(regions, relPath, Low(idx, context), High(idx, context, total)), relPath, hits + [idx],
                   context, total)
  {
    var lo, hi := Low(idx, context), High(idx, context, total);
    var after := Grown(regions, relPath, lo, hi);
    forall line ensures InSomeRegion(after, line) <==> InSomeBand(hits + [idx], context, total, line) {
      BandAdded(hits, idx, context, total, line);
      assert InSomeRegion(regions, line) <==> InSomeBand(hits, context, total, line);
      RegionAdded(regions, lo, hi, relPath, line);
    }
  }

  lemma BandAdded(hits: seq<nat>, idx: nat, context: nat, total: nat, line: nat)
    ensures InSomeBand(hits + [idx], context, total, line)
            <==> InSomeBand(hits, context, total, line) || InBand(idx, context, total, line)
  {
    var all := hits + [idx];
    if InSomeBand(hits, context, total, line) {
      var k :| 0 <= k < |hits| && InBand(hits[k], context, total, line);
      assert InBand(all[k], context, total, line);
    }
    if InBand(idx, context, total, line) {
      assert InBand(all[|hits|], context, total, line);
    }
  }

  lemma RegionAdded(regions: seq<Region>, lo: nat, hi: nat, relPath: Path, line: nat)
    requires Forward(regions, lo, hi)
    ensures InSomeRegion(Grown(regions, relPath, lo, hi), line) <==> InSomeRegion(regions, line) || lo <= line <= hi
  {
    var after := Grown(regions, relPath, lo, hi);
    var n := |after| - 1;
    if InSomeRegion(regions, line) {
      var k :| 0 <= k < |regions| && Within(regions[k], line);
      assert Within(after[k], line);
    }
    if lo <= line <= hi {
      assert Within(after[n], line);
    }
    if InSomeRegion(after, line) && !(lo <= line <= hi) {
      var k :| 0 <= k < |after| && Within(after[k], line);
      assert Within(regions[k], line);
    }
  }

  /** The loop over a file's lines: `own` says what `hits` cover and ends where the last of them does. */
  ghost predicate Scanned(file: SourceFile, context: nat, own: seq<Region>, hits: seq<nat>) {
    && Covers(own, file.relPath, hits, context, |file.lines|)
    && (own == [] <==> hits == [])
    && (hits != [] ==> EndsBefore(own[|own| - 1], hits[|hits| - 1], context, |file.lines|))
  }

  predicate EndsBefore(r: Region, idx: nat, context: nat, total: nat) {
    r.lineStart <= Low(idx, context) && r.lineEnd <= High(idx, context, total)
  }

  lemma HitsAreForward(file: SourceFile, isMatch: Line -> bool, context: nat, idx: nat, own: seq<Region>)
    requires idx < |file.lines| && Scanned(file, context, own, Hits(file.lines, isMatch, idx))
    ensures Forward(own, Low(idx, context), High(idx, context, |file.lines|))
  {
    HitsRise(file.lines, isMatch, idx);
  }

  lemma ScanStep(file: SourceFile, context: nat, idx: nat, own: seq<Region>, hits: seq<nat>)
    requires idx < |file.lines| && Scanned(file, context, own, hits)
    requires Forward(own, Low(idx, context), High(idx, context, |file.lines|))
    ensures var lo, hi := Low(idx, context), High(idx, context, |file.lines|);
            Scanned(file, context, Grown(own, file.relPath, lo, hi), hits + [idx])
  {
    var lo, hi := Low(idx, context), High(idx, context, |file.lines|);
    PushKeepsCover(own, file.relPath, hits, context, |file.lines|, idx);
    var grown := Grown(own, file.relPath, lo, hi);
    assert EndsBefore(grown[|grown| - 1], idx, context, |file.lines|);
  }

  /** Records the match at `idx` behind the regions of earlier files. */
  method RecordMatch(regions: seq<Region>, file: SourceFile, isMatch: Line -> bool, context: nat, idx: nat,
                     ghost earlier: seq<Region>, ghost own: seq<Region>)
    returns (after: seq<Region>, ghost grown: seq<Region>)
    requires regions == earlier + own && (earlier != [] ==> earlier[|earlier| - 1].relPath != file.relPath)
    requires idx < |file.lines| && Scanned(file, context, own, Hits(file.lines, isMatch, idx))
    ensures after == earlier + grown
    ensures Scanned(file, context, grown, Hits(file.lines, isMatch, idx) + [idx])
  {
    var lo, hi := Low(idx, context), High(idx, context, |file.lines|);
    HitsAreForward(file, isMatch, context, idx, own);
    PushIsGrowth(earlier, own, file.relPath, lo, hi);
    ScanStep(file, context, idx, own, Hits(file.lines, isMatch, idx));
    after := PushRegion(regions, file.relPath, lo, hi);
    grown := Grown(own, file.relPath, lo, hi);
  }

  /** The scan may stop at either cap, or at the end. */
  lemma StopsAt(lines: seq<Line>, isMatch: Line -> bool, room: nat, idx: nat)
    requires idx <= |lines|
    requires var n := |Hits(lines, isMatch, idx)|;
             n == Min(GREP_MAX_PER_FILE, room) || (idx == |lines| && n <= Min(GREP_MAX_PER_FILE, room))
    ensures Hits(lines, isMatch, idx) == Recorded(lines, isMatch, room)
  {
    HitsPrefix(lines, isMatch, idx, |lines|);
  }

  /** Scans one file: its recorded matches, and its own regions appended. */
  method ScanFile(regions: seq<Region>, file: SourceFile, isMatch: Line -> bool, context: nat, totalMatches: nat)
    returns (after: seq<Region>, newTotal: nat, ghost own: seq<Region>)
    requires totalMatches < GREP_MAX_MATCHES
    requires regions != [] ==> regions[|regions| - 1].relPath != file.relPath
    ensures newTotal == totalMatches + |Recorded(file.lines, isMatch, GREP_MAX_MATCHES - totalMatches)|
    ensures after == regions + own
    ensures Scanned(file, context, own, Recorded(file.lines, isMatch, GREP_MAX_MATCHES - totalMatches))
  {
    after, newTotal, own := regions, totalMatches, [];
    var fileMatches := 0;
    ghost var room := GREP_MAX_MATCHES - totalMatches;
    for idx := 0 to |file.lines|
      invariant fileMatches == |Hits(file.lines, isMatch, idx)| < GREP_MAX_PER_FILE
      invariant newTotal == totalMatches + fileMatches < GREP_MAX_MATCHES
      invariant after == regions + own && Scanned(file, context, own, Hits(file.lines, isMatch, idx))
    {
      if isMatch(file.lines[idx]) {
        after, own := RecordMatch(after, file, isMatch, context, idx, regions, own);
        newTotal := newTotal + 1;
        fileMatches := fileMatches + 1;
        if newTotal >= GREP_MAX_MATCHES || fileMatches >= GREP_MAX_PER_FILE {
          StopsAt(file.lines, isMatch, room, idx + 1);
          return;
        }
      }
    }
    StopsAt(file.lines, isMatch, room, |file.lines|);
  }

  // ---------------------------------------------------------------------------------------
  // The walk
  // ---------------------------------------------------------------------------------------

  /** How many matches the first `n` files record. */
  function Spent(files: seq<Option<SourceFile>>, isMatch: Line -> bool, n: nat): (spent: nat)
    requires n <= |files|
    ensures spent <= GREP_MAX_MATCHES
  {
    if n == 0 then 0
    else
      var before := Spent(files, isMatch, n - 1);
      match files[n - 1]
      case None => before
      case Some(f) => before + |Recorded(f.lines, isMatch, GREP_MAX_MATCHES - before)|
  }

  function Concat(parts: seq<seq<Region>>): seq<Region> {
    if parts == [] then [] else Concat(parts[..|parts| - 1]) + parts[|parts| - 1]
  }

  function PathsOf(files: seq<Option<SourceFile>>, n: nat): set<Path>
    requires n <= |files|
  {
    if n == 0 then {}
    else PathsOf(files, n - 1) + match files[n - 1] { case None => {} case Some(f) => {f.relPath} }
  }

  /** The walk yields each file once. */
  predicate NoFileTwice(files: seq<Option<SourceFile>>) {
    forall i :: 0 <= i < |files| && files[i].Some? ==> files[i].value.relPath !in PathsOf(files, i)
  }

  /** File `i` has the regions its own recorded matches call for, however many matches came before. */
  ghost predicate PartIsExact(files: seq<Option<SourceFile>>, isMatch: Line -> bool, context: nat, i: nat,
                              part: seq<Region>)
    requires i < |files|
  {
    match files[i]
    case None => part == []
    case Some(f) =>
      Covers(part, f.relPath, Recorded(f.lines, isMatch, GREP_MAX_MATCHES - Spent(files, isMatch, i)), context,
             |f.lines|)
  }

  lemma NothingLeft(files: seq<Option<SourceFile>>, isMatch: Line -> bool, context: nat, i: nat)
    requires i < |files| && Spent(files, isMatch, i) == GREP_MAX_MATCHES
    ensures PartIsExact(files, isMatch, context, i, []) && Spent(files, isMatch, i + 1) == GREP_MAX_MATCHES
  {
  }

  lemma ConcatPush(parts: seq<seq<Region>>, part: seq<Region>)
    ensures Concat(parts + [part]) == Concat(parts) + part
  {
    assert (parts + [part])[..|parts|] == parts;
  }

  ghost predicate AllExact(files: seq<Option<SourceFile>>, isMatch: Line -> bool, context: nat,
                           parts: seq<seq<Region>>)
  {
    |parts| <= |files| && forall i :: 0 <= i < |parts| ==> PartIsExact(files, isMatch, context, i, parts[i])
  }

  predicate FromFiles(regions: seq<Region>, files: seq<Option<SourceFile>>, n: nat)
    requires n <= |files|
  {
    forall r :: r in regions ==> r.relPath in PathsOf(files, n)
  }

  lemma WalkStep(files: seq<Option<SourceFile>>, isMatch: Line -> bool, context: nat, parts: seq<seq<Region>>,
                 own: seq<Region>)
    requires AllExact(files, isMatch, context, parts) && |parts| < |files|
    requires PartIsExact(files, isMatch, context, |parts|, own)
    ensures AllExact(files, isMatch, context, parts + [own]) && Concat(parts + [own]) == Concat(parts) + own
  {
    ConcatPush(parts, own);
    forall i | 0 <= i < |parts| + 1 ensures PartIsExact(files, isMatch, context, i, (parts + [own])[i]) {
      PartStays(files, isMatch, context, parts, own, i);
    }
  }

  lemma PartStays(files: seq<Option<SourceFile>>, isMatch: Line -> bool, context: nat, parts: seq<seq<Region>>,
                  own: seq<Region>, i: nat)
    requires AllExact(files, isMatch, context, parts) && |parts| < |files| && i <= |parts|
    requires PartIsExact(files, isMatch, context, |parts|, own)
    ensures PartIsExact(files, isMatch, context, i, (parts + [own])[i])
  {
    if i < |parts| {
      assert PartIsExact(files, isMatch, context, i, parts[i]);
      assert (parts + [own])[i] == parts[i];
    } else {
      assert (parts + [own])[i] == own;
    }
  }

  lemma OwnIsFromFiles(regions: seq<Region>, files: seq<Option<SourceFile>>, isMatch: Line -> bool, context: nat,
                       n: nat, own: seq<Region>)
    requires n < |files| && FromFiles(regions, files, n) && PartIsExact(files, isMatch, context, n, own)
    ensures FromFiles(regions + own, files, n + 1)
  {
  }

  /** The files behind the last recorded match add nothing. */
  lemma PadParts(files: seq<Option<SourceFile>>, isMatch: Line -> bool, context: nat, parts: seq<seq<Region>>)
    returns (all: seq<seq<Region>>)
    requires |parts| <= Min(|files|, GREP_MAX_FILES_SCANNED) && AllExact(files, isMatch, context, parts)
    requires Spent(files, isMatch, |parts|) == GREP_MAX_MATCHES
    ensures |all| == Min(|files|, GREP_MAX_FILES_SCANNED) && Concat(all) == Concat(parts)
    ensures AllExact(files, isMatch, context, all)
    ensures Spent(files, isMatch, |all|) == GREP_MAX_MATCHES
    decreases |files| - |parts|
  {
    all := parts;
    if |parts| < Min(|files|, GREP_MAX_FILES_SCANNED) {
      NothingLeft(files, isMatch, context, |parts|);
      WalkStep(files, isMatch, context, parts, []);
      all := PadParts(files, isMatch, context, parts + [[]]);
    }
  }

  method RunGrep(files: seq<Option<SourceFile>>, isMatch: Line -> bool, context: nat)
    returns (regions: seq<Region>, totalMatches: nat, truncated: bool, ghost parts: seq<seq<Region>>)
    requires NoFileTwice(files)
    ensures |parts| == Min(|files|, GREP_MAX_FILES_SCANNED) && regions == Concat(parts)
    ensures AllExact(files, isMatch, context, parts)
    ensures totalMatches == Spent(files, isMatch, |parts|)
    ensures truncated <==> totalMatches == GREP_MAX_MATCHES || |files| > GREP_MAX_FILES_SCANNED
  {
    regions, totalMatches, truncated, parts := [], 0, false, [];
    var filesScanned := 0;
    while filesScanned < |files|
      invariant |parts| == filesScanned <= Min(|files|, GREP_MAX_FILES_SCANNED) && regions == Concat(parts)
      invariant FromFiles(regions, files, filesScanned) && AllExact(files, isMatch, context, parts)
      invariant totalMatches == Spent(files, isMatch, filesScanned) < GREP_MAX_MATCHES
      invariant !truncated
    {
      if filesScanned + 1 > GREP_MAX_FILES_SCANNED {
        truncated := true;
        return;
      }
      ghost var own, before := [], regions;
      regions, totalMatches, own := ScanNext(files, isMatch, context, filesScanned, regions, totalMatches);
      WalkStep(files, isMatch, context, parts, own);
      OwnIsFromFiles(before, files, isMatch, context, filesScanned, own);
      parts := parts + [own];
      filesScanned := filesScanned + 1;
      if totalMatches >= GREP_MAX_MATCHES {
        truncated := true;
        parts := PadParts(files, isMatch, context, parts);
        return;
      }
    }
  }

  method ScanNext(files: seq<Option<SourceFile>>, isMatch: Line -> bool, context: nat, i: nat, regions: seq<Region>,
                  totalMatches: nat)
    returns (after: seq<Region>, newTotal: nat, ghost own: seq<Region>)
    requires NoFileTwice(files) && i < |files| && FromFiles(regions, files, i)
    requires totalMatches == Spent(files, isMatch, i) < GREP_MAX_MATCHES
    ensures after == regions + own && PartIsExact(files, isMatch, context, i, own)
    ensures newTotal == Spent(files, isMatch, i + 1)
  {
    if files[i].Some? {
      assert regions != [] ==> regions[|regions| - 1] in regions;
      after, newTotal, own := ScanFile(regions, files[i].value, isMatch, context, totalMatches);
    } else {
      after, newTotal, own := regions, totalMatches, [];
      assert regions + own == regions;
    }
  }
}
