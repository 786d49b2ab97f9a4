/**
 The bounded `read` tool and paging through a file with it (`src/fs_tools.rs`).
 */
module ReadPaging {
  import opened Numbers
  import opened Options
  import opened Sequences
  import opened Utf8

  const READ_MAX_LINES: nat := 800
  const READ_MAX_BYTES: nat := 64 * 1024

  datatype Line = Line(text: string)

  /** `next` is the start line the truncation note suggests. */
  datatype ReadOutcome =
    | Empty
    | PastEnd(start: nat, total: nat)
    | Page(first: nat, last: nat, total: nat, body: string, next: Option<nat>)

  function Rendered(lines: seq<Line>, n: nat): string
    requires 1 <= n <= |lines|
  {
    Decimal(n) + ": " + lines[n - 1].text + "\n"
  }

  /** Lines `first` to `last`, numbered; nothing when `last` is just before `first`. */
  function BodyOf(lines: seq<Line>, first: nat, last: nat): string
    requires 1 <= first <= last + 1 <= |lines| + 1
  {
    if last < first then "" else BodyOf(lines, first, last - 1) + Rendered(lines, last)
  }

  /** The lines of a text in which every line ends with a newline. */
  function LinesOf(s: string): seq<string> {
    if s == "" then []
    else if s[0] == '\n' then [""] + LinesOf(s[1..])
    else
      var rest := LinesOf(s[1..]);
      if rest == [] then [] else [[s[0]] + rest[0]] + rest[1..]
  }

  lemma {:induction false} LinesOfPrepended(line: string, s: string)
    requires '\n' !in line
    ensures LinesOf(line + "\n" + s) == [line] + LinesOf(s)
  {
    var all := line + "\n" + s;
    if line == "" {
      assert all[1..] == s;
    } else {
      LinesOfPrepended(line[1..], s);
      assert all[1..] == line[1..] + "\n" + s;
      assert line == [line[0]] + line[1..] && line[0] in line;
    }
  }

  /** What the page shows of line `n`: its number and its text. */
  function Numbered(lines: seq<Line>, n: nat): string
    requires 1 <= n <= |lines|
  {
    Decimal(n) + ": " + lines[n - 1].text
  }

  lemma NumberedIsOneLine(lines: seq<Line>, n: nat)
    requires 1 <= n <= |lines| && '\n' !in lines[n - 1].text
    ensures '\n' !in Numbered(lines, n) && Rendered(lines, n) == Numbered(lines, n) + "\n"
  {
    DecimalReadsBack(n);
    assert '\n' !in ": ";
  }

  lemma PageBeginsWith(lines: seq<Line>, first: nat, last: nat)
    requires 1 <= first <= last <= |lines| && '\n' !in lines[first - 1].text
    ensures LinesOf(BodyOf(lines, first, last)) == [Numbered(lines, first)] + LinesOf(BodyOf(lines, first + 1, last))
  {
    BodySplits(lines, first, first, last);
    NumberedIsOneLine(lines, first);
    assert BodyOf(lines, first, first) == Rendered(lines, first) by {
      assert BodyOf(lines, first, first - 1) == "";
      assert "" + Rendered(lines, first) == Rendered(lines, first);
    }
    LinesOfPrepended(Numbered(lines, first), BodyOf(lines, first + 1, last));
  }

  predicate ShowsLines(shown: seq<string>, lines: seq<Line>, first: nat, last: nat)
    requires 1 <= first <= last + 1 <= |lines| + 1
  {
    |shown| == last + 1 - first && forall n :: first <= n <= last ==> shown[n - first] == Numbered(lines, n)
  }

  lemma OneLineBefore(shown: seq<string>, lines: seq<Line>, first: nat, last: nat)
    requires 1 <= first <= last <= |lines| && ShowsLines(shown, lines, first + 1, last)
    ensures ShowsLines([Numbered(lines, first)] + shown, lines, first, last)
  {
    forall n | first <= n <= last ensures ([Numbered(lines, first)] + shown)[n - first] == Numbered(lines, n) {
      if n > first { assert shown[n - (first + 1)] == Numbered(lines, n); }
    }
  }

  /** Read line by line, the body of a page is its lines in order, each behind its own number counted
      from 1; the lines of a file hold no newline. */
  lemma {:induction false} PageShowsItsLines(lines: seq<Line>, first: nat, last: nat)
    requires 1 <= first <= last + 1 <= |lines| + 1
    requires forall i :: 0 <= i < |lines| ==> '\n' !in lines[i].text
    ensures ShowsLines(LinesOf(BodyOf(lines, first, last)), lines, first, last)
    decreases last + 1 - first
  {
    if first <= last {
      PageShowsItsLines(lines, first + 1, last);
      PageBeginsWith(lines, first, last);
      OneLineBefore(LinesOf(BodyOf(lines, first + 1, last)), lines, first, last);
    }
  }

  /** How many bytes each line takes on a page. */
  function SizesOf(lines: seq<Line>): (sizes: seq<nat>)
    ensures |sizes| == |lines|
  {
    seq(|lines|, i requires 0 <= i < |lines| => Size(Rendered(lines, i + 1)))
  }

  /** The bytes of those lines. */
  function Bytes(sizes: seq<nat>, first: nat, last: nat): nat
    requires 1 <= first <= last + 1 <= |sizes| + 1
  {
    if last < first then 0 else Bytes(sizes, first, last - 1) + sizes[last - 1]
  }

  lemma {:induction false} BytesOfBody(lines: seq<Line>, first: nat, last: nat)
    requires 1 <= first <= last + 1 <= |lines| + 1
    ensures Size(BodyOf(lines, first, last)) == Bytes(SizesOf(lines), first, last)
  {
    if last >= first {
      BytesOfBody(lines, first, last - 1);
      SizeAppend(BodyOf(lines, first, last - 1), Rendered(lines, last));
    }
  }

  /** The line the caller asked to stop at, clamped. */
  function Wanted(total: nat, start: nat, endLine: Option<nat>): nat {
    Max(Min(endLine.GetOr(total), total), start)
  }

  /** The last line of a page that already reaches `at`: the next line goes in while it fits. */
  function Grow(sizes: seq<nat>, first: nat, at: nat, cap: nat): (last: nat)
    requires 1 <= first <= at <= cap <= |sizes|
    ensures at <= last <= cap
    decreases cap - at
  {
    if at == cap || Bytes(sizes, first, at + 1) > READ_MAX_BYTES then at else Grow(sizes, first, at + 1, cap)
  }

  function PageEnd(sizes: seq<nat>, first: nat, wanted: nat): (last: nat)
    requires 1 <= first <= wanted <= |sizes|
    ensures first <= last <= Min(wanted, first + READ_MAX_LINES - 1)
  {
    Grow(sizes, first, first, Min(wanted, first + READ_MAX_LINES - 1))
  }

  lemma {:induction false} GrowthStops(sizes: seq<nat>, first: nat, at: nat, cap: nat)
    requires 1 <= first <= at <= cap <= |sizes|
    requires Bytes(sizes, first, at) <= READ_MAX_BYTES || at == first
    ensures var last := Grow(sizes, first, at, cap);
            && (Bytes(sizes, first, last) <= READ_MAX_BYTES || last == first)
            && (last == cap || Bytes(sizes, first, last + 1) > READ_MAX_BYTES)
    decreases cap - at
  {
    if at < cap && Bytes(sizes, first, at + 1) <= READ_MAX_BYTES {
      GrowthStops(sizes, first, at + 1, cap);
    }
  }

  lemma {:induction false} LongerBody(sizes: seq<nat>, first: nat, a: nat, b: nat)
    requires 1 <= first <= a + 1 && a <= b <= |sizes|
    ensures Bytes(sizes, first, a) <= Bytes(sizes, first, b)
  {
    if a < b { LongerBody(sizes, first, a, b - 1); }
  }

  /** A page holds at most the line cap, fits the byte cap unless it is one line, and could not be
      one line longer; and no other page is like that. */
  lemma PageMeetsBothCaps(lines: seq<Line>, first: nat, wanted: nat, last: nat)
    requires 1 <= first <= last <= wanted <= |lines|
    ensures last == PageEnd(SizesOf(lines), first, wanted) <==>
            && last - first < READ_MAX_LINES
            && (Size(BodyOf(lines, first, last)) <= READ_MAX_BYTES || last == first)
            && (last == wanted || last - first == READ_MAX_LINES - 1
                || Size(BodyOf(lines, first, last + 1)) > READ_MAX_BYTES)
  {
    BytesOfBody(lines, first, last);
    if last < wanted { BytesOfBody(lines, first, last + 1); }
    SizesMeetBothCaps(SizesOf(lines), first, wanted, last);
  }

  lemma SizesMeetBothCaps(sizes: seq<nat>, first: nat, wanted: nat, last: nat)
    requires 1 <= first <= last <= wanted <= |sizes|
    ensures last == PageEnd(sizes, first, wanted) <==>
            && last - first < READ_MAX_LINES
            && (Bytes(sizes, first, last) <= READ_MAX_BYTES || last == first)
            && (last == wanted || last - first == READ_MAX_LINES - 1 || Bytes(sizes, first, last + 1) > READ_MAX_BYTES)
  {
    var cap, end := Min(wanted, first + READ_MAX_LINES - 1), PageEnd(sizes, first, wanted);
    GrowthStops(sizes, first, first, cap);
    if last < end {
      LongerBody(sizes, first, last + 1, end);
    } else if end < last <= cap {
      LongerBody(sizes, first, end + 1, last);
    }
  }

  method RunRead(lines: seq<Line>, startLine: Option<nat>, endLine: Option<nat>) returns (r: ReadOutcome)
    ensures r.Empty? <==> lines == []
    ensures r.PastEnd? <==> lines != [] && startLine.GetOr(1) > |lines|
    ensures r.Page? ==>
              var first := Max(startLine.GetOr(1), 1);
              var wanted := Wanted(|lines|, first, endLine);
              && r.first == first <= wanted <= |lines| && r.total == |lines|
              && r.last == PageEnd(SizesOf(lines), first, wanted)
              && r.body == BodyOf(lines, first, r.last)
              && r.next == if r.last < wanted then Some(r.last + 1) else None
  {
    var total := |lines|;
    if total == 0 {
      return Empty;
    }
    var start := Max(startLine.GetOr(1), 1);
    if start > total {
      return PastEnd(start, total);
    }
    var end := Max(Min(endLine.GetOr(total), total), start);
    var body, emittedTo := ReadPage(lines, start, end);
    r := Page(start, emittedTo, total, body, if emittedTo < end then Some(emittedTo + 1) else None);
  }

  method ReadPage(lines: seq<Line>, start: nat, end: nat) returns (body: string, emittedTo: nat)
    requires 1 <= start <= end <= |lines|
    ensures emittedTo == PageEnd(SizesOf(lines), start, end) && body == BodyOf(lines, start, emittedTo)
  {
    var lineCapEnd := Min(end, start + READ_MAX_LINES - 1);
    body, emittedTo := "", start - 1;
    while emittedTo < lineCapEnd
      invariant start - 1 <= emittedTo <= lineCapEnd
      invariant body == BodyOf(lines, start, emittedTo)
      invariant body == "" <==> emittedTo < start
      invariant emittedTo >= start ==>
                  PageEnd(SizesOf(lines), start, end) == Grow(SizesOf(lines), start, emittedTo, lineCapEnd)
    {
      var n := emittedTo + 1;
      var rendered := Rendered(lines, n);
      BytesOfBody(lines, start, emittedTo);
      if body != "" && Size(body) + Size(rendered) > READ_MAX_BYTES {
        return;
      }
      body := body + rendered;
      emittedTo := n;
    }
  }

  // ---------------------------------------------------------------------------------------
  // Following the suggested start lines
  // ---------------------------------------------------------------------------------------

  /** The last lines of the pages a caller gets by asking again from each suggested line. */
  function Ends(sizes: seq<nat>, first: nat, wanted: nat): (ends: seq<nat>)
    requires 1 <= first <= wanted <= |sizes|
    ensures ends != [] && ends[|ends| - 1] == wanted && first <= ends[0]
    decreases wanted - first
  {
    var last := PageEnd(sizes, first, wanted);
    if last == wanted then [last] else [last] + Ends(sizes, last + 1, wanted)
  }

  /** The request for page `k` starts here. */
  function StartOf(first: nat, ends: seq<nat>, k: nat): nat
    requires k < |ends|
  {
    if k == 0 then first else ends[k - 1] + 1
  }

  /** Page `k` is what `RunRead` answers from the line page `k - 1` suggested. */
  lemma {:induction false} EachPageIsARead(sizes: seq<nat>, first: nat, wanted: nat, k: nat)
    requires 1 <= first <= wanted <= |sizes| && k < |Ends(sizes, first, wanted)|
    ensures var ends := Ends(sizes, first, wanted);
            && first <= StartOf(first, ends, k) <= ends[k] <= wanted
            && ends[k] == PageEnd(sizes, StartOf(first, ends, k), wanted)
            && (ends[k] == wanted <==> k == |ends| - 1)
    decreases wanted - first
  {
    var last := PageEnd(sizes, first, wanted);
    if last < wanted {
      var rest := Ends(sizes, last + 1, wanted);
      RestOf(last, rest);
      if k > 0 {
        EachPageIsARead(sizes, last + 1, wanted, k - 1);
        assert StartOf(first, [last] + rest, k) == StartOf(last + 1, rest, k - 1);
      }
    }
  }

  lemma RestOf(last: nat, rest: seq<nat>)
    ensures ([last] + rest)[1..] == rest
    ensures forall k :: 0 < k <= |rest| ==> ([last] + rest)[k] == rest[k - 1]
  {
  }

  lemma {:induction false} LaterPagesAreLater(sizes: seq<nat>, first: nat, wanted: nat, i: nat, j: nat)
    requires 1 <= first <= wanted <= |sizes| && i < j < |Ends(sizes, first, wanted)|
    ensures Ends(sizes, first, wanted)[i] < StartOf(first, Ends(sizes, first, wanted), j)
  {
    if i < j - 1 {
      LaterPagesAreLater(sizes, first, wanted, i, j - 1);
      EachPageIsARead(sizes, first, wanted, j - 1);
    }
  }

  /** Each line from `first` to `wanted` is on a page. */
  lemma {:induction false} PageOfLine(sizes: seq<nat>, first: nat, wanted: nat, n: nat) returns (k: nat)
    requires 1 <= first <= n <= wanted <= |sizes|
    ensures var ends := Ends(sizes, first, wanted); k < |ends| && StartOf(first, ends, k) <= n <= ends[k]
    decreases wanted - first
  {
    var last := PageEnd(sizes, first, wanted);
    if n <= last {
      k := 0;
    } else {
      var rest := Ends(sizes, last + 1, wanted);
      RestOf(last, rest);
      var i := PageOfLine(sizes, last + 1, wanted, n);
      k := i + 1;
      assert StartOf(first, [last] + rest, k) == StartOf(last + 1, rest, i);
    }
  }

  /** And on no other page. */
  lemma EveryLineOnce(sizes: seq<nat>, first: nat, wanted: nat, n: nat) returns (k: nat)
    requires 1 <= first <= n <= wanted <= |sizes|
    ensures var ends := Ends(sizes, first, wanted);
            && k < |ends| && StartOf(first, ends, k) <= n <= ends[k]
            && (forall j :: 0 <= j < |ends| && j != k ==> n < StartOf(first, ends, j) || ends[j] < n)
  {
    k := PageOfLine(sizes, first, wanted, n);
    var ends := Ends(sizes, first, wanted);
    forall j | 0 <= j < |ends| && j != k ensures n < StartOf(first, ends, j) || ends[j] < n {
      LaterPagesAreLater(sizes, first, wanted, if j < k then j else k, if j < k then k else j);
    }
  }

  /** The page bodies, one after the other. */
  function Bodies(lines: seq<Line>, first: nat, wanted: nat): string
    requires 1 <= first <= wanted <= |lines|
    decreases wanted - first
  {
    var last := PageEnd(SizesOf(lines), first, wanted);
    BodyOf(lines, first, last) + if last == wanted then "" else Bodies(lines, last + 1, wanted)
  }

  lemma {:induction false} BodySplits(lines: seq<Line>, first: nat, mid: nat, last: nat)
    requires 1 <= first <= mid + 1 && mid <= last <= |lines|
    ensures BodyOf(lines, first, last) == BodyOf(lines, first, mid) + BodyOf(lines, mid + 1, last)
  {
    if mid == last {
      assert BodyOf(lines, mid + 1, last) == "";
    } else {
      BodySplits(lines, first, mid, last - 1);
      Assoc(BodyOf(lines, first, mid), BodyOf(lines, mid + 1, last - 1), Rendered(lines, last));
    }
  }

  lemma FirstBody(lines: seq<Line>, first: nat, wanted: nat)
    requires 1 <= first <= wanted <= |lines|
    ensures var last := PageEnd(SizesOf(lines), first, wanted);
            Bodies(lines, first, wanted)
            == if last == wanted then BodyOf(lines, first, wanted)
               else BodyOf(lines, first, last) + Bodies(lines, last + 1, wanted)
  {
    Assoc(BodyOf(lines, first, wanted), "", "");
  }

  /** The pages put together are the whole range, nothing lost or repeated. */
  lemma {:induction false} PagesMakeTheFile(lines: seq<Line>, first: nat, wanted: nat)
    requires 1 <= first <= wanted <= |lines|
    ensures Bodies(lines, first, wanted) == BodyOf(lines, first, wanted)
    decreases wanted - first
  {
    var last := PageEnd(SizesOf(lines), first, wanted);
    FirstBody(lines, first, wanted);
    if last < wanted {
      PagesMakeTheFile(lines, last + 1, wanted);
      BodySplits(lines, first, last, wanted);
    }
  }
}
