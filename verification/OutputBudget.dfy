/**
 Fitting ranked result blocks into one tool answer (`src/mcp.rs`).

 `Assemble` is the source's loop over the blocks; what it shows is described by a list of one
 `Show` per block. `BuildGrepHint` picks the names of the search hint that follows the answer.
 */
module OutputBudget {
  import opened Options
  import opened Sequences
  import opened Utf8

  const MAX_TOOL_OUTPUT_CHARS: nat := 48_000
  const MAX_FIRST_LINE_CHARS: nat := 120
  const GREP_HINT_MAX_SYMBOLS: nat := 5
  const GREP_HINT_MAX_BLOCKS: nat := 5
  const GREP_HINT_MIN_NAME_LEN: nat := 4
  const GREP_HINT_MAX_NAME_LEN: nat := 40
  const GREP_HINT_MAX_PATTERN_CHARS: nat := 100
  const GREP_HINT_MAX_CHARS: nat := 400
  const GREP_HINT_MAX_CALLEES_PER_BLOCK: nat := 3
  const FOOTER_RESERVE: nat := 150 + GREP_HINT_MAX_CHARS
  const BUDGET: nat := MAX_TOOL_OUTPUT_CHARS - FOOTER_RESERVE

  datatype Name = Name(text: string)

  datatype Block = Block(header: string, content: string, lineStart: nat, lineEnd: nat,
                         symbols: seq<Name>, calleeNames: seq<Name>)

  // ---------------------------------------------------------------------------------------
  // One block
  // ---------------------------------------------------------------------------------------

  /** How a block appears. */
  datatype Show = Full | Cut | Dropped

  function FirstNewline(s: string): (k: nat)
    ensures k <= |s| && (k < |s| ==> s[k] == '\n') && '\n' !in s[..k]
  {
    if s == "" then 0
    else if s[0] == '\n' then 0
    else
      var k := 1 + FirstNewline(s[1..]);
      assert s[..k] == [s[0]] + s[1..][..k - 1];
      k
  }

  /** The first line of `content`, without its line ending. */
  function FirstLine(content: string): string {
    var k := FirstNewline(content);
    if 0 < k < |content| && content[k - 1] == '\r' then content[..k - 1] else content[..k]
  }

  /** The first line is all there is before the first line ending, `\n` or `\r\n`. */
  lemma FirstLineIsWhatComesFirst(content: string) returns (ending: string, rest: string)
    ensures content == FirstLine(content) + ending + rest && '\n' !in FirstLine(content)
    ensures ending == "" ==> '\n' !in content && rest == ""
    ensures ending != "" ==> (ending == "\n" && !Ends(FirstLine(content), '\r')) || ending == "\r\n"
  {
    var k := FirstNewline(content);
    if k == |content| {
      ending, rest := "", "";
      assert content[..k] == content && content + "" == content;
    } else {
      rest := content[k + 1..];
      var n := |FirstLine(content)|;
      ending := content[n..k + 1];
      assert content == content[..n] + content[n..k + 1] + content[k + 1..];
      forall c | c in content[..n] ensures c in content[..k] {}
    }
  }

  predicate Ends(s: string, c: char) {
    s != "" && s[|s| - 1] == c
  }

  function FullText(b: Block): string {
    b.header + "\n" + b.content
  }

  function Elision(b: Block): string {
    if b.lineEnd > b.lineStart then
      "\n... (L" + Decimal(b.lineStart + 1) + "-" + Decimal(b.lineEnd) + " elided, use Read)"
    else ""
  }

  function CutText(b: Block): string {
    b.header + "\n" + Truncated(FirstLine(b.content), MAX_FIRST_LINE_CHARS) + Elision(b)
  }

  function Text(b: Block, show: Show): string
    requires !show.Dropped?
  {
    if show.Full? then FullText(b) else CutText(b)
  }

  /** `text` after `out`, with the separator. */
  function Appended(out: string, text: string): string {
    if out == "" then text else out + "\n\n" + text
  }

  /** The answer's body when `blocks` appear as `shows` says. */
  function Body(blocks: seq<Block>, shows: seq<Show>): string
    requires |blocks| == |shows|
  {
    if blocks == [] then ""
    else
      var k := |blocks| - 1;
      var before := Body(blocks[..k], shows[..k]);
      if shows[k].Dropped? then before else Appended(before, Text(blocks[k], shows[k]))
  }

  predicate Fits(blocks: seq<Block>, shows: seq<Show>, k: nat, show: Show)
    requires |blocks| == |shows| && k < |blocks| && !show.Dropped?
  {
    Size(Appended(Body(blocks[..k], shows[..k]), Text(blocks[k], show))) <= BUDGET
  }

  /** The rule the budget follows: in full while everything so far fitted in full, then cut short
      whenever that fits. */
  predicate Follows(blocks: seq<Block>, shows: seq<Show>)
    requires |blocks| == |shows|
  {
    forall k :: 0 <= k < |blocks| ==> FollowsAt(blocks, shows, k)
  }

  predicate FollowsAt(blocks: seq<Block>, shows: seq<Show>, k: nat)
    requires |blocks| == |shows| && k < |blocks|
  {
    if (k == 0 || shows[k - 1].Full?) && Fits(blocks, shows, k, Full) then shows[k].Full?
    else if Fits(blocks, shows, k, Cut) then shows[k].Cut?
    else shows[k].Dropped?
  }

  function NotFull(shows: seq<Show>): nat {
    if shows == [] then 0
    else NotFull(shows[..|shows| - 1]) + if shows[|shows| - 1].Full? then 0 else 1
  }

  lemma {:induction false} NotFullCounts(shows: seq<Show>)
    ensures NotFull(shows) == |set k | 0 <= k < |shows| && !shows[k].Full?|
  {
    if shows != [] {
      var n := |shows| - 1;
      NotFullCounts(shows[..n]);
      var before := set k | 0 <= k < n && !shows[k].Full?;
      assert (set k | 0 <= k < |shows[..n]| && !shows[..n][k].Full?) == before;
      assert (set k | 0 <= k < |shows| && !shows[k].Full?) == before + if shows[n].Full? then {} else {n};
    }
  }

  /** How many leading blocks appear, up to the first that was dropped. */
  function Shown(shows: seq<Show>): (n: nat)
    ensures n <= |shows| && Dropped !in shows[..n] && (n < |shows| ==> shows[n].Dropped?)
  {
    if shows == [] then 0
    else
      var k := |shows| - 1;
      var n := Shown(shows[..k]);
      assert shows[..k][..n] == shows[..n];
      if n < k then (assert shows[..k][n] == shows[n]; n)
      else if shows[k].Dropped? then k
      else (assert shows[..k + 1] == shows[..k] + [shows[k]]; k + 1)
  }

  const FOOTER_OPEN := "\n\n---\n"
  const FOOTER_WHY := " results truncated" + " to fit output size limit;"
  const FOOTER_ADVICE := " use the Read tool" + " with the line ranges above."

  function Footer(truncated: nat, total: nat): string {
    if truncated == 0 then ""
    else FOOTER_OPEN + Decimal(truncated) + " of " + Decimal(total) + FOOTER_WHY + FOOTER_ADVICE
  }

  lemma OpenAndOf()
    ensures Size("") == 0 && Size(" of ") == 4 && Size(FOOTER_OPEN) == 6
  {
    AsciiSize(FOOTER_OPEN);
    AsciiSize(" of ");
  }

  lemma WhySize()
    ensures Size(FOOTER_WHY) <= 45
  {
    AsciiSize(FOOTER_WHY);
  }

  lemma AdviceSize()
    ensures Size(FOOTER_ADVICE) <= 47
  {
    AsciiSize(FOOTER_ADVICE);
  }

  lemma SumOfSix(a: string, b: string, c: string, d: string, e: string, f: string)
    ensures Size(a + b + c + d + e + f) == Size(a) + Size(b) + Size(c) + Size(d) + Size(e) + Size(f)
  {
    SizeAppend(a, b);
    SizeAppend(a + b, c);
    SizeAppend(a + b + c, d);
    SizeAppend(a + b + c + d, e);
    SizeAppend(a + b + c + d + e, f);
  }

  lemma FooterFits(truncated: nat, total: nat)
    requires truncated <= USIZE_MAX && total <= USIZE_MAX
    ensures Size(Footer(truncated, total)) <= 150
  {
    var t, n := Decimal(truncated), Decimal(total);
    CountFits(truncated);
    CountFits(total);
    OpenAndOf();
    WhySize();
    AdviceSize();
    SumOfSix(FOOTER_OPEN, t, " of ", n, FOOTER_WHY, FOOTER_ADVICE);
  }

  lemma BodyPush(blocks: seq<Block>, shows: seq<Show>, b: Block, show: Show)
    requires |blocks| == |shows| && Follows(blocks, shows)
    requires FollowsAt(blocks + [b], shows + [show], |blocks|)
    ensures Follows(blocks + [b], shows + [show])
  {
    forall k | 0 <= k < |blocks| ensures FollowsAt(blocks + [b], shows + [show], k) {
      FollowsStill(blocks, shows, b, show, k);
    }
  }

  lemma FollowsStill(blocks: seq<Block>, shows: seq<Show>, b: Block, show: Show, k: nat)
    requires |blocks| == |shows| && k < |blocks| && FollowsAt(blocks, shows, k)
    ensures FollowsAt(blocks + [b], shows + [show], k)
  {
    PushedPrefix(blocks, b, k);
    PushedPrefix(shows, show, k);
  }

  lemma PushedPrefix<T>(s: seq<T>, x: T, k: nat)
    requires k < |s|
    ensures (s + [x])[..k] == s[..k]
  {
  }

  /** The source's choice for the next block. */
  function Choice(out: string, b: Block, exceeded: bool): Show {
    if !exceeded && Size(Appended(out, FullText(b))) <= BUDGET then Full
    else if Size(Appended(out, CutText(b))) <= BUDGET then Cut
    else Dropped
  }

  lemma ChoiceFollows(blocks: seq<Block>, shows: seq<Show>, b: Block, exceeded: bool)
    requires |blocks| == |shows| && Follows(blocks, shows)
    requires exceeded <==> shows != [] && !shows[|shows| - 1].Full?
    ensures var show := Choice(Body(blocks, shows), b, exceeded);
            && Follows(blocks + [b], shows + [show])
            && Body(blocks + [b], shows + [show])
               == (if show.Dropped? then Body(blocks, shows) else Appended(Body(blocks, shows), Text(b, show)))
            && NotFull(shows + [show]) == NotFull(shows) + (if show.Full? then 0 else 1)
            && Shown(shows + [show]) == Shown(shows) + (if Shown(shows) == |shows| && !show.Dropped? then 1 else 0)
  {
    var show := Choice(Body(blocks, shows), b, exceeded);
    ChoiceIsTheRule(blocks, shows, b, exceeded);
    BodyPush(blocks, shows, b, show);
    OneMoreShow(blocks, shows, b, show);
    OneMoreShown(shows, show);
  }

  lemma ChoiceIsTheRule(blocks: seq<Block>, shows: seq<Show>, b: Block, exceeded: bool)
    requires |blocks| == |shows| && (exceeded <==> shows != [] && !shows[|shows| - 1].Full?)
    ensures FollowsAt(blocks + [b], shows + [Choice(Body(blocks, shows), b, exceeded)], |blocks|)
  {
    Pushed(blocks, b);
    Pushed(shows, Choice(Body(blocks, shows), b, exceeded));
  }

  lemma OneMoreShow(blocks: seq<Block>, shows: seq<Show>, b: Block, show: Show)
    requires |blocks| == |shows|
    ensures Body(blocks + [b], shows + [show])
            == (if show.Dropped? then Body(blocks, shows) else Appended(Body(blocks, shows), Text(b, show)))
    ensures NotFull(shows + [show]) == NotFull(shows) + (if show.Full? then 0 else 1)
  {
    Pushed(blocks, b);
    Pushed(shows, show);
  }

  lemma OneMoreShown(shows: seq<Show>, show: Show)
    ensures Shown(shows + [show]) == Shown(shows) + (if Shown(shows) == |shows| && !show.Dropped? then 1 else 0)
  {
    Pushed(shows, show);
  }

  method CutBlock(b: Block) returns (text: string)
    ensures text == CutText(b)
  {
    var firstLine := FirstLine(b.content);
    var display := TruncateBytes(firstLine, MAX_FIRST_LINE_CHARS);
    if b.lineEnd > b.lineStart {
      text := b.header + "\n" + display +
              ("\n... (L" + Decimal(b.lineStart + 1) + "-" + Decimal(b.lineEnd) + " elided, use Read)");
    } else {
      text := b.header + "\n" + display;
      assert text + "" == text;
    }
  }

  /** What was written so far, and a blank line if that is anything. */
  function Separated(out: string): string {
    if out == "" then "" else out + "\n\n"
  }

  lemma AppendedIsSeparated(out: string, text: string)
    ensures Appended(out, text) == Separated(out) + text
  {
    assert "" + text == text;
  }

  /** What the loop's variables say after the first `i` blocks. */
  ghost predicate Assembled(blocks: seq<Block>, i: nat, shows: seq<Show>, out: string, truncatedCount: nat,
                            exceeded: bool, shown: nat, dropped: bool)
    requires i <= |blocks|
  {
    && |shows| == i && Follows(blocks[..i], shows)
    && out == Body(blocks[..i], shows)
    && truncatedCount == NotFull(shows) <= i
    && (exceeded <==> shows != [] && !shows[|shows| - 1].Full?)
    && shown == Shown(shows)
    && (dropped <==> shown < i)
  }

  lemma AssembledStep(blocks: seq<Block>, i: nat, shows: seq<Show>, out: string, truncatedCount: nat,
                      exceeded: bool, shown: nat, dropped: bool)
    requires i < |blocks| && Assembled(blocks, i, shows, out, truncatedCount, exceeded, shown, dropped)
    ensures var show := Choice(out, blocks[i], exceeded);
            Assembled(blocks, i + 1, shows + [show],
                      if show.Dropped? then out else Appended(out, Text(blocks[i], show)),
                      truncatedCount + (if show.Full? then 0 else 1),
                      !show.Full?,
                      shown + (if show.Dropped? || dropped then 0 else 1),
                      dropped || show.Dropped?)
  {
    ChoiceFollows(blocks[..i], shows, blocks[i], exceeded);
    TakeOneMore(blocks, i);
  }

  /** One turn of the loop: the block in full, cut short, or not at all. */
  method PlaceBlock(out: string, b: Block, exceeded: bool) returns (after: string, full: bool, emitted: bool)
    requires Size(out) <= BUDGET
    ensures Size(after) <= BUDGET
    ensures full <==> Choice(out, b, exceeded).Full?
    ensures emitted <==> !Choice(out, b, exceeded).Dropped?
    ensures after == if emitted then Appended(out, Text(b, Choice(out, b, exceeded))) else out
    ensures full ==> after == Separated(out) + (b.header + "\n" + b.content)
    ensures emitted && !full ==>
              after == Separated(out)
                       + (b.header + "\n" + Truncated(FirstLine(b.content), MAX_FIRST_LINE_CHARS)
                          + if b.lineEnd <= b.lineStart then ""
                            else "\n... (L" + Decimal(b.lineStart + 1) + "-" + Decimal(b.lineEnd)
                                 + " elided, use Read)")
  {
    var fullText := b.header + "\n" + b.content;
    AppendedIsSeparated(out, fullText);
    AppendedIsSeparated(out, CutText(b));
    if !exceeded {
      var candidate := Appended(out, fullText);
      if Size(candidate) <= BUDGET {
        return candidate, true, true;
      }
    }
    var cutText := CutBlock(b);
    var candidate := Appended(out, cutText);
    if Size(candidate) <= BUDGET {
      return candidate, false, true;
    }
    return out, false, false;
  }

  lemma AssembledAll(blocks: seq<Block>, shows: seq<Show>, out: string, truncatedCount: nat, exceeded: bool,
                     shown: nat, dropped: bool)
    requires Assembled(blocks, |blocks|, shows, out, truncatedCount, exceeded, shown, dropped)
    ensures |shows| == |blocks| && Follows(blocks, shows)
    ensures out == Body(blocks, shows) && truncatedCount == NotFull(shows) && shown == Shown(shows)
  {
    assert blocks[..|blocks|] == blocks;
  }

  /** The loop over the blocks, without the footer. */
  method AssembleBody(blocks: seq<Block>) returns (out: string, shown: nat, truncatedCount: nat, ghost shows: seq<Show>)
    ensures |shows| == |blocks| && Follows(blocks, shows)
    ensures out == Body(blocks, shows) && Size(out) <= BUDGET
    ensures shown == Shown(shows) && truncatedCount == NotFull(shows) <= |blocks|
  {
    out, shown, truncatedCount, shows := "", 0, 0, [];
    var budgetExceeded, dropped := false, false;
    for i := 0 to |blocks|
      invariant Assembled(blocks, i, shows, out, truncatedCount, budgetExceeded, shown, dropped)
      invariant Size(out) <= BUDGET
    {
      AssembledStep(blocks, i, shows, out, truncatedCount, budgetExceeded, shown, dropped);
      shows := shows + [Choice(out, blocks[i], budgetExceeded)];
      var emitted, full;
      out, full, emitted := PlaceBlock(out, blocks[i], budgetExceeded);
      budgetExceeded := !full;
      if emitted && !dropped {
        shown := shown + 1;
      }
      dropped := dropped || !emitted;
      if !full {
        truncatedCount := truncatedCount + 1;
      }
    }
    AssembledAll(blocks, shows, out, truncatedCount, budgetExceeded, shown, dropped);
  }

  method WithFooter(body: string, truncatedCount: nat, total: nat) returns (out: string)
    ensures out == body + Footer(truncatedCount, total)
    ensures Size(out) == Size(body) + Size(Footer(truncatedCount, total))
  {
    SizeAppend(body, Footer(truncatedCount, total));
    out := body;
    if truncatedCount > 0 {
      out := out + Footer(truncatedCount, total);
    } else {
      assert out + "" == out;
    }
  }

  method Assemble(blocks: seq<Block>) returns (out: string, shown: nat, ghost shows: seq<Show>)
    requires |blocks| <= USIZE_MAX
    ensures |shows| == |blocks| && Follows(blocks, shows)
    ensures out == Body(blocks, shows) + Footer(NotFull(shows), |blocks|)
    ensures shown == Shown(shows)
    ensures var truncated := |set k | 0 <= k < |shows| && !shows[k].Full?|;
            out == Body(blocks, shows)
                   + if truncated == 0 then ""
                     else FOOTER_OPEN + Decimal(truncated) + " of " + Decimal(|blocks|) + FOOTER_WHY + FOOTER_ADVICE
    ensures Size(out) <= MAX_TOOL_OUTPUT_CHARS - GREP_HINT_MAX_CHARS
  {
    var truncatedCount;
    out, shown, truncatedCount, shows := AssembleBody(blocks);
    FooterFits(truncatedCount, |blocks|);
    NotFullCounts(shows);
    out := WithFooter(out, truncatedCount, |blocks|);
  }

  /** The blocks shown in full are a prefix. */
  lemma FullIsPrefix(blocks: seq<Block>, shows: seq<Show>, i: nat, j: nat)
    requires |blocks| == |shows| && Follows(blocks, shows)
    requires i <= j < |shows| && shows[j].Full?
    ensures shows[i].Full?
  {
    forall k | 0 < k < |shows| && shows[k].Full? ensures shows[k - 1].Full? {
      FullAfterFull(blocks, shows, k);
    }
    FullBackTo(shows, i, j);
  }

  lemma {:induction false} FullBackTo(shows: seq<Show>, i: nat, j: nat)
    requires forall k :: 0 < k < |shows| && shows[k].Full? ==> shows[k - 1].Full?
    requires i <= j < |shows| && shows[j].Full?
    ensures shows[i].Full?
  {
    if i < j { FullBackTo(shows, i, j - 1); }
  }

  lemma FullAfterFull(blocks: seq<Block>, shows: seq<Show>, k: nat)
    requires |blocks| == |shows| && k < |shows| && FollowsAt(blocks, shows, k) && shows[k].Full?
    ensures k == 0 || shows[k - 1].Full?
  {
  }

  /** The rule leaves no choice. */
  lemma {:induction false} RuleIsDeterministic(blocks: seq<Block>, a: seq<Show>, b: seq<Show>, n: nat)
    requires |blocks| == |a| == |b| && Follows(blocks, a) && Follows(blocks, b) && n <= |a|
    ensures a[..n] == b[..n]
  {
    if n > 0 {
      RuleIsDeterministic(blocks, a, b, n - 1);
      SameChoice(blocks, a, b, n - 1);
      TakeOneMore(a, n - 1);
      TakeOneMore(b, n - 1);
    }
  }

  lemma SameChoice(blocks: seq<Block>, a: seq<Show>, b: seq<Show>, k: nat)
    requires |blocks| == |a| == |b| && k < |a| && a[..k] == b[..k]
    requires FollowsAt(blocks, a, k) && FollowsAt(blocks, b, k)
    ensures a[k] == b[k]
  {
    if k > 0 { assert a[k - 1] == a[..k][k - 1] == b[k - 1]; }
  }

  // ---------------------------------------------------------------------------------------
  // The search hint
  // ---------------------------------------------------------------------------------------

  predicate IsWordStart(c: char) {
    'a' <= c <= 'z' || 'A' <= c <= 'Z' || c == '_'
  }

  predicate IsWord(c: char) {
    IsWordStart(c) || '0' <= c <= '9'
  }

  predicate IsGreppable(name: Name) {
    && GREP_HINT_MIN_NAME_LEN <= Size(name.text) <= GREP_HINT_MAX_NAME_LEN
    && name.text != "" && IsWordStart(name.text[0])
    && forall i :: 0 <= i < |name.text| ==> IsWord(name.text[i])
  }

  /** Usable are names of 4 to 40 ASCII letters, digits and underscores that do not begin with a digit. */
  lemma GreppableIsAnIdentifier(name: Name)
    ensures IsGreppable(name) <==>
            && 4 <= |name.text| <= 40 && !('0' <= name.text[0] <= '9')
            && forall i :: 0 <= i < |name.text| ==>
                 var c := name.text[i]; 'a' <= c <= 'z' || 'A' <= c <= 'Z' || '0' <= c <= '9' || c == '_'
  {
    if forall i :: 0 <= i < |name.text| ==> IsWord(name.text[i]) {
      AsciiSize(name.text);
    }
  }

  function FirstGreppable(names: seq<Name>, n: nat): seq<Name> {
    if names == [] || n == 0 then []
    else if IsGreppable(names[0]) then [names[0]] + FirstGreppable(names[1..], n - 1)
    else FirstGreppable(names[1..], n)
  }

  function Defined(blocks: seq<Block>): seq<Name> {
    if blocks == [] then [] else Defined(blocks[..|blocks| - 1]) + blocks[|blocks| - 1].symbols
  }

  function Called(blocks: seq<Block>): seq<Name> {
    if blocks == [] then []
    else
      var k := |blocks| - 1;
      Called(blocks[..k]) + FirstGreppable(blocks[k].calleeNames, GREP_HINT_MAX_CALLEES_PER_BLOCK)
  }

  /** What the top blocks define, then what they call. */
  function Candidates(blocks: seq<Block>): seq<Name> {
    var top := if |blocks| <= GREP_HINT_MAX_BLOCKS then blocks else blocks[..GREP_HINT_MAX_BLOCKS];
    Defined(top) + Called(top)
  }

  /** The usable names in order, until there are `n` of them. */
  lemma {:induction false} FirstGreppableIsExact(names: seq<Name>, n: nat) returns (k: nat)
    ensures k <= |names| && KeepsInOrder(FirstGreppable(names, n), names[..k], IsGreppable)
    ensures |FirstGreppable(names, n)| <= n && (k < |names| ==> |FirstGreppable(names, n)| == n)
  {
    if names == [] || n == 0 {
      k := 0;
      KeepsNothing(IsGreppable);
    } else {
      var m := if IsGreppable(names[0]) then n - 1 else n;
      var i := FirstGreppableIsExact(names[1..], m);
      KeepsOneBefore(FirstGreppable(names[1..], m), names[1..][..i], names[0], IsGreppable);
      k := i + 1;
      assert names[..k] == [names[0]] + names[1..][..i];
      assert [] + FirstGreppable(names[1..], m) == FirstGreppable(names[1..], m);
    }
  }

  /** What the block at rank `i` defines, and what it calls; nothing if there is no such block. */
  function SymbolsAt(blocks: seq<Block>, i: nat): seq<Name> {
    if i < |blocks| then blocks[i].symbols else []
  }

  function CalleesAt(blocks: seq<Block>, i: nat): seq<Name> {
    if i < |blocks| then FirstGreppable(blocks[i].calleeNames, 3) else []
  }

  function FirstBlocks(blocks: seq<Block>, n: nat): seq<Block> {
    if n <= |blocks| then blocks[..n] else blocks
  }

  lemma NextBlock(blocks: seq<Block>, n: nat)
    ensures Defined(FirstBlocks(blocks, n + 1)) == Defined(FirstBlocks(blocks, n)) + SymbolsAt(blocks, n)
    ensures Called(FirstBlocks(blocks, n + 1)) == Called(FirstBlocks(blocks, n)) + CalleesAt(blocks, n)
  {
    if n < |blocks| {
      assert blocks[..n + 1][..n] == blocks[..n] && blocks[..n + 1][n] == blocks[n];
    } else {
      assert FirstBlocks(blocks, n) == blocks;
      Assoc(Defined(blocks), [], []);
      Assoc(Called(blocks), [], []);
    }
  }

  lemma FiveBlocks(blocks: seq<Block>)
    ensures Defined(FirstBlocks(blocks, 5))
         == [] + SymbolsAt(blocks, 0) + SymbolsAt(blocks, 1) + SymbolsAt(blocks, 2) + SymbolsAt(blocks, 3)
            + SymbolsAt(blocks, 4)
    ensures Called(FirstBlocks(blocks, 5))
         == [] + CalleesAt(blocks, 0) + CalleesAt(blocks, 1) + CalleesAt(blocks, 2) + CalleesAt(blocks, 3)
            + CalleesAt(blocks, 4)
  {
    assert FirstBlocks(blocks, 0) == [];
    NextBlock(blocks, 0);
    NextBlock(blocks, 1);
    NextBlock(blocks, 2);
    NextBlock(blocks, 3);
    NextBlock(blocks, 4);
  }

  /** The candidates in order: what each of the first five blocks defines, best block first, and only then
      what each of them calls, three usable names of each. */
  lemma DefinedBeforeCalled(blocks: seq<Block>)
    ensures Candidates(blocks)
         == (SymbolsAt(blocks, 0) + SymbolsAt(blocks, 1) + SymbolsAt(blocks, 2) + SymbolsAt(blocks, 3)
             + SymbolsAt(blocks, 4))
            + (CalleesAt(blocks, 0) + CalleesAt(blocks, 1) + CalleesAt(blocks, 2) + CalleesAt(blocks, 3)
               + CalleesAt(blocks, 4))
  {
    FiveBlocks(blocks);
    NothingBefore(SymbolsAt(blocks, 0));
    NothingBefore(CalleesAt(blocks, 0));
    assert |blocks| <= 5 ==> blocks == FirstBlocks(blocks, 5);
  }

  lemma NothingBefore<T>(s: seq<T>)
    ensures [] + s == s
  {
  }

  function Join(names: seq<Name>): string {
    if names == [] then ""
    else if |names| == 1 then names[0].text
    else Join(names[..|names| - 1]) + "|" + names[|names| - 1].text
  }

  /** What `name` adds to the pattern. */
  function Added(names: seq<Name>, name: Name): nat {
    Size(name.text) + if names == [] then 0 else 1
  }

  predicate Takes(names: seq<Name>, name: Name) {
    && |names| < GREP_HINT_MAX_SYMBOLS
    && IsGreppable(name) && name !in names
    && Size(Join(names)) + Added(names, name) <= GREP_HINT_MAX_PATTERN_CHARS
  }

  function Pick(candidates: seq<Name>): seq<Name> {
    if candidates == [] then []
    else
      var k := |candidates| - 1;
      var names := Pick(candidates[..k]);
      if Takes(names, candidates[k]) then names + [candidates[k]] else names
  }

  lemma JoinPush(names: seq<Name>, name: Name)
    ensures Join(names + [name]) == if names == [] then name.text else Join(names) + "|" + name.text
    ensures Size(Join(names + [name])) == Size(Join(names)) + Added(names, name)
  {
    Pushed(names, name);
    AsciiSize("|");
    if names != [] {
      SizeAppend(Join(names), "|");
      SizeAppend(Join(names) + "|", name.text);
    } else {
      assert Size(Join(names)) == 0;
    }
  }

  predicate Distinct(names: seq<Name>) {
    forall i, j :: 0 <= i < j < |names| ==> names[i] != names[j]
  }

  /** The picked names are distinct usable candidates within both caps. */
  lemma {:induction false} PickIsSound(candidates: seq<Name>)
    ensures Distinct(Pick(candidates))
    ensures forall n :: n in Pick(candidates) ==> n in candidates && IsGreppable(n)
    ensures |Pick(candidates)| <= GREP_HINT_MAX_SYMBOLS
    ensures Size(Join(Pick(candidates))) <= GREP_HINT_MAX_PATTERN_CHARS
  {
    if candidates != [] {
      var k := |candidates| - 1;
      var names := Pick(candidates[..k]);
      PickIsSound(candidates[..k]);
      if Takes(names, candidates[k]) { JoinPush(names, candidates[k]); }
    }
  }

  /** Nothing more of the length of `c` would go in. */
  predicate NoRoom(names: seq<Name>, c: Name) {
    |names| == GREP_HINT_MAX_SYMBOLS || Size(Join(names)) + 1 + Size(c.text) > GREP_HINT_MAX_PATTERN_CHARS
  }

  lemma RefusedForRoom(names: seq<Name>, c: Name)
    requires IsGreppable(c) && c !in names && !Takes(names, c) && |names| <= GREP_HINT_MAX_SYMBOLS
    ensures NoRoom(names, c)
  {
  }

  lemma RoomWhenEmpty(names: seq<Name>, c: Name)
    requires IsGreppable(c) && NoRoom(names, c)
    ensures names != []
  {
  }

  lemma RoomOnlyShrinks(names: seq<Name>, name: Name, c: Name)
    requires NoRoom(names, c) && Takes(names, name)
    ensures NoRoom(names + [name], c)
  {
    JoinPush(names, name);
  }

  lemma GreedyStep(names: seq<Name>, name: Name, c: Name)
    requires |names| <= GREP_HINT_MAX_SYMBOLS && IsGreppable(c)
    requires c !in (if Takes(names, name) then names + [name] else names)
    requires c == name || NoRoom(names, c)
    ensures NoRoom(if Takes(names, name) then names + [name] else names, c)
  {
    if Takes(names, name) {
      RoomOnlyShrinks(names, name, c);
    } else if !NoRoom(names, c) {
      RefusedForRoom(names, c);
    }
  }

  lemma PickCap(candidates: seq<Name>)
    ensures |Pick(candidates)| <= GREP_HINT_MAX_SYMBOLS
  {
    PickIsSound(candidates);
  }

  lemma LastOrBefore<T>(s: seq<T>, x: T)
    requires x in s
    ensures x == s[|s| - 1] || x in s[..|s| - 1]
  {
  }

  /** A usable candidate is left out only for want of room, and room is never regained. */
  lemma {:induction false} PickIsGreedy(candidates: seq<Name>, c: Name)
    requires c in candidates && IsGreppable(c) && c !in Pick(candidates)
    ensures NoRoom(Pick(candidates), c)
  {
    var k := |candidates| - 1;
    LastOrBefore(candidates, c);
    PickCap(candidates[..k]);
    if c != candidates[k] {
      PickIsGreedy(candidates[..k], c);
    }
    GreedyStep(Pick(candidates[..k]), candidates[k], c);
  }

  /** Later candidates never displace earlier ones. */
  lemma {:induction false} PickKeepsOrder(candidates: seq<Name>, i: nat)
    requires i <= |candidates|
    ensures Pick(candidates[..i]) <= Pick(candidates)
  {
    if i == |candidates| {
      assert candidates[..i] == candidates;
    } else {
      PickKeepsOrder(candidates[..|candidates| - 1], i);
      assert candidates[..|candidates| - 1][..i] == candidates[..i];
    }
  }

  /** There is a hint exactly when some candidate is usable. */
  lemma NoHintIffNothingUsable(candidates: seq<Name>)
    ensures Pick(candidates) == [] <==> forall c :: c in candidates ==> !IsGreppable(c)
  {
    PickIsSound(candidates);
    forall c | c in candidates && IsGreppable(c) ensures Pick(candidates) != [] {
      if c !in Pick(candidates) {
        PickIsGreedy(candidates, c);
        RoomWhenEmpty(Pick(candidates), c);
      }
    }
    if Pick(candidates) != [] {
      assert Pick(candidates)[0] in Pick(candidates);
    }
  }

  /** Safe inside single quotes: only identifier characters and bars. */
  lemma {:induction false} PatternIsQuotable(names: seq<Name>)
    requires forall n :: n in names ==> IsGreppable(n)
    ensures forall i :: 0 <= i < |Join(names)| ==> IsWord(Join(names)[i]) || Join(names)[i] == '|'
  {
    if |names| == 1 {
      assert names[0] in names;
    } else if names != [] {
      PatternIsQuotable(names[..|names| - 1]);
      assert names[|names| - 1] in names;
    }
  }

  const HINT_OPEN := "\n\n---\n" + "Results above "
  const HINT_SCOPE := "are top-k, not " + "exhaustive. "
  const HINT_WHY := "To find every " + "usage of a symbol, "
  const HINT_HOW := "search the repo " + "literally:\nrg '"
  const HINT_OR := "'   (or: grep -rE '"
  const HINT_CLOSE := "')"

  function HintText(pattern: string): string {
    HINT_OPEN + HINT_SCOPE + HINT_WHY + HINT_HOW + pattern + HINT_OR + pattern + HINT_CLOSE
  }

  lemma HintFirstLineFits()
    ensures Size(HINT_OPEN) + Size(HINT_SCOPE) <= 60
  {
    AsciiSize(HINT_OPEN);
    AsciiSize(HINT_SCOPE);
  }

  lemma HintSecondLineFits()
    ensures Size(HINT_WHY) + Size(HINT_HOW) <= 80
  {
    AsciiSize(HINT_WHY);
    AsciiSize(HINT_HOW);
  }

  lemma HintOpeningFits()
    ensures Size(HINT_OPEN + HINT_SCOPE + HINT_WHY + HINT_HOW) <= 140
  {
    HintFirstLineFits();
    HintSecondLineFits();
    SizeAppend(HINT_OPEN, HINT_SCOPE);
    SizeAppend(HINT_OPEN + HINT_SCOPE, HINT_WHY);
    SizeAppend(HINT_OPEN + HINT_SCOPE + HINT_WHY, HINT_HOW);
  }

  lemma HintRestFits()
    ensures Size(HINT_OR) + Size(HINT_CLOSE) <= 60
  {
    AsciiSize(HINT_OR);
    AsciiSize(HINT_CLOSE);
  }

  lemma FrameSize(a: string, b: string, c: string, d: string, e: string)
    ensures Size(a + b + c + d + e) == Size(a) + Size(b) + Size(c) + Size(d) + Size(e)
  {
    SizeAppend(a, b);
    SizeAppend(a + b, c);
    SizeAppend(a + b + c, d);
    SizeAppend(a + b + c + d, e);
  }

  lemma HintFits(pattern: string)
    requires Size(pattern) <= GREP_HINT_MAX_PATTERN_CHARS
    ensures Size(HintText(pattern)) <= GREP_HINT_MAX_CHARS
  {
    HintOpeningFits();
    HintRestFits();
    FrameSize(HINT_OPEN + HINT_SCOPE + HINT_WHY + HINT_HOW, pattern, HINT_OR, pattern, HINT_CLOSE);
  }

  method PickNames(candidates: seq<Name>) returns (names: seq<Name>)
    ensures names == Pick(candidates)
  {
    names := [];
    var patternLen := 0;
    for i := 0 to |candidates|
      invariant names == Pick(candidates[..i]) && patternLen == Size(Join(names))
    {
      TakeOneMore(candidates, i);
      Pushed(candidates[..i], candidates[i]);
      if |names| >= GREP_HINT_MAX_SYMBOLS {
        FullPickStays(candidates, i);
        return;
      }
      var name := candidates[i];
      if !IsGreppable(name) || name in names {
        continue;
      }
      var added := Size(name.text) + if names == [] then 0 else 1;
      if patternLen + added > GREP_HINT_MAX_PATTERN_CHARS {
        continue;
      }
      JoinPush(names, name);
      patternLen := patternLen + added;
      names := names + [name];
    }
    assert candidates[..|candidates|] == candidates;
  }

  /** Stopping at five names loses nothing. */
  lemma FullPickStays(candidates: seq<Name>, i: nat)
    requires i <= |candidates| && |Pick(candidates[..i])| >= GREP_HINT_MAX_SYMBOLS
    ensures Pick(candidates) == Pick(candidates[..i])
  {
    PickKeepsOrder(candidates, i);
    PickIsSound(candidates);
  }

  method BuildGrepHint(blocks: seq<Block>) returns (hint: Option<string>)
    ensures hint == var names := Pick(Candidates(blocks)); if names == [] then None else Some(HintText(Join(names)))
  {
    var names := PickNames(Candidates(blocks));
    if names == [] {
      return None;
    }
    return Some(HintText(Join(names)));
  }

  /** The whole answer: blocks, footer, and a hint drawn from the blocks that appear. */
  method AssembleWithGrepHint(blocks: seq<Block>) returns (answer: string, ghost shows: seq<Show>)
    requires |blocks| <= USIZE_MAX
    ensures Size(answer) <= MAX_TOOL_OUTPUT_CHARS
    ensures |shows| == |blocks| && Follows(blocks, shows)
    ensures answer == Body(blocks, shows) + Footer(NotFull(shows), |blocks|) + Hint(blocks[..Shown(shows)])
  {
    var assembled, shown;
    assembled, shown, shows := Assemble(blocks);
    var hint := BuildGrepHint(blocks[..shown]);
    PickIsSound(Candidates(blocks[..shown]));
    HintFits(Join(Pick(Candidates(blocks[..shown]))));
    SizeAppend(assembled, Hint(blocks[..shown]));
    if hint.Some? {
      answer := assembled + hint.value;
    } else {
      answer := assembled;
      assert assembled + "" == assembled;
    }
  }

  function Hint(blocks: seq<Block>): string {
    var names := Pick(Candidates(blocks));
    if names == [] then "" else HintText(Join(names))
  }
}
