/**
 UTF-8 sizes, and cutting text at a character boundary (`src/chat.rs`, `src/mcp.rs`).
 */
module Utf8 {

  const USIZE_MAX: nat := 0xFFFF_FFFF_FFFF_FFFF

  function CharSize(c: char): (n: nat)
    ensures 1 <= n <= 4
  {
    if c as int < 0x80 then 1 else if c as int < 0x800 then 2 else if c as int < 0x1_0000 then 3 else 4
  }

  /** The length of `s` in bytes. */
  function Size(s: string): nat {
    if s == "" then 0 else Size(s[..|s| - 1]) + CharSize(s[|s| - 1])
  }

  lemma {:induction false} SizeAppend(s: string, t: string)
    ensures Size(s + t) == Size(s) + Size(t)
  {
    if t == "" {
      assert s + t == s;
    } else {
      SizeAppend(s, t[..|t| - 1]);
      assert (s + t)[..|s + t| - 1] == s + t[..|t| - 1];
    }
  }

  predicate Ascii(s: string) {
    forall i :: 0 <= i < |s| ==> s[i] as int < 0x80
  }

  lemma {:induction false} AsciiSize(s: string)
    requires Ascii(s)
    ensures Size(s) == |s|
  {
    if s != "" { AsciiSize(s[..|s| - 1]); }
  }

  lemma {:induction false} LongerIsLarger(s: string, j: nat, k: nat)
    requires j < k <= |s|
    ensures Size(s[..j]) < Size(s[..k])
  {
    assert s[..k][..k - 1] == s[..k - 1];
    if j < k - 1 { LongerIsLarger(s, j, k - 1); }
  }

  predicate IsCharBoundary(s: string, end: nat) {
    exists k :: 0 <= k <= |s| && Size(s[..k]) == end
  }

  /** The first `end` bytes of `s`. */
  function Head(s: string, end: nat): (head: string)
    requires IsCharBoundary(s, end)
    ensures head <= s && Size(head) == end
  {
    if Size(s) == end then s
    else
      var k :| 0 <= k <= |s| && Size(s[..k]) == end;
      assert s[..|s|] == s;
      var shorter := s[..|s| - 1];
      assert shorter[..k] == s[..k];
      Head(shorter, end)
  }

  /** The longest run of leading characters that fits in `max` bytes. */
  function Longest(s: string, max: nat): (head: string)
    ensures head <= s && Size(head) <= max
  {
    if Size(s) <= max then s else Longest(s[..|s| - 1], max)
  }

  lemma {:induction false} LongestIsLongest(s: string, max: nat, k: nat)
    requires k <= |s| && Size(s[..k]) <= max
    ensures k <= |Longest(s, max)|
  {
    assert s[..|s|] == s;
    if Size(s) > max {
      assert s[..|s| - 1][..k] == s[..k];
      LongestIsLongest(s[..|s| - 1], max, k);
    }
  }

  const ELLIPSIS := "\U{2026}"

  function Truncated(s: string, max: nat): string {
    if Size(s) <= max then s else Longest(s, max) + ELLIPSIS
  }

  lemma TruncatedFits(s: string, max: nat)
    ensures Size(Truncated(s, max)) <= max + 3
    ensures Size(s) > max ==> Size(Longest(s, max)) + 3 == Size(Truncated(s, max))
  {
    SizeAppend(Longest(s, max), ELLIPSIS);
  }

  /** Steps back from `max` to the nearest character boundary. */
  method TruncateBytes(s: string, max: nat) returns (cut: string)
    ensures cut == Truncated(s, max)
  {
    if Size(s) <= max {
      return s;
    }
    var end := max;
    ghost var best := Longest(s, max);
    assert s[..|best|] == best && s[..0] == "";
    while end > 0 && !IsCharBoundary(s, end)
      invariant Size(best) <= end <= max
    {
      assert IsCharBoundary(s, Size(best));
      end := end - 1;
    }
    assert Size(s[..0]) == 0;
    var head := Head(s, end);
    assert s[..|head|] == head;
    LongestIsLongest(s, max, |head|);
    if |head| < |best| { LongerIsLarger(s, |head|, |best|); }
    cut := head + ELLIPSIS;
  }

  // ---------------------------------------------------------------------------------------
  // Numbers in text
  // ---------------------------------------------------------------------------------------

  function Digit(n: nat): (c: char)
    requires n < 10
    ensures c as int < 0x80
  {
    '0' + n as char
  }

  function Decimal(n: nat): (s: string)
    ensures s != "" && Ascii(s)
  {
    if n < 10 then [Digit(n)] else Decimal(n / 10) + [Digit(n % 10)]
  }

  predicate IsDigit(c: char) {
    '0' <= c <= '9'
  }

  /** The number a row of digits stands for, the first digit weighing most. */
  function NumberOf(s: string): nat
    requires forall i :: 0 <= i < |s| ==> IsDigit(s[i])
  {
    if s == "" then 0
    else
      var c := s[|s| - 1];
      assert IsDigit(c);
      10 * NumberOf(s[..|s| - 1]) + (c as int - '0' as int)
  }

  /** The text of a number is digits that read as the number, without a leading zero. */
  lemma {:induction false} DecimalReadsBack(n: nat)
    ensures forall i :: 0 <= i < |Decimal(n)| ==> IsDigit(Decimal(n)[i])
    ensures NumberOf(Decimal(n)) == n
    ensures |Decimal(n)| > 1 ==> Decimal(n)[0] != '0'
  {
    var s := Decimal(n);
    if n < 10 {
      assert s == [Digit(n)] && s[..0] == "";
    } else {
      DecimalReadsBack(n / 10);
      assert s[..|s| - 1] == Decimal(n / 10);
      if n / 10 < 10 { assert Decimal(n / 10) == [Digit(n / 10)]; }
    }
  }

  function Pow10(k: nat): nat {
    if k == 0 then 1 else 10 * Pow10(k - 1)
  }

  lemma {:induction false} DecimalLength(n: nat, k: nat)
    requires n < Pow10(k) && k > 0
    ensures Size(Decimal(n)) <= k
  {
    AsciiSize(Decimal(n));
    if n >= 10 {
      DecimalLength(n / 10, k - 1);
      AsciiSize(Decimal(n / 10));
    }
  }

  lemma CountFits(n: nat)
    requires n <= USIZE_MAX
    ensures Size(Decimal(n)) <= 20
  {
    assert Pow10(5) == 100_000;
    assert Pow10(10) == 100_000 * Pow10(5);
    assert Pow10(15) == 100_000 * Pow10(10);
    assert Pow10(20) == 100_000 * Pow10(15);
    DecimalLength(n, 20);
  }
}
