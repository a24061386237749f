/** The string manipulation the loader applies to every cell: Python's
    `str.strip()` and `str.replace('"', '')` on text cells (dashboard.py
    line 29), and, for the metric columns, `str.replace(",", ".")` followed by
    the regular-expression deletion of `[^\d\.\-]` (lines 48-52). */
module Text {
  import opened Seqs

  /** The code points for which Python's `str.isspace()` holds; these are
      what `str.strip()` with no argument removes. */
  predicate IsSpace(c: char) {
    || ('\t' <= c <= '\r')
    || ('\U{1C}' <= c <= '\U{1F}')
    || c == ' '
    || c == '\U{85}'
    || c == '\U{A0}'
    || c == '\U{1680}'
    || ('\U{2000}' <= c <= '\U{200A}')
    || c == '\U{2028}'
    || c == '\U{2029}'
    || c == '\U{202F}'
    || c == '\U{205F}'
    || c == '\U{3000}'
  }

  predicate IsDigit(c: char) {
    '0' <= c <= '9'
  }

  /** The characters the metric normaliser keeps: digits, '.' and '-'. */
  predicate IsNumericChar(c: char) {
    IsDigit(c) || c == '.' || c == '-'
  }

  /** The length of the longest all-space prefix. */
  function LeadingSpaces(s: string): (n: nat)
    ensures n <= |s|
    ensures forall k :: 0 <= k < n ==> IsSpace(s[k])
    ensures n == |s| || !IsSpace(s[n])
  {
    if |s| > 0 && IsSpace(s[0]) then 1 + LeadingSpaces(s[1..]) else 0
  }

  /** Where the longest all-space suffix begins. */
  function TrailingStart(s: string): (n: nat)
    ensures n <= |s|
    ensures forall k :: n <= k < |s| ==> IsSpace(s[k])
    ensures n == 0 || !IsSpace(s[n - 1])
  {
    if |s| > 0 && IsSpace(s[|s| - 1]) then TrailingStart(s[..|s| - 1]) else |s|
  }

  /** Removes the leading whitespace: the longest all-space prefix goes. */
  function StripLeading(s: string): string {
    s[LeadingSpaces(s)..]
  }

  /** Removes the trailing whitespace: the longest all-space suffix goes. */
  function StripTrailing(s: string): string {
    s[..TrailingStart(s)]
  }

  /** What `StripLeading` removes is whitespace, and what it keeps does not
      start with whitespace. */
  lemma StripLeadingCuts(s: string)
    ensures |StripLeading(s)| <= |s| && StripLeading(s) == s[|s| - |StripLeading(s)|..]
    ensures forall k :: 0 <= k < |s| - |StripLeading(s)| ==> IsSpace(s[k])
    ensures StripLeading(s) == [] || !IsSpace(StripLeading(s)[0])
  {
    var n := LeadingSpaces(s);
    if n < |s| {
      assert StripLeading(s)[0] == s[n];
    }
  }

  /** What `StripTrailing` removes is whitespace, and what it keeps does not
      end with whitespace. */
  lemma StripTrailingCuts(s: string)
    ensures |StripTrailing(s)| <= |s| && StripTrailing(s) == s[..|StripTrailing(s)|]
    ensures forall k :: |StripTrailing(s)| <= k < |s| ==> IsSpace(s[k])
    ensures StripTrailing(s) == [] || !IsSpace(StripTrailing(s)[|StripTrailing(s)| - 1])
  {
    var n := TrailingStart(s);
    if n > 0 {
      assert StripTrailing(s)[n - 1] == s[n - 1];
    }
  }

  /** Python's `str.strip()`. */
  function Strip(s: string): string {
    StripTrailing(StripLeading(s))
  }

  /** `Strip(s)` is the slice `s[i..j]` left once the whitespace at both ends
      is cut off, and it neither starts nor ends with whitespace. */
  lemma StripIsTrimmedSlice(s: string) returns (i: nat, j: nat)
    ensures i <= j <= |s| && Strip(s) == s[i..j]
    ensures forall k :: 0 <= k < i ==> IsSpace(s[k])
    ensures forall k :: j <= k < |s| ==> IsSpace(s[k])
    ensures Strip(s) == [] || (!IsSpace(s[i]) && !IsSpace(s[j - 1]))
  {
    i := LeadingSpaces(s);
    var l := s[i..];
    var n := TrailingStart(l);
    j := i + n;
    assert Strip(s) == l[..n];
    TrimmedEnds(s, i, l, l[..n]);
  }

  /** The facts about a slice `r` of the suffix `l == s[i..]`, phrased on `s`. */
  lemma TrimmedEnds(s: string, i: nat, l: string, r: string)
    requires i <= |s| && l == s[i..] && |r| <= |l| && r == l[..|r|]
    requires forall k :: |r| <= k < |l| ==> IsSpace(l[k])
    requires r == [] || !IsSpace(r[|r| - 1])
    ensures r == s[i..i + |r|]
    ensures forall k :: i + |r| <= k < |s| ==> IsSpace(s[k])
    ensures r == [] || !IsSpace(s[i + |r| - 1])
  {
    SliceOfSuffix(s, i, |r|);
    TrailingOfSuffix(s, i, |r|);
    if r != [] {
      assert r[|r| - 1] == l[|r| - 1] == s[i + |r| - 1];
    }
  }

  lemma SliceOfSuffix(s: string, i: nat, n: nat)
    requires i + n <= |s|
    ensures s[i..][..n] == s[i..i + n]
  {
  }

  /** Whitespace at the end of the suffix `s[i..]` is whitespace at the end
      of `s`. */
  lemma TrailingOfSuffix(s: string, i: nat, n: nat)
    requires i + n <= |s| && forall k :: n <= k < |s| - i ==> IsSpace(s[i..][k])
    ensures forall k :: i + n <= k < |s| ==> IsSpace(s[k])
  {
    forall k | i + n <= k < |s|
      ensures IsSpace(s[k])
    {
      assert s[k] == s[i..][k - i];
    }
  }

  /** `str.replace('"', '')`. */
  function RemoveQuotes(s: string): (r: string)
    ensures '"' !in r
  {
    if s == [] then []
    else
      var rest := RemoveQuotes(s[1..]);
      if s[0] == '"' then rest else [s[0]] + rest
  }

  /** Deleting the quotes keeps every other character, in order and with
      its multiplicity. */
  lemma {:induction false} RemoveQuotesKeepsOthers(s: string)
    ensures IsSubsequence(RemoveQuotes(s), s)
    ensures forall c :: c != '"' ==> multiset(RemoveQuotes(s))[c] == multiset(s)[c]
  {
    if s != [] {
      RemoveQuotesKeepsOthers(s[1..]);
      assert s == [s[0]] + s[1..];
    }
  }

  /** The cleaning the loader applies to every text cell: strip, then delete
      every double quote. */
  function CleanText(s: string): string {
    RemoveQuotes(Strip(s))
  }

  /** `str.replace(",", ".")`: every comma becomes a period, in place. */
  function CommaToDot(s: string): (r: string)
    ensures |r| == |s| && ',' !in r
    ensures forall k :: 0 <= k < |s| && s[k] != ',' ==> r[k] == s[k]
    ensures forall k :: 0 <= k < |s| && s[k] == ',' ==> r[k] == '.'
  {
    seq(|s|, k requires 0 <= k < |s| => if s[k] == ',' then '.' else s[k])
  }

  /** `str.replace(r"[^\d\.\-]", "", regex=True)`: keeps exactly the digits,
      periods and minus signs, in their order. */
  function KeepNumeric(s: string): (r: string)
    ensures forall k :: 0 <= k < |r| ==> IsNumericChar(r[k])
  {
    if s == [] then []
    else
      var rest := KeepNumeric(s[1..]);
      if IsNumericChar(s[0]) then [s[0]] + rest else rest
  }

  /** The normalisation of a metric cell's text before it is parsed. */
  function NormaliseMetric(s: string): string {
    KeepNumeric(CommaToDot(s))
  }

  /** Only digits, '.' and '-' survive, so in particular no comma. */
  lemma NormaliseMetricAlphabet(s: string)
    ensures forall k :: 0 <= k < |NormaliseMetric(s)| ==> IsNumericChar(NormaliseMetric(s)[k])
    ensures ',' !in NormaliseMetric(s)
  {
  }

  /** The kept characters appear in the input in the same order, each
      digit, '.' and '-' as often as in the input. */
  lemma {:induction false} KeepNumericSubsequence(s: string)
    ensures IsSubsequence(KeepNumeric(s), s)
    ensures forall c :: multiset(KeepNumeric(s))[c] == if IsNumericChar(c) then multiset(s)[c] else 0
  {
    if s != [] {
      KeepNumericSubsequence(s[1..]);
      assert s == [s[0]] + s[1..];
    }
  }

  /** The normalised text is the comma-mapped input with characters deleted,
      so it is never longer than the input. */
  lemma NormaliseMetricShrinks(s: string)
    ensures IsSubsequence(NormaliseMetric(s), CommaToDot(s))
    ensures |NormaliseMetric(s)| <= |s|
  {
    KeepNumericSubsequence(CommaToDot(s));
    SubsequenceLength(NormaliseMetric(s), CommaToDot(s));
  }

  lemma {:induction false} KeepNumericKeepsNumeric(s: string)
    requires forall k :: 0 <= k < |s| ==> IsNumericChar(s[k])
    ensures KeepNumeric(s) == s
  {
    if s != [] {
      KeepNumericKeepsNumeric(s[1..]);
      assert s == [s[0]] + s[1..];
    }
  }

  /** A prefix without digits, '.' or '-' is dropped entirely. */
  lemma {:induction false} KeepNumericDropsPrefix(s: string, n: nat)
    requires n <= |s| && forall k :: 0 <= k < n ==> !IsNumericChar(s[k])
    ensures KeepNumeric(s) == KeepNumeric(s[n..])
  {
    if n > 0 {
      assert s[1..][n - 1..] == s[n..];
      KeepNumericDropsPrefix(s[1..], n - 1);
    }
  }

  /** A string made only of digits, '.' and '-' is left as it is. */
  lemma NormaliseMetricFixesNumeric(s: string)
    requires forall k :: 0 <= k < |s| ==> IsNumericChar(s[k])
    ensures NormaliseMetric(s) == s
  {
    assert CommaToDot(s) == s;
    KeepNumericKeepsNumeric(s);
  }

  /** Normalising twice is normalising once. */
  lemma NormaliseMetricIdempotent(s: string)
    ensures NormaliseMetric(NormaliseMetric(s)) == NormaliseMetric(s)
  {
    NormaliseMetricFixesNumeric(NormaliseMetric(s));
  }
}
