/**
 * The string primitives the core leans on: ordinal substring search (`string.IndexOf`),
 * white-space trimming (`string.Trim`), ordinal case-insensitive comparison and
 * single-character replacement (`string.Replace(char, char)`).
 */
module Text {
  import opened Wrappers

  /** `char.IsWhiteSpace`: the Unicode space separators, line and paragraph separators,
      and the control characters U+0009..U+000D and U+0085. */
  predicate IsWhiteSpace(c: char)
  {
    c == ' ' || ('\t' <= c <= '\r') || c == '\U{0085}' || c == '\U{00A0}' || c == '\U{1680}'
    || ('\U{2000}' <= c <= '\U{200A}') || c == '\U{2028}' || c == '\U{2029}' || c == '\U{202F}'
    || c == '\U{205F}' || c == '\U{3000}'
  }

  /** The characters of `s` from position `j` on agree with `pat`, one by one. */
  predicate MatchesAt(s: string, pat: string, j: nat)
    requires j + |pat| <= |s|
    decreases |pat|
  {
    |pat| == 0 || (s[j] == pat[0] && MatchesAt(s, pat[1..], j + 1))
  }

  /** `pat` occurs in `s` starting at position `j`. */
  predicate OccursAt(s: string, pat: string, j: int)
  {
    0 <= j && j + |pat| <= |s| && MatchesAt(s, pat, j)
  }

  /** Agreeing character by character is agreeing as a slice. */
  lemma {:induction false} MatchesAtSlice(s: string, pat: string, j: nat)
    requires j + |pat| <= |s|
    ensures MatchesAt(s, pat, j) <==> s[j..j + |pat|] == pat
    decreases |pat|
  {
    if |pat| > 0 {
      MatchesAtSlice(s, pat[1..], j + 1);
      assert s[j..j + |pat|] == [s[j]] + s[j + 1..j + 1 + |pat[1..]|];
      assert pat == [pat[0]] + pat[1..];
    }
  }

  /** An occurrence of `pat` at `j` puts `pat[d]` at position `j + d`. */
  lemma {:induction false} OccursAtIndex(s: string, pat: string, j: nat, d: nat)
    requires d < |pat|
    ensures OccursAt(s, pat, j) ==> j + d < |s| && s[j + d] == pat[d]
    decreases d
  {
    if OccursAt(s, pat, j) && d > 0 {
      OccursAtIndex(s, pat[1..], j + 1, d - 1);
    }
  }

  /** `k` is the first position at or after `from` where `pat` occurs in `s`. */
  predicate FirstOccurrence(s: string, pat: string, from: nat, k: nat)
  {
    from <= k && OccursAt(s, pat, k) && forall j :: from <= j < k ==> !OccursAt(s, pat, j)
  }

  /** `s.IndexOf(pat, from)` with ordinal comparison: the first occurrence at or after `from`,
      or None where the source returns -1. The source's callers never pass `from > |s|`
      (the .NET method throws there). */
  function IndexOf(s: string, pat: string, from: nat): (r: Option<nat>)
    requires from <= |s|
    ensures r.Some? ==> from <= r.value && r.value + |pat| <= |s|
    decreases |s| - from
  {
    if from + |pat| > |s| then None
    else if MatchesAt(s, pat, from) then Some(from)
    else IndexOf(s, pat, from + 1)
  }

  /** The search finds the first occurrence at or after `from`, and reports none only when
      there is none. */
  lemma {:induction false} IndexOfFirst(s: string, pat: string, from: nat)
    requires from <= |s|
    ensures IndexOf(s, pat, from).Some? ==> FirstOccurrence(s, pat, from, IndexOf(s, pat, from).value)
    ensures IndexOf(s, pat, from).None? ==> forall j :: from <= j ==> !OccursAt(s, pat, j)
    decreases |s| - from
  {
    if from + |pat| <= |s| && !MatchesAt(s, pat, from) {
      IndexOfFirst(s, pat, from + 1);
    }
  }

  /** A one-character pattern occurs exactly where that character stands. */
  lemma OccursAtChar(s: string, c: char, j: int)
    ensures OccursAt(s, [c], j) <==> 0 <= j < |s| && s[j] == c
  {
    if 0 <= j < |s| {
      assert [c][1..] == [];
      assert MatchesAt(s, [], j + 1);
      assert MatchesAt(s, [c], j) == (s[j] == c && MatchesAt(s, [c][1..], j + 1));
    }
  }

  /** The first position at or after `i` holding a non-white-space character (or `|s|`). */
  function SkipWhite(s: string, i: nat): (k: nat)
    requires i <= |s|
    ensures i <= k <= |s|
    ensures forall j :: i <= j < k ==> IsWhiteSpace(s[j])
    ensures k < |s| ==> !IsWhiteSpace(s[k])
    decreases |s| - i
  {
    if i == |s| || !IsWhiteSpace(s[i]) then i else SkipWhite(s, i + 1)
  }

  /** Walking back from `j` towards `lo`: one past the last non-white-space character
      of `s[lo..j]`, or `lo` when that slice is all white space. */
  function SkipWhiteBack(s: string, lo: nat, j: nat): (k: nat)
    requires lo <= j <= |s|
    ensures lo <= k <= j
    ensures forall m :: k <= m < j ==> IsWhiteSpace(s[m])
    ensures lo < k ==> !IsWhiteSpace(s[k - 1])
    decreases j
  {
    if j == lo || !IsWhiteSpace(s[j - 1]) then j else SkipWhiteBack(s, lo, j - 1)
  }

  /** `string.Trim()`: drop leading and trailing white space. */
  function Trim(s: string): (r: string)
    ensures |r| <= |s|
    ensures r == [] || (!IsWhiteSpace(r[0]) && !IsWhiteSpace(r[|r| - 1]))
    ensures r == [] <==> forall j :: 0 <= j < |s| ==> IsWhiteSpace(s[j])
  {
    var lo := SkipWhite(s, 0);
    var hi := SkipWhiteBack(s, lo, |s|);
    s[lo..hi]
  }

  /** Trimming adds no character: one absent from `s` is absent from `Trim(s)`. */
  lemma TrimKeepsAbsent(s: string, c: char)
    requires c !in s
    ensures c !in Trim(s)
  {
    var lo := SkipWhite(s, 0);
    var hi := SkipWhiteBack(s, lo, |s|);
    forall i | 0 <= i < hi - lo ensures s[lo..hi][i] != c {
      assert s[lo..hi][i] == s[lo + i];
    }
  }

  /** Trim is the unique core of a white/core/white decomposition: whenever `s` is white space,
      then `s[lo..hi]`, then white space, and the core neither starts nor ends with white space,
      Trim returns exactly that core. */
  lemma TrimCharacterised(s: string, lo: nat, hi: nat)
    requires lo <= hi <= |s|
    requires forall j :: 0 <= j < lo ==> IsWhiteSpace(s[j])
    requires forall j :: hi <= j < |s| ==> IsWhiteSpace(s[j])
    requires lo < hi ==> !IsWhiteSpace(s[lo]) && !IsWhiteSpace(s[hi - 1])
    ensures Trim(s) == s[lo..hi]
  {
  }

  /** Upper-casing used by ordinal case-insensitive comparison, on the ASCII letters. */
  function UpperAscii(c: char): (u: char)
    ensures 'a' <= c <= 'z' ==> 'A' <= u <= 'Z' && u as int == c as int - 32
    ensures !('a' <= c <= 'z') ==> u == c
  {
    if 'a' <= c <= 'z' then (c as int - 32) as char else c
  }

  /** `a.Equals(b, StringComparison.OrdinalIgnoreCase)`, compared character by character. */
  predicate EqualsIgnoreCase(a: string, b: string)
    decreases |a|
  {
    |a| == |b| && (|a| == 0 || (UpperAscii(a[0]) == UpperAscii(b[0]) && EqualsIgnoreCase(a[1..], b[1..])))
  }

  /** Two strings are equal ignoring case exactly when they have the same length and agree
      position by position after upper-casing. */
  lemma {:induction false} EqualsIgnoreCaseIndexwise(a: string, b: string)
    ensures EqualsIgnoreCase(a, b) <==>
      |a| == |b| && forall i :: 0 <= i < |a| ==> UpperAscii(a[i]) == UpperAscii(b[i])
    decreases |a|
  {
    if |a| > 0 && |a| == |b| {
      EqualsIgnoreCaseIndexwise(a[1..], b[1..]);
      assert forall i :: 1 <= i < |a| ==> a[1..][i - 1] == a[i] && b[1..][i - 1] == b[i];
    }
  }

  /** `s.Replace(from, to)` for characters: every `from` becomes `to`, nothing else changes. */
  function ReplaceChar(s: string, from: char, to: char): (r: string)
    ensures |r| == |s|
    ensures forall i :: 0 <= i < |s| ==> r[i] == (if s[i] == from then to else s[i])
  {
    if s == [] then [] else [if s[0] == from then to else s[0]] + ReplaceChar(s[1..], from, to)
  }

  /** Replacing characters distributes over concatenation. */
  lemma {:induction false} ReplaceCharAppend(a: string, b: string, from: char, to: char)
    ensures ReplaceChar(a + b, from, to) == ReplaceChar(a, from, to) + ReplaceChar(b, from, to)
  {
    if a == [] {
      assert a + b == b;
    } else {
      assert (a + b)[1..] == a[1..] + b;
      ReplaceCharAppend(a[1..], b, from, to);
    }
  }

  /** A string without the replaced character is left as it is. */
  lemma ReplaceCharAbsent(s: string, from: char, to: char)
    requires from !in s
    ensures ReplaceChar(s, from, to) == s
  {
    var r := ReplaceChar(s, from, to);
    forall i | 0 <= i < |s| ensures r[i] == s[i] {
      assert s[i] in s;
    }
  }
}
