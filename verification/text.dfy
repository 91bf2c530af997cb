/** The parts of Kotlin's string library that the service relies on:
    `Char.isWhitespace`, `String.trim` and `String.startsWith`. */
module Text {

  /** Kotlin's `Char.isWhitespace()` on the JVM: `Character.isWhitespace` or
      `Character.isSpaceChar`, i.e. the ASCII controls TAB, LF, VT, FF, CR and
      FS..US plus every Unicode space, line and paragraph separator. */
  predicate IsWhitespace(c: char) {
    || c == '\t' || c == '\n' || c == '\U{000B}' || c == '\U{000C}' || c == '\r'
    || ('\U{001C}' <= c <= '\U{001F}')
    || c == ' ' || c == '\U{00A0}' || c == '\U{1680}'
    || ('\U{2000}' <= c <= '\U{200A}')
    || c == '\U{2028}' || c == '\U{2029}' || c == '\U{202F}' || c == '\U{205F}' || c == '\U{3000}'
  }

  /** Every character of `s` is whitespace (this includes the empty string). */
  predicate IsBlank(s: string) {
    forall k :: 0 <= k < |s| ==> IsWhitespace(s[k])
  }

  /** `s[i..j]` is what remains of `s` once its leading and trailing
      whitespace is cut off: everything outside is whitespace and, unless
      nothing remains, both ends of the remainder are not. */
  predicate Padded(s: string, i: int, j: int) {
    && 0 <= i <= j <= |s|
    && (forall k :: 0 <= k < i ==> IsWhitespace(s[k]))
    && (forall k :: j <= k < |s| ==> IsWhitespace(s[k]))
    && (i < j ==> !IsWhitespace(s[i]) && !IsWhitespace(s[j - 1]))
  }

  /** First index at or after `lo` that does not hold whitespace, or `|s|`. */
  function SkipLeading(s: string, lo: nat): (i: nat)
    requires lo <= |s|
    ensures lo <= i <= |s|
    ensures forall k :: lo <= k < i ==> IsWhitespace(s[k])
    ensures i < |s| ==> !IsWhitespace(s[i])
    decreases |s| - lo
  {
    if lo < |s| && IsWhitespace(s[lo]) then SkipLeading(s, lo + 1) else lo
  }

  /** Largest `j` in `lo..hi` such that `s[j..hi]` is all whitespace. */
  function SkipTrailing(s: string, lo: nat, hi: nat): (j: nat)
    requires lo <= hi <= |s|
    ensures lo <= j <= hi
    ensures forall k :: j <= k < hi ==> IsWhitespace(s[k])
    ensures lo < j ==> !IsWhitespace(s[j - 1])
    decreases hi
  {
    if lo < hi && IsWhitespace(s[hi - 1]) then SkipTrailing(s, lo, hi - 1) else hi
  }

  /** Where `Trim` starts cutting: after the leading whitespace. */
  function TrimStart(s: string): (i: nat)
    ensures i <= |s|
  {
    SkipLeading(s, 0)
  }

  /** Where `Trim` stops: before the trailing whitespace. */
  function TrimEnd(s: string): (j: nat)
    ensures TrimStart(s) <= j <= |s|
  {
    SkipTrailing(s, TrimStart(s), |s|)
  }

  /** Kotlin's `String.trim()`: scan forward past leading whitespace, then
      backward past trailing whitespace, and keep what lies between. */
  function Trim(s: string): (r: string)
    ensures |r| <= |s|
    ensures r == [] <==> IsBlank(s)
    ensures r != [] ==> !IsWhitespace(r[0]) && !IsWhitespace(r[|r| - 1])
  {
    TrimBounds(s);
    s[TrimStart(s)..TrimEnd(s)]
  }

  /** The cut `Trim` makes is the one `Padded` describes. */
  lemma TrimBounds(s: string)
    ensures Padded(s, TrimStart(s), TrimEnd(s))
  {
  }

  /** The decomposition `Padded` describes is unique, so it determines `Trim`. */
  lemma TrimUnique(s: string, i: int, j: int)
    requires Padded(s, i, j)
    ensures Trim(s) == s[i..j]
  {
  }

  /** A string that neither starts nor ends with whitespace is its own trim. */
  lemma TrimNoPadding(s: string)
    requires |s| > 0 ==> !IsWhitespace(s[0]) && !IsWhitespace(s[|s| - 1])
    ensures Trim(s) == s
  {
  }

  /** Trimming twice is trimming once. */
  lemma TrimIdempotent(s: string)
    ensures Trim(Trim(s)) == Trim(s)
  {
  }

  /** Surrounding a padded string with more whitespace keeps the same core. */
  lemma PaddedWidens(front: string, s: string, back: string, i: int, j: int)
    requires IsBlank(front) && IsBlank(back) && Padded(s, i, j)
    ensures Padded(front + s + back, |front| + i, |front| + j)
  {
  }

  /** Extra whitespace on either side does not change the trimmed value. */
  lemma TrimIgnoresPadding(front: string, s: string, back: string)
    requires IsBlank(front) && IsBlank(back)
    ensures Trim(front + s + back) == Trim(s)
  {
    TrimBounds(s);
    TrimOfWidened(front, s, back, TrimStart(s), TrimEnd(s));
  }

  /** The core of a padded string is also the trim of it with more padding. */
  lemma TrimOfWidened(front: string, s: string, back: string, i: int, j: int)
    requires IsBlank(front) && IsBlank(back) && Padded(s, i, j)
    ensures Trim(front + s + back) == s[i..j]
  {
    PaddedWidens(front, s, back, i, j);
    TrimUnique(front + s + back, |front| + i, |front| + j);
    SliceOfMiddle(front, s, back, i, j);
  }

  /** Slicing the middle part of a concatenation back out. */
  lemma SliceOfMiddle(front: string, s: string, back: string, i: int, j: int)
    requires 0 <= i <= j <= |s|
    ensures (front + s + back)[|front| + i..|front| + j] == s[i..j]
  {
  }

  /** Kotlin's `String.startsWith(prefix)`. */
  predicate StartsWith(s: string, prefix: string) {
    |prefix| <= |s| && s[..|prefix|] == prefix
  }
}
