/**
 * Character classes and small scanners shared by the hand-written matchers.
 * Strings are sequences of characters; the matchers follow Go's RE2, where
 * `\s` is one of tab, newline, form feed, carriage return and space, and `.`
 * is any character except newline.
 */
module Text {

  const FormFeed: char := '\U{C}'

  /** The RE2 class `\s`. */
  predicate IsSpace(c: char) {
    c == '\t' || c == '\n' || c == FormFeed || c == '\r' || c == ' '
  }

  /** Every character of s[i..j] is in `\s`. */
  predicate SpacesIn(s: string, i: nat, j: nat)
    requires i <= j <= |s|
  {
    forall k :: i <= k < j ==> IsSpace(s[k])
  }

  /** Every character of s[i..j] is matched by `.`. */
  predicate NoNewlineIn(s: string, i: nat, j: nat)
    requires i <= j <= |s|
  {
    forall k :: i <= k < j ==> s[k] != '\n'
  }

  predicate NoNewline(s: string) {
    forall k :: 0 <= k < |s| ==> s[k] != '\n'
  }

  /** Every character of s is ASCII, so it takes one byte in UTF-8. */
  predicate Ascii(s: string) {
    forall k :: 0 <= k < |s| ==> s[k] < 128 as char
  }

  /** s[i..] starts with the literal lit. */
  predicate LitAt(s: string, i: nat, lit: string) {
    i + |lit| <= |s| && s[i..i + |lit|] == lit
  }

  /** s[i..j] is the literal kw followed by spaces only: the regex piece `kw\s*` read as s[i..j]. */
  predicate KeySpaces(s: string, i: nat, kw: string, j: nat) {
    i + |kw| <= j <= |s| && LitAt(s, i, kw) && SpacesIn(s, i + |kw|, j)
  }

  /** Where a greedy `\s*` that starts at i stops: the end of the longest run of spaces. */
  function SpanSpace(s: string, i: nat): (j: nat)
    requires i <= |s|
    ensures i <= j <= |s| && SpacesIn(s, i, j)
    ensures j < |s| ==> !IsSpace(s[j])
    decreases |s| - i
  {
    if i < |s| && IsSpace(s[i]) then SpanSpace(s, i + 1) else i
  }

  /** A run of spaces that is followed by a non-space, or by the end, is the one SpanSpace finds. */
  lemma SpanSpaceUnique(s: string, i: nat, j: nat)
    requires i <= j <= |s| && SpacesIn(s, i, j)
    requires j < |s| ==> !IsSpace(s[j])
    ensures SpanSpace(s, i) == j
  {
  }

  /** No run of spaces from i is longer than SpanSpace's. */
  lemma SpanSpaceLongest(s: string, i: nat)
    requires i <= |s|
    ensures forall j :: i <= j <= |s| && SpacesIn(s, i, j) ==> j <= SpanSpace(s, i)
  {
  }

  /** Where the trailing run of spaces of s starts, scanning back from j. */
  function SuffixFrom(s: string, j: nat): (t: nat)
    requires j <= |s| && SpacesIn(s, j, |s|)
    ensures t <= j && SpacesIn(s, t, |s|)
    ensures t > 0 ==> !IsSpace(s[t - 1])
    decreases j
  {
    if j > 0 && IsSpace(s[j - 1]) then SuffixFrom(s, j - 1) else j
  }

  /** The start of the longest all-space suffix of s. */
  function SpaceSuffixStart(s: string): (t: nat)
    ensures t <= |s| && SpacesIn(s, t, |s|)
    ensures t > 0 ==> !IsSpace(s[t - 1])
  {
    SuffixFrom(s, |s|)
  }

  lemma SpaceSuffixUnique(s: string, t: nat)
    requires t <= |s| && SpacesIn(s, t, |s|)
    requires t > 0 ==> !IsSpace(s[t - 1])
    ensures SpaceSuffixStart(s) == t
  {
  }

  /** A slice of a suffix is a slice of the whole. */
  lemma SliceOfSuffix(s: string, d: nat, k: nat, j: nat)
    requires k <= j && d + j <= |s|
    ensures s[d..][k..j] == s[d + k..d + j]
  {
  }

  lemma NoNewlineShift(s: string, d: nat, k: nat, j: nat)
    requires k <= j && d + j <= |s| && NoNewlineIn(s[d..], k, j)
    ensures NoNewlineIn(s, d + k, d + j)
  {
    forall m | d + k <= m < d + j
      ensures s[m] != '\n'
    {
      assert s[d..][m - d] == s[m];
    }
  }

  /** The concatenation of the chunks a stream is delivered in. */
  function Concat(chunks: seq<string>): (s: string)
    decreases |chunks|
  {
    if chunks == [] then [] else Concat(chunks[..|chunks| - 1]) + chunks[|chunks| - 1]
  }

  lemma ConcatSnoc(chunks: seq<string>, k: nat)
    requires k < |chunks|
    ensures Concat(chunks[..k + 1]) == Concat(chunks[..k]) + chunks[k]
  {
    assert chunks[..k + 1][..k] == chunks[..k];
  }

  /** Concatenation regrouped. */
  lemma StringAssoc(x: string, y: string, z: string)
    ensures (x + y) + z == x + (y + z)
  {
  }
}
