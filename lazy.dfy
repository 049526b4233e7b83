/**
 * The search every pattern of envrun.go shares: a greedy `\s*`, a lazy
 * group `(.+?)`, and then a tail that is deterministic once the group's end
 * is fixed (each `\s*` in a tail is followed by a literal that is not a
 * space, so only its longest run can succeed). RE2's leftmost-first rule
 * backtracks like Perl: it tries the longest leading run of spaces first and,
 * for each, the shortest group; the first combination whose tail matches
 * wins. Search returns exactly that combination.
 */
module LazyMatch {
  import opened Wrappers
  import opened Text

  datatype Tail =
    | StoreTail             // `\s*=\s*'(.*?)'\s*$`, after the name of a store line
    | SetTail               // `'\s*value\s*=\s*'(.*?)'$`, after the name of a set command
    | Closer(delim: string) // `\s*` and a literal closing delimiter (`]`, `}}`)

  /**
   * Whether the tail matches at j (the anchored tails: all of s[j..]); for
   * the quote tails the result is the position of the value's capture, for
   * Closer the position of the delimiter.
   */
  function TailAt(t: Tail, s: string, j: nat): (r: Option<(nat, nat)>)
    requires j <= |s|
    ensures r.Some? ==> j <= r.value.0 <= r.value.1 <= |s|
  {
    match t
    case StoreTail =>
      var c := SpanSpace(s, j);
      if c < |s| && s[c] == '=' then
        var d := SpanSpace(s, c + 1);
        var e := SpaceSuffixStart(s);
        if d < |s| && s[d] == '\'' && d + 1 < e && s[e - 1] == '\'' && NoNewlineIn(s, d + 1, e - 1)
        then Some((d + 1, e - 1))
        else None
      else None
    case SetTail =>
      if j < |s| && s[j] == '\'' then
        var k := SpanSpace(s, j + 1);
        if LitAt(s, k, "value") then
          var l := SpanSpace(s, k + 5);
          if l < |s| && s[l] == '=' then
            var q := SpanSpace(s, l + 1);
            if q + 1 < |s| && s[q] == '\'' && s[|s| - 1] == '\'' && NoNewlineIn(s, q + 1, |s| - 1)
            then Some((q + 1, |s| - 1))
            else None
          else None
        else None
      else None
    case Closer(delim) =>
      var c := SpanSpace(s, j);
      if LitAt(s, c, delim) then Some((c, c + |delim|)) else None
  }

  /** s[b..e] can be the lazy group `(.+?)`: non-empty, no newline, and the tail matches at e. */
  predicate GroupEnd(t: Tail, s: string, b: nat, e: nat) {
    b < e <= |s| && NoNewlineIn(s, b, e) && TailAt(t, s, e).Some?
  }

  /** The lazy group starting at b: the least admissible end that is at least from. */
  function Shortest(t: Tail, s: string, b: nat, from: nat): (r: Option<nat>)
    requires b < from <= |s| + 1 && NoNewlineIn(s, b, from - 1)
    ensures r.Some? ==> from <= r.value && GroupEnd(t, s, b, r.value)
    ensures forall e: nat :: from <= e && GroupEnd(t, s, b, e) ==> r.Some? && r.value <= e
    decreases |s| + 1 - from
  {
    if from > |s| || s[from - 1] == '\n' then None
    else if TailAt(t, s, from).Some? then Some(from)
    else Shortest(t, s, b, from + 1)
  }

  /** A leading `\s*` from lo to b, then the group s[b..e] and its tail. */
  predicate Split(t: Tail, s: string, lo: nat, b: nat, e: nat) {
    lo <= b <= |s| && SpacesIn(s, lo, b) && GroupEnd(t, s, b, e)
  }

  /** Leftmost-first choice among the splits whose group starts at or before b, trying b downwards. */
  function SearchFrom(t: Tail, s: string, lo: nat, b: nat): (r: Option<(nat, nat)>)
    requires lo <= b <= |s| && SpacesIn(s, lo, b)
    ensures r.Some? ==> r.value.0 <= b && Split(t, s, lo, r.value.0, r.value.1)
    ensures forall b': nat, e': nat :: b' <= b && Split(t, s, lo, b', e') ==>
              r.Some? && (b' < r.value.0 || (b' == r.value.0 && r.value.1 <= e'))
    decreases b - lo
  {
    match Shortest(t, s, b, b + 1)
    case Some(e) => Some((b, e))
    case None => if b == lo then None else SearchFrom(t, s, lo, b - 1)
  }

  /**
   * `\s*(.+?)` and the tail, matched from lo: the split RE2 reports, which is
   * the one with the latest group start and, for that start, the earliest end.
   */
  function Search(t: Tail, s: string, lo: nat): (r: Option<(nat, nat)>)
    requires lo <= |s|
    ensures r.Some? ==> Split(t, s, lo, r.value.0, r.value.1)
    ensures forall b: nat, e: nat :: Split(t, s, lo, b, e) ==>
              r.Some? && (b < r.value.0 || (b == r.value.0 && r.value.1 <= e))
  {
    SpanSpaceLongest(s, lo);
    SearchFrom(t, s, lo, SpanSpace(s, lo))
  }
}
