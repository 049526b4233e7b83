/**
 * The two unanchored patterns `@@envrun\[\s*(.+?)\s*]` and `{{\s*(.+?)\s*}}`
 * (envrun.go:17-18): an opening literal, a greedy `\s*`, a lazy group, a
 * `\s*` and a closing literal, searched for with FindAllStringSubmatch.
 */
module Delimited {
  import opened Wrappers
  import opened Text
  import opened LazyMatch

  /** One match: s[start..stop] in full, with the group s[bodyStart..bodyEnd]. */
  datatype Span = Span(start: nat, bodyStart: nat, bodyEnd: nat, stop: nat)

  /** The opening literal is not empty and the closing one starts with a non-space. */
  predicate Delimiters(open: string, close: string) {
    |open| > 0 && |close| > 0 && !IsSpace(close[0])
  }

  /**
   * The pattern read at i: open, spaces up to b, the group s[b..e] (not
   * empty, no newline), spaces up to c, and close at c.
   */
  predicate DelimitedForm(s: string, open: string, close: string, i: nat, b: nat, e: nat, c: nat) {
    KeySpaces(s, i, open, b) && b < e <= c && c <= |s| && NoNewlineIn(s, b, e) && SpacesIn(s, e, c) && LitAt(s, c, close)
  }

  lemma FormIsSplit(s: string, open: string, close: string, i: nat, b: nat, e: nat, c: nat)
    requires Delimiters(open, close) && LitAt(s, i, open)
    ensures DelimitedForm(s, open, close, i, b, e, c) <==>
              Split(Closer(close), s, i + |open|, b, e) && c == SpanSpace(s, e)
  {
    if DelimitedForm(s, open, close, i, b, e, c) {
      assert s[c] == close[0];
      SpanSpaceUnique(s, e, c);
    }
  }

  /** The match RE2 reports when it starts a match at i, if there is one. */
  function MatchAt(s: string, open: string, close: string, i: nat): (r: Option<Span>)
    requires Delimiters(open, close)
    ensures r.Some? ==> && r.value.start == i && |close| <= r.value.stop
                        && DelimitedForm(s, open, close, i, r.value.bodyStart, r.value.bodyEnd, r.value.stop - |close|)
    ensures forall b: nat, e: nat, c: nat :: DelimitedForm(s, open, close, i, b, e, c) ==>
              r.Some? && (b < r.value.bodyStart || (b == r.value.bodyStart && r.value.bodyEnd <= e))
  {
    if !LitAt(s, i, open) then None
    else
      forall b: nat, e: nat, c: nat | DelimitedForm(s, open, close, i, b, e, c)
        ensures Split(Closer(close), s, i + |open|, b, e)
      {
        FormIsSplit(s, open, close, i, b, e, c);
      }
      match Search(Closer(close), s, i + |open|)
      case None => None
      case Some((b, e)) =>
        var c := SpanSpace(s, e);
        FormIsSplit(s, open, close, i, b, e, c);
        Some(Span(i, b, e, c + |close|))
  }

  /** Dropping a leading space from a group leaves another reading of the pattern. */
  lemma LaterGroupStart(s: string, open: string, close: string, i: nat, b: nat, e: nat, c: nat)
    requires DelimitedForm(s, open, close, i, b, e, c) && b + 1 < e && IsSpace(s[b])
    ensures DelimitedForm(s, open, close, i, b + 1, e, c)
  {
  }

  /** Ending a group early, at a trailing space or at a closing literal, leaves another reading. */
  lemma EarlierGroupEnd(s: string, open: string, close: string, i: nat, b: nat, e: nat, c: nat, e': nat, c': nat)
    requires DelimitedForm(s, open, close, i, b, e, c) && b < e' < e
    requires (c' == c && SpacesIn(s, e', e)) || (c' == e' && LitAt(s, e', close))
    ensures DelimitedForm(s, open, close, i, b, e', c')
  {
  }

  /** m is the reading at i that RE2 prefers: the latest group start, then the earliest group end. */
  ghost predicate Preferred(s: string, open: string, close: string, i: nat, m: Span) {
    && |close| <= m.stop
    && DelimitedForm(s, open, close, i, m.bodyStart, m.bodyEnd, m.stop - |close|)
    && forall b: nat, e: nat, c: nat :: DelimitedForm(s, open, close, i, b, e, c) ==>
         (b < m.bodyStart || (b == m.bodyStart && m.bodyEnd <= e))
  }

  lemma MatchPreferred(s: string, open: string, close: string, i: nat)
    requires Delimiters(open, close) && MatchAt(s, open, close, i).Some?
    ensures Preferred(s, open, close, i, MatchAt(s, open, close, i).value)
  {
  }

  lemma PreferredTrimmed(s: string, open: string, close: string, i: nat, m: Span)
    requires Preferred(s, open, close, i, m)
    ensures m.bodyEnd - m.bodyStart >= 2 ==> !IsSpace(s[m.bodyStart]) && !IsSpace(s[m.bodyEnd - 1])
  {
    var c := m.stop - |close|;
    if m.bodyEnd - m.bodyStart >= 2 {
      var e': nat := m.bodyEnd - 1;
      if IsSpace(s[m.bodyStart]) {
        LaterGroupStart(s, open, close, i, m.bodyStart, m.bodyEnd, c);
      } else if IsSpace(s[e']) {
        EarlierGroupEnd(s, open, close, i, m.bodyStart, m.bodyEnd, c, e', c);
      }
    }
  }

  lemma PreferredStopsAtFirstCloser(s: string, open: string, close: string, i: nat, m: Span)
    requires Preferred(s, open, close, i, m)
    ensures forall p :: m.bodyStart < p < m.bodyEnd ==> !LitAt(s, p, close)
  {
    var c := m.stop - |close|;
    forall p | m.bodyStart < p < m.bodyEnd
      ensures !LitAt(s, p, close)
    {
      var q: nat := p;
      if LitAt(s, q, close) {
        EarlierGroupEnd(s, open, close, i, m.bodyStart, m.bodyEnd, c, q, q);
      }
    }
  }

  /**
   * RE2's leftmost-first choice shows in the group: it has no space at
   * either edge unless it is a single character.
   */
  lemma MatchTrimmed(s: string, open: string, close: string, i: nat)
    requires Delimiters(open, close) && MatchAt(s, open, close, i).Some?
    ensures var m := MatchAt(s, open, close, i).value;
      m.bodyEnd - m.bodyStart >= 2 ==> !IsSpace(s[m.bodyStart]) && !IsSpace(s[m.bodyEnd - 1])
  {
    MatchPreferred(s, open, close, i);
    PreferredTrimmed(s, open, close, i, MatchAt(s, open, close, i).value);
  }

  /** The group is as short as it can be: no closing literal starts inside it. */
  lemma MatchStopsAtFirstCloser(s: string, open: string, close: string, i: nat)
    requires Delimiters(open, close) && MatchAt(s, open, close, i).Some?
    ensures var m := MatchAt(s, open, close, i).value;
      forall p :: m.bodyStart < p < m.bodyEnd ==> !LitAt(s, p, close)
  {
    MatchPreferred(s, open, close, i);
    PreferredStopsAtFirstCloser(s, open, close, i, MatchAt(s, open, close, i).value);
  }

  /** No match starts at any position of [i, j). */
  predicate NoMatchIn(s: string, open: string, close: string, i: nat, j: nat)
    requires Delimiters(open, close)
  {
    forall p: nat :: i <= p < j ==> MatchAt(s, open, close, p).None?
  }

  /** The leftmost match that starts at or after from. */
  function FirstMatchFrom(s: string, open: string, close: string, from: nat): (r: Option<Span>)
    requires Delimiters(open, close) && from <= |s|
    ensures r.Some? ==> from <= r.value.start && MatchAt(s, open, close, r.value.start) == r
                        && NoMatchIn(s, open, close, from, r.value.start)
    ensures r.None? ==> NoMatchIn(s, open, close, from, |s| + 1)
    decreases |s| - from
  {
    match MatchAt(s, open, close, from)
    case Some(m) => Some(m)
    case None =>
      if from == |s| then None
      else
        var r := FirstMatchFrom(s, open, close, from + 1);
        NoMatchExtend(s, open, close, from, if r.Some? then r.value.start else |s| + 1);
        r
  }

  /** No match at i and none in (i, j): none in [i, j). */
  lemma NoMatchExtend(s: string, open: string, close: string, i: nat, j: nat)
    requires Delimiters(open, close) && i < j
    requires MatchAt(s, open, close, i).None? && NoMatchIn(s, open, close, i + 1, j)
    ensures NoMatchIn(s, open, close, i, j)
  {
  }

  /**
   * ms lists the successive non-overlapping leftmost matches from from on:
   * each is the match at its own start, none is skipped between them, and
   * none starts after the last.
   */
  predicate AllMatches(s: string, open: string, close: string, from: nat, ms: seq<Span>)
    requires Delimiters(open, close)
    decreases |ms|
  {
    if ms == [] then NoMatchIn(s, open, close, from, |s| + 1)
    else
      && from <= ms[0].start && MatchAt(s, open, close, ms[0].start) == Some(ms[0])
      && NoMatchIn(s, open, close, from, ms[0].start)
      && AllMatches(s, open, close, ms[0].stop, ms[1..])
  }

  /** FindAllStringSubmatch(s, -1) from position from. */
  function FindAll(s: string, open: string, close: string, from: nat): (ms: seq<Span>)
    requires Delimiters(open, close) && from <= |s|
    ensures AllMatches(s, open, close, from, ms)
    decreases |s| - from
  {
    match FirstMatchFrom(s, open, close, from)
    case None => []
    case Some(m) =>
      assert m.stop <= |s|;
      [m] + FindAll(s, open, close, m.stop)
  }

  /** The matches are determined: only one sequence lists them all. */
  lemma {:induction false} AllMatchesUnique(s: string, open: string, close: string, from: nat, ms: seq<Span>, ns: seq<Span>)
    requires Delimiters(open, close)
    requires AllMatches(s, open, close, from, ms) && AllMatches(s, open, close, from, ns)
    ensures ms == ns
    decreases |ms|
  {
    if ms != [] && ns != [] && ms[0].start == ns[0].start {
      AllMatchesUnique(s, open, close, ms[0].stop, ms[1..], ns[1..]);
    }
  }

  /** The matches one by one: each is the match at its start, inside s, and they come in order without overlap. */
  lemma AllMatchesInOrder(s: string, open: string, close: string, from: nat, ms: seq<Span>)
    requires Delimiters(open, close) && AllMatches(s, open, close, from, ms)
    ensures forall k :: 0 <= k < |ms| ==> MatchAt(s, open, close, ms[k].start) == Some(ms[k])
    ensures forall k :: 0 <= k < |ms| ==> ms[k].start < ms[k].bodyStart < ms[k].bodyEnd < ms[k].stop <= |s|
    ensures forall k :: 0 <= k < |ms| ==> from <= ms[k].start
    ensures forall k :: 0 < k < |ms| ==> ms[k - 1].stop <= ms[k].start
  {
    forall k | 0 <= k < |ms|
      ensures MatchAt(s, open, close, ms[k].start) == Some(ms[k])
      ensures ms[k].start < ms[k].bodyStart < ms[k].bodyEnd < ms[k].stop <= |s|
      ensures from <= ms[k].start
      ensures k > 0 ==> ms[k - 1].stop <= ms[k].start
    {
      MatchNumber(s, open, close, from, ms, k);
    }
  }

  /** The k-th of the matches, by induction on k. */
  lemma {:induction false} MatchNumber(s: string, open: string, close: string, from: nat, ms: seq<Span>, k: nat)
    requires Delimiters(open, close) && AllMatches(s, open, close, from, ms) && k < |ms|
    ensures MatchAt(s, open, close, ms[k].start) == Some(ms[k])
    ensures ms[k].start < ms[k].bodyStart < ms[k].bodyEnd < ms[k].stop <= |s|
    ensures from <= ms[k].start
    ensures k > 0 ==> ms[k - 1].stop <= ms[k].start
    decreases k
  {
    var m := ms[0];
    assert m.start < m.stop by {
      SpanInside(s, open, close, m);
    }
    if k == 0 {
      SpanInside(s, open, close, m);
    } else {
      var rest := ms[1..];
      MatchNumber(s, open, close, m.stop, rest, k - 1);
      assert rest[k - 1] == ms[k];
      if k > 1 {
        assert rest[k - 2] == ms[k - 1];
      }
    }
  }

  /** A match lies inside s and its four positions are strictly increasing. */
  lemma SpanInside(s: string, open: string, close: string, m: Span)
    requires Delimiters(open, close) && MatchAt(s, open, close, m.start) == Some(m)
    ensures m.start < m.bodyStart < m.bodyEnd < m.stop <= |s|
  {
  }

  /** There is no match at all exactly when no position starts one. */
  lemma NoneFound(s: string, open: string, close: string)
    requires Delimiters(open, close)
    ensures FindAll(s, open, close, 0) == [] <==> NoMatchIn(s, open, close, 0, |s| + 1)
  {
    var ms := FindAll(s, open, close, 0);
    if ms != [] {
      assert MatchAt(s, open, close, ms[0].start).Some?;
      AllMatchesInOrder(s, open, close, 0, ms);
    }
  }
}
