/**
 * One line of the store file: `^\s*(.+?)\s*=\s*'(.*?)'\s*$` (envrun.go:16)
 * reads a line, and the format string `%s = '%s'` (envrun.go:133) writes one.
 */
module StoreFormat {
  import opened Wrappers
  import opened Text
  import opened LazyMatch

  datatype Entry = Entry(name: string, value: string)

  /** Where a store line matched: name s[lead..nameEnd], '=' at eq, the value's quotes at open and close. */
  datatype StoreMatch = StoreMatch(lead: nat, nameEnd: nat, eq: nat, open: nat, close: nat)

  /**
   * s is `\s*` s[..a], the name s[a..b] (one or more characters other than
   * newline), `\s*` s[b..c], '=' at c, `\s*` s[c+1..d], a quote at d, the
   * value s[d+1..e] (no newline), a quote at e and `\s*` to the end.
   */
  predicate StoreLineForm(s: string, a: nat, b: nat, c: nat, d: nat, e: nat) {
    a < b <= c < d < e < |s| &&
    SpacesIn(s, 0, a) && NoNewlineIn(s, a, b) && SpacesIn(s, b, c) && s[c] == '=' &&
    SpacesIn(s, c + 1, d) && s[d] == '\'' && NoNewlineIn(s, d + 1, e) && s[e] == '\'' &&
    SpacesIn(s, e + 1, |s|)
  }

  /** A decomposition is a split of the generic search whose remaining positions the tail determines. */
  lemma StoreFormIsSplit(s: string, a: nat, b: nat, c: nat, d: nat, e: nat)
    ensures StoreLineForm(s, a, b, c, d, e) <==>
              && Split(StoreTail, s, 0, a, b)
              && c == SpanSpace(s, b) && c < |s| && d == SpanSpace(s, c + 1)
              && TailAt(StoreTail, s, b) == Some((d + 1, e))
  {
    if StoreLineForm(s, a, b, c, d, e) {
      SpanSpaceUnique(s, b, c);
      SpanSpaceUnique(s, c + 1, d);
      SpaceSuffixUnique(s, e + 1);
    }
  }

  lemma StoreFormsAreSplits(s: string)
    ensures forall a: nat, b: nat, c: nat, d: nat, e: nat :: StoreLineForm(s, a, b, c, d, e) ==>
              && Split(StoreTail, s, 0, a, b)
              && c == SpanSpace(s, b) && c < |s| && d == SpanSpace(s, c + 1)
              && TailAt(StoreTail, s, b) == Some((d + 1, e))
  {
    forall a: nat, b: nat, c: nat, d: nat, e: nat | StoreLineForm(s, a, b, c, d, e) {
      StoreFormIsSplit(s, a, b, c, d, e);
    }
  }

  /**
   * The match RE2 reports for a store line: present exactly when some
   * decomposition exists; among all decompositions it has the longest
   * leading run of spaces, then the shortest name, and the rest follows.
   */
  function MatchStoreLine(s: string): (r: Option<StoreMatch>)
    ensures r.Some? ==> StoreLineForm(s, r.value.lead, r.value.nameEnd, r.value.eq, r.value.open, r.value.close)
    ensures forall a: nat, b: nat, c: nat, d: nat, e: nat :: StoreLineForm(s, a, b, c, d, e) ==>
              && r.Some?
              && (a < r.value.lead || (a == r.value.lead &&
                   (r.value.nameEnd < b || (r.value.nameEnd == b && r.value == StoreMatch(a, b, c, d, e)))))
  {
    StoreFormsAreSplits(s);
    match Search(StoreTail, s, 0)
    case None => None
    case Some((a, b)) => Some(StoreAt(s, a, b))
  }

  /** The decomposition of a store line whose leading spaces end at a and whose name ends at b. */
  function StoreAt(s: string, a: nat, b: nat): (m: StoreMatch)
    requires Split(StoreTail, s, 0, a, b)
    ensures m.lead == a && m.nameEnd == b && m.eq == SpanSpace(s, b)
    ensures StoreLineForm(s, a, b, m.eq, m.open, m.close)
  {
    var c := SpanSpace(s, b);
    var d := SpanSpace(s, c + 1);
    var m := StoreMatch(a, b, c, d, TailAt(StoreTail, s, b).value.1);
    StoreFormIsSplit(s, a, b, c, d, m.close);
    m
  }

  /** The name and value a store line holds (match[1] and match[2] at envrun.go:102-103). */
  function ParseStoreLine(line: string): (r: Option<Entry>)
    ensures r.None? <==> forall a: nat, b: nat, c: nat, d: nat, e: nat :: !StoreLineForm(line, a, b, c, d, e)
    ensures r.Some? ==> exists a: nat, b: nat, c: nat, d: nat, e: nat ::
              StoreLineForm(line, a, b, c, d, e) && r.value == Entry(line[a..b], line[d + 1..e])
  {
    match MatchStoreLine(line)
    case None => None
    case Some(m) => Some(Entry(line[m.lead..m.nameEnd], line[m.open + 1..m.close]))
  }

  /** The line writeEnvrunDatabaseFile emits for one variable, without its newline. */
  function FormatLine(name: string, value: string): (line: string)
    ensures |line| == |name| + 5 + |value|
    ensures line[..|name|] == name && line[|name|..|name| + 4] == " = '"
    ensures line[|name| + 4..|line| - 1] == value && line[|line| - 1] == '\''
  {
    var line := name + " = '" + value + "'";
    assert line[..|name|] == name;
    line
  }

  /** n[k..] starts like a store line's separator: spaces up to c, '=', spaces up to d, a quote. */
  predicate SeparatorAt(n: string, k: nat, c: nat, d: nat) {
    k <= c < d < |n| && SpacesIn(n, k, c) && n[c] == '=' && SpacesIn(n, c + 1, d) && n[d] == '\''
  }

  /** A name that comes back unchanged from its own store line. */
  predicate StorableName(n: string) {
    && |n| > 0 && NoNewline(n) && !IsSpace(n[0]) && !IsSpace(n[|n| - 1])
    && forall k: nat, c: nat, d: nat :: 0 < k <= c < d < |n| ==> !SeparatorAt(n, k, c, d)
  }

  /** The characters of the name, one by one. */
  lemma FormatLineName(n: string, v: string)
    ensures forall k :: 0 <= k < |n| ==> FormatLine(n, v)[k] == n[k]
  {
    var s := FormatLine(n, v);
    forall k | 0 <= k < |n|
      ensures s[k] == n[k]
    {
      assert s[..|n|][k] == s[k];
    }
  }

  /** The reading a formatted line was written with. */
  lemma FormatLineForm(n: string, v: string)
    requires |n| > 0 && NoNewline(n) && NoNewline(v)
    ensures var L := |n|; StoreLineForm(FormatLine(n, v), 0, L, L + 1, L + 3, |FormatLine(n, v)| - 1)
  {
    var s := FormatLine(n, v);
    var L := |n|;
    FormatLineName(n, v);
    var mid := s[L..L + 4];
    assert s[L] == mid[0] && s[L + 1] == mid[1] && s[L + 2] == mid[2] && s[L + 3] == mid[3];
    forall p | L + 4 <= p < |s| - 1
      ensures s[p] != '\n'
    {
      assert s[p] == s[L + 4..|s| - 1][p - (L + 4)];
    }
  }

  /** A reading that ends the name inside n finds the separator inside n as well. */
  lemma NameSeparator(n: string, v: string, a: nat, b: nat, c: nat, d: nat, e: nat)
    requires |n| > 0 && !IsSpace(n[|n| - 1]) && b < |n|
    requires StoreLineForm(FormatLine(n, v), a, b, c, d, e)
    ensures SeparatorAt(n, b, c, d)
  {
    var s := FormatLine(n, v);
    var L := |n|;
    FormatLineName(n, v);
    var mid := s[L..L + 4];
    assert s[L] == mid[0] && s[L + 1] == mid[1] && s[L + 2] == mid[2] && s[L + 3] == mid[3];
    assert s[L - 1] == n[L - 1];
    assert c < L;
    assert d < L;
  }

  /** Round trip of one line: a storable name and a value without newline parse back as written. */
  lemma FormatLineParses(n: string, v: string)
    requires StorableName(n) && NoNewline(v)
    ensures ParseStoreLine(FormatLine(n, v)) == Some(Entry(n, v))
  {
    var s := FormatLine(n, v);
    var L := |n|;
    FormatLineForm(n, v);
    FormatLineName(n, v);
    var m := MatchStoreLine(s).value;
    if m.nameEnd < L {
      NameSeparator(n, v, m.lead, m.nameEnd, m.eq, m.open, m.close);
    }
  }

  /** A line without '=' is no store line. */
  lemma NoSeparatorNoEntry(line: string)
    ensures '=' !in line ==> ParseStoreLine(line).None?
  {
    if MatchStoreLine(line).Some? {
      var m := MatchStoreLine(line).value;
      assert line[m.eq] == '=';
    }
  }
}
