/**
 * The embedded commands: what `set` and `reset` look like inside an
 * `@@envrun[...]` tag (envrun.go:18-20) and what they do to the variables
 * (envrun.go:153-172).
 */
module Commands {
  import opened Wrappers
  import opened Text
  import opened LazyMatch
  import opened Delimited

  datatype Command = Set(name: string, value: string) | Reset(name: string) | Unrecognized

  const TagOpen: string := "@@envrun["
  const TagClose: string := "]"

  /** `kw\s*name\s*=\s*'` read from the start of s: kw, spaces to j1, name, spaces to j2, '=' at j2, spaces, a quote at j3. */
  predicate NamePrefix(s: string, kw: string, j1: nat, j2: nat, j3: nat) {
    && KeySpaces(s, 0, kw, j1) && KeySpaces(s, j1, "name", j2)
    && j2 < j3 < |s| && s[j2] == '=' && SpacesIn(s, j2 + 1, j3) && s[j3] == '\''
  }

  /** The only way to read `kw\s*name\s*=\s*'` at the start of s, if there is one. */
  function MatchPrefix(s: string, kw: string): (r: Option<(nat, nat, nat)>)
    ensures r.Some? ==> NamePrefix(s, kw, r.value.0, r.value.1, r.value.2)
    ensures forall j1: nat, j2: nat, j3: nat :: NamePrefix(s, kw, j1, j2, j3) ==> r == Some((j1, j2, j3))
  {
    if !LitAt(s, 0, kw) then None
    else
      PrefixUnique(s, kw);
      var j1 := SpanSpace(s, |kw|);
      if !LitAt(s, j1, "name") then None
      else
        var j2 := SpanSpace(s, j1 + 4);
        if j2 == |s| || s[j2] != '=' then None
        else
          var j3 := SpanSpace(s, j2 + 1);
          if j3 == |s| || s[j3] != '\'' then None
          else Some((j1, j2, j3))
  }

  lemma PrefixUnique(s: string, kw: string)
    requires LitAt(s, 0, kw)
    ensures forall i1: nat, i2: nat, i3: nat :: NamePrefix(s, kw, i1, i2, i3) ==>
              i1 == SpanSpace(s, |kw|) && i2 == SpanSpace(s, i1 + 4) && i3 == SpanSpace(s, i2 + 1)
  {
    forall i1: nat, i2: nat, i3: nat | NamePrefix(s, kw, i1, i2, i3)
      ensures i1 == SpanSpace(s, |kw|) && i2 == SpanSpace(s, i1 + 4) && i3 == SpanSpace(s, i2 + 1)
    {
      PrefixRuns(s, kw, i1, i2, i3);
    }
  }

  /** Each `\s*` of a prefix reading is followed by a non-space, so it is the longest run. */
  lemma PrefixRuns(s: string, kw: string, i1: nat, i2: nat, i3: nat)
    requires NamePrefix(s, kw, i1, i2, i3)
    ensures i1 == SpanSpace(s, |kw|) && i2 == SpanSpace(s, i1 + 4) && i3 == SpanSpace(s, i2 + 1)
  {
    assert s[i1] == s[i1..i1 + 4][0] == 'n';
    SpanSpaceUnique(s, |kw|, i1);
    SpanSpaceUnique(s, i1 + 4, i2);
    SpanSpaceUnique(s, i2 + 1, i3);
  }

  /**
   * What follows the name of a set command once its closing quote is fixed
   * at ne: `'\s*value\s*=\s*'`, the value, and a quote that ends s.
   */
  predicate SetSuffix(s: string, ne: nat, k: nat, l: nat, q: nat) {
    && ne + 1 <= k && k + 5 <= l && l + 1 <= q && q + 1 < |s|
    && s[ne] == '\'' && SpacesIn(s, ne + 1, k) && LitAt(s, k, "value") && SpacesIn(s, k + 5, l)
    && s[l] == '=' && SpacesIn(s, l + 1, q) && s[q] == '\''
    && NoNewlineIn(s, q + 1, |s| - 1) && s[|s| - 1] == '\''
  }

  lemma SetSuffixIsTail(s: string, ne: nat, k: nat, l: nat, q: nat)
    requires ne <= |s|
    ensures SetSuffix(s, ne, k, l, q) <==>
              && ne < |s| && k == SpanSpace(s, ne + 1) && k + 5 <= |s| && l == SpanSpace(s, k + 5)
              && l < |s| && q == SpanSpace(s, l + 1) && TailAt(SetTail, s, ne) == Some((q + 1, |s| - 1))
  {
    if SetSuffix(s, ne, k, l, q) {
      assert s[k] == 'v';
      SpanSpaceUnique(s, ne + 1, k);
      SpanSpaceUnique(s, k + 5, l);
      SpanSpaceUnique(s, l + 1, q);
    }
  }

  /** The positions of a `set` command: prefix up to j3, the name s[j3 + 1..ne], the suffix. */
  datatype SetMatch = SetMatch(j1: nat, j2: nat, j3: nat, ne: nat, k: nat, l: nat, q: nat)

  /** `^set\s*name\s*=\s*'(.+?)'\s*value\s*=\s*'(.*?)'$` read with these positions. */
  predicate SetForm(s: string, m: SetMatch) {
    && NamePrefix(s, "set", m.j1, m.j2, m.j3) && SetSuffix(s, m.ne, m.k, m.l, m.q)
    && m.j3 + 1 < m.ne && NoNewlineIn(s, m.j3 + 1, m.ne)
  }

  /** The match RE2 reports for a set command: present exactly when some reading exists, with the shortest name. */
  function MatchSet(s: string): (r: Option<SetMatch>)
    ensures r.Some? ==> SetForm(s, r.value)
    ensures forall m: SetMatch :: SetForm(s, m) ==> r.Some? && r.value.ne <= m.ne
  {
    match MatchPrefix(s, "set")
    case None => None
    case Some((j1, j2, j3)) =>
      SetNameEnds(s, j1, j2, j3);
      match Shortest(SetTail, s, j3 + 1, j3 + 2)
      case None => None
      case Some(ne) => Some(SetAt(s, j1, j2, j3, ne))
  }

  /** Every reading of a set command shares the prefix, and its name ends where the tail can follow. */
  lemma SetNameEnds(s: string, j1: nat, j2: nat, j3: nat)
    requires MatchPrefix(s, "set") == Some((j1, j2, j3))
    ensures j3 < |s|
    ensures forall m: SetMatch :: SetForm(s, m) ==> m.j1 == j1 && m.j2 == j2 && m.j3 == j3 && j3 + 2 <= m.ne && GroupEnd(SetTail, s, j3 + 1, m.ne)
  {
    forall m: SetMatch | SetForm(s, m)
      ensures m.j1 == j1 && m.j2 == j2 && m.j3 == j3 && j3 + 2 <= m.ne && GroupEnd(SetTail, s, j3 + 1, m.ne)
    {
      SetSuffixIsTail(s, m.ne, m.k, m.l, m.q);
    }
  }

  /** The reading of a set command whose name ends at ne, a position the tail can follow. */
  function SetAt(s: string, j1: nat, j2: nat, j3: nat, ne: nat): (m: SetMatch)
    requires MatchPrefix(s, "set") == Some((j1, j2, j3))
    requires j3 + 2 <= ne && GroupEnd(SetTail, s, j3 + 1, ne)
    ensures m.ne == ne && SetForm(s, m)
  {
    SetReading(s, ne);
    var k := SpanSpace(s, ne + 1);
    var l := SpanSpace(s, k + 5);
    SetMatch(j1, j2, j3, ne, k, l, SpanSpace(s, l + 1))
  }

  /** Where the set tail matches, its longest runs of spaces read the suffix. */
  lemma SetReading(s: string, ne: nat)
    requires ne <= |s| && TailAt(SetTail, s, ne).Some?
    ensures ne < |s| && SpanSpace(s, ne + 1) + 5 <= |s|
    ensures var k := SpanSpace(s, ne + 1); var l := SpanSpace(s, k + 5);
      l < |s| && SetSuffix(s, ne, k, l, SpanSpace(s, l + 1))
  {
    var k := SpanSpace(s, ne + 1);
    var l := SpanSpace(s, k + 5);
    var q := SpanSpace(s, l + 1);
    SetSuffixIsTail(s, ne, k, l, q);
  }

  /** `^reset\s*name\s*=\s*'(.*?)'$` read with these positions: the name is s[j3 + 1..|s| - 1]. */
  predicate ResetForm(s: string, j1: nat, j2: nat, j3: nat) {
    NamePrefix(s, "reset", j1, j2, j3) && j3 + 1 < |s| && NoNewlineIn(s, j3 + 1, |s| - 1) && s[|s| - 1] == '\''
  }

  /** The match for a reset command, present exactly when the body reads as one. */
  function MatchReset(s: string): (r: Option<(nat, nat, nat)>)
    ensures r.Some? ==> ResetForm(s, r.value.0, r.value.1, r.value.2)
    ensures forall j1: nat, j2: nat, j3: nat :: ResetForm(s, j1, j2, j3) ==> r == Some((j1, j2, j3))
  {
    match MatchPrefix(s, "reset")
    case None => None
    case Some((j1, j2, j3)) =>
      if j3 + 1 < |s| && NoNewlineIn(s, j3 + 1, |s| - 1) && s[|s| - 1] == '\'' then Some((j1, j2, j3)) else None
  }

  /** What one tag body asks for: tried as set first, then as reset (envrun.go:155-170). */
  function ParseCommand(body: string): (c: Command) {
    match MatchSet(body)
    case Some(m) => Set(body[m.j3 + 1..m.ne], body[m.q + 1..|body| - 1])
    case None =>
      match MatchReset(body)
      case Some((j1, j2, j3)) => Reset(body[j3 + 1..|body| - 1])
      case None => Unrecognized
  }

  /**
   * What ParseCommand makes of a body: a set command exactly when it reads
   * as one, carrying the name and value of the reading with the shortest
   * name; otherwise a reset command exactly when it reads as one, carrying
   * that reading's name; otherwise nothing.
   */
  lemma ParseCommandForms(body: string)
    ensures ParseCommand(body).Set? <==> exists m :: SetForm(body, m)
    ensures ParseCommand(body).Set? ==>
              exists m :: && SetForm(body, m) && ParseCommand(body) == Set(body[m.j3 + 1..m.ne], body[m.q + 1..|body| - 1])
                          && forall m' :: SetForm(body, m') ==> m.ne <= m'.ne
    ensures ParseCommand(body).Reset? <==>
              (forall m :: !SetForm(body, m)) && exists j1: nat, j2: nat, j3: nat :: ResetForm(body, j1, j2, j3)
    ensures ParseCommand(body).Reset? ==>
              forall j1: nat, j2: nat, j3: nat :: ResetForm(body, j1, j2, j3) ==> ParseCommand(body).name == body[j3 + 1..|body| - 1]
  {
  }

  /** The body of a set command for n and v. */
  function SetText(n: string, v: string): (body: string) {
    "set name='" + n + "' value='" + v + "'"
  }

  /** The body of a reset command for n. */
  function ResetText(n: string): (body: string) {
    "reset name='" + n + "'"
  }

  predicate NoQuote(s: string) {
    forall k :: 0 <= k < |s| ==> s[k] != '\''
  }

  /** Two readings of a set command that end the name at the same place are the same reading. */
  lemma SetFormUnique(s: string, m1: SetMatch, m2: SetMatch)
    requires SetForm(s, m1) && SetForm(s, m2) && m1.ne == m2.ne
    ensures m1 == m2
  {
    PrefixUnique(s, "set");
    SetSuffixIsTail(s, m1.ne, m1.k, m1.l, m1.q);
    SetSuffixIsTail(s, m2.ne, m2.k, m2.l, m2.q);
  }

  /** Where the pieces of SetText(n, v) sit. */
  lemma SetTextLayout(n: string, v: string)
    ensures var s := SetText(n, v); var L := |n|;
      && |s| == 20 + L + |v| && s[..10] == "set name='" && s[10 + L..19 + L] == "' value='" && s[|s| - 1] == '\''
      && s[10..10 + L] == n && s[19 + L..|s| - 1] == v
  {
    var s := SetText(n, v);
    var L := |n|;
    assert s == "set name='" + n + "' value='" + v + "'";
  }

  lemma SetTextPrefix(n: string, v: string)
    ensures NamePrefix(SetText(n, v), "set", 4, 8, 9)
  {
    var s := SetText(n, v);
    SetTextLayout(n, v);
    assert s[..10][..3] == "set" && s[..10][4..8] == "name";
    assert s[3] == s[..10][3] && s[8] == s[..10][8] && s[9] == s[..10][9];
  }

  lemma SetTextSuffix(n: string, v: string)
    requires NoNewline(v)
    ensures var L := |n|; SetSuffix(SetText(n, v), 10 + L, 12 + L, 17 + L, 18 + L)
  {
    var s := SetText(n, v);
    var L := |n|;
    SetTextLayout(n, v);
    var mid := s[10 + L..19 + L];
    assert mid[2..7] == "value" && s[12 + L..17 + L] == mid[2..7];
    assert s[10 + L] == mid[0] && s[11 + L] == mid[1] && s[17 + L] == mid[7] && s[18 + L] == mid[8];
    forall p | 19 + L <= p < |s| - 1
      ensures s[p] != '\n'
    {
      assert s[p] == s[19 + L..|s| - 1][p - (19 + L)];
    }
  }

  /** The characters of the name: none is a newline, and none a quote when the name has none. */
  lemma SetTextName(n: string, v: string)
    ensures forall p :: 10 <= p < 10 + |n| ==> SetText(n, v)[p] == n[p - 10]
  {
    var s := SetText(n, v);
    SetTextLayout(n, v);
    forall p | 10 <= p < 10 + |n|
      ensures s[p] == n[p - 10]
    {
      assert s[10..10 + |n|][p - 10] == s[p];
    }
  }

  lemma SetTextForm(n: string, v: string)
    requires |n| > 0 && NoNewline(n) && NoNewline(v)
    ensures var L := |n|; SetForm(SetText(n, v), SetMatch(4, 8, 9, 10 + L, 12 + L, 17 + L, 18 + L))
  {
    SetTextPrefix(n, v);
    SetTextSuffix(n, v);
    SetTextName(n, v);
  }

  /** The shortest name RE2 can read in SetText(n, v) is all of n when n has no quote. */
  lemma SetTextNameEnd(n: string, v: string, r: SetMatch)
    requires NoQuote(n) && SetForm(SetText(n, v), r) && r.ne <= 10 + |n|
    ensures r.ne == 10 + |n|
  {
    SetTextPrefix(n, v);
    PrefixUnique(SetText(n, v), "set");
    SetTextName(n, v);
  }

  /** A set command written for a non-empty name without quote or newline parses back to it. */
  lemma SetTextParses(n: string, v: string)
    requires |n| > 0 && NoNewline(n) && NoQuote(n) && NoNewline(v)
    ensures ParseCommand(SetText(n, v)) == Set(n, v)
  {
    var s := SetText(n, v);
    var L := |n|;
    var m := SetMatch(4, 8, 9, 10 + L, 12 + L, 17 + L, 18 + L);
    SetTextForm(n, v);
    var r := MatchSet(s).value;
    SetTextNameEnd(n, v, r);
    SetFormUnique(s, r, m);
    SetTextLayout(n, v);
  }

  /** Where the pieces of ResetText(n) sit. */
  lemma ResetTextLayout(n: string)
    ensures var s := ResetText(n);
      |s| == 13 + |n| && s[..12] == "reset name='" && s[12..|s| - 1] == n && s[|s| - 1] == '\''
  {
    assert ResetText(n) == "reset name='" + n + "'";
  }

  lemma ResetTextForm(n: string)
    requires NoNewline(n)
    ensures ResetForm(ResetText(n), 6, 10, 11)
  {
    var s := ResetText(n);
    ResetTextLayout(n);
    assert s[..12][..5] == "reset" && s[..12][6..10] == "name";
    assert s[5] == s[..12][5] && s[10] == s[..12][10] && s[11] == s[..12][11];
    forall p | 12 <= p < |s| - 1
      ensures s[p] != '\n'
    {
      assert s[p] == s[12..|s| - 1][p - 12];
    }
  }

  /** A reset command does not read as a set command. */
  lemma ResetTextNotSet(n: string)
    ensures MatchPrefix(ResetText(n), "set").None?
  {
    var s := ResetText(n);
    ResetTextLayout(n);
    assert s[0] == s[..12][0] == 'r';
  }

  /** A reset command written for a name without newline parses back to it. */
  lemma ResetTextParses(n: string)
    requires NoNewline(n)
    ensures ParseCommand(ResetText(n)) == Reset(n)
  {
    ResetTextNotSet(n);
    ResetTextForm(n);
    ResetTextLayout(n);
  }

  /** Whether the command names n. */
  predicate Mentions(cmd: Command, n: string) {
    !cmd.Unrecognized? && cmd.name == n
  }

  /** The effect of one command: set writes the name, reset deletes it, anything else changes nothing. */
  function ApplyCommand(vars: map<string, string>, cmd: Command): (r: map<string, string>)
    ensures cmd.Set? ==> cmd.name in r && r[cmd.name] == cmd.value
    ensures cmd.Reset? ==> cmd.name !in r
    ensures forall n :: !Mentions(cmd, n) ==> (n in r <==> n in vars) && (n in r ==> r[n] == vars[n])
  {
    match cmd
    case Set(n, v) => vars[n := v]
    case Reset(n) => vars - {n}
    case Unrecognized => vars
  }

  /** The commands applied in order. */
  function ApplyCommands(vars: map<string, string>, cmds: seq<Command>): (r: map<string, string>)
    decreases |cmds|
  {
    if cmds == [] then vars else ApplyCommands(ApplyCommand(vars, cmds[0]), cmds[1..])
  }

  lemma {:induction false} ApplyCommandsSnoc(vars: map<string, string>, cmds: seq<Command>, c: Command)
    ensures ApplyCommands(vars, cmds + [c]) == ApplyCommand(ApplyCommands(vars, cmds), c)
    decreases |cmds|
  {
    if cmds != [] {
      assert (cmds + [c])[1..] == cmds[1..] + [c];
      ApplyCommandsSnoc(ApplyCommand(vars, cmds[0]), cmds[1..], c);
    }
  }

  /** The last command that names n, if any. */
  function LastMention(cmds: seq<Command>, n: string): (r: Option<Command>)
    ensures r.Some? ==> r.value in cmds && Mentions(r.value, n)
    decreases |cmds|
  {
    if cmds == [] then None
    else if Mentions(cmds[|cmds| - 1], n) then Some(cmds[|cmds| - 1])
    else LastMention(cmds[..|cmds| - 1], n)
  }

  /** Variable n, which was as vars has it, is in r as the last of the commands naming it left it, or as it was when none does. */
  predicate EndsAsLast(vars: map<string, string>, r: map<string, string>, cmds: seq<Command>, n: string) {
    match LastMention(cmds, n)
    case None => (n in r <==> n in vars) && (n in r ==> r[n] == vars[n])
    case Some(c) => if c.Set? then n in r && r[n] == c.value else n !in r
  }

  /** Last wins: a variable ends as the last command naming it left it, or as it was when none does. */
  lemma {:induction false} ApplyCommandsLastWins(vars: map<string, string>, cmds: seq<Command>, n: string)
    ensures EndsAsLast(vars, ApplyCommands(vars, cmds), cmds, n)
    decreases |cmds|
  {
    if cmds != [] {
      var init := cmds[..|cmds| - 1];
      assert cmds == init + [cmds[|cmds| - 1]];
      ApplyCommandsSnoc(vars, init, cmds[|cmds| - 1]);
      ApplyCommandsLastWins(vars, init, n);
    }
  }

  /** The command of each tag of a line, in order. */
  function TagCommands(line: string, tags: seq<Span>): (cmds: seq<Command>)
    requires forall k :: 0 <= k < |tags| ==> tags[k].bodyStart <= tags[k].bodyEnd <= |line|
    ensures |cmds| == |tags|
    ensures forall k :: 0 <= k < |tags| ==> cmds[k] == ParseCommand(line[tags[k].bodyStart..tags[k].bodyEnd])
  {
    seq(|tags|, k requires 0 <= k < |tags| => ParseCommand(line[tags[k].bodyStart..tags[k].bodyEnd]))
  }

  /** The tags of a line, as FindAllStringSubmatch finds them (envrun.go:152). */
  function Tags(line: string): (tags: seq<Span>)
    ensures AllMatches(line, TagOpen, TagClose, 0, tags)
    ensures forall k :: 0 <= k < |tags| ==> tags[k].start < tags[k].bodyStart < tags[k].bodyEnd < tags[k].stop <= |line|
  {
    var tags := FindAll(line, TagOpen, TagClose, 0);
    AllMatchesInOrder(line, TagOpen, TagClose, 0, tags);
    tags
  }

  /** The commands a line carries. */
  function LineCommands(line: string): (cmds: seq<Command>) {
    TagCommands(line, Tags(line))
  }

  /** Last wins for every variable at once. */
  lemma LastWinsAll(vars: map<string, string>, cmds: seq<Command>)
    ensures forall n :: EndsAsLast(vars, ApplyCommands(vars, cmds), cmds, n)
  {
    forall n
      ensures EndsAsLast(vars, ApplyCommands(vars, cmds), cmds, n)
    {
      ApplyCommandsLastWins(vars, cmds, n);
    }
  }

  /** Running two lists of commands one after the other is running them joined. */
  lemma {:induction false} ApplyCommandsAppend(vars: map<string, string>, a: seq<Command>, b: seq<Command>)
    ensures ApplyCommands(vars, a + b) == ApplyCommands(ApplyCommands(vars, a), b)
    decreases |a|
  {
    if a != [] {
      assert (a + b)[1..] == a[1..] + b;
      ApplyCommandsAppend(ApplyCommand(vars, a[0]), a[1..], b);
    } else {
      assert a + b == b;
    }
  }

  /** What one line does to the variables: each ends as the last of the line's commands naming it left it. */
  function ApplyLine(vars: map<string, string>, line: string): (r: map<string, string>)
    ensures forall n :: EndsAsLast(vars, r, LineCommands(line), n)
  {
    LastWinsAll(vars, LineCommands(line));
    ApplyCommands(vars, LineCommands(line))
  }

  /** The commands of the lines, line after line. */
  function LinesCommands(lines: seq<string>): (cmds: seq<Command>)
    decreases |lines|
  {
    if lines == [] then [] else LineCommands(lines[0]) + LinesCommands(lines[1..])
  }

  /**
   * Lines applied one after another: the same as running all their commands
   * in order, so each variable ends as the last command of any line naming
   * it left it.
   */
  function ApplyLines(vars: map<string, string>, lines: seq<string>): (r: map<string, string>)
    ensures r == ApplyCommands(vars, LinesCommands(lines))
    ensures forall n :: EndsAsLast(vars, r, LinesCommands(lines), n)
    decreases |lines|
  {
    LastWinsAll(vars, LinesCommands(lines));
    if lines == [] then vars
    else
      ApplyCommandsAppend(vars, LineCommands(lines[0]), LinesCommands(lines[1..]));
      ApplyLines(ApplyLine(vars, lines[0]), lines[1..])
  }

  /** Applying lines in two runs is applying them all at once. */
  lemma {:induction false} ApplyLinesAppend(vars: map<string, string>, a: seq<string>, b: seq<string>)
    ensures ApplyLines(vars, a + b) == ApplyLines(ApplyLines(vars, a), b)
    decreases |a|
  {
    if a != [] {
      assert (a + b)[1..] == a[1..] + b;
      ApplyLinesAppend(ApplyLine(vars, a[0]), a[1..], b);
    } else {
      assert a + b == b;
    }
  }

  /** A line without tags changes nothing. */
  lemma LineWithoutTag(vars: map<string, string>, line: string)
    requires NoMatchIn(line, TagOpen, TagClose, 0, |line| + 1)
    ensures ApplyLine(vars, line) == vars
  {
    NoneFound(line, TagOpen, TagClose);
  }
}
