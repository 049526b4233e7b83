/**
 * Loading and saving the store file: readEnvrunDatabaseFile and
 * writeEnvrunDatabaseFile (envrun.go:81-137). The file is a value the OS
 * calls would see: missing (and creatable or not), not openable, or present
 * with its content (and writable or not). log.Fatalf becomes an error result
 * or a false return.
 */
module StoreFile {
  import opened Wrappers
  import opened Text
  import opened Lines
  import opened StoreFormat
  import opened StringOrder

  /**
   * What os.Open and os.OpenFile(O_RDWR|O_CREATE) find: no file, where one
   * may or may not be created; a file os.Open cannot open; or a file with
   * its content, which O_RDWR may or may not be allowed to open.
   */
  datatype FileState = Missing(creatable: bool) | Unreadable | Present(content: string, writable: bool)

  /** Whether os.OpenFile(path, O_RDWR|O_CREATE, 0644) succeeds (envrun.go:117-120). */
  predicate OpensForWrite(state: FileState) {
    match state
    case Missing(creatable) => creatable
    case Unreadable => false
    case Present(_, writable) => writable
  }

  /** The bytes already in the file: none when it is missing. */
  function PriorContent(state: FileState): (prior: string)
    ensures state.Present? ==> prior == state.content
    ensures !state.Present? ==> prior == []
  {
    if state.Present? then state.content else []
  }

  datatype LoadError = OpenError | FormatError(line: nat)

  class DatabaseFile {
    var state: FileState

    constructor (state: FileState)
      ensures this.state == state
    {
      this.state := state;
    }
  }

  /** What each line of the file parses to (envrun.go:97-104). */
  function ParseAll(lines: seq<string>): (parsed: seq<Option<Entry>>)
    ensures |parsed| == |lines|
    ensures forall k :: 0 <= k < |lines| ==> parsed[k] == ParseStoreLine(lines[k])
  {
    seq(|lines|, k requires 0 <= k < |lines| => ParseStoreLine(lines[k]))
  }

  /**
   * The load loop from line i + 1 on, into acc, over the parsed lines: a
   * line that does not parse stops it with its number, and a later line
   * for the same name overwrites an earlier one.
   */
  function LoadFrom(acc: map<string, string>, parsed: seq<Option<Entry>>, i: nat): (r: Result<map<string, string>, LoadError>)
    requires i <= |parsed|
    ensures r.Success? <==> forall j :: i <= j < |parsed| ==> parsed[j].Some?
    ensures r.Failure? ==> r.error.FormatError? && FirstBadLine(parsed, i, r.error.line)
    decreases |parsed| - i
  {
    if i == |parsed| then Success(acc)
    else match parsed[i]
      case None => Failure(FormatError(i + 1))
      case Some(e) => LoadFrom(acc[e.name := e.value], parsed, i + 1)
  }

  /** The variables a store file with this content holds, or the number of its first bad line. */
  function LoadText(text: string): (r: Result<map<string, string>, LoadError>)
    ensures r.Success? <==> forall k :: 0 <= k < |ScanLines(text)| ==> ParseStoreLine(ScanLines(text)[k]).Some?
    ensures r.Failure? ==> r.error.FormatError? && 1 <= r.error.line <= |ScanLines(text)|
    ensures r.Failure? ==> ParseStoreLine(ScanLines(text)[r.error.line - 1]).None?
  {
    LoadFrom(map[], ParseAll(ScanLines(text)), 0)
  }

  method ReadDatabaseFile(file: DatabaseFile) returns (r: Result<map<string, string>, LoadError>)
    ensures file.state.Missing? ==> r == Success(map[])
    ensures file.state.Unreadable? ==> r == Failure(OpenError)
    ensures file.state.Present? ==> r == LoadText(file.state.content)
  {
    match file.state
    case Missing(_) => return Success(map[]);
    case Unreadable => return Failure(OpenError);
    case Present(text, _) =>
      var lines := ScanLines(text);
      ghost var parsed := ParseAll(lines);
      var variables: map<string, string> := map[];
      var lineNo := 1;
      while lineNo <= |lines|
        invariant 1 <= lineNo <= |lines| + 1
        invariant LoadFrom(variables, parsed, lineNo - 1) == LoadText(text)
      {
        var entry := ParseStoreLine(lines[lineNo - 1]);
        assert parsed[lineNo - 1] == entry;
        if entry.None? {
          return Failure(FormatError(lineNo));
        }
        variables := variables[entry.value.name := entry.value.value];
        lineNo := lineNo + 1;
      }
      return Success(variables);
  }

  /** Line k (counting from 1, from line i + 1 on) is the first that does not parse. */
  predicate FirstBadLine(parsed: seq<Option<Entry>>, i: nat, k: nat) {
    i < k <= |parsed| && parsed[k - 1].None? &&
    forall j :: i <= j < k - 1 ==> parsed[j].Some?
  }

  /** Whether line j holds a variable named n. */
  predicate Names(parsed: seq<Option<Entry>>, j: nat, n: string)
    requires j < |parsed|
  {
    parsed[j].Some? && parsed[j].value.name == n
  }

  /** Line j parses and no later line names the same variable. */
  predicate LastFor(parsed: seq<Option<Entry>>, j: nat)
    requires j < |parsed|
  {
    parsed[j].Some? &&
    forall j' :: j < j' < |parsed| ==> !Names(parsed, j', parsed[j].value.name)
  }

  /** A name no line from i + 1 on mentions keeps through the load what it had in acc. */
  lemma {:induction false} LoadFromUntouched(acc: map<string, string>, parsed: seq<Option<Entry>>, i: nat, m: map<string, string>, n: string)
    requires i <= |parsed| && LoadFrom(acc, parsed, i) == Success(m)
    requires forall j :: i <= j < |parsed| ==> !Names(parsed, j, n)
    ensures n in m <==> n in acc
    ensures n in m ==> m[n] == acc[n]
    decreases |parsed| - i
  {
    if i < |parsed| {
      assert !Names(parsed, i, n);
      var e := parsed[i].value;
      LoadFromUntouched(acc[e.name := e.value], parsed, i + 1, m, n);
    }
  }

  /** Last wins: after a successful load a line that no later line overrides holds its entry. */
  lemma {:induction false} LoadFromLastWins(acc: map<string, string>, parsed: seq<Option<Entry>>, i: nat, m: map<string, string>, j: nat)
    requires i <= j < |parsed| && LoadFrom(acc, parsed, i) == Success(m) && LastFor(parsed, j)
    ensures parsed[j].value.name in m && m[parsed[j].value.name] == parsed[j].value.value
    decreases |parsed| - i
  {
    var e := parsed[i].value;
    if j == i {
      LoadFromUntouched(acc[e.name := e.value], parsed, i + 1, m, e.name);
    } else {
      LoadFromLastWins(acc[e.name := e.value], parsed, i + 1, m, j);
    }
  }

  /**
   * What loading a file's text yields: an error naming the first line
   * (from 1) that does not parse, or, when every line parses, the names
   * read, each with the value of its last line.
   */
  lemma LoadTextMeaning(text: string)
    ensures var parsed := ParseAll(ScanLines(text));
      && (LoadText(text).Success? <==> forall j :: 0 <= j < |parsed| ==> parsed[j].Some?)
      && (LoadText(text).Failure? ==> exists k :: FirstBadLine(parsed, 0, k) && LoadText(text) == Failure(FormatError(k)))
      && (LoadText(text).Success? ==>
            && (forall j :: 0 <= j < |parsed| && LastFor(parsed, j) ==>
                  parsed[j].value.name in LoadText(text).value && LoadText(text).value[parsed[j].value.name] == parsed[j].value.value)
            && (forall n :: n in LoadText(text).value ==> exists j :: 0 <= j < |parsed| && Names(parsed, j, n)))
  {
    var parsed := ParseAll(ScanLines(text));
    if LoadText(text).Failure? {
      assert FirstBadLine(parsed, 0, LoadText(text).error.line);
    }
    if LoadText(text).Success? {
      var m := LoadText(text).value;
      forall j | 0 <= j < |parsed| && LastFor(parsed, j)
        ensures parsed[j].value.name in m && m[parsed[j].value.name] == parsed[j].value.value
      {
        LoadFromLastWins(map[], parsed, 0, m, j);
      }
      forall n | n in m
        ensures exists j :: 0 <= j < |parsed| && Names(parsed, j, n)
      {
        if forall j :: 0 <= j < |parsed| ==> !Names(parsed, j, n) {
          LoadFromUntouched(map[], parsed, 0, m, n);
        }
      }
    }
  }

  /** What an OS write from offset 0 leaves: the new text, then whatever was beyond its end. */
  function Overwrite(prior: string, text: string): (r: string)
    ensures |prior| <= |text| ==> r == text
    ensures |prior| > |text| ==> |r| == |prior| && r[..|text|] == text && r[|text|..] == prior[|text|..]
  {
    if |prior| > |text| then text + prior[|text|..] else text
  }

  /** The lines for the given names, each `name = 'value'`. */
  function FormatAll(names: seq<string>, vars: map<string, string>): (lines: seq<string>)
    requires forall n :: n in names ==> n in vars
    ensures |lines| == |names|
    ensures forall k :: 0 <= k < |names| ==> lines[k] == FormatLine(names[k], vars[names[k]])
  {
    seq(|names|, k requires 0 <= k < |names| => FormatLine(names[k], vars[names[k]]))
  }

  /** The text a save writes: one line per variable, in ascending order of name. */
  ghost function Serialize(vars: map<string, string>): (text: string)
    ensures Storable(vars) ==> ScanLines(text) == FormatAll(SortedKeys(vars.Keys), vars)
  {
    var names := SortedKeys(vars.Keys);
    if Storable(vars) then
      FormattedLinesParse(names, vars);
      JoinLines(FormatAll(names, vars))
    else JoinLines(FormatAll(names, vars))
  }

  lemma DistinctCounts(s: seq<string>)
    requires Distinct(s)
    ensures forall x :: multiset(s)[x] <= 1
    decreases |s|
  {
    if |s| > 0 {
      var t := s[..|s| - 1];
      assert s == t + [s[|s| - 1]];
      assert Distinct(t);
      DistinctCounts(t);
      assert s[|s| - 1] !in t;
    }
  }

  lemma CountsDistinct(s: seq<string>)
    requires forall x :: multiset(s)[x] <= 1
    ensures Distinct(s)
  {
    forall i, j | 0 <= i < j < |s|
      ensures s[i] != s[j]
    {
      assert s == s[..j] + s[j..];
      assert s[i] in s[..j];
      assert s[j] in s[j..];
      assert multiset(s)[s[j]] == multiset(s[..j])[s[j]] + multiset(s[j..])[s[j]];
    }
  }

  /** The variable names of vars, in the order the Go map iteration happens to give. */
  method CollectNames(vars: map<string, string>) returns (names: seq<string>)
    ensures Distinct(names)
    ensures forall x :: x in names <==> x in vars
  {
    names := [];
    var rest := vars.Keys;
    while rest != {}
      invariant rest <= vars.Keys
      invariant forall x :: x in names <==> x in vars && x !in rest
      invariant Distinct(names)
      decreases |rest|
    {
      var n :| n in rest;
      names := names + [n];
      rest := rest - {n};
    }
  }

  /** The variable names in ascending order, as sort.Strings leaves them (envrun.go:124-128). */
  method SortedNames(vars: map<string, string>) returns (sorted: seq<string>)
    ensures sorted == SortedKeys(vars.Keys)
  {
    var names := CollectNames(vars);
    var a := new string[|names|](k requires 0 <= k < |names| => names[k]);
    assert a[..] == names;
    SortStrings(a);
    sorted := a[..];
    DistinctCounts(names);
    CountsDistinct(sorted);
    SortedDistinctAscending(sorted);
    forall x
      ensures x in sorted <==> x in SortedKeys(vars.Keys)
    {
      assert x in sorted <==> x in multiset(sorted);
      assert x in names <==> x in multiset(names);
    }
    AscendingUnique(sorted, SortedKeys(vars.Keys));
  }

  lemma RenderStep(names: seq<string>, vars: map<string, string>, i: nat)
    requires i < |names| && forall n :: n in names ==> n in vars
    ensures JoinLines(FormatAll(names[..i + 1], vars)) == JoinLines(FormatAll(names[..i], vars)) + FormatLine(names[i], vars[names[i]]) + "\n"
  {
    var line := FormatLine(names[i], vars[names[i]]);
    assert FormatAll(names[..i + 1], vars) == FormatAll(names[..i], vars) + [line];
    JoinLinesSnoc(FormatAll(names[..i], vars), line);
  }

  /** Builds the text of the store file as the buffered writer receives it (envrun.go:124-135). */
  method RenderDatabase(vars: map<string, string>) returns (text: string)
    ensures text == Serialize(vars)
  {
    var sorted := SortedNames(vars);
    text := [];
    var i := 0;
    while i < |sorted|
      invariant 0 <= i <= |sorted|
      invariant text == JoinLines(FormatAll(sorted[..i], vars))
    {
      RenderStep(sorted, vars, i);
      text := text + FormatLine(sorted[i], vars[sorted[i]]) + "\n";
      i := i + 1;
    }
    assert sorted[..|sorted|] == sorted;
  }

  /**
   * writeEnvrunDatabaseFile as written: the file is opened with O_RDWR|O_CREATE
   * and no O_TRUNC, so the text replaces only a prefix of the old content.
   */
  method WriteDatabaseFile(file: DatabaseFile, vars: map<string, string>) returns (ok: bool)
    modifies file
    ensures ok <==> OpensForWrite(old(file.state))
    ensures !ok ==> file.state == old(file.state)
    ensures ok ==> file.state == Present(Overwrite(PriorContent(old(file.state)), Serialize(vars)), true)
  {
    if !OpensForWrite(file.state) {
      return false;
    }
    var prior := PriorContent(file.state);
    var text := RenderDatabase(vars);
    file.state := Present(Overwrite(prior, text), true);
    ok := true;
  }

  /** The save as intended: the file afterwards holds exactly the new text. */
  method WriteDatabaseFileTruncating(file: DatabaseFile, vars: map<string, string>) returns (ok: bool)
    modifies file
    ensures ok <==> OpensForWrite(old(file.state))
    ensures !ok ==> file.state == old(file.state)
    ensures ok ==> file.state == Present(Serialize(vars), true)
  {
    if !OpensForWrite(file.state) {
      return false;
    }
    var text := RenderDatabase(vars);
    file.state := Present(text, true);
    ok := true;
  }

  lemma FormatLineScannable(n: string, v: string)
    requires NoNewline(n) && NoNewline(v)
    ensures Scannable(FormatLine(n, v))
  {
    var s := FormatLine(n, v);
    assert s == n + " = '" + v + "'";
    forall k | 0 <= k < |s|
      ensures s[k] != '\n'
    {
      if k < |n| {
        assert s[k] == n[k];
      } else if |n| + 4 <= k < |n| + 4 + |v| {
        assert s[k] == v[k - |n| - 4];
      }
    }
  }

  /** The variables among names, with their values. */
  ghost function Part(vars: map<string, string>, names: seq<string>): (part: map<string, string>) {
    map n | n in names && n in vars :: vars[n]
  }

  predicate Storable(vars: map<string, string>) {
    forall n :: n in vars ==> StorableName(n) && NoNewline(vars[n])
  }

  /** The entries a successful parse of the lines formatted for names gives. */
  function EntriesOf(names: seq<string>, vars: map<string, string>): (parsed: seq<Option<Entry>>)
    requires forall n :: n in names ==> n in vars
    ensures |parsed| == |names|
    ensures forall k :: 0 <= k < |names| ==> parsed[k] == Some(Entry(names[k], vars[names[k]]))
  {
    seq(|names|, k requires 0 <= k < |names| => Some(Entry(names[k], vars[names[k]])))
  }

  lemma {:induction false} LoadEntries(acc: map<string, string>, names: seq<string>, vars: map<string, string>, i: nat)
    requires (forall n :: n in names ==> n in vars) && i <= |names|
    ensures LoadFrom(acc, EntriesOf(names, vars), i) == Success(acc + Part(vars, names[i..]))
    decreases |names| - i
  {
    if i == |names| {
      assert Part(vars, names[i..]) == map[];
      assert acc + map[] == acc;
    } else {
      var n := names[i];
      LoadEntries(acc[n := vars[n]], names, vars, i + 1);
      PartStep(vars, names, i);
      UpdateUnion(acc, Part(vars, names[i + 1..]), n, vars[n]);
    }
  }

  /** The part for names[i..] is the part for names[i + 1..] with names[i] added. */
  lemma PartStep(vars: map<string, string>, names: seq<string>, i: nat)
    requires i < |names| && names[i] in vars
    ensures Part(vars, names[i..]) == Part(vars, names[i + 1..])[names[i] := vars[names[i]]]
    ensures names[i] in Part(vars, names[i + 1..]) ==> Part(vars, names[i + 1..])[names[i]] == vars[names[i]]
  {
    assert names[i..] == [names[i]] + names[i + 1..];
  }

  /** Writing n before a union that already agrees on n is writing it after. */
  lemma UpdateUnion(acc: map<string, string>, p: map<string, string>, n: string, v: string)
    requires n in p ==> p[n] == v
    ensures acc[n := v] + p == acc + p[n := v]
  {
  }

  lemma FormattedLinesParse(names: seq<string>, vars: map<string, string>)
    requires Storable(vars) && forall n :: n in names ==> n in vars
    ensures ScanLines(JoinLines(FormatAll(names, vars))) == FormatAll(names, vars)
    ensures ParseAll(FormatAll(names, vars)) == EntriesOf(names, vars)
  {
    var lines := FormatAll(names, vars);
    forall k | 0 <= k < |lines|
      ensures Scannable(lines[k])
      ensures ParseStoreLine(lines[k]) == Some(Entry(names[k], vars[names[k]]))
    {
      FormatLineScannable(names[k], vars[names[k]]);
      FormatLineParses(names[k], vars[names[k]]);
    }
    ScanJoinedLines(lines);
  }

  lemma PartOfAll(vars: map<string, string>)
    ensures map[] + Part(vars, SortedKeys(vars.Keys)) == vars
  {
  }

  /** Round trip: loading the saved text gives back the variables, when names and values can be stored. */
  lemma SerializeRoundTrip(vars: map<string, string>)
    requires Storable(vars)
    ensures LoadText(Serialize(vars)) == Success(vars)
  {
    var names := SortedKeys(vars.Keys);
    var text := Serialize(vars);
    assert text == JoinLines(FormatAll(names, vars));
    FormattedLinesParse(names, vars);
    assert ParseAll(ScanLines(text)) == EntriesOf(names, vars);
    LoadEntries(map[], names, vars, 0);
    assert names[0..] == names;
    PartOfAll(vars);
  }

  /** A store of one variable is saved as its one line. */
  lemma SerializeOne(n: string, v: string)
    ensures Serialize(map[n := v]) == FormatLine(n, v) + "\n"
  {
    var m := map[n := v];
    var names := SortedKeys(m.Keys);
    assert n in names;
    assert names == [n];
    assert FormatAll([n], m) == [FormatLine(n, v)];
    assert JoinLines([FormatLine(n, v)]) == FormatLine(n, v) + "\n" + JoinLines([]);
  }

  /** What is left of a longer old line beyond the end of the new text, without the final newline. */
  function StaleTail(n: string, v: string, w: string): (tail: string)
    requires |w| < |v|
  {
    var prior := FormatLine(n, v) + "\n";
    prior[|FormatLine(n, w) + "\n"|..|prior| - 1]
  }

  /**
   * Overwriting the line for a longer value with the line for a shorter one
   * leaves two lines: the new one, and the stale end of the old value with
   * its closing quote, which holds no newline and no '=' when the old value
   * held none.
   */
  lemma StaleText(n: string, v: string, w: string)
    requires |w| < |v| && NoNewline(v) && '=' !in v
    ensures Overwrite(FormatLine(n, v) + "\n", FormatLine(n, w) + "\n") == JoinLines([FormatLine(n, w), StaleTail(n, v, w)])
    ensures Scannable(StaleTail(n, v, w)) && '=' !in StaleTail(n, v, w)
  {
    var prior := FormatLine(n, v) + "\n";
    var text := FormatLine(n, w) + "\n";
    var t := StaleTail(n, v, w);
    var L := |n|;
    var line := FormatLine(n, v);
    assert prior[|text|..] == t + "\n";
    assert JoinLines([t]) == t + "\n" + JoinLines([]);
    assert JoinLines([FormatLine(n, w), t]) == text + JoinLines([t]);
    forall p | 0 <= p < |t|
      ensures t[p] != '\n' && t[p] != '=' && (p == |t| - 1 ==> t[p] == '\'')
    {
      var q := |text| + p;
      assert t[p] == line[q];
      if q < |line| - 1 {
        assert line[q] == line[L + 4..|line| - 1][q - (L + 4)];
        assert v[q - (L + 4)] in v;
      }
    }
  }

  /** A store line followed by a line without '=' loads as far as line 2. */
  lemma SecondLineFails(n: string, w: string, t: string)
    requires StorableName(n) && NoNewline(w) && Scannable(t) && '=' !in t
    ensures LoadText(JoinLines([FormatLine(n, w), t])) == Failure(FormatError(2))
  {
    var lines := [FormatLine(n, w), t];
    FormatLineScannable(n, w);
    ScanJoinedLines(lines);
    FormatLineParses(n, w);
    NoSeparatorNoEntry(t);
    SecondOfTwoFails(lines);
  }

  /** Two lines of which only the first parses stop the load at line 2. */
  lemma SecondOfTwoFails(lines: seq<string>)
    requires |lines| == 2 && ParseStoreLine(lines[0]).Some? && ParseStoreLine(lines[1]).None?
    ensures LoadFrom(map[], ParseAll(lines), 0) == Failure(FormatError(2))
  {
    var parsed := ParseAll(lines);
    assert parsed[0].Some? && parsed[1].None?;
  }

  /**
   * The stale tail after a save that shrinks the store: a store of one
   * variable loads back, but once it is saved again with a shorter value
   * (the old one without '='), the file no longer loads: the load stops at
   * its second line, the end of the old value. Both values are ASCII, so
   * that the characters Overwrite counts are the bytes the OS write counts.
   */
  lemma ShrinkingSaveCorruptsStore(n: string, v: string, w: string)
    requires StorableName(n) && NoNewline(v) && NoNewline(w) && '=' !in v && |w| < |v|
    requires Ascii(v) && Ascii(w)
    ensures LoadText(Serialize(map[n := v])) == Success(map[n := v])
    ensures LoadText(Overwrite(Serialize(map[n := v]), Serialize(map[n := w]))) == Failure(FormatError(2))
  {
    SerializeRoundTrip(map[n := v]);
    SerializeOne(n, v);
    SerializeOne(n, w);
    StaleText(n, v, w);
    SecondLineFails(n, w, StaleTail(n, v, w));
  }
}
