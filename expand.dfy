/**
 * Expansion of `{{name}}` placeholders in the command line (envrun.go:17,
 * 32-39). The environment is a parameter: os.Getenv reads it, and an unset
 * variable reads as the empty string.
 */
module Expand {
  import opened Wrappers
  import opened Text
  import opened Delimited

  const PlaceholderOpen: string := "{{"
  const PlaceholderClose: string := "}}"

  /** s[from..] holds the spans in order, each inside s and none overlapping the next. */
  predicate InOrder(s: string, ms: seq<Span>, from: nat) {
    && from <= |s|
    && (forall k :: 0 <= k < |ms| ==> ms[k].start <= ms[k].stop <= |s|)
    && (|ms| > 0 ==> from <= ms[0].start)
    && (forall k :: 0 < k < |ms| ==> ms[k - 1].stop <= ms[k].start)
  }

  /** The placeholders of an argument, as FindAllStringSubmatch finds them. */
  function Placeholders(arg: string): (ms: seq<Span>)
    ensures AllMatches(arg, PlaceholderOpen, PlaceholderClose, 0, ms)
    ensures InOrder(arg, ms, 0)
    ensures forall k :: 0 <= k < |ms| ==> ms[k].start < ms[k].bodyStart < ms[k].bodyEnd < ms[k].stop
  {
    var ms := FindAll(arg, PlaceholderOpen, PlaceholderClose, 0);
    AllMatchesInOrder(arg, PlaceholderOpen, PlaceholderClose, 0, ms);
    ms
  }

  /** The variable name a placeholder holds: the first capture group. */
  function Name(arg: string, m: Span): (name: string)
    requires m.bodyStart <= m.bodyEnd <= |arg|
  {
    arg[m.bodyStart..m.bodyEnd]
  }

  /** os.Getenv. */
  function Getenv(env: map<string, string>, name: string): (v: string)
    ensures name in env ==> v == env[name]
    ensures name !in env ==> v == []
  {
    if name in env then env[name] else []
  }

  /** s[from..] with the k-th span replaced by vals[k]. */
  function ReplaceEach(s: string, ms: seq<Span>, vals: seq<string>, from: nat): (r: string)
    requires |vals| == |ms| && InOrder(s, ms, from)
    decreases |ms|
  {
    if ms == [] then s[from..]
    else s[from..ms[0].start] + vals[0] + ReplaceEach(s, ms[1..], vals[1..], ms[0].stop)
  }

  /** Replacing every span by the text it covers gives back the string. */
  lemma {:induction false} ReplaceByOwnText(s: string, ms: seq<Span>, from: nat)
    requires InOrder(s, ms, from)
    ensures ReplaceEach(s, ms, seq(|ms|, k requires 0 <= k < |ms| => s[ms[k].start..ms[k].stop]), from) == s[from..]
    decreases |ms|
  {
    if ms != [] {
      var vals := seq(|ms|, k requires 0 <= k < |ms| => s[ms[k].start..ms[k].stop]);
      assert vals[1..] == seq(|ms[1..]|, k requires 0 <= k < |ms[1..]| => s[ms[1..][k].start..ms[1..][k].stop]);
      ReplaceByOwnText(s, ms[1..], ms[0].stop);
      assert s[from..] == s[from..ms[0].start] + s[ms[0].start..ms[0].stop] + s[ms[0].stop..];
    }
  }

  /** Every value the same: ReplaceAllString(s, v) over the spans. */
  function Constant(n: nat, v: string): (vals: seq<string>)
    ensures |vals| == n && forall k :: 0 <= k < n ==> vals[k] == v
  {
    seq(n, k => v)
  }

  /**
   * The argument after the loop at envrun.go:33-38 as written: every pass
   * replaces all placeholders of the original argument by the value of the
   * current one, so the last placeholder's value ends up everywhere.
   */
  function ExpandArg(arg: string, env: map<string, string>): (r: string) {
    var ms := Placeholders(arg);
    if ms == [] then arg
    else ReplaceEach(arg, ms, Constant(|ms|, Getenv(env, Name(arg, ms[|ms| - 1]))), 0)
  }

  /** The environment the loop as written behaves as if it read: every variable a placeholder names holds the last placeholder's value. */
  function LastValueEnv(arg: string, env: map<string, string>): (u: map<string, string>) {
    var ms := Placeholders(arg);
    if ms == [] then env else AllTo(NamesOf(arg, ms), Getenv(env, Name(arg, ms[|ms| - 1])))
  }

  /** The variable names the spans hold. */
  function NamesOf(arg: string, ms: seq<Span>): (names: seq<string>)
    requires forall k :: 0 <= k < |ms| ==> ms[k].bodyStart <= ms[k].bodyEnd <= |arg|
    ensures |names| == |ms|
    ensures forall k :: 0 <= k < |ms| ==> names[k] == Name(arg, ms[k])
  {
    seq(|ms|, k requires 0 <= k < |ms| => Name(arg, ms[k]))
  }

  /** Every one of the names mapped to v. */
  function AllTo(names: seq<string>, v: string): (u: map<string, string>)
    ensures forall k :: 0 <= k < |names| ==> names[k] in u && u[names[k]] == v
    decreases |names|
  {
    if names == [] then map[] else AllTo(names[..|names| - 1], v)[names[|names| - 1] := v]
  }

  /** Where every name the spans hold is mapped to v, every span's own value is v. */
  lemma OwnValuesUniform(arg: string, ms: seq<Span>, v: string)
    requires forall k :: 0 <= k < |ms| ==> ms[k].bodyStart <= ms[k].bodyEnd <= |arg|
    ensures OwnValues(arg, ms, AllTo(NamesOf(arg, ms), v)) == Constant(|ms|, v)
  {
    var u := AllTo(NamesOf(arg, ms), v);
    forall k | 0 <= k < |ms|
      ensures OwnValues(arg, ms, u)[k] == v
    {
      assert NamesOf(arg, ms)[k] == Name(arg, ms[k]);
    }
  }

  /** The loop as written is the intended expansion in an environment where every variable a placeholder names holds the last placeholder's value. */
  lemma ExpandArgLastValue(arg: string, env: map<string, string>)
    ensures ExpandArg(arg, env) == ExpandArgIntended(arg, LastValueEnv(arg, env))
  {
    var ms := Placeholders(arg);
    if ms != [] {
      OwnValuesUniform(arg, ms, Getenv(env, Name(arg, ms[|ms| - 1])));
    }
  }

  /** The values the placeholders name, each its own. */
  function OwnValues(arg: string, ms: seq<Span>, env: map<string, string>): (vals: seq<string>)
    requires forall k :: 0 <= k < |ms| ==> ms[k].bodyStart <= ms[k].bodyEnd <= |arg|
    ensures |vals| == |ms|
    ensures forall k :: 0 <= k < |ms| ==> vals[k] == Getenv(env, Name(arg, ms[k]))
  {
    seq(|ms|, k requires 0 <= k < |ms| => Getenv(env, Name(arg, ms[k])))
  }

  /** The expansion as intended: each placeholder replaced by the value of the variable it names. */
  function ExpandArgIntended(arg: string, env: map<string, string>): (r: string) {
    var ms := Placeholders(arg);
    if ms == [] then arg else ReplaceEach(arg, ms, OwnValues(arg, ms, env), 0)
  }

  /** An argument without placeholders is passed on unchanged, by both readings. */
  lemma NoPlaceholderUnchanged(arg: string, env: map<string, string>)
    requires NoMatchIn(arg, PlaceholderOpen, PlaceholderClose, 0, |arg| + 1)
    ensures ExpandArg(arg, env) == arg && ExpandArgIntended(arg, env) == arg
  {
    NoneFound(arg, PlaceholderOpen, PlaceholderClose);
  }

  /** Replacing the spans of the argument reproduces it when every value is the text it replaces. */
  lemma IntendedKeepsOwnText(arg: string, env: map<string, string>)
    requires var ms := Placeholders(arg);
      forall k :: 0 <= k < |ms| ==> Getenv(env, Name(arg, ms[k])) == arg[ms[k].start..ms[k].stop]
    ensures ExpandArgIntended(arg, env) == arg
  {
    var ms := Placeholders(arg);
    ReplaceByOwnText(arg, ms, 0);
    assert OwnValues(arg, ms, env) == seq(|ms|, k requires 0 <= k < |ms| => arg[ms[k].start..ms[k].stop]);
  }

  /** The two readings agree when it makes no difference: every placeholder names a variable with the same value as the last. */
  lemma AgreeWhenValuesEqual(arg: string, env: map<string, string>)
    requires var ms := Placeholders(arg);
      forall k :: 0 <= k < |ms| ==> Getenv(env, Name(arg, ms[k])) == Getenv(env, Name(arg, ms[|ms| - 1]))
    ensures ExpandArg(arg, env) == ExpandArgIntended(arg, env)
  {
    var ms := Placeholders(arg);
    if ms != [] {
      assert OwnValues(arg, ms, env) == Constant(|ms|, Getenv(env, Name(arg, ms[|ms| - 1])));
    }
  }

  /** The inner loop at envrun.go:34-38 for one argument. */
  method ExpandOne(arg: string, env: map<string, string>) returns (r: string)
    ensures r == ExpandArg(arg, env)
  {
    var matches := Placeholders(arg);
    r := arg;
    var j := 0;
    while j < |matches|
      invariant 0 <= j <= |matches|
      invariant r == if j == 0 then arg
                     else ReplaceEach(arg, matches, Constant(|matches|, Getenv(env, Name(arg, matches[j - 1]))), 0)
    {
      var value := Getenv(env, Name(arg, matches[j]));
      r := ReplaceEach(arg, matches, Constant(|matches|, value), 0);
      j := j + 1;
    }
  }

  /** Replacing from the first span on: the text before it, its value, then the rest replaced in the same way. */
  lemma ReplaceFirst(s: string, ms: seq<Span>, vals: seq<string>, from: nat)
    requires |vals| == |ms| && InOrder(s, ms, from) && ms != []
    ensures InOrder(s, ms[1..], ms[0].stop)
    ensures ReplaceEach(s, ms, vals, from) == s[from..ms[0].start] + vals[0] + ReplaceEach(s, ms[1..], vals[1..], ms[0].stop)
  {
  }

  /**
   * The corrected inner loop: the placeholders taken left to right, the text
   * before each one copied and the placeholder replaced by the value of its
   * own variable, then the text after the last one.
   */
  method ExpandOneIntended(arg: string, env: map<string, string>) returns (r: string)
    ensures r == ExpandArgIntended(arg, env)
  {
    var matches := Placeholders(arg);
    ghost var vals := OwnValues(arg, matches, env);
    r := [];
    var prev: nat := 0;
    var j := 0;
    while j < |matches|
      invariant 0 <= j <= |matches|
      invariant InOrder(arg, matches[j..], prev)
      invariant r + ReplaceEach(arg, matches[j..], vals[j..], prev) == ReplaceEach(arg, matches, vals, 0)
    {
      var m := matches[j];
      var value := Getenv(env, Name(arg, m));
      ReplaceFirst(arg, matches[j..], vals[j..], prev);
      assert matches[j..][1..] == matches[j + 1..] && vals[j..][1..] == vals[j + 1..];
      var piece := arg[prev..m.start] + value;
      StringAssoc(r, piece, ReplaceEach(arg, matches[j + 1..], vals[j + 1..], m.stop));
      r := r + piece;
      prev := m.stop;
      j := j + 1;
    }
    assert arg[0..] == arg;
    r := r + arg[prev..];
  }

  /** The outer loop at envrun.go:32-39 over the arguments' values: each one expanded as the inner loop does. */
  method ExpandAll(args: seq<string>, env: map<string, string>) returns (result: seq<string>)
    ensures |result| == |args|
    ensures forall k :: 0 <= k < |args| ==> result[k] == ExpandArg(args[k], env)
  {
    result := [];
    var i := 0;
    while i < |args|
      invariant 0 <= i <= |args| && |result| == i
      invariant forall k :: 0 <= k < i ==> result[k] == ExpandArg(args[k], env)
    {
      var e := ExpandOne(args[i], env);
      result := result + [e];
      i := i + 1;
    }
  }

  /** The corrected outer loop: each argument expanded once, every placeholder by its own variable. */
  method ExpandAllIntended(args: seq<string>, env: map<string, string>) returns (result: seq<string>)
    ensures |result| == |args|
    ensures forall k :: 0 <= k < |args| ==> result[k] == ExpandArgIntended(args[k], env)
  {
    result := [];
    var i := 0;
    while i < |args|
      invariant 0 <= i <= |args| && |result| == i
      invariant forall k :: 0 <= k < i ==> result[k] == ExpandArgIntended(args[k], env)
    {
      var e := ExpandOneIntended(args[i], env);
      result := result + [e];
      i := i + 1;
    }
  }

  /** Stores the new arguments back into the argument array, slot by slot. */
  method StoreArgs(args: array<string>, values: seq<string>)
    requires |values| == args.Length
    modifies args
    ensures args[..] == values
  {
    var i := 0;
    while i < args.Length
      invariant 0 <= i <= args.Length
      invariant args[..i] == values[..i]
    {
      args[i] := values[i];
      i := i + 1;
    }
  }

  /** os.Args after the loop at envrun.go:32-39: every argument replaced by its expansion as written. */
  method ExpandArgs(args: array<string>, env: map<string, string>)
    modifies args
    ensures forall k :: 0 <= k < args.Length ==> args[k] == ExpandArg(old(args[k]), env)
  {
    ghost var original := args[..];
    var result := ExpandAll(args[..], env);
    StoreArgs(args, result);
    assert forall k :: 0 <= k < args.Length ==> old(args[k]) == original[k] && args[k] == result[k];
  }

  /** os.Args after the corrected loop. */
  method ExpandArgsIntended(args: array<string>, env: map<string, string>)
    modifies args
    ensures forall k :: 0 <= k < args.Length ==> args[k] == ExpandArgIntended(old(args[k]), env)
  {
    ghost var original := args[..];
    var result := ExpandAllIntended(args[..], env);
    StoreArgs(args, result);
    assert forall k :: 0 <= k < args.Length ==> old(args[k]) == original[k] && args[k] == result[k];
  }

  /** A one-character name right between the delimiters is matched exactly so. */
  lemma MatchAtShape(s: string, i: nat)
    requires LitAt(s, i, PlaceholderOpen) && i + 2 < |s| && !IsSpace(s[i + 2])
    requires LitAt(s, i + 3, PlaceholderClose)
    ensures MatchAt(s, PlaceholderOpen, PlaceholderClose, i) == Some(Span(i, i + 2, i + 3, i + 5))
  {
    assert s[i + 3] == '}' && !IsSpace(s[i + 3]);
    assert DelimitedForm(s, PlaceholderOpen, PlaceholderClose, i, i + 2, i + 3, i + 3);
  }

  /** No placeholder starts where "{{" does not. */
  lemma NoPlaceholderAt(s: string, i: nat)
    requires i + 2 <= |s| ==> s[i] != '{'
    ensures MatchAt(s, PlaceholderOpen, PlaceholderClose, i).None?
  {
    if i + 2 <= |s| {
      assert s[i..i + 2][0] != '{';
    }
  }

  /** "{{a}}-{{b}}": two one-character placeholders with a dash between them. */
  function Sample(a: char, b: char): (s: string)
    ensures |s| == 11 && s[2] == a && s[8] == b && s[5] == '-'
    ensures LitAt(s, 0, PlaceholderOpen) && LitAt(s, 3, PlaceholderClose)
    ensures LitAt(s, 6, PlaceholderOpen) && LitAt(s, 9, PlaceholderClose)
  {
    var s := PlaceholderOpen + [a] + PlaceholderClose + "-" + PlaceholderOpen + [b] + PlaceholderClose;
    assert s[0..2] == PlaceholderOpen && s[3..5] == PlaceholderClose;
    assert s[6..8] == PlaceholderOpen && s[9..11] == PlaceholderClose;
    s
  }

  /** The matches of the sample, as the search defines them. */
  lemma SampleMatches(a: char, b: char)
    requires !IsSpace(a) && !IsSpace(b)
    ensures AllMatches(Sample(a, b), PlaceholderOpen, PlaceholderClose, 0, [Span(0, 2, 3, 5), Span(6, 8, 9, 11)])
  {
    var s := Sample(a, b);
    MatchAtShape(s, 0);
    MatchAtShape(s, 6);
    NoPlaceholderAt(s, 5);
    NoPlaceholderAt(s, 11);
    assert AllMatches(s, PlaceholderOpen, PlaceholderClose, 11, []);
    assert AllMatches(s, PlaceholderOpen, PlaceholderClose, 5, [Span(6, 8, 9, 11)]);
  }

  /** The placeholders of the sample. */
  lemma SamplePlaceholders(a: char, b: char)
    requires !IsSpace(a) && !IsSpace(b)
    ensures Placeholders(Sample(a, b)) == [Span(0, 2, 3, 5), Span(6, 8, 9, 11)]
  {
    SampleMatches(a, b);
    AllMatchesUnique(Sample(a, b), PlaceholderOpen, PlaceholderClose, 0,
                     [Span(0, 2, 3, 5), Span(6, 8, 9, 11)], Placeholders(Sample(a, b)));
  }

  /** Replacing the two placeholders of the sample by x and y. */
  lemma SampleReplace(a: char, b: char, x: string, y: string)
    ensures ReplaceEach(Sample(a, b), [Span(0, 2, 3, 5), Span(6, 8, 9, 11)], [x, y], 0) == x + "-" + y
  {
    var s := Sample(a, b);
    var ms := [Span(0, 2, 3, 5), Span(6, 8, 9, 11)];
    assert ms[1..] == [Span(6, 8, 9, 11)] && [x, y][1..] == [y];
    assert s[0..0] == "" && s[5..6] == "-" && s[11..] == "";
  }

  /** An argument whose placeholders are known, expanded as written. */
  lemma ExpandArgOver(arg: string, env: map<string, string>, ms: seq<Span>)
    requires Placeholders(arg) == ms && ms != []
    ensures ExpandArg(arg, env) == ReplaceEach(arg, ms, Constant(|ms|, Getenv(env, Name(arg, ms[|ms| - 1]))), 0)
  {
  }

  /** An argument whose placeholders are known, expanded as intended. */
  lemma ExpandArgIntendedOver(arg: string, env: map<string, string>, ms: seq<Span>)
    requires Placeholders(arg) == ms && ms != []
    ensures ExpandArgIntended(arg, env) == ReplaceEach(arg, ms, OwnValues(arg, ms, env), 0)
  {
  }

  lemma OwnValuesOfTwo(arg: string, m0: Span, m1: Span, env: map<string, string>)
    requires m0.bodyStart <= m0.bodyEnd <= |arg| && m1.bodyStart <= m1.bodyEnd <= |arg|
    ensures OwnValues(arg, [m0, m1], env) == [Getenv(env, Name(arg, m0)), Getenv(env, Name(arg, m1))]
  {
    assert OwnValues(arg, [m0, m1], env)[0] == Getenv(env, Name(arg, m0));
    assert OwnValues(arg, [m0, m1], env)[1] == Getenv(env, Name(arg, m1));
  }

  /** The names the two placeholders of the sample hold. */
  lemma SampleNames(a: char, b: char)
    ensures Name(Sample(a, b), Span(0, 2, 3, 5)) == [a] && Name(Sample(a, b), Span(6, 8, 9, 11)) == [b]
  {
    var s := Sample(a, b);
    assert s[2..3] == [s[2]] && s[8..9] == [s[8]];
  }

  /**
   * The loop as written gives every placeholder the last one's value: with
   * a=1 and b=2, "{{a}}-{{b}}" becomes "2-2" (for instance "{{A}}-{{B}}").
   */
  lemma LastValueEverywhere(a: char, b: char)
    requires !IsSpace(a) && !IsSpace(b) && a != b
    ensures ExpandArg(Sample(a, b), map[[a] := "1", [b] := "2"]) == "2-2"
  {
    var s := Sample(a, b);
    var env := map[[a] := "1", [b] := "2"];
    var ms := [Span(0, 2, 3, 5), Span(6, 8, 9, 11)];
    SamplePlaceholders(a, b);
    ExpandArgOver(s, env, ms);
    SampleNames(a, b);
    assert Getenv(env, [b]) == "2";
    assert Constant(2, "2") == ["2", "2"];
    SampleReplace(a, b, "2", "2");
  }

  /** The corrected expansion of the same argument is "1-2". */
  lemma EachOwnValue(a: char, b: char)
    requires !IsSpace(a) && !IsSpace(b) && a != b
    ensures ExpandArgIntended(Sample(a, b), map[[a] := "1", [b] := "2"]) == "1-2"
  {
    var s := Sample(a, b);
    var env := map[[a] := "1", [b] := "2"];
    SamplePlaceholders(a, b);
    ExpandArgIntendedOver(s, env, [Span(0, 2, 3, 5), Span(6, 8, 9, 11)]);
    SampleNames(a, b);
    assert [a] != [b];
    assert Getenv(env, [a]) == "1" && Getenv(env, [b]) == "2";
    OwnValuesOfTwo(s, Span(0, 2, 3, 5), Span(6, 8, 9, 11), env);
    SampleReplace(a, b, "1", "2");
  }
}
