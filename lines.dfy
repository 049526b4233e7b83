/**
 * Line splitting as bufio.Scanner with its default split function does it
 * (envrun.go:95-97 and envrun.go:145-149): a line ends at '\n', one trailing
 * '\r' is dropped, and at the end of the stream a non-empty unterminated
 * rest is one more line. LineBuffer is the incremental form: it is fed the
 * chunks the reads deliver and hands out each line as soon as it is complete.
 */
module Lines {
  import opened Text

  /** One trailing carriage return is not part of the line. */
  function DropCR(piece: string): (line: string) {
    if |piece| > 0 && piece[|piece| - 1] == '\r' then piece[..|piece| - 1] else piece
  }

  /** The position of the first newline of s from i on, or |s|. */
  function NewlineFrom(s: string, i: nat): (j: nat)
    requires i <= |s|
    ensures i <= j <= |s|
    decreases |s| - i
  {
    if i == |s| || s[i] == '\n' then i else NewlineFrom(s, i + 1)
  }

  /** What NewlineFrom finds: no newline before j, and a newline at j unless j is the end. */
  lemma {:induction false} NewlineFromFound(s: string, i: nat)
    requires i <= |s|
    ensures var j := NewlineFrom(s, i); NoNewlineIn(s, i, j) && (j < |s| ==> s[j] == '\n')
    decreases |s| - i
  {
    if i < |s| && s[i] != '\n' {
      NewlineFromFound(s, i + 1);
    }
  }

  /** Only the first newline fits that description. */
  lemma {:induction false} NewlineFromUnique(s: string, i: nat, j: nat)
    requires i <= j <= |s| && NoNewlineIn(s, i, j) && (j < |s| ==> s[j] == '\n')
    ensures NewlineFrom(s, i) == j
    decreases j - i
  {
    if i < j {
      NewlineFromUnique(s, i + 1, j);
    }
  }

  /** The lines of s[i..] that a newline terminates. */
  function LinesFrom(s: string, i: nat): (lines: seq<string>)
    requires i <= |s|
    decreases |s| - i
  {
    var j := NewlineFrom(s, i);
    if j == |s| then [] else [DropCR(s[i..j])] + LinesFrom(s, j + 1)
  }

  /** What follows the last newline of s[i..]. */
  function PendingFrom(s: string, i: nat): (rest: string)
    requires i <= |s|
    decreases |s| - i
  {
    var j := NewlineFrom(s, i);
    if j == |s| then s[i..] else PendingFrom(s, j + 1)
  }

  /** The lines of s that a newline terminates. */
  function CompleteLines(s: string): (lines: seq<string>) {
    LinesFrom(s, 0)
  }

  /** What follows the last newline of s: the line still being accumulated. */
  function Pending(s: string): (rest: string) {
    PendingFrom(s, 0)
  }

  /** Every line the scanner yields from a stream whose whole content is s. */
  function ScanLines(s: string): (lines: seq<string>)
    ensures forall k :: 0 <= k < |lines| ==> NoNewline(lines[k])
    ensures lines == [] <==> s == []
  {
    LinesFromNoNewline(s, 0);
    ScanLinesEmpty(s);
    CompleteLines(s) + (if Pending(s) == [] then [] else [DropCR(Pending(s))])
  }

  /** No line the scanner cuts from s[i..] holds a newline, and neither does the rest. */
  lemma {:induction false} LinesFromNoNewline(s: string, i: nat)
    requires i <= |s|
    ensures forall k :: 0 <= k < |LinesFrom(s, i)| ==> NoNewline(LinesFrom(s, i)[k])
    ensures NoNewline(PendingFrom(s, i))
    decreases |s| - i
  {
    var j := NewlineFrom(s, i);
    NewlineFromFound(s, i);
    PieceNoNewline(s, i, j);
    if j < |s| {
      LinesFromNoNewline(s, j + 1);
    }
  }

  /** A piece of s without newline, as a line of its own. */
  lemma PieceNoNewline(s: string, i: nat, j: nat)
    requires i <= j <= |s| && NoNewlineIn(s, i, j)
    ensures NoNewline(s[i..j]) && NoNewline(DropCR(s[i..j]))
    ensures j == |s| ==> NoNewline(s[i..])
  {
    var piece := s[i..j];
    assert forall k :: 0 <= k < |piece| ==> piece[k] == s[i + k];
    var line := DropCR(piece);
    assert forall k :: 0 <= k < |line| ==> line[k] == piece[k];
    assert j == |s| ==> s[i..] == piece;
  }

  /** The scanner yields no line exactly when the stream is empty. */
  lemma ScanLinesEmpty(s: string)
    ensures CompleteLines(s) + (if Pending(s) == [] then [] else [DropCR(Pending(s))]) == [] <==> s == []
  {
    var j := NewlineFrom(s, 0);
    if j == |s| {
      assert Pending(s) == s[0..] == s;
    }
  }

  /** Lines written one after another, each followed by a newline. */
  function JoinLines(lines: seq<string>): (text: string)
    decreases |lines|
  {
    if lines == [] then [] else lines[0] + "\n" + JoinLines(lines[1..])
  }

  lemma JoinLinesSnoc(lines: seq<string>, line: string)
    ensures JoinLines(lines + [line]) == JoinLines(lines) + line + "\n"
    decreases |lines|
  {
    if lines != [] {
      assert (lines + [line])[1..] == lines[1..] + [line];
      JoinLinesSnoc(lines[1..], line);
    }
  }

  /** A line the scanner can give back as it is: no newline, and no carriage return at its end. */
  predicate Scannable(line: string) {
    NoNewline(line) && (|line| > 0 ==> line[|line| - 1] != '\r')
  }

  /** Unfolding at a newline known to be the first one from i. */
  lemma LineAt(s: string, i: nat, j: nat, next: nat)
    requires i <= j < |s| && NoNewlineIn(s, i, j) && s[j] == '\n' && next == j + 1
    ensures LinesFrom(s, i) == [DropCR(s[i..j])] + LinesFrom(s, next)
    ensures PendingFrom(s, i) == PendingFrom(s, next)
  {
    NewlineFromUnique(s, i, j);
  }

  /** No newline from i on: no complete line, and all of s[i..] is pending. */
  lemma NoLineFrom(s: string, i: nat)
    requires i <= |s| && NoNewlineIn(s, i, |s|)
    ensures LinesFrom(s, i) == [] && PendingFrom(s, i) == s[i..]
  {
    NewlineFromUnique(s, i, |s|);
  }

  lemma NoNewlineAllPending(s: string)
    requires NoNewline(s)
    ensures CompleteLines(s) == [] && Pending(s) == s
  {
    NoLineFrom(s, 0);
  }

  /** The shift across one line, given the shift after it. */
  lemma ShiftLine(s: string, t: string, d: nat, k: nat, i: nat, j: nat, next: nat, snext: nat)
    requires d <= |s| && t == s[d..] && i == d + k && k <= j < |t| && NoNewlineIn(t, k, j) && t[j] == '\n'
    requires next == j + 1 && snext == d + next
    requires LinesFrom(s, snext) == LinesFrom(t, next) && PendingFrom(s, snext) == PendingFrom(t, next)
    ensures LinesFrom(s, i) == LinesFrom(t, k) && PendingFrom(s, i) == PendingFrom(t, k)
  {
    var sj := d + j;
    NoNewlineShift(s, d, k, j);
    SliceOfSuffix(s, d, k, j);
    assert s[sj] == t[j];
    var piece := t[k..j];
    assert s[i..sj] == piece;
    LineAt(s, i, sj, snext);
    LineAt(t, k, j, next);
  }

  /** The shift when no newline is left. */
  lemma ShiftRest(s: string, t: string, d: nat, k: nat, i: nat)
    requires d <= |s| && t == s[d..] && i == d + k && k <= |t| && NoNewlineIn(t, k, |t|)
    ensures LinesFrom(s, i) == LinesFrom(t, k) && PendingFrom(s, i) == PendingFrom(t, k)
  {
    NoNewlineShift(s, d, k, |t|);
    SliceOfSuffix(s, d, k, |t|);
    NoLineFrom(s, i);
    NoLineFrom(t, k);
    assert t[k..] == t[k..|t|] && s[i..] == s[i..|s|];
  }

  /** Scanning s from i = d + k is scanning s[d..] from k. */
  lemma {:induction false} LinesShift(s: string, d: nat, k: nat, i: nat)
    requires i == d + k && i <= |s|
    ensures LinesFrom(s, i) == LinesFrom(s[d..], k)
    ensures PendingFrom(s, i) == PendingFrom(s[d..], k)
    decreases |s| - i
  {
    var t := s[d..];
    var j := NewlineFrom(t, k);
    NewlineFromFound(t, k);
    if j < |t| {
      var next := j + 1;
      var snext := d + next;
      LinesShift(s, d, next, snext);
      ShiftLine(s, t, d, k, i, j, next, snext);
    } else {
      ShiftRest(s, t, d, k, i);
    }
  }

  lemma AppendAssoc(x: seq<string>, y: seq<string>, z: seq<string>)
    ensures x + (y + z) == (x + y) + z
  {
  }

  /** Splitting inverts joining: lines written with a newline after each are read back unchanged. */
  lemma {:induction false} ScanJoinedLines(lines: seq<string>)
    requires forall k :: 0 <= k < |lines| ==> Scannable(lines[k])
    ensures ScanLines(JoinLines(lines)) == lines
    ensures Pending(JoinLines(lines)) == []
    decreases |lines|
  {
    var s := JoinLines(lines);
    if lines == [] {
      NoLineFrom(s, 0);
    } else {
      var l := lines[0];
      assert s == l + "\n" + JoinLines(lines[1..]);
      assert NoNewlineIn(s, 0, |l|);
      var next := |l| + 1;
      LineAt(s, 0, |l|, next);
      assert s[0..|l|] == l;
      assert s[next..] == JoinLines(lines[1..]);
      LinesShift(s, next, 0, next);
      ScanJoinedLines(lines[1..]);
      assert DropCR(l) == l;
    }
  }

  /**
   * Lines of a + b from i on, where i is within a: those that end inside a,
   * then those of the rest of a's unfinished line followed by b.
   */
  lemma {:induction false} LinesFromAppend(a: string, b: string, i: nat)
    requires i <= |a|
    ensures LinesFrom(a + b, i) == LinesFrom(a, i) + CompleteLines(PendingFrom(a, i) + b)
    ensures PendingFrom(a + b, i) == Pending(PendingFrom(a, i) + b)
    decreases |a| - i
  {
    var j := NewlineFrom(a, i);
    NewlineFromFound(a, i);
    if j < |a| {
      var next := j + 1;
      LinesFromAppend(a, b, next);
      AppendLine(a, b, i, j, next);
    } else {
      AppendRest(a, b, i);
    }
  }

  /** LinesFromAppend across a line that ends inside a, given it after that line. */
  lemma AppendLine(a: string, b: string, i: nat, j: nat, next: nat)
    requires i <= j < |a| && NoNewlineIn(a, i, j) && a[j] == '\n' && next == j + 1
    requires LinesFrom(a + b, next) == LinesFrom(a, next) + CompleteLines(PendingFrom(a, next) + b)
    requires PendingFrom(a + b, next) == Pending(PendingFrom(a, next) + b)
    ensures LinesFrom(a + b, i) == LinesFrom(a, i) + CompleteLines(PendingFrom(a, i) + b)
    ensures PendingFrom(a + b, i) == Pending(PendingFrom(a, i) + b)
  {
    var ab := a + b;
    assert NoNewlineIn(ab, i, j) && ab[j] == '\n';
    LineAt(ab, i, j, next);
    LineAt(a, i, j, next);
    assert ab[i..j] == a[i..j];
    AppendAssoc([DropCR(a[i..j])], LinesFrom(a, next), CompleteLines(PendingFrom(a, next) + b));
  }

  /** LinesFromAppend when no newline of a is left. */
  lemma AppendRest(a: string, b: string, i: nat)
    requires i <= |a| && NoNewlineIn(a, i, |a|)
    ensures LinesFrom(a + b, i) == LinesFrom(a, i) + CompleteLines(PendingFrom(a, i) + b)
    ensures PendingFrom(a + b, i) == Pending(PendingFrom(a, i) + b)
  {
    var ab := a + b;
    NoLineFrom(a, i);
    LinesShift(ab, i, 0, i);
    assert ab[i..] == a[i..] + b;
  }

  /**
   * Feeding the stream in two parts: the lines completed by the second part
   * are those of the first part's unfinished line followed by it.
   */
  lemma CompleteLinesAppend(a: string, b: string)
    ensures CompleteLines(a + b) == CompleteLines(a) + CompleteLines(Pending(a) + b)
    ensures Pending(a + b) == Pending(Pending(a) + b)
  {
    LinesFromAppend(a, b, 0);
  }

  /** The first newline of s from i on, as bytes.IndexByte finds it, or |s|. */
  method FindNewline(s: string, i: nat) returns (j: nat)
    requires i <= |s|
    ensures j == NewlineFrom(s, i) && NoNewlineIn(s, i, j) && (j < |s| ==> s[j] == '\n')
  {
    j := i;
    while j < |s| && s[j] != '\n'
      invariant i <= j <= |s| && NoNewlineIn(s, i, j) && NewlineFrom(s, i) == NewlineFrom(s, j)
      decreases |s| - j
    {
      j := j + 1;
    }
  }

  /** One pass over buffered data: the lines it completes and the unterminated rest. */
  method SplitComplete(data: string) returns (lines: seq<string>, rest: string)
    ensures lines == CompleteLines(data) && rest == Pending(data) && NoNewline(rest)
  {
    var start := 0;
    lines := [];
    var j := FindNewline(data, 0);
    while j < |data|
      invariant start <= j <= |data| && NoNewlineIn(data, start, j) && (j < |data| ==> data[j] == '\n')
      invariant CompleteLines(data) == lines + LinesFrom(data, start)
      invariant Pending(data) == PendingFrom(data, start)
      decreases |data| - start
    {
      var next := j + 1;
      LineAt(data, start, j, next);
      AppendAssoc(lines, [DropCR(data[start..j])], LinesFrom(data, next));
      lines := lines + [DropCR(data[start..j])];
      start := next;
      j := FindNewline(data, start);
    }
    NoLineFrom(data, start);
    rest := data[start..];
  }

  class LineBuffer {
    /** The bytes after the last newline seen so far. */
    var pending: string
    /** Everything fed so far, and every line handed out so far. */
    ghost var consumed: string
    ghost var emitted: seq<string>

    ghost predicate Valid()
      reads this
    {
      NoNewline(pending) && pending == Pending(consumed) && emitted == CompleteLines(consumed)
    }

    constructor ()
      ensures Valid() && consumed == [] && emitted == []
    {
      pending := [];
      consumed := [];
      emitted := [];
      new;
      NoNewlineAllPending([]);
    }

    /** Takes in one chunk as a read delivers it and returns the lines it completes. */
    method Feed(chunk: string) returns (lines: seq<string>)
      requires Valid()
      modifies this
      ensures Valid()
      ensures consumed == old(consumed) + chunk && emitted == old(emitted) + lines
    {
      var rest;
      lines, rest := SplitComplete(pending + chunk);
      CompleteLinesAppend(consumed, chunk);
      pending := rest;
      consumed := consumed + chunk;
      emitted := emitted + lines;
    }

    /** At the end of the stream: the unterminated rest, if any, is the last line. */
    method Finish() returns (last: seq<string>)
      requires Valid()
      ensures emitted + last == ScanLines(consumed)
    {
      last := if pending == [] then [] else [DropCR(pending)];
    }
  }
}
