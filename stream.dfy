/**
 * processOutputStream (envrun.go:139-174): the child's output is copied to
 * the sink as it is read (the TeeReader) while a line scanner hands every
 * line to the tag loop, which updates the shared variables in place.
 */
module Stream {
  import opened Text
  import opened Lines
  import opened Commands

  /** Where the child's output goes on: os.Stdout or os.Stderr. */
  class Sink {
    var written: string

    constructor ()
      ensures written == []
    {
      written := [];
    }

    method Write(chunk: string)
      modifies this
      ensures written == old(written) + chunk
    {
      written := written + chunk;
    }
  }

  /** The variables map, which main shares with both stream readers by reference. */
  class VariableStore {
    var vars: map<string, string>

    constructor (vars: map<string, string>)
      ensures this.vars == vars
    {
      this.vars := vars;
    }
  }

  /** One tag body: tried as set first, then as reset; a body that is neither is ignored (envrun.go:155-170). */
  method RunCommand(body: string, store: VariableStore)
    modifies store
    ensures store.vars == ApplyCommand(old(store.vars), ParseCommand(body))
  {
    var setMatch := MatchSet(body);
    if setMatch.Some? {
      var m := setMatch.value;
      var name, value := body[m.j3 + 1..m.ne], body[m.q + 1..|body| - 1];
      assert ParseCommand(body) == Set(name, value);
      store.vars := store.vars[name := value];
      return;
    }
    var resetMatch := MatchReset(body);
    if resetMatch.Some? {
      var name := body[resetMatch.value.2 + 1..|body| - 1];
      assert ParseCommand(body) == Reset(name);
      store.vars := store.vars - {name};
    } else {
      assert ParseCommand(body) == Unrecognized;
    }
  }

  lemma ApplyCommandsStep(vars: map<string, string>, cmds: seq<Command>, i: nat)
    requires i < |cmds|
    ensures ApplyCommands(vars, cmds[i..]) == ApplyCommands(ApplyCommand(vars, cmds[i]), cmds[i + 1..])
  {
    assert cmds[i..][1..] == cmds[i + 1..];
  }

  /** The tag loop for one line (envrun.go:149-171). */
  method ProcessLine(line: string, store: VariableStore)
    modifies store
    ensures store.vars == ApplyLine(old(store.vars), line)
  {
    var tags := Tags(line);
    ghost var cmds := LineCommands(line);
    var i := 0;
    while i < |tags|
      invariant 0 <= i <= |tags|
      invariant ApplyCommands(store.vars, cmds[i..]) == ApplyLine(old(store.vars), line)
    {
      var body := line[tags[i].bodyStart..tags[i].bodyEnd];
      ApplyCommandsStep(store.vars, cmds, i);
      RunCommand(body, store);
      i := i + 1;
    }
  }

  /** The lines one scan step or the final flush delivers, processed in order. */
  method ProcessLines(lines: seq<string>, store: VariableStore)
    modifies store
    ensures store.vars == ApplyLines(old(store.vars), lines)
  {
    var j := 0;
    while j < |lines|
      invariant 0 <= j <= |lines|
      invariant ApplyLines(store.vars, lines[j..]) == ApplyLines(old(store.vars), lines)
    {
      assert lines[j..][1..] == lines[j + 1..];
      ProcessLine(lines[j], store);
      j := j + 1;
    }
  }

  /** One read: its bytes go to the sink, and the lines it completes are processed. */
  method ScanChunk(chunk: string, buffer: LineBuffer, sink: Sink, store: VariableStore, ghost start: map<string, string>)
    requires buffer.Valid() && store.vars == ApplyLines(start, buffer.emitted)
    modifies buffer, sink, store
    ensures buffer.Valid() && buffer.consumed == old(buffer.consumed) + chunk
    ensures sink.written == old(sink.written) + chunk
    ensures store.vars == ApplyLines(start, buffer.emitted)
  {
    sink.Write(chunk);
    ghost var before := buffer.emitted;
    var lines := buffer.Feed(chunk);
    ProcessLines(lines, store);
    ApplyLinesAppend(start, before, lines);
  }

  /** Every read in turn: the sink sees all bytes, the store all completed lines. */
  method ScanChunks(chunks: seq<string>, buffer: LineBuffer, sink: Sink, store: VariableStore, ghost start: map<string, string>)
    requires buffer.Valid() && store.vars == ApplyLines(start, buffer.emitted)
    modifies buffer, sink, store
    ensures buffer.Valid() && buffer.consumed == old(buffer.consumed) + Concat(chunks)
    ensures sink.written == old(sink.written) + Concat(chunks)
    ensures store.vars == ApplyLines(start, buffer.emitted)
  {
    ghost var consumed0 := buffer.consumed;
    ghost var written0 := sink.written;
    var r := 0;
    while r < |chunks|
      invariant 0 <= r <= |chunks|
      invariant buffer.Valid() && buffer.consumed == consumed0 + Concat(chunks[..r])
      invariant sink.written == written0 + Concat(chunks[..r])
      invariant store.vars == ApplyLines(start, buffer.emitted)
    {
      ghost var done := Concat(chunks[..r]);
      ConcatSnoc(chunks, r);
      ScanChunk(chunks[r], buffer, sink, store, start);
      StringAssoc(consumed0, done, chunks[r]);
      StringAssoc(written0, done, chunks[r]);
      r := r + 1;
    }
    assert chunks[..|chunks|] == chunks;
  }

  /**
   * The stream is delivered as a sequence of reads. Every byte reaches the
   * sink, and the variables end as the lines of the whole output leave
   * them, however the output was cut into reads.
   */
  method ProcessOutputStream(chunks: seq<string>, sink: Sink, store: VariableStore)
    modifies sink, store
    ensures sink.written == old(sink.written) + Concat(chunks)
    ensures store.vars == ApplyLines(old(store.vars), ScanLines(Concat(chunks)))
  {
    ghost var start := store.vars;
    var buffer := new LineBuffer();
    ScanChunks(chunks, buffer, sink, store, start);
    var last := buffer.Finish();
    ProcessLines(last, store);
    ApplyLinesAppend(start, buffer.emitted, last);
    assert buffer.consumed == Concat(chunks);
    ghost var all := ScanLines(Concat(chunks));
    assert buffer.emitted + last == all;
    assert store.vars == ApplyLines(start, all);
  }
}
