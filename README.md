# envrun in Dafny

envrun wraps a command. It expands `{{name}}` placeholders in the command's
arguments, runs it, and watches everything the command prints for embedded
commands of the form `@@envrun[set name='N' value='V']` and
`@@envrun[reset name='N']`. These commands set or delete variables in a
small store. The store is read from a file before the run and, when the
command exits with status 0, written back after it, one `name = 'value'` line
per variable, sorted by name.

This project models the core of `envrun.go` and proves properties of the
model:

- **The regular expressions** (`text.dfy`, `lazy.dfy`, `delimited.dfy`,
  `store_format.dfy`, `commands.dfy`). The five patterns are matched by hand
  as RE2 matches them: leftmost-first, with the lazy groups as short as they
  can be. `\s` is tab, newline, form feed, carriage return or space, and `.`
  is anything but a newline.
  - Every pattern has the same shape: a greedy `\s*`, a lazy group, and a
    tail that is fixed once the group's end is known. The generic search
    `LazyMatch.Search` returns exactly the split of the input that RE2
    prefers: the latest start of the group, then its earliest end.
  - Each pattern's match is characterised by a predicate over positions (for
    example `StoreFormat.StoreLineForm`). The proofs show that the match
    exists exactly when some reading exists, and that it is the reading RE2
    prefers.
  - `FindAllStringSubmatch` is `Delimited.FindAll`. It is characterised by
    `Delimited.AllMatches`: each match is the one at its own start, no start
    between two matches is skipped, and no match follows the last. Only one
    sequence satisfies this.
- **Line splitting** (`lines.dfy`). `bufio.Scanner` with its default split
  function cuts the stream at each newline and drops one carriage return
  before it; a non-empty unterminated rest is a last line. The same scanner, fed
  through the class `Lines.LineBuffer` in chunks of any size, hands out
  exactly the lines of the whole stream.
- **The output stream** (`stream.dfy`). `processOutputStream` copies every byte
  to the sink and runs the tag loop for every line. The variables are a map
  held in a `VariableStore` object and updated in place.
- **The store file** (`store_format.dfy`, `store_file.dfy`, `order.dfy`).
  - Loading stops at the first line that does not parse and reports its line
    number, counting from 1; otherwise the last line that names a variable
    wins.
  - Saving sorts the names with an in-place insertion sort on an array and
    writes the `name = 'value'` lines.
  - The file is a `DatabaseFile` object whose state is missing (creatable
    or not), unreadable, or present with its text (writable or not). A
    failing `os.Open` at load, which `log.Fatalf` reports, becomes an error
    result; a failing `os.OpenFile` at save becomes a `false` return.
- **Argument expansion** (`expand.dfy`), as the loop at envrun.go:32-39 does
  it and as its authors evidently meant it. The environment is a parameter
  (`os.Getenv`), and an unset variable reads as "".

Some of the code's behaviour is easy to miss, and the model follows it:
- **Expansion.** Placeholders are filled from the environment only, never
  from the stored variables. An unset variable becomes "", and no placeholder
  is left in place or reported.
- **Loading.** A blank line in the store file does not match the store-line
  pattern, so it stops the load like any other bad line.
- **Saving.** A save does not truncate the file (see Findings).
- **Locking.** Nothing locks the store file or the shared map.

## Model

| member | source | states |
|---|---|---|
| LazyMatch.Search | envrun.go:16-20 | `\s*(.+?)` and a tail matched from a position: a split is returned exactly when one exists, and it has the latest group start and then the earliest group end of all splits |
| LazyMatch.Shortest | envrun.go:16-20 | the lazy group from a start: the least admissible end, if any is admissible |
| Text.SpanSpace | envrun.go:16-20 | a greedy `\s*` stops at the end of the longest run of spaces, before a non-space or at the end |
| Delimited.MatchAt | envrun.go:17-18 | the match of `open\s*(.+?)\s*close` starting at a position: present exactly when some reading exists there, and the one with the latest group start and then the earliest group end |
| Delimited.MatchTrimmed | envrun.go:17-18 | the group RE2 captures has no space at either edge unless it is one character long |
| Delimited.MatchStopsAtFirstCloser | envrun.go:17-18 | no closing delimiter starts inside the captured group |
| Delimited.FirstMatchFrom | envrun.go:152 | the leftmost match at or after a position; none is found exactly when no position starts one |
| Delimited.FindAll | envrun.go:152 | the matches FindAllStringSubmatch returns satisfy AllMatches: each is the match at its start, none is skipped between them, none follows the last |
| Delimited.AllMatchesUnique | envrun.go:152 | only one sequence satisfies AllMatches, so FindAll is the list of matches |
| Delimited.AllMatchesInOrder | envrun.go:152 | the matches lie inside the line, in increasing order, and do not overlap |
| Delimited.NoneFound | envrun.go:152 | FindAll is empty exactly when no position starts a match |
| StoreFormat.ParseStoreLine | envrun.go:98-103 | a line gives an entry exactly when it has a store-line reading, and the entry is the name and the quoted value of such a reading (MatchStoreLine says which one) |
| StoreFormat.FormatLine | envrun.go:133 | the `%s = '%s'` line: the name, then ` = '`, then the value, then a closing quote, and nothing else |
| StoreFormat.MatchStoreLine | envrun.go:16 | a store line matches exactly when it has a reading as leading spaces, name, spaces, `=`, spaces, quoted value and trailing spaces; the match has the longest leading run of spaces, then the shortest name |
| StoreFormat.FormatLineParses | envrun.go:133 | a line written as `name = 'value'` parses back to that name and value when the name is storable and the value has no newline |
| StoreFormat.NoSeparatorNoEntry | envrun.go:98-100 | a line without `=` is no store line, so loading stops at it |
| StoreFile.ReadDatabaseFile | envrun.go:81-112 | a missing file gives the empty map, an unopenable one an error, and a present one the result of the load loop over its lines |
| StoreFile.LoadFrom | envrun.go:96-105 | the load loop from a given line on: it succeeds exactly when every line parses, blank lines included; otherwise it fails with the 1-based number of the first line that does not parse |
| StoreFile.LoadText | envrun.go:95-105 | loading a file's text succeeds exactly when every line the scanner yields parses; a failure names a line of the file, counting from 1, that does not parse |
| StoreFile.LoadFromLastWins | envrun.go:102-104 | after a successful load a variable holds the value of the last line that names it |
| StoreFile.LoadTextMeaning | envrun.go:95-111 | loading a file's text gives the first bad line's number, or the names that occur with the value of their last line, and no other names |
| StringOrder.SortStrings | envrun.go:128 | sort.Strings on an array in place: afterwards the array is sorted and a permutation of what it held |
| StringOrder.SortedKeys | envrun.go:124-128 | the names of a map in strictly ascending order, each exactly once |
| StringOrder.AscendingUnique | envrun.go:128 | two strictly ascending sequences with the same elements are equal, so the order of the saved lines is determined |
| StoreFile.CollectNames | envrun.go:124-127 | collecting the keys of a map gives each name exactly once, in some order |
| StoreFile.SortedNames | envrun.go:124-128 | the collected and sorted names are exactly SortedKeys of the map, whatever order the map gave them in |
| StoreFile.RenderDatabase | envrun.go:130-136 | the text sent through the buffered writer is one `name = 'value'` line for each name in ascending order |
| StoreFile.Serialize | envrun.go:124-135 | the text a save writes reads back, line by line, as one `name = 'value'` line per variable in ascending order of name, when names and values can be stored |
| StoreFile.Overwrite | envrun.go:117 | an OS write at offset 0 without truncation keeps what lay beyond the new text's end |
| StoreFile.WriteDatabaseFile | envrun.go:114-137 | the save as written: it fails, leaving the file unchanged, exactly when `os.OpenFile` with `O_RDWR` and `O_CREATE` cannot open it (a missing file that cannot be created, an unreadable file, a read-only one); otherwise the file holds the new text followed by whatever lay beyond its end |
| StoreFile.WriteDatabaseFileTruncating | envrun.go:114-137 | the save as intended: it fails under the same conditions; otherwise the file holds exactly the new text |
| StoreFile.SerializeRoundTrip | envrun.go:96-134 | loading the text of a save gives back the saved map, when every name reads back from its own line and no value holds a newline |
| StoreFile.ShrinkingSaveCorruptsStore | envrun.go:117 | a one-variable store loads back, but once the variable is saved again with a shorter value (the old one held no `=`), the untruncated file fails to load at line 2; both values are ASCII |
| Lines.ScanLines | envrun.go:145-147 | the lines bufio.Scanner's default split yields from a whole stream: none holds a newline, and there are none exactly when the stream is empty |
| Lines.CompleteLinesAppend | envrun.go:145-147 | the lines of a + b are the lines of a, then the lines of a's unfinished rest followed by b; the unfinished rest carries over in the same way |
| Lines.ScanJoinedLines | envrun.go:95-97 | lines without newline and without a final carriage return, each written with a newline after it, are read back unchanged |
| Lines.SplitComplete | envrun.go:145-147 | one scan pass over buffered bytes: the complete lines and the unterminated rest, with no newline in the rest |
| Lines.LineBuffer.Feed | envrun.go:145-147 | taking in one chunk keeps the buffer an exact picture of the stream so far: the lines handed out are its complete lines, the pending bytes its unfinished line |
| Lines.LineBuffer.Finish | envrun.go:147 | at the end of the stream, the lines handed out plus the last ones are the scanner's lines of the whole stream |
| Commands.MatchSet | envrun.go:19 | a tag body matches the set pattern exactly when it reads as one, and the match has the shortest name |
| Commands.MatchReset | envrun.go:20 | a tag body matches the reset pattern exactly when it reads as one, and that reading is unique |
| Commands.SetTextParses | envrun.go:19 | `set name='N' value='V'` parses back to N and V for a non-empty N without quote or newline and a V without newline |
| Commands.ResetTextParses | envrun.go:20 | `reset name='N'` parses back to N for an N without newline |
| Commands.ParseCommand | envrun.go:157-170 | one tag body tried as set first and then as reset; ParseCommandForms states what it yields |
| Commands.ParseCommandForms | envrun.go:157-170 | a body is a set command exactly when it reads as one, with the name and value of the reading with the shortest name; otherwise it is a reset command exactly when it reads as one, with that reading's name; otherwise it is ignored |
| Commands.Tags | envrun.go:152 | the tags FindAllStringSubmatch finds in a line: they satisfy AllMatches, each with a non-empty body inside the line |
| Commands.ApplyCommand | envrun.go:155-170 | set writes the name with its value, reset deletes it, and no other name changes; a body that is neither changes nothing |
| Commands.ApplyCommands | envrun.go:153-171 | a line's commands applied in order; ApplyCommandsLastWins and ApplyCommandsAppend state what it yields |
| Commands.ApplyCommandsLastWins | envrun.go:153-171 | after a run of commands, each variable is as the last command naming it left it, or as it was if none names it |
| Commands.ApplyLine | envrun.go:152-171 | after the tag loop over one line, each variable is as the last of the line's commands naming it left it, or as it was if none names it |
| Commands.ApplyLines | envrun.go:147-172 | processing lines one after another is running all their commands in order, so each variable ends as the last command of any line naming it left it |
| Commands.ApplyLinesAppend | envrun.go:147-172 | processing lines in two runs is processing them all at once |
| Commands.LineWithoutTag | envrun.go:152-154 | a line without a tag changes no variable |
| Stream.Sink.Write | envrun.go:144 | the TeeReader hands each chunk on to the sink as it is read |
| Stream.RunCommand | envrun.go:155-170 | one tag body, tried as set and then as reset, changes the shared map as ApplyCommand says |
| Stream.ProcessLine | envrun.go:149-171 | the tag loop over one line leaves the map as the line's commands, applied in order, leave it |
| Stream.ProcessLines | envrun.go:147-172 | the lines of one scan step are processed in order |
| Stream.ScanChunk | envrun.go:144-147 | one read: its bytes reach the sink, and the lines it completes are processed |
| Stream.ScanChunks | envrun.go:144-147 | every read in turn: all bytes reach the sink, and the map is as the lines completed so far leave it |
| Stream.ProcessOutputStream | envrun.go:139-174 | every byte of the stream reaches the sink, and the map ends as the scanner's lines of the whole output leave it, however the output was cut into reads |
| Expand.Getenv | envrun.go:36 | os.Getenv: the variable's value when it is set, "" when it is not |
| Expand.Placeholders | envrun.go:33 | the placeholders FindAllStringSubmatch finds in an argument: they satisfy AllMatches, lie in order inside the argument, and each has a non-empty name |
| Expand.ExpandArg | envrun.go:33-38 | the argument after the loop as written, every placeholder replaced by the last placeholder's value; ExpandArgLastValue and LastValueEverywhere state what it yields |
| Expand.ExpandArgLastValue | envrun.go:34-38 | the expansion as written is the intended expansion in an environment where every variable a placeholder names holds the last placeholder's value |
| Expand.ExpandArgIntended | envrun.go:33-38 | each placeholder replaced by the value of its own variable; IntendedKeepsOwnText, AgreeWhenValuesEqual and EachOwnValue state what it yields |
| Expand.ExpandOne | envrun.go:33-38 | the inner loop for one argument: every placeholder is replaced by the value of the last placeholder's variable |
| Expand.ExpandAll | envrun.go:32-39 | every argument is expanded in this way and the list keeps its length |
| Expand.ExpandArgs | envrun.go:32-39 | os.Args afterwards: each argument is replaced by its expansion as written |
| Expand.ExpandOneIntended | envrun.go:33-38 | the corrected inner loop, walking the placeholders left to right and copying the text between them, yields exactly ExpandArgIntended |
| Expand.ExpandAllIntended | envrun.go:32-39 | the corrected outer loop: every argument gets its intended expansion and the list keeps its length |
| Expand.ExpandArgsIntended | envrun.go:32-39 | os.Args after the corrected loop: each argument is replaced by its intended expansion |
| Expand.NoPlaceholderUnchanged | envrun.go:33-38 | an argument without placeholders comes through both readings unchanged |
| Expand.AgreeWhenValuesEqual | envrun.go:34-38 | the loop as written and the corrected one agree when every placeholder's variable has the same value as the last one's |
| Expand.IntendedKeepsOwnText | envrun.go:37 | the corrected expansion replaces exactly the placeholders and nothing else: with every value equal to the placeholder text it replaces, the argument comes back unchanged |
| Expand.LastValueEverywhere | envrun.go:34-38 | as written, `{{a}}-{{b}}` with a=1 and b=2 expands to `2-2` |
| Expand.EachOwnValue | envrun.go:34-38 | corrected, the same argument expands to `1-2` |

## Left out

- Process plumbing (envrun.go:22-31 and envrun.go:40-79): the usage message,
  locating the store, spawning the child, waiting for it and its exit code.
  It sits outside the core and is all OS calls. In particular the store is
  saved only when the child exits with status 0: a non-zero exit status
  (envrun.go:70) or a failed wait (envrun.go:73) ends envrun before the save
  at envrun.go:78.
- Concurrency: the source runs one `processOutputStream` for stdout and one
  for stderr at the same time on the same map, without locking, and never
  waits for either goroutine before the save (envrun.go:62-63, 78). The model
  runs one stream to its end, so it does not capture how the two streams
  interleave, their data race on the map, or a save that misses updates
  from output still being processed.
- Stream.ProcessOutputStream: assumes every read succeeds and every line fits
  the scanner's buffer. In the source, `Scan` at envrun.go:147 stops for good
  on a line over the 64 KiB token limit or on a read error (such as the pipe
  closed by `cmd.Wait`); after that nothing more is read, copied to the sink
  or parsed.
- The OS calls themselves. Opening, reading and writing the store are
  modelled as the state of a `DatabaseFile`. `log.Fatalf` becomes an error
  result or a `false` return.
- StoreFile.Overwrite: counts the new text and the old content in
  characters (code points), whereas the OS write at envrun.go:117 counts
  UTF-8 bytes. The two agree only for ASCII text; with other characters the
  kept tail differs and can even start inside a character.
  StoreFile.WriteDatabaseFile inherits this, so
  StoreFile.ShrinkingSaveCorruptsStore requires ASCII values.
- StoreFile.ReadDatabaseFile: does not model the scanner's 64 KiB line limit
  or its read error (envrun.go:107-109), because the file's text is a given
  value.
- Expand.ExpandArg and Expand.ExpandArgIntended: a value is inserted
  literally. `ReplaceAllString` would also expand `$1`-style references
  inside the value.
- Expand.ExpandArgs and Expand.ExpandArgsIntended: work out the new arguments
  as values, then store them slot by slot. The source instead overwrites
  `args[i]` once per placeholder inside the inner loop. Only the final array
  is the same.
- Characters are Unicode code points: UTF-8 decoding and invalid byte
  sequences are not modelled (see StoreFile.Overwrite for where byte counts
  matter). For valid UTF-8, code-point order is Go's
  byte order.

## Findings

| source | as written | input that shows it | evidently intended | confidence | as-written member | corrected member |
|---|---|---|---|---|---|---|
| envrun.go:117 | the store is opened with `O_RDWR\|O_CREATE` and no `O_TRUNC`, so a shorter save leaves the end of the old content in the file | store `b = 'long'`, then `b` set to `x` and saved: the file becomes `b = 'x'` and `g'`, and the next load fails at line 2 | the file holds exactly the new text, which loads back as the saved variables | not executed | StoreFile.WriteDatabaseFile, StoreFile.ShrinkingSaveCorruptsStore | StoreFile.WriteDatabaseFileTruncating, StoreFile.SerializeRoundTrip |
| envrun.go:34-38 | each pass runs `ReplaceAllString(arg, value)` over the original argument with the current placeholder's value, so every placeholder gets the last one's value | argument `{{A}}-{{B}}` with A=1 and B=2 expands to `2-2` | each placeholder is replaced by its own variable's value: `1-2` | not executed | Expand.ExpandArgs, Expand.LastValueEverywhere | Expand.ExpandArgsIntended, Expand.EachOwnValue |
