# OPAAL: models of the shared history, the editors, the formatter and the protocol clients

A Dafny model of the parts of OPAAL where state, concurrency or a textual format makes correctness hard to
see. Each module follows one component. Operations that the repository performs by updating state are
methods, proved equal to a specification function; the theorems are about these functions, over every
input, every run or every reachable state.

| module | component |
|---|---|
| `Utf8` | UTF-8 as the string types define it, shown to be a bijection with valid byte sequences |
| `HistoryCodec`, `History`, `HistoryProtocol` | the persistent history: its line format, the merge of one process, any number of processes sharing one file |
| `Frames` | Content-Length framing as the qualification clients send and receive it |
| `Snapshot` | the bounded directory traversal behind path completion |
| `Renderers`, `Words`, `Glob` | the spellings a completion inserts, how the lexer and parser read them in their place, and path patterns |
| `Format` | batch formatting with preflight, and the place a noncanonical source is reported at |
| `Highlight` | cutting tokens at the ends of diagnosed ranges |
| `RawEditor`, `Interactive` | the line editor without a terminal; the session loop and its driver |
| `CanonicalJson`, `Journal` | the canonical serialisation of dictionaries, and the hash-chained run journal |
| `Options`, `Cli` | the option grammar and the plan, execute and task-run parsers |
| `Lifecycle` | the JSON-RPC lifecycle coordinator of the language server |
| `Benchmarks` | nearest-rank percentiles, summaries and derived limits |

## Main results

- **History.** However many processes open, record, synchronise and clear in whatever order, the file holds
  the rendering of the last `capacity` entries of the adjacent-deduplicated log of everything committed
  since the last clear. The law behind it: trimming and deduplicating after every step is trimming and
  deduplicating once at the end. Nothing queued is lost or committed twice, and every local view is the
  shared history at the process's own last commit. History objects on one file follow these runs.
- **Framing.** `receive` is a function of the byte stream alone, so no way of cutting it into chunks can be
  observed. Frames that are sent come back. The two decoders agree on a stream exactly when no frame has
  another header field or a body over the bound. Successive calls deliver the responses of the stream in order.
- **Traversal.** The explicit stack returns values exactly when the tree is within both budgets, and then
  exactly the spellings of the recursive definition. It terminates on infinite trees.
- **Completions.** The renderers are inverted by the decoders of completion prefixes. As source text, at the
  head of a command, as its first or a later argument, behind an interpolation, as the target of a
  redirection, as a string of an expression, as the argument of `glob` and in an import, the inserted text
  denotes the path under an exact condition on path, style and place. The match table of a pattern decides
  its declarative meaning, and a path used as a pattern selects exactly itself if and only if it has no
  special character.
- **Formatter.** A write is committed as a prefix of the noncanonical operands, a check changes nothing, and
  a check after a full write is clean.
- **Highlighting.** Segments are nonempty, homogeneous and concatenate to the source.
- **Editors.** Raw submissions partition the input; a trace automaton gives the safety of the session loop.
- **Journal.** Canonical JSON gives every dictionary one line of its own, so the bytes of a journal determine
  every event. So does the last digest, except exactly where two runs meet in a collision of the digest.
- **Options.** The accepted lists, their modes, the irrelevance of order and the round trip are exact.
- **Lifecycle.** The exit status, the answers and the state are characterised on the messages alone.

## Where the code differs from its description

- A process whose view is stale refuses a record that the shared history would have kept: "repeated" is
  judged against the local view (`HistoryProtocol.RefusalIsHarmlessExactlyWhen`; a run that ends so is in
  `HistoryProtocol.StaleViewRefusesANewRecord`).
- The parser chooses between a command and an expression by the first tokens of a stage, and completion does
  not. A bare path that is the first argument behind a name makes an expression of the name when it starts
  with one of `: . == != + - * / % .. ..=` (a long option excepted) and an assignment when it starts with an
  assignment operator, so `./out` and `/tmp/` are misread there although they are read as later arguments.
  Directly behind a lone name `<` and `>` compare, so nothing completed behind them is a target. A path that
  starts with an equals sign merges with a `<` or `>` it touches. At the head of a command, quoted forms are
  strings and names followed by an operator are expressions (`Words.RenderedPathDenotesThePathExactlyWhen`,
  witnesses `Words.DottedFirstArgumentIsMisread`, `Words.ComparedPathIsMisread` and
  `Words.EqualsTargetIsMisread`).
- A bare path with three dots in a row is no word anywhere: the lexer takes them for a spread. Completed into
  an import, where only one single-quoted token is read, a path is misread when it holds a quote or a control
  character, and so is every form that is not single-quoted; a bare form is no literal as the argument of
  `glob`, nor a single-quoted form with a quote (the same lemma, witnesses `Words.SpreadPathIsMisread` and
  `Words.QuotedImportIsMisread`).
- The double-quote renderer leaves braces alone although the lexer reads them as interpolation; the
  spelling denotes the path exactly when there is no brace (`Renderers.LexerInvertsDoublePathExactlyWhen`,
  witness `Renderers.BracePathIsMisread`).
- A path completed into the argument of `glob` is used as a pattern as it stands. It selects itself and
  nothing else exactly when no component has one of `*`, `?`, `[` and the backslash; `[b]` misses its own
  file (`Glob.PathSelectsExactlyItselfExactlyWhen`, `Glob.SelectsItselfExactlyWhen`, witness
  `Glob.BracketNameMissesItself`). With a star and a bracket or backslash a name may select itself
  (`Glob.StarredBackslashSelectsItself`) or miss itself (`Glob.StarredBracketMissesItself`).
- The receiving client refuses bodies over 8 MiB that a sender may send, and any additional header, which
  the whole-output decoder accepts (`Frames.DecodersAgreeExactlyWhen`, `Frames.StrictBodiesInvertsFrameAll`,
  witness `Frames.ExtraHeaderSeparatesTheDecoders`).
- A message whose identity is neither string, number nor null is answered under that same identity, against
  section 5 of JSON-RPC 2.0 (`Lifecycle.AnswerHasAValidIdExactlyWhen`, witness `Lifecycle.InvalidIdIsEchoed`).

## Assumptions

- The lexer tiles its source with nonempty tokens (`fuzz/fuzz_targets/lexer.rs:11-19`); the parser is an
  arbitrary deterministic classifier; the formatter is a function of the text, and idempotent where a
  theorem names `Idempotent`.
- The file lock makes every history operation one atomic step, and a history operation that fails does so
  before the file is rewound or truncated.
- Replacing a file either succeeds entirely or leaves it alone.
- Nothing is assumed of SHA-256: the journal's results hold for every function in its place, and name the
  collision that an exception needs. That a serialisation is injective and free of newlines is part of the
  type `Journal.Sealing`; canonical JSON is proved to be one (`Journal.JsonSealing`).
- The editor, the evaluator and the streams of an interactive session are an arbitrary strategy: a function
  from everything that has happened so far to the next answer.
- Hosts, clocks and cancellation are parameters.

## Model

| member | source | states |
|---|---|---|
| Utf8.DecodeInvertsEncode | crates/opaal-cli/src/format.rs:186-195 | decoding inverts encoding for every string |
| Utf8.EncodeInvertsDecode | crates/opaal-cli/src/format.rs:186-195 | only the encoding of a string decodes to it, so comparing bytes is comparing strings |
| HistoryCodec.EncodeEntry | crates/opaal-cli/src/history.rs:385-397 | the character loop computes the escaped entry |
| HistoryCodec.DecodeEntry | crates/opaal-cli/src/history.rs:399-427 | the character loop computes the entry or the first bad escape |
| HistoryCodec.DecodedInvertsEncoded | crates/opaal-cli/src/history.rs:385-427 | decoding inverts encoding for every string |
| HistoryCodec.EncodedIsOneLine | crates/opaal-cli/src/history.rs:385-397 | an encoding holds no line feed, carriage return or NUL |
| HistoryCodec.ReadEntries | crates/opaal-cli/src/history.rs:248-254 | reading a file line by line is `Parse`, with its first error |
| HistoryCodec.ParseInvertsRender | crates/opaal-cli/src/history.rs:248-277 | the bytes written for any entries are read back as these entries |
| HistoryCodec.RenderInjective | crates/opaal-cli/src/history.rs:270-277 | different histories have different files |
| History.DeduplicatedHasNoRepeats | crates/opaal-cli/src/history.rs:256-261 | the loop's result has no adjacent repeats and keeps the newest entry |
| History.DeduplicatedFixesNoRepeats | crates/opaal-cli/src/history.rs:256-261 | deduplication changes nothing that has no adjacent repeats |
| History.DeduplicatedAbsorbsPrefix | crates/opaal-cli/src/history.rs:255-261 | deduplicating a prefix first makes no difference |
| History.RetainedAbsorbsPrefix | crates/opaal-cli/src/history.rs:255-265 | trimming and deduplicating at every step equals doing both once at the end, for every capacity |
| History.AppendIsInvisibleExactlyWhenRepeated | crates/opaal-cli/src/history.rs:189-196 | a record leaves the retained log unchanged if and only if it repeats the newest entry or nothing is kept |
| History.HistoryFile.WriteAt | crates/opaal-cli/src/history.rs:267-274 | writing in place replaces exactly the written span and keeps the rest |
| History.HistoryFile.SetLength | crates/opaal-cli/src/history.rs:276-277 | truncation keeps exactly the prefix |
| History.Deduplicate | crates/opaal-cli/src/history.rs:256-261 | the loop computes the adjacent deduplication |
| History.EditorHistory.Open | crates/opaal-cli/src/history.rs:159-186 | opening synchronises an empty queue; on failure there is no object and the file is untouched |
| History.EditorHistory.Rewrite | crates/opaal-cli/src/history.rs:267-277 | overwriting in place and truncating leaves exactly the rendering, whatever the old length |
| History.EditorHistory.Sync | crates/opaal-cli/src/history.rs:241-283 | file, view and queue after a synchronisation, its failures included |
| History.EditorHistory.Record | crates/opaal-cli/src/history.rs:189-201 | refusal, commit, or failure that keeps the entry queued |
| History.EditorHistory.Clear | crates/opaal-cli/src/history.rs:229-239 | view and queue are emptied even when the file cannot be |
| HistoryProtocol.Simulate | crates/opaal-cli/src/history.rs:157-284 | history objects on one file, driven by any events, end in the world of the run: file bytes and every view, queue and capacity agree |
| HistoryProtocol.Perform | crates/opaal-cli/src/history.rs:157-284 | one event carried out by the objects is one transition of the shared system |
| HistoryProtocol.RunKeepsInvariant | crates/opaal-cli/src/history.rs:159-283 | every run keeps the file, view and accounting invariants |
| HistoryProtocol.FileIsTheRetainedLog | crates/opaal-cli/src/history.rs:241-283 | after any interleaving the bytes are the rendering of the retained committed log, or the initial bytes while nothing was committed |
| HistoryProtocol.CommitterSeesTheSharedHistory | crates/opaal-cli/src/history.rs:279-283 | after a commit the committer's view, the parsed file and the retained log are equal and its queue is empty |
| HistoryProtocol.QueuedEntriesAreConserved | crates/opaal-cli/src/history.rs:197-201 | what a process queued is what was committed or cleared, in order, followed by what is still queued |
| HistoryProtocol.LocalViewIsTheOwnLastCommit | crates/opaal-cli/src/history.rs:279-283 | every local view is exactly the shared history at the process's own last commit, or empty since its own clear or because it never committed |
| HistoryProtocol.RefusalIsHarmlessExactlyWhen | crates/opaal-cli/src/history.rs:189-196 | for every reachable process that refuses a nonempty record, its next synchronisation leaves the same file with and without it if and only if it writes nothing or the shared log with its own queue ends in the record |
| HistoryProtocol.StaleViewRefusesANewRecord | crates/opaal-cli/src/history.rs:189-196 | a run of two processes after which one refuses a record that its next synchronisation would have made visible |
| Frames.ValueInvertsDecimal | ci/qualify_source_formatting.py:854-871 | printing and parsing a Content-Length are inverse |
| Frames.FindSeparatorExtends | ci/qualify_source_formatting.py:868-868 | bytes that arrive later cannot move a found separator |
| Frames.NextFrameExtends | ci/qualify_source_formatting.py:867-877 | a frame decided on a prefix is decided the same on every longer buffer |
| Frames.NextFrameInvertsFrame | ci/qualify_source_formatting.py:850-877 | any framed body, whatever it contains, is the next frame if and only if it is within the bound |
| Frames.ReplyDecidedByBuffer | ci/qualify_source_formatting.py:867-884 | what is done with a complete buffer does not depend on what follows it |
| Frames.Client.Receive | ci/qualify_source_formatting.py:863-891 | for every cutting into chunks, result, remaining stream and seen identities are a function of the undecoded stream |
| Frames.Client.ReadChunk | ci/qualify_source_formatting.py:885-891 | reading moves bytes into the buffer and keeps the stream |
| Frames.DecodeWhole | ci/qualify_data_processing.py:148-158 | the loop computes the messages or the first error of framing or of reading a body |
| Frames.WholeMessagesAreLoadedBodies | ci/qualify_data_processing.py:150-158 | the messages exist if and only if the framing is sound and every body can be read, and are the bodies read one by one |
| Frames.DecodersAgreeExactlyWhen | ci/qualify_data_processing.py:150-158 | the strict frames decode if and only if the whole-output decoder succeeds and every frame has the one header and a body within the bound; the bodies are then the same |
| Frames.StrictBodiesInvertsFrameAll | ci/qualify_source_formatting.py:850-877 | framed bodies are all decoded if and only if each is at most 8 MiB, and then unchanged |
| Frames.WholeBodiesInvertsFrameAll | ci/qualify_data_processing.py:139-158 | the whole-output decoder returns every framed list unchanged |
| Frames.ReplyToFramedStream | ci/qualify_source_formatting.py:863-884 | a client skips notifications, takes the answer it asked for and leaves the rest of the stream |
| Frames.ReplyTakesTheNextResponse | ci/qualify_source_formatting.py:867-884 | on a sound stream a call settles with the first response, wherever it stands, and leaves the others |
| Frames.ConversationDeliversTheResponses | ci/qualify_source_formatting.py:867-898 | successive calls succeed if and only if they ask for the responses of the stream in order, each new, and then deliver these |
| Frames.StrictMessagesAreWholeMessages | ci/qualify_data_processing.py:150-158 | the messages of such a stream are those the whole-output decoder returns |
| Frames.ReceiveAll | ci/qualify_source_formatting.py:867-898 | a client asking one identity after the other, for every cutting into chunks, holds that conversation |
| Frames.JoinFrames | ci/qualify_source_formatting.py:850-855 | the joined data is the concatenation of the frames |
| Frames.Pipe.Send | ci/qualify_source_formatting.py:849-862 | delivery emits exactly the frames; a failure has emitted a proper prefix of them |
| Frames.Pipe.WriteAll | ci/qualify_source_formatting.py:855-862 | partial writes and would-block retries emit exactly the payload |
| Frames.ExtraHeaderSeparatesTheDecoders | ci/qualify_data_processing.py:150-153 | a stream on the side of that condition where the decoders differ |
| Snapshot.CwdPaths | crates/opaal-cli/src/completion.rs:332-394 | without cancellation the result is a value if and only if both budgets suffice, and then exactly the recursive set of spellings; it ends on every tree |
| Snapshot.ScanDirectory | crates/opaal-cli/src/completion.rs:353-390 | one directory contributes its entries, spellings and children, and exceeds exactly when the running count does |
| Snapshot.VisitTop | crates/opaal-cli/src/completion.rs:341-393 | popping and scanning the top directory keeps the traversal between two depths of the recursive definition |
| Snapshot.OrderIsIrrelevant | crates/opaal-cli/src/completion.rs:391-392 | counts and spellings do not depend on the order of the stack |
| Snapshot.VisitKeepsCounts | crates/opaal-cli/src/completion.rs:341-393 | a visit moves weight from the pending directories to the counters and loses none |
| Snapshot.VisitKeepsFound | crates/opaal-cli/src/completion.rs:341-393 | a visit moves spellings from the pending directories to the result and loses none |
| Snapshot.EmptyStackIsComplete | crates/opaal-cli/src/completion.rs:340-394 | when the stack is empty the tree is within the budgets and the set is the recursive one |
| Snapshot.ExceededBreaksLimits | crates/opaal-cli/src/completion.rs:345-362 | giving up implies that the tree is over a budget |
| Renderers.RenderBarePath | crates/opaal-cli/src/completion.rs:763-791 | the character loop computes the bare spelling |
| Renderers.UnescapePatternLiteral | crates/opaal-cli/src/completion.rs:681-694 | the character loop computes the unescaped literal |
| Renderers.ContainsUnescapedPattern | crates/opaal-cli/src/completion.rs:696-708 | the scan finds exactly an unescaped pattern character |
| Renderers.HasUnescapedPatternExactlyWhen | crates/opaal-cli/src/completion.rs:696-709 | the scan succeeds if and only if some pattern character has an even number of backslashes before it |
| Renderers.UnescapedInvertsBarePath | crates/opaal-cli/src/completion.rs:681-694 | unescaping inverts the bare renderer on every string |
| Renderers.DecodeBareInvertsBarePath | crates/opaal-syntax/src/completion.rs:336-347 | the decoder of bare prefixes inverts the bare renderer, so completing again starts from the path |
| Renderers.RenderDoublePath | crates/opaal-cli/src/completion.rs:793-810 | the character loop computes the double-quoted spelling |
| Renderers.DecoderInvertsDoublePath | crates/opaal-syntax/src/completion.rs:336-393 | the decoder of completion prefixes inverts the double-quote renderer on every string, hexadecimal escapes included |
| Renderers.LexerInvertsDoublePathExactlyWhen | crates/opaal-syntax/src/lexer.rs:236-270 | the lexer reads the value back if and only if it has no brace |
| Renderers.BracePathIsMisread | crates/opaal-cli/src/completion.rs:793-810 | a one-character path whose spelling is not a closed string |
| Renderers.DoublePathInjective | crates/opaal-cli/src/completion.rs:793-810 | different paths have different spellings |
| Renderers.DoublePathEndsAtItsQuote | crates/opaal-cli/src/completion.rs:793-810 | for every string the rendering holds no unescaped quote, and the first one after it is the closing one |
| Renderers.DoublePathHasNoControls | crates/opaal-cli/src/completion.rs:801-806 | no control character is inserted |
| Words.RenderedPathDenotesThePathExactlyWhen | crates/opaal-cli/src/completion.rs:738-761 | for every path, style and place, the text inserted there denotes the path if and only if: it does not stand behind a sign that compares; in double quotes, the path has no brace and the place is no head or import; in single quotes, no head, and no quote in a literal, nor control character or empty path in an import; bare, no three dots in a row, and the first characters are not taken for an expression, an assignment, a keyword or the rest of a redirection sign in this place |
| Words.NameArgumentShows | crates/opaal-syntax/src/parser.rs:2658-2732 | behind a name, the spelling of a path makes an expression of the stage exactly when the first characters of the path do, long options excepted |
| Words.BareAssignmentShows | crates/opaal-syntax/src/parser.rs:2630-2645 | behind a name, the spelling makes an assignment exactly when the first characters of the path do |
| Words.HeadShows | crates/opaal-syntax/src/parser.rs:2658-2745 | first in a stage, the spelling heads a command exactly when the path starts neither an expression nor an assignment, keyword or forced name |
| Words.DottedFirstArgumentIsMisread | crates/opaal-syntax/src/parser.rs:2708-2732 | `./o` is no argument behind a name, and is one later |
| Words.ComparedPathIsMisread | crates/opaal-syntax/src/parser.rs:2708-2732 | behind a lone name a redirection of output to `./o` is a comparison; appending, or redirecting behind an argument, is not |
| Words.EqualsTargetIsMisread | crates/opaal-syntax/src/lexer.rs:490-541 | `=x` touching `>` is not its target, and is one behind a blank |
| Words.BareWordIsReadExactlyWhen | crates/opaal-syntax/src/lexer.rs:487-541 | token by token, within a word, a bare spelling is read back as one word, except exactly a path with three dots in a row, which is none |
| Words.SinglePathIsRead | crates/opaal-syntax/src/lexer.rs:373-393 | as a word the single-quoted spelling is read back, quotes included |
| Words.FirstTokenOfSinglePath | crates/opaal-syntax/src/parser.rs:368-378 | the first single-quoted token, which alone an import reads, is the whole path if and only if that has no quote |
| Words.SpreadPathIsMisread | crates/opaal-syntax/src/parser.rs:1738-1750 | a path with three dots that is not one word |
| Words.QuotedImportIsMisread | crates/opaal-syntax/src/parser.rs:368-378 | an imported path with a quote that is not one token |
| Glob.NativeCharsAreLossless | crates/opaal-runtime/src/glob.rs:419-441 | the characters of a name, invalid bytes included, determine its bytes |
| Glob.ParseClass | crates/opaal-runtime/src/glob.rs:333-394 | the two loops compute the class, its width, or the first error |
| Glob.EscapedClassAcceptsItsMembers | crates/opaal-runtime/src/glob.rs:333-402 | a class of escaped members accepts exactly these, negated exactly the others |
| Glob.ParseComponent | crates/opaal-runtime/src/glob.rs:235-280 | the loop computes the atoms of the component with adjacent stars merged, or the first error |
| Glob.CollapseKeepsMeaning | crates/opaal-runtime/src/glob.rs:250-255 | merging adjacent stars changes no match |
| Glob.Advance | crates/opaal-runtime/src/glob.rs:290-314 | one row of the table follows cell by cell from the row before |
| Glob.MatchComponent | crates/opaal-runtime/src/glob.rs:282-317 | the table answers true if and only if the name can be cut into parts that the atoms accept, hidden names only behind a literal dot |
| Glob.EntryMeansSplit | crates/opaal-runtime/src/glob.rs:286-316 | a cell holds if and only if the first atoms match the first characters by some cut |
| Glob.SelectsItselfExactlyWhen | crates/opaal-runtime/src/glob.rs:233-318 | a name without a star selects itself as a pattern if and only if it has no bracket and no backslash; without these it always does |
| Glob.SelectsExactlyItselfExactlyWhen | crates/opaal-runtime/src/glob.rs:233-318 | as a pattern a file name selects that name and no other if and only if it has none of the four special characters |
| Glob.PathSelectsExactlyItselfExactlyWhen | crates/opaal-runtime/src/glob.rs:151-171 | as a pattern a path selects that path and no other if and only if no component has a special character |
| Glob.BracketNameMissesItself | crates/opaal-cli/src/completion.rs:657-666 | a bracketed name does not select its own file |
| Glob.StarredBackslashSelectsItself | crates/opaal-runtime/src/glob.rs:233-318 | with a star, a name with a backslash may select itself |
| Glob.StarredBracketMissesItself | crates/opaal-runtime/src/glob.rs:233-318 | with a star, a name with a bracket may miss itself |
| Glob.DoubleStarSkipsVisibleComponents | crates/opaal-runtime/src/glob.rs:151-171 | a double star stands for any number of components, none hidden |
| Format.FirstDifference | crates/opaal-cli/src/format.rs:301-307 | the offset is the UTF-8 length of the longest common scalar prefix |
| Format.CommonPrefixIsLongest | crates/opaal-cli/src/format.rs:301-307 | the prefix is common and the next scalars differ |
| Format.DifferenceSpanIsAScalar | crates/opaal-cli/src/format.rs:276-292 | the reported span is empty at the end or exactly one scalar, and never cuts one |
| Format.NoncanonicalFailure | crates/opaal-cli/src/format.rs:276-299 | the failure of a changed source carries its path and that span |
| Format.PreflightIsSound | crates/opaal-cli/src/format.rs:146-224 | prepared operands have pairwise distinct identities and hold the file's bytes and their canonical text |
| Format.Filesystem.PrepareSource | crates/opaal-cli/src/format.rs:161-224 | outcome and identity map of one operand in every error case |
| Format.Filesystem.RunPreflight | crates/opaal-cli/src/format.rs:146-153 | the preflight of all operands in order, changing nothing |
| Format.Filesystem.ReplaceAtomically | crates/opaal-cli/src/format.rs:76-85 | replacement happens entirely or not at all, and only over the expected bytes |
| Format.Filesystem.WritePreflight | crates/opaal-cli/src/format.rs:241-274 | any rejected operand prevents every write; otherwise operands are replaced until the first refusal |
| Format.Filesystem.FormatFiles | crates/opaal-cli/src/format.rs:146-159 | a check changes nothing and reports every objection in order; a write follows its preflight |
| Format.CheckPreflight | crates/opaal-cli/src/format.rs:226-239 | one failure for each rejected or noncanonical operand, in order, and the count of the noncanonical |
| Format.CommittedChangesExactlyTheOperands | crates/opaal-cli/src/format.rs:255-273 | replaced files hold canonical bytes and all others their originals |
| Format.WriteIsPrefixCommitted | crates/opaal-cli/src/format.rs:241-274 | the changed files are exactly the first `changedCount` noncanonical operands |
| Format.WriteThenCheckIsClean | crates/opaal-cli/src/format.rs:146-274 | after a full write, a check has no failure and a second write replaces nothing |
| Highlight.Boundaries | crates/opaal-cli/src/highlight.rs:88-97 | the sorted, deduplicated ends of the token and of the clipped overlapping ranges |
| Highlight.NeighboursAreHomogeneous | crates/opaal-cli/src/highlight.rs:88-100 | between neighbouring boundaries every range contains everything or nothing |
| Highlight.AppendTokenSegments | crates/opaal-cli/src/highlight.rs:82-115 | a token is appended as segments between its boundaries, the whole token and nothing else |
| Highlight.Highlight | crates/opaal-cli/src/highlight.rs:56-66 | the segments of a tiling token stream cover the source in order |
| Highlight.SegmentsConcatenateToTheSource | crates/opaal-cli/src/highlight.rs:56-66 | segments are nonempty and concatenate to the source |
| Highlight.InvalidExactlyWhen | crates/opaal-cli/src/highlight.rs:101-113 | a segment is invalid if and only if its token is or all of its bytes lie in diagnosed ranges; otherwise none does |
| Highlight.CutsAreGivenOffsets | crates/opaal-cli/src/highlight.rs:88-100 | segments end only where tokens or ranges do, so at character boundaries when these are |
| RawEditor.RawLineEditor.ReadLine | crates/opaal-cli/src/raw_editor.rs:46-80 | one call consumes the least whole lines that are not incomplete, or the rest at the end of input |
| RawEditor.RunSession | crates/opaal-cli/src/raw_editor.rs:46-80 | submissions partition the input; each restores to its raw lines, was incomplete at every earlier line end, and at most one follows the end of input |
| Interactive.RunsAreDetermined | crates/opaal-cli/src/interactive.rs:355-441 | two runs against the same environment agree as far as both go |
| Interactive.Session.RenderPendingNotices | crates/opaal-cli/src/interactive.rs:305-318 | notices are written and acknowledged one by one until none is left or an error ends the session; if acknowledging dequeues, the drain ends once the budget covers the queue and has shown exactly the queue, in order |
| Interactive.QueueDequeues | crates/opaal-cli/src/interactive.rs:207-230 | evaluators that dequeue exist |
| Interactive.Session.ReadWithEvents | crates/opaal-cli/src/interactive.rs:369-377 | a read takes any requests for external prints and any acknowledgements before it returns |
| Interactive.Session.AcknowledgeOnRequest | crates/opaal-cli/src/interactive.rs:333-352 | the editor's request reaches the evaluator only for the pending notice, and then nothing is pending |
| Interactive.Session.HandleSubmission | crates/opaal-cli/src/interactive.rs:380-419 | evaluation, flush, then exit request, diagnostic or next round |
| Interactive.Session.RunSession | crates/opaal-cli/src/interactive.rs:355-442 | the loop, external prints during reads included, only takes steps of the automaton and ends in the phase its outcome names |
| Interactive.Session.RunDriver | crates/opaal-cli/src/interactive.rs:449-468 | each host exit status is returned only in its own final phase, failure only after cleanup |
| Interactive.AcknowledgedAfterItsWrite | crates/opaal-cli/src/interactive.rs:309-315 | an acknowledgement directly follows the successful write of that notice, which directly follows its poll |
| Interactive.EvaluationIsFlushedFirst | crates/opaal-cli/src/interactive.rs:378-390 | every evaluation that kept its output is followed by a flush before anything else |
| Interactive.CleanupRunsExactlyOnce | crates/opaal-cli/src/interactive.rs:459-466 | cleanup has run once in a failed run that reached it and never in another |
| Interactive.NoUseAfterFailure | crates/opaal-cli/src/interactive.rs:459-466 | a stream whose write or flush failed is never used again |
| Interactive.NormalExitIsPermittedAndDrained | crates/opaal-cli/src/interactive.rs:392-426 | a normal exit follows a permission, with only draining after it and an empty notice queue at the end |
| Interactive.EvaluatorEditorEvents.NextExternalPrint | crates/opaal-cli/src/interactive.rs:326-331 | the notice handed out becomes the pending one; no notice leaves it alone |
| Interactive.EvaluatorEditorEvents.AcknowledgeExternalPrint | crates/opaal-cli/src/interactive.rs:333-352 | the pending notice is taken and acknowledged only under its own identity |
| Interactive.OnlyTheLastHandedOutIsAcknowledged | crates/opaal-cli/src/interactive.rs:325-352 | for any caller of the events object alone, an acknowledgement is of the notice handed out last, under its identity, with nothing in between, hence at most once |
| Interactive.ExternalPrintIsAcknowledgedOnce | crates/opaal-cli/src/interactive.rs:325-377 | in every session each acknowledgement of an external print directly follows the editor's request for its identity and is of the notice handed out last in the same read, with no other request between: at most once |
| Interactive.SessionFollowsTheObject | crates/opaal-cli/src/interactive.rs:325-377 | in every session what is pending at the prompt is what the events object holds after the calls of this read |
| Interactive.AcknowledgementIsTheObjectsResult | crates/opaal-cli/src/interactive.rs:333-352 | a recorded acknowledgement is the result of the object's last call in this read |
| CanonicalJson.SortedKeysAscend | ci/qualify_native_evidence.py:19-21 | every key is written once, in ascending order |
| CanonicalJson.TextIsUnambiguous | ci/qualify_native_evidence.py:19-21 | a value, nested to any depth, and the text behind it are read from their concatenation in one way only |
| CanonicalJson.CanonicalIsInjective | ci/qualify_native_evidence.py:19-21 | different dictionaries have different bytes |
| CanonicalJson.CanonicalIsOneLine | ci/qualify_native_evidence.py:37-37 | the bytes hold no line end, whatever the strings contain |
| Journal.JsonSealing | ci/qualify_native_evidence.py:19-27 | canonical JSON with any digest meets what the journal's results need |
| Journal.Reseal | ci/qualify_native_evidence.py:24-27 | the digest is recomputed over the other members, in place |
| Journal.DeepCopy | ci/qualify_native_evidence.py:33-33 | fresh equal dictionaries, shared exactly as the originals are |
| Journal.JournalBytes | ci/qualify_native_evidence.py:30-38 | the bytes of the sealed chain of the events; the caller's dictionaries keep their members even when shared |
| Journal.JournalIsAValidChain | ci/qualify_native_evidence.py:30-38 | numbers are contiguous, links and digests match, payloads are kept and resealing changes nothing |
| Journal.ValidExactlyWhenRebuiltUnchanged | ci/qualify_native_evidence.py:30-38 | a list of records is a valid chain if and only if rebuilding it changes nothing |
| Journal.LastDigestCommitsToTheRun | ci/qualify_native_evidence.py:30-38 | for every digest function, last digests are equal if and only if the events are, up to the rewritten members, or the runs meet in a collision: two different hashed byte strings with one digest, as the last records of both or at one place with the same events behind |
| Journal.ValidChainsWithOneEndAreEqual | ci/qualify_native_evidence.py:30-38 | valid chains, however produced, have the same last digest if and only if they are equal record for record or meet in such a collision |
| Journal.BytesCommitToTheRun | ci/qualify_native_evidence.py:30-38 | journals are equal bytes if and only if the events are, up to the rewritten members; the digest does not matter |
| Options.BindingRebuildsItsArgument | crates/opaal-cli/src/cli.rs:744-784 | an accepted binding has a nonempty name without an equals sign and rebuilds its argument |
| Options.ReadBindingInvertsBindingBytes | crates/opaal-cli/src/cli.rs:744-784 | every proper name with every value is read back |
| Options.ReadSecondsInvertsSecondsBytes | crates/opaal-cli/src/cli.rs:534-544 | every expiry from 1 to 900 seconds is read back |
| Options.ParseMeans | crates/opaal-cli/src/cli.rs:515-561 | a list of groups is accepted if and only if it repeats nothing, and then denotes its settings and its inputs in order |
| Options.AcceptedExactlyWhen | crates/opaal-cli/src/cli.rs:515-561 | the accepted lists are exactly the sequences of complete groups without a repeated option or input name |
| Options.ReorderingIsInvisible | crates/opaal-cli/src/cli.rs:515-561 | every reordering is accepted with the same options, and with the same inputs if and only if these keep their order |
| Options.PermutedChunksAreReordered | crates/opaal-cli/src/cli.rs:515-561 | permuting the groups word for word is such a reordering |
| Options.ParsedIsWellFormed | crates/opaal-cli/src/cli.rs:515-561 | accepted slots hold values of their kinds and distinct proper input names |
| Options.ParseInvertsPrintedSlots | crates/opaal-cli/src/cli.rs:515-561 | slots printed in any order of options are parsed back |
| Cli.SetPathOption | crates/opaal-cli/src/cli.rs:906-920 | duplicate, missing value, or the next argument |
| Cli.SetTextOption | crates/opaal-cli/src/cli.rs:922-933 | duplicate, missing value, invalid UTF-8, or the next argument's text |
| Cli.TextOptionValue | crates/opaal-cli/src/cli.rs:935-947 | missing value, invalid UTF-8, or the text |
| Cli.PushBinding | crates/opaal-cli/src/cli.rs:744-784 | every refusal of a binding, or the list with it at the end |
| Cli.PlanTurn | crates/opaal-cli/src/cli.rs:517-560 | one turn of the plan loop is one step of the table grammar, errors included |
| Cli.ParseProjectPlanArgs | crates/opaal-cli/src/cli.rs:508-573 | the hand-written parser is the table grammar followed by the required options |
| Cli.ExecutionTurn | crates/opaal-cli/src/cli.rs:611-640 | one turn of the execution loop is one step of the table grammar, errors included |
| Cli.ParseExecutionArgs | crates/opaal-cli/src/cli.rs:590-675 | the same for execute and task run, with their different required options |
| Cli.PlanReordering | crates/opaal-cli/src/cli.rs:508-573 | reordering an accepted plan command keeps its mode when inputs keep their order |
| Cli.ExecutionReordering | crates/opaal-cli/src/cli.rs:590-675 | reordering an accepted execute or task-run command keeps its mode |
| Cli.ParseInvertsPlanPrinted | crates/opaal-cli/src/cli.rs:508-573 | a plan mode printed as options in any order is parsed back |
| Cli.ParseInvertsExecutionPrinted | crates/opaal-cli/src/cli.rs:590-675 | an execution mode printed as options in any order is parsed back |
| Cli.PlanModesAreExactlyTheRepresentable | crates/opaal-cli/src/cli.rs:508-573 | the reachable modes are exactly help and those with a legal expiry and distinct proper input names |
| Cli.ExecutionModesAreExactlyTheRepresentable | crates/opaal-cli/src/cli.rs:590-675 | the reachable modes are exactly help and those with a receipt whenever truth is required |
| Lifecycle.Coordinator.Handle | crates/opaal-lsp/src/protocol.rs:107-116 | one message is one transition and one action |
| Lifecycle.Coordinator.HandleObject | crates/opaal-lsp/src/protocol.rs:118-155 | validation, exit, cancellation and dispatch in their order |
| Lifecycle.Coordinator.BeforeInitialize | crates/opaal-lsp/src/protocol.rs:157-180 | only a proper initialize request moves on |
| Lifecycle.Coordinator.WhileRunning | crates/opaal-lsp/src/protocol.rs:182-201 | only a shutdown request moves on |
| Lifecycle.AnswersFollowTheRequests | crates/opaal-lsp/src/protocol.rs:118-155 | answers correspond one to one and in order to requests and malformed messages, each under its identity; notifications get none |
| Lifecycle.AnswerHasAValidIdExactlyWhen | crates/opaal-lsp/src/protocol.rs:118-127 | an answer carries a legal identity unless, and only unless, the message carried an illegal one |
| Lifecycle.InvalidIdIsEchoed | crates/opaal-lsp/src/protocol.rs:118-127 | a message that is answered under an identity no client can have used |
| Lifecycle.Run | crates/opaal-lsp/src/protocol.rs:43-67 | the run ends at the first framing error or exit, writes exactly the answers before it, and fails on the first unwritable one |
| Lifecycle.StateMeansHistory | crates/opaal-lsp/src/protocol.rs:89-94 | the state says exactly whether an initialize, and after it a shutdown, has been seen |
| Lifecycle.SuccessExactlyAfterTheHandshake | crates/opaal-lsp/src/protocol.rs:135-145 | success if and only if the ending exit follows a shutdown that follows an initialize |
| Lifecycle.AcceptancesAreForwardMoves | crates/opaal-lsp/src/protocol.rs:157-201 | initialize and shutdown are accepted at most once each and the state never moves back |
| Benchmarks.SortedIsAscendingPermutation | ci/check_benchmarks.py:355-355 | ordering keeps every sample |
| Benchmarks.NearestRankIsThePercentileExactlyWhen | ci/check_benchmarks.py:354-357 | the result is the smallest sample with at least the percentage at or below it, if and only if the percentile is at most 100 |
| Benchmarks.SummaryIsOrdered | ci/check_benchmarks.py:360-366 | minimum, median, 95th percentile and maximum are ordered |
| Benchmarks.SummaryHasTheExtremes | ci/check_benchmarks.py:360-366 | the outer two are samples that bound all samples |
| Benchmarks.DerivedLimitIsTight | ci/check_benchmarks.py:211-219 | an integer is on the allowed side of the limit exactly when it is on that side of the scaled baseline |

## Left out

- A history write torn in the middle of the rewrite; history path selection, directory and permission checks, and the wrapper that feeds the editor library.
- Saturating and machine-width counters: entry and directory counts, sequence numbers and offsets are unbounded.
- Deadlines: `Frames.Client.Receive` and `Frames.Pipe.Send` time out when the schedule of chunks or write results ends, not by a clock.
- `read_frame` of the language server (`crates/opaal-lsp/src/transport.rs`): `Lifecycle.Run` starts from the bodies it delivers, and a failed write is a failed answer, not a partial one.
- Response texts and the list of server capabilities: answers carry their identity and their error code or kind.
- JSON numbers are integers: journal events hold no others, and the server only asks whether an identity is a number. Python's limit on the digits of an integer, and strings with lone surrogates, which cannot be encoded, are not modelled.
- Float rounding of the median of an even number of huge samples: `Benchmarks.Median` halves exactly and truncates.
- Rendered diagnostic text, and the classification of parse, decode and host errors beyond the distinction of their causes.
- Completion catalogs, external commands, generations, hints, and the `glob` expansion of the runtime; for patterns, the parsing of a whole path into components.
- Words.ReadAt: the inserted text is taken to be followed by a blank or the end, with no operator behind the blank when it is a lone name at the head (`Head` with `valued` stands for the places where a lone name is a value, the condition in front of a block among them), and a fragment to continue a string that its own quote began; the values that an interpolation could evaluate to and places other than those of `Words.Position` are not covered.
- The mapping from token kinds to highlight kinds: a token carries its kind.
- Read errors of the raw editor and prompts.
- The causes chain of the fatal report: `Interactive` records that the report is written and flushed, not its text.
- Interactive.Session.RunSession: an adversarial evaluator can keep a session alive for ever, so the run is cut after a given number of rounds; every prefix of every run is covered.
- RawEditor.RawLineEditor.ReadLine: the bytes of the input are taken to be valid UTF-8.
- `parse_check_args` and the dispatch on `--project` scan across values, so reordering is claimed of the option parsers only.
- Journal.JournalBytes: values nested in an event are values, so sharing between nested dictionaries is not modelled; sharing of whole events is.
