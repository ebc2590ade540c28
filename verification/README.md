# Verified model of the nebu-ctx client core

This project models the logic at the centre of the Rust client and proves what that logic is for.
Each module follows one source component. Code that updates state in place is a class or a method
with loops, proved equal to a specification function; the laws are then proved about those
functions, for every input, every reachable state and every run.

- **MCP stdio codec** (`LineFraming`, `HeaderFraming`, `HeaderLaws`, `HybridCodec`, `HybridRuns`,
  `HybridRoundTrips`): the incremental decoder over a growing buffer, with its scan cursor, discard
  flag and shared protocol latch. What a session delivers depends only on the bytes received, not
  on how they were cut or when the decoder was polled; encoder and decoder undo each other.
  Content-Length framing follows the "Header Part" of the Language Server Protocol base protocol.
- **Shell lexer, rewriter and quoting** (`CompoundLexer`, `LexerGrammar`, `LexerLaws`, `ShellRewrite`,
  `HookAnswers`, `RewriteLaws`, `RewriteOnce`, `WrappedCommands`, `PosixQuoting`, `CommandRegistry`,
  `JsonField`, `Base64`): the lexer reads a grammar of units and operators that covers every input, and
  loses nothing; the hook answers exactly the commands it should; rewriting commutes with lexing, and
  never applies twice, for exactly which paths of the client binary; quoting is undone by POSIX
  tokenising (sections 2.2 and 2.3 of the Shell Command Language), the JSON field scanner resolves
  escaped quotes and backslashes and no other escape of section 7 of RFC 8259, base64 decodes back
  (section 4 of RFC 4648).
- **Incremental call graph** (`CallGraphs`, `CallGraphLaws`): any run of rebuilds agrees with a
  build from scratch.
- **Session cache** (`SessionCaches`, `SessionCacheLaws`, `SessionCacheReports`, `EvictionRanking`,
  `ToolPaths`): a refinement of the last-write map that reports every read truly, with a token budget
  and Reciprocal Rank Fusion eviction.
- **Codebook** (`Codebooks`, `Cosine`, `SemanticDuplicates`): references expand back; the cosine
  score is bounded by the Cauchy-Schwarz inequality.
- **Bounded stores** (`BugMemory`, `SharedFacts`): what every run keeps, and exactly what is lost.
- **Text with fixed points** (`MarkedBlock`, `Identity`, `Runs`): marked blocks and identity tokens.

`Wrappers`, `Sequences`, `Decimals`, `StableSort`, `Text`, `WordSplitting`, `LineSplitting` and
`Utf8` model the standard-library operations the code relies on; `Utf8Laws` ties the last to the
characters of Unicode.

Where a promise does not hold on every input, the model keeps the code as it is; one lemma says for
exactly which inputs it holds, and another shows an input for which it does not:

- A frame whose header block ends in two bare newlines is read as that frame only if no CRLF blank
  line stands anywhere in the buffer: `HybridRoundTrips.BareNewlineFrameNeedsNoCrlfBlankLine`,
  `ABareNewlineFrameIsMissed`. Streams that hold none are covered by `HybridRuns.FrameSession`.
- At the end of a stream of frames a codec that is still undecided judges all that is left as one
  payload, after an ignored notification and when a frame is cut short:
  `HybridRuns.EofOfAnUndecidedFrame` says in which cases; a latched codec never does, by
  `EofTakesTheFrame`.
- The path of the client binary is never quoted. A wrapped command is read with that path as its first
  word only if the path is one word to the shell: `WrappedCommands.BinaryReadsBackExactlyWhen`,
  `ABinaryWithABlank`.
- For the same reason rewriting commutes with lexing on every input only if the lexer reads the path as
  plain text: `RewriteLaws.CommutesExactlyWhen`, `OneApostropheBreaksCommutation`,
  `AnApostropheInThePath`. And the hook leaves its own output alone on every command only if the path
  holds the mark of a here-document, or what the lexer cuts out of it is not rewritable and it ends
  outside every quote: `RewriteOnce.IdempotentExactlyWhen`, `ASemicolonInThePath`,
  `AnApostropheRewritesTwice`.
- A JSON field comes back as it was written only if there is no white space at its colon and no character
  of it was written as an escape code: `JsonField.FieldReadsBackExactlyWhen`,
  `StandardFieldReadsBackExactlyWhen`, `ABlankHidesTheCommand`, `ALineFeedStaysEscaped`. An earlier field
  of that name, in a nested object say, is taken in its place: `AnEarlierFieldIsTaken`.
- The enclosing symbol, and with it a built or rebuilt call graph, depends on hash-map order unless all
  preferred symbols share a name: `CallGraphLaws.NameIsOrderFreeExactlyWhen`,
  `BuildIsOrderFreeExactlyWhen`, `RebuildAgreesExactlyWhen`, `SharedRangeDependsOnOrder`.
- Path normalisation is not idempotent (`\c\d` becomes `/c/d`, then `C:/d`), so a cached key may lack
  a label: `ToolPaths.IdempotentExactlyWhen`, `SessionCacheLaws.NewKeyIsLabelledExactlyWhen`,
  `KeysAreAlwaysLabelledExactlyWhen`, `AKeyWithoutLabel`.
- A text line that is itself a codebook reference does not expand back:
  `Codebooks.ExpansionRestoresNormalFormsExactlyWhen`, `AReferenceDoesNotExpandBack`,
  `ThreeFilesAndAReference`.
- A failure memory loses occurrences beyond a hundred identities, or when a counter saturates:
  `BugMemory.NothingIsLostExactlyWhen`, `AHundredAndOneIdentities`.
- A second block update right after an installation may rewrite blank lines; after an end marker without
  a start marker every update appends another block: `MarkedBlock.InstallingIsStableExactlyWhen`,
  `BlankLinesAreNotStable`, `StrayEndAddsASecondBlock`, `StrayEndPilesUpBlocks`.
- A start marker without an end marker makes the second update delete all text after it:
  `MarkedBlock.StrayStartKeepsTextExactlyWhen`, `StrayStartSwallowsTheRest`.

Assumptions are parameters or stated preconditions: hash-map iteration orders are arbitrary
sequences listing the keys once; clocks are arguments; where a law says so, a digest tells apart the
contents that one run shows of one file or stores at one key; `f64` values are reals, with square root
and logarithm as constrained function parameters; strings are ASCII in the lexer, where the code casts
bytes to characters, and where trimming and length tests are not said to follow Unicode.

## Model

| member | source | states |
|---|---|---|
| LineFraming.LinesCutTheStream | client/src/mcp_stdio.rs:338-380 | every stream is its newline-free lines, each closed by a newline, followed by a newline-free tail |
| LineFraming.LinesOfUnlines | client/src/mcp_stdio.rs:338-380 | that decomposition is the only one, so the reference meaning of a stream is unambiguous |
| LineFraming.LineDecodeKeepsWhatIsOwed | client/src/mcp_stdio.rs:338-380 | one call neither loses nor invents an outcome, whatever bytes follow: over-long lines give one error, ignored notifications none |
| LineFraming.OneLineMeans | client/src/mcp_stdio.rs:338-380 | what one line means: the verdict on it without one carriage return, nothing for an ignored notification, one error when too long; text after the last newline means nothing unless too long |
| LineFraming.PendingMeansSettled | client/src/mcp_stdio.rs:338-380 | the decoder answers "nothing yet" exactly when no outcome is owed, and is then waiting for bytes |
| HybridCodec.BytesMut.SplitTo | client/src/mcp_stdio.rs:331 | the front of the buffer is taken off and returned, the rest stays |
| HybridCodec.SharedProtocol.SetIfUnset | client/src/mcp_stdio.rs:41-46 | the latch takes the first protocol it is given and ignores later ones |
| HeaderFraming.ParseContentLength | client/src/mcp_stdio.rs:298-315 | the loop over header lines returns the length on the first line naming it, trimmed of Unicode white space and compared without case, or one of the two errors of the source |
| HeaderLaws.LengthIsReadFromTheFirst | client/src/mcp_stdio.rs:298-315 | the length is the value of the first line that names it, in any case of letters and with any white space around name and value; lines of other names or without a colon are skipped |
| HeaderLaws.MissingLengthIsReported | client/src/mcp_stdio.rs:314 | without such a line the length is missing |
| HeaderLaws.ValuesAreNumbers | client/src/mcp_stdio.rs:308-311 | a decimal number of at most 64 bits, with or without a plus sign, is the length; any other value is reported as it stands |
| HeaderLaws.BadHeaderIsReported | client/src/mcp_stdio.rs:317-325 | a header that is no text, or names no length, no number or one too large, is that error, and nothing is taken off the buffer |
| HeaderLaws.LooksLikeAFrameExactlyWhen | client/src/mcp_stdio.rs:280-287 | a buffer is taken for a frame if and only if it begins with the name of the length, in any case of letters |
| HeaderFraming.FrameDecodeTakesExactlyOneFrame | client/src/mcp_stdio.rs:317-336 | on any part of a well-formed frame that stops short nothing is consumed; once complete, exactly that frame is taken and its payload judged |
| HeaderFraming.ParsePrintedDecimal | client/src/mcp_stdio.rs:311-312 | the decimal length the encoder prints is read back, and rejected exactly when it exceeds 64 bits |
| HeaderFraming.EncodedLengthIsRead | client/src/mcp_stdio.rs:298-315 | the header line the encoder writes announces exactly the payload length |
| HeaderFraming.EncodedFramesAreWellFramed | client/src/mcp_stdio.rs:424-441 | every encoded frame is well formed and begins the way the header test expects, whatever bytes its payload holds |
| HybridCodec.HybridJsonRpcMessageCodec.constructor | client/src/mcp_stdio.rs:141-149 | a new codec has an unlimited line length, its cursor at the start and nothing to discard |
| HybridCodec.HybridJsonRpcMessageCodec.DecodeContentLength | client/src/mcp_stdio.rs:317-336 | buffer, latch and answer are those of the frame specification |
| HybridCodec.HybridJsonRpcMessageCodec.DecodeJsonLine | client/src/mcp_stdio.rs:338-380 | the windowed scan resumed from its cursor equals one look at the whole buffer; the cursor stays inside the window with no newline before it; the loop ends |
| HybridCodec.HybridJsonRpcMessageCodec.ScanOnce | client/src/mcp_stdio.rs:343-379 | one turn of the loop answers, or leaves the same question about fewer bytes |
| HybridCodec.HybridJsonRpcMessageCodec.Decode | client/src/mcp_stdio.rs:387-399 | dispatch by latch or header test, as a step of the three-part decoder state |
| HybridCodec.HybridJsonRpcMessageCodec.DecodeEof | client/src/mcp_stdio.rs:401-417 | at the end of input an unterminated last line counts, a lone carriage return does not, and the codec stays valid |
| HybridCodec.HybridJsonRpcMessageCodec.Encode | client/src/mcp_stdio.rs:424-441 | writes in the latched protocol, Content-Length while undecided, and nothing when serialising fails |
| HybridCodec.WindowedSearch | client/src/mcp_stdio.rs:338-380 | a newline absent before the cursor and searched for from there has been searched for in the whole window |
| HybridCodec.ScanBranches | client/src/mcp_stdio.rs:344-378 | what each branch of the scanning loop does to the decoding still to come |
| HybridRuns.LatchIsPermanent | client/src/mcp_stdio.rs:41-46 | once the protocol is fixed it stays fixed for the rest of the session |
| HybridRuns.LineSession | client/src/mcp_stdio.rs:338-380 | over every session read as lines, delivered outcomes followed by those still owed are the outcomes of the whole stream |
| HybridRuns.ChunkInvariance | client/src/mcp_stdio.rs:338-399 | for every cutting and polling of a stream the delivered outcomes are a prefix of its one-shot meaning, and all of it exactly when the decoder answers "nothing yet" |
| HybridRuns.DrainingDeliversWhatIsOwed | client/src/mcp_stdio.rs:338-399 | in every state read as lines, as many polls as there are outcomes owed deliver exactly those, and the next answer is "nothing yet" |
| HybridRuns.DrainedSessionIsComplete | client/src/mcp_stdio.rs:338-399 | so however a stream was cut and polled, enough further polls deliver the whole of its meaning |
| HybridRuns.EndOfStreamClosesTheLastLine | client/src/mcp_stdio.rs:401-417 | for a latched or an undecided codec the end of the stream acts like a final newline unless the rest is empty or a lone carriage return |
| HybridRuns.EofTakesTheFrame | client/src/mcp_stdio.rs:401-403 | for a latched Content-Length codec the end of the stream takes a complete frame and delivers its verdict, and leaves a partial one alone |
| HybridRuns.EofTakesEveryFrame | client/src/mcp_stdio.rs:401-403 | as many calls at the end of the stream as there are complete frames deliver all their verdicts in order and leave only a partial frame |
| HybridRuns.EofOfAnUndecidedFrame | client/src/mcp_stdio.rs:401-417 | an undecided codec at the end of a stream that begins like a header: a complete frame is judged and latches; after an ignored one, and before a frame is complete, all that is left is judged as one payload |
| HybridRuns.ShortHeaderPrefixWaits | client/src/mcp_stdio.rs:280-287 | a header prefix shorter than fourteen bytes takes the line path, finds no line and changes nothing |
| HybridRuns.FrameSession | client/src/mcp_stdio.rs:317-399 | over every session on a stream of well-formed frames, closed by CRLF or by bare newlines with no CRLF blank line to come, the verdicts of the first frames are delivered in order and the rest of the stream is unread |
| HybridRuns.DrainingTakesEveryFrame | client/src/mcp_stdio.rs:317-399 | as many polls as there are complete frames in the buffer take them all, in order, ignored ones included |
| HybridRoundTrips.ContentLengthRoundTrip | client/src/mcp_stdio.rs:280-441 | any list of items encoded in frames and received in any chunking is returned in order, leaving the buffer empty, also when payloads look like headers |
| HybridRoundTrips.JsonLineRoundTrip | client/src/mcp_stdio.rs:338-441 | for a latched line reader any part of an encoded stream in any chunking delivers the first items in order; all of the whole stream exactly when the decoder answers "nothing yet", and then no byte is kept |
| HybridRoundTrips.DrainedRoundTrip | client/src/mcp_stdio.rs:280-441 | in either framing, once the whole encoded stream has arrived, as many further polls as there are items have delivered all of them in order and emptied the buffer |
| HybridRoundTrips.BareNewlineFrameNeedsNoCrlfBlankLine | client/src/mcp_stdio.rs:289-296 | a frame closed by two bare newlines is taken as that frame if and only if the buffer holds no CRLF blank line |
| HybridRoundTrips.ABareNewlineFrameIsMissed | client/src/mcp_stdio.rs:289-296 | a well-formed frame whose payload is a CRLF blank line is not taken |
| CompoundLexer.SplitCompound | client/src/compound_lexer.rs:17-138 | the index loop with its quote, escape and subshell skips cuts exactly where the character automaton first breaks |
| CompoundLexer.SkipQuote | client/src/compound_lexer.rs:37-78 | the single-quote and back-quote loops end outside the quote or at the end of the input, having copied every character |
| CompoundLexer.SkipDoubleQuote | client/src/compound_lexer.rs:49-66 | the double-quote loop does the same, taking escaped pairs together |
| CompoundLexer.SkipSubshell | client/src/compound_lexer.rs:79-92 | the parenthesis counter ends at the matching parenthesis or at the end of the input |
| CompoundLexer.PushCommand | client/src/compound_lexer.rs:140-145 | a blank command is dropped, any other is appended trimmed |
| CompoundLexer.BeforeOperatorIsOpen | client/src/compound_lexer.rs:17-138 | wherever the lexer cuts, an operator stands there, outside every quote, and a lone pipe is not half of a double one |
| CompoundLexer.OperatorAt | client/src/compound_lexer.rs:98-128 | and conversely an operator met outside every quote is where it cuts |
| LexerGrammar.SplitReadsTheGrammar | client/src/compound_lexer.rs:17-149 | every line of the grammar (letters, escapes, single, double and back-quoted text, substitutions, operators between commands, one construct left open at the end) is read as its segments; a line with the mark of a here-document is left whole |
| LexerGrammar.EveryInputIsALine | client/src/compound_lexer.rs:17-138 | every input is a line of the grammar, so this settles what the lexer does on all of them |
| LexerGrammar.QuotesHideOperators | client/src/compound_lexer.rs:37-92 | a command whose argument is quoted, back-quoted or substituted is one segment whatever the argument holds, and the text after the closing mark is cut at its operators |
| LexerLaws.LexingLosesNothing | client/src/compound_lexer.rs:17-138 | the segments are consecutive slices of the trimmed input separated by white space only |
| LexerLaws.PiecesAreWellLexed | client/src/compound_lexer.rs:17-138 | commands are trimmed and free of operators, closed when an operator follows; after the first pipe at most one command |
| LexerLaws.CommandsAreFixedPoints | client/src/compound_lexer.rs:17-149 | every command before a pipe lexes to itself, unterminated quotes and trimmed escaped blanks included |
| LexerLaws.PiecesOfTrim | client/src/compound_lexer.rs:18-21 | trimming the input changes no segment |
| ShellRewrite.RewriteCompound | client/src/compound_lexer.rs:155-198 | the joining loop yields the trimmed join of the segments rewritten before the first pipe, or nothing when none is |
| HookAnswers.AnswersExactlyWhen | client/src/hook_handlers.rs:128-148 | the hook answers if and only if the command holds no here-document, does not run through the client already, and is rewritable as a whole or in a part before its first pipe |
| HookAnswers.WholeCommandIsWrapped | client/src/hook_handlers.rs:144-146 | a command of which no part is to be rewritten is answered with the client's words, `-c` and the whole command as one argument |
| HookAnswers.PartsAreWrapped | client/src/hook_handlers.rs:140-142 | otherwise the answer lexes to as many segments: those to be rewritten read as the client's words, `-c` and the segment, all others are as they were |
| CommandRegistry.IsRewritableCommand | client/src/rewrite_registry.rs:130-142 | the loop over the registered commands |
| CommandRegistry.RewritableExactlyWhen | client/src/rewrite_registry.rs:130-142 | a command is rewritable if and only if its first word is registered |
| RewriteLaws.JoinedSegmentsLexBack | client/src/compound_lexer.rs:165-192 | joining well-lexed segments with blanks lexes back to the same segments |
| RewriteLaws.WrappedSplices | client/src/hook_handlers.rs:123-126 | with a path that is plain text to the lexer, a wrapped command is trimmed, closed and free of here-document marks, whatever quotes it holds |
| RewriteLaws.WrappedSplicesExactlyWhen | client/src/hook_handlers.rs:123-126 | and with no other path is that so for every command |
| RewriteLaws.RewritingCommutesWithLexing | client/src/hook_handlers.rs:150-161 | with a path that is plain text to the lexer, the rewritten line lexes to the input's segments with the rewritable commands before the first pipe wrapped and nothing else changed |
| RewriteLaws.CommutesExactlyWhen | client/src/hook_handlers.rs:150-161 | this holds on every input if and only if the path is plain text to the lexer: no blank first, no operator or open quote, no mark of a here-document |
| RewriteLaws.OneApostropheBreaksCommutation | client/src/hook_handlers.rs:123-161 | with any path that holds one apostrophe among ordinary characters it fails on `git && git` |
| RewriteLaws.AnApostropheInThePath | client/src/hook_handlers.rs:123-161 | such as a path in a home directory |
| RewriteOnce.RewrittenLineIsQuiet | client/src/hook_handlers.rs:123-161 | with a path that settles, no command of a rewritten line is one that would be rewritten |
| RewriteOnce.RewritingIsIdempotent | client/src/hook_handlers.rs:128-148 | the hook never rewrites its own output when the path settles or holds the mark of a here-document |
| RewriteOnce.IdempotentExactlyWhen | client/src/hook_handlers.rs:128-148 | among paths that are not empty and start with no blank, as `which` yields them, this is so on every command for exactly those (client/src/core/portable_binary.rs:8-14 and 25-32) |
| RewriteOnce.PlainPathsSettle | client/src/hook_handlers.rs:123-126 | a path that is plain text to the lexer settles |
| RewriteOnce.ASemicolonInThePath | client/src/hook_handlers.rs:128-148 | with the path `a;git` the hook rewrites its own output for `ls && git` |
| RewriteOnce.AnApostropheRewritesTwice | client/src/hook_handlers.rs:128-148 | with an apostrophe in the path it rewrites what another command quoted |
| WrappedCommands.WrappedCommandReadsBack | client/src/hook_handlers.rs:123-126 | for every binary path that closes its own quotes a POSIX shell reads a wrapped command as the path's words, `-c` and the original command |
| WrappedCommands.BinaryReadsBackExactlyWhen | client/src/hook_handlers.rs:123-126 | the shell reads a wrapped command as that very path, `-c` and the command if and only if the path is one word to the shell |
| WrappedCommands.ABinaryWithABlank | client/src/hook_handlers.rs:123-126 | a path with a blank is read as two words |
| WrappedCommands.SafeBinaryIsOneWord | client/src/hook_handlers.rs:123-126 | a path of safe characters is one word |
| CommandRegistry.RewritabilityIsSettledByTheFirstWord | client/src/rewrite_registry.rs:130-142 | what follows the first blank does not make a command rewritable |
| PosixQuoting.JoinedArgumentsReadBack | client/src/shell.rs:1309-1338 | POSIX tokenising of the joined arguments returns exactly those arguments, empty ones and any quotes included |
| PosixQuoting.QuotedOnlyWhenNeeded | client/src/shell.rs:1309-1338 | an argument is left as it is if and only if it is not empty and holds safe characters only |
| JsonField.ExtractJsonField | client/src/hook_handlers.rs:1039-1060 | the scan stops at the first unescaped quote and the result is a one-pass unescape |
| JsonField.TwoReplacementsAreOnePass | client/src/hook_handlers.rs:1059 | on scanned text the two global replacements in sequence equal one left-to-right pass |
| JsonField.FieldReadsBackExactlyWhen | client/src/hook_handlers.rs:1039-1060 | where the field stands out in the document, the scanner returns the string that was written, with any choice of escapes and control characters raw or escaped, if and only if there is no white space at the field's colon and no character was written as an escape code; white space there hides the field |
| JsonField.StandardFieldReadsBackExactlyWhen | client/src/hook_handlers.rs:1039-1060 | what a writer that escapes as it must has put there is read back if and only if there is no white space at the colon and the string holds no control character |
| JsonField.ALineFeedStaysEscaped | client/src/hook_handlers.rs:1059 | a document whose two-line command comes back on one line |
| JsonField.ABlankHidesTheCommand | client/src/hook_handlers.rs:1040-1041 | a document with a blank after the colon, in which no command is found |
| JsonField.AnEarlierFieldIsTaken | client/src/hook_handlers.rs:1040-1041 | documents whose nested object gives another command first |
| Base64.Base64Encode | client/src/shell.rs:320-353 | the loop with its table look-ups and padding computes the encoding |
| Base64.TableIsTheAlphabet | client/src/shell.rs:321 | the table is the alphabet of section 4 of RFC 4648, and symbols map back to their values |
| Base64.AlphabetRanges | client/src/shell.rs:320-353 | the alphabet is the capitals, the small letters, the digits and two signs, in this order |
| Base64.EncodingDecodes | client/src/shell.rs:320-353 | every byte sequence decodes back from its encoding, whose length is four symbols per started group of three bytes |
| Base64.EncodingUsesTheAlphabet | client/src/shell.rs:320-353 | only alphabet symbols, then the right number of padding signs |
| CallGraphs.FindEnclosingSymbol | client/src/core/call_graph.rs:180-204 | the scan returns the name of the first smallest symbol around the line, or the module scope |
| CallGraphs.SmallestIsSmallest | client/src/core/call_graph.rs:180-204 | that symbol contains the line and none containing it is smaller; there is none exactly when no symbol contains the line |
| CallGraphs.GroupSymbolsByFile | client/src/core/call_graph.rs:169-178 | exactly the files with symbols are grouped, each with its own symbols stably sorted by start line |
| CallGraphs.CallGraph.PushEdges | client/src/core/call_graph.rs:48-65 | the edges of one file are appended in call order, each with its enclosing symbol |
| CallGraphs.CallGraph.Build | client/src/core/call_graph.rs:33-69 | one edge for each call in each readable file, and the hash of each |
| CallGraphs.CallGraph.BuildIncremental | client/src/core/call_graph.rs:71-123 | as a build, with the edges of unchanged files copied from the previous graph |
| CallGraphs.CallGraph.LoadOrBuild | client/src/core/call_graph.rs:156-163 | a missing saved graph means a build from scratch, any other is reused |
| CallGraphLaws.ScratchDescribes | client/src/core/call_graph.rs:33-69 | a built graph has for each readable indexed file one edge for each of its calls, in order, with the line counted from one, the callee, and as caller the smallest symbol around the line, the earliest of several, or `<module>` where there is none; and the hash of its content; nothing for any other file |
| CallGraphLaws.AnyRunDescribes | client/src/core/call_graph.rs:71-123 | and so has the last graph of every run of rebuilds |
| CallGraphLaws.IncrementalAgreesWithScratch | client/src/core/call_graph.rs:71-123 | file by file the same edges in the same order, and the same hashes, as a build from scratch, whenever the reused edges are the files' own |
| CallGraphLaws.BuiltGraphIsReusable | client/src/core/call_graph.rs:71-123 | and the result's edges may be reused in any later world of the run |
| CallGraphLaws.AnyRunAgreesWithScratch | client/src/core/call_graph.rs:33-163 | after any run of edits, additions, deletions and unreadable files the graph is what a build from scratch would give, while at each call the preferred symbols share a name |
| CallGraphLaws.IterationOrderDoesNotMatter | client/src/core/call_graph.rs:33-69 | two builds of the same contents agree whatever the hash maps' orders, under that condition |
| CallGraphLaws.BuildIsOrderFreeExactlyWhen | client/src/core/call_graph.rs:33-69 | all orders of files and symbols build the same graph if and only if that condition holds at every call in a readable file |
| CallGraphLaws.RebuildAgreesExactlyWhen | client/src/core/call_graph.rs:71-123 | a rebuild of unchanged files agrees with a build from scratch in every order if and only if it holds |
| CallGraphLaws.NameIsOrderFreeExactlyWhen | client/src/core/call_graph.rs:169-204 | every order of the index finds the same name for a line if and only if all preferred symbols (around the line, smallest, then starting first) share it |
| CallGraphLaws.SharedRangeDependsOnOrder | client/src/core/call_graph.rs:169-204 | two symbols of one range, such as two functions on one line: each order finds the one it yields first |
| CallGraphLaws.UnsettledOrders | client/src/core/call_graph.rs:169-204 | in any index, where two preferred symbols differ in name some other order finds another name |
| EvictionRanking.FillRanks | client/src/core/cache.rs:76-92 | each index gets its position in the order as its rank |
| EvictionRanking.EvictionScores | client/src/core/cache.rs:56-113 | every entry's score is the sum of the reciprocal ranks of the three rankings |
| EvictionRanking.DominatingEntryScoresHigher | client/src/core/cache.rs:56-113 | strictly more recent, more frequent and larger means a strictly higher score |
| EvictionRanking.ScoreCounts | client/src/core/cache.rs:56-113 | the score is the sum of 1/(60 + n) over the three signals, n counting the entries that come before in it, earlier ones among equals |
| SessionCaches.SessionCache.constructor | client/src/core/cache.rs:170-184 | a new cache is empty and its next label is the first |
| SessionCaches.SessionCache.GetFileRef | client/src/core/cache.rs:186-195 | the label of the normalised path, issued from the counter the first time |
| SessionCaches.SessionCache.Get | client/src/core/cache.rs:201-203 | the entry at the normalised path, if cached |
| SessionCaches.SessionCache.RecordCacheHit | client/src/core/cache.rs:205-228 | a hit refreshes the entry and counts a read and a hit; a miss changes nothing |
| SessionCaches.SessionCache.Store | client/src/core/cache.rs:230-295 | the hit, changed-content and new-path branches as one step of the whole state |
| SessionCaches.SessionCache.EvictIfNeeded | client/src/core/cache.rs:302-325 | the loop removes exactly the victims, entries and labels alike |
| SessionCaches.SessionCache.Invalidate | client/src/core/cache.rs:374-376 | the entry goes, its label stays |
| SessionCaches.SessionCache.Clear | client/src/core/cache.rs:378-392 | everything is as new |
| SessionCacheLaws.EvictionIsMinimalAndFair | client/src/core/cache.rs:302-325 | the victims are the shortest run of lowest scores freeing the target; no kept entry scores below a victim |
| SessionCacheLaws.DominatingEntryOutlives | client/src/core/cache.rs:56-113 | an entry dominating another in all three signals is never evicted while the other stays |
| SessionCacheLaws.EvictionMakesRoom | client/src/core/cache.rs:302-325 | what is kept plus what comes in fits the budget, or nothing is kept |
| SessionCacheLaws.EvictionTakesNoMoreThanNeeded | client/src/core/cache.rs:302-325 | eviction only removes entries with their labels; none when everything fits, and never one more than it must |
| SessionCacheLaws.StoreKeepsTheBudget | client/src/core/cache.rs:230-295 | after storing a new path the cache holds at most the larger of the budget and that entry |
| SessionCacheLaws.EveryRunIsTallied | client/src/core/cache.rs:186-392 | over every run, whatever the digest, labels are distinct, below the counter and exactly those issued since the last clear, and hits never exceed reads |
| SessionCacheLaws.EveryRunIsCurrent | client/src/core/cache.rs:186-392 | over every run whose stores at one key have distinct digests, a cached content is the last one stored at its key, with its own digest, token and line counts |
| SessionCacheReports.StoreAnswers | client/src/core/cache.rs:230-295 | over every run the answer to a store is a hit if and only if that very content is cached, with the measurements of the content stored and one read more than since its entry was created |
| SessionCacheReports.ReadCountIs | client/src/core/cache.rs:206-295 | an entry counts the stores and hits of its key since it was created |
| SessionCacheReports.StoreCaches | client/src/core/cache.rs:230-295 | a store leaves its path cached and everything else as it was, but for what is evicted for a new path |
| SessionCacheReports.OthersStay | client/src/core/cache.rs:186-225 | hits, labels and invalidations touch no other entry |
| SessionCacheReports.EveryRunIsAccounted | client/src/core/cache.rs:206-295 | over every run the statistics are those of a ledger kept from the reads alone, with the tokens of the content or of the notice that is sent instead |
| SessionCacheLaws.LabelsAreNeverReissued | client/src/core/cache.rs:186-195 | between two clears no label is issued twice, also after eviction or invalidation |
| SessionCacheReports.LabelsAreNumbered | client/src/core/cache.rs:186-195 | labels are an F and a number from one on, below the next to be given |
| SessionCacheLaws.KeysAreAlwaysLabelledExactlyWhen | client/src/core/cache.rs:273-295 | every cached key has a label all through a run if and only if each store of a new key finds that key settled or labelled before |
| SessionCacheLaws.EveryRunKeepsKeysLabelled | client/src/core/cache.rs:273-295 | in particular when the stored paths' keys are settled |
| SessionCacheLaws.NewKeyIsLabelledExactlyWhen | client/src/core/cache.rs:273-295 | in any state, storing a new path leaves its key with a label if and only if normalising it again changes nothing or the key was labelled before; and every key stays labelled exactly then |
| SessionCacheLaws.AKeyWithoutLabel | client/src/core/cache.rs:273-295 | a path with backslashes is cached without a label |
| ToolPaths.IdempotentExactlyWhen | client/src/hooks/mod.rs:99-126 | a second normalisation changes nothing if and only if the first left no verbatim prefix, no Git Bash drive and no stray trailing slash |
| ToolPaths.NotIdempotentEverywhere | client/src/hooks/mod.rs:99-126 | a path for which it does change something |
| ToolPaths.SpellingsOfADrive | client/src/hooks/mod.rs:99-126 | a path on a drive has one normal form, written as Git Bash does or with either slash |
| ToolPaths.VerbatimSpelling | client/src/hooks/mod.rs:99-103 | a verbatim prefix changes nothing |
| ToolPaths.NetworkSpelling | client/src/hooks/mod.rs:99-103 | nor does the verbatim form of a network path |
| ToolPaths.RepeatedSlashes | client/src/hooks/mod.rs:117-119 | a repeated slash counts as one, except at the start |
| ToolPaths.TrailingSlash | client/src/hooks/mod.rs:121-124 | a slash at the end counts for nothing, except after a colon |
| Codebooks.Codebook.CountLines | client/src/core/codebook.rs:37-56 | the loops leave exact term and document counts for every normalised line of ten characters or more |
| Codebooks.Codebook.BuildFromFiles | client/src/core/codebook.rs:31-84 | the new entries are the selected patterns, numbered from the counter, and each resolves to its id |
| Codebooks.Codebook.Compress | client/src/core/codebook.rs:88-109 | the compressed text, and the references used: each once, in order of first use, exactly those emitted |
| Codebooks.Codebook.CollectCandidates | client/src/core/codebook.rs:58-67 | the counting table's patterns with a document count of three or more, with their counts |
| Codebooks.CandidatesAre | client/src/core/codebook.rs:58-67 | candidates are exactly those patterns, each with its true counts |
| Codebooks.CountedExactlyWhen | client/src/core/codebook.rs:41-49 | what is counted is the normal forms of ten characters or more |
| Codebooks.CountsAreOfLines | client/src/core/codebook.rs:37-56 | every line with the normal form counts towards its frequency, and every file with such a line once towards its files |
| Codebooks.TermsOutnumberDocs | client/src/core/codebook.rs:41-56 | a pattern's term count is at least its document count |
| Codebooks.SelectionIsBoilerplate | client/src/core/codebook.rs:58-84 | each selected pattern occurs in at least three files with its true count; either all such patterns are selected or the fifty most frequent |
| Codebooks.EveryBookIsSound | client/src/core/codebook.rs:31-84 | after any sequence of builds ids are unique and every pattern resolves to its latest entry |
| Codebooks.EntriesAreNumbered | client/src/core/codebook.rs:70-84 | entries are numbered from nought in the order in which they were added |
| Codebooks.CompressedLineByLine | client/src/core/codebook.rs:88-109 | compressed text has the lines of the original, each unchanged unless its normal form is a pattern, and then the reference to the latest entry with it |
| Codebooks.RefsInOrderOfFirstUse | client/src/core/codebook.rs:93-106 | the references used are listed in the order of their first use |
| Codebooks.ExpansionRestoresNormalFormsExactlyWhen | client/src/core/codebook.rs:88-109 | after any sequence of builds, replacing references in compressed text restores every line's normal form if and only if no kept line reads like a reference |
| Codebooks.AReferenceDoesNotExpandBack | client/src/core/codebook.rs:88-109 | a text that is just a reference is kept and expands to something else |
| Codebooks.ThreeFilesAndAReference | client/src/core/codebook.rs:31-109 | three files that share a line build a book with one entry, and the text that is its reference does not expand back |
| Codebooks.NormalizingIsIdempotent | client/src/core/codebook.rs:276-278 | a normal form is its own normal form |
| Cosine.CosineFromVectors | client/src/core/codebook.rs:250-274 | the accumulating loop computes the score of its three sums |
| Cosine.CauchySchwarz | client/src/core/codebook.rs:250-274 | the dot product squared is at most the product of the squared magnitudes, for any two vectors |
| Cosine.SimilarityIsBounded | client/src/core/codebook.rs:250-274 | the score lies in [-1, 1], and in [0, 1] for non-negative weights |
| Cosine.ScoreIsTheCosine | client/src/core/codebook.rs:250-274 | the score times the product of the two lengths is the dot product, and zero for negligible lengths |
| Cosine.SimilarityIsSymmetric | client/src/core/codebook.rs:250-274 | the score depends neither on the order of its arguments nor on the hash set's order |
| Cosine.SelfSimilarity | client/src/core/codebook.rs:250-274 | a vector's similarity to itself is one, or zero when its magnitude is negligible |
| Cosine.DisjointVectors | client/src/core/codebook.rs:250-274 | vectors without a common term score zero |
| SemanticDuplicates.ComputeIdf | client/src/core/codebook.rs:205-225 | the loops count in how many documents each term occurs |
| SemanticDuplicates.WeightDocument | client/src/core/codebook.rs:227-248 | term frequency times inverse document frequency, for exactly the document's terms |
| SemanticDuplicates.WeightsAre | client/src/core/codebook.rs:205-248 | a document weighs exactly its own terms, by their share of its words and the documents of the corpus that contain them |
| SemanticDuplicates.WeightsAreNonNegative | client/src/core/codebook.rs:205-248 | no weight is negative, whatever the corpus, given that ln(x) is at least -1 from one half on |
| SemanticDuplicates.DocumentSimilarityIsBounded | client/src/core/codebook.rs:148-177 | the similarity of two documents over any corpus lies in [0, 1] |
| SemanticDuplicates.ComparePairs | client/src/core/codebook.rs:192-199 | the double loop collects the pairs at or above the threshold in loop order |
| SemanticDuplicates.PairsAboveAre | client/src/core/codebook.rs:192-199 | those are exactly the index pairs i < j that reach the threshold, in strictly increasing order |
| SemanticDuplicates.FindSemanticDuplicates | client/src/core/codebook.rs:181-203 | the double loop and the sort return the pairs at or above the threshold |
| SemanticDuplicates.DuplicatesAreExact | client/src/core/codebook.rs:181-203 | exactly those pairs, each once, most similar first, with scores in [0, 1] |
| BugMemory.BugMemoryStore.RecordFailure | client/src/core/bug_memory.rs:109-185 | one failure updates, sorts, truncates and counts as the step function says |
| BugMemory.BugMemoryStore.Clear | client/src/core/bug_memory.rs:102-107 | the memory is empty again |
| BugMemory.EveryRunKeeps | client/src/core/bug_memory.rs:109-185 | at most a hundred patterns, distinct and sorted; the recent list is the last thirty accepted failures in order; totals add up; summed occurrences never exceed the accepted failures |
| BugMemory.PatternsAreRanked | client/src/core/bug_memory.rs:152-159 | over every run patterns come by occurrences, then by when they were seen last |
| BugMemory.OnlyTheLastIsForgotten | client/src/core/bug_memory.rs:152-159 | a pattern is forgotten only when a hundred others outrank it |
| BugMemory.RecentFailuresAre | client/src/core/bug_memory.rs:161-173 | the recent list is the last thirty accepted failures, field by field |
| BugMemory.OnlyFailuresAreRecorded | client/src/core/bug_memory.rs:109-123 | success and output without a signature leave no trace; any other failure is counted |
| BugMemory.BaseIsTheFirstTwoWords | client/src/core/bug_memory.rs:339-349 | commands share a base if and only if their first two words are the same |
| BugMemory.NothingIsLostExactlyWhen | client/src/core/bug_memory.rs:109-185 | over every run the occurrences sum to the accepted failures if and only if these have at most a hundred identities and none has more failures than a counter holds |
| BugMemory.AHundredAndOneIdentities | client/src/core/bug_memory.rs:157-159 | a history that loses an occurrence |
| BugMemory.PatternsSummariseTheirFailures | client/src/core/bug_memory.rs:129-152 | while there have been at most a hundred identities the patterns are exactly those, each the summary of all its failures: first command and date, last exit code, snippet, source and date, and their capped number |
| SharedFacts.SharedKnowledge.ShareKnowledge | client/src/core/agents.rs:526-561 | the facts are appended and the last five hundred kept |
| SharedFacts.SharedKnowledge.ReceiveSharedKnowledge | client/src/core/agents.rs:563-584 | the unread facts of other agents are marked and returned in file order |
| SharedFacts.SharingPosts | client/src/core/agents.rs:543-552 | sharing posts one fact for each key and value, in order, field by field |
| SharedFacts.PollMarksWhatItHandsOver | client/src/core/agents.rs:571-577 | a poll hands over each unread fact with the poller marked last, as it is in the file from then on; no other fact changes |
| SharedFacts.FileIsAlwaysWindow | client/src/core/agents.rs:526-584 | after every run the file is the last five hundred posts, marked exactly for the agents that polled since |
| SharedFacts.EachFactArrivesAtMostOnce | client/src/core/agents.rs:563-584 | over every run an agent receives posts at most once, in posting order, unaltered, never its own |
| SharedFacts.DeliveredExactlyWhen | client/src/core/agents.rs:526-584 | a post arrives if and only if it is another agent's and some poll found it among the last five hundred |
| SharedFacts.MissedExactlyWhen | client/src/core/agents.rs:526-584 | it is missed if and only if five hundred or more later posts came before the next poll |
| MarkedBlock.MarkedFile.Upsert | client/src/marked_block.rs:3-34 | the file's new text, installing or updating |
| MarkedBlock.MarkedFile.RemoveFromFile | client/src/marked_block.rs:36-49 | an unreadable or unmarked file is left alone, any other loses its block |
| MarkedBlock.UpdatingLeavesOneBlock | client/src/marked_block.rs:6-19 | after an update exactly one block is left, at the end, after marker-free text |
| MarkedBlock.InstallingLeavesOneBlock | client/src/marked_block.rs:20-33 | after an installation likewise, and the old text is an unaltered prefix |
| MarkedBlock.UpdatingKeepsOtherText | client/src/marked_block.rs:51-68 | every visible line around the old block is kept, in order, with the blanks at its start and inside it, before the new block |
| MarkedBlock.UpdatingIsVerbatim | client/src/marked_block.rs:51-68 | to the letter: only line feeds next to the old block and white space at the end of the text are rewritten |
| MarkedBlock.StrayStartIsKeptOnce | client/src/marked_block.rs:6-19 | with a start marker and no end marker the first update keeps every line and appends a block |
| MarkedBlock.StrayStartKeepsTextExactlyWhen | client/src/marked_block.rs:51-68 | and two updates keep all other text if and only if nothing visible follows the stray marker |
| MarkedBlock.UpdatingIsIdempotent | client/src/marked_block.rs:3-34 | updating again with the same block changes nothing |
| MarkedBlock.InstallingIsStableExactlyWhen | client/src/marked_block.rs:3-34 | upserting again right after an installation changes nothing if and only if the text ended in something visible and at most one line feed, and held no end marker or the block shows nothing |
| MarkedBlock.BlankLinesAreNotStable | client/src/marked_block.rs:20-33 | an installation onto blank lines that the next upsert changes |
| MarkedBlock.StrayEndAddsASecondBlock | client/src/marked_block.rs:51-68 | after an end marker without a start marker the second upsert removes nothing and appends the block again |
| MarkedBlock.StrayEndPilesUpBlocks | client/src/marked_block.rs:3-68 | and n upserts keep every line of the text and append the block n times |
| MarkedBlock.RemovingUndoesInstalling | client/src/marked_block.rs:36-68 | removing an installed block gives the text back with its trailing white space replaced by one line feed |
| Runs.CollapsePairs | client/src/server_client.rs:1232-1234 | replacing pairs until none is left terminates and collapses every run |
| Identity.NormalizeIdentityToken | client/src/server_client.rs:1225-1242 | trim, lower-case, dash, collapse, strip, with a fallback, for any white-space and case tables |
| Identity.NormalizedIsToken | client/src/server_client.rs:1225-1242 | for any tables that agree with ASCII the output is lower-case letters, digits and single inner dashes, and never empty |
| Identity.TokenIsItsRuns | client/src/server_client.rs:1225-1242 | a token is the runs of letters and digits of the lower-cased text, in order, joined by dashes; a text without any is `unknown` |
| Identity.TokensAreFixedPoints | client/src/server_client.rs:1225-1242 | the fixed points of the normaliser are exactly such tokens |
| Identity.NormalizingIsIdempotent | client/src/server_client.rs:1225-1242 | normalising twice is normalising once |
| Identity.IdentitiesAreUnique | client/src/server_client.rs:1206-1223 | two identities are equal exactly when all four normalised tokens are |
| Identity.IdentityReads | client/src/server_client.rs:1206-1223 | an identity is the four tokens in their order and the digest of the four, between colons |
| StableSort.SortIsStable | client/src/core/cache.rs:64-92 | the library sort the code relies on: elements that compare equal keep their order |
| Sequences.Find | client/src/marked_block.rs:52-53 | the leftmost occurrence, or none exactly when there is none |

## Left out

- HybridRoundTrips.ContentLengthRoundTrip: payloads whose parse is an ignored notification are excluded, because the Content-Length decoder answers "nothing yet" after consuming one; `HybridRuns.FrameSession` covers them at the level of the buffer.
- HybridRuns.ChunkInvariance: an undecided codec is covered with the constructor's unlimited line length; smaller limits are covered once the protocol is latched.
- JsonField.FieldReadsBackExactlyWhen: says nothing of a document that has text like the field before the field itself; the scanner then reads from the first such text, as `AnEarlierFieldIsTaken` shows.
- MarkedBlock.StrayEndPilesUpBlocks: for markers that end in something visible, so that trimming cuts neither; for other markers the first two upserts are covered.
- MarkedBlock.StrayStartKeepsTextExactlyWhen: for a stray start marker that ends in something visible; one that ends in white space may be cut by the trimming of the text.
- WrappedCommands.BinaryReadsBackExactlyWhen: the shell reader knows blanks, single quotes and backslashes; a path with any other shell syntax outside quotes has no reading, and a first word like `A=b`, which a shell takes for an assignment, is one word here.
- RewriteOnce.IdempotentExactlyWhen: for paths that are not empty and start with no blank, as `which` and the running executable give them.
- SessionCacheLaws.StoreKeepsTheBudget: bounds the cache after storing a new path only, because the changed-content branch does not evict.
- Files, networks, processes, locks, environment variables and serialisation: persisted state is a field or a parameter, and a write always succeeds.
- JSON parsing and the compatibility rule for notifications (section 4.1 of JSON-RPC 2.0) are a function from bytes to item, ignored or error.
- Tree-sitter analysis, content digests, token counting, line counting of cached files, signature and snippet extraction are function parameters.
- Non-ASCII text: bytes cast to characters in the lexer, Unicode white space in the codebook and in marked blocks, byte lengths of codebook patterns, and the final-sigma rule of lower-casing, which yields no ASCII.
- Machine integers, except where they decide something: 64-bit lengths and saturating additions in the codec and the saturating counters of the failure memory are modelled; the statistics of the cache, `read_count` and the codebook counters are unbounded. A frame length that overflows 64 bits, a panic in the source, is an error outcome.
- Floating-point rounding and NaN.
- Base64 shifts and masks are divisions and remainders by powers of two; the PowerShell script around the encoding is not modelled.
- CommandRegistry.RewritableExactlyWhen: speaks of the registered commands as a list; which commands are on it is copied from the source and not derived.
- The PowerShell and cmd quoters, alias scripts and the search category of the command registry, which hooks skip.
- Codebook: `format_legend`, which cuts long patterns at a byte offset.
- Session cache: shared blocks and cross-file deduplication, percentages, the legacy eviction score.
- Call graph: `callers_of` and `callees_of`, saving, and path resolution, which is part of what makes a file readable.
- Agents: the scratchpad copy that `share_knowledge` also writes, registration, messages and `read_unread`, whose last filter returns messages read earlier, so it promises nothing about delivery.
- Failure memory: reminders, formatting, and the date of the last update.
- Attention ordering, bandit sampling, threshold tables, guidance text, setup, doctor and the terminal user interface.
