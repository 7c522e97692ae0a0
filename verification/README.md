# A verified model of the algorithms of rtxag

This project models, in Dafny 4.11, the algorithms inside the services of the repository and proves what
callers rely on. `dafny verify dfyconfig.toml` checks all of it.

| file | models |
|---|---|
| `Sse.dfy`, `SseRoundTrip.dfy` | the server-sent-events line decoder, its block specification, a printer for it |
| `SseStandard.dfy` | the decoder compared with the interpretation rules of the WHATWG standard |
| `AsyncStream.dfy` | the simpler line parser that the chat models use, over chunked transport |
| `ToolCalls.dfy`, `ChatStream.dfy` | tool-call accumulation and the chat loop, streamed against whole; OpenAI and Tongyi adapters |
| `SqlSplitter.dfy` | the splitter for SQL migrations, a byte lexer |
| `PipeTraffic.dfy` | nsjail's proxy loop: which descriptors are armed, when data is spliced, which connections remain |
| `CpuSelection.dfy` | nsjail's random CPU subset |
| `ProcTable.dfy` | nsjail's table of children and its connection limits |
| `StrSplit.dfy`, `LineWrap.dfy`, `LineLayout.dfy` | string splitting and the wrapping of help texts |
| `MountOptions.dfy` | folding of generic mount options, and the options passed to `fsconfig` |
| `Credentials.dfy` | enumeration of suffixed credential sets |
| `DeepMerge.dfy` | the recursive merge of configurations |
| `MistralIds.dfy` | translation of tool-call ids |
| `DataUri.dfy` | the data-URI matcher and splitter |
| `SchemaIndex.dfy` | the model-schema list and its two indexes |

Methods follow the source step by step, with its loops and its fields; each is tied by its `ensures` to a
function on values, or states its result outright, and the lemmas beside it prove what that function means.

Lemmas whose names end in `Exactly` pin the functions that specifications are written with to literal characters,
bytes, names and positions, so that no such function can mean anything else; those that only spell out a table have no
row below.

What lies outside is a parameter. `loads` is `json.loads` (with the check that the result is an object, where
the source makes one), `toInt` is Python's `int`; `None` stands for their errors. Random ids and random numbers
are supplied sequences or functions. What `poll`, `splice`, `clone` and `wait4` return is supplied too and is
unrestricted, and `random.choice` is any element. A finite list of `poll` results stands for a run of the proxy
loop that ends with `poll` failing. The `while True` of a credential enumeration is looked at for any number of
rounds: the result is missing while it is still running, and the condition under which it ends is proved exactly.

Some promises turn out to be false of the code. These are the exact conditions proved instead:

* A blank line dispatches an event whenever a non-empty id is held, even without data, unlike section 9.2.6 of
  the WHATWG HTML Living Standard (`Sse.HeldIdDispatches`); the code is followed. The standard fires exactly the
  decoder's events that have data (`SseStandard.StandardExactly`).
* Chunks are parsed one by one. The lines depend on the division exactly when a boundary falls inside a line. The
  output depends on it exactly when, before the end marker is complete in some chunk, a boundary cuts a line that is
  not blank, other than by cutting only blanks off the front of a line with the end marker
  (`AsyncStreams.ChunkingIrrelevant`); `AsyncStreams.CutLineMisleads` is an input.
* Tool-call lists match the index exactly when no index is skipped, and after a skip the next fragment of the
  open call raises (`ToolCalls.AccumulatorShape`, `ToolCalls.SkipIsFatal`).
* Only the first tool-call entry of a chunk is read, so, where continuations have text and no name, the calls are
  rebuilt exactly when no chunk has two entries (`ChatStream.RebuiltExactly`); `ChatStream.SecondEntryIsLost` is an
  input.
* Tongyi's text follows the cumulative content exactly for chains of prefixes (`ChatStream.CumulativeText`).
* Splitting at a semicolon is a homomorphism exactly when the text before it ends outside both kinds of quotes
  (`SqlSplitter.SplitHomomorphism`).
* `load_input` ends exactly when some allowed field is present or required (`Credentials.LoadInputEndsExactly`), and
  `load_default` exactly when some allowed field is required (`Credentials.LoadDefaultEndsExactly`).
* The merge is associative exactly when `DeepMerge.Associates` holds (`DeepMerge.AssociativeExactly`).
* The limit per address needs a peer address that is the same when it is checked and when it is stored
  (`ProcTable.LaunchKeepsPerIpExactly`, `ProcTable.UnstableAddressBreaksLimit`).
* Over colon-free stored provider ids the joined index agrees with every scan exactly when the provider id that is
  asked for has no colon either and the model id is neither missing nor `None`, the text that a stored null shows as
  (`SchemaIndex.IndexIsScanExactly`); where no stored model id is null, `None` may be asked for too
  (`SchemaIndex.WithoutNullsIndexIsScanExactly`). Inputs: `SchemaIndex.ColonInQueryMisleads`,
  `SchemaIndex.NullIdMisleads`.

## Model

| member | source | states |
|---|---|---|
| Sse.SSEDecoder.DecodeLine | codebase/llmhub/app/models/chat_completion/stream.py:140-186 | one decoder call: the event returned and all four fields afterwards |
| Sse.SSEDecoder.Iter | codebase/llmhub/app/models/chat_completion/stream.py:124-130 | the events yielded over any iterator of lines, trailing newlines removed |
| Sse.FieldExactly | codebase/llmhub/app/models/chat_completion/stream.py:164-172 | the name of a field ends at its first colon; of the value exactly one leading space is dropped, and nothing else; without a colon it is empty |
| Sse.StripNewlinesExactly | codebase/llmhub/app/models/chat_completion/stream.py:127-127 | exactly the newlines at the end of a line are removed |
| Sse.DecodeMeetsBlockSpec | codebase/llmhub/app/models/chat_completion/stream.py:140-186 | for every line sequence the events are those read off the blocks between blank lines: joined data, last event and retry of the block, latest accepted id of the whole prefix; a blank line dispatches exactly when one of these is pending |
| Sse.BlockIsLongestSuffix | codebase/llmhub/app/models/chat_completion/stream.py:143-159 | a block is the longest stretch back to a blank line |
| Sse.InertLines | codebase/llmhub/app/models/chat_completion/stream.py:161-184 | the lines without effect in every state are exactly comments, unknown fields, ids with NUL and retries that are no integers |
| Sse.InsertInert | codebase/llmhub/app/models/chat_completion/stream.py:161-184 | such a line may be inserted anywhere |
| Sse.RunAppend | codebase/llmhub/app/models/chat_completion/stream.py:124-130 | decoding a concatenation is decoding the second part in the state that the first leaves |
| Sse.HeldIdDispatches | codebase/llmhub/app/models/chat_completion/stream.py:143-159 | with an id held every further blank line dispatches an event without data |
| SseStandard.StandardExactly | codebase/llmhub/app/models/chat_completion/stream.py:140-186 | for every line sequence the events that section 9.2.6 of the WHATWG standard fires are exactly the decoder's events whose block has data, in order, under the default type; all others have empty data |
| SseStandard.SameCountExactly | codebase/llmhub/app/models/chat_completion/stream.py:143-159 | the decoder yields as many events as the standard fires exactly when each of them has data |
| SseRoundTrip.RoundTrip | codebase/llmhub/app/models/chat_completion/stream.py:124-186 | printing any printable events and decoding the lines gives exactly those events, leading spaces and multi-line data included |
| SseRoundTrip.DecodedIsPrintable | codebase/llmhub/app/models/chat_completion/stream.py:140-186 | whatever is decoded from newline-free lines is printable: ids persist, no NUL, no empty event name |
| SseRoundTrip.DecodeIsCanonical | codebase/llmhub/app/models/chat_completion/stream.py:124-186 | decode, print, decode is decode |
| AsyncStreams.StreamLines | codebase/llmhub/app/models/chat_completion/stream.py:41-65 | the items of one chunk's lines, and that the stream stops exactly when `[DONE]` stands somewhere in one of them |
| AsyncStreams.Stream | codebase/llmhub/app/models/chat_completion/stream.py:26-69 | the items of a whole stream, and that the source is always drained |
| AsyncStreams.ItemsExactly | codebase/llmhub/app/models/chat_completion/stream.py:41-65 | line by line: one with `[DONE]` in it ends the stream; of any other the text behind `data:`, or else the whole line unless it is blank, is parsed and yielded if that succeeds |
| AsyncStreams.LinesExactly | codebase/llmhub/app/models/chat_completion/stream.py:26-38 | the lines of a chunk: a string is one line, bytes are cut at newlines, and empty pieces are dropped |
| AsyncStreams.NothingAfterDone | codebase/llmhub/app/models/chat_completion/stream.py:44-46 | chunks after one with `[DONE]` in it never show in the output |
| AsyncStreams.ChunkingIrrelevant | codebase/llmhub/app/models/chat_completion/stream.py:26-65 | for every division of a text: the lines are those of the undivided text exactly when no boundary cuts a line; the texts parsed, and the output for all parsers, exactly when the division is undisturbed (up to the end marker only blank lines are cut, or blanks off the front of its line) |
| AsyncStreams.UndisturbedOutput | codebase/llmhub/app/models/chat_completion/stream.py:26-65 | for any parser and item type an undisturbed division yields what the undivided text yields |
| AsyncStreams.CutLineMisleads | codebase/llmhub/app/models/chat_completion/stream.py:31-35 | one boundary inside a data line yields two payloads instead of one |
| AsyncStreams.DivisionAfterNewlines | codebase/llmhub/app/models/chat_completion/stream.py:31-35 | every division after newlines is of that kind |
| AsyncStreams.AgreesWithDecoder | codebase/llmhub/app/models/chat_completion/stream.py:41-65 | on single-line data events without `[DONE]` the full decoder yields every value, less its leading space if it has one, and the stream parses exactly these values if and only if no chunk boundary cuts a line |
| ToolCalls.ChatCompletionFunctionCallsContent.Handle | codebase/llmhub/providers/openai/chat_completion.py:180-200 | one delta: the accumulator afterwards, also when it raises half-way |
| ToolCalls.AccumulatorShape | codebase/llmhub/app/models/chat_completion/model.py:28-40 | for all deltas: names and arguments stay parallel, never longer than index + 1, and equal to it exactly when no index was skipped |
| ToolCalls.SkipIsFatal | codebase/llmhub/providers/openai/chat_completion.py:189-191 | after a skip the next fragment for the open call raises |
| ToolCalls.AcceptCut | codebase/llmhub/providers/openai/chat_completion.py:180-200 | however the argument texts are cut, the fold rebuilds names, arguments and index |
| ToolCalls.BuildWhole | codebase/llmhub/providers/openai/chat_completion.py:124-137 | the loop that builds calls stops at the first error |
| ToolCalls.BuildAllExact | codebase/llmhub/app/models/chat_completion/model.py:51-74 | all calls are built, in order and each from its own name and arguments, exactly when each has a name and parseable arguments; else the error is that of the first call that has not |
| ToolCalls.RebuiltBuildsTheSame | codebase/llmhub/app/models/chat_completion/model.py:221-233 | building from the accumulated strings differs from building from the message in ids at most, errors included |
| ChatStream.StreamLoop | codebase/llmhub/app/models/chat_completion/model.py:140-174 | the streaming loop: chunks yielded and all accumulated state, or the error that broke it off |
| ChatStream.ChatCompletionStream | codebase/llmhub/app/models/chat_completion/model.py:122-183 | the chunks, then one function call for each accumulated name, or the text, or the error; for calls cut into the entries read it is the answer to the whole message |
| ChatStream.ChatCompletion | codebase/llmhub/app/models/chat_completion/model.py:103-118 | the answer to a whole message, or the error for a response without choices |
| ChatStream.AnswersExactly | codebase/llmhub/app/models/chat_completion/model.py:203-238 | what an answer is: with calls, exactly one function call for each, in order, with its name, its parsed arguments and a new id; without, the text; the error of the first call that cannot be built, of the content filter, or of an empty message |
| ChatStream.StreamingRefinesWhole | codebase/llmhub/app/models/chat_completion/model.py:145-183 | for every cutting of the calls into the entries that are read (the first of each chunk), interleaving with text and division of the text, the streamed response is the response for the whole message, ids aside |
| ChatStream.StreamAnswers | codebase/llmhub/app/models/chat_completion/model.py:145-183 | under the same hypotheses the last result of the stream answers the whole message in that sense |
| ChatStream.RebuiltExactly | codebase/llmhub/providers/openai/chat_completion.py:180-200 | for every cutting into the entries that are sent, with continuations that have text and no name, the run rebuilds the calls if and only if no chunk has more than one entry |
| ChatStream.SecondEntryIsLost | codebase/llmhub/providers/openai/chat_completion.py:185-185 | of two calls in one chunk the second is lost without an error |
| ChatStream.TextConserved | codebase/llmhub/app/models/chat_completion/model.py:160-164 | chunk indices are 0, 1, 2, ... and the text is the concatenation of the deltas yielded, even when the stream breaks off |
| ChatStream.FinalTextIsWhatWasYielded | codebase/llmhub/app/models/chat_completion/model.py:235-238 | without tool calls the final message is the concatenation of the deltas yielded |
| ChatStream.RemoveFirstExactly | codebase/llmhub/providers/tongyi/chat_completion.py:118-118 | the first occurrence of the text so far is taken out of the content, if there is one |
| ChatStream.CumulativeStep | codebase/llmhub/providers/tongyi/chat_completion.py:115-124 | removing the text once and appending the rest gives the content exactly when the text is a prefix of it |
| ChatStream.CumulativeText | codebase/llmhub/providers/tongyi/chat_completion.py:112-125 | the text equals the latest cumulative content after every step exactly when the contents form a chain of prefixes |
| SqlSplitter.SplitSQLStatements | codebase/core/orm/db/migrate.go:47-93 | the loop returns the trimmed, non-empty pieces between statement boundaries; its two flags are never true together, and their values at every token are those of the lexer |
| SqlSplitter.FirstToken | codebase/core/orm/db/migrate.go:55-85 | the lexer in bytes: when `$$`, `'` and `;` change the mode or end a statement, and when they do not |
| SqlSplitter.PiecesRejoin | codebase/core/orm/db/migrate.go:55-85 | the untrimmed pieces joined by semicolons are the input |
| SqlSplitter.PiecesConcat | codebase/core/orm/db/migrate.go:55-85 | cutting a concatenation is cutting its parts, the second in the mode the first ends in, with the two pieces at the seam made one, unless a `$$` lies across the seam |
| SqlSplitter.SingleQuotedStaysWhole | codebase/core/orm/db/migrate.go:67-72 | behind any text that ends outside the quotes a single-quoted text lies wholly in the piece it starts in |
| SqlSplitter.DollarQuotedStaysWhole | codebase/core/orm/db/migrate.go:58-65 | so does a text between `$$` markers, unless the text before it ends in a lone dollar sign |
| SqlSplitter.SplitHomomorphism | codebase/core/orm/db/migrate.go:47-93 | split(a;b) is split(a) followed by split(b), for all b, exactly when a ends outside both quotes |
| SqlSplitter.SplitIdempotent | codebase/core/orm/db/migrate.go:47-93 | splitting the joined statements again gives the same statements, for every input |
| SqlSplitter.TrimExactly | codebase/core/orm/db/migrate.go:76-87 | what trimming removes is a run of white-space characters at either end, and none is left there |
| SqlSplitter.WhiteExactly | codebase/core/orm/db/migrate.go:76-87 | the encodings of these characters, byte by byte |
| SqlSplitter.VisibleEndsStay | codebase/core/orm/db/migrate.go:76-87 | a text between two visible ASCII characters is left as it is |
| SqlSplitter.TrimIdempotent | codebase/core/orm/db/migrate.go:76-87 | trimming twice is trimming once, multi-byte white space included |
| PipeTraffic.ClearReported | codebase/tools/dep/nsjail/nsjail.cc:182-189 | reported bits are cleared on every descriptor but the listening socket |
| PipeTraffic.Direction | codebase/tools/dep/nsjail/nsjail.cc:199-223 | one direction: when it splices and closes, and that it touches one bit of either end only |
| PipeTraffic.Serve | codebase/tools/dep/nsjail/nsjail.cc:190-223 | both directions of a connection: neither disturbs the other, nor any other connection |
| PipeTraffic.Round | codebase/tools/dep/nsjail/nsjail.cc:181-239 | a whole round over the event bits refines independent steps of all directions |
| PipeTraffic.Rounds | codebase/tools/dep/nsjail/nsjail.cc:148-239 | the loop: what every round splices, how many rounds run and why it ends |
| PipeTraffic.Nsjail.Traffic | codebase/tools/dep/nsjail/nsjail.cc:147-243 | a whole call: the splices made, the connections left, and the result, which is true exactly when the first round that is not run has no signal and something reported on the listening socket, on which nothing is reported before |
| PipeTraffic.InwardExactly | codebase/tools/dep/nsjail/nsjail.cc:201-218 | round i splices from the socket to `pipe_in` exactly when POLLIN of the one and POLLOUT of the other were reported since the last such splice |
| PipeTraffic.OutwardExactly | codebase/tools/dep/nsjail/nsjail.cc:201-218 | the same from `pipe_out` to the socket |
| PipeTraffic.ClosedExactly | codebase/tools/dep/nsjail/nsjail.cc:208-232 | connections are closed in the last round only, and then exactly those with an end of file at a splice or an error on a descriptor |
| PipeTraffic.EndExactly | codebase/tools/dep/nsjail/nsjail.cc:173-180 | unless connections were closed, the round after the last one run has a signal, or none but a report on the listening socket, or there is none |
| PipeTraffic.SpliceExactly | codebase/tools/dep/nsjail/nsjail.cc:201-218 | a splice is made exactly when both ends were reported since the last splice of that direction |
| PipeTraffic.ArmedExactly | codebase/tools/dep/nsjail/nsjail.cc:182-218 | an end is disarmed exactly when it was reported since then, and never both ends of a direction |
| PipeTraffic.NoLostReadiness | codebase/tools/dep/nsjail/nsjail.cc:173-218 | at every `poll` either direction of every connection has an end armed |
| PipeTraffic.EndingRan | codebase/tools/dep/nsjail/nsjail.cc:173-239 | all rounds but the last close nothing, and the run ends for the first reason that occurs |
| PipeTraffic.CompactionExact | codebase/tools/dep/nsjail/nsjail.cc:233-241 | compaction keeps exactly the connections not closed, in order, if and only if none of them is all zeros |
| PipeTraffic.CompactExactly | codebase/tools/dep/nsjail/nsjail.cc:240-241 | compaction removes exactly the entries without any descriptor |
| CpuSelection.GetNthOnlineCpu | codebase/tools/dep/nsjail/cpu.cc:51-63 | the CPU with exactly n before it, or the fatal branch |
| CpuSelection.CountBelow | codebase/tools/dep/nsjail/cpu.cc:51-63 | the fatal branch is taken exactly when the mask has n CPUs or fewer |
| CpuSelection.SetRandomCpu | codebase/tools/dep/nsjail/cpu.cc:65-79 | one choice moves one CPU from one mask to the other |
| CpuSelection.ChooseExactly | codebase/tools/dep/nsjail/cpu.cc:65-79 | the CPU moved is the one with exactly n others before it, and none can be moved exactly when n or fewer are left |
| CpuSelection.InitCpu | codebase/tools/dep/nsjail/cpu.cc:81-123 | for all random numbers no fatal branch is reached; exactly max_cpus CPUs are chosen, disjoint from the rest, and together they are the original mask |
| CpuSelection.SelectionOfAll | codebase/tools/dep/nsjail/cpu.cc:120-123 | after k picks exactly k CPUs of the original mask are chosen |
| CpuSelection.EverySubsetReached | codebase/tools/dep/nsjail/cpu.cc:120-123 | every subset is chosen by some random numbers |
| ProcTable.Nsj.LimitConns | codebase/tools/dep/nsjail/net.cc:497-526 | the counting loop decides whether the total and the address have room |
| ProcTable.Nsj.AddProc | codebase/tools/dep/nsjail/subproc.cc:260-278 | one entry is added, unless the pid is there already |
| ProcTable.Nsj.RemoveProc | codebase/tools/dep/nsjail/subproc.cc:280-297 | that entry is removed and no other |
| ProcTable.Nsj.ReapProc | codebase/tools/dep/nsjail/subproc.cc:365-407 | an entry is removed only for a process that exited or was killed |
| ProcTable.Nsj.KillAndReapAll | codebase/tools/dep/nsjail/subproc.cc:451-463 | entries are only removed, and all are gone after as many rounds as there were entries if every killed process ends |
| ProcTable.Nsj.RunChild | codebase/tools/dep/nsjail/subproc.cc:512-561 | a launch adds an entry only if the check allows it and the clone succeeds |
| ProcTable.AllowedExactly | codebase/tools/dep/nsjail/net.cc:497-526 | the check refuses exactly the connections that would break a limit |
| ProcTable.TotalLimitHolds | codebase/tools/dep/nsjail/net.cc:498-502 | in every run the table never exceeds max_conns |
| ProcTable.PerIpLimitHolds | codebase/tools/dep/nsjail/net.cc:512-523 | in every run with stable peer addresses no address exceeds max_conns_per_ip |
| ProcTable.LaunchKeepsPerIpExactly | codebase/tools/dep/nsjail/subproc.cc:512-561 | a launch keeps that limit exactly when it is refused or the address stored has room |
| ProcTable.UnstableAddressBreaksLimit | codebase/tools/dep/nsjail/subproc.cc:260-264 | two launches break the limit when the address stored is not the one checked |
| StrSplit.Words | codebase/tools/dep/nsjail/util.cc:491-498 | the pieces between delimiters, without an empty last one |
| StrSplit.PiecesRejoin | codebase/tools/dep/nsjail/util.cc:491-498 | the pieces joined give the string back, but for a final delimiter |
| LineWrap.GetConsoleLength | codebase/tools/dep/nsjail/cmdline.cc:186-196 | the width with tabs of eight |
| LineWrap.FormatLine | codebase/tools/dep/nsjail/cmdline.cc:198-218 | the text of the greedy layout of the words |
| LineLayout.GreedyKeepsWords | codebase/tools/dep/nsjail/cmdline.cc:203-216 | every word is kept, in order |
| LineLayout.GreedyExactly | codebase/tools/dep/nsjail/cmdline.cc:208-216 | a line is broken before a word exactly when it is not empty and has no room for the word |
| LineLayout.GreedyIsNarrow | codebase/tools/dep/nsjail/cmdline.cc:208-216 | for all inputs every line is narrower than the limit or has at most one non-empty word |
| LineLayout.IndentIsLongest | codebase/tools/dep/nsjail/cmdline.cc:199-200 | the indent is the longest run of blanks at the start |
| LineLayout.FormattedLines | codebase/tools/dep/nsjail/cmdline.cc:198-218 | the lines of the returned text are the lines of the layout |
| LineWrap.FormatDescription | codebase/tools/dep/nsjail/cmdline.cc:220-228 | the wrapped lines of a help text, each behind a tab |
| LineLayout.DescriptionLines | codebase/tools/dep/nsjail/cmdline.cc:220-228 | the lines of a help text are those of the layouts of its input lines, in order; each is narrower than 80 columns or has at most one non-empty word of its own input line |
| LineLayout.GreedyIsOptimal | codebase/tools/dep/nsjail/cmdline.cc:198-218 | for non-empty words no order-keeping layout with fitting lines has fewer lines |
| MountOptions.MountFlags | codebase/tools/dep/nsjail/mnt_newapi.cc:507-524 | the folded flags |
| MountOptions.LastOptionWins | codebase/tools/dep/nsjail/mnt_newapi.cc:119-137 | per flag the last option that mentions it decides, or else the default |
| MountOptions.BitsExactly | codebase/tools/dep/nsjail/mnt_newapi.cc:119-137 | which options mention which bit, which of them turns it on, and its default |
| MountOptions.GenericMentions | codebase/tools/dep/nsjail/mnt_newapi.cc:114-117 | the two lists of generic options agree |
| MountOptions.ConfigureOptions | codebase/tools/dep/nsjail/mnt_newapi.cc:274-299 | the `fsconfig` calls made, up to the first that fails |
| MountOptions.PassedExactly | codebase/tools/dep/nsjail/mnt_newapi.cc:275-297 | the calls stand for exactly the non-empty options that are not generic, in order |
| MountOptions.CutAtFirstEquals | codebase/tools/dep/nsjail/mnt_newapi.cc:279-282 | an option is cut at its first equals sign and at no other |
| MountOptions.ConfigExactly | codebase/tools/dep/nsjail/mnt_newapi.cc:279-282 | a key without an equals sign and a value are recovered from the option they make up |
| MountOptions.FoldedNotPassed | codebase/tools/dep/nsjail/mnt_newapi.cc:275-278 | a generic option does not affect the calls |
| MountOptions.PassedNotFolded | codebase/tools/dep/nsjail/mnt_newapi.cc:119-137 | any other option does not affect the flags |
| Credentials.LoadCredentialSet | codebase/llmhub/app/models/provider_credentials.py:47-56 | one set, from an input or from the environment, up to the first error |
| Credentials.SetOfFields | codebase/llmhub/app/models/provider_credentials.py:47-56 | a set holds what every field gives it, or the error of the first field that fails |
| Credentials.InputSetExact | codebase/llmhub/app/models/provider_credentials.py:47-56 | a set loads from an input exactly when every present field has its suffixed form and no required one is absent; all its values carry the one suffix |
| Credentials.DefaultSetExact | codebase/llmhub/app/models/provider_credentials.py:83-88 | a set loads from the environment exactly when every required field has a non-empty variable or a default; fields without either are stored as missing |
| Credentials.LoadInputEndsExactly | codebase/llmhub/app/models/provider_credentials.py:58-69 | the enumeration of an input ends exactly when some allowed field is present or required |
| Credentials.LoadSets | codebase/llmhub/app/models/provider_credentials.py:58-69 | the loop collects the longest run of suffixes that load, in order, or is still running because all have loaded so far |
| Credentials.ProviderCredentials.LoadInput | codebase/llmhub/app/models/provider_credentials.py:41-74 | the first error, or one set of the longest run stored whole, or the loop still running; as many rounds as the input has entries tell which |
| Credentials.ProviderCredentials.LoadDefault | codebase/llmhub/app/models/provider_credentials.py:76-107 | the same from the environment and its defaults |
| Credentials.SuffixInjective | codebase/llmhub/app/models/provider_credentials.py:65-65 | distinct numbers give distinct keys |
| Credentials.DecimalExactly | codebase/llmhub/app/models/provider_credentials.py:65-65 | the suffixes are the decimal numbers behind an underscore |
| Credentials.LoadDefaultEndsExactly | codebase/llmhub/app/models/provider_credentials.py:83-101 | the enumeration from the environment ends exactly when some allowed field is required |
| DeepMerge.DeepMergeDicts | codebase/llmhub/app/models/model_config/model_config_schema.py:8-15 | the loop computes the merge, whatever order the keys come in |
| DeepMerge.MergeIdentity | codebase/llmhub/app/models/model_config/model_config_schema.py:8-15 | the empty dictionary is an identity on both sides |
| DeepMerge.MergeIdempotent | codebase/llmhub/app/models/model_config/model_config_schema.py:8-15 | merging with itself changes nothing, at any depth |
| DeepMerge.LookupInMerge | codebase/llmhub/app/models/model_config/model_config_schema.py:8-15 | what the merge holds at any path, from what its operands hold there |
| DeepMerge.AssociativeExactly | codebase/llmhub/app/models/model_config/model_config_schema.py:8-15 | the exact condition for associativity |
| DeepMerge.AbsorbsExactly | codebase/llmhub/app/models/model_config/model_config_schema.py:8-15 | the condition's leaf case: exactly when a merge shows nothing of its first operand |
| DeepMerge.AssociativeWithoutClash | codebase/llmhub/app/models/model_config/model_config_schema.py:8-15 | associative whenever no path is a dictionary in the first and third operand and a leaf in the second |
| DeepMerge.ClashBreaksAssociativity | codebase/llmhub/app/models/model_config/model_config_schema.py:12-13 | a triple for which it fails |
| MistralIds.IdMap.Rename | codebase/llmhub/providers/mistralai/chat_completion.py:46-58 | the calls with their new ids, and the map then leads from each id to its latest call |
| MistralIds.IdMap.Build | codebase/llmhub/providers/mistralai/chat_completion.py:15-64 | one message as it must be sent, or the id not found |
| MistralIds.BuildAll | codebase/llmhub/providers/mistralai/chat_completion.py:76-77 | it succeeds exactly when every function message answers an earlier call, each with the new id of the latest one; else the first that does not is reported |
| MistralIds.ExpectedExactly | codebase/llmhub/providers/mistralai/chat_completion.py:15-64 | what is sent for each kind of message; a function message refers to the latest earlier call with its id |
| MistralIds.ReferencesLeadBack | codebase/llmhub/providers/mistralai/chat_completion.py:28-58 | every reference sent leads to an earlier call sent that had the original id |
| MistralIds.RenamingIsBijective | codebase/llmhub/providers/mistralai/chat_completion.py:28-58 | with distinct ids on both sides references agree after exactly when they did before |
| DataUri.ValidExactly | codebase/llmhub/app/utils/utils.py:35-38 | the matcher accepts exactly the URIs composed of a format, a payload and one newline at most |
| DataUri.ComposedExactly | codebase/llmhub/app/utils/utils.py:35-38 | such a URI in literal terms: the three formats, whole groups of four, padding in the last two places only (RFC 4648 section 4) |
| DataUri.ValidSplits | codebase/llmhub/app/utils/utils.py:53-58 | every accepted URI splits into an allowed format and a payload that make it up again |
| DataUri.CheckValidListContent | codebase/llmhub/app/utils/utils.py:41-50 | raises exactly when some image is invalid |
| DataUri.BuildBlocks | codebase/llmhub/providers/anthropic/chat_completion.py:18-32 | after the check no image can make the splitter raise, and every block carries its item |
| SchemaIndex.SchemaCache.Load | codebase/llmhub/app/cache/model_schema.py:61-77 | list and indexes are replaced together and belong to each other |
| SchemaIndex.SortIsSorted | codebase/llmhub/app/cache/model_schema.py:66-66 | the list is sorted by id and has the admitted schemas, no more and no fewer |
| SchemaIndex.AtMostExactly | codebase/llmhub/app/cache/model_schema.py:66-66 | the order on ids: a prefix is smaller, and else the first difference decides |
| SchemaIndex.SortIsStable | codebase/llmhub/app/cache/model_schema.py:66-66 | schemas with one id keep their order |
| SchemaIndex.SchemaCache.ListModelSchemas | codebase/llmhub/app/cache/model_schema.py:83-89 | the schemas that match both filters, in order |
| SchemaIndex.SchemaCache.GetModelSchema | codebase/llmhub/app/cache/model_schema.py:92-93 | the last match of a scan of the list |
| SchemaIndex.SchemaCache.GetModelSchemaByProvider | codebase/llmhub/app/cache/model_schema.py:96-97 | for every query the last schema with the joined key; for an unambiguous one the last match of a scan by provider and model id, a missing id being no text |
| SchemaIndex.LastLoadedWins | codebase/llmhub/app/cache/model_schema.py:66-67 | of all schemas loaded with an id the last one answers for it |
| SchemaIndex.LoadedIndexIsScan | codebase/llmhub/app/cache/model_schema.py:61-77 | after any load the index agrees with a scan by provider and model id for every query that is unambiguous over what was read |
| SchemaIndex.KeyInjective | codebase/llmhub/app/cache/model_schema.py:69-69 | for colon-free provider ids the joined key determines the provider and the text of the model id |
| SchemaIndex.IndexIsScanExactly | codebase/llmhub/app/cache/model_schema.py:96-97 | for any query the index agrees with the scan of every list of colon-free provider ids exactly when the provider id asked for has no colon and the model id is neither missing nor `None` |
| SchemaIndex.WithoutNullsIndexIsScanExactly | codebase/llmhub/app/cache/model_schema.py:96-97 | over the lists that also have no null model id, exactly when the provider id has no colon and a model id is given |
| SchemaIndex.ColonInQueryMisleads | codebase/llmhub/app/cache/model_schema.py:96-97 | a colon in the provider id asked for can hit another provider's schema |
| SchemaIndex.NullIdMisleads | codebase/llmhub/app/cache/model_schema.py:68-70 | a schema without a model id answers for the model `None` |

## Left out

- HTTP, sessions, routing, repositories, the admin interface, encryption and token counting: plumbing around foreign libraries.
- The `usage` and timestamp fields of responses, and log messages: they carry no logic.
- AsyncStreams.Stream: the UTF-8 decoding of a chunk is not modelled; chunks come decoded, so a boundary inside a multi-byte character (an error in the source) does not occur.
- ToolCalls.ChatCompletionFunctionCallsContent.Handle: other malformed JSON, such as a delta without `index` or `function`, is not modelled; of the tool calls in one chunk only the first is read, as in the source.
- ToolCalls.BuildWhole: arguments given as a dictionary are not modelled, because no modelled adapter fills `arguments_dicts`.
- ToolCalls.BuildAllExact: for the same reason it speaks of arguments given as text only.
- The other OpenAI-like adapters and `custom_host` streaming: near copies of the OpenAI adapter, or a loop of their own.
- `ApplySQLMigrations` around the splitter: file reading and execution.
- PipeTraffic.Nsjail.Traffic: closing descriptors and killing the child of a closed connection are not modelled; the connections closed are reported.
- ProcTable.Nsj.ReapProc: cgroups, the `pasta` helper processes and the run-time limit are not modelled; none of them adds an entry.
- ProcTable.Nsj.KillAndReapAll: runs over a finite list of outcomes, since the source's loop does not end while a killed process cannot be waited for.
- LineWrap.FormatLine: C strings end at NUL; a text with NUL is not cut here. Widths are unbounded integers.
- `argFromVec` and option parsing in cmdline.cc: they would only add easy members.
- MountOptions.MountFlags: the flag word is the set of its bits, and only the bits that occur in this code; source, target and directory detection are left out.
- Credentials.ProviderCredentials.LoadInput: the loop is looked at for a given number of rounds, since Dafny has no endless loop; as many as the input has entries tell whether it ends.
- Credentials.ProviderCredentials.LoadDefault: likewise, with as many rounds as there are variables and defaults.
- SseStandard.StandardExactly: the byte order mark, the division into lines and the reconnection time of the standard are left out; none of them takes part in the comparison.
- DeepMerge.DeepMergeDicts: keys are strings.
- MistralIds.BuildAll: random ids are supplied and non-empty; argument dictionaries come as text.
- SchemaIndex.SchemaCache.Load: reading the files and the check for duplicate ids within one provider are left out; the order of Python's stable sort is computed by insertion.
