# Verified models of the runme core

A Dafny model of the parts of runme that are concurrent, incremental or come in matching pairs, with
proofs that hold for all inputs, all schedules and all ways of cutting a stream. `dafny verify dfyconfig.toml`
checks the project.

- **Ring buffer** (`RingBuffer.dfy`, `RingProtocol.dfy`). The byte buffer between a command and its clients.
  `RingBuffer` is the object with its array and cursors; a call runs up to where it returns or would wait.
  `RingProtocol` takes the same cursor arithmetic into a system of any number of calls of Read, Write, Close and
  Reset. Each call moves through its program points: taking the mutex, scanning, loading the closed flag (which another
  call may flip at any moment), copying, parking in `cond.Wait`, being woken. A run is any sequence of moves.
- **Frontmatter** (`Splitter.dfy`, `ItemParser.dfy`, `SplitterLaws.dfy`, `SectionLaws.dfy`, `JsonFrontmatter.dfy`). The state-function
  parser that separates frontmatter from content, including its quirks: backing up the end-of-input
  marker moves forward, backing up a lookahead stops at a NUL and counts bytes, not runes, and one slice may start past the end.
- **LRU cache** (`LruCache.dfy`, `LruLaws.dfy`, `LruRetention.dfy`). The list is a sequence, front first.
- **Environment transport** (`EnvTransport.dfy`). Dump, encryption, decryption and scanning, with every
  read as short as it likes.
- **Attributes** (`Attributes.dfy`, `AttributeLaws.dfy`, `ParseLaws.dfy`). The HTML-style form of code block attributes.
- **Document tree and cells** (`DocumentTree.dfy`, `Cells.dfy`, `Division.dfy`). Building the block tree, collecting code
  blocks, and dividing the tree into notebook cells.
- **Session environment** (`EnvStore.dfy`, `OutputCapture.dfy`). Store, difference, patch, and the captured output.
- **Eval results** (`ResultPath.dfy`, `PromoteJob.dfy`, `PromotePolicy.dfy`). Finding the result path in streamed output, and
  choosing the job to promote.

`Basics.dfy`, `Text.dfy` and `Sorting.dfy` hold shared vocabulary.

Where the code and its documentation disagree, the code is followed: `extractAttributes` says that it takes the last `}`, but
it stops at the first one.

Four properties hold only under a condition, and the condition is proved to be exact:

- Splitting what `Serialize` joins gives frontmatter and body back, for every frontmatter text and every body, if and only
  if the frontmatter followed by two line breaks alone is split as frontmatter (`RoundTripDecided`). So a text survives with every
  body or with none. For text without NUL that is so if and only if it ends where its syntax says: at the earliest closing
  delimiter, or where the brace scan stops (`CompleteSurvives`). What the splitter itself has emitted survives, unless
  it was JSON whose scan started next to a NUL (`SplitUndoesJoin`); `NulBreaksTheRoundTrip` is such an input.
- A document opening with a JSON object has that object as its frontmatter if and only if no NUL stands among the first
  four runes of the object and what follows it (`ObjectIsTheFrontmatter`). An opening `---` or `+++` is rejected
  if and only if a NUL follows it (`OpeningRejectedOnlyAtNul`).
- Attributes survive printing and parsing if and only if keys are non-empty and free of space, `=` and `}`, and
  values free of space and `}` (`RoundTrip`).
- The environment arrives intact if and only if no entry contains a NUL, the last entry is not empty and every
  entry is shorter than the scanner's limit (`ArrivesIntact`).

Among documents without a NUL in reach of the lookahead, the splitter crashes on exactly one kind: those that end in a lone CR
right after the opening delimiter (`CrashesExactly`). With a NUL there, backing up by bytes may end inside a rune; the model then
says that the run goes astray, and `StraysOnlyNearNul` proves that this takes a rune of several bytes next to the NUL. A reader and a writer never sleep together if the buffer has room for a byte; with size zero they
can (`EmptyBufferParksBoth`).

## Model

| member | source | states |
|---|---|---|
| RingBuffer.RingBuffer.constructor | internal/rbuffer/ring_buffer.go:34-42 | a new buffer of any size, zero included, is empty and open |
| RingBuffer.RingBuffer.Read | internal/rbuffer/ring_buffer.go:64-81 | one pass under the mutex returns the oldest min(room, stored) bytes and removes exactly these, or reports EOF on a closed and empty buffer, or waits on an open and empty one |
| RingBuffer.RingBuffer.ReadLocked | internal/rbuffer/ring_buffer.go:96-121 | the two-part copy across the wrap delivers the front of the queue and moves the cursor as `Ring.AfterTake` says; the rest of the caller's buffer is untouched |
| RingBuffer.RingBuffer.Write | internal/rbuffer/ring_buffer.go:127-176 | the loop appends a prefix of p, as long as there is space, and returns its exact length with the reason for stopping; unread data is never overwritten |
| RingBuffer.RingBuffer.PutChunk | internal/rbuffer/ring_buffer.go:155-169 | one chunk, wrapping or not, is appended to the queue; cursor and full flag end as `Ring.AfterPut` says |
| RingBuffer.RingBuffer.AvailableLocked | internal/rbuffer/ring_buffer.go:179-187 | the free space is the size minus the queue length, through the full/empty ambiguity |
| RingBuffer.RingBuffer.Reset | internal/rbuffer/ring_buffer.go:53-60 | the buffer is empty afterwards |
| RingBuffer.RingBuffer.Close | internal/rbuffer/ring_buffer.go:44-51 | closing changes the flag and nothing that is stored |
| RingBuffer.TakeIsDequeue | internal/rbuffer/ring_buffer.go:96-121 | cursor arithmetic modulo the size is removing from the front of a queue |
| RingBuffer.PutIsEnqueue | internal/rbuffer/ring_buffer.go:150-169 | filling slots from the write cursor on is appending to that queue |
| RingProtocol.FifoAcrossInterleavings | internal/rbuffer/ring_buffer.go:64-187 | in every interleaving the bytes accepted, in lock order, are the bytes drained, in lock order, followed by the stored ones |
| RingProtocol.ResultsAreExact | internal/rbuffer/ring_buffer.go:64-176 | in every interleaving each finished Write has had exactly its reported count of bytes accepted, each finished Read has drained exactly what it returned, EOF or ErrClosed is reported only on a closed buffer, ErrClosed never for a Write that was completed, and a Close that has returned has closed it |
| RingProtocol.OnlyReadsDrain | internal/rbuffer/ring_buffer.go:94-121 | every drained byte was returned by some Read, unless a Reset dropped it |
| RingProtocol.ReadTakesAll | internal/rbuffer/ring_buffer.go:64-121 | a Read at the loop head returns the oldest min(room, stored) bytes at once, and goes on to the closed flag only if there is none |
| RingProtocol.WritePutsAll | internal/rbuffer/ring_buffer.go:139-173 | a round of Write appends the next min(left, free) bytes and waits only if that is none |
| RingProtocol.OtherStepsKeepBytes | internal/rbuffer/ring_buffer.go:44-60 | Reset leaves the buffer empty, Close on a closed buffer does nothing, no other step touches the stored bytes |
| RingProtocol.OneBroadcast | internal/rbuffer/ring_buffer.go:44-51 | of any number of calls of Close at most one is ever about to broadcast, and then the flag is set |
| RingProtocol.NoLostWakeup | internal/rbuffer/ring_buffer.go:44-60 | a parked reader means an empty buffer, a parked writer a full one, and either on a closed buffer means that the broadcast of Close is still to come |
| RingProtocol.NeverBothParked | internal/rbuffer/ring_buffer.go:72-80 | a reader and a writer parked together implies size zero |
| RingProtocol.EmptyBufferParksBoth | internal/rbuffer/ring_buffer.go:139-148 | with size zero there is a run that parks both |
| RingProtocol.EofIsFinal | internal/rbuffer/ring_buffer.go:72-80 | once a Read has returned EOF every accepted byte has been drained, and no continuation accepts or drains another one |
| RingProtocol.CloseStopsWriters | internal/rbuffer/ring_buffer.go:139-171 | once the flag is set at most one more chunk is ever accepted, from the one writer that had loaded the flag before |
| RingProtocol.WriteAfterCloseFails | internal/rbuffer/ring_buffer.go:127-133 | a Write that starts on a closed buffer can only end with ErrClosed and a count of zero |
| RingProtocol.QuiescenceIsJustified | internal/rbuffer/ring_buffer.go:12-22 | when no call can move, each has returned or sleeps on an open buffer that is empty (reader) or full (writer); after a Close all have returned |
| RingProtocol.SchedulesEnd | internal/rbuffer/ring_buffer.go:64-176 | without new calls every schedule reaches such a state within a bound: broadcasts cannot cause a livelock |
| Splitter.ItemsShape | document/parser.go:138-214 | a run emits one error, or at most one frontmatter and then at most one content item |
| ItemParser.ItemParser.Next | document/parser.go:129-136 | the rune at the position, which advances, or the end marker |
| ItemParser.ItemParser.Backup | document/parser.go:84-87 | back by the bytes of the rune, whatever stands there; one forward for the end marker |
| ItemParser.ItemParser.Consume | document/parser.go:89-99 | at most one CR and then at most one LF, with the position past the end that backing up the end marker leaves |
| ItemParser.ItemParser.LookAhead | document/parser.go:154-167 | three runes of lookahead, zero-padded, and the byte position left after backing up those before the first NUL, inside a rune or not |
| ItemParser.ItemParser.SkipLead | document/parser.go:146-197 | the loop of parseInit decides as the recursive description does, stops where it would read on inside a rune, and terminates |
| ItemParser.ItemParser.RawFrontmatter | document/parser_frontmatter.go:12-44 | the delimiter loop stays on track for the items of the whole run |
| ItemParser.ItemParser.ParseJsonState | document/parser_frontmatter.go:46-85 | the brace, quote and escape scanner stays on track for the items of the whole run |
| ItemParser.ItemParser.ParseContentState | document/parser.go:199-207 | skipping line breaks pair by pair finds the first other rune |
| ItemParser.ItemParser.Run | document/parser.go:138-142 | running the state functions terminates with exactly the items of `Splitter.Split`, or crashes at a slice past the end, or reads on inside a rune, exactly when that says so |
| ItemParser.ParseSections | document/parser.go:17-38 | the loop over the items yields the sections, the whole source for a rejected delimiter, or the error; a crash or a run astray is passed on |
| Text.SpacesAreWhiteSpace | document/parser.go:191-193 | the characters that count as space are those with the Unicode property, and no others |
| SplitterLaws.EnterDecides | document/parser.go:146-197 | leading whitespace and byte order marks are skipped and the first text decides, if no NUL is within reach |
| SplitterLaws.DelimitedFrontmatter | document/parser_frontmatter.go:12-44 | closes at the earliest delimiter that follows a line break, fails exactly if there is none; crashes exactly on a lone CR at the end |
| SplitterLaws.CrashesExactly | document/parser_frontmatter.go:20-33 | among all documents without a NUL in reach of the lookahead, those that crash are blanks, an opening delimiter and a lone CR; none goes astray |
| SplitterLaws.StraysOnlyNearNul | document/parser.go:146-197 | if no NUL has a rune of several bytes among the three runes before it or the two behind it, the splitter never reads on inside a rune |
| SplitterLaws.NulMisplacesTheStart | document/parser.go:162-167 | a source on which it does, and one whose scan starts at the rune after the NUL, so that everything becomes frontmatter |
| SplitterLaws.ClosingIsEarliest | document/parser_frontmatter.go:20-41 | what the search loop finds is the earliest closing delimiter |
| SplitterLaws.OpeningRejectedOnlyAtNul | document/parser_frontmatter.go:13-18 | the opening delimiter is rejected exactly when a NUL follows it |
| SplitterLaws.EveryRuneIsAccountedFor | document/parser.go:17-38 | spans in bounds, ordered and disjoint, content a suffix; dropped is only CR and LF after frontmatter, or only whitespace and byte order marks without |
| SplitterLaws.CountsCompare | document/document.go:239-246 | CRLF is detected exactly when every LF follows a CR |
| SplitterLaws.LineBreakDetected | document/document.go:235-246 | LF is detected exactly if some LF stands alone, CRLF in every other text |
| SplitterLaws.RoundTripDecided | document/editor/editor.go:160-187 | for every frontmatter text, emitted by the splitter or marshalled, and every body, splitting what Serialize joins gives both back (the body without leading line breaks) if and only if the text with its two line breaks alone is split as frontmatter |
| SplitterLaws.CompleteSurvives | document/editor/editor.go:160-187 | for text without NUL this is so if and only if the text is closed: by its earliest closing delimiter, or by the brace at which the scan stops |
| SplitterLaws.SplitUndoesJoin | document/editor/editor.go:168-174 | whatever the splitter has emitted as frontmatter, from a source whose JSON scan starts clear of NUL, comes back with every body |
| SplitterLaws.SplitsAgain | document/parser.go:138-214 | two texts that begin with the same frontmatter, and look the same to the lookahead, are both split there |
| SplitterLaws.EnterAgain | document/parser.go:146-197 | finding where frontmatter starts depends on no rune past its end, but for what the lookahead sees there |
| SplitterLaws.ScanSeesOnlyThePrefix | document/parser_frontmatter.go:46-85 | where the scanner stops depends on no rune past that point |
| SplitterLaws.NulFreeStartsClear | document/parser.go:154-167 | a source without NUL meets the condition of the round trip |
| SplitterLaws.NulBreaksTheRoundTrip | document/parser.go:154-167 | a source with a NUL in the lookahead whose frontmatter comes back with no body at all |
| SectionLaws.ScanIsBalance | document/parser_frontmatter.go:46-85 | from a brace on, the scanner stops at the earliest end where the braces outside strings and escapes balance, and fails exactly if they never do; for any text, JSON or not |
| SectionLaws.DelimitedSections | document/parser.go:17-38 | a document that opens with a delimiter is the error exactly if no line starts with a closing one, and otherwise cut behind the first; the content starts after the line breaks there, with its offset |
| SectionLaws.JsonSections | document/parser.go:17-38 | one that opens with a brace is the error exactly if the braces never balance, and otherwise cut where they do |
| SectionLaws.ContentSections | document/parser.go:17-38 | any other document is content from its first text on, with that offset |
| SectionLaws.CrashedSections | document/parser.go:17-38 | parsing the sections crashes on exactly the documents that crash the splitter |
| JsonFrontmatter.ScannerStopsAtClosingBrace | document/parser_frontmatter.go:46-85 | for every object text of RFC 8259, sections 2, 4, 5 and 7, and every following text the scanner stops right after the closing brace |
| JsonFrontmatter.PassStr | document/parser_frontmatter.go:59-73 | strings with braces, escaped quotes and escaped backslashes leave the level alone |
| JsonFrontmatter.PassValue | document/parser_frontmatter.go:52-78 | every value inside an object is passed over without stopping |
| JsonFrontmatter.ObjectIsTheFrontmatter | document/parser.go:178-188 | a document that opens with an object has it as frontmatter if and only if no NUL is among the first four runes from there |
| LruCache.Cache.AddEntryUnsafe | internal/lru/cache.go:31-41 | evicts the back when full, then pushes to the front |
| LruCache.Cache.GetById | internal/lru/cache.go:86-99 | returns the first entry with the id and moves it to the front; a miss changes nothing |
| LruCache.Cache.DeleteById | internal/lru/cache.go:106-118 | removes the first element with the id and says whether there was one |
| LruCache.Cache.Newest | internal/lru/cache.go:120-131 | the entry at the front, if any |
| LruCache.Cache.MostRecentOrCreate | internal/lru/cache.go:133-150 | the front without touching it, or else the generated entry, which is then the only one |
| LruCache.Cache.List | internal/lru/cache.go:152-162 | the entries from back to front |
| LruRetention.NothingVanishes | internal/lru/cache.go:31-118 | in every run whatever was added is in the cache, or was evicted, or was deleted |
| LruRetention.EvictsOnlyWhenFull | internal/lru/cache.go:31-34 | an operation evicts only if the list then holds as many elements as the capacity allows |
| LruRetention.StepSize | internal/lru/cache.go:31-118 | adding grows the list by one up to the capacity, a lookup keeps its length, a deletion takes one away if it finds the id |
| LruRetention.EvictedAfterEnough | internal/lru/cache.go:31-48 | in every run an element is evicted only after as many others as fit the cache have been touched since its last touch |
| LruLaws.Inclusion | internal/lru/cache.go:31-58 | the same operations on a smaller and a larger cache: the smaller list is a subsequence of the larger one and its hits are hits there with the same entry, also with repeated ids and any capacity |
| LruLaws.PushIncluded | internal/lru/cache.go:31-48 | when the larger cache must evict so must the smaller, and nothing the smaller keeps is lost by the larger |
| LruLaws.SizeIsBounded | internal/lru/cache.go:31-48 | the list never exceeds the capacity, or one element for a capacity below one |
| LruLaws.OrderedByRecency | internal/lru/cache.go:43-48 | in every run the list is strictly ordered by last touch, and everything ever evicted was last touched before everything present |
| LruLaws.NewestIsLastTouched | internal/lru/cache.go:120-131 | the newest entry is the one touched last |
| LruLaws.ReversedAt | internal/lru/cache.go:152-162 | List turns the order around, so it ends with the newest |
| EnvTransport.CipherReader.XorKeyStream | command/env_crypto.go:29-36 | the caller's buffer is transformed in place and the stream offset advances by as much |
| EnvTransport.CipherReader.Read | command/env_crypto.go:55-62 | delivers the next bytes of the transformed stream; reports the end exactly when nothing is left or the buffer has no room |
| EnvTransport.CipherReader.ReadAll | command/env_crypto.go:29-36 | copying with buffers of any size yields the whole transformed stream |
| EnvTransport.XorTwice | command/env_crypto.go:55-62 | the same keystream undoes itself |
| EnvTransport.Scanner.Scan | command/env_collector.go:79-109 | incremental scanning hands out the first token of what is unread, whatever the read sizes, or stops at the limit |
| EnvTransport.ScanEnv | command/env_collector.go:79-93 | the result is a function of the whole stream: all tokens, or too long if one reaches the limit |
| EnvTransport.Transport | command/env_producer.go:52-54 | dump, encrypt, decrypt and scan with arbitrary read sizes at every stage is scanning the dump |
| EnvTransport.JoinRoundTrip | command/env_producer.go:52-54 | the tokens of the joined form are the entries if and only if none contains a NUL and the last is not empty |
| EnvTransport.TerminateRoundTrip | command/env_collector.go:37-43 | the tokens of the `env -0` form are the entries if and only if none contains a NUL |
| EnvTransport.ArrivesIntact | command/env_collector.go:79-109 | end to end, the list arrives if and only if it can be told apart and fits the limit |
| Attributes.ExtractAttributes | document/attributes.go:287-305 | the scan finds the text from the first brace that opens something to the first closing brace |
| Attributes.ParseRawAttributes | document/attributes.go:191-214 | the loop builds the map of the items, later ones winning, keyless ones skipped |
| Attributes.Parse | document/attributes.go:166-171 | extraction, trimming and splitting in sequence |
| Attributes.GetSortedKeys | document/attributes.go:216-240 | exactly the keys of the map, in order with `name` first, whatever order the map is visited in |
| Attributes.Write | document/attributes.go:173-189 | the output is the printed form for the keys in order |
| Attributes.PrintedIsUnique | document/attributes.go:216-240 | there is only one such output |
| ParseLaws.NameComesFirst | document/attributes.go:216-240 | what is printed starts with `name` if it is there, and all other keys ascend |
| ParseLaws.PrintedForms | document/attributes.go:173-189 | the exact text for no attributes and for one |
| ParseLaws.ExtractSpans | document/attributes.go:287-305 | the extracted text runs from the first opening brace, if that is not closed at once, to the first closing one; otherwise it is empty |
| ParseLaws.NothingUnclosed | document/attributes.go:300-304 | without a closing brace nothing is extracted |
| ParseLaws.TrimTakesBraces | document/attributes.go:166-171 | trimming takes all braces at both ends and nothing else |
| ParseLaws.FieldsRejoin | document/attributes.go:191-194 | the items, joined by spaces, are the text, and none contains a space |
| ParseLaws.ItemIsKeyAndValue | document/attributes.go:198-210 | an item is key and value around its first equals sign, or a key with an empty value |
| ParseLaws.LastItemWins | document/attributes.go:196-211 | for any items, a key is present exactly if it is not empty and some item has it, with the value of the last one |
| Text.LessAtFirstDifference | document/attributes.go:236-236 | the order of keys: at the first difference the smaller character, or the end, comes first |
| AttributeLaws.ExtractIsIdempotent | document/attributes.go:287-305 | extracting from what was extracted changes nothing |
| AttributeLaws.RoundTrip | document/attributes.go:166-240 | parsing the printed form, also behind any brace-free text, gives the map back if and only if the format can express it |
| AttributeLaws.ParsedIsPrintable | document/attributes.go:191-214 | whatever is parsed from any text can be printed |
| DocumentTree.CollectCodeBlocks | document/node.go:111-134 | the recursion that appends to a shared result yields the non-ignored code blocks in pre-order |
| DocumentTree.IgnoredByAttributes | document/block.go:129-152 | for every value of `transform` and `ignore` and every language, whether a block is ignored |
| DocumentTree.PostOrderIsBottomUp | document/node.go:136-149 | the order of the search: a node after everything below it, the children from first to last |
| DocumentTree.FindNode | document/node.go:136-149 | the first node in post-order that satisfies the predicate, or none if there is none |
| Cells.ToCells | document/editor/cell.go:117-267 | the recursion that appends to a shared slice yields the cells described by structure |
| Division.CellsFollowMarkdown | document/editor/cell.go:117-267 | for every document the cells, with kind, block and prefix, are those that the Markdown says: a quote or list without code is one cell, in a list with code each item without code is one, everything else is divided |
| Cells.BuildShaped | document/document.go:163-197 | built trees have childless leaves, and items exactly below lists |
| Cells.NoCodeNothingCollected | document/editor/cell.go:136-172 | a subtree pruned for lack of code contributes no collected block |
| Cells.CodeCellsAreCollectedBlocks | document/editor/cell.go:122-219 | for every document the code cells are, in order, exactly the blocks that CollectCodeBlocks returns |
| Cells.CellsConserveContent | document/editor/cell.go:132-265 | for every document each leaf block is covered by exactly one cell, in reading order |
| Cells.StrayItemIsLost | document/editor/cell.go:132-174 | a list item outside a list would lose its code, so the shape is needed |
| Cells.ItemMarker | document/editor/cell.go:243-258 | walking back over the preceding siblings counts the start number up by their count; an unordered list has its bullet |
| Cells.MarkersAreShown | document/editor/cell.go:117-267 | for every document, the leaves read cell by cell with the prefix of their cell are the leaves of the Markdown in reading order, where exactly a paragraph that opens an item with code has a prefix: the bullet, or the start number plus the item's position |
| Cells.BuildHasCode | document/editor/cell.go:136-172 | the search for a code block in a built subtree finds one if and only if the Markdown below has one |
| EnvStore.EnvStoreMap.Set | session/env_store_map.go:42-50 | stores unless key and value together are too large |
| EnvStore.EnvStoreMap.Merge | session/env_store_map.go:25-33 | entries are set one by one up to the first that is too large |
| EnvStore.MergeStopsAtFirst | session/env_store_map.go:25-33 | a merge that fails has set the entries before the first too large one, and no others |
| EnvStore.SplitsAtFirst | session/env_store.go:26-36 | an entry splits at its first equals sign; without one it is a key with an empty value |
| EnvStore.DiffPerKey | session/env_store_map.go:71-95 | key by key, which of the three lists of the difference it is in |
| EnvStore.MergeSucceeds | session/env_store_map.go:25-33 | merging succeeds if and only if every entry fits |
| EnvStore.LastEntryWins | session/env_store_map.go:25-33 | the last entry for a key decides |
| EnvStore.SplitAssign | session/env_store.go:26-36 | splitting undoes assigning for keys without `=` |
| EnvStore.DiffEnvStores | session/env_store_map.go:71-95 | the two loops list exactly the new or changed assignments, the unchanged and the deleted keys, in some order |
| EnvStore.DiffEnvs | command/env_collector.go:62-77 | the difference of the two environments, or an error if one has a too large entry |
| EnvStore.CollectEnv | command/command_inline_shell.go:115-131 | the session is patched with the difference, independently of its order, or untouched on error |
| EnvStore.MergeAssigns | command/command_inline_shell.go:125-128 | setting the difference can never hit the size limit |
| EnvStore.PatchPerKey | command/command_inline_shell.go:115-131 | each key the command changed has its final state, every other key the state it had in the session |
| EnvStore.PatchReachesFinal | command/command_inline_shell.go:115-131 | the session ends equal to the final environment if and only if it agreed with it on every key the command left alone; in particular if it equalled the initial one |
| OutputCapture.TailCapWriter.Write | runnerv2service/tail_writer.go:15-29 | all of p is accepted and the last characters up to the cap are kept |
| OutputCapture.LastNIsSuffix | runnerv2service/tail_writer.go:20-27 | what is kept is a suffix, of the length of the cap or of everything |
| OutputCapture.OnlyNulIsDropped | runnerv2service/execution.go:106-106 | sanitizing drops exactly the NUL bytes and keeps the others in order |
| OutputCapture.NamingIsTheExpression | runnerv2service/execution.go:24-28 | a name matches exactly if it falls into the pieces of the regular expression |
| OutputCapture.TailOfTail | runnerv2service/tail_writer.go:24-27 | trimming after each write keeps the tail of the whole |
| OutputCapture.StoreOutputInEnv | runnerv2service/execution.go:105-117 | the NUL-free output is stored under `__` and under a well-formed known name, each if it fits |
| OutputCapture.CaptureOutput | runnerv2service/execution.go:119-125 | for every way of cutting the output the last bytes up to the cap, without NUL, are always stored under `__` and read back unchanged; under a well-formed known name they are stored if and only if both fit together; every other key keeps its value |
| ResultPath.ResultPathWriter.Write | internal/harbor/eval_result.go:30-49 | with at most one line in memory the writer keeps representing the stream it has forwarded |
| ResultPath.ResultPathWriter.AppendLine | internal/harbor/eval_result.go:66-76 | a line that grows too long piece by piece is given up exactly when the whole is too long |
| ResultPath.ResultPathWriter.RecordLine | internal/harbor/eval_result.go:78-88 | a line that reports a path replaces the one seen before |
| ResultPath.ResultPathWriter.Finish | internal/harbor/eval_result.go:51-58 | the answer for the whole stream, counting an unfinished last line; asking again gives the same answer, and the writer stays usable |
| ResultPath.Capture | internal/harbor/eval_result.go:30-58 | for every way of cutting the stream and every short write the answer is a function of the forwarded text |
| ResultPath.ReportsWhatFollows | internal/harbor/eval_result.go:78-88 | the path is what follows the first marker in the stripped line, without the marker, trimmed |
| ResultPath.ReportsNothing | internal/harbor/eval_result.go:82-86 | a line without the marker reports nothing |
| ResultPath.StreamReports | internal/harbor/eval_result.go:30-58 | for every stream, the path behind the marker of the last line of at most 64 KiB that reports one |
| ResultPath.LastReportWins | internal/harbor/eval_result.go:78-88 | the answer comes from the last line of at most 64 KiB that reports a path |
| PromoteJob.LatestPromoteJob | internal/harbor/eval_promote_job.go:124-177 | nothing exactly if no job is eligible; otherwise an eligible job newer, by time and then name, than all other eligible ones |
| PromoteJob.ComparisonsAgree | internal/harbor/eval_promote_job.go:164-175 | the sort comparison and `isPromoteJobNewer` are the same lexicographic order; their checks for the zero time change nothing |
| PromoteJob.NewerPromotableJobWarning | internal/harbor/eval_promote_job.go:192-232 | warns if and only if there is a newer job for the dataset and none that passes the policy |
| PromoteJob.WarningForLatest | internal/harbor/eval_promote_job.go:192-232 | for the latest job the warning appears exactly when some newer job fails the policy: the silent exit cannot be taken |
| PromotePolicy.PromotableUnlessReason | internal/harbor/eval_promote_job.go:179-190 | a job is promotable exactly if none of nine reasons speaks against it |
| PromotePolicy.EligibleWithoutReason | internal/harbor/eval_promote_job.go:130-149 | the eligible jobs are the readable directories for the dataset against which no reason speaks |
| PromotePolicy.LatestIsNewest | internal/harbor/eval_promote_job.go:164-177 | no eligible job has a later timestamp than the pick, and none with the same timestamp a greater name |
| PromotePolicy.TimestampThatCounts | internal/harbor/eval_promote_job.go:404-412 | the finishing time counts, then the last update, then the start |
| PromotePolicy.OracleByAgents | internal/harbor/eval_promote_job.go:293-321 | if agents are named, a job is oracle-only exactly if all named ones are the oracle, by name or else by import path |
| PromotePolicy.OracleByEvals | internal/harbor/eval_promote_job.go:304-321 | otherwise exactly if some eval key names an agent and all that do name the oracle |
| PromotePolicy.BeforeSeparatorCuts | internal/harbor/eval_promote_job.go:306-306 | the agent of an eval key is what stands before the first double underscore, or all of it |
| Text.TrimSpaceTrims | internal/harbor/eval_promote_job.go:316-316 | trimming takes all white space at both ends and nothing else |
| PromoteJob.LatestIsUnique | internal/harbor/eval_promote_job.go:164-177 | the pick does not depend on the directory order |
| PromoteJob.LooserPolicyPicksNoOlder | internal/harbor/eval_promote_job.go:119-122 | allowing more jobs never picks an older one |

## Left out

- RingBuffer.RingBuffer.Read: the wait loop is cut at `cond.Wait`; waiting and being woken are modelled in `RingProtocol`.
- RingBuffer.RingBuffer.Write: likewise; a caller resumes with the bytes that are left.
- RingProtocol.SchedulesEnd: bounds the moves of the calls under way, so it needs no fairness assumption, but it does not say how long a call waits while new calls keep arriving.
- LruRetention.EvictedAfterEnough: assumes that no element is added twice, like `OrderedByRecency`.
- LruLaws.OrderedByRecency: assumes that no element is added twice, as the order of two copies of one element has no meaning.
- Cells.CellsConserveContent: a cell is identified with the blocks whose rendered text it shows; the rendering is library code.
- ItemParser.ItemParser.Run: where backing up ends inside a rune the outcome is `Astray`, and the model promises nothing more. The source reads on there, takes what is left of the rune for replacement runes and backs up three bytes for each; it may emit spans that cut a rune, or panic at a negative position, as on `" \u65E5x\0"`. That takes a NUL next to a rune of several bytes (`StraysOnlyNearNul`).
- ItemParser.ParseSections: likewise, with the result `Strayed`.
- SplitterLaws.RoundTripDecided: where splitting goes astray, both sides of the equivalence are false in the model. The two texts agree on the frontmatter and two more runes, which is all that deciding where to start looks at, so the source, too, finds the same frontmatter in both or in neither.
- LruCache.Cache.List: entries are values, so sharing of cached objects is not captured; locking is one critical section per operation.
- The algorithms of `slices.SortFunc` and `sort.Slice`: an insertion sort stands in (`Sorting.dfy`), for any strict order.
- Source text that is not valid UTF-8: texts are given as runes, so malformed sequences are not modelled.
- The non-blocking `read` of the ring buffer, which serves its tests.
- The list operations `InsertAt` and `Remove` of tree nodes; nodes are values here, so parent pointers and sharing are not captured.
- Metadata that `toCells` writes into the attribute map of a block, and the text ranges of cells.
- Serializing cells back to Markdown, and the number of trailing line breaks `Serialize` restores.
- The JSON form of attributes, frontmatter decoding, Markdown parsing and rendering, ANSI stripping: library code. ANSI stripping is an arbitrary function.
- The AES block function: the keystream is an arbitrary function of the offset, which covers counter mode (section 6.5 of NIST SP 800-38A).
- Reading job files, matching datasets, and the symbolic links behind directory names: parameters of the model.
- bufio.Scanner beyond its use here: buffer growth is reduced to the limit it enforces.
- Processes, terminals, network services, and the external Owl store.
