# An eBPF profiling agent, verified

A Dafny model of the algorithmic parts of the profiling agent, with proofs of what they promise. Each
module follows one component. Loops and objects that the program updates in place are methods and
classes here, proved against functions; what the component is for is then proved of those functions.

| files | component |
| --- | --- |
| `Words`, `Bytes`, `Wrappers` | 64-bit words as integers modulo 2^64, little-endian numbers, optional values |
| `Expressions`, `Simplify`, `Canonical`, `Algebra`, `Matching` | the symbolic algebra: its meaning, the simplifying constructors, the normal form they keep and the laws they obey, the pattern matcher |
| `X86`, `Interpreter` | a reference machine for the handled instructions, and the symbolic interpreter that simulates it |
| `Lpm`, `BitTricks` | decomposition of address ranges into prefixes |
| `ProcessTable`, `ProcessManager` | longest-prefix lookup over the table shared with the kernel, and the state machine that keeps it in step with the mappings of processes |
| `Fingerprint`, `Compression`, `TraceOutput`, `StackProtocol` | the fingerprint of stacks, the events that replace repeated stacks and the loop that reads them, what it emits, and the protocol of several CPUs, the ring and the reader |
| `BufReader`, `ElfNotes` | the buffered reader as a view of a plain byte sequence, and the ELF note parser on top of it |
| `FrameLabels`, `Protobuf`, `Pprof`, `PprofBuilder`, `PprofReport` | the text of a frame and its parser, the wire format, a decoder for profiles, the builder that writes them, and the report of everything counted |
| `ProcessContext` | the seqlock reader of another process's memory |
| `ReadAtBuf` | cached random-access reads with recycled buffers |
| `ElfMemory`, `ElfHash`, `SysvHash`, `ElfSymbols`, `ElfLookup`, `ElfExample` | reads from the segments of an ELF file, symbol lookup through its hash tables, and two tables with their answers |
| `KernelSymbols`, `KernelFrames`, `FrameCache` | kernel and BPF symbol tables, their generations, and the frame cache keyed by them |
| `Flamegraph`, `FlameLayout` | the weighted prefix tree of stacks and its layout |

Where a promise does not hold, the code is modelled as it is. The lemmas named here say, for all
inputs, exactly when the promise is kept; most come with an input or a run that breaks it:

- `CalculatePrefixList` on a range that contains some address 2^64 - 2^j never returns, because its
  counter wraps to zero; on every other range it is exact (`Lpm.NeverReturns`, `Lpm.BlocksTile`).
- Absolute addresses from 2^31 up to 2^32 are taken for negative displacements. A load from an absolute
  address is simulated from every state exactly if its address is not one of those
  (`Interpreter.AbsoluteAddress`, `Interpreter.AbsoluteLoadIff`).
- Sign-extending moves are exact exactly when the sign bit is clear (`Interpreter.SignLost`,
  `Interpreter.SignExtendingMoveExact`), 8/16-bit writes to the mapped registers exactly when the upper
  bits were (`Interpreter.UpperBitsLost`, `Interpreter.NarrowWriteExact`). A write to AH, BH, CH or DH
  is lost, which is exact only if it changes nothing (`Interpreter.HighByteWriteExact`).
- The matcher lets a capture that a pattern uses twice overwrite itself (`Matching.RepeatedCapture`).
  One value for each capture fits whatever the pattern accepts, exactly if no capture is used twice
  (`Matching.LinearIff`).
- The matcher ignores the width of memory reads (`Matching.WidthsIgnored`). Every match keeps the value
  exactly in the environments that ignore it too (`Matching.WidthBlindIff`), and two reads of one address
  agree in all environments exactly if they have one width (`Matching.ReadsAgreeIff`). For a single
  match, paired widths that agree are sufficient (`Matching.MatchesEval`) and not necessary
  (`Matching.WidthHarmless`).
- The comments of the event monitor say that an event never overtakes the full record of its stack.
  The kernel side registers the fingerprint before it sends the record, so it can; the folded count
  then stays in the cached trace and is counted again (`StackProtocol.OvertakenEvent` is such a run).
  In every run the traces emitted are the samples read exactly if each event was read after a full
  record of its stack (`StackProtocol.Lossless`). The counts of a stack are right exactly if no event
  of it came before its first full record, or none between that and the next one that was cached
  (`StackProtocol.RunCounts`).
- A note parser that finds bytes behind the last complete note may take them for one more note: a
  partial header is completed with bytes of the note before (`ElfNotes.TruncatedHeader`), and a
  description too long for the buffer is handed over although it is cut off
  (`ElfNotes.CutDescription`). `ElfNotes.MoreThanThere` says for every input when this happens.
- `SearchSlice` documents an absolute position; it returns one relative to the start of the window
  (`BufReader.FoundRelative`), which is absolute exactly for windows at zero (`BufReader.FoundAbsolute`).
- The process-context header is judged before the timestamp is read again, so an update in between
  can make a valid context look invalid, without a retry (`ProcessContext.TornHeader`). A valid and
  newer context is called invalid exactly if its header was copied wrong or something could not be
  read, and the header is copied wrong only across an update (`ProcessContext.NewerJudged`,
  `ProcessContext.CopiedWrong`).
- A GNU hash header that names buckets but, as far as its segment reaches, no Bloom filter is refused
  once and divides by zero the next time (`ElfLookup.CrashIff`); so do a header without filter
  (`ElfLookup.NoFilter`) and a good one that runs over into an adjoining segment (`ElfLookup.SplitHeader`).
  A System V header that is cut off passes for read the next time, and then has no symbols
  (`ElfLookup.CutSysvHeader`, `ElfLookup.SplitSysvHeader`).
- On some System V tables a lookup never ends (`ElfSymbols.CyclicTable`); it does not exactly if the
  chain comes back to a symbol before it reaches its end, a match or an unreadable word
  (`ElfSymbols.NeverEndsIff`).
- When a BPF program is loaded over the range of a module, frames cached for the module are still
  served (`FrameCache.DisputedFrame`), and only then is a cached frame not the fresh one
  (`FrameCache.ProbeExact`).
- The text of a frame is read back as the frame that was shown, exactly if it is legible
  (`FrameLabels.LabelParsesIff`). A frame without a name that has a file is not: its whole text becomes the
  name (`FrameLabels.AddressWithFile`). Nor is one whose file contains a blank and a parenthesis.
- A label that contains the separator does not come back out of its key (`Flamegraph.LabelSplit`), all
  others do (`Flamegraph.SplitJoin`); the paths drawn are exactly those of the tree that do not end in a frame
  named like the root (`FlameLayout.LayoutTree`).

## Model

| member | source | states |
|---|---|---|
| Simplify.Add | asm/expression/add.go:6-36 | the in-place loops compute the specified sum: nested sums spliced in, constants folded, the constant last |
| Simplify.AddedEval | asm/expression/add.go:6-36 | the simplified sum evaluates, in every environment, to the sum of its arguments modulo 2^64 |
| Simplify.Multiply | asm/expression/mul.go:6-43 | the loops and the recursive distribution compute the specified product and terminate |
| Simplify.DistributionShrinks | asm/expression/mul.go:28-40 | each product formed while distributing over a sum has smaller total size: the mutual recursion ends |
| Simplify.MultipliedEval | asm/expression/mul.go:6-43 | the simplified product evaluates to the product of its arguments modulo 2^64 |
| Simplify.ZeroExtendEval | asm/expression/extend.go:24-52 | merging and dropping of nested extensions keeps the value: it is the argument's low bits |
| Canonical.AddedNormal | asm/expression/add.go:6-36 | sums of normal expressions are normal: at least two operands, no sum in a sum, at most one constant, not zero and last |
| Canonical.MultipliedNormal | asm/expression/mul.go:6-43 | products of normal expressions are normal, through distribution too; a product of two does not begin with a sum |
| Canonical.AddNested | asm/expression/add.go:9-24 | adding an already simplified sum gives the same expression as adding its terms one by one |
| Algebra.SumWithConstant | asm/expression/add.go:6-36 | terms followed by a constant: the constant alone, the terms without it if it is zero, and otherwise their sum with it last |
| Algebra.SumSpliced | asm/expression/add.go:9-24 | a sum among the arguments may be written out, wherever it stands |
| Algebra.SumConstantLast | asm/expression/add.go:9-24 | a constant may stand anywhere among the arguments |
| Algebra.SumConstantsFold | asm/expression/add.go:9-24 | two constants are one, their sum modulo 2^64 |
| Algebra.ProductWithConstant | asm/expression/mul.go:6-27 | factors followed by a constant: zero, the factors without it if it is one, and otherwise their product with it last |
| Algebra.ProductConstantLast | asm/expression/mul.go:6-27 | a constant may stand anywhere among the arguments |
| Algebra.ProductConstantsFold | asm/expression/mul.go:6-27 | two constants are one, their product modulo 2^64, unless it is zero and neither of them |
| Algebra.ProductDistributes | asm/expression/mul.go:28-40 | a sum times a factor other than zero and one is the sum of the products |
| Matching.SortByRank | asm/expression/expression.go:27-34 | the sort of a copy gives some rearrangement in rank order, whatever the order among equals |
| Matching.Matcher.Match | asm/expression/op.go:30-41 | if it returns true, pattern and expression match up to reordering, for patterns with no repeated capture with the values written into the captures; it does return true where operands are told apart by how they are built, and whenever every order of operands of equal rank matches |
| Matching.Matcher.MatchOperands | asm/expression/expression.go:27-47 | the same for operand lists matched after sorting both |
| Matching.MatchesEval | asm/expression/expression.go:27-47 | what matches has the pattern's value with the captures replaced, if the reads that are paired agree in width or the environment reads alike at all widths |
| Matching.MatchesEvalUniform | asm/expression/mem.go:47-57 | the same in every environment, if pattern and expression read memory at one width |
| Matching.WidthsIgnored | asm/expression/mem.go:47-57 | a match between reads of different widths whose values differ |
| Matching.WidthBlindIff | asm/expression/mem.go:47-57 | every match keeps the value in an environment exactly if that environment ignores widths |
| Matching.ReadsAgreeIff | asm/expression/mem.go:47-57 | reads of one address have the same value in every environment exactly if they have the same width |
| Matching.Aligned | asm/expression/expression.go:65-80 | if no two operands are built alike, the sorted lists pair them up in the only possible way |
| Matching.RepeatedCapture | asm/expression/imm.go:33-43 | a pattern that uses a capture twice accepts an expression that no value of the capture fits |
| Matching.LinearIff | asm/expression/imm.go:33-43 | for every pattern: whatever it accepts fits some one value of each capture, exactly if it uses no capture twice |
| Interpreter.Interpreter.Step | asm/amd/interpreter.go:67-170 | one instruction: end of code, undecodable, or the specified change of registers, program counter and remaining code; `EveryStep` says what that change is |
| Interpreter.EveryStep | asm/amd/interpreter.go:67-170 | for every instruction and every state: one that is not executed leaves all registers but the instruction pointer as they are, expression by expression; an executed one changes its destination alone, which then denotes the meant value cut to its width; the instruction pointer moves behind the instruction |
| Interpreter.EndbrSkipped | asm/amd/insn.go:12-25 | code that begins with the four bytes of endbr64 gives a no-op of four bytes; any other code goes to the decoder |
| Interpreter.Interpreter.LoopWithBreak | asm/amd/interpreter.go:53-64 | it runs the straight-line decoding of the code to its end, a decoding error, or the first instruction the callback accepts, and returns the last instruction |
| Interpreter.Interpreter.AddressOf | asm/amd/interpreter.go:183-200 | the address expression of a memory operand |
| Interpreter.StepSimulates | asm/amd/interpreter.go:67-170 | after a handled instruction the symbolic registers evaluate to the machine's registers, instruction pointer included |
| Interpreter.RunSimulates | asm/amd/interpreter.go:53-170 | the same after every straight-line run of handled instructions |
| Interpreter.FreshRunSimulates | asm/amd/interpreter.go:202-206 | from a fresh interpreter, for every initial machine state and all registers, the instruction pointer included |
| Interpreter.SetEval | asm/amd/regs_state.go:210-218 | a register write, zero-extended to the register's width, evaluates to the processor's write |
| Interpreter.GetEval | asm/amd/regs_state.go:220-228 | a sub-register read evaluates to the register's low bits |
| Interpreter.DisplacementRecovered | asm/amd/interpreter.go:176-181 | every signed 32-bit displacement, stored as the decoder stores it, is recovered |
| Interpreter.AbsoluteAddress | asm/amd/interpreter.go:176-181 | an absolute address keeps its value exactly if it is below 2^31 or at least 2^32 |
| Interpreter.AbsoluteLoadExact | asm/amd/interpreter.go:112-181 | after a load from an absolute address the registers agree exactly if memory holds the same at the recovered and at the true address |
| Interpreter.AbsoluteLoadIff | asm/amd/interpreter.go:172-181 | such a load is simulated from every state exactly if its address is below 2^31 or at least 2^32 |
| Interpreter.SignExtendingMoveExact | asm/amd/interpreter.go:118-150 | sign-extending moves agree with the processor exactly when the source's sign bit is clear |
| Interpreter.NarrowWriteExact | asm/amd/regs_state.go:210-218 | 8/16-bit writes to mapped registers agree with the processor exactly when the upper bits were already zero |
| Interpreter.HighByteWriteExact | asm/amd/regs_state.go:205-218 | a write to AH, BH, CH or DH agrees with the processor exactly when the byte already had that value |
| Interpreter.SignLost | asm/amd/interpreter.go:118-150 | a state in which a sign-extending move goes wrong |
| Interpreter.UpperBitsLost | asm/amd/regs_state.go:210-218 | a state in which an 8-bit write goes wrong |
| Interpreter.RunNormal | asm/amd/interpreter.go:67-170 | every run, of any code, keeps all registers in normal form |
| BitTricks.RightmostSetBitValue | lpm/lpm.go:19-22 | x & -x on 64-bit vectors is the largest power of two that divides x |
| Lpm.CalculateRmb | lpm/lpm.go:96-107 | the inner loop ends at a nonzero block: the largest aligned one that fits |
| Lpm.CalculatePrefixList | lpm/lpm.go:71-92 | on every range without a wrapping point: an error if it is empty, else the prefixes of the greedy blocks; both passes agree on their number |
| Lpm.BlocksTile | lpm/lpm.go:71-107 | the blocks are aligned powers of two laid end to end from start to end |
| Lpm.TilesPartition | lpm/lpm.go:71-107 | an address is in the range exactly if one block contains it, and then only one does |
| Lpm.Minimal | lpm/lpm.go:71-107 | no set of aligned blocks that covers the range exactly has fewer members |
| Lpm.AtMost128 | lpm/lpm.go:71-107 | there are at most 128 blocks |
| Lpm.NeverReturns | lpm/lpm.go:78-82 | if the range holds an address 2^64 - 2^j, the counter stays below end for ever |
| ProcessTable.LookupAgrees | processmanager/processinfo.go:297-318 | longest-prefix lookup of a nonzero address finds the file of the mapping that contains it, with a bias that takes the address to its place in the file, and nothing if there is none |
| ProcessTable.PrefixSetMatches | processmanager/processinfo.go:297-318 | an address is in a mapping exactly if one of the mapping's prefixes matches it |
| ProcessManager.ProcessManager.ProcessNewMapping | processmanager/processinfo.go:297-318 | all prefixes of the mapping are in the table with its file and the difference of its address in memory and in the file; the result counts the new entries |
| ProcessManager.ProcessManager.ProcessRemovedMapping | processmanager/processinfo.go:321-339 | exactly the prefixes of the mapping are gone; the result counts them |
| ProcessManager.ProcessManager.DeletePidPageMappingInfo | processmanager/ebpf/ebpf.go:568-600 | the given prefixes are gone and the result is the number of entries that were there |
| ProcessManager.ProcessManager.GetPidInformation | processmanager/processinfo.go:121-142 | a new process gets its entry and its marker; a known one, exiting or not, is left alone |
| ProcessManager.ProcessManager.Compare | processmanager/processinfo.go:604-686 | the comparison of old and new mappings removes and adds exactly what differs |
| ProcessManager.ProcessManager.SynchronizeProcess | processmanager/processinfo.go:555-786 | keeps the invariant of all processes and the marker entry; afterwards the published mappings are the needed ones just listed, unless the process is exiting or could not be read |
| ProcessManager.ProcessManager.ProcessPIDExit | processmanager/processinfo.go:457-498 | the process loses all entries, stays known until its events are processed, and keeps the first exit time |
| ProcessManager.ProcessManager.ProcessedUntil | processmanager/processinfo.go:889-922 | exactly the exited processes whose time has come are forgotten |
| ProcessManager.ProcessManager.CleanupPIDs | processmanager/processinfo.go:817-836 | dead processes exit, the others keep their state |
| ProcessManager.TableAgrees | processmanager/processinfo.go:297-498 | in every state the invariant allows, lookup for a live process agrees with its published mappings: file, and place of the address in it |
| ProcessManager.SyncedLookup | processmanager/processinfo.go:604-786 | after a synchronisation with these lines, a lookup of a nonzero address finds the file and the place in it that the line holding the address stands for, and nothing exactly if no such line has a file that is known or an ELF file |
| ProcessManager.NoEntries | processmanager/processinfo.go:457-498 | in every such state an exiting or unknown process has no entry |
| Fingerprint.Fingerprint | internal/stackcompress/jhash.go:29-37 | the loop folds the words behind the skipped kernel frames |
| Fingerprint.FingerprintBytes | internal/stackcompress/jhash.go:39-54 | the loop folds the complete little-endian words of the bytes |
| Fingerprint.StepInjectiveInWord | internal/stackcompress/jhash.go:16-26 | with the state fixed, different words give different states |
| Fingerprint.StepInjectiveInState | internal/stackcompress/jhash.go:16-26 | with the word fixed, different states stay different |
| Fingerprint.OneWordApart | internal/stackcompress/jhash.go:16-37 | stacks of equal length that differ in exactly one word never collide |
| Fingerprint.BytesAgree | internal/stackcompress/jhash.go:29-54 | the bytes of a stack have the fingerprint of its words |
| Fingerprint.FpStepBits | internal/stackcompress/jhash.go:16-23 | the step bit by bit: exclusive or with the word times the first multiplier, a left turn by 31 bits, the second multiplier, exclusive or with itself moved right by 29 bits |
| Compression.EventRoundTrip | tracer/events.go:225-262 | every event is recognised and read back field by field |
| Compression.EventLayout | tracer/events.go:225-262 | where the fields of an event lie: magic, time, fingerprint, process, thread, CPU and count |
| Compression.TraceMonitor.HandleRecord | tracer/events.go:225-320 | the in-place update of cache, pending counts and output is the specified step for every record; `TraceOutput.Emitted` says what that step puts out |
| TraceOutput.Emitted | tracer/events.go:231-314 | for every sequence of records and every further one: what was emitted stays, and what is added is the full trace with its kernel and user frames, time and thread, or as many clones as the event counts of the full record cached last under its fingerprint, at the event's time and in its thread |
| StackProtocol.InvStep | support/ebpf/interpreter_dispatcher.ebpf.c:264-304 | looking up, registering, sending later, eviction and reading, by any CPUs in any order, keep every sample accounted for and user space in step with what it has read |
| StackProtocol.CacheIsAnnounced | tracer/events.go:231-314 | with at most 65536 stacks and no colliding ones, user space caches exactly the stacks it has read in full and emits one trace for every record but the overtaking events |
| StackProtocol.ExactIffOrderly | tracer/events.go:231-314 | every sample gets its own trace, with user frames and, if it was read in full, kernel frames, and no count is pending, exactly if every event comes after a full record of its stack |
| StackProtocol.Lossless | support/ebpf/interpreter_dispatcher.ebpf.c:264-386 | the same for what has been read in every run; all samples taken are sent or about to be sent; traces emitted and overtaking events make up the records read |
| StackProtocol.CountsExact | tracer/events.go:231-314 | the weight emitted and the count pending for a fingerprint are its samples plus the product of its events before its first full record and those between that and the next one cached |
| StackProtocol.CountsIff | tracer/events.go:231-314 | the counts of a fingerprint are right exactly if one of the two is zero |
| StackProtocol.RunCounts | support/ebpf/interpreter_dispatcher.ebpf.c:264-386 | the same in every run of kernel and reader |
| StackProtocol.PromptIsLossless | support/ebpf/interpreter_dispatcher.ebpf.c:300-386 | a run in which no CPU samples a stack that another has registered and not yet sent loses nothing |
| StackProtocol.OvertakenEvent | support/ebpf/interpreter_dispatcher.ebpf.c:300-386 | a run of the kernel and the reader in which an event is read before its full record and three samples count as four |
| Compression.Accounting | tracer/events.go:231-314 | for every sequence of records: weight emitted plus counts pending is weight sent plus the excess of cached folded counts |
| BufReader.Reader.Fill | libpf/pfbufio/reader.go:84-112 | a refill moves nothing of the stream; it fails exactly with a full buffer or at the window's end |
| BufReader.Reader.Read | libpf/pfbufio/reader.go:115-156 | the next bytes of the stream, fewer only at its end, through the buffer or past it |
| BufReader.Reader.ReadByte | libpf/pfbufio/reader.go:159-168 | the next byte, or end of file exactly at the end |
| BufReader.Reader.Discard | libpf/pfbufio/reader.go:171-187 | moves on by as many bytes as there are |
| BufReader.Reader.Peek | libpf/pfbufio/reader.go:190-205 | the next bytes without moving; an error exactly if they do not fit or are not there |
| BufReader.Reader.ReadN | libpf/pfbufio/reader.go:208-215 | the next n bytes or an error without them |
| BufReader.Reader.ReadSlice | libpf/pfbufio/reader.go:225-249 | the bytes up to and including the first delimiter, or what the specification of a slice read says at the end, when too long, or on an uncovered source |
| BufReader.Reader.SearchSlice | libpf/pfbufio/reader.go:285-308 | the first occurrence at or after the cursor, across refills; without one the stream is at its end |
| BufReader.FoundAbsolute | libpf/pfbufio/reader.go:283-297 | what is found lies at the window's start plus the result, so the result is an absolute offset exactly for windows at zero |
| BufReader.FoundExact | libpf/pfbufio/reader.go:285-308 | a search succeeds exactly if the pattern fits the buffer and occurs |
| BufReader.FoundRelative | libpf/pfbufio/reader.go:283-297 | a byte at offset 1 that is reported at 0 |
| ElfNotes.VisitNotes | libpf/pfelf/notes.go:42-100 | the loop makes the calls of the specified parser on the bytes of the stream |
| ElfNotes.ParseExact | libpf/pfelf/notes.go:42-105 | on every byte string: the calls are the complete notes in it, in order and up to the first rejected one, and one more exactly for bytes behind them that pass for a note |
| ElfNotes.MoreThanThere | libpf/pfelf/notes.go:46-92 | the visitor sees more notes than there are exactly if it accepts all of them and what follows is, within a covered window, a rest of a header that completes to empty sizes or the start of a description longer than the buffer |
| ElfNotes.NotesRoundTrip | libpf/pfelf/notes.go:42-105 | notes laid out with padding are visited in order with their names, types and descriptions, until the visitor stops, whether they fit the buffer or not |
| ElfNotes.NamespaceExact | libpf/pfelf/notes.go:57-72 | CORE, LINUX, GNU and Go have their name spaces, whatever the number of zeros behind them, and no other name has one |
| ElfNotes.TruncatedHeader | libpf/pfelf/notes.go:46-58 | four zero bytes behind a note make the visitor see it twice |
| ElfNotes.CutDescription | libpf/pfelf/notes.go:77-92 | four bytes of a description of 65540 make the visitor see 65540 |
| Protobuf.ProtoWriter.WriteVarint | internal/pprofout/pprofout.go:31-37 | the loop appends the base-128 encoding |
| Protobuf.ProtoWriter.PackedField | internal/pprofout/pprofout.go:64-85 | a packed field, left out when empty |
| Protobuf.MessageRoundTrip | internal/pprofout/pprofout.go:31-90 | decoding any written message gives its fields in order |
| Protobuf.PackedRoundTrip | internal/pprofout/pprofout.go:64-85 | decoding a packed field gives its numbers |
| Protobuf.KnownBytes | internal/pprofout/pprofout.go:31-62 | the two examples of the protocol buffers encoding guide have the bytes given there |
| FrameLabels.LabelParsesIff | internal/pprofout/pprofout.go:99-118 | the text of a frame is parsed to the frame it shows, exactly if the frame is legible |
| FrameLabels.LocatedParses | internal/pprofout/pprofout.go:107-114 | name (file:line), with any 64-bit line in decimal, gives name, file and line |
| FrameLabels.FileParses | internal/pprofout/pprofout.go:107-116 | name (file) gives name and file if no number follows the last colon |
| FrameLabels.BareParsed | internal/pprofout/pprofout.go:104-117 | an address, or a text without a parenthesised end, is the name alone |
| FrameLabels.AddressWithFile | reporter/local.go:54-68 | a frame without a name that has a file comes back as one long name |
| PprofBuilder.ParseAllAt | internal/pprofout/pprofout.go:202-205 | frame i of a sample is the parsed label counted from the leaf; `RenderedReadBack` says what it holds |
| PprofBuilder.RenderedReadBack | internal/pprofout/pprofout.go:198-212 | a legible frame of a recorded stack is shown to a reader of the profile at its place from the leaf, with its name, file and line |
| PprofBuilder.Builder.StringIndex | internal/pprofout/pprofout.go:149-157 | the string's position in a table that only grows; all that was written stays valid |
| PprofBuilder.Builder.FrameLocation | internal/pprofout/pprofout.go:161-194 | the number of the frame's location; function and location are written on first use |
| PprofBuilder.Builder.AddStack | internal/pprofout/pprofout.go:198-212 | the stack is recorded leaf to root with its count; an empty one or a count below one changes nothing |
| PprofBuilder.Builder.Write | internal/pprofout/pprofout.go:215-239 | the message body; a reader who decodes it finds the kind of values, time and duration, and following its references gets back every recorded stack |
| Pprof.ProfileRoundTrip | internal/pprofout/pprofout.go:149-239 | for all contents: locations, functions and strings resolve, string 0 is empty, and the stacks come back with name, file, positive line and count |
| Pprof.HeaderRoundTrip | internal/pprofout/pprofout.go:215-239 | a reader finds that the values count samples, and the time and duration that were given |
| PprofReport.WritePprof | reporter/pprof.go:18-25 | a reader of the report gets back one stack for every key, each once, with its count; together they count what was reported |
| ProcessContext.ReadOnce | processcontext/processcontext.go:102-146 | one attempt returns what the specification gives for the moments at which memory was read |
| ProcessContext.HeaderRoundTrip | processcontext/processcontext.go:68-185 | a header is read field by field, and is valid exactly for its signature, version 2 and a payload of 1 to 65536 bytes |
| ProcessContext.FirstJudged | processcontext/processcontext.go:101-115 | an attempt that goes no further than the first timestamp: it failed, an update is under way, or nothing is new |
| ProcessContext.Read | processcontext/processcontext.go:82-99 | at most the given number of tries, three if none is given, all but the last a concurrent update; a success is one publication that stood during the call and is newer than the last one known |
| ProcessContext.Stands | processcontext/processcontext.go:102-146 | between two sightings of one timestamp it stands at every moment |
| ProcessContext.OnceExact | processcontext/processcontext.go:102-146 | with the same timestamp at both ends an attempt succeeds exactly on a newer, valid publication, and returns it, however the reads of single bytes are spread |
| ProcessContext.OnceSound | processcontext/processcontext.go:102-146 | a success is one publication with that publication's timestamp, greater than the last |
| ProcessContext.NewerJudged | processcontext/processcontext.go:102-146 | a newer, valid publication is called invalid exactly if its header could not be copied or was copied wrong, the timestamp could not be read again, or, while it stood, the payload could not be read; returned exactly if all was read and it stood until the end; and a concurrent update otherwise |
| ProcessContext.CopiedWrong | processcontext/processcontext.go:117-121 | a valid header is copied wrong only if the publication was withdrawn before its last byte was copied |
| ProcessContext.InvalidMeansInvalid | processcontext/processcontext.go:117-143 | when every read worked, an invalid context is reported only of an invalid publication or of a header copied across an update |
| ProcessContext.TornHeader | processcontext/processcontext.go:116-121 | a run in which every publication is valid and the reader says invalid |
| ReadAtBuf.Reader.ReadAt | libpf/readatbuf/readatbuf.go:91-139 | the content at the offset, end of file only if there is less than asked for; large reads answer as the source and leave the cache alone; negative offsets fail |
| ReadAtBuf.Reader.GetOrReadPage | libpf/readatbuf/readatbuf.go:141-179 | the page of the content, in a buffer that nothing else uses: a hit reads nothing and leaves the cache alone, a miss reads once and stores the page, in the place of one other if the cache is full; one hit or one miss, and the evictions |
| ReadAtBuf.Reader.TakeBuffer | libpf/readatbuf/readatbuf.go:149-158 | the spare or a fresh buffer, never one that a cached page uses |
| ReadAtBuf.Reader.Evict | libpf/readatbuf/readatbuf.go:67-74 | the evicted page's buffer becomes the spare one and no cached page shares it |
| ReadAtBuf.Reader.InvalidateCache | libpf/readatbuf/readatbuf.go:80-83 | empty cache, zero statistics, and the next reads are as right as before |
| ReadAtBuf.Reader.Transparent | libpf/readatbuf/readatbuf.go:91-139 | over a source that does not fail, a cached read answers exactly as an uncached one |
| ElfHash.CalcGnuHash | libpf/pfelf/file.go:1101-1107 | the wrapping loop computes the name read as a number to base 33, behind the digit 5381, modulo 2^32 |
| SysvHash.CalcSysvHash | libpf/pfelf/file.go:1110-1117 | the loop computes the 32-bit hash of the ELF specification for every name |
| SysvHash.HashIsReference | libpf/pfelf/file.go:1110-1117 | clearing the top bits once at the end equals clearing them at every character |
| ElfSymbols.MatchIsName | libpf/pfelf/file.go:1071-1098 | comparing the mapped text with a name is comparing the symbol's string with it |
| ElfSymbols.GnuIsLinear | libpf/pfelf/file.go:1138-1180 | on every well-formed GNU table the lookup finds what searching all hashed symbols in order finds |
| ElfSymbols.SysvIsSearch | libpf/pfelf/file.go:1193-1210 | on every well-formed System V table the walk ends with a symbol of that name exactly if one is hashed |
| ElfSymbols.NeverEndsIff | libpf/pfelf/file.go:1202-1210 | the walk of a chain never ends exactly if the chain comes back to a symbol before zero, the end of the table, a match or an unreadable word |
| ElfSymbols.CyclicTable | libpf/pfelf/file.go:1193-1210 | a readable table on which the lookup of every name walks for ever |
| ElfLookup.File.LookupSymbol | libpf/pfelf/file.go:1119-1216 | header loading, both kinds of table and all errors, with the headers cached in place |
| ElfLookup.File.SearchBucket | libpf/pfelf/file.go:1160-1179 | the bucket loop is the specified walk and always ends, on malformed tables too |
| ElfLookup.LookupIsLinear | libpf/pfelf/file.go:1119-1180 | with or without a cached header, the lookup on a well-formed table is linear search |
| ElfExample.FindsInGnu | libpf/pfelf/file.go:1119-1180 | a file given byte by byte whose GNU table finds one name with its value and size, and refuses another by the filter |
| ElfExample.FindsInSysv | libpf/pfelf/file.go:1182-1216 | the same symbol through a System V table |
| ElfLookup.CrashIff | libpf/pfelf/file.go:1123-1143 | the second lookup divides by zero exactly if the header, as far as its segment reaches, has buckets and no Bloom filter; the first reports a read error if it is cut off and else corruption |
| ElfLookup.NoFilter | libpf/pfelf/file.go:1123-1143 | a header for which the answers are corruption and then a division by zero |
| ElfLookup.SplitHeader | libpf/pfelf/file.go:1053-1061 | a good header over two segments for which they are a read error and then a division by zero |
| ElfLookup.CutSysvHeader | libpf/pfelf/file.go:1184-1210 | a System V header cut off within or behind its first word: the first lookup is a read error, the second reports every name as not there whose bucket can be read, if the word is not zero |
| ElfLookup.SplitSysvHeader | libpf/pfelf/file.go:1184-1210 | such a header |
| KernelSymbols.BinarySearch | kallsyms/bpf.go:33-35 | where the key is or would be inserted |
| KernelSymbols.LookupBpf | kallsyms/bpf.go:29-53 | halving finds the symbol that covers the address, if there is one |
| KernelSymbols.AddBpf | kallsyms/bpf.go:81-107 | a copy with the symbol inserted in order, none if it is there under that name |
| KernelSymbols.RemoveBpf | kallsyms/bpf.go:110-131 | a copy without the first symbol at the address |
| KernelSymbols.Inserted | kallsyms/bpf.go:81-107 | inserting a symbol that overlaps none adds just its range to the lookup; removing it again gives the old table |
| KernelSymbols.Removed | kallsyms/bpf.go:110-131 | removing a symbol keeps the table in order and takes just its range out of the lookup |
| KernelFrames.AddedName | kallsyms/kallsyms.go:181-211 | a name is found where it was added, cut to 255 bytes, and no other name moves |
| KernelFrames.GetModuleByAddress | kallsyms/kallsyms.go:719-731 | halving finds the module the address lies in |
| KernelFrames.LookupSymbolByAddress | kallsyms/kallsyms.go:305-317 | halving finds the symbol with the greatest offset not above the address, and the distance from it |
| KernelFrames.FunctionMeans | kallsyms/kallsyms.go:305-317 | the function of an address is the stored name of the symbol with the greatest offset not above it, at the distance from it, and there is none exactly if there is no such symbol |
| KernelFrames.ResolveAddress | kallsyms/kallsyms.go:770-793 | BPF symbols first, then modules, with the generation of the table that answered |
| KernelFrames.SymbolizeKernelFrame | processmanager/kernelsymbolization.go:21-44 | the frame of a resolution, cacheable unless its module has no valid mapping; in a module it has the module's mapping, the distance from its start, and the name of the symbol with the greatest offset not above the address, if there is one |
| KernelFrames.ModuleFrameMeans | processmanager/kernelsymbolization.go:21-44 | the frame of an address in a module: distance, mapping and function name |
| KernelFrames.FreshMeans | kallsyms/kallsyms.go:770-793 | the frame of every address, by the tables and their symbols: the BPF symbol that covers it, else the module that holds it, else the address itself |
| KernelFrames.Symbolizer.PublishModules | kallsyms/kallsyms.go:538-543 | a new table under a generation that never named another, and all earlier tables keep theirs |
| KernelFrames.Symbolizer.PublishBpf | kallsyms/bpf_platform_linux.go:87-94 | the same for BPF tables |
| KernelFrames.Symbolizer.AddBPFSymbol | kallsyms/bpf.go:81-107 | after publishing, lookups find the new range and are otherwise unchanged; a symbol that is there already is left alone |
| KernelFrames.Symbolizer.RemoveBPFSymbol | kallsyms/bpf.go:110-131 | after publishing, the symbol's range is gone and lookups are otherwise unchanged |
| FrameCache.CacheSurvives | processmanager/manager.go:235-266 | publishing tables spoils no cached frame |
| FrameCache.ProbeExact | processmanager/manager.go:239-254 | a cached frame is the freshly resolved one exactly unless a module's frame is cached for an address a BPF program now covers |
| FrameCache.ProcessManager.KernelFrame | processmanager/manager.go:239-262 | one address: hit, miss and insertion, the frame fresh unless the address is disputed |
| FrameCache.ProcessManager.AppendKernelFrames | processmanager/manager.go:235-266 | for every history of tables and evictions, the appended frames are those of resolving each address afresh, where BPF and modules do not both claim it, and say what the symbols of the tables say; hits and misses count what the caches before each address held |
| FrameCache.HitsMean | processmanager/manager.go:239-252 | the hits are the addresses found in the cache they met, under the generation of one of the two tables |
| FrameCache.MissesMean | processmanager/manager.go:254-259 | the misses are the addresses not found there that lie in a BPF program or in a module with a mapping |
| FrameCache.DisputedFrame | processmanager/manager.go:241-248 | a disputed address for which the cache answers with the old frame |
| Flamegraph.LocalReporter.ReportTraceEvent | reporter/local.go:77-122 | the weight of the stack, on or off CPU, is added to its key, which is the text of its frames from root to leaf; Python-only filtering; empty stacks change nothing |
| Flamegraph.KeptAll | reporter/local.go:81-92 | without the filter every frame gives one label, the last frame first |
| Flamegraph.KeptParts | reporter/local.go:81-92 | with it, what is kept of two parts is what is kept of each, and of one frame its label if it is a Python frame |
| Flamegraph.OnCpuWeighs | reporter/local.go:112-118 | an on-CPU sample weighs one and what was folded into it |
| Flamegraph.EventCounts | reporter/local.go:119-121 | each event counts once: in the total, and under the paths its labels extend |
| Flamegraph.OffCpuWeighs | reporter/local.go:98-111 | an off-CPU sample weighs the number of whole sampling intervals it was blocked for, over the probability it was taken with, between one and the greatest 64-bit integer; longer ones weigh no less |
| Flamegraph.LabelSplit | reporter/local.go:96-97 | a label that comes back as two |
| Flamegraph.SplitJoin | reporter/local.go:96-97 | a key splits into the labels it was joined from exactly if none contains the separator |
| Flamegraph.LocalReporter.TotalSamples | reporter/pprof.go:73-79 | the sum over the map, in any order, is the weight of everything reported |
| Flamegraph.LocalReporter.BuildTree | reporter/local.go:170-186 | every node counts the weight of all stacks that extend its path; the root's children sum to the total; children never count more than their parent |
| Flamegraph.FoldCounts | reporter/local.go:174-184 | folding in a stack adds its weight to exactly the nodes on its path |
| FlameLayout.Dfs | reporter/local.go:239-252 | the layout of a subtree: inside its interval, rows without overlap, children inside parents and side by side without gaps, larger siblings first, every node but those named "root" once |
| FlameLayout.LayoutTree | reporter/local.go:222-252 | the whole picture: each rectangle as wide as the weight of the stacks that extend its path, all within the total, siblings side by side from where their parent starts; exactly the paths of the tree not ending in "root" are drawn, each once |

## Left out

- Simplify.ZeroExtend: the width of constants is handled as in the code; `ZeroExtend8` and `ZeroExtend32` only fix the width.
- Interpreter.StepSimulates: flags, stores and calls are not modelled; shifts by the operand width or more and all other opcodes leave the simulation.
- Interpreter.Interpreter.Step: the disassembler is a parameter that decodes at least one byte; the table of x86 register names is a number and a width.
- Matching.Matcher.Match: completeness is proved only where no two operands have equal rank; with equal ranks the unstable sort may miss a match.
- ProcessManager.ProcessManager.SynchronizeProcess: table updates succeed; the pass is one step, although the source gives up its lock while it reads the mappings; interpreters, reference counts, file identification and process metadata are outside, and mappings listed by the kernel do not overlap.
- ProcessTable.LookupAgrees: address zero is excluded because the marker entry of every process matches it.
- StackProtocol.Lossless: ring records are not dropped and samples are on-CPU; the window mode, in which the kernel counts repeated stacks in a map that a timer drains, is left out, and so are the timestamps that pace the monitor (`minKTime`, `oldKTime`).
- Matching.LinearIff: patterns have no more captures than there are 64-bit words.
- BufReader.Reader.Read: returns fresh bytes instead of filling the caller's slice; `WalkStrings` is left out.
- ElfNotes.VisitNotes: `getBuildIDFromNotesFile` and `ParseDebugLink` are not modelled.
- PprofBuilder.Builder.Write: compression, the clock and the file are outside; the time is a parameter.
- PprofReport.WritePprof: the order of keys is any order; the choice of file name and compression and the list of the heaviest stacks (`writeTopN`) are outside.
- ProcessContext.Read: addresses do not wrap; an aligned eight-byte read is one memory access; decoding the payload is a parameter; the publisher's discipline is an assumption about the other process.
- ReadAtBuf.Reader.ReadAt: which page the LRU evicts is left open; the content is shorter than 2^63 bytes.
- ElfLookup.File.LookupSymbol: the file is mapped, so names of any length can be read; addresses do not wrap; sparse holes that fault read as zeros.
- ElfSymbols.SysvIsSearch: which of several symbols of one name is found is their order in the chain.
- KernelFrames.Symbolizer.PublishBpf: tables hold symbols that do not overlap and have distinct addresses; with duplicates, exact and inexact searches pick different ones.
- KernelFrames.Symbolizer.PublishModules: parsing of /proc/kallsyms and sysfs is outside; a generation is not wrapped after 2^63 publications.
- FrameCache.ProcessManager.AppendKernelFrames: user frames share the cache in the program; their keys never equal those of kernel frames.
- Flamegraph.LocalReporter.BuildTree: the tree is a value, so updates through shared node pointers are not modelled; weights do not overflow 64 bits.
- Flamegraph.OffCpuWeighs: off-CPU weights are computed on real numbers; the source rounds them to double precision.
- FlameLayout.Dfs: scaling, the depth limit and the SVG text are left out.
- The sort of published mappings and `findMappingForTrace` (processmanager/processinfo.go:435-455, 848-887): the search skips an entry that starts at the address, and none of the results needs it.
- Loading of programs and maps, perf events, /proc and sysfs, metrics, logging and the command line are calls into the system.
- Python line tables, arm64 analysers and exception-frame readers have no reference in view to be checked against.
