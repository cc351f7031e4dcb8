# armrecomp and its runtime, modelled and proved in Dafny

This project models three parts of the vitarecomp repository and proves properties
of them.

**The DEFLATE/zlib decoder** (`tools/armrecomp/inflate.c`). `Bits`, `Huffman` and
`Deflate` say what the decoder computes on a bit stream; `Inflate` is the imperative
decoder (bit reader, output buffer, table building in arrays, nested loops), proved
equal to them. `Failures` says what a failing run reports. `Encoder` is RFC 1951 written
as a specification of what a compressor may produce. `RoundTrip` proves that decoding
inverts encoding, `Soundness` the converse, so that decoding succeeds *exactly* on
encodings. `Zlib` adds the RFC 1950 wrapper and what its checksum detects.

**The recompiler's control-flow core** (`emit.c`, `analyze.c`, `decode.c`, `module.c`).
`Code` has the decoded instruction record and the flow relation. `Discover`, with
`Bitmap` and `Shape`, is function discovery by nested worklists: what it decodes is
exactly the flow of the functions it finds. `Visited`, `Search` and `Collect` compute a
function's body as the set of reachable instructions, and `Limits` says when no limit
cuts it short. `Emit` is the printed C as statements (label, goto, conditional goto,
call, return, trap, straight-line code); `Simulate` says exactly on which instructions,
machines and states the printed statement is right; `Misprints` has concrete ones on
which it is not. `Module` proves that no name dangles, and `Runs` that the printed
module, with its calls and dispatches, simulates the decoded functions. `Decode` is the
control-flow half of the decoder, `Immediate` its constants, `Stubs` the import table,
and `Recompile` puts everything together from the bytes of a segment to the C of a
module.

**The runtime the generated code relies on** (`dispatch.c`, `recomp_rt.h`, `mem.c`,
`hle_libc.c`). `Dispatch` proves the merge and the search of the dispatch table against
how direct calls were bound. `Cpu` composes the flag helpers into multi-word arithmetic
and comparisons. `Memory`, `Stack` and `Heap` are byte memory, PUSH against POP, and the
guest heap over whole runs.

Methods follow the C code step by step and change the same state; each is proved against
a function or predicate of the old state, and the theorems are about those. Machine
words are integers with the wrap-around written out, except where only bits matter.
`dafny verify dfyconfig.toml` checks everything.

Findings, each proved in both directions:

- Conditions are dropped. A branch to an import stub is printed as an unconditional
  firmware call, because stubs are bound before the condition is looked at
  (`tools/armrecomp/emit.c:367-377`). An ARM record says that an instruction is
  conditional but not on what (`tools/armrecomp/decode.c:1046`), and the emitter reads
  neither, so conditional ARM calls and returns are unconditional in print, and a return
  ends the walk of its block (`tools/armrecomp/emit.c:162`). An IT makes up to four
  instructions conditional; the emitter's comment says the decoder has attached the
  condition to them (`tools/armrecomp/emit.c:899-904`), but nothing does.
- lr is read but not set. Calls are printed without writing lr
  (`tools/armrecomp/emit.c:698-709`, `914-917`), yet the Thumb returns `BX lr` and
  `MOV pc, lr` are printed as a dispatch on it, never as a return. It halts unless lr
  happens to hold the address of a function or import. The ARM `BX lr` is printed as a
  return.
- A return that the decoder knows by its class alone is printed as a bare `return;`,
  without the registers it loads or its step of sp (`tools/armrecomp/decode.c:769`, `954`,
  `1097`, `1105`; `tools/armrecomp/emit.c:919-921`).
- The test that tells a conditional wide branch from a system instruction mixes the sign
  bit with the top of the condition (`tools/armrecomp/decode.c:731`). It takes backward
  `B<gt>.W` and `B<le>.W` for system instructions, and barriers, hints, MSR and MRS for
  branches: `Decode.CondBranchDecodesIff`, `Decode.SystemTestIff`.
- Preload hints are taken for loads of the PC (`tools/armrecomp/decode.c:954`), `ADD pc`
  for `MOV pc` (`tools/armrecomp/decode.c:182-184`), any ARM `MOV pc` for a return
  (`tools/armrecomp/decode.c:1087`), and loads and stores on sp without writeback or in
  the other direction for POP and PUSH (`tools/armrecomp/decode.c:770-779`):
  `Decode.LoadPcIff`, `Decode.WriteOfPcIff`, `Decode.MovPcIff`, `Decode.StackFormIff`.
- The emitter goes on past an indirect jump, discovery does not
  (`tools/armrecomp/emit.c:162-187`, `tools/armrecomp/analyze.c:161`). So a printed
  body can hold code that discovery never saw; `Recompile.TakenIsDecoded` says what it
  did see.
- Discovery follows branches to below a function's entry and credits what it finds to the
  function; the emitter does not (`tools/armrecomp/emit.c:179-181`).
  `Recompile.CreditedIsTaken` says exactly when everything credited is printed.

`Simulate.StatementMatches` says of the first three, for every instruction and state,
whether the printed statement is right, `Simulate.StatementMatchesIff` of which
instructions it always is, and `Runs.ModuleSimulates` follows a whole module up to the
first instruction of which it is not. `Runs.ModuleFollows` does so up to any relation of
states, such as one that ignores lr, within which calls are right.

Where comments and code disagree the model follows the code. Pruning is explained by
three limits on collection (`tools/armrecomp/emit.c:199-204`), but the cap of 65536
instructions is never the one met, since the visited table holds 8192 addresses
(`Collect.Walk.Run`).

## Model

| member | source | states |
|---|---|---|
| `Bits.GetBit` | tools/armrecomp/inflate.c:43-53 | a bit read without overrun existed in the input and moves the reader by one; past the end the reader stays put and the overrun sticks |
| `Bits.GetBitsReads` | tools/armrecomp/inflate.c:55-59 | reading n bits where a value was written least significant bit first gives the value back |
| `Bits.GetBitsSound` | tools/armrecomp/inflate.c:55-59 | whatever is read without an overrun is what the stream holds at that place |
| `Bits.ByteBitsIndex` | tools/armrecomp/inflate.c:43-53 | bit k of byte q is bit 8q+k of the stream |
| `Bits.AtBytes` | tools/armrecomp/inflate.c:206-223 | at a byte boundary the stream holds the bits of some bytes exactly when those bytes are the input there |
| `Bits.PackHolds` | tests/test_inflate.c:31-56 | the bytes a bit writer packs hold every bit written, in order |
| `Bits.BitReader.ReadBit` | tools/armrecomp/inflate.c:43-53 | the buffered reader over bytes reads the next bit of the stream, or records the overrun |
| `Bits.BitReader.ReadBits` | tools/armrecomp/inflate.c:55-59 | the shift-and-or loop computes the n-bit value and leaves the reader after it |
| `Bits.BitReader.Align` | tools/armrecomp/inflate.c:206-208 | dropping the buffered bits moves to the next byte boundary and nowhere else |
| `Huffman.AcceptsIffKraft` | tools/armrecomp/inflate.c:70-96 | the over-subscription test passes exactly the length vectors that satisfy the Kraft inequality |
| `Huffman.Huff.CheckSpace` | tools/armrecomp/inflate.c:80-85 | the loop refuses exactly the over-subscribed vectors, and `left` ends as the unused code space |
| `Huffman.RankInRange` | tools/armrecomp/inflate.c:87-93 | every used symbol has a place inside the symbol table |
| `Huffman.RankIsStableOrder` | tools/armrecomp/inflate.c:87-93 | places in the symbol table follow (length, symbol): the counting sort is stable |
| `Huffman.Huff.FillSymbols` | tools/armrecomp/inflate.c:87-93 | the in-place counting sort puts every used symbol at its place |
| `Huffman.Huff.Build` | tools/armrecomp/inflate.c:70-96 | building succeeds exactly on the Kraft inequality and leaves tables that describe the vector |
| `Huffman.CodeFits` | tools/armrecomp/inflate.c:70-110 | an accepted vector assigns every used symbol a code that fits in its length |
| `Huffman.DecodeReads` | tools/armrecomp/inflate.c:98-110 | feeding a used symbol's canonical code to the decoder yields the symbol after exactly its length in bits |
| `Huffman.DecodeSound` | tools/armrecomp/inflate.c:98-110 | any symbol returned without overrun was there: the bits consumed are exactly its code |
| `Huffman.PrefixFree` | tools/armrecomp/inflate.c:70-110 | no used symbol's code is a prefix of another's |
| `Huffman.Huff.DecodeSymbol` | tools/armrecomp/inflate.c:98-110 | the table-driven loop over `counts` and `symbols` returns what canonical decoding defines, consuming the same bits |
| `Deflate.LengthRule` | tools/armrecomp/inflate.c:119-127 | the length tables follow the rule of RFC 1951 section 3.2.5: eight symbols without extra bits, four for each number of them, and 258 by itself |
| `Deflate.DistanceRule` | tools/armrecomp/inflate.c:128-134 | the distance tables follow it: four symbols without extra bits, two for each number of them |
| `Deflate.ClenOrderRule` | tools/armrecomp/inflate.c:136-139 | code-length lengths come as RFC 1951 section 3.2.7 orders them: the escapes, 0, then 8 upwards and 7 downwards by turns |
| `Deflate.ClenOrderIsPermutation` | tools/armrecomp/inflate.c:136-139 | the order in which code-length lengths are sent visits each of the 19 symbols once |
| `Deflate.CopyIsPeriodic` | tools/armrecomp/inflate.c:195-202 | after a match, byte pos+i equals the old byte at pos-distance+(i mod distance), overlapping or not |
| `Deflate.ReadToken` | tools/armrecomp/inflate.c:175-195 | a token turn makes progress, stays inside the input, and ends the block only on bits that existed; `RoundTrip.TokenReads` and `Deflate.LengthRule` say which token it reads |
| `Deflate.BlockHuffman` | tools/armrecomp/inflate.c:173-204 | total on any bits: reads only the input, keeps the output within capacity, never changes an emitted byte, succeeds only without overrun |
| `Deflate.FieldIsTwoBytes` | tools/armrecomp/inflate.c:211-212 | a 16-bit field of the stream is two bytes, low byte first |
| `Deflate.BlockStored` | tools/armrecomp/inflate.c:206-223 | total on any bits, within input and capacity, output only grows |
| `Deflate.ReadLengths` | tools/armrecomp/inflate.c:245-271 | length reading is total, fills exactly the two alphabets on success and never more than they hold |
| `Deflate.ExpansionIs` | tools/armrecomp/inflate.c:252-270 | an instruction adds its own length, the last length again, or zeros, as many as it says |
| `Deflate.ReadTables` | tools/armrecomp/inflate.c:225-280 | tables are produced only with sizes RFC 1951 allows, an end-of-block code, and both vectors accepted |
| `Deflate.Inflate` | tools/armrecomp/inflate.c:282-309 | total on every byte string and capacity, and OK only when every bit consumed existed |
| `RoundTrip.TokenReads` | tools/armrecomp/inflate.c:173-202 | an encoded literal or match is read back as itself, to the bit after it |
| `RoundTrip.TokensRead` | tools/armrecomp/inflate.c:173-204 | an encoded token list and its end-of-block symbol decode to their LZ77 expansion |
| `RoundTrip.ItemReads` | tools/armrecomp/inflate.c:250-270 | an encoded code-length instruction is read back as itself |
| `RoundTrip.ItemsRead` | tools/armrecomp/inflate.c:248-271 | instructions that spell out the lengths are read back as those lengths, repeats straddling the two alphabets included |
| `RoundTrip.ClenReads` | tools/armrecomp/inflate.c:232-236 | the permuted code-length lengths are read back into their positions |
| `RoundTrip.HeaderReads` | tools/armrecomp/inflate.c:225-277 | a whole dynamic header is read back as its two tables |
| `RoundTrip.FixedAccepted` | tools/armrecomp/inflate.c:143-157 | the fixed tables pass the acceptance test and fixed blocks can be ended |
| `RoundTrip.FixedCodes` | tests/test_inflate.c:59-73 | the canonical construction gives the fixed tables the codes RFC 1951 section 3.2.6 lists |
| `RoundTrip.StoredReads` | tools/armrecomp/inflate.c:206-223 | a stored block with any padding bits is read back as its data |
| `RoundTrip.BlockReads` | tools/armrecomp/inflate.c:290-305 | one turn of the block loop reads an encoded block of any of the three kinds and continues after it |
| `RoundTrip.InflateInvertsEncoding` | tools/armrecomp/inflate.c:173-309 | any byte string that begins with an encoding of a list of blocks inflates to their meaning, given room for it |
| `RoundTrip.InflateOfPacked` | tools/armrecomp/inflate.c:282-309 | the packed encoding itself inflates to the blocks' meaning |
| `RoundTrip.MatchesExpressible` | tools/armrecomp/inflate.c:119-134 | the fixed tables express exactly the matches of length 3 to 258 and distance 1 to 32768 |
| `RoundTrip.LengthsTile` | tools/armrecomp/inflate.c:119-127 | the ranges of the length symbols meet end to end, up to 258 |
| `RoundTrip.DistancesTile` | tools/armrecomp/inflate.c:128-134 | so do those of the distance symbols, up to 32768 |
| `RoundTrip.TokensUnique` | tools/armrecomp/inflate.c:119-134 | no match has two tokens, but that 258 has two length symbols |
| `RoundTrip.EveryOutputReached` | tools/armrecomp/inflate.c:282-309 | every byte string is what some stream inflates to |
| `Soundness.TokensSound` | tools/armrecomp/inflate.c:173-204 | from a successful Huffman block, tokens are recovered whose encoding is exactly the bits consumed and whose expansion is the output |
| `Soundness.HeaderSound` | tools/armrecomp/inflate.c:225-277 | from a successful header, the instructions that were encoded are recovered |
| `Soundness.StreamSound` | tools/armrecomp/inflate.c:282-309 | from a successful run, a list of blocks is recovered that encodes to the bits consumed and means the output |
| `Soundness.InflateIsExact` | tools/armrecomp/inflate.c:282-309 | inflating succeeds with an output if and only if the input begins with an encoding of it and it fits the buffer |
| `InflateImpl.OutBuf.Emit` | tools/armrecomp/inflate.c:167-171 | a byte is appended, or the buffer is full and nothing changes |
| `InflateImpl.OutBuf.CopyBack` | tools/armrecomp/inflate.c:195-202 | the byte-at-a-time copy is the periodic extension, cut at the capacity |
| `InflateImpl.BlockHuffmanInto` | tools/armrecomp/inflate.c:173-204 | the loop over reader and output buffer computes exactly the specified block |
| `InflateImpl.BlockStoredInto` | tools/armrecomp/inflate.c:206-223 | alignment, fields, checks and copy compute exactly the specified block |
| `InflateImpl.ReadLengthsInto` | tools/armrecomp/inflate.c:245-271 | the array-filling loop computes exactly the specified lengths or error |
| `InflateImpl.ReadTablesInto` | tools/armrecomp/inflate.c:225-277 | the header code builds exactly the specified tables or stops with the specified error |
| `InflateImpl.BlockDynamicInto` | tools/armrecomp/inflate.c:225-280 | a dynamic block is decoded exactly as specified |
| `InflateImpl.BuildFixed` | tools/armrecomp/inflate.c:143-157 | the four fill loops build the tables of RFC 1951 section 3.2.6 |
| `InflateImpl.Blocks` | tools/armrecomp/inflate.c:290-305 | the block loop terminates and computes exactly the specified stream |
| `InflateImpl.InflateInto` | tools/armrecomp/inflate.c:282-309 | the output is a prefix of the buffer, nothing past the capacity changes, the length changes only on success |
| `Failures.InflatesIffRoom` | tools/armrecomp/inflate.c:167-171 | a stream that inflates at all inflates exactly when there is room for its output, with the same result; else it reports that, after a beginning of the output |
| `Failures.TruncationIsReported` | tools/armrecomp/inflate.c:43-53 | every beginning of a stream that inflates, if it lacks a byte that is used, is reported as truncated and never as anything else; what follows the stream does not matter |
| `Failures.BlockCut` | tools/armrecomp/inflate.c:173-204 | a Huffman block cut off anywhere reports that, even where a distance was read with its last bits missing |
| `Failures.ReadHeaderCut` | tools/armrecomp/inflate.c:225-277 | a dynamic header cut off anywhere reports that, or is whole but for zeros |
| `Failures.DistanceIsReported` | tools/armrecomp/inflate.c:195 | a match that reaches back before the start of the output is reported as that |
| `Failures.ReservedIsReported` | tools/armrecomp/inflate.c:295-300 | the reserved block type is malformed |
| `Failures.ComplementIsChecked` | tools/armrecomp/inflate.c:215 | a stored block is malformed exactly when its second field is not the complement of the first |
| `Zlib.Adler32` | tools/armrecomp/inflate.c:313-320 | the loop that reduces at every byte computes the closed form of RFC 1950 section 2.2, for any length |
| `Zlib.AdlerDetectsByteChange` | tools/armrecomp/inflate.c:313-320 | changing any one byte changes the checksum |
| `Zlib.AdlerDetectsSwap` | tools/armrecomp/inflate.c:313-320 | exchanging two different neighbours changes the checksum |
| `Zlib.UnzipInto` | tools/armrecomp/inflate.c:333-355 | header test, inflation and trailer test compute the specified outcome; the length changes only on success |
| `Zlib.HeaderIff` | tools/armrecomp/inflate.c:322-331 | of the headers RFC 1950 section 2.2 can encode, exactly those of method 8 without a dictionary whose check bits complete a multiple of 31 are taken |
| `Zlib.EveryHeader` | tools/armrecomp/inflate.c:322-331 | any two bytes are such an encoding |
| `Zlib.FCheck` | tools/armrecomp/inflate.c:322-331 | for every method, window, level and dictionary flag there are check bits that complete it |
| `Zlib.AdlerOfZeros` | tools/armrecomp/inflate.c:313-320 | the second sum counts bytes modulo 65521, the first starts at one |
| `Zlib.AdlerOfAbc` | tools/armrecomp/inflate.c:313-320 | the checksum of "abc" |
| `Zlib.UnzipIsExact` | tools/armrecomp/inflate.c:333-355 | accepts exactly a valid header, an encoding of the output, and the output's own checksum |
| `Zlib.UnzipInvertsZip` | tools/armrecomp/inflate.c:333-355 | header of any window size and level, packed blocks and checksum unzip to what the blocks mean if the check bits are right, and are refused if not |
| `Zlib.UnzipRejectsCorruption` | tools/armrecomp/inflate.c:333-355 | two streams with one trailer are never both accepted when their outputs differ by one byte or one exchange of neighbours |
| `Code.ReachesNext` | tools/armrecomp/emit.c:149-191 | reachability is closed under fall-through and local branches |
| `Code.ReachesUpwards` | tools/armrecomp/emit.c:162-187 | flow inside a function never goes below its entry |
| `Code.TakesWithin` | tools/armrecomp/emit.c:143 | what is taken of a function is bounded by its recorded end if that is more than 16 bytes off, else by 8192 bytes |
| `Code.BranchesWithin` | tools/armrecomp/emit.c:179-181 | the same extent decides which branches stay in it |
| `Code.ClosedHoldsPaths` | tools/armrecomp/emit.c:149-191 | a set closed under flow that holds the entry holds every address a path can take |
| `Visited.SlotCovers` | tools/armrecomp/emit.c:85-92 | linear probing visits every slot |
| `Visited.FirstSlot` | tools/armrecomp/emit.c:86-88 | the first slot probed is the address times the low bits of the multiplier, modulo 8192 |
| `Visited.Table.Mark` | tools/armrecomp/emit.c:85-93 | open addressing refines a finite set: an address is added unless present, zero, or the table is full |
| `Visited.Table.FullHolds` | tools/armrecomp/emit.c:81-93 | a full table holds 8192 different addresses |
| `Visited.Table.SeenBounded` | tools/armrecomp/emit.c:81-93 | at most 8192 addresses are ever marked |
| `Limits.SparseFits` | tools/armrecomp/emit.c:145-191 | the walk stays within both limits when at most 8192 addresses can be visited and fewer than 512 instructions branch locally |
| `Limits.SmallIsNotCrowded` | tools/armrecomp/emit.c:143 | no function with a recorded end up to 16384 bytes on, or with none, can overfill the visited table |
| `Limits.ShortIsNotBranchy` | tools/armrecomp/emit.c:145-146 | no function with a recorded end up to 1022 bytes on has 512 local branches |
| `Limits.FitsNumbers` | tools/armrecomp/emit.c:145-146 | a walk that fits never has more than 512 blocks stacked or 8192 addresses marked |
| `Limits.NumbersFit` | tools/armrecomp/emit.c:145-146 | and one that never has fits |
| `Search.Find` | tools/armrecomp/emit.c:121-129 | the binary search finds the key exactly when it is there |
| `Search.SortKeeps` | tools/armrecomp/emit.c:95-98 | sorting permutes, repeated elements counted, and orders strictly when no two keys agree |
| `Search.SortOrders` | tools/armrecomp/module.c:24-27 | sorting orders whatever the keys |
| `Collect.Walk.AddLabel` | tools/armrecomp/emit.c:51-59 | a label is recorded once |
| `Collect.Walk.Visit` | tools/armrecomp/emit.c:152-190 | one instruction of the inner loop keeps the walk's invariant: collected code is reachable, and unless a limit was met its successors are collected or waiting |
| `Collect.Walk.Run` | tools/armrecomp/emit.c:145-191 | the two nested loops terminate with at most 8192 instructions, so the 65536 cap never ends the walk |
| `Collect.DoneTakesReachable` | tools/armrecomp/emit.c:149-191 | when the walk is over and no limit was met, exactly the reachable instructions were collected |
| `Collect.FullIsOver` | tools/armrecomp/emit.c:81-93 | a walk that meets the full table is one whose unlimited form marks more addresses than there are slots |
| `Collect.TurnTakes` | tools/armrecomp/emit.c:179-185 | a taken instruction is one turn of the unlimited walk; a branch target that meets the full stack is one more than it holds |
| `Collect.FindPlaced` | tools/armrecomp/emit.c:216-222 | the search over the sorted body says whether a label's instruction was collected |
| `Collect.KeepFilters` | tools/armrecomp/emit.c:214-225 | pruning keeps exactly the labels that are placed, without duplicates |
| `Collect.Prune` | tools/armrecomp/emit.c:214-225 | the in-place compaction is that filter, in order |
| `Collect.EntryComesFirst` | tools/armrecomp/emit.c:193-195 | the entry is the first instruction of the sorted body |
| `Collect.CollectBody` | tools/armrecomp/emit.c:131-226 | the body holds reachable instructions only, each once, ascending, entry first, with one label per collected local target; and all reachable ones whenever the walk without limits never has more than 512 blocks stacked or 8192 addresses marked |
| `Emit.LookUp` | tools/armrecomp/emit.c:367-377 | the searches before printing answer by membership in stubs, functions and labels |
| `Emit.EmitBody` | tools/armrecomp/emit.c:1011-1020 | the printing loop produces each instruction's lines in body order |
| `Emit.LinesAt` | tools/armrecomp/emit.c:1011-1020 | an instruction's lines start where its predecessors' end |
| `Emit.LabelPlacedOnce` | tools/armrecomp/emit.c:1011-1014 | every label of a body is placed exactly once in it |
| `Emit.GotosLand` | tools/armrecomp/emit.c:664-693 | no goto dangles, whatever limits cut the body short |
| `Emit.CallsKnown` | tools/armrecomp/emit.c:367-377 | every call or tail call names a function of the module or an import |
| `Simulate.ItGoverns` | tools/armrecomp/decode.c:313-317 | an IT as it is written governs as many instructions as are written, each on its condition or the opposite |
| `Simulate.PointedIsAimed` | src/dispatch.c:38-60 | an address means the same in a register and in an instruction, Thumb bit or not |
| `Simulate.StatementMatches` | tools/armrecomp/emit.c:351-937 | on every machine and state, the printed statement has the instruction's effect exactly when the instruction has a translation and: if executed, it is no return through lr, a call's lr is not kept, the register it goes through leads to a function or import, a bare return has nothing else to do; if skipped, the statement tests the same or does nothing. It halts exactly where there is no translation or the register leads nowhere |
| `Simulate.StatementFollows` | tools/armrecomp/emit.c:351-937 | a statement that is sure within a relation does in a related state what the instruction does |
| `Simulate.SureIsWithin` | tools/armrecomp/emit.c:351-937 | within equality that is exactly where the statement is right |
| `Simulate.CallIsSure` | tools/armrecomp/emit.c:914-917 | a direct call of a function or import outside IT blocks is sure within every relation that ignores what it leaves in lr |
| `Simulate.KeptConditions` | tools/armrecomp/emit.c:413-417 | where no condition is dropped, what is skipped is skipped in print |
| `Simulate.StatementMatchesIff` | tools/armrecomp/emit.c:351-937 | right on all machines are exactly the statements of instructions with a translation and a printed condition that are no call, return by class alone, return through lr or transfer through a register; where lr, dispatch misses and bare returns do not matter, exactly those with a translation and a printed condition that do not return through lr |
| `Misprints.ArmBranchToImport` | tools/armrecomp/emit.c:367-377 | BEQ in ARM code to an import stub is printed as an unconditional firmware call |
| `Misprints.ArmConditionalReturn` | tools/armrecomp/emit.c:919-921 | BXEQ lr in ARM code is printed as an unconditional return |
| `Misprints.ArmConditionalCall` | tools/armrecomp/emit.c:914-917 | BLEQ in ARM code is printed as an unconditional call |
| `Misprints.ItIgnored` | tools/armrecomp/emit.c:899-904 | whatever has a translation is printed without its condition under IT EQ, unless it is itself a branch on EQ |
| `Misprints.ReturnThroughLink` | tools/armrecomp/emit.c:696-709 | BX lr in Thumb code is printed as a dispatch on lr, which is right on no machine, and halts when lr holds the address of no function or import |
| `Misprints.WidePopReturn` | tools/armrecomp/decode.c:769 | POP.W {r4, pc} is printed as a return that restores neither r4 nor sp |
| `Misprints.JumpsRecordedAsReturns` | tools/armrecomp/decode.c:1087-1089 | MOV pc, r3 in ARM code, and LDR.W pc, [r0], are recorded and printed as returns |
| `Misprints.HintRecordedAsReturn` | tools/armrecomp/decode.c:951-954 | PLD is recorded and printed as a return |
| `Misprints.AddRecordedAsMove` | tools/armrecomp/decode.c:181-184 | ADD pc, r3 is recorded and printed as BX r3 |
| `Misprints.StoreRecordedAsPush` | tools/armrecomp/decode.c:767-779 | STM.W sp, {r1, r2}, without writeback, is recorded as PUSH |
| `Runs.FallsToNext` | tools/armrecomp/emit.c:193-195 | falling through lands on the next instruction printed |
| `Runs.LabelsAreComplete` | tools/armrecomp/emit.c:179-184 | when nothing was cut off, the labels are exactly the local branch targets |
| `Runs.NextStatement` | tools/armrecomp/emit.c:1011-1020 | where the printed body stands before an instruction's lines, the next step is that instruction's statement, and falling through leads to the next instruction's lines |
| `Runs.EntryStands` | tools/armrecomp/emit.c:998-1023 | a function entered by its symbol begins with the statement of its entry |
| `Runs.StepMatches` | tools/armrecomp/emit.c:1011-1020 | one statement of the printed module and one instruction of the decoded functions keep both in related states at the same places of the same functions, call frames included, where the statement is sure |
| `Runs.ModuleFollows` | tools/armrecomp/emit.c:941-1146 | up to any relation of states that firmware keeps, such as one that ignores lr: started in any function, on any machine and in related states, for any number of steps, the printed module with its calls, tail calls and dispatches through the emitted table is in a related state at the same places, or at the same end, as the decoded functions, as long as these come to no instruction whose statement is not sure within the relation, is out of order, or is in a function not printed whole |
| `Runs.ModuleSimulates` | tools/armrecomp/emit.c:941-1146 | the same with equal states, as long as every statement the decoded functions come to is right there |
| `Runs.CallRuns` | tools/armrecomp/emit.c:914-919 | a call of a function that by itself finishes in some state after some steps goes on behind the call in that state after one more; a tail call goes on in the caller |
| `Runs.StepsOver` | tools/armrecomp/emit.c:1011-1020 | what a function does does not depend on who called it |
| `Runs.ImportRuns` | tools/armrecomp/emit.c:367-377 | a call of an import goes on behind it in the state the firmware leaves, a tail call of one returns |
| `Runs.LeftOutHalts` | tools/armrecomp/emit.c:987-996 | a function left out under the limit halts where it is entered |
| `Dispatch.MergeStep` | tools/armrecomp/emit.c:1109-1136 | appending the least remaining address keeps the merge ascending, correctly bound and complete so far |
| `Dispatch.Merge` | tools/armrecomp/emit.c:1107-1137 | the merged table binds exactly the functions and stubs, strictly ascending, stubs winning ties; the shadow count is the number of ties |
| `Dispatch.Dispatcher.Init` | src/dispatch.c:12-33 | a strictly ascending table is accepted, any other is refused |
| `Dispatch.Dispatcher.Dispatch` | src/dispatch.c:38-60 | runs the entry of the address with its Thumb bit cleared exactly when there is one, and moves exactly one counter |
| `Dispatch.OneAnswer` | src/dispatch.c:45-54 | an ascending table has at most one answer for an address |
| `Dispatch.DispatchMerged` | src/dispatch.c:12-60 | emit-time merge and run-time search together: every indirect transfer gets the stub, else the function, else a trap |
| `Dispatch.DirectCallsAgree` | tools/armrecomp/emit.c:914-919 | a direct call was bound at emit time to what the table binds its target to at run time |
| `Module.EmitFunction` | tools/armrecomp/emit.c:998-1023 | a function's definition is its printed body, with no loose ends |
| `Module.EmitDefs` | tools/armrecomp/emit.c:987-1027 | functions past the limit are defined as traps, the others as their printed bodies, each once |
| `Module.EmitModule` | tools/armrecomp/emit.c:941-1146 | every function is defined exactly once, no body dangles, the dispatch table binds exactly functions and stubs to symbols that exist: what the simulation of whole modules rests on |
| `Stubs.WordLaidOut` | tools/armrecomp/module.c:183-188 | a word laid out in the segment, low byte first, is read back |
| `Stubs.TableLaidOut` | tools/armrecomp/module.c:171-191 | from a segment that holds the tables of its records as bytes, the stub table has exactly the addresses laid out, Thumb bit cleared, each with its own name hash |
| `Stubs.TableHas` | tools/armrecomp/module.c:175-191 | the table before sorting holds exactly the entries of the readable import records |
| `Stubs.BuildStubs` | tools/armrecomp/module.c:171-194 | the stub table is exactly those entries, each as often as it is recorded, in address order, strictly when no address repeats; the capacity test never drops one |
| `Stubs.FindStub` | tools/armrecomp/module.c:206-216 | a stub is found exactly when one has the address with its Thumb bit cleared |
| `Stubs.FindImport` | tools/armrecomp/module.c:171-216 | table and search together: an address is found exactly when some readable record imports a function there |
| `Bitmap.WithBitSets` | tools/armrecomp/analyze.c:22-25 | setting a bit of a byte sets that bit and no other |
| `Bitmap.Marks.Get` | tools/armrecomp/analyze.c:17-20 | the bitmap answers membership in the set of marked halfwords |
| `Bitmap.Marks.Set` | tools/armrecomp/analyze.c:22-25 | setting adds exactly one halfword to that set |
| `Shape.ShapedIff` | tools/armrecomp/analyze.c:190-199 | the words with the shape are the even addresses of the segment plus one |
| `Shape.FourAreATable` | tools/armrecomp/analyze.c:198-244 | a word is in a pointer table exactly when it is one of four neighbouring words that are even addresses of the segment plus one |
| `Shape.InTableIffRun` | tools/armrecomp/analyze.c:198-244 | a word is in a pointer table exactly when the maximal run of pointer-shaped words around it has at least four |
| `Shape.RunLen` | tools/armrecomp/analyze.c:210-218 | the measuring loop returns the length of the run from a word on |
| `Shape.CountingStep` | tools/armrecomp/analyze.c:236-241 | the amortised counter is positive exactly inside a table, at every word |
| `Shape.MeasuringIsLinear` | tools/armrecomp/analyze.c:231-241 | measuring a run at each word outside a table measures at most three words per word scanned |
| `Shape.ScanRegion` | tools/armrecomp/analyze.c:224-284 | the scan seeds exactly the accepted words in order, and measures exactly the runs at words outside a table, so at most three words per word scanned |
| `Discover.GroundedDecode` | tools/armrecomp/analyze.c:104-144 | decoding an instruction on the flow of a registered function, with the seed its call asks for, keeps every finding justified |
| `Discover.TallyInsn` | tools/armrecomp/analyze.c:108-112 | crediting an instruction to the function being walked keeps every function's count and extent exact |
| `Discover.Finder.Note` | tools/armrecomp/analyze.c:108-144 | recording an instruction keeps bitmap, counts, queue and registry in agreement |
| `Discover.Finder.Visit` | tools/armrecomp/analyze.c:99-169 | one instruction of the inner loop: the address itself is settled, that is decoded unless it cannot be, and every successor of decoded code is settled or waiting |
| `Discover.Finder.WalkFrom` | tools/armrecomp/analyze.c:84-173 | the local worklist terminates with the start and every successor of decoded code settled |
| `Discover.Finder.Register` | tools/armrecomp/analyze.c:396-402 | an in-range seed becomes a function exactly when its address is not one yet, decoded before or not |
| `Discover.Finder.Drain` | tools/armrecomp/analyze.c:394-403 | the outer worklist terminates with every seed served, including those its own walks added, and the entry of every function settled |
| `Discover.Harvest` | tools/armrecomp/analyze.c:356-373 | the linear harvest seeds exactly the in-range targets of what decodes as a Thumb call, refused mode switches excepted |
| `Discover.CompleteAtEnd` | tools/armrecomp/analyze.c:394-418 | after draining, every function's entry and every successor of decoded code is settled, and every followed in-range call target is a function |
| `Discover.FlowIsDecoded` | tools/armrecomp/analyze.c:84-173 | whatever decodes on the flow of a function is decoded, unless that flow runs into code decoded in the other mode |
| `Discover.DecodedIffFlow` | tools/armrecomp/analyze.c:312-424 | what is decoded is exactly what decodes on the flow of the functions, each flow followed until it meets code decoded in the other mode; without qualification when all functions are in one mode |
| `Discover.GroundedAtEnd` | tools/armrecomp/analyze.c:312-424 | conversely, every function was given or called, and every instruction is on the flow, over decoded code of its mode, and inside the extent of a function |
| `Discover.ScannedIsServed` | tools/armrecomp/analyze.c:224-284 | after draining, the target of every word the scan's tests accept is a function or on the flow of a function found without the scan |
| `Discover.TableServed` | tools/armrecomp/analyze.c:224-284 | of four neighbouring words that are even addresses plus one, each whose address holds an instruction has it served |
| `Discover.PrologueServed` | tools/armrecomp/analyze.c:224-284 | a lone one is served when a prologue stands at its address |
| `Discover.CalleeModeIs` | tools/armrecomp/analyze.c:117-121 | a switching call is followed in the other mode, any other in the same |
| `Discover.DiscoverAll` | tools/armrecomp/analyze.c:312-425 | discovery terminates; what it decodes is closed under flow, holds every function's entry that decodes, and holds nothing off the flow of the functions; each instruction is credited to one function, which reached it over its own; stored pointers that pass the scan's tests are served; every function has a reason; the total is the number decoded and the sum of the functions' counts; no address is registered twice |
| `Recompile.FollowedCallsBind` | tools/armrecomp/emit.c:914-919 | a direct call discovery followed inside the segment is printed as a call of a function or import, never as a trap |
| `Recompile.FallsIffContinues` | tools/armrecomp/emit.c:162-187 | discovery follows flow exactly where the emitter does, but for going on past an indirect jump |
| `Recompile.TakenIsDecoded` | tools/armrecomp/emit.c:149-191 | what the emitter takes without going on past an indirect jump or into code decoded in the other mode, discovery decoded |
| `Recompile.CreditedIsBelow` | tools/armrecomp/emit.c:143 | what discovery credits to a function lies below the bound the emitter uses |
| `Recompile.CreditedIsTaken` | tools/armrecomp/emit.c:131-191 | the emitter takes everything credited to a function exactly when none of it lies below the entry, or at address zero |
| `Recompile.PrintedCallsBind` | tools/armrecomp/emit.c:914-919 | so an in-segment call of a printed body taken that way, if no refused mode switch, is printed as a call, never as a trap |
| `Recompile.Recompile` | tools/armrecomp/emit.c:941-1146 | discovery feeding emission: what the emitter relies on is what discovery establishes |
| `Recompile.RecompileSegment` | tools/armrecomp/emit.c:941-1146 | the same from the bytes of a segment and its import records, with nothing assumed of decoder or stub table but distinct stub addresses |
| `Recompile.PushLikeIff` | tools/armrecomp/analyze.c:276-278 | the halfwords taken for a prologue are exactly PUSH with any list, SUB sp by any amount, and the first half of PUSH.W |
| `Recompile.RegionsLaidOut` | tools/armrecomp/analyze.c:289-306 | the scan sees the words that were laid out in each segment |
| `Decode.WideOffsetOfEncoding` | tools/armrecomp/decode.c:677-694 | the offset field of B.W, BL and BLX recovers every offset the architecture encodes in it |
| `Decode.WideBranchDecodes` | tools/armrecomp/decode.c:650-727 | every B.W, BL and BLX is decoded as what it is, to the target it names |
| `Decode.BranchDecodes16` | tools/armrecomp/decode.c:394-400 | every 16-bit B is decoded as one, to the target it names |
| `Decode.CondBranchDecodes16` | tools/armrecomp/decode.c:381-392 | so is every 16-bit conditional B |
| `Decode.CompareBranchDecodes` | tools/armrecomp/decode.c:363-373 | and every CBZ and CBNZ |
| `Decode.ExchangeDecodes16` | tools/armrecomp/decode.c:150-164 | BX and BLX through a register; a BX through lr is a return |
| `Decode.PopDecodes16` | tools/armrecomp/decode.c:347-362 | POP that lists the PC is a return |
| `Decode.IfThenDecodes` | tools/armrecomp/decode.c:308-322 | IT keeps its condition and mask; without a mask it is a hint |
| `Decode.MovesControl16` | tools/armrecomp/decode.c:76-406 | nothing else of 16 bits moves control |
| `Decode.MovesControl32` | tools/armrecomp/decode.c:631-1038 | the 32-bit Thumb encodings that move control, by class, and no others |
| `Decode.MovesControlArm` | tools/armrecomp/decode.c:1040-1131 | the ARM encodings that move control, by class, and no others |
| `Decode.DataClassesArm` | tools/armrecomp/decode.c:1084-1131 | the classes of the other ARM encodings |
| `Decode.ArmBranchDecodes` | tools/armrecomp/decode.c:1111-1117 | every ARM B and BL goes to the target it names; that it is conditional is recorded |
| `Decode.ArmExchangeDecodes` | tools/armrecomp/decode.c:1053-1060 | every ARM BLX to an immediate goes to the target it names, into Thumb code |
| `Decode.ArmRegisterDecodes` | tools/armrecomp/decode.c:1070-1082 | ARM BX and BLX through a register |
| `Decode.ArmLaidOut` | tools/armrecomp/decode.c:1135-1178 | an ARM instruction is the word at its address, low byte first |
| `Decode.ThumbLaidOut` | tools/armrecomp/decode.c:1135-1178 | a Thumb instruction is one halfword, or two from 0xE800 on, first halfword first; one that lacks its second is none |
| `Decode.CondBranchDecodesIff` | tools/armrecomp/decode.c:729-746 | a conditional B.W is decoded as itself exactly when it is not a backward branch on gt or le; those are taken for system instructions |
| `Decode.SystemTestIff` | tools/armrecomp/decode.c:729-746 | of the words of the conditional form, exactly those with the top of the condition and the sign bit set are decoded as system instructions, so the test keeps what it ought to exactly when a set sign bit comes without gt or le, or a clear one with a condition below 14 |
| `Decode.LoadPcIff` | tools/armrecomp/decode.c:951-954 | in the single-load group exactly the loads with Rt 15 are recorded as returns; they load the PC exactly for words, bytes and halfwords are preload hints |
| `Decode.MovPcIff` | tools/armrecomp/decode.c:1085-1090 | an ARM MOV to the PC is recorded as a return always, and goes where lr points, whatever the registers hold, exactly when its operand is lr, not shifted |
| `Decode.WriteOfPcIff` | tools/armrecomp/decode.c:170-184 | a high-register MOV or ADD to the PC is recorded as a transfer to the register's value, which is where it goes for all values exactly when it is MOV, or ADD reading the PC as zero |
| `Decode.StackFormIff` | tools/armrecomp/decode.c:767-781 | an LDM.W or STM.W on sp is recorded as POP or PUSH, but for a load that lists the PC, which is a return; it pops or pushes exactly when it writes sp back and goes upwards for a load, downwards for a store |
| `Decode.BarrierAndHintAreBranches` | tools/armrecomp/decode.c:729-746 | DMB and NOP.W are decoded as branches on condition 14 |
| `Decode.DecodeT16` | tools/armrecomp/decode.c:76-406 | a 16-bit instruction has its address, width 2, an operation its class admits and a target of its own alignment; which, the lemmas on its forms say |
| `Decode.DecodeT32` | tools/armrecomp/decode.c:631-1038 | the same for 32-bit Thumb |
| `Decode.DecodeA32` | tools/armrecomp/decode.c:1040-1131 | the same for ARM, all of it modelled; of a condition the record says that there is one |
| `Decode.DecoderMeetsContract` | tools/armrecomp/decode.c:1135-1178 | the decoder stays inside the segment, makes progress, and satisfies everything discovery and emission ask of it |
| `Immediate.RotationIsShift` | tools/armrecomp/decode.c:625-628 | in the rotated form nothing wraps: the constant is a byte shifted left |
| `Immediate.ExpressibleIff` | tools/armrecomp/decode.c:614-629 | the modified immediate reaches exactly the words that are one byte surrounded by zeros or a byte in one of the three patterns |
| `Immediate.ExpandedValue` | tools/armrecomp/decode.c:614-629 | the value of each modified immediate: a rotated byte with its top bit implied, or a byte in the chosen bytes of the word |
| `Immediate.LiteralOfEncoding` | tools/armrecomp/decode.c:870-896 | the scattered 16-bit literal of MOVW and MOVT is reassembled exactly |
| `Immediate.MovesBuildAnyWord` | tools/armrecomp/emit.c:428-434 | MOVW of a word's low half and the C emitted for MOVT of its high half build the word |
| `Immediate.MovTReplaces` | tools/armrecomp/emit.c:428-434 | the C emitted for MOVT replaces the top half and keeps the bottom |
| `Cpu.OverflowBits` | include/vitarecomp/recomp_rt.h:61-87 | the exclusive-or formulas for the overflow flag look at bit 31 only, as a sign comparison |
| `Cpu.TopIsBit31` | include/vitarecomp/recomp_rt.h:61-64 | bit 31 of a register is the sign test on the value it holds |
| `Cpu.OverflowIsSigns` | include/vitarecomp/recomp_rt.h:61-87 | the exclusive-or formulas on registers are the sign comparisons of the values they hold |
| `Cpu.Cpu.FlagsAdd` | include/vitarecomp/recomp_rt.h:66-70 | NZCV are those of AddWithCarry |
| `Cpu.Cpu.FlagsAdc` | include/vitarecomp/recomp_rt.h:72-79 | NZCV are those of AddWithCarry with the carry in |
| `Cpu.Cpu.FlagsSub` | include/vitarecomp/recomp_rt.h:83-87 | NZCV are those of adding the complement with a carry in |
| `Cpu.Cpu.Cond` | include/vitarecomp/recomp_rt.h:94-112 | after a comparison each condition 0 to 13 holds exactly when its integer relation does; 14 and 15 always hold; higher bits of the code are ignored |
| `Cpu.Cpu.AddWords` | tools/armrecomp/emit.c:442-476 | ADDS followed by ADCS over n-word numbers computes the exact sum, its overflow in the carry flag |
| `Cpu.Cpu.Compare` | tools/armrecomp/emit.c:519-526 | an emitted CMP and a condition decide the condition's relation of the operands |
| `Cpu.AddStep` | tools/armrecomp/emit.c:461-476 | one more word of a carry chain extends an exact sum to an exact sum |
| `Memory.StoreLoads` | src/mem.c:55-77 | a stored word is loaded back |
| `Memory.StoreElsewhere` | src/mem.c:55-77 | a store changes no word it does not overlap |
| `Memory.Memory.Ptr` | src/mem.c:36-42 | an access is allowed exactly when wholly backed, and refusals are counted |
| `Memory.Memory.Avail` | src/mem.c:44-49 | a length backed from the address, and the largest exactly when less than 4 GiB follows it: the C result is truncated to 32 bits |
| `Memory.Memory.Read32` | src/mem.c:55-60 | the little-endian word, or zero and a counted refusal |
| `Memory.Memory.Write32` | src/mem.c:74-77 | stores the word, or changes nothing and counts a refusal |
| `Stack.StoreAllLoads` | tools/armrecomp/emit.c:609-619 | every stored register is in its slot |
| `Stack.StoreAllElsewhere` | tools/armrecomp/emit.c:609-619 | memory below and above the frame is unchanged |
| `Stack.PushRunFramed` | tools/armrecomp/emit.c:601-621 | where the whole frame is backed and does not wrap, the stores of PUSH one by one, each dropped if unbacked, are the layout of the frame |
| `Stack.PopRunFramed` | tools/armrecomp/emit.c:623-634 | in such a frame the loads of POP one by one are its slots |
| `Stack.PushedElsewhere` | tools/armrecomp/emit.c:601-621 | PUSH changes no byte outside its frame |
| `Stack.Machine.Push` | tools/armrecomp/emit.c:601-621 | on every list and state PUSH makes its stores one by one, unbacked ones dropped, and moves only sp; in a backed frame it lays the listed registers out ascending below the old sp, the lowest register lowest |
| `Stack.Machine.Pop` | tools/armrecomp/emit.c:623-634 | on every list and state POP makes its loads one by one, unbacked ones zero, and returns iff the PC is listed; in a backed frame each listed register comes from its slot, the PC's is skipped, sp moves past the frame |
| `Stack.Machine.PushWorkPop` | tools/armrecomp/emit.c:601-634 | PUSH, any work that restores sp and writes any memory outside the frame, POP: the listed registers and sp are back, the rest is as the work left it, and popping the PC in lr's place returns and restores the rest alike |
| `Heap.Heap.constructor` | src/hle_libc.c:107-113 | a heap at any address and of any size, backed or not, starts with no blocks and the cursor past the errno word, if there is room for one |
| `Heap.Heap.Alloc` | src/hle_libc.c:118-134 | a block starts at the cursor rounded up, aligned and apart from all before it; null exactly on wrap or exhaustion, changing nothing |
| `Heap.Heap.Malloc` | src/hle_libc.c:136-139 | null for zero bytes, otherwise an allocation |
| `Heap.Heap.Realloc` | src/hle_libc.c:143-159 | a fresh block, and memory exactly as after moving min(n, avail) bytes into it, unless a pointer is null or an end unbacked; of a live block of a backed heap the first min(old size, n) bytes are carried over, short only where 4 GiB or more are backed from it |
| `Heap.Heap.CarriedElsewhere` | src/hle_libc.c:143-159 | no byte outside the new block changes, the errno word included |
| `Heap.SeenApart` | src/hle_libc.c:118-134 | blocks apart in a heap are apart by their 32-bit pointers, and clear of the errno word, also where these pass the top of the address space |
| `Heap.Heap.Run` | src/hle_libc.c:107-159 | after any sequence of malloc, realloc and free on a heap at any address and of any size, backed or not, all blocks given out are pairwise apart, also by their pointers, 8-aligned, inside the heap and clear of errno, whose word never changes |

## Left out

- Runs.ModuleSimulates: nothing is promised from the first instruction on that may be printed wrong. A function runs in the mode it is registered with, whatever the mode of the call; a firmware function returns and does not call back; C's own stack does not run out.
- Simulate.StatementMatches: what straight-line C does to the machine is a parameter, so the operand translations that differ from ARM (SBC flags, RSB operands, MUL.W and register shifts, shifter carry, shifted register offsets) are not judged, and so is what a call leaves in lr (`link`), which no statement does; instructions are what their record says, also where the record is wrong (`Misprints.JumpsRecordedAsReturns` and the lemmas after it).
- Decode.DecodeT16 and Decode.DecodeT32: encodings that move no control are a parameter (`DataForm`).
- Discover.DiscoverAll: module_start and export-table seeds enter as `entries`, none of them heuristic; the counters for refused seeds, shape rejections, bytes covered and SIMD instructions are not specified.
- Heap.Heap.constructor: a call before `vita_heap_init` is one on a heap of size 0.
- Memory.Memory.Avail: memory that was never allocated.
- Search.SortKeeps: `qsort` is an insertion sort on values; only what any sort gives is used.
- Search.Find: the searches over functions, stubs and labels are one method; import symbols are identified by their stub's address.
- Stubs.BuildStubs: the walk over variable-size import records and their names; records arrive decoded, and the segment is wholly present in the file.
- Addresses are unbounded naturals where the C adds to a 32-bit address: segment ranges, function bounds and falls past the top of the address space do not wrap.
- Allocation failure and the growth of `realloc` arrays; sequences stand for them.
- Floating point and VFP (`vfp.c`, the VFP cases of the emitter and decoder).
- Text formatting, the command line, file loading, container parsing, NID databases, generated HLE default files.
- Byte and halfword memory access, shifts, sign extension and bit fields of `recomp_rt.h`: easy members beside the flag helpers.
- The string functions of `hle_libc.c`, forwarded to the host.
- Traps stop the program; tracing past them and the de-duplication set of `trap.c` are not modelled.
