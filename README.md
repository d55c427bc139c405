# Fasta and binary-trees, modelled in Dafny

This project models the integer core of four Swift benchmark programs of the
Computer Language Benchmarks Game and proves properties of that model.

- **Sources/Fasta** (serial fasta):
  - a linear-congruential generator (`random`, `genRandom`);
  - a weighted lookup from a random value to a symbol (`WeightedRandom`);
  - a consumer that frames symbols into 60-column lines (`consumeRandom`);
  - `randomFasta`, which cuts the requested count into chunks of 614400 values that pass
    through a pool of four buffers;
  - a writer that prints finished chunks in generation order, parking the ones that arrive
    early (`deferedWrite`);
  - the block builder for the repeated sequence (`buildFastaBlockFromString`).
- **Sources/Fasta_Fast**:
  - the same lookup, with padded threshold slots and four-lane comparisons;
  - the shared generator `MyRandom`, which hands out blocks of values to threads in turn
    order;
  - the formatting loop of `fastRandom`, which closes every line, including a short last one,
    with a newline and then writes a NUL terminator.
- **Sources/BinaryTrees**:
  - perfect trees built bottom up (`bottomUpTree`) and checked by counting (`itemCheck`);
  - `inner`, which sums the checks of many trees in a wrapping `UInt32`;
  - the depth and iteration schedule derived from the command-line depth;
  - the order in which the `messages` dictionary is printed.
- **Sources/BinaryTrees_Fast**:
  - the integer power `exp`;
  - trees stored as an array of child-offset pairs, filled in place by `Tree.tree` and
    sized by `Tree.init`;
  - `itemCheck`, `isEmpty`, `left`, `right` and `inner` over that storage.

Modules:

| module | file | models |
|---|---|---|
| `Lcg` | lcg.dfy | the generator recurrence and the stream of values it produces |
| `Text` | text.dfy | bytes, and the two 60-column framings (`Lines`, which leaves a short last line open, and `Framed`, which closes every line) |
| `Sampler` | sampler.dfy | both `WeightedRandom` variants: table construction, the four-lane index computation, lookup |
| `Fasta` | fasta.dfy | the serial generator (class `Generator`), producer and consumer loops over arrays, the chunk plan of `randomFasta`, and its printed text |
| `FastaWriter` | writer.dfy | the writer closure (class `Writer`), its state as a value, and the proof that any arrival order allowed by the buffer semaphores prints chunks in order |
| `FastaBlock` | block.dfy | `buildFastaBlockFromString` |
| `FastaFast` | fastafast.dfy | `MyRandom` (a class) and the formatting loop of `fastRandom` over arrays |
| `Powers` | powers.dfy | integer powers, and Swift's truncating `/` and `%` |
| `BinaryTrees` | binarytrees.dfy | the enum tree, `inner`, the schedule and the printed report |
| `BinaryTreesFast` | binarytreesfast.dfy | `exp`, the arena tree (`TreeFill`, `NewTree` over an array) and its accessors |

Modelling choices:

- **Threshold slots.** The probabilities of an alphabet arrive already scaled: an entry
  carries its threshold `UInt32(acc * IM)` as an integer.
- **Uninitialised memory.**
  - An element slot that was never written is outside the element sequence.
  - A threshold slot the serial `WeightedRandom.init` never writes is `None`.
- **Text.** A NUL-terminated buffer read with `String(cString:)` becomes the function
  `CStringLength`.
- **Printing** becomes a returned byte sequence, or (in the writer) the list of slot indices
  printed so far.
- **Counters that wrap.** The two `inner` functions sum into a `UInt32` that wraps around
  modulo 2^32; the model states this explicitly. Both are compiled with `-Ounchecked`.
- **Lookup at a threshold.** A prose description of the lookup says that a value equal to a
  threshold selects the next entry. The code counts the thresholds *strictly* below the
  value, so such a value selects the threshold's own entry. The model follows the code
  (`Sampler.BoundaryExample`, `Sampler.CountBelowIsFirstAtLeast`).

## Model

| member | source | states |
|---|---|---|
| Lcg.Next | Sources/Fasta/main.swift:206-209 | one step of `random()` is `(seed * IA + IC) % IM` and is below IM |
| Lcg.NoOverflow | Sources/Fasta/main.swift:207 | for a seed below IM, `seed * IA + IC` stays below 2^32, so the UInt32 arithmetic never overflows |
| Lcg.FirstValue | Sources/Fasta/main.swift:110-113 | from seed 42 the first value is 52439 |
| Lcg.Stream | Sources/Fasta/main.swift:212-217 | the stream of n successive values has length n |
| Lcg.StreamAt | Sources/Fasta/main.swift:212-217 | value i of the stream is the seed after i + 1 steps |
| Lcg.IterateAdd | Sources/Fasta/main.swift:206-209 | a steps then b steps are a + b steps |
| Lcg.StreamSplit | Sources/Fasta/main.swift:310-314 | a stream of a + b values is the first a followed by the stream resumed from the seed they leave, so the second random section continues the first |
| Text.Lines | Sources/Fasta/main.swift:86-93 | reference framing: one newline per complete 60-symbol line; length is n + n / 60 |
| Text.LinesSnoc | Sources/Fasta/main.swift:86-93 | appending one symbol appends it, plus a newline exactly when it completes a line: the step of the consumer loop |
| Text.LinesAppend | Sources/Fasta/main.swift:231-260 | text split after whole lines frames piecewise, so chunks of whole lines concatenate into the framed stream |
| Text.LinesAt | Sources/Fasta/main.swift:181-196 | byte 61*j + k of the framed text is symbol 60*j + k, or a newline at k = 60 |
| Text.Framed | Sources/Fasta_Fast/main.swift:249-259 | the framing of fastRandom: one newline per group of at most 60 symbols; length n + ceil(n / 60) |
| Text.FramedIsLinesClosed | Sources/Fasta_Fast/main.swift:249-259 | Framed is Lines plus a closing newline exactly when the last line is short |
| Text.FramedSnoc | Sources/Fasta_Fast/main.swift:249-259 | framing one more symbol closes the group it ends in |
| Text.FramedAppend | Sources/Fasta_Fast/main.swift:249-259 | after whole lines, the rest frames on its own, closing newline included |
| Text.LinesKeepsNoNul | Sources/Fasta/main.swift:245 | framing adds only newlines, so a text without NUL stays without NUL |
| Text.LinesEndWithNewLine | Sources/Fasta/main.swift:268-272 | the framing of whole lines ends with the newline that stringRemainder drops |
| Sampler.CountBelow | Sources/Fasta_Fast/main.swift:90-96 | the index is the number of thresholds strictly below the value, at most the number of slots |
| Sampler.FirstAtLeast | Sources/Fasta_Fast/main.swift:90-98 | reference lookup: every threshold before the index is below the value, and the one at the index is at least the value |
| Sampler.CountBelowIsFirstAtLeast | Sources/Fasta_Fast/main.swift:90-98 | on non-decreasing thresholds the count equals the first threshold at least the value |
| Sampler.CountBelowAppend | Sources/Fasta_Fast/main.swift:90-96 | counts over consecutive groups of slots add up |
| Sampler.CountBelowNone | Sources/Fasta_Fast/main.swift:57 | slots at least the value add nothing to the index |
| Sampler.CountBelowLast | Sources/Fasta_Fast/main.swift:96-98 | a last threshold at least the value keeps the index below the slot count |
| Sampler.Cmplt | Sources/Fasta_Fast/main.swift:19-30 | `cmplt` subtracts the lane mask of `v .< needle` from each of the four lanes |
| Sampler.CountBelowFour | Sources/Fasta_Fast/main.swift:82-94 | the count over one group of four slots is the sum of four comparisons |
| Sampler.CmpltAdds | Sources/Fasta_Fast/main.swift:19-41 | subtracting an all-ones mask adds one: each `cmplt` adds its group's count to the lane sum |
| Sampler.VectorIndexIsCount | Sources/Fasta_Fast/main.swift:73-96 | four `cmplt` steps and `combine` compute exactly the number of thresholds below the value |
| Sampler.Padded | Sources/Fasta_Fast/main.swift:56-68 | 16 threshold slots: the entries' thresholds, then Int32.max |
| Sampler.InitFast | Sources/Fasta_Fast/main.swift:48-71 | the initialiser fills an Int32.max-filled array with the thresholds and symbols, giving exactly Padded |
| Sampler.SerialThresholds | Sources/Fasta/main.swift:23-45 | the serial initialiser writes the first entries' thresholds and slot 15 (Int32.max); slots in between stay uninitialised |
| Sampler.InitSerial | Sources/Fasta/main.swift:23-45 | the serial initialiser's loop produces SerialThresholds and the symbols |
| Sampler.SerialInitialisedIff | Sources/Fasta/main.swift:31-39 | every slot is written exactly when the alphabet has at least 15 entries; otherwise slot \|mapping\| is not |
| Sampler.SerialAgreesWithPadded | Sources/Fasta/main.swift:23-45 | with 15 entries (IUB) the serial and padded tables hold the same thresholds |
| Sampler.GenFromU32 | Sources/Fasta_Fast/main.swift:73-101 | the lookup yields the element at the count of thresholds below the value, and reads an unwritten element slot otherwise |
| Sampler.SerialGenFromU32 | Sources/Fasta/main.swift:47-73 | the serial lookup is defined only when every threshold slot was written |
| Sampler.PaddingNeverCounted | Sources/Fasta_Fast/main.swift:57 | Int32.max padding is never below a UInt32 value under Int32.max, so the index never exceeds the alphabet size |
| Sampler.LastThresholdCovers | Sources/Fasta_Fast/main.swift:73-101 | when the last threshold reaches the value, the lookup lands on a written element |
| Sampler.PaddedWellFormed | Sources/Fasta_Fast/main.swift:48-71 | a padded table whose last threshold reaches IM - 1 resolves every generator value |
| Sampler.Sample | Sources/Fasta_Fast/main.swift:73-101 | on a well-formed table every value below IM resolves to the element at its count |
| Sampler.SampleIsLookup | Sources/Fasta_Fast/main.swift:73-101 | Sample is genFromU32 on a well-formed table |
| Sampler.SampleAll | Sources/Fasta_Fast/main.swift:252-255 | the symbols of a run of values, one per value |
| Sampler.SampleAllAt | Sources/Fasta_Fast/main.swift:252-255 | symbol i of a run is the symbol of value i |
| Sampler.SampleAllAvoids | Sources/Fasta/main.swift:84-85 | no symbol outside the table's elements (for example NUL) ever appears |
| Sampler.SampleAllAppend | Sources/Fasta/main.swift:231-260 | symbols of two runs concatenate to the symbols of the joined run |
| Sampler.BoundaryExample | Sources/Fasta_Fast/main.swift:90-98 | on a 4-entry table, 0 and a value equal to the first threshold give 'a', the next value gives 'c', and IM - 1 gives 't' |
| Fasta.BufferSizes | Sources/Fasta/main.swift:107-110 | rndBufSize = 10240 * 60 and writeBufSize = 10240 * 61 |
| Fasta.Min | Sources/Fasta/main.swift:214 | min of two integers |
| Fasta.Generator.constructor | Sources/Fasta/main.swift:113 | the global seed starts at 42 |
| Fasta.Generator.Random | Sources/Fasta/main.swift:206-209 | random() advances the seed one step and returns it |
| Fasta.Generator.GenRandom | Sources/Fasta/main.swift:212-217 | for n >= 0, the first min(n, rndBufSize) slots get the next stream values, the rest is unchanged, and the seed advances by that many steps |
| Fasta.ConsumeRandom | Sources/Fasta/main.swift:78-96 | for n >= 0, the text buffer's prefix becomes the Lines framing of the first min(n, rndBufSize) symbols, and the bytes after it are unchanged |
| Fasta.ConsumePrefix | Sources/Fasta/main.swift:84-95 | the consumer loop over k values writes Lines of their symbols |
| Fasta.ConsumeOne | Sources/Fasta/main.swift:85-94 | one turn writes the symbol, then a newline when lineCounter reaches 60, extending the framed prefix |
| Fasta.TextPosition | Sources/Fasta/main.swift:85-94 | where symbol i and its newline land, and how lineCounter wraps |
| Fasta.TextBound | Sources/Fasta/main.swift:107-110 | the text of at most one chunk fits the text buffer |
| Fasta.FullChunkFillsBuffer | Sources/Fasta/main.swift:107-110 | a full chunk's text fills the text buffer to its last byte |
| Fasta.CStringLength | Sources/Fasta/main.swift:245 | `String(cString:)` reads up to the first NUL, and past the end (None) when there is none |
| Fasta.FirstNul | Sources/Fasta/main.swift:267 | a buffer whose first NUL is at i reads back with length i |
| Fasta.FullChunkUnterminated | Sources/Fasta/main.swift:155 | the text of a full chunk is writeBufSize bytes with no NUL, so printing it as a C string runs past the buffer |
| Fasta.Terminated | Sources/Fasta/main.swift:155 | corrected buffer: the text followed by a NUL |
| Fasta.TerminatedChunkPrintsText | Sources/Fasta/main.swift:245 | with the terminator, a full chunk prints exactly its writeBufSize bytes |
| Fasta.ChunksAreWholeLines | Sources/Fasta/main.swift:107-110 | a whole number of chunks is a whole number of lines |
| Fasta.ChunkStep | Sources/Fasta/main.swift:231-260 | the text of chunk c printed after chunks 0..c-1 is the text of the first c + 1 chunks, and the seeds compose |
| Fasta.PlanAsWritten | Sources/Fasta/main.swift:224-231 | junks - 1 full chunks and n % rndBufSize left; None (a trap) for n <= 0; covers n exactly when n is not a multiple of rndBufSize |
| Fasta.AsWrittenLosesChunk | Sources/Fasta/main.swift:224-231 | for a positive multiple of rndBufSize the plan covers only n - rndBufSize values and leaves nothing |
| Fasta.PlanCorrected | Sources/Fasta/main.swift:224-225 | corrected cut: full chunks plus a final part of 1..rndBufSize values, summing to n |
| Fasta.PlansAgree | Sources/Fasta/main.swift:224-225 | the two cuts agree exactly when n is not a multiple of rndBufSize |
| Fasta.KeptLength | Sources/Fasta/main.swift:268-271 | stringRemainder is r + r/60, less 1 when r is a multiple of 60 (so -1 for r = 0) |
| Fasta.LastPrint | Sources/Fasta/main.swift:267-272 | the final print is the Framed text of the final part, and traps exactly for an empty final part |
| Fasta.Output | Sources/Fasta/main.swift:220-273 | randomFasta's text for a plan is None exactly when the final part is empty |
| Fasta.RandomFastaAsWritten | Sources/Fasta/main.swift:220-273 | the chunk plan as written: printing happens only for a positive count |
| Fasta.CorrectedPrintsStream | Sources/Fasta/main.swift:220-273 | with the corrected cut, randomFasta prints Framed of the first n symbols of the stream |
| Fasta.AsWrittenPrintsStream | Sources/Fasta/main.swift:220-273 | with the chunk plan as written (full-chunk prints taken as terminated, see Left out), randomFasta prints the framed stream exactly when n > 0 and n % rndBufSize != 0, and traps otherwise |
| Fasta.AsWrittenPrintsFullChunk | Sources/Fasta/main.swift:224-245 | every count above rndBufSize prints at least one full chunk, so, with FullChunkUnterminated, every such run reads past a text buffer as written |
| Fasta.RandomFasta | Sources/Fasta/main.swift:220-273 | the method over the generator and buffers prints RandomFastaAsWritten and leaves the seed n steps on; for every n above rndBufSize, block 0 holds no NUL at the final `String(cString:)`, so as written that read runs past the buffer |
| Fasta.SeedAfterPlan | Sources/Fasta/main.swift:231-265 | full chunks then the remainder step the seed n times |
| Fasta.AsWrittenOutput | Sources/Fasta/main.swift:220-273 | RandomFastaAsWritten is the full-chunk text followed by the last print |
| Fasta.PrintFullChunks | Sources/Fasta/main.swift:231-260 | the full chunks printed in order are Lines of the first f * rndBufSize symbols, the seed advances accordingly, and after at least one chunk the text buffer holds no NUL |
| Fasta.FullChunk | Sources/Fasta/main.swift:234-245 | generate, consume and print one chunk: Lines of the next rndBufSize symbols, the whole text buffer (the terminated read of Fasta.Terminated, see Left out), leaving a text buffer with no NUL |
| Fasta.Produce | Sources/Fasta/main.swift:234-238 | genRandom then consumeRandom on r values frames their symbols into the text buffer, and the bytes after that text keep what they held |
| Fasta.PrintLast | Sources/Fasta/main.swift:264-272 | the remainder is generated into block 0, consumed, and its first stringRemainder bytes printed with a newline (the read modelled as stopping there, see Left out); as written the `String(cString: cBufs[0])` read finds no NUL when block 0 held a NUL-free text before, and whenever it stops inside the buffer it covers the printed bytes |
| Fasta.LastReadUnterminated | Sources/Fasta/main.swift:264-267 | a buffer whose first len bytes have no NUL reads back as a C string of at least len bytes, and of none at all when the bytes after them are an earlier NUL-free text |
| FastaWriter.Advance | Sources/Fasta/main.swift:246 | `(writeBlock + 1) & (nBufs - 1)` is the next slot modulo 4 |
| FastaWriter.AndMaskIsMod | Sources/Fasta/main.swift:153 | with nBufs a power of two, masking is reduction modulo nBufs |
| FastaWriter.RemoveFirst | Sources/Fasta/main.swift:253 | removing the first occurrence drops exactly one copy of the slot |
| FastaWriter.Drain | Sources/Fasta/main.swift:249-255 | the drain loop ends with writeBlock not parked and only appends to the output |
| FastaWriter.DrainStep | Sources/Fasta/main.swift:250-254 | one drain turn unparks one slot |
| FastaWriter.Ready | Sources/Fasta/main.swift:242-257 | a slot other than writeBlock is parked; writeBlock is printed first, then the drain runs |
| FastaWriter.Writer.constructor | Sources/Fasta/main.swift:226-227 | writeBlock 0 and nothing parked |
| FastaWriter.Writer.OnReady | Sources/Fasta/main.swift:240-258 | the writer closure's effect on its state is Ready |
| FastaWriter.ChunkOf | Sources/Fasta/main.swift:232 | the chunk in the window [e, e + 4) that uses slot x |
| FastaWriter.ChunkOfResidue | Sources/Fasta/main.swift:232 | the chunk of slot c % 4 in c's window is c |
| FastaWriter.ChunkOfNext | Sources/Fasta/main.swift:246 | moving the window on changes only the chunk of the slot just printed |
| FastaWriter.AdvanceResidue | Sources/Fasta/main.swift:246 | advancing slot e % 4 gives (e + 1) % 4 |
| FastaWriter.RemoveFirstMembers | Sources/Fasta/main.swift:253 | on a duplicate-free list, removal drops exactly that slot |
| FastaWriter.DrainStepKeepsInv | Sources/Fasta/main.swift:249-255 | a drain turn prints the next chunk and keeps the invariant |
| FastaWriter.DrainKeepsInv | Sources/Fasta/main.swift:248-256 | draining restores the writer invariant |
| FastaWriter.EmitKeepsInv | Sources/Fasta/main.swift:244-256 | the awaited chunk is printed, then the parked ones that follow it |
| FastaWriter.DeferKeepsInv | Sources/Fasta/main.swift:242-243 | a later chunk is parked and the invariant holds |
| FastaWriter.ArrivalKeepsInv | Sources/Fasta/main.swift:233-258 | any new chunk within nBufs of the next to print keeps the invariant |
| FastaWriter.Run | Sources/Fasta/main.swift:240-258 | the writer state after a sequence of arrivals |
| FastaWriter.RunKeepsInv | Sources/Fasta/main.swift:231-260 | every prefix of an arrival order allowed by the slot semaphores keeps the invariant |
| FastaWriter.AllArrivedSettles | Sources/Fasta/main.swift:242-257 | once chunks 0..k-1 have all arrived, all are printed in order and nothing is parked |
| FastaWriter.PrintsInGenerationOrder | Sources/Fasta/main.swift:231-260 | whatever order the chunks finish in, within the semaphores' backpressure, chunks 0..k-1 are printed in order, once each |
| FastaWriter.AnyOrderWithinPool | Sources/Fasta/main.swift:153-157 | any arrival order of at most four chunks prints them as 0, 1, ..., k-1 |
| FastaWriter.PoolBackpressure | Sources/Fasta/main.swift:233 | with no more chunks than buffers, no chunk waits on another's slot |
| FastaBlock.Cyclic | Sources/Fasta/main.swift:181-192 | byte i of the cyclic run is s[(from + i) mod \|s\|] |
| FastaBlock.Block | Sources/Fasta/main.swift:173-203 | the intended block: \|s\| * 61 bytes ending with the NUL terminator |
| FastaBlock.BlockAt | Sources/Fasta/main.swift:181-198 | byte 61*j + k is the cyclic string byte (60*j + k) mod \|s\|, a newline, or the final NUL |
| FastaBlock.CopyLine | Sources/Fasta/main.swift:182-195 | one loop turn appends the next 60 cyclic bytes and a newline, wrapping offset past the string's end |
| FastaBlock.CyclicLine | Sources/Fasta/main.swift:181-196 | the framed cycle grows by one line per loop turn |
| FastaBlock.BuildFastaBlock | Sources/Fasta/main.swift:173-203 | the built array is exactly Block(s) |
| FastaFast.BlockSizes | Sources/Fasta_Fast/main.swift:211-223 | BLKLEN = 60 * 1024, and the output buffer holds BLKLEN + LINES bytes |
| FastaFast.MyRandom.constructor | Sources/Fasta_Fast/main.swift:120-122 | seed 42, thread 0's turn, nothing drawn |
| FastaFast.MyRandom.Reset | Sources/Fasta_Fast/main.swift:124-127 | a new count and thread 0's turn; the seed is kept, so the stream continues |
| FastaFast.MyRandom.Gen | Sources/Fasta_Fast/main.swift:130-143 | nil and no change off-turn, for any count; on turn the turn passes on, and the next min(buf.count, count) stream values fill the buffer front and are deducted from count |
| FastaFast.FillStream | Sources/Fasta_Fast/main.swift:137-140 | the loop writes the next n stream values and returns the seed they leave |
| FastaFast.BlocksContinueStream | Sources/Fasta_Fast/main.swift:130-143 | successive blocks handed out concatenate into the section's stream |
| FastaFast.FramedStep | Sources/Fasta_Fast/main.swift:249-258 | after whole lines, the next group of at most 60 symbols and its newline extend the framed text |
| FastaFast.FormatLine | Sources/Fasta_Fast/main.swift:250-257 | symbols begin..end go at j + lineCount, then a newline at end + lineCount |
| FastaFast.PutNewLine | Sources/Fasta_Fast/main.swift:257 | the newline closing a line |
| FastaFast.PutSymbol | Sources/Fasta_Fast/main.swift:252-255 | one symbol written at j + lineCount |
| FastaFast.FormatBlock | Sources/Fasta_Fast/main.swift:247-259 | lineCount ends at ceil(count / 60), and the buffer's prefix is Framed of the block's symbols |
| FastaFast.FramedLine | Sources/Fasta_Fast/main.swift:249-258 | one stride turn extends the framed prefix to end = min(begin + 60, count) |
| FastaFast.NextLine | Sources/Fasta_Fast/main.swift:249-250 | the line at begin = 60 * lineCount fits the output buffer and ends at min(begin + 60, count) |
| FastaFast.LineCount | Sources/Fasta_Fast/main.swift:249 | the stride takes ceil(count / 60) turns |
| FastaFast.TerminatorIndex | Sources/Fasta_Fast/main.swift:263 | the terminator goes to count + lineCount |
| FastaFast.TerminatorOverrun | Sources/Fasta_Fast/main.swift:223 | the terminator index is inside the buffer exactly when the block is shorter than BLKLEN |
| FastaFast.FormatAndTerminate | Sources/Fasta_Fast/main.swift:247-264 | in a buffer one byte longer, the terminated block reads back as a C string of exactly its framed text |
| FastaFast.NoNulInFramed | Sources/Fasta_Fast/main.swift:264 | the framed symbols of a NUL-free table contain no NUL |
| Powers.TruncByTwo | Sources/BinaryTrees_Fast/main.swift:21-24 | Swift's `/ 2` and `% 2` agree with Euclidean ones on non-negative powers; on a negative power, `/ 2` moves toward zero and `% 2` is never 1 |
| Powers.TruncByMinusOne | Sources/BinaryTrees_Fast/main.swift:78 | dividing by 1 - 2 negates |
| BinaryTrees.ItemCheck | Sources/BinaryTrees/main.swift:19-31 | itemCheck is at least 1 |
| BinaryTrees.NodeCount | Sources/BinaryTrees/main.swift:14-17 | reference count of nodes |
| BinaryTrees.ItemCheckCountsNodes | Sources/BinaryTrees/main.swift:19-31 | on a full non-empty tree itemCheck equals the node count |
| BinaryTrees.ItemCheckCountsEmptyChild | Sources/BinaryTrees/main.swift:22-26 | with one empty child, itemCheck counts the empty child as a node |
| BinaryTrees.BottomUpTree | Sources/BinaryTrees/main.swift:33-40 | bottomUpTree never returns the empty tree |
| BinaryTrees.BottomUpTreeIsPerfect | Sources/BinaryTrees/main.swift:33-40 | bottomUpTree(d) is perfect of depth d |
| BinaryTrees.PerfectNodes | Sources/BinaryTrees/main.swift:14-17 | a perfect tree of depth d is full with 2^(d+1) - 1 nodes |
| BinaryTrees.CheckOfBottomUpTree | Sources/BinaryTrees/main.swift:19-40 | itemCheck(bottomUpTree(d)) = 2^(d+1) - 1 |
| BinaryTrees.RecordedTreeChecks | Sources/BinaryTrees/main.swift:134-144 | the recorded checks 8388607 (depth 22) and 4194303 (depth 21) |
| BinaryTrees.InnerCheck | Sources/BinaryTrees/main.swift:42-50 | the reported sum is below 2^32 |
| BinaryTrees.AddModStep | Sources/BinaryTrees/main.swift:46 | adding one more check to the wrapped sum |
| BinaryTrees.Inner | Sources/BinaryTrees/main.swift:42-50 | the loop's wrapped sum is iterations * (2^(depth+1) - 1) mod 2^32 |
| BinaryTrees.MaxDepth | Sources/BinaryTrees/main.swift:60-61 | maxDepth is n, raised to at least minDepth + 2 |
| BinaryTrees.BucketCount | Sources/BinaryTrees/main.swift:90-92 | there are at least two buckets |
| BinaryTrees.BucketDepth | Sources/BinaryTrees/main.swift:95 | every bucket depth is even and at least minDepth |
| BinaryTrees.Iterations | Sources/BinaryTrees/main.swift:96 | each bucket builds at least one tree |
| BinaryTrees.BucketDepths | Sources/BinaryTrees/main.swift:90-96 | the buckets are exactly the even depths from minDepth to maxDepth, in increasing order |
| BinaryTrees.BucketDepthBound | Sources/BinaryTrees/main.swift:90-95 | no bucket is deeper than maxDepth |
| BinaryTrees.BucketWork | Sources/BinaryTrees/main.swift:94-103 | every bucket's total check is 2^(maxDepth+5) less one tree's count |
| BinaryTrees.BucketCheckFits | Sources/BinaryTrees/main.swift:42-50 | up to depth 26 no bucket's sum wraps |
| BinaryTrees.RecordedBuckets | Sources/BinaryTrees/main.swift:134-144 | the recorded first and last buckets for depth 21 (65011712 and 67108832) |
| BinaryTrees.Keys | Sources/BinaryTrees/main.swift:72-103 | the message keys in print order: 0, the bucket depths, UINT32_MAX |
| BinaryTrees.KeyIsBucket | Sources/BinaryTrees/main.swift:95-102 | any other key is a bucket depth between minDepth and maxDepth |
| BinaryTrees.MessageFor | Sources/BinaryTrees/main.swift:72-103 | key 0 holds the stretch tree, UINT32_MAX the long-lived tree, and any other key its bucket |
| BinaryTrees.Messages | Sources/BinaryTrees/main.swift:62-109 | once all workers are done, the dictionary's keys are exactly Keys |
| BinaryTrees.HasMin | Sources/BinaryTrees/main.swift:111 | a non-empty key set has a least key |
| BinaryTrees.SortedKeys | Sources/BinaryTrees/main.swift:111 | sorting the keys by `<` gives an increasing sequence of exactly those keys |
| BinaryTrees.IncreasingUnique | Sources/BinaryTrees/main.swift:111 | two increasing sequences with the same keys are equal, so the print order is determined |
| BinaryTrees.KeysIncreasing | Sources/BinaryTrees/main.swift:72-103 | Keys is increasing |
| BinaryTrees.SortedMessageKeys | Sources/BinaryTrees/main.swift:111 | the sorted dictionary keys are Keys |
| BinaryTrees.PrintOrder | Sources/BinaryTrees/main.swift:111-113 | the loop prints the message of the i-th sorted key at position i |
| BinaryTrees.Report | Sources/BinaryTrees/main.swift:111-113 | the report has one line per bucket plus two, and line i is the message of key i of Keys |
| BinaryTrees.ReportAt | Sources/BinaryTrees/main.swift:111-113 | message i printed is the one under key i of Keys |
| BinaryTrees.ReportAll | Sources/BinaryTrees/main.swift:111-113 | every printed message is the one under the matching key of Keys |
| BinaryTrees.StretchMessage | Sources/BinaryTrees/main.swift:71-78 | key 0 holds the stretch tree of depth maxDepth + 1 with check 2^(maxDepth+2) - 1 |
| BinaryTrees.ReportFirst | Sources/BinaryTrees/main.swift:134 | the first line is the stretch tree |
| BinaryTrees.ReportLast | Sources/BinaryTrees/main.swift:144 | the last line is the long-lived tree, check 2^(maxDepth+1) - 1 |
| BinaryTrees.ReportOrder | Sources/BinaryTrees/main.swift:134-144 | stretch tree, then buckets from shallowest to deepest with their iterations and wrapped checks, then the long-lived tree |
| BinaryTreesFast.BitLength | Sources/BinaryTrees_Fast/main.swift:20-26 | the number of loop turns of exp on a non-negative power: zero exactly for power 0 |
| BinaryTreesFast.ExpStep | Sources/BinaryTrees_Fast/main.swift:21-25 | one turn keeps result * base^power invariant |
| BinaryTreesFast.SquareStep | Sources/BinaryTrees_Fast/main.swift:25 | squaring self^(2^k) gives self^(2^(k+1)) |
| BinaryTreesFast.ExpTurn | Sources/BinaryTrees_Fast/main.swift:20-26 | one turn keeps the loop invariant and moves the power toward zero |
| BinaryTreesFast.ExpDone | Sources/BinaryTrees_Fast/main.swift:28 | at power 0 the result is self^power (1 for a negative power), and the base is self^(2^BitLength(power)) |
| BinaryTreesFast.Exp | Sources/BinaryTrees_Fast/main.swift:15-29 | exp returns self^power for power >= 0 and 1 for a negative power; the final base is self^(2^BitLength(power)) |
| BinaryTreesFast.BitLengthBetween | Sources/BinaryTrees_Fast/main.swift:20-24 | a power in [2^(k-1), 2^k) takes k turns |
| BinaryTreesFast.ExpLastSquareOverflows | Sources/BinaryTrees_Fast/main.swift:25 | for 2.exp(p) with 32 <= p < 63 the result fits an Int but the final squared base 2^64 does not |
| BinaryTreesFast.MultiplyFits | Sources/BinaryTrees_Fast/main.swift:22 | the product `result * base` is bounded by the final result |
| BinaryTreesFast.SquareFits | Sources/BinaryTrees_Fast/main.swift:25 | squaring while two or more factors remain is bounded by the final result |
| BinaryTreesFast.PowNonZero | Sources/BinaryTrees_Fast/main.swift:15-29 | a power of a nonzero value is nonzero |
| BinaryTreesFast.ExpInt64 | Sources/BinaryTrees_Fast/main.swift:15-29 | corrected exp on 64-bit integers: same result; no intermediate overflows when the result fits |
| BinaryTreesFast.Root | Sources/BinaryTrees_Fast/main.swift:44-54 | the returned offset is 0 for depth 0, else the old offset plus one |
| BinaryTreesFast.HoldsFrame | Sources/BinaryTrees_Fast/main.swift:43-55 | a subtree depends only on its own 2^d - 1 slots |
| BinaryTreesFast.TreeFill | Sources/BinaryTrees_Fast/main.swift:43-55 | `tree` fills the 2^depth - 1 slots from offset on with a subtree, returns its root offset, advances offset past it and changes no other slot |
| BinaryTreesFast.HoldsForward | Sources/BinaryTrees_Fast/main.swift:43-55 | every child offset of a subtree points forward into the same subtree |
| BinaryTreesFast.CheckAt | Sources/BinaryTrees_Fast/main.swift:64-67 | `_itemCheck` of a node is at least 3 |
| BinaryTreesFast.ItemCheck | Sources/BinaryTrees_Fast/main.swift:115-118 | itemCheck is 1 exactly for the empty tree |
| BinaryTreesFast.SubtreeCheck | Sources/BinaryTrees_Fast/main.swift:64-67 | a subtree of depth d checks 2^(d+1) - 1 |
| BinaryTreesFast.ChecksOfChildren | Sources/BinaryTrees_Fast/main.swift:66 | two children checking k give 2k + 1 |
| BinaryTreesFast.TreeCheck | Sources/BinaryTrees_Fast/main.swift:72-118 | a built tree is well formed, empty exactly at depth 0, and checks the same as the serial bottomUpTree |
| BinaryTreesFast.SlotCount | Sources/BinaryTrees_Fast/main.swift:78 | (1 - 2^depth) / (1 - 2) is 2^depth - 1 |
| BinaryTreesFast.NewTree | Sources/BinaryTrees_Fast/main.swift:72-89 | Tree(depth) holds a perfect subtree in 2^depth - 1 slots and checks as the serial tree does |
| BinaryTreesFast.Left | Sources/BinaryTrees_Fast/main.swift:97-103 | left is a valid subtree further on in the same storage, or nil |
| BinaryTreesFast.RightAsWritten | Sources/BinaryTrees_Fast/main.swift:106-112 | right as written: a valid subtree of the same storage, or nil |
| BinaryTreesFast.Right | Sources/BinaryTrees_Fast/main.swift:106-112 | right as intended, reading the second component |
| BinaryTreesFast.ChildCheck | Sources/BinaryTrees_Fast/main.swift:66 | a missing child counts one |
| BinaryTreesFast.CheckOfChildren | Sources/BinaryTrees_Fast/main.swift:64-118 | itemCheck is 1 plus the checks of left and (corrected) right |
| BinaryTreesFast.RightAsWrittenIsLeft | Sources/BinaryTrees_Fast/main.swift:106-112 | as written, right equals left on every tree |
| BinaryTreesFast.RightAsWrittenMissesRightChild | Sources/BinaryTrees_Fast/main.swift:106-112 | on Tree(2), stored as [(2,3),(0,0),(0,0)], right as written yields offset 2 although the right child is at 3 |
| BinaryTreesFast.InnerFast | Sources/BinaryTrees_Fast/main.swift:122-129 | the fast inner computes the same wrapped sum as the serial one |

## Left out

- Concurrency: dispatch queues, semaphores, dispatch groups and threads are not modelled.
  - The writer is modelled as a sequential closure.
  - The semaphores' effect is a precondition on arrival orders (`FastaWriter.Backpressure`).
  - The order in which `fastRandom` threads print is not modelled. Each thread prints in
    turn order, because it formats only the block it was handed on its turn and then
    takes `pSemaphore`.
- Floating point: the cumulative probabilities `UInt32(acc * IM)` are taken as integer
  inputs. The float accumulation is not modelled.
- SIMD types and raw pointers:
  - the four-lane comparison is modelled lane by lane on integers (`Sampler.Cmplt`);
  - the x86 `combine` over two 64-bit halves is modelled as the plain sum of four lanes.
- Printing and command-line parsing are not modelled; printed text is returned as bytes.
- Not modelled:
  - `repeatFasta`;
  - the driver code (`benchmark`, `fastaRandomPar`, reading `n`);
  - the message strings of binary-trees (messages are values, not formatted text).
- Requirements the model demands explicitly, where the source only asserts or assumes:
  - `MyRandom` requires `0 < threadCount`, since `% threadCount` traps on zero;
  - `gen` requires `count >= 0` on the calling thread's turn only, since there a negative
    count makes `0..<toGen` trap; off-turn the guard returns before `count` is read;
  - `Fasta.Generator.GenRandom` and `Fasta.ConsumeRandom` require `n >= 0`: for a negative
    n the range `0..<min(n, rndBufSize)` traps in a checked build and runs off the buffer
    under `-Ounchecked`. `randomFasta` never passes a negative n on the paths the model
    reaches, since `Fasta.RandomFasta` stops with None for n <= 0;
  - `FastaBlock.BuildFastaBlock` requires a string of at least 60 bytes, which the
    repeated sequence (287 bytes) is. A string of 59 bytes also builds correctly (at turn t
    the offset is t and the second copy takes t + 1 <= 59 bytes) but is excluded. Fewer
    than 59 bytes make some turn copy past the end of the string (58 bytes: turn 29 starts
    at offset 58 and copies 60). The string is taken as ASCII bytes: the capacity
    `s.count * (linewidth + 1)` counts Characters while the loop counts UTF-8 bytes, so a
    non-ASCII string would under-allocate the block, which the model does not show.
- Sampler.SerialGenFromU32: any read of an uninitialised slot makes the result `None`,
  even where the garbage could not change the index.
- `Text.Byte` stands for UInt8. `Value`s and offsets are unbounded naturals where the
  source uses UInt32; each place where the width matters is stated explicitly:
  - `Lcg.NoOverflow`;
  - `BinaryTrees.InnerCheck` wraps modulo 2^32;
  - `FastaFast.TerminatorOverrun`.
- BinaryTrees.ItemCheck: does not model the UInt32 overflow of `itemCheck` on trees of
  depth 32 or more.
  - Such trees are far beyond memory.
  - The same holds for `BinaryTreesFast.CheckAt` and `_itemCheck`.
- BinaryTrees.Inner: the sum wraps modulo 2^32, as in the `-Ounchecked` build the sources
  record; a checked build would trap instead.
- BinaryTrees.Iterations: `UInt32(1 << (maxDepth - depth + minDepth))` is modelled as an
  unbounded power of two. The shift is on an Int, and the largest value (2^maxDepth, at
  depth 4) first fails to fit a UInt32 at maxDepth = 32. There the conversion traps in a
  checked build and is undefined under `-Ounchecked`; that case is not modelled.
- BinaryTreesFast.NewTree:
  - Swift leaves the storage uninitialised; the model's array starts default-filled, and
    the contract speaks only of the slots the fill writes (all of them).
  - The UInt32 conversions `.init(oldOffset + 1)` are modelled as naturals.
- BinaryTreesFast.Exp: Int is unbounded; `BinaryTreesFast.ExpInt64` is the 64-bit form.
- The fast benchmark driver reuses the serial schedule and report.
  - `BinaryTreesFast.TreeCheck` and `BinaryTreesFast.InnerFast` show its checks equal the
    serial ones.
  - So its printed report is `BinaryTrees.Report`.
- Fasta.PrintLast: prints the first stringRemainder bytes of block 0, i.e. the read is
  modelled as stopping at the end of the remainder's text. As written,
  `String(cString: cBufs[0])` (Sources/Fasta/main.swift:267) has no NUL after that text. For
  every n above rndBufSize block 0 still holds an earlier full chunk's NUL-free text, so
  the read runs past the buffer (Finding 5), also when the remainder is 0, since the read
  comes before the trap of `offsetBy: -1`. For smaller n, what follows is an earlier
  remainder's text or uninitialised memory. `Fasta.PrintLast` and `Fasta.RandomFasta` state the overrun in their ensures; the
  bytes read past the buffer are not modelled. Whenever the read does come back, its first
  stringRemainder bytes are the ones the model prints.
- Fasta.FullChunk: prints the whole text buffer, i.e. the read of `Fasta.Terminated`. As
  written, `String(cString:)` of the unterminated buffer reads past it (Finding 5,
  `Fasta.FullChunkUnterminated`, `Fasta.AsWrittenPrintsFullChunk`). The bytes read past
  the buffer depend on the allocator and are not modelled.
- Fasta.RandomFastaAsWritten: as written only in its chunk plan. Its full chunks print the
  terminated read of `Fasta.FullChunk` (Finding 5). `Fasta.ConsumeRandom` and
  `Fasta.RandomFasta` run on a well-formed padded table (`Sampler.WfTable`), the corrected
  table of Finding 1. The serial Homo sapiens table as written reads uninitialised slots
  (`Sampler.SerialGenFromU32`).
- Fasta.AsWrittenPrintsStream: states the output of `Fasta.RandomFastaAsWritten` and so
  carries both of its assumptions above.
- FastaFast.FormatAndTerminate: the text returned is the C string of the buffer. The
  `print` at Sources/Fasta_Fast/main.swift:264 adds its own newline after it, and the
  framed text already ends in one. So each printed block is followed by an empty line.
  Printing is not modelled.
- Value semantics of Swift arrays:
  - `Tree` copies of the storage are modelled as the sequence `storage[..]`.
  - `MyRandom` is accessed through a pointer; it is modelled as a class.

## Findings

| source | as written | input that shows it | evidently intended | confidence | as-written member | corrected member |
|---|---|---|---|---|---|---|
| Sources/Fasta/main.swift:31-39 | the serial `WeightedRandom.init` writes slots 0..\|mapping\|-1 and slot 15 only; `genFromU32` then compares all 16 slots | the 4-entry Homo sapiens alphabet leaves slots 4..14 uninitialised | every unused slot holds Int32.max, as in Sources/Fasta_Fast | not executed; high | Sampler.SerialInitialisedIff | Sampler.InitFast |
| Sources/Fasta/main.swift:224-272 | junks - 1 full chunks and a remainder of n % rndBufSize | n = 614400: no full chunk, remainder 0, and the slice end stringRemainder is -1 (trap); 614400 values are never printed | full chunks plus a final part of 1..rndBufSize values covering n | not executed; high | Fasta.AsWrittenLosesChunk | Fasta.CorrectedPrintsStream |
| Sources/Fasta_Fast/main.swift:223-263 | the output buffer holds BLKLEN + LINES bytes and the terminator goes to count + lineCount | a full block, count = 61440: the terminator is written at 62464, one past the end | a buffer of BLKLEN + LINES + 1 bytes | not executed; high | FastaFast.TerminatorOverrun | FastaFast.FormatAndTerminate |
| Sources/BinaryTrees_Fast/main.swift:106-112 | `right` reads `.0`, the left child offset | Tree(2), storage [(2,3),(0,0),(0,0)]: right gives the subtree at offset 2 | read `.1`, the right child offset | not executed; high | BinaryTreesFast.RightAsWrittenMissesRightChild | BinaryTreesFast.CheckOfChildren |
| Sources/Fasta/main.swift:155-267 | a full chunk's text is writeBufSize bytes without NUL, printed with `String(cString:)` at :245 and :251; the final read of block 0 at :267 has no NUL after the remainder's text either | any full chunk (n > 614400 values): the reads at :245/:251 continue past the buffer, and so does the one at :267, since block 0 still holds a full chunk's text (`Fasta.PrintLast`, `Fasta.RandomFasta`) | a text buffer one byte longer with a NUL after the text | not executed; high | Fasta.FullChunkUnterminated | Fasta.TerminatedChunkPrintsText |
| Sources/BinaryTrees_Fast/main.swift:20-26 | `base *= base` runs after the last bit of the power too | 2.exp(32) ... 2.exp(62) in Int: the result fits, but the last squaring gives 2^64 | square only while bits remain | not executed; medium (traps only in a checked build; the recorded build uses -Ounchecked) | BinaryTreesFast.ExpLastSquareOverflows | BinaryTreesFast.ExpInt64 |
