# bzip2 block compressor and command history: model and proofs

This project models two cores of the repository in Dafny and proves what they are for.

The large core is the block compressor in `contrib/bzip2`: run-length coding and the stream modes, both block sorts
and the hand-over between them, move-to-front coding in place, Huffman lengths and canonical codes, the bit writer,
the resumable decoder, both inverse transforms and both un-RLE loops. Every layer has a small specification over
sequences and an imperative model with the arrays, loops and in-place updates of the C code, proved against it. The
layers compose to one theorem in two forms. `RoundTrip.RoundTrip`: for every block size, work factor and mode of the
decompressor, and every schedule of calls with any slicing of input and output, decompressing what was produced gives
what was taken in. `RoundTrip.RoundTripAll`: every schedule the interface allows, in which each call gets room for at
least a byte, comes to an end on both sides, and the output is the input.

The small core is the history ring of `bld/cmdedit/cmdsave.c`: a circular area of records with a length at both ends,
eviction of whole records, a two-way cursor, and deletion.

How the files hang together:

- `Numbers`, `BitStrings`, `Permutations`, `InPlace`, `CountingSort`, `Rotations`, `Limits`, `Crc`, `CrcDetection`: words, bit
  strings, permutations, holes and swaps, stable counting sort, cyclic rotations and their order, constants, checksum and what it
  detects.
- `FallbackQuicksort`, `SegmentStack`, `BucketBits`, `FallbackOrder`, `FallbackSorting`: the doubling sort.
- `MainOrder`, `ComparisonLog`, `MainShellSort`, `MainQuicksort`, `MainStack`, `WordBuckets`, `MainRadix`, `RunningOrder`,
  `InducedOrder`, `BucketScan`, `BackScan`, `MainSorting`, `BlockSorting`: the main sort and the choice of sort.
- `RunLength`, `RunFilling`, `MoveToFront`, `MtfGeneration`, `HuffmanHeap`, `HuffmanForest`, `HuffmanBalance`,
  `HuffmanOptimal`, `HuffmanCost`, `HuffmanLengths`, `CanonicalCodes`, `HuffmanTables`, `TableChoice`, `MtfSending`, `BitWriter`, `BlockFormat`, `BlockCompression`,
  `Capacity`, `Compressor`: the compressor.
- `DecoderMachine`, `DecoderRun`, `HeaderDecoding`, `TablesDecoding`, `SymbolsDecoding`, `ColumnDecoding`,
  `BlockDecoding`, `StreamDecoding`: the decoder as a machine on values that stops at every GET_BITS, and what it makes
  of the compressor's streams.
- `TableReading`, `SymbolReading`, `DecoderState`, `LazyMtf`, `LinkTables`, `BitReader`, `InverseBwt`, `BlockOutput`,
  `Decompressor`: the decompressor itself, whose fields and arrays are updated in place and represent the machine's
  state at every label.
- `RoundTrip`: the two together. `HistoryRecords`, `CommandHistory`: the history.

Equal rows of a periodic block may be tied in any way by a block sort; orders are therefore weak throughout, and the
inverse transform is proved for every weak order. Words are integers with their ranges as types; shifts, masks and
ors are written as arithmetic, and where the source ors two parts it is proved that they share no bits. The words of
the fallback sort's bit table are vectors of 32 bits.

A result that differs from what a reader of cmdsave.c would expect: after the newest command has been deleted while
it is shown, the cursor stands at the free end, and the length that NextCmd reads there is that of the deleted record
and leads past the end of the records. `CommandHistory.History.DelCmd` states that this happens exactly then, and
`CommandHistory.DeletingNewest` gives a run of four calls that ends so.

## Model

| member | source | states |
|---|---|---|
| RoundTrip.RoundTripAll | contrib/bzip2/bzlib.c:406-902 | the whole codec on every schedule the interface allows: any requests to run or flush, then one to finish, each repeated until it is carried out, with any positive rooms and offers and any bytes behind the stream; both sides come to an end, the output is the input, and exactly the stream has been used |
| RoundTrip.RoundTrip | contrib/bzip2/bzlib.c:406-902 | for any schedule of compressor calls that reaches the end of the stream and any schedule of decompressor calls: no error, the output is always a beginning of the input, at the end of the stream it is the input, and a call with the rest of the data and ample room ends the stream; RUN calls and one FINISH call with room to spare do reach the end |
| RoundTrip.Compress | contrib/bzip2/bzlib.c:452-509 | if the end of the stream is reported, the bytes delivered over all calls are a complete stream that stands for exactly the bytes accepted |
| RoundTrip.CompressAll | contrib/bzip2/bzlib.c:452-509 | under any requests to run or flush and one to finish, with any positive rooms, the stream ends after at most as many calls as there are requests and bytes of output, and stands for all the input; without flushes every block but the last is full, with them at most one block more per flush is not; all tables and selectors are those of four refining passes |
| RoundTrip.CarryOut | contrib/bzip2/bzlib.c:452-509 | a request repeated with what is left of its input is carried out in finitely many calls, each but the last one delivering something; running adds only full blocks, flushing or finishing one at most that is not |
| RoundTrip.Decompress | contrib/bzip2/bzlib.c:852-902 | over any slicing, what is delivered, by a failing call too, is a beginning of what the whole data decodes to; STREAM_END and errors are the verdict on the whole data, and all of it has been used but the whole bytes the decoder had not come to |
| RoundTrip.DecompressFirst | contrib/bzip2/bzlib.c:852-902 | a complete stream with any bytes behind it, in any slices: its text and nothing else is delivered, and at the end of the stream exactly its bytes have been used |
| RoundTrip.DecompressAll | contrib/bzip2/bzlib.c:852-902 | a complete stream with any bytes behind it is delivered whole, and none of those bytes is used, within as many calls as there are bytes in and out and one more, with any positive offers and rooms |
| RoundTrip.CompleteDecodes | contrib/bzip2/compress.c:646-711 | a completed stream, all of it delivered, decodes to everything consumed, with both checksums in agreement |
| Compression.Compressor.BzCompress | contrib/bzip2/bzlib.c:452-509 | bytes are consumed and emitted in order; STREAM_END only with the last block and the trailer written and delivered; FINISH_OK and FLUSH_OK only when the room is used up, with avail_in_expect equal to the input left; a call out of order changes nothing and gets PARAM_ERROR while running and SEQUENCE_ERROR in any other mode; only full blocks are added, but for the last of a flush or finish |
| Compression.Compressor.HandleCompress | contrib/bzip2/bzlib.c:406-448 | the loop ends on every call, keeps the order of bytes in and out, stops only where the mode allows it, and a call that stops for lack of room has come nearer to the end of the stream; the blocks it adds are full, except the last when all input of a flush or finish is in |
| Compression.Compressor.Turn | contrib/bzip2/bzlib.c:412-446 | one turn of the loop: it either stops for one of the three reasons of its mode or leaves a block to deliver, having taken input or come nearer to the end |
| Compression.Compressor.OutputHalf | contrib/bzip2/bzlib.c:414-425 | delivers; a new block is begun only when the old one is out, and then a run is pending unless the stream rests |
| Compression.Compressor.InputHalf | contrib/bzip2/bzlib.c:427-443 | takes input; closes a block of 100000 * blockSize100k - 19 to - 15 bytes, or one of any size when the last of the input is in, with the pending run inside |
| Compression.Compressor.CloseFull | contrib/bzip2/bzlib.c:435-438 | a full block, never a smaller one, is written and leaves the pending run pending |
| Compression.Compressor.CloseLast | contrib/bzip2/bzlib.c:429-433 | the block of any size at the end of a flush or finish is written with the pending run inside |
| Compression.Compressor.Run | contrib/bzip2/bzlib.c:467-471 | one call while running: the input or the room is used up; PARAM_ERROR only when nothing was done |
| Compression.Compressor.Flush | contrib/bzip2/bzlib.c:487-495 | one call while flushing: FLUSH_OK with the room used up, or back to running with nothing left inside |
| Compression.Compressor.Finish | contrib/bzip2/bzlib.c:497-506 | one call while finishing: FINISH_OK with the room used up, or STREAM_END with everything delivered |
| Compression.Compressor.Proceed | contrib/bzip2/bzlib.c:487-506 | a stream that is being flushed or finished: only its own action with the input expected is carried out, anything else is refused with SEQUENCE_ERROR and changes nothing; the input all in stays in, and no block is added to it |
| Compression.Compressor.CopyInputUntilStop | contrib/bzip2/bzlib.c:334-374 | input is taken up to a full block or the end of the input; what the block and the pending run stand for grows by exactly the bytes taken |
| Compression.Compressor.CopyOutputUntilStop | contrib/bzip2/bzlib.c:379-401 | output is delivered in order up to the end of the room or of the block |
| Compression.Compressor.PrepareNewBlock | contrib/bzip2/bzlib.c:162-171 | an empty block; the pending run and the bits that wait in the register survive |
| Compression.Compressor.CompressBlock | contrib/bzip2/compress.c:646-711 | the block's runs are added to what the stream carries, the trailer is written exactly with the last block, and the bytes fit behind the block in arr2 |
| Compression.BlockProduced | contrib/bzip2/compress.c:648-697 | appending a valid block image to a stream under way gives a stream under way that carries its text too |
| Compression.StreamProduced | contrib/bzip2/compress.c:700-710 | the trailer completes the stream |
| Capacity.BlockFits | contrib/bzip2/bzlib.c:221-239 | with codes of at most 17 bits, residual bits, headers, tables, data and trailer of any block fit in the bytes of arr2 behind the block |
| Capacity.BlockLength | contrib/bzip2/compress.c:538-638 | a bound on the bits of a block from the number of its bytes and selectors |
| Capacity.SelectorCount | contrib/bzip2/compress.c:499-502 | one selector for every 50 symbols, so their number stays within its bound |
| RunFilling.RunBuffer.AddCharToBlock | contrib/bzip2/bzlib.c:305-329 | block and pending run stand for the old bytes and the new one; flags and checksum stay those of the block; at most five places are used |
| RunFilling.RunBuffer.AddPairToBlock | contrib/bzip2/bzlib.c:261-292 | the block becomes the coding of one run more; inUse and blockCRC follow |
| RunFilling.RunBuffer.AddSingle | contrib/bzip2/bzlib.c:309-317 | the fast path does the same for a run of one byte |
| RunFilling.RunBuffer.FlushRL | contrib/bzip2/bzlib.c:297-301 | nothing is pending any more, and the block stands for all bytes taken |
| RunFilling.FilledExtends | contrib/bzip2/bzlib.c:261-292 | coding, flags and checksum of a block extend by a run whose byte differs from the last one's or follows a full run of 255 |
| RunLength.UnRleInvertsEncode | contrib/bzip2/bzlib.c:627-705 | un-RLE of the coding of any list of runs gives the runs back, whatever byte lies behind the block |
| BlockSorting.BlockSort | contrib/bzip2/blocksort.c:1078-1136 | whatever the work factor: ptr lists all rotations in weak lexicographic order, the block is intact, and origPtr is the place of rotation 0; for 10000 bytes and more the work area of the fallback sort is touched only if the main sort made more rounds than the work factor allows, and never if all rotations differ within 20 bytes |
| BlockSorting.FindOrigPtr | contrib/bzip2/blocksort.c:1130-1135 | the search succeeds for every permutation: assertion 1003 |
| FallbackSorting.FallbackSort | contrib/bzip2/blocksort.c:259-376 | fmap lists all rotations in order, and the block, destroyed on the way, is back |
| FallbackSorting.Doubling | contrib/bzip2/blocksort.c:306-360 | from rows sorted and marked by one byte to rows sorted by the whole rotation; the loop ends |
| FallbackSorting.RefineBuckets | contrib/bzip2/blocksort.c:320-353 | one pass sorts and marks every bucket of several rows by twice as many bytes; nNotDone is 0 only if every row is a bucket of its own |
| FallbackSorting.FindBucket | contrib/bzip2/blocksort.c:324-339 | the next bucket of more than one row, or the end of the block; the sentinel bits stop the search |
| FallbackSorting.MarkBucket | contrib/bzip2/blocksort.c:346-351 | the bits mark exactly where the class changes |
| FallbackSorting.SetClasses | contrib/bzip2/blocksort.c:313-318 | class of position p is the head of the bucket of the row H further on; the block is lost here |
| FallbackSorting.PlaceRows | contrib/bzip2/blocksort.c:283-288 | rows by first byte, later rows first; ftab ends as the bucket starts |
| FallbackSorting.MarkStarts | contrib/bzip2/blocksort.c:290-304 | exactly the bucket starts, the end of the block and the sentinels are marked |
| FallbackSorting.RadixBucketed | contrib/bzip2/blocksort.c:283-292 | after the radix sort rows are sorted and marked by one byte |
| FallbackSorting.Rebuild | contrib/bzip2/blocksort.c:369-375 | the order and the byte counts give the block back byte for byte: assertion 1005 |
| FallbackSorting.FirstColumn | contrib/bzip2/blocksort.c:369-374 | whatever order sorts the rows by their first byte, its first column is the sorted block |
| FallbackOrder.BucketDone | contrib/bzip2/blocksort.c:342-352 | sorting one bucket by class and marking it keeps the invariant of the round |
| FallbackOrder.RoundEnds | contrib/bzip2/blocksort.c:320-358 | a completed round doubles the depth |
| FallbackOrder.Resolved | contrib/bzip2/blocksort.c:358-359 | at the loop's exit all rotations are sorted |
| FallbackOrder.HeadsCompare | contrib/bzip2/blocksort.c:313-318 | bucket heads compare exactly like the rows by H bytes |
| BucketBits.FirstOther | contrib/bzip2/blocksort.c:325-338 | the word-skipping search finds the bit a bit-by-bit search finds |
| BucketBits.Put | contrib/bzip2/blocksort.c:252-253 | one bit is set or cleared, no other changes |
| FallbackQuicksort.FallbackQSort3 | contrib/bzip2/blocksort.c:140-227 | the stretch is permuted and sorted by class, nothing else moves, the loop ends, and the stack never exceeds 18 of its 100 places: assertion 1004 |
| FallbackQuicksort.FallbackSimpleSort | contrib/bzip2/blocksort.c:79-106 | the stretch is permuted and sorted by class |
| FallbackQuicksort.SplitStretch | contrib/bzip2/blocksort.c:179-217 | below, equal and above the pivot, in that order |
| FallbackQuicksort.Partition | contrib/bzip2/blocksort.c:179-209 | the partition loop ends with unHi just left of unLo and the equal entries at both ends |
| FallbackQuicksort.JoinEquals | contrib/bzip2/blocksort.c:213-217 | the equal entries come to the middle, for every size of the four parts |
| SegmentStack.HalvingSplit | contrib/bzip2/blocksort.c:219-225 | pushing the larger part first keeps sizes halving with every place on the stack |
| SegmentStack.StillCovered | contrib/bzip2/blocksort.c:156-226 | permuting one stretch does not disturb the order between different stretches |
| SegmentStack.CoverRefined | contrib/bzip2/blocksort.c:156-226 | splitting a stretch into ordered parts keeps the cover |
| MainSorting.MainSort | contrib/bzip2/blocksort.c:798-1058 | with budget left ptr lists all rotations in weak order; in any case the block is intact. The budget goes down by the rounds of the comparisons made, which cost something only for two different rotations that agree on 12 bytes and 8 for every round, and no two are compared more than 14 times. So it is all left if no two rotations agree on 20 bytes, and the sort gives up if and only if more rounds were made than the budget |
| MainSorting.SortSmallBuckets | contrib/bzip2/blocksort.c:933-954 | step 1: every small bucket [ss, j], j not ss, is in order and flagged, or the budget is used up; it is charged for comparisons within buckets that had no flag only |
| MainSorting.BucketLogMore | contrib/bzip2/blocksort.c:938-951 | sorting a bucket that has no flag compares no two rows that have been compared before |
| MainSorting.ScanBucket | contrib/bzip2/blocksort.c:958-991 | step 2: every open bucket [t, ss] is filled and in order, the others are untouched, and the pointers met or the block has one byte value only: assertion 1007 |
| MainSorting.ScanFromLeft | contrib/bzip2/blocksort.c:970-975 | each open bucket [t, ss] holds the predecessors of the rows scanned so far, in order |
| MainSorting.ScanFromRight | contrib/bzip2/blocksort.c:976-981 | the same from the right end, without running into what came from the left |
| MainSorting.FinishBigBucket | contrib/bzip2/blocksort.c:958-993 | after the scans exactly the buckets with a finished first or second byte are flagged, and all flagged ones are in order |
| MainSorting.UpdateQuadrants | contrib/bzip2/blocksort.c:1034-1051 | the quadrant invariant extends to the finished byte, overshoot included, and every value fits 16 bits: assertion 1002 |
| MainSorting.UpdateEnds | contrib/bzip2/blocksort.c:1011-1032 | a smaller quadrant of a position with the same byte means an earlier row or an equal one |
| MainSorting.CopyOvershoot | contrib/bzip2/blocksort.c:841-845 | the block is continued cyclically by 34 bytes |
| MainSorting.AllFinished | contrib/bzip2/blocksort.c:909-1053 | when every byte has been finished, the rotations are sorted |
| MainSorting.SetFlag | contrib/bzip2/blocksort.c:952-952 | the flag is set, the bucket start below it stays |
| BackScan.ScansEnd | contrib/bzip2/blocksort.c:965-991 | together the scans fill every open bucket [t, ss] in order, for every block |
| BackScan.BucketFull | contrib/bzip2/blocksort.c:965-982 | if all rows of the big bucket are scanned, the two ends of a bucket meet and it is in order |
| BackScan.LeftComplete | contrib/bzip2/blocksort.c:970-975 | the left scan reaches every row whose run of ss ends with a smaller byte |
| BackScan.RightComplete | contrib/bzip2/blocksort.c:976-981 | the right scan reaches every row whose run of ss ends with a larger byte |
| BackScan.RightRow | contrib/bzip2/blocksort.c:976-981 | a scanned row finds room between what came from the left and from the right |
| BackScan.ConstantFinished | contrib/bzip2/blocksort.c:984-991 | in a block of equal bytes nothing is scanned and nothing needs to be |
| BucketScan.LeftRow | contrib/bzip2/blocksort.c:970-975 | a scanned row is a row of the block, and its predecessor finds room in its bucket |
| BucketScan.LeftFill | contrib/bzip2/blocksort.c:970-975 | storing the predecessor keeps the scan's invariant, also when it extends what is being scanned |
| BucketScan.StretchGood | contrib/bzip2/blocksort.c:918-954 | finished buckets that follow each other form one list of distinct rows in order |
| InducedOrder.PredsOrdered | contrib/bzip2/blocksort.c:958-982 | the rows before a list of distinct rows in order, as far as they begin with one byte, are distinct rows in order |
| InducedOrder.AllReached | contrib/bzip2/blocksort.c:958-982 | by induction on the run length, a list closed under taking the row before holds every run |
| InducedOrder.BelowFirst | contrib/bzip2/blocksort.c:958-982 | runs that end with a smaller byte come before runs that end with a larger one |
| RunningOrder.MakeRunningOrder | contrib/bzip2/blocksort.c:879-907 | every byte once, smaller big buckets first |
| MainRadix.RadixSort | contrib/bzip2/blocksort.c:816-877 | every row stands in the bucket of its first two bytes, ftab holds the bucket starts, the quadrants are zero |
| WordBuckets.BucketsPermutation | contrib/bzip2/blocksort.c:849-880 | buckets that hold their rows hold a permutation |
| WordBuckets.RowsFit | contrib/bzip2/blocksort.c:849-880 | a bucket has exactly as many places as rows with its word |
| MainStack.MainQSort3 | contrib/bzip2/blocksort.c:668-764 | with budget left the stretch is sorted by whole rotations, nothing else moves, the loop ends, and the stack never exceeds 22 of its 100 places: assertion 1001; the budget is charged for comparisons of rows of the stretch only, no two more than 14 times |
| MainStack.StackLogStep | contrib/bzip2/blocksort.c:691-763 | sorting the top stretch or splitting it leaves the rows of every stretch still on the stack uncompared with each other |
| MainStack.ShrinkingSplit | contrib/bzip2/blocksort.c:749-762 | pushed largest first, sizes fall by a factor of three over two places of the stack |
| MainStack.ToilLess | contrib/bzip2/blocksort.c:691-763 | every step leaves less to do, because the middle part goes one byte deeper and depth is bounded |
| MainStack.ThirdsDecide | contrib/bzip2/blocksort.c:703-751 | rows of different thirds are in order as whole rotations |
| MainStack.LargestFirst | contrib/bzip2/blocksort.c:753-758 | the three conditional swaps sort the parts by size |
| MainQuicksort.SplitByByte | contrib/bzip2/blocksort.c:703-747 | partition by the byte at depth d, with the pivot of three |
| MainQuicksort.Med3 | contrib/bzip2/blocksort.c:630-639 | one of three bytes, with one at most and one at least as large on either side |
| MainShellSort.MainSimpleSort | contrib/bzip2/blocksort.c:532-602 | with budget left the stretch is sorted by whole rotations; in any case it is permuted; no two rows are compared more often than there are increments below its size, and the budget goes down by the rounds of these comparisons |
| MainShellSort.ShellPass | contrib/bzip2/blocksort.c:552-600 | one pass compares no two rows twice, is charged for exactly its comparisons, and is abandoned only with the budget used up; with increment 1 it sorts |
| MainShellSort.InsertDown | contrib/bzip2/blocksort.c:557-569 | one insertion permutes; with increment 1 it extends the sorted part; it compares the row that is inserted, with no other row twice, and the budget goes down by the rounds of these comparisons |
| MainShellSort.AnswerRanks | contrib/bzip2/blocksort.c:561-563 | comparing d bytes further on is right for rows that share d bytes |
| MainOrder.MainGtU | contrib/bzip2/blocksort.c:394-516 | the answer agrees with the order of whole rotations, either answer being right for equal rows; for starts below nblock + 15 no read goes to nblock + 34 or beyond, and rows that begin alike are read 19 places beyond their starts. The budget is charged if and only if 12 bytes and the next 8 places of bytes and quadrants are alike, with one round for every 8 places behind the first 12, until a place tells the rows apart or they have been gone through |
| ComparisonLog.NeverCharged | contrib/bzip2/blocksort.c:455-514 | where all rotations differ within 20 bytes, comparisons cost nothing |
| ComparisonLog.PaidShared | contrib/bzip2/blocksort.c:561-563 | rows that share d bytes and were charged for a comparison d bytes further on agree on all the bytes that were paid for |
| MainOrder.OvershootNeeded | contrib/bzip2/bzlib_private.h:220-223 | a comparison at depth 15 that does read the last byte of the overshoot, for every block size: none of the 34 can be spared |
| MainOrder.MixedStep | contrib/bzip2/blocksort.c:457-512 | a difference in byte or quadrant decides; else one byte more agrees, also across the wrap |
| MainOrder.RankOrders | contrib/bzip2/blocksort.c:394-516 | ranks order rows exactly like whole rotations |
| MtfGeneration.GenerateMtfValues | contrib/bzip2/compress.c:164-275 | arr1 ends with the symbols of the last column and the end of block, at most nblock + 1 of them, with their counts; no sort entry is overwritten before it is used |
| MtfGeneration.EmitZeroRun | contrib/bzip2/compress.c:218-232 | appends the bijective base-2 digits of the run |
| MtfGeneration.BringToFront | contrib/bzip2/compress.c:233-249 | finds the byte and brings it to the front of the list |
| MtfGeneration.MakeMaps | contrib/bzip2/compress.c:150-159 | used bytes are numbered in order |
| MtfGeneration.SetMtfv | contrib/bzip2/bzlib.c:243-246 | a 16-bit store through mtfv changes one half of one word of arr1 |
| MoveToFront.ZeroRunDecodes | contrib/bzip2/decompress.c:420-431 | the digits sent for any run decode to its length |
| MoveToFront.RunStaysSmall | contrib/bzip2/decompress.c:419-431 | while the digits of a run of z bytes are read, N stays within z + 1 and es within z, so neither leaves 32 bits in a stream of the compressor |
| MoveToFront.MtfSymbolsBounded | contrib/bzip2/compress.c:164-275 | one symbol at most per byte, each within the alphabet |
| TableChoice.ChooseTables | contrib/bzip2/compress.c:310-502 | the tables and selectors of the last of four passes from the initial partition: in every pass each group takes the first of the tables that are cheapest for it, and each table becomes a cheapest code for the symbols of exactly the groups that chose it; 2 to 6 tables by the number of symbols, complete codes of at most 17 bits |
| TableChoice.InitialTables | contrib/bzip2/compress.c:323-361 | the initial parts are consecutive stretches that together hold every symbol that occurs; each is the shortest with a fair share of what is left, less its last symbol for every other inner part |
| TableChoice.ChooseSelectors | contrib/bzip2/compress.c:386-479 | for every group the first of the tables that are cheapest for it, and the usage counts of every table |
| TableChoice.FastCosts | contrib/bzip2/compress.c:402-429 | the packed sums give the same costs as the plain loop: lanes do not run into each other |
| TableChoice.SlowCosts | contrib/bzip2/compress.c:431-437 | the cost of a group with every table |
| TableChoice.Cheapest | contrib/bzip2/compress.c:443-445 | the first of the cheapest tables |
| TableChoice.MakeTables | contrib/bzip2/compress.c:493-495 | every table becomes a complete code that is a cheapest one for its usage counts |
| HuffmanLengths.MakeCodeLengths | contrib/bzip2/huffman.c:103-188 | for 2 to 258 symbols, any counts below the limit, and every maxLen with codes enough for the symbols, the loop ends, lengths lie in 1..maxLen, and the Kraft sum is exactly 1; no prefix code at all is cheaper for the counts, scaled down no more often than it takes to come to maxLen bits |
| HuffmanOptimal.Optimal | contrib/bzip2/huffman.c:140-150 | Huffman's theorem: no prefix code of any lengths costs less than merging the two lightest weights again and again |
| HuffmanCost.CostMerges | contrib/bzip2/huffman.c:140-150 | merging the two lightest trees of the forest keeps the cost of the leaves and that of the merges still to come in balance |
| HuffmanCost.CostEnds | contrib/bzip2/huffman.c:152-161 | the depths in the last tree are the lengths of a cheapest code for the leaves |
| HuffmanLengths.OrderKept | contrib/bzip2/huffman.c:121-186 | a symbol that occurs more often has no longer code if its scaled count is still larger |
| HuffmanLengths.TiesExchange | contrib/bzip2/huffman.c:121-186 | where the scaled counts are equal, the lengths of the two symbols may be exchanged and the code is still a cheapest one, so the counts do not decide |
| HuffmanLengths.CountsDoNotOrder | contrib/bzip2/huffman.c:121-122 | for any code of three symbols, counts of 0 and 1 that weigh the same and give the symbol that occurs the longer code |
| HuffmanBalance.AlwaysTooLong | contrib/bzip2/huffman.c:155-186 | with more symbols than codes of maxLen bits every tree is too deep, so the loop ends exactly when there are enough |
| HuffmanBalance.ScalingHelps | contrib/bzip2/huffman.c:182-186 | if a length is too long, scaling lowers the sum of the counts |
| HuffmanBalance.ScaledFixed | contrib/bzip2/huffman.c:182-186 | scaling never raises the sum, and keeps it only when all counts are 1 or 2 |
| HuffmanBalance.RoundGoesOn | contrib/bzip2/huffman.c:140-150 | with counts of 1 and 2 the merge loop works in rounds: early trees are merged first, and no tree is heavier than two others together |
| HuffmanBalance.NextRound | contrib/bzip2/huffman.c:140-150 | a round halves the number of trees and adds one level |
| HuffmanBalance.RoundsEnd | contrib/bzip2/huffman.c:140-161 | so the tree has at most k levels when there are at most 2 to the k symbols |
| HuffmanLengths.MergeLightest | contrib/bzip2/huffman.c:140-150 | the two lightest trees become one; heap, forest and weights stay in step |
| HuffmanLengths.FillHeap | contrib/bzip2/huffman.c:124-138 | the heap holds all leaves and the sentinel |
| HuffmanForest.MergeOk | contrib/bzip2/huffman.c:140-150 | merging keeps the forest invariant, with weights below 2 to the 31st and the Fibonacci bound |
| HuffmanForest.TreesShallow | contrib/bzip2/huffman.c:65-71 | the packed 8-bit depth never overflows |
| HuffmanForest.FinalKraft | contrib/bzip2/huffman.c:155-161 | the depths in one tree have Kraft sum exactly 1 |
| HuffmanHeap.UpHeap | contrib/bzip2/huffman.c:73-82 | restores the heap order after an entry was appended |
| HuffmanHeap.DownHeap | contrib/bzip2/huffman.c:84-99 | restores the heap order after the first entry was replaced |
| HuffmanTables.AssignCodes | contrib/bzip2/huffman.c:192-206 | the canonical code of every symbol |
| HuffmanTables.CreateDecodeTables | contrib/bzip2/huffman.c:210-240 | limit, base and perm are those with which the decoder is proved |
| CanonicalCodes.PrefixFree | contrib/bzip2/huffman.c:192-206 | no code is a prefix of another, for any lengths that obey Kraft |
| CanonicalCodes.CodeInRange | contrib/bzip2/huffman.c:192-206 | codes fit their lengths and stay within the limit |
| CanonicalCodes.ShorterPrefixExceedsLimit | contrib/bzip2/decompress.c:130-137 | a proper prefix of a code exceeds the limit of its length, so the decoder reads on |
| CanonicalCodes.BaseGivesRank | contrib/bzip2/decompress.c:138-141 | code minus base is the symbol's place in perm |
| MtfSending.SendMapping | contrib/bzip2/compress.c:538-555 | appends the two-level byte map |
| MtfSending.CodeSelectors | contrib/bzip2/compress.c:505-522 | the move-to-front positions of the selectors |
| MtfSending.SendSelectors | contrib/bzip2/compress.c:561-568 | appends the counts and the selectors in unary |
| MtfSending.SendTables | contrib/bzip2/compress.c:572-583 | appends the code lengths as steps |
| MtfSending.SendData | contrib/bzip2/compress.c:588-638 | appends the code word of every symbol in the table of its group; assertions 3006 and 3007 |
| BlockCompression.EncodeBlock | contrib/bzip2/compress.c:674-697 | appends exactly the bits of a valid image of the block, from any weak sort order, with the tables and selectors of the four refining passes on its symbols |
| BlockCompression.SendMtfValues | contrib/bzip2/compress.c:283-642 | appends map, selectors, tables and data; tables and selectors are those of the four refining passes |
| BlockCompression.PutUInt32 | contrib/bzip2/compress.c:127-133 | appends 32 bits |
| BitWriting.BitWriter.W | contrib/bzip2/compress.c:117-122 | the bits written grow by the n bits of v; the register never overflows |
| BitWriting.BitWriter.Finish | contrib/bzip2/compress.c:90-98 | the bytes are the bits written, padded with fewer than 8 |
| BitWriting.BitWriter.DrainTop | contrib/bzip2/compress.c:102-111 | moves 8 bits from register to zbits, changing nothing of what was written |
| BitReading.BitReader.Decompress | contrib/bzip2/decompress.c:83-105 | whatever input follows, the saved fields and unread bits continue the run that was started; OK without a block means that the input is used up; less than a byte is left in the register when it returns |
| BitReading.BitReader.Load | contrib/bzip2/decompress.c:95-101 | the register takes one byte more without losing a bit |
| BitReading.NeedFits | contrib/bzip2/decompress.c:83-105 | no field is wider than 24 bits, so the register never overflows |
| DecoderRun.RunResumes | contrib/bzip2/decompress.c:207-235 | the machine may be cut anywhere: going on from its state ends in the same state with the same verdict; that the saved fields of the source hold that state at every label is DecoderState.Decoder.Advance |
| DecoderRun.DeliversRun | contrib/bzip2/decompress.c:146-660 | what a stretch of bits leads to does not depend on the bits that follow |
| DecoderMachine.Advance | contrib/bzip2/decompress.c:236-632 | from one label to the next; whatever the bits, the next label finds the indices it uses within tables, list, map and column; selectors beyond 18002 and the 32-bit range of es and N are not covered |
| DecoderState.Decoder.Advance | contrib/bzip2/decompress.c:179-632 | from one GET_BITS to the next on the fields of DState: whatever they hold besides what is live at the label, they end as the machine's step says, so no local that is not saved is live across a suspension |
| DecoderState.Decoder.AdvanceTables | contrib/bzip2/decompress.c:306-413 | byte map, selectors, code lengths, and with the last length everything the symbols need |
| DecoderState.Decoder.SizeTables | contrib/bzip2/decompress.c:250-260 | room for the largest block of the stream, in the layout chosen |
| DecoderState.Decoder.BeginNext | contrib/bzip2/bzlib.c:876-880 | the combined checksum moves on, and the next block header is read |
| TableReading.TableReader.Advance | contrib/bzip2/decompress.c:306-369 | byte map, selectors and code lengths in place, label by label as the machine |
| TableReading.TableReader.UndoMtf | contrib/bzip2/decompress.c:342-354 | the selectors behind their move-to-front positions |
| TableReading.TableReader.MakeMaps | contrib/bzip2/decompress.c:66-76 | the used bytes in order |
| SymbolReading.SymbolReader.Advance | contrib/bzip2/decompress.c:411-524 | code words, runs and literals in place, label by label as the machine; at the end of the block column and byte counts are those of the machine |
| SymbolReading.SymbolReader.Begin | contrib/bzip2/decompress.c:371-413 | decode tables, byte counts, list and column for the first symbol |
| SymbolReading.SymbolReader.CheckCode | contrib/bzip2/decompress.c:114-142 | the code loop with the arrays limit, base and perm decides as the machine does |
| SymbolReading.SymbolReader.StoreRun | contrib/bzip2/decompress.c:431-448 | a run is stored and counted if and only if there is room for it |
| SymbolReading.SymbolReader.Literal | contrib/bzip2/decompress.c:452-517 | a byte is taken from the sixteen slices, stored and counted |
| DecoderMachine.IndexWithinAlphabet | contrib/bzip2/decompress.c:138-141 | for any code lengths an accepted code names a symbol of the alphabet |
| HeaderDecoding.StreamHeaderRead | contrib/bzip2/decompress.c:237-260 | reads back the stream header |
| HeaderDecoding.BlockHeaderRead | contrib/bzip2/decompress.c:262-304 | reads back checksum and origin pointer |
| HeaderDecoding.TrailerRead | contrib/bzip2/decompress.c:602-626 | reads back the combined checksum and ends the stream |
| TablesDecoding.SelectorsInvert | contrib/bzip2/decompress.c:343-354 | undoing the move-to-front of the selectors gives them back |
| TablesDecoding.TablesReadBack | contrib/bzip2/decompress.c:356-369 | reads back all code lengths |
| SymbolsDecoding.CodeComplete | contrib/bzip2/decompress.c:114-142 | with all bits of a code word in, the symbol comes out |
| SymbolsDecoding.CodeIncomplete | contrib/bzip2/decompress.c:130-137 | before that, exactly one bit more is asked for |
| SymbolsDecoding.SymbolRead | contrib/bzip2/decompress.c:114-142 | reading one code word in the table of its group gives its symbol and changes nothing else |
| ColumnDecoding.StreamRead | contrib/bzip2/decompress.c:411-519 | the symbols of any column, read to the end of the block, rebuild the column |
| ColumnDecoding.LiteralRead | contrib/bzip2/decompress.c:452-518 | a run and a literal append the right bytes, and the lists stay in agreement |
| ColumnDecoding.ZeroRunRead | contrib/bzip2/decompress.c:417-450 | a run of any length appends as many front bytes |
| BlockDecoding.BlockRead | contrib/bzip2/decompress.c:262-598 | the bits of any valid image lead to its last column, origin pointer and checksum |
| StreamDecoding.StreamRoundTrip | contrib/bzip2/decompress.c:146-660 | whatever orders, tables and selectors were chosen, a valid stream decodes to its texts and ends with STREAM_END |
| StreamDecoding.DecodeExtends | contrib/bzip2/decompress.c:83-105 | a verdict once reached does not depend on the bits that follow, and leaves all of them unread |
| StreamDecoding.StreamThenTail | contrib/bzip2/decompress.c:621-626 | a complete stream with anything behind it decodes to the same text and leaves whole all the bytes behind it |
| StreamDecoding.DamageRefused | contrib/bzip2/bzlib.c:868-875 | a block that comes out with damage within four consecutive bytes is refused with DATA_ERROR, and the stream ends there |
| StreamDecoding.BlockDecodes | contrib/bzip2/bzlib.c:863-896 | one block delivers its text, and the combined checksum moves on as it did in the compressor |
| StreamDecoding.ImageBytes | contrib/bzip2/decompress.c:544-596 | the inverse transform of an image delivers the block |
| LazyMtf.MtfList.Take | contrib/bzip2/decompress.c:456-507 | the sixteen drifting slices stay ordered and disjoint and behave like move-to-front on a plain list; the list stays a permutation |
| LazyMtf.MtfList.TakeNear | contrib/bzip2/decompress.c:462-476 | within the first slice |
| LazyMtf.MtfList.TakeFar | contrib/bzip2/decompress.c:477-496 | across slices, each passing its last entry up, even when that cell is shared |
| LazyMtf.MtfList.Repack | contrib/bzip2/decompress.c:496-505 | copying all slices up in place loses no entry |
| LazyMtf.MtfList.Init | contrib/bzip2/decompress.c:398-410 | the bytes in order |
| LazyMtf.MtfList.Front | contrib/bzip2/decompress.c:433-433 | the first entry of the list |
| InverseBwt.WalkSpellsBlock | contrib/bzip2/decompress.c:579-594 | from origPtr the walk spells the block, for every weak order of the rotations |
| InverseBwt.RotatedOrderSorted | contrib/bzip2/decompress.c:579-594 | going back one byte in every row permutes a weakly sorted order into one |
| LinkTables.BuildFast | contrib/bzip2/decompress.c:577-584 | in place of the column, tt holds the byte of every row and above it the next row, within 32 bits |
| LinkTables.BuildSmall | contrib/bzip2/decompress.c:541-565 | in place of the column, the 20-bit table with the cycle through origPtr turned round |
| LinkTables.BlockTables.Build | contrib/bzip2/decompress.c:527-584 | bucket starts from the byte counts, then either table in place of the column |
| LinkTables.BlockTables.Put | contrib/bzip2/decompress.c:436-448 | the next byte of the column is stored in tt or ll16 |
| LinkTables.GetLL | contrib/bzip2/bzlib_private.h:494-503 | the 20-bit entry of the two arrays |
| LinkTables.ComputeT | contrib/bzip2/decompress.c:546-554 | the nibble-packed T is the rank of every position |
| LinkTables.ReverseCycle | contrib/bzip2/decompress.c:556-565 | pointer reversal in place turns every link of the cycle through origPtr and no other |
| LinkTables.SetLL | contrib/bzip2/bzlib_private.h:488-500 | one 20-bit entry changes, its neighbour in the shared byte does not |
| LinkTables.IndexIntoF | contrib/bzip2/bzlib.c:731-742 | the binary search finds the bucket of a sorted position |
| BlockOutput.BlockWriter.UnRleFast | contrib/bzip2/bzlib.c:581-726 | what is delivered and what is left make up what was left before, the checksum follows, and it stops only when the room or the block is used up; a corrupt block is recognised |
| BlockOutput.BlockWriter.UnRleSmall | contrib/bzip2/bzlib.c:750-848 | the same for the SMALL table |
| BlockOutput.BlockWriter.Prepare | contrib/bzip2/decompress.c:527-596 | either table makes the whole decoded block come next |
| BlockOutput.BlockWriter.Get | contrib/bzip2/bzlib_private.h:478-507 | BZ_GET_FAST and BZ_GET_SMALL fetch the same byte of the walk |
| Decompression.Decompressor.BzDecompress | contrib/bzip2/bzlib.c:852-902 | whatever input follows, the output comes first in what the whole stands for and the saved state accounts for the rest; OK means that room or input is used up; a call that ends the stream or fails has used the input up to less than a byte behind what the verdict needed, and has delivered a beginning of what there was |
| Decompression.Decompressor.Deliver | contrib/bzip2/bzlib.c:863-884 | a block whose checksum does not match is refused, else the next one is begun; what was delivered is a beginning either way |
| Decompression.Decompressor.Parse | contrib/bzip2/bzlib.c:885-896 | reads on to a block, the end with matching combined checksum, an error, or the end of the input; at the end and at an error what is still ahead is what the decoding of the whole left over |
| Crc.UpdateAllAppend | contrib/bzip2/bzlib_private.h:201-207 | the checksum of a concatenation is the checksum continued |
| CrcDetection.UpdateDivides | contrib/bzip2/bzlib_private.h:201-207 | one step by the table divides the checksum, with the byte mixed in at the top, by eight bits of the generator polynomial |
| CrcDetection.TableLinear | contrib/bzip2/crctable.c:71-139 | the entry of an exclusive or is the exclusive or of the entries |
| CrcDetection.TablePowers | contrib/bzip2/crctable.c:71-139 | the entries at 0 and the powers of two are those listed; linearity gives every other entry from them |
| CrcDetection.UpdateAllInjective | contrib/bzip2/bzlib_private.h:201-207 | different checksums stay different whatever bytes follow |
| CrcDetection.DamageDetected | contrib/bzip2/bzlib_private.h:191-207 | texts that differ within four consecutive bytes and nowhere else have different checksums |
| HistoryRecords.HistoryIsSuffix | bld/cmdedit/cmdsave.c:166-250 | after any run of saves the records are the longest suffix, for which there is room, of the empty record and the commands without empty ones and adjacent repeats |
| HistoryRecords.FitLongest | bld/cmdedit/cmdsave.c:167-174 | eviction keeps every record for which there is room |
| HistoryRecords.ParsesForward | bld/cmdedit/cmdsave.c:177-189 | reading lengths from the front finds the records |
| HistoryRecords.ParsesBackward | bld/cmdedit/cmdsave.c:177-189 | so does reading lengths from the back |
| CommandHistory.Session | bld/cmdedit/cmdsave.c:154-250 | after any session of saves the area from FirstCmd to FirstFree parses both ways into that suffix |
| CommandHistory.History.constructor | bld/cmdedit/cmdsave.c:154-164 | one empty record, and the cursor on it |
| CommandHistory.History.SaveByte | bld/cmdedit/cmdsave.c:167-174 | a full area loses exactly its oldest record, then one cell is stored |
| CommandHistory.History.SaveIt | bld/cmdedit/cmdsave.c:177-189 | the command is the newest record behind all the newest ones that fit beside it |
| CommandHistory.History.SaveCmd | bld/cmdedit/cmdsave.c:228-250 | empty commands and repeats of the newest are not stored; the cursor goes behind the newest |
| CommandHistory.History.PrevCmd | bld/cmdedit/cmdsave.c:253-281 | one place back and the command there, nothing at the oldest record, whichever way the cursor came |
| CommandHistory.History.NextCmd | bld/cmdedit/cmdsave.c:284-311 | one place ahead and the command there, nothing behind the newest |
| CommandHistory.BackAndAhead | bld/cmdedit/cmdsave.c:253-311 | from anywhere but the oldest record PrevCmd and then NextCmd lead back to the same place and show its command |
| CommandHistory.AheadAndBack | bld/cmdedit/cmdsave.c:253-311 | from anywhere up to the newest record NextCmd and then PrevCmd lead back to the same place and show its command |
| CommandHistory.History.DelCmd | bld/cmdedit/cmdsave.c:193-225 | the shown record is gone, all others are left, and the one behind it is shown; the cursor is left where NextCmd goes astray if and only if the newest was deleted |
| CommandHistory.History.CloseGap | bld/cmdedit/cmdsave.c:206-212 | moving cells down over the gap, around the end of the area, overwrites none that is still to be moved |
| CommandHistory.DeletingNewest | bld/cmdedit/cmdsave.c:193-225 | a concrete run after which NextCmd would not find the end of the records |
| CommandHistory.StepBack | bld/cmdedit/cmdsave.c:263-265 | the length behind a record leads back to its start |
| CommandHistory.StepAhead | bld/cmdedit/cmdsave.c:290-291 | the length in front of a record leads on to the next one or the free end |

## Left out

- Randomised blocks: the decoder reports a code of its own for them; the compressor always writes the bit as 0.
- Memory allocation and its failure, verbosity, statistics counters (total_in, total_out, numQSorted), configuration checks and the NULL checks of the interface.
- The stdio and file layers of bzlib.c, bzip2.c, bzip2recover.c and the test programs.
- The decode tables limit, base and perm of the decoder and its lists of code lengths are sequences in place of two-dimensional arrays; each is copied from arrays that CreateDecodeTables has filled.
- total_in, the locals zt and zj, and gLimit, gBase and gPerm as pointers: the model saves gSel and finds the tables by it.
- DecoderMachine.Advance: on corrupt streams only the return codes, ranges and resumability are covered; overflow of the run length es in 32 bits and more than 18002 selectors are not, and the arrays of the selectors are as long as 15 bits can ask for.
- The overlay of block, eclass and zbits in arr2 is modelled by separate arrays: the loss of the block in the fallback sort is an explicit havoc that the rebuild has to make good, and the room for zbits is a proved bound on its length.
- The quadrants of the main sort are an array of their own; that they fit in arr2 behind the block is asserted where the source computes their place.
- Code lengths, usage counts and codes of the compressor's tables are sequences in place of the two-dimensional arrays; selectors are a sequence.
- Loops that the source unrolls by four or fifty are plain loops; in the three copies of the insertion of mainSimpleSort the place of the budget test is kept.
- The CRC table is computed by its generator polynomial in place of the listed constants, which CrcDetection.TablePowers and CrcDetection.TableLinear compare with it.
- That the four refinement passes bring the total cost down: scaling and the choice of the first of equal tables leave no such law. What each pass chooses and makes is proved to be cheapest on its own.
- That the compressed bytes do not depend on how the input is sliced: they do, when the last byte of the input fills a block; only the decoded result is independent.
- HuffmanLengths.MakeCodeLengths: a maxLen with too few codes for the symbols is excluded, because the source would loop for ever: HuffmanBalance.AlwaysTooLong.
- CommandHistory.History.DelCmd: the oldest record cannot be deleted in the model, nor can a command be deleted when none is shown; the source does not check this, and then works on cells outside the records.
- CommandHistory.History.NextCmd: a call right after the newest command has been deleted while shown is excluded, because what it reads then lies outside the records; DelCmd states the condition.
- CommandHistory.History.SaveCmd: commands longer than the area less two cells are excluded; the source has one caller, whose line is at most LINE_WIDTH long, 128 for an area of 512 and 512 for one of 4096 (bld/cmdedit/cmdedit.h:50-54, bld/cmdedit/cmdedit.h:165-167, bld/cmdedit/cmdmain.c:426).
- CommandHistory.History.SaveIt: the same.
- In cmdsave.c, saving to and restoring from a file and the listing on the screen.
