# Verified models of bzip2, zlib and SFMT

The repository carries three algorithm libraries: bzip2 1.0.6 (`deps/bzip2`), zlib 1.2.12 (`deps/zlib`) and SFMT
(`deps/SFMT`). This project models their algorithms in Dafny and proves what they are for.

**bzip2.** The whole codec is modelled, stage by stage, in the form of the source (arrays changed in place, bit buffers,
explicit stacks, objects whose methods update their fields), and then composed:

- initial run-length coding with suspend and resume (`RunLength`, `UnRunLength`);
- the block sort by prefix doubling (`FallbackQSort`, `FallbackSort`); the main sort with its radix sort, quicksort, quadrants
  and the scans that copy small buckets into order (`MainCompare`, `MainQSort`, `MainBuckets`, `MainCopy`, `MainSort`); what
  does not depend on the choice between the two (`SortChoice`); and both inverses of the transform (`Bwt`, `InverseBwt`);
- move-to-front and zero runs (`MtfCoding`, `MtfEncode`, `TwoLevelMtf`, `MtfDecode`);
- length-limited Huffman codes, and that they cost least, canonical codes and the bit stream (`HuffmanHeap`, `HuffmanForest`,
  `HuffmanOptimal`, `HuffmanTree`, `CanonicalCode`, `BitStream`);
- the block format, both ends of it and the room it takes (`BlockFormat`, `BlockSend`, `BlockReceive`, `BlockCodec`,
  `BlockSize`);
- the stream, the `BZ2_bzCompress` and `BZ2_bzDecompress` machines (`StreamFormat`, `Compressor`, `Decompressor`).

`RoundTrip.Restore` is the main result: whatever sequence of compression calls led to the end of a stream, and however its
bytes are cut up and whatever room each decompression call has, the FAST and the SMALL decoder give back exactly the bytes
that were taken in, and they end as soon as there is more room than text. `RoundTrip.ThereAndBack` adds that compression gets
there: calls with enough room in all end the stream. For input that is no stream, `Decompression.BzDecompress` says what the
end of a stream proves: every checksum stored in what was read is that of the text delivered for it.

**zlib.** LZ77 matching over the sliding window with hash chains, for both compressors and every window size: that the tokens
stand for the text, and which matches are found and written (`Lz77`, `HashChains`, `MatchSearch`, `TokenChoice`, `Deflate`);
the circular window of `inflateBack` (`InflateBack`); the two-level decoding tables and decoding with them, and the number of
entries they need (`DeflateCode`, `DecodeTable`, `TableFilling`, `TableSize`, `TableBuilder`, `InflateTable`,
`InflateDecode`); literals, lengths and distances as codes and extra bits, and the loop of `inflateBack` that reads them
(`DeflateItems`, `InflateBlock`); the CRC-32 algebra, including that x^(2^32) is x modulo the polynomial, the tables made from
it and the braided checksum that uses them (`Gf2`, `Crc32`, `Crc32Order`, `CrcTables`, `Braid`); and Adler-32 (`Adler32`).
`InflateBack.Restore` composes the compressors and the window: any text, in any pieces, comes back from its tokens.
`InflateBlock.InflateTokens` does it from the bits of a block that codes such tokens.

**SFMT.** Bulk generation and one-at-a-time generation draw from the same sequence (`Sfmt`), and what its recursion does to
the bits of 128-bit words (`SfmtBits`).

## How the model relates to the C code

- Memory that the C code overlays is modelled as separate arrays with the overlay made explicit: a store to `eclass` destroys
  the four bytes of `eclass8` it lies over (`FallbackSort.StoreClass`), and a symbol written to `mtfv` destroys the pointer of
  `ptr` it lies over (`MtfEncode.SymbolBuffer.Put`). The bit table `bhtab` is an array of booleans, looked at 32 at a time as the
  C code does.
- Suspend and resume inside `BZ2_decompress` (the saved locals) is modelled by an input that is a sequence of pieces: a read
  that finds a piece used up goes on with the next, with all locals intact. Running out of pieces in the middle of a field
  leaves the decoder in a state of its own (`Stalled`), in which every further call returns `BZ_OK` again; so does a store
  behind the selector arrays, with an answer of its own.
- `BZ2_decompress` interleaves reading symbols and undoing move-to-front; the model first reads all symbols of a block and then
  decodes them. The results, and the conditions for a data error, are those of the C code; when a block has both a wrong
  symbol code and an overflow, which of the two errors is met first is not distinguished, since both are `BZ_DATA_ERROR`.
- The two readers of a decoded block and the comparison of the main sort work on copies or on read-only views of the arrays
  that the C code passes as pointers. In the main sort the mark of a sorted small bucket, which the C code keeps in a high bit
  of `ftab`, is an array of booleans; the overshoot behind the block is the block with its first 34 bytes appended.
- The selectors are arrays of 18002 entries, as in C. `decompress.c` accepts up to 32767 of them without comparing; the model
  ends such a run with an outcome of its own (`Overrun`) at the first store behind the array, and `BlockReceive.SelectorRoom`
  says when that can happen. The compressor never writes more selectors than there is room for.
- The CRC table of bzip2 is a parameter: the codec is proved for every table of 256 words.
- A wrong stream header gives `DataError` like every other malformed input (the C code has a code of its own for it).
- deflate's hash is a parameter with the two properties the code relies on; `Lz77.UpdateRolls` proves them of `UPDATE_HASH`
  for every hash of at least eight bits and a shift of at least a third of them. The window may have any size from 512 bytes
  on, of which the sizes 2^9 to 2^15 of the source are instances. What ends a call early (a full output buffer) is modelled
  as a bound on the number of rounds of a call, which may be any number. After a slide `matchStart` may be negative in the
  model; in C the unsigned value wraps round and the distance computed from it is the same.
- What `out()` answers is a list of booleans given in advance, arbitrary.
- A word of the CRC is the sequence of its coefficients, its lowest bit being the highest power; a 64-bit word of data is the
  sequence of its bytes. A byte is turned into a table index by its value.
- SFMT's recursion is a parameter in the main proof, and the 19937 parameter set is an instance. The documentation forbids
  bulk generation after single draws; the code only asserts that the state is used up, and this is what the model requires.

Where documentation and code differ, the code is followed:

- The comment at `blocksort.c:964-986` says that of two places of one byte the one with the smaller quadrant has the string that
  precedes. `MainCompare.PeriodicBlock` gives a block, "abab...ab", of which this is false: equal rotations get different
  quadrants. `MainCompare.QuadrantOrder` says what is true at all times: the rotation precedes exactly when the two differ; and
  `MainCompare.DocumentedIff` says for which blocks the documented meaning holds of a bucket numbered without a shift.
- The comment at `blocksort.c:1056-1061` says that the compressed stream does not depend on which sort is used.
  `SortChoice.SameColumn` proves it of the last column; `SortChoice.OriginIff` says that the origin is settled by the order of
  rotations exactly when the block equals none of its other rotations. Either origin gives the block back.
- `adler32_z` takes a shortcut for one byte that is exact only under a condition on the start value; `Adler32.Adler32Z` states
  it, and `Adler32.UnreducedByte` is an input for which it fails, which no checksum can lead to.
- `x2nmodp` shifts its argument until it is zero; for a negative length it never is (`Crc32Order.LoopEnds`).

## Model

| member | source | states |
|---|---|---|
| FallbackQSort.SimpleSort | deps/bzip2/blocksort.c:31-59 | the rows of the range are permuted among themselves and end in non-decreasing class order |
| FallbackQSort.Partition | deps/bzip2/blocksort.c:132-170 | the range is permuted into rows below, equal to and above the pivot class |
| FallbackQSort.Gather | deps/bzip2/blocksort.c:164-170 | swapping the outer equal rows inwards leaves exactly the three zones |
| FallbackQSort.RangeStack.Push | deps/bzip2/blocksort.c:80-82 | appends one range to the stack held in two fixed arrays |
| FallbackQSort.RangeStack.Pop | deps/bzip2/blocksort.c:84-86 | returns and removes the last range |
| FallbackQSort.TaperedDepth | deps/bzip2/blocksort.c:93-180 | with the larger part always pushed first the stack stays below 33 entries for every range below 2^31 rows, far from the assertion limit |
| FallbackQSort.PushParts | deps/bzip2/blocksort.c:172-178 | replacing a range by its outer parts, the larger first, keeps the halving bound and lowers the work left |
| FallbackQSort.SortOrSplit | deps/bzip2/blocksort.c:113-178 | a popped range is sorted or split so that all rows are in order except within ranges that still wait |
| FallbackQSort.QSort3 | deps/bzip2/blocksort.c:93-180 | terminates, permutes its range and sorts it by class, without overflowing its stacks |
| Rotations.RotationOrder | deps/bzip2/blocksort.c:192-203 | comparing cyclically character by character is the lexicographic order of the rotations as strings |
| Rotations.EqualRotations | deps/bzip2/blocksort.c:192-203 | rotations that are equal stay equal one place further on |
| FallbackSort.CountBytes | deps/bzip2/blocksort.c:231-234 | after counting and accumulating, ftab holds the slots of every byte and the copy holds the counts |
| FallbackSort.Scatter | deps/bzip2/blocksort.c:236-241 | the rows are a permutation grouped by first byte |
| FallbackSort.SkipRun | deps/bzip2/blocksort.c:277-292 | skips exactly the run of equal bits, whole words at a time |
| FallbackSort.NextBucket | deps/bzip2/blocksort.c:277-292 | finds the next bucket of more than one row, or that there is none |
| FallbackSort.StoreClass | deps/bzip2/blocksort.c:266-271 | storing a class changes that class; the block bytes in the same memory are lost |
| FallbackSort.SetClasses | deps/bzip2/blocksort.c:266-271 | every position gets the bucket of the row h places further on |
| FallbackSort.SortBuckets | deps/bzip2/blocksort.c:273-306 | every bucket is sorted by class, new headers stand exactly where the class changes, and 0 is reported only if all buckets are single rows |
| FallbackSort.PassDoubles | deps/bzip2/blocksort.c:259-313 | a pass turns buckets exact for h characters into buckets exact for 2h |
| FallbackSort.Pass | deps/bzip2/blocksort.c:261-311 | one pass in place has that effect |
| FallbackSort.BucketsSort | deps/bzip2/blocksort.c:311-313 | buckets exact for a whole turn sort the rotations, also where rotations are equal |
| FallbackSort.SinglesSort | deps/bzip2/blocksort.c:311-313 | so do buckets that are all single rows |
| FallbackSort.Rebuild | deps/bzip2/blocksort.c:315-328 | the block bytes overwritten by the classes are rebuilt exactly |
| FallbackSort.Sort | deps/bzip2/blocksort.c:212-329 | for every non-empty block, fmap ends as a permutation in non-decreasing order of full rotations and the block is as before |
| MainCompare.GtU | deps/bzip2/blocksort.c:347-469 | never contradicts the order of rotations, with quadrants read weakly, stays inside the 34 bytes of overshoot for starts up to 14 beyond the block, and spends k of the budget only if the first 12 + 8k characters agree |
| MainCompare.AnswerExact | deps/bzip2/blocksort.c:347-469 | between rotations that differ the answer is exactly which is greater |
| MainCompare.CompareTwelve | deps/bzip2/blocksort.c:358-406 | twelve byte comparisons answer rightly or carry the comparison on by twelve places |
| MainCompare.CompareEight | deps/bzip2/blocksort.c:410-457 | eight comparisons of bytes and quadrants answer rightly or carry it on by eight |
| MainCompare.TrackAll | deps/bzip2/blocksort.c:408-468 | after as many equal characters as the block has, the rotations are equal |
| MainCompare.StampConsistent | deps/bzip2/blocksort.c:964-1004 | numbering a sorted big bucket, shifted to 16 bits, keeps the quadrant invariant for all bytes |
| MainCompare.Shifts | deps/bzip2/blocksort.c:992-994 | the shift found makes every number of the bucket fit |
| MainCompare.UpdateQuadrants | deps/bzip2/blocksort.c:989-1004 | the in-place update, with its copy in the overshoot area, keeps the invariant and 16-bit values |
| MainCompare.QuadrantOrder | deps/bzip2/blocksort.c:964-986 | of two places of one byte, the one with the smaller quadrant has the rotation that strictly precedes, exactly when their rotations differ |
| MainCompare.DocumentedIff | deps/bzip2/blocksort.c:964-1004 | after numbering a bucket without a shift, smaller quadrants mean preceding rotations exactly when no two rotations of the bucket are equal |
| MainCompare.PeriodicBlock | deps/bzip2/blocksort.c:964-1004 | on abab...ab the documented meaning fails: places 0 and 2 get quadrants 0 and 1 and their rotations are equal |
| MainQSort.RankOrder | deps/bzip2/blocksort.c:620-717 | the number of smaller rotations orders the rotations |
| MainQSort.DeepCompare | deps/bzip2/blocksort.c:641-716 | rotations that begin alike compare as they do behind that beginning |
| MainQSort.CostsSpent | deps/bzip2/blocksort.c:408-465 | something is spent on comparing two different places only if two different rotations begin with the same twenty characters |
| MainQSort.InsertRow | deps/bzip2/blocksort.c:510-521 | inserts a row h places apart; with h = 1 the sorted part grows, with answers that are only weakly right |
| MainQSort.MainSimpleSort | deps/bzip2/blocksort.c:485-555 | permutes its range and sorts it by rotation unless the budget is used up |
| MainQSort.Med3 | deps/bzip2/blocksort.c:581-592 | returns the median of its arguments |
| MainQSort.PartitionAt | deps/bzip2/blocksort.c:656-704 | splits by the character at depth d into parts that are in order, the middle one equal one character deeper |
| MainQSort.Tapered3Depth | deps/bzip2/blocksort.c:641-716 | three-way pushes, the largest first, keep the stacks below 66 entries for every range below 2^31 rows |
| MainQSort.Push3 | deps/bzip2/blocksort.c:702-715 | that push order keeps the halving bound |
| MainQSort.Descending | deps/bzip2/blocksort.c:706-708 | the three conditional swaps order the parts by size and lose none |
| MainQSort.Turn3 | deps/bzip2/blocksort.c:644-716 | one turn keeps the sorting invariant, lowers the work left and never meets the stack assertion |
| MainQSort.MainQSort3 | deps/bzip2/blocksort.c:621-717 | terminates, permutes its range and sorts it by rotation unless the budget is used up |
| MainBuckets.RadixSort | deps/bzip2/blocksort.c:769-830 | ptr becomes a permutation grouped by the first two bytes of the rotations, and ftab the first row of every small bucket |
| MainBuckets.AllBucketsSort | deps/bzip2/blocksort.c:832-836 | when every small bucket is in order, all rotations are |
| MainCopy.FallsBefore | deps/bzip2/blocksort.c:911-917 | a rotation that continues with s until a smaller byte precedes one that continues with s until a greater byte |
| MainCopy.ScanOne | deps/bzip2/blocksort.c:923-934 | each row met by the scan is one of the big bucket on its side, later in order than those met before |
| MainCopy.Room | deps/bzip2/blocksort.c:923-934 | the scans from both ends never put more places into a small bucket than it has |
| MainCopy.AllSeen | deps/bzip2/blocksort.c:923-934 | a finished scan has met every rotation of its side, the ones it put into the bucket [ss,ss] itself included |
| MainCopy.Full | deps/bzip2/blocksort.c:937-944 | unless the block is one byte repeated, the two scans together fill every small bucket exactly |
| MainCopy.WholeStep | deps/bzip2/blocksort.c:911-946 | after both scans every small bucket [t,ss] whose t is not done is in order, and nothing else has moved |
| MainSort.RunningOrder | deps/bzip2/blocksort.c:837-860 | the shell sort leaves a permutation of the 256 bytes |
| MainSort.SortBig | deps/bzip2/blocksort.c:886-907 | step 1 leaves every small bucket of the byte, but for the middle one, in order, unless the budget is used up |
| MainSort.ScanLeft | deps/bzip2/blocksort.c:923-928 | the scan from below, up to a copyStart that moves as it goes, meets all rotations of its side and puts their predecessors into their buckets in order |
| MainSort.ScanRight | deps/bzip2/blocksort.c:929-934 | the same from above |
| MainSort.MiddleFull | deps/bzip2/blocksort.c:937-944 | assertion 1007 always holds, the case of one byte repeated included |
| MainSort.CopyScans | deps/bzip2/blocksort.c:918-944 | step 2 with its copyStart and copyEnd tables has that effect in place |
| MainSort.BigSorted | deps/bzip2/blocksort.c:948-991 | when a big bucket is done, its rows are all places of its byte in the order of their rotations |
| MainSort.SortByte | deps/bzip2/blocksort.c:868-1005 | one turn of the main loop keeps the sorting invariant and the quadrant invariant and finishes one byte |
| MainSort.Sort | deps/bzip2/blocksort.c:751-1011 | unless the budget is used up, ptr ends as a permutation in non-decreasing order of full rotations; and something is spent only if two different rotations begin with the same twenty characters, so that otherwise it never gives up |
| SortChoice.SameRows | deps/bzip2/blocksort.c:1056-1061 | row by row, any two sorts of a block read alike |
| SortChoice.SameColumn | deps/bzip2/blocksort.c:1056-1061 | any two sorts of a block give the same last column |
| SortChoice.OriginIff | deps/bzip2/blocksort.c:1056-1088 | every sort puts rotation 0 into the same row exactly when the block equals none of its other rotations |
| Bwt.PartnerReads | deps/bzip2/decompress.c:529-534 | the row that the decoder pairs with row i reads like the rotation one place earlier, whichever of several equal ones it is |
| Bwt.WalkReads | deps/bzip2/decompress.c:536-566 | after k steps from the row of rotation 0 the walk is at a row that reads like rotation k |
| Bwt.WalkSpellsBlock | deps/bzip2/decompress.c:559-566 | following the links from the row of rotation 0 spells the block, periodic or not |
| InverseBwt.MakeCftab | deps/bzip2/decompress.c:494-516 | builds the cumulative counts and rejects exactly the counts that do not fit the block |
| InverseBwt.CountsMakeFirstRows | deps/bzip2/decompress.c:494-516 | true counts are never rejected and give the first row of every character |
| InverseBwt.BuildFast | deps/bzip2/decompress.c:559-564 | every row word gets the link that undoes the pairing of rows |
| InverseBwt.FastReader.Get | deps/bzip2/bzlib_private.h:444-456 | delivers the character of the next row of the walk and is never out of range |
| InverseBwt.PackedLinks.Link | deps/bzip2/bzlib_private.h:464-473 | reads back the 20-bit link that was stored |
| InverseBwt.PackedLinks.SetLink | deps/bzip2/bzlib_private.h:458-471 | changes one link and no other, two nibbles sharing a byte |
| InverseBwt.BuildLinks | deps/bzip2/decompress.c:526-534 | every row's character is replaced by the link to its partner row |
| InverseBwt.ReverseLinks | deps/bzip2/decompress.c:536-545 | turns round the links of the cycle through origPtr and ends, also when the links form several cycles |
| InverseBwt.IndexIntoF | deps/bzip2/bzlib.c:688-698 | binary search finds the character whose rows include the index |
| InverseBwt.SmallReader.Get | deps/bzip2/bzlib_private.h:475-479 | delivers the same characters as the fast reader |
| InverseBwt.SpelledBlock | deps/bzip2/decompress.c:524-576 | what either reader delivers is the block whose rotations were sorted |
| InverseBwt.OpenFast | deps/bzip2/decompress.c:557-574 | sets up the fast reader at the row of rotation 0 |
| InverseBwt.OpenSmall | deps/bzip2/decompress.c:524-555 | sets up the small reader likewise |
| RunLength.Encoder.AddPair | deps/bzip2/bzlib.c:215-247 | stores the pending run; the block grows by its coded form and the checksum covers all bytes taken |
| RunLength.Encoder.AddChar | deps/bzip2/bzlib.c:260-284 | everything taken so far, decoded block and pending run, is extended by the byte, for runs over 255 too |
| RunLength.Encoder.Flush | deps/bzip2/bzlib.c:251-256 | ends the pending run; the block alone decodes to everything taken |
| RunLength.Encoder.NewBlock | deps/bzip2/bzlib.c:116-126 | begins an empty block; the pending run is carried over |
| RunLength.PairScan | deps/bzip2/bzlib.c:215-247 | decoding a block with a coded run appended gives the old text and exactly that run |
| UnRunLength.Source.RunFast | deps/bzip2/bzlib.c:636-661 | reads one coded run in the fast decoder's order of tests |
| UnRunLength.Source.RunSmall | deps/bzip2/bzlib.c:782-800 | reads the same run in the small decoder's order of tests |
| UnRunLength.RunEmits | deps/bzip2/bzlib.c:595-682 | a run that has been read is exactly what remains to be written for it |
| UnRunLength.ProgressPrefix | deps/bzip2/bzlib.c:595-682 | what has been written is always a beginning of the block's text |
| UnRunLength.Unpacker.OutputFast | deps/bzip2/bzlib.c:595-682 | a call writes until the room is used up or the block is finished, and then all of the text is out; corruption is reported only for a truncated block |
| UnRunLength.Unpacker.OutputSmall | deps/bzip2/bzlib.c:759-804 | the same for the small decoder |
| MtfCoding.UnrankInverts | deps/bzip2/compress.c:161-206 | undoing move-to-front ranks, in a list at least as long, gives the symbols back |
| MtfCoding.DigitsValue | deps/bzip2/compress.c:174-187 | the digits written for a run of zeros have its length as their value |
| MtfCoding.DigitsLength | deps/bzip2/decompress.c:379-398 | a run takes at most k digits exactly when it is at most 2^(k+1) - 2 long |
| MtfCoding.DecodeInvertsCode | deps/bzip2/compress.c:128-231 | decoding the coded symbol stream gives the ranks back |
| TwoLevelMtf.MtfList.Front | deps/bzip2/decompress.c:399-399 | the front of the two-level array is the front of the list |
| TwoLevelMtf.MtfList.SlideDown | deps/bzip2/decompress.c:455-460 | passing one symbol from segment to segment shifts the list |
| TwoLevelMtf.MtfList.Rebuild | deps/bzip2/decompress.c:463-472 | copying the segments to the top reads every entry before it is overwritten and leaves the list as it was |
| TwoLevelMtf.MtfList.Move | deps/bzip2/decompress.c:423-475 | returns the symbol of the given rank and moves it to the front of the plain 256-element list |
| MtfEncode.MakeMaps | deps/bzip2/compress.c:105-115 | every used byte is mapped to the number of used bytes below it |
| MtfEncode.SymbolBuffer.Put | deps/bzip2/compress.c:128-149 | appends a symbol; pointers beyond half the write position stay readable |
| MtfEncode.SymbolBuffer.PutRun | deps/bzip2/compress.c:174-187 | appends the digits of a run, with the same guarantee |
| MtfEncode.FindAndMove | deps/bzip2/compress.c:189-206 | finds the symbol's rank and moves it to the front of the list in place |
| MtfEncode.EncodeRow | deps/bzip2/compress.c:163-210 | one row more is encoded and no pointer still to be read is overwritten |
| MtfEncode.Generate | deps/bzip2/compress.c:119-231 | writes the coded ranks of the last column and the end mark over the pointers it reads |
| MtfDecode.MakeMapsD | deps/bzip2/decompress.c:26-36 | lists the used bytes in order, inverting the encoder's map |
| MtfDecode.Collector.AddZeros | deps/bzip2/decompress.c:398-415 | a run of zero ranks is stored, or refused exactly when the block would overflow |
| MtfDecode.Collector.AddRank | deps/bzip2/decompress.c:421-481 | one rank is decoded and stored, or refused exactly when the block is full |
| MtfDecode.ReadRun | deps/bzip2/decompress.c:379-398 | a run's digits give its length; it is refused only when it has more than 21 digits |
| MtfDecode.CodedStreamShort | deps/bzip2/decompress.c:384-390 | no run of up to 2^22 - 2 rows is ever refused |
| MtfDecode.DecodeStream | deps/bzip2/decompress.c:372-486 | the characters of the whole stream are collected, and an error means a run too long or a block too large |
| BitStream.BitWriter.Put | deps/bzip2/compress.c:71-78 | appends the bits to the stream |
| BitStream.BitWriter.Finish | deps/bzip2/compress.c:45-54 | sends what is left, filled up with fewer than eight zero bits |
| BitStream.BitWriter.Restart | deps/bzip2/bzlib.c:116-126 | reusing the output buffer keeps the bits not yet sent |
| BitStream.BitReader.Get | deps/bzip2/decompress.c:43-65 | reads the next bits of the stream, or loses nothing when the input runs out |
| BitStream.Input.Get | deps/bzip2/decompress.c:43-65 | the same over input that comes in any pieces |
| BitStream.BitsInjective | deps/bzip2/decompress.c:43-65 | equal bit strings of one length are equal numbers |
| CanonicalCode.AssignCodes | deps/bzip2/huffman.c:152-166 | every symbol gets its canonical code |
| CanonicalCode.CreateDecodeTables | deps/bzip2/huffman.c:170-200 | limit, base and perm describe the canonical code of the lengths |
| CanonicalCode.PrefixFree | deps/bzip2/huffman.c:152-166 | for lengths that fit, no code is a prefix of another |
| CanonicalCode.DecodeSymbol | deps/bzip2/decompress.c:74-102 | a symbol decoded comes from its own code at the front of the input, whatever the lengths; for lengths that fit, the symbol whose code begins the input is found |
| CanonicalCode.Extent | deps/bzip2/decompress.c:331-339 | finds the shortest and the longest length |
| HuffmanHeap.UpHeap | deps/bzip2/huffman.c:33-42 | sifting the last entry up makes a heap of the same entries |
| HuffmanHeap.DownHeap | deps/bzip2/huffman.c:44-59 | sifting the first entry down makes a heap of the same entries |
| HuffmanHeap.Pop | deps/bzip2/huffman.c:101-102 | removes an entry of least weight |
| HuffmanHeap.Push | deps/bzip2/huffman.c:107-109 | adds an entry |
| HuffmanForest.AddLight | deps/bzip2/huffman.c:25-31 | joining two weights adds their counts and records the depth, which stays within a Fibonacci bound |
| HuffmanForest.JoinSums | deps/bzip2/huffman.c:103-106 | joining two trees averages their Kraft sums and adds their weights |
| HuffmanForest.Merge | deps/bzip2/huffman.c:100-110 | joining the two lightest trees keeps the Fibonacci bound on depth for all trees |
| HuffmanOptimal.TwoLongest | deps/bzip2/huffman.c:100-110 | lengths with Kraft sum 1 for two or more trees give two of them the greatest length |
| HuffmanOptimal.SwapCosts | deps/bzip2/huffman.c:100-110 | giving the greater length to the lighter of two trees keeps the Kraft sum and costs no more |
| HuffmanOptimal.JoinNoWorse | deps/bzip2/huffman.c:100-110 | once the two lightest trees are joined, whatever lengths the trees had can be matched at a cost less by what the join adds to the depths |
| HuffmanOptimal.MergeThrifty | deps/bzip2/huffman.c:100-110 | joining the two lightest trees keeps the way open to every cost that lengths for the leaves can have |
| HuffmanOptimal.DepthsLeast | deps/bzip2/huffman.c:100-121 | the depths in a tree so made cost no more than any lengths with Kraft sum 1 |
| HuffmanTree.TreeLengths | deps/bzip2/huffman.c:114-121 | the depths have Kraft sum 1, and a depth d needs a total weight of at least the (d+2)-nd Fibonacci number |
| HuffmanTree.HalvingShrinks | deps/bzip2/huffman.c:142-146 | re-weighting lowers the total until every weight is 1 or 2 |
| HuffmanTree.NotTooLong | deps/bzip2/huffman.c:114-123 | a code longer than 12 or more bits means that re-weighting can still lower the total |
| HuffmanTree.DepthsMinimal | deps/bzip2/huffman.c:114-121 | of all lengths with Kraft sum 1 for the given weights the lengths read off the tree cost least |
| HuffmanTree.MakeCodeLengths | deps/bzip2/huffman.c:63-148 | terminates with lengths in 1..maxLen and Kraft sum exactly 1, of least cost for the frequencies (0 counted as 1) re-weighted k times by halving, where each of the k rounds before had lengths of least cost with one above maxLen; for 2 to 258 symbols, totals below 2^23 and every maxLen from 12 up |
| HuffmanTree.NoRounds | deps/bzip2/huffman.c:123-147 | if no lengths of least cost for the frequencies themselves are too long, then the lengths are of least cost for them |
| HuffmanTree.CompleteFits | deps/bzip2/huffman.c:152-166 | Kraft sum 1 leaves room for every canonical code |
| HuffmanTree.NoneUnused | deps/bzip2/huffman.c:152-166 | and leaves no code unused |
| BlockFormat.PutMap | deps/bzip2/compress.c:494-515 | writes the two-level map of used bytes |
| BlockFormat.PutSelectors | deps/bzip2/compress.c:517-526 | writes the selectors' ranks in unary |
| BlockFormat.PutTable | deps/bzip2/compress.c:528-542 | writes one set of lengths as differences |
| BlockFormat.PutSymbols | deps/bzip2/compress.c:544-597 | writes every symbol with the code of its group's table |
| BlockSend.BestTable | deps/bzip2/compress.c:352-402 | finds the first of the cheapest tables for a group, with the costs of two tables added up in one word where there are six tables and 50 symbols |
| BlockSend.PackedCost | deps/bzip2/compress.c:358-386 | the sums of two tables' costs kept in the halves of one word are the two costs |
| BlockSend.Select | deps/bzip2/compress.c:343-442 | every group gets the first of its cheapest tables, and each table counts exactly the symbols of the groups that it is selected for |
| BlockSend.Refine | deps/bzip2/compress.c:319-457 | starting from the initial tables, each of the four rounds selects the cheapest table for every group and makes every table of least cost, in the sense of MakeCodeLengths, for the symbols of the groups it was selected for |
| BlockSend.SendMTFValues | deps/bzip2/compress.c:238-598 | writes a well-formed block body that carries the symbols |
| BlockReceive.TakeMap | deps/bzip2/decompress.c:266-283 | recovers the map of used bytes that was written |
| BlockReceive.TakeSelectors | deps/bzip2/decompress.c:288-300 | recovers the ranks that were written; a store goes behind the array of 18002 entries exactly when more selectors are announced and the input has the ranks of more |
| BlockReceive.SelectorRoom | deps/bzip2/decompress.c:288-300 | a number of selectors is safe, whatever follows it, exactly when it is at most 18002 |
| BlockReceive.SelectorsOverrun | deps/bzip2/decompress.c:288-300 | 18003, which the 15-bit field holds and the code accepts, is not |
| BlockReceive.UndoSelectors | deps/bzip2/decompress.c:302-314 | undoes their move-to-front, from one array into the other |
| BlockReceive.TakeTables | deps/bzip2/decompress.c:316-329 | recovers the tables that were written; any table accepted has lengths in 1..20 |
| BlockReceive.NextSymbol | deps/bzip2/decompress.c:74-102 | recovers the next symbol with the table of its group of 50 |
| BlockReceive.TakeSymbols | deps/bzip2/decompress.c:372-486 | recovers all symbols up to the end mark |
| BlockReceive.TakeBody | deps/bzip2/decompress.c:266-486 | recovers map and symbols of a well-formed body; on other input it fails, yields symbols in range, or has met a number of selectors above 18002 |
| BlockCodec.SortBlock | deps/bzip2/blocksort.c:1031-1081 | the rotations are sorted in full, by the main sort from 10000 bytes on unless its budget, which depends on the work factor, is used up, and otherwise by the fallback sort |
| BlockCodec.FindOrigPtr | deps/bzip2/blocksort.c:1083-1088 | finds the row of rotation 0, which always exists |
| BlockCodec.Transform | deps/bzip2/compress.c:602-667 | sorts a block, whichever sort is taken, and yields the coded ranks of its last column |
| BlockCodec.CompressBlock | deps/bzip2/compress.c:602-667 | writes one well-formed block image that carries the block |
| BlockCodec.OpenBlock | deps/bzip2/decompress.c:488-578 | from map, symbols and origPtr of an image the reader of exactly the carried block is set up |
| BlockCodec.DecompressBlock | deps/bzip2/decompress.c:222-578 | on a block image it recovers checksum and contents and stops exactly behind it; on other input it fails, delivers some text, or has met a number of selectors above 18002 |
| BlockSize.BodyLength | deps/bzip2/compress.c:238-598 | no block body is longer than 168704 bits and 20 for every symbol |
| BlockSize.ImageLength | deps/bzip2/compress.c:602-667 | nor is a block longer than 168829 bits and 20 for every byte |
| StreamFormat.AppendPiece | deps/bzip2/compress.c:602-667 | one more block extends text, combined checksum and bits of a stream |
| Compressor.WriteBlock | deps/bzip2/compress.c:602-667 | a block with stream header before the first and trailer after the last extends the stream by its text, and by a bounded number of bits |
| Compressor.Compression.CompressTheBlock | deps/bzip2/compress.c:602-667 | the block is written, and its output fits into what arr2 has behind the block |
| Compressor.Compression.CopyInput | deps/bzip2/bzlib.c:288-329 | takes input until the block is full or none is left, and reports whether it took any |
| Compressor.Compression.CopyOutput | deps/bzip2/bzlib.c:333-356 | delivers output in order until there is no room or no more of it |
| Compressor.Compression.PrepareNewBlock | deps/bzip2/bzlib.c:116-126 | begins the next block once all output is delivered; nothing pending is lost |
| Compressor.Compression.Turn | deps/bzip2/bzlib.c:367-400 | one turn keeps the conservation invariant and brings the end nearer |
| Compressor.Compression.HandleCompress | deps/bzip2/bzlib.c:360-403 | terminates, and stops only when output is blocked, input is used up or the requested action is complete |
| Compressor.Compression.AllWritten | deps/bzip2/bzlib.c:452-461 | once the trailer is out, the output is a complete stream of everything taken in over all calls |
| Compressor.Compression.BzCompress | deps/bzip2/bzlib.c:407-464 | is refused, with nothing changed, exactly after the end, for a wrong action, or for a changed input count; otherwise a Run call ends with its input used up or its room, a Flush or Finish returns "more" only with the room used up and else is complete, with nothing pending or with the whole stream out; and the output still to come stays within a bound that the calls lower by what they deliver |
| Decompressor.ReadNext | deps/bzip2/decompress.c:222-606 | reads the next block or the trailer of a stream |
| Decompressor.Decompression.Write | deps/bzip2/bzlib.c:819-824 | writes out the block as far as there is room; what is out stays a beginning of the text |
| Decompressor.Decompression.EndBlock | deps/bzip2/bzlib.c:824-836 | a finished block is accepted exactly if the checksum stored in it is that of the text delivered for it |
| Decompressor.Decompression.Next | deps/bzip2/bzlib.c:838-852 | reads the next block or the trailer; after a trailer it returns BZ_STREAM_END exactly if the checksum stored there is the one combined from the blocks, and then all that was read and delivered agrees |
| Decompressor.HearsMore | deps/bzip2/bzlib.c:826-836 | a block whose stored checksum is that of its text extends what has been read by its image and what has been delivered by its text |
| Decompressor.HearsGenuine | deps/bzip2/bzlib.c:838-852 | a stream header, such blocks and a trailer with their combined checksum are what the end of a stream is to stand for |
| Decompressor.Decompression.OutPrefix | deps/bzip2/bzlib.c:808-858 | at any time what has been delivered is a beginning of the text |
| Decompressor.Decompression.BzDecompress | deps/bzip2/bzlib.c:808-858 | on a compressed stream it never fails, returns OK only when the room is used up, and ends exactly when all of the text is out; on any input it ends the stream only if what was read is a header, block images and a trailer whose stored checksums are those of the text delivered, returns OK only with the room or the input used up, and BZ_SEQUENCE_ERROR exactly after the end |
| RoundTrip.ReadBack | deps/bzip2/bzlib.c:808-858 | calls with any rooms read a stream back completely or fill all the room |
| RoundTrip.Restore | deps/bzip2/bzlib.c:407-858 | for every finished compression with any block size and work factor, every division of its output, either decoder and all rooms, the text comes back |
| RoundTrip.FinishAll | deps/bzip2/bzlib.c:407-464 | Finish calls with more room in all than a bound computed from the state and the input end the stream, with all of the input in it; until then every call fills its room |
| RoundTrip.FlushAll | deps/bzip2/bzlib.c:407-464 | and Flush calls deliver everything taken in |
| RoundTrip.ThereAndBack | deps/bzip2/bzlib.c:407-858 | a text compressed and decompressed in calls with enough room comes back |
| Lz77.CopyContinues | deps/zlib/deflate.c:1276-1417 | a copy from where the text matches continues the text, overlapping or not |
| Lz77.ThirdByte | deps/zlib/deflate.c:1375-1382 | equal hashes and two equal bytes make the third equal, so that it need not be compared |
| Lz77.UpdateRolls | deps/zlib/deflate.c:163-163 | three updates of the hash forget what went before and tell the last byte |
| HashChains.InsertKeeps | deps/zlib/deflate.c:181-185 | inserting a string keeps the chains complete: a head is the last inserted position with its key, and the link of a position less than a window back is the last one before with the same key, unless that has left the window; and the head returned was so too |
| HashChains.SlideKeeps | deps/zlib/deflate.c:204-228 | sliding loses only positions that leave the window |
| HashChains.NextEntry | deps/zlib/deflate.c:1412-1413 | following a link leads to the last inserted position before with the same key, or there is none in the window |
| MatchSearch.MatchLengthGreatest | deps/zlib/deflate.c:1385-1396 | the length of the match at a position is the greatest number of bytes in which the strings agree, up to 258 and within the input |
| MatchSearch.TrailComplete | deps/zlib/deflate.c:1336-1413 | positions reached from one another along the chain leave out no inserted position with their key |
| MatchSearch.FoundUnique | deps/zlib/deflate.c:1276-1417 | the text, the positions inserted and the settings determine the length and the place of the match found |
| MatchSearch.MissedOnly | deps/zlib/deflate.c:1404-1413 | a longer match within reach is missed only behind a nice match or behind as many positions with the key as the chain counter allows |
| Deflate.Deflater.InsertString | deps/zlib/deflate.c:181-185 | inserts the string at a position, and only that, and returns the last earlier position with its key |
| Deflate.Deflater.Slide | deps/zlib/deflate.c:1547-1560 | moving the window down keeps text, chains and positions in step |
| Deflate.Deflater.FillWindow | deps/zlib/deflate.c:1522-1603 | reads as much as there is room for, slides when needed, leaves enough to look ahead to unless the input is used up, and inserts the strings that were left over as far as they are complete |
| Deflate.Deflater.Try | deps/zlib/deflate.c:1336-1404 | tries a position: four bytes compared beforehand and a scan from the fourth byte on find its match length if that is greater than the best so far, and else leave all as it was |
| Deflate.Deflater.LongestMatch | deps/zlib/deflate.c:1276-1417 | the positions looked at are the last inserted ones with the key, none left out, until the chain counter, a nice match or the limit ends the search; the result is the greatest of prev_length and their match lengths, at the first position that has it; where prev_length is as much as the lookahead it is the lookahead; for all settings, those included for which the counter wraps round |
| Deflate.Deflater.PassMatch | deps/zlib/deflate.c:2032-2060 | inserts exactly the complete strings inside a match |
| Deflate.Deflater.FastStep | deps/zlib/deflate.c:1894-1950 | writes a copy of the longest match found, if it has three bytes, and else a literal; which strings are inserted |
| Deflate.Deflater.SlowStep | deps/zlib/deflate.c:1997-2080 | writes the match that waited if the search finds none longer that is worth a copy, and else lets that one wait and a literal take the place of the other; all complete strings are inserted |
| Deflate.Deflater.FastTurn | deps/zlib/deflate.c:1879-1957 | a round of deflate_fast keeps the invariant, moves on, and writes what the search finds, the strings of all earlier rounds being inserted |
| Deflate.Deflater.SlowTurn | deps/zlib/deflate.c:1982-2082 | the same of a round of deflate_slow with its lazy match |
| Deflate.Deflater.EndBlock | deps/zlib/deflate.c:2083-2089 | the literal that waits is written and the tokens stand for everything read |
| Deflate.Deflater.Accounts | deps/zlib/deflate.c:1872-2097 | tokens expanded, literal that waits and lookahead are together all bytes read, and every copy can be coded |
| Deflate.Deflater.DeflateFast | deps/zlib/deflate.c:1872-1966 | any call keeps the account of the input, ends within as many rounds as there are bytes, writes tokens that are all so found, and after a flush the tokens stand for everything |
| Deflate.Deflater.DeflateSlow | deps/zlib/deflate.c:1974-2097 | the same for lazy matching |
| TokenChoice.RunJoins | deps/zlib/deflate.c:1872-2097 | the rounds of several calls are one run |
| InflateBack.RingBack | deps/zlib/infback.c:586-605 | the byte written dist bytes ago stands where the window is read, also behind the write position |
| InflateBack.Window.Room | deps/zlib/infback.c:210-221 | passes on the whole window when it is full; history and window stay in step |
| InflateBack.Window.CopyMatch | deps/zlib/infback.c:586-604 | the copy out of the circular window is the overlapping copy on the whole output, across any number of flushes |
| InflateBack.Window.Symbol | deps/zlib/infback.c:512-604 | a literal or match extends the output as it should, and a distance is refused exactly when it reaches beyond the output or the window |
| InflateBack.Window.Stored | deps/zlib/infback.c:340-353 | a stored block is copied from the front of the input, however that comes |
| InflateBack.Window.Finish | deps/zlib/infback.c:607-614 | writes what is left; all of the output has then been passed on |
| InflateBack.Inflate | deps/zlib/infback.c:482-614 | what is passed to out() is always a beginning of the text, and all of it at the end; an error means a copy that reaches too far |
| InflateBack.Tokenize | deps/zlib/deflate.c:1872-2097 | either compressor, with any window size and settings, over any pieces of input and any early stops, yields codable tokens for the whole text, each of them what the search with these settings finds at its place |
| InflateBack.Restore | deps/zlib/infback.c:482-614 | the tokens of either compressor make inflateBack deliver the text, with any window at least as large |
| DeflateCode.FitsIffShare | deps/zlib/inftrees.c:130-138 | codes fit exactly when the sum of 2^(15-length) is at most 2^15 |
| DeflateCode.SomeCode | deps/zlib/inftrees.c:130-138 | with a complete code every long enough string begins with one of its codes |
| DeflateCode.BitsNext | deps/zlib/inftrees.c:239-248 | the next code has the last zero bit set and the ones behind it cleared |
| DeflateCode.Between | deps/zlib/inftrees.c:257-258 | codes that share their first bits are neighbours in canonical order |
| DecodeTable.Fill | deps/zlib/inftrees.c:230-237 | the entry is put in exactly the places whose low bits are the code |
| DecodeTable.MeaningNoLink | deps/zlib/inftrees.c:215-228 | no entry for a symbol can be taken for a link to a sub-table |
| TableFilling.FillKeeps | deps/zlib/inftrees.c:214-237 | filling in a symbol spoils none filled in before |
| TableFilling.LinkKeeps | deps/zlib/inftrees.c:257-287 | nor does beginning a new sub-table and linking it |
| TableBuilder.NextHuff | deps/zlib/inftrees.c:239-248 | the backwards increment yields the next canonical code, bit-reversed |
| TableSize.SubSizeIs | deps/zlib/inftrees.c:266-279 | a sub-table that all codes with its prefix fit into, and some code fills, has just the size counted for that prefix |
| TableSize.LongerOne | deps/zlib/inftrees.c:266-274 | of a complete code, a prefix that codes of some length do not use up has a longer code |
| TableSize.Aligned | deps/zlib/inftrees.c:257-258 | the code with which a sub-table begins has zeros behind its prefix |
| TableBuilder.SubTableBits | deps/zlib/inftrees.c:266-274 | the lookahead at counts gives a sub-table large enough for all codes with that prefix, and just so large that the longest fills it |
| TableBuilder.NewTable | deps/zlib/inftrees.c:257-287 | begins and links a sub-table, or reports that the space for tables is used up |
| TableBuilder.AllReckoned | deps/zlib/inftrees.c:204-279 | when all codes are dealt with, the entries used are 2^root and the sizes of the sub-tables of all prefixes |
| TableBuilder.Build | deps/zlib/inftrees.c:197-288 | the main loop fills in all symbols |
| InflateTable.Left | deps/zlib/inftrees.c:130-138 | what is left after all lengths, or that they are over-subscribed |
| InflateTable.SortSymbols | deps/zlib/inftrees.c:140-147 | work lists the symbols by length and number |
| InflateTable.BuildTable | deps/zlib/inftrees.c:32-304 | returns -1 exactly for over-subscribed or disallowed incomplete lengths, 1 exactly for accepted ones that need more entries than there is space for, counted from the lengths alone, and else tables that decode the code and take up just that many entries |
| InflateTable.RootIsEnough | deps/zlib/inftrees.c:204-211 | accepted lengths none of which is above the root bits always fit, if the root table does |
| InflateDecode.Lookup | deps/zlib/infback.c:493-510 | root and sub-table lead from any bit string to the entry of the one symbol whose code begins it and drop exactly that code, or to the invalid-code marker |
| InflateDecode.Peek | deps/zlib/infback.c:494-506 | when no more bits are to be dropped than are there, the bits that are missing did not matter |
| InflateDecode.Accumulator.PullByte | deps/zlib/infback.c:172-178 | takes a byte into the accumulator behind the bits that are there |
| InflateDecode.Accumulator.Drop | deps/zlib/infback.c:194-198 | removes bits from the front of the input |
| InflateDecode.GetEntry | deps/zlib/infback.c:493-510 | decodes one symbol from input that comes byte by byte, and stops short only when no code is complete |
| DeflateItems.ItemForToken | deps/zlib/inftrees.c:60-74 | every length from 3 to 258 and every distance from 1 to 32768 has a code with extra bits |
| DeflateItems.ItemCodable | deps/zlib/inftrees.c:60-74 | and every code with extra bits stands for such a length and distance |
| DeflateItems.SameItem | deps/zlib/infback.c:492-584 | no string begins with two literals or matches, or with one in two ways |
| InflateBlock.TakeExtra | deps/zlib/infback.c:183-199 | takes extra bits, lowest first, or finds that the input has too few |
| InflateBlock.GetDistance | deps/zlib/infback.c:542-574 | reads a distance code and its extra bits, or there is none at the front of the input |
| InflateBlock.GetItem | deps/zlib/infback.c:492-574 | reads a literal, a match or the end of the block; it fails exactly when none of them is at the front of the input |
| InflateBlock.InflateCodes | deps/zlib/infback.c:481-605 | on any input, what has been read is the bits of some literals and matches, the output has grown by exactly what they stand for, and the loop ends only at the end of the block, where nothing can be read, at a distance that reaches too far, or when output is refused |
| InflateBlock.Follows | deps/zlib/infback.c:481-605 | whatever is read from a block that was written is what was written, as far as it goes |
| InflateBlock.InflateWritten | deps/zlib/infback.c:481-605 | from a block that was written all of it is inflated and exactly what follows is left |
| InflateBlock.InflateTokens | deps/zlib/infback.c:481-614 | the bits of a block that codes tokens, with any two acceptable codes, make inflateBack deliver what the tokens stand for |
| InflateBlock.MakeCodes | deps/zlib/infback.c:456-478 | builds the two tables of a block, ready for use, exactly if both sets of lengths are acceptable and their tables fit |
| Gf2.PowMul | deps/zlib/crc32.c:542-560 | multiplying by x^n is n steps of the shift register |
| Gf2.PowAdd | deps/zlib/crc32.c:542-580 | exponents add |
| Gf2.XtLinear | deps/zlib/crc32.c:542-560 | the shift-register step is linear |
| Crc32.MultModP | deps/zlib/crc32.c:542-560 | the product modulo the polynomial |
| Crc32.MakeX2nTable | deps/zlib/crc32.c:289-293 | the table holds x^(2^k) |
| Crc32.X2nModP | deps/zlib/crc32.c:566-580 | x^(n 2^k), as long as no index wraps round or wrapping is right |
| Crc32.CrcConcat | deps/zlib/crc32.c:1072-1081 | the checksum of a concatenation from those of its parts |
| Crc32Order.Square | deps/zlib/crc32.c:292-293 | squaring a polynomial adds up the squares of its terms |
| Crc32Order.XReturns | deps/zlib/crc32.c:566-580 | x^(2^32) is x, so that the table of 32 entries may be read round and round |
| Crc32Order.PowerModP | deps/zlib/crc32.c:566-580 | x^(n 2^k) for all k and all n that are not negative |
| Crc32Order.LoopEnds | deps/zlib/crc32.c:566-580 | the loop of x2nmodp ends exactly when its argument is not negative |
| Crc32Order.Combine64 | deps/zlib/crc32.c:1072-1081 | from the checksums of two strings and the length of the second, that of the concatenation, for all strings |
| CrcTables.ShiftOne | deps/zlib/crc32.c:279-282 | shifting right and adding the polynomial if a one was shifted out is multiplication by x |
| CrcTables.MakeByteTable | deps/zlib/crc32.c:278-287 | the eight-step loop leaves in entry q what the byte q makes of an empty register |
| CrcTables.MakeBraid | deps/zlib/crc32.c:505-522 | the tables filled by x2nmodp and multmodp hold q times x^(8 (N W + 3 - k)) for byte q at place k |
| CrcTables.MakeCrcTable | deps/zlib/crc32.c:273-301 | makes all three tables |
| Braid.StepLooksUp | deps/zlib/crc32.c:1048-1057 | (crc >> 8) ^ crc_table[(crc ^ byte) & 0xff] is eight bit-serial steps with the byte added |
| Braid.Bytewise | deps/zlib/crc32.c:1042-1057 | the byte loop by table gives the register of the bit-serial definition |
| Braid.CrcWord | deps/zlib/crc32.c:717-724 | eight turns of shift and lookup on a 64-bit word, each entry added to the next four bytes, give what the eight bytes make of an empty register bit by bit |
| Braid.BraidWord | deps/zlib/crc32.c:847-882 | eight lookups in the braid tables take a braid's register through its word and past the words of the others |
| Braid.AdvanceBlock | deps/zlib/crc32.c:823-883 | the braids stay in step with the register over each block |
| Braid.CombineBlock | deps/zlib/crc32.c:885-905 | combining them over the last block gives the register after it |
| Braid.BraidBlocks | deps/zlib/crc32.c:757-1035 | the braided register equals the byte-at-a-time register |
| Braid.Crc32Z | deps/zlib/crc32.c:739-1058 | with the tables as they are made, the checksum of the bit-serial definition, continued from any earlier one, for every alignment and length |
| Braid.CrcZContinues | deps/zlib/crc32.c:739-1058 | the checksum of a longer text can be had piece by piece |
| Adler32.Deferred | deps/zlib/adler32.c:63-131 | reducing once at the end gives what reducing after every byte gives |
| Adler32.BlockFits | deps/zlib/adler32.c:12-14 | NMAX bytes never overflow 32 bits, from any 16-bit sums |
| Adler32.BlockIsLargest | deps/zlib/adler32.c:12-14 | NMAX is the largest number of bytes of which that is true |
| Adler32.Mod28 | deps/zlib/adler32.c:33-37 | the reduction without division is exact below 2^28 |
| Adler32.Mod | deps/zlib/adler32.c:38-42 | and below 2^32 |
| Adler32.Mod63 | deps/zlib/adler32.c:43-55 | and below 2^63 |
| Adler32.Adler32Z | deps/zlib/adler32.c:63-131 | the reduce-every-byte checksum for all lengths, from any start; for a single byte exactly when one subtraction reduces the second sum, as it does for every valid start |
| Adler32.UnreducedByte | deps/zlib/adler32.c:78-85 | the start 0xfffffff0 and the byte 0 are an input for which it does not |
| Adler32.Combine | deps/zlib/adler32.c:143-169 | from two checksums and the second length, that of the concatenation; the marker value for a negative length |
| Sfmt.Generator.GenerateAll | deps/SFMT/SFMT.c:245-263 | the state in place becomes the next stretch of the sequence |
| Sfmt.Generator.Next | deps/SFMT/SFMT.h:139-149 | returns the next 32-bit word of the sequence |
| Sfmt.Generator.GenerateArray | deps/SFMT/SFMT.c:95-128 | the array is the next stretch of the sequence and the state its last part |
| Sfmt.Generator.WriteBack | deps/SFMT/SFMT.c:118-127 | both orders of writing back, for sizes below and above twice the state, leave the right state |
| Sfmt.Generator.Fill | deps/SFMT/SFMT.c:293-300 | the words of the array are the next words of the sequence |
| Sfmt.Draw | deps/SFMT/SFMT.c:293-300 | bulk fills of any sizes and then single draws are the beginning of the one sequence |
| Sfmt.DrawStandard | deps/SFMT/SFMT-common.h:60-160 | the same for the recursion of the 19937 parameter set |
| SfmtBits.NumberOfLanes | deps/SFMT/SFMT-common.h:100-116 | the bits of a word make up u0 + 2^32 u1 + 2^64 u2 + 2^96 u3 |
| SfmtBits.ShiftLeftNumber | deps/SFMT/SFMT-common.h:100-116 | lshift128 by one byte is multiplication by 256 modulo 2^128 |
| SfmtBits.ShiftRightNumber | deps/SFMT/SFMT-common.h:60-76 | rshift128 by one byte is division by 256 |
| SfmtBits.RecurBit | deps/SFMT/SFMT-common.h:141-160 | bit i of the next word is the sum modulo 2 of bits i and i-8 of a, bit i+8 of c and, within the lane, the masked bit i+11 of b and bit i-18 of d |

## Left out

- Randomised blocks: the encoder never writes them; the decoder model reports a data error.
- The file and stdio layers of bzip2 and zlib, allocation, verbosity, error strings.
- The main `inflate()` machine, `inffast.c` (the slow path of `inflateBack` is taken throughout) and the choice of codes and the
  bit output of deflate blocks (`trees.c`): deflate's tokens are a log.
- deflate's dictionary, parameter changes, copying, gzip headers, `deflate_stored`, `deflate_rle` and `deflate_huff`.
- The values of `ENOUGH_LENS` and `ENOUGH_DISTS`: that no code of deflate's alphabets needs more entries was found by search
  and is not proved; `InflateTable.BuildTable` says of every set of lengths whether its tables fit.
- The reading of dynamic block headers in `inflateBack` (run-length coded code lengths).
- SFMT's seeding, period certification, floating-point conversions and SIMD variants.
- ARM and big-endian variants of CRC-32, and `crc32_combine_gen`.
- BitStream.Input.Get: the return of BZ_OK to the caller when input runs out inside `BZ2_decompress`, and the saving of its
  locals, are replaced by stepping to the next of the pieces given in advance.
- Decompressor.ReadNext: inherits that; running out of pieces is an outcome, not a return that can be resumed.
- Decompressor.Decompression.BzDecompress: inherits that; all pieces of input are given in advance.
- RoundTrip.ReadBack: inherits that.
- BlockReceive.TakeSymbols: all symbols of a block are read before any is decoded; the interleaving of the source is not modelled.
- BlockReceive.TakeBody: what the code does after a store behind its selector arrays is not modelled.
- The remaining code of the repository (game server, web pages, generated SOAP wrappers) holds no comparable algorithms.
- Crc32.X2nModP: stated with the condition that no table index wraps or that wrapping is right; `Crc32Order.XReturns` proves
  that wrapping is right for the table of 32 entries, and `Crc32Order.PowerModP` states the result without the condition.
- MainSort.Sort: says on what the budget is spent and of each comparison how much, not how many comparisons are made in all.
