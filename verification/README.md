# A verified model of some BusyBox applets

This project models, in Dafny, the logic of six BusyBox programs and proves what they are for.

- **gzip** (`archival/gzip.c`, `libbb/crc32.c`). The whole compressor: the sliding window with its hash chains and lazy
  matching, the packed token buffers, the heap-built Huffman trees with the length-limiting repair, canonical codes, the
  run-length coded tree header, exact cost accounting, the choice among the three block types, the bit writer, and the
  gzip file around it. The main theorem is `Gzip.Zip`: for every input, read in pieces of any size, a decoder written
  independently from section 3.2 of RFC 1951 and section 2.3 of RFC 1952 turns the file back into exactly the input.
  `GzipExample.ExampleReads` fixes that decoder by a file of known bytes.
- **lzop** (`archival/lzop.c`, the writer in `archival/libarchive/lzo1x_9x.c`). The optimizer that rewrites a compressed
  LZO1X block in place. The main theorem is `LzoOptimize.Optimize`: the rewritten block decodes to the same output. What a
  block decodes to is fixed from the side of the compressor: `LzoWriter.BlockDecodes` takes back everything that it writes.
  The Adler-32 with deferred modulo is here too.
- **factor** (`coreutils/factor.c`, `libbb/isqrt.c`). The main theorem is `Factorizing.Factorizer.Factorize`: what is
  printed is the sorted list of prime factors.
- **dpkg** (`archival/dpkg.c`). Double hashing, interned strings, the package table and the version order, which
  `VersionPolicy` ties to the rules for version texts: tildes, letters, numbers, epochs and revisions.
- **expr** (`coreutils/expr.c`). Evaluation while parsing computes the value of the expression tree; `ExprLaws` says what
  each operator and function gives for given tokens.
- **tail** (`coreutils/tail.c`). The streaming buffer holds the last lines, however the stream is cut into reads.

The gzip model is built from the bottom up, and each stage is stated so that it composes with the next:

| files | stage |
|---|---|
| `Bits`, `BitWriter` | bit strings; the accumulator and output buffer as an append-only bit list |
| `Copying`, `Rfc1951`, `CanonicalCodes` | the reference decoder; it reads canonical codewords back |
| `Sums`, `Huffman`, `Heap`, `Heights`, `TreeMerge`, `BitLengths`, `LengthRepair`, `GenBitlen`, `CutCosts`, `GenCodes`, `PrefixCodes`, `BuildTree` | one Huffman tree: merging, depths, repair, codes, optimality, the cost of a cut |
| `RunLengths`, `TreeHeader`, `CodeTables` | run lengths, the header of a dynamic block, the tables of `ct_init` |
| `Tokens`, `TokenBuffer`, `BlockTrees`, `BlockCoding`, `Block` | tokens and their buffers, costs, the three block types |
| `Crc32`, `Reader`, `Matching`, `Window`, `Lz77`, `Deflate`, `Gzip`, `GzipExample` | input, hash chains, window, lazy matching, the file, a known file |

Values that the program keeps in a fixed width are written with an explicit wrap (`Wrap32`, `Wrap16`, `Wrap8`), and the
proofs show where none happens. The tables of the compressor and those of the reference decoder are written down
separately and are shown to agree. Bit operators of C are functions on naturals. The constants are those of the default
configuration: `SMALL_MEM`, a 32-bit bit buffer; the search parameters of every compression level are covered by
`Matching.Config`.

## Model

| member | source | states |
|---|---|---|
| BitWriting.BitWriter.Put8 | archival/gzip.c:437-442 | one byte is appended, over any flush of the buffer |
| BitWriting.BitWriter.Put16 | archival/gzip.c:445-481 | two bytes are appended, low byte first, also where the buffer fills between them |
| BitWriting.BitWriter.Put32 | archival/gzip.c:484-499 | four bytes are appended, low byte first |
| BitWriting.BitWriter.FlushOutbuf | archival/gzip.c:425-432 | the buffered bytes move to the output |
| BitWriting.BitWriter.SendBits | archival/gzip.c:541-574 | exactly the bits of the value are appended to all bits sent, least significant first, over any state of the accumulator |
| BitWriting.BitWriter.BiWindup | archival/gzip.c:596-609 | the stream is padded with zero bits to a byte boundary |
| BitWriting.BitWriter.CopyBlock | archival/gzip.c:615-631 | padding, the length and its complement, then the bytes of the block |
| BitWriting.StoredHeader | archival/gzip.c:619-622 | the word that is put is the LEN and NLEN pair of a stored block |
| GenCodes.BiReverse | archival/gzip.c:581-591 | the bits of the result are the bits of the code from the most significant one on |
| GenCodes.GenCodes | archival/gzip.c:1254-1288 | every used symbol gets the canonical codeword of section 3.2.2 of RFC 1951, bit reversed |
| CanonicalCodes.CodeFits | archival/gzip.c:1254-1288 | with a Kraft sum of at most one every canonical code fits its length |
| CanonicalCodes.PrefixFree | archival/gzip.c:1254-1288 | no canonical code is a prefix of another |
| CanonicalCodes.DecodeCodeword | archival/gzip.c:1254-1288 | the reference decoder reads a codeword back, whatever follows it |
| Heap.PqDownHeap | archival/gzip.c:1127-1149 | the heap order is restored, the entries stay the same multiset, and nothing else changes |
| TreeMerge.PqRemove | archival/gzip.c:1302-1310 | the entry removed comes first by frequency and then by height, and the rest is a heap |
| TreeMerge.MergeOnce | archival/gzip.c:1363-1383 | the two first nodes by frequency and height are joined; the history stays greedy and ordered, the heights in `depth` do not wrap, and the tail of the heap array records the merges |
| TreeMerge.HeightFits | archival/gzip.c:1372 | the height of a node is below 23, so the byte that holds it never wraps |
| Heights.NoneIsLower | archival/gzip.c:1123-1125 | breaking ties by height: among the lengths of least cost none is lower than the merged tree |
| Heights.CheapIsUncut | archival/gzip.c:1178-1203 | if any lengths within the limit cost as little as the merged tree, no depth is cut |
| Heights.FatherIsHeavy | archival/gzip.c:1360-1385 | a merged node of height k weighs at least a Fibonacci number that grows with k |
| Heights.LightIsUncut | archival/gzip.c:1178-1203 | frequencies that sum up to less than the Fibonacci number of a tree above the limit are never cut |
| BitLengths.TailDecreases | archival/gzip.c:1367-1385 | the tail of the heap array lists nodes by non-increasing frequency |
| BitLengths.FatherBefore | archival/gzip.c:1367-1385 | in that tail every father comes before its sons |
| BitLengths.FirstPass | archival/gzip.c:1169-1203 | the lengths are the depths cut at the limit, with their counts, the exact costs and the number of cuts |
| Huffman.CutDepthsKraft | archival/gzip.c:1178-1203 | cutting depths at the limit overfills the code space by exactly the counted excess |
| LengthRepair.FindShorter | archival/gzip.c:1212-1214 | while the code space is overfull, the longest length in use below the limit is found |
| LengthRepair.Repair | archival/gzip.c:1211-1222 | each step removes one unit of excess and keeps the number of leaves, until the Kraft sum is one; always the longest code below the limit is moved down, and a leaf stays at the limit |
| LengthRepair.ShortCodesStay | archival/gzip.c:1211-1222 | the counts of all codes of up to b bits stay as they are if the longer codes can take in the excess |
| GenBitlen.HandOut | archival/gzip.c:1229-1242 | the repaired counts are handed out to the leaves and the cost follows each change |
| GenBitlen.GenBitlen | archival/gzip.c:1161-1244 | every leaf has a length from one to the limit, the Kraft sum is exactly one, both totals grow by the exact costs; the lengths have the repaired counts and rise in the order in which the leaves were merged backwards; a cut leaves some leaf at the limit |
| CutCosts.SortedIsCheapest | archival/gzip.c:1225-1242 | lengths that never are longer for a heavier leaf cost least among all with the same counts |
| CutCosts.RepairCost | archival/gzip.c:1205-1222 | there are lengths with the repaired counts that cost at most the heaviest leaf concerned more for each unit of excess |
| CutCosts.RepairedIsNear | archival/gzip.c:1205-1242 | for every b, if the leaves with more than b bits can take in the excess, no code of up to b bits changes and each unit of excess costs at most the weight of the heaviest of those leaves |
| BuildTree.ForceTwo | archival/gzip.c:1342-1352 | at least two symbols end up used, and both totals are corrected for those that were forced |
| BuildTree.BuildTree | archival/gzip.c:1312-1394 | complete code with a codeword for every used symbol, exact costs; for two or more symbols a heavier one never has a longer code, the lengths are minimal exactly if any lengths within the limit are, and then no prefix code for these frequencies costs less; so they are if none reaches the limit or the frequencies sum up to less than a Fibonacci number; the lengths of a tree that is cut are near uncut lengths of least cost, as `CutCosts.RepairedIsNear` says; the largest symbol reported has a code |
| Huffman.GreedyIsOptimal | archival/gzip.c:1360-1385 | greedy merging gives lengths of minimal cost among all that satisfy Kraft's inequality |
| PrefixCodes.KraftInequality | archival/gzip.c:1290-1297 | every prefix code satisfies Kraft's inequality |
| PrefixCodes.BeatsPrefixCodes | archival/gzip.c:1290-1297 | lengths minimal under Kraft's inequality cost no more than any prefix code for the same frequencies |
| RunLengths.RunItemsDecode | archival/gzip.c:1454-1505 | the run-length items of a tree decode to exactly its lengths |
| RunLengths.RunAtOnce | archival/gzip.c:1454-1505 | equal lengths in a row become one item, up to the count that the item can hold |
| RunLengths.BlExtraAgrees | archival/gzip.c:895-896 | the extra bits of the compressor's table are those of section 3.2.7 of RFC 1951 |
| RunLengths.TwoTreesDecode | archival/gzip.c:1563-1566 | the items of both trees in a row decode to both sets of lengths |
| TreeHeader.SendTree | archival/gzip.c:1454-1505 | the bits appended are those of the run-length items |
| TreeHeader.ScanTree | archival/gzip.c:1402-1448 | each code length symbol is counted as often as the items use it, and the guard is set |
| TreeHeader.LastBlIndex | archival/gzip.c:1529-1532 | at least four code length codes are sent, the last one is used, and none of those left out is |
| TreeHeader.SendAllTrees | archival/gzip.c:1545-1567 | the bits appended are the header of a dynamic block, its code length codes in the order of the compressor's own table |
| TreeHeader.OrdersAgree | archival/gzip.c:898-900 | the compressor's order of code length codes is that of section 3.2.7 of RFC 1951 |
| TreeHeader.HeaderDecodes | archival/gzip.c:1545-1567 | the reference decoder reads both sets of code lengths from the header |
| CodeTables.InitLengthCodes | archival/gzip.c:1983-1996 | the length tables agree with section 3.2.5 of RFC 1951, length 258 having its own code |
| CodeTables.InitDistCodes | archival/gzip.c:1998-2014 | the distance tables agree with section 3.2.5 of RFC 1951 |
| CodeTables.ExtrasAgree | archival/gzip.c:881-892 | the extra bits of length and distance codes are those of section 3.2.5 of RFC 1951 |
| CodeTables.InitStaticLtree | archival/gzip.c:2016-2048 | the static literal tree has the lengths and codewords of section 3.2.6 of RFC 1951 |
| CodeTables.InitStaticDtree | archival/gzip.c:2050-2054 | the static distance tree has the five-bit codewords of section 3.2.6 of RFC 1951 |
| CodeTables.FixedLiteralCodes | archival/gzip.c:2016-2048 | the canonical assignment gives the table of fixed literal codes |
| CodeTables.FixedComplete | archival/gzip.c:2044-2047 | both fixed codes are complete with the symbols that do not occur |
| TokenBuffers.TokenBuffer.Store | archival/gzip.c:1575-1600 | the packed buffers stand for the tokens stored before, and one more |
| TokenBuffers.TokenBuffer.SaveFlags | archival/gzip.c:1685 | the flags of the last group are saved and nothing else changes |
| TokenBuffers.NextToken | archival/gzip.c:1641-1669 | the replay reads the token that was stored, in order |
| TokenBuffers.CompressBlock | archival/gzip.c:1630-1673 | the bits appended are the coded tokens and the end of the block |
| TokenBuffers.InitTables | archival/gzip.c:1983-2014 | the four mapping tables are right |
| Tokens.BlockDecodes | archival/gzip.c:1630-1673 | the reference decoder turns the coded tokens into their expansion |
| Tokens.BlockCost | archival/gzip.c:1195-1202 | the number of bits of the block data is the weighted sum over the symbol frequencies |
| Tokens.StaticBound | archival/gzip.c:1704 | a token takes at most 31 bits in a static block |
| BlockTrees.ItemsCost | archival/gzip.c:1519-1523 | the bits of the tree descriptions are what the code length tree adds to the total |
| BlockTrees.HeaderCost | archival/gzip.c:1533-1534 | the exact size of the header |
| BlockTrees.BuildBlTree | archival/gzip.c:1511-1538 | the header is sendable, the total grows by exactly its size, and the code length tree is minimal exactly if it can be within seven bits |
| Blocks.BuildTrees | archival/gzip.c:1687-1704 | opt_len and static_len are exactly the bits of the dynamic and of the static encoding; each of the three trees is minimal exactly if it can be within its limit |
| Blocks.StoredFits | archival/gzip.c:1730-1741 | the static encoding of a full buffer takes less than 64K bytes, so a stored block that is chosen has a 16-bit length |
| Blocks.KindBits | archival/gzip.c:1730-1752 | a stored block is chosen only with data at hand whose length fits 16 bits; each kind sends its own encoding |
| Blocks.ChooseKind | archival/gzip.c:1703-1747 | the comparison of byte sizes that picks the block type |
| Blocks.NoneIsShorter | archival/gzip.c:1730-1752 | no other form that is available takes fewer bytes; the head of a stored block and its padding do not count, as in the program |
| Blocks.ChosenMeans | archival/gzip.c:1713-1753 | whichever type is picked, the block decodes to the expansion of its tokens |
| Blocks.BlockCoder.InitBlock | archival/gzip.c:1095-1112 | frequencies and buffers describe the empty token list |
| Blocks.BlockCoder.CtTally | archival/gzip.c:1573-1625 | the token is stored and counted; the result says exactly when the block ends; the buffers never overflow |
| Blocks.EstimateCost | archival/gzip.c:1604-1611 | the sum over the distance codes is the estimate over the tokens |
| Blocks.BlockCoder.FlushBlock | archival/gzip.c:1680-1766 | what is sent decodes to the tokens of the block, the final block is padded, and an empty block begins |
| BlockCoding.StoredMeans | archival/gzip.c:1738-1741 | a stored block decodes to its bytes at any bit position |
| BlockCoding.StaticMeans | archival/gzip.c:1744-1745 | a static block decodes to the expansion of its tokens |
| BlockCoding.DynamicMeans | archival/gzip.c:1748-1751 | a dynamic block decodes to the expansion of its tokens |
| BlockCoding.CarriesMore | archival/gzip.c:1680-1766 | blocks in a row decode one after the other |
| Crc32.Crc32FillTable | libbb/crc32.c:22-43 | each entry is eight shifts of the register |
| Crc32.PolyIs | libbb/crc32.c:22-43 | the polynomial has the exponents of ISO 3309, mirrored |
| Crc32.Crc32Block | libbb/crc32.c:66-75 | the table-driven value equals the bit-serial register over the bits of the buffer, and stays within 32 bits |
| Crc32.CrcAppend | archival/gzip.c:512-515 | the register over two buffers in a row |
| Readers.Reader.FileRead | archival/gzip.c:522-535 | some bytes of the input arrive, in order; crc and size follow |
| Matching.HashForgets | archival/gzip.c:1774 | after three bytes nothing is left of an older hash |
| Matching.ThirdByte | archival/gzip.c:745-758 | strings with equal hash and equal first two bytes agree in the third, so it need not be compared |
| Matching.InsertString | archival/gzip.c:1803-1808 | exactly one head and one link change: the string at the position heads its chain and links to the old head, which is returned; the chains stay sound |
| Matching.InsertKeeps | archival/gzip.c:1803-1808 | every link leads to an earlier position with the same hash, after an insertion |
| Matching.SlideKeeps | archival/gzip.c:661-677 | the same after the window has slid |
| Matching.NextCandidate | archival/gzip.c:780-781 | following a link from a position within reach gives one within reach, with the same hash, or ends the walk |
| Matching.LevelsValid | archival/gzip.c:2202-2242 | the parameters of every level meet what the matcher relies on, and level 6 gives the built-in values |
| Matching.LongestMatch | archival/gzip.c:710-784 | a longer result is a true match within MAX_DIST, no position visited has a longer one, and the walk stopped for a stated reason |
| Windows.SlidingWindow.Slide | archival/gzip.c:655-679 | the window still holds the end of the input, every entry of the tables moves down by WSIZE or becomes empty, all chains stay sound, and the pending distance survives the wrap of match_start |
| Windows.SlidingWindow.FillWindow | archival/gzip.c:641-689 | exactly the free size, which is at least two, is asked for; the window slides exactly from WSIZE + MAX_DIST on; no position in the input moves; the end is noted exactly when nothing was read |
| Windows.SlidingWindow.FillIfNeeded | archival/gzip.c:691-695 | there is enough lookahead, or the input has ended |
| Windows.SlidingWindow.LmInit | archival/gzip.c:1927-1961 | the window, the chains and the running hash are ready for the first string |
| Windows.SlidingWindow.Insert | archival/gzip.c:1803-1808 | the string at strstart becomes the head of its chain, the old head is returned, and the running hash is ready for the next |
| Windows.SlidingWindow.Skip | archival/gzip.c:1858-1874 | all strings inside a match are inserted and the window stands at its end |
| Lz77.CopyIs | archival/gzip.c:1854-1856 | copying a match, overlapping or not, continues the input |
| Lz77.WindowMatch | archival/gzip.c:1838-1841 | a match in the window is a match at the same distance in the input |
| Lz77.CodedMatch | archival/gzip.c:1854-1856 | a match token extends the input that the tokens stand for |
| Lz77.CodedLiteral | archival/gzip.c:1885-1888 | so does a literal |
| Lz77.CodedFlush | archival/gzip.c:1875-1878 | after a flush the blocks stand for what the tokens did |
| Lz77.CodedSpan | archival/gzip.c:1788-1795 | the block length passed on is the number of bytes that the tokens stand for |
| Deflating.Deflater.FindMatch | archival/gzip.c:1820-1850 | a result longer than the previous one is a true match at the position in the input, cut to the lookahead; below the lazy limit no longer match at the head of the chain, if that is within reach, is missed |
| Deflating.Deflater.TakeMatch | archival/gzip.c:1854-1878 | the previous match becomes a token, the only one made, and tokens stand for the input up to strstart |
| Deflating.Deflater.TakeLiteral | archival/gzip.c:1879-1888 | the byte before strstart becomes a literal, the only token made |
| Deflating.Deflater.Decide | archival/gzip.c:1852-1899 | a match that waits and is not bettered becomes a token; otherwise the byte that waits becomes a literal, or nothing is made and the byte waits |
| Deflating.Deflater.FlushBlock | archival/gzip.c:1788-1795 | the block decodes to the input since the last one, also when it has left the window |
| Deflating.Deflater.Step | archival/gzip.c:1819-1907 | one turn of the loop keeps the invariant and makes progress |
| Deflating.Deflater.Deflate | archival/gzip.c:1810-1912 | the bits sent decode to exactly the input |
| Gzip.FileReads | archival/gzip.c:2064-2103 | header, blocks, padding and trailer form a gzip file with the data |
| Gzip.Zip | archival/gzip.c:2064-2103 | the file written decompresses to exactly the input, with the right check value and size |
| GzipExample.ExampleReads | archival/gzip.c:2064-2103 | the 21 bytes of a gzip file that holds the letter a, in a static block, decompress to it |
| LzoMeaning.ParseSame | archival/lzop.c:366-371 | a match does not depend on the number of literals it announces |
| LzoMeaning.FinishTail | archival/lzop.c:171-381 | the rest of the walk depends only on the bytes ahead |
| LzoMeaning.BetweenMatches | archival/lzop.c:224-232 | literals in place of a match between two matches keep the meaning |
| LzoMeaning.BeforeRun | archival/lzop.c:235-257 | merging literals, a match and a literal run into one run keeps the meaning |
| LzoMeaning.BetweenRuns | archival/lzop.c:279-293 | merging two literal runs with a match between them keeps the meaning |
| LzoMeaning.AnchorDecode | archival/lzop.c:171-381 | at every point of the walk the stream as rewritten so far decodes to the same output |
| LzoWriter.ParseMatch | archival/libarchive/lzo1x_9x.c:502-567 | the bytes that the compressor writes for a match, of any length and distance in range, are parsed as that match |
| LzoWriter.ParsedIsCode | archival/lzop.c:213-321 | every match parsed is one of the five codes, with length and distance in the range of its class |
| LzoWriter.BlockDecodes | archival/libarchive/lzo1x_9x.c:502-608 | a block of literals and matches, as the compressor writes it, decodes to what they stand for |
| LzoOptimize.Copy2 | archival/lzop.c:113-120 | the two bytes written are those the match produces, for every distance |
| LzoOptimize.Copy3 | archival/lzop.c:122-136 | the three bytes written are those the match produces, for every distance |
| LzoOptimize.ReadMatch | archival/lzop.c:214-321 | the opcode is read as the plain walk reads it; `LzoWriter.ParseMatch` and `LzoWriter.ParsedIsCode` say what that is |
| LzoOptimize.RewriteBeforeRun | archival/lzop.c:240-251 | the bytes after the move and the insertion |
| LzoOptimize.HandleMatch | archival/lzop.c:213-376 | a match is passed or rewritten by one of the five patterns, with the exact new bytes of each, and the walk's invariant holds again |
| LzoOptimize.Optimize | archival/lzop.c:144-394 | the rewritten block has the same length, decodes to the same output and ends at the same byte |
| Adler32.NoOverflow | archival/lzop.c:513-518 | no sum of 5552 bytes overflows 32 bits, from any start value |
| Adler32.LzoAdler32 | archival/lzop.c:510-537 | the result is that of the byte-by-byte definition, for every length and start |
| Adler32.AdlerAppend | archival/lzop.c:510-537 | checksums compose over concatenated buffers |
| Adler32.AdlerOfOne | archival/lzop.c:519-536 | the value of one byte, and of none |
| Adler32.OneMoreOverflows | archival/lzop.c:515-517 | with one byte more than 5552 a sum can overflow |
| Adler32.BaseIsLargestPrime | archival/lzop.c:514 | the base is the largest prime below 65536 |
| Wheel.TableGap | coreutils/factor.c:60-85 | every increment skips only multiples of 2, 3, 5, 7 and 11 |
| Wheel.Positions | coreutils/factor.c:88-89 | one turn of the wheel is 2310, from 13 on |
| Wheel.UnpackWheel | coreutils/factor.c:101-120 | unpacking gives the increments of all rows, each from a word of 64 bits |
| Factor.WheelStep | coreutils/factor.c:204-211 | a step of the wheel loses no divisor, in any cycle |
| Factor.TrialDivide | coreutils/factor.c:195-197 | a divisor found is prime; what is printed times what is left stays constant |
| Factor.TrialFinish | coreutils/factor.c:161-217 | the factors of what is left complete the sorted list |
| Factor.SquareFactors | coreutils/factor.c:147-152 | the factors of the root, twice as often, are those of the square |
| Factorizing.Isqrt | libbb/isqrt.c:19-35 | the largest number whose square is not above the argument |
| Factorizing.RootTried | coreutils/factor.c:202-203 | past the odd root, what is left is prime |
| Factorizing.OverflowTried | coreutils/factor.c:204-206 | leaving on overflow of the divisor loses none |
| Factorizing.CountSquare | coreutils/factor.c:149 | the 8-bit repeat count does not overflow |
| Factorizing.Factorizer.PrintW | coreutils/factor.c:123-129 | the number is printed as often as the count says |
| Factorizing.Factorizer.IsqrtOdd | coreutils/factor.c:137-159 | the odd root, or the factors of a square already printed |
| Factorizing.Factorizer.DivideOut | coreutils/factor.c:195-201 | the divisor is taken out completely, or a square finished the job |
| Factorizing.Factorizer.TryDivisors | coreutils/factor.c:187-216 | the loop prints the prime factors in order |
| Factorizing.Factorizer.Factorize | coreutils/factor.c:161-217 | for every number, sorted primes with product N to the power of the count |
| Factorizing.Factorizer.FactorizeNumber | coreutils/factor.c:219-232 | for every number the primes printed are sorted and multiply to it |
| Probing.StepNonzero | archival/dpkg.c:78-79 | multiples of the step below the prime are nonzero modulo the prime |
| Probing.EveryAddress | archival/dpkg.c:78-79 | the probes visit every slot |
| Probing.NamePrime | archival/dpkg.c:88 | the size of the string table is prime |
| Probing.PackagePrime | archival/dpkg.c:98 | the size of the package table is prime |
| Probing.StatusPrime | archival/dpkg.c:116 | the size of the status table is prime |
| Packages.MakeHash | archival/dpkg.c:169-186 | the start is a slot and the step is nonzero modulo the prime |
| Packages.StopsInTime | archival/dpkg.c:195-203 | a search ends if a slot is free or matches |
| Packages.SearchNameHashtable | archival/dpkg.c:189-206 | the string gets an index; no other entry changes |
| Packages.IndexIsIdentity | archival/dpkg.c:188-206 | equal strings have equal indices and distinct strings distinct ones |
| Packages.SearchPackageHashtable | archival/dpkg.c:356-377 | the first slot on the probe path that is free or holds an acceptable package: one with the name whose version meets the operator |
| Packages.SearchStatusHashtable | archival/dpkg.c:211-227 | the first slot on the probe path that is free or belongs to a package with the name |
| Packages.AddPackage | archival/dpkg.c:685-688 | the node is stored, replacing only an equivalent one |
| Packages.OneNode | archival/dpkg.c:685-688 | at most one node per name and class of equivalent versions |
| Packages.NamesMayGrow | archival/dpkg.c:204 | indices handed out stay valid while strings are added |
| Versions.VersionComparePart | archival/dpkg.c:240-277 | the sign is that of the lexicographic comparison of the parsed keys; neither string is overrun |
| Versions.CompareTrans | archival/dpkg.c:240-277 | the comparison of keys is transitive |
| Versions.VersionCompare | archival/dpkg.c:283-334 | epoch, then upstream version, then revision |
| Versions.VersusSame | archival/dpkg.c:279-282 | the version order is reflexive |
| Versions.VersusFlip | archival/dpkg.c:279-282 | exchanging the versions changes the sign, so the order is total |
| Versions.VersusTrans | archival/dpkg.c:279-282 | the version order is transitive |
| VersionPolicy.TildeIsFirst | archival/dpkg.c:229-237 | behind a common prefix a tilde sorts before everything else, even before the end |
| VersionPolicy.EndIsBeforeCharacter | archival/dpkg.c:229-237 | the end, or a number, sorts before a letter and before any other character but the tilde |
| VersionPolicy.LettersAreBeforeOthers | archival/dpkg.c:229-237 | letters sort before all other characters, and each kind in the order of the character set |
| VersionPolicy.NumbersByValue | archival/dpkg.c:257-274 | runs of digits compare by value; if the values are equal, what follows decides |
| VersionPolicy.LeadingZeros | archival/dpkg.c:257-260 | leading zeros add nothing to a value |
| VersionPolicy.TextParts | archival/dpkg.c:294-322 | the epoch is the number in front of the first colon, reduced to 32 bits, and the revision is what follows the last hyphen |
| VersionPolicy.PlainParse | archival/dpkg.c:287-322 | a text with neither has epoch zero and an empty revision |
| VersionPolicy.PartsDecide | archival/dpkg.c:305-329 | epochs are compared first, then upstream versions, then revisions |
| VersionPolicy.MissingParts | archival/dpkg.c:240-243 | no epoch is the epoch zero and no revision is the revision zero |
| VersionPolicy.OperatorsOnNumbers | archival/dpkg.c:336-354 | on two numbers each operator is that of arithmetic |
| Versions.TestVersion | archival/dpkg.c:336-354 | each operator answers the comparison it names |
| Versions.OperatorsAgree | archival/dpkg.c:336-354 | the operators agree with one another and with exchange |
| Expressions.ReadBackAt | coreutils/expr.c:406-537 | at each level evaluation takes exactly the tokens of the tree and goes on with its value, associating to the left |
| Expressions.ReadBackOperand | coreutils/expr.c:317-401 | so do parentheses, `quote` and the keywords |
| Expressions.ReadBack | coreutils/expr.c:522-559 | the tokens of a tree give its value and nothing is left |
| Expressions.Evaluator.Eval7 | coreutils/expr.c:317-337 | bare operands and parentheses |
| Expressions.Evaluator.Eval6 | coreutils/expr.c:341-401 | keywords |
| Expressions.Evaluator.EvalLevel | coreutils/expr.c:406-537 | the six loops over binary operators compute the function of the tokens; `ExprLaws` says what the operators give |
| Expressions.Run | coreutils/expr.c:539-559 | the evaluator gives the value of the tokens, and fails exactly if they have none or some are left |
| ExprLaws.ShowIs | coreutils/expr.c:177-183 | what is printed for a number is its sign and its decimal digits |
| ExprLaws.ReadDigits | coreutils/expr.c:187-203 | digits, also behind a minus sign, are read as the number they stand for |
| ExprLaws.ReadShown | coreutils/expr.c:177-203 | what is printed for a number is read back as that number |
| ExprLaws.SumDifferenceProduct | coreutils/expr.c:247-260 | sum, difference and product of numbers, if they are in range |
| ExprLaws.OutOfRange | coreutils/expr.c:247-260 | out of range they are reduced modulo 2^64 |
| ExprLaws.DivisionTruncates | coreutils/expr.c:261-265 | quotient and remainder: the remainder is smaller than the divisor and has the sign of the dividend |
| ExprLaws.ArithmeticFails | coreutils/expr.c:251-262 | division by zero fails, and so does arithmetic on what is no number |
| ExprLaws.NumbersCompare | coreutils/expr.c:217-243 | numbers are compared as numbers |
| ExprLaws.StringsCompare | coreutils/expr.c:223-228 | other operands are compared as in a dictionary: the first character that differs decides, and a prefix comes first |
| ExprLaws.ComparisonsAgree | coreutils/expr.c:229-243 | exactly one of less, equal and more holds, and the other comparisons follow from them |
| ExprLaws.EqualStrings | coreutils/expr.c:235-236 | equal strings are equal |
| ExprLaws.Alternatives | coreutils/expr.c:502-537 | when the bar and the ampersand give the first operand, the second or zero |
| ExprLaws.NumberAlternatives | coreutils/expr.c:167-173 | of a number that was computed, zero counts as nothing |
| ExprLaws.StringFunctions | coreutils/expr.c:359-382 | `length` counts characters; `index` gives the first position of one of the characters, or zero if there is none |
| ExprLaws.SubstringIs | coreutils/expr.c:383-399 | `substr` gives the stretch asked for, or as much of it as there is |
| ExprLaws.Quoted | coreutils/expr.c:354-358 | `quote` takes any token as a string |
| ExprLaws.MatchIs | coreutils/expr.c:367-372 | `match` and the colon hand the string and then the pattern to the matcher |
| ExprLaws.TighterFirst | coreutils/expr.c:403-537 | the operator that binds tighter is applied first, and of two that bind alike the left one |
| Expressions.Evaluate | coreutils/expr.c:541-559 | run on a printed tree, the evaluator computes its value or fails exactly when it has none |
| Tail.LastBytesAre | coreutils/tail.c:288-292 | the last bytes are a suffix of the stream, as long as asked for or the whole stream |
| Tail.LastLinesAre | coreutils/tail.c:294-322 | the last lines are a suffix of the stream that starts at the start of a line and has as many lines as asked for, or is the whole stream |
| Tail.LineStarts | coreutils/tail.c:275-281 | what follows a number of newlines starts right behind the last of them |
| Tail.OneLine | coreutils/tail.c:294-322 | a line is a stretch up to a newline, and one without counts at the end |
| Tail.FromNthIs | coreutils/tail.c:271-285 | from byte N on: everything behind the first N - 1 bytes |
| Tail.LastLinesStream | coreutils/tail.c:294-322 | the last lines of a longer text need only the last lines of the part before |
| Tail.SeekPoint | coreutils/tail.c:246-251 | the exact position, with no wrap in the unsigned product |
| Tail.SeekIsSound | coreutils/tail.c:241-252 | with lines under 64K the seek loses nothing unless its distance was capped |
| Tail.SeekExact | coreutils/tail.c:241-252 | exactly when starting from a point gives the same lines |
| Tail.SeekLosesLongLine | coreutils/tail.c:241-252 | a line of 983041 bytes for which the seek changes the result |
| Tail.TailFile | coreutils/tail.c:224-333 | the seek and the reading together: the last lines of the file if its lines are under 64K, and the exact condition otherwise; for a file of any size it succeeds exactly if the count is at most INT_MAX or the file is empty |
| Tail.TailBuffer.AddLines | coreutils/tail.c:294-327 | the buffer holds the last lines and the newline count is right; it fails exactly if the count is above INT_MAX or the text would be |
| Tail.TailBuffer.AddBytes | coreutils/tail.c:288-292 | the buffer holds the last bytes; it fails under exactly the same condition |
| Tail.LinesBeyondInt | coreutils/tail.c:304-318 | the count 4294967295 on a single newline: the scan asks for two |
| Tail.TailLines | coreutils/tail.c:266-333 | for every stream and every chunking the last lines are printed, an unterminated one counting, if and only if the stream is empty, or the count is zero, or it is at most INT_MAX and in no read the text in the buffer exceeds INT_MAX bytes; lines held that stay BUFSIZ below that suffice |
| Tail.TailBytes | coreutils/tail.c:266-333 | the last bytes are printed if and only if the count is at most INT_MAX or the stream is empty; for success a count within BUFSIZ of INT_MAX needs a stream of at most INT_MAX bytes |
| Tail.SkipLines | coreutils/tail.c:275-281 | where the requested line begins within one read |
| Tail.FromLine | coreutils/tail.c:267-285 | everything from line N on, for every 32-bit N |
| Tail.FromByte | coreutils/tail.c:267-285 | everything from byte N on, if and only if N is at most 2147483649 plus the size of the first read, or the stream is empty |
| Tail.BytesBeyondInt | coreutils/tail.c:271-285 | byte 4294967295 of a stream of one byte: three bytes would be written |

## Left out

- BuildTree.BuildTree: a comment at archival/gzip.c:1350 says that a forced code is 0 or 1; the code may also force 2, and the model follows the code.
- Matching.LongestMatch: the comparison loop, unrolled eight times in the program, is one loop here; the program allocates 2*WSIZE cells, and near the end of an input that ends without a slide it compares bytes up to 256 cells behind that array; the model gives the window these cells with unknown contents, shows that no more are needed, and counts results only up to the lookahead.
- Windows.SlidingWindow.FillWindow: the branch for a free size of -1, which the program needs only where an int has 16 bits, is not modelled; the free size is shown to be at least two.
- LzoOptimize.Optimize: the block must be one that the plain walk decodes, as the compressor's output is (`LzoWriter.BlockDecodes`), and at most 16 MB long; beyond that the 32-bit length of a run of zero bytes could wrap.
- LzoOptimize.Optimize: the counters of the rewrites are not modelled, and the output buffer is a growing sequence whose stated size is tested where the program tests it.
- Tail.TailLines: a text in the buffer above INT_MAX bytes overflows an int and counts as a failure, though the program may still cut it right; `Tail.ReadsFit` says exactly when that is. For bytes it can occur only for counts within BUFSIZ of INT_MAX.
- Tail.TailBytes: the last bytes of a file that can be positioned are copied from their place without the buffer; that branch is not modelled.
- Tail.SeekIsSound: a count above 32767 caps the seek distance; `Tail.SeekExact` then says when the result is still right.
- Packages.MakeHash: bytes of a key count as 0 to 255; the program's char may be signed for bytes above 127.
- Packages.SearchNameHashtable: a search in a full table that lacks the string would not end, so a free slot or the string itself is required, as for the other searches.
- Versions.VersionCompare: `atoi` is given its usual meaning, its result reduced to 32 bits; an out-of-range epoch is undefined in C.
- Expressions.Evaluator.EvalLevel: what a regular expression matches is a parameter; arithmetic wraps at 64 bits, where the program's signed overflow is undefined.
- Unaligned 16-bit and 32-bit stores, 16-bit bit buffers, debug checks and traces of gzip: variants of what is modelled.
- Input and output, option parsing, files and processes of all six applets: input is a list of reads with any outcome, output a sequence.
- The rest of dpkg (scripts, file removal, status files, dependency checks), lzop's file format and compressors, and tail's follow mode: loosely specified or made of system calls.
