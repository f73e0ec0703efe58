# The image codec, the UART bridge and the serial stream, verified

A Dafny model of the parts of this firmware whose correctness is a matter of algorithms, with proofs:

- the DEFLATE, zlib and PNG codec of `modules/lodepng/lodepng.c`, in the modified copy that is used here
  (a colour tree with 8 children, 1024 hash values),
- the UART bridge of `nrf52840/src/commCtrl/bridge/modules/uart_handler.c`: reference-counted receive blocks
  and a transmit ring that a thread and a callback share,
- the base 64 stream that `modules/bt/bt_module.c` sends over Bluetooth and
  `scripts/ble_getHeatmapRAW.py` puts together again.

`dafny verify dfyconfig.toml` checks everything. No proof obligation needs more than 2,000,000 resource units
(`--resource-limit 2000000 --verification-time-limit 0`).

## How it is laid out

Each part has a specification that is written without regard to the code, the code as methods over arrays and
objects, and lemmas that connect them.

| part | specification | code | main results |
|---|---|---|---|
| code lengths | `PackageMerge`, `OptimalLengths` | `NodePool`, `BoundaryPackageMerge`, `LeafSort`, `CodeLengths` | complete, optimal lengths; the garbage collector is safe and never runs out |
| Huffman trees | `Canonical`, `DecodeTable` | `HuffmanTree`, `BitStream` | the exact error condition; the two-level table refines prefix decoding |
| decoder | `DeflateFormat`, `StandardTables`, `StandardHeaders` | `InflateTrees`, `Inflate` | total, and right exactly when the stream has a meaning; the tables follow from rules |
| matcher | `Lz77` (`Expand`, `IsParse`), `HashChains` | `Lz77` | tokens expand to the input; the hash chains find what a search of the whole window finds; termination |
| encoder | `Encoding`, `RunLengths`, `ShortestCodes` | `HuffmanBlocks`, `DynamicTrees`, `Deflate` | inflate undoes deflate; dynamic blocks have the shortest codes |
| zlib | `Zlib` (`Decompressed`) | `Zlib` | decompression undoes compression; Adler-32 |
| scanlines | `Filters`, `FilteredImage`, `Adam7`, `Scanlines` | `Filters`, `Unfilter`, `FilteredImage`, `ImageBits`, `Interlace`, `Scanlines` | post-processing undoes pre-processing, in place |
| colours | `Pixels`, `ColorChoice` (`Shown`) | `ColorTree`, `Pixels`, `ColorChoice`, `ColorStats` | the chosen colour model is lossless and the best |
| image data | `Png` (`DataMean`) | `Png` | decoding undoes encoding, pixel by pixel |
| UART | state machines in `UartTx`, `UartRx` | the classes there | nothing lost or sent twice; counters and blocks |
| Bluetooth | `Base64` | `BleSerial` | the receiver gets exactly what was sent |

Bytes are integers below 256, and bit operations are functions on natural numbers (`Bits`). A pointer into the
node pool or the colour tree is the number of a node, and a pointer into an array is the array and an index. A
growable vector is a sequence; the decoder's output is an array that is reallocated (`Inflate.ByteVector`),
since its reserve matters. Loops and in-place updates are those of the code; parts of a long function are
methods of their own.

What is assumed: memory allocation succeeds; sums and products of sizes do not overflow. Where the width of a
number matters it is modelled: the bit writer's byte-sized position, the 32-bit buffer of the bit reader, both
sums of the checksum, 16-bit table values, and the 16-bit size of a notification.

## Model

| member | source | states |
|---|---|---|
| BitStream.BitWriter.WriteBit | modules/lodepng/lodepng.c:436-444 | Appends one bit to the stream of the bytes written, although the bit count is a byte that wraps around. |
| BitStream.BitWriter.WriteBits | modules/lodepng/lodepng.c:447-457 | Appends a field, lowest bit first. |
| BitStream.BitWriter.WriteBitsReversed | modules/lodepng/lodepng.c:460-466 | Appends a Huffman code, highest bit first. |
| BitStream.BitReader.EnsureBits9 | modules/lodepng/lodepng.c:503-515 | The buffer holds the next 9 bits of the stream, zeros past the end. |
| BitStream.BitReader.EnsureBits17 | modules/lodepng/lodepng.c:518-532 | The same for 17 bits. |
| BitStream.BitReader.EnsureBits25 | modules/lodepng/lodepng.c:535-550 | The same for 25 bits. |
| BitStream.BitReader.EnsureBits32 | modules/lodepng/lodepng.c:553-570 | The same for 32 bits, of which the last come from a fifth byte whose high bits the 32-bit buffer cuts off. |
| BitStream.BitReader.AdvanceBits | modules/lodepng/lodepng.c:579-582 | Moves on; what was ensured stays ensured less the bits passed. |
| BitStream.BitReader.ReadBits | modules/lodepng/lodepng.c:573-589 | Returns the field of the stream at the bit pointer and moves behind it. |
| BitStream.WindowAt | modules/lodepng/lodepng.c:480-589 | Bits that occur in the stream are what a reader sees there. |
| HuffmanTree.ReverseBits | modules/lodepng/lodepng.c:592-597 | Reverses the low bits of a number. |
| PackageMerge.EnoughItems | modules/lodepng/lodepng.c:960-960 | 2^maxbitlen >= numcodes gives the last list the 2n - 2 items that are read off. |
| OptimalLengths.LengthsComplete | modules/lodepng/lodepng.c:1012-1017 | For at least two leaves that fit, all lengths are 1..maxbitlen and Kraft's sum is exactly one. |
| OptimalLengths.LengthsOptimal | modules/lodepng/lodepng.c:1012-1017 | No other lengths within maxbitlen whose Kraft sum is at most one have a smaller total of weight times length. |
| NodePool.LiveCount | modules/lodepng/lodepng.c:991-992 | The chains of m lists reach at most m(m + 1) nodes (Room), half of the pool. |
| NodePool.MarkChain | modules/lodepng/lodepng.c:884-886 | Marks exactly the nodes of one chain and changes nothing else. |
| NodePool.Lists.constructor | modules/lodepng/lodepng.c:991-1010 | The first two nodes, the lists that start with them and the free list with the rest are a valid pool. |
| NodePool.Lists.Collect | modules/lodepng/lodepng.c:879-894 | The collection leaves all chains alone; the free list becomes exactly the unreachable nodes, at least half of the pool. |
| NodePool.Lists.Mark | modules/lodepng/lodepng.c:881-887 | All nodes that the chains of any list reach are in use. |
| NodePool.Lists.Sweep | modules/lodepng/lodepng.c:888-893 | The free list is the nodes that are not in use, each once. |
| NodePool.Lists.Create | modules/lodepng/lodepng.c:875-901 | The new node is free: it overwrites no live node and not its own tail; the pool stays valid. |
| BoundaryPackageMerge.BoundaryPM | modules/lodepng/lodepng.c:927-950 | One call extends list c by exactly its next item of package-merge, as leaf or package, and keeps all lists and the pool consistent. |
| BoundaryPackageMerge.ExtendPrevious | modules/lodepng/lodepng.c:943-948 | The two recursive calls bring the previous list two items further. |
| BoundaryPackageMerge.MergeLeaf | modules/lodepng/lodepng.c:930-941 | A leaf that is taken is the next item of the merge. |
| BoundaryPackageMerge.MergePackage | modules/lodepng/lodepng.c:936-942 | A package that is taken is the next item of the merge and stands for the chain of the previous list. |
| LeafSort.Sort | modules/lodepng/lodepng.c:903-924 | The bottom-up merge sort orders by weight, stably by symbol, and permutes the leaves. |
| LeafSort.MergeTwoOrdered | modules/lodepng/lodepng.c:914-918 | Merging two ordered runs orders them. |
| CodeLengths.HuffmanCodeLengths | modules/lodepng/lodepng.c:952-1028 | Error 80 exactly for no codes or too few bits; otherwise a complete prefix code for all symbols that occur, and the cheapest one of all codes of at most that many bits. |
| CodeLengths.ReadChain | modules/lodepng/lodepng.c:1015-1017 | Reading the chain off gives each leaf the number of lists that use it. |
| CodeLengths.PackageMergeCode | modules/lodepng/lodepng.c:986-1017 | Lengths by package-merge are a complete code and the cheapest, in terms of symbols and frequencies. |
| CodeLengths.SumByPermutation | modules/lodepng/lodepng.c:989-989 | Sorting the leaves changes no total. |
| Canonical.MatchUnique | modules/lodepng/lodepng.c:795-829 | Canonical codes are prefix-free when Kraft's sum is at most one. |
| Canonical.MatchExists | modules/lodepng/lodepng.c:795-829 | Every bit sequence starts with a code when the sum is exactly one. |
| Canonical.OnesUnmatched | modules/lodepng/lodepng.c:777-784 | When the sum is below one, no code is all ones. |
| Canonical.ZerosMatchedTwice | modules/lodepng/lodepng.c:720-759 | When the sum is above one, two codes collide on zeros, one of them in the head table, for at most 288 symbols. |
| Canonical.TrailingZeros | modules/lodepng/lodepng.c:1034-1034 | Symbols without a code at the end of the alphabet change no code: the trimmed and the full tree agree. |
| Canonical.CodeFits | modules/lodepng/lodepng.c:806-821 | Codes fit into their lengths when the sum is at most one. |
| HuffmanTree.MaskedCode | modules/lodepng/lodepng.c:806-821 | The uncleared count of absent symbols is cancelled by the mask: what is left are the low bits of the code of RFC 1951 section 3.2.2, which are all of it when Kraft's sum is at most one (Canonical.CodeFits). |
| HuffmanTree.RawIsShifted | modules/lodepng/lodepng.c:807-813 | The uncleared count adds a multiple of 2^b to the first code of b bits. |
| HuffmanTree.MakeCodes | modules/lodepng/lodepng.c:806-821 | The codes of the tree are the canonical ones. |
| HuffmanTree.ComputeMaxLengths | modules/lodepng/lodepng.c:682-692 | For each head entry, the length of the longest code that starts with it. |
| HuffmanTree.FillShort | modules/lodepng/lodepng.c:730-740 | A short code takes all head entries that it matches; error 55 only if the code conflicts with another. |
| HuffmanTree.FillLong | modules/lodepng/lodepng.c:741-758 | A long code takes the entries of its secondary table that it matches; the table is never too small for it. |
| HuffmanTree.Finish | modules/lodepng/lodepng.c:761-785 | Unused entries are an error unless fewer than two symbols have a code. |
| HuffmanTree.Tree.MakeTable | modules/lodepng/lodepng.c:675-788 | Error 0 exactly when fewer than two symbols have a code or Kraft's sum is one, else 55; then the two-level table is right for every 15 bits. |
| HuffmanTree.Tree.MakeFromLengths2 | modules/lodepng/lodepng.c:795-829 | Canonical codes and their table, with the same exact error condition. |
| HuffmanTree.Tree.MakeFromLengths | modules/lodepng/lodepng.c:836-845 | The same from a list of lengths. |
| HuffmanTree.Tree.MakeFromFrequencies | modules/lodepng/lodepng.c:1031-1043 | A valid, complete tree over the trimmed alphabet in which every symbol that occurs has a code, and the cheapest one. |
| HuffmanTree.Tree.DecodeSymbol | modules/lodepng/lodepng.c:1083-1096 | Table decoding refines prefix decoding: it returns the one symbol whose code comes next and consumes exactly its bits, through both tables, or reports that there is none. |
| HuffmanTree.GenerateFixedLitLenTree | modules/lodepng/lodepng.c:1047-1062 | The tree of RFC 1951 section 3.2.6 for literals and lengths. |
| HuffmanTree.GenerateFixedDistanceTree | modules/lodepng/lodepng.c:1065-1076 | The tree for distances. |
| DecodeTable.FullIsComplete | modules/lodepng/lodepng.c:777-785 | A table without unused entries means that the code is complete. |
| DecodeTable.OversubscribedFails | modules/lodepng/lodepng.c:720-759 | A table that was filled without a conflict has a Kraft sum of at most one, so that oversubscribed lengths always conflict. |
| DecodeTable.StartBound | modules/lodepng/lodepng.c:693-717 | The table has at most 33280 entries, so that 16 bits address it. |
| DecodeTable.TableFromFilled | modules/lodepng/lodepng.c:720-785 | A filled table finds the symbol of every 15 bits. |
| DeflateFormat.StoredBlockAgrees | modules/lodepng/lodepng.c:1366-1366 | The library and RFC 1951 read a stored block differently exactly when it is empty and ends the data. |
| DeflateFormat.StreamsAgree | modules/lodepng/lodepng.c:1366-1366 | On whole streams: the library's reading differs from the one by three rules of RFC 1951 (a stored block needs nothing behind it, at most 286 codes for literals and lengths, a distance code that is alone is one bit long) exactly when the latter ends with a last block that is stored, empty and ends the data, or the library reads past a header that these rules exclude. |
| DeflateFormat.EmptyStreamRefused | modules/lodepng/lodepng.c:1366-1366 | Such a stream, 01 00 00 FF FF: no bytes by the standard, an error in the library. |
| DeflateFormat.DecodeFromWindow | modules/lodepng/lodepng.c:1083-1096 | Decoding past the end with zeros finds the same symbol, or one that passes the end. |
| DeflateFormat.DecodeWritten | modules/lodepng/lodepng.c:460-466 | Where a code was written, its symbol is decoded. |
| DeflateFormat.AcceptableIsPrefixFree | modules/lodepng/lodepng.c:720-785 | Whatever the table construction accepts is prefix-free. |
| StandardHeaders.WideHeaderRead | modules/lodepng/lodepng.c:1130-1131 | A stream with 287 codes for literals and lengths that the library reads. |
| StandardHeaders.LoneDistanceRead | modules/lodepng/lodepng.c:761-776 | A stream whose one distance code is two bits long that the library reads. |
| InflateTrees.GetTreeInflateDynamic | modules/lodepng/lodepng.c:1114-1245 | Succeeds exactly when the dynamic header has a meaning (RFC 1951 section 3.2.7), and yields its two trees. |
| InflateTrees.ReadAll | modules/lodepng/lodepng.c:1165-1226 | The loop over code lengths with repeats reads what the standard says, also across the two alphabets. |
| InflateTrees.ReadOne | modules/lodepng/lodepng.c:1168-1225 | One symbol of it. |
| InflateTrees.FillLengths | modules/lodepng/lodepng.c:1185-1215 | A repeat that fits fills literal/length and distance lengths in turn; one that does not is an error. |
| InflateTrees.ReadCodeLengthLengths | modules/lodepng/lodepng.c:1147-1153 | The lengths of the code length code in their order, zero for those not sent. |
| StandardTables.LengthAtPlace | modules/lodepng/lodepng.c:634-1153 | The length of each symbol of the code length code is the field at its place in the order of RFC 1951, which is given by a formula; zero when there are not so many fields. |
| StandardTables.FieldAtPlace | modules/lodepng/lodepng.c:1999-1999 | The encoder sends it at that place. |
| StandardTables.HeaderLayout | modules/lodepng/lodepng.c:1125-1163 | The fields of a dynamic header: 5 bits from 257, 5 bits from 1, 4 bits from 4, then three bits each for the code length code, then the lengths of both alphabets in one row. |
| StandardTables.LengthRanges | modules/lodepng/lodepng.c:613-621 | The ranges of the length symbols follow each other from 3 to 258 without a gap; extra bits by rule; 258 has a symbol of its own. |
| StandardTables.DistanceRanges | modules/lodepng/lodepng.c:623-631 | The ranges of the distance symbols follow each other from 1 to 32768 without a gap; extra bits by rule. |
| StandardTables.RepeatsRead | modules/lodepng/lodepng.c:1172-1222 | Symbol 16 stands for the last length 3 to 6 times more, 17 for 3 to 10 zeros and 18 for 11 to 138. |
| StandardTables.FixedCodes | modules/lodepng/lodepng.c:1047-1063 | The fixed codes of literals and lengths as numbers: from 00110000, 110010000, 0000000 and 11000000. |
| StandardTables.FixedDistanceCodes | modules/lodepng/lodepng.c:1065-1075 | Fixed distance codes are the symbols themselves, in five bits. |
| StandardTables.CodesInOrder | modules/lodepng/lodepng.c:795-836 | Canonical codes: shorter ones first, those of one length in the order of their symbols. |
| StandardTables.CodesWithoutGaps | modules/lodepng/lodepng.c:795-836 | Codes of one length that follow each other are consecutive numbers. |
| StandardTables.BitOfStream | modules/lodepng/lodepng.c:436-457 | A stream has the bits of its bytes, lowest first. |
| StandardTables.BitOfField | modules/lodepng/lodepng.c:584-589 | A field has its lowest bit first. |
| StandardTables.BitOfCode | modules/lodepng/lodepng.c:459-465 | A code has its highest bit first. |
| StandardTables.KnownStream | modules/lodepng/lodepng.c:1388-1428 | The stream 4B 04 00 means the letter `a`. |
| Inflate.ByteVector.CopyMatch | modules/lodepng/lodepng.c:1314-1329 | memcpy and then reading two distances back equals the byte-at-a-time overlapping copy of RFC 1951 section 3.2.3. |
| Inflate.CopyPeriodic | modules/lodepng/lodepng.c:1320-1326 | A byte copied from one distance back equals the byte two distances back. |
| Inflate.ByteVector.Reserve | modules/lodepng/lodepng.c:280-291 | Growing keeps the contents. |
| Inflate.ReadMatch | modules/lodepng/lodepng.c:1284-1312 | Length and distance of a match as in the stream; error 16 or 18 exactly for no or an invalid distance symbol. |
| Inflate.InflateRound | modules/lodepng/lodepng.c:1265-1348 | One round, with the two-literal shortcut, does one or two steps of the meaning, reads less than 64 bits and writes less than the 260 bytes in reserve. |
| Inflate.InflateSymbol | modules/lodepng/lodepng.c:1277-1334 | What is done with one symbol is what it means. |
| Inflate.InflateCodes | modules/lodepng/lodepng.c:1265-1348 | The loop terminates on every stream and succeeds exactly when the symbols have a meaning that fits, which it writes. |
| Inflate.InflateHuffmanBlock | modules/lodepng/lodepng.c:1248-1354 | The same for a block with its trees. |
| Inflate.InflateNoCompression | modules/lodepng/lodepng.c:1356-1386 | A stored block is copied exactly when it has a meaning; an empty one that ends the data gives error 52. |
| Inflate.Inflatev | modules/lodepng/lodepng.c:1388-1412 | Total: on every byte string it terminates, succeeds exactly when the blocks have a meaning that fits, and writes it behind what the output held. |
| Lz77.SearchCodeIndex | modules/lodepng/lodepng.c:1453-1465 | The binary search finds the last entry that does not exceed the value. |
| Lz77.AddLengthDistance | modules/lodepng/lodepng.c:1467-1488 | The token stands for exactly this length and distance, with the last codes that do not pass them and extra bits that fit. |
| Lz77.GetHash | modules/lodepng/lodepng.c:1550-1567 | The shifted exclusive or of the three bytes, or of those before the end, cut to 10 bits; zero for zeros. |
| Lz77.CountZeros | modules/lodepng/lodepng.c:1569-1577 | The zero run at a position, capped at 258. |
| Lz77.Hash.constructor | modules/lodepng/lodepng.c:1513-1536 | No position has been entered. |
| Lz77.Hash.UpdateHashChain | modules/lodepng/lodepng.c:1580-1588 | The head of a hash becomes this position, and its link leads to the latest one before with the same hash; the same for the runs of zeros. A position that is entered again after its heads were forgotten changes no link. |
| Lz77.Hash.Enter | modules/lodepng/lodepng.c:1630-1639 | What is noted for a position is its hash and, for the hash zero, the exact run of zeros within the block, although it is counted on from the position before. |
| Lz77.Hash.MatchAt | modules/lodepng/lodepng.c:1657-1674 | A candidate from a circular chain gives its longest real match, also when zeros are skipped unread. |
| Lz77.Hash.LongestMatch | modules/lodepng/lodepng.c:1641-1695 | The match found, at most 258 long, is the first of the longest ones at all offsets tried, and no match in the window that starts in this block is longer, unless the search ended at a match as long as was asked for or at its limit of links; then none up to there is. Neither outdated links, nor the second chain, nor skipped zeros lose one. |
| HashChains.SlotBack | modules/lodepng/lodepng.c:1653-1653 | A slot that was entered names a position less than a window back. |
| HashChains.EnterNew | modules/lodepng/lodepng.c:1580-1588 | Entering keeps every head at the latest position with its key and every link in the window at the latest position before. |
| HashChains.EnterAgain | modules/lodepng/lodepng.c:1713-1715 | So does entering a position again. |
| HashChains.NextLink | modules/lodepng/lodepng.c:1650-1695 | From a position with the key the link leads to the next one with it, further back and with the key noted, or all others are outside of the window. |
| Lz77.SearchAt | modules/lodepng/lodepng.c:1627-1695 | Enters a position and searches there, with the limits of the settings. |
| Lz77.Emit | modules/lodepng/lodepng.c:1721-1742 | A pair for exactly the match if it is worth it (3 bytes at least, the least length that is set, not 3 bytes from further than 4096 back), which repeats the input, otherwise a literal; the covered positions are entered. |
| Lz77.PowerTest | modules/lodepng/lodepng.c:1622-1622 | The bit trick tests for powers of two. |
| Lz77.EncodeLZ77 | modules/lodepng/lodepng.c:1599-1746 | Error 60 or 90 exactly for illegal windows (81 and 86 never); the tokens expand the input before the block to the input up to its end, with lengths 3..258 and distances below the window size, and they are what the rounds of the search choose: a match is held back exactly as lazy matching says and given up exactly for one at the next position that is longer by two; the loop terminates although it steps back. |
| Lz77.CopyOfMatch | modules/lodepng/lodepng.c:1729-1729 | Copying a match continues the input. |
| Encoding.TokensDecoded | modules/lodepng/lodepng.c:1788-1810 | Decoding written tokens does what the tokens do. |
| Encoding.BlockDecoded | modules/lodepng/lodepng.c:1788-1810 | Written symbols and the end symbol decode to the block's output. |
| Encoding.FilledTokens | modules/lodepng/lodepng.c:1232-1234 | Tokens written with the trimmed trees are the same bits as with the decoder's full trees. |
| HuffmanBlocks.WriteLZ77Data | modules/lodepng/lodepng.c:1788-1810 | Writes the bits of all tokens. |
| HuffmanBlocks.DeflateFixed | modules/lodepng/lodepng.c:2035-2078 | Fails exactly for illegal windows; else a block of type 1 with the fixed codes for the tokens that are chosen, which inflates, wherever it stands, from the input before it to the input up to its end. |
| HuffmanBlocks.HuffmanBlock | modules/lodepng/lodepng.c:2010-2016 | The bits of a block of type 1 or 2 mean its tokens. |
| RunLengths.EncodeRuns | modules/lodepng/lodepng.c:1914-1948 | The run-length code expands to the two length arrays in a row, never needs more entries than it encodes, and never writes more than two zeros or three other equal lengths in a row singly. |
| RunLengths.EncodeRun | modules/lodepng/lodepng.c:1917-1947 | One run, or the part of it that is cheaper to repeat. |
| RunLengths.RunsDecoded | modules/lodepng/lodepng.c:1165-1226 | The decoder's loop expands the runs to the lengths again, across the boundary of the two alphabets. |
| RunLengths.CodeLengthsDecoded | modules/lodepng/lodepng.c:1962-1967 | Lengths trimmed off in the special order are zeros when they come back. |
| DynamicTrees.CountFrequencies | modules/lodepng/lodepng.c:1882-1892 | The frequencies are the numbers of tokens with each symbol, and one end symbol. |
| DynamicTrees.MakeTrees | modules/lodepng/lodepng.c:1894-1899 | Both trees are complete, have codes for all tokens and the end, and are the cheapest for their counts. |
| DynamicTrees.MakeLengthTree | modules/lodepng/lodepng.c:1950-1967 | The tree for code lengths is the cheapest of at most 7 bits for the run symbols; exactly the zero lengths at the end of the order are not sent, but at least four are. |
| DynamicTrees.HeaderDecoded | modules/lodepng/lodepng.c:1114-1245 | The decoder gets the encoder's trees, filled up to the whole alphabets, out of the header. |
| ShortestCodes.CheapestIsShortest | modules/lodepng/lodepng.c:1894-1899 | No other prefix codes of at most 15 bits encode the tokens of a block and its end in fewer bits. |
| ShortestCodes.CheapestLengthsAreShortest | modules/lodepng/lodepng.c:1950-1959 | No other prefix code of at most 7 bits encodes the run-length coded lengths in fewer bits. |
| Deflate.DeflateDynamic | modules/lodepng/lodepng.c:1813-2033 | As for fixed blocks: what it writes is a block of type 2 for the tokens that are chosen, with the shortest codes, and inflates as a block; errors 64 and 80 never occur. |
| Deflate.WriteHeader | modules/lodepng/lodepng.c:1988-2008 | Writes the header. |
| Deflate.DeflateNoCompression | modules/lodepng/lodepng.c:1750-1781 | The bytes appended inflate to the data, whatever follows, and are five more for every 65535 bytes begun; nothing is written for no data. |
| Deflate.StoredDecoded | modules/lodepng/lodepng.c:1356-1386 | A stored block between other bytes decodes to its bytes. |
| Deflate.BlocksCover | modules/lodepng/lodepng.c:2095-2108 | The blocks cover the input, and only the last ends at its end. |
| Deflate.Deflatev | modules/lodepng/lodepng.c:2080-2119 | Fails exactly for a type above 2 (61) or an illegal window; else what is appended inflates to the input, whatever follows it, and is the blocks of the type that is set, of the size by rule, filled up to a byte with zeros. |
| Deflate.NoBlocks | modules/lodepng/lodepng.c:1754-1756 | Nothing is no stream: storing no data is the one case that does not come back. |
| Deflate.RoundTrip | modules/lodepng/lodepng.c:1388-2119 | Inflating what was deflated gives the input, for every type, window, minimum and nice match, lazy or not, over many blocks; it fails exactly for stored empty data. |
| Zlib.UpdateAdler32 | modules/lodepng/lodepng.c:2149-2167 | The checksum with the modulo deferred up to 5552 bytes equals the one with a modulo for every byte. |
| Zlib.AdlerClosed | modules/lodepng/lodepng.c:2149-2167 | In closed form: the lower half is one and the sum of the bytes modulo 65521, the upper half the sum of all these sums on the way, in which a byte counts as often as there are bytes from it on. |
| Zlib.Adler32 | modules/lodepng/lodepng.c:2169-2172 | The checksum of data by these formulas. |
| Zlib.SumBlock | modules/lodepng/lodepng.c:2154-2163 | In 32-bit numbers that never overflow, up to 5552 steps of both sums without a modulo, which taken at the end gives the sums of the definition. |
| Zlib.Read32BitInt | modules/lodepng/lodepng.c:337-340 | Four bytes, highest first. |
| Zlib.Set32BitInt | modules/lodepng/lodepng.c:345-350 | The bytes of the number, highest first; read back they are the number. |
| Zlib.DecompressV | modules/lodepng/lodepng.c:2180-2219 | Succeeds exactly on a right header, a stream with a meaning that fits and, unless ignored, the right checksum; no byte is read outside the data. |
| Zlib.StreamLength | modules/lodepng/lodepng.c:2213-2213 | A stream with a meaning has two bytes at least, so that the checksum is inside the data. |
| Zlib.Compress | modules/lodepng/lodepng.c:2261-2296 | 78 01, the blocks, and the checksum, highest byte first; it decompresses to the input, except for stored empty data. |
| Zlib.CompressDecompress | modules/lodepng/lodepng.c:2180-2296 | Decompressing undoes compressing. |
| Filters.PaethPredictor | modules/lodepng/lodepng.c:4000-4007 | The library's short form is the predictor of section 9.4 of the PNG specification. |
| Filters.PaethIsClosest | modules/lodepng/lodepng.c:4000-4007 | It is the closest of the three neighbours to left + up - upleft, of equally close ones the first. |
| Filters.FilterTypes | modules/lodepng/lodepng.c:5438-5480 | What each of the five types makes of a byte, by its neighbours. |
| Filters.FilterScanline | modules/lodepng/lodepng.c:5438-5480 | The filtered line by type, and nothing else is written; nothing at all for an invalid type. |
| Filters.UnfilterUndoesFilter | modules/lodepng/lodepng.c:4127-4255 | Unfiltering undoes filtering for all types, any pixel width, with or without a line above. |
| Filters.FilterUndoesUnfilter | modules/lodepng/lodepng.c:5438-5480 | Filtering undoes unfiltering. |
| Unfilter.UnfilterScanline | modules/lodepng/lodepng.c:4127-4255 | In place or not, with loops unrolled by 4, 3 or 2, the result is the plain byte-by-byte definition; error 36 exactly for an invalid type. |
| Unfilter.UnfilterGroup | modules/lodepng/lodepng.c:4162-4190 | Reading all of a group before writing any of it is the same as one byte after the other. |
| Unfilter.UnfilterBelow | modules/lodepng/lodepng.c:4156-4240 | Average and Paeth for a line below another. |
| FilteredImage.RawSizeIsLines | modules/lodepng/lodepng.c:2818-2823 | The size without the overflow is the size by lines. |
| FilteredImage.UnfilterImage | modules/lodepng/lodepng.c:4257-4285 | A whole image, possibly onto itself; it fails exactly when a line has an invalid type, and nothing else is written. |
| FilteredImage.BestFilter | modules/lodepng/lodepng.c:5561-5592 | The first type with the smallest sum of absolute differences. |
| FilteredImage.SumAdds | modules/lodepng/lodepng.c:5574-5584 | Each byte counts for itself in the sum: as it is for type 0, otherwise by its distance from zero as a signed number, one less below zero. |
| FilteredImage.FilterImage | modules/lodepng/lodepng.c:5503-5695 | The type in front of each line is the one that the strategy chooses, for MinSum the first with the smallest sum on that line and the one above it; whatever types are chosen, unfiltering gives the image back, or fails if a type that was set is invalid. |
| FilteredImage.MeansLine | modules/lodepng/lodepng.c:5540-5548 | One more line filtered with any type. |
| ImageBits.SetBitOfReversedStream | modules/lodepng/lodepng.c:2465-2470 | Sets one bit, whatever it was, and changes no other. |
| ImageBits.ReadBitFromReversedStream | modules/lodepng/lodepng.c:2448-2452 | Reads one bit, highest of a byte first. |
| ImageBits.CopyBits | modules/lodepng/lodepng.c:4354-4356 | Bits are copied, also inside one buffer towards its start. |
| ImageBits.RemovePaddingBits | modules/lodepng/lodepng.c:4338-4360 | All lines without their padding, also inside one buffer; nothing outside of them changes. |
| ImageBits.AddPaddingBits | modules/lodepng/lodepng.c:5697-5714 | All lines, with zeros behind them. |
| Adam7.PassCovers | modules/lodepng/lodepng.c:4011-4014 | Every pixel is in a pass. |
| Adam7.PassUnique | modules/lodepng/lodepng.c:4011-4014 | No pixel is in two passes. |
| Adam7.PassPattern | modules/lodepng/lodepng.c:4011-4014 | The passes of a square of eight by eight pixels are those of the picture in section 8.2 of the PNG specification. |
| Adam7.PassPixels | modules/lodepng/lodepng.c:4037-4042 | Width and height of a pass count exactly its pixels in the image. |
| Adam7.StartsOrdered | modules/lodepng/lodepng.c:4044-4053 | The data of a pass starts no later without padding than with, and no later than with filter types. |
| Adam7.ExpectedSizeIsFilterStart | modules/lodepng/lodepng.c:4980-4991 | The decoder's closed-form size is the size of the seven passes. |
| Adam7.GetPassValues | modules/lodepng/lodepng.c:4031-4054 | Sizes and starts of all passes. |
| Interlace.ImageBitsApart | modules/lodepng/lodepng.c:4298-4336 | No two pixels of the passes share bits in the image. |
| Interlace.PassBitsApart | modules/lodepng/lodepng.c:5727-5764 | No two pixels share bits in the data of the passes. |
| Interlace.Adam7Interlace | modules/lodepng/lodepng.c:5727-5764 | Every pixel of the image is at its place in the passes, for depths below and from 8. |
| Interlace.Adam7Deinterlace | modules/lodepng/lodepng.c:4298-4336 | Every pixel of the passes is at its place in the image. |
| Scanlines.MeaningIsUnique | modules/lodepng/lodepng.c:4365-4406 | Scanlines mean one image only: every bit of it belongs to one line, or to one pixel of one pass. |
| Scanlines.PreProcessScanlines | modules/lodepng/lodepng.c:5768-5839 | The scanlines have the expected size, mean the image, and carry the filter types that the strategy chooses, in each pass from its first line on. |
| Scanlines.PostProcessScanlines | modules/lodepng/lodepng.c:4365-4406 | 31 for depth zero, 36 exactly for invalid filter types, else the image that the scanlines mean. |
| Scanlines.UnpackPass | modules/lodepng/lodepng.c:4390-4402 | In-place work on one pass touches nothing of the passes before and nothing unread of those to come. |
| Scanlines.UnpackPasses | modules/lodepng/lodepng.c:4390-4402 | After seven in-place passes all pixels are where the deinterlacer expects them. |
| Scanlines.ScanlinesRoundTrip | modules/lodepng/lodepng.c:4365-5839 | Post-processing undoes pre-processing on all w*h*bpp bits, for every size, depth, filter choice and both interlace methods. |
| ColorTree.Tree.constructor | modules/lodepng/lodepng.c:3129-3136 | An empty tree finds no colour. |
| ColorTree.Tree.Get | modules/lodepng/lodepng.c:3153-3165 | The index stored for a colour, -1 for none. |
| ColorTree.Tree.Add | modules/lodepng/lodepng.c:3176-3190 | The index is stored for the colour, whatever its alpha, and what is stored for other colours stays. |
| ColorTree.PathOfRgb | modules/lodepng/lodepng.c:3160-3160 | Two colours go one way through the tree exactly when they differ in alpha at most. |
| ColorTree.FillTree | modules/lodepng/lodepng.c:3588-3594 | The tree of a palette finds the last place of each colour. |
| ColorTree.PaletteLookup | modules/lodepng/lodepng.c:3153-3190 | Looking the colours of a palette up gives all of them back exactly when no two differ in alpha only. |
| ColorTree.AlphaIsLost | modules/lodepng/lodepng.c:3125-3125 | Two such colours: the first one comes back as the second. |
| Pixels.RawSizeHolds | modules/lodepng/lodepng.c:2802-2806 | The size without the overflow is the size in whole bytes, and holds all pixels. |
| Pixels.ReadBitsFromReversedStream | modules/lodepng/lodepng.c:2455-2463 | A field of bits, highest first. |
| Pixels.HighestBitFirst | modules/lodepng/lodepng.c:2448-2453 | Bits are counted from the highest of each byte on. |
| Pixels.GreyScale | modules/lodepng/lodepng.c:3294-3297 | Grey levels are spread evenly up to 255. |
| Pixels.RgbBytes | modules/lodepng/lodepng.c:3302-3305 | A pixel of 24 bits is its red, green and blue byte. |
| Pixels.GetPixelColorRGBA8 | modules/lodepng/lodepng.c:3280-3348 | The colour of a grey, palette or RGB pixel. |
| Pixels.AddColorBits | modules/lodepng/lodepng.c:3102-3110 | A pixel of less than a byte is put in its place, and no pixel before it changes. |
| ColorChoice.RequiredBitsSuffice | modules/lodepng/lodepng.c:3710-3715 | The highest d bits give a grey back exactly when it requires at most d. |
| ColorChoice.GreyNeeds | modules/lodepng/lodepng.c:3294-3297 | What a value of d bits is scaled to requires at most d bits, and its highest d bits are the value. |
| ColorChoice.Rgba8ToPixel | modules/lodepng/lodepng.c:3193-3244 | A pixel of the colour model's nearest colour; error 82 exactly for a colour that the palette lacks. |
| ColorChoice.GetPixelColorsRGB8 | modules/lodepng/lodepng.c:3450-3470 | Greys as pixels of three bytes. |
| ColorChoice.Convert | modules/lodepng/lodepng.c:3550-3622 | All pixels of a grey image are converted; error 82 exactly when the palette lacks one of them. |
| ColorStats.AllFound | modules/lodepng/lodepng.c:3733-3749 | When as many colours have been found as there are values, no pixel has another one, so that stopping there loses none. |
| ColorStats.Stats.ComputeColorStats | modules/lodepng/lodepng.c:3718-3899 | The fewest bits that all greys can do with, the number of colours, and each colour once, although counting stops early. |
| ColorStats.GreyLossless | modules/lodepng/lodepng.c:3710-3715 | Grey of m bits is lossless exactly when the counted bits are at most m. |
| ColorStats.PaletteLossless | modules/lodepng/lodepng.c:3960-3969 | A palette of all colours of the image is lossless. |
| ColorStats.AutoChooseColor | modules/lodepng/lodepng.c:3928-3991 | The chosen colour model shows every pixel as it is. It is a palette exactly if that is allowed, there are two pixels for each colour, and grey is not allowed or loses something at a depth that has a place for each colour; else grey if allowed, or RGB. It takes no more bits than any lossless grey if grey is allowed, nor than places for the colours if there are two pixels for each. |
| Png.ChooseAndConvert | modules/lodepng/lodepng.c:5910-5985 | The best colour model in this sense, for the colours of the image; choice and conversion keep the grey of every pixel, and never fail. |
| Png.EncodeImage | modules/lodepng/lodepng.c:5910-5985 | The compressed image data mean an image with the same greys in the best colour model, filtered as the strategy chooses; it fails exactly when deflating does. |
| Png.DecodeImage | modules/lodepng/lodepng.c:4974-5008 | Succeeds exactly when the data decompress to scanlines of the expected size with valid filter types, and writes the image that they mean. |
| Png.SamePixels | modules/lodepng/lodepng.c:4998-5006 | Images that the same scanlines mean have the same pixels. |
| Png.ImageRoundTrip | modules/lodepng/lodepng.c:4974-5985 | Decoding undoes encoding: every pixel of a grey image of 1, 2, 4 or 8 bits comes back with its grey and opaque, for every allowed colour model, both interlace methods, every filter choice and every compression setting. |
| UartTx.SafeStep | nrf52840/src/commCtrl/bridge/modules/uart_handler.c:182-364 | No step loses, doubles or reorders bytes, overflows the ring or starts a second transfer. |
| UartTx.PutTakesAll | nrf52840/src/commCtrl/bridge/modules/uart_handler.c:337-346 | The ring takes all of the data, or as much as makes it full. |
| UartTx.RunIsSafe | nrf52840/src/commCtrl/bridge/modules/uart_handler.c:182-364 | Over every run, also with failures and aborts, what was sent is a prefix of what was accepted. |
| UartTx.RunIsLive | nrf52840/src/commCtrl/bridge/modules/uart_handler.c:182-364 | Without failures, a nonempty ring always has a transfer under way, except between the put and the start; the flag says so exactly. |
| UartTx.StallsByRefusal | nrf52840/src/commCtrl/bridge/modules/uart_handler.c:182-190 | Runs come to a state with the flag set and nothing under way exactly when the driver refuses a transfer that the callback starts for bytes left in the ring. |
| UartTx.StallIsFinal | nrf52840/src/commCtrl/bridge/modules/uart_handler.c:182-190 | From there on nothing is ever sent again. |
| UartTx.StallIsPossible | nrf52840/src/commCtrl/bridge/modules/uart_handler.c:182-190 | A run of five events that stalls with a byte in the ring. |
| UartTx.EmptyTransferIsPossible | nrf52840/src/commCtrl/bridge/modules/uart_handler.c:343-350 | A run without failures in which the thread starts a transfer of no bytes. |
| UartTx.EmptyTransferExactly | nrf52840/src/commCtrl/bridge/modules/uart_handler.c:343-350 | Over all runs: right before the thread looks at the flag comes its put, the end of a transfer or an abort; the transfer that it then starts is not empty in the first case, empty in the second, and in the third empty if the abort left nothing. |
| UartTx.EmptyTransferWithoutFault | nrf52840/src/commCtrl/bridge/modules/uart_handler.c:343-350 | Without failures: the transfer is empty exactly when the callback ended one between the put and the flag. |
| UartTx.Channel.UartTxFinish | nrf52840/src/commCtrl/bridge/modules/uart_handler.c:327-335 | Releases what was sent from the front of the ring. |
| UartTx.Channel.UartTxStart | nrf52840/src/commCtrl/bridge/modules/uart_handler.c:306-326 | Starts a transfer of the claimed bytes, or releases the claim. |
| UartTx.Channel.TxDone | nrf52840/src/commCtrl/bridge/modules/uart_handler.c:182-190 | The callback step of the protocol. |
| UartTx.Channel.TxAborted | nrf52840/src/commCtrl/bridge/modules/uart_handler.c:191-194 | The abort step of the protocol. |
| UartTx.Channel.UartTxEnqueue | nrf52840/src/commCtrl/bridge/modules/uart_handler.c:337-364 | An enqueue that is not interrupted: what is accepted and returned, and the invariants. |
| UartRx.BlockFound | nrf52840/src/commCtrl/bridge/modules/uart_handler.c:85-96 | Rounding down finds the block of a pointer to any of its data. |
| UartRx.StepCounted | nrf52840/src/commCtrl/bridge/modules/uart_handler.c:98-173 | Every step keeps every counter at one for the driver plus the events that point into the block. |
| UartRx.RunCounted | nrf52840/src/commCtrl/bridge/modules/uart_handler.c:98-173 | In every reachable state the counters are right, and each block has come back as often as it was taken, less one while it is out. |
| UartRx.NoUseAfterFree | nrf52840/src/commCtrl/bridge/modules/uart_handler.c:125-173 | No undelivered event points into a block that is back in the slab or on its way. |
| UartRx.RunSubmits | nrf52840/src/commCtrl/bridge/modules/uart_handler.c:147-378 | Over every run, the events not yet delivered are submitted ones, each with the address and length that the driver reported, in the order of submission, and all others have been delivered. |
| UartRx.DeliveredInOrder | nrf52840/src/commCtrl/bridge/modules/uart_handler.c:147-378 | If the oldest event is delivered first, the events are delivered in the order of submission, and what is left is the rest. |
| UartRx.RunStaysInside | nrf52840/src/commCtrl/bridge/modules/uart_handler.c:98-155 | Over every run, the bytes of each event lie in the part for data of one block of the slab. |
| UartRx.Handler.BlockStartGet | nrf52840/src/commCtrl/bridge/modules/uart_handler.c:85-96 | The start of the block that a pointer is in. |
| UartRx.Handler.BufUnref | nrf52840/src/commCtrl/bridge/modules/uart_handler.c:125-136 | One reference less; the last one gives the block back. |
| UartRx.Handler.RxReady | nrf52840/src/commCtrl/bridge/modules/uart_handler.c:147-155 | The callback step for received data: one more user of the block, and an event with the address of byte `offset` of its data and the length. |
| UartRx.Handler.RxBufReleased | nrf52840/src/commCtrl/bridge/modules/uart_handler.c:156-160 | The callback step for a released block. |
| UartRx.Handler.RxBufRequest | nrf52840/src/commCtrl/bridge/modules/uart_handler.c:161-173 | The callback step for a wanted block, and switching reception on: the block is taken, or goes back if the driver refuses it, or there is none and nothing happens. |
| UartRx.Handler.DataEventDelivered | nrf52840/src/commCtrl/bridge/modules/uart_handler.c:370-378 | The step for a delivered event. |
| BleSerial.ExchangeFunc | modules/bt/bt_module.c:219-234 | The largest size of the form 4k + 1 that fits; below a negotiated size of 4 the count wraps around. |
| BleSerial.SerialSend | modules/bt/bt_module.c:632-674 | The notifications together are the RFC 4648 encoding of the whole message, none is empty or too long, all but the last one are full, and the loop ends. |
| BleSerial.EncodePiece | modules/bt/bt_module.c:648-656 | Each piece but the last is whole groups of three bytes whose encoding fills the notification, and every piece fits with the terminator. |
| Base64.Alphabet | modules/bt/bt_module.c:648-656 | The 64 characters, in order, and the padding. |
| Base64.GroupIsNumber | modules/bt/bt_module.c:648-656 | Three bytes as one number are its four digits to the base 64, highest first. |
| Base64.EncodeConcat | modules/bt/bt_module.c:648-656 | Whole groups can be encoded on their own. |
| Base64.PaddingAtEnd | modules/bt/bt_module.c:648-656 | Padding comes at the very end only. |
| Base64.DecodeEncode | scripts/ble_getHeatmapRAW.py:108-115 | Decoding undoes encoding. |
| BleSerial.Receiver.HandleRx | scripts/ble_getHeatmapRAW.py:108-115 | Notifications are collected up to one that ends with a zero byte. |
| BleSerial.SendHeatMaps | dataCollector/src/control.c:142-161 | The receiver passes on exactly the encodings of the heat maps, in order. |

## Findings

Properties that do not hold of the code, with the condition under which they fail:

- A stored block that is empty and ends the data is legal, but is refused with error 52, since a byte is
  required behind its header (`modules/lodepng/lodepng.c:1366`). `DeflateFormat.EmptyStreamRefused` is a stream
  of that kind.
- Headers that section 3.2.7 of RFC 1951 rules out are read: those with 287 or 288 codes for literals and
  lengths (`modules/lodepng/lodepng.c:1131`), and those with a single distance code that is longer than one bit
  (`modules/lodepng/lodepng.c:761`). `StandardHeaders.WideHeaderRead` and `StandardHeaders.LoneDistanceRead` are
  streams of these kinds. By `DeflateFormat.StreamsAgree` these three rules make a difference on no other streams;
  all other rules are the same for both readings in the model.
- `lodepng_huffman_code_lengths` writes outside of `lengths` if `numcodes` is 1
  (`modules/lodepng/lodepng.c:981` and `:984`); with any other number of codes it does what
  `CodeLengths.HuffmanCodeLengths` says. No caller in the file has fewer than two codes.
- Deflating no data with stored blocks writes no block at all, so that what is written is no stream and does
  not come back (`modules/lodepng/lodepng.c:1754`). By `Deflate.RoundTrip` and `Zlib.CompressDecompress` nothing
  else fails to come back.
- When the driver refuses the transfer that the callback starts for the rest of the ring, the flag stays set
  and the thread never starts another one (`nrf52840/src/commCtrl/bridge/modules/uart_handler.c:188`).
  `UartTx.StallIsPossible` is a run of that kind; by `UartTx.StallsByRefusal` runs stall in no other way.
- The thread may start a transfer of no bytes (`UartTx.EmptyTransferIsPossible`), exactly when the callback has
  ended a transfer between the put and the look at the flag, or aborted one with nothing left
  (`UartTx.EmptyTransferExactly`, `UartTx.EmptyTransferWithoutFault`).
- The colour tree has no level for alpha any more, so that of two palette colours that differ in alpha only the
  first is written as the second (`ColorTree.AlphaIsLost`). By `ColorTree.PaletteLookup` that is the only case.
- `uart_tx_enqueue` returns `-ENOMEM` for no data, although nothing was too much (`UartTx.Channel.UartTxEnqueue`).
- If the negotiated size were below 4, the size of a notification would wrap around to 65533, and for no other
  size (`BleSerial.ExchangeFunc`). Whether the stack can negotiate such a size is not part of this model.
- The comment on `predefined_filters` allows types up to 5, but the code has no filter for 5
  (`Unfilter.UnfilterScanline` gives error 36); the model follows the code.

## Left out

- CodeLengths.HuffmanCodeLengths: not for exactly one code, where the code writes outside of its array (see above).
- Deflate.Deflatev: not for no data with fixed blocks, where the number of blocks comes from a division by the size of the data.
- BleSerial.SerialSend: from a size of 5 on, as `exchange_func` leaves it for every negotiated size that can carry a group of base 64; before the exchange the size is 0, and with a size of 1 the loop makes no progress.
- UartTx.Channel.UartTxEnqueue: an enqueue that is not interrupted; interruptions are in the state machine, whose steps are those between which the callback may run.
- ColorStats.Stats.ComputeColorStats: for statistics that start empty and for grey images of up to 8 bits without a transparent colour, so that the branches for colour, alpha and 16 bits are not part of this model.
- ColorChoice.Convert: from grey images; to grey, RGB of 8 bits and palettes.
- ColorChoice.Rgba8ToPixel: for grey of up to 8 bits and palettes.
- ColorChoice.GetPixelColorsRGB8: from grey images of up to 8 bits.
- ColorStats.AutoChooseColor: for statistics without colour, alpha or a transparent colour, as those of grey images are.
- Pixels.GetPixelColorRGBA8: for grey of up to 8 bits, RGB of 8 bits and palettes, and indices inside of the palette; the code does not check them.
- Lz77.Hash.LongestMatch: that no longer match is missed is said of matches that start in the same block; matches from further back are tried too, but the last two positions of a block are entered with a hash of fewer bytes, so that some of them are missed.
- FilteredImage.FilterImage: without the strategies by entropy and by trial compression and the choice of zero filters for palettes; what they choose is any type, for which `FilteredImage.MeansLine` holds.
- Png.ChooseAndConvert: for grey images of up to 8 bits, without profile and background chunks.
- Png.EncodeImage: the image data only, for the images and strategies above.
- Png.ImageRoundTrip: the image data only, for the images and strategies above; chunks are left out.
- Allocation failures (errors 77 and 83) and the hooks for custom memory, zlib and inflate functions.
- Weights of leaves are unbounded in package-merge; the code adds them up in an `int`.
- The error numbers of a failing decoder, except where a row names them; success and failure are exact.
- Chunks, their checksums, the palette chunk, text, time, profile and background chunks, and disk functions.
- The background colour and the chunk that holds it in the choice of a colour model.
- The ring buffer, the memory slab, the UART driver and the event manager of the operating system; their answers are parameters. Power states, baud rates and subscriber counts of the UART.
- The encoder for base 64 of the operating system, which is specified by section 4 of RFC 4648 (`Base64.Encode`).
- Connection states and callbacks of the Bluetooth module; failing notifications are sent on without a retry.
- Waiting times, logging, and the firmware around these parts.
