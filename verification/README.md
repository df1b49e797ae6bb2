# Verified model of the DEFLATE codec, the ZIP name index and the .3dscan files

A Dafny model of the parts of the repository where a mistake corrupts data, and
proofs that they do what they are for:

- **The DEFLATE codec in `miniz.c`** (RFC 1951, with the zlib wrapper of RFC 1950).
  The compressor is modelled from the parser over its mirrored ring dictionary, the
  packed token buffer and the in-place Huffman construction to the three kinds of
  blocks, the two emitters and the resumable output; the decompressor as the
  coroutine it is, with every suspension point, its two-level decode tables and its
  unrolled copies. Between them stands a small reference machine, `Deflate`, that
  reads bits one symbol at a time.
- **The name index of a ZIP archive**: heap sort and binary search over case-folded
  names, against the linear scan.
- **The `.3dscan` path**: OBJ polygons as triangle fans, and the writer and reader
  of the offset-linked file, byte by byte.

The main results: for every input, all settings and any cutting of input and
output, what the compressor delivers inflates to the input (`RoundTrip`), and what
follows a full flush inflates on its own (`FreshStart`); the inflater gives the same
bytes of a stream however it is fed and drained, and gives up on a refused stream at
the same place (`Decompress`); and no assertion of the compressor can fail. In
particular a block always fits into the output buffer: limiting the code length costs
so little (`LimitCost`) that a dynamic block is never much larger than a static one, so
the fallback to a static block, which the source calls "extremely unlikely (if not
impossible)", is never taken. `BlockWriter.ChooseBody` keeps it, and proves that. The
search for matches finds the longest repetition in the dictionary, as far as its probe
count lets it look (`HashChains`).

## How it is built

| files | what they hold |
|---|---|
| `Bits`, `Canonical`, `Deflate`, `Blocks`, `Stream` | bit strings, canonical codes, the reference machine, tokens and blocks, and that the machine reads blocks back |
| `Standard` | the reference machine and the bits of blocks in the numbers of RFC 1950 and RFC 1951, free of the tables that both sides share |
| `RadixSort`, `MergeTree`, `OptimalCode`, `MinRedundancy`, `PrefixCodes` | sorting and minimum-redundancy lengths, and that nothing is better |
| `LengthLimit`, `LimitCost`, `UsedSymbols`, `TableCost`, `HuffmanTable` | limiting, what it costs, and tables from frequencies |
| `LzBuffer`, `BitWriter`, `Packing`, `HeaderWriter`, `Emitter`, `BlockSize`, `BlockWriter` | tokens to bits |
| `Dictionary`, `MatchSearch`, `HashChains` | the ring and its chains, the searches, and that they find the longest match |
| `FlushedStream`, `OutputBuffer`, `Parsing`, `Adler`, `Compressor` | bytes to tokens, and the whole compressor |
| `DecodeTable`, `WindowCopy`, `BitReader`, `InflateSteps`, `Inflater`, `Decompress` | the decompressor and its drivers |
| `RoundTrip`, `FreshStart` | both together |
| `ZipIndex` | the name index |
| `ScanRecords`, `ScanFile`, `ScanLayout`, `ScanLoader`, `ObjModel`, `ObjScan` | the `.3dscan` path |

The program's objects are classes (`Ring`, `LzBuffer`, `BitWriter`, `Output`,
`Compressor`, `Packer`, `Table`, `Reader`, `Inflater`); loops that work on arrays are
methods with the same loops. Shifts and masks are functions on naturals, defined bit
by bit. Both forms of code that is chosen when the program is compiled are there: the
flags `fast` and `words` select the 64-bit emitter and the word-wise searches and
copies.

Where code and comments differ the code is followed: a zlib header whose window is
too large is refused for a wrapping buffer only, 288 length codes and 32 distance codes
are accepted in a header, padding behind a raw stream is left unread, and a repetition
of bytes that start at a multiple of 65536 is never found.

## Model

| member | source | states |
|---|---|---|
| `RoundTrip.ThereAndBack` | `Source/ClientSide/3DModelViewer/miniz.c:2636-2690` | For every input, all settings (zlib or raw, forced static, forced raw, greedy or lazy, run-length matches, filter, any probe count, either form of the word-wise code) and any output room: compressing and then decompressing returns the input, and both terminate without a failing assertion. |
| `RoundTrip.CompressWhole` | `Source/ClientSide/3DModelViewer/miniz.c:2636-2690` | Asking for the end again and again with any nonzero room reaches DONE, and what was handed over is a finished stream for the input (with its Adler-32 if zlib). |
| `RoundTrip.CompressInPieces` | `Source/ClientSide/3DModelViewer/miniz.c:2636-2690` | A caller with input pieces, rooms and flushes of any kind: when DONE is reported, what it received inflates to exactly the bytes taken so far; no error is reported unless something else is asked for after the end. |
| `RoundTrip.ToOutput` | `Source/ClientSide/3DModelViewer/miniz.c:2726-2733` | One call with a callback always reports DONE, and what went to the callback is a finished stream for the input. |
| `RoundTrip.Delivered` | `Source/ClientSide/3DModelViewer/miniz.c:2615-2634` | When the compressor is finished and nothing is pending, the delivered bytes are the bits of valid blocks, only the last of them final, that stand for all the input. |
| `RoundTrip.DeliveredInflates` | `Source/ClientSide/3DModelViewer/miniz.c:2615-2634` | The reference inflater turns the delivered bytes of a finished compressor into the consumed input and, for zlib, its Adler-32. |
| `RoundTrip.SyncPoint` | `Source/ClientSide/3DModelViewer/miniz.c:2223-2225` | After a sync or full flush whose output was taken (which `Compress` promises to leave `Synced`), everything consumed can be inflated from what was delivered, whatever bytes follow, and the inflater then stands at a block header. |
| `FreshStart.FullFlushPoint` | `Source/ClientSide/3DModelViewer/miniz.c:2681-2687` | What was delivered behind a full flush, up to the end of the stream, inflates on its own, from nothing, to exactly the input behind it: no later match reaches in front of the flush. |
| `FreshStart.TailAlone` | `Source/ClientSide/3DModelViewer/miniz.c:2681-2687` | Blocks whose matches stay behind a point stand for the same bytes without the blocks in front of it. |
| `Decompress.InPieces` | `Source/ClientSide/3DModelViewer/miniz.c:1428-1698` | Slice invariance, for every stream that completes or is refused: with the input and the room of a flat buffer cut in any way the buffer always holds a prefix of the one result, all of it when DONE, a checksum mismatch or FAILED is reported; each of these is reported exactly for streams of its kind, the Adler-32 kept is that of the bytes made so far, nothing else is written, and enough nonempty cuts reach the end. |
| `Decompress.ToCallback` | `Source/ClientSide/3DModelViewer/miniz.c:1736-1762` | Through a wrapping window of 32768 bytes the callback receives exactly the result of the stream, or what comes before its fault; success is returned exactly if it completes and the checksum agrees. |
| `Decompress.ToMem` | `Source/ClientSide/3DModelViewer/miniz.c:1729-1734` | One call on a flat buffer succeeds exactly if the stream completes, its result fits and the checksum agrees, and then the buffer holds the result. |
| `Decompress.ToHeap` | `Source/ClientSide/3DModelViewer/miniz.c:1701-1727` | The growing buffer ends with exactly the result of the stream; failure exactly for a stream that is refused or whose checksum does not agree. |
| `Deflate.StepDescends` | `Source/ClientSide/3DModelViewer/miniz.c:1448-1675` | Every step of the reference machine takes bits or moves down a finite order, and only adds output: decoding terminates on every input. |
| `Deflate.RunExtends` | `Source/ClientSide/3DModelViewer/miniz.c:1448-1675` | Whatever has been produced at some point is a prefix of the final result. |
| `Deflate.CompletesIfValid` | `Source/ClientSide/3DModelViewer/miniz.c:1448-1675` | Whatever kind of buffers is used, a stream completes exactly if the reference machine runs through, with the same result. |
| `Canonical.PrefixFree` | `Source/ClientSide/3DModelViewer/miniz.c:1896-1903` | Canonical codes of a valid list of lengths are prefix-free: at most one symbol starts a bit string. |
| `Canonical.CompleteDecodes` | `Source/ClientSide/3DModelViewer/miniz.c:1413-1426` | With Kraft sum exactly one every 15 bits begin with the code word of exactly one symbol. |
| `Canonical.DecodeCode` | `Source/ClientSide/3DModelViewer/miniz.c:1896-1903` | Decoding the code word of a symbol, whatever follows, gives that symbol. |
| `Blocks.LengthTables` | `Source/ClientSide/3DModelViewer/miniz.c:1767-1781` | The encoder's length tables and the decoder's base and extra-bit tables name the same length. |
| `Blocks.DistTables` | `Source/ClientSide/3DModelViewer/miniz.c:1783-1815` | The encoder's small and large distance tables and the decoder's base and extra-bit tables name the same distance. |
| `Blocks.RunTokens` | `Source/ClientSide/3DModelViewer/miniz.c:1552-1668` | The machine reads the coded bits of any list of tokens back as the bytes they stand for. |
| `Stream.UnzigzagStored` | `Source/ClientSide/3DModelViewer/miniz.c:1986-1988` | The stored lengths of the code-length code, in swizzled order and cut off, give back all 19 lengths. |
| `Standard.ZigOrder` | `Source/ClientSide/3DModelViewer/miniz.c:1434` | The order of the code-length lengths is 16, 17, 18, 0, and then 8 and up alternating with 7 and down (section 3.2.7 of RFC 1951). |
| `Standard.StoredLengths` | `Source/ClientSide/3DModelViewer/miniz.c:1505` | Which of the 19 lengths every stored field sets, in numbers: field 3 sets length 0, field 19 - 2v length v up to 7, field 2v - 12 length v from 8 to 15, field v - 16 length v from 16 on; a length without a field is 0. |
| `Standard.FieldBit` | `Source/ClientSide/3DModelViewer/miniz.c:1906-1915` | Bit i of a field is bit i of its value: least significant first. |
| `Standard.WordBit` | `Source/ClientSide/3DModelViewer/miniz.c:1901` | Bit n - 1 - i of a code word is bit i of its number: most significant first. |
| `Standard.StreamBit` | `Source/ClientSide/3DModelViewer/miniz.c:1906-1915` | Bit 8k + i of a stream is bit i of its byte k. |
| `Standard.NextWord` | `Source/ClientSide/3DModelViewer/miniz.c:1896-1902` | Among words of one length the numbers count up by one in the order of the symbols. |
| `Standard.FirstWord` | `Source/ClientSide/3DModelViewer/miniz.c:1896-1902` | The first word of the shortest length in use is all zeros. |
| `Standard.NextLength` | `Source/ClientSide/3DModelViewer/miniz.c:1896-1902` | The first word of the next length in use is the last word before it plus one, with zeros behind it. |
| `Standard.FixedLitWord` | `Source/ClientSide/3DModelViewer/miniz.c:1998-2014` | The fixed literal code, symbol by symbol: 8 bits from 0x30, 9 bits from 0x190, 7 bits from 0, 8 bits from 0xC0. |
| `Standard.FixedDistWord` | `Source/ClientSide/3DModelViewer/miniz.c:1998-2014` | The fixed distance code: five bits, the symbol itself. |
| `Standard.LengthRow` | `Source/ClientSide/3DModelViewer/miniz.c:1430-1431` | Base and extra bits of every length symbol by formula: 3 + (4 + k mod 4) 2^(k / 4 - 1) from the ninth on, and 258 by itself. |
| `Standard.DistRow` | `Source/ClientSide/3DModelViewer/miniz.c:1432-1433` | Base and extra bits of every distance symbol by formula: 1 + (2 + k mod 2) 2^(k / 2 - 1) from the fifth on. |
| `Standard.ZlibHeader` | `Source/ClientSide/3DModelViewer/miniz.c:1451-1454` | Method 8, a window of at most 32 KB, a multiple of 31, no preset dictionary: with these the machine goes on to the blocks, and otherwise the run fails. |
| `Standard.BlockKinds` | `Source/ClientSide/3DModelViewer/miniz.c:1459-1496` | The first bit says whether the block is the last, the next two whether it is stored, fixed or dynamic; the fourth kind fails. |
| `Standard.StoredLength` | `Source/ClientSide/3DModelViewer/miniz.c:1462-1464` | A stored block has a 16-bit length and its complement; otherwise the run fails. |
| `Standard.DynamicCounts` | `Source/ClientSide/3DModelViewer/miniz.c:1504` | A dynamic header starts with 5, 5 and 4 bits: 257, 1 and 4 more than they say. |
| `Standard.CodeLengthCode` | `Source/ClientSide/3DModelViewer/miniz.c:1505-1518` | The three-bit fields, put in order, are the lengths of the packing code if that is a code, and otherwise the run fails. |
| `Standard.RepeatedLengths` | `Source/ClientSide/3DModelViewer/miniz.c:1537-1543` | Symbol 16 repeats the length before it 3 to 6 times (2 bits), 17 and 18 give 3 to 10 zeros (3 bits) and 11 to 138 (7 bits). |
| `Standard.LiteralSymbols` | `Source/ClientSide/3DModelViewer/miniz.c:1559-1611` | Symbols below 256 are bytes, 256 ends the block, 257 to 285 are lengths, and 286 and 287 are not valid. |
| `Standard.DistanceBits` | `Source/ClientSide/3DModelViewer/miniz.c:1612-1618` | A distance is its base and extra bits; one before the start of the output, or above 32768, is not valid. |
| `Standard.CopiedBytes` | `Source/ClientSide/3DModelViewer/miniz.c:1620-1667` | Every byte of a match equals the byte the distance before it, also where the match overlaps itself. |
| `Standard.TrailerBytes` | `Source/ClientSide/3DModelViewer/miniz.c:1671-1674` | The checksum is four bytes, most significant first. |
| `Standard.BadStreams` | `Source/ClientSide/3DModelViewer/miniz.c:1451-1550` | The streams the program reports as bad, with any buffer: a wrong zlib header, the fourth kind of block, a length without its complement, lengths that are no code, too many lengths, and a repetition with nothing before it. |
| `Standard.StoredStreamInflates` | `Source/ClientSide/3DModelViewer/miniz.c:2197-2221` | Byte for byte: 0x78, 0x01, 0x01, the length of any data below 65536 bytes and its complement, low bytes first, the data and any checksum, high byte first, inflate to the data and the checksum. |
| `Stream.RunHeader` | `Source/ClientSide/3DModelViewer/miniz.c:1504-1551` | The machine reads a dynamic header back as exactly the two lists of code lengths. |
| `Stream.RunBody` | `Source/ClientSide/3DModelViewer/miniz.c:1457-1670` | The machine reads any stored, fixed or dynamic block, at any bit position, back as its bytes. |
| `Stream.RunOpen` | `Source/ClientSide/3DModelViewer/miniz.c:1457-1670` | Any list of open blocks is read back and leaves the machine at the next block header. |
| `Stream.FinishedStreamInflates` | `Source/ClientSide/3DModelViewer/miniz.c:1448-1675` | The bits of any finished list of blocks, with or without the zlib wrapper, inflate to the bytes of the blocks and the stored checksum. |
| `Adler.AdlerConcat` | `Source/ClientSide/3DModelViewer/miniz.c:977-990` | Adler-32 composes over concatenation, and never leaves its range. |
| `Adler.AdlerClosed` | `Source/ClientSide/3DModelViewer/miniz.c:977-990` | The closed sums of section 8.2 of RFC 1950: one plus all bytes, and the length plus every byte times the number of bytes from it to the end, both modulo 65521. |
| `Adler.LargestPrime` | `Source/ClientSide/3DModelViewer/miniz.c:979-987` | The modulus is prime, and no prime lies between it and 65536. |
| `Adler.MostFits` | `Source/ClientSide/3DModelViewer/miniz.c:981-987` | The largest sums a block of 5552 bytes can reach stay below 2^32. |
| `Adler.Block` | `Source/ClientSide/3DModelViewer/miniz.c:981-987` | The unrolled sums of one block, in 32 bits without overflow, are congruent to the per-byte sums. |
| `Adler.Update` | `Source/ClientSide/3DModelViewer/miniz.c:977-990` | The blocked calculation equals the per-byte definition modulo 65521, for any starting value and any data. |
| `RadixSort.PassStable` | `Source/ClientSide/3DModelViewer/miniz.c:1824-1831` | One pass keeps the order of entries of equal frequency. |
| `RadixSort.ScatterPass` | `Source/ClientSide/3DModelViewer/miniz.c:1826-1830` | The scatter through the offset array is the concatenation of the buckets of the digit. |
| `RadixSort.BothDigits` | `Source/ClientSide/3DModelViewer/miniz.c:1824-1831` | A pass over the high digit after one over the low digit sorts by the whole 16-bit key. |
| `RadixSort.RadixSortSyms` | `Source/ClientSide/3DModelViewer/miniz.c:1819-1833` | The result is sorted by frequency, a permutation, and stable, also when the second pass is skipped. |
| `MergeTree.DepthBound` | `Source/ClientSide/3DModelViewer/miniz.c:1836-1854` | With a total below 2^16 no code is longer than 22 bits, by the Fibonacci numbers; so the index into num_codes[33] is in range. |
| `MergeTree.LeafShare` | `Source/ClientSide/3DModelViewer/miniz.c:1836-1854` | A leaf at depth d weighs at most its Fibonacci share of each of its ancestors. |
| `MinRedundancy.BuildTree` | `Source/ClientSide/3DModelViewer/miniz.c:1840-1845` | The first loop leaves the parents of a tree that always merges the two lightest, and no 16-bit sum wraps. |
| `MinRedundancy.Depths` | `Source/ClientSide/3DModelViewer/miniz.c:1846` | The second loop turns parents into depths, in place. |
| `MinRedundancy.LeafLengths` | `Source/ClientSide/3DModelViewer/miniz.c:1847-1853` | The third loop turns depths into lengths with Kraft sum one, falling with the frequency, of total cost the weight of all merges, each within the Fibonacci share of its symbol. |
| `MinRedundancy.MinimumRedundancy` | `Source/ClientSide/3DModelViewer/miniz.c:1836-1854` | The in-place pass on sorted weights: lengths with Kraft sum exactly one (two or more symbols), non-increasing in frequency, at most 22, of total cost the weight of all merges; one symbol gets one bit. |
| `OptimalCode.LightestDeepest` | `Source/ClientSide/3DModelViewer/miniz.c:1836-1854` | Exchange step: some code at least as cheap gives the two lightest symbols two longest words. |
| `OptimalCode.Optimal` | `Source/ClientSide/3DModelViewer/miniz.c:1836-1854` | At every stage of the merging no list of lengths with Kraft sum at most one is cheaper than the rest of the merges. |
| `MinRedundancy.CalculatedLengthsAreOptimal` | `Source/ClientSide/3DModelViewer/miniz.c:1836-1854` | The calculated lengths have the least total weighted length of all lists of lengths with Kraft sum at most one. |
| `PrefixCodes.Kraft` | `Source/ClientSide/3DModelViewer/miniz.c:1836-1854` | Every prefix-free set of words has Kraft sum at most one. |
| `PrefixCodes.BestPrefixCode` | `Source/ClientSide/3DModelViewer/miniz.c:1836-1854` | No prefix code at all costs less than the calculated lengths. |
| `LengthLimit.EnforceMaxCodeSize` | `Source/ClientSide/3DModelViewer/miniz.c:1858-1869` | Terminates for every complete code with at most 2^limit words; keeps the number of words, makes no count negative, ends with Kraft sum exactly one and nothing longer than the limit, and changes nothing that is within it. |
| `LengthLimit.RoundKeeps` | `Source/ClientSide/3DModelViewer/miniz.c:1865-1867` | One round keeps the number of words, leaves no count negative, and takes exactly one unit off the Kraft sum. |
| `LengthLimit.SomeShortWord` | `Source/ClientSide/3DModelViewer/miniz.c:1866` | While there are too many words some word is shorter than the limit, so the inner loop finds one. |
| `LengthLimit.RoundLengthens` | `Source/ClientSide/3DModelViewer/miniz.c:1863-1868` | On the words themselves a round lengthens the lightest word below the limit and shortens a heaviest one at it. |
| `LimitCost.LimitedCost` | `Source/ClientSide/3DModelViewer/miniz.c:1858-1869` | Limiting to 15 bits costs at most n/270 bits for each use of a symbol over the best unlimited code, n being the number of symbols. |
| `TableCost.TableNearlyOptimal` | `Source/ClientSide/3DModelViewer/miniz.c:1878-1894` | Symbol by symbol, whatever the sort did: no prefix code for the frequencies is cheaper than the table by more than that. |
| `HuffmanTable.CodeSizes` | `Source/ClientSide/3DModelViewer/miniz.c:1878-1894` | Sizes for exactly the used symbols, a complete code (or one bit for one symbol), within the limit, not rising with the frequency, and nearly optimal at 15 bits. |
| `HuffmanTable.ReverseBits` | `Source/ClientSide/3DModelViewer/miniz.c:1901` | The reversed code has the bits of the code word most significant first. |
| `HuffmanTable.AssignCodes` | `Source/ClientSide/3DModelViewer/miniz.c:1896-1903` | Every used symbol gets its canonical code word, first bit lowest. |
| `HuffmanTable.OptimizeTable` | `Source/ClientSide/3DModelViewer/miniz.c:1871-1904` | Frequencies to sizes and code words, with both properties. |
| `HuffmanTable.StaticTable` | `Source/ClientSide/3DModelViewer/miniz.c:1874-1877` | The code words of a table with given sizes. |
| `Packing.Packer.Put` | `Source/ClientSide/3DModelViewer/miniz.c:1917-1932` | Every packed symbol is counted as it is written, and the packed list stays decodable: a repetition never comes first. |
| `Packing.Packer.Code` | `Source/ClientSide/3DModelViewer/miniz.c:1954-1976` | One round of the packing loop: packed list and pending run together stand for exactly the lengths seen, in no more entries than there are lengths, and are their packing into runs: zeros up to 138, repetitions up to 6, in runs of three and more. |
| `Packing.Packer.Finish` | `Source/ClientSide/3DModelViewer/miniz.c:1977` | At the end the packed list decodes to exactly the lengths. |
| `HeaderWriter.PackSizes` | `Source/ClientSide/3DModelViewer/miniz.c:1949-1977` | The code lengths are packed into those runs, and decode back to the original sequence. |
| `HeaderWriter.PackedHasCodes` | `Source/ClientSide/3DModelViewer/miniz.c:1990-1995` | Every packing symbol that is written was counted and so has a code. |
| `HeaderWriter.WritePacked` | `Source/ClientSide/3DModelViewer/miniz.c:1990-1995` | The packed lengths are written as the bits of the packed list. |
| `HeaderWriter.WriteHeader` | `Source/ClientSide/3DModelViewer/miniz.c:1946-1995` | The bits of a valid header whose lengths are those of the tables without unused symbols at the end, packed into runs; none of its three lists could be shorter. |
| `HeaderWriter.StartDynamicBlock` | `Source/ClientSide/3DModelViewer/miniz.c:1936-1996` | Tables made from the frequencies (with one end-of-block), nearly optimal, and the bits of a header that stands for them. |
| `BitWriter.BitWriter.PutBits` | `Source/ClientSide/3DModelViewer/miniz.c:1906-1915` | Appends exactly the bits of the field to the stream; what no longer fits into the buffer is remembered as cut off, not written. |
| `BitWriter.BitWriter.PutSym` | `Source/ClientSide/3DModelViewer/miniz.c:1906-1915` | Appends the code word of a symbol. |
| `BitWriter.BitWriter.Rollback` | `Source/ClientSide/3DModelViewer/miniz.c:2196` | Setting cursor and register back restores the stream as it was at the mark. |
| `LzBuffer.LzBuffer.RecordLiteral` | `Source/ClientSide/3DModelViewer/miniz.c:2467-2473` | Appends one literal token: bytes, flag and frequency, none wrapping. |
| `LzBuffer.LzBuffer.RecordMatch` | `Source/ClientSide/3DModelViewer/miniz.c:2475-2495` | Appends one match token: bytes, flag and both frequencies, none wrapping. |
| `LzBuffer.OpenSnoc` | `Source/ClientSide/3DModelViewer/miniz.c:2467-2495` | The open flag cell and the bytes stand for the longer token list, at every position in a group of eight. |
| `LzBuffer.LzBuffer.Finish` | `Source/ClientSide/3DModelViewer/miniz.c:2177-2178` | Shifting the last flags down and dropping an empty group leaves a buffer that reads as exactly the recorded tokens. |
| `LzBuffer.BufferBounds` | `Source/ClientSide/3DModelViewer/miniz.c:2467-2495` | A buffer of 64 KB holds at most 58254 tokens. |
| `LzBuffer.CountRoom` | `Source/ClientSide/3DModelViewer/miniz.c:2472-2494` | So no 16-bit frequency wraps. |
| `BlockSize.BufferTotals` | `Source/ClientSide/3DModelViewer/miniz.c:1873-1887` | The frequencies of a block with its end-of-block sum to less than 2^16, as sort and tree need. |
| `BlockSize.StaticExpansion` | `Source/ClientSide/3DModelViewer/miniz.c:1998-2014` | At most 31 output bits for 25 bits of the token buffer with the fixed codes. |
| `BlockSize.StaticFits` | `Source/ClientSide/3DModelViewer/miniz.c:843-848` | Any buffer in the fixed codes, with everything before and behind it, stays below TDEFL_OUT_BUF_SIZE - 16. |
| `BlockSize.TokensLen` | `Source/ClientSide/3DModelViewer/miniz.c:2019-2106` | The length of the coded tokens is the sum over the symbols of frequency times code length, and the extra bits. |
| `BlockSize.NoWorseThanFixed` | `Source/ClientSide/3DModelViewer/miniz.c:1936-1944` | Tables made for a buffer code it nearly as well as the fixed codes, if not better. |
| `BlockSize.DynamicFits` | `Source/ClientSide/3DModelViewer/miniz.c:2208-2213` | Any buffer in codes made for it, with its header and everything before and behind it, stays below TDEFL_OUT_BUF_SIZE - 16 too. |
| `Emitter.FlagOf` | `Source/ClientSide/3DModelViewer/miniz.c:2030-2036` | The shifted flag register with its sentinel: its low bit says what the next token is, and the next bit is set in front of a new group, so the look-ahead never runs past it. |
| `Emitter.EmitPortable` | `Source/ClientSide/3DModelViewer/miniz.c:2108-2150` | The portable emitter writes exactly the coded bits of the tokens and the end of block, and reports success exactly if they fit. |
| `Emitter.FastTokens` | `Source/ClientSide/3DModelViewer/miniz.c:2031-2078` | One round of the 64-bit emitter codes one match or one to three literals; the register never holds more than 64 bits. |
| `Emitter.FastLoop` | `Source/ClientSide/3DModelViewer/miniz.c:2031-2087` | The 64-bit loop leaves the coded tokens in buffer and register, or gives up exactly when they do not fit. |
| `Emitter.EmitFast` | `Source/ClientSide/3DModelViewer/miniz.c:2019-2106` | The 64-bit emitter writes the same bits as the portable one whenever they fit, and reports success in the same cases. |
| `Emitter.EmitCodes` | `Source/ClientSide/3DModelViewer/miniz.c:2019-2150` | One contract for both forms: they agree. |
| `BlockWriter.CompressStatic` | `Source/ClientSide/3DModelViewer/miniz.c:1998-2014` | A static block: its bits if they fit, and success exactly then. |
| `BlockWriter.TruncatedBits` | `Source/ClientSide/3DModelViewer/miniz.c:1946-1947` | Cutting unused symbols off the header changes no code word. |
| `BlockWriter.CompressDynamic` | `Source/ClientSide/3DModelViewer/miniz.c:1936-1996` | A dynamic block for the tokens of the buffer, its bits, and short enough always to fit; its header is made for them: lengths for exactly the symbols that occur, nearly optimal for how often they do, trimmed and packed. |
| `BlockWriter.CompressBlock` | `Source/ClientSide/3DModelViewer/miniz.c:2153-2160` | Static or dynamic as asked for; the block for the tokens, and it fits. |
| `BlockWriter.PutStored` | `Source/ClientSide/3DModelViewer/miniz.c:2197-2206` | A stored block: type, padding, length and complement, and the bytes out of the wrapping dictionary. |
| `BlockWriter.ChooseBody` | `Source/ClientSide/3DModelViewer/miniz.c:2187-2213` | The bits of a valid block for the tokens, after any rollback, with room behind it: stored exactly if the data is still in the ring and that is asked for or coding does not save more than a byte, and otherwise static or dynamic as the settings and the 48 bytes say; the fallback to a static block, which the source calls extremely unlikely, is never taken. |
| `BlockWriter.PutChecksum` | `Source/ClientSide/3DModelViewer/miniz.c:2220` | The four shifts write the checksum most significant byte first. |
| `BlockWriter.WriteTail` | `Source/ClientSide/3DModelViewer/miniz.c:2215-2226` | Padding and checksum at the end, an empty stored block for a flush. |
| `BlockWriter.WriteBlock` | `Source/ClientSide/3DModelViewer/miniz.c:2177-2228` | All the bits of one flush, at any starting bit: header if first, final flag, block, tail; they always fit, so the assertion at the end holds; the kind of block is the one asked for, never the fallback. |
| `FlushedStream.FlushExtends` | `Source/ClientSide/3DModelViewer/miniz.c:2177-2226` | What a flush adds to the stream of the blocks so far is the stream of the longer list of blocks. |
| `FlushedStream.FlushedBlocks` | `Source/ClientSide/3DModelViewer/miniz.c:2185-2225` | The longer list is valid, stands for the bytes of the new block as well, and is closed exactly by the end. |
| `OutputBuffer.Output.BeginBlock` | `Source/ClientSide/3DModelViewer/miniz.c:2167-2175` | A block starts only when nothing is pending, and at the caller only if a whole block surely fits there. |
| `OutputBuffer.Output.EndBlock` | `Source/ClientSide/3DModelViewer/miniz.c:2235-2260` | A finished block goes to the callback, the caller's buffer or, as far as there is room, out of the internal one: every byte delivered or pending, once and in order; something stays pending only if the room is full. |
| `OutputBuffer.Output.FlushOutput` | `Source/ClientSide/3DModelViewer/miniz.c:2615-2634` | Pending bytes are handed over in order, exactly as many as there is room for, and exactly the rest stays pending. |
| `Dictionary.PutByte` | `Source/ClientSide/3DModelViewer/miniz.c:2516` | A byte stored in ring and mirror keeps the last 32768 bytes and their mirror in place. |
| `Dictionary.XorBit` | `Source/ClientSide/3DModelViewer/miniz.c:2513-2534` | The exclusive or of the hash, bit by bit. |
| `Dictionary.RollingHash` | `Source/ClientSide/3DModelViewer/miniz.c:2509-2518` | The rolling hash forgets all but the last two bytes: it is the hash of three bytes from scratch. |
| `Dictionary.Ring.Refill` | `Source/ClientSide/3DModelViewer/miniz.c:2506-2540` | Filling the lookahead, with rolling or first hashes, appends the input to the ring, enters exactly the positions whose three bytes are now known, in order, and lets the dictionary shrink by exactly what the ring overwrote. |
| `Dictionary.Ring.RefillRuns` | `Source/ClientSide/3DModelViewer/miniz.c:2344-2355` | The block copies of the fast parser append the input and shrink the dictionary in the same way. |
| `Dictionary.Ring.Forget` | `Source/ClientSide/3DModelViewer/miniz.c:2681-2687` | A full flush empties the dictionary and all chains. |
| `Dictionary.Ring.Advance` | `Source/ClientSide/3DModelViewer/miniz.c:2596-2599` | The lookahead moves into the dictionary, which stays within its bound. |
| `MatchSearch.RingCommon` | `Source/ClientSide/3DModelViewer/miniz.c:2318` | How many bytes agree in the mirrored ring, up to 258, is how many agree in the input, also across the wrap and into the lookahead itself. |
| `MatchSearch.CommonAgrees` | `Source/ClientSide/3DModelViewer/miniz.c:2318` | The count of equal bytes: so many agree, and no more. |
| `MatchSearch.SearchBest` | `Source/ClientSide/3DModelViewer/miniz.c:2299-2325` | From any point of the search on: at least one candidate a round is looked at, none of those has more bytes than the result, and the result is the first with so many, or what was known before. |
| `MatchSearch.FindMatchIsBest` | `Source/ClientSide/3DModelViewer/miniz.c:2299-2325` | For any chains: unless the whole lookahead is matched or the chain ends, at least all but one of the places the probe count allows are looked at; none agrees for more bytes than is reported; a longer match than before is reported at the first place that agrees for so many, and otherwise nothing. |
| `MatchSearch.FindMatchFound` | `Source/ClientSide/3DModelViewer/miniz.c:2299-2325` | What is reported can be recorded: equal bytes, within the lookahead, the dictionary and the last full flush. |
| `MatchSearch.FindMatchBytes` | `Source/ClientSide/3DModelViewer/miniz.c:2299-2325` | The byte-wise search over the ring gives exactly the result of that search over the input. |
| `MatchSearch.FindMatchWords` | `Source/ClientSide/3DModelViewer/miniz.c:2265-2297` | The word-wise search gives exactly the same result. |
| `HashChains.HeadIsLatest` | `Source/ClientSide/3DModelViewer/miniz.c:2518-2534` | Every chain begins at the latest position with its hash. |
| `HashChains.LinkIsEarlier` | `Source/ClientSide/3DModelViewer/miniz.c:2518-2534` | And leads from every position still in the ring to the latest one before it with the same hash. |
| `HashChains.ChainReaches` | `Source/ClientSide/3DModelViewer/miniz.c:2308-2316` | Every earlier position in reach with the same hash is a candidate, and those before it are the ones in between, unless one is a multiple of 65536, where a link counts as none. |
| `HashChains.LongestFound` | `Source/ClientSide/3DModelViewer/miniz.c:2265-2325` | The search finds the longest repetition in the dictionary and the nearest of that length, among all places with fewer places of the same hash in between than it may look at and no multiple of 65536 there. |
| `HashChains.NeverFound` | `Source/ClientSide/3DModelViewer/miniz.c:2313` | A place at a multiple of 65536, the first byte of the input among them, is never found, since its link is 0. |
| `HashChains.RingChains` | `Source/ClientSide/3DModelViewer/miniz.c:2506-2540` | The ring of the parser has such chains at any time. |
| `MatchSearch.CountRun` | `Source/ClientSide/3DModelViewer/miniz.c:2548-2553` | The run-length search counts exactly how often the last byte comes again. |
| `MatchSearch.FastProbe` | `Source/ClientSide/3DModelViewer/miniz.c:2358-2378` | The single probe of the fast parser: the place under the hash of the next three bytes, which becomes this one; as many bytes as agree, up to 258, if they are four, or three less than 8192 back, and otherwise a literal. |
| `MatchSearch.FastLengthRepeats` | `Source/ClientSide/3DModelViewer/miniz.c:2373-2392` | What it takes can be recorded. |
| `Parsing.CopyRepeats` | `Source/ClientSide/3DModelViewer/miniz.c:2475-2495` | Copying a recorded repetition byte by byte reproduces the input. |
| `Parsing.ParsedMatch` | `Source/ClientSide/3DModelViewer/miniz.c:2475-2495` | A recorded match extends what the tokens stand for by exactly the bytes it covers. |
| `Parsing.ParsedLiteral` | `Source/ClientSide/3DModelViewer/miniz.c:2467-2473` | So does a recorded literal, by its byte. |
| `Parsing.RawIsReady` | `Source/ClientSide/3DModelViewer/miniz.c:2193-2205` | The test for a stored block means that the ring still holds all bytes of the block. |
| `Compressor.Compressor.SearchMatch` | `Source/ClientSide/3DModelViewer/miniz.c:2545-2562` | The search that the flags ask for, by bytes or by words with the same result, without what is too far, too short for the filter, or at a distance equal to the place in the ring; nothing, or a match within the lookahead and 32768 bytes. |
| `Compressor.Compressor.Decide` | `Source/ClientSide/3DModelViewer/miniz.c:2563-2594` | Lazy or greedy: which tokens are recorded, which match waits and how far the lookahead moves; recorded tokens and the waiting one cover exactly the input that the move passes. |
| `Compressor.Compressor.ParseOne` | `Source/ClientSide/3DModelViewer/miniz.c:2544-2599` | One round is that choice for what the search finds; it keeps the whole invariant of the compressor and of the chains, and shortens the lookahead. |
| `Compressor.Compressor.CompressNormal` | `Source/ClientSide/3DModelViewer/miniz.c:2497-2613` | The parser keeps the invariant for any input; it stops early only with output pending, otherwise all input is taken. |
| `Compressor.Compressor.ParseFast` | `Source/ClientSide/3DModelViewer/miniz.c:2358-2440` | One round of the fast parser records exactly the match or literal of its one probe. |
| `Compressor.Compressor.CompressFast` | `Source/ClientSide/3DModelViewer/miniz.c:2329-2464` | The fast parser keeps the same contract. |
| `Compressor.Compressor.CanStore` | `Source/ClientSide/3DModelViewer/miniz.c:2167` | The test for a stored block holds exactly if the bytes of the block and the one of a waiting match are all in the dictionary. |
| `Compressor.Compressor.FlushBlock` | `Source/ClientSide/3DModelViewer/miniz.c:2162-2261` | One more block, the one that the settings and the tokens ask for: written and remembered agree, the token buffer is empty, and both assertions hold. |
| `Compressor.Compressor.ParseRound` | `Source/ClientSide/3DModelViewer/miniz.c:2600-2608` | After a round of the parser a block is cut exactly if the token buffer is full, or the block is longer than 31 KB and is forced raw or its tokens take 128/115 of its bytes or more. |
| `Compressor.Compressor.FlushAll` | `Source/ClientSide/3DModelViewer/miniz.c:2681-2687` | The flush at the end of a call; after the last block nothing is left over. |
| `Compressor.Compressor.Consume` | `Source/ClientSide/3DModelViewer/miniz.c:2663-2679` | Parsing and the running Adler-32 stay together. |
| `Compressor.Compressor.Compress` | `Source/ClientSide/3DModelViewer/miniz.c:2636-2690` | One call: exact cases of the parameter error; DONE exactly if finished with nothing pending; the output made is what was delivered by it; with a callback everything is consumed; a call that asks for the end leaves less work; after a sync or full flush nothing consumed is unwritten, and after a full flush the dictionary is given up. |
| `Compressor.NewCompressor` | `Source/ClientSide/3DModelViewer/miniz.c:2697-2714` | tdefl_init establishes the invariant, whatever the flags; a probe count p below 4096 becomes 1 + (p + 2) / 3 rounds, and a quarter of it, made rounds in the same way, holds from a match of 32 bytes on. |
| `BitReader.Reader.Get` | `Source/ClientSide/3DModelViewer/miniz.c:1388` | Takes the next n bits of the stream, across any refill; or stops exactly when the piece is used up and the stream goes on. |
| `BitReader.Reader.SkipToByte` | `Source/ClientSide/3DModelViewer/miniz.c:1387` | Drops the bits to the next byte boundary of the stream. |
| `BitReader.FillHuff` | `Source/ClientSide/3DModelViewer/miniz.c:1394-1407` | The byte-wise fill of the Huffman macro stops with enough bits for the next symbol, or with the piece used up. |
| `BitReader.HuffDecode` | `Source/ClientSide/3DModelViewer/miniz.c:1413-1426` | Decodes the next symbol of the stream with any number of bits in the register. |
| `BitReader.Fill32` | `Source/ClientSide/3DModelViewer/miniz.c:1569` | The four-byte refill of the fast path appends exactly those bytes. |
| `BitReader.FastDecode` | `Source/ClientSide/3DModelViewer/miniz.c:1573-1579` | The unchecked decode of the fast path gives the same symbol. |
| `DecodeTable.NodeBound` | `Source/ClientSide/3DModelViewer/miniz.c:1519-1532` | The inner nodes of a complete code are no more than its symbols, so the tree of 2 x 288 slots is never exceeded. |
| `DecodeTable.AddLeaf` | `Source/ClientSide/3DModelViewer/miniz.c:1524-1531` | Entering a long code word keeps every other word readable; an empty slot (0) is never taken for an entry. |
| `DecodeTable.CheckIsValid` | `Source/ClientSide/3DModelViewer/miniz.c:1512-1518` | The test of the counts accepts exactly the complete codes and those with at most one symbol, of whatever length. |
| `DecodeTable.Table.Build` | `Source/ClientSide/3DModelViewer/miniz.c:1508-1532` | Lookup and tree for every accepted list of lengths decode exactly the canonical codes. |
| `DecodeTable.Table.Decode` | `Source/ClientSide/3DModelViewer/miniz.c:1413-1426` | From any bit buffer the table gives the unique symbol whose reversed code word is its prefix, and its length. |
| `DecodeTable.Table.Peek` | `Source/ClientSide/3DModelViewer/miniz.c:1394-1407` | The fill test says exactly whether the bits at hand suffice for the next symbol. |
| `WindowCopy.MaskIsBack` | `Source/ClientSide/3DModelViewer/miniz.c:1620` | The masked source index is the position that many bytes back, in flat and wrapping buffers. |
| `WindowCopy.CopyWords` | `Source/ClientSide/3DModelViewer/miniz.c:1632-1652` | The copy by eight bytes, when the distance is no less than the length, is the byte-by-byte copy. |
| `WindowCopy.CopyTriples` | `Source/ClientSide/3DModelViewer/miniz.c:1654-1667` | The unrolled copy by three bytes is the byte-by-byte copy, overlap included. |
| `WindowCopy.CopyMatch` | `Source/ClientSide/3DModelViewer/miniz.c:1620-1667` | All unrolled copies together leave the same bytes and cursor as the byte-by-byte overlapping copy, for every length 3 to 258 and every distance, and touch nothing else. |
| `WindowCopy.WrapAround` | `Source/ClientSide/3DModelViewer/miniz.c:1757` | A full window still shows the output when the cursor goes back to its start. |
| `InflateSteps.MoreOutput` | `Source/ClientSide/3DModelViewer/miniz.c:1468-1626` | Where the inflater waits for room the stream really has more output. |
| `Inflater.Inflater.StepBlockStart` | `Source/ClientSide/3DModelViewer/miniz.c:1457-1506` | Reads a block header or suspends with everything kept. |
| `Inflater.Inflater.StepRawData` | `Source/ClientSide/3DModelViewer/miniz.c:1465-1488` | Copies stored bytes from register and input, suspending at either end. |
| `Inflater.Inflater.StepLengths` | `Source/ClientSide/3DModelViewer/miniz.c:1533-1550` | Reads packed code lengths of both tables, suspending between and within them. |
| `Inflater.Inflater.FastPair` | `Source/ClientSide/3DModelViewer/miniz.c:1565-1603` | With four bytes of input and room for two, two symbols without checks are two steps of the machine. |
| `Inflater.Inflater.StepLiterals` | `Source/ClientSide/3DModelViewer/miniz.c:1555-1605` | The literal loop, checked or fast: only steps of the machine, and a suspension keeps the place. |
| `Inflater.Inflater.StepDistanceBits` | `Source/ClientSide/3DModelViewer/miniz.c:1612-1667` | Distance, and the whole match at once if it fits, otherwise byte by byte. |
| `Inflater.Inflater.StepCopyRoom` | `Source/ClientSide/3DModelViewer/miniz.c:1622-1630` | The byte-wise copy through the mask, suspended at any byte, also across calls in a wrapping window. |
| `Inflater.Inflater.StepChecksum` | `Source/ClientSide/3DModelViewer/miniz.c:1671-1674` | The trailer, byte by byte. |
| `Inflater.Inflater.Step` | `Source/ClientSide/3DModelViewer/miniz.c:1446-1676` | Every state: the next steps of the machine, or a suspension that is not premature, keeping exactly what is needed to go on. |
| `Inflater.Inflater.RunOn` | `Source/ClientSide/3DModelViewer/miniz.c:1446-1679` | A call ends: the loop always moves on or suspends. |
| `Inflater.Inflater.HeaderTest` | `Source/ClientSide/3DModelViewer/miniz.c:1451-1454` | The test of the zlib header fails exactly for the headers that the machine refuses, with the window compared to a wrapping buffer only. |
| `Inflater.TakeDistance` | `Source/ClientSide/3DModelViewer/miniz.c:1612-1618` | A distance beyond the start of a flat output is the only one refused; any other leads on to the copied bytes. |
| `Inflater.Inflater.Decompress` | `Source/ClientSide/3DModelViewer/miniz.c:1428-1698` | One call on any next piece of a stream that completes or is refused, with any room: bytes made are the next ones of the one result; more input is asked for only when the piece is used up and the stream goes on, more room only when it is used up and output remains; DONE only with the whole result, FAILED only at the fault of a refused stream with everything in front of it made; and the Adler-32 kept is that of all output. |
| `ZipIndex.FoldSame` | `Source/ClientSide/3DModelViewer/miniz.c:2947` | Folded names are equal exactly if the names have the same length and any two bytes are equal or an ASCII letter in its two cases. |
| `ZipIndex.FilenameLess` | `Source/ClientSide/3DModelViewer/miniz.c:3107-3122` | The comparison is the lexicographic order of the names, letters compared as lower case and a prefix first. |
| `ZipIndex.OrderMeans` | `Source/ClientSide/3DModelViewer/miniz.c:3107-3122` | In that order one name is before another exactly if it is before it at the first byte that differs by more than the case, or is a shorter beginning of it. |
| `ZipIndex.RankOrders` | `Source/ClientSide/3DModelViewer/miniz.c:3107-3122` | That order ranks the files by numbers. |
| `ZipIndex.SiftDown` | `Source/ClientSide/3DModelViewer/miniz.c:3138-3146` | A sift-down makes a heap of two heaps below an entry, permuting only below the end. |
| `ZipIndex.Sort` | `Source/ClientSide/3DModelViewer/miniz.c:3127-3166` | The heap sort terminates with a sorted permutation. |
| `ZipIndex.MakeIndex` | `Source/ClientSide/3DModelViewer/miniz.c:3244-3246` | The index holds every file exactly once, in the order of the names. |
| `ZipIndex.FilenameCompare` | `Source/ClientSide/3DModelViewer/miniz.c:3460-3474` | Zero exactly for names that differ in the case of letters at most; the sign is the order for names a ZIP archive can hold. |
| `ZipIndex.BinarySearch` | `Source/ClientSide/3DModelViewer/miniz.c:3476-3496` | Terminates with -1 exactly if no file has the name, up to the case of letters, and otherwise with one that has it. |
| `ZipIndex.LinearScan` | `Source/ClientSide/3DModelViewer/miniz.c:3505-3535` | The scan with any flags and no comment returns the first file that matches, or -1. |
| `ZipIndex.LocateFile` | `Source/ClientSide/3DModelViewer/miniz.c:3498-3536` | With either search: -1 exactly if no file matches, byte for byte or up to the case of letters as the flags say, otherwise one that does, for all queries below 4 GB. |
| `ZipIndex.Agreement` | `Source/ClientSide/3DModelViewer/miniz.c:3483-3506` | The search and the default scan agree exactly if the query is shorter than 2^32 bytes or its length modulo 2^32 names no file. |
| `ZipIndex.LongQuery` | `Source/ClientSide/3DModelViewer/miniz.c:3483-3506` | They do not agree for a query of 2^32 bytes and a file without a name. |
| `ScanRecords.PartBack` | `Source/ClientSide/Common/3DScanFmt.h:55-60` | A part header comes back from its bytes. |
| `ScanRecords.SubBack` | `Source/ClientSide/Common/3DScanFmt.h:93-104` | A subset header comes back from its bytes. |
| `ScanRecords.MaterialBack` | `Source/ClientSide/Common/3DScanFmt.h:62-79` | A material record comes back from its bytes. |
| `ScanRecords.TexBack` | `Source/ClientSide/Common/3DScanFmt.h:81-91` | A texture header comes back from its bytes. |
| `ScanRecords.FileBack` | `Source/ClientSide/Common/3DScanFmt.h:44-53` | The file header comes back from its bytes. |
| `ScanRecords.FieldBack` | `Source/ClientSide/Common/C3DScanFile.cpp:258` | A name of less than 32 bytes comes back from its field. |
| `ScanLayout.FileLayout` | `Source/ClientSide/Common/3DScanFmt.h:44-53` | Every field of the file header at its byte, low byte first. |
| `ScanLayout.PartLayout` | `Source/ClientSide/Common/3DScanFmt.h:55-60` | Every field of a part header at its byte. |
| `ScanLayout.SubsetLayout` | `Source/ClientSide/Common/3DScanFmt.h:93-104` | Every field of a subset header at its byte. |
| `ScanLayout.MaterialLayout` | `Source/ClientSide/Common/3DScanFmt.h:62-79` | Every field of a material record at its byte. |
| `ScanLayout.TextureLayout` | `Source/ClientSide/Common/3DScanFmt.h:81-91` | Every field of a texture header at its byte. |
| `ScanLayout.HeaderOfSaved` | `Source/ClientSide/Common/C3DScanFile.cpp:321` | The header of a saved file, byte for byte; bytes 21 to 24 hold the triangles of all subsets of all parts, modulo 2^32. |
| `ScanFile.PackedMeans` | `Source/ClientSide/Common/C3DScanFile.cpp:291` | Buffers below 256 MB are compressed, and marked so, exactly if that takes less than four fifths of them (rounded down), unless compression is off. |
| `ScanFile.SavePart` | `Source/ClientSide/Common/C3DScanFile.cpp:253-331` | Header, subsets and the header again with its link: what was written before stays, every record stands where the links say, and the triangles of the part are counted. |
| `ScanFile.SaveSubsets` | `Source/ClientSide/Common/C3DScanFile.cpp:267-322` | Subsets one behind the other, compressed where that pays, linked in order; the result is the sum of their triangles. |
| `ScanFile.SaveMaterials` | `Source/ClientSide/Common/C3DScanFile.cpp:339-371` | Material records in order, linked. |
| `ScanFile.SaveTextures` | `Source/ClientSide/Common/C3DScanFile.cpp:378-431` | Texture records in order, compressed where that pays, linked. |
| `ScanFile.Save` | `Source/ClientSide/Common/C3DScanFile.cpp:230-438` | The whole file: every record stands where the links lead, and the patched header leads to the first of each kind and holds the sum of all triangles. |
| `ScanFile.LinksIncrease` | `Source/ClientSide/Common/C3DScanFile.cpp:252-332` | Parts and their subsets stand in the order of the file: every link leads forward. |
| `ScanLoader.LoadSubsets` | `Source/ClientSide/Common/C3DScanFile.cpp:71-143` | The loop follows the links of the subsets, terminates, and extends the box by every vertex. |
| `ScanLoader.Load` | `Source/ClientSide/Common/C3DScanFile.cpp:33-228` | The reader as a whole does what following the links means, terminates, and computes the box of the positions. |
| `ScanLoader.SavedLoads` | `Source/ClientSide/Common/C3DScanFile.cpp:33-438` | Loading what was saved gives back parts, subsets, buffers, materials and textures. |
| `ScanLoader.LoadsExactlyIf` | `Source/ClientSide/Common/C3DScanFile.cpp:33-438` | It does exactly if there is a part, every part has a subset and every vertex format has room for a position; otherwise the load fails, or goes on with bytes that are not in the file, where what the program does is not determined. |
| `ScanLoader.SaveThenLoad` | `Source/ClientSide/Common/C3DScanFile.cpp:33-438` | The same for the two programs one after the other, with the box. |
| `ScanLoader.PartsInside` | `Source/ClientSide/Common/C3DScanFile.cpp:120-138` | Every position lies in the box. |
| `ScanLoader.PartsTight` | `Source/ClientSide/Common/C3DScanFile.cpp:120-138` | The box is the least that holds all positions. |
| `ObjModel.StrideIsSize` | `Source/ClientSide/Common/C3DScanFileUtils.cpp:5-16` | Numbers for a vertex times four is the vertex size of the format. |
| `ObjModel.CountedExactlyIf` | `Source/ClientSide/Common/Obj2Model.cpp:93-96` | The count of triangles is the number of fan triangles exactly if no face has fewer than two vertices. |
| `ObjModel.PutCorner` | `Source/ClientSide/Common/Obj2Model.cpp:109-126` | Position and normal mirrored in x, then the texture position, at the cursor. |
| `ObjModel.FillBuffer` | `Source/ClientSide/Common/Obj2Model.cpp:100-167` | The allocated buffer is filled exactly, with the fans in the order of the faces. |
| `ObjModel.CornerInPlace` | `Source/ClientSide/Common/Obj2Model.cpp:105-167` | Corner c of triangle t of a face stands in its place: the first vertex, or one of the two behind each other. |
| `ObjModel.ConvertBatch` | `Source/ClientSide/Common/Obj2Model.cpp:84-174` | A subset: format, counts, material, vertex buffer, and an index buffer whose i-th index is i. |
| `ObjModel.ConvertParts` | `Source/ClientSide/Common/Obj2Model.cpp:70-180` | Exactly the parts with something to draw, in order, each with at least one subset. |
| `ObjModel.KeepMaterials` | `Source/ClientSide/Common/Obj2Model.cpp:182-228` | A material is kept exactly if some subset names it; the last definition wins. |
| `ObjModel.Convert` | `Source/ClientSide/Common/Obj2Model.cpp:68-228` | Parts and materials together. |
| `ObjScan.ConvertedIsValid` | `Source/ClientSide/Common/Obj2Model.cpp:68-228` | What is made of a modest OBJ model is a model that can be saved, and one that loads again if there is something to draw. |
| `ObjScan.ConvertSaveLoad` | `Source/ClientSide/Common/C3DScanFile.cpp:33-438` | OBJ model to file and back: if the file stays below 2 GB, exactly the converted model comes back if and only if there is something to draw, with the box of its positions. |
| `ObjScan.CornerReadBack` | `Source/ClientSide/Common/Obj2Model.cpp:105-167` | What the reader finds at the vertex that index 3n + c selects, for corner c of the n-th fan triangle: position and normal of the vertex mirrored in x, and its texture position, where the format has them. |
| `ObjScan.PositionOfCorner` | `Source/ClientSide/Common/Obj2Model.cpp:105-126` | Of every corner of every fan triangle the subset holds, through its index buffer and as the reader sees it, the position of its vertex mirrored in x. |

## Left out

- ZIP file input and output, time stamps, the central directory and the PNG writer: platform plumbing; `MakeIndex` takes the names as they are.
- mz_deflateBound: its own comment calls it a guess; `BlockSize.StaticFits` and `BlockSize.DynamicFits` bound a block instead.
- mz_deflate, mz_inflate, mz_compress and mz_uncompress: thin loops over tdefl_compress and tinfl_decompress with the zlib return codes.
- Decompress.InPieces: requires a stream that completes or is refused. A stream that breaks off (the program goes on with zero bits), the symbols 286, 287, 30 and 31, a code word that a code with one symbol does not assign, a distance in front of the start in a wrapping buffer, and a header that asks a flat buffer for a window above 32 KB are neither: there the program goes on with what it finds.
- Decompress.ToCallback: requires the same kind of stream.
- Decompress.ToMem: requires the same kind of stream.
- Decompress.ToHeap: requires the same kind of stream.
- Inflater.Inflater.Decompress: requires the same kind of stream.
- Allocation failure, null pointers and a callback that fails: allocation succeeds, and a callback takes what it is given.
- Local copies of fields kept in registers: they are the fields.
- The inflater's 16-bit refill for 32-bit registers, and TDEFL_LESS_MEMORY: the sizes are those of the 64-bit build.
- Small buffers that are filled once (raw header, size fields) and the code handed to the emitters are values, not arrays.
- m_block_index is only compared with zero and does not wrap here; positions in the input are modulo 2^32 as in the code.
- What compression ratio the matches give: the search is exact, but that the recorded tokens are the best choice is not claimed, and they are not.
- LZ4: only that decompression undoes compression and gives the size asked for; that compression stays within its bound is not needed.
- ScanLoader.Load: a link that does not lead forward, and a read of bytes that are not there, are outcomes of their own, since the program may not come back or goes on with whatever is in memory; products of sizes do not wrap at 2^32.
- ScanFile.SavePart: requires files below 2 GB, beyond which the program's 32-bit offsets overflow; names of 32 bytes and more, which lose their terminator, are excluded, and so are names that differ from their map keys.
- ScanFile.SaveSubsets: requires offsets below 2 GB, as `ScanFile.SavePart`.
- ScanFile.SaveTextures: requires offsets below 2 GB, as `ScanFile.SavePart`.
- ScanFile.Save: requires offsets below 2 GB, as `ScanFile.SavePart`.
- ScanLoader.LoadsExactlyIf: of a model that does not come back it says only that the load does not succeed; whether it fails or goes on with undetermined bytes is left open.
- ObjModel.FillBuffer: requires faces of at least two vertices with indices that exist, and buffers below 4 GB; with smaller faces the count of triangles is too small for the buffer, see `ObjModel.CountedExactlyIf`. Coordinates are real numbers. Loading texture files and cleaning their names are not modelled.
- ObjModel.ConvertBatch: requires the same faces and sizes.
- ObjModel.ConvertParts: requires the same faces and sizes.
- ObjModel.Convert: requires the same faces and sizes.
- OBJ and MTL parsing, rendering, windows, the web service client and the user interface.
