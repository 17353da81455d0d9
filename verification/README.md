# ccache: its codecs and its cache state, modelled in Dafny

This project models the hardest code of this ccache fork and proves what that code is for.

- **LZ4 blocks** (`src/lz4/lz4.c`). The compressor works on arrays, with a hash table that is kept
  between blocks. The decompressor has a fast loop, a shortcut and a careful loop, all of which copy
  more than they need. Both are proved against `Lz4Format.Decode`, which decodes one byte at a time.
- **LZ4 frames** (`src/lz4/lz4frame.c`). The resumable decoder is one method per stage, with a moving
  64 KB history. It is proved against `FrameFormat.Render`, which says what bytes a frame is, and both
  ways: a valid frame is decoded, and nothing but a frame is accepted. On top
  come drives: any list of calls, with pieces and capacities of any size. The frame compressor makes
  independent blocks with the block compressor above; for linked blocks and the higher levels the
  block compressor is a parameter.
- **The cache's state.** The manifest (`src/manifest.c`) is a file format, a lookup and an update. The
  chained hash table and its iterator are linked entries in arrays. The statistics file is shared by
  processes under a lock. Clean-up deletes the oldest files first, and memcached blobs are cut into chunks.
- **Small algorithms.** Adler-32 with deferred reduction, incremental MD4, the search for `__DATE__` and
  `__TIME__`, Windows command lines, and relative paths.

Code that changes state is a class or a method over arrays, with `modifies` clauses. Each is proved
against a function of the old state, and lemmas say what that function has to satisfy. These come in as
parameters and are arbitrary: the XXH32 hash, the block compressor for linked blocks, MD4's compression function, hash functions of tables and
chunk keys, the file system a manifest lookup sees, and which files cannot be unlinked.

Names in the tables are module, class and member. `Frame*.dfy` and `Lz4*.dfy` depend on each other as the
C files do; every other module stands on `Bytes` and the modules of its own group.

## Model

| member | source | states |
|---|---|---|
| `Lz4FormatLaws.RepeatUnique` | src/lz4/lz4.c:2103-2150 | a match copy is fixed by one equation: any string that extends the history and equals itself `offset` bytes back (zero for offset 0) is the one the reference decoder makes |
| `Lz4Copy.TableFacts` | src/lz4/lz4.c:417-418 | what makes the two offset tables right: after eight bytes the copy distance is a multiple of the offset and at least eight |
| `Lz4Copy.SpreadFirst8` | src/lz4/lz4.c:440-450 | the first eight bytes repeat the pattern for every offset below 8, and the source ends up the tables' distance behind |
| `Lz4Copy.MemcpyUsingOffsetBase` | src/lz4/lz4.c:436-457 | the range up to the end repeats at the given offset, and nothing past the stated overshoot is touched |
| `Lz4Copy.MemcpyUsingOffset` | src/lz4/lz4.c:475-506 | the same through the special cases for offsets 1, 2 and 4 |
| `Lz4Decompress.ReadVariableLength` | src/lz4/lz4.c:1707-1729 | each of the two error codes occurs exactly when its guard says; the length is the format's run length modulo 2^32 |
| `Lz4Decompress.DecompressGeneric` | src/lz4/lz4.c:1737-2165 | for every input, capacity, prefix and external dictionary: a result n >= 0 means the n bytes are what the reference decoder gives behind that history; a conforming block that fits is decoded whole; no byte outside the destination range changes |
| `Lz4Decompress.DecompressSafe` | src/lz4/lz4.c:2170-2176 | the same for the public entry point without history, including capacity 0 |
| `Lz4Decompress.DecompressSafeUsingDict` | src/lz4/lz4.c:2404-2417 | the same behind a dictionary, whether it ends where the destination starts, is long or short, or lies elsewhere |
| `Lz4RoundTrip.DecompressFormat` | src/lz4/lz4.c:2170-2176 | when it succeeds, its bytes are what the format says (unbounded run lengths, no offset 0) if and only if no run wraps and no match met has offset 0; below 16843010 bytes of input no run does; a block that conforms with unbounded lengths and fits is decoded whole |
| `Lz4FormatLaws.FormatExact` | src/lz4/lz4.c:1737-2165 | the same of the decoding itself, behind any history |
| `Lz4FormatLaws.StrictExact` | src/lz4/lz4.c:2122-2130 | what the code decodes, a decoder that refuses offset 0 accepts if and only if no match met has it |
| `Lz4FormatLaws.ZeroOffsetDisagrees` | src/lz4/lz4.c:2122-2130 | a concrete conforming block that the code decodes and the format refuses |
| `Lz4RoundTrip.DecompressZeroOffset` | src/lz4/lz4.c:2170-2176 | LZ4_decompress_safe returns 17 bytes for it |
| `Lz4FormatLaws.WrapExact` | src/lz4/lz4.c:1707-1729 | decoding with 32-bit run lengths agrees with the format if and only if every run length is below 2^32 |
| `Lz4FormatLaws.ShortIsWrapFree` | src/lz4/lz4.c:1707-1729 | an input of at most 16843009 bytes has no run that wraps |
| `Lz4FormatLaws.WrapWitnessDisagrees` | src/lz4/lz4.c:1707-1729 | a concrete conforming block that the code decodes and the format does not |
| `Lz4FormatLaws.KnownSequence` | src/lz4/lz4.c:1800-2165 | a sequence read byte by byte: literals, offset with the low-order byte first, and a length with its run |
| `Lz4FormatLaws.KnownLiterals` | src/lz4/lz4.c:1800-2165 | last literals with their run |
| `Lz4FormatLaws.ConformsDecodes` | src/lz4/lz4.c:1737-2165 | a block within the parsing restrictions decodes, to the length it declares |
| `Lz4EncodeLaws.SequenceReadsAs` | src/lz4/lz4.c:1021-1138 | an encoded sequence of literals and a match reads back as itself behind any prefix |
| `Lz4EncodeLaws.StandsForLast` | src/lz4/lz4.c:1204-1231 | encoded sequences closed by last literals make a conforming block that decodes to the source |
| `Lz4Match.Count` | src/lz4/lz4.c:602-626 | the longest common run within the limit, though counted 8, 4, 2 and 1 bytes at a time |
| `Lz4Match.FindMatch` | src/lz4/lz4.c:933-1015 | whatever the table holds below the position, a match that is reported is one: four equal bytes within the 65535-byte window; stale entries never become matches. And none is passed over: positions are visited by the schedule of the acceleration, each is put into the table, every one before the match had no candidate with the same four bytes within the window, and the search ends without a match only at the end of the input |
| `Lz4Match.CatchUp` | src/lz4/lz4.c:1017-1019 | extending a match backwards keeps it a match and does not pass the anchor |
| `Lz4Compress.CompressValidated` | src/lz4/lz4.c:851-1240 | a positive result is a conforming block that decodes to the source and fits the budget; unlimited output never fails; nothing past the output's end is written; the table ends fit for the next block; a block of literals alone, for an input with room for a match, means that every candidate up to the end was refused |
| `Lz4Compress.SameFound` | src/lz4/lz4.c:933-1015 | an input whose first nine bytes are the same is never compressed to literals alone |
| `Lz4Stream.Stream.PrepareTable` | src/lz4/lz4.c:805-843 | whatever was compressed before with this table, it is fit for the next block, cleared or kept |
| `Lz4Stream.Stream.CompressFastReset` | src/lz4/lz4.c:1316-1351 | on every reachable state: a positive result is a block of the source within capacity; with LZ4_compressBound bytes of room the result is positive; an input that begins with nine equal bytes gives a block that begins with a match |
| `Lz4Stream.Stream.CompressFast` | src/lz4/lz4.c:1284-1305 | the same from a state with arbitrary contents |
| `Lz4RoundTrip.CompressedDecodes` | src/lz4/lz4.c:851-1240 | every block the compressor may write, whatever its matches, decodes to the source, by the letter of the format too: it has no offset 0 |
| `Lz4RoundTrip.RoundTrip` | src/lz4/lz4.c:1316-1351 | compressing and decompressing restores the source, for every input, acceleration and reachable stream |
| `FrameFormat.LongerDictionary` | src/lz4/lz4frame.c:1654-1669 | decoding a block behind a longer history than it needs gives the same content |
| `FrameFormat.ShorterDictionary` | src/lz4/lz4.c:2122-2130 | and since matches reach 65535 bytes back at most, what decodes behind a longer history decodes to the same behind its last 64 KB |
| `FrameHeader.HeaderRead` | src/lz4/lz4frame.c:1113-1205 | reading the header of a valid frame, or any beginning of it, gives the frame's settings or asks for exactly the bytes the header has |
| `FrameHeader.HeaderExact` | src/lz4/lz4frame.c:1113-1205 | and only then: bytes that are accepted are the header of the settings read |
| `FrameBytes.HeaderBytes` | src/lz4/lz4frame.c:669-697 | every byte of a header by position: magic number, flags, block size, content size, dictionary and checksum |
| `FrameBytes.BlockBytes` | src/lz4/lz4frame.c:748-762 | the bytes of a block: size with the highest bit for stored data, low-order byte first, data, checksum |
| `FrameBytes.EndBytes` | src/lz4/lz4frame.c:1002-1011 | the bytes of the end: four zeros and the checksum of the content |
| `FrameBytes.SkippableBytes` | src/lz4/lz4frame.c:1795-1842 | the bytes of a skippable frame |
| `FrameDecompress.Dctx.DecodeHeader` | src/lz4/lz4frame.c:1113-1205 | the method does that to the context, from the stream or from the saved bytes |
| `FrameDecompress.Dctx.CheckSuffix` | src/lz4/lz4frame.c:1779-1790 | the frame ends well if and only if the word taken from the stream is the checksum of the content decoded; then all bytes taken are a frame that is accepted |
| `FrameLayout.LaysOut` | src/lz4/lz4frame.c:1475-1600 | in a stream that begins with a frame, every size word, block and checksum is where the decoder will look for it |
| `FrameHistory.History.UpdateDict` | src/lz4/lz4frame.c:1295-1362 | in every branch the dictionary still ends with the last 64 KB of all output, and does not overlap room that is still to be written |
| `FrameHistory.History.Flush` | src/lz4/lz4frame.c:1724-1736 | handing out part of a decoded block: exactly the next bytes, history kept |
| `FrameHistory.History.Direct` | src/lz4/lz4frame.c:1675-1680 | a block decoded straight into the destination joins the history |
| `FrameHistory.History.PlaceTmpOut` | src/lz4/lz4frame.c:1685-1697 | room for the next block is made in the temporary buffer behind enough history |
| `FrameHistory.History.Preserve` | src/lz4/lz4frame.c:1844-1874 | moving the history into the temporary buffer keeps it, with a block half handed out or not |
| `FrameHistory.History.DecodeBlock` | src/lz4/lz4frame.c:1654-1669 | what the block decoder is given as dictionary ends with the last 64 KB of output, and a valid block gives its content |
| `FrameHistory.History.DecodeToTmp` | src/lz4/lz4frame.c:1685-1720 | the same for a block decoded aside, overlapping nothing it reads |
| `FrameDecompress.Dctx.DoInit` | src/lz4/lz4frame.c:1448-1472 | buffers of a context used before are kept or replaced so that the next frame's blocks fit |
| `FrameDecompress.Dctx.Run` | src/lz4/lz4frame.c:1412-1842 | the stage loop ends, stops only when the input is used up, the room is full or the frame is over, and never fails on a valid frame without a stale size |
| `FrameDecompress.Dctx.Decompress` | src/lz4/lz4frame.c:1384-1879 | one call on any piece and room, from any reachable state. Fed a valid frame, it hands over exactly the next bytes of the content, takes the next bytes of the stream, and returns 0 exactly when the frame is complete. Fed anything at all, it returns 0 only when all bytes taken for this frame, in this call and before, are the bytes of one frame that is accepted and what was given is its content; with another hint all that was taken and given is still accounted for. Without stableDst it keeps no pointer into the caller's buffer, and with it leaves room to go on behind its output |
| `FrameDecompress.Dctx.Aim` | src/lz4/lz4frame.c:1063-1080 | a context waiting for a header meets what `Decompress` asks, for any stream that begins with a valid frame |
| `FrameDecompress.Dctx.ResetContext` | src/lz4/lz4frame.c:1097-1102 | the context is usable again, and the count of bytes still owed is unchanged |
| `FrameDecompress.LogAt` | src/lz4/lz4frame.c:1654-1720 | the record of decoded blocks names, for each compressed block of the frame in order, the output before it |
| `FrameDrive.DriveFresh` | src/lz4/lz4frame.c:1384-1879 | chunk independence: for every valid frame, linked or not, and every list of pieces, capacities and stableDst choices on a fresh context, with the caller overwriting his buffer after every call that was not stable, and going on in the same buffer or a new one after every call that was, no call fails, output so far is a prefix of the content, 0 means all content and exactly the frame's bytes, and enough non-empty calls reach 0 |
| `FrameDrive.DriveOn` | src/lz4/lz4frame.c:1384-1879 | the same on any idle context: it ends well if and only if no size was left over from an earlier frame, or this frame states its own or is skippable; otherwise it ends in an error |
| `FrameDrive.DriveAny` | src/lz4/lz4frame.c:1384-1879 | for every byte string and list of calls on a fresh context, valid frame or not: a drive that ends with 0 has taken exactly the bytes of one frame with a legal header, blocks that decode, right block checksums, an end mark and the right content checksum, whose content, as long as the header says modulo 2^64, is what was put out; and it is the only frame the string begins with |
| `FrameReading.OneFrame` | src/lz4/lz4frame.c:1412-1842 | a byte string begins with at most one frame that is accepted, so what the decoder makes of it is determined |
| `FrameReading.ValidIsAccepted` | src/lz4/lz4frame.c:1412-1842 | every valid frame is accepted |
| `FrameReading.SofarBlock` | src/lz4/lz4frame.c:1534-1720 | when the bytes taken end with a block that decodes behind the content before it, they are a frame with one block more, and the content has grown by what it decodes to |
| `FrameReading.SofarEnd` | src/lz4/lz4frame.c:1746-1790 | when they end with the end mark and the checksum of the content, and the size is right, they are a whole frame that is accepted |
| `FrameDrive.Agree` | src/lz4/lz4frame.c:1384-1879 | any two drives over the same frame give the same output and take the same number of bytes |
| `FrameDrive.BlockHistory` | src/lz4/lz4frame.c:1654-1720 | in any completed drive, the history each compressed block was decoded behind ends with the last 64 KB of the content before that block, or all of it |
| `FrameDrive.ResetMidFrame` | src/lz4/lz4frame.c:1097-1102 | after a reset in the middle of a sized frame, no drive over a frame without a size ends well |
| `FrameBlocks.BoundIsCost` | src/lz4/lz4frame.c:324-348 | the bound's division formula equals the size of the blocks cut one at a time plus the end of the frame |
| `FrameBlocks.AnyCompressorFits` | src/lz4/lz4frame.c:351-361 | any list of blocks, all but the last full and none stored larger than its content, makes a frame within LZ4F_compressFrameBound |
| `FrameBlocks.OptimalBSID` | src/lz4/lz4frame.c:304-316 | the smallest block size not above the one requested that holds the source, or the one requested |
| `FrameBlocks.OptimalKeepsBound` | src/lz4/lz4frame.c:390-397 | the size chosen gives the same bound, so the room asked of the caller is the one documented |
| `FrameBlocks.KnownBounds` | src/lz4/lz4frame.c:324-361 | the bound for three known sizes, as a sum of its parts |
| `FrameCompress.MakeBlock` | src/lz4/lz4frame.c:740-807 | for every block mode, level and block compressor: a block of the source, never larger than the source with its size word and checksum; a valid one behind what came before, unconditionally for independent blocks at the fast levels, else when the block compressor given is right |
| `FrameCompress.Cctx.Begin` | src/lz4/lz4frame.c:598-700 | fails exactly below 19 bytes of room; otherwise what it wrote starts a frame with the given preferences, linked or not, and the buffer has room for input and history |
| `FrameCompress.Cctx.Update` | src/lz4/lz4frame.c:825-927 | succeeds exactly when a frame was started and the room meets LZ4F_compressBound; what was fed and what was written stay in step, within the bound; in linked mode the place for input stays inside the buffer, behind the history saved |
| `FrameCompress.Cctx.Flush` | src/lz4/lz4frame.c:938-974 | nothing stays buffered, or nothing changed; fails exactly when there is something to write and too little room |
| `FrameCompress.Cctx.Place` | src/lz4/lz4frame.c:895-912 | whichever of saving, rewinding or nothing is done, a block fits at tmpIn afterwards and what was kept is kept |
| `FrameCompress.Cctx.End` | src/lz4/lz4frame.c:986-1022 | success means that everything written since the start is a frame of everything fed, valid as its blocks are; a wrong declared size is refused; without a frame under way exactly the end mark and checksum are written |
| `FrameCompress.CompressFrame` | src/lz4/lz4frame.c:373-419 | fails exactly when the destination is smaller than LZ4F_compressFrameBound, and else writes a frame of the source within it, for every block mode, level and block compressor. The frame has the checksums, dictionary and size the caller asked for, the smallest block size that holds the source or the one asked for, and linked blocks exactly when asked for and there is more than one; its first bytes say so, byte by byte. It is valid when the block compressor, where it is a parameter, is right |
| `FrameCompress.FrameRoundTrip` | src/lz4/lz4frame.c:429-462 | a compressed frame, linked or not, driven through the decoder in any pieces is the source |
| `Adler32.ChecksumConcat` | src/zlib/adler32.c:62-131 | the checksum of a concatenation continues from the first part's |
| `Adler32.ClosedSums` | src/zlib/adler32.c:62-131 | the two sums in closed form: one and the sum of the bytes; the number of bytes and the sum of the bytes, each as often as there are bytes from it on |
| `Adler32.KnownChecksums` | src/zlib/adler32.c:62-131 | the checksum of nothing is 1 and that of "abc" is 0x024D0127 |
| `Adler32.Adler32Z` | src/zlib/adler32.c:63-131 | the blockwise sums with deferred reduction equal the byte-by-byte definition, for every canonical start and both kinds of MOD |
| `Adler32.BoundFits` | src/zlib/adler32.c:13-14 | no sum reaches 2^32 within NMAX bytes |
| `Adler32.NmaxIsLargest` | src/zlib/adler32.c:13-14 | and with one byte more the worst case does |
| `Adler32.Mod28Exact` | src/zlib/adler32.c:33-37 | MOD28 without division is the remainder below 2^28 |
| `Adler32.ModNoDivideExact` | src/zlib/adler32.c:38-42 | MOD without division is the remainder below 2^32 |
| `Adler32.Mod63Exact` | src/zlib/adler32.c:43-55 | MOD63 without division is the remainder below 2^63 |
| `Adler32.CombineLaw` | src/zlib/adler32.c:156-163 | the combination formula on the checksums of two strings gives the checksum of their concatenation |
| `Adler32.Adler32Combine` | src/zlib/adler32.c:143-169 | the code computes that formula: its conditional subtractions are enough for a canonical result, both kinds of MOD63 agree, and a negative length gives the value for "invalid" |
| `Mdfour.Md4.Update` | src/mdfour.c:159-194 | the state stands for the concatenation of all bytes fed, however they were split |
| `Mdfour.Md4.Result` | src/mdfour.c:196-213 | the digest of those bytes; the state does not change |
| `Mdfour.DigestBytes` | src/mdfour.c:196-213 | the sixteen bytes of the digest are the words A, B, C and D, low-order byte first |
| `Mdfour.PaddedBytes` | src/mdfour.c:134-157 | what is hashed, byte by byte: the input, 0x80, zeros, and the low 32 bits of the bit count |
| `Mdfour.BeginBytes` | src/mdfour.c:121-130 | the four words at the start, as section 3.3 of RFC 1320 writes them |
| `Mdfour.Md4.InputSize` | src/hash.c:86-90 | the number of bytes fed, modulo 2^64 |
| `Mdfour.Run` | src/mdfour.c:123-213 | for any list of updates, the digest taken after each depends only on the bytes so far |
| `Mdfour.PaddingFills` | src/mdfour.c:134-157 | the padded input is whole blocks, one more or two more |
| `Mdfour.PaddingExact` | src/mdfour.c:134-157 | the padding is that of sections 3.1 and 3.2 of RFC 1320 if and only if the bit count, taken modulo 2^64, is below 2^32 |
| `Mdfour.LongPaddingDiffers` | src/mdfour.c:138-138 | it is not for 2^29 bytes |
| `Mdfour.DigestIsRfc` | src/mdfour.c:134-157 | so below 2^29 bytes the digest is the standard's |
| `TemporalMacros.SkipIsExact` | src/macroskip.h:42-59 | each table entry is the distance to the last place of its byte in either word, no more and no less |
| `TemporalMacros.KnownOccurrences` | src/hashutil.c:69-71 | a word is found alone and between blanks, and not inside a longer identifier |
| `TemporalMacros.NothingSkipped` | src/hashutil.c:81-83 | no jump passes over an end of either word |
| `TemporalMacros.CheckForTemporalMacros` | src/hashutil.c:52-87 | each bit is set if and only if its word occurs somewhere with no identifier character on either side |
| `ArgQuoting.ParseLine` | src/execute.c:25-89 | the Microsoft argument rules take the quoted line apart into the list it was made from |
| `ArgQuoting.KnownQuote` | src/execute.c:59-88 | an argument with a quotation mark and a backslash at its end, as it is written |
| `ArgQuoting.KnownParse` | src/execute.c:25-89 | a line with a blank inside quotation marks and a literal mark, as it is taken apart |
| `ArgQuoting.PlainQuote` | src/execute.c:59-88 | quotes around an argument are enough if and only if it has no quote and does not end in a backslash |
| `ArgQuoting.CountArg` | src/execute.c:34-50 | the first pass counts exactly the characters of one quoted argument |
| `ArgQuoting.WriteArg` | src/execute.c:61-84 | the second pass writes exactly them |
| `ArgQuoting.Win32ArgvToS` | src/execute.c:28-89 | the string allocated is filled exactly, ends in NUL and nowhere else, and parses back into the prefix and arguments |
| `RelativePath.CommonDirPrefixLength` | src/util.c:1617-1636 | the backward scan ends at the last place where both paths are at an edge of a name, and never leaves them |
| `RelativePath.LastEdgeIsShared` | src/util.c:1617-1636 | that place is the longest common prefix in whole names |
| `RelativePath.GetRelativePath` | src/util.c:1641-1689 | followed from the directory, the result leads to the target, in as many moves as the directories are apart; it is relative, not empty and has no trailing slash |
| `RelativePath.NoShorterPath` | src/util.c:1641-1689 | no path leads there in fewer moves |
| `RelativePath.KnownWalk` | src/util.c:1641-1689 | where "../c" leads from any directory, and in how many moves |
| `Cleanup.CompareTransitive` | src/cleanup.c:36-46 | the order used for sorting is transitive |
| `Cleanup.StrCmpMeans` | src/cleanup.c:39-41 | the comparison of names is negative if and only if the first is a proper beginning of the second or smaller where they first differ |
| `Cleanup.OldestFirst` | src/cleanup.c:36-46 | of sorted files the earlier one has the smaller mtime, or the same and the name that comes first |
| `Cleanup.SortIsUnique` | src/cleanup.c:36-46 | files with distinct names have one sorted order, so it does not matter how qsort sorts |
| `Cleanup.Cleaner.DeleteFile` | src/cleanup.c:93-107 | counters go down exactly when asked for and the file is gone |
| `Cleanup.DiskExactly` | src/cleanup.c:117-153 | a path is still there if and only if it was, and cannot be unlinked or is neither a processed file nor the object of a processed .stderr |
| `Cleanup.ExtensionMeans` | src/util.c:1277-1290 | an extension is the last dot and what follows; there is none exactly when a slash follows every dot |
| `Cleanup.Cleaner.SortAndClean` | src/cleanup.c:111-156 | the oldest files are processed: none left has a smaller mtime, or the same and a name that comes first by its first differing character; what is left of the directory is what cannot be unlinked and what no processed file took with it; when files are left, size and count are within both limits, and when no listed file is stubborn, with fewer files processed they would not be, and the counters end as size and number of the files not processed; no moment has an object left whose .stderr was removed, if and only if no processed .stderr that is on disk and can be unlinked has an object on disk that cannot |
| `Cleanup.Cleaner.LeftExactly` | src/cleanup.c:131-152 | that condition, for every state the directory passes through |
| `Cleanup.LeftBehind` | src/cleanup.c:131-152 | one such object is left behind at the end |
| `Cleanup.LeaveStubbornObject` | src/cleanup.c:111-156 | a concrete directory in which SortAndClean leaves one |
| `Cleanup.AllFreed` | src/cleanup.c:93-107 | with nothing stubborn, what was subtracted is the processed prefix |
| `Cleanup.StubbornObject` | src/cleanup.c:131-152 | its file meets the condition |
| `Hashtable.IndexForIsRemainder` | src/hashtable_private.h:33-36 | the bucket is the hash value's remainder by the table's length |
| `Hashtable.ProductFits` | src/hashtable.c:158-159 | for every size a table can have, the product with the load factor fits the 53 bits of a double, so the limit is exact |
| `Hashtable.LimitGrows` | src/hashtable.c:158-159 | a larger table has a larger load limit |
| `Hashtable.Rehash` | src/hashtable.c:115-131 | moving every entry into a table of another size keeps the map and the entries |
| `Hashtable.Hashtable.Expand` | src/hashtable.c:104-161 | one step up the primes, the map kept, the limit larger, or nothing at the last prime |
| `Hashtable.Hashtable.Insert` | src/hashtable.c:171-194 | the map with one more key, growing or not |
| `Hashtable.Hashtable.Search` | src/hashtable.c:197-212 | the map's value, or nothing if and only if the key is absent |
| `Hashtable.Hashtable.Remove` | src/hashtable.c:215-246 | the map without the key, and the value it had |
| `HashtableItr.Itr.constructor` | src/hashtable_itr.c:12-36 | the iterator starts before all entries |
| `HashtableItr.Itr.Advance` | src/hashtable_itr.c:54-89 | the current entry is done, the rest is the rest; at the end it stays there |
| `HashtableItr.Itr.Remove` | src/hashtable_itr.c:99-125 | exactly the current entry leaves the map, and the iteration goes on with the next as if it had not been there |
| `HashtableItr.Itr.Search` | src/hashtable_itr.c:128-155 | finds exactly the keys of the map, and stands where removal works |
| `HashtableItr.OrderIsContents` | src/hashtable_itr.c:12-89 | the order of iteration has every key of the map once |
| `HashtableItr.Collect` | src/hashtable_itr.c:42-89 | a loop with the iterator yields every key with its value, once |
| `MemcachedBlob.DecodeExact` | src/memccached.c:423-460 | a value decodes to four buffers if and only if it begins with their encoding |
| `MemcachedBlob.BlobBytes` | src/memccached.c:318-338 | the bytes of a blob: "CCH1", and each buffer behind its length, high-order byte first |
| `MemcachedBlob.KeyInjective` | src/memccached.c:104-112 | keys of chunks are equal if and only if hash and size are |
| `MemcachedBlob.Assemble` | src/memccached.c:140-277 | for arbitrary answers, in any order and with any repetitions: success if and only if every key was answered in order to be placed, and then every chunk is at its offset |
| `Memcached.WholeValue` | src/memccached.c:97-130 | chunks at their offsets are the value: they cover it without gap or overlap |
| `Memcached.IndexBytes` | src/memccached.c:90-112 | the bytes of an index: "CCBM", the number of chunks, 16, 0, the length, and each chunk's digest and length |
| `Memcached.Memc.BigSet` | src/memccached.c:67-138 | the store gains every chunk under its key, and the index under the main key |
| `Memcached.Memc.Set` | src/memccached.c:306-353 | one value, or chunks and index when it is too big |
| `Memcached.Memc.BigGet` | src/memccached.c:140-277 | success exactly when every chunk is there with its length, each once; then the chunks in order |
| `Memcached.Memc.Get` | src/memccached.c:394-461 | what each kind of stored value gives, and that only a malformed one is removed |
| `Memcached.DistinctKeysDistinctChunks` | src/memccached.c:104-112 | without hash collisions, distinct chunk keys means distinct chunks |
| `Memcached.RoundTrip` | src/memccached.c:67-461 | setting and then getting gives the same four buffers if and only if the blob fits one value or its chunk keys are pairwise distinct, and never gives other ones |
| `Memcached.EqualChunksAreLost` | src/memccached.c:67-277 | an input for which it does not |
| `ManifestFormat.BodyUnique` | src/manifest.c:256-286 | bytes that begin with the encoding of a manifest begin with that of no other |
| `ManifestFormat.KnownEmpty` | src/manifest.c:328-365 | the twenty bytes of an empty manifest |
| `ManifestFormat.EntryBytes` | src/manifest.c:341-348 | where the five fields of an entry are in its forty bytes |
| `ManifestIO.Out.WriteManifest` | src/manifest.c:328-365 | writing appends the encoding |
| `ManifestIO.In.ReadManifest` | src/manifest.c:226-296 | for every byte string: what is read is what the bytes encode, and nothing is read exactly when they encode no manifest with paths below 1024 bytes |
| `ManifestIO.TruncatedIsNone` | src/manifest.c:226-296 | no proper beginning of an encoding begins with an encoding |
| `ManifestIO.WriteThenRead` | src/manifest.c:226-365 | reading restores what was written if and only if all paths are below 1024 bytes, and else nothing |
| `ManifestIO.WriteLongPath` | src/manifest.c:180-198 | a manifest with a path of 1024 bytes is written and read back as nothing |
| `ManifestIO.WriteTruncateRead` | src/manifest.c:226-365 | every proper truncation of a written manifest is rejected |
| `ManifestLookup.Lookup.VerifyObject` | src/manifest.c:367-445 | whether every include file matches (`ObjectMatchesWhen` says in full what that takes); the tables of remembered answers never change it |
| `ManifestLookup.ObjectMatchesWhen` | src/manifest.c:371-441 | what it takes for an object to match, both ways: file there, size equal in 32 bits, mtime equal when it is compiled in, and then by hash and size alone; or, when times are trusted, by mtime and ctime, or by mtime alone when ctimes are to be ignored, and else by hash and size |
| `ManifestLookup.FindTouched` | src/manifest.c:401-441 | a lookup for a file with the recorded mtime and another ctime and hash: found only when ctimes are to be ignored |
| `ManifestLookup.Find` | src/manifest.c:621-633 | the object of highest number that matches, or none |
| `ManifestLookup.ManifestGet` | src/manifest.c:589-645 | the same from the file's bytes, none when they are not a manifest |
| `ManifestSizes.EntryExact` | src/manifest.c:371-441 | the answer for an entry is the one with full sizes if and only if no size compared is another number with the same low 32 bits |
| `ManifestSizes.EntryExactWhole` | src/manifest.c:371-441 | when hashing reads the whole file: if and only if the rest does not match, or the sizes are equal, or they differ in 32 bits too |
| `ManifestSizes.ObjectExact` | src/manifest.c:367-445 | the same for an object: some entry fails even in 32 bits, or no entry is aliased |
| `ManifestSizes.SmallLookupIsTrue` | src/manifest.c:589-645 | while every size is below 2^32, a lookup answers by full sizes |
| `ManifestSizes.FindGrown` | src/manifest.c:376-387 | a concrete lookup that finds the object of a 5-byte file for one of 2^32 + 5 bytes |
| `ManifestPut.Builder.GetFileHashIndex` | src/manifest.c:475-535 | the index leads to an entry for the file; files and entries stay distinct although the maps searched are not updated |
| `ManifestPut.Builder.AddFileInfoIndexes` | src/manifest.c:537-565 | so do the indexes of all include files |
| `ManifestPut.ManifestPut` | src/manifest.c:649-744 | the old manifest, or an empty one when it has more than 100 objects or 10000 entries, with one object more; old entries keep their place |
| `ManifestPut.EntryPut` | src/manifest.c:475-535 | the entry put for an include file: its path, hash and size, and mtime and ctime when they are asked for and both before the compilation, else -1 twice |
| `ManifestPut.PutMatches` | src/manifest.c:367-445 | the object just put matches and is the newest, if the files are unchanged |
| `ManifestPut.PutThenGet` | src/manifest.c:589-744 | a lookup right after a put returns the object put, through the file's bytes |
| `ManifestPut.Run` | src/manifest.c:649-744 | after any run of puts: indexes in range, files and entries pairwise distinct, at most 101 objects, and the file is the manifest's encoding |
| `StatsFile.ParseStats` | src/stats.c:314-333 | the numbers of the text are added modulo 2^32, however many counters there were |
| `StatsFile.NumbersOfText` | src/stats.c:314-347 | the numbers of a written file are the counters |
| `StatsFile.KnownText` | src/stats.c:335-347 | the text of two counters |
| `StatsFile.KnownNumbers` | src/stats.c:314-333 | white space and a sign are read, and the first thing that is no number ends the reading |
| `StatsProtocol.Section` | src/stats.c:493-721 | what one critical section does to every counter of the file, by number: zeroing clears 1 to 30 but for 11 to 14, notes the time in 31 and keeps the rest; setting sizes changes 11 and 12 (in kilobytes), a clean-up adds to 29, and a flush adds every update, all modulo 2^32 |
| `StatsProtocol.ApplyByNumber` | src/stats.c:493-721 | the same of the operations the runs below are made of |
| `StatsProtocol.AddUpdates` | src/stats.c:495-497 | every counter gains its update modulo 2^32 |
| `StatsProtocol.ZeroCounters` | src/stats.c:662-667 | counters become 0 but for those flagged to be kept, and the time is noted |
| `StatsProtocol.StepKeepsInv` | src/lockfile.c:29-130 | every atomic step of every process keeps the invariant, also when the answer to making the link is lost, or a process gives up or dies anywhere |
| `StatsProtocol.RunKeepsInv` | src/lockfile.c:29-141 | it holds throughout every run |
| `StatsProtocol.MutualExclusion` | src/lockfile.c:29-141 | in every state of every run at most one process is in its critical section |
| `StatsProtocol.Serialisable` | src/stats.c:489-499 | the file is at every moment what the stored sections, one after another in their order, make of the first file |
| `StatsProtocol.Conserved` | src/stats.c:495-497 | sections that add to a counter add up |
| `StatsProtocol.RunConserves` | src/stats.c:489-499 | so no flushed count is lost or counted twice in any interleaving, modulo 2^32 |

## Findings

Each of these is a way the code falls short of what its format or documentation promises. The condition under
which it does not is proved for all inputs.

| source | as written | input | what should be, and when it is |
|---|---|---|---|
| src/lz4/lz4.c:1707-1729 | read_variable_length sums a length in 32 bits, and the sum wraps | a block with a length field of 2^32 or more, such as 16843009 bytes of 255 followed by a 1 (`Lz4FormatLaws.WrapWitnessDisagrees`) | the length the block format gives. `Lz4FormatLaws.WrapExact`, `Lz4RoundTrip.DecompressFormat`: decoding agrees with the format if and only if no length reaches 2^32; `ShortIsWrapFree`: none does in 16843009 bytes or fewer |
| src/lz4/lz4.c:440-445 | a match with offset 0 is accepted and stands for zero bytes, in every one of the copy loops alike | the block 10 41 00 00 C0 01 .. 0C (`Lz4FormatLaws.ZeroOffsetDisagrees`, `Lz4RoundTrip.DecompressZeroOffset`) | the block format refuses offset 0. `Lz4FormatLaws.StrictExact`, `Lz4RoundTrip.DecompressFormat`: what is decoded is what the format says if and only if no match met has offset 0, and no length wraps |
| src/lz4/lz4frame.c:1097-1102 | resetting a context leaves frameRemainingSize as it is | a context reset in the middle of a frame that states its size, then given a frame that does not (`FrameDrive.ResetMidFrame`) | the second frame should end well; it is decoded in full and then refused. `FrameDrive.DriveOn`: a drive ends well if and only if nothing was left over, or the frame states its size or is skippable |
| src/mdfour.c:138-138 | only the low 32 bits of the bit count are hashed | 2^29 bytes (`Mdfour.LongPaddingDiffers`), or any length whose bit count modulo 2^64 is not below 2^32 | all 64 bits, by section 3.2 of RFC 1320. `Mdfour.PaddingExact`: the padding is the standard's if and only if the bit count modulo 2^64 is below 2^32 |
| src/memccached.c:140-277 | each answer of the server fills one place, though equal chunks share one key and are asked for once each | a blob too big for one value with two equal chunks, such as a long run of zeros (`Memcached.EqualChunksAreLost`) | the four buffers that were set. `Memcached.RoundTrip`: they come back if and only if the blob fits one value or its chunk keys are pairwise distinct |
| src/manifest.c:180-198 | a path is read into 1024 bytes, but written at any length | a manifest with a path of 1024 bytes or more (`ManifestIO.WriteLongPath`) | the manifest that was written; it is taken for corrupt. `ManifestIO.WriteThenRead`: it is restored if and only if all paths are below 1024 bytes |
| src/manifest.c:117-121 | sizes of files are kept and compared in 32 bits | an entry for a file of 5 bytes, and the file grown by 2^32 bytes with its times kept (`ManifestSizes.FindGrown`) | different sizes should not match. `ManifestSizes.EntryExact`, `ObjectExact`: the answer is the one with full sizes if and only if no size compared is aliased modulo 2^32; `SmallLookupIsTrue`: always, while all are below 2^32 |
| src/cleanup.c:131-152 | the .stderr file is deleted whether or not deleting the .o file succeeded | a .stderr file whose .o file cannot be unlinked (`Cleanup.StubbornObject`, `LeaveStubbornObject`) | no object is left without its .stderr. `Cleanup.Cleaner.SortAndClean`: none is, at any moment, if and only if no processed .stderr that is there and can be unlinked has an object that is there and cannot |

## Left out

- Lz4Decompress.DecompressSafe: success is promised for blocks that keep the format's parsing restrictions. Whether a block that breaks them at its end is refused depends on the capacity, so "succeeds if and only if the block decodes" is not a property of the code; what is written when it succeeds is promised in either case.
- Lz4Stream.Stream.CompressFastReset: blocks that refer to a dictionary or to earlier blocks (withPrefix64k, usingExtDict, usingDictCtx), pointer tables of 32-bit builds, and destSize (fillOutput) are not modelled.
- FrameCompress.MakeBlock: for linked blocks and the levels from 3 on, the block compressor is a parameter; that LZ4_compress_fast_continue and the high-compression functions make blocks that decode is assumed where a frame is said to be valid, and not where its size is bounded. What they keep of their history (LZ4_saveDict) is a parameter too, and the state a linked frame leaves in the stream is taken to be fit for the next one.
- FrameCompress.Cctx.Begin: the 64-bit count of bytes fed is unbounded here; dictionaries (CDict) are not modelled.
- FrameDecompress.Dctx.Decompress: on a stream that is not a valid frame, which error is returned, and when, is not promised; that 0 is returned only for a frame is. A block that decodes is accepted even if it breaks the end-of-block rules of the format, as in the source, and a content size is compared modulo 2^64, as it is counted. What a hint other than 0 amounts to is advice, and is not promised. With stableDst kept from an earlier call, room given must not overlap bytes of the caller's that are still history.
- FrameHistory.History.UpdateDict: the C context is one struct; here its history and undelivered output are an object of their own. A NULL temporary buffer is an empty array.
- Adler32.Adler32Z: a NULL buffer, for which the C function returns 1; start words with a half of 65521 or more, which no checksum has (the same holds of Adler32Combine).
- Mdfour.Run: the rounds of MD4 are a parameter.
- TemporalMacros.CheckForTemporalMacros: isalnum is that of the C locale.
- ArgQuoting.Win32ArgvToS: the special parsing of a command line's first word; the allocation succeeds.
- RelativePath.GetRelativePath: Windows drive letters. Paths are canonical, as the C function asks.
- Hashtable.Hashtable.Insert: the key must be new, as the C comment asks. Allocation succeeds, so "Plan B" is not modelled. The mixing of the hash value is part of the hash parameter.
- Memcached.Memc.Get: an index blob is well formed, as the C code asserts. Server errors, expiration and flags are not modelled.
- ManifestLookup.ManifestGet: indexes read from a file are in range, as the C code takes for granted.
- ManifestPut.PutThenGet: the file before is absent, unreadable, or left by an earlier put.
- ManifestPut.ManifestPut: gzip and the temporary file with its rename are the identity; two processes putting at once may lose one entry, as the source says.
- StatsProtocol.StepKeepsInv: no lock is broken as stale, no lock is granted without a symbolic link (EPERM), and no two attempts have the same text. All three give up exclusion in the source as well.
- StatsProtocol.Serialisable: a store whose rename fails is dropped and unnoticed, as in the source; it is not among the stored sections.
- Cleanup.Cleaner.SortAndClean: which files are found (traverse_fn) and the limits computed from the configuration are parameters.
- Bit tricks that count equal bytes of two words (LZ4_NbCommonBytes) are a loop over bytes; big-endian builds are not modelled.
- Partial decoding, LZ4_decompress_fast, obsolete functions, the high-compression levels, CDict, LZ4F_getFrameInfo and LZ4F_decompress_usingDict.
- XXH32 is a function of the bytes; its streaming form is taken to agree with it.
- The Windows lock, printing and summing up of statistics, and what triggers a clean-up.
- Argument processing, preprocessing, running the compiler, and the moves between cache and object files.
