# A verified model of jpegli

jpegli is a JPEG encoder and decoder with the interface of libjpeg, together with image processing tools. This
project models six groups of its code in Dafny 4.11 and proves what they promise, for all inputs:

- **Colour quantizer.** The one-pass colormap with its lookup table, the inverse colormap with its pruned
  candidate lists, and the two-pass quantizer from the pixels to the palette, with its bucket queue of stale keys
  (`MixedRadix`, `OnePassColors`, `LevelCounts`, `InverseColors`, `ColorQuantizer`, `RgbColors`, `ColorGrid`, `ColorIndex`,
  `Palette`, `PaletteGrowth`, `TwoPassQuantizer`).
- **Entropy-coded segments.** The 64-bit bit packer with byte stuffing, restart markers and a resumable flush, all
  kinds of scans, canonical Huffman codes, the coding of a block with its decoding, and the tokens of sequential scans
  (`BitStrings`, `ZeroByte`, `EntropyBytes`, `BitWriter`, `ScanWriter`, `RefinementScans`, `HuffmanCode`, `BlockCoding`,
  `BlockSymbols`, `BlockDecoding`, `BlockRoundTrip`, `PredictedBlocks`, `BlockTokens`, `Tokenizer`).
- **Progressive scans.** First passes with runs of ends of bands, refinement passes with correction bits and tokens that are
  changed in place, their decoding, and all passes over a coefficient together (`ProgressiveBlocks`, `FirstPassScans`,
  `RefinementTokenizer`, `RefinementBlocks`, `RefinementRoundTrip`, `ProgressiveReader`, `RefinementReader`, `SuccessivePasses`,
  `DcPasses`).
- **Fast filters.** The adaptive quantization field through rings of rows (`FourSmallest`, `AdaptiveField`, `RowBuffers`,
  `AdaptiveQuantization`), the recursive Gaussian (`GaussianRecurrence`, `HorizontalGaussian`, `VerticalGaussian`), and the
  5x5 convolution (`Mirroring`, `SlowConvolution`, `Separable5`): each equals its simple form.
- **Decoder.** Acceptance of Huffman tables (`HuffmanCode`), the two-level lookup tables (`HuffmanLookup`,
  `LookupConstruction`, `SymbolLookup`), the bit reader with its suspension (`EntropyStream`, `BitReader`, `SuspendedReading`),
  blocks (`BlockReader`), whole sequential scans from input in pieces (`McuStability`, `McuPrefix`,
  `ScanSteps`, `ScanWindows`, `ScanWaiting`, `ScanDecoding`, `ScanProcessing`, `ChunkedScan`), the stitching of chunked input,
  also with scans (`InputStitching`, `StitchedScan`), and the round trip of scans with the encoder (`ScanRoundTrip`,
  `TokenRoundTrip`).
- **Protocol and layout.** The tracking memory manager under every interleaving of threads (`MemoryTracking`,
  `TrackingManager`), and the layout of ICC profiles (`IccBytes`, `IccProfile`, `IccReadBack`).

`dafny verify dfyconfig.toml` checks the whole project.

## Conventions

- Floating-point values are exact `real` numbers, except in the comparison with a threshold in the two-pass
  quantizer, whose values are whole numbers. `lround(sqrt(d * 0.25))` is the integer r with 2r - 1 <= sqrt(d) < 2r + 1.
- A vector of N lanes is N values; N is any number from 4 on in the convolution, 4 in the horizontal Gaussian, and a
  parameter in its vertical pass. Where lanes are independent, they are computed one after the other.
- 64-bit words wrap around explicitly; a shift is by a count below 64. Other integer arithmetic is unbounded, as the
  source relies on it not to overflow.
- `JPEGLI_ERROR` and other failures are results. Callbacks of the application are parameters: lists of buffer sizes, functions
  with a stated contract, or results of the inner memory manager.
- Parallel arrays of colours are one array of colours, and a ring of rows is an array of rows.

## What the proofs found

- The comment on `Mirror` in lib/extras/image_ops.h says that it might not terminate far outside the image. It always does
  (`Mirroring.Mirror`).
- The size computation of the block coder is the bit length if and only if the value is below 4096. A block is read back if
  and only if all its coefficients are below 2048; larger ones are rejected up to 4095, and can be misread from 4096 on
  (`BlockSymbols.NumBitsIsBitLength`, `BlockRoundTrip.BlockRoundTripsIff`, `BlockRoundTrip.LargeDifferenceIsMisread`).
- The one-pass lookup chooses the nearest level except exactly for the samples half a unit above the midpoint of two
  neighbouring levels that do not exceed the threshold between them; it then misses by one
  (`OnePassColors.ChosenLevelMissesIff`, `OnePassColors.ChosenLevelIsNearest`).
- The pruned search returns the minimum distance, but can drop one of several nearest entries (`InverseColors.TieCanBePruned`).
- Without a total cap, an overflow of the total of allocated bytes sets that total to 0 instead of keeping it exhausted
  (`MemoryTracking.TotalCapExhausts`).
- The memory manager hands every freed address on, even one that is not in its map. Its counters stay exact, but blocks keep
  one owner each exactly if no such address hits a block, and then Reset reports the truth; callers that free mapped addresses
  only are safe, and no others (`MemoryTracking.OwnedThroughoutIff`, `MemoryTracking.MappedFreesAreSafe`,
  `MemoryTracking.OtherFreesCanBreak`, `MemoryTracking.DoubleFreeLeaks`).
- A decoder source that refills at some times and refuses at others loses bytes exactly if it refuses while it does not hold
  all unread bytes (`InputStitching.Decoder.Refill`, `InputStitching.MixedSourceLosesInput`).
- A source that delivers an empty buffer ends the reading of a scan for good; what has been delivered then are the MCUs of the
  input before it (`InputStitching.EmptyDeliveryEnds`, `StitchedScan.ReadScan`).
- The fast 5x5 convolution equals the reference form for all images exactly on rectangles that are empty, have fewer than
  N + 2 columns, or are as wide as the image (`Separable5.AgreesExactly`).
- When a bit reader starts right after an FF byte and less than one byte is read, it gives one byte too many back
  (`EntropyStream.GivenBackTooFar`); no scan header or restart marker ends in FF.
- The limit of 1024 lookup entries holds for incomplete codes too, with two entries to spare (`LookupConstruction.NextTableFits`).
- A pre-erosion ring of 2v + 2 rows is enough, and no shorter one is (`AdaptiveQuantization.SmallerRingFails`); 6v rows are allocated.

## Model

| member | source | states |
|---|---|---|
| `ZeroByte.HasZeroByteIff` | lib/jpegli/bit_writer.h:37-41 | The expression is non-zero if and only if one of the eight bytes of the word is zero. |
| `ZeroByte.BytesOfNot` | lib/jpegli/bit_writer.h:59 | The bytes of the complement are the complements of the bytes, so the test on ~x finds bytes 0xFF. |
| `BitWriter.JpegBitWriter.EmitByte` | lib/jpegli/bit_writer.h:49-52 | One byte and, after 0xFF, a zero byte is appended; nothing else changes. |
| `BitWriter.JpegBitWriter.DischargeBitBuffer` | lib/jpegli/bit_writer.h:54-75 | Both branches append the byte-stuffed eight bytes of the put buffer: the fast path equals the byte-by-byte path. |
| `BitWriter.JpegBitWriter.CompleteWord` | lib/jpegli/bit_writer.h:88-94 | On overflow exactly the completed word goes out, and the put buffer restarts with the value nbits. |
| `BitWriter.PendingBitsWithin` | lib/jpegli/bit_writer.h:95-96 | Shifting in bits appends them to the pending bit string when they fit, whatever lies above the valid window. |
| `BitWriter.PendingBitsAcross` | lib/jpegli/bit_writer.h:87-96 | The same across a word boundary, although the put buffer then holds nbits and bits already written: neither counts. |
| `BitWriter.JpegBitWriter.WriteBits` | lib/jpegli/bit_writer.h:77-97 | The bit string of the segment grows by exactly the given bits; a length of 0 writes nothing and clears `healthy`; stale upper bits never reach the output. |
| `BitWriter.JpegBitWriter.JumpToByteBoundary` | lib/jpegli/bit_writer.cc:52-66 | The segment is closed as its bits, padded with ones to whole bytes, byte-stuffed; the next segment starts empty. |
| `BitWriter.JpegBitWriter.EmptyBitWriterBuffer` | lib/jpegli/bit_writer.cc:34-50 | On success every buffered byte has reached the application in order; on suspension the bytes copied so far are a prefix, the position is kept, and a later call resumes there. |
| `BitWriter.JpegBitWriter.EmitMarker` | lib/jpegli/bitstream.cc:313-316 | A marker is 0xFF and its code, never stuffed, between two segments. |
| `EntropyBytes.ParseOfScan` | lib/jpegli/bit_writer.cc:52-66 | Round trip: splitting a scan at its restart markers and removing the stuffing, as sections B.1.1.5 and B.2.1 of ITU-T T.81 prescribe, gives back every segment with fewer than eight 1-bits of padding, and markers that count modulo 8. |
| `ScanWriter.RestartIfDue` | lib/jpegli/bitstream.cc:340-346 | Before an item that is listed as a restart the segment is closed and the next marker modulo 8 is written; other items change nothing. |
| `ScanWriter.FlushCycle` | lib/jpegli/bitstream.cc:350-357 | Flushing at any point leaves the stream and the pending bits as they are; it fails only when the application has no further buffer. |
| `ScanWriter.WriteTokenArray` | lib/jpegli/bitstream.cc:333-359 | The part of one token array that belongs to the scan extends the stream by its items; `healthy` is kept exactly if all symbols have codes. |
| `ScanWriter.WriteTokens` | lib/jpegli/bitstream.cc:318-362 | For every division of the tokens into arrays, the tokens token_offset .. token_offset + num_tokens - 1 are written in order, cut before each restart index. |
| `ScanWriter.FinishScan` | lib/jpegli/bitstream.cc:454-457 | The last segment is closed and the buffer emptied: the written stream is the whole scan. |
| `ScanWriter.WrittenScanReadsBack` | lib/jpegli/bitstream.cc:318-362 | Reading a written scan back gives, for each restart interval, the concatenated bits of its items and their padding, and the markers RST0 to RST7 in turn. |
| `RefinementScans.WriteRefToken` | lib/jpegli/bitstream.cc:378-399 | One refinement token: its code with sign bit or run length, then its correction bits, drawn from the lists in order. |
| `RefinementScans.WriteCorrectionBits` | lib/jpegli/bitstream.cc:397-399 | The correction bits of a token are appended one by one. |
| `RefinementScans.WriteACRefinementTokens` | lib/jpegli/bitstream.cc:364-407 | All tokens of an AC refinement scan, with restarts and flushes as in the other scans; `healthy` is kept exactly if all symbols have codes. |
| `RefinementScans.WriteDCRefinementBits` | lib/jpegli/bitstream.cc:409-437 | A DC refinement scan is one bit for each block, cut at the restarts. |
| `RefinementScans.WriteAnyTokens` | lib/jpegli/bitstream.cc:441-452 | By the bit position of the pass before and the first coefficient the tokens are those of a first pass, of an AC refinement or of a DC refinement. |
| `RefinementScans.WriteScanData` | lib/jpegli/bitstream.cc:441-458 | A scan of any kind: what reaches the application is exactly the scan of its items; an unknown symbol or a suspension is reported. |
| `HuffmanCode.CountLengths` | lib/jpegli/decode.cc:172-185 | The first loop leaves 2^16 minus the Kraft sum of the code lengths, their number and the greatest depth. |
| `HuffmanCode.CollectValues` | lib/jpegli/decode.cc:186-194 | The second loop detects exactly the tables with a repeated value. |
| `HuffmanCode.CheckHuffmanTable` | lib/jpegli/decode.cc:170-199 | A table is accepted exactly if its values are distinct and the Kraft sum with one more code of the greatest depth is at most 2^16; the decoder gets the counts and values with that sentinel added. |
| `HuffmanCode.SentinelSpace` | lib/jpegli/decode.cc:195-201 | The condition on the codes as a Kraft inequality with the sentinel. |
| `HuffmanCode.ValidTablesAreSmall` | lib/jpegli/decode.cc:186-197 | An accepted table has at most 256 symbols. |
| `HuffmanCode.CodeIsSpace` | lib/jpegli/entropy_coding.cc:819-829 | The codes of Annex C of ITU-T T.81, aligned to 16 bits, are the code space used by the codes before them. |
| `HuffmanCode.CodeFits` | lib/jpegli/entropy_coding.cc:819-829 | In an accepted table each code has its length and is not all ones. |
| `HuffmanCode.PrefixFree` | lib/jpegli/entropy_coding.cc:819-829 | No code is a prefix of another. |
| `HuffmanCode.CodeSizes` | lib/jpegli/entropy_coding.cc:809-817 | The list of code lengths in symbol order. |
| `HuffmanCode.CodeWords` | lib/jpegli/entropy_coding.cc:819-829 | The counter that doubles when the length grows gives the canonical code of every symbol. |
| `HuffmanCode.BuildHuffmanCodeTable` | lib/jpegli/entropy_coding.cc:805-836 | Every symbol gets its code and length with room for its extra bits; entries of other symbols stay as they were. |
| `LookupConstruction.NextTableBitSize` | lib/jpegli/huffman.cc:27-36 | The chosen width is the least one whose table the remaining codes fill, or eight bits if none is. |
| `LookupConstruction.FillRoot` | lib/jpegli/huffman.cc:72-85 | Every code of up to eight bits is found from the root table; the other root entries and all second tables are untouched. |
| `LookupConstruction.FillSecond` | lib/jpegli/huffman.cc:87-110 | All longer codes are found, without disturbing the others; each second table is entered only at its own places, and nothing beyond them is written. |
| `LookupConstruction.CodeHasRoom` | lib/jpegli/huffman.cc:104-108 | A second table that is not full has room for all the entries of the next code. |
| `LookupConstruction.NextTableFits` | lib/jpegli/huffman.h:20-30 | For at most 257 codes, complete or not, a new second table always fits into the 1024 entries: the tables before it take at most 254 entries more than their symbols and the width of the next code. |
| `HuffmanLookup.RootRun` | lib/jpegli/huffman.cc:78-84 | Repeating an entry 2^(8 - len) times lets every window of 16 bits that starts with the code find it, and no other one. |
| `HuffmanLookup.SubRun` | lib/jpegli/huffman.cc:104-108 | The same for a longer code through its root entry and its second table. |
| `HuffmanLookup.KnownStays` | lib/jpegli/huffman.cc:77-109 | Entries written later never change what the windows of earlier codes find. |
| `SymbolLookup.BuildJpegHuffmanTable` | lib/jpegli/huffman.cc:38-111 | Every window of 16 bits that starts with a code finds its length and symbol; in a table that was blank all other windows find none; a single code fills the root table with length 0. |
| `SymbolLookup.BeyondCodes` | lib/jpegli/decode.cc:202-210 | Windows past the last code end at an entry that no code has written, within the table. |
| `SymbolLookup.WordOfWindow` | lib/jpegli/huffman.cc:72-110 | A code word starts a window if and only if the window lies in the part of the code space that the canonical code gives it. |
| `SymbolLookup.SizesWithSentinel` | lib/jpegli/decode.cc:195-197 | The counts with the additional symbol describe the code lengths of the table followed by its greatest length. |
| `SymbolLookup.BuiltAgrees` | lib/jpegli/decode.cc:195-211 | For every window, and whatever follows it, one lookup gives the symbol and the remaining bits that decoding by code words gives, or an invalid symbol exactly if there is none. |
| `SymbolLookup.BuildHuffmanLookupTable` | lib/jpegli/decode.cc:170-212 | An accepted table, and only such a one, turns the lookup table into one that decodes as its code words do; a rejected one leaves it as it was; a table whose first entry is marked as unused is always blank, so that testing this one entry before clearing is enough. |
| `EntropyStream.Inside` | lib/jpegli/decode_scan.cc:45-64 | Until the end of the segment the reader stands at the next byte, never at its stuffing. |
| `EntropyStream.AtEnd` | lib/jpegli/decode_scan.cc:45-64 | It ends at a marker, at the end of the data, or one past that after a final FF. |
| `EntropyStream.NextByte` | lib/jpegli/decode_scan.cc:45-50 | Comparing the position with the known marker tells whether the segment has another byte. |
| `EntropyStream.GivenBackIsTaken` | lib/jpegli/decode_scan.cc:88-97 | Giving a byte back undoes reading it, stuffing included, inside and past the segment, unless it is the first one and comes after an FF. |
| `EntropyStream.GivenBackTooFar` | lib/jpegli/decode_scan.cc:88-97 | In that case the position ends one too low. |
| `EntropyStream.BytesOfStuffed` | lib/jpegli/decode_scan.cc:45-64 | Up to the end or the next marker, the bytes read are those that the writer stuffed. |
| `BitReader.BitReaderState.GetNextByte` | lib/jpegli/decode_scan.cc:45-64 | The next byte of the stream: the bytes of the segment without stuffing, then the FF of a marker, then zeros. |
| `BitReader.BitReaderState.FillBitWindow` | lib/jpegli/decode_scan.cc:66-73 | More than 16 bits are pending afterwards, and no bit is lost or read twice. |
| `BitReader.BitReaderState.ReadBits` | lib/jpegli/decode_scan.cc:75-80 | The next bits of the stream, whatever lies above the pending bits in the window. |
| `BitReader.BitReaderState.ReadSymbol` | lib/jpegli/decode_scan.cc:119-133 | With the lookup table of an accepted Huffman table, the symbol that decoding the stream by its code words gives, taking exactly its code; an invalid symbol exactly if no code word starts there. |
| `BitReader.BitReaderState.FinishStream` | lib/jpegli/decode_scan.cc:81-108 | The position and the bit of the first unread bit in the stuffed data, and failure exactly if more bits were read than the segment has or a final FF was used up; with the one exception of a start after an FF. |
| `BitReader.Outcome` | lib/jpegli/decode_scan.cc:98-108 | Comparing the position with the known marker decides whether more was read than the segment has, although the marker may not have been seen yet. |
| `BitReader.Taken` | lib/jpegli/decode_scan.cc:78-79 | Shifting and masking the window takes its first bits and leaves the others pending. |
| `BlockReader.ReadAcCoefficients` | lib/jpegli/decode_scan.cc:211-244 | The loop over symbols decodes the AC coefficients, or fails, exactly as section F.2.2.2 of ITU-T T.81 and the limits of the decoder say, and has then read at least up to that place. |
| `BlockReader.DecodeDctBlock` | lib/jpegli/decode_scan.cc:177-244 | A block of a sequential scan, read through lookup tables and the bit window, is the block that its bits define, with the DC prediction added; it fails exactly if they define none or the DC coefficient does not fit 16 bits. |
| `BlockReader.WrittenBlockIsRead` | lib/jpegli/decode_scan.cc:177-244 | A block that the encoder wrote is read back with its prediction, if its DC coefficient fits 16 bits, and what follows it is left. |
| `McuStability.AcSettled` | lib/jpegli/decode_scan.cc:211-244 | The AC coefficients of a block, or that they are rejected, do not change with further input, if they end before the last two bytes. |
| `McuStability.McuSettled` | lib/jpegli/decode_scan.cc:479-519 | The same for all blocks of an MCU with their predictions. |
| `ScanSteps.McuStepStays` | lib/jpegli/decode_scan.cc:521-533 | An MCU that was decoded is decoded in the same way with any further input. |
| `ScanSteps.RejectedStays` | lib/jpegli/decode_scan.cc:542-544 | An MCU that was rejected before the last two bytes is rejected with any further input. |
| `ScanSteps.EarlyEndStays` | lib/jpegli/decode_scan.cc:534-541 | If a marker ends the data too early, no further input helps. |
| `ScanSteps.RestartStays` | lib/jpegli/decode_scan.cc:445-467 | The same restart marker is found with any further input; while it is missing, skipped bytes can be dropped. |
| `ScanSteps.RunStays` | lib/jpegli/decode_scan.cc:436-571 | The steps over a part of the input are the first steps over all of it. |
| `ScanWindows.DroppedRun` | lib/jpegli/decode.cc:326-338 | The steps do not depend on input that was consumed and dropped. |
| `ScanDecoding.ReadBlocks` | lib/jpegli/decode_scan.cc:479-519 | All blocks of an MCU are read, with the DC values of their components passed on; the MCU is right exactly if none was rejected. |
| `ScanDecoding.DecodeOneMcu` | lib/jpegli/decode_scan.cc:469-545 | One MCU is delivered exactly if it ends before a marker and the last two bytes; otherwise more input is asked for, or no further input could help. |
| `ScanDecoding.SearchMarker` | lib/jpegli/decode_scan.cc:450-460 | The search stops at the first FF that is followed by neither 0 nor FF, or at the last byte. |
| `McuPrefix.McuPrefix` | lib/jpegli/decode_scan.cc:479-519 | No decoded MCU depends on bits behind its end: bit strings that agree up to there decode to the same MCU. |
| `ScanWaiting.McuStepWasThere` | lib/jpegli/decode_scan.cc:521-533 | Converse of the stability of MCUs: an MCU that is found with more input, and ends before the last two bytes of the shorter input, was found there already. |
| `ScanProcessing.ProcessScan` | lib/jpegli/decode_scan.cc:438-572 | One call: MCUs up to the end of the iMCU row, the next restart marker or the end of the window. More input is asked for only where no MCU can be decoded, the bytes before a missing marker are skipped, a scan is given up only where no further input could help, and the rest of the last byte is skipped at its end. |
| `ChunkedScan.CallDelivers` | lib/jpegli/decode_scan.cc:438-572 | Whatever input follows, the MCUs of one call are the first ones from where it began, and decoding goes on where it stopped; after an unexpected marker, a hopeless MCU or the last one they are all. |
| `ChunkedScan.DeliveredByCall` | lib/jpegli/decode.cc:304-388 | Call after call, although consumed input is dropped, what has been delivered are the first MCUs of the whole stream, and all of the stream so far when a call needs more input. |
| `ChunkedScan.DecodeChunks` | lib/jpegli/decode.cc:304-388 | For every division of the input into pieces, with only unread input kept between them and calls that stop at every restart, the MCUs are those of the whole input. |
| `StitchedScan.ScanProcessorObeys` | lib/jpegli/decode.cc:339-362 | The decoder for scans is a lawful processor: after it has needed more input than a window, it stops at a restart marker only at the end of that window or later, as the assertion of the stitching says. |
| `StitchedScan.TraceDelivers` | lib/jpegli/decode.cc:301-389 | However the stitched buffers divided the stream into windows, the calls have delivered its first MCUs, and all that the windows hold if the last call needed more input. |
| `StitchedScan.ReadScan` | lib/jpegli/decode.cc:301-389 | Reading a scan row by row through both buffers, from a source that refills and refuses as it likes: when the rows end, exactly the MCUs of all bytes received have been delivered, and these are the MCUs of the first buffer followed by all that the source delivers until it refuses or delivers nothing; if it never refuses, reading is not suspended. |
| `StitchedScan.ScanProcessorExists` | lib/jpegli/decode_scan.cc:438-572 | For every scan and layout there is a processor that decodes it, so the results about such processors are not empty. |
| `ScanRoundTrip.WrittenMcuIsRead` | lib/jpegli/decode_scan.cc:479-519 | The blocks of a written MCU are read back, with the DC values for the next one. |
| `ScanRoundTrip.McuIsStep` | lib/jpegli/decode_scan.cc:469-552 | A written MCU is one step of decoding, wherever it begins and ends within a byte. |
| `ScanRoundTrip.RestartIsStep` | lib/jpegli/decode_scan.cc:445-467 | At the end of an interval the padding is skipped and the expected marker passed. |
| `ScanRoundTrip.ScanRoundTrips` | lib/jpegli/bitstream.cc:281-362 | Round trip: a scan written with DC prediction, restart markers modulo 8 and padding, and ended by a marker, is delivered as exactly its MCUs. |
| `BlockTokens.ComputeTokensForBlock` | lib/jpegli/entropy_coding-inl.h:164-218 | The tokens of a block: its DC difference, for each coefficient the ZRL tokens of its run and its symbol, and an end of block unless the last position is coded. |
| `BlockTokens.AtMost64Tokens` | lib/jpegli/entropy_coding.cc:46-60 | No block has more tokens than coefficients, which is what the token arrays are sized for. |
| `BlockTokens.TokensCarryBits` | lib/jpegli/entropy_coding-inl.h:164-218 | Written with the tables of their contexts, the tokens of a block are the bits that the streaming encoder writes for it, for all coefficients that its size computation can handle. |
| `BlockTokens.BlockIsCoded` | lib/jpegli/bitstream.cc:348-349 | The tokens of a block all have codes if and only if the tables have the symbols of the block. |
| `Tokenizer.EstimateNumTokens` | lib/jpegli/entropy_coding.cc:62-73 | The estimated size of a token array is never less than a row of MCUs needs, even where its difference of sizes wraps around. |
| `Tokenizer.TokenArrays.MakeRoom` | lib/jpegli/entropy_coding.cc:378-392 | Room for a row of MCUs, in a new array if need be, and no token is lost. |
| `Tokenizer.TokenizeMcu` | lib/jpegli/entropy_coding.cc:396-434 | The tokens of the blocks of an MCU, each predicted from the one before of its component; the array has room for them. |
| `Tokenizer.TokenizeScan` | lib/jpegli/entropy_coding.cc:320-447 | The tokens of all MCUs are appended interval by interval, predictions begin anew with each, and the list of restarts holds the index of the first token of every interval and the end. |
| `TokenRoundTrip.CutIsSegments` | lib/jpegli/bitstream.cc:318-362 | Cut at the listed restarts, the items of the tokens, wherever they lie among those of other scans, are the bits of the restart intervals. |
| `TokenRoundTrip.EncodeScan` | lib/jpegli/bitstream.cc:318-460 | From the MCUs of a scan to the application: tokens, restarts and writing deliver exactly the bytes of the scan, unless the application has no further buffer. |
| `TokenRoundTrip.EncodedScanIsRead` | lib/jpegli/decode_scan.cc:438-572 | Round trip: these bytes, followed by a marker, come back as exactly the MCUs. |
| `TokenRoundTrip.ReadEncodedScan` | lib/jpegli/decode.cc:301-389 | The same through the stitching of the input: if the first buffer and what the source delivers until it fails begin with an encoded scan and a marker, the MCUs that were encoded are delivered; for a source that always delivers something this is all that it has. |
| `ProgressiveBlocks.TokenizeInterval` | lib/jpegli/entropy_coding.cc:141-197 | The tokens of a restart interval of a first AC pass, with its runs of ends of bands: a run is sent before the next coefficient, when it reaches 0x7FFF, and at the end. |
| `ProgressiveBlocks.TokenizeBlock` | lib/jpegli/entropy_coding.cc:148-187 | One block: a run of ends of bands that is pending is sent before its first token, and its trailing zeros extend or begin one. |
| `ProgressiveBlocks.BandIsRead` | lib/jpegli/decode_scan.cc:211-244 | All coefficients of a band that are below 2048 come back without their lowest bits, up to the zeros at the end of the band. |
| `ProgressiveBlocks.Absorbed` | lib/jpegli/entropy_coding.cc:184-187 | A pending run goes on over exactly the blocks for which nothing is sent, and is then one token. |
| `ProgressiveBlocks.BlocksAreRead` | lib/jpegli/decode_scan.cc:177-244 | Round trip of a restart interval of a first AC pass: decoding its tokens gives every block its received coefficients, consumes exactly their bits, and leaves no run of ends of bands over. |
| `ProgressiveBlocks.ReceivedIsClose` | lib/jpegli/entropy_coding.cc:154-172 | What comes back has the sign of the coefficient and is short of its magnitude by less than the value of the bits left out. |
| `ProgressiveReader.DecodeBandBlock` | lib/jpegli/decode_scan.cc:177-244 | A block of a first AC pass, read through lookup tables and the bit window, is what its bits define, with the limits on sizes and positions and the run of ends of bands. |
| `ProgressiveReader.DecodeBandBlocks` | lib/jpegli/decode_scan.cc:177-244 | The same for the blocks of an interval, with the run carried from block to block. |
| `ProgressiveReader.DecodeWrittenInterval` | lib/jpegli/decode_scan.cc:177-244 | From the stuffed bytes of an interval of a first AC pass its blocks come back, and the reader stops at the padding. |
| `FirstPassScans.TokenizeFirstPass` | lib/jpegli/entropy_coding.cc:95-200 | The tokens of all restart intervals of a first AC pass, and the list of restarts with the index after each interval. |
| `FirstPassScans.CutIsPass` | lib/jpegli/bitstream.cc:318-362 | Cut at these restarts, the items are the bits of the intervals. |
| `FirstPassScans.EncodeFirstPass` | lib/jpegli/bitstream.cc:318-460 | From the blocks of a first AC pass to the application: exactly the bytes of its intervals, stuffed and separated by markers. |
| `RefinementTokenizer.TokenizeCoefficients` | lib/jpegli/entropy_coding.cc:240-282 | The coefficients of a block in a refinement pass: the tokens up to the last new coefficient are the ones of the specification, and the correction bits after it have no token yet. |
| `RefinementTokenizer.NextSymbol` | lib/jpegli/entropy_coding.cc:293-303 | The symbol of a run grows by one extra bit exactly where the test for powers of two says so, and its extra bits start again at 0. |
| `RefinementTokenizer.ExtendRun` | lib/jpegli/entropy_coding.cc:291-304 | Updating the token of a run in place, and taking back what was written after it, gives the token of the longer run with all its correction bits. |
| `RefinementTokenizer.TokenizeRefinementBlock` | lib/jpegli/entropy_coding.cc:240-309 | One block: its items, and what becomes of the open run, including new runs after 255 correction bits and after 0x7FFF blocks. |
| `RefinementTokenizer.TokenizeRefinementInterval` | lib/jpegli/entropy_coding.cc:229-313 | The three lists of a restart interval stand for the items of its blocks, although tokens are changed in place and taken back. |
| `RefinementBlocks.BeforeAndAfter` | lib/jpegli/decode_scan.cc:296-318 | A coefficient is zero before a pass if and only if its magnitude is at most 1 after it; a correction bit makes the value after the pass of any other one. |
| `RefinementBlocks.AllNewAreRead` | lib/jpegli/decode_scan.cc:268-320 | The codes of a block up to its last new coefficient are read back, with all correction bits before it and runs of more than fifteen zeros. |
| `RefinementBlocks.RunAbsorbs` | lib/jpegli/entropy_coding.cc:283-308 | A run goes on over exactly the blocks without new coefficients until it is full, and is one item with the correction bits of all of them. |
| `RefinementBlocks.BlocksAreRefined` | lib/jpegli/decode_scan.cc:246-344 | Round trip of a restart interval of a refinement pass: from the values of the pass before, decoding its items gives every block its next bit, consumes exactly their bits, and leaves no run over. |
| `RefinementReader.SkipToZero` | lib/jpegli/decode_scan.cc:294-313 | Over coefficients that are not zero, with their correction bits, to the zero after r others. |
| `RefinementReader.RefineSymbols` | lib/jpegli/decode_scan.cc:262-324 | The symbols of a block, read through lookup tables and the bit window, are what its bits define; a run of sixteen zeros at the end is rejected. |
| `RefinementReader.RefineBandBlock` | lib/jpegli/decode_scan.cc:246-344 | A block of a refinement pass, with the correction bits of a run of ends of bands. |
| `RefinementReader.RefineBandBlocks` | lib/jpegli/decode_scan.cc:246-344 | The same for the blocks of an interval, with the run carried from block to block. |
| `RefinementRoundTrip.ItemsAreWritten` | lib/jpegli/bitstream.cc:378-399 | What is written for a part of the three lists are the bits of its items. |
| `RefinementRoundTrip.TokenizeRefinementScan` | lib/jpegli/entropy_coding.cc:202-318 | All intervals of a refinement pass, with the list of restarts. |
| `RefinementRoundTrip.CutIsIntervals` | lib/jpegli/bitstream.cc:364-407 | Cut at these restarts, the scan has one segment for each interval, with the bits of its items. |
| `RefinementRoundTrip.EncodeRefinementScan` | lib/jpegli/bitstream.cc:364-460 | From the blocks of a refinement pass to the application: exactly the bytes of its intervals, stuffed and separated by markers. |
| `RefinementRoundTrip.RefineWrittenInterval` | lib/jpegli/decode_scan.cc:246-344 | From the stuffed bytes of an interval and the values of the pass before, the blocks come back with one more bit, and the reader stops at the padding. |
| `SuccessivePasses.FirstPassIsRead` | lib/jpegli/decode_scan.cc:177-244 | The first pass gives the values that leave out its bits. |
| `SuccessivePasses.NextPassIsRead` | lib/jpegli/decode_scan.cc:246-344 | Each further pass, from what the passes before have left, gives the values with one bit more. |
| `SuccessivePasses.AllPassesAreExact` | lib/jpegli/decode_scan.cc:177-344 | After the pass that leaves nothing out, the coefficients of the band are exact, and the others are as before. |
| `DcPasses.DcsAreRead` | lib/jpegli/entropy_coding.cc:78-93 | Round trip of a first DC pass: the shifted coefficients of all components come back from their differences. |
| `DcPasses.DecodeDcCoefficient` | lib/jpegli/decode_scan.cc:184-203 | The DC coefficient of a block of a first pass through the bit reader; it is rejected exactly if its bits define none or it does not fit 16 bits. |
| `DcPasses.DcsAreRefined` | lib/jpegli/decode_scan.cc:251-257 | Round trip of a DC refinement pass: or-ing its bit into each coefficient gives the value with one bit more. |
| `DcPasses.DcIsExact` | lib/jpegli/decode_scan.cc:251-257 | After the pass with shift 0 a DC coefficient is exact. |
| `SuspendedReading.StreamOfSegment` | lib/jpegli/decode_scan.cc:45-73 | The stream of a written segment starts with exactly the bits that were written. |
| `SuspendedReading.SymbolOfWord` | lib/jpegli/decode_scan.cc:119-133 | Where a code word was written, its symbol is read. |
| `SuspendedReading.ResumeContinues` | lib/jpegli/decode_scan.cc:469-473 | A new reader at the position and bit that FinishStream gave continues the stream, and can give its own bytes back. |
| `SuspendedReading.EarlyEndIsMarker` | lib/jpegli/decode_scan.cc:534-541 | A stream that ended too early, but not within the last two bytes, ended at a marker: what the assertions there state. |
| `SuspendedReading.SkipPartialByte` | lib/jpegli/decode_scan.cc:404-417 | The rest of a partly read byte is skipped together with its stuffing, which is there: what the assertions there state. |
| `SuspendedReading.InvalidWithMoreInput` | lib/jpegli/decode_scan.cc:523-531 | A code that is invalid when zeros stand for missing input is invalid with any further input. |
| `SuspendedReading.RunWithMoreInput` | lib/jpegli/decode_scan.cc:521-533 | Bits and symbols read up to a position before the last two bytes are the same when the input is longer, although the reader looked ahead past its end. |
| `BlockSymbols.NumBitsIsMaxOfSourceTerms` | lib/jpegli/entropy_coding-inl.h:53-69 | The modelled size computation is the maximum of the twelve terms. |
| `BlockSymbols.NumBitsIsBitLength` | lib/jpegli/entropy_coding-inl.h:53-69 | That maximum is the bit length if and only if the value is below 4096. |
| `BlockSymbols.ExtendUndoesExtraBits` | lib/jpegli/decode_scan.cc:165-174 | The decoder's extension of the extra bits gives back every non-zero coefficient. |
| `BlockSymbols.CompactBlock` | lib/jpegli/entropy_coding-inl.h:80-109 | The DC and the non-zero AC coefficients move to the front, in order, with 16 times their positions. |
| `BlockSymbols.ComputeSymbols` | lib/jpegli/entropy_coding-inl.h:111-129 | Symbols are 16 times the zero run plus the size; the block then holds the extra bits. |
| `BlockCoding.WriteAcSymbol` | lib/jpegli/bitstream.cc:290-304 | A run above 15 is sent as one to three ZRL codes before the symbol and its extra bits. |
| `BlockCoding.WriteBlock` | lib/jpegli/bitstream.cc:281-309 | The bits of a block: DC code, AC codes, and the end of block code if asked for; `healthy` is kept exactly if all codes exist. |
| `BlockDecoding.DecodeWord` | lib/jpegli/decode_scan.cc:119-133 | Decoding a code word finds its symbol, whatever follows. |
| `BlockDecoding.DecodeRun` | lib/jpegli/decode_scan.cc:211-230 | A symbol with a run of any length up to 63 reads back as its run and coefficient. |
| `BlockDecoding.EndOfBlock` | lib/jpegli/decode_scan.cc:231-239 | The end of block code ends the block. |
| `BlockRoundTrip.AcSymbol` | lib/jpegli/entropy_coding-inl.h:116-129 | The symbol of an AC position splits into the run of zeros before it and the size of its coefficient. |
| `BlockRoundTrip.DcSymbol` | lib/jpegli/entropy_coding-inl.h:116-129 | The DC symbol is the size of the difference, and the extra bits give it back. |
| `BlockRoundTrip.DecodeTail` | lib/jpegli/bitstream.cc:289-308 | From any coded position on, the rest of the block reads back, or is rejected exactly if a coefficient is too large. |
| `BlockRoundTrip.BlockRoundTrips` | lib/jpegli/bitstream.cc:281-309 | For coefficients below 4096 and whatever follows, decoding a written block as sections F.2.2.1 and F.2.2.2 of ITU-T T.81 read it gives the block back if all coefficients are below 2048 in magnitude, and is rejected otherwise. |
| `BlockRoundTrip.BlockRoundTripsIff` | lib/jpegli/bitstream.cc:281-309 | For all blocks: a written block is read back if and only if all its coefficients are below 2048 in magnitude. |
| `BlockRoundTrip.AcceptedIsSmall` | lib/jpegli/decode_scan.cc:177-244 | No block that the decoder accepts has a coefficient of 2048 or more. |
| `BlockRoundTrip.LargeDifferenceIsMisread` | lib/jpegli/entropy_coding-inl.h:53-69 | A DC difference of 4096 is written as 0, and read back as 0. |
| `BlockRoundTrip.EncodeBlock` | lib/jpegli/encode_streaming.cc:209-214 | For any coefficients the three steps of the encoder write exactly the bits of the block; `healthy` is kept exactly if all codes exist. |
| `MixedRadix.Advance` | lib/jpegli/color_quantize.cc:92-96 | The odometer step adds one to the number its digits denote. |
| `MixedRadix.DigitsUnique` | lib/jpegli/color_quantize.cc:86-97 | Each number has one digit string, so each combination is listed once. |
| `MixedRadix.ValueBelowProduct` | lib/jpegli/color_quantize.cc:101-109 | Digits below their radices denote a number below the product: an index into the colormap. |
| `LevelCounts.LargestEqualCount` | lib/jpegli/color_quantize.cc:58-61 | The largest equal number of levels whose power fits. |
| `LevelCounts.RaiseOnce` | lib/jpegli/color_quantize.cc:70-78 | One pass keeps the product exact and at most the desired number; if it changes nothing, no count can be raised; earlier components never fall behind later ones. |
| `LevelCounts.ChooseNumColors` | lib/jpegli/color_quantize.cc:57-82 | Growth ends; it fails exactly if two levels each do not fit; the product of the counts is at most the desired number, no single count can still be raised, and none is below the largest equal count; of three components green has at least as many levels as red, and red as blue. |
| `OnePassColors.RaisedProduct` | lib/jpegli/color_quantize.cc:73 | The division by the old count is exact, so the new total is the product with one more level. |
| `OnePassColors.LevelIndexBounds` | lib/jpegli/color_quantize.cc:106 | The truncating division puts the thresholds between levels at (510 j + 255) / (2 (N - 1)) + 1/2; the negative numerator of sample 0 at 256 levels gives level 0. |
| `OnePassColors.ChosenLevelIsClose` | lib/jpegli/color_quantize.cc:101-109 | 2 (N - 1) times the distance between sample and chosen level is at most 255 + 2 (N - 1). |
| `OnePassColors.ChosenLevelIsNearest` | lib/jpegli/color_quantize.cc:101-109 | No level is nearer to the sample by more than one. |
| `OnePassColors.ChosenLevelMissesIff` | lib/jpegli/color_quantize.cc:101-109 | The nearest level is chosen for all level counts and samples, except exactly those samples that lie half a unit above the midpoint of two neighbouring levels without exceeding the threshold between them. |
| `OnePassColors.NeighboursOfChosen` | lib/jpegli/color_quantize.cc:106 | The level below the chosen one is never nearer, and the next level is not below the sample. |
| `OnePassColors.ChosenLevelCanBeSecondNearest` | lib/jpegli/color_quantize.cc:106 | Such a sample: with two levels 128 is replaced by 0, although 255 is nearer. |
| `ColorQuantizer.ListColors` | lib/jpegli/color_quantize.cc:86-97 | The colormap holds each combination of levels at the place that its digits denote. |
| `ColorQuantizer.FillLut` | lib/jpegli/color_quantize.cc:101-109 | The lookup table holds each level index times the stride of its component, and all entries fit eight bits. |
| `ColorQuantizer.Quantizer.ChooseColorMap1Pass` | lib/jpegli/color_quantize.cc:54-110 | Succeeds exactly if two levels each fit into the smaller of the desired number and 256; then colormap and lookup table agree. |
| `ColorQuantizer.Quantizer.LookupByLevels` | lib/jpegli/color_quantize.cc:483-486 | The sum of the table entries is an index below the number of colours whose entry has the chosen level in every channel. |
| `InverseColors.CellBounds` | lib/jpegli/color_quantize.cc:420-444 | Every pixel of a cell is at least dmin and at most dmax away from a palette entry. |
| `InverseColors.BoundsAttained` | lib/jpegli/color_quantize.cc:411-444 | In each component some sample of the cell is as near as the near bound, and some as far as the far bound. |
| `InverseColors.DistIsWeighted` | lib/jpegli/color_quantize.cc:31 | The squared distances of the components count 4, 9, 1 and 1 times. |
| `InverseColors.MinBelowMax` | lib/jpegli/color_quantize.cc:420-444 | dmin is strictly below dmax, so the entry that gives the limit is itself kept. |
| `InverseColors.KeptIff` | lib/jpegli/color_quantize.cc:446-450 | An entry is kept if and only if its dmin is below every dmax. |
| `InverseColors.KeptIncreases` | lib/jpegli/color_quantize.cc:446-450 | The candidates are listed in the order of the palette. |
| `InverseColors.PruningKeepsNearest` | lib/jpegli/color_quantize.cc:408-451 | For every palette of 1 to 256 colours, every pixel and every entry, some candidate of the cell is at least as near. |
| `InverseColors.TieCanBePruned` | lib/jpegli/color_quantize.cc:446-450 | A nearest entry can be dropped if another one ties with it: only the distance is preserved. |
| `ColorQuantizer.FindCandidatesForCell` | lib/jpegli/color_quantize.cc:408-451 | The two passes compute the candidate list of a cell. |
| `ColorQuantizer.ListCandidates` | lib/jpegli/color_quantize.cc:460-475 | The list of every cell is stored at the place that the digits of the cell denote. |
| `ColorQuantizer.CandidatesExist` | lib/jpegli/color_quantize.cc:408-451 | No candidate list is empty. |
| `ColorQuantizer.Quantizer.CreateInverseColorMap` | lib/jpegli/color_quantize.cc:455-477 | All cells are filled and the palette is unchanged. |
| `ColorQuantizer.Quantizer.CellIndex` | lib/jpegli/color_quantize.cc:488-493 | The index computed from the last component on is the number of the cell of the pixel, with steps of 32, 16, 32 and 32 samples written out for one to four components. |
| `ColorQuantizer.Quantizer.LookupByCell` | lib/jpegli/color_quantize.cc:487-508 | No palette entry has a smaller distance than the one returned, with the distance written out: the squared differences 4, 9, 1 and 1 times; of the candidates that are nearest it is the first. |
| `ColorQuantizer.Quantizer.LookupColorIndex` | lib/jpegli/color_quantize.cc:479-511 | Both ways of lookup, by mode: the chosen level in every component, or an entry with the least 4 dr^2 + 9 dg^2 + db^2 (and a fourth square) of the palette; the index is always below the number of colours. |
| `RgbColors.DistanceIsSeparating` | lib/jpegli/color_quantize.cc:151-164 | The distance is symmetric and zero exactly for equal colours. |
| `RgbColors.DistanceByChannel` | lib/jpegli/color_quantize.cc:151-164 | What a difference d of one channel alone makes: d^2 and a 64th of (2d)^2 for red, (5d)^2 for green, d^2 for blue. |
| `RgbColors.ScaledMonotone` | lib/jpegli/color_quantize.cc:166-168 | The rounded square root of d / 4 (2r - 1 <= sqrt(d) < 2r + 1) is unique and monotone in d. |
| `RgbColors.GreyDistance` | lib/jpegli/color_quantize.cc:151-168 | Between two greys the scaled distance is the difference of their levels. |
| `RgbColors.PriorityMonotone` | lib/jpegli/color_quantize.cc:141-149 | With non-negative densities the priority lies in the bucket range and does not rise when the distance falls. |
| `RgbColors.PriorityOf` | lib/jpegli/color_quantize.cc:141-149 | The loop over the levels gives the sum of the terms. |
| `RgbColors.PriorityByRadius` | lib/jpegli/color_quantize.cc:141-149 | Outside all radii the priority is d n plus the three density terms, divided by 16 and at most 8191; inside all of them it is d n / 16. |
| `ColorGrid.InterlaceBitsRGB` | lib/jpegli/color_quantize.cc:121-136 | The loop interlaces the bits of the three components. |
| `ColorGrid.SameKeyIffSameCell` | lib/jpegli/color_quantize.cc:327-329 | Two colours have the same key on a level exactly if they lie in the same cell of 4, 8 or 16 values a side. |
| `ColorGrid.RadiusCoversCell` | lib/jpegli/color_quantize.cc:335-342 | The radius is at least the scaled distance to every colour of the cell. |
| `ColorGrid.ReachAttained` | lib/jpegli/color_quantize.cc:336-339 | In each channel some value of the cell is as far away as the radius assumes. |
| `ColorGrid.RadiusOf` | lib/jpegli/color_quantize.cc:336-341 | The radius from the larger distances to the ends of the cell in each channel. |
| `ColorGrid.RingIsDifference` | lib/jpegli/color_quantize.cc:347-351 | The difference of the histograms of two levels counts the pixels in the ring between the two cells: never negative. |
| `ColorGrid.FinestRing` | lib/jpegli/color_quantize.cc:344-346 | On the finest level it counts the other pixels of the cell. |
| `ColorGrid.CountCells` | lib/jpegli/color_quantize.cc:325-332 | The histograms hold the pixels of the colours off the palette for every key. |
| `ColorGrid.BuildDensityGrid` | lib/jpegli/color_quantize.cc:318-353 | Densities and radii of all colours off the palette, zero for the others. |
| `ColorIndex.BuildRGBColorIndex` | lib/jpegli/color_quantize.cc:230-261 | Each colour once, in order of appearance, with its exact number of pixels, in spite of the shortcut for repeated pixels. |
| `ColorIndex.PixelsAre` | lib/jpegli/color_quantize.cc:242-244 | The channels of pixel i are bytes 3i, 3i + 1 and 3i + 2, moved to the middle of four values. |
| `ColorIndex.FrequentAreFew` | lib/jpegli/color_quantize.cc:293-310 | The colours above the threshold are none or fewer than a quarter of the palette size. |
| `TwoPassQuantizer.SeedPalette` | lib/jpegli/color_quantize.cc:298-315 | The palette starts with the frequent colours in order, or with the first most frequent one; distances, clusters and flags are right. |
| `Palette.NearestIsMinimum` | lib/jpegli/color_quantize.cc:172-199 | The specified distance is the minimum over the palette: a lower bound that is attained. |
| `Palette.NearestZeroIff` | lib/jpegli/color_quantize.cc:188 | A colour is at distance 0 exactly if it is in the palette. |
| `Palette.AddToRGBPalette` | lib/jpegli/color_quantize.cc:172-199 | After an insertion dist is the minimum distance to the palette, cluster attains it, center lists the palette, and the error has changed by the change of the sum of dist times count. |
| `PaletteGrowth.TopIsGreedy` | lib/jpegli/color_quantize.cc:380-388 | A colour whose key in the top bucket is up to date has the largest current priority of all colours off the palette, although other keys are stale. |
| `PaletteGrowth.Requeue` | lib/jpegli/color_quantize.cc:383-384 | Moving a stale colour to its true bucket keeps every colour off the palette in exactly one bucket, with a key not below its priority. |
| `PaletteGrowth.Take` | lib/jpegli/color_quantize.cc:385-389 | So does taking a colour into the palette, as distances only fall. |
| `PaletteGrowth.FillQueue` | lib/jpegli/color_quantize.cc:361-371 | The queue starts with every colour off the palette at its priority, all keys up to date. |
| `PaletteGrowth.PopTop` | lib/jpegli/color_quantize.cc:380-392 | Each round takes a colour with the largest key, brings the key up to date or adds the colour to the palette, keeps all this and lowers the sum of key + 1 over the queue. |
| `PaletteGrowth.GrowPalette` | lib/jpegli/color_quantize.cc:373-393 | The loop ends; every colour it adds is a greedy choice; its rounds, each with the error of the palette at that time, lead from the seeds to the palette; it stops at a full palette, without colours, or as soon as the sum of what the errors of the rounds were below the threshold reaches ten times the threshold, and not before. |
| `PaletteGrowth.EarlyEndTakesTenRounds` | lib/jpegli/color_quantize.cc:374-379 | A palette that is neither full nor complete took at least ten rounds with an error below the threshold, counting the one that ended the loop. |
| `TwoPassQuantizer.GrowFromSeeds` | lib/jpegli/color_quantize.cc:288-393 | From the histogram to the palette: seeds, densities of the other colours, then greedy choices. |
| `TwoPassQuantizer.ChooseColorMap2Pass` | lib/jpegli/color_quantize.cc:265-404 | For every image and every palette size from 1 to 256: the colormap is the seeds followed by greedy choices among the image's colours, at most the palette size and at least one; it ends after exactly the rounds that the errors of the growing palette ask for; every entry is a pixel of the image up to 2 in each channel. |
| `TwoPassQuantizer.EntryIsSeen` | lib/jpegli/color_quantize.cc:241-258 | Every colour of the histogram is some pixel of the image, bytes 3i, 3i + 1 and 3i + 2, each up to 2. |
| `TwoPassQuantizer.PaletteWithoutRepeats` | lib/jpegli/color_quantize.cc:395-403 | No colour is in the colormap twice. |
| `FourSmallest.SortIsOrdered` | lib/jpegli/adaptive_quantization.cc:371-383 | The reference sort orders its values and keeps them all. |
| `FourSmallest.Sort4` | lib/jpegli/adaptive_quantization.cc:370-383 | Five comparators sort four values. |
| `FourSmallest.UpdateMin4` | lib/jpegli/adaptive_quantization.cc:385-394 | One more value keeps the four smallest of all values so far, in order. |
| `RowBuffers.SlotsDiffer` | lib/jpegli/common_internal.h:99-101 | Rows fewer than the ring length apart have different slots. |
| `RowBuffers.RowBuffer.CopyRow` | lib/jpegli/common_internal.h:118-121 | The destination slot takes the whole source row; the other slots stay. |
| `RowBuffers.PadRow` | lib/jpegli/common_internal.h:107-116 | The borders and the columns from the end of the data on repeat the nearest sample. |
| `AdaptiveQuantization.AccumulateRow` | lib/jpegli/adaptive_quantization.cc:451-473 | A row starts a new sum of differences or is added to it. |
| `AdaptiveField.PreErosionReads` | lib/jpegli/adaptive_quantization.cc:461-494 | What the pre-erosion reads of the image: the five arguments of the difference are the sample and its neighbours to the right, to the left, above and below, over four rows and four columns, with the first and the last row repeated. |
| `AdaptiveField.NineIsWindow` | lib/jpegli/adaptive_quantization.cc:417-426 | The erosion uses all nine values around a sample. |
| `AdaptiveQuantization.QuarterRow` | lib/jpegli/adaptive_quantization.cc:474-483 | Four rows give one padded row at a quarter of the resolution. |
| `AdaptiveQuantization.ComputePreErosion` | lib/jpegli/adaptive_quantization.cc:430-485 | A window of input rows gives the pre-erosion rows of the window, and the older rows that fit the ring stay. |
| `AdaptiveQuantization.ErodeAt` | lib/jpegli/adaptive_quantization.cc:412-426 | The weighted sum of the four smallest values of the 3x3 neighbourhood. |
| `AdaptiveQuantization.FuzzyErosion` | lib/jpegli/adaptive_quantization.cc:396-428 | Every row of blocks is the sum of its four eroded values. |
| `AdaptiveQuantization.BlockRowsTogether` | lib/jpegli/adaptive_quantization.cc:268-324 | The eight input rows of a block, which the modulations read one stride after the other, never wrap around in the ring. |
| `AdaptiveQuantization.PerBlockModulations` | lib/jpegli/adaptive_quantization.cc:327-360 | Every value of the map is modulated by its own block of input rows, which are all still in the ring. |
| `AdaptiveQuantization.RescaleRows` | lib/jpegli/adaptive_quantization.cc:561-568 | Every value x becomes 0.6 / x - 1, but at least 0. |
| `AdaptiveField.FieldSolves` | lib/jpegli/adaptive_quantization.cc:561-568 | The strength s of a block with modulated value x is never negative, x (s + 1) is 0.6 where x is at most 0.6, and s is 0 elsewhere. |
| `AdaptiveQuantization.RowGroups` | lib/jpegli/adaptive_quantization.cc:536-548 | The row groups partition the block rows; the first and last ones are recognised. |
| `AdaptiveQuantization.Compressor.ComputePreErosionRows` | lib/jpegli/adaptive_quantization.cc:524-556 | The window of one call: every row read is written, mirrored at the image edges and not yet overwritten, and the next call finds the two rows that it needs. |
| `AdaptiveQuantization.Compressor.ComputeAdaptiveQuantField` | lib/jpegli/adaptive_quantization.cc:519-567 | The rows of one iMCU row equal those of the whole-image computation. |
| `AdaptiveQuantization.Compressor.ProcessAllRows` | lib/jpegli/encode.cc:599-631 | For every image, all rows of the field produced call by call, with the input two iMCU rows ahead, equal the whole-image computation. |
| `AdaptiveQuantization.SmallerRingFails` | lib/jpegli/encode.cc:476 | With any ring of fewer than 2v + 2 rows there is an image for which, whatever the ring holds, one of the rows read for the first group is not the pre-erosion row. |
| `GaussianRecurrence.UnrolledIsFourSteps` | tools/gauss_blur.cc:501-524 | The expanded coefficients give, lane by lane, four steps of the recurrence. |
| `GaussianRecurrence.SingleIsStep` | tools/gauss_blur.cc:85-99 | With one sample in all lanes the lowest lane is one step, whatever the other lanes hold. |
| `HorizontalGaussian.SingleOutput` | tools/gauss_blur.cc:79-106 | One output near an end of the row, with zeros beyond it. |
| `HorizontalGaussian.FourOutputs` | tools/gauss_blur.cc:121-177 | Four outputs at once in the interior. |
| `HorizontalGaussian.FastGaussian1D` | tools/gauss_blur.cc:46-208 | For every row length and radius, every output is that of the scalar recurrence with zero padding, summed over the three terms. |
| `VerticalGaussian.TermRow` | tools/gauss_blur.cc:269-298 | One term of one row in a ring of four rows. |
| `VerticalGaussian.VerticalBlock` | tools/gauss_blur.cc:265-301 | One output row of a strip is that of the recurrence in every column. |
| `VerticalGaussian.VerticalStrip` | tools/gauss_blur.cc:303-374 | All rows of a strip, in four phases, equal the recurrence along its columns. |
| `VerticalGaussian.FastGaussianVertical` | tools/gauss_blur.cc:378-413 | Wide strips and single vectors together cover every column. |
| `VerticalGaussian.FastGaussian` | tools/gauss_blur.cc:548-558 | The two passes are the recurrence along every row, then along every column. |
| `Mirroring.Mirror` | lib/extras/image_ops.h:183-195 | Terminates for every coordinate and gives the closed-form reflection of period 2 * xsize. |
| `Mirroring.ReflectLow` | lib/extras/image_ops.h:188-189 | Reflecting at the lower edge keeps the result. |
| `Mirroring.ReflectHigh` | lib/extras/image_ops.h:190-191 | Reflecting at the upper edge keeps the result. |
| `Mirroring.BorderLutReflects` | lib/extras/convolve_separable5.cc:126-138 | The row table for images of 1 to 4 rows is the reflection. |
| `SlowConvolution.SlowSeparablePixel` | lib/extras/convolve_slow.cc:20-43 | The double loop is the sum over the mirrored window, for any radius. |
| `SlowConvolution.SlowSeparable` | lib/extras/convolve_slow.cc:45-73 | Every pixel of the rectangle. |
| `Separable5.HorzConvolveFirst` | lib/extras/convolve_separable5.cc:300-322 | The lane shuffles of the first vector are mirrored neighbours. |
| `Separable5.RightNeighbours` | lib/extras/convolve_separable5.cc:343-353 | The lane tables of the last vector are mirrored neighbours, with no or one sample after it. |
| `Separable5.HorzConvolve` | lib/extras/convolve_separable5.cc:363-382 | Inside a row no mirroring is needed. |
| `Separable5.TapsAreHorizontal` | lib/extras/convolve_separable5.cc:363-382 | The vector form is the sum over the five samples of a window row. |
| `Separable5.PixelIsWindow` | lib/extras/convolve_separable5.cc:229-239 | The vector form of a pixel is the sum over the 25 samples of its window. |
| `Separable5.WindowRows` | lib/extras/convolve_separable5.cc:117-157 | The five rows of a window are the mirrored rows, on border rows, interior rows and tiny images. |
| `Separable5.ConvolveRow` | lib/extras/convolve_separable5.cc:168-242 | First vector, main loop, last vector and tail together write every pixel of a row, for every width modulo N. |
| `Separable5.RunRows` | lib/extras/convolve_separable5.cc:246-265 | The rows of any rectangle are partitioned by their distance from the image borders, and each is convolved within the columns of the rectangle. |
| `Separable5.Separable5` | lib/extras/convolve_separable5.cc:80-109 | For every rectangle, every number of lanes from 4 on and every image: with fewer than N + 2 columns the reference form of the image, otherwise the reference form of the image cut down to the columns of the rectangle. |
| `Separable5.AgreesExactly` | lib/extras/convolve_separable5.cc:80-109 | It equals the reference form for all images and weights exactly if the rectangle is empty, has fewer than N + 2 columns, or is as wide as the image. |
| `Separable5.StripeDiffers` | lib/extras/convolve_separable5.cc:300-322 | On every other rectangle the image that is 1 in the column beside it and 0 elsewhere gives different results, as the fast code mirrors at the edge of the rectangle. |
| `MemoryTracking.AccountingStep` | tools/tracking_memory_manager.cc:31-120 | Every step of every thread keeps the counters exact and the caps respected, whatever addresses are freed. |
| `MemoryTracking.OwnershipKeptIff` | tools/tracking_memory_manager.cc:75-103 | Every block keeps its one owner in a step exactly if the step does not give back, for an address that was not in the map, a block that someone has. |
| `MemoryTracking.OwnedThroughoutIff` | tools/tracking_memory_manager.cc:31-120 | Over whole runs: each block has one owner in all states exactly if no step does so. |
| `MemoryTracking.MappedFreesAreSafe` | tools/tracking_memory_manager.cc:85-103 | A caller that frees mapped addresses only is safe. |
| `MemoryTracking.OtherFreesCanBreak` | tools/tracking_memory_manager.cc:85-103 | No other caller is: after the free of any other address a run can continue, with another idle thread, so that a block is given back that someone else has. |
| `MemoryTracking.DoubleFreeLeaks` | tools/tracking_memory_manager.cc:75-120 | A double free after which all threads are idle, one block is mapped, none is outstanding, and Reset reports a leak. |
| `MemoryTracking.CountersOverRuns` | tools/tracking_memory_manager.cc:31-120 | For every interleaving of any number of threads and any freed addresses: bytes in use are the mapped blocks, the overwritten entries and what the threads have in hand, never above a cap; only the first test of Reset can fail. |
| `MemoryTracking.AccountingOverRuns` | tools/tracking_memory_manager.cc:31-120 | If moreover no block is given back for an unmapped address: no entry is overwritten, and with all threads idle Reset succeeds exactly if no block is outstanding, and otherwise reports a leak. |
| `MemoryTracking.RecordIsNew` | tools/tracking_memory_manager.cc:62-64 | A new block is never in the map already. |
| `MemoryTracking.WrapTest` | tools/tracking_memory_manager.cc:40-50 | The comparison of a 64-bit sum with one operand detects exactly the sums that wrap. |
| `MemoryTracking.RefusedExactly` | tools/tracking_memory_manager.cc:40-52 | A reservation is refused exactly if the sum as an integer is above the cap, or does not fit 64 bits when there is no cap. |
| `MemoryTracking.ResetTests` | tools/tracking_memory_manager.cc:105-114 | The second and third test of Reset can never fail. |
| `MemoryTracking.TotalCapIsFinal` | tools/tracking_memory_manager.cc:40-47 | Once the total cap has been hit, no byte is granted until Reset, whatever is freed. |
| `MemoryTracking.TotalCapExhausts` | tools/tracking_memory_manager.cc:40-47 | This holds exactly if there is a total cap; without one, an overflow sets the total back to 0. |
| `TrackingManager.TrackingMemoryManager.ReserveBytes` | tools/tracking_memory_manager.cc:38-60 | The first section of Alloc takes the step of the protocol. |
| `TrackingManager.TrackingMemoryManager.RecordBlock` | tools/tracking_memory_manager.cc:62-64 | The section that enters a block. |
| `TrackingManager.TrackingMemoryManager.RollBack` | tools/tracking_memory_manager.cc:65-71 | The section that takes a reservation back. |
| `TrackingManager.TrackingMemoryManager.EraseBlock` | tools/tracking_memory_manager.cc:85-95 | The first section of Free finds and erases the entry; an unknown address leaves the map as it is. |
| `TrackingManager.TrackingMemoryManager.ReleaseBytes` | tools/tracking_memory_manager.cc:97-101 | The second section of Free. |
| `TrackingManager.TrackingMemoryManager.Alloc` | tools/tracking_memory_manager.cc:31-73 | A null result means, and means only, that the inner manager had no memory or that a sum, as an integer, is above its cap or does not fit 64 bits; it leaves the accounting as it was; otherwise the block is new and counted. |
| `TrackingManager.TrackingMemoryManager.Free` | tools/tracking_memory_manager.cc:75-103 | The accounting of a mapped block is undone, and every address but null goes to the inner manager; ownership is kept exactly if the address was mapped, null or not handed out. |
| `TrackingManager.TrackingMemoryManager.Reset` | tools/tracking_memory_manager.cc:105-120 | Fails exactly while something is counted, and then changes nothing. |
| `InputStitching.Decoder.Process` | lib/jpegli/decode.cc:313-342 | The window of each call is the unread input; what is consumed is dropped from the right buffer; after a marker the source holds all that is left, as the two assertions state. |
| `InputStitching.RecordedCall` | lib/jpegli/decode.cc:339-362 | Both assertions follow from this: a processor that needed more input than its window stops after a marker only at the end of that window or later. |
| `InputStitching.SkipThenRestartObeys` | lib/jpegli/decode.cc:339-362 | A processor that consumes its window, asks for more and later stops after two-byte restart markers keeps that contract. |
| `InputStitching.Decoder.Refill` | lib/jpegli/decode.cc:374-388 | Unread bytes are kept in front of the new buffer; if the source refuses, nothing is lost exactly if it holds all unread bytes. |
| `InputStitching.Decoder.PassRestart` | lib/jpegli/decode.cc:344-357 | The expected restart marker modulo 8 is passed over, any other ends the scan. |
| `InputStitching.Decoder.ParseMarker` | lib/jpegli/decode.cc:360-370 | A custom marker parser finds all unread bytes in the source; if it succeeds, even without reading a byte, the marker is handled. |
| `InputStitching.Decoder.Pass` | lib/jpegli/decode.cc:305-388 | One pass of the loop ends it, or uses up input, a refill or the unread marker; the source is asked exactly if the processor needed more input, the pass ends the loop then exactly if the source refuses or delivers nothing, and otherwise the bytes delivered are received. |
| `InputStitching.Decoder.HandleMarker` | lib/jpegli/decode.cc:343-370 | A restart marker is passed over if it is the expected one; a custom marker parser that succeeds leaves no unread marker; anything else ends the loop. |
| `InputStitching.Decoder.GetInput` | lib/jpegli/decode.cc:374-388 | The next answer of the source is taken: the loop goes on exactly if it delivers something, ends with Suspended if it refuses, and with the error for empty input if it delivers nothing. |
| `InputStitching.Decoder.ConsumeInput` | lib/jpegli/decode.cc:301-389 | For sources that refill and refuse as they like: the source is asked once for each call that needed more input; Suspended after such a call means that it just refused, the error for empty input that it just delivered nothing; between calls a marker is handled or input was needed; with a source that never refuses Suspended is the status of the last call or a failed marker parser; bytes are lost exactly if the source refuses while unread bytes are no longer in its buffer. |
| `InputStitching.SupplyIsKept` | lib/jpegli/decode.cc:374-388 | Nothing that the source delivers is passed over, and when it fails, all that it delivered before has been received. |
| `InputStitching.SupplyIsAllIff` | lib/jpegli/decode.cc:374-388 | A source supplies all that it has exactly if it delivers nothing more after it has refused or delivered nothing. |
| `InputStitching.EmptyDeliveryEnds` | lib/jpegli/decode.cc:384-386 | A source with an empty delivery first: the reading ends, although more bytes would follow. |
| `InputStitching.MixedSourceLosesInput` | lib/jpegli/decode.cc:374-383 | A source that refills once and then refuses: the first byte is lost. |
| `InputStitching.AdvancedIsStitched` | lib/jpegli/decode.cc:326-338 | After consumption the buffers hold exactly the rest. |
| `InputStitching.RefilledIsStitched` | lib/jpegli/decode.cc:374-388 | After a refill they hold the rest and the new bytes. |
| `InputStitching.FailedRefillKeepsInput` | lib/jpegli/decode.cc:379-383 | A failed refill keeps the input exactly if all unread bytes are in the source. |
| `IccBytes.Uint32RoundTrip` | lib/cms/jpegli_cms_internal.h:375-382 | Numbers below 2^32 are read back. |
| `IccBytes.WriteKeeps` | lib/cms/jpegli_cms_internal.h:375-382 | Writing at a position leaves every piece alone that it does not overlap. |
| `IccProfile.ProfileWriter.FinalizeICCTag` | lib/cms/jpegli_cms_internal.h:488-495 | The bodies are padded to a multiple of four and the current tag begins where the last one ended. |
| `IccProfile.ProfileWriter.AddToICCTagTable` | lib/cms/jpegli_cms_internal.h:478-486 | A table entry with signature, size and a place for the offset. |
| `IccProfile.ProfileWriter.AddTag` | lib/cms/jpegli_cms_internal.h:967-969 | A tag with a body of its own extends table and bodies consistently. |
| `IccProfile.ProfileWriter.AddSharedTag` | lib/cms/jpegli_cms_internal.h:1081-1083 | A curve that shares the body of the one before. |
| `IccReadBack.PatchOffset` | lib/cms/jpegli_cms_internal.h:1089-1092 | Filling in one offset disturbs nothing else. |
| `IccReadBack.FillOffsets` | lib/cms/jpegli_cms_internal.h:1087-1092 | All offsets are counted from the start of the profile. |
| `IccReadBack.FinishedIsReadable` | lib/cms/jpegli_cms_internal.h:1094-1099 | The total size, the tag count and every entry are read back, at 4-aligned offsets. |
| `IccReadBack.FinishedTiles` | lib/cms/jpegli_cms_internal.h:1089-1099 | The bodies tile the data in order; only the green and blue curves share a body. |
| `IccReadBack.MaybeCreateICCCICPTag` | lib/cms/jpegli_cms_internal.h:536-573 | The tag is written exactly for the combinations of primaries, white point and transfer function that have codes. |
| `IccReadBack.MaybeCreateProfile` | lib/cms/jpegli_cms_internal.h:930-1115 | A profile exists exactly for the supported encodings; reading its tag table as section 7.3 of ICC.1:2022 gives back every tag in order; byte by byte, the table lists the names of the tags twelve bytes apart, size and tag count are big-endian, and the cicp body is its name, four zeros and the codes. |
| `IccReadBack.ExpectedNames` | lib/cms/jpegli_cms_internal.h:398-402 | The signatures of the tags are their names, character by character, in the order in which the tags are added. |

## Left out

- InputStitching.Decoder.ConsumeInput: the processors and custom marker parsers are parameters with a contract, which the
  decoder for scans is proved to keep (StitchedScan); a custom `resync_to_restart`, the processor of markers and the changes of
  the decoder's global state are not part of the model.
- TrackingManager.TrackingMemoryManager.Alloc: runs its sections one after the other; interleavings are covered by
  MemoryTracking.AccountingOverRuns. The counters of allocations are unbounded.
- IccReadBack.MaybeCreateProfile: the contents of the header and of all tags but cicp, and the checksum, are parameters; failures of the
  colour computations and profiles of 2^32 bytes and more are not part of the model.
- AdaptiveQuantization.Compressor.ProcessAllRows: the per-pixel masks and the modulation of a value by the rows of its block
  are parameters; the field is read after each call, and the input rows come with their one-sample borders.
- BitWriter.JpegBitWriter.WriteBits: the capacity of the buffer behind `data` is not modelled; the buffer grows, and how often a
  scan empties it is not stated.
- BitWriter.JpegBitWriter.JumpToByteBoundary: the shift by 64, which happens only when nothing is pending, is skipped.
- Palette.AddToRGBPalette: the widths of `int` and `int64_t` are not modelled.
- ColorQuantizer.Quantizer.LookupColorIndex: dithering, and the colour rows that are looked up, are left out.
- BlockReader.DecodeDctBlock: sequential scans without point transform; coeffs is in zigzag order and zero at the call.
- BlockReader.ReadAcCoefficients: the band from 1 to 63; other bands and their runs are in ProgressiveReader and RefinementReader.
- ScanProcessing.ProcessScan: sequential scans; MCUs are counted and not placed in rows of coefficients, and predictions change
  only when an MCU is complete, whether or not the source saves them (its test on the size of an MCU).
- ScanDecoding.DecodeOneMcu: sequential MCUs.
- ScanDecoding.ReadBlocks: sequential blocks, all of them kept, also those outside the image.
- ProgressiveReader.DecodeBandBlocks: progressive scans are read back one restart interval at a time; the suspension of their
  decoding, and the saved state of its MCUs, are left out.
- RefinementTokenizer.TokenizeRefinementBlock: the capacities of the three lists are not modelled.
- DcPasses.DcsAreRead: the tokens of progressive DC scans as values; their arrays and restarts are those of Tokenizer and RefinementScans.
- Tokenizer.TokenizeScan: the MCUs are given in the order of the scan, with the blocks beyond the edges of the image; coefficients
  and their differences are assumed to fit 16 bits, also negated.
- ChunkedScan.DecodeChunks: an MCU within the last two bytes of the whole input is not delivered, as in the source.
- The choice of Huffman tables and quantization by the encoder, the DCT, colour conversion and upsampling.
- File formats, command lines, and the butteraugli and SSIMULACRA2 metrics.
- Rounding of floating-point numbers.
