# A verified model of the codecs and fast paths of MLVFS

MLVFS shows raw video recordings as folders of DNG files. On the way it decodes packed, lossless-JPEG and LZMA
frames, builds indexes and previews, and caches what it has rendered. This project models those byte-exact parts in
Dafny 4.11 and proves that they mean what they are for.

`dafny verify dfyconfig.toml` checks everything.

## What is proved

**LZMA** (`mlvfs/LZMA/LzmaEnc.c`, `LzmaDec.c`). Whatever legal parse of the data into literals, short repeats,
repeats and matches the optimiser chooses, the encoder object writes a stream from which the decoder object restores
exactly the data, with anything behind the stream, with or without an end mark: in one call into a buffer
(`LzmaCodec.CompressThenExpand`), through a circular dictionary buffer of any size from the dictionary size on, however
often it wraps (`CompressThenFill`), and over any sequence of calls with the input arriving and the output wanted in
pieces of any sizes (`LzmaBuffer.StreamInPieces`). It reports the end as it should and consumes exactly the stream.
Below that:

- the range coder with carries, as arithmetic on intervals (`RangeSpec`, `RangeEncoder`, `RangeDecoder`);
- the packets without arithmetic, as a machine of decision points that asks for bits (`LzmaPackets`), driven by the
  range decoder and one probability array (`LzmaRun`);
- state, distances, window and dictionary on both sides, in step after every packet (`LzmaStream`), and the nested
  loops around them (`LzmaLoop`, `LzmaRoundTrip`);
- input in pieces, with the bytes kept in `tempBuf` until they hold a packet (`LzmaParts`, `LzmaFeed`), and output
  through the circular buffer (`LzmaBuffer`);
- on arbitrary, also corrupt, input: no distance leaves the written dictionary, no byte beyond the input is read, not
  even by a packet that ends in an error (`LzmaFeed.FeedingOk`), one symbol takes at most 20 bytes (`LzmaBounds`), and
  the dry run tells the exact truth about the next symbol (`LzmaDummy`);
- the code as it runs, with its registers, arrays and loops, every array access in bounds: `LzmaEncoder`,
  `LzmaDecoder`, `LzmaTryDummy`.

**Lossless JPEG** (`mlvfs/lj92.c`). For every tile of up to 14 bits per pixel whose output buffer has a length in an
int, and for those of 15 bits that lack one of the 17 residual categories, what `lj92_encode` writes is decoded pixel by
pixel to the tile, whatever follows the file; `lj92_decode` reports success if and only if its prefetching reader is
still inside the data at the deciding guard, for which five bytes of slack are enough
(`Lj92RoundTrip.EncodeThenDecode`). Files of that format with 2^31 pixels or more are followed too: success then means
the first row only (`DecodeFile`). The meaning of a scan is given by the reference procedures of
ITU-T T.81 (`Lj92Model`); the fast reader, the lookup table and the predictor-6 path refine it (`Lj92Decoder`), and so
does the bit-by-bit build of the same file (`Lj92Reference`). The Huffman construction by chain merging is complete for
every histogram and every merge order that rounded weights can produce (`HuffmanTree`, `HuffmanCodes`, `Lj92Encoder`),
and no prefix code makes the whole shorter but for that rounding (`HuffmanOptimal`).

**Searchers, filters, checksums.** The binary-tree match finder as a splitting of search trees in place (`LzFind`);
the x86 filter, its inverse and its rule without masks (`Bra86`); CRC-32 by four-byte slices against the shift register,
and the register against polynomial division (`Crc`); Hoare's FIND (`Wirth`).

**Recordings.** Packed pixels (`Unpack`), the uncompressed GIF stream against an LZW decoder (`Gif`), the index with
its stable sort and the search for a frame's headers (`Index`), and the image-buffer cache over any run of calls
(`ImageBuffers`).

## How to read it

A method with loops and fields mirrors a C function; its contract equates the new state with a function of the old one,
and lemmas prove what that function means. `Rest` and `Verdict` in the LZMA decoders say what is still to be read: a
method that reads some bits keeps it. 32-bit wrap-around, unsigned subtraction and truncation are written out. Shifts
are defined by doubling and halving (`Bits`), and the few facts about quotients live in `Modular`. Automatic induction
is off in every lemma.

An encoder and its decoder could agree on a wrong format. What both rely on is therefore told once more without naming
it: `LzmaFormat` (literal coders, states, distances, contexts, the division of the interval and what it learns),
`Lj92Predictors` and `Lj92Format` (predictors, extra bits, the order of bits, stuffing), and lemmas such as
`Crc.GeneratorReversed`, `Bra86.SameTarget`, `Gif.ShadesAt` and `Index.FramesCounted` beside the functions concerned.

## Where the code does less than one may think

- `lj92_decode` can refuse a complete file: the guards test the prefetch position. The exact condition is part of
  `Lj92RoundTrip.DecodeFile`, with `OnePixelRefused` as an example.
- `lj92_decode` keeps the number of pixels in an int. From 2^31 pixels on it is negative, and the call reports success
  with only the first row written, or with nothing written for the other predictors (`DecodeFile`, `ParseGeneral`).
- The table of `createEncodeTable` has one code word more than symbols. Its slot holds value 0, so category 0, if it
  occurs, is written with the last code word (`CreateEncodeTable`). That is the one of all ones
  (`HuffmanCodes.LastCodeAllOnes`), which annex K.2 of T.81 reserves.
- The predictor-6 path and the general loop of `parseScan` differ for lines of one pixel with gaps (`SameSpots`).
- A 10-bit window read by `get_image_data` can miss the end of its last pixel; `WindowRead` says exactly when.
- A buffer found again in the cache is not marked in use, so it can be freed under its holder; `HeldFreed` says exactly
  when.
- A stream without end mark does not say where its data end; asked for more than the data, the decoder may go on into
  what follows. `LzmaDec.h` asks the caller to know the size, and so do the theorems.
- The byte count of `gif_get_size` is exact unless the number of pixels is 124 modulo 125; then it is larger
  (`SizeReckoned`).

## Model

| member | source | states |
|---|---|---|
| `RangeSpec.SplitBounds` | mlvfs/LZMA/LzmaDec.c:17-25 | for every probability between 31 and 2017 both halves of a normalised range are at least 2^16 wide, so one shift restores 2^24 |
| `RangeSpec.AfterAllShift` | mlvfs/LZMA/LzmaEnc.c:546-582 | narrowing by any string of decisions commutes with moving and rescaling the interval; this is what lets a decoder work relative to its own position |
| `RangeSpec.RelativeInside` | mlvfs/LZMA/LzmaEnc.c:546-582 | the interval of any continuation stays inside the interval it continues |
| `RangeEncoder.RangeEncoder.constructor` | mlvfs/LZMA/LzmaEnc.c:492-504 | a fresh encoder represents the interval [0, 2^32 - 1) with one cached zero byte |
| `RangeEncoder.RangeEncoder.WritePending` | mlvfs/LZMA/LzmaEnc.c:521-533 | the cached byte and the run of 0xFF behind it are written with the carry added |
| `RangeEncoder.RangeEncoder.ShiftLow` | mlvfs/LZMA/LzmaEnc.c:518-537 | written bytes, pending bytes and low together denote 256 times the number they denoted, and no later carry can leave the pending bytes |
| `RangeEncoder.HoldBack` | mlvfs/LZMA/LzmaEnc.c:518-537 | holding back one more 0xFF keeps the denoted number and the room for a carry |
| `RangeEncoder.Release` | mlvfs/LZMA/LzmaEnc.c:518-537 | releasing the pending bytes with the carry keeps the denoted number |
| `RangeEncoder.RangeEncoder.EncodeBit` | mlvfs/LZMA/LzmaEnc.c:561-582 | the registers represent exactly the interval of all decisions so far plus this one, and the probability moves a thirty-second of the way towards the bit coded, rounded |
| `RangeEncoder.RangeEncoder.EncodeDirectBits` | mlvfs/LZMA/LzmaEnc.c:546-559 | the same for the low bits of a value, most significant first, without a model |
| `RangeEncoder.RangeEncoder.FlushData` | mlvfs/LZMA/LzmaEnc.c:539-544 | the output is, as a big-endian number, the low end of the interval, in five bytes more than the shifts made |
| `LzmaFormat.Division` | mlvfs/LZMA/LzmaDec.c:17-25 | zero takes the lower part of the interval and one the rest; the lower part is the share the probability says, up to rounding, or half for a direct bit |
| `LzmaFormat.FreshEven` | mlvfs/LZMA/LzmaEnc.c:561-582 | a probability never used divides the interval evenly |
| `LzmaFormat.NeverNarrower` | mlvfs/LZMA/LzmaEnc.c:561-582 | for every interval, the bit just coded takes no smaller part under the probability it leaves behind than under the one before |
| `LzmaFormat.LearnedOnce` | mlvfs/LZMA/LzmaDec.c:19-21 | the learning law determines the new probability, and it stays inside 31 to 2017 |
| `RangeDecoder.DirectIsComparison` | mlvfs/LZMA/LzmaDec.c:322-344 | the branch-free subtraction with the sign bit is a comparison with the halved range |
| `RangeDecoder.ReadStep` | mlvfs/LZMA/LzmaDec.c:17-23 | a decoder whose input denotes the interval of a string of decisions returns its first decision and is left with input for the rest |
| `RangeDecoder.FlushedIsReadable` | mlvfs/LZMA/LzmaDec.c:679-684 | the first byte of any flushed output is 0, and the next four start a decoder that can read every decision, whatever follows the output |
| `RangeDecoder.DecodeAllReads` | mlvfs/LZMA/LzmaDec.c:17-25 | all decisions are read back, the code ends at 0 and exactly the denoted bytes have been consumed |
| `RangeDecoder.RangeCoderRoundTrip` | mlvfs/LZMA/LzmaEnc.c:539-582 | for every string of adaptive and direct bits and every continuation of the input: decoding the flushed output returns the bits, ends with code 0, and consumes exactly the output |
| `LzmaContexts.IndexInvertible` | mlvfs/LZMA/LzmaDec.c:92-110 | every context has a place of its own inside the one probability array of the decoder |
| `LzmaContexts.AgreeUpdate` | mlvfs/LZMA/LzmaDec.c:20-21 | adapting one context on both sides keeps encoder and decoder probabilities equal everywhere |
| `LzmaContexts.StepsConcat` | mlvfs/LZMA/LzmaEnc.c:561-582 | coding a string of symbols in two parts is coding it as a whole |
| `LzmaPackets.SlotCovers` | mlvfs/LZMA/LzmaEnc.c:1850-1854 | every distance lies in the block of distances its slot names |
| `LzmaPackets.TreeWalk` | mlvfs/LZMA/LzmaDec.c:27-45 | a bit tree written from the top is read back node by node |
| `LzmaPackets.MatchedWalk` | mlvfs/LZMA/LzmaDec.c:176-192 | the matched literal: both sides predict from the match byte until the same bit |
| `LzmaPackets.LenWalk` | mlvfs/LZMA/LzmaDec.c:258-292 | the length coder is undone by the length decoder for all lengths |
| `LzmaPackets.DistWalk` | mlvfs/LZMA/LzmaDec.c:294-361 | slot and footer of every 32-bit distance are undone, by special models, direct bits and align models |
| `LzmaPackets.PacketWalk` | mlvfs/LZMA/LzmaDec.c:153-361 | fed with the symbols of any packet the decoder asks for the same contexts in the same order and recovers the packet |
| `LzmaRun.NextOk` | mlvfs/LZMA/LzmaDec.c:153-361 | no variable of the decoding loop ever leaves its range and no 32-bit value overflows, on any bits |
| `LzmaRun.AskedInRange` | mlvfs/LZMA/LzmaDec.c:153-361 | every context asked for is inside the array, on any bits |
| `LzmaRun.RunFollows` | mlvfs/LZMA/LzmaDec.c:153-361 | any symbols the decoder walks along are decoded to the packet they lead to, with equal probabilities after it |
| `LzmaRun.PacketRoundTrip` | mlvfs/LZMA/LzmaEnc.c:1758-1873 | packet round trip through both layers: the packet, equal probabilities, and the input standing at the next packet |
| `LzmaBounds.RunCost` | mlvfs/LZMA/LzmaDec.c:131-412 | every byte read multiplies the range by 256 and every bit shrinks it by at most its charge |
| `LzmaBounds.CountsBound` | mlvfs/LZMA/LzmaDec.c:131-412 | a symbol takes at most 23 modelled bits, or 22 and 26 direct ones |
| `LzmaBounds.SymbolTakesAtMost20Bytes` | mlvfs/LZMA/LzmaDec.h:45-48 | one LZMA symbol with its trailing normalisation takes at most 20 bytes from any normalised state |
| `LzmaDummy.KeyGrows` | mlvfs/LZMA/LzmaDec.c:488-676 | no symbol asks for a context twice: a measure of the contexts grows strictly |
| `LzmaDummy.TryDummyExact` | mlvfs/LZMA/LzmaDec.c:488-676 | the dry run over frozen probabilities fails exactly if the real decoder with its trailing normalisation would read beyond the limit, and otherwise finds the same packet |
| `LzmaStream.DecEnvOk` | mlvfs/LZMA/LzmaDec.c:158-168 | state, position and previous byte always select an existing literal coder and position state |
| `LzmaStream.ApplyOk` | mlvfs/LZMA/LzmaDec.c:193-409 | on any input every distance in use stays inside the written part of the dictionary |
| `LzmaStream.SourceInside` | mlvfs/LZMA/LzmaDec.c:383-407 | the source of every copy lies inside the dictionary buffer, wrapped or not |
| `LzmaStream.HoldsCopy` | mlvfs/LZMA/LzmaDec.c:388-407 | copying inside the circular dictionary copies inside the window, also when source and target overlap |
| `LzmaStream.SameEnv` | mlvfs/LZMA/LzmaEnc.c:1787-1801 | encoder and decoder derive the same contexts from their own state (0-based against 1-based distances, wrapped positions) |
| `LzmaFormat.EncoderLiterals` | mlvfs/LZMA/LzmaEnc.c:1787-1801 | two literals of the encoder share their probabilities if and only if their positions agree modulo 2^lp and the bytes in front of them in their high lc bits; the first of all has coder 0 |
| `LzmaFormat.DecoderLiterals` | mlvfs/LZMA/LzmaDec.c:158-167 | the same for the decoder, over its position counter and the byte in front of its buffer position |
| `LzmaFormat.StateTells` | mlvfs/LZMA/LzmaEnc.c:454-457 | after any packets the state tells how many of the last three were literals, which kind of match stood in front of them, and what that followed |
| `LzmaFormat.RepsMoveToFront` | mlvfs/LZMA/LzmaEnc.c:1807-1866 | the distances are the last four in use, the latest first: a new one pushes out the oldest, a repeated one moves to the front |
| `LzmaFormat.SlotTrees` | mlvfs/LZMA/LzmaEnc.c:461-461 | lengths 2, 3 and 4 have slot trees of their own, all longer ones share one |
| `LzmaFormat.LiteralSymbols` | mlvfs/LZMA/LzmaEnc.c:584-608 | bit j of a literal, from the top, is coded in the context its higher bits lead to and, behind a match, as long as those agree with the match byte, in one that also knows bit j of that byte |
| `LzmaFormat.LengthSymbols` | mlvfs/LZMA/LzmaEnc.c:742-763 | three bits that know the position state for lengths 2 to 9 and 10 to 17, eight that do not for the others, each behind its choice bits |
| `LzmaFormat.DistanceSymbols` | mlvfs/LZMA/LzmaEnc.c:1847-1865 | a distance from 4 on goes out as six symbols for the place of its leading bit and the bit below, then its other bits: below 128 modelled and the lowest first, from there on as they are and the highest first, but for the last four, which are modelled and the lowest first |
| `LzmaStream.PacketInStep` | mlvfs/LZMA/LzmaDec.c:193-409 | after every packet states, repeat distances and window agree on both sides, with the rest of a match that did not fit remembered |
| `LzmaLoop.DecodeLoopOk` | mlvfs/LZMA/LzmaDec.c:131-426 | the packet loop keeps the dictionary invariant on any input |
| `LzmaLoop.WriteRemOk` | mlvfs/LZMA/LzmaDec.c:428-453 | finishing a cut-off match keeps the invariant and marks the dictionary full exactly when it is |
| `LzmaLoop.Decode2Ok` | mlvfs/LZMA/LzmaDec.c:455-478 | the outer loop keeps the invariant and never crosses the point where the dictionary fills up unnoticed |
| `LzmaLoop.Decode2Reads` | mlvfs/LZMA/LzmaDec.c:759-797 | under the guards of the caller every packet begun, one that turns out to be an error included, lies within the input, on any input |
| `LzmaLoop.TryDummyTells` | mlvfs/LZMA/LzmaDec.c:761-778 | the dry run succeeds if and only if the next packet needs no byte beyond the input |
| `LzmaLoop.OneTurnOk` | mlvfs/LZMA/LzmaDec.c:729-835 | on any input every turn keeps distances inside the dictionary and begins no packet that reaches beyond the input; it goes on with progress, or stops with the state kept, with an error, or asking for more input exactly when the next packet does not fit, and then fewer than 20 bytes are left |
| `LzmaLoop.SingleDecode` | mlvfs/LZMA/LzmaDec.c:826-829 | with the input limit at the reader exactly one packet is decoded |
| `LzmaParts.RunAlike` | mlvfs/LZMA/LzmaDec.c:131-412 | a packet depends only on the bytes it takes |
| `LzmaParts.Decode2InPart` | mlvfs/LZMA/LzmaDec.c:131-478 | decoding with all packets inside a part of the input is decoding on the whole |
| `LzmaRoundTrip.PacketStage` | mlvfs/LZMA/LzmaDec.c:153-411 | on a well-formed stream the next packet decoded is the next packet of the parse |
| `LzmaRoundTrip.MarkPacket` | mlvfs/LZMA/LzmaDec.c:354-359 | with all data written and an end mark pending, the next packet is the mark; it writes nothing, the code is 0 and the input is used up |
| `LzmaRoundTrip.StageMoved` | mlvfs/LZMA/LzmaDec.c:779-800 | a moment of a stream is a moment of what is left of it, wherever that stands in memory |
| `LzmaRoundTrip.MidTurn` | mlvfs/LZMA/LzmaDec.c:729-835 | a turn with something to write or a mark to read writes the next bytes of the data or reads the mark, from any part of the stream at hand; it asks for more input only if the stream reaches further |
| `LzmaRoundTrip.AtLimit` | mlvfs/LZMA/LzmaDec.c:749-768 | a turn at the output limit reports the end exactly as data, mark and mode determine |
| `LzmaFeed.ReadsMore` | mlvfs/LZMA/LzmaDec.c:805-834 | what is kept in tempBuf never holds a packet; a packet decoded from there takes more bytes than were kept, so the look-ahead given back is never more than was taken |
| `LzmaFeed.FeedingOk` | mlvfs/LZMA/LzmaDec.c:720-839 | on any input, corrupt or cut short, in whatever pieces: a call reads nothing beyond the input it was given, consumes no more of it, writes inside the buffer, keeps fewer than the 20 bytes tempBuf holds, and leaves a state for a further call |
| `LzmaFeed.StartFeed` | mlvfs/LZMA/LzmaDec.c:733-747 | the first five bytes of a stream, in whatever pieces, start the decoder at its first packet |
| `LzmaFeed.FeedStage` | mlvfs/LZMA/LzmaDec.c:729-838 | from any moment of a well-formed stream, with any piece of the input and any output limit: the loop writes the next bytes of the data as far as there is room, and reports the end exactly as room, mark and mode determine; or it runs out of input, has taken all of it and the stream reaches further. It fails only if asked for the end where data are missing, and otherwise ends where a later call can go on |
| `LzmaFeed.CallStage` | mlvfs/LZMA/LzmaDec.c:720-839 | the same for a whole call, with the rest of a match written first |
| `LzmaFeed.StreamRoundTrip` | mlvfs/LZMA/LzmaDec.c:720-839 | for every data, every legal parse of it, with or without end mark, whatever follows the stream, whatever the buffer held and whatever limit it is given: one call writes the data as far as the limit allows, reports the end accordingly, and with all data written consumes exactly the stream |
| `LzmaBuffer.ToBufOk` | mlvfs/LZMA/LzmaDec.c:841-879 | on any input the caller's buffer does not overflow and a further call may follow |
| `LzmaBuffer.WrappedOnStream` | mlvfs/LZMA/LzmaDec.c:850-851 | going back to the start of a full dictionary buffer loses nothing a later packet can refer to |
| `LzmaBuffer.InnerOnStream` | mlvfs/LZMA/LzmaDec.c:852-869 | the inner call writes the next piece of the data behind the buffer position |
| `LzmaBuffer.ToBufOnStream` | mlvfs/LZMA/LzmaDec.c:841-879 | from any point of a stream, also behind its end mark, and with any piece of the input: the caller's buffer gets exactly the next bytes of the data, however often the dictionary buffer wraps, with the right status, unless the input runs out; and a further call can go on |
| `LzmaBuffer.SessionOnStream` | mlvfs/LZMA/LzmaDec.c:841-879 | any sequence of calls, with input and output in any pieces, delivers the data in order: no more than the calls have room for, at least what those have room for that are made with the whole stream at hand; one fails only where it expects the end while data are missing |
| `LzmaBuffer.StreamInPieces` | mlvfs/LZMA/LzmaDec.c:841-879 | the same from a fresh decoder on, for every data and every legal parse, any dictionary buffer of at least the dictionary size and any contents of it: together the calls deliver exactly the data |
| `LzmaBuffer.StreamToBuf` | mlvfs/LZMA/LzmaDec.c:841-879 | the same for one call, with the status and the input consumed |
| `LzmaEncoder.SlotInBlock` | mlvfs/LZMA/LzmaEnc.c:118-132 | the distances between two slot starts have the lower slot |
| `LzmaEncoder.FastPosInit` | mlvfs/LZMA/LzmaEnc.c:118-132 | the table holds the slot of every distance below 8192 |
| `LzmaEncoder.LzmaEnc.GetPosSlot` | mlvfs/LZMA/LzmaEnc.c:134-144 | table and shift give the slot (twice the leading bit position plus the next bit) for every distance below 2^30 |
| `LzmaEncoder.LzmaEnc.constructor` | mlvfs/LZMA/LzmaEnc.c:1954-2010 | a fresh encoder has coded nothing and has all distances 0 |
| `LzmaEncoder.LzmaEnc.EncodeBit` | mlvfs/LZMA/LzmaEnc.c:561-582 | one symbol is appended; range coder and probabilities are those of all symbols coded so far |
| `LzmaEncoder.LzmaEnc.EncodeDirectBits` | mlvfs/LZMA/LzmaEnc.c:546-559 | the same for raw bits |
| `LzmaEncoder.LzmaEnc.TreeEncode` | mlvfs/LZMA/LzmaEnc.c:675-687 | appends the symbols of a bit tree, top bit first |
| `LzmaEncoder.LzmaEnc.ReverseEncode` | mlvfs/LZMA/LzmaEnc.c:689-700 | appends the symbols of a reversed tree, low bit first, over special or align models |
| `LzmaEncoder.LzmaEnc.LitEncode` | mlvfs/LZMA/LzmaEnc.c:584-593 | the shifted register of the literal coder names the nodes and bits of the literal tree |
| `LzmaEncoder.LzmaEnc.LitEncodeMatched` | mlvfs/LZMA/LzmaEnc.c:595-607 | the masked register predicts from the match byte until the first bit that differs |
| `LzmaEncoder.LzmaEnc.LenEncode` | mlvfs/LZMA/LzmaEnc.c:742-763 | appends the symbols of a length |
| `LzmaEncoder.LzmaEnc.DistEncode` | mlvfs/LZMA/LzmaEnc.c:1846-1864 | appends slot and footer of a distance |
| `LzmaEncoder.LzmaEnc.MoveToFront` | mlvfs/LZMA/LzmaEnc.c:1815-1831 | the repeated distance becomes the first and those before it move down |
| `LzmaEncoder.LzmaEnc.CodeLit` | mlvfs/LZMA/LzmaEnc.c:1788-1803 | appends a literal packet and moves the state on |
| `LzmaEncoder.LzmaEnc.CodeRep` | mlvfs/LZMA/LzmaEnc.c:1806-1839 | appends a repeated match or short repeat; state and distances are those after it |
| `LzmaEncoder.LzmaEnc.CodeMatch` | mlvfs/LZMA/LzmaEnc.c:1840-1872 | appends a match at a new distance; state and distances are those after it |
| `LzmaEncoder.LzmaEnc.Here` | mlvfs/LZMA/LzmaEnc.c:1787-1801 | the position state, literal coder and match byte at the current position |
| `LzmaEncoder.LzmaEnc.CodePacket` | mlvfs/LZMA/LzmaEnc.c:1787-1876 | one turn of the loop appends exactly the symbols of the chosen packet in the current contexts and advances by its length |
| `LzmaEncoder.LzmaEnc.WriteEndMarker` | mlvfs/LZMA/LzmaEnc.c:1606-1617 | appends exactly the symbols of a match of length 2 with distance 2^32 - 1 |
| `LzmaEncoder.EndMarkParts` | mlvfs/LZMA/LzmaEnc.c:1606-1617 | slot 63, 26 direct ones and the align mask are the symbols of that distance |
| `LzmaEncoder.LzmaEnc.Flush` | mlvfs/LZMA/LzmaEnc.c:1632-1641 | after the mark, if wanted, the output is the low end of the interval of everything coded |
| `LzmaEncoder.LzmaEnc.Encode` | mlvfs/LZMA/LzmaEnc.c:1742-1902 | for every legal parse of the data the object writes the flushed output of exactly the symbols of that parse |
| `LzmaTryDummy.DryReader.NormalizeCheck` | mlvfs/LZMA/LzmaDec.c:47-47 | refuses exactly when it would read at or beyond the limit |
| `LzmaTryDummy.DryReader.GetBitCheck` | mlvfs/LZMA/LzmaDec.c:49-55 | one modelled bit of the dry run, without adapting |
| `LzmaTryDummy.DryReader.GetDirectBitCheck` | mlvfs/LZMA/LzmaDec.c:651-658 | one direct bit of the dry run in 32-bit arithmetic |
| `LzmaTryDummy.DryReader.TreeCheck` | mlvfs/LZMA/LzmaDec.c:56-57 | a bit tree of the dry run |
| `LzmaTryDummy.DryReader.MatchedCheck` | mlvfs/LZMA/LzmaDec.c:523-536 | the matched literal of the dry run |
| `LzmaTryDummy.DryReader.LenCheck` | mlvfs/LZMA/LzmaDec.c:598-629 | the length of the dry run |
| `LzmaTryDummy.DryReader.ReverseCheck` | mlvfs/LZMA/LzmaDec.c:662-669 | the reversed bits, by special or align models alike |
| `LzmaTryDummy.DryReader.DistCheck` | mlvfs/LZMA/LzmaDec.c:631-671 | slot and footer of the dry run |
| `LzmaTryDummy.DryReader.WhichRepCheck` | mlvfs/LZMA/LzmaDec.c:557-596 | the choice among the last distances, with the short form |
| `LzmaTryDummy.DryReader.SymbolCheck` | mlvfs/LZMA/LzmaDec.c:488-676 | the whole dry run: its verdict and classification are those of LzmaDummy.DryRun |
| `LzmaDecoder.LzmaDec.constructor` | mlvfs/LZMA/LzmaDec.c:686-718 | a fresh decoder waits for its first five bytes |
| `LzmaDecoder.LzmaDec.InitRc` | mlvfs/LZMA/LzmaDec.c:679-684 | range and code from five bytes |
| `LzmaDecoder.LzmaDec.NormalizeRc` | mlvfs/LZMA/LzmaDec.c:17-17 | the lazy normalisation; the byte it takes exists |
| `LzmaDecoder.LzmaDec.GetBit` | mlvfs/LZMA/LzmaDec.c:19-23 | one modelled bit from the probability array; the cell moves a thirty-second of the way towards the bit read, rounded, and no other changes |
| `LzmaDecoder.LzmaDec.GetDirectBit` | mlvfs/LZMA/LzmaDec.c:325-334 | one direct bit |
| `LzmaDecoder.LzmaDec.TreeDecode` | mlvfs/LZMA/LzmaDec.c:27-45 | reads a bit tree; what remains to be read of the packet is unchanged |
| `LzmaDecoder.LzmaDec.LitMatched` | mlvfs/LZMA/LzmaDec.c:178-191 | reads a literal predicted from the match byte |
| `LzmaDecoder.LzmaDec.LenDecode` | mlvfs/LZMA/LzmaDec.c:261-292 | reads a length |
| `LzmaDecoder.LzmaDec.SpecDecode` | mlvfs/LZMA/LzmaDec.c:305-319 | reads the low bits of a distance by the models of its slot |
| `LzmaDecoder.LzmaDec.FarDecode` | mlvfs/LZMA/LzmaDec.c:320-353 | reads the direct and the align bits of a distance |
| `LzmaDecoder.LzmaDec.DistDecode` | mlvfs/LZMA/LzmaDec.c:296-361 | reads a distance |
| `LzmaDecoder.LzmaDec.WhichRep` | mlvfs/LZMA/LzmaDec.c:212-254 | reads which of the last distances is repeated |
| `LzmaDecoder.LzmaDec.MoveToFront` | mlvfs/LZMA/LzmaDec.c:230-257 | the repeated distance becomes the first |
| `LzmaDecoder.LzmaDec.CopyOne` | mlvfs/LZMA/LzmaDec.c:217-225 | one byte from the last distance |
| `LzmaDecoder.LzmaDec.CopyMatch` | mlvfs/LZMA/LzmaDec.c:376-408 | a match is written as far as the limit allows and its rest is remembered |
| `LzmaDecoder.LzmaDec.CopyStraight` | mlvfs/LZMA/LzmaDec.c:388-397 | the pointer loop, for a source that does not wrap, copies byte by byte from rep0 back |
| `LzmaDecoder.LzmaDec.CopyAround` | mlvfs/LZMA/LzmaDec.c:398-407 | the wrapping loop does the same through the end of the buffer |
| `LzmaDecoder.LzmaDec.DecodeLiteral` | mlvfs/LZMA/LzmaDec.c:161-196 | the literal branch: byte, state, dictionary and position |
| `LzmaDecoder.LzmaDec.DecodeRep` | mlvfs/LZMA/LzmaDec.c:207-292 | the branch of repeated distances |
| `LzmaDecoder.LzmaDec.DecodeMatch` | mlvfs/LZMA/LzmaDec.c:294-408 | the branch of a new distance: end mark, distance out of reach, or copy |
| `LzmaDecoder.LzmaDec.DecodeOne` | mlvfs/LZMA/LzmaDec.c:154-409 | one turn of the loop changes the fields exactly as the packet the bits denote demands, or fails exactly when that packet does |
| `LzmaDecoder.LzmaDec.DecodePackets` | mlvfs/LZMA/LzmaDec.c:153-411 | the packet loop: first packet always, later ones while output and input allow |
| `LzmaDecoder.LzmaDec.DecodeReal` | mlvfs/LZMA/LzmaDec.c:131-426 | the loop on local copies, written back and normalised behind it; after an error the fields are as before, but the dictionary holds what was written |
| `LzmaDecoder.LzmaDec.WriteRemainder` | mlvfs/LZMA/LzmaDec.c:428-453 | the rest of a match cut off at an earlier limit |
| `LzmaDecoder.LzmaDec.DecodeReal2` | mlvfs/LZMA/LzmaDec.c:455-478 | rounds up to the point where the dictionary fills up, and the end state |
| `LzmaDecoder.LzmaDec.TryDummySymbol` | mlvfs/LZMA/LzmaDec.c:488-676 | the classification of the next symbol, or an error exactly when the input does not hold it |
| `LzmaDecoder.LzmaDec.FillTemp` | mlvfs/LZMA/LzmaDec.c:807-810 | bytes of the input are appended to tempBuf until it holds as many as wanted |
| `LzmaDecoder.LzmaDec.StartRc` | mlvfs/LZMA/LzmaDec.c:733-747 | the first five bytes are collected, checked and start the range decoder |
| `LzmaDecoder.LzmaDec.DecodeDirect` | mlvfs/LZMA/LzmaDec.c:773-804 | the turn on input in the caller's memory: dry run where little is left, kept bytes, or decoding |
| `LzmaDecoder.LzmaDec.DecodeKept` | mlvfs/LZMA/LzmaDec.c:805-834 | the turn on kept input: filled up, dry run, one packet, and what it did not take given back |
| `LzmaDecoder.LzmaDec.NextTurn` | mlvfs/LZMA/LzmaDec.c:729-835 | the body of the loop is one turn as specified |
| `LzmaDecoder.LzmaDec.DecodeToDic` | mlvfs/LZMA/LzmaDec.c:720-839 | result, status, input consumed, kept bytes and all fields after a call, for any piece of input, any output limit and both finish modes; after an error all fields but the probabilities and kept bytes |
| `LzmaDecoder.LzmaDec.NextPiece` | mlvfs/LZMA/LzmaDec.c:850-869 | the wrap of the buffer position, the limit and mode of the inner call, and the piece it has written |
| `LzmaDecoder.LzmaDec.DecodeToBuf` | mlvfs/LZMA/LzmaDec.c:841-879 | result, status, lengths, bytes and fields are those of the loop around the inner call, for any piece of input, and the rest of the caller's buffer is untouched |
| `LzmaCodec.LzmaDecode` | mlvfs/LZMA/LzmaDec.c:970-993 | the one-call interface: too little input, a bad first byte, an error, a stream cut short, or the result of the loop, with both lengths in every case |
| `LzmaCodec.CompressThenExpand` | mlvfs/LZMA/LzmaEnc.c:1742-1902 | encoder object then decoder object: the buffer holds exactly the data as far as it has room, and status and bytes consumed fit |
| `LzmaCodec.CompressThenFill` | mlvfs/LZMA/LzmaDec.c:841-879 | encoder object then decoder object through a dictionary buffer that need only be as large as the dictionary and wraps as often as the data are longer: the caller's buffer gets exactly the data as far as it has room, and status and bytes consumed fit |
| `HuffmanTree.Least` | mlvfs/lj92.c:811-818 | the last of the smallest positive weights |
| `HuffmanTree.NextLeast` | mlvfs/lj92.c:822-830 | the first of the smallest positive weights but one |
| `HuffmanTree.Deepen` | mlvfs/lj92.c:836-846 | every leaf of one chain, and no other, gets one bit longer |
| `HuffmanTree.Merge` | mlvfs/lj92.c:833-847 | merging two chains, however their sum is rounded, keeps every leaf in exactly one chain, every chain a complete code, and every weight below the 3 the search starts from |
| `HuffmanTree.CodeLengths` | mlvfs/lj92.c:793-847 | for arbitrary positive weights of 1 to 16 categories and the spare leaf, and any rounding of their sums within a hundredth, merging ends with lengths 1 to 16 for exactly the used leaves and a full Kraft sum; if every sum is within a factor low to up of the exact one, no code for these leaves, of whatever lengths, makes the whole shorter by more than (low / up)^merges |
| `HuffmanTree.LeastTotal` | mlvfs/lj92.c:810-847 | if sums are exact, no prefix code for the used leaves makes the whole shorter, and the lengths found are one |
| `HuffmanOptimal.Brothers` | mlvfs/lj92.c:811-830 | any code that fits can be changed, without making the whole longer, so that the two lightest leaves have code words of equal length |
| `HuffmanOptimal.MergeIsRight` | mlvfs/lj92.c:833-847 | any code for the leaves gives one for what they are after merging the two lightest, shorter by their weights, but for the rounding of the sum |
| `HuffmanCodes.CompleteFrom` | mlvfs/lj92.c:848-854 | the counts per length of such lengths make a complete table |
| `HuffmanCodes.CodeUnique` | mlvfs/lj92.c:885-920 | the code words are prefix-free |
| `HuffmanCodes.CodeFits` | mlvfs/lj92.c:885-920 | a code word has no more bits than its length |
| `HuffmanCodes.FollowedCode` | mlvfs/lj92.c:239-270 | whatever bits follow a code word, that code word is found |
| `HuffmanCodes.LastCodeAllOnes` | mlvfs/lj92.c:885-920 | the last code word is all ones |
| `Lj92Model.ResidualRoundTrip` | mlvfs/lj92.c:1019-1035 | category and extra bits determine the residual, for every residual |
| `Lj92Predictors.ExtraBits` | mlvfs/lj92.c:1020-1035 | the category counts the bits of the absolute value; the extra bits are a positive residual itself, and for a negative one the complement of its absolute value, so that they begin with a zero exactly there |
| `Lj92Model.CategoryBound` | mlvfs/lj92.c:753-764 | pixels of up to 15 bits have residual categories of at most one more |
| `Lj92Model.SpotClosed` | mlvfs/lj92.c:482-501 | pixel k lies at k + skip * (k / len) |
| `Lj92Model.CodeFound` | mlvfs/lj92.c:370-377 | a code word in the scan is found whatever follows it |
| `Lj92Model.DiffFound` | mlvfs/lj92.c:344-406 | the residual of a pixel is read back |
| `Lj92Model.ScanRestores` | mlvfs/lj92.c:408-510 | a scan that begins with the bits of an image decodes, by the reference procedures, to its pixels, whatever follows |
| `Lj92Encoder.Walker.Predicted` | mlvfs/lj92.c:748-763 | the row buffers give predictor 6 of the tile |
| `Lj92Encoder.Walker.Next` | mlvfs/lj92.c:748-777 | the walk over tile, lines and gaps delivers the residual of every pixel in raster order |
| `Lj92Encoder.FrequencyScan` | mlvfs/lj92.c:733-786 | the histogram counts every residual category of the tile |
| `Lj92Encoder.Frequencies` | mlvfs/lj92.c:793-805 | the weights, rounded in any way within a hundredth, are positive exactly for occurring categories and the spare leaf, and add up to no more than 2.02 |
| `Lj92Encoder.CountLengths` | mlvfs/lj92.c:848-854 | bits[l] is the number of code words of length l |
| `Lj92Encoder.SortByLength` | mlvfs/lj92.c:860-874 | the values in order of code length, each used category listed |
| `Lj92Encoder.MaxBits` | mlvfs/lj92.c:880-884 | the longest length in use |
| `Lj92Encoder.CodeWords` | mlvfs/lj92.c:885-920 | the walk over the code space produces the canonical code words |
| `Lj92Encoder.SymbolNumbers` | mlvfs/lj92.c:921-931 | every value is assigned the last code word that stands for it |
| `Lj92Encoder.CreateEncodeTable` | mlvfs/lj92.c:788-937 | for every histogram of at most 16 categories and any rounding: complete code, lengths up to 16, one code word for each occurring category and one to spare, every occurring category stood for by its code word; category 0, if it occurs, is moved to the last code word |
| `Lj92Encoder.FewKinds` | mlvfs/lj92.c:753-764 | no more than 16 of the 17 categories occur in a tile of up to 14 bits per pixel, or in one of 15 bits that lacks one |
| `Lj92Encoder.Lje.WriteHeader` | mlvfs/lj92.c:939-977 | the bytes of the frame, table and scan headers |
| `Lj92Encoder.Lje.PutBits` | mlvfs/lj92.c:1037-1069 | a field of n bits is appended to the stuffed output, across bytes |
| `Lj92Encoder.Lje.FlushBits` | mlvfs/lj92.c:1084-1088 | the last byte is filled up with zeros and stuffed |
| `Lj92Encoder.Lje.WriteBody` | mlvfs/lj92.c:986-1099 | the stuffed bytes hold the code word and extra bits of every pixel, then less than a byte of zeros |
| `Lj92Encoder.Encode` | mlvfs/lj92.c:1104-1144 | a tile is refused exactly if the length of its output buffer is no int; otherwise the file is header, stuffed scan of the tile, and end marker |
| `Lj92Decoder.Ljp.Find` | mlvfs/lj92.c:82-92 | the byte behind the next 0xFF, or -1 |
| `Lj92Decoder.Ljp.ParseHuff` | mlvfs/lj92.c:96-274 | success exactly if the segment ends before the data; the byte at the counts is overwritten with zero; a complete table is understood |
| `Lj92Decoder.Ljp.FillLut` | mlvfs/lj92.c:239-270 | every index of the table leads to the code word it begins with, and its value |
| `Lj92Decoder.LutFinds` | mlvfs/lj92.c:225-271 | the lookup gives the same symbol and length as the canonical code |
| `Lj92Decoder.Ljp.ParseSof3` | mlvfs/lj92.c:276-283 | size and depth from the frame header, or an error at the end of the data |
| `Lj92Decoder.Ljp.ParseBlock` | mlvfs/lj92.c:285-289 | an unknown segment is skipped |
| `Lj92Decoder.Ljp.ParseImage` | mlvfs/lj92.c:595-619 | a file with the segments of the encoder is understood |
| `Lj92Decoder.Ljp.OpenFile` | mlvfs/lj92.c:650-687 | size, depth and table are those of the headers |
| `Lj92Decoder.Ljp.Refill` | mlvfs/lj92.c:356-369 | 16 or 8 bits at a time, with the byte behind 0xFF skipped: the buffer holds the next bits of the scan, at most 31 |
| `Lj92Decoder.BufferBound` | mlvfs/lj92.c:351-399 | the bit buffer never exceeds its count |
| `Lj92Decoder.Ljp.Lookup` | mlvfs/lj92.c:370-377 | the code word at the front is found and removed |
| `Lj92Decoder.Ljp.Receive` | mlvfs/lj92.c:378-398 | the extra bits are received and extended |
| `Lj92Decoder.Ljp.NextDiff` | mlvfs/lj92.c:344-406 | the prefetching reader delivers exactly the residual of the reference procedures and consumes the same bits |
| `Lj92Decoder.Ljp.PutPixel` | mlvfs/lj92.c:486-502 | prediction plus residual goes to its spot; the row buffers hold the rows |
| `Lj92Decoder.Ljp.ParsePred6` | mlvfs/lj92.c:408-510 | every pixel written is the one the reference procedures define for predictor 6, at its spot; success if and only if the reader is inside the data at the deciding guard, and it means all pixels, or the first row where the number of pixels is negative as an int |
| `Lj92Decoder.Ljp.Prediction` | mlvfs/lj92.c:538-563 | the switch computes the prediction of the standard in every row and column |
| `Lj92Decoder.Ljp.ParseGeneral` | mlvfs/lj92.c:520-588 | the same for the other predictors, with the exact condition of success; with a negative number of pixels nothing is written and success reported |
| `Lj92Predictors.ScanComposed` | mlvfs/lj92.c:537-588 | every pixel of a scan is its prediction plus its residual, for every predictor |
| `Lj92Predictors.Edges` | mlvfs/lj92.c:538-543 | on the edge all predictors agree: half the range first, then the pixel to the left, and in the first column the pixel above |
| `Lj92Predictors.Inside` | mlvfs/lj92.c:544-562 | behind the edge, for each predictor: which neighbour is repeated, which one is corrected by half of which difference, or that the mean is taken, as inequalities on twice the prediction |
| `Lj92Predictors.RowsRepeat` | mlvfs/lj92.c:548-549 | without residuals behind the edge, predictor 1 repeats the first pixel of each row |
| `Lj92Predictors.ColumnsRepeat` | mlvfs/lj92.c:550-551 | predictor 2 repeats the first pixel of each column |
| `Lj92Predictors.DiagonalsRepeat` | mlvfs/lj92.c:552-553 | predictor 3 repeats the first pixel of each diagonal |
| `Lj92Predictors.EdgesAddUp` | mlvfs/lj92.c:554-555 | predictor 4 gives px[r][0] + px[0][c] - px[0][0] |
| `Lj92Decoder.Ljp.ParseScan` | mlvfs/lj92.c:512-593 | predictor 6 takes the fast path, predictors above 7 are refused |
| `Lj92Decoder.Ljp.Decode` | mlvfs/lj92.c:689-702 | the target shows the pixels of the scan |
| `Lj92RoundTrip.FileHeaded` | mlvfs/lj92.c:595-619 | every file of the encoder has the headers the decoder looks for |
| `Lj92RoundTrip.FileScanned` | mlvfs/lj92.c:408-510 | the scan of every file of the encoder is the image |
| `Lj92Format.FieldBit` | mlvfs/lj92.c:1037-1069 | a field goes out with its most significant bit first |
| `Lj92Format.ScanBit` | mlvfs/lj92.c:1037-1069 | every data byte holds eight bits of the scan, the first of them on top |
| `Lj92Format.StuffedHidesMarkers` | mlvfs/lj92.c:1063-1068 | behind every 0xFF of stuffed data stands a zero, and dropping those zeros gives the data back |
| `Lj92Format.OneMarkerLeft` | mlvfs/lj92.c:979-984 | in every file of the encoder the first marker behind the headers is the one that ends the image |
| `Lj92RoundTrip.ReachedBound` | mlvfs/lj92.c:356-390 | the prefetch never gets further than six bytes behind the scan |
| `Lj92RoundTrip.DecodeFile` | mlvfs/lj92.c:650-702 | every pixel decoded equals the source pixel whatever follows the file; success if and only if the prefetch position is inside datalen at the deciding guard, for which five bytes of slack suffice; success means all pixels if and only if there are fewer than 2^31 or one row |
| `Lj92RoundTrip.EncodeThenDecode` | mlvfs/lj92.c:1104-1144 | encoder then decoder on every tile that is not refused: every pixel written is the pixel of the tile; decoding succeeds, with all of them, if and only if the prefetch stays inside the slack, and with five bytes it always does |
| `Lj92RoundTrip.OnePixelFile` | mlvfs/lj92.c:885-1099 | for a single pixel of 128 the encoder has two code words and writes the scan 0x80 |
| `Lj92RoundTrip.OnePixelRefused` | mlvfs/lj92.c:436-442 | without slack the decoder reports the file that the encoder writes for that pixel as corrupt, after restoring the pixel |
| `Lj92RoundTrip.SameSpots` | mlvfs/lj92.c:443-460 | fast path and general loop place pixels alike if and only if lines are not of one pixel with gaps |
| `Lj92Reference.Sizes` | mlvfs/lj92.c:130-147 | HUFFSIZE, section C.2 of T.81 |
| `Lj92Reference.CodesInOrder` | mlvfs/lj92.c:167-186 | HUFFCODE produces the canonical code words |
| `Lj92Reference.DecodingTables` | mlvfs/lj92.c:188-218 | MINCODE, MAXCODE and VALPTR describe every length |
| `Lj92Reference.SlowLjp.NextBit` | mlvfs/lj92.c:292-309 | the next bit of the scan with stuffing removed |
| `Lj92Reference.SlowLjp.Decode` | mlvfs/lj92.c:311-322 | DECODE returns the value of the code word at the position, bit by bit |
| `Lj92Reference.SlowLjp.Receive` | mlvfs/lj92.c:324-332 | RECEIVE |
| `Lj92Reference.SlowLjp.NextDiff` | mlvfs/lj92.c:344-349 | the reference residual is the one the fast reader delivers, at every position |
| `LzFind.Extend` | mlvfs/LZMA/LzFind.c:371-377 | the comparison loop finds the length of the common prefix up to the limit |
| `LzFind.GetMatchesSpec1` | mlvfs/LZMA/LzFind.c:353-406 | the son cells are rewired as specified and the matches of the search are appended |
| `LzFind.SkipMatchesSpec` | mlvfs/LZMA/LzFind.c:408-456 | the son cells end up exactly as after GetMatchesSpec1 |
| `LzFind.RewireSplits` | mlvfs/LZMA/LzFind.c:353-406 | rewiring splits the tree, in place, into the strings below and above the current one |
| `LzFind.FoundMatches` | mlvfs/LZMA/LzFind.c:372-388 | every reported pair is a true match and lengths increase strictly above the initial one |
| `LzFind.FoundLongest` | mlvfs/LZMA/LzFind.c:372-388 | unless cut short, no string of the tree matches further than the longest reported |
| `LzFind.InsertKeepsTree` | mlvfs/LZMA/LzFind.c:353-461 | after the call and the move the tree is well formed again with the inserted position as its root |
| `LzFind.ForestStep` | mlvfs/LZMA/LzFind.c:484-493 | inserting into one hash chain keeps the trees of all others |
| `LzFind.ForestShorter` | mlvfs/LZMA/LzFind.c:262-267 | a shorter length limit near the end of the input keeps all trees |
| `LzFind.RunKeepsForest` | mlvfs/LZMA/LzFind.c:477-493 | any run of insertions keeps one search tree per hash value |
| `LzFind.RunFromEmpty` | mlvfs/LZMA/LzFind.c:270-285 | from the table after initialisation, whatever son[] holds, any run of insertions ends with one search tree per hash value |
| `LzFind.Normalize3` | mlvfs/LZMA/LzFind.c:290-302 | every reference is lowered, or emptied if too old |
| `LzFind.NormalizeKeepsTree` | mlvfs/LZMA/LzFind.c:285-309 | normalising keeps every tree |
| `Bra86.ConvertOperand` | mlvfs/LZMA/Bra86.c:52-73 | the inner address loop computes the converted operand and ends within two passes |
| `Bra86.SecondPass` | mlvfs/LZMA/Bra86.c:54-69 | after two passes the offending byte is the complement of the source byte, so there is no third |
| `Bra86.TargetBack` | mlvfs/LZMA/Bra86.c:52-73 | the inner loop is undone by the inner loop of the other direction under the same mask |
| `Bra86.ConvertBack` | mlvfs/LZMA/Bra86.c:11-85 | from any position and mask the other direction restores the bytes and takes the same decisions |
| `Bra86.ConvertInverse` | mlvfs/LZMA/Bra86.c:11-85 | for every buffer, position and common state the pass with encoding off undoes the pass with encoding on and vice versa, and both end at the same place with the same state |
| `Bra86.X86Convert` | mlvfs/LZMA/Bra86.c:11-85 | the in-place loop computes that pass, and with it what the rule on the three bytes before each opcode says |
| `Bra86.ConvertsWhen` | mlvfs/LZMA/Bra86.c:36-51 | an opcode is converted if and only if its operand is small and at most one of the three bytes before is an opcode left alone, whose own operand then is not small |
| `Bra86.PassIsPlain` | mlvfs/LZMA/Bra86.c:17-84 | the masks keep track of the opcodes left alone: from every mask the pass writes what the rule on the three bytes before says |
| `Bra86.NothingToConvert` | mlvfs/LZMA/Bra86.c:17-84 | a buffer without a small operand behind an opcode stays as it is |
| `Bra86.FirstCall` | mlvfs/LZMA/Bra86.c:49-78 | the first opcode with a small operand is converted and nothing before it: encoded, its 25-bit operand becomes the address behind it plus the displacement |
| `Bra86.SameTarget` | mlvfs/LZMA/Bra86.c:11-85 | calls of the same routine from different places become the same four bytes |
| `Crc.GenerateTable` | mlvfs/LZMA/7zCrc.c:39-54 | table k means: then k zero bytes |
| `Crc.ShiftsLinear` | mlvfs/LZMA/7zCrc.c:39-54 | the shift register is linear over exclusive or |
| `Crc.GeneratorReversed` | mlvfs/LZMA/7zCrc.c:6-6 | the constant, read from its other end, is x^26 + x^23 + x^22 + x^16 + x^12 + x^11 + x^10 + x^8 + x^7 + x^5 + x^4 + x^2 + x + 1, the generator without its leading term |
| `Crc.ShiftMultiplies` | mlvfs/LZMA/7zCrc.c:43-45 | read from its other end, a shift of the register is multiplication by x modulo the generator |
| `Crc.FeedDivides` | mlvfs/LZMA/7zCrc.c:39-47 | a byte adds its bits, the low one as the highest power, and multiplies the sum by x^8 modulo the generator |
| `Crc.LookupIsFeed` | mlvfs/LZMA/7zCrcOpt.c:6-6 | one table lookup is eight shifts of the register |
| `Crc.FeedFour` | mlvfs/LZMA/7zCrcOpt.c:15-23 | four bytes one by one are one word and 32 shifts |
| `Crc.CrcUpdateT4` | mlvfs/LZMA/7zCrcOpt.c:10-27 | for every start value, length and alignment the sliced update is the byte-wise register of section 8 of RFC 1952 |
| `Crc.ByteAtATime` | mlvfs/LZMA/7zCrcOpt.c:13-14 | byte at a time through the first table is the same register |
| `Crc.CrcInPieces` | mlvfs/LZMA/7zCrc.c:29-32 | the update of two pieces is the update of the whole |
| `Crc.CrcCalc` | mlvfs/LZMA/7zCrc.c:34-37 | the complemented register after all bytes |
| `Wirth.Partition` | mlvfs/wirth.h:47-63 | one partitioning stays in bounds, permutes only the part under work and separates it |
| `Wirth.KthSmallestInt` | mlvfs/wirth.h:37-66 | terminates in bounds, permutes the array, leaves a[0..k) <= a[k] <= a(k..n), and returns the k-th order statistic; invalid ranks return 0 and touch nothing |
| `Wirth.OneStatistic` | mlvfs/wirth.h:37-66 | the k-th order statistic is unique |
| `Wirth.MedianInt` | mlvfs/wirth.h:129-129 | the lower median |
| `Gif.EmitFrame` | mlvfs/gif.c:178-202 | the loop writes the sub-blocks of the frame; a decoder run on them, whatever follows, returns width * height bytes of which the one at y * width + x is gamma[image[16 * width * y + 4 * x + 1] >> 4], if all shades have seven bits |
| `Gif.ShadesAt` | mlvfs/gif.c:182-187 | pixel x of line y stands at y * width + x, and its index lies inside the image |
| `Gif.GammaTable` | mlvfs/gif.c:101-107 | all 1024 shades have seven bits, levels up to the black level are 0, and brighter levels are no darker, for any logarithm between 0 and 10 that grows |
| `Gif.PacedDecodes` | mlvfs/gif.c:178-202 | a clear code every 125 pixels keeps an LZW decoder at eight bits |
| `Gif.FrameDecodes` | mlvfs/gif.c:178-202 | an LZW decoder (appendix F of GIF89a) on the sub-blocks returns exactly the pixels, whatever follows |
| `Gif.SizeReckoned` | mlvfs/gif.c:229-231 | the bytes written never exceed the reckoned size, and equal it if and only if N mod 125 is not 124 |
| `Unpack.RorBits` | mlvfs/mlvfs.h:135-135 | rotation moves the last bits to the front |
| `Unpack.UnpackPixels` | mlvfs/dng.c:813-843 | every output pixel of an even-offset window is its group of bits of the words shown, for every depth from 1 to 16, and nothing else is written; if the words read are those of a frame and hold the window, these are its pixels, whatever follows the words |
| `Unpack.PixelInTwoWords` | mlvfs/raw.h:41-52 | two neighbouring words hold a whole pixel |
| `Unpack.ReadAndUnpack` | mlvfs/main.c:575-579 | for every frame: the words read give the right pixels of the window, whatever follows them, if and only if they hold all its bits; otherwise some continuation gives a wrong pixel |
| `Unpack.WindowRead` | mlvfs/main.c:575-579 | that is so if and only if the leftovers of first and last word do not exceed 2 bpp bits: always from offset 0 and at 8, 12, 14 or 16 bits per pixel |
| `Unpack.TenBitsCutOff` | mlvfs/main.c:575-579 | a 10-bit window whose last pixel depends, in every frame, on what follows the words read |
| `Index.XrefSort` | mlvfs/index.c:78-98 | terminates, sorts by time, and keeps the order of equal times |
| `Index.Pass` | mlvfs/index.c:84-96 | one pass moves the bound strictly down; everything from it on is in place |
| `Index.StableUnique` | mlvfs/index.c:78-98 | a stable sorted rearrangement is unique |
| `Index.MakeIndex` | mlvfs/index.c:216-315 | the table holds an entry for every block up to the first bad header of each chunk, stably sorted, each entry leads back to its block, and says Video exactly for VIDF and Audio exactly for AUDF |
| `Index.IndexedUpTo` | mlvfs/index.c:230-283 | a chunk is indexed up to the first block whose size is out of bounds or that is another recording's header |
| `Index.FramesCounted` | mlvfs/index.c:302-305 | the video entries of the table are as many as the VIDF blocks indexed |
| `Index.AllEntriesRefer` | mlvfs/main.c:459-475 | reading at an entry finds the block it was made for |
| `Index.FrameCount` | mlvfs/index.c:489-527 | the number of VIDF entries; an index without any is rebuilt and counted again |
| `Index.GetFrameHeaders` | mlvfs/main.c:451-556 | a frame is found if and only if its number is below the frame count; it is then the VIDF entry of that number, and if the entries describe their blocks the VIDF block of that number among those read in table order; each header is the last of its kind before it, and success needs a RAWI block |
| `ImageBuffers.OnePass` | mlvfs/resource_manager.c:197-219 | freeing idle buffers with a fresh start each time equals one pass |
| `ImageBuffers.CleanedKeeps` | mlvfs/resource_manager.c:195-227 | survivors keep their order; at most 16 remain; at most 4, or all in use; with up to 16 before, no buffer in use is freed |
| `ImageBuffers.RunKeeps` | mlvfs/resource_manager.c:50-176 | after any run of calls names are distinct and at most 17 buffers exist |
| `ImageBuffers.InUseFreed` | mlvfs/resource_manager.c:221-226 | a buffer in use is freed if and only if 17 exist, all in use, and it is the oldest |
| `ImageBuffers.IdleFreed` | mlvfs/resource_manager.c:197-219 | an idle buffer is freed if and only if fewer idle ones precede it than there are buffers over four |
| `ImageBuffers.GetMarks` | mlvfs/resource_manager.c:92-121 | the buffer returned is in use if and only if the call created it or it was in use before |
| `ImageBuffers.FlagTells` | mlvfs/resource_manager.c:92-170 | after any calls a buffer is marked in use if and only if nobody has released it since it was created |
| `ImageBuffers.HeldFreed` | mlvfs/resource_manager.c:92-227 | after any calls, a buffer that is handed out is freed by a get if and only if the get creates a buffer and, never released, it is the oldest of 17 such, or, released and got again, fewer idle ones precede it than there are buffers over four |
| `ImageBuffers.HeldSafe` | mlvfs/resource_manager.c:92-227 | a buffer that is handed out and was never released is not freed unless 17 are held |
| `ImageBuffers.HeldBufferFreed` | mlvfs/resource_manager.c:92-121 | a run in which a buffer got anew after its release is freed under its holder with five in the cache |
| `ImageBuffers.Cache.GetImageBuffer` | mlvfs/resource_manager.c:50-57 | the first buffer of that name |
| `ImageBuffers.Cache.FreeImageBuffer` | mlvfs/resource_manager.c:123-148 | exactly that buffer leaves the list, and the counter follows |
| `ImageBuffers.Cache.Cleanup` | mlvfs/resource_manager.c:195-227 | the list becomes the cleaned list |
| `ImageBuffers.Cache.GetOrCreate` | mlvfs/resource_manager.c:92-121 | list, position and the creation flag; the counter stays the length of the list |
| `ImageBuffers.Cache.ReleaseByPath` | mlvfs/resource_manager.c:159-170 | only the named buffer becomes idle |

## Left out

- LzmaEncoder.LzmaEnc.Encode: the choice of packets (`GetOptimum`, `GetOptimumFast`) is any legal parse; price tables, block limits, the output buffer and its write errors, and the separate coding of the first byte (which is what any first literal amounts to) are not modelled.
- LzmaEncoder.LzmaEnc.GetPosSlot: the variant with the bit-scan instruction is not modelled.
- LzmaDecoder.LzmaDec.DecodeToDic: `needInitState`, which only delays the initialisation done here at the start, and restarting a used decoder are not modelled; after an error the probabilities and the kept bytes are not specified.
- LzmaCodec.LzmaDecode: property decoding and allocation are not modelled.
- LzmaStream.Word: buffer positions are unbounded; only the processed position wraps at 2^32.
- Lj92Encoder.Encode: a buffer length that is no int is taken for a failing allocation, also from 1431655699 pixels on, where it wraps round to a positive int again; other failing allocations, whether the file fits the buffer, and linearisation tables are not modelled.
- Lj92Encoder.CreateEncodeTable: histograms with all 17 categories are excluded; their code words can be 17 bits long, for which the tables have no room.
- Lj92Decoder.Ljp.ParseImage: says what happens to files with the segments the encoder writes; other segment orders are followed but nothing is claimed about them.
- Lj92Decoder.Ljp.ParseHuff: the content of the lookup table is specified for complete codes; for incomplete or overfull ones only the success condition is.
- Lj92Decoder.Ljp.Refill: the 16-bit load is little-endian, and bytes behind the file are arbitrary.
- Lj92Decoder.Ljp.Receive: for category 0 the C code shifts by a negative count; the model takes the intended result 0.
- Lj92Decoder.Ljp.Decode: linearisation tables, the category histogram and images of height 0 are not modelled.
- LzFind.GetMatchesSpec1: the initial length is below the length limit, as its callers keep it, and the text is one sequence instead of a moving buffer.
- LzFind.RunKeepsForest: hash functions and the choice of the chain are arbitrary; the length limit only falls along a run, because the input is refilled while more than the longest match is ahead; the multi-byte hash heads in front of the tree search and the hash-chain finder are not modelled.
- Crc.CrcUpdateT4: word loads are little-endian; the big-endian and eight-byte variants are not modelled.
- Wirth.KthSmallestInt: ranks not below n, for which the C code reads beyond the array, are excluded; the variant for unsigned short elements is the same text; `kth_smallest_short` keeps its indices, which run from -1 to n, in short, so the result carries over to it for n up to 32767 only.
- Gif.EmitFrame: the image data of one frame; headers, the scaling of the whole preview and file access are not modelled.
- Unpack.UnpackPixels: offsets are even, as the comment on the C function asks; `ROR` is a rotation modulo 32, also where the macro would shift by 32 or more.
- Index.MakeIndex: chunks are sequences of whole blocks; read errors, headers cut short by the end of a file, the growing of the table and the stored index file are not modelled.
- Index.GetFrameHeaders: each header is the block as a whole; the number of bytes copied from it and failing reads are not modelled.
- ImageBuffers.Cache.GetOrCreate: calls come one after another and allocations succeed; the call-back that renders missing data and the locks are not modelled.
- `hdr.c`, `stripes.c`, demosaicing, white balance and exposure tables: floating-point heuristics without a crisp meaning.
- File system call-backs, path resolution, web interface, archive formats around the LZMA stream, PPMd, BCJ2, Delta and the RISC converters.
