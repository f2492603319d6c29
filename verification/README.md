# Verified model of libmseed

libmseed reads and writes seismological time series in the miniSEED format. This project models
the parts of the library with the most intricate logic, in Dafny, and proves what they promise.
`dafny verify dfyconfig.toml` checks all of it.

| modules | what they model |
|---|---|
| ByteOrder, SteimWords, SteimFormat, SteimGreedy, Steim1Packing, SteimEncoder, SteimDecoder, ConstantSeries | Steim-1 and Steim-2 compression: byte order, bit fields in words, words in frames, the sliding window of the encoder, the decoder |
| PackData, PackLoop, Record3, Pack3, PackOptimal | payload encodings, the bytes of a version 3 record, the loop that cuts samples into records |
| Record2, Pack2, Unpack2 | the bytes of a version 2 record, the loop that overwrites one buffer with them, and exactly when their data comes back |
| Unpack3, RecordDamage, Trimming, RecordRoundTrip | unpacking version 3 records, the test for empty frames, and exactly when unpacking undoes packing |
| Detect, Framing, Reader, RecordStream | detection of both versions, cutting a stream into its records, reading a stream through a buffer |
| Crc32c | CRC-32C by bits, bytes, four bytes and eight bytes |
| SampleTimes, TraceSegments, TraceInvariants, TraceIds, TraceLists, TraceListStore, TraceOrder, TraceJoins | the trace list: segments of trace IDs that grow as records are added |
| HashCells, JsonObject, JsonText, JsonSerializer, JsonParser, JsonEscapes, JsonRoundTrip, JsonSpacing, JsonGrammar, JsonFormat, JsonReadBack | the JSON store (open addressing with backward-shift deletion), printer and parser |
| Calendar, NsTime | calendar dates of 64-bit times, nanosecond times |
| Glob, Utf8 | pattern matching of identifiers, UTF-8 in its two implementations |
| Wrappers, Bytes, PowersOfTwo | shared types, numbers and words as bytes, powers of two |

## How it is built

Code that changes things in place is a method, with the loops and the state of the original; it is
proved equal to a specification function or predicate, and lemmas state what the library promises
about that. Pure code is a function. Signed 32-bit samples are `bv32` values (C leaves their
overflow open, here it wraps), other C integers are unbounded with wrap-around written out where it
happens. Memory is a byte sequence or an array; a host is little endian unless said otherwise.

The main results go across several functions:

- `RecordStream.PackAndRead`: samples packed into records with CRCs, written to a stream and read
  back in pieces of any size are the samples packed, exactly when all records come back
  (`RecordRoundTrip.UnpacksBack`, a condition on times, header bytes and the samples packed);
  `RecordRoundTrip.LosslessExactlyWhen` says when an encoding changes them.
- `RecordDamage.DamageIsNoticed`: a record changed within four successive bytes is refused when CRCs are asked for.
- `Unpack2.PackAndUnpack2` and `Unpack2.HeaderDecides`: version 2 records, written into one buffer
  without clearing it, give back exactly the samples packed, if and only if a condition on their
  header holds.
- `Framing.StreamIsCut` and `Framing.DetectedExactlyWhen`: repeated detection cuts a stream of
  records of both versions where they were joined, and exactly when a version 2 record is found.
- `SteimGreedy.GreedyIsOptimal` and `PackOptimal.FewestRecords`: the greedy Steim-2 packing is
  optimal by words and by records, against anything the decoder can read.
  `Steim1Packing.OptimalExactlyWhen`: for which series the Steim-1 packing is.
- `TraceLists.RunIsGood` and `TraceListStore.Run`: after any run of additions the linked trace list is
  sorted, holds each record once, and each segment is its records in time order.
  `TraceJoins.WhereItGoes` says to which segments a record is joined; `TraceJoins.SeriesJoins`: a series
  with jitter up to half a period ends in one segment. `TraceJoins.AnyOrderExactly`: for which series
  the order of arrival does not matter with autoheal.
- `Reader.MS3FileParam.ReadRecord`: what a call returns does not depend on how the stream arrives.
- `JsonGrammar.TextAccepted`: which texts the JSON parser accepts, with which value, in terms of the grammar
  of RFC 8259.
- `Crc32c.MsCrc32c`, `JsonObject.Run`, `JsonRoundTrip.RoundTrip`, `Calendar.Gmtime64`,
  `Glob.GlobMatch` and `Utf8.BothForms`: fast or stateful forms that equal plain definitions.

## Where the code does something else than it says

- `Crc32c.TakenIsLength`: for an unaligned input shorter than the bytes that precede alignment,
  `remaining` wraps as an unsigned number and bytes behind the input are taken in.
- `Trimming.Trim`: the test for empty trailing frames looks at the record from its beginning, not at
  the payload, and so may drop frames in use; the record is then refused for having too few samples.
  `RecordRoundTrip.UntrimmedExactly` and `Unpack2.UntrimmedExactly` say for which header bytes that is
  so. Headers without such bytes keep all data sets (`RecordRoundTrip.RestorableComesBack`,
  `Unpack2.HeaderKeepsIntact`), and every other header loses a constant series
  (`RecordRoundTrip.LosesConstantSeries3`, `Unpack2.LosesConstantSeries`). Examples are extra headers of 127 NULs
  (`RecordRoundTrip.LongGap`) and, in version 2 records of 512 bytes, a blockette 500 without clock
  status (`Unpack2.ClockStatusMissing`).
- `RecordRoundTrip.ErrorTime`: 1902-01-01T00:00:00 is the time that stands for an error, so a record
  that begins then is written and refused on reading. `NsTime.CheckedRoundTrip`: so are times in the year 1677.
- `Framing.SwappedExactlyWhen`: the byte order of a version 2 record is guessed from year and day. In
  the years 1800 and 2056, on the days 1, 256 and 257, the record is taken to be little endian and its
  blockette 1000 is missed. `Framing.DetectedExactlyWhen` says when it is found with its length all the same: mostly by
  the header of the record that follows it in the buffer, so that the last record of a stream is lost
  (`Framing.ShortRunIsCut`).
- `Framing.ArrivalMatters`: with 48 to 51 bytes of a version 2 record in the buffer, detection reads the link of the first
  blockette from what happens to be behind them, and may refuse the record;
  `Framing.ArrivalDoesNotMatter` for all other numbers of bytes.
- `TraceLists.MatchesExactlyWhen`: the comparison of identifiers looks at the byte behind the NUL of the
  stored name, which came with the record's whole array. When it is not 0 the trace ID is never matched
  again, not even by the same record (`TraceLists.UntidyNeverMatches`). Behind a name of 63 bytes the publication version follows.
- Payload lengths are stored in 16 bits: from 65536 bytes on `PackData.MsrPackData` reports the
  length modulo 65536, and the guarantees about payloads are stated below that.
- `Glob.HyphenBehindRange`: in `[a-c-e]` the end of the first range begins a second one.
  `Glob.ReadsExactly` says which sets read as they list, `Glob.HyphenBehindRangeExactly` which of this kind.
- INT16 does not check whether samples fit (`PackData.Survives16`), and without a flush its records need
  not be full, since the limit for samples that wait goes by 4 bytes a sample (`Pack3.Int16LeavesRoom`).
- `Steim1Packing.GreedyIsNotOptimalForSteim1`: the comment in the Steim-1 encoder about optimal packing does
  not hold for all series; `Steim1Packing.OptimalExactlyWhen` says for which it does.
- `JsonGrammar.TextAccepted`: beyond RFC 8259 the parser accepts a comma behind the last item or member
  (`JsonGrammar.CommaBehindLast`), vertical tabs and form feeds as white space, and anything behind the
  value; it refuses objects with a name twice.
- `TraceJoins.CloseRecordsSplit`: for single samples that are half a period apart the order of arrival decides
  about the segments, even with autoheal; `TraceJoins.AnyOrderExactly` says for which series it does.
- `TraceLists.Refused`: a record whose last sample is at 1902-01-01T00:00:00 cannot be added to a trace
  list, nor can samples of a type whose size `ms_samplesize` does not know.

## Model

| member | source | states |
|---|---|---|
| SteimEncoder.Encode | src/libsrc/libmseed/packdata.c:445-734 | the Steim encoders: the result is -1 exactly when some difference reached within the frames fits no word, otherwise the number of samples the choice of words covers; the frames written decode to exactly these samples, no frame is wasted, Xn is the last sample, bytes are counted modulo 65536 and nothing behind the frames changes |
| SteimEncoder.EncodeFrames | src/libsrc/libmseed/packdata.c:480-731 | the frame loop: frames are started only while samples are left, every frame carries differences from its first word on, and giving up in any frame is giving up on the whole buffer |
| SteimEncoder.EncodeFrame | src/libsrc/libmseed/packdata.c:488-722 | one frame keeps the window of differences, extends the decodable prefix by as many differences as the choice of words packs into its slots, and leaves all other frames alone |
| SteimEncoder.EncodeWord | src/libsrc/libmseed/packdata.c:519-717 | one word: the differences loaded but not packed stay lined up, the nibble set decodes the word to the differences packed, and no word is empty unless the next difference fits none |
| SteimEncoder.Refill | src/libsrc/libmseed/packdata.c:521-537 | the sliding window holds the next differences and their bit widths after the packed ones are shifted out, and is never empty while samples are left |
| SteimEncoder.BuildWord2 | src/libsrc/libmseed/packdata.c:539-709 | the if-chain of Steim-2 picks the longest run in its list that fits and the word it builds decodes to that run |
| SteimEncoder.BuildWord1 | src/libsrc/libmseed/packdata.c:344-412 | the same for the three words of Steim-1, whose 32-bit case has no guard |
| SteimEncoder.StoreXn | src/libsrc/libmseed/packdata.c:724-729 | storing the reverse integration constant changes no difference and no sample |
| SteimEncoder.EncodedStarts | src/libsrc/libmseed/packdata.c:488-519 | no frame begins with an empty slot, because a frame is only started for a difference that fits a word |
| SteimEncoder.EncodedLean | src/libsrc/libmseed/packdata.c:480-731 | no frame is wasted: with fewer of the frames the decoder does not get all samples |
| SteimDecoder.Decode | src/libsrc/libmseed/unpackdata.c:347-578 | the Steim decoders compute the samples the frame format defines, or -1 for an undefined word, and write nothing behind them |
| SteimDecoder.DecodeFrame | src/libsrc/libmseed/unpackdata.c:415-560 | one frame: nibbles and decode nibbles are followed, at most the samples still wanted are produced |
| SteimFormat.IntegrateDifferences | src/libsrc/libmseed/unpackdata.c:308-323 | summing up the differences from the first sample gives the samples back |
| SteimFormat.HoldsDecodes | src/libsrc/libmseed/unpackdata.c:262-325 | words that hold given chunks of differences decode to their concatenation, cut at the number wanted |
| SteimWords.Word2Reads | src/libsrc/libmseed/packdata.c:550-703 | each of the seven Steim-2 layouts is read back by the decoder as the differences packed, sign and order included |
| SteimWords.Word1Reads | src/libsrc/libmseed/packdata.c:352-405 | the same for the Steim-1 layouts, with the byte order of 8-, 16- and 32-bit differences |
| SteimWords.WordDiffs2Widths | src/libsrc/libmseed/unpackdata.c:430-552 | every word the Steim-2 decoder accepts holds differences no wider than the width its length allows |
| SteimWords.SetNibbleElsewhere | src/libsrc/libmseed/packdata.c:568-572 | setting one 2-bit nibble of the control word disturbs no other |
| ByteOrder.SwappedBytes | src/libsrc/libmseed/gswap.c:48-59 | swapping a word puts each of its bytes in the place of the one opposite |
| ByteOrder.SwappedLong | src/libsrc/libmseed/gswap.c:61-74 | the same for 64-bit words |
| ByteOrder.StoredWord | src/libsrc/libmseed/gswap.c:48-59 | a word stored with a swap reads as its value with the highest byte first, without one with the lowest byte first |
| ByteOrder.StoredHalf | src/libsrc/libmseed/gswap.c:36-46 | the same for the lower halves of words |
| ByteOrder.StoredLong | src/libsrc/libmseed/gswap.c:61-74 | the same for 64-bit words |
| ByteOrder.NibbleInByte | src/libsrc/libmseed/packdata.c:568-572 | the nibble of word k is the pair of bits k modulo 4, counted from the highest, of byte k / 4 of the control word as it is stored |
| ByteOrder.NumberIsLittle | src/libsrc/libmseed/mseedformat.h:62-79 | numbers in headers have their lowest byte first |
| SteimGreedy.StaysAhead | src/libsrc/libmseed/packdata.c:519-717 | no other choice of a next word gets past the greedy one, since any part of a run that fits a word fits one as well |
| SteimGreedy.GreedyIsOptimal | src/libsrc/libmseed/packdata.c:519-717 | whatever Steim-2 payload the decoder reads as the first c samples, the encoder covers at least c samples in as many words |
| SteimGreedy.GetsAsFar | src/libsrc/libmseed/packdata.c:519-717 | the same for an encoder that starts later than the other packing |
| SteimWords.WordDiffs1Widths | src/libsrc/libmseed/unpackdata.c:262-300 | every Steim-1 word holds one, two or four differences no wider than its fields |
| Steim1Packing.OptimalExactlyWhen | src/libsrc/libmseed/packdata.c:344-412 | for Steim-1 the choice of words is optimal, for every number of words, exactly when no word of two takes a wide difference and the first of a run of narrow ones whose length is a multiple of four |
| Steim1Packing.StaysAheadUnless | src/libsrc/libmseed/packdata.c:344-412 | without such a word no packing gets ahead of the encoder, and one that is just behind it can take four only when the encoder is late in that run |
| Steim1Packing.GetsFurther | src/libsrc/libmseed/packdata.c:344-412 | with one, a packing that takes the wide difference by itself gets one further in as many words |
| Steim1Packing.GreedyIsNotOptimalForSteim1 | src/libsrc/libmseed/packdata.c:344-412 | nine samples, as a caller passes them, for which the encoder has packed eight after three words while three words hold all nine |
| Steim1Packing.CutOptimalExactlyWhen | src/libsrc/libmseed/packdata.c:344-412 | against packings that may end within a word the choice is optimal exactly when no word begins before just three narrow differences |
| Steim1Packing.GreedyIsOptimal1 | src/libsrc/libmseed/packdata.c:344-412 | then whatever Steim-1 payload the decoder reads as the first c samples, the encoder covers at least c samples in as many words |
| PackData.EncodeText | src/libsrc/libmseed/packdata.c:41-63 | text is copied up to the shorter of input and buffer, zeros behind it; errors as in the code |
| PackData.EncodeInt16 | src/libsrc/libmseed/packdata.c:75-100 | as many 16-bit values as fit, truncated, zeros behind them; the number that each two bytes make in the byte order asked for is the value modulo 65536 |
| PackData.EncodeInt32 | src/libsrc/libmseed/packdata.c:112-137 | as many 32-bit values as fit, integers or the bits of floats, zeros behind them; the number that each four bytes make in the byte order asked for is the value |
| PackData.EncodeFloat64 | src/libsrc/libmseed/packdata.c:186-211 | the same for the bits of doubles |
| PackData.MsrPackData | src/libsrc/libmseed/pack.c:1571-1768 | how many samples an encoding takes into how many bytes, when it refuses, that the payload is read back as these samples, and the numbers its bytes make: every sample, or for Steim the first and the last, big endian; the length is reported modulo 65536 |
| PackData.Survives16 | src/libsrc/libmseed/packdata.c:88-96 | a sample comes through 16 bits unchanged exactly when it is a 16-bit integer |
| PackData.Int16Decodes | src/libsrc/libmseed/unpackdata.c:50-75 | 16-bit payloads decode to the sign-extended lower halves of the samples, in either byte order |
| PackData.Int32Decodes | src/libsrc/libmseed/unpackdata.c:86-111 | 32-bit payloads decode to the samples, in either byte order |
| PackData.Float32Decodes | src/libsrc/libmseed/unpackdata.c:122-147 | float payloads decode to the bits of the samples, in either byte order |
| PackData.Float64Decodes | src/libsrc/libmseed/unpackdata.c:158-183 | the same for doubles |
| PackData.SteimDecodes | src/libsrc/libmseed/unpack.c:1350-1375 | frames in memory, as bytes, decode to the samples their words define |
| PackData.MsDecodeData | src/libsrc/libmseed/unpack.c:1261-1437 | decoding by encoding, for the encodings modelled; an error also when fewer samples come out than were counted |
| PackData.LeanIsTight | src/libsrc/libmseed/unpack.c:1428-1434 | a Steim payload cut after fewer frames does not decode to its samples but is refused |
| PackData.UsedExactly | src/libsrc/libmseed/packdata.c:480-484 | how many frames a payload takes: as few as hold all samples, otherwise all there are |
| ConstantSeries.TakesFrames | src/libsrc/libmseed/packdata.c:480-731 | a constant series of one sample more than f - 1 frames hold takes f frames |
| PackData.StartedBytes | src/libsrc/libmseed/packdata.c:719-721 | every 64-byte frame of a payload begins with a byte that is not zero |
| Pack3.PackHeader3 | src/libsrc/libmseed/pack.c:485-576 | the fixed header, identifier and extra headers are stored at their places and the start time is that of the record |
| Pack3.FinishRecord | src/libsrc/libmseed/pack.c:321-332 | after the payload, the counts and the CRC are stored the record is complete: header kept, CRC right, payload in place |
| Pack3.PackRecord | src/libsrc/libmseed/pack.c:293-332 | one round of the record loop takes the samples the encoder takes, at least one, and makes a complete record of them |
| Pack3.SetStart | src/libsrc/libmseed/pack.c:346-364 | the next record carries the time of its first sample and everything else of the header |
| Pack3.PackMseed3 | src/libsrc/libmseed/pack.c:160-370 | a run of packing: records in order, each with the time of its first sample (so many sample periods after the start, rounded), counts that sum to what is reported, everything packed with a flush; without one at most as many samples left as the limit, and every record full (text, INT32, FLOAT32, FLOAT64, Steim) or, for INT16, about half full at least |
| Pack3.Int16LeavesRoom | src/libsrc/libmseed/pack.c:262-297 | INT16 records that are not full without a flush |
| PackLoop.FillsUp | src/libsrc/libmseed/pack.c:262-297 | when more samples are left than may wait, the record is filled: a frame takes fewer than 60 or 105 samples |
| PackLoop.MaxSamplesAre | src/libsrc/libmseed/pack.c:262-280 | as many samples may wait as 15 words of each frame hold at most, or as fill the record |
| PackLoop.PacksSome | src/libsrc/libmseed/pack.c:293-340 | every encoder that succeeds on samples takes at least one, so the loop ends |
| PackOptimal.AheadOfPieces | src/libsrc/libmseed/pack.c:291-340 | after as many records the packer is at least as far as any other cutting of the samples into Steim-2 payloads |
| PackOptimal.FewestRecords | src/libsrc/libmseed/pack.c:291-340 | no cutting of the samples into Steim-2 payloads of at most as many frames has fewer records |
| Record3.Put | src/libsrc/libmseed/mseedformat.h:62-79 | a number stored in the header is read there again and nothing else changes |
| Record3.CodesAre | src/libsrc/libmseed/libmseed.h:1288-1310 | the codes of the encodings, and that only these are read as them |
| Unpack3.CheckCrc | src/libsrc/libmseed/unpack.c:127-142 | the CRC is checked against the record with its CRC field zero, and the buffer is as before afterwards |
| Trimming.Trim | src/libsrc/libmseed/unpack.c:1068-1078 | the loop that drops empty frames, which looks at bytes of the record that lie before the end of the payload by the length of the header |
| RecordDamage.AcceptedExactly | src/libsrc/libmseed/unpack.c:74-230 | which bytes are accepted as a record without its payload, and which are refused for their CRC or as no record |
| RecordDamage.DamageIsNoticed | src/libsrc/libmseed/unpack.c:127-142 | a record in which up to four successive bytes are changed, outside its CRC or just there, is refused, and for its CRC when it still looks like a record |
| Unpack3.UnpackSamples | src/libsrc/libmseed/unpack.c:1107-1240 | the payload found by the header is decoded, with the refusals of the code |
| Unpack3.UnpackMseed3 | src/libsrc/libmseed/unpack.c:74-230 | a record in a buffer is unpacked as its bytes say, in the order of the checks, and the buffer is unchanged |
| Trimming.TrimmedDecodes | src/libsrc/libmseed/unpack.c:1068-1078 | a Steim payload behind which the test for empty frames has cut decodes to the samples packed exactly when nothing in use is cut off, and is refused otherwise |
| Trimming.SteimDecodesPrefix | src/libsrc/libmseed/unpackdata.c:347-578 | bytes behind the frames in use do not change what is decoded |
| Trimming.TrimAtLeast | src/libsrc/libmseed/unpack.c:1068-1078 | the test for empty frames stops at a byte that is not zero |
| RecordRoundTrip.UntrimmedExactly | src/libsrc/libmseed/unpack.c:1068-1078 | the misplaced test for empty frames leaves a payload alone exactly when its header has no block of zeros where the last frame of the payload would begin, counted from the beginning of the record |
| RecordRoundTrip.NothingToTrim | src/libsrc/libmseed/unpack.c:1068-1078 | a header whose extra headers hold no NUL keeps payloads of all lengths |
| RecordRoundTrip.HeaderBack | src/libsrc/libmseed/unpack.c:154-190 | what packing stored in the header is read back; the start time exactly when it is readable, otherwise as the error value |
| RecordRoundTrip.DataBack | src/libsrc/libmseed/unpack.c:1107-1240 | the payload of an emitted record decodes to the samples packed exactly when its header has no such block, and is refused otherwise |
| RecordRoundTrip.UnpacksBack | src/libsrc/libmseed/unpack.c:74-230 | an emitted record passes its CRC check and unpacks to its identifier, time, count, extra headers and samples exactly when its time is readable and its header has no block of zeros at the length of its payload, which follows from the samples; otherwise it is refused |
| RecordRoundTrip.ErrorTime | src/libsrc/libmseed/unpack.c:161-173 | a record that begins with the year 1902 has the time that stands for an error and is refused |
| RecordRoundTrip.RestorableComesBack | src/libsrc/libmseed/unpack.c:74-230 | readable times and a header that keeps payloads of all lengths are enough |
| RecordRoundTrip.LosesConstantSeries3 | src/libsrc/libmseed/unpack.c:1068-1078 | with every other header there is a constant series that is packed into records and does not come back |
| RecordRoundTrip.LongGap | src/libsrc/libmseed/pack.c:538-547 | such are headers whose extra headers are 127 NULs or more |
| RecordRoundTrip.Conserves | src/libsrc/libmseed/pack.c:291-366 | the samples of the records, one after the other, are exactly the samples packed so far if all records come back, and reading them fails otherwise |
| RecordRoundTrip.PackAndUnpack | src/libsrc/libmseed/pack.c:160-370 | packing with a flush and unpacking every record gives all samples back exactly when all records come back |
| RecordRoundTrip.LosslessExactlyWhen | src/libsrc/libmseed/pack.c:1612-1636 | an encoding changes samples exactly when it is INT16 and one of them is no 16-bit integer |
| Record2.FindExponent | src/libsrc/libmseed/pack.c:895-901 | the exponent of the record length is found |
| Record2.PackHeader2 | src/libsrc/libmseed/pack.c:885-1079 | the fixed header and the blockette 1000 are stored at their places, big endian, the other blockettes behind them; an error exactly for a length that is no power of two in range or too short for the header |
| Pack2.PackMseed2 | src/libsrc/libmseed/pack.c:588-812 | a run of packing into version 2 records, which overwrite one buffer: each has the header, its count, its data offset, the time of its first sample to a tenth of a millisecond and its payload, the counts sum to what is reported; everything is packed with a flush, without one at most as many samples left as the limit and every record full; an error only for a refused header or refused samples |
| Pack2.FindDataOffset | src/libsrc/libmseed/pack.c:692-705 | the data begins behind the blockettes, for Steim at the next multiple of 64 |
| Pack2.PackRecord2 | src/libsrc/libmseed/pack.c:741-782 | one round takes the samples the encoder takes, at least one, and overwrites payload and count only |
| Pack2.SetStart2 | src/libsrc/libmseed/pack.c:784-800 | the start time becomes that of the next sample, nothing else changes |
| Pack2.ClearHeader | src/libsrc/libmseed/pack.c:692-708 | zeros up to the data and the data offset make the buffer ready for the loop |
| Unpack2.DataBack2 | src/libsrc/libmseed/unpack.c:1028-1081 | the data bounds take in the payload of an emitted record, which decodes to the samples packed although older bytes follow it, exactly when the record is intact |
| Unpack2.UntrimmedExactly | src/libsrc/libmseed/unpack.c:1068-1078 | the test for empty frames leaves a payload alone exactly when the bytes of the header from where its last frame would begin up to the size of the payload area, counted from the beginning of the record, are not all zero |
| Unpack2.UnpacksBack2 | src/libsrc/libmseed/pack.c:741-782 | the data of an emitted record, by its own count, data offset and encoding, is the samples it was made of exactly when its header has such bytes; otherwise it is refused |
| Unpack2.Conserves2 | src/libsrc/libmseed/pack.c:739-801 | the samples of the records, one after the other, are exactly the samples packed so far if all records are intact, and reading them fails otherwise |
| Unpack2.HeaderDecides | src/libsrc/libmseed/unpack.c:1068-1078 | whether the samples of a run of packing come back is decided by its header and the length of the payload of its first record; with a second record that one is full and the header alone decides |
| Unpack2.PackAndUnpack2 | src/libsrc/libmseed/pack.c:588-812 | packing with a flush and unpacking every record gives all samples back exactly then |
| Unpack2.HeaderKeepsIntact | src/libsrc/libmseed/unpack.c:1068-1078 | a header that is not empty before the end of the payload area keeps every record of every data set intact |
| Unpack2.LosesConstantSeries | src/libsrc/libmseed/pack.c:739-801 | with every other header there is a constant series that is packed into records and does not come back |
| Unpack2.ClockStatusMissing | src/libsrc/libmseed/pack.c:1121-1184 | a blockette 500 without clock status makes such a header of records of 512 bytes |
| Detect.MsDetect | src/libsrc/libmseed/parseutils.c:177-285 | detection of both versions: signature, length from the header, from a blockette 1000 or from the next header; the walk through the blockettes ends |
| Detect.Signatures | src/libsrc/libmseed/libmseed.h:163-196 | the version found goes by signatures at literal places |
| Detect.SwappedIs | src/libsrc/libmseed/parseutils.c:217-220 | numbers are taken as they stand exactly when that makes a year from 1900 to 2100 and a day of it |
| Detect.ShiftsAre | src/libsrc/libmseed/parseutils.c:236-240 | lengths are powers of two |
| Detect.WalkFindsChain | src/libsrc/libmseed/parseutils.c:217-257 | a version 2 length comes from the blockette 1000 that ends a chain of linked blockettes and lies whole in the buffer |
| Detect.ChainIsWalked | src/libsrc/libmseed/parseutils.c:217-257 | and whenever there is such a chain that length is found |
| Detect.ScanFinds | src/libsrc/libmseed/parseutils.c:259-277 | without a blockette 1000 the length is that up to a header at a multiple of 64 bytes |
| Detect.ScanFindsFirst | src/libsrc/libmseed/parseutils.c:259-277 | and no other header is in front of that one |
| Detect.WalkExactly | src/libsrc/libmseed/parseutils.c:217-257 | so a length is found exactly when a chain leads to it, and the record is refused exactly when a chain ends in a link that does not go forward |
| Detect.ScanExactly | src/libsrc/libmseed/parseutils.c:259-277 | the scan finds exactly the first header at a multiple of 64 bytes |
| Detect.LengthStays | src/libsrc/libmseed/parseutils.c:217-257 | such a length is the same when more of the stream is in the buffer |
| Framing.Detected3 | src/libsrc/libmseed/parseutils.c:206-215 | a version 3 record is found with its length as soon as its fixed header is in the buffer |
| Framing.Detected2 | src/libsrc/libmseed/parseutils.c:217-257 | an emitted version 2 record is found with its length as soon as its blockette 1000 is in the buffer, unless its start is misread |
| Framing.SwappedExactlyWhen | src/libsrc/libmseed/parseutils.c:217-220 | the byte order is found out exactly when the record does not begin on one of three days of 1800 or 2056 |
| Framing.DetectedExactlyWhen | src/libsrc/libmseed/parseutils.c:177-285 | with its blockette 1000 in the buffer the record is found with its length exactly when it does not begin on one of these days, or a chain from byte 12288 on leads to a blockette 1000 with that length, or no chain leads anywhere and the first header at a multiple of 64 bytes is the one behind it |
| Framing.NextHeaderDecides | src/libsrc/libmseed/parseutils.c:259-277 | below 12288 bytes only the next header can help |
| Framing.ArrivalDoesNotMatter | src/libsrc/libmseed/parseutils.c:217-257 | however much has arrived, the record has no length below 56 bytes and its own from there on, except with 48 to 51 bytes in the buffer |
| Framing.ArrivalMatters | src/libsrc/libmseed/parseutils.c:217-257 | with 48 to 51 bytes what is behind the buffer decides whether reading waits for more or finds no record |
| Framing.NotYetDetected | src/libsrc/libmseed/parseutils.c:217-257 | with less than the blockette 1000 in the buffer there is no length yet; with 48 to 51 bytes detection depends on what happens to be behind them |
| Framing.Emitted3Found | src/libsrc/libmseed/pack.c:313-332 | every record of a version 3 packing run is found wherever it begins and whatever follows it |
| Framing.Emitted2Found | src/libsrc/libmseed/pack.c:741-782 | the same for version 2 when its start is not misread |
| Framing.StreamDetected | src/libsrc/libmseed/parseutils.c:177-285 | in a stream of such records each is found with its length and version, however much of what follows is in the buffer |
| Framing.CutExactlyWhen | src/libsrc/libmseed/parseutils.c:177-285 | repeated detection cuts a stream of records of both versions exactly where they were joined if and only if it finds each of them |
| Framing.StreamIsCut | src/libsrc/libmseed/parseutils.c:177-285 | which it does for records that are found wherever they begin |
| Framing.EmittedIsCut | src/libsrc/libmseed/pack.c:741-782 | so it cuts the output of a version 2 packing run exactly when every record that begins on one of these days is found by what follows it |
| Framing.ShortRunIsCut | src/libsrc/libmseed/pack.c:741-782 | for output of less than 12288 bytes: exactly when every such record is followed by another and has no block of 64 bytes within that begins like a header |
| Reader.ParsePrefix | src/libsrc/libmseed/parseutils.c:60-154 | what is parsed does not depend on how much of the stream is in the buffer once the record is, and the hint is exactly what is missing |
| Reader.LengthsParsed | src/libsrc/libmseed/parseutils.c:104-126 | lengths from 40 to 131172 bytes are parsed, what is missing is asked for |
| Reader.MS3FileParam.Shift | src/libsrc/libmseed/fileutils.c:114-144 | shifting keeps the buffer a piece of the stream and the stream position |
| Reader.MS3FileParam.Fill | src/libsrc/libmseed/fileutils.c:368-399 | reading keeps that the buffer is the piece of the stream that was read last, and gets on or finds the end |
| Reader.MS3FileParam.MsrParse | src/libsrc/libmseed/parseutils.c:60-154 | parsing at a place of the buffer |
| Reader.MS3FileParam.LookAtStream | src/libsrc/libmseed/fileutils.c:404-527 | what the loop does about the bytes at hand is what the whole stream calls for, or it waits for bytes that are missing |
| Reader.MS3FileParam.Turn | src/libsrc/libmseed/fileutils.c:359-550 | one round of the loop keeps what the call will find and makes progress |
| Reader.MS3FileParam.ReadRecord | src/libsrc/libmseed/fileutils.c:359-550 | whatever pieces the stream arrives in, a call returns the record, position or error that the whole stream has at the reading position |
| Reader.NextIsClean | src/libsrc/libmseed/fileutils.c:359-550 | a returned record lies behind the reading position and within the stream, and reading can go on behind it |
| Reader.NoiseIsSkipped | src/libsrc/libmseed/fileutils.c:465-478 | when asked to skip what is no data a call finds what is behind any noise |
| Reader.NoiseStops | src/libsrc/libmseed/fileutils.c:480-503 | otherwise it stops with the error |
| Reader.SelectionSkips | src/libsrc/libmseed/fileutils.c:421-433 | a record that is not selected is passed over, whatever its payload |
| Reader.DataAsAsked | src/libsrc/libmseed/fileutils.c:437-448 | a record that is returned has its data exactly if that was asked for and it has samples |
| Reader.NothingLeft | src/libsrc/libmseed/fileutils.c:529-547 | with fewer than 40 bytes left the end is reported, or before any record that there is no data |
| RecordStream.NextIsRecord | src/libsrc/libmseed/fileutils.c:359-550 | at the boundary of an emitted record a call returns what that record unpacks to, or its error, and goes on at the next boundary |
| RecordStream.NextIsEnd | src/libsrc/libmseed/fileutils.c:529-547 | behind the last record comes the end of the file |
| RecordStream.PackAndRead | src/libsrc/libmseed/fileutils.c:359-550 | samples packed into records, written to a stream and read in pieces of any size with CRC checks come back exactly when all records do; otherwise reading stops with an error |
| Crc32c.Sb1 | src/libsrc/libmseed/crc32c.c:307-313 | the byte-wise loop with table 0 computes the bitwise register (RFC 3720, section 12.1) |
| Crc32c.Sb4 | src/libsrc/libmseed/crc32c.c:344-357 | slice-by-4 computes the same |
| Crc32c.Sb8 | src/libsrc/libmseed/crc32c.c:360-376 | slice-by-8 computes the same |
| Crc32c.Slice4Feeds | src/libsrc/libmseed/crc32c.c:349-354 | four table look-ups at once are four bytes fed bit by bit |
| Crc32c.Slice8Feeds | src/libsrc/libmseed/crc32c.c:365-374 | eight look-ups in two words are eight bytes fed bit by bit |
| Crc32c.TableIsShifts | src/libsrc/libmseed/crc32c.c:31-304 | each table, defined from the one before it, is what zero bytes behind a byte do to the register |
| Crc32c.Align | src/libsrc/libmseed/crc32c.c:318-341 | how many leading bytes are taken, including the case where `remaining` wraps |
| Crc32c.MsCrc32c | src/libsrc/libmseed/crc32c.c:400-410 | for any alignment and previous CRC the result is the CRC-32C of the bytes that are taken in |
| Crc32c.TakenIsLength | src/libsrc/libmseed/crc32c.c:324-338 | the bytes taken in are those of the given length exactly when there are at least as many as precede alignment |
| Crc32c.ShortUnalignedInput | src/libsrc/libmseed/crc32c.c:330-338 | an input for which a byte too many is taken in and the result is wrong |
| Crc32c.CheckValue | src/libsrc/libmseed/crc32c.c:400-410 | the check value of CRC-32C, that of the digits 1 to 9 |
| Crc32c.CrcChains | src/libsrc/libmseed/crc32c.c:384-387 | the CRC of a string continued from that of another is that of their concatenation |
| Crc32c.BurstsAreDetected | src/libsrc/libmseed/crc32c.c:307-313 | strings of equal length that differ only within four successive bytes have different CRCs |
| SampleTimes.SampleTimeForward | src/libsrc/libmseed/genutils.c:1577-1614 | samples do not go back in time |
| SampleTimes.SampleOnTime | src/libsrc/libmseed/genutils.c:1577-1614 | the time of a sample is that of the first and so many sample periods, rounded to nanoseconds, for rates and for periods |
| SampleTimes.RateAndPeriod | src/libsrc/libmseed/genutils.c:1577-1614 | a rate and its period give the same times |
| SampleTimes.PeriodIs | src/libsrc/libmseed/tracelist.c:391-399 | the sample period is the largest number of nanoseconds the rate allows |
| SampleTimes.HertzIs | src/libsrc/libmseed/msrutils.c:356-366 | samples per second: the rate, or one for each period |
| TraceSegments.EndTimeOnTime | src/libsrc/libmseed/msrutils.c:211-223 | the end time of a record is the time of its last sample |
| TraceIds.TraceSeg.constructor | src/libsrc/libmseed/tracelist.c:957-1002 | a segment made from a record |
| TraceIds.TraceSeg.AddRecord | src/libsrc/libmseed/tracelist.c:1016-1108 | a record is added at the end or the beginning with its data, times and counts, or refused for its type with nothing changed |
| TraceIds.TraceSeg.AddSegment | src/libsrc/libmseed/tracelist.c:1117-1198 | a segment is added behind another |
| TraceIds.TraceId.Search | src/libsrc/libmseed/tracelist.c:513-572 | the search of the segment list finds what it would in the list of values: the first fits and the last segment before the record |
| TraceIds.TraceId.InsertBehind | src/libsrc/libmseed/tracelist.c:655-678 | a segment is linked behind another or first, both ways, and the ends are right |
| TraceIds.TraceId.Unlink | src/libsrc/libmseed/tracelist.c:597-620 | a merged segment is unlinked both ways and the last segment is right |
| TraceIds.TraceId.MoveDown | src/libsrc/libmseed/tracelist.c:694-718 | one exchange with the next segment keeps the list whole |
| TraceIds.TraceId.MoveUp | src/libsrc/libmseed/tracelist.c:719-742 | one exchange with the previous segment keeps the list whole |
| TraceIds.TraceId.Resort | src/libsrc/libmseed/tracelist.c:693-742 | the two loops move the segment where its order puts it |
| TraceIds.TraceId.Merge | src/libsrc/libmseed/tracelist.c:574-622 | a record that closes a gap joins its two neighbours, or fails for their types |
| TraceIds.TraceId.AddCoverage | src/libsrc/libmseed/tracelist.c:391-742 | adding a record to a trace ID leaves a whole doubly linked list that holds exactly what the list of values becomes, with times and version tracked |
| TraceIds.AfterNotFirst | src/libsrc/libmseed/tracelist.c:597-605 | the segment to be removed is never the first, whose pointer the code does not mend |
| TraceSegments.ResortedSorts | src/libsrc/libmseed/tracelist.c:693-742 | one segment out of place is put into place and nothing is lost |
| TraceInvariants.SearchJustified | src/libsrc/libmseed/tracelist.c:513-572 | what the search finds fits the record in time and rate |
| TraceInvariants.JoinedCoherent | src/libsrc/libmseed/tracelist.c:1117-1198 | two segments whose touching records follow each other make one whose data is theirs in time order |
| TraceInvariants.PlaceWell | src/libsrc/libmseed/tracelist.c:445-691 | wherever a record goes, all but one segment stay in order, each is made of records that follow each other within half a period, and no record is lost |
| TraceInvariants.AddKeeps | src/libsrc/libmseed/tracelist.c:391-742 | adding a record keeps segments sorted, coherent and tracked, and adds that record exactly once |
| TraceInvariants.OneTypeFits | src/libsrc/libmseed/tracelist.c:1032-1038 | with one sample type every record finds its place |
| TraceOrder.AddTiles | src/libsrc/libmseed/tracelist.c:391-742 | with autoheal, adding a record of a series whose records start within half a period of where the one before leads leaves exactly the longest runs of records that are there |
| TraceOrder.TwoSamplesApart | src/libsrc/libmseed/tracelist.c:411-412 | such records are far enough apart when each has two samples and more |
| TraceOrder.AnyOrder | src/libsrc/libmseed/tracelist.c:178-185 | with autoheal the order in which the records of such a series arrive does not matter: one segment with all data in time order |
| TraceOrder.AnyOrderInList | src/libsrc/libmseed/tracelist.c:264-742 | so adding them to a trace list in any order makes one trace ID with one segment, provided none is refused |
| TraceJoins.JoinsAreFits | src/libsrc/libmseed/tracelist.c:403-435 | what fits, in times and rates: the gap is off the sample period by at most half of it, and the rates differ by less than a ten-thousandth |
| TraceJoins.LastIsJoined | src/libsrc/libmseed/tracelist.c:445-460 | a record that fits the end of the last segment is joined to it, and nothing else changes |
| TraceJoins.WhereItGoes | src/libsrc/libmseed/tracelist.c:445-691 | a record begins a new segment exactly when it fits none; it joins two segments when it closes the gap between them with autoheal; otherwise it is joined to one at its end or start; the other segments stay as they are |
| TraceJoins.SegmentCount | src/libsrc/libmseed/tracelist.c:445-691 | so the number of segments grows, shrinks or stays; without autoheal it never shrinks |
| TraceJoins.SeriesJoins | src/libsrc/libmseed/tracelist.c:445-460 | records of a series added in order of time, each within half a period of where the one before leads, end in one segment of one trace ID with all their data |
| TraceJoins.AnyOrderExactly | src/libsrc/libmseed/tracelist.c:178-185 | with autoheal every order of arrival makes one segment of such a series exactly when each record begins more than one and a half periods after the end of the one before the last |
| TraceJoins.CloseRecordsSplit | src/libsrc/libmseed/tracelist.c:445-460 | single samples half a period apart: when the third arrives before the second it takes its place, and the second begins a segment of its own |
| TraceJoins.InTimeOrder | src/libsrc/libmseed/tracelist.c:693-742 | segments stand in the order of their starts, of those that start together the longer first |
| TraceLists.MatchesExactlyWhen | src/libsrc/libmseed/tracelist.c:266-282 | a record is matched with a trace ID of its name (and version) exactly when the byte behind the NUL of that name in the trace ID is zero |
| TraceLists.UntidyNeverMatches | src/libsrc/libmseed/tracelist.c:266-363 | so a trace ID made of a record with another byte there is not matched even by that record |
| TraceLists.NearerAgreesLonger | src/libsrc/libmseed/tracelist.c:304-343 | of two names before a third in order, the later one agrees with it at least as far and differs less where it agrees as far |
| TraceLists.PrecedesInDictionary | src/libsrc/libmseed/tracelist.c:304-343 | names stand in the order of dictionaries by signed characters, equal ones in that of their versions |
| TraceLists.AddRecordKeeps | src/libsrc/libmseed/tracelist.c:264-742 | adding a record keeps the trace IDs in order without duplicates, each with its own records |
| TraceLists.OneTypeSucceeds | src/libsrc/libmseed/tracelist.c:244-251 | with one sample type a record is added exactly when its end time is not the error value and its samples, if any, are of type a, i, f or d |
| TraceLists.RunIsGood | src/libsrc/libmseed/tracelist.c:264-742 | after any run of successful additions the list is sorted, every ID is good, and every record added is in it exactly once |
| TraceListStore.CompareNames | src/libsrc/libmseed/tracelist.c:270-285 | the byte-wise comparison with its count of agreeing bytes |
| TraceListStore.TraceList.Find | src/libsrc/libmseed/tracelist.c:264-349 | the search finds the matching ID, or the one behind which the new one belongs, although it goes by agreeing bytes and differences |
| TraceListStore.TraceList.AddRecord | src/libsrc/libmseed/tracelist.c:219-748 | adding a record in place does what the list of values says, errors included |
| TraceListStore.Run | src/libsrc/libmseed/tracelist.c:219-748 | any run of additions to an empty list |
| JsonObject.HashString | src/libsrc/libmseed/parson.c:393-411 | the hash of a name up to its NUL, in 64 bits |
| JsonObject.HashIs | src/libsrc/libmseed/parson.c:393-411 | the hash is the number whose digits to the base 33 are the bytes of the name, behind 5381, in 64 bits |
| JsonObject.JsonObject.GetCellIx | src/libsrc/libmseed/parson.c:529-558 | probing finds the cell of a name that is there, otherwise the empty cell for it; it ends because a cell is empty |
| JsonObject.JsonObject.GrowAndRehash | src/libsrc/libmseed/parson.c:499-527 | growth keeps all items in order and makes room |
| JsonObject.JsonObject.Add | src/libsrc/libmseed/parson.c:560-594 | adding fails exactly for a name that is there, otherwise appends the item |
| JsonObject.JsonObject.SetValue | src/libsrc/libmseed/parson.c:2061-2102 | setting replaces the value in its place or appends the item |
| JsonObject.JsonObject.GetnValue | src/libsrc/libmseed/parson.c:596-612 | looking up finds the value of a name, or that there is none |
| JsonObject.JsonObject.Remove | src/libsrc/libmseed/parson.c:614-672 | removing takes out the item and moves the last one into its place |
| JsonObject.JsonObject.BackwardShift | src/libsrc/libmseed/parson.c:647-670 | backward-shift deletion keeps every other item reachable from its home cell |
| HashCells.ShiftMoves | src/libsrc/libmseed/parson.c:656-666 | moving an entry back into the hole keeps all entries reachable |
| HashCells.ShiftSkips | src/libsrc/libmseed/parson.c:656-661 | an entry that stays put is rightly left where it is |
| HashCells.MustMoveMeans | src/libsrc/libmseed/parson.c:656-661 | the comparison of cell numbers decides whether the hole lies between an entry and its home, around the end of the array |
| HashCells.EmptyCell | src/libsrc/libmseed/parson.c:429-469 | a table with fewer items than cells has an empty cell |
| JsonObject.AddedMap | src/libsrc/libmseed/parson.c:560-594 | adding a name adds it to the map |
| JsonObject.UpdatedMap | src/libsrc/libmseed/parson.c:2061-2102 | setting is updating the map |
| JsonObject.RemovedMap | src/libsrc/libmseed/parson.c:614-672 | removing is removing from the map |
| JsonObject.RunIsMap | src/libsrc/libmseed/parson.c:499-672 | after any sequence of operations the items are those of the map they describe |
| JsonObject.Run | src/libsrc/libmseed/parson.c:499-672 | the hash table after any sequence of operations answers as that map does |
| JsonSerializer.SerializeString | src/libsrc/libmseed/parson.c:1251-1316 | a string is written escaped, or only measured, and nothing outside its bytes changes |
| JsonSerializer.SerializeArray | src/libsrc/libmseed/parson.c:1118-1148 | an array with its separators, breaks and indents |
| JsonSerializer.SerializeObject | src/libsrc/libmseed/parson.c:1149-1199 | an object with its names, separators, breaks and indents |
| JsonSerializer.SerializeR | src/libsrc/libmseed/parson.c:1108-1249 | exactly the printed text and a NUL are written, and the measuring pass returns the length the writing pass writes |
| JsonSerializer.SerializationSize | src/libsrc/libmseed/parson.c:1776-1780 | the size is that of the text and its NUL |
| JsonSerializer.SerializeToBuffer | src/libsrc/libmseed/parson.c:1782-1793 | serializing succeeds exactly when the buffer holds the text and its NUL, and otherwise leaves it alone |
| JsonParser.SkipQuoted | src/libsrc/libmseed/parson.c:761-779 | the closing quote is found behind escapes, or none |
| JsonParser.Process | src/libsrc/libmseed/parson.c:830-885 | the loop over a string with its escapes computes the processed string, or fails |
| JsonParser.GetQuotedString | src/libsrc/libmseed/parson.c:887-896 | the processed contents and the place behind the closing quote |
| JsonParser.Value | src/libsrc/libmseed/parson.c:898-921 | a value and the place behind it, by its first character |
| JsonParser.ArrayValue | src/libsrc/libmseed/parson.c:996-1043 | the loop over the items of an array |
| JsonParser.ObjectValue | src/libsrc/libmseed/parson.c:923-994 | the loop over the members of an object, with names that are refused |
| JsonParser.ParseString | src/libsrc/libmseed/parson.c:1360-1368 | a text, behind a byte order mark if there is one |
| JsonEscapes.ParsesEscapes | src/libsrc/libmseed/parson.c:781-825 | an escape is read exactly when it stands for a code point, by itself or as a pair of surrogates, and then as the bytes of that code point |
| JsonEscapes.EncodesCodePoint | src/libsrc/libmseed/parson.c:795-820 | these bytes are one character of UTF-8, the one of the code point |
| JsonEscapes.EscapesAre | src/libsrc/libmseed/parson.c:1257-1302 | how each byte is printed: by its letter behind a backslash, a slash as asked for, other control characters by their number, everything else as it is |
| JsonEscapes.HexValuesAre | src/libsrc/libmseed/parson.c:282-291 | hexadecimal digits in either case and nothing else |
| JsonRoundTrip.ProcessesEscapes | src/libsrc/libmseed/parson.c:830-885 | an escaped string is processed back to the string |
| JsonRoundTrip.QuotedParses | src/libsrc/libmseed/parson.c:887-896 | a printed string is read back, wherever it stands |
| JsonRoundTrip.ItemsParse | src/libsrc/libmseed/parson.c:1012-1032 | printed items are read back to the closing bracket |
| JsonRoundTrip.MembersParse | src/libsrc/libmseed/parson.c:944-984 | printed members are read back to the closing brace, their names found distinct |
| JsonRoundTrip.ValueParses | src/libsrc/libmseed/parson.c:898-921 | a printed value is read back as itself, wherever it stands, consuming exactly its text |
| JsonRoundTrip.ValueTooDeep | src/libsrc/libmseed/parson.c:899-901 | a value that nests deeper than allowed does not parse |
| JsonRoundTrip.RoundTrip | src/libsrc/libmseed/parson.c:761-1058 | parsing undoes printing, plain or pretty, exactly for values that nest no deeper than MAX_NESTING |
| JsonSpacing.SpacedParses | src/libsrc/libmseed/parson.c:898-1058 | whatever white space stands before, between and behind the tokens of a value (RFC 8259, section 2), the text parses to that value |
| JsonSpacing.LaidParses | src/libsrc/libmseed/parson.c:898-1058 | the same anywhere in a text |
| JsonSpacing.SpacesAre | src/libsrc/libmseed/parson.c:76 | what is skipped: the white space of RFC 8259, vertical tabs and form feeds |
| JsonSpacing.BeginsNoValue | src/libsrc/libmseed/parson.c:898-921 | what begins like no value is not parsed |
| JsonEscapes.FourDigits | src/libsrc/libmseed/parson.c:293-307 | four hexadecimal digits are a number, the highest first |
| JsonGrammar.StringsAccepted | src/libsrc/libmseed/parson.c:761-896 | a string is accepted exactly when it is characters as RFC 8259, section 7 writes them, in quotes, and is the bytes they stand for |
| JsonGrammar.ValueAccepted | src/libsrc/libmseed/parson.c:898-1106 | at any place exactly those values are parsed that are written there by the grammar of RFC 8259, with or without a comma behind the last item, that nest no deeper than allowed and whose names in each object are different and hold no NUL |
| JsonGrammar.TextAccepted | src/libsrc/libmseed/parson.c:1360-1368 | so a text is parsed exactly when it begins, behind a byte order mark if there is one, with such a value |
| JsonGrammar.CommaBehindLast | src/libsrc/libmseed/parson.c:1022-1030 | a comma behind the last item is accepted |
| JsonFormat.CompactPrints | src/libsrc/libmseed/parson.c:1108-1249 | without line breaks a value is printed as its tokens and nothing else |
| JsonFormat.IndentIs | src/libsrc/libmseed/parson.c:1318-1326 | with them each level is indented by four blanks |
| JsonReadBack.WriteAndParse | src/libsrc/libmseed/parson.c:1776-1793 | measuring, writing to a buffer of that size and parsing it gives the value back, exactly when it does not nest too deep |
| Calendar.Gmtime64 | src/libsrc/libmseed/gmtime64.c:71-185 | the fields are those of the time in the proleptic Gregorian calendar, negative times included, with the day of the year and of the week of the date; NULL exactly when the year does not fit an int |
| Calendar.YearsForward | src/libsrc/libmseed/gmtime64.c:112-127 | cycles of 400 years and then years, from a day on, in at most 400 rounds |
| Calendar.YearsBack | src/libsrc/libmseed/gmtime64.c:139-156 | the same back in time, counted from the end of a year, in at most 800 rounds |
| Calendar.MonthsForward | src/libsrc/libmseed/gmtime64.c:129-135 | the month of a day of the year |
| Calendar.MonthsBack | src/libsrc/libmseed/gmtime64.c:158-165 | the same counted back from the end of the year |
| Calendar.MonthsAre | src/libsrc/libmseed/gmtime64.c:42-59 | lengths and beginnings of months, by tables for both kinds of year |
| Calendar.FieldsMakeDate | src/libsrc/libmseed/gmtime64.c:167-183 | the fields of a time make a date of the calendar, whose day of the year and day of the week are those of that date |
| Calendar.WrapIsFloor | src/libsrc/libmseed/gmtime64.c:87-97 | truncating divisions and borrowing give the floors |
| Calendar.DayOfCycles | src/libsrc/libmseed/gmtime64.c:112-118 | 400 years are 146097 days, in any position |
| Calendar.CheatIsRight | src/libsrc/libmseed/gmtime64.c:61-63 | the shortcut begins on the first day of 2008 |
| Calendar.FieldsUnique | src/libsrc/libmseed/gmtime64.c:71-185 | a time has only one set of fields |
| NsTime.NstimeToTime | src/libsrc/libmseed/genutils.c:827-868 | every 64-bit nanosecond time, negative fractions included, has valid fields that make that time |
| NsTime.TimeToNstimeIsTime | src/libsrc/libmseed/genutils.c:1105-1126 | the leap-day arithmetic counts the days of the calendar, for all years |
| NsTime.KeepsOrder | src/libsrc/libmseed/genutils.c:1105-1126 | the order of the fields is the order of the times |
| NsTime.TimeRoundTrip | src/libsrc/libmseed/genutils.c:827-868 | the fields of a time make that time again |
| NsTime.FieldsRoundTrip | src/libsrc/libmseed/genutils.c:1105-1126 | valid fields come back unchanged |
| NsTime.CheckedRoundTrip | src/libsrc/libmseed/genutils.c:1143-1184 | with the range checks the round trip holds exactly from 1678 on |
| Glob.GlobMatch | src/libsrc/libmseed/selection.c:811-924 | matching returns true exactly when the pattern matches the string, the skipping after a star included, and ends |
| Glob.MatchStar | src/libsrc/libmseed/selection.c:826-843 | the branch for stars |
| Glob.ReadSet | src/libsrc/libmseed/selection.c:854-909 | whether a set holds a character and where it ends, or that it does not |
| Glob.HoldsLists | src/libsrc/libmseed/selection.c:865-899 | in a set without a hyphen behind a range or at its end the matcher finds exactly the characters and ranges listed |
| Glob.PlainReads | src/libsrc/libmseed/selection.c:865-899 | so such sets read as they list |
| Glob.ReadsExactly | src/libsrc/libmseed/selection.c:865-899 | any set reads as it lists exactly when it does for its own characters and the ones next above them |
| Glob.MatchesDocumented | src/libsrc/libmseed/selection.c:765-783 | for patterns with sets that read as they list matching is what the documentation describes |
| Glob.OneSetExactly | src/libsrc/libmseed/selection.c:854-909 | a pattern of one set matches what its documentation says exactly when that set reads as it lists |
| Glob.RangeHolds | src/libsrc/libmseed/selection.c:865-885 | a range in order holds what is between its ends, another only its ends |
| Glob.SpecialCharacters | src/libsrc/libmseed/selection.c:765-783 | what stars, question marks, sets, negated sets and escapes match |
| Glob.HyphenBehindRangeExactly | src/libsrc/libmseed/selection.c:865-899 | a set of two ranges that share an end reads as it lists exactly when the hyphen between them is in one of them and the second adds nothing else |
| Glob.HyphenBehindRange | src/libsrc/libmseed/selection.c:870-880 | a set where the matcher reads a range that is not listed |
| Utf8.Utf8Length | src/libsrc/libmseed/genutils.c:514-532 | the automaton measures the longest part of whole characters within the maximum length |
| Utf8.WholeIsLongest | src/libsrc/libmseed/genutils.c:496-513 | that part is well-formed and none longer is (RFC 3629, section 4) |
| Utf8.Accepts | src/libsrc/libmseed/genutils.c:479-494 | the table accepts for the first time where a character ends, and never when there is none |
| Utf8.IsValidUtf8 | src/libsrc/libmseed/parson.c:366-376 | a string is valid exactly when it is well-formed |
| Utf8.VerifyIsChar | src/libsrc/libmseed/parson.c:309-364 | the decoder accepts exactly the characters of the standard: no overlong form, surrogate or code point beyond 10FFFF |
| Utf8.Agreement | src/libsrc/libmseed/genutils.c:514-532 | the automaton accepts a whole string exactly when the decoder does |
| Utf8.BothForms | src/libsrc/libmseed/genutils.c:514-532 | run on one string, utf8length_int measures the whole of it exactly when is_valid_utf8 finds it valid |

## Left out

- How `msr3_pack_header2` makes codes, rate bytes, quality, flags, time correction and the blockettes behind the first from an identifier and extra headers, with its refusals: these bytes are fields of the record packed. The microseconds of the first record stay in the blockette 1001 of all records; so they do in the model, and no statement is made about the time that a reader adds up from both.
- The header part of `msr3_unpack_mseed2`: the data of a version 2 record is unpacked by its count, data offset, and the encoding in the blockette 1000, taken to be big endian and to be the first blockette, as packing writes it.
- Unpack2.PackAndUnpack2: record lengths up to 32768, so that offsets fit 16 bits.
- In both record loops the position of the next sample, `packoffset`, is a 32-bit integer in bytes and overflows when the samples take more than 2147483647 bytes; here it is a number of samples and unbounded.
- Records without samples and header defaults for a record length or encoding of -1 in `msr3_pack_mseed3`: the former leave parts of their header unset.
- GEOSCOPE, CDSN, SRO and DWWSSN decoding.
- Sample rates are reals: rounding in floating point, and how a rate is stored in its 8 header bytes, are not modelled; those bytes are carried as they are.
- Leap seconds: the list is taken to be empty.
- Allocation failures, NULL arguments, logging, verbosity and debug output.
- Byte ranges of a stream (`endoffset`): with one, whether the end or an error is reported when nothing was read depends on how the stream arrives. Read errors and opening of streams are left out too.
- Reader.MS3FileParam.ReadRecord: holds for streams on which no version 2 header is met: for version 2 the result does depend on how the stream arrives (`Framing.ArrivalMatters`, and a length without blockette 1000 is searched for in what happens to be in the buffer, or taken from the length of the buffer at the end of the file). It holds for header lengths whose sum fits 32 bits. The selection test is a parameter.
- Detect.MsDetect: the memory is taken to go on for eight bytes behind the buffer, which the walk through the blockettes may touch; shifts by 32 or more wrap.
- PackData.MsDecodeData: text, INT16, INT32, FLOAT32 and FLOAT64 payloads shorter than their samples are refused, where the code reads on behind them.
- PackData.EncodeInt16: an odd last byte of the buffer is not modelled, nor are the last bytes that make no whole value in `PackData.EncodeInt32` (up to three) and `PackData.EncodeFloat64` (up to seven); the code zeroes them.
- SteimEncoder.Encode: with a swapped output and a buffer shorter than one frame the code swaps through a null pointer; its caller excludes that and so does a precondition. The number of bytes written is 0 here where the code leaves it alone.
- Steim with a first difference other than 0 is modelled but not used, since the caller never passes one.
- Crc32c.TableIsShifts: the tables are defined by recurrence from the polynomial; the 2048 literals of the source are not compared with them.
- TraceListStore.TraceList.AddRecord: the byte behind the NUL of each identifier is zero (`Tidy`; otherwise duplicates arise, see above); the mode of splitting on versions is the same for all additions, and the default tolerances are used (custom tolerance functions are left out). Record lists, private pointers and preallocation are left out.
- TraceOrder.AnyOrder: for series of one rate and type whose records two apart are more than one and a half periods apart, which `TraceOrder.TwoSamplesApart` shows of records of two samples and more; `TraceJoins.AnyOrderExactly` shows that these are all.
- TraceJoins.WhereItGoes: for records whose sample period is a nanosecond or more; with none a segment can fit at both of its ends.
- JsonObject.JsonObject.Remove: memory and parent pointers are not modelled; hashes are reduced by remainder instead of a mask, which is the same for a power of two. `json_object_clear`, dotted names and arrays as a container are left out.
- JsonRoundTrip.RoundTrip: how numbers are printed and read (`sprintf`, `strtod`) is a parameter with the property that a printed number is read back when white space, a comma or a bracket follows; whether strings are valid UTF-8 is not asked by the parser.
- Glob.GlobMatch: patterns that end with `[^` make the code read on behind their NUL and are excluded.
- Calendar.Gmtime64: the month tables are given as lengths and sums.
- Lists of selections, extra header access, the tools around the library, floating-point helpers and printing.
