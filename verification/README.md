# Media tools: a verified model

A Dafny 4.11 model of the self-contained logic in the repository's small media tools, with proofs
about it. `dafny verify dfyconfig.toml` checks the whole project.

- **MP4 to Annex B** (`AnnexB`, `ParameterSets`, `Mp4ToAnnexB`, `AnnexBRoundTrip`): the converter of
  `extr_video.c`. `AnnexB` is the reference: the byte stream format of ITU-T H.264 section B.1.1 and
  the decoding process of section B.2. The other modules are the `avcC` parser with its jump into the
  loop body, the packet loop with its growing output, and what a decoder makes of the result.
- **RIFF/WAVE** (`WavReader`, `WavGrammar`, `PcmInput`, `AacEncoder`): the file cursor, both chunk loops with
  their unsigned byte count, reading in pieces, the sample conversion of the AAC encoder, and the way from
  a file to its samples.
- **The x264 command line** (`Timestamps`, `QpFile`, `FilterChain`): pulldown clock and timestamp
  repair, the qpfile cursor, and the filter chain that is cut up in place.
- **ADTS** (`Adts`): the bit fields of ISO/IEC 13818-7 section 6.2 and a reader that only follows lengths.
- **Packet loops** (`Packets`, `Merge`, `Remux`, `Cut`), `GcdLcm`, and `Interleave`.
- `Bytes`, `Results`, `Sequences` and `Arithmetic` are shared helpers.

Code that works step by step is a method or a class with the fields of the source; it is tied to a
function, and the laws are proved about that function. `hide` statements only keep definitions away
from the solver where a proof does not need them.

## What turned out not to hold

Each of these is proved as an exact condition.

- `extr_video.c` writes all of its output packet after every unit, so a packet with several NAL units
  leaves its earlier units in the file more than once (`FileRoundTrip`, `FirstUnitTwice`). The comment at
  line 227 speaks of the first IDR unit only; the code, and the model, prepend parameter sets to every one.
- A short extensible `fmt ` chunk throws the WAVE reader out of step by 16 bytes (`OuterLoopStaysInStep`, with the
  files of `ShortExtensibleSkipsAhead` as witnesses).
- A `data` chunk without bytes makes the WAVE reader take everything behind it for samples (`OpenRoundTrip`,
  `EncodedChunks`), and a truncated file breaks the sum of bytes delivered and bytes left (`BytesConserved`,
  `TruncatedDataIsLost`).
- Timestamp repair is not minimal when frames are more than one tick apart (`RepairLeast`), and pulldown
  mode 64 does not run at the ratio its table entry declares (`TimestampClosedForm`).
- A qpfile record behind one of a later frame is never used (`LookupIsFirst`, `LaterFrameHides`).
- Two inputs that both carry timestamps are not interleaved by `avmerge.c` (`TimestampedInputsAreNotInterleaved`).
- Cutting can make a packet's presentation time earlier than its decoding time (`DelaysKeptIff`,
  `DelayCanTurnNegative`), and moves the first two packets of a stream to the same decoding time when it
  starts at zero (`StrictKeptIff`, `StrictnessCanBeLost`).
- An ADTS file cannot be walked once a packet exceeds 8184 bytes (`WalkRecovers`,
  `OversizedPacketStopsWalk`); `lcm` is wrong when the least common multiple needs more than 64 bits (`Lcm`,
  `LcmCanOverflow`).

## Model

| member | source | states |
|---|---|---|
| `AnnexB.DecodeStream` | coding-279/extr_video.c:25-57 | a decoder gets back exactly the units a stream of three- and four-byte start codes was made of, if and only if no unit holds 00 00 00 or 00 00 01 and no unit before another ends in zero |
| `AnnexB.DecodeAtLeast` | coding-279/extr_video.c:25-57 | whatever stands before it, every start code begins a unit: a decoder finds at least as many units as a stream was made of |
| `ParameterSets.RecordOfIffIsRecord` | coding-279/extr_video.c:71-149 | what the parser reads from an `avcC` record is a list of SPS and PPS if and only if the record stores exactly these, none leaving its bytes, for zero units of either kind too |
| `ParameterSets.WrittenRecord` | coding-279/extr_video.c:71-149 | a record written out, with five bits for the number of SPS and a byte for that of PPS, is read back as exactly its parameter sets, whatever follows it |
| `ParameterSets.AnnexBBytes` | coding-279/extr_video.c:133-139 | one SPS and one PPS as bytes: 00 00 00 01 before each, the SPS first |
| `ParameterSets.GuardNeverFires` | coding-279/extr_video.c:115-121 | with any padding up to INT_MAX - 18744154 the size guard is never the reason of a failure: a record converts exactly if it is well formed |
| `ParameterSets.ProgressTooBig` | coding-279/extr_video.c:115-121 | when the guard fires inside the loop, the whole record is too large or ill formed |
| `ParameterSets.AppendUnit` | coding-279/extr_video.c:133-139 | growing the buffer and the two copies append 00 00 00 01 and the unit to what is there |
| `ParameterSets.ExtradataToAnnexB` | coding-279/extr_video.c:59-170 | the loop entered through a label terminates and succeeds exactly on convertible records; the output is each SPS then each PPS behind 00 00 00 01, followed by zeroed padding, or no buffer at all |
| `Mp4ToAnnexB.Packet.Grow` | coding-279/extr_video.c:33-36 | a grown packet keeps its contents; a refused one keeps everything |
| `Mp4ToAnnexB.FillIn` | coding-279/extr_video.c:38-54 | the stores leave old contents, parameter sets, start code and unit in this order |
| `Mp4ToAnnexB.Packet.AllocStartCodeAndCopy` | coding-279/extr_video.c:25-57 | appends parameter sets, a start code (four bytes only at the front of the packet) and the unit, or changes nothing when the packet cannot grow |
| `Mp4ToAnnexB.ReadNalSize` | coding-279/extr_video.c:214-215 | four shifts give the big-endian length as a 32-bit signed number |
| `Mp4ToAnnexB.EmitGrows` | coding-279/extr_video.c:195-260 | the output of more units is strictly longer, so the units that fit into the output are a prefix |
| `Mp4ToAnnexB.ConvertPacket` | coding-279/extr_video.c:172-266 | on every packet: terminates, writes all output so far after each unit that fits, and reports success exactly if all units fit and use up a non-empty packet; the 32-bit byte count always equals the cursor |
| `Mp4ToAnnexB.ExtractVideo` | coding-279/extr_video.c:332-339 | the file holds the writes of every packet of the video stream, in order; packets of other streams may hold anything |
| `AnnexBRoundTrip.ExactlyFramedIff` | coding-279/extr_video.c:195-260 | the accepted packets are exactly the framings of non-empty lists of units with lengths below 2^31, and the units read are that list |
| `AnnexBRoundTrip.FrameBytes` | coding-279/extr_video.c:214-215 | the frame of a unit is its length, most significant byte first, and the unit |
| `AnnexBRoundTrip.IdrBytes` | coding-279/extr_video.c:221 | the units of type 5, by their first byte |
| `AnnexBRoundTrip.PacketRoundTrip` | coding-279/extr_video.c:195-260 | the final output decodes to the packet's units with all SPS then PPS before each type-5 unit, if and only if these are separable |
| `AnnexBRoundTrip.StandardPacketRoundTrip` | coding-279/extr_video.c:195-260 | for units and parameter sets that conform to section 7.4.1 of H.264 this round trip always holds |
| `AnnexBRoundTrip.ExtractedFile` | coding-279/extr_video.c:332-339 | for an input whose video packets frame lists of non-empty units, among any packets of other streams, the writes of the extraction loop join to the file the next law is about |
| `AnnexBRoundTrip.FileRoundTrip` | coding-279/extr_video.c:248-249 | for any non-empty units, the file decodes to the units of every write if and only if these are separable, and to the packets' units if and only if every packet has a single unit and these are separable |
| `AnnexBRoundTrip.StandardFileRoundTrip` | coding-279/extr_video.c:248-249 | for units that conform to section 7.4.1 of H.264 only the number of units per packet matters |
| `AnnexBRoundTrip.FirstUnitTwice` | coding-279/extr_video.c:248-249 | a packet of two units whose first is found in the file twice |
| `WavReader.Reader.Fgetc` | fdk-aac-2.0.1/wavreader.c:43 | delivers the byte at the cursor, or -1 and the end-of-file flag |
| `WavReader.Reader.ReadTag` | fdk-aac-2.0.1/wavreader.c:41-48 | the big-endian tag at the cursor, all ones when a byte is missing, and when the end-of-file flag is up |
| `WavReader.Reader.ReadInt32` | fdk-aac-2.0.1/wavreader.c:50-57 | the little-endian number at the cursor, with all bits from the first missing byte up set |
| `WavReader.Reader.ReadInt16` | fdk-aac-2.0.1/wavreader.c:59-64 | the same for 16 bits |
| `WavReader.ReadBytes` | fdk-aac-2.0.1/wavreader.c:41-64 | which byte of the file counts for what in a tag and in a number, and what a missing byte counts for |
| `WavReader.Reader.Skip` | fdk-aac-2.0.1/wavreader.c:66-70 | moves by the count, not past the end, and not at all for counts of 2^31 and more |
| `WavReader.HugeSkip` | fdk-aac-2.0.1/wavreader.c:66-70 | counts of 2^31 and more skip nothing, others stop at the end of the file |
| `WavReader.Reader.ReadFormat` | fdk-aac-2.0.1/wavreader.c:121-126 | reads the six fields, as signed numbers where the structure has them |
| `WavReader.Reader.ReadChunk` | fdk-aac-2.0.1/wavreader.c:107-150 | one round of the inner loop refines the step function, in all of its exits |
| `WavReader.Reader.ReadRiff` | fdk-aac-2.0.1/wavreader.c:86-155 | one round of the outer loop refines the step function |
| `WavReader.Reader.Open` | fdk-aac-2.0.1/wavreader.c:72-158 | terminates on every file with what the walk over its chunks says, the cursor on the sample data |
| `WavReader.Reader.GetHeader` | fdk-aac-2.0.1/wavreader.c:167-180 | reports the fields, and success exactly for a known format and rate |
| `WavReader.Reader.ReadData` | fdk-aac-2.0.1/wavreader.c:182-192 | delivers what the request, the data and the file allow, and charges the cut-down request to a 32-bit count |
| `WavGrammar.StepKeepsEnd` | fdk-aac-2.0.1/wavreader.c:107-150 | on any file, cursor plus bytes left stays on the end of the RIFF chunk, except at the short extensible exit, which is 16 bytes off |
| `WavGrammar.WalkKeepsEnd` | fdk-aac-2.0.1/wavreader.c:107-154 | the whole inner loop ends on the end of its RIFF chunk, or exactly 16 bytes behind it after that exit |
| `WavGrammar.OuterLoopStaysInStep` | fdk-aac-2.0.1/wavreader.c:86-155 | whatever is inside a whole chunk, the outer loop goes on 8 plus length bytes further if and only if it does not run into that exit |
| `WavGrammar.ShortExtensibleSkipsAhead` | fdk-aac-2.0.1/wavreader.c:127-131 | files whose first chunk ends at 36 and does run into it: the next chunk is looked for at 52 |
| `WavGrammar.FormatSizes` | fdk-aac-2.0.1/wavreader.c:116-134 | a `fmt ` chunk needs 16 bytes, or 28 when it starts with fe ff, and exactly then the inner loop goes on |
| `WavGrammar.ChunkBytes` | fdk-aac-2.0.1/wavreader.c:107-149 | the serialised chunks byte by byte: "fmt ", "data" or another tag, the length and the contents |
| `WavGrammar.WaveBytes` | fdk-aac-2.0.1/wavreader.c:86-105 | the same for "RIFF" and "WAVE" |
| `WavGrammar.WalkIsDigest` | fdk-aac-2.0.1/wavreader.c:107-150 | on serialised sub-chunks the inner loop computes what the chunks mean, including the early return at empty data |
| `WavGrammar.WalkIsDigestTops` | fdk-aac-2.0.1/wavreader.c:86-155 | the same for whole files of foreign chunks, RIFF chunks of other forms, and RIFF/WAVE chunks |
| `WavGrammar.DigestIsLast` | fdk-aac-2.0.1/wavreader.c:116-145 | the last format and the last data win |
| `WavGrammar.OpenRoundTrip` | fdk-aac-2.0.1/wavreader.c:72-158 | opening a RIFF/WAVE file written from any chunks yields the last format's fields, the last data's length, and a cursor on its first byte, at the place this chunk has in the file; with empty data, and only then, it yields a stream, the last format before it, and a cursor behind its header |
| `WavGrammar.SamplesRoundTrip` | fdk-aac-2.0.1/wavreader.c:72-192 | what can be read from there is the last data chunk, or all chunks behind the first empty one |
| `WavGrammar.OpenStream` | fdk-aac-2.0.1/wavreader.c:93-104 | a RIFF length of 0, or of 0x7fff0000 and more, opens a stream: the last format before the first data, and all bytes behind the header of that data whatever its length |
| `PcmInput.ChunkedReading` | fdk-aac-2.0.1/wavreader.c:182-192 | for any request sizes the pieces join to one stretch of the file of length min(requests, data, file), and the count falls by min(requests, data) |
| `PcmInput.BytesConserved` | fdk-aac-2.0.1/wavreader.c:187-190 | bytes delivered plus bytes left is constant exactly as long as the file holds what is read |
| `PcmInput.TruncatedDataIsLost` | fdk-aac-2.0.1/wavreader.c:187-190 | a file of one byte that promises four: one is delivered, and none is left |
| `PcmInput.SamplesAppend` | fdk-aac-2.0.1/aac-enc.c:195-198 | pieces of even length can be converted one by one |
| `PcmInput.SamplesOfPcm` | fdk-aac-2.0.1/aac-enc.c:195-198 | any 16-bit samples stored with the low byte first come back, and one odd byte behind them adds nothing |
| `PcmInput.ConvertSamples` | fdk-aac-2.0.1/aac-enc.c:195-198 | the conversion loop stores the little-endian signed samples of the bytes read |
| `PcmInput.FeedEncoder` | fdk-aac-2.0.1/aac-enc.c:181-228 | for every even buffer size the encoder gets exactly the samples of the data, in order, in full buffers but for the last, without at most one odd last byte; also for streams and truncated files |
| `AacEncoder.EncodeFile` | fdk-aac-2.0.1/aac-enc.c:90-228 | opens, checks and feeds any file: the samples are those the walk over it leads to, if its format is PCM of 16 bits in one to six channels |
| `AacEncoder.EncodedChunks` | fdk-aac-2.0.1/aac-enc.c:90-228 | from chunks to samples: the encoder gets exactly the samples of the last data chunk, or, when there is empty data, those of all chunks behind the first empty one |
| `AacEncoder.EncodedPcm` | fdk-aac-2.0.1/aac-enc.c:90-228 | a file whose last data chunk stores some samples gives the encoder these samples |
| `Timestamps.TimestampClosedForm` | x264/x264.c:241-258 | frame n is stamped ceil(n * factor) in modes 22, 32, double, triple and euro for all n, and in mode 64 only for n = 0 |
| `Timestamps.P64ClosedForm` | x264/x264.c:245 | mode 64 stamps frame n at floor(5n/2) |
| `Timestamps.TimestampIncreases` | x264/x264.c:1977-1979 | pulldown timestamps strictly increase in every mode |
| `Timestamps.RepairAdmissible` | x264/x264.c:1984-1996 | repaired timestamps strictly increase from zero and none is below its original |
| `Timestamps.RepairIdentity` | x264/x264.c:1984-1996 | timestamps are left alone, without a warning, exactly if they already increase |
| `Timestamps.RepairIdempotent` | x264/x264.c:1984-1996 | repairing twice changes nothing more |
| `Timestamps.WarningsCountChanges` | x264/x264.c:1986-1992 | the warning counter is the number of changed frames |
| `Timestamps.RepairLeast` | x264/x264.c:1992 | the repaired sequence is the least admissible one if and only if a frame is one tick or the originals already increase |
| `Timestamps.RepairBound` | x264/x264.c:1992 | the i-th timestamp exceeds all originals by at most i+1 steps, which bounds the 64-bit range needed |
| `Timestamps.EncodeTimestamps` | x264/x264.c:1947-1996 | frame i is stamped i, or at the rounded-up time of its pulldown mode, without a warning; with variable frame rate each frame keeps its own timestamp if that is later than the one before, and otherwise comes one step behind it, with a warning for exactly these |
| `Timestamps.ConstantRateNeedsNoRepair` | x264/x264.c:1972-1993 | with constant rate or any pulldown the repair branch is never taken |
| `QpFile.Reader.Parse` | x264/x264.c:1789-1829 | reads to the first record not before the frame, takes it if it is the frame's own, goes back otherwise, and closes the file on a bad one |
| `QpFile.RecordFormat` | x264/x264.c:1812-1822 | the six letters and the frame types they force, and the range of quantizers; every other record is bad |
| `QpFile.ForceFrames` | x264/x264.c:2000-2001 | for consecutive frames from any start, each frame gets what a lookup in the whole file finds, although each call sees only the moving cursor |
| `QpFile.LookupIsFirst` | x264/x264.c:1793-1811 | this lookup finds the first record of the frame unless a record of a later frame stands before it, and exactly then |
| `QpFile.LaterFrameHides` | x264/x264.c:1793-1811 | a record that is not found behind one of a later frame |
| `QpFile.SortedLookup` | x264/x264.c:1793-1811 | in a sorted file it always finds the first record |
| `QpFile.SortedForcing` | x264/x264.c:1789-1829 | in a sorted file of good records every frame is forced to its first record, and left alone if it has none |
| `QpFile.PrintedForcing` | x264/x264.c:1789-1829 | records printed in the order of frames force on each frame the type and quantizer that were printed for it |
| `FilterChain.ParsePrintAll` | x264/x264.c:1307-1317 | a list of filters is recovered from its printed form if and only if names hold no slash or colon, options no slash, and the last filter is not empty |
| `FilterChain.Strcspn` | x264/x264.c:1309-1312 | the distance to the first separator or terminator |
| `FilterChain.TakePiece` | x264/x264.c:1309-1317 | one round in place: the two C strings are the piece before the first slash divided at its first colon, and only this piece and its slash have changed |
| `FilterChain.InitFilters` | x264/x264.c:1306-1318 | terminates; the filters created, and the buffer, are those of the parsed chain up to the first filter refused, where a refusal may depend on the filters created before |
| `FilterChain.CallsUpToRefusal` | x264/x264.c:1315-1316 | the calls are the first filters of the chain, each accepted after the ones before it but a refused last one |
| `FilterChain.AcceptedCalls` | x264/x264.c:1315-1316 | when no filter is refused all pieces are created in order and the whole chain is cut |
| `FilterChain.CutOnlySeparators` | x264/x264.c:1311-1313 | the cut chain differs from the original at slashes and colons only, and every slash has become a terminator |
| `Adts.ObjectType` | coding-279/extr_audio.c:14-31 | the profiles 0 to 3 get their number plus one, every other value the type of LC |
| `Adts.GetSampleRateIndex` | coding-279/extr_audio.c:33-52 | the index of the core rate, or that of 44100 Hz for a rate not in the table |
| `Adts.AdtsHeader` | coding-279/extr_audio.c:62-94 | the seven bytes filled in place decode to sync 0xfff, no CRC, the computed profile, rate and channels, the 13-bit length, fullness 0x7ff and one block |
| `Adts.DecodeParts` | coding-279/extr_audio.c:72-93 | the packed bytes come apart into the fields they were packed from |
| `Adts.HeaderTells` | coding-279/extr_audio.c:62-94 | length, channels and rate in the header are true exactly for at most 8184 bytes, up to seven channels, and a rate of the table |
| `Adts.ExtractAudio` | coding-279/extr_audio.c:206-223 | the file is one frame with the right header for each packet of the audio stream, in order |
| `Adts.FramesTell` | coding-279/extr_audio.c:14-94 | what every frame of the file says of its profile, rate, channels and length, and its fixed fields |
| `Adts.PayloadPlace` | coding-279/extr_audio.c:207-212 | each packet of the audio stream has its place behind those of the stream before it |
| `Adts.WalkRecovers` | coding-279/extr_audio.c:206-223 | a reader that follows only the frame lengths recovers every packet in order if and only if no packet exceeds 8184 bytes |
| `Adts.OversizedPacketStopsWalk` | coding-279/extr_audio.c:206-223 | a packet of 8185 bytes, whose length field is 0 |
| `Merge.MergeFiles` | coding-279/avmerge.c:191-284 | the loop with its flags, refused writes and ends of input terminates and writes the plain two-cursor merge of what can be written |
| `Merge.TakeFirst` | coding-279/avmerge.c:221-252 | a packet of the first input is rewritten as its place in the input demands, and only one without a timestamp moves the remembered time |
| `Merge.MergeKeepsStreams` | coding-279/avmerge.c:240-280 | each output stream is exactly its input's packets, rewritten, in order |
| `Merge.MergeRule` | coding-279/avmerge.c:193-195 | while the other input has packets, one of the second is written only when the first's remembered time is later, and one of the first only when it is not |
| `Merge.MergeRuleInSeconds` | coding-279/avmerge.c:193-195 | the same with both times in seconds, for any two time bases |
| `Merge.RememberedTimes` | coding-279/avmerge.c:221-266 | the times remembered are the last generated one of the first input and the last own one of the second |
| `Merge.MergedFields` | coding-279/avmerge.c:240-278 | every packet of either output stream, field by field |
| `Merge.GeneratedTimes` | coding-279/avmerge.c:221-238 | packets without a timestamp get the generated ones in order |
| `Merge.ConcatenatesIff` | coding-279/avmerge.c:193-195 | the output is the first input followed by the second exactly if the second is empty or the first's remembered time is never later than zero |
| `Merge.TimestampedInputsAreNotInterleaved` | coding-279/avmerge.c:221-238 | a first input whose packets all carry timestamps is written completely before the second, because the remembered time moves only in the other branch |
| `Remux.MapStreams` | coding-279/remuxing.c:67-94 | each kept stream maps to the number of kept streams before it, every other to -1 |
| `Remux.TargetNumber` | coding-279/remuxing.c:72-79 | audio, video and subtitle streams are kept, each numbered by those kept before it |
| `Remux.TargetsOrdered` | coding-279/remuxing.c:79 | the map preserves order and is one-to-one |
| `Remux.TargetsCover` | coding-279/remuxing.c:79 | every output stream has an input stream |
| `Remux.RoutePackets` | coding-279/remuxing.c:111-142 | writes the rewritten packets of kept streams up to the first refused write |
| `Remux.RouteDelivers` | coding-279/remuxing.c:118-141 | each output stream receives exactly its input stream's packets in order |
| `Remux.RouteFields` | coding-279/remuxing.c:125-135 | every packet of an output stream, field by field |
| `Remux.RouteOnlyKept` | coding-279/remuxing.c:118-123 | nothing goes to any other output stream |
| `Cut.CutPackets` | coding-279/cutvideo.c:84-135 | with the starts noted in place, the packets written are the moved packets of the piece: all packets up to the first one presented later than the end, in seconds, or refused; the laws below hold of exactly this output |
| `Cut.StartStays` | coding-279/cutvideo.c:106-113 | a start that has been noted never changes |
| `Cut.DtsStartIsFirst` | coding-279/cutvideo.c:106-109 | the start is the stream's first decoding time that is not zero |
| `Cut.PtsStartIsFirst` | coding-279/cutvideo.c:110-113 | the same for presentation times |
| `Cut.Moved` | coding-279/cutvideo.c:115-125 | a moved packet has no negative time and keeps its stream and data |
| `Cut.MovedDts` | coding-279/cutvideo.c:116-123 | a packet is written with its decoding time since the first one that is not zero, converted and not below zero |
| `Cut.MovedPts` | coding-279/cutvideo.c:115-120 | the same for presentation times |
| `Cut.MovedRest` | coding-279/cutvideo.c:115-125 | the other fields, and the times before any start |
| `Cut.MovedDtsOrdered` | coding-279/cutvideo.c:106-123 | decoding times that do not decrease within a stream do not decrease in the output, even when the start is noted in between |
| `Cut.StrictKeptIff` | coding-279/cutvideo.c:106-123 | strictly increasing decoding times of a stream stay so, between equal time bases, if and only if the first is not zero or the only one |
| `Cut.StrictnessCanBeLost` | coding-279/cutvideo.c:106-123 | packets at 0 and 10 that both come out at 0 |
| `Cut.DelaysKeptIff` | coding-279/cutvideo.c:106-123 | between equal time bases, and for any times, every packet of a stream comes out presented no earlier than decoded if and only if each one decoded after the stream's first non-zero decoding time has at least the delay between that time and the first non-zero presentation time, read by then |
| `Cut.DelaysKept` | coding-279/cutvideo.c:106-123 | for every conversion that keeps order and does not make zero positive this condition suffices |
| `Cut.FirstDelayDecides` | coding-279/cutvideo.c:106-113 | when a stream's first packet has two non-zero times, the condition is that later packets with a later decoding time have at least its delay |
| `Cut.DelayCanTurnNegative` | coding-279/cutvideo.c:116-123 | two well-formed packets for which it is not |
| `GcdLcm.Gcd` | x264/x264cli.h:50-60 | terminates for every non-zero b with a common divisor that every common divisor divides, through the signed temporary too |
| `GcdLcm.EuclidIsGcd` | x264/x264cli.h:50-60 | Euclid's recursion computes the greatest common divisor |
| `GcdLcm.GcdTimesLcm` | x264/x264cli.h:62-65 | gcd times lcm is the product |
| `GcdLcm.ExactIsLcm` | x264/x264cli.h:62-65 | a / gcd * b is a common multiple that divides every common multiple |
| `GcdLcm.LcmCanOverflow` | x264/x264cli.h:62-65 | two 64-bit numbers whose least common multiple needs 65 bits |
| `GcdLcm.Lcm` | x264/x264cli.h:62-65 | the 64-bit result is the least common multiple exactly if that fits into 64 bits |
| `Interleave.WriteFrame` | coding-279/testC.c:114-118 | byte b of sample i of channel c lands at (i*channels + c)*size + b |
| `Interleave.PlaceUnique` | coding-279/testC.c:114-118 | no two bytes share a place |
| `Interleave.PackedUnique` | coding-279/testC.c:114-118 | every byte of the output is determined |
| `Interleave.UnpackRecovers` | coding-279/testC.c:114-118 | taking each channel's bytes from their places recovers every plane |

## Left out

- Media libraries behind the tools (demuxing, muxing, codecs, scaling): their calls are parameters, `av_rescale_q_rnd` is any function, required to keep order only where order is claimed.
- Allocation failure, except in `av_grow_packet`; reads into the padding of input buffers are modelled, as bytes that are there.
- Files that cannot seek, such as a pipe as WAVE input, and 32-bit `long` file positions.
- Signed and unsigned 64-bit wrap-around of media timestamps; `Timestamps.RepairBound` states the range that is needed.
- Calling the parameter set converter for an IDR unit with a record that does not convert: the source then uses a packet it never set, so `Mp4ToAnnexB.ConvertPacket` demands a convertible record when there is such a unit.
- Lexing of qpfile lines by `fscanf` and failing seeks in it: the file is a list of records with an optional quantizer.
- The timebase multiplier of x264's variable frame rate input and the floating-point bitrate, duration and progress arithmetic; pulldown time is exact in half ticks.
- The generated timestamps of `avmerge.c` are a parameter, because they are computed in floating point; its branch for `b_use_video_ts` off cannot be reached.
- The set-up of the AAC encoder, and what it does with its input, including how often it is called after the input has ended.
- The picture structures x264 hands to the encoder with pulldown, beyond the time they last.
- Logging, option parsing, help texts, file opening, and the codec and device demo programs.
