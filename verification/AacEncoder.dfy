/** The AAC encoder's program without its codec: open the WAVE file, check its format, feed its samples. */
module AacEncoder {
  import opened Arithmetic
  import opened Bytes
  import opened Results
  import opened Sequences
  import opened WavReader
  import opened WavGrammar
  import opened PcmInput

  const PCM := 1

  /** The formats the program goes on with. */
  predicate Supported(fmt: Format) {
    fmt.format == PCM && fmt.sampleRate != 0 && fmt.bitsPerSample == 16 && 1 <= fmt.channels <= 6
  }

  /** `samples` are those the walk over the file leads to, if the format it finds is supported. */
  ghost predicate Encodes(file: seq<byte>, status: Status, samples: seq<int>) {
    var w := Walk(file, 0, EMPTY);
    && w.dataLength >= 0
    && status == (if Supported(w.fmt) then Success else InvalidData)
    && (status == Success ==> samples == Samples(DataFrom(file, Cursor(w.dataPos, w.dataLength), w.streamed)))
  }

  lemma InputSize(channels: int, frameLength: nat)
    requires 1 <= channels <= 6 && 0 < frameLength
    ensures var n := channels * 2 * frameLength;
            0 < n <= 12 * frameLength && n % 2 == 0 && n / 2 == channels * frameLength
  {
    var m := channels * frameLength;
    assert channels * 2 * frameLength == m * 2;
    AtLeastOnce(channels, frameLength);
    NotPositive(channels - 6, frameLength);
    assert (channels - 6) * frameLength == m - 6 * frameLength;
    DivModUnique(m * 2, m, 0, 2);
  }

  /** Opens the file and feeds the encoder; `frameLength` is how many samples it takes of each channel. */
  method EncodeFile(file: seq<byte>, frameLength: nat)
    returns (status: Status, calls: seq<seq<int>>, samples: seq<int>)
    requires 0 < frameLength && 12 * frameLength <= INT_MAX
    ensures Encodes(file, status, samples) && samples == Concat(calls)
    ensures status == Success ==>
              var full := Walk(file, 0, EMPTY).fmt.channels * frameLength;
              forall k :: 0 <= k < |calls| ==> if k + 1 < |calls| then |calls[k]| == full else |calls[k]| <= full
  {
    hide Walk, Samples, DataFrom, Concat;
    NothingJoined();
    calls, samples := [], [];
    var reader := new Reader(file);
    reader.Open();
    var ok, fmt, _ := reader.GetHeader();
    if !ok || fmt.format != PCM || fmt.bitsPerSample != 16 || !(1 <= fmt.channels <= 6) {
      return InvalidData, calls, samples;
    }
    InputSize(fmt.channels, frameLength);
    var inputSize := fmt.channels * 2 * frameLength;
    calls, samples := FeedEncoder(reader, inputSize);
    status := Success;
  }

  /**
   From chunks to samples: of a RIFF/WAVE file the encoder gets exactly the samples of the last data
   chunk, if the last format is supported.  An empty data chunk makes it take all chunks behind the
   first such one for samples, and the last format before it.
   */
  lemma EncodedChunks(chunks: seq<Chunk>, status: Status, samples: seq<int>)
    requires Wave(chunks).Valid() && Encodes(SerializeTop(Wave(chunks)), status, samples)
    ensures NoEmptyData(chunks) ==>
              && var f := LastFormat(chunks, EMPTY.fmt);
              && status in {Success, InvalidData}
              && (status == Success <==>
                    f.format == 1 && f.sampleRate != 0 && f.bitsPerSample == 16 && f.channels in {1, 2, 3, 4, 5, 6})
              && (status == Success ==> samples == Samples(LastData(chunks, [])))
    ensures forall i: nat :: FirstEmptyAt(chunks, i) ==>
              && status == (if Supported(LastFormat(chunks[..i], EMPTY.fmt)) then Success else InvalidData)
              && (status == Success ==> samples == Samples(SerializeAll(chunks[i + 1..])))
  {
    hide Walk, Samples, DataFrom, SerializeTop, SerializeAll, NoEmptyData, LastFormat, LastData;
    OpenRoundTrip(chunks);
    SamplesRoundTrip(chunks);
  }

  /** A file whose last data chunk stores the samples `v`, and at most one odd byte, gives the encoder `v`. */
  lemma EncodedPcm(chunks: seq<Chunk>, status: Status, samples: seq<int>, v: seq<int>, odd: seq<byte>)
    requires Wave(chunks).Valid() && Encodes(SerializeTop(Wave(chunks)), status, samples)
    requires NoEmptyData(chunks) && status == Success
    requires |odd| <= 1 && forall i :: 0 <= i < |v| ==> -0x8000 <= v[i] < 0x8000
    requires LastData(chunks, []) == Pcm(v) + odd
    ensures samples == v
  {
    hide Encodes, SerializeTop, NoEmptyData, LastData, Pcm, Samples;
    EncodedChunks(chunks, status, samples);
    SamplesOfPcm(v, odd);
  }
}
