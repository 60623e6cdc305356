/**
 ADTS framing of AAC packets: the seven header bytes of `adts_header` against the bit fields of
 ISO/IEC 13818-7 section 6.2, and the file of frames against a reader that follows frame lengths.
 */
module Adts {
  import opened Bytes
  import opened Results
  import opened Arithmetic
  import opened Sequences

  /** C's `x / 2`, which rounds toward zero. */
  function Halve(x: int): (h: int)
    ensures x >= 0 ==> 2 * h <= x <= 2 * h + 1
    ensures x < 0 ==> 2 * h - 1 <= x <= 2 * h
  {
    if x >= 0 then x / 2 else -(-x / 2)
  }

  const LC := 1
  const HE := 4
  const HE_V2 := 28
  const HEADER_LENGTH := 7
  /** The frame length field has 13 bits. */
  const LENGTH_RANGE := 8192

  const RATES: seq<int> := [96000, 88200, 64000, 48000, 44100, 32000, 24000, 22050, 16000, 12000, 11025, 8000, 7350]

  /** Main, LC, SSR and LTP get their number plus one; the HE profiles and everything else are LC. */
  function ObjectType(aacType: int): (t: int)
    ensures 1 <= t <= 4
    ensures 0 <= aacType < 4 ==> t == aacType + 1
    ensures !(0 <= aacType < 4) ==> t == LC + 1
  {
    if aacType in {0, 2, 3} then aacType + 1 else 2
  }

  /** The HE profiles are announced at half their rate. */
  function CoreRate(freq: int, aacType: int): (r: int)
    ensures aacType !in {4, 28} ==> r == freq
    ensures aacType in {4, 28} && freq >= 0 ==> 2 * r <= freq <= 2 * r + 1
  {
    if aacType == HE || aacType == HE_V2 then Halve(freq) else freq
  }

  /** Parametric stereo is announced with half its channels. */
  function ChannelConfig(channels: int, aacType: int): (c: int)
    ensures aacType != 28 ==> c == channels
    ensures aacType == 28 && channels >= 0 ==> 2 * c <= channels <= 2 * c + 1
  {
    if aacType == HE_V2 then Halve(channels) else channels
  }

  /** The place of the rate in the table, or that of 44100 Hz. */
  method GetSampleRateIndex(freq: int, aacType: int) returns (index: nat)
    ensures index < |RATES|
    ensures CoreRate(freq, aacType) in RATES ==> RATES[index] == CoreRate(freq, aacType)
    ensures CoreRate(freq, aacType) !in RATES ==> RATES[index] == 44100
  {
    var rate := freq;
    if aacType == HE_V2 || aacType == HE {
      rate := Halve(rate);
    }
    for i := 0 to 13
      invariant rate !in RATES[..i]
    {
      if rate == RATES[i] {
        return i;
      }
    }
    assert RATES[..13] == RATES;
    return 4;
  }

  /** The header fields, in the order in which the standard lays them out. */
  datatype Header = Header(
    syncword: int, id: int, layer: int, protectionAbsent: int,
    profile: int, rateIndex: int, privateBit: int, channels: int, original: int, home: int,
    copyrightBit: int, copyrightStart: int, frameLength: int, fullness: int, blocksMinusOne: int)

  /** The fields of seven bytes: 12+1+2+1, 2+4+1+3+1+1, and 1+1+13+11+2 bits. */
  function Decode(h: seq<byte>): (f: Header)
    requires |h| == HEADER_LENGTH
  {
    var b0: int, b1: int, b2: int, b3: int, b4: int, b5: int, b6: int := h[0], h[1], h[2], h[3], h[4], h[5], h[6];
    Header(b0 * 16 + b1 / 16, b1 / 8 % 2, b1 / 2 % 4, b1 % 2,
           b2 / 64, b2 / 4 % 16, b2 / 2 % 2, b2 % 2 * 4 + b3 / 64, b3 / 32 % 2, b3 / 16 % 2,
           b3 / 8 % 2, b3 / 4 % 2, b3 % 4 * 2048 + b4 * 8 + b5 / 32, b5 % 32 * 64 + b6 / 4, b6 % 4)
  }

  /** The fields of a frame of `dataLen` bytes: no CRC, buffer fullness 0x7ff, one raw block. */
  function FieldsOf(dataLen: nat, objectType: int, rateIndex: int, channelConfig: int): (f: Header) {
    Header(0xfff, 0, 0, 1,
           objectType - 1, rateIndex, 0, channelConfig % 8, 0, 0,
           0, 0, (dataLen + HEADER_LENGTH) % LENGTH_RANGE, 0x7ff, 0)
  }

  /** A number put together from two parts comes apart again. */
  lemma {:induction false} Parts(high: int, low: int, w: int)
    requires 0 <= low < w
    ensures (high * w + low) / w == high && (high * w + low) % w == low
  {
    DivModUnique(high * w + low, high, low, w);
  }

  /** A header put together from its parts: profile, rate, channels in 1 and 2 bits, length in 2, 8 and 3 bits. */
  lemma DecodeParts(h: seq<byte>, profile: int, rate: int, c1: int, c2: int, l2: int, l8: int, l3: int)
    requires |h| == HEADER_LENGTH
    requires 0 <= profile < 4 && 0 <= rate < 16 && 0 <= c1 < 2 && 0 <= c2 < 4
    requires 0 <= l2 < 4 && 0 <= l8 < 256 && 0 <= l3 < 8
    requires h[0] == 0xff && h[1] == 0xf1 && h[2] == profile * 64 + rate * 4 + c1 && h[3] == c2 * 64 + l2
    requires h[4] == l8 && h[5] == l3 * 32 + 31 && h[6] == 0xfc
    ensures Decode(h) == Header(0xfff, 0, 0, 1, profile, rate, 0, c1 * 4 + c2, 0, 0,
                                0, 0, l2 * 2048 + l8 * 8 + l3, 0x7ff, 0)
  {
    Parts(profile, rate * 4 + c1, 64);
    Parts(profile * 16 + rate, c1, 4);
    Parts(profile, rate, 16);
    Parts(profile * 32 + rate * 2, c1, 2);
    Parts(profile * 16 + rate, 0, 2);
    Parts(c2, l2, 64);
    Parts(c2 * 2, l2, 32);
    Parts(c2, 0, 2);
    Parts(c2 * 4, l2, 16);
    Parts(c2 * 2, 0, 2);
    Parts(c2 * 8, l2, 8);
    Parts(c2 * 4, 0, 2);
    Parts(c2 * 16, l2, 4);
    Parts(c2 * 8, 0, 2);
    Parts(l3, 31, 32);
  }

  /** Fills in the header; every `|=` sets bits that are still clear. */
  method AdtsHeader(szAdtsHeader: array<byte>, dataLen: nat, aacType: int, frequency: int, channels: int)
    returns (rateIndex: nat)
    requires szAdtsHeader.Length == HEADER_LENGTH
    modifies szAdtsHeader
    ensures rateIndex < |RATES|
    ensures CoreRate(frequency, aacType) in RATES ==> RATES[rateIndex] == CoreRate(frequency, aacType)
    ensures CoreRate(frequency, aacType) !in RATES ==> RATES[rateIndex] == 44100
    ensures Decode(szAdtsHeader[..])
            == FieldsOf(dataLen, ObjectType(aacType), rateIndex, ChannelConfig(channels, aacType))
  {
    var audioObjectType := ObjectType(aacType);
    rateIndex := GetSampleRateIndex(frequency, aacType);
    var channelConfig := ChannelConfig(channels, aacType);
    var adtsLen := dataLen + 7;
    szAdtsHeader[0] := 0xff;
    szAdtsHeader[1] := 0xf0;
    szAdtsHeader[1] := szAdtsHeader[1] + 1;
    szAdtsHeader[2] := (audioObjectType - 1) * 64;
    szAdtsHeader[2] := szAdtsHeader[2] + rateIndex * 4;
    szAdtsHeader[2] := szAdtsHeader[2] + channelConfig % 8 / 4;
    szAdtsHeader[3] := channelConfig % 4 * 64;
    szAdtsHeader[3] := szAdtsHeader[3] + adtsLen / 2048 % 4;
    szAdtsHeader[4] := adtsLen / 8 % 256;
    szAdtsHeader[5] := adtsLen % 8 * 32;
    szAdtsHeader[5] := szAdtsHeader[5] + 0x1f;
    szAdtsHeader[6] := 0xfc;
    SplitLength(adtsLen);
    SplitChannels(channelConfig);
    DecodeParts(szAdtsHeader[..], audioObjectType - 1, rateIndex, channelConfig % 8 / 4, channelConfig % 4,
                adtsLen / 2048 % 4, adtsLen / 8 % 256, adtsLen % 8);
  }

  lemma SplitLength(n: nat)
    ensures n / 2048 % 4 * 2048 + n / 8 % 256 * 8 + n % 8 == n % LENGTH_RANGE
  {
    var t, l3 := n / 8, n % 8;
    var u, l8 := t / 256, t % 256;
    var a, l2 := u / 4, u % 4;
    Parts(u, l8 * 8 + l3, 2048);
    Parts(a, l2 * 2048 + l8 * 8 + l3, LENGTH_RANGE);
  }

  lemma SplitChannels(c: int)
    ensures c % 8 / 4 * 4 + c % 4 == c % 8
  {
    var m := c % 8;
    Parts(2 * (c / 8) + m / 4, m % 4, 4);
  }

  // ----- the file of frames

  datatype AudioPacket = AudioPacket(stream: int, data: seq<byte>)

  /** The packets of the audio stream. */
  function Payloads(packets: seq<AudioPacket>, audio: int): (ps: seq<seq<byte>>) {
    if packets == [] then [] else
    var k := |packets| - 1;
    Payloads(packets[..k], audio) + (if packets[k].stream == audio then [packets[k].data] else [])
  }

  lemma PayloadsNext(packets: seq<AudioPacket>, audio: int, n: nat)
    requires n < |packets|
    ensures Payloads(packets[..n + 1], audio)
            == Payloads(packets[..n], audio) + (if packets[n].stream == audio then [packets[n].data] else [])
  {
    assert packets[..n + 1][..n] == packets[..n];
  }

  lemma {:induction false} PayloadCount(packets: seq<AudioPacket>, audio: int, n: nat)
    requires n <= |packets|
    ensures |Payloads(packets[..n], audio)| == |set k | 0 <= k < n && packets[k].stream == audio|
    decreases n
  {
    hide Payloads;
    if n == 0 {
      NoPayloads(packets[..0], audio);
    } else {
      PayloadCount(packets, audio, n - 1);
      PayloadsNext(packets, audio, n - 1);
      var before := set k | 0 <= k < n - 1 && packets[k].stream == audio;
      var upTo := set k | 0 <= k < n && packets[k].stream == audio;
      if packets[n - 1].stream == audio {
        assert upTo == before + {n - 1};
      } else {
        assert upTo == before;
      }
    }
  }

  lemma NoPayloads(packets: seq<AudioPacket>, audio: int)
    requires packets == []
    ensures Payloads(packets, audio) == []
  {
  }

  lemma {:induction false} PayloadsPrefix(packets: seq<AudioPacket>, audio: int, n: nat, m: nat)
    requires n <= m <= |packets|
    ensures Payloads(packets[..n], audio) <= Payloads(packets[..m], audio)
    decreases m
  {
    hide Payloads;
    if n < m {
      PayloadsPrefix(packets, audio, n, m - 1);
      PayloadsNext(packets, audio, m - 1);
    }
  }

  /** A packet of the audio stream has its place behind those of the stream before it. */
  lemma PayloadPlace(packets: seq<AudioPacket>, audio: int, i: nat)
    requires i < |packets| && packets[i].stream == audio
    ensures var j := |set k | 0 <= k < i && packets[k].stream == audio|;
            j < |Payloads(packets, audio)| && Payloads(packets, audio)[j] == packets[i].data
  {
    hide Payloads;
    PayloadCount(packets, audio, i);
    PayloadsNext(packets, audio, i);
    PayloadsPrefix(packets, audio, i + 1, |packets|);
    assert packets[..|packets|] == packets;
  }

  /** One frame: a header with the right fields, then the packet. */
  ghost predicate IsFrame(frame: seq<byte>, payload: seq<byte>, aacType: int, rateIndex: int, channels: int) {
    && |frame| == HEADER_LENGTH + |payload|
    && frame[HEADER_LENGTH..] == payload
    && Decode(frame[..HEADER_LENGTH])
       == FieldsOf(|payload|, ObjectType(aacType), rateIndex, ChannelConfig(channels, aacType))
  }

  /** The file is made of these frames, one for each payload. */
  ghost predicate IsStream(file: seq<byte>, frames: seq<seq<byte>>, payloads: seq<seq<byte>>,
                           aacType: int, rateIndex: int, channels: int) {
    && file == Concat(frames) && |frames| == |payloads|
    && forall i :: 0 <= i < |frames| ==> IsFrame(frames[i], payloads[i], aacType, rateIndex, channels)
  }

  /** The sample rate index a stream announces: that of its rate, or of 44100 Hz for a rate not in the table. */
  ghost predicate Announces(rateIndex: nat, freq: int, aacType: int) {
    && rateIndex < |RATES|
    && RATES[rateIndex] == if CoreRate(freq, aacType) in RATES then CoreRate(freq, aacType) else 44100
  }

  /** The file is a list of frames, one for each payload, that announce the rate and the channels. */
  ghost predicate IsAdts(file: seq<byte>, payloads: seq<seq<byte>>, aacType: int, freq: int, channels: int) {
    exists frames, rateIndex: nat ::
      Announces(rateIndex, freq, aacType) && IsStream(file, frames, payloads, aacType, rateIndex, channels)
  }

  lemma {:induction false} RateIndex(freq: int, aacType: int) returns (rateIndex: nat)
    ensures Announces(rateIndex, freq, aacType)
  {
    var rate := CoreRate(freq, aacType);
    if rate in RATES {
      rateIndex :| rateIndex < |RATES| && RATES[rateIndex] == rate;
    } else {
      rateIndex := 4;
    }
  }

  /** Writes every packet of the audio stream as a frame. */
  method ExtractAudio(packets: seq<AudioPacket>, audio: int, aacType: int, frequency: int, channels: int)
    returns (file: seq<byte>)
    ensures IsAdts(file, Payloads(packets, audio), aacType, frequency, channels)
  {
    hide Decode, Concat, IsFrame;
    file := [];
    ghost var frames: seq<seq<byte>> := [];
    NothingConcat();
    ghost var rateIndex := RateIndex(frequency, aacType);
    for i := 0 to |packets|
      invariant IsStream(file, frames, Payloads(packets[..i], audio), aacType, rateIndex, channels)
    {
      assert packets[..i + 1][..i] == packets[..i];
      if packets[i].stream == audio {
        var header := new byte[7];
        var index := AdtsHeader(header, |packets[i].data|, aacType, frequency, channels);
        RatesDistinct(index, rateIndex);
        ghost var frame := header[..] + packets[i].data;
        assert IsFrame(frame, packets[i].data, aacType, rateIndex, channels) by {
          MakeFrame(header[..], packets[i].data, aacType, rateIndex, channels);
        }
        ConcatLast(frames, frame);
        assert file + header[..] + packets[i].data == file + frame;
        frames := frames + [frame];
        file := file + header[..];
        file := file + packets[i].data;
      }
    }
    assert packets[..|packets|] == packets;
  }

  lemma NothingConcat()
    ensures Concat<byte>([]) == []
  {
  }

  lemma RatesDistinct(i: nat, j: nat)
    requires i < |RATES| && j < |RATES| && RATES[i] == RATES[j]
    ensures i == j
  {
  }

  lemma MakeFrame(header: seq<byte>, payload: seq<byte>, aacType: int, rateIndex: int, channels: int)
    requires |header| == HEADER_LENGTH
    requires Decode(header) == FieldsOf(|payload|, ObjectType(aacType), rateIndex, ChannelConfig(channels, aacType))
    ensures IsFrame(header + payload, payload, aacType, rateIndex, channels)
  {
    hide Decode;
    assert (header + payload)[..HEADER_LENGTH] == header;
  }

  /**
   What the header of every frame in the file says: the fixed fields, the profile, the rate or 44100 Hz,
   the channels, and the length.
   */
  lemma FramesTell(file: seq<byte>, payloads: seq<seq<byte>>, aacType: int, freq: int, channels: int)
    returns (frames: seq<seq<byte>>)
    requires IsAdts(file, payloads, aacType, freq, channels)
    ensures file == Concat(frames) && |frames| == |payloads|
    ensures forall i :: 0 <= i < |frames| ==> |frames[i]| == 7 + |payloads[i]| && frames[i][7..] == payloads[i]
    ensures forall i :: 0 <= i < |frames| ==>
              var h := Decode(frames[i][..7]);
              && h.syncword == 0xfff && h.id == 0 && h.layer == 0 && h.protectionAbsent == 1
              && h.privateBit == 0 && h.original == 0 && h.home == 0 && h.copyrightBit == 0 && h.copyrightStart == 0
              && h.fullness == 0x7ff && h.blocksMinusOne == 0
              && h.profile == (if aacType in {0, 1, 2, 3} then aacType else 1)
              && (aacType != 28 && 0 <= channels < 8 ==> h.channels == channels)
              && (aacType == 28 && 0 <= channels < 16 ==> 2 * h.channels <= channels <= 2 * h.channels + 1)
              && (|payloads[i]| <= 8184 ==> h.frameLength == 7 + |payloads[i]|)
    ensures forall i :: 0 <= i < |frames| ==>
              var table := [96000, 88200, 64000, 48000, 44100, 32000, 24000, 22050, 16000, 12000, 11025, 8000, 7350];
              var k := Decode(frames[i][..7]).rateIndex;
              && 0 <= k < 13
              && (aacType !in {4, 28} ==> table[k] == if freq in table then freq else 44100)
              && (aacType in {4, 28} && freq >= 0 ==>
                    table[k] == if freq / 2 in table then freq / 2 else 44100)
  {
    hide Decode, Concat;
    var rateIndex: nat;
    frames, rateIndex :| Announces(rateIndex, freq, aacType)
                         && IsStream(file, frames, payloads, aacType, rateIndex, channels);
    forall i | 0 <= i < |frames|
      ensures IsFrame(frames[i], payloads[i], aacType, rateIndex, channels)
    {
    }
  }

  // ----- a reader that only follows the frame lengths

  function FrameLength(s: seq<byte>): (n: int)
    requires |s| >= HEADER_LENGTH
  {
    Decode(s[..HEADER_LENGTH]).frameLength
  }

  /** The payloads found by following the length fields; `None` when one leads out of the file. */
  function Walk(s: seq<byte>): (r: Option<seq<seq<byte>>>)
    decreases |s|
  {
    if s == [] then Some([]) else
    if |s| < HEADER_LENGTH || FrameLength(s) < HEADER_LENGTH || FrameLength(s) > |s| then None else
    var n := FrameLength(s);
    var rest := Walk(s[n..]);
    if rest.None? then None else Some([s[HEADER_LENGTH..n]] + rest.value)
  }

  /** No packet is larger than the 13-bit length field can say. */
  ghost predicate AllFit(payloads: seq<seq<byte>>) {
    forall i :: 0 <= i < |payloads| ==> |payloads[i]| + HEADER_LENGTH < LENGTH_RANGE
  }

  lemma FirstFrame(file: seq<byte>, frames: seq<seq<byte>>, payloads: seq<seq<byte>>,
                   aacType: int, rateIndex: int, channels: int)
    requires IsStream(file, frames, payloads, aacType, rateIndex, channels) && frames != []
    ensures |file| >= HEADER_LENGTH + |payloads[0]|
    ensures file[HEADER_LENGTH..HEADER_LENGTH + |payloads[0]|] == payloads[0]
    ensures FrameLength(file) == (|payloads[0]| + HEADER_LENGTH) % LENGTH_RANGE
    ensures IsStream(file[HEADER_LENGTH + |payloads[0]|..], frames[1..], payloads[1..], aacType, rateIndex, channels)
  {
    hide Decode;
    var frame, rest := frames[0], Concat(frames[1..]);
    assert IsFrame(frame, payloads[0], aacType, rateIndex, channels);
    assert file == frame + rest;
    assert file[..HEADER_LENGTH] == frame[..HEADER_LENGTH];
    assert file[HEADER_LENGTH..HEADER_LENGTH + |payloads[0]|] == frame[HEADER_LENGTH..];
    assert file[|frame|..] == rest;
  }

  /** Following the length fields recovers every packet, in order, if and only if every packet fits. */
  lemma WalkRecovers(file: seq<byte>, payloads: seq<seq<byte>>, aacType: int, freq: int, channels: int)
    requires IsAdts(file, payloads, aacType, freq, channels)
    ensures Walk(file) == Some(payloads) <==> AllFit(payloads)
  {
    hide Announces, IsStream, Walk, AllFit;
    var frames, rateIndex: nat :| Announces(rateIndex, freq, aacType)
                             && IsStream(file, frames, payloads, aacType, rateIndex, channels);
    WalkFrames(file, frames, payloads, aacType, rateIndex, channels);
  }

  /** The length field of a packet of 8185 bytes is 0, and following it leads nowhere. */
  lemma OversizedPacketStopsWalk(file: seq<byte>, payload: seq<byte>, aacType: int, freq: int, channels: int)
    requires |payload| == 8185 && IsAdts(file, [payload], aacType, freq, channels)
    ensures Walk(file) == None
  {
    hide Decode, Announces;
    var frames, rateIndex: nat :| Announces(rateIndex, freq, aacType)
                             && IsStream(file, frames, [payload], aacType, rateIndex, channels);
    FirstFrame(file, frames, [payload], aacType, rateIndex, channels);
  }

  lemma {:induction false} WalkFrames(file: seq<byte>, frames: seq<seq<byte>>, payloads: seq<seq<byte>>,
                                      aacType: int, rateIndex: int, channels: int)
    requires IsStream(file, frames, payloads, aacType, rateIndex, channels)
    ensures Walk(file) == Some(payloads) <==> AllFit(payloads)
    decreases |payloads|
  {
    hide IsStream, FrameLength, Walk, AllFit;
    if payloads == [] {
      WalkNothing(file, frames, payloads, aacType, rateIndex, channels);
    } else {
      SameCount(file, frames, payloads, aacType, rateIndex, channels);
      FirstFrame(file, frames, payloads, aacType, rateIndex, channels);
      var n := HEADER_LENGTH + |payloads[0]|;
      AllFitCons(payloads);
      if n < LENGTH_RANGE {
        WalkFrames(file[n..], frames[1..], payloads[1..], aacType, rateIndex, channels);
        WalkOn(file, payloads);
      } else {
        WalkWrong(file, payloads);
      }
    }
  }

  lemma WalkNothing(file: seq<byte>, frames: seq<seq<byte>>, payloads: seq<seq<byte>>,
                    aacType: int, rateIndex: int, channels: int)
    requires IsStream(file, frames, payloads, aacType, rateIndex, channels) && payloads == []
    ensures Walk(file) == Some(payloads) && AllFit(payloads)
  {
  }

  lemma SameCount(file: seq<byte>, frames: seq<seq<byte>>, payloads: seq<seq<byte>>,
                  aacType: int, rateIndex: int, channels: int)
    requires IsStream(file, frames, payloads, aacType, rateIndex, channels)
    ensures |frames| == |payloads|
  {
  }

  lemma AllFitCons(payloads: seq<seq<byte>>)
    requires payloads != []
    ensures AllFit(payloads) <==> |payloads[0]| + HEADER_LENGTH < LENGTH_RANGE && AllFit(payloads[1..])
  {
  }

  /** A frame length that matches the first packet leads to the second. */
  lemma {:induction false} WalkOn(s: seq<byte>, payloads: seq<seq<byte>>)
    requires payloads != [] && |s| >= HEADER_LENGTH + |payloads[0]|
    requires FrameLength(s) == HEADER_LENGTH + |payloads[0]|
    requires s[HEADER_LENGTH..HEADER_LENGTH + |payloads[0]|] == payloads[0]
    ensures Walk(s) == Some(payloads) <==> Walk(s[HEADER_LENGTH + |payloads[0]|..]) == Some(payloads[1..])
  {
    hide FrameLength;
    var n := FrameLength(s);
    var rest := Walk(s[n..]);
    if rest.Some? {
      var all := [payloads[0]] + rest.value;
      assert Walk(s) == Some(all) && all[1..] == rest.value;
      assert payloads == [payloads[0]] + payloads[1..];
    }
  }

  /** One that does not match leads to a first packet of another length, or to none. */
  lemma WalkWrong(s: seq<byte>, payloads: seq<seq<byte>>)
    requires payloads != [] && |s| >= HEADER_LENGTH
    requires FrameLength(s) != HEADER_LENGTH + |payloads[0]|
    ensures Walk(s) != Some(payloads)
  {
    hide FrameLength;
    if Walk(s).Some? {
      assert |Walk(s).value[0]| == FrameLength(s) - HEADER_LENGTH;
    }
  }

  /**
   What the header says is true exactly within the ranges of its fields: up to seven channels, a
   rate from the table, at most 8184 bytes.
   */
  lemma HeaderTells(dataLen: nat, aacType: int, freq: int, channels: int, rateIndex: nat)
    requires Announces(rateIndex, freq, aacType)
    ensures var f := FieldsOf(dataLen, ObjectType(aacType), rateIndex, ChannelConfig(channels, aacType));
            && (f.frameLength == HEADER_LENGTH + dataLen <==> dataLen <= 8184)
            && (f.channels == ChannelConfig(channels, aacType) <==> 0 <= ChannelConfig(channels, aacType) < 8)
            && (aacType != 28 ==> (f.channels == channels <==> 0 <= channels < 8))
            && (aacType == 28 && channels >= 0 ==>
                  (2 * f.channels <= channels <= 2 * f.channels + 1 <==> channels < 16))
            && (RATES[f.rateIndex] == CoreRate(freq, aacType) <==> CoreRate(freq, aacType) in RATES)
  {
    if dataLen + HEADER_LENGTH >= LENGTH_RANGE {
      assert (dataLen + HEADER_LENGTH) % LENGTH_RANGE < LENGTH_RANGE;
    }
    assert RATES[4] == 44100;
  }
}
