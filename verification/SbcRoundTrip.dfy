/** Packer and unpacker together: the round trip, the frame length, and what errors are caught. */
module SbcRoundTrip {
  import opened Bits
  import opened SbcFrame
  import opened SbcStream
  import opened SbcPack
  import U = SbcUnpack
  import opened Quantizer

  // ----- the header

  lemma HeaderRecovered(h: Header)
    requires h.Shaped() && h.blocks % 4 == 0
    ensures U.HeaderOf(HeaderByte(h), h.bitpool) == h
  {
    var q, m := h.blocks / 4 - 1, ModeCode(h.mode);
    var a, s := if h.allocation == Snr then 1 else 0, if h.subbands == 8 then 1 else 0;
    assert h.blocks == 4 + 4 * q && (h.blocks / 4 + 3) % 4 == q;
    HeaderFields(h.frequency, q, m, a, s);
  }

  lemma HeaderFields(frequency: nat, q: nat, m: nat, a: nat, s: nat)
    requires frequency < 4 && q < 4 && m < 4 && a < 2 && s < 2
    ensures var b := frequency * 64 + q * 16 + m * 4 + 2 * a + s;
      b / 64 == frequency && b / 16 % 4 == q && b / 4 % 4 == m && b / 2 % 2 == a && b % 2 == s
  {
    var b := frequency * 64 + q * 16 + m * 4 + 2 * a + s;
    assert b / 2 == frequency * 32 + q * 8 + m * 2 + a;
    assert b / 4 == frequency * 16 + q * 4 + m;
    assert b / 16 == frequency * 4 + q;
  }

  // ----- the sizes

  lemma SizesAgree(f: Frame)
    requires Shaped(f) && f.header.Valid()
    ensures U.CodeStart(f.header) == 32 + |SideBits(f.header, f.joint, f.scale)|
    ensures U.TotalBits(f.header) == 32 + |Payload(f)|
    ensures PackedLength(f) == (U.TotalBits(f.header) + 7) / 8
  {
    hide CodeBits, FrameCodes, FrameBits, ScaleBits;
    var h := f.header;
    ScaleBitsLength(f.scale, h.Channels(), h.subbands);
    BlockSizeIsBudget(h, f.scale);
    CodeBitsLength(FrameCodes(f), FrameBits(h, f.scale), h.blocks);
  }

  /** sbc_get_frame_length while no frame length is cached. */
  function FrameLength(mode: Mode, subbands: nat, blocks: nat, bitpool: nat): nat {
    var channels := if mode == Mono then 1 else 2;
    var joint := if mode == JointStereo then subbands else 0;
    4 + 4 * subbands * channels / 8 + if channels == 1 then (blocks * channels * bitpool + 7) / 8 else (joint + blocks * bitpool + 7) / 8
  }

  /** The announced length is the packed length; in DUAL_CHANNEL mode, where the formula leaves out
      the second channel's codes, only if there is at most one bit of code per channel and quarter. */
  lemma FrameLengthAgrees(f: Frame)
    requires Shaped(f) && f.header.Valid()
    ensures var h := f.header;
      FrameLength(h.mode, h.subbands, h.blocks, h.bitpool) == PackedLength(f)
      <==> (h.mode == DualChannel ==> h.blocks / 4 * h.bitpool <= 1)
  {
    hide PackedLength, Payload, SideBits;
    SizesAgree(f);
    LengthFormula(f.header);
  }

  lemma LengthFormula(h: Header)
    requires h.Shaped() && h.blocks % 4 == 0
    ensures FrameLength(h.mode, h.subbands, h.blocks, h.bitpool) == (U.TotalBits(h) + 7) / 8
            <==> (h.mode == DualChannel ==> h.blocks / 4 * h.bitpool <= 1)
    ensures FrameLength(h.mode, h.subbands, h.blocks, h.bitpool) <= (U.TotalBits(h) + 7) / 8
  {
    var side := 4 * h.subbands * h.Channels();
    assert side % 8 == 0;
    if h.mode == DualChannel {
      QuarterBlocks(h.blocks, h.blocks / 4, h.bitpool);
    }
  }

  lemma QuarterBlocks(blocks: nat, q: nat, pool: nat)
    requires blocks == 4 * q
    ensures blocks * (2 * pool) == 8 * (q * pool) && blocks * pool == 4 * (q * pool)
  {
  }

  /** sbc_encode asks for as much room in the output as the announced length, kept in eight bits. That
      is enough for the packed frame if and only if this is below 256 bytes and rightly announced. */
  lemma OutputCheckSuffices(f: Frame)
    requires Shaped(f) && f.header.Valid()
    ensures var h := f.header;
      Announced(h) >= PackedLength(f)
      <==> PackedLength(f) < 256 && (h.mode == DualChannel ==> h.blocks / 4 * h.bitpool <= 1)
  {
    hide PackedLength, Payload, SideBits;
    var h := f.header;
    SizesAgree(f);
    LengthFormula(h);
    EightBits(FrameLength(h.mode, h.subbands, h.blocks, h.bitpool), PackedLength(f));
  }

  /** frame.length, a uint8_t. */
  function Announced(h: Header): nat {
    FrameLength(h.mode, h.subbands, h.blocks, h.bitpool) % 256
  }

  lemma EightBits(announced: nat, length: nat)
    requires announced <= length
    ensures announced % 256 >= length <==> announced == length < 256
  {
  }

  // ----- the streams

  /** The packed bytes seen as the stream of the reader. */
  lemma StreamOfPacked(data: seq<byte>, f: Frame, n: nat)
    requires Shaped(f) && f.header.Valid() && n == PackedLength(f) <= |data| && PackedAs(data[..n], f)
    ensures var s := BytesBits(data);
      && s[8..24] == Expand(HeaderByte(f.header), 8) + Expand(f.header.bitpool, 8)
      && 32 + |Payload(f)| <= |s|
      && s[32..32 + |Payload(f)|] == Payload(f)
  {
    hide BytesBits, Expand, Payload, HeaderByte, SideBits, CoveredBits;
    var s := BytesBits(data);
    BytesBitsByte(data, 1);
    BytesBitsByte(data, 2);
    assert s[8..24] == s[8..16] + s[16..24];
    assert data[1] == data[..n][1] && data[2] == data[..n][2];
    BytesBitsPrefix(data, 4);
    assert data[..n][4..] == data[4..][..n - 4];
    BytesBitsPrefix(data[4..], n - 4);
    var payload := Payload(f);
    assert BytesBits(data[4..])[..|payload|] == PadToByte(payload)[..|payload|] == payload;
    BehindHeader(s, BytesBits(data[..4]), BytesBits(data[4..]), |payload|);
  }

  lemma BehindHeader(s: seq<bool>, head: seq<bool>, tail: seq<bool>, n: nat)
    requires s == head + tail && |head| == 32 && n <= |tail|
    ensures s[32..32 + n] == tail[..n]
  {
  }

  lemma {:induction false} FactorsRecovered(stream: seq<bool>, at: nat, row: seq<nat>, n: nat)
    requires n <= |row| && at + 4 * n <= |stream| && forall k :: 0 <= k < |row| ==> row[k] < 16
    requires stream[at..at + 4 * n] == FactorBits(row, n)
    ensures U.ReadFactors(stream, at, n) == row[..n]
  {
    if n > 0 {
      hide Expand, Value;
      SplitSlice(stream, at, FactorBits(row, n - 1), Expand(row[n - 1], 4));
      FactorsRecovered(stream, at, row, n - 1);
      U.NibbleValue(row[n - 1]);
    }
  }

  lemma {:induction false} ScaleRecovered(stream: seq<bool>, at: nat, scale: Scales, subbands: nat, n: nat)
    requires n <= |scale| && at + 4 * subbands * n <= |stream|
    requires forall ch :: 0 <= ch < |scale| ==> |scale[ch]| == subbands && forall k :: 0 <= k < subbands ==> scale[ch][k] < 16
    requires stream[at..at + 4 * subbands * n] == ScaleBits(scale, n)
    ensures U.ReadScale(stream, at, subbands, n) == scale[..n]
  {
    hide FactorBits, U.ReadFactors, Value;
    if n > 0 {
      var m := 4 * subbands * (n - 1);
      OneMore(subbands, n);
      ScaleBitsLength(scale, n - 1, subbands);
      SplitSlice(stream, at, ScaleBits(scale, n - 1), FactorBits(scale[n - 1], subbands));
      ScaleRecovered(stream, at, scale, subbands, n - 1);
      FactorsRecovered(stream, at + m, scale[n - 1], subbands);
      assert scale[n - 1][..subbands] == scale[n - 1];
    }
  }

  lemma OneMore(subbands: nat, n: nat)
    requires n > 0
    ensures 4 * subbands * n == 4 * subbands * (n - 1) + 4 * subbands
  {
  }

  // ----- the round trip

  /** Where the parts of the payload stand in the stream. */
  lemma Parts(data: seq<byte>, f: Frame, n: nat)
    requires Shaped(f) && f.header.Valid() && n == PackedLength(f) <= |data| && PackedAs(data[..n], f)
    ensures var (s, h) := (BytesBits(data), f.header);
      && U.CodeStart(h) <= U.TotalBits(h) <= |s|
      && s[32..U.CodeStart(h)] == SideBits(h, f.joint, f.scale)
      && s[U.CodeStart(h)..U.TotalBits(h)] == CodeBits(FrameCodes(f), FrameBits(h, f.scale), h.blocks)
  {
    hide BytesBits, Expand, HeaderByte, SideBits, CodeBits, FrameCodes, FrameBits, PackedAs, U.TotalBits, U.CodeStart, BlockShaped, PackedLength, CoveredBits;
    SizesAgree(f);
    StreamOfPacked(data, f, n);
    PayloadParts(BytesBits(data), f);
  }

  lemma PayloadParts(s: seq<bool>, f: Frame)
    requires Shaped(f) && f.header.Valid()
    requires 32 + |Payload(f)| <= |s| && s[32..32 + |Payload(f)|] == Payload(f)
    ensures var side := SideBits(f.header, f.joint, f.scale);
      && |side| <= |Payload(f)|
      && s[32..32 + |side|] == side
      && s[32 + |side|..32 + |Payload(f)|] == CodeBits(FrameCodes(f), FrameBits(f.header, f.scale), f.header.blocks)
  {
    hide SideBits, CodeBits, FrameCodes, FrameBits, BlockShaped;
    SplitSlice(s, 32, SideBits(f.header, f.joint, f.scale),
      CodeBits(FrameCodes(f), FrameBits(f.header, f.scale), f.header.blocks));
  }

  lemma SplitSlice<T>(s: seq<T>, at: nat, left: seq<T>, right: seq<T>)
    requires at + |left + right| <= |s| && s[at..at + |left + right|] == left + right
    ensures s[at..at + |left|] == left && s[at + |left|..at + |left| + |right|] == right
  {
    var n := at + |left + right|;
    SliceOfSlice(s, at, n, 0, |left|);
    SliceOfSlice(s, at, n, |left|, |left| + |right|);
    assert (left + right)[0..|left|] == left;
    SliceOfLast(left, right);
  }

  lemma SideRecovered(data: seq<byte>, f: Frame, n: nat)
    requires Shaped(f) && f.header.Valid() && n == PackedLength(f) <= |data| && PackedAs(data[..n], f)
    ensures U.CodeStart(f.header) <= 8 * |data|
    ensures U.ScaleOf(f.header, BytesBits(data)) == f.scale
    ensures U.CoveredRead(f.header, BytesBits(data)) == CoveredBits(f.header, SideBits(f.header, f.joint, f.scale))
  {
    hide BytesBits, Expand, HeaderByte, PackedAs, Payload, U.TotalBits, PackedLength, SideBits, FrameBits, CodeBits, FrameCodes;
    Parts(data, f, n);
    StreamOfPacked(data, f, n);
    FactorsInSide(BytesBits(data), f.header, f.joint, f.scale);
  }

  lemma FactorsInSide(s: seq<bool>, h: Header, joint: nat, scale: Scales)
    requires h.Shaped() && ScalesFit(h, scale) && U.CodeStart(h) <= |s|
    requires s[32..U.CodeStart(h)] == SideBits(h, joint, scale)
    ensures U.ScaleOf(h, s) == scale
  {
    hide Expand, ScaleBits, U.ReadScale;
    var start := U.FactorStart(h);
    ScaleBitsLength(scale, h.Channels(), h.subbands);
    SplitSlice(s, 32, JointBits(h, joint), ScaleBits(scale, h.Channels()));
    ScaleRecovered(s, start, scale, h.subbands, h.Channels());
    assert scale[..h.Channels()] == scale;
  }

  /** The code of (blk, ch, sb) stands in its place after `start`. */
  ghost predicate CodeStands(s: seq<bool>, start: nat, codes: Codes, bits: Distribution, blk: nat, ch: nat, sb: nat)
    requires CodesFit(codes, bits) && blk < |codes| && ch < |bits| && sb < |bits[ch]|
  {
    var at := start + CodeOffset(bits, blk, ch, sb);
    at + bits[ch][sb] <= |s| && s[at..at + bits[ch][sb]] == Expand(codes[blk][ch][sb], bits[ch][sb])
  }

  /** Every code comes back. */
  lemma CodeRecovered(data: seq<byte>, f: Frame, n: nat, blk: nat, ch: nat, sb: nat)
    requires Shaped(f) && f.header.Valid() && n == PackedLength(f) <= |data| && PackedAs(data[..n], f)
    requires blk < f.header.blocks && ch < f.header.Channels() && sb < f.header.subbands
    ensures CodeStands(BytesBits(data), U.CodeStart(f.header), FrameCodes(f), FrameBits(f.header, f.scale), blk, ch, sb)
  {
    hide BytesBits, Expand, HeaderByte, PackedAs, Payload, PackedLength, SideBits, FrameBits, CodeBits, FrameCodes,
      CodeOffset, BlockShaped, U.TotalBits, U.CodeStart, CodeStands;
    Parts(data, f, n);
    CodeInStream(BytesBits(data), U.CodeStart(f.header), U.TotalBits(f.header), FrameCodes(f), FrameBits(f.header, f.scale), blk, ch, sb);
  }

  lemma CodeInStream(s: seq<bool>, start: nat, end: nat, codes: Codes, bits: Distribution, blk: nat, ch: nat, sb: nat)
    requires CodesFit(codes, bits) && blk < |codes| && ch < |bits| && sb < |bits[ch]|
    requires start <= end <= |s| && s[start..end] == CodeBits(codes, bits, |codes|)
    ensures CodeStands(s, start, codes, bits, blk, ch, sb)
  {
    hide Expand, CodeBits, CodeOffset;
    CodeAt(codes, bits, blk, ch, sb);
    var at, width := CodeOffset(bits, blk, ch, sb), bits[ch][sb];
    SubSlice(s, start, end, CodeBits(codes, bits, |codes|), at, width);
    assert s[start + at..start + at + width] == Expand(codes[blk][ch][sb], width);
  }

  lemma SubSlice<T>(s: seq<T>, a: nat, b: nat, t: seq<T>, at: nat, w: nat)
    requires a <= b <= |s| && s[a..b] == t && at + w <= |t|
    ensures a + at + w <= |s| && s[a + at..a + at + w] == t[at..at + w]
  {
    SliceOfSlice(s, a, b, at, at + w);
    assert a + (at + w) == a + at + w;
  }

  /** The sample that comes back: the dequantised code, and silence where there are no bits. */
  function Reconstructed(f: Frame, blk: nat, ch: nat, sb: nat): int
    requires Shaped(f) && f.header.Valid()
    requires blk < f.header.blocks && ch < f.header.Channels() && sb < f.header.subbands
  {
    var width := FrameBits(f.header, f.scale)[ch][sb];
    if width == 0 then 0
    else
      assert BlockShaped(f.header, f.samples[blk]);
      Dequantise(width, f.scale[ch][sb], Quantise(width, f.scale[ch][sb], f.samples[blk][ch][sb]))
  }

  lemma SampleRecovered(data: seq<byte>, f: Frame, n: nat, blk: nat, ch: nat, sb: nat)
    requires WellFormed(f) && f.header.Valid() && n == PackedLength(f) <= |data| && PackedAs(data[..n], f)
    requires blk < f.header.blocks && ch < f.header.Channels() && sb < f.header.subbands
    requires U.TotalBits(f.header) <= 8 * |data|
    ensures U.ReadSample(data, f.header, f.scale, blk, ch, sb) == Reconstructed(f, blk, ch, sb)
  {
    hide BytesBits, Expand, PackedAs, PackedLength, ChannelBits, CodeOffset, Dequantise, Quantise, Value;
    CodeRecovered(data, f, n, blk, ch, sb);
    CodesRow(f, blk, ch);
    var width := FrameBits(f.header, f.scale)[ch][sb];
    assert RowCovered(f.scale[ch], f.samples[blk][ch]);
    if width > 0 {
      CodeInField(width, f.scale[ch][sb], f.samples[blk][ch][sb]);
      ValueOfExpand(FrameCodes(f)[blk][ch][sb], width);
    }
  }

  /** Bit sb of the decoded joint mask is bit subbands - 1 - sb of the encoder's, except that the
      last subband's bit is dropped. */
  lemma JointRecovered(data: seq<byte>, f: Frame, n: nat, sb: nat)
    requires Shaped(f) && f.header.Valid() && n == PackedLength(f) <= |data| && PackedAs(data[..n], f)
    requires f.header.mode == JointStereo && sb < f.header.subbands && U.TotalBits(f.header) <= 8 * |data|
    ensures 32 + f.header.subbands <= 8 * |data|
    ensures U.JointRead(f.header, BytesBits(data), sb)
      == (sb + 1 < f.header.subbands && Shr(f.joint, f.header.subbands - 1 - sb) % 2 == 1)
  {
    hide BytesBits, Expand, HeaderByte, PackedAs, Payload, PackedLength, FrameBits, CodeBits, FrameCodes, ScaleBits;
    Parts(data, f, n);
    var s, h := BytesBits(data), f.header;
    SplitSlice(s, 32, JointBits(h, f.joint), ScaleBits(f.scale, |f.scale|));
    assert s[32 + sb] == s[32..32 + h.subbands][sb];
    ExpandAt(f.joint, h.subbands, sb);
  }

  /** The round trip: for every well-formed frame whose bitpool passes the guard, unpacking the
      packed bytes succeeds whatever follows them. It returns the packed length, or one more when
      the next byte is 0, and recovers the header, all scale factors, the joint mask and every code. */
  lemma RoundTrip(data: seq<byte>, len: nat, f: Frame, n: nat)
    requires WellFormed(f) && f.header.Valid()
    requires n == PackedLength(f) <= len < |data| && PackedAs(data[..n], f)
    ensures U.TotalBits(f.header) <= 8 * n
    ensures U.Unpack(data, len) == U.Unpacked(if data[n] == 0 then n + 1 else n, f.header, f.scale)
    ensures forall blk: nat, ch: nat, sb: nat :: blk < f.header.blocks && ch < f.header.Channels() && sb < f.header.subbands ==>
      U.ReadSample(data, f.header, f.scale, blk, ch, sb) == Reconstructed(f, blk, ch, sb)
    ensures f.header.mode == JointStereo ==> forall sb: nat :: sb < f.header.subbands ==>
      U.JointRead(f.header, BytesBits(data), sb)
      == (sb + 1 < f.header.subbands && Shr(f.joint, f.header.subbands - 1 - sb) % 2 == 1)
  {
    UnpackRecovers(data, len, f, n);
    hide BytesBits, Expand, U.Unpack, Payload, U.ReadSample, U.JointRead, Reconstructed;
    SizesAgree(f);
    forall blk: nat, ch: nat, sb: nat | blk < f.header.blocks && ch < f.header.Channels() && sb < f.header.subbands
      ensures U.ReadSample(data, f.header, f.scale, blk, ch, sb) == Reconstructed(f, blk, ch, sb)
    {
      SampleRecovered(data, f, n, blk, ch, sb);
    }
    if f.header.mode == JointStereo {
      forall sb: nat | sb < f.header.subbands
        ensures U.JointRead(f.header, BytesBits(data), sb)
             == (sb + 1 < f.header.subbands && Shr(f.joint, f.header.subbands - 1 - sb) % 2 == 1)
      {
        JointRecovered(data, f, n, sb);
      }
    }
  }

  lemma UnpackRecovers(data: seq<byte>, len: nat, f: Frame, n: nat)
    requires WellFormed(f) && f.header.Valid()
    requires n == PackedLength(f) <= len < |data| && PackedAs(data[..n], f)
    ensures U.TotalBits(f.header) <= 8 * n
    ensures U.Unpack(data, len) == U.Unpacked(if data[n] == 0 then n + 1 else n, f.header, f.scale)
  {
    hide BytesBits, Expand, HeaderByte, Payload, U.HeaderOf, CoveredBits, SideBits, U.CoveredRead, U.ScaleOf, BlockShaped;
    SizesAgree(f);
    HeaderRecovered(f.header);
    SideRecovered(data, f, n);
    U.StreamHolds(f.header);
    assert forall k :: 0 <= k < 4 ==> data[k] == data[..n][k];
    assert U.ParseHeader(data) == U.Found(f.header);
  }

  /** Bit sb of the joint mask as the decoder sees it. */
  predicate JointBit(f: Frame, sb: nat)
    requires sb < f.header.subbands
  {
    f.header.mode == JointStereo && sb + 1 < f.header.subbands && Shr(f.joint, f.header.subbands - 1 - sb) % 2 == 1
  }

  /** The sample the decoder makes of (blk, ch, sb): sum and difference where the joint bit is set. */
  function Delivered(f: Frame, blk: nat, ch: nat, sb: nat): int
    requires Shaped(f) && f.header.Valid()
    requires blk < f.header.blocks && ch < f.header.Channels() && sb < f.header.subbands
  {
    if JointBit(f, sb) then
      if ch == 0 then Reconstructed(f, blk, 0, sb) + Reconstructed(f, blk, 1, sb)
      else Reconstructed(f, blk, 0, sb) - Reconstructed(f, blk, 1, sb)
    else Reconstructed(f, blk, ch, sb)
  }

  lemma FinalDelivered(data: seq<byte>, len: nat, f: Frame, n: nat, blk: nat, ch: nat, sb: nat)
    requires WellFormed(f) && f.header.Valid()
    requires n == PackedLength(f) <= len < |data| && PackedAs(data[..n], f)
    requires blk < f.header.blocks && ch < f.header.Channels() && sb < f.header.subbands
    ensures U.TotalBits(f.header) <= 8 * |data|
    ensures U.FinalSample(data, f.header, f.scale, blk, ch, sb) == Delivered(f, blk, ch, sb)
  {
    hide BytesBits, Expand, U.Unpack, U.ReadSample, Reconstructed, PackedLength, PackedAs, Shr, RowCovered, BlockShaped, U.TotalBits;
    RoundTrip(data, len, f, n);
    U.StreamHolds(f.header);
    if f.header.mode == JointStereo {
      JointRecovered(data, f, n, sb);
    }
  }

  /** Packer and unpacker run one after the other on any well-formed frame, with any bytes behind. */
  method PackThenUnpack(f: Frame, rest: seq<byte>) returns (r: int, h: Header, scale: Scales, samples: array3<int>)
    requires WellFormed(f) && f.header.Guard() && rest != []
    ensures r == PackedLength(f) + if rest[0] == 0 then 1 else 0
    ensures h == f.header && scale == f.scale
    ensures fresh(samples) && samples.Length0 == 16 && samples.Length1 == 2 && samples.Length2 == 8
    ensures forall blk: nat, ch: nat, sb: nat :: blk < h.blocks && ch < h.Channels() && sb < h.subbands ==>
      samples[blk, ch, sb] == Delivered(f, blk, ch, sb)
  {
    hide BytesBits, U.Unpack, RowCovered, BlockShaped, PackedLength, PackedAs, U.FinalSample, Delivered, U.TotalBits, U.JointRead;
    var packed := new byte[PackedLength(f)](_ => 0);
    PackedLengthCovers(f);
    var n := PackFrame(packed, f);
    var data := packed[..n] + rest;
    assert data[..n] == packed[..n] && data[n] == rest[0];
    samples := new int[16, 2, 8];
    var joint;
    RoundTrip(data, n + |rest| - 1, f, n);
    r, h, joint, scale := U.UnpackFrame(data, n + |rest| - 1, samples);
    forall blk: nat, ch: nat, sb: nat | blk < h.blocks && ch < h.Channels() && sb < h.subbands
      ensures samples[blk, ch, sb] == Delivered(f, blk, ch, sb)
    {
      FinalDelivered(data, n + |rest| - 1, f, n, blk, ch, sb);
    }
  }

  lemma PackedLengthCovers(f: Frame)
    requires WellFormed(f) && f.header.Valid()
    ensures PackedLength(f) >= 4
  {
  }

  // ----- the layout of a frame

  lemma {:induction false} FactorInRow(row: seq<nat>, n: nat, sb: nat)
    requires sb < n <= |row|
    ensures FactorBits(row, n)[4 * sb..4 * sb + 4] == Expand(row[sb], 4)
  {
    hide Expand;
    if sb < n - 1 {
      FactorInRow(row, n - 1, sb);
      assert FactorBits(row, n)[4 * sb..4 * sb + 4] == FactorBits(row, n - 1)[4 * sb..4 * sb + 4];
    }
  }

  lemma FactorInScale(scale: Scales, subbands: nat, channels: nat, ch: nat, sb: nat)
    requires ch < channels <= |scale| <= 2 && sb < subbands && forall c :: 0 <= c < |scale| ==> |scale[c]| == subbands
    ensures var at := 4 * (ch * subbands + sb);
      at + 4 <= |ScaleBits(scale, channels)| && ScaleBits(scale, channels)[at..at + 4] == Expand(scale[ch][sb], 4)
  {
    hide Expand, FactorBits;
    FactorInRow(scale[ch], subbands, sb);
    if channels == 1 {
      assert ScaleBits(scale, 0) == [];
      assert ScaleBits(scale, 1) == FactorBits(scale[0], subbands);
    } else {
      assert ScaleBits(scale, 0) == [];
      assert ScaleBits(scale, 1) == FactorBits(scale[0], subbands);
      assert ScaleBits(scale, 2) == FactorBits(scale[0], subbands) + FactorBits(scale[1], subbands);
      InSecond(FactorBits(scale[0], subbands), FactorBits(scale[1], subbands), 4 * sb, ch);
    }
  }

  lemma InSecond(a: seq<bool>, b: seq<bool>, at: nat, ch: nat)
    requires |a| == |b| && at + 4 <= |a|
    ensures ch == 0 ==> (a + b)[at..at + 4] == a[at..at + 4]
    ensures ch == 1 ==> (a + b)[|a| + at..|a| + at + 4] == b[at..at + 4]
  {
  }

  ghost predicate FactorAt(s: seq<bool>, at: nat, factor: nat) {
    at + 4 <= |s| && s[at..at + 4] == Expand(factor, 4)
  }

  /** Behind the four header bytes and the joint mask, if there is one: four bits each, channel by
      channel, the lowest subband first. */
  function FactorPlace(h: Header, ch: nat, sb: nat): nat {
    (if h.mode == JointStereo then 32 + h.subbands else 32) + 4 * (ch * h.subbands + sb)
  }

  /** Where the scale factors stand. */
  lemma FactorStands(data: seq<byte>, f: Frame, n: nat, ch: nat, sb: nat)
    requires Shaped(f) && f.header.Valid() && n == PackedLength(f) <= |data| && PackedAs(data[..n], f)
    requires ch < f.header.Channels() && sb < f.header.subbands
    ensures FactorAt(BytesBits(data), FactorPlace(f.header, ch, sb), f.scale[ch][sb])
  {
    hide BytesBits, Expand, PackedAs, PackedLength, ScaleBits, CodeBits, FrameCodes, FrameBits, BlockShaped, U.TotalBits, FactorAt;
    var h := f.header;
    Parts(data, f, n);
    SizesAgree(f);
    FactorInScale(f.scale, h.subbands, |f.scale|, ch, sb);
    FactorInPart(BytesBits(data), JointBits(h, f.joint), ScaleBits(f.scale, |f.scale|), 4 * (ch * h.subbands + sb), f.scale[ch][sb]);
  }

  lemma FactorInPart(s: seq<bool>, joint: seq<bool>, factors: seq<bool>, at: nat, factor: nat)
    requires 32 + |joint + factors| <= |s| && s[32..32 + |joint + factors|] == joint + factors
    requires at + 4 <= |factors| && factors[at..at + 4] == Expand(factor, 4)
    ensures FactorAt(s, 32 + |joint| + at, factor)
  {
    hide Expand;
    SplitSlice(s, 32, joint, factors);
    SliceOfSlice(s, 32 + |joint|, 32 + |joint| + |factors|, at, at + 4);
    assert 32 + |joint| + (at + 4) == 32 + |joint| + at + 4;
  }

  /** The codes stand block by block, in a block channel by channel, in a channel subband by subband,
      without gaps: each starts where the one before it ends. */
  lemma CodesFollow(bits: Distribution, blk: nat, ch: nat, sb: nat)
    requires ch < |bits| && sb < |bits[ch]|
    ensures CodeOffset(bits, 0, 0, 0) == 0
    ensures sb + 1 < |bits[ch]| ==> CodeOffset(bits, blk, ch, sb + 1) == CodeOffset(bits, blk, ch, sb) + bits[ch][sb]
    ensures sb + 1 == |bits[ch]| && ch + 1 < |bits| ==> CodeOffset(bits, blk, ch + 1, 0) == CodeOffset(bits, blk, ch, sb) + bits[ch][sb]
    ensures sb + 1 == |bits[ch]| && ch + 1 == |bits| ==> CodeOffset(bits, blk + 1, 0, 0) == CodeOffset(bits, blk, ch, sb) + bits[ch][sb]
  {
    assert (blk + 1) * BlockSize(bits, |bits|) == blk * BlockSize(bits, |bits|) + BlockSize(bits, |bits|);
  }

  /** Un-mixing undoes joint stereo: when the two channels carry half the sum and half the difference of
      left and right, left and right are delivered. */
  lemma UnmixInverts(f: Frame, blk: nat, sb: nat, left: int, right: int)
    requires Shaped(f) && f.header.Valid() && blk < f.header.blocks && sb < f.header.subbands && JointBit(f, sb)
    requires 2 * Reconstructed(f, blk, 0, sb) == left + right && 2 * Reconstructed(f, blk, 1, sb) == left - right
    ensures Delivered(f, blk, 0, sb) == left && Delivered(f, blk, 1, sb) == right
  {
    hide Reconstructed;
  }
}
