/** Packing an SBC frame: header, checksum, and the bit stream of side information and codes. */
module SbcPack {
  import opened Bits
  import opened SbcFrame
  import opened SbcStream
  import Crc8
  import opened Quantizer
  import opened BitWriter

  /** samples[blk][ch][sb], with sixteen fractional bits more than the unpacker's. */
  datatype Frame = Frame(header: Header, joint: nat, scale: Scales, samples: seq<seq<seq<int>>>)

  predicate Shaped(f: Frame) {
    var h := f.header;
    && h.Shaped() && h.blocks % 4 == 0 && ScalesFit(h, f.scale)
    && f.joint < Pow2(h.subbands)
    && |f.samples| == h.blocks
    && forall blk :: 0 <= blk < h.blocks ==> BlockShaped(h, f.samples[blk])
  }

  predicate BlockShaped(h: Header, block: seq<seq<int>>) {
    |block| == h.Channels() && forall ch :: 0 <= ch < h.Channels() ==> |block[ch]| == h.subbands
  }

  predicate RowCovered(factors: seq<nat>, row: seq<int>) {
    |factors| == |row| && forall sb :: 0 <= sb < |row| ==> Abs(row[sb]) < Pow2(factors[sb] + 16)
  }

  /** The scale factors cover the samples, as the encoder computes them. */
  predicate WellFormed(f: Frame) {
    && Shaped(f)
    && forall blk, ch :: 0 <= blk < f.header.blocks && 0 <= ch < f.header.Channels() ==>
         RowCovered(f.scale[ch], f.samples[blk][ch])
  }

  // ----- what is packed

  function ModeCode(m: Mode): nat {
    match m
    case Mono => 0
    case DualChannel => 1
    case Stereo => 2
    case JointStereo => 3
  }

  /** data[1] */
  function HeaderByte(h: Header): byte
    requires h.Shaped()
  {
    h.frequency * 64 + (h.blocks / 4 + 3) % 4 * 16 + ModeCode(h.mode) * 4 + (if h.allocation == Snr then 2 else 0)
    + if h.subbands == 8 then 1 else 0
  }

  /** The fields of the second byte, from its most significant bit on: two bits each for sampling
      frequency, blocks and mode, then one bit for SNR and one for eight subbands. */
  lemma HeaderBits(h: Header)
    requires h.Shaped() && h.blocks % 4 == 0
    ensures Expand(HeaderByte(h), 8) ==
      Expand(h.frequency, 2) + Expand(h.blocks / 4 - 1, 2)
      + [h.mode == Stereo || h.mode == JointStereo, h.mode == DualChannel || h.mode == JointStereo]
      + [h.allocation == Snr, h.subbands == 8]
  {
    hide Expand;
    var b := HeaderByte(h);
    var q := h.blocks / 4 - 1;
    var (m, a, s) := (ModeCode(h.mode), if h.allocation == Snr then 1 else 0, if h.subbands == 8 then 1 else 0);
    assert (h.blocks / 4 + 3) % 4 == q;
    assert b == ((h.frequency * 4 + q) * 4 + m) * 4 + (2 * a + s);
    assert Pow2(2) == 4;
    ExpandShift((h.frequency * 4 + q) * 4 + m, 6, 2 * a + s, 2);
    ExpandShift(h.frequency * 4 + q, 4, m, 2);
    ExpandShift(h.frequency, 2, q, 2);
    TwoBits(m / 2, m % 2);
    TwoBits(a, s);
  }

  lemma TwoBits(x: nat, y: nat)
    requires x < 2 && y < 2
    ensures Expand(2 * x + y, 2) == [x == 1, y == 1]
  {
    assert (2 * x + y) / 2 == x && (2 * x + y) % 2 == y;
    assert Expand(x, 1) == [x == 1];
  }

  function RowCodes(widths: seq<nat>, factors: seq<nat>, row: seq<int>): (r: seq<nat>)
    requires |widths| == |factors| == |row| && forall sb :: 0 <= sb < |factors| ==> factors[sb] < 16
    ensures |r| == |row|
  {
    seq(|row|, sb requires 0 <= sb < |row| => Quantise(widths[sb], factors[sb], row[sb]))
  }

  function BlockCodes(f: Frame, blk: nat): (r: seq<seq<nat>>)
    requires Shaped(f) && f.header.Valid() && blk < f.header.blocks
    ensures BlockFits(r, FrameBits(f.header, f.scale))
  {
    var bits := FrameBits(f.header, f.scale);
    seq(f.header.Channels(), ch requires 0 <= ch < f.header.Channels() =>
      RowCodes(bits[ch], f.scale[ch], f.samples[blk][ch]))
  }

  function FrameCodes(f: Frame): (r: Codes)
    requires Shaped(f) && f.header.Valid()
    ensures |r| == f.header.blocks && CodesFit(r, FrameBits(f.header, f.scale))
  {
    seq(f.header.blocks, blk requires 0 <= blk < f.header.blocks => BlockCodes(f, blk))
  }

  /** The joint mask and the scale factors. */
  function SideBits(h: Header, joint: nat, scale: Scales): seq<bool> {
    JointBits(h, joint) + ScaleBits(scale, |scale|)
  }

  /** Everything after the four header bytes. */
  function Payload(f: Frame): seq<bool>
    requires Shaped(f) && f.header.Valid()
  {
    SideBits(f.header, f.joint, f.scale) + CodeBits(FrameCodes(f), FrameBits(f.header, f.scale), f.header.blocks)
  }

  /** The bits the checksum covers: the second and third header byte and the side information. */
  function CoveredBits(h: Header, side: seq<bool>): seq<bool>
    requires h.Shaped()
  {
    Expand(HeaderByte(h), 8) + Expand(h.bitpool, 8) + side
  }

  function PackedLength(f: Frame): nat
    requires Shaped(f) && f.header.Valid()
  {
    4 + (|Payload(f)| + 7) / 8
  }

  /** data is exactly the packed form of f. */
  predicate PackedAs(data: seq<byte>, f: Frame)
    requires Shaped(f) && f.header.Valid()
  {
    && |data| == PackedLength(f)
    && data[0] == SBC_SYNCWORD && data[1] == HeaderByte(f.header) && data[2] == f.header.bitpool
    && data[3] == Crc8.Checksum(CoveredBits(f.header, SideBits(f.header, f.joint, f.scale)))
    && BytesBits(data[4..]) == PadToByte(Payload(f))
  }

  /** The packed form is unique. */
  lemma PackedAsFunctional(a: seq<byte>, b: seq<byte>, f: Frame)
    requires Shaped(f) && f.header.Valid() && PackedAs(a, f) && PackedAs(b, f)
    ensures a == b
  {
    hide Payload, CoveredBits, SideBits, HeaderByte, BytesBits, PadToByte;
    BytesBitsInjective(a[4..], b[4..]);
    assert a[..4] == b[..4];
    assert a == a[..4] + a[4..] && b == b[..4] + b[4..];
  }

  // ----- the copy of the header the checksum is taken over

  /** crc_header while it is filled: whole bytes hold the covered bits, and a half byte waits in
      the low bits of the next one. */
  ghost predicate CrcHolds(crc: seq<byte>, covered: seq<bool>) {
    var k := |covered| / 8;
    && |crc| == 11 && |covered| <= 88 && |covered| % 4 == 0
    && BytesBits(crc[..k]) == covered[..8 * k]
    && (|covered| % 8 == 4 ==> crc[k] < 16 && Expand(crc[k], 4) == covered[8 * k..])
    && forall j :: k <= j < 11 && (|covered| % 8 == 4 ==> j > k) ==> crc[j] == 0
  }

  lemma CrcByteDone(crc: seq<byte>, k: nat, covered: seq<bool>)
    requires k < |crc| && BytesBits(crc[..k]) == covered
    ensures BytesBits(crc[..k + 1]) == covered + Expand(crc[k], 8)
  {
    assert crc[..k + 1][..k] == crc[..k];
  }

  /** The next half byte of the checksum copy: the byte it falls into moves up and takes it in. */
  method PushNibble(crc: array<byte>, crcPos: nat, v: nat, ghost covered: seq<bool>)
    requires CrcHolds(crc[..], covered) && crcPos == |covered| <= 84 && v < 16
    modifies crc
    ensures CrcHolds(crc[..], covered + Expand(v, 4))
  {
    hide CrcHolds, Expand;
    var k := crcPos / 8;
    CrcShape(crc[..], covered);
    Pushed(crc[..], v, covered);
    crc[k] := crc[k] * 16 % 256 + v;
  }

  lemma Pushed(before: seq<byte>, v: nat, covered: seq<bool>)
    requires CrcHolds(before, covered) && |covered| <= 84 && v < 16 && |covered| % 4 == 0
    ensures var k := |covered| / 8;
      k < |before| && before[k] * 16 % 256 + v < 256
      && CrcHolds(before[k := before[k] * 16 % 256 + v], covered + Expand(v, 4))
  {
    hide Expand, BytesBits, CrcHolds;
    if |covered| % 8 == 4 {
      PushedSecond(before, v, covered);
    } else {
      PushedFirst(before, v, covered);
    }
  }

  /** The byte is complete with this half byte. */
  lemma PushedSecond(before: seq<byte>, v: nat, covered: seq<bool>)
    requires CrcHolds(before, covered) && |covered| <= 84 && |covered| % 8 == 4 && v < 16
    ensures var k := |covered| / 8;
      k < |before| && before[k] * 16 % 256 + v < 256
      && CrcHolds(before[k := before[k] * 16 % 256 + v], covered + Expand(v, 4))
  {
    hide Expand, BytesBits;
    var k := |covered| / 8;
    var crc := before[k := before[k] * 16 % 256 + v];
    var all := covered + Expand(v, 4);
    assert crc[..k] == before[..k];
    TwoNibbles(before[k], v);
    CrcByteDone(crc, k, covered[..8 * k]);
    assert covered == covered[..8 * k] + covered[8 * k..];
    assert all == covered[..8 * k] + (Expand(before[k], 4) + Expand(v, 4));
    assert all[..8 * (k + 1)] == all;
  }

  /** The byte starts with this half byte. */
  lemma PushedFirst(before: seq<byte>, v: nat, covered: seq<bool>)
    requires CrcHolds(before, covered) && |covered| <= 84 && |covered| % 8 == 0 && v < 16
    ensures var k := |covered| / 8;
      k < |before| && before[k] * 16 % 256 + v < 256
      && CrcHolds(before[k := before[k] * 16 % 256 + v], covered + Expand(v, 4))
  {
    hide Expand, BytesBits;
    var k := |covered| / 8;
    var crc := before[k := before[k] * 16 % 256 + v];
    var all := covered + Expand(v, 4);
    assert before[k] == 0 && crc[k] == v;
    assert crc[..k] == before[..k];
    assert all[8 * k..] == Expand(v, 4) && all[..8 * k] == covered == covered[..8 * k];
  }

  /** Aligning the checksum copy: a half byte still waiting moves to the top of its byte. */
  method AlignCrc(crc: array<byte>, crcPos: nat, ghost covered: seq<bool>)
    requires CrcHolds(crc[..], covered) && crcPos == |covered|
    modifies crc
    ensures crcPos <= 8 * crc.Length && BytesBits(crc[..])[..crcPos] == covered
  {
    hide Expand, BytesBits;
    var k := crcPos / 8;
    ghost var before := crc[..];
    if crcPos % 8 != 0 {
      crc[k] := crc[k] * 16 % 256;
      assert crc[..][..k] == before[..k];
      assert before[k] < 16;
      TwoNibbles(before[k], 0);
      CrcByteDone(crc[..], k, covered[..8 * k]);
      BytesBitsPrefix(crc[..], k + 1);
      assert covered == covered[..8 * k] + covered[8 * k..];
      assert BytesBits(crc[..])[..crcPos] == (covered[..8 * k] + Expand(before[k], 4))[..crcPos];
    } else {
      BytesBitsPrefix(crc[..], k);
      assert covered[..8 * k] == covered;
    }
  }

  /** The joint mask is stored as the third byte of the checksum copy. */
  method StoreJoint(crc: array<byte>, subbands: nat, joint: nat, ghost head: seq<bool>)
    requires (subbands == 4 || subbands == 8) && joint < Pow2(subbands)
    requires |head| == 16 && CrcHolds(crc[..], head)
    modifies crc
    ensures CrcHolds(crc[..], head + Expand(joint, subbands))
  {
    Pow2Of8();
    hide Expand, BytesBits, Pow2;
    ghost var before := crc[..];
    crc[2] := joint;
    assert crc[..][..2] == before[..2];
    ghost var covered := head + Expand(joint, subbands);
    if subbands == 4 {
      assert covered[16..] == Expand(joint, 4) && covered[..16] == head[..16];
    } else {
      CrcByteDone(crc[..], 2, head[..16]);
      assert head[..16] == head && covered[..24] == covered;
    }
  }

  // ----- the packer

  /** The scale factors of one channel, into the stream and into the copy for the checksum. */
  method PackFactors(w: Writer, row: seq<nat>, crc: array<byte>, start: nat,
                     ghost head: seq<bool>, ghost before: seq<bool>) returns (crcPos: nat)
    requires w.Valid() && w.ptr >= 4 && crc != w.data
    requires forall sb :: 0 <= sb < |row| ==> row[sb] < 16
    requires w.Written(4) == before && |before| + 4 * |row| <= 8 * (w.data.Length - 4)
    requires CrcHolds(crc[..], head + before) && start == |head + before| && start + 4 * |row| <= 88
    modifies w`ptr, w`bitsCache, w`bitsCount, w.data, crc
    ensures w.Valid() && w.ptr >= 4 && w.data[..4] == old(w.data[..4])
    ensures w.Written(4) == before + FactorBits(row, |row|)
    ensures CrcHolds(crc[..], head + (before + FactorBits(row, |row|)))
    ensures crcPos == start + 4 * |row|
  {
    hide Expand, BytesBits, CrcHolds;
    crcPos := start;
    assert before + FactorBits(row, 0) == before;
    for sb := 0 to |row|
      invariant w.Valid() && w.ptr >= 4 && w.data[..4] == old(w.data[..4])
      invariant w.Written(4) == before + FactorBits(row, sb)
      invariant CrcHolds(crc[..], head + (before + FactorBits(row, sb)))
      invariant crcPos == start + 4 * sb
    {
      ghost var done := before + FactorBits(row, sb);
      assert done + Expand(row[sb], 4) == before + FactorBits(row, sb + 1);
      assert head + done + Expand(row[sb], 4) == head + (done + Expand(row[sb], 4));
      assert |head + done| == crcPos;
      Pow2Of8();
      CrcShape(crc[..], head + done);
      w.PutBits(row[sb], 4, 4);
      PushNibble(crc, crcPos, row[sb], head + done);
      assert w.data[..4] == w.data[..w.ptr][..4];
      crcPos := crcPos + 4;
    }
  }

  lemma CrcShape(crc: seq<byte>, covered: seq<bool>)
    requires CrcHolds(crc, covered)
    ensures |crc| == 11 && |covered| % 4 == 0
  {
  }

  lemma SideBitsLength(h: Header, joint: nat, scale: Scales, n: nat)
    requires h.Shaped() && ScalesFit(h, scale) && n <= h.Channels()
    ensures |JointBits(h, joint)| <= h.subbands
    ensures |JointBits(h, joint) + ScaleBits(scale, n)| == |JointBits(h, joint)| + 4 * h.subbands * n
  {
    ScaleBitsLength(scale, n, h.subbands);
  }

  /** The joint mask, into the stream and into the copy for the checksum. */
  method PackJoint(w: Writer, h: Header, joint: nat, crc: array<byte>) returns (crcPos: nat)
    requires h.Shaped() && joint < Pow2(h.subbands)
    requires w.Valid() && w.ptr == 4 && w.bitsCount == 0 && crc != w.data
    requires CrcHolds(crc[..], CoveredBits(h, []))
    modifies w`ptr, w`bitsCache, w`bitsCount, w.data, crc
    ensures w.Valid() && w.ptr >= 4 && w.data[..4] == old(w.data[..4])
    ensures w.Written(4) == JointBits(h, joint)
    ensures CrcHolds(crc[..], CoveredBits(h, JointBits(h, joint)))
    ensures crcPos == 16 + |JointBits(h, joint)|
  {
    hide Expand, HeaderByte, CrcHolds, Pow2;
    ghost var head := Expand(HeaderByte(h), 8) + Expand(h.bitpool, 8);
    assert CoveredBits(h, []) == head;
    crcPos := 16;
    if h.mode == JointStereo {
      w.PutBits(joint, h.subbands, 4);
      StoreJoint(crc, h.subbands, joint, head);
      crcPos := crcPos + h.subbands;
      assert w.data[..4] == w.data[..w.ptr][..4];
    }
  }

  /** The scale factors, channel by channel, after `side`. */
  method PackScales(w: Writer, h: Header, scale: Scales, crc: array<byte>, start: nat,
                    ghost head: seq<bool>, ghost side: seq<bool>)
    returns (crcPos: nat)
    requires h.Shaped() && ScalesFit(h, scale)
    requires w.Valid() && w.ptr >= 4 && crc != w.data
    requires w.Written(4) == side && |side| + 4 * h.subbands * h.Channels() <= 8 * (w.data.Length - 4)
    requires CrcHolds(crc[..], head + side) && start == |head + side| && |head| == 16 && |side| <= 8
    modifies w`ptr, w`bitsCache, w`bitsCount, w.data, crc
    ensures w.Valid() && w.ptr >= 4 && w.data[..4] == old(w.data[..4])
    ensures w.Written(4) == side + ScaleBits(scale, h.Channels())
    ensures CrcHolds(crc[..], head + (side + ScaleBits(scale, h.Channels())))
    ensures crcPos == |head + (side + ScaleBits(scale, h.Channels()))|
  {
    hide Expand, CrcHolds, FactorBits;
    crcPos := start;
    var ch := 0;
    assert side + ScaleBits(scale, 0) == side;
    while ch < h.Channels()
      invariant ch <= h.Channels()
      invariant w.Valid() && w.ptr >= 4 && w.data[..4] == old(w.data[..4])
      invariant w.Written(4) == side + ScaleBits(scale, ch)
      invariant CrcHolds(crc[..], head + (side + ScaleBits(scale, ch)))
      invariant crcPos == |head + (side + ScaleBits(scale, ch))|
    {
      ScaleRoom(h, scale, ch);
      crcPos := PackFactors(w, scale[ch], crc, crcPos, head, side + ScaleBits(scale, ch));
      ScaleBitsNext(side, scale, ch);
      ch := ch + 1;
    }
  }

  lemma ScaleRoom(h: Header, scale: Scales, ch: nat)
    requires h.Shaped() && ScalesFit(h, scale) && ch < h.Channels()
    ensures |scale[ch]| == h.subbands && forall sb :: 0 <= sb < h.subbands ==> scale[ch][sb] < 16
    ensures |ScaleBits(scale, ch)| + 4 * h.subbands <= 4 * h.subbands * h.Channels() <= 64
    ensures |ScaleBits(scale, ch + 1)| == |ScaleBits(scale, ch)| + 4 * h.subbands
  {
    ScaleBitsLength(scale, ch, h.subbands);
    ScaleBitsLength(scale, ch + 1, h.subbands);
  }

  lemma ScaleBitsNext(side: seq<bool>, scale: Scales, ch: nat)
    requires ch < |scale|
    ensures side + ScaleBits(scale, ch) + FactorBits(scale[ch], |scale[ch]|) == side + ScaleBits(scale, ch + 1)
  {
  }

  /** The side information: the joint mask, then the scale factors channel by channel. */
  method PackSide(w: Writer, f: Frame, crc: array<byte>) returns (crcPos: nat)
    requires Shaped(f) && f.header.Valid()
    requires w.Valid() && w.ptr == 4 && w.bitsCount == 0 && PackedLength(f) <= w.data.Length && crc != w.data
    requires CrcHolds(crc[..], CoveredBits(f.header, []))
    modifies w`ptr, w`bitsCache, w`bitsCount, w.data, crc
    ensures w.Valid() && w.ptr >= 4 && w.data[..4] == old(w.data[..4])
    ensures w.Written(4) == SideBits(f.header, f.joint, f.scale)
    ensures CrcHolds(crc[..], CoveredBits(f.header, SideBits(f.header, f.joint, f.scale)))
    ensures crcPos == |CoveredBits(f.header, SideBits(f.header, f.joint, f.scale))|
  {
    hide Expand, HeaderByte, CodeBits, FrameCodes, FrameBits, CrcHolds, FactorBits, Pow2, JointBits;
    var h := f.header;
    SideBitsLength(h, f.joint, f.scale, h.Channels());
    assert |SideBits(h, f.joint, f.scale)| <= 8 * (w.data.Length - 4);
    crcPos := PackJoint(w, h, f.joint, crc);
    ghost var head := Expand(HeaderByte(h), 8) + Expand(h.bitpool, 8);
    crcPos := PackScales(w, h, f.scale, crc, crcPos, head, JointBits(h, f.joint));
  }

  // ----- the codes

  /** Everything written before the code of (blk, ch, sb). */
  ghost function Before(side: seq<bool>, codes: Codes, bits: Distribution, blk: nat, ch: nat, sb: nat): seq<bool>
    requires CodesFit(codes, bits) && blk < |codes| && ch < |bits| && sb <= |bits[ch]|
  {
    side + (CodeBits(codes, bits, blk) + BlockBits(codes[blk], bits, ch) + RowBits(codes[blk][ch], bits[ch], sb))
  }

  lemma BeforeFits(side: seq<bool>, codes: Codes, bits: Distribution, blk: nat, ch: nat, sb: nat)
    requires CodesFit(codes, bits) && blk < |codes| && ch < |bits| && sb < |bits[ch]|
    ensures |Before(side, codes, bits, blk, ch, sb)| + bits[ch][sb] <= |side| + |CodeBits(codes, bits, |codes|)|
  {
    CodeAt(codes, bits, blk, ch, sb);
    CodeBitsLength(codes, bits, blk);
  }

  /** The codes of one channel of one block. */
  method PackRow(w: Writer, widths: seq<nat>, factors: seq<nat>, row: seq<int>,
                 levels: array2<nat>, delta: array2<nat>, ch: nat,
                 ghost side: seq<bool>, ghost codes: Codes, ghost bits: Distribution, ghost blk: nat)
    requires w.Valid() && w.ptr >= 4
    requires CodesFit(codes, bits) && blk < |codes| && ch < |bits| && widths == bits[ch]
    requires |widths| == |factors| == |row| <= 8 && ch < 2 && RowCovered(factors, row)
    requires forall sb :: 0 <= sb < |factors| ==> factors[sb] < 16 && widths[sb] <= 16
    requires codes[blk][ch] == RowCodes(widths, factors, row)
    requires levels.Length0 == delta.Length0 == 2 && levels.Length1 == delta.Length1 == 8
    requires forall sb :: 0 <= sb < |row| ==>
      levels[ch, sb] == Uint32(Levels(widths[sb]) * Pow2(15 - factors[sb])) && delta[ch, sb] == Pow2(factors[sb] + 16)
    requires w.Written(4) == Before(side, codes, bits, blk, ch, 0)
    requires |side| + |CodeBits(codes, bits, |codes|)| <= 8 * (w.data.Length - 4)
    modifies w`ptr, w`bitsCache, w`bitsCount, w.data
    ensures w.Valid() && w.ptr >= 4 && w.data[..4] == old(w.data[..4])
    ensures w.Written(4) == Before(side, codes, bits, blk, ch, |row|)
  {
    hide Expand, CodeBits, BlockBits, Pow2;
    for sb := 0 to |row|
      invariant w.Valid() && w.ptr >= 4 && w.data[..4] == old(w.data[..4])
      invariant w.Written(4) == Before(side, codes, bits, blk, ch, sb)
    {
      var audioSample := levels[ch, sb] * Uint32(delta[ch, sb] + row[sb]) / WORD;
      assert audioSample == Quantise(widths[sb], factors[sb], row[sb]) == codes[blk][ch][sb];
      BeforeFits(side, codes, bits, blk, ch, sb);
      BeforeNext(side, codes, bits, blk, ch, sb);
      if widths[sb] != 0 {
        CodeInField(widths[sb], factors[sb], row[sb]);
        w.PutBits(audioSample, widths[sb], 4);
        assert w.data[..4] == w.data[..w.ptr][..4];
      }
    }
  }

  lemma BeforeNext(side: seq<bool>, codes: Codes, bits: Distribution, blk: nat, ch: nat, sb: nat)
    requires CodesFit(codes, bits) && blk < |codes| && ch < |bits| && sb < |bits[ch]|
    ensures Before(side, codes, bits, blk, ch, sb + 1)
         == Before(side, codes, bits, blk, ch, sb) + Expand(codes[blk][ch][sb], bits[ch][sb])
    ensures bits[ch][sb] == 0 ==> Before(side, codes, bits, blk, ch, sb + 1) == Before(side, codes, bits, blk, ch, sb)
  {
  }

  lemma CodeInField(width: nat, factor: nat, sample: int)
    requires 0 < width <= 16 && factor < 16 && Abs(sample) < Pow2(factor + 16)
    ensures Quantise(width, factor, sample) < Pow2(width)
  {
    CodeRange(width, factor, sample);
  }

  lemma BeforeChannel(side: seq<bool>, codes: Codes, bits: Distribution, blk: nat, ch: nat)
    requires CodesFit(codes, bits) && blk < |codes| && ch + 1 < |bits|
    ensures Before(side, codes, bits, blk, ch + 1, 0) == Before(side, codes, bits, blk, ch, |bits[ch]|)
  {
    hide CodeBits;
    var x, y, z := CodeBits(codes, bits, blk), BlockBits(codes[blk], bits, ch), RowBits(codes[blk][ch], bits[ch], |bits[ch]|);
    assert BlockBits(codes[blk], bits, ch + 1) == y + z;
    assert x + (y + z) + [] == x + y + z;
  }

  lemma BeforeBlock(side: seq<bool>, codes: Codes, bits: Distribution, blk: nat)
    requires CodesFit(codes, bits) && blk < |codes| && |bits| > 0
    ensures Before(side, codes, bits, blk, |bits| - 1, |bits[|bits| - 1]|) == side + CodeBits(codes, bits, blk + 1)
    ensures Before(side, codes, bits, blk, 0, 0) == side + CodeBits(codes, bits, blk)
  {
    var ch := |bits| - 1;
    assert CodeBits(codes, bits, blk) + BlockBits(codes[blk], bits, ch) + RowBits(codes[blk][ch], bits[ch], |bits[ch]|)
        == CodeBits(codes, bits, blk) + BlockBits(codes[blk], bits, |bits|);
  }

  /** levels and sb_sample_delta of one channel. */
  method PackLevels(ch: nat, widths: seq<nat>, factors: seq<nat>, levels: array2<nat>, delta: array2<nat>)
    requires ch < 2 && |widths| == |factors| <= 8
    requires forall sb :: 0 <= sb < |factors| ==> factors[sb] < 16
    requires levels.Length0 == delta.Length0 == 2 && levels.Length1 == delta.Length1 == 8 && levels != delta
    modifies levels, delta
    ensures forall sb :: 0 <= sb < |widths| ==>
      levels[ch, sb] == Uint32(Levels(widths[sb]) * Pow2(15 - factors[sb])) && delta[ch, sb] == Pow2(factors[sb] + 16)
    ensures forall c, sb :: 0 <= c < 2 && 0 <= sb < 8 && c != ch ==>
      levels[c, sb] == old(levels[c, sb]) && delta[c, sb] == old(delta[c, sb])
  {
    for sb := 0 to |widths|
      invariant forall s :: 0 <= s < sb ==>
        levels[ch, s] == Uint32(Levels(widths[s]) * Pow2(15 - factors[s])) && delta[ch, s] == Pow2(factors[s] + 16)
      invariant forall c, s :: 0 <= c < 2 && 0 <= s < 8 && c != ch ==>
        levels[c, s] == old(levels[c, s]) && delta[c, s] == old(delta[c, s])
    {
      levels[ch, sb] := Uint32((Pow2(widths[sb]) - 1) * Pow2(15 - factors[sb]));
      delta[ch, sb] := Pow2(factors[sb] + 16);
    }
  }

  ghost predicate TablesFit(f: Frame, bits: Distribution, levels: array2<nat>, delta: array2<nat>)
    requires Shaped(f) && f.header.Valid()
    reads levels, delta
  {
    && bits == FrameBits(f.header, f.scale)
    && levels.Length0 == delta.Length0 == 2 && levels.Length1 == delta.Length1 == 8
    && forall ch, sb :: 0 <= ch < f.header.Channels() && 0 <= sb < f.header.subbands ==>
         && levels[ch, sb] == Uint32(Levels(bits[ch][sb]) * Pow2(15 - f.scale[ch][sb]))
         && delta[ch, sb] == Pow2(f.scale[ch][sb] + 16)
  }

  /** The codes of one block, channel by channel. */
  method PackBlock(w: Writer, f: Frame, bits: Distribution, levels: array2<nat>, delta: array2<nat>, blk: nat, ghost side: seq<bool>)
    requires w.Valid() && w.ptr >= 4
    requires WellFormed(f) && f.header.Valid() && TablesFit(f, bits, levels, delta) && blk < f.header.blocks
    requires w.Written(4) == Before(side, FrameCodes(f), bits, blk, 0, 0)
    requires |side| + |CodeBits(FrameCodes(f), bits, f.header.blocks)| <= 8 * (w.data.Length - 4)
    modifies w`ptr, w`bitsCache, w`bitsCount, w.data
    ensures w.Valid() && w.ptr >= 4 && w.data[..4] == old(w.data[..4])
    ensures w.Written(4) == Before(side, FrameCodes(f), bits, blk, |bits| - 1, f.header.subbands)
  {
    hide CodeBits, FrameCodes, FrameBits, Before, Pow2, Uint32, Levels, BytesBits, Expand, TablesFit, RowCodes, RowCovered;
    ghost var codes := FrameCodes(f);
    BitsShape(f, bits, levels, delta);
    var ch := 0;
    while ch < f.header.Channels()
      invariant ch <= f.header.Channels()
      invariant w.Valid() && w.ptr >= 4 && w.data[..4] == old(w.data[..4])
      invariant w.Written(4) == if ch == 0 then Before(side, codes, bits, blk, 0, 0) else Before(side, codes, bits, blk, ch - 1, f.header.subbands)
    {
      RowFacts(f, bits, levels, delta, blk, ch);
      if ch > 0 {
        RowFacts(f, bits, levels, delta, blk, ch - 1);
        BeforeChannel(side, codes, bits, blk, ch - 1);
      }
      PackRow(w, bits[ch], f.scale[ch], f.samples[blk][ch], levels, delta, ch, side, codes, bits, blk);
      ch := ch + 1;
    }
  }

  /** What one row of the tables and the codes says. */
  lemma RowFacts(f: Frame, bits: Distribution, levels: array2<nat>, delta: array2<nat>, blk: nat, ch: nat)
    requires WellFormed(f) && f.header.Valid() && TablesFit(f, bits, levels, delta)
    requires blk < f.header.blocks && ch < f.header.Channels()
    ensures levels.Length0 == delta.Length0 == 2 && levels.Length1 == delta.Length1 == 8
    ensures |bits| == |f.scale| == |f.samples[blk]| == f.header.Channels()
    ensures |bits[ch]| == |f.scale[ch]| == |f.samples[blk][ch]| == f.header.subbands
    ensures RowCovered(f.scale[ch], f.samples[blk][ch])
    ensures forall sb :: 0 <= sb < f.header.subbands ==>
      && f.scale[ch][sb] < 16 && bits[ch][sb] <= 16
      && levels[ch, sb] == Uint32(Levels(bits[ch][sb]) * Pow2(15 - f.scale[ch][sb]))
      && delta[ch, sb] == Pow2(f.scale[ch][sb] + 16)
    ensures FrameCodes(f)[blk][ch] == RowCodes(bits[ch], f.scale[ch], f.samples[blk][ch])
  {
    hide Pow2, Uint32, Levels, RowCodes, RowCovered, ChannelBits, FrameCodes;
    CodesRow(f, blk, ch);
    assert BlockShaped(f.header, f.samples[blk]);
  }

  lemma CodesRow(f: Frame, blk: nat, ch: nat)
    requires Shaped(f) && f.header.Valid() && blk < f.header.blocks && ch < f.header.Channels()
    ensures BlockShaped(f.header, f.samples[blk])
    ensures FrameCodes(f)[blk][ch] == RowCodes(FrameBits(f.header, f.scale)[ch], f.scale[ch], f.samples[blk][ch])
  {
    hide RowCodes, FrameBits;
    assert FrameCodes(f)[blk] == BlockCodes(f, blk);
  }

  /** All codes, block by block. */
  method PackCodes(w: Writer, f: Frame, bits: Distribution, levels: array2<nat>, delta: array2<nat>, ghost side: seq<bool>)
    requires w.Valid() && w.ptr >= 4
    requires WellFormed(f) && f.header.Valid() && TablesFit(f, bits, levels, delta)
    requires w.Written(4) == side
    requires |side| + |CodeBits(FrameCodes(f), bits, f.header.blocks)| <= 8 * (w.data.Length - 4)
    modifies w`ptr, w`bitsCache, w`bitsCount, w.data
    ensures w.Valid() && w.ptr >= 4 && w.data[..4] == old(w.data[..4])
    ensures w.Written(4) == side + CodeBits(FrameCodes(f), bits, f.header.blocks)
  {
    hide CodeBits, FrameBits, Before, BytesBits, Expand, FrameCodes, TablesFit;
    ghost var codes := FrameCodes(f);
    BitsShape(f, bits, levels, delta);
    CodeBitsNone(side, codes, bits);
    for blk := 0 to f.header.blocks
      invariant w.Valid() && w.ptr >= 4 && w.data[..4] == old(w.data[..4])
      invariant w.Written(4) == side + CodeBits(codes, bits, blk)
      invariant TablesFit(f, bits, levels, delta)
    {
      BitsShape(f, bits, levels, delta);
      BeforeBlock(side, codes, bits, blk);
      PackBlock(w, f, bits, levels, delta, blk, side);
    }
  }

  lemma BitsShape(f: Frame, bits: Distribution, levels: array2<nat>, delta: array2<nat>)
    requires Shaped(f) && f.header.Valid() && TablesFit(f, bits, levels, delta)
    ensures |bits| == f.header.Channels() && forall ch :: 0 <= ch < |bits| ==> |bits[ch]| == f.header.subbands
    ensures CodesFit(FrameCodes(f), bits)
  {
    hide ChannelBits, CodesFit;
  }

  lemma CodeBitsNone(side: seq<bool>, codes: Codes, bits: Distribution)
    requires CodesFit(codes, bits)
    ensures side + CodeBits(codes, bits, 0) == side
  {
  }

  lemma CrcStart(crc: seq<byte>, h: Header)
    requires h.Shaped() && |crc| == 11 && crc[0] == HeaderByte(h) && crc[1] == h.bitpool
    requires forall j :: 2 <= j < 11 ==> crc[j] == 0
    ensures CrcHolds(crc, CoveredBits(h, []))
  {
    hide HeaderByte, Expand;
    assert crc[..1] == [crc[0]] && crc[..2] == [crc[0]] + [crc[1]];
    BytesBitsConcat([crc[0]], [crc[1]]);
    BytesBitsSingle(crc[0]);
    BytesBitsSingle(crc[1]);
    assert CoveredBits(h, []) == Expand(HeaderByte(h), 8) + Expand(h.bitpool, 8);
  }

  /** The distribution as a value, the scaled levels and the half range of every subband. */
  method Tables(f: Frame) returns (bits: Distribution, levels: array2<nat>, delta: array2<nat>)
    requires Shaped(f) && f.header.Valid()
    ensures fresh(levels) && fresh(delta) && TablesFit(f, bits, levels, delta)
  {
    hide Uint32, Levels, Pow2, ChannelBits;
    var h := f.header;
    bits := DistributeBits(h, f.scale);
    levels, delta := new nat[2, 8], new nat[2, 8];
    var ch := 0;
    while ch < h.Channels()
      invariant ch <= h.Channels()
      invariant forall c, sb :: 0 <= c < ch && 0 <= sb < h.subbands ==>
        levels[c, sb] == Uint32(Levels(bits[c][sb]) * Pow2(15 - f.scale[c][sb])) && delta[c, sb] == Pow2(f.scale[c][sb] + 16)
    {
      PackLevels(ch, bits[ch], f.scale[ch], levels, delta);
      ch := ch + 1;
    }
  }

  /** The four header bytes and the side information; data[3] last, when the checksum is known. */
  method PackStart(data: array<byte>, f: Frame) returns (w: Writer)
    requires Shaped(f) && f.header.Valid() && PackedLength(f) <= data.Length
    requires data[0] == SBC_SYNCWORD && data[1] == HeaderByte(f.header) && data[2] == f.header.bitpool
    modifies data
    ensures fresh(w) && w.data == data && w.Valid() && w.ptr >= 4
    ensures data[0] == SBC_SYNCWORD && data[1] == HeaderByte(f.header) && data[2] == f.header.bitpool
    ensures data[3] == Crc8.Checksum(CoveredBits(f.header, SideBits(f.header, f.joint, f.scale)))
    ensures w.Written(4) == SideBits(f.header, f.joint, f.scale)
  {
    hide HeaderByte, CrcHolds, CodeBits, FrameCodes, FrameBits, Expand, BytesBits, CoveredBits, SideBits, Payload;
    var crcHeader := new byte[11](_ => 0);
    crcHeader[0] := data[1];
    crcHeader[1] := data[2];
    CrcStart(crcHeader[..], f.header);
    w := new Writer(data, 4);
    NothingWritten(w);
    ghost var head := data[..4];
    var crcPos := PackSide(w, f, crcHeader);
    assert forall k :: 0 <= k < 4 ==> data[k] == data[..4][k] == head[k];
    AlignCrc(crcHeader, crcPos, CoveredBits(f.header, SideBits(f.header, f.joint, f.scale)));
    var crc := Crc8.Crc(crcHeader[..], crcPos);
    ghost var stored := data[4..w.ptr];
    data[3] := crc;
    assert data[4..w.ptr] == stored;
  }

  lemma NothingWritten(w: Writer)
    requires w.Valid() && w.ptr == 4 && w.bitsCount == 0
    ensures w.Written(4) == []
  {
  }

  /** sbc_pack_frame: the packed length, or -5 when the bitpool is out of bounds. */
  method PackFrame(data: array<byte>, f: Frame) returns (n: int)
    requires WellFormed(f) && data.Length >= 4
    requires f.header.Valid() ==> PackedLength(f) <= data.Length
    modifies data
    ensures !f.header.Guard() ==> n == -5
    ensures f.header.Guard() ==> n == PackedLength(f) && PackedAs(data[..n], f)
  {
    hide HeaderByte, CodeBits, FrameCodes, FrameBits, Expand, BytesBits, CoveredBits, SideBits, TablesFit;
    data[0] := SBC_SYNCWORD;
    data[1] := HeaderByte(f.header);
    data[2] := f.header.bitpool;
    if !f.header.Guard() {
      return -5;
    }
    var w := PackStart(data, f);
    ghost var head := data[..4];
    var bits, levels, delta := Tables(f);
    BitsShape(f, bits, levels, delta);
    assert bits == FrameBits(f.header, f.scale) by { TablesBits(f, bits, levels, delta); }
    PackCodes(w, f, bits, levels, delta, SideBits(f.header, f.joint, f.scale));
    assert w.Written(4) == Payload(f);
    ghost var coded := data[..w.ptr];
    w.FlushBits(4);
    n := w.ptr;
    PackedParts(data[..], n, coded, head, f);
    assert data[..][..n] == data[..n];
  }

  /** Header bytes kept by the writer and the flushed payload make the packed form. */
  lemma PackedParts(data: seq<byte>, n: nat, coded: seq<byte>, head: seq<byte>, f: Frame)
    requires Shaped(f) && f.header.Valid() && n == PackedLength(f) <= |data|
    requires 4 <= |coded| <= n && data[..|coded|] == coded && coded[..4] == head
    requires head[0] == SBC_SYNCWORD && head[1] == HeaderByte(f.header) && head[2] == f.header.bitpool
    requires head[3] == Crc8.Checksum(CoveredBits(f.header, SideBits(f.header, f.joint, f.scale)))
    requires BytesBits(data[4..n]) == PadToByte(Payload(f))
    ensures PackedAs(data[..n], f)
  {
    hide HeaderByte, BytesBits, CoveredBits, SideBits, PadToByte, Payload, PackedLength;
    assert data[..n][4..] == data[4..n];
    forall k | 0 <= k < 4 ensures data[..n][k] == head[k] {
      assert data[..|coded|][k] == coded[..4][k];
    }
  }

  lemma TablesBits(f: Frame, bits: Distribution, levels: array2<nat>, delta: array2<nat>)
    requires Shaped(f) && f.header.Valid() && TablesFit(f, bits, levels, delta)
    ensures bits == FrameBits(f.header, f.scale)
  {
  }
}
