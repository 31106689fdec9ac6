/** What the codec guarantees end to end: accuracy, the fixed size of mSBC frames, and the
    corruptions that the checksum is certain to catch. */
module SbcGuarantees {
  import opened Bits
  import opened SbcFrame
  import opened SbcPack
  import opened SbcRoundTrip
  import U = SbcUnpack
  import Crc8
  import opened Quantizer

  /** Accuracy: a sample that was given bits comes back within one quantisation step plus one
      unit, and within the range of its scale factor. (Cleared of the denominators 2^16 and
      2^bits - 1.) */
  lemma CodecError(data: seq<byte>, f: Frame, n: nat, blk: nat, ch: nat, sb: nat)
    requires WellFormed(f) && f.header.Valid() && n == PackedLength(f) < |data| && PackedAs(data[..n], f)
    requires blk < f.header.blocks && ch < f.header.Channels() && sb < f.header.subbands
    requires FrameBits(f.header, f.scale)[ch][sb] > 0
    ensures U.TotalBits(f.header) <= 8 * |data| && BlockShaped(f.header, f.samples[blk])
    ensures var (width, p) := (FrameBits(f.header, f.scale)[ch][sb], Pow2(f.scale[ch][sb]));
      var (sent, got) := (f.samples[blk][ch][sb], U.ReadSample(data, f.header, f.scale, blk, ch, sb));
      && 0 <= p + got < 2 * p
      && Abs(Levels(width) * (UNIT * got - sent)) < UNIT * (p + Levels(width))
  {
    hide BytesBits, PackedAs, Payload, ChannelBits, Dequantise, Quantise, U.ReadSample, Pow2;
    SizesAgree(f);
    SampleRecovered(data, f, n, blk, ch, sb);
    CodesRow(f, blk, ch);
    assert RowCovered(f.scale[ch], f.samples[blk][ch]);
    QuantiserError(FrameBits(f.header, f.scale)[ch][sb], f.scale[ch][sb], f.samples[blk][ch][sb]);
  }

  /** An mSBC frame has 454 bits whatever its scale factors: with at least 57 bytes and a matching
      checksum it is accepted as 57 bytes, or 58 when the following byte is 0, and its 15 blocks
      of 8 subbands give the 120 samples of one concealment frame. */
  lemma MsbcConsumption(data: seq<byte>, len: nat)
    requires len < |data| && len >= 4 && data[0] == U.MSBC_SYNCWORD
    ensures U.TotalBits(MSBC) == 454 && MSBC.blocks * MSBC.subbands == 120
    ensures match U.Unpack(data, len)
            case Unpacked(length, h, _) => len >= 57 && h == MSBC && length == if data[57] == 0 then 58 else 57
            case Failed(_) => len < 57 || data[3] != Crc8.Checksum(U.CoveredRead(MSBC, BytesBits(data)))
  {
    hide BytesBits, U.TotalBits, U.CodeStart, U.CoveredRead, U.ScaleOf, Crc8.Checksum;
    MsbcSizes();
  }

  lemma MsbcSizes()
    ensures MSBC.Valid() && U.CodeStart(MSBC) == 64 && U.TotalBits(MSBC) == 454
  {
  }

  /** Error detection: if an accepted frame is hit by a burst that changes bits under the checksum
      only within eight consecutive covered bits and leaves the parsed header alone, the damaged
      frame is rejected. */
  lemma BurstRejected(data: seq<byte>, damaged: seq<byte>, len: nat, p: nat)
    requires len < |data| == |damaged| && U.Unpack(data, len).Unpacked?
    requires U.ParseHeader(damaged) == U.ParseHeader(data) && damaged[3] == data[3]
    requires var h := U.ParseHeader(data).h;
      var (a, b) := (U.CoveredRead(h, BytesBits(data)), U.CoveredRead(h, BytesBits(damaged)));
      a != b && forall k :: 0 <= k < |a| && !(p <= k < p + 8) ==> a[k] == b[k]
    ensures U.Unpack(damaged, len) == U.Failed(U.BAD_CRC)
  {
    hide BytesBits, Crc8.Checksum, U.CoveredRead, U.ParseHeader, U.ScaleOf;
    var h := U.ParseHeader(data).h;
    assert |U.CoveredRead(h, BytesBits(data))| == |U.CoveredRead(h, BytesBits(damaged))| by { CoveredLength(data, damaged, h); }
    Crc8.BurstDetected(U.CoveredRead(h, BytesBits(data)), U.CoveredRead(h, BytesBits(damaged)), p);
  }

  lemma CoveredLength(a: seq<byte>, b: seq<byte>, h: Header)
    requires |a| == |b| && U.CodeStart(h) <= 8 * |a|
    ensures |U.CoveredRead(h, BytesBits(a))| == |U.CoveredRead(h, BytesBits(b))|
  {
  }

  /** For mSBC the header is never damaged but by its sync word, so every such burst is caught. */
  lemma MsbcBurstRejected(data: seq<byte>, damaged: seq<byte>, len: nat, p: nat)
    requires len < |data| == |damaged| && U.Unpack(data, len).Unpacked?
    requires data[0] == damaged[0] == U.MSBC_SYNCWORD && damaged[3] == data[3]
    requires var (a, b) := (U.CoveredRead(MSBC, BytesBits(data)), U.CoveredRead(MSBC, BytesBits(damaged)));
      a != b && forall k :: 0 <= k < |a| && !(p <= k < p + 8) ==> a[k] == b[k]
    ensures U.Unpack(damaged, len) == U.Failed(U.BAD_CRC)
  {
    hide BytesBits, U.CoveredRead;
    BurstRejected(data, damaged, len, p);
  }
}
