/** Decoding a frame: unpacking, synthesis channel by channel, and the interleaved PCM bytes. */
module SbcDecode {
  import opened Bits
  import opened SbcFrame
  import Pcm
  import SbcStream
  import Synthesis
  import U = SbcUnpack

  /** The subband samples of one block of one channel, as unpacked. */
  function Block(data: seq<byte>, h: Header, scale: Scales, ch: nat, blk: nat): (r: seq<int>)
    requires h.Valid() && ScalesFit(h, scale) && U.TotalBits(h) <= 8 * |data| && ch < h.Channels() && blk < h.blocks
    ensures |r| == h.subbands
  {
    seq(h.subbands, sb requires 0 <= sb < h.subbands => U.FinalSample(data, h, scale, blk, ch, sb))
  }

  function Blocks(data: seq<byte>, h: Header, scale: Scales, ch: nat): (r: seq<seq<int>>)
    requires h.Valid() && ScalesFit(h, scale) && U.TotalBits(h) <= 8 * |data| && ch < h.Channels()
    ensures |r| == h.blocks
  {
    seq(h.blocks, blk requires 0 <= blk < h.blocks => Block(data, h, scale, ch, blk))
  }

  /** The two bytes of a sample. */
  function SampleBytes(s: int, big: bool): (r: seq<byte>)
    ensures |r| == 2
  {
    if big then [Pcm.HighByte(s), Pcm.LowByte(s)] else [Pcm.LowByte(s), Pcm.HighByte(s)]
  }

  /** Sample i of the first n channels. */
  function Slot(pcm: seq<seq<int>>, i: nat, n: nat, big: bool): (r: seq<byte>)
    requires n <= |pcm| && forall ch :: 0 <= ch < n ==> i < |pcm[ch]|
    ensures |r| == 2 * n
  {
    if n == 0 then [] else Slot(pcm, i, n - 1, big) + SampleBytes(pcm[n - 1][i], big)
  }

  /** The first n samples of all channels, interleaved. */
  function Interleaved(pcm: seq<seq<int>>, n: nat, big: bool): (r: seq<byte>)
    requires forall ch :: 0 <= ch < |pcm| ==> n <= |pcm[ch]|
    ensures |r| == 2 * |pcm| * n
  {
    if n == 0 then []
    else
      assert 2 * |pcm| * n == 2 * |pcm| * (n - 1) + 2 * |pcm|;
      Interleaved(pcm, n - 1, big) + Slot(pcm, n - 1, |pcm|, big)
  }

  /** How many samples a channel the output has room for. */
  function Room(outputLen: nat, samples: nat, channels: nat): (r: nat)
    requires channels > 0
    ensures r <= samples && (outputLen >= 2 * channels * samples ==> r == samples)
    ensures 2 * channels * r <= outputLen
    ensures r < samples ==> 2 * channels * (r + 1) > outputLen
  {
    if outputLen < 2 * channels * samples then
      RoomBound(outputLen, 2 * channels, samples);
      outputLen / (channels * 2)
    else samples
  }

  lemma RoomBound(len: nat, unit: nat, samples: nat)
    requires unit > 0 && len < unit * samples
    ensures len / unit <= samples && unit * (len / unit) <= len < unit * (len / unit + 1)
  {
    DivModIdentity(len, unit);
  }

  /** One channel of the output of a frame. */
  function Pcm16(f: Synthesis.Filter, reg: Synthesis.Register, data: seq<byte>, h: Header, scale: Scales, ch: nat): (r: seq<int>)
    requires h.Valid() && ScalesFit(h, scale) && U.TotalBits(h) <= 8 * |data| && ch < h.Channels()
    requires Synthesis.RegisterFits(reg, f.rows) && f.rows == 2 * h.subbands
    ensures |r| == h.blocks * h.subbands
  {
    Synthesis.DecodedLength(f, reg, Blocks(data, h, scale, ch));
    Synthesis.Decoded(f, reg, Blocks(data, h, scale, ch))
  }

  /** The PCM samples of a frame, channel by channel. */
  function Output(f: Synthesis.Filter, l: Synthesis.Register, r: Synthesis.Register, data: seq<byte>, h: Header, scale: Scales): (pcm: seq<seq<int>>)
    requires h.Valid() && ScalesFit(h, scale) && U.TotalBits(h) <= 8 * |data|
    requires Synthesis.RegisterFits(l, f.rows) && Synthesis.RegisterFits(r, f.rows) && f.rows == 2 * h.subbands
    ensures |pcm| == h.Channels() && forall ch :: 0 <= ch < |pcm| ==> |pcm[ch]| == h.blocks * h.subbands
  {
    [Pcm16(f, l, data, h, scale, 0)] + if h.Channels() == 2 then [Pcm16(f, r, data, h, scale, 1)] else []
  }

  /** The register of channel ch after a frame. */
  function After(f: Synthesis.Filter, reg: Synthesis.Register, data: seq<byte>, h: Header, scale: Scales, ch: nat): (r: Synthesis.Register)
    requires h.Valid() && ScalesFit(h, scale) && U.TotalBits(h) <= 8 * |data| && Synthesis.RegisterFits(reg, f.rows)
    ensures Synthesis.RegisterFits(r, f.rows)
  {
    if ch < h.Channels() then Synthesis.RegisterAfter(f, reg, Blocks(data, h, scale, ch)) else reg
  }

  /** What sbc_decode returns, the filter memory it leaves, and what it writes. */
  datatype Decoding = Decoding(framelen: int, left: Synthesis.Register, right: Synthesis.Register, out: seq<byte>)

  function DecodeFrame(f: Synthesis.Filter, l: Synthesis.Register, r: Synthesis.Register, data: seq<byte>, len: nat, outputLen: nat, big: bool): Decoding
    requires len < |data| && Synthesis.RegisterFits(l, f.rows) && Synthesis.RegisterFits(r, f.rows)
    requires U.Unpack(data, len).Unpacked? ==> f.rows == 2 * U.Unpack(data, len).header.subbands
  {
    match U.Unpack(data, len)
    case Failed(code) => Decoding(code, l, r, [])
    case Unpacked(length, h, scale) =>
      Decoding(length, After(f, l, data, h, scale, 0), After(f, r, data, h, scale, 1),
               Interleaved(Output(f, l, r, data, h, scale), Room(outputLen, h.blocks * h.subbands, h.Channels()), big))
  }

  // ----- where the samples stand

  lemma {:induction false} SlotAt(pcm: seq<seq<int>>, i: nat, n: nat, big: bool, ch: nat)
    requires ch < n <= |pcm| && forall c :: 0 <= c < n ==> i < |pcm[c]|
    ensures Slot(pcm, i, n, big)[2 * ch..2 * ch + 2] == SampleBytes(pcm[ch][i], big)
  {
    hide SampleBytes;
    if ch < n - 1 {
      SlotAt(pcm, i, n - 1, big, ch);
      assert Slot(pcm, i, n, big)[2 * ch..2 * ch + 2] == Slot(pcm, i, n - 1, big)[2 * ch..2 * ch + 2];
    }
  }

  lemma PlaceOfSample(channels: nat, i: nat, ch: nat)
    ensures 2 * (channels * i + ch) == 2 * channels * i + 2 * ch
  {
  }

  lemma Distribute(unit: int, a: int, b: int)
    ensures unit * (a + b) == unit * a + unit * b
  {
  }

  lemma AtLeastOne(unit: nat, n: nat)
    requires n > 0
    ensures unit * n >= unit
  {
  }

  lemma Multiples(unit: nat, i: nat, n: nat)
    requires i < n
    ensures unit * i + unit <= unit * n && unit * (n - 1) + unit == unit * n
  {
    Distribute(unit, i, n - i);
    AtLeastOne(unit, n - i);
    Distribute(unit, n - 1, 1);
  }

  lemma {:induction false} InterleavedSlot(pcm: seq<seq<int>>, n: nat, big: bool, i: nat)
    requires i < n && (forall ch :: 0 <= ch < |pcm| ==> n <= |pcm[ch]|)
    ensures 2 * |pcm| * i + 2 * |pcm| <= 2 * |pcm| * n
    ensures Interleaved(pcm, n, big)[2 * |pcm| * i..2 * |pcm| * i + 2 * |pcm|] == Slot(pcm, i, |pcm|, big)
  {
    hide Slot;
    var channels := |pcm|;
    Multiples(2 * channels, i, n);
    if i < n - 1 {
      Multiples(2 * channels, i, n - 1);
      InterleavedSlot(pcm, n - 1, big, i);
    }
  }

  /** Sample i of channel ch stands at position channels * i + ch, its high byte first when the order is
      big-endian and last when it is not. */
  lemma InterleavedBytes(pcm: seq<seq<int>>, n: nat, big: bool, i: nat, ch: nat)
    requires i < n && ch < |pcm| && (forall c :: 0 <= c < |pcm| ==> n <= |pcm[c]|)
    ensures var (at, high, low) := (2 * (|pcm| * i + ch), pcm[ch][i] / 256 % 256, pcm[ch][i] % 256);
      && at + 2 <= |Interleaved(pcm, n, big)|
      && Interleaved(pcm, n, big)[at] == (if big then high else low)
      && Interleaved(pcm, n, big)[at + 1] == (if big then low else high)
  {
    hide Slot, Interleaved, SampleBytes;
    var base := 2 * |pcm| * i;
    var out := Interleaved(pcm, n, big);
    PlaceOfSample(|pcm|, i, ch);
    InterleavedSlot(pcm, n, big, i);
    SlotAt(pcm, i, |pcm|, big, ch);
    SbcStream.SliceOfSlice(out, base, base + 2 * |pcm|, 2 * ch, 2 * ch + 2);
    PairAt(out, base + 2 * ch, pcm[ch][i], big);
  }

  lemma PairAt(out: seq<byte>, at: nat, x: int, big: bool)
    requires at + 2 <= |out| && out[at..at + 2] == SampleBytes(x, big)
    ensures out[at] == (if big then x / 256 % 256 else x % 256) && out[at + 1] == (if big then x % 256 else x / 256 % 256)
  {
    assert out[at] == out[at..at + 2][0] && out[at + 1] == out[at..at + 2][1];
  }

  /** Read back as 16-bit samples, in either byte order, the output holds the samples of all channels,
      interleaved. */
  lemma SamplesComeBack(pcm: seq<seq<int>>, n: nat, i: nat, ch: nat)
    requires i < n && ch < |pcm| && (forall c :: 0 <= c < |pcm| ==> n <= |pcm[c]|)
    requires -0x8000 <= pcm[ch][i] < 0x8000
    ensures var at := |pcm| * i + ch;
      && |Interleaved(pcm, n, true)| % 2 == 0
      && at < |Pcm.Shorts(Pcm.Swapped(Interleaved(pcm, n, true)))| == |Pcm.Shorts(Interleaved(pcm, n, false))|
      && Pcm.Shorts(Pcm.Swapped(Interleaved(pcm, n, true)))[at] == pcm[ch][i]
      && Pcm.Shorts(Interleaved(pcm, n, false))[at] == pcm[ch][i]
  {
    hide Interleaved, Pcm.Swapped, Pcm.Shorts;
    var at := |pcm| * i + ch;
    InterleavedBytes(pcm, n, true, i, ch);
    InterleavedBytes(pcm, n, false, i, ch);
    Even(|pcm| * n);
    assert 2 * |pcm| * n == 2 * (|pcm| * n);
    var (big, little) := (Interleaved(pcm, n, true), Interleaved(pcm, n, false));
    Pcm.SwappedAt(big, at);
    Pcm.LittleEndian(Pcm.Swapped(big), at);
    Pcm.LittleEndian(little, at);
    SignedBytes(pcm[ch][i]);
  }

  lemma Even(x: nat)
    ensures 2 * x % 2 == 0 && 2 * x / 2 == x
  {
  }

  lemma SignedBytes(x: int)
    requires -0x8000 <= x < 0x8000
    ensures var (high, low) := (x / 256 % 256, x % 256);
      low + 256 * high - (if high < 128 then 0 else 0x1_0000) == x
  {
    assert x == x / 256 * 256 + x % 256;
    assert -128 <= x / 256 < 128;
  }

  /** The filter's outputs are 16-bit samples. */
  lemma {:induction false} DecodedIsShort(f: Synthesis.Filter, reg: Synthesis.Register, blocks: seq<seq<int>>)
    requires Synthesis.RegisterFits(reg, f.rows)
    ensures forall k :: 0 <= k < |Synthesis.Decoded(f, reg, blocks)| ==> -0x8000 <= Synthesis.Decoded(f, reg, blocks)[k] < 0x8000
  {
    hide Synthesis.Outputs, Synthesis.RegisterAfter;
    if blocks != [] {
      DecodedIsShort(f, reg, blocks[..|blocks| - 1]);
      OutputsAreShort(f, Synthesis.RegisterAfter(f, reg, blocks));
    }
  }

  lemma OutputsAreShort(f: Synthesis.Filter, reg: Synthesis.Register)
    requires Synthesis.RegisterFits(reg, f.rows)
    ensures forall k :: 0 <= k < |Synthesis.Outputs(f, reg)| ==> -0x8000 <= Synthesis.Outputs(f, reg)[k] < 0x8000
  {
    forall k | 0 <= k < |Synthesis.Outputs(f, reg)| ensures -0x8000 <= Synthesis.Outputs(f, reg)[k] < 0x8000 {
      assert Synthesis.Outputs(f, reg)[k] == Synthesis.Clip16(f.window(Synthesis.Taps(reg, f.rows, k), k));
    }
  }

  class SbcDecoder {
    const filter: Synthesis.Filter
    const left: Synthesis.Channel
    const right: Synthesis.Channel

    ghost predicate Valid()
      reads this, left, left.v, left.offset, right, right.v, right.offset
    {
      && left.Valid() && right.Valid() && left.filter == right.filter == filter
      && left != right && {left.v, left.offset} !! {right.v, right.offset}
    }

    /** sbc_decoder_init */
    constructor (filter: Synthesis.Filter)
      requires Synthesis.FilterValid(filter)
      ensures Valid() && this.filter == filter && left.reg == right.reg == Synthesis.Zero(filter.rows)
      ensures fresh({left, left.v, left.offset, right, right.v, right.offset})
    {
      this.filter := filter;
      left := new Synthesis.Channel(filter);
      right := new Synthesis.Channel(filter);
    }

    /** sbc_synthesize_audio on the unpacked samples. */
    method SynthesizeAudio(samples: array3<int>, h: Header, ghost data: seq<byte>, ghost scale: Scales)
      returns (pcm: seq<seq<int>>)
      requires Valid() && filter.rows == 2 * h.subbands
      requires h.Valid() && ScalesFit(h, scale) && U.TotalBits(h) <= 8 * |data|
      requires samples.Length0 == 16 && samples.Length1 == 2 && samples.Length2 == 8 && U.FrameRead(samples, data, h, scale)
      modifies left`phase, left`reg, left.v, left.offset, right`phase, right`reg, right.v, right.offset
      ensures Valid() && pcm == Output(filter, old(left.reg), old(right.reg), data, h, scale)
      ensures left.reg == After(filter, old(left.reg), data, h, scale, 0)
      ensures right.reg == After(filter, old(right.reg), data, h, scale, 1)
    {
      hide Synthesis.Decoded, Synthesis.RegisterAfter, Block, Blocks;
      var first := ReadBlocks(samples, h, 0, data, scale);
      var out := left.Synthesize(first);
      pcm := [out];
      if h.Channels() == 2 {
        var second := ReadBlocks(samples, h, 1, data, scale);
        var other := right.Synthesize(second);
        pcm := pcm + [other];
      }
    }

    /** sbc_decode, with an output buffer; `out` is what is written to it. */
    method Decode(data: seq<byte>, len: nat, outputLen: nat, big: bool) returns (framelen: int, out: seq<byte>)
      requires Valid() && len < |data|
      requires U.Unpack(data, len).Unpacked? ==> filter.rows == 2 * U.Unpack(data, len).header.subbands
      modifies left`phase, left`reg, left.v, left.offset, right`phase, right`reg, right.v, right.offset
      ensures Valid()
      ensures Decoding(framelen, left.reg, right.reg, out) ==
              DecodeFrame(filter, old(left.reg), old(right.reg), data, len, outputLen, big)
    {
      hide Output, After, U.Unpack, U.FrameRead, U.JointRead, Interleaved, Room, Synthesis.FilterValid;
      out := [];
      var samples := new int[16, 2, 8];
      var h, joint, scale;
      framelen, h, joint, scale := U.UnpackFrame(data, len, samples);
      if framelen <= 0 {
        UnpackedLength(data, len);
        return;
      }
      var pcm := SynthesizeAudio(samples, h, data, scale);
      out := Write(pcm, Room(outputLen, h.blocks * h.subbands, h.Channels()), big);
    }
  }

  lemma UnpackedLength(data: seq<byte>, len: nat)
    requires len < |data|
    ensures U.Unpack(data, len).Unpacked? ==> U.Unpack(data, len).length > 0
  {
    hide U.ScaleOf, U.CoveredRead, BytesBits, U.ParseHeader, Budget;
  }

  /** The subband samples that synthesis takes from the frame. */
  method ReadBlocks(samples: array3<int>, h: Header, ch: nat, ghost data: seq<byte>, ghost scale: Scales)
    returns (blocks: seq<seq<int>>)
    requires h.Valid() && ScalesFit(h, scale) && U.TotalBits(h) <= 8 * |data| && ch < h.Channels()
    requires samples.Length0 == 16 && samples.Length1 == 2 && samples.Length2 == 8 && U.FrameRead(samples, data, h, scale)
    ensures blocks == Blocks(data, h, scale, ch)
  {
    hide U.FinalSample;
    blocks := [];
    for blk: nat := 0 to h.blocks
      invariant blocks == Blocks(data, h, scale, ch)[..blk]
    {
      var block := seq(h.subbands, sb requires 0 <= sb < h.subbands reads samples => samples[blk, ch, sb]);
      assert block == Block(data, h, scale, ch, blk);
      blocks := blocks + [block];
    }
  }

  /** The output loops. */
  method Write(pcm: seq<seq<int>>, n: nat, big: bool) returns (out: seq<byte>)
    requires forall ch :: 0 <= ch < |pcm| ==> n <= |pcm[ch]|
    ensures out == Interleaved(pcm, n, big)
  {
    out := [];
    for i := 0 to n
      invariant out == Interleaved(pcm, i, big)
    {
      ghost var before := out;
      assert before + Slot(pcm, i, 0, big) == before;
      for ch := 0 to |pcm|
        invariant out == before + Slot(pcm, i, ch, big)
      {
        var s := pcm[ch][i];
        if big {
          out := out + [Pcm.HighByte(s)] + [Pcm.LowByte(s)];
        } else {
          out := out + [Pcm.LowByte(s)] + [Pcm.HighByte(s)];
        }
        assert out == before + (Slot(pcm, i, ch, big) + SampleBytes(s, big));
      }
    }
  }
}
