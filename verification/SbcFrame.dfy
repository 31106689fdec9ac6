/** What an SBC frame consists of: header, scale factors, bit distribution and the layout of its
    bit stream (A2DP specification, Appendix B; mSBC after the Hands-Free Profile 1.6). */
module SbcFrame {
  import opened Bits
  import opened BitAllocation

  datatype Mode = Mono | DualChannel | Stereo | JointStereo
  datatype Method = Loudness | Snr

  datatype Header = Header(frequency: nat, blocks: nat, mode: Mode, allocation: Method, subbands: nat, bitpool: nat) {
    function Channels(): nat {
      if mode == Mono then 1 else 2
    }

    /** MONO and DUAL_CHANNEL spend the bitpool on each channel, the stereo modes on both together. */
    predicate Separate() {
      mode == Mono || mode == DualChannel
    }

    /** The bitpool guard of packer and unpacker. */
    predicate Guard() {
      bitpool <= if Separate() then 16 * subbands else 32 * subbands
    }

    predicate Shaped() {
      frequency < 4 && (subbands == 4 || subbands == 8) && bitpool < 256 && 0 < blocks <= 16
    }

    predicate Valid() {
      Shaped() && Guard()
    }
  }

  const SBC_SYNCWORD: byte := 0x9C

  /** The fixed parameters of an mSBC frame. */
  const MSBC := Header(0, 15, Mono, Loudness, 8, 26)

  type Scales = seq<seq<nat>>

  predicate ScalesFit(h: Header, scale: Scales) {
    && |scale| == h.Channels()
    && forall ch :: 0 <= ch < |scale| ==>
         |scale[ch]| == h.subbands && forall sb :: 0 <= sb < h.subbands ==> scale[ch][sb] < 16
  }

  // ----- bit need and bit distribution

  const OFFSET_4: seq<seq<int>> := [[-1, 0, 0, 0], [-2, 0, 0, 1], [-2, 0, 0, 1], [-2, 0, 0, 1]]
  const OFFSET_8: seq<seq<int>> := [
    [-2, 0, 0, 0, 0, 0, 0, 1], [-3, 0, 0, 0, 0, 0, 1, 2], [-4, 0, 0, 0, 0, 0, 1, 2], [-4, 0, 0, 0, 0, 0, 1, 2]]

  /** bitneed of one subband. */
  function BitNeed(h: Header, factor: nat, sb: nat): int
    requires h.Shaped() && sb < h.subbands
  {
    if h.allocation == Snr then factor
    else if factor == 0 then -5
    else
      var loudness := factor - if h.subbands == 4 then OFFSET_4[h.frequency][sb] else OFFSET_8[h.frequency][sb];
      if loudness > 0 then loudness / 2 else loudness
  }

  /** A larger scale factor never needs fewer bits; all needs lie between -5 and 15, and with LOUDNESS
      allocation -5 is the need of silence alone. */
  lemma BitNeedMonotone(h: Header, a: nat, b: nat, sb: nat)
    requires h.Shaped() && sb < h.subbands && a <= b < 16
    ensures -5 <= BitNeed(h, a, sb) <= BitNeed(h, b, sb) <= 15
    ensures h.allocation == Loudness ==> (BitNeed(h, a, sb) == -5 <==> a == 0)
  {
    OffsetRange(h, sb);
  }

  /** The offset of a subband: the lowest subband is favoured, more so at higher sampling frequencies,
      and the highest ones give way. */
  function LoudnessOffset(frequency: nat, subbands: nat, sb: nat): int {
    var f := if frequency < 2 then frequency else 2;
    if sb == 0 then -(if subbands == 4 then (if f == 0 then 1 else 2) else f + 2)
    else if sb == subbands - 1 then (if subbands == 4 then (if f == 0 then 0 else 1) else (if f == 0 then 1 else 2))
    else if subbands == 8 && sb == 6 && f > 0 then 1
    else 0
  }

  /** For LOUDNESS a need is the loudness, which is the scale factor less the offset, as long as that
      is not positive, and then half of it, rounded down. */
  lemma NeedHalvesLoudness(h: Header, factor: nat, sb: nat)
    requires h.Shaped() && sb < h.subbands && h.allocation == Loudness && factor > 0
    ensures var (need, loudness) := (BitNeed(h, factor, sb), factor - LoudnessOffset(h.frequency, h.subbands, sb));
      if loudness > 0 then loudness - 1 <= 2 * need <= loudness else need == loudness
  {
    TableOffsets(h, sb);
  }

  /** The needs of an mSBC frame: its lowest subband counts two more than its scale factor, its highest one
      less. */
  lemma MsbcNeeds(factor: nat, sb: nat)
    requires 0 < factor < 16 && sb < 8
    ensures MSBC.Shaped() && BitNeed(MSBC, 0, sb) == -5
    ensures var loudness := if sb == 0 then factor + 2 else if sb == 7 then factor - 1 else factor;
      loudness - 1 <= 2 * BitNeed(MSBC, factor, sb) <= loudness
  {
    NeedHalvesLoudness(MSBC, factor, sb);
  }

  lemma TableOffsets(h: Header, sb: nat)
    requires h.Shaped() && sb < h.subbands
    ensures (if h.subbands == 4 then OFFSET_4[h.frequency][sb] else OFFSET_8[h.frequency][sb])
         == LoudnessOffset(h.frequency, h.subbands, sb)
  {
    var row := if h.subbands == 4 then OFFSET_4[h.frequency] else OFFSET_8[h.frequency];
    assert h.subbands == 4 || sb < 4 || sb == 4 || sb == 5 || sb == 6 || sb == 7;
  }

  lemma OffsetRange(h: Header, sb: nat)
    requires h.Shaped() && sb < h.subbands
    ensures -4 <= (if h.subbands == 4 then OFFSET_4[h.frequency][sb] else OFFSET_8[h.frequency][sb]) <= 2
  {
  }

  /** The scale factors in the order in which the distribution passes visit the lanes: one channel,
      or both channels subband by subband. */
  function LaneScales(h: Header, scale: Scales, ch: nat): (r: seq<nat>)
    requires ScalesFit(h, scale) && ch < h.Channels()
    ensures |r| == if h.Separate() then h.subbands else 2 * h.subbands
  {
    if h.Separate() then scale[ch]
    else seq(2 * h.subbands, k requires 0 <= k < 2 * h.subbands => scale[k % 2][k / 2])
  }

  function LaneSubband(h: Header, k: nat): nat {
    if h.Separate() then k else k / 2
  }

  function Needs(h: Header, lanes: seq<nat>): (r: seq<int>)
    requires h.Shaped() && |lanes| == if h.Separate() then h.subbands else 2 * h.subbands
    ensures |r| == |lanes|
  {
    seq(|lanes|, k requires 0 <= k < |lanes| => BitNeed(h, lanes[k], LaneSubband(h, k)))
  }

  function LaneBits(h: Header, scale: Scales, ch: nat): (r: seq<int>)
    requires h.Valid() && ScalesFit(h, scale) && ch < h.Channels()
    ensures |r| == if h.Separate() then h.subbands else 2 * h.subbands
    ensures forall k :: 0 <= k < |r| ==> 0 <= r[k] <= MAX_BITS
  {
    var needs := Needs(h, LaneScales(h, scale, ch));
    AllocationRange(needs, h.bitpool);
    Allocation(needs, h.bitpool)
  }

  lemma AllocationRange(needs: seq<int>, pool: nat)
    requires pool <= MAX_BITS * |needs|
    ensures forall k :: 0 <= k < |needs| ==> 0 <= Allocation(needs, pool)[k] <= MAX_BITS
  {
    Conservation(needs, pool);
  }

  /** The place of subband sb of channel ch among the lanes. */
  function LaneOf(h: Header, ch: nat, sb: nat): nat {
    if h.Separate() then sb else 2 * sb + ch
  }

  /** The lanes of channel ch. */
  function Column(h: Header, lanes: seq<nat>, ch: nat): (r: seq<nat>)
    requires ch < h.Channels() && |lanes| == (if h.Separate() then h.subbands else 2 * h.subbands)
    requires forall k :: 0 <= k < |lanes| ==> lanes[k] <= MAX_BITS
    ensures |r| == h.subbands && forall sb :: 0 <= sb < |r| ==> r[sb] <= MAX_BITS
  {
    seq(h.subbands, sb requires 0 <= sb < h.subbands => lanes[LaneOf(h, ch, sb)])
  }

  /** bits[ch][0..subbands) */
  function ChannelBits(h: Header, scale: Scales, ch: nat): (r: seq<nat>)
    requires h.Valid() && ScalesFit(h, scale) && ch < h.Channels()
    ensures |r| == h.subbands && forall sb :: 0 <= sb < |r| ==> r[sb] <= MAX_BITS
  {
    hide Allocation, Needs, LaneScales, Column;
    Column(h, LaneBits(h, scale, ch), ch)
  }

  type Distribution = seq<seq<nat>>

  function FrameBits(h: Header, scale: Scales): (r: Distribution)
    requires h.Valid() && ScalesFit(h, scale)
    ensures |r| == h.Channels()
    ensures forall ch :: 0 <= ch < |r| ==> |r[ch]| == h.subbands && forall sb :: 0 <= sb < h.subbands ==> r[ch][sb] <= MAX_BITS
  {
    seq(h.Channels(), ch requires 0 <= ch < h.Channels() => ChannelBits(h, scale, ch))
  }

  /** The bits one block takes: the sum over channels and subbands. */
  function BlockSize(bits: Distribution, channels: nat): nat
    requires channels <= |bits|
  {
    if channels == 0 then 0 else BlockSize(bits, channels - 1) + RowSize(bits[channels - 1], |bits[channels - 1]|)
  }

  function RowSize(row: seq<nat>, n: nat): nat
    requires n <= |row|
  {
    if n == 0 then 0 else RowSize(row, n - 1) + row[n - 1]
  }

  /** What the bitpool buys per block. */
  function Budget(h: Header): nat {
    if h.mode == DualChannel then 2 * h.bitpool else h.bitpool
  }

  lemma {:induction false} RowSizeIsTotal(row: seq<nat>, lanes: seq<int>, n: nat)
    requires n <= |row| && n <= |lanes| && forall k :: 0 <= k < n ==> row[k] == lanes[k]
    ensures RowSize(row, n) == Total(lanes[..n])
  {
    if n > 0 {
      RowSizeIsTotal(row, lanes, n - 1);
      assert lanes[..n][..n - 1] == lanes[..n - 1];
    }
  }

  lemma {:induction false} InterleavedTotal(left: seq<nat>, right: seq<nat>, lanes: seq<int>, n: nat)
    requires n <= |left| && n <= |right| && 2 * n <= |lanes|
    requires forall k :: 0 <= k < n ==> left[k] == lanes[2 * k] && right[k] == lanes[2 * k + 1]
    ensures RowSize(left, n) + RowSize(right, n) == Total(lanes[..2 * n])
  {
    if n > 0 {
      InterleavedTotal(left, right, lanes, n - 1);
      assert lanes[..2 * n][..2 * n - 1] == lanes[..2 * n - 1];
      assert lanes[..2 * n - 1][..2 * n - 2] == lanes[..2 * (n - 1)];
    }
  }

  /** Whatever the scale factors, a block takes exactly the bits the bitpool buys. */
  lemma BlockSizeIsBudget(h: Header, scale: Scales)
    requires h.Valid() && ScalesFit(h, scale)
    ensures BlockSize(FrameBits(h, scale), h.Channels()) == Budget(h)
  {
    hide Allocation, Needs, BitNeed, LaneScales, Total;
    var bits, n := FrameBits(h, scale), h.subbands;
    assert BlockSize(bits, 1) == BlockSize(bits, 0) + RowSize(bits[0], n);
    assert h.mode != Mono ==> BlockSize(bits, 2) == BlockSize(bits, 1) + RowSize(bits[1], n);
    if h.Separate() {
      forall ch | 0 <= ch < h.Channels() ensures RowSize(bits[ch], n) == h.bitpool {
        ChannelTotal(h, scale, ch);
      }
    } else {
      var lanes := LaneBits(h, scale, 0);
      assert LaneScales(h, scale, 0) == LaneScales(h, scale, 1) by { SameLanes(h, scale); }
      InterleavedTotal(bits[0], bits[1], lanes, n);
      assert lanes[..2 * n] == lanes;
      LaneTotal(h, scale, 0);
    }
  }

  lemma SameLanes(h: Header, scale: Scales)
    requires ScalesFit(h, scale) && !h.Separate()
    ensures LaneScales(h, scale, 0) == LaneScales(h, scale, 1)
  {
  }

  lemma LaneTotal(h: Header, scale: Scales, ch: nat)
    requires h.Valid() && ScalesFit(h, scale) && ch < h.Channels()
    ensures Total(LaneBits(h, scale, ch)) == h.bitpool
  {
    Conservation(Needs(h, LaneScales(h, scale, ch)), h.bitpool);
  }

  lemma ChannelTotal(h: Header, scale: Scales, ch: nat)
    requires h.Valid() && ScalesFit(h, scale) && ch < h.Channels() && h.Separate()
    ensures RowSize(ChannelBits(h, scale, ch), h.subbands) == h.bitpool
  {
    var lanes := LaneBits(h, scale, ch);
    RowSizeIsTotal(ChannelBits(h, scale, ch), lanes, h.subbands);
    assert lanes[..h.subbands] == lanes;
    LaneTotal(h, scale, ch);
  }

  // ----- the loops of sbc_calculate_bits

  /** The bit needs in visiting order, and their maximum (at least 0). */
  method BitNeeds(h: Header, lanes: seq<nat>) returns (needs: seq<int>, maxBitneed: int)
    requires h.Shaped() && |lanes| == if h.Separate() then h.subbands else 2 * h.subbands
    ensures needs == Needs(h, lanes) && maxBitneed == MaxNeed(needs)
  {
    hide BitNeed, MaxNeed;
    needs, maxBitneed := [], 0;
    assert Needs(h, lanes)[..0] == [];
    MaxNeedEmpty();
    for k := 0 to |lanes|
      invariant needs == Needs(h, lanes)[..k] && maxBitneed == MaxNeed(needs)
    {
      var need := BitNeed(h, lanes[k], LaneSubband(h, k));
      MaxNeedSnoc(needs, need);
      assert Needs(h, lanes)[..k + 1] == Needs(h, lanes)[..k] + [need];
      needs := needs + [need];
      if need > maxBitneed {
        maxBitneed := need;
      }
    }
    assert Needs(h, lanes)[..|lanes|] == Needs(h, lanes);
  }

  lemma MaxNeedEmpty()
    ensures MaxNeed([]) == 0
  {
  }

  lemma MaxNeedSnoc(needs: seq<int>, need: int)
    ensures MaxNeed(needs + [need]) == if need > MaxNeed(needs) then need else MaxNeed(needs)
  {
    assert (needs + [need])[..|needs|] == needs;
  }

  /** sbc_calculate_bits: one allocation per channel, or one for both. */
  method CalculateBits(h: Header, scale: Scales) returns (bits: array2<nat>)
    requires h.Valid() && ScalesFit(h, scale)
    ensures fresh(bits) && bits.Length0 == 2 && bits.Length1 == 8
    ensures forall ch, sb :: 0 <= ch < h.Channels() && 0 <= sb < h.subbands ==> bits[ch, sb] == FrameBits(h, scale)[ch][sb]
  {
    hide Allocation, Needs, BitNeed, MaxNeed;
    bits := new nat[2, 8];
    if h.Separate() {
      var ch := 0;
      while ch < h.Channels()
        invariant ch <= h.Channels()
        invariant forall c, sb :: 0 <= c < ch && 0 <= sb < h.subbands ==> bits[c, sb] == ChannelBits(h, scale, c)[sb]
      {
        var needs, maxBitneed := BitNeeds(h, LaneScales(h, scale, ch));
        var rowArray := AllocateLanes(needs, maxBitneed, h.bitpool);
        var lanes := rowArray[..];
        assert lanes == LaneBits(h, scale, ch);
        for sb := 0 to h.subbands
          invariant forall c, s :: 0 <= c < ch && 0 <= s < h.subbands ==> bits[c, s] == ChannelBits(h, scale, c)[s]
          invariant forall s :: 0 <= s < sb ==> bits[ch, s] == ChannelBits(h, scale, ch)[s]
        {
          bits[ch, sb] := lanes[sb];
        }
        ch := ch + 1;
      }
    } else {
      SameLanes(h, scale);
      var needs, maxBitneed := BitNeeds(h, LaneScales(h, scale, 0));
      var rowArray := AllocateLanes(needs, maxBitneed, h.bitpool);
      var lanes := rowArray[..];
      assert lanes == LaneBits(h, scale, 0) == LaneBits(h, scale, 1);
      for sb := 0 to h.subbands
        invariant forall c, s :: 0 <= c < 2 && 0 <= s < sb ==> bits[c, s] == ChannelBits(h, scale, c)[s]
      {
        bits[0, sb] := lanes[2 * sb];
        bits[1, sb] := lanes[2 * sb + 1];
      }
    }
  }

  /** The filled part of the bits array, channel by channel. */
  method DistributeBits(h: Header, scale: Scales) returns (bits: Distribution)
    requires h.Valid() && ScalesFit(h, scale)
    ensures bits == FrameBits(h, scale)
  {
    hide ChannelBits;
    var table := CalculateBits(h, scale);
    bits := [];
    var ch := 0;
    while ch < h.Channels()
      invariant ch <= h.Channels() && bits == FrameBits(h, scale)[..ch]
      invariant forall c, sb :: 0 <= c < h.Channels() && 0 <= sb < h.subbands ==> table[c, sb] == FrameBits(h, scale)[c][sb]
    {
      var row := seq(h.subbands, sb requires 0 <= sb < h.subbands reads table => table[ch, sb]);
      assert row == FrameBits(h, scale)[ch];
      bits := bits + [row];
      ch := ch + 1;
    }
  }
}
