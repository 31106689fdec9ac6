/** What a subband of a frame gets: the bit allocation, stated channel by channel and subband by
    subband, whatever the order in which the lanes are kept. */
module SbcFairness {
  import opened Bits
  import opened BitAllocation
  import opened SbcFrame

  /** The channels whose subbands share one bitpool with those of channel ch. */
  predicate Shares(h: Header, ch: nat, c: nat) {
    c < h.Channels() && (h.Separate() ==> c == ch)
  }

  function NeedOf(h: Header, scale: Scales, ch: nat, sb: nat): int
    requires h.Shaped() && ScalesFit(h, scale) && ch < h.Channels() && sb < h.subbands
  {
    BitNeed(h, scale[ch][sb], sb)
  }

  /** The bits of a subband lie between its share at the slice and its share at the next; the subband
      `extra` may have one more. */
  ghost predicate WithinShares(h: Header, scale: Scales, slice: int, extra: (int, int), ch: nat, sb: nat)
    requires h.Valid() && ScalesFit(h, scale) && ch < h.Channels() && sb < h.subbands
  {
    var (need, bits) := (NeedOf(h, scale, ch, sb), FrameBits(h, scale)[ch][sb]);
    Share(need, slice) <= bits <= Share(need, slice - 1) + if extra == (ch, sb) then 1 else 0
  }

  /** Subband by subband, and the left channel before the right. */
  predicate Precedes(c: nat, sb: nat, c': nat, sb': nat) {
    sb < sb' || (sb == sb' && c < c')
  }

  ghost predicate ServedInOrder(h: Header, scale: Scales, slice: int, c: nat, sb: nat, c': nat, sb': nat)
    requires h.Valid() && ScalesFit(h, scale) && c < h.Channels() && sb < h.subbands && c' < h.Channels() && sb' < h.subbands
  {
    var (need, bits) := (NeedOf(h, scale, c, sb), FrameBits(h, scale)[c][sb]);
    var (need', bits') := (NeedOf(h, scale, c', sb'), FrameBits(h, scale)[c'][sb']);
    ServedBefore(need, bits, need', bits', slice)
  }

  /** The lane of a subband holds its need and its bits. */
  lemma LaneIsSubband(h: Header, scale: Scales, ch: nat, c: nat, sb: nat)
    requires h.Valid() && ScalesFit(h, scale) && ch < h.Channels() && Shares(h, ch, c) && sb < h.subbands
    ensures var k := LaneOf(h, c, sb);
      && k < |LaneScales(h, scale, ch)|
      && Needs(h, LaneScales(h, scale, ch))[k] == NeedOf(h, scale, c, sb)
      && LaneBits(h, scale, ch)[k] == FrameBits(h, scale)[c][sb]
  {
    hide Allocation, BitNeed;
    if !h.Separate() {
      SameLanes(h, scale);
      assert LaneScales(h, scale, ch) == LaneScales(h, scale, c);
    }
  }

  /** Within one bitpool every subband gets its share at one slice or at the next, but for at most one
      that gets a single bit more; and the subbands are served in order. */
  lemma BitsFollowNeeds(h: Header, scale: Scales, ch: nat) returns (slice: int, extra: (int, int))
    requires h.Valid() && ScalesFit(h, scale) && ch < h.Channels()
    ensures forall c: nat, sb: nat :: Shares(h, ch, c) && sb < h.subbands ==> WithinShares(h, scale, slice, extra, c, sb)
    ensures forall c: nat, sb: nat, c': nat, sb': nat ::
      Shares(h, ch, c) && Shares(h, ch, c') && sb < h.subbands && sb' < h.subbands && Precedes(c, sb, c', sb') ==>
      ServedInOrder(h, scale, slice, c, sb, c', sb')
  {
    hide Allocation, Needs, LaneScales, FrameBits, BitNeed, Share, ServedBefore, FirstServed;
    var needs := Needs(h, LaneScales(h, scale, ch));
    var k;
    slice, k := AllocationServes(needs, h.bitpool);
    extra := if h.Separate() then (ch, k) else (k % 2, k / 2);
    forall c: nat, sb: nat | Shares(h, ch, c) && sb < h.subbands ensures WithinShares(h, scale, slice, extra, c, sb) {
      LaneIsSubband(h, scale, ch, c, sb);
    }
    forall c: nat, sb: nat, c': nat, sb': nat | Shares(h, ch, c) && Shares(h, ch, c') && sb < h.subbands && sb' < h.subbands && Precedes(c, sb, c', sb')
      ensures ServedInOrder(h, scale, slice, c, sb, c', sb')
    {
      LaneIsSubband(h, scale, ch, c, sb);
      LaneIsSubband(h, scale, ch, c', sb');
      ServedPair(needs, Allocation(needs, h.bitpool), slice, LaneOf(h, c, sb), LaneOf(h, c', sb'));
    }
  }

  /** Two subbands that share a bitpool: the one with the larger need has at least as many bits as the
      other, but for the single bit left over. */
  lemma LargerNeedFirst(h: Header, scale: Scales, c: nat, sb: nat, c': nat, sb': nat)
    requires h.Valid() && ScalesFit(h, scale) && c < h.Channels() && Shares(h, c, c') && sb < h.subbands && sb' < h.subbands
    requires NeedOf(h, scale, c, sb) > NeedOf(h, scale, c', sb')
    ensures FrameBits(h, scale)[c][sb] + 1 >= FrameBits(h, scale)[c'][sb']
  {
    hide FrameBits, BitNeed;
    var slice, extra := BitsFollowNeeds(h, scale, c);
    assert Shares(h, c, c);
    assert WithinShares(h, scale, slice, extra, c, sb) && WithinShares(h, scale, slice, extra, c', sb');
  }
}
