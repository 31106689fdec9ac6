/** The bit stream of an SBC frame: which bits stand where. */
module SbcStream {
  import opened Bits
  import opened SbcFrame

  /** codes[blk][ch][sb] */
  type Codes = seq<seq<seq<nat>>>

  function JointBits(h: Header, joint: nat): seq<bool> {
    if h.mode == JointStereo then Expand(joint, h.subbands) else []
  }

  function FactorBits(row: seq<nat>, n: nat): (r: seq<bool>)
    requires n <= |row|
    ensures |r| == 4 * n
  {
    if n == 0 then [] else FactorBits(row, n - 1) + Expand(row[n - 1], 4)
  }

  function ScaleBits(scale: Scales, channels: nat): seq<bool>
    requires channels <= |scale|
  {
    if channels == 0 then [] else ScaleBits(scale, channels - 1) + FactorBits(scale[channels - 1], |scale[channels - 1]|)
  }

  function RowBits(codes: seq<nat>, widths: seq<nat>, n: nat): (r: seq<bool>)
    requires n <= |codes| && n <= |widths|
    ensures |r| == RowSize(widths, n)
  {
    if n == 0 then [] else RowBits(codes, widths, n - 1) + Expand(codes[n - 1], widths[n - 1])
  }

  predicate BlockFits(codes: seq<seq<nat>>, bits: Distribution) {
    |codes| == |bits| && forall ch :: 0 <= ch < |bits| ==> |codes[ch]| == |bits[ch]|
  }

  function BlockBits(codes: seq<seq<nat>>, bits: Distribution, channels: nat): (r: seq<bool>)
    requires BlockFits(codes, bits) && channels <= |bits|
    ensures |r| == BlockSize(bits, channels)
  {
    if channels == 0 then []
    else BlockBits(codes, bits, channels - 1) + RowBits(codes[channels - 1], bits[channels - 1], |bits[channels - 1]|)
  }

  predicate CodesFit(codes: Codes, bits: Distribution) {
    forall blk :: 0 <= blk < |codes| ==> BlockFits(codes[blk], bits)
  }

  function CodeBits(codes: Codes, bits: Distribution, blocks: nat): seq<bool>
    requires CodesFit(codes, bits) && blocks <= |codes|
  {
    if blocks == 0 then [] else CodeBits(codes, bits, blocks - 1) + BlockBits(codes[blocks - 1], bits, |bits|)
  }

  // ----- sizes

  lemma {:induction false} ScaleBitsLength(scale: Scales, channels: nat, subbands: nat)
    requires channels <= |scale| && forall ch :: 0 <= ch < |scale| ==> |scale[ch]| == subbands
    ensures |ScaleBits(scale, channels)| == 4 * subbands * channels
  {
    if channels > 0 {
      ScaleBitsLength(scale, channels - 1, subbands);
      assert 4 * subbands * (channels - 1) + 4 * subbands == 4 * subbands * channels;
    }
  }

  lemma {:induction false} CodeBitsLength(codes: Codes, bits: Distribution, blocks: nat)
    requires CodesFit(codes, bits) && blocks <= |codes|
    ensures |CodeBits(codes, bits, blocks)| == blocks * BlockSize(bits, |bits|)
  {
    if blocks > 0 {
      CodeBitsLength(codes, bits, blocks - 1);
      assert (blocks - 1) * BlockSize(bits, |bits|) + BlockSize(bits, |bits|) == blocks * BlockSize(bits, |bits|);
    }
  }

  // ----- positions

  /** Where the code of (blk, ch, sb) starts, counted from the first code. */
  function CodeOffset(bits: Distribution, blk: nat, ch: nat, sb: nat): nat
    requires ch < |bits| && sb <= |bits[ch]|
  {
    blk * BlockSize(bits, |bits|) + BlockSize(bits, ch) + RowSize(bits[ch], sb)
  }

  lemma {:induction false} RowAt(codes: seq<nat>, widths: seq<nat>, n: nat, k: nat)
    requires k < n <= |codes| && n <= |widths|
    ensures RowSize(widths, k) + widths[k] <= RowSize(widths, n)
    ensures RowBits(codes, widths, n)[RowSize(widths, k)..RowSize(widths, k) + widths[k]] == Expand(codes[k], widths[k])
  {
    hide Expand;
    var before, last := RowBits(codes, widths, n - 1), Expand(codes[n - 1], widths[n - 1]);
    if k < n - 1 {
      RowAt(codes, widths, n - 1, k);
      SliceOfAppend(before, last, RowSize(widths, k), RowSize(widths, k) + widths[k]);
    } else {
      SliceOfLast(before, last);
    }
  }

  lemma {:induction false} BlockAt(codes: seq<seq<nat>>, bits: Distribution, n: nat, ch: nat)
    requires BlockFits(codes, bits) && ch < n <= |bits|
    ensures BlockSize(bits, ch) + RowSize(bits[ch], |bits[ch]|) <= BlockSize(bits, n)
    ensures BlockBits(codes, bits, n)[BlockSize(bits, ch)..BlockSize(bits, ch) + RowSize(bits[ch], |bits[ch]|)]
         == RowBits(codes[ch], bits[ch], |bits[ch]|)
  {
    hide RowBits, RowSize;
    var before, last := BlockBits(codes, bits, n - 1), RowBits(codes[n - 1], bits[n - 1], |bits[n - 1]|);
    if ch < n - 1 {
      BlockAt(codes, bits, n - 1, ch);
      SliceOfAppend(before, last, BlockSize(bits, ch), BlockSize(bits, ch) + RowSize(bits[ch], |bits[ch]|));
    } else {
      SliceOfLast(before, last);
    }
  }

  lemma {:induction false} CodesAt(codes: Codes, bits: Distribution, n: nat, blk: nat)
    requires CodesFit(codes, bits) && blk < n <= |codes|
    ensures var w := BlockSize(bits, |bits|);
      0 <= blk * w && blk * w + w <= |CodeBits(codes, bits, n)|
      && CodeBits(codes, bits, n)[blk * w..blk * w + w] == BlockBits(codes[blk], bits, |bits|)
  {
    hide BlockBits, BlockSize, CodeBits;
    var w := BlockSize(bits, |bits|);
    CodeBitsLength(codes, bits, n - 1);
    CodeBitsLast(codes, bits, n);
    var before, last := CodeBits(codes, bits, n - 1), BlockBits(codes[n - 1], bits, |bits|);
    if blk < n - 1 {
      CodesAt(codes, bits, n - 1, blk);
      SliceOfAppend(before, last, blk * w, blk * w + w);
    } else {
      SliceOfLast(before, last);
    }
  }

  lemma CodeBitsLast(codes: Codes, bits: Distribution, n: nat)
    requires CodesFit(codes, bits) && 0 < n <= |codes|
    ensures CodeBits(codes, bits, n) == CodeBits(codes, bits, n - 1) + BlockBits(codes[n - 1], bits, |bits|)
  {
  }

  lemma SliceOfAppend<T>(s: seq<T>, t: seq<T>, a: nat, b: nat)
    requires a <= b <= |s|
    ensures (s + t)[a..b] == s[a..b]
  {
    assert (s + t)[a..b] == s[a..b];
  }

  lemma SliceOfLast<T>(s: seq<T>, t: seq<T>)
    ensures (s + t)[|s|..|s| + |t|] == t
  {
    assert (s + t)[|s|..|s| + |t|] == t;
  }

  /** Every code stands at its offset. */
  lemma CodeAt(codes: Codes, bits: Distribution, blk: nat, ch: nat, sb: nat)
    requires CodesFit(codes, bits) && blk < |codes| && ch < |bits| && sb < |bits[ch]|
    ensures var at := CodeOffset(bits, blk, ch, sb);
      at + bits[ch][sb] <= |CodeBits(codes, bits, |codes|)|
      && CodeBits(codes, bits, |codes|)[at..at + bits[ch][sb]] == Expand(codes[blk][ch][sb], bits[ch][sb])
  {
    hide CodeBits, BlockBits, RowBits, Expand;
    var all, w := CodeBits(codes, bits, |codes|), BlockSize(bits, |bits|);
    CodesAt(codes, bits, |codes|, blk);
    BlockAt(codes[blk], bits, |bits|, ch);
    RowAt(codes[blk][ch], bits[ch], |bits[ch]|, sb);
    SliceOfSlice(all, blk * w, blk * w + w, BlockSize(bits, ch), BlockSize(bits, ch) + RowSize(bits[ch], |bits[ch]|));
    SliceOfSlice(all, blk * w + BlockSize(bits, ch), blk * w + BlockSize(bits, ch) + RowSize(bits[ch], |bits[ch]|),
      RowSize(bits[ch], sb), RowSize(bits[ch], sb) + bits[ch][sb]);
  }

  lemma SliceOfSlice<T>(s: seq<T>, a: nat, b: nat, c: nat, d: nat)
    requires a <= b <= |s| && c <= d <= b - a
    ensures s[a..b][c..d] == s[a + c..a + d]
  {
    var l, r := s[a..b][c..d], s[a + c..a + d];
    assert |l| == |r|;
    forall k | 0 <= k < |l| ensures l[k] == r[k] {
      assert l[k] == s[a..b][c + k] == s[a + c + k];
    }
  }
}
