/** Unpacking an SBC or mSBC frame from the start of a byte string. `len` is the number of bytes
    the caller vouches for; the array holds at least one more, because the bit reader looks one
    bit past `len` before it gives up, and the trailing peek may look at the byte after `len`. */
module SbcUnpack {
  import opened Bits
  import opened SbcFrame
  import opened SbcStream
  import Crc8
  import opened Quantizer

  const MSBC_SYNCWORD: byte := 0xAD

  const TOO_SHORT := -1
  const BAD_SYNC := -2
  const BAD_CRC := -3
  const BAD_BITPOOL := -4

  // ----- what is read

  function ModeOf(code: nat): Mode {
    if code == 0 then Mono else if code == 1 then DualChannel else if code == 2 then Stereo else JointStereo
  }

  /** The header that the second and third byte of an SBC frame describe. */
  function HeaderOf(b1: byte, b2: byte): (h: Header)
    ensures h.Shaped() && h.blocks % 4 == 0
  {
    Header(b1 / 64, 4 + 4 * (b1 / 16 % 4), ModeOf(b1 / 4 % 4), if b1 / 2 % 2 == 1 then Snr else Loudness,
           if b1 % 2 == 1 then 8 else 4, b2)
  }

  datatype Parsed = Found(h: Header) | NoHeader(code: int)

  function ParseHeader(data: seq<byte>): (p: Parsed)
    requires |data| >= 4
    ensures p.Found? ==> p.h.Valid() && (p.h.blocks % 4 == 0 || p.h == MSBC)
  {
    if data[0] == SBC_SYNCWORD then
      var h := HeaderOf(data[1], data[2]);
      if h.Guard() then Found(h) else NoHeader(BAD_BITPOOL)
    else if data[0] == MSBC_SYNCWORD then Found(MSBC)
    else NoHeader(BAD_SYNC)
  }

  /** Where the scale factors start. */
  function FactorStart(h: Header): nat {
    32 + if h.mode == JointStereo then h.subbands else 0
  }

  /** Where the codes start. */
  function CodeStart(h: Header): nat {
    FactorStart(h) + 4 * h.subbands * h.Channels()
  }

  /** The bits of a whole frame, before it is completed to a byte. */
  function TotalBits(h: Header): nat {
    CodeStart(h) + h.blocks * Budget(h)
  }

  /** Frames have an even number of bits, so the reader's test, which is off by one bit, is exact. */
  lemma TotalBitsEven(h: Header)
    requires h.Valid() && (h.blocks % 4 == 0 || h == MSBC)
    ensures TotalBits(h) % 2 == 0
  {
    if h != MSBC {
      var q := h.blocks / 4;
      assert h.blocks * Budget(h) == 4 * (q * Budget(h));
    }
    assert 4 * h.subbands * h.Channels() % 2 == 0;
  }

  function ReadFactors(stream: seq<bool>, at: nat, n: nat): (r: seq<nat>)
    requires at + 4 * n <= |stream|
    ensures |r| == n && forall sb :: 0 <= sb < n ==> r[sb] < 16
  {
    if n == 0 then []
    else
      var last := Value(stream[at + 4 * (n - 1)..at + 4 * n]);
      ExpandOfValue(stream[at + 4 * (n - 1)..at + 4 * n]);
      assert Pow2(4) == 16;
      ReadFactors(stream, at, n - 1) + [last]
  }

  function ReadScale(stream: seq<bool>, at: nat, subbands: nat, channels: nat): (r: Scales)
    requires at + 4 * subbands * channels <= |stream|
    ensures |r| == channels
    ensures forall ch :: 0 <= ch < channels ==> |r[ch]| == subbands && forall sb :: 0 <= sb < subbands ==> r[ch][sb] < 16
    decreases channels
  {
    if channels == 0 then []
    else
      assert 4 * subbands * channels == 4 * subbands * (channels - 1) + 4 * subbands;
      ReadScale(stream, at, subbands, channels - 1) + [ReadFactors(stream, at + 4 * subbands * (channels - 1), subbands)]
  }

  function ScaleOf(h: Header, stream: seq<bool>): (r: Scales)
    requires CodeStart(h) <= |stream|
    ensures ScalesFit(h, r)
  {
    ReadScale(stream, FactorStart(h), h.subbands, h.Channels())
  }

  /** The bits under the checksum: bytes 1 and 2, then the side information. */
  function CoveredRead(h: Header, stream: seq<bool>): seq<bool>
    requires CodeStart(h) <= |stream|
  {
    stream[8..24] + stream[32..CodeStart(h)]
  }

  /** Bit sb of the decoded joint mask: the last subband never has one. */
  function JointRead(h: Header, stream: seq<bool>, sb: nat): bool
    requires 32 + h.subbands <= |stream|
  {
    h.mode == JointStereo && sb + 1 < h.subbands && stream[32 + sb]
  }

  /** The reconstructed sample of (blk, ch, sb), before the channels are un-mixed. */
  function RawSample(stream: seq<bool>, base: nat, bits: Distribution, scale: Scales, blk: nat, ch: nat, sb: nat): int
    requires ch < |bits| == |scale| && sb < |bits[ch]| == |scale[ch]|
    requires base + CodeOffset(bits, blk, ch, sb) + bits[ch][sb] <= |stream|
  {
    var at := base + CodeOffset(bits, blk, ch, sb);
    if bits[ch][sb] == 0 then 0
    else Dequantise(bits[ch][sb], scale[ch][sb], Value(stream[at..at + bits[ch][sb]]))
  }

  datatype Outcome = Failed(code: int) | Unpacked(length: nat, header: Header, scale: Scales)

  /** The result of unpacking, its error conditions in the order in which they are met. */
  function Unpack(data: seq<byte>, len: nat): (r: Outcome)
    requires len < |data|
    ensures r.Unpacked? ==> r.header.Valid() && ScalesFit(r.header, r.scale) && TotalBits(r.header) <= 8 * len
  {
    if len < 4 then Failed(TOO_SHORT)
    else match ParseHeader(data)
      case NoHeader(code) => Failed(code)
      case Found(h) =>
        if 8 * len < CodeStart(h) then Failed(TOO_SHORT)
        else
          var stream := BytesBits(data);
          if data[3] != Crc8.Checksum(CoveredRead(h, stream)) then Failed(BAD_CRC)
          else if TotalBits(h) > 8 * len then Failed(TOO_SHORT)
          else
            var end := (TotalBits(h) + 7) / 8;
            Unpacked(if data[end] == 0 then end + 1 else end, h, ScaleOf(h, stream))
  }

  /** The error codes, from the bytes themselves: -1 for less than four bytes, -2 for a wrong sync byte, -4
      for a bitpool above 16 bits a subband, or 32 for the two stereo modes, which have the upper mode bit
      set, and -3 only for a checksum that differs. */
  lemma UnpackErrors(data: seq<byte>, len: nat)
    requires len < |data|
    ensures len < 4 ==> Unpack(data, len) == Failed(-1)
    ensures len >= 4 ==> (Unpack(data, len) == Failed(-2) <==> data[0] != 0x9C && data[0] != 0xAD)
    ensures len >= 4 ==> (Unpack(data, len) == Failed(-4) <==>
      data[0] == 0x9C && (data[2] as int) > (if data[1] / 8 % 2 == 1 then 32 else 16) * (if data[1] % 2 == 1 then 8 else 4))
    ensures Unpack(data, len) == Failed(-3) ==>
      len >= 4 && ParseHeader(data).Found? && data[3] != Crc8.Checksum(CoveredRead(ParseHeader(data).h, BytesBits(data)))
    ensures Unpack(data, len).Failed? ==> Unpack(data, len).code in {-1, -2, -3, -4}
  {
    hide BytesBits, Crc8.Checksum, CoveredRead, ScaleOf, TotalBits, CodeStart;
    if len >= 4 {
      StereoBit(data[1]);
    }
  }

  lemma StereoBit(b: byte)
    ensures b / 4 % 4 >= 2 <==> b / 8 % 2 == 1
  {
  }

  // ----- single bits and half bytes

  lemma BitAt(data: seq<byte>, c: nat)
    requires c < 8 * |data|
    ensures BytesBits(data)[c] == (Shr(data[c / 8], 7 - c % 8) % 2 == 1)
  {
    hide Expand, BytesBits, Shr;
    BytesBitsByte(data, c / 8);
    ExpandAt(data[c / 8], 8, c % 8);
    assert BytesBits(data)[8 * (c / 8)..8 * (c / 8) + 8][c % 8] == BytesBits(data)[c];
  }

  /** The source's (data[c >> 3] >> (4 - (c & 7))) & 0x0F. */
  function Nibble(data: seq<byte>, c: nat): (r: nat)
    requires c < 8 * |data|
    ensures r < 16
  {
    Shr(data[c / 8], if c % 8 <= 4 then 4 - c % 8 else 0) % 16
  }

  lemma NibbleAt(data: seq<byte>, c: nat)
    requires c % 4 == 0 && c + 4 <= 8 * |data|
    ensures Expand(Nibble(data, c), 4) == BytesBits(data)[c..c + 4]
    ensures Nibble(data, c) == Value(BytesBits(data)[c..c + 4])
  {
    hide Expand, BytesBits, Shr, Value, Nibble;
    var k, j := c / 8, c % 8;
    HalfByte(c);
    NibbleShift(data, k, j);
    NibbleIn(data, k, j);
    NibbleValue(Nibble(data, c));
  }

  lemma HalfByte(c: nat)
    requires c % 4 == 0
    ensures c == 8 * (c / 8) + c % 8 && (c % 8 == 0 || c % 8 == 4)
  {
  }

  lemma NibbleShift(data: seq<byte>, k: nat, j: nat)
    requires k < |data| && (j == 0 || j == 4)
    ensures Nibble(data, 8 * k + j) == Shr(data[k], 4 - j) % 16
  {
    hide Shr;
  }

  lemma NibbleValue(v: nat)
    requires v < 16
    ensures Value(Expand(v, 4)) == v
  {
    Pow2Of8();
    hide Value, Expand, Pow2;
    ValueOfExpand(v, 4);
  }

  lemma NibbleIn(data: seq<byte>, k: nat, j: nat)
    requires k < |data| && (j == 0 || j == 4)
    ensures Expand(Shr(data[k], 4 - j) % 16, 4) == BytesBits(data)[8 * k + j..8 * k + j + 4]
  {
    hide Expand, BytesBits, Shr, Value;
    NibbleOfByte(data[k], j);
    BytesBitsByte(data, k);
    SliceOfSlice(BytesBits(data), 8 * k, 8 * k + 8, j, j + 4);
  }

  lemma NibbleOfByte(b: byte, j: nat)
    requires j == 0 || j == 4
    ensures Expand(Shr(b, 4 - j) % 16, 4) == Expand(b, 8)[j..j + 4]
  {
    hide Expand, Shr;
    ExpandSplit(b, 4 + j, 4 - j);
    NibbleOf(Shr(b, 4 - j), j);
  }

  lemma NibbleOf(v: nat, n: nat)
    ensures Expand(v, n + 4)[n..] == Expand(v % 16, 4)
  {
    ExpandSplit(v, n, 4);
    Pow2Of8();
    ExpandLow(v, 4, 4);
  }

  // ----- the copy of the header the checksum is taken over

  /** crc_header while it is filled: the covered bits, then zeros. */
  ghost predicate CrcHolds(crc: seq<byte>, covered: seq<bool>) {
    |crc| == 11 && |covered| <= 88 && BytesBits(crc) == covered + Zeros(88 - |covered|)
  }

  lemma ByteUpdate(crc: seq<byte>, k: nat, x: byte)
    requires k < |crc|
    ensures BytesBits(crc[k := x]) == BytesBits(crc)[..8 * k] + Expand(x, 8) + BytesBits(crc)[8 * k + 8..]
  {
    hide Expand, BytesBits;
    var new_ := crc[k := x];
    BytesBitsPrefix(crc, k);
    BytesBitsPrefix(crc[k..], 1);
    BytesBitsPrefix(new_, k);
    BytesBitsPrefix(new_[k..], 1);
    assert new_[..k] == crc[..k] && new_[k..][..1] == [x] && new_[k..][1..] == crc[k..][1..];
    BytesBitsSingle(x);
    assert BytesBits(crc)[..8 * k] == BytesBits(crc[..k]);
    assert BytesBits(crc)[8 * k + 8..] == BytesBits(crc[k..][1..]);
  }

  /** A byte whose low half is zero is determined by its high half. */
  lemma HighHalf(b: byte, u: seq<bool>)
    requires |u| == 4 && Expand(b, 8) == u + Zeros(4)
    ensures b == Value(u) * 16 && Value(u) < 16 && Expand(Value(u), 4) == u
  {
    Pow2Of8();
    hide Expand, Value, Pow2;
    ExpandOfValue(u);
    ExpandShift(Value(u), 4, 0, 4);
    ExpandZero(4);
    ValueOfExpand(b, 8);
    ValueOfExpand(Value(u) * 16, 8);
  }

  /** The byte that receives a half byte: what it holds, and what it holds afterwards. */
  lemma StoredByte(crc: seq<byte>, covered: seq<bool>, v: nat)
    requires CrcHolds(crc, covered) && |covered| % 4 == 0 && |covered| <= 84 && v < 16
    ensures var (k, j) := (|covered| / 8, |covered| % 8);
      var x := crc[k] + v * if j == 0 then 16 else 1;
      x < 256 && Expand(x, 8) == covered[8 * k..] + Expand(v, 4) + Zeros(4 - j)
  {
    hide Expand, BytesBits, Value;
    var k, j := |covered| / 8, |covered| % 8;
    BytesBitsByte(crc, k);
    if j == 0 {
      assert BytesBits(crc)[8 * k..8 * k + 8] == Zeros(4) + Zeros(4);
      ExpandZero(4);
      HighHalf(crc[k], Zeros(4));
      ZeroValue();
      TwoNibbles(v, 0);
      assert covered[8 * k..] + Expand(v, 4) + Zeros(4) == Expand(v, 4) + Zeros(4);
    } else {
      var u := covered[8 * k..];
      HalfThenZeros(covered, k);
      HighHalf(crc[k], u);
      TwoNibbles(Value(u), v);
      assert u + Expand(v, 4) + Zeros(0) == u + Expand(v, 4);
    }
  }

  lemma HalfThenZeros(covered: seq<bool>, k: nat)
    requires |covered| == 8 * k + 4 <= 84
    ensures (covered + Zeros(88 - |covered|))[8 * k..8 * k + 8] == covered[8 * k..] + Zeros(4)
  {
    var l, r := (covered + Zeros(88 - |covered|))[8 * k..8 * k + 8], covered[8 * k..] + Zeros(4);
    forall j | 0 <= j < 8 ensures l[j] == r[j] {
    }
  }

  lemma ZeroValue()
    ensures Value(Zeros(4)) == 0
  {
    ExpandZero(4);
    Pow2Of8();
    hide Expand, Value;
    ValueOfExpand(0, 4);
  }

  /** The next half byte of the checksum copy goes into bits that are still zero. */
  method StoreNibble(crc: array<byte>, crcPos: nat, v: nat, ghost covered: seq<bool>)
    requires CrcHolds(crc[..], covered) && crcPos == |covered| <= 84 && crcPos % 4 == 0 && v < 16
    modifies crc
    ensures CrcHolds(crc[..], covered + Expand(v, 4))
  {
    hide Expand, BytesBits;
    var k, j := crcPos / 8, crcPos % 8;
    StoredByte(crc[..], covered, v);
    ghost var before := crc[..];
    ghost var x := crc[k] + v * if j == 0 then 16 else 1;
    ByteUpdate(before, k, x);
    crc[k] := crc[k] + v * if j == 0 then 16 else 1;
    assert crc[..] == before[k := x];
    FilledBits(covered, Expand(v, 4), k, j);
  }

  lemma FilledBits(covered: seq<bool>, nibble: seq<bool>, k: nat, j: nat)
    requires |nibble| == 4 && |covered| <= 84 && k == |covered| / 8 && j == |covered| % 8 && (j == 0 || j == 4)
    ensures var all := covered + Zeros(88 - |covered|);
      all[..8 * k] + (covered[8 * k..] + nibble + Zeros(4 - j)) + all[8 * k + 8..] == covered + nibble + Zeros(84 - |covered|)
  {
    var all := covered + Zeros(88 - |covered|);
    assert all[..8 * k] + covered[8 * k..] == covered;
    assert Zeros(4 - j) + all[8 * k + 8..] == Zeros(84 - |covered|);
  }

  // ----- the reader

  /** The scale factors of one channel, from the stream and into the copy for the checksum. */
  method ReadRow(data: seq<byte>, start: nat, n: nat, crc: array<byte>, ghost covered: seq<bool>)
    returns (row: seq<nat>, consumed: nat)
    requires start % 4 == 0 && start + 4 * n <= 8 * |data|
    requires 16 <= start && CrcHolds(crc[..], covered) && |covered| == start - 16 && start + 4 * n <= 104
    modifies crc
    ensures row == ReadFactors(BytesBits(data), start, n) && consumed == start + 4 * n
    ensures CrcHolds(crc[..], covered + BytesBits(data)[start..start + 4 * n])
  {
    hide BytesBits, Expand, CrcHolds, Value;
    row, consumed := [], start;
    ghost var stream := BytesBits(data);
    assert covered + stream[start..start] == covered;
    for sb := 0 to n
      invariant consumed == start + 4 * sb
      invariant row == ReadFactors(stream, start, sb)
      invariant CrcHolds(crc[..], covered + stream[start..consumed])
    {
      NibbleAt(data, consumed);
      assert covered + stream[start..consumed] + stream[consumed..consumed + 4] == covered + stream[start..consumed + 4];
      var factor := Nibble(data, consumed);
      StoreNibble(crc, consumed - 16, factor, covered + stream[start..consumed]);
      row := row + [factor];
      consumed := consumed + 4;
    }
  }

  /** One code, bit by bit; fails when a bit lies beyond the first bit after `len` bytes. */
  method ReadCode(data: seq<byte>, len: nat, start: nat, width: nat) returns (ok: bool, code: nat, consumed: nat)
    requires len < |data| && start <= 8 * len + 1
    ensures ok <==> start + width <= 8 * len + 1
    ensures ok ==> code == Value(BytesBits(data)[start..start + width]) && consumed == start + width
  {
    hide BytesBits, Expand, Value, Pow2, Shr;
    ghost var stream := BytesBits(data);
    ok, code, consumed := true, 0, start;
    NoBitsValue(stream[start..start]);
    for bit := 0 to width
      invariant consumed == start + bit <= 8 * len + 1
      invariant code == Value(stream[start..consumed]) * Pow2(width - bit)
    {
      if consumed > len * 8 {
        return false, code, consumed;
      }
      BitAt(data, consumed);
      NextBit(stream, start, consumed, width - bit);
      if Shr(data[consumed / 8], 7 - consumed % 8) % 2 == 1 {
        code := code + Pow2(width - bit - 1);
      }
      consumed := consumed + 1;
    }
    PowZero();
  }

  lemma PowZero()
    ensures Pow2(0) == 1
  {
  }

  lemma NoBitsValue(s: seq<bool>)
    requires s == []
    ensures Value(s) == 0
  {
  }

  lemma NextBit(stream: seq<bool>, start: nat, at: nat, left: nat)
    requires start <= at < |stream| && left > 0
    ensures Value(stream[start..at + 1]) * Pow2(left - 1)
         == Value(stream[start..at]) * Pow2(left) + if stream[at] then Pow2(left - 1) else 0
  {
    var s := stream[start..at + 1];
    assert s[..|s| - 1] == stream[start..at];
    DoubleAndAdd(Value(stream[start..at]), Pow2(left - 1), if stream[at] then 1 else 0);
  }

  lemma DoubleAndAdd(v: nat, p: nat, b: nat)
    requires b <= 1
    ensures (2 * v + b) * p == v * (2 * p) + if b == 1 then p else 0
  {
  }

  /** (b, c, s) comes before (blk, ch, sb) in the order of the codes. */
  predicate Earlier(b: nat, c: nat, s: nat, blk: nat, ch: nat, sb: nat) {
    b < blk || (b == blk && (c < ch || (c == ch && s < sb)))
  }

  ghost predicate Fits(bits: Distribution, scale: Scales) {
    |bits| == |scale| <= 2 && forall c :: 0 <= c < |bits| ==> |bits[c]| == |scale[c]| <= 8
  }

  /** The samples before (blk, ch, sb) are read. */
  ghost predicate SamplesRead(samples: array3<int>, stream: seq<bool>, base: nat, bits: Distribution, scale: Scales, blk: nat, ch: nat, sb: nat)
    requires samples.Length0 == 16 && samples.Length1 == 2 && samples.Length2 == 8 && Fits(bits, scale)
    reads samples
  {
    forall b: nat, c: nat, s: nat :: b < 16 && c < |bits| && s < |bits[c]| && Earlier(b, c, s, blk, ch, sb) ==>
      && base + CodeOffset(bits, b, c, s) + bits[c][s] <= |stream|
      && samples[b, c, s] == RawSample(stream, base, bits, scale, b, c, s)
  }

  /** The samples of one channel of one block. */
  method ReadSamples(data: seq<byte>, len: nat, start: nat, base: nat, bits: Distribution, scale: Scales,
                     blk: nat, ch: nat, samples: array3<int>) returns (ok: bool, consumed: nat)
    requires len < |data| && start <= 8 * len + 1
    requires samples.Length0 == 16 && samples.Length1 == 2 && samples.Length2 == 8 && blk < 16
    requires Fits(bits, scale) && ch < |bits| && SamplesRead(samples, BytesBits(data), base, bits, scale, blk, ch, 0)
    requires start == base + CodeOffset(bits, blk, ch, 0)
    modifies samples
    ensures ok <==> start + RowSize(bits[ch], |bits[ch]|) <= 8 * len + 1
    ensures ok ==> consumed == base + CodeOffset(bits, blk, ch, |bits[ch]|)
    ensures ok ==> SamplesRead(samples, BytesBits(data), base, bits, scale, blk, ch, |bits[ch]|)
  {
    hide BytesBits, Expand, Value, Pow2, Dequantise, BlockSize, CodeOffset, RowSize;
    ghost var stream := BytesBits(data);
    ok, consumed := true, start;
    OffsetInRow(bits, blk, ch, 0);
    for sb := 0 to |bits[ch]|
      invariant consumed == base + CodeOffset(bits, blk, ch, sb) <= 8 * len + 1
      invariant SamplesRead(samples, stream, base, bits, scale, blk, ch, sb)
    {
      OffsetInRow(bits, blk, ch, sb);
      if bits[ch][sb] > 0 {
        var code;
        ok, code, consumed := ReadCode(data, len, consumed, bits[ch][sb]);
        if !ok {
          return;
        }
        samples[blk, ch, sb] := Dequantise(bits[ch][sb], scale[ch][sb], code);
      } else {
        samples[blk, ch, sb] := 0;
      }
    }
  }

  lemma OffsetInRow(bits: Distribution, blk: nat, ch: nat, sb: nat)
    requires ch < |bits| && sb <= |bits[ch]|
    ensures sb < |bits[ch]| ==> CodeOffset(bits, blk, ch, sb + 1) == CodeOffset(bits, blk, ch, sb) + bits[ch][sb]
    ensures sb < |bits[ch]| ==>
      CodeOffset(bits, blk, ch, sb + 1) <= CodeOffset(bits, blk, ch, 0) + RowSize(bits[ch], |bits[ch]|)
    ensures CodeOffset(bits, blk, ch, |bits[ch]|) == CodeOffset(bits, blk, ch, 0) + RowSize(bits[ch], |bits[ch]|)
  {
    hide BlockSize;
    if sb < |bits[ch]| {
      RowSizeMonotone(bits[ch], sb + 1, |bits[ch]|);
    }
  }

  lemma RowSizeMonotone(row: seq<nat>, m: nat, n: nat)
    requires m <= n <= |row|
    ensures RowSize(row, m) <= RowSize(row, n)
    decreases n
  {
  }

  lemma NextChannel(bits: Distribution, blk: nat, ch: nat)
    requires ch < |bits|
    ensures ch + 1 < |bits| ==> CodeOffset(bits, blk, ch, |bits[ch]|) == CodeOffset(bits, blk, ch + 1, 0)
    ensures ch + 1 == |bits| ==> CodeOffset(bits, blk, ch, |bits[ch]|) == (blk + 1) * BlockSize(bits, |bits|)
    ensures CodeOffset(bits, blk, ch, |bits[ch]|) == CodeOffset(bits, blk, ch, 0) + RowSize(bits[ch], |bits[ch]|)
    ensures CodeOffset(bits, blk, 0, 0) == blk * BlockSize(bits, |bits|)
    ensures CodeOffset(bits, blk, ch, |bits[ch]|) <= (blk + 1) * BlockSize(bits, |bits|)
  {
    var w := BlockSize(bits, |bits|);
    assert (blk + 1) * w == blk * w + w;
    BlockSizeMonotone(bits, ch + 1, |bits|);
  }

  lemma BlockSizeMonotone(bits: Distribution, m: nat, n: nat)
    requires m <= n <= |bits|
    ensures BlockSize(bits, m) <= BlockSize(bits, n)
    decreases n
  {
  }

  /** The samples of one block. */
  method ReadBlock(data: seq<byte>, len: nat, start: nat, base: nat, bits: Distribution, scale: Scales,
                   blk: nat, samples: array3<int>) returns (ok: bool, consumed: nat)
    requires len < |data| && start <= 8 * len + 1
    requires samples.Length0 == 16 && samples.Length1 == 2 && samples.Length2 == 8 && blk < 16
    requires Fits(bits, scale) && |bits| > 0 && SamplesRead(samples, BytesBits(data), base, bits, scale, blk, 0, 0)
    requires start == base + blk * BlockSize(bits, |bits|)
    modifies samples
    ensures ok <==> base + (blk + 1) * BlockSize(bits, |bits|) <= 8 * len + 1
    ensures ok ==> consumed == base + (blk + 1) * BlockSize(bits, |bits|)
    ensures ok ==> SamplesRead(samples, BytesBits(data), base, bits, scale, blk + 1, 0, 0)
  {
    hide BytesBits, CodeOffset, RawSample, RowSize, BlockSize;
    ghost var stream := BytesBits(data);
    ok, consumed := true, start;
    NextChannel(bits, blk, 0);
    for ch := 0 to |bits|
      invariant consumed <= 8 * len + 1
      invariant consumed == if ch < |bits| then base + CodeOffset(bits, blk, ch, 0) else base + (blk + 1) * BlockSize(bits, |bits|)
      invariant SamplesRead(samples, stream, base, bits, scale, blk, ch, 0)
    {
      NextChannel(bits, blk, ch);
      ok, consumed := ReadSamples(data, len, consumed, base, bits, scale, blk, ch, samples);
      if !ok {
        return;
      }
    }
  }

  /** All samples of the frame. */
  method ReadBlocks(data: seq<byte>, len: nat, base: nat, blocks: nat, bits: Distribution, scale: Scales,
                    samples: array3<int>) returns (ok: bool, consumed: nat)
    requires len < |data| && base <= 8 * len + 1 && blocks <= 16
    requires samples.Length0 == 16 && samples.Length1 == 2 && samples.Length2 == 8
    requires Fits(bits, scale) && |bits| > 0
    modifies samples
    ensures ok <==> base + blocks * BlockSize(bits, |bits|) <= 8 * len + 1
    ensures ok ==> consumed == base + blocks * BlockSize(bits, |bits|)
    ensures ok ==> SamplesRead(samples, BytesBits(data), base, bits, scale, blocks, 0, 0)
  {
    hide BytesBits, CodeOffset, RawSample, BlockSize;
    ok, consumed := true, base;
    for blk := 0 to blocks
      invariant consumed == base + blk * BlockSize(bits, |bits|) <= 8 * len + 1
      invariant SamplesRead(samples, BytesBits(data), base, bits, scale, blk, 0, 0)
    {
      MoreBlocks(blk + 1, blocks, BlockSize(bits, |bits|));
      ok, consumed := ReadBlock(data, len, consumed, base, bits, scale, blk, samples);
      if !ok {
        return;
      }
    }
  }

  lemma MoreBlocks(m: nat, n: nat, w: nat)
    requires m <= n
    ensures m * w <= n * w
  {
  }

  // ----- un-mixing, and the whole frame

  /** The loop over the subbands of one block. */
  method UnmixBlock(samples: array3<int>, joint: seq<bool>, blk: nat)
    requires samples.Length0 == 16 && samples.Length1 == 2 && samples.Length2 == 8 && blk < 16 && |joint| <= 8
    modifies samples
    ensures forall sb: nat :: sb < |joint| ==>
      && samples[blk, 0, sb] == old(samples[blk, 0, sb]) + (if joint[sb] then old(samples[blk, 1, sb]) else 0)
      && samples[blk, 1, sb] == if joint[sb] then old(samples[blk, 0, sb]) - old(samples[blk, 1, sb]) else old(samples[blk, 1, sb])
    ensures forall b: nat, c: nat, s: nat :: b < 16 && c < 2 && s < 8 && b != blk ==> samples[b, c, s] == old(samples[b, c, s])
  {
    for sb := 0 to |joint|
      invariant forall s: nat :: s < sb ==>
        && samples[blk, 0, s] == old(samples[blk, 0, s]) + (if joint[s] then old(samples[blk, 1, s]) else 0)
        && samples[blk, 1, s] == if joint[s] then old(samples[blk, 0, s]) - old(samples[blk, 1, s]) else old(samples[blk, 1, s])
      invariant forall b: nat, c: nat, s: nat :: b < 16 && c < 2 && s < 8 && (b != blk || s >= sb) ==> samples[b, c, s] == old(samples[b, c, s])
    {
      if joint[sb] {
        var temp := samples[blk, 0, sb] + samples[blk, 1, sb];
        samples[blk, 1, sb] := samples[blk, 0, sb] - samples[blk, 1, sb];
        samples[blk, 0, sb] := temp;
      }
    }
  }

  /** The un-mixing of all blocks. */
  method Unmix(samples: array3<int>, joint: seq<bool>, blocks: nat)
    requires samples.Length0 == 16 && samples.Length1 == 2 && samples.Length2 == 8 && blocks <= 16 && |joint| <= 8
    modifies samples
    ensures forall b: nat, sb: nat :: b < blocks && sb < |joint| ==>
      && samples[b, 0, sb] == old(samples[b, 0, sb]) + (if joint[sb] then old(samples[b, 1, sb]) else 0)
      && samples[b, 1, sb] == if joint[sb] then old(samples[b, 0, sb]) - old(samples[b, 1, sb]) else old(samples[b, 1, sb])
  {
    for blk := 0 to blocks
      invariant forall b: nat, sb: nat :: b < blk && sb < |joint| ==>
        && samples[b, 0, sb] == old(samples[b, 0, sb]) + (if joint[sb] then old(samples[b, 1, sb]) else 0)
        && samples[b, 1, sb] == if joint[sb] then old(samples[b, 0, sb]) - old(samples[b, 1, sb]) else old(samples[b, 1, sb])
      invariant forall b: nat, c: nat, s: nat :: blk <= b < 16 && c < 2 && s < 8 ==> samples[b, c, s] == old(samples[b, c, s])
    {
      UnmixBlock(samples, joint, blk);
    }
  }

  lemma {:induction false} ZeroBytes(crc: seq<byte>)
    requires forall k :: 0 <= k < |crc| ==> crc[k] == 0
    ensures BytesBits(crc) == Zeros(8 * |crc|)
  {
    if crc != [] {
      ZeroBytes(crc[..|crc| - 1]);
      ExpandZero(8);
    }
  }

  lemma CrcStart(data: seq<byte>, crc: seq<byte>)
    requires |data| >= 4 && |crc| == 11 && crc[0] == data[1] && crc[1] == data[2]
    requires forall k :: 2 <= k < 11 ==> crc[k] == 0
    ensures CrcHolds(crc, BytesBits(data)[8..24])
  {
    hide Expand, BytesBits;
    BytesBitsPrefix(crc, 2);
    ZeroBytes(crc[2..]);
    BytesBitsByte(crc, 0);
    BytesBitsByte(crc, 1);
    BytesBitsByte(data, 1);
    BytesBitsByte(data, 2);
    var c, d := BytesBits(crc), BytesBits(data);
    assert c[..16] == c[0..8] + c[8..16] && d[8..24] == d[8..16] + d[16..24];
    assert c == c[..16] + c[16..];
  }

  /** The third byte of the checksum copy is the fifth of the frame, or its high half when there are
      four subbands. */
  method StoreJoint(data: seq<byte>, crc: array<byte>, subbands: nat)
    requires |data| >= 5 && (subbands == 4 || subbands == 8)
    requires CrcHolds(crc[..], BytesBits(data)[8..24])
    modifies crc
    ensures CrcHolds(crc[..], BytesBits(data)[8..24] + BytesBits(data)[32..32 + subbands])
  {
    hide Expand, BytesBits, Nibble;
    ghost var before, stream := crc[..], BytesBits(data);
    var x := if subbands == 4 then Nibble(data, 32) * 16 else data[4];
    ByteUpdate(before, 2, x);
    if subbands == 4 {
      TwoNibbles(Nibble(data, 32), 0);
      ExpandZero(4);
      NibbleAt(data, 32);
    } else {
      BytesBitsByte(data, 4);
    }
    assert Expand(x, 8) == stream[32..32 + subbands] + Zeros(8 - subbands);
    crc[2] := x;
    assert crc[..] == before[2 := x];
    JointFilled(stream[8..24], stream[32..32 + subbands]);
  }

  lemma JointFilled(head: seq<bool>, joint: seq<bool>)
    requires |head| == 16 && (|joint| == 4 || |joint| == 8)
    ensures (head + Zeros(72))[..16] + (joint + Zeros(8 - |joint|)) + (head + Zeros(72))[24..]
         == head + joint + Zeros(72 - |joint|)
  {
  }

  /** The joint mask: one bit of data[4] per subband, but none for the last. */
  method ReadJoint(data: seq<byte>, h: Header) returns (joint: seq<bool>)
    requires |data| >= 5 && h.Shaped() && h.mode == JointStereo
    ensures |joint| == h.subbands
    ensures forall sb :: 0 <= sb < h.subbands ==> joint[sb] == JointRead(h, BytesBits(data), sb)
  {
    hide BytesBits, Shr;
    joint := [];
    for sb := 0 to h.subbands - 1
      invariant |joint| == sb
      invariant forall k :: 0 <= k < sb ==> joint[k] == BytesBits(data)[32 + k]
    {
      BitAt(data, 32 + sb);
      joint := joint + [Shr(data[4], 7 - sb) % 2 == 1];
    }
    joint := joint + [false];
  }

  /** The part of the side information before the scale factors. */
  method ReadSideStart(data: seq<byte>, h: Header, crc: array<byte>) returns (joint: seq<bool>, consumed: nat)
    requires h.Valid() && |data| >= 5 && crc.Length == 11 && forall k :: 0 <= k < 11 ==> crc[k] == 0
    modifies crc
    ensures consumed == FactorStart(h)
    ensures CrcHolds(crc[..], BytesBits(data)[8..24] + BytesBits(data)[32..consumed])
    ensures |joint| == if h.mode == JointStereo then h.subbands else 0
    ensures forall sb :: 0 <= sb < |joint| ==> joint[sb] == JointRead(h, BytesBits(data), sb)
  {
    hide BytesBits, CrcHolds, JointRead;
    ghost var stream := BytesBits(data);
    crc[0], crc[1] := data[1], data[2];
    CrcStart(data, crc[..]);
    joint, consumed := [], 32;
    if h.mode == JointStereo {
      joint := ReadJoint(data, h);
      StoreJoint(data, crc, h.subbands);
      consumed := consumed + h.subbands;
    } else {
      assert stream[8..24] + stream[32..32] == stream[8..24];
    }
  }

  /** The loop over the scale factors. */
  method ReadScales(data: seq<byte>, h: Header, crc: array<byte>) returns (scale: Scales, consumed: nat)
    requires h.Shaped() && CodeStart(h) <= 8 * |data|
    requires CrcHolds(crc[..], BytesBits(data)[8..24] + BytesBits(data)[32..FactorStart(h)])
    modifies crc
    ensures scale == ScaleOf(h, BytesBits(data)) && consumed == CodeStart(h)
    ensures CrcHolds(crc[..], CoveredRead(h, BytesBits(data)))
  {
    hide BytesBits, CrcHolds, ReadFactors;
    ghost var stream := BytesBits(data);
    consumed := FactorStart(h);
    scale := [];
    var ch := 0;
    while ch < h.Channels()
      invariant ch <= h.Channels() && consumed == FactorStart(h) + 4 * h.subbands * ch
      invariant scale == ReadScale(stream, FactorStart(h), h.subbands, ch)
      invariant CrcHolds(crc[..], stream[8..24] + stream[32..consumed])
    {
      SideRoom(h, ch);
      var row;
      ghost var start := consumed;
      row, consumed := ReadRow(data, consumed, h.subbands, crc, stream[8..24] + stream[32..consumed]);
      assert stream[8..24] + stream[32..start] + stream[start..consumed] == stream[8..24] + stream[32..consumed];
      scale := scale + [row];
      ch := ch + 1;
    }
  }

  /** The side information and the check of the checksum. */
  method ReadSide(data: seq<byte>, h: Header) returns (joint: seq<bool>, scale: Scales, good: bool)
    requires h.Valid() && CodeStart(h) <= 8 * |data| && |data| >= 5
    ensures scale == ScaleOf(h, BytesBits(data))
    ensures good <==> data[3] == Crc8.Checksum(CoveredRead(h, BytesBits(data)))
    ensures |joint| == if h.mode == JointStereo then h.subbands else 0
    ensures forall sb :: 0 <= sb < |joint| ==> joint[sb] == JointRead(h, BytesBits(data), sb)
  {
    hide BytesBits, CrcHolds, ReadFactors, JointRead, ScaleOf, CoveredRead;
    var crc := new byte[11](_ => 0);
    var consumed;
    joint, consumed := ReadSideStart(data, h, crc);
    scale, consumed := ReadScales(data, h, crc);
    CrcTaken(crc[..], CoveredRead(h, BytesBits(data)));
    CoveredReadLength(h, BytesBits(data));
    var crcRead := Crc8.Crc(crc[..], consumed - 16);
    good := data[3] == crcRead;
  }

  lemma CoveredReadLength(h: Header, stream: seq<bool>)
    requires h.Shaped() && CodeStart(h) <= |stream|
    ensures |CoveredRead(h, stream)| == CodeStart(h) - 16
  {
  }

  lemma SideRoom(h: Header, ch: nat)
    requires h.Shaped() && ch < h.Channels()
    ensures 4 * h.subbands * (ch + 1) == 4 * h.subbands * ch + 4 * h.subbands <= 4 * h.subbands * h.Channels() <= 64
  {
  }

  lemma CrcTaken(crc: seq<byte>, covered: seq<bool>)
    requires CrcHolds(crc, covered)
    ensures |covered| <= 8 * |crc| && BytesBits(crc)[..|covered|] == covered
  {
  }

  // ----- sbc_unpack_frame

  /** The reconstructed sample of (blk, ch, sb) of a frame that lies within data. */
  function ReadSample(data: seq<byte>, h: Header, scale: Scales, blk: nat, ch: nat, sb: nat): int
    requires h.Valid() && ScalesFit(h, scale) && TotalBits(h) <= 8 * |data|
    requires blk < h.blocks && ch < h.Channels() && sb < h.subbands
  {
    OffsetsFit(h, scale, blk, sb);
    RawSample(BytesBits(data), CodeStart(h), FrameBits(h, scale), scale, blk, ch, sb)
  }

  /** The sample the decoder works on: sum and difference where the joint bit is set. */
  function FinalSample(data: seq<byte>, h: Header, scale: Scales, blk: nat, ch: nat, sb: nat): int
    requires h.Valid() && ScalesFit(h, scale) && TotalBits(h) <= 8 * |data|
    requires blk < h.blocks && ch < h.Channels() && sb < h.subbands
  {
    StreamHolds(h);
    if JointRead(h, BytesBits(data), sb) then
      if ch == 0 then ReadSample(data, h, scale, blk, 0, sb) + ReadSample(data, h, scale, blk, 1, sb)
      else ReadSample(data, h, scale, blk, 0, sb) - ReadSample(data, h, scale, blk, 1, sb)
    else ReadSample(data, h, scale, blk, ch, sb)
  }

  lemma StreamHolds(h: Header)
    requires h.Valid()
    ensures 32 + h.subbands <= CodeStart(h) <= TotalBits(h)
  {
  }

  /** What the sample array holds when unpacking succeeds. */
  ghost predicate FrameRead(samples: array3<int>, data: seq<byte>, h: Header, scale: Scales)
    requires h.Valid() && ScalesFit(h, scale) && TotalBits(h) <= 8 * |data|
    requires samples.Length0 == 16 && samples.Length1 == 2 && samples.Length2 == 8
    reads samples
  {
    forall blk: nat, ch: nat, sb: nat :: blk < h.blocks && ch < h.Channels() && sb < h.subbands ==>
      samples[blk, ch, sb] == FinalSample(data, h, scale, blk, ch, sb)
  }

  lemma OffsetsFit(h: Header, scale: Scales, blk: nat, sb: nat)
    requires h.Valid() && ScalesFit(h, scale) && blk < h.blocks && sb < h.subbands
    ensures var bits := FrameBits(h, scale);
      forall c :: 0 <= c < |bits| ==> CodeStart(h) + CodeOffset(bits, blk, c, sb) + bits[c][sb] <= TotalBits(h)
  {
    hide CodeOffset, BlockSize, RowSize, FrameBits;
    var bits := FrameBits(h, scale);
    BlockSizeIsBudget(h, scale);
    forall c | 0 <= c < |bits| ensures CodeStart(h) + CodeOffset(bits, blk, c, sb) + bits[c][sb] <= TotalBits(h) {
      OffsetInRow(bits, blk, c, sb);
      NextChannel(bits, blk, c);
      MoreBlocks(blk + 1, h.blocks, Budget(h));
    }
  }

  ghost predicate RawRead(samples: array3<int>, data: seq<byte>, h: Header, scale: Scales)
    requires h.Valid() && ScalesFit(h, scale) && TotalBits(h) <= 8 * |data|
    requires samples.Length0 == 16 && samples.Length1 == 2 && samples.Length2 == 8
    reads samples
  {
    forall blk: nat, ch: nat, sb: nat :: blk < h.blocks && ch < h.Channels() && sb < h.subbands ==>
      samples[blk, ch, sb] == ReadSample(data, h, scale, blk, ch, sb)
  }

  lemma AllRead(samples: array3<int>, data: seq<byte>, h: Header, scale: Scales)
    requires h.Valid() && ScalesFit(h, scale) && TotalBits(h) <= 8 * |data|
    requires samples.Length0 == 16 && samples.Length1 == 2 && samples.Length2 == 8
    requires SamplesRead(samples, BytesBits(data), CodeStart(h), FrameBits(h, scale), scale, h.blocks, 0, 0)
    ensures RawRead(samples, data, h, scale)
  {
    hide BytesBits, CodeOffset, ChannelBits, RawSample;
    forall blk: nat, ch: nat, sb: nat | blk < h.blocks && ch < h.Channels() && sb < h.subbands
      ensures samples[blk, ch, sb] == ReadSample(data, h, scale, blk, ch, sb)
    {
      assert Earlier(blk, ch, sb, h.blocks, 0, 0);
    }
  }

  /** In the joint mode, un-mixing makes the raw samples final; in the others they are final. */
  method Finish(samples: array3<int>, data: seq<byte>, h: Header, ghost scale: Scales, joint: seq<bool>)
    requires h.Valid() && ScalesFit(h, scale) && TotalBits(h) <= 8 * |data|
    requires samples.Length0 == 16 && samples.Length1 == 2 && samples.Length2 == 8
    requires RawRead(samples, data, h, scale)
    requires |joint| == if h.mode == JointStereo then h.subbands else 0
    requires 32 + h.subbands <= 8 * |data|
    requires forall sb :: 0 <= sb < |joint| ==> joint[sb] == JointRead(h, BytesBits(data), sb)
    modifies samples
    ensures FrameRead(samples, data, h, scale)
  {
    hide BytesBits, ReadSample;
    if h.mode == JointStereo {
      Unmix(samples, joint, h.blocks);
    }
  }

  /** sbc_unpack_frame: the length of the frame, or a negative error code. */
  method UnpackFrame(data: seq<byte>, len: nat, samples: array3<int>) returns (r: int, h: Header, joint: seq<bool>, scale: Scales)
    requires len < |data|
    requires samples.Length0 == 16 && samples.Length1 == 2 && samples.Length2 == 8
    modifies samples
    ensures match Unpack(data, len)
            case Failed(code) => r == code < 0
            case Unpacked(length, header, factors) =>
              && r == length && h == header && scale == factors && FrameRead(samples, data, h, scale)
              && |joint| == (if h.mode == JointStereo then h.subbands else 0)
              && forall sb :: 0 <= sb < |joint| ==> joint[sb] == JointRead(h, BytesBits(data), sb)
  {
    h, joint, scale := MSBC, [], [];
    if len < 4 {
      return TOO_SHORT, h, joint, scale;
    }
    if data[0] == SBC_SYNCWORD {
      h := HeaderOf(data[1], data[2]);
      if (h.mode == Mono || h.mode == DualChannel) && h.bitpool > 16 * h.subbands {
        return BAD_BITPOOL, h, joint, scale;
      }
      if (h.mode == Stereo || h.mode == JointStereo) && h.bitpool > 32 * h.subbands {
        return BAD_BITPOOL, h, joint, scale;
      }
    } else if data[0] != MSBC_SYNCWORD {
      return BAD_SYNC, h, joint, scale;
    }
    r, joint, scale := UnpackRest(data, len, h, samples);
  }

  /** Everything after the header fields. */
  method UnpackRest(data: seq<byte>, len: nat, h: Header, samples: array3<int>)
    returns (r: int, joint: seq<bool>, scale: Scales)
    requires 4 <= len && len < |data| && ParseHeader(data) == Found(h)
    requires samples.Length0 == 16 && samples.Length1 == 2 && samples.Length2 == 8
    modifies samples
    ensures match Unpack(data, len)
            case Failed(code) => r == code < 0
            case Unpacked(length, header, factors) =>
              && r == length && h == header && scale == factors && FrameRead(samples, data, h, scale)
              && |joint| == (if h.mode == JointStereo then h.subbands else 0)
              && forall sb :: 0 <= sb < |joint| ==> joint[sb] == JointRead(h, BytesBits(data), sb)
  {
    hide BytesBits, FrameBits, ScaleOf, CoveredRead, HeaderOf, FrameRead, JointRead, ScalesFit;
    joint, scale := [], [];
    StreamHolds(h);
    if h.mode == JointStereo && len * 8 < 32 + h.subbands {
      return TOO_SHORT, joint, scale;
    }
    if len * 8 < CodeStart(h) {
      return TOO_SHORT, joint, scale;
    }
    var good;
    joint, scale, good := ReadSide(data, h);
    if !good {
      return BAD_CRC, joint, scale;
    }
    r := UnpackSamples(data, len, h, scale, joint, samples);
  }

  lemma BitsFit(h: Header, scale: Scales)
    requires h.Valid() && ScalesFit(h, scale)
    ensures Fits(FrameBits(h, scale), scale) && |FrameBits(h, scale)| == h.Channels()
    ensures TotalBits(h) == CodeStart(h) + h.blocks * BlockSize(FrameBits(h, scale), |FrameBits(h, scale)|)
  {
    hide ChannelBits, BlockSize;
    BlockSizeIsBudget(h, scale);
  }

  /** Where the byte after `consumed` bits is. */
  lemma ByteAfter(consumed: nat)
    ensures (consumed + 7) / 8 == (if consumed % 8 != 0 then consumed + (8 - consumed % 8) else consumed) / 8
  {
  }

  /** The codes, the un-mixing and the trailing peek. */
  method UnpackSamples(data: seq<byte>, len: nat, h: Header, scale: Scales, joint: seq<bool>, samples: array3<int>)
    returns (r: int)
    requires len < |data| && h.Valid() && ScalesFit(h, scale) && CodeStart(h) <= 8 * len
    requires h.blocks % 4 == 0 || h == MSBC
    requires samples.Length0 == 16 && samples.Length1 == 2 && samples.Length2 == 8
    requires |joint| == if h.mode == JointStereo then h.subbands else 0
    requires 32 + h.subbands <= 8 * |data|
    requires forall sb :: 0 <= sb < |joint| ==> joint[sb] == JointRead(h, BytesBits(data), sb)
    modifies samples
    ensures TotalBits(h) > 8 * len ==> r == TOO_SHORT
    ensures TotalBits(h) <= 8 * len ==>
      var end := (TotalBits(h) + 7) / 8;
      r == (if data[end] == 0 then end + 1 else end) && FrameRead(samples, data, h, scale)
  {
    hide BytesBits, FrameBits, FinalSample, SamplesRead, RawRead, FrameRead, JointRead, TotalBits, CodeStart, BlockSize, Budget;
    StreamHolds(h);
    TotalBitsEven(h);
    var bits := DistributeBits(h, scale);
    BitsFit(h, scale);
    var ok, consumed := ReadBlocks(data, len, CodeStart(h), h.blocks, bits, scale, samples);
    if !ok {
      return TOO_SHORT;
    }
    AllRead(samples, data, h, scale);
    Finish(samples, data, h, scale, joint);
    ByteAfter(consumed);
    if consumed % 8 != 0 {
      consumed := consumed + (8 - consumed % 8);
    }
    r := if data[consumed / 8] == 0 then consumed / 8 + 1 else consumed / 8;
  }
}
