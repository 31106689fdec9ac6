/** PCM byte order: the decoder writes big-endian samples, the client and the concealment use
    little-endian ones. */
module Pcm {
  import opened Bits

  /** Each pair of bytes exchanged. */
  function Swapped(s: seq<byte>): (r: seq<byte>)
    requires |s| % 2 == 0
    ensures |r| == |s|
  {
    seq(|s|, i requires 0 <= i < |s| => if i % 2 == 0 then s[i + 1] else s[i - 1])
  }

  /** The signed 16-bit value of a little-endian pair. */
  function Short(low: byte, high: byte): (r: int)
    ensures -0x8000 <= r < 0x8000
    ensures (r - (256 * high + low)) % 0x10000 == 0
  {
    (if high < 128 then high else high - 256) * 256 + low
  }

  function Shorts(s: seq<byte>): (r: seq<int>)
    ensures |r| == |s| / 2
  {
    seq(|s| / 2, i requires 0 <= i < |s| / 2 => Short(s[2 * i], s[2 * i + 1]))
  }

  /** The low and the high byte of a sample. */
  function LowByte(x: int): byte { x % 256 }
  function HighByte(x: int): byte { x / 256 % 256 }

  function Bytes(s: seq<int>): (r: seq<byte>)
    ensures |r| == 2 * |s|
  {
    seq(2 * |s|, i requires 0 <= i < 2 * |s| => if i % 2 == 0 then LowByte(s[i / 2]) else HighByte(s[i / 2]))
  }

  lemma SwappedTwice(s: seq<byte>)
    requires |s| % 2 == 0
    ensures Swapped(Swapped(s)) == s
  {
    forall i | 0 <= i < |s| ensures Swapped(Swapped(s))[i] == s[i] {
      if i % 2 == 0 {
        assert (i + 1) % 2 == 1;
      } else {
        assert (i - 1) % 2 == 0;
      }
    }
  }

  lemma SwappedAt(s: seq<byte>, i: nat)
    requires |s| % 2 == 0 && 2 * i < |s|
    ensures Swapped(s)[2 * i] == s[2 * i + 1] && Swapped(s)[2 * i + 1] == s[2 * i]
  {
  }

  /** Samples are little-endian: sample i has byte 2i as its low and byte 2i + 1 as its high byte. */
  lemma LittleEndian(s: seq<byte>, i: nat)
    requires i < |s| / 2
    ensures Shorts(s)[i] == s[2 * i] + 256 * (s[2 * i + 1] as int) - (if s[2 * i + 1] < 128 then 0 else 0x1_0000)
  {
  }

  lemma ShortBytes(low: byte, high: byte)
    ensures LowByte(Short(low, high)) == low && HighByte(Short(low, high)) == high
  {
    var x := Short(low, high);
    var q := if high < 128 then high else high - 256;
    assert x == q * 256 + low;
    assert x / 256 == q;
  }

  lemma BytesShort(x: int)
    requires -0x8000 <= x < 0x8000
    ensures Short(LowByte(x), HighByte(x)) == x
  {
    assert x == x / 256 * 256 + x % 256;
    assert -128 <= x / 256 < 128;
  }

  /** The two conversions around the concealment undo each other: on any even number of bytes, and
      on any 16-bit samples. */
  lemma BytesOfShorts(s: seq<byte>)
    requires |s| % 2 == 0
    ensures Bytes(Shorts(s)) == s
  {
    forall i | 0 <= i < |s| ensures Bytes(Shorts(s))[i] == s[i] {
      ShortBytes(s[i / 2 * 2], s[i / 2 * 2 + 1]);
    }
  }

  lemma ShortsOfBytes(s: seq<int>)
    requires forall x :: x in s ==> -0x8000 <= x < 0x8000
    ensures Shorts(Bytes(s)) == s
  {
    forall i | 0 <= i < |s| ensures Shorts(Bytes(s))[i] == s[i] {
      assert s[i] in s;
      BytesShort(s[i]);
      assert 2 * i / 2 == i && (2 * i + 1) / 2 == i;
    }
  }

  /** be_to_le */
  method BeToLe(buf: array<byte>)
    requires buf.Length % 2 == 0
    modifies buf
    ensures buf[..] == Swapped(old(buf[..]))
  {
    var i := 0;
    while i < buf.Length
      invariant i <= buf.Length && i % 2 == 0
      invariant forall k :: 0 <= k < i ==> buf[k] == Swapped(old(buf[..]))[k]
      invariant forall k :: i <= k < buf.Length ==> buf[k] == old(buf[k])
    {
      var tmp := buf[i];
      buf[i] := buf[i + 1];
      buf[i + 1] := tmp;
      i := i + 2;
    }
  }

  /** uchar_to_short_array; the store to a short wraps the high byte into the sign. */
  method UcharToShort(cbuf: array<byte>, sbuf: array<int>)
    requires cbuf.Length / 2 <= sbuf.Length
    modifies sbuf
    ensures sbuf[..] == Shorts(cbuf[..]) + old(sbuf[cbuf.Length / 2..])
  {
    ghost var before := sbuf[..];
    ghost var shorts := Shorts(cbuf[..]);
    for i := 0 to cbuf.Length / 2
      invariant forall k :: 0 <= k < i ==> sbuf[k] == shorts[k]
      invariant forall k :: i <= k < sbuf.Length ==> sbuf[k] == before[k]
    {
      sbuf[i] := Short(cbuf[2 * i], cbuf[2 * i + 1]);
    }
    assert forall k :: cbuf.Length / 2 <= k < sbuf.Length ==> sbuf[k] == before[cbuf.Length / 2..][k - cbuf.Length / 2];
  }

  /** short_to_uchar_array */
  method ShortToUchar(sbuf: seq<int>, cbuf: array<byte>)
    requires cbuf.Length == 2 * |sbuf|
    modifies cbuf
    ensures cbuf[..] == Bytes(sbuf)
  {
    for i := 0 to cbuf.Length / 2
      invariant forall k :: 0 <= k < 2 * i ==> cbuf[k] == Bytes(sbuf)[k]
    {
      cbuf[2 * i] := LowByte(sbuf[i]);
      cbuf[2 * i + 1] := HighByte(sbuf[i]);
    }
  }
}
