/** The packer's bit stream: bytes already stored, then a 32-bit cache whose low bits_count bits
    are still pending. */
module BitWriter {
  import opened Bits

  class Writer {
    const data: array<byte>
    var ptr: nat
    var bitsCache: nat
    var bitsCount: nat

    ghost predicate Valid()
      reads this
    {
      ptr <= data.Length && bitsCache < WORD && bitsCount <= 15
    }

    /** Everything written from byte `from` on: the stored bytes, then the live bits of the cache. */
    ghost function Written(from: nat): (r: seq<bool>)
      requires from <= ptr <= data.Length
      reads this, data
      ensures |r| == 8 * (ptr - from) + bitsCount
    {
      BytesBits(data[from..ptr]) + Expand(bitsCache, bitsCount)
    }

    constructor (data: array<byte>, start: nat)
      requires start <= data.Length
      ensures this.data == data && ptr == start && bitsCount == 0 && Valid()
    {
      this.data := data;
      ptr, bitsCache, bitsCount := start, 0, 0;
    }

    /** One byte is appended to the output. */
    method StoreByte(x: byte, ghost from: nat)
      requires from <= ptr < data.Length
      modifies this`ptr, data
      ensures ptr == old(ptr) + 1
      ensures BytesBits(data[from..ptr]) == old(BytesBits(data[from..ptr])) + Expand(x, 8)
      ensures data[..old(ptr)] == old(data[..ptr])
    {
      ghost var before := data[from..ptr];
      ghost var head := data[..ptr];
      data[ptr] := x;
      ptr := ptr + 1;
      assert data[..ptr - 1] == head && data[from..ptr - 1] == before;
      AppendByte(before, data[from..ptr]);
    }

    /** The top eight live bits of the cache become the next byte. */
    method EmitByte(ghost from: nat)
      requires from <= ptr < data.Length && 8 <= bitsCount
      modifies this`ptr, this`bitsCount, data
      ensures ptr == old(ptr) + 1 && bitsCount == old(bitsCount) - 8
      ensures Written(from) == old(Written(from))
      ensures data[..old(ptr)] == old(data[..ptr])
    {
      hide Expand, BytesBits;
      TopByte(bitsCache, bitsCount);
      bitsCount := bitsCount - 8;
      ghost var stored := BytesBits(data[from..ptr]);
      StoreByte(Shr(bitsCache, bitsCount) % 256, from);
      assert Written(from) == stored + (Expand(Shr(bitsCache, bitsCount) % 256, 8) + Expand(bitsCache, bitsCount));
    }

    /** PUT_BITS. The field v goes into the n bits that the shift freed, so the source's `|` adds it. */
    method PutBits(v: nat, n: nat, ghost from: nat)
      requires Valid() && from <= ptr && n <= 16 && v < Pow2(n)
      requires bitsCount + n >= 16 ==> ptr + 2 <= data.Length
      modifies this`ptr, this`bitsCache, this`bitsCount, data
      ensures Valid() && old(ptr) <= ptr
      ensures Written(from) == old(Written(from)) + Expand(v, n)
      ensures data[..old(ptr)] == old(data[..ptr])
    {
      hide Expand, BytesBits, Pow2;
      CacheShift(bitsCache, bitsCount, v, n);
      bitsCache := (bitsCache * Pow2(n) + v) % WORD;
      bitsCount := bitsCount + n;
      assert Written(from) == old(Written(from)) + Expand(v, n);
      if bitsCount >= 16 {
        EmitByte(from);
        EmitByte(from);
      }
    }

    /** FLUSH_BITS: the pending bits, completed to a byte with zeros. */
    method FlushBits(ghost from: nat)
      requires Valid() && from <= ptr
      requires ptr + (bitsCount + 7) / 8 <= data.Length
      modifies this`ptr, this`bitsCount, data
      ensures ptr == old(ptr) + (old(bitsCount) + 7) / 8 <= data.Length
      ensures BytesBits(data[from..ptr]) == PadToByte(old(Written(from)))
      ensures data[..old(ptr)] == old(data[..ptr])
    {
      ghost var all := Written(from);
      while bitsCount >= 8
        invariant from <= old(ptr) <= ptr && bitsCount <= 15 && ptr + (bitsCount + 7) / 8 == old(ptr + (bitsCount + 7) / 8)
        invariant Written(from) == all && data[..old(ptr)] == old(data[..ptr])
      {
        EmitByte(from);
      }
      EmitRest(from);
    }

    method EmitRest(ghost from: nat)
      requires from <= ptr && bitsCount < 8 && ptr + (bitsCount + 7) / 8 <= data.Length
      modifies this`ptr, data
      ensures ptr == old(ptr) + (bitsCount + 7) / 8
      ensures BytesBits(data[from..ptr]) == PadToByte(old(Written(from)))
      ensures data[..old(ptr)] == old(data[..ptr])
    {
      hide Expand, BytesBits;
      ghost var all := Written(from);
      if bitsCount > 0 {
        LastByte(bitsCache, bitsCount);
        ghost var stored := BytesBits(data[from..ptr]);
        StoreByte(bitsCache * Pow2(8 - bitsCount) % 256, from);
        assert stored + (Expand(bitsCache, bitsCount) + Zeros(8 - bitsCount)) == all + Zeros(8 - bitsCount);
      } else {
        assert all + Zeros(0) == all;
      }
    }
  }

  lemma TopByte(cache: nat, count: nat)
    requires 8 <= count
    ensures Expand(cache, count) == Expand(Shr(cache, count - 8) % 256, 8) + Expand(cache, count - 8)
  {
    ExpandSplit(cache, 8, count - 8);
    assert Pow2(8) == 256;
    ExpandLow(Shr(cache, count - 8), 8, 8);
  }

  lemma LastByte(cache: nat, count: nat)
    requires count < 8
    ensures Expand(cache * Pow2(8 - count) % 256, 8) == Expand(cache, count) + Zeros(8 - count)
  {
    assert Pow2(8) == 256;
    ExpandShift(cache, count, 0, 8 - count);
    ExpandLow(cache * Pow2(8 - count), 8, 8);
    ExpandZero(8 - count);
  }

  /** A field put into the freed low bits of the cache, within its 32 bits. */
  lemma CacheShift(cache: nat, count: nat, v: nat, n: nat)
    requires count + n <= 32 && v < Pow2(n)
    ensures Expand((cache * Pow2(n) + v) % WORD, count + n) == Expand(cache, count) + Expand(v, n)
  {
    Pow2Of32();
    ExpandShift(cache, count, v, n);
    ExpandLow(cache * Pow2(n) + v, 32, count + n);
  }

  lemma AppendByte(before: seq<byte>, after: seq<byte>)
    requires |after| == |before| + 1 && after[..|before|] == before
    ensures BytesBits(after) == BytesBits(before) + Expand(after[|before|], 8)
  {
  }
}
