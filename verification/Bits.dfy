/** Bit strings, most significant bit first: the common language of the bit writer, the bit
    reader and the CRC of the SBC codec. */
module Bits {

  /** The source's uint8_t. */
  type byte = x: int | 0 <= x < 256

  /** The modulus of the source's uint32_t. */
  const WORD: nat := 0x1_0000_0000

  /** The most bits that the code of a sample can have. */
  const MAX_BITS := 16

  function Pow2(n: nat): (r: nat)
    ensures r > 0
  {
    if n == 0 then 1 else 2 * Pow2(n - 1)
  }

  /** The source's v >> n on unsigned numbers. */
  function Shr(v: nat, n: nat): nat {
    if n == 0 then v else Shr(v / 2, n - 1)
  }

  /** The low n bits of v, most significant first. */
  function Expand(v: nat, n: nat): (r: seq<bool>)
    ensures |r| == n
  {
    if n == 0 then [] else Expand(v / 2, n - 1) + [v % 2 == 1]
  }

  /** The number a bit string denotes. */
  function Value(b: seq<bool>): nat {
    if b == [] then 0 else 2 * Value(b[..|b| - 1]) + if b[|b| - 1] then 1 else 0
  }

  /** The bits of a byte string, each byte most significant bit first. */
  function BytesBits(data: seq<byte>): (r: seq<bool>)
    ensures |r| == 8 * |data|
  {
    if data == [] then [] else BytesBits(data[..|data| - 1]) + Expand(data[|data| - 1], 8)
  }

  function Zeros(n: nat): (r: seq<bool>)
    ensures |r| == n
  {
    seq(n, _ => false)
  }

  /** b followed by the zero bits that complete its last byte. */
  function PadToByte(b: seq<bool>): (r: seq<bool>)
    ensures |r| == (|b| + 7) / 8 * 8
  {
    b + Zeros((|b| + 7) / 8 * 8 - |b|)
  }

  lemma {:induction false} Pow2Add(m: nat, n: nat)
    ensures Pow2(m + n) == Pow2(m) * Pow2(n)
  {
    if m > 0 {
      Pow2Add(m - 1, n);
      assert Pow2(m) * Pow2(n) == 2 * (Pow2(m - 1) * Pow2(n));
    }
  }

  lemma Pow2Of8()
    ensures Pow2(4) == 16 && Pow2(8) == 256
  {
    assert Pow2(4) == 16;
    Pow2Add(4, 4);
  }

  lemma Pow2Of16()
    ensures Pow2(16) == 0x1_0000
  {
    Pow2Of8();
    Pow2Add(8, 8);
  }

  lemma Pow2Of32()
    ensures Pow2(32) == 0x1_0000_0000
  {
    Pow2Of16();
    Square(Pow2(16), 0x1_0000);
    Pow2Add(16, 16);
  }

  lemma Square(x: nat, y: nat)
    requires x == y
    ensures x * x == y * y
  {
  }

  lemma Pow2Increases(m: nat, n: nat)
    requires m <= n
    ensures Pow2(m) <= Pow2(n)
    decreases n
  {
  }

  lemma {:induction false} ValueOfExpand(v: nat, n: nat)
    requires v < Pow2(n)
    ensures Value(Expand(v, n)) == v
  {
    if n > 0 {
      ValueOfExpand(v / 2, n - 1);
      assert Expand(v, n)[..n - 1] == Expand(v / 2, n - 1);
    }
  }

  lemma {:induction false} ExpandOfValue(b: seq<bool>)
    ensures Value(b) < Pow2(|b|)
    ensures Expand(Value(b), |b|) == b
  {
    if b != [] {
      ExpandOfValue(b[..|b| - 1]);
      assert b[..|b| - 1] + [b[|b| - 1]] == b;
    }
  }

  /** Shifting c left by n and putting v in the n freed bits concatenates the bit strings. */
  lemma {:induction false} ExpandShift(c: nat, m: nat, v: nat, n: nat)
    requires v < Pow2(n)
    ensures Expand(c * Pow2(n) + v, m + n) == Expand(c, m) + Expand(v, n)
  {
    if n == 0 {
      assert Expand(c, m) + Expand(v, n) == Expand(c, m);
    } else {
      ExpandShift(c, m, v / 2, n - 1);
      var w := c * Pow2(n) + v;
      assert w == 2 * (c * Pow2(n - 1)) + v;
      assert w / 2 == c * Pow2(n - 1) + v / 2 && w % 2 == v % 2;
      assert Expand(c, m) + Expand(v, n) == Expand(c, m) + Expand(v / 2, n - 1) + [v % 2 == 1];
    }
  }

  lemma HalfOfLow(c: nat, k: nat)
    requires k > 0
    ensures c % Pow2(k) / 2 == c / 2 % Pow2(k - 1) && c % Pow2(k) % 2 == c % 2
  {
    var p := Pow2(k - 1);
    var q, r := c / 2 / p, c / 2 % p;
    assert c == 2 * (q * p + r) + c % 2;
    assert c == q * (2 * p) + (2 * r + c % 2);
    ModUnique(c, 2 * p, q, 2 * r + c % 2);
  }

  lemma DivModIdentity(c: nat, d: nat)
    requires d > 0
    ensures c == c / d * d + c % d && 0 <= c / d && c % d < d
  {
  }

  lemma ModUnique(c: nat, d: nat, q: nat, r: nat)
    requires d > 0 && r < d && c == q * d + r
    ensures c % d == r
  {
    assert (c / d - q) * d == r - c % d;
    SmallMultiple(c / d - q, d);
  }

  lemma SmallMultiple(x: int, d: int)
    requires d >= 0
    ensures -d < x * d < d ==> x == 0
  {
    if x >= 1 {
      assert x * d >= d;
    } else if x <= -1 {
      assert x * d <= -d;
    }
  }

  /** Only the low n bits of a number matter to its n-bit expansion. */
  lemma {:induction false} ExpandLow(c: nat, k: nat, n: nat)
    requires n <= k
    ensures Expand(c % Pow2(k), n) == Expand(c, n)
  {
    if n > 0 {
      HalfOfLow(c, k);
      ExpandLow(c / 2, k - 1, n - 1);
    }
  }

  lemma {:induction false} ExpandSplit(c: nat, m: nat, n: nat)
    ensures Expand(c, m + n) == Expand(Shr(c, n), m) + Expand(c, n)
  {
    if n > 0 {
      ExpandSplit(c / 2, m, n - 1);
    }
  }

  /** Bit j of an n-bit expansion, as the source's shift-and-mask reads it. */
  lemma ExpandAt(v: nat, n: nat, j: nat)
    requires j < n
    ensures Expand(v, n)[j] == (Shr(v, n - 1 - j) % 2 == 1)
  {
    ExpandSplit(v, j + 1, n - 1 - j);
    assert Expand(v, n)[j] == Expand(Shr(v, n - 1 - j), j + 1)[j];
  }

  lemma {:induction false} BytesBitsConcat(a: seq<byte>, b: seq<byte>)
    ensures BytesBits(a + b) == BytesBits(a) + BytesBits(b)
  {
    if b == [] {
      assert a + b == a;
    } else {
      BytesBitsConcat(a, b[..|b| - 1]);
      assert (a + b)[..|a + b| - 1] == a + b[..|b| - 1];
    }
  }

  lemma BytesBitsPrefix(data: seq<byte>, k: nat)
    requires k <= |data|
    ensures BytesBits(data) == BytesBits(data[..k]) + BytesBits(data[k..])
  {
    hide Expand, BytesBits;
    BytesBitsConcat(data[..k], data[k..]);
    assert data == data[..k] + data[k..];
  }

  lemma BytesBitsSingle(b: byte)
    ensures BytesBits([b]) == Expand(b, 8)
  {
    assert [b][..0] == [];
    assert BytesBits([b]) == BytesBits([]) + Expand(b, 8);
  }

  /** The bits of byte k. */
  lemma BytesBitsByte(data: seq<byte>, k: nat)
    requires k < |data|
    ensures BytesBits(data)[8 * k..8 * k + 8] == Expand(data[k], 8)
  {
    hide Expand, BytesBits;
    BytesBitsPrefix(data, k);
    BytesBitsPrefix(data[k..], 1);
    assert data[k..][..1] == [data[k]];
    BytesBitsSingle(data[k]);
  }

  /** Byte strings with the same bits are the same. */
  lemma {:induction false} BytesBitsInjective(a: seq<byte>, b: seq<byte>)
    requires BytesBits(a) == BytesBits(b)
    ensures a == b
  {
    assert |a| == |b|;
    forall k | 0 <= k < |a| ensures a[k] == b[k] {
      BytesBitsByte(a, k);
      BytesBitsByte(b, k);
      assert Pow2(8) == 256;
      ValueOfExpand(a[k], 8);
      ValueOfExpand(b[k], 8);
    }
  }

  lemma {:induction false} ExpandZero(n: nat)
    ensures Expand(0, n) == Zeros(n)
  {
    if n > 0 {
      ExpandZero(n - 1);
    }
  }

  /** A byte made of two half bytes. */
  lemma TwoNibbles(u: nat, v: nat)
    requires u < 16 && v < 16
    ensures Expand(u * 16 + v, 8) == Expand(u, 4) + Expand(v, 4)
  {
    hide Expand, Pow2;
    Pow2Of8();
    ExpandShift(u, 4, v, 4);
  }
}
