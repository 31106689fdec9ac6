/** Quantising a subband sample to a code of b bits, and back. `scale` is the scale factor s; a
    sample of the packer has 16 more fractional bits than a sample of the unpacker. */
module Quantizer {
  import opened Bits

  const MAX_SCALE := 15

  /** One unit of the unpacker in units of the packer. */
  const UNIT: nat := 0x1_0000

  /** Conversion to uint32_t. */
  function Uint32(x: int): nat {
    x % WORD
  }

  /** Conversion of a uint32_t to int32_t. */
  function Int32(x: nat): int {
    if x < 0x8000_0000 then x else x - WORD
  }

  function Abs(x: int): nat {
    if x < 0 then -x else x
  }

  function Levels(bits: nat): nat {
    Pow2(bits) - 1
  }

  /** The packer's code: (levels * (delta + sample)) >> 32 with 32-bit levels and sum. */
  function Quantise(bits: nat, scale: nat, sample: int): nat
    requires scale <= MAX_SCALE
  {
    Uint32(Levels(bits) * Pow2(MAX_SCALE - scale)) * Uint32(Pow2(scale + 16) + sample) / WORD
  }

  /** The unpacker's sample for a code, in 32-bit arithmetic: the numerator and the quotient are
      unsigned, the result is stored in an int32_t. */
  function Dequantise(bits: nat, scale: nat, code: nat): int
    requires bits > 0
  {
    assert Pow2(bits) >= 2;
    Reconstruct(Numerator(code, Pow2(scale)), Levels(bits), Pow2(scale))
  }

  function Numerator(code: nat, p: nat): nat {
    (2 * code + 1) * p
  }

  function Reconstruct(numerator: nat, levels: nat, offset: nat): int
    requires levels > 0
  {
    Int32(Uint32(Uint32(numerator) / levels - offset))
  }

  // ----- no operation overflows

  lemma Pow2Bound(n: nat, k: nat)
    requires n <= k
    ensures 1 <= Pow2(n) <= Pow2(k)
  {
    Pow2Increases(n, k);
  }

  lemma QuantiseExact(bits: nat, scale: nat, sample: int)
    requires bits <= MAX_BITS && scale <= MAX_SCALE
    requires Abs(sample) <= Pow2(scale + 16) && sample < Pow2(scale + 16)
    ensures 0 <= Levels(bits) * Pow2(MAX_SCALE - scale) < WORD
    ensures 0 <= Pow2(scale + 16) + sample < WORD
    ensures Levels(bits) * Pow2(MAX_SCALE - scale) * (Pow2(scale + 16) + sample) < WORD * WORD
    ensures Quantise(bits, scale, sample) == Levels(bits) * (Pow2(scale + 16) + sample) / Pow2(scale + 17)
  {
    LevelsBound(bits);
    ScaleBound(MAX_SCALE - scale);
    assert Pow2(scale + 17) == 2 * Pow2(scale + 16);
    var l, p, sum := Levels(bits), Pow2(MAX_SCALE - scale), Pow2(scale + 16) + sample;
    MulBound(l, 0xFFFF, p, 0x8000);
    SumBound(scale, sample);
    MulBound(l * p, 0xFFFF * 0x8000, sum, WORD);
    Pow2Add(MAX_SCALE - scale, scale + 17);
    Pow2Of32();
    QuantiseCore(l, p, sum, Pow2(scale + 17));
  }

  lemma QuantiseCore(l: nat, p: nat, sum: nat, d: nat)
    requires p > 0 && d > 0 && p * d == WORD && 0 <= l * p < WORD && sum < WORD
    ensures Uint32(l * p) * Uint32(sum) / WORD == l * sum / d
  {
    MulRegroup(l, p, sum);
    DivCancel(p, l * sum, d);
  }

  lemma SumBound(scale: nat, sample: int)
    requires scale <= MAX_SCALE && Abs(sample) <= Pow2(scale + 16) && sample < Pow2(scale + 16)
    ensures 0 <= Pow2(scale + 16) + sample < WORD
  {
    Pow2Of32();
    Pow2Bound(scale + 17, 32);
    assert Pow2(scale + 17) == 2 * Pow2(scale + 16);
  }

  lemma MulRegroup(a: int, b: int, c: int)
    ensures a * b * c == b * (a * c)
  {
  }

  lemma MulBound(a: nat, x: nat, b: nat, y: nat)
    requires a <= x && b <= y
    ensures 0 <= a * b <= x * y
  {
    assert a * b <= x * b <= x * y;
  }

  lemma DivCancel(p: nat, a: nat, b: nat)
    requires p > 0 && b > 0
    ensures p * b > 0 && (p * a) / (p * b) == a / b
  {
    var q, r := a / b, a % b;
    assert a == q * b + r;
    assert p * a == q * (p * b) + p * r;
    assert 0 <= p * r < p * b;
    DivUnique(p * a, p * b, q, p * r);
  }

  lemma DivUnique(c: nat, d: nat, q: nat, r: nat)
    requires d > 0 && r < d && c == q * d + r
    ensures c / d == q
  {
    ModUnique(c, d, q, r);
    assert (c / d - q) * d == 0;
    SmallMultiple(c / d - q, d);
  }

  lemma DequantiseExact(bits: nat, scale: nat, code: nat)
    requires 0 < bits <= MAX_BITS && scale <= MAX_SCALE && code < Pow2(bits)
    ensures Numerator(code, Pow2(scale)) < WORD
    ensures Dequantise(bits, scale, code) == Numerator(code, Pow2(scale)) / Levels(bits) - Pow2(scale)
    ensures 0 <= Pow2(scale) + Dequantise(bits, scale, code) <= 3 * Pow2(scale)
  {
    hide Pow2, Reconstruct, Numerator, Levels, WORD;
    CodeBelowLevels(bits, code);
    LevelsBound(bits);
    ScaleBound(scale);
    DequantiseCore(code, Levels(bits), Pow2(scale));
  }

  lemma CodeBelowLevels(bits: nat, code: nat)
    requires code < Pow2(bits)
    ensures code <= Levels(bits)
  {
  }

  lemma LevelsBound(bits: nat)
    requires bits <= MAX_BITS
    ensures 0 <= Levels(bits) <= 0xFFFF && (bits > 0 ==> Levels(bits) > 0)
  {
    Pow2Of16();
    Pow2Bound(bits, 16);
    assert bits > 0 ==> Pow2(bits) == 2 * Pow2(bits - 1);
  }

  lemma ScaleBound(scale: nat)
    requires scale <= MAX_SCALE
    ensures Pow2(scale) <= 0x8000
  {
    Pow2Of16();
    Pow2Bound(scale, 15);
    assert Pow2(16) == 2 * Pow2(15);
  }

  lemma DequantiseCore(code: nat, l: nat, p: nat)
    requires 0 < l <= 0xFFFF && code <= l && p <= 0x8000
    ensures var num := Numerator(code, p);
      && 0 <= num < WORD && 0 <= num / l <= 3 * p
      && Reconstruct(num, l, p) == num / l - p
  {
    var num := (2 * code + 1) * p;
    MulBound(2 * code + 1, 0x1_FFFF, p, 0x8000);
    MulMonotone(2 * code + 1, 3 * l, p);
    assert 3 * l * p == 3 * p * l;
    QuotientLe(num, l, 3 * p);
    NoWrap(num, l, p);
  }

  lemma QuotientLe(num: nat, l: nat, bound: int)
    requires l > 0 && num <= bound * l
    ensures 0 <= num / l <= bound
  {
    assert (bound + 1) * l == bound * l + l;
    QuotientAtMost(num, l, bound);
  }

  lemma NoWrap(num: nat, l: nat, p: nat)
    requires l > 0 && num < WORD && p <= 0x8000 && num / l <= 3 * p
    ensures Reconstruct(num, l, p) == num / l - p
  {
    assert Uint32(num) == num;
  }

  lemma MulMonotone(a: int, b: int, c: nat)
    ensures a <= b ==> a * c <= b * c
  {
  }

  lemma QuotientAtMost(num: nat, l: nat, bound: int)
    requires l > 0 && num < (bound + 1) * l
    ensures 0 <= num / l <= bound
  {
    DivModIdentity(num, l);
    MulMonotone(bound + 1, num / l, l);
  }

  // ----- the codec bound

  lemma StrictProduct(l: nat, a: nat, b: nat)
    requires l > 0 && a < b
    ensures 0 <= l * a < l * b
  {
  }

  /** The code stays below the all-ones code. */
  lemma CodeRange(bits: nat, scale: nat, sample: int)
    requires 0 < bits <= MAX_BITS && scale <= MAX_SCALE
    requires Abs(sample) < Pow2(scale + 16)
    ensures Quantise(bits, scale, sample) < Levels(bits)
  {
    QuantiseExact(bits, scale, sample);
    var l, sum, d := Levels(bits), Pow2(scale + 16) + sample, Pow2(scale + 17);
    assert l > 0 && sum < d;
    StrictProduct(l, sum, d);
    QuotientAtMost(l * sum, d, l - 1);
  }

  /** The reconstructed sample stays in the range of its scale factor, and is off by less than a
      quantisation step 2^s / (2^b - 1) plus one unit: the bound is cleared of its denominators. */
  lemma QuantiserError(bits: nat, scale: nat, sample: int)
    requires 0 < bits <= MAX_BITS && scale <= MAX_SCALE
    requires Abs(sample) < Pow2(scale + 16)
    ensures var d := Dequantise(bits, scale, Quantise(bits, scale, sample));
      && 0 <= Pow2(scale) + d < 2 * Pow2(scale)
      && 0 - UNIT * (Pow2(scale) + Levels(bits)) < Levels(bits) * (UNIT * d - sample) <= UNIT * Pow2(scale)
  {
    CodeRange(bits, scale, sample);
    QuantiseExact(bits, scale, sample);
    var code := Quantise(bits, scale, sample);
    DequantiseExact(bits, scale, code);
    Pow2Of16();
    Pow2Add(scale, 16);
    var l, p, sum := Levels(bits), Pow2(scale), Pow2(scale + 16) + sample;
    assert Pow2(scale + 17) == 2 * UNIT * p;
    ErrorAlgebra(l, p, sum, sample, code);
  }

  lemma Distribute(code: nat, l: int, p: int, q: int, sample: int)
    ensures (2 * code + 1) * p == 2 * (code * p) + p
    ensures code * (2 * UNIT * p) == 2 * UNIT * (code * p)
    ensures l * (UNIT * p + sample) == UNIT * (l * p) + l * sample
    ensures l * (UNIT * (q - p) - sample) == UNIT * (q * l) - UNIT * (l * p) - l * sample
  {
  }

  lemma ErrorAlgebra(l: nat, p: nat, sum: nat, sample: int, code: nat)
    requires l > 0 && p > 0 && sum == UNIT * p + sample && code == l * sum / (2 * UNIT * p) && code < l
    ensures var d := (2 * code + 1) * p / l - p;
      && d < p
      && 0 - UNIT * (p + l) < l * (UNIT * d - sample) <= UNIT * p
  {
    var num := (2 * code + 1) * p;
    DivModIdentity(l * sum, 2 * UNIT * p);
    DivModIdentity(num, l);
    Distribute(code, l, p, num / l, sample);
    NumeratorBound(code, l, p);
  }

  lemma NumeratorBound(code: nat, l: nat, p: nat)
    requires code < l && p > 0
    ensures (2 * code + 1) * p / l < 2 * p
  {
    MulMonotone(2 * code + 1, 2 * l - 1, p);
    assert (2 * l - 1) * p == 2 * p * l - p;
    QuotientAtMost((2 * code + 1) * p, l, 2 * p - 1);
  }

  lemma WholeQuotient(l: nat, p: nat)
    requires l > 0
    ensures l * p / l == p
  {
    assert l * p == p * l + 0;
    DivUnique(l * p, l, p, 0);
  }

  /** The middle code stands for silence. */
  lemma MiddleCodeIsZero(bits: nat, scale: nat)
    requires 0 < bits <= MAX_BITS && scale <= MAX_SCALE
    ensures Dequantise(bits, scale, Pow2(bits - 1) - 1) == 0
  {
    MiddleNumerator(bits);
    hide Pow2;
    DequantiseExact(bits, scale, Pow2(bits - 1) - 1);
    WholeQuotient(Levels(bits), Pow2(scale));
  }

  lemma MiddleNumerator(bits: nat)
    requires 0 < bits
    ensures 0 <= Pow2(bits - 1) - 1 < Pow2(bits) && 2 * (Pow2(bits - 1) - 1) + 1 == Levels(bits) > 0
  {
  }

  /** Larger samples never get smaller codes. */
  lemma QuantiseMonotone(bits: nat, scale: nat, a: int, b: int)
    requires bits <= MAX_BITS && scale <= MAX_SCALE
    requires Abs(a) <= Pow2(scale + 16) && a <= b < Pow2(scale + 16)
    ensures Quantise(bits, scale, a) <= Quantise(bits, scale, b)
  {
    QuantiseExact(bits, scale, a);
    QuantiseExact(bits, scale, b);
    QuotientMonotone(Levels(bits), Pow2(scale + 16) + a, Pow2(scale + 16) + b, Pow2(scale + 17));
  }

  lemma QuotientMonotone(l: nat, a: nat, b: nat, d: nat)
    requires d > 0 && a <= b
    ensures l * a / d <= l * b / d
  {
    MulMonotone(a, b, l);
    DivModIdentity(l * b, d);
    assert (l * b / d + 1) * d == l * b / d * d + d;
    QuotientAtMost(l * a, d, l * b / d);
  }
}
