/** The CRC-8 of the SBC frame header: the byte-table loop of the source against the bit-serial
    shift register, and the error bursts it is certain to detect. */
module Crc8 {
  import opened Bits

  /** An eight-bit shift register, most significant bit first. */
  type Register = s: seq<bool> | |s| == 8 witness Zeros(8)

  /** x^4 + x^3 + x^2 + 1: the polynomial of the CRC without its leading x^8. */
  const POLYNOMIAL: Register := [false, false, false, true, true, true, false, true]

  /** One step: shift left, and add the polynomial when the bit shifted out and the input differ. */
  function Step(c: Register, bit: bool): Register {
    seq(8, k requires 0 <= k < 8 => (k < 7 && c[k + 1]) != (c[0] != bit && POLYNOMIAL[k]))
  }

  /** The register after a bit string: the definition of the CRC. */
  function Serial(c: Register, bits: seq<bool>): Register
    decreases bits
  {
    if bits == [] then c else Serial(Step(c, bits[0]), bits[1..])
  }

  /** 0x0F */
  const INITIAL: Register := [false, false, false, false, true, true, true, true]
  const ZERO: Register := Zeros(8)

  function ToByte(c: Register): byte {
    ExpandOfValue(c);
    assert Pow2(8) == 256;
    Value(c)
  }

  /** The CRC-8 of a bit string, as the byte stored in the frame. */
  function Checksum(bits: seq<bool>): byte {
    ToByte(Serial(INITIAL, bits))
  }

  // ----- the source's table, sixteen entries a row

  /** The entry of a row that the low four bits of x select. */
  function Pick(x: bv8, v0: bv8, v1: bv8, v2: bv8, v3: bv8, v4: bv8, v5: bv8, v6: bv8, v7: bv8, v8: bv8, v9: bv8, v10: bv8, v11: bv8, v12: bv8, v13: bv8, v14: bv8, v15: bv8): bv8 {
    (if x & 0x8 != 0 then (if x & 0x4 != 0 then (if x & 0x2 != 0 then (if x & 0x1 != 0 then v15 else v14) else (if x & 0x1 != 0 then v13 else v12)) else (if x & 0x2 != 0 then (if x & 0x1 != 0 then v11 else v10) else (if x & 0x1 != 0 then v9 else v8))) else (if x & 0x4 != 0 then (if x & 0x2 != 0 then (if x & 0x1 != 0 then v7 else v6) else (if x & 0x1 != 0 then v5 else v4)) else (if x & 0x2 != 0 then (if x & 0x1 != 0 then v3 else v2) else (if x & 0x1 != 0 then v1 else v0))))
  }

  /** crc_table. */
  function CrcTable(x: bv8): bv8 {
    match x >> 4
    case 0 => Pick(x, 0x00, 0x1D, 0x3A, 0x27, 0x74, 0x69, 0x4E, 0x53, 0xE8, 0xF5, 0xD2, 0xCF, 0x9C, 0x81, 0xA6, 0xBB)
    case 1 => Pick(x, 0xCD, 0xD0, 0xF7, 0xEA, 0xB9, 0xA4, 0x83, 0x9E, 0x25, 0x38, 0x1F, 0x02, 0x51, 0x4C, 0x6B, 0x76)
    case 2 => Pick(x, 0x87, 0x9A, 0xBD, 0xA0, 0xF3, 0xEE, 0xC9, 0xD4, 0x6F, 0x72, 0x55, 0x48, 0x1B, 0x06, 0x21, 0x3C)
    case 3 => Pick(x, 0x4A, 0x57, 0x70, 0x6D, 0x3E, 0x23, 0x04, 0x19, 0xA2, 0xBF, 0x98, 0x85, 0xD6, 0xCB, 0xEC, 0xF1)
    case 4 => Pick(x, 0x13, 0x0E, 0x29, 0x34, 0x67, 0x7A, 0x5D, 0x40, 0xFB, 0xE6, 0xC1, 0xDC, 0x8F, 0x92, 0xB5, 0xA8)
    case 5 => Pick(x, 0xDE, 0xC3, 0xE4, 0xF9, 0xAA, 0xB7, 0x90, 0x8D, 0x36, 0x2B, 0x0C, 0x11, 0x42, 0x5F, 0x78, 0x65)
    case 6 => Pick(x, 0x94, 0x89, 0xAE, 0xB3, 0xE0, 0xFD, 0xDA, 0xC7, 0x7C, 0x61, 0x46, 0x5B, 0x08, 0x15, 0x32, 0x2F)
    case 7 => Pick(x, 0x59, 0x44, 0x63, 0x7E, 0x2D, 0x30, 0x17, 0x0A, 0xB1, 0xAC, 0x8B, 0x96, 0xC5, 0xD8, 0xFF, 0xE2)
    case 8 => Pick(x, 0x26, 0x3B, 0x1C, 0x01, 0x52, 0x4F, 0x68, 0x75, 0xCE, 0xD3, 0xF4, 0xE9, 0xBA, 0xA7, 0x80, 0x9D)
    case 9 => Pick(x, 0xEB, 0xF6, 0xD1, 0xCC, 0x9F, 0x82, 0xA5, 0xB8, 0x03, 0x1E, 0x39, 0x24, 0x77, 0x6A, 0x4D, 0x50)
    case 10 => Pick(x, 0xA1, 0xBC, 0x9B, 0x86, 0xD5, 0xC8, 0xEF, 0xF2, 0x49, 0x54, 0x73, 0x6E, 0x3D, 0x20, 0x07, 0x1A)
    case 11 => Pick(x, 0x6C, 0x71, 0x56, 0x4B, 0x18, 0x05, 0x22, 0x3F, 0x84, 0x99, 0xBE, 0xA3, 0xF0, 0xED, 0xCA, 0xD7)
    case 12 => Pick(x, 0x35, 0x28, 0x0F, 0x12, 0x41, 0x5C, 0x7B, 0x66, 0xDD, 0xC0, 0xE7, 0xFA, 0xA9, 0xB4, 0x93, 0x8E)
    case 13 => Pick(x, 0xF8, 0xE5, 0xC2, 0xDF, 0x8C, 0x91, 0xB6, 0xAB, 0x10, 0x0D, 0x2A, 0x37, 0x64, 0x79, 0x5E, 0x43)
    case 14 => Pick(x, 0xB2, 0xAF, 0x88, 0x95, 0xC6, 0xDB, 0xFC, 0xE1, 0x5A, 0x47, 0x60, 0x7D, 0x2E, 0x33, 0x14, 0x09)
    case _ => Pick(x, 0x7F, 0x62, 0x45, 0x58, 0x0B, 0x16, 0x31, 0x2C, 0x97, 0x8A, 0xAD, 0xB0, 0xE3, 0xFE, 0xD9, 0xC4)
  }

  // ----- the source's uint8_t variables

  function Bit(x: bv8, mask: bv8): bool {
    x & mask != 0
  }

  function Mask(k: nat): bv8 {
    if k == 0 then 0x80 else if k == 1 then 0x40 else if k == 2 then 0x20 else if k == 3 then 0x10
    else if k == 4 then 0x08 else if k == 5 then 0x04 else if k == 6 then 0x02 else 0x01
  }

  function Repr(x: bv8): Register {
    seq(8, k requires 0 <= k < 8 => Bit(x, Mask(k)))
  }

  function FromBools(b7: bool, b6: bool, b5: bool, b4: bool, b3: bool, b2: bool, b1: bool, b0: bool): bv8 {
    (if b7 then 0x80 else 0) | (if b6 then 0x40 else 0) | (if b5 then 0x20 else 0) | (if b4 then 0x10 else 0)
    | (if b3 then 0x08 else 0) | (if b2 then 0x04 else 0) | (if b1 then 0x02 else 0) | (if b0 then 0x01 else 0)
  }

  function FromBits(s: Register): bv8 {
    FromBools(s[0], s[1], s[2], s[3], s[4], s[5], s[6], s[7])
  }

  function FromByte(b: byte): bv8 {
    FromBits(Expand(b, 8))
  }

  lemma BitsOfBools(b7: bool, b6: bool, b5: bool, b4: bool, b3: bool, b2: bool, b1: bool, b0: bool)
    ensures var x := FromBools(b7, b6, b5, b4, b3, b2, b1, b0);
      && Bit(x, 0x80) == b7 && Bit(x, 0x40) == b6 && Bit(x, 0x20) == b5 && Bit(x, 0x10) == b4
      && Bit(x, 0x08) == b3 && Bit(x, 0x04) == b2 && Bit(x, 0x02) == b1 && Bit(x, 0x01) == b0
  {
  }

  lemma BitOfBits(s: Register, k: nat)
    requires k < 8
    ensures Bit(FromBits(s), Mask(k)) == s[k]
  {
    hide FromBools, Bit;
    BitsOfBools(s[0], s[1], s[2], s[3], s[4], s[5], s[6], s[7]);
  }

  lemma ReprFromBits(s: Register)
    ensures Repr(FromBits(s)) == s
  {
    hide FromBits, Bit, Mask;
    forall k: nat | k < 8 ensures Bit(FromBits(s), Mask(k)) == s[k] {
      BitOfBits(s, k);
    }
  }

  lemma ReprShift(x: bv8)
    ensures Repr(x << 1) == Repr(x)[1..] + [false]
  {
    forall k: nat | k < 8 ensures Bit(x << 1, Mask(k)) == (k < 7 && Bit(x, Mask(k + 1))) {
      BitOfShift(x, k);
    }
  }

  lemma BitOfShift(x: bv8, k: nat)
    requires k < 8
    ensures Bit(x << 1, Mask(k)) == (k < 7 && Bit(x, Mask(k + 1)))
  {
  }

  function Xor(c: Register, d: Register): Register {
    seq(8, k requires 0 <= k < 8 => c[k] != d[k])
  }

  lemma BitOfXor(x: bv8, y: bv8, k: nat)
    ensures Bit(x ^ y, Mask(k)) == (Bit(x, Mask(k)) != Bit(y, Mask(k)))
  {
  }

  lemma ReprXor(x: bv8, y: bv8)
    ensures Repr(x ^ y) == Xor(Repr(x), Repr(y))
  {
    hide Bit, Mask;
    forall k: nat | k < 8 ensures Repr(x ^ y)[k] == Xor(Repr(x), Repr(y))[k] {
      BitOfXor(x, y, k);
    }
  }

  lemma StepIsLinear(c: Register, d: Register, x: bool, y: bool)
    ensures Step(Xor(c, d), x != y) == Xor(Step(c, x), Step(d, y))
  {
  }

  lemma StepShiftsOut(c: Register)
    ensures Step(c, c[0]) == c[1..] + [false]
  {
  }

  // ----- the table is the shift register, eight steps at a time

  /** n steps with no input. */
  function ZeroSteps(c: Register, n: nat): Register
    decreases n
  {
    if n == 0 then c else ZeroSteps(Step(c, false), n - 1)
  }

  /** Feeding up to eight bits is the same as adding them to the register first. */
  lemma {:induction false} SerialMerge(c: Register, s: seq<bool>)
    requires |s| <= 8
    ensures Serial(c, s) == ZeroSteps(Xor(c, s + Zeros(8 - |s|)), |s|)
    decreases s
  {
    var t := s + Zeros(8 - |s|);
    if s == [] {
      assert Xor(c, t) == c;
    } else {
      var u := s[1..] + Zeros(9 - |s|);
      assert t[1..] + [false] == u;
      StepIsLinear(c, t, s[0], s[0]);
      StepShiftsOut(t);
      SerialMerge(Step(c, s[0]), s[1..]);
    }
  }

  /** The register update of the source's bit loop, on the top bit of octet. */
  function BitUpdate(reg: bv8, top: bool): bv8 {
    ((reg & 0x7F) << 1) ^ (if Bit(reg, 0x80) != top then 0x1D else 0)
  }

  lemma BitsOfUpdate(x: bv8, top: bool)
    ensures var (y, f) := (BitUpdate(x, top), Bit(x, 0x80) != top);
      && Bit(y, 0x80) == Bit(x, 0x40) && Bit(y, 0x40) == Bit(x, 0x20)
      && Bit(y, 0x20) == Bit(x, 0x10) && Bit(y, 0x10) == (Bit(x, 0x08) != f)
      && Bit(y, 0x08) == (Bit(x, 0x04) != f) && Bit(y, 0x04) == (Bit(x, 0x02) != f)
      && Bit(y, 0x02) == Bit(x, 0x01) && Bit(y, 0x01) == f
  {
  }

  lemma BitUpdateAt(x: bv8, top: bool, k: nat)
    requires k < 8
    ensures Bit(BitUpdate(x, top), Mask(k)) == ((k < 7 && Bit(x, Mask(k + 1))) != (Bit(x, 0x80) != top && POLYNOMIAL[k]))
  {
    BitsOfUpdate(x, top);
  }

  lemma BitUpdateIsStep(x: bv8, top: bool)
    ensures Repr(BitUpdate(x, top)) == Step(Repr(x), top)
  {
    forall k: nat | k < 8 ensures Repr(BitUpdate(x, top))[k] == Step(Repr(x), top)[k] {
      BitUpdateAt(x, top, k);
    }
  }

  function FourUpdates(x: bv8): bv8 {
    BitUpdate(BitUpdate(BitUpdate(BitUpdate(x, false), false), false), false)
  }

  /** What a byte does to a zero register: the sum of what its bits do. */
  function Spread(x: bv8): bv8 {
    (if x & 0x01 != 0 then 0x1D else 0) ^ (if x & 0x02 != 0 then 0x3A else 0)
    ^ (if x & 0x04 != 0 then 0x74 else 0) ^ (if x & 0x08 != 0 then 0xE8 else 0)
    ^ (if x & 0x10 != 0 then 0xCD else 0) ^ (if x & 0x20 != 0 then 0x87 else 0)
    ^ (if x & 0x40 != 0 then 0x13 else 0) ^ (if x & 0x80 != 0 then 0x26 else 0)
  }

  lemma TableIsSpread(x: bv8)
    ensures CrcTable(x) == Spread(x)
  {
  }

  /** What four updates do: the low half moves up, and each bit of the high half leaves its part. */
  function HalfSpread(x: bv8): bv8 {
    (x << 4) ^ (if x & 0x10 != 0 then 0x1D else 0) ^ (if x & 0x20 != 0 then 0x3A else 0)
    ^ (if x & 0x40 != 0 then 0x74 else 0) ^ (if x & 0x80 != 0 then 0xE8 else 0)
  }

  lemma HalfSpreadIsUpdates(x: bv8)
    ensures FourUpdates(x) == HalfSpread(x)
  {
  }

  lemma SpreadInHalves(x: bv8)
    ensures HalfSpread(HalfSpread(x)) == Spread(x)
  {
  }

  lemma SpreadIsUpdates(x: bv8)
    ensures FourUpdates(FourUpdates(x)) == Spread(x)
  {
    hide FourUpdates, HalfSpread, Spread;
    HalfSpreadIsUpdates(x);
    HalfSpreadIsUpdates(HalfSpread(x));
    SpreadInHalves(x);
  }

  lemma FourSteps(x: bv8, n: nat)
    ensures ZeroSteps(Repr(x), n + 4)
         == ZeroSteps(Repr(FourUpdates(x)), n)
  {
    var x1 := BitUpdate(x, false);
    var x2 := BitUpdate(x1, false);
    var x3 := BitUpdate(x2, false);
    BitUpdateIsStep(x, false);
    BitUpdateIsStep(x1, false);
    BitUpdateIsStep(x2, false);
    BitUpdateIsStep(x3, false);
    assert ZeroSteps(Repr(x), n + 4) == ZeroSteps(Repr(x1), n + 3) == ZeroSteps(Repr(x2), n + 2);
    assert ZeroSteps(Repr(x2), n + 2) == ZeroSteps(Repr(x3), n + 1);
  }

  lemma TableIsSteps(x: bv8)
    ensures Repr(CrcTable(x)) == ZeroSteps(Repr(x), 8)
  {
    hide FourUpdates, Repr, Spread, CrcTable, Step;
    FourSteps(x, 4);
    FourSteps(FourUpdates(x), 0);
    SpreadIsUpdates(x);
    TableIsSpread(x);
  }

  /** One lookup in the table is eight steps of the shift register. */
  lemma TableLookup(c: bv8, b: byte)
    ensures Repr(CrcTable(c ^ FromByte(b))) == Serial(Repr(c), Expand(b, 8))
  {
    hide Repr, FromBits, CrcTable, Step, Expand;
    var s := Expand(b, 8);
    SerialMerge(Repr(c), s);
    assert s + Zeros(0) == s;
    ReprXor(c, FromByte(b));
    ReprFromBits(s);
    TableIsSteps(c ^ FromByte(b));
  }

  lemma {:induction false} SerialConcat(c: Register, a: seq<bool>, b: seq<bool>)
    ensures Serial(c, a + b) == Serial(Serial(c, a), b)
    decreases a
  {
    if a == [] {
      assert a + b == b;
    } else {
      SerialConcat(Step(c, a[0]), a[1..], b);
      assert (a + b)[1..] == a[1..] + b;
    }
  }

  lemma SerialSnoc(c: Register, a: seq<bool>, bit: bool)
    ensures Serial(c, a + [bit]) == Step(Serial(c, a), bit)
  {
    SerialConcat(c, a, [bit]);
    assert [bit][1..] == [];
  }

  /** The body of the source's bit loop. */
  function BitLoopBody(reg: bv8, octet: bv8): bv8 {
    var bit := Bit(octet ^ reg, 0x80);
    ((reg & 0x7F) << 1) ^ (if bit then 0x1D else 0)
  }

  lemma BitLoopBodyIsStep(reg: bv8, octet: bv8)
    ensures Repr(BitLoopBody(reg, octet)) == Step(Repr(reg), Repr(octet)[0])
  {
    BitOfXor(octet, reg, 0);
    assert Mask(0) == 0x80;
    var top := Bit(octet, 0x80);
    assert BitLoopBody(reg, octet) == BitUpdate(reg, top);
    BitUpdateIsStep(reg, top);
  }

  lemma TailStep(octet: bv8, bits: Register, j: nat)
    requires j < 8 && Repr(octet) == bits[j..] + Zeros(j)
    ensures Repr(octet)[0] == bits[j]
    ensures Repr(octet << 1) == bits[j + 1..] + Zeros(j + 1)
  {
    ReprShift(octet);
    assert (bits[j..] + Zeros(j))[1..] + [false] == bits[j + 1..] + Zeros(j + 1);
  }

  lemma SerialTake(c: Register, bits: seq<bool>, j: nat)
    requires j < |bits|
    ensures Serial(c, bits[..j + 1]) == Step(Serial(c, bits[..j]), bits[j])
  {
    SerialSnoc(c, bits[..j], bits[j]);
    assert bits[..j + 1] == bits[..j] + [bits[j]];
  }

  /** The last bits of the checksum, taken one by one from the top of the last byte. */
  method CrcTail(start: bv8, last: bv8, n: nat) returns (reg: bv8)
    requires n < 8
    ensures Repr(reg) == Serial(Repr(start), Repr(last)[..n])
  {
    ghost var bits := Repr(last);
    var octet := last;
    reg := start;
    assert bits[0..] + Zeros(0) == bits;
    for j := 0 to n
      invariant Repr(reg) == Serial(Repr(start), bits[..j])
      invariant Repr(octet) == bits[j..] + Zeros(j)
    {
      BitLoopBodyIsStep(reg, octet);
      TailStep(octet, bits, j);
      SerialTake(Repr(start), bits, j);
      reg := BitLoopBody(reg, octet);
      octet := octet << 1;
    }
  }

  lemma SerialExtend(c: Register, bits: seq<bool>, i: nat, s: seq<bool>)
    requires i + |s| <= |bits| && bits[i..i + |s|] == s
    ensures Serial(Serial(c, bits[..i]), s) == Serial(c, bits[..i + |s|])
  {
    SerialConcat(c, bits[..i], s);
    assert bits[..i + |s|] == bits[..i] + s;
  }

  /** One round of the byte loop. */
  method LookUp(reg: bv8, b: byte) returns (next: bv8)
    ensures Repr(next) == Serial(Repr(reg), Expand(b, 8))
  {
    TableLookup(reg, b);
    next := CrcTable(reg ^ FromByte(b));
  }

  method Octet(b: byte) returns (octet: bv8)
    ensures Repr(octet) == Expand(b, 8)
  {
    ReprFromBits(Expand(b, 8));
    octet := FromByte(b);
  }

  method Start() returns (reg: bv8)
    ensures Repr(reg) == INITIAL
  {
    reg := 0x0F;
  }

  lemma WholeByte(c: Register, data: seq<byte>, i: nat)
    requires i < |data|
    ensures Serial(Serial(c, BytesBits(data)[..8 * i]), Expand(data[i], 8)) == Serial(c, BytesBits(data)[..8 * i + 8])
  {
    BytesBitsByte(data, i);
    SerialExtend(c, BytesBits(data), 8 * i, Expand(data[i], 8));
  }

  lemma PartByte(c: Register, data: seq<byte>, i: nat, n: nat)
    requires i < |data| && n < 8
    ensures Serial(Serial(c, BytesBits(data)[..8 * i]), Expand(data[i], 8)[..n]) == Serial(c, BytesBits(data)[..8 * i + n])
  {
    BytesBitsByte(data, i);
    var s := Expand(data[i], 8)[..n];
    assert BytesBits(data)[8 * i..8 * i + n] == BytesBits(data)[8 * i..8 * i + 8][..n];
    SerialExtend(c, BytesBits(data), 8 * i, s);
  }

  /** CRC-8 of the first `len` bits of data: whole bytes through the table, the rest bit by bit. */
  method Crc(data: seq<byte>, len: nat) returns (crc: byte)
    requires len <= 8 * |data|
    ensures crc == Checksum(BytesBits(data)[..len])
  {
    var reg := Start();
    var i := 0;
    while i < len / 8
      invariant i <= len / 8
      invariant Repr(reg) == Serial(INITIAL, BytesBits(data)[..8 * i])
    {
      WholeByte(INITIAL, data, i);
      reg := LookUp(reg, data[i]);
      i := i + 1;
    }
    if len % 8 != 0 {
      PartByte(INITIAL, data, i, len % 8);
      var octet := Octet(data[i]);
      reg := CrcTail(reg, octet, len % 8);
    }
    crc := ToByte(Repr(reg));
  }

  // ----- error detection

  function Difference(a: seq<bool>, b: seq<bool>): (r: seq<bool>)
    requires |a| == |b|
    ensures |r| == |a|
  {
    seq(|a|, k requires 0 <= k < |a| => a[k] != b[k])
  }

  /** Registers fed two bit strings differ by the register fed their difference. */
  lemma {:induction false} SerialIsLinear(c: Register, d: Register, a: seq<bool>, b: seq<bool>)
    requires |a| == |b|
    ensures Serial(Xor(c, d), Difference(a, b)) == Xor(Serial(c, a), Serial(d, b))
    decreases a
  {
    if a != [] {
      var x := Difference(a, b);
      StepIsLinear(c, d, a[0], b[0]);
      assert x[1..] == Difference(a[1..], b[1..]);
      SerialIsLinear(Step(c, a[0]), Step(d, b[0]), a[1..], b[1..]);
    }
  }

  lemma StepKeepsNonzero(c: Register)
    ensures Step(c, false) == ZERO <==> c == ZERO
  {
    if Step(c, false) == ZERO {
      assert !Step(c, false)[7];
      forall k | 0 <= k < 8 ensures !c[k] {
        assert k > 0 ==> !Step(c, false)[k - 1];
      }
    }
  }

  lemma {:induction false} SerialZeros(c: Register, n: nat)
    ensures Serial(c, Zeros(n)) == ZERO <==> c == ZERO
    decreases n
  {
    if n > 0 {
      StepKeepsNonzero(c);
      SerialZeros(Step(c, false), n - 1);
      assert Zeros(n)[1..] == Zeros(n - 1);
    }
  }

  lemma {:induction false} ZeroStepsKeepsNonzero(c: Register, n: nat)
    ensures ZeroSteps(c, n) == ZERO ==> c == ZERO
    decreases n
  {
    if n > 0 {
      StepKeepsNonzero(c);
      ZeroStepsKeepsNonzero(Step(c, false), n - 1);
    }
  }

  lemma EightBitsFromZero(s: Register)
    requires Serial(ZERO, s) == ZERO
    ensures s == ZERO
  {
    SerialMerge(ZERO, s);
    assert s + Zeros(0) == s;
    assert Xor(ZERO, s) == s;
    ZeroStepsKeepsNonzero(s, 8);
  }

  /** Two different bit strings of equal length that agree outside eight consecutive positions
      never have the same checksum. */
  lemma BurstDetected(a: seq<bool>, b: seq<bool>, p: nat)
    requires |a| == |b| && a != b
    requires forall k :: 0 <= k < |a| && !(p <= k < p + 8) ==> a[k] == b[k]
    ensures Checksum(a) != Checksum(b)
  {
    if Checksum(a) == Checksum(b) {
      ToByteInjective(Serial(INITIAL, a), Serial(INITIAL, b));
      var d := Difference(a, b);
      SerialIsLinear(INITIAL, INITIAL, a, b);
      assert Xor(INITIAL, INITIAL) == ZERO;
      assert Xor(Serial(INITIAL, a), Serial(INITIAL, a)) == ZERO;
      WindowNotZero(d, if p <= |d| then p else |d|);
      forall k | 0 <= k < |a| ensures a[k] == b[k] {
        assert !d[k];
      }
    }
  }

  lemma WindowIsZero(p: nat, mid: Register, q: nat)
    requires Serial(ZERO, Zeros(p) + (mid + Zeros(q))) == ZERO
    ensures mid == ZERO
  {
    SerialConcat(ZERO, Zeros(p), mid + Zeros(q));
    SerialZeros(ZERO, p);
    SerialConcat(ZERO, mid, Zeros(q));
    SerialZeros(Serial(ZERO, mid), q);
    EightBitsFromZero(mid);
  }

  /** The window of d at p, where d is taken to continue with zeros. */
  ghost function Window(d: seq<bool>, p: nat): Register
    requires p <= |d|
  {
    seq(8, k requires 0 <= k < 8 => p + k < |d| && d[p + k])
  }

  lemma WindowSplit(d: seq<bool>, p: nat)
    requires p <= |d|
    requires forall k :: 0 <= k < |d| && !(p <= k < p + 8) ==> !d[k]
    ensures d + Zeros(8) == Zeros(p) + (Window(d, p) + Zeros(|d| - p))
  {
    var l, r := d + Zeros(8), Zeros(p) + (Window(d, p) + Zeros(|d| - p));
    forall k | 0 <= k < |l| ensures l[k] == r[k] {
      if p <= k < p + 8 {
        assert r[k] == Window(d, p)[k - p];
      }
    }
  }

  lemma ZeroWindow(d: seq<bool>, p: nat)
    requires p <= |d| && Window(d, p) == ZERO
    requires forall k :: 0 <= k < |d| && !(p <= k < p + 8) ==> !d[k]
    ensures forall k :: 0 <= k < |d| ==> !d[k]
  {
    forall k | 0 <= k < |d| ensures !d[k] {
      assert p <= k < p + 8 ==> d[k] == Window(d, p)[k - p];
    }
  }

  /** A bit string that leaves the zero register at zero and is zero outside eight consecutive
      positions is zero. */
  lemma WindowNotZero(d: seq<bool>, p: nat)
    requires p <= |d| && Serial(ZERO, d) == ZERO
    requires forall k :: 0 <= k < |d| && !(p <= k < p + 8) ==> !d[k]
    ensures forall k :: 0 <= k < |d| ==> !d[k]
  {
    assert Window(d, p) == ZERO by {
      SerialConcat(ZERO, d, Zeros(8));
      SerialZeros(ZERO, 8);
      WindowSplit(d, p);
      WindowIsZero(p, Window(d, p), |d| - p);
    }
    ZeroWindow(d, p);
  }

  lemma ToByteInjective(c: Register, d: Register)
    requires ToByte(c) == ToByte(d)
    ensures c == d
  {
    ExpandOfValue(c);
    ExpandOfValue(d);
  }

  /** Eight zero bits are one look-up with nothing added. */
  lemma ZeroByte(c: bv8, n: nat)
    ensures Serial(Repr(c), Zeros(n + 8)) == Serial(Repr(CrcTable(c)), Zeros(n))
  {
    hide Repr, CrcTable, Step, FromBits;
    TableLookup(c, 0);
    assert Expand(0, 8) == Zeros(8) by { ExpandZero(8); }
    FromZero();
    assert c ^ 0 == c;
    SerialConcat(Repr(c), Zeros(8), Zeros(n));
    assert Zeros(8) + Zeros(n) == Zeros(n + 8);
  }

  lemma FromZero()
    ensures FromByte(0) == 0
  {
    ExpandZero(8);
  }

  lemma SilenceTable()
    ensures CrcTable(0x0F) == 0xBB && CrcTable(0xBB) == 0xA3 && CrcTable(0xA3) == 0x86
    ensures CrcTable(0x86) == 0x68 && CrcTable(0x68) == 0x7C && CrcTable(0x7C) == 0xC5
  {
  }

  lemma SilenceBytes()
    ensures Repr(0x0F) == INITIAL && ToByte(Repr(0xC5)) == 0xC5
  {
    var r := [true, true, false, false, false, true, false, true];
    assert Repr(0xC5) == r;
    assert Expand(0xC5, 8) == r by {
      assert Expand(0xC, 4) == [true, true, false, false];
      assert Expand(0x18, 5) == [true, true, false, false, false];
      assert Expand(0x31, 6) == [true, true, false, false, false, true];
      assert Expand(0x62, 7) == [true, true, false, false, false, true, false];
    }
    Pow2Of8();
    ValueOfExpand(0xC5, 8);
  }

  /** The checksum of 48 zero bits. */
  lemma ChecksumOfSilence(bits: seq<bool>)
    requires bits == Zeros(48)
    ensures Checksum(bits) == 0xC5
  {
    SerialOfSilence();
    SilenceBytes();
  }

  lemma SerialOfSilence()
    ensures Serial(Repr(0x0F), Zeros(48)) == Repr(0xC5)
  {
    hide Repr, CrcTable, Zeros, Step;
    SilenceTable();
    ZeroByte(0x0F, 40);
    ZeroByte(0xBB, 32);
    ZeroByte(0xA3, 24);
    ZeroByte(0x86, 16);
    ZeroByte(0x68, 8);
    ZeroByte(0x7C, 0);
    assert Zeros(0) == [];
  }
}
