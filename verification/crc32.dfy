/**
 * CRC-32 as used for PNG chunks (section 5.5 of the PNG specification,
 * W3C / ISO/IEC 15948): the ISO 3309 / ITU-T V.42 checksum, processed least
 * significant bit first with the reflected polynomial 0xEDB88320, register
 * preset to all ones and complemented at the end.  This stands in for
 * `crc32fast::hash`, which the chunk code calls on type ++ data.
 *
 * The register is a `bv32`; bytes enter it through `Widen` and the result
 * leaves it through `Narrow`, so that the rest of the model keeps plain
 * bounded integers.  The two bridges spell the eight bits out one by one
 * rather than using `b as bv32` and `(x & 0xFF) as int`: those conversions
 * reach the solver as int/bit-vector casts, which it reasons about poorly,
 * while the bit-by-bit form needs only linear arithmetic and single-bit
 * masks.
 */
module Crc32 {
  import opened Bytes

  /** The CRC-32 generator polynomial, bit-reversed. */
  const Polynomial: bv32 := 0xEDB8_8320

  /** Preset value of the register, and the mask of the final complement. */
  const AllOnes: bv32 := 0xFFFF_FFFF

  // ---------------------------------------------------------------------
  // Moving single bytes in and out of the register

  /** 1 when any bit of `mask` is set in `x`, else 0. */
  function Bit(x: bv32, mask: bv32): (r: nat)
    ensures r < 2
  {
    if x & mask != 0 then 1 else 0
  }

  /** The low eight bits of `x` as a byte. */
  function Narrow(x: bv32): u8 {
    Bit(x, 0x80) * 0x80 + Bit(x, 0x40) * 0x40 + Bit(x, 0x20) * 0x20 + Bit(x, 0x10) * 0x10 +
    Bit(x, 0x08) * 0x08 + Bit(x, 0x04) * 0x04 + Bit(x, 0x02) * 0x02 + Bit(x, 0x01)
  }

  /** `mask` when `n` is odd, else no bits. */
  function Flag(n: int, mask: bv32): bv32 {
    if n % 2 == 1 then mask else 0
  }

  /** A byte as the low eight bits of a register word. */
  function Widen(b: u8): bv32 {
    var b1 := b / 2; var b2 := b1 / 2; var b3 := b2 / 2; var b4 := b3 / 2;
    var b5 := b4 / 2; var b6 := b5 / 2; var b7 := b6 / 2;
    Flag(b7, 0x80) | Flag(b6, 0x40) | Flag(b5, 0x20) | Flag(b4, 0x10) |
    Flag(b3, 0x08) | Flag(b2, 0x04) | Flag(b1, 0x02) | Flag(b, 0x01)
  }

  lemma FlagsAreBits(f7: bool, f6: bool, f5: bool, f4: bool, f3: bool, f2: bool, f1: bool, f0: bool)
    ensures
      var w: bv32 := (if f7 then 0x80 else 0) | (if f6 then 0x40 else 0) | (if f5 then 0x20 else 0) |
                     (if f4 then 0x10 else 0) | (if f3 then 0x08 else 0) | (if f2 then 0x04 else 0) |
                     (if f1 then 0x02 else 0) | (if f0 then 0x01 else 0);
      && (w & 0x80 != 0) == f7 && (w & 0x40 != 0) == f6 && (w & 0x20 != 0) == f5 && (w & 0x10 != 0) == f4
      && (w & 0x08 != 0) == f3 && (w & 0x04 != 0) == f2 && (w & 0x02 != 0) == f1 && (w & 0x01 != 0) == f0
  {
  }

  lemma NarrowOfFlags(n7: int, n6: int, n5: int, n4: int, n3: int, n2: int, n1: int, n0: int)
    ensures Narrow(Flag(n7, 0x80) | Flag(n6, 0x40) | Flag(n5, 0x20) | Flag(n4, 0x10) |
                   Flag(n3, 0x08) | Flag(n2, 0x04) | Flag(n1, 0x02) | Flag(n0, 0x01))
         == (n7 % 2) * 0x80 + (n6 % 2) * 0x40 + (n5 % 2) * 0x20 + (n4 % 2) * 0x10 +
            (n3 % 2) * 0x08 + (n2 % 2) * 0x04 + (n1 % 2) * 0x02 + n0 % 2
  {
    var w := Flag(n7, 0x80) | Flag(n6, 0x40) | Flag(n5, 0x20) | Flag(n4, 0x10) |
             Flag(n3, 0x08) | Flag(n2, 0x04) | Flag(n1, 0x02) | Flag(n0, 0x01);
    FlagsAreBits(n7 % 2 == 1, n6 % 2 == 1, n5 % 2 == 1, n4 % 2 == 1,
                 n3 % 2 == 1, n2 % 2 == 1, n1 % 2 == 1, n0 % 2 == 1);
    assert Bit(w, 0x80) == n7 % 2;
    assert Bit(w, 0x40) == n6 % 2;
    assert Bit(w, 0x20) == n5 % 2;
    assert Bit(w, 0x10) == n4 % 2;
    assert Bit(w, 0x08) == n3 % 2;
    assert Bit(w, 0x04) == n2 % 2;
    assert Bit(w, 0x02) == n1 % 2;
    assert Bit(w, 0x01) == n0 % 2;
  }

  /** A byte is the sum of its binary digits. */
  lemma BinaryDigits(b: u8)
    ensures
      var b1 := b / 2; var b2 := b1 / 2; var b3 := b2 / 2; var b4 := b3 / 2;
      var b5 := b4 / 2; var b6 := b5 / 2; var b7 := b6 / 2;
      b == (b7 % 2) * 0x80 + (b6 % 2) * 0x40 + (b5 % 2) * 0x20 + (b4 % 2) * 0x10 +
           (b3 % 2) * 0x08 + (b2 % 2) * 0x04 + (b1 % 2) * 0x02 + b % 2
  {
  }

  /** `Narrow` undoes `Widen`, so no two bytes enter the register alike. */
  lemma NarrowWiden(b: u8)
    ensures Narrow(Widen(b)) == b
  {
    var b1 := b / 2; var b2 := b1 / 2; var b3 := b2 / 2; var b4 := b3 / 2;
    var b5 := b4 / 2; var b6 := b5 / 2; var b7 := b6 / 2;
    NarrowOfFlags(b7, b6, b5, b4, b3, b2, b1, b);
    BinaryDigits(b);
  }

  lemma DigitsUnique(a7: nat, a6: nat, a5: nat, a4: nat, a3: nat, a2: nat, a1: nat, a0: nat,
                     c7: nat, c6: nat, c5: nat, c4: nat, c3: nat, c2: nat, c1: nat, c0: nat)
    requires a7 < 2 && a6 < 2 && a5 < 2 && a4 < 2 && a3 < 2 && a2 < 2 && a1 < 2 && a0 < 2
    requires c7 < 2 && c6 < 2 && c5 < 2 && c4 < 2 && c3 < 2 && c2 < 2 && c1 < 2 && c0 < 2
    requires a7 * 0x80 + a6 * 0x40 + a5 * 0x20 + a4 * 0x10 + a3 * 0x08 + a2 * 0x04 + a1 * 0x02 + a0
          == c7 * 0x80 + c6 * 0x40 + c5 * 0x20 + c4 * 0x10 + c3 * 0x08 + c2 * 0x04 + c1 * 0x02 + c0
    ensures a7 == c7 && a6 == c6 && a5 == c5 && a4 == c4 && a3 == c3 && a2 == c2 && a1 == c1 && a0 == c0
  {
    assert a7 == c7;
    assert a6 == c6;
    assert a5 == c5;
    assert a4 == c4;
    assert a3 == c3;
    assert a2 == c2;
    assert a1 == c1;
  }

  lemma SameBitsSameByte(x: bv32, y: bv32)
    requires (x & 0x01 != 0) == (y & 0x01 != 0) && (x & 0x02 != 0) == (y & 0x02 != 0)
    requires (x & 0x04 != 0) == (y & 0x04 != 0) && (x & 0x08 != 0) == (y & 0x08 != 0)
    requires (x & 0x10 != 0) == (y & 0x10 != 0) && (x & 0x20 != 0) == (y & 0x20 != 0)
    requires (x & 0x40 != 0) == (y & 0x40 != 0) && (x & 0x80 != 0) == (y & 0x80 != 0)
    ensures x & 0xFF == y & 0xFF
  {
  }

  /** `Narrow` loses nothing of the low eight bits. */
  lemma NarrowInjective(x: bv32, y: bv32)
    requires Narrow(x) == Narrow(y)
    ensures x & 0xFF == y & 0xFF
  {
    DigitsUnique(Bit(x, 0x80), Bit(x, 0x40), Bit(x, 0x20), Bit(x, 0x10),
                 Bit(x, 0x08), Bit(x, 0x04), Bit(x, 0x02), Bit(x, 0x01),
                 Bit(y, 0x80), Bit(y, 0x40), Bit(y, 0x20), Bit(y, 0x10),
                 Bit(y, 0x08), Bit(y, 0x04), Bit(y, 0x02), Bit(y, 0x01));
    SameBitsSameByte(x, y);
  }

  // ---------------------------------------------------------------------
  // The register

  /** One bit of polynomial division, least significant bit first. */
  function Step(reg: bv32): bv32 {
    if reg & 1 == 1 then (reg >> 1) ^ Polynomial else reg >> 1
  }

  /** Four bits of division. */
  function Nibble(reg: bv32): bv32 {
    Step(Step(Step(Step(reg))))
  }

  /** Feeds one byte into the register. */
  function UpdateByte(reg: bv32, b: u8): bv32 {
    Nibble(Nibble(reg ^ Widen(b)))
  }

  /** Feeds a sequence of bytes, first byte first. */
  function Update(reg: bv32, s: seq<u8>): bv32
    decreases |s|
  {
    if |s| == 0 then reg else Update(UpdateByte(reg, s[0]), s[1..])
  }

  /** The register word as a `u32`. */
  function ToU32(x: bv32): u32 {
    FromBigEndian([Narrow(x >> 24), Narrow(x >> 16), Narrow(x >> 8), Narrow(x)])
  }

  /**
   * `crc32fast::hash`: the CRC-32 of `s`.  The empty input leaves the
   * preset register untouched, so its CRC is zero; `CheckValue` and
   * `DetectsSingleByteError` below pin down what it computes otherwise.
   */
  function Hash(s: seq<u8>): (r: u32)
    ensures |s| == 0 ==> r == 0
  {
    ToU32(Update(AllOnes, s) ^ AllOnes)
  }

  // ---------------------------------------------------------------------
  // Properties

  /** Feeding `a ++ b` is feeding `a`, then `b`. */
  lemma {:induction false} UpdateAppend(reg: bv32, a: seq<u8>, b: seq<u8>)
    ensures Update(reg, a + b) == Update(Update(reg, a), b)
    decreases |a|
  {
    if |a| == 0 {
      assert a + b == b;
    } else {
      assert (a + b)[0] == a[0];
      assert (a + b)[1..] == a[1..] + b;
      UpdateAppend(UpdateByte(reg, a[0]), a[1..], b);
    }
  }

  /**
   * A division step is a bijection of the register: when the low bits
   * differ, only the polynomial reaches bit 31.
   */
  lemma StepInjective(x: bv32, y: bv32)
    requires x != y
    ensures Step(x) != Step(y)
  {
  }

  lemma NibbleInjective(x: bv32, y: bv32)
    requires x != y
    ensures Nibble(x) != Nibble(y)
  {
    StepInjective(x, y);
    StepInjective(Step(x), Step(y));
    StepInjective(Step(Step(x)), Step(Step(y)));
    StepInjective(Step(Step(Step(x))), Step(Step(Step(y))));
  }

  /**
   * Two registers that differ once a byte has been mixed in still differ
   * after the eight division steps for that byte.
   */
  lemma UpdateByteKeepsDifference(x: bv32, y: bv32, b: u8, c: u8)
    requires x ^ Widen(b) != y ^ Widen(c)
    ensures UpdateByte(x, b) != UpdateByte(y, c)
  {
    NibbleInjective(x ^ Widen(b), y ^ Widen(c));
    NibbleInjective(Nibble(x ^ Widen(b)), Nibble(y ^ Widen(c)));
  }

  lemma XorMaskInjective(u: bv32, v: bv32, m: bv32)
    requires u != v
    ensures u ^ m != v ^ m && m ^ u != m ^ v
  {
  }

  lemma {:induction false} UpdateKeepsDifference(x: bv32, y: bv32, s: seq<u8>)
    requires x != y
    ensures Update(x, s) != Update(y, s)
    decreases |s|
  {
    if |s| > 0 {
      XorMaskInjective(x, y, Widen(s[0]));
      UpdateByteKeepsDifference(x, y, s[0], s[0]);
      UpdateKeepsDifference(UpdateByte(x, s[0]), UpdateByte(y, s[0]), s[1..]);
    }
  }

  lemma ToU32Injective(x: bv32, y: bv32)
    requires x != y
    ensures ToU32(x) != ToU32(y)
  {
    var a := [Narrow(x >> 24), Narrow(x >> 16), Narrow(x >> 8), Narrow(x)];
    var b := [Narrow(y >> 24), Narrow(y >> 16), Narrow(y >> 8), Narrow(y)];
    if a == b {
      NarrowInjective(x >> 24, y >> 24);
      NarrowInjective(x >> 16, y >> 16);
      NarrowInjective(x >> 8, y >> 8);
      NarrowInjective(x, y);
      SameLanesSameWord(x, y);
      assert false;
    }
    FromBigEndianInjective(a, b);
  }

  lemma SameLanesSameWord(x: bv32, y: bv32)
    requires (x >> 24) & 0xFF == (y >> 24) & 0xFF && (x >> 16) & 0xFF == (y >> 16) & 0xFF
    requires (x >> 8) & 0xFF == (y >> 8) & 0xFF && x & 0xFF == y & 0xFF
    ensures x == y
  {
  }

  lemma UpdateThroughByte(reg: bv32, p: seq<u8>, a: u8, q: seq<u8>)
    ensures Update(reg, p + [a] + q) == Update(UpdateByte(Update(reg, p), a), q)
  {
    UpdateAppend(reg, p + [a], q);
    UpdateAppend(reg, p, [a]);
    assert Update(Update(reg, p), [a]) == UpdateByte(Update(reg, p), a);
  }

  /** Distinct bytes enter the register as distinct words. */
  lemma WidenInjective(a: u8, b: u8)
    requires a != b
    ensures Widen(a) != Widen(b)
  {
    NarrowWiden(a);
    NarrowWiden(b);
  }

  /** The registers after `p ++ [a] ++ q` and `p ++ [b] ++ q` differ. */
  lemma RegisterDetectsSingleByteError(p: seq<u8>, a: u8, b: u8, q: seq<u8>)
    requires a != b
    ensures Update(AllOnes, p + [a] + q) != Update(AllOnes, p + [b] + q)
  {
    var r := Update(AllOnes, p);
    UpdateThroughByte(AllOnes, p, a, q);
    UpdateThroughByte(AllOnes, p, b, q);
    WidenInjective(a, b);
    XorMaskInjective(Widen(a), Widen(b), r);
    UpdateByteKeepsDifference(r, r, a, b);
    UpdateKeepsDifference(UpdateByte(r, a), UpdateByte(r, b), q);
  }

  /** The final complement and byte extraction lose nothing. */
  lemma FinishInjective(x: bv32, y: bv32)
    requires x != y
    ensures ToU32(x ^ AllOnes) != ToU32(y ^ AllOnes)
  {
    XorMaskInjective(x, y, AllOnes);
    ToU32Injective(x ^ AllOnes, y ^ AllOnes);
  }

  /**
   * CRC-32 detects every single-byte error: two messages that differ in
   * exactly one byte never have the same checksum.
   */
  lemma DetectsSingleByteError(p: seq<u8>, a: u8, b: u8, q: seq<u8>)
    requires a != b
    ensures Hash(p + [a] + q) != Hash(p + [b] + q)
  {
    RegisterDetectsSingleByteError(p, a, b, q);
    FinishInjective(Update(AllOnes, p + [a] + q), Update(AllOnes, p + [b] + q));
  }

  /** The same, phrased as replacing the byte at position `k`. */
  lemma DetectsByteUpdate(s: seq<u8>, k: nat, v: u8)
    requires k < |s| && v != s[k]
    ensures Hash(s[k := v]) != Hash(s)
  {
    assert s == s[..k] + [s[k]] + s[k + 1..];
    assert s[k := v] == s[..k] + [v] + s[k + 1..];
    DetectsSingleByteError(s[..k], v, s[k], s[k + 1..]);
  }

  // ---------------------------------------------------------------------
  // The standard check value

  // Each `CheckStep` lemma feeds one byte of the input into the register:
  // it names the register value before and after that byte (the hex
  // constants), so that `CheckRegister` can chain the nine steps without
  // unrolling `Update` on a literal.  The hints in each body are the byte,
  // its widened form and the two `Nibble` results.  `CheckValue` then
  // compares the finished CRC with the published check value, which
  // confirms the CRC-32 function itself independently of the chunk tests.

  /** The ASCII text "123456789". */
  const CheckInput: seq<u8> := [49, 50, 51, 52, 53, 54, 55, 56, 57]

  lemma CheckStep0()
    ensures Update(0xFFFFFFFF, CheckInput[0..]) == Update(0x7C231048, CheckInput[1..])
  {
    assert CheckInput[0] == 49;
    assert Widen(49) == 0x31;
    assert Nibble(0xFFFFFFCE) == 0xAFF51D84;
  }

  lemma CheckStep1()
    ensures Update(0x7C231048, CheckInput[1..]) == Update(0xB0ACBB32, CheckInput[2..])
  {
    assert CheckInput[1] == 50;
    assert Widen(50) == 0x32;
    assert Nibble(0x7C23107A) == 0xD11492EF;
  }

  lemma CheckStep2()
    ensures Update(0xB0ACBB32, CheckInput[2..]) == Update(0x77B79C2D, CheckInput[3..])
  {
    assert CheckInput[2] == 51;
    assert Widen(51) == 0x33;
    assert Nibble(0xB0ACBB01) == 0x16BDDBD4;
  }

  lemma CheckStep3()
    ensures Update(0x77B79C2D, CheckInput[3..]) == Update(0x641C1F5C, CheckInput[4..])
  {
    assert CheckInput[3] == 52;
    assert Widen(52) == 0x34;
    assert Nibble(0x77B79C19) == 0xF774EA85;
  }

  lemma CheckStep4()
    ensures Update(0x641C1F5C, CheckInput[4..]) == Update(0x340AC5E3, CheckInput[5..])
  {
    assert CheckInput[4] == 53;
    assert Widen(53) == 0x35;
    assert Nibble(0x641C1F69) == 0xF64E52B2;
  }

  lemma CheckStep5()
    ensures Update(0x340AC5E3, CheckInput[5..]) == Update(0xF68D2C9E, CheckInput[6..])
  {
    assert CheckInput[5] == 54;
    assert Widen(54) == 0x36;
    assert Nibble(0x340AC5D5) == 0x682BFDA9;
  }

  lemma CheckStep6()
    ensures Update(0xF68D2C9E, CheckInput[6..]) == Update(0xAFFC9660, CheckInput[7..])
  {
    assert CheckInput[6] == 55;
    assert Widen(55) == 0x37;
    assert Nibble(0xF68D2CA9) == 0xFF67418E;
  }

  lemma CheckStep7()
    ensures Update(0xAFFC9660, CheckInput[7..]) == Update(0x651F2550, CheckInput[8..])
  {
    assert CheckInput[7] == 56;
    assert Widen(56) == 0x38;
    assert Nibble(0xAFFC9658) == 0xE7474A45;
  }

  lemma CheckStep8()
    ensures Update(0x651F2550, CheckInput[8..]) == Update(0x340BC6D9, CheckInput[9..])
  {
    assert CheckInput[8] == 57;
    assert Widen(57) == 0x39;
    assert Nibble(0x651F2569) == 0xF65E6112;
  }

  /** The final register, complemented, read as an integer. */
  lemma CheckFinish()
    ensures ToU32(0x340BC6D9 ^ AllOnes) == 0xCBF4_3926
  {
  }

  /** The register after the nine digits. */
  lemma CheckRegister()
    ensures Update(0xFFFF_FFFF, CheckInput[0..]) == 0x340B_C6D9
  {
    CheckStep0();
    CheckStep1();
    CheckStep2();
    CheckStep3();
    CheckStep4();
    CheckStep5();
    CheckStep6();
    CheckStep7();
    CheckStep8();
  }

  /**
   * The published check value of this CRC (CRC-32/ISO-HDLC): the CRC of
   * the nine ASCII digits "123456789" is 0xCBF43926.
   */
  lemma CheckValue()
    ensures Hash(CheckInput) == 0xCBF4_3926
  {
    assert CheckInput[0..] == CheckInput;
    CheckRegister();
    CheckFinish();
  }
}
