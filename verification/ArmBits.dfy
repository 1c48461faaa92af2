/**
  * Bit-level parts of the ARM encoder: rotated immediates and branch fields
  * (QJIT/LuaJIT-2.1.0-beta3/dynasm/dasm_arm.h:168-174,377-412).
  */
module ArmBits {
  type Bits = bv32

  function RotLeft2(n: Bits): Bits { (n << 2) | (n >> 30) }

  function RotRight2(n: Bits): Bits { (n >> 2) | (n << 30) }

  /** What an ARM processor makes of a 12-bit operand: the 8-bit value, rotated right by twice the rotation. */
  function Operand(rotation: nat, value: Bits): Bits {
    if rotation == 0 then value else RotRight2(Operand(rotation - 1, value))
  }

  datatype Imm12 = NotEncodable | Encoded(rotation: nat, value: Bits)

  /** The loop of dasm_imm12 from step i on, when n has been rotated i times. */
  function Imm12From(n: Bits, i: nat): Imm12
    requires i <= 16
    decreases 16 - i
  {
    if i == 16 then NotEncodable
    else if n <= 255 then Encoded(i, n)
    else Imm12From(RotLeft2(n), i + 1)
  }

  function DasmImm12(n: Bits): Imm12 { Imm12From(n, 0) }

  lemma RotationsCancel(n: Bits)
    ensures RotRight2(RotLeft2(n)) == n && RotLeft2(RotRight2(n)) == n
  {}

  lemma {:induction false} Imm12Decodes(n: Bits, i: nat)
    requires i <= 16
    ensures var e := Imm12From(n, i);
            e.Encoded? ==> i <= e.rotation < 16 && e.value <= 255 && Operand(e.rotation - i, e.value) == n
    decreases 16 - i
  {
    hide RotLeft2, RotRight2;
    if i < 16 && n > 255 {
      Imm12Decodes(RotLeft2(n), i + 1);
      RotationsCancel(n);
    }
  }

  lemma {:induction false} Imm12Finds(n: Bits, i: nat, r: nat, value: Bits)
    requires i <= 16 && i + r < 16 && value <= 255 && Operand(r, value) == n
    ensures var e := Imm12From(n, i); e.Encoded? && e.rotation <= i + r
    decreases 16 - i
  {
    hide RotLeft2, RotRight2;
    if n > 255 {
      RotationsCancel(Operand(r - 1, value));
      Imm12Finds(RotLeft2(n), i + 1, r - 1, value);
    }
  }

  /**
    * dasm_imm12 is exact: what it returns decodes to n, it finds an encoding
    * whenever there is one, and then the one of least rotation.
    */
  lemma Imm12Exact(n: Bits)
    ensures var e := DasmImm12(n);
            && (e.Encoded? ==> e.rotation < 16 && e.value <= 255 && Operand(e.rotation, e.value) == n)
            && (forall r: nat, value: Bits :: r < 16 && value <= 255 && Operand(r, value) == n ==>
                  e.Encoded? && e.rotation <= r)
  {
    Imm12Decodes(n, 0);
    forall r: nat, value: Bits | r < 16 && value <= 255 && Operand(r, value) == n
      ensures DasmImm12(n).Encoded? && DasmImm12(n).rotation <= r
    {
      Imm12Finds(n, 0, r, value);
    }
  }

  // ---------------------------------------------------------------------------
  // Numbers and bit patterns

  const WORD := 0x1_0000_0000

  type Byte = bv8

  function Bit(on: bool, mask: Byte): Byte { if on then mask else 0 }

  function EightBits(d0: bool, d1: bool, d2: bool, d3: bool, d4: bool, d5: bool, d6: bool, d7: bool): Byte {
    Bit(d0, 1) | Bit(d1, 2) | Bit(d2, 4) | Bit(d3, 8) | Bit(d4, 16) | Bit(d5, 32) | Bit(d6, 64) | Bit(d7, 128)
  }

  function ToByte(v: int): Byte {
    var v1 := Half(v);
    var v2 := Half(v1);
    var v3 := Half(v2);
    var v4 := Half(v3);
    var v5 := Half(v4);
    var v6 := Half(v5);
    var v7 := Half(v6);
    EightBits(Odd(v), Odd(v1), Odd(v2), Odd(v3), Odd(v4), Odd(v5), Odd(v6), Odd(v7))
  }

  function Half(v: int): int { v / 2 }

  predicate Odd(v: int) { v % 2 == 1 }

  /** The 32-bit pattern of a C int, byte by byte. */
  function ToBits(n: int): Bits {
    var m := n % WORD;
    var m1 := m / 256;
    var m2 := m1 / 256;
    FromBytes(ToByte(m % 256), ToByte(m1 % 256), ToByte(m2 % 256), ToByte(m2 / 256))
  }

  function FromBytes(b0: Byte, b1: Byte, b2: Byte, b3: Byte): Bits {
    (b0 as Bits) | ((b1 as Bits) << 8) | ((b2 as Bits) << 16) | ((b3 as Bits) << 24)
  }

  function LowByte(b: Bits): Byte { (b & 0xff) as Byte }

  function Weight(on: bool, weight: int): int { if on then weight else 0 }

  function ByteValue(b: Byte): int {
    Weight(b & 1 != 0, 1) + Weight(b & 2 != 0, 2) + Weight(b & 4 != 0, 4) + Weight(b & 8 != 0, 8)
    + Weight(b & 16 != 0, 16) + Weight(b & 32 != 0, 32) + Weight(b & 64 != 0, 64) + Weight(b & 128 != 0, 128)
  }

  /** The unsigned number a pattern stands for. */
  function Value(b: Bits): int {
    ByteValue(LowByte(b)) + 256 * ByteValue(LowByte(b >> 8)) + 0x1_0000 * ByteValue(LowByte(b >> 16)) + 0x100_0000 * ByteValue(LowByte(b >> 24))
  }

  lemma BitsTaken(d0: bool, d1: bool, d2: bool, d3: bool, d4: bool, d5: bool, d6: bool, d7: bool)
    ensures var b := EightBits(d0, d1, d2, d3, d4, d5, d6, d7);
            && (b & 1 != 0 <==> d0) && (b & 2 != 0 <==> d1) && (b & 4 != 0 <==> d2) && (b & 8 != 0 <==> d3)
            && (b & 16 != 0 <==> d4) && (b & 32 != 0 <==> d5) && (b & 64 != 0 <==> d6) && (b & 128 != 0 <==> d7)
            && (!d4 && !d5 && !d6 && !d7 ==> b <= 0xf)
            && (!d0 && !d1 && !d2 && !d3 && !d4 && !d5 && !d6 && !d7 ==> b == 0)
            && (d4 && !d0 && !d1 && !d2 && !d3 && !d5 && !d6 && !d7 ==> b == 16)
            && (d0 && !d1 && !d2 && !d3 && !d4 && !d5 && !d6 && !d7 ==> b == 1)
  {}

  lemma Halved(v: int, limit: int)
    requires 0 <= v < 2 * limit
    ensures v == 2 * Half(v) + Weight(Odd(v), 1) && 0 <= Half(v) < limit
  {}

  lemma EightHalves(v: int, v1: int, v2: int, v3: int, v4: int, v5: int, v6: int, v7: int,
                    d0: bool, d1: bool, d2: bool, d3: bool, d4: bool, d5: bool, d6: bool, d7: bool)
    requires v == 2 * v1 + Weight(d0, 1) && v1 == 2 * v2 + Weight(d1, 1) && v2 == 2 * v3 + Weight(d2, 1)
    requires v3 == 2 * v4 + Weight(d3, 1) && v4 == 2 * v5 + Weight(d4, 1) && v5 == 2 * v6 + Weight(d5, 1)
    requires v6 == 2 * v7 + Weight(d6, 1) && v7 == Weight(d7, 1)
    ensures ByteValue(EightBits(d0, d1, d2, d3, d4, d5, d6, d7)) == v
    ensures v < 16 ==> !d4 && !d5 && !d6 && !d7
  {
    BitsTaken(d0, d1, d2, d3, d4, d5, d6, d7);
    hide EightBits;
  }

  lemma ByteRoundTrip(v: int)
    requires 0 <= v < 256
    ensures ByteValue(ToByte(v)) == v
    ensures v < 16 ==> ToByte(v) <= 0xf
    ensures v == 0 ==> ToByte(v) == 0
  {
    hide EightBits, Half, Odd, ByteValue, Weight;
    var v1 := Half(v);
    var v2 := Half(v1);
    var v3 := Half(v2);
    var v4 := Half(v3);
    var v5 := Half(v4);
    var v6 := Half(v5);
    var v7 := Half(v6);
    Halved(v, 128);
    Halved(v1, 64);
    Halved(v2, 32);
    Halved(v3, 16);
    Halved(v4, 8);
    Halved(v5, 4);
    Halved(v6, 2);
    Halved(v7, 1);
    BitsTaken(Odd(v), Odd(v1), Odd(v2), Odd(v3), Odd(v4), Odd(v5), Odd(v6), Odd(v7));
    EightHalves(v, v1, v2, v3, v4, v5, v6, v7, Odd(v), Odd(v1), Odd(v2), Odd(v3), Odd(v4), Odd(v5), Odd(v6), Odd(v7));
    if v == 0 {
      ZeroByte();
    }
  }

  lemma ZeroByte()
    ensures ToByte(0) == 0
  {
    hide EightBits;
    BitsTaken(false, false, false, false, false, false, false, false);
  }

  lemma ByteParts(b0: Byte, b1: Byte, b2: Byte, b3: Byte)
    ensures var b := FromBytes(b0, b1, b2, b3);
            LowByte(b) == b0 && LowByte(b >> 8) == b1 && LowByte(b >> 16) == b2 && LowByte(b >> 24) == b3
  {}

  lemma SmallParts(b0: Byte, b1: Byte, b2: Byte)
    ensures FromBytes(b0, b1, b2, 0) <= 0x00ff_ffff
    ensures b1 <= 0xf ==> FromBytes(b0, b1, 0, 0) <= 0xfff
    ensures FromBytes(b0, 0, 0, 0) <= 0xff
  {}

  lemma BytesAddUp(n: int)
    requires 0 <= n < WORD
    ensures var m1 := n / 256; var m2 := m1 / 256;
            && n == n % 256 + 256 * (m1 % 256) + 0x1_0000 * (m2 % 256) + 0x100_0000 * (m2 / 256)
            && 0 <= m2 / 256 < 256
            && (n < 0x100_0000 ==> m2 / 256 == 0) && (n < 0x1000 ==> m1 % 256 < 16 && m2 == 0) && (n < 0x100 ==> m1 == 0)
  {}

  lemma ValueOfBytes(b0: Byte, b1: Byte, b2: Byte, b3: Byte)
    ensures Value(FromBytes(b0, b1, b2, b3)) == ByteValue(b0) + 256 * ByteValue(b1) + 0x1_0000 * ByteValue(b2) + 0x100_0000 * ByteValue(b3)
  {
    hide ByteValue, FromBytes, LowByte;
    ByteParts(b0, b1, b2, b3);
  }

  lemma ValueOfBits(n: int)
    requires 0 <= n < WORD
    ensures Value(ToBits(n)) == n
  {
    hide FromBytes, ToByte, ByteValue, LowByte, Value;
    BytesAddUp(n);
    var m1 := n / 256;
    var m2 := m1 / 256;
    ByteRoundTrip(n % 256);
    ByteRoundTrip(m1 % 256);
    ByteRoundTrip(m2 % 256);
    ByteRoundTrip(m2 / 256);
    ValueOfBytes(ToByte(n % 256), ToByte(m1 % 256), ToByte(m2 % 256), ToByte(m2 / 256));
  }

  /** Small numbers have small patterns. */
  lemma SmallBits(n: int)
    requires 0 <= n < 0x100_0000
    ensures ToBits(n) <= 0x00ff_ffff && (n < 0x1000 ==> ToBits(n) <= 0xfff) && (n < 0x100 ==> ToBits(n) <= 0xff)
  {
    hide FromBytes, ToByte, ByteValue;
    BytesAddUp(n);
    var m1 := n / 256;
    var m2 := m1 / 256;
    ByteRoundTrip(m1 % 256);
    ByteRoundTrip(m2 % 256);
    ByteRoundTrip(m2 / 256);
    SmallParts(ToByte(n % 256), ToByte(m1 % 256), ToByte(m2 % 256));
  }

  /** Patterns of few bits have small values. */
  lemma SmallValues(b: Bits)
    ensures 0 <= Value(b)
    ensures (b <= 0xffff ==> Value(b) <= 0xffff) && (b <= 0xfff ==> Value(b) <= 0xfff) && (b <= 0xff ==> Value(b) <= 0xff)
  {
    hide ByteValue, LowByte;
    SmallBytes(b);
    ByteMax(LowByte(b));
    ByteMax(LowByte(b >> 8));
    ByteMax(LowByte(b >> 16));
    ByteMax(LowByte(b >> 24));
  }

  lemma SmallBytes(b: Bits)
    ensures b <= 0xffff ==> LowByte(b >> 16) == 0 && LowByte(b >> 24) == 0
    ensures b <= 0xfff ==> LowByte(b >> 8) <= 0xf
    ensures b <= 0xff ==> LowByte(b >> 8) == 0
  {}

  lemma ByteMax(b: Byte)
    ensures 0 <= ByteValue(b) <= 255 && (b <= 0xf ==> ByteValue(b) <= 15) && (b == 0 <==> ByteValue(b) == 0)
  {}

  // ---------------------------------------------------------------------------
  // Branches

  /** The 24-bit word offset or'ed into a branch instruction. */
  function PatchBranch(word: Bits, n: int): Bits { word | ToBits(n / 4 % 0x100_0000) }

  /** The range check in front of it. */
  predicate BranchInRange(n: int) { n % 4 == 0 && -0x200_0000 <= n < 0x200_0000 }

  /** The byte distance a processor reads from a branch: its 24-bit field, sign extended, times four. */
  function BranchDistance(word: Bits): int {
    var field := Value(word & 0x00ff_ffff);
    4 * if field >= 0x80_0000 then field - 0x100_0000 else field
  }

  lemma BranchField(word: Bits, field: Bits)
    requires word & 0x00ff_ffff == 0 && field <= 0x00ff_ffff
    ensures (word | field) & 0x00ff_ffff == field && (word | field) & 0xff00_0000 == word
  {}

  /** A distance is read back as it was exactly when the check accepts it; condition and opcode bits are kept. */
  lemma BranchReadsBack(word: Bits, n: int)
    requires word & 0x00ff_ffff == 0
    ensures BranchDistance(PatchBranch(word, n)) == n <==> BranchInRange(n)
    ensures PatchBranch(word, n) & 0xff00_0000 == word
  {
    hide ToBits, Value;
    var field := n / 4 % 0x100_0000;
    SmallBits(field);
    ValueOfBits(field);
    BranchField(word, ToBits(field));
  }

  // ---------------------------------------------------------------------------
  // Loads: magnitude and an add/subtract bit

  const ADD: Bits := 0x0080_0000

  /** patchimml: a magnitude; bit 23 says add. */
  function PatchImmL12(word: Bits, n: int): Bits {
    if n >= 0 then word | ADD | ToBits(n) else word | ToBits(0 - n)
  }

  function Signed(word: Bits, magnitude: int): int {
    if word & ADD != 0 then magnitude else 0 - magnitude
  }

  function LoadOffset12(word: Bits): int { Signed(word, Value(word & 0xfff)) }

  /** The 8-bit field of the coprocessor loads counts words. */
  function LoadOffsetV(word: Bits): int { 4 * Signed(word, Value(word & 0xff)) }

  /** patchimml8: the magnitude in two nibbles. */
  function PatchImmL8(word: Bits, n: int): Bits {
    if n >= 0 then word | ADD | Nibbles(ToBits(n)) else word | Nibbles(ToBits(0 - n))
  }

  function Nibbles(k: Bits): Bits { (k & 0x0f) | ((k & 0xf0) << 4) }

  function LoadOffset8(word: Bits): int { Signed(word, Value((word & 0x0f) | ((word & 0xf00) >> 4))) }

  lemma Field12(word: Bits, k: Bits)
    requires word & 0x0080_0fff == 0 && k <= 0xfff
    ensures (word | ADD | k) & 0xfff == k && (word | ADD | k) & ADD != 0
    ensures (word | k) & 0xfff == k && (word | k) & ADD == 0
  {}

  lemma Field8(word: Bits, k: Bits)
    requires word & 0x0080_00ff == 0 && k <= 0xff
    ensures (word | ADD | k) & 0xff == k && (word | ADD | k) & ADD != 0
    ensures (word | k) & 0xff == k && (word | k) & ADD == 0
  {}

  lemma FieldNibbles(word: Bits, k: Bits)
    requires word & 0x0080_0f0f == 0 && k <= 0xff
    ensures var (w, v) := (word | ADD | Nibbles(k), word | Nibbles(k));
            && w & ADD != 0 && v & ADD == 0
            && (w & 0x0f) | ((w & 0xf00) >> 4) == k && (v & 0x0f) | ((v & 0xf00) >> 4) == k
  {}

  predicate ClearOf(w: Bits, mask: Bits) { w & mask == 0 }

  /** The bits outside the mask. */
  function Outside(w: Bits, mask: Bits): Bits { w & !mask }

  /** What is or'ed into clear bits leaves the other bits alone. */
  lemma OthersKept(word: Bits, x: Bits, mask: Bits)
    requires word & mask == 0 && x & !mask == 0
    ensures (word | x) & !mask == word
  {}

  lemma InMask(k: Bits)
    ensures k <= 0xfff ==> k & !0x0080_0fff == 0 && (ADD | k) & !0x0080_0fff == 0
    ensures k <= 0xff ==> k & !0x0080_00ff == 0 && (ADD | k) & !0x0080_00ff == 0
    ensures Nibbles(k) & !0x0080_0f0f == 0 && (ADD | Nibbles(k)) & !0x0080_0f0f == 0
  {}

  lemma OrAssoc(a: Bits, b: Bits, c: Bits)
    ensures a | b | c == a | (b | c)
  {}

  lemma FieldsSmall(w: Bits)
    ensures (w & 0x0f) | ((w & 0xf00) >> 4) <= 0xff && w & 0xfff <= 0xfff && w & 0xff <= 0xff
  {}

  /** No offset outside the range of its field is ever read. */
  lemma OffsetRange(w: Bits)
    ensures -4096 < LoadOffset12(w) < 4096 && -256 < LoadOffset8(w) < 256 && -1024 < LoadOffsetV(w) < 1024
  {
    hide Value;
    FieldsSmall(w);
    SmallValues(w & 0xfff);
    SmallValues((w & 0x0f) | ((w & 0xf00) >> 4));
    SmallValues(w & 0xff);
  }

  /** An offset is read back exactly if its magnitude is below 4096; then the other bits are kept. */
  lemma Load12ReadsBack(word: Bits, n: int)
    requires ClearOf(word, 0x0080_0fff)
    ensures LoadOffset12(PatchImmL12(word, n)) == n <==> -4096 < n < 4096
    ensures -4096 < n < 4096 ==> Outside(PatchImmL12(word, n), 0x0080_0fff) == word
  {
    hide ToBits, Value, LoadOffset12, ClearOf, Outside, PatchImmL12;
    if -4096 < n < 4096 {
      Load12Fits(word, n);
      Load12Keeps(word, n);
    } else {
      OffsetRange(PatchImmL12(word, n));
    }
  }

  lemma Load12Fits(word: Bits, n: int)
    requires ClearOf(word, 0x0080_0fff) && -4096 < n < 4096
    ensures LoadOffset12(PatchImmL12(word, n)) == n
  {
    hide ToBits, Value;
    var k := if n >= 0 then n else 0 - n;
    SmallBits(k);
    ValueOfBits(k);
    Field12(word, ToBits(k));
  }

  lemma Load12Keeps(word: Bits, n: int)
    requires ClearOf(word, 0x0080_0fff) && -4096 < n < 4096
    ensures Outside(PatchImmL12(word, n), 0x0080_0fff) == word
  {
    hide ToBits, Nibbles;
    var k := if n >= 0 then n else 0 - n;
    SmallBits(k);
    InMask(ToBits(k));
    OrAssoc(word, ADD, ToBits(k));
    OthersKept(word, if n >= 0 then ADD | ToBits(k) else ToBits(k), 0x0080_0fff);
  }

  /** The same at 256 for the split 8-bit form. */
  lemma Load8ReadsBack(word: Bits, n: int)
    requires ClearOf(word, 0x0080_0f0f)
    ensures LoadOffset8(PatchImmL8(word, n)) == n <==> -256 < n < 256
    ensures -256 < n < 256 ==> Outside(PatchImmL8(word, n), 0x0080_0f0f) == word
  {
    hide ToBits, Value, LoadOffset8, ClearOf, Outside, PatchImmL8;
    if -256 < n < 256 {
      Load8Fits(word, n);
      Load8Keeps(word, n);
    } else {
      OffsetRange(PatchImmL8(word, n));
    }
  }

  lemma Load8Fits(word: Bits, n: int)
    requires ClearOf(word, 0x0080_0f0f) && -256 < n < 256
    ensures LoadOffset8(PatchImmL8(word, n)) == n
  {
    hide ToBits, Value, Nibbles;
    var k := if n >= 0 then n else 0 - n;
    SmallBits(k);
    ValueOfBits(k);
    FieldNibbles(word, ToBits(k));
  }

  lemma Load8Keeps(word: Bits, n: int)
    requires ClearOf(word, 0x0080_0f0f) && -256 < n < 256
    ensures Outside(PatchImmL8(word, n), 0x0080_0f0f) == word
  {
    hide ToBits, Nibbles;
    var k := if n >= 0 then n else 0 - n;
    SmallBits(k);
    InMask(ToBits(k));
    OrAssoc(word, ADD, Nibbles(ToBits(k)));
    OthersKept(word, if n >= 0 then ADD | Nibbles(ToBits(k)) else Nibbles(ToBits(k)), 0x0080_0f0f);
  }

  /** And for the word offsets of the coprocessor form. */
  lemma LoadVReadsBack(word: Bits, m: int)
    requires ClearOf(word, 0x0080_00ff)
    ensures LoadOffsetV(PatchImmL12(word, m)) == 4 * m <==> -256 < m < 256
    ensures -256 < m < 256 ==> Outside(PatchImmL12(word, m), 0x0080_00ff) == word
  {
    hide ToBits, Value, LoadOffsetV, ClearOf, Outside, PatchImmL12;
    if -256 < m < 256 {
      LoadVFits(word, m);
      LoadVKeeps(word, m);
    } else {
      OffsetRange(PatchImmL12(word, m));
    }
  }

  lemma LoadVFits(word: Bits, m: int)
    requires ClearOf(word, 0x0080_00ff) && -256 < m < 256
    ensures LoadOffsetV(PatchImmL12(word, m)) == 4 * m
  {
    hide ToBits, Value;
    var k := if m >= 0 then m else 0 - m;
    SmallBits(k);
    ValueOfBits(k);
    Field8(word, ToBits(k));
  }

  lemma LoadVKeeps(word: Bits, m: int)
    requires ClearOf(word, 0x0080_00ff) && -256 < m < 256
    ensures Outside(PatchImmL12(word, m), 0x0080_00ff) == word
  {
    hide ToBits, Nibbles;
    var k := if m >= 0 then m else 0 - m;
    SmallBits(k);
    InMask(ToBits(k));
    OrAssoc(word, ADD, ToBits(k));
    OthersKept(word, if m >= 0 then ADD | ToBits(k) else ToBits(k), 0x0080_00ff);
  }
}
