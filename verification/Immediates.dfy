/**
  * Immediates: what pass 3 or's into a word for the argument of an immediate action,
  * and what a processor reads there
  * (QJIT/LuaJIT-2.1.0-beta3/dynasm/dasm_arm.h:243-266,397-412).
  */
module Immediates {
  import opened ArmBits
  import opened Layout
  import FastDiv

  // ---------------------------------------------------------------------------
  // Bits of a word, by halving its value

  function Halved(w: Bits): Bits { w >> 1 }

  predicate LastBit(w: Bits) { w & 1 != 0 }

  function Union(a: Bits, b: Bits): Bits { a | b }

  /** The word shifted right by s places. */
  function Down(w: Bits, s: nat): Bits {
    if s == 0 then w else Down(Halved(w), s - 1)
  }

  lemma ByteHalf(b: Byte, c: Byte)
    ensures 2 * ByteValue((b >> 1) | ((c & 1) << 7)) + Weight(b & 1 != 0, 1) == ByteValue(b) + Weight(c & 1 != 0, 256)
  {
    var d := (b >> 1) | ((c & 1) << 7);
    BitsShift(b, c, d);
  }

  lemma BitsShift(b: Byte, c: Byte, d: Byte)
    requires d == (b >> 1) | ((c & 1) << 7)
    ensures (d & 1 != 0 <==> b & 2 != 0) && (d & 2 != 0 <==> b & 4 != 0) && (d & 4 != 0 <==> b & 8 != 0)
    ensures (d & 8 != 0 <==> b & 16 != 0) && (d & 16 != 0 <==> b & 32 != 0) && (d & 32 != 0 <==> b & 64 != 0)
    ensures (d & 64 != 0 <==> b & 128 != 0) && (d & 128 != 0 <==> c & 1 != 0)
  {}

  lemma BytesShift(w: Bits)
    ensures LowByte(w >> 1) == (LowByte(w) >> 1) | ((LowByte(w >> 8) & 1) << 7)
    ensures LowByte((w >> 1) >> 8) == (LowByte(w >> 8) >> 1) | ((LowByte(w >> 16) & 1) << 7)
    ensures LowByte((w >> 1) >> 16) == (LowByte(w >> 16) >> 1) | ((LowByte(w >> 24) & 1) << 7)
    ensures LowByte((w >> 1) >> 24) == LowByte(w >> 24) >> 1
    ensures w & 1 != 0 <==> LowByte(w) & 1 != 0
  {}

  lemma NoCarry(b: Byte)
    ensures (b >> 1) | ((0 & 1) << 7) == b >> 1
  {}

  /** A word's value is twice that of the word shifted, and its last bit. */
  lemma HalfValue(w: Bits)
    ensures Value(w) == 2 * Value(w >> 1) + Weight(w & 1 != 0, 1)
  {
    hide ByteValue, LowByte, Weight;
    var b0, b1, b2, b3 := LowByte(w), LowByte(w >> 8), LowByte(w >> 16), LowByte(w >> 24);
    BytesShift(w);
    NoCarry(b3);
    ByteHalf(b0, b1);
    ByteHalf(b1, b2);
    ByteHalf(b2, b3);
    ByteHalf(b3, 0);
    Weights(b1, b2, b3);
  }

  lemma Weights(b1: Byte, b2: Byte, b3: Byte)
    ensures Weight(b1 & 1 != 0, 256) == 256 * Weight(b1 & 1 != 0, 1)
    ensures Weight(b2 & 1 != 0, 256) == 256 * Weight(b2 & 1 != 0, 1)
    ensures Weight(b3 & 1 != 0, 256) == 256 * Weight(b3 & 1 != 0, 1)
    ensures Weight(0 as Byte & 1 != 0, 256) == 0
  {}

  lemma ValueHalves(w: Bits)
    ensures Value(w) == 2 * Value(Halved(w)) + if LastBit(w) then 1 else 0
  {
    hide Value;
    HalfValue(w);
  }

  lemma OrBits(a: Bits, b: Bits)
    ensures Halved(Union(a, b)) == Union(Halved(a), Halved(b))
    ensures LastBit(Union(a, b)) <==> LastBit(a) || LastBit(b)
  {}

  lemma {:induction false} DownOr(a: Bits, b: Bits, s: nat)
    ensures Down(Union(a, b), s) == Union(Down(a, s), Down(b, s))
    decreases s
  {
    hide Halved, Union;
    if s > 0 {
      OrBits(a, b);
      DownOr(Halved(a), Halved(b), s - 1);
    }
  }

  /** The remainder by a power of two, one bit at a time. */
  function Low(w: Bits, k: nat): nat {
    if k == 0 then 0 else 2 * Low(Halved(w), k - 1) + if LastBit(w) then 1 else 0
  }

  lemma {:induction false} LowIs(w: Bits, k: nat)
    ensures Low(w, k) < FastDiv.Pow2(k)
    ensures Value(w) == Low(w, k) + FastDiv.Pow2(k) * Value(Down(w, k))
    decreases k
  {
    hide Value, Halved, LastBit;
    if k > 0 {
      ValueHalves(w);
      LowIs(Halved(w), k - 1);
      Twice(FastDiv.Pow2(k - 1), Value(Down(w, k)));
    }
  }

  lemma Twice(p: nat, d: int)
    ensures (2 * p) * d == 2 * (p * d)
  {}

  /** Where a has no bits, the union has those of b. */
  lemma {:induction false} LowOr(a: Bits, b: Bits, k: nat)
    ensures Low(a, k) == 0 ==> Low(Union(a, b), k) == Low(b, k)
    ensures Low(b, k) == 0 ==> Low(Union(a, b), k) == Low(a, k)
    decreases k
  {
    hide Halved, LastBit, Union;
    if k > 0 {
      OrBits(a, b);
      LowOr(Halved(a), Halved(b), k - 1);
    }
  }

  lemma ZeroBits(w: Bits)
    requires Value(w) == 0
    ensures w == 0
  {
    hide ByteValue, LowByte;
    ByteMax(LowByte(w));
    ByteMax(LowByte(w >> 8));
    ByteMax(LowByte(w >> 16));
    ByteMax(LowByte(w >> 24));
    ZeroBytes(w);
  }

  lemma ZeroBytes(w: Bits)
    requires LowByte(w) == 0 && LowByte(w >> 8) == 0 && LowByte(w >> 16) == 0 && LowByte(w >> 24) == 0
    ensures w == 0
  {}

  lemma {:induction false} DownTwice(w: Bits, s: nat, t: nat)
    ensures Down(w, s + t) == Down(Down(w, s), t)
    decreases s
  {
    hide Halved;
    if s > 0 {
      DownTwice(Halved(w), s - 1, t);
    }
  }

  lemma Dividend(p: nat, low: nat, d: int, v: int)
    requires low < p && p * v == low + p * d
    ensures low == 0 && d == v
  {
    assert p * (v - d) == low;
    Multiples(p, v - d);
    if d == v {
      assert p * (v - d) == 0;
    }
  }

  // ---------------------------------------------------------------------------
  // A field of a word

  function FieldAt(w: Bits, shift: nat, bits: nat): nat { Low(Down(w, shift), bits) }

  /** Above and below the field nothing has changed. */
  predicate SameAround(w: Bits, w': Bits, shift: nat, bits: nat) {
    Low(w', shift) == Low(w, shift) && Down(w', shift + bits) == Down(w, shift + bits)
  }

  /** A number or'ed into a clear field is what the field holds, and the rest is kept. */
  lemma FieldWritten(w: Bits, x: Bits, v: nat, shift: nat, bits: nat)
    requires FieldAt(w, shift, bits) == 0 && v < FastDiv.Pow2(bits) && Value(x) == FastDiv.Pow2(shift) * v
    ensures FieldAt(Union(w, x), shift, bits) == v && SameAround(w, Union(w, x), shift, bits)
  {
    hide Value, Union, Halved, LastBit;
    LowIs(x, shift);
    Dividend(FastDiv.Pow2(shift), Low(x, shift), Value(Down(x, shift)), v);
    LowOr(w, x, shift);
    DownOr(w, x, shift);
    var y := Down(x, shift);
    LowIs(y, bits);
    SmallDividend(FastDiv.Pow2(bits), Low(y, bits), Value(Down(y, bits)), v);
    LowOr(Down(w, shift), y, bits);
    DownOr(w, x, shift + bits);
    DownTwice(x, shift, bits);
    ZeroBits(Down(y, bits));
    OrZero(Down(w, shift + bits));
  }

  lemma SmallDividend(p: nat, low: nat, d: int, v: nat)
    requires low < p && v < p && v == low + p * d
    ensures d == 0 && low == v
  {
    Multiples(p, d);
    assert d == 0 ==> p * d == 0;
  }

  lemma OrZero(w: Bits)
    ensures Union(w, 0) == w
  {}

  // ---------------------------------------------------------------------------
  // Pass 3's patches

  function ShiftedUp(n: int, bits: nat, shift: nat): Bits { ToBits((n % FastDiv.Pow2(bits)) * FastDiv.Pow2(shift)) }

  /** The pair found by dasm_imm12, or -1. */
  function PatchRotated(word: Bits, n: int): Bits {
    match DasmImm12(ToBits(n))
    case Encoded(r, v) => word | v | ToBits(256 * r)
    case NotEncodable => 0xffff_ffff
  }

  function PatchWide(word: Bits, n: int): Bits { word | ((ToBits(n) & 0xf000) << 4) | (ToBits(n) & 0x0fff) }

  function ReadRotated(word: Bits): int { Value(Operand(Low(word >> 8, 4), word & 0xff)) }

  function ReadWide(word: Bits): int { Value(((word & 0x000f_0000) >> 4) | (word & 0x0fff)) }

  function PatchImm(kind: ImmKind, word: Bits, n: int): Bits {
    match kind
    case Field(scale, bits, shift, _) => Union(word, ShiftedUp(n / FastDiv.Pow2(scale), bits, shift))
    case Rotated => PatchRotated(word, n)
    case Wide(_, _, _) => PatchWide(word, n)
    case Low8(_) => PatchImmL8(word, n)
    case Low12(_) => PatchImmL12(word, n)
    case Vector8(_) => PatchImmL12(word, n)
  }

  /** The bits a patch is or'ed into are still zero. */
  predicate ImmClear(kind: ImmKind, word: Bits) {
    match kind
    case Field(_, bits, shift, _) => FieldAt(word, shift, bits) == 0
    case Rotated => ClearOf(word, 0x0fff)
    case Wide(_, _, _) => ClearOf(word, 0x000f_0fff)
    case Low8(_) => ClearOf(word, 0x0080_0f0f)
    case Low12(_) => ClearOf(word, 0x0080_0fff)
    case Vector8(_) => ClearOf(word, 0x0080_00ff)
  }

  /** A field of so many bits as a signed or unsigned number. */
  function Decoded(v: nat, bits: nat, signed: bool): int {
    if signed && bits > 0 && v >= FastDiv.Pow2(bits - 1) then v - FastDiv.Pow2(bits) else v
  }

  /** The number a processor makes of the patched word. */
  function ImmRead(kind: ImmKind, word: Bits): int {
    match kind
    case Field(scale, bits, shift, signed) => FastDiv.Pow2(scale) * Decoded(FieldAt(word, shift, bits), bits, signed)
    case Rotated => ReadRotated(word)
    case Wide(_, _, _) => ReadWide(word)
    case Low8(_) => LoadOffset8(word)
    case Low12(_) => LoadOffset12(word)
    case Vector8(_) => LoadOffsetV(word)
  }

  /** What it should be: the argument, as an unsigned number where it is a rotated pattern. */
  function ImmMeant(kind: ImmKind, n: int): int { if kind.Rotated? then n % WORD else n }

  /** The arguments that the fields of a kind have room for. */
  predicate ImmRoom(kind: ImmKind, n: int) {
    match kind
    case Field(_, _, _, _) => true
    case Rotated => true
    case Wide(_, _, _) => 0 <= n < 0x1_0000
    case Low8(_) => -0x100 < n < 0x100
    case Low12(_) => -0x1000 < n < 0x1000
    case Vector8(_) => -0x400 < n < 0x400
  }

  /** The bits outside the patch are as they were. */
  predicate ImmKept(kind: ImmKind, word: Bits, word': Bits) {
    match kind
    case Field(_, bits, shift, _) => SameAround(word, word', shift, bits)
    case Rotated => Outside(word', 0x0fff) == word
    case Wide(_, _, _) => Outside(word', 0x000f_0fff) == word
    case Low8(_) => Outside(word', 0x0080_0f0f) == word
    case Low12(_) => Outside(word', 0x0080_0fff) == word
    case Vector8(_) => Outside(word', 0x0080_00ff) == word
  }

  /** The widths that the preprocessor writes into action lists (dasm_arm.lua). */
  predicate Usual(kind: ImmKind) {
    match kind
    case Field(_, bits, shift, _) => shift + bits <= 32
    case Rotated => true
    case Wide(scale, bits, signed) => scale == 0 && bits == 16 && !signed
    case Low8(bits) => bits == 8
    case Low12(bits) => bits == 12
    case Vector8(bits) => bits == 8
  }

  /** With these widths every accepted argument has room. */
  lemma AcceptedHasRoom(kind: ImmKind, n: int)
    requires Usual(kind) && ImmOk(kind, n)
    ensures ImmRoom(kind, n)
  {
    assert FastDiv.Pow2(4) == 16;
    assert FastDiv.Pow2(8) == 256;
    assert FastDiv.Pow2(12) == 16 * FastDiv.Pow2(8);
    assert FastDiv.Pow2(16) == 16 * FastDiv.Pow2(12);
  }

  // ---------------------------------------------------------------------------
  // Scaled fields

  lemma {:induction false} PowAdds(a: nat, b: nat)
    ensures FastDiv.Pow2(a + b) == FastDiv.Pow2(a) * FastDiv.Pow2(b)
  {
    if a > 0 {
      PowAdds(a - 1, b);
    }
  }

  lemma {:induction false} PowGrows(a: nat, b: nat)
    requires a <= b
    ensures FastDiv.Pow2(a) <= FastDiv.Pow2(b)
  {
    if a < b {
      PowGrows(a, b - 1);
    }
  }

  lemma Pow32()
    ensures FastDiv.Pow2(32) == WORD
  {
    assert FastDiv.Pow2(4) == 16;
    assert FastDiv.Pow2(8) == 16 * FastDiv.Pow2(4);
    assert FastDiv.Pow2(16) == 256 * FastDiv.Pow2(8) by { PowAdds(8, 8); }
    PowAdds(16, 16);
  }

  /** The quotient of a number in range is in range, and so is what the field keeps of it. */
  lemma Quotient(n: int, p: nat, q: int, m: nat, half: nat, signed: bool)
    requires p >= 1 && n == p * q && m >= 1
    requires if signed then m == 2 * half && 0 - half <= n < half else 0 <= n < m
    ensures q % m == if q >= 0 then q else q + m
    ensures if signed then 0 - half <= q < half else 0 <= q < m
  {
    Magnitude(n, p, q);
    if q >= 0 {
      ModUnique(q, m, 0, q);
    } else {
      ModUnique(q, m, -1, q + m);
    }
  }

  lemma Magnitude(n: int, p: nat, q: int)
    requires p >= 1 && n == p * q
    ensures q >= 0 ==> 0 <= q <= n
    ensures q < 0 ==> n <= q
  {
    assert p * q == q + (p - 1) * q;
    Signs(p - 1, q);
  }

  lemma Signs(a: nat, b: int)
    ensures (b >= 0 ==> a * b >= 0) && (b <= 0 ==> a * b <= 0)
  {}

  lemma FieldReadsBack(scale: nat, bits: nat, shift: nat, signed: bool, word: Bits, n: int)
    requires ScaledOk(n, scale, bits, signed) && shift + bits <= 32 && FieldAt(word, shift, bits) == 0
    ensures var w := Union(word, ShiftedUp(n / FastDiv.Pow2(scale), bits, shift));
            && FastDiv.Pow2(scale) * Decoded(FieldAt(w, shift, bits), bits, signed) == n
            && SameAround(word, w, shift, bits)
  {
    hide FieldAt, SameAround, ToBits, Value, Union, ScaledOk;
    var p, m := FastDiv.Pow2(scale), FastDiv.Pow2(bits);
    var q := Scaled(n, scale, bits, signed);
    var v: nat := q % m;
    InWord(v, bits, shift);
    ValueOfBits(v * FastDiv.Pow2(shift));
    FieldWritten(word, ToBits(v * FastDiv.Pow2(shift)), v, shift, bits);
  }

  /** What the field keeps of an accepted number stands for the number without its scale. */
  lemma Scaled(n: int, scale: nat, bits: nat, signed: bool) returns (q: int)
    requires ScaledOk(n, scale, bits, signed)
    ensures q == n / FastDiv.Pow2(scale) && n == FastDiv.Pow2(scale) * q
    ensures 0 <= q % FastDiv.Pow2(bits) < FastDiv.Pow2(bits) && Decoded(q % FastDiv.Pow2(bits), bits, signed) == q
  {
    var p, m := FastDiv.Pow2(scale), FastDiv.Pow2(bits);
    q := n / p;
    assert n == p * q;
    hide ScaledOk;
    Quotient(n, p, q, m, if bits > 0 then FastDiv.Pow2(bits - 1) else 0, signed && bits > 0);
  }

  lemma InWord(v: nat, bits: nat, shift: nat)
    requires v < FastDiv.Pow2(bits) && shift + bits <= 32
    ensures 0 <= v * FastDiv.Pow2(shift) < WORD && v * FastDiv.Pow2(shift) == FastDiv.Pow2(shift) * v
  {
    hide FastDiv.Pow2;
    PowAdds(shift, bits);
    PowGrows(shift + bits, 32);
    Pow32();
    Product(FastDiv.Pow2(shift), v, FastDiv.Pow2(bits));
  }

  lemma Product(p: nat, v: nat, m: nat)
    requires p >= 1 && v < m
    ensures 0 <= v * p == p * v < p * m
  {
    assert p * (m - v) == p * m - p * v;
    Multiples(p, m - v);
  }

  // ---------------------------------------------------------------------------
  // The other kinds

  lemma RotatedField(word: Bits, v: Bits, r: Bits)
    requires ClearOf(word, 0x0fff) && v <= 0xff && r <= 0xf
    ensures (word | v | (r << 8)) & 0xff == v && ((word | v | (r << 8)) >> 8) & 0xf == r
    ensures (word | v | (r << 8)) & !0x0fff == word
  {}

  lemma WideField(word: Bits, k: Bits)
    requires ClearOf(word, 0x000f_0fff) && k <= 0xffff
    ensures var w := word | ((k & 0xf000) << 4) | (k & 0x0fff);
            ((w & 0x000f_0000) >> 4) | (w & 0x0fff) == k && w & !0x000f_0fff == word
  {}

  lemma SecondByte(r: nat)
    requires r < 16
    ensures ToBits(256 * r) == ToBits(r) << 8 && ToBits(r) <= 0xf
  {
    hide ToByte;
    ZeroByte();
    ByteRoundTrip(r);
    assert 256 * r / 256 == r && r / 256 == 0;
    MovedByte(ToByte(r));
  }

  lemma MovedByte(b: Byte)
    ensures FromBytes(0, b, 0, 0) == FromBytes(b, 0, 0, 0) << 8
    ensures b <= 0xf ==> FromBytes(b, 0, 0, 0) <= 0xf
  {}

  lemma LowNibble(x: Bits)
    ensures Low(x, 4) == Low(x & 0xf, 4)
  {
    LowTwo(x);
    LowTwo(x & 0xf);
    NibbleBits(x);
  }

  lemma LowTwo(x: Bits)
    ensures Low(x, 4) == (if x & 1 != 0 then 1 else 0) + (if x & 2 != 0 then 2 else 0) + (if x & 4 != 0 then 4 else 0) + if x & 8 != 0 then 8 else 0
  {
    hide Halved, LastBit;
    ThreeHalves(x);
    var y := Halved(x);
    var z := Halved(y);
    assert Low(x, 4) == 2 * Low(y, 3) + if LastBit(x) then 1 else 0;
    assert Low(y, 3) == 2 * Low(z, 2) + if LastBit(y) then 1 else 0;
    assert Low(z, 2) == 2 * Low(Halved(z), 1) + if LastBit(z) then 1 else 0;
    assert Low(Halved(z), 1) == if LastBit(Halved(z)) then 1 else 0;
  }

  lemma ThreeHalves(x: Bits)
    ensures LastBit(x) <==> x & 1 != 0
    ensures LastBit(Halved(x)) <==> x & 2 != 0
    ensures LastBit(Halved(Halved(x))) <==> x & 4 != 0
    ensures LastBit(Halved(Halved(Halved(x)))) <==> x & 8 != 0
  {}

  lemma NibbleBits(x: Bits)
    ensures ((x & 0xf) & 1 != 0 <==> x & 1 != 0) && ((x & 0xf) & 2 != 0 <==> x & 2 != 0)
    ensures ((x & 0xf) & 4 != 0 <==> x & 4 != 0) && ((x & 0xf) & 8 != 0 <==> x & 8 != 0)
  {}

  /** The rotation is kept in the four bits above the value. */
  lemma RotatedPair(word: Bits, v: Bits, r: nat)
    requires ClearOf(word, 0x0fff) && v <= 0xff && r < 16
    ensures var w := word | v | ToBits(256 * r);
            w & 0xff == v && Low(w >> 8, 4) == r && w & !0x0fff == word
  {
    hide ToBits, Value, Low;
    SecondByte(r);
    RotatedField(word, v, ToBits(r));
    LowNibble((word | v | ToBits(256 * r)) >> 8);
    NibbleValue(r);
  }

  lemma NibbleValue(r: nat)
    requires r < 16
    ensures Low(ToBits(r), 4) == r
  {
    hide ToBits, Value, Low;
    LowIs(ToBits(r), 4);
    ValueOfBits(r);
    assert FastDiv.Pow2(4) == 16;
    SmallDividend(16, Low(ToBits(r), 4), Value(Down(ToBits(r), 4)), r);
  }

  lemma RotatedReadsBack(word: Bits, n: int)
    requires ClearOf(word, 0x0fff) && DasmImm12(ToBits(n)).Encoded?
    ensures ReadRotated(PatchRotated(word, n)) == n % WORD
  {
    hide ToBits, Value, DasmImm12, Operand, Low;
    var e := DasmImm12(ToBits(n));
    Imm12Exact(ToBits(n));
    RotatedPair(word, e.value, e.rotation);
    SameBits(n);
  }

  lemma RotatedKeeps(word: Bits, n: int)
    requires ClearOf(word, 0x0fff) && DasmImm12(ToBits(n)).Encoded?
    ensures Outside(PatchRotated(word, n), 0x0fff) == word
  {
    hide ToBits, Value, DasmImm12, Operand, Low;
    var e := DasmImm12(ToBits(n));
    Imm12Exact(ToBits(n));
    RotatedPair(word, e.value, e.rotation);
  }

  /** Only the value modulo 2^32 is kept of a C int. */
  lemma SameBits(n: int)
    ensures Value(ToBits(n)) == n % WORD
  {
    hide Value, ToByte, FromBytes;
    assert n % WORD % WORD == n % WORD;
    assert ToBits(n) == ToBits(n % WORD);
    ValueOfBits(n % WORD);
  }

  lemma TwoBytes(n: int)
    requires 0 <= n < 0x1_0000
    ensures ToBits(n) <= 0xffff
  {
    hide FromBytes, ToByte;
    ZeroByte();
    var m := n / 256;
    assert m < 256 && m / 256 == 0 && m / 256 % 256 == 0 && m / 256 / 256 == 0;
    LowHalf(ToByte(n % 256), ToByte(m % 256));
  }

  lemma LowHalf(b0: Byte, b1: Byte)
    ensures FromBytes(b0, b1, 0, 0) <= 0xffff
  {}

  lemma WideReadsBack(word: Bits, n: int)
    requires ClearOf(word, 0x000f_0fff)
    ensures ReadWide(PatchWide(word, n)) == n <==> 0 <= n < 0x1_0000
  {
    hide ToBits, Value;
    var w := PatchWide(word, n);
    if 0 <= n < 0x1_0000 {
      TwoBytes(n);
      ValueOfBits(n);
      WideField(word, ToBits(n));
    } else {
      WideSmall(w);
      SmallValues(((w & 0x000f_0000) >> 4) | (w & 0x0fff));
    }
  }

  lemma WideKeeps(word: Bits, n: int)
    requires ClearOf(word, 0x000f_0fff) && 0 <= n < 0x1_0000
    ensures Outside(PatchWide(word, n), 0x000f_0fff) == word
  {
    hide ToBits;
    TwoBytes(n);
    WideField(word, ToBits(n));
  }

  lemma WideSmall(w: Bits)
    ensures ((w & 0x000f_0000) >> 4) | (w & 0x0fff) <= 0xffff
  {}

  /** The argument is read back from the word patched with it exactly if there is room for it, and then the rest is kept. */
  predicate ReadBack(kind: ImmKind, word: Bits, n: int) {
    var w := PatchImm(kind, word, Kept(kind, n));
    && (ImmRead(kind, w) == ImmMeant(kind, n) <==> ImmRoom(kind, n))
    && (ImmRoom(kind, n) ==> ImmKept(kind, word, w))
  }

  lemma BitsReadBack(kind: ImmKind, word: Bits, n: int)
    requires ImmOk(kind, n) && ImmClear(kind, word) && (kind.Field? || kind.Rotated? || kind.Wide?)
    requires kind.Field? ==> kind.shift + kind.bits <= 32
    ensures ReadBack(kind, word, n)
  {
    hide ToBits, FieldAt, SameAround, DasmImm12, ShiftedUp, Union, ScaledOk, Decoded;
    hide ClearOf, Outside, PatchRotated, PatchWide, ReadRotated, ReadWide;
    if kind.Field? {
      FieldReadsBack(kind.scale, kind.bits, kind.shift, kind.signed, word, n);
    } else if kind.Rotated? {
      RotatedReadsBack(word, n);
      RotatedKeeps(word, n);
    } else {
      WideReadsBack(word, n);
      if 0 <= n < 0x1_0000 {
        WideKeeps(word, n);
      }
    }
  }

  lemma OffsetReadsBack(kind: ImmKind, word: Bits, n: int)
    requires ImmOk(kind, n) && ImmClear(kind, word) && (kind.Low8? || kind.Low12? || kind.Vector8?)
    ensures ReadBack(kind, word, n)
  {
    hide PatchImmL8, PatchImmL12, LoadOffset8, LoadOffset12, LoadOffsetV, FitsMagnitude, ClearOf, Outside;
    match kind
    case Low8(_) => Load8ReadsBack(word, n);
    case Low12(_) => Load12ReadsBack(word, n);
    case Vector8(_) => LoadVReadsBack(word, n / 4);
    case _ =>
  }

  /** Immediates of every kind that pass 1 has accepted. */
  lemma ImmediateReadsBack(kind: ImmKind, word: Bits, n: int)
    requires ImmOk(kind, n) && ImmClear(kind, word) && (kind.Field? ==> kind.shift + kind.bits <= 32)
    ensures ReadBack(kind, word, n)
  {
    hide ReadBack, ImmOk, ImmClear;
    if kind.Low8? || kind.Low12? || kind.Vector8? {
      OffsetReadsBack(kind, word, n);
    } else {
      BitsReadBack(kind, word, n);
    }
  }

  /** So with the usual widths every accepted argument is read back. */
  lemma UsualReadsBack(kind: ImmKind, word: Bits, n: int)
    requires ImmOk(kind, n) && ImmClear(kind, word) && Usual(kind)
    ensures var w := PatchImm(kind, word, Kept(kind, n)); ImmRead(kind, w) == ImmMeant(kind, n) && ImmKept(kind, word, w)
  {
    hide ImmRead, ImmKept, ImmMeant, PatchImm, ImmOk, ImmClear, ImmRoom;
    AcceptedHasRoom(kind, n);
    ImmediateReadsBack(kind, word, n);
  }
}
