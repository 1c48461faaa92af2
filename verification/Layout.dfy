/**
  * Actions, what a section has been fed, and where its code ends up
  * (QJIT/LuaJIT-2.1.0-beta3/dynasm/dasm_arm.h:18-27,45-50).
  */
module Layout {
  import opened ArmBits
  import opened LabelChains
  import FastDiv

  /** Which instruction field a relocation is patched into. */
  datatype Form = Branch | Load8 | Load12 | LoadV

  datatype ImmKind =
    | Field(scale: nat, bits: nat, shift: nat, signed: bool)
    | Wide(scale: nat, bits: nat, signed: bool)
    | Rotated
    | Low8(bits: nat)
    | Low12(bits: nat)
    | Vector8(bits: nat)

  /** An element of the action list; the escaped form carries the word that follows it. */
  datatype Action =
    | Stop
    | Section(n: nat)
    | Word(w: Bits)
    | Esc(w: Bits)
    | RelExt(id: nat, form: Form)
    | Align(mask: nat)
    | RelLG(n: nat, form: Form)
    | LabelLG(n: nat)
    | RelPC(form: Form)
    | LabelPC
    | Immediate(kind: ImmKind)

  predicate Ends(a: Action) { a.Stop? || a.Section? }

  predicate HasSlot(a: Action) { a.Align? || a.RelLG? || a.LabelLG? || a.RelPC? || a.LabelPC? || a.Immediate? }

  predicate HasArg(a: Action) { a.RelPC? || a.LabelPC? || a.Immediate? }

  /** Patches go into the word before them. */
  predicate IsPatch(a: Action) { a.RelExt? || a.RelLG? || a.RelPC? || a.Immediate? }

  /** Alignment masks are 2^k - 1 that fit the mask byte; x & mask is then x modulo 2^k. */
  predicate IsMask(mask: nat) {
    mask == 0 || mask == 1 || mask == 3 || mask == 7 || mask == 15 || mask == 31 || mask == 63 || mask == 127 || mask == 255
  }

  function And(x: int, mask: nat): nat { x % (mask + 1) }

  /** What the preprocessor guarantees of an action list. */
  ghost predicate WellFormed(acts: seq<Action>) {
    && acts != [] && Ends(acts[|acts| - 1])
    && (forall i :: 0 <= i < |acts| && acts[i].Align? ==> IsMask(acts[i].mask))
    && (forall i :: 0 <= i < |acts| && IsPatch(acts[i]) ==> i > 0 && FollowsWord(acts[i - 1]))
  }

  predicate FollowsWord(a: Action) { a.Word? || a.Esc? || IsPatch(a) }

  predicate FitsMagnitude(n: int, bits: nat) {
    (if n >= 0 then n else 0 - n) < FastDiv.Pow2(bits)
  }

  /** Pass 1's range check of an immediate argument (dasm_arm.h:243-266). */
  predicate ImmOk(kind: ImmKind, n: int) {
    match kind
    case Field(scale, bits, _, signed) => ScaledOk(n, scale, bits, signed)
    case Wide(scale, bits, signed) => ScaledOk(n, scale, bits, signed)
    case Rotated => DasmImm12(ToBits(n)).Encoded?
    case Low8(bits) => FitsMagnitude(n, bits)
    case Low12(bits) => FitsMagnitude(n, bits)
    case Vector8(bits) => n % 4 == 0 && FitsMagnitude(n / 4, bits)
  }

  predicate ScaledOk(n: int, scale: nat, bits: nat, signed: bool) {
    && n % FastDiv.Pow2(scale) == 0
    && if signed && bits > 0 then 0 - FastDiv.Pow2(bits - 1) <= n < FastDiv.Pow2(bits - 1) else 0 <= n < FastDiv.Pow2(bits)
  }

  /** The value kept for an immediate argument. */
  function Kept(kind: ImmKind, arg: int): int { if kind.Vector8? then arg / 4 else arg }

  /** The argument of an action passes its check. */
  predicate Accepts(a: Action, arg: int) { a.Immediate? ==> ImmOk(a.kind, arg) }

  // ---------------------------------------------------------------------------
  // What a section has been fed

  /** The start of one dasm_put, or one of its actions with its argument. */
  datatype Entry = Begin(start: nat) | Act(i: nat, arg: int)

  /** A put never starts with a patch: there would be no word of its own to patch; and it records only arguments that pass. */
  predicate Known(acts: seq<Action>, e: Entry) {
    if e.Begin? then e.start < |acts| && !IsPatch(acts[e.start])
    else e.i < |acts| && !Ends(acts[e.i]) && Accepts(acts[e.i], e.arg)
  }

  predicate HasCell(acts: seq<Action>, e: Entry) { e.Begin? || (e.i < |acts| && HasSlot(acts[e.i])) }

  /** Cells used by the first k entries. */
  function Cells(acts: seq<Action>, es: seq<Entry>, k: nat): nat
    requires k <= |es|
  {
    if k == 0 then 0 else Cells(acts, es, k - 1) + if HasCell(acts, es[k - 1]) then 1 else 0
  }

  function Growth(acts: seq<Action>, e: Entry): nat {
    if e.Begin? || e.i >= |acts| then 0
    else match acts[e.i]
      case Word(_) => 4
      case Esc(_) => 4
      case Align(mask) => mask
      case _ => 0
  }

  /** Pass 1's offset in front of entry k: every alignment is given its worst case. */
  function Estimate(acts: seq<Action>, es: seq<Entry>, k: nat): nat
    requires k <= |es|
  {
    if k == 0 then 0 else Estimate(acts, es, k - 1) + Growth(acts, es[k - 1])
  }

  /** Words of padding needed at word w to reach a multiple of mask + 1 bytes. */
  function Pad(w: nat, mask: nat): nat {
    if mask < 3 || w % ((mask + 1) / 4) == 0 then 0 else (mask + 1) / 4 - w % ((mask + 1) / 4)
  }

  /** Words emitted up to and including e, when w words come before it. */
  function WordsAfter(acts: seq<Action>, w: nat, e: Entry): nat {
    if e.Begin? || e.i >= |acts| then w
    else match acts[e.i]
      case Word(_) => w + 1
      case Esc(_) => w + 1
      case Align(mask) => w + Pad(w, mask)
      case _ => w
  }

  /** Words emitted in front of entry k of a section that starts at word w. */
  function Words(acts: seq<Action>, w: nat, es: seq<Entry>, k: nat): nat
    requires k <= |es|
  {
    if k == 0 then w else WordsAfter(acts, Words(acts, w, es, k - 1), es[k - 1])
  }

  /** The word at which section s starts: sections follow each other. */
  function SectionStart(acts: seq<Action>, entries: seq<seq<Entry>>, s: nat): nat
    requires s <= |entries|
  {
    if s == 0 then 0
    else Words(acts, SectionStart(acts, entries, s - 1), entries[s - 1], |entries[s - 1]|)
  }

  /** The word in front of entry k of section s: the true offset is four times this. */
  function WordAt(acts: seq<Action>, entries: seq<seq<Entry>>, s: nat, k: nat): nat
    requires s < |entries| && k <= |entries[s]|
  {
    Words(acts, SectionStart(acts, entries, s), entries[s], k)
  }

  // ---------------------------------------------------------------------------
  // Alignment arithmetic

  lemma ModUnique(x: int, m: nat, q: int, r: nat)
    requires r < m && x == m * q + r
    ensures x % m == r && x / m == q
  {
    assert m * (q - x / m) == x % m - r;
    Multiples(m, q - x / m);
  }

  lemma Multiples(m: nat, d: int)
    ensures d >= 1 ==> m * d >= m
    ensures d <= -1 ==> m * d <= 0 - m
  {}

  lemma Quarters(mask: nat) returns (q: nat)
    requires IsMask(mask) && mask >= 3
    ensures q > 0 && mask + 1 == 4 * q && (mask + 1) / 4 == q
  {
    q := (mask + 1) / 4;
  }

  /** The bytes in front of word w reach 4 * (w % q) bytes past a multiple of 4 * q. */
  lemma BytesPast(w: nat, q: nat)
    requires q > 0
    ensures (4 * w) % (4 * q) == 4 * (w % q)
    ensures (4 * w + 4 * q - 1) % (4 * q) == if w % q == 0 then 4 * q - 1 else 4 * (w % q) - 1
    ensures (w + 1) % q == if w % q + 1 == q then 0 else w % q + 1
  {
    var d, r := w / q, w % q;
    assert w == q * d + r;
    assert 4 * w == (4 * q) * d + 4 * r;
    ModUnique(4 * w, 4 * q, d, 4 * r);
    if r == 0 {
      ModUnique(4 * w + 4 * q - 1, 4 * q, d, 4 * q - 1);
    } else {
      assert (4 * q) * (d + 1) == (4 * q) * d + 4 * q;
      ModUnique(4 * w + 4 * q - 1, 4 * q, d + 1, 4 * r - 1);
    }
    if r + 1 == q {
      assert q * (d + 1) == q * d + q;
      ModUnique(w + 1, q, d + 1, 0);
    } else {
      ModUnique(w + 1, q, d, r + 1);
    }
  }

  lemma SmallMask(x: int)
    ensures And(x, 0) == 0
    ensures And(4 * x, 1) == 0 && And(4 * x + 1, 1) == 1
  {
    ModUnique(x, 1, x, 0);
    ModUnique(4 * x, 2, 2 * x, 0);
    ModUnique(4 * x + 1, 2, 2 * x, 1);
  }

  /** One step of pass 3's padding loop. */
  lemma PadStep(w: nat, mask: nat)
    requires IsMask(mask)
    ensures And(4 * w, mask) == 0 <==> Pad(w, mask) == 0
    ensures And(4 * w, mask) != 0 ==> Pad(w, mask) == Pad(w + 1, mask) + 1
  {
    if mask < 3 {
      SmallMask(w);
    } else {
      var q := Quarters(mask);
      BytesPast(w, q);
    }
  }

  /** Padding leads to an aligned word, and to the nearest one. */
  lemma {:induction false} PadAligns(w: nat, mask: nat, p: nat)
    requires IsMask(mask)
    ensures And(4 * (w + Pad(w, mask)), mask) == 0
    ensures p < Pad(w, mask) ==> And(4 * (w + p), mask) != 0
    decreases Pad(w, mask)
  {
    PadStep(w, mask);
    if Pad(w, mask) > 0 {
      PadAligns(w + 1, mask, if p == 0 then 0 else p - 1);
    }
  }

  /**
    * Pass 2 at an alignment: with estimate e in front of it and correction c so
    * that e + c is the true offset, taking And(e + mask + c, mask) off c makes the
    * corrected estimate after it the true padded offset.
    */
  lemma AlignCorrection(e: nat, c: int, w: nat, mask: nat)
    requires IsMask(mask) && e + c == 4 * w
    ensures e + mask + (c - And(e + mask + c, mask)) == 4 * (w + Pad(w, mask))
  {
    assert e + mask + c == 4 * w + mask;
    if mask < 3 {
      SmallMask(w);
    } else {
      var q := Quarters(mask);
      BytesPast(w, q);
    }
  }
}
