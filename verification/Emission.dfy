/**
  * What pass 3 should emit: the code of all sections, said in terms of the true
  * offsets of labels (QJIT/LuaJIT-2.1.0-beta3/dynasm/dasm_arm.h:343-423).
  */
module Emission {
  import opened ArmBits
  import opened LabelChains
  import opened Layout
  import opened Immediates
  import opened Feed
  import opened Fixing
  import FastDiv

  datatype Status = OK | RangeSec | RangeLG | RangePC | RangeI | RangeRel | UndefLG | UndefPC | Phase

  const NOP: Bits := 0xe1a0_0000

  /** A distance the relocation check of a form accepts. */
  predicate InReach(form: Form, n: int) {
    n % 4 == 0 &&
    match form
    case Branch => -0x200_0000 <= n < 0x200_0000
    case Load8 => -256 <= n <= 256
    case Load12 => -4096 <= n <= 4096
    case LoadV => -1020 <= n <= 1020
  }

  function PatchRel(form: Form, word: Bits, n: int): Bits {
    match form
    case Branch => PatchBranch(word, n)
    case Load8 => PatchImmL8(word, n)
    case Load12 => PatchImmL12(word, n)
    case LoadV => PatchImmL12(word, n / 4)
  }

  /** The bits a relocation is or'ed into are still zero. */
  predicate FieldClear(form: Form, word: Bits) {
    match form
    case Branch => word & 0x00ff_ffff == 0
    case Load8 => ClearOf(word, 0x0080_0f0f)
    case Load12 => ClearOf(word, 0x0080_0fff)
    case LoadV => ClearOf(word, 0x0080_00ff)
  }

  /** The distance a processor makes of a patched word. */
  function Distance(form: Form, word: Bits): int {
    match form
    case Branch => BranchDistance(word)
    case Load8 => LoadOffset8(word)
    case Load12 => LoadOffset12(word)
    case LoadV => LoadOffsetV(word)
  }

  /** The two ends of the range of the loads pass the check but do not fit their fields. */
  predicate Encodable(form: Form, n: int) {
    match form
    case Load8 => n != 256 && n != -256
    case Load12 => n != 4096 && n != -4096
    case _ => true
  }

  lemma RelocationReadsBack(form: Form, word: Bits, n: int)
    requires FieldClear(form, word) && InReach(form, n)
    ensures Distance(form, PatchRel(form, word, n)) == n <==> Encodable(form, n)
  {
    hide BranchDistance, LoadOffset8, LoadOffset12, LoadOffsetV, PatchBranch, PatchImmL8, PatchImmL12;
    match form
    case Branch => BranchReadsBack(word, n);
    case Load8 => Load8ReadsBack(word, n);
    case Load12 => Load12ReadsBack(word, n);
    case LoadV => LoadVReadsBack(word, n / 4);
  }

  function Nops(n: nat): (s: seq<Bits>)
    ensures |s| == n && forall i :: 0 <= i < n ==> s[i] == NOP
  {
    if n == 0 then [] else Nops(n - 1) + [NOP]
  }

  /** The code so far, or the status with which the encoder gave up. */
  datatype Out = Done(code: seq<Bits>) | Failed(st: Status)

  function At(cells: Memory, p: int): int { if p >= 0 && p in cells then cells[p] else 0 }

  function PatchLast(code: seq<Bits>, word: Bits): seq<Bits> {
    if code == [] then [] else code[|code| - 1 := word]
  }

  function Last(code: seq<Bits>): Bits { if code == [] then 0 else code[|code| - 1] }

  /** A patch of the last word only. */
  predicate LastPatched(code: seq<Bits>, after: seq<Bits>) {
    code != [] && |after| == |code| && after[..|code| - 1] == code[..|code| - 1]
  }

  /** A relocation by n bytes, counted from the word after the patched one. */
  function Relocated(form: Form, code: seq<Bits>, n: int): Out {
    if InReach(form, n) then Done(PatchLast(code, PatchRel(form, Last(code), n))) else Failed(RangeRel)
  }

  /** One entry after the code so far; ref is what the entry's cell holds. */
  function Emit(a: Action, ext: (int, nat) -> int, cells: Memory, ref: int, code: seq<Bits>): Out {
    match a
    case Word(w) => Done(code + [w])
    case Esc(w) => Done(code + [w])
    case Align(mask) => Done(code + Nops(Pad(|code|, mask)))
    case RelExt(id, form) => Relocated(form, code, ext(4 * |code|, id))
    case RelLG(_, form) => if ref < 0 then Failed(UndefLG) else Relocated(form, code, At(cells, ref) - 4 * |code| - 4)
    case RelPC(form) => if ref < 0 then Failed(UndefPC) else Relocated(form, code, At(cells, ref) - 4 * |code| - 4)
    case Immediate(kind) => Done(PatchLast(code, PatchImm(kind, Last(code), ref)))
    case _ => Done(code)
  }

  function EmitEntry(acts: seq<Action>, ext: (int, nat) -> int, cells: Memory, es: seq<Entry>, s: nat, k: nat, code: seq<Bits>): Out
    requires k < |es|
  {
    if es[k].Begin? || es[k].i >= |acts| then Done(code)
    else Emit(acts[es[k].i], ext, cells, At(cells, Pos(s, Cells(acts, es, k))), code)
  }

  /** The code in front of entry k of section s, when code0 comes before the section. */
  function SectionCode(acts: seq<Action>, ext: (int, nat) -> int, cells: Memory, es: seq<Entry>, s: nat, k: nat, code0: seq<Bits>): Out
    requires k <= |es|
  {
    if k == 0 then Done(code0)
    else match SectionCode(acts, ext, cells, es, s, k - 1, code0)
      case Failed(st) => Failed(st)
      case Done(code) => EmitEntry(acts, ext, cells, es, s, k - 1, code)
  }

  /** The code of the first s sections. */
  function Code(acts: seq<Action>, ext: (int, nat) -> int, cells: Memory, entries: seq<seq<Entry>>, s: nat): Out
    requires s <= |entries|
  {
    if s == 0 then Done([])
    else match Code(acts, ext, cells, entries, s - 1)
      case Failed(st) => Failed(st)
      case Done(code) => SectionCode(acts, ext, cells, entries[s - 1], s - 1, |entries[s - 1]|, code)
  }

  lemma EmitLength(a: Action, ext: (int, nat) -> int, cells: Memory, ref: int, code: seq<Bits>)
    ensures var r := Emit(a, ext, cells, ref, code);
            r.Done? ==> |r.code| == if a.Word? || a.Esc? then |code| + 1
                                    else if a.Align? then |code| + Pad(|code|, a.mask) else |code|
  {}

  /** As many words come out as the layout says. */
  lemma {:induction false} SectionLength(acts: seq<Action>, ext: (int, nat) -> int, cells: Memory, es: seq<Entry>, s: nat, k: nat, code0: seq<Bits>)
    requires k <= |es|
    ensures var r := SectionCode(acts, ext, cells, es, s, k, code0); r.Done? ==> |r.code| == Words(acts, |code0|, es, k)
  {
    hide Emit, Pad;
    if k > 0 {
      SectionLength(acts, ext, cells, es, s, k - 1, code0);
      var r := SectionCode(acts, ext, cells, es, s, k - 1, code0);
      if r.Done? && es[k - 1].Act? && es[k - 1].i < |acts| {
        EmitLength(acts[es[k - 1].i], ext, cells, At(cells, Pos(s, Cells(acts, es, k - 1))), r.code);
      }
    }
  }

  lemma {:induction false} CodeLength(acts: seq<Action>, ext: (int, nat) -> int, cells: Memory, entries: seq<seq<Entry>>, s: nat)
    requires s <= |entries|
    ensures var r := Code(acts, ext, cells, entries, s); r.Done? ==> |r.code| == SectionStart(acts, entries, s)
  {
    if s > 0 {
      CodeLength(acts, ext, cells, entries, s - 1);
      var r := Code(acts, ext, cells, entries, s - 1);
      if r.Done? {
        SectionLength(acts, ext, cells, entries[s - 1], s - 1, |entries[s - 1]|, r.code);
      }
    }
  }

  /** The word in front never shrinks. */
  lemma {:induction false} WordsGrow(acts: seq<Action>, w: nat, es: seq<Entry>, j: nat, k: nat)
    requires j <= k <= |es|
    ensures w <= Words(acts, w, es, j) <= Words(acts, w, es, k)
  {
    if j < k {
      WordsGrow(acts, w, es, j, k - 1);
    } else if j > 0 {
      WordsGrow(acts, w, es, 0, k - 1);
    }
  }

  lemma {:induction false} StartsGrow(acts: seq<Action>, entries: seq<seq<Entry>>, s: nat, t: nat)
    requires s <= t <= |entries|
    ensures SectionStart(acts, entries, s) <= SectionStart(acts, entries, t)
  {
    if s < t {
      StartsGrow(acts, entries, s, t - 1);
      WordsGrow(acts, SectionStart(acts, entries, t - 1), entries[t - 1], 0, |entries[t - 1]|);
    }
  }

  /** In front of every entry there is room in a buffer of the final size. */
  lemma InBuffer(acts: seq<Action>, entries: seq<seq<Entry>>, s: nat, k: nat)
    requires s < |entries| && k <= |entries[s]|
    ensures WordAt(acts, entries, s, k) <= SectionStart(acts, entries, |entries|)
  {
    hide WordsAfter;
    WordsGrow(acts, SectionStart(acts, entries, s), entries[s], k, |entries[s]|);
    StartsGrow(acts, entries, s + 1, |entries|);
  }

  /** A patch always has a word of its own section in front of it. */
  lemma {:induction false} PatchHasWord(acts: seq<Action>, es: seq<Entry>, k: nat, w: nat)
    requires WellFormed(acts) && Threaded(acts, es, false) && k < |es|
    requires es[k].Act? && es[k].i < |acts| && IsPatch(acts[es[k].i])
    ensures Words(acts, w, es, k) > w
    decreases k
  {
    assert k > 0;
    assert Step(acts, es, k - 1);
    WordsGrow(acts, w, es, 0, k - 1);
    if es[k - 1].Act? && IsPatch(acts[es[k - 1].i]) {
      PatchHasWord(acts, es, k - 1, w);
    }
  }

  // ---------------------------------------------------------------------------
  // Progress of pass 3

  function CodeTo(acts: seq<Action>, ext: (int, nat) -> int, cells: Memory, entries: seq<seq<Entry>>, s: nat, k: nat): Out
    requires s < |entries| && k <= |entries[s]|
  {
    match Code(acts, ext, cells, entries, s)
    case Failed(st) => Failed(st)
    case Done(code) => SectionCode(acts, ext, cells, entries[s], s, k, code)
  }

  lemma CodeToOn(acts: seq<Action>, ext: (int, nat) -> int, cells: Memory, entries: seq<seq<Entry>>, s: nat, k: nat)
    requires s < |entries| && k < |entries[s]|
    ensures CodeTo(acts, ext, cells, entries, s, k + 1) ==
            match CodeTo(acts, ext, cells, entries, s, k)
            case Failed(st) => Failed(st)
            case Done(code) => EmitEntry(acts, ext, cells, entries[s], s, k, code)
  {}

  /** In front of entry k of section s: buffer position p, w words written, and they are the right ones. */
  ghost predicate Emitting(acts: seq<Action>, ext: (int, nat) -> int, cells: Memory, entries: seq<seq<Entry>>,
                           s: nat, k: nat, p: nat, buf: seq<Bits>, w: nat)
  {
    && s < |entries| && k <= |entries[s]|
    && p == Pos(s, Cells(acts, entries[s], k))
    && w <= |buf| && CodeTo(acts, ext, cells, entries, s, k) == Done(buf[..w])
  }

  lemma EmittingRange(acts: seq<Action>, ext: (int, nat) -> int, cells: Memory, entries: seq<seq<Entry>>,
                      s: nat, k: nat, p: nat, buf: seq<Bits>, w: nat)
    requires Emitting(acts, ext, cells, entries, s, k, p, buf, w)
    ensures s < |entries| && k <= |entries[s]| && p == Pos(s, Cells(acts, entries[s], k)) && w <= |buf|
    ensures w == WordAt(acts, entries, s, k)
  {
    hide EmitEntry;
    CodeLength(acts, ext, cells, entries, s);
    match Code(acts, ext, cells, entries, s)
    case Failed(_) =>
    case Done(code) => SectionLength(acts, ext, cells, entries[s], s, k, code);
  }

  /** What the next action does to the emitted code. */
  lemma EmitOn(acts: seq<Action>, ext: (int, nat) -> int, cells: Memory, entries: seq<seq<Entry>>,
               s: nat, k: nat, p: nat, buf: seq<Bits>, w: nat)
    requires Emitting(acts, ext, cells, entries, s, k, p, buf, w) && k < |entries[s]|
    requires entries[s][k].Act? && entries[s][k].i < |acts|
    ensures w <= |buf|
    ensures var r := Emit(acts[entries[s][k].i], ext, cells, At(cells, p), buf[..w]);
            CodeTo(acts, ext, cells, entries, s, k + 1) == r
  {
    hide Emit;
    CodeToOn(acts, ext, cells, entries, s, k);
  }

  lemma EmitDone(acts: seq<Action>, ext: (int, nat) -> int, cells: Memory, entries: seq<seq<Entry>>,
                 s: nat, k: nat, p: nat, buf: seq<Bits>, w: nat, buf': seq<Bits>, w': nat)
    requires Emitting(acts, ext, cells, entries, s, k, p, buf, w) && k < |entries[s]|
    requires w' <= |buf'| && CodeTo(acts, ext, cells, entries, s, k + 1) == Done(buf'[..w'])
    ensures Emitting(acts, ext, cells, entries, s, k + 1, if HasCell(acts, entries[s][k]) then p + 1 else p, buf', w')
  {
    hide CodeTo, HasCell;
  }

  lemma FailedLater(acts: seq<Action>, ext: (int, nat) -> int, cells: Memory, entries: seq<seq<Entry>>, s: nat, k: nat, st: Status)
    requires s < |entries| && k <= |entries[s]| && CodeTo(acts, ext, cells, entries, s, k) == Failed(st)
    ensures Code(acts, ext, cells, entries, |entries|) == Failed(st)
  {
    SectionFails(acts, ext, cells, entries, s, k, st, |entries[s]|);
    CodeFails(acts, ext, cells, entries, s + 1, st, |entries|);
  }

  lemma {:induction false} SectionFails(acts: seq<Action>, ext: (int, nat) -> int, cells: Memory, entries: seq<seq<Entry>>, s: nat, k: nat, st: Status, j: nat)
    requires s < |entries| && k <= j <= |entries[s]| && CodeTo(acts, ext, cells, entries, s, k) == Failed(st)
    ensures CodeTo(acts, ext, cells, entries, s, j) == Failed(st)
  {
    if k < j {
      SectionFails(acts, ext, cells, entries, s, k, st, j - 1);
      CodeToOn(acts, ext, cells, entries, s, j - 1);
    }
  }

  lemma {:induction false} CodeFails(acts: seq<Action>, ext: (int, nat) -> int, cells: Memory, entries: seq<seq<Entry>>, s: nat, st: Status, t: nat)
    requires s <= t <= |entries| && Code(acts, ext, cells, entries, s) == Failed(st)
    ensures Code(acts, ext, cells, entries, t) == Failed(st)
  {
    if s < t {
      CodeFails(acts, ext, cells, entries, s, st, t - 1);
    }
  }

  // ---------------------------------------------------------------------------
  // The memory pass 3 reads

  /** Pass 2 has succeeded. */
  ghost predicate LinkedUp(acts: seq<Action>, m: Mem, s0: nat) {
    && WellFormed(acts) && Fed(acts, m.entries, m.kind, s0, false)
    && HistOk(m.kind, m.h) && Distinct(m.h) && Laid(acts, m, m.cells)
    && (m.h != [] ==> m.entries != [] && m.entries[0] != [])
  }

  /** The reference in cell p has found no definition, and its label is one that dasm_link marks. */
  ghost predicate MarkedRef(m: Mem, p: nat) {
    p in m.kind && m.kind[p].KRef? && Target(m.h, p) == None && m.kind[p].l.LG? && m.kind[p].l.n >= 20
  }

  /** Position 0 is the cell of the first put. */
  lemma ZeroIsCell(acts: seq<Action>, m: Mem, s0: nat)
    requires LinkedUp(acts, m, s0) && m.h != []
    ensures 0 in m.cells
  {
    hide KindOf, RefLaid, HistOk, WordAt;
    assert SectionFed(acts, m.entries, s0, false, 0);
    assert CellAt(acts, m.entries, 0, 0, 0);
  }

  /** The reference in cell p is resolved to entry j of section t, a label. */
  ghost predicate ResolvedTo(acts: seq<Action>, m: Mem, p: nat, t: nat, j: nat) {
    exists q: nat :: CellAt(acts, m.entries, t, j, q) && q in m.kind && m.kind[q].KLabel? && Target(m.h, p) == Some(q)
  }

  /**
    * What a reference cell holds: a mark exactly for an undefined global numbered
    * 20 or more, and otherwise a position that can be read - the true offset of
    * the label it is resolved to, if there is one.
    */
  lemma RefHolds(acts: seq<Action>, m: Mem, s0: nat, s: nat, k: nat, p: nat)
    requires LinkedUp(acts, m, s0) && CellAt(acts, m.entries, s, k, p)
    requires KindOf(acts, m.entries[s], k).KRef?
    ensures p in m.cells && (m.cells[p] < 0 <==> MarkedRef(m, p))
    ensures m.cells[p] >= 0 ==> m.cells[p] in m.cells
    ensures Target(m.h, p).Some? ==>
              exists t: nat, j: nat :: t < |m.entries| && j < |m.entries[t]| && ResolvedTo(acts, m, p, t, j)
                                       && At(m.cells, m.cells[p]) == 4 * WordAt(acts, m.entries, t, j)
  {
    hide HasCell, KindOf, WordAt, Threaded, Cells, Pos, Live, Waiting;
    OwnKind(acts, m, s0, s, k, p);
    var i :| 0 <= i < |m.h| && m.h[i].pos == p;
    assert Fits1(m.h[i], m.kind[p]) && RefLaid(m.h, m.cells, i);
    if Target(m.h, p).Some? {
      var d := TargetIsDef(m.h, i);
      var q := m.h[d].pos;
      assert q in m.kind && Fits1(m.h[d], m.kind[q]);
      var t: nat, j: nat :| CellAt(acts, m.entries, t, j, q);
      assert ResolvedTo(acts, m, p, t, j);
    } else if m.cells[p] == 0 {
      ZeroIsCell(acts, m, s0);
    }
  }

  lemma CellPresent(acts: seq<Action>, m: Mem, s0: nat, s: nat, k: nat, p: nat)
    requires LinkedUp(acts, m, s0) && s < |m.entries| && k < |m.entries[s]| && p == Pos(s, Cells(acts, m.entries[s], k))
    requires HasCell(acts, m.entries[s][k])
    ensures CellAt(acts, m.entries, s, k, p) && p in m.cells
    ensures m.entries[s][k].Begin? ==> m.cells[p] == m.entries[s][k].start
  {
    hide HasCell, WordAt, Threaded, Cells, Pos, RefLaid;
    assert CellAt(acts, m.entries, s, k, p);
    OwnKind(acts, m, s0, s, k, p);
  }

  // ---------------------------------------------------------------------------
  // What the emitted code means

  /** After pass 2 a label's cell is the number of bytes emitted in front of it. */
  lemma LabelOffsetTrue(acts: seq<Action>, ext: (int, nat) -> int, m: Mem, s0: nat, s: nat, k: nat, p: nat, code: seq<Bits>)
    requires LinkedUp(acts, m, s0) && CellAt(acts, m.entries, s, k, p) && KindOf(acts, m.entries[s], k).KLabel?
    requires CodeTo(acts, ext, m.cells, m.entries, s, k) == Done(code)
    ensures p in m.cells && m.cells[p] == 4 * |code|
  {
    hide HasCell, KindOf, Threaded, RefLaid, Code, SectionCode, CodeTo;
    OwnKind(acts, m, s0, s, k, p);
    CodeToLength(acts, ext, m.cells, m.entries, s, k, code);
  }

  lemma CodeToLength(acts: seq<Action>, ext: (int, nat) -> int, cells: Memory, entries: seq<seq<Entry>>, s: nat, k: nat, code: seq<Bits>)
    requires s < |entries| && k <= |entries[s]| && CodeTo(acts, ext, cells, entries, s, k) == Done(code)
    ensures |code| == WordAt(acts, entries, s, k)
  {
    hide EmitEntry;
    CodeLength(acts, ext, cells, entries, s);
    match Code(acts, ext, cells, entries, s)
    case Failed(_) =>
    case Done(before) => SectionLength(acts, ext, cells, entries[s], s, k, before);
  }

  /**
    * A resolved reference.  With d the distance from the patched word plus 8, which
    * is what the program counter reads there, to the label, the encoder reports
    * exactly those d that are out of reach; else it changes the last word alone, and
    * the processor arrives at the label exactly when d is not one of the two ends of
    * a load's range.
    */
  lemma BranchReachesLabel(acts: seq<Action>, ext: (int, nat) -> int, m: Mem, s0: nat, s: nat, k: nat, p: nat, code: seq<Bits>,
                           t: nat, j: nat, atLabel: seq<Bits>)
    requires LinkedUp(acts, m, s0) && CellAt(acts, m.entries, s, k, p)
    requires KindOf(acts, m.entries[s], k).KRef? && CodeTo(acts, ext, m.cells, m.entries, s, k) == Done(code)
    requires t < |m.entries| && j < |m.entries[t]| && ResolvedTo(acts, m, p, t, j)
    requires CodeTo(acts, ext, m.cells, m.entries, t, j) == Done(atLabel)
    ensures code != []
    ensures var form := acts[m.entries[s][k].i].form;
            var here := 4 * (|code| - 1) + 8;
            var d := 4 * |atLabel| - here;
            match CodeTo(acts, ext, m.cells, m.entries, s, k + 1)
            case Failed(st) => st == RangeRel && !InReach(form, d)
            case Done(after) =>
              && InReach(form, d) && LastPatched(code, after)
              && (FieldClear(form, Last(code)) ==>
                    (here + Distance(form, Last(after)) == 4 * |atLabel| <==> Encodable(form, d)))
  {
    hide LinkedUp, CellAt, KindOf, CodeTo, Relocated, InReach, FieldClear, Distance, Encodable, ResolvedTo;
    var form, d := RefPatched(acts, ext, m, s0, s, k, p, code, t, j, atLabel);
    RelocatedReads(form, code, d);
  }

  lemma RelocatedReads(form: Form, code: seq<Bits>, d: int)
    requires code != []
    ensures match Relocated(form, code, d)
            case Failed(st) => st == RangeRel && !InReach(form, d)
            case Done(after) =>
              && InReach(form, d) && LastPatched(code, after)
              && (FieldClear(form, Last(code)) ==> (Distance(form, Last(after)) == d <==> Encodable(form, d)))
  {
    hide InReach, FieldClear, Distance, Encodable, PatchRel;
    if InReach(form, d) && FieldClear(form, Last(code)) {
      RelocationReadsBack(form, Last(code), d);
    }
  }

  /** The emitted code offers the relocation the true distance to the label. */
  lemma RefPatched(acts: seq<Action>, ext: (int, nat) -> int, m: Mem, s0: nat, s: nat, k: nat, p: nat, code: seq<Bits>,
                   t: nat, j: nat, atLabel: seq<Bits>) returns (form: Form, d: int)
    requires LinkedUp(acts, m, s0) && CellAt(acts, m.entries, s, k, p)
    requires KindOf(acts, m.entries[s], k).KRef? && CodeTo(acts, ext, m.cells, m.entries, s, k) == Done(code)
    requires t < |m.entries| && j < |m.entries[t]| && ResolvedTo(acts, m, p, t, j)
    requires CodeTo(acts, ext, m.cells, m.entries, t, j) == Done(atLabel)
    ensures code != [] && form == acts[m.entries[s][k].i].form && d == 4 * |atLabel| - 4 * (|code| - 1) - 8
    ensures CodeTo(acts, ext, m.cells, m.entries, s, k + 1) == Relocated(form, code, d)
  {
    hide LinkedUp, KindOf, HasCell, CodeTo, Relocated, Cells, Pos, Words, SectionStart, Target;
    RefEntry(acts, m.entries[s], k);
    var i := RefOfEntry(acts, m, s0, s, k, p);
    var q: nat :| CellAt(acts, m.entries, t, j, q) && q in m.kind && m.kind[q].KLabel? && Target(m.h, p) == Some(q);
    ResolvedHolds(acts, m, s0, s, k, p, q);
    LabelKind(acts, m, s0, t, j, q);
    LabelOffsetTrue(acts, ext, m, s0, t, j, q, atLabel);
    RefEmitted(acts, ext, m, s0, s, k, p, i, code);
    CodeToLength(acts, ext, m.cells, m.entries, s, k, code);
    WordBefore(acts, m, s0, s, k);
    form := acts[m.entries[s][k].i].form;
    d := 4 * |atLabel| - 4 * (|code| - 1) - 8;
  }

  lemma LabelKind(acts: seq<Action>, m: Mem, s0: nat, t: nat, j: nat, q: nat)
    requires LinkedUp(acts, m, s0) && CellAt(acts, m.entries, t, j, q) && q in m.kind && m.kind[q].KLabel?
    ensures KindOf(acts, m.entries[t], j).KLabel?
  {
    OwnKind(acts, m, s0, t, j, q);
  }

  lemma RefEntry(acts: seq<Action>, es: seq<Entry>, k: nat)
    requires k < |es| && HasCell(acts, es[k]) && KindOf(acts, es, k).KRef?
    ensures es[k].Act? && es[k].i < |acts| && (acts[es[k].i].RelLG? || acts[es[k].i].RelPC?)
  {}

  lemma ResolvedHolds(acts: seq<Action>, m: Mem, s0: nat, s: nat, k: nat, p: nat, q: nat)
    requires LinkedUp(acts, m, s0) && CellAt(acts, m.entries, s, k, p) && KindOf(acts, m.entries[s], k).KRef?
    requires Target(m.h, p) == Some(q)
    ensures p in m.cells && m.cells[p] == q
  {
    hide HasCell, KindOf, WordAt, Threaded, Cells, Pos;
    OwnKind(acts, m, s0, s, k, p);
    var i :| 0 <= i < |m.h| && m.h[i].pos == p;
    assert Fits1(m.h[i], m.kind[p]) && RefLaid(m.h, m.cells, i);
  }

  lemma WordBefore(acts: seq<Action>, m: Mem, s0: nat, s: nat, k: nat)
    requires LinkedUp(acts, m, s0) && s < |m.entries| && k < |m.entries[s]|
    requires m.entries[s][k].Act? && m.entries[s][k].i < |acts| && IsPatch(acts[m.entries[s][k].i])
    ensures WordAt(acts, m.entries, s, k) > 0
  {
    assert SectionFed(acts, m.entries, s0, false, s);
    PatchHasWord(acts, m.entries[s], k, SectionStart(acts, m.entries, s));
  }

  // ---------------------------------------------------------------------------
  // Words, padding, external symbols and immediates

  /** Words come out as they are, escaped or not; padding is no-operations up to the nearest multiple; labels emit nothing. */
  lemma WordEmitted(acts: seq<Action>, ext: (int, nat) -> int, m: Mem, s0: nat, s: nat, k: nat, code: seq<Bits>, p: nat)
    requires LinkedUp(acts, m, s0) && s < |m.entries| && k < |m.entries[s]|
    requires CodeTo(acts, ext, m.cells, m.entries, s, k) == Done(code)
    requires m.entries[s][k].Act? ==> m.entries[s][k].i < |acts| && !IsPatch(acts[m.entries[s][k].i])
    ensures match CodeTo(acts, ext, m.cells, m.entries, s, k + 1)
            case Failed(_) => false
            case Done(after) =>
              if m.entries[s][k].Begin? then after == code
              else match acts[m.entries[s][k].i]
                case Word(w) => after == code + [w]
                case Esc(w) => after == code + [w]
                case Align(mask) =>
                  && code <= after && And(4 * |after|, mask) == 0
                  && (forall i :: |code| <= i < |after| ==> after[i] == NOP)
                  && (|code| <= p < |after| ==> And(4 * p, mask) != 0)
                case _ => after == code
  {
    hide LinkedUp, CodeTo, Cells, Pos, Pad, IsMask, And;
    CodeToOn(acts, ext, m.cells, m.entries, s, k);
    if m.entries[s][k].Act? && acts[m.entries[s][k].i].Align? {
      var mask := acts[m.entries[s][k].i].mask;
      MaskOf(acts, m, s0, m.entries[s][k].i);
      PadAligns(|code|, mask, if p >= |code| then p - |code| else 0);
    }
  }

  lemma MaskOf(acts: seq<Action>, m: Mem, s0: nat, i: nat)
    requires LinkedUp(acts, m, s0) && i < |acts| && acts[i].Align?
    ensures IsMask(acts[i].mask)
  {}

  /**
    * The processor finds in the emitted word the argument that was given to dasm_put,
    * exactly when the fields of its kind have room for it, and then nothing but these
    * fields has changed.
    */
  lemma ImmediateEmitted(acts: seq<Action>, ext: (int, nat) -> int, m: Mem, s0: nat, s: nat, k: nat, code: seq<Bits>)
    requires LinkedUp(acts, m, s0) && s < |m.entries| && k < |m.entries[s]|
    requires m.entries[s][k].Act? && m.entries[s][k].i < |acts| && acts[m.entries[s][k].i].Immediate?
    requires CodeTo(acts, ext, m.cells, m.entries, s, k) == Done(code)
    ensures var kind, n := acts[m.entries[s][k].i].kind, m.entries[s][k].arg;
            match CodeTo(acts, ext, m.cells, m.entries, s, k + 1)
            case Failed(_) => false
            case Done(after) =>
              && LastPatched(code, after)
              && (ImmClear(kind, Last(code)) && (kind.Field? ==> kind.shift + kind.bits <= 32) ==>
                    && (ImmRead(kind, Last(after)) == ImmMeant(kind, n) <==> ImmRoom(kind, n))
                    && (ImmRoom(kind, n) ==> ImmKept(kind, Last(code), Last(after))))
  {
    hide LinkedUp, CodeTo, Cells, Pos, PatchImm, ImmClear, ImmRead, ImmMeant, ImmRoom, ImmKept, ImmOk, Kept;
    var kind, n := acts[m.entries[s][k].i].kind, m.entries[s][k].arg;
    ImmediateCell(acts, m, s0, s, k);
    CodeToLength(acts, ext, m.cells, m.entries, s, k, code);
    WordBefore(acts, m, s0, s, k);
    CodeToOn(acts, ext, m.cells, m.entries, s, k);
    if ImmClear(kind, Last(code)) && (kind.Field? ==> kind.shift + kind.bits <= 32) {
      ImmediateReadsBack(kind, Last(code), n);
    }
  }

  /** Pass 1 has checked the argument, and pass 2 has left it alone. */
  lemma ImmediateCell(acts: seq<Action>, m: Mem, s0: nat, s: nat, k: nat)
    requires LinkedUp(acts, m, s0) && s < |m.entries| && k < |m.entries[s]|
    requires m.entries[s][k].Act? && m.entries[s][k].i < |acts| && acts[m.entries[s][k].i].Immediate?
    ensures ImmOk(acts[m.entries[s][k].i].kind, m.entries[s][k].arg)
    ensures At(m.cells, Pos(s, Cells(acts, m.entries[s], k))) == Kept(acts[m.entries[s][k].i].kind, m.entries[s][k].arg)
  {
    hide Cells, Pos, WordAt, RefLaid, HistOk, ImmOk, Kept;
    var p := Pos(s, Cells(acts, m.entries[s], k));
    assert CellAt(acts, m.entries, s, k, p);
    OwnKind(acts, m, s0, s, k, p);
    assert SectionFed(acts, m.entries, s0, false, s) && Step(acts, m.entries[s], k);
  }

  /** A relocation to an external symbol, by the number the caller's function gives for it. */
  lemma ExternalEmitted(acts: seq<Action>, ext: (int, nat) -> int, m: Mem, s0: nat, s: nat, k: nat, code: seq<Bits>)
    requires LinkedUp(acts, m, s0) && s < |m.entries| && k < |m.entries[s]|
    requires m.entries[s][k].Act? && m.entries[s][k].i < |acts| && acts[m.entries[s][k].i].RelExt?
    requires CodeTo(acts, ext, m.cells, m.entries, s, k) == Done(code)
    ensures var a := acts[m.entries[s][k].i];
            var d := ext(4 * |code|, a.id);
            match CodeTo(acts, ext, m.cells, m.entries, s, k + 1)
            case Failed(st) => st == RangeRel && !InReach(a.form, d)
            case Done(after) =>
              && InReach(a.form, d) && LastPatched(code, after)
              && (FieldClear(a.form, Last(code)) ==> (Distance(a.form, Last(after)) == d <==> Encodable(a.form, d)))
  {
    hide LinkedUp, CodeTo, Cells, Pos, Relocated, InReach, FieldClear, Distance, Encodable;
    var a := acts[m.entries[s][k].i];
    CodeToLength(acts, ext, m.cells, m.entries, s, k, code);
    WordBefore(acts, m, s0, s, k);
    CodeToOn(acts, ext, m.cells, m.entries, s, k);
    RelocatedReads(a.form, code, ext(4 * |code|, a.id));
  }

  // ---------------------------------------------------------------------------
  // References that nobody answers

  /** Reference i has found no definition. */
  predicate Unanswered(h: seq<Event>, i: nat) {
    i < |h| && h[i].Ref? && Target(h, h[i].pos) == None
  }

  /** Globals from 20 on are the ones dasm_link marks. */
  predicate Checked(l: Label) { l.LG? && l.n >= 20 }

  ghost predicate Missing(h: seq<Event>) {
    exists i: nat :: Unanswered(h, i) && Checked(h[i].l)
  }

  /** The entry of a reference. */
  ghost predicate RefAt(acts: seq<Action>, m: Mem, s: nat, k: nat, p: nat, i: nat) {
    && CellAt(acts, m.entries, s, k, p) && KindOf(acts, m.entries[s], k).KRef?
    && i < |m.h| && m.h[i].Ref? && m.h[i].pos == p && KindOf(acts, m.entries[s], k).l == m.h[i].l
  }

  lemma EntryOfRef(acts: seq<Action>, m: Mem, s0: nat, i: nat) returns (s: nat, k: nat)
    requires LinkedUp(acts, m, s0) && i < |m.h| && m.h[i].Ref?
    ensures RefAt(acts, m, s, k, m.h[i].pos, i)
  {
    hide HasCell, KindOf, RefLaid, Threaded, Cells, Pos, WordAt;
    var p := m.h[i].pos;
    assert p in m.kind && Fits1(m.h[i], m.kind[p]);
    s, k :| CellAt(acts, m.entries, s, k, p);
    OwnKind(acts, m, s0, s, k, p);
  }

  lemma RefOfEntry(acts: seq<Action>, m: Mem, s0: nat, s: nat, k: nat, p: nat) returns (i: nat)
    requires LinkedUp(acts, m, s0) && CellAt(acts, m.entries, s, k, p) && KindOf(acts, m.entries[s], k).KRef?
    ensures RefAt(acts, m, s, k, p, i)
  {
    hide HasCell, KindOf, RefLaid, Threaded, Cells, Pos, WordAt;
    OwnKind(acts, m, s0, s, k, p);
    i :| 0 <= i < |m.h| && m.h[i].pos == p;
    assert Fits1(m.h[i], m.kind[p]);
  }

  /**
    * "Every reference without a definition is reported" is false: it is, exactly
    * when its label is a global numbered 20 or more.  For any other label the cell of
    * another waiting reference, or cell 0, is read in place of the label's.
    */
  lemma UnansweredReported(acts: seq<Action>, ext: (int, nat) -> int, m: Mem, s0: nat, s: nat, k: nat, p: nat, i: nat, code: seq<Bits>)
    requires LinkedUp(acts, m, s0) && RefAt(acts, m, s, k, p, i) && Unanswered(m.h, i)
    requires CodeTo(acts, ext, m.cells, m.entries, s, k) == Done(code)
    ensures CodeTo(acts, ext, m.cells, m.entries, s, k + 1) == Failed(UndefLG) <==> Checked(m.h[i].l)
    ensures !Checked(m.h[i].l) ==>
              && p in m.cells && m.cells[p] in m.cells
              && (m.cells[p] == 0 || m.cells[p] in Waiting(m.h, m.h[i].l))
              && CodeTo(acts, ext, m.cells, m.entries, s, k + 1)
                 == Relocated(acts[m.entries[s][k].i].form, code, At(m.cells, m.cells[p]) - 4 * |code| - 4)
  {
    hide KindOf, CodeTo, LinkedUp, Cells, Pos, HasCell, Relocated, Target, Waiting;
    RefEmitted(acts, ext, m, s0, s, k, p, i, code);
    if !Checked(m.h[i].l) {
      LinkLeft(acts, m, s0, i);
      RelocatedStatus(acts[m.entries[s][k].i].form, code, At(m.cells, m.cells[p]) - 4 * |code| - 4);
    }
  }

  lemma LinkLeft(acts: seq<Action>, m: Mem, s0: nat, i: nat)
    requires LinkedUp(acts, m, s0) && Unanswered(m.h, i) && !Checked(m.h[i].l)
    ensures m.h[i].pos in m.cells && (m.cells[m.h[i].pos] == 0 || m.cells[m.h[i].pos] in Waiting(m.h, m.h[i].l))
  {
    hide Target, Waiting, Fed, CellAt, KindOf;
    assert RefLaid(m.h, m.cells, i);
  }

  /** What becomes of a reference, answered or not. */
  lemma RefEmitted(acts: seq<Action>, ext: (int, nat) -> int, m: Mem, s0: nat, s: nat, k: nat, p: nat, i: nat, code: seq<Bits>)
    requires LinkedUp(acts, m, s0) && RefAt(acts, m, s, k, p, i)
    requires CodeTo(acts, ext, m.cells, m.entries, s, k) == Done(code)
    ensures m.entries[s][k].Act? && m.entries[s][k].i < |acts|
    ensures acts[m.entries[s][k].i].RelLG? || acts[m.entries[s][k].i].RelPC?
    ensures var next := CodeTo(acts, ext, m.cells, m.entries, s, k + 1);
            if Unanswered(m.h, i) && Checked(m.h[i].l) then next == Failed(UndefLG)
            else && p in m.cells && m.cells[p] in m.cells
                 && next == Relocated(acts[m.entries[s][k].i].form, code, At(m.cells, m.cells[p]) - 4 * |code| - 4)
  {
    hide CodeTo, LinkedUp, Cells, Pos, Relocated, Estimate;
    RefEntry(acts, m.entries[s], k);
    KindInHistory(acts, m, s0, s, k, p, i);
    RefHolds(acts, m, s0, s, k, p);
    CodeToOn(acts, ext, m.cells, m.entries, s, k);
  }

  lemma KindInHistory(acts: seq<Action>, m: Mem, s0: nat, s: nat, k: nat, p: nat, i: nat)
    requires LinkedUp(acts, m, s0) && RefAt(acts, m, s, k, p, i)
    ensures MarkedRef(m, p) <==> Unanswered(m.h, i) && Checked(m.h[i].l)
  {
    hide HasCell, KindOf, RefLaid, Threaded, Cells, Pos, WordAt;
    OwnKind(acts, m, s0, s, k, p);
  }

  /** A failure has a first entry at which it shows. */
  lemma {:induction false} SectionBreaks(acts: seq<Action>, ext: (int, nat) -> int, cells: Memory, entries: seq<seq<Entry>>, s: nat, j: nat, st: Status)
    returns (k: nat, code: seq<Bits>)
    requires s < |entries| && j <= |entries[s]| && CodeTo(acts, ext, cells, entries, s, j) == Failed(st)
    requires Code(acts, ext, cells, entries, s).Done?
    ensures k < j && CodeTo(acts, ext, cells, entries, s, k) == Done(code)
    ensures CodeTo(acts, ext, cells, entries, s, k + 1) == Failed(st)
    decreases j
  {
    hide EmitEntry, Code;
    assert j > 0;
    CodeToOn(acts, ext, cells, entries, s, j - 1);
    match CodeTo(acts, ext, cells, entries, s, j - 1)
    case Failed(_) => k, code := SectionBreaks(acts, ext, cells, entries, s, j - 1, st);
    case Done(before) => k, code := j - 1, before;
  }

  lemma {:induction false} CodeBreaks(acts: seq<Action>, ext: (int, nat) -> int, cells: Memory, entries: seq<seq<Entry>>, t: nat, st: Status)
    returns (s: nat, k: nat, code: seq<Bits>)
    requires t <= |entries| && Code(acts, ext, cells, entries, t) == Failed(st)
    ensures s < t && k < |entries[s]| && CodeTo(acts, ext, cells, entries, s, k) == Done(code)
    ensures CodeTo(acts, ext, cells, entries, s, k + 1) == Failed(st)
    decreases t
  {
    hide SectionCode;
    if Code(acts, ext, cells, entries, t - 1).Failed? {
      s, k, code := CodeBreaks(acts, ext, cells, entries, t - 1, st);
    } else {
      s := t - 1;
      k, code := SectionBreaks(acts, ext, cells, entries, s, |entries[s]|, st);
    }
  }

  /** Only relocations fail, and those of external symbols only for their range. */
  lemma OnlyRefsUndefined(acts: seq<Action>, ext: (int, nat) -> int, m: Mem, s0: nat, s: nat, k: nat, code: seq<Bits>, st: Status)
    requires LinkedUp(acts, m, s0) && s < |m.entries| && k < |m.entries[s]|
    requires CodeTo(acts, ext, m.cells, m.entries, s, k) == Done(code)
    requires CodeTo(acts, ext, m.cells, m.entries, s, k + 1) == Failed(st) && st != RangeRel
    ensures exists p: nat :: CellAt(acts, m.entries, s, k, p) && KindOf(acts, m.entries[s], k).KRef?
  {
    hide CodeTo, LinkedUp, Cells, Estimate;
    CodeToOn(acts, ext, m.cells, m.entries, s, k);
    assert CellAt(acts, m.entries, s, k, Pos(s, Cells(acts, m.entries[s], k)));
  }

  /**
    * Whole runs of pass 3: it gives up with an undefined label only if a checked
    * global is referred to and never defined, and it always gives up if there is
    * such a reference.  Otherwise nothing but a distance out of reach can stop it.
    */
  lemma UndefinedStops(acts: seq<Action>, ext: (int, nat) -> int, m: Mem, s0: nat)
    requires LinkedUp(acts, m, s0)
    ensures var r := Code(acts, ext, m.cells, m.entries, |m.entries|);
            && (r.Done? ==> !Missing(m.h))
            && (r.Failed? ==> r.st == RangeRel || (r.st == UndefLG && Missing(m.h)))
  {
    hide LinkedUp, CodeTo, Code, KindOf, Relocated;
    var r := Code(acts, ext, m.cells, m.entries, |m.entries|);
    if i: nat :| Unanswered(m.h, i) && Checked(m.h[i].l) {
      var s, k := EntryOfRef(acts, m, s0, i);
      match CodeTo(acts, ext, m.cells, m.entries, s, k)
      case Failed(st) => FailedLater(acts, ext, m.cells, m.entries, s, k, st);
      case Done(code) =>
        RefEmitted(acts, ext, m, s0, s, k, m.h[i].pos, i, code);
        FailedLater(acts, ext, m.cells, m.entries, s, k + 1, UndefLG);
    }
    if r.Failed? && r.st != RangeRel {
      var s, k, code := CodeBreaks(acts, ext, m.cells, m.entries, |m.entries|, r.st);
      OnlyRefsUndefined(acts, ext, m, s0, s, k, code, r.st);
      var p: nat :| CellAt(acts, m.entries, s, k, p) && KindOf(acts, m.entries[s], k).KRef?;
      var i := RefOfEntry(acts, m, s0, s, k, p);
      RefEmitted(acts, ext, m, s0, s, k, p, i, code);
      RelocatedStatus(acts[m.entries[s][k].i].form, code, At(m.cells, At(m.cells, p)) - 4 * |code| - 4);
    }
  }

  lemma RelocatedStatus(form: Form, code: seq<Bits>, n: int)
    ensures Relocated(form, code, n).Failed? ==> Relocated(form, code, n).st == RangeRel
  {}

  /** One instruction with a branch to global 10, which nothing defines. */
  function EarlyGlobalList(w: Bits): seq<Action> { [Word(w), RelLG(20, Branch), Stop] }

  function EarlyGlobal(): Mem {
    Mem(map[0 := 0, 1 := 0], map[0 := KOther(0), 1 := KRef(LG(10), false)],
        [[Begin(0), Act(0, 0), Act(1, 0)]], [Ref(LG(10), 1, false)])
  }

  lemma EarlyGlobalCells(w: Bits)
    ensures var acts, es := EarlyGlobalList(w), EarlyGlobal().entries[0];
            Cells(acts, es, 0) == 0 && Cells(acts, es, 1) == 1 && Cells(acts, es, 2) == 1 && Cells(acts, es, 3) == 2
  {}

  lemma EarlyGlobalLinked(w: Bits)
    ensures LinkedUp(EarlyGlobalList(w), EarlyGlobal(), 0) && Unanswered(EarlyGlobal().h, 0)
  {
    hide Cells, Estimate, WordAt;
    var acts, m := EarlyGlobalList(w), EarlyGlobal();
    EarlyGlobalCells(w);
    assert CellAt(acts, m.entries, 0, 0, 0) && CellAt(acts, m.entries, 0, 2, 1);
    assert m.h[0].pos == 1 && RefLaid(m.h, m.cells, 0);
  }

  /** The input on which a missing definition goes unreported: the code branches to its own start. */
  lemma EarlyGlobalMissed(w: Bits, ext: (int, nat) -> int)
    ensures var acts, m := EarlyGlobalList(w), EarlyGlobal();
            && LinkedUp(acts, m, 0) && Unanswered(m.h, 0)
            && Code(acts, ext, m.cells, m.entries, 1) == Done([PatchBranch(w, -8)])
  {
    hide LinkedUp, Unanswered, Cells, PatchBranch;
    var acts, m := EarlyGlobalList(w), EarlyGlobal();
    EarlyGlobalLinked(w);
    EarlyGlobalCells(w);
    var es, cells := m.entries[0], m.cells;
    assert SectionCode(acts, ext, cells, es, 0, 1, []) == Done([]);
    assert SectionCode(acts, ext, cells, es, 0, 2, []) == Done([w]);
    assert SectionCode(acts, ext, cells, es, 0, 3, []) == Done([PatchBranch(w, -8)]);
    assert Code(acts, ext, cells, m.entries, 0) == Done([]);
  }
}
