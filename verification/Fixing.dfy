/**
  * What pass 2 does to the cells: alignments shrink, label estimates become true
  * offsets (QJIT/LuaJIT-2.1.0-beta3/dynasm/dasm_arm.h:277-334).
  */
module Fixing {
  import opened LabelChains
  import opened Layout
  import opened Feed

  // ---------------------------------------------------------------------------
  // Walking the entries by way of the action list

  /** Entry k is reached with the action index after the entry before it. */
  lemma WalkOn(acts: seq<Action>, es: seq<Entry>, k: nat)
    requires Threaded(acts, es, false) && 0 < k <= |es|
    ensures var i := After(es[k - 1]);
            && i < |acts|
            && (!Ends(acts[i]) ==> k < |es| && es[k].Act? && es[k].i == i)
            && (Ends(acts[i]) && k < |es| ==> es[k].Begin?)
  {
    assert Step(acts, es, k - 1);
  }

  lemma WalkStart(acts: seq<Action>, es: seq<Entry>)
    requires Threaded(acts, es, false) && es != []
    ensures es[0].Begin?
  {}

  lemma CellUnique(acts: seq<Action>, entries: seq<seq<Entry>>, kind: map<nat, Kind>, s0: nat,
                   s: nat, k: nat, t: nat, j: nat, p: nat)
    requires Fed(acts, entries, kind, s0, false) && CellAt(acts, entries, s, k, p) && CellAt(acts, entries, t, j, p)
    ensures s == t && k == j
  {
    hide KindOf, HasCell, Cells, Threaded;
    assert SectionFed(acts, entries, s0, false, s) && SectionFed(acts, entries, s0, false, t);
    CellsGrow(acts, entries[s], k, |entries[s]|);
    CellsGrow(acts, entries[t], j, |entries[t]|);
    PosApart(s, Cells(acts, entries[s], k), t, Cells(acts, entries[t], j));
    if k < j {
      CellsGrow(acts, entries[s], k, j);
    } else if j < k {
      CellsGrow(acts, entries[s], j, k);
    }
  }

  // ---------------------------------------------------------------------------
  // Progress of pass 2

  predicate Before(t: nat, j: nat, s: nat, k: nat) { t < s || (t == s && j < k) }

  /** Labels in front of entry k of section s hold true offsets; every other cell is as it was. */
  ghost predicate Fixed(acts: seq<Action>, m: Mem, cells: Memory, s: nat, k: nat) {
    && cells.Keys == m.cells.Keys
    && forall t: nat, j: nat, p: nat :: CellAt(acts, m.entries, t, j, p) ==>
         && p in cells && p in m.kind
         && cells[p] == if m.kind[p].KLabel? && Before(t, j, s, k) then 4 * WordAt(acts, m.entries, t, j) else m.cells[p]
  }

  /** c is the correction: pass 1's estimate plus c is the true offset. */
  ghost predicate Corrected(acts: seq<Action>, entries: seq<seq<Entry>>, s: nat, k: nat, c: int) {
    && s < |entries| && k <= |entries[s]|
    && Estimate(acts, entries[s], k) + c == 4 * WordAt(acts, entries, s, k)
  }

  lemma NothingFixed(acts: seq<Action>, m: Mem, s0: nat)
    requires Fed(acts, m.entries, m.kind, s0, false) && m.cells.Keys == m.kind.Keys
    ensures Fixed(acts, m, m.cells, 0, 0)
    ensures m.entries != [] ==> Corrected(acts, m.entries, 0, 0, 0)
  {
    hide KindOf, HasCell;
  }

  lemma NextSection(acts: seq<Action>, m: Mem, cells: Memory, s: nat, c: int)
    requires s < |m.entries|
    requires Fixed(acts, m, cells, s, |m.entries[s]|) && Corrected(acts, m.entries, s, |m.entries[s]|, c)
    ensures Fixed(acts, m, cells, s + 1, 0)
    ensures s + 1 < |m.entries| ==> Corrected(acts, m.entries, s + 1, 0, c + Estimate(acts, m.entries[s], |m.entries[s]|))
    ensures c + Estimate(acts, m.entries[s], |m.entries[s]|) == 4 * SectionStart(acts, m.entries, s + 1)
  {
    hide KindOf, HasCell, Growth, WordsAfter;
  }

  lemma FixNothing(acts: seq<Action>, m: Mem, s0: nat, cells: Memory, s: nat, k: nat)
    requires Fed(acts, m.entries, m.kind, s0, false) && Fixed(acts, m, cells, s, k)
    requires s < |m.entries| && k < |m.entries[s]|
    requires HasCell(acts, m.entries[s][k]) ==> !KindOf(acts, m.entries[s], k).KLabel?
    ensures Fixed(acts, m, cells, s, k + 1)
  {
    hide HasCell, KindOf, WordAt, Threaded;
  }

  lemma FixLabel(acts: seq<Action>, m: Mem, s0: nat, cells: Memory, s: nat, k: nat, p: nat)
    requires Fed(acts, m.entries, m.kind, s0, false) && Fixed(acts, m, cells, s, k)
    requires CellAt(acts, m.entries, s, k, p) && KindOf(acts, m.entries[s], k).KLabel?
    ensures Fixed(acts, m, cells[p := 4 * WordAt(acts, m.entries, s, k)], s, k + 1)
  {
    hide HasCell, KindOf, WordAt, Threaded, Cells, Pos;
    var cells' := cells[p := 4 * WordAt(acts, m.entries, s, k)];
    forall t: nat, j: nat, q: nat | CellAt(acts, m.entries, t, j, q)
      ensures
        && q in cells' && q in m.kind
        && cells'[q] == if m.kind[q].KLabel? && Before(t, j, s, k + 1) then 4 * WordAt(acts, m.entries, t, j) else m.cells[q]
    {
      if q == p {
        CellUnique(acts, m.entries, m.kind, s0, s, k, t, j, p);
        OwnKind(acts, m, s0, s, k, p);
      } else {
        CellKeeps(acts, m.entries, t, j, q, s, k, p);
      }
    }
    assert p in m.cells.Keys;
  }

  lemma OwnKind(acts: seq<Action>, m: Mem, s0: nat, s: nat, k: nat, p: nat)
    requires Fed(acts, m.entries, m.kind, s0, false) && CellAt(acts, m.entries, s, k, p)
    ensures p in m.kind && HasCell(acts, m.entries[s][k]) && m.kind[p] == KindOf(acts, m.entries[s], k)
  {}

  /** Different cells belong to different entries. */
  lemma CellKeeps(acts: seq<Action>, entries: seq<seq<Entry>>, t: nat, j: nat, q: nat, s: nat, k: nat, p: nat)
    requires CellAt(acts, entries, t, j, q) && CellAt(acts, entries, s, k, p) && q != p
    ensures Before(t, j, s, k + 1) <==> Before(t, j, s, k)
  {}

  lemma CorrectOn(acts: seq<Action>, entries: seq<seq<Entry>>, s: nat, k: nat, c: int)
    requires WellFormed(acts) && Corrected(acts, entries, s, k, c) && k < |entries[s]|
    ensures var e := entries[s][k];
            if e.Act? && e.i < |acts| && acts[e.i].Align?
            then Corrected(acts, entries, s, k + 1, c - And(Estimate(acts, entries[s], k) + acts[e.i].mask + c, acts[e.i].mask))
            else Corrected(acts, entries, s, k + 1, c)
  {
    hide And, Pad, SectionStart;
    var e := entries[s][k];
    if e.Act? && e.i < |acts| && acts[e.i].Align? {
      AlignCorrection(Estimate(acts, entries[s], k), c, WordAt(acts, entries, s, k), acts[e.i].mask);
    }
  }

  /** Pass 2 in front of entry k of section s, at buffer position p with correction c. */
  ghost predicate Walking(acts: seq<Action>, m: Mem, cells: Memory, s: nat, k: nat, p: nat, c: int) {
    && Corrected(acts, m.entries, s, k, c) && Fixed(acts, m, cells, s, k)
    && p == Pos(s, Cells(acts, m.entries[s], k))
  }

  /** The cells that pass 2 starts from. */
  ghost predicate Closed(acts: seq<Action>, m: Mem, s0: nat) {
    WellFormed(acts) && Fed(acts, m.entries, m.kind, s0, false) && ValuesOk(m.cells, m.kind)
  }

  lemma WalkRange(acts: seq<Action>, m: Mem, s0: nat, cells: Memory, s: nat, k: nat, p: nat, c: int)
    requires Closed(acts, m, s0) && Walking(acts, m, cells, s, k, p, c)
    ensures s < |m.entries| && k <= |m.entries[s]| && p == Pos(s, Cells(acts, m.entries[s], k))
    ensures Threaded(acts, m.entries[s], false)
  {
    assert SectionFed(acts, m.entries, s0, false, s);
  }

  /** What the cell in front of the walk holds. */
  lemma CellHere(acts: seq<Action>, m: Mem, s0: nat, cells: Memory, s: nat, k: nat, p: nat, c: int)
    requires Closed(acts, m, s0) && Walking(acts, m, cells, s, k, p, c)
    requires k < |m.entries[s]| && HasCell(acts, m.entries[s][k])
    ensures CellAt(acts, m.entries, s, k, p) && p in cells
    ensures var kind := KindOf(acts, m.entries[s], k);
            && (kind.KOther? ==> cells[p] == kind.v)
            && (kind.KLabel? ==> cells[p] == kind.est && kind.est + c == 4 * WordAt(acts, m.entries, s, k))
  {
    hide HasCell, Threaded, WordAt, Cells;
    assert CellAt(acts, m.entries, s, k, p);
    OwnKind(acts, m, s0, s, k, p);
  }

  lemma WalkStep(acts: seq<Action>, m: Mem, s0: nat, cells: Memory, s: nat, k: nat, p: nat, c: int, cells': Memory, c': int)
    requires Closed(acts, m, s0) && Walking(acts, m, cells, s, k, p, c) && k < |m.entries[s]|
    requires var e := m.entries[s][k];
             && c' == (if e.Act? && e.i < |acts| && acts[e.i].Align?
                       then c - And(Estimate(acts, m.entries[s], k) + acts[e.i].mask + c, acts[e.i].mask) else c)
             && cells' == if HasCell(acts, e) && KindOf(acts, m.entries[s], k).KLabel?
                          then cells[p := 4 * WordAt(acts, m.entries, s, k)] else cells
    ensures Walking(acts, m, cells', s, k + 1, if HasCell(acts, m.entries[s][k]) then p + 1 else p, c')
  {
    hide Fixed, Corrected, KindOf, WordAt, And, Estimate, Fed;
    WalkRange(acts, m, s0, cells, s, k, p, c);
    var e := m.entries[s][k];
    CorrectOn(acts, m.entries, s, k, c);
    if HasCell(acts, e) && KindOf(acts, m.entries[s], k).KLabel? {
      CellHere(acts, m, s0, cells, s, k, p, c);
      FixLabel(acts, m, s0, cells, s, k, p);
    } else {
      FixNothing(acts, m, s0, cells, s, k);
    }
  }

  // ---------------------------------------------------------------------------
  // Globals that no put has defined

  /** Whoever waits for a global in from..idx-1 holds minus its number; the other cells are as they were. */
  ghost predicate Marked(cells0: Memory, cells: Memory, h: seq<Event>, from: nat, idx: nat) {
    && cells.Keys == cells0.Keys
    && (forall n: nat, p: nat :: from <= n < idx && p in Waiting(h, LG(n)) ==> p in cells && cells[p] == 0 - n)
    && (forall p: nat :: p in cells && (forall n: nat :: from <= n < idx ==> p !in Waiting(h, LG(n))) ==> cells[p] == cells0[p])
  }

  lemma OneWait(cells0: Memory, h: seq<Event>, l: Label, o: Label, p: nat)
    requires Linked(cells0, h) && p in Waiting(h, l) && o != l
    ensures p !in Waiting(h, o) && p in cells0
  {
    hide Waiting, Live, Target, Chain;
    var k: nat :| k < |Waiting(h, l)| && Waiting(h, l)[k] == p;
    var i := WaitingAre(h, l, k);
    WaitsOrHasTarget(h, i, o);
  }

  lemma MarkOn(cells0: Memory, cells: Memory, h: seq<Event>, from: nat, idx: nat)
    requires Linked(cells0, h) && Marked(cells0, cells, h, from, idx) && from <= idx
    ensures Chain(cells, Waiting(h, LG(idx)))
    ensures Marked(cells0, Redirect(cells, Waiting(h, LG(idx)), 0 - idx), h, from, idx + 1)
  {
    hide Waiting, Live, Target, Linked;
    var w := Waiting(h, LG(idx));
    ChainOf(cells0, h, LG(idx));
    forall k | 0 <= k < |w|
      ensures w[k] in cells && cells[w[k]] == Next(w, k)
    {
      forall n: nat | from <= n < idx
        ensures w[k] !in Waiting(h, LG(n))
      {
        OneWait(cells0, h, LG(idx), LG(n), w[k]);
      }
    }
    var cells' := Redirect(cells, w, 0 - idx);
    forall n: nat, p: nat | from <= n < idx + 1 && p in Waiting(h, LG(n))
      ensures p in cells' && cells'[p] == 0 - n
    {
      OneWait(cells0, h, LG(n), PC(0), p);
      if n < idx {
        OneWait(cells0, h, LG(n), LG(idx), p);
      }
    }
  }

  // ---------------------------------------------------------------------------
  // The state after pass 2

  /** Labels hold their true offsets, references their label's position, other cells what pass 1 put there. */
  ghost predicate Laid(acts: seq<Action>, m: Mem, cells: Memory) {
    && cells.Keys == m.kind.Keys
    && (forall t: nat, j: nat, p: nat :: CellAt(acts, m.entries, t, j, p) ==>
          && p in m.kind
          && (m.kind[p].KLabel? ==> cells[p] == 4 * WordAt(acts, m.entries, t, j))
          && (m.kind[p].KOther? ==> cells[p] == m.kind[p].v))
    && (forall i :: 0 <= i < |m.h| && m.h[i].Ref? ==> RefLaid(m.h, cells, i))
  }

  /**
    * A reference without a definition is marked exactly when its label is a global
    * numbered 20 or more; otherwise its cell still holds a link of the chain it waits in.
    */
  ghost predicate RefLaid(h: seq<Event>, cells: Memory, i: nat)
    requires i < |h|
  {
    && h[i].pos in cells
    && match Target(h, h[i].pos)
       case Some(t) => cells[h[i].pos] == t
       case None =>
         && (cells[h[i].pos] < 0 <==> h[i].l.LG? && h[i].l.n >= 20)
         && (cells[h[i].pos] > 0 ==> cells[h[i].pos] in cells && cells[h[i].pos] in Waiting(h, h[i].l))
  }

  lemma NotWaiting(h: seq<Event>, i: nat, from: nat, idx: nat)
    requires Distinct(h) && i < |h| && h[i].Ref?
    requires Target(h, h[i].pos).Some? || !h[i].l.LG? || h[i].l.n < from
    ensures forall n: nat :: from <= n < idx ==> h[i].pos !in Waiting(h, LG(n))
  {
    hide Waiting, Target;
    forall n: nat | from <= n < idx
      ensures h[i].pos !in Waiting(h, LG(n))
    {
      WaitsOrHasTarget(h, i, LG(n));
    }
  }

  /** A waiting cell holds a link, which is never negative and leads to a cell or to 0. */
  lemma LinkValue(cells: Memory, h: seq<Event>, l: Label, p: nat)
    requires Linked(cells, h) && p in Waiting(h, l)
    ensures p in cells && cells[p] >= 0 && (cells[p] > 0 ==> cells[p] in cells && cells[p] in Waiting(h, l))
  {
    hide Waiting, Live, Target;
    ChainOf(cells, h, l);
    var k: nat :| k < |Waiting(h, l)| && Waiting(h, l)[k] == p;
  }

  lemma RefMarked(cells0: Memory, cells: Memory, h: seq<Event>, idx: nat, i: nat)
    requires Linked(cells0, h) && Marked(cells0, cells, h, 20, idx) && i < |h| && h[i].Ref?
    requires h[i].l.LG? ==> h[i].l.n < idx
    ensures RefLaid(h, cells, i)
  {
    hide Waiting, Live, Chain;
    var p := h[i].pos;
    WaitsOrHasTarget(h, i, h[i].l);
    if Target(h, p).Some? || !h[i].l.LG? || h[i].l.n < 20 {
      NotWaiting(h, i, 20, idx);
      if Target(h, p) == None {
        LinkValue(cells0, h, h[i].l, p);
      }
    }
  }

  /** Pass 2 has reached the end of the last section. */
  lemma AllLaid(acts: seq<Action>, m: Mem, m2: Mem, s0: nat, cells: Memory, idx: nat)
    requires Recorded(acts, m, s0, false) && m2 == m.(cells := m2.cells) && Marked(m.cells, m2.cells, m.h, 20, idx)
    requires Fixed(acts, m2, cells, |m.entries|, 0) && ValuesOk(m2.cells, m.kind)
    requires forall i :: 0 <= i < |m.h| && m.h[i].l.LG? ==> m.h[i].l.n < idx
    ensures Laid(acts, m, cells)
  {
    hide Marked, Linked, HasCell, KindOf, WordAt, Threaded, Cells, Pos, RefLaid;
    forall t: nat, j: nat, p: nat | CellAt(acts, m.entries, t, j, p)
      ensures
        && p in m.kind
        && (m.kind[p].KLabel? ==> cells[p] == 4 * WordAt(acts, m.entries, t, j))
        && (m.kind[p].KOther? ==> cells[p] == m.kind[p].v)
    {
      assert Before(t, j, |m.entries|, 0);
    }
    forall i | 0 <= i < |m.h| && m.h[i].Ref?
      ensures RefLaid(m.h, cells, i)
    {
      RefMarked(m.cells, m2.cells, m.h, idx, i);
      var p := m.h[i].pos;
      assert p in m.kind && Fits1(m.h[i], m.kind[p]);
      var t: nat, j: nat :| CellAt(acts, m.entries, t, j, p);
      SameRef(m.h, m2.cells, cells, i);
    }
  }

  lemma SameRef(h: seq<Event>, cells: Memory, cells': Memory, i: nat)
    requires i < |h| && RefLaid(h, cells, i) && cells'.Keys == cells.Keys && h[i].pos in cells && cells'[h[i].pos] == cells[h[i].pos]
    ensures RefLaid(h, cells', i)
  {}

  lemma MarkedValues(acts: seq<Action>, m: Mem, s0: nat, cells: Memory, idx: nat)
    requires Recorded(acts, m, s0, false) && Marked(m.cells, cells, m.h, 20, idx)
    ensures ValuesOk(cells, m.kind)
  {
    hide Fed, Linked, Waiting, Target, Live;
    forall p: nat | p in m.kind && !m.kind[p].KRef?
      ensures cells[p] == m.cells[p]
    {
      forall n: nat | 20 <= n < idx
        ensures p !in Waiting(m.h, LG(n))
      {
        if k: nat :| k < |Waiting(m.h, LG(n))| && Waiting(m.h, LG(n))[k] == p {
          var i := WaitingAre(m.h, LG(n), k);
        }
      }
    }
  }
}
