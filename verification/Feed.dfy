/**
  * What pass 1 has recorded: which entry each buffer cell belongs to, and what
  * the cell holds (QJIT/LuaJIT-2.1.0-beta3/dynasm/dasm_arm.h:176-274).
  */
module Feed {
  import opened LabelChains
  import opened Layout

  /** Positions carry the section in their upper 8 bits and the index in the lower 24. */
  const SEC := 0x100_0000

  function Pos(s: nat, c: nat): nat { s * SEC + c }

  /** A position is kept in a C int. */
  function Int32(x: int): int { (x + 0x8000_0000) % 0x1_0000_0000 - 0x8000_0000 }

  const MAX_SECTIONS := 128

  /**
    * All positions of an engine with n sections are kept as they are exactly when
    * there are at most 128: the first position of section 128 is -2^31, and a chain
    * that starts there would pass for a live label.
    */
  lemma PositionsFit(n: nat)
    ensures (forall s: nat, c: nat :: s < n && c < SEC ==> Int32(Pos(s, c)) == Pos(s, c)) <==> n <= MAX_SECTIONS
    ensures Int32(Pos(MAX_SECTIONS, 0)) == -0x8000_0000
  {
    if n > MAX_SECTIONS {
      assert Int32(Pos(MAX_SECTIONS, 0)) != Pos(MAX_SECTIONS, 0);
    }
  }

  /** What a cell is for: a label with its offset estimate, a reference, or a plain value. */
  datatype Kind = KLabel(l: Label, est: nat) | KRef(l: Label, fwd: bool) | KOther(v: int)

  function PcLabel(arg: int): Label { PC(if arg < 0 then 0 else arg) }

  /** Numbers from 10 on are globals and backward references to locals, lower ones forward references. */
  function RefLabel(n: nat): Label { if n >= 10 then LG(n - 10) else LG(n) }

  function DefLabel(n: nat): Label { LG(if n >= 10 then n - 10 else 0) }

  /** What the cell of an action is for, when pass 1's offset in front of it is o. */
  function KindAt(a: Action, arg: int, o: nat): Kind {
    match a
    case Align(mask) => KOther(o + mask)
    case RelLG(n, _) => KRef(RefLabel(n), n < 10)
    case LabelLG(n) => KLabel(DefLabel(n), o)
    case RelPC(_) => KRef(PcLabel(arg), false)
    case LabelPC => KLabel(PcLabel(arg), o)
    case Immediate(kind) => KOther(Kept(kind, arg))
    case _ => KOther(0)
  }

  function KindOf(acts: seq<Action>, es: seq<Entry>, k: nat): Kind
    requires k < |es| && HasCell(acts, es[k])
  {
    if es[k].Begin? then KOther(es[k].start) else KindAt(acts[es[k].i], es[k].arg, Estimate(acts, es, k))
  }

  /** p is the cell of entry k of section s. */
  ghost predicate CellAt(acts: seq<Action>, entries: seq<seq<Entry>>, s: nat, k: nat, p: nat) {
    && s < |entries| && k < |entries[s]| && HasCell(acts, entries[s][k])
    && p == Pos(s, Cells(acts, entries[s], k))
  }

  /** The action index after an entry. */
  function After(e: Entry): nat { if e.Begin? then e.start else e.i + 1 }

  ghost predicate Step(acts: seq<Action>, es: seq<Entry>, k: nat)
    requires k < |es|
  {
    var n := After(es[k]);
    && Known(acts, es[k]) && n < |acts|
    && (k + 1 < |es| ==> if Ends(acts[n]) then es[k + 1].Begin? else es[k + 1].Act? && es[k + 1].i == n)
  }

  /** Entries follow the action list; unless the section is open the last put has come to its end. */
  ghost predicate Threaded(acts: seq<Action>, es: seq<Entry>, open: bool) {
    && (es != [] ==> es[0].Begin?)
    && (forall k :: 0 <= k < |es| ==> Step(acts, es, k))
    && (if open then es != [] else es != [] ==> After(es[|es| - 1]) < |acts| && Ends(acts[After(es[|es| - 1])]))
  }

  ghost predicate SectionFed(acts: seq<Action>, entries: seq<seq<Entry>>, s: nat, open: bool, t: nat)
    requires t < |entries|
  {
    Threaded(acts, entries[t], open && t == s) && Cells(acts, entries[t], |entries[t]|) < SEC
  }

  /** s is the section that is being fed, if open. */
  ghost predicate Fed(acts: seq<Action>, entries: seq<seq<Entry>>, kind: map<nat, Kind>, s: nat, open: bool) {
    && (forall t: nat :: t < |entries| ==> SectionFed(acts, entries, s, open, t))
    && (forall t: nat, k: nat, p: nat :: CellAt(acts, entries, t, k, p) ==> p in kind && kind[p] == KindOf(acts, entries[t], k))
    && (forall p :: p in kind ==> exists t: nat, k: nat :: CellAt(acts, entries, t, k, p))
  }

  lemma {:induction false} SamePrefix(acts: seq<Action>, es: seq<Entry>, e: Entry, k: nat)
    requires k <= |es|
    ensures Cells(acts, es + [e], k) == Cells(acts, es, k)
    ensures Estimate(acts, es + [e], k) == Estimate(acts, es, k)
  {
    if k > 0 {
      SamePrefix(acts, es, e, k - 1);
    }
  }

  lemma {:induction false} CellsGrow(acts: seq<Action>, es: seq<Entry>, j: nat, k: nat)
    requires j <= k <= |es|
    ensures Cells(acts, es, j) <= Cells(acts, es, k)
    ensures j < k && HasCell(acts, es[j]) ==> Cells(acts, es, j) < Cells(acts, es, k)
  {
    if j < k {
      CellsGrow(acts, es, j, k - 1);
    }
  }

  lemma PosApart(s: nat, c: nat, t: nat, d: nat)
    requires c < SEC && d < SEC && Pos(s, c) == Pos(t, d)
    ensures s == t && c == d
  {}

  /** The next cell of a section is not in use. */
  lemma NextIsFree(acts: seq<Action>, entries: seq<seq<Entry>>, kind: map<nat, Kind>, s: nat, open: bool)
    requires Fed(acts, entries, kind, s, open) && s < |entries|
    ensures Pos(s, Cells(acts, entries[s], |entries[s]|)) !in kind
  {
    hide KindOf, HasCell, Cells, Threaded, Pos;
    var n := Cells(acts, entries[s], |entries[s]|);
    assert SectionFed(acts, entries, s, open, s);
    if Pos(s, n) in kind {
      var t: nat, k: nat :| CellAt(acts, entries, t, k, Pos(s, n));
      assert SectionFed(acts, entries, s, open, t);
      CellsGrow(acts, entries[t], k, |entries[t]|);
      PosApart(s, n, t, Cells(acts, entries[t], k));
    }
  }

  /** e may come next in section s. */
  ghost predicate Fits(acts: seq<Action>, es: seq<Entry>, e: Entry, open: bool) {
    if e.Begin? then !open && e.start < |acts| && !IsPatch(acts[e.start])
    else open && es != [] && e.i == After(es[|es| - 1]) && e.i + 1 < |acts| && !Ends(acts[e.i]) && Accepts(acts[e.i], e.arg)
  }

  lemma ThreadOn(acts: seq<Action>, es: seq<Entry>, e: Entry, open: bool)
    requires Threaded(acts, es, open) && Fits(acts, es, e, open)
    ensures Threaded(acts, es + [e], true)
  {
    var es' := es + [e];
    forall k | 0 <= k < |es'|
      ensures Step(acts, es', k)
    {
      assert k < |es| ==> Step(acts, es, k);
    }
  }

  function Fed1(entries: seq<seq<Entry>>, s: nat, e: Entry): seq<seq<Entry>>
    requires s < |entries|
  {
    entries[s := entries[s] + [e]]
  }

  lemma CellAtOn(acts: seq<Action>, entries: seq<seq<Entry>>, s: nat, e: Entry, t: nat, k: nat, p: nat)
    requires s < |entries|
    ensures CellAt(acts, Fed1(entries, s, e), t, k, p) <==>
            CellAt(acts, entries, t, k, p) ||
            (t == s && k == |entries[s]| && HasCell(acts, e) && p == Pos(s, Cells(acts, entries[s], |entries[s]|)))
    ensures CellAt(acts, entries, t, k, p) ==>
              k < |Fed1(entries, s, e)[t]| && HasCell(acts, Fed1(entries, s, e)[t][k]) &&
              KindOf(acts, Fed1(entries, s, e)[t], k) == KindOf(acts, entries[t], k)
  {
    hide HasCell;
    if t == s && k <= |entries[s]| {
      SamePrefix(acts, entries[s], e, k);
    }
  }

  /** Feeding one more entry. */
  lemma FeedOn(acts: seq<Action>, entries: seq<seq<Entry>>, kind: map<nat, Kind>, s: nat, open: bool, e: Entry, kind': map<nat, Kind>)
    requires Fed(acts, entries, kind, s, open) && s < |entries| && Fits(acts, entries[s], e, open)
    requires Cells(acts, entries[s], |entries[s]|) + (if HasCell(acts, e) then 1 else 0) < SEC
    requires kind' == if HasCell(acts, e)
                      then kind[Pos(s, Cells(acts, entries[s], |entries[s]|)) := KindOf(acts, entries[s] + [e], |entries[s]|)]
                      else kind
    ensures Fed(acts, Fed1(entries, s, e), kind', s, true)
  {
    hide KindOf, HasCell, Threaded, Fits, Cells, Pos;
    var es, entries' := entries[s], Fed1(entries, s, e);
    NextIsFree(acts, entries, kind, s, open);
    forall t: nat | t < |entries'|
      ensures SectionFed(acts, entries', s, true, t)
    {
      assert SectionFed(acts, entries, s, open, t);
      if t == s {
        ThreadOn(acts, es, e, open);
        CellsOn(acts, es, e);
      }
    }
    forall t: nat, k: nat, p: nat | CellAt(acts, entries', t, k, p)
      ensures p in kind' && kind'[p] == KindOf(acts, entries'[t], k)
    {
      CellAtOn(acts, entries, s, e, t, k, p);
    }
    forall p | p in kind'
      ensures exists t: nat, k: nat :: CellAt(acts, entries', t, k, p)
    {
      if p in kind {
        var t: nat, k: nat :| CellAt(acts, entries, t, k, p);
        CellAtOn(acts, entries, s, e, t, k, p);
      } else {
        CellAtOn(acts, entries, s, e, s, |es|, p);
      }
    }
  }

  lemma CellsOn(acts: seq<Action>, es: seq<Entry>, e: Entry)
    ensures Cells(acts, es + [e], |es| + 1) == Cells(acts, es, |es|) + if HasCell(acts, e) then 1 else 0
    ensures Estimate(acts, es + [e], |es| + 1) == Estimate(acts, es, |es|) + Growth(acts, e)
  {
    SamePrefix(acts, es, e, |es|);
  }

  /** The put has reached the end of its actions. */
  lemma CloseSection(acts: seq<Action>, entries: seq<seq<Entry>>, kind: map<nat, Kind>, s: nat, s': nat)
    requires Fed(acts, entries, kind, s, true) && s < |entries|
    requires var es := entries[s]; es != [] && After(es[|es| - 1]) < |acts| && Ends(acts[After(es[|es| - 1])])
    ensures Fed(acts, entries, kind, s', false)
  {
    hide KindOf, HasCell, Cells;
    forall t: nat | t < |entries|
      ensures SectionFed(acts, entries, s', false, t)
    {
      assert SectionFed(acts, entries, s, true, t);
    }
  }

  // ---------------------------------------------------------------------------
  // All that pass 1 keeps

  /** Ghost and real memory together: buffer cells, what they are for, entries per section, label history. */
  datatype Mem = Mem(cells: Memory, kind: map<nat, Kind>, entries: seq<seq<Entry>>, h: seq<Event>)

  ghost predicate ValuesOk(cells: Memory, kind: map<nat, Kind>) {
    && cells.Keys == kind.Keys
    && forall p :: p in kind ==>
         && (kind[p].KOther? ==> cells[p] == kind[p].v)
         && (kind[p].KLabel? ==> cells[p] == kind[p].est)
  }

  predicate Fits1(e: Event, k: Kind) {
    match e
    case Def(l, _) => k.KLabel? && k.l == l
    case Ref(l, _, fwd) => k == KRef(l, fwd)
  }

  ghost predicate HistOk(kind: map<nat, Kind>, h: seq<Event>) {
    && (forall i :: 0 <= i < |h| ==> h[i].pos in kind && Fits1(h[i], kind[h[i].pos]))
    && (forall p :: p in kind && !kind[p].KOther? ==> exists i :: 0 <= i < |h| && h[i].pos == p)
  }

  ghost predicate Recorded(acts: seq<Action>, m: Mem, s: nat, open: bool) {
    && Fed(acts, m.entries, m.kind, s, open)
    && ValuesOk(m.cells, m.kind) && HistOk(m.kind, m.h) && Linked(m.cells, m.h)
  }

  /** The position the next cell of section s will get. */
  function NextPos(acts: seq<Action>, m: Mem, s: nat): nat
    requires s < |m.entries|
  {
    Pos(s, Cells(acts, m.entries[s], |m.entries[s]|))
  }

  function NextKind(acts: seq<Action>, m: Mem, s: nat, e: Entry): Kind
    requires s < |m.entries| && HasCell(acts, e)
  {
    KindOf(acts, m.entries[s] + [e], |m.entries[s]|)
  }

  ghost predicate MayFeed(acts: seq<Action>, m: Mem, s: nat, open: bool, e: Entry) {
    && s < |m.entries| && Fits(acts, m.entries[s], e, open)
    && Cells(acts, m.entries[s], |m.entries[s]|) + (if HasCell(acts, e) then 1 else 0) < SEC
  }

  /** Inside a put the next position is not 0, which ends chains. */
  lemma NotZero(acts: seq<Action>, m: Mem, s: nat)
    requires Recorded(acts, m, s, true) && s < |m.entries|
    ensures NextPos(acts, m, s) > 0
  {
    hide KindOf, Linked, HistOk, ValuesOk;
    assert SectionFed(acts, m.entries, s, true, s);
    CellsGrow(acts, m.entries[s], 0, |m.entries[s]|);
  }

  lemma IsFresh(acts: seq<Action>, m: Mem, s: nat, open: bool)
    requires Recorded(acts, m, s, open) && s < |m.entries|
    ensures NextPos(acts, m, s) !in m.kind && NextPos(acts, m, s) !in m.cells
    ensures forall i :: 0 <= i < |m.h| ==> m.h[i].pos != NextPos(acts, m, s)
  {
    hide Fed, Linked;
    NextIsFree(acts, m.entries, m.kind, s, open);
  }

  lemma RecordNothing(acts: seq<Action>, m: Mem, s: nat, e: Entry)
    requires Recorded(acts, m, s, true) && MayFeed(acts, m, s, true, e) && !HasCell(acts, e)
    ensures Recorded(acts, m.(entries := Fed1(m.entries, s, e)), s, true)
  {
    hide Fed, Linked, HistOk, ValuesOk, Fits;
    FeedOn(acts, m.entries, m.kind, s, true, e, m.kind);
  }

  /** A cell that is neither a label nor a reference. */
  lemma RecordPlain(acts: seq<Action>, m: Mem, s: nat, open: bool, e: Entry, v: int)
    requires Recorded(acts, m, s, open) && MayFeed(acts, m, s, open, e) && HasCell(acts, e)
    requires NextKind(acts, m, s, e) == KOther(v)
    ensures var p := NextPos(acts, m, s);
            Recorded(acts, Mem(m.cells[p := v], m.kind[p := KOther(v)], Fed1(m.entries, s, e), m.h), s, true)
  {
    hide Fed, Linked, Fits, HasCell, KindOf, Cells;
    var p := NextPos(acts, m, s);
    IsFresh(acts, m, s, open);
    FeedOn(acts, m.entries, m.kind, s, open, e, m.kind[p := KOther(v)]);
    PlainLinked(m.cells, m.h, p, v);
  }

  lemma PlainLinked(cells: Memory, h: seq<Event>, p: nat, v: int)
    requires Linked(cells, h) && forall i :: 0 <= i < |h| ==> h[i].pos != p
    ensures Linked(cells[p := v], h)
  {
    hide Chain, Waiting, Live, Target;
    if p > 0 {
      ElsewhereLinked(cells, h, p, v);
    } else {
      forall l
        ensures Chain(cells[p := v], Waiting(h, l))
      {
        ZeroElsewhere(cells, h, l, p, v);
      }
    }
  }

  lemma ZeroElsewhere(cells: Memory, h: seq<Event>, l: Label, p: nat, v: int)
    requires Linked(cells, h) && forall i :: 0 <= i < |h| ==> h[i].pos != p
    ensures Chain(cells[p := v], Waiting(h, l))
  {
    hide Waiting, Live, Target;
    NotYet(h, l, p);
    ChainOf(cells, h, l);
  }

  lemma HistOn(kind: map<nat, Kind>, h: seq<Event>, e: Event, k: Kind)
    requires HistOk(kind, h) && e.pos !in kind && Fits1(e, k)
    ensures HistOk(kind[e.pos := k], h + [e])
  {
    var kind', h' := kind[e.pos := k], h + [e];
    forall p | p in kind' && !kind'[p].KOther?
      ensures exists i :: 0 <= i < |h'| && h'[i].pos == p
    {
      if p == e.pos {
        assert h'[|h|].pos == p;
      } else {
        var i :| 0 <= i < |h| && h[i].pos == p;
        assert h'[i].pos == p;
      }
    }
  }

  lemma RecordRef(acts: seq<Action>, m: Mem, s: nat, e: Entry, l: Label, fwd: bool)
    requires Recorded(acts, m, s, true) && MayFeed(acts, m, s, true, e) && HasCell(acts, e)
    requires NextKind(acts, m, s, e) == KRef(l, fwd)
    ensures
      var p, n := NextPos(acts, m, s), Anchor(m.h, l);
      var m' := Mem(m.cells[p := RefValue(n, fwd)], m.kind[p := KRef(l, fwd)], Fed1(m.entries, s, e), m.h + [Ref(l, p, fwd)]);
      && Recorded(acts, m', s, true)
      && Anchor(m'.h, l) == (if !fwd && n < 0 then n else p)
      && forall o :: o != l ==> Anchor(m'.h, o) == Anchor(m.h, o)
  {
    hide Fed, Linked, Fits, HasCell, KindOf, Cells, HistOk;
    var p := NextPos(acts, m, s);
    IsFresh(acts, m, s, true);
    NotZero(acts, m, s);
    FeedOn(acts, m.entries, m.kind, s, true, e, m.kind[p := KRef(l, fwd)]);
    HistOn(m.kind, m.h, Ref(l, p, fwd), KRef(l, fwd));
    LinkRef(m.cells, m.h, l, p, fwd);
  }

  lemma RedirectKeepsValues(cells: Memory, kind: map<nat, Kind>, h: seq<Event>, l: Label, p: nat)
    requires ValuesOk(cells, kind) && HistOk(kind, h)
    ensures ValuesOk(Redirect(cells, Waiting(h, l), p), kind)
  {
    hide Waiting;
    forall q | q in kind && !kind[q].KRef?
      ensures q !in Waiting(h, l)
    {
      if k: nat :| k < |Waiting(h, l)| && Waiting(h, l)[k] == q {
        var i := WaitingAre(h, l, k);
      }
    }
  }

  lemma RecordDef(acts: seq<Action>, m: Mem, s: nat, e: Entry, l: Label, est: nat)
    requires Recorded(acts, m, s, true) && MayFeed(acts, m, s, true, e) && HasCell(acts, e)
    requires NextKind(acts, m, s, e) == KLabel(l, est)
    ensures
      var p := NextPos(acts, m, s);
      var cells := Redirect(m.cells, Waiting(m.h, l), p);
      var m' := Mem(cells[p := est], m.kind[p := KLabel(l, est)], Fed1(m.entries, s, e), m.h + [Def(l, p)]);
      && Recorded(acts, m', s, true)
      && Anchor(m'.h, l) == 0 - p
      && forall o :: o != l ==> Anchor(m'.h, o) == Anchor(m.h, o)
  {
    hide Fed, Linked, Fits, HasCell, KindOf, Cells, HistOk, Redirect, Waiting;
    var p := NextPos(acts, m, s);
    IsFresh(acts, m, s, true);
    NotZero(acts, m, s);
    FeedOn(acts, m.entries, m.kind, s, true, e, m.kind[p := KLabel(l, est)]);
    HistOn(m.kind, m.h, Def(l, p), KLabel(l, est));
    RedirectKeepsValues(m.cells, m.kind, m.h, l, p);
    LinkDef(m.cells, m.h, l, p, est);
  }
}
