/**
  * The three passes of the ARM encoding engine
  * (QJIT/LuaJIT-2.1.0-beta3/dynasm/dasm_arm.h:176-424), with its checks enabled.
  */
module DynAsm {
  import opened ArmBits
  import opened LabelChains
  import opened Layout
  import opened Immediates
  import opened Feed
  import opened Fixing
  import opened Emission
  import FastDiv

  // ---------------------------------------------------------------------------
  // What a put adds

  /** Arguments a put takes from action i on. */
  function Args(acts: seq<Action>, i: nat): nat
    decreases |acts| - i
  {
    if i >= |acts| || Ends(acts[i]) then 0
    else Args(acts, i + 1) + if HasArg(acts[i]) then 1 else 0
  }

  /** Buffer cells a put takes from action i on. */
  function Slots(acts: seq<Action>, i: nat): nat
    decreases |acts| - i
  {
    if i >= |acts| || Ends(acts[i]) then 0
    else Slots(acts, i + 1) + if HasSlot(acts[i]) then 1 else 0
  }

  /** The entries of a put from action i on. */
  function Expand(acts: seq<Action>, i: nat, args: seq<int>): seq<Entry>
    requires Args(acts, i) <= |args|
    decreases |acts| - i
  {
    if i >= |acts| || Ends(acts[i]) then []
    else if HasArg(acts[i]) then [Act(i, args[0])] + Expand(acts, i + 1, args[1..])
    else [Act(i, 0)] + Expand(acts, i + 1, args)
  }

  /** The action at which a put stops. */
  function EndOf(acts: seq<Action>, i: nat): nat
    decreases |acts| - i
  {
    if i >= |acts| || Ends(acts[i]) then i else EndOf(acts, i + 1)
  }

  /** The label event of entry k of section s, if it has one. */
  function EventOf(acts: seq<Action>, es: seq<Entry>, s: nat, k: nat): seq<Event>
    requires k < |es|
  {
    if !HasCell(acts, es[k]) then []
    else match KindOf(acts, es, k)
      case KLabel(l, _) => [Def(l, Pos(s, Cells(acts, es, k)))]
      case KRef(l, fwd) => [Ref(l, Pos(s, Cells(acts, es, k)), fwd)]
      case KOther(_) => []
  }

  function Events(acts: seq<Action>, es: seq<Entry>, s: nat, j: nat, k: nat): seq<Event>
    requires j <= k <= |es|
  {
    if j == k then [] else Events(acts, es, s, j, k - 1) + EventOf(acts, es, s, k - 1)
  }

  lemma SameEvent(acts: seq<Action>, es: seq<Entry>, e: Entry, s: nat, k: nat)
    requires k < |es|
    ensures EventOf(acts, es + [e], s, k) == EventOf(acts, es, s, k)
  {
    hide HasCell, Estimate, Cells, KindAt;
    SamePrefix(acts, es, e, k);
  }

  lemma {:induction false} EventsOn(acts: seq<Action>, es: seq<Entry>, e: Entry, s: nat, j: nat, k: nat)
    requires j <= k <= |es|
    ensures Events(acts, es + [e], s, j, k) == Events(acts, es, s, j, k)
  {
    hide EventOf;
    if j < k {
      EventsOn(acts, es, e, s, j, k - 1);
      SameEvent(acts, es, e, s, k - 1);
    }
  }

  /** A put to section s, begun at memory m0, has come to action i with the arguments rest still to be taken. */
  ghost predicate Putting(acts: seq<Action>, m0: Mem, m: Mem, s: nat, i: nat, rest: seq<int>, goal: seq<Entry>) {
    && s < |m0.entries| == |m.entries| && i < |acts| && Args(acts, i) <= |rest|
    && m.entries == m0.entries[s := m.entries[s]]
    && |m0.entries[s]| < |m.entries[s]| && After(m.entries[s][|m.entries[s]| - 1]) == i
    && m.entries[s] + Expand(acts, i, rest) == goal
    && Cells(acts, m.entries[s], |m.entries[s]|) + Slots(acts, i) < SEC
    && m.h == m0.h + Events(acts, m.entries[s], s, |m0.entries[s]|, |m.entries[s]|)
  }

  lemma BeginPut(acts: seq<Action>, m0: Mem, m: Mem, s: nat, start: nat, args: seq<int>)
    requires s < |m0.entries| && start < |acts| && Args(acts, start) <= |args| && Added(acts, m0, m, s, Begin(start))
    requires Cells(acts, m0.entries[s], |m0.entries[s]|) + 1 + Slots(acts, start) < SEC
    ensures Putting(acts, m0, m, s, start, args, m0.entries[s] + [Begin(start)] + Expand(acts, start, args))
  {
    hide Estimate, KindAt, Expand, Slots, Args;
    var n := |m0.entries[s]|;
    CellsOn(acts, m0.entries[s], Begin(start));
    assert Events(acts, m.entries[s], s, n, n) == [];
  }

  /** The next argument and what is left. */
  function Arg(a: Action, rest: seq<int>): int
    requires HasArg(a) ==> rest != []
  {
    if HasArg(a) then rest[0] else 0
  }

  function Left(a: Action, rest: seq<int>): seq<int>
    requires HasArg(a) ==> rest != []
  {
    if HasArg(a) then rest[1..] else rest
  }

  /** Action i comes next in section s, and there is room for its cell; its argument has not been checked. */
  ghost predicate Comes(acts: seq<Action>, m: Mem, s: nat, i: nat) {
    && s < |m.entries| && m.entries[s] != [] && i == After(m.entries[s][|m.entries[s]| - 1])
    && i + 1 < |acts| && !Ends(acts[i])
    && Cells(acts, m.entries[s], |m.entries[s]|) + (if HasSlot(acts[i]) then 1 else 0) < SEC
  }

  lemma MayFeedIf(acts: seq<Action>, m: Mem, s: nat, i: nat, arg: int)
    requires Comes(acts, m, s, i)
    ensures i < |acts| && (Accepts(acts[i], arg) ==> MayFeed(acts, m, s, true, Act(i, arg)))
  {
    hide Accepts, Cells;
  }

  lemma MayPut(acts: seq<Action>, m0: Mem, m: Mem, s: nat, i: nat, rest: seq<int>, goal: seq<Entry>)
    requires WellFormed(acts) && Putting(acts, m0, m, s, i, rest, goal)
    ensures i < |acts| && s < |m.entries|
    ensures !Ends(acts[i]) ==>
              && (HasArg(acts[i]) ==> rest != [])
              && Comes(acts, m, s, i)
  {
    hide Estimate, KindAt, Expand, Events;
  }

  lemma ExpandOn(acts: seq<Action>, es: seq<Entry>, i: nat, rest: seq<int>)
    requires i < |acts| && !Ends(acts[i]) && Args(acts, i) <= |rest|
    ensures HasArg(acts[i]) ==> rest != []
    ensures Args(acts, i + 1) <= |Left(acts[i], rest)|
    ensures es + [Act(i, Arg(acts[i], rest))] + Expand(acts, i + 1, Left(acts[i], rest)) == es + Expand(acts, i, rest)
    ensures Slots(acts, i) == Slots(acts, i + 1) + if HasSlot(acts[i]) then 1 else 0
  {}

  lemma PutOn(acts: seq<Action>, m0: Mem, m: Mem, m': Mem, s: nat, i: nat, rest: seq<int>, goal: seq<Entry>)
    requires WellFormed(acts) && Putting(acts, m0, m, s, i, rest, goal) && !Ends(acts[i])
    requires HasArg(acts[i]) ==> rest != []
    requires Added(acts, m, m', s, Act(i, Arg(acts[i], rest)))
    ensures Putting(acts, m0, m', s, i + 1, Left(acts[i], rest), goal)
  {
    hide Estimate, KindAt, EventOf, Expand, Slots, Args, Cells, Arg, Left;
    var e := Act(i, Arg(acts[i], rest));
    var es, n := m.entries[s], |m0.entries[s]|;
    assert i + 1 < |acts|;
    ExpandOn(acts, es, i, rest);
    CellsOn(acts, es, e);
    EventsOn(acts, es, e, s, n, |es|);
    assert m'.entries[s] == es + [e];
    assert m'.entries == m0.entries[s := es + [e]];
  }

  // ---------------------------------------------------------------------------
  // What a put checks

  /**
    * The check of one action after the label events h, with room for nlg local and
    * global labels and npc pc labels.  A backward reference to a local label needs a
    * live definition; a global may still be undefined.
    */
  function CheckOf(a: Action, arg: int, h: seq<Event>, nlg: nat, npc: nat): Status {
    match a
    case RelLG(n, _) => if n >= 10 && (n - 10 >= nlg || (n < 20 && Live(h, LG(n - 10)) == None)) then RangeLG else OK
    case LabelLG(n) => if 10 <= n < nlg + 10 then OK else RangeLG
    case RelPC(_) => if 0 <= arg < npc then OK else RangePC
    case LabelPC => if 0 <= arg < npc then OK else RangePC
    case Immediate(kind) => if ImmOk(kind, arg) then OK else RangeI
    case _ => OK
  }

  function EntryCheck(acts: seq<Action>, e: Entry, h: seq<Event>, nlg: nat, npc: nat): Status {
    if e.Begin? || e.i >= |acts| then OK else CheckOf(acts[e.i], e.arg, h, nlg, npc)
  }

  /** The first check that fails in entries j to k - 1 of section s, fed when the history was h0; OK if none does. */
  function FirstFailure(acts: seq<Action>, es: seq<Entry>, s: nat, j: nat, k: nat, h0: seq<Event>, nlg: nat, npc: nat): Status
    requires j <= k <= |es|
  {
    if j == k then OK
    else
      var st := FirstFailure(acts, es, s, j, k - 1, h0, nlg, npc);
      if st != OK then st else EntryCheck(acts, es[k - 1], h0 + Events(acts, es, s, j, k - 1), nlg, npc)
  }

  lemma {:induction false} FailureOn(acts: seq<Action>, es: seq<Entry>, e: Entry, s: nat, j: nat, k: nat, h0: seq<Event>, nlg: nat, npc: nat)
    requires j <= k <= |es|
    ensures FirstFailure(acts, es + [e], s, j, k, h0, nlg, npc) == FirstFailure(acts, es, s, j, k, h0, nlg, npc)
  {
    hide EntryCheck, Events;
    if j < k {
      FailureOn(acts, es, e, s, j, k - 1, h0, nlg, npc);
      EventsOn(acts, es, e, s, j, k - 1);
    }
  }

  /** One entry more is checked against the history in front of it. */
  lemma CheckOn(acts: seq<Action>, es: seq<Entry>, e: Entry, s: nat, j: nat, h0: seq<Event>, nlg: nat, npc: nat)
    requires j <= |es| && FirstFailure(acts, es, s, j, |es|, h0, nlg, npc) == OK
    ensures FirstFailure(acts, es + [e], s, j, |es| + 1, h0, nlg, npc) ==
            EntryCheck(acts, e, h0 + Events(acts, es, s, j, |es|), nlg, npc)
  {
    hide EntryCheck, Events;
    FailureOn(acts, es, e, s, j, |es|, h0, nlg, npc);
    EventsOn(acts, es, e, s, j, |es|);
  }

  /** Nothing that would have come later changes the first failure. */
  lemma {:induction false} FailureStays(acts: seq<Action>, es: seq<Entry>, tail: seq<Entry>, s: nat, j: nat, h0: seq<Event>, nlg: nat, npc: nat)
    requires j <= |es| && FirstFailure(acts, es, s, j, |es|, h0, nlg, npc) != OK
    ensures FirstFailure(acts, es + tail, s, j, |es| + |tail|, h0, nlg, npc) == FirstFailure(acts, es, s, j, |es|, h0, nlg, npc)
    decreases |tail|
  {
    hide EntryCheck, Events;
    if tail == [] {
      assert es + tail == es;
    } else {
      var front, e := tail[..|tail| - 1], tail[|tail| - 1];
      assert es + tail == (es + front) + [e];
      FailureStays(acts, es, front, s, j, h0, nlg, npc);
      FailureOn(acts, es + front, e, s, j, |es| + |front|, h0, nlg, npc);
    }
  }

  /** No check has failed since the put to section s was begun at memory m0. */
  ghost predicate Unfailed(acts: seq<Action>, m0: Mem, m: Mem, s: nat, nlg: nat, npc: nat) {
    && s < |m0.entries| && s < |m.entries| && |m0.entries[s]| <= |m.entries[s]|
    && FirstFailure(acts, m.entries[s], s, |m0.entries[s]|, |m.entries[s]|, m0.h, nlg, npc) == OK
  }

  lemma UnfailedAtFirst(acts: seq<Action>, m0: Mem, m: Mem, s: nat, start: nat, nlg: nat, npc: nat)
    requires Added(acts, m0, m, s, Begin(start))
    ensures Unfailed(acts, m0, m, s, nlg, npc)
  {
    var n := |m0.entries[s]|;
    assert FirstFailure(acts, m.entries[s], s, n, n, m0.h, nlg, npc) == OK;
  }

  /** The check of action i as it is met in a put: either the put goes on, or this is its first failure. */
  lemma PutCheck(acts: seq<Action>, m0: Mem, m: Mem, m': Mem, s: nat, i: nat, rest: seq<int>, goal: seq<Entry>, nlg: nat, npc: nat)
    requires Putting(acts, m0, m, s, i, rest, goal) && !Ends(acts[i]) && (HasArg(acts[i]) ==> rest != [])
    requires Unfailed(acts, m0, m, s, nlg, npc)
    ensures var st, n := CheckOf(acts[i], Arg(acts[i], rest), m.h, nlg, npc), |m0.entries[s]|;
            if st != OK then n <= |goal| && FirstFailure(acts, goal, s, n, |goal|, m0.h, nlg, npc) == st
            else Added(acts, m, m', s, Act(i, Arg(acts[i], rest))) ==> Unfailed(acts, m0, m', s, nlg, npc)
  {
    hide FirstFailure, Events, CheckOf, Cells, Slots, Args, Arg, Left, Expand, EventOf;
    var e := Act(i, Arg(acts[i], rest));
    var es := m.entries[s] + [e];
    CheckOn(acts, m.entries[s], e, s, |m0.entries[s]|, m0.h, nlg, npc);
    ExpandOn(acts, m.entries[s], i, rest);
    var tail := Expand(acts, i + 1, Left(acts[i], rest));
    assert goal == es + tail;
    if CheckOf(acts[i], Arg(acts[i], rest), m.h, nlg, npc) != OK {
      FailureStays(acts, es, tail, s, |m0.entries[s]|, m0.h, nlg, npc);
    }
  }

  /** At the end of a put all of its entries have been checked. */
  lemma AllChecked(acts: seq<Action>, m0: Mem, m: Mem, s: nat, i: nat, rest: seq<int>, goal: seq<Entry>, nlg: nat, npc: nat)
    requires Putting(acts, m0, m, s, i, rest, goal) && Ends(acts[i]) && Unfailed(acts, m0, m, s, nlg, npc)
    ensures |m0.entries[s]| <= |goal| && FirstFailure(acts, goal, s, |m0.entries[s]|, |goal|, m0.h, nlg, npc) == OK
  {
    hide Events, Cells, Slots, FirstFailure;
    assert m.entries[s] + [] == m.entries[s];
  }

  // ---------------------------------------------------------------------------
  // The label arrays

  predicate InRange(lg: seq<int>, pc: seq<int>, l: Label) {
    match l
    case LG(n) => n < |lg|
    case PC(n) => n < |pc|
  }

  function LabelAt(lg: seq<int>, pc: seq<int>, l: Label): int
    requires InRange(lg, pc, l)
  {
    match l
    case LG(n) => lg[n]
    case PC(n) => pc[n]
  }

  function SetLG(lg: seq<int>, l: Label, v: int): seq<int> {
    if l.LG? && l.n < |lg| then lg[l.n := v] else lg
  }

  function SetPC(pc: seq<int>, l: Label, v: int): seq<int> {
    if l.PC? && l.n < |pc| then pc[l.n := v] else pc
  }

  /** The label arrays hold what the history says. */
  ghost predicate AnchorsFor(lg: seq<int>, pc: seq<int>, h: seq<Event>) {
    && (forall n: nat :: n < |lg| ==> lg[n] == Anchor(h, LG(n)))
    && (forall n: nat :: n < |pc| ==> pc[n] == Anchor(h, PC(n)))
    && (forall i :: 0 <= i < |h| ==> InRange(lg, pc, h[i].l))
  }

  lemma AnchorsOn(lg: seq<int>, pc: seq<int>, h: seq<Event>, h': seq<Event>, l: Label, v: int)
    requires |h'| == |h| + 1 && h'[..|h|] == h && h'[|h|].l == l && InRange(lg, pc, l)
    requires AnchorsFor(lg, pc, h) && Anchor(h', l) == v && forall o :: o != l ==> Anchor(h', o) == Anchor(h, o)
    ensures AnchorsFor(SetLG(lg, l, v), SetPC(pc, l, v), h')
  {
    hide Anchor;
    assert forall i :: 0 <= i < |h| ==> h'[i] == h'[..|h|][i];
  }

  // ---------------------------------------------------------------------------
  // One action more

  /** Inside a put to section s, with the local copies p and o of its position and offset. */
  ghost predicate Open(acts: seq<Action>, m: Mem, lg: seq<int>, pc: seq<int>, s: nat, p: nat, o: nat) {
    && s < |m.entries| && Recorded(acts, m, s, true) && AnchorsFor(lg, pc, m.h)
    && p == NextPos(acts, m, s) && o == Estimate(acts, m.entries[s], |m.entries[s]|)
  }

  /** The memory after a put has added e to section s. */
  ghost predicate Added(acts: seq<Action>, m: Mem, m': Mem, s: nat, e: Entry) {
    && s < |m.entries|
    && m'.entries == Fed1(m.entries, s, e)
    && m'.h == m.h + EventOf(acts, m.entries[s] + [e], s, |m.entries[s]|)
  }

  lemma Advanced(acts: seq<Action>, m: Mem, m': Mem, lg: seq<int>, pc: seq<int>, s: nat, p: nat, o: nat, e: Entry)
    requires s < |m.entries| && m'.entries == Fed1(m.entries, s, e) && Recorded(acts, m', s, true) && AnchorsFor(lg, pc, m'.h)
    requires p == NextPos(acts, m, s) && o == Estimate(acts, m.entries[s], |m.entries[s]|)
    ensures Open(acts, m', lg, pc, s, p + if HasCell(acts, e) then 1 else 0, o + Growth(acts, e))
  {
    hide Recorded, Growth, HasCell, AnchorsFor;
    CellsOn(acts, m.entries[s], e);
  }

  lemma NewEvent(acts: seq<Action>, m: Mem, s: nat, e: Entry)
    requires s < |m.entries|
    ensures EventOf(acts, m.entries[s] + [e], s, |m.entries[s]|) ==
            if !HasCell(acts, e) then []
            else match NextKind(acts, m, s, e)
              case KLabel(l, _) => [Def(l, NextPos(acts, m, s))]
              case KRef(l, fwd) => [Ref(l, NextPos(acts, m, s), fwd)]
              case KOther(_) => []
  {
    SamePrefix(acts, m.entries[s], e, |m.entries[s]|);
  }

  lemma NothingStep(acts: seq<Action>, m: Mem, lg: seq<int>, pc: seq<int>, s: nat, p: nat, o: nat, e: Entry)
    requires Open(acts, m, lg, pc, s, p, o) && MayFeed(acts, m, s, true, e) && !HasCell(acts, e)
    ensures var m' := m.(entries := Fed1(m.entries, s, e));
            Added(acts, m, m', s, e) && Open(acts, m', lg, pc, s, p, o + Growth(acts, e))
  {
    hide Recorded, MayFeed, KindOf, Cells, Estimate, Growth, AnchorsFor, HasCell;
    RecordNothing(acts, m, s, e);
    NewEvent(acts, m, s, e);
    Advanced(acts, m, m.(entries := Fed1(m.entries, s, e)), lg, pc, s, p, o, e);
  }

  /** b[pos++] = v, for a cell that is neither a label nor a reference. */
  lemma PlainStep(acts: seq<Action>, m: Mem, lg: seq<int>, pc: seq<int>, s: nat, open: bool, p: nat, o: nat, e: Entry, v: int)
    requires s < |m.entries| && Recorded(acts, m, s, open) && AnchorsFor(lg, pc, m.h)
    requires p == NextPos(acts, m, s) && o == Estimate(acts, m.entries[s], |m.entries[s]|)
    requires MayFeed(acts, m, s, open, e) && HasCell(acts, e) && NextKind(acts, m, s, e) == KOther(v)
    ensures var m' := Mem(m.cells[p := v], m.kind[p := KOther(v)], Fed1(m.entries, s, e), m.h);
            Added(acts, m, m', s, e) && Open(acts, m', lg, pc, s, p + 1, o + Growth(acts, e))
  {
    hide Recorded, MayFeed, KindOf, Cells, Estimate, Growth, AnchorsFor, HasCell;
    RecordPlain(acts, m, s, open, e, v);
    NewEvent(acts, m, s, e);
    Advanced(acts, m, Mem(m.cells[p := v], m.kind[p := KOther(v)], Fed1(m.entries, s, e), m.h), lg, pc, s, p, o, e);
  }

  /** A reference: take the live definition, or put the cell at the head of the label's chain. */
  lemma RefStep(acts: seq<Action>, m: Mem, lg: seq<int>, pc: seq<int>, s: nat, p: nat, o: nat, e: Entry, l: Label, fwd: bool)
    requires Open(acts, m, lg, pc, s, p, o) && MayFeed(acts, m, s, true, e) && HasCell(acts, e)
    requires NextKind(acts, m, s, e) == KRef(l, fwd) && InRange(lg, pc, l)
    ensures
      var n := LabelAt(lg, pc, l);
      var v := if !fwd && n < 0 then n else p;
      var m' := Mem(m.cells[p := RefValue(n, fwd)], m.kind[p := KRef(l, fwd)], Fed1(m.entries, s, e), m.h + [Ref(l, p, fwd)]);
      Added(acts, m, m', s, e) && Open(acts, m', SetLG(lg, l, v), SetPC(pc, l, v), s, p + 1, o + Growth(acts, e))
  {
    hide Recorded, MayFeed, KindOf, Cells, Estimate, Growth, HasCell, Anchor, RefValue;
    var n := LabelAt(lg, pc, l);
    var v := if !fwd && n < 0 then n else p;
    var m' := Mem(m.cells[p := RefValue(n, fwd)], m.kind[p := KRef(l, fwd)], Fed1(m.entries, s, e), m.h + [Ref(l, p, fwd)]);
    assert n == Anchor(m.h, l);
    RecordRef(acts, m, s, e, l, fwd);
    NewEvent(acts, m, s, e);
    AnchorsOn(lg, pc, m.h, m'.h, l, v);
    Advanced(acts, m, m', SetLG(lg, l, v), SetPC(pc, l, v), s, p, o, e);
  }

  /** A label: collapse its chain, note the definition, keep the offset estimate. */
  lemma DefStep(acts: seq<Action>, m: Mem, lg: seq<int>, pc: seq<int>, s: nat, p: nat, o: nat, e: Entry, l: Label)
    requires Open(acts, m, lg, pc, s, p, o) && MayFeed(acts, m, s, true, e) && HasCell(acts, e)
    requires NextKind(acts, m, s, e) == KLabel(l, o) && InRange(lg, pc, l)
    ensures
      var cells := Redirect(m.cells, Waiting(m.h, l), p)[p := o];
      var m' := Mem(cells, m.kind[p := KLabel(l, o)], Fed1(m.entries, s, e), m.h + [Def(l, p)]);
      Added(acts, m, m', s, e) && Open(acts, m', SetLG(lg, l, 0 - p), SetPC(pc, l, 0 - p), s, p + 1, o + Growth(acts, e))
  {
    hide Recorded, MayFeed, KindOf, Cells, Estimate, Growth, HasCell, Anchor, Redirect, Waiting, AnchorsFor;
    var cells := Redirect(m.cells, Waiting(m.h, l), p)[p := o];
    var m' := Mem(cells, m.kind[p := KLabel(l, o)], Fed1(m.entries, s, e), m.h + [Def(l, p)]);
    RecordDef(acts, m, s, e, l, o);
    NewEvent(acts, m, s, e);
    AnchorsOn(lg, pc, m.h, m'.h, l, 0 - p);
    Advanced(acts, m, m', SetLG(lg, l, 0 - p), SetPC(pc, l, 0 - p), s, p, o, e);
  }

  /** Every section's position and offset are those after its last entry. */
  ghost predicate PositionsOk(acts: seq<Action>, m: Mem, pos: seq<nat>, ofs: seq<nat>) {
    && |pos| == |ofs| == |m.entries|
    && forall t: nat :: t < |m.entries| ==>
         pos[t] == NextPos(acts, m, t) && ofs[t] == Estimate(acts, m.entries[t], |m.entries[t]|)
  }

  lemma PositionOf(acts: seq<Action>, m: Mem, pos: seq<nat>, ofs: seq<nat>, s: nat)
    requires PositionsOk(acts, m, pos, ofs) && s < |m.entries|
    ensures pos[s] == NextPos(acts, m, s) && ofs[s] == Estimate(acts, m.entries[s], |m.entries[s]|)
  {}

  lemma PositionSizes(acts: seq<Action>, m: Mem, pos: seq<nat>, ofs: seq<nat>)
    requires PositionsOk(acts, m, pos, ofs)
    ensures |pos| == |ofs| == |m.entries|
  {}

  /** The put is over: its section is closed and its position and offset are stored. */
  lemma ClosePut(acts: seq<Action>, m0: Mem, m: Mem, lg: seq<int>, pc: seq<int>, s: nat, p: nat, o: nat,
                 i: nat, rest: seq<int>, goal: seq<Entry>, pos: seq<nat>, ofs: seq<nat>, next: nat)
    requires Putting(acts, m0, m, s, i, rest, goal) && Ends(acts[i]) && Open(acts, m, lg, pc, s, p, o)
    requires PositionsOk(acts, m0, pos, ofs) && Begun(m0.entries, m0.h, s)
    ensures Begun(m.entries, m.h, next)
    ensures Recorded(acts, m, next, false) && AnchorsFor(lg, pc, m.h) && |m.entries| == |m0.entries|
    ensures PositionsOk(acts, m, pos[s := p], ofs[s := o])
    ensures m.entries == m0.entries[s := goal] && |m0.entries[s]| <= |goal|
    ensures m.h == m0.h + Events(acts, m.entries[s], s, |m0.entries[s]|, |m.entries[s]|)
  {
    hide Fed, Linked, HistOk, ValuesOk, Cells, Estimate, Events, Pos;
    assert Expand(acts, i, rest) == [];
    assert m.entries[s] + [] == m.entries[s];
    CloseSection(acts, m.entries, m.kind, s, next);
    forall t: nat | t < |m.entries|
      ensures pos[s := p][t] == NextPos(acts, m, t) && ofs[s := o][t] == Estimate(acts, m.entries[t], |m.entries[t]|)
    {
      PositionOf(acts, m0, pos, ofs, t);
      assert t != s ==> m.entries[t] == m0.entries[t];
    }
  }

  lemma MayBegin(acts: seq<Action>, m: Mem, s: nat, start: nat)
    requires s < |m.entries| && start < |acts| && Cells(acts, m.entries[s], |m.entries[s]|) + 1 < SEC
    requires !IsPatch(acts[start])
    ensures MayFeed(acts, m, s, false, Begin(start)) && HasCell(acts, Begin(start))
    ensures NextKind(acts, m, s, Begin(start)) == KOther(start) && Growth(acts, Begin(start)) == 0
  {}

  lemma EndOn(acts: seq<Action>, i: nat)
    ensures i < |acts| && !Ends(acts[i]) ==> EndOf(acts, i + 1) == EndOf(acts, i)
    ensures i < |acts| && Ends(acts[i]) ==> EndOf(acts, i) == i
  {}

  /** The first put goes to section 0, so that position 0 is in use as soon as any label is. */
  ghost predicate Begun(entries: seq<seq<Entry>>, h: seq<Event>, active: nat) {
    entries != [] && (entries[0] != [] || (h == [] && active == 0))
  }

  // ---------------------------------------------------------------------------
  // The engine

  class Dasm {
    const acts: seq<Action>
    var cells: Memory
    var pos: seq<nat>
    var ofs: seq<nat>
    var lg: seq<int>
    var pc: seq<int>
    var active: nat
    var codesize: int
    var status: Status
    ghost var kind: map<nat, Kind>
    ghost var entries: seq<seq<Entry>>
    ghost var h: seq<Event>

    ghost function M(): Mem
      reads this
    {
      Mem(cells, kind, entries, h)
    }

    ghost predicate Valid()
      reads this
    {
      && WellFormed(acts) && status == OK && |lg| >= 10
      && |pos| == |ofs| == |entries| && active < |entries|
      && Recorded(acts, M(), active, false) && AnchorsFor(lg, pc, h) && PositionsOk(acts, M(), pos, ofs)
      && Begun(entries, h, active)
    }

    /** dasm_init, dasm_setupglobal, dasm_growpc and dasm_setup together. */
    constructor (acts: seq<Action>, maxSection: nat, maxGlobals: nat, maxPc: nat)
      requires WellFormed(acts) && 0 < maxSection <= MAX_SECTIONS
      ensures Valid() && this.acts == acts && |entries| == maxSection && active == 0
      ensures |lg| == 10 + maxGlobals && |pc| == maxPc
      ensures h == [] && forall t :: 0 <= t < maxSection ==> entries[t] == []
    {
      this.acts := acts;
      cells, kind, h := map[], map[], [];
      pos, ofs := seq(maxSection, i => i * SEC), seq(maxSection, i => 0);
      lg, pc := seq(10 + maxGlobals, i => 0), seq(maxPc, i => 0);
      active, codesize, status := 0, 0, OK;
      entries := seq(maxSection, i => []);
      new;
      NothingRecorded(acts, M());
    }

    // -------------------------------------------------------------------------
    // Pass 1

    method SetLabel(l: Label, v: int)
      requires InRange(lg, pc, l)
      modifies this`lg, this`pc
      ensures lg == SetLG(old(lg), l, v) && pc == SetPC(old(pc), l, v)
    {
      match l
      case LG(n) => lg := lg[n := v];
      case PC(n) => pc := pc[n := v];
    }

    /** putrel and linkrel. */
    method StoreRef(s: nat, p: nat, ghost o: nat, ghost e: Entry, l: Label, fwd: bool)
      requires Open(acts, M(), lg, pc, s, p, o) && MayFeed(acts, M(), s, true, e) && HasCell(acts, e)
      requires NextKind(acts, M(), s, e) == KRef(l, fwd) && InRange(lg, pc, l)
      modifies this`cells, this`lg, this`pc, this`kind, this`entries, this`h
      ensures |lg| == |old(lg)| && |pc| == |old(pc)|
      ensures Added(acts, old(M()), M(), s, e) && Open(acts, M(), lg, pc, s, p + 1, o + Growth(acts, e))
    {
      hide Open, MayFeed, HasCell, NextKind, Added, Growth, Recorded;
      RefStep(acts, M(), lg, pc, s, p, o, e, l, fwd);
      EntriesRange(acts, M(), lg, pc, s, p, o);
      var n := LabelAt(lg, pc, l);
      if n < 0 && !fwd {
        cells := cells[p := 0 - n];
        assert lg == SetLG(lg, l, n) && pc == SetPC(pc, l, n);
      } else {
        if n < 0 {
          n := 0;
        }
        cells := cells[p := n];
        SetLabel(l, p);
      }
      kind := kind[p := KRef(l, fwd)];
      entries := Fed1(entries, s, e);
      h := h + [Ref(l, p, fwd)];
    }

    /** The loop that walks a chain and overwrites its links with v. */
    method Collapse(first: nat, v: int, ghost w: seq<nat>)
      requires Chain(cells, w) && Loose(w) && first == Head(w)
      modifies this`cells
      ensures cells == Redirect(old(cells), w, v)
    {
      hide Chain, Loose, Redirect, Collapsing;
      ghost var cells0, j := cells, 0;
      var n: int := first;
      BeginCollapse(cells, w, v);
      CollapseStep(cells0, w, v, cells, j, n);
      while n > 0
        invariant j >= 0 && n >= 0 && Collapsing(cells0, w, v, cells, j, n)
        decreases |w| - j
      {
        CollapseStep(cells0, w, v, cells, j, n);
        var next := cells[n];
        cells := cells[n := v];
        n := next;
        j := j + 1;
      }
      CollapseStep(cells0, w, v, cells, j, n);
    }

    /** putlabel: everyone in the chain gets the label's position. */
    method StoreDef(s: nat, p: nat, o: nat, ghost e: Entry, l: Label)
      requires Open(acts, M(), lg, pc, s, p, o) && MayFeed(acts, M(), s, true, e) && HasCell(acts, e)
      requires NextKind(acts, M(), s, e) == KLabel(l, o) && InRange(lg, pc, l)
      modifies this`cells, this`lg, this`pc, this`kind, this`entries, this`h
      ensures |lg| == |old(lg)| && |pc| == |old(pc)|
      ensures Added(acts, old(M()), M(), s, e) && Open(acts, M(), lg, pc, s, p + 1, o + Growth(acts, e))
    {
      hide Open, MayFeed, HasCell, NextKind, Added, Growth, Recorded, Waiting, Linked, Anchor, Redirect, Collapsing;
      DefStep(acts, M(), lg, pc, s, p, o, e, l);
      EntriesRange(acts, M(), lg, pc, s, p, o);
      var n := LabelAt(lg, pc, l);
      assert n == Anchor(h, l);
      StartCollapse(cells, h, l, p);
      if n > 0 {
        Collapse(n, p, Waiting(h, l));
      }
      SetLabel(l, 0 - p);
      cells := cells[p := o];
      kind := kind[p := KLabel(l, o)];
      entries := Fed1(entries, s, e);
      h := h + [Def(l, p)];
    }

    /** The switch of pass 1 for one action; p and o are the local position and offset. */
    method PutAction(s: nat, i: nat, arg: int, p: nat, o: nat) returns (p': nat, o': nat)
      requires WellFormed(acts) && status == OK && |lg| >= 10
      requires Open(acts, M(), lg, pc, s, p, o) && Comes(acts, M(), s, i) && i < |acts| && !Ends(acts[i])
      modifies this`cells, this`lg, this`pc, this`status, this`kind, this`entries, this`h
      ensures |lg| == |old(lg)| && |pc| == |old(pc)|
      ensures status == OK ==> Added(acts, old(M()), M(), s, Act(i, arg)) && Open(acts, M(), lg, pc, s, p', o')
      ensures status == CheckOf(acts[i], arg, old(h), |lg|, |pc|)
    {
      hide Open, MayFeed, Comes, HasCell, NextKind, Added, Growth, NextPos, Fits, ImmOk, Kept, Fed1, Live;
      ghost var e := Act(i, arg);
      EntriesRange(acts, M(), lg, pc, s, p, o);
      ActionFacts(acts, M(), lg, pc, s, p, o, e);
      MayFeedIf(acts, M(), s, i, arg);
      BackwardLive(acts, M(), lg, pc, s, p, o, i);
      p', o' := p, o;
      match acts[i] {
        case Stop =>
          assert false;
        case Section(_) =>
          assert false;
        case Word(_) =>
          o' := o + 4;
          StoreNothing(s, p, o, e);
        case Esc(_) =>
          o' := o + 4;
          StoreNothing(s, p, o, e);
        case RelExt(_, _) =>
          StoreNothing(s, p, o, e);
        case Align(mask) =>
          o' := o + mask;
          StorePlain(s, true, p, o, e, o');
          p' := p + 1;
        case RelLG(n, _) =>
          if n >= 10 {
            if !(n - 10 >= 10 || lg[n - 10] < 0) || n - 10 >= |lg| {
              status := RangeLG;
              return;
            }
          }
          StoreRef(s, p, o, e, RefLabel(n), n < 10);
          p' := p + 1;
        case RelPC(_) =>
          if !(0 <= arg < |pc|) {
            status := RangePC;
            return;
          }
          StoreRef(s, p, o, e, PcLabel(arg), false);
          p' := p + 1;
        case LabelLG(n) =>
          if !(0 <= n - 10 < |lg|) {
            status := RangeLG;
            return;
          }
          StoreDef(s, p, o, e, DefLabel(n));
          p' := p + 1;
        case LabelPC =>
          if !(0 <= arg < |pc|) {
            status := RangePC;
            return;
          }
          StoreDef(s, p, o, e, PcLabel(arg));
          p' := p + 1;
        case Immediate(k) =>
          if !ImmOk(k, arg) {
            status := RangeI;
            return;
          }
          StorePlain(s, true, p, o, e, Kept(k, arg));
          p' := p + 1;
      }
    }

    ghost method StoreNothing(s: nat, p: nat, o: nat, e: Entry)
      requires Open(acts, M(), lg, pc, s, p, o) && MayFeed(acts, M(), s, true, e) && !HasCell(acts, e)
      modifies this`entries
      ensures Added(acts, old(M()), M(), s, e) && Open(acts, M(), lg, pc, s, p, o + Growth(acts, e))
    {
      hide Open, MayFeed, HasCell, Added, Growth;
      EntriesRange(acts, M(), lg, pc, s, p, o);
      NothingStep(acts, M(), lg, pc, s, p, o, e);
      entries := Fed1(entries, s, e);
    }

    method StorePlain(s: nat, ghost open: bool, p: nat, ghost o: nat, ghost e: Entry, v: int)
      requires s < |entries| && Recorded(acts, M(), s, open) && AnchorsFor(lg, pc, h)
      requires p == NextPos(acts, M(), s) && o == Estimate(acts, entries[s], |entries[s]|)
      requires MayFeed(acts, M(), s, open, e) && HasCell(acts, e) && NextKind(acts, M(), s, e) == KOther(v)
      modifies this`cells, this`kind, this`entries
      ensures Added(acts, old(M()), M(), s, e) && Open(acts, M(), lg, pc, s, p + 1, o + Growth(acts, e))
    {
      hide Open, MayFeed, HasCell, NextKind, Added, Growth, Recorded, AnchorsFor, NextPos, Estimate;
      PlainStep(acts, M(), lg, pc, s, open, p, o, e, v);
      cells := cells[p := v];
      kind := kind[p := KOther(v)];
      entries := Fed1(entries, s, e);
    }

    lemma ValidMeans()
      requires Valid()
      ensures WellFormed(acts) && status == OK && |lg| >= 10 && |pos| == |ofs| == |entries| && active < |entries|
      ensures Recorded(acts, M(), active, false) && AnchorsFor(lg, pc, h) && PositionsOk(acts, M(), pos, ofs)
      ensures Begun(entries, h, active)
    {}

    lemma ValidIf()
      requires WellFormed(acts) && status == OK && |lg| >= 10 && |pos| == |ofs| == |entries| && active < |entries|
      requires Recorded(acts, M(), active, false) && AnchorsFor(lg, pc, h) && PositionsOk(acts, M(), pos, ofs)
      requires Begun(entries, h, active)
      ensures Valid()
    {}

    /**
      * dasm_put.  On success the section has been given exactly the actions of the
      * put, their labels and references are in the history, and the active section
      * is the one the put switches to.  A failed check leaves no usable state.
      */
    method Put(start: nat, args: seq<int>)
      requires Valid() && start < |acts| && !IsPatch(acts[start]) && Args(acts, start) <= |args|
      requires Cells(acts, entries[active], |entries[active]|) + 1 + Slots(acts, start) < SEC
      modifies this
      ensures |lg| == |old(lg)| && |pc| == |old(pc)|
      ensures status == OK ==>
                var s, n := old(active), |old(entries)[old(active)]|;
                && Valid() && |entries| == |old(entries)|
                && entries == old(entries)[s := old(entries)[s] + [Begin(start)] + Expand(acts, start, args)]
                && n <= |entries[s]| && h == old(h) + Events(acts, entries[s], s, n, |entries[s]|)
                && active == if EndOf(acts, start) < |acts| && acts[EndOf(acts, start)].Section? then acts[EndOf(acts, start)].n else s
      ensures var s, n := old(active), |old(entries)[old(active)]|;
              var goal := old(entries)[s] + [Begin(start)] + Expand(acts, start, args);
              var st := FirstFailure(acts, goal, s, n, |goal|, old(h), |lg|, |pc|);
              status == if st != OK then st
                        else if EndOf(acts, start) < |acts| && acts[EndOf(acts, start)].Section?
                                && acts[EndOf(acts, start)].n >= |old(entries)| then RangeSec
                        else OK
    {
      hide Recorded, AnchorsFor, NextPos, Estimate, Cells, Open, Putting, Expand, Slots, Args, EndOf, Arg, Left;
      hide Added, Events, WellFormed, MayFeed, PositionsOk, HasArg, HasCell, NextKind, Growth, Valid, FirstFailure, CheckOf, Unfailed;
      ValidMeans();
      ghost var m0 := M();
      var s := active;
      var p, o := pos[s], ofs[s];
      ghost var goal := m0.entries[s] + [Begin(start)] + Expand(acts, start, args);
      PositionOf(acts, m0, pos, ofs, s);
      MayBegin(acts, m0, s, start);
      StorePlain(s, false, p, o, Begin(start), start);
      BeginPut(acts, m0, M(), s, start, args);
      UnfailedAtFirst(acts, m0, M(), s, start, |lg|, |pc|);
      p := p + 1;
      var i, rest := start, args;
      while !Ends(acts[i])
        invariant i < |acts| && status == OK && |lg| == |old(lg)| && |pc| == |old(pc)|
        invariant pos == old(pos) && ofs == old(ofs) && active == old(active)
        invariant Open(acts, M(), lg, pc, s, p, o)
        invariant Putting(acts, m0, M(), s, i, rest, goal)
        invariant Unfailed(acts, m0, M(), s, |lg|, |pc|)
        invariant EndOf(acts, i) == EndOf(acts, start)
        decreases |acts| - i
      {
        MayPut(acts, m0, M(), s, i, rest, goal);
        ghost var m := M();
        p, o := PutAction(s, i, Arg(acts[i], rest), p, o);
        PutCheck(acts, m0, m, M(), s, i, rest, goal, |lg|, |pc|);
        if status != OK {
          return;
        }
        PutOn(acts, m0, m, M(), s, i, rest, goal);
        EndOn(acts, i);
        rest := Left(acts[i], rest);
        i := i + 1;
      }
      EndOn(acts, i);
      AllChecked(acts, m0, M(), s, i, rest, goal, |lg|, |pc|);
      ClosePut(acts, m0, M(), lg, pc, s, p, o, i, rest, goal, pos, ofs, if acts[i].Section? then acts[i].n else s);
      if acts[i].Section? {
        if acts[i].n >= |pos| {
          status := RangeSec;
          return;
        }
        active := acts[i].n;
      }
      pos, ofs := pos[s := p], ofs[s := o];
      ValidIf();
    }

    // -------------------------------------------------------------------------
    // Pass 2

    /** References to globals that no put has defined get minus the label number. */
    method MarkGlobals()
      requires Linked(cells, h) && AnchorsFor(lg, pc, h)
      modifies this`cells
      ensures Marked(old(cells), cells, h, 20, if |lg| > 20 then |lg| else 20)
    {
      hide Linked, Marked, Waiting, Anchor, Chain, Loose, Redirect;
      ghost var cells0 := cells;
      var idx := 20;
      NothingMarked(cells, h);
      while idx < |lg|
        invariant 20 <= idx && (idx <= |lg| || idx == 20)
        invariant Marked(cells0, cells, h, 20, idx)
      {
        var n := lg[idx];
        StartCollapse(cells0, h, LG(idx), 0 - idx);
        WaitingLoose(cells0, h, LG(idx));
        MarkOn(cells0, cells, h, 20, idx);
        if n > 0 {
          Collapse(n, 0 - idx, Waiting(h, LG(idx)));
        } else {
          NobodyWaits(cells0, cells, h, LG(idx), 0 - idx);
        }
        idx := idx + 1;
      }
    }

    /** The switch of pass 2 for one action. */
    method LinkAction(s: nat, ghost k: nat, i: nat, p: nat, c: int, ghost m: Mem, ghost s0: nat) returns (p': nat, c': int)
      requires Closed(acts, m, s0) && Walking(acts, m, cells, s, k, p, c)
      requires k < |m.entries[s]| && m.entries[s][k].Act? && m.entries[s][k].i == i < |acts|
      modifies this`cells
      ensures Walking(acts, m, cells, s, k + 1, p', c')
    {
      hide Closed, Walking, WordAt, Estimate, And, HasCell, KindOf, CellAt, Cells;
      WalkRange(acts, m, s0, cells, s, k, p, c);
      ghost var e := m.entries[s][k];
      LinkFacts(acts, m.entries[s], k);
      if HasCell(acts, e) {
        CellHere(acts, m, s0, cells, s, k, p, c);
      }
      ghost var w := WordAt(acts, m.entries, s, k);
      ghost var before := cells;
      p', c' := p, c;
      match acts[i] {
        case Align(mask) =>
          c' := c - And(cells[p] + c, mask);
          p' := p + 1;
        case RelLG(_, _) => p' := p + 1;
        case RelPC(_) => p' := p + 1;
        case LabelLG(_) =>
          cells := cells[p := cells[p] + c];
          p' := p + 1;
        case LabelPC =>
          cells := cells[p := cells[p] + c];
          p' := p + 1;
        case Immediate(_) => p' := p + 1;
        case _ =>
      }
      WalkStep(acts, m, s0, before, s, k, p, c, cells, c');
    }

    /** One section: put by put, action by action. */
    method LinkSection(s: nat, c0: int, ghost m: Mem, ghost s0: nat) returns (c: int)
      requires Closed(acts, m, s0) && s < |m.entries| && Walking(acts, m, cells, s, 0, Pos(s, 0), c0)
      requires s < |pos| && pos[s] == NextPos(acts, m, s)
      modifies this`cells
      ensures Walking(acts, m, cells, s, |m.entries[s]|, pos[s], c)
    {
      hide Closed, Walking, Threaded, HasCell, KindOf, CellAt, Cells, Pos;
      ghost var es, k := m.entries[s], 0;
      var p: nat, lastpos := s * SEC, pos[s];
      FirstPos(s);
      c := c0;
      WalkRange(acts, m, s0, cells, s, 0, p, c);
      AtEnd(acts, m, s0, cells, s, 0, p, c);
      while p != lastpos
        invariant k <= |es| && (k < |es| ==> es[k].Begin?)
        invariant Walking(acts, m, cells, s, k, p, c)
        invariant p == lastpos <==> k == |es|
        decreases |es| - k
      {
        BeginHere(acts, m, s0, cells, s, k, p, c);
        var i: nat := cells[p];
        p := p + 1;
        k := k + 1;
        WalkOn(acts, es, k);
        while !Ends(acts[i])
          invariant 0 < k <= |es| && i < |acts| && i == After(es[k - 1])
          invariant Walking(acts, m, cells, s, k, p, c)
          invariant !Ends(acts[i]) ==> k < |es| && es[k].Act? && es[k].i == i
          invariant Ends(acts[i]) && k < |es| ==> es[k].Begin?
          decreases |es| - k
        {
          p, c := LinkAction(s, k, i, p, c, m, s0);
          i := i + 1;
          k := k + 1;
          WalkOn(acts, es, k);
        }
        AtEnd(acts, m, s0, cells, s, k, p, c);
      }
    }

    /** Is every pc label that has been referred to also defined? */
    method CheckPcLabels() returns (ok: bool)
      ensures ok <==> forall n :: 0 <= n < |pc| ==> pc[n] <= 0
    {
      var n := 0;
      while n < |pc|
        invariant 0 <= n <= |pc| && forall k :: 0 <= k < n ==> pc[k] <= 0
      {
        if pc[n] > 0 {
          return false;
        }
        n := n + 1;
      }
      ok := true;
    }

    /** The loop over the sections. */
    method LinkSections(ghost m: Mem, ghost s0: nat) returns (ofs1: int)
      requires Closed(acts, m, s0) && Fixed(acts, m, cells, 0, 0) && PositionsOk(acts, m, pos, ofs)
      requires m.entries != [] ==> Corrected(acts, m.entries, 0, 0, 0)
      modifies this`cells
      ensures Fixed(acts, m, cells, |m.entries|, 0) && ofs1 == 4 * SectionStart(acts, m.entries, |m.entries|)
    {
      hide SectionStart, Closed, Walking, Fixed, PositionsOk, NextPos, Estimate, Corrected;
      PositionSizes(acts, m, pos, ofs);
      NoSections(acts, m.entries);
      var secnum := 0;
      ofs1 := 0;
      while secnum < |pos|
        invariant 0 <= secnum <= |pos| == |m.entries|
        invariant Fixed(acts, m, cells, secnum, 0)
        invariant secnum < |m.entries| ==> Corrected(acts, m.entries, secnum, 0, ofs1)
        invariant ofs1 == 4 * SectionStart(acts, m.entries, secnum)
      {
        PositionOf(acts, m, pos, ofs, secnum);
        BeginWalk(acts, m, cells, secnum, ofs1);
        ofs1 := LinkSection(secnum, ofs1, m, s0);
        EndWalk(acts, m, cells, secnum, pos[secnum], ofs1);
        NextSection(acts, m, cells, secnum, ofs1);
        ofs1 := ofs1 + ofs[secnum];
        secnum := secnum + 1;
      }
    }

    /**
      * dasm_link.  It fails exactly when a put has failed or somebody waits for a pc
      * label; otherwise every label cell ends up with the true offset of its label, and the code
      * size is the true size of all sections together.
      */
    method Link() returns (st: Status, size: int)
      requires status == OK ==> Valid()
      modifies this`cells, this`codesize
      ensures st == if status != OK then status
                    else if exists n: nat :: n < |pc| && Waiting(h, PC(n)) != [] then UndefPC else OK
      ensures st == OK ==> Laid(acts, old(M()), cells) && size == codesize == 4 * SectionStart(acts, entries, |entries|)
      ensures st == OK ==> ReadyToEncode()
      ensures st != OK ==> cells == old(cells) && size == 0
    {
      if status != OK {
        return status, 0;
      }
      hide Recorded, AnchorsFor, Waiting, Laid, SectionStart, Closed, Walking, Fixed, Valid, PositionsOk, Marked, NextPos, Estimate, Corrected;
      hide LinkedUp, WellFormed;
      ValidMeans();
      ghost var m, s0 := M(), active;
      PcAnchors(acts, m, lg, pc, s0);
      var defined := CheckPcLabels();
      if !defined {
        return UndefPC, 0;
      }
      RecordedMeans(acts, m, s0);
      MarkGlobals();
      ghost var m2 := M();
      ReadyToLink(acts, m, m2, lg, pos, ofs, s0);
      var ofs1 := LinkSections(m2, s0);
      Linked2(acts, m, m2, lg, pc, s0, cells);
      codesize := ofs1;
      StillRecorded(acts, m, M(), s0);
      return OK, ofs1;
    }

    // -------------------------------------------------------------------------
    // Pass 3

    /** cp[-1] |= ..., after the range check; w is the number of words written. */
    method Patch(buffer: array<Bits>, w: nat, form: Form, n: int) returns (st: Status)
      requires 0 < w <= buffer.Length
      modifies buffer
      ensures var r := Relocated(form, old(buffer[..w]), n);
              && (r.Done? ==> st == OK && buffer[..w] == r.code)
              && (r.Failed? ==> st == r.st != OK)
    {
      hide InReach, PatchRel;
      if !InReach(form, n) {
        return RangeRel;
      }
      buffer[w - 1] := PatchRel(form, buffer[w - 1], n);
      st := OK;
    }

    /** Padding with no-operations. */
    method PadWith(buffer: array<Bits>, w: nat, mask: nat) returns (w': nat)
      requires IsMask(mask) && w + Pad(w, mask) <= buffer.Length
      modifies buffer
      ensures w' == w + Pad(w, mask) && buffer[..w'] == old(buffer[..w]) + Nops(Pad(w, mask))
    {
      hide And, Pad, IsMask;
      w' := w;
      PadStep(w, mask);
      while And(4 * w', mask) != 0
        invariant w <= w' && w' + Pad(w', mask) == w + Pad(w, mask)
        invariant buffer[..w'] == old(buffer[..w]) + Nops(w' - w)
        decreases Pad(w', mask)
      {
        PadStep(w', mask);
        ghost var before := buffer[..w'];
        buffer[w'] := NOP;
        assert buffer[..w' + 1] == before + [NOP];
        w' := w' + 1;
      }
      PadStep(w', mask);
    }

    /** The switch of pass 3 for one action; p and w are the buffer position and the number of words written. */
    method EncodeAction(ext: (int, nat) -> int, buffer: array<Bits>, s: nat, ghost k: nat, i: nat, p: nat, w: nat, ghost s0: nat)
      returns (p': nat, w': nat, st: Status)
      requires LinkedUp(acts, M(), s0) && SectionStart(acts, entries, |entries|) <= buffer.Length
      requires Emitting(acts, ext, cells, entries, s, k, p, buffer[..], w)
      requires k < |entries[s]| && entries[s][k].Act? && entries[s][k].i == i < |acts|
      modifies buffer
      ensures st == OK ==> Emitting(acts, ext, cells, entries, s, k + 1, p', buffer[..], w')
      ensures st != OK ==> Code(acts, ext, cells, entries, |entries|) == Failed(st)
    {
      hide LinkedUp, Emitting, WordAt, CodeTo, Code, Relocated, PatchImm, Pad, HasCell, KindOf, CellAt, SectionStart, IsMask;
      p', w', st := p, w, OK;
      EmittingRange(acts, ext, cells, entries, s, k, p, buffer[..], w);
      EmitOn(acts, ext, cells, entries, s, k, p, buffer[..], w);
      EncodeFacts(acts, M(), s0, s, k, p, w);
      ghost var buf := buffer[..];
      match acts[i] {
        case Word(word) =>
          buffer[w] := word;
          assert buffer[..w + 1] == buf[..w] + [word];
          w' := w + 1;
        case Esc(word) =>
          buffer[w] := word;
          assert buffer[..w + 1] == buf[..w] + [word];
          w' := w + 1;
        case RelExt(id, form) =>
          st := Patch(buffer, w, form, ext(4 * w, id));
        case Align(mask) =>
          p' := p + 1;
          w' := PadWith(buffer, w, mask);
        case RelLG(_, form) =>
          var n := cells[p];
          p' := p + 1;
          if n < 0 {
            st := UndefLG;
          } else {
            st := Patch(buffer, w, form, cells[n] - 4 * w - 4);
          }
        case RelPC(form) =>
          var n := cells[p];
          p' := p + 1;
          if n < 0 {
            st := UndefPC;
          } else {
            st := Patch(buffer, w, form, cells[n] - 4 * w - 4);
          }
        case LabelLG(_) => p' := p + 1;
        case LabelPC => p' := p + 1;
        case Immediate(kind) =>
          buffer[w - 1] := PatchImm(kind, buffer[w - 1], cells[p]);
          p' := p + 1;
        case _ =>
      }
      if st == OK {
        assert CodeTo(acts, ext, cells, entries, s, k + 1) == Done(buffer[..w']);
        EmitDone(acts, ext, cells, entries, s, k, p, buf, w, buffer[..], w');
      } else {
        FailedLater(acts, ext, cells, entries, s, k + 1, st);
      }
    }

    /** One section: put by put, action by action. */
    method EncodeSection(ext: (int, nat) -> int, buffer: array<Bits>, s: nat, w0: nat, ghost s0: nat) returns (w: nat, st: Status)
      requires LinkedUp(acts, M(), s0) && SectionStart(acts, entries, |entries|) <= buffer.Length
      requires s < |entries| && Emitting(acts, ext, cells, entries, s, 0, Pos(s, 0), buffer[..], w0)
      requires s < |pos| && pos[s] == NextPos(acts, M(), s)
      modifies buffer
      ensures st == OK ==> Emitting(acts, ext, cells, entries, s, |entries[s]|, pos[s], buffer[..], w)
      ensures st != OK ==> Code(acts, ext, cells, entries, |entries|) == Failed(st)
    {
      hide LinkedUp, Emitting, Code, Threaded, HasCell, KindOf, CellAt, Cells, Pos, SectionStart;
      ghost var es, k := entries[s], 0;
      var p: nat, endb := s * SEC, pos[s];
      FirstPos(s);
      w, st := w0, OK;
      LinkedFacts(acts, M(), s0, s);
      AtEndOfCode(acts, ext, M(), s0, s, 0, p, buffer[..], w);
      while p != endb
        invariant k <= |es| && (k < |es| ==> es[k].Begin?)
        invariant Emitting(acts, ext, cells, entries, s, k, p, buffer[..], w)
        invariant p == endb <==> k == |es|
        invariant st == OK
        decreases |es| - k
      {
        BeginCode(acts, ext, M(), s0, s, k, p, buffer[..], w);
        var i: nat := cells[p];
        p := p + 1;
        k := k + 1;
        WalkOn(acts, es, k);
        while !Ends(acts[i])
          invariant 0 < k <= |es| && i < |acts| && i == After(es[k - 1])
          invariant Emitting(acts, ext, cells, entries, s, k, p, buffer[..], w)
          invariant !Ends(acts[i]) ==> k < |es| && es[k].Act? && es[k].i == i
          invariant Ends(acts[i]) && k < |es| ==> es[k].Begin?
          invariant st == OK
          decreases |es| - k
        {
          p, w, st := EncodeAction(ext, buffer, s, k, i, p, w, s0);
          if st != OK {
            return;
          }
          i := i + 1;
          k := k + 1;
          WalkOn(acts, es, k);
        }
        AtEndOfCode(acts, ext, M(), s0, s, k, p, buffer[..], w);
      }
    }

    /** What dasm_link leaves behind for dasm_encode. */
    ghost predicate ReadyToEncode()
      reads this
    {
      && LinkedUp(acts, M(), active) && PositionsOk(acts, M(), pos, ofs)
      && codesize == 4 * SectionStart(acts, entries, |entries|)
    }

    /**
      * dasm_encode.  It emits exactly the specified code, as many bytes as
      * dasm_link announced, or gives up with the specified status: a distance out of
      * reach, or a checked global that is missing.  The phase check at its end never
      * fails.
      */
    method Encode(ext: (int, nat) -> int, buffer: array<Bits>) returns (st: Status)
      requires ReadyToEncode() && codesize <= 4 * buffer.Length
      modifies buffer
      ensures match Code(acts, ext, cells, entries, |entries|)
              case Done(code) => st == OK && 4 * |code| == codesize && |code| <= buffer.Length && buffer[..|code|] == code
              case Failed(e) => st == e
      ensures st == OK || st == RangeRel || (st == UndefLG && Missing(h))
      ensures st == OK ==> !Missing(h)
    {
      hide LinkedUp, Emitting, Code, SectionStart, PositionsOk, NextPos, Missing;
      UndefinedStops(acts, ext, M(), active);
      CodeLength(acts, ext, cells, entries, |entries|);
      NoCode(acts, ext, cells, entries, buffer[..]);
      PositionSizes(acts, M(), pos, ofs);
      var w: nat, secnum: nat := 0, 0;
      st := OK;
      while secnum < |pos|
        invariant 0 <= secnum <= |pos| == |entries|
        invariant w <= buffer.Length && Code(acts, ext, cells, entries, secnum) == Done(buffer[..w])
      {
        PositionOf(acts, M(), pos, ofs, secnum);
        BeginEmitting(acts, ext, cells, entries, secnum, buffer[..], w);
        w, st := EncodeSection(ext, buffer, secnum, w, active);
        if st != OK {
          return;
        }
        EndEmitting(acts, ext, cells, entries, secnum, pos[secnum], buffer[..], w);
        secnum := secnum + 1;
      }
      st := if codesize != 4 * w then Phase else OK;
    }
  }

  lemma NoCode(acts: seq<Action>, ext: (int, nat) -> int, cells: Memory, entries: seq<seq<Entry>>, buf: seq<Bits>)
    ensures Code(acts, ext, cells, entries, 0) == Done(buf[..0])
  {}

  lemma BeginEmitting(acts: seq<Action>, ext: (int, nat) -> int, cells: Memory, entries: seq<seq<Entry>>, s: nat, buf: seq<Bits>, w: nat)
    requires s < |entries| && w <= |buf| && Code(acts, ext, cells, entries, s) == Done(buf[..w])
    ensures Emitting(acts, ext, cells, entries, s, 0, Pos(s, 0), buf, w)
  {}

  lemma EndEmitting(acts: seq<Action>, ext: (int, nat) -> int, cells: Memory, entries: seq<seq<Entry>>, s: nat, p: nat, buf: seq<Bits>, w: nat)
    requires s < |entries| && Emitting(acts, ext, cells, entries, s, |entries[s]|, p, buf, w)
    ensures w <= |buf| && Code(acts, ext, cells, entries, s + 1) == Done(buf[..w])
  {
    hide SectionCode;
  }

  lemma AtEndOfCode(acts: seq<Action>, ext: (int, nat) -> int, m: Mem, s0: nat, s: nat, k: nat, p: nat, buf: seq<Bits>, w: nat)
    requires LinkedUp(acts, m, s0) && Emitting(acts, ext, m.cells, m.entries, s, k, p, buf, w)
    requires s < |m.entries| && k <= |m.entries[s]| && (k < |m.entries[s]| ==> k == 0 || m.entries[s][k].Begin?)
    ensures p == NextPos(acts, m, s) <==> k == |m.entries[s]|
    ensures k < |m.entries[s]| ==> m.entries[s][k].Begin?
  {
    hide LinkedUp, CodeTo, Threaded;
    LinkedFacts(acts, m, s0, s);
    var es := m.entries[s];
    if k < |es| {
      WalkStart(acts, es);
      CellsGrow(acts, es, k, |es|);
    }
  }

  lemma BeginCode(acts: seq<Action>, ext: (int, nat) -> int, m: Mem, s0: nat, s: nat, k: nat, p: nat, buf: seq<Bits>, w: nat)
    requires LinkedUp(acts, m, s0) && Emitting(acts, ext, m.cells, m.entries, s, k, p, buf, w)
    requires s < |m.entries| && k < |m.entries[s]| && m.entries[s][k].Begin?
    ensures p in m.cells && m.cells[p] == m.entries[s][k].start
    ensures Emitting(acts, ext, m.cells, m.entries, s, k + 1, p + 1, buf, w)
  {
    hide LinkedUp, CodeTo;
    CellPresent(acts, m, s0, s, k, p);
    CodeToOn(acts, ext, m.cells, m.entries, s, k);
    EmitDone(acts, ext, m.cells, m.entries, s, k, p, buf, w, buf, w);
  }

  /** What pass 3 needs to know in front of an action. */
  lemma EncodeFacts(acts: seq<Action>, m: Mem, s0: nat, s: nat, k: nat, p: nat, w: nat)
    requires LinkedUp(acts, m, s0) && s < |m.entries| && k < |m.entries[s]|
    requires p == Pos(s, Cells(acts, m.entries[s], k)) && w == WordAt(acts, m.entries, s, k)
    requires m.entries[s][k].Act? && m.entries[s][k].i < |acts|
    ensures var a := acts[m.entries[s][k].i];
            && (HasCell(acts, m.entries[s][k]) <==> HasSlot(a))
            && (a.Align? ==> IsMask(a.mask))
            && WordAt(acts, m.entries, s, k + 1) <= SectionStart(acts, m.entries, |m.entries|)
            && WordAt(acts, m.entries, s, k + 1) ==
               (if a.Word? || a.Esc? then w + 1 else if a.Align? then w + Pad(w, a.mask) else w)
            && (IsPatch(a) ==> w > 0)
            && (HasSlot(a) ==> p in m.cells)
            && (a.RelLG? || a.RelPC? ==> m.cells[p] >= 0 ==> m.cells[p] in m.cells)
  {
    hide LinkedUp, SectionStart, CellAt, Cells, IsMask, Pad;
    var e := m.entries[s][k];
    InBuffer(acts, m.entries, s, k + 1);
    LinkedFacts(acts, m, s0, s);
    if IsPatch(acts[e.i]) {
      PatchHasWord(acts, m.entries[s], k, SectionStart(acts, m.entries, s));
    }
    if HasSlot(acts[e.i]) {
      CellPresent(acts, m, s0, s, k, p);
      if acts[e.i].RelLG? || acts[e.i].RelPC? {
        RefHolds(acts, m, s0, s, k, p);
      }
    }
  }

  lemma LinkedFacts(acts: seq<Action>, m: Mem, s0: nat, s: nat)
    requires LinkedUp(acts, m, s0) && s < |m.entries|
    ensures WellFormed(acts) && Threaded(acts, m.entries[s], false)
  {
    assert SectionFed(acts, m.entries, s0, false, s);
  }

  lemma StillRecorded(acts: seq<Action>, m: Mem, m': Mem, s0: nat)
    requires WellFormed(acts) && Recorded(acts, m, s0, false) && m' == m.(cells := m'.cells) && Laid(acts, m, m'.cells)
    requires Begun(m.entries, m.h, s0)
    ensures LinkedUp(acts, m', s0)
    ensures forall pos: seq<nat>, ofs: seq<nat> :: PositionsOk(acts, m, pos, ofs) ==> PositionsOk(acts, m', pos, ofs)
  {
    hide Fed, HistOk, RefLaid, CellAt;
  }

  lemma PcAnchors(acts: seq<Action>, m: Mem, lg: seq<int>, pc: seq<int>, s0: nat)
    requires Recorded(acts, m, s0, false) && AnchorsFor(lg, pc, m.h)
    ensures forall n: nat :: n < |pc| ==> (pc[n] > 0 <==> Waiting(m.h, PC(n)) != [])
  {
    hide Linked, Waiting, Anchor;
    forall n: nat | n < |pc|
      ensures pc[n] > 0 <==> Waiting(m.h, PC(n)) != []
    {
      AnchorSign(m.cells, m.h, PC(n));
    }
  }

  lemma RecordedMeans(acts: seq<Action>, m: Mem, s0: nat)
    requires Recorded(acts, m, s0, false)
    ensures Linked(m.cells, m.h)
  {}

  lemma ReadyToLink(acts: seq<Action>, m: Mem, m2: Mem, lg: seq<int>, pos: seq<nat>, ofs: seq<nat>, s0: nat)
    requires PositionsOk(acts, m, pos, ofs)
    requires WellFormed(acts) && Recorded(acts, m, s0, false) && m2 == m.(cells := m2.cells)
    requires Marked(m.cells, m2.cells, m.h, 20, if |lg| > 20 then |lg| else 20)
    ensures Closed(acts, m2, s0) && Fixed(acts, m2, m2.cells, 0, 0) && SectionStart(acts, m2.entries, 0) == 0
    ensures m2.entries != [] ==> Corrected(acts, m2.entries, 0, 0, 0)
    ensures PositionsOk(acts, m2, pos, ofs)
  {
    hide Fed, Linked, Marked;
    MarkedValues(acts, m, s0, m2.cells, if |lg| > 20 then |lg| else 20);
    NothingFixed(acts, m2, s0);
  }

  lemma BeginWalk(acts: seq<Action>, m: Mem, cells: Memory, s: nat, c: int)
    requires Fixed(acts, m, cells, s, 0) && Corrected(acts, m.entries, s, 0, c)
    ensures Walking(acts, m, cells, s, 0, Pos(s, 0), c)
  {}

  lemma EndWalk(acts: seq<Action>, m: Mem, cells: Memory, s: nat, p: nat, c: int)
    requires s < |m.entries| && Walking(acts, m, cells, s, |m.entries[s]|, p, c)
    ensures Fixed(acts, m, cells, s, |m.entries[s]|) && Corrected(acts, m.entries, s, |m.entries[s]|, c)
  {}

  lemma Linked2(acts: seq<Action>, m: Mem, m2: Mem, lg: seq<int>, pc: seq<int>, s0: nat, cells: Memory)
    requires Recorded(acts, m, s0, false) && m2 == m.(cells := m2.cells) && Closed(acts, m2, s0) && AnchorsFor(lg, pc, m.h)
    requires Marked(m.cells, m2.cells, m.h, 20, if |lg| > 20 then |lg| else 20)
    requires Fixed(acts, m2, cells, |m.entries|, 0)
    ensures Laid(acts, m, cells)
  {
    hide Recorded, Marked, Fixed, Laid;
    AllLaid(acts, m, m2, s0, cells, if |lg| > 20 then |lg| else 20);
  }

  lemma NoSections(acts: seq<Action>, entries: seq<seq<Entry>>)
    ensures SectionStart(acts, entries, 0) == 0
  {}

  lemma FirstPos(s: nat)
    ensures Pos(s, 0) == s * SEC
  {}

  lemma NothingMarked(cells: Memory, h: seq<Event>)
    ensures Marked(cells, cells, h, 20, 20)
  {}

  lemma NobodyWaits(cells0: Memory, cells: Memory, h: seq<Event>, l: Label, v: int)
    requires Linked(cells0, h) && Anchor(h, l) <= 0
    ensures Redirect(cells, Waiting(h, l), v) == cells
  {
    hide Linked, Waiting, Live, Anchor;
    AnchorSign(cells0, h, l);
  }

  /** What pass 2 needs to know of an entry. */
  lemma LinkFacts(acts: seq<Action>, es: seq<Entry>, k: nat)
    requires k < |es| && es[k].Act? && es[k].i < |acts|
    ensures HasCell(acts, es[k]) <==> HasSlot(acts[es[k].i])
    ensures HasCell(acts, es[k]) ==>
              && (KindOf(acts, es, k).KLabel? <==> acts[es[k].i].LabelLG? || acts[es[k].i].LabelPC?)
              && (acts[es[k].i].Align? ==> KindOf(acts, es, k) == KOther(Estimate(acts, es, k) + acts[es[k].i].mask))
  {}

  /** The buffer position is at the end exactly when the entries are. */
  lemma AtEnd(acts: seq<Action>, m: Mem, s0: nat, cells: Memory, s: nat, k: nat, p: nat, c: int)
    requires Closed(acts, m, s0) && Walking(acts, m, cells, s, k, p, c)
    requires k < |m.entries[s]| ==> k == 0 || m.entries[s][k].Begin?
    ensures p == NextPos(acts, m, s) <==> k == |m.entries[s]|
    ensures k < |m.entries[s]| ==> m.entries[s][k].Begin?
  {
    hide Fixed, Corrected, Fed, Threaded, KindOf;
    WalkRange(acts, m, s0, cells, s, k, p, c);
    var es := m.entries[s];
    if k < |es| {
      WalkStart(acts, es);
      CellsGrow(acts, es, k, |es|);
    }
  }

  /** At the start of a put the cell holds its action index. */
  lemma BeginHere(acts: seq<Action>, m: Mem, s0: nat, cells: Memory, s: nat, k: nat, p: nat, c: int)
    requires Closed(acts, m, s0) && Walking(acts, m, cells, s, k, p, c) && k < |m.entries[s]| && m.entries[s][k].Begin?
    ensures p in cells && cells[p] == m.entries[s][k].start
    ensures Walking(acts, m, cells, s, k + 1, p + 1, c)
  {
    hide Closed, Walking, WordAt;
    WalkRange(acts, m, s0, cells, s, k, p, c);
    CellHere(acts, m, s0, cells, s, k, p, c);
    WalkStep(acts, m, s0, cells, s, k, p, c, cells, c);
  }

  /** What an action of the list means for its cell, its kind and the offset. */
  lemma ActionFacts(acts: seq<Action>, m: Mem, lg: seq<int>, pc: seq<int>, s: nat, p: nat, o: nat, e: Entry)
    requires Open(acts, m, lg, pc, s, p, o) && e.Act? && e.i < |acts|
    ensures s < |m.entries| && Recorded(acts, m, s, true) && AnchorsFor(lg, pc, m.h) && p == NextPos(acts, m, s)
    ensures o == Estimate(acts, m.entries[s], |m.entries[s]|)
    ensures HasCell(acts, e) <==> HasSlot(acts[e.i])
    ensures Growth(acts, e) == if acts[e.i].Word? || acts[e.i].Esc? then 4 else if acts[e.i].Align? then acts[e.i].mask else 0
    ensures HasCell(acts, e) ==> NextKind(acts, m, s, e) == KindAt(acts[e.i], e.arg, o)
  {
    SamePrefix(acts, m.entries[s], e, |m.entries[s]|);
  }

  /** The array entry of a local label is negative exactly when the label has a live definition. */
  lemma BackwardLive(acts: seq<Action>, m: Mem, lg: seq<int>, pc: seq<int>, s: nat, p: nat, o: nat, i: nat)
    requires Open(acts, m, lg, pc, s, p, o) && i < |acts| && |lg| >= 10
    ensures acts[i].RelLG? && 10 <= acts[i].n < 20 ==> (lg[acts[i].n - 10] < 0 <==> Live(m.h, LG(acts[i].n - 10)) != None)
  {
    hide Recorded, Linked, Live, Anchor, NextPos, Estimate;
    EntriesRange(acts, m, lg, pc, s, p, o);
    if acts[i].RelLG? && 10 <= acts[i].n < 20 {
      AnchorSign(m.cells, m.h, LG(acts[i].n - 10));
    }
  }

  lemma BeginCollapse(cells: Memory, w: seq<nat>, v: int)
    ensures Collapsing(cells, w, v, cells, 0, Head(w))
  {
    assert Redirect(cells, [], v) == cells;
    assert w[0..] == w && w[..0] == [];
  }

  /** A live or unused label has no chain; otherwise the anchor is the head of it. */
  lemma StartCollapse(cells: Memory, h: seq<Event>, l: Label, v: int)
    requires Linked(cells, h)
    ensures Anchor(h, l) <= 0 ==> cells == Redirect(cells, Waiting(h, l), v)
    ensures Anchor(h, l) > 0 ==>
              Anchor(h, l) == Head(Waiting(h, l)) && Loose(Waiting(h, l)) && Chain(cells, Waiting(h, l))
  {
    hide Linked, Waiting, Live, Anchor;
    AnchorSign(cells, h, l);
    WaitingLoose(cells, h, l);
    assert Redirect(cells, [], v) == cells;
  }

  lemma EntriesRange(acts: seq<Action>, m: Mem, lg: seq<int>, pc: seq<int>, s: nat, p: nat, o: nat)
    requires Open(acts, m, lg, pc, s, p, o)
    ensures s < |m.entries| && p == NextPos(acts, m, s) && Linked(m.cells, m.h) && AnchorsFor(lg, pc, m.h)
  {}

  lemma NothingRecorded(acts: seq<Action>, m: Mem)
    requires m.cells == map[] && m.kind == map[] && m.h == [] && forall t :: 0 <= t < |m.entries| ==> m.entries[t] == []
    ensures Recorded(acts, m, 0, false)
  {}
}
