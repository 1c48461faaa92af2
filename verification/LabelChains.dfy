/**
  * Labels and the references to them, in the order dasm_put meets them
  * (QJIT/LuaJIT-2.1.0-beta3/dynasm/dasm_arm.h:212-242), and what a relocation
  * chain threaded through the section buffers stands for.
  */
module LabelChains {
  datatype Option<T> = None | Some(value: T)

  /** A local or global label, or a label of the pclabels array. */
  datatype Label = LG(n: nat) | PC(n: nat)

  /** pos is the buffer position of the definition or of the reference. */
  datatype Event = Def(l: Label, pos: nat) | Ref(l: Label, pos: nat, fwd: bool)

  /** The definition a backward reference would use now: the latest one, unless a forward reference has come after it. */
  function Live(h: seq<Event>, l: Label): Option<nat> {
    if h == [] then None
    else
      var e, before := h[|h| - 1], h[..|h| - 1];
      if e.l != l then Live(before, l)
      else if e.Def? then Some(e.pos)
      else if e.fwd then None
      else Live(before, l)
  }

  /** References that no definition has answered yet, the latest first. */
  function Waiting(h: seq<Event>, l: Label): seq<nat> {
    if h == [] then []
    else
      var e, before := h[|h| - 1], h[..|h| - 1];
      if e.l != l then Waiting(before, l)
      else if e.Def? then []
      else if !e.fwd && Live(before, l).Some? then Waiting(before, l)
      else [e.pos] + Waiting(before, l)
  }

  /** The definition that the reference at pos has been given. */
  function Target(h: seq<Event>, pos: nat): Option<nat> {
    if h == [] then None
    else
      var e, before := h[|h| - 1], h[..|h| - 1];
      if e.Def? then
        if pos in Waiting(before, e.l) then Some(e.pos) else Target(before, pos)
      else if e.pos != pos then Target(before, pos)
      else if e.fwd then None
      else Live(before, e.l)
  }

  /** The first definition of l in h. */
  function FirstDef(h: seq<Event>, l: Label): Option<nat> {
    if h == [] then None
    else if h[0].Def? && h[0].l == l then Some(h[0].pos)
    else FirstDef(h[1..], l)
  }

  ghost predicate Distinct(h: seq<Event>) {
    forall i, j :: 0 <= i < j < |h| ==> h[i].pos != h[j].pos
  }

  lemma DistinctBefore(h: seq<Event>)
    requires h != [] && Distinct(h)
    ensures Distinct(h[..|h| - 1])
    ensures forall i :: 0 <= i < |h| - 1 ==> h[..|h| - 1][i] == h[i] && h[i].pos != h[|h| - 1].pos
  {}

  /** Only references to l wait for l, and each waits at most once. */
  lemma {:induction false} WaitingAre(h: seq<Event>, l: Label, k: nat) returns (i: nat)
    requires k < |Waiting(h, l)|
    ensures i < |h| && h[i].Ref? && h[i].l == l && h[i].pos == Waiting(h, l)[k]
    decreases |h|
  {
    var e, before := h[|h| - 1], h[..|h| - 1];
    if e.l == l && Waiting(h, l) != Waiting(before, l) {
      if k == 0 {
        i := |h| - 1;
      } else {
        i := WaitingAre(before, l, k - 1);
      }
    } else {
      i := WaitingAre(before, l, k);
    }
  }

  lemma {:induction false} WaitingOnce(h: seq<Event>, l: Label)
    requires Distinct(h)
    ensures forall j, k :: 0 <= j < k < |Waiting(h, l)| ==> Waiting(h, l)[j] != Waiting(h, l)[k]
    decreases |h|
  {
    if h != [] {
      var e, before := h[|h| - 1], h[..|h| - 1];
      DistinctBefore(h);
      WaitingOnce(before, l);
      forall k | 0 <= k < |Waiting(before, l)|
        ensures Waiting(before, l)[k] != e.pos
      {
        var i := WaitingAre(before, l, k);
      }
    }
  }

  /** A reference waits for its own label, and for no other, as long as it has no target. */
  lemma {:induction false} WaitsOrHasTarget(h: seq<Event>, i: nat, l: Label)
    requires Distinct(h) && i < |h| && h[i].Ref?
    ensures h[i].pos in Waiting(h, l) <==> l == h[i].l && Target(h, h[i].pos) == None
    decreases |h|
  {
    var e, before := h[|h| - 1], h[..|h| - 1];
    DistinctBefore(h);
    if i < |h| - 1 {
      WaitsOrHasTarget(before, i, l);
      WaitsOrHasTarget(before, i, e.l);
    } else {
      NotYet(before, l, e.pos);
      if Live(before, e.l).Some? && !e.fwd {
        NotYet(before, e.l, e.pos);
      }
    }
  }

  lemma NotYet(h: seq<Event>, l: Label, pos: nat)
    requires forall i :: 0 <= i < |h| ==> h[i].pos != pos
    ensures pos !in Waiting(h, l)
  {
    if k :| 0 <= k < |Waiting(h, l)| && Waiting(h, l)[k] == pos {
      var i := WaitingAre(h, l, k);
    }
  }

  lemma {:induction false} FirstDefOn(h: seq<Event>, e: Event, l: Label)
    ensures FirstDef(h + [e], l) ==
            if FirstDef(h, l).Some? then FirstDef(h, l) else if e.Def? && e.l == l then Some(e.pos) else None
  {
    if h == [] {
      assert h + [e] == [e];
    } else {
      assert (h + [e])[1..] == h[1..] + [e];
      FirstDefOn(h[1..], e, l);
    }
  }

  /**
    * Resolution, said without chains: a reference that is not a forward one uses
    * the live definition if there is one; any other uses the next definition.
    */
  lemma {:induction false} TargetIs(h: seq<Event>, i: nat)
    requires Distinct(h) && i < |h| && h[i].Ref?
    ensures Target(h, h[i].pos) ==
            if !h[i].fwd && Live(h[..i], h[i].l).Some? then Live(h[..i], h[i].l) else FirstDef(h[i + 1..], h[i].l)
    decreases |h|
  {
    var e, before := h[|h| - 1], h[..|h| - 1];
    DistinctBefore(h);
    if i < |h| - 1 {
      TargetIs(before, i);
      WaitsOrHasTarget(before, i, e.l);
      assert before[..i] == h[..i];
      assert h[i + 1..] == before[i + 1..] + [e];
      FirstDefOn(before[i + 1..], e, h[i].l);
      WaitsOrHasTarget(h, i, h[i].l);
    } else {
      assert h[..i] == before && h[i + 1..] == [];
    }
  }

  /** A target is the position of a definition of the reference's label. */
  lemma {:induction false} TargetIsDef(h: seq<Event>, i: nat) returns (d: nat)
    requires Distinct(h) && i < |h| && h[i].Ref? && Target(h, h[i].pos).Some?
    ensures d < |h| && h[d].Def? && h[d].l == h[i].l && h[d].pos == Target(h, h[i].pos).value
    decreases |h|
  {
    TargetIs(h, i);
    if !h[i].fwd && Live(h[..i], h[i].l).Some? {
      d := LiveIsDef(h[..i], h[i].l);
    } else {
      d := FirstDefIsDef(h[i + 1..], h[i].l);
      d := d + i + 1;
    }
  }

  lemma {:induction false} LiveIsDef(h: seq<Event>, l: Label) returns (d: nat)
    requires Live(h, l).Some?
    ensures d < |h| && h[d].Def? && h[d].l == l && h[d].pos == Live(h, l).value
    decreases |h|
  {
    var e, before := h[|h| - 1], h[..|h| - 1];
    if e.l == l && e.Def? {
      d := |h| - 1;
    } else {
      d := LiveIsDef(before, l);
    }
  }

  lemma {:induction false} FirstDefIsDef(h: seq<Event>, l: Label) returns (d: nat)
    requires FirstDef(h, l).Some?
    ensures d < |h| && h[d].Def? && h[d].l == l && h[d].pos == FirstDef(h, l).value
    decreases |h|
  {
    if h[0].Def? && h[0].l == l {
      d := 0;
    } else {
      d := FirstDefIsDef(h[1..], l);
      d := d + 1;
    }
  }

  /** A label with a live definition has nobody waiting. */
  lemma {:induction false} LiveMeansAnswered(h: seq<Event>, l: Label)
    ensures Live(h, l).Some? ==> Waiting(h, l) == []
    decreases |h|
  {
    if h != [] {
      LiveMeansAnswered(h[..|h| - 1], l);
    }
  }

  // ---------------------------------------------------------------------------
  // The chains in the buffers

  type Memory = map<nat, int>

  /** What the k-th cell of a chain holds: the next position, or a final 0. */
  function Next(w: seq<nat>, k: nat): int { if k + 1 < |w| then w[k + 1] else 0 }

  /** w is threaded through the cells, from its first element to a final 0. */
  ghost predicate Chain(cells: Memory, w: seq<nat>) {
    forall k :: 0 <= k < |w| ==> w[k] in cells && cells[w[k]] == Next(w, k)
  }

  function Head(w: seq<nat>): int { if w == [] then 0 else w[0] }

  /** What the label arrays hold: minus the live definition, or the head of the chain of those who wait. */
  function Anchor(h: seq<Event>, l: Label): int {
    match Live(h, l)
    case Some(t) => 0 - t
    case None => Head(Waiting(h, l))
  }

  ghost predicate Linked(cells: Memory, h: seq<Event>) {
    && Distinct(h)
    && (forall i :: 0 <= i < |h| ==> h[i].pos > 0 && h[i].pos in cells)
    && (forall l :: Chain(cells, Waiting(h, l)))
    && (forall i :: 0 <= i < |h| && h[i].Ref? && Target(h, h[i].pos).Some? ==> cells[h[i].pos] == Target(h, h[i].pos).value)
  }

  /** An anchor is negative exactly for a live label, positive exactly when somebody waits. */
  lemma AnchorSign(cells: Memory, h: seq<Event>, l: Label)
    requires Linked(cells, h)
    ensures Anchor(h, l) < 0 <==> Live(h, l).Some?
    ensures Anchor(h, l) > 0 <==> Waiting(h, l) != []
    ensures Anchor(h, l) > 0 ==> Anchor(h, l) == Waiting(h, l)[0]
  {
    LiveMeansAnswered(h, l);
    if Live(h, l).Some? {
      var d := LiveIsDef(h, l);
    }
    if Waiting(h, l) != [] {
      var i := WaitingAre(h, l, 0);
    }
  }

  /** One event more. */
  lemma LabelsOn(h: seq<Event>, e: Event, m: Label)
    ensures Live(h + [e], m) ==
            if e.l != m then Live(h, m) else if e.Def? then Some(e.pos) else if e.fwd then None else Live(h, m)
    ensures Waiting(h + [e], m) ==
            if e.l != m then Waiting(h, m)
            else if e.Def? then []
            else if !e.fwd && Live(h, m).Some? then Waiting(h, m)
            else [e.pos] + Waiting(h, m)
  {
    assert (h + [e])[..|h|] == h;
  }

  lemma TargetOn(h: seq<Event>, e: Event, pos: nat)
    ensures Target(h + [e], pos) ==
            if e.Def? then (if pos in Waiting(h, e.l) then Some(e.pos) else Target(h, pos))
            else if e.pos != pos then Target(h, pos)
            else if e.fwd then None
            else Live(h, e.l)
  {
    assert (h + [e])[..|h|] == h;
  }

  ghost predicate Fresh(h: seq<Event>, pos: nat) {
    pos > 0 && forall i :: 0 <= i < |h| ==> h[i].pos != pos
  }

  lemma FreshMeans(cells: Memory, h: seq<Event>, e: Event)
    requires Linked(cells, h) && Fresh(h, e.pos)
    ensures Distinct(h + [e])
    ensures forall i :: 0 <= i < |h| ==> (h + [e])[i] == h[i]
  {}

  lemma ChainOf(cells: Memory, h: seq<Event>, m: Label)
    requires Linked(cells, h)
    ensures Chain(cells, Waiting(h, m))
  {}

  /** A cell outside the history can be written freely. */
  lemma ChainKept(cells: Memory, h: seq<Event>, m: Label, pos: nat, v: int)
    requires Linked(cells, h) && Fresh(h, pos)
    ensures Chain(cells[pos := v], Waiting(h, m)) && pos !in Waiting(h, m)
  {
    hide Waiting, Live, Target;
    NotYet(h, m, pos);
    ChainOf(cells, h, m);
  }

  lemma ElsewhereLinked(cells: Memory, h: seq<Event>, pos: nat, v: int)
    requires Linked(cells, h) && Fresh(h, pos)
    ensures Linked(cells[pos := v], h)
  {
    hide Waiting, Live, Target, Chain;
    forall m
      ensures Chain(cells[pos := v], Waiting(h, m))
    {
      ChainKept(cells, h, m, pos, v);
    }
  }

  /** What dasm_put stores for a reference: the live definition, or the old head of the chain it joins. */
  function RefValue(anchor: int, fwd: bool): int {
    if anchor >= 0 then anchor else if fwd then 0 else 0 - anchor
  }

  lemma ConsChain(cells: Memory, w: seq<nat>, pos: nat)
    requires pos in cells && cells[pos] == Head(w) && Chain(cells, w)
    ensures Chain(cells, [pos] + w)
  {
    var v := [pos] + w;
    forall k | 0 <= k < |v|
      ensures v[k] in cells && cells[v[k]] == Next(v, k)
    {
      assert k > 0 ==> v[k] == w[k - 1];
      assert k + 1 < |v| ==> v[k + 1] == w[k];
    }
  }

  /** Storing a reference: it takes the live definition, or joins the chain at the label. */
  lemma LinkRef(cells: Memory, h: seq<Event>, l: Label, pos: nat, fwd: bool)
    requires Linked(cells, h) && Fresh(h, pos)
    ensures
      var n, h' := Anchor(h, l), h + [Ref(l, pos, fwd)];
      && Linked(cells[pos := RefValue(n, fwd)], h')
      && Anchor(h', l) == (if !fwd && n < 0 then n else pos)
      && forall m :: m != l ==> Anchor(h', m) == Anchor(h, m)
  {
    hide Waiting, Live, Target, Chain;
    var n, e := Anchor(h, l), Ref(l, pos, fwd);
    var h', cells' := h + [e], cells[pos := RefValue(n, fwd)];
    FreshMeans(cells, h, e);
    AnchorSign(cells, h, l);
    LiveMeansAnswered(h, l);
    forall m
      ensures Chain(cells', Waiting(h', m)) && (m != l ==> Anchor(h', m) == Anchor(h, m))
    {
      LabelsOn(h, e, m);
      ChainKept(cells, h, m, pos, RefValue(n, fwd));
      if m == l && (fwd || n >= 0) {
        ConsChain(cells', Waiting(h, l), pos);
      }
    }
    LabelsOn(h, e, l);
    forall i | 0 <= i < |h'| && h'[i].Ref? && Target(h', h'[i].pos).Some?
      ensures cells'[h'[i].pos] == Target(h', h'[i].pos).value
    {
      TargetOn(h, e, h'[i].pos);
    }
  }

  /** Every cell of a chain replaced by the position of the definition. */
  function Redirect(cells: Memory, w: seq<nat>, pos: int): (r: Memory)
    ensures r.Keys == cells.Keys
  {
    map p | p in cells :: if p in w then pos else cells[p]
  }

  lemma OtherChain(cells: Memory, h: seq<Event>, l: Label, m: Label, pos: nat, v: int)
    requires Linked(cells, h) && Fresh(h, pos) && m != l
    ensures Chain(Redirect(cells, Waiting(h, l), pos)[pos := v], Waiting(h, m))
  {
    hide Live, Waiting, Target;
    ChainOf(cells, h, m);
    NotYet(h, m, pos);
    var cells' := Redirect(cells, Waiting(h, l), pos)[pos := v];
    var w := Waiting(h, m);
    forall k | 0 <= k < |w|
      ensures w[k] in cells' && cells'[w[k]] == Next(w, k)
    {
      var i := WaitingAre(h, m, k);
      WaitsOrHasTarget(h, i, l);
      assert w[k] in w && w[k] != pos;
      assert cells'[w[k]] == cells[w[k]];
    }
  }

  /** Defining a label: collapsing its chain answers everyone who waits, and nobody else's cell changes. */
  lemma LinkDef(cells: Memory, h: seq<Event>, l: Label, pos: nat, v: int)
    requires Linked(cells, h) && Fresh(h, pos)
    ensures
      var h' := h + [Def(l, pos)];
      && Linked(Redirect(cells, Waiting(h, l), pos)[pos := v], h')
      && Anchor(h', l) == 0 - pos
      && forall m :: m != l ==> Anchor(h', m) == Anchor(h, m)
  {
    hide Live, Waiting, Target, Chain;
    var e := Def(l, pos);
    var h', cells' := h + [e], Redirect(cells, Waiting(h, l), pos)[pos := v];
    FreshMeans(cells, h, e);
    LabelsOn(h, e, l);
    forall m
      ensures Chain(cells', Waiting(h', m)) && (m != l ==> Anchor(h', m) == Anchor(h, m))
    {
      LabelsOn(h, e, m);
      if m != l {
        OtherChain(cells, h, l, m, pos, v);
      } else {
        EmptyChain(cells');
      }
    }
    forall i | 0 <= i < |h'| && h'[i].Ref? && Target(h', h'[i].pos).Some?
      ensures cells'[h'[i].pos] == Target(h', h'[i].pos).value
    {
      TargetOn(h, e, h[i].pos);
      WaitsOrHasTarget(h, i, l);
    }
  }

  lemma EmptyChain(cells: Memory)
    ensures Chain(cells, [])
  {}

  /** The collapsing loop after some steps: the first j cells of the chain point to the definition, n is the next one. */
  ghost predicate Collapsing(cells: Memory, w: seq<nat>, pos: int, cells': Memory, j: nat, n: int) {
    j <= |w| && n == Head(w[j..]) && cells' == Redirect(cells, w[..j], pos)
  }

  lemma RedirectOn(cells: Memory, w: seq<nat>, pos: int, j: nat)
    requires j < |w| && w[j] in cells
    ensures Redirect(cells, w[..j], pos)[w[j] := pos] == Redirect(cells, w[..j + 1], pos)
  {
    assert w[..j + 1] == w[..j] + [w[j]];
  }

  lemma CollapseNext(cells: Memory, w: seq<nat>, pos: int, cells': Memory, j: nat, n: int)
    requires Chain(cells, w) && Collapsing(cells, w, pos, cells', j, n) && j < |w|
    requires forall i :: 0 <= i < j ==> w[i] != w[j]
    ensures n == w[j] && n in cells' && cells'[n] == Next(w, j)
    ensures Collapsing(cells, w, pos, cells'[n := pos], j + 1, cells'[n])
  {
    hide Redirect;
    assert w[j] in cells;
    RedirectOn(cells, w, pos, j);
    NotRedirected(cells, w[..j], pos, w[j]);
    assert Head(w[j..]) == w[j] && Head(w[j + 1..]) == Next(w, j);
  }

  lemma NotRedirected(cells: Memory, w: seq<nat>, pos: int, q: nat)
    requires q in cells && q !in w
    ensures q in Redirect(cells, w, pos) && Redirect(cells, w, pos)[q] == cells[q]
  {}

  /** A chain that can be collapsed: no cell twice, and no cell at position 0. */
  ghost predicate Loose(w: seq<nat>) {
    && (forall i, j :: 0 <= i < j < |w| ==> w[i] != w[j])
    && (forall i :: 0 <= i < |w| ==> w[i] > 0)
  }

  lemma WaitingLoose(cells: Memory, h: seq<Event>, l: Label)
    requires Linked(cells, h)
    ensures Loose(Waiting(h, l)) && Chain(cells, Waiting(h, l))
  {
    hide Live, Waiting, Target;
    WaitingOnce(h, l);
    ChainOf(cells, h, l);
    forall k | 0 <= k < |Waiting(h, l)|
      ensures Waiting(h, l)[k] > 0
    {
      var i := WaitingAre(h, l, k);
    }
  }

  lemma CollapseStep(cells: Memory, w: seq<nat>, pos: int, cells': Memory, j: nat, n: int)
    requires Chain(cells, w) && Loose(w) && Collapsing(cells, w, pos, cells', j, n)
    ensures n >= 0
    ensures n == 0 ==> cells' == Redirect(cells, w, pos)
    ensures n > 0 ==>
              && j < |w| && n in cells' && cells'[n] >= 0
              && Collapsing(cells, w, pos, cells'[n := pos], j + 1, cells'[n])
  {
    hide Redirect, Chain;
    if j < |w| {
      CollapseNext(cells, w, pos, cells', j, n);
    } else {
      assert w[..j] == w;
    }
  }
}
