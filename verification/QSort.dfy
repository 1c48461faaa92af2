/**
 The sort of one feature column: quicksort with an explicit stack down to short segments, then one
 insertion sort over the whole array; every move of a value drags its entry of the order array along.
 */
module QSort {
  import FastDiv

  const MAX_THRESH: nat := 4
  /** CHAR_BIT * sizeof(size_t) */
  const STACK_SIZE: nat := 64

  type Segment = (int, int)

  ghost predicate Sorted(a: seq<real>) {
    forall i, j :: 0 <= i < j < |a| ==> a[i] <= a[j]
  }

  /** The values, each with what is dragged along. */
  ghost function Pairs(a: seq<real>, o: seq<int>): seq<(real, int)>
    requires |a| == |o|
  {
    seq(|a|, i requires 0 <= i < |a| => (a[i], o[i]))
  }

  /** Nothing before position c is above anything from c on. */
  ghost predicate Cut(a: seq<real>, c: int) {
    forall i, j :: 0 <= i < c <= j < |a| ==> a[i] <= a[j]
  }

  /** Cuts that do not fall inside lo..hi survive. */
  ghost predicate KeepsCuts(a: seq<real>, b: seq<real>, lo: int, hi: int) {
    forall c :: (c <= lo || c > hi) && Cut(a, c) ==> Cut(b, c)
  }

  function Swapped<T>(s: seq<T>, i: nat, j: nat): seq<T>
    requires i < |s| && j < |s|
  {
    s[i := s[j]][j := s[i]]
  }

  /** Values and payload have been permuted together. */
  ghost predicate SamePairs(a: seq<real>, o: seq<int>, b: seq<real>, o': seq<int>) {
    && |a| == |o| == |b| == |o'|
    && multiset(Pairs(b, o')) == multiset(Pairs(a, o))
    && multiset(o') == multiset(o)
  }

  /** Permuted together, and within lo..hi as far as cuts are concerned. */
  ghost predicate Rearranged(a: seq<real>, o: seq<int>, b: seq<real>, o': seq<int>, lo: int, hi: int) {
    SamePairs(a, o, b, o') && KeepsCuts(a, b, lo, hi)
  }

  lemma RearrangedRefl(a: seq<real>, o: seq<int>, lo: int, hi: int)
    requires |a| == |o|
    ensures Rearranged(a, o, a, o, lo, hi)
  {}

  lemma RearrangedTrans(a: seq<real>, o: seq<int>, b: seq<real>, o': seq<int>, c: seq<real>, o'': seq<int>, lo: int, hi: int)
    requires Rearranged(a, o, b, o', lo, hi) && Rearranged(b, o', c, o'', lo, hi)
    ensures Rearranged(a, o, c, o'', lo, hi)
  {}

  lemma SwapRearranges(a: seq<real>, o: seq<int>, i: nat, j: nat, lo: int, hi: int)
    requires |a| == |o| && lo <= i <= hi && lo <= j <= hi && i < |a| && j < |a|
    ensures Rearranged(a, o, Swapped(a, i, j), Swapped(o, i, j), lo, hi)
  {
    var b := Swapped(a, i, j);
    assert Pairs(b, Swapped(o, i, j)) == Swapped(Pairs(a, o), i, j);
    forall c | (c <= lo || c > hi) && Cut(a, c) ensures Cut(b, c) {
      forall x, y | 0 <= x < c <= y < |b| ensures b[x] <= b[y] {
        var x' := if x == i then j else if x == j then i else x;
        var y' := if y == i then j else if y == j then i else y;
        assert b[x] == a[x'] && b[y] == a[y'];
      }
    }
  }

  /** SWAP: values and payload together. */
  method Swap(vals: array<real>, ord: array<int>, i: nat, j: nat, ghost lo: int, ghost hi: int)
    requires vals.Length == ord.Length && lo <= i <= hi && lo <= j <= hi && i < vals.Length && j < vals.Length
    modifies vals, ord
    ensures vals[..] == Swapped(old(vals[..]), i, j) && ord[..] == Swapped(old(ord[..]), i, j)
    ensures Rearranged(old(vals[..]), old(ord[..]), vals[..], ord[..], lo, hi)
  {
    ghost var a, o := vals[..], ord[..];
    SwapRearranges(a, o, i, j, lo, hi);
    var aval, bval := ord[i], ord[j];
    ord[i] := bval;
    ord[j] := aval;
    var itmp := vals[i];
    vals[i] := vals[j];
    vals[j] := itmp;
    assert vals[..] == Swapped(a, i, j) && ord[..] == Swapped(o, i, j);
  }

  // ---- one partition

  /** The scans have left everything before `left` at most p, and everything after `right` at least p. */
  ghost predicate Walls(a: seq<real>, lo: int, hi: int, left: int, right: int, p: real) {
    && 0 <= lo && hi < |a|
    && (forall i :: lo <= i < left && i <= hi ==> a[i] <= p)
    && (forall i :: right < i <= hi && lo <= i ==> a[i] >= p)
  }

  /** Orders the first, middle and last value of the segment. */
  method MedianOfThree(vals: array<real>, ord: array<int>, lo: nat, mid: nat, hi: nat)
    requires vals.Length == ord.Length && lo < mid < hi < vals.Length
    modifies vals, ord
    ensures vals[lo] <= vals[mid] <= vals[hi]
    ensures Rearranged(old(vals[..]), old(ord[..]), vals[..], ord[..], lo, hi)
  {
    hide Rearranged;
    ghost var a, o := vals[..], ord[..];
    RearrangedRefl(a, o, lo, hi);
    if vals[mid] < vals[lo] {
      Swap(vals, ord, mid, lo, lo, hi);
    }
    if vals[hi] < vals[mid] {
      ghost var a1, o1 := vals[..], ord[..];
      Swap(vals, ord, mid, hi, lo, hi);
      RearrangedTrans(a, o, a1, o1, vals[..], ord[..], lo, hi);
      if vals[mid] < vals[lo] {
        a1, o1 := vals[..], ord[..];
        Swap(vals, ord, mid, lo, lo, hi);
        RearrangedTrans(a, o, a1, o1, vals[..], ord[..], lo, hi);
      }
    }
  }

  /** The unguarded scan upwards: a value not below the middle one is met at hi at the latest. */
  method ScanUp(vals: array<real>, mid: nat, start: nat, lo: nat, hi: nat) returns (left: nat)
    requires lo < start <= hi < vals.Length && mid < vals.Length && vals[mid] <= vals[hi]
    requires forall i :: lo <= i < start ==> vals[i] <= vals[mid]
    ensures start <= left <= hi && vals[left] >= vals[mid]
    ensures forall i :: lo <= i < left ==> vals[i] <= vals[mid]
  {
    left := start;
    while vals[left] < vals[mid]
      invariant start <= left <= hi
      invariant forall i :: lo <= i < left ==> vals[i] <= vals[mid]
      decreases hi - left
    {
      left := left + 1;
    }
  }

  /** The unguarded scan downwards: a value not above the middle one is met at lo at the latest. */
  method ScanDown(vals: array<real>, mid: nat, start: nat, lo: nat, hi: nat) returns (right: nat)
    requires lo <= start < hi < vals.Length && mid < vals.Length && vals[lo] <= vals[mid]
    requires forall i :: start < i <= hi ==> vals[i] >= vals[mid]
    ensures lo <= right <= start && vals[right] <= vals[mid]
    ensures forall i :: right < i <= hi ==> vals[i] >= vals[mid]
  {
    right := start;
    while vals[mid] < vals[right]
      invariant lo <= right <= start
      invariant forall i :: right < i <= hi ==> vals[i] >= vals[mid]
      decreases right
    {
      right := right - 1;
    }
  }

  /** Swaps the two values at the walls, and follows the middle one if it is moved. */
  method Exchange(vals: array<real>, ord: array<int>, mid: nat, left: nat, right: nat, lo: nat, hi: nat) returns (mid': nat)
    requires vals.Length == ord.Length && lo < left < right < hi < vals.Length && lo <= mid <= hi
    requires Walls(vals[..], lo, hi, left, right, vals[mid]) && vals[right] <= vals[mid] <= vals[left]
    modifies vals, ord
    ensures lo <= mid' <= hi && vals[mid'] == old(vals[mid]) && vals[lo] == old(vals[lo]) && vals[hi] == old(vals[hi])
    ensures Walls(vals[..], lo, hi, left + 1, right - 1, vals[mid'])
    ensures Rearranged(old(vals[..]), old(ord[..]), vals[..], ord[..], lo, hi)
  {
    hide Rearranged;
    mid' := mid;
    Swap(vals, ord, left, right, lo, hi);
    if mid == left {
      mid' := right;
    } else if mid == right {
      mid' := left;
    }
  }

  /**
   Median of three, then the two walls collapse. Neither scan tests for the ends of the segment: the one
   going up stops at hi at the latest, the one going down at lo.
   */
  method Partition(vals: array<real>, ord: array<int>, lo: nat, hi: nat) returns (left: nat, right: nat, ghost p: real)
    requires vals.Length == ord.Length && lo + 4 <= hi < vals.Length
    modifies vals, ord
    ensures lo <= right < left <= hi
    ensures Walls(vals[..], lo, hi, left, right, p)
    ensures Rearranged(old(vals[..]), old(ord[..]), vals[..], ord[..], lo, hi)
  {
    hide Rearranged;
    ghost var a, o := vals[..], ord[..];
    var mid: nat := lo + (hi - lo) / 2;
    MedianOfThree(vals, ord, lo, mid, hi);
    left, right := lo + 1, hi - 1;
    p := vals[mid];
    while true
      invariant lo < left <= right < hi && lo <= mid <= hi && vals[mid] == p
      invariant Walls(vals[..], lo, hi, left, right, p)
      invariant vals[lo] <= p <= vals[hi]
      invariant Rearranged(a, o, vals[..], ord[..], lo, hi)
      decreases right - left
    {
      left := ScanUp(vals, mid, left, lo, hi);
      right := ScanDown(vals, mid, right, lo, hi);
      if left < right {
        ghost var a1, o1 := vals[..], ord[..];
        mid := Exchange(vals, ord, mid, left, right, lo, hi);
        RearrangedTrans(a, o, a1, o1, vals[..], ord[..], lo, hi);
        left, right := left + 1, right - 1;
      } else if left == right {
        left, right := left + 1, right - 1;
        break;
      }
      if left > right { break; }
    }
  }

  // ---- the stack of pending segments

  /** n halved k times: no segment with k others pushed before it is larger. */
  function Cap(n: nat, k: nat): nat {
    if k == 0 then n else Cap(n, k - 1) / 2
  }

  lemma {:induction false} CapBelow(n: nat, k: nat, e: nat)
    requires n < FastDiv.Pow2(e) && k <= e
    ensures Cap(n, k) < FastDiv.Pow2(e - k)
  {
    if k > 0 {
      CapBelow(n, k - 1, e);
    }
  }

  function Size(s: Segment): int {
    s.1 - s.0 + 1
  }

  /** The number of steps a list of segments is still good for. */
  ghost function Work(st: seq<Segment>): int {
    if st == [] then 0 else Work(st[..|st| - 1]) + Size(st[|st| - 1]) - 1
  }

  ghost predicate Pending(a: seq<real>, s: Segment) {
    0 <= s.0 && s.0 + 4 <= s.1 < |a| && Cut(a, s.0) && Cut(a, s.1 + 1)
  }

  predicate Apart(s: Segment, t: Segment) {
    s.1 < t.0 || t.1 < s.0
  }

  /** All but the first of these segments are to be sorted; the first is the marker at the bottom of the stack. */
  ghost predicate Stacked(a: seq<real>, st: seq<Segment>) {
    && |st| >= 1 && st[0] == (-1, -1)
    && (forall i :: 1 <= i < |st| ==> Pending(a, st[i]) && Size(st[i]) <= Cap(|a|, i - 1))
    && (forall i, j :: 1 <= i < j < |st| ==> Apart(st[i], st[j]))
  }

  /**
   Up to the cut at c all is at most what follows; c is small, or the segment up to c is still to be
   sorted; all other segments are behind c.
   */
  ghost predicate LowEnd(a: seq<real>, st: seq<Segment>, c: nat) {
    && 1 <= c <= |a| && Cut(a, c)
    && (c <= 5 || (0, c - 1) in st)
    && forall i :: 1 <= i < |st| ==> st[i] == (0, c - 1) || c <= st[i].0
  }

  /** A rearrangement inside the topmost segment leaves the others as they are. */
  lemma RestStacked(a: seq<real>, b: seq<real>, st: seq<Segment>, cur: Segment)
    requires |a| == |b| && Stacked(a, st + [cur]) && |st| >= 1 && KeepsCuts(a, b, cur.0, cur.1)
    ensures Stacked(b, st)
    ensures forall i :: 1 <= i < |st| ==> Apart(st[i], cur)
    ensures Cut(b, cur.0) && Cut(b, cur.1 + 1) && 0 <= cur.0 && cur.0 + 4 <= cur.1 < |a|
    ensures Size(cur) <= Cap(|a|, |st| - 1)
  {
    var all := st + [cur];
    assert all[|st|] == cur;
    forall i | 1 <= i < |st| ensures Pending(b, st[i]) && Size(st[i]) <= Cap(|a|, i - 1) && Apart(st[i], cur) {
      assert all[i] == st[i];
    }
    forall i, j | 1 <= i < j < |st| ensures Apart(st[i], st[j]) {
      assert all[i] == st[i] && all[j] == st[j];
    }
  }

  /** The walls cut the segment, and with it the whole array. */
  lemma WallsCut(b: seq<real>, lo: int, hi: int, left: int, right: int, p: real)
    requires 0 <= lo <= right < left <= hi < |b| && Walls(b, lo, hi, left, right, p) && Cut(b, lo) && Cut(b, hi + 1)
    ensures Cut(b, right + 1) && Cut(b, left)
  {}

  /** One part of the topmost segment takes its place. */
  lemma Narrow(b: seq<real>, st: seq<Segment>, cur: Segment, part: Segment)
    requires Stacked(b, st) && (forall i :: 1 <= i < |st| ==> Apart(st[i], cur)) && Size(cur) <= Cap(|b|, |st| - 1)
    requires cur.0 <= part.0 && part.1 <= cur.1 && Pending(b, part)
    ensures Stacked(b, st + [part])
  {}

  /** The larger part is pushed, the smaller one is next. */
  lemma Fork(b: seq<real>, st: seq<Segment>, cur: Segment, large: Segment, small: Segment)
    requires Stacked(b, st) && (forall i :: 1 <= i < |st| ==> Apart(st[i], cur)) && Size(cur) <= Cap(|b|, |st| - 1)
    requires cur.0 <= large.0 && large.1 <= cur.1 && Pending(b, large)
    requires cur.0 <= small.0 && small.1 <= cur.1 && Pending(b, small)
    requires Apart(large, small) && Size(small) <= Size(large)
    ensures Stacked(b, st + [large] + [small])
  {
    hide Cut;
    Narrow(b, st, cur, large);
    assert Size(large) + Size(small) <= Size(cur);
    forall i | 1 <= i < |st + [large]| ensures Apart((st + [large])[i], small) {
      if i < |st| {
        assert Apart(st[i], cur);
      }
    }
    Narrow(b, st + [large], small, small);
  }

  /** With less than 2^62 elements the stack never comes near its fixed size. */
  lemma StackFits(a: seq<real>, st: seq<Segment>)
    requires Stacked(a, st) && |a| < FastDiv.Pow2(62)
    ensures |st| <= 62
  {
    if |st| >= 2 {
      var k := if |st| - 2 < 61 then |st| - 2 else 61;
      assert Pending(a, st[k + 1]) && Size(st[k + 1]) <= Cap(|a|, k);
      CapBelow(|a|, k, 62);
    }
  }

  lemma WorkAppend(st: seq<Segment>, s: Segment)
    ensures Work(st + [s]) == Work(st) + Size(s) - 1
  {
    assert (st + [s])[..|st|] == st;
  }

  lemma {:induction false} WorkNonNegative(a: seq<real>, st: seq<Segment>)
    requires Stacked(a, st)
    ensures Work(st) >= 0
  {
    if |st| == 1 {
      assert Work(st[..0]) == 0;
    } else {
      var rest := st[..|st| - 1];
      assert Stacked(a, rest);
      WorkNonNegative(a, rest);
      assert Pending(a, st[|st| - 1]);
    }
  }

  /** The low end after the topmost segment has been split; its left part is kept if it is long. */
  lemma LowEndStep(a: seq<real>, b: seq<real>, st: seq<Segment>, cur: Segment, left: int, right: int, parts: seq<Segment>, c: nat)
    returns (c': nat)
    requires LowEnd(a, st + [cur], c) && |st| >= 1 && |a| == |b| && KeepsCuts(a, b, cur.0, cur.1)
    requires 0 <= cur.0 <= right < left <= cur.1 < |b| && Cut(b, right + 1) && st[0] == (-1, -1)
    requires forall i :: 1 <= i < |st| ==> Apart(st[i], cur)
    requires forall i :: 0 <= i < |parts| ==> parts[i] == (cur.0, right) || parts[i] == (left, cur.1)
    requires right - cur.0 > 4 ==> (cur.0, right) in parts
    ensures LowEnd(b, st + parts, c')
  {
    hide Cut;
    var all := st + [cur];
    assert all[|st|] == cur;
    assert forall i :: 1 <= i < |st| ==> all[i] == st[i];
    if cur == (0, c - 1) {
      c' := right + 1;
    } else {
      c' := c;
      if c > 5 {
        var i :| 0 <= i < |all| && all[i] == (0, c - 1);
        assert (st + parts)[i] == (0, c - 1);
      }
    }
  }

  /** The topmost segment has been split into these parts, or left as it is. */
  lemma PartsStacked(a: seq<real>, b: seq<real>, st: seq<Segment>, cur: Segment, left: int, right: int, p: real)
    requires |a| == |b| && |st| >= 1 && Stacked(a, st + [cur]) && KeepsCuts(a, b, cur.0, cur.1)
    requires cur.0 <= right < left <= cur.1 && Walls(b, cur.0, cur.1, left, right, p)
    ensures Stacked(b, st) && Cut(b, right + 1) && 0 <= cur.0 && cur.1 < |b|
    ensures forall i :: 1 <= i < |st| ==> Apart(st[i], cur)
    ensures var l, r := (cur.0, right), (left, cur.1);
            && (Size(l) > 5 ==> Stacked(b, st + [l])) && (Size(r) > 5 ==> Stacked(b, st + [r]))
            && (Size(l) > 5 && Size(r) > 5 && Size(l) > Size(r) ==> Stacked(b, st + [l] + [r]))
            && (Size(l) > 5 && Size(r) > 5 && Size(l) <= Size(r) ==> Stacked(b, st + [r] + [l]))
  {
    RestStacked(a, b, st, cur);
    WallsCut(b, cur.0, cur.1, left, right, p);
    hide Cut;
    var l, r := (cur.0, right), (left, cur.1);
    if Size(l) > 5 {
      Narrow(b, st, cur, l);
      if Size(r) > 5 {
        if Size(l) > Size(r) { Fork(b, st, cur, l, r); } else { Fork(b, st, cur, r, l); }
      }
    }
    if Size(r) > 5 {
      Narrow(b, st, cur, r);
    }
  }

  /** The topmost segment is a proper one, and there is room to push another. */
  lemma TopPending(a: seq<real>, st: seq<Segment>, cur: Segment)
    requires |st| >= 1 && Stacked(a, st + [cur]) && |a| < FastDiv.Pow2(62)
    ensures 0 <= cur.0 && cur.0 + 4 <= cur.1 < |a| && |st| < STACK_SIZE && st[0] == (-1, -1)
  {
    assert (st + [cur])[|st|] == cur && (st + [cur])[0] == st[0];
    StackFits(a, st + [cur]);
  }

  /** The parts of a segment are less work than the segment. */
  lemma LessWork(b: seq<real>, st: seq<Segment>, cur: Segment, left: int, right: int)
    requires Stacked(b, st) && cur.0 <= right < left <= cur.1 && cur.0 + 4 <= cur.1
    ensures var l, r, w := (cur.0, right), (left, cur.1), Work(st + [cur]);
            && w > 0 && Work(st) < w && Work(st + [l]) < w && Work(st + [r]) < w
            && Work(st + [l] + [r]) < w && Work(st + [r] + [l]) < w
  {
    var l, r := (cur.0, right), (left, cur.1);
    WorkNonNegative(b, st);
    WorkAppend(st, cur);
    WorkAppend(st, l);
    WorkAppend(st, r);
    WorkAppend(st + [l], r);
    WorkAppend(st + [r], l);
  }

  lemma Start(a: seq<real>, o: seq<int>)
    requires |a| == |o| > 4
    ensures Rearranged(a, o, a, o, 0, |a| - 1)
    ensures Stacked(a, [(-1, -1)] + [(0, |a| - 1)]) && LowEnd(a, [(-1, -1)] + [(0, |a| - 1)], |a|)
  {
    assert ([(-1, -1)] + [(0, |a| - 1)])[1] == (0, |a| - 1);
  }

  lemma RearrangedOverall(a0: seq<real>, o0: seq<int>, a: seq<real>, o: seq<int>, b: seq<real>, o': seq<int>, lo: int, hi: int)
    requires 0 <= lo && hi < |a| && Rearranged(a0, o0, a, o, 0, |a| - 1) && Rearranged(a, o, b, o', lo, hi)
    ensures Rearranged(a0, o0, b, o', 0, |a| - 1) && KeepsCuts(a, b, lo, hi)
  {}

  lemma Finished(a0: seq<real>, o0: seq<int>, a: seq<real>, o: seq<int>, c: nat)
    requires LowEnd(a, [] + [(-1, -1)], c) && Rearranged(a0, o0, a, o, 0, |a| - 1)
    ensures 1 <= c <= 5 && Cut(a, c) && SamePairs(a0, o0, a, o)
  {}

  /**
   The quicksort phase. It ends with the smallest values, at most five, cut off from the rest. Of the two
   parts of a segment the larger one is pushed, so the stack of fixed size never overflows.
   */
  method QuickPhase(vals: array<real>, ord: array<int>) returns (ghost c: nat)
    requires vals.Length == ord.Length && MAX_THRESH < vals.Length < FastDiv.Pow2(62)
    modifies vals, ord
    ensures 1 <= c <= 5 && Cut(vals[..], c)
    ensures SamePairs(old(vals[..]), old(ord[..]), vals[..], ord[..])
  {
    hide Cut, KeepsCuts, SamePairs, Pending, Stacked, LowEnd, Rearranged, Walls, Work, Apart, Cap, FastDiv.Pow2, Pairs;
    var n := vals.Length;
    ghost var a0, o0 := vals[..], ord[..];
    Start(a0, o0);
    var lo: int, hi: int := 0, n - 1;
    var stack := new Segment[STACK_SIZE];
    var top := 0;
    stack[top] := (-1, -1);
    top := top + 1;
    c := n;
    ghost var st: seq<Segment> := [(-1, -1)];
    while top > 0
      invariant 0 <= top <= STACK_SIZE && fresh(stack) && st == stack[..top] && (top == 0 ==> (lo, hi) == (-1, -1))
      invariant Stacked(vals[..], st + [(lo, hi)]) && LowEnd(vals[..], st + [(lo, hi)], c)
      invariant Rearranged(a0, o0, vals[..], ord[..], 0, n - 1)
      decreases Work(st + [(lo, hi)])
    {
      ghost var a, o, cur := vals[..], ord[..], (lo, hi);
      TopPending(a, st, cur);
      var left, right;
      ghost var p;
      left, right, p := Partition(vals, ord, lo, hi);
      ghost var b := vals[..];
      RearrangedOverall(a0, o0, a, o, b, ord[..], lo, hi);
      PartsStacked(a, b, st, cur, left, right, p);
      LessWork(b, st, cur, left, right);
      if right - lo <= MAX_THRESH {
        if hi - left <= MAX_THRESH {
          c := LowEndStep(a, b, st, cur, left, right, [], c);
          assert st + [] == st == st[..top - 1] + [st[top - 1]];
          top := top - 1;
          lo, hi := stack[top].0, stack[top].1;
          st := st[..top];
        } else {
          c := LowEndStep(a, b, st, cur, left, right, [(left, hi)], c);
          lo := left;
        }
      } else if hi - left <= MAX_THRESH {
        c := LowEndStep(a, b, st, cur, left, right, [(lo, right)], c);
        hi := right;
      } else if right - lo > hi - left {
        c := LowEndStep(a, b, st, cur, left, right, [(lo, right), (left, hi)], c);
        assert st + [(lo, right), (left, hi)] == st + [(lo, right)] + [(left, hi)];
        stack[top] := (lo, right);
        top := top + 1;
        st := st + [(lo, right)];
        lo := left;
      } else {
        c := LowEndStep(a, b, st, cur, left, right, [(left, hi), (lo, right)], c);
        assert st + [(left, hi), (lo, right)] == st + [(left, hi)] + [(lo, right)];
        stack[top] := (left, hi);
        top := top + 1;
        st := st + [(left, hi)];
        hi := right;
      }
    }
    Finished(a0, o0, vals[..], ord[..], c);
  }

  // ---- insertion sort

  /** Conversion to int16_t. */
  function Int16(x: int): int {
    var r := x % 65536;
    if r < 32768 then r else r - 65536
  }

  /** The 16-bit positions of the insertion sort are right exactly for arrays of at most 2^15 elements. */
  lemma PositionsFit(n: nat)
    ensures (forall i :: 0 <= i < n ==> Int16(i) == i) <==> n <= 32768
  {
    if n > 32768 {
      assert Int16(32768) == -32768;
    }
  }

  /** s with element r taken out and put in at t. */
  function Rotated<T>(s: seq<T>, t: nat, r: nat): seq<T>
    requires t <= r < |s|
  {
    s[..t] + [s[r]] + s[t..r] + s[r + 1..]
  }

  lemma RotatedPairs(a: seq<real>, o: seq<int>, t: nat, r: nat)
    requires |a| == |o| && t <= r < |a|
    ensures |Rotated(a, t, r)| == |Rotated(o, t, r)| == |a|
    ensures SamePairs(a, o, Rotated(a, t, r), Rotated(o, t, r))
  {
    var p := Pairs(a, o);
    assert Pairs(Rotated(a, t, r), Rotated(o, t, r)) == Rotated(p, t, r);
    RotatedMultiset(p, t, r);
    RotatedMultiset(o, t, r);
  }

  lemma RotatedMultiset<T>(s: seq<T>, t: nat, r: nat)
    requires t <= r < |s|
    ensures multiset(Rotated(s, t, r)) == multiset(s)
  {
    assert s == s[..t] + s[t..r] + [s[r]] + s[r + 1..];
  }

  /** Putting element r in before the first larger one extends the sorted part. */
  lemma RotatedSorted(a: seq<real>, t: nat, r: nat)
    requires t <= r < |a| && Sorted(a[..r])
    requires (t > 0 ==> a[t - 1] <= a[r]) && forall i :: t <= i < r ==> a[r] < a[i]
    ensures Sorted(Rotated(a, t, r)[..r + 1])
  {
    var b := Rotated(a, t, r);
    forall i, j | 0 <= i < j <= r ensures b[i] <= b[j] {
      assert forall x, y :: 0 <= x < y < r ==> a[..r][x] <= a[..r][y];
      assert forall x :: 0 <= x < r ==> a[..r][x] == a[x];
      assert b[i] == if i < t then a[i] else if i == t then a[r] else a[i - 1];
      assert b[j] == if j < t then a[j] else if j == t then a[r] else a[j - 1];
    }
  }

  /** s with the elements from k up to r moved up by one, over element r. */
  ghost function MovedUp<T>(s: seq<T>, k: nat, r: nat): seq<T>
    requires k <= r < |s|
  {
    s[..k + 1] + s[k..r] + s[r + 1..]
  }

  lemma MoveUp<T>(s: seq<T>, k: nat, r: nat, x: T)
    requires k <= r < |s|
    ensures k == r ==> MovedUp(s, k, r) == s
    ensures k > 0 ==> MovedUp(s, k, r)[k := MovedUp(s, k, r)[k - 1]] == MovedUp(s, k - 1, r)
    ensures MovedUp(s, k, r)[k := s[r]] == Rotated(s, k, r)
  {}

  /**
   Shifts the elements from t to r up by one, and puts element r at t; the payload makes the same moves.
   */
  method Rotate(vals: array<real>, ord: array<int>, t: nat, r: nat)
    requires vals.Length == ord.Length && t <= r < vals.Length
    modifies vals, ord
    ensures vals[..] == Rotated(old(vals[..]), t, r)
    ensures ord[..] == Rotated(old(ord[..]), t, r)
  {
    hide MovedUp, Rotated;
    ghost var a, o := vals[..], ord[..];
    var c, saved := vals[r], ord[r];
    var k := r;
    MoveUp(a, r, r, c);
    MoveUp(o, r, r, saved);
    while k > t
      invariant t <= k <= r
      invariant vals[..] == MovedUp(a, k, r) && ord[..] == MovedUp(o, k, r)
    {
      MoveUp(a, k, r, c);
      MoveUp(o, k, r, saved);
      ghost var a1, o1 := vals[..], ord[..];
      vals[k], ord[k] := vals[k - 1], ord[k - 1];
      assert vals[..] == a1[k := a1[k - 1]] && ord[..] == o1[k := o1[k - 1]];
      k := k - 1;
    }
    MoveUp(a, t, r, c);
    MoveUp(o, t, r, saved);
    ghost var a1, o1 := vals[..], ord[..];
    vals[k], ord[k] := c, saved;
    assert vals[..] == a1[t := c] && ord[..] == o1[t := saved];
  }

  ghost predicate AllAtLeast(a: seq<real>, x: real) {
    forall i :: 0 <= i < |a| ==> x <= a[i]
  }

  lemma SamePairsSameValues(a: seq<real>, o: seq<int>, b: seq<real>, o': seq<int>)
    requires SamePairs(a, o, b, o')
    ensures |a| == |b|
    ensures forall x :: AllAtLeast(a, x) ==> AllAtLeast(b, x)
  {
    assert |Pairs(a, o)| == |multiset(Pairs(a, o))|;
    assert |Pairs(b, o')| == |multiset(Pairs(b, o'))|;
    forall x, i | AllAtLeast(a, x) && 0 <= i < |b| ensures x <= b[i] {
      assert Pairs(b, o')[i] in multiset(Pairs(b, o'));
      assert Pairs(b, o')[i] in Pairs(a, o);
    }
  }

  /**
   The insertion sort phase. Its inner scan is not guarded either: the smallest value of all is first
   brought to the front, and it is found among the first five.
   */
  method InsertionPhase(vals: array<real>, ord: array<int>, ghost c: nat)
    requires vals.Length == ord.Length && 1 <= vals.Length <= 32768
    requires 1 <= c <= vals.Length && c <= MAX_THRESH + 1 && Cut(vals[..], c)
    modifies vals, ord
    ensures Sorted(vals[..])
    ensures SamePairs(old(vals[..]), old(ord[..]), vals[..], ord[..])
  {
    hide Cut, KeepsCuts, Rearranged, SamePairs, Pairs, Sorted, AllAtLeast, Rotated;
    ghost var a0, o0 := vals[..], ord[..];
    var n := vals.Length;
    var least := FirstSmallest(vals, if n - 1 < MAX_THRESH then n - 1 else MAX_THRESH, c);
    if least != 0 {
      Swap(vals, ord, least, 0, 0, n - 1);
    }
    assert vals[..] == Swapped(a0, least, 0) && ord[..] == Swapped(o0, least, 0);
    StartInserting(a0, o0, vals[..], ord[..], least);
    PositionsFit(n);
    var run := 1;
    while run + 1 < n
      invariant 1 <= run && (run < n || n == 1)
      invariant Inserted(a0, o0, vals[..], ord[..], if run < n then run + 1 else n)
      decreases n - run
    {
      run := run + 1;
      ghost var a, o := vals[..], ord[..];
      SmallestFirst(a0, o0, a, o, run);
      var tmp: int := run - 1;
      var pos := Int16(tmp + 1);
      assert pos == run;
      while vals[run] < vals[tmp]
        invariant 0 <= tmp < run
        invariant forall i :: tmp < i < run ==> a[run] < a[i]
        decreases tmp
        modifies {}
      {
        tmp := tmp - 1;
      }
      tmp := tmp + 1;
      InsertOne(a0, o0, a, o, tmp, run);
      if tmp != run {
        Rotate(vals, ord, tmp, pos);
      }
    }
    AllInserted(a0, o0, vals[..], ord[..]);
  }

  /** The first r values are sorted, the first one is the smallest of all, and values and payload are still the same pairs. */
  ghost predicate Inserted(a0: seq<real>, o0: seq<int>, a: seq<real>, o: seq<int>, r: nat) {
    && |a0| == |o0| && |a| == |o| && 1 <= r <= |a|
    && SamePairs(a0, o0, a, o)
    && Sorted(a[..r]) && AllAtLeast(a, a[0])
  }

  lemma StartInserting(a0: seq<real>, o0: seq<int>, a: seq<real>, o: seq<int>, least: nat)
    requires |a0| == |o0| == |a| == |o| && least < |a0| && AllAtLeast(a0, a0[least])
    requires (a, o) == (Swapped(a0, least, 0), Swapped(o0, least, 0))
    ensures Inserted(a0, o0, a, o, if |a| > 1 then 2 else 1)
  {
    SwapRearranges(a0, o0, least, 0, 0, |a| - 1);
    assert a[0] == a0[least];
    SamePairsSameValues(a0, o0, a, o);
  }

  lemma SmallestFirst(a0: seq<real>, o0: seq<int>, a: seq<real>, o: seq<int>, r: nat)
    requires Inserted(a0, o0, a, o, r) && r < |a|
    ensures a[0] <= a[r]
  {}

  lemma InsertOne(a0: seq<real>, o0: seq<int>, a: seq<real>, o: seq<int>, t: nat, r: nat)
    requires Inserted(a0, o0, a, o, r) && 0 < t <= r < |a|
    requires a[t - 1] <= a[r] && forall i :: t <= i < r ==> a[r] < a[i]
    ensures Inserted(a0, o0, Rotated(a, t, r), Rotated(o, t, r), r + 1)
    ensures t == r ==> Rotated(a, t, r) == a && Rotated(o, t, r) == o
  {
    RotatedPairs(a, o, t, r);
    RotatedSorted(a, t, r);
    var b := Rotated(a, t, r);
    SamePairsSameValues(a, o, b, Rotated(o, t, r));
    assert b[0] == a[0];
  }

  lemma AllInserted(a0: seq<real>, o0: seq<int>, a: seq<real>, o: seq<int>)
    requires Inserted(a0, o0, a, o, |a|)
    ensures Sorted(a) && SamePairs(a0, o0, a, o)
  {
    assert a[..|a|] == a;
  }

  /** The position of the smallest value of all, sought up to `last` only. */
  method FirstSmallest(vals: array<real>, last: nat, ghost c: nat) returns (least: nat)
    requires last < vals.Length && 1 <= c <= last + 1 && Cut(vals[..], c)
    ensures least <= last && AllAtLeast(vals[..], vals[least])
  {
    least := 0;
    var run := 1;
    while run <= last
      invariant 1 <= run <= last + 1 && least < run
      invariant forall i :: 0 <= i < run ==> vals[least] <= vals[i]
    {
      if vals[run] < vals[least] {
        least := run;
      }
      run := run + 1;
    }
    assert forall j :: c <= j < vals.Length ==> vals[..][0] <= vals[..][j];
  }

  // ---- the whole sort

  /** If each entry of the order array was the index of its value in x, it still is. */
  lemma PayloadFollows(a: seq<real>, o: seq<int>, b: seq<real>, o': seq<int>, x: seq<real>)
    requires SamePairs(a, o, b, o')
    requires forall i :: 0 <= i < |a| ==> 0 <= o[i] < |x| && a[i] == x[o[i]]
    ensures |b| == |a| && forall i :: 0 <= i < |b| ==> 0 <= o'[i] < |x| && b[i] == x[o'[i]]
  {
    SamePairsSameValues(a, o, b, o');
    forall i | 0 <= i < |b| ensures 0 <= o'[i] < |x| && b[i] == x[o'[i]] {
      assert Pairs(b, o')[i] in multiset(Pairs(b, o'));
      assert Pairs(b, o')[i] in Pairs(a, o);
    }
  }

  /** qsort_asc_val_F4_idx_I2 */
  method QSortAsc(ord: array<int>, vals: array<real>)
    requires ord.Length == vals.Length <= 32768
    modifies ord, vals
    ensures Sorted(vals[..])
    ensures SamePairs(old(vals[..]), old(ord[..]), vals[..], ord[..])
  {
    var totalElems := vals.Length;
    if totalElems == 0 {
      return;
    }
    ghost var c := totalElems;
    if totalElems > MAX_THRESH {
      SmallPowers();
      c := QuickPhase(vals, ord);
    }
    InsertionPhase(vals, ord, c);
  }

  lemma SmallPowers()
    ensures 32768 < FastDiv.Pow2(62)
  {
    assert FastDiv.Pow2(8) == 256;
    assert FastDiv.Pow2(16) == 65536;
    Pow2Mono(16, 62);
  }

  lemma {:induction false} Pow2Mono(m: nat, n: nat)
    requires m <= n
    ensures FastDiv.Pow2(m) <= FastDiv.Pow2(n)
    decreases n
  {
    if m < n {
      Pow2Mono(m, n - 1);
    }
  }
}
