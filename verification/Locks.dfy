/**
  * Memory and disk accounting under a compare-and-swap lock
  * (QJIT/GUTILS/src/mod_mem_used.c:56-169) for any number of threads, as a state
  * machine: every atomic access is one step, and any thread may take the next.
  */
module MemUsed {
  const WORD := 0x1_0000_0000_0000_0000

  /** Unsigned 64-bit arithmetic. */
  function Wrap64(x: int): nat { x % WORD }

  datatype Account = Mem | Dsk

  /** A call of incr_*_used or decr_*_used. */
  datatype Op = Op(acct: Account, incr: bool, x: nat)

  /** Where a thread is: outside, in lock_mem's loop, about to compare, about to add, about to unlock. */
  datatype Pc = Idle | Spinning(op: Op) | Comparing(op: Op) | Applying(op: Op) | Unlocking

  /** Only memory amounts are capped by the callers' sanity test. */
  function Cap(a: Account): nat { if a.Mem? then 1024 * 1048576 else WORD - 1 }

  datatype State = State(lock: int, used: map<Account, nat>, total: map<Account, int>, pcs: seq<Pc>)

  datatype Limits = Limits(mem: nat, dsk: nat)
  {
    function Of(a: Account): nat { if a.Mem? then mem else dsk }
  }

  ghost predicate InWord(lim: Limits) { lim.mem < WORD && lim.dsk < WORD }

  predicate Inside(pc: Pc) { pc.Comparing? || pc.Applying? || pc.Unlocking? }

  /** An operation in progress has passed the sanity tests. */
  predicate Within(pc: Pc) {
    pc.Spinning? || pc.Comparing? || pc.Applying? ==> 0 < pc.op.x <= Cap(pc.op.acct)
  }

  function Signed(op: Op): int { if op.incr then op.x else 0 - op.x }

  /** The comparison made under the lock, in wrapping arithmetic. */
  predicate Allowed(lim: Limits, used: map<Account, nat>, op: Op) {
    op.acct in used && if op.incr then Wrap64(op.x + used[op.acct]) <= lim.Of(op.acct) else op.x <= used[op.acct]
  }

  ghost predicate Init(lim: Limits, s: State) {
    && s.lock == 0 && s.used == map[Mem := 0, Dsk := 0] && s.total == map[Mem := 0, Dsk := 0]
    && forall t :: 0 <= t < |s.pcs| ==> s.pcs[t] == Idle
  }

  function At(s: State, t: nat, pc: Pc): State
    requires t < |s.pcs|
  {
    s.(pcs := s.pcs[t := pc])
  }

  /** One step of thread t. */
  ghost predicate Step(lim: Limits, s: State, s': State, t: nat) {
    && t < |s.pcs|
    && match s.pcs[t]
       case Idle =>
         exists op: Op :: 0 < op.x <= Cap(op.acct) && s' == At(s, t, Spinning(op))
       case Spinning(op) =>
         if s.lock == 0 then s' == At(s, t, Comparing(op)).(lock := 1) else s' == s
       case Comparing(op) =>
         s' == At(s, t, if Allowed(lim, s.used, op) then Applying(op) else Unlocking)
       case Applying(op) =>
         && op.acct in s.used && op.acct in s.total
         && s' == At(s, t, Unlocking).(used := s.used[op.acct := Wrap64(s.used[op.acct] + Signed(op))],
                                       total := s.total[op.acct := s.total[op.acct] + Signed(op)])
       case Unlocking =>
         s.lock == 1 && s' == At(s, t, Idle).(lock := 0)
  }

  /** unlock_mem's compare-and-swap would fail: the thread would return -1 with the lock still taken. */
  predicate UnlockFails(s: State, t: nat)
    requires t < |s.pcs|
  {
    s.pcs[t].Unlocking? && s.lock != 1
  }

  ghost predicate Inv(lim: Limits, s: State) {
    && InWord(lim)
    && (s.lock == 0 || s.lock == 1)
    && (s.lock == 1 <==> exists t :: 0 <= t < |s.pcs| && Inside(s.pcs[t]))
    && (forall t: nat, u: nat :: t < |s.pcs| && u < |s.pcs| && t != u && Inside(s.pcs[t]) ==> !Inside(s.pcs[u]))
    && (forall t :: 0 <= t < |s.pcs| ==> Within(s.pcs[t]))
    && (forall t :: 0 <= t < |s.pcs| && s.pcs[t].Applying? ==> Allowed(lim, s.used, s.pcs[t].op))
    && (forall a: Account :: a in s.used && a in s.total && s.used[a] <= lim.Of(a) && s.used[a] == Wrap64(s.total[a]))
  }

  lemma InitInv(lim: Limits, s: State)
    requires Init(lim, s) && InWord(lim)
    ensures Inv(lim, s)
  {
    forall a: Account
      ensures a in s.used && a in s.total && s.used[a] <= lim.Of(a) && s.used[a] == Wrap64(s.total[a])
    {
      match a
      case Mem =>
      case Dsk =>
    }
  }

  lemma WrapSum(total: int, d: int)
    ensures Wrap64(Wrap64(total) + d) == Wrap64(total + d)
  {}

  /** Moving one thread inside the critical section, or from outside to outside. */
  lemma MoveKeeps(lim: Limits, s: State, t: nat, pc: Pc)
    requires Inv(lim, s) && t < |s.pcs| && Inside(pc) == Inside(s.pcs[t])
    requires Within(pc) && (pc.Applying? ==> Allowed(lim, s.used, pc.op))
    ensures Inv(lim, At(s, t, pc))
  {
    hide Allowed, Wrap64, Cap;
    var s' := At(s, t, pc);
    if s.lock == 1 {
      var u :| 0 <= u < |s.pcs| && Inside(s.pcs[u]);
      assert Inside(s'.pcs[u]);
    }
  }

  lemma TakeKeeps(lim: Limits, s: State, t: nat, op: Op)
    requires Inv(lim, s) && t < |s.pcs| && s.pcs[t] == Spinning(op) && s.lock == 0
    ensures Inv(lim, At(s, t, Comparing(op)).(lock := 1))
  {
    hide Allowed, Wrap64, Cap;
    assert Within(s.pcs[t]);
    assert Inside(At(s, t, Comparing(op)).pcs[t]);
  }

  lemma ReleaseKeeps(lim: Limits, s: State, t: nat)
    requires Inv(lim, s) && t < |s.pcs| && s.pcs[t] == Unlocking
    ensures Inv(lim, At(s, t, Idle).(lock := 0))
  {
    hide Allowed, Wrap64, Cap;
    assert Inside(s.pcs[t]);
  }

  lemma StepInv(lim: Limits, s: State, s': State, t: nat)
    requires Inv(lim, s) && Step(lim, s, s', t)
    ensures Inv(lim, s')
  {
    hide Allowed, Wrap64, Cap;
    assert Within(s.pcs[t]);
    match s.pcs[t]
    case Idle =>
      var op: Op :| 0 < op.x <= Cap(op.acct) && s' == At(s, t, Spinning(op));
      MoveKeeps(lim, s, t, Spinning(op));
    case Spinning(op) =>
      if s.lock == 0 {
        TakeKeeps(lim, s, t, op);
      }
    case Comparing(op) =>
      MoveKeeps(lim, s, t, if Allowed(lim, s.used, op) then Applying(op) else Unlocking);
    case Applying(op) =>
      MoveKeeps(lim, s, t, Unlocking);
      ApplyKeeps(lim, s, op, t);
      NobodyApplies(lim, s, t);
    case Unlocking =>
      ReleaseKeeps(lim, s, t);
  }

  lemma NobodyApplies(lim: Limits, s: State, t: nat)
    requires Inv(lim, s) && t < |s.pcs| && Inside(s.pcs[t])
    ensures forall u: nat :: u < |s.pcs| && u != t ==> !s.pcs[u].Applying?
  {
    hide Allowed, Wrap64, Cap;
  }

  lemma ApplyKeeps(lim: Limits, s: State, op: Op, t: nat)
    requires Inv(lim, s) && t < |s.pcs| && s.pcs[t] == Applying(op)
    ensures Wrap64(s.used[op.acct] + Signed(op)) <= lim.Of(op.acct)
    ensures Wrap64(s.used[op.acct] + Signed(op)) == Wrap64(s.total[op.acct] + Signed(op))
  {
    assert Allowed(lim, s.used, op);
    WrapSum(s.total[op.acct], Signed(op));
  }

  /** A run: any interleaving of the threads' steps. */
  ghost predicate Run(lim: Limits, run: seq<State>) {
    && run != [] && Init(lim, run[0])
    && forall i :: 0 <= i < |run| - 1 ==> Next(lim, run[i], run[i + 1])
  }

  ghost predicate Next(lim: Limits, s: State, s': State) {
    exists t: nat :: Step(lim, s, s', t)
  }

  /**
    * In every reachable state at most one thread is between lock and unlock, its
    * unlock succeeds, and usage is within its limit and is the sum of everything
    * applied, modulo 2^64.
    */
  lemma {:induction false} RunSafe(lim: Limits, run: seq<State>, i: nat)
    requires Run(lim, run) && InWord(lim) && i < |run|
    ensures Inv(lim, run[i])
    ensures forall t :: 0 <= t < |run[i].pcs| ==> !UnlockFails(run[i], t)
  {
    hide Step, Allowed, Wrap64;
    if i == 0 {
      InitInv(lim, run[0]);
    } else {
      RunSafe(lim, run, i - 1);
      assert Next(lim, run[i - 1], run[i]);
      var t: nat :| Step(lim, run[i - 1], run[i], t);
      StepInv(lim, run[i - 1], run[i], t);
    }
  }

  // ---------------------------------------------------------------------------
  // Is usage the sum itself?

  ghost predicate SumExact(a: Account, s: State) {
    a in s.used && a in s.total && s.used[a] == s.total[a]
  }

  lemma {:induction false} NoWrapAlways(lim: Limits, a: Account, run: seq<State>, i: nat)
    requires Run(lim, run) && InWord(lim) && i < |run| && lim.Of(a) + Cap(a) < WORD
    ensures SumExact(a, run[i])
  {
    hide Allowed, Wrap64, Cap, Inv;
    if i > 0 {
      NoWrapAlways(lim, a, run, i - 1);
      RunSafe(lim, run, i - 1);
      assert Next(lim, run[i - 1], run[i]);
      var t: nat :| Step(lim, run[i - 1], run[i], t);
      if run[i - 1].pcs[t].Applying? && run[i - 1].pcs[t].op.acct == a {
        NoWrap(lim, run[i - 1], run[i - 1].pcs[t].op, t, a);
      }
    }
  }

  lemma NoWrap(lim: Limits, s: State, op: Op, t: nat, a: Account)
    requires Inv(lim, s) && t < |s.pcs| && s.pcs[t] == Applying(op)
    requires lim.Of(a) + Cap(a) < WORD && op.acct == a
    ensures Wrap64(s.used[a] + Signed(op)) == s.used[a] + Signed(op)
  {
    assert Allowed(lim, s.used, op) && Within(s.pcs[t]);
    assert s.used[a] <= lim.Of(a);
  }

  /** A single thread between calls, with v units in account a, all accounted for. */
  ghost predicate Resting(s: State, a: Account, v: int) {
    && s.lock == 0 && s.pcs == [Idle] && a in s.used && a in s.total
    && s.used[a] == v && s.total[a] == v
  }

  /** A call takes the lock and comes to its comparison. */
  lemma Compared(lim: Limits, run: seq<State>, op: Op, v: nat) returns (run': seq<State>)
    requires Run(lim, run) && Resting(run[|run| - 1], op.acct, v) && 0 < op.x <= Cap(op.acct)
    ensures Run(lim, run') && run'[|run'| - 1] == run[|run| - 1].(lock := 1, pcs := [Comparing(op)])
  {
    hide Init, Cap, Allowed;
    var s := run[|run| - 1];
    var s1 := At(s, 0, Spinning(op));
    var s2 := At(s1, 0, Comparing(op)).(lock := 1);
    assert Step(lim, s, s1, 0) && Step(lim, s1, s2, 0);
    run' := RunOn(lim, run, s1);
    run' := RunOn(lim, run', s2);
  }

  lemma Unlocked(lim: Limits, run: seq<State>) returns (run': seq<State>)
    requires Run(lim, run) && run[|run| - 1].pcs == [Unlocking] && run[|run| - 1].lock == 1
    ensures Run(lim, run') && run'[|run'| - 1] == run[|run| - 1].(lock := 0, pcs := [Idle])
  {
    hide Init, Cap, Allowed;
    var s := run[|run| - 1];
    var s1 := At(s, 0, Idle).(lock := 0);
    assert Step(lim, s, s1, 0);
    run' := RunOn(lim, run, s1);
  }

  lemma Applied(lim: Limits, run: seq<State>, op: Op) returns (run': seq<State>)
    requires Run(lim, run) && run[|run| - 1].pcs == [Comparing(op)] && run[|run| - 1].lock == 1
    requires Allowed(lim, run[|run| - 1].used, op) && op.acct in run[|run| - 1].used && op.acct in run[|run| - 1].total
    ensures Run(lim, run')
    ensures var s := run[|run| - 1];
            run'[|run'| - 1] == State(0, s.used[op.acct := Wrap64(s.used[op.acct] + Signed(op))],
                                      s.total[op.acct := s.total[op.acct] + Signed(op)], [Idle])
  {
    hide Init, Cap, Allowed, Wrap64;
    var s := run[|run| - 1];
    var s1 := At(s, 0, Applying(op));
    var s2 := At(s1, 0, Unlocking).(used := s.used[op.acct := Wrap64(s.used[op.acct] + Signed(op))],
                                    total := s.total[op.acct := s.total[op.acct] + Signed(op)]);
    assert Step(lim, s, s1, 0) && Step(lim, s1, s2, 0);
    run' := RunOn(lim, run, s1);
    run' := RunOn(lim, run', s2);
    run' := Unlocked(lim, run');
  }

  /**
    * One uncontended call: an increment is applied, modulo 2^64, exactly when the
    * wrapped sum is within the limit, and a decrement exactly when that much is in
    * use; a refused call changes nothing.
    */
  lemma Uncontended(lim: Limits, run: seq<State>, op: Op, v: nat) returns (run': seq<State>)
    requires Run(lim, run) && Resting(run[|run| - 1], op.acct, v) && v < WORD
    requires 0 < op.x <= Cap(op.acct)
    ensures Run(lim, run')
    ensures var s, s' := run[|run| - 1], run'[|run'| - 1];
            s' == if op.incr && (v + op.x) % WORD <= lim.Of(op.acct) then
                    s.(used := s.used[op.acct := (v + op.x) % WORD], total := s.total[op.acct := v + op.x])
                  else if !op.incr && op.x <= v then
                    s.(used := s.used[op.acct := v - op.x], total := s.total[op.acct := v - op.x])
                  else s
  {
    hide Init, Cap, Run, Step, Next;
    NotEmpty(lim, run);
    var s := run[|run| - 1];
    run' := Compared(lim, run, op, v);
    NotEmpty(lim, run');
    var s2 := run'[|run'| - 1];
    if Allowed(lim, s2.used, op) {
      run' := Applied(lim, run', op);
    } else {
      var s3 := At(s2, 0, Unlocking);
      Refused(lim, s2, s3, op);
      run' := RunOn(lim, run', s3);
      run' := Unlocked(lim, run');
    }
  }

  lemma Refused(lim: Limits, s: State, s': State, op: Op)
    requires s.pcs == [Comparing(op)] && !Allowed(lim, s.used, op) && s' == At(s, 0, Unlocking)
    ensures Next(lim, s, s')
  {
    assert Step(lim, s, s', 0);
  }

  lemma RunOn(lim: Limits, run: seq<State>, s: State) returns (run': seq<State>)
    requires Run(lim, run) && Next(lim, run[|run| - 1], s)
    ensures Run(lim, run') && run'[|run'| - 1] == s
  {
    hide Next, Init;
    run' := run + [s];
    forall i | 0 <= i < |run'| - 1
      ensures Next(lim, run'[i], run'[i + 1])
    {
      assert i < |run| - 1 ==> Next(lim, run[i], run[i + 1]);
    }
  }

  /** Any amount up to the limit can be taken. */
  lemma {:induction false} Take(lim: Limits, a: Account, v: nat) returns (run: seq<State>)
    requires v <= lim.Of(a) < WORD
    ensures Run(lim, run) && Resting(run[|run| - 1], a, v)
    decreases v
  {
    if v == 0 {
      run := [State(0, map[Mem := 0, Dsk := 0], map[Mem := 0, Dsk := 0], [Idle])];
    } else {
      var x := if v <= Cap(a) then v else Cap(a);
      run := Take(lim, a, v - x);
      run := Uncontended(lim, run, Op(a, true, x), v - x);
    }
  }

  lemma WrapReached(lim: Limits, a: Account) returns (run: seq<State>)
    requires InWord(lim) && lim.Of(a) + Cap(a) >= WORD
    ensures Run(lim, run) && !SumExact(a, run[|run| - 1])
  {
    run := Take(lim, a, lim.Of(a));
    run := Uncontended(lim, run, Op(a, true, Cap(a)), lim.Of(a));
  }

  /**
    * Usage is the plain sum of what was applied, in every run, exactly when an
    * increment on top of a full account cannot wrap: for memory when the limit
    * stays 2^30 below 2^64, for disk, whose amounts nobody caps, only when the
    * limit is 0.
    */
  lemma SumExactWhen(lim: Limits, a: Account)
    requires InWord(lim)
    ensures (forall run: seq<State>, i: nat :: Run(lim, run) && i < |run| ==> SumExact(a, run[i]))
            <==> lim.Of(a) + Cap(a) < WORD
  {
    hide Run, SumExact, Cap;
    if lim.Of(a) + Cap(a) < WORD {
      forall run: seq<State>, i: nat | Run(lim, run) && i < |run|
        ensures SumExact(a, run[i])
      {
        NoWrapAlways(lim, a, run, i);
      }
    } else {
      var run := WrapReached(lim, a);
      NotEmpty(lim, run);
      assert !SumExact(a, run[|run| - 1]);
    }
  }

  lemma NotEmpty(lim: Limits, run: seq<State>)
    requires Run(lim, run)
    ensures run != []
  {}
}

/**
  * Ownership of the Lua state (QJIT/GUTILS/src/lua_state.c): the main thread and
  * the webserver take it with a compare-and-swap from 0 to their own number.
  */
module LuaState {
  datatype Pc = Away | Waiting(owner: int) | Owning(owner: int)

  datatype State = State(status: int, pcs: seq<Pc>)

  predicate IsOwner(owner: int) { owner == 1 || owner == 2 }

  ghost predicate Init(s: State) {
    s.status == 0 && forall t :: 0 <= t < |s.pcs| ==> s.pcs[t] == Away
  }

  /** A thread asks for the state, tries to take it, or gives it back; a release that fails leaves it owning. */
  ghost predicate Step(s: State, s': State, t: nat) {
    && t < |s.pcs|
    && match s.pcs[t]
       case Away =>
         exists o :: IsOwner(o) && s' == s.(pcs := s.pcs[t := Waiting(o)])
       case Waiting(o) =>
         s' == if s.status == 0 then State(o, s.pcs[t := Owning(o)]) else s
       case Owning(o) =>
         s' == if s.status == o then State(0, s.pcs[t := Away]) else s
  }

  /** The state is free, or one thread owns it and the status is that thread's number. */
  ghost predicate Inv(s: State) {
    && (forall t :: 0 <= t < |s.pcs| && s.pcs[t] != Away ==> IsOwner(s.pcs[t].owner))
    && (forall t :: 0 <= t < |s.pcs| && s.pcs[t].Owning? ==> s.status == s.pcs[t].owner)
    && (forall t: nat, u: nat :: t < |s.pcs| && u < |s.pcs| && t != u && s.pcs[t].Owning? ==> !s.pcs[u].Owning?)
    && (s.status != 0 ==> exists t :: 0 <= t < |s.pcs| && s.pcs[t].Owning?)
  }

  ghost predicate Next(s: State, s': State) {
    exists t: nat :: Step(s, s', t)
  }

  ghost predicate Run(run: seq<State>) {
    && run != [] && Init(run[0])
    && forall i :: 0 <= i < |run| - 1 ==> Next(run[i], run[i + 1])
  }

  lemma StepInv(s: State, s': State, t: nat)
    requires Inv(s) && Step(s, s', t)
    ensures Inv(s')
  {
    match s.pcs[t]
    case Away =>
      if s.status != 0 {
        var u :| 0 <= u < |s.pcs| && s.pcs[u].Owning?;
        assert s'.pcs[u].Owning?;
      }
    case Waiting(o) =>
      if s.status == 0 {
        assert s'.pcs[t].Owning?;
      }
    case Owning(o) =>
      assert s.pcs[t].Owning?;
  }

  /** In every reachable state there is at most one owner, and its release succeeds. */
  lemma {:induction false} RunSafe(run: seq<State>, i: nat)
    requires Run(run) && i < |run|
    ensures Inv(run[i])
    ensures forall t: nat, u: nat :: t < |run[i].pcs| && u < |run[i].pcs| && t != u && run[i].pcs[t].Owning? ==>
              !run[i].pcs[u].Owning?
    ensures forall t :: 0 <= t < |run[i].pcs| && run[i].pcs[t].Owning? ==> run[i].status == run[i].pcs[t].owner
  {
    hide Step;
    if i > 0 {
      RunSafe(run, i - 1);
      assert Next(run[i - 1], run[i]);
      var t: nat :| Step(run[i - 1], run[i], t);
      StepInv(run[i - 1], run[i], t);
    }
  }
}
