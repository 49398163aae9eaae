/** Busy flags and the single-instance lock of core/kernel/tee_ta_manager.c, in the build
    without CFG_CONCURRENT_SINGLE_INSTANCE_TA.  Every section under tee_ta_mutex between two
    waits is one step, and a sleeping thread may wake at any time. */
module TaBusy {
  import opened Common

  /** Addresses of TA contexts. */
  type Ptr = nat

  /** struct tee_ta_ctx: its flags and the busy field. */
  datatype Ctx = Ctx(concurrent: bool, single: bool, busy: bool)

  /** Where a thread stands: not in tee_ta_try_set_busy, or waiting there for the
      single-instance lock or for a context. */
  datatype Pc = Idle | LockWait(c: Ptr) | BusyWait(c: Ptr)

  /** The contexts, tee_ta_single_instance_thread and _count, the threads, and for every
      context the threads between a successful try_set_busy and their clear_busy. */
  datatype State = State(ctx: map<Ptr, Ctx>, owner: Option<Thread>, count: int, pc: map<Thread, Pc>,
                         inside: map<Ptr, multiset<Thread>>)

  datatype Step = TrySet(t: Thread, c: Ptr) | LockRetry(t: Thread) | BusyRetry(t: Thread) | Clear(t: Thread, c: Ptr)

  /** What a step of tee_ta_try_set_busy does for its caller. */
  datatype Outcome = Waits | Enters | Refused

  function PcOf(s: State, t: Thread): Pc {
    if t in s.pc then s.pc[t] else Idle
  }

  function Inside(s: State, c: Ptr): multiset<Thread> {
    if c in s.inside then s.inside[c] else multiset{}
  }

  // ---- Steps ----

  function Wait(s: State, t: Thread, pc: Pc): State {
    s.(pc := s.pc[t := pc])
  }

  function Enter(s: State, t: Thread, c: Ptr): State
    requires c in s.ctx
  {
    s.(ctx := s.ctx[c := s.ctx[c].(busy := true)], pc := s.pc[t := Idle],
       inside := s.inside[c := Inside(s, c) + multiset{t}])
  }

  /** lock_single_instance when the lock is free or the thread's own. */
  function LockSingle(s: State, t: Thread): State {
    s.(owner := Some(t), count := s.count + 1)
  }

  function UnlockSingle(s: State): State {
    s.(owner := if s.count - 1 == 0 then None else s.owner, count := s.count - 1)
  }

  /** The rest of tee_ta_try_set_busy once the single-instance lock, if needed, is taken. */
  function Decide(s: State, t: Thread, c: Ptr): (State, Outcome)
    requires c in s.ctx
  {
    if s.owner == Some(t) then
      if s.ctx[c].busy then (Wait(if s.ctx[c].single then UnlockSingle(s) else s, t, Idle), Refused)
      else (Enter(s, t, c), Enters)
    else if s.ctx[c].busy then (Wait(s, t, BusyWait(c)), Waits)
    else (Enter(s, t, c), Enters)
  }

  function Attempt(s: State, t: Thread, c: Ptr): (State, Outcome)
    requires c in s.ctx
  {
    if s.ctx[c].concurrent then (s, Enters)
    else if !s.ctx[c].single then Decide(s, t, c)
    else if s.owner.Some? && s.owner != Some(t) then (Wait(s, t, LockWait(c)), Waits)
    else Decide(LockSingle(s, t), t, c)
  }

  function DoClear(s: State, t: Thread, c: Ptr): State
    requires c in s.ctx
  {
    if s.ctx[c].concurrent then s
    else
      var r := s.(ctx := s.ctx[c := s.ctx[c].(busy := false)], inside := s.inside[c := Inside(s, c) - multiset{t}]);
      if s.ctx[c].single then UnlockSingle(r) else r
  }

  /** A thread clears a context that it has set busy. */
  predicate Enabled(s: State, step: Step) {
    match step
    case TrySet(t, c) => PcOf(s, t).Idle? && c in s.ctx
    case LockRetry(t) => PcOf(s, t).LockWait? && PcOf(s, t).c in s.ctx
    case BusyRetry(t) => PcOf(s, t).BusyWait? && PcOf(s, t).c in s.ctx
    case Clear(t, c) => PcOf(s, t).Idle? && c in s.ctx && (!s.ctx[c].concurrent ==> t in Inside(s, c))
  }

  function Result(s: State, step: Step): (r: (State, Outcome))
    requires Enabled(s, step)
  {
    match step
    case TrySet(t, c) => Attempt(s, t, c)
    case LockRetry(t) => Attempt(s, t, PcOf(s, t).c)
    case BusyRetry(t) =>
      var c := PcOf(s, t).c;
      if s.ctx[c].busy then (s, Waits) else (Enter(s, t, c), Enters)
    case Clear(t, c) => (DoClear(s, t, c), Enters)
  }

  function Apply(s: State, step: Step): State
    requires Enabled(s, step)
  {
    Result(s, step).0
  }

  // ---- Invariant ----

  /** The busy single-instance contexts. */
  ghost function BusySingles(s: State): set<Ptr> {
    set c | c in s.ctx && s.ctx[c].single && s.ctx[c].busy && !s.ctx[c].concurrent
  }

  /** Busy exactly while one thread is inside; a single-instance context only by the lock's
      owner. */
  ghost predicate CtxOk(s: State, c: Ptr) {
    c in s.ctx && !s.ctx[c].concurrent ==>
      && (!s.ctx[c].busy ==> Inside(s, c) == multiset{})
      && (s.ctx[c].busy ==> exists t :: Inside(s, c) == multiset{t} && (s.ctx[c].single ==> s.owner == Some(t)))
  }

  /** The owner of the lock does not wait. */
  ghost predicate Placed(s: State, t: Thread) {
    match PcOf(s, t)
    case Idle => true
    case LockWait(c) => c in s.ctx && s.ctx[c].single && !s.ctx[c].concurrent && s.owner != Some(t)
    case BusyWait(c) => c in s.ctx && !s.ctx[c].single && !s.ctx[c].concurrent && s.owner != Some(t)
  }

  /** The count is the number of contexts the owner holds busy; nobody owns a lock of count 0. */
  ghost predicate LockOk(s: State) {
    s.count == |BusySingles(s)| && (s.owner.None? <==> s.count == 0)
  }

  ghost predicate Inv(s: State) {
    (forall c :: CtxOk(s, c)) && (forall t :: Placed(s, t)) && LockOk(s)
  }

  /** What the count depends on. */
  lemma SameSingles(s: State, r: State, c: Ptr)
    requires c in s.ctx && c in r.ctx && r.ctx == s.ctx[c := r.ctx[c]] && !s.ctx[c].single && !r.ctx[c].single
    ensures BusySingles(r) == BusySingles(s)
  {
  }

  // ---- Each step ----

  lemma WaitKeeps(s: State, t: Thread, pc: Pc)
    requires Inv(s) && Placed(Wait(s, t, pc), t)
    ensures Inv(Wait(s, t, pc))
  {
    var r := Wait(s, t, pc);
    forall c ensures CtxOk(r, c) {
      assert CtxOk(s, c);
    }
    forall u ensures Placed(r, u) {
      assert u != t ==> Placed(s, u);
    }
    assert BusySingles(r) == BusySingles(s);
  }

  lemma EnterCtx(s: State, t: Thread, c: Ptr, d: Ptr)
    requires c in s.ctx && !s.ctx[c].concurrent && !s.ctx[c].busy && !s.ctx[c].single && CtxOk(s, c) && CtxOk(s, d)
    ensures CtxOk(Enter(s, t, c), d)
  {
    if d == c {
      assert Inside(Enter(s, t, c), c) == multiset{t};
    }
  }

  /** Entering an idle context; for a single-instance one the lock has just been counted. */
  lemma EnterKeeps(s: State, t: Thread, c: Ptr)
    requires Inv(s) && c in s.ctx && !s.ctx[c].concurrent && !s.ctx[c].busy && !s.ctx[c].single
    ensures Inv(Enter(s, t, c))
  {
    var r := Enter(s, t, c);
    forall d ensures CtxOk(r, d) {
      EnterCtx(s, t, c, d);
    }
    forall u ensures Placed(r, u) {
      assert Placed(s, u);
    }
    SameSingles(s, r, c);
  }

  lemma EnterSingleKeeps(s: State, t: Thread, c: Ptr)
    requires Inv(s) && c in s.ctx && !s.ctx[c].concurrent && !s.ctx[c].busy && s.ctx[c].single
    requires s.owner == None || s.owner == Some(t)
    ensures Inv(Enter(LockSingle(s, t), t, c))
  {
    var r := Enter(LockSingle(s, t), t, c);
    forall d ensures CtxOk(r, d) {
      assert CtxOk(s, d);
      if d == c {
        assert Inside(r, d) == multiset{t};
      } else if d in s.ctx && s.ctx[d].single && s.ctx[d].busy && !s.ctx[d].concurrent {
        assert d in BusySingles(s);
      }
    }
    forall u ensures Placed(r, u) {
      assert Placed(s, u);
    }
    assert BusySingles(r) == BusySingles(s) + {c};
  }

  lemma AttemptKeeps(s: State, t: Thread, c: Ptr)
    requires Inv(s) && c in s.ctx && (PcOf(s, t) == Idle || PcOf(s, t) == LockWait(c))
    ensures Inv(Attempt(s, t, c).0)
  {
    assert CtxOk(s, c) && Placed(s, t);
    if s.ctx[c].concurrent {
    } else if !s.ctx[c].single {
      if !s.ctx[c].busy {
        EnterKeeps(s, t, c);
      } else if s.owner == Some(t) {
        WaitKeeps(s, t, Idle);
      } else {
        WaitKeeps(s, t, BusyWait(c));
      }
    } else if s.owner.Some? && s.owner != Some(t) {
      WaitKeeps(s, t, LockWait(c));
    } else if s.ctx[c].busy {
      assert UnlockSingle(LockSingle(s, t)) == s;
      WaitKeeps(s, t, Idle);
    } else {
      EnterSingleKeeps(s, t, c);
    }
  }

  lemma ClearKeeps(s: State, t: Thread, c: Ptr)
    requires Inv(s) && c in s.ctx && !s.ctx[c].concurrent && PcOf(s, t) == Idle && t in Inside(s, c)
    ensures s.ctx[c].busy && (s.ctx[c].single ==> s.owner == Some(t) && s.count > 0)
    ensures Inv(DoClear(s, t, c))
  {
    var r := DoClear(s, t, c);
    assert CtxOk(s, c);
    assert Inside(s, c) == multiset{t};
    assert BusySingles(r) == BusySingles(s) - {c};
    if s.ctx[c].single {
      assert c in BusySingles(s);
    }
    forall d ensures CtxOk(r, d) {
      assert CtxOk(s, d);
      if d != c && d in BusySingles(s) {
        assert d in BusySingles(r);
      }
    }
    forall u ensures Placed(r, u) {
      assert Placed(s, u);
    }
  }

  lemma StepKeepsInv(s: State, step: Step)
    requires Inv(s) && Enabled(s, step)
    ensures Inv(Apply(s, step))
  {
    match step
    case TrySet(t, c) => AttemptKeeps(s, t, c);
    case LockRetry(t) => AttemptKeeps(s, t, PcOf(s, t).c);
    case BusyRetry(t) =>
      assert Placed(s, t);
      if !s.ctx[PcOf(s, t).c].busy {
        EnterKeeps(s, t, PcOf(s, t).c);
      }
    case Clear(t, c) =>
      if !s.ctx[c].concurrent {
        ClearKeeps(s, t, c);
      }
  }

  // ---- Whole runs ----

  ghost predicate Reaches(s: State, steps: seq<Step>, s': State)
    decreases |steps|
  {
    if steps == [] then s == s'
    else Enabled(s, steps[0]) && Reaches(Apply(s, steps[0]), steps[1..], s')
  }

  /** No context is busy, nothing is locked, nobody is under way. */
  ghost predicate Init(s: State) {
    && (forall c :: c in s.ctx ==> !s.ctx[c].busy) && s.owner == None && s.count == 0
    && s.pc == map[] && s.inside == map[]
  }

  lemma InitInv(s: State)
    requires Init(s)
    ensures Inv(s)
  {
    assert BusySingles(s) == {};
  }

  lemma {:induction false} RunKeepsInv(s: State, steps: seq<Step>, s': State)
    requires Inv(s) && Reaches(s, steps, s')
    ensures Inv(s')
    decreases |steps|
  {
    if steps == [] {
    } else {
      StepKeepsInv(s, steps[0]);
      RunKeepsInv(Apply(s, steps[0]), steps[1..], s');
    }
  }

  /** In every reachable state a context is busy exactly while one thread is inside it. */
  lemma BusyInEveryRun(s0: State, steps: seq<Step>, s: State, c: Ptr)
    requires Init(s0) && Reaches(s0, steps, s) && c in s.ctx && !s.ctx[c].concurrent
    ensures s.ctx[c].busy <==> |Inside(s, c)| == 1
    ensures !s.ctx[c].busy <==> |Inside(s, c)| == 0
    ensures s.ctx[c].busy && s.ctx[c].single ==> s.owner.Some? && Inside(s, c) == multiset{s.owner.value}
  {
    InitInv(s0);
    RunKeepsInv(s0, steps, s);
    assert CtxOk(s, c);
  }

  /** In every reachable state the count is the number of single-instance contexts that the
      lock's owner holds busy, and the owner is not waiting. */
  lemma LockInEveryRun(s0: State, steps: seq<Step>, s: State, t: Thread)
    requires Init(s0) && Reaches(s0, steps, s)
    ensures s.count == |BusySingles(s)| && (s.owner.None? <==> s.count == 0)
    ensures forall c :: c in BusySingles(s) ==> s.owner.Some? && Inside(s, c) == multiset{s.owner.value}
    ensures s.owner == Some(t) ==> PcOf(s, t) == Idle
  {
    InitInv(s0);
    RunKeepsInv(s0, steps, s);
    assert Placed(s, t);
    forall c | c in BusySingles(s) ensures s.owner.Some? && Inside(s, c) == multiset{s.owner.value} {
      assert CtxOk(s, c);
    }
  }

  /** An attempt is refused exactly when the thread has the single-instance lock and the
      context is busy; for a single-instance context that is re-entry by the same thread. */
  lemma RefusedIff(s: State, t: Thread, c: Ptr)
    requires Inv(s) && c in s.ctx && PcOf(s, t) == Idle && !s.ctx[c].concurrent
    ensures Attempt(s, t, c).1 == Refused <==> s.owner == Some(t) && s.ctx[c].busy
    ensures Attempt(s, t, c).1 == Refused && s.ctx[c].single ==> Inside(s, c) == multiset{t}
    ensures Attempt(s, t, c).1 == Waits ==> s.owner != Some(t)
  {
    assert CtxOk(s, c);
    if s.ctx[c].single && s.ctx[c].busy {
      assert c in BusySingles(s);
    }
  }

  /** Why a thread waits: another one owns the single-instance lock it needs, or the context is busy
      and it cannot be the one that keeps it so. */
  predicate MustWait(s: State, t: Thread, c: Ptr)
    requires c in s.ctx
  {
    !s.ctx[c].concurrent && s.owner != Some(t) && if s.ctx[c].single then s.owner.Some? else s.ctx[c].busy
  }

  /** Thread t is in context c now, and has the lock if c is single-instance; nothing else changed. */
  ghost predicate Entered(s: State, r: State, t: Thread, c: Ptr)
    requires c in s.ctx
  {
    && r.ctx == s.ctx[c := s.ctx[c].(busy := true)] && r.inside == s.inside[c := Inside(s, c) + multiset{t}]
    && PcOf(r, t) == Idle && (forall u :: u != t ==> PcOf(r, u) == PcOf(s, u))
    && r.count == s.count + (if s.ctx[c].single then 1 else 0)
    && r.owner == if s.ctx[c].single then Some(t) else s.owner
  }

  /** The whole of tee_ta_try_set_busy up to its first wait: it waits, is refused or enters exactly
      as stated, and a concurrent context is entered without a trace. */
  lemma OutcomeIs(s: State, t: Thread, c: Ptr)
    requires Inv(s) && Enabled(s, TrySet(t, c))
    ensures var (r, outcome) := Result(s, TrySet(t, c));
            && (outcome == Waits <==> MustWait(s, t, c))
            && (outcome == Refused <==> !s.ctx[c].concurrent && s.owner == Some(t) && s.ctx[c].busy)
            && (outcome == Waits ==> r == Wait(s, t, if s.ctx[c].single then LockWait(c) else BusyWait(c)))
            && (outcome == Refused ==> r == Wait(s, t, Idle))
            && (outcome == Enters ==> if s.ctx[c].concurrent then r == s else Entered(s, r, t, c))
  {
    assert CtxOk(s, c);
    if s.ctx[c].single && s.ctx[c].busy && !s.ctx[c].concurrent {
      assert c in BusySingles(s);
    }
  }

  /** A thread that waits for a context enters as soon as it finds it idle, and a thread that waits
      for the lock as soon as it finds it free. */
  lemma RetryEntersIff(s: State, t: Thread, step: Step, c: Ptr)
    requires Inv(s) && Enabled(s, step) && (step == BusyRetry(t) || step == LockRetry(t)) && c == PcOf(s, t).c
    ensures var (r, outcome) := Result(s, step);
            && (outcome == Enters <==> if step.BusyRetry? then !s.ctx[c].busy else s.owner.None?)
            && (outcome == Enters ==> Entered(s, r, t, c)) && (outcome != Enters ==> outcome == Waits && r.ctx == s.ctx)
  {
    assert Placed(s, t) && CtxOk(s, c);
    if s.ctx[c].single && s.ctx[c].busy {
      assert c in BusySingles(s);
    }
  }

  /** When the thread inside clears a context, any thread that waits for it can enter. */
  lemma ClearLetsIn(s: State, t: Thread, c: Ptr, u: Thread)
    requires Inv(s) && Enabled(s, Clear(t, c)) && PcOf(s, u) == BusyWait(c)
    ensures var r := Apply(s, Clear(t, c));
            Enabled(r, BusyRetry(u)) && Result(r, BusyRetry(u)).1 == Enters && u in Inside(Apply(r, BusyRetry(u)), c)
  {
    assert Placed(s, u) && CtxOk(s, c);
  }

  /** A waiting thread that gets the lock is never refused, and it finds the count at 0. */
  lemma LockRetryEnters(s: State, t: Thread)
    requires Inv(s) && PcOf(s, t).LockWait?
    ensures PcOf(s, t).c in s.ctx && Attempt(s, t, PcOf(s, t).c).1 == if s.owner.None? then Enters else Waits
    ensures s.owner.None? ==> s.count == 0
  {
    assert Placed(s, t) && CtxOk(s, PcOf(s, t).c);
  }

  /** Clearing what was just set restores the flags and the lock. */
  lemma ClearUndoesSet(s: State, t: Thread, c: Ptr, r: State, q: State)
    requires Inv(s) && c in s.ctx && PcOf(s, t) == Idle && !s.ctx[c].concurrent
    requires Attempt(s, t, c) == (r, Enters) && q == DoClear(r, t, c)
    ensures q.ctx == s.ctx && q.count == s.count && q.owner == s.owner && Inside(q, c) == Inside(s, c)
  {
    assert CtxOk(s, c) && !s.ctx[c].busy;
    FlagRestored(s.ctx, c);
    if s.ctx[c].single {
      assert r == Enter(LockSingle(s, t), t, c);
    } else {
      assert r == Enter(s, t, c);
    }
  }

  lemma FlagRestored(m: map<Ptr, Ctx>, c: Ptr)
    requires c in m && !m[c].busy
    ensures var m1 := m[c := m[c].(busy := true)]; m1[c := m1[c].(busy := false)] == m
  {
  }
}
