/** The mutex machine with the deadlock detector attached (core/kernel/mutex_lockdep.c):
    a lock call first records its ordering under the graph lock, and goes on only when
    the graph stays acyclic (the kernel panics otherwise).  Threads blocked in
    mutex_lock then never wait for each other in a circle. */
module MutexDeadlock {
  import opened Common
  import opened LockGraph
  import opened WaitQueue
  import opened Mutex
  import Lockdep

  datatype Sys = Sys(s: State, graph: Edges, owned: map<Thread, seq<LockId>>)

  /** The owned queue after a release: its most recent entry for id is gone. */
  function Released(owned: seq<LockId>, id: LockId): seq<LockId> {
    var k := Lockdep.OwnedQueue.LastIndex(owned, id);
    if k < |owned| then owned[..k] + owned[k + 1..] else owned
  }

  ghost predicate SysEnabled(d: Sys, st: Step) {
    && Enabled(d.s, st)
    && match st
       case LockCall(t, m) => AcquireAccepted(d, t, m)
       case RelockCall(t) => AcquireAccepted(d, t, d.s.pc[t].m)
       case TryLockHook(t) => t in d.owned
       case UnlockCall(t, m) => t in d.owned && m in d.owned[t]
       case CvWaitCall(t, m, _) => t in d.owned && m in d.owned[t]
       case _ => true
  }

  /** lockdep_lock_acquire returns: the recorded order is still acyclic. */
  ghost predicate AcquireAccepted(d: Sys, t: Thread, m: MutexId) {
    && t in d.owned && Elements(d.owned[t]) <= d.graph.Keys
    && Acyclic(AcquireEdges(d.graph, d.owned[t], m))
  }

  ghost function SysApply(d: Sys, st: Step): Sys
    requires SysEnabled(d, st)
  {
    var s' := Apply(d.s, st);
    match st
    case LockCall(t, m) => SysAcquire(d, t, m).(s := s')
    case RelockCall(t) => SysAcquire(d, t, d.s.pc[t].m).(s := s')
    case TryLockHook(t) =>
      Sys(s', WithNode(d.graph, d.s.pc[t].m), d.owned[t := d.owned[t] + [d.s.pc[t].m]])
    case UnlockCall(t, m) => Sys(s', d.graph, d.owned[t := Released(d.owned[t], m)])
    case CvWaitCall(t, m, _) => Sys(s', d.graph, d.owned[t := Released(d.owned[t], m)])
    case Destroy(m) => Sys(s', WithoutNode(d.graph, m), d.owned)
    case _ => d.(s := s')
  }

  ghost function SysAcquire(d: Sys, t: Thread, m: MutexId): Sys
    requires AcquireAccepted(d, t, m)
  {
    Sys(d.s, AcquireEdges(d.graph, d.owned[t], m), d.owned[t := d.owned[t] + [m]])
  }

  // ---- Invariant ----

  /** The mutexes a thread holds for writing. */
  ghost function Held(s: State, t: Thread): set<LockId> {
    set l | l in s.mx && t in s.mx[l].writers
  }

  /** In __mutex_lock after the check: waiting for the mutex or retrying. */
  predicate Blocked(p: Pc, m: MutexId) {
    (p.Retry? && p.m == m && !p.read) || p == Asleep(m, false, false)
  }

  function Wanted(p: Pc): set<LockId> {
    if (p.Retry? && !p.read) || (p.Asleep? && !p.read && !p.relock) then {p.m} else {}
  }

  /** Held but not in the owned queue: the hook runs after a trylock and before a release. */
  function Unrecorded(p: Pc): set<LockId> {
    if p.TryTaken? || p.Releasing? || p.CvReleasing? then {p.m} else {}
  }

  /** The owned queue of a thread agrees with what it holds and wants, and an edge leads
      from everything it holds to what it wants. */
  ghost predicate Recorded(p: Pc, held: set<LockId>, owned: seq<LockId>, graph: Edges) {
    && Distinct(owned, |owned|)
    && Elements(owned) == (held - Unrecorded(p)) + Wanted(p)
    && Elements(owned) <= graph.Keys
    && Unrecorded(p) <= held && Wanted(p) !! held
    && forall l, m :: l in held && m in Wanted(p) ==> Edge(graph, l, m)
  }

  ghost predicate Tracked(d: Sys) {
    && d.owned.Keys == d.s.pc.Keys
    && WellFormed(d.graph) && Acyclic(d.graph)
    && forall t :: t in d.s.pc ==> Recorded(d.s.pc[t], Held(d.s, t), d.owned[t], d.graph)
  }

  ghost predicate SysInv(d: Sys) {
    Inv(d.s) && Tracked(d)
  }

  // ---- How one thread's record changes ----

  lemma RecordAcquire(p: Pc, held: set<LockId>, owned: seq<LockId>, graph: Edges, m: MutexId, woken: bool)
    requires Recorded(p, held, owned, graph) && Unrecorded(p) == {} == Wanted(p) && WellFormed(graph)
    requires Acyclic(AcquireEdges(graph, owned, m))
    ensures Recorded(Retry(m, false, woken), held, owned + [m], AcquireEdges(graph, owned, m))
    ensures WellFormed(AcquireEdges(graph, owned, m))
    ensures forall x, y :: Edge(graph, x, y) ==> Edge(AcquireEdges(graph, owned, m), x, y)
  {
    AcquireEdgesAre(graph, owned, m);
    if m in Elements(owned) {
      // a lock the thread already owns would be a self-loop
      assert Cycle(AcquireEdges(graph, owned, m), [m, m]);
    }
    ElementsSnoc(owned, m);
    PrefixSnoc(owned, m, |owned|);
    WithNodeAddsNoEdge(graph, m);
    WithEdgesWellFormed(WithNode(graph, m), owned, |owned|, m);
  }

  lemma RecordTryLock(p: Pc, held: set<LockId>, owned: seq<LockId>, graph: Edges, m: MutexId)
    requires Recorded(p, held, owned, graph) && p == TryTaken(m)
    ensures Recorded(Idle, held, owned + [m], WithNode(graph, m))
  {
    ElementsSnoc(owned, m);
    PrefixSnoc(owned, m, |owned|);
  }

  lemma RecordRelease(held: set<LockId>, owned: seq<LockId>, graph: Edges, p: Pc)
    requires Recorded(Idle, held, owned, graph) && (p.Releasing? || p.CvReleasing?) && p.m in owned
    ensures Recorded(p, held, Released(owned, p.m), graph)
  {
    ElementsAre(owned, p.m);
    LockGraph.RemoveAt(owned, Lockdep.OwnedQueue.LastIndex(owned, p.m));
  }

  lemma RecordGrows(p: Pc, held: set<LockId>, owned: seq<LockId>, g: Edges, g': Edges)
    requires Recorded(p, held, owned, g) && g.Keys <= g'.Keys
    requires forall x, y :: Edge(g, x, y) ==> Edge(g', x, y)
    ensures Recorded(p, held, owned, g')
  {
  }

  // ---- Preservation ----

  lemma HeldByOther(s: State, m: MutexId, x: Mx, u: Thread, s': State)
    requires m in s.mx && x.writers[u] == s.mx[m].writers[u] && s'.mx == s.mx[m := x]
    ensures Held(s', u) == Held(s, u)
  {
    assert u in x.writers <==> u in s.mx[m].writers;
  }

  ghost function HeldWith(s: State, t: Thread, m: MutexId, x: Mx): set<LockId> {
    if t in x.writers then Held(s, t) + {m} else Held(s, t) - {m}
  }

  lemma HeldBySelf(s: State, m: MutexId, x: Mx, t: Thread, s': State)
    requires m in s.mx && s'.mx == s.mx[m := x]
    ensures Held(s', t) == HeldWith(s, t, m, x)
  {
  }

  /** A step of t on mutex m with its bookkeeping: the other threads' records survive
      because the graph only grows. */
  lemma TrackStep(d: Sys, t: Thread, p: Pc, m: MutexId, x: Mx, d': Sys)
    requires Tracked(d) && t in d.s.pc && m in d.s.mx
    requires forall u :: u != t ==> x.writers[u] == d.s.mx[m].writers[u]
    requires d'.s.pc == d.s.pc[t := p] && d'.s.mx == d.s.mx[m := x]
    requires t in d'.owned && d'.owned == d.owned[t := d'.owned[t]]
    requires WellFormed(d'.graph) && Acyclic(d'.graph) && d.graph.Keys <= d'.graph.Keys
    requires forall x, y :: Edge(d.graph, x, y) ==> Edge(d'.graph, x, y)
    requires Recorded(p, HeldWith(d.s, t, m, x), d'.owned[t], d'.graph)
    ensures Tracked(d')
  {
    forall u | u in d'.s.pc ensures Recorded(d'.s.pc[u], Held(d'.s, u), d'.owned[u], d'.graph) {
      if u == t {
        HeldBySelf(d.s, m, x, t, d'.s);
      } else {
        HeldByOther(d.s, m, x, u, d'.s);
        RecordGrows(d.s.pc[u], Held(d.s, u), d.owned[u], d.graph, d'.graph);
      }
    }
  }

  /** A step without a hook. */
  lemma TrackPlain(d: Sys, t: Thread, p: Pc, m: MutexId, x: Mx)
    requires Tracked(d) && t in d.s.pc && m in d.s.mx
    requires forall u :: u != t ==> x.writers[u] == d.s.mx[m].writers[u]
    requires Recorded(d.s.pc[t], Held(d.s, t), d.owned[t], d.graph) ==>
             Recorded(p, HeldWith(d.s, t, m, x), d.owned[t], d.graph)
    ensures Tracked(d.(s := Upd(d.s, t, p, m, x)))
  {
    assert d.owned == d.owned[t := d.owned[t]];
    TrackStep(d, t, p, m, x, d.(s := Upd(d.s, t, p, m, x)));
  }

  lemma HeldHere(s: State, t: Thread, m: MutexId, x: Mx)
    requires m in s.mx && x.writers == s.mx[m].writers
    ensures HeldWith(s, t, m, x) == Held(s, t)
  {
  }

  /** A step that changes neither writers nor what the thread wants. */
  lemma NeutralTracked(d: Sys, t: Thread, p: Pc, m: MutexId, x: Mx)
    requires Tracked(d) && t in d.s.pc && m in d.s.mx && x.writers == d.s.mx[m].writers
    requires Wanted(p) == Wanted(d.s.pc[t]) && Unrecorded(p) == Unrecorded(d.s.pc[t])
    ensures Tracked(d.(s := Upd(d.s, t, p, m, x)))
  {
    HeldHere(d.s, t, m, x);
    TrackPlain(d, t, p, m, x);
  }

  /** Taking the mutex for writing: after the check, or by trylock. */
  lemma TakeTracked(d: Sys, t: Thread, p: Pc, m: MutexId)
    requires Tracked(d) && t in d.s.pc && m in d.s.mx && t !in d.s.mx[m].writers
    requires (d.s.pc[t].Retry? && d.s.pc[t].m == m && !d.s.pc[t].read && p == Idle)
             || (d.s.pc[t] == Idle && p == TryTaken(m))
    ensures Tracked(d.(s := Upd(d.s, t, p, m, Take(d.s.mx[m], t, false))))
  {
    TrackPlain(d, t, p, m, Take(d.s.mx[m], t, false));
  }

  /** Giving it up, after the hook has dropped it from the owned queue. */
  lemma DropTracked(d: Sys, t: Thread, p: Pc, m: MutexId, x: Mx)
    requires Tracked(d) && t in d.s.pc && m in d.s.mx && Unrecorded(d.s.pc[t]) == {m}
    requires Wanted(p) == {} == Unrecorded(p) && t !in x.writers
    requires forall u :: u != t ==> x.writers[u] == d.s.mx[m].writers[u]
    ensures Tracked(d.(s := Upd(d.s, t, p, m, x)))
  {
    TrackPlain(d, t, p, m, x);
  }

  lemma AcquireTracked(d: Sys, t: Thread, m: MutexId, d': Sys, woken: bool)
    requires Tracked(d) && t in d.s.pc && m in d.s.mx && AcquireAccepted(d, t, m)
    requires d.s.pc[t] == Idle || d.s.pc[t] == Relock(m)
    requires d' == SysAcquire(d, t, m).(s := Upd(d.s, t, Retry(m, false, woken), m, d.s.mx[m]))
    ensures Tracked(d')
  {
    HeldHere(d.s, t, m, d.s.mx[m]);
    RecordAcquire(d.s.pc[t], Held(d.s, t), d.owned[t], d.graph, m, woken);
    TrackStep(d, t, Retry(m, false, woken), m, d.s.mx[m], d');
  }

  lemma TryLockHookTracked(d: Sys, t: Thread, m: MutexId, d': Sys)
    requires Tracked(d) && t in d.s.pc && m in d.s.mx && d.s.pc[t] == TryTaken(m)
    requires d' == Sys(Upd(d.s, t, Idle, m, d.s.mx[m]), WithNode(d.graph, m), d.owned[t := d.owned[t] + [m]])
    ensures Tracked(d')
  {
    HeldHere(d.s, t, m, d.s.mx[m]);
    RecordTryLock(d.s.pc[t], Held(d.s, t), d.owned[t], d.graph, m);
    WithNodeAddsNoEdge(d.graph, m);
    FewerEdgesKeepAcyclic(d.graph, WithNode(d.graph, m));
    TrackStep(d, t, Idle, m, d.s.mx[m], d');
  }

  lemma ReleaseHookTracked(d: Sys, t: Thread, p: Pc, d': Sys)
    requires Tracked(d) && t in d.s.pc && d.s.pc[t] == Idle
    requires (p.Releasing? || p.CvReleasing?) && p.m in d.s.mx && p.m in d.owned[t]
    requires d'.s.pc == d.s.pc[t := p] && d'.s.mx == d.s.mx
    requires d'.graph == d.graph && d'.owned == d.owned[t := Released(d.owned[t], p.m)]
    ensures Tracked(d')
  {
    HeldHere(d.s, t, p.m, d.s.mx[p.m]);
    RecordRelease(Held(d.s, t), d.owned[t], d.graph, p);
    TrackStep(d, t, p, p.m, d.s.mx[p.m], d');
  }

  lemma DestroyTracked(d: Sys, m: MutexId, d': Sys)
    requires Tracked(d) && m in d.s.mx && |d.s.mx[m].writers| == 0
    requires forall t :: t in d.s.pc ==> !On(d.s.pc[t], m)
    requires d' == Sys(d.s.(mx := d.s.mx - {m}), WithoutNode(d.graph, m), d.owned)
    ensures Tracked(d')
  {
    WithoutNodeIs(d.graph, m);
    FewerEdgesKeepAcyclic(d.graph, d'.graph);
    forall t | t in d'.s.pc ensures Recorded(d'.s.pc[t], Held(d'.s, t), d'.owned[t], d'.graph) {
      assert Recorded(d.s.pc[t], Held(d.s, t), d.owned[t], d.graph);
      assert Held(d'.s, t) == Held(d.s, t) && m !in Held(d.s, t);
      assert !On(d.s.pc[t], m);
      RecordForgets(d.s.pc[t], Held(d.s, t), d.owned[t], d.graph, m);
    }
  }

  lemma RecordForgets(p: Pc, held: set<LockId>, owned: seq<LockId>, g: Edges, m: MutexId)
    requires Recorded(p, held, owned, g) && m !in held && !On(p, m)
    ensures Recorded(p, held, owned, WithoutNode(g, m))
  {
    WithoutNodeIs(g, m);
  }

  lemma InitTracked(d: Sys, m: MutexId, d': Sys)
    requires Tracked(d) && m !in d.s.mx && d' == d.(s := d.s.(mx := d.s.mx[m := EmptyMx()]))
    ensures Tracked(d')
  {
    forall t | t in d'.s.pc ensures Recorded(d'.s.pc[t], Held(d'.s, t), d'.owned[t], d'.graph) {
      HeldInit(d.s, m, t);
      RecordGrows(d.s.pc[t], Held(d.s, t), d.owned[t], d.graph, d.graph);
    }
  }

  lemma HeldInit(s: State, m: MutexId, t: Thread)
    requires m !in s.mx
    ensures Held(s.(mx := s.mx[m := EmptyMx()]), t) == Held(s, t)
  {
  }

  // ---- The steps one by one ----

  lemma LockCallStep(d: Sys, t: Thread, m: MutexId)
    requires Tracked(d) && SysEnabled(d, LockCall(t, m))
    ensures Tracked(SysApply(d, LockCall(t, m)))
  {
    AcquireTracked(d, t, m, SysApply(d, LockCall(t, m)), false);
  }

  lemma RelockCallStep(d: Sys, t: Thread)
    requires Tracked(d) && SysEnabled(d, RelockCall(t))
    ensures Tracked(SysApply(d, RelockCall(t)))
  {
    AcquireTracked(d, t, d.s.pc[t].m, SysApply(d, RelockCall(t)), true);
  }

  lemma TryLockHookStep(d: Sys, t: Thread)
    requires Tracked(d) && SysEnabled(d, TryLockHook(t))
    ensures Tracked(SysApply(d, TryLockHook(t)))
  {
    TryLockHookTracked(d, t, d.s.pc[t].m, SysApply(d, TryLockHook(t)));
  }

  lemma UnlockCallStep(d: Sys, t: Thread, m: MutexId)
    requires Tracked(d) && SysEnabled(d, UnlockCall(t, m))
    ensures Tracked(SysApply(d, UnlockCall(t, m)))
  {
    ReleaseHookTracked(d, t, Releasing(m), SysApply(d, UnlockCall(t, m)));
  }

  lemma CvWaitCallStep(d: Sys, t: Thread, m: MutexId, cv: CondVar)
    requires Tracked(d) && SysEnabled(d, CvWaitCall(t, m, cv))
    ensures Tracked(SysApply(d, CvWaitCall(t, m, cv)))
  {
    ReleaseHookTracked(d, t, CvReleasing(m, cv), SysApply(d, CvWaitCall(t, m, cv)));
  }

  lemma LockSectionStep(d: Sys, t: Thread)
    requires Tracked(d) && SysEnabled(d, LockSection(t)) && Accounted(d.s.mx[d.s.pc[t].m])
    ensures Tracked(SysApply(d, LockSection(t)))
  {
    var m, read := d.s.pc[t].m, d.s.pc[t].read;
    if !CanLock(d.s.mx[m], read) {
      NeutralTracked(d, t, Asleep(m, read, false), m, Enqueue(d.s.mx[m], t, read, None));
    } else if read {
      NeutralTracked(d, t, Idle, m, Take(d.s.mx[m], t, true));
    } else {
      TakeTracked(d, t, Idle, m);
    }
  }

  lemma TryLockStep(d: Sys, t: Thread, m: MutexId)
    requires Tracked(d) && SysEnabled(d, TryLock(t, m)) && Accounted(d.s.mx[m])
    ensures Tracked(SysApply(d, TryLock(t, m)))
  {
    if CanLock(d.s.mx[m], false) {
      TakeTracked(d, t, TryTaken(m), m);
    }
  }

  lemma UnlockSectionStep(d: Sys, t: Thread)
    requires Tracked(d) && SysEnabled(d, UnlockSection(t)) && Accounted(d.s.mx[d.s.pc[t].m])
    ensures Tracked(SysApply(d, UnlockSection(t)))
  {
    var m := d.s.pc[t].m;
    DropTracked(d, t, Waking(m, None, Return), m, ReleaseWrite(d.s.mx[m], t));
  }

  lemma CvReleaseStep(d: Sys, t: Thread)
    requires Tracked(d) && SysEnabled(d, CvRelease(t)) && Accounted(d.s.mx[d.s.pc[t].m])
    ensures Tracked(SysApply(d, CvRelease(t)))
  {
    var m, cv := d.s.pc[t].m, d.s.pc[t].cv;
    assert t in d.s.mx[m].writers by {
      assert Recorded(d.s.pc[t], Held(d.s, t), d.owned[t], d.graph);
      assert m in Held(d.s, t);
    }
    DropTracked(d, t, Waking(m, None, Sleep(false)), m, CvDrop(Enqueue(d.s.mx[m], t, false, Some(cv)), t));
  }

  lemma ReadLockCallStep(d: Sys, t: Thread, m: MutexId)
    requires Tracked(d) && SysEnabled(d, ReadLockCall(t, m))
    ensures Tracked(SysApply(d, ReadLockCall(t, m)))
  {
    NeutralTracked(d, t, Retry(m, true, false), m, d.s.mx[m]);
  }

  lemma ReadTryLockStep(d: Sys, t: Thread, m: MutexId)
    requires Tracked(d) && SysEnabled(d, ReadTryLock(t, m))
    ensures Tracked(SysApply(d, ReadTryLock(t, m)))
  {
    if CanLock(d.s.mx[m], true) {
      NeutralTracked(d, t, Idle, m, Take(d.s.mx[m], t, true));
    }
  }

  lemma ReadUnlockStep(d: Sys, t: Thread, m: MutexId)
    requires Tracked(d) && SysEnabled(d, ReadUnlock(t, m))
    ensures Tracked(SysApply(d, ReadUnlock(t, m)))
  {
    var x := ReleaseRead(d.s.mx[m], t);
    NeutralTracked(d, t, if x.state == 0 then Waking(m, None, Return) else Idle, m, x);
  }

  lemma WakeScanStep(d: Sys, t: Thread)
    requires Tracked(d) && SysEnabled(d, WakeScan(t))
    ensures Tracked(SysApply(d, WakeScan(t)))
  {
    var s' := Apply(d.s, WakeScan(t));
    NeutralTracked(d, t, s'.pc[t], d.s.pc[t].m, s'.mx[d.s.pc[t].m]);
  }

  lemma WaitCheckStep(d: Sys, t: Thread, i: nat)
    requires Tracked(d) && SysEnabled(d, WaitCheck(t, i))
    ensures Tracked(SysApply(d, WaitCheck(t, i)))
  {
    var s' := Apply(d.s, WaitCheck(t, i));
    NeutralTracked(d, t, s'.pc[t], d.s.pc[t].m, s'.mx[d.s.pc[t].m]);
  }

  lemma SignalStep(d: Sys, t: Thread, cv: CondVar, onlyOne: bool)
    requires Tracked(d) && SysEnabled(d, Signal(t, cv, onlyOne))
    ensures Tracked(SysApply(d, Signal(t, cv, onlyOne)))
  {
    var s' := Apply(d.s, Signal(t, cv, onlyOne));
    NeutralTracked(d, t, Idle, d.s.cvm[cv], s'.mx[d.s.cvm[cv]]);
  }

  lemma StepTracked(d: Sys, st: Step)
    requires Inv(d.s) && Tracked(d) && SysEnabled(d, st)
    ensures Tracked(SysApply(d, st))
  {
    match st
    case LockCall(t, m) => LockCallStep(d, t, m);
    case RelockCall(t) => RelockCallStep(d, t);
    case TryLockHook(t) => TryLockHookStep(d, t);
    case UnlockCall(t, m) => UnlockCallStep(d, t, m);
    case CvWaitCall(t, m, cv) => CvWaitCallStep(d, t, m, cv);
    case LockSection(t) => assert MutexInv(d.s, d.s.pc[t].m); LockSectionStep(d, t);
    case TryLock(t, m) => assert MutexInv(d.s, m); TryLockStep(d, t, m);
    case UnlockSection(t) => assert MutexInv(d.s, d.s.pc[t].m); UnlockSectionStep(d, t);
    case CvRelease(t) => assert MutexInv(d.s, d.s.pc[t].m); CvReleaseStep(d, t);
    case ReadLockCall(t, m) => ReadLockCallStep(d, t, m);
    case ReadTryLock(t, m) => ReadTryLockStep(d, t, m);
    case ReadUnlock(t, m) => ReadUnlockStep(d, t, m);
    case WakeScan(t) => WakeScanStep(d, t);
    case WaitCheck(t, i) => WaitCheckStep(d, t, i);
    case Signal(t, cv, onlyOne) => SignalStep(d, t, cv, onlyOne);
    case Destroy(m) => assert MutexInv(d.s, m); DestroyTracked(d, m, SysApply(d, st));
    case Init(m) => InitTracked(d, m, SysApply(d, st));
  }

  /** Every step of the mutex code with its lockdep hook keeps the invariant. */
  lemma SysStepKeepsInv(d: Sys, st: Step)
    requires SysInv(d) && SysEnabled(d, st)
    ensures SysInv(SysApply(d, st))
  {
    assert SysApply(d, st).s == Apply(d.s, st);
    StepKeepsInv(d.s, st);
    StepTracked(d, st);
  }

  // ---- Runs ----

  ghost predicate SysInitial(d: Sys) {
    && Initial(d.s) && d.graph == map[]
    && d.owned == map t | t in d.s.pc :: []
  }

  ghost predicate SysReaches(d: Sys, steps: seq<Step>, d': Sys)
    decreases |steps|
  {
    if steps == [] then d == d'
    else SysEnabled(d, steps[0]) && SysReaches(SysApply(d, steps[0]), steps[1..], d')
  }

  lemma InitialSysInv(d: Sys)
    requires SysInitial(d)
    ensures SysInv(d)
  {
    assert Acyclic(d.graph) by {
      RankedIsAcyclic(d.graph, map[]);
    }
  }

  lemma {:induction false} SysRunKeepsInv(d: Sys, steps: seq<Step>, d': Sys)
    requires SysInv(d) && SysReaches(d, steps, d')
    ensures SysInv(d')
    decreases |steps|
  {
    if steps == [] {
    } else {
      SysStepKeepsInv(d, steps[0]);
      SysRunKeepsInv(SysApply(d, steps[0]), steps[1..], d');
    }
  }

  // ---- No circular wait ----

  /** Thread t is blocked in mutex_lock on m, which u holds for writing. */
  ghost predicate WaitsFor(s: State, t: Thread, m: MutexId, u: Thread) {
    && t in s.pc && u in s.pc && m in s.mx
    && Blocked(s.pc[t], m) && u in s.mx[m].writers
  }

  /** Consecutive waits leave an edge in the lock graph. */
  lemma WaitChainIsEdge(d: Sys, t: Thread, m: MutexId, u: Thread, m': MutexId, v: Thread)
    requires Tracked(d) && WaitsFor(d.s, t, m, u) && WaitsFor(d.s, u, m', v)
    ensures Edge(d.graph, m, m')
  {
    assert Recorded(d.s.pc[u], Held(d.s, u), d.owned[u], d.graph);
    assert m in Held(d.s, u) && m' in Wanted(d.s.pc[u]);
  }

  /** ts[i] is blocked on ms[i], which ts[i + 1] holds for writing. */
  ghost predicate WaitChain(s: State, ts: seq<Thread>, ms: seq<MutexId>) {
    |ts| == |ms| + 1 && forall i :: 0 <= i < |ms| ==> WaitsFor(s, ts[i], ms[i], ts[i + 1])
  }

  /** The mutexes along a chain of waits form a walk in the lock graph. */
  lemma WaitChainIsWalk(d: Sys, ts: seq<Thread>, ms: seq<MutexId>)
    requires Tracked(d) && WaitChain(d.s, ts, ms) && ms != []
    ensures Walk(d.graph, ms)
  {
    forall i | 0 <= i < |ms| - 1 ensures Edge(d.graph, ms[i], ms[i + 1]) {
      assert WaitsFor(d.s, ts[i], ms[i], ts[i + 1]) && WaitsFor(d.s, ts[i + 1], ms[i + 1], ts[i + 1 + 1]);
      WaitChainIsEdge(d, ts[i], ms[i], ts[i + 1], ms[i + 1], ts[i + 2]);
    }
  }

  lemma WaitChainIsOpen(d: Sys, ts: seq<Thread>, ms: seq<MutexId>)
    requires Tracked(d) && WaitChain(d.s, ts, ms) && ms != []
    ensures ts[0] != ts[|ms|]
  {
    if ts[0] == ts[|ms|] {
      WaitChainIsWalk(d, ts, ms);
      var n := |ms|;
      assert WaitsFor(d.s, ts[n - 1], ms[n - 1], ts[n - 1 + 1]) && WaitsFor(d.s, ts[0], ms[0], ts[0 + 1]);
      WaitChainIsEdge(d, ts[n - 1], ms[n - 1], ts[0], ms[0], ts[1]);
      ClosingEdgeMakesCycle(d.graph, ms, 0);
    }
  }

  /** In every run in which lockdep has not panicked, threads blocked in mutex_lock never
      wait for each other in a circle. */
  lemma NoCircularWait(d0: Sys, steps: seq<Step>, d: Sys, ts: seq<Thread>, ms: seq<MutexId>)
    requires SysInitial(d0) && SysReaches(d0, steps, d)
    requires WaitChain(d.s, ts, ms) && ms != []
    ensures ts[0] != ts[|ms|]
  {
    InitialSysInv(d0);
    SysRunKeepsInv(d0, steps, d);
    WaitChainIsOpen(d, ts, ms);
  }

  // ---- Every chain of waits ends ----

  /** Not blocked in mutex_lock on a mutex that some thread holds for writing. */
  ghost predicate NotStuck(s: State, u: Thread) {
    u in s.pc && forall m, v :: !WaitsFor(s, u, m, v)
  }

  /** A walk that comes back to a node has a cycle in it. */
  lemma ReturningWalk(e: Edges, p: seq<LockId>, i: nat, k: nat)
    requires Walk(e, p) && i < k < |p| && p[i] == p[k]
    ensures !Acyclic(e)
  {
    var c := p[i..k + 1];
    forall j | 0 <= j < |c| - 1 ensures Edge(e, c[j], c[j + 1]) {
      assert Edge(e, p[i + j], p[i + j + 1]);
    }
    assert Cycle(e, c);
  }

  lemma {:induction false} WalkIsDistinct(e: Edges, p: seq<LockId>, k: nat)
    requires Acyclic(e) && Walk(e, p) && k <= |p|
    ensures Distinct(p, k)
  {
    if k == 0 {
    } else {
      WalkIsDistinct(e, p, k - 1);
      if p[k - 1] in Prefix(p, k - 1) {
        PrefixIs(p, k - 1, p[k - 1]);
        var i :| 0 <= i < k - 1 && p[i] == p[k - 1];
        ReturningWalk(e, p, i, k - 1);
      }
    }
  }

  lemma {:induction false} DistinctIsShort(p: seq<LockId>, k: nat, keys: set<LockId>)
    requires k <= |p| && Distinct(p, k) && Prefix(p, k) <= keys
    ensures k <= |keys|
  {
    if k == 0 {
    } else {
      DistinctIsShort(p, k - 1, keys - {p[k - 1]});
    }
  }

  lemma {:induction false} ChainMutexesExist(s: State, ts: seq<Thread>, ms: seq<MutexId>, k: nat)
    requires WaitChain(s, ts, ms) && k <= |ms|
    ensures Prefix(ms, k) <= s.mx.Keys
  {
    if k > 0 {
      ChainMutexesExist(s, ts, ms, k - 1);
      assert WaitsFor(s, ts[k - 1], ms[k - 1], ts[k - 1 + 1]);
    }
  }

  /** A chain of waits has at most as many links as there are mutexes. */
  lemma WaitChainIsShort(d: Sys, ts: seq<Thread>, ms: seq<MutexId>)
    requires Tracked(d) && WaitChain(d.s, ts, ms)
    ensures |ms| <= |d.s.mx.Keys|
  {
    if ms != [] {
      WaitChainIsWalk(d, ts, ms);
      WalkIsDistinct(d.graph, ms, |ms|);
      ChainMutexesExist(d.s, ts, ms, |ms|);
      DistinctIsShort(ms, |ms|, d.s.mx.Keys);
    }
  }

  lemma {:induction false} ExtendToEnd(d: Sys, ts: seq<Thread>, ms: seq<MutexId>)
    returns (ts': seq<Thread>, ms': seq<MutexId>)
    requires Tracked(d) && WaitChain(d.s, ts, ms) && ts[|ms|] in d.s.pc
    ensures WaitChain(d.s, ts', ms') && ts'[0] == ts[0] && NotStuck(d.s, ts'[|ms'|])
    decreases |d.s.mx.Keys| - |ms|
  {
    var u := ts[|ms|];
    ts', ms' := ts, ms;
    if m, v :| WaitsFor(d.s, u, m, v) {
      ts', ms' := ts + [v], ms + [m];
      WaitChainIsShort(d, ts', ms');
      ts', ms' := ExtendToEnd(d, ts', ms');
    }
  }

  /** In every such run, following the waits from any thread ends at a thread that is not
      blocked on a write-locked mutex: somebody can run. */
  lemma EveryWaitChainEnds(d0: Sys, steps: seq<Step>, d: Sys, t: Thread)
    returns (ts: seq<Thread>, ms: seq<MutexId>)
    requires SysInitial(d0) && SysReaches(d0, steps, d) && t in d.s.pc
    ensures WaitChain(d.s, ts, ms) && ts[0] == t && NotStuck(d.s, ts[|ms|])
  {
    InitialSysInv(d0);
    SysRunKeepsInv(d0, steps, d);
    ts, ms := ExtendToEnd(d, [t], []);
  }

  // ---- Waits do happen ----

  /** A mutex without edges in the graph. */
  lemma LoneMutexAcyclic(g: Edges, m: MutexId)
    requires g == map[] || g == map[m := []]
    ensures AcquireEdges(g, [], m) == map[m := []] && Acyclic(AcquireEdges(g, [], m))
  {
    RankedIsAcyclic(map[m := []], map[m := 0]);
  }

  /** One thread can come to wait for another. */
  lemma WaitsHappen(t: Thread, u: Thread, m: MutexId) returns (d0: Sys, steps: seq<Step>, d: Sys)
    requires t != u
    ensures SysInitial(d0) && SysReaches(d0, steps, d) && WaitChain(d.s, [u, t], [m])
  {
    d0 := Sys(State(map[t := Idle, u := Idle], map[], map[]), map[], map[t := [], u := []]);
    var d1 := SysApply(d0, Init(m));
    LoneMutexAcyclic(map[], m);
    var d2 := SysApply(d1, LockCall(t, m));
    var d3 := SysApply(d2, LockSection(t));
    LoneMutexAcyclic(map[m := []], m);
    d := SysApply(d3, LockCall(u, m));
    steps := [Init(m), LockCall(t, m), LockSection(t), LockCall(u, m)];
    RunOfFour(d0, d1, d2, d3, d, steps);
  }

  lemma RunOfFour(d0: Sys, d1: Sys, d2: Sys, d3: Sys, d4: Sys, steps: seq<Step>)
    requires |steps| == 4
    requires SysEnabled(d0, steps[0]) && d1 == SysApply(d0, steps[0])
    requires SysEnabled(d1, steps[1]) && d2 == SysApply(d1, steps[1])
    requires SysEnabled(d2, steps[2]) && d3 == SysApply(d2, steps[2])
    requires SysEnabled(d3, steps[3]) && d4 == SysApply(d3, steps[3])
    ensures SysReaches(d0, steps, d4)
  {
    assert SysReaches(d3, steps[3..], d4);
    assert steps[2..][1..] == steps[3..] && steps[1..][1..] == steps[2..];
    assert SysReaches(d2, steps[2..], d4);
    assert SysReaches(d1, steps[1..], d4);
  }
}
