/** What the deadlock detector lets through: a lock call is accepted exactly when no mutex that
    the thread holds can be reached from the wanted one, so that threads that take mutexes in the
    order of some ranking are never stopped, and chains of waits of any length arise. */
module MutexOrder {
  import opened Common
  import opened LockGraph
  import opened WaitQueue
  import opened Mutex
  import opened MutexDeadlock

  // ---- When a lock call is accepted ----

  /** The recorded order leads from m to l. */
  ghost predicate Leads(e: Edges, m: LockId, l: LockId, p: seq<LockId>) {
    Walk(e, p) && p[0] == m && p[|p| - 1] == l
  }

  /** The first return of a closed walk to its first node. */
  lemma {:induction false} FirstReturn(p: seq<LockId>, k: nat) returns (j: nat)
    requires 0 < k < |p| && p[k] == p[0]
    ensures 0 < j <= k && p[j] == p[0] && forall i :: 0 < i < j ==> p[i] != p[0]
    decreases k
  {
    j := k;
    if i :| 0 < i < k && p[i] == p[0] {
      j := FirstReturn(p, i);
    }
  }

  /** An acquire of m that closes a cycle had a walk from m to an owned lock. */
  lemma CycleHadWalk(e: Edges, owned: seq<LockId>, m: LockId, c: seq<LockId>) returns (p: seq<LockId>)
    requires Elements(owned) <= e.Keys && Acyclic(e) && Cycle(AcquireEdges(e, owned, m), c) && c[0] == m
    ensures p != [] && p[|p| - 1] in Elements(owned) && Leads(e, m, p[|p| - 1], p)
  {
    var g := AcquireEdges(e, owned, m);
    AcquireEdgesAre(e, owned, m);
    var j := FirstReturn(c, |c| - 1);
    p := c[..j];
    forall i | 0 <= i < j - 1 ensures Edge(e, p[i], p[i + 1]) {
      assert Edge(g, c[i], c[i + 1]);
    }
    assert Edge(g, c[j - 1], c[j - 1 + 1]);
    if Edge(e, c[j - 1], m) {
      ClosingEdgeMakesCycle(e, p, 0);
    }
  }

  /** And such a walk is closed by the acquire. */
  lemma WalkIsClosed(e: Edges, owned: seq<LockId>, m: LockId, l: LockId, p: seq<LockId>)
    requires Elements(owned) <= e.Keys && l in Elements(owned) && Leads(e, m, l, p)
    ensures !Acyclic(AcquireEdges(e, owned, m))
  {
    var g := AcquireEdges(e, owned, m);
    AcquireEdgesAre(e, owned, m);
    forall i | 0 <= i < |p| - 1 ensures Edge(g, p[i], p[i + 1]) {
      assert Edge(e, p[i], p[i + 1]);
    }
    ClosingEdgeMakesCycle(g, p, 0);
  }

  /** Thread t is about to run the hook of mutex_lock for m. */
  ghost predicate Asks(s: State, st: Step, t: Thread, m: MutexId) {
    Enabled(s, st) && (st == LockCall(t, m) || (st == RelockCall(t) && s.pc[t].m == m))
  }

  /** The recorded order leads from m to none of the held mutexes. */
  ghost predicate Unreached(e: Edges, m: LockId, held: set<LockId>) {
    forall l, p :: l in held ==> !Leads(e, m, l, p)
  }

  lemma OrderAllows(e: Edges, owned: seq<LockId>, m: LockId)
    requires Elements(owned) <= e.Keys && Acyclic(e)
    ensures Acyclic(AcquireEdges(e, owned, m)) <==> Unreached(e, m, Elements(owned))
  {
    if Acyclic(AcquireEdges(e, owned, m)) {
      forall l, p | l in Elements(owned) ensures !Leads(e, m, l, p) {
        if Leads(e, m, l, p) {
          WalkIsClosed(e, owned, m, l, p);
        }
      }
    } else {
      var c :| Cycle(AcquireEdges(e, owned, m), c);
      var q := NewCyclePassesThrough(e, owned, m, c);
      var p := CycleHadWalk(e, owned, m, q);
    }
  }

  lemma AtRest(p: Pc, held: set<LockId>, owned: seq<LockId>, graph: Edges)
    requires Recorded(p, held, owned, graph) && (p.Idle? || p.Relock?)
    ensures Elements(owned) == held <= graph.Keys
  {
  }

  /** Between calls and before a relock, a thread's owned queue is what it holds for writing. */
  lemma OwnedIsHeld(d: Sys, t: Thread)
    requires Tracked(d) && t in d.s.pc && (d.s.pc[t].Idle? || d.s.pc[t].Relock?)
    ensures t in d.owned && Elements(d.owned[t]) == Held(d.s, t) <= d.graph.Keys
  {
    AtRest(d.s.pc[t], Held(d.s, t), d.owned[t], d.graph);
  }

  /** A lock call panics exactly when the recorded order leads from the wanted mutex to one that
      the thread holds. */
  lemma AcceptedIff(d: Sys, st: Step, t: Thread, m: MutexId)
    requires SysInv(d) && Asks(d.s, st, t, m)
    ensures SysEnabled(d, st) <==> Unreached(d.graph, m, Held(d.s, t))
  {
    OwnedIsHeld(d, t);
    OrderAllows(d.graph, d.owned[t], m);
    assert SysEnabled(d, st) <==> AcquireAccepted(d, t, m);
  }

  /** The other hooks never stop a thread: what it unlocks for writing is in its owned queue. */
  lemma OtherHooksPass(d: Sys, st: Step)
    requires SysInv(d) && Enabled(d.s, st) && !st.LockCall? && !st.RelockCall?
    requires st.CvWaitCall? ==> st.t in d.s.mx[st.m].writers
    ensures SysEnabled(d, st)
  {
    if st.UnlockCall? || st.CvWaitCall? {
      OwnedIsHeld(d, st.t);
      assert st.m in Held(d.s, st.t);
      ElementsAre(d.owned[st.t], st.m);
    }
  }

  // ---- Taking mutexes in the order of a ranking ----

  type Ranking = MutexId -> nat

  /** A lock call takes a mutex ranked above all that its thread holds. */
  ghost predicate InOrder(s: State, st: Step, rank: Ranking)
    requires Enabled(s, st)
  {
    st.LockCall? || st.RelockCall? ==>
      forall l :: l in Held(s, st.t) ==> rank(l) < rank(if st.LockCall? then st.m else s.pc[st.t].m)
  }

  /** Edges of the lock graph go up in rank. */
  ghost predicate Rises(e: Edges, rank: Ranking) {
    forall a, b {:trigger Edge(e, a, b)} :: Edge(e, a, b) ==> rank(a) < rank(b)
  }

  lemma {:induction false} RankAlong(e: Edges, rank: Ranking, p: seq<LockId>, k: nat)
    requires Rises(e, rank) && Walk(e, p) && k < |p|
    ensures rank(p[0]) <= rank(p[k])
    decreases k
  {
    if k > 0 {
      RankAlong(e, rank, p, k - 1);
      assert Edge(e, p[k - 1], p[k - 1 + 1]);
    }
  }

  /** Such a call is not stopped. */
  lemma InOrderEnabled(d: Sys, st: Step, rank: Ranking)
    requires SysInv(d) && Rises(d.graph, rank) && Enabled(d.s, st) && (st.LockCall? || st.RelockCall?)
    requires InOrder(d.s, st, rank)
    ensures SysEnabled(d, st)
  {
    var t, m := st.t, if st.LockCall? then st.m else d.s.pc[st.t].m;
    AcceptedIff(d, st, t, m);
    forall l, p | l in Held(d.s, t) ensures !Leads(d.graph, m, l, p) {
      if Leads(d.graph, m, l, p) {
        RankAlong(d.graph, rank, p, |p| - 1);
      }
    }
  }

  lemma InOrderRises(d: Sys, st: Step, rank: Ranking)
    requires SysInv(d) && Rises(d.graph, rank) && SysEnabled(d, st) && InOrder(d.s, st, rank)
    ensures Rises(SysApply(d, st).graph, rank)
  {
    if st.LockCall? || st.RelockCall? {
      var t, m := st.t, if st.LockCall? then st.m else d.s.pc[st.t].m;
      OwnedIsHeld(d, t);
      AcquireEdgesAre(d.graph, d.owned[t], m);
    } else if st.TryLockHook? {
      WithNodeAddsNoEdge(d.graph, d.s.pc[st.t].m);
    } else if st.Destroy? {
      WithoutNodeIs(d.graph, st.m);
    }
  }

  /** A run of the mutex code in which every lock call is in order; the hooks are asked nothing. */
  ghost predicate OrderedRun(s: State, steps: seq<Step>, rank: Ranking)
    decreases |steps|
  {
    steps == [] || (Proper(s, steps[0], rank) && OrderedRun(Apply(s, steps[0]), steps[1..], rank))
  }

  ghost predicate Proper(s: State, st: Step, rank: Ranking) {
    Enabled(s, st) && InOrder(s, st, rank) && WritersWait(s, st)
  }

  /** condvar_wait is called with the mutex held for writing, as its unlock hook assumes. */
  ghost predicate WritersWait(s: State, st: Step)
    requires Enabled(s, st)
  {
    st.CvWaitCall? ==> st.t in s.mx[st.m].writers
  }

  lemma {:induction false} OrderedGoesOn(d: Sys, steps: seq<Step>, rank: Ranking) returns (d': Sys)
    requires SysInv(d) && Rises(d.graph, rank) && OrderedRun(d.s, steps, rank)
    ensures SysReaches(d, steps, d') && SysInv(d') && Rises(d'.graph, rank)
    decreases |steps|
  {
    if steps == [] {
      d' := d;
    } else {
      var st := steps[0];
      if st.LockCall? || st.RelockCall? {
        InOrderEnabled(d, st, rank);
      } else {
        OtherHooksPass(d, st);
      }
      SysStepKeepsInv(d, st);
      InOrderRises(d, st, rank);
      assert SysApply(d, st).s == Apply(d.s, st);
      d' := OrderedGoesOn(SysApply(d, st), steps[1..], rank);
    }
  }

  /** With the detector attached, every run of the mutex code that takes mutexes in the order of
      some ranking goes through: the detector stops no disciplined program. */
  lemma OrderedNeverStopped(d0: Sys, steps: seq<Step>, rank: Ranking) returns (d: Sys)
    requires SysInitial(d0) && OrderedRun(d0.s, steps, rank)
    ensures SysReaches(d0, steps, d)
  {
    InitialSysInv(d0);
    d := OrderedGoesOn(d0, steps, rank);
  }

  // ---- Chains of waits of any length ----

  /** Mutexes are ranked by their number. */
  function ByNumber(): Ranking {
    (m: MutexId) => m
  }

  function Threads(n: nat): (r: seq<Thread>)
    ensures |r| == n
  {
    seq(n, i => i)
  }

  ghost function IdleUpTo(n: nat): (r: map<Thread, Pc>)
    ensures forall t: Thread :: t in r <==> t <= n
    ensures forall t: Thread :: t <= n ==> r[t] == Idle
  {
    if n == 0 then map[0 := Idle] else IdleUpTo(n - 1)[n := Idle]
  }

  ghost function Below(n: nat): (r: set<MutexId>)
    ensures forall m: MutexId :: m in r <==> m < n
  {
    if n == 0 then {} else Below(n - 1) + {n - 1}
  }

  /** Thread i is blocked on mutex i, which the next thread holds. */
  ghost predicate LinkAt(s: State, i: nat) {
    WaitsFor(s, i, i, i + 1) && s.mx[i].writers == multiset{i + 1}
  }

  /** Threads up to size, of which 0 to n - 1 are blocked, each on the mutex of its own number,
      which the next thread holds; the others are idle, and there is no other mutex. */
  ghost predicate Chained(s: State, n: nat, size: nat) {
    && s.pc.Keys == IdleUpTo(size).Keys && s.mx.Keys == Below(n)
    && (forall t: Thread :: n <= t <= size ==> s.pc[t] == Idle)
    && (forall i: nat :: i < n ==> LinkAt(s, i))
  }

  /** One more link: the next thread takes the next mutex, and the idle one wants it. */
  function Link(n: nat): seq<Step> {
    [Init(n), LockCall(n + 1, n), LockSection(n + 1), LockCall(n, n)]
  }

  function HeldBy(t: Thread): Mx {
    Mx(-1, [], multiset{t}, multiset{})
  }

  lemma ChainHolds(s: State, n: nat, size: nat, t: Thread)
    requires Chained(s, n, size)
    ensures t > n ==> Held(s, t) == {}
    ensures forall l :: l in Held(s, n) ==> l < n
  {
    forall l | l in Held(s, t) ensures t <= n {
      assert LinkAt(s, l);
    }
  }

  /** The state after the link. */
  ghost function AfterLink(s: State, n: nat): State {
    s.(pc := s.pc[n + 1 := Idle][n := Retry(n, false, false)], mx := s.mx[n := HeldBy(n + 1)])
  }

  lemma LinkStays(s: State, n: nat, size: nat, i: nat)
    requires Chained(s, n, size) && n < size && i <= n
    ensures LinkAt(AfterLink(s, n), i)
  {
    if i < n {
      assert LinkAt(s, i);
    }
  }

  lemma ChainedOn(s: State, n: nat, size: nat)
    requires Chained(s, n, size) && n < size
    ensures Chained(AfterLink(s, n), n + 1, size)
  {
    var s' := AfterLink(s, n);
    assert s'.pc.Keys == s.pc.Keys && s'.mx.Keys == s.mx.Keys + {n};
    forall i: nat | i < n + 1 ensures LinkAt(s', i) {
      LinkStays(s, n, size, i);
    }
  }

  lemma InitStep(s: State, n: nat)
    requires n !in s.mx
    ensures Proper(s, Init(n), ByNumber()) && Apply(s, Init(n)) == s.(mx := s.mx[n := EmptyMx()])
  {
  }

  /** An idle thread calls mutex_lock. */
  lemma CallStep(s: State, t: Thread, m: MutexId)
    requires t in s.pc && s.pc[t] == Idle && m in s.mx && forall l :: l in Held(s, t) ==> l < m
    ensures Proper(s, LockCall(t, m), ByNumber())
    ensures Apply(s, LockCall(t, m)) == s.(pc := s.pc[t := Retry(m, false, false)])
  {
    assert s.mx[m := s.mx[m]] == s.mx;
  }

  /** And gets a free mutex. */
  lemma SectionStep(s: State, t: Thread, m: MutexId)
    requires t in s.pc && s.pc[t] == Retry(m, false, false) && m in s.mx && s.mx[m] == EmptyMx()
    ensures Proper(s, LockSection(t), ByNumber())
    ensures Apply(s, LockSection(t)) == s.(pc := s.pc[t := Idle], mx := s.mx[m := HeldBy(t)])
  {
    assert multiset{} + multiset{t} == multiset{t};
  }

  lemma Linked(s: State, n: nat, size: nat)
    requires Chained(s, n, size) && n < size
    ensures OrderedTo(s, Link(n), AfterLink(s, n), ByNumber())
  {
    ChainHolds(s, n, size, n + 1);
    var s1 := s.(mx := s.mx[n := EmptyMx()]);
    var s2 := s1.(pc := s1.pc[n + 1 := Retry(n, false, false)]);
    var s3 := s1.(pc := s.pc[n + 1 := Idle], mx := s.mx[n := HeldBy(n + 1)]);
    InitStep(s, n);
    HeldInit(s, n, n + 1);
    CallStep(s1, n + 1, n);
    SectionStep(s2, n + 1, n);
    SameStates(s, n, s2, s3);
    HeldOn(s, n, s3);
    CallStep(s3, n, n);
    LinkSteps(s, s1, s2, s3, AfterLink(s, n), n);
  }

  lemma SameStates(s: State, n: nat, s2: State, s3: State)
    requires s2.pc == s.pc[n + 1 := Retry(n, false, false)] && s2.mx == s.mx[n := EmptyMx()] && s2.cvm == s.cvm
    requires s3.pc == s.pc[n + 1 := Idle] && s3.mx == s.mx[n := HeldBy(n + 1)] && s3.cvm == s.cvm
    ensures s2.(pc := s2.pc[n + 1 := Idle], mx := s2.mx[n := HeldBy(n + 1)]) == s3
  {
    assert s2.pc[n + 1 := Idle] == s3.pc && s2.mx[n := HeldBy(n + 1)] == s3.mx;
  }

  lemma HeldOn(s: State, n: nat, s3: State)
    requires n !in s.mx && s3.mx == s.mx[n := HeldBy(n + 1)]
    ensures Held(s3, n) == Held(s, n)
  {
  }

  lemma LinkSteps(s: State, s1: State, s2: State, s3: State, s4: State, n: nat)
    requires Proper(s, Init(n), ByNumber()) && s1 == Apply(s, Init(n))
    requires Proper(s1, LockCall(n + 1, n), ByNumber()) && s2 == Apply(s1, LockCall(n + 1, n))
    requires Proper(s2, LockSection(n + 1), ByNumber()) && s3 == Apply(s2, LockSection(n + 1))
    requires Proper(s3, LockCall(n, n), ByNumber()) && s4 == Apply(s3, LockCall(n, n))
    ensures OrderedTo(s, Link(n), s4, ByNumber())
  {
    assert OrderedTo(s4, [], s4, ByNumber());
    OrderedFirst(s3, LockCall(n, n), [], s4, ByNumber());
    OrderedFirst(s2, LockSection(n + 1), [LockCall(n, n)] + [], s4, ByNumber());
    OrderedFirst(s1, LockCall(n + 1, n), [LockSection(n + 1)] + ([LockCall(n, n)] + []), s4, ByNumber());
    OrderedFirst(s, Init(n), [LockCall(n + 1, n)] + ([LockSection(n + 1)] + ([LockCall(n, n)] + [])), s4, ByNumber());
    assert Link(n) == [Init(n)] + ([LockCall(n + 1, n)] + ([LockSection(n + 1)] + ([LockCall(n, n)] + [])));
  }

  ghost predicate OrderedTo(s: State, steps: seq<Step>, w: State, rank: Ranking) {
    OrderedRun(s, steps, rank) && Reaches(s, steps, w)
  }

  lemma OrderedFirst(s: State, st: Step, rest: seq<Step>, w: State, rank: Ranking)
    requires Proper(s, st, rank) && OrderedTo(Apply(s, st), rest, w, rank)
    ensures OrderedTo(s, [st] + rest, w, rank)
  {
    assert ([st] + rest)[1..] == rest;
  }

  lemma {:induction false} OrderedJoin(s: State, a: seq<Step>, r: State, b: seq<Step>, w: State, rank: Ranking)
    requires OrderedTo(s, a, r, rank) && OrderedTo(r, b, w, rank)
    ensures OrderedTo(s, a + b, w, rank)
    decreases |a|
  {
    if a == [] {
      assert a + b == b;
    } else {
      OrderedJoin(Apply(s, a[0]), a[1..], r, b, w, rank);
      OrderedFirst(s, a[0], a[1..] + b, w, rank);
      assert a + b == [a[0]] + (a[1..] + b);
    }
  }

  /** An ordered run to a chain of n links. */
  ghost predicate Grown(s0: State, steps: seq<Step>, s: State, n: nat, size: nat) {
    OrderedTo(s0, steps, s, ByNumber()) && Chained(s, n, size)
  }

  lemma GrowsOne(s0: State, a: seq<Step>, r: State, n: nat, size: nat) returns (steps: seq<Step>, s: State)
    requires Grown(s0, a, r, n, size) && n < size
    ensures Grown(s0, steps, s, n + 1, size)
  {
    Linked(r, n, size);
    ChainedOn(r, n, size);
    OrderedJoin(s0, a, r, Link(n), AfterLink(r, n), ByNumber());
    steps, s := a + Link(n), AfterLink(r, n);
  }

  lemma GrowsFrom(s0: State, size: nat)
    requires Chained(s0, 0, size)
    ensures Grown(s0, [], s0, 0, size)
  {
  }

  lemma {:induction false} ChainGrows(s0: State, n: nat, size: nat) returns (steps: seq<Step>, s: State)
    requires Chained(s0, 0, size) && n <= size
    ensures Grown(s0, steps, s, n, size)
    decreases n
  {
    if n == 0 {
      steps, s := [], s0;
      GrowsFrom(s0, size);
    } else {
      steps, s := ChainGrows(s0, n - 1, size);
      steps, s := GrowsOne(s0, steps, s, n - 1, size);
    }
  }

  lemma {:induction false} SameEnd(d: Sys, steps: seq<Step>, d': Sys, s': State)
    requires SysReaches(d, steps, d') && Reaches(d.s, steps, s')
    ensures d'.s == s'
    decreases |steps|
  {
    if steps != [] {
      assert SysApply(d, steps[0]).s == Apply(d.s, steps[0]);
      SameEnd(SysApply(d, steps[0]), steps[1..], d', s');
    }
  }

  /** For every n there is a run, with the detector attached, to a chain of waits of n links. */
  lemma ChainsHappen(n: nat) returns (d0: Sys, steps: seq<Step>, d: Sys, ts: seq<Thread>, ms: seq<MutexId>)
    ensures SysInitial(d0) && SysReaches(d0, steps, d) && WaitChain(d.s, ts, ms) && |ms| == n
  {
    var pcs := IdleUpTo(n);
    d0 := Sys(State(pcs, map[], map[]), map[], map t: Thread | t in pcs :: []);
    var s;
    steps, s := ChainGrows(d0.s, n, n);
    d := OrderedNeverStopped(d0, steps, ByNumber());
    SameEnd(d0, steps, d, s);
    ts, ms := Threads(n + 1), Threads(n);
    forall i | 0 <= i < |ms| ensures WaitsFor(d.s, ts[i], ms[i], ts[i + 1]) {
      assert LinkAt(d.s, i);
    }
  }
}
