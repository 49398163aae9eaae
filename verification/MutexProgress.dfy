/** Consequences of the mutex invariant: a free mutex with a waiter can always be handed
    on by threads already inside the mutex code, and a condvar signal needs the mutex. */
module MutexProgress {
  import opened Common
  import opened WaitQueue
  import opened Mutex

  /** Steps of threads that are already inside the mutex code. */
  predicate Internal(st: Step) {
    st.LockSection? || st.WakeScan? || st.WaitCheck? || st.RelockCall?
  }

  ghost predicate AllInternal(steps: seq<Step>) {
    forall i :: 0 <= i < |steps| ==> Internal(steps[i])
  }

  lemma Prepend(s: State, st: Step, rest: seq<Step>, s': State)
    requires Enabled(s, st) && Internal(st) && Reaches(Apply(s, st), rest, s') && AllInternal(rest)
    ensures Reaches(s, [st] + rest, s') && AllInternal([st] + rest)
  {
    assert ([st] + rest)[1..] == rest;
  }

  /** Thread t holds the mutex, alone. */
  ghost predicate Alone(x: Mx, t: Thread) {
    AloneTo(x, t, true) || AloneTo(x, t, false)
  }

  /** For reading, or for writing. */
  ghost predicate AloneTo(x: Mx, t: Thread, read: bool) {
    if read then x.state == 1 && t in x.readers else x.state == -1 && t in x.writers
  }

  /** The element of a sleeper says what it wants. */
  ghost predicate KindAgrees(s: State, m: MutexId, i: nat)
    requires m in s.mx && i < |s.mx[m].wq|
  {
    var e := s.mx[m].wq[i];
    e.handle in s.pc && SleepsOn(s.pc[e.handle], m) && SleepsToRead(s.pc[e.handle]) == e.waitRead
  }

  lemma SleeperAgrees(s: State, m: MutexId, i: nat)
    requires Inv(s) && m in s.mx && i < |s.mx[m].wq|
    ensures KindAgrees(s, m, i)
  {
    var t := s.mx[m].wq[i].handle;
    assert MutexInv(s, m);
    assert ThreadInv(s.pc[t], t, s.mx[m]);
  }

  /** The element is the same thread's, and waits for no signal if it did not before. */
  predicate SameWaiter(e: Elem, f: Elem) {
    f.handle == e.handle && f.waitRead == e.waitRead && (e.cv.None? ==> f.cv.None?)
  }

  /** Queue r is q without its i-th waiter. */
  ghost predicate LeftQueue(q: seq<Elem>, i: nat, r: seq<Elem>) {
    i < |q| && |r| + 1 == |q| && forall j :: 0 <= j < |r| ==> SameWaiter(q[if j < i then j else j + 1], r[j])
  }

  /** A thread at the top of the lock loop, or about to call mutex_lock, gets a free mutex. */
  lemma RetryTakes(s: State, t: Thread, m: MutexId) returns (steps: seq<Step>, s': State)
    requires t in s.pc && m in s.mx && s.mx[m].state == 0
    requires s.pc[t] == Relock(m) || (s.pc[t].Retry? && s.pc[t].m == m)
    ensures Reaches(s, steps, s') && AllInternal(steps) && m in s'.mx && Holds(s'.mx[m], t)
    ensures AloneTo(s'.mx[m], t, s.pc[t].Retry? && s.pc[t].read)
    ensures t in s'.pc && s'.pc[t] == Idle && s'.mx[m].wq == s.mx[m].wq
    decreases s.pc[t].Relock?
  {
    if s.pc[t].Retry? {
      var s1 := Apply(s, LockSection(t));
      assert Reaches(s1, [], s1);
      Prepend(s, LockSection(t), [], s1);
      steps, s' := [LockSection(t)] + [], s1;
    } else {
      var rest;
      rest, s' := RetryTakes(Apply(s, RelockCall(t)), t, m);
      Prepend(s, RelockCall(t), rest, s');
      steps := [RelockCall(t)] + rest;
    }
  }

  /** A woken sleeper finishes the wake-ups it still owes, leaves its sleep and gets the mutex. */
  lemma {:induction false} WokenTakes(s: State, m: MutexId, i: nat) returns (steps: seq<Step>, s': State, t: Thread)
    requires m in s.mx && s.mx[m].state == 0 && i < |s.mx[m].wq| && WokenSleeper(s, m, i)
    requires KindAgrees(s, m, i)
    ensures Reaches(s, steps, s') && AllInternal(steps) && m in s'.mx && Holds(s'.mx[m], t)
    ensures t == s.mx[m].wq[i].handle && AloneTo(s'.mx[m], t, s.mx[m].wq[i].waitRead)
    ensures t in s'.pc && s'.pc[t] == Idle
    ensures LeftQueue(s.mx[m].wq, i, s'.mx[m].wq)
    decreases ScansLeft(s, m, i)
  {
    var q := s.mx[m].wq;
    t := q[i].handle;
    var st := if s.pc[t].Asleep? then WaitCheck(t, i) else WakeScan(t);
    var s1 := Apply(s, st);
    var rest;
    if s.pc[t].Asleep? {
      rest, s' := RetryTakes(s1, t, m);
    } else {
      assert s1.mx[m].wq[i].done && s1.mx[m].wq[i].handle == t;
      if s1.pc[t].Waking? && s.pc[t].kind == Some(true) {
        ScanProgress(q);
      }
      rest, s', t := WokenTakes(s1, m, i);
      LeftLater(q, s1.mx[m].wq, i, s'.mx[m].wq);
    }
    Prepend(s, st, rest, s');
    steps := [st] + rest;
  }

  lemma LeftLater(q: seq<Elem>, q1: seq<Elem>, i: nat, r: seq<Elem>)
    requires |q| == |q1| && LeftQueue(q1, i, r) && forall j :: 0 <= j < |q| ==> SameWaiter(q[j], q1[j])
    ensures LeftQueue(q, i, r)
  {
    forall j | 0 <= j < |r| ensures SameWaiter(q[if j < i then j else j + 1], r[j]) {
      var k := if j < i then j else j + 1;
      assert SameWaiter(q[k], q1[k]) && SameWaiter(q1[k], r[j]);
    }
  }

  /** Bound on the wake-up scans the owner of an element still makes before it sleeps. */
  ghost function ScansLeft(s: State, m: MutexId, i: nat): nat
    requires m in s.mx && i < |s.mx[m].wq| && WokenSleeper(s, m, i)
  {
    var q := s.mx[m].wq;
    var p := s.pc[q[i].handle];
    if p.Asleep? then 0
    else if p.kind == Some(true) then 1 + |q| - First(q, Some(true), 0)
    else 2 + |q|
  }

  /** A first scan marks a waiter, which then takes the mutex. */
  lemma WakerHandsOn(s: State, u: Thread, m: MutexId) returns (steps: seq<Step>, s': State, t: Thread)
    requires Inv(s) && u in s.pc && s.pc[u].Waking? && s.pc[u].m == m && s.pc[u].kind.None?
    requires m in s.mx && s.mx[m].state == 0 && HasActive(s.mx[m].wq)
    ensures Reaches(s, steps, s') && AllInternal(steps) && m in s'.mx && Holds(s'.mx[m], t)
  {
    var st := WakeScan(u);
    var s1 := Apply(s, st);
    StepKeepsInv(s, st);
    assert MutexInv(s1, m);
    FirstScanWakes(s.mx[m].wq);
    var i :| 0 <= i < |s1.mx[m].wq| && s1.mx[m].wq[i].done;
    assert WokenSleeper(s1, m, i);
    SleeperAgrees(s1, m, i);
    var rest;
    rest, s', t := WokenTakes(s1, m, i);
    Prepend(s, st, rest, s');
    steps := [st] + rest;
  }

  /** In every reachable state, a free mutex with an active waiter can be taken by a
      finite schedule that needs no new call from outside: nobody sleeps forever beside
      a free mutex unless the scheduler stops running the threads it names. */
  lemma FreeMutexIsHandedOn(s0: State, steps0: seq<Step>, s: State, m: MutexId)
    returns (steps: seq<Step>, s': State, t: Thread)
    requires Initial(s0) && Reaches(s0, steps0, s)
    requires m in s.mx && s.mx[m].state == 0 && HasActive(s.mx[m].wq)
    ensures Reaches(s, steps, s') && AllInternal(steps) && m in s'.mx && Holds(s'.mx[m], t)
  {
    NoLostWakeup(s0, steps0, s, m);
    RunKeepsInv(s0, steps0, s);
    if i :| 0 <= i < |s.mx[m].wq| && WokenSleeper(s, m, i) {
      SleeperAgrees(s, m, i);
      steps, s', t := WokenTakes(s, m, i);
    } else {
      t :| t in s.pc && Poised(s.pc[t], m);
      if s.pc[t].Waking? {
        steps, s', t := WakerHandsOn(s, t, m);
      } else {
        steps, s' := RetryTakes(s, t, m);
      }
    }
  }

  /** A signal promotes some waiter of its condvar. */
  lemma {:induction false} PromotesSome(q: seq<Elem>, cv: CondVar, onlyOne: bool, i: nat, j: nat)
    requires i <= j < |q| && q[j].cv == Some(cv) && MarkedPlain(q)
    ensures HasActive(Promote(q, cv, onlyOne, i))
    decreases |q| - i
  {
    if q[i].cv == Some(cv) {
      var r := q[i := q[i].(cv := None)];
      var p := Promote(q, cv, onlyOne, i);
      assert p[i] == r[i] by {
        if !onlyOne {
          assert p[..i + 1] == r[..i + 1];
          assert p[..i + 1][i] == p[i] && r[..i + 1][i] == r[i];
        }
      }
      assert Active(p[i]);
    } else {
      PromotesSome(q, cv, onlyOne, i + 1, j);
    }
  }

  /** Why a signaller has to hold the mutex: from every state of the invariant, a promotion by
      anybody keeps the no-lost-wakeup condition exactly when the mutex is held, a waiter is
      already marked done, a wake-up is under way, or nobody waits for the condvar. */
  lemma UnheldSignalLosesWakeup(s: State, m: MutexId, cv: CondVar, onlyOne: bool)
    requires Inv(s) && m in s.mx
    ensures NoLost(s.pc, m, s.mx[m].(wq := Promote(s.mx[m].wq, cv, onlyOne, 0)))
            <==> || s.mx[m].state != 0 || HasDone(s.mx[m].wq) || (exists t :: t in s.pc && Poised(s.pc[t], m))
                 || forall j :: 0 <= j < |s.mx[m].wq| ==> s.mx[m].wq[j].cv != Some(cv)
  {
    var q := s.mx[m].wq;
    var r := Promote(q, cv, onlyOne, 0);
    assert MutexInv(s, m);
    if HasDone(q) {
      var i :| 0 <= i < |q| && q[i].done;
      assert r[i].done;
    } else if j :| 0 <= j < |q| && q[j].cv == Some(cv) {
      PromotesSome(q, cv, onlyOne, 0, j);
      assert !HasDone(r);
    } else {
      assert r == q;
    }
  }

  lemma {:induction false} OneMore(s: State, steps: seq<Step>, s1: State, st: Step)
    requires Reaches(s, steps, s1) && Enabled(s1, st)
    ensures Reaches(s, steps + [st], Apply(s1, st))
    decreases |steps|
  {
    if steps == [] {
      assert [st][1..] == [];
    } else {
      assert (steps + [st])[1..] == steps[1..] + [st];
      OneMore(Apply(s, steps[0]), steps[1..], s1, st);
    }
  }

  /** A thread t, an idle thread u, and one mutex. */
  ghost function Pair(t: Thread, p: Pc, u: Thread, m: MutexId, x: Mx, cvm: map<CondVar, MutexId>): State {
    State(map[t := p, u := Idle], map[m := x], cvm)
  }

  function HeldBy(t: Thread): Mx {
    Mx(-1, [], multiset{t}, multiset{})
  }

  lemma HolderReached(t: Thread, u: Thread, m: MutexId) returns (s0: State, steps: seq<Step>)
    requires t != u
    ensures Initial(s0) && Reaches(s0, steps, Pair(t, Idle, u, m, HeldBy(t), map[]))
  {
    s0 := State(map[t := Idle, u := Idle], map[], map[]);
    var s1, s2 := Pair(t, Idle, u, m, EmptyMx(), map[]), Pair(t, Retry(m, false, false), u, m, EmptyMx(), map[]);
    assert Apply(s0, Init(m)) == s1;
    assert Apply(s1, LockCall(t, m)) == s2;
    assert Take(EmptyMx(), t, false) == HeldBy(t) by {
      assert multiset{} + multiset{t} == multiset{t};
    }
    assert s2.mx[m := HeldBy(t)] == map[m := HeldBy(t)] && s2.pc[t := Idle] == map[t := Idle, u := Idle];
    assert Apply(s2, LockSection(t)) == Pair(t, Idle, u, m, HeldBy(t), map[]);
    OneMore(s0, [], s0, Init(m));
    OneMore(s0, [] + [Init(m)], s1, LockCall(t, m));
    OneMore(s0, [] + [Init(m)] + [LockCall(t, m)], s2, LockSection(t));
    steps := [] + [Init(m)] + [LockCall(t, m)] + [LockSection(t)];
  }

  /** The queue with a condvar waiter, and the mutex free. */
  function WaitedFor(t: Thread, cv: CondVar): Mx {
    Mx(0, [Elem(t, false, false, Some(cv))], multiset{}, multiset{})
  }

  lemma ReleaseStep(t: Thread, u: Thread, m: MutexId, cv: CondVar)
    requires t != u
    ensures var s := Pair(t, CvReleasing(m, cv), u, m, HeldBy(t), map[cv := m]);
            && Enabled(s, CvRelease(t))
            && Apply(s, CvRelease(t)) == Pair(t, Waking(m, None, Sleep(false)), u, m, WaitedFor(t, cv), map[cv := m])
  {
    var s := Pair(t, CvReleasing(m, cv), u, m, HeldBy(t), map[cv := m]);
    var w := Waking(m, None, Sleep(false));
    assert CvDrop(Enqueue(HeldBy(t), t, false, Some(cv)), t) == WaitedFor(t, cv) by {
      assert multiset{t} - multiset{t} == multiset{};
    }
    assert s.mx[m := WaitedFor(t, cv)] == map[m := WaitedFor(t, cv)] && s.pc[t := w] == map[t := w, u := Idle];
  }

  lemma ScanStep(t: Thread, u: Thread, m: MutexId, cv: CondVar)
    requires t != u
    ensures var s := Pair(t, Waking(m, None, Sleep(false)), u, m, WaitedFor(t, cv), map[cv := m]);
            && Enabled(s, WakeScan(t))
            && Apply(s, WakeScan(t)) == Pair(t, Asleep(m, false, true), u, m, WaitedFor(t, cv), map[cv := m])
  {
  }

  /** A thread asleep on a condvar beside a free mutex. */
  lemma CondvarSleeper(t: Thread, u: Thread, m: MutexId, cv: CondVar) returns (s0: State, steps: seq<Step>)
    requires t != u
    ensures Initial(s0) && Reaches(s0, steps, Pair(t, Asleep(m, false, true), u, m, WaitedFor(t, cv), map[cv := m]))
  {
    s0, steps := HolderReached(t, u, m);
    var s3 := Pair(t, Idle, u, m, HeldBy(t), map[]);
    assert Apply(s3, CvWaitCall(t, m, cv)) == Pair(t, CvReleasing(m, cv), u, m, HeldBy(t), map[cv := m]);
    OneMore(s0, steps, s3, CvWaitCall(t, m, cv));
    ReleaseStep(t, u, m, cv);
    ScanStep(t, u, m, cv);
    steps := steps + [CvWaitCall(t, m, cv)];
    OneMore(s0, steps, Pair(t, CvReleasing(m, cv), u, m, HeldBy(t), map[cv := m]), CvRelease(t));
    steps := steps + [CvRelease(t)];
    OneMore(s0, steps, Pair(t, Waking(m, None, Sleep(false)), u, m, WaitedFor(t, cv), map[cv := m]), WakeScan(t));
    steps := steps + [WakeScan(t)];
  }

  /** Thread u can call signal, but does not hold the mutex. */
  ghost predicate UnheldSignaller(s: State, u: Thread, cv: CondVar, m: MutexId) {
    u in s.pc && s.pc[u] == Idle && cv in s.cvm && s.cvm[cv] == m && m in s.mx && !Holds(s.mx[m], u)
  }

  /** There a signal by a second thread, without the mutex, is lost. */
  lemma LostSignalHappens(t: Thread, u: Thread, m: MutexId, cv: CondVar)
    returns (s0: State, steps: seq<Step>, s: State)
    requires t != u
    ensures Initial(s0) && Reaches(s0, steps, s) && UnheldSignaller(s, u, cv, m)
    ensures !NoLost(s.pc, m, s.mx[m].(wq := Promote(s.mx[m].wq, cv, true, 0)))
  {
    s0, steps := CondvarSleeper(t, u, m, cv);
    s := Pair(t, Asleep(m, false, true), u, m, WaitedFor(t, cv), map[cv := m]);
    RunKeepsInv(s0, steps, s);
    UnheldSignalLosesWakeup(s, m, cv, true);
    assert s.mx[m].wq[0].cv == Some(cv);
  }
}
