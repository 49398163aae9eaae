/** The reader/writer mutex and condition variables of core/kernel/mutex.c as a state
    machine.  Any number of threads, mutexes and condvars; each spinlock-protected
    section is one atomic step.  Sleeping in normal world may end at any time: only a
    wake-up mark in the queue element lets a thread leave wq_wait_final.

    Caller discipline is part of what enables a step: only a holder unlocks or waits
    on a condvar, and a condvar is signalled by a holder of its mutex. */
module Mutex {
  import opened Common
  import opened WaitQueue

  type MutexId = nat

  /** struct mutex, with the threads that hold it. */
  datatype Mx = Mx(state: int, wq: seq<Elem>, writers: multiset<Thread>, readers: multiset<Thread>)

  /** What follows wq_wake_next: the return to the caller, or the condvar sleep. */
  datatype After = Return | Sleep(read: bool)

  /** Where a thread is between two atomic sections. */
  datatype Pc =
    | Idle                                              // outside the mutex code
    | Retry(m: MutexId, read: bool, woken: bool)        // top of the lock loop; woken: after a sleep
    | Asleep(m: MutexId, read: bool, relock: bool)      // in wq_wait_final; relock: from condvar_wait
    | TryTaken(m: MutexId)                              // trylock succeeded, hook not yet run
    | Releasing(m: MutexId)                             // unlock hook run, mutex not yet released
    | CvReleasing(m: MutexId, cv: CondVar)              // condvar_wait before its locked section
    | Waking(m: MutexId, kind: Option<bool>, after: After)
    | Relock(m: MutexId)                                // condvar_wait about to call mutex_lock

  datatype State = State(pc: map<Thread, Pc>, mx: map<MutexId, Mx>, cvm: map<CondVar, MutexId>)

  datatype Step =
    | LockCall(t: Thread, m: MutexId)
    | ReadLockCall(t: Thread, m: MutexId)
    | LockSection(t: Thread)
    | TryLock(t: Thread, m: MutexId)
    | TryLockHook(t: Thread)
    | ReadTryLock(t: Thread, m: MutexId)
    | UnlockCall(t: Thread, m: MutexId)
    | UnlockSection(t: Thread)
    | ReadUnlock(t: Thread, m: MutexId)
    | WakeScan(t: Thread)
    | WaitCheck(t: Thread, i: nat)
    | RelockCall(t: Thread)
    | CvWaitCall(t: Thread, m: MutexId, cv: CondVar)
    | CvRelease(t: Thread)
    | Signal(t: Thread, cv: CondVar, onlyOne: bool)
    | Init(m: MutexId)
    | Destroy(m: MutexId)

  // ---- Effect of the locked sections on the mutex ----

  function EmptyMx(): Mx {
    Mx(0, [], multiset{}, multiset{})
  }

  predicate CanLock(x: Mx, read: bool) {
    if read then x.state != -1 else x.state == 0
  }

  function Take(x: Mx, t: Thread, read: bool): Mx {
    if read then x.(state := x.state + 1, readers := x.readers + multiset{t})
    else x.(state := -1, writers := x.writers + multiset{t})
  }

  function Enqueue(x: Mx, t: Thread, read: bool, cv: Option<CondVar>): Mx {
    x.(wq := x.wq + [Elem(t, false, read, cv)])
  }

  function ReleaseWrite(x: Mx, t: Thread): Mx {
    x.(state := 0, writers := x.writers - multiset{t})
  }

  function ReleaseRead(x: Mx, t: Thread): Mx {
    x.(state := x.state - 1, readers := x.readers - multiset{t})
  }

  /** The release inside condvar_wait: by the sign of the state, not by the caller. */
  function CvDrop(x: Mx, t: Thread): Mx {
    if x.state > 0 then
      x.(state := if x.state > 1 then x.state - 1 else 0, readers := x.readers - multiset{t})
    else ReleaseWrite(x, t)
  }

  // ---- Steps ----

  predicate Holds(x: Mx, t: Thread) {
    t in x.writers || t in x.readers
  }

  /** The pc of a thread concerns mutex m. */
  predicate On(p: Pc, m: MutexId) {
    p != Idle && p.m == m
  }

  ghost predicate Enabled(s: State, st: Step) {
    match st
    case LockCall(t, m) => t in s.pc && s.pc[t] == Idle && m in s.mx
    case ReadLockCall(t, m) => t in s.pc && s.pc[t] == Idle && m in s.mx
    case LockSection(t) => t in s.pc && s.pc[t].Retry? && s.pc[t].m in s.mx
    case TryLock(t, m) => t in s.pc && s.pc[t] == Idle && m in s.mx
    case TryLockHook(t) => t in s.pc && s.pc[t].TryTaken? && s.pc[t].m in s.mx
    case ReadTryLock(t, m) => t in s.pc && s.pc[t] == Idle && m in s.mx
    case UnlockCall(t, m) => t in s.pc && s.pc[t] == Idle && m in s.mx && t in s.mx[m].writers
    case UnlockSection(t) => t in s.pc && s.pc[t].Releasing? && s.pc[t].m in s.mx
    case ReadUnlock(t, m) => t in s.pc && s.pc[t] == Idle && m in s.mx && t in s.mx[m].readers
    case WakeScan(t) => t in s.pc && s.pc[t].Waking? && s.pc[t].m in s.mx
    case WaitCheck(t, i) =>
      && t in s.pc && s.pc[t].Asleep? && s.pc[t].m in s.mx
      && var q := s.mx[s.pc[t].m].wq; i < |q| && q[i].handle == t && q[i].done
    case RelockCall(t) => t in s.pc && s.pc[t].Relock? && s.pc[t].m in s.mx
    case CvWaitCall(t, m, cv) =>
      && t in s.pc && s.pc[t] == Idle && m in s.mx && Holds(s.mx[m], t)
      && (cv in s.cvm ==> s.cvm[cv] == m)
    case CvRelease(t) => t in s.pc && s.pc[t].CvReleasing? && s.pc[t].m in s.mx
    case Signal(t, cv, onlyOne) =>
      && t in s.pc && s.pc[t] == Idle && cv in s.cvm
      && s.cvm[cv] in s.mx && Holds(s.mx[s.cvm[cv]], t)
    case Init(m) => m !in s.mx
    case Destroy(m) =>
      && m in s.mx && s.mx[m].state == 0 && s.mx[m].wq == []
      && forall t :: t in s.pc ==> !On(s.pc[t], m)
  }

  /** Thread t moves to p and mutex m becomes x. */
  function Upd(s: State, t: Thread, p: Pc, m: MutexId, x: Mx): State {
    s.(pc := s.pc[t := p], mx := s.mx[m := x])
  }

  function AfterWake(m: MutexId, after: After): Pc {
    match after
    case Return => Idle
    case Sleep(read) => Asleep(m, read, true)
  }

  ghost function Apply(s: State, st: Step): State
    requires Enabled(s, st)
  {
    match st
    case LockCall(t, m) => Upd(s, t, Retry(m, false, false), m, s.mx[m])
    case ReadLockCall(t, m) => Upd(s, t, Retry(m, true, false), m, s.mx[m])
    case LockSection(t) =>
      var m, read := s.pc[t].m, s.pc[t].read;
      if CanLock(s.mx[m], read) then Upd(s, t, Idle, m, Take(s.mx[m], t, read))
      else Upd(s, t, Asleep(m, read, false), m, Enqueue(s.mx[m], t, read, None))
    case TryLock(t, m) =>
      if CanLock(s.mx[m], false) then Upd(s, t, TryTaken(m), m, Take(s.mx[m], t, false)) else s
    case TryLockHook(t) => Upd(s, t, Idle, s.pc[t].m, s.mx[s.pc[t].m])
    case ReadTryLock(t, m) =>
      if CanLock(s.mx[m], true) then Upd(s, t, Idle, m, Take(s.mx[m], t, true)) else s
    case UnlockCall(t, m) => Upd(s, t, Releasing(m), m, s.mx[m])
    case UnlockSection(t) =>
      var m := s.pc[t].m;
      Upd(s, t, Waking(m, None, Return), m, ReleaseWrite(s.mx[m], t))
    case ReadUnlock(t, m) =>
      var x := ReleaseRead(s.mx[m], t);
      Upd(s, t, if x.state == 0 then Waking(m, None, Return) else Idle, m, x)
    case WakeScan(t) =>
      var Waking(m, kind, after) := s.pc[t];
      var q := s.mx[m].wq;
      var more := First(q, kind, 0) < |q| && WakeKind(q, kind) == Some(true);
      Upd(s, t, if more then Waking(m, Some(true), after) else AfterWake(m, after),
          m, s.mx[m].(wq := Wake(q, kind)))
    case WaitCheck(t, i) =>
      var Asleep(m, read, relock) := s.pc[t];
      Upd(s, t, if relock && !read then Relock(m) else Retry(m, read, true),
          m, s.mx[m].(wq := RemoveAt(s.mx[m].wq, i)))
    case RelockCall(t) => Upd(s, t, Retry(s.pc[t].m, false, true), s.pc[t].m, s.mx[s.pc[t].m])
    case CvWaitCall(t, m, cv) =>
      Upd(s, t, CvReleasing(m, cv), m, s.mx[m]).(cvm := s.cvm[cv := m])
    case CvRelease(t) =>
      var m, read := s.pc[t].m, s.mx[s.pc[t].m].state > 0;
      var x := CvDrop(Enqueue(s.mx[m], t, read, Some(s.pc[t].cv)), t);
      Upd(s, t, if x.state == 0 then Waking(m, None, Sleep(read)) else Asleep(m, read, true), m, x)
    case Signal(t, cv, onlyOne) =>
      var m := s.cvm[cv];
      Upd(s, t, Idle, m, s.mx[m].(wq := Promote(s.mx[m].wq, cv, onlyOne, 0)))
    case Init(m) => s.(mx := s.mx[m := EmptyMx()])
    case Destroy(m) => s.(mx := s.mx - {m})
  }

  // ---- Invariant ----

  /** The state word counts the holders: -1 one writer, n > 0 n readers, 0 nobody. */
  ghost predicate Accounted(x: Mx) {
    || (x.state == -1 && |x.writers| == 1 && |x.readers| == 0)
    || (x.state >= 0 && |x.writers| == 0 && |x.readers| == x.state)
  }

  /** The thread has an element in the queue of m. */
  predicate SleepsOn(p: Pc, m: MutexId) {
    On(p, m) && (p.Asleep? || (p.Waking? && p.after.Sleep?))
  }

  predicate SleepsToRead(p: Pc)
    requires p.Asleep? || (p.Waking? && p.after.Sleep?)
  {
    if p.Asleep? then p.read else p.after.read
  }

  /** Before the first scan of a wake-up, or woken and about to try for the mutex. */
  predicate Poised(p: Pc, m: MutexId) {
    On(p, m) && ((p.Retry? && p.woken) || p.Relock? || (p.Waking? && p.kind.None?))
  }

  /** The elements of the queue belong to different threads, each asleep on m. */
  ghost predicate Owners(pc: map<Thread, Pc>, m: MutexId, q: seq<Elem>) {
    && (forall i :: 0 <= i < |q| ==> q[i].handle in pc && SleepsOn(pc[q[i].handle], m))
    && (forall i, j :: 0 <= i < j < |q| ==> q[i].handle != q[j].handle)
  }

  ghost predicate IsQueued(q: seq<Elem>, t: Thread, read: bool) {
    exists i :: 0 <= i < |q| && q[i].handle == t && q[i].waitRead == read
  }

  /** No lost wakeup: a free mutex with an active waiter has a wake-up under way. */
  ghost predicate NoLost(pc: map<Thread, Pc>, m: MutexId, x: Mx) {
    x.state == 0 && HasActive(x.wq) ==> HasDone(x.wq) || exists t :: t in pc && Poised(pc[t], m)
  }

  /** Only plain waiters are marked. */
  ghost predicate MarkedPlain(q: seq<Elem>) {
    forall i :: 0 <= i < |q| ==> !(q[i].done && q[i].cv.Some?)
  }

  ghost predicate MutexInv(s: State, m: MutexId)
    requires m in s.mx
  {
    && Accounted(s.mx[m]) && Owners(s.pc, m, s.mx[m].wq) && MarkedPlain(s.mx[m].wq)
    && NoLost(s.pc, m, s.mx[m])
  }

  ghost predicate ThreadInv(p: Pc, t: Thread, x: Mx)
    requires p != Idle
  {
    && (p.Releasing? || p.TryTaken? ==> t in x.writers)
    && (p.CvReleasing? ==> Holds(x, t))
    && (SleepsOn(p, p.m) ==> IsQueued(x.wq, t, SleepsToRead(p)))
  }

  ghost predicate Inv(s: State) {
    && (forall m :: m in s.mx ==> MutexInv(s, m))
    && (forall t :: t in s.pc && s.pc[t] != Idle ==> s.pc[t].m in s.mx && ThreadInv(s.pc[t], t, s.mx[s.pc[t].m]))
  }

  // ---- Preservation ----

  /** What a move of t and a change of m must respect for the other threads and mutexes. */
  ghost predicate LocalStep(s: State, t: Thread, p: Pc, m: MutexId, x: Mx) {
    && t in s.pc && m in s.mx
    && (s.pc[t] == Idle || s.pc[t].m == m) && (p == Idle || p.m == m)
    && (forall u :: u != t ==> x.writers[u] == s.mx[m].writers[u] && x.readers[u] == s.mx[m].readers[u])
    && (forall u, r :: u != t && IsQueued(s.mx[m].wq, u, r) ==> IsQueued(x.wq, u, r))
  }

  lemma LocalStepKeepsInv(s: State, t: Thread, p: Pc, m: MutexId, x: Mx)
    requires Inv(s) && LocalStep(s, t, p, m, x)
    requires MutexInv(Upd(s, t, p, m, x), m)
    requires p != Idle ==> ThreadInv(p, t, x)
    ensures Inv(Upd(s, t, p, m, x))
  {
    var s' := Upd(s, t, p, m, x);
    forall m' | m' in s'.mx ensures MutexInv(s', m') {
      if m' != m {
        assert MutexInv(s, m');
        var q := s.mx[m'].wq;
        forall i | 0 <= i < |q| ensures q[i].handle in s'.pc && SleepsOn(s'.pc[q[i].handle], m') {
        }
        if exists u :: u in s.pc && Poised(s.pc[u], m') {
          var u :| u in s.pc && Poised(s.pc[u], m');
          assert u in s'.pc && Poised(s'.pc[u], m');
        }
      }
    }
    forall u | u in s'.pc && s'.pc[u] != Idle
      ensures s'.pc[u].m in s'.mx && ThreadInv(s'.pc[u], u, s'.mx[s'.pc[u].m])
    {
      if u != t && s.pc[u].m == m {
        assert ThreadInv(s.pc[u], u, s.mx[m]);
      }
    }
  }

  // -- the four ways a step changes a queue --

  /** Elements keep their thread and kind. */
  ghost predicate SameSleepers(q: seq<Elem>, q': seq<Elem>) {
    |q'| == |q| && forall i :: 0 <= i < |q| ==> q'[i].handle == q[i].handle && q'[i].waitRead == q[i].waitRead
  }

  /** The threads other than t are queued as before. */
  ghost predicate OthersQueued(q: seq<Elem>, t: Thread, q': seq<Elem>) {
    forall u, r :: u != t && IsQueued(q, u, r) ==> IsQueued(q', u, r)
  }

  lemma SameSleepersKeep(pc: map<Thread, Pc>, m: MutexId, q: seq<Elem>, t: Thread, p: Pc, q': seq<Elem>)
    requires Owners(pc, m, q) && SameSleepers(q, q') && t in pc && SleepsOn(pc[t], m) == SleepsOn(p, m)
    ensures Owners(pc[t := p], m, q') && OthersQueued(q, t, q')
    ensures forall r :: IsQueued(q, t, r) ==> IsQueued(q', t, r)
  {
    forall u, r | IsQueued(q, u, r) ensures IsQueued(q', u, r) {
      var i :| 0 <= i < |q| && q[i].handle == u && q[i].waitRead == r;
      assert q'[i].handle == u && q'[i].waitRead == r;
    }
  }

  lemma AppendKeeps(pc: map<Thread, Pc>, m: MutexId, q: seq<Elem>, t: Thread, p: Pc, e: Elem)
    requires Owners(pc, m, q) && t in pc && !SleepsOn(pc[t], m) && SleepsOn(p, m) && e.handle == t
    ensures Owners(pc[t := p], m, q + [e]) && OthersQueued(q, t, q + [e])
    ensures IsQueued(q + [e], t, e.waitRead)
  {
    var q' := q + [e];
    assert q'[|q|] == e;
    forall u, r | IsQueued(q, u, r) ensures IsQueued(q', u, r) {
      var i :| 0 <= i < |q| && q[i].handle == u && q[i].waitRead == r;
      assert q'[i].handle == u && q'[i].waitRead == r;
    }
  }

  lemma RemoveKeeps(pc: map<Thread, Pc>, m: MutexId, q: seq<Elem>, t: Thread, p: Pc, k: nat)
    requires Owners(pc, m, q) && k < |q| && q[k].handle == t && t in pc && !SleepsOn(p, m)
    ensures Owners(pc[t := p], m, RemoveAt(q, k)) && OthersQueued(q, t, RemoveAt(q, k))
  {
    var q' := RemoveAt(q, k);
    forall u, r | u != t && IsQueued(q, u, r) ensures IsQueued(q', u, r) {
      var i :| 0 <= i < |q| && q[i].handle == u && q[i].waitRead == r;
      var i' := if i < k then i else i - 1;
      assert q'[i'] == q[i];
    }
    forall i | 0 <= i < |q'| ensures q'[i].handle in pc[t := p] && SleepsOn(pc[t := p][q'[i].handle], m) {
      var i' := if i < k then i else i + 1;
      assert q'[i] == q[i'] && i' != k;
    }
  }

  // -- steps that leave the queue alone --

  lemma MoveKeepsInv(s: State, t: Thread, p: Pc, m: MutexId, x: Mx)
    requires Inv(s) && t in s.pc && m in s.mx
    requires (s.pc[t] == Idle || s.pc[t].m == m) && (p == Idle || p.m == m)
    requires !SleepsOn(s.pc[t], m) && !SleepsOn(p, m) && x.wq == s.mx[m].wq
    requires forall u :: u != t ==> x.writers[u] == s.mx[m].writers[u] && x.readers[u] == s.mx[m].readers[u]
    requires Accounted(x) && (p != Idle ==> ThreadInv(p, t, x))
    requires x.state != 0 || Poised(p, m) || (s.mx[m].state == 0 && !Poised(s.pc[t], m))
    ensures Inv(Upd(s, t, p, m, x))
  {
    var s' := Upd(s, t, p, m, x);
    SameSleepersKeep(s.pc, m, x.wq, t, p, x.wq);
    assert NoLost(s'.pc, m, x) by {
      if x.state == 0 && HasActive(x.wq) && !HasDone(x.wq) {
        if Poised(p, m) {
          assert t in s'.pc && Poised(s'.pc[t], m);
        } else {
          assert NoLost(s.pc, m, s.mx[m]);
          var u :| u in s.pc && Poised(s.pc[u], m);
          assert u in s'.pc && Poised(s'.pc[u], m);
        }
      }
    }
    LocalStepKeepsInv(s, t, p, m, x);
  }

  lemma CallKeepsInv(s: State, st: Step)
    requires Inv(s) && Enabled(s, st)
    requires st.LockCall? || st.ReadLockCall? || st.TryLockHook? || st.UnlockCall? || st.RelockCall?
    ensures Inv(Apply(s, st))
  {
    var p := Apply(s, st).pc[st.t];
    var m := if st.TryLockHook? || st.RelockCall? then s.pc[st.t].m else st.m;
    assert MutexInv(s, m);
    MoveKeepsInv(s, st.t, p, m, s.mx[m]);
  }

  lemma CvWaitCallKeepsInv(s: State, st: Step)
    requires Inv(s) && Enabled(s, st) && st.CvWaitCall?
    ensures Inv(Apply(s, st))
  {
    assert MutexInv(s, st.m);
    MoveKeepsInv(s, st.t, CvReleasing(st.m, st.cv), st.m, s.mx[st.m]);
    var s1 := Upd(s, st.t, CvReleasing(st.m, st.cv), st.m, s.mx[st.m]);
    CvmIrrelevant(s1, s1.cvm[st.cv := st.m]);
  }

  lemma CvmIrrelevant(s: State, c: map<CondVar, MutexId>)
    requires Inv(s)
    ensures Inv(s.(cvm := c))
  {
    var s' := s.(cvm := c);
    forall m | m in s'.mx ensures MutexInv(s', m) {
      assert MutexInv(s, m);
    }
  }

  lemma TakeKeepsInv(s: State, t: Thread, p: Pc, m: MutexId, read: bool)
    requires Inv(s) && t in s.pc && m in s.mx && CanLock(s.mx[m], read)
    requires s.pc[t] == Idle || (s.pc[t].Retry? && s.pc[t].m == m && s.pc[t].read == read)
    requires p == Idle || (p == TryTaken(m) && !read)
    ensures Inv(Upd(s, t, p, m, Take(s.mx[m], t, read)))
  {
    assert MutexInv(s, m);
    MoveKeepsInv(s, t, p, m, Take(s.mx[m], t, read));
  }

  lemma UnlockKeepsInv(s: State, t: Thread, m: MutexId)
    requires Inv(s) && t in s.pc && s.pc[t] == Releasing(m) && m in s.mx
    ensures Inv(Upd(s, t, Waking(m, None, Return), m, ReleaseWrite(s.mx[m], t)))
  {
    assert MutexInv(s, m) && ThreadInv(s.pc[t], t, s.mx[m]);
    MoveKeepsInv(s, t, Waking(m, None, Return), m, ReleaseWrite(s.mx[m], t));
  }

  lemma ReadUnlockKeepsInv(s: State, t: Thread, m: MutexId)
    requires Inv(s) && t in s.pc && s.pc[t] == Idle && m in s.mx && t in s.mx[m].readers
    ensures var x := ReleaseRead(s.mx[m], t);
            Inv(Upd(s, t, if x.state == 0 then Waking(m, None, Return) else Idle, m, x))
  {
    var x := ReleaseRead(s.mx[m], t);
    assert MutexInv(s, m);
    MoveKeepsInv(s, t, if x.state == 0 then Waking(m, None, Return) else Idle, m, x);
  }

  // -- steps that change the queue --

  lemma SleepKeepsInv(s: State, st: Step)
    requires Inv(s) && Enabled(s, st) && st.LockSection?
    requires !CanLock(s.mx[s.pc[st.t].m], s.pc[st.t].read)
    ensures Inv(Apply(s, st))
  {
    var t, m, read := st.t, s.pc[st.t].m, s.pc[st.t].read;
    var p, x := Asleep(m, read, false), Enqueue(s.mx[m], t, read, None);
    assert MutexInv(s, m);
    AppendKeeps(s.pc, m, s.mx[m].wq, t, p, Elem(t, false, read, None));
    LocalStepKeepsInv(s, t, p, m, x);
  }

  /** A holder's release inside condvar_wait: the state word stays right. */
  lemma CvDropAccounted(x: Mx, t: Thread)
    requires Accounted(x) && Holds(x, t)
    ensures Accounted(CvDrop(x, t)) && x.state != 0
    ensures forall u :: u != t ==>
              CvDrop(x, t).writers[u] == x.writers[u] && CvDrop(x, t).readers[u] == x.readers[u]
  {
  }

  lemma CvReleaseKeepsInv(s: State, t: Thread, m: MutexId, cv: CondVar)
    requires Inv(s) && t in s.pc && s.pc[t] == CvReleasing(m, cv) && m in s.mx
    ensures var read := s.mx[m].state > 0;
            var x := CvDrop(Enqueue(s.mx[m], t, read, Some(cv)), t);
            Inv(Upd(s, t, if x.state == 0 then Waking(m, None, Sleep(read)) else Asleep(m, read, true), m, x))
  {
    var read := s.mx[m].state > 0;
    var x0 := Enqueue(s.mx[m], t, read, Some(cv));
    var x := CvDrop(x0, t);
    var p := if x.state == 0 then Waking(m, None, Sleep(read)) else Asleep(m, read, true);
    assert MutexInv(s, m) && ThreadInv(s.pc[t], t, s.mx[m]);
    CvDropAccounted(x0, t);
    AppendKeeps(s.pc, m, s.mx[m].wq, t, p, Elem(t, false, read, Some(cv)));
    assert NoLost(s.pc[t := p], m, x) by {
      if x.state == 0 {
        assert t in s.pc[t := p] && Poised(s.pc[t := p][t], m);
      }
    }
    LocalStepKeepsInv(s, t, p, m, x);
  }

  /** A later scan for readers keeps the marks already made. */
  lemma WakeKeepsDone(q: seq<Elem>, kind: Option<bool>)
    ensures HasDone(q) ==> HasDone(Wake(q, kind))
    ensures HasActive(Wake(q, kind)) ==> HasActive(q)
  {
    var q' := Wake(q, kind);
    if HasDone(q) {
      var j :| 0 <= j < |q| && q[j].done;
      assert q'[j].done;
    }
    if HasActive(q') {
      var i :| 0 <= i < |q'| && Active(q'[i]);
      assert Active(q[i]);
    }
  }

  lemma WakeScanKeepsInv(s: State, t: Thread, m: MutexId, p: Pc)
    requires Inv(s) && t in s.pc && s.pc[t].Waking? && s.pc[t].m == m && m in s.mx
    requires p == Waking(m, Some(true), s.pc[t].after) || p == AfterWake(m, s.pc[t].after)
    ensures Inv(Upd(s, t, p, m, s.mx[m].(wq := Wake(s.mx[m].wq, s.pc[t].kind))))
  {
    var q, kind := s.mx[m].wq, s.pc[t].kind;
    var x := s.mx[m].(wq := Wake(q, kind));
    assert MutexInv(s, m);
    assert SameSleepers(q, x.wq);
    SameSleepersKeep(s.pc, m, q, t, p, x.wq);
    WakeKeepsDone(q, kind);
    assert NoLost(s.pc[t := p], m, x) by {
      if kind.None? {
        FirstScanWakes(q);
      } else if exists u :: u in s.pc && Poised(s.pc[u], m) {
        var u :| u in s.pc && Poised(s.pc[u], m);
        assert u in s.pc[t := p] && Poised(s.pc[t := p][u], m);
      }
    }
    LocalStepKeepsInv(s, t, p, m, x);
  }

  lemma WaitCheckKeepsInv(s: State, st: Step)
    requires Inv(s) && Enabled(s, st) && st.WaitCheck?
    ensures Inv(Apply(s, st))
  {
    var t, m := st.t, s.pc[st.t].m;
    var s' := Apply(s, st);
    assert MutexInv(s, m);
    RemoveKeeps(s.pc, m, s.mx[m].wq, t, s'.pc[t], st.i);
    assert t in s'.pc && Poised(s'.pc[t], m);
    LocalStepKeepsInv(s, t, s'.pc[t], m, s'.mx[m]);
  }

  lemma SignalKeepsInv(s: State, st: Step)
    requires Inv(s) && Enabled(s, st) && st.Signal?
    ensures Inv(Apply(s, st))
  {
    var m := s.cvm[st.cv];
    var s' := Apply(s, st);
    assert MutexInv(s, m);
    SameSleepersKeep(s.pc, m, s.mx[m].wq, st.t, Idle, s'.mx[m].wq);
    LocalStepKeepsInv(s, st.t, Idle, m, s'.mx[m]);
  }

  lemma LifetimeKeepsInv(s: State, st: Step)
    requires Inv(s) && Enabled(s, st) && (st.Init? || st.Destroy?)
    ensures Inv(Apply(s, st))
  {
    var s' := Apply(s, st);
    forall m | m in s'.mx ensures MutexInv(s', m) {
      if m in s.mx {
        assert MutexInv(s, m);
      }
    }
  }

  lemma TakeStepKeepsInv(s: State, st: Step)
    requires Inv(s) && Enabled(s, st) && (st.LockSection? || st.TryLock? || st.ReadTryLock?)
    ensures Inv(Apply(s, st))
  {
    match st
    case LockSection(t) =>
      if CanLock(s.mx[s.pc[t].m], s.pc[t].read) {
        TakeKeepsInv(s, t, Idle, s.pc[t].m, s.pc[t].read);
      } else {
        SleepKeepsInv(s, st);
      }
    case TryLock(t, m) =>
      if CanLock(s.mx[m], false) {
        TakeKeepsInv(s, t, TryTaken(m), m, false);
      }
    case ReadTryLock(t, m) =>
      if CanLock(s.mx[m], true) {
        TakeKeepsInv(s, t, Idle, m, true);
      }
  }

  lemma ReleaseStepKeepsInv(s: State, st: Step)
    requires Inv(s) && Enabled(s, st) && (st.UnlockSection? || st.ReadUnlock? || st.WakeScan? || st.CvRelease?)
    ensures Inv(Apply(s, st))
  {
    match st
    case UnlockSection(t) => UnlockKeepsInv(s, t, s.pc[t].m);
    case ReadUnlock(t, m) => ReadUnlockKeepsInv(s, t, m);
    case WakeScan(t) => WakeScanKeepsInv(s, t, s.pc[t].m, Apply(s, st).pc[t]);
    case CvRelease(t) => CvReleaseKeepsInv(s, t, s.pc[t].m, s.pc[t].cv);
  }

  /** Every step of every thread keeps the invariant. */
  lemma StepKeepsInv(s: State, st: Step)
    requires Inv(s) && Enabled(s, st)
    ensures Inv(Apply(s, st))
  {
    if st.LockSection? || st.TryLock? || st.ReadTryLock? {
      TakeStepKeepsInv(s, st);
    } else if st.UnlockSection? || st.ReadUnlock? || st.WakeScan? || st.CvRelease? {
      ReleaseStepKeepsInv(s, st);
    } else if st.WaitCheck? {
      WaitCheckKeepsInv(s, st);
    } else if st.CvWaitCall? {
      CvWaitCallKeepsInv(s, st);
    } else if st.Signal? {
      SignalKeepsInv(s, st);
    } else if st.Init? || st.Destroy? {
      LifetimeKeepsInv(s, st);
    } else {
      CallKeepsInv(s, st);
    }
  }

  // ---- Runs ----

  /** Every thread outside the mutex code and no mutex initialised yet. */
  ghost predicate Initial(s: State) {
    (forall t :: t in s.pc ==> s.pc[t] == Idle) && s.mx == map[] && s.cvm == map[]
  }

  /** The state after the steps, each enabled where it is taken. */
  ghost predicate Reaches(s: State, steps: seq<Step>, s': State)
    decreases |steps|
  {
    if steps == [] then s == s'
    else Enabled(s, steps[0]) && Reaches(Apply(s, steps[0]), steps[1..], s')
  }

  lemma {:induction false} RunKeepsInv(s: State, steps: seq<Step>, s': State)
    requires Inv(s) && Reaches(s, steps, s')
    ensures Inv(s')
    decreases |steps|
  {
    if steps == [] {
    } else {
      StepKeepsInv(s, steps[0]);
      RunKeepsInv(Apply(s, steps[0]), steps[1..], s');
    }
  }

  /** In every reachable state the state word tells exactly who holds the mutex. */
  lemma ExclusionInEveryRun(s0: State, steps: seq<Step>, s: State, m: MutexId)
    requires Initial(s0) && Reaches(s0, steps, s) && m in s.mx
    ensures var x := s.mx[m];
            && (x.state == -1 <==> |x.writers| == 1)
            && (x.state == -1 ==> |x.readers| == 0)
            && (x.state > 0 <==> |x.readers| > 0)
            && (x.state > 0 ==> |x.readers| == x.state && |x.writers| == 0)
            && (x.state == 0 <==> |x.writers| + |x.readers| == 0)
            && x.state >= -1
  {
    RunKeepsInv(s0, steps, s);
    assert MutexInv(s, m);
  }

  /** The panics of the release paths (state not locked) cannot be reached. */
  lemma ReleaseNeverPanics(s0: State, steps: seq<Step>, s: State, t: Thread)
    requires Initial(s0) && Reaches(s0, steps, s) && t in s.pc
    ensures s.pc[t].Releasing? ==> s.pc[t].m in s.mx && s.mx[s.pc[t].m].state == -1
    ensures s.pc[t].CvReleasing? ==> s.pc[t].m in s.mx && s.mx[s.pc[t].m].state != 0
    ensures forall m :: m in s.mx && t in s.mx[m].readers ==> s.mx[m].state > 0
  {
    RunKeepsInv(s0, steps, s);
    if s.pc[t] != Idle {
      assert MutexInv(s, s.pc[t].m);
    }
    forall m | m in s.mx && t in s.mx[m].readers ensures s.mx[m].state > 0 {
      assert MutexInv(s, m);
    }
  }

  /** In every reachable state a free mutex with an active waiter has a thread that is
      about to make its first wake-up scan, a thread that was woken and is about to try for
      the mutex, or a waiter marked done whose thread is in the sleep it now leaves. */
  lemma NoLostWakeup(s0: State, steps: seq<Step>, s: State, m: MutexId)
    requires Initial(s0) && Reaches(s0, steps, s)
    requires m in s.mx && s.mx[m].state == 0 && HasActive(s.mx[m].wq)
    ensures || (exists t :: t in s.pc && Poised(s.pc[t], m))
            || (exists i :: 0 <= i < |s.mx[m].wq| && WokenSleeper(s, m, i))
  {
    RunKeepsInv(s0, steps, s);
    assert MutexInv(s, m);
    var q := s.mx[m].wq;
    if HasDone(q) {
      var i :| 0 <= i < |q| && q[i].done;
      assert WokenSleeper(s, m, i);
    }
  }

  /** The i-th element is marked and its thread sleeps on m. */
  ghost predicate WokenSleeper(s: State, m: MutexId, i: nat)
    requires m in s.mx && i < |s.mx[m].wq|
  {
    var e := s.mx[m].wq[i];
    e.done && e.handle in s.pc && SleepsOn(s.pc[e.handle], m)
  }
}
