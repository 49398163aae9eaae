/** What the steps of the mutex code give their callers: who gets the mutex, who is let go by a
    signal, and that every waiter can be served in its turn. */
module MutexService {
  import opened Common
  import opened WaitQueue
  import opened Mutex
  import opened MutexProgress

  // ---- Who gets the mutex ----

  predicate Unheld(x: Mx) {
    |x.writers| == 0 && |x.readers| == 0
  }

  /** Nobody holds the mutex in a way that excludes a reader or a writer. */
  predicate Admits(x: Mx, read: bool) {
    if read then |x.writers| == 0 else Unheld(x)
  }

  /** Thread t has it in addition, for reading or writing, and nothing else about it changed. */
  ghost predicate Gained(x: Mx, y: Mx, t: Thread, read: bool) {
    && y.wq == x.wq && y.writers == (if read then x.writers else x.writers + multiset{t})
    && y.readers == if read then x.readers + multiset{t} else x.readers
  }

  /** The section of mutex_lock and mutex_read_lock: the mutex is taken exactly when its holders
      admit it, and else the thread sleeps as the last active waiter. */
  lemma SectionTakesIff(s: State, t: Thread)
    requires Inv(s) && Enabled(s, LockSection(t))
    ensures var m, read, r := s.pc[t].m, s.pc[t].read, Apply(s, LockSection(t));
            if Admits(s.mx[m], read) then r.pc[t] == Idle && Gained(s.mx[m], r.mx[m], t, read)
            else r.pc[t] == Asleep(m, read, false) && r.mx[m].wq == s.mx[m].wq + [Elem(t, false, read, None)]
                 && r.mx[m].writers == s.mx[m].writers && r.mx[m].readers == s.mx[m].readers
  {
    assert MutexInv(s, s.pc[t].m);
  }

  /** mutex_trylock and mutex_read_trylock. */
  lemma TryTakesIff(s: State, t: Thread, m: MutexId, read: bool)
    requires Inv(s) && Enabled(s, if read then ReadTryLock(t, m) else TryLock(t, m))
    ensures var r := Apply(s, if read then ReadTryLock(t, m) else TryLock(t, m));
            if Admits(s.mx[m], read) then
              r.pc[t] == (if read then Idle else TryTaken(m)) && Gained(s.mx[m], r.mx[m], t, read)
            else r == s
  {
    assert MutexInv(s, m);
  }

  /** Releasing gives back one hold of the thread; whoever leaves the mutex free begins a wake-up. */
  lemma ReleaseGivesBack(s: State, st: Step, m: MutexId)
    requires Inv(s) && Enabled(s, st) && (st.UnlockSection? || st.ReadUnlock?)
    requires m == if st.ReadUnlock? then st.m else s.pc[st.t].m
    ensures var x, r := s.mx[m], Apply(s, st);
            && r.mx[m].wq == x.wq
            && r.mx[m].writers == (if st.ReadUnlock? then x.writers else x.writers - multiset{st.t})
            && r.mx[m].readers == (if st.ReadUnlock? then x.readers - multiset{st.t} else x.readers)
            && r.pc[st.t] == if Unheld(r.mx[m]) then Waking(m, None, Return) else Idle
  {
    assert MutexInv(s, m);
    if st.UnlockSection? {
      assert ThreadInv(s.pc[st.t], st.t, s.mx[m]);
    }
  }

  /** condvar_wait: the thread gives back one hold and sleeps as the last waiter for the condvar, to
      take the mutex as it held it when it is let go. */
  lemma CvReleaseSleeps(s: State, t: Thread)
    requires Inv(s) && Enabled(s, CvRelease(t))
    ensures var m, cv, x, r := s.pc[t].m, s.pc[t].cv, s.mx[s.pc[t].m], Apply(s, CvRelease(t));
            var read := t in x.readers;
            && r.mx[m].wq == x.wq + [Elem(t, false, read, Some(cv))]
            && r.mx[m].writers == (if read then x.writers else x.writers - multiset{t})
            && r.mx[m].readers == (if read then x.readers - multiset{t} else x.readers)
            && r.pc[t] == if Unheld(r.mx[m]) then Waking(m, None, Sleep(read)) else Asleep(m, read, true)
  {
    assert MutexInv(s, s.pc[t].m) && ThreadInv(s.pc[t], t, s.mx[s.pc[t].m]);
  }

  // ---- Signals ----

  /** The waiter after it was let go by its condvar. */
  function LetGo(e: Elem): Elem {
    e.(cv := None)
  }

  predicate WaitsOn(e: Elem, cv: CondVar) {
    e.cv == Some(cv)
  }

  /** Queue r is q after a signal: the first waiter of cv, or every one, is let go. */
  ghost predicate Signalled(q: seq<Elem>, cv: CondVar, onlyOne: bool, r: seq<Elem>) {
    |r| == |q| && forall j :: 0 <= j < |q| ==> r[j] == if IsLetGo(q, cv, onlyOne, j) then LetGo(q[j]) else q[j]
  }

  ghost predicate IsLetGo(q: seq<Elem>, cv: CondVar, onlyOne: bool, j: nat)
    requires j < |q|
  {
    WaitsOn(q[j], cv) && (onlyOne ==> forall i :: 0 <= i < j ==> !WaitsOn(q[i], cv))
  }

  lemma {:induction false} PromoteOne(q: seq<Elem>, cv: CondVar, i: nat)
    requires i <= |q| && forall j :: 0 <= j < i ==> !WaitsOn(q[j], cv)
    ensures Signalled(q, cv, true, Promote(q, cv, true, i))
    decreases |q| - i
  {
    if i < |q| && !WaitsOn(q[i], cv) {
      PromoteOne(q, cv, i + 1);
    }
  }

  lemma PromoteAll(q: seq<Elem>, cv: CondVar)
    ensures Signalled(q, cv, false, Promote(q, cv, false, 0))
  {
    var r := Promote(q, cv, false, 0);
    forall j | 0 <= j < |q| ensures r[j] == if IsLetGo(q, cv, false, j) then LetGo(q[j]) else q[j] {
    }
  }

  /** condvar_signal and condvar_broadcast: the first waiter of the condvar, or every one, becomes
      a plain waiter that the next wake-up can mark, and nothing else changes. */
  lemma SignalReleases(s: State, t: Thread, cv: CondVar, onlyOne: bool)
    requires Inv(s) && Enabled(s, Signal(t, cv, onlyOne))
    ensures var m, r := s.cvm[cv], Apply(s, Signal(t, cv, onlyOne));
            && Signalled(s.mx[m].wq, cv, onlyOne, r.mx[m].wq)
            && ((exists j :: 0 <= j < |s.mx[m].wq| && WaitsOn(s.mx[m].wq[j], cv)) ==> HasActive(r.mx[m].wq))
            && r == s.(mx := s.mx[m := s.mx[m].(wq := r.mx[m].wq)])
  {
    var m, r := s.cvm[cv], Apply(s, Signal(t, cv, onlyOne));
    var q := s.mx[m].wq;
    assert MutexInv(s, m);
    if onlyOne {
      PromoteOne(q, cv, 0);
    } else {
      PromoteAll(q, cv);
    }
    if j :| 0 <= j < |q| && WaitsOn(q[j], cv) {
      PromotesSome(q, cv, onlyOne, 0, j);
    }
    assert s.pc[t := Idle] == s.pc;
  }

  // ---- The whole of a wake-up ----

  lemma FirstStep(s: State, st: Step, rest: seq<Step>, w: State)
    requires Enabled(s, st) && Reaches(Apply(s, st), rest, w)
    ensures Reaches(s, [st] + rest, w)
  {
    assert ([st] + rest)[1..] == rest;
  }

  ghost predicate ScansTo(s: State, h: Thread, steps: seq<Step>, s': State) {
    Reaches(s, steps, s') && forall i :: 0 <= i < |steps| ==> steps[i] == WakeScan(h)
  }

  /** Thread h has gone on scanning until queue q was left, and then on its way. */
  ghost predicate WokeUp(s: State, s': State, h: Thread, m: MutexId, after: After, q: seq<Elem>) {
    s' == s.(pc := s.pc[h := AfterWake(m, after)], mx := s'.mx) && m in s.mx && s'.mx == s.mx[m := s.mx[m].(wq := q)]
  }

  lemma OneScan(s: State, h: Thread, m: MutexId, kind: Option<bool>, after: After)
    requires h in s.pc && s.pc[h] == Waking(m, kind, after) && m in s.mx
    ensures Enabled(s, WakeScan(h))
    ensures var q, r := s.mx[m].wq, Apply(s, WakeScan(h));
            var more := First(q, kind, 0) < |q| && WakeKind(q, kind) == Some(true);
            && r.mx == s.mx[m := s.mx[m].(wq := Wake(q, kind))]
            && r.pc == s.pc[h := if more then Waking(m, Some(true), after) else AfterWake(m, after)] && r.cvm == s.cvm
  {
  }

  lemma ScansFirst(s: State, h: Thread, rest: seq<Step>, s': State)
    requires Enabled(s, WakeScan(h)) && ScansTo(Apply(s, WakeScan(h)), h, rest, s')
    ensures ScansTo(s, h, [WakeScan(h)] + rest, s')
  {
    FirstStep(s, WakeScan(h), rest, s');
  }

  /** The scans for further readers mark all of them. */
  lemma {:induction false} ReadersScanned(s: State, h: Thread, m: MutexId, after: After)
    returns (steps: seq<Step>, s': State)
    requires h in s.pc && s.pc[h] == Waking(m, Some(true), after) && m in s.mx
    ensures ScansTo(s, h, steps, s') && WokeUp(s, s', h, m, after, ReadersWoken(s.mx[m].wq))
    decreases |s.mx[m].wq| - First(s.mx[m].wq, Some(true), 0)
  {
    var q, s1 := s.mx[m].wq, Apply(s, WakeScan(h));
    OneScan(s, h, m, Some(true), after);
    if First(q, Some(true), 0) < |q| {
      ScanProgress(q);
      steps, s' := ReadersScanned(s1, h, m, after);
    } else {
      ScanComplete(q);
      steps, s' := [], s1;
      assert s.mx[m := s.mx[m]] == s.mx;
    }
    ScansFirst(s, h, steps, s');
    steps := [WakeScan(h)] + steps;
  }

  /** wq_wake_next run by one thread alone: the first active waiter is marked, and with it, if it is
      a reader, every other active reader. */
  lemma WakeUpIs(s: State, h: Thread, m: MutexId, after: After) returns (steps: seq<Step>, s': State)
    requires h in s.pc && s.pc[h] == Waking(m, None, after) && m in s.mx
    ensures ScansTo(s, h, steps, s') && WokeUp(s, s', h, m, after, WakeNextResult(s.mx[m].wq))
  {
    var q, s1 := s.mx[m].wq, Apply(s, WakeScan(h));
    var k := First(q, None, 0);
    OneScan(s, h, m, None, after);
    if k < |q| && q[k].waitRead {
      steps, s' := ReadersScanned(s1, h, m, after);
      ReadersAfterFirst(q, k);
    } else {
      steps, s' := [], s1;
    }
    ScansFirst(s, h, steps, s');
    steps := [WakeScan(h)] + steps;
  }

  lemma ReadersAfterFirst(q: seq<Elem>, k: nat)
    requires k < |q| && Eligible(q[k], Some(true))
    ensures ReadersWoken(q[k := q[k].(done := true)]) == ReadersWoken(q)
  {
  }

  // ---- Serving a waiter ----

  /** Steps of threads inside the mutex code, and of those that got the mutex and give it back. */
  predicate Serving(st: Step) {
    Internal(st) || st.UnlockCall? || st.UnlockSection? || st.ReadUnlock?
  }

  ghost predicate Serves(s: State, steps: seq<Step>, s': State) {
    Reaches(s, steps, s') && forall i :: 0 <= i < |steps| ==> Serving(steps[i])
  }

  lemma ServesFirst(s: State, st: Step, rest: seq<Step>, s': State)
    requires Enabled(s, st) && Serving(st) && Serves(Apply(s, st), rest, s')
    ensures Serves(s, [st] + rest, s')
  {
    assert ([st] + rest)[1..] == rest;
  }

  lemma {:induction false} RunsJoin(s: State, a: seq<Step>, r: State, b: seq<Step>, w: State)
    requires Reaches(s, a, r) && Reaches(r, b, w)
    ensures Reaches(s, a + b, w)
    decreases |a|
  {
    if a == [] {
      assert a + b == b;
    } else {
      RunsJoin(Apply(s, a[0]), a[1..], r, b, w);
      FirstStep(s, a[0], a[1..] + b, w);
      assert a + b == [a[0]] + (a[1..] + b);
    }
  }

  lemma ServesJoin(s: State, a: seq<Step>, r: State, b: seq<Step>, w: State)
    requires Serves(s, a, r) && Serves(r, b, w)
    ensures Serves(s, a + b, w)
  {
    RunsJoin(s, a, r, b, w);
  }

  /** All steps are of thread t. */
  ghost predicate ByThread(steps: seq<Step>, t: Thread) {
    forall i :: 0 <= i < |steps| ==> !steps[i].Init? && !steps[i].Destroy? && steps[i].t == t
  }

  lemma OneServing(s: State, st: Step, s': State)
    requires Enabled(s, st) && Serving(st) && s' == Apply(s, st)
    ensures Serves(s, [st], s')
  {
    assert [st][1..] == [] && Reaches(s', [], s');
  }

  /** Thread t has unlocked the mutex and stands before its first wake-up scan. */
  ghost predicate GaveBack(s: State, s': State, t: Thread, m: MutexId)
    requires m in s.mx
  {
    && Inv(s') && m in s'.mx && s'.mx[m].state == 0 && s'.mx[m].wq == s.mx[m].wq
    && t in s'.pc && s'.pc[t] == Waking(m, None, Return)
  }

  lemma ReaderGivesBack(s: State, t: Thread, m: MutexId)
    requires Inv(s) && t in s.pc && s.pc[t] == Idle && m in s.mx && s.mx[m].state == 1 && t in s.mx[m].readers
    ensures Enabled(s, ReadUnlock(t, m)) && GaveBack(s, Apply(s, ReadUnlock(t, m)), t, m)
  {
    StepKeepsInv(s, ReadUnlock(t, m));
  }

  lemma WriterGivesBack(s: State, t: Thread, m: MutexId) returns (s1: State, s': State)
    requires Inv(s) && t in s.pc && s.pc[t] == Idle && m in s.mx && t in s.mx[m].writers
    ensures Enabled(s, UnlockCall(t, m)) && s1 == Apply(s, UnlockCall(t, m))
    ensures Enabled(s1, UnlockSection(t)) && s' == Apply(s1, UnlockSection(t)) && GaveBack(s, s', t, m)
  {
    s1 := Apply(s, UnlockCall(t, m));
    StepKeepsInv(s, UnlockCall(t, m));
    s' := Apply(s1, UnlockSection(t));
    StepKeepsInv(s1, UnlockSection(t));
  }

  /** A lone holder gives the mutex back. */
  lemma GivesBack(s: State, t: Thread, m: MutexId) returns (steps: seq<Step>, s': State)
    requires Inv(s) && t in s.pc && s.pc[t] == Idle && m in s.mx && Alone(s.mx[m], t)
    ensures Serves(s, steps, s') && GaveBack(s, s', t, m) && ByThread(steps, t)
  {
    if s.mx[m].state == 1 {
      ReaderGivesBack(s, t, m);
      s' := Apply(s, ReadUnlock(t, m));
      OneServing(s, ReadUnlock(t, m), s');
      steps := [ReadUnlock(t, m)];
    } else {
      var s1;
      s1, s' := WriterGivesBack(s, t, m);
      OneServing(s1, UnlockSection(t), s');
      ServesFirst(s, UnlockCall(t, m), [UnlockSection(t)], s');
      steps := [UnlockCall(t, m)] + [UnlockSection(t)];
    }
  }

  /** A thread that has got the mutex as it wanted and is back with its caller. */
  ghost predicate Served(s: State, m: MutexId, t: Thread, read: bool) {
    m in s.mx && t in (if read then s.mx[m].readers else s.mx[m].writers) && t in s.pc && s.pc[t] == Idle
  }

  /** The first scan marks the first active waiter. */
  lemma ScanMarks(s: State, h: Thread, m: MutexId, k: nat)
    requires Inv(s) && h in s.pc && s.pc[h].Waking? && s.pc[h].m == m && s.pc[h].kind == None && m in s.mx
    requires k == First(s.mx[m].wq, None, 0) < |s.mx[m].wq|
    ensures var r := Apply(s, WakeScan(h));
            && Inv(r) && m in r.mx && r.mx[m].state == s.mx[m].state && |r.mx[m].wq| == |s.mx[m].wq|
            && r.mx[m].wq == s.mx[m].wq[k := s.mx[m].wq[k].(done := true)] && WokenSleeper(r, m, k)
  {
    StepKeepsInv(s, WakeScan(h));
    assert MutexInv(Apply(s, WakeScan(h)), m);
  }

  lemma InternalServes(s: State, steps: seq<Step>, s': State)
    requires Reaches(s, steps, s') && AllInternal(steps)
    ensures Serves(s, steps, s')
  {
  }

  /** The i-th waiter has left the queue and has the mutex. */
  ghost predicate ServedFrom(s: State, s': State, m: MutexId, i: nat)
    requires m in s.mx && i < |s.mx[m].wq|
  {
    var t := s.mx[m].wq[i].handle;
    && Inv(s') && Served(s', m, t, s.mx[m].wq[i].waitRead) && Alone(s'.mx[m], t)
    && LeftQueue(s.mx[m].wq, i, s'.mx[m].wq)
  }

  /** A marked waiter takes a free mutex. */
  lemma ServesMarked(s: State, m: MutexId, i: nat) returns (steps: seq<Step>, s': State)
    requires Inv(s) && m in s.mx && s.mx[m].state == 0 && i < |s.mx[m].wq| && s.mx[m].wq[i].done
    ensures Reaches(s, steps, s') && AllInternal(steps) && ServedFrom(s, s', m, i)
  {
    assert MutexInv(s, m) && WokenSleeper(s, m, i);
    SleeperAgrees(s, m, i);
    var w;
    steps, s', w := WokenTakes(s, m, i);
    RunKeepsInv(s, steps, s');
  }

  /** The first active waiter is marked by the scan and takes it. */
  lemma ServesFirstActive(s: State, m: MutexId, k: nat, h: Thread) returns (steps: seq<Step>, s': State)
    requires Inv(s) && m in s.mx && s.mx[m].state == 0 && k == First(s.mx[m].wq, None, 0) < |s.mx[m].wq|
    requires h in s.pc && s.pc[h].Waking? && s.pc[h].m == m && s.pc[h].kind == None
    ensures Reaches(s, steps, s') && AllInternal(steps) && ServedFrom(s, s', m, k)
  {
    var s1 := Apply(s, WakeScan(h));
    ScanMarks(s, h, m, k);
    steps, s' := ServesMarked(s1, m, k);
    Prepend(s, WakeScan(h), steps, s');
    LeftLater(s.mx[m].wq, s1.mx[m].wq, k, s'.mx[m].wq);
    steps := [WakeScan(h)] + steps;
  }

  /** The mutex is free, h has begun a wake-up, and the i-th waiter is a plain one, thread t. */
  ghost predicate InLine(s: State, m: MutexId, i: nat, t: Thread, read: bool, h: Thread) {
    && Inv(s) && m in s.mx && s.mx[m].state == 0 && i < |s.mx[m].wq|
    && s.mx[m].wq[i].cv.None? && s.mx[m].wq[i].handle == t && s.mx[m].wq[i].waitRead == read
    && h in s.pc && s.pc[h].Waking? && s.pc[h].m == m && s.pc[h].kind == None
  }

  /** A waiter further ahead takes the mutex and gives it back. */
  lemma MovesUp(s: State, m: MutexId, i: nat, t: Thread, read: bool, h: Thread)
    returns (steps: seq<Step>, r: State, h1: Thread)
    requires InLine(s, m, i, t, read, h) && First(s.mx[m].wq, None, 0) < i
    ensures Serves(s, steps, r) && InLine(r, m, i - 1, t, read, h1)
  {
    var q, k := s.mx[m].wq, First(s.mx[m].wq, None, 0);
    var a, s1 := ServesFirstActive(s, m, k, h);
    InternalServes(s, a, s1);
    assert SameWaiter(q[i], s1.mx[m].wq[i - 1]);
    h1 := q[k].handle;
    var b;
    b, r := GivesBack(s1, h1, m);
    ServesJoin(s, a, s1, b, r);
    steps := a + b;
  }

  /** Behind a free mutex with a wake-up begun, every plain waiter can be served: the waiters before
      it take the mutex and give it back. */
  lemma {:induction false} ServesWaiter(s: State, m: MutexId, i: nat, t: Thread, read: bool, h: Thread)
    returns (steps: seq<Step>, s': State)
    requires InLine(s, m, i, t, read, h)
    ensures Serves(s, steps, s') && Served(s', m, t, read)
    ensures First(s.mx[m].wq, None, 0) == i ==> AllInternal(steps)
    decreases i
  {
    var q := s.mx[m].wq;
    var k := First(q, None, 0);
    if q[i].done {
      steps, s' := ServesMarked(s, m, i);
      InternalServes(s, steps, s');
    } else if k < i {
      var a, r, h1 := MovesUp(s, m, i, t, read, h);
      var b;
      b, s' := ServesWaiter(r, m, i - 1, t, read, h1);
      ServesJoin(s, a, r, b, s');
      steps := a + b;
    } else {
      if i < k {
        FirstIsFirst(q, None, 0, i);
      }
      steps, s' := ServesFirstActive(s, m, i, h);
      InternalServes(s, steps, s');
    }
  }

  lemma {:induction false} FirstAt(q: seq<Elem>, i: nat, j: nat)
    requires i <= j < |q| && Active(q[j]) && forall k :: i <= k < j ==> !Active(q[k])
    ensures First(q, None, i) == j
    decreases j - i
  {
    if i < j {
      FirstAt(q, i + 1, j);
    }
  }

  /** From every state of the invariant: when the lone holder of the mutex signals and then unlocks
      it, every waiter that the signal lets go can get the mutex and return to its caller.  If no
      active waiter is ahead of it, threads inside the mutex code do that by themselves, and else
      with those ahead taking the mutex and giving it back. */
  lemma SignalServes(s: State, h: Thread, cv: CondVar, onlyOne: bool, j: nat)
    returns (unlock: seq<Step>, r: State, rest: seq<Step>, s': State)
    requires Inv(s) && Enabled(s, Signal(h, cv, onlyOne)) && Alone(s.mx[s.cvm[cv]], h)
    requires j < |s.mx[s.cvm[cv]].wq| && IsLetGo(s.mx[s.cvm[cv]].wq, cv, onlyOne, j)
    ensures Serves(Apply(s, Signal(h, cv, onlyOne)), unlock, r) && Serves(r, rest, s')
    ensures var e := s.mx[s.cvm[cv]].wq[j]; Served(s', s.cvm[cv], e.handle, e.waitRead)
    ensures ByThread(unlock, h)
    ensures (forall i :: 0 <= i < j ==> !Active(Apply(s, Signal(h, cv, onlyOne)).mx[s.cvm[cv]].wq[i])) ==>
              AllInternal(rest)
  {
    var m, s1 := s.cvm[cv], Apply(s, Signal(h, cv, onlyOne));
    StepKeepsInv(s, Signal(h, cv, onlyOne));
    SignalReleases(s, h, cv, onlyOne);
    assert MutexInv(s, m);
    if forall i :: 0 <= i < j ==> !Active(s1.mx[m].wq[i]) {
      FirstAt(s1.mx[m].wq, 0, j);
    }
    unlock, r := GivesBack(s1, h, m);
    rest, s' := ServesWaiter(r, m, j, s.mx[m].wq[j].handle, s.mx[m].wq[j].waitRead, h);
  }
}
