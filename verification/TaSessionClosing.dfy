/** When a closer gets through: tee_ta_unlink_session waits until its own reference is the
    last one, and that can be reached exactly when no knot of waiting threads holds it back.
    Runs end at the latest with a failing open that is disturbed, since after that the code
    works on freed memory. */
module TaSessionClosing {
  import opened Common
  import opened TaSession

  // ---- Knots ----

  /** Thread x waits for something that threads in k keep from it, or that it keeps from
      itself. */
  ghost predicate Blocked(s: State, k: set<Thread>, x: Thread) {
    match PcOf(s, x)
    case Unlinking(q) => Refs(s, q)[x] >= 2 || exists u :: u in k && u != x && u in Refs(s, q)
    case GetWait(q) => q in s.sessions && !s.sessions[q].unlink && LockedIn(s.sessions[q].lockThread, k)
    case _ => false
  }

  ghost predicate LockedIn(lock: Option<Thread>, k: set<Thread>) {
    lock.Some? && lock.value in k
  }

  /** Every thread of k is blocked by threads of k. */
  ghost predicate Knot(s: State, k: set<Thread>) {
    forall x :: x in k ==> Blocked(s, k, x)
  }

  ghost predicate InKnot(s: State, t: Thread) {
    exists k :: Knot(s, k) && t in k
  }

  // ---- What a step does to the threads that do not take it ----

  /** What thread x has of session q is as it was. */
  ghost predicate UntouchedAt(s: State, r: State, x: Thread, q: Ptr) {
    && Refs(r, q)[x] == Refs(s, q)[x]
    && (q in s.sessions && s.sessions[q].lockThread == Some(x) ==>
          q in r.sessions && r.sessions[q].lockThread == Some(x) && r.sessions[q].unlink == s.sessions[q].unlink)
    && (q in r.sessions && r.sessions[q].lockThread == Some(x) ==>
          q in s.sessions && s.sessions[q].lockThread == Some(x))
  }

  /** The thread's place, references and locks are as they were. */
  ghost predicate Untouched(s: State, r: State, x: Thread) {
    PcOf(r, x) == PcOf(s, x) && forall q :: UntouchedAt(s, r, x, q)
  }

  lemma ChangeUntouched(s: State, p: Ptr, y: Session, m: multiset<Thread>, t: Thread, pc: Pc, x: Thread, q: Ptr)
    requires p in s.sessions && x != t && m[x] == Refs(s, p)[x]
    requires y.lockThread == Some(x) <==> s.sessions[p].lockThread == Some(x)
    requires y.lockThread == Some(x) ==> y.unlink == s.sessions[p].unlink
    ensures PcOf(Change(s, p, y, m, t, pc), x) == PcOf(s, x) && UntouchedAt(s, Change(s, p, y, m, t, pc), x, q)
  {
  }

  lemma RemoveUntouched(s: State, p: Ptr, t: Thread, x: Thread, q: Ptr)
    requires Inv(s) && p in s.sessions && Refs(s, p) == multiset{t} && x != t
    ensures PcOf(Remove(s, p, t), x) == PcOf(s, x) && UntouchedAt(s, Remove(s, p, t), x, q)
  {
    assert SessionOk(s, p);
  }

  lemma OpenUntouched(s: State, t: Thread, p: Ptr, id: nat, x: Thread, q: Ptr)
    requires Inv(s) && p !in s.sessions && x != t
    ensures PcOf(DoOpen(s, t, p, id), x) == PcOf(s, x) && UntouchedAt(s, DoOpen(s, t, p, id), x, q)
  {
    assert NoDangling(s, p);
  }

  lemma GetUntouched(s: State, t: Thread, p: Ptr, exclusive: bool, x: Thread, r: State, q: Ptr)
    requires p in s.sessions && x != t && r == DoGet(s, t, p, exclusive)
    ensures PcOf(r, x) == PcOf(s, x) && UntouchedAt(s, r, x, q)
  {
    var y := s.sessions[p];
    var z, m := y.(refCount := y.refCount + 1), Refs(s, p) + multiset{t};
    if !y.unlink {
      if !exclusive {
        ChangeUntouched(s, p, z, m, t, Idle, x, q);
      } else if y.lockThread.Some? {
        ChangeUntouched(s, p, z, m, t, GetWait(p), x, q);
      } else {
        ChangeUntouched(s, p, z.(lockThread := Some(t)), m, t, Idle, x, q);
      }
    }
  }

  lemma StepUntouchedAt(s: State, step: Step, x: Thread, q: Ptr)
    requires Inv(s) && Enabled(s, step) && Undisturbed(s, step) && x != step.t
    ensures PcOf(Apply(s, step), x) == PcOf(s, x) && UntouchedAt(s, Apply(s, step), x, q)
  {
    var t := step.t;
    match step
    case Open(_, p, id) => OpenUntouched(s, t, p, id, x, q);
    case OpenDone(_) =>
    case OpenFail(_) =>
      OpenFailKeepsIff(s, t, PcOf(s, t).p);
      SoleOf(s, PcOf(s, t).p, t);
      RemoveUntouched(s, PcOf(s, t).p, t, x, q);
    case Get(_, id, exclusive, found) =>
      if found.Some? {
        GetUntouched(s, t, found.value, exclusive, x, Apply(s, step), q);
      }
    case GetRetry(_) => RetryUntouched(s, t, PcOf(s, t).p, x, Apply(s, step), q);
    case Put(_, p) => PutUntouched(s, t, p, x, Apply(s, step), q);
    case Unlink(_, p) => UnlinkUntouched(s, t, p, x, Apply(s, step), q);
    case UnlinkRetry(_) =>
      UnlinkRetryKeeps(s, t, PcOf(s, t).p);
      if s.sessions[PcOf(s, t).p].refCount == 1 {
        RemoveUntouched(s, PcOf(s, t).p, t, x, q);
      }
  }

  lemma SoleOf(s: State, p: Ptr, t: Thread)
    requires Inv(s) && p in s.sessions && s.sessions[p].refCount == 1 && t in Refs(s, p)
    ensures Refs(s, p) == multiset{t}
  {
    assert SessionOk(s, p);
    SoleHolder(Refs(s, p), t);
  }

  lemma RetryUntouched(s: State, t: Thread, p: Ptr, x: Thread, r: State, q: Ptr)
    requires p in s.sessions && x != t && r == DoRetry(s, t, p)
    ensures PcOf(r, x) == PcOf(s, x) && UntouchedAt(s, r, x, q)
  {
    var y := s.sessions[p];
    if y.unlink {
      ChangeUntouched(s, p, y.(refCount := y.refCount - 1), Refs(s, p) - multiset{t}, t, Idle, x, q);
    } else if y.lockThread.None? {
      ChangeUntouched(s, p, y.(lockThread := Some(t)), Refs(s, p), t, Idle, x, q);
    }
  }

  lemma PutUntouched(s: State, t: Thread, p: Ptr, x: Thread, r: State, q: Ptr)
    requires p in s.sessions && x != t && r == DoPut(s, t, p)
    ensures PcOf(r, x) == PcOf(s, x) && UntouchedAt(s, r, x, q)
  {
    assert r.refs == s.refs[p := Refs(s, p) - multiset{t}];
    assert q != p ==> Refs(r, q) == Refs(s, q);
  }

  lemma UnlinkUntouched(s: State, t: Thread, p: Ptr, x: Thread, r: State, q: Ptr)
    requires Inv(s) && p in s.sessions && s.sessions[p].lockThread == Some(t) && x != t && r == DoUnlink(s, t, p)
    ensures PcOf(r, x) == PcOf(s, x) && UntouchedAt(s, r, x, q)
  {
    var y := s.sessions[p];
    assert SessionOk(s, p);
    if y.refCount == 1 {
      SoleHolder(Refs(s, p), t);
      RemoveUntouched(s, p, t, x, q);
    } else {
      ChangeUntouched(s, p, y.(unlink := true), Refs(s, p), t, Unlinking(p), x, q);
    }
  }

  lemma StepUntouched(s: State, step: Step, x: Thread)
    requires Inv(s) && Enabled(s, step) && Undisturbed(s, step) && x != step.t
    ensures Untouched(s, Apply(s, step), x)
  {
    StepUntouchedAt(s, step, x, 0);
    forall q ensures UntouchedAt(s, Apply(s, step), x, q) {
      StepUntouchedAt(s, step, x, q);
    }
  }

  // ---- A knot stays ----

  /** A thread of a knot cannot move. */
  lemma KnotIsStill(s: State, k: set<Thread>, step: Step)
    requires Inv(s) && Knot(s, k) && Enabled(s, step) && step.t in k
    ensures Apply(s, step) == s
  {
    var x := step.t;
    assert Blocked(s, k, x) && Placed(s, x, PcOf(s, x));
    if PcOf(s, x).Unlinking? {
      var q := PcOf(s, x).p;
      assert SessionOk(s, q);
      if s.sessions[q].refCount == 1 {
        SoleHolder(Refs(s, q), x);
      }
    }
  }

  /** And the steps of other threads leave it blocked. */
  lemma KnotStays(s: State, k: set<Thread>, step: Step, x: Thread)
    requires Inv(s) && Knot(s, k) && Enabled(s, step) && Undisturbed(s, step) && step.t !in k && x in k
    ensures PcOf(Apply(s, step), x) == PcOf(s, x) && Blocked(Apply(s, step), k, x)
  {
    var r := Apply(s, step);
    assert Blocked(s, k, x);
    StepUntouched(s, step, x);
    match PcOf(s, x)
    case Unlinking(q) =>
      assert UntouchedAt(s, r, x, q);
      if Refs(s, q)[x] < 2 {
        var u :| u in k && u != x && u in Refs(s, q);
        StepUntouchedAt(s, step, u, q);
        assert u in Refs(r, q);
      }
    case GetWait(q) =>
      StepUntouchedAt(s, step, s.sessions[q].lockThread.value, q);
  }

  /** One step from a knot. */
  lemma KnotStep(s: State, k: set<Thread>, step: Step)
    requires Inv(s) && Knot(s, k) && Enabled(s, step) && Undisturbed(s, step)
    ensures Inv(Apply(s, step)) && Knot(Apply(s, step), k)
    ensures forall x :: x in k ==> PcOf(Apply(s, step), x) == PcOf(s, x)
  {
    StepKeepsInv(s, step);
    if step.t in k {
      KnotIsStill(s, k, step);
    } else {
      forall x | x in k ensures PcOf(Apply(s, step), x) == PcOf(s, x) && Blocked(Apply(s, step), k, x) {
        KnotStays(s, k, step, x);
      }
    }
  }

  /** In every state of the run, up to a disturbed failing open if there is one, p is listed and
      t waits. */
  ghost predicate WaitsOn(s: State, steps: seq<Step>, t: Thread, p: Ptr)
    requires Possible(s, steps)
    decreases |steps|
  {
    && p in s.sessions && PcOf(s, t) == Unlinking(p)
    && (steps == [] || (Undisturbed(s, steps[0]) ==> WaitsOn(Apply(s, steps[0]), steps[1..], t, p)))
  }

  /** A closer in a knot waits on, whatever the other threads do. */
  lemma {:induction false} KnotNeverCloses(s: State, k: set<Thread>, steps: seq<Step>, t: Thread, p: Ptr)
    requires Inv(s) && Knot(s, k) && Possible(s, steps) && t in k && PcOf(s, t) == Unlinking(p)
    ensures WaitsOn(s, steps, t, p)
    decreases |steps|
  {
    assert Placed(s, t, PcOf(s, t));
    if steps == [] {
    } else if Undisturbed(s, steps[0]) {
      KnotStep(s, k, steps[0]);
      KnotNeverCloses(Apply(s, steps[0]), k, steps[1..], t, p);
    }
  }

  /** An undisturbed run is a possible one, and ends where it does. */
  lemma {:induction false} ReachesIs(s: State, steps: seq<Step>, r: State)
    requires Reaches(s, steps, r)
    ensures Possible(s, steps) && UndisturbedAlong(s, steps) && After(s, steps) == r
    decreases |steps|
  {
    if steps == [] {
    } else {
      ReachesIs(Apply(s, steps[0]), steps[1..], r);
    }
  }

  lemma {:induction false} WaitsAtTheEnd(s: State, steps: seq<Step>, t: Thread, p: Ptr)
    requires Possible(s, steps) && UndisturbedAlong(s, steps) && WaitsOn(s, steps, t, p)
    ensures p in After(s, steps).sessions
    decreases |steps|
  {
    if steps == [] {
    } else {
      WaitsAtTheEnd(Apply(s, steps[0]), steps[1..], t, p);
    }
  }

  // ---- Without a knot the closer gets through ----

  ghost function Waiters(s: State): set<Thread> {
    set x | x in s.pc && (s.pc[x].GetWait? || s.pc[x].Unlinking?)
  }

  /** Only threads outside a have moved. */
  ghost predicate Quiet(s: State, r: State, a: set<Thread>) {
    forall x :: x in a ==> Untouched(s, r, x)
  }

  /** A knot of threads that have not moved was a knot before. */
  lemma KnotWas(s: State, r: State, k: set<Thread>)
    requires Inv(s) && Inv(r) && Knot(r, k) && Quiet(s, r, k)
    ensures Knot(s, k)
  {
    forall x | x in k ensures Blocked(s, k, x) {
      assert Blocked(r, k, x) && Untouched(s, r, x) && Placed(s, x, PcOf(s, x));
      match PcOf(s, x)
      case Unlinking(q) =>
        assert UntouchedAt(s, r, x, q);
        if Refs(r, q)[x] < 2 {
          var u :| u in k && u != x && u in Refs(r, q);
          assert Untouched(s, r, u) && UntouchedAt(s, r, u, q);
          assert u in Refs(s, q);
        }
      case GetWait(q) =>
        var u := r.sessions[q].lockThread.value;
        assert Untouched(s, r, u) && UntouchedAt(s, r, u, q);
      case _ =>
    }
  }

  lemma FirstStep(s: State, step: Step, rest: seq<Step>, w: State)
    requires Enabled(s, step) && Undisturbed(s, step) && Reaches(Apply(s, step), rest, w)
    ensures Reaches(s, [step] + rest, w)
  {
    assert ([step] + rest)[1..] == rest;
  }

  lemma {:induction false} RunsJoin(s: State, a: seq<Step>, r: State, b: seq<Step>, w: State)
    requires Reaches(s, a, r) && Reaches(r, b, w)
    ensures Reaches(s, a + b, w)
    decreases |a|
  {
    if a == [] {
      assert a + b == b;
    } else {
      RunsJoin(Apply(s, a[0]), a[1..], r, b, w);
      FirstStep(s, a[0], a[1..] + b, w);
      assert a + b == [a[0]] + (a[1..] + b);
    }
  }

  /** A run to r in which no thread of a moves and nobody begins to wait. */
  ghost predicate Moves(s: State, steps: seq<Step>, r: State, a: set<Thread>) {
    Reaches(s, steps, r) && Inv(r) && Quiet(s, r, a) && Waiters(r) <= Waiters(s)
  }

  lemma UntouchedTwice(s: State, r: State, w: State, x: Thread)
    requires Untouched(s, r, x) && Untouched(r, w, x)
    ensures Untouched(s, w, x)
  {
    forall q ensures UntouchedAt(s, w, x, q) {
      assert UntouchedAt(s, r, x, q) && UntouchedAt(r, w, x, q);
    }
  }

  lemma MovesJoin(s: State, b: seq<Step>, r: State, c: seq<Step>, w: State, a: set<Thread>)
    requires Moves(s, b, r, a) && Moves(r, c, w, a)
    ensures Moves(s, b + c, w, a)
  {
    RunsJoin(s, b, r, c, w);
    forall x | x in a ensures Untouched(s, w, x) {
      UntouchedTwice(s, r, w, x);
    }
  }

  lemma NoMove(s: State, a: set<Thread>)
    requires Inv(s)
    ensures Moves(s, [], s, a)
  {
  }

  lemma OneMove(s: State, step: Step, a: set<Thread>)
    requires Inv(s) && Enabled(s, step) && Undisturbed(s, step) && step.t !in a
    requires PcOf(Apply(s, step), step.t) == Idle
    ensures Moves(s, [step], Apply(s, step), a)
  {
    var r := Apply(s, step);
    StepKeepsInv(s, step);
    assert [step][1..] == [];
    forall x | x in a ensures Untouched(s, r, x) {
      StepUntouched(s, step, x);
    }
    forall x | x in Waiters(r) ensures x in Waiters(s) {
      if x != step.t {
        StepUntouched(s, step, x);
      }
    }
  }

  /** A thread that is not waiting gives one of its references back. */
  lemma GivesBack(s: State, v: Thread, q: Ptr, a: set<Thread>) returns (steps: seq<Step>, r: State)
    requires Inv(s) && v in Refs(s, q) && v !in Waiters(s) && v !in a
    ensures Moves(s, steps, r, a) && q in s.sessions && q in r.sessions && Refs(r, q) == Refs(s, q) - multiset{v}
    ensures s.sessions[q].lockThread == Some(v) ==> r.sessions[q].lockThread == None
  {
    assert NoDangling(s, q);
    steps, r := [], s;
    NoMove(s, a);
    if PcOf(s, v).Opening? {
      OneMove(s, OpenDone(v), a);
      steps, r := [OpenDone(v)], Apply(s, OpenDone(v));
    }
    OneMove(r, Put(v, q), a);
    MovesJoin(s, steps, r, [Put(v, q)], Apply(r, Put(v, q)), a);
    steps, r := steps + [Put(v, q)], Apply(r, Put(v, q));
  }

  /** All references to q but that of x are given back. */
  lemma {:induction false} Drains(s: State, q: Ptr, x: Thread, a: set<Thread>) returns (steps: seq<Step>, r: State)
    requires Inv(s) && Refs(s, q)[x] == 1 && forall v :: v in Refs(s, q) && v != x ==> v !in a && v !in Waiters(s)
    ensures Moves(s, steps, r, a) && Refs(r, q) == multiset{x}
    decreases |Refs(s, q)|
  {
    var rest := Refs(s, q) - multiset{x};
    if rest == multiset{} {
      assert Refs(s, q) == multiset{x};
      NoMove(s, a);
      steps, r := [], s;
    } else {
      var v :| v in rest;
      var b, m := GivesBack(s, v, q, a);
      assert |Refs(m, q)| < |Refs(s, q)|;
      var c;
      c, r := Drains(m, q, x, a);
      MovesJoin(s, b, m, c, r, a);
      steps := b + c;
    }
  }

  /** A waiter that no waiter blocks can be served. */
  lemma ServesGet(s: State, x: Thread, q: Ptr, a: set<Thread>) returns (steps: seq<Step>, r: State)
    requires Inv(s) && PcOf(s, x) == GetWait(q) && !Blocked(s, Waiters(s), x) && a == Waiters(s) - {x}
    ensures Moves(s, steps, r, a) && PcOf(r, x) == Idle
  {
    assert Placed(s, x, PcOf(s, x)) && SessionOk(s, q);
    steps, r := [], s;
    NoMove(s, a);
    var y := s.sessions[q];
    if !y.unlink && y.lockThread.Some? {
      var v := y.lockThread.value;
      steps, r := GivesBack(s, v, q, a + {x});
      assert Untouched(s, r, x);
    }
    assert Placed(r, x, PcOf(r, x));
    OneMove(r, GetRetry(x), a);
    MovesJoin(s, steps, r, [GetRetry(x)], Apply(r, GetRetry(x)), a);
    steps, r := steps + [GetRetry(x)], Apply(r, GetRetry(x));
  }

  lemma ServesCloser(s: State, x: Thread, q: Ptr, a: set<Thread>) returns (steps: seq<Step>, r: State)
    requires Inv(s) && PcOf(s, x) == Unlinking(q) && !Blocked(s, Waiters(s), x) && a == Waiters(s) - {x}
    ensures Moves(s, steps, r, a) && PcOf(r, x) == Idle && q !in r.sessions
  {
    assert Placed(s, x, PcOf(s, x)) && SessionOk(s, q);
    assert Refs(s, q)[x] == 1;
    steps, r := Drains(s, q, x, a + {x});
    assert Untouched(s, r, x);
    assert Placed(r, x, PcOf(r, x)) && SessionOk(r, q);
    OneMove(r, UnlinkRetry(x), a);
    MovesJoin(s, steps, r, [UnlinkRetry(x)], Apply(r, UnlinkRetry(x)), a);
    steps, r := steps + [UnlinkRetry(x)], Apply(r, UnlinkRetry(x));
  }

  lemma FewerWaiters(s: State, r: State, x: Thread)
    requires Waiters(r) <= Waiters(s) && x in Waiters(s) && PcOf(r, x) == Idle
    ensures Waiters(r) < Waiters(s)
  {
    assert x !in Waiters(r);
  }

  lemma StillNoKnot(s: State, r: State, x: Thread, t: Thread)
    requires Inv(s) && Inv(r) && Quiet(s, r, Waiters(s) - {x}) && Waiters(r) <= Waiters(s) && PcOf(r, x) == Idle
    requires !InKnot(s, t)
    ensures !InKnot(r, t)
  {
    if InKnot(r, t) {
      var k :| Knot(r, k) && t in k;
      forall y | y in k ensures y in Waiters(s) - {x} {
        assert Blocked(r, k, y);
        assert y in Waiters(r);
      }
      KnotWas(s, r, k);
    }
  }

  /** A closer in no knot can get through. */
  lemma {:induction false} GetsThrough(s: State, t: Thread, p: Ptr) returns (steps: seq<Step>, r: State)
    requires Inv(s) && PcOf(s, t) == Unlinking(p) && !InKnot(s, t)
    ensures Reaches(s, steps, r) && p !in r.sessions
    decreases Waiters(s)
  {
    assert t in Waiters(s) && !Knot(s, Waiters(s));
    var x :| x in Waiters(s) && !Blocked(s, Waiters(s), x);
    var a := Waiters(s) - {x};
    if PcOf(s, x).GetWait? {
      steps, r := ServesGet(s, x, PcOf(s, x).p, a);
    } else {
      steps, r := ServesCloser(s, x, PcOf(s, x).p, a);
    }
    if x != t {
      FewerWaiters(s, r, x);
      StillNoKnot(s, r, x, t);
      assert Untouched(s, r, t);
      var c, w := GetsThrough(r, t, p);
      RunsJoin(s, steps, r, c, w);
      steps, r := steps + c, w;
    }
  }

  ghost predicate ClosedBy(s: State, steps: seq<Step>, r: State, p: Ptr) {
    Reaches(s, steps, r) && p !in r.sessions
  }

  /** Some run from s without a disturbed failing open takes the session off the list. */
  ghost predicate CanClose(s: State, p: Ptr) {
    exists steps, r :: ClosedBy(s, steps, r, p)
  }

  /** By such runs a closer can get through exactly when it is in no knot. */
  lemma ClosesIff(s: State, t: Thread, p: Ptr)
    requires Inv(s) && PcOf(s, t) == Unlinking(p)
    ensures CanClose(s, p) <==> !InKnot(s, t)
  {
    forall k, steps, r | Knot(s, k) && t in k && Reaches(s, steps, r) ensures p in r.sessions {
      ReachesIs(s, steps, r);
      KnotNeverCloses(s, k, steps, t, p);
      WaitsAtTheEnd(s, steps, t, p);
    }
    if !InKnot(s, t) {
      var steps, r := GetsThrough(s, t, p);
      assert ClosedBy(s, steps, r, p);
    }
  }

  // ---- A disturbed failing open as the last step ----

  /** No failing open before the last step is disturbed. */
  ghost predicate UndisturbedBefore(s: State, steps: seq<Step>)
    requires Possible(s, steps)
    decreases |steps|
  {
    |steps| <= 1 || (Undisturbed(s, steps[0]) && UndisturbedBefore(Apply(s, steps[0]), steps[1..]))
  }

  ghost predicate LeftBy(s: State, steps: seq<Step>, p: Ptr) {
    Possible(s, steps) && UndisturbedBefore(s, steps) && p !in After(s, steps).sessions
  }

  /** Some run takes the session off the list, if need be by a disturbed failing open at its end. */
  ghost predicate CanLeave(s: State, p: Ptr) {
    exists steps :: LeftBy(s, steps, p)
  }

  ghost predicate Opened(s: State, p: Ptr) {
    exists v :: PcOf(s, v) == Opening(p)
  }

  lemma {:induction false} UndisturbedAll(s: State, steps: seq<Step>)
    requires Possible(s, steps) && UndisturbedAlong(s, steps)
    ensures UndisturbedBefore(s, steps)
    decreases |steps|
  {
    if |steps| > 1 {
      UndisturbedAll(Apply(s, steps[0]), steps[1..]);
    }
  }

  /** Nobody begins to open a listed session. */
  lemma OpenedBefore(s: State, step: Step, p: Ptr)
    requires Inv(s) && Enabled(s, step) && Undisturbed(s, step) && p in s.sessions && Opened(Apply(s, step), p)
    ensures Opened(s, p)
  {
    var v :| PcOf(Apply(s, step), v) == Opening(p);
    if v != step.t {
      StepUntouchedAt(s, step, v, p);
    }
    assert PcOf(s, v) == Opening(p);
  }

  /** From a knot a closer's session leaves the list only by a disturbed failing open of it. */
  lemma {:induction false} KnotLeftBy(s: State, k: set<Thread>, steps: seq<Step>, t: Thread, p: Ptr)
    requires Inv(s) && Knot(s, k) && t in k && PcOf(s, t) == Unlinking(p) && LeftBy(s, steps, p)
    ensures Opened(s, p)
    decreases |steps|
  {
    assert Placed(s, t, PcOf(s, t));
    if Undisturbed(s, steps[0]) {
      KnotStep(s, k, steps[0]);
      KnotLeftBy(Apply(s, steps[0]), k, steps[1..], t, p);
      OpenedBefore(s, steps[0], p);
    } else {
      assert steps[1..] == [] && PcOf(s, steps[0].t) == Opening(p);
    }
  }

  /** A closer's session can leave the list exactly when the closer is in no knot or somebody is
      still opening the session, and may fail to. */
  lemma LeavesIff(s: State, t: Thread, p: Ptr)
    requires Inv(s) && PcOf(s, t) == Unlinking(p)
    ensures CanLeave(s, p) <==> !InKnot(s, t) || Opened(s, p)
  {
    forall k, steps | Knot(s, k) && t in k && LeftBy(s, steps, p) ensures Opened(s, p) {
      KnotLeftBy(s, k, steps, t, p);
    }
    if !InKnot(s, t) {
      var steps, r := GetsThrough(s, t, p);
      ReachesIs(s, steps, r);
      UndisturbedAll(s, steps);
      assert LeftBy(s, steps, p);
    } else if Opened(s, p) {
      var v :| PcOf(s, v) == Opening(p);
      FailsAtOnce(s, v, p);
    }
  }

  lemma FailsAtOnce(s: State, v: Thread, p: Ptr)
    requires Inv(s) && PcOf(s, v) == Opening(p)
    ensures CanLeave(s, p)
  {
    assert Placed(s, v, PcOf(s, v));
    var steps := [OpenFail(v)];
    var r := Apply(s, steps[0]);
    assert steps[1..] == [] && Possible(r, []) && After(r, []) == r;
    assert Possible(s, steps) && After(s, steps) == r;
    assert LeftBy(s, steps, p);
  }

  // ---- The two smallest knots ----

  /** A closer with another reference of its own waits for itself. */
  lemma OwnReferenceIsKnot(s: State, t: Thread, p: Ptr)
    requires PcOf(s, t) == Unlinking(p) && Refs(s, p)[t] >= 2
    ensures Knot(s, {t})
  {
  }

  /** Two closers that each have a reference to the other's session wait for each other, for ever,
      or until an open of one of the sessions fails. */
  lemma CircularClosersWait(s: State, t: Thread, p: Ptr, u: Thread, q: Ptr)
    requires Inv(s) && t != u && PcOf(s, t) == Unlinking(p) && PcOf(s, u) == Unlinking(q)
    requires u in Refs(s, p) && t in Refs(s, q)
    ensures !CanClose(s, p) && !CanClose(s, q)
    ensures (CanLeave(s, p) <==> Opened(s, p)) && (CanLeave(s, q) <==> Opened(s, q))
  {
    assert Knot(s, {t, u});
    ClosesIff(s, t, p);
    ClosesIff(s, u, q);
    LeavesIff(s, t, p);
    LeavesIff(s, u, q);
  }

  /** Nobody else with a reference to the session waits for another one. */
  ghost predicate OthersFree(s: State, t: Thread, p: Ptr) {
    forall u :: u != t && u in Refs(s, p) ==> u !in Waiters(s) || PcOf(s, u) == GetWait(p)
  }

  lemma KnotIsOwn(s: State, t: Thread, p: Ptr, k: set<Thread>)
    requires Inv(s) && PcOf(s, t) == Unlinking(p) && OthersFree(s, t, p) && Knot(s, k) && t in k
    ensures Refs(s, p)[t] >= 2
  {
    assert Placed(s, t, PcOf(s, t)) && Blocked(s, k, t);
    forall u | u in k ensures u in Waiters(s) && Blocked(s, k, u) {
    }
  }

  /** Then a second reference of its own is all that can hold the closer back. */
  lemma ClosesUnlessOwn(s: State, t: Thread, p: Ptr)
    requires Inv(s) && PcOf(s, t) == Unlinking(p) && OthersFree(s, t, p)
    ensures CanClose(s, p) <==> Refs(s, p)[t] == 1
  {
    ClosesIff(s, t, p);
    assert Placed(s, t, PcOf(s, t)) && SessionOk(s, p);
    forall k | Knot(s, k) && t in k ensures Refs(s, p)[t] >= 2 {
      KnotIsOwn(s, t, p, k);
    }
    if Refs(s, p)[t] >= 2 {
      OwnReferenceIsKnot(s, t, p);
    }
  }

  lemma OwnReferenceRun(t: Thread, p: Ptr) returns (s0: State, steps: seq<Step>, s: State)
    ensures Init(s0) && Reaches(s0, steps, s) && PcOf(s, t) == Unlinking(p) && Refs(s, p)[t] >= 2
    ensures !Opened(s, p)
  {
    s0 := State(map[], map[], map[]);
    InitInv(s0);
    var open, done, get, unlink := Open(t, p, 1), OpenDone(t), Get(t, 1, true, Some(p)), Unlink(t, p);
    var s1 := Apply(s0, open);
    var s2 := Apply(s1, done);
    var s3 := Apply(s2, get);
    s := Apply(s3, unlink);
    steps := [open, done, get, unlink];
    assert [unlink][1..] == [] && steps[1..] == [done, get, unlink] && steps[1..][1..] == [get, unlink];
    assert [get, unlink][1..] == [unlink];
    assert Reaches(s3, [unlink], s);
    assert Reaches(s2, [get, unlink], s);
    assert Reaches(s1, steps[1..], s);
  }

  /** A thread that opens a session and closes it before its put, as tee_ta_open_session does
      for a panicked context, waits for itself for ever. */
  lemma OwnReferenceHappens(t: Thread, p: Ptr) returns (s0: State, steps: seq<Step>, s: State)
    ensures Init(s0) && Reaches(s0, steps, s) && PcOf(s, t) == Unlinking(p) && !CanLeave(s, p)
  {
    s0, steps, s := OwnReferenceRun(t, p);
    InitInv(s0);
    RunKeepsInv(s0, steps, s);
    OwnReferenceIsKnot(s, t, p);
    LeavesIff(s, t, p);
  }

  lemma OpenerRun(t: Thread, u: Thread, p: Ptr) returns (s0: State, steps: seq<Step>, s: State)
    requires t != u
    ensures Init(s0) && Reaches(s0, steps, s) && PcOf(s, t) == Unlinking(p) && Refs(s, p)[t] >= 2
    ensures PcOf(s, u) == Opening(p)
  {
    s0 := State(map[], map[], map[]);
    InitInv(s0);
    var open, lock, get, unlink := Open(u, p, 1), Get(t, 1, true, Some(p)), Get(t, 1, false, Some(p)), Unlink(t, p);
    var s1 := Apply(s0, open);
    var s2 := Apply(s1, lock);
    var s3 := Apply(s2, get);
    s := Apply(s3, unlink);
    steps := [open, lock, get, unlink];
    assert [unlink][1..] == [] && steps[1..] == [lock, get, unlink] && steps[1..][1..] == [get, unlink];
    assert [get, unlink][1..] == [unlink];
    assert Reaches(s3, [unlink], s);
    assert Reaches(s2, [get, unlink], s);
    assert Reaches(s1, steps[1..], s);
  }

  /** A knot that only a disturbed failing open undoes: t found the session twice and closes it
      while u is still opening it. */
  lemma OpenerUndoesKnot(t: Thread, u: Thread, p: Ptr) returns (s0: State, steps: seq<Step>, s: State)
    requires t != u
    ensures Init(s0) && Reaches(s0, steps, s) && PcOf(s, t) == Unlinking(p)
    ensures !CanClose(s, p) && CanLeave(s, p)
  {
    s0, steps, s := OpenerRun(t, u, p);
    InitInv(s0);
    RunKeepsInv(s0, steps, s);
    OwnReferenceIsKnot(s, t, p);
    ClosesIff(s, t, p);
    LeavesIff(s, t, p);
  }
}
