/** The wait queue of core/kernel/wait_queue.c.  Each scan runs under one spinlock, so
    its effect is a function on the list; the methods below perform the scans. */
module WaitQueue {
  import opened Common

  type CondVar = nat

  /** struct wait_queue_elem: cv is set while the thread waits for a signal. */
  datatype Elem = Elem(handle: Thread, done: bool, waitRead: bool, cv: Option<CondVar>)

  /** Waits for the mutex itself and has not been woken. */
  predicate Active(e: Elem) {
    e.cv.None? && !e.done
  }

  /** Woken by a scan that looks for the given kind of waiter (any kind when None). */
  predicate Eligible(e: Elem, kind: Option<bool>) {
    Active(e) && (kind.None? || e.waitRead == kind.value)
  }

  /** First eligible position at or after i, or the length of the queue. */
  function First(q: seq<Elem>, kind: Option<bool>, i: nat): (k: nat)
    requires i <= |q|
    ensures i <= k <= |q|
    ensures k < |q| ==> Eligible(q[k], kind)
    decreases |q| - i
  {
    if i == |q| || Eligible(q[i], kind) then i else First(q, kind, i + 1)
  }

  lemma {:induction false} FirstIsFirst(q: seq<Elem>, kind: Option<bool>, i: nat, j: nat)
    requires i <= |q| && i <= j < First(q, kind, i)
    ensures !Eligible(q[j], kind)
    decreases |q| - i
  {
    if i < j {
      FirstIsFirst(q, kind, i + 1, j);
    }
  }

  /** A new waiter at the tail is woken only when no waiter before it is eligible. */
  lemma {:induction false} NotOvertaken(q: seq<Elem>, e: Elem, kind: Option<bool>, i: nat)
    requires i <= |q|
    ensures First(q, kind, i) < |q| ==> First(q + [e], kind, i) == First(q, kind, i)
    ensures First(q, kind, i) == |q| ==> First(q + [e], kind, i) == if Eligible(e, kind) then |q| else |q| + 1
    decreases |q| - i
  {
    if i < |q| && !Eligible(q[i], kind) {
      NotOvertaken(q, e, kind, i + 1);
    }
  }

  /** One scan: marks the first eligible element done. */
  function Wake(q: seq<Elem>, kind: Option<bool>): (r: seq<Elem>)
    ensures |r| == |q|
  {
    var k := First(q, kind, 0);
    if k == |q| then q else q[k := q[k].(done := true)]
  }

  /** The kind the scan goes on with: that of the first element it woke. */
  function WakeKind(q: seq<Elem>, kind: Option<bool>): (r: Option<bool>) {
    var k := First(q, kind, 0);
    if k == |q| then kind else Some(q[k].waitRead)
  }

  ghost predicate HasActive(q: seq<Elem>) {
    exists i :: 0 <= i < |q| && Active(q[i])
  }

  ghost predicate HasDone(q: seq<Elem>) {
    exists i :: 0 <= i < |q| && q[i].done
  }

  /** A first scan leaves no active waiter unwoken unless it woke one. */
  lemma FirstScanWakes(q: seq<Elem>)
    ensures HasActive(q) ==> HasDone(Wake(q, None))
  {
    if HasActive(q) {
      var i :| 0 <= i < |q| && Active(q[i]);
      var k := First(q, None, 0);
      if i < k {
        FirstIsFirst(q, None, 0, i);
      }
      assert Wake(q, None)[k].done;
    }
  }

  /** Condvar waiters from position i on become active waiters: one or all. */
  function Promote(q: seq<Elem>, cv: CondVar, onlyOne: bool, i: nat): (r: seq<Elem>)
    requires i <= |q|
    ensures |r| == |q| && r[..i] == q[..i]
    ensures forall j :: 0 <= j < |q| ==> r[j] == q[j] || (q[j].cv == Some(cv) && r[j] == q[j].(cv := None))
    ensures !onlyOne ==> forall j :: i <= j < |q| ==> r[j].cv != Some(cv)
    decreases |q| - i
  {
    if i == |q| then q
    else if q[i].cv == Some(cv) then
      var r := q[i := q[i].(cv := None)];
      if onlyOne then r else Promote(r, cv, onlyOne, i + 1)
    else Promote(q, cv, onlyOne, i + 1)
  }

  /** The queue without the element at position k. */
  function RemoveAt(q: seq<Elem>, k: nat): (r: seq<Elem>)
    requires k < |q|
    ensures |r| == |q| - 1
    ensures forall j :: 0 <= j < k ==> r[j] == q[j]
    ensures forall j :: k <= j < |r| ==> r[j] == q[j + 1]
  {
    q[..k] + q[k + 1..]
  }

  /** All active readers done, the rest as it was. */
  function ReadersWoken(q: seq<Elem>): (r: seq<Elem>) {
    seq(|q|, j requires 0 <= j < |q| => if Eligible(q[j], Some(true)) then q[j].(done := true) else q[j])
  }

  /** Result of a wake-up that nothing disturbs: the first active waiter, and when it
      is a reader every other active reader with it. */
  function WakeNextResult(q: seq<Elem>): (r: seq<Elem>) {
    var k := First(q, None, 0);
    if k < |q| && q[k].waitRead then ReadersWoken(q) else Wake(q, None)
  }

  lemma ScanProgress(q: seq<Elem>)
    requires First(q, Some(true), 0) < |q|
    ensures First(q, Some(true), 0) < First(Wake(q, Some(true)), Some(true), 0)
    ensures ReadersWoken(Wake(q, Some(true))) == ReadersWoken(q)
  {
    var k := First(q, Some(true), 0);
    var r := Wake(q, Some(true));
    var k' := First(r, Some(true), 0);
    if k' < k {
      FirstIsFirst(q, Some(true), 0, k');
    }
  }

  lemma ScanComplete(q: seq<Elem>)
    requires First(q, Some(true), 0) == |q|
    ensures ReadersWoken(q) == q
  {
    forall j | 0 <= j < |q| ensures ReadersWoken(q)[j] == q[j] {
      FirstIsFirst(q, Some(true), 0, j);
    }
  }

  class Queue {
    var elems: seq<Elem>

    constructor ()
      ensures elems == []
    {
      elems := [];
    }

    /** wq_wait_init_condvar: the list is walked to its last element and the new one put
        behind it, so that no waiter is overtaken. */
    method WaitInit(handle: Thread, cv: Option<CondVar>, waitRead: bool)
      modifies this
      ensures elems == old(elems) + [Elem(handle, false, waitRead, cv)]
      ensures forall kind :: First(old(elems), kind, 0) < |old(elems)| ==>
        First(elems, kind, 0) == First(old(elems), kind, 0)
    {
      var e := Elem(handle, false, waitRead, cv);
      forall kind ensures First(elems, kind, 0) < |elems| ==> First(elems + [e], kind, 0) == First(elems, kind, 0) {
        NotOvertaken(elems, e, kind, 0);
      }
      if elems == [] {
        elems := [e];
      } else {
        var i := 0;
        while i + 1 < |elems|
          invariant 0 <= i < |elems|
        {
          i := i + 1;
        }
        elems := elems[..i + 1] + [e] + elems[i + 1..];
      }
    }

    /** One locked scan of wq_wake_next. */
    method WakeScan(kind0: Option<bool>) returns (kind: Option<bool>, woken: Option<Thread>)
      modifies this
      ensures elems == Wake(old(elems), kind0) && kind == WakeKind(old(elems), kind0)
      ensures woken.Some? <==> First(old(elems), kind0, 0) < |elems|
      ensures woken.Some? ==> woken.value == elems[First(old(elems), kind0, 0)].handle
    {
      kind, woken := kind0, None;
      var i := 0;
      while i < |elems|
        invariant 0 <= i <= |elems| && elems == old(elems) && kind == kind0
        invariant First(elems, kind0, 0) == First(elems, kind0, i)
      {
        var e := elems[i];
        if e.cv.None? && !e.done {
          if kind.None? {
            kind := Some(e.waitRead);
          }
          if e.waitRead == kind.value {
            elems := elems[i := e.(done := true)];
            return kind, Some(e.handle);
          }
        }
        i := i + 1;
      }
    }

    /** wq_wake_next when nothing else touches the queue. */
    method WakeNext()
      modifies this
      ensures elems == WakeNextResult(old(elems))
    {
      var kind, woken := WakeScan(None);
      assert kind == Some(true) ==> ReadersWoken(elems) == ReadersWoken(old(elems));
      while woken.Some? && kind == Some(true)
        invariant kind == WakeKind(old(elems), None)
        invariant kind == Some(true) ==> ReadersWoken(elems) == ReadersWoken(old(elems))
        invariant kind == Some(true) && woken.None? ==> elems == ReadersWoken(old(elems))
        invariant kind != Some(true) ==> elems == Wake(old(elems), None)
        decreases woken.Some?, |elems| - First(elems, Some(true), 0)
      {
        ghost var q := elems;
        if First(q, kind, 0) < |q| {
          ScanProgress(q);
        } else {
          ScanComplete(q);
        }
        kind, woken := WakeScan(kind);
      }
    }

    /** wq_promote_condvar. */
    method PromoteCondvar(cv: CondVar, onlyOne: bool)
      modifies this
      ensures elems == Promote(old(elems), cv, onlyOne, 0)
    {
      var i := 0;
      while i < |elems|
        invariant 0 <= i <= |elems| == |old(elems)|
        invariant Promote(old(elems), cv, onlyOne, 0) == Promote(elems, cv, onlyOne, i)
      {
        if elems[i].cv == Some(cv) {
          elems := elems[i := elems[i].(cv := None)];
          if onlyOne {
            return;
          }
        }
        i := i + 1;
      }
    }
  }
}
