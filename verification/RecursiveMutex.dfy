/** The recursive mutex of core/kernel/mutex.c: an owner and a nesting depth on top of a
    plain mutex.  Owner and depth are read and written without a lock, so every load, store
    and compare-and-swap is a step of its own. */
module RecursiveMutex {
  import opened Common

  /** unsigned int of struct refcount. */
  const UINT_RANGE: nat := 0x1_0000_0000

  datatype Pc =
    | Idle
    | Incrementing(seen: Option<nat>)  // in refcount_inc, with the depth read, if it was
    | Locking                         // in __mutex_lock
    | Got                             // mutex taken, owner not yet stored
    | Owning                          // owner stored, depth not yet set
    | Decrementing(seen: Option<nat>)  // in refcount_dec, likewise
    | Unnested                        // depth dropped to zero, owner not yet cleared
    | Disowned                        // owner cleared, mutex not yet released

  /** holder: who holds the plain mutex; nest: lock calls of each thread not yet undone. */
  datatype State = State(holder: Option<Thread>, owner: Option<Thread>, depth: nat,
                         pc: map<Thread, Pc>, nest: map<Thread, nat>)

  /** ReadDepth is the first load of the depth, or that of a compare-and-swap that failed, which it
      may do for no reason. */
  datatype Step =
    LockCall | TakeMutex | SetOwner | SetDepth | UnlockCall | ClearOwner | ReleaseMutex
    | ReadDepth | SwapDepth

  /** A thread unlocks only what it locked. */
  ghost predicate Enabled(s: State, t: Thread, st: Step) {
    && t in s.pc && t in s.nest
    && match st
       case LockCall => s.pc[t] == Idle
       case TakeMutex => s.pc[t] == Locking && s.holder == None
       case SetOwner => s.pc[t] == Got
       case SetDepth => s.pc[t] == Owning
       case UnlockCall => s.pc[t] == Idle && s.nest[t] > 0
       case ClearOwner => s.pc[t] == Unnested
       case ReleaseMutex => s.pc[t] == Disowned
       case ReadDepth => Swapping(s.pc[t]) && s.pc[t].seen != Some(0)
       case SwapDepth => Swapping(s.pc[t]) && s.pc[t].seen.Some?
  }

  predicate Swapping(p: Pc) {
    p.Incrementing? || p.Decrementing?
  }

  /** The turn of a refcount loop that has read v: None when the count was zero, which makes
      refcount_inc fail and its caller panic, and fails the assert of refcount_dec. */
  ghost function Swap(s: State, t: Thread, v: nat): Option<State>
    requires t in s.pc && t in s.nest && Swapping(s.pc[t])
  {
    if v == 0 then None
    else if s.depth != v then Some(s.(pc := s.pc[t := s.pc[t].(seen := Some(s.depth))]))
    else if s.pc[t].Incrementing? then
      Some(s.(depth := (v + 1) % UINT_RANGE, pc := s.pc[t := Idle], nest := s.nest[t := s.nest[t] + 1]))
    else
      var n: nat := if s.nest[t] == 0 then 0 else s.nest[t] - 1;
      Some(s.(depth := v - 1, pc := s.pc[t := if v == 1 then Unnested else Idle], nest := s.nest[t := n]))
  }

  /** None when the code panics or an assertion of it fails. */
  ghost function Apply(s: State, t: Thread, st: Step): Option<State>
    requires Enabled(s, t, st)
  {
    match st
    case LockCall => Some(s.(pc := s.pc[t := if s.owner == Some(t) then Incrementing(None) else Locking]))
    case TakeMutex => Some(s.(holder := Some(t), pc := s.pc[t := Got]))
    case SetOwner => if s.owner != None then None else Some(s.(owner := Some(t), pc := s.pc[t := Owning]))
    case SetDepth => Some(s.(depth := 1, pc := s.pc[t := Idle], nest := s.nest[t := 1]))
    case UnlockCall => if s.owner != Some(t) then None else Some(s.(pc := s.pc[t := Decrementing(None)]))
    case ClearOwner => Some(s.(owner := None, pc := s.pc[t := Disowned]))
    case ReleaseMutex => Some(s.(holder := None, pc := s.pc[t := Idle]))
    case ReadDepth => Some(s.(pc := s.pc[t := s.pc[t].(seen := Some(s.depth))]))
    case SwapDepth => Swap(s, t, s.pc[t].seen.value)
  }

  /** A thread with lock calls open is owner and holder, and the depth counts them in 32 bits. */
  ghost predicate Nested(s: State, t: Thread)
    requires t in s.nest
  {
    0 < s.nest[t] <= UINT_RANGE && s.depth == s.nest[t] % UINT_RANGE && s.owner == Some(t) == s.holder
  }

  ghost predicate ThreadInv(s: State, t: Thread)
    requires t in s.pc && t in s.nest
  {
    match s.pc[t]
    case Idle => if s.nest[t] > 0 then Nested(s, t) else s.owner != Some(t) && s.holder != Some(t)
    case Incrementing(seen) => Nested(s, t) && (seen.Some? ==> seen.value == s.depth)
    case Decrementing(seen) => Nested(s, t) && (seen.Some? ==> seen.value == s.depth)
    case Locking => s.nest[t] == 0 && s.holder != Some(t) && s.owner != Some(t)
    case Got => s.nest[t] == 0 && s.holder == Some(t) && s.owner == None
    case Owning => s.nest[t] == 0 && s.holder == Some(t) && s.owner == Some(t)
    case Unnested => s.nest[t] == 0 && s.holder == Some(t) && s.owner == Some(t)
    case Disowned => s.nest[t] == 0 && s.holder == Some(t) && s.owner == None
  }

  ghost predicate Inv(s: State) {
    && s.pc.Keys == s.nest.Keys
    && (s.owner.Some? ==> s.holder == s.owner)
    && (s.holder.Some? ==> s.holder.value in s.pc)
    && forall t :: t in s.pc ==> ThreadInv(s, t)
  }

  /** The thread is 2^32 lock calls deep, where the depth is zero again. */
  ghost predicate TooDeep(s: State, t: Thread, st: Step) {
    t in s.nest && s.nest[t] == UINT_RANGE && st == SwapDepth
  }

  /** Whatever the others do between a thread's steps, it panics exactly when it is too deep. */
  lemma StepKeepsInv(s: State, t: Thread, st: Step)
    requires Inv(s) && Enabled(s, t, st)
    ensures Apply(s, t, st) == None <==> TooDeep(s, t, st)
    ensures Apply(s, t, st).Some? ==> Inv(Apply(s, t, st).value)
  {
    assert ThreadInv(s, t);
    if Apply(s, t, st).Some? {
      var s' := Apply(s, t, st).value;
      forall u | u in s'.pc ensures ThreadInv(s', u) {
        assert ThreadInv(s, u);
      }
    }
  }

  ghost predicate Reaches(s: State, steps: seq<(Thread, Step)>, s': Option<State>)
    decreases |steps|
  {
    if steps == [] then s' == Some(s)
    else
      && Enabled(s, steps[0].0, steps[0].1)
      && match Apply(s, steps[0].0, steps[0].1)
         case None => s' == None
         case Some(n) => Reaches(n, steps[1..], s')
  }

  /** Some step of the run is taken by a thread that is too deep. */
  ghost predicate GetsTooDeep(s: State, steps: seq<(Thread, Step)>)
    decreases |steps|
  {
    && steps != [] && Enabled(s, steps[0].0, steps[0].1)
    && (TooDeep(s, steps[0].0, steps[0].1)
        || match Apply(s, steps[0].0, steps[0].1)
           case None => false
           case Some(n) => GetsTooDeep(n, steps[1..]))
  }

  lemma {:induction false} RunKeepsInv(s: State, steps: seq<(Thread, Step)>, s': Option<State>)
    requires Inv(s) && Reaches(s, steps, s')
    ensures s' == None <==> GetsTooDeep(s, steps)
    ensures s'.Some? ==> Inv(s'.value)
    decreases |steps|
  {
    if steps == [] {
    } else {
      StepKeepsInv(s, steps[0].0, steps[0].1);
      if Apply(s, steps[0].0, steps[0].1).Some? {
        RunKeepsInv(Apply(s, steps[0].0, steps[0].1).value, steps[1..], s');
      }
    }
  }

  ghost predicate Initial(s: State) {
    && s.holder == None == s.owner && s.pc.Keys == s.nest.Keys
    && forall t :: t in s.pc ==> s.pc[t] == Idle && s.nest[t] == 0
  }

  /** In every run a panic or a failed assert is reached exactly by nesting 2^32 deep, and else the
      recorded owner holds the mutex and between calls the depth is the owner's nesting. */
  lemma OwnerHoldsWithDepth(s0: State, steps: seq<(Thread, Step)>, r: Option<State>)
    requires Initial(s0) && Reaches(s0, steps, r)
    ensures r == None <==> GetsTooDeep(s0, steps)
    ensures r.Some? ==> r.value.pc.Keys == r.value.nest.Keys
    ensures r.Some? ==> forall t :: r.value.owner == Some(t) ==>
              t in r.value.pc && r.value.holder == Some(t)
              && (r.value.pc[t] == Idle ==> r.value.depth == r.value.nest[t] % UINT_RANGE && r.value.nest[t] > 0)
    ensures r.Some? ==> forall t :: t in r.value.pc && r.value.nest[t] > 0 ==> r.value.owner == Some(t)
  {
    RunKeepsInv(s0, steps, r);
    if r.Some? {
      var s := r.value;
      forall t | t in s.pc && s.nest[t] > 0 ensures s.owner == Some(t) {
        assert ThreadInv(s, t);
      }
      if s.owner.Some? {
        assert ThreadInv(s, s.owner.value);
      }
    }
  }

  // ---- What a swap does ----

  /** The swap of a lock or unlock call counts one more or one fewer of the thread's open calls, and
      an unlock goes on to release the mutex exactly when none is left. */
  lemma SwapCounts(s: State, t: Thread)
    requires Inv(s) && Enabled(s, t, SwapDepth) && s.nest[t] < UINT_RANGE
    ensures var r := Apply(s, t, SwapDepth);
            && r.Some? && r.value.owner == s.owner && r.value.holder == s.holder
            && r.value.nest[t] == (if s.pc[t].Incrementing? then s.nest[t] + 1 else s.nest[t] - 1)
            && r.value.pc[t] == if r.value.nest[t] == 0 then Unnested else Idle
  {
    assert ThreadInv(s, t);
  }

  // ---- The run that goes wrong ----

  /** Thread t alone, between calls, n locks deep. */
  ghost function Alone(t: Thread, n: nat): State {
    State(Some(t), Some(t), n % UINT_RANGE, map[t := Idle], map[t := n])
  }

  ghost predicate CanReach(s: State, r: Option<State>) {
    exists steps :: Reaches(s, steps, r)
  }

  lemma OneStep(s: State, t: Thread, st: Step, n: State, r: Option<State>)
    requires Enabled(s, t, st) && Apply(s, t, st) == Some(n) && CanReach(n, r)
    ensures CanReach(s, r)
  {
    var steps :| Reaches(n, steps, r);
    assert ([(t, st)] + steps)[1..] == steps;
    assert Reaches(s, [(t, st)] + steps, r);
  }

  lemma OneLockMore(t: Thread, n: nat, r: Option<State>)
    requires 0 < n < UINT_RANGE && CanReach(Alone(t, n + 1), r)
    ensures CanReach(Alone(t, n), r)
  {
    var s := Alone(t, n);
    var s1 := s.(pc := map[t := Incrementing(None)]);
    var s2 := s.(pc := map[t := Incrementing(Some(n))]);
    assert Apply(s2, t, SwapDepth) == Some(Alone(t, n + 1)) by {
      assert s2.pc[t := Idle] == map[t := Idle] && s2.nest[t := n + 1] == map[t := n + 1];
    }
    OneStep(s2, t, SwapDepth, Alone(t, n + 1), r);
    assert s1.pc[t := Incrementing(Some(n))] == s2.pc;
    OneStep(s1, t, ReadDepth, s2, r);
    assert s.pc[t := Incrementing(None)] == s1.pc;
    OneStep(s, t, LockCall, s1, r);
  }

  lemma {:induction false} LocksOn(t: Thread, n: nat, r: Option<State>)
    requires 0 < n <= UINT_RANGE && CanReach(Alone(t, UINT_RANGE), r)
    ensures CanReach(Alone(t, n), r)
    decreases UINT_RANGE - n
  {
    if n < UINT_RANGE {
      LocksOn(t, n + 1, r);
      OneLockMore(t, n, r);
    }
  }

  lemma PanicsAtTheTop(t: Thread)
    ensures CanReach(Alone(t, UINT_RANGE), None)
  {
    var s := Alone(t, UINT_RANGE);
    var s1 := s.(pc := map[t := Incrementing(None)]);
    var s2 := s.(pc := map[t := Incrementing(Some(0))]);
    assert Reaches(s2, [(t, SwapDepth)], None);
    assert s1.pc[t := Incrementing(Some(0))] == s2.pc;
    OneStep(s1, t, ReadDepth, s2, None);
    assert s.pc[t := Incrementing(None)] == s1.pc;
    OneStep(s, t, LockCall, s1, None);
  }

  /** A thread that does nothing but lock gets there. */
  lemma TooDeepHappens(t: Thread)
    ensures CanReach(State(None, None, 0, map[t := Idle], map[t := 0]), None)
  {
    PanicsAtTheTop(t);
    LocksOn(t, 1, None);
    var s := State(None, None, 0, map[t := Idle], map[t := 0]);
    var s1 := s.(pc := map[t := Locking]);
    var s2 := s.(holder := Some(t), pc := map[t := Got]);
    var s3 := s2.(owner := Some(t), pc := map[t := Owning]);
    assert s3.pc[t := Idle] == map[t := Idle] && s3.nest[t := 1] == map[t := 1];
    OneStep(s3, t, SetDepth, Alone(t, 1), None);
    assert s2.pc[t := Owning] == s3.pc && s1.pc[t := Got] == s2.pc && s.pc[t := Locking] == s1.pc;
    OneStep(s2, t, SetOwner, s3, None);
    OneStep(s1, t, TakeMutex, s2, None);
    OneStep(s, t, LockCall, s1, None);
  }

  // ---- Unlocking undoes locking ----

  /** Nobody has the mutex; the depth is as the last unlock left it. */
  ghost function Free(t: Thread): State {
    State(None, None, 0, map[t := Idle], map[t := 0])
  }

  lemma Reached(s: State)
    ensures CanReach(s, Some(s))
  {
    assert Reaches(s, [], Some(s));
  }

  /** One unlock call up to its swap. */
  lemma UnlockSwaps(t: Thread, n: nat, z: State, r: Option<State>)
    requires 0 < n < UINT_RANGE && CanReach(z, r)
    requires z == State(Some(t), Some(t), n - 1, map[t := if n == 1 then Unnested else Idle], map[t := n - 1])
    ensures CanReach(Alone(t, n), r)
  {
    var s := Alone(t, n);
    var s1 := s.(pc := map[t := Decrementing(None)]);
    var s2 := s.(pc := map[t := Decrementing(Some(n))]);
    assert s2.pc[t := z.pc[t]] == z.pc && s2.nest[t := n - 1] == z.nest;
    assert Apply(s2, t, SwapDepth) == Some(z);
    OneStep(s2, t, SwapDepth, z, r);
    assert s1.pc[t := Decrementing(Some(n))] == s2.pc;
    OneStep(s1, t, ReadDepth, s2, r);
    assert s.pc[t := Decrementing(None)] == s1.pc;
    OneStep(s, t, UnlockCall, s1, r);
  }

  lemma LastUnlock(t: Thread)
    ensures CanReach(Alone(t, 1), Some(Free(t)))
  {
    var z := State(Some(t), Some(t), 0, map[t := Unnested], map[t := 0]);
    var y := z.(owner := None, pc := map[t := Disowned]);
    Reached(Free(t));
    assert y.pc[t := Idle] == map[t := Idle];
    OneStep(y, t, ReleaseMutex, Free(t), Some(Free(t)));
    assert z.pc[t := Disowned] == y.pc;
    OneStep(z, t, ClearOwner, y, Some(Free(t)));
    UnlockSwaps(t, 1, z, Some(Free(t)));
  }

  /** However deep a thread has locked the mutex, as many unlock calls free it. */
  lemma {:induction false} UnlocksFree(t: Thread, n: nat)
    requires 0 < n < UINT_RANGE
    ensures CanReach(Alone(t, n), Some(Free(t)))
    decreases n
  {
    if n == 1 {
      LastUnlock(t);
    } else {
      UnlocksFree(t, n - 1);
      UnlockSwaps(t, n, Alone(t, n - 1), Some(Free(t)));
    }
  }
}
