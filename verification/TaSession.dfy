/** Sessions of core/kernel/tee_ta_manager.c: reference counts, exclusive locks, unlinking and
    session ids.  Every section under tee_ta_mutex between two waits is one step, and a
    sleeping thread may wake at any time. */
module TaSession {
  import opened Common

  /** Addresses of session structures. */
  type Ptr = nat

  /** 32-bit session ids; 0 is not a valid one. */
  const ID_RANGE: nat := 0x1_0000_0000

  /** struct tee_ta_session. */
  datatype Session = Session(id: nat, refCount: int, lockThread: Option<Thread>, unlink: bool)

  /** Where a thread stands: in none of the functions, opening a session, waiting for its
      lock in tee_ta_get_session, or waiting in tee_ta_unlink_session. */
  datatype Pc = Idle | Opening(p: Ptr) | GetWait(p: Ptr) | Unlinking(p: Ptr)

  /** The listed sessions, the references handed out and not yet given back, the threads. */
  datatype State = State(sessions: map<Ptr, Session>, refs: map<Ptr, multiset<Thread>>, pc: map<Thread, Pc>)

  datatype Step =
    | Open(t: Thread, p: Ptr, id: nat)
    | OpenDone(t: Thread)
    | OpenFail(t: Thread)
    | Get(t: Thread, id: nat, exclusive: bool, found: Option<Ptr>)
    | GetRetry(t: Thread)
    | Put(t: Thread, p: Ptr)
    | Unlink(t: Thread, p: Ptr)
    | UnlinkRetry(t: Thread)

  function Refs(s: State, p: Ptr): multiset<Thread> {
    if p in s.refs then s.refs[p] else multiset{}
  }

  function PcOf(s: State, t: Thread): Pc {
    if t in s.pc then s.pc[t] else Idle
  }

  // ---- Steps ----

  /** Session p becomes x with references m, and thread t moves to pc. */
  function Change(s: State, p: Ptr, x: Session, m: multiset<Thread>, t: Thread, pc: Pc): State {
    State(s.sessions[p := x], s.refs[p := m], s.pc[t := pc])
  }

  /** TAILQ_REMOVE and free by t, whose reference goes with the session. */
  function Remove(s: State, p: Ptr, t: Thread): State {
    State(s.sessions - {p}, s.refs[p := Refs(s, p) - multiset{t}], s.pc[t := Idle])
  }

  /** The first part of tee_ta_init_session. */
  function DoOpen(s: State, t: Thread, p: Ptr, id: nat): State {
    Change(s, p, Session(id, 1, None, false), Refs(s, p) + multiset{t}, t, Opening(p))
  }

  /** tee_ta_get_session up to its first wait. */
  function DoGet(s: State, t: Thread, p: Ptr, exclusive: bool): State
    requires p in s.sessions
  {
    var x := s.sessions[p];
    var y, m := x.(refCount := x.refCount + 1), Refs(s, p) + multiset{t};
    if x.unlink then s
    else if !exclusive then Change(s, p, y, m, t, Idle)
    else if x.lockThread.Some? then Change(s, p, y, m, t, GetWait(p))
    else Change(s, p, y.(lockThread := Some(t)), m, t, Idle)
  }

  /** tee_ta_get_session from a wait on. */
  function DoRetry(s: State, t: Thread, p: Ptr): State
    requires p in s.sessions
  {
    var x := s.sessions[p];
    if x.unlink then Change(s, p, x.(refCount := x.refCount - 1), Refs(s, p) - multiset{t}, t, Idle)
    else if x.lockThread.Some? then s
    else Change(s, p, x.(lockThread := Some(t)), Refs(s, p), t, Idle)
  }

  /** tee_ta_put_session. */
  function DoPut(s: State, t: Thread, p: Ptr): State
    requires p in s.sessions
  {
    var x := s.sessions[p];
    var lock := if x.lockThread == Some(t) then None else x.lockThread;
    Change(s, p, x.(lockThread := lock, refCount := x.refCount - 1), Refs(s, p) - multiset{t}, t, Idle)
  }

  /** tee_ta_unlink_session up to its first wait. */
  function DoUnlink(s: State, t: Thread, p: Ptr): State
    requires p in s.sessions
  {
    var x := s.sessions[p];
    if x.refCount == 1 then Remove(s, p, t) else Change(s, p, x.(unlink := true), Refs(s, p), t, Unlinking(p))
  }

  /** Callers' discipline: a thread puts sessions it has a reference to, unlinks a session it
      has locked, and does not ask again for a lock it holds.  Finding a session by id looks
      at the listed ones. */
  predicate Enabled(s: State, step: Step) {
    match step
    case Open(t, p, id) => PcOf(s, t).Idle? && p !in s.sessions && FreshId(s, id)
    case OpenDone(t) => PcOf(s, t).Opening?
    case OpenFail(t) => PcOf(s, t).Opening? && PcOf(s, t).p in s.sessions
    case Get(t, id, exclusive, found) =>
      && PcOf(s, t).Idle? && Finds(s, id, found)
      && (exclusive && found.Some? ==> s.sessions[found.value].lockThread != Some(t))
    case GetRetry(t) => PcOf(s, t).GetWait? && PcOf(s, t).p in s.sessions
    case Put(t, p) => PcOf(s, t).Idle? && p in s.sessions && t in Refs(s, p)
    case Unlink(t, p) => PcOf(s, t).Idle? && p in s.sessions && s.sessions[p].lockThread == Some(t)
    case UnlinkRetry(t) => PcOf(s, t).Unlinking? && PcOf(s, t).p in s.sessions
  }

  predicate FreshId(s: State, id: nat) {
    0 < id < ID_RANGE && forall q :: q in s.sessions ==> s.sessions[q].id != id
  }

  predicate Finds(s: State, id: nat, found: Option<Ptr>) {
    match found
    case Some(p) => p in s.sessions && s.sessions[p].id == id
    case None => forall q :: q in s.sessions ==> s.sessions[q].id != id
  }

  function Apply(s: State, step: Step): State
    requires Enabled(s, step)
  {
    match step
    case Open(t, p, id) => DoOpen(s, t, p, id)
    case OpenDone(t) => s.(pc := s.pc[t := Idle])
    case OpenFail(t) => Remove(s, PcOf(s, t).p, t)
    case Get(t, id, exclusive, found) => if found.None? then s else DoGet(s, t, found.value, exclusive)
    case GetRetry(t) => DoRetry(s, t, PcOf(s, t).p)
    case Put(t, p) => DoPut(s, t, p)
    case Unlink(t, p) => DoUnlink(s, t, p)
    case UnlinkRetry(t) =>
      var p := PcOf(s, t).p;
      if s.sessions[p].refCount == 1 then Remove(s, p, t) else s
  }

  /** The session a step hands to its caller. */
  function Got(s: State, step: Step): (r: Option<Ptr>)
    requires Enabled(s, step)
  {
    match step
    case Open(t, p, id) => Some(p)
    case Get(t, id, exclusive, found) =>
      if found.None? || s.sessions[found.value].unlink then None
      else if exclusive && s.sessions[found.value].lockThread.Some? then None // still waiting
      else found
    case GetRetry(t) =>
      var x := s.sessions[PcOf(s, t).p];
      if x.unlink || x.lockThread.Some? then None else Some(PcOf(s, t).p)
    case _ => None
  }

  // ---- Invariant ----

  /** The counter is the number of references, and the lock's holder has one of them. */
  ghost predicate Good(x: Session, m: multiset<Thread>) {
    && x.refCount == |m| && 0 < x.id < ID_RANGE
    && (x.lockThread.Some? ==> x.lockThread.value in m)
  }

  /** An unlinked session is still listed only while its closer waits. */
  ghost predicate CloserWaits(x: Session, p: Ptr, s: State) {
    x.unlink ==> x.lockThread.Some? && PcOf(s, x.lockThread.value) == Unlinking(p)
  }

  ghost predicate SessionOk(s: State, p: Ptr) {
    p in s.sessions ==> Good(s.sessions[p], Refs(s, p)) && CloserWaits(s.sessions[p], p, s)
  }

  /** Only listed sessions are referenced. */
  ghost predicate NoDangling(s: State, p: Ptr) {
    p !in s.sessions ==> Refs(s, p) == multiset{}
  }

  ghost predicate Placed(s: State, t: Thread, pc: Pc) {
    match pc
    case Idle => true
    case Opening(p) => p in s.sessions && t in Refs(s, p) && s.sessions[p].lockThread != Some(t)
    case GetWait(p) => p in s.sessions && t in Refs(s, p) && s.sessions[p].lockThread != Some(t)
    case Unlinking(p) => p in s.sessions && s.sessions[p].unlink && s.sessions[p].lockThread == Some(t)
  }

  ghost predicate DistinctIds(s: State) {
    forall p, q :: p in s.sessions && q in s.sessions && s.sessions[p].id == s.sessions[q].id ==> p == q
  }

  ghost predicate Inv(s: State) {
    && (forall p :: SessionOk(s, p)) && (forall p :: NoDangling(s, p))
    && (forall t :: Placed(s, t, PcOf(s, t))) && DistinctIds(s)
  }

  ghost predicate Init(s: State) {
    s.sessions == map[] && s.refs == map[] && s.pc == map[]
  }

  // ---- Steps that change one listed session and one thread ----

  /** Other threads' claims and locks on p are not taken away. */
  ghost predicate SparesOthers(s: State, p: Ptr, x: Session, m: multiset<Thread>, t: Thread)
    requires p in s.sessions
  {
    && (s.sessions[p].unlink ==> x.unlink)
    && (forall u :: u != t && u in Refs(s, p) ==> u in m)
    && (forall u :: u != t ==> (x.lockThread == Some(u) <==> s.sessions[p].lockThread == Some(u)))
  }

  lemma ChangeKeeps(s: State, p: Ptr, x: Session, m: multiset<Thread>, t: Thread, pc: Pc)
    requires Inv(s) && p in s.sessions && SparesOthers(s, p, x, m, t) && x.id == s.sessions[p].id
    requires PcOf(s, t) == Idle || PcOf(s, t).p == p
    requires Good(x, m) && CloserWaits(x, p, Change(s, p, x, m, t, pc)) && Placed(Change(s, p, x, m, t, pc), t, pc)
    ensures Inv(Change(s, p, x, m, t, pc))
  {
    var r := Change(s, p, x, m, t, pc);
    forall q ensures SessionOk(r, q) && NoDangling(r, q) {
      if q != p {
        assert SessionOk(s, q) && NoDangling(s, q);
      }
    }
    forall u ensures Placed(r, u, PcOf(r, u)) {
      if u != t {
        assert Placed(s, u, PcOf(s, u));
      }
    }
  }

  lemma GetKeeps(s: State, t: Thread, p: Ptr, exclusive: bool)
    requires Inv(s) && p in s.sessions && PcOf(s, t) == Idle
    requires exclusive ==> s.sessions[p].lockThread != Some(t)
    ensures Inv(DoGet(s, t, p, exclusive))
  {
    var x := s.sessions[p];
    var y, m := x.(refCount := x.refCount + 1), Refs(s, p) + multiset{t};
    assert SessionOk(s, p);
    if !x.unlink {
      if !exclusive {
        ChangeKeeps(s, p, y, m, t, Idle);
      } else if x.lockThread.Some? {
        ChangeKeeps(s, p, y, m, t, GetWait(p));
      } else {
        ChangeKeeps(s, p, y.(lockThread := Some(t)), m, t, Idle);
      }
    }
  }

  lemma RetryKeeps(s: State, t: Thread, p: Ptr)
    requires Inv(s) && PcOf(s, t) == GetWait(p)
    ensures p in s.sessions && Inv(DoRetry(s, t, p))
  {
    assert Placed(s, t, PcOf(s, t)) && SessionOk(s, p);
    var x := s.sessions[p];
    if x.unlink {
      ChangeKeeps(s, p, x.(refCount := x.refCount - 1), Refs(s, p) - multiset{t}, t, Idle);
    } else if x.lockThread.None? {
      ChangeKeeps(s, p, x.(lockThread := Some(t)), Refs(s, p), t, Idle);
    }
  }

  lemma PutKeeps(s: State, t: Thread, p: Ptr)
    requires Inv(s) && p in s.sessions && PcOf(s, t) == Idle && t in Refs(s, p)
    ensures Inv(DoPut(s, t, p)) && s.sessions[p].refCount > 0
  {
    assert SessionOk(s, p);
    var x := s.sessions[p];
    var lock := if x.lockThread == Some(t) then None else x.lockThread;
    ChangeKeeps(s, p, x.(lockThread := lock, refCount := x.refCount - 1), Refs(s, p) - multiset{t}, t, Idle);
  }

  lemma SoleHolder(m: multiset<Thread>, t: Thread)
    requires |m| == 1 && t in m
    ensures m == multiset{t}
  {
    assert |m - multiset{t}| == 0;
  }

  /** Removal by the only holder. */
  lemma RemoveKeeps(s: State, t: Thread, p: Ptr)
    requires Inv(s) && p in s.sessions && Refs(s, p) == multiset{t} && (PcOf(s, t) == Idle || PcOf(s, t).p == p)
    ensures Inv(Remove(s, p, t))
  {
    var r := Remove(s, p, t);
    assert SessionOk(s, p);
    forall q ensures SessionOk(r, q) && NoDangling(r, q) {
      assert SessionOk(s, q) && NoDangling(s, q);
    }
    forall u ensures Placed(r, u, PcOf(r, u)) {
      assert Placed(s, u, PcOf(s, u));
    }
  }

  /** The asserts of tee_ta_unlink_session hold. */
  lemma UnlinkKeeps(s: State, t: Thread, p: Ptr)
    requires Inv(s) && p in s.sessions && PcOf(s, t) == Idle && s.sessions[p].lockThread == Some(t)
    ensures s.sessions[p].refCount >= 1 && !s.sessions[p].unlink && Inv(DoUnlink(s, t, p))
  {
    var x := s.sessions[p];
    assert SessionOk(s, p);
    if x.refCount == 1 {
      SoleHolder(Refs(s, p), t);
      RemoveKeeps(s, t, p);
    } else {
      ChangeKeeps(s, p, x.(unlink := true), Refs(s, p), t, Unlinking(p));
    }
  }

  lemma UnlinkRetryKeeps(s: State, t: Thread, p: Ptr)
    requires Inv(s) && PcOf(s, t) == Unlinking(p)
    ensures p in s.sessions && (s.sessions[p].refCount == 1 ==> Refs(s, p) == multiset{t} && Inv(Remove(s, p, t)))
  {
    assert Placed(s, t, PcOf(s, t)) && SessionOk(s, p);
    if s.sessions[p].refCount == 1 {
      SoleHolder(Refs(s, p), t);
      RemoveKeeps(s, t, p);
    }
  }

  lemma OpenKeeps(s: State, t: Thread, p: Ptr, id: nat)
    requires Inv(s) && PcOf(s, t) == Idle && p !in s.sessions && FreshId(s, id)
    ensures Inv(DoOpen(s, t, p, id))
  {
    var r := DoOpen(s, t, p, id);
    assert NoDangling(s, p);
    assert Refs(r, p) == multiset{t};
    forall q ensures SessionOk(r, q) && NoDangling(r, q) {
      assert SessionOk(s, q) && NoDangling(s, q);
    }
    forall u ensures Placed(r, u, PcOf(r, u)) {
      assert Placed(s, u, PcOf(s, u));
    }
  }

  lemma OpenDoneKeeps(s: State, t: Thread)
    requires Inv(s) && PcOf(s, t).Opening?
    ensures Inv(s.(pc := s.pc[t := Idle]))
  {
    var r := s.(pc := s.pc[t := Idle]);
    forall q ensures SessionOk(r, q) && NoDangling(r, q) {
      assert SessionOk(s, q) && NoDangling(s, q);
    }
    forall u ensures Placed(r, u, PcOf(r, u)) {
      assert Placed(s, u, PcOf(s, u));
    }
  }

  /** An open that fails takes its session off the list without looking at the counter: that
      keeps the invariant exactly when nobody else has found the session meanwhile. */
  lemma OpenFailKeepsIff(s: State, t: Thread, p: Ptr)
    requires Inv(s) && PcOf(s, t) == Opening(p)
    ensures p in s.sessions && (Inv(Remove(s, p, t)) <==> s.sessions[p].refCount == 1)
    ensures NoDangling(Remove(s, p, t), p) <==> s.sessions[p].refCount == 1
  {
    assert Placed(s, t, PcOf(s, t)) && SessionOk(s, p);
    if s.sessions[p].refCount == 1 {
      SoleHolder(Refs(s, p), t);
      RemoveKeeps(s, t, p);
    } else {
      assert |Refs(s, p) - multiset{t}| > 0;
      assert !NoDangling(Remove(s, p, t), p);
    }
  }

  // ---- Whole runs ----

  /** A failing open finds its session as it left it; after one that does not, the code goes on
      with freed memory. */
  predicate Undisturbed(s: State, step: Step)
    requires Enabled(s, step)
  {
    step.OpenFail? ==> s.sessions[PcOf(s, step.t).p].refCount == 1
  }

  lemma StepKeepsInv(s: State, step: Step)
    requires Inv(s) && Enabled(s, step)
    ensures Inv(Apply(s, step)) <==> Undisturbed(s, step)
  {
    match step
    case Open(t, p, id) => OpenKeeps(s, t, p, id);
    case OpenDone(t) => OpenDoneKeeps(s, t);
    case OpenFail(t) => OpenFailKeepsIff(s, t, PcOf(s, t).p);
    case Get(t, id, exclusive, found) =>
      if found.Some? {
        GetKeeps(s, t, found.value, exclusive);
      }
    case GetRetry(t) => RetryKeeps(s, t, PcOf(s, t).p);
    case Put(t, p) => PutKeeps(s, t, p);
    case Unlink(t, p) => UnlinkKeeps(s, t, p);
    case UnlinkRetry(t) => UnlinkRetryKeeps(s, t, PcOf(s, t).p);
  }

  /** An undisturbed run from s through the steps ends in s'. */
  ghost predicate Reaches(s: State, steps: seq<Step>, s': State)
    decreases |steps|
  {
    if steps == [] then s == s'
    else Enabled(s, steps[0]) && Undisturbed(s, steps[0]) && Reaches(Apply(s, steps[0]), steps[1..], s')
  }

  lemma {:induction false} RunKeepsInv(s: State, steps: seq<Step>, s': State)
    requires Inv(s) && Reaches(s, steps, s')
    ensures Inv(s')
    decreases |steps|
  {
    if steps == [] {
    } else {
      StepKeepsInv(s, steps[0]);
      RunKeepsInv(Apply(s, steps[0]), steps[1..], s');
    }
  }

  lemma InitInv(s: State)
    requires Init(s)
    ensures Inv(s)
  {
  }

  /** Every step is enabled where it is taken, disturbed opens included. */
  ghost predicate Possible(s: State, steps: seq<Step>)
    decreases |steps|
  {
    steps == [] || (Enabled(s, steps[0]) && Possible(Apply(s, steps[0]), steps[1..]))
  }

  /** The state at the end. */
  ghost function After(s: State, steps: seq<Step>): State
    requires Possible(s, steps)
    decreases |steps|
  {
    if steps == [] then s else After(Apply(s, steps[0]), steps[1..])
  }

  /** The invariant holds in every state on the way. */
  ghost predicate InvAlong(s: State, steps: seq<Step>)
    requires Possible(s, steps)
    decreases |steps|
  {
    Inv(s) && (steps == [] || InvAlong(Apply(s, steps[0]), steps[1..]))
  }

  ghost predicate UndisturbedAlong(s: State, steps: seq<Step>)
    requires Possible(s, steps)
    decreases |steps|
  {
    steps == [] || (Undisturbed(s, steps[0]) && UndisturbedAlong(Apply(s, steps[0]), steps[1..]))
  }

  /** A run keeps the invariant exactly when no failing open in it has been disturbed. */
  lemma {:induction false} RunKeepsInvIff(s: State, steps: seq<Step>)
    requires Inv(s) && Possible(s, steps)
    ensures InvAlong(s, steps) <==> UndisturbedAlong(s, steps)
    decreases |steps|
  {
    if steps == [] {
    } else {
      StepKeepsInv(s, steps[0]);
      if Undisturbed(s, steps[0]) {
        RunKeepsInvIff(Apply(s, steps[0]), steps[1..]);
      } else {
        assert !Inv(Apply(s, steps[0]));
      }
    }
  }

  lemma NotAlone(s: State, t: Thread, p: Ptr)
    requires Enabled(s, OpenFail(t)) && PcOf(s, t) == Opening(p) && p in s.sessions && s.sessions[p].refCount > 1
    ensures !Undisturbed(s, OpenFail(t))
  {
  }

  /** Such a run: while t opens a session, u finds it by its id; the open then fails. */
  lemma DisturbedOpenHappens(t: Thread, u: Thread, p: Ptr) returns (s0: State, steps: seq<Step>)
    requires t != u
    ensures Init(s0) && Possible(s0, steps) && !InvAlong(s0, steps)
  {
    s0 := State(map[], map[], map[]);
    InitInv(s0);
    var open, get, fail := Open(t, p, 1), Get(u, 1, false, Some(p)), OpenFail(t);
    var s1 := Apply(s0, open);
    StepKeepsInv(s0, open);
    var s2 := Apply(s1, get);
    steps := [open, get, fail];
    assert PcOf(s2, t) == Opening(p) && p in s2.sessions && s2.sessions[p].refCount == 2;
    assert steps[1..] == [get, fail] && steps[1..][1..] == [fail] && [fail][1..] == [];
    assert Enabled(s2, fail);
    NotAlone(s2, t, p);
    assert Possible(s2, [fail]);
    assert Possible(s1, steps[1..]) && !UndisturbedAlong(s2, [fail]);
    assert Possible(s0, steps) && !UndisturbedAlong(s1, steps[1..]);
    RunKeepsInvIff(s0, steps);
  }

  /** Counters are exact, a session that is not listed has no references, a lock belongs to one
      thread that has a reference, ids are valid and distinct. */
  ghost predicate Consistent(s: State) {
    && (forall p :: p in s.sessions ==> Good(s.sessions[p], Refs(s, p)))
    && (forall p :: NoDangling(s, p)) && DistinctIds(s)
  }

  ghost predicate ConsistentAlong(s: State, steps: seq<Step>)
    requires Possible(s, steps)
    decreases |steps|
  {
    Consistent(s) && (steps == [] || ConsistentAlong(Apply(s, steps[0]), steps[1..]))
  }

  lemma {:induction false} ConsistentIff(s: State, steps: seq<Step>)
    requires Inv(s) && Possible(s, steps)
    ensures ConsistentAlong(s, steps) <==> UndisturbedAlong(s, steps)
    decreases |steps|
  {
    InvConsistent(s);
    if steps == [] {
    } else if Undisturbed(s, steps[0]) {
      StepKeepsInv(s, steps[0]);
      ConsistentIff(Apply(s, steps[0]), steps[1..]);
    } else {
      OpenFailKeepsIff(s, steps[0].t, PcOf(s, steps[0].t).p);
      assert !Consistent(Apply(s, steps[0]));
    }
  }

  lemma InvConsistent(s: State)
    requires Inv(s)
    ensures Consistent(s)
  {
    forall p | p in s.sessions ensures Good(s.sessions[p], Refs(s, p)) {
      assert SessionOk(s, p);
    }
  }

  /** Every state of a run is consistent exactly when no failing open in it is disturbed. */
  lemma SessionsInEveryRun(s0: State, steps: seq<Step>)
    requires Init(s0) && Possible(s0, steps)
    ensures ConsistentAlong(s0, steps) <==> UndisturbedAlong(s0, steps)
  {
    InitInv(s0);
    ConsistentIff(s0, steps);
  }

  /** A session leaves the list by the hand of the one thread that refers to it, unless by a
      disturbed failing open. */
  lemma LeavesAsSole(s: State, step: Step, p: Ptr)
    requires Inv(s) && Enabled(s, step) && p in s.sessions && p !in Apply(s, step).sessions
    ensures Refs(s, p) == multiset{step.t} <==> Undisturbed(s, step)
  {
    assert SessionOk(s, p) && Placed(s, step.t, PcOf(s, step.t));
    if Undisturbed(s, step) {
      SoleHolder(Refs(s, p), step.t);
    }
  }

  /** What a get or an open returns is listed, referenced and not unlinked; an exclusive get
      has the lock, which nobody had. */
  lemma GotIsHeld(s: State, step: Step, p: Ptr)
    requires Inv(s) && Enabled(s, step) && Got(s, step) == Some(p)
    ensures var r := Apply(s, step);
            && p in r.sessions && step.t in Refs(r, p) && !r.sessions[p].unlink && PcOf(r, step.t) != GetWait(p)
            && (step.GetRetry? || (step.Get? && step.exclusive) ==>
                  r.sessions[p].lockThread == Some(step.t) && s.sessions[p].lockThread == None)
  {
    assert Placed(s, step.t, PcOf(s, step.t));
  }

  /** A get answers with a session exactly when its thread has one more reference to it and does not
      wait, which is when the session is found, not unlinked and, for an exclusive get, not locked;
      without an answer the thread waits, or has what it had. */
  lemma GetAnswersIff(s: State, t: Thread, id: nat, exclusive: bool, found: Option<Ptr>, p: Ptr)
    requires Inv(s) && Enabled(s, Get(t, id, exclusive, found))
    ensures var step := Get(t, id, exclusive, found);
            var r := Apply(s, step);
            && (found == Some(p) <==> p in s.sessions && s.sessions[p].id == id)
            && (Got(s, step) == Some(p) <==> Refs(r, p)[t] == Refs(s, p)[t] + 1 && PcOf(r, t) == Idle)
            && (Got(s, step) == Some(p) <==>
                  found == Some(p) && !s.sessions[p].unlink && (exclusive ==> s.sessions[p].lockThread == None))
            && (Got(s, step) == None ==> PcOf(r, t).GetWait? || (PcOf(r, t) == Idle && Refs(r, p)[t] == Refs(s, p)[t]))
            && (Got(s, step) == Some(p) && exclusive ==> r.sessions[p].lockThread == Some(t))
  {
  }

  /** A get resumed after a wait answers exactly when it has the lock now; else it waits on, or has
      given its reference back because the session was unlinked. */
  lemma RetryAnswersIff(s: State, t: Thread, p: Ptr)
    requires Inv(s) && Enabled(s, GetRetry(t)) && PcOf(s, t) == GetWait(p)
    ensures var r := Apply(s, GetRetry(t));
            && (Got(s, GetRetry(t)) == Some(p) <==> r.sessions[p].lockThread == Some(t) && PcOf(r, t) == Idle)
            && (Got(s, GetRetry(t)) == Some(p) <==> !s.sessions[p].unlink && s.sessions[p].lockThread == None)
            && (Got(s, GetRetry(t)) == None ==>
                  if s.sessions[p].unlink then PcOf(r, t) == Idle && Refs(r, p)[t] + 1 == Refs(s, p)[t] else r == s)
  {
    assert Placed(s, t, PcOf(s, t));
  }

  // ---- After unlinking ----

  ghost predicate UnlinkedOrGone(s: State, p: Ptr) {
    p in s.sessions ==> s.sessions[p].unlink
  }

  /** No step of the run hands out p. */
  ghost predicate NeverGot(s: State, steps: seq<Step>, p: Ptr)
    requires Possible(s, steps)
    decreases |steps|
  {
    steps == [] || (Got(s, steps[0]) != Some(p) && NeverGot(Apply(s, steps[0]), steps[1..], p))
  }

  /** The structure is not allocated again. */
  predicate NotReused(steps: seq<Step>, p: Ptr)
    decreases |steps|
  {
    steps == [] || (!(steps[0].Open? && steps[0].p == p) && NotReused(steps[1..], p))
  }

  /** A session once unlinked is not handed out in any run, disturbed or not, and stays unlinked
      until it is removed. */
  lemma {:induction false} NoGetAfterUnlink(s: State, steps: seq<Step>, p: Ptr)
    requires Possible(s, steps) && NotReused(steps, p) && UnlinkedOrGone(s, p)
    ensures NeverGot(s, steps, p) && UnlinkedOrGone(After(s, steps), p)
    decreases |steps|
  {
    if steps == [] {
    } else {
      GoneOrUnlinked(s, steps[0], p);
      NoGetAfterUnlink(Apply(s, steps[0]), steps[1..], p);
    }
  }

  lemma GoneOrUnlinked(s: State, step: Step, p: Ptr)
    requires Enabled(s, step) && !(step.Open? && step.p == p)
    requires UnlinkedOrGone(s, p)
    ensures Got(s, step) != Some(p) && UnlinkedOrGone(Apply(s, step), p)
  {
    match step
    case Get(t, id, exclusive, found) =>
      if found.Some? {
        GetUnlinked(s, t, found.value, exclusive, p);
      }
    case GetRetry(t) => RetryUnlinked(s, t, PcOf(s, t).p, p);
    case Put(t, q) => PutUnlinked(s, t, q, p);
    case Unlink(t, q) => UnlinkUnlinked(s, t, q, p);
    case _ =>
  }

  lemma GetUnlinked(s: State, t: Thread, q: Ptr, exclusive: bool, p: Ptr)
    requires q in s.sessions && UnlinkedOrGone(s, p)
    ensures UnlinkedOrGone(DoGet(s, t, q, exclusive), p)
  {
  }

  lemma RetryUnlinked(s: State, t: Thread, q: Ptr, p: Ptr)
    requires q in s.sessions && UnlinkedOrGone(s, p)
    ensures UnlinkedOrGone(DoRetry(s, t, q), p)
  {
  }

  lemma PutUnlinked(s: State, t: Thread, q: Ptr, p: Ptr)
    requires q in s.sessions && UnlinkedOrGone(s, p)
    ensures UnlinkedOrGone(DoPut(s, t, q), p)
  {
  }

  lemma UnlinkUnlinked(s: State, t: Thread, q: Ptr, p: Ptr)
    requires q in s.sessions && UnlinkedOrGone(s, p)
    ensures UnlinkedOrGone(DoUnlink(s, t, q), p)
  {
  }

  // ---- Session ids ----

  /** tee_ta_find_session_nolock, on the ids of the list. */
  method FindSession(ids: seq<nat>, id: nat) returns (found: Option<nat>)
    ensures found.None? ==> id !in ids
    ensures found.Some? ==> found.value < |ids| && ids[found.value] == id && id !in ids[..found.value]
  {
    var i := 0;
    while i < |ids|
      invariant 0 <= i <= |ids| && id !in ids[..i]
    {
      if ids[i] == id {
        return Some(i);
      }
      i := i + 1;
    }
    found := None;
  }

  /** The id k places after id in the cycle of valid ids. */
  function Later(id: nat, k: nat): (r: nat)
    requires 0 < id < ID_RANGE && k < ID_RANGE
    ensures k < ID_RANGE - 1 ==> 0 < r < ID_RANGE
  {
    if id + k < ID_RANGE then id + k else id + k - (ID_RANGE - 1)
  }

  /** 32-bit increment that skips 0. */
  function NextId(id: nat): nat {
    if id + 1 >= ID_RANGE then 1 else id + 1
  }

  /** new_session_id: the first free id after that of the last session, or 0 if none is. */
  method NewSessionId(ids: seq<nat>) returns (id: nat)
    requires forall i :: 0 <= i < |ids| ==> 0 < ids[i] < ID_RANGE
    ensures id < ID_RANGE && id !in ids
    ensures id == 0 <==> forall v :: 0 < v < ID_RANGE ==> v in ids
    ensures var first := if ids == [] then 1 else NextId(ids[|ids| - 1]);
            id != 0 ==> exists k: nat ::
              k < ID_RANGE - 1 && id == Later(first, k) && forall j: nat :: j < k ==> Later(first, j) in ids
  {
    id := if ids == [] then 1 else NextId(ids[|ids| - 1]);
    var saved := id;
    ghost var k := 0;
    while true
      invariant 0 <= k < ID_RANGE - 1 && 0 < saved < ID_RANGE && id == Later(saved, k)
      invariant forall j: nat :: j < k ==> Later(saved, j) in ids
      decreases ID_RANGE - k
    {
      var found := FindSession(ids, id);
      if found.None? {
        return;
      }
      id := NextId(id);
      k := k + 1;
      if id == saved {
        break;
      }
    }
    forall v | 0 < v < ID_RANGE ensures v in ids {
      var j := if v >= saved then v - saved else v - saved + (ID_RANGE - 1);
      assert Later(saved, j) == v;
    }
    id := 0;
  }
}
