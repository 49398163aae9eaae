# Verified models of OP-TEE OS

This project models the parts of OP-TEE OS where correctness depends on many steps working
together, and proves what those parts promise. Everything is Dafny. `dafny verify dfyconfig.toml`
checks all of it.

**Locks and deadlock detection.** `WaitQueue`, `Mutex`, `MutexProgress`, `MutexService` and `RecursiveMutex`
are the reader/writer mutex, its condition variables and its recursive variant, as state machines in which
every spinlock-protected section is one step, any number of threads take part, and a sleeper may wake at
any time. `MutexService` says what each step gives its caller, and that every signalled waiter can be
served. `LockGraph` and `Lockdep` are the lock-order graph: depth-first sort, breadth-first search for a
shortest cycle, acquire, release, destroy. `MutexDeadlock` joins the two: while lockdep accepts every
acquire, no circle of blocked threads can arise. `MutexOrder` says exactly which acquires it accepts, so
that programs which take mutexes in some order are never stopped.

**Sessions and busy contexts of trusted applications (TAs).** `TaSession` and `TaBusy` are the monitor
protocols under `tee_ta_mutex`, with spurious wakeups, for the build without
`CFG_CONCURRENT_SINGLE_INSTANCE_TA`. `TaSessionClosing` says exactly when a thread that closes a session
gets through: unless it is in a knot, a set of threads each of which waits for one of them.

**Cryptographic modes.** `Ghash` and `GhashTable` show that the 4-bit table multiplication is the bitwise
one. `GcmSpec`, `Gcm` and `GcmContext` show that AES-GCM in pieces of any size at any address is AES-GCM on
the whole message. `BlockModes` and `AesCts` are CBC and ciphertext stealing, `Sm4` is the cipher with its
modes, `Sm3` the hash and HMAC; `ByteStrings` is what they share. AES, the S-box and the SM3 compression
function are parameters: the theorems hold for every choice of them.

**Layout, index and database code.** `Tzc380` is the region cover of the TrustZone controller,
`ElfSegments` the merging of load segments from program headers on, `PageRelocs` the relocation index of the read-only pager,
`VersionDb` the rollback database, with storage that may fail at every access.

Imperative code is modelled by methods with loops and by classes whose fields the methods update, each
proved against a specification function or a declarative statement; the protocols are step relations
with inductive invariants, and their theorems speak of every finite run.

## Where the code is less than one might expect

Each of these is stated as an exact condition, so that a caller can tell when the good case holds.

- A condition variable signalled without its mutex held loses the wakeup exactly when the mutex is free,
  nobody is marked done, no wakeup is under way and somebody waits for it
  (`MutexProgress.UnheldSignalLosesWakeup`, with a run in `MutexProgress.LostSignalHappens`).
- A recursive mutex locked 2^32 times by one thread has depth zero again, and the next lock or unlock
  panics. Nothing else in it does (`RecursiveMutex.OwnerHoldsWithDepth`, with a run in
  `RecursiveMutex.TooDeepHappens`).
- A session whose opening fails is taken off the list without a look at its reference count. That is
  safe exactly when the count is 1 (`TaSession.OpenFailKeepsIff`); otherwise another thread has found the
  session, and the failing open is called disturbed. A run is safe exactly when no failing open in it is
  disturbed (`TaSession.RunKeepsInvIff`, with a run that is not safe in `TaSession.DisturbedOpenHappens`).
- In runs without a disturbed failing open, a thread that closes a session can get through exactly when
  it is in no knot (`TaSessionClosing.ClosesIff`). One that has another reference of its own is a knot by
  itself: `tee_ta_open_session` does this for a panicked context (`TaSessionClosing.OwnReferenceHappens`).
  So are two closers with references to each other's session (`TaSessionClosing.CircularClosersWait`).
  Counting runs that end with a disturbed failing open, the session can leave the list exactly when the
  closer is in no knot or somebody is still opening the session (`TaSessionClosing.LeavesIff`, with a run
  in `TaSessionClosing.OpenerUndoesKnot`).
- A rejected acquire leaves the marks of the depth-first search behind. A sort succeeds exactly when no
  walk from a node without flags, through nodes without left-over marks, ends at a left-over temporary
  mark or at one of its own nodes (`Lockdep.Graph.Sort`). So it can accept a graph with a cycle
  (`Lockdep.AcceptedAfterRejection`); the wrappers that locks use panic before that.
- Merging two load segments compares only low bits of their displacements. The merged bytes are the
  file's exactly when the displacements are equal (`ElfSegments.MappedRightIff`, with an example in
  `ElfSegments.MergeMayShift`).
- The count of relocations includes one exactly at the object's end, the index does not. The final
  assert of `init_rels` holds exactly when there is none (`PageRelocs.RelocPaged.InitRels`, with an
  example in `PageRelocs.EndIsCounted`).
- The index of relocations has 16 bits. It is right exactly when every page's first relocation has a
  number below 65535 (`PageRelocs.RelocPaged.InitRels`, `PageRelocs.IndexedOnlyIfFit`, with an example in
  `PageRelocs.DenseDoesNotFit`). With more than 65535 relocations a page behind the last one is given
  those of another page (`PageRelocs.RelocPaged.Relocate`, with an example in
  `PageRelocs.DenseIsNotReached`).
- The byte count of SM3 stays right exactly for updates below 2^32 bytes and those that carry once
  (`Sm3.CountRightIff`, with an example in `Sm3.CountSlips`).
- Associated data given to AES-GCM after an empty payload update is accepted, behind a zero-padded
  block (`GcmContext.UpdateAad`, `GcmContext.Reopened`).

## Model

| member | source | states |
|---|---|---|
| `LockGraph.RankedIsAcyclic` | core/kernel/lockdep.c:211-252 | a finishing order of the depth-first search proves the graph acyclic |
| `LockGraph.ClosingEdgeMakesCycle` | core/kernel/lockdep.c:216-217 | meeting a node of the current search path proves a cycle |
| `LockGraph.AcquireEdgesAre` | core/kernel/lockdep.c:77-99 | an acquire adds exactly the edges from every owned lock to the new one |
| `LockGraph.NewCyclePassesThrough` | core/kernel/lockdep.c:346-363 | if the graph was acyclic, every cycle after an acquire passes through the acquired lock, and one starts there |
| `LockGraph.WithoutNodeIs` | core/kernel/lockdep.c:461-501 | destroying a node removes exactly the edges at it |
| `LockGraph.FewerEdgesKeepAcyclic` | core/kernel/lockdep.c:461-501 | a graph with fewer edges stays acyclic |
| `Lockdep.OwnedQueue.Release` | core/kernel/lockdep.c:404-419 | removes the most recent entry of the lock, or reports that there is none and changes nothing |
| `Lockdep.OwnedQueue.LastIndex` | core/kernel/lockdep.c:404-419 | the entry found from the end is the last one with that id |
| `Lockdep.Graph.Visit` | core/kernel/lockdep.c:211-232 | terminates; success finishes the node, failure has walked into a trap all of whose nodes are now marked |
| `Lockdep.Graph.Sort` | core/kernel/lockdep.c:234-252 | for any flags left over: succeeds iff no walk from a node without flags, through nodes without marks, ends at a left-over temporary mark or at one of its own nodes; with no flag left over that is iff the graph is acyclic; success clears all flags |
| `Lockdep.UntrappedIsAcyclic` | core/kernel/lockdep.c:211-252 | without left-over flags such walks exist iff the graph has a cycle |
| `Lockdep.AllFinished` | core/kernel/lockdep.c:234-252 | when every node without a flag is finished, no such walk exists |
| `Lockdep.TrapFound` | core/kernel/lockdep.c:216-217 | meeting a node with the temporary mark only ends such a walk |
| `Lockdep.Discovery.WalkIsDiscovered` | core/kernel/lockdep.c:128-209 | the breadth-first search has met every node of a walk from the start, no later than the walk does |
| `Lockdep.Discovery.NoShorterCycle` | core/kernel/lockdep.c:128-209 | no cycle through the start is shorter than the entry being expanded |
| `Lockdep.Graph.FollowEdge` | core/kernel/lockdep.c:157-199 | one edge closes a shortest cycle, extends the search, or finds no memory for either |
| `Lockdep.Graph.ExpandEntry` | core/kernel/lockdep.c:148-203 | one queue entry closes a shortest cycle, leaves the frontier complete, or runs out of memory |
| `Lockdep.Graph.Search` | core/kernel/lockdep.c:148-203 | the queue loop terminates; emptied without a cycle it proves that there is none, and what it met bounds what it allocated |
| `Lockdep.Graph.ShortestCycle` | core/kernel/lockdep.c:128-209 | finds a real cycle through the start of minimum length, or none exists, or memory ran out, which takes a heap of at most two allocations per node |
| `Lockdep.Graph.FindEdge` | core/kernel/lockdep.c:254-266 | the nested search over nodes and their edge lists finds the edge if and only if it exists |
| `Lockdep.Graph.ReportCycle` | core/kernel/lockdep.c:292-324 | after a rejected acquire the result is a shortest cycle, and what is printed is its edges in order, the closing one last; it is missing only for want of memory |
| `Lockdep.Graph.AddToGraph` | core/kernel/lockdep.c:23-43 | the node is there afterwards, without new edges, unless memory ran out |
| `Lockdep.Graph.AddEdges` | core/kernel/lockdep.c:334-374 | adds the edges of a prefix of the owned queue, all of them unless memory ran out |
| `Lockdep.Graph.Acquire` | core/kernel/lockdep.c:334-374 | on success the graph is acyclic with exactly the new edges and the lock is owned; on rejection a shortest cycle through the lock is reported edge by edge and a cycle is left marked; out of memory, which takes too small a heap, the edges are the old ones or those of a prefix of the owned locks; the assert of the report fails only with too small a heap |
| `Lockdep.AcceptedAfterRejection` | core/kernel/lockdep.c:334-374 | a lock taken twice is rejected, and the next sort accepts the graph with its cycle |
| `Lockdep.Graph.TryAcquire` | core/kernel/lockdep.c:381-402 | records the lock without edges, so the graph stays acyclic |
| `Lockdep.Graph.UnlinkEdges` | core/kernel/lockdep.c:461-501 | removes every edge to the node from one list |
| `Lockdep.Graph.Destroy` | core/kernel/lockdep.c:461-514 | removes the node and all edges at it, and keeps the graph acyclic |
| `WaitQueue.FirstScanWakes` | core/kernel/wait_queue.c:94-142 | if somebody waits actively, the first scan marks somebody done |
| `WaitQueue.Promote` | core/kernel/wait_queue.c:144-178 | turns one or all waiters of the condvar into plain waiters and touches no other |
| `WaitQueue.ScanProgress` | core/kernel/wait_queue.c:94-142 | each further scan moves on, so waking all readers terminates |
| `WaitQueue.NotOvertaken` | core/kernel/wait_queue.c:43-142 | whatever is queued behind it, the waiter that the next scan would have marked is the one it marks |
| `WaitQueue.Queue.WaitInit` | core/kernel/wait_queue.c:43-72 | the walk to the tail queues a waiter behind all others, and the waiter that was first eligible stays first eligible |
| `WaitQueue.Queue.WakeScan` | core/kernel/wait_queue.c:94-142 | marks exactly the first eligible waiter |
| `WaitQueue.Queue.WakeNext` | core/kernel/wait_queue.c:94-142 | wakes one writer, or all readers if the first waiter is one |
| `WaitQueue.Queue.PromoteCondvar` | core/kernel/wait_queue.c:144-178 | in place, the promotion above |
| `Mutex.StepKeepsInv` | core/kernel/mutex.c:25-233 | every step of lock, unlock, trylock, the read variants, condvar wait and signal keeps the invariant |
| `Mutex.RunKeepsInv` | core/kernel/mutex.c:25-443 | so does every run |
| `Mutex.ExclusionInEveryRun` | core/kernel/mutex.c:25-233 | in every reachable state the state word is -1 iff one writer holds the mutex, n > 0 iff n readers do, 0 iff nobody does |
| `Mutex.ReleaseNeverPanics` | core/kernel/mutex.c:90-170 | the panics and asserts of the release paths cannot be reached |
| `Mutex.NoLostWakeup` | core/kernel/mutex.c:90-443 | in every reachable state a free mutex with an active waiter has a thread before its first scan, a woken thread about to retry, or a waiter already marked done |
| `Mutex.CvReleaseKeepsInv` | core/kernel/mutex.c:396-443 | the section of condvar wait that queues the thread and releases the mutex keeps the invariant |
| `Mutex.SignalKeepsInv` | core/kernel/mutex.c:358-371 | a signal by a holder keeps the invariant |
| `MutexProgress.FreeMutexIsHandedOn` | core/kernel/mutex.c:25-443 | from every reachable state with a free mutex and a waiter, threads already inside the mutex code can take it without any new call |
| `MutexProgress.WakerHandsOn` | core/kernel/mutex.c:90-109 | a thread in the unlock path leads to somebody taking the mutex |
| `MutexProgress.WokenTakes` | core/kernel/wait_queue.c:74-92 | a waiter marked done can leave its sleep and take the mutex, for reading or writing as its element says |
| `MutexProgress.UnheldSignalLosesWakeup` | core/kernel/mutex.c:358-371 | from every state of the invariant, a signal by anybody keeps the no-lost-wakeup condition iff the mutex is held, somebody is marked done, a wakeup is under way, or nobody waits for the condvar |
| `MutexProgress.CondvarSleeper` | core/kernel/mutex.c:396-443 | a run in which a thread sleeps on a condvar beside a free mutex |
| `MutexProgress.LostSignalHappens` | core/kernel/mutex.c:358-371 | a run after which a signal by a second thread, which does not hold the mutex, is lost |
| `MutexService.SectionTakesIff` | core/kernel/mutex.c:25-210 | from every state of the invariant, mutex_lock gets the mutex iff nobody holds it and mutex_read_lock iff no writer does; else the thread sleeps as the last active waiter |
| `MutexService.TryTakesIff` | core/kernel/mutex.c:127-233 | the same for the trylock variants, which else change nothing |
| `MutexService.ReleaseGivesBack` | core/kernel/mutex.c:90-170 | an unlock gives back one hold of its thread and begins a wake-up iff the mutex is free then |
| `MutexService.CvReleaseSleeps` | core/kernel/mutex.c:396-443 | condvar wait gives back one hold and queues its thread last, for the condvar and with the kind of hold it had |
| `MutexService.SignalReleases` | core/kernel/mutex.c:358-371 | from every state of the invariant, a signal makes the first waiter of the condvar a plain one, a broadcast every one, and changes nothing else; if there was one, there is an active waiter then |
| `MutexService.WakeUpIs` | core/kernel/wait_queue.c:94-142 | run alone, the scans of a wake-up mark the first active waiter and, if it is a reader, every other active reader, and no more |
| `MutexService.ServesWaiter` | core/kernel/wait_queue.c:74-142 | behind a free mutex with a wake-up begun every plain waiter can get the mutex as it wants it, those ahead of it taking it and giving it back |
| `MutexService.SignalServes` | core/kernel/mutex.c:358-443 | when the lone holder signals and unlocks, every waiter that the signal let go can return from condvar wait with the mutex as it held it before; with no active waiter ahead, by steps of threads inside the mutex code alone |
| `MutexDeadlock.SysStepKeepsInv` | core/kernel/mutex_lockdep.c:37-73 | with the hooks, every step keeps the graph acyclic and every held or wanted pair of mutexes recorded in it |
| `MutexDeadlock.SysRunKeepsInv` | core/kernel/mutex_lockdep.c:37-73 | so does every run |
| `MutexDeadlock.RecordAcquire` | core/kernel/mutex_lockdep.c:37-45 | after the hook every mutex the thread holds has an edge to the one it wants |
| `MutexDeadlock.NoCircularWait` | core/kernel/mutex.c:25-67 | in every run without a rejected acquire, no chain of threads blocked on write-locked mutexes returns to its first thread |
| `MutexDeadlock.WaitChainIsShort` | core/kernel/mutex.c:25-67 | a chain of waits is no longer than the number of mutexes |
| `MutexDeadlock.EveryWaitChainEnds` | core/kernel/mutex.c:25-67 | following the waits from any thread ends at one that is not blocked on a write-locked mutex |
| `MutexDeadlock.WaitsHappen` | core/kernel/mutex.c:25-67 | a run exists in which one thread waits for another, so the theorems are about waits that happen |
| `MutexOrder.AcceptedIff` | core/kernel/lockdep.c:334-374 | in every state of the invariant a lock call is stopped iff the recorded order leads from the wanted mutex to one that the thread holds |
| `MutexOrder.OtherHooksPass` | core/kernel/mutex_lockdep.c:47-73 | no other hook stops a thread that unlocks or waits with what it holds for writing |
| `MutexOrder.InOrderEnabled` | core/kernel/mutex_lockdep.c:37-45 | a lock call for a mutex ranked above all that the thread holds is accepted when the recorded order rises in rank |
| `MutexOrder.OrderedNeverStopped` | core/kernel/mutex_lockdep.c:37-73 | for every ranking, every run of the mutex code whose lock calls all go up in rank is a run with lockdep attached |
| `MutexOrder.ChainsHappen` | core/kernel/mutex.c:25-67 | for every n a run with lockdep attached reaches a chain of n waits |
| `RecursiveMutex.StepKeepsInv` | core/kernel/mutex.c:69-125 | every load, store and compare-and-swap keeps owner, holder, depth and nesting in agreement, and panics iff its thread is 2^32 locks deep |
| `RecursiveMutex.RunKeepsInv` | core/kernel/refcount.c:10-52 | the same over every run, with swaps that fail for no reason |
| `RecursiveMutex.OwnerHoldsWithDepth` | core/kernel/mutex.c:69-125 | in every run a panic or failed assert is reached iff a thread acts 2^32 locks deep, and else the owner holds the mutex and between calls the depth is its nesting |
| `RecursiveMutex.TooDeepHappens` | core/kernel/refcount.c:10-29 | a run that gets so deep and panics |
| `RecursiveMutex.SwapCounts` | core/kernel/refcount.c:10-52 | a swap counts one more or one fewer open lock call, and an unlock goes on to release the mutex iff none is left |
| `RecursiveMutex.UnlocksFree` | core/kernel/mutex.c:111-125 | however deep a thread has locked the mutex, as many unlock calls free it |
| `TaSession.StepKeepsInv` | core/kernel/tee_ta_manager.c:178-285 | a step of open, get, put and unlink keeps the session invariant iff it is no failing open whose session another thread has found |
| `TaSession.RunKeepsInvIff` | core/kernel/tee_ta_manager.c:178-285 | of all runs, disturbed or not, exactly those keep the invariant in every state in which no failing open is disturbed |
| `TaSession.DisturbedOpenHappens` | core/kernel/tee_ta_manager.c:693-698 | a run in which a failing open is disturbed and the invariant lost |
| `TaSession.SessionsInEveryRun` | core/kernel/tee_ta_manager.c:178-285 | in a run from the start every state has exact counts, no reference to an unlisted session, locks whose holder has a reference, and nonzero distinct ids, iff no failing open is disturbed |
| `TaSession.LeavesAsSole` | core/kernel/tee_ta_manager.c:267-285 | when a session leaves the list, the thread that takes it off has the one remaining reference, iff it is no disturbed failing open |
| `TaSession.GotIsHeld` | core/kernel/tee_ta_manager.c:229-265 | what a get returns is listed, referenced and not unlinked, and an exclusive get has the lock that nobody had |
| `TaSession.GetAnswersIff` | core/kernel/tee_ta_manager.c:229-265 | a get finds the session with the id iff there is one, answers with it iff it is not unlinked and, if exclusive, not locked, which is iff the thread has one more reference and does not wait; without an answer it waits or has what it had |
| `TaSession.RetryAnswersIff` | core/kernel/tee_ta_manager.c:250-264 | a resumed get answers iff it has the lock now, waits on while another has it, and gives its reference back if the session was unlinked |
| `TaSession.NoGetAfterUnlink` | core/kernel/tee_ta_manager.c:229-285 | in every run, disturbed or not, from an unlinked session on, no get returns it and it stays unlinked until removed |
| `TaSession.UnlinkKeeps` | core/kernel/tee_ta_manager.c:267-285 | the asserts of the unlink hold and it keeps the invariant |
| `TaSession.UnlinkRetryKeeps` | core/kernel/tee_ta_manager.c:279-282 | when the closer finds the count at 1, the reference is its own and removal keeps the invariant |
| `TaSession.GetKeeps` | core/kernel/tee_ta_manager.c:229-256 | a get up to its first wait keeps the invariant |
| `TaSession.RetryKeeps` | core/kernel/tee_ta_manager.c:250-261 | a get resumed after a wait keeps it |
| `TaSession.PutKeeps` | core/kernel/tee_ta_manager.c:178-197 | a put keeps it and never drops a count of zero |
| `TaSession.OpenKeeps` | core/kernel/tee_ta_manager.c:641-666 | opening under an id that no listed session has keeps it |
| `TaSession.OpenFailKeepsIff` | core/kernel/tee_ta_manager.c:693-698 | the removal after a failed open keeps the invariant iff the count is 1 |
| `TaSession.FindSession` | core/kernel/tee_ta_manager.c:199-213 | finds the first session with the id, or there is none |
| `TaSession.NewSessionId` | core/kernel/tee_ta_manager.c:615-639 | returns the first unused nonzero id after the last session's, with 32-bit wrap, and 0 iff all are used |
| `TaSessionClosing.KnotNeverCloses` | core/kernel/tee_ta_manager.c:229-285 | in every run, a closer in a knot waits on and its session stays listed, whatever the other threads do, up to a disturbed failing open if there is one |
| `TaSessionClosing.GetsThrough` | core/kernel/tee_ta_manager.c:178-285 | from every state a closer in no knot has an undisturbed run that takes its session off the list |
| `TaSessionClosing.ClosesIff` | core/kernel/tee_ta_manager.c:267-285 | by runs without a disturbed failing open a closer can get through iff it is in no knot |
| `TaSessionClosing.LeavesIff` | core/kernel/tee_ta_manager.c:267-285 | by runs that may end with a disturbed failing open, the session of a closer can leave the list iff the closer is in no knot or somebody is still opening the session |
| `TaSessionClosing.KnotLeftBy` | core/kernel/tee_ta_manager.c:693-698 | from a knot the session of a closer leaves the list, in a run without a disturbed failing open before the last step, by a failing open of that session only |
| `TaSessionClosing.OpenerUndoesKnot` | core/kernel/tee_ta_manager.c:693-698 | a run to a closer that can get through only in that way |
| `TaSessionClosing.ClosesUnlessOwn` | core/kernel/tee_ta_manager.c:267-285 | if no other thread with a reference waits for another session, a closer can get through, by runs without a disturbed failing open, iff its one reference is its only one |
| `TaSessionClosing.CircularClosersWait` | core/kernel/tee_ta_manager.c:267-285 | two closers with references to each other's session never get through, and a session of theirs can leave the list only while somebody is still opening it |
| `TaSessionClosing.OwnReferenceHappens` | core/kernel/tee_ta_manager.c:729-734 | opening a session and closing it before the put, as for a panicked context, ends in a wait that no run, ending with a disturbed failing open or not, can end |
| `TaBusy.StepKeepsInv` | core/kernel/tee_ta_manager.c:64-176 | every step keeps the busy and single-instance invariant |
| `TaBusy.RunKeepsInv` | core/kernel/tee_ta_manager.c:64-176 | so does every run |
| `TaBusy.BusyInEveryRun` | core/kernel/tee_ta_manager.c:116-176 | in every reachable state a non-concurrent context is busy iff exactly one thread is inside it, the lock owner if it is single-instance |
| `TaBusy.LockInEveryRun` | core/kernel/tee_ta_manager.c:64-96 | the count is the number of busy single-instance contexts, all of them the owner's, and the owner never waits |
| `TaBusy.RefusedIff` | core/kernel/tee_ta_manager.c:116-153 | an attempt is refused iff the thread has the lock and the context is busy, for a single-instance context iff it re-enters; the owner is never made to wait |
| `TaBusy.OutcomeIs` | core/kernel/tee_ta_manager.c:116-153 | an attempt waits iff another thread owns the lock a single-instance context needs, or another context is busy and the thread does not own the lock; it is refused iff the thread owns the lock and the context is busy; else it enters, with the new state given exactly |
| `TaBusy.RetryEntersIff` | core/kernel/tee_ta_manager.c:64-153 | a waiter for a context enters iff it finds it idle, a waiter for the lock iff it finds it free |
| `TaBusy.ClearLetsIn` | core/kernel/tee_ta_manager.c:161-176 | after a clear any thread that waits for the context can enter |
| `TaBusy.LockRetryEnters` | core/kernel/tee_ta_manager.c:64-77 | a waiter that gets the lock finds the count at 0 and is not refused |
| `TaBusy.ClearKeeps` | core/kernel/tee_ta_manager.c:161-176 | the asserts of clearing and unlocking hold and the invariant is kept |
| `TaBusy.ClearUndoesSet` | core/kernel/tee_ta_manager.c:116-176 | clearing after a successful set restores flags, count and owner |
| `Ghash.ProductCommutes` | core/crypto/aes-gcm.c:523-548 | the bit-by-bit product of section 6.3 of NIST SP 800-38D is commutative |
| `Ghash.DotExchange` | core/crypto/aes-gcm.c:523-548 | multiplications by two elements commute |
| `GhashTable.GfMul` | core/crypto/aes-gcm.c:523-548 | the shift-and-add loop computes the product |
| `GhashTable.ShiftWords` | core/crypto/aes-gcm.c:541-543 | one shift of the two words with the reduction constant is multiplication by x |
| `GhashTable.GhashKey.GenTbl` | core/crypto/aes-gcm-ghash-tbl.c:49-91 | entry i of the tables is i times H |
| `GhashTable.GhashKey.GenPowers` | core/crypto/aes-gcm-ghash-tbl.c:62-78 | the entries 8, 4, 2, 1 are H, xH, x^2 H, x^3 H, entry 0 is zero |
| `GhashTable.GhashKey.GenSums` | core/crypto/aes-gcm-ghash-tbl.c:80-90 | the other entries are sums of those |
| `GhashTable.Last4Correct` | core/crypto/aes-gcm-ghash-tbl.c:98-103 | the constants are what shifting four bits out leaves to reduce |
| `GhashTable.Shift4Words` | core/crypto/aes-gcm-ghash-tbl.c:109-145 | a 4-bit shift with the table is multiplication by x^4 |
| `GhashTable.MultTbl` | core/crypto/aes-gcm-ghash-tbl.c:109-145 | the nibble loop computes the product with H |
| `GhashTable.TableEqualsBitwise` | core/crypto/aes-gcm-ghash-tbl.c:109-145 | for every H and block the table product equals the bitwise product, with its arguments in either order |
| `GcmSpec.AfterValue` | core/crypto/aes-gcm.c:346-356 | n increments of the counter block add n modulo 2^128 |
| `GcmSpec.NoPartialBlock` | core/crypto/aes-gcm.c:200-206 | a 32-bit byte count that has wrapped to zero leaves no partial block |
| `GcmSpec.LenBlockIs` | core/crypto/aes-gcm.c:57-67 | the length block is the bit length of the first argument, then of the second, each modulo 2^32, as 64-bit big-endian numbers |
| `GcmSpec.ShortNonceCounter` | core/crypto/aes-gcm.c:84-86 | with the code's increment a 96-bit nonce gives a first counter of value nonce times 2^32 plus 1 |
| `GcmSpec.LongNonceCounter` | core/crypto/aes-gcm.c:87-93 | any other nonce gives the hash of the padded nonce and its bit length, read as a number |
| `GcmSpec.PadIs` | core/crypto/aes-gcm.c:48-54 | padding adds zeros up to the next whole block |
| `GcmSpec.TagIs` | core/crypto/aes-gcm.c:266-288 | the tag is the encrypted first counter over the hash of padded associated data, padded ciphertext and the two bit lengths, in this order |
| `GcmSpec.HashFinish` | core/crypto/aes-gcm.c:200-206 | closing the running hash with zeros gives the hash of the padded string |
| `GcmSpec.CryptInvolution` | core/crypto/aes-gcm-sw.c:53-105 | the stream encryption is its own inverse |
| `GcmSpec.CryptConcat` | core/crypto/aes-gcm.c:189-255 | it can be cut anywhere |
| `GcmSpec.CryptAt` | core/crypto/aes-gcm-sw.c:53-105 | byte i of the payload is combined with byte i mod 16 of the encrypted counter number i / 16 + 1 |
| `Gcm.GhashUpdate` | core/crypto/aes-gcm-sw.c:37-51 | hashes the head block and then all data blocks |
| `Gcm.HashAad` | core/crypto/aes-gcm.c:153-178 | for any data at any address and any alignment predicate, the state becomes that of hashing all data in order |
| `Gcm.FullBlockHashed` | core/crypto/aes-gcm.c:157-175 | a block completed in the buffer and hashed leaves the state of the longer string |
| `Gcm.CryptPartOk` | core/crypto/aes-gcm.c:211-243 | a partial block gives the stream encryption of its bytes and keeps counter, stream buffer and hash in step, in both modes |
| `Gcm.CryptBlockOk` | core/crypto/aes-gcm-sw.c:53-105 | so does a whole block |
| `Gcm.CryptBlocks` | core/crypto/aes-gcm-sw.c:68-143 | so do whole blocks in a row |
| `Gcm.CryptAll` | core/crypto/aes-gcm.c:210-252 | so does payload of any length from any position |
| `GcmContext.PadZero` | core/crypto/aes-gcm.c:27-55 | hashes the zero-padded nonce, aligned or not |
| `GcmContext.FirstCounter` | core/crypto/aes-gcm.c:84-93 | makes the first counter block from the nonce |
| `GcmContext.StartedOk` | core/crypto/aes-gcm.c:69-122 | the state after initialisation has seen the empty message |
| `GcmContext.AadFinished` | core/crypto/aes-gcm.c:200-206 | the first payload call closes the associated data with zeros |
| `GcmContext.NothingToFinish` | core/crypto/aes-gcm.c:200-206 | later ones do not, even when the byte counter has wrapped to zero |
| `GcmContext.UpdateAad` | core/crypto/aes-gcm.c:140-181 | refused iff the payload counter is not zero; otherwise the data joins the associated data; after payload whose counter wrapped to zero it goes into the hash and the byte count and changes nothing else |
| `GcmContext.Reopened` | core/crypto/aes-gcm.c:148-149 | after an empty payload update the context takes associated data again, over the padded data |
| `GcmContext.UpdatePayload` | core/crypto/aes-gcm.c:189-264 | output is the stream encryption at the message's position, and the message grows by the ciphertext |
| `GcmContext.MakesTag` | core/crypto/aes-gcm.c:266-288 | the tag buffer ends with the tag of the whole message |
| `GcmContext.Context.Init` | core/crypto/aes-gcm.c:69-138 | refuses tags above 16 bytes, else starts the empty message under the nonce |
| `GcmContext.Context.TakeAad` | core/crypto/aes-gcm.c:183-187 | the message's associated data grows by the data |
| `GcmContext.Context.TakePayload` | core/crypto/aes-gcm.c:257-264 | the payload contract on the context |
| `GcmContext.Context.Finish` | core/crypto/aes-gcm.c:266-288 | last payload and tag |
| `GcmContext.Context.EncFinal` | core/crypto/aes-gcm.c:290-316 | short buffer iff there is too little room, and then nothing changes; else ciphertext and tag |
| `GcmContext.Context.DecFinal` | core/crypto/aes-gcm.c:318-344 | accepts iff the tag has the agreed length and is the message's tag |
| `GcmContext.Seal` | core/crypto/aes-gcm.c:370-391 | for every cutting of associated data and text, ciphertext and tag are those of the whole message |
| `GcmContext.Open` | core/crypto/aes-gcm.c:393-414 | for every cutting, the text is that of the whole message and it is accepted iff the tag is right |
| `GcmContext.SealOpen` | core/crypto/aes-gcm.c:140-336 | what was sealed in some pieces opens, in any other pieces, to the same text and is accepted |
| `BlockModes.CbcRoundTrip` | core/crypto/aes-cts.c:104-106 | CBC decryption inverts CBC encryption |
| `BlockModes.EncJoin` | core/crypto/aes-cts.c:104-106 | CBC encryption in two calls is that of one call |
| `BlockModes.DecJoin` | core/crypto/aes-cts.c:104-106 | the same for decryption |
| `BlockModes.ChainsInverse` | core/crypto/aes-cts.c:141-146 | any block permutation chained in CBC is invertible block by block |
| `AesCts.CtsRoundTrip` | core/crypto/aes-cts.c:93-187 | for every final length above one block, decryption inverts encryption |
| `AesCts.LastBlock` | core/crypto/aes-cts.c:140-152 | the stolen tail is the tail of the last block decrypted by itself |
| `AesCts.StreamRoundTrip` | core/crypto/aes-cts.c:93-187 | over any permutation and after any whole-block updates the two sides have the same chaining value and the final piece comes back |
| `AesCts.CtsJoin` | core/crypto/aes-cts.c:104-138 | whole-block updates and a final piece of any length above a block give what one call on all of it gives |
| `AesCts.Context.EncryptBlocks` | core/crypto/aes-cts.c:104-106 | the block loop is CBC encryption and keeps the chaining value |
| `AesCts.Context.DecryptBlocks` | core/crypto/aes-cts.c:104-106 | the block loop is CBC decryption and keeps the chaining value |
| `AesCts.Context.EncryptLast` | core/crypto/aes-cts.c:116-138 | two CBC calls and a copy give pad, encrypt, swap, truncate |
| `AesCts.Context.DecryptLast` | core/crypto/aes-cts.c:139-185 | one ECB and up to three CBC calls give complete, swap, decrypt, truncate |
| `AesCts.Context.Update` | core/crypto/aes-cts.c:93-187 | result codes for every length, and the output of both modes |
| `Sm4.RoundBack` | core/crypto/sm4.c:118-122 | a round with the other words in reverse order undoes it, for any S-box |
| `Sm4.MixEach` | core/crypto/sm4.c:118-122 | a change of any of the three other words or of the round key is the same change of what goes into the substitution |
| `Sm4.RoundAdds` | core/crypto/sm4.c:118-122 | a round changes its first word by exactly the substitution of that |
| `Sm4.KeyWordsBack` | core/crypto/sm4.c:151-154 | each key word is masked with its own constant |
| `Sm4.BackThrough` | core/crypto/sm4.c:163-184 | with reversed round keys the run goes back through the same words |
| `Sm4.BlockInverse` | core/crypto/sm4.c:163-201 | decryption with reversed round keys inverts a block |
| `Sm4.Context.SetKey` | core/crypto/sm4.c:140-161 | fills in the key schedule |
| `Sm4.Context.SetKeyEnc` | core/crypto/sm4.c:186-190 | encryption keys are the schedule |
| `Sm4.Context.SetKeyDec` | core/crypto/sm4.c:192-201 | decryption keys are the schedule reversed |
| `Sm4.Context.ReverseKeys` | core/crypto/sm4.c:199-200 | sixteen swaps reverse the keys in place |
| `Sm4.Context.OneRound` | core/crypto/sm4.c:163-184 | computes the block function, words and bytes included |
| `Sm4.Context.Ecb` | core/crypto/sm4.c:203-214 | every block goes through the block function of the keys in the context |
| `Sm4.Context.Cbc` | core/crypto/sm4.c:216-247 | CBC in the direction of the context over the block function of its keys, with the chaining value left |
| `Sm4.Context.CtrMode` | core/crypto/sm4.c:249-270 | counter mode over that function, with the value of the counter left |
| `Sm4.CryptEcb` | core/crypto/sm4.c:203-214 | every block goes through the block function |
| `Sm4.EncryptCbc` | core/crypto/sm4.c:216-233 | is CBC encryption and leaves the chaining value |
| `Sm4.DecryptCbc` | core/crypto/sm4.c:235-246 | is CBC decryption and leaves the chaining value |
| `Sm4.CbcInverse` | core/crypto/sm4.c:192-247 | for every key a decryption context inverts an encryption context in CBC mode |
| `Sm4.CbcThereAndBack` | core/crypto/sm4.c:186-247 | keyed for encryption and then with the same key for decryption, a context gives every text back |
| `Sm4.CryptCtr` | core/crypto/sm4.c:249-270 | is counter mode and leaves the counter after the last block, of value first plus n modulo 2^128 |
| `Sm4.StepCounter` | core/crypto/sm4.c:263-265 | the byte loop is a big-endian increment |
| `Sm4.CtrInvolution` | core/crypto/sm4.c:249-270 | counter mode is its own inverse |
| `Sm4.CtrJoin` | core/crypto/sm4.c:249-270 | split calls equal one call |
| `Sm4.CounterIs` | core/crypto/sm4.c:249-270 | after n blocks the counter read as a big-endian number is the first plus n, modulo 2^128 |
| `Sm3.CarryIff` | core/crypto/sm3.c:168-171 | the carry test is right iff the update is below 2^32 bytes or carries once |
| `Sm3.CountRightIff` | core/crypto/sm3.c:165-171 | for every length a size_t can hold, the 64-bit count of a message stays right iff the update is below 2^32 bytes or carries once |
| `Sm3.CountSlips` | core/crypto/sm3.c:168-171 | one update of 2^33 bytes is counted as 2^32 |
| `Sm3.BitLength` | core/crypto/sm3.c:204-208 | the two words of the length field are the bit length modulo 2^64 |
| `Sm3.PaddingIs` | core/crypto/sm3.c:191-214 | padding is a one bit, the fewest zeros that leave eight bytes to a whole block, and the bit length in those eight |
| `Sm3.Update` | core/crypto/sm3.c:157-189 | after an update of any length the state holds the longer message, whole blocks folded and the rest buffered, and the count is what the carry test makes of it |
| `Sm3.TakeBlocks` | core/crypto/sm3.c:181-185 | the block loop folds every whole block of the input |
| `Sm3.Final` | core/crypto/sm3.c:198-224 | the digest is the compression function folded over the message padded with the counted length, the SM3 digest if the count is right |
| `Sm3.Context.Take` | core/crypto/sm3.c:157-189 | the update on the context |
| `Sm3.Context.Finish` | core/crypto/sm3.c:198-224 | the digest of all updates together, over the counted length |
| `Sm3.Context.HmacInit` | core/crypto/sm3.c:237-260 | pads are the key, hashed if long, masked with 0x36 and 0x5C, for keys of any length |
| `Sm3.Context.HmacFinal` | core/crypto/sm3.c:267-278 | the outer hash over the inner one |
| `Sm3.OneShot` | core/crypto/sm3.c:226-235 | the hash in one call, right below 2^33 bytes and else over the counted length |
| `Sm3.HashPieces` | core/crypto/sm3.c:157-224 | for every cutting the digest is that of the whole message over the counted length, and SM3 of the message if all updates are below 2^32 bytes |
| `Sm3.CountAllRight` | core/crypto/sm3.c:165-171 | over any number of updates below 2^32 bytes the count is the message's length modulo 2^64 |
| `Sm3.HmacPieces` | core/crypto/sm3.c:237-290 | for every key and every cutting the result is the two hashes over the counted lengths, and HMAC of section 2 of RFC 2104 if the key is below 2^33 bytes and all updates are below 2^32 |
| `Sm3.MaskKey` | core/crypto/sm3.c:248-254 | the mask loop is the exclusive or with the zero-padded key |
| `Tzc380.SubRegions` | core/drivers/tzc380.c:264-275 | the enabled eighths are a run from the address to the region's end or the last that fits |
| `Tzc380.EighthsSpan` | core/drivers/tzc380.c:266-279 | a region with such eighths matches exactly one interval |
| `Tzc380.Place` | core/drivers/tzc380.c:243-284 | fits iff some region size at the address, whole or with its eighths, lies inside the request; a placed region starts at the address, is aligned to its size and stays inside; a request in 32 KiB units always fits at 64 KiB |
| `Tzc380.ChainCovers` | core/drivers/tzc380.c:219-289 | together the regions match exactly the requested addresses |
| `Tzc380.ChainDisjoint` | core/drivers/tzc380.c:219-289 | no address is matched by two of them |
| `Tzc380.NextPhase` | core/drivers/tzc380.c:243-284 | each turn that places the largest region that fits leaves fewer turns to come |
| `Tzc380.AligningTurn` | core/drivers/tzc380.c:243-284 | a turn gains three bits of alignment, or leaves no more than the address is aligned to |
| `Tzc380.ClosingTurn` | core/drivers/tzc380.c:243-284 | from then on a turn takes two bits off the length that is left |
| `Tzc380.Tzc.Advance` | core/drivers/tzc380.c:178-284 | one turn of the loop extends the chain of regions by one, or finds no fit, or no region left |
| `Tzc380.Tzc.AutoConfigure` | core/drivers/tzc380.c:219-289 | terminates with regions chained from the address; a normal exit has reached the end; it gives up only where no region fits the rest, or with every region used; a request in units of 32 KiB always succeeds with a region for each unit, and, within an address width w, with (w-15)/3 + 1 + (w-13)/2 regions, which for 32 bits is 15 |
| `ElfSegments.AdjustSound` | ldelf/ta_elf.c:595-658 | the loop keeps survivors page-disjoint and every processed segment inside one |
| `ElfSegments.SurvivorsSound` | ldelf/ta_elf.c:566-660 | for every list that passes the asserts: survivors after the first start page-aligned behind the last page of the one before, filesz <= memsz, every segment lies in one with the displacement of its first segment, and a survivor's permissions are exactly the union of those of its segments |
| `ElfSegments.SaneRises` | ldelf/ta_elf.c:574-593 | the sanity check leaves the addresses rising, so that no size computed by a merge wraps |
| `ElfSegments.SurvivorsRemap` | ldelf/ta_elf.c:640-648 | a survivor is marked remapped iff its first segment does not begin aligned and the page of the file it begins in also lies in the file range of the survivor before |
| `ElfSegments.AndBits` | ldelf/ta_elf.c:620-642 | a bit of a masked number is set iff it is set in both |
| `ElfSegments.PagesDisjoint` | ldelf/ta_elf.c:566-660 | page ranges of any two survivors do not meet |
| `ElfSegments.MergeSound` | ldelf/ta_elf.c:618-638 | case 1 keeps all that |
| `ElfSegments.AlignSound` | ldelf/ta_elf.c:640-657 | case 2 and the plain case keep all that, and a page mapped twice is writeable |
| `ElfSegments.MappedRightIff` | ldelf/ta_elf.c:618-638 | the bytes of a merged segment are the file's iff its displacement is that of the first segment of its run |
| `ElfSegments.MergeMayShift` | ldelf/ta_elf.c:618-638 | a list that passes every assert and maps other bytes |
| `ElfSegments.TaElf.CheckSane` | ldelf/ta_elf.c:574-593 | the first loop, assert by assert, decides whether the whole list is sane |
| `ElfSegments.TaElf.AdjustSegments` | ldelf/ta_elf.c:566-660 | the list edited in place is the specified one and has those properties, remapping included, and it stops iff an assert fails |
| `ElfSegments.TaElf.ParseLoadSegments` | ldelf/ta_elf.c:505-540 | collects the segments of all load headers, or refuses one with more file than memory |
| `ElfSegments.TaElf.LoadSegments` | ldelf/ta_elf.c:862-863 | from program headers to survivors with all that, and the exact condition under which it stops |
| `PageRelocs.GetNumRels` | core/mm/fobj.c:533-557 | accepts exactly the sorted aligned lists; the count is that of the object's relocations, plus one if there is one at its end |
| `PageRelocs.InObjectIff` | core/mm/fobj.c:571-586 | the indexed list has exactly the relocations inside the object |
| `PageRelocs.IndexOn` | core/mm/fobj.c:582-585 | one more relocation keeps every page's entry its first relocation, if the number fits or the page has one already |
| `PageRelocs.IndexedOnlyIfFit` | core/mm/fobj.c:506-529 | if a page's first relocation has number 65535 or more, no 16-bit index is right |
| `PageRelocs.DenseDoesNotFit` | core/mm/fobj.c:506-529 | a well-formed list with such a page |
| `PageRelocs.DenseIsNotReached` | core/mm/fobj.c:641-668 | a well-formed list with a right index, in which a page without relocations is given that of number 65535 |
| `PageRelocs.EndIsCounted` | core/mm/fobj.c:550-554 | a list that is counted but not indexed, so that the final assert fails |
| `PageRelocs.RelocPaged.InitRels` | core/mm/fobj.c:559-589 | the final assert holds iff no relocation lies exactly at the end, and then the index is complete iff every page's first relocation has a number that fits |
| `PageRelocs.RelocPaged.AddRel` | core/mm/fobj.c:582-585 | the step of the loop in place |
| `PageRelocs.RelocPaged.FillIndex` | core/mm/fobj.c:571-586 | the loop records exactly the relocations of the object |
| `PageRelocs.RelocPaged.EndOfPage` | core/mm/fobj.c:654-660 | finds the first relocation behind the page |
| `PageRelocs.RelocPaged.Relocate` | core/mm/fobj.c:641-668 | adds the offset once per relocation of the page and changes no other word, unless there are over 65535 and all in earlier pages; then it adds the offset at those from number 65535 on |
| `PageRelocs.LoopsOver` | core/mm/fobj.c:654-666 | the loop of a page runs over the relocations of one page: its own, or that of relocation 65535 |
| `PageRelocs.RelocPaged.LoadPage` | core/mm/fobj.c:641-668 | with at most 65535 relocations, or one in this or a later page: a word is the stored one plus the load offset iff the plain list has a relocation at it, else the stored one |
| `PageRelocs.RelocPaged.CopyPage` | core/mm/fobj.c:467-478 | the page as stored |
| `VersionDb.NoRollback` | core/kernel/ree_fs_ta.c:342-433 | in every run, whatever storage access fails, a TA is admitted only with a version not below any admitted before for its UUID |
| `VersionDb.AfterUnique` | core/kernel/ree_fs_ta.c:342-433 | in every run each UUID occurs at most once among the counted entries |
| `VersionDb.VersionsStay` | core/kernel/ree_fs_ta.c:342-433 | in every run a recorded version never decreases |
| `VersionDb.AdmittedIff` | core/kernel/ree_fs_ta.c:387-427 | with working storage a TA is refused iff a higher version is recorded |
| `VersionDb.StepAdmits` | core/kernel/ree_fs_ta.c:405-427 | an admitted version is recorded and nothing above it was |
| `VersionDb.StepKeepsUnique` | core/kernel/ree_fs_ta.c:416-427 | a call, failed or not, keeps UUIDs unique |
| `VersionDb.StepKeepsVersions` | core/kernel/ree_fs_ta.c:405-427 | a call, failed or not, keeps every recorded version or exceeds it |
| `VersionDb.StepRecords` | core/kernel/ree_fs_ta.c:405-427 | a call, failed or not, leaves the versions of all other UUIDs as they were, and for its own records its own version or what there was |
| `VersionDb.RecordedWasCalled` | core/kernel/ree_fs_ta.c:342-433 | in every run every recorded version is that of an earlier call for its UUID |
| `VersionDb.Database.Find` | core/kernel/ree_fs_ta.c:387-403 | the loop finds the first entry of the UUID, or none, or a read error |
| `VersionDb.Database.OpenOrCreate` | core/kernel/ree_fs_ta.c:361-385 | opening or creating, with every failure |
| `VersionDb.Database.CheckUpdate` | core/kernel/ree_fs_ta.c:342-433 | file and result are those of the specified call |

## Left out

- `Mutex.ExclusionInEveryRun`: the state word is a mathematical integer; the C `short` would overflow beyond 32767 read holds.
- `Lockdep.Graph.Acquire`: the heap is a number of allocations that succeed, and what is freed does not add to it.
- `MutexDeadlock.NoCircularWait`: read locks and waits for condvar signals are not part of the claim, since lockdep does not record them.
- `MutexOrder.OrderedNeverStopped`: condvar wait is called with the mutex held for writing; held for reading, its unlock hook finds nothing to release and stops the thread.
- `MutexService.SignalServes`: the signaller is the only holder; other readers would have to unlock as well.
- `TaSession.StepKeepsInv`: removing a session from its list and freeing it are one step; TA contexts, cancellation and timeouts are not modelled.
- `TaSessionClosing.ClosesIff`: counts runs without a disturbed failing open; `TaSessionClosing.LeavesIff` also counts those that end with one. What follows such an open, on freed memory, is not described.
- `TaBusy.StepKeepsInv`: the build with CFG_CONCURRENT_SINGLE_INSTANCE_TA, where the lock does nothing, is not modelled.
- `GcmContext.UpdateAad`: of data accepted when the payload counter has wrapped to zero it says what was hashed and counted; the tag is then that of no message.
- `GcmContext.SealOpen`: buffers are values, so overlapping source and destination are not modelled; tag comparison is not timed.
- `GcmSpec.AfterValue`: the code's 128-bit increment and 32-bit length products are modelled as they are, not as NIST SP 800-38D has them for nonces other than 96 bits or very long data.
- `Sm4.CryptEcb`: partial blocks fail an assert in the code and are excluded, in all modes.
- `Tzc380.Tzc.AutoConfigure`: attributes are a record of fields instead of a word, so the caller's attribute is its permission bits only; the address width is at most 63, since the shift of the code is undefined for 64, and the end of the request is below 2^64.
- `ElfSegments.TaElf.AdjustSegments`: the list is a sequence with a cursor; memory for removed nodes is not modelled.
- `PageRelocs.RelocPaged.LoadPage`: the object begins at a word boundary, since otherwise relocations are applied to unaligned words; offsets are mathematical integers, so sums beyond 32 bits are not cut.
- `VersionDb.NoRollback`: the entry count is unbounded, and a build without secure storage, which admits everything, is not modelled.
- AES rounds, the S-box, the SM3 compression function and the hash check of a page are parameters.
- Device drivers other than the region cover, RPC, page mapping, user-mode entry, tracing and build scripts are not modelled.
- The rest of ldelf/ta_elf.c (populating, remapping, printing) is not modelled.
- core/crypto/cbc-mac.c, core/crypto/rng_fortuna.c and core/kernel/handle.c are not modelled.
