/** The deadlock detector of core/kernel/lockdep.c: a graph of lock orderings with
    temporary marks on its nodes, and per-thread queues of owned locks. */
module Lockdep {
  import opened Common
  import opened LockGraph

  /** AssertFailed: the code stops at one of its asserts. */
  datatype Result = Success | BadState | OutOfMemory | ItemNotFound | AssertFailed

  /** How following edges from an entry ends: with a closed cycle, for want of memory, or not. */
  datatype Turn = Open | Closed | Starved

  /** Queue of the locks one thread owns, in the order it took them. */
  class OwnedQueue {
    var locks: seq<LockId>

    constructor ()
      ensures locks == []
    {
      locks := [];
    }

    /** Position of the last occurrence of id, or |s| when there is none. */
    static function LastIndex(s: seq<LockId>, id: LockId): (k: nat)
      ensures k <= |s|
      ensures k < |s| ==> s[k] == id && id !in s[k + 1..]
      ensures k == |s| <==> id !in s
    {
      if s == [] then 0
      else if s[|s| - 1] == id then |s| - 1
      else
        var k := LastIndex(s[..|s| - 1], id);
        assert s == s[..|s| - 1] + [s[|s| - 1]];
        if k == |s| - 1 then |s|
        else
          assert s[k + 1..] == s[..|s| - 1][k + 1..] + [s[|s| - 1]];
          k
    }

    static lemma LastIndexUnique(s: seq<LockId>, id: LockId, i: nat)
      requires i < |s| && s[i] == id && id !in s[i + 1..]
      ensures LastIndex(s, id) == i
    {
    }

    /** Drops the most recent entry for id; an error when the thread does not own it. */
    method Release(id: LockId) returns (r: Result)
      modifies this
      ensures r == (if id in old(locks) then Success else ItemNotFound)
      ensures r == ItemNotFound ==> locks == old(locks)
      ensures r == Success ==>
                var k := LastIndex(old(locks), id);
                locks == old(locks)[..k] + old(locks)[k + 1..]
    {
      var i := |locks|;
      while i > 0
        invariant 0 <= i <= |locks| && locks == old(locks)
        invariant id !in locks[i..]
      {
        i := i - 1;
        if locks[i] == id {
          LastIndexUnique(locks, id, i);
          locks := locks[..i] + locks[i + 1..];
          return Success;
        }
      }
      return ItemNotFound;
    }
  }

  /** The flags that the nodes carry when a sort begins, one set of nodes per bit. */
  datatype Marks = Marks(temp: set<LockId>, perm: set<LockId>, bfs: set<LockId>) {
    ghost predicate None() {
      temp == {} && perm == {} && bfs == {}
    }
  }

  /** A walk of the depth-first search: from a node without a flag, through nodes that the
      search has not met before it began. */
  ghost predicate SearchWalk(e: Edges, m: Marks, p: seq<LockId>) {
    && Walk(e, p) && p[0] !in m.temp + m.perm + m.bfs
    && forall i :: 0 <= i < |p| - 1 ==> p[i] !in m.temp + m.perm
  }

  /** Such a walk that ends at a node with a left-over temporary mark, or at one of its own
      nodes: the search takes it for a cycle. */
  ghost predicate Trapped(e: Edges, m: Marks, p: seq<LockId>) {
    && |p| >= 2 && SearchWalk(e, m, p) && p[|p| - 1] !in m.perm
    && (p[|p| - 1] in m.temp || p[|p| - 1] in p[..|p| - 1])
  }

  /** No search walk ends so. */
  ghost predicate Untrapped(e: Edges, m: Marks) {
    forall p :: !Trapped(e, m, p)
  }

  /** A cycle all of whose nodes have the temporary mark. */
  ghost predicate MarkedCycle(e: Edges, temp: set<LockId>, c: seq<LockId>) {
    Cycle(e, c) && forall i :: 0 <= i < |c| ==> c[i] in temp
  }

  /** Without left-over flags a trap is a cycle. */
  lemma TrapIsCycle(e: Edges, m: Marks, p: seq<LockId>, temp: set<LockId>) returns (c: seq<LockId>)
    requires m.None() && Trapped(e, m, p) && Elements(p) <= temp
    ensures MarkedCycle(e, temp, c)
  {
    var last := |p| - 1;
    var k :| 0 <= k < last && p[..last][k] == p[last];
    c := p[k..];
    forall i | 0 <= i < |c| - 1 ensures Edge(e, c[i], c[i + 1]) {
      assert Edge(e, p[k + i], p[k + i + 1]);
    }
    forall i | 0 <= i < |c| ensures c[i] in temp {
      ElementsAre(p, c[i]);
    }
  }

  /** So there is none exactly when the graph is acyclic. */
  lemma UntrappedIsAcyclic(e: Edges, m: Marks)
    requires m.None()
    ensures Untrapped(e, m) <==> Acyclic(e)
  {
    forall p | Cycle(e, p) ensures Trapped(e, m, p) {
      assert p[..|p| - 1][0] == p[0];
    }
    forall p | Trapped(e, m, p) ensures !Acyclic(e) {
      var c := TrapIsCycle(e, m, p, Elements(p));
    }
  }

  /** Ranks decrease along every edge, but for those to nodes that count as finished. */
  ghost predicate RankedBut(e: Edges, rank: map<LockId, nat>, perm: set<LockId>) {
    forall a, b {:trigger Edge(e, a, b)} :: a in rank && Edge(e, a, b) ==> b in perm || (b in rank && rank[b] < rank[a])
  }

  /** State of a depth-first search that began with flags m: the nodes it finished carry both
      marks and are ranked, the nodes on the stack carry the temporary mark only. */
  ghost predicate Searching(e: Edges, m: Marks, temp: set<LockId>, perm: set<LockId>,
                            rank: map<LockId, nat>, time: nat, stack: seq<LockId>)
  {
    && perm == m.perm + rank.Keys && temp == m.temp + rank.Keys + Elements(stack)
    && rank.Keys !! m.temp + m.perm && Elements(stack) !! rank.Keys
    && RankedBut(e, rank, m.perm) && (forall x :: x in rank ==> rank[x] < time)
  }

  lemma Finish(e: Edges, m: Marks, temp: set<LockId>, perm: set<LockId>,
               rank: map<LockId, nat>, time: nat, stack: seq<LockId>, n: LockId)
    requires Searching(e, m, temp, perm, rank, time, stack + [n])
    requires n !in Elements(stack) && n !in m.temp + m.perm && n in e && Elements(e[n]) <= perm
    ensures Searching(e, m, temp, perm + {n}, rank[n := time], time + 1, stack)
  {
    ElementsSnoc(stack, n);
    forall b | b in e[n] ensures b in perm { ElementsAre(e[n], b); }
  }

  /** From a finished node the search walks on through finished nodes of falling rank. */
  lemma {:induction false} RankAlong(e: Edges, m: Marks, rank: map<LockId, nat>, p: seq<LockId>, i: nat, j: nat)
    requires RankedBut(e, rank, m.perm) && SearchWalk(e, m, p) && p[0] in rank && i <= j < |p|
    requires j < |p| - 1 || p[j] !in m.perm
    ensures p[i] in rank && p[j] in rank && (i < j ==> rank[p[j]] < rank[p[i]])
    decreases j
  {
    if j > 0 {
      assert Edge(e, p[j - 1], p[j - 1 + 1]);
      RankAlong(e, m, rank, p, if i < j then i else j - 1, j - 1);
    }
  }

  lemma WalkFurther(e: Edges, m: Marks, p: seq<LockId>, b: LockId)
    requires SearchWalk(e, m, p) && p[|p| - 1] !in m.temp + m.perm && Edge(e, p[|p| - 1], b)
    ensures SearchWalk(e, m, p + [b])
  {
    WalkExtend(e, p, b);
  }

  /** Meeting a node with the temporary mark only: it is left over or on the stack. */
  lemma TrapFound(e: Edges, m: Marks, temp: set<LockId>, perm: set<LockId>,
                  rank: map<LockId, nat>, time: nat, stack: seq<LockId>, n: LockId)
    requires Searching(e, m, temp, perm, rank, time, stack) && SearchWalk(e, m, stack + [n])
    requires n in temp && n !in perm
    ensures exists p :: Trapped(e, m, p) && Elements(p) <= temp
  {
    var p := stack + [n];
    ElementsSnoc(stack, n);
    ElementsAre(stack, n);
    assert p[..|p| - 1] == stack;
    assert Trapped(e, m, p);
  }

  /** When every node without a flag is finished, no search walk ends in a trap. */
  lemma AllFinished(e: Edges, m: Marks, temp: set<LockId>, perm: set<LockId>, rank: map<LockId, nat>, time: nat)
    requires Searching(e, m, temp, perm, rank, time, []) && e.Keys <= rank.Keys + m.temp + m.perm + m.bfs
    ensures Untrapped(e, m)
  {
    forall p | Trapped(e, m, p) ensures false {
      var last := |p| - 1;
      assert Edge(e, p[0], p[0 + 1]);
      RankAlong(e, m, rank, p, 0, last);
      if p[last] in p[..last] {
        var k :| 0 <= k < last && p[..last][k] == p[last];
        RankAlong(e, m, rank, p, k, last);
      }
    }
  }

  /** Entry of the breadth-first queue: a node with the walk that reached it. */
  datatype BfsEntry = BfsEntry(node: LockId, path: seq<LockId>)

  /** Bookkeeping of a breadth-first search: nodes in discovery order, the number of
      nodes on the walk that discovered each, and where each node is in that order. */
  datatype Discovery = Discovery(order: seq<LockId>, lens: seq<nat>, pos: map<LockId, nat>) {

    ghost predicate Consistent(start: LockId) {
      && |order| == |lens| > 0 && start in pos && pos[start] == 0 && lens[0] == 1
      && (forall x :: x in pos ==> pos[x] < |order| && order[pos[x]] == x)
      && (forall i, j :: 0 <= i <= j < |lens| ==> lens[i] <= lens[j])
    }

    /** The first head nodes have been expanded without meeting the start again. */
    ghost predicate Expanded(e: Edges, start: LockId, head: nat)
      requires Consistent(start)
    {
      forall u, b {:trigger Edge(e, u, b)} :: u in pos && pos[u] < head && Edge(e, u, b) ==>
        b != start && b in pos && lens[pos[b]] <= lens[pos[u]] + 1
    }

    ghost function Add(x: LockId, len: nat): (d: Discovery) {
      Discovery(order + [x], lens + [len], pos[x := |order|])
    }

    /** All successors of the node at position head have been met, none is the start. */
    ghost predicate Met(start: LockId, head: nat, met: set<LockId>)
      requires Consistent(start) && head < |order|
    {
      forall b :: b in met ==> b != start && b in pos && lens[pos[b]] <= lens[head] + 1
    }

    lemma AddKeeps(e: Edges, start: LockId, head: nat, x: LockId, met: set<LockId>)
      requires Consistent(start) && Expanded(e, start, head) && head < |order| && Met(start, head, met)
      requires x !in pos && lens[|lens| - 1] <= lens[head] + 1
      ensures var d := Add(x, lens[head] + 1);
              d.Consistent(start) && d.Expanded(e, start, head) && d.Met(start, head, met)
    {
    }

    lemma MetNext(start: LockId, head: nat, succ: seq<LockId>, i: nat)
      requires Consistent(start) && head < |order| && lens[|lens| - 1] <= lens[head] + 1
      requires i < |succ| && Met(start, head, Prefix(succ, i)) && succ[i] in pos && succ[i] != start
      ensures Met(start, head, Prefix(succ, i + 1))
    {
    }

    lemma ExpandNext(e: Edges, start: LockId, head: nat, n: LockId)
      requires Consistent(start) && Expanded(e, start, head) && head < |order|
      requires n in pos && pos[n] == head && n in e && Met(start, head, Elements(e[n]))
      ensures Expanded(e, start, head + 1)
    {
      forall u, b | u in pos && pos[u] < head + 1 && Edge(e, u, b)
        ensures b != start && b in pos && lens[pos[b]] <= lens[pos[u]] + 1
      {
        if u == n {
          ElementsAre(e[u], b);
        }
      }
    }

    /** Nodes expanded so far leave no room for a cycle shorter than the depth reached. */
    lemma {:induction false} WalkIsDiscovered(e: Edges, start: LockId, head: nat, p: seq<LockId>, k: nat)
      requires Consistent(start) && Expanded(e, start, head) && Walk(e, p) && p[0] == start
      requires k < |p| && forall i :: 0 <= i < |lens| && lens[i] < |p| ==> i < head
      ensures p[k] in pos && lens[pos[p[k]]] <= k + 1
      ensures k > 0 ==> p[k] != start
    {
      if k > 0 {
        WalkIsDiscovered(e, start, head, p, k - 1);
        assert Edge(e, p[k - 1], p[k - 1 + 1]);
      }
    }

    lemma NoShorterCycle(e: Edges, start: LockId, head: nat, len: nat)
      requires Consistent(start) && Expanded(e, start, head)
      requires forall i :: 0 <= i < |lens| && lens[i] < len ==> i < head
      ensures forall p :: Cycle(e, p) && p[0] == start ==> len < |p|
    {
      forall p | Cycle(e, p) && p[0] == start ensures len < |p| {
        if |p| <= len {
          WalkIsDiscovered(e, start, head, p, |p| - 1);
        }
      }
    }
  }

  /** The queue holds the discovered nodes from position head on, each with its walk. */
  ghost predicate Queued(e: Edges, start: LockId, d: Discovery, head: nat, queue: seq<BfsEntry>)
    requires d.Consistent(start)
  {
    && head + |queue| == |d.order|
    && forall k :: 0 <= k < |queue| ==> Reaches(e, start, queue[k], d, head + k)
  }

  lemma QueuedAdd(e: Edges, start: LockId, d: Discovery, head: nat, queue: seq<BfsEntry>, q: BfsEntry)
    requires d.Consistent(start) && Queued(e, start, d, head, queue) && d.Add(q.node, |q.path|).Consistent(start)
    requires Walk(e, q.path) && q.path[0] == start && q.path[|q.path| - 1] == q.node && q.node !in d.pos
    ensures Queued(e, start, d.Add(q.node, |q.path|), head, queue + [q])
  {
  }

  /** The entry's walk leads from start to its node, the one discovered as number k. */
  ghost predicate Reaches(e: Edges, start: LockId, q: BfsEntry, d: Discovery, k: nat) {
    && Walk(e, q.path) && q.path[0] == start && q.path[|q.path| - 1] == q.node
    && q.node in d.pos && d.pos[q.node] == k < |d.lens| && d.lens[k] == |q.path|
  }

  /** The entry qe, at position head, is being expanded: i of its successors are met. */
  ghost predicate Expanding(e: Edges, start: LockId, d: Discovery, head: nat,
                            qe: BfsEntry, queue: seq<BfsEntry>, i: nat)
  {
    && d.Consistent(start) && d.Expanded(e, start, head) && d.pos.Keys <= e.Keys
    && Queued(e, start, d, head + 1, queue)
    && head < |d.order| && Reaches(e, start, qe, d, head)
    && d.lens[|d.lens| - 1] <= d.lens[head] + 1
    && qe.node in e && i <= |e[qe.node]| && d.Met(start, head, Prefix(e[qe.node], i))
  }

  lemma DiscoverSuccessor(e: Edges, start: LockId, d: Discovery, head: nat,
                          qe: BfsEntry, queue: seq<BfsEntry>, i: nat)
    requires WellFormed(e) && Expanding(e, start, d, head, qe, queue, i)
    requires i < |e[qe.node]| && e[qe.node][i] !in d.pos
    ensures var to := e[qe.node][i];
            var nqe := BfsEntry(to, qe.path + [to]);
            Expanding(e, start, d.Add(to, |nqe.path|), head, qe, queue + [nqe], i + 1)
  {
    var to := e[qe.node][i];
    var nqe := BfsEntry(to, qe.path + [to]);
    assert Edge(e, qe.node, to);
    WalkExtend(e, qe.path, to);
    d.AddKeeps(e, start, head, to, Prefix(e[qe.node], i));
    QueuedAdd(e, start, d, head + 1, queue, nqe);
    d.Add(to, |nqe.path|).MetNext(start, head, e[qe.node], i);
  }

  /** Between two entries: everything before position head is expanded, the rest queued. */
  ghost predicate Frontier(e: Edges, start: LockId, d: Discovery, head: nat, queue: seq<BfsEntry>) {
    && d.Consistent(start) && d.Expanded(e, start, head) && d.pos.Keys <= e.Keys
    && Queued(e, start, d, head, queue)
    && (queue != [] ==> d.lens[|d.lens| - 1] <= d.lens[head] + 1)
  }

  lemma Dequeue(e: Edges, start: LockId, d: Discovery, head: nat, queue: seq<BfsEntry>)
    requires Frontier(e, start, d, head, queue) && queue != []
    ensures Expanding(e, start, d, head, queue[0], queue[1..], 0)
  {
    assert Reaches(e, start, queue[0], d, head + 0);
    forall k | 0 <= k < |queue| - 1 ensures Reaches(e, start, queue[1..][k], d, head + 1 + k) {
      assert Reaches(e, start, queue[k + 1], d, head + (k + 1));
    }
  }

  lemma EntryDone(e: Edges, start: LockId, d: Discovery, head: nat, qe: BfsEntry, queue: seq<BfsEntry>)
    requires qe.node in e && Expanding(e, start, d, head, qe, queue, |e[qe.node]|)
    ensures Frontier(e, start, d, head + 1, queue)
  {
    d.ExpandNext(e, start, head, qe.node);
  }

  /** The walk followed by start is a cycle, and no cycle through start is shorter. */
  ghost predicate ClosesShortest(e: Edges, start: LockId, path: seq<LockId>) {
    && Cycle(e, path + [start]) && path != [] && path[0] == start
    && forall p :: Cycle(e, p) && p[0] == start ==> |path| < |p|
  }

  lemma EntryCloses(e: Edges, start: LockId, d: Discovery, head: nat, qe: BfsEntry, queue: seq<BfsEntry>, i: nat)
    requires Expanding(e, start, d, head, qe, queue, i) && Edge(e, qe.node, start)
    ensures ClosesShortest(e, start, qe.path)
  {
    WalkExtend(e, qe.path, start);
    d.NoShorterCycle(e, start, head, |qe.path|);
  }

  lemma SearchExhausted(e: Edges, start: LockId, d: Discovery, head: nat)
    requires Frontier(e, start, d, head, [])
    ensures forall p :: Cycle(e, p) ==> p[0] != start
  {
    forall p | Cycle(e, p) ensures p[0] != start {
      if p[0] == start {
        d.NoShorterCycle(e, start, head, |p|);
      }
    }
  }

  lemma SkipSuccessor(e: Edges, start: LockId, d: Discovery, head: nat,
                      qe: BfsEntry, queue: seq<BfsEntry>, i: nat)
    requires Expanding(e, start, d, head, qe, queue, i)
    requires i < |e[qe.node]| && e[qe.node][i] in d.pos && e[qe.node][i] != start
    ensures Expanding(e, start, d, head, qe, queue, i + 1)
  {
    d.MetNext(start, head, e[qe.node], i);
  }

  /** The report lists the edges of a cycle through node in their order. */
  ghost predicate Reports(node: LockId, cycle: seq<LockId>, report: seq<(LockId, LockId)>) {
    |report| == |cycle| && forall i :: 0 <= i < |cycle| ==> report[i] == (cycle[i], (cycle + [node])[i + 1])
  }

  /** The discovery order lists every node once. */
  ghost predicate Listed(d: Discovery) {
    Elements(d.order) == d.pos.Keys && Distinct(d.order, |d.order|)
  }

  lemma ListedOn(d: Discovery, x: LockId, len: nat)
    requires Listed(d) && x !in d.pos
    ensures Listed(d.Add(x, len))
  {
    ElementsSnoc(d.order, x);
    PrefixSnoc(d.order, x, |d.order|);
  }

  lemma {:induction false} DistinctCount(s: seq<LockId>, k: nat)
    requires k <= |s| && Distinct(s, k)
    ensures |Prefix(s, k)| == k
  {
    if k > 0 {
      DistinctCount(s, k - 1);
    }
  }

  lemma FewerNodes(a: seq<LockId>, b: seq<LockId>)
    requires Distinct(a, |a|) && Distinct(b, |b|) && Elements(a) <= Elements(b)
    ensures |a| <= |b|
  {
    DistinctCount(a, |a|);
    DistinctCount(b, |b|);
    assert Elements(b) == Elements(a) + (Elements(b) - Elements(a));
  }

  lemma StartListed(start: LockId, d: Discovery)
    requires d.order == [start] && d.pos == map[start := 0]
    ensures Listed(d)
  {
    assert Prefix(d.order, 0) == {};
  }

  /** The nodes met would have needed more than the given number of allocations. */
  ghost predicate Outgrown(e: Edges, d: Discovery, heap: nat) {
    Listed(d) && d.pos.Keys <= e.Keys && heap <= 2 * |d.order|
  }

  class Graph {
    var nodes: seq<LockId>
    var edges: Edges
    // node->flags, one set of nodes per bit
    var tempMark: set<LockId>
    var permMark: set<LockId>
    var bfsVisited: set<LockId>
    /** Finishing order of the nodes with the permanent mark. */
    ghost var rank: map<LockId, nat>
    ghost var time: nat

    ghost predicate Valid()
      reads this
    {
      // each node is listed once
      && Elements(nodes) == edges.Keys && Distinct(nodes, |nodes|)
      && WellFormed(edges)
    }

    /** No node carries a mark: true between calls until an acquire is rejected. */
    ghost predicate Unmarked()
      reads this
    {
      tempMark == {} && permMark == {} && bfsVisited == {}
    }

    constructor ()
      ensures Valid() && Unmarked() && edges == map[] && nodes == []
    {
      nodes, edges, rank, time := [], map[], map[], 0;
      tempMark, permMark, bfsVisited := {}, {}, {};
    }

    /** The flags of all nodes. */
    ghost function Flags(): Marks
      reads this
    {
      Marks(tempMark, permMark, bfsVisited)
    }

    /** Depth-first visit.  The stack is the chain of callers; m are the flags that the nodes
        had when the search began.  On failure a trap has been walked, with all marks on it. */
    method Visit(n: LockId, ghost stack: seq<LockId>, ghost m: Marks) returns (r: Result)
      requires WellFormed(edges) && n in edges && SearchWalk(edges, m, stack + [n])
      requires Searching(edges, m, tempMark, permMark, rank, time, stack)
      modifies this`tempMark, this`permMark, this`rank, this`time
      ensures r == Success || r == BadState
      ensures old(permMark) <= permMark && old(tempMark) <= tempMark
      ensures r == Success ==> Searching(edges, m, tempMark, permMark, rank, time, stack) && n in permMark
      ensures r == BadState ==> exists p :: Trapped(edges, m, p) && Elements(p) <= tempMark
      decreases edges.Keys - tempMark
    {
      if n in permMark {
        return Success;
      }
      if n in tempMark {
        TrapFound(edges, m, tempMark, permMark, rank, time, stack, n);
        return BadState;
      }
      tempMark := tempMark + {n};
      ghost var inner := stack + [n];
      ElementsSnoc(stack, n);
      var succ := edges[n];
      var i := 0;
      while i < |succ|
        invariant 0 <= i <= |succ| && old(permMark) <= permMark && old(tempMark) + {n} <= tempMark
        invariant Searching(edges, m, tempMark, permMark, rank, time, inner) && Prefix(succ, i) <= permMark
      {
        var to := succ[i];
        assert Edge(edges, n, to);
        WalkFurther(edges, m, inner, to);
        assert edges.Keys - tempMark < edges.Keys - old(tempMark) by {
          assert n !in edges.Keys - tempMark;
        }
        r := Visit(to, inner, m);
        if r != Success {
          return;
        }
        i := i + 1;
      }
      Finish(edges, m, tempMark, permMark, rank, time, stack, n);
      rank, time := rank[n := time], time + 1;
      permMark := permMark + {n};
      return Success;
    }

    /** Topological sort: succeeds exactly when no search walk is trapped, which is when the
        graph is acyclic if no flag was left over. */
    method Sort() returns (r: Result)
      requires Valid()
      modifies this`tempMark, this`permMark, this`rank, this`time, this`bfsVisited
      ensures r == if Untrapped(edges, old(Flags())) then Success else BadState
      ensures old(Unmarked()) ==> r == if Acyclic(edges) then Success else BadState
      ensures if r == Success then Unmarked()
              else bfsVisited == old(bfsVisited)
                   && exists p :: Trapped(edges, old(Flags()), p) && Elements(p) <= tempMark
    {
      ghost var m := Flags();
      if m.None() {
        UntrappedIsAcyclic(edges, m);
      }
      r := VisitAll(m);
      if r == Success {
        tempMark, permMark, bfsVisited := {}, {}, {};
      }
    }

    /** Its first loop. */
    method VisitAll(ghost m: Marks) returns (r: Result)
      requires Valid() && m == Flags()
      modifies this`tempMark, this`permMark, this`rank, this`time
      ensures r == if Untrapped(edges, m) then Success else BadState
      ensures r == BadState ==> exists p :: Trapped(edges, m, p) && Elements(p) <= tempMark
    {
      rank := map[];
      var i := 0;
      while i < |nodes|
        invariant 0 <= i <= |nodes|
        invariant Searching(edges, m, tempMark, permMark, rank, time, [])
        invariant Prefix(nodes, i) <= rank.Keys + m.temp + m.perm + m.bfs
      {
        ElementsAre(nodes, nodes[i]);
        if nodes[i] !in tempMark && nodes[i] !in permMark && nodes[i] !in bfsVisited {
          r := Visit(nodes[i], [], m);
          if r != Success {
            return;
          }
        }
        i := i + 1;
      }
      AllFinished(edges, m, tempMark, permMark, rank, time);
      return Success;
    }

    /** Follows one edge of the entry being expanded: it closes a cycle when it leads
        back to the start, else its end is queued unless it was met before.  Closing takes one
        allocation and queueing two, of the left0 that succeed. */
    method FollowEdge(start: LockId, qe: BfsEntry, i: nat, queue0: seq<BfsEntry>, left0: nat,
                      ghost d0: Discovery, ghost head: nat)
      returns (turn: Turn, queue: seq<BfsEntry>, left: nat, ghost d: Discovery)
      requires WellFormed(edges) && Expanding(edges, start, d0, head, qe, queue0, i) && Listed(d0)
      requires i < |edges[qe.node]| && d0.pos.Keys == bfsVisited
      modifies this`bfsVisited
      ensures turn == Closed ==> ClosesShortest(edges, start, qe.path)
      ensures turn == Open ==> Expanding(edges, start, d, head, qe, queue, i + 1)
      ensures turn == Open ==> Listed(d) && bfsVisited == d.pos.Keys
      ensures turn == Open ==> left + 2 * |d.order| == left0 + 2 * |d0.order|
      ensures turn == Starved ==> Outgrown(edges, d, left0 + 2 * |d0.order|)
    {
      turn, queue, left, d := Open, queue0, left0, d0;
      var to := edges[qe.node][i];
      if to == start {
        if left == 0 {
          return Starved, queue, left, d;
        }
        EntryCloses(edges, start, d, head, qe, queue, i);
        turn := Closed;
      } else if to !in bfsVisited {
        bfsVisited := bfsVisited + {to};
        var nqe := BfsEntry(to, qe.path + [to]);
        DiscoverSuccessor(edges, start, d, head, qe, queue, i);
        ListedOn(d, to, |nqe.path|);
        d := d.Add(to, |nqe.path|);
        if left < 2 {
          return Starved, queue, left, d;
        }
        queue := queue + [nqe];
        left := left - 2;
      } else {
        SkipSuccessor(edges, start, d, head, qe, queue, i);
      }
    }

    /** Expands one dequeued entry. */
    method ExpandEntry(start: LockId, qe: BfsEntry, queue0: seq<BfsEntry>, left0: nat,
                       ghost d0: Discovery, ghost head: nat)
      returns (turn: Turn, queue: seq<BfsEntry>, left: nat, ghost d: Discovery)
      requires WellFormed(edges) && Expanding(edges, start, d0, head, qe, queue0, 0) && Listed(d0)
      requires d0.pos.Keys == bfsVisited
      modifies this`bfsVisited
      ensures turn == Closed ==> ClosesShortest(edges, start, qe.path)
      ensures turn == Open ==> Frontier(edges, start, d, head + 1, queue) && Listed(d) && bfsVisited == d.pos.Keys
      ensures turn == Open ==> left + 2 * |d.order| == left0 + 2 * |d0.order|
      ensures turn == Starved ==> Outgrown(edges, d, left0 + 2 * |d0.order|)
    {
      turn, queue, left, d := Open, queue0, left0, d0;
      var i := 0;
      while i < |edges[qe.node]|
        invariant Expanding(edges, start, d, head, qe, queue, i) && Listed(d) && turn == Open
        invariant left + 2 * |d.order| == left0 + 2 * |d0.order|
        invariant bfsVisited == d.pos.Keys
      {
        turn, queue, left, d := FollowEdge(start, qe, i, queue, left, d, head);
        if turn != Open {
          return;
        }
        i := i + 1;
      }
      EntryDone(edges, start, d, head, qe, queue);
    }

    /** The loop over the queue: Open when it runs empty. */
    method Search(start: LockId, heap: nat) returns (turn: Turn, path: seq<LockId>, ghost d: Discovery)
      requires Valid() && start in edges && bfsVisited == {start}
      modifies this`bfsVisited
      ensures turn == Open ==> forall p :: Cycle(edges, p) ==> p[0] != start
      ensures turn == Closed ==> ClosesShortest(edges, start, path)
      ensures turn == Starved ==> Outgrown(edges, d, heap + 2)
    {
      path := [start];
      var queue := [BfsEntry(start, path)];
      var left: nat := heap;
      d := Discovery([start], [1], map[start := 0]);
      StartListed(start, d);
      FewerNodes(d.order, nodes);
      ghost var head := 0;
      while queue != []
        invariant Frontier(edges, start, d, head, queue) && Listed(d)
        invariant d.pos.Keys == bfsVisited && left + 2 * |d.order| == heap + 2
        invariant head <= |d.order| <= |nodes|
        decreases |nodes| - head
      {
        var qe := queue[0];
        Dequeue(edges, start, d, head, queue);
        turn, queue, left, d := ExpandEntry(start, qe, queue[1..], left, d, head);
        if turn != Open {
          path := qe.path;
          return;
        }
        FewerNodes(d.order, nodes);
        head := head + 1;
      }
      SearchExhausted(edges, start, d, head);
      turn := Open;
    }

    /** Breadth-first search for a shortest cycle through the start node.  It goes short of
        memory only with less than two allocations for every node and one for the result. */
    method ShortestCycle(start: LockId, heap: nat) returns (starved: bool, c: Option<seq<LockId>>)
      requires Valid() && start in edges && bfsVisited == {}
      modifies this`bfsVisited
      ensures starved ==> c.None? && heap <= 2 * |nodes|
      ensures !starved && c.None? ==> forall p :: Cycle(edges, p) ==> p[0] != start
      ensures c.Some? ==> ClosesShortest(edges, start, c.value)
    {
      bfsVisited := {start};
      if heap < 2 {
        ElementsAre(nodes, start);
        return true, None;
      }
      var turn, path;
      ghost var d;
      turn, path, d := Search(start, heap - 2);
      if turn == Starved {
        FewerNodes(d.order, nodes);
      }
      return turn == Starved, if turn == Closed then Some(path) else None;
    }

    /** The edge between two locks, looked up through the nodes and their edge lists. */
    method FindEdge(from: LockId, to: LockId) returns (r: Option<(LockId, LockId)>)
      requires Valid()
      ensures r.Some? <==> Edge(edges, from, to)
      ensures r.Some? ==> r.value == (from, to)
    {
      var i := 0;
      while i < |nodes|
        invariant 0 <= i <= |nodes| && from !in Prefix(nodes, i)
      {
        ElementsAre(nodes, nodes[i]);
        if nodes[i] == from {
          var j := 0;
          while j < |edges[from]|
            invariant 0 <= j <= |edges[from]| && forall k :: 0 <= k < j ==> edges[from][k] != to
          {
            if edges[from][j] == to {
              return Some((from, to));
            }
            j := j + 1;
          }
          return None;
        }
        i := i + 1;
      }
      r := None;
    }

    /** Report of a rejected acquire: a shortest cycle through the node, then its edges; not ok
        when memory for the search runs out. */
    method ReportCycle(node: LockId, heap: nat)
      returns (ok: bool, cycle: seq<LockId>, report: seq<(LockId, LockId)>)
      requires Valid() && node in edges && bfsVisited == {} && 0 !in edges
      requires exists p :: Cycle(edges, p) && p[0] == node
      modifies this`bfsVisited
      ensures !ok ==> heap <= 2 * |nodes|
      ensures ok ==> ClosesShortest(edges, node, cycle) && Reports(node, cycle, report)
    {
      var starved, found := ShortestCycle(node, heap);
      if found.None? {
        return false, [], [];
      }
      ok, cycle := true, found.value;
      ghost var c := cycle + [node];
      assert forall i :: 0 <= i < |cycle| ==> Edge(edges, c[i], c[i + 1]);
      report := [];
      // the path as it is stored, terminated by 0
      var path := cycle + [0];
      var p, from, to := 0, 0, 0;
      while true
        invariant 0 <= p <= |cycle| && |report| == (if p == 0 then 0 else p - 1)
        invariant p > 0 ==> to == cycle[p - 1]
        invariant forall i :: 0 <= i < |report| ==> report[i] == (c[i], c[i + 1])
        decreases |cycle| - p
      {
        assert p < |cycle| ==> Edge(edges, c[p], c[p + 1]);
        if path[p] == 0 {
          from, to := to, path[0];
          assert Edge(edges, c[p - 1], c[p - 1 + 1]);
          var edge := FindEdge(from, to);
          report := report + [edge.value];
          return;
        }
        if p != 0 {
          from := to;
        }
        to := path[p];
        if p != 0 {
          assert Edge(edges, c[p - 1], c[p - 1 + 1]);
          var edge := FindEdge(from, to);
          report := report + [edge.value];
        }
        p := p + 1;
      }
    }

    /** Finds the node of a lock or adds it; false when out of memory. */
    method AddToGraph(id: LockId, heap: nat) returns (ok: bool, left: nat)
      requires Valid()
      modifies this`nodes, this`edges
      ensures Valid() && edges == if ok then WithNode(old(edges), id) else old(edges)
      ensures !ok ==> heap == 0
      ensures ok ==> left == if id in old(edges) then heap else heap - 1
    {
      if id in edges {
        return true, heap;
      }
      if heap == 0 {
        return false, 0;
      }
      edges := edges[id := []];
      ElementsSnoc(nodes, id);
      PrefixSnoc(nodes, id, |nodes|);
      WithNodeAddsNoEdge(old(edges), id);
      nodes := nodes + [id];
      return true, heap - 1;
    }

    /** Records that id is taken while the locks in the list are owned. */
    method AddEdges(locks: seq<LockId>, id: LockId, heap: nat) returns (ok: bool, left: nat, ghost k: nat)
      requires Elements(locks) <= edges.Keys
      modifies this`edges
      ensures k <= |locks| && edges == WithEdges(old(edges), locks, k, id)
      ensures if ok then k == |locks| && left + |locks| >= heap else heap < |locks|
    {
      left, k := heap, 0;
      var i := 0;
      while i < |locks|
        invariant 0 <= i == k <= |locks| && left + i >= heap
        invariant edges == WithEdges(old(edges), locks, i, id)
      {
        ElementsAre(locks, locks[i]);
        if id !in edges[locks[i]] {
          if left == 0 {
            return false, 0, k;
          }
          left := left - 1;
          edges := edges[locks[i] := edges[locks[i]] + [id]];
        }
        i, k := i + 1, k + 1;
      }
      ok := true;
    }

    /** The sort of an acquire, and the report if it fails. */
    method CheckOrder(id: LockId, heap: nat, ghost e0: Edges, ghost locks: seq<LockId>)
      returns (r: Result, cycle: seq<LockId>, report: seq<(LockId, LockId)>)
      requires Valid() && Unmarked() && 0 !in edges && id in edges
      requires Acyclic(e0) && Elements(locks) <= e0.Keys && edges == AcquireEdges(e0, locks, id)
      modifies this`tempMark, this`permMark, this`rank, this`time, this`bfsVisited
      ensures r == Success || r == BadState || r == AssertFailed
      ensures if r == Success then Acyclic(edges) && Unmarked() else !Acyclic(edges)
      ensures r == BadState ==> ClosesShortest(edges, id, cycle) && Reports(id, cycle, report)
      ensures r != Success ==> exists c :: MarkedCycle(edges, tempMark, c)
      ensures r == AssertFailed ==> heap <= 2 * |nodes|
    {
      cycle, report := [], [];
      ghost var m := Flags();
      r := Sort();
      if r != Success {
        ghost var p :| Trapped(edges, m, p) && Elements(p) <= tempMark;
        ghost var c := TrapIsCycle(edges, m, p, tempMark);
        ghost var q := NewCyclePassesThrough(e0, locks, id, c);
        var ok;
        ok, cycle, report := ReportCycle(id, heap);
        if !ok {
          r := AssertFailed;
        }
        assert MarkedCycle(edges, tempMark, c);
      }
    }

    /** Before a thread blocks on a lock: records the order and checks that it is
        acyclic.  The first heap allocations succeed and later ones fail. */
    method Acquire(owned: OwnedQueue, id: LockId, heap: nat)
      returns (r: Result, cycle: seq<LockId>, report: seq<(LockId, LockId)>, ghost k: nat)
      requires Valid() && Unmarked() && Acyclic(edges) && id != 0 && 0 !in edges
      requires Elements(owned.locks) <= edges.Keys
      modifies this, owned
      ensures Valid() && edges.Keys <= old(edges).Keys + {id}
      ensures r != ItemNotFound
      ensures r == OutOfMemory ==> heap < |old(owned.locks)| + 2 && Unmarked()
      ensures k <= |old(owned.locks)|
      ensures r == OutOfMemory ==>
          edges == old(edges) || edges == WithEdges(WithNode(old(edges), id), old(owned.locks), k, id)
      ensures r != OutOfMemory ==> edges == AcquireEdges(old(edges), old(owned.locks), id)
      ensures r == Success ==> Acyclic(edges) && Unmarked() && owned.locks == old(owned.locks) + [id]
      ensures r != Success ==> owned.locks == old(owned.locks)
      ensures r == BadState ==> ClosesShortest(edges, id, cycle) && Reports(id, cycle, report)
      ensures r == BadState || r == AssertFailed ==> exists c :: MarkedCycle(edges, tempMark, c)
      ensures r == AssertFailed ==> heap <= |old(owned.locks)| + 1 + 2 * |nodes|
    {
      cycle, report, k := [], [], 0;
      ghost var e0 := edges;
      var ok, left := AddToGraph(id, heap);
      if !ok {
        return OutOfMemory, cycle, report, k;
      }
      ok, left, k := AddEdges(owned.locks, id, left);
      WithEdgesWellFormed(WithNode(e0, id), owned.locks, k, id);
      if !ok {
        return OutOfMemory, cycle, report, k;
      }
      r, cycle, report := CheckOrder(id, left, e0, owned.locks);
      if r != Success {
        return;
      }
      if left == 0 {
        return OutOfMemory, cycle, report, k;
      }
      owned.locks := owned.locks + [id];
    }

    /** After a lock was taken without blocking: no ordering is recorded. */
    method TryAcquire(owned: OwnedQueue, id: LockId, heap: nat) returns (r: Result)
      requires Valid() && Unmarked() && Acyclic(edges)
      modifies this`nodes, this`edges, owned
      ensures Valid() && Unmarked() && Acyclic(edges)
      ensures r == Success || r == OutOfMemory
      ensures r == OutOfMemory ==> heap < 2 && owned.locks == old(owned.locks)
      ensures r == Success ==> owned.locks == old(owned.locks) + [id] && edges == WithNode(old(edges), id)
    {
      var ok, left := AddToGraph(id, heap);
      WithNodeAddsNoEdge(old(edges), id);
      FewerEdgesKeepAcyclic(old(edges), edges);
      if !ok || left == 0 {
        return OutOfMemory;
      }
      owned.locks := owned.locks + [id];
      return Success;
    }

    /** Unlinks from one edge list every edge that ends at id. */
    method UnlinkEdges(list: seq<LockId>, id: LockId) returns (kept: seq<LockId>)
      ensures kept == Without(list, id)
    {
      kept := [];
      var i := 0;
      while i < |list|
        invariant 0 <= i <= |list| && kept == Without(list[..i], id)
      {
        assert list[..i + 1][..i] == list[..i];
        if list[i] != id {
          kept := kept + [list[i]];
        }
        i := i + 1;
      }
      assert list[..i] == list;
    }

    /** Forgets a lock and every ordering that mentions it. */
    method Destroy(id: LockId)
      requires Valid()
      modifies this`nodes, this`edges
      ensures Valid() && edges == WithoutNode(old(edges), id)
      ensures old(Acyclic(edges)) ==> Acyclic(edges)
    {
      ghost var e0 := edges;
      if id in edges {
        UnlinkNode(id);
      } else {
        AbsentNode(e0, id);
      }
      WithoutNodeIs(e0, id);
      if Acyclic(e0) {
        FewerEdgesKeepAcyclic(e0, edges);
      }
    }

    /** Takes the node out of the list, then its edges out of every other node. */
    method UnlinkNode(id: LockId)
      requires Valid() && id in edges
      modifies this`nodes, this`edges
      ensures Elements(nodes) == edges.Keys && Distinct(nodes, |nodes|)
      ensures edges == WithoutNode(old(edges), id)
    {
      ElementsAre(nodes, id);
      var k :| 0 <= k < |nodes| && nodes[k] == id;
      RemoveAt(nodes, k);
      nodes := nodes[..k] + nodes[k + 1..];
      edges := edges - {id};
      UnlinkFromAll(nodes, id, old(edges));
    }

    method UnlinkFromAll(list: seq<LockId>, id: LockId, ghost e0: Edges)
      requires Elements(list) == e0.Keys - {id} && Distinct(list, |list|) && edges == e0 - {id}
      modifies this`edges
      ensures edges == WithoutNode(e0, id)
    {
      var i := 0;
      while i < |list|
        invariant 0 <= i <= |list| && edges == Unlinked(e0, id, list, i)
      {
        assert list[i] in edges && edges[list[i]] == e0[list[i]] by {
          UnlinkedIs(e0, id, list, i);
          ElementsAre(list, list[i]);
          DistinctAt(list, i, |list|);
        }
        var kept := UnlinkEdges(edges[list[i]], id);
        edges := edges[list[i] := kept];
        i := i + 1;
      }
      UnlinkedIs(e0, id, list, i);
      assert edges == WithoutNode(e0, id);
    }
  }

  // ---- A sort after a rejected acquire ----

  lemma LoneNode(e: Edges, id: LockId)
    requires e == map[id := []]
    ensures Acyclic(map[]) && Acyclic(e)
  {
    RankedIsAcyclic(e, map[id := 0]);
    RankedIsAcyclic(map[], map[]);
  }

  lemma LoneLoop(id: LockId)
    ensures Elements([id]) == {id} && AcquireEdges(map[id := []], [id], id) == map[id := [id]]
    ensures !Acyclic(map[id := [id]])
  {
    var e := map[id := [id]];
    assert Prefix([id], 0) == {};
    assert WithEdges(map[id := []], [id], 0, id) == map[id := []] && [] + [id] == [id];
    assert AcquireEdges(map[id := []], [id], id) == map[id := []][id := [id]] == e;
    assert Edge(e, id, id);
    assert Cycle(e, [id, id]);
  }

  /** Where every node has a flag no walk begins. */
  lemma AllFlagged(e: Edges, m: Marks)
    requires e.Keys <= m.temp + m.perm + m.bfs
    ensures Untrapped(e, m)
  {
    forall p ensures !Trapped(e, m, p) {
      if |p| >= 2 && Walk(e, p) {
        assert Edge(e, p[0], p[0 + 1]);
      }
    }
  }

  /** A lock taken twice is rejected.  Its node keeps its marks, so that the next sort accepts the
      graph although it has a cycle. */
  method AcceptedAfterRejection(id: LockId) returns (g: Graph, first: Result, second: Result, sorted: Result)
    requires id != 0
    ensures first == Success && second == BadState && sorted == Success && !Acyclic(g.edges)
  {
    g := new Graph();
    var owned := new OwnedQueue();
    var cycle, report;
    ghost var k;
    LoneNode(map[id := []], id);
    assert Elements(owned.locks) == {};
    first, cycle, report, k := g.Acquire(owned, id, 10);
    assert AcquireEdges(map[], [], id) == map[id := []];
    assert owned.locks == [id] && Prefix([id], 0) == {} && Elements([id]) == {id};
    second, cycle, report, k := g.Acquire(owned, id, 10);
    LoneLoop(id);
    ghost var c :| MarkedCycle(g.edges, g.tempMark, c);
    assert Edge(g.edges, c[0], c[0 + 1]);
    AllFlagged(g.edges, g.Flags());
    sorted := g.Sort();
  }
}
