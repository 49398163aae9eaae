/** The lock-order graph as a mathematical object: walks, cycles and what adding
    or removing edges does to them.  The imperative code that maintains the graph
    is in module Lockdep; the deadlock argument that uses it is in MutexDeadlock. */
module LockGraph {

  /** Address of a lock object. */
  type LockId = nat

  /** Node to its edge list.  An edge from a to b: a was held while b was taken. */
  type Edges = map<LockId, seq<LockId>>

  predicate Edge(e: Edges, a: LockId, b: LockId) {
    a in e && b in e[a]
  }

  /** The set of the first k elements of a list. */
  ghost function Prefix(s: seq<LockId>, k: nat): (r: set<LockId>)
    requires k <= |s|
  {
    if k == 0 then {} else Prefix(s, k - 1) + {s[k - 1]}
  }

  ghost function Elements(s: seq<LockId>): (r: set<LockId>) {
    Prefix(s, |s|)
  }

  /** The first k elements of a list are pairwise different. */
  ghost predicate Distinct(s: seq<LockId>, k: nat)
    requires k <= |s|
  {
    k == 0 || (s[k - 1] !in Prefix(s, k - 1) && Distinct(s, k - 1))
  }

  lemma {:induction false} PrefixIs(s: seq<LockId>, k: nat, x: LockId)
    requires k <= |s|
    ensures x in Prefix(s, k) <==> x in s[..k]
  {
    if k == 0 {
    } else {
      PrefixIs(s, k - 1, x);
      assert s[..k] == s[..k - 1] + [s[k - 1]];
    }
  }

  lemma ElementsAre(s: seq<LockId>, x: LockId)
    ensures x in Elements(s) <==> x in s
  {
    PrefixIs(s, |s|, x);
    assert s[..|s|] == s;
  }

  lemma {:induction false} PrefixSnoc(s: seq<LockId>, x: LockId, k: nat)
    requires k <= |s|
    ensures Prefix(s + [x], k) == Prefix(s, k)
    ensures Distinct(s + [x], k) == Distinct(s, k)
  {
    if k == 0 {
    } else {
      PrefixSnoc(s, x, k - 1);
    }
  }

  lemma ElementsSnoc(s: seq<LockId>, x: LockId)
    ensures Elements(s + [x]) == Elements(s) + {x}
  {
    PrefixSnoc(s, x, |s|);
  }

  /** Every edge ends at a node of the graph. */
  ghost predicate WellFormed(e: Edges) {
    forall a, b {:trigger Edge(e, a, b)} :: Edge(e, a, b) ==> b in e
  }

  ghost predicate Walk(e: Edges, p: seq<LockId>) {
    p != [] && forall i :: 0 <= i < |p| - 1 ==> Edge(e, p[i], p[i + 1])
  }

  /** A closed walk with at least one edge. */
  ghost predicate Cycle(e: Edges, p: seq<LockId>) {
    |p| >= 2 && p[0] == p[|p| - 1] && Walk(e, p)
  }

  ghost predicate Acyclic(e: Edges) {
    forall p :: !Cycle(e, p)
  }

  /** The ranks decrease along every edge that leaves a ranked node. */
  ghost predicate Ranked(e: Edges, rank: map<LockId, nat>) {
    forall a, b {:trigger Edge(e, a, b)} :: a in rank && Edge(e, a, b) ==> b in rank && rank[b] < rank[a]
  }

  lemma {:induction false} RankAlongWalk(e: Edges, rank: map<LockId, nat>, p: seq<LockId>)
    requires Ranked(e, rank) && Walk(e, p) && p[0] in rank
    ensures p[|p| - 1] in rank && rank[p[|p| - 1]] + |p| - 1 <= rank[p[0]]
  {
    if |p| == 1 {
    } else {
      assert Edge(e, p[0], p[0 + 1]);
      assert forall i :: 0 <= i < |p| - 2 ==> Edge(e, p[1..][i], p[1..][i + 1]) by {
        forall i | 0 <= i < |p| - 2 ensures Edge(e, p[1..][i], p[1..][i + 1]) {
          assert Edge(e, p[i + 1], p[i + 1 + 1]);
        }
      }
      RankAlongWalk(e, rank, p[1..]);
    }
  }

  /** A total ranking excludes cycles. */
  lemma RankedIsAcyclic(e: Edges, rank: map<LockId, nat>)
    requires Ranked(e, rank) && rank.Keys == e.Keys
    ensures Acyclic(e)
  {
    forall p | Cycle(e, p) ensures false {
      assert Edge(e, p[0], p[0 + 1]);
      RankAlongWalk(e, rank, p);
    }
  }

  lemma WalkExtend(e: Edges, p: seq<LockId>, b: LockId)
    requires Walk(e, p) && Edge(e, p[|p| - 1], b)
    ensures Walk(e, p + [b])
  {
    var q := p + [b];
    forall i | 0 <= i < |q| - 1 ensures Edge(e, q[i], q[i + 1]) {
      if i < |p| - 1 {
        assert Edge(e, p[i], p[i + 1]);
      }
    }
  }

  /** A walk whose last node has an edge to one of its nodes contains a cycle. */
  lemma ClosingEdgeMakesCycle(e: Edges, p: seq<LockId>, k: nat)
    requires Walk(e, p) && k < |p| && Edge(e, p[|p| - 1], p[k])
    ensures !Acyclic(e)
  {
    var c := p[k..] + [p[k]];
    forall i | 0 <= i < |c| - 1 ensures Edge(e, c[i], c[i + 1]) {
      if i < |c| - 2 {
        assert Edge(e, p[k + i], p[k + i + 1]);
      }
    }
    assert Cycle(e, c);
  }

  // ---- Edges added by one acquire ----

  function WithNode(e: Edges, id: LockId): (r: Edges) {
    if id in e then e else e[id := []]
  }

  function WithEdge(e: Edges, a: LockId, b: LockId): (r: Edges)
    requires a in e
    ensures r.Keys == e.Keys
  {
    if b in e[a] then e else e[a := e[a] + [b]]
  }

  /** Edges from the first k owned locks to id. */
  function WithEdges(e: Edges, owned: seq<LockId>, k: nat, id: LockId): (r: Edges)
    requires k <= |owned| && Elements(owned) <= e.Keys
    ensures r.Keys == e.Keys
  {
    if k == 0 then e
    else
      ElementsAre(owned, owned[k - 1]);
      WithEdge(WithEdges(e, owned, k - 1, id), owned[k - 1], id)
  }

  /** The graph after an acquire of id by a thread that owns the given locks. */
  function AcquireEdges(e: Edges, owned: seq<LockId>, id: LockId): (r: Edges)
    requires Elements(owned) <= e.Keys
    ensures r.Keys == e.Keys + {id}
  {
    WithEdges(WithNode(e, id), owned, |owned|, id)
  }

  lemma WithNodeAddsNoEdge(e: Edges, id: LockId)
    ensures forall x, y :: Edge(WithNode(e, id), x, y) <==> Edge(e, x, y)
    ensures WellFormed(e) ==> WellFormed(WithNode(e, id))
  {
  }

  lemma {:induction false} WithEdgesAre(e: Edges, owned: seq<LockId>, k: nat, id: LockId, x: LockId, y: LockId)
    requires k <= |owned| && Elements(owned) <= e.Keys
    ensures Edge(WithEdges(e, owned, k, id), x, y) <==> Edge(e, x, y) || (x in Prefix(owned, k) && y == id)
  {
    if k == 0 {
    } else {
      ElementsAre(owned, owned[k - 1]);
      WithEdgesAre(e, owned, k - 1, id, x, y);
    }
  }

  /** An acquire adds exactly the edges from the owned locks to the new one. */
  lemma AcquireEdgesAre(e: Edges, owned: seq<LockId>, id: LockId)
    requires Elements(owned) <= e.Keys
    ensures forall x, y ::
        Edge(AcquireEdges(e, owned, id), x, y) <==> Edge(e, x, y) || (x in Elements(owned) && y == id)
  {
    forall x, y
      ensures Edge(AcquireEdges(e, owned, id), x, y) <==> Edge(e, x, y) || (x in Elements(owned) && y == id)
    {
      WithEdgesAre(WithNode(e, id), owned, |owned|, id, x, y);
    }
  }

  lemma WithEdgesWellFormed(e: Edges, owned: seq<LockId>, k: nat, id: LockId)
    requires WellFormed(e) && k <= |owned| && Elements(owned) <= e.Keys && id in e
    ensures WellFormed(WithEdges(e, owned, k, id))
  {
    forall x, y | Edge(WithEdges(e, owned, k, id), x, y) ensures y in e {
      WithEdgesAre(e, owned, k, id, x, y);
    }
  }

  /** Rotating a cycle so that it starts at its k-th node. */
  lemma RotateCycle(e: Edges, p: seq<LockId>, k: nat) returns (q: seq<LockId>)
    requires Cycle(e, p) && k < |p|
    ensures Cycle(e, q) && q[0] == p[k]
  {
    if k == |p| - 1 || k == 0 {
      q := p;
      return;
    }
    q := p[k..] + p[1..k + 1];
    forall i | 0 <= i < |q| - 1 ensures Edge(e, q[i], q[i + 1]) {
      if i < |p| - k - 1 {
        assert Edge(e, p[k + i], p[k + i + 1]);
      } else if i == |p| - k - 1 {
        assert Edge(e, p[0], p[0 + 1]);
      } else {
        var j := i - (|p| - k) + 1;
        assert Edge(e, p[j], p[j + 1]);
      }
    }
  }

  /** If an acyclic graph gets edges into id only, every cycle that appears passes
      through id, so one starts there. */
  lemma NewCyclePassesThrough(e: Edges, owned: seq<LockId>, id: LockId, p: seq<LockId>)
    returns (q: seq<LockId>)
    requires Elements(owned) <= e.Keys
    requires Acyclic(e) && Cycle(AcquireEdges(e, owned, id), p)
    ensures id in p
    ensures Cycle(AcquireEdges(e, owned, id), q) && q[0] == id
  {
    var e' := AcquireEdges(e, owned, id);
    AcquireEdgesAre(e, owned, id);
    if id !in p {
      forall i | 0 <= i < |p| - 1 ensures Edge(e, p[i], p[i + 1]) {
        assert Edge(e', p[i], p[i + 1]);
      }
      assert Cycle(e, p);
      assert false;
    }
    var k :| 0 <= k < |p| && p[k] == id;
    q := RotateCycle(e', p, k);
  }

  /** Removing a node with the edges at both its ends. */
  function WithoutNode(e: Edges, id: LockId): (r: Edges) {
    map x | x in e && x != id :: Without(e[x], id)
  }

  lemma WithoutNodeIs(e: Edges, id: LockId)
    ensures forall x, y :: Edge(WithoutNode(e, id), x, y) <==> Edge(e, x, y) && x != id && y != id
    ensures WellFormed(e) ==> WellFormed(WithoutNode(e, id))
  {
    forall x, y ensures Edge(WithoutNode(e, id), x, y) <==> Edge(e, x, y) && x != id && y != id {
      if x in e {
        WithoutIs(e[x], id, y);
      }
    }
  }

  /** The removal of a node as it proceeds: the first k lists have been unlinked. */
  function Unlinked(e: Edges, id: LockId, nodes: seq<LockId>, k: nat): (r: Edges)
    requires k <= |nodes| && Elements(nodes) <= e.Keys
  {
    if k == 0 then e - {id}
    else
      ElementsAre(nodes, nodes[k - 1]);
      Unlinked(e, id, nodes, k - 1)[nodes[k - 1] := Without(e[nodes[k - 1]], id)]
  }

  lemma {:induction false} UnlinkedIs(e: Edges, id: LockId, nodes: seq<LockId>, k: nat)
    requires k <= |nodes| && Elements(nodes) == e.Keys - {id}
    ensures Unlinked(e, id, nodes, k).Keys == e.Keys - {id}
    ensures forall x :: x in e && x != id ==>
              Unlinked(e, id, nodes, k)[x] == if x in Prefix(nodes, k) then Without(e[x], id) else e[x]
  {
    if k == 0 {
    } else {
      UnlinkedIs(e, id, nodes, k - 1);
      ElementsAre(nodes, nodes[k - 1]);
    }
  }

  lemma {:induction false} DistinctAt(s: seq<LockId>, k: nat, n: nat)
    requires k < n <= |s| && Distinct(s, n)
    ensures s[k] !in Prefix(s, k)
  {
    if k < n - 1 {
      DistinctAt(s, k, n - 1);
    }
  }

  function Without(s: seq<LockId>, id: LockId): (r: seq<LockId>) {
    if s == [] then []
    else
      var init := Without(s[..|s| - 1], id);
      if s[|s| - 1] == id then init else init + [s[|s| - 1]]
  }

  lemma {:induction false} WithoutIs(s: seq<LockId>, id: LockId, x: LockId)
    ensures x in Without(s, id) <==> x in s && x != id
  {
    if s == [] {
    } else {
      WithoutIs(s[..|s| - 1], id, x);
      assert s == s[..|s| - 1] + [s[|s| - 1]];
    }
  }

  lemma {:induction false} WithoutAbsent(s: seq<LockId>, id: LockId)
    requires id !in s
    ensures Without(s, id) == s
  {
    if s == [] {
    } else {
      WithoutAbsent(s[..|s| - 1], id);
    }
  }

  lemma AbsentNode(e: Edges, id: LockId)
    requires WellFormed(e) && id !in e
    ensures WithoutNode(e, id) == e
  {
    forall x | x in e ensures Without(e[x], id) == e[x] {
      assert !Edge(e, x, id);
      WithoutAbsent(e[x], id);
    }
  }

  /** A graph with fewer edges has no more cycles. */
  lemma FewerEdgesKeepAcyclic(e: Edges, e': Edges)
    requires Acyclic(e) && forall x, y :: Edge(e', x, y) ==> Edge(e, x, y)
    ensures Acyclic(e')
  {
    forall p | Cycle(e', p) ensures false {
      assert Cycle(e, p);
    }
  }

  /** Removing the k-th entry of a list without duplicates removes that element. */
  lemma {:induction false} RemoveAt(s: seq<LockId>, k: nat)
    requires k < |s| && Distinct(s, |s|)
    ensures var r := s[..k] + s[k + 1..];
            Elements(r) == Elements(s) - {s[k]} && Distinct(r, |r|)
  {
    var init, last := s[..|s| - 1], s[|s| - 1];
    assert s == init + [last];
    PrefixSnoc(init, last, |init|);
    var r := s[..k] + s[k + 1..];
    if k == |s| - 1 {
      assert s[k + 1..] == [] && s[..k] == init;
      assert r == init;
    } else {
      RemoveAt(init, k);
      var r' := init[..k] + init[k + 1..];
      assert r == r' + [last];
      PrefixSnoc(r', last, |r'|);
      PrefixIs(init, |init|, s[k]);
      assert init[k] in init[..|init|];
    }
  }
}
