/** Kahn's algorithm, as the schema check and the pre-flight check both run it. */
module Kahn {
  import opened Schema

  // --- Specification functions over edge lists ---

  /** The edges both of whose ends are declared nodes, in order. */
  function Inner(edges: seq<Edge>, nodes: set<NodeId>): seq<Edge> {
    if edges == [] then []
    else
      var e := edges[|edges| - 1];
      Inner(edges[..|edges| - 1], nodes) + if Inside(e, nodes) then [e] else []
  }

  /** Targets of the edges leaving `u`, one entry per edge. */
  function Targets(edges: seq<Edge>, u: NodeId): seq<NodeId> {
    if edges == [] then []
    else
      var e := edges[|edges| - 1];
      Targets(edges[..|edges| - 1], u) + if e.source == u then [e.target] else []
  }

  /** How many edges into `v` leave nodes outside `done`. */
  function Pending(edges: seq<Edge>, done: set<NodeId>, v: NodeId): nat {
    if edges == [] then 0
    else
      var e := edges[|edges| - 1];
      Pending(edges[..|edges| - 1], done, v) + if e.target == v && e.source !in done then 1 else 0
  }

  lemma {:induction false} InnerMembers(edges: seq<Edge>, nodes: set<NodeId>)
    ensures forall e :: e in Inner(edges, nodes) <==> e in edges && Inside(e, nodes)
  {
    if edges != [] {
      InnerMembers(edges[..|edges| - 1], nodes);
      assert edges == edges[..|edges| - 1] + [edges[|edges| - 1]];
    }
  }

  lemma InnerSnoc(edges: seq<Edge>, e: Edge, nodes: set<NodeId>)
    ensures Inner(edges + [e], nodes) == Inner(edges, nodes) + if Inside(e, nodes) then [e] else []
  {
    hide Inside;
    assert (edges + [e])[..|edges|] == edges;
  }

  lemma TargetsSnoc(edges: seq<Edge>, e: Edge, u: NodeId)
    ensures Targets(edges + [e], u) == if e.source == u then Targets(edges, u) + [e.target] else Targets(edges, u)
  {
    assert (edges + [e])[..|edges|] == edges;
  }

  lemma PendingSnoc(edges: seq<Edge>, e: Edge, done: set<NodeId>, v: NodeId)
    ensures Pending(edges + [e], done, v) == Pending(edges, done, v) + if e.target == v && e.source !in done then 1 else 0
  {
    assert (edges + [e])[..|edges|] == edges;
  }

  lemma InnerNothing(nodes: set<NodeId>)
    ensures Inner([], nodes) == []
  {
  }

  lemma {:induction false} InnerOfInside(edges: seq<Edge>, nodes: set<NodeId>)
    requires forall e | e in edges :: Inside(e, nodes)
    ensures Inner(edges, nodes) == edges
  {
    hide *;
    if edges == [] {
      InnerNothing(nodes);
    } else {
      var front, e := edges[..|edges| - 1], edges[|edges| - 1];
      assert edges == front + [e];
      assert e in edges && forall f | f in front :: f in edges;
      InnerOfInside(front, nodes);
      InnerSnoc(front, e, nodes);
    }
  }

  lemma {:induction false} TargetMembers(edges: seq<Edge>, u: NodeId)
    ensures forall v :: v in Targets(edges, u) <==> Linked(edges, u, v)
  {
    if edges != [] {
      var front, e := edges[..|edges| - 1], edges[|edges| - 1];
      TargetMembers(front, u);
      assert edges == front + [e];
      forall v
        ensures Linked(edges, u, v) <==> Linked(front, u, v) || (e.source == u && e.target == v)
      {
        if Linked(front, u, v) {
          var f :| f in front && f.source == u && f.target == v;
          assert f in edges;
        }
      }
    }
  }

  lemma {:induction false} PendingZero(edges: seq<Edge>, done: set<NodeId>, v: NodeId)
    ensures Pending(edges, done, v) == 0 <==> forall e | e in edges && e.target == v :: e.source in done
  {
    if edges != [] {
      PendingZero(edges[..|edges| - 1], done, v);
      assert edges == edges[..|edges| - 1] + [edges[|edges| - 1]];
    }
  }

  lemma {:induction false} PendingRelease(edges: seq<Edge>, done: set<NodeId>, u: NodeId, v: NodeId)
    requires u !in done
    ensures Pending(edges, done, v) == Pending(edges, done + {u}, v) + multiset(Targets(edges, u))[v]
  {
    if edges != [] {
      PendingRelease(edges[..|edges| - 1], done, u, v);
    }
  }

  // --- What a finished run of Kahn's loop looks like ---

  /** Every edge into the `j`-th node of the order leaves an earlier one. */
  ghost predicate Topological(edges: seq<Edge>, order: seq<NodeId>) {
    forall e, j | e in edges && 0 <= j < |order| && order[j] == e.target :: e.source in order[..j]
  }

  ghost predicate HasBlockedPredecessor(edges: seq<Edge>, settled: set<NodeId>, v: NodeId) {
    exists e | e in edges :: e.target == v && e.source !in settled
  }

  /** A node outside the set has a predecessor outside it too. */
  ghost predicate Exhausted(edges: seq<Edge>, nodes: set<NodeId>, settled: set<NodeId>) {
    forall v | v in nodes && v !in settled :: HasBlockedPredecessor(edges, settled, v)
  }

  /** Along a walk that ends inside a topological order, positions strictly increase. */
  lemma {:induction false} WalkBehind(edges: seq<Edge>, order: seq<NodeId>, p: seq<NodeId>, j: nat)
    requires Topological(edges, order) && IsWalk(edges, p)
    requires j < |order| && p[|p| - 1] == order[j]
    ensures forall k | 0 <= k < |p| - 1 :: p[k] in order[..j]
    decreases |p|
  {
    if |p| > 1 {
      var u := p[|p| - 2];
      assert Linked(edges, p[|p| - 2], p[|p| - 1]);
      var e :| e in edges && e.source == u && e.target == order[j];
      assert u in order[..j];
      var i :| 0 <= i < j && order[i] == u;
      var q := p[..|p| - 1];
      WalkBehind(edges, order, q, i);
      assert order[..i] == order[..j][..i];
      forall k | 0 <= k < |p| - 1
        ensures p[k] in order[..j]
      {
        assert q[k] == p[k];
      }
    }
  }

  lemma OrderedNotBelowCycle(edges: seq<Edge>, order: seq<NodeId>, v: NodeId)
    requires Topological(edges, order) && NoDuplicates(order) && v in order
    ensures !BelowCycle(edges, v)
  {
    if BelowCycle(edges, v) {
      var u :| OnCycle(edges, u) && Reaches(edges, u, v);
      var p :| IsWalk(edges, p) && p[0] == u && p[|p| - 1] == v;
      var j :| 0 <= j < |order| && order[j] == v;
      WalkBehind(edges, order, p, j);
      assert u in order;
      var i :| 0 <= i < |order| && order[i] == u;
      var c :| IsWalk(edges, c) && |c| >= 2 && c[0] == u && c[|c| - 1] == u;
      WalkBehind(edges, order, c, i);
    }
  }

  /** From a left-out node one can walk backwards through left-out nodes forever. */
  lemma {:induction false} BackwardWalk(edges: seq<Edge>, nodes: set<NodeId>, settled: set<NodeId>, v: NodeId, n: nat)
      returns (p: seq<NodeId>)
    requires Exhausted(edges, nodes, settled) && v in nodes && v !in settled
    requires forall e | e in edges :: Inside(e, nodes)
    ensures IsWalk(edges, p) && |p| == n + 1 && p[n] == v
    ensures forall x | x in p :: x in nodes && x !in settled
  {
    if n == 0 {
      p := [v];
    } else {
      p := BackwardWalk(edges, nodes, settled, v, n - 1);
      assert p[0] in p;
      assert HasBlockedPredecessor(edges, settled, p[0]);
      var e :| e in edges && e.target == p[0] && e.source !in settled;
      assert Linked(edges, e.source, p[0]);
      p := [e.source] + p;
    }
  }

  lemma RepeatBelowCycle(edges: seq<Edge>, p: seq<NodeId>, i: nat, j: nat)
    requires IsWalk(edges, p) && i < j < |p| && p[i] == p[j]
    ensures BelowCycle(edges, p[|p| - 1])
  {
    var cycle, tail := p[i..j + 1], p[j..|p|];
    SubWalk(edges, p, i, j + 1);
    SubWalk(edges, p, j, |p|);
    assert cycle[0] == p[j] && cycle[|cycle| - 1] == p[j];
    assert OnCycle(edges, p[j]);
    assert tail[0] == p[j] && tail[|tail| - 1] == p[|p| - 1];
    assert Reaches(edges, p[j], p[|p| - 1]);
  }

  lemma LeftOutBelowCycle(edges: seq<Edge>, nodes: set<NodeId>, settled: set<NodeId>, v: NodeId)
    requires Exhausted(edges, nodes, settled) && v in nodes && v !in settled
    requires forall e | e in edges :: Inside(e, nodes)
    ensures BelowCycle(edges, v)
  {
    var p := BackwardWalk(edges, nodes, settled, v, |nodes|);
    Pigeonhole(p, nodes);
    var i, j :| 0 <= i < j < |p| && p[i] == p[j];
    RepeatBelowCycle(edges, p, i, j);
  }

  /** The order is complete exactly when nothing cycles. */
  lemma OrderCoversAcyclic(edges: seq<Edge>, nodes: set<NodeId>, order: seq<NodeId>)
    requires forall e | e in edges :: Inside(e, nodes)
    requires forall v :: v in order <==> v in nodes && !BelowCycle(edges, v)
    ensures Acyclic(edges) <==> Elements(order) == nodes
  {
    if Elements(order) == nodes {
      forall u
        ensures !OnCycle(edges, u)
      {
        if OnCycle(edges, u) {
          OnCycleIsBelow(edges, u);
          CycleInside(edges, nodes, u);
        }
      }
    }
  }

  /** A topological order after which no node is left without a predecessor that is left as well
      is complete exactly when nothing cycles. */
  lemma ExhaustedOrderCoversAcyclic(edges: seq<Edge>, nodes: set<NodeId>, order: seq<NodeId>)
    requires forall e | e in edges :: Inside(e, nodes)
    requires Topological(edges, order) && NoDuplicates(order) && (forall v | v in order :: v in nodes)
    requires Exhausted(edges, nodes, Elements(order))
    ensures forall v :: v in order <==> v in nodes && !BelowCycle(edges, v)
    ensures Acyclic(edges) <==> Elements(order) == nodes
  {
    forall v
      ensures v in order <==> v in nodes && !BelowCycle(edges, v)
    {
      if v in order {
        OrderedNotBelowCycle(edges, order, v);
      } else if v in nodes {
        LeftOutBelowCycle(edges, nodes, Elements(order), v);
      }
    }
    hide BelowCycle, Topological, Exhausted, Acyclic;
    OrderCoversAcyclic(edges, nodes, order);
  }

  lemma {:induction false} CountDistinct<T>(s: seq<T>)
    ensures |Elements(s)| <= |s|
    ensures |Elements(s)| == |s| <==> NoDuplicates(s)
  {
    if s != [] {
      var rest := s[1..];
      CountDistinct(rest);
      assert Elements(s) == {s[0]} + Elements(rest);
      if s[0] in rest {
        assert Elements(s) == Elements(rest);
        var j :| 0 <= j < |rest| && rest[j] == s[0];
        assert s[0] == s[j + 1];
      } else {
        assert NoDuplicates(s) <==> NoDuplicates(rest) by {
          if NoDuplicates(s) {
            forall i, j | 0 <= i < j < |rest|
              ensures rest[i] != rest[j]
            {
              assert s[i + 1] != s[j + 1];
            }
          }
        }
      }
    }
  }

  // --- The loops ---

  /** The first dictionary holds every declared node's targets. */
  ghost predicate Successors(edges: seq<Edge>, nodes: set<NodeId>, adjacency: map<NodeId, seq<NodeId>>) {
    adjacency.Keys == nodes && forall u | u in nodes :: adjacency[u] == Targets(edges, u)
  }

  /** The second one counts every declared node's incoming edges. */
  ghost predicate Counts(edges: seq<Edge>, nodes: set<NodeId>, inDegree: map<NodeId, int>) {
    inDegree.Keys == nodes && forall v | v in nodes :: inDegree[v] == Pending(edges, {}, v)
  }

  lemma SuccessorsEdge(edges: seq<Edge>, e: Edge, nodes: set<NodeId>, adjacency: map<NodeId, seq<NodeId>>)
    requires Successors(edges, nodes, adjacency) && e.source in nodes
    ensures e.source in adjacency
    ensures Successors(edges + [e], nodes, adjacency[e.source := adjacency[e.source] + [e.target]])
  {
    hide Targets;
    forall u | u in nodes
      ensures Targets(edges + [e], u) == if e.source == u then Targets(edges, u) + [e.target] else Targets(edges, u)
    {
      TargetsSnoc(edges, e, u);
    }
  }

  lemma CountsEdge(edges: seq<Edge>, e: Edge, nodes: set<NodeId>, inDegree: map<NodeId, int>)
    requires Counts(edges, nodes, inDegree) && e.target in nodes
    ensures e.target in inDegree
    ensures Counts(edges + [e], nodes, inDegree[e.target := inDegree[e.target] + 1])
  {
    hide Pending;
    forall v | v in nodes
      ensures Pending(edges + [e], {}, v) == Pending(edges, {}, v) + if e.target == v then 1 else 0
    {
      PendingSnoc(edges, e, {}, v);
    }
  }

  lemma NothingTabulated(nodes: set<NodeId>)
    ensures Successors([], nodes, map u | u in nodes :: [])
    ensures Counts([], nodes, map v | v in nodes :: 0)
  {
  }

  lemma TabulatedKeys(edges: seq<Edge>, nodes: set<NodeId>, adjacency: map<NodeId, seq<NodeId>>,
                      inDegree: map<NodeId, int>)
    requires Successors(edges, nodes, adjacency) && Counts(edges, nodes, inDegree)
    ensures adjacency.Keys == inDegree.Keys == nodes
    ensures forall u | u in adjacency :: adjacency[u] == Targets(edges, u)
    ensures forall v | v in inDegree :: inDegree[v] == Pending(edges, {}, v)
  {
  }

  lemma InnerStep(edges: seq<Edge>, k: nat, nodes: set<NodeId>)
    requires k < |edges|
    ensures Inner(edges[..k + 1], nodes) ==
            if edges[k].source in nodes && edges[k].target in nodes then Inner(edges[..k], nodes) + [edges[k]]
            else Inner(edges[..k], nodes)
  {
    assert edges[..k + 1] == edges[..k] + [edges[k]];
    InnerSnoc(edges[..k], edges[k], nodes);
  }

  /** The two dictionaries built from the edge list; dangling edges are skipped. */
  method Adjacency(ids: seq<NodeId>, edges: seq<Edge>)
      returns (adjacency: map<NodeId, seq<NodeId>>, inDegree: map<NodeId, int>)
    ensures adjacency.Keys == inDegree.Keys == Elements(ids)
    ensures forall u | u in adjacency :: adjacency[u] == Targets(Inner(edges, Elements(ids)), u)
    ensures forall v | v in inDegree :: inDegree[v] == Pending(Inner(edges, Elements(ids)), {}, v)
  {
    hide Inner, Targets, Pending, Successors, Counts;
    ghost var nodes := Elements(ids);
    adjacency := map u | u in ids :: [];
    inDegree := map v | v in ids :: 0;
    NothingTabulated(nodes);
    InnerNothing(nodes);
    assert edges[..0] == [] && adjacency == (map u | u in nodes :: []) && inDegree == map v | v in nodes :: 0;
    for k := 0 to |edges|
      invariant adjacency.Keys == inDegree.Keys == nodes
      invariant Successors(Inner(edges[..k], nodes), nodes, adjacency)
      invariant Counts(Inner(edges[..k], nodes), nodes, inDegree)
    {
      var e := edges[k];
      InnerStep(edges, k, nodes);
      if e.source in adjacency && e.target in inDegree {
        SuccessorsEdge(Inner(edges[..k], nodes), e, nodes, adjacency);
        CountsEdge(Inner(edges[..k], nodes), e, nodes, inDegree);
        adjacency := adjacency[e.source := adjacency[e.source] + [e.target]];
        inDegree := inDegree[e.target := inDegree[e.target] + 1];
        TabulatedKeys(Inner(edges[..k + 1], nodes), nodes, adjacency, inDegree);
      }
    }
    assert edges[..|edges|] == edges;
    TabulatedKeys(Inner(edges, nodes), nodes, adjacency, inDegree);
  }

  /** The starting queue: distinct nodes without incoming edges, in declaration order. */
  method Sources(ids: seq<NodeId>, inDegree: map<NodeId, int>) returns (queue: seq<NodeId>)
    requires inDegree.Keys == Elements(ids)
    ensures NoDuplicates(queue)
    ensures forall v :: v in queue <==> v in ids && inDegree[v] == 0
  {
    queue := [];
    for k := 0 to |ids|
      invariant NoDuplicates(queue)
      invariant forall v :: v in queue <==> v in ids[..k] && inDegree[v] == 0
    {
      if inDegree[ids[k]] == 0 && ids[k] !in queue {
        queue := queue + [ids[k]];
      }
    }
  }

  /** The loop invariant of Kahn's algorithm: counters, frontier, order so far. */
  ghost predicate Frontier(edges: seq<Edge>, nodes: set<NodeId>, inDegree: map<NodeId, int>,
                           order: seq<NodeId>, queue: seq<NodeId>) {
    && inDegree.Keys == nodes
    && NoDuplicates(order + queue)
    && (forall v | v in order + queue :: v in nodes)
    && (forall v | v in nodes :: inDegree[v] == Pending(edges, Elements(order), v))
    && (forall v | v in nodes :: inDegree[v] == 0 <==> v in order + queue)
    && Topological(edges, order)
  }

  /** Midway through the removal: edges still to be released keep their targets waiting. */
  ghost predicate Releasing(edges: seq<Edge>, nodes: set<NodeId>, order: seq<NodeId>, rest: seq<NodeId>,
                            inDegree: map<NodeId, int>, queue: seq<NodeId>) {
    && inDegree.Keys == nodes
    && NoDuplicates(order + queue)
    && (forall v | v in order + queue :: v in nodes)
    && (forall w | w in rest :: w in nodes)
    && (forall v | v in nodes :: inDegree[v] == Pending(edges, Elements(order), v) + multiset(rest)[v])
    && (forall v | v in nodes :: inDegree[v] == 0 <==> v in order + queue)
    && Topological(edges, order)
  }

  lemma ReleaseEnd(edges: seq<Edge>, nodes: set<NodeId>, order: seq<NodeId>,
                   inDegree: map<NodeId, int>, queue: seq<NodeId>)
    requires Releasing(edges, nodes, order, [], inDegree, queue)
    ensures Frontier(edges, nodes, inDegree, order, queue)
  {
  }

  lemma ReleaseOne(edges: seq<Edge>, nodes: set<NodeId>, order: seq<NodeId>, rest: seq<NodeId>,
                   inDegree: map<NodeId, int>, queue: seq<NodeId>)
    requires rest != [] && Releasing(edges, nodes, order, rest, inDegree, queue)
    ensures rest[0] in nodes && inDegree.Keys == nodes
    ensures var inDegree' := inDegree[rest[0] := inDegree[rest[0]] - 1];
            var queue' := if inDegree'[rest[0]] == 0 then queue + [rest[0]] else queue;
            Releasing(edges, nodes, order, rest[1..], inDegree', queue')
  {
    var w := rest[0];
    assert rest == [w] + rest[1..];
    assert multiset(rest) == multiset{w} + multiset(rest[1..]);
    assert w !in order + queue;
    assert order + (queue + [w]) == (order + queue) + [w];
  }

  lemma TopologicalSnoc(edges: seq<Edge>, order: seq<NodeId>, curr: NodeId)
    requires Topological(edges, order)
    requires forall e | e in edges && e.target == curr :: e.source in order
    ensures Topological(edges, order + [curr])
  {
    var order' := order + [curr];
    forall e, j | e in edges && 0 <= j < |order'| && order'[j] == e.target
      ensures e.source in order'[..j]
    {
      assert j < |order| ==> order'[..j] == order[..j];
      assert j == |order| ==> order'[..j] == order;
    }
  }

  lemma QueueHead<T>(order: seq<T>, queue: seq<T>)
    requires queue != [] && NoDuplicates(order + queue)
    ensures queue == [queue[0]] + queue[1..]
    ensures queue[0] in order + queue && queue[0] !in order
  {
    var all := order + queue;
    assert all[|order|] == queue[0];
    assert forall i | 0 <= i < |order| :: order[i] == all[i];
  }

  lemma ReleaseStart(edges: seq<Edge>, nodes: set<NodeId>, order: seq<NodeId>,
                     curr: NodeId, queue: seq<NodeId>, inDegree: map<NodeId, int>)
    requires Frontier(edges, nodes, inDegree, order, [curr] + queue)
    requires forall e | e in edges :: Inside(e, nodes)
    ensures Releasing(edges, nodes, order + [curr], Targets(edges, curr), inDegree, queue)
  {
    assert [curr] + queue != [] && ([curr] + queue)[0] == curr;
    QueueHead(order, [curr] + queue);
    TargetMembers(edges, curr);
    forall v | v in nodes {
      PendingRelease(edges, Elements(order), curr, v);
    }
    PendingZero(edges, Elements(order), curr);
    TopologicalSnoc(edges, order, curr);
    assert (order + [curr]) + queue == order + ([curr] + queue);
    assert Elements(order + [curr]) == Elements(order) + {curr};
  }

  /** Removing `curr` from the queue: its edges stop counting one by one. */
  method Release(ghost edges: seq<Edge>, ghost nodes: set<NodeId>, ghost order: seq<NodeId>,
                 curr: NodeId, targets: seq<NodeId>, queue0: seq<NodeId>, inDegree0: map<NodeId, int>)
      returns (queue: seq<NodeId>, inDegree: map<NodeId, int>)
    requires Frontier(edges, nodes, inDegree0, order, [curr] + queue0)
    requires targets == Targets(edges, curr)
    requires forall e | e in edges :: Inside(e, nodes)
    ensures Frontier(edges, nodes, inDegree, order + [curr], queue)
  {
    queue, inDegree := queue0, inDegree0;
    hide *;
    ReleaseStart(edges, nodes, order, curr, queue0, inDegree0);
    assert targets[0..] == targets;
    for k := 0 to |targets|
      invariant Releasing(edges, nodes, order + [curr], targets[k..], inDegree, queue)
    {
      var w := targets[k];
      assert targets[k..][0] == w && targets[k..][1..] == targets[k + 1..];
      ReleaseOne(edges, nodes, order + [curr], targets[k..], inDegree, queue);
      inDegree := inDegree[w := inDegree[w] - 1];
      if inDegree[w] == 0 {
        queue := queue + [w];
      }
    }
    assert targets[|targets|..] == [];
    ReleaseEnd(edges, nodes, order + [curr], inDegree, queue);
  }

  lemma ExhaustedFrontier(edges: seq<Edge>, nodes: set<NodeId>, inDegree: map<NodeId, int>, order: seq<NodeId>)
    requires Frontier(edges, nodes, inDegree, order, [])
    requires forall e | e in edges :: Inside(e, nodes)
    ensures NoDuplicates(order) && Topological(edges, order)
    ensures forall v :: v in order <==> v in nodes && !BelowCycle(edges, v)
  {
    assert order + [] == order;
    forall v | v in nodes && v !in order
      ensures HasBlockedPredecessor(edges, Elements(order), v)
    {
      PendingZero(edges, Elements(order), v);
    }
    ExhaustedOrderCoversAcyclic(edges, nodes, order);
    hide Pending, Topological;
  }

  lemma FrontierHead(edges: seq<Edge>, nodes: set<NodeId>, inDegree: map<NodeId, int>,
                     order: seq<NodeId>, queue: seq<NodeId>)
    requires queue != [] && Frontier(edges, nodes, inDegree, order, queue)
    ensures queue == [queue[0]] + queue[1..] && queue[0] in nodes
    ensures nodes - Elements(order + [queue[0]]) < nodes - Elements(order)
  {
    QueueHead(order, queue);
    assert Elements(order + [queue[0]]) == Elements(order) + {queue[0]};
    assert queue[0] !in nodes - Elements(order + [queue[0]]);
  }

  lemma FrontierStart(edges: seq<Edge>, nodes: set<NodeId>, inDegree: map<NodeId, int>, queue: seq<NodeId>)
    requires inDegree.Keys == nodes && NoDuplicates(queue)
    requires forall v :: v in queue <==> v in nodes && inDegree[v] == 0
    requires forall v | v in nodes :: inDegree[v] == Pending(edges, {}, v)
    ensures Frontier(edges, nodes, inDegree, [], queue)
  {
    assert [] + queue == queue;
    assert Elements<NodeId>([]) == {};
  }

  lemma SubsetSize<T>(a: set<T>, b: set<T>)
    requires a <= b
    ensures |a| <= |b|
    ensures |a| == |b| <==> a == b
  {
    assert b == a + (b - a);
  }

  lemma CompleteOrder(ids: seq<NodeId>, edges: seq<Edge>, order: seq<NodeId>)
    requires NoDuplicates(order)
    requires forall e | e in edges :: Inside(e, Elements(ids))
    requires forall v :: v in order <==> v in Elements(ids) && !BelowCycle(edges, v)
    ensures |order| <= |ids|
    ensures |order| == |ids| <==> NoDuplicates(ids) && Acyclic(edges)
  {
    OrderCoversAcyclic(edges, Elements(ids), order);
    CountDistinct(order);
    CountDistinct(ids);
    SubsetSize(Elements(order), Elements(ids));
  }

  /** Kahn's loop: a duplicate-free topological order of exactly the nodes that are
      neither on a cycle nor downstream of one. */
  method VisitOrder(ids: seq<NodeId>, edges: seq<Edge>) returns (order: seq<NodeId>)
    ensures NoDuplicates(order)
    ensures Topological(Inner(edges, Elements(ids)), order)
    ensures forall v :: v in order <==> v in ids && !BelowCycle(Inner(edges, Elements(ids)), v)
    ensures |order| == |ids| <==> NoDuplicates(ids) && Acyclic(Inner(edges, Elements(ids)))
    ensures |order| <= |ids|
  {
    ghost var nodes := Elements(ids);
    ghost var inner := Inner(edges, nodes);
    InnerMembers(edges, nodes);
    var adjacency, inDegree := Adjacency(ids, edges);
    var queue := Sources(ids, inDegree);
    order := [];
    FrontierStart(inner, nodes, inDegree, queue);
    while queue != []
      invariant Frontier(inner, nodes, inDegree, order, queue)
      decreases nodes - Elements(order)
    {
      var curr := queue[0];
      FrontierHead(inner, nodes, inDegree, order, queue);
      queue, inDegree := Release(inner, nodes, order, curr, adjacency[curr], queue[1..], inDegree);
      order := order + [curr];
    }
    ExhaustedFrontier(inner, nodes, inDegree, order);
    CompleteOrder(ids, inner, order);
  }
}
