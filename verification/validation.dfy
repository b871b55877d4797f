/** The schema check, the pre-flight validator's topology part, and the depth estimate. */
module Validation {
  import opened Schema
  import opened Kahn

  // --- Schema check (`validate_dag`) ---

  datatype DagError = DuplicateIds | MissingSource(id: NodeId) | MissingTarget(id: NodeId) | CycleFound

  /** The first edge with a missing end is the `k`-th. */
  ghost predicate FirstDangling(d: Definition, k: nat) {
    && k < |d.edges|
    && !Inside(d.edges[k], Elements(Ids(d.nodes)))
    && forall i | 0 <= i < k :: Inside(d.edges[i], Elements(Ids(d.nodes)))
  }

  method ValidateDag(d: Definition) returns (error: Option<DagError>)
    ensures error == None <==> WellFormed(d) && Acyclic(d.edges)
    ensures error == Some(DuplicateIds) <==> !NoDuplicates(Ids(d.nodes))
    ensures error == Some(CycleFound) <==> WellFormed(d) && !Acyclic(d.edges)
    ensures forall id :: error == Some(MissingSource(id)) ==>
              exists k: nat :: FirstDangling(d, k) && d.edges[k].source == id && id !in Ids(d.nodes)
    ensures forall id :: error == Some(MissingTarget(id)) ==>
              exists k: nat :: FirstDangling(d, k) && d.edges[k].target == id && d.edges[k].source in Ids(d.nodes)
  {
    var ids := Ids(d.nodes);
    var nodeIds := Elements(ids);
    CountDistinct(ids);
    if |nodeIds| != |d.nodes| {
      return Some(DuplicateIds);
    }
    for k := 0 to |d.edges|
      invariant forall i | 0 <= i < k :: Inside(d.edges[i], nodeIds)
    {
      var e := d.edges[k];
      if e.source !in nodeIds {
        assert FirstDangling(d, k);
        return Some(MissingSource(e.source));
      }
      if e.target !in nodeIds {
        assert FirstDangling(d, k);
        return Some(MissingTarget(e.target));
      }
    }
    InnerOfInside(d.edges, nodeIds);
    var order := VisitOrder(ids, d.edges);
    error := if |order| < |d.nodes| then Some(CycleFound) else None;
  }

  // --- Reachability ---

  ghost predicate Reached(entries: seq<NodeId>, edges: seq<Edge>, v: NodeId) {
    exists u | u in entries :: Reaches(edges, u, v)
  }

  ghost predicate Searching(entries: seq<NodeId>, nodes: set<NodeId>, edges: seq<Edge>,
                            queue: seq<NodeId>, reachable: set<NodeId>) {
    && (forall v | v in queue || v in reachable :: v in nodes && Reached(entries, edges, v))
    && (forall v | v in entries :: v in queue || v in reachable)
    && (forall u, v | u in reachable && Linked(edges, u, v) :: v in queue || v in reachable)
  }

  lemma EntriesReached(entries: seq<NodeId>, nodes: set<NodeId>, edges: seq<Edge>)
    requires forall v | v in entries :: v in nodes
    ensures Searching(entries, nodes, edges, entries, {})
  {
    forall v | v in entries
      ensures Reaches(edges, v, v)
    {
      assert IsWalk(edges, [v]);
    }
  }

  lemma ReachesStep(edges: seq<Edge>, u: NodeId, v: NodeId, w: NodeId)
    requires Reaches(edges, u, v) && Linked(edges, v, w)
    ensures Reaches(edges, u, w)
  {
    var p :| IsWalk(edges, p) && p[0] == u && p[|p| - 1] == v;
    WalkJoin(edges, p, [w]);
    assert (p + [w])[0] == u && (p + [w])[|p|] == w;
  }

  lemma SearchStep(entries: seq<NodeId>, nodes: set<NodeId>, edges: seq<Edge>,
                   queue: seq<NodeId>, reachable: set<NodeId>)
    requires queue != [] && Searching(entries, nodes, edges, queue, reachable)
    requires forall e | e in edges :: Inside(e, nodes)
    ensures queue[0] in nodes
    ensures if queue[0] in reachable then Searching(entries, nodes, edges, queue[1..], reachable)
            else Searching(entries, nodes, edges, queue[1..] + Targets(edges, queue[0]), reachable + {queue[0]})
  {
    var curr := queue[0];
    assert queue == [curr] + queue[1..];
    TargetMembers(edges, curr);
    forall v | v in Targets(edges, curr)
      ensures v in nodes && Reached(entries, edges, v)
    {
      var u :| u in entries && Reaches(edges, u, curr);
      ReachesStep(edges, u, curr, v);
    }
  }

  lemma {:induction false} ClosedUnderWalks(edges: seq<Edge>, closed: set<NodeId>, p: seq<NodeId>)
    requires IsWalk(edges, p) && p[0] in closed
    requires forall u, v | u in closed && Linked(edges, u, v) :: v in closed
    ensures p[|p| - 1] in closed
    decreases |p|
  {
    if |p| > 1 {
      assert Linked(edges, p[0], p[1]);
      SubWalk(edges, p, 1, |p|);
      ClosedUnderWalks(edges, closed, p[1..]);
    }
  }

  lemma SearchDone(entries: seq<NodeId>, nodes: set<NodeId>, edges: seq<Edge>, reachable: set<NodeId>)
    requires Searching(entries, nodes, edges, [], reachable)
    ensures forall v :: v in reachable <==> Reached(entries, edges, v)
  {
    forall u, v | u in entries && Reaches(edges, u, v)
      ensures v in reachable
    {
      var p :| IsWalk(edges, p) && p[0] == u && p[|p| - 1] == v;
      ClosedUnderWalks(edges, reachable, p);
    }
  }

  /** Breadth-first search over the declared edges: exactly what some entry reaches. */
  method ReachableFrom(entries: seq<NodeId>, nodes: set<NodeId>, edges: seq<Edge>,
                       adjacency: map<NodeId, seq<NodeId>>) returns (reachable: set<NodeId>)
    requires forall v | v in entries :: v in nodes
    requires forall e | e in edges :: Inside(e, nodes)
    requires adjacency.Keys == nodes && forall u | u in nodes :: adjacency[u] == Targets(edges, u)
    ensures forall v :: v in reachable <==> Reached(entries, edges, v)
  {
    reachable := {};
    var queue := entries;
    EntriesReached(entries, nodes, edges);
    while queue != []
      invariant Searching(entries, nodes, edges, queue, reachable)
      decreases nodes - reachable, |queue|
    {
      var curr := queue[0];
      SearchStep(entries, nodes, edges, queue, reachable);
      queue := queue[1..];
      if curr !in reachable {
        reachable := reachable + {curr};
        queue := queue + adjacency[curr];
      }
    }
    SearchDone(entries, nodes, edges, reachable);
  }

  // --- Depth estimate (`_compute_max_depth`) ---

  /** A walk into `v` all of whose earlier nodes lie in `done`. */
  ghost predicate WalkInto(edges: seq<Edge>, done: set<NodeId>, p: seq<NodeId>, v: NodeId) {
    IsWalk(edges, p) && p[|p| - 1] == v && forall i | 0 <= i < |p| - 1 :: p[i] in done
  }

  ghost predicate Longest(edges: seq<Edge>, done: set<NodeId>, v: NodeId, n: int) {
    && (exists p :: WalkInto(edges, done, p, v) && |p| == n)
    && (forall p | WalkInto(edges, done, p, v) :: |p| <= n)
  }

  /** In a topological order, no edge leads from the newest node back into the order. */
  lemma NewestHasNoSuccessor(edges: seq<Edge>, order: seq<NodeId>, curr: NodeId, v: NodeId)
    requires Topological(edges, order + [curr]) && curr !in order
    requires v in order + [curr]
    ensures !Linked(edges, curr, v)
  {
    var order' := order + [curr];
    var j :| 0 <= j < |order'| && order'[j] == v;
    assert curr !in order'[..j] by {
      assert order'[..j] == order[..j];
    }
  }

  /** A walk may pass through the newest node only just before its end. */
  lemma NewestIsLast(edges: seq<Edge>, order: seq<NodeId>, curr: NodeId, p: seq<NodeId>, v: NodeId, i: nat)
    requires Topological(edges, order + [curr]) && curr !in order
    requires WalkInto(edges, Elements(order) + {curr}, p, v)
    requires i < |p| - 1 && p[i] == curr
    ensures i == |p| - 2
  {
    assert Linked(edges, p[i], p[i + 1]);
    if p[i + 1] in order + [curr] {
      NewestHasNoSuccessor(edges, order, curr, p[i + 1]);
    }
  }

  lemma LongestStart(edges: seq<Edge>, v: NodeId)
    ensures Longest(edges, {}, v, 1)
  {
    var none: set<NodeId> := {};
    assert WalkInto(edges, none, [v], v);
    forall p | WalkInto(edges, none, p, v)
      ensures |p| <= 1
    {
      var first := p[0];
    }
  }

  /** A walk either avoids the newest node, or is a walk into it plus one step. */
  lemma WalkThroughNewest(edges: seq<Edge>, order: seq<NodeId>, curr: NodeId, w: seq<NodeId>, v: NodeId)
    requires Topological(edges, order + [curr]) && curr !in order
    requires WalkInto(edges, Elements(order) + {curr}, w, v)
    ensures WalkInto(edges, Elements(order), w, v)
            || (|w| >= 2 && Linked(edges, curr, v) && WalkInto(edges, Elements(order), w[..|w| - 1], curr))
  {
    if i :| 0 <= i < |w| - 1 && w[i] == curr {
      NewestIsLast(edges, order, curr, w, v, i);
      assert Linked(edges, w[i], w[i + 1]);
      var front := w[..|w| - 1];
      SubWalk(edges, w, 0, |w| - 1);
      forall k | 0 <= k < |front| - 1
        ensures front[k] in Elements(order)
      {
        if w[k] == curr {
          NewestIsLast(edges, order, curr, w, v, k);
        }
      }
    }
  }

  lemma RelaxLongest(edges: seq<Edge>, order: seq<NodeId>, curr: NodeId, v: NodeId, nCurr: int, nV: int)
    requires Topological(edges, order + [curr]) && curr !in order
    requires Longest(edges, Elements(order), curr, nCurr) && Longest(edges, Elements(order), v, nV)
    ensures Longest(edges, Elements(order) + {curr}, v,
                    if Linked(edges, curr, v) && nCurr + 1 > nV then nCurr + 1 else nV)
  {
    var done := Elements(order);
    var p :| WalkInto(edges, done, p, v) && |p| == nV;
    assert WalkInto(edges, done + {curr}, p, v);
    if Linked(edges, curr, v) {
      var q :| WalkInto(edges, done, q, curr) && |q| == nCurr;
      WalkJoin(edges, q, [v]);
      assert WalkInto(edges, done + {curr}, q + [v], v);
    }
    forall w | WalkInto(edges, done + {curr}, w, v)
      ensures |w| <= if Linked(edges, curr, v) && nCurr + 1 > nV then nCurr + 1 else nV
    {
      WalkThroughNewest(edges, order, curr, w, v);
    }
  }

  /** The distances once `curr`'s has been pushed to the targets in `seen`. */
  ghost predicate Pushed(dist0: map<NodeId, int>, curr: NodeId, seen: seq<NodeId>, dist: map<NodeId, int>)
    requires curr in dist0
  {
    dist.Keys == dist0.Keys && forall v | v in dist0 ::
      dist[v] == if v in seen && dist0[curr] + 1 > dist0[v] then dist0[curr] + 1 else dist0[v]
  }

  lemma PushOne(dist0: map<NodeId, int>, curr: NodeId, seen: seq<NodeId>, next: NodeId, dist: map<NodeId, int>)
    requires curr in dist0 && next in dist0 && next != curr && curr !in seen
    requires Pushed(dist0, curr, seen, dist)
    ensures Pushed(dist0, curr, seen + [next],
                   if dist[curr] + 1 > dist[next] then dist[next := dist[curr] + 1] else dist)
  {
    assert dist[curr] == dist0[curr];
  }

  method PushAll(ghost edges: seq<Edge>, ghost nodes: set<NodeId>, ghost order: seq<NodeId>, curr: NodeId,
                 targets: seq<NodeId>, queue0: seq<NodeId>, inDegree0: map<NodeId, int>, dist0: map<NodeId, int>)
      returns (queue: seq<NodeId>, inDegree: map<NodeId, int>, dist: map<NodeId, int>)
    requires Releasing(edges, nodes, order, targets, inDegree0, queue0)
    requires dist0.Keys == nodes && curr in nodes && curr !in targets
    ensures Releasing(edges, nodes, order, [], inDegree, queue)
    ensures Pushed(dist0, curr, targets, dist)
  {
    queue, inDegree, dist := queue0, inDegree0, dist0;
    hide Releasing;
    ghost var seen, rest := [], targets;
    for k := 0 to |targets|
      invariant targets == seen + rest && |seen| == k
      invariant Releasing(edges, nodes, order, rest, inDegree, queue)
      invariant Pushed(dist0, curr, seen, dist)
    {
      var next := targets[k];
      assert rest[0] == next;
      ReleaseOne(edges, nodes, order, rest, inDegree, queue);
      PushOne(dist0, curr, seen, next, dist);
      seen, rest := seen + [next], rest[1..];
      if dist[curr] + 1 > dist[next] {
        dist := dist[next := dist[curr] + 1];
      }
      inDegree := inDegree[next := inDegree[next] - 1];
      if inDegree[next] == 0 {
        queue := queue + [next];
      }
    }
    assert rest == [] && seen == targets;
  }

  lemma PushedAll(edges: seq<Edge>, nodes: set<NodeId>, order: seq<NodeId>, curr: NodeId,
                  dist0: map<NodeId, int>, dist: map<NodeId, int>)
    requires Topological(edges, order + [curr]) && curr !in order
    requires curr in nodes && dist0.Keys == nodes
    requires forall v | v in nodes :: Longest(edges, Elements(order), v, dist0[v])
    requires Pushed(dist0, curr, Targets(edges, curr), dist)
    ensures forall v | v in nodes :: Longest(edges, Elements(order + [curr]), v, dist[v])
  {
    TargetMembers(edges, curr);
    assert Elements(order + [curr]) == Elements(order) + {curr};
    forall v | v in nodes
      ensures Longest(edges, Elements(order + [curr]), v, dist[v])
    {
      RelaxLongest(edges, order, curr, v, dist0[curr], dist0[v]);
    }
  }

  /** One turn of the relaxation: push the new distance along every edge out of `curr`
      while releasing them from the in-degree counters. */
  method Relax(ghost edges: seq<Edge>, ghost nodes: set<NodeId>, ghost order: seq<NodeId>, curr: NodeId,
               targets: seq<NodeId>, queue0: seq<NodeId>, inDegree0: map<NodeId, int>, dist0: map<NodeId, int>)
      returns (queue: seq<NodeId>, inDegree: map<NodeId, int>, dist: map<NodeId, int>)
    requires Frontier(edges, nodes, inDegree0, order, [curr] + queue0)
    requires targets == Targets(edges, curr)
    requires forall e | e in edges :: Inside(e, nodes)
    requires dist0.Keys == nodes && forall v | v in nodes :: Longest(edges, Elements(order), v, dist0[v])
    ensures Frontier(edges, nodes, inDegree, order + [curr], queue)
    ensures dist.Keys == nodes && forall v | v in nodes :: Longest(edges, Elements(order + [curr]), v, dist[v])
  {
    ReleaseStart(edges, nodes, order, curr, queue0, inDegree0);
    QueueHead(order, [curr] + queue0);
    NewestHasNoSuccessor(edges, order, curr, curr);
    TargetMembers(edges, curr);
    hide *;
    queue, inDegree, dist := PushAll(edges, nodes, order + [curr], curr, targets, queue0, inDegree0, dist0);
    ReleaseEnd(edges, nodes, order + [curr], inDegree, queue);
    PushedAll(edges, nodes, order, curr, dist0, dist);
  }

  /** A walk among the declared nodes that no cycle feeds, except possibly at its last node. */
  ghost predicate ClearWalk(edges: seq<Edge>, nodes: set<NodeId>, p: seq<NodeId>) {
    && IsWalk(edges, p)
    && (forall i | 0 <= i < |p| :: p[i] in nodes)
    && forall i | 0 <= i < |p| - 1 :: !BelowCycle(edges, p[i])
  }

  /** The declared nodes that no cycle feeds. */
  ghost function Clear(ids: seq<NodeId>, edges: seq<Edge>): set<NodeId> {
    set v | v in ids && !BelowCycle(edges, v)
  }

  /** The queue-driven relaxation. `order` is the sequence in which the queue was served. */
  method Distances(ids: seq<NodeId>, edges: seq<Edge>) returns (dist: map<NodeId, int>, ghost order: seq<NodeId>)
    requires forall e | e in edges :: Inside(e, Elements(ids))
    ensures forall v :: v in order <==> v in ids && !BelowCycle(edges, v)
    ensures dist.Keys == Elements(ids) && forall v | v in ids :: Longest(edges, Clear(ids, edges), v, dist[v])
    ensures Elements(order) == Clear(ids, edges)
  {
    ghost var nodes := Elements(ids);
    InnerOfInside(edges, nodes);
    var adjacency, inDegree := Adjacency(ids, edges);
    var queue := Sources(ids, inDegree);
    dist := map v | v in ids :: 1;
    order := [];
    FrontierStart(edges, nodes, inDegree, queue);
    forall v | v in nodes {
      LongestStart(edges, v);
    }
    assert Elements(order) == {};
    hide Longest, Frontier, Inner, Targets, Pending, BelowCycle;
    while queue != []
      invariant Frontier(edges, nodes, inDegree, order, queue)
      invariant dist.Keys == nodes && forall v | v in nodes :: Longest(edges, Elements(order), v, dist[v])
      decreases nodes - Elements(order)
    {
      var curr := queue[0];
      FrontierHead(edges, nodes, inDegree, order, queue);
      queue, inDegree, dist := Relax(edges, nodes, order, curr, adjacency[curr], queue[1..], inDegree, dist);
      order := order + [curr];
    }
    ExhaustedFrontier(edges, nodes, inDegree, order);
    assert Elements(order) == Clear(ids, edges);
  }

  method Maximum(ids: seq<NodeId>, dist: map<NodeId, int>) returns (depth: int)
    requires ids != [] && dist.Keys == Elements(ids)
    ensures forall i | 0 <= i < |ids| :: dist[ids[i]] <= depth
    ensures exists i :: 0 <= i < |ids| && dist[ids[i]] == depth
  {
    depth := dist[ids[0]];
    for k := 1 to |ids|
      invariant forall i | 0 <= i < k :: dist[ids[i]] <= depth
      invariant exists i :: 0 <= i < k && dist[ids[i]] == depth
    {
      if dist[ids[k]] > depth {
        depth := dist[ids[k]];
      }
    }
  }

  lemma ClearWalkInto(edges: seq<Edge>, ids: seq<NodeId>, order: seq<NodeId>, p: seq<NodeId>)
    requires forall v :: v in order <==> v in ids && !BelowCycle(edges, v)
    requires ClearWalk(edges, Elements(ids), p)
    ensures |p| >= 1 && p[|p| - 1] in ids && WalkInto(edges, Elements(order), p, p[|p| - 1])
  {
    hide BelowCycle, Linked;
  }

  lemma AcyclicClearWalk(edges: seq<Edge>, nodes: set<NodeId>, p: seq<NodeId>)
    requires Acyclic(edges) && forall e | e in edges :: Inside(e, nodes)
    requires IsWalk(edges, p) && p[0] in nodes
    ensures ClearWalk(edges, nodes, p)
  {
    forall v
      ensures !BelowCycle(edges, v)
    {
    }
    hide BelowCycle, Acyclic;
    forall k | 0 <= k < |p|
      ensures p[k] in nodes
    {
      assert k > 0 ==> Linked(edges, p[k - 1], p[k]);
    }
  }

  lemma DepthIsLongest(edges: seq<Edge>, ids: seq<NodeId>, order: seq<NodeId>, dist: map<NodeId, int>, depth: int)
    requires forall e | e in edges :: Inside(e, Elements(ids))
    requires forall v :: v in order <==> v in ids && !BelowCycle(edges, v)
    requires dist.Keys == Elements(ids) && forall v | v in ids :: Longest(edges, Elements(order), v, dist[v])
    requires forall i | 0 <= i < |ids| :: dist[ids[i]] <= depth
    requires exists i :: 0 <= i < |ids| && dist[ids[i]] == depth
    ensures exists p :: ClearWalk(edges, Elements(ids), p) && |p| == depth
    ensures forall p | ClearWalk(edges, Elements(ids), p) :: |p| <= depth
    ensures Acyclic(edges) ==> forall p | IsWalk(edges, p) && p[0] in ids :: |p| <= depth
  {
    hide BelowCycle, Acyclic, Linked;
    var i :| 0 <= i < |ids| && dist[ids[i]] == depth;
    var w :| WalkInto(edges, Elements(order), w, ids[i]) && |w| == depth;
    assert ClearWalk(edges, Elements(ids), w);
    forall p | ClearWalk(edges, Elements(ids), p)
      ensures |p| <= depth
    {
      ClearWalkInto(edges, ids, order, p);
      var v := p[|p| - 1];
      var k :| 0 <= k < |ids| && ids[k] == v;
    }
    if Acyclic(edges) {
      forall p | IsWalk(edges, p) && p[0] in ids
        ensures |p| <= depth
      {
        AcyclicClearWalk(edges, Elements(ids), p);
      }
    }
  }

  /** The estimated depth is the number of nodes on a longest directed path. On a graph with
      cycles (which never passes validation) it is the longest path no cycle feeds. */
  method MaxDepth(ids: seq<NodeId>, edges: seq<Edge>) returns (depth: int)
    requires forall e | e in edges :: Inside(e, Elements(ids))
    ensures ids == [] ==> depth == 0
    ensures ids != [] ==> exists p :: ClearWalk(edges, Elements(ids), p) && |p| == depth
    ensures forall p | ClearWalk(edges, Elements(ids), p) :: |p| <= depth
    ensures Acyclic(edges) ==> forall p | IsWalk(edges, p) && p[0] in ids :: |p| <= depth
  {
    if ids == [] {
      forall p
        ensures !ClearWalk(edges, Elements(ids), p)
      {
        if p != [] {
          var first := p[0];
          assert first !in Elements(ids);
        }
      }
      return 0;
    }
    ghost var order;
    var dist;
    dist, order := Distances(ids, edges);
    depth := Maximum(ids, dist);
    hide *;
    DepthIsLongest(edges, ids, order, dist, depth);
  }

  // --- Pre-flight topology report (`WorkflowValidator.validate`) ---

  /** Nodes no edge points at. */
  ghost predicate IsSource(d: Definition, v: NodeId) {
    v in Ids(d.nodes) && forall e | e in d.edges :: e.target != v
  }

  predicate IsTrigger(n: Node) {
    |n.kind| >= 8 && n.kind[..8] == "trigger."
  }

  lemma TriggerExactly(n: Node)
    ensures IsTrigger(n) <==> exists rest: string :: n.kind == "trigger." + rest
  {
    if IsTrigger(n) {
      assert n.kind == "trigger." + n.kind[8..];
    }
  }

  /** In an acyclic definition every node hangs below a source. */
  lemma SourcesReachAll(d: Definition, v: NodeId)
    requires WellFormed(d) && Acyclic(d.edges) && v in Ids(d.nodes)
    ensures exists u :: IsSource(d, u) && Reaches(d.edges, u, v)
  {
    var nodes := Elements(Ids(d.nodes));
    var settled := set w | w in nodes && exists u :: IsSource(d, u) && Reaches(d.edges, u, w);
    forall w | w in nodes && w !in settled
      ensures HasBlockedPredecessor(d.edges, settled, w)
    {
      assert !IsSource(d, w) by {
        assert IsWalk(d.edges, [w]);
        assert Reaches(d.edges, w, w);
      }
      var e :| e in d.edges && e.target == w;
      assert Linked(d.edges, e.source, w);
      if e.source in settled {
        var u :| IsSource(d, u) && Reaches(d.edges, u, e.source);
        ReachesStep(d.edges, u, e.source, w);
      }
    }
    if v !in settled {
      LeftOutBelowCycle(d.edges, nodes, settled, v);
    }
  }

  /** The structural part of the report. `dangling` lists offending edges by position. */
  datatype Report = Report(
    duplicates: seq<NodeId>,
    dangling: seq<nat>,
    cycleFound: bool,
    cycleNodes: set<NodeId>,
    entries: seq<NodeId>,
    unreachable: set<NodeId>)

  ghost predicate EntriesChosen(d: Definition, entries: seq<NodeId>) {
    if exists n | n in d.nodes :: IsTrigger(n) then
      forall v :: v in entries <==> exists n | n in d.nodes :: IsTrigger(n) && n.id == v
    else if exists v :: IsSource(d, v) then
      exists k | 0 <= k < |d.nodes| ::
        && entries == [d.nodes[k].id] && IsSource(d, d.nodes[k].id)
        && forall i | 0 <= i < k :: !IsSource(d, d.nodes[i].id)
    else
      entries == []
  }

  /** Trigger nodes if there are any, else the first node without incoming edges. */
  method ChooseEntries(d: Definition) returns (entries: seq<NodeId>)
    ensures EntriesChosen(d, entries)
    ensures forall v | v in entries :: v in Ids(d.nodes)
  {
    entries := [];
    for k := 0 to |d.nodes|
      invariant forall v :: v in entries <==> exists i | 0 <= i < k :: IsTrigger(d.nodes[i]) && d.nodes[i].id == v
    {
      if IsTrigger(d.nodes[k]) {
        entries := entries + [d.nodes[k].id];
      }
    }
    if entries != [] {
      assert entries[0] in entries;
      forall v | v in entries
        ensures v in Ids(d.nodes)
      {
        var i :| 0 <= i < |d.nodes| && IsTrigger(d.nodes[i]) && d.nodes[i].id == v;
        assert Ids(d.nodes)[i] == v;
      }
      return;
    }
    assert forall i | 0 <= i < |d.nodes| :: IsTrigger(d.nodes[i]) ==> d.nodes[i].id in entries;
    assert !exists n | n in d.nodes :: IsTrigger(n);
    for k := 0 to |d.nodes|
      invariant forall i | 0 <= i < k :: !IsSource(d, d.nodes[i].id)
    {
      assert Ids(d.nodes)[k] == d.nodes[k].id;
      if forall e | e in d.edges :: e.target != d.nodes[k].id {
        entries := [d.nodes[k].id];
        assert IsSource(d, d.nodes[k].id) && entries == [d.nodes[k].id];
        hide IsTrigger, IsSource;
        return;
      }
    }
    assert !exists v :: IsSource(d, v) by {
      forall v
        ensures !IsSource(d, v)
      {
        if v in Ids(d.nodes) {
          var k :| 0 <= k < |d.nodes| && Ids(d.nodes)[k] == v;
        }
      }
    }
  }

  /** Of the first `n` ids those that stand somewhere before, in order, are the `duplicates`, from the
      positions `at`. */
  ghost predicate RepeatsAt(ids: seq<NodeId>, n: nat, duplicates: seq<NodeId>, at: seq<nat>)
    requires n <= |ids|
  {
    && |at| == |duplicates|
    && (forall i | 0 <= i < |at| :: at[i] < n && duplicates[i] == ids[at[i]])
    && (forall i, j | 0 <= i < j < |at| :: at[i] < at[j])
    && forall k | 0 <= k < n :: k in at <==> ids[k] in ids[..k]
  }

  lemma RepeatsGrow(ids: seq<NodeId>, n: nat, duplicates: seq<NodeId>, at: seq<nat>)
    requires n < |ids| && RepeatsAt(ids, n, duplicates, at)
    ensures ids[n] in ids[..n] ==> RepeatsAt(ids, n + 1, duplicates + [ids[n]], at + [n])
    ensures ids[n] !in ids[..n] ==> RepeatsAt(ids, n + 1, duplicates, at)
  {
    assert n !in at;
  }

  lemma NoRepeats(ids: seq<NodeId>, duplicates: seq<NodeId>, at: seq<nat>)
    requires RepeatsAt(ids, |ids|, duplicates, at)
    ensures duplicates == [] <==> NoDuplicates(ids)
  {
    if duplicates != [] {
      assert at[0] in at;
    } else {
      assert forall j | 0 <= j < |ids| :: ids[j] !in ids[..j];
    }
  }

  method Repeated(ids: seq<NodeId>) returns (duplicates: seq<NodeId>, nodeIds: set<NodeId>)
    ensures duplicates == [] <==> NoDuplicates(ids)
    ensures exists at :: RepeatsAt(ids, |ids|, duplicates, at)
    ensures nodeIds == Elements(ids)
  {
    nodeIds, duplicates := {}, [];
    ghost var at: seq<nat> := [];
    for k := 0 to |ids|
      invariant nodeIds == Elements(ids[..k])
      invariant RepeatsAt(ids, k, duplicates, at)
    {
      assert ids[..k + 1] == ids[..k] + [ids[k]];
      RepeatsGrow(ids, k, duplicates, at);
      hide RepeatsAt;
      if ids[k] in nodeIds {
        duplicates, at := duplicates + [ids[k]], at + [k];
      }
      nodeIds := nodeIds + {ids[k]};
    }
    assert ids[..|ids|] == ids;
    NoRepeats(ids, duplicates, at);
  }

  method Dangling(edges: seq<Edge>, nodeIds: set<NodeId>) returns (dangling: seq<nat>)
    ensures forall k :: k in dangling <==> 0 <= k < |edges| && !Inside(edges[k], nodeIds)
    ensures forall i, j | 0 <= i < j < |dangling| :: dangling[i] < dangling[j]
    ensures dangling == [] <==> forall e | e in edges :: Inside(e, nodeIds)
  {
    dangling := [];
    for k := 0 to |edges|
      invariant forall i :: i in dangling <==> 0 <= i < k && !Inside(edges[i], nodeIds)
      invariant forall i, j | 0 <= i < j < |dangling| :: dangling[i] < dangling[j]
    {
      if edges[k].source !in nodeIds || edges[k].target !in nodeIds {
        assert forall i | 0 <= i < |dangling| :: dangling[i] in dangling;
        dangling := dangling + [k];
      }
    }
    if dangling == [] {
      forall e | e in edges
        ensures Inside(e, nodeIds)
      {
        var k :| 0 <= k < |edges| && edges[k] == e;
        assert k !in dangling;
      }
    } else {
      assert dangling[0] in dangling;
    }
  }

  /** The edges the validator looks at: those between declared nodes. */
  function InnerEdges(d: Definition): seq<Edge> {
    Inner(d.edges, Elements(Ids(d.nodes)))
  }

  lemma InnerEdgesAre(d: Definition)
    ensures forall e :: e in InnerEdges(d) <==> e in d.edges && e.source in Ids(d.nodes) && e.target in Ids(d.nodes)
  {
    InnerMembers(d.edges, Elements(Ids(d.nodes)));
  }

  lemma AcyclicFeedsNothing(edges: seq<Edge>)
    requires Acyclic(edges)
    ensures forall v :: !BelowCycle(edges, v)
  {
  }

  lemma ReportSound(d: Definition, r: Report, order: seq<NodeId>, reachable: set<NodeId>)
    requires r.duplicates == [] <==> NoDuplicates(Ids(d.nodes))
    requires r.dangling == [] <==> forall e | e in d.edges :: Inside(e, Elements(Ids(d.nodes)))
    requires r.dangling == [] ==> InnerEdges(d) == d.edges
    requires var inner := InnerEdges(d);
             && (|order| == |Ids(d.nodes)| <==> NoDuplicates(Ids(d.nodes)) && Acyclic(inner))
             && |order| <= |Ids(d.nodes)|
             && (forall v :: v in order <==> v in Ids(d.nodes) && !BelowCycle(inner, v))
             && (forall v :: v in reachable <==> Reached(r.entries, inner, v))
    requires r.cycleFound == (|order| < |Ids(d.nodes)|)
    requires r.cycleNodes == Elements(Ids(d.nodes)) - Elements(order)
    requires r.unreachable == Elements(Ids(d.nodes)) - reachable
    ensures r.cycleFound <==> !NoDuplicates(Ids(d.nodes)) || !Acyclic(InnerEdges(d))
    ensures forall v :: v in r.cycleNodes <==> v in Ids(d.nodes) && BelowCycle(InnerEdges(d), v)
    ensures Acyclic(InnerEdges(d)) ==> r.cycleNodes == {}
    ensures forall v :: v in r.unreachable <==> v in Ids(d.nodes) && !Reached(r.entries, InnerEdges(d), v)
    ensures r.duplicates == [] && r.dangling == [] && !r.cycleFound <==> WellFormed(d) && Acyclic(d.edges)
    ensures WellFormed(d) ==> InnerEdges(d) == d.edges
  {
    if Acyclic(InnerEdges(d)) {
      AcyclicFeedsNothing(InnerEdges(d));
    }
    hide BelowCycle, Reached, Acyclic, InnerEdges;
  }

  /** The part of the validator that looks at the graph, for any definition. A duplicate id alone
      makes it report a cycle, and then without any node on it. */
  method Preflight(d: Definition) returns (r: Report)
    ensures r.duplicates == [] <==> NoDuplicates(Ids(d.nodes))
    ensures exists at :: RepeatsAt(Ids(d.nodes), |d.nodes|, r.duplicates, at)
    ensures forall k :: k in r.dangling <==> 0 <= k < |d.edges| && !Inside(d.edges[k], Elements(Ids(d.nodes)))
    ensures forall i, j | 0 <= i < j < |r.dangling| :: r.dangling[i] < r.dangling[j]
    ensures r.cycleFound <==> !NoDuplicates(Ids(d.nodes)) || !Acyclic(InnerEdges(d))
    ensures forall v :: v in r.cycleNodes <==> v in Ids(d.nodes) && BelowCycle(InnerEdges(d), v)
    ensures Acyclic(InnerEdges(d)) ==> r.cycleNodes == {}
    ensures EntriesChosen(d, r.entries)
    ensures forall v :: v in r.unreachable <==> v in Ids(d.nodes) && !Reached(r.entries, InnerEdges(d), v)
    ensures r.duplicates == [] && r.dangling == [] && !r.cycleFound <==> WellFormed(d) && Acyclic(d.edges)
    ensures WellFormed(d) ==> InnerEdges(d) == d.edges
  {
    var ids := Ids(d.nodes);
    var duplicates, nodeIds := Repeated(ids);
    var dangling := Dangling(d.edges, nodeIds);
    InnerMembers(d.edges, nodeIds);
    if dangling == [] {
      InnerOfInside(d.edges, nodeIds);
    }
    assert InnerEdges(d) == Inner(d.edges, nodeIds);
    hide *;
    var order := VisitOrder(ids, d.edges);
    var entries := ChooseEntries(d);
    var adjacency, _ := Adjacency(ids, d.edges);
    var reachable := ReachableFrom(entries, nodeIds, Inner(d.edges, nodeIds), adjacency);
    r := Report(duplicates, dangling, |order| < |ids|, nodeIds - Elements(order), entries, nodeIds - reachable);
    ReportSound(d, r, order, reachable);
  }
}
