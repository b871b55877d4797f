/** The workflow definition contract: nodes, edges, and walks over the edge list. */
module Schema {
  import opened Templates

  datatype Option<+T> = None | Some(value: T)

  type NodeId = string

  datatype Node = Node(id: NodeId, kind: string, config: Template)

  datatype Edge = Edge(source: NodeId, target: NodeId, condition: seq<Segment>)

  /** Edges form a list, so duplicates and parallel edges are kept. */
  datatype Definition = Definition(nodes: seq<Node>, edges: seq<Edge>)

  function Ids(nodes: seq<Node>): (ids: seq<NodeId>)
    ensures |ids| == |nodes| && forall i | 0 <= i < |ids| :: ids[i] == nodes[i].id
  {
    seq(|nodes|, i requires 0 <= i < |nodes| => nodes[i].id)
  }

  function Elements<T>(s: seq<T>): set<T> {
    set x | x in s
  }

  ghost predicate NoDuplicates<T>(s: seq<T>) {
    forall i, j | 0 <= i < j < |s| :: s[i] != s[j]
  }

  /** Both ends of the edge are among the declared nodes. */
  predicate Inside(e: Edge, nodes: set<NodeId>) {
    e.source in nodes && e.target in nodes
  }

  ghost predicate WellFormed(d: Definition) {
    && NoDuplicates(Ids(d.nodes))
    && forall e | e in d.edges :: Inside(e, Elements(Ids(d.nodes)))
  }

  // --- Walks ---

  ghost predicate Linked(edges: seq<Edge>, u: NodeId, v: NodeId) {
    exists e | e in edges :: e.source == u && e.target == v
  }

  ghost predicate IsWalk(edges: seq<Edge>, p: seq<NodeId>) {
    |p| >= 1 && forall i | 0 < i < |p| :: Linked(edges, p[i - 1], p[i])
  }

  ghost predicate Reaches(edges: seq<Edge>, u: NodeId, v: NodeId) {
    exists p :: IsWalk(edges, p) && p[0] == u && p[|p| - 1] == v
  }

  ghost predicate OnCycle(edges: seq<Edge>, u: NodeId) {
    exists p :: IsWalk(edges, p) && |p| >= 2 && p[0] == u && p[|p| - 1] == u
  }

  ghost predicate Acyclic(edges: seq<Edge>) {
    forall u :: !OnCycle(edges, u)
  }

  /** On a directed cycle, or downstream of one. */
  ghost predicate BelowCycle(edges: seq<Edge>, v: NodeId) {
    exists u :: OnCycle(edges, u) && Reaches(edges, u, v)
  }

  lemma SubWalk(edges: seq<Edge>, p: seq<NodeId>, i: nat, j: nat)
    requires IsWalk(edges, p) && i < j <= |p|
    ensures IsWalk(edges, p[i..j])
  {
    forall k | 0 < k < j - i
      ensures Linked(edges, p[i..j][k - 1], p[i..j][k])
    {
      assert Linked(edges, p[i + k - 1], p[i + k]);
    }
  }

  lemma CycleInside(edges: seq<Edge>, nodes: set<NodeId>, u: NodeId)
    requires OnCycle(edges, u)
    requires forall e | e in edges :: Inside(e, nodes)
    ensures u in nodes
  {
    var c :| IsWalk(edges, c) && |c| >= 2 && c[0] == u && c[|c| - 1] == u;
    assert Linked(edges, c[0], c[1]);
  }

  lemma OnCycleIsBelow(edges: seq<Edge>, u: NodeId)
    requires OnCycle(edges, u)
    ensures BelowCycle(edges, u)
  {
    assert IsWalk(edges, [u]);
    assert Reaches(edges, u, u);
  }

  lemma WalkJoin(edges: seq<Edge>, p: seq<NodeId>, q: seq<NodeId>)
    requires IsWalk(edges, p) && IsWalk(edges, q) && Linked(edges, p[|p| - 1], q[0])
    ensures IsWalk(edges, p + q)
  {
  }

  /** A sequence longer than a finite set it draws from repeats an element. */
  lemma {:induction false} Pigeonhole<T>(s: seq<T>, universe: set<T>)
    requires forall x | x in s :: x in universe
    requires |s| > |universe|
    ensures exists i, j :: 0 <= i < j < |s| && s[i] == s[j]
  {
    var x := s[0];
    if x in s[1..] {
      var j :| 0 < j < |s| && s[j] == x;
      assert 0 <= 0 < j < |s| && s[0] == s[j];
    } else {
      Pigeonhole(s[1..], universe - {x});
      var i, j :| 0 <= i < j < |s[1..]| && s[1..][i] == s[1..][j];
      assert s[i + 1] == s[j + 1];
    }
  }
}
