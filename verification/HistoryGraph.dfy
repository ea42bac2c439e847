/** The lineage graph of the history service and its bounded walk: a recursive query that
    carries the path of every walker and never enters a node twice.  The walk is proved to
    visit exactly the nodes within the given undirected distance of the start. */
module HistoryGraph {

  type NodeId = nat

  datatype EdgeKind =
    | Initiated | Executed | Changed | Created | Deleted | Linked | Unlinked
    | DerivedFrom | ReadFrom | Affected | Notified | CurrentValueOf

  datatype Edge = Edge(id: nat, from: NodeId, to: NodeId, kind: EdgeKind)

  predicate Touches(e: Edge, n: NodeId) {
    e.from == n || e.to == n
  }

  /** The end of `e` a walker standing on `n` moves to. */
  function Other(e: Edge, n: NodeId): NodeId {
    if e.from == n then e.to else e.from
  }

  /** A row of the recursive query: where the walker stands, how far it has come, and its path. */
  datatype Row = Row(node: NodeId, depth: nat, path: seq<NodeId>)

  /** One iteration of the recursive part over the current working table. */
  function Step(edges: set<Edge>, working: set<Row>, limit: nat): set<Row> {
    set r, e | r in working && e in edges && Touches(e, r.node) && r.depth < limit && Other(e, r.node) !in r.path
      :: Row(Other(e, r.node), r.depth + 1, r.path + [Other(e, r.node)])
  }

  /** The recursive query from a working table of rows at depth `d`, iterated until the
      working table is empty. */
  function Recurse(edges: set<Edge>, working: set<Row>, d: nat, limit: nat): set<Row>
    requires forall r | r in working :: r.depth == d <= limit
    decreases if d <= limit then limit - d + 1 else 0
  {
    if working == {} then {}
    else
      var next := Step(edges, working, limit);
      assert d <= limit by { var r :| r in working; }
      working + Recurse(edges, next, d + 1, limit)
  }

  function Walk(edges: set<Edge>, start: NodeId, limit: nat): set<Row> {
    Recurse(edges, {Row(start, 0, [start])}, 0, limit)
  }

  /** The edges the query returns: every edge with an end a walker stood on. */
  function WalkEdges(edges: set<Edge>, start: NodeId, limit: nat): set<Edge> {
    set r, e | r in Walk(edges, start, limit) && e in edges && Touches(e, r.node) :: e
  }

  /** The node rows fetched for a set of edges and the start node. */
  function NodesForEdges(table: set<NodeId>, edges: set<Edge>, extra: NodeId): set<NodeId> {
    table * ({extra} + (set e | e in edges :: e.from) + (set e | e in edges :: e.to))
  }

  datatype Graph = Graph(nodes: set<NodeId>, edges: set<Edge>)

  function WalkGraph(table: set<NodeId>, edges: set<Edge>, start: NodeId, limit: nat): Graph {
    var found := WalkEdges(edges, start, limit);
    Graph(NodesForEdges(table, found, start), found)
  }

  // Undirected walks, simple paths and distance

  ghost predicate Joins(e: Edge, a: NodeId, b: NodeId) {
    (e.from == a && e.to == b) || (e.from == b && e.to == a)
  }

  ghost predicate Adjacent(edges: set<Edge>, a: NodeId, b: NodeId) {
    exists e :: e in edges && Joins(e, a, b)
  }

  /** `p` walks along edges, in either direction, from `start` to `end`. */
  ghost predicate IsWalk(edges: set<Edge>, start: NodeId, end: NodeId, p: seq<NodeId>) {
    && p != [] && p[0] == start && p[|p| - 1] == end
    && forall i :: 0 <= i < |p| - 1 ==> Adjacent(edges, p[i], p[i + 1])
  }

  ghost predicate Distinct(p: seq<NodeId>) {
    forall i, j :: 0 <= i < j < |p| ==> p[i] != p[j]
  }

  /** `end` is at undirected distance at most `k` from `start`. */
  ghost predicate Within(edges: set<Edge>, start: NodeId, end: NodeId, k: nat) {
    exists p :: IsWalk(edges, start, end, p) && |p| <= k + 1
  }

  /** A row stands for a simple path from the start to its node. */
  ghost predicate Fits(edges: set<Edge>, start: NodeId, r: Row) {
    IsWalk(edges, start, r.node, r.path) && Distinct(r.path) && |r.path| == r.depth + 1
  }

  /** The working table holds every simple path of its length. */
  ghost predicate Complete(edges: set<Edge>, start: NodeId, working: set<Row>, d: nat) {
    forall r :: r in working <==> Fits(edges, start, r) && r.depth == d
  }

  lemma PrefixIsWalk(edges: set<Edge>, start: NodeId, end: NodeId, p: seq<NodeId>, k: nat)
    requires IsWalk(edges, start, end, p) && k < |p|
    ensures IsWalk(edges, start, p[k], p[..k + 1])
  {
    var q := p[..k + 1];
    forall i | 0 <= i < |q| - 1
      ensures Adjacent(edges, q[i], q[i + 1])
    {
      assert Adjacent(edges, p[i], p[i + 1]);
    }
  }

  lemma ExtendedIsWalk(edges: set<Edge>, start: NodeId, mid: NodeId, p: seq<NodeId>, end: NodeId)
    requires IsWalk(edges, start, mid, p) && Adjacent(edges, mid, end)
    ensures IsWalk(edges, start, end, p + [end])
  {
    var q := p + [end];
    forall i | 0 <= i < |q| - 1
      ensures Adjacent(edges, q[i], q[i + 1])
    {
      if i < |p| - 1 {
        assert Adjacent(edges, p[i], p[i + 1]);
      }
    }
  }

  lemma StepKeepsComplete(edges: set<Edge>, start: NodeId, working: set<Row>, d: nat, limit: nat)
    requires Complete(edges, start, working, d) && d < limit
    ensures Complete(edges, start, Step(edges, working, limit), d + 1)
  {
    var next := Step(edges, working, limit);
    forall r | r in next
      ensures Fits(edges, start, r) && r.depth == d + 1
    {
      var q, e :| q in working && e in edges && Touches(e, q.node) && Other(e, q.node) !in q.path
                  && r == Row(Other(e, q.node), q.depth + 1, q.path + [Other(e, q.node)]);
      assert Joins(e, q.node, r.node);
      ExtendedIsWalk(edges, start, q.node, q.path, r.node);
    }
    forall r | Fits(edges, start, r) && r.depth == d + 1
      ensures r in next
    {
      PrefixFits(edges, start, r, d);
      var q := Row(r.path[d], d, r.path[..d + 1]);
      assert Adjacent(edges, r.path[d], r.path[d + 1]);
      var e :| e in edges && Joins(e, q.node, r.node);
      assert r.path == q.path + [r.node];
      assert q in working && Other(e, q.node) == r.node && r.node !in q.path;
    }
  }

  lemma {:induction false} RecurseFindsPaths(edges: set<Edge>, start: NodeId, working: set<Row>, d: nat, limit: nat)
    requires Complete(edges, start, working, d) && d <= limit
    requires forall r | r in working :: r.depth == d <= limit
    ensures forall r :: r in Recurse(edges, working, d, limit) <==> Fits(edges, start, r) && d <= r.depth <= limit
    decreases limit - d
  {
    if working == {} {
      forall r | Fits(edges, start, r) && d <= r.depth
        ensures false
      {
        PrefixFits(edges, start, r, d);
      }
    } else if d < limit {
      StepKeepsComplete(edges, start, working, d, limit);
      RecurseFindsPaths(edges, start, Step(edges, working, limit), d + 1, limit);
    } else {
      assert Step(edges, working, limit) == {};
    }
  }

  /** A simple path has a simple prefix of every shorter length. */
  lemma PrefixFits(edges: set<Edge>, start: NodeId, r: Row, d: nat)
    requires Fits(edges, start, r) && d <= r.depth
    ensures Fits(edges, start, Row(r.path[d], d, r.path[..d + 1]))
  {
    PrefixIsWalk(edges, start, r.node, r.path, d);
  }

  /** The query's rows are exactly the simple paths of length at most the limit. */
  lemma WalkFindsSimplePaths(edges: set<Edge>, start: NodeId, limit: nat)
    ensures forall r :: r in Walk(edges, start, limit) <==> Fits(edges, start, r) && r.depth <= limit
  {
    var first := {Row(start, 0, [start])};
    forall r | Fits(edges, start, r) && r.depth == 0
      ensures r in first
    {
      assert r.path == [start];
    }
    RecurseFindsPaths(edges, start, first, 0, limit);
  }

  /** Path shortening: a walk can be replaced by a simple path that is no longer. */
  lemma {:induction false} Shorten(edges: set<Edge>, start: NodeId, end: NodeId, p: seq<NodeId>) returns (r: Row)
    requires IsWalk(edges, start, end, p)
    ensures Fits(edges, start, r) && r.node == end && r.depth < |p|
    decreases |p|
  {
    if |p| == 1 {
      return Row(end, 0, p);
    }
    PrefixIsWalk(edges, start, end, p, |p| - 2);
    var q := Shorten(edges, start, p[|p| - 2], p[..|p| - 1]);
    if end in q.path {
      var d :| 0 <= d < |q.path| && q.path[d] == end;
      PrefixFits(edges, start, q, d);
      r := Row(end, d, q.path[..d + 1]);
    } else {
      assert Adjacent(edges, p[|p| - 2], p[|p| - 1]);
      ExtendedIsWalk(edges, start, q.node, q.path, end);
      r := Row(end, q.depth + 1, q.path + [end]);
    }
  }

  /** A walker stands on a node exactly when the node is within the limit. */
  lemma WalkVisitsBall(edges: set<Edge>, start: NodeId, n: NodeId, limit: nat)
    ensures (exists r :: r in Walk(edges, start, limit) && r.node == n) <==> Within(edges, start, n, limit)
  {
    WalkFindsSimplePaths(edges, start, limit);
    if Within(edges, start, n, limit) {
      var p :| IsWalk(edges, start, n, p) && |p| <= limit + 1;
      var r := Shorten(edges, start, n, p);
      assert r in Walk(edges, start, limit);
    }
  }

  /** The returned edges are exactly those that touch a node within the limit. */
  lemma WalkReturnsIncidentEdges(edges: set<Edge>, start: NodeId, limit: nat, e: Edge)
    ensures e in WalkEdges(edges, start, limit) <==>
            e in edges && (Within(edges, start, e.from, limit) || Within(edges, start, e.to, limit))
  {
    WalkVisitsBall(edges, start, e.from, limit);
    WalkVisitsBall(edges, start, e.to, limit);
  }

  /** A node is within one more step exactly when it is within, or an edge leads to it from
      a node that is. */
  lemma WithinOneMore(edges: set<Edge>, start: NodeId, n: NodeId, k: nat)
    ensures Within(edges, start, n, k + 1) <==>
            || Within(edges, start, n, k)
            || exists e :: e in edges && Touches(e, n) && Within(edges, start, Other(e, n), k)
  {
    if Within(edges, start, n, k + 1) && !Within(edges, start, n, k) {
      var p :| IsWalk(edges, start, n, p) && |p| <= k + 2;
      assert |p| == k + 2;
      assert Adjacent(edges, p[k], p[k + 1]);
      var e :| e in edges && Joins(e, p[k], p[k + 1]);
      PrefixIsWalk(edges, start, n, p, k);
      assert Other(e, n) == p[k] && Within(edges, start, p[k], k);
    }
    forall e | e in edges && Touches(e, n) && Within(edges, start, Other(e, n), k)
      ensures Within(edges, start, n, k + 1)
    {
      var p :| IsWalk(edges, start, Other(e, n), p) && |p| <= k + 1;
      assert Joins(e, Other(e, n), n);
      ExtendedIsWalk(edges, start, Other(e, n), p, n);
      assert |p + [n]| <= k + 2;
    }
    if Within(edges, start, n, k) {
      var p :| IsWalk(edges, start, n, p) && |p| <= k + 1;
      assert |p| <= k + 2;
    }
  }

  lemma NeighborWithin(edges: set<Edge>, e: Edge, k: nat)
    requires e in edges && k >= 1
    ensures Within(edges, e.from, e.from, k) && Within(edges, e.from, e.to, k)
  {
    assert IsWalk(edges, e.from, e.from, [e.from]) && |[e.from]| <= k + 1;
    assert Joins(e, e.from, e.to);
    assert Adjacent(edges, e.from, e.to);
    assert IsWalk(edges, e.from, e.to, [e.from, e.to]) && |[e.from, e.to]| <= k + 1;
  }

  /** On a graph whose edges join existing nodes, the walk returns exactly the edges incident
      to the ball of radius `limit`, exactly the nodes of the ball of radius `limit + 1`, and
      both ends of every returned edge. */
  lemma WalkGraphIsBall(table: set<NodeId>, edges: set<Edge>, start: NodeId, limit: nat)
    requires start in table
    requires forall e | e in edges :: e.from in table && e.to in table
    ensures var g := WalkGraph(table, edges, start, limit);
            && (forall e :: e in g.edges <==>
                  e in edges && (Within(edges, start, e.from, limit) || Within(edges, start, e.to, limit)))
            && (forall n :: n in g.nodes <==> Within(edges, start, n, limit + 1))
            && (forall e :: e in g.edges ==> e.from in g.nodes && e.to in g.nodes)
  {
    var g := WalkGraph(table, edges, start, limit);
    forall e
      ensures e in g.edges <==>
              e in edges && (Within(edges, start, e.from, limit) || Within(edges, start, e.to, limit))
    {
      WalkReturnsIncidentEdges(edges, start, limit, e);
    }
    assert IsWalk(edges, start, start, [start]);
    forall n
      ensures n in g.nodes <==> Within(edges, start, n, limit + 1)
    {
      BallNodes(table, edges, start, limit, n);
    }
  }

  /** Helper for WalkGraphIsBall: the returned nodes, one at a time. */
  lemma BallNodes(table: set<NodeId>, edges: set<Edge>, start: NodeId, limit: nat, n: NodeId)
    requires start in table
    requires forall e | e in edges :: e.from in table && e.to in table
    ensures n in WalkGraph(table, edges, start, limit).nodes <==> Within(edges, start, n, limit + 1)
  {
    var g := WalkGraph(table, edges, start, limit);
    WithinOneMore(edges, start, n, limit);
    assert IsWalk(edges, start, start, [start]) && |[start]| <= limit + 1;
    assert Within(edges, start, start, limit) && Within(edges, start, start, limit + 1);
    forall e | e in edges && Touches(e, n)
      ensures e in g.edges <==> Within(edges, start, n, limit) || Within(edges, start, Other(e, n), limit)
    {
      WalkReturnsIncidentEdges(edges, start, limit, e);
    }
    if Within(edges, start, n, limit) && n != start {
      var p :| IsWalk(edges, start, n, p) && |p| <= limit + 1;
      assert Adjacent(edges, p[|p| - 2], p[|p| - 1]);
      var e :| e in edges && Joins(e, p[|p| - 2], n);
      assert e in g.edges && Touches(e, n);
    }
  }
}
