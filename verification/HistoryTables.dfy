/** The node and edge tables of the lineage graph beside the tables they reference, with the
    constraints of the schema: a node per referenced row, edges between existing nodes, and
    deletes that cascade from rows to nodes to edges. */
module HistoryTables {
  import opened HistoryGraph

  /** A row of one of the tables a node can reference. */
  datatype RowRef =
    | EventRow(id: nat) | ActorRow(id: nat) | EntityRow(id: nat) | InputRow(id: nat)
    | ChangeRow(id: nat) | CurrentRow(id: nat)

  /** The rows that exist, the two graph tables, and the next unused id. */
  datatype Net = Net(rows: set<RowRef>, nodes: map<NodeId, RowRef>, edges: set<Edge>, next: nat)

  ghost predicate HasNode(n: Net, ref: RowRef) {
    exists v :: v in n.nodes && n.nodes[v] == ref
  }

  /** Nodes reference existing rows, no two the same one, and edges join existing nodes. */
  ghost predicate KeysHold(n: Net) {
    && (forall v :: v in n.nodes ==> n.nodes[v] in n.rows && v < n.next)
    && (forall v, w :: v in n.nodes && w in n.nodes && n.nodes[v] == n.nodes[w] ==> v == w)
    && (forall e :: e in n.edges ==> e.from in n.nodes && e.to in n.nodes)
    && (forall r :: r in n.rows ==> r.id < n.next)
  }

  /** Every row has a node; with KeysHold, exactly one. */
  ghost predicate Covered(n: Net) {
    forall r :: r in n.rows ==> HasNode(n, r)
  }

  ghost predicate WellFormed(n: Net) {
    KeysHold(n) && Covered(n)
  }

  /** An edge of the kind joins the nodes of the two rows. */
  ghost predicate HasEdge(n: Net, a: RowRef, b: RowRef, kind: EdgeKind) {
    exists e :: e in n.edges && e.kind == kind && e.from in n.nodes && e.to in n.nodes
                && n.nodes[e.from] == a && n.nodes[e.to] == b
  }

  // Statements on the tables

  function InsertRow(n: Net, ref: RowRef): Net {
    n.(rows := n.rows + {ref}, next := n.next + 1)
  }

  function InsertNode(n: Net, ref: RowRef): Net {
    n.(nodes := n.nodes[n.next := ref], next := n.next + 1)
  }

  function InsertEdge(n: Net, from: NodeId, to: NodeId, kind: EdgeKind): Net {
    n.(edges := n.edges + {Edge(n.next, from, to, kind)}, next := n.next + 1)
  }

  /** Deleting a row deletes its node, and that node's edges. */
  function CascadeDelete(n: Net, ref: RowRef): Net {
    var gone := set v | v in n.nodes && n.nodes[v] == ref;
    Net(n.rows - {ref}, n.nodes - gone, (set e | e in n.edges && e.from !in gone && e.to !in gone), n.next)
  }

  lemma InsertRowKeeps(n: Net, ref: RowRef)
    requires KeysHold(n) && ref.id == n.next
    ensures KeysHold(InsertRow(n, ref)) && !HasNode(InsertRow(n, ref), ref)
    ensures ref !in n.rows
  {
  }

  lemma InsertNodeKeeps(n: Net, ref: RowRef)
    requires KeysHold(n) && ref in n.rows && !HasNode(n, ref)
    ensures var m := InsertNode(n, ref);
            KeysHold(m) && HasNode(m, ref) && forall r :: HasNode(n, r) ==> HasNode(m, r)
  {
    var m := InsertNode(n, ref);
    assert m.nodes[n.next] == ref;
    forall r | HasNode(n, r)
      ensures HasNode(m, r)
    {
      var v :| v in n.nodes && n.nodes[v] == r;
      assert m.nodes[v] == r;
    }
  }

  /** A row inserted with its node: the state stays well formed. */
  lemma RowWithNodeKeeps(n: Net, ref: RowRef)
    requires WellFormed(n) && ref.id == n.next
    ensures WellFormed(InsertNode(InsertRow(n, ref), ref))
  {
    InsertRowKeeps(n, ref);
    var m := InsertRow(n, ref);
    InsertNodeKeeps(m, ref);
    forall r | r in n.rows
      ensures HasNode(InsertNode(m, ref), r)
    {
      var v :| v in n.nodes && n.nodes[v] == r;
      assert v in m.nodes && m.nodes[v] == r;
      assert HasNode(m, r);
    }
  }

  lemma InsertEdgeKeeps(n: Net, from: NodeId, to: NodeId, kind: EdgeKind)
    requires KeysHold(n) && from in n.nodes && to in n.nodes
    ensures var m := InsertEdge(n, from, to, kind);
            && KeysHold(m) && (WellFormed(n) ==> WellFormed(m))
            && HasEdge(m, n.nodes[from], n.nodes[to], kind)
  {
    var m := InsertEdge(n, from, to, kind);
    assert Edge(n.next, from, to, kind) in m.edges;
    forall r | HasNode(n, r)
      ensures HasNode(m, r)
    {
      var v :| v in n.nodes && n.nodes[v] == r;
      assert v in m.nodes && m.nodes[v] == r;
    }
  }

  /** The cascade leaves every other row its node, and no dangling edge. */
  lemma CascadeKeeps(n: Net, ref: RowRef)
    requires WellFormed(n)
    ensures WellFormed(CascadeDelete(n, ref))
    ensures !HasNode(CascadeDelete(n, ref), ref)
  {
    var m := CascadeDelete(n, ref);
    forall r | r in m.rows
      ensures HasNode(m, r)
    {
      var v :| v in n.nodes && n.nodes[v] == r;
      assert v in m.nodes && m.nodes[v] == r;
    }
  }

  /** Nodes and edges of `n` are still in `m`. */
  ghost predicate Extends(n: Net, m: Net) {
    && n.rows <= m.rows && n.next <= m.next && n.edges <= m.edges
    && forall v :: v in n.nodes ==> v in m.nodes && m.nodes[v] == n.nodes[v]
  }

  lemma ExtendsTwice(n: Net, m: Net, k: Net)
    requires Extends(n, m) && Extends(m, k)
    ensures Extends(n, k)
  {
  }

  lemma RowWithNodeExtends(n: Net, ref: RowRef)
    requires WellFormed(n) && ref.id == n.next
    ensures var m := InsertNode(InsertRow(n, ref), ref);
            Extends(n, m) && ref !in n.rows && m.rows == n.rows + {ref} && m.nodes[n.next + 1] == ref
  {
  }

  lemma LinksStay(n: Net, m: Net, a: RowRef, b: RowRef, kind: EdgeKind)
    requires Extends(n, m) && HasEdge(n, a, b, kind)
    ensures HasEdge(m, a, b, kind)
  {
    var e :| e in n.edges && e.kind == kind && e.from in n.nodes && e.to in n.nodes
             && n.nodes[e.from] == a && n.nodes[e.to] == b;
    assert e in m.edges;
  }

  lemma LinksSurviveCascade(n: Net, ref: RowRef, a: RowRef, b: RowRef, kind: EdgeKind)
    requires HasEdge(n, a, b, kind) && a != ref && b != ref
    ensures HasEdge(CascadeDelete(n, ref), a, b, kind)
  {
    var m := CascadeDelete(n, ref);
    var e :| e in n.edges && e.kind == kind && e.from in n.nodes && e.to in n.nodes
             && n.nodes[e.from] == a && n.nodes[e.to] == b;
    assert e in m.edges && m.nodes[e.from] == a && m.nodes[e.to] == b;
  }

  /** From the node of a current value, at any depth of one or more, the walk returns the node
      of its producing change, the node of that change's event, and the edges between them. */
  lemma WalkReachesProducer(n: Net, start: NodeId, current: RowRef, change: RowRef, event: RowRef, depth: nat)
    requires WellFormed(n) && start in n.nodes && n.nodes[start] == current && depth >= 1
    requires HasEdge(n, current, change, CurrentValueOf) && HasEdge(n, event, change, Changed)
    ensures var g := WalkGraph(n.nodes.Keys, n.edges, start, depth);
            && (exists v :: v in g.nodes && v in n.nodes && n.nodes[v] == change)
            && (exists v :: v in g.nodes && v in n.nodes && n.nodes[v] == event)
            && (exists e :: e in g.edges && e.kind == CurrentValueOf && e.from == start && n.nodes[e.to] == change)
            && (exists e :: e in g.edges && e.kind == Changed && n.nodes[e.from] == event && n.nodes[e.to] == change)
  {
    hide WalkGraph, Within;
    var g := WalkGraph(n.nodes.Keys, n.edges, start, depth);
    var up :| up in n.edges && up.kind == CurrentValueOf && up.from in n.nodes && up.to in n.nodes
              && n.nodes[up.from] == current && n.nodes[up.to] == change;
    var down :| down in n.edges && down.kind == Changed && down.from in n.nodes && down.to in n.nodes
                && n.nodes[down.from] == event && n.nodes[down.to] == change;
    assert up.from == start && down.to == up.to;
    WalkGraphIsBall(n.nodes.Keys, n.edges, start, depth);
    NeighborWithin(n.edges, up, depth);
    assert up in g.edges && down in g.edges;
  }
}
