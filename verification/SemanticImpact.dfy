/**
 * `transitiveDependentCapabilities`: the reverse breadth-first walk over `depends_on` edges.
 */
module SemanticImpact {
  import opened Wrappers
  import opened BreadthFirst

  datatype Edge = Edge(id: string, from: Id, to: Id, relation: string)

  datatype Graph = Graph(nodes: seq<Id>, edges: seq<Edge>)

  /** A graph that passed validation: both ends of every edge are nodes. */
  ghost predicate Valid(g: Graph)
  {
    forall e :: e in g.edges ==> e.from in g.nodes && e.to in g.nodes
  }

  predicate DependsOn(e: Edge) { "depends_on:" <= e.relation }

  /** The `depends_on` edges that end in `x`. */
  function Dependents(edges: seq<Edge>, x: Id): (r: seq<Edge>)
    ensures forall e :: e in r ==> e in edges && DependsOn(e) && e.to == x
    ensures forall e :: e in edges && DependsOn(e) && e.to == x ==> e in r
  {
    if edges == [] then []
    else
      var last := edges[|edges| - 1];
      var before := Dependents(edges[..|edges| - 1], x);
      assert edges == edges[..|edges| - 1] + [last];
      if DependsOn(last) && last.to == x then before + [last] else before
  }

  function Sources(edges: seq<Edge>): (r: seq<Id>)
    ensures |r| == |edges|
    ensures forall e :: e in edges ==> e.from in r
    ensures forall x :: x in r ==> exists e :: e in edges && e.from == x
  {
    if edges == [] then [] else [edges[0].from] + Sources(edges[1..])
  }

  /** One step against the dependencies. */
  function Backwards(g: Graph): Nexts { x => Sources(Dependents(g.edges, x)) }

  /** A comparison sort of the edges of one node: it only reorders. */
  ghost predicate OnlyReorders(order: seq<Edge> -> seq<Edge>)
  {
    forall es :: multiset(order(es)) == multiset(es)
  }

  datatype Item = Item(id: Id, depth: nat)

  datatype Row = Row(node: Id, depth: nat, via: Id, edge: Edge)

  function Ids(queue: seq<Item>): (r: seq<Id>)
    ensures |r| == |queue|
  {
    seq(|queue|, i requires 0 <= i < |queue| => queue[i].id)
  }

  /** `row` names a node at its least depth, reached over a dependency on a node one level nearer. */
  ghost predicate RowTrue(g: Graph, direct: set<Id>, row: Row)
  {
    && row.depth > 0 && Distance(Backwards(g), direct, row.node, row.depth)
    && Distance(Backwards(g), direct, row.via, row.depth - 1)
    && row.edge in g.edges && DependsOn(row.edge) && row.edge.from == row.node && row.edge.to == row.via
  }

  /** `rows` are the dependents of `direct`: all of them, once each, nearest first. */
  ghost predicate RowsExact(g: Graph, direct: set<Id>, rows: seq<Row>)
  {
    && (forall i :: 0 <= i < |rows| ==> RowTrue(g, direct, rows[i]) && rows[i].node in g.nodes)
    && (forall i, j :: 0 <= i < j < |rows| ==> rows[i].node != rows[j].node && rows[i].depth <= rows[j].depth)
    && (forall x :: Reachable(Backwards(g), direct, x) && x !in direct ==> exists i :: 0 <= i < |rows| && rows[i].node == x)
  }

  // ---- the reverse index -----------------------------------------------------------------------

  /** `reverse.get(x) || []`. */
  function Listed(reverse: map<Id, seq<Edge>>, x: Id): seq<Edge> { if x in reverse then reverse[x] else [] }

  method ReverseIndex(edges: seq<Edge>) returns (reverse: map<Id, seq<Edge>>)
    ensures forall x :: Listed(reverse, x) == Dependents(edges, x)
  {
    reverse := map[];
    for i := 0 to |edges|
      invariant forall x :: Listed(reverse, x) == Dependents(edges[..i], x)
    {
      assert edges[..i + 1][..i] == edges[..i];
      if DependsOn(edges[i]) {
        reverse := reverse[edges[i].to := Listed(reverse, edges[i].to) + [edges[i]]];
      }
    }
    assert edges[..|edges|] == edges;
  }

  // ---- the walk --------------------------------------------------------------------------------

  predicate RowFound(g: Graph, direct: set<Id>, depth: map<Id, nat>, r: Row)
  {
    && r.node in g.nodes && r.node in depth && depth[r.node] == r.depth > 0 && r.node !in direct
    && r.via in depth && depth[r.via] == r.depth - 1
    && r.edge in g.edges && DependsOn(r.edge) && r.edge.from == r.node && r.edge.to == r.via
  }

  /** What the rows found so far say in terms of the depths. */
  ghost predicate RowsSoFar(g: Graph, direct: set<Id>, depth: map<Id, nat>, rows: seq<Row>)
  {
    && (forall i :: 0 <= i < |rows| ==> RowFound(g, direct, depth, rows[i]))
    && (forall i, j :: 0 <= i < j < |rows| ==> rows[i].node != rows[j].node && rows[i].depth <= rows[j].depth)
    && (forall x :: x in depth && x !in direct ==> exists i :: 0 <= i < |rows| && rows[i].node == x)
  }

  ghost predicate QueueTrue(depth: map<Id, nat>, queue: seq<Item>)
  {
    forall i :: 0 <= i < |queue| ==> queue[i].id in depth && depth[queue[i].id] == queue[i].depth
  }

  lemma {:induction false} RowAdded(g: Graph, direct: set<Id>, depth: map<Id, nat>, rows: seq<Row>, cur: Id, e: Edge,
                                    row: Row, d: nat)
    requires Valid(g) && RowsSoFar(g, direct, depth, rows) && cur in depth && e.from !in depth
    requires e in g.edges && DependsOn(e) && e.to == cur && direct <= depth.Keys
    requires d == depth[cur] + 1 && row == Row(e.from, d, cur, e) && forall x :: x in depth ==> depth[x] <= d
    ensures RowsSoFar(g, direct, depth[e.from := d], rows + [row])
  {
    hide RowFound;
    var deeper, more := depth[e.from := d], rows + [row];
    FoundRow(g, direct, depth, row, cur, e, d);
    forall i | 0 <= i < |more|
      ensures RowFound(g, direct, deeper, more[i])
      ensures i < |rows| ==> more[i].node != e.from && more[i].depth <= row.depth
    {
      if i < |rows| {
        KeepsRow(g, direct, depth, rows[i], e.from, d);
      }
    }
    forall x | x in deeper && x !in direct
      ensures exists i :: 0 <= i < |more| && more[i].node == x
    {
      if x == e.from {
        assert more[|rows|].node == x;
      } else {
        var i :| 0 <= i < |rows| && rows[i].node == x;
        assert more[i].node == x;
      }
    }
  }

  lemma {:induction false} FoundRow(g: Graph, direct: set<Id>, depth: map<Id, nat>, row: Row, cur: Id, e: Edge, d: nat)
    requires Valid(g) && cur in depth && e.from !in depth && e in g.edges && DependsOn(e) && e.to == cur
    requires direct <= depth.Keys && d == depth[cur] + 1 && row == Row(e.from, d, cur, e)
    ensures RowFound(g, direct, depth[e.from := d], row)
  {
  }

  lemma {:induction false} KeepsRow(g: Graph, direct: set<Id>, depth: map<Id, nat>, row: Row, x: Id, d: nat)
    requires RowFound(g, direct, depth, row) && x !in depth && forall y :: y in depth ==> depth[y] <= d
    ensures RowFound(g, direct, depth[x := d], row) && row.node != x && row.depth <= d
  {
  }

  lemma {:induction false} WalkBounds(g: Graph, direct: set<Id>, depth: map<Id, nat>, queue: seq<Item>, cur: Item)
    requires Expanding(Backwards(g), direct, None, depth, Ids(queue), cur.id) && depth[cur.id] == cur.depth
    ensures direct <= depth.Keys && forall x :: x in depth ==> depth[x] <= cur.depth + 1
  {
    hide Within, Settled;
  }

  lemma {:induction false} Enqueued(depth: map<Id, nat>, queue: seq<Item>, item: Item)
    requires QueueTrue(depth, queue) && item.id !in depth
    ensures QueueTrue(depth[item.id := item.depth], queue + [item]) && Ids(queue + [item]) == Ids(queue) + [item.id]
  {
  }

  lemma {:induction false} RowsAreExact(g: Graph, direct: set<Id>, depth: map<Id, nat>, rows: seq<Row>)
    requires Exploring(Backwards(g), direct, None, depth, []) && RowsSoFar(g, direct, depth, rows)
    ensures RowsExact(g, direct, rows)
  {
    hide Distance, Within, Exploring, RowTrue;
    Exact(Backwards(g), direct, None, depth);
    forall i | 0 <= i < |rows|
      ensures RowTrue(g, direct, rows[i])
    {
      RowIsTrue(g, direct, depth, rows[i]);
    }
  }

  lemma {:induction false} RowIsTrue(g: Graph, direct: set<Id>, depth: map<Id, nat>, row: Row)
    requires RowFound(g, direct, depth, row) && forall x :: x in depth ==> Distance(Backwards(g), direct, x, depth[x])
    ensures RowTrue(g, direct, row)
  {
    hide Distance;
  }

  /** The sorted edges of `cur` lead to its neighbours, and to all of them. */
  lemma {:induction false} Neighbours(g: Graph, order: seq<Edge> -> seq<Edge>, cur: Id)
    requires OnlyReorders(order)
    ensures var rows := order(Dependents(g.edges, cur));
            && (forall e :: e in rows ==> e in g.edges && DependsOn(e) && e.to == cur && e.from in Backwards(g)(cur))
            && (forall x :: x in Backwards(g)(cur) ==> exists e :: e in rows && e.from == x)
  {
    var es := Dependents(g.edges, cur);
    assert multiset(order(es)) == multiset(es);
    forall e
      ensures e in order(es) <==> e in es
    {
      assert e in order(es) <==> e in multiset(order(es));
    }
  }

  ghost function Universe(g: Graph, direct: set<Id>): set<Id> { direct + (set x | x in g.nodes :: x) }

  lemma {:induction false} StartQueue(direct: set<Id>, queue: seq<Item>)
    requires forall x :: x in Ids(queue) ==> x in direct
    requires forall i :: 0 <= i < |queue| ==> queue[i].depth == 0
    ensures QueueTrue(map x | x in direct :: 0, queue)
  {
    forall i | 0 <= i < |queue|
      ensures queue[i].id in direct
    {
      assert Ids(queue)[i] in Ids(queue);
    }
  }

  lemma {:induction false} StartRows(g: Graph, direct: set<Id>)
    ensures RowsSoFar(g, direct, map x | x in direct :: 0, [])
  {
  }

  /** `new Set(ids)` and the initial queue: each identifier once. */
  method Start(ids: seq<Id>) returns (seen: set<Id>, queue: seq<Item>)
    ensures forall x :: x in seen <==> x in ids
    ensures forall x :: x in seen <==> x in Ids(queue)
    ensures forall i :: 0 <= i < |queue| ==> queue[i].depth == 0
  {
    seen, queue := {}, [];
    for i := 0 to |ids|
      invariant forall x :: x in seen <==> x in ids[..i]
      invariant forall x :: x in seen <==> x in Ids(queue)
      invariant forall k :: 0 <= k < |queue| ==> queue[k].depth == 0
    {
      var more := queue + [Item(ids[i], 0)];
      assert ids[..i + 1] == ids[..i] + [ids[i]];
      assert Ids(more) == Ids(queue) + [ids[i]];
      if ids[i] !in seen {
        seen, queue := seen + {ids[i]}, more;
      }
    }
    assert ids[..|ids|] == ids;
  }

  /** One turn of the outer loop: the dependents of `cur` that are new. */
  method Expand(g: Graph, ghost direct: set<Id>, rows: seq<Edge>, cur: Item, seen0: set<Id>, queue0: seq<Item>,
                out0: seq<Row>, ghost depth0: map<Id, nat>)
    returns (seen: set<Id>, queue: seq<Item>, out: seq<Row>, ghost depth: map<Id, nat>)
    requires Valid(g) && seen0 == depth0.Keys && QueueTrue(depth0, queue0)
    requires cur.id in depth0 && depth0[cur.id] == cur.depth
    requires Expanding(Backwards(g), direct, None, depth0, Ids(queue0), cur.id) && RowsSoFar(g, direct, depth0, out0)
    requires forall e :: e in rows ==> e in g.edges && DependsOn(e) && e.to == cur.id && e.from in Backwards(g)(cur.id)
    requires forall x :: x in Backwards(g)(cur.id) ==> exists e :: e in rows && e.from == x
    ensures seen == depth.Keys && QueueTrue(depth, queue) && seen0 <= seen
    ensures seen <= seen0 + (set x | x in g.nodes :: x)
    ensures seen == seen0 ==> queue == queue0
    ensures Exploring(Backwards(g), direct, None, depth, Ids(queue)) && RowsSoFar(g, direct, depth, out)
  {
    hide RowsSoFar, Dependents, Sources, Expanding, Exploring, QueueTrue, Ids;
    ghost var nexts := Backwards(g);
    seen, queue, out, depth := seen0, queue0, out0, depth0;
    for i := 0 to |rows|
      invariant seen == depth.Keys && QueueTrue(depth, queue) && seen0 <= seen
      invariant seen <= seen0 + (set x | x in g.nodes :: x)
      invariant seen == seen0 ==> queue == queue0
      invariant cur.id in depth && depth[cur.id] == cur.depth
      invariant Expanding(nexts, direct, None, depth, Ids(queue), cur.id) && RowsSoFar(g, direct, depth, out)
      invariant forall k :: 0 <= k < i ==> rows[k].from in seen
    {
      var e := rows[i];
      if e.from in seen {
        continue;
      }
      var item := Item(e.from, cur.depth + 1);
      var row := Row(e.from, item.depth, cur.id, e);
      Discover(nexts, direct, None, depth, Ids(queue), cur.id, e.from, item.depth);
      WalkBounds(g, direct, depth, queue, cur);
      RowAdded(g, direct, depth, out, cur.id, e, row, item.depth);
      Enqueued(depth, queue, item);
      seen, queue, out := seen + {e.from}, queue + [item], out + [row];
      depth := depth[e.from := item.depth];
    }
    Finish(nexts, direct, None, depth, Ids(queue), cur.id);
  }

  lemma {:induction false} SubsetSize(a: set<Id>, b: set<Id>)
    requires a <= b
    ensures |a| <= |b| && (a != b ==> |a| < |b|)
  {
    assert b == a + (b - a);
  }

  // ---- the rows in terms of paths --------------------------------------------------------------

  predicate IsDependency(e: Edge) { |e.relation| >= 11 && e.relation[..11] == "depends_on:" }

  /** `y` depends on `x`. */
  ghost predicate DependsDirectly(g: Graph, x: Id, y: Id)
  {
    exists e :: e in g.edges && IsDependency(e) && e.from == y && e.to == x
  }

  /** Each node of the path depends on the one before it. */
  ghost predicate DependsAlong(g: Graph, path: seq<Id>)
  {
    forall i :: 0 <= i < |path| - 1 ==> DependsDirectly(g, path[i], path[i + 1])
  }

  /** Dependencies lead from one of `direct` to `x` over `n` nodes, both of them included. */
  ghost predicate DependsVia(g: Graph, direct: set<Id>, x: Id, n: nat)
  {
    exists path :: 1 <= |path| <= n && path[0] in direct && path[|path| - 1] == x && DependsAlong(g, path)
  }

  /** `x` is `depth` dependencies away from `direct`, and not fewer. */
  ghost predicate AtDepth(g: Graph, direct: set<Id>, x: Id, depth: nat)
  {
    DependsVia(g, direct, x, depth + 1) && !DependsVia(g, direct, x, depth)
  }

  /** The rows are the nodes that depend on `direct`, all of them, once each and nearest first, each with its last step. */
  ghost predicate DependentsExact(g: Graph, direct: set<Id>, rows: seq<Row>)
  {
    && (forall i :: 0 <= i < |rows| ==>
          && rows[i].node in g.nodes && rows[i].depth > 0
          && AtDepth(g, direct, rows[i].node, rows[i].depth) && AtDepth(g, direct, rows[i].via, rows[i].depth - 1)
          && rows[i].edge in g.edges && IsDependency(rows[i].edge)
          && rows[i].edge.from == rows[i].node && rows[i].edge.to == rows[i].via)
    && (forall i, j :: 0 <= i < j < |rows| ==> rows[i].node != rows[j].node && rows[i].depth <= rows[j].depth)
    && (forall x, n: nat :: DependsVia(g, direct, x, n) && x !in direct ==> exists i :: 0 <= i < |rows| && rows[i].node == x)
  }

  lemma {:induction false} BackwardsIff(g: Graph, x: Id, y: Id)
    ensures y in Backwards(g)(x) <==> DependsDirectly(g, x, y)
  {
    forall e: Edge ensures DependsOn(e) <==> IsDependency(e) {
    }
  }

  lemma {:induction false} ViaIff(g: Graph, direct: set<Id>, x: Id, k: nat)
    ensures Within(Backwards(g), direct, x, k) <==> DependsVia(g, direct, x, k + 1)
  {
    hide Within, Backwards, DependsDirectly;
    var nexts := Backwards(g);
    WithinIff(nexts, direct, x, k);
    forall path: seq<Id> ensures Steps(nexts, path) <==> DependsAlong(g, path) {
      forall i | 0 <= i < |path| - 1
        ensures path[i + 1] in nexts(path[i]) <==> DependsDirectly(g, path[i], path[i + 1])
      {
        BackwardsIff(g, path[i], path[i + 1]);
      }
    }
    if path :| |path| <= k + 1 && Leads(nexts, direct, path, x) {
      assert DependsAlong(g, path);
    }
    if path :| 1 <= |path| <= k + 1 && path[0] in direct && path[|path| - 1] == x && DependsAlong(g, path) {
      assert Leads(nexts, direct, path, x);
    }
  }

  lemma {:induction false} NoPath(g: Graph, direct: set<Id>, x: Id)
    ensures !DependsVia(g, direct, x, 0)
  {
  }

  lemma {:induction false} DepthIff(g: Graph, direct: set<Id>, x: Id, k: nat)
    ensures Distance(Backwards(g), direct, x, k) <==> AtDepth(g, direct, x, k)
  {
    hide Within, DependsVia, Backwards;
    ViaIff(g, direct, x, k);
    if k > 0 {
      ViaIff(g, direct, x, k - 1);
    } else {
      NoPath(g, direct, x);
    }
  }

  lemma {:induction false} ExactDependents(g: Graph, direct: set<Id>, rows: seq<Row>)
    requires RowsExact(g, direct, rows)
    ensures DependentsExact(g, direct, rows)
  {
    hide Within, Distance, AtDepth, DependsVia, Backwards;
    forall i | 0 <= i < |rows|
      ensures AtDepth(g, direct, rows[i].node, rows[i].depth) && rows[i].depth > 0
      ensures AtDepth(g, direct, rows[i].via, rows[i].depth - 1) && IsDependency(rows[i].edge)
    {
      DepthIff(g, direct, rows[i].node, rows[i].depth);
      DepthIff(g, direct, rows[i].via, rows[i].depth - 1);
    }
    forall x, n: nat | DependsVia(g, direct, x, n) && x !in direct ensures exists i :: 0 <= i < |rows| && rows[i].node == x {
      if n == 0 {
        NoPath(g, direct, x);
      } else {
        ViaIff(g, direct, x, n - 1);
        assert Reachable(Backwards(g), direct, x);
      }
    }
  }

  /** `transitiveDependentCapabilities`, up to its final sort for display. */
  method TransitiveDependents(g: Graph, directRows: seq<Id>, order: seq<Edge> -> seq<Edge>) returns (out: seq<Row>)
    requires Valid(g) && OnlyReorders(order)
    ensures RowsExact(g, set x | x in directRows :: x, out)
    ensures DependentsExact(g, set x | x in directRows :: x, out)
  {
    hide Expanding, Exploring, RowsSoFar, RowsExact, DependentsExact, Valid, OnlyReorders, Dependents, Sources;
    ghost var direct: set<Id> := set x | x in directRows :: x;
    ghost var nexts := Backwards(g);
    var reverse := ReverseIndex(g.edges);
    var seen, queue := Start(directRows);
    ghost var depth: map<Id, nat> := map x | x in direct :: 0;
    out := [];
    StartRows(g, direct);
    StartQueue(direct, queue);
    Begin(nexts, direct, None, depth, Ids(queue));
    while queue != []
      invariant seen == depth.Keys && seen <= Universe(g, direct)
      invariant QueueTrue(depth, queue) && Exploring(nexts, direct, None, depth, Ids(queue))
      invariant RowsSoFar(g, direct, depth, out)
      decreases |Universe(g, direct)| - |seen|, |queue|
    {
      var cur := queue[0];
      Dequeue(nexts, direct, None, depth, Ids(queue));
      assert Ids(queue[1..]) == Ids(queue)[1..];
      var rows := order(Listed(reverse, cur.id));
      Neighbours(g, order, cur.id);
      ghost var before := seen;
      seen, queue, out, depth := Expand(g, direct, rows, cur, seen, queue[1..], out, depth);
      SubsetSize(before, seen);
      SubsetSize(seen, Universe(g, direct));
    }
    assert Ids(queue) == [];
    RowsAreExact(g, direct, depth, out);
    ExactDependents(g, direct, out);
  }
}
