/** `traceUnderstanding`: the bounded breadth-first walk from one node, against, along or across the edges. */
module GraphTrace {
  import opened Wrappers
  import opened BreadthFirst
  import opened SemanticImpact

  datatype Direction = In | Out | Both

  /** The edges followed from `x`. */
  predicate Follows(direction: Direction, x: Id, e: Edge)
  {
    (direction != In && e.from == x) || (direction != Out && e.to == x)
  }

  function Candidates(edges: seq<Edge>, direction: Direction, x: Id): (r: seq<Edge>)
    ensures forall e :: e in r <==> e in edges && Follows(direction, x, e)
  {
    if edges == [] then []
    else (if Follows(direction, x, edges[0]) then [edges[0]] else []) + Candidates(edges[1..], direction, x)
  }

  /** `e.from === current ? e.to : e.from`. */
  function OtherEnd(x: Id, e: Edge): Id { if e.from == x then e.to else e.from }

  function Ends(x: Id, edges: seq<Edge>): (r: seq<Id>)
    ensures |r| == |edges| && forall i :: 0 <= i < |edges| ==> r[i] == OtherEnd(x, edges[i])
  {
    if edges == [] then [] else [OtherEnd(x, edges[0])] + Ends(x, edges[1..])
  }

  function Around(g: Graph, direction: Direction): Nexts { x => Ends(x, Candidates(g.edges, direction, x)) }

  /** Integer depths are clamped to 0..12; anything else means 3. */
  function Clamp(requested: Option<int>): (d: nat)
    ensures d <= 12
  {
    match requested
    case None => 3
    case Some(n) => if n < 0 then 0 else if n > 12 then 12 else n
  }

  datatype Trace = Trace(nodes: seq<Id>, edges: seq<Edge>, maxDepth: nat)

  /** An edge that the walk follows from a node closer than the limit. */
  ghost predicate Traced(g: Graph, direction: Direction, start: Id, limit: nat, e: Edge)
  {
    e in g.edges && exists x, k: nat :: Follows(direction, x, e) && k < limit && Distance(Around(g, direction), {start}, x, k)
  }

  /** The edges traced so far, in terms of the depths of the nodes expanded so far. */
  ghost predicate EdgesSoFar(g: Graph, direction: Direction, limit: nat, depth: map<Id, nat>, queue: seq<Id>, traced: seq<Edge>)
  {
    && (forall e :: e in traced ==>
          e in g.edges && e.from in depth && e.to in depth
          && exists x :: x in depth && depth[x] < limit && Follows(direction, x, e))
    && (forall e, x :: e in g.edges && x in depth && x !in queue && depth[x] < limit && Follows(direction, x, e) ==> e in traced)
  }

  lemma {:induction false} BothEnds(g: Graph, direction: Direction, x: Id, e: Edge)
    requires e in Candidates(g.edges, direction, x)
    ensures OtherEnd(x, e) in Around(g, direction)(x) && (e.from == x || e.to == x)
    ensures {e.from, e.to} == {x, OtherEnd(x, e)}
  {
    var i :| 0 <= i < |Candidates(g.edges, direction, x)| && Candidates(g.edges, direction, x)[i] == e;
    assert Ends(x, Candidates(g.edges, direction, x))[i] == OtherEnd(x, e);
  }

  lemma {:induction false} FromCandidate(g: Graph, direction: Direction, x: Id, y: Id) returns (e: Edge)
    requires y in Around(g, direction)(x)
    ensures e in Candidates(g.edges, direction, x) && y == OtherEnd(x, e)
  {
    var es := Candidates(g.edges, direction, x);
    var i :| 0 <= i < |Ends(x, es)| && Ends(x, es)[i] == y;
    e := es[i];
  }

  ghost function EdgeEnds(g: Graph): set<Id> { (set e | e in g.edges :: e.from) + (set e | e in g.edges :: e.to) }

  /** What is visited and queued only grows, and what is new is queued. */
  ghost predicate Grown(visited0: map<Id, nat>, queue0: seq<Id>, visited: map<Id, nat>, queue: seq<Id>, limit: nat,
                        ends: set<Id>)
  {
    && visited0.Keys <= visited.Keys <= visited0.Keys + ends
    && (visited.Keys == visited0.Keys ==> queue == queue0)
    && (forall x :: x in visited0 ==> visited[x] == visited0[x])
    && (forall x :: x in visited && x !in visited0 ==> x in queue)
    && (forall x :: x in queue0 ==> x in queue)
    && (forall x :: x in visited ==> visited[x] <= limit)
  }

  lemma {:induction false} GrowsByOne(visited0: map<Id, nat>, queue0: seq<Id>, visited: map<Id, nat>, queue: seq<Id>,
                                      limit: nat, ends: set<Id>, x: Id, d: nat)
    requires Grown(visited0, queue0, visited, queue, limit, ends) && x !in visited && x in ends && d <= limit
    ensures Grown(visited0, queue0, visited[x := d], queue + [x], limit, ends)
  {
    assert x in visited[x := d].Keys && x !in visited0.Keys;
    assert forall y :: y in queue + [x] <==> y in queue || y == x;
  }

  lemma {:induction false} NewEnd(g: Graph, direction: Direction, x: Id, e: Edge)
    requires e in Candidates(g.edges, direction, x)
    ensures OtherEnd(x, e) in Around(g, direction)(x) && OtherEnd(x, e) in EdgeEnds(g)
  {
    BothEnds(g, direction, x, e);
    assert e in g.edges && (OtherEnd(x, e) == e.from || OtherEnd(x, e) == e.to);
  }

  ghost predicate EndsVisited(es: seq<Edge>, x: Id, visited: map<Id, nat>)
  {
    forall e :: e in es ==> OtherEnd(x, e) in visited
  }

  /** One turn of the outer loop for a node that is not too deep. */
  method Expand(g: Graph, direction: Direction, start: Id, limit: nat, current: Id, visited0: map<Id, nat>, queue0: seq<Id>,
                traced0: seq<Edge>)
    returns (visited: map<Id, nat>, queue: seq<Id>, traced: seq<Edge>)
    requires Expanding(Around(g, direction), {start}, Some(limit), visited0, queue0, current)
    requires current in visited0 && visited0[current] < limit && forall x :: x in visited0 ==> visited0[x] <= limit
    ensures Exploring(Around(g, direction), {start}, Some(limit), visited, queue)
    ensures Grown(visited0, queue0, visited, queue, limit, EdgeEnds(g))
    ensures traced == traced0 + Candidates(g.edges, direction, current)
    ensures EndsVisited(Candidates(g.edges, direction, current), current, visited)
  {
    hide Expanding, Exploring, Around, OtherEnd, EdgeEnds;
    ghost var nexts := Around(g, direction);
    var es := Candidates(g.edges, direction, current);
    visited, queue, traced := visited0, queue0, traced0;
    var deeper := visited[current] + 1;
    for i := 0 to |es|
      invariant Grown(visited0, queue0, visited, queue, limit, EdgeEnds(g))
      invariant Expanding(nexts, {start}, Some(limit), visited, queue, current)
      invariant deeper == visited[current] + 1
      invariant traced == traced0 + es[..i]
      invariant EndsVisited(es[..i], current, visited)
    {
      var e := es[i];
      assert es[..i + 1] == es[..i] + [e];
      NewEnd(g, direction, current, e);
      traced := traced + [e];
      var next := OtherEnd(current, e);
      if next !in visited {
        Discover(nexts, {start}, Some(limit), visited, queue, current, next, deeper);
        GrowsByOne(visited0, queue0, visited, queue, limit, EdgeEnds(g), next, deeper);
        visited, queue := visited[next := deeper], queue + [next];
      }
    }
    assert es[..|es|] == es;
    AllNeighbours(g, direction, current, visited);
    Finish(nexts, {start}, Some(limit), visited, queue, current);
  }

  lemma {:induction false} AllNeighbours(g: Graph, direction: Direction, x: Id, visited: map<Id, nat>)
    requires EndsVisited(Candidates(g.edges, direction, x), x, visited)
    ensures forall y :: y in Around(g, direction)(x) ==> y in visited
  {
    forall y | y in Around(g, direction)(x)
      ensures y in visited
    {
      var e := FromCandidate(g, direction, x, y);
    }
  }

  lemma {:induction false} EdgesGrow(g: Graph, direction: Direction, limit: nat, depth: map<Id, nat>, queue: seq<Id>,
                                     traced: seq<Edge>, current: Id, deeper: map<Id, nat>, longer: seq<Id>)
    requires EdgesSoFar(g, direction, limit, depth, [current] + queue, traced)
    requires current in depth && depth[current] < limit
    requires Grown(depth, queue, deeper, longer, limit, EdgeEnds(g))
    requires EndsVisited(Candidates(g.edges, direction, current), current, deeper)
    ensures EdgesSoFar(g, direction, limit, deeper, longer, traced + Candidates(g.edges, direction, current))
  {
    hide Follows, EdgeEnds, Candidates;
    var es := Candidates(g.edges, direction, current);
    assert current in deeper;
    forall e | e in es
      ensures e.from in deeper && e.to in deeper
    {
      BothEnds(g, direction, current, e);
    }
    forall e | e in traced + es
      ensures e in g.edges && e.from in deeper && e.to in deeper
      ensures exists x :: x in deeper && deeper[x] < limit && Follows(direction, x, e)
    {
      if e in es {
        assert current in deeper && deeper[current] < limit && Follows(direction, current, e);
      } else {
        var x :| x in depth && depth[x] < limit && Follows(direction, x, e);
        assert deeper[x] < limit;
      }
    }
  }

  lemma {:induction false} NothingTraced(g: Graph, direction: Direction, limit: nat, start: Id)
    ensures EdgesSoFar(g, direction, limit, map[start := 0], [start], [])
  {
  }

  lemma {:induction false} CurrentVisited(nexts: Nexts, start: Id, limit: nat, depth: map<Id, nat>, queue: seq<Id>, x: Id)
    requires Expanding(nexts, {start}, Some(limit), depth, queue, x)
    ensures x in depth
  {
  }

  /** A node at the limit is not stepped from. */
  lemma {:induction false} TooDeep(g: Graph, direction: Direction, start: Id, limit: nat, depth: map<Id, nat>,
                                   queue: seq<Id>, traced: seq<Edge>, x: Id)
    requires Expanding(Around(g, direction), {start}, Some(limit), depth, queue, x) && x in depth && depth[x] >= limit
    requires EdgesSoFar(g, direction, limit, depth, [x] + queue, traced)
    ensures Exploring(Around(g, direction), {start}, Some(limit), depth, queue)
    ensures EdgesSoFar(g, direction, limit, depth, queue, traced)
  {
    hide Within, Follows, Expanded;
    Finish(Around(g, direction), {start}, Some(limit), depth, queue, x);
    assert forall y :: y in [x] + queue <==> y == x || y in queue;
  }

  /** The loop of `traceUnderstanding`. */
  method Walk(g: Graph, direction: Direction, start: Id, limit: nat) returns (visited: map<Id, nat>, traced: seq<Edge>)
    ensures Exploring(Around(g, direction), {start}, Some(limit), visited, [])
    ensures forall x :: x in visited ==> visited[x] <= limit
    ensures EdgesSoFar(g, direction, limit, visited, [], traced)
  {
    hide Expanding, Exploring, EdgesSoFar, Candidates, EdgeEnds, Around;
    ghost var nexts := Around(g, direction);
    ghost var universe := {start} + EdgeEnds(g);
    var queue := [start];
    visited, traced := map[start := 0], [];
    Begin(nexts, {start}, Some(limit), visited, queue);
    NothingTraced(g, direction, limit, start);
    while queue != []
      invariant Exploring(nexts, {start}, Some(limit), visited, queue)
      invariant visited.Keys <= universe && forall x :: x in visited ==> visited[x] <= limit
      invariant EdgesSoFar(g, direction, limit, visited, queue, traced)
      decreases |universe| - |visited.Keys|, |queue|
    {
      var current := queue[0];
      Dequeue(nexts, {start}, Some(limit), visited, queue);
      CurrentVisited(nexts, start, limit, visited, queue[1..], current);
      assert queue == [current] + queue[1..];
      queue := queue[1..];
      if visited[current] >= limit {
        TooDeep(g, direction, start, limit, visited, queue, traced, current);
        continue;
      }
      ghost var depth, line, edges := visited, queue, traced;
      visited, queue, traced := Expand(g, direction, start, limit, current, visited, queue, traced);
      EdgesGrow(g, direction, limit, depth, line, edges, current, visited, queue);
      SubsetSize(depth.Keys, visited.Keys);
      SubsetSize(visited.Keys, universe);
    }
  }

  function Kept(nodes: seq<Id>, visited: map<Id, nat>): (r: seq<Id>)
    ensures forall n :: n in r <==> n in nodes && n in visited
  {
    if nodes == [] then [] else (if nodes[0] in visited then [nodes[0]] else []) + Kept(nodes[1..], visited)
  }

  lemma {:induction false} TraceExact(g: Graph, direction: Direction, start: Id, limit: nat, visited: map<Id, nat>,
                                      traced: seq<Edge>)
    requires Exploring(Around(g, direction), {start}, Some(limit), visited, [])
    requires (forall x :: x in visited ==> visited[x] <= limit) && EdgesSoFar(g, direction, limit, visited, [], traced)
    ensures forall x :: x in visited <==> Within(Around(g, direction), {start}, x, limit)
    ensures forall e :: e in traced <==> Traced(g, direction, start, limit, e)
  {
    hide Within, Follows, Candidates;
    var nexts := Around(g, direction);
    Exact(nexts, {start}, Some(limit), visited);
    forall x
      ensures x in visited <==> Within(nexts, {start}, x, limit)
    {
      if x in visited {
        WithinMore(nexts, {start}, x, visited[x], limit);
      }
    }
    forall e
      ensures e in traced <==> Traced(g, direction, start, limit, e)
    {
      if e in traced {
        var x :| x in visited && visited[x] < limit && Follows(direction, x, e);
        assert Distance(nexts, {start}, x, visited[x]);
      }
      if Traced(g, direction, start, limit, e) {
        var x, k: nat :| Follows(direction, x, e) && k < limit && Distance(nexts, {start}, x, k);
        WithinMore(nexts, {start}, x, k, limit);
        OneDistance(nexts, {start}, x, k, visited[x]);
      }
    }
  }

  lemma {:induction false} OneDistance(nexts: Nexts, starts: set<Id>, x: Id, j: nat, k: nat)
    requires Distance(nexts, starts, x, j) && Distance(nexts, starts, x, k)
    ensures j == k
  {
    hide Within;
    if j < k {
      WithinMore(nexts, starts, x, j, k - 1);
    } else if k < j {
      WithinMore(nexts, starts, x, k, j - 1);
    }
  }

  /** One edge of the graph leads from `x` to `y`: along it, against it, or either way. */
  ghost predicate Joined(g: Graph, direction: Direction, x: Id, y: Id)
  {
    exists e :: e in g.edges && match direction
                                case Out => e.from == x && e.to == y
                                case In => e.from == y && e.to == x
                                case Both => (e.from == x && e.to == y) || (e.from == y && e.to == x)
  }

  /** Edges lead from `start` to `x` over at most `n` nodes, both of them included. */
  ghost predicate LedTo(g: Graph, direction: Direction, start: Id, x: Id, n: nat)
  {
    exists path :: 1 <= |path| <= n && path[0] == start && path[|path| - 1] == x && JoinedAll(g, direction, path)
  }

  ghost predicate JoinedAll(g: Graph, direction: Direction, path: seq<Id>)
  {
    forall i :: 0 <= i < |path| - 1 ==> Joined(g, direction, path[i], path[i + 1])
  }

  /** An edge that starts, or when going against edges ends, at a node over at most `n` nodes. */
  ghost predicate Followed(g: Graph, direction: Direction, start: Id, e: Edge, n: nat)
  {
    && e in g.edges
    && match direction
       case Out => LedTo(g, direction, start, e.from, n)
       case In => LedTo(g, direction, start, e.to, n)
       case Both => LedTo(g, direction, start, e.from, n) || LedTo(g, direction, start, e.to, n)
  }

  lemma {:induction false} NextIff(g: Graph, direction: Direction, x: Id, y: Id)
    ensures y in Around(g, direction)(x) <==> Joined(g, direction, x, y)
  {
    var edges := Candidates(g.edges, direction, x);
    if y in Ends(x, edges) {
      var i :| 0 <= i < |edges| && Ends(x, edges)[i] == y;
      assert edges[i] in g.edges;
    }
    if Joined(g, direction, x, y) {
      var e :| e in g.edges && match direction
                               case Out => e.from == x && e.to == y
                               case In => e.from == y && e.to == x
                               case Both => (e.from == x && e.to == y) || (e.from == y && e.to == x);
      assert e in edges;
      var i :| 0 <= i < |edges| && edges[i] == e;
      assert Ends(x, edges)[i] in Ends(x, edges);
    }
  }

  lemma {:induction false} LedIff(g: Graph, direction: Direction, start: Id, x: Id, k: nat)
    ensures Within(Around(g, direction), {start}, x, k) <==> LedTo(g, direction, start, x, k + 1)
  {
    hide Within, Joined, Around;
    var nexts := Around(g, direction);
    WithinIff(nexts, {start}, x, k);
    forall path: seq<Id> ensures Steps(nexts, path) <==> JoinedAll(g, direction, path) {
      forall i | 0 <= i < |path| - 1 ensures path[i + 1] in nexts(path[i]) <==> Joined(g, direction, path[i], path[i + 1]) {
        NextIff(g, direction, path[i], path[i + 1]);
      }
    }
    if path :| |path| <= k + 1 && Leads(nexts, {start}, path, x) {
      assert JoinedAll(g, direction, path);
    }
    if path :| 1 <= |path| <= k + 1 && path[0] == start && path[|path| - 1] == x && JoinedAll(g, direction, path) {
      assert Leads(nexts, {start}, path, x);
    }
  }

  lemma {:induction false} TracedIff(g: Graph, direction: Direction, start: Id, limit: nat, e: Edge)
    ensures Traced(g, direction, start, limit, e) <==> Followed(g, direction, start, e, limit)
  {
    hide Within, LedTo, Around;
    var nexts := Around(g, direction);
    if limit > 0 {
      LedIff(g, direction, start, e.from, limit - 1);
      LedIff(g, direction, start, e.to, limit - 1);
    } else {
      NotLed(g, direction, start);
    }
    if Traced(g, direction, start, limit, e) {
      var x, k: nat :| Follows(direction, x, e) && k < limit && Distance(nexts, {start}, x, k);
      WithinMore(nexts, {start}, x, k, limit - 1);
    }
    if limit > 0 && Followed(g, direction, start, e, limit) {
      var x := if Follows(direction, e.from, e) && Within(nexts, {start}, e.from, limit - 1) then e.from else e.to;
      assert Follows(direction, x, e) && Within(nexts, {start}, x, limit - 1);
      var k := LeastSteps(nexts, {start}, x, limit - 1);
    }
  }

  lemma {:induction false} NotLed(g: Graph, direction: Direction, start: Id)
    ensures forall x :: !LedTo(g, direction, start, x, 0)
  {
  }

  lemma {:induction false} LeastSteps(nexts: Nexts, starts: set<Id>, x: Id, k: nat) returns (d: nat)
    requires Within(nexts, starts, x, k)
    ensures d <= k && Distance(nexts, starts, x, d)
    decreases k
  {
    if k > 0 && Within(nexts, starts, x, k - 1) {
      d := LeastSteps(nexts, starts, x, k - 1);
    } else {
      d := k;
    }
  }

  lemma {:induction false} TraceLed(g: Graph, direction: Direction, start: Id, limit: nat, visited: map<Id, nat>,
                                    traced: seq<Edge>)
    requires forall x :: x in visited <==> Within(Around(g, direction), {start}, x, limit)
    requires forall e :: e in traced <==> Traced(g, direction, start, limit, e)
    ensures forall x :: x in visited <==> LedTo(g, direction, start, x, limit + 1)
    ensures forall e :: e in traced <==> Followed(g, direction, start, e, limit)
  {
    hide Within, Traced, LedTo, Followed, Around;
    forall x ensures x in visited <==> LedTo(g, direction, start, x, limit + 1) {
      LedIff(g, direction, start, x, limit);
    }
    forall e ensures e in traced <==> Followed(g, direction, start, e, limit) {
      TracedIff(g, direction, start, limit, e);
    }
  }

  /**
   * `traceUnderstanding`, before its display order: precisely the nodes within the clamped depth
   * for the chosen direction, precisely the edges followed from nodes above the limit, and both
   * ends of every traced edge among the visited nodes.
   */
  method TraceUnderstanding(g: Graph, start: Id, requested: Option<int>, direction: Direction) returns (t: Trace)
    requires Valid(g) && start in g.nodes
    ensures requested == None ==> t.maxDepth == 3
    ensures requested.Some? ==>
              t.maxDepth == if requested.value <= 0 then 0 else if requested.value >= 12 then 12 else requested.value
    ensures forall n :: n in t.nodes <==> LedTo(g, direction, start, n, t.maxDepth + 1)
    ensures forall e :: e in t.edges <==> Followed(g, direction, start, e, t.maxDepth)
    ensures forall e :: e in t.edges ==> e.from in t.nodes && e.to in t.nodes
  {
    hide Within, Traced, Exploring, LedTo, Followed;
    var limit := Clamp(requested);
    var visited, traced := Walk(g, direction, start, limit);
    TraceExact(g, direction, start, limit, visited, traced);
    TraceLed(g, direction, start, limit, visited, traced);
    forall x | x in visited
      ensures x in g.nodes
    {
      WithinNodes(g, direction, start, x, limit);
    }
    t := Trace(Kept(g.nodes, visited), traced, limit);
  }

  lemma {:induction false} WithinNodes(g: Graph, direction: Direction, start: Id, x: Id, k: nat)
    requires Valid(g) && start in g.nodes && Within(Around(g, direction), {start}, x, k)
    ensures x in g.nodes
    decreases k
  {
    hide Follows;
    if k > 0 {
      if Within(Around(g, direction), {start}, x, k - 1) {
        WithinNodes(g, direction, start, x, k - 1);
      } else {
        var y :| Within(Around(g, direction), {start}, y, k - 1) && x in Around(g, direction)(y);
        var e := FromCandidate(g, direction, y, x);
        assert e in g.edges;
      }
    }
  }
}
