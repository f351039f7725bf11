/** What a breadth-first queue knows: shared by the two traversals of the repository. */
module BreadthFirst {
  import opened Wrappers

  type Id = string

  /** The neighbours the traversal steps to. */
  type Nexts = Id -> seq<Id>

  /** `x` can be reached from `starts` in at most `k` steps. */
  ghost predicate Within(nexts: Nexts, starts: set<Id>, x: Id, k: nat)
    decreases k
  {
    if k == 0 then x in starts
    else Within(nexts, starts, x, k - 1) || exists y :: Within(nexts, starts, y, k - 1) && x in nexts(y)
  }

  /** The least number of steps to `x` is `k`. */
  ghost predicate Distance(nexts: Nexts, starts: set<Id>, x: Id, k: nat)
  {
    Within(nexts, starts, x, k) && (k > 0 ==> !Within(nexts, starts, x, k - 1))
  }

  ghost predicate Reachable(nexts: Nexts, starts: set<Id>, x: Id) { exists k: nat :: Within(nexts, starts, x, k) }

  lemma {:induction false} WithinMore(nexts: Nexts, starts: set<Id>, x: Id, j: nat, k: nat)
    requires Within(nexts, starts, x, j) && j <= k
    ensures Within(nexts, starts, x, k)
    decreases k - j
  {
    if j < k {
      WithinMore(nexts, starts, x, j + 1, k);
    }
  }

  /** Each node of `path` is a neighbour of the one before it. */
  ghost predicate Steps(nexts: Nexts, path: seq<Id>) { forall i :: 0 <= i < |path| - 1 ==> path[i + 1] in nexts(path[i]) }

  /** `path` leads from one of `starts` to `x`. */
  ghost predicate Leads(nexts: Nexts, starts: set<Id>, path: seq<Id>, x: Id)
  {
    path != [] && path[0] in starts && path[|path| - 1] == x && Steps(nexts, path)
  }

  /** What can be reached in `k` steps is what a path of at most `k` steps leads to. */
  lemma {:induction false} WithinIff(nexts: Nexts, starts: set<Id>, x: Id, k: nat)
    ensures Within(nexts, starts, x, k) <==> exists path :: |path| <= k + 1 && Leads(nexts, starts, path, x)
    decreases k
  {
    if Within(nexts, starts, x, k) {
      PathWithin(nexts, starts, x, k);
    }
    if path :| |path| <= k + 1 && Leads(nexts, starts, path, x) {
      LedWithin(nexts, starts, path, x, |path| - 1);
      WithinMore(nexts, starts, x, |path| - 1, k);
    }
  }

  lemma {:induction false} PathWithin(nexts: Nexts, starts: set<Id>, x: Id, k: nat)
    requires Within(nexts, starts, x, k)
    ensures exists path :: |path| <= k + 1 && Leads(nexts, starts, path, x)
    decreases k
  {
    if k == 0 {
      assert Leads(nexts, starts, [x], x);
    } else if Within(nexts, starts, x, k - 1) {
      PathWithin(nexts, starts, x, k - 1);
    } else {
      var y :| Within(nexts, starts, y, k - 1) && x in nexts(y);
      PathWithin(nexts, starts, y, k - 1);
      var path :| |path| <= k && Leads(nexts, starts, path, y);
      assert Leads(nexts, starts, path + [x], x);
    }
  }

  lemma {:induction false} LedWithin(nexts: Nexts, starts: set<Id>, path: seq<Id>, x: Id, k: nat)
    requires Leads(nexts, starts, path, x) && |path| == k + 1
    ensures Within(nexts, starts, x, k)
    decreases k
  {
    if k > 0 {
      LedWithin(nexts, starts, path[..k], path[k - 1], k - 1);
    }
  }

  /** A node at depth `d` is stepped from. */
  predicate Open(limit: Option<nat>, d: nat) { limit.None? || d < limit.value }

  /** Everything seen has a depth that is really reached, and a start has depth 0. */
  ghost predicate Sound(nexts: Nexts, starts: set<Id>, depth: map<Id, nat>)
  {
    && (forall x :: x in starts ==> x in depth && depth[x] == 0)
    && (forall x :: x in depth ==> Within(nexts, starts, x, depth[x]))
  }

  /** All neighbours of `x` are seen, at most one deeper. */
  ghost predicate Expanded(nexts: Nexts, depth: map<Id, nat>, x: Id)
    requires x in depth
  {
    forall y :: y in nexts(x) ==> y in depth && depth[y] <= depth[x] + 1
  }

  /** The queue is ordered by depth, nothing is deeper than one below `d`, and nothing queued is above it. */
  ghost predicate Ordered(depth: map<Id, nat>, queue: seq<Id>, d: nat)
  {
    && (forall i :: 0 <= i < |queue| ==> queue[i] in depth && d <= depth[queue[i]])
    && (forall i, j :: 0 <= i < j < |queue| ==> depth[queue[i]] <= depth[queue[j]])
    && (forall x :: x in depth ==> depth[x] <= d + 1)
  }

  /** What is seen, open and no longer queued is expanded, `current` aside. */
  ghost predicate Settled(nexts: Nexts, limit: Option<nat>, depth: map<Id, nat>, queue: seq<Id>, current: set<Id>)
  {
    forall x :: x in depth && x !in queue && x !in current && Open(limit, depth[x]) ==> Expanded(nexts, depth, x)
  }

  /** Between two turns of the outer loop. */
  ghost predicate Exploring(nexts: Nexts, starts: set<Id>, limit: Option<nat>, depth: map<Id, nat>, queue: seq<Id>)
  {
    && Sound(nexts, starts, depth)
    && (queue != [] ==> queue[0] in depth && Ordered(depth, queue, depth[queue[0]]))
    && Settled(nexts, limit, depth, queue, {})
  }

  /** While `x` is being expanded. */
  ghost predicate Expanding(nexts: Nexts, starts: set<Id>, limit: Option<nat>, depth: map<Id, nat>, queue: seq<Id>, x: Id)
  {
    && Sound(nexts, starts, depth) && x in depth && Ordered(depth, queue, depth[x])
    && Settled(nexts, limit, depth, queue, {x})
  }

  lemma {:induction false} Begin(nexts: Nexts, starts: set<Id>, limit: Option<nat>, depth: map<Id, nat>, queue: seq<Id>)
    requires depth.Keys == starts && (forall x :: x in starts ==> depth[x] == 0 && x in queue)
    requires forall x :: x in queue ==> x in starts
    ensures Exploring(nexts, starts, limit, depth, queue)
  {
  }

  lemma {:induction false} Dequeue(nexts: Nexts, starts: set<Id>, limit: Option<nat>, depth: map<Id, nat>, queue: seq<Id>)
    requires Exploring(nexts, starts, limit, depth, queue) && queue != []
    ensures Expanding(nexts, starts, limit, depth, queue[1..], queue[0])
  {
    hide Within, Expanded, Open;
    assert forall x :: x in queue ==> x == queue[0] || x in queue[1..];
  }

  /** A new neighbour goes to the end of the queue, one deeper. */
  lemma {:induction false} Discover(nexts: Nexts, starts: set<Id>, limit: Option<nat>, depth: map<Id, nat>, queue: seq<Id>,
                                    x: Id, y: Id, d: nat)
    requires Expanding(nexts, starts, limit, depth, queue, x) && y in nexts(x) && y !in depth && d == depth[x] + 1
    ensures Expanding(nexts, starts, limit, depth[y := d], queue + [y], x)
  {
    var deeper, longer := depth[y := d], queue + [y];
    assert Within(nexts, starts, x, depth[x]);
    forall z | z in deeper && z !in longer && z != x && Open(limit, deeper[z])
      ensures Expanded(nexts, deeper, z)
    {
      assert y in longer && forall q :: q in queue ==> q in longer;
      assert Expanded(nexts, depth, z);
    }
  }

  /** When all its neighbours are seen, or it is too deep, `x` is done. */
  lemma {:induction false} Finish(nexts: Nexts, starts: set<Id>, limit: Option<nat>, depth: map<Id, nat>, queue: seq<Id>, x: Id)
    requires Expanding(nexts, starts, limit, depth, queue, x)
    requires Open(limit, depth[x]) ==> forall y :: y in nexts(x) ==> y in depth
    ensures Exploring(nexts, starts, limit, depth, queue)
  {
    assert Open(limit, depth[x]) ==> Expanded(nexts, depth, x);
    if queue != [] {
      assert queue[0] in queue;
    }
  }

  lemma {:induction false} Complete(nexts: Nexts, starts: set<Id>, limit: Option<nat>, depth: map<Id, nat>, x: Id, k: nat)
    requires Exploring(nexts, starts, limit, depth, []) && Within(nexts, starts, x, k)
    requires limit.Some? ==> k <= limit.value
    ensures x in depth && depth[x] <= k
    decreases k
  {
    hide Expanded;
    if k > 0 {
      if Within(nexts, starts, x, k - 1) {
        Complete(nexts, starts, limit, depth, x, k - 1);
      } else {
        var y :| Within(nexts, starts, y, k - 1) && x in nexts(y);
        Complete(nexts, starts, limit, depth, y, k - 1);
        ExpandedStep(nexts, depth, y, x);
      }
    }
  }

  lemma {:induction false} ExpandedStep(nexts: Nexts, depth: map<Id, nat>, y: Id, x: Id)
    requires y in depth && Expanded(nexts, depth, y) && x in nexts(y)
    ensures x in depth && depth[x] <= depth[y] + 1
  {
  }

  /** When the queue has run empty the depths are the distances, and what is seen is what is within the limit. */
  lemma {:induction false} Exact(nexts: Nexts, starts: set<Id>, limit: Option<nat>, depth: map<Id, nat>)
    requires Exploring(nexts, starts, limit, depth, [])
    requires limit.Some? ==> forall x :: x in depth ==> depth[x] <= limit.value
    ensures forall x :: x in depth ==> Distance(nexts, starts, x, depth[x])
    ensures limit.None? ==> forall x :: Reachable(nexts, starts, x) ==> x in depth
    ensures limit.Some? ==> forall x :: Within(nexts, starts, x, limit.value) ==> x in depth
  {
    hide Within;
    forall x | x in depth
      ensures Distance(nexts, starts, x, depth[x])
    {
      if depth[x] > 0 && Within(nexts, starts, x, depth[x] - 1) {
        Complete(nexts, starts, limit, depth, x, depth[x] - 1);
      }
    }
    forall x, k: nat | Within(nexts, starts, x, k) && (limit.Some? ==> k <= limit.value)
      ensures x in depth
    {
      Complete(nexts, starts, limit, depth, x, k);
    }
  }
}
