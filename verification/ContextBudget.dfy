/** `trimToBudget`: which slices of the required and the other files a package keeps. */
module ContextBudget {
  import opened Wrappers

  // First one small anchor for every required path, then richer slices, within a byte budget and a
  // file budget. Exactly when every required path gets a place.

  /** A slice; `anchorBytes` is the size of its first twelve lines. Different slices have different identities. */
  datatype Slice = Slice(id: nat, path: string, bytes: nat, anchorBytes: nat, startLine: nat, required: bool)

  /** The slices of one path. */
  datatype Group = Group(path: string, rows: seq<Slice>)

  datatype Kept = Kept(id: nat, path: string, bytes: nat)

  /** The local variables of the allocator. */
  datatype Budget = Budget(keep: seq<Kept>, used: nat, files: nat, rows: set<nat>, paths: set<string>)

  /** What the candidates are: grouped by path, no group empty, and an anchor no larger than its slice. */
  ghost predicate WellGrouped(groups: seq<Group>)
  {
    && (forall i, j :: 0 <= i < j < |groups| ==> groups[i].path != groups[j].path)
    && (forall i :: 0 <= i < |groups| ==> WellFormed(groups[i]))
    && (forall i, j, x, y ::
          (0 <= i < |groups| && 0 <= j < |groups| && x in groups[i].rows && y in groups[j].rows && x.id == y.id) ==> x == y)
  }

  ghost predicate WellFormed(g: Group)
  {
    g.rows != [] && forall x :: x in g.rows ==> x.path == g.path && x.anchorBytes <= x.bytes
  }

  predicate Required(g: Group) { exists x :: x in g.rows && x.required }

  /** The first slice in order of size and start line. */
  function Smallest(rows: seq<Slice>): (r: Slice)
    requires rows != []
    ensures r in rows
    ensures forall x :: x in rows ==> r.bytes < x.bytes || (r.bytes == x.bytes && r.startLine <= x.startLine)
  {
    if |rows| == 1 then rows[0]
    else
      var other := Smallest(rows[1..]);
      if other.bytes < rows[0].bytes || (other.bytes == rows[0].bytes && other.startLine < rows[0].startLine) then other
      else rows[0]
  }

  function Anchor(g: Group): nat
    requires g.rows != []
  {
    Smallest(g.rows).anchorBytes
  }

  function Sum(keep: seq<Kept>): nat
  {
    if keep == [] then 0 else Sum(keep[..|keep| - 1]) + keep[|keep| - 1].bytes
  }

  // ---- what the allocator keeps at every step -----------------------------------------------------

  /** `rows` are the kept slices. */
  ghost predicate RowsExact(b: Budget) { forall id :: id in b.rows ==> exists k :: k in b.keep && k.id == id }

  /** `paths` are the distinct kept paths, and every kept slice is in `rows`. */
  ghost predicate PathsExact(b: Budget)
  {
    && (forall p :: p in b.paths ==> exists k :: k in b.keep && k.path == p)
    && (forall k :: k in b.keep ==> k.path in b.paths && k.id in b.rows)
  }

  ghost predicate KeptOnce(keep: seq<Kept>)
  {
    forall i, j :: 0 <= i < j < |keep| ==> keep[i].id != keep[j].id
  }

  /** The running totals are exact and within the budgets, and no slice is kept twice. */
  ghost predicate Exact(b: Budget, maxBytes: nat, maxFiles: nat)
  {
    && b.used == Sum(b.keep) <= maxBytes
    && b.files == |b.paths| <= maxFiles
    && PathsExact(b) && RowsExact(b) && KeptOnce(b.keep)
  }

  /** One more slice of a path that is already there or for which there is room. */
  function Keep(b: Budget, k: Kept): Budget
  {
    Budget(b.keep + [k], b.used + k.bytes, if k.path in b.paths then b.files else b.files + 1, b.rows + {k.id},
           b.paths + {k.path})
  }

  lemma {:induction false} SumMore(keep: seq<Kept>, k: Kept)
    ensures Sum(keep + [k]) == Sum(keep) + k.bytes
  {
    assert (keep + [k])[..|keep|] == keep;
  }

  lemma {:induction false} KeepExact(b: Budget, k: Kept, maxBytes: nat, maxFiles: nat)
    requires Exact(b, maxBytes, maxFiles) && k.id !in b.rows && b.used + k.bytes <= maxBytes
    requires k.path in b.paths || b.files < maxFiles
    ensures Exact(Keep(b, k), maxBytes, maxFiles)
  {
    hide Sum, PathsExact, RowsExact, KeptOnce, Keep;
    KeepTotals(b, k, maxBytes, maxFiles);
    KeepPaths(b, k);
    KeepRows(b, k);
    KeepOnce(b, k);
  }

  lemma {:induction false} KeepTotals(b: Budget, k: Kept, maxBytes: nat, maxFiles: nat)
    requires b.used == Sum(b.keep) && b.files == |b.paths| <= maxFiles && b.used + k.bytes <= maxBytes
    requires k.path in b.paths || b.files < maxFiles
    ensures var r := Keep(b, k); r.used == Sum(r.keep) <= maxBytes && r.files == |r.paths| <= maxFiles
  {
    hide Sum;
    SumMore(b.keep, k);
    assert k.path in b.paths ==> b.paths + {k.path} == b.paths;
  }

  lemma {:induction false} KeepPaths(b: Budget, k: Kept)
    requires PathsExact(b)
    ensures PathsExact(Keep(b, k))
  {
    var r := Keep(b, k);
    assert k in r.keep;
    forall p | p in r.paths
      ensures exists x :: x in r.keep && x.path == p
    {
      if p in b.paths {
        var x :| x in b.keep && x.path == p;
        assert x in r.keep;
      }
    }
  }

  lemma {:induction false} KeepRows(b: Budget, k: Kept)
    requires RowsExact(b)
    ensures RowsExact(Keep(b, k))
  {
    var r := Keep(b, k);
    assert k in r.keep;
    forall id | id in r.rows
      ensures exists x :: x in r.keep && x.id == id
    {
      if id in b.rows {
        var x :| x in b.keep && x.id == id;
        assert x in r.keep;
      }
    }
  }

  lemma {:induction false} KeepOnce(b: Budget, k: Kept)
    requires PathsExact(b) && KeptOnce(b.keep) && k.id !in b.rows
    ensures KeptOnce(Keep(b, k).keep)
  {
    forall i | 0 <= i < |b.keep|
      ensures b.keep[i].id != k.id
    {
      assert b.keep[i] in b.keep;
    }
  }

  // ---- what is needed for the required paths --------------------------------------------------------

  function AnchorTotal(groups: seq<Group>): nat
    requires forall i :: 0 <= i < |groups| ==> groups[i].rows != []
  {
    if groups == [] then 0
    else
      var last := groups[|groups| - 1];
      AnchorTotal(groups[..|groups| - 1]) + if Required(last) then Anchor(last) else 0
  }

  function RequiredCount(groups: seq<Group>): nat
  {
    if groups == [] then 0
    else RequiredCount(groups[..|groups| - 1]) + if Required(groups[|groups| - 1]) then 1 else 0
  }

  /** All required anchors fit together, in bytes and in number. */
  predicate AnchorsFit(groups: seq<Group>, maxBytes: nat, maxFiles: nat)
    requires forall i :: 0 <= i < |groups| ==> groups[i].rows != []
  {
    AnchorTotal(groups) <= maxBytes && RequiredCount(groups) <= maxFiles
  }

  /** Every required path among `groups` has a place. */
  ghost predicate AllThere(b: Budget, groups: seq<Group>)
  {
    forall i :: 0 <= i < |groups| && Required(groups[i]) ==> groups[i].path in b.paths
  }

  /** The group was turned away, and stays turned away: there is no room for its anchor. */
  predicate Blocked(b: Budget, g: Group, maxBytes: nat, maxFiles: nat)
    requires g.rows != []
  {
    b.files >= maxFiles || b.used + Anchor(g) > maxBytes
  }

  ghost predicate MissingBlocked(b: Budget, groups: seq<Group>, maxBytes: nat, maxFiles: nat)
    requires forall i :: 0 <= i < |groups| ==> groups[i].rows != []
  {
    forall i :: 0 <= i < |groups| && Required(groups[i]) && groups[i].path !in b.paths ==>
      Blocked(b, groups[i], maxBytes, maxFiles)
  }

  /** Only anchors of `groups` were taken. */
  ghost predicate FromGroups(b: Budget, groups: seq<Group>)
    requires forall i :: 0 <= i < |groups| ==> groups[i].rows != []
  {
    && (forall p :: p in b.paths ==> exists i :: 0 <= i < |groups| && groups[i].path == p)
    && (forall id :: id in b.rows ==> exists i :: 0 <= i < |groups| && Smallest(groups[i].rows).id == id)
  }

  /** The first phase after `groups`. */
  ghost predicate Anchored(b: Budget, groups: seq<Group>, maxBytes: nat, maxFiles: nat)
    requires forall i :: 0 <= i < |groups| ==> groups[i].rows != []
  {
    && Exact(b, maxBytes, maxFiles)
    && FromGroups(b, groups)
    && MissingBlocked(b, groups, maxBytes, maxFiles)
    && (AllThere(b, groups) ==> b.used == AnchorTotal(groups) && b.files == RequiredCount(groups))
    && (AnchorsFit(groups, maxBytes, maxFiles) ==> AllThere(b, groups))
  }

  ghost predicate NoneEmpty(groups: seq<Group>) { forall i :: 0 <= i < |groups| ==> groups[i].rows != [] }

  lemma {:induction false} Totals(gs: seq<Group>, g: Group)
    requires NoneEmpty(gs + [g])
    ensures NoneEmpty(gs) && g.rows != []
    ensures AnchorTotal(gs + [g]) == AnchorTotal(gs) + if Required(g) then Anchor(g) else 0
    ensures RequiredCount(gs + [g]) == RequiredCount(gs) + if Required(g) then 1 else 0
  {
    assert (gs + [g])[..|gs|] == gs;
    assert forall i :: 0 <= i < |gs| ==> gs[i] == (gs + [g])[i];
    assert (gs + [g])[|gs|] == g;
  }

  /** A group whose anchor is not taken. */
  lemma {:induction false} Skipped(b: Budget, gs: seq<Group>, g: Group, maxBytes: nat, maxFiles: nat)
    requires NoneEmpty(gs + [g]) && NoneEmpty(gs) && Anchored(b, gs, maxBytes, maxFiles)
    requires forall i :: 0 <= i < |gs| ==> gs[i].path != g.path
    requires Required(g) ==> Blocked(b, g, maxBytes, maxFiles)
    ensures Anchored(b, gs + [g], maxBytes, maxFiles)
  {
    hide Required, Exact, Smallest, AnchorTotal, RequiredCount, Anchor;
    var all := gs + [g];
    Totals(gs, g);
    assert all[|gs|] == g && forall i :: 0 <= i < |gs| ==> all[i] == gs[i];
    assert AllThere(b, all) ==> AllThere(b, gs);
    assert Required(g) ==> !AllThere(b, all);
    forall p | p in b.paths
      ensures exists i :: 0 <= i < |all| && all[i].path == p
    {
      var i :| 0 <= i < |gs| && gs[i].path == p;
      assert all[i].path == p;
    }
    forall id | id in b.rows
      ensures exists i :: 0 <= i < |all| && Smallest(all[i].rows).id == id
    {
      var i :| 0 <= i < |gs| && Smallest(gs[i].rows).id == id;
      assert Smallest(all[i].rows).id == id;
    }
  }

  lemma {:induction false} TakenListed(b: Budget, gs: seq<Group>, g: Group, k: Kept)
    requires NoneEmpty(gs + [g]) && NoneEmpty(gs) && g.rows != []
    requires forall p :: p in b.paths ==> exists i :: 0 <= i < |gs| && gs[i].path == p
    requires forall id :: id in b.rows ==> exists i :: 0 <= i < |gs| && Smallest(gs[i].rows).id == id
    requires k == Kept(Smallest(g.rows).id, g.path, Anchor(g))
    ensures forall p :: p in Keep(b, k).paths ==> exists i :: 0 <= i < |gs + [g]| && (gs + [g])[i].path == p
    ensures forall id :: id in Keep(b, k).rows ==> exists i :: 0 <= i < |gs + [g]| && Smallest((gs + [g])[i].rows).id == id
  {
    hide Smallest, Anchor;
    var all, r := gs + [g], Keep(b, k);
    assert all[|gs|] == g && forall i :: 0 <= i < |gs| ==> all[i] == gs[i];
    forall p | p in r.paths
      ensures exists i :: 0 <= i < |all| && all[i].path == p
    {
      if p == g.path {
        assert all[|gs|].path == p;
      } else {
        var i :| 0 <= i < |gs| && gs[i].path == p;
        assert all[i].path == p;
      }
    }
    forall id | id in r.rows
      ensures exists i :: 0 <= i < |all| && Smallest(all[i].rows).id == id
    {
      if id == k.id {
        assert Smallest(all[|gs|].rows).id == id;
      } else {
        var i :| 0 <= i < |gs| && Smallest(gs[i].rows).id == id;
        assert Smallest(all[i].rows).id == id;
      }
    }
  }

  /** A group whose anchor is taken. */
  lemma {:induction false} Taken(b: Budget, gs: seq<Group>, g: Group, k: Kept, maxBytes: nat, maxFiles: nat)
    requires NoneEmpty(gs + [g]) && NoneEmpty(gs) && g.rows != [] && Anchored(b, gs, maxBytes, maxFiles)
    requires forall i :: 0 <= i < |gs| ==> gs[i].path != g.path && Smallest(gs[i].rows).id != Smallest(g.rows).id
    requires Required(g) && b.files < maxFiles && b.used + Anchor(g) <= maxBytes
    requires k == Kept(Smallest(g.rows).id, g.path, Anchor(g))
    ensures Anchored(Keep(b, k), gs + [g], maxBytes, maxFiles)
  {
    hide Required, Exact, Smallest, AnchorTotal, RequiredCount, Anchor, MissingBlocked;
    var all, r := gs + [g], Keep(b, k);
    Totals(gs, g);
    KeepExact(b, k, maxBytes, maxFiles);
    assert all[|gs|] == g && forall i :: 0 <= i < |gs| ==> all[i] == gs[i];
    TakenThere(b, gs, g, k);
    TakenListed(b, gs, g, k);
    TakenBlocked(b, gs, g, k, maxBytes, maxFiles);
  }

  lemma {:induction false} TakenBlocked(b: Budget, gs: seq<Group>, g: Group, k: Kept, maxBytes: nat, maxFiles: nat)
    requires NoneEmpty(gs + [g]) && NoneEmpty(gs) && k.path == g.path && MissingBlocked(b, gs, maxBytes, maxFiles)
    ensures MissingBlocked(Keep(b, k), gs + [g], maxBytes, maxFiles)
  {
    hide Required, Anchor;
    var all, r := gs + [g], Keep(b, k);
    assert all[|gs|] == g && forall i :: 0 <= i < |gs| ==> all[i] == gs[i];
    forall i | 0 <= i < |all| && Required(all[i]) && all[i].path !in r.paths
      ensures Blocked(r, all[i], maxBytes, maxFiles)
    {
      assert i < |gs| && Blocked(b, gs[i], maxBytes, maxFiles);
    }
  }

  lemma {:induction false} TakenThere(b: Budget, gs: seq<Group>, g: Group, k: Kept)
    requires k.path == g.path && forall i :: 0 <= i < |gs| ==> gs[i].path != g.path
    ensures AllThere(Keep(b, k), gs + [g]) <==> AllThere(b, gs)
  {
    hide Required;
    var all, r := gs + [g], Keep(b, k);
    assert all[|gs|] == g && forall i :: 0 <= i < |gs| ==> all[i] == gs[i];
    if AllThere(r, all) {
      forall i | 0 <= i < |gs| && Required(gs[i])
        ensures gs[i].path in b.paths
      {
        assert Required(all[i]);
      }
    }
  }

  /** What is kept are the anchors of the required groups at some places, in order. */
  ghost predicate AnchorsAt(groups: seq<Group>, keep: seq<Kept>, at: seq<nat>)
    requires NoneEmpty(groups)
  {
    && |at| == |keep| && (forall i, j :: 0 <= i < j < |at| ==> at[i] < at[j])
    && forall k :: 0 <= k < |at| ==>
         && at[k] < |groups| && Required(groups[at[k]])
         && keep[k] == Kept(Smallest(groups[at[k]].rows).id, groups[at[k]].path, Anchor(groups[at[k]]))
  }

  /** The first phase: one anchor for every declared binding, as long as there is room. */
  method KeepAnchors(groups: seq<Group>, maxBytes: nat, maxFiles: nat) returns (b: Budget, ghost at: seq<nat>)
    requires WellGrouped(groups) && NoneEmpty(groups)
    ensures Anchored(b, groups, maxBytes, maxFiles)
    ensures AnchorsAt(groups, b.keep, at)
  {
    hide Anchored, Required, Smallest, Anchor, WellFormed;
    b, at := Budget([], 0, 0, {}, {}), [];
    NothingKept(maxBytes, maxFiles);
    for i := 0 to |groups|
      invariant NoneEmpty(groups[..i])
      invariant Anchored(b, groups[..i], maxBytes, maxFiles)
      invariant AnchorsAt(groups, b.keep, at) && forall k :: 0 <= k < |at| ==> at[k] < i
    {
      var g := groups[i];
      assert groups[..i + 1] == groups[..i] + [g];
      OtherGroups(groups, i);
      if !Required(g) || b.files >= maxFiles || b.used + Anchor(g) > maxBytes {
        Skipped(b, groups[..i], g, maxBytes, maxFiles);
        continue;
      }
      var k := Kept(Smallest(g.rows).id, g.path, Anchor(g));
      Taken(b, groups[..i], g, k, maxBytes, maxFiles);
      b, at := Keep(b, k), at + [i];
    }
    assert groups[..|groups|] == groups;
  }

  lemma {:induction false} NothingKept(maxBytes: nat, maxFiles: nat)
    ensures Anchored(Budget([], 0, 0, {}, {}), [], maxBytes, maxFiles)
  {
  }

  lemma {:induction false} OtherGroups(groups: seq<Group>, i: nat)
    requires WellGrouped(groups) && NoneEmpty(groups) && i < |groups|
    ensures NoneEmpty(groups[..i]) && NoneEmpty(groups[..i] + [groups[i]])
    ensures forall k :: 0 <= k < |groups[..i]| ==>
              groups[..i][k].path != groups[i].path && Smallest(groups[..i][k].rows).id != Smallest(groups[i].rows).id
  {
    hide Smallest;
    forall k | 0 <= k < i
      ensures groups[k].path != groups[i].path && Smallest(groups[k].rows).id != Smallest(groups[i].rows).id
    {
      assert WellFormed(groups[k]) && WellFormed(groups[i]);
    }
  }

  // ---- the second phase ------------------------------------------------------------------------------

  /** Between two slices of the second phase, compared with the end of the first. */
  ghost predicate Enriching(start: Budget, b: Budget, groups: seq<Group>, maxBytes: nat, maxFiles: nat)
    requires NoneEmpty(groups)
  {
    && Exact(b, maxBytes, maxFiles) && MissingBlocked(b, groups, maxBytes, maxFiles)
    && start.used <= b.used && start.files <= b.files && start.paths <= b.paths
    && (forall i :: 0 <= i < |groups| && Required(groups[i]) && groups[i].path in b.paths ==> groups[i].path in start.paths)
  }

  lemma {:induction false} SameGroup(groups: seq<Group>, i: nat, g: Group)
    requires WellGrouped(groups) && i < |groups| && g in groups && groups[i].path == g.path
    ensures groups[i] == g
  {
  }

  /** A required path with a slice that still fits has its place already: its anchor would have fitted. */
  lemma {:induction false} RoomMeansThere(b: Budget, groups: seq<Group>, g: Group, x: Slice, maxBytes: nat, maxFiles: nat)
    requires NoneEmpty(groups) && WellGrouped(groups) && g in groups && x in g.rows
    requires MissingBlocked(b, groups, maxBytes, maxFiles) && b.used + x.bytes <= maxBytes
    requires g.path in b.paths || b.files < maxFiles
    ensures Required(g) ==> g.path in b.paths
  {
    hide Required, Smallest;
    var i :| 0 <= i < |groups| && groups[i] == g;
    assert WellFormed(g);
    AnchorSmall(g, x);
  }

  lemma {:induction false} AnchorSmall(g: Group, x: Slice)
    requires WellFormed(g) && x in g.rows
    ensures Anchor(g) <= x.bytes
  {
  }

  /** A slice of a group for which there is room never gives a missing required path a place. */
  lemma {:induction false} Enriched(start: Budget, b: Budget, groups: seq<Group>, g: Group, x: Slice, k: Kept, maxBytes: nat,
                                    maxFiles: nat)
    requires NoneEmpty(groups) && WellGrouped(groups) && g in groups && x in g.rows && k == Kept(x.id, g.path, x.bytes)
    requires Enriching(start, b, groups, maxBytes, maxFiles) && x.id !in b.rows && b.used + x.bytes <= maxBytes
    requires g.path in b.paths || b.files < maxFiles
    ensures Enriching(start, Keep(b, k), groups, maxBytes, maxFiles)
  {
    hide Required, Exact, Smallest;
    KeepExact(b, k, maxBytes, maxFiles);
    RoomMeansThere(b, groups, g, x, maxBytes, maxFiles);
    var r := Keep(b, k);
    forall i | 0 <= i < |groups| && Required(groups[i]) && groups[i].path in r.paths
      ensures groups[i].path in start.paths
    {
      if groups[i].path == g.path {
        SameGroup(groups, i, g);
      }
    }
    forall i | 0 <= i < |groups| && Required(groups[i]) && groups[i].path !in r.paths
      ensures Blocked(r, groups[i], maxBytes, maxFiles)
    {
      assert Blocked(b, groups[i], maxBytes, maxFiles);
    }
  }

  /** `ranked`: the slices of a path by priority, of which only the reordering matters. */
  type Rank = seq<Slice> -> seq<Slice>

  ghost predicate OnlyReorders(rank: Rank) { forall rows, x :: x in rank(rows) <==> x in rows }

  /** A place in the second phase: a group and a rank within it; they are visited in this order. */
  type Place = (nat, nat)

  predicate Before(p: Place, q: Place) { p.0 < q.0 || (p.0 == q.0 && p.1 < q.1) }

  predicate IsPlace(groups: seq<Group>, rank: Rank, p: Place) { p.0 < |groups| && p.1 < |rank(groups[p.0].rows)| }

  function SliceAt(groups: seq<Group>, rank: Rank, p: Place): Slice
    requires IsPlace(groups, rank, p)
  {
    rank(groups[p.0].rows)[p.1]
  }

  /** After the anchors, the whole slices at some places are kept, in the order of the places. */
  ghost predicate WholeAt(groups: seq<Group>, rank: Rank, anchors: seq<Kept>, keep: seq<Kept>, at: seq<Place>)
  {
    && |keep| == |anchors| + |at| && keep[..|anchors|] == anchors
    && (forall i, j :: 0 <= i < j < |at| ==> Before(at[i], at[j]))
    && forall k :: 0 <= k < |at| ==>
         && IsPlace(groups, rank, at[k])
         && keep[|anchors| + k] == Kept(SliceAt(groups, rank, at[k]).id, groups[at[k].0].path, SliceAt(groups, rank, at[k]).bytes)
  }

  /** The slice is kept, or too large for the bytes that are left. */
  predicate Settled(b: Budget, x: Slice, maxBytes: nat) { x.id in b.rows || b.used + x.bytes > maxBytes }

  /** At `cut` a slice took the last place for a file: the slices of its path that rank after it were not looked at. */
  predicate CutOff(cut: Option<Place>, p: Place) { cut.Some? && p.0 == cut.value.0 && p.1 > cut.value.1 }

  ghost predicate SettledBefore(b: Budget, groups: seq<Group>, rank: Rank, maxBytes: nat, q: Place, cut: Option<Place>)
  {
    forall p: Place :: IsPlace(groups, rank, p) && Before(p, q) && !CutOff(cut, p) ==>
      Settled(b, SliceAt(groups, rank, p), maxBytes)
  }

  /** The second phase up to a place. */
  ghost predicate Walked(start: Budget, b: Budget, groups: seq<Group>, rank: Rank, maxBytes: nat, maxFiles: nat, q: Place,
                         at: seq<Place>, cut: Option<Place>)
  {
    && WholeAt(groups, rank, start.keep, b.keep, at) && (forall k :: 0 <= k < |at| ==> Before(at[k], q))
    && SettledBefore(b, groups, rank, maxBytes, q, cut)
    && (cut.Some? ==> b.files >= maxFiles && cut.value in at && forall k :: 0 <= k < |at| ==> !CutOff(cut, at[k]))
  }

  lemma {:induction false} WalkedNothing(b: Budget, groups: seq<Group>, rank: Rank, maxBytes: nat, maxFiles: nat)
    ensures Walked(b, b, groups, rank, maxBytes, maxFiles, (0, 0), [], None)
  {
  }

  /** A slice that is kept already or does not fit is passed over. */
  lemma {:induction false} WalkedOver(start: Budget, b: Budget, groups: seq<Group>, rank: Rank, maxBytes: nat, maxFiles: nat,
                                      p: Place, next: Place, at: seq<Place>, cut: Option<Place>)
    requires Walked(start, b, groups, rank, maxBytes, maxFiles, p, at, cut) && IsPlace(groups, rank, p)
    requires Settled(b, SliceAt(groups, rank, p), maxBytes) && next == (p.0, p.1 + 1)
    ensures Walked(start, b, groups, rank, maxBytes, maxFiles, next, at, cut)
  {
    forall q: Place | IsPlace(groups, rank, q) && Before(q, next) && !CutOff(cut, q)
      ensures Settled(b, SliceAt(groups, rank, q), maxBytes)
    {
      if !Before(q, p) {
        assert q == p;
      }
    }
  }

  /** A slice that is kept. */
  lemma {:induction false} WalkedOn(start: Budget, b: Budget, k: Kept, groups: seq<Group>, rank: Rank, maxBytes: nat,
                                    maxFiles: nat, p: Place, next: Place, at: seq<Place>, cut: Option<Place>)
    requires Walked(start, b, groups, rank, maxBytes, maxFiles, p, at, cut) && IsPlace(groups, rank, p)
    requires k == Kept(SliceAt(groups, rank, p).id, groups[p.0].path, SliceAt(groups, rank, p).bytes)
    requires next == (p.0, p.1 + 1) && !CutOff(cut, p)
    ensures Walked(start, Keep(b, k), groups, rank, maxBytes, maxFiles, next, at + [p], cut)
  {
    var r := Keep(b, k);
    forall q: Place | IsPlace(groups, rank, q) && Before(q, next) && !CutOff(cut, q)
      ensures Settled(r, SliceAt(groups, rank, q), maxBytes)
    {
      if Before(q, p) {
        assert Settled(b, SliceAt(groups, rank, q), maxBytes);
      } else {
        assert q == p;
      }
    }
    KeptWhole(groups, rank, start.keep, b.keep, at, p, k);
  }

  lemma {:induction false} KeptWhole(groups: seq<Group>, rank: Rank, anchors: seq<Kept>, keep: seq<Kept>, at: seq<Place>,
                                     p: Place, k: Kept)
    requires WholeAt(groups, rank, anchors, keep, at) && IsPlace(groups, rank, p)
    requires forall i :: 0 <= i < |at| ==> Before(at[i], p)
    requires k == Kept(SliceAt(groups, rank, p).id, groups[p.0].path, SliceAt(groups, rank, p).bytes)
    ensures WholeAt(groups, rank, anchors, keep + [k], at + [p])
  {
    assert (keep + [k])[..|anchors|] == anchors;
  }

  /** The slice just kept took the last place for a file: the rest of its path is left out. */
  lemma {:induction false} WalkedCut(start: Budget, b: Budget, groups: seq<Group>, rank: Rank, maxBytes: nat, maxFiles: nat,
                                     p: Place, next: Place, at: seq<Place>)
    requires Walked(start, b, groups, rank, maxBytes, maxFiles, next, at, None) && p in at
    requires next == (p.0, p.1 + 1) && b.files >= maxFiles
    ensures Walked(start, b, groups, rank, maxBytes, maxFiles, (p.0 + 1, 0), at, Some(p))
  {
  }

  /** A path whose slices have all been looked at. */
  lemma {:induction false} WalkedGroup(start: Budget, b: Budget, groups: seq<Group>, rank: Rank, maxBytes: nat, maxFiles: nat,
                                       i: nat, at: seq<Place>, cut: Option<Place>)
    requires i < |groups| && Walked(start, b, groups, rank, maxBytes, maxFiles, (i, |rank(groups[i].rows)|), at, cut)
    ensures Walked(start, b, groups, rank, maxBytes, maxFiles, (i + 1, 0), at, cut)
  {
  }

  /** The slices of one path in the second phase. */
  method Enrich(groups: seq<Group>, rank: Rank, i: nat, ghost start: Budget, b0: Budget, maxBytes: nat, maxFiles: nat,
                ghost at0: seq<Place>, ghost cut0: Option<Place>)
    returns (b: Budget, ghost at: seq<Place>, ghost cut: Option<Place>)
    requires NoneEmpty(groups) && WellGrouped(groups) && OnlyReorders(rank) && i < |groups|
    requires Enriching(start, b0, groups, maxBytes, maxFiles) && (groups[i].path in b0.paths || b0.files < maxFiles)
    requires Walked(start, b0, groups, rank, maxBytes, maxFiles, (i, 0), at0, cut0)
    ensures Enriching(start, b, groups, maxBytes, maxFiles)
    ensures Walked(start, b, groups, rank, maxBytes, maxFiles, (i + 1, 0), at, cut)
  {
    hide Enriching, WellGrouped, Keep, WholeAt, SettledBefore;
    b, at, cut := b0, at0, cut0;
    var ranked := rank(groups[i].rows);
    var added := groups[i].path in b.paths;
    for j := 0 to |ranked|
      invariant Enriching(start, b, groups, maxBytes, maxFiles)
      invariant added == (groups[i].path in b.paths) && (added || b.files < maxFiles)
      invariant Walked(start, b, groups, rank, maxBytes, maxFiles, (i, j), at, cut)
      invariant cut.Some? ==> cut.value.0 < i
    {
      var x := ranked[j];
      if x.id in b.rows || b.used + x.bytes > maxBytes {
        WalkedOver(start, b, groups, rank, maxBytes, maxFiles, (i, j), (i, j + 1), at, cut);
        continue;
      }
      var k := Kept(x.id, groups[i].path, x.bytes);
      assert x in rank(groups[i].rows);
      Enriched(start, b, groups, groups[i], x, k, maxBytes, maxFiles);
      KeepAddsPath(b, k);
      WalkedOn(start, b, k, groups, rank, maxBytes, maxFiles, (i, j), (i, j + 1), at, cut);
      b, at := Keep(b, k), at + [(i, j)];
      if !added {
        added := true;
        if b.files >= maxFiles {
          WalkedCut(start, b, groups, rank, maxBytes, maxFiles, (i, j), (i, j + 1), at);
          cut := Some((i, j));
          return;
        }
      }
    }
    WalkedGroup(start, b, groups, rank, maxBytes, maxFiles, i, at, cut);
  }

  lemma {:induction false} KeepAddsPath(b: Budget, k: Kept)
    ensures k.path in Keep(b, k).paths
  {
  }

  lemma {:induction false} StartsEnriching(b: Budget, groups: seq<Group>, maxBytes: nat, maxFiles: nat)
    requires NoneEmpty(groups) && Anchored(b, groups, maxBytes, maxFiles)
    ensures Enriching(b, b, groups, maxBytes, maxFiles)
  {
    hide Required, Exact, Blocked;
  }

  /** After both phases exactly the paths of the first phase are there, of those that are required. */
  lemma {:induction false} PlacesDecided(start: Budget, b: Budget, groups: seq<Group>, maxBytes: nat, maxFiles: nat)
    requires NoneEmpty(groups) && Anchored(start, groups, maxBytes, maxFiles)
    requires Enriching(start, b, groups, maxBytes, maxFiles)
    ensures AllThere(b, groups) <==> AnchorsFit(groups, maxBytes, maxFiles)
  {
    hide Required, MissingBlocked, AnchorTotal, RequiredCount, PathsExact, RowsExact, KeptOnce, Sum;
    if AllThere(b, groups) {
      assert AllThere(start, groups);
    }
  }

  /**
   * Where the second phase ended: before `stop` every slice is kept or does not fit, but for those
   * after the slice that took the last place for a file; it stopped only for want of a place.
   */
  ghost predicate Served(b: Budget, groups: seq<Group>, rank: Rank, maxBytes: nat, maxFiles: nat, stop: nat, cut: Option<Place>)
  {
    && stop <= |groups|
    && (forall p: Place :: IsPlace(groups, rank, p) && p.0 < stop && !CutOff(cut, p) ==>
          SliceAt(groups, rank, p).id in b.rows || b.used + SliceAt(groups, rank, p).bytes > maxBytes)
    && (cut.Some? ==> b.files >= maxFiles)
    && (stop < |groups| ==> b.files >= maxFiles && groups[stop].path !in b.paths)
  }

  /**
   * `trimToBudget` on the groups in their order of precedence. The totals are exact and within the
   * budgets, no slice is kept twice, and every required path has a place exactly when all required
   * anchors fit together. Anchors come first, then whole slices in the order of groups and ranks; and
   * unless the places for files are used up, every slice is kept or too large for the bytes left.
   */
  method TrimToBudget(groups: seq<Group>, rank: Rank, maxBytes: nat, maxFiles: nat)
    returns (b: Budget, ghost anchors: seq<Kept>, ghost at0: seq<nat>, ghost at: seq<Place>, ghost stop: nat,
             ghost cut: Option<Place>)
    requires WellGrouped(groups) && NoneEmpty(groups) && OnlyReorders(rank)
    ensures Exact(b, maxBytes, maxFiles)
    ensures AllThere(b, groups) <==> AnchorsFit(groups, maxBytes, maxFiles)
    ensures b.files < maxFiles ==>
              forall g, x :: g in groups && x in g.rows ==> x.id in b.rows || b.used + x.bytes > maxBytes
    ensures AnchorsAt(groups, anchors, at0)
    ensures WholeAt(groups, rank, anchors, b.keep, at) && forall k :: 0 <= k < |at| ==> at[k].0 < stop && !CutOff(cut, at[k])
    ensures Served(b, groups, rank, maxBytes, maxFiles, stop, cut)
  {
    hide Anchored, Enriching, Exact, AllThere, AnchorsFit, WellGrouped, AnchorsAt, WholeAt, SettledBefore, OnlyReorders;
    b, at0 := KeepAnchors(groups, maxBytes, maxFiles);
    ghost var start := b;
    anchors, at, cut, stop := b.keep, [], None, 0;
    StartsEnriching(b, groups, maxBytes, maxFiles);
    WalkedNothing(b, groups, rank, maxBytes, maxFiles);
    for i := 0 to |groups|
      invariant stop == i && Enriching(start, b, groups, maxBytes, maxFiles)
      invariant Walked(start, b, groups, rank, maxBytes, maxFiles, (i, 0), at, cut)
    {
      if groups[i].path !in b.paths && b.files >= maxFiles {
        break;
      }
      b, at, cut := Enrich(groups, rank, i, start, b, maxBytes, maxFiles, at, cut);
      stop := i + 1;
    }
    PlacesDecided(start, b, groups, maxBytes, maxFiles);
    EnrichingExact(start, b, groups, maxBytes, maxFiles);
    WalkedServes(start, b, groups, rank, maxBytes, maxFiles, stop, at, cut);
    if b.files < maxFiles {
      EverySlice(b, groups, rank, maxBytes, maxFiles, stop, cut);
    }
  }

  lemma {:induction false} WalkedServes(start: Budget, b: Budget, groups: seq<Group>, rank: Rank, maxBytes: nat, maxFiles: nat,
                                        stop: nat, at: seq<Place>, cut: Option<Place>)
    requires stop <= |groups| && Walked(start, b, groups, rank, maxBytes, maxFiles, (stop, 0), at, cut)
    requires stop < |groups| ==> b.files >= maxFiles && groups[stop].path !in b.paths
    ensures Served(b, groups, rank, maxBytes, maxFiles, stop, cut)
    ensures forall k :: 0 <= k < |at| ==> at[k].0 < stop && !CutOff(cut, at[k])
  {
    hide WholeAt;
    forall p: Place | IsPlace(groups, rank, p) && p.0 < stop && !CutOff(cut, p)
      ensures SliceAt(groups, rank, p).id in b.rows || b.used + SliceAt(groups, rank, p).bytes > maxBytes
    {
      assert Before(p, (stop, 0));
      assert Settled(b, SliceAt(groups, rank, p), maxBytes);
    }
  }

  /** With places for files left, the second phase has looked at every slice. */
  lemma {:induction false} EverySlice(b: Budget, groups: seq<Group>, rank: Rank, maxBytes: nat, maxFiles: nat, stop: nat,
                                      cut: Option<Place>)
    requires OnlyReorders(rank) && b.files < maxFiles && Served(b, groups, rank, maxBytes, maxFiles, stop, cut)
    ensures forall g, x :: g in groups && x in g.rows ==> x.id in b.rows || b.used + x.bytes > maxBytes
  {
    forall g, x | g in groups && x in g.rows ensures x.id in b.rows || b.used + x.bytes > maxBytes {
      var i :| 0 <= i < |groups| && groups[i] == g;
      assert x in rank(g.rows);
      var j :| 0 <= j < |rank(g.rows)| && rank(g.rows)[j] == x;
      assert IsPlace(groups, rank, (i, j)) && SliceAt(groups, rank, (i, j)) == x;
    }
  }

  lemma {:induction false} EnrichingExact(start: Budget, b: Budget, groups: seq<Group>, maxBytes: nat, maxFiles: nat)
    requires NoneEmpty(groups) && Enriching(start, b, groups, maxBytes, maxFiles)
    ensures Exact(b, maxBytes, maxFiles)
  {
  }
}
