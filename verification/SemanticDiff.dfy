/**
 * The intent diff: `compareCollection` with `changedFields`, and `directionForBudget`. A field's
 * value is its canonical text.
 */
module SemanticDiff {
  import opened Wrappers
  import JsText
  import CanonicalJson

  type Id = JsText.Text

  /** An entity's fields. */
  type Fields = map<string, string>

  type Collection = map<Id, Fields>

  datatype Change =
    | Added(id: Id, after: Fields)
    | Removed(id: Id, before: Fields)
    | Modified(id: Id, fields: set<string>, before: Fields, after: Fields)

  function Find<K, V>(m: map<K, V>, k: K): Option<V> { if k in m then Some(m[k]) else None }

  /** `changedFields`: the fields that are in one entity only or differ. */
  function ChangedFields(a: Fields, b: Fields): (r: set<string>)
    ensures forall k :: k in r <==> Find(a, k) != Find(b, k)
  {
    set k | k in a.Keys + b.Keys && Find(a, k) != Find(b, k) :: k
  }

  /** The row for one identifier, if its entity changed. */
  function ChangeOf(a: Collection, b: Collection, id: Id): seq<Change>
    requires id in a || id in b
  {
    if id !in a then [Added(id, b[id])]
    else if id !in b then [Removed(id, a[id])]
    else if ChangedFields(a[id], b[id]) != {} then [Modified(id, ChangedFields(a[id], b[id]), a[id], b[id])]
    else []
  }

  // ---- the identifiers, sorted -------------------------------------------------------------------

  ghost predicate Sorted(ids: seq<Id>) { forall i, j :: 0 <= i < j < |ids| ==> CanonicalJson.KeyLess(ids[i], ids[j]) }

  /** The identifiers of both collections, each once, in the order of `sort()`. */
  ghost predicate Lists(ids: seq<Id>, a: Collection, b: Collection)
  {
    Sorted(ids) && forall id :: id in ids <==> id in a || id in b
  }

  function InsertId(x: Id, ids: seq<Id>): seq<Id>
  {
    if ids == [] || CanonicalJson.KeyLess(x, ids[0]) then [x] + ids else [ids[0]] + InsertId(x, ids[1..])
  }

  lemma {:induction false} InsertKeeps(x: Id, ids: seq<Id>)
    requires Sorted(ids) && x !in ids
    ensures Sorted(InsertId(x, ids)) && forall y :: y in InsertId(x, ids) <==> y == x || y in ids
    decreases |ids|
  {
    hide CanonicalJson.KeyLess;
    if ids != [] {
      var rest := ids[1..];
      assert ids == [ids[0]] + rest;
      CanonicalJson.KeyLessTotal(x, ids[0]);
      if CanonicalJson.KeyLess(x, ids[0]) {
        forall i | 0 <= i < |ids| ensures CanonicalJson.KeyLess(x, ids[i]) {
          if i > 0 {
            CanonicalJson.KeyLessTransitive(x, ids[0], ids[i]);
          }
        }
      } else {
        InsertKeeps(x, rest);
        forall y | y in InsertId(x, rest) ensures CanonicalJson.KeyLess(ids[0], y) {
          if y != x {
            var k :| 0 <= k < |rest| && rest[k] == y;
            assert ids[k + 1] == y;
          }
        }
      }
    }
  }

  /** There is only one such list: the rows do not depend on the order of the collections' entries. */
  lemma {:induction false} SortedUnique(p: seq<Id>, q: seq<Id>)
    requires Sorted(p) && Sorted(q) && forall id :: id in p <==> id in q
    ensures p == q
    decreases |p|
  {
    hide CanonicalJson.KeyLess;
    assert (p != [] ==> p[0] in q) && (q != [] ==> q[0] in p);
    if p != [] {
      SameFirst(p, q);
      assert p == [p[0]] + p[1..] && q == [q[0]] + q[1..];
      Rest(p);
      Rest(q);
      SortedUnique(p[1..], q[1..]);
    }
  }

  lemma {:induction false} Rest(p: seq<Id>)
    requires Sorted(p) && p != []
    ensures forall id :: id in p[1..] <==> id in p && id != p[0]
  {
    hide CanonicalJson.KeyLess;
    CanonicalJson.KeyLessTotal(p[0], p[0]);
    forall k | 0 <= k < |p[1..]| ensures p[1..][k] != p[0] {
      assert CanonicalJson.KeyLess(p[0], p[k + 1]);
    }
    assert p == [p[0]] + p[1..];
  }

  lemma {:induction false} SameFirst(p: seq<Id>, q: seq<Id>)
    requires Sorted(p) && Sorted(q) && p != [] && q != [] && forall id :: id in p <==> id in q
    ensures p[0] == q[0]
  {
    hide CanonicalJson.KeyLess;
    assert p[0] in q && q[0] in p;
    var i :| 0 <= i < |q| && q[i] == p[0];
    var j :| 0 <= j < |p| && p[j] == q[0];
    if i > 0 && j > 0 {
      assert CanonicalJson.KeyLess(q[0], p[0]) && CanonicalJson.KeyLess(p[0], q[0]);
      CanonicalJson.KeyLessTotal(p[0], q[0]);
    }
  }

  /** `[...new Set(keys)].sort()`, whatever the order in which the set is walked. */
  method SortIds(keys: set<Id>) returns (ids: seq<Id>)
    ensures Sorted(ids) && forall id :: id in ids <==> id in keys
  {
    ids := [];
    var todo := keys;
    while todo != {}
      invariant todo <= keys && Sorted(ids)
      invariant forall id :: id in ids <==> id in keys - todo
      decreases |todo|
    {
      var id :| id in todo;
      InsertKeeps(id, ids);
      ids := InsertId(id, ids);
      todo := todo - {id};
    }
  }

  function Changes(a: Collection, b: Collection, ids: seq<Id>): seq<Change>
    requires forall id :: id in ids ==> id in a || id in b
  {
    if ids == [] then [] else Changes(a, b, ids[..|ids| - 1]) + ChangeOf(a, b, ids[|ids| - 1])
  }

  /** `compareCollection`; `ids` are the identifiers in the order in which it reports them. */
  method CompareCollection(a: Collection, b: Collection) returns (out: seq<Change>, ids: seq<Id>)
    ensures Lists(ids, a, b) && out == Changes(a, b, ids)
  {
    hide ChangedFields, Sorted;
    ids := SortIds(a.Keys + b.Keys);
    out := [];
    ListsBoth(ids, a, b);
    for i := 0 to |ids|
      invariant out == Changes(a, b, ids[..i])
    {
      var id := ids[i];
      assert ids[..i + 1][..i] == ids[..i];
      if id !in a {
        out := out + [Added(id, b[id])];
      } else if id !in b {
        out := out + [Removed(id, a[id])];
      } else {
        var fields := ChangedFields(a[id], b[id]);
        if fields != {} {
          out := out + [Modified(id, fields, a[id], b[id])];
        }
      }
    }
    assert ids[..|ids|] == ids;
  }

  lemma {:induction false} ListsDistinct(ids: seq<Id>, a: Collection, b: Collection)
    requires Lists(ids, a, b)
    ensures forall i, j :: 0 <= i < j < |ids| ==> ids[i] != ids[j]
  {
    hide CanonicalJson.KeyLess;
    forall i, j | 0 <= i < j < |ids| ensures ids[i] != ids[j] {
      CanonicalJson.KeyLessTotal(ids[i], ids[i]);
    }
  }

  lemma {:induction false} ListsBoth(ids: seq<Id>, a: Collection, b: Collection)
    requires Lists(ids, a, b)
    ensures forall id :: id in ids ==> id in a || id in b
  {
  }

  // ---- patching --------------------------------------------------------------------------------

  function PatchOne(m: Collection, c: Change): Collection
  {
    match c
    case Added(id, after) => m[id := after]
    case Removed(id, _) => m - {id}
    case Modified(id, _, _, after) => m[id := after]
  }

  function Patch(m: Collection, cs: seq<Change>): Collection
    decreases |cs|
  {
    if cs == [] then m else Patch(PatchOne(m, cs[0]), cs[1..])
  }

  lemma {:induction false} SameFields(a: Fields, b: Fields)
    ensures ChangedFields(a, b) == {} <==> a == b
  {
    if ChangedFields(a, b) == {} {
      forall k
        ensures k in a <==> k in b
        ensures k in a && k in b ==> a[k] == b[k]
      {
        assert k !in ChangedFields(a, b);
      }
    }
  }

  lemma {:induction false} PatchAppend(m: Collection, x: seq<Change>, y: seq<Change>)
    ensures Patch(m, x + y) == Patch(Patch(m, x), y)
    decreases |x|
  {
    if x == [] {
      assert x + y == y;
    } else {
      assert (x + y)[1..] == x[1..] + y;
      PatchAppend(PatchOne(m, x[0]), x[1..], y);
    }
  }

  /** One identifier's row changes that identifier, to what the candidate has. */
  lemma {:induction false} PatchesOne(m: Collection, a: Collection, b: Collection, id: Id, other: Id)
    requires (id in a || id in b) && Find(m, id) == Find(a, id)
    ensures Find(Patch(m, ChangeOf(a, b, id)), other) == if other == id then Find(b, id) else Find(m, other)
  {
    if id in a && id in b {
      SameFields(a[id], b[id]);
    }
    var cs := ChangeOf(a, b, id);
    if cs != [] {
      assert cs[1..] == [];
      assert Patch(m, cs) == PatchOne(m, cs[0]);
    }
  }

  lemma {:induction false} PatchesAll(m: Collection, a: Collection, b: Collection, ids: seq<Id>, x: Id)
    requires forall id :: id in ids ==> (id in a || id in b) && Find(m, id) == Find(a, id)
    requires forall i, j :: 0 <= i < j < |ids| ==> ids[i] != ids[j]
    ensures Find(Patch(m, Changes(a, b, ids)), x) == if x in ids then Find(b, x) else Find(m, x)
    decreases |ids|
  {
    hide ChangeOf, PatchOne;
    if ids != [] {
      var n := |ids| - 1;
      var before, last := ids[..n], ids[n];
      assert ids == before + [last];
      PatchAppend(m, Changes(a, b, before), ChangeOf(a, b, last));
      PatchesAll(m, a, b, before, x);
      PatchesAll(m, a, b, before, last);
      PatchesOne(Patch(m, Changes(a, b, before)), a, b, last, x);
    }
  }

  /** The rows patch the base into the candidate. */
  lemma {:induction false} DiffPatches(a: Collection, b: Collection, ids: seq<Id>)
    requires Lists(ids, a, b)
    ensures Patch(a, Changes(a, b, ids)) == b
  {
    hide Sorted, Changes, Patch;
    var r := Patch(a, Changes(a, b, ids));
    ListsDistinct(ids, a, b);
    forall x
      ensures Find(r, x) == Find(b, x)
    {
      PatchesAll(a, a, b, ids, x);
    }
    forall x
      ensures x in r <==> x in b
      ensures x in r && x in b ==> r[x] == b[x]
    {
      assert Find(r, x) == Find(b, x);
    }
  }

  function Mirror(c: Change): Change
  {
    match c
    case Added(id, after) => Removed(id, after)
    case Removed(id, before) => Added(id, before)
    case Modified(id, fields, before, after) => Modified(id, fields, after, before)
  }

  function MirrorAll(cs: seq<Change>): seq<Change>
  {
    if cs == [] then [] else [Mirror(cs[0])] + MirrorAll(cs[1..])
  }

  lemma {:induction false} MirrorAppend(x: seq<Change>, y: seq<Change>)
    ensures MirrorAll(x + y) == MirrorAll(x) + MirrorAll(y)
    decreases |x|
  {
    if x == [] {
      assert x + y == y;
    } else {
      assert (x + y)[1..] == x[1..] + y;
      MirrorAppend(x[1..], y);
    }
  }

  lemma {:induction false} MirrorOne(a: Collection, b: Collection, id: Id)
    requires id in a || id in b
    ensures ChangeOf(b, a, id) == MirrorAll(ChangeOf(a, b, id))
  {
    if id in a && id in b {
      assert ChangedFields(a[id], b[id]) == ChangedFields(b[id], a[id]);
    }
    assert ChangeOf(a, b, id) != [] ==> ChangeOf(a, b, id)[1..] == [];
  }

  /** Swapping the inputs mirrors every row. */
  lemma {:induction false} DiffMirrors(a: Collection, b: Collection, ids: seq<Id>)
    requires forall id :: id in ids ==> id in a || id in b
    ensures Changes(b, a, ids) == MirrorAll(Changes(a, b, ids))
    decreases |ids|
  {
    hide ChangeOf;
    if ids != [] {
      var n := |ids| - 1;
      DiffMirrors(a, b, ids[..n]);
      MirrorOne(a, b, ids[n]);
      MirrorAppend(Changes(a, b, ids[..n]), ChangeOf(a, b, ids[n]));
    }
  }

  // ---- budgets ---------------------------------------------------------------------------------

  datatype Operator = Max | Min | Exact | Range

  /** A performance budget; fields that are missing or not numbers are `None`. */
  datatype Budget = Budget(metric: string, capabilities: set<string>, operator: Operator, unit_: string,
                           value: Option<real>, min: Option<real>, max: Option<real>)

  /** A measured value of some metric of some capability. */
  datatype Measurement = Measurement(metric: string, capability: string, value: real)

  datatype Direction = Strengthened | Weakened | Unchanged | Changed

  predicate HasRange(b: Budget) { b.min.Some? && b.max.Some? }

  /** `directionForBudget` for a modified budget; it looks at neither metrics nor capabilities. */
  function DirectionForBudget(a: Budget, b: Budget): Direction
  {
    if a.operator != b.operator || a.unit_ != b.unit_ then Changed
    else if a.operator == Max && a.value.Some? && b.value.Some? then
      if b.value.value < a.value.value then Strengthened else if b.value.value > a.value.value then Weakened else Unchanged
    else if a.operator == Min && a.value.Some? && b.value.Some? then
      if b.value.value > a.value.value then Strengthened else if b.value.value < a.value.value then Weakened else Unchanged
    else if a.operator == Range && HasRange(a) && HasRange(b) then
      if b.min.value >= a.min.value && b.max.value <= a.max.value && (b.min.value > a.min.value || b.max.value < a.max.value)
      then Strengthened
      else if b.min.value <= a.min.value && b.max.value >= a.max.value
              && (b.min.value < a.min.value || b.max.value > a.max.value)
      then Weakened
      else Changed
    else Changed
  }

  /** What `validateIntentManifest` guarantees of every budget that is compared. */
  predicate Validated(b: Budget)
  {
    if b.operator.Range? then HasRange(b) && b.min.value <= b.max.value else b.value.Some?
  }

  predicate Bounds(b: Budget, x: real)
    requires Validated(b)
  {
    match b.operator
    case Max => x <= b.value.value
    case Min => x >= b.value.value
    case Exact => x == b.value.value
    case Range => b.min.value <= x <= b.max.value
  }

  /** A budget that names no capability concerns all of them. */
  predicate Concerns(b: Budget, capability: string) { b.capabilities == {} || capability in b.capabilities }

  /** The measurements a budget admits: it bounds its own metric, for the capabilities it concerns. */
  predicate Admits(b: Budget, m: Measurement)
    requires Validated(b)
  {
    m.metric == b.metric && Concerns(b, m.capability) ==> Bounds(b, m.value)
  }

  /** `b` admits properly less than `a`. */
  ghost predicate AdmitsLess(a: Budget, b: Budget)
    requires Validated(a) && Validated(b)
  {
    (forall m :: Admits(b, m) ==> Admits(a, m)) && exists m :: Admits(a, m) && !Admits(b, m)
  }

  ghost predicate BoundsLess(a: Budget, b: Budget)
    requires Validated(a) && Validated(b)
  {
    (forall x :: Bounds(b, x) ==> Bounds(a, x)) && exists x :: Bounds(a, x) && !Bounds(b, x)
  }

  predicate SameKind(a: Budget, b: Budget) { a.operator == b.operator && a.unit_ == b.unit_ }

  /** A number that one of two different ranges admits and the other does not. */
  lemma {:induction false} RangeWitness(a: Budget, b: Budget)
    requires SameKind(a, b) && a.operator == Range && Validated(a) && Validated(b)
    ensures BoundsLess(a, b) <==> DirectionForBudget(a, b) == Strengthened
  {
    assert Bounds(b, b.min.value) && Bounds(b, b.max.value) && Bounds(a, a.min.value) && Bounds(a, a.max.value);
    assert b.min.value > a.min.value ==> !Bounds(b, a.min.value);
    assert b.max.value < a.max.value ==> !Bounds(b, a.max.value);
  }

  lemma {:induction false} DirectionMeansBounds(a: Budget, b: Budget)
    requires Validated(a) && Validated(b) && SameKind(a, b)
    ensures DirectionForBudget(a, b) == Strengthened <==> BoundsLess(a, b)
    ensures DirectionForBudget(a, b) == Weakened <==> BoundsLess(b, a)
  {
    match a.operator
    case Range =>
      RangeWitness(a, b);
      RangeWitness(b, a);
    case _ =>
      assert Bounds(a, a.value.value) && Bounds(b, b.value.value);
  }

  /** Every budget rules out some value of its metric. */
  lemma {:induction false} Excluded(b: Budget) returns (x: real)
    requires Validated(b)
    ensures !Bounds(b, x)
  {
    x := match b.operator
         case Max => b.value.value + 1.0
         case Min => b.value.value - 1.0
         case Exact => b.value.value + 1.0
         case Range => b.max.value + 1.0;
  }

  /** Everything that `a` concerns, `b` concerns. */
  predicate Within(a: Budget, b: Budget) { b.capabilities == {} || (a.capabilities != {} && a.capabilities <= b.capabilities) }

  lemma {:induction false} Elsewhere(names: set<string>) returns (name: string)
    ensures forall n :: n in names ==> |n| < |name|
    decreases |names|
  {
    name := "x";
    if names != {} {
      var n :| n in names;
      var longer := Elsewhere(names - {n});
      name := if |n| < |longer| then longer else n + "x";
      forall k | k in names ensures |k| < |name| {
        assert k == n || k in names - {n};
      }
    }
  }

  lemma {:induction false} WithinMeans(a: Budget, b: Budget) returns (capability: string)
    ensures Within(a, b) ==> (forall c :: Concerns(a, c) ==> Concerns(b, c)) && Concerns(a, capability)
    ensures !Within(a, b) ==> Concerns(a, capability) && !Concerns(b, capability)
  {
    if a.capabilities == {} {
      capability := Elsewhere(b.capabilities);
    } else if Within(a, b) {
      capability :| capability in a.capabilities;
    } else {
      capability :| capability in a.capabilities && capability !in b.capabilities;
    }
  }

  ghost predicate BoundsNoMore(a: Budget, b: Budget)
    requires Validated(a) && Validated(b)
  {
    forall x :: Bounds(b, x) ==> Bounds(a, x)
  }

  /** One budget admits less than another when it bounds the same metric at least as widely and as tightly, and not equally. */
  lemma {:induction false} AdmitsLessIff(a: Budget, b: Budget)
    requires Validated(a) && Validated(b)
    ensures AdmitsLess(a, b) <==>
            a.metric == b.metric && Within(a, b) && BoundsNoMore(a, b) && (BoundsLess(a, b) || !Within(b, a))
  {
    hide Bounds, Within, Concerns;
    if AdmitsLess(a, b) {
      LessMeans(a, b);
    }
    if a.metric == b.metric && Within(a, b) && BoundsNoMore(a, b) && (BoundsLess(a, b) || !Within(b, a)) {
      MeansLess(a, b);
    }
  }

  lemma {:induction false} LessMeans(a: Budget, b: Budget)
    requires Validated(a) && Validated(b) && AdmitsLess(a, b)
    ensures a.metric == b.metric && Within(a, b) && BoundsNoMore(a, b) && (BoundsLess(a, b) || !Within(b, a))
  {
    hide Bounds, Within, Concerns;
    var c := WithinMeans(a, b);
    var x := Excluded(a);
    assert !Admits(a, Measurement(a.metric, c, x));
    forall y | Bounds(b, y) ensures Bounds(a, y) {
      assert Admits(b, Measurement(a.metric, c, y));
    }
    var m :| Admits(a, m) && !Admits(b, m);
    var d := WithinMeans(b, a);
  }

  lemma {:induction false} MeansLess(a: Budget, b: Budget)
    requires Validated(a) && Validated(b) && a.metric == b.metric && Within(a, b) && BoundsNoMore(a, b)
    requires BoundsLess(a, b) || !Within(b, a)
    ensures AdmitsLess(a, b)
  {
    hide Bounds, Within, Concerns;
    var c := WithinMeans(a, b);
    if BoundsLess(a, b) {
      var x :| Bounds(a, x) && !Bounds(b, x);
      assert Admits(a, Measurement(a.metric, c, x)) && !Admits(b, Measurement(a.metric, c, x));
    } else {
      var d := WithinMeans(b, a);
      var x := Excluded(b);
      assert Admits(a, Measurement(a.metric, d, x)) && !Admits(b, Measurement(a.metric, d, x));
    }
  }

  /** The verdict says what happened to the admissible set. */
  ghost predicate SaysAdmissible(a: Budget, b: Budget)
    requires Validated(a) && Validated(b)
  {
    && (DirectionForBudget(a, b) == Strengthened <==> SameKind(a, b) && AdmitsLess(a, b))
    && (DirectionForBudget(a, b) == Weakened <==> SameKind(a, b) && AdmitsLess(b, a))
  }

  predicate SameNumbers(a: Budget, b: Budget)
  {
    if a.operator.Range? then a.min == b.min && a.max == b.max else a.value == b.value
  }

  /** The numbers of `b` bound more than those of `a` of the same kind. */
  predicate Tighter(a: Budget, b: Budget)
    requires Validated(a) && Validated(b) && SameKind(a, b)
  {
    match a.operator
    case Max => b.value.value < a.value.value
    case Min => a.value.value < b.value.value
    case Exact => false
    case Range => a.min.value <= b.min.value && b.max.value <= a.max.value && !SameNumbers(a, b)
  }

  /**
   * When the verdict can be taken at its word, from numbers, metrics and capabilities: tighter numbers
   * are for the same metric and for no fewer capabilities, and the same numbers for the same metric
   * are not for some capabilities more or fewer.
   */
  predicate Comparable(a: Budget, b: Budget)
    requires Validated(a) && Validated(b)
  {
    SameKind(a, b) ==>
      && (Tighter(a, b) ==> a.metric == b.metric && Within(a, b))
      && (Tighter(b, a) ==> a.metric == b.metric && Within(b, a))
      && (a.metric == b.metric && SameNumbers(a, b) ==> (Within(a, b) <==> Within(b, a)))
  }

  lemma {:induction false} SameNumbersMeans(a: Budget, b: Budget)
    requires Validated(a) && Validated(b) && SameKind(a, b)
    ensures SameNumbers(a, b) <==> BoundsNoMore(a, b) && BoundsNoMore(b, a)
    ensures BoundsLess(a, b) <==> BoundsNoMore(a, b) && !BoundsNoMore(b, a)
  {
    match a.operator
    case Range =>
      assert Bounds(b, b.min.value) && Bounds(b, b.max.value) && Bounds(a, a.min.value) && Bounds(a, a.max.value);
    case _ =>
      assert Bounds(a, a.value.value) && Bounds(b, b.value.value);
  }

  lemma {:induction false} DirectionIsTighter(a: Budget, b: Budget)
    requires Validated(a) && Validated(b) && SameKind(a, b)
    ensures DirectionForBudget(a, b) == Strengthened <==> Tighter(a, b)
    ensures DirectionForBudget(a, b) == Weakened <==> Tighter(b, a)
  {
    match a.operator
    case Range => assert HasRange(a) && HasRange(b);
    case _ =>
  }

  /**
   * "Strengthened" means a budget of one kind with a properly smaller admissible set and "weakened"
   * one with a properly larger one, exactly for comparable budgets.
   */
  lemma {:induction false} DirectionMeansAdmissible(a: Budget, b: Budget)
    requires Validated(a) && Validated(b)
    ensures SaysAdmissible(a, b) <==> Comparable(a, b)
  {
    hide AdmitsLess, BoundsLess, BoundsNoMore, Within, Validated, Tighter;
    AdmitsLessIff(a, b);
    AdmitsLessIff(b, a);
    if SameKind(a, b) {
      DirectionIsTighter(a, b);
      DirectionMeansBounds(a, b);
      SameNumbersMeans(a, b);
      SameNumbersMeans(b, a);
    }
  }

  /** Trading a bound on one metric for a lower one on another is reported as strengthening. */
  lemma {:induction false} OtherMetricMisleads()
    ensures var a := Budget("p95_ms", {}, Max, "ms", Some(500.0), None, None);
            var b := Budget("p50_ms", {}, Max, "ms", Some(400.0), None, None);
            && Validated(a) && Validated(b) && DirectionForBudget(a, b) == Strengthened && !AdmitsLess(a, b)
            && Admits(b, Measurement("p95_ms", "search", 1000.0)) && !Admits(a, Measurement("p95_ms", "search", 1000.0))
  {
    assert "p95_ms"[1] != "p50_ms"[1];
    AdmitsLessIff(Budget("p95_ms", {}, Max, "ms", Some(500.0), None, None),
                  Budget("p50_ms", {}, Max, "ms", Some(400.0), None, None));
  }

  /** So is a lower bound for one capability in place of a bound for two. */
  lemma {:induction false} FewerCapabilitiesMislead(c: string, d: string)
    requires c != d
    ensures var a := Budget("p95_ms", {c, d}, Max, "ms", Some(500.0), None, None);
            var b := Budget("p95_ms", {c}, Max, "ms", Some(400.0), None, None);
            && Validated(a) && Validated(b) && DirectionForBudget(a, b) == Strengthened && !AdmitsLess(a, b)
            && Admits(b, Measurement("p95_ms", d, 1000.0)) && !Admits(a, Measurement("p95_ms", d, 1000.0))
  {
    AdmitsLessIff(Budget("p95_ms", {c, d}, Max, "ms", Some(500.0), None, None),
                  Budget("p95_ms", {c}, Max, "ms", Some(400.0), None, None));
  }
}
