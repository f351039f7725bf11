/**
 * Exact dependency closures: a depth-first visit over a pinned registry that
 * succeeds exactly when everything reachable is acyclic and free of conflicts.
 */
module FamilyResolver {
  import opened Wrappers
  import opened JsText

  datatype Ref = Ref(product: Text, releaseId: Text, sourceSha256: Text)

  /** A registry entry; `content` stands for the fields the resolver does not look at. */
  datatype Release = Release(ref: Ref, dependencies: seq<Ref>, content: Text)

  type Registry = seq<Release>

  datatype ResolveError = InvalidRegistry | DigestMismatch | NotFound | DependencyCycle | ConflictingDependencies

  const AT_SIGN: unit := 0x40

  function EntryKey(r: Ref): Text { r.product + [AT_SIGN] + r.releaseId }

  ghost predicate HasRef(reg: Registry, d: Ref) { exists i :: 0 <= i < |reg| && reg[i].ref == d }

  /** The cross-entry rules of `validateFamilyRegistry`; `shaped` is its field-by-field part. */
  ghost predicate ValidRegistry(reg: Registry)
  {
    && (forall i, j :: 0 <= i < j < |reg| ==> EntryKey(reg[i].ref) != EntryKey(reg[j].ref))
    && (forall i, d :: 0 <= i < |reg| && d in reg[i].dependencies ==> HasRef(reg, d))
  }

  /** The pinned registry: a valid one has the expected digest. */
  datatype Pin = Pin(valid: Registry -> bool, digest: Registry -> Text, expected: Text)

  ghost predicate Checks(pin: Pin) { forall reg :: pin.valid(reg) ==> ValidRegistry(reg) }

  function Find(reg: Registry, d: Ref): (r: Option<Release>)
    ensures r.Some? ==> r.value in reg && r.value.ref == d
    ensures r.None? ==> !HasRef(reg, d)
  {
    if reg == [] then None
    else if reg[0].ref == d then Some(reg[0])
    else
      var r := Find(reg[1..], d);
      assert r.None? ==> forall i :: 0 <= i < |reg| ==> reg[i].ref != d by {
        assert forall i :: 1 <= i < |reg| ==> reg[i] == reg[1..][i - 1];
      }
      r
  }

  /** `resolveFamilyRelease`. */
  function ResolveRelease(pin: Pin, reg: Registry, d: Ref): Result<Release, ResolveError>
  {
    if !pin.valid(reg) then Err(InvalidRegistry)
    else if pin.digest(reg) != pin.expected then Err(DigestMismatch)
    else match Find(reg, d)
      case None => Err(NotFound)
      case Some(r) => Ok(r)
  }

  // ---- reachability ------------------------------------------------------------------

  ghost predicate IsPath(reg: Registry, p: seq<Release>) {
    && p != []
    && (forall i :: 0 <= i < |p| ==> p[i] in reg)
    && (forall i :: 0 <= i < |p| - 1 ==> p[i + 1].ref in p[i].dependencies)
  }

  ghost predicate PathFrom(reg: Registry, a: Release, b: Release, p: seq<Release>) {
    IsPath(reg, p) && p[0] == a && p[|p| - 1] == b
  }

  ghost predicate Reaches(reg: Registry, a: Release, b: Release) {
    exists p :: PathFrom(reg, a, b, p)
  }

  ghost predicate OnCycle(reg: Registry, a: Release) {
    exists p :: PathFrom(reg, a, a, p) && |p| >= 2
  }

  ghost predicate Clash(reg: Registry, root: Release, x: Release, y: Release) {
    Reaches(reg, root, x) && Reaches(reg, root, y) && x.ref.product == y.ref.product && x != y
  }

  ghost predicate Acyclic(reg: Registry, root: Release) {
    forall x :: Reaches(reg, root, x) ==> !OnCycle(reg, x)
  }

  ghost predicate ConflictFree(reg: Registry, root: Release) {
    forall x, y :: !Clash(reg, root, x, y)
  }

  /** Some chain of dependencies from the root comes to a product twice. */
  ghost predicate MeetsProductAgain(reg: Registry, root: Release) {
    exists p: seq<Release>, i: nat, j: nat ::
      IsPath(reg, p) && p[0] == root && i < j < |p| && p[i].ref.product == p[j].ref.product
  }

  /** What the source can resolve: nothing reachable is on a cycle, and no product occurs twice. */
  ghost predicate Resolvable(reg: Registry, root: Release) {
    Acyclic(reg, root) && ConflictFree(reg, root)
  }

  lemma {:induction false} SameRefSameRelease(reg: Registry, a: Release, b: Release)
    requires ValidRegistry(reg) && a in reg && b in reg && a.ref == b.ref
    ensures a == b
  {
    var i :| 0 <= i < |reg| && reg[i] == a;
    var j :| 0 <= j < |reg| && reg[j] == b;
    assert EntryKey(a.ref) == EntryKey(b.ref);
  }

  // ---- closures ------------------------------------------------------------------------

  ghost predicate DistinctProducts(s: seq<Release>) {
    forall i, j :: 0 <= i < j < |s| ==> s[i].ref.product != s[j].ref.product
  }

  ghost predicate ListedBefore(s: seq<Release>, i: nat, d: Ref) {
    exists j :: 0 <= j < i && j < |s| && s[j].ref == d
  }

  /** Dependencies first: every dependency of an entry is listed before it. */
  ghost predicate DependenciesFirst(s: seq<Release>) {
    forall i, d :: 0 <= i < |s| && d in s[i].dependencies ==> ListedBefore(s, i, d)
  }

  ghost predicate AllReached(reg: Registry, root: Release, s: seq<Release>) {
    forall x :: x in s ==> x in reg && Reaches(reg, root, x)
  }

  ghost predicate Closed(reg: Registry, root: Release, s: seq<Release>) {
    DistinctProducts(s) && DependenciesFirst(s) && AllReached(reg, root, s)
  }

  /** Following dependencies from entry `i` only leads to entries at or before `i`. */
  lemma {:induction false} PathDescends(reg: Registry, root: Release, s: seq<Release>, p: seq<Release>, i: nat) returns (j: nat)
    requires ValidRegistry(reg) && Closed(reg, root, s) && IsPath(reg, p) && i < |s| && p[0] == s[i]
    ensures j <= i && s[j] == p[|p| - 1] && (|p| >= 2 ==> j < i)
    decreases |p|
  {
    if |p| == 1 {
      j := i;
    } else {
      assert p[1].ref in p[0].dependencies && ListedBefore(s, i, p[1].ref);
      var k :| 0 <= k < i && s[k].ref == p[1].ref;
      assert s[k] in s;
      SameRefSameRelease(reg, s[k], p[1]);
      var rest := p[1..];
      assert rest[0] == s[k] && IsPath(reg, rest);
      j := PathDescends(reg, root, s, rest, k);
    }
  }

  /** A closed list that contains the root is exactly what is reachable, and that is resolvable. */
  lemma {:induction false} ClosedIsReachable(reg: Registry, root: Release, s: seq<Release>)
    requires ValidRegistry(reg) && Closed(reg, root, s) && root in s
    ensures forall x :: x in s <==> Reaches(reg, root, x)
    ensures Resolvable(reg, root)
  {
    var r :| 0 <= r < |s| && s[r] == root;
    forall x | Reaches(reg, root, x)
      ensures x in s && !OnCycle(reg, x)
    {
      var p :| PathFrom(reg, root, x, p);
      var j := PathDescends(reg, root, s, p, r);
      forall q | PathFrom(reg, x, x, q) && |q| >= 2
        ensures false
      {
        var k := PathDescends(reg, root, s, q, j);
      }
    }
  }

  // ---- the visit -------------------------------------------------------------------------

  function Products(reg: Registry): set<Text>
  {
    set i | 0 <= i < |reg| :: reg[i].ref.product
  }

  ghost function ProductsOf(s: seq<Release>): set<Text>
  {
    set i | 0 <= i < |s| :: s[i].ref.product
  }

  class Resolver {
    const pin: Pin
    const registry: Registry
    /** The source's insertion-ordered map from product to release, as the list of its values. */
    var selected: seq<Release>
    var active: set<Text>

    constructor (pin: Pin, registry: Registry)
      ensures this.pin == pin && this.registry == registry && selected == [] && active == {}
    {
      this.pin, this.registry := pin, registry;
      selected, active := [], {};
    }

    ghost predicate Pinned() {
      Checks(pin) && pin.valid(registry) && pin.digest(registry) == pin.expected
    }

    method Previous(product: Text) returns (r: Option<Release>)
      ensures r.Some? ==> r.value in selected && r.value.ref.product == product
      ensures r.None? ==> product !in ProductsOf(selected)
    {
      var i := 0;
      while i < |selected|
        invariant 0 <= i <= |selected| && forall j :: 0 <= j < i ==> selected[j].ref.product != product
      {
        if selected[i].ref.product == product {
          return Some(selected[i]);
        }
        i := i + 1;
      }
      return None;
    }

    /** `visit(release)`; `stack` is the chain of callers, from the root. */
    method Visit(release: Release, ghost stack: seq<Release>) returns (error: Option<ResolveError>)
      requires Pinned() && IsPath(registry, stack + [release])
      requires active == ProductsOf(stack) && active !! ProductsOf(selected)
      requires Closed(registry, (stack + [release])[0], selected)
      modifies this
      ensures error.None? ==>
                && old(selected) <= selected && release in selected && active == old(active)
                && (old(release.ref.product !in ProductsOf(selected)) ==> selected[|selected| - 1] == release)
                && active !! ProductsOf(selected)
                && Closed(registry, (stack + [release])[0], selected)
      ensures error.Some? ==> !Resolvable(registry, (stack + [release])[0])
      ensures error == Some(ConflictingDependencies) ==> !ConflictFree(registry, (stack + [release])[0])
      ensures error == Some(DependencyCycle) ==> MeetsProductAgain(registry, (stack + [release])[0])
      ensures error.Some? ==> error.value == DependencyCycle || error.value == ConflictingDependencies
      decreases Products(registry) - active
    {
      hide MeetsProductAgain, DistinctProducts, DependenciesFirst, OnCycle, EntryKey;
      ghost var path := stack + [release];
      ghost var root := path[0];
      if release.ref.product in active {
        ActiveIsBad(registry, stack, release);
        return Some(DependencyCycle);
      }
      var previous := Previous(release.ref.product);
      if previous.Some? {
        assert PathFrom(registry, root, release, path);
        if previous.value.ref != release.ref {
          assert Clash(registry, root, previous.value, release);
          return Some(ConflictingDependencies);
        }
        SameRefSameRelease(registry, previous.value, release);
        return None;
      }
      active := active + {release.ref.product};
      ProductsOfAppend(stack, release);
      ProductInRegistry(registry, release);
      for i := 0 to |release.dependencies|
        invariant active == old(active) + {release.ref.product} == ProductsOf(path)
        invariant active !! ProductsOf(selected) && old(selected) <= selected
        invariant Closed(registry, root, selected)
        invariant forall k :: 0 <= k < i ==> ListedBefore(selected, |selected|, release.dependencies[k])
      {
        var dependency := release.dependencies[i];
        assert dependency in release.dependencies && HasRef(registry, dependency) by {
          var k :| 0 <= k < |registry| && registry[k] == release;
        }
        var target := ResolveRelease(pin, registry, dependency);
        assert target.Ok?;
        ghost var before := selected;
        ExtendPath(registry, path, target.value);
        error := Visit(target.value, path);
        if error.Some? {
          return;
        }
        forall k | 0 <= k <= i
          ensures ListedBefore(selected, |selected|, release.dependencies[k])
        {
          if k < i {
            var j :| 0 <= j < |before| && before[j].ref == release.dependencies[k];
            assert selected[j] == before[j];
          } else {
            var j :| 0 <= j < |selected| && selected[j] == target.value;
          }
        }
      }
      active := active - {release.ref.product};
      SelectRelease(registry, root, path, selected, release);
      ProductsOfAppend(selected, release);
      selected := selected + [release];
      return None;
    }
  }

  lemma {:induction false} ProductsOfAppend(s: seq<Release>, release: Release)
    ensures ProductsOf(s + [release]) == ProductsOf(s) + {release.ref.product}
  {
    var t := s + [release];
    assert t[|s|] == release && forall i :: 0 <= i < |s| ==> t[i] == s[i];
  }

  lemma {:induction false} ProductInRegistry(reg: Registry, release: Release)
    requires release in reg
    ensures release.ref.product in Products(reg)
  {
    var k :| 0 <= k < |reg| && reg[k] == release;
  }

  lemma {:induction false} ExtendPath(reg: Registry, path: seq<Release>, target: Release)
    requires IsPath(reg, path) && target in reg && target.ref in path[|path| - 1].dependencies
    ensures IsPath(reg, path + [target]) && (path + [target])[0] == path[0]
  {
  }

  /** Meeting an active product again: the same release closes a cycle, another one is a conflict. */
  lemma {:induction false} ActiveIsBad(reg: Registry, stack: seq<Release>, release: Release)
    requires ValidRegistry(reg) && IsPath(reg, stack + [release]) && release.ref.product in ProductsOf(stack)
    ensures !Resolvable(reg, (stack + [release])[0]) && MeetsProductAgain(reg, (stack + [release])[0])
  {
    var path := stack + [release];
    var root := path[0];
    var i :| 0 <= i < |stack| && stack[i].ref.product == release.ref.product;
    assert path[i].ref.product == path[|stack|].ref.product;
    var prefix, cycle := path[..i + 1], path[i..];
    assert PathFrom(reg, root, stack[i], prefix);
    assert PathFrom(reg, root, release, path);
    if stack[i] == release {
      assert forall m :: 0 <= m < |cycle| ==> cycle[m] == path[i + m];
      assert PathFrom(reg, release, release, cycle);
      assert OnCycle(reg, release);
    } else {
      assert Clash(reg, root, stack[i], release);
    }
  }

  lemma {:induction false} SelectRelease(reg: Registry, root: Release, path: seq<Release>, s: seq<Release>, release: Release)
    requires IsPath(reg, path) && path[0] == root && path[|path| - 1] == release
    requires Closed(reg, root, s) && release.ref.product !in ProductsOf(s)
    requires forall d :: d in release.dependencies ==> ListedBefore(s, |s|, d)
    ensures Closed(reg, root, s + [release])
  {
    var t := s + [release];
    assert PathFrom(reg, root, release, path);
    forall i, d | 0 <= i < |t| && d in t[i].dependencies
      ensures ListedBefore(t, i, d)
    {
      assert ListedBefore(s, i, d);
      var j :| 0 <= j < i && j < |s| && s[j].ref == d;
      assert t[j] == s[j];
    }
    assert t[|s|] == release;
    assert forall i :: 0 <= i < |s| ==> t[i] == s[i];
  }

  /** The outcome for a root of the registry. */
  ghost predicate Resolves(reg: Registry, root: Release, r: Result<seq<Release>, ResolveError>)
  {
    match r
    case Ok(s) =>
      && Resolvable(reg, root) && Closed(reg, root, s) && (forall x :: x in s <==> Reaches(reg, root, x))
      && s != [] && s[|s| - 1] == root
    case Err(e) =>
      && !Resolvable(reg, root) && (e == DependencyCycle || e == ConflictingDependencies)
      && (e == DependencyCycle ==> MeetsProductAgain(reg, root))
      && (e == ConflictingDependencies ==> !ConflictFree(reg, root))
  }

  /** `resolveFamilyDependencySet`: sound, complete, and dependencies first with the root last. */
  method ResolveFamilyDependencySet(pin: Pin, registry: Registry, reference: Ref)
    returns (r: Result<seq<Release>, ResolveError>)
    requires Checks(pin)
    ensures r == Err(InvalidRegistry) <==> !pin.valid(registry)
    ensures r == Err(DigestMismatch) <==> pin.valid(registry) && pin.digest(registry) != pin.expected
    ensures r == Err(NotFound) <==>
              pin.valid(registry) && pin.digest(registry) == pin.expected && forall x :: x in registry ==> x.ref != reference
    ensures pin.valid(registry) && pin.digest(registry) == pin.expected ==>
              forall root :: root in registry && root.ref == reference ==> Resolves(registry, root, r)
  {
    hide MeetsProductAgain, EntryKey, Acyclic, ConflictFree;
    var root := ResolveRelease(pin, registry, reference);
    if root.Err? {
      assert root == Err(NotFound) ==> forall x :: x in registry ==> x.ref != reference by {
        assert forall i :: 0 <= i < |registry| ==> registry[i] in registry;
      }
      return Err(root.error);
    }
    forall other | pin.valid(registry) && other in registry && other.ref == reference ensures other == root.value {
      SameRefSameRelease(registry, other, root.value);
    }
    var resolver := new Resolver(pin, registry);
    assert [] + [root.value] == [root.value];
    var error := resolver.Visit(root.value, []);
    if error.Some? {
      return Err(error.value);
    }
    ClosedIsReachable(registry, root.value, resolver.selected);
    return Ok(resolver.selected);
  }
}
