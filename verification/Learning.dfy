/**
 * The learning session: groups kept up to date one observation at a time, against groups
 * recomputed from the log, and the resource pattern that generalises a group.
 */
module Learning {
  datatype Observation = Observation(key: string, exactKey: string, resource: string, risk: string, decision: string,
                                     tool: string)

  /** The aggregate of the observations with one generalised key. */
  datatype Group = Group(tool: string, resources: seq<string>, exactKeys: seq<string>, risks: seq<string>,
                         decisions: map<string, nat>, critical: bool, hardBlock: bool, count: nat)

  function Empty(tool: string): Group { Group(tool, [], [], [], map[], false, false, 0) }

  function AddOnce(xs: seq<string>, x: string): seq<string> { if x in xs then xs else xs + [x] }

  function Lookup(m: map<string, nat>, k: string): nat { if k in m then m[k] else 0 }

  predicate IsCritical(o: Observation) { o.risk == "critical" }

  predicate IsHardBlock(o: Observation) { o.risk == "critical" && o.decision == "deny" }

  // ---- recomputing from the log ------------------------------------------------------------------

  /** The observations with one key, in order. */
  function Of(log: seq<Observation>, key: string): (r: seq<Observation>)
    ensures forall o :: o in r <==> o in log && o.key == key
  {
    if log == [] then []
    else
      var last := log[|log| - 1];
      assert log == log[..|log| - 1] + [last];
      Of(log[..|log| - 1], key) + if last.key == key then [last] else []
  }

  /** `[...new Set(xs)]`: the distinct values in order of first occurrence. */
  function Distinct(xs: seq<string>): (r: seq<string>)
    ensures forall x :: x in r <==> x in xs
    ensures forall i, j :: 0 <= i < j < |r| ==> r[i] != r[j]
  {
    if xs == [] then []
    else
      assert xs == xs[..|xs| - 1] + [xs[|xs| - 1]];
      AddOnce(Distinct(xs[..|xs| - 1]), xs[|xs| - 1])
  }

  function ResourceOf(o: Observation): string { o.resource }

  function ExactKeyOf(o: Observation): string { o.exactKey }

  function RiskOf(o: Observation): string { o.risk }

  function Map(f: Observation -> string, os: seq<Observation>): (r: seq<string>)
    ensures |r| == |os|
  {
    seq(|os|, i requires 0 <= i < |os| => f(os[i]))
  }

  function Count(os: seq<Observation>, decision: string): nat
  {
    if os == [] then 0 else Count(os[..|os| - 1], decision) + if os[|os| - 1].decision == decision then 1 else 0
  }

  /** `g` is what a fresh look at the observations `os` gives. */
  ghost predicate Aggregates(g: Group, os: seq<Observation>)
  {
    && os != [] && g.tool == os[0].tool && g.count == |os|
    && g.resources == Distinct(Map(ResourceOf, os))
    && g.exactKeys == Distinct(Map(ExactKeyOf, os))
    && g.risks == Distinct(Map(RiskOf, os))
    && (forall d :: Lookup(g.decisions, d) == Count(os, d))
    && (g.critical <==> exists o :: o in os && o.risk == "critical")
    && (g.hardBlock <==> exists o :: o in os && o.risk == "critical" && o.decision == "deny")
  }

  /** Every group is the aggregate of its observations, and each observed key has a group. */
  ghost predicate GroupsExact(groups: map<string, Group>, log: seq<Observation>)
  {
    forall key :: if Of(log, key) == [] then key !in groups else key in groups && Aggregates(groups[key], Of(log, key))
  }

  function Updated(g: Group, o: Observation): Group
  {
    Group(g.tool, AddOnce(g.resources, o.resource), AddOnce(g.exactKeys, o.exactKey), AddOnce(g.risks, o.risk),
          g.decisions[o.decision := Lookup(g.decisions, o.decision) + 1], g.critical || IsCritical(o),
          g.hardBlock || IsHardBlock(o), g.count + 1)
  }

  class LearningSession {
    var observations: seq<Observation>
    var groups: map<string, Group>

    ghost predicate Valid()
      reads this
    {
      GroupsExact(groups, observations)
    }

    constructor ()
      ensures Valid() && observations == []
    {
      observations := [];
      groups := map[];
    }

    /** `observe`: the incremental groups always equal the recomputed ones. */
    method Observe(o: Observation)
      requires Valid()
      modifies this
      ensures Valid() && observations == old(observations) + [o]
    {
      hide GroupsExact;
      ghost var log := observations;
      observations := observations + [o];
      var current := if o.key in groups then groups[o.key] else Empty(o.tool);
      GroupUpdated(groups, log, o, current);
      groups := groups[o.key := Updated(current, o)];
    }
  }

  lemma {:induction false} MapMore(f: Observation -> string, os: seq<Observation>, o: Observation)
    ensures Map(f, os + [o]) == Map(f, os) + [f(o)]
    ensures Distinct(Map(f, os + [o])) == AddOnce(Distinct(Map(f, os)), f(o))
  {
    assert (Map(f, os) + [f(o)])[..|os|] == Map(f, os);
  }

  lemma {:induction false} CountMore(os: seq<Observation>, o: Observation, d: string)
    ensures Count(os + [o], d) == Count(os, d) + if o.decision == d then 1 else 0
  {
    assert (os + [o])[..|os|] == os;
  }

  lemma {:induction false} AggregatesMore(g: Group, os: seq<Observation>, o: Observation)
    requires if os == [] then g == Empty(o.tool) else Aggregates(g, os)
    ensures Aggregates(Updated(g, o), os + [o])
  {
    hide Map, Distinct;
    MapMore(ResourceOf, os, o);
    MapMore(ExactKeyOf, os, o);
    MapMore(RiskOf, os, o);
    forall d
      ensures Lookup(Updated(g, o).decisions, d) == Count(os + [o], d)
    {
      CountMore(os, o, d);
    }
    if os == [] {
      NothingDistinct(ResourceOf);
      NothingDistinct(ExactKeyOf);
      NothingDistinct(RiskOf);
    }
  }

  lemma {:induction false} NothingDistinct(f: Observation -> string)
    ensures Distinct(Map(f, [])) == []
  {
  }

  lemma {:induction false} GroupUpdated(groups: map<string, Group>, log: seq<Observation>, o: Observation, g: Group)
    requires GroupsExact(groups, log) && g == (if o.key in groups then groups[o.key] else Empty(o.tool))
    ensures GroupsExact(groups[o.key := Updated(g, o)], log + [o])
  {
    hide Aggregates, Updated;
    assert (log + [o])[..|log|] == log;
    forall key
      ensures var os, after := Of(log + [o], key), groups[o.key := Updated(g, o)];
              if os == [] then key !in after else key in after && Aggregates(after[key], os)
    {
      if key == o.key {
        assert Of(log + [o], key) == Of(log, key) + [o];
        AggregatesMore(g, Of(log, key), o);
      } else {
        assert Of(log + [o], key) == Of(log, key);
      }
    }
  }

  // ---- the effect of a group ---------------------------------------------------------------------

  /** `effectForObservation`. */
  function Effect(g: Group): string
  {
    if g.critical || g.hardBlock || Lookup(g.decisions, "deny") > 0 then "deny"
    else if Lookup(g.decisions, "needs_approval") > 0 then "needs_approval"
    else "allow"
  }

  lemma {:induction false} CountPositive(os: seq<Observation>, d: string)
    ensures Count(os, d) > 0 <==> exists o :: o in os && o.decision == d
    decreases |os|
  {
    if os != [] {
      var before, last := os[..|os| - 1], os[|os| - 1];
      CountPositive(before, d);
      assert os == before + [last];
    }
  }

  /** A suggestion allows only when nothing in its group was critical, denied or sent for approval. */
  lemma {:induction false} AllowOnlyWhenAllAllowed(g: Group, os: seq<Observation>)
    requires Aggregates(g, os)
    ensures Effect(g) == "allow" <==>
            forall o :: o in os ==> o.risk != "critical" && o.decision != "deny" && o.decision != "needs_approval"
    ensures Effect(g) == "deny" <==> exists o :: o in os && (o.risk == "critical" || o.decision == "deny")
  {
    hide Distinct, Map;
    CountPositive(os, "deny");
    CountPositive(os, "needs_approval");
  }

  // ---- exact-action suggestions ------------------------------------------------------------------

  datatype Suggestion = Suggestion(decisionKey: string, target: string, effect: string)

  /** The resource suggested beside the key at `index`: the lists are paired by position. */
  function Target(resources: seq<string>, index: nat): string
  {
    if index < |resources| && resources[index] != "" then resources[index]
    else if resources != [] && resources[0] != "" then resources[0]
    else "*"
  }

  /** The exact-action part of `finalize` for one group. */
  method ExactSuggestions(g: Group) returns (suggestions: seq<Suggestion>)
    ensures |suggestions| == |g.exactKeys|
    ensures forall i :: 0 <= i < |suggestions| ==>
              suggestions[i] == Suggestion(g.exactKeys[i], Target(g.resources, i), Effect(g))
  {
    suggestions := [];
    var effect := Effect(g);
    for i := 0 to |g.exactKeys|
      invariant |suggestions| == i
      invariant forall k :: 0 <= k < i ==> suggestions[k] == Suggestion(g.exactKeys[k], Target(g.resources, k), effect)
    {
      var target :=
        if i < |g.resources| && g.resources[i] != "" then g.resources[i]
        else if |g.resources| > 0 && g.resources[0] != "" then g.resources[0] else "*";
      suggestions := suggestions + [Suggestion(g.exactKeys[i], target, effect)];
    }
  }

  /** `f` is the resource that each exact key covers: the fingerprint of a call includes its resource. */
  ghost predicate Covers(f: string -> string, os: seq<Observation>) {
    forall o :: o in os ==> o.resource == f(o.exactKey)
  }

  /** A suggested target is right when it is the resource of its key, or `*` for a key without resource. */
  predicate IsRight(f: string -> string, key: string, target: string)
  {
    target == if f(key) == "" then "*" else f(key)
  }

  ghost predicate AllRight(f: string -> string, g: Group)
  {
    forall i :: 0 <= i < |g.exactKeys| ==> IsRight(f, g.exactKeys[i], Target(g.resources, i))
  }

  /**
   * The keys come with the resources one by one: as many keys as there are resources each bring
   * their own, and every later key is one more for the first resource.
   */
  ghost predicate InStep(f: string -> string, g: Group)
  {
    var n := |g.resources|;
    && (forall i, j :: 0 <= i < j < n && j < |g.exactKeys| ==> f(g.exactKeys[i]) != f(g.exactKeys[j]))
    && (forall i :: n <= i < |g.exactKeys| ==> f(g.exactKeys[i]) == f(g.exactKeys[0]))
    && (forall i :: 1 <= i < n && i < |g.exactKeys| ==> f(g.exactKeys[i]) != "")
  }

  function Through(f: string -> string, xs: seq<string>): (r: seq<string>)
    ensures |r| == |xs|
  {
    seq(|xs|, i requires 0 <= i < |xs| => f(xs[i]))
  }

  lemma {:induction false} ThroughPush(f: string -> string, xs: seq<string>, x: string)
    ensures Through(f, xs + [x]) == Through(f, xs) + [f(x)]
    ensures Distinct(Through(f, xs + [x])) == AddOnce(Distinct(Through(f, xs)), f(x))
  {
    assert (Through(f, xs) + [f(x)])[..|xs|] == Through(f, xs);
  }

  lemma {:induction false} ThroughMember(f: string -> string, xs: seq<string>, x: string)
    requires x in xs
    ensures f(x) in Through(f, xs)
  {
    var i :| 0 <= i < |xs| && xs[i] == x;
    assert Through(f, xs)[i] == f(x);
  }

  /** Dropping repeated keys first makes no difference to the resources. */
  lemma {:induction false} DistinctThrough(f: string -> string, xs: seq<string>)
    ensures Distinct(Through(f, Distinct(xs))) == Distinct(Through(f, xs))
    decreases |xs|
  {
    hide Through;
    if xs == [] {
    } else {
      var before, last := xs[..|xs| - 1], xs[|xs| - 1];
      assert xs == before + [last];
      DistinctThrough(f, before);
      ThroughPush(f, before, last);
      if last in Distinct(before) {
        ThroughMember(f, before, last);
      } else {
        ThroughPush(f, Distinct(before), last);
      }
    }
  }

  lemma {:induction false} DistinctStarts(xs: seq<string>, n: nat)
    requires n <= |xs|
    ensures Distinct(xs[..n]) <= Distinct(xs)
    decreases |xs|
  {
    if n < |xs| {
      assert xs[..|xs| - 1][..n] == xs[..n];
      DistinctStarts(xs[..|xs| - 1], n);
    } else {
      assert xs[..n] == xs;
    }
  }

  ghost predicate NoRepeats(xs: seq<string>) { forall i, j :: 0 <= i < j < |xs| ==> xs[i] != xs[j] }

  lemma {:induction false} DistinctAlready(xs: seq<string>)
    requires NoRepeats(xs)
    ensures Distinct(xs) == xs
    decreases |xs|
  {
    if xs != [] {
      var before, last := xs[..|xs| - 1], xs[|xs| - 1];
      assert xs == before + [last];
      DistinctAlready(before);
    }
  }

  lemma {:induction false} DistinctShort(xs: seq<string>)
    ensures |Distinct(xs)| <= |xs| && (xs != [] ==> Distinct(xs) != [] && Distinct(xs)[0] == xs[0])
    decreases |xs|
  {
    if |xs| > 1 {
      DistinctShort(xs[..|xs| - 1]);
    }
  }

  /** The resources of a group are those of its keys, in the order of the keys. */
  lemma {:induction false} ResourcesOfKeys(f: string -> string, g: Group, os: seq<Observation>)
    requires Aggregates(g, os) && Covers(f, os)
    ensures g.resources == Distinct(Through(f, g.exactKeys))
  {
    var keys := Map(ExactKeyOf, os);
    assert Map(ResourceOf, os) == Through(f, keys) by {
      assert forall i :: 0 <= i < |os| ==> os[i] in os;
    }
    DistinctThrough(f, keys);
  }

  lemma {:induction false} KeyObserved(g: Group, os: seq<Observation>, key: string) returns (o: Observation)
    requires Aggregates(g, os) && key in g.exactKeys
    ensures o in os && o.exactKey == key
  {
    hide Distinct;
    assert key in Map(ExactKeyOf, os);
    var i :| 0 <= i < |os| && Map(ExactKeyOf, os)[i] == key;
    o := os[i];
  }

  /**
   * Where no observed resource is itself `*`, every exact-action suggestion names the resource of
   * its own key if and only if the keys come in step with the resources.
   */
  lemma {:induction false} PairedIff(f: string -> string, g: Group, os: seq<Observation>)
    requires Aggregates(g, os) && Covers(f, os) && forall o :: o in os ==> o.resource != "*"
    ensures AllRight(f, g) <==> InStep(f, g)
  {
    hide Aggregates, Distinct, AllRight, InStep;
    ResourcesOfKeys(f, g, os);
    DistinctShort(Through(f, g.exactKeys));
    assert |g.resources| <= |g.exactKeys|;
    forall key | key in g.exactKeys ensures f(key) != "*" {
      var o := KeyObserved(g, os, key);
    }
    if InStep(f, g) {
      InStepRight(f, g.exactKeys, g.resources, g);
    }
    if AllRight(f, g) {
      RightInStep(f, g.exactKeys, g.resources, g);
    }
  }

  lemma {:induction false} InStepRight(f: string -> string, keys: seq<string>, rs: seq<string>, g: Group)
    requires g.exactKeys == keys && g.resources == rs == Distinct(Through(f, keys)) && |rs| <= |keys|
    requires keys != [] ==> rs != [] && rs[0] == f(keys[0])
    requires InStep(f, g)
    ensures AllRight(f, g)
  {
    hide Distinct;
    var n := |rs|;
    var first := Through(f, keys)[..n];
    assert NoRepeats(first);
    DistinctAlready(first);
    DistinctStarts(Through(f, keys), n);
    assert first == rs;
    assert forall i :: 0 <= i < n ==> rs[i] == f(keys[i]);
  }

  /** A key's suggested target tells its resource. */
  lemma {:induction false} RightMeans(f: string -> string, rs: seq<string>, key: string, i: nat)
    requires rs != [] && IsRight(f, key, Target(rs, i)) && f(key) != "*" && forall r :: r in rs ==> r != "*"
    ensures f(key) == if i < |rs| && rs[i] != "" then rs[i] else rs[0]
  {
    assert rs[0] in rs && (i < |rs| ==> rs[i] in rs);
  }

  lemma {:induction false} RightInStep(f: string -> string, keys: seq<string>, rs: seq<string>, g: Group)
    requires g.exactKeys == keys && g.resources == rs == Distinct(Through(f, keys)) && |rs| <= |keys|
    requires keys != [] ==> rs != [] && rs[0] == f(keys[0])
    requires AllRight(f, g) && forall key :: key in keys ==> f(key) != "*"
    ensures InStep(f, g)
  {
    hide Distinct, Target, IsRight;
    var n := |rs|;
    forall r | r in rs ensures r != "*" && exists k :: 0 <= k < |keys| && f(keys[k]) == r {
      assert r in Through(f, keys);
      var k :| 0 <= k < |keys| && Through(f, keys)[k] == r;
      assert keys[k] in keys;
    }
    forall i | 0 <= i < |keys| ensures f(keys[i]) == if i < n && rs[i] != "" then rs[i] else rs[0] {
      assert keys[i] in keys && IsRight(f, keys[i], Target(g.resources, i));
      RightMeans(f, rs, keys[i], i);
    }
    forall i | 1 <= i < n ensures rs[i] != "" {
      assert rs[i] in rs && rs[0] != rs[i];
      var k :| 0 <= k < |keys| && f(keys[k]) == rs[i];
    }
  }

  /** Three calls on two resources: the second key is suggested for the resource of the third. */
  lemma {:induction false} PairedWrongly(g: Group, os: seq<Observation>, a: Observation, b: Observation, c: Observation)
    requires os == [a, b, c] && Aggregates(g, os)
    requires a.exactKey != b.exactKey && a.exactKey != c.exactKey && b.exactKey != c.exactKey
    requires a.resource == b.resource != c.resource && c.resource != ""
    ensures g.exactKeys == [a.exactKey, b.exactKey, c.exactKey] && g.resources == [a.resource, c.resource]
    ensures Target(g.resources, 1) == c.resource
  {
    hide Count;
    var ks, rs := Map(ExactKeyOf, os), Map(ResourceOf, os);
    assert ks == [a.exactKey, b.exactKey, c.exactKey] && rs == [a.resource, b.resource, c.resource];
    DistinctAlready(ks);
    assert rs[..2] == [a.resource, b.resource] && rs[..2][..1] == [a.resource] && [a.resource][..0] == [];
    assert Distinct([a.resource]) == [a.resource];
    assert Distinct(rs[..2]) == [a.resource];
    assert Distinct(rs) == [a.resource, c.resource];
  }

  // ---- the common resource pattern ---------------------------------------------------------------

  predicate IsSeparator(c: char) { c == '/' || c == '\\' }

  /** `p` starts every resource and ends in a separator that is not the first character. */
  ghost predicate CommonDirectory(rs: seq<string>, p: string)
  {
    |p| >= 2 && p[|p| - 1] in ['/', '\\'] && forall i :: 0 <= i < |rs| ==> p <= rs[i]
  }

  ghost predicate Common(rs: seq<string>, p: string) { forall i :: 0 <= i < |rs| ==> p <= rs[i] }

  /** Everything that starts all of `rs` starts `p`. */
  ghost predicate Longest(rs: seq<string>, p: string)
  {
    Common(rs, p) && forall q :: Common(rs, q) ==> q <= p
  }

  /** `q` starts both `p` and `r`. */
  predicate StartsBoth(q: string, p: string, r: string) { q <= p && q <= r }

  /** The shrinking loop for one more resource. */
  method Shrink(prefix0: string, resource: string, ghost before: seq<string>) returns (prefix: string)
    requires Longest(before, prefix0)
    ensures Longest(before + [resource], prefix)
  {
    prefix := prefix0;
    while prefix != [] && !(prefix <= resource)
      invariant prefix <= prefix0
      invariant forall q :: StartsBoth(q, prefix0, resource) ==> q <= prefix
      decreases |prefix|
    {
      forall q | StartsBoth(q, prefix0, resource)
        ensures q <= prefix[..|prefix| - 1]
      {
        assert q <= prefix && q != prefix;
      }
      prefix := prefix[..|prefix| - 1];
    }
    LongestMore(before, resource, prefix0, prefix);
  }

  lemma {:induction false} LongestMore(rs: seq<string>, r: string, p: string, q: string)
    requires Longest(rs, p) && q <= p && q <= r && forall x :: StartsBoth(x, p, r) ==> x <= q
    ensures Longest(rs + [r], q)
  {
    var all := rs + [r];
    forall i | 0 <= i < |all|
      ensures q <= all[i]
    {
      if i < |rs| {
        assert p <= rs[i];
      }
    }
    forall x | Common(all, x)
      ensures x <= q
    {
      assert forall i :: 0 <= i < |rs| ==> rs[i] == all[i];
      assert Common(rs, x) && all[|rs|] == r;
      assert StartsBoth(x, p, r);
    }
  }

  /** One past the last separator, 0 when there is none. */
  function AfterLastSeparator(p: string): (n: nat)
    ensures n <= |p| && (n > 0 ==> IsSeparator(p[n - 1]))
    ensures forall i :: n <= i < |p| ==> !IsSeparator(p[i])
  {
    if p == [] then 0 else if IsSeparator(p[|p| - 1]) then |p| else AfterLastSeparator(p[..|p| - 1])
  }

  /**
   * `commonResourcePattern` for distinct, non-empty resources: for two or more it is the longest
   * common directory followed by `**`, or `*` when there is none.
   */
  method CommonResourcePattern(unique: seq<string>) returns (pattern: string)
    ensures unique == [] ==> pattern == "*"
    ensures |unique| == 1 ==> pattern == unique[0]
    ensures |unique| >= 2 && (forall p :: !CommonDirectory(unique, p)) ==> pattern == "*"
    ensures |unique| >= 2 && !(forall p :: !CommonDirectory(unique, p)) ==>
              |pattern| >= 2 && pattern[|pattern| - 2..] == "**"
              && CommonDirectory(unique, pattern[..|pattern| - 2])
              && forall p :: CommonDirectory(unique, p) ==> p <= pattern[..|pattern| - 2]
  {
    if |unique| < 2 {
      return if unique == [] then "*" else unique[0];
    }
    var prefix, i := unique[0], 1;
    FirstIsLongest(unique);
    while i < |unique|
      invariant 1 <= i <= |unique| && Longest(unique[..i], prefix)
    {
      assert unique[..i + 1] == unique[..i] + [unique[i]];
      prefix := Shrink(prefix, unique[i], unique[..i]);
      i := i + 1;
    }
    assert unique[..i] == unique;
    var n := AfterLastSeparator(prefix);
    CutIsLongest(unique, prefix, n);
    return if n <= 1 then "*" else prefix[..n] + "**";
  }

  lemma {:induction false} FirstIsLongest(rs: seq<string>)
    requires rs != []
    ensures Longest(rs[..1], rs[0])
  {
    assert rs[..1][0] == rs[0];
  }

  /** Cutting the longest common prefix after its last separator gives the longest common directory. */
  lemma {:induction false} CutIsLongest(rs: seq<string>, prefix: string, n: nat)
    requires Longest(rs, prefix) && n == AfterLastSeparator(prefix)
    ensures n > 1 ==> CommonDirectory(rs, prefix[..n])
    ensures forall p :: CommonDirectory(rs, p) ==> n > 1 && p <= prefix[..n]
  {
    if n > 1 {
      forall i | 0 <= i < |rs|
        ensures prefix[..n] <= rs[i]
      {
        assert prefix <= rs[i];
      }
    }
    forall p | CommonDirectory(rs, p)
      ensures n > 1 && p <= prefix[..n]
    {
      assert Common(rs, p);
      assert p <= prefix && IsSeparator(prefix[|p| - 1]);
    }
  }
}
