/**
 * The canonical family text: members sorted by key, then printed. Two values
 * have the same text exactly when they are equal up to member order.
 */
module CanonicalJson {
  import opened Wrappers
  import opened JsText
  import opened JsonText

  // ---- sorting by key -----------------------------------------------------------

  /** The order of `Array.prototype.sort` on strings: by UTF-16 code units. */
  predicate KeyLess(a: Text, b: Text)
  {
    b != [] && (a == [] || a[0] < b[0] || (a[0] == b[0] && KeyLess(a[1..], b[1..])))
  }

  lemma {:induction false} KeyLessTotal(a: Text, b: Text)
    ensures KeyLess(a, b) || a == b || KeyLess(b, a)
    ensures !(KeyLess(a, b) && KeyLess(b, a))
    ensures !KeyLess(a, a)
    decreases |a|
  {
    if a != [] {
      KeyLessTotal(a[1..], a[1..]);
    }
    if a != [] && b != [] {
      KeyLessTotal(a[1..], b[1..]);
      assert a == [a[0]] + a[1..] && b == [b[0]] + b[1..];
    }
  }

  lemma {:induction false} KeyLessTransitive(a: Text, b: Text, c: Text)
    requires KeyLess(a, b) && KeyLess(b, c)
    ensures KeyLess(a, c)
  {
    if a != [] && a[0] == b[0] && b[0] == c[0] {
      KeyLessTransitive(a[1..], b[1..], c[1..]);
    }
  }

  function Insert<T>(m: Keyed<T>, ms: seq<Keyed<T>>): (r: seq<Keyed<T>>)
    ensures |r| == |ms| + 1
  {
    if ms == [] || !KeyLess(ms[0].key, m.key) then [m] + ms else [ms[0]] + Insert(m, ms[1..])
  }

  function Sort<T>(ms: seq<Keyed<T>>): (r: seq<Keyed<T>>)
    ensures |r| == |ms|
  {
    if ms == [] then [] else Insert(ms[0], Sort(ms[1..]))
  }

  lemma {:induction false} InsertElements<T>(m: Keyed<T>, ms: seq<Keyed<T>>)
    ensures forall x :: x in Insert(m, ms) ==> x in ms || x == m
    ensures m in Insert(m, ms) && forall x :: x in ms ==> x in Insert(m, ms)
    decreases |ms|
  {
    if ms != [] && KeyLess(ms[0].key, m.key) {
      InsertElements(m, ms[1..]);
      assert ms == [ms[0]] + ms[1..];
    }
  }

  /** Sorting keeps exactly the elements. */
  lemma {:induction false} SortKeepsElements<T>(ms: seq<Keyed<T>>)
    ensures forall x :: x in Sort(ms) ==> x in ms
    ensures forall x :: x in ms ==> x in Sort(ms)
    decreases |ms|
  {
    if ms != [] {
      SortKeepsElements(ms[1..]);
      InsertElements(ms[0], Sort(ms[1..]));
      assert ms == [ms[0]] + ms[1..];
    }
  }

  ghost predicate Increasing<T>(ms: seq<Keyed<T>>) {
    forall i, j :: 0 <= i < j < |ms| ==> KeyLess(ms[i].key, ms[j].key)
  }

  ghost predicate DistinctKeys<T>(ms: seq<Keyed<T>>) {
    forall i, j :: 0 <= i < j < |ms| ==> ms[i].key != ms[j].key
  }

  lemma {:induction false} InsertIncreasing<T>(m: Keyed<T>, ms: seq<Keyed<T>>)
    requires Increasing(ms) && forall i :: 0 <= i < |ms| ==> ms[i].key != m.key
    ensures Increasing(Insert(m, ms))
    decreases |ms|
  {
    if ms == [] {
    } else if !KeyLess(ms[0].key, m.key) {
      KeyLessTotal(ms[0].key, m.key);
      forall j | 0 < j < |ms|
        ensures KeyLess(m.key, ms[j].key)
      {
        KeyLessTransitive(m.key, ms[0].key, ms[j].key);
      }
    } else {
      var rest := Insert(m, ms[1..]);
      InsertIncreasing(m, ms[1..]);
      forall j | 0 <= j < |rest|
        ensures KeyLess(ms[0].key, rest[j].key)
      {
        InsertElements(m, ms[1..]);
        assert rest[j] in rest;
      }
    }
  }

  lemma {:induction false} SortIncreasing<T>(ms: seq<Keyed<T>>)
    requires DistinctKeys(ms)
    ensures Increasing(Sort(ms))
    decreases |ms|
  {
    if ms != [] {
      var rest := Sort(ms[1..]);
      SortIncreasing(ms[1..]);
      forall i | 0 <= i < |rest|
        ensures rest[i].key != ms[0].key
      {
        SortKeepsElements(ms[1..]);
        assert rest[i] in rest && rest[i] in ms[1..];
      }
      InsertIncreasing(ms[0], rest);
    }
  }

  /** A key-sorted list is determined by its elements. */
  lemma {:induction false} IncreasingUnique<T>(xs: seq<Keyed<T>>, ys: seq<Keyed<T>>)
    requires Increasing(xs) && Increasing(ys) && forall m :: m in xs ==> m in ys
    ensures |xs| <= |ys| && (|xs| == |ys| ==> xs == ys)
    decreases |ys|
  {
    if xs != [] {
      assert xs[0] in ys;
      var x := if xs[0] == ys[0] then xs[1..] else xs;
      forall m | m in x
        ensures m in ys[1..]
      {
        var i :| 0 <= i < |xs| && xs[i] == m && (xs[0] == ys[0] ==> i > 0);
        assert m in ys;
        var j :| 0 <= j < |ys| && ys[j] == m;
        if j == 0 {
          var k :| 0 <= k < |ys| && ys[k] == xs[0];
          KeyLessTotal(xs[0].key, m.key);
        }
      }
      IncreasingUnique(x, ys[1..]);
    }
  }

  // ---- values up to member order ------------------------------------------------------

  ghost predicate Distinct(v: Value)
  {
    match v
    case Arr(items) => forall i :: 0 <= i < |items| ==> Distinct(items[i])
    case Obj(members) =>
      DistinctKeys(members) && forall i :: 0 <= i < |members| ==> Distinct(members[i].value)
    case _ => true
  }

  /** Equal up to the order of object members. */
  ghost predicate Equiv(a: Value, b: Value)
  {
    match (a, b)
    case (Arr(x), Arr(y)) => |x| == |y| && forall i :: 0 <= i < |x| ==> Equiv(x[i], y[i])
    case (Obj(m), Obj(n)) =>
      |m| == |n| && forall i :: 0 <= i < |m| ==> EquivIn(m[i], n)
    case _ => a == b
  }

  /** Some member of `n` has the key of `m` and an equivalent value. */
  ghost predicate EquivIn(m: Keyed<Value>, n: seq<Keyed<Value>>)
  {
    exists j :: 0 <= j < |n| && n[j].key == m.key && Equiv(m.value, n[j].value)
  }

  function Normalize(v: Value): Value
  {
    match v
    case Arr(items) => Arr(NormalizeItems(items))
    case Obj(members) => Obj(Sort(NormalizeMembers(members)))
    case _ => v
  }

  function NormalizeItems(items: seq<Value>): (r: seq<Value>)
    ensures |r| == |items| && forall i :: 0 <= i < |r| ==> r[i] == Normalize(items[i])
  {
    if items == [] then [] else [Normalize(items[0])] + NormalizeItems(items[1..])
  }

  function NormalizeMembers(members: seq<Keyed<Value>>): (r: seq<Keyed<Value>>)
    ensures |r| == |members|
    ensures forall i :: 0 <= i < |r| ==> r[i] == Member(members[i].key, Normalize(members[i].value))
  {
    if members == [] then []
    else [Member(members[0].key, Normalize(members[0].value))] + NormalizeMembers(members[1..])
  }

  lemma {:induction false} NormalForms(a: Value, b: Value)
    requires Distinct(a) && Distinct(b)
    ensures Equiv(a, b) <==> Normalize(a) == Normalize(b)
    decreases a
  {
    match (a, b)
    case (Arr(x), Arr(y)) =>
      if |x| == |y| {
        forall i | 0 <= i < |x|
          ensures Equiv(x[i], y[i]) <==> Normalize(x[i]) == Normalize(y[i])
        {
          NormalForms(x[i], y[i]);
        }
        assert Normalize(a) == Normalize(b) <==> NormalizeItems(x) == NormalizeItems(y);
        assert NormalizeItems(x) == NormalizeItems(y) <==> forall i :: 0 <= i < |x| ==> NormalizeItems(x)[i] == NormalizeItems(y)[i];
      }
    case (Obj(m), Obj(n)) =>
      forall i, j | 0 <= i < |m| && 0 <= j < |n|
        ensures Equiv(m[i].value, n[j].value) <==> Normalize(m[i].value) == Normalize(n[j].value)
      {
        NormalForms(m[i].value, n[j].value);
      }
      MemberNormalForms(m, n);
    case _ =>
  }

  ghost predicate PairwiseNormal(m: seq<Keyed<Value>>, n: seq<Keyed<Value>>) {
    forall i, j :: 0 <= i < |m| && 0 <= j < |n| ==>
      (Equiv(m[i].value, n[j].value) <==> Normalize(m[i].value) == Normalize(n[j].value))
  }

  lemma {:induction false} MemberNormalForms(m: seq<Keyed<Value>>, n: seq<Keyed<Value>>)
    requires DistinctKeys(m) && DistinctKeys(n) && PairwiseNormal(m, n)
    ensures Equiv(Obj(m), Obj(n)) <==> Sort(NormalizeMembers(m)) == Sort(NormalizeMembers(n))
  {
    if Equiv(Obj(m), Obj(n)) {
      EquivSortsAlike(m, n);
    }
    if Sort(NormalizeMembers(m)) == Sort(NormalizeMembers(n)) {
      SortedAlikeEquiv(m, n);
    }
  }

  lemma {:induction false} EquivSortsAlike(m: seq<Keyed<Value>>, n: seq<Keyed<Value>>)
    requires DistinctKeys(m) && DistinctKeys(n) && PairwiseNormal(m, n) && Equiv(Obj(m), Obj(n))
    ensures Sort(NormalizeMembers(m)) == Sort(NormalizeMembers(n))
  {
    var p, q := NormalizeMembers(m), NormalizeMembers(n);
    forall x | x in p
      ensures x in q
    {
      var i :| 0 <= i < |p| && p[i] == x;
      assert EquivIn(m[i], n);
      NormalIn(m, i, n);
    }
    SortIncluded(p, q);
  }

  lemma {:induction false} NormalIn(m: seq<Keyed<Value>>, i: nat, n: seq<Keyed<Value>>)
    requires i < |m| && PairwiseNormal(m, n)
    ensures EquivIn(m[i], n) <==> NormalizeMembers(m)[i] in NormalizeMembers(n)
  {
    var q := NormalizeMembers(n);
    forall j | 0 <= j < |n|
      ensures n[j].key == m[i].key && Equiv(m[i].value, n[j].value) <==> q[j] == NormalizeMembers(m)[i]
    {
    }
  }

  lemma {:induction false} SortIncluded<T>(p: seq<Keyed<T>>, q: seq<Keyed<T>>)
    requires DistinctKeys(p) && DistinctKeys(q) && |p| == |q|
    requires forall x :: x in p ==> x in q
    ensures Sort(p) == Sort(q)
  {
    SortKeepsElements(p);
    SortKeepsElements(q);
    SortIncreasing(p);
    SortIncreasing(q);
    forall x | x in Sort(p) ensures x in Sort(q) { assert x in p; }
    IncreasingUnique(Sort(p), Sort(q));
  }

  lemma {:induction false} SortedAlikeEquiv(m: seq<Keyed<Value>>, n: seq<Keyed<Value>>)
    requires PairwiseNormal(m, n) && Sort(NormalizeMembers(m)) == Sort(NormalizeMembers(n))
    ensures Equiv(Obj(m), Obj(n))
  {
    var p, q := NormalizeMembers(m), NormalizeMembers(n);
    SortKeepsElements(p);
    SortKeepsElements(q);
    forall i | 0 <= i < |m|
      ensures EquivIn(m[i], n)
    {
      assert p[i] in p && p[i] in q;
      NormalIn(m, i, n);
    }
  }

  // ---- the canonical text --------------------------------------------------------------

  function Canon(num: Numerals, v: Value): Text
  {
    Print(num, Normalize(v))
  }

  /** The text determines the value, and only the value: member order never shows. */
  lemma {:induction false} CanonDetermines(num: Numerals, a: Value, b: Value)
    requires Faithful(num) && Distinct(a) && Distinct(b)
    ensures Canon(num, a) == Canon(num, b) <==> Equiv(a, b)
  {
    NormalForms(a, b);
    if Canon(num, a) == Canon(num, b) {
      PrintInjective(num, Normalize(a), Normalize(b));
    }
  }

  lemma {:induction false} NormalizeDistinct(v: Value)
    requires Distinct(v)
    ensures Distinct(Normalize(v))
    decreases v
  {
    match v
    case Arr(items) =>
      forall i | 0 <= i < |items| ensures Distinct(Normalize(items[i])) { NormalizeDistinct(items[i]); }
    case Obj(members) =>
      var ms := NormalizeMembers(members);
      forall i | 0 <= i < |members|
        ensures Distinct(ms[i].value)
      {
        NormalizeDistinct(members[i].value);
      }
      SortedDistinct(ms);
    case _ =>
  }

  lemma {:induction false} SortedDistinct(ms: seq<Keyed<Value>>)
    requires DistinctKeys(ms) && forall i :: 0 <= i < |ms| ==> Distinct(ms[i].value)
    ensures Distinct(Obj(Sort(ms)))
  {
    SortIncreasing(ms);
    SortKeepsElements(ms);
    var s := Sort(ms);
    forall i, j | 0 <= i < j < |s|
      ensures s[i].key != s[j].key
    {
      KeyLessTotal(s[i].key, s[j].key);
    }
    forall i | 0 <= i < |s|
      ensures Distinct(s[i].value)
    {
      assert s[i] in s;
      var k :| 0 <= k < |ms| && ms[k] == s[i];
    }
  }

  /** Normalizing twice changes nothing. */
  lemma {:induction false} NormalizeIdempotent(v: Value)
    requires Distinct(v)
    ensures Normalize(Normalize(v)) == Normalize(v)
    decreases v
  {
    match v
    case Arr(items) =>
      forall i | 0 <= i < |items| ensures Normalize(Normalize(items[i])) == Normalize(items[i]) {
        NormalizeIdempotent(items[i]);
      }
      assert NormalizeItems(NormalizeItems(items)) == NormalizeItems(items);
    case Obj(members) =>
      var ms := NormalizeMembers(members);
      forall i | 0 <= i < |members| ensures Normalize(ms[i].value) == ms[i].value {
        NormalizeIdempotent(members[i].value);
      }
      SortedFixed(ms);
    case _ =>
  }

  lemma {:induction false} SortedFixed(ms: seq<Keyed<Value>>)
    requires DistinctKeys(ms) && forall i :: 0 <= i < |ms| ==> Normalize(ms[i].value) == ms[i].value
    ensures Sort(NormalizeMembers(Sort(ms))) == Sort(ms)
  {
    var s := Sort(ms);
    SortIncreasing(ms);
    SortKeepsElements(ms);
    forall i | 0 <= i < |s|
      ensures NormalizeMembers(s)[i] == s[i]
    {
      assert s[i] in s && s[i] in ms;
    }
    assert NormalizeMembers(s) == s;
    forall i, j | 0 <= i < j < |s|
      ensures s[i].key != s[j].key
    {
      KeyLessTotal(s[i].key, s[j].key);
    }
    SortIncreasing(s);
    SortKeepsElements(s);
    IncreasingUnique(Sort(s), s);
  }

  /** `JSON.parse` of the canonical text gives the value back, up to member order. */
  lemma {:induction false} CanonReadsBack(num: Numerals, v: Value)
    requires Faithful(num) && Distinct(v)
    ensures ReadValue(num, Canon(num, v)) == Some(Read(Normalize(v), []))
    ensures Distinct(Normalize(v)) && Equiv(Normalize(v), v)
  {
    ReadPrinted(num, Normalize(v), []);
    assert Canon(num, v) + [] == Canon(num, v);
    NormalizeDistinct(v);
    NormalizeIdempotent(v);
    NormalForms(Normalize(v), v);
  }
}
