/** `canonicalFamilyJson` as the source runs it, on shared and cyclic objects. */
module CanonicalVisit {
  import opened Wrappers
  import opened JsText
  import opened JsonText
  import opened CanonicalJson
  import opened CanonicalOrder

  // A bounded recursive visit of a heap of JavaScript objects, with running counters and the
  // set of objects being visited.

  const MAX_NODES := 50000
  const MAX_DEPTH := 32
  const MAX_CHARS := 1000000

  // ---- the heap ------------------------------------------------------------------

  type Id = nat

  /** `JsOddNumber` is NaN, an infinity or -0; `JsOther` any value without JSON form. */
  datatype JsValue =
    | JsNull
    | JsBool(b: bool)
    | JsNumber(n: int)
    | JsOddNumber
    | JsString(s: Text)
    | JsRef(id: Id)
    | JsOther

  /**
   * `JsArray` is a dense undecorated array and `JsPlain` a plain object with only string-keyed
   * data properties; `JsExotic` is any other object, which the source refuses.
   */
  datatype JsObject = JsArray(elems: seq<JsValue>) | JsPlain(props: seq<Keyed<JsValue>>) | JsExotic

  type Heap = map<Id, JsObject>

  /** `x` unrolls to the finite JSON tree `v`. */
  ghost predicate Denotes(h: Heap, x: JsValue, v: Value)
    decreases v
  {
    match v
    case Null => x == JsNull
    case Bool(b) => x == JsBool(b)
    case Num(n) => x == JsNumber(n)
    case Str(s) => x == JsString(s)
    case Arr(items) => x.JsRef? && x.id in h && h[x.id].JsArray? && DenotesItems(h, h[x.id].elems, items)
    case Obj(members) => x.JsRef? && x.id in h && h[x.id].JsPlain? && DenotesMembers(h, h[x.id].props, members)
  }

  ghost predicate DenotesItems(h: Heap, xs: seq<JsValue>, vs: seq<Value>)
    decreases vs
  {
    |xs| == |vs| && forall i :: 0 <= i < |vs| ==> Denotes(h, xs[i], vs[i])
  }

  ghost predicate DenotesMembers(h: Heap, ps: seq<Keyed<JsValue>>, ms: seq<Keyed<Value>>)
    decreases ms
  {
    |ps| == |ms| && forall i :: 0 <= i < |ms| ==> ps[i].key == ms[i].key && Denotes(h, ps[i].value, ms[i].value)
  }

  lemma {:induction false} DenotesUnique(h: Heap, x: JsValue, v: Value, w: Value)
    requires Denotes(h, x, v) && Denotes(h, x, w)
    ensures v == w
    decreases v
  {
    match v
    case Arr(items) =>
      forall i | 0 <= i < |items| ensures items[i] == w.items[i] {
        DenotesUnique(h, h[x.id].elems[i], items[i], w.items[i]);
      }
    case Obj(members) =>
      MembersUnique(h, h[x.id].props, members, w.members);
    case _ =>
  }

  lemma {:induction false} MembersUnique(h: Heap, ps: seq<Keyed<JsValue>>, ms: seq<Keyed<Value>>, ns: seq<Keyed<Value>>)
    requires DenotesMembers(h, ps, ms) && DenotesMembers(h, ps, ns)
    ensures ms == ns
    decreases ms
  {
    forall i | 0 <= i < |ms| ensures ms[i] == ns[i] {
      DenotesUnique(h, ps[i].value, ms[i].value, ns[i].value);
    }
  }

  // ---- what the limits count -------------------------------------------------------

  predicate WellFormed(s: Text)
    decreases |s|
  {
    s == []
    || (|s| >= 2 && IsHighSurrogate(s[0]) && IsLowSurrogate(s[1]) && WellFormed(s[2..]))
    || (!IsHighSurrogate(s[0]) && !IsLowSurrogate(s[0]) && WellFormed(s[1..]))
  }

  /** Visits, counted characters, nesting below the value, and whether all strings are well formed. */
  datatype Cost = Cost(nodes: nat, chars: nat, height: nat, plain: bool)

  const FREE := Cost(0, 0, 0, true)

  function Max(a: nat, b: nat): nat { if a < b then b else a }

  function Join(a: Cost, b: Cost): Cost
  {
    Cost(a.nodes + b.nodes, a.chars + b.chars, Max(a.height, b.height), a.plain && b.plain)
  }

  function Below(c: Cost): Cost { c.(height := c.height + 1) }

  function StringCost(s: Text): Cost { Cost(1, |s|, 0, WellFormed(s)) }

  function DigitCount(n: nat): nat { if n < 10 then 1 else 1 + DigitCount(n / 10) }

  /** Total length of the index names of an array. */
  function IndexChars(n: nat): nat { if n == 0 then 0 else IndexChars(n - 1) + DigitCount(n - 1) }

  function KeyChars<T>(ms: seq<Keyed<T>>): nat { if ms == [] then 0 else |ms[0].key| + KeyChars(ms[1..]) }

  /** Keys are counted twice, once with the property names and once when visited. */
  function CostOf(v: Value): (c: Cost)
    ensures c.nodes >= 1
    decreases v
  {
    match v
    case Str(s) => StringCost(s)
    case Arr(items) => Join(Cost(1, IndexChars(|items|), 0, true), ItemsCost(items))
    case Obj(members) => Join(Cost(1, KeyChars(members), 0, true), MembersCost(members))
    case _ => Cost(1, 0, 0, true)
  }

  function ItemsCost(items: seq<Value>): Cost
    decreases items
  {
    if items == [] then FREE else Join(Below(CostOf(items[0])), ItemsCost(items[1..]))
  }

  function MemberCost(m: Keyed<Value>): Cost
    decreases m
  {
    Below(Join(StringCost(m.key), CostOf(m.value)))
  }

  function MembersCost(members: seq<Keyed<Value>>): Cost
    decreases members
  {
    if members == [] then FREE else Join(MemberCost(members[0]), MembersCost(members[1..]))
  }

  predicate Fits(c: Cost, depth: nat, nodes: nat, chars: nat)
  {
    c.plain && nodes + c.nodes <= MAX_NODES && chars + c.chars <= MAX_CHARS && depth + c.height <= MAX_DEPTH
  }

  /** The trees the source accepts. */
  predicate Accepted(v: Value) { Fits(CostOf(v), 0, 0, 0) }

  // ---- sorting neither changes the cost nor the values --------------------------------

  lemma {:induction false} InsertCost(m: Keyed<Value>, ms: seq<Keyed<Value>>)
    ensures MembersCost(Insert(m, ms)) == Join(MemberCost(m), MembersCost(ms))
    decreases |ms|
  {
    if ms == [] || !KeyLess(ms[0].key, m.key) {
      assert ([m] + ms)[1..] == ms;
    } else {
      InsertCost(m, ms[1..]);
      assert ([ms[0]] + Insert(m, ms[1..]))[1..] == Insert(m, ms[1..]);
    }
  }

  lemma {:induction false} SortCost(ms: seq<Keyed<Value>>)
    ensures MembersCost(Sort(ms)) == MembersCost(ms)
    decreases |ms|
  {
    if ms != [] {
      SortCost(ms[1..]);
      InsertCost(ms[0], Sort(ms[1..]));
    }
  }

  lemma {:induction false} InsertDenotes(h: Heap, p: Keyed<JsValue>, ps: seq<Keyed<JsValue>>, m: Keyed<Value>, ms: seq<Keyed<Value>>)
    requires p.key == m.key && Denotes(h, p.value, m.value) && DenotesMembers(h, ps, ms)
    ensures DenotesMembers(h, Insert(p, ps), Insert(m, ms))
    decreases |ps|
  {
    if ps != [] && KeyLess(ps[0].key, p.key) {
      InsertDenotes(h, p, ps[1..], m, ms[1..]);
    }
  }

  lemma {:induction false} SortDenotes(h: Heap, ps: seq<Keyed<JsValue>>, ms: seq<Keyed<Value>>)
    requires DenotesMembers(h, ps, ms)
    ensures DenotesMembers(h, Sort(ps), Sort(ms))
    decreases |ps|
  {
    if ps != [] {
      SortDenotes(h, ps[1..], ms[1..]);
      InsertDenotes(h, ps[0], Sort(ps[1..]), ms[0], Sort(ms[1..]));
    }
  }

  lemma {:induction false} InsertNormalized(m: Keyed<Value>, ms: seq<Keyed<Value>>)
    ensures NormalizeMembers(Insert(m, ms)) == Insert(Member(m.key, Normalize(m.value)), NormalizeMembers(ms))
    decreases |ms|
  {
    if ms != [] && KeyLess(ms[0].key, m.key) {
      InsertNormalized(m, ms[1..]);
      assert ([ms[0]] + Insert(m, ms[1..]))[1..] == Insert(m, ms[1..]);
      assert NormalizeMembers(ms)[1..] == NormalizeMembers(ms[1..]);
    } else {
      assert ([m] + ms)[1..] == ms;
    }
  }

  lemma {:induction false} SortNormalized(ms: seq<Keyed<Value>>)
    ensures NormalizeMembers(Sort(ms)) == Sort(NormalizeMembers(ms))
    decreases |ms|
  {
    if ms != [] {
      SortNormalized(ms[1..]);
      InsertNormalized(ms[0], Sort(ms[1..]));
      assert NormalizeMembers(ms)[1..] == NormalizeMembers(ms[1..]);
    }
  }

  ghost predicate HasValue(h: Heap, x: JsValue) { exists v: Value :: Denotes(h, x, v) }

  /** Values for the properties in their own order, from values for the sorted properties. */
  lemma {:induction false} Unsort(h: Heap, ps: seq<Keyed<JsValue>>, us: seq<Keyed<Value>>) returns (ms: seq<Keyed<Value>>)
    requires DenotesMembers(h, Sort(ps), us)
    ensures DenotesMembers(h, ps, ms) && Sort(ms) == us
  {
    SortKeepsElements(ps);
    forall i | 0 <= i < |ps| ensures HasValue(h, ps[i].value) {
      assert ps[i] in ps && ps[i] in Sort(ps);
      var k :| 0 <= k < |Sort(ps)| && Sort(ps)[k] == ps[i];
      assert Denotes(h, ps[i].value, us[k].value);
    }
    ms := PickValues(h, ps);
    SortDenotes(h, ps, ms);
    MembersUnique(h, Sort(ps), Sort(ms), us);
  }

  lemma {:induction false} PickValues(h: Heap, ps: seq<Keyed<JsValue>>) returns (ms: seq<Keyed<Value>>)
    requires forall i :: 0 <= i < |ps| ==> HasValue(h, ps[i].value)
    ensures DenotesMembers(h, ps, ms)
    decreases |ps|
  {
    ms := [];
    if ps != [] {
      var v :| Denotes(h, ps[0].value, v);
      var rest := PickValues(h, ps[1..]);
      ms := [Member(ps[0].key, v)] + rest;
    }
  }

  // ---- objects being visited -----------------------------------------------------------

  /** `x` lies strictly inside every tree that an active object denotes. */
  ghost predicate Inside(h: Heap, active: set<Id>, x: JsValue) {
    forall id, w :: id in active && Denotes(h, JsRef(id), w) ==> HasSmaller(h, x, w)
  }

  ghost predicate HasSmaller(h: Heap, x: JsValue, w: Value) {
    exists v :: Denotes(h, x, v) && CostOf(v).nodes < CostOf(w).nodes
  }

  lemma {:induction false} ItemSmaller(items: seq<Value>, i: nat)
    requires i < |items|
    ensures CostOf(items[i]).nodes <= ItemsCost(items).nodes
    decreases |items|
  {
    if i > 0 {
      ItemSmaller(items[1..], i - 1);
    }
  }

  lemma {:induction false} MemberSmaller(members: seq<Keyed<Value>>, i: nat)
    requires i < |members|
    ensures CostOf(members[i].value).nodes <= MembersCost(members).nodes
    decreases |members|
  {
    if i > 0 {
      MemberSmaller(members[1..], i - 1);
    }
  }

  ghost predicate IsChild(h: Heap, id: Id, y: JsValue) {
    id in h && ((h[id].JsArray? && y in h[id].elems)
                || (h[id].JsPlain? && exists p :: p in h[id].props && p.value == y))
  }

  lemma {:induction false} ChildSmaller(h: Heap, id: Id, y: JsValue, v: Value)
    requires IsChild(h, id, y) && Denotes(h, JsRef(id), v)
    ensures HasSmaller(h, y, v)
  {
    if v.Arr? {
      var i :| 0 <= i < |v.items| && h[id].elems[i] == y;
      ItemSmaller(v.items, i);
      assert Denotes(h, y, v.items[i]);
    } else {
      var i :| 0 <= i < |v.members| && h[id].props[i].value == y;
      MemberSmaller(v.members, i);
      assert Denotes(h, y, v.members[i].value);
    }
  }

  lemma {:induction false} ChildInside(h: Heap, active: set<Id>, id: Id, y: JsValue)
    requires Inside(h, active, JsRef(id)) && IsChild(h, id, y)
    ensures Inside(h, active + {id}, y)
  {
    forall a, w | a in active + {id} && Denotes(h, JsRef(a), w)
      ensures HasSmaller(h, y, w)
    {
      if a in active {
        assert HasSmaller(h, JsRef(id), w);
        var v :| Denotes(h, JsRef(id), v) && CostOf(v).nodes < CostOf(w).nodes;
        ChildSmaller(h, id, y, v);
        var u :| Denotes(h, y, u) && CostOf(u).nodes < CostOf(v).nodes;
      } else {
        ChildSmaller(h, id, y, w);
      }
    }
  }

  /** An object met inside itself denotes no tree. */
  lemma {:induction false} ActiveIsCyclic(h: Heap, active: set<Id>, id: Id, v: Value)
    requires id in active && Inside(h, active, JsRef(id))
    ensures !Denotes(h, JsRef(id), v)
  {
    if Denotes(h, JsRef(id), v) {
      assert HasSmaller(h, JsRef(id), v);
      var u :| Denotes(h, JsRef(id), u) && CostOf(u).nodes < CostOf(v).nodes;
      DenotesUnique(h, JsRef(id), u, v);
    }
  }

  ghost predicate Visited(
      num: Numerals, h: Heap, x: JsValue, v: Value, depth: nat, nodes: nat, chars: nat, text: Text) {
    Denotes(h, x, v) && Fits(CostOf(v), depth, nodes, chars) && text == Canon(num, v)
  }

  ghost predicate Refused(h: Heap, x: JsValue, depth: nat, nodes: nat, chars: nat) {
    forall w: Value :: Denotes(h, x, w) ==> !Fits(CostOf(w), depth, nodes, chars)
  }

  ghost predicate VisitedItems(
      num: Numerals, h: Heap, xs: seq<JsValue>, vs: seq<Value>, depth: nat, nodes: nat, chars: nat, text: Text) {
    DenotesItems(h, xs, vs) && Fits(ItemsCost(vs), depth, nodes, chars)
    && text == PrintItems(num, NormalizeItems(vs))
  }

  ghost predicate RefusedItems(h: Heap, xs: seq<JsValue>, depth: nat, nodes: nat, chars: nat) {
    forall ws: seq<Value> :: DenotesItems(h, xs, ws) ==> !Fits(ItemsCost(ws), depth, nodes, chars)
  }

  ghost predicate VisitedMembers(
      num: Numerals, h: Heap, ps: seq<Keyed<JsValue>>, ms: seq<Keyed<Value>>,
      depth: nat, nodes: nat, chars: nat, text: Text) {
    DenotesMembers(h, ps, ms) && Fits(MembersCost(ms), depth, nodes, chars)
    && text == PrintMembers(num, NormalizeMembers(ms))
  }

  ghost predicate RefusedMembers(h: Heap, ps: seq<Keyed<JsValue>>, depth: nat, nodes: nat, chars: nat) {
    forall ws: seq<Keyed<Value>> :: DenotesMembers(h, ps, ws) ==> !Fits(MembersCost(ws), depth, nodes, chars)
  }

  // ---- the visit -------------------------------------------------------------------------

  datatype Refusal = LimitExceeded | NonCanonicalNumber | BadString | NotATree | NonPlain | BadProperty

  class Canonicalizer {
    const num: Numerals
    const heap: Heap
    var nodes: nat
    var chars: nat
    var active: set<Id>

    constructor (num: Numerals, heap: Heap)
      ensures this.num == num && this.heap == heap && nodes == 0 && chars == 0 && active == {}
    {
      this.num, this.heap := num, heap;
      nodes, chars, active := 0, 0, {};
    }

    /** The counters after reading something of cost `c`. */
    twostate predicate Charged(c: Cost)
      reads this
    {
      nodes == old(nodes) + c.nodes && chars == old(chars) + c.chars && active == old(active)
    }

    ghost predicate Counting()
      reads this
    {
      nodes <= MAX_NODES && chars <= MAX_CHARS
    }

    /** `visit`: succeeds exactly on finite trees within the limits, with their canonical text. */
    method Visit(x: JsValue, depth: nat) returns (r: Result<Text, Refusal>, ghost v: Value)
      requires Counting() && (x.JsRef? ==> Inside(heap, active, x))
      modifies this
      ensures nodes >= old(nodes)
      ensures r.Ok? ==> Visited(num, heap, x, v, depth, old(nodes), old(chars), r.value) && Charged(CostOf(v))
      ensures r.Err? ==> Refused(heap, x, depth, old(nodes), old(chars))
      decreases MAX_NODES + 1 - nodes, 0
    {
      v := Null;
      nodes := nodes + 1;
      if nodes > MAX_NODES || depth > MAX_DEPTH {
        return Err(LimitExceeded), v;
      }
      match x
      case JsNull => return Ok(NULL_TEXT), Null;
      case JsBool(b) => return Ok(Print(num, Bool(b))), Bool(b);
      case JsNumber(n) => return Ok(num.show(n)), Num(n);
      case JsOddNumber => return Err(NonCanonicalNumber), v;
      case JsString(s) =>
        chars := chars + |s|;
        if chars > MAX_CHARS || !WellFormed(s) {
          return Err(BadString), v;
        }
        return Ok(PrintString(s)), Str(s);
      case JsOther => return Err(NotATree), v;
      case JsRef(id) =>
        if id in active {
          forall w ensures !Denotes(heap, x, w) { ActiveIsCyclic(heap, active, id, w); }
          return Err(NotATree), v;
        }
        if id !in heap || heap[id].JsExotic? {
          return Err(NonPlain), v;
        }
        if heap[id].JsArray? {
          r, v := VisitArray(id, depth);
        } else {
          r, v := VisitObject(id, depth);
        }
    }

    method VisitArray(id: Id, depth: nat) returns (r: Result<Text, Refusal>, ghost v: Value)
      requires Counting() && nodes >= 1 && depth <= MAX_DEPTH && id !in active
      requires id in heap && heap[id].JsArray? && Inside(heap, active, JsRef(id))
      modifies this
      ensures nodes >= old(nodes)
      ensures r.Ok? ==> Visited(num, heap, JsRef(id), v, depth, old(nodes) - 1, old(chars), r.value)
                        && nodes + 1 == old(nodes) + CostOf(v).nodes && chars == old(chars) + CostOf(v).chars
                        && active == old(active)
      ensures r.Err? ==> Refused(heap, JsRef(id), depth, old(nodes) - 1, old(chars))
      decreases MAX_NODES + 1 - nodes, |heap[id].elems| + 3
    {
      v := Null;
      var elems := heap[id].elems;
      var i := 0;
      while i < |elems|
        invariant 0 <= i <= |elems| && nodes == old(nodes) && active == old(active)
        invariant chars == old(chars) + IndexChars(i) <= MAX_CHARS
      {
        chars := chars + DigitCount(i);
        i := i + 1;
        if chars > MAX_CHARS {
          IndexCharsGrow(i, |elems|);
          return Err(BadProperty), v;
        }
      }
      active := active + {id};
      forall y | y in elems ensures Inside(heap, active, y) { ChildInside(heap, old(active), id, y); }
      var inside, vs := VisitItems(elems, depth);
      if inside.Err? {
        ArrayRefused(heap, id, depth, old(nodes), old(chars));
        return Err(inside.error), v;
      }
      active := active - {id};
      v := Arr(vs);
      return Ok([OPEN_BRACKET] + inside.value + [CLOSE_BRACKET]), v;
    }

    method VisitObject(id: Id, depth: nat) returns (r: Result<Text, Refusal>, ghost v: Value)
      requires Counting() && nodes >= 1 && depth <= MAX_DEPTH && id !in active
      requires id in heap && heap[id].JsPlain? && Inside(heap, active, JsRef(id))
      modifies this
      ensures nodes >= old(nodes)
      ensures r.Ok? ==> Visited(num, heap, JsRef(id), v, depth, old(nodes) - 1, old(chars), r.value)
                        && nodes + 1 == old(nodes) + CostOf(v).nodes && chars == old(chars) + CostOf(v).chars
                        && active == old(active)
      ensures r.Err? ==> Refused(heap, JsRef(id), depth, old(nodes) - 1, old(chars))
      decreases MAX_NODES + 1 - nodes, |heap[id].props| + 3
    {
      v := Null;
      var props := heap[id].props;
      var counted := CountKeys(props);
      if !counted {
        TooManyKeys(heap, id, depth, old(nodes), old(chars));
        return Err(BadProperty), v;
      }
      active := active + {id};
      var sorted := Sort(props);
      SortKeepsElements(props);
      forall p | p in sorted ensures Inside(heap, active, p.value) {
        ChildInside(heap, old(active), id, p.value);
      }
      ghost var charged := chars;
      var inside, us := VisitMembers(sorted, depth);
      if inside.Err? {
        ObjectRefused(heap, id, depth, old(nodes), old(chars));
        return Err(inside.error), v;
      }
      active := active - {id};
      assert chars == charged + MembersCost(us).chars;
      v := ObjectValue(num, heap, id, us, depth, old(nodes), old(chars), inside.value);
      return Ok([OPEN_BRACE] + inside.value + [CLOSE_BRACE]), v;
    }

    /** The loop over property names: adds their lengths until the limit is passed. */
    method CountKeys(props: seq<Keyed<JsValue>>) returns (ok: bool)
      requires Counting()
      modifies this`chars
      ensures ok <==> old(chars) + KeyChars(props) <= MAX_CHARS
      ensures ok ==> chars == old(chars) + KeyChars(props)
    {
      var i := 0;
      assert props[0..] == props;
      while i < |props|
        invariant 0 <= i <= |props|
        invariant chars + KeyChars(props[i..]) == old(chars) + KeyChars(props) && chars <= MAX_CHARS
      {
        assert props[i..][1..] == props[i + 1..];
        chars := chars + |props[i].key|;
        i := i + 1;
        if chars > MAX_CHARS {
          return false;
        }
      }
      return true;
    }

    method VisitItems(xs: seq<JsValue>, depth: nat) returns (r: Result<Text, Refusal>, ghost vs: seq<Value>)
      requires Counting() && depth <= MAX_DEPTH && forall y :: y in xs ==> Inside(heap, active, y)
      modifies this
      ensures nodes >= old(nodes)
      ensures r.Ok? ==> VisitedItems(num, heap, xs, vs, depth, old(nodes), old(chars), r.value) && Charged(ItemsCost(vs))
      ensures r.Err? ==> RefusedItems(heap, xs, depth, old(nodes), old(chars))
      decreases MAX_NODES + 1 - nodes, |xs| + 2
    {
      vs := [];
      if xs == [] {
        return Ok([]), vs;
      }
      assert xs[0] in xs;
      var first, v := Visit(xs[0], depth + 1);
      if first.Err? {
        return Err(first.error), vs;
      }
      var rest, more := VisitItems(xs[1..], depth);
      if rest.Err? {
        RestOfItemsRefused(heap, xs, v, depth, old(nodes), old(chars));
        return Err(rest.error), vs;
      }
      vs := [v] + more;
      ConsItems(num, heap, xs, v, more, depth, old(nodes), old(chars), first.value, rest.value);
      if |xs| == 1 {
        return first, vs;
      }
      return Ok(first.value + ([COMMA] + rest.value)), vs;
    }

    method VisitMembers(ps: seq<Keyed<JsValue>>, depth: nat) returns (r: Result<Text, Refusal>, ghost ms: seq<Keyed<Value>>)
      requires Counting() && depth <= MAX_DEPTH && forall p :: p in ps ==> Inside(heap, active, p.value)
      modifies this
      ensures nodes >= old(nodes)
      ensures r.Ok? ==> VisitedMembers(num, heap, ps, ms, depth, old(nodes), old(chars), r.value) && Charged(MembersCost(ms))
      ensures r.Err? ==> RefusedMembers(heap, ps, depth, old(nodes), old(chars))
      decreases MAX_NODES + 1 - nodes, |ps| + 2
    {
      ms := [];
      if ps == [] {
        return Ok([]), ms;
      }
      assert ps[0] in ps;
      var text, m := VisitMember(ps[0], depth);
      if text.Err? {
        return Err(text.error), ms;
      }
      var rest, more := VisitMembers(ps[1..], depth);
      if rest.Err? {
        RestOfMembersRefused(heap, ps, m, depth, old(nodes), old(chars));
        return Err(rest.error), ms;
      }
      ms := [m] + more;
      ConsMembers(num, heap, ps, m, more, depth, old(nodes), old(chars), text.value, rest.value);
      if |ps| == 1 {
        return text, ms;
      }
      return Ok(text.value + ([COMMA] + rest.value)), ms;
    }

    method VisitMember(p: Keyed<JsValue>, depth: nat) returns (r: Result<Text, Refusal>, ghost m: Keyed<Value>)
      requires Counting() && depth <= MAX_DEPTH && Inside(heap, active, p.value)
      modifies this
      ensures nodes >= old(nodes)
      ensures r.Ok? ==> p.key == m.key && Denotes(heap, p.value, m.value)
                        && Fits(MemberCost(m), depth, old(nodes), old(chars))
                        && r.value == PrintMember(num, Member(m.key, Normalize(m.value))) && Charged(MemberCost(m))
      ensures r.Err? ==> forall w: Keyed<Value> :: w.key == p.key && Denotes(heap, p.value, w.value)
                                                   ==> !Fits(MemberCost(w), depth, old(nodes), old(chars))
      decreases MAX_NODES + 1 - nodes, 1
    {
      m := Member(p.key, Null);
      var key, k := Visit(JsString(p.key), depth + 1);
      if key.Err? {
        assert Denotes(heap, JsString(p.key), Str(p.key));
        return Err(key.error), m;
      }
      var first, v := Visit(p.value, depth + 1);
      if first.Err? {
        return Err(first.error), m;
      }
      m := Member(p.key, v);
      return Ok(key.value + ([COLON] + first.value)), m;
    }
  }

  // ---- the steps of the visit, as facts about trees ------------------------------------------

  lemma {:induction false} IndexCharsGrow(i: nat, n: nat)
    requires i <= n
    ensures IndexChars(i) <= IndexChars(n)
    decreases n - i
  {
    if i < n {
      IndexCharsGrow(i, n - 1);
    }
  }

  lemma {:induction false} KeyCharsSame(h: Heap, ps: seq<Keyed<JsValue>>, ms: seq<Keyed<Value>>)
    requires DenotesMembers(h, ps, ms)
    ensures KeyChars(ps) == KeyChars(ms)
    decreases |ps|
  {
    if ps != [] {
      assert DenotesMembers(h, ps[1..], ms[1..]);
      KeyCharsSame(h, ps[1..], ms[1..]);
    }
  }

  /** The cost of an object is that of its names and of its members in visiting order. */
  lemma {:induction false} ObjectCost(h: Heap, id: Id, w: Value)
    requires id in h && h[id].JsPlain? && Denotes(h, JsRef(id), w)
    ensures w.Obj? && DenotesMembers(h, Sort(h[id].props), Sort(w.members))
    ensures CostOf(w) == Join(Cost(1, KeyChars(h[id].props), 0, true), MembersCost(Sort(w.members)))
  {
    KeyCharsSame(h, h[id].props, w.members);
    SortDenotes(h, h[id].props, w.members);
    SortCost(w.members);
  }

  lemma {:induction false} ObjectValue(
      num: Numerals, h: Heap, id: Id, us: seq<Keyed<Value>>, depth: nat, nodes: nat, chars: nat, inside: Text)
    returns (v: Value)
    requires id in h && h[id].JsPlain? && nodes >= 1 && depth <= MAX_DEPTH
    requires VisitedMembers(num, h, Sort(h[id].props), us, depth, nodes, chars + KeyChars(h[id].props), inside)
    ensures Visited(num, h, JsRef(id), v, depth, nodes - 1, chars, [OPEN_BRACE] + inside + [CLOSE_BRACE])
    ensures CostOf(v).nodes == 1 + MembersCost(us).nodes
    ensures CostOf(v).chars == KeyChars(h[id].props) + MembersCost(us).chars
  {
    var ms := Unsort(h, h[id].props, us);
    v := Obj(ms);
    ObjectCost(h, id, v);
    SortNormalized(ms);
  }

  lemma {:induction false} ObjectRefused(h: Heap, id: Id, depth: nat, nodes: nat, chars: nat)
    requires id in h && h[id].JsPlain? && nodes >= 1 && depth <= MAX_DEPTH
    requires RefusedMembers(h, Sort(h[id].props), depth, nodes, chars + KeyChars(h[id].props))
    ensures Refused(h, JsRef(id), depth, nodes - 1, chars)
  {
    var k := KeyChars(h[id].props);
    forall w: Value | Denotes(h, JsRef(id), w) ensures !Fits(CostOf(w), depth, nodes - 1, chars) {
      ObjectCost(h, id, w);
      MembersRefused(h, Sort(h[id].props), Sort(w.members), depth, nodes, chars + k);
      JoinFits(k, MembersCost(Sort(w.members)), depth, nodes, chars);
    }
  }

  lemma {:induction false} MembersRefused(
      h: Heap, ps: seq<Keyed<JsValue>>, ws: seq<Keyed<Value>>, depth: nat, nodes: nat, chars: nat)
    requires RefusedMembers(h, ps, depth, nodes, chars) && DenotesMembers(h, ps, ws)
    ensures !Fits(MembersCost(ws), depth, nodes, chars)
  {
  }

  lemma {:induction false} JoinFits(k: nat, c: Cost, depth: nat, nodes: nat, chars: nat)
    requires nodes >= 1 && depth <= MAX_DEPTH
    ensures Fits(Join(Cost(1, k, 0, true), c), depth, nodes - 1, chars) <==> Fits(c, depth, nodes, chars + k)
  {
  }

  lemma {:induction false} TooManyKeys(h: Heap, id: Id, depth: nat, nodes: nat, chars: nat)
    requires id in h && h[id].JsPlain? && nodes >= 1 && chars + KeyChars(h[id].props) > MAX_CHARS
    ensures Refused(h, JsRef(id), depth, nodes - 1, chars)
  {
    forall w: Value | Denotes(h, JsRef(id), w) ensures !Fits(CostOf(w), depth, nodes - 1, chars) {
      ObjectCost(h, id, w);
    }
  }

  lemma {:induction false} ArrayRefused(h: Heap, id: Id, depth: nat, nodes: nat, chars: nat)
    requires id in h && h[id].JsArray? && nodes >= 1
    requires RefusedItems(h, h[id].elems, depth, nodes, chars + IndexChars(|h[id].elems|))
    ensures Refused(h, JsRef(id), depth, nodes - 1, chars)
  {
    forall w: Value | Denotes(h, JsRef(id), w) ensures !Fits(CostOf(w), depth, nodes - 1, chars) {
      assert DenotesItems(h, h[id].elems, w.items);
    }
  }

  lemma {:induction false} RestOfItemsRefused(h: Heap, xs: seq<JsValue>, v: Value, depth: nat, nodes: nat, chars: nat)
    requires xs != [] && Denotes(h, xs[0], v)
    requires RefusedItems(h, xs[1..], depth, nodes + CostOf(v).nodes, chars + CostOf(v).chars)
    ensures RefusedItems(h, xs, depth, nodes, chars)
  {
    forall ws: seq<Value> | DenotesItems(h, xs, ws) ensures !Fits(ItemsCost(ws), depth, nodes, chars) {
      DenotesUnique(h, xs[0], v, ws[0]);
      assert DenotesItems(h, xs[1..], ws[1..]);
    }
  }

  lemma {:induction false} RestOfMembersRefused(
      h: Heap, ps: seq<Keyed<JsValue>>, m: Keyed<Value>, depth: nat, nodes: nat, chars: nat)
    requires ps != [] && ps[0].key == m.key && Denotes(h, ps[0].value, m.value)
    requires RefusedMembers(h, ps[1..], depth, nodes + MemberCost(m).nodes, chars + MemberCost(m).chars)
    ensures RefusedMembers(h, ps, depth, nodes, chars)
  {
    forall ws: seq<Keyed<Value>> | DenotesMembers(h, ps, ws) ensures !Fits(MembersCost(ws), depth, nodes, chars) {
      DenotesUnique(h, ps[0].value, m.value, ws[0].value);
      assert ws[0] == m && DenotesMembers(h, ps[1..], ws[1..]);
    }
  }

  lemma {:induction false} FirstItem(num: Numerals, v: Value, more: seq<Value>)
    ensures ItemsCost([v] + more) == Join(Below(CostOf(v)), ItemsCost(more))
    ensures PrintItems(num, NormalizeItems([v] + more))
            == if more == [] then Canon(num, v) else Canon(num, v) + ([COMMA] + PrintItems(num, NormalizeItems(more)))
  {
    var vs := [v] + more;
    assert vs[1..] == more && NormalizeItems(vs)[1..] == NormalizeItems(more);
  }

  lemma {:induction false} ConsItems(
      num: Numerals, h: Heap, xs: seq<JsValue>, v: Value, more: seq<Value>,
      depth: nat, nodes: nat, chars: nat, text: Text, rest: Text)
    requires xs != [] && Visited(num, h, xs[0], v, depth + 1, nodes, chars, text)
    requires VisitedItems(num, h, xs[1..], more, depth, nodes + CostOf(v).nodes, chars + CostOf(v).chars, rest)
    ensures VisitedItems(num, h, xs, [v] + more, depth, nodes, chars,
                         if |xs| == 1 then text else text + ([COMMA] + rest))
    ensures ItemsCost([v] + more).nodes == CostOf(v).nodes + ItemsCost(more).nodes
    ensures ItemsCost([v] + more).chars == CostOf(v).chars + ItemsCost(more).chars
  {
    hide PrintItems, NormalizeItems, Canon, CostOf, ItemsCost, Denotes;
    FirstItem(num, v, more);
    assert ([v] + more)[1..] == more;
  }

  lemma {:induction false} ConsMembers(
      num: Numerals, h: Heap, ps: seq<Keyed<JsValue>>, m: Keyed<Value>, more: seq<Keyed<Value>>,
      depth: nat, nodes: nat, chars: nat, text: Text, rest: Text)
    requires ps != [] && ps[0].key == m.key && Denotes(h, ps[0].value, m.value)
    requires Fits(MemberCost(m), depth, nodes, chars) && text == PrintMember(num, Member(m.key, Normalize(m.value)))
    requires VisitedMembers(num, h, ps[1..], more, depth, nodes + MemberCost(m).nodes, chars + MemberCost(m).chars, rest)
    ensures VisitedMembers(num, h, ps, [m] + more, depth, nodes, chars,
                           if |ps| == 1 then text else text + ([COMMA] + rest))
    ensures MembersCost([m] + more).nodes == MemberCost(m).nodes + MembersCost(more).nodes
    ensures MembersCost([m] + more).chars == MemberCost(m).chars + MembersCost(more).chars
  {
    var ms := [m] + more;
    assert ms[1..] == more && NormalizeMembers(ms)[1..] == NormalizeMembers(more);
  }

  /** No object has two properties of one name. */
  ghost predicate PropsDistinct(h: Heap) { forall id :: id in h && h[id].JsPlain? ==> DistinctKeys(h[id].props) }

  lemma {:induction false} DenotedDistinct(h: Heap, x: JsValue, v: Value)
    requires PropsDistinct(h) && Denotes(h, x, v)
    ensures Distinct(v)
    decreases v
  {
    match v
    case Arr(items) =>
      forall i | 0 <= i < |items| ensures Distinct(items[i]) {
        DenotedDistinct(h, h[x.id].elems[i], items[i]);
      }
    case Obj(members) =>
      var ps := h[x.id].props;
      assert DistinctKeys(ps) && forall i :: 0 <= i < |members| ==> members[i].key == ps[i].key;
      forall i | 0 <= i < |members| ensures Distinct(members[i].value) {
        DenotedDistinct(h, ps[i].value, members[i].value);
      }
    case _ =>
  }

  /** The text reads as the tree that `x` denotes, its keys in ascending order of their units at every depth. */
  ghost predicate ReadsInOrder(num: Numerals, h: Heap, x: JsValue, t: Text)
  {
    && ReadValue(num, t).Some? && ReadValue(num, t).value.rest == []
    && KeysAscend(ReadValue(num, t).value.value)
    && exists v :: Denotes(h, x, v) && Equiv(ReadValue(num, t).value.value, v)
  }

  /** `canonicalFamilyJson(value)`: accepts exactly the finite trees within the limits. */
  method CanonicalFamilyJson(num: Numerals, heap: Heap, x: JsValue) returns (r: Result<Text, Refusal>)
    ensures r.Ok? <==> exists v: Value :: Denotes(heap, x, v) && Accepted(v)
    ensures forall v: Value :: r.Ok? && Denotes(heap, x, v) ==> r.value == Canon(num, v)
    ensures r.Ok? && Faithful(num) && PropsDistinct(heap) ==> ReadsInOrder(num, heap, x, r.value)
  {
    var visitor := new Canonicalizer(num, heap);
    ghost var v;
    r, v := visitor.Visit(x, 0);
    if r.Ok? {
      assert Accepted(v);
      forall w: Value | Denotes(heap, x, w) ensures w == v { DenotesUnique(heap, x, v, w); }
      if Faithful(num) && PropsDistinct(heap) {
        DenotedDistinct(heap, x, v);
        CanonAscends(num, v);
      }
    }
  }
}
