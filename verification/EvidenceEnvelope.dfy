/** Sealing an evidence envelope and assessing its integrity. */
module EvidenceEnvelope {
  import opened Wrappers
  import opened JsText
  import opened JsonText
  import opened CanonicalJson
  import opened CanonicalVisit

  // Both work on the canonical text, so a seal survives any reordering of members, and two
  // envelopes with the same seal have the same content.

  // ---- editing members ------------------------------------------------------------

  type Members = seq<Keyed<Value>>

  function Get(ms: Members, key: Text): Option<Value>
  {
    if ms == [] then None
    else if ms[0].key == key then Some(ms[0].value)
    else Get(ms[1..], key)
  }

  function Remove(ms: Members, key: Text): Members
  {
    if ms == [] then []
    else if ms[0].key == key then Remove(ms[1..], key)
    else [ms[0]] + Remove(ms[1..], key)
  }

  /** Assignment to a property: in place when present, else appended. */
  function Put(ms: Members, key: Text, v: Value): Members
  {
    if ms == [] then [Member(key, v)]
    else if ms[0].key == key then [Member(key, v)] + ms[1..]
    else [ms[0]] + Put(ms[1..], key, v)
  }

  lemma {:induction false} RemoveElements(ms: Members, key: Text)
    ensures forall m :: m in Remove(ms, key) ==> m in ms && m.key != key
    ensures DistinctKeys(ms) ==> DistinctKeys(Remove(ms, key))
    ensures Increasing(ms) ==> Increasing(Remove(ms, key))
    decreases |ms|
  {
    if ms != [] {
      RemoveElements(ms[1..], key);
      var rest := Remove(ms[1..], key);
      forall j | 0 <= j < |rest|
        ensures exists k :: 1 <= k < |ms| && ms[k] == rest[j]
      {
        assert rest[j] in rest;
        var k :| 0 <= k < |ms[1..]| && ms[1..][k] == rest[j];
        assert ms[k + 1] == rest[j];
      }
    }
  }

  lemma {:induction false} RemoveMissing(ms: Members, key: Text)
    requires Get(ms, key) == None
    ensures Remove(ms, key) == ms
    decreases |ms|
  {
    if ms != [] {
      RemoveMissing(ms[1..], key);
    }
  }

  lemma {:induction false} GetRemoved(ms: Members, key: Text)
    ensures Get(Remove(ms, key), key) == None
    decreases |ms|
  {
    if ms != [] {
      GetRemoved(ms[1..], key);
      assert ms[0].key != key ==> Remove(ms, key)[1..] == Remove(ms[1..], key);
    }
  }

  lemma {:induction false} RemoveAppended(ms: Members, key: Text, v: Value)
    ensures Remove(ms + [Member(key, v)], key) == Remove(ms, key)
    decreases |ms|
  {
    if ms == [] {
      assert (ms + [Member(key, v)])[1..] == [];
    } else {
      RemoveAppended(ms[1..], key, v);
      assert (ms + [Member(key, v)])[1..] == ms[1..] + [Member(key, v)];
    }
  }

  lemma {:induction false} GetAppended(ms: Members, m: Keyed<Value>, key: Text)
    ensures Get(ms + [m], key) == if Get(ms, key).Some? then Get(ms, key) else if m.key == key then Some(m.value) else None
    decreases |ms|
  {
    if ms == [] {
      assert (ms + [m])[1..] == [];
    } else {
      GetAppended(ms[1..], m, key);
      assert (ms + [m])[1..] == ms[1..] + [m];
    }
  }

  lemma {:induction false} PutFacts(ms: Members, key: Text, v: Value, other: Text)
    requires DistinctKeys(ms)
    ensures Get(Put(ms, key, v), other) == if other == key then Some(v) else Get(ms, other)
    ensures DistinctKeys(Put(ms, key, v))
    ensures forall m :: m in Put(ms, key, v) ==> m in ms || m == Member(key, v)
    decreases |ms|
  {
    if ms != [] {
      PutFacts(ms[1..], key, v, other);
      var put := Put(ms, key, v);
      var rest := put[1..];
      assert ms[0].key == key ==> rest == ms[1..];
      assert ms[0].key != key ==> rest == Put(ms[1..], key, v);
      forall j | 0 <= j < |rest|
        ensures rest[j].key != ms[0].key
      {
        assert rest[j] in rest;
        assert ms[0].key != key ==> rest[j] in ms[1..] || rest[j] == Member(key, v);
      }
      assert put == [put[0]] + rest;
    }
  }

  lemma {:induction false} GetMissing(ms: Members, key: Text)
    requires forall m :: m in ms ==> m.key != key
    ensures Get(ms, key) == None
    decreases |ms|
  {
    if ms != [] {
      assert ms[0] in ms;
      GetMissing(ms[1..], key);
    }
  }

  lemma {:induction false} MissingKey(ms: Members, key: Text)
    requires Get(ms, key) == None
    ensures forall m :: m in ms ==> m.key != key
    decreases |ms|
  {
    if ms != [] {
      MissingKey(ms[1..], key);
    }
  }

  // ---- editing and sorting commute ----------------------------------------------------

  lemma {:induction false} RemoveFromInserted(m: Keyed<Value>, ms: Members, key: Text)
    requires Increasing(ms)
    ensures Remove(Insert(m, ms), key)
            == if m.key == key then Remove(ms, key) else Insert(m, Remove(ms, key))
    decreases |ms|
  {
    if ms != [] && KeyLess(ms[0].key, m.key) {
      RemoveFromInserted(m, ms[1..], key);
      assert ([ms[0]] + Insert(m, ms[1..]))[1..] == Insert(m, ms[1..]);
    } else {
      assert ([m] + ms)[1..] == ms;
      NothingLess(m, ms, key);
    }
  }

  /** When nothing in a sorted list is below `m`, nothing is after a removal either. */
  lemma {:induction false} NothingLess(m: Keyed<Value>, ms: Members, key: Text)
    requires Increasing(ms) && (ms == [] || !KeyLess(ms[0].key, m.key))
    ensures Insert(m, Remove(ms, key)) == [m] + Remove(ms, key)
  {
    var rest := Remove(ms, key);
    if rest != [] {
      RemoveElements(ms, key);
      assert rest[0] in rest;
      var j :| 0 <= j < |ms| && ms[j] == rest[0];
      if KeyLess(rest[0].key, m.key) && j > 0 {
        KeyLessTransitive(ms[0].key, ms[j].key, m.key);
      }
    }
  }

  lemma {:induction false} RemoveSorted(ms: Members, key: Text)
    requires DistinctKeys(ms)
    ensures Remove(Sort(ms), key) == Sort(Remove(ms, key))
    decreases |ms|
  {
    if ms != [] {
      RemoveSorted(ms[1..], key);
      SortIncreasing(ms[1..]);
      RemoveFromInserted(ms[0], Sort(ms[1..]), key);
    }
  }

  lemma {:induction false} GetFromInserted(m: Keyed<Value>, ms: Members, key: Text)
    requires forall x :: x in ms ==> x.key != m.key
    ensures Get(Insert(m, ms), key) == if m.key == key then Some(m.value) else Get(ms, key)
    decreases |ms|
  {
    if ms != [] && KeyLess(ms[0].key, m.key) {
      assert ms[0] in ms;
      GetFromInserted(m, ms[1..], key);
      assert ([ms[0]] + Insert(m, ms[1..]))[1..] == Insert(m, ms[1..]);
    } else {
      assert ([m] + ms)[1..] == ms;
    }
  }

  lemma {:induction false} GetSorted(ms: Members, key: Text)
    requires DistinctKeys(ms)
    ensures Get(Sort(ms), key) == Get(ms, key)
    decreases |ms|
  {
    if ms != [] {
      GetSorted(ms[1..], key);
      SortKeepsElements(ms[1..]);
      forall x | x in Sort(ms[1..]) ensures x.key != ms[0].key { assert x in ms[1..]; }
      GetFromInserted(ms[0], Sort(ms[1..]), key);
    }
  }

  lemma {:induction false} EditsNormalized(ms: Members, key: Text)
    ensures Remove(NormalizeMembers(ms), key) == NormalizeMembers(Remove(ms, key))
    ensures Get(NormalizeMembers(ms), key)
            == match Get(ms, key) case Some(v) => Some(Normalize(v)) case None => None
    decreases |ms|
  {
    if ms != [] {
      EditsNormalized(ms[1..], key);
      assert NormalizeMembers(ms)[1..] == NormalizeMembers(ms[1..]);
      assert ms[0].key != key ==> Remove(ms, key)[1..] == Remove(ms[1..], key);
    }
  }

  lemma {:induction false} PutBackRemoved(ms: Members, key: Text, v: Value)
    requires Increasing(ms) && Get(ms, key) == Some(v)
    ensures Insert(Member(key, v), Remove(ms, key)) == ms
    decreases |ms|
  {
    if ms[0].key == key {
      forall x | x in ms[1..]
        ensures x.key != key
      {
        var j :| 1 <= j < |ms| && ms[j] == x;
        KeyLessTotal(ms[0].key, ms[j].key);
      }
      GetMissing(ms[1..], key);
      RemoveMissing(ms[1..], key);
      if |ms| > 1 {
        KeyLessTotal(ms[0].key, ms[1].key);
      }
    } else {
      PutBackRemoved(ms[1..], key, v);
      var j := IndexOfKey(ms[1..], key, v);
      assert KeyLess(ms[0].key, ms[j + 1].key);
      assert ([ms[0]] + Remove(ms[1..], key))[1..] == Remove(ms[1..], key);
    }
  }

  lemma {:induction false} IndexOfKey(ms: Members, key: Text, v: Value) returns (j: nat)
    requires Get(ms, key) == Some(v)
    ensures j < |ms| && ms[j] == Member(key, v)
    decreases |ms|
  {
    if ms[0].key == key {
      j := 0;
    } else {
      j := IndexOfKey(ms[1..], key, v);
      j := j + 1;
    }
  }

  // ---- acceptance does not depend on member order ----------------------------------------

  lemma {:induction false} SortKeyChars(ms: Members)
    ensures KeyChars(Sort(ms)) == KeyChars(ms)
    decreases |ms|
  {
    if ms != [] {
      SortKeyChars(ms[1..]);
      InsertKeyChars(ms[0], Sort(ms[1..]));
    }
  }

  lemma {:induction false} InsertKeyChars(m: Keyed<Value>, ms: Members)
    ensures KeyChars(Insert(m, ms)) == |m.key| + KeyChars(ms)
    decreases |ms|
  {
    if ms != [] && KeyLess(ms[0].key, m.key) {
      InsertKeyChars(m, ms[1..]);
      assert ([ms[0]] + Insert(m, ms[1..]))[1..] == Insert(m, ms[1..]);
    } else {
      assert ([m] + ms)[1..] == ms;
    }
  }

  lemma {:induction false} NormalizeCost(v: Value)
    ensures CostOf(Normalize(v)) == CostOf(v)
    decreases v, 0
  {
    match v
    case Arr(items) => NormalizeItemsCost(items);
    case Obj(members) =>
      var ms := NormalizeMembers(members);
      NormalizeMembersCost(members);
      SortCost(ms);
      SortKeyChars(ms);
    case _ =>
  }

  lemma {:induction false} NormalizeItemsCost(items: seq<Value>)
    ensures ItemsCost(NormalizeItems(items)) == ItemsCost(items)
    decreases items, 1
  {
    if items != [] {
      NormalizeCost(items[0]);
      NormalizeItemsCost(items[1..]);
      assert NormalizeItems(items)[1..] == NormalizeItems(items[1..]);
    }
  }

  lemma {:induction false} NormalizeMembersCost(members: Members)
    ensures MembersCost(NormalizeMembers(members)) == MembersCost(members)
    ensures KeyChars(NormalizeMembers(members)) == KeyChars(members)
    decreases members, 1
  {
    if members != [] {
      NormalizeCost(members[0].value);
      NormalizeMembersCost(members[1..]);
      assert NormalizeMembers(members)[1..] == NormalizeMembers(members[1..]);
    }
  }

  /** Equivalent values are accepted alike. */
  lemma {:induction false} AcceptedUpToOrder(a: Value, b: Value)
    requires Distinct(a) && Distinct(b) && Equiv(a, b)
    ensures Accepted(a) <==> Accepted(b)
  {
    NormalForms(a, b);
    NormalizeCost(a);
    NormalizeCost(b);
  }

  // ---- sealing and assessing -----------------------------------------------------------------

  /** `hash` is SHA-256 in hex; `shaped` is the field-by-field envelope validator. */
  datatype Context = Context(num: Numerals, hash: Text -> Text, shaped: Value -> bool)

  ghost predicate Sound(c: Context) {
    Faithful(c.num)
    && forall a, b :: Distinct(a) && Distinct(b) && Equiv(a, b) ==> (c.shaped(a) <==> c.shaped(b))
  }

  const PAYLOAD: Text := Literal("payload")
  const PAYLOAD_SHA: Text := Literal("payloadSha256")
  const ENVELOPE_SHA: Text := Literal("envelopeSha256")

  datatype SealError = NotCanonical | BadEnvelope

  /** `familyJsonSha256`. */
  function Sha(c: Context, v: Value): Result<Text, SealError>
  {
    if Accepted(v) then Ok(c.hash(Canon(c.num, v))) else Err(NotCanonical)
  }

  /** `snapshot`: parsing the canonical text. */
  function Snapshot(v: Value): Result<Value, SealError>
  {
    if Accepted(v) then Ok(Normalize(v)) else Err(NotCanonical)
  }

  predicate ValidEnvelope(c: Context, v: Value)
  {
    Accepted(v) && v.Obj? && c.shaped(v)
  }

  /** `sealEvidenceEnvelope`. */
  function Seal(c: Context, unsigned: Value): Result<Value, SealError>
  {
    var e :- Snapshot(unsigned);
    if !e.Obj? then Err(BadEnvelope)
    else
      var bare := Remove(e.members, ENVELOPE_SHA);
      match Get(bare, PAYLOAD)
      case None => Err(NotCanonical)
      case Some(payload) =>
        var payloadSha :- Sha(c, payload);
        var body := Put(bare, PAYLOAD_SHA, Str(payloadSha));
        var envelopeSha :- Sha(c, Obj(body));
        var sealed := Obj(body + [Member(ENVELOPE_SHA, Str(envelopeSha))]);
        if ValidEnvelope(c, sealed) then Ok(sealed) else Err(BadEnvelope)
  }

  datatype Integrity = NotEstablished | DigestMismatch | Matched

  /** The integrity part of `assessEvidenceEnvelope`. */
  function AssessIntegrity(c: Context, input: Value): Integrity
  {
    if !ValidEnvelope(c, input) then NotEstablished
    else
      var members := Normalize(input).members;
      var body := Obj(Remove(members, ENVELOPE_SHA));
      match (Get(members, ENVELOPE_SHA), Get(members, PAYLOAD), Get(members, PAYLOAD_SHA))
      case (Some(envelopeSha), Some(payload), Some(payloadSha)) =>
        if envelopeSha == Str(c.hash(Canon(c.num, body))) && payloadSha == Str(c.hash(Canon(c.num, payload)))
        then Matched else DigestMismatch
      case _ => DigestMismatch
  }

  lemma {:induction false} CanonOfNormal(num: Numerals, v: Value)
    requires Distinct(v)
    ensures Canon(num, Normalize(v)) == Canon(num, v)
  {
    NormalizeIdempotent(v);
  }

  /** What the assessor finds in a normalized object, in terms of the object itself. */
  lemma {:induction false} NormalizedFields(ms: Members, key: Text)
    requires Distinct(Obj(ms))
    ensures var n := Normalize(Obj(ms)).members;
            && Remove(n, key) == Normalize(Obj(Remove(ms, key))).members
            && Get(n, key) == (match Get(ms, key) case Some(v) => Some(Normalize(v)) case None => None)
  {
    var p := NormalizeMembers(ms);
    EditsNormalized(ms, key);
    RemoveSorted(p, key);
    GetSorted(p, key);
  }

  lemma {:induction false} FieldDistinct(ms: Members, key: Text)
    requires Distinct(Obj(ms)) && Get(ms, key).Some?
    ensures Distinct(Get(ms, key).value)
    decreases |ms|
  {
    var j := IndexOfKey(ms, key, Get(ms, key).value);
  }

  lemma {:induction false} RemoveDistinct(ms: Members, key: Text)
    requires Distinct(Obj(ms))
    ensures Distinct(Obj(Remove(ms, key)))
  {
    RemoveElements(ms, key);
    var rest := Remove(ms, key);
    forall i | 0 <= i < |rest|
      ensures Distinct(rest[i].value)
    {
      assert rest[i] in rest;
      var j :| 0 <= j < |ms| && ms[j] == rest[i];
    }
  }

  lemma {:induction false} PutDistinct(ms: Members, key: Text, s: Text)
    requires Distinct(Obj(ms))
    ensures Distinct(Obj(Put(ms, key, Str(s))))
  {
    PutFacts(ms, key, Str(s), key);
    var put := Put(ms, key, Str(s));
    forall i | 0 <= i < |put|
      ensures Distinct(put[i].value)
    {
      assert put[i] in put;
      if put[i] in ms {
        var j :| 0 <= j < |ms| && ms[j] == put[i];
      }
    }
  }

  lemma {:induction false} AppendDistinct(ms: Members, key: Text, s: Text)
    requires Distinct(Obj(ms)) && Get(ms, key) == None
    ensures Distinct(Obj(ms + [Member(key, Str(s))]))
  {
    MissingKey(ms, key);
    forall i | 0 <= i < |ms| ensures ms[i].key != key { assert ms[i] in ms; }
  }

  /** The parts of a sealed envelope. */
  lemma {:induction false} SealParts(c: Context, unsigned: Value) returns (body: Members, payload: Value)
    requires Distinct(unsigned) && Seal(c, unsigned).Ok?
    ensures Distinct(Obj(body)) && Distinct(payload) && Get(body, ENVELOPE_SHA) == None
    ensures Get(body, PAYLOAD) == Some(payload)
    ensures Get(body, PAYLOAD_SHA) == Some(Str(c.hash(Canon(c.num, payload))))
    ensures Seal(c, unsigned).value == Obj(body + [Member(ENVELOPE_SHA, Str(c.hash(Canon(c.num, Obj(body)))))])
    ensures ValidEnvelope(c, Seal(c, unsigned).value)
  {
    var e := Normalize(unsigned).members;
    NormalizeDistinct(unsigned);
    var bare := Remove(e, ENVELOPE_SHA);
    RemoveDistinct(e, ENVELOPE_SHA);
    GetRemoved(e, ENVELOPE_SHA);
    payload := Get(bare, PAYLOAD).value;
    FieldDistinct(bare, PAYLOAD);
    var sha := c.hash(Canon(c.num, payload));
    body := Put(bare, PAYLOAD_SHA, Str(sha));
    PutDistinct(bare, PAYLOAD_SHA, sha);
    DifferentNames();
    PutFacts(bare, PAYLOAD_SHA, Str(sha), PAYLOAD);
    PutFacts(bare, PAYLOAD_SHA, Str(sha), PAYLOAD_SHA);
    PutFacts(bare, PAYLOAD_SHA, Str(sha), ENVELOPE_SHA);
  }

  lemma {:induction false} DifferentNames()
    ensures PAYLOAD != PAYLOAD_SHA && PAYLOAD != ENVELOPE_SHA && PAYLOAD_SHA != ENVELOPE_SHA
  {
    assert |PAYLOAD| == 7 && |PAYLOAD_SHA| == 13 && |ENVELOPE_SHA| == 14;
  }

  /** A sealed envelope, however its members are reordered, is assessed as intact. */
  lemma {:induction false} SealedIsMatched(c: Context, unsigned: Value, copy: Value)
    requires Sound(c) && Distinct(unsigned) && Distinct(copy)
    requires Seal(c, unsigned).Ok? && Equiv(copy, Seal(c, unsigned).value)
    ensures AssessIntegrity(c, copy) == Matched
  {
    var sealed := Seal(c, unsigned).value;
    var body, payload := SealParts(c, unsigned);
    var sha := c.hash(Canon(c.num, Obj(body)));
    AppendDistinct(body, ENVELOPE_SHA, sha);
    NormalForms(copy, sealed);
    AcceptedUpToOrder(copy, sealed);
    IntactIsMatched(c, body, payload);
  }

  lemma {:induction false} IntactIsMatched(c: Context, body: Members, payload: Value)
    requires Distinct(Obj(body)) && Distinct(payload) && Get(body, ENVELOPE_SHA) == None
    requires Get(body, PAYLOAD) == Some(payload)
    requires Get(body, PAYLOAD_SHA) == Some(Str(c.hash(Canon(c.num, payload))))
    ensures var sealed := Obj(body + [Member(ENVELOPE_SHA, Str(c.hash(Canon(c.num, Obj(body)))))]);
            ValidEnvelope(c, sealed) ==> AssessIntegrity(c, sealed) == Matched
  {
    var sha := Str(c.hash(Canon(c.num, Obj(body))));
    var m := Member(ENVELOPE_SHA, sha);
    var ms := body + [m];
    AppendDistinct(body, ENVELOPE_SHA, c.hash(Canon(c.num, Obj(body))));
    DifferentNames();
    NormalizedFields(ms, ENVELOPE_SHA);
    NormalizedFields(ms, PAYLOAD);
    NormalizedFields(ms, PAYLOAD_SHA);
    GetAppended(body, m, ENVELOPE_SHA);
    GetAppended(body, m, PAYLOAD);
    GetAppended(body, m, PAYLOAD_SHA);
    RemoveAppended(body, ENVELOPE_SHA, sha);
    RemoveMissing(body, ENVELOPE_SHA);
    CanonOfNormal(c.num, Obj(body));
    CanonOfNormal(c.num, payload);
  }

  /** The text that the seal of an envelope is the hash of: its normalized members without the seal. */
  function SealedText(c: Context, v: Value): Text
    requires Normalize(v).Obj?
  {
    Print(c.num, Obj(Remove(Normalize(v).members, ENVELOPE_SHA)))
  }

  /**
   * Two intact envelopes with the same seal have the same content if and only if the texts they seal,
   * which have one hash, are the same: a forgery is a collision, and both its texts are at hand.
   */
  lemma {:induction false} SameSealSameContent(c: Context, a: Value, b: Value)
    requires Sound(c) && Distinct(a) && Distinct(b)
    requires AssessIntegrity(c, a) == Matched && AssessIntegrity(c, b) == Matched
    requires Get(a.members, ENVELOPE_SHA) == Get(b.members, ENVELOPE_SHA)
    ensures c.hash(SealedText(c, a)) == c.hash(SealedText(c, b))
    ensures Equiv(a, b) <==> SealedText(c, a) == SealedText(c, b)
  {
    var p, q := Normalize(a).members, Normalize(b).members;
    NormalizedFields(a.members, ENVELOPE_SHA);
    NormalizedFields(b.members, ENVELOPE_SHA);
    var seal := Get(p, ENVELOPE_SHA).value;
    SealedBody(c, a);
    SealedBody(c, b);
    NormalForms(a, b);
    if SealedText(c, a) == SealedText(c, b) {
      PrintInjective(c.num, Obj(Remove(p, ENVELOPE_SHA)), Obj(Remove(q, ENVELOPE_SHA)));
      SortIncreasing(NormalizeMembers(a.members));
      SortIncreasing(NormalizeMembers(b.members));
      PutBackRemoved(p, ENVELOPE_SHA, seal);
      PutBackRemoved(q, ENVELOPE_SHA, seal);
    }
  }

  /** The body an intact envelope commits to is its normalized members without the seal. */
  lemma {:induction false} SealedBody(c: Context, a: Value)
    requires Distinct(a) && AssessIntegrity(c, a) == Matched
    ensures var p := Normalize(a).members;
            Get(p, ENVELOPE_SHA) == Some(Str(c.hash(Print(c.num, Obj(Remove(p, ENVELOPE_SHA))))))
  {
    NormalizedFields(a.members, ENVELOPE_SHA);
    RemoveDistinct(a.members, ENVELOPE_SHA);
    NormalizeIdempotent(Obj(Remove(a.members, ENVELOPE_SHA)));
  }
}
