/** When sealing succeeds, what it keeps, and when an envelope is assessed as intact, by its members. */
module SealedEnvelopes {
  import opened Wrappers
  import opened JsText
  import opened JsonText
  import opened CanonicalJson
  import opened CanonicalVisit
  import opened EvidenceEnvelope

  /** A member of that name and value. */
  predicate HasField(v: Value, name: string, x: Value) { v.Obj? && Member(Literal(name), x) in v.members }

  /** An object without its seal. */
  function Unsealed(v: Value): Value
    requires v.Obj?
  {
    Obj(Remove(v.members, Literal("envelopeSha256")))
  }

  /** Removing a member leaves exactly the others. */
  lemma {:induction false} RemoveIff(ms: Members, key: Text, m: Keyed<Value>)
    ensures m in Remove(ms, key) <==> m in ms && m.key != key
    decreases |ms|
  {
    if ms != [] {
      RemoveIff(ms[1..], key, m);
      assert m in ms <==> m == ms[0] || m in ms[1..];
    }
  }

  lemma {:induction false} GetIff(ms: Members, key: Text, x: Value)
    requires DistinctKeys(ms)
    ensures Get(ms, key) == Some(x) <==> Member(key, x) in ms
    decreases |ms|
  {
    if ms != [] {
      GetIff(ms[1..], key, x);
      assert forall m :: m in ms <==> m == ms[0] || m in ms[1..];
      if ms[0].key == key {
        forall m | m in ms[1..] ensures m.key != key {
          var i :| 0 <= i < |ms[1..]| && ms[1..][i] == m;
          assert ms[i + 1] == m;
        }
      }
    }
  }

  // ---- assessing -----------------------------------------------------------------------------

  /** The digests of an envelope are those of its payload and of everything but its seal. */
  ghost predicate DigestsMatch(c: Context, v: Value)
    requires v.Obj?
  {
    exists payload ::
      && HasField(v, "payload", payload)
      && HasField(v, "payloadSha256", Str(c.hash(Canon(c.num, payload))))
      && HasField(v, "envelopeSha256", Str(c.hash(Canon(c.num, Unsealed(v)))))
  }

  /** An envelope is intact if and only if it has the shape of one and both its digests are right. */
  lemma {:induction false} IntegrityIff(c: Context, v: Value)
    requires Sound(c) && Distinct(v)
    ensures AssessIntegrity(c, v) == NotEstablished <==> !(Accepted(v) && v.Obj? && c.shaped(v))
    ensures AssessIntegrity(c, v) == Matched <==> Accepted(v) && v.Obj? && c.shaped(v) && DigestsMatch(c, v)
  {
    hide Accepted, Canon, Literal, Normalize, Remove, Get, Distinct;
    if Accepted(v) && v.Obj? && c.shaped(v) {
      var ms := v.members;
      assert v == Obj(ms);
      NormalizedFields(ms, ENVELOPE_SHA);
      NormalizedFields(ms, PAYLOAD);
      NormalizedFields(ms, PAYLOAD_SHA);
      KeysOf(ms);
      MatchedFields(c, ms);
      if DigestsMatch(c, v) {
        var payload :| HasField(v, "payload", payload) && HasField(v, "payloadSha256", Str(c.hash(Canon(c.num, payload))))
                       && HasField(v, "envelopeSha256", Str(c.hash(Canon(c.num, Unsealed(v)))));
        GetIff(ms, PAYLOAD, payload);
        GetIff(ms, PAYLOAD_SHA, Str(c.hash(Canon(c.num, payload))));
        GetIff(ms, ENVELOPE_SHA, Str(c.hash(Canon(c.num, Unsealed(v)))));
      }
      if IntactFields(c, ms) {
        var payload := Get(ms, PAYLOAD).value;
        GetIff(ms, PAYLOAD, payload);
        GetIff(ms, PAYLOAD_SHA, Str(c.hash(Canon(c.num, payload))));
        GetIff(ms, ENVELOPE_SHA, Str(c.hash(Canon(c.num, Unsealed(v)))));
      }
    }
  }

  lemma {:induction false} KeysOf(ms: Members)
    requires Distinct(Obj(ms))
    ensures DistinctKeys(ms)
  {
  }

  predicate IntactFields(c: Context, ms: Members)
  {
    && Get(ms, PAYLOAD).Some?
    && Get(ms, PAYLOAD_SHA) == Some(Str(c.hash(Canon(c.num, Get(ms, PAYLOAD).value))))
    && Get(ms, ENVELOPE_SHA) == Some(Str(c.hash(Canon(c.num, Obj(Remove(ms, ENVELOPE_SHA))))))
  }

  lemma {:induction false} StrNormal(x: Value, s: Text)
    ensures Normalize(x) == Str(s) <==> x == Str(s)
  {
  }

  /** What the assessor compares, in terms of the members as they are. */
  lemma {:induction false} MatchedFields(c: Context, ms: Members)
    requires Distinct(Obj(ms)) && ValidEnvelope(c, Obj(ms))
    ensures AssessIntegrity(c, Obj(ms)) == Matched <==> IntactFields(c, ms)
    ensures AssessIntegrity(c, Obj(ms)) != NotEstablished
  {
    hide Accepted, Canon, Literal, Remove, Get, Distinct, Normalize;
    NormalizedFields(ms, ENVELOPE_SHA);
    NormalizedFields(ms, PAYLOAD);
    NormalizedFields(ms, PAYLOAD_SHA);
    NormalObject(ms);
    var body := Obj(Remove(ms, ENVELOPE_SHA));
    RemoveDistinct(ms, ENVELOPE_SHA);
    CanonOfNormal(c.num, body);
    NormalObject(Remove(ms, ENVELOPE_SHA));
    if Get(ms, PAYLOAD).Some? {
      FieldDistinct(ms, PAYLOAD);
      CanonOfNormal(c.num, Get(ms, PAYLOAD).value);
      if Get(ms, PAYLOAD_SHA).Some? {
        StrNormal(Get(ms, PAYLOAD_SHA).value, c.hash(Canon(c.num, Get(ms, PAYLOAD).value)));
      }
    }
    if Get(ms, ENVELOPE_SHA).Some? {
      StrNormal(Get(ms, ENVELOPE_SHA).value, c.hash(Canon(c.num, body)));
    }
  }

  lemma {:induction false} NormalObject(ms: Members)
    ensures Normalize(Obj(ms)).Obj? && Normalize(Obj(ms)) == Obj(Normalize(Obj(ms)).members)
  {
  }

  // ---- sealing -------------------------------------------------------------------------------

  /**
   * `sealed` is the unsigned envelope, its members sorted, with the digest of its payload and, in
   * place of any seal, that of everything else.
   */
  ghost predicate Seals(c: Context, unsigned: Value, sealed: Value)
  {
    && unsigned.Obj? && sealed.Obj? && DigestsMatch(c, sealed)
    && forall m: Keyed<Value> :: m.key != Literal("payloadSha256") && m.key != Literal("envelopeSha256") ==>
         (m in sealed.members <==> m in Normalize(unsigned).members)
  }

  lemma {:induction false} PutIff(ms: Members, key: Text, v: Value, m: Keyed<Value>)
    requires m.key != key
    ensures m in Put(ms, key, v) <==> m in ms
    decreases |ms|
  {
    if ms != [] {
      PutIff(ms[1..], key, v, m);
      assert m in ms <==> m == ms[0] || m in ms[1..];
    }
  }

  /** A sealed envelope holds the members of the unsigned one and the two digests. */
  lemma {:induction false} SealKeeps(c: Context, unsigned: Value)
    requires Distinct(unsigned) && Seal(c, unsigned).Ok?
    ensures Seals(c, unsigned, Seal(c, unsigned).value) && ValidEnvelope(c, Seal(c, unsigned).value)
  {
    hide Accepted, Canon, Literal, Remove, Get, Put, Distinct, Normalize, ValidEnvelope;
    var sealed := Seal(c, unsigned).value;
    var body, payload := SealParts(c, unsigned);
    var last := Member(ENVELOPE_SHA, Str(c.hash(Canon(c.num, Obj(body)))));
    assert sealed.members == body + [last];
    KeysOf(body);
    RemoveAppended(body, ENVELOPE_SHA, last.value);
    RemoveMissing(body, ENVELOPE_SHA);
    GetIff(body, PAYLOAD, payload);
    GetIff(body, PAYLOAD_SHA, Str(c.hash(Canon(c.num, payload))));
    assert HasField(sealed, "payload", payload);
    var e := Normalize(unsigned).members;
    var bare := Remove(e, ENVELOPE_SHA);
    SealBody(c, unsigned, body);
    forall m: Keyed<Value> | m.key != Literal("payloadSha256") && m.key != Literal("envelopeSha256")
      ensures m in sealed.members <==> m in e
    {
      PutIff(bare, PAYLOAD_SHA, Str(c.hash(Canon(c.num, Get(bare, PAYLOAD).value))), m);
      RemoveIff(e, ENVELOPE_SHA, m);
    }
  }

  lemma {:induction false} SealBody(c: Context, unsigned: Value, body: Members)
    requires Seal(c, unsigned).Ok?
    requires Seal(c, unsigned).value == Obj(body + [Member(ENVELOPE_SHA, Str(c.hash(Canon(c.num, Obj(body)))))])
    ensures Normalize(unsigned).Obj? && unsigned.Obj?
    ensures var bare := Remove(Normalize(unsigned).members, ENVELOPE_SHA);
            && Get(bare, PAYLOAD).Some?
            && body == Put(bare, PAYLOAD_SHA, Str(c.hash(Canon(c.num, Get(bare, PAYLOAD).value))))
  {
    hide Accepted, Canon, Literal, Remove, Get, Put;
    var bare := Remove(Normalize(unsigned).members, ENVELOPE_SHA);
    var made := Put(bare, PAYLOAD_SHA, Str(c.hash(Canon(c.num, Get(bare, PAYLOAD).value))));
    var sealed := Seal(c, unsigned).value.members;
    assert sealed == made + [Member(ENVELOPE_SHA, Str(c.hash(Canon(c.num, Obj(made)))))];
    assert made == sealed[..|sealed| - 1] && body == sealed[..|sealed| - 1];
  }

  // ---- when sealing succeeds -------------------------------------------------------------------

  /** One cost is no more than another, and surrogates are paired if they are there. */
  predicate NoMore(a: Cost, b: Cost)
  {
    a.nodes <= b.nodes && a.chars <= b.chars && a.height <= b.height && (b.plain ==> a.plain)
  }

  lemma {:induction false} CheaperAccepted(v: Value, w: Value)
    requires NoMore(CostOf(v), CostOf(w)) && Accepted(w)
    ensures Accepted(v)
  {
    hide CostOf;
  }

  lemma {:induction false} MemberCheaper(ms: Members, m: Keyed<Value>)
    requires m in ms
    ensures NoMore(CostOf(m.value), MembersCost(ms))
    decreases |ms|
  {
    hide CostOf, StringCost;
    if m != ms[0] {
      assert m in ms[1..];
      MemberCheaper(ms[1..], m);
    }
  }

  lemma {:induction false} PartCheaper(ms: Members, last: Keyed<Value>)
    ensures NoMore(MembersCost(ms), MembersCost(ms + [last])) && KeyChars(ms) <= KeyChars(ms + [last])
    decreases |ms|
  {
    hide CostOf, StringCost, MemberCost;
    if ms != [] {
      assert (ms + [last])[1..] == ms[1..] + [last];
      PartCheaper(ms[1..], last);
    }
  }

  /** What an accepted envelope is made of is accepted. */
  lemma {:induction false} PartsAccepted(body: Members, last: Keyed<Value>, payload: Value)
    requires Accepted(Obj(body + [last])) && Member(PAYLOAD, payload) in body
    ensures Accepted(Obj(body)) && Accepted(payload)
  {
    hide MembersCost, KeyChars, Accepted;
    PartCheaper(body, last);
    CheaperAccepted(Obj(body), Obj(body + [last]));
    MemberCheaper(body, Member(PAYLOAD, payload));
    CheaperAccepted(payload, Obj(body));
  }

  /** Objects with the same members, each key once, have the same normal form. */
  lemma {:induction false} SameMembers(a: Members, b: Members)
    requires DistinctKeys(a) && DistinctKeys(b) && forall m :: m in a <==> m in b
    ensures Normalize(Obj(a)) == Normalize(Obj(b))
  {
    hide KeyLess, Sort, Normalize, NormalizeMembers;
    var p, q := NormalizeMembers(a), NormalizeMembers(b);
    NormalMember(a);
    NormalMember(b);
    assert DistinctKeys(p) && DistinctKeys(q);
    SortIncreasing(p);
    SortIncreasing(q);
    SortKeepsElements(p);
    SortKeepsElements(q);
    forall x ensures x in Sort(p) <==> x in Sort(q) {
      assert x in p <==> exists m :: m in a && x == Member(m.key, Normalize(m.value));
      assert x in q <==> exists m :: m in b && x == Member(m.key, Normalize(m.value));
    }
    IncreasingUnique(Sort(p), Sort(q));
    IncreasingUnique(Sort(q), Sort(p));
    NormalSorted(a);
    NormalSorted(b);
  }

  lemma {:induction false} NormalSorted(ms: Members)
    ensures Normalize(Obj(ms)) == Obj(Sort(NormalizeMembers(ms)))
  {
  }

  lemma {:induction false} NormalMember(ms: Members)
    ensures DistinctKeys(ms) ==> DistinctKeys(NormalizeMembers(ms))
    ensures forall x :: x in NormalizeMembers(ms) <==> exists m :: m in ms && x == Member(m.key, Normalize(m.value))
  {
    hide Normalize;
    var p := NormalizeMembers(ms);
    forall x ensures x in p <==> exists m :: m in ms && x == Member(m.key, Normalize(m.value)) {
      if x in p {
        var i :| 0 <= i < |p| && p[i] == x;
        assert ms[i] in ms;
      }
      if m :| m in ms && x == Member(m.key, Normalize(m.value)) {
        var i :| 0 <= i < |ms| && ms[i] == m;
        assert p[i] == x;
      }
    }
  }

  /** The envelope that sealing makes of some members, a payload among them. */
  function Made(c: Context, bare: Members, payload: Value): Members
  {
    var body := Put(bare, PAYLOAD_SHA, Str(c.hash(Canon(c.num, payload))));
    body + [Member(ENVELOPE_SHA, Str(c.hash(Canon(c.num, Obj(body)))))]
  }

  lemma {:induction false} MadeSealed(c: Context, unsigned: Value, payload: Value)
    requires Accepted(unsigned) && unsigned.Obj?
    requires var bare := Remove(Normalize(unsigned).members, ENVELOPE_SHA);
             && Get(bare, PAYLOAD) == Some(payload) && Distinct(Obj(bare))
             && ValidEnvelope(c, Obj(Made(c, bare, payload)))
    ensures Seal(c, unsigned) == Ok(Obj(Made(c, Remove(Normalize(unsigned).members, ENVELOPE_SHA), payload)))
  {
    hide Accepted, Canon, Literal, Remove, Get, Put, Distinct;
    var bare := Remove(Normalize(unsigned).members, ENVELOPE_SHA);
    var body := Put(bare, PAYLOAD_SHA, Str(c.hash(Canon(c.num, payload))));
    KeysOf(bare);
    GetIff(bare, PAYLOAD, payload);
    DifferentNames();
    PutIff(bare, PAYLOAD_SHA, Str(c.hash(Canon(c.num, payload))), Member(PAYLOAD, payload));
    PartsAccepted(body, Member(ENVELOPE_SHA, Str(c.hash(Canon(c.num, Obj(body))))), payload);
  }

  /** Any envelope that seals the unsigned one has the members of the one that sealing makes. */
  lemma {:induction false} SealsMade(c: Context, unsigned: Value, sealed: Value) returns (payload: Value)
    requires Distinct(unsigned) && Distinct(sealed) && Seals(c, unsigned, sealed)
    ensures Normalize(unsigned).Obj?
    ensures var bare := Remove(Normalize(unsigned).members, ENVELOPE_SHA);
            && Get(bare, PAYLOAD) == Some(payload) && Distinct(Obj(bare))
            && Normalize(Obj(Made(c, bare, payload))) == Normalize(sealed) && Distinct(Obj(Made(c, bare, payload)))
  {
    hide Accepted, Canon, Literal, Remove, Get, Put, Distinct, Normalize;
    NormalizeDistinct(unsigned);
    NormalObject(unsigned.members);
    var e := Normalize(unsigned).members;
    var bare := Remove(e, ENVELOPE_SHA);
    RemoveDistinct(e, ENVELOPE_SHA);
    payload :| HasField(sealed, "payload", payload) && HasField(sealed, "payloadSha256", Str(c.hash(Canon(c.num, payload))))
               && HasField(sealed, "envelopeSha256", Str(c.hash(Canon(c.num, Unsealed(sealed)))));
    DifferentNames();
    RemoveIff(e, ENVELOPE_SHA, Member(PAYLOAD, payload));
    KeysOf(bare);
    GetIff(bare, PAYLOAD, payload);
    var sha := c.hash(Canon(c.num, payload));
    var body := Put(bare, PAYLOAD_SHA, Str(sha));
    PutDistinct(bare, PAYLOAD_SHA, sha);
    BodyIsUnsealed(c, e, bare, body, sealed, sha);
    var seal := Str(c.hash(Canon(c.num, Obj(body))));
    KeysOf(body);
    NoSealIn(bare, body, e, Str(sha));
    AppendDistinct(body, ENVELOPE_SHA, c.hash(Canon(c.num, Obj(body))));
    KeysOf(sealed.members);
    KeysOf(body + [Member(ENVELOPE_SHA, seal)]);
    forall m: Keyed<Value> ensures m in body + [Member(ENVELOPE_SHA, seal)] <==> m in sealed.members {
      RemoveIff(sealed.members, ENVELOPE_SHA, m);
      if m.key == ENVELOPE_SHA {
        GetIff(sealed.members, ENVELOPE_SHA, m.value);
        GetIff(sealed.members, ENVELOPE_SHA, seal);
        GetIff(body, ENVELOPE_SHA, m.value);
      }
    }
    SameMembers(body + [Member(ENVELOPE_SHA, seal)], sealed.members);
  }

  lemma {:induction false} NoSealIn(bare: Members, body: Members, e: Members, sha: Value)
    requires DistinctKeys(bare) && bare == Remove(e, ENVELOPE_SHA) && body == Put(bare, PAYLOAD_SHA, sha)
    ensures Get(body, ENVELOPE_SHA) == None
  {
    hide Remove, Get, Put, Literal;
    DifferentNames();
    GetRemoved(e, ENVELOPE_SHA);
    PutFacts(bare, PAYLOAD_SHA, sha, ENVELOPE_SHA);
  }

  /** What the seal covers is the same for any envelope that seals the unsigned one. */
  lemma {:induction false} BodyIsUnsealed(c: Context, e: Members, bare: Members, body: Members, sealed: Value, sha: Text)
    requires bare == Remove(e, ENVELOPE_SHA) && body == Put(bare, PAYLOAD_SHA, Str(sha))
    requires Distinct(Obj(bare)) && Distinct(Obj(body)) && Distinct(sealed) && HasField(sealed, "payloadSha256", Str(sha))
    requires forall m: Keyed<Value> :: m.key != Literal("payloadSha256") && m.key != Literal("envelopeSha256") ==>
               (m in sealed.members <==> m in e)
    ensures forall m :: m in body <==> m in Remove(sealed.members, ENVELOPE_SHA)
    ensures Canon(c.num, Obj(body)) == Canon(c.num, Unsealed(sealed))
  {
    hide Remove, Get, Put, Literal, Distinct, Normalize;
    var rest := Remove(sealed.members, ENVELOPE_SHA);
    KeysOf(bare);
    KeysOf(body);
    KeysOf(sealed.members);
    RemoveDistinct(sealed.members, ENVELOPE_SHA);
    KeysOf(rest);
    DifferentNames();
    NoSealIn(bare, body, e, Str(sha));
    PutFacts(bare, PAYLOAD_SHA, Str(sha), PAYLOAD_SHA);
    forall m: Keyed<Value> ensures m in body <==> m in rest {
      RemoveIff(sealed.members, ENVELOPE_SHA, m);
      RemoveIff(e, ENVELOPE_SHA, m);
      GetIff(body, m.key, m.value);
      GetIff(sealed.members, m.key, m.value);
      if m.key == PAYLOAD_SHA {
        GetIff(sealed.members, PAYLOAD_SHA, Str(sha));
      } else {
        PutIff(bare, PAYLOAD_SHA, Str(sha), m);
      }
    }
    SameMembers(body, rest);
  }

  /**
   * Sealing succeeds if and only if the unsigned envelope is accepted and some envelope that seals it
   * has the shape of one; and what it gives seals it.
   */
  lemma {:induction false} SealIff(c: Context, unsigned: Value)
    requires Sound(c) && Distinct(unsigned)
    ensures Seal(c, unsigned).Ok? <==>
            && Accepted(unsigned)
            && exists sealed :: Distinct(sealed) && Seals(c, unsigned, sealed) && Accepted(sealed) && c.shaped(sealed)
    ensures Seal(c, unsigned).Ok? ==> Seals(c, unsigned, Seal(c, unsigned).value)
  {
    hide Accepted, Canon, Literal, Remove, Get, Put, Distinct, Normalize, Seals, Made;
    if Seal(c, unsigned).Ok? {
      SealKeeps(c, unsigned);
      SealedDistinct(c, unsigned);
    }
    if sealed :| Distinct(sealed) && Seals(c, unsigned, sealed) && Accepted(sealed) && c.shaped(sealed)
                 && Accepted(unsigned) {
      var payload := SealsMade(c, unsigned, sealed);
      var made := Obj(Made(c, Remove(Normalize(unsigned).members, ENVELOPE_SHA), payload));
      NormalForms(made, sealed);
      AcceptedUpToOrder(made, sealed);
      UnsignedIsObject(c, unsigned, sealed);
      MadeSealed(c, unsigned, payload);
    }
  }

  lemma {:induction false} UnsignedIsObject(c: Context, unsigned: Value, sealed: Value)
    requires Seals(c, unsigned, sealed)
    ensures unsigned.Obj?
  {
  }

  lemma {:induction false} SealedDistinct(c: Context, unsigned: Value)
    requires Distinct(unsigned) && Seal(c, unsigned).Ok?
    ensures Distinct(Seal(c, unsigned).value) && Accepted(unsigned)
  {
    hide Accepted, Canon, Literal, Remove, Get, Put, Distinct, Normalize;
    var body, payload := SealParts(c, unsigned);
    AppendDistinct(body, ENVELOPE_SHA, c.hash(Canon(c.num, Obj(body))));
  }
}
