/**
 * `evaluateIntentEvidence`: observations, the evidence records that aggregate them, one verdict
 * per required evidence type, and the overall status.
 */
module EvidenceAdjudication {
  import opened Wrappers

  datatype Status = Conflicted | Fail | Stale | Unknown | NotRun | Pass

  datatype EvidenceType = Static | Unit | Integration | Property | Build | Runtime | Device | External | Manual

  /** `CLASS_TO_REQUIREMENT`: model inference stands for no required type. */
  datatype EvidenceClass = Of(evidenceType: EvidenceType) | ModelInference

  /** An observation; `independent` is the outcome of the producer, method and attestation checks. */
  datatype Observation = Observation(id: string, status: Status, from: Option<int>, until: Option<int>, independent: bool)

  datatype Evidence = Evidence(id: string, evidenceClass: EvidenceClass, requirementIds: set<string>,
                               observationIds: seq<string>, any: bool)

  datatype Bundle = Bundle(id: string, observations: seq<Observation>, evidence: seq<Evidence>)

  datatype Requirement = Requirement(id: string, types: seq<EvidenceType>)

  /** An evaluated observation. */
  datatype Row = Row(bundle: string, id: string, status: Status, independent: bool)

  /** An evaluated evidence record. */
  datatype Record = Record(bundle: string, id: string, evidenceClass: EvidenceClass, requirementIds: set<string>,
                           status: Status, independent: bool)

  // ---- observations ------------------------------------------------------------------------------

  /** `effectiveObservationStatus`. */
  function EffectiveStatus(o: Observation, at: int): Status
  {
    if (o.from.Some? && at < o.from.value) || (o.until.Some? && at > o.until.value) then Stale else o.status
  }

  function RowOf(bundle: string, o: Observation, at: int): Row
  {
    Row(bundle, o.id, EffectiveStatus(o, at), o.independent)
  }

  /** `${bundle}:${id}`; both may contain a colon. */
  function Key(bundle: string, id: string): string { bundle + ":" + id }

  /** All evaluated observations, bundle after bundle. */
  function Rows(bundles: seq<Bundle>, at: int): seq<Row>
  {
    if bundles == [] then []
    else Rows(bundles[..|bundles| - 1], at) + RowsOf(bundles[|bundles| - 1].id, bundles[|bundles| - 1].observations, at)
  }

  function RowsOf(bundle: string, observations: seq<Observation>, at: int): (r: seq<Row>)
    ensures |r| == |observations|
  {
    seq(|observations|, i requires 0 <= i < |observations| => RowOf(bundle, observations[i], at))
  }

  /** `obsMap` after setting each row under its key in turn. */
  function Index(rows: seq<Row>): map<string, Row>
  {
    if rows == [] then map[]
    else
      var last := rows[|rows| - 1];
      Index(rows[..|rows| - 1])[Key(last.bundle, last.id) := last]
  }

  // ---- records -----------------------------------------------------------------------------------

  /** `combineStatuses`. */
  function Combine(s: seq<Status>, any: bool): Status
  {
    if s == [] then NotRun
    else if Conflicted in s || (Pass in s && Fail in s) then Conflicted
    else if any then
      if Pass in s then Pass else if Fail in s then Fail else if Stale in s then Stale
      else if Unknown in s then Unknown else NotRun
    else if Fail in s then Fail
    else if forall x :: x in s ==> x == Pass then Pass
    else if Stale in s then Stale
    else if Unknown in s then Unknown
    else if NotRun in s then NotRun
    else Unknown
  }

  /** The rows an evidence record refers to; unknown identifiers are dropped. */
  function Referred(index: map<string, Row>, bundle: string, ids: seq<string>): seq<Row>
  {
    if ids == [] then []
    else (if Key(bundle, ids[0]) in index then [index[Key(bundle, ids[0])]] else []) + Referred(index, bundle, ids[1..])
  }

  function Statuses(rows: seq<Row>): (s: seq<Status>)
    ensures |s| == |rows|
  {
    seq(|rows|, i requires 0 <= i < |rows| => rows[i].status)
  }

  /** `evaluateEvidenceRecord`. */
  function RecordOf(index: map<string, Row>, bundle: string, e: Evidence): Record
  {
    var rows := Referred(index, bundle, e.observationIds);
    Record(bundle, e.id, e.evidenceClass, e.requirementIds, Combine(Statuses(rows), e.any),
           !e.evidenceClass.ModelInference? && rows != [] && forall x :: x in rows ==> x.independent)
  }

  function RecordsOf(index: map<string, Row>, bundle: string, evidence: seq<Evidence>): (r: seq<Record>)
    ensures |r| == |evidence|
  {
    seq(|evidence|, i requires 0 <= i < |evidence| => RecordOf(index, bundle, evidence[i]))
  }

  function Records(index: map<string, Row>, bundles: seq<Bundle>): seq<Record>
  {
    if bundles == [] then []
    else
      var last := bundles[|bundles| - 1];
      Records(index, bundles[..|bundles| - 1]) + RecordsOf(index, last.id, last.evidence)
  }

  // ---- adjudication ------------------------------------------------------------------------------

  predicate InSlot(r: Record, requirement: string, t: EvidenceType)
  {
    requirement in r.requirementIds && r.evidenceClass == Of(t)
  }

  /** Some record of the slot has this status; `independent` ones only, or any. */
  predicate Has(records: seq<Record>, requirement: string, t: EvidenceType, status: Status, independent: bool)
  {
    exists r :: r in records && InSlot(r, requirement, t) && r.status == status && (independent ==> r.independent)
  }

  /** `adjudicateType`. */
  function Slot(records: seq<Record>, requirement: string, t: EvidenceType): Status
  {
    var pass, fail := Has(records, requirement, t, Pass, true), Has(records, requirement, t, Fail, true);
    if Has(records, requirement, t, Conflicted, true) || (pass && fail) then Conflicted
    else if fail then Fail
    else if pass then Pass
    else if Has(records, requirement, t, Stale, false) then Stale
    else if Has(records, requirement, t, Pass, false) then Unknown
    else if Has(records, requirement, t, Unknown, false) || Has(records, requirement, t, Conflicted, false) then Unknown
    else NotRun
  }

  /** `STATUS_PRIORITY`. */
  function Priority(s: Status): nat
  {
    match s
    case Conflicted => 6
    case Fail => 5
    case Stale => 4
    case Unknown => 3
    case NotRun => 2
    case Pass => 1
  }

  /** `severityCombine`: the worst status, UNKNOWN for none. */
  function Worst(s: seq<Status>): Status
  {
    if s == [] then Unknown
    else if |s| == 1 then s[0]
    else
      var rest := Worst(s[1..]);
      if Priority(s[0]) >= Priority(rest) then s[0] else rest
  }

  function SlotStatuses(records: seq<Record>, r: Requirement): (s: seq<Status>)
    ensures |s| == |r.types|
  {
    seq(|r.types|, i requires 0 <= i < |r.types| => Slot(records, r.id, r.types[i]))
  }

  function RequirementStatuses(records: seq<Record>, rs: seq<Requirement>): (s: seq<Status>)
    ensures |s| == |rs|
  {
    seq(|rs|, i requires 0 <= i < |rs| => Worst(SlotStatuses(records, rs[i])))
  }

  function Overall(records: seq<Record>, rs: seq<Requirement>): Status { Worst(RequirementStatuses(records, rs)) }

  function Evaluate(rs: seq<Requirement>, bundles: seq<Bundle>, at: int): Status
  {
    Overall(Records(Index(Rows(bundles, at)), bundles), rs)
  }

  lemma {:induction false} IndexMore(rows: seq<Row>, more: seq<Row>, k: nat)
    requires k < |more|
    ensures Index(rows + more[..k + 1]) == Index(rows + more[..k])[Key(more[k].bundle, more[k].id) := more[k]]
  {
    var all := rows + more[..k + 1];
    assert all[..|all| - 1] == rows + more[..k] && all[|all| - 1] == more[k];
  }

  /** The three loops of `evaluateIntentEvidence`; its sorts for display change no status. */
  method EvaluateIntentEvidence(rs: seq<Requirement>, bundles: seq<Bundle>, at: int)
    returns (overall: Status, records: seq<Record>)
    ensures records == Records(Index(Rows(bundles, at)), bundles) && overall == Evaluate(rs, bundles, at)
  {
    var obsMap: map<string, Row> := map[];
    for i := 0 to |bundles|
      invariant obsMap == Index(Rows(bundles[..i], at))
    {
      var b := bundles[i];
      ghost var rows := RowsOf(b.id, b.observations, at);
      assert bundles[..i + 1][..i] == bundles[..i];
      assert Rows(bundles[..i], at) + rows[..0] == Rows(bundles[..i], at);
      for k := 0 to |b.observations|
        invariant obsMap == Index(Rows(bundles[..i], at) + rows[..k])
      {
        IndexMore(Rows(bundles[..i], at), rows, k);
        var row := RowOf(b.id, b.observations[k], at);
        obsMap := obsMap[Key(b.id, row.id) := row];
      }
      assert rows[..|b.observations|] == rows;
    }
    assert bundles[..|bundles|] == bundles;
    records := [];
    for i := 0 to |bundles|
      invariant records == Records(obsMap, bundles[..i])
    {
      assert bundles[..i + 1][..i] == bundles[..i];
      records := records + RecordsOf(obsMap, bundles[i].id, bundles[i].evidence);
    }
    overall := Overall(records, rs);
  }

  // ---- PASS ------------------------------------------------------------------------------------------

  lemma {:induction false} WorstPass(s: seq<Status>)
    ensures Worst(s) == Pass <==> s != [] && forall i :: 0 <= i < |s| ==> s[i] == Pass
    decreases |s|
  {
    if |s| > 1 {
      var rest := s[1..];
      WorstPass(rest);
      assert forall i :: 0 < i < |s| ==> s[i] == rest[i - 1];
      assert (forall i :: 0 <= i < |rest| ==> rest[i] == Pass) <==> (forall i :: 0 < i < |s| ==> s[i] == Pass) by {
        assert forall i :: 0 <= i < |rest| ==> rest[i] == s[i + 1];
      }
    }
  }

  /** An independent PASS and no independent FAIL or conflict. */
  ghost predicate Satisfied(records: seq<Record>, requirement: string, t: EvidenceType)
  {
    && Has(records, requirement, t, Pass, true)
    && !Has(records, requirement, t, Fail, true) && !Has(records, requirement, t, Conflicted, true)
  }

  /**
   * The overall status is PASS if and only if there is a requirement, each has a required type,
   * and every slot has an independent PASS record and no independent FAIL or CONFLICTED record.
   */
  lemma {:induction false} PassIff(records: seq<Record>, rs: seq<Requirement>)
    ensures Overall(records, rs) == Pass <==>
            && rs != []
            && forall i :: 0 <= i < |rs| ==>
                 rs[i].types != [] && forall k :: 0 <= k < |rs[i].types| ==> Satisfied(records, rs[i].id, rs[i].types[k])
  {
    hide Slot, Satisfied, Worst;
    var s := RequirementStatuses(records, rs);
    WorstPass(s);
    forall i | 0 <= i < |rs|
      ensures s[i] == Pass <==>
              rs[i].types != [] && forall k :: 0 <= k < |rs[i].types| ==> Satisfied(records, rs[i].id, rs[i].types[k])
    {
      RequirementPass(records, rs[i]);
    }
  }

  lemma {:induction false} RequirementPass(records: seq<Record>, r: Requirement)
    ensures Worst(SlotStatuses(records, r)) == Pass <==>
            r.types != [] && forall k :: 0 <= k < |r.types| ==> Satisfied(records, r.id, r.types[k])
  {
    hide Slot, Satisfied, Worst;
    var s := SlotStatuses(records, r);
    WorstPass(s);
    forall k | 0 <= k < |r.types|
      ensures s[k] == Pass <==> Satisfied(records, r.id, r.types[k])
    {
      SlotPass(records, r.id, r.types[k]);
    }
  }

  lemma {:induction false} SlotPass(records: seq<Record>, requirement: string, t: EvidenceType)
    ensures Slot(records, requirement, t) == Pass <==> Satisfied(records, requirement, t)
  {
    hide Has;
  }

  /** A record passes when all its observations do, or for `any` when one does and none contradicts it. */
  lemma {:induction false} CombinePass(s: seq<Status>, any: bool)
    ensures Combine(s, any) == Pass <==>
            s != [] && (if any then Pass in s && Fail !in s && Conflicted !in s else forall x :: x in s ==> x == Pass)
  {
    assert s != [] ==> s[0] in s;
  }

  // ---- every status ----------------------------------------------------------------------------------

  /** The overall status of several: the first of this list that occurs, UNKNOWN for none. */
  lemma {:induction false} WorstIff(s: seq<Status>)
    ensures Worst(s) == Conflicted <==> Conflicted in s
    ensures Worst(s) == Fail <==> Fail in s && Conflicted !in s
    ensures Worst(s) == Stale <==> Stale in s && Conflicted !in s && Fail !in s
    ensures Worst(s) == Unknown <==> s == [] || (Unknown in s && Conflicted !in s && Fail !in s && Stale !in s)
    ensures Worst(s) == NotRun <==> s != [] && NotRun in s && forall x :: x in s ==> x == NotRun || x == Pass
    ensures Worst(s) == Pass <==> s != [] && forall x :: x in s ==> x == Pass
    decreases |s|
  {
    if |s| > 1 {
      WorstIff(s[1..]);
      assert forall x :: x in s <==> x == s[0] || x in s[1..];
    }
  }

  /** The status of a record from those of its observations. */
  lemma {:induction false} CombineIff(s: seq<Status>, any: bool)
    ensures Combine(s, any) == Conflicted <==> Conflicted in s || (Pass in s && Fail in s)
    ensures Combine(s, any) == Fail <==> Fail in s && Conflicted !in s && Pass !in s
    ensures Combine(s, any) == Stale <==> Stale in s && Conflicted !in s && Fail !in s && (any ==> Pass !in s)
    ensures Combine(s, any) == Unknown <==>
            Unknown in s && Conflicted !in s && Fail !in s && Stale !in s && (any ==> Pass !in s)
    ensures Combine(s, any) == NotRun <==>
            s == [] || (NotRun in s && forall x :: x in s ==> x == NotRun || (x == Pass && !any))
  {
    assert s != [] ==> s[0] in s;
    if Combine(s, any) == NotRun {
      forall x | x in s ensures x == NotRun || (x == Pass && !any) {
        assert x != Conflicted && x != Fail && x != Stale && x != Unknown;
      }
    }
  }

  /** The verdict on one required type: independent records decide, all records tell why none does. */
  lemma {:induction false} SlotIff(records: seq<Record>, requirement: string, t: EvidenceType)
    ensures Slot(records, requirement, t) == Conflicted <==>
            Has(records, requirement, t, Conflicted, true)
            || (Has(records, requirement, t, Pass, true) && Has(records, requirement, t, Fail, true))
    ensures Slot(records, requirement, t) == Fail <==>
            Has(records, requirement, t, Fail, true) && !Has(records, requirement, t, Conflicted, true)
            && !Has(records, requirement, t, Pass, true)
    ensures Slot(records, requirement, t) == Stale <==>
            Has(records, requirement, t, Stale, false) && forall x :: Decisive(x) ==> !Has(records, requirement, t, x, true)
    ensures Slot(records, requirement, t) == Unknown <==>
            && (forall x :: Decisive(x) ==> !Has(records, requirement, t, x, true))
            && !Has(records, requirement, t, Stale, false)
            && (Has(records, requirement, t, Pass, false) || Has(records, requirement, t, Unknown, false)
                || Has(records, requirement, t, Conflicted, false))
  {
    hide Has;
    assert Decisive(Pass) && Decisive(Fail) && Decisive(Conflicted);
  }

  // ---- non-independent records ---------------------------------------------------------------------

  predicate Decisive(s: Status) { s == Pass || s == Fail || s == Conflicted }

  /** Records that are not independent change no PASS, FAIL or CONFLICTED slot and create none. */
  lemma {:induction false} NonIndependentIsPowerless(records: seq<Record>, more: seq<Record>, requirement: string,
                                                     t: EvidenceType)
    requires forall r :: r in more ==> !r.independent
    ensures Decisive(Slot(records, requirement, t)) ==>
              Slot(records + more, requirement, t) == Slot(records, requirement, t)
    ensures Decisive(Slot(records + more, requirement, t)) ==>
              Slot(records + more, requirement, t) == Slot(records, requirement, t)
  {
    hide InSlot;
    forall status
      ensures Has(records + more, requirement, t, status, true) <==> Has(records, requirement, t, status, true)
    {
      HasMore(records, more, requirement, t, status);
    }
    SlotDecisive(records, requirement, t);
    SlotDecisive(records + more, requirement, t);
  }

  lemma {:induction false} HasMore(records: seq<Record>, more: seq<Record>, requirement: string, t: EvidenceType, status: Status)
    requires forall r :: r in more ==> !r.independent
    ensures Has(records + more, requirement, t, status, true) <==> Has(records, requirement, t, status, true)
  {
    hide InSlot;
    if Has(records, requirement, t, status, true) {
      var r :| r in records && InSlot(r, requirement, t) && r.status == status && r.independent;
      assert r in records + more;
    }
  }

  /** Only independent records decide. */
  lemma {:induction false} SlotDecisive(records: seq<Record>, requirement: string, t: EvidenceType)
    ensures var pass, fail := Has(records, requirement, t, Pass, true), Has(records, requirement, t, Fail, true);
            var conflict := Has(records, requirement, t, Conflicted, true) || (pass && fail);
            var s := Slot(records, requirement, t);
            && (s == Conflicted <==> conflict)
            && (s == Fail <==> !conflict && fail)
            && (s == Pass <==> !conflict && !fail && pass)
  {
    hide Has;
  }

  // ---- the order of the input ------------------------------------------------------------------------

  ghost predicate SameRecords(a: seq<Record>, b: seq<Record>) { forall r :: r in a <==> r in b }

  /** Every status depends only on which records there are, not on their order or number. */
  lemma {:induction false} OrderFree(a: seq<Record>, b: seq<Record>, rs: seq<Requirement>)
    requires SameRecords(a, b)
    ensures forall requirement, t :: Slot(a, requirement, t) == Slot(b, requirement, t)
    ensures Overall(a, rs) == Overall(b, rs)
  {
    hide Slot;
    forall requirement, t
      ensures Slot(a, requirement, t) == Slot(b, requirement, t)
    {
      SlotOrderFree(a, b, requirement, t);
    }
    forall i | 0 <= i < |rs|
      ensures SlotStatuses(a, rs[i]) == SlotStatuses(b, rs[i])
    {
    }
    assert RequirementStatuses(a, rs) == RequirementStatuses(b, rs);
  }

  lemma {:induction false} SlotOrderFree(a: seq<Record>, b: seq<Record>, requirement: string, t: EvidenceType)
    requires SameRecords(a, b)
    ensures Slot(a, requirement, t) == Slot(b, requirement, t)
  {
    hide InSlot;
    forall status, independent
      ensures Has(a, requirement, t, status, independent) == Has(b, requirement, t, status, independent)
    {
      HasOrderFree(a, b, requirement, t, status, independent);
    }
  }

  lemma {:induction false} HasOrderFree(a: seq<Record>, b: seq<Record>, requirement: string, t: EvidenceType, status: Status,
                                        independent: bool)
    requires SameRecords(a, b)
    ensures Has(a, requirement, t, status, independent) == Has(b, requirement, t, status, independent)
  {
    hide InSlot;
  }

  // ---- when the index is right -------------------------------------------------------------------------

  /** No two different observations share a key. */
  ghost predicate Unambiguous(rows: seq<Row>)
  {
    forall x, y :: x in rows && y in rows && Key(x.bundle, x.id) == Key(y.bundle, y.id) ==> x == y
  }

  /** Every observation is found under its own key. */
  ghost predicate IndexFaithful(rows: seq<Row>)
  {
    forall x :: x in rows ==> Key(x.bundle, x.id) in Index(rows) && Index(rows)[Key(x.bundle, x.id)] == x
  }

  /** The index holds, under each key, a row of that key. */
  lemma {:induction false} IndexHolds(rows: seq<Row>)
    ensures forall k :: k in Index(rows) ==> Index(rows)[k] in rows && Key(Index(rows)[k].bundle, Index(rows)[k].id) == k
    ensures forall x :: x in rows ==> Key(x.bundle, x.id) in Index(rows)
    decreases |rows|
  {
    hide Key;
    if rows != [] {
      IndexHolds(rows[..|rows| - 1]);
      assert rows == rows[..|rows| - 1] + [rows[|rows| - 1]];
    }
  }

  /** Lookups are right exactly when keys are unambiguous. */
  lemma {:induction false} FaithfulIff(rows: seq<Row>)
    ensures IndexFaithful(rows) <==> Unambiguous(rows)
  {
    hide Index, Key;
    IndexHolds(rows);
  }

  /** With unambiguous keys the index does not depend on the order of the observations. */
  lemma {:induction false} IndexOrderFree(a: seq<Row>, b: seq<Row>)
    requires Unambiguous(a) && forall x :: x in a <==> x in b
    ensures Index(a) == Index(b)
  {
    hide Index, Key;
    IndexHolds(a);
    IndexHolds(b);
    forall k
      ensures k in Index(a) <==> k in Index(b)
      ensures k in Index(a) && k in Index(b) ==> Index(a)[k] == Index(b)[k]
    {
      if k in Index(a) {
        assert Index(a)[k] in b;
      }
      if k in Index(b) {
        assert Index(b)[k] in a;
      }
    }
  }

  // ---- the order of bundles, observations, evidence and requirements -------------------------------------

  ghost predicate Observes(bundles: seq<Bundle>, bundle: string, o: Observation)
  {
    exists b :: b in bundles && b.id == bundle && o in b.observations
  }

  ghost predicate Supplies(bundles: seq<Bundle>, bundle: string, e: Evidence)
  {
    exists b :: b in bundles && b.id == bundle && e in b.evidence
  }

  lemma {:induction false} RowsAre(bundles: seq<Bundle>, at: int, x: Row)
    ensures x in Rows(bundles, at) <==> exists o :: Observes(bundles, x.bundle, o) && x == RowOf(x.bundle, o, at)
    decreases |bundles|
  {
    hide RowOf;
    if bundles != [] {
      var before, last := bundles[..|bundles| - 1], bundles[|bundles| - 1];
      assert bundles == before + [last];
      RowsAre(before, at, x);
      RowsOfAre(last, at, x);
      if x in Rows(bundles, at) {
        if x in Rows(before, at) {
          var o :| Observes(before, x.bundle, o) && x == RowOf(x.bundle, o, at);
          var b :| b in before && b.id == x.bundle && o in b.observations;
          assert b in bundles;
        } else {
          var o :| o in last.observations && x.bundle == last.id && x == RowOf(last.id, o, at);
          assert last in bundles;
        }
      }
      if o :| Observes(bundles, x.bundle, o) && x == RowOf(x.bundle, o, at) {
        var b :| b in bundles && b.id == x.bundle && o in b.observations;
        if b in before {
          assert Observes(before, x.bundle, o);
        } else {
          assert b == last;
        }
      }
    }
  }

  lemma {:induction false} RowsOfAre(b: Bundle, at: int, x: Row)
    ensures x in RowsOf(b.id, b.observations, at) <==>
            exists o :: o in b.observations && x.bundle == b.id && x == RowOf(b.id, o, at)
  {
    var rows := RowsOf(b.id, b.observations, at);
    if x in rows {
      var i :| 0 <= i < |rows| && rows[i] == x;
      assert b.observations[i] in b.observations;
    }
    if o :| o in b.observations && x.bundle == b.id && x == RowOf(b.id, o, at) {
      var i :| 0 <= i < |b.observations| && b.observations[i] == o;
      assert rows[i] == x;
    }
  }

  lemma {:induction false} RecordsAre(index: map<string, Row>, bundles: seq<Bundle>, r: Record)
    ensures r in Records(index, bundles) <==> exists e :: Supplies(bundles, r.bundle, e) && r == RecordOf(index, r.bundle, e)
    decreases |bundles|
  {
    hide RecordOf;
    if bundles != [] {
      var before, last := bundles[..|bundles| - 1], bundles[|bundles| - 1];
      assert bundles == before + [last];
      RecordsAre(index, before, r);
      RecordsOfAre(index, last, r);
      if r in Records(index, bundles) {
        if r in Records(index, before) {
          var e :| Supplies(before, r.bundle, e) && r == RecordOf(index, r.bundle, e);
          var b :| b in before && b.id == r.bundle && e in b.evidence;
          assert b in bundles;
        } else {
          var e :| e in last.evidence && r.bundle == last.id && r == RecordOf(index, last.id, e);
          assert last in bundles;
        }
      }
      if e :| Supplies(bundles, r.bundle, e) && r == RecordOf(index, r.bundle, e) {
        var b :| b in bundles && b.id == r.bundle && e in b.evidence;
        if b in before {
          assert Supplies(before, r.bundle, e);
        } else {
          assert b == last;
        }
      }
    }
  }

  lemma {:induction false} RecordsOfAre(index: map<string, Row>, b: Bundle, r: Record)
    ensures r in RecordsOf(index, b.id, b.evidence) <==>
            exists e :: e in b.evidence && r.bundle == b.id && r == RecordOf(index, b.id, e)
  {
    hide Referred, Combine;
    var records := RecordsOf(index, b.id, b.evidence);
    if r in records {
      var i :| 0 <= i < |records| && records[i] == r;
      assert b.evidence[i] in b.evidence;
    }
    if e :| e in b.evidence && r.bundle == b.id && r == RecordOf(index, b.id, e) {
      var i :| 0 <= i < |b.evidence| && b.evidence[i] == e;
      assert records[i] == r;
    }
  }

  /** The same observations, evidence and requirements, in any order and any division into bundles. */
  ghost predicate SameInput(a: seq<Bundle>, b: seq<Bundle>)
  {
    && (forall bundle, o :: Observes(a, bundle, o) <==> Observes(b, bundle, o))
    && (forall bundle, e :: Supplies(a, bundle, e) <==> Supplies(b, bundle, e))
  }

  lemma {:induction false} SameInputRows(a: seq<Bundle>, b: seq<Bundle>, at: int)
    requires SameInput(a, b)
    ensures forall x :: x in Rows(a, at) <==> x in Rows(b, at)
  {
    hide Observes, RowOf, Rows;
    forall x
      ensures x in Rows(a, at) <==> x in Rows(b, at)
    {
      RowsAre(a, at, x);
      RowsAre(b, at, x);
    }
  }

  lemma {:induction false} SameInputRecords(index: map<string, Row>, a: seq<Bundle>, b: seq<Bundle>)
    requires SameInput(a, b)
    ensures SameRecords(Records(index, a), Records(index, b))
  {
    hide Supplies, RecordOf, Records;
    forall r
      ensures r in Records(index, a) <==> r in Records(index, b)
    {
      RecordsAre(index, a, r);
      RecordsAre(index, b, r);
    }
  }

  lemma {:induction false} WorstIsWorst(s: seq<Status>)
    ensures s != [] ==> Worst(s) in s && forall x :: x in s ==> Priority(x) <= Priority(Worst(s))
    decreases |s|
  {
    hide Priority;
    if |s| > 1 {
      WorstIsWorst(s[1..]);
      assert s == [s[0]] + s[1..];
    }
  }

  lemma {:induction false} WorstOrderFree(s: seq<Status>, t: seq<Status>)
    requires forall x :: x in s <==> x in t
    ensures Worst(s) == Worst(t)
  {
    WorstIsWorst(s);
    WorstIsWorst(t);
    assert (s != [] ==> s[0] in t) && (t != [] ==> t[0] in s);
    PriorityInjective(Worst(s), Worst(t));
  }

  lemma {:induction false} PriorityInjective(x: Status, y: Status)
    ensures Priority(x) == Priority(y) ==> x == y
  {
  }

  lemma {:induction false} OverallOrderFree(records: seq<Record>, rs: seq<Requirement>, qs: seq<Requirement>)
    requires forall r :: r in rs <==> r in qs
    ensures Overall(records, rs) == Overall(records, qs)
  {
    hide SlotStatuses, Worst;
    var s, t := RequirementStatuses(records, rs), RequirementStatuses(records, qs);
    forall x
      ensures x in s <==> x in t
    {
      if x in s {
        var i :| 0 <= i < |s| && s[i] == x;
        assert rs[i] in rs;
        var k :| 0 <= k < |qs| && qs[k] == rs[i];
        assert t[k] == x;
      }
      if x in t {
        var i :| 0 <= i < |t| && t[i] == x;
        assert qs[i] in qs;
        var k :| 0 <= k < |rs| && rs[k] == qs[i];
        assert s[k] == x;
      }
    }
    WorstOrderFree(s, t);
  }

  /** With unambiguous keys the overall status does not depend on the order of anything. */
  lemma {:induction false} OrderIndependent(rs: seq<Requirement>, qs: seq<Requirement>, a: seq<Bundle>, b: seq<Bundle>, at: int)
    requires SameInput(a, b) && (forall r :: r in rs <==> r in qs) && Unambiguous(Rows(a, at))
    ensures Evaluate(rs, a, at) == Evaluate(qs, b, at)
  {
    hide SameInput, Unambiguous, Index, Rows, Records, Overall;
    SameInputRows(a, b, at);
    IndexOrderFree(Rows(a, at), Rows(b, at));
    var index := Index(Rows(a, at));
    SameInputRecords(index, a, b);
    OrderFree(Records(index, a), Records(index, b), rs);
    OverallOrderFree(Records(index, b), rs, qs);
  }

  // ---- an ambiguous key ------------------------------------------------------------------------------------

  function Observed(id: string, status: Status): Observation { Observation(id, status, None, None, true) }

  /** Bundle `a` with observation `b:c`, and bundle `a:b` with observation `c`: the later one wins the key. */
  lemma {:induction false} AmbiguousKeyFlips(x: Bundle, y: Bundle, rs: seq<Requirement>, at: int)
    requires x == Bundle("a", [Observed("b:c", Pass)], [Evidence("e", Of(Unit), {"r"}, ["b:c"], false)])
    requires y == Bundle("a:b", [Observed("c", Fail)], [])
    requires rs == [Requirement("r", [Unit])]
    ensures Evaluate(rs, [y, x], at) == Pass && Evaluate(rs, [x, y], at) == Fail
  {
    var p, f := Row("a", "b:c", Pass, true), Row("a:b", "c", Fail, true);
    assert Key("a", "b:c") == "a:b:c" && Key("a:b", "c") == "a:b:c";
    TwoBundles(x, y, at, p, f);
    TwoBundles(y, x, at, f, p);
    IndexOfTwo(p, f);
    IndexOfTwo(f, p);
    OneRecord(map["a:b:c" := f], x, y, rs, f);
    OneRecord(map["a:b:c" := p], x, y, rs, p);
  }

  lemma {:induction false} TwoBundles(b: Bundle, c: Bundle, at: int, x: Row, y: Row)
    requires |b.observations| == |c.observations| == 1
    requires x == RowOf(b.id, b.observations[0], at) && y == RowOf(c.id, c.observations[0], at)
    ensures Rows([b, c], at) == [x, y]
  {
    assert [b, c][..1] == [b] && [b][..0] == [];
    assert Rows([b], at) == [x];
    assert RowsOf(c.id, c.observations, at) == [y];
  }

  lemma {:induction false} IndexOfTwo(x: Row, y: Row)
    requires Key(x.bundle, x.id) == Key(y.bundle, y.id)
    ensures Index([x, y]) == map[Key(y.bundle, y.id) := y]
  {
    hide Key;
    assert [x, y][..1] == [x] && [x][..0] == [];
    assert Index([x]) == map[Key(x.bundle, x.id) := x];
  }

  /** The only record is the one of `x`, and its status is that of the row found under the shared key. */
  lemma {:induction false} OneRecord(index: map<string, Row>, x: Bundle, y: Bundle, rs: seq<Requirement>, found: Row)
    requires x.id == "a" && x.evidence == [Evidence("e", Of(Unit), {"r"}, ["b:c"], false)] && y.evidence == []
    requires rs == [Requirement("r", [Unit])] && index == map["a:b:c" := found]
    requires found.independent && (found.status == Pass || found.status == Fail)
    ensures Overall(Records(index, [x, y]), rs) == found.status && Overall(Records(index, [y, x]), rs) == found.status
  {
    assert Key("a", "b:c") == "a:b:c";
    assert [x, y][..1] == [x] && [y, x][..1] == [y] && [x][..0] == [] && [y][..0] == [];
    var e := x.evidence[0];
    var r := RecordOf(index, "a", e);
    assert ["b:c"][1..] == [];
    assert Referred(index, "a", ["b:c"]) == [found];
    assert Statuses([found]) == [found.status];
    assert r.status == found.status && r.independent;
    assert Records(index, [x]) == [r] && Records(index, [y]) == [];
    assert Records(index, [x, y]) == [r] && Records(index, [y, x]) == [r];
    SlotOfOne(r, "r", Unit);
    assert SlotStatuses([r], rs[0]) == [found.status];
    assert RequirementStatuses([r], rs) == [found.status];
  }

  lemma {:induction false} SlotOfOne(r: Record, requirement: string, t: EvidenceType)
    requires InSlot(r, requirement, t) && r.independent && (r.status == Pass || r.status == Fail)
    ensures Slot([r], requirement, t) == r.status
  {
    hide InSlot;
    assert r in [r];
    assert Has([r], requirement, t, r.status, true);
  }
}
