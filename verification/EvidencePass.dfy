/** When the evidence authority reports PASS, in terms of the bundles and the observations they name. */
module EvidencePass {
  import opened Wrappers
  import opened EvidenceAdjudication

  /** An evidence record `e` of `bundle` names observation `o` of the same bundle. */
  ghost predicate Names(bundles: seq<Bundle>, bundle: string, e: Evidence, o: Observation)
  {
    Observes(bundles, bundle, o) && o.id in e.observationIds
  }

  ghost predicate NamesSome(bundles: seq<Bundle>, bundle: string, e: Evidence) { exists o :: Names(bundles, bundle, e, o) }

  /** Evidence refers only to observations of its own bundle, as `validateIntentEvidenceBundle` makes sure. */
  ghost predicate NamesKnown(bundles: seq<Bundle>)
  {
    forall bundle, e, id :: Supplies(bundles, bundle, e) && id in e.observationIds ==> KnownIn(bundles, bundle, id)
  }

  ghost predicate KnownIn(bundles: seq<Bundle>, bundle: string, id: string)
  {
    exists o :: Observes(bundles, bundle, o) && o.id == id
  }

  /** Neither not yet valid nor expired at the time of the evaluation. */
  predicate Current(o: Observation, at: int)
  {
    (o.from.Some? ==> o.from.value <= at) && (o.until.Some? ==> at <= o.until.value)
  }

  /** A status other than STALE is that of a current observation. */
  lemma {:induction false} CurrentStatus(o: Observation, at: int, status: Status)
    requires status != Stale
    ensures EffectiveStatus(o, at) == status <==> Current(o, at) && o.status == status
  {
  }

  /** Some named observation is current and has this status. */
  ghost predicate Shows(bundles: seq<Bundle>, at: int, bundle: string, e: Evidence, status: Status)
  {
    exists o :: Names(bundles, bundle, e, o) && Current(o, at) && o.status == status
  }

  /** Not a model's inference, and every named observation is independent. */
  ghost predicate IndependentEvidence(bundles: seq<Bundle>, bundle: string, e: Evidence)
  {
    && !e.evidenceClass.ModelInference? && NamesSome(bundles, bundle, e)
    && forall o :: Names(bundles, bundle, e, o) ==> o.independent
  }

  /** All named observations pass now, or for `any` one of them does and none fails or conflicts. */
  ghost predicate PassingEvidence(bundles: seq<Bundle>, at: int, bundle: string, e: Evidence)
  {
    && NamesSome(bundles, bundle, e)
    && if e.any then Shows(bundles, at, bundle, e, Pass) && !Shows(bundles, at, bundle, e, Fail)
                     && !Shows(bundles, at, bundle, e, Conflicted)
       else forall o :: Names(bundles, bundle, e, o) ==> Current(o, at) && o.status == Pass
  }

  /** Independent evidence of a required type for a requirement. */
  ghost predicate Counts(bundles: seq<Bundle>, bundle: string, e: Evidence, requirement: string, t: EvidenceType)
  {
    && Supplies(bundles, bundle, e) && requirement in e.requirementIds && e.evidenceClass == Of(t)
    && IndependentEvidence(bundles, bundle, e)
  }

  /** Some counting evidence passes, and none names an observation that fails or conflicts. */
  ghost predicate Met(bundles: seq<Bundle>, at: int, requirement: string, t: EvidenceType)
  {
    && (exists bundle, e :: Counts(bundles, bundle, e, requirement, t) && PassingEvidence(bundles, at, bundle, e))
    && forall bundle, e :: Counts(bundles, bundle, e, requirement, t) ==>
         !Shows(bundles, at, bundle, e, Fail) && !Shows(bundles, at, bundle, e, Conflicted)
  }

  // ---- what a record sees ------------------------------------------------------------------------

  lemma {:induction false} ReferredIn(index: map<string, Row>, bundle: string, ids: seq<string>, x: Row)
    ensures x in Referred(index, bundle, ids)
            <==> exists id :: id in ids && Key(bundle, id) in index && index[Key(bundle, id)] == x
    decreases |ids|
  {
    hide Key;
    if ids != [] {
      ReferredIn(index, bundle, ids[1..], x);
      assert forall id :: id in ids <==> id == ids[0] || id in ids[1..];
    }
  }

  /** A record aggregates exactly the observations that its evidence names. */
  lemma {:induction false} ReferredAre(bundles: seq<Bundle>, at: int, bundle: string, e: Evidence, x: Row)
    requires Unambiguous(Rows(bundles, at)) && NamesKnown(bundles) && Supplies(bundles, bundle, e)
    ensures x in Referred(Index(Rows(bundles, at)), bundle, e.observationIds)
            <==> exists o :: Names(bundles, bundle, e, o) && x == RowOf(bundle, o, at)
  {
    hide Index, Rows, Referred, Key, Observes, Supplies, EffectiveStatus, Unambiguous;
    var rows := Rows(bundles, at);
    var index := Index(rows);
    ReferredIn(index, bundle, e.observationIds, x);
    FaithfulIff(rows);
    if x in Referred(index, bundle, e.observationIds) {
      var id :| id in e.observationIds && Key(bundle, id) in index && index[Key(bundle, id)] == x;
      assert KnownIn(bundles, bundle, id);
      var o :| Observes(bundles, bundle, o) && o.id == id;
      RowsAre(bundles, at, RowOf(bundle, o, at));
      assert Names(bundles, bundle, e, o);
    }
    if o :| Names(bundles, bundle, e, o) && x == RowOf(bundle, o, at) {
      RowsAre(bundles, at, x);
      assert Key(bundle, o.id) in index && index[Key(bundle, o.id)] == x;
    }
  }

  lemma {:induction false} StatusIn(rows: seq<Row>, status: Status)
    ensures status in Statuses(rows) <==> exists x :: x in rows && x.status == status
  {
    if status in Statuses(rows) {
      var i :| 0 <= i < |rows| && Statuses(rows)[i] == status;
      assert rows[i] in rows;
    }
    if x :| x in rows && x.status == status {
      var i :| 0 <= i < |rows| && rows[i] == x;
      assert Statuses(rows)[i] == status;
    }
  }

  lemma {:induction false} CombineBad(s: seq<Status>, any: bool)
    ensures Combine(s, any) == Fail || Combine(s, any) == Conflicted <==> Fail in s || Conflicted in s
  {
  }

  lemma {:induction false} AllPass(rows: seq<Row>)
    ensures (forall s :: s in Statuses(rows) ==> s == Pass) <==> (forall x :: x in rows ==> x.status == Pass)
  {
    hide Statuses;
    forall x | x in rows ensures x.status in Statuses(rows) { StatusIn(rows, x.status); }
    forall s | s in Statuses(rows) ensures exists x :: x in rows && x.status == s { StatusIn(rows, s); }
  }

  ghost predicate SeenBy(bundles: seq<Bundle>, at: int, bundle: string, e: Evidence, rows: seq<Row>)
  {
    forall x :: x in rows <==> exists o :: Names(bundles, bundle, e, o) && x == RowOf(bundle, o, at)
  }

  lemma {:induction false} SeenShows(bundles: seq<Bundle>, at: int, bundle: string, e: Evidence, rows: seq<Row>, status: Status)
    requires SeenBy(bundles, at, bundle, e, rows) && status != Stale
    ensures status in Statuses(rows) <==> Shows(bundles, at, bundle, e, status)
  {
    hide Names, Statuses, EffectiveStatus, Current;
    StatusIn(rows, status);
    if status in Statuses(rows) {
      var x :| x in rows && x.status == status;
      var o :| Names(bundles, bundle, e, o) && x == RowOf(bundle, o, at);
      CurrentStatus(o, at, status);
    }
    if o :| Names(bundles, bundle, e, o) && Current(o, at) && o.status == status {
      CurrentStatus(o, at, status);
      assert RowOf(bundle, o, at) in rows;
    }
  }

  lemma {:induction false} SeenIndependent(bundles: seq<Bundle>, at: int, bundle: string, e: Evidence, rows: seq<Row>)
    requires SeenBy(bundles, at, bundle, e, rows)
    ensures rows != [] <==> NamesSome(bundles, bundle, e)
    ensures (forall x :: x in rows ==> x.independent) <==> (forall o :: Names(bundles, bundle, e, o) ==> o.independent)
    ensures (forall x :: x in rows ==> x.status == Pass)
            <==> (forall o :: Names(bundles, bundle, e, o) ==> Current(o, at) && o.status == Pass)
  {
    hide Names, EffectiveStatus, Current;
    forall o | Names(bundles, bundle, e, o)
      ensures RowOf(bundle, o, at) in rows && (RowOf(bundle, o, at).status == Pass <==> Current(o, at) && o.status == Pass)
    {
      CurrentStatus(o, at, Pass);
    }
    if rows != [] {
      assert rows[0] in rows;
    }
  }

  /** What a record's status and independence mean. */
  lemma {:induction false} RecordMeans(bundles: seq<Bundle>, at: int, bundle: string, e: Evidence)
    requires Unambiguous(Rows(bundles, at)) && NamesKnown(bundles) && Supplies(bundles, bundle, e)
    ensures var r := RecordOf(Index(Rows(bundles, at)), bundle, e);
            && (r.independent <==> IndependentEvidence(bundles, bundle, e))
            && (r.status == Pass <==> PassingEvidence(bundles, at, bundle, e))
            && (r.status == Fail || r.status == Conflicted <==>
                  Shows(bundles, at, bundle, e, Fail) || Shows(bundles, at, bundle, e, Conflicted))
  {
    hide Index, Rows, Referred, Unambiguous, NamesKnown, Supplies, Names, EffectiveStatus, Combine, Statuses, Shows;
    var rows := Referred(Index(Rows(bundles, at)), bundle, e.observationIds);
    forall x ensures x in rows <==> exists o :: Names(bundles, bundle, e, o) && x == RowOf(bundle, o, at) {
      ReferredAre(bundles, at, bundle, e, x);
    }
    SeenIndependent(bundles, at, bundle, e, rows);
    SeenShows(bundles, at, bundle, e, rows, Pass);
    SeenShows(bundles, at, bundle, e, rows, Fail);
    SeenShows(bundles, at, bundle, e, rows, Conflicted);
    CombinePass(Statuses(rows), e.any);
    CombineBad(Statuses(rows), e.any);
    AllPass(rows);
  }

  // ---- PASS --------------------------------------------------------------------------------------

  lemma {:induction false} SatisfiedIff(bundles: seq<Bundle>, at: int, requirement: string, t: EvidenceType)
    requires Unambiguous(Rows(bundles, at)) && NamesKnown(bundles)
    ensures Satisfied(Records(Index(Rows(bundles, at)), bundles), requirement, t) <==> Met(bundles, at, requirement, t)
  {
    hide Index, Rows, Unambiguous, NamesKnown, Supplies, IndependentEvidence, PassingEvidence, Shows, RecordOf, Records;
    var index := Index(Rows(bundles, at));
    var records := Records(index, bundles);
    forall bundle, e | Supplies(bundles, bundle, e)
      ensures var r := RecordOf(index, bundle, e);
              && r in records && r.bundle == bundle
              && (InSlot(r, requirement, t) && r.independent <==> Counts(bundles, bundle, e, requirement, t))
              && (r.status == Pass <==> PassingEvidence(bundles, at, bundle, e))
              && (r.status == Fail || r.status == Conflicted <==>
                    Shows(bundles, at, bundle, e, Fail) || Shows(bundles, at, bundle, e, Conflicted))
    {
      RecordMeans(bundles, at, bundle, e);
      RecordFields(index, bundle, e);
      RecordsAre(index, bundles, RecordOf(index, bundle, e));
    }
    forall r | r in records ensures exists e :: Supplies(bundles, r.bundle, e) && r == RecordOf(index, r.bundle, e) {
      RecordsAre(index, bundles, r);
    }
  }

  lemma {:induction false} RecordFields(index: map<string, Row>, bundle: string, e: Evidence)
    ensures var r := RecordOf(index, bundle, e);
            r.bundle == bundle && r.requirementIds == e.requirementIds && r.evidenceClass == e.evidenceClass
  {
  }

  /**
   * With unambiguous keys the overall status is PASS if and only if there is a requirement, each
   * has a required type, and for each of them some independent evidence passes while none names a
   * failing or conflicting observation.
   */
  lemma {:induction false} EvaluatesToPassIff(rs: seq<Requirement>, bundles: seq<Bundle>, at: int)
    requires Unambiguous(Rows(bundles, at)) && NamesKnown(bundles)
    ensures Evaluate(rs, bundles, at) == Pass <==>
            && rs != []
            && forall i :: 0 <= i < |rs| ==>
                 rs[i].types != [] && forall k :: 0 <= k < |rs[i].types| ==> Met(bundles, at, rs[i].id, rs[i].types[k])
  {
    hide Index, Rows, Records, Overall, Unambiguous, NamesKnown, Met, Satisfied;
    PassIff(Records(Index(Rows(bundles, at)), bundles), rs);
    forall requirement, t
      ensures Satisfied(Records(Index(Rows(bundles, at)), bundles), requirement, t) <==> Met(bundles, at, requirement, t)
    {
      SatisfiedIff(bundles, at, requirement, t);
    }
  }

  // ---- FAIL and CONFLICTED -----------------------------------------------------------------------

  /** Some counting evidence names a current observation that fails or conflicts. */
  ghost predicate Refuted(bundles: seq<Bundle>, at: int, requirement: string, t: EvidenceType)
  {
    exists bundle, e :: Counts(bundles, bundle, e, requirement, t)
                        && (Shows(bundles, at, bundle, e, Fail) || Shows(bundles, at, bundle, e, Conflicted))
  }

  lemma {:induction false} SlotRefuted(bundles: seq<Bundle>, at: int, requirement: string, t: EvidenceType)
    requires Unambiguous(Rows(bundles, at)) && NamesKnown(bundles)
    ensures var s := Slot(Records(Index(Rows(bundles, at)), bundles), requirement, t);
            s == Fail || s == Conflicted <==> Refuted(bundles, at, requirement, t)
  {
    hide Index, Rows, Unambiguous, NamesKnown, Supplies, IndependentEvidence, PassingEvidence, Shows, RecordOf, Records;
    var index := Index(Rows(bundles, at));
    var records := Records(index, bundles);
    SlotIff(records, requirement, t);
    forall bundle, e | Supplies(bundles, bundle, e)
      ensures var r := RecordOf(index, bundle, e);
              && r in records
              && (InSlot(r, requirement, t) && r.independent <==> Counts(bundles, bundle, e, requirement, t))
              && (r.status == Fail || r.status == Conflicted <==>
                    Shows(bundles, at, bundle, e, Fail) || Shows(bundles, at, bundle, e, Conflicted))
    {
      RecordMeans(bundles, at, bundle, e);
      RecordFields(index, bundle, e);
      RecordsAre(index, bundles, RecordOf(index, bundle, e));
    }
    forall r | r in records ensures exists e :: Supplies(bundles, r.bundle, e) && r == RecordOf(index, r.bundle, e) {
      RecordsAre(index, bundles, r);
    }
  }

  /**
   * With unambiguous keys the overall status is FAIL or CONFLICTED if and only if some independent
   * evidence of a required type names a current observation that fails or conflicts.
   */
  lemma {:induction false} EvaluatesToRefutedIff(rs: seq<Requirement>, bundles: seq<Bundle>, at: int)
    requires Unambiguous(Rows(bundles, at)) && NamesKnown(bundles)
    ensures Evaluate(rs, bundles, at) in {Fail, Conflicted} <==>
            exists r, t :: r in rs && t in r.types && Refuted(bundles, at, r.id, t)
  {
    hide Index, Rows, Records, Slot, Unambiguous, NamesKnown, Refuted, Worst;
    var records := Records(Index(Rows(bundles, at)), bundles);
    var s := RequirementStatuses(records, rs);
    WorstIff(s);
    forall i | 0 <= i < |rs|
      ensures s[i] in {Fail, Conflicted} <==> exists t :: t in rs[i].types && Refuted(bundles, at, rs[i].id, t)
    {
      RequirementRefuted(bundles, at, records, rs[i]);
    }
    if r, t :| r in rs && t in r.types && Refuted(bundles, at, r.id, t) {
      var i :| 0 <= i < |rs| && rs[i] == r;
      assert s[i] in {Fail, Conflicted} && s[i] in s;
    }
    if Worst(s) in {Fail, Conflicted} {
      var i :| 0 <= i < |rs| && s[i] == Worst(s);
    }
  }

  lemma {:induction false} RequirementRefuted(bundles: seq<Bundle>, at: int, records: seq<Record>, r: Requirement)
    requires Unambiguous(Rows(bundles, at)) && NamesKnown(bundles) && records == Records(Index(Rows(bundles, at)), bundles)
    ensures Worst(SlotStatuses(records, r)) in {Fail, Conflicted} <==>
            exists t :: t in r.types && Refuted(bundles, at, r.id, t)
  {
    hide Index, Rows, Records, Slot, Unambiguous, NamesKnown, Refuted, Worst;
    var s := SlotStatuses(records, r);
    WorstIff(s);
    forall k | 0 <= k < |r.types| ensures s[k] in {Fail, Conflicted} <==> Refuted(bundles, at, r.id, r.types[k]) {
      SlotRefuted(bundles, at, r.id, r.types[k]);
    }
    if t :| t in r.types && Refuted(bundles, at, r.id, t) {
      var k :| 0 <= k < |r.types| && r.types[k] == t;
      assert s[k] in s;
    }
    if Worst(s) in {Fail, Conflicted} {
      var k :| 0 <= k < |r.types| && s[k] == Worst(s);
      assert r.types[k] in r.types;
    }
  }
}
