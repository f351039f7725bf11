/** The durable side of the stdio effect boundary as a step system. */
module EffectSteps {
  import opened Wrappers

  // Each move is one atomic operation on the consumed leases, on a file of a bucket or on the
  // evidence log; a crash or a thrown error may cut a job off between any two moves. One job at
  // a time works on an effect.

  type EffectId = nat
  type Lease = nat

  /** `EFFECT_VERIFICATION_STATES`. */
  datatype Verdict = ConfirmedSuccess | ConfirmedFailure | PartialOrAmbiguous | Unknown | Invalid

  /** The set `UNRESOLVED`. */
  predicate Unresolved(v: Verdict) { v.PartialOrAmbiguous? || v.Unknown? || v.Invalid? }

  /** `bound` verdicts, those of `#finalize`, carry the binding digest of the effect as the consumption does. */
  datatype Event =
    | LeaseConsumed(id: EffectId, lease: Lease)
    | Observed(id: EffectId)
    | Judged(id: EffectId, verdict: Verdict, bound: bool)

  /** How far the job of an effect has come. */
  datatype Job =
    | Leased(lease: Lease)
    | Journaled(lease: Lease)
    | Anchored(lease: Lease)
    | Awaiting
    | Observing
    | Persisting(verdict: Verdict, stage: Stage)

  datatype Stage = Recorded | Written | Renamed

  /** Everything that survives a crash, the requests that went out, and the jobs that do not survive. */
  datatype World = World(
    leases: map<Lease, EffectId>,
    inflight: map<EffectId, Lease>,
    pending: map<EffectId, Verdict>,
    resolved: map<EffectId, Verdict>,
    log: seq<Event>,
    dispatched: set<EffectId>,
    jobs: map<EffectId, Job>)

  function Start(): World { World(map[], map[], map[], map[], [], {}, map[]) }

  datatype Move =
    | Consume(id: EffectId, lease: Lease)
    | Journal(id: EffectId)
    | Anchor(id: EffectId)
    | Dispatch(id: EffectId)
    | Observe(id: EffectId)
    | Conclude(id: EffectId, verdict: Verdict)
    | Recover(id: EffectId, verdict: Verdict)
    | Reverify(id: EffectId, verdict: Verdict)
    | WriteBucket(id: EffectId)
    | RenameOther(id: EffectId, worked: bool)
    | ClearInflight(id: EffectId, worked: bool)
    | Abort(id: EffectId)

  /** A verdict event that carries the binding of the effect. */
  predicate VerdictBound(w: World, id: EffectId) { exists v :: Judged(id, v, true) in w.log }

  /** The evidence log binds the effect's journal: by the consumption of its lease or by a verdict. */
  predicate HasAnchor(w: World, id: EffectId)
    requires id in w.inflight
  {
    LeaseConsumed(id, w.inflight[id]) in w.log || VerdictBound(w, id)
  }

  /** The evidence log binds the effect's bucket file. */
  predicate Bound(w: World, id: EffectId) { (exists e :: e in w.log && e.LeaseConsumed? && e.id == id) || VerdictBound(w, id) }

  predicate WasJudged(w: World, id: EffectId, v: Verdict) { Judged(id, v, true) in w.log || Judged(id, v, false) in w.log }

  predicate HasJob(w: World, id: EffectId, job: Job) { id in w.jobs && w.jobs[id] == job }

  predicate AtStage(w: World, id: EffectId, stage: Stage)
  {
    id in w.jobs && w.jobs[id].Persisting? && w.jobs[id].stage == stage
  }

  /** A response is awaited, or the entry was left behind when anchoring failed. */
  predicate Pending(w: World, id: EffectId)
  {
    id in w.jobs && (w.jobs[id].Journaled? || w.jobs[id].Anchored? || w.jobs[id].Awaiting?)
  }

  /** When the code can make a move. */
  predicate Enabled(w: World, m: Move)
  {
    match m
    case Consume(id, lease) => lease !in w.leases && id !in w.leases.Values && id !in w.jobs
    case Journal(id) => id in w.jobs && w.jobs[id].Leased?
    case Anchor(id) => id in w.jobs && w.jobs[id].Journaled?
    case Dispatch(id) => id in w.jobs && w.jobs[id].Anchored?
    case Observe(id) => Pending(w, id)
    case Conclude(id, _) => HasJob(w, id, Observing)
    case Recover(id, _) => id !in w.jobs && id in w.inflight && HasAnchor(w, id)
    case Reverify(id, _) => id !in w.jobs && (id in w.pending || id in w.resolved) && Bound(w, id)
    case WriteBucket(id) => AtStage(w, id, Recorded)
    case RenameOther(id, _) => AtStage(w, id, Written)
    case ClearInflight(id, _) => AtStage(w, id, Renamed)
    case Abort(id) => id in w.jobs
  }

  /** `persistEffectState`'s first operation: the file goes to the bucket of its verdict. */
  function InBucket(w: World, id: EffectId, v: Verdict): World
  {
    if Unresolved(v) then w.(pending := w.pending[id := v]) else w.(resolved := w.resolved[id := v])
  }

  /** Its second operation: the other bucket's file is moved out of the way. */
  function OtherMoved(w: World, id: EffectId, v: Verdict): World
  {
    if Unresolved(v) then w.(resolved := w.resolved - {id}) else w.(pending := w.pending - {id})
  }

  function WithJob(w: World, id: EffectId, job: Job): World { w.(jobs := w.jobs[id := job]) }

  function Logged(w: World, e: Event): World { w.(log := w.log + [e]) }

  function Apply(w: World, m: Move): World
    requires Enabled(w, m)
  {
    match m
    case Consume(id, lease) => WithJob(w.(leases := w.leases[lease := id]), id, Leased(lease))
    case Journal(id) =>
      var lease := w.jobs[id].lease;
      WithJob(w.(inflight := w.inflight[id := lease]), id, Journaled(lease))
    case Anchor(id) =>
      var lease := w.jobs[id].lease;
      WithJob(Logged(w, LeaseConsumed(id, lease)), id, Anchored(lease))
    case Dispatch(id) => WithJob(w.(dispatched := w.dispatched + {id}), id, Awaiting)
    case Observe(id) => WithJob(Logged(w, Observed(id)), id, Observing)
    case Conclude(id, v) => WithJob(Logged(w, Judged(id, v, true)), id, Persisting(v, Recorded))
    case Recover(id, v) => WithJob(Logged(w, Judged(id, v, false)), id, Persisting(v, Recorded))
    case Reverify(id, v) => WithJob(Logged(w, Judged(id, v, false)), id, Persisting(v, Recorded))
    case WriteBucket(id) =>
      var v := w.jobs[id].verdict;
      WithJob(InBucket(w, id, v), id, Persisting(v, Written))
    case RenameOther(id, worked) =>
      var v := w.jobs[id].verdict;
      WithJob(if worked then OtherMoved(w, id, v) else w, id, Persisting(v, Renamed))
    case ClearInflight(id, worked) =>
      (if worked then w.(inflight := w.inflight - {id}) else w).(jobs := w.jobs - {id})
    case Abort(id) => w.(jobs := w.jobs - {id})
  }

  /** The world after `moves`, when each can be made in turn. */
  function Run(w: World, moves: seq<Move>): Option<World>
    decreases |moves|
  {
    if moves == [] then Some(w)
    else if !Enabled(w, moves[0]) then None
    else Run(Apply(w, moves[0]), moves[1..])
  }

  ghost predicate Reachable(w: World) { exists moves :: Run(Start(), moves) == Some(w) }

  // ---- what every step keeps -----------------------------------------------------------------

  predicate OnDisk(w: World, id: EffectId) { id in w.inflight || id in w.pending || id in w.resolved }

  /** An effect consumes one lease, and a lease is consumed for one effect. */
  ghost predicate OneLeaseEach(leases: map<Lease, EffectId>)
  {
    forall k, l :: k in leases && l in leases && leases[k] == leases[l] ==> k == l
  }

  /** A lease was consumed for `id`, and the log says so. */
  ghost predicate Authorised(w: World, id: EffectId)
  {
    exists lease :: lease in w.leases && w.leases[lease] == id && LeaseConsumed(id, lease) in w.log
  }

  predicate Owns(w: World, id: EffectId, lease: Lease) { lease in w.leases && w.leases[lease] == id }

  /** What a job knows about the files of its effect. */
  predicate JobKnows(w: World, id: EffectId, job: Job)
  {
    match job
    case Leased(lease) => Owns(w, id, lease) && id !in w.dispatched && !OnDisk(w, id)
    case Journaled(lease) => Owns(w, id, lease) && id !in w.dispatched && id in w.inflight && w.inflight[id] == lease
    case Anchored(lease) =>
      Owns(w, id, lease) && id in w.inflight && w.inflight[id] == lease && LeaseConsumed(id, lease) in w.log
    case Awaiting => id in w.inflight
    case Observing => id in w.inflight
    case Persisting(v, stage) =>
      && WasJudged(w, id, v) && Bound(w, id) && OnDisk(w, id)
      && (!stage.Recorded? ==> if Unresolved(v) then id in w.pending else id in w.resolved)
  }

  /** The files of an effect say what their bucket means, the log says so too, and a dispatched effect has one. */
  ghost predicate Kept(w: World, id: EffectId)
  {
    && (id in w.inflight ==> Owns(w, id, w.inflight[id]))
    && (id in w.pending ==> Unresolved(w.pending[id]) && WasJudged(w, id, w.pending[id]))
    && (id in w.resolved ==> !Unresolved(w.resolved[id]) && WasJudged(w, id, w.resolved[id]))
    && (id in w.pending || id in w.resolved ==> Bound(w, id))
    && (id in w.dispatched ==> Authorised(w, id) && OnDisk(w, id))
    && (id in w.jobs ==> JobKnows(w, id, w.jobs[id]))
    && (OnDisk(w, id) || id in w.dispatched || id in w.jobs ==> id in w.leases.Values)
  }

  ghost predicate Inv(w: World)
  {
    OneLeaseEach(w.leases) && forall id :: Kept(w, id)
  }

  lemma {:induction false} StartKeeps()
    ensures Inv(Start())
  {
  }

  /** A step elsewhere: nothing of `id` changes; the log, of other effects, and the consumed leases only grow. */
  ghost predicate Untouched(w: World, v: World, id: EffectId)
  {
    && (id in w.inflight <==> id in v.inflight) && (id in w.inflight ==> w.inflight[id] == v.inflight[id])
    && (id in w.pending <==> id in v.pending) && (id in w.pending ==> w.pending[id] == v.pending[id])
    && (id in w.resolved <==> id in v.resolved) && (id in w.resolved ==> w.resolved[id] == v.resolved[id])
    && (id in w.dispatched <==> id in v.dispatched)
    && (id in w.jobs <==> id in v.jobs) && (id in w.jobs ==> w.jobs[id] == v.jobs[id])
    && (forall e :: e in w.log ==> e in v.log) && (forall e :: e in v.log && e.id == id ==> e in w.log)
    && (forall l :: l in w.leases ==> l in v.leases && v.leases[l] == w.leases[l])
  }

  lemma {:induction false} UntouchedKept(w: World, v: World, id: EffectId)
    requires Kept(w, id) && Untouched(w, v, id)
    ensures Kept(v, id)
  {
    if id in w.leases.Values {
      var l :| l in w.leases && w.leases[l] == id;
      assert v.leases[l] == id;
    }
  }

  lemma {:induction false} LoggingElsewhere(w: World, m: Move, id: EffectId)
    requires Enabled(w, m) && id != m.id
    requires m.Anchor? || m.Observe? || m.Conclude? || m.Recover? || m.Reverify?
    ensures Untouched(w, Apply(w, m), id)
  {
  }

  lemma {:induction false} FilingElsewhere(w: World, m: Move, id: EffectId)
    requires Enabled(w, m) && id != m.id && (m.ClearInflight? || m.Abort?)
    ensures Untouched(w, Apply(w, m), id)
  {
  }

  lemma {:induction false} WritingElsewhere(w: World, m: Move, id: EffectId)
    requires Enabled(w, m) && id != m.id && m.WriteBucket?
    ensures Untouched(w, Apply(w, m), id)
  {
  }

  lemma {:induction false} RenamingElsewhere(w: World, m: Move, id: EffectId)
    requires Enabled(w, m) && id != m.id && m.RenameOther?
    ensures Untouched(w, Apply(w, m), id)
  {
  }

  lemma {:induction false} AdmittingElsewhere(w: World, m: Move, id: EffectId)
    requires Enabled(w, m) && id != m.id && (m.Consume? || m.Journal? || m.Dispatch?)
    ensures Untouched(w, Apply(w, m), id)
  {
  }

  lemma {:induction false} OthersUntouched(w: World, m: Move, id: EffectId)
    requires Enabled(w, m) && id != m.id
    ensures Untouched(w, Apply(w, m), id)
  {
    hide Apply, Untouched, Enabled;
    if m.Anchor? || m.Observe? || m.Conclude? || m.Recover? || m.Reverify? {
      LoggingElsewhere(w, m, id);
    } else if m.Consume? || m.Journal? || m.Dispatch? {
      AdmittingElsewhere(w, m, id);
    } else if m.WriteBucket? {
      WritingElsewhere(w, m, id);
    } else if m.RenameOther? {
      RenamingElsewhere(w, m, id);
    } else {
      FilingElsewhere(w, m, id);
    }
  }

  /** The moves up to dispatch keep the effect's part. */
  lemma {:induction false} StepBeforeDispatch(w: World, m: Move)
    requires Enabled(w, m) && Kept(w, m.id) && (m.Consume? || m.Journal? || m.Anchor? || m.Dispatch?)
    ensures Kept(Apply(w, m), m.id)
  {
    var v := Apply(w, m);
    match m
    case Consume(id, lease) =>
      assert v.leases[lease] == id;
    case Journal(id) =>
      assert id in v.inflight;
    case Anchor(id) =>
      assert LeaseConsumed(id, w.jobs[id].lease) in v.log;
    case Dispatch(id) =>
      assert Owns(v, id, w.jobs[id].lease);
  }

  /** The moves after a response, or after a restart, that only append to the log. */
  lemma {:induction false} StepJudging(w: World, m: Move)
    requires Enabled(w, m) && Kept(w, m.id) && (m.Observe? || m.Conclude? || m.Recover? || m.Reverify? || m.Abort?)
    ensures Kept(Apply(w, m), m.id)
  {
    var v := Apply(w, m);
    assert forall e :: e in w.log ==> e in v.log;
  }

  /** The three operations of `persistEffectState`, failing or not. */
  lemma {:induction false} StepWriting(w: World, m: Move)
    requires Enabled(w, m) && Kept(w, m.id) && m.WriteBucket?
    ensures Kept(Apply(w, m), m.id)
  {
  }

  lemma {:induction false} StepRenaming(w: World, m: Move)
    requires Enabled(w, m) && Kept(w, m.id) && m.RenameOther?
    ensures Kept(Apply(w, m), m.id)
  {
  }

  lemma {:induction false} StepClearing(w: World, m: Move)
    requires Enabled(w, m) && Kept(w, m.id) && m.ClearInflight?
    ensures Kept(Apply(w, m), m.id)
  {
  }

  /** Every step keeps the invariant. */
  lemma {:induction false} StepKeeps(w: World, m: Move)
    requires Inv(w) && Enabled(w, m)
    ensures Inv(Apply(w, m))
  {
    hide Kept, Apply, Untouched;
    forall id
      ensures Kept(Apply(w, m), id)
    {
      if id != m.id {
        OthersUntouched(w, m, id);
        UntouchedKept(w, Apply(w, m), id);
      } else if m.Consume? || m.Journal? || m.Anchor? || m.Dispatch? {
        StepBeforeDispatch(w, m);
      } else if m.WriteBucket? {
        StepWriting(w, m);
      } else if m.RenameOther? {
        StepRenaming(w, m);
      } else if m.ClearInflight? {
        StepClearing(w, m);
      } else {
        StepJudging(w, m);
      }
    }
    LeasesStayOwned(w, m);
  }

  lemma {:induction false} LeasesStayOwned(w: World, m: Move)
    requires OneLeaseEach(w.leases) && Enabled(w, m)
    ensures OneLeaseEach(Apply(w, m).leases)
  {
    if m.Consume? {
      assert forall l :: l in w.leases ==> w.leases[l] in w.leases.Values;
    }
  }

  lemma {:induction false} RunKeeps(w: World, moves: seq<Move>)
    requires Inv(w) && Run(w, moves).Some?
    ensures Inv(Run(w, moves).value)
    decreases |moves|
  {
    hide Inv, Apply, Enabled;
    if moves != [] {
      StepKeeps(w, moves[0]);
      RunKeeps(Apply(w, moves[0]), moves[1..]);
    }
  }

  // ---- no effect is lost -----------------------------------------------------------------------

  /** `listUnresolvedEffects`. */
  ghost function UnresolvedEffects(w: World): set<EffectId> { w.pending.Keys + w.inflight.Keys }

  /**
   * In every reachable world, crashes included, a dispatched request has a consumed lease of its
   * own and a file; and it is absent from the unresolved effects only when a confirmed success or
   * failure was recorded and persisted for it.
   */
  lemma {:induction false} NoLostEffect(w: World, id: EffectId)
    requires Reachable(w) && id in w.dispatched
    ensures exists lease :: Owns(w, id, lease) && LeaseConsumed(id, lease) in w.log
                            && forall l :: l in w.leases && l != lease ==> w.leases[l] != id
    ensures OnDisk(w, id)
    ensures id !in w.pending && id !in w.inflight ==>
              && id in w.resolved && (w.resolved[id] == ConfirmedSuccess || w.resolved[id] == ConfirmedFailure)
              && (Judged(id, w.resolved[id], true) in w.log || Judged(id, w.resolved[id], false) in w.log)
    ensures id in UnresolvedEffects(w) <==> id in w.pending || id in w.inflight
  {
    var moves :| Run(Start(), moves) == Some(w);
    StartKeeps();
    RunKeeps(Start(), moves);
    assert Kept(w, id);
    var lease :| lease in w.leases && w.leases[lease] == id && LeaseConsumed(id, lease) in w.log;
    assert Owns(w, id, lease);
  }

  /**
   * A resolved file holds a confirmed result and a pending file one of the other verdicts; and every
   * bucket file is preceded by its evidence event, also for requests that never went out.
   */
  lemma {:induction false} FilesHaveEvidence(w: World, id: EffectId)
    requires Reachable(w)
    ensures id in w.pending ==> w.pending[id] in {PartialOrAmbiguous, Unknown, Invalid} && WasJudged(w, id, w.pending[id])
    ensures id in w.resolved ==> w.resolved[id] in {ConfirmedSuccess, ConfirmedFailure} && WasJudged(w, id, w.resolved[id])
    ensures id in w.pending || id in w.resolved ==> Bound(w, id)
    ensures id in w.inflight ==> Owns(w, id, w.inflight[id])
  {
    var moves :| Run(Start(), moves) == Some(w);
    StartKeeps();
    RunKeeps(Start(), moves);
    assert Kept(w, id);
  }

  // ---- the order of events ---------------------------------------------------------------------

  /** The log is append-only: what a run has logged stays logged, in place. */
  lemma {:induction false} LogGrows(w: World, moves: seq<Move>)
    requires Run(w, moves).Some?
    ensures w.log <= Run(w, moves).value.log
    decreases |moves|
  {
    if moves != [] {
      OneLogged(w, moves[0]);
      LogGrows(Apply(w, moves[0]), moves[1..]);
    }
  }

  lemma {:induction false} OneLogged(w: World, m: Move)
    requires Enabled(w, m)
    ensures w.log <= Apply(w, m).log
  {
  }

  /** The log names no lease that was not consumed for the effect. */
  ghost predicate ConsumptionsOwned(w: World) { forall id, lease :: LeaseConsumed(id, lease) in w.log ==> Owns(w, id, lease) }

  lemma {:induction false} StepOwns(w: World, m: Move)
    requires Inv(w) && ConsumptionsOwned(w) && Enabled(w, m)
    ensures ConsumptionsOwned(Apply(w, m))
  {
    LeasesStayOwned(w, m);
    assert Kept(w, m.id);
  }

  lemma {:induction false} RunOwns(w: World, moves: seq<Move>)
    requires Inv(w) && ConsumptionsOwned(w) && Run(w, moves).Some?
    ensures ConsumptionsOwned(Run(w, moves).value)
    decreases |moves|
  {
    hide Inv, Apply, Enabled, ConsumptionsOwned;
    if moves != [] {
      StepKeeps(w, moves[0]);
      StepOwns(w, moves[0]);
      RunOwns(Apply(w, moves[0]), moves[1..]);
    }
  }

  /**
   * Between two crashes an effect in flight can be recovered exactly when the log holds a
   * consumption of a lease for it or a verdict bound to it, whatever lease its journal names; and
   * an effect with a bucket file can always be verified again.
   */
  lemma {:induction false} RecoverableIff(w: World, id: EffectId, v: Verdict)
    requires Reachable(w) && id !in w.jobs
    ensures Enabled(w, Recover(id, v)) <==>
              && id in w.inflight
              && ((exists lease :: LeaseConsumed(id, lease) in w.log) || (exists u :: Judged(id, u, true) in w.log))
    ensures Enabled(w, Reverify(id, v)) <==> id in w.pending || id in w.resolved
  {
    hide JobKnows, WasJudged, Authorised;
    ReachableOwned(w);
    assert Kept(w, id);
    if lease :| id in w.inflight && LeaseConsumed(id, lease) in w.log {
      assert Owns(w, id, lease) && Owns(w, id, w.inflight[id]);
    }
  }

  lemma {:induction false} ReachableOwned(w: World)
    requires Reachable(w)
    ensures Inv(w) && ConsumptionsOwned(w)
  {
    hide Inv, Apply, Enabled;
    var moves :| Run(Start(), moves) == Some(w);
    StartKeeps();
    RunKeeps(Start(), moves);
    RunOwns(Start(), moves);
  }

  // ---- recovery can always finish ---------------------------------------------------------------

  /** After a crash a dispatched effect that is still in flight can be recovered to a bucket. */
  lemma {:induction false} RecoveryFinishes(w: World, id: EffectId, v: Verdict)
    requires Reachable(w) && id in w.dispatched && id in w.inflight && id !in w.jobs
    ensures var moves := [Recover(id, v), WriteBucket(id), RenameOther(id, true), ClearInflight(id, true)];
            var r := Run(w, moves);
            && r.Some? && id !in r.value.inflight && id !in r.value.jobs
            && (if v == ConfirmedSuccess || v == ConfirmedFailure
                then id in r.value.resolved && id !in r.value.pending && r.value.resolved[id] == v
                else id in r.value.pending && id !in r.value.resolved && r.value.pending[id] == v)
  {
    NoLostEffect(w, id);
    FilesHaveEvidence(w, id);
    var lease :| Owns(w, id, lease) && LeaseConsumed(id, lease) in w.log
                 && forall l :: l in w.leases && l != lease ==> w.leases[l] != id;
    assert w.inflight[id] == lease;
    RecoverySteps(w, id, v);
  }

  lemma {:induction false} OneStep(w: World, m: Move, rest: seq<Move>)
    requires Enabled(w, m)
    ensures Run(w, [m] + rest) == Run(Apply(w, m), rest)
  {
    assert ([m] + rest)[1..] == rest;
  }

  lemma {:induction false} RecoverySteps(w: World, id: EffectId, v: Verdict)
    requires Enabled(w, Recover(id, v))
    ensures var moves := [Recover(id, v), WriteBucket(id), RenameOther(id, true), ClearInflight(id, true)];
            var r := Run(w, moves);
            && r.Some? && id !in r.value.inflight && id !in r.value.jobs
            && (if v == ConfirmedSuccess || v == ConfirmedFailure
                then id in r.value.resolved && id !in r.value.pending && r.value.resolved[id] == v
                else id in r.value.pending && id !in r.value.resolved && r.value.pending[id] == v)
  {
    hide Apply, Enabled, Run;
    RecoveryWritten(w, id, v);
    RecoveryCleared(Apply(Apply(w, Recover(id, v)), WriteBucket(id)), id, v);
    FourSteps(w, Recover(id, v), WriteBucket(id), RenameOther(id, true), ClearInflight(id, true));
  }

  lemma {:induction false} RecoveryWritten(w: World, id: EffectId, v: Verdict)
    requires Enabled(w, Recover(id, v))
    ensures var w1 := Apply(w, Recover(id, v));
            && Enabled(w1, WriteBucket(id))
            && var w2 := Apply(w1, WriteBucket(id));
               HasJob(w2, id, Persisting(v, Written))
               && (if v == ConfirmedSuccess || v == ConfirmedFailure then id in w2.resolved && w2.resolved[id] == v
                   else id in w2.pending && w2.pending[id] == v)
  {
  }

  lemma {:induction false} RecoveryCleared(w: World, id: EffectId, v: Verdict)
    requires HasJob(w, id, Persisting(v, Written))
    requires if v == ConfirmedSuccess || v == ConfirmedFailure then id in w.resolved && w.resolved[id] == v
             else id in w.pending && w.pending[id] == v
    ensures Enabled(w, RenameOther(id, true))
    ensures var w3 := Apply(w, RenameOther(id, true));
            && Enabled(w3, ClearInflight(id, true))
            && var r := Apply(w3, ClearInflight(id, true));
               && id !in r.inflight && id !in r.jobs
               && (if v == ConfirmedSuccess || v == ConfirmedFailure
                   then id in r.resolved && id !in r.pending && r.resolved[id] == v
                   else id in r.pending && id !in r.resolved && r.pending[id] == v)
  {
  }

  lemma {:induction false} FourSteps(w: World, a: Move, b: Move, c: Move, d: Move)
    requires Enabled(w, a) && Enabled(Apply(w, a), b) && Enabled(Apply(Apply(w, a), b), c)
    requires Enabled(Apply(Apply(Apply(w, a), b), c), d)
    ensures Run(w, [a, b, c, d]) == Some(Apply(Apply(Apply(Apply(w, a), b), c), d))
  {
    hide Apply, Enabled;
    var w1 := Apply(w, a);
    var w2 := Apply(w1, b);
    var w3 := Apply(w2, c);
    OneStep(w, a, [b, c, d]);
    OneStep(w1, b, [c, d]);
    OneStep(w2, c, [d]);
    OneStep(w3, d, []);
    assert [a] + [b, c, d] == [a, b, c, d] && [b] + [c, d] == [b, c, d] && [c] + [d] == [c, d] && [d] + [] == [d];
  }
}
