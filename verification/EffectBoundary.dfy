/** `StdioMcpEffectBoundary` and `effect-state.js`, operation by operation. */
module EffectBoundary {
  import opened Wrappers
  import opened EffectSteps

  // They act on a store that remembers every world it went through: each of them is a reachable
  // world of the step system, so what holds of those holds wherever a crash cuts a method off.

  type Key = string

  lemma {:induction false} RunAppend(w: World, moves: seq<Move>, m: Move)
    requires Run(w, moves).Some? && Enabled(Run(w, moves).value, m)
    ensures Run(w, moves + [m]) == Some(Apply(Run(w, moves).value, m))
    decreases |moves|
  {
    hide Apply, Enabled;
    if moves == [] {
      assert [] + [m] == [m] + [];
      OneStep(w, m, []);
      assert Run(Apply(w, m), []) == Some(Apply(w, m));
    } else {
      assert (moves + [m])[1..] == moves[1..] + [m];
      RunAppend(Apply(w, moves[0]), moves[1..], m);
    }
  }

  lemma {:induction false} ReachableStep(w: World, m: Move)
    requires Reachable(w) && Enabled(w, m)
    ensures Reachable(Apply(w, m))
  {
    hide Apply, Enabled;
    var moves :| Run(Start(), moves) == Some(w);
    RunAppend(Start(), moves, m);
  }

  /** A confirmed result is filed as resolved, any other verdict as pending. */
  predicate Filed(w: World, id: EffectId, v: Verdict)
  {
    if v == ConfirmedSuccess || v == ConfirmedFailure then id in w.resolved && w.resolved[id] == v
    else id in w.pending && w.pending[id] == v
  }

  /** How writing a bucket file goes; renaming the other bucket's file and clearing may fail unnoticed. */
  datatype Writing = NotWritten | ThrewAfterRename | Completed(renamed: bool, cleared: bool)

  /** The files after a completed write: the verdict in its bucket, the rest gone as far as it could be removed. */
  predicate FilesAfter(u: World, w: World, id: EffectId, v: Verdict, renamed: bool, cleared: bool)
  {
    && Filed(w, id, v)
    && (if v == ConfirmedSuccess || v == ConfirmedFailure
        then id in w.pending <==> id in u.pending && !renamed
        else id in w.resolved <==> id in u.resolved && !renamed)
    && (id in w.inflight <==> id in u.inflight && !cleared)
  }

  /** The files of `id` after persisting its verdict as `how` says. */
  predicate Wrote(u: World, w: World, id: EffectId, v: Verdict, how: Writing)
  {
    match how
    case NotWritten => SameFiles(u, w, id)
    case ThrewAfterRename => Filed(w, id, v) && SameFiles(InBucket(u, id, v), w, id)
    case Completed(renamed, cleared) => FilesAfter(u, w, id, v, renamed, cleared)
  }

  /** How recovering or re-verifying an effect goes: whether it throws before its event is logged, its verdict, its write. */
  datatype Judging = Judging(throws: bool, verdict: Verdict, writing: Writing)

  predicate Judges(how: Judging) { !how.throws && how.writing.Completed? }

  /** The files of `id` after a judgement as `how` says. */
  predicate JudgedAs(u: World, w: World, id: EffectId, how: Judging)
  {
    if how.throws then SameFiles(u, w, id) else Wrote(u, w, id, how.verdict, how.writing)
  }

  /** The files of an effect are the same in both worlds. */
  predicate SameFiles(u: World, w: World, id: EffectId)
  {
    && (id in u.inflight <==> id in w.inflight) && (id in u.inflight ==> u.inflight[id] == w.inflight[id])
    && (id in u.pending <==> id in w.pending) && (id in u.pending ==> u.pending[id] == w.pending[id])
    && (id in u.resolved <==> id in w.resolved) && (id in u.resolved ==> u.resolved[id] == w.resolved[id])
  }

  /** `.ruleoak` on disk, with every world between two operations. */
  class EffectStore {
    var world: World
    ghost var trail: seq<World>

    /** Wherever a crash cuts the program off, the world left behind is a reachable one. */
    ghost predicate CrashSafe()
      reads this
    {
      trail != [] && trail[|trail| - 1] == world && forall i :: 0 <= i < |trail| ==> Reachable(trail[i])
    }

    constructor ()
      ensures CrashSafe() && world == Start()
    {
      world := Start();
      trail := [Start()];
      assert Run(Start(), []) == Some(Start());
    }

    /** One atomic operation. */
    method Do(m: Move)
      requires CrashSafe() && Enabled(world, m)
      modifies this
      ensures CrashSafe() && world == Apply(old(world), m) && old(trail) < trail
    {
      hide Apply, Enabled, Reachable;
      ReachableStep(world, m);
      world := Apply(world, m);
      trail := trail + [world];
    }

    /** `persistEffectState`, after its event was appended: write, rename, clear. */
    method PersistEffectState(id: EffectId, how: Writing) returns (ok: bool)
      requires CrashSafe() && AtStage(world, id, Recorded)
      modifies this
      ensures CrashSafe() && old(trail) < trail && id !in world.jobs
      ensures ok <==> how.Completed?
      ensures Wrote(old(world), world, id, old(world.jobs[id].verdict), how)
      ensures world.dispatched == old(world.dispatched)
      ensures forall other :: other != id ==> Untouched(old(world), world, other)
    {
      ghost var start := world;
      match how
      case NotWritten =>
        Do(Abort(id));
        Elsewhere(start, Abort(id));
        return false;
      case ThrewAfterRename =>
        ghost var left := LateWriteWorlds(start, id);
        Do(WriteBucket(id));
        Do(Abort(id));
        return false;
      case Completed(renamed, cleared) =>
        ghost var after := PersistWorlds(start, id, renamed, cleared);
        Do(WriteBucket(id));
        Do(RenameOther(id, renamed));
        Do(ClearInflight(id, cleared));
        return true;
    }

    /** One effect of `recoverInflightEffects`; `None` when its `try` block threw. */
    method RecoverOne(id: EffectId, how: Judging) returns (r: Option<Verdict>)
      requires CrashSafe() && id in world.inflight && id !in world.jobs
      modifies this
      ensures CrashSafe() && old(trail) <= trail && id !in world.jobs
      ensures r == if HasAnchor(old(world), id) && Judges(how) then Some(how.verdict) else None
      ensures if HasAnchor(old(world), id) then JudgedAs(old(world), world, id, how)
              else world == old(world) && trail == old(trail)
      ensures world.dispatched == old(world.dispatched)
      ensures forall other :: other != id ==> Untouched(old(world), world, other)
    {
      hide Reachable;
      ghost var start := world;
      if !HasAnchor(world, id) || how.throws {
        Same(start);
        return None;
      }
      Do(Recover(id, how.verdict));
      Elsewhere(start, Recover(id, how.verdict));
      ghost var judged := world;
      var ok := PersistEffectState(id, how.writing);
      UntouchedTwice(start, judged, world, id);
      WroteAfter(start, judged, world, id, how.verdict, how.writing);
      return if ok then Some(how.verdict) else None;
    }

    /** `reverifyEffect`. */
    method ReverifyEffect(id: EffectId, how: Judging) returns (r: Option<Verdict>)
      requires CrashSafe() && id !in world.jobs
      modifies this
      ensures CrashSafe() && old(trail) <= trail && id !in world.jobs
      ensures r == if old(Verifiable(world, id)) && Judges(how) then Some(how.verdict) else None
      ensures if old(Verifiable(world, id)) then JudgedAs(old(world), world, id, how)
              else world == old(world) && trail == old(trail)
      ensures world.dispatched == old(world.dispatched)
      ensures forall other :: other != id ==> Untouched(old(world), world, other)
    {
      hide Reachable;
      ghost var start := world;
      if !Verifiable(world, id) || how.throws {
        Same(start);
        return None;
      }
      Do(Reverify(id, how.verdict));
      Elsewhere(start, Reverify(id, how.verdict));
      ghost var judged := world;
      var ok := PersistEffectState(id, how.writing);
      UntouchedTwice(start, judged, world, id);
      WroteAfter(start, judged, world, id, how.verdict, how.writing);
      return if ok then Some(how.verdict) else None;
    }
  }

  /** The effect has a bucket file that the evidence log binds. */
  predicate Verifiable(w: World, id: EffectId)
  {
    && (id in w.pending || id in w.resolved)
    && ((exists e :: e in w.log && e.LeaseConsumed? && e.id == id) || (exists v :: Judged(id, v, true) in w.log))
  }

  // ---- frames ----------------------------------------------------------------------------------

  lemma {:induction false} Same(w: World)
    ensures forall other :: Untouched(w, w, other) && SameFiles(w, w, other)
  {
  }

  lemma {:induction false} SameInBucket(u: World, w: World, id: EffectId, v: Verdict)
    requires SameFiles(u, w, id)
    ensures SameFiles(InBucket(u, id, v), InBucket(w, id, v), id)
  {
    var x, y := InBucket(u, id, v), InBucket(w, id, v);
    if Unresolved(v) {
      assert x.inflight == u.inflight && x.resolved == u.resolved && x.pending == u.pending[id := v];
      assert y.inflight == w.inflight && y.resolved == w.resolved && y.pending == w.pending[id := v];
    } else {
      assert x.inflight == u.inflight && x.pending == u.pending && x.resolved == u.resolved[id := v];
      assert y.inflight == w.inflight && y.pending == w.pending && y.resolved == w.resolved[id := v];
    }
  }

  lemma {:induction false} WroteAfter(u: World, judged: World, w: World, id: EffectId, v: Verdict, how: Writing)
    requires SameFiles(u, judged, id) && Wrote(judged, w, id, v, how)
    ensures Wrote(u, w, id, v, how)
  {
    hide InBucket;
    SameInBucket(u, judged, id, v);
  }

  lemma {:induction false} Elsewhere(w: World, m: Move)
    requires Enabled(w, m)
    ensures forall other :: other != m.id ==> Untouched(w, Apply(w, m), other)
  {
    hide Apply, Untouched, Enabled;
    forall other | other != m.id
      ensures Untouched(w, Apply(w, m), other)
    {
      OthersUntouched(w, m, other);
    }
  }

  lemma {:induction false} UntouchedTwice(u: World, v: World, w: World, id: EffectId)
    requires forall other :: other != id ==> Untouched(u, v, other)
    requires forall other :: other != id ==> Untouched(v, w, other)
    ensures forall other :: other != id ==> Untouched(u, w, other)
  {
    hide Untouched;
    forall other | other != id
      ensures Untouched(u, w, other)
    {
      UntouchedTransitive(u, v, w, other);
    }
  }

  lemma {:induction false} UntouchedTransitive(u: World, v: World, w: World, id: EffectId)
    requires Untouched(u, v, id) && Untouched(v, w, id)
    ensures Untouched(u, w, id)
  {
  }

  /** The worlds of a `persistEffectState` whose write throws after its rename. */
  lemma {:induction false} LateWriteWorlds(w: World, id: EffectId) returns (after: World)
    requires AtStage(w, id, Recorded)
    ensures var w1 := Apply(w, WriteBucket(id)); Enabled(w1, Abort(id)) && after == Apply(w1, Abort(id))
    ensures Wrote(w, after, id, w.jobs[id].verdict, ThrewAfterRename) && id !in after.jobs && after.dispatched == w.dispatched
    ensures forall other :: other != id ==> Untouched(w, after, other)
  {
    var w1 := Apply(w, WriteBucket(id));
    after := Apply(w1, Abort(id));
    Elsewhere(w, WriteBucket(id));
    Elsewhere(w1, Abort(id));
    UntouchedTwice(w, w1, after, id);
  }

  /** The worlds of a completed `persistEffectState`. */
  lemma {:induction false} PersistWorlds(w: World, id: EffectId, renamed: bool, cleared: bool) returns (after: World)
    requires AtStage(w, id, Recorded)
    ensures var w1 := Apply(w, WriteBucket(id));
            && Enabled(w1, RenameOther(id, renamed))
            && var w2 := Apply(w1, RenameOther(id, renamed));
            && Enabled(w2, ClearInflight(id, cleared))
            && after == Apply(w2, ClearInflight(id, cleared))
    ensures FilesAfter(w, after, id, w.jobs[id].verdict, renamed, cleared)
    ensures id !in after.jobs && after.dispatched == w.dispatched
    ensures forall other :: other != id ==> Untouched(w, after, other)
  {
    var w1 := Apply(w, WriteBucket(id));
    var w2 := Apply(w1, RenameOther(id, renamed));
    after := Apply(w2, ClearInflight(id, cleared));
    Elsewhere(w, WriteBucket(id));
    Elsewhere(w1, RenameOther(id, renamed));
    Elsewhere(w2, ClearInflight(id, cleared));
    UntouchedTwice(w, w1, w2, id);
    UntouchedTwice(w, w2, after, id);
  }

  // ---- recovery after a restart ------------------------------------------------------------------

  ghost predicate Distinct<T(!new)>(xs: seq<T>)
  {
    forall i, j :: 0 <= i < j < |xs| ==> xs[i] != xs[j]
  }

  /** `w` differs from `u` at most in the effects `ids`. */
  ghost predicate OnlyChanges(u: World, w: World, ids: seq<EffectId>)
  {
    && w.dispatched == u.dispatched
    && forall other :: other !in ids ==> Untouched(u, w, other)
  }

  /** What recovering each effect came to, by its anchor at the start. */
  ghost predicate ResultsFiled(start: World, w: World, ids: seq<EffectId>, hows: seq<Judging>, results: seq<Option<Verdict>>)
  {
    && |results| <= |ids| == |hows|
    && forall i :: 0 <= i < |results| ==> ResultFiled(start, w, ids[i], hows[i], results[i])
  }

  predicate ResultFiled(start: World, w: World, id: EffectId, how: Judging, result: Option<Verdict>)
  {
    && id in start.inflight
    && result == (if HasAnchor(start, id) && Judges(how) then Some(how.verdict) else None)
    && if HasAnchor(start, id) then JudgedAs(start, w, id, how) else SameFiles(start, w, id)
  }

  /** Nothing of an effect changes by steps elsewhere, before and after its own. */
  lemma {:induction false} ResultStays(start: World, u: World, w: World, id: EffectId, how: Judging, r: Option<Verdict>)
    requires ResultFiled(start, u, id, how, r) && Untouched(u, w, id)
    ensures ResultFiled(start, w, id, how, r)
  {
    hide HasAnchor, InBucket;
  }

  lemma {:induction false} ResultNow(start: World, u: World, w: World, id: EffectId, how: Judging, r: Option<Verdict>)
    requires id in start.inflight && Untouched(start, u, id) && ResultFiled(u, w, id, how, r)
    ensures ResultFiled(start, w, id, how, r)
  {
    hide InBucket;
    AnchorStays(start, u, id);
    SameInBucket(start, u, id, how.verdict);
  }

  lemma {:induction false} AnchorStays(start: World, u: World, id: EffectId)
    requires id in start.inflight && Untouched(start, u, id)
    ensures HasAnchor(start, id) <==> HasAnchor(u, id)
  {
    assert LeaseConsumed(id, start.inflight[id]).id == id && forall v :: Judged(id, v, true).id == id;
  }

  lemma {:induction false} OneMoreResult(start: World, u: World, w: World, ids: seq<EffectId>, hows: seq<Judging>,
                                         results: seq<Option<Verdict>>, r: Option<Verdict>)
    requires |results| < |ids| == |hows| && Distinct(ids) && ids[|results|] in start.inflight
    requires ResultsFiled(start, u, ids, hows, results) && OnlyChanges(start, u, ids[..|results|])
    requires w.dispatched == u.dispatched && forall other :: other != ids[|results|] ==> Untouched(u, w, other)
    requires ResultFiled(u, w, ids[|results|], hows[|results|], r)
    ensures OnlyChanges(start, w, ids[..|results| + 1]) && ResultsFiled(start, w, ids, hows, results + [r])
  {
    hide Untouched, ResultFiled;
    var n := |results|;
    assert ids[..n + 1] == ids[..n] + [ids[n]];
    forall other | other !in ids[..n + 1]
      ensures Untouched(start, w, other)
    {
      UntouchedTransitive(start, u, w, other);
    }
    ResultNow(start, u, w, ids[n], hows[n], r);
    forall i | 0 <= i < n
      ensures ResultFiled(start, w, ids[i], hows[i], results[i])
    {
      ResultStays(start, u, w, ids[i], hows[i], results[i]);
    }
  }

  /** `recoverInflightEffects` for the effect files found in the directory: one failure stops no other. */
  method RecoverInflightEffects(store: EffectStore, ids: seq<EffectId>, hows: seq<Judging>)
    returns (results: seq<Option<Verdict>>)
    requires store.CrashSafe() && Distinct(ids) && store.world.jobs == map[] && |hows| == |ids|
    requires forall id :: id in ids ==> id in store.world.inflight
    modifies store
    ensures store.CrashSafe() && old(store.trail) <= store.trail
    ensures |results| == |ids| && ResultsFiled(old(store.world), store.world, ids, hows, results)
    ensures OnlyChanges(old(store.world), store.world, ids) && store.world.jobs == map[]
  {
    hide Untouched, ResultFiled, Reachable, HasAnchor, JudgedAs, Judges;
    ghost var start := store.world;
    results := [];
    SameWorld(start, ids);
    while |results| < |ids|
      invariant |results| <= |ids|
      invariant store.CrashSafe() && old(store.trail) <= store.trail
      invariant OnlyChanges(start, store.world, ids[..|results|])
      invariant ResultsFiled(start, store.world, ids, hows, results)
      invariant store.world.jobs == map[]
      decreases |ids| - |results|
    {
      var id := ids[|results|];
      ghost var before := store.world;
      StillInflight(start, before, ids, |results|);
      var r := store.RecoverOne(id, hows[|results|]);
      RecoveredOne(before, store.world, id, hows[|results|], r);
      OneMoreResult(start, before, store.world, ids, hows, results, r);
      NoJobs(before, store.world, id);
      results := results + [r];
    }
    assert ids[..|results|] == ids;
  }

  lemma {:induction false} RecoveredOne(u: World, w: World, id: EffectId, how: Judging, r: Option<Verdict>)
    requires id in u.inflight && r == if HasAnchor(u, id) && Judges(how) then Some(how.verdict) else None
    requires if HasAnchor(u, id) then JudgedAs(u, w, id, how) else w == u
    ensures ResultFiled(u, w, id, how, r)
  {
    hide HasAnchor, JudgedAs;
  }

  lemma {:induction false} SameWorld(w: World, ids: seq<EffectId>)
    ensures OnlyChanges(w, w, ids[..0])
  {
  }

  lemma {:induction false} StillInflight(start: World, w: World, ids: seq<EffectId>, n: nat)
    requires n < |ids| && Distinct(ids) && OnlyChanges(start, w, ids[..n]) && ids[n] in start.inflight
    ensures ids[n] in w.inflight
  {
    assert Untouched(start, w, ids[n]);
  }

  lemma {:induction false} NoJobs(u: World, w: World, id: EffectId)
    requires u.jobs == map[] && id !in w.jobs && forall other :: other != id ==> Untouched(u, w, other)
    ensures w.jobs == map[]
  {
    forall other
      ensures other !in w.jobs
    {
      assert other != id ==> Untouched(u, w, other);
    }
  }

  // ---- the boundary --------------------------------------------------------------------------------

  datatype Admission =
    | Untracked
    | Tracked(id: EffectId)
    | Denied(rule: Rule)
    | Threw

  datatype Rule = CorrelationRequired | RequestIdInUse | LeaseInvalid | ReplayDenied

  /** What `buildExecutionLease` gave: a lease, which its checks find sound or not, or an exception. */
  datatype Issue = Issued(lease: Lease, sound: bool) | IssueThrew

  /** How one durable operation goes; a failure may come after it took effect. */
  datatype Outcome = Undone | DoneButThrew | Done

  /** How consuming the lease, writing the journal and anchoring it in the log go. */
  datatype Admit = Admit(consumes: bool, journal: Outcome, anchor: Outcome)

  /** How `#finalize` goes: its receipt event, its verdict event, the verdict, its write. */
  datatype Settling = Settling(receipt: bool, judged: bool, verdict: Verdict, writing: Writing)

  predicate Settles(how: Settling) { how.receipt && how.judged && how.writing.Completed? }

  /** The files of `id` after `#finalize` as `how` says. */
  predicate SettledAs(u: World, w: World, id: EffectId, how: Settling)
  {
    if how.receipt && how.judged then Wrote(u, w, id, how.verdict, how.writing) else SameFiles(u, w, id)
  }

  /** A message from the child, as far as the boundary looks at it. */
  datatype Response = Response(key: Option<Key>, hasOutcome: bool)

  class StdioMcpEffectBoundary {
    const store: EffectStore
    var pending: map<Key, EffectId>

    /** Each pending request has its own effect, whose job is not yet finalised. */
    ghost predicate Valid()
      reads this, store
    {
      && store.CrashSafe()
      && (forall key :: key in pending ==> EffectSteps.Pending(store.world, pending[key]))
      && (forall k, l :: k in pending && l in pending && pending[k] == pending[l] ==> k == l)
    }

    constructor (store: EffectStore)
      requires store.CrashSafe()
      ensures Valid() && this.store == store && pending == map[]
    {
      this.store := store;
      pending := map[];
    }

    /** A consequential request that can be correlated. */
    predicate Fresh(likely: bool, key: Option<Key>)
      reads this
    {
      likely && key.Some? && key.value !in pending
    }

    /** A consequential request that can be correlated, with a sound lease that is not consumed. */
    predicate Passes(likely: bool, key: Option<Key>, issue: Issue)
      reads this, store
    {
      Fresh(likely, key) && issue.Issued? && issue.sound && issue.lease !in store.world.leases
    }

    /**
     * `beforeForward`. The lease is the one built for this request and `id` its fresh random effect
     * identifier; a request goes out only with a lease of its own consumed and its journal written.
     */
    method BeforeForward(key: Option<Key>, likely: bool, issue: Issue, id: EffectId, how: Admit) returns (r: Admission)
      requires Valid() && id !in store.world.leases.Values && id !in store.world.jobs
      modifies this, store
      ensures Valid() && old(store.trail) <= store.trail
      ensures r == Untracked <==> !likely
      ensures r == Denied(CorrelationRequired) <==> likely && key.None?
      ensures r == Denied(RequestIdInUse) <==> likely && key.Some? && key.value in old(pending)
      ensures r == Denied(LeaseInvalid) <==> old(Fresh(likely, key)) && issue.Issued? && !issue.sound
      ensures r == Denied(ReplayDenied) <==>
              old(Fresh(likely, key)) && issue.Issued? && issue.sound && issue.lease in old(store.world.leases)
      ensures r.Tracked? <==> old(Passes(likely, key, issue)) && Admits(how)
      ensures r == Threw <==> old(Fresh(likely, key)) && (issue.IssueThrew? || (old(Passes(likely, key, issue)) && !Admits(how)))
      ensures r.Tracked? ==> r.id == id
      ensures if old(Passes(likely, key, issue))
              then AdmittedAs(old(store.world), store.world, id, issue.lease, how)
                   && pending == if Remembers(how) then old(pending)[key.value := id] else old(pending)
              else store.world == old(store.world) && pending == old(pending)
      ensures forall other :: other != id ==> Untouched(old(store.world), store.world, other)
    {
      ghost var start := store.world;
      Same(start);
      if !likely {
        return Untracked;
      }
      if key.None? {
        return Denied(CorrelationRequired);
      }
      if key.value in pending {
        return Denied(RequestIdInUse);
      }
      match issue
      case IssueThrew => return Threw;
      case Issued(lease, sound) =>
        if !sound {
          return Denied(LeaseInvalid);
        }
        if lease in store.world.leases {
          return Denied(ReplayDenied);
        }
        r := LetGo(key.value, lease, id, how);
    }

    /** The durable half of `beforeForward`: consume, journal, remember, anchor, let go. */
    method LetGo(key: Key, lease: Lease, id: EffectId, how: Admit) returns (r: Admission)
      requires Valid() && id !in store.world.leases.Values && id !in store.world.jobs
      requires key !in pending && lease !in store.world.leases
      modifies this, store
      ensures Valid() && old(store.trail) <= store.trail
      ensures r == if Admits(how) then Tracked(id) else Threw
      ensures AdmittedAs(old(store.world), store.world, id, lease, how)
      ensures pending == if Remembers(how) then old(pending)[key := id] else old(pending)
      ensures forall other :: other != id ==> Untouched(old(store.world), store.world, other)
    {
      hide Apply, Enabled, Untouched, Reachable, EffectSteps.Pending, AdmittedAs;
      ghost var start := store.world;
      ghost var worlds := AdmissionPlan(start, id, lease, pending, how);
      if !how.consumes {
        return Threw;
      }
      store.Do(Consume(id, lease));
      if how.journal.Undone? {
        store.Do(Abort(id));
        return Threw;
      }
      store.Do(Journal(id));
      if how.journal.DoneButThrew? {
        store.Do(Abort(id));
        return Threw;
      }
      pending := pending[key := id];
      r := Send(id, how.anchor, worlds.anchored, worlds.sent);
    }

    /** The last two operations: anchor the lease in the log and let the request go. */
    method Send(id: EffectId, anchor: Outcome, ghost anchored: World, ghost sent: World) returns (r: Admission)
      requires Valid() && Enabled(store.world, Anchor(id)) && anchored == Apply(store.world, Anchor(id))
      requires Enabled(anchored, Dispatch(id)) && sent == Apply(anchored, Dispatch(id))
      requires forall key :: key in pending ==> EffectSteps.Pending(anchored, pending[key])
      requires forall key :: key in pending ==> EffectSteps.Pending(sent, pending[key])
      modifies store
      ensures Valid() && old(store.trail) <= store.trail
      ensures r == if anchor.Done? then Tracked(id) else Threw
      ensures store.world == match anchor
                             case Undone => old(store.world)
                             case DoneButThrew => anchored
                             case Done => sent
    {
      hide Apply, Enabled, Reachable, EffectSteps.Pending;
      if anchor.Undone? {
        return Threw;
      }
      store.Do(Anchor(id));
      if anchor.DoneButThrew? {
        return Threw;
      }
      store.Do(Dispatch(id));
      return Tracked(id);
    }

    /** `#finalize`; `None` when it threw. Nothing is sent again, whatever the verdict. */
    method Finalize(key: Key, how: Settling) returns (r: Option<Verdict>)
      requires Valid() && key in pending
      modifies this, store
      ensures Valid() && old(store.trail) <= store.trail
      ensures pending == old(pending) - {key}
      ensures r == if Settles(how) then Some(how.verdict) else None
      ensures SettledAs(old(store.world), store.world, old(pending)[key], how)
      ensures store.world.dispatched == old(store.world.dispatched)
      ensures forall other :: other != old(pending)[key] ==> Untouched(old(store.world), store.world, other)
    {
      hide Untouched, Reachable, EffectSteps.Pending, SettledAs;
      ghost var start := store.world;
      var id := pending[key];
      pending := pending - {key};
      r := Settle(id, how);
      StillPending(start, store.world, pending, id);
    }

    /** The durable half of `#finalize`. */
    method Settle(id: EffectId, how: Settling) returns (r: Option<Verdict>)
      requires store.CrashSafe() && EffectSteps.Pending(store.world, id)
      modifies store
      ensures store.CrashSafe() && old(store.trail) <= store.trail
      ensures r == if Settles(how) then Some(how.verdict) else None
      ensures SettledAs(old(store.world), store.world, id, how)
      ensures store.world.dispatched == old(store.world.dispatched)
      ensures forall other :: other != id ==> Untouched(old(store.world), store.world, other)
    {
      hide Untouched, Reachable, Filed;
      ghost var start := store.world;
      if !how.receipt {
        Elsewhere(start, Abort(id));
        store.Do(Abort(id));
        return None;
      }
      Elsewhere(start, Observe(id));
      store.Do(Observe(id));
      ghost var observed := store.world;
      if !how.judged {
        Elsewhere(observed, Abort(id));
        store.Do(Abort(id));
        UntouchedTwice(start, observed, store.world, id);
        return None;
      }
      Elsewhere(observed, Conclude(id, how.verdict));
      store.Do(Conclude(id, how.verdict));
      UntouchedTwice(start, observed, store.world, id);
      ghost var judged := store.world;
      var ok := store.PersistEffectState(id, how.writing);
      UntouchedTwice(start, judged, store.world, id);
      WroteAfter(start, judged, store.world, id, how.verdict, how.writing);
      return if ok then Some(how.verdict) else None;
    }

    /** `observeJson`: the outcomes among the messages finalise their requests; stops when one throws. */
    method ObserveJson(responses: seq<Response>, hows: EffectId -> Settling) returns (ok: bool)
      requires Valid()
      modifies this, store
      ensures Valid() && old(store.trail) <= store.trail
      ensures store.world.dispatched == old(store.world.dispatched)
      ensures ok <==> forall key :: key in old(pending) && key in Answered(responses) ==> Settles(hows(old(pending)[key]))
      ensures ok ==> pending == old(pending) - Answered(responses)
      ensures pending.Items <= old(pending).Items && pending.Keys + Answered(responses) >= old(pending).Keys
      ensures SettledOnly(old(store.world), store.world, old(pending), pending, hows)
    {
      hide Untouched, Reachable, EffectSteps.Pending, SettledAs, Settles;
      ghost var start, all := store.world, pending;
      NothingSettled(start, all, hows);
      var i := 0;
      while i < |responses|
        invariant 0 <= i <= |responses|
        invariant Valid() && old(store.trail) <= store.trail
        invariant store.world.dispatched == start.dispatched
        invariant pending == all - Answered(responses[..i])
        invariant forall key :: key in all && key in Answered(responses[..i]) ==> Settles(hows(all[key]))
        invariant SettledOnly(start, store.world, all, pending, hows)
      {
        var m := responses[i];
        AnsweredMore(responses, i);
        i := i + 1;
        if m.key.None? || !m.hasOutcome || m.key.value !in pending {
          continue;
        }
        ghost var before, left := store.world, pending;
        var r := Finalize(m.key.value, hows(pending[m.key.value]));
        OneSettled(start, before, store.world, all, left, m.key.value, hows);
        if r.None? {
          AnsweredPart(responses, i);
          return false;
        }
      }
      assert responses[..i] == responses;
      return true;
    }

    /** `finalizeUnresolved`: every pending request is finalised without a response; stops when one throws. */
    method FinalizeUnresolved(hows: EffectId -> Settling) returns (ok: bool)
      requires Valid()
      modifies this, store
      ensures Valid() && old(store.trail) <= store.trail
      ensures store.world.dispatched == old(store.world.dispatched)
      ensures ok <==> forall key :: key in old(pending) ==> Settles(hows(old(pending)[key]))
      ensures ok ==> pending == map[]
      ensures pending.Items <= old(pending).Items
      ensures SettledOnly(old(store.world), store.world, old(pending), pending, hows)
    {
      hide Untouched, Reachable, EffectSteps.Pending, SettledAs, Settles;
      ghost var start, all := store.world, pending;
      NothingSettled(start, all, hows);
      while pending.Keys != {}
        invariant Valid() && old(store.trail) <= store.trail
        invariant store.world.dispatched == start.dispatched
        invariant pending.Items <= all.Items
        invariant forall key :: key in all && key !in pending ==> Settles(hows(all[key]))
        invariant SettledOnly(start, store.world, all, pending, hows)
        decreases |pending|
      {
        var key :| key in pending;
        assert (key, pending[key]) in pending.Items;
        assert |pending - {key}| < |pending| by { assert (pending - {key}).Keys == pending.Keys - {key}; }
        ghost var before, left := store.world, pending;
        var r := Finalize(key, hows(pending[key]));
        OneSettled(start, before, store.world, all, left, key, hows);
        if r.None? {
          return false;
        }
      }
      return true;
    }
  }

  /** Of the requests pending at the start, the finalised ones are filed as they went, and nothing else changed. */
  ghost predicate SettledOnly(
      start: World, w: World, all: map<Key, EffectId>, left: map<Key, EffectId>, hows: EffectId -> Settling)
  {
    && (forall key :: key in all && key !in left ==> SettledAs(start, w, all[key], hows(all[key])))
    && (forall id :: (forall key :: key in all && key !in left ==> all[key] != id) ==> Untouched(start, w, id))
    && (forall k, l :: k in all && l in all && all[k] == all[l] ==> k == l)
  }

  /** The requests answered by `responses`. */
  function Answered(responses: seq<Response>): set<Key>
  {
    set m | m in responses && m.key.Some? && m.hasOutcome :: m.key.value
  }

  lemma {:induction false} AnsweredMore(responses: seq<Response>, i: nat)
    requires i < |responses|
    ensures Answered(responses[..i + 1])
            == Answered(responses[..i])
               + if responses[i].key.Some? && responses[i].hasOutcome then {responses[i].key.value} else {}
  {
    assert responses[..i + 1] == responses[..i] + [responses[i]];
  }

  lemma {:induction false} AnsweredPart(responses: seq<Response>, i: nat)
    requires i <= |responses|
    ensures Answered(responses[..i]) <= Answered(responses)
  {
  }

  lemma {:induction false} NothingSettled(w: World, all: map<Key, EffectId>, hows: EffectId -> Settling)
    requires forall k, l :: k in all && l in all && all[k] == all[l] ==> k == l
    ensures SettledOnly(w, w, all, all, hows)
  {
    Same(w);
  }

  lemma {:induction false} SettledStays(start: World, u: World, w: World, id: EffectId, how: Settling)
    requires SettledAs(start, u, id, how) && Untouched(u, w, id)
    ensures SettledAs(start, w, id, how)
  {
    hide InBucket;
  }

  lemma {:induction false} SettledNow(start: World, u: World, w: World, id: EffectId, how: Settling)
    requires Untouched(start, u, id) && SettledAs(u, w, id, how)
    ensures SettledAs(start, w, id, how)
  {
    hide InBucket;
    SameInBucket(start, u, id, how.verdict);
  }

  /** One more request finalised. */
  lemma {:induction false} OneSettled(start: World, u: World, w: World, all: map<Key, EffectId>, left: map<Key, EffectId>,
                                      key: Key, hows: EffectId -> Settling)
    requires SettledOnly(start, u, all, left, hows) && left.Items <= all.Items && key in left
    requires SettledAs(u, w, left[key], hows(left[key])) && forall other :: other != left[key] ==> Untouched(u, w, other)
    ensures key in all && left[key] == all[key] && SettledOnly(start, w, all, left - {key}, hows)
  {
    hide Untouched, SettledAs;
    assert (key, left[key]) in left.Items;
    var id := all[key];
    forall k | k in all && k !in left - {key} ensures SettledAs(start, w, all[k], hows(all[k])) {
      if k == key {
        SettledNow(start, u, w, id, hows(id));
      } else {
        SettledStays(start, u, w, all[k], hows(all[k]));
      }
    }
    forall other | forall k :: k in all && k !in left - {key} ==> all[k] != other ensures Untouched(start, w, other) {
      assert other != id;
      UntouchedTransitive(start, u, w, other);
    }
  }

  predicate Admits(how: Admit) { how.consumes && how.journal.Done? && how.anchor.Done? }

  /** The request is kept as pending: its journal write returned. */
  predicate Remembers(how: Admit) { how.consumes && how.journal.Done? }

  /** What a request that passes leaves behind, as far as its durable operations went. */
  predicate AdmittedAs(u: World, w: World, id: EffectId, lease: Lease, how: Admit)
  {
    && w.leases == (if how.consumes then u.leases[lease := id] else u.leases)
    && w.inflight == (if how.consumes && !how.journal.Undone? then u.inflight[id := lease] else u.inflight)
    && w.pending == u.pending && w.resolved == u.resolved
    && w.log == u.log + (if Remembers(how) && !how.anchor.Undone? then [LeaseConsumed(id, lease)] else [])
    && w.dispatched == u.dispatched + (if Admits(how) then {id} else {})
  }

  lemma {:induction false} AdmissionFiles(w: World, id: EffectId, lease: Lease, a: Admitting, how: Admit)
    requires Enabled(w, Consume(id, lease)) && a.leased == Apply(w, Consume(id, lease))
    requires Enabled(a.leased, Abort(id)) && a.dropped == Apply(a.leased, Abort(id))
    requires Enabled(a.leased, Journal(id)) && a.journaled == Apply(a.leased, Journal(id))
    requires Enabled(a.journaled, Abort(id)) && a.left == Apply(a.journaled, Abort(id))
    requires Enabled(a.journaled, Anchor(id)) && a.anchored == Apply(a.journaled, Anchor(id))
    requires Enabled(a.anchored, Dispatch(id)) && a.sent == Apply(a.anchored, Dispatch(id))
    ensures AdmittedAs(w, AdmissionEnd(w, a, how), id, lease, how)
  {
    assert w.log + [] == w.log && w.dispatched + {} == w.dispatched;
  }

  lemma {:induction false} AdmissionPlan(w: World, id: EffectId, lease: Lease, pending: map<Key, EffectId>, how: Admit)
    returns (a: Admitting)
    requires lease !in w.leases && id !in w.leases.Values && id !in w.jobs
    requires forall key :: key in pending ==> EffectSteps.Pending(w, pending[key])
    ensures forall key :: key in pending ==> pending[key] != id && EffectSteps.Pending(a.dropped, pending[key])
    ensures forall key :: key in pending ==>
              EffectSteps.Pending(a.journaled, pending[key]) && EffectSteps.Pending(a.left, pending[key])
    ensures forall key :: key in pending ==>
              EffectSteps.Pending(a.anchored, pending[key]) && EffectSteps.Pending(a.sent, pending[key])
    ensures Enabled(w, Consume(id, lease)) && a.leased == Apply(w, Consume(id, lease))
    ensures Enabled(a.leased, Abort(id)) && a.dropped == Apply(a.leased, Abort(id))
    ensures Enabled(a.leased, Journal(id)) && a.journaled == Apply(a.leased, Journal(id))
    ensures Enabled(a.journaled, Abort(id)) && a.left == Apply(a.journaled, Abort(id))
    ensures Enabled(a.journaled, Anchor(id)) && a.anchored == Apply(a.journaled, Anchor(id))
    ensures Enabled(a.anchored, Dispatch(id)) && a.sent == Apply(a.anchored, Dispatch(id))
    ensures EffectSteps.Pending(a.journaled, id) && EffectSteps.Pending(a.anchored, id) && EffectSteps.Pending(a.sent, id)
    ensures AdmittedAs(w, AdmissionEnd(w, a, how), id, lease, how)
    ensures forall other :: other != id ==> Untouched(w, AdmissionEnd(w, a, how), other)
  {
    hide Apply, Enabled, Untouched, EffectSteps.Pending, AdmittedAs;
    a := AdmissionWorlds(w, id, lease, pending);
    AdmissionFiles(w, id, lease, a, how);
    Same(w);
  }

  /** The world in which a request that passes ends up. */
  function AdmissionEnd(w: World, a: Admitting, how: Admit): World
  {
    if !how.consumes then w
    else if how.journal.Undone? then a.dropped
    else if how.journal.DoneButThrew? then a.left
    else if how.anchor.Undone? then a.journaled
    else if how.anchor.DoneButThrew? then a.anchored
    else a.sent
  }

  /** The worlds of `beforeForward` up to each point where it may stop. */
  datatype Admitting = Admitting(leased: World, dropped: World, journaled: World, left: World, anchored: World, sent: World)

  lemma {:induction false} AdmissionWorlds(w: World, id: EffectId, lease: Lease, pending: map<Key, EffectId>)
    returns (a: Admitting)
    requires lease !in w.leases && id !in w.leases.Values && id !in w.jobs
    requires forall key :: key in pending ==> EffectSteps.Pending(w, pending[key])
    ensures forall key :: key in pending ==> pending[key] != id
    ensures forall key :: key in pending ==> EffectSteps.Pending(a.dropped, pending[key])
    ensures forall key :: key in pending ==> EffectSteps.Pending(a.journaled, pending[key])
    ensures forall key :: key in pending ==> EffectSteps.Pending(a.left, pending[key])
    ensures forall key :: key in pending ==> EffectSteps.Pending(a.anchored, pending[key])
    ensures forall key :: key in pending ==> EffectSteps.Pending(a.sent, pending[key])
    ensures Enabled(w, Consume(id, lease)) && a.leased == Apply(w, Consume(id, lease))
    ensures Enabled(a.leased, Abort(id)) && a.dropped == Apply(a.leased, Abort(id))
    ensures Enabled(a.leased, Journal(id)) && a.journaled == Apply(a.leased, Journal(id))
    ensures Enabled(a.journaled, Abort(id)) && a.left == Apply(a.journaled, Abort(id))
    ensures Enabled(a.journaled, Anchor(id)) && a.anchored == Apply(a.journaled, Anchor(id))
    ensures Enabled(a.anchored, Dispatch(id)) && a.sent == Apply(a.anchored, Dispatch(id))
    ensures a.dropped.dispatched == a.journaled.dispatched == a.left.dispatched == a.anchored.dispatched == w.dispatched
    ensures a.sent.dispatched == w.dispatched + {id}
    ensures EffectSteps.Pending(a.journaled, id) && EffectSteps.Pending(a.anchored, id) && EffectSteps.Pending(a.sent, id)
    ensures forall other :: other != id ==>
              && Untouched(w, a.dropped, other) && Untouched(w, a.journaled, other) && Untouched(w, a.left, other)
              && Untouched(w, a.anchored, other) && Untouched(w, a.sent, other)
  {
    var leased := Apply(w, Consume(id, lease));
    var journaled := Apply(leased, Journal(id));
    var anchored := Apply(journaled, Anchor(id));
    a := Admitting(leased, Apply(leased, Abort(id)), journaled, Apply(journaled, Abort(id)), anchored,
                   Apply(anchored, Dispatch(id)));
    AdmissionElsewhere(w, id, lease, a);
    StillPending(w, a.dropped, pending, id);
    StillPending(w, journaled, pending, id);
    StillPending(w, a.left, pending, id);
    StillPending(w, anchored, pending, id);
    StillPending(w, a.sent, pending, id);
  }

  lemma {:induction false} AdmissionElsewhere(w: World, id: EffectId, lease: Lease, a: Admitting)
    requires Enabled(w, Consume(id, lease)) && a.leased == Apply(w, Consume(id, lease))
    requires Enabled(a.leased, Abort(id)) && a.dropped == Apply(a.leased, Abort(id))
    requires Enabled(a.leased, Journal(id)) && a.journaled == Apply(a.leased, Journal(id))
    requires Enabled(a.journaled, Abort(id)) && a.left == Apply(a.journaled, Abort(id))
    requires Enabled(a.journaled, Anchor(id)) && a.anchored == Apply(a.journaled, Anchor(id))
    requires Enabled(a.anchored, Dispatch(id)) && a.sent == Apply(a.anchored, Dispatch(id))
    ensures forall other :: other != id ==>
              && Untouched(w, a.dropped, other) && Untouched(w, a.journaled, other) && Untouched(w, a.left, other)
              && Untouched(w, a.anchored, other) && Untouched(w, a.sent, other)
  {
    hide Apply, Enabled, Untouched;
    Elsewhere(w, Consume(id, lease));
    Elsewhere(a.leased, Abort(id));
    Elsewhere(a.leased, Journal(id));
    Elsewhere(a.journaled, Abort(id));
    Elsewhere(a.journaled, Anchor(id));
    Elsewhere(a.anchored, Dispatch(id));
    UntouchedTwice(w, a.leased, a.dropped, id);
    UntouchedTwice(w, a.leased, a.journaled, id);
    UntouchedTwice(w, a.journaled, a.left, id);
    UntouchedTwice(w, a.journaled, a.anchored, id);
    UntouchedTwice(w, a.anchored, a.sent, id);
  }

  /** The pending requests of other effects stay pending. */
  lemma {:induction false} StillPending(u: World, w: World, pending: map<Key, EffectId>, id: EffectId)
    requires forall key :: key in pending ==> EffectSteps.Pending(u, pending[key])
    requires forall other :: other != id ==> Untouched(u, w, other)
    ensures forall key :: key in pending && pending[key] != id ==> EffectSteps.Pending(w, pending[key])
  {
    forall key | key in pending && pending[key] != id
      ensures EffectSteps.Pending(w, pending[key])
    {
      assert Untouched(u, w, pending[key]);
    }
  }
}
