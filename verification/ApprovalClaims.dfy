/** `decidePendingApproval`: any number of processes decide one queued approval. */
module ApprovalClaims {
  import opened Wrappers

  // They work through atomic renames of its file, with errors and crashes at any step. The record
  // is never re-queued from outside and each process has its own process identifier.

  type Pid = nat
  type Decision = string

  /** How far a process has come; `Gone` has returned, thrown or crashed. */
  datatype Phase =
    | Looking(decision: Decision)
    | Claimed(decision: Decision)
    | Checked(decision: Decision)
    | Built(decision: Decision)
    | Restoring
    | Logged(decision: Decision)
    | Suggested(decision: Decision)
    | Wrote(decision: Decision)
    | Gone

  /** The record's files, the evidence log of its decisions, and the processes. */
  datatype Queue = Queue(pending: bool, claims: set<Pid>, decided: Option<Decision>, log: seq<Decision>,
                         processes: map<Pid, Phase>)

  function Queued(): Queue { Queue(true, {}, None, [], map[]) }

  datatype Move =
    | Look(pid: Pid, decision: Decision)
    | Claim(pid: Pid)
    | Check(pid: Pid, fine: bool)
    | Build(pid: Pid, fine: bool)
    | Restore(pid: Pid)
    | Append(pid: Pid, appended: bool, returned: bool)
    | Suggest(pid: Pid, fine: bool)
    | Write(pid: Pid, written: bool, returned: bool)
    | Unlink(pid: Pid, worked: bool)
    | Crash(pid: Pid)

  predicate Enabled(q: Queue, m: Move)
  {
    match m
    case Look(p, _) => p !in q.processes
    case Claim(p) => p in q.processes && q.processes[p].Looking?
    case Check(p, _) => p in q.processes && q.processes[p].Claimed?
    case Build(p, _) => p in q.processes && q.processes[p].Checked?
    case Restore(p) => p in q.processes && q.processes[p].Restoring?
    case Append(p, appended, returned) => p in q.processes && q.processes[p].Built? && (returned ==> appended)
    case Suggest(p, _) => p in q.processes && q.processes[p].Logged?
    case Write(p, written, returned) => p in q.processes && q.processes[p].Suggested? && (returned ==> written)
    case Unlink(p, _) => p in q.processes && q.processes[p].Wrote?
    case Crash(p) => p in q.processes
  }

  function At(q: Queue, p: Pid, phase: Phase): Queue { q.(processes := q.processes[p := phase]) }

  function Apply(q: Queue, m: Move): Queue
    requires Enabled(q, m)
  {
    match m
    case Look(p, d) => At(q, p, if q.pending then Looking(d) else Gone)
    case Claim(p) =>
      if q.pending then At(q.(pending := false, claims := q.claims + {p}), p, Claimed(q.processes[p].decision))
      else At(q, p, Gone)
    case Check(p, fine) => At(q, p, if fine then Checked(q.processes[p].decision) else Restoring)
    case Build(p, fine) => At(q, p, if fine then Built(q.processes[p].decision) else Restoring)
    case Restore(p) =>
      if p in q.claims && !q.pending then At(q.(pending := true, claims := q.claims - {p}), p, Gone) else At(q, p, Gone)
    case Append(p, appended, returned) =>
      var d := q.processes[p].decision;
      At(if appended then q.(log := q.log + [d]) else q, p, if returned then Logged(d) else Gone)
    case Suggest(p, fine) => At(q, p, if fine then Suggested(q.processes[p].decision) else Gone)
    case Write(p, written, returned) =>
      var d := q.processes[p].decision;
      At(if written then q.(decided := Some(d)) else q, p, if returned then Wrote(d) else Gone)
    case Unlink(p, worked) => At(if worked then q.(claims := q.claims - {p}) else q, p, Gone)
    case Crash(p) => At(q, p, Gone)
  }

  function Run(q: Queue, moves: seq<Move>): Option<Queue>
    decreases |moves|
  {
    if moves == [] then Some(q)
    else if !Enabled(q, moves[0]) then None
    else Run(Apply(q, moves[0]), moves[1..])
  }

  ghost predicate Reachable(q: Queue) { exists moves :: Run(Queued(), moves) == Some(q) }

  // ---- what every step keeps -----------------------------------------------------------------

  /** What a process knows from its phase. */
  predicate Knows(q: Queue, p: Pid, phase: Phase)
  {
    match phase
    case Looking(_) => p !in q.claims
    case Gone => true
    case Logged(d) => p in q.claims && q.log == [d] && q.decided.None?
    case Suggested(d) => p in q.claims && q.log == [d] && q.decided.None?
    case Wrote(d) => p in q.claims && q.log == [d] && q.decided == Some(d)
    case _ => p in q.claims && q.log == [] && q.decided.None?
  }

  ghost predicate OneClaim(q: Queue) { forall p, r :: p in q.claims && r in q.claims ==> p == r }

  ghost predicate Inv(q: Queue)
  {
    && OneClaim(q)
    && (q.pending ==> q.claims == {} && q.log == [] && q.decided.None?)
    && (!q.pending && q.claims == {} ==> q.decided.Some?)
    && |q.log| <= 1
    && (q.decided.Some? ==> q.log == [q.decided.value])
    && (forall p :: p in q.claims ==> p in q.processes)
    && (forall p :: p in q.processes ==> Knows(q, p, q.processes[p]))
  }

  /** The claim of one process shows the others that they have none. */
  lemma {:induction false} StepKeepsFiles(q: Queue, m: Move)
    requires Inv(q) && Enabled(q, m)
    ensures var r := Apply(q, m);
            && OneClaim(r)
            && (r.pending ==> r.claims == {} && r.log == [] && r.decided.None?)
            && (!r.pending && r.claims == {} ==> r.decided.Some?)
            && |r.log| <= 1
            && (r.decided.Some? ==> r.log == [r.decided.value])
            && (forall p :: p in r.claims ==> p in r.processes)
  {
    assert m.pid in q.processes ==> Knows(q, m.pid, q.processes[m.pid]);
  }

  lemma {:induction false} StepKeepsOwn(q: Queue, m: Move)
    requires Inv(q) && Enabled(q, m)
    ensures m.pid in Apply(q, m).processes && Knows(Apply(q, m), m.pid, Apply(q, m).processes[m.pid])
  {
    assert m.pid in q.processes ==> Knows(q, m.pid, q.processes[m.pid]);
  }

  lemma {:induction false} StepKeepsOther(q: Queue, m: Move, p: Pid)
    requires Inv(q) && Enabled(q, m) && p in q.processes && p != m.pid
    ensures p in Apply(q, m).processes && Apply(q, m).processes[p] == q.processes[p]
    ensures Knows(Apply(q, m), p, q.processes[p])
  {
    assert Knows(q, p, q.processes[p]);
    assert m.pid in q.processes ==> Knows(q, m.pid, q.processes[m.pid]);
  }

  lemma {:induction false} StepKeeps(q: Queue, m: Move)
    requires Inv(q) && Enabled(q, m)
    ensures Inv(Apply(q, m))
  {
    hide Knows, OneClaim;
    StepKeepsFiles(q, m);
    StepKeepsOwn(q, m);
    forall p | p in Apply(q, m).processes
      ensures Knows(Apply(q, m), p, Apply(q, m).processes[p])
    {
      if p != m.pid {
        OldProcess(q, m, p);
        StepKeepsOther(q, m, p);
      }
    }
  }

  lemma {:induction false} OldProcess(q: Queue, m: Move, p: Pid)
    requires Enabled(q, m) && p in Apply(q, m).processes && p != m.pid
    ensures p in q.processes
  {
  }

  lemma {:induction false} RunKeeps(q: Queue, moves: seq<Move>)
    requires Inv(q) && Run(q, moves).Some?
    ensures Inv(Run(q, moves).value)
    decreases |moves|
  {
    hide Inv, Apply, Enabled;
    if moves != [] {
      StepKeeps(q, moves[0]);
      RunKeeps(Apply(q, moves[0]), moves[1..]);
    }
  }

  lemma {:induction false} ReachableKept(q: Queue)
    requires Reachable(q)
    ensures Inv(q)
  {
    hide Inv;
    var moves :| Run(Queued(), moves) == Some(q);
    StartKept();
    RunKeeps(Queued(), moves);
  }

  lemma {:induction false} StartKept()
    ensures Inv(Queued())
  {
  }

  // ---- exactly once ----------------------------------------------------------------------------

  /**
   * Whatever the interleaving, the errors and the crashes: the record is in exactly one of the
   * queue and one claim, or it has been decided; at most one decision was logged, and a decided
   * record agrees with it. Once a decision is logged the record is never queued again.
   */
  lemma {:induction false} DecidedOnce(q: Queue)
    requires Reachable(q)
    ensures (if q.pending then 1 else 0) + |q.claims| == 1 || (q.decided.Some? && !q.pending && q.claims == {})
    ensures |q.log| <= 1
    ensures q.decided.Some? ==> q.log == [q.decided.value]
    ensures q.log != [] ==> !q.pending
  {
    ReachableKept(q);
    if q.claims != {} {
      var p :| p in q.claims;
      assert q.claims == {p};
    }
  }

  /** A process that fails while reading, checking the policy or building puts the record back. */
  lemma {:induction false} FailureRequeues(q: Queue, p: Pid)
    requires Reachable(q) && p in q.processes && q.processes[p].Restoring?
    ensures Apply(q, Restore(p)).pending && Apply(q, Restore(p)).claims == {} && Apply(q, Restore(p)).log == []
  {
    ReachableKept(q);
    assert Knows(q, p, q.processes[p]);
  }

  /** The log is append-only, and what was decided stays decided. */
  lemma {:induction false} DecisionStays(q: Queue, m: Move)
    requires Reachable(q) && Enabled(q, m) && q.decided.Some?
    ensures Apply(q, m).decided == q.decided && Apply(q, m).log == q.log && !Apply(q, m).pending
  {
    ReachableKept(q);
    assert m.pid in q.processes ==> Knows(q, m.pid, q.processes[m.pid]);
  }

  // ---- what a crash can strand -----------------------------------------------------------------

  /** Claimed, undecided, and nobody left who could decide. */
  ghost predicate Stranded(q: Queue)
  {
    !q.pending && q.decided.None? && forall p :: p in q.processes ==> q.processes[p].Gone? || q.processes[p].Looking?
  }

  /** A crash between the claim and the decision leaves a record that no later process can decide. */
  lemma {:induction false} StrandedForever(q: Queue, moves: seq<Move>)
    requires Stranded(q) && Run(q, moves).Some?
    ensures Stranded(Run(q, moves).value)
    decreases |moves|
  {
    if moves != [] {
      StrandedStep(q, moves[0]);
      StrandedForever(Apply(q, moves[0]), moves[1..]);
    }
  }

  lemma {:induction false} StrandedStep(q: Queue, m: Move)
    requires Stranded(q) && Enabled(q, m)
    ensures Stranded(Apply(q, m))
  {
    assert m.pid in q.processes ==> q.processes[m.pid].Gone? || q.processes[m.pid].Looking?;
  }

  lemma {:induction false} CrashStrands(p: Pid, d: Decision)
    ensures var r := Run(Queued(), [Look(p, d), Claim(p), Crash(p)]); r.Some? && Stranded(r.value)
  {
    var q1 := Apply(Queued(), Look(p, d));
    var q2 := Apply(q1, Claim(p));
    assert Run(q2, [Crash(p)]) == Some(Apply(q2, Crash(p))) by { assert [Crash(p)][1..] == []; }
    assert [Look(p, d), Claim(p), Crash(p)][1..] == [Claim(p), Crash(p)];
    assert [Claim(p), Crash(p)][1..] == [Crash(p)];
  }

  // ---- what can still be decided ---------------------------------------------------------------

  /** Some continuation, by the processes there are or by new ones, ends with a decided record. */
  ghost predicate CanEnd(q: Queue) { exists moves :: Run(q, moves).Some? && Run(q, moves).value.decided.Some? }

  lemma {:induction false} CanEndNow(q: Queue)
    requires q.decided.Some?
    ensures CanEnd(q)
  {
    assert Run(q, []) == Some(q);
  }

  lemma {:induction false} CanEndAfter(q: Queue, m: Move)
    requires Enabled(q, m) && CanEnd(Apply(q, m))
    ensures CanEnd(q)
  {
    hide Apply, Enabled;
    var moves :| Run(Apply(q, m), moves).Some? && Run(Apply(q, m), moves).value.decided.Some?;
    assert ([m] + moves)[0] == m && ([m] + moves)[1..] == moves;
    assert Run(q, [m] + moves) == Run(Apply(q, m), moves);
  }

  /** A process with the claim that meets no error decides the record. */
  lemma {:induction false} ClaimantCanEnd(q: Queue, p: Pid, steps: nat)
    requires p in q.processes
    requires match q.processes[p]
             case Claimed(_) => steps == 5
             case Checked(_) => steps == 4
             case Built(_) => steps == 3
             case Logged(_) => steps == 2
             case Suggested(_) => steps == 1
             case _ => false
    ensures CanEnd(q)
    decreases steps
  {
    hide CanEnd;
    var m := match q.processes[p]
             case Claimed(_) => Check(p, true)
             case Checked(_) => Build(p, true)
             case Built(_) => Append(p, true, true)
             case Logged(_) => Suggest(p, true)
             case _ => Write(p, true, true);
    if steps == 1 {
      CanEndNow(Apply(q, m));
    } else {
      ClaimantCanEnd(Apply(q, m), p, steps - 1);
    }
    CanEndAfter(q, m);
  }

  lemma {:induction false} FreshPid(taken: set<Pid>) returns (p: Pid)
    ensures forall r :: r in taken ==> r < p
    decreases |taken|
  {
    p := 0;
    if taken != {} {
      var r :| r in taken;
      var above := FreshPid(taken - {r});
      p := if r < above then above else r + 1;
      forall x | x in taken ensures x < p {
        assert x == r || x in taken - {r};
      }
    }
  }

  /** A new process can claim and decide a queued record. */
  lemma {:induction false} QueuedCanEnd(q: Queue)
    requires q.pending
    ensures CanEnd(q)
  {
    hide CanEnd;
    var p := FreshPid(q.processes.Keys);
    var looking := Apply(q, Look(p, ""));
    ClaimantCanEnd(Apply(looking, Claim(p)), p, 5);
    CanEndAfter(looking, Claim(p));
    CanEndAfter(q, Look(p, ""));
  }

  /** A record that was never decided and is not stranded is queued or has a live claimant. */
  lemma {:induction false} LiveCanEnd(q: Queue, p: Pid)
    requires Reachable(q) && p in q.processes && !q.processes[p].Gone? && !q.processes[p].Looking?
    ensures CanEnd(q)
  {
    match q.processes[p]
    case Restoring =>
      FailureRequeues(q, p);
      QueuedCanEnd(Apply(q, Restore(p)));
      CanEndAfter(q, Restore(p));
    case Wrote(_) =>
      HoldsClaim(q, p);
      CanEndNow(q);
    case Claimed(_) => ClaimantCanEnd(q, p, 5);
    case Checked(_) => ClaimantCanEnd(q, p, 4);
    case Built(_) => ClaimantCanEnd(q, p, 3);
    case Logged(_) => ClaimantCanEnd(q, p, 2);
    case Suggested(_) => ClaimantCanEnd(q, p, 1);
  }

  /** Exactly the stranded records can no longer be decided. */
  lemma {:induction false} CanEndIff(q: Queue)
    requires Reachable(q)
    ensures CanEnd(q) <==> !Stranded(q)
  {
    if Stranded(q) {
      if CanEnd(q) {
        var moves :| Run(q, moves).Some? && Run(q, moves).value.decided.Some?;
        StrandedForever(q, moves);
        assert false;
      }
    } else if q.pending {
      QueuedCanEnd(q);
    } else if q.decided.Some? {
      CanEndNow(q);
    } else {
      var p :| p in q.processes && !q.processes[p].Gone? && !q.processes[p].Looking?;
      LiveCanEnd(q, p);
    }
  }

  lemma {:induction false} ReachableStep(q: Queue, m: Move)
    requires Reachable(q) && Enabled(q, m)
    ensures Reachable(Apply(q, m))
  {
    hide Apply, Enabled;
    var moves :| Run(Queued(), moves) == Some(q);
    RunAppend(Queued(), moves, m);
  }

  lemma {:induction false} RunAppend(q: Queue, moves: seq<Move>, m: Move)
    requires Run(q, moves).Some? && Enabled(Run(q, moves).value, m)
    ensures Run(q, moves + [m]) == Some(Apply(Run(q, moves).value, m))
    decreases |moves|
  {
    hide Apply, Enabled;
    if moves == [] {
      assert ([] + [m])[0] == m && ([] + [m])[1..] == [];
    } else {
      assert (moves + [m])[1..] == moves[1..] + [m];
      RunAppend(Apply(q, moves[0]), moves[1..], m);
    }
  }

  // ---- the source's procedure ------------------------------------------------------------------

  /** The approvals directory, shared with other processes. */
  class ApprovalStore {
    var queue: Queue

    constructor ()
      ensures queue == Queued() && Reachable(queue)
    {
      queue := Queued();
      assert Run(Queued(), []) == Some(Queued());
    }

    method Do(m: Move)
      requires Reachable(queue) && Enabled(queue, m)
      modifies this
      ensures Reachable(queue) && queue == Apply(old(queue), m)
    {
      hide Apply, Enabled, Reachable;
      ReachableStep(queue, m);
      queue := Apply(queue, m);
    }

    /** Operations of any other processes, crashes included: each is made if it can be. */
    method Others(p: Pid, moves: seq<Move>)
      requires Reachable(queue)
      modifies this
      ensures Reachable(queue) && queue == Interfered(old(queue), p, moves)
      ensures p in old(queue.processes) ==> p in queue.processes && queue.processes[p] == old(queue.processes[p])
      ensures p !in old(queue.processes) ==> p !in queue.processes
    {
      hide Apply, Enabled, Reachable;
      assert moves[0..] == moves;
      for i := 0 to |moves|
        invariant Reachable(queue)
        invariant Interfered(old(queue), p, moves) == Interfered(queue, p, moves[i..])
        invariant p in old(queue.processes) ==> p in queue.processes && queue.processes[p] == old(queue.processes[p])
        invariant p !in old(queue.processes) ==> p !in queue.processes
      {
        var m := moves[i];
        assert moves[i..][1..] == moves[i + 1..];
        if Enabled(queue, m) && m.pid != p {
          OthersKeep(queue, m, p);
          Do(m);
        }
      }
    }
  }

  /** The queue after operations of processes other than `p`, of those that can be made in turn. */
  function Interfered(q: Queue, p: Pid, moves: seq<Move>): Queue
    decreases |moves|
  {
    if moves == [] then q
    else if Enabled(q, moves[0]) && moves[0].pid != p then Interfered(Apply(q, moves[0]), p, moves[1..])
    else Interfered(q, p, moves[1..])
  }

  lemma {:induction false} OthersKeep(q: Queue, m: Move, p: Pid)
    requires Enabled(q, m) && m.pid != p
    ensures p in q.processes <==> p in Apply(q, m).processes
    ensures p in q.processes ==> Apply(q, m).processes[p] == q.processes[p]
  {
  }

  /** How a call ended, from its caller's side. */
  datatype Outcome = Decided | Invalid | NotFound | Taken | Requeued | ClaimLeft

  const DECISIONS: seq<Decision> :=
    ["allow_once", "deny_once", "allow_session", "always_ask", "always_allow", "always_block"]

  /** How an operation goes; a failure may come after it took effect. */
  datatype Going = Undone | DoneButThrew | Done

  /** How the operations of a call go: policy check, result, evidence event, side files, decided record, removal of the claim. */
  datatype Course = Course(current: bool, valid: bool, append: Going, suggested: bool, write: Going, unlinked: bool)

  /** The record could be read under a current policy, and its result built. */
  predicate Prepared(c: Course) { c.current && c.valid }

  predicate Recorded(c: Course) { c.append.Done? && c.suggested && c.write.Done? && c.unlinked }

  /** What the other processes do before the look, the claim, the checks, the end of the checks, and later. */
  datatype Interference = Interference(look: seq<Move>, claim: seq<Move>, check: seq<Move>, build: seq<Move>,
                                       suggest: seq<Move>, write: seq<Move>, unlink: seq<Move>)

  /** The record is queued when process `p` looks for it. */
  predicate ThereAtLook(q: Queue, p: Pid, others: Interference) { Interfered(q, p, others.look).pending }

  /** It is still queued when `p` claims it. */
  predicate ThereAtClaim(q: Queue, p: Pid, decision: Decision, others: Interference)
    requires p !in Interfered(q, p, others.look).processes
  {
    Interfered(Apply(Interfered(q, p, others.look), Look(p, decision)), p, others.claim).pending
  }

  lemma {:induction false} HasNoClaim(q: Queue, p: Pid)
    requires Reachable(q) && (p in q.processes ==> q.processes[p].Looking?)
    ensures p !in q.claims
  {
    ReachableKept(q);
    assert p in q.processes ==> Knows(q, p, q.processes[p]);
  }

  /** What a process that holds the claim knows. */
  lemma {:induction false} HoldsClaim(q: Queue, p: Pid)
    requires Reachable(q) && p in q.processes
    ensures q.processes[p].Restoring? ==> p in q.claims && !q.pending && q.log == []
    ensures q.processes[p].Wrote? ==> q.log == [q.processes[p].decision] && q.decided == Some(q.processes[p].decision)
  {
    ReachableKept(q);
    assert Knows(q, p, q.processes[p]);
  }

  /** Others leave a process and its claim alone. */
  lemma {:induction false} StaysAbsent(q: Queue, p: Pid, moves: seq<Move>)
    requires p !in q.processes
    ensures p !in Interfered(q, p, moves).processes
    decreases |moves|
  {
    hide Apply, Enabled;
    if moves != [] {
      if Enabled(q, moves[0]) && moves[0].pid != p {
        OthersKeep(q, moves[0], p);
        StaysAbsent(Apply(q, moves[0]), p, moves[1..]);
      } else {
        StaysAbsent(q, p, moves[1..]);
      }
    }
  }

  /** The part under the claim. */
  method DecideClaimed(store: ApprovalStore, p: Pid, decision: Decision, course: Course, others: Interference)
    returns (r: Outcome)
    requires Reachable(store.queue) && p in store.queue.processes && store.queue.processes[p] == Claimed(decision)
    modifies store
    ensures Reachable(store.queue) && p in store.queue.processes && store.queue.processes[p] == Gone
    ensures r == if !Prepared(course) then Requeued else if Recorded(course) then Decided else ClaimLeft
    ensures r.Decided? ==> store.queue.log == [decision] && store.queue.decided == Some(decision)
    ensures r.Requeued? ==> store.queue.pending && store.queue.log == []
    ensures r.ClaimLeft? ==> LeftAs(store.queue, p, decision, course)
  {
    hide Reachable, Inv, LeftAs;
    store.Others(p, others.check);
    store.Do(Check(p, course.current));
    if course.current {
      store.Do(Build(p, course.valid));
    }
    store.Others(p, others.build);
    if store.queue.processes[p].Restoring? {
      HoldsClaim(store.queue, p);
      store.Do(Restore(p));
      return Requeued;
    }
    r := Record(store, p, decision, course, others);
  }

  /** A claim left behind: what was logged and decided before the error, and that the claim stands unless it decided. */
  predicate LeftAs(q: Queue, p: Pid, decision: Decision, course: Course)
  {
    && p in q.claims && !q.pending
    && q.log == (if course.append.Undone? then [] else [decision])
    && q.decided == (if course.append.Done? && course.suggested && !course.write.Undone? then Some(decision) else None)
  }

  /** What a process that holds the claim knows of log and decision; a failing step leaves the claim. */
  lemma {:induction false} ClaimLeftAs(q: Queue, p: Pid, decision: Decision, course: Course, m: Move)
    requires Reachable(q) && p in q.processes && Enabled(q, m) && m.pid == p
    requires match m
             case Append(_, appended, returned) =>
               q.processes[p] == Built(decision) && !returned && !course.append.Done? && appended == course.append.DoneButThrew?
             case Suggest(_, fine) => q.processes[p] == Logged(decision) && !fine && course.append.Done? && !course.suggested
             case Write(_, written, returned) =>
               && q.processes[p] == Suggested(decision) && !returned && course.append.Done? && course.suggested
               && !course.write.Done? && written == course.write.DoneButThrew?
             case Unlink(_, worked) =>
               q.processes[p] == Wrote(decision) && !worked && course.append.Done? && course.suggested && course.write.Done?
             case _ => false
    ensures LeftAs(Apply(q, m), p, decision, course)
  {
    ReachableKept(q);
    assert Knows(q, p, q.processes[p]);
  }

  /** Logging the decision, the optional side files, the decided record and the claim's removal. */
  method Record(store: ApprovalStore, p: Pid, decision: Decision, course: Course, others: Interference)
    returns (r: Outcome)
    requires Reachable(store.queue) && p in store.queue.processes && store.queue.processes[p] == Built(decision)
    modifies store
    ensures Reachable(store.queue) && p in store.queue.processes && store.queue.processes[p] == Gone
    ensures r == if Recorded(course) then Decided else ClaimLeft
    ensures r.Decided? ==> store.queue.log == [decision] && store.queue.decided == Some(decision)
    ensures r.ClaimLeft? ==> LeftAs(store.queue, p, decision, course)
  {
    hide Reachable, Inv, LeftAs;
    ghost var before := store.queue;
    store.Do(Append(p, !course.append.Undone?, course.append.Done?));
    if !course.append.Done? {
      ClaimLeftAs(before, p, decision, course, Append(p, !course.append.Undone?, course.append.Done?));
      return ClaimLeft;
    }
    store.Others(p, others.suggest);
    before := store.queue;
    store.Do(Suggest(p, course.suggested));
    if !course.suggested {
      ClaimLeftAs(before, p, decision, course, Suggest(p, course.suggested));
      return ClaimLeft;
    }
    r := Finish(store, p, decision, course, others);
  }

  /** The decided record and the claim's removal. */
  method Finish(store: ApprovalStore, p: Pid, decision: Decision, course: Course, others: Interference)
    returns (r: Outcome)
    requires Reachable(store.queue) && p in store.queue.processes && store.queue.processes[p] == Suggested(decision)
    requires course.append.Done? && course.suggested
    modifies store
    ensures Reachable(store.queue) && p in store.queue.processes && store.queue.processes[p] == Gone
    ensures r == if Recorded(course) then Decided else ClaimLeft
    ensures r.Decided? ==> store.queue.log == [decision] && store.queue.decided == Some(decision)
    ensures r.ClaimLeft? ==> LeftAs(store.queue, p, decision, course)
  {
    hide Reachable, Inv, LeftAs;
    store.Others(p, others.write);
    ghost var before := store.queue;
    store.Do(Write(p, !course.write.Undone?, course.write.Done?));
    if !course.write.Done? {
      ClaimLeftAs(before, p, decision, course, Write(p, !course.write.Undone?, course.write.Done?));
      return ClaimLeft;
    }
    store.Others(p, others.unlink);
    HoldsClaim(store.queue, p);
    before := store.queue;
    store.Do(Unlink(p, course.unlinked));
    if !course.unlinked {
      ClaimLeftAs(before, p, decision, course, Unlink(p, course.unlinked));
      return ClaimLeft;
    }
    return Decided;
  }

  /**
   * `decidePendingApproval` by process `p`, other processes interfering between any two operations
   * and any operation failing: how it ends follows from whether the record is there at the look and
   * at the claim and from which operations go well; and what is then queued, logged and decided.
   */
  method DecidePendingApproval(store: ApprovalStore, p: Pid, decision: Decision, course: Course, others: Interference)
    returns (r: Outcome)
    requires Reachable(store.queue) && p !in store.queue.processes
    modifies store
    ensures Reachable(store.queue)
    ensures p !in Interfered(old(store.queue), p, others.look).processes
    ensures r == Invalid <==> decision !in ["allow_once", "deny_once", "allow_session", "always_ask", "always_allow", "always_block"]
    ensures r == Invalid ==> store.queue == old(store.queue)
    ensures r != Invalid ==>
              r == if !ThereAtLook(old(store.queue), p, others) then NotFound
                   else if !ThereAtClaim(old(store.queue), p, decision, others) then Taken
                   else if !Prepared(course) then Requeued
                   else if Recorded(course) then Decided
                   else ClaimLeft
    ensures r != Invalid ==> p in store.queue.processes && store.queue.processes[p] == Gone
    ensures r.Decided? ==> store.queue.log == [decision] && store.queue.decided == Some(decision)
    ensures r.Requeued? ==> store.queue.pending && store.queue.log == []
    ensures r.ClaimLeft? ==> LeftAs(store.queue, p, decision, course)
    ensures r.NotFound? || r.Taken? ==> p !in store.queue.claims
  {
    hide Reachable, Inv, LeftAs, Interfered;
    StaysAbsent(store.queue, p, others.look);
    if decision !in DECISIONS {
      return Invalid;
    }
    store.Others(p, others.look);
    HasNoClaim(store.queue, p);
    store.Do(Look(p, decision));
    if store.queue.processes[p].Gone? {
      return NotFound;
    }
    store.Others(p, others.claim);
    HasNoClaim(store.queue, p);
    store.Do(Claim(p));
    if store.queue.processes[p].Gone? {
      return Taken;
    }
    r := DecideClaimed(store, p, decision, course, others);
  }
}
