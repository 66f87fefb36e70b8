/**
 The capability kernel (`kernel.rs`) as an interleaved step system: threads
 that run audited effects under shared access and threads that change the
 capability state under exclusive access, then notify observers.
 */
module Kernel {
  import opened Bytes
  import opened Capability
  import Journal
  import J = JournalLog
  import S = State
  import A = Audit

  type Tid = nat
  type Observer = nat

  datatype Call = Call(caller: SubjectId, capability: CapId, requests: RequestSet)

  /** `EffectExecution`: what the executor says happened. */
  datatype Execution = ExecCommitted(token: Option<Str>) | ExecFailed | ExecUnknown(evidence: Str)

  /**
   What the caller of an effect is told: success, a refusal, an executor
   failure, an unknown commit that is on record, or that the audit record
   could not be written, with what the executor had said.
   */
  datatype Reply =
    | Done
    | NotAuthorized
    | EffectFailed
    | ToldUnknown(evidence: Str)
    | AuditFailed
    | CommittedUnsaved(token: Str)
    | UnknownUnsaved(evidence: Str)

  /** How far a thread is in its current call; a thread between calls has none. */
  datatype Pc =
    // authorize_all_and_commit_inner
    | WantRead(call: Call)
    | Reading(call: Call)
    | Recorded(call: Call, i: nat)
    | Authorized(call: Call, i: nat)
    | Executing(call: Call, i: nat, landed: bool)
    | Finishing(call: Call, i: nat, outcome: Journal.Outcome, receipt: Option<Journal.Receipt>, evidence: Option<Journal.Evidence>)
    | Storing(call: Call, i: nat, outcome: Journal.Outcome, reply: Reply)
    | Leaving(call: Call, attempt: Option<nat>, reply: Reply)
    // with_state_mut, then propagate_revocation
    | WantWrite(op: S.Op)
    | Writing(op: S.Op)
    | Unlocking(at: nat)
    | Propagating(at: nat)
    | Notifying(at: nat, list: seq<Observer>, done: nat, failed: Option<Observer>)

  /** What an outside observer of the run sees. `at` names a transition by its place in the history. */
  datatype Event =
    | Invoked(call: Call, i: nat, state: S.State, trail: A.Trail)
    | Landed(call: Call, i: nat, state: S.State)
    | Replied(call: Call, attempt: Option<nat>, reply: Reply, trail: A.Trail)
    | Applied(op: S.Op, before: S.State, state: S.State, outcome: S.Outcome, observers: seq<Observer>)
    | Notified(at: nat, observer: Observer, locked: bool, ok: bool)
    | Returned(at: nat, failed: Option<Observer>)

  datatype Kernel = Kernel(
    state: S.State,
    trail: A.Trail,
    observers: seq<Observer>,
    writer: Option<Tid>,
    readers: set<Tid>,
    threads: map<Tid, Pc>,
    history: seq<Event>)

  datatype Move =
    | CallEffect(call: Call)
    | CallTransition(op: S.Op)
    | Register(observer: Observer)
    | Acquire
    | Record(io: J.Io)
    | Check
    | Invoke
    | Land
    | Classify(exec: Execution)
    | Persist(io: J.Io)
    | Publish
    | Release
    | Transition
    | Snapshot
    | Notify(ok: bool)
    | Return

  predicate AuthorizesAll(s: S.State, call: Call) {
    forall j :: 0 <= j < |Requests(call.requests)| ==> S.Authorizes(s, call.caller, call.capability, Requests(call.requests)[j])
  }

  /** The executor's documented obligation: it classifies by its own linearization point. */
  predicate Truthful(exec: Execution, landed: bool) {
    match exec
    case ExecCommitted(_) => landed
    case ExecFailed => !landed
    case ExecUnknown(_) => true
  }

  /** `b"kernel-executor-returned-success"`. */
  function KernelSuccess(): (token: Str)
    ensures |token| == 32
  {
    var text := "kernel-executor-returned-success";
    seq(|text|, i requires 0 <= i < |text| => text[i] as int % 256)
  }

  /** The token of a commit receipt: the executor's own, or the kernel's. */
  function ReceiptToken(token: Option<Str>): Str {
    if token.Some? then token.value else KernelSuccess()
  }

  predicate RetainableEvidence(evidence: Str) {
    0 < |evidence| <= Journal.MAX_COMMIT_UNKNOWN_EVIDENCE_BYTES
  }

  /** Where an effect thread goes once the executor has answered. */
  function AfterExecution(call: Call, i: nat, id: u64, exec: Execution): Pc {
    match exec
    case ExecCommitted(token) =>
      Finishing(call, i, Journal.Committed, Some(Journal.Receipt(id, ReceiptToken(token))), None)
    case ExecFailed => Finishing(call, i, Journal.FailedBeforeCommit, None, None)
    case ExecUnknown(evidence) =>
      if RetainableEvidence(evidence) then Finishing(call, i, Journal.CommitUnknown, None, Some(Journal.Evidence(id, evidence)))
      else Leaving(call, Some(i), UnknownUnsaved(evidence))
  }

  /** The answer once the terminal outcome is on record. */
  function Saved(outcome: Journal.Outcome, evidence: Option<Journal.Evidence>): Reply {
    match outcome
    case Denied => NotAuthorized
    case FailedBeforeCommit => EffectFailed
    case Committed => Done
    case _ => if evidence.Some? then ToldUnknown(evidence.value.token) else AuditFailed
  }

  /** The answer when it could not be recorded. */
  function Unsaved(outcome: Journal.Outcome, receipt: Option<Journal.Receipt>, evidence: Option<Journal.Evidence>): Reply {
    if outcome.Committed? && receipt.Some? then CommittedUnsaved(receipt.value.token)
    else if outcome.CommitUnknown? && evidence.Some? then UnknownUnsaved(evidence.value.token)
    else AuditFailed
  }

  predicate Revoking(outcome: S.Outcome) {
    outcome.NewlyRevoked? || outcome.CloseStarted?
  }

  predicate HoldsShared(pc: Pc) {
    pc.Reading? || pc.Recorded? || pc.Authorized? || pc.Executing? || pc.Finishing? || pc.Storing? || pc.Leaving?
  }

  predicate HoldsExclusive(pc: Pc) {
    pc.Writing? || pc.Unlocking?
  }

  predicate HasAttempt(pc: Pc) {
    pc.Recorded? || pc.Authorized? || pc.Executing? || pc.Finishing? || pc.Storing?
  }

  function At(k: Kernel, t: Tid, pc: Pc): Kernel {
    k.(threads := k.threads[t := pc])
  }

  function Log(k: Kernel, e: Event): Kernel {
    k.(history := k.history + [e])
  }

  /** Thread `t` between calls begins one; an incomplete request set is refused at once, unrecorded. */
  function Begin(k: Kernel, t: Tid, m: Move): Kernel {
    match m
    case CallEffect(call) =>
      if call.requests.complete then At(k, t, WantRead(call)) else Log(k, Replied(call, None, NotAuthorized, k.trail))
    case CallTransition(op) => At(k, t, WantWrite(op))
    case Register(o) => k.(observers := k.observers + [o])
    case _ => k
  }

  /** The steps of `authorize_all_and_commit_inner`. */
  function EffectStep(k: Kernel, t: Tid, pc: Pc, m: Move): Kernel {
    match pc
    case WantRead(call) =>
      if m.Acquire? && k.writer.None? then At(k, t, Reading(call)).(readers := k.readers + {t}) else k
    case Reading(call) =>
      if !m.Record? then k
      else
        var (trail, r) := A.StartSet(k.trail, call.caller, call.capability, call.requests, k.state.epoch, m.io);
        At(k, t, if r.Ok? then Recorded(call, |k.trail.entries|) else Leaving(call, None, AuditFailed)).(trail := trail)
    case Recorded(call, i) =>
      if !m.Check? then k
      else if AuthorizesAll(k.state, call) && call.capability in k.state.caps then At(k, t, Authorized(call, i))
      else At(k, t, Finishing(call, i, Journal.Denied, None, None))
    case Authorized(call, i) =>
      if m.Invoke? then Log(At(k, t, Executing(call, i, false)), Invoked(call, i, k.state, k.trail)) else k
    case Executing(call, i, landed) =>
      if m.Land? && !landed then Log(At(k, t, Executing(call, i, true)), Landed(call, i, k.state))
      else if m.Classify? && Truthful(m.exec, landed) && i < |k.trail.entries| then
        At(k, t, AfterExecution(call, i, k.trail.entries[i].id, m.exec))
      else k
    case Finishing(call, i, outcome, receipt, evidence) =>
      if !m.Persist? || i >= |k.trail.entries| then k
      else
        var (trail, error) := A.FinishDurably(k.trail, i, outcome, receipt, evidence, m.io);
        At(k, t, if error.None? then Storing(call, i, outcome, Saved(outcome, evidence))
                 else Leaving(call, Some(i), Unsaved(outcome, receipt, evidence))).(trail := trail)
    case Storing(call, i, outcome, reply) =>
      if m.Publish? && i < |k.trail.entries| then At(k, t, Leaving(call, Some(i), reply)).(trail := A.Store(k.trail, i, outcome)) else k
    case Leaving(call, attempt, reply) =>
      if m.Release? then Log(k.(readers := k.readers - {t}, threads := k.threads - {t}), Replied(call, attempt, reply, k.trail)) else k
    case _ => k
  }

  /** The steps of `with_state_mut` and `propagate_revocation`. */
  function TransitionStep(k: Kernel, t: Tid, pc: Pc, m: Move): Kernel {
    match pc
    case WantWrite(op) =>
      if m.Acquire? && k.writer.None? && k.readers == {} then At(k, t, Writing(op)).(writer := Some(t)) else k
    case Writing(op) =>
      if !m.Transition? then k
      else
        var (state, outcome) := S.Apply(k.state, op);
        Log(At(k, t, Unlocking(|k.history|)), Applied(op, k.state, state, outcome, k.observers)).(state := state)
    case Unlocking(at) =>
      if !m.Release? || at >= |k.history| || !k.history[at].Applied? then k
      else if Revoking(k.history[at].outcome) then At(k, t, Propagating(at)).(writer := None)
      else Log(k.(writer := None, threads := k.threads - {t}), Returned(at, None))
    case Propagating(at) =>
      if m.Snapshot? then At(k, t, Notifying(at, k.observers, 0, None)) else k
    case Notifying(at, list, done, failed) =>
      if m.Notify? && done < |list| then
        Log(At(k, t, Notifying(at, list, done + 1, if failed.None? && !m.ok then Some(list[done]) else failed)),
            Notified(at, list[done], k.writer == Some(t) || t in k.readers, m.ok))
      else if m.Return? && done == |list| then
        Log(k.(threads := k.threads - {t}), Returned(at, failed))
      else k
    case _ => k
  }

  /** One step of thread `t`; a move that is not enabled changes nothing. */
  function Step(k: Kernel, t: Tid, m: Move): Kernel {
    if t !in k.threads then Begin(k, t, m)
    else if k.threads[t].WantWrite? || HoldsExclusive(k.threads[t]) || k.threads[t].Propagating? || k.threads[t].Notifying? then
      TransitionStep(k, t, k.threads[t], m)
    else EffectStep(k, t, k.threads[t], m)
  }

  function Run(k: Kernel, steps: seq<(Tid, Move)>): Kernel
    decreases |steps|
  {
    if steps == [] then k else Run(Step(k, steps[0].0, steps[0].1), steps[1..])
  }

  /** A kernel over a given state and trail, with no call in progress. */
  function Start(state: S.State, trail: A.Trail): Kernel {
    Kernel(state, trail, [], None, {}, map[], [])
  }

  // ----- propagate_revocation ----------------------------------------------

  /** The first observer of a round that fails; a round pairs each observer run with whether it succeeded. */
  function FirstFailure(round: seq<(Observer, bool)>): Option<Observer> {
    if round == [] then None
    else
      var earlier, last := FirstFailure(round[..|round| - 1]), round[|round| - 1];
      if earlier.Some? then earlier else if last.1 then None else Some(last.0)
  }

  /** `o` failed at place `x`, and nothing before it did. */
  predicate FailedFirst(round: seq<(Observer, bool)>, x: nat, o: Observer) {
    x < |round| && round[x] == (o, false) && forall y :: 0 <= y < x ==> round[y].1
  }

  /** No failure is reported exactly when every observer succeeded; otherwise the earliest failing one is. */
  lemma {:induction false} FirstFailureExact(round: seq<(Observer, bool)>)
    ensures FirstFailure(round).None? <==> forall x :: 0 <= x < |round| ==> round[x].1
    ensures FirstFailure(round).Some? ==> exists x: nat :: FailedFirst(round, x, FirstFailure(round).value)
    decreases |round|
  {
    if round != [] {
      var n := |round| - 1;
      var front := round[..n];
      FirstFailureExact(front);
      forall x | 0 <= x < n ensures front[x] == round[x] {
      }
      if FirstFailure(front).Some? {
        var x: nat :| FailedFirst(front, x, FirstFailure(front).value);
        assert FailedFirst(round, x, FirstFailure(front).value);
      } else if !round[n].1 {
        assert FailedFirst(round, n, round[n].0);
      }
    }
  }

  /** `propagate_revocation`: every observer runs even after one fails; the first failure is what the caller sees. */
  method PropagateRevocation(observers: seq<Observer>, succeeds: nat -> bool) returns (first: Option<Observer>, round: seq<(Observer, bool)>)
    ensures |round| == |observers| && forall x :: 0 <= x < |observers| ==> round[x] == (observers[x], succeeds(x))
    ensures first.None? <==> forall x :: 0 <= x < |observers| ==> succeeds(x)
    ensures first.Some? ==> exists x: nat :: FailedFirst(round, x, first.value)
  {
    first, round := None, [];
    for n := 0 to |observers|
      invariant |round| == n && forall x :: 0 <= x < n ==> round[x] == (observers[x], succeeds(x))
      invariant first == FirstFailure(round)
    {
      ghost var before := round;
      var ok := succeeds(n);
      round := round + [(observers[n], ok)];
      assert round[..n] == before;
      if !ok && first.None? {
        first := Some(observers[n]);
      }
    }
    FirstFailureExact(round);
  }
}
