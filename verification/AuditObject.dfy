/** The audit trail and its recovery as the source keeps them: records appended and finished in place. */
module AuditObject {
  import opened Bytes
  import opened Order
  import opened Capability
  import AttemptCodec
  import PayloadBuffers
  import opened Journal
  import J = JournalLog
  import opened JournalObject
  import Spec = Audit
  import opened Recovery
  import R = Reconciliation

  class AuditTrail {
    var next: Option<u64>
    var entries: seq<Spec.Entry>
    const instance: u64
    const backend: DurableLog?

    ghost function Frame(): set<object>
    {
      if backend == null then {this} else {this, backend}
    }

    function Value(): Spec.Trail
      reads Frame()
    {
      Spec.Trail(next, entries, instance, if backend == null then None else Some(backend.Value()))
    }

    constructor (next: Option<u64>, instance: u64, backend: DurableLog?)
      ensures this.backend == backend
      ensures Value() == Spec.Trail(next, [], instance, if backend == null then None else Some(backend.Value()))
    {
      this.next, this.entries, this.instance, this.backend := next, [], instance, backend;
    }

    /** `start_request_set`: taken, then given back if the durable start fails. */
    method StartRequestSet(caller: SubjectId, capability: CapId, requests: RequestSet, epoch: u64, io: J.Io)
      returns (r: Result<AttemptId, Spec.AuditError>)
      modifies Frame()
      ensures (Value(), r) == Spec.StartSet(old(Value()), caller, capability, requests, epoch, io)
    {
      hide J.Apply;
      if next.None? {
        return Err(Spec.AttemptIdExhausted);
      }
      var sequence := next.value;
      var m := AttemptCodec.Metadata(instance, caller, capability, epoch, requests);
      next := CheckedNext(sequence);
      if backend != null {
        var error := backend.BeginAttempt(sequence, m, io);
        if error.Some? {
          next := Some(sequence);
          return Err(Spec.Durable(error.value));
        }
      }
      entries := entries + [Spec.Entry(sequence, m, Started)];
      r := Ok(sequence);
    }

    /** `AttemptGuard::finish`: the journal first, then the in-memory outcome. */
    method Finish(i: nat, outcome: Outcome, receipt: Option<Receipt>, evidence: Option<Evidence>, io: J.Io)
      returns (error: Option<JournalError>)
      requires i < |entries|
      modifies Frame()
      ensures var (after, failure) := Spec.FinishDurably(old(Value()), i, outcome, receipt, evidence, io);
              && error == failure && |after.entries| == |old(entries)|
              && Value() == if error.None? then Spec.Store(after, i, outcome) else after
    {
      hide J.Apply;
      error := None;
      if backend != null {
        error := backend.FinishAttempt(entries[i].id, outcome, receipt, evidence, io);
      }
      if error.None? {
        entries := entries[i := entries[i].(outcome := outcome)];
      }
    }

    /** `effects`. */
    method Effects() returns (committed: seq<Spec.Entry>)
      ensures committed == Spec.Effects(entries)
    {
      committed := [];
      for n := 0 to |entries|
        invariant committed == Spec.Effects(entries[..n])
      {
        assert entries[..n + 1][..n] == entries[..n];
        if entries[n].outcome.Committed? {
          committed := committed + [entries[n]];
        }
      }
      assert entries[..|entries|] == entries;
    }

    /** `recover_with_backend`. */
    static method Recover(log: DurableLog, io: AttemptId -> J.Io) returns (r: Result<(AuditTrail, AuditRecovery), Spec.AuditError>)
      modifies log
      ensures var (after, expected) := Recovery.Recover(old(log.Value()), io);
              && log.Value() == after
              && (expected.Err? ==> r == Err(expected.error))
              && (expected.Ok? ==> r.Ok? && fresh(r.value.0) && r.value.0.backend == log
                                   && r.value.0.Value() == expected.value.0 && r.value.1 == expected.value.1)
    {
      hide J.Apply, Spec.NextAttempt, Sorted, RecoveredEvidence;
      if log.unusable {
        return Err(Spec.Durable(JournalUnavailable));
      }
      var inherited := log.attempts;
      var instance := Spec.NextAttempt(inherited);
      if instance.None? {
        return Err(Spec.AttemptIdExhausted);
      }
      var ids := Sorted(inherited.Keys);
      var closed := CloseAll(log, inherited, ids, io);
      if closed.Err? {
        return Err(Spec.Durable(closed.error));
      }
      var trail := new AuditTrail(Spec.NextAttempt(log.attempts), instance.value, log);
      r := Ok((trail, AuditRecovery(instance.value, |inherited|, closed.value)));
    }

    static method CloseAll(log: DurableLog, inherited: Attempts, ids: seq<AttemptId>, io: AttemptId -> J.Io)
      returns (r: Result<seq<AttemptId>, JournalError>)
      modifies log
      ensures (log.Value(), r) == CloseStarted(old(log.Value()), inherited, ids, io, [])
    {
      hide J.Apply, RecoveredEvidence;
      var done: seq<AttemptId> := [];
      assert ids[0..] == ids;
      for n := 0 to |ids|
        invariant CloseStarted(old(log.Value()), inherited, ids, io, []) == CloseStarted(log.Value(), inherited, ids[n..], io, done)
      {
        var id := ids[n];
        assert ids[n..][0] == id && ids[n..][1..] == ids[n + 1..];
        if id in inherited && inherited[id].outcome == Started {
          var error := log.FinishAttempt(id, CommitUnknown, None, Some(Evidence(id, RecoveredEvidence())), io(id));
          if error.Some? {
            return Err(error.value);
          }
          done := done + [id];
        }
      }
      r := Ok(done);
    }
  }

  /** `reconcile_unknown_commits`. */
  method ReconcileUnknownCommits(log: DurableLog, isIp: Str -> bool, ask: AttemptId -> R.Answer, io: AttemptId -> J.Io)
    returns (r: Result<R.Summary, R.ReconciliationError>)
    modifies log
    ensures (log.Value(), r) == R.Reconcile(old(log.Value()), isIp, ask, io)
  {
    hide J.Apply, Sorted, AttemptCodec.DecodeAttempt, R.Tally;
    if log.unusable {
      return Err(R.Journaled(JournalUnavailable));
    }
    var snapshot := log.attempts;
    var ids := Sorted(snapshot.Keys);
    var sum := R.Summary([], [], []);
    assert ids[0..] == ids;
    for n := 0 to |ids|
      invariant R.ResolveAll(old(log.Value()), snapshot, ids, isIp, ask, io, R.Summary([], [], []))
             == R.ResolveAll(log.Value(), snapshot, ids[n..], isIp, ask, io, sum)
    {
      var id := ids[n];
      assert ids[n..][0] == id && ids[n..][1..] == ids[n + 1..];
      if id in snapshot && R.Unresolved(snapshot[id]) {
        var metadata := PayloadBuffers.DecodeAttemptPayload(snapshot[id].payload, isIp);
        if metadata.None? {
          return Err(R.Journaled(InvalidRecord));
        }
        var answer := ask(id);
        if answer.Unreachable? {
          return Err(R.Provider(id));
        }
        if answer.Says? {
          var error := log.ReconcileAttempt(id, answer.verdict, io(id));
          if error.Some? {
            return Err(R.Journaled(error.value));
          }
        }
        sum := R.Tally(sum, id, answer);
      }
    }
    r := Ok(sum);
  }
}
