/** `DurableAuditLog` as the source keeps it: fields changed in place behind one lock. */
module JournalObject {
  import opened Bytes
  import AttemptCodec
  import PayloadBuffers
  import opened Journal
  import JournalLog

  class DurableLog {
    var disk: Str
    var next: Option<u64>
    var attempts: Attempts
    var unusable: bool
    var length: nat
    var capacity: nat

    function Value(): JournalLog.Log
      reads this
    {
      JournalLog.Log(disk, next, attempts, unusable, length, capacity)
    }

    constructor (disk: Str, next: Option<u64>, attempts: Attempts, capacity: nat)
      ensures Value() == JournalLog.Log(disk, next, attempts, false, |disk|, capacity)
    {
      this.disk, this.next, this.attempts, this.capacity := disk, next, attempts, capacity;
      this.unusable, this.length := false, |disk|;
    }

    /** `open_with_capacity`, given the bytes of a file that passed validation. */
    static method Open(bytes: Str, capacity: nat) returns (r: Result<DurableLog, JournalError>)
      ensures JournalLog.Open(bytes, capacity).Err? ==> r == Err(JournalLog.Open(bytes, capacity).error)
      ensures JournalLog.Open(bytes, capacity).Ok? ==> r.Ok? && fresh(r.value) && r.value.Value() == JournalLog.Open(bytes, capacity).value
      ensures r.Ok? ==> JournalLog.Valid(r.value.Value())
    {
      hide Parse, JournalLog.Valid;
      if capacity > MAX_JOURNAL_BYTES {
        return Err(InvalidCapacity(capacity));
      }
      var parsed := ParseJournal(bytes, capacity);
      if parsed.Err? {
        return Err(parsed.error);
      }
      var log := new DurableLog(bytes, parsed.value.0, parsed.value.1, capacity);
      JournalLog.OpenValid(bytes, capacity);
      r := Ok(log);
    }

    /** `append_frame`. */
    method AppendFrame(f: Frame, io: JournalLog.Io) returns (error: Option<JournalError>)
      modifies this
      ensures (Value(), error) == JournalLog.Append(old(Value()), f, io)
    {
      hide FrameHead, LittleEndian;
      if io.TargetInvalid? {
        unusable := true;
        return Some(TargetChanged);
      }
      if |f.payload| > MAX_RECORD_PAYLOAD {
        return Some(RecordTooLarge(|f.payload|));
      }
      var frame := FrameHead(f);
      frame := frame + f.payload;
      var sum := ComputeChecksum(frame);
      frame := frame + LittleEndian(sum, 8);
      var newLength := length + |frame|;
      if newLength > capacity {
        return Some(CapacityExceeded(length, newLength, capacity));
      }
      if io.Torn? {
        disk := disk + JournalLog.CutTo(frame, io.kept);
        unusable := true;
        return Some(WriteFailed);
      }
      disk := disk + frame;
      length := newLength;
      error := None;
    }

    method BeginAttempt(id: AttemptId, m: AttemptCodec.Metadata, io: JournalLog.Io) returns (error: Option<JournalError>)
      modifies this
      ensures (Value(), error) == JournalLog.Apply(old(Value()), JournalLog.Begin(id, m), io)
    {
      hide AttemptCodec.EncodeAttempt, JournalLog.Append;
      var payload := PayloadBuffers.EncodeAttemptPayload(m);
      if payload.Err? {
        return Some(if payload.error.IncompleteRequestSet? then InvalidRecord else AttemptTooLarge);
      }
      if unusable {
        return Some(JournalUnavailable);
      }
      if id in attempts {
        return Some(ReplayDetected(id));
      }
      if next.None? {
        return Some(SequenceExhausted);
      }
      var sequence := next.value;
      error := AppendFrame(Frame(START_KIND, sequence, id, payload.value), io);
      if error.Some? {
        return;
      }
      AppendFrames(old(Value()), Frame(START_KIND, sequence, id, payload.value), io);
      attempts := attempts[id := Begun(id, sequence, payload.value)];
      next := CheckedNext(sequence);
    }

    method FinishAttempt(id: AttemptId, outcome: Outcome, receipt: Option<Receipt>, evidence: Option<Evidence>, io: JournalLog.Io)
      returns (error: Option<JournalError>)
      modifies this
      ensures (Value(), error) == JournalLog.Apply(old(Value()), JournalLog.Finish(id, outcome, receipt, evidence), io)
    {
      hide EncodeFinish, JournalLog.Append;
      var payload := EncodeFinish(id, outcome, receipt, evidence);
      if payload.Err? {
        return Some(payload.error);
      }
      if unusable {
        return Some(JournalUnavailable);
      }
      if id !in attempts || attempts[id].outcome != Started {
        return Some(ReplayDetected(id));
      }
      if next.None? {
        return Some(SequenceExhausted);
      }
      var sequence := next.value;
      error := AppendFrame(Frame(FINISH_KIND, sequence, id, payload.value), io);
      AppendFrames(old(Value()), Frame(FINISH_KIND, sequence, id, payload.value), io);
      if error.Some? {
        return;
      }
      attempts := attempts[id := attempts[id].(outcome := outcome, finishSequence := Some(sequence),
                                               receipt := receipt, evidence := evidence)];
      next := CheckedNext(sequence);
    }

    method ReconcileAttempt(id: AttemptId, verdict: Verdict, io: JournalLog.Io) returns (error: Option<JournalError>)
      modifies this
      ensures (Value(), error) == JournalLog.Apply(old(Value()), JournalLog.Reconcile(id, verdict), io)
    {
      hide EncodeReconcile, JournalLog.Append;
      if verdict.CommittedAs? && verdict.receipt.attempt != id {
        return Some(InvalidRecord);
      }
      var payload := EncodeReconcile(verdict);
      if payload.Err? {
        return Some(payload.error);
      }
      if unusable {
        return Some(JournalUnavailable);
      }
      if id !in attempts {
        return Some(ReplayDetected(id));
      }
      if attempts[id].outcome != CommitUnknown {
        return Some(InvalidRecord);
      }
      if attempts[id].reconciliation.Some? {
        return Some(ReplayDetected(id));
      }
      if next.None? {
        return Some(SequenceExhausted);
      }
      var sequence := next.value;
      error := AppendFrame(Frame(RECONCILE_KIND, sequence, id, payload.value), io);
      AppendFrames(old(Value()), Frame(RECONCILE_KIND, sequence, id, payload.value), io);
      if error.Some? {
        return;
      }
      attempts := attempts[id := attempts[id].(reconciliation := Some(verdict))];
      next := CheckedNext(sequence);
    }
  }

  /** An append leaves the attempt map and the next sequence to its caller. */
  lemma AppendFrames(l: JournalLog.Log, f: Frame, io: JournalLog.Io)
    ensures JournalLog.Append(l, f, io).0.attempts == l.attempts && JournalLog.Append(l, f, io).0.next == l.next
  {
    hide PutFrame;
  }
}
