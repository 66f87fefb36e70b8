/** When a journal call is accepted, what each refusal leaves behind, and how long a seal lasts. */
module JournalDecisions {
  import opened Bytes
  import AttemptCodec
  import opened Journal
  import opened JournalCodec
  import opened JournalLog

  // ----- what a caller can check -------------------------------------------

  /** A terminal record carries a token exactly where its outcome calls for one, of the same attempt and 1 to 65536 bytes. */
  predicate TerminalForm(id: AttemptId, outcome: Outcome, receipt: Option<Receipt>, evidence: Option<Evidence>) {
    match outcome
    case Started => false
    case Committed => evidence.None? && receipt.Some? && receipt.value.attempt == id && 1 <= |receipt.value.token| <= 65_536
    case CommitUnknown => receipt.None? && evidence.Some? && evidence.value.attempt == id && 1 <= |evidence.value.token| <= 65_536
    case _ => receipt.None? && evidence.None?
  }

  /** The call itself is in order, whatever the journal holds. */
  predicate Writable(op: Op) {
    match op
    case Begin(_, m) => m.requests.complete && |AttemptCodec.PutAttempt(m)| <= 8_388_608
    case Finish(id, outcome, receipt, evidence) => TerminalForm(id, outcome, receipt, evidence)
    case Reconcile(id, NotCommitted) => true
    case Reconcile(id, CommittedAs(r)) => r.attempt == id && 14 + |r.token| <= 8_388_608
  }

  /** The attempt is where the call needs it: new, started, or unknown and not yet reconciled. */
  predicate Permitted(attempts: Attempts, op: Op) {
    match op
    case Begin(id, _) => id !in attempts
    case Finish(id, _, _, _) => id in attempts && attempts[id].outcome == Started
    case Reconcile(id, _) => id in attempts && attempts[id].outcome == CommitUnknown && attempts[id].reconciliation.None?
  }

  /** The bytes the call adds to the journal. */
  function Size(op: Op): nat {
    match op
    case Begin(_, m) => 40 + |AttemptCodec.PutAttempt(m)|
    case Finish(_, _, receipt, evidence) =>
      if receipt.Some? then 45 + |receipt.value.token| else if evidence.Some? then 45 + |evidence.value.token| else 41
    case Reconcile(_, NotCommitted) => 42
    case Reconcile(_, CommittedAs(r)) => 54 + |r.token|
  }

  // ----- sequence numbers never run out ------------------------------------

  /** Each sequence number used has cost its forty bytes. */
  predicate Paced(l: Log) {
    l.capacity <= 134_217_728 && l.next.Some? && 40 * l.next.value <= l.length <= l.capacity
  }

  lemma ValidPaced(l: Log)
    requires Valid(l)
    ensures Paced(l)
  {
    hide Parse, Reopens;
    SequenceInReach(l);
  }

  lemma ApplyPaced(l: Log, op: Op, io: Io)
    requires Paced(l)
    ensures Paced(Apply(l, op, io).0)
  {
    hide Payload, Kind, Refusal, Record;
  }

  // ----- the two checks ----------------------------------------------------

  lemma FinishForm(id: AttemptId, outcome: Outcome, receipt: Option<Receipt>, evidence: Option<Evidence>)
    ensures ValidateFinish(id, outcome, receipt, evidence).None? <==> TerminalForm(id, outcome, receipt, evidence)
  {
  }

  /** The payload is written exactly when the call is in order, and is as long as stated. */
  lemma PayloadExact(op: Op)
    ensures Payload(op).Ok? <==> Writable(op)
    ensures Payload(op).Ok? ==> 40 + |Payload(op).value| == Size(op) && |Payload(op).value| <= MAX_RECORD_PAYLOAD
  {
    hide AttemptCodec.PutAttempt, ValidateFinish, TerminalForm, LittleEndian;
    match op
    case Begin(_, _) =>
    case Finish(id, outcome, receipt, evidence) =>
      FinishForm(id, outcome, receipt, evidence);
      if TerminalForm(id, outcome, receipt, evidence) {
        FinishSize(id, outcome, receipt, evidence);
      }
    case Reconcile(_, _) =>
  }

  lemma FinishSize(id: AttemptId, outcome: Outcome, receipt: Option<Receipt>, evidence: Option<Evidence>)
    requires TerminalForm(id, outcome, receipt, evidence)
    ensures EncodeFinish(id, outcome, receipt, evidence).Ok?
    ensures 40 + |EncodeFinish(id, outcome, receipt, evidence).value| == Size(Finish(id, outcome, receipt, evidence))
    ensures |EncodeFinish(id, outcome, receipt, evidence).value| <= MAX_RECORD_PAYLOAD
  {
    hide LittleEndian;
  }

  lemma RefusalExact(attempts: Attempts, op: Op)
    ensures Refusal(attempts, op).None? <==> Permitted(attempts, op)
  {
  }

  /** Why a call that is not in order is refused. */
  predicate FormFault(op: Op, e: JournalError) {
    match op
    case Begin(_, m) => e == if !m.requests.complete then InvalidRecord else AttemptTooLarge
    case Finish(id, _, receipt, evidence) =>
      if receipt.Some? && receipt.value.attempt == id && |receipt.value.token| > 65_536 then e == RecordTooLarge(|receipt.value.token|)
      else if evidence.Some? && evidence.value.attempt == id && |evidence.value.token| > 65_536
              && (receipt.None? || (receipt.value.attempt == id && receipt.value.token != [])) then e == RecordTooLarge(|evidence.value.token|)
      else e == InvalidRecord
    case Reconcile(_, NotCommitted) => false
    case Reconcile(id, CommittedAs(r)) =>
      if r.attempt != id then e == InvalidRecord else e == RecordTooLarge(if |r.token| >= U32_COUNT then |r.token| else 14 + |r.token|)
  }

  lemma FormFaultExact(op: Op)
    ensures Payload(op).Err? ==> FormFault(op, Payload(op).error)
  {
    hide AttemptCodec.PutAttempt, LittleEndian;
  }

  /** Why a call that is in order is refused by the attempt map. */
  predicate PlaceFault(attempts: Attempts, op: Op, e: JournalError) {
    if op.Reconcile? && op.id in attempts && attempts[op.id].outcome != CommitUnknown then e == InvalidRecord
    else e == ReplayDetected(op.id)
  }

  // ----- every way a call can end ------------------------------------------

  /** The log after bytes reached the disk and memory did not follow. */
  predicate SealedOver(l: Log, after: Log, tail: Str) {
    after == l.(disk := l.disk + tail, unusable := true)
  }

  /** What one call answers and leaves behind, from what a caller can check beforehand and what the file system does. */
  predicate Ends(l: Log, op: Op, io: Io, after: Log, error: Option<JournalError>) {
    if !Writable(op) then after == l && error.Some? && FormFault(op, error.value)
    else if l.unusable then after == l && error == Some(JournalUnavailable)
    else if !Permitted(l.attempts, op) then after == l && error.Some? && PlaceFault(l.attempts, op, error.value)
    else if io.TargetInvalid? then after == l.(unusable := true) && error == Some(TargetChanged)
    else if l.length + Size(op) > l.capacity then after == l && error == Some(CapacityExceeded(l.length, l.length + Size(op), l.capacity))
    else if io.Torn? then
      && error == Some(WriteFailed) && l.disk <= after.disk && |after.disk| - |l.disk| == (if io.kept < Size(op) then io.kept else Size(op))
      && SealedOver(l, after, after.disk[|l.disk|..])
    else
      && error.None? && !after.unusable && after.capacity == l.capacity
      && after.length == l.length + Size(op) && |after.disk| == |l.disk| + Size(op) && l.disk <= after.disk
      && l.next.Some? && after.next == Some(l.next.value + 1)
  }

  /**
   Every call ends in one of seven ways, told by the call, the journal and
   the file system; a sequence number is never the obstacle.
   */
  lemma ApplyEnds(l: Log, op: Op, io: Io)
    requires Paced(l)
    ensures Ends(l, op, io, Apply(l, op, io).0, Apply(l, op, io).1)
  {
    hide Payload, Kind, Refusal, Record, Writable, Permitted, Size, FormFault, PlaceFault, PutFrame;
    PayloadExact(op);
    RefusalExact(l.attempts, op);
    FormFaultExact(op);
    PlaceFaultExact(l.attempts, op);
    if Writable(op) && !l.unusable && Permitted(l.attempts, op) && io.Torn? {
      var f := FrameOf(l, op);
      assert (l.disk + CutTo(PutFrame(f), io.kept))[|l.disk|..] == CutTo(PutFrame(f), io.kept);
    }
  }

  lemma PlaceFaultExact(attempts: Attempts, op: Op)
    ensures Refusal(attempts, op).Some? ==> PlaceFault(attempts, op, Refusal(attempts, op).value)
  {
  }

  /** A call succeeds if and only if it is in order, permitted, fits, and the file system syncs it on a usable log. */
  lemma AcceptedExactly(l: Log, op: Op, io: Io)
    requires Paced(l)
    ensures Apply(l, op, io).1.None? <==>
            Writable(op) && !l.unusable && Permitted(l.attempts, op) && io.Synced? && l.length + Size(op) <= l.capacity
    ensures Apply(l, op, io).1.None? ==> Apply(l, op, io).0.length == l.length + Size(op)
  {
    hide Writable, Permitted, Size, FormFault, PlaceFault, Apply;
    ApplyEnds(l, op, io);
  }

  /** A sealed log never changes again. */
  lemma {:induction false} SealedForever(l: Log, ops: seq<(Op, Io)>)
    requires l.unusable
    ensures Run(l, ops) == l
    decreases |ops|
  {
    hide Payload;
    if ops != [] {
      SealedForever(l, ops[1..]);
    }
  }

  /** A target found changed before an append seals the log: no byte is written, then or by any later call. */
  lemma ChangedTargetSeals(l: Log, op: Op, ops: seq<(Op, Io)>)
    requires Paced(l) && Writable(op) && !l.unusable && Permitted(l.attempts, op)
    ensures Apply(l, op, TargetInvalid).1 == Some(TargetChanged)
    ensures Run(Apply(l, op, TargetInvalid).0, ops) == l.(unusable := true)
  {
    hide Apply, Run, Writable, Permitted;
    ApplyEnds(l, op, TargetInvalid);
    SealedForever(Apply(l, op, TargetInvalid).0, ops);
  }

  /** The writer's check and the parser's replay agree, answer for answer, on every call whose verdict is not an empty token. */
  lemma WriterChecksWhatReplayChecks(attempts: Attempts, op: Op, sequence: u64)
    requires Writable(op) && !(op.Reconcile? && EmptyToken(op.verdict))
    ensures Payload(op).Ok?
    ensures var replayed := ApplyFrame(attempts, Frame(Kind(op), sequence, op.id, Payload(op).value));
            && (replayed.Ok? <==> Permitted(attempts, op))
            && (replayed.Ok? ==> replayed.value == Record(attempts, op, sequence, Payload(op).value))
            && (replayed.Err? ==> PlaceFault(attempts, op, replayed.error))
  {
    PayloadExact(op);
    RefusalExact(attempts, op);
    if Permitted(attempts, op) {
      FrameReplays(attempts, op, sequence);
    } else {
      ReplayRefuses(attempts, op, sequence);
    }
  }

  lemma ReplayRefuses(attempts: Attempts, op: Op, sequence: u64)
    requires Payload(op).Ok? && !Permitted(attempts, op) && !(op.Reconcile? && EmptyToken(op.verdict))
    ensures var replayed := ApplyFrame(attempts, Frame(Kind(op), sequence, op.id, Payload(op).value));
            replayed.Err? && PlaceFault(attempts, op, replayed.error)
  {
    hide DecodeFinish, DecodeReconcile, EncodeFinish, EncodeReconcile, AttemptCodec.EncodeAttempt;
    match op
    case Begin(_, _) =>
    case Finish(id, outcome, receipt, evidence) => FinishRoundTrip(id, outcome, receipt, evidence);
    case Reconcile(id, verdict) => ReconcileRoundTrip(verdict, id);
  }
}
