/**
 The journal writer (`DurableState` of `durable_audit.rs`) as a value: the
 bytes on disk beside the attempt map, next sequence and length it keeps in
 memory. File-system behaviour is an argument of each operation.
 */
module JournalLog {
  import opened Bytes
  import AttemptCodec
  import opened Journal
  import opened JournalCodec
  import opened JournalDamage

  datatype Log = Log(disk: Str, next: Option<u64>, attempts: Attempts, unusable: bool, length: nat, capacity: nat)

  /**
   What the file system does to one append: the target no longer validates
   beforehand, the write, sync or later validation fails after some bytes are
   on disk, or the frame is durable.
   */
  datatype Io = TargetInvalid | Torn(kept: nat) | Synced

  function CutTo(b: Str, k: nat): Str {
    if k < |b| then b[..k] else b
  }

  /** `append_frame`; `None` is success. */
  function Append(l: Log, f: Frame, io: Io): (Log, Option<JournalError>) {
    if io.TargetInvalid? then (l.(unusable := true), Some(TargetChanged))
    else if |f.payload| > MAX_RECORD_PAYLOAD then (l, Some(RecordTooLarge(|f.payload|)))
    else
      var frame := PutFrame(f);
      if l.length + |frame| > l.capacity then (l, Some(CapacityExceeded(l.length, l.length + |frame|, l.capacity)))
      else if io.Torn? then (l.(disk := l.disk + CutTo(frame, io.kept), unusable := true), Some(WriteFailed))
      else (l.(disk := l.disk + frame, length := l.length + |frame|), None)
  }

  datatype Op =
    | Begin(id: AttemptId, metadata: AttemptCodec.Metadata)
    | Finish(id: AttemptId, outcome: Outcome, receipt: Option<Receipt>, evidence: Option<Evidence>)
    | Reconcile(id: AttemptId, verdict: Verdict)

  /** The payload an operation writes, or the error it reports before looking at the log. */
  function Payload(op: Op): Result<Str, JournalError> {
    match op
    case Begin(id, m) =>
      (match AttemptCodec.EncodeAttempt(m)
       case Ok(p) => Ok(p)
       case Err(IncompleteRequestSet) => Err(InvalidRecord)
       case Err(PayloadTooLarge) => Err(AttemptTooLarge))
    case Finish(id, outcome, receipt, evidence) => EncodeFinish(id, outcome, receipt, evidence)
    case Reconcile(id, verdict) =>
      if verdict.CommittedAs? && verdict.receipt.attempt != id then Err(InvalidRecord) else EncodeReconcile(verdict)
  }

  function Kind(op: Op): byte {
    match op
    case Begin(_, _) => START_KIND
    case Finish(_, _, _, _) => FINISH_KIND
    case Reconcile(_, _) => RECONCILE_KIND
  }

  /** The check of the attempt map that precedes the append. */
  function Refusal(attempts: Attempts, op: Op): Option<JournalError> {
    match op
    case Begin(id, _) => if id in attempts then Some(ReplayDetected(id)) else None
    case Finish(id, _, _, _) =>
      if id !in attempts || attempts[id].outcome != Started then Some(ReplayDetected(id)) else None
    case Reconcile(id, _) =>
      if id !in attempts then Some(ReplayDetected(id))
      else if attempts[id].outcome != CommitUnknown then Some(InvalidRecord)
      else if attempts[id].reconciliation.Some? then Some(ReplayDetected(id))
      else None
  }

  /** The in-memory update made once the frame is durable. */
  function Record(attempts: Attempts, op: Op, sequence: u64, payload: Str): Attempts
    requires Refusal(attempts, op).None?
  {
    match op
    case Begin(id, _) => attempts[id := Begun(id, sequence, payload)]
    case Finish(id, outcome, receipt, evidence) =>
      attempts[id := attempts[id].(outcome := outcome, finishSequence := Some(sequence), receipt := receipt, evidence := evidence)]
    case Reconcile(id, verdict) => attempts[id := attempts[id].(reconciliation := Some(verdict))]
  }

  /** `begin_attempt`, `finish_attempt` and `reconcile_attempt`; `None` is success. */
  function Apply(l: Log, op: Op, io: Io): (Log, Option<JournalError>) {
    match Payload(op)
    case Err(e) => (l, Some(e))
    case Ok(payload) =>
      if l.unusable then (l, Some(JournalUnavailable))
      else if Refusal(l.attempts, op).Some? then (l, Refusal(l.attempts, op))
      else if l.next.None? then (l, Some(SequenceExhausted))
      else
        var (appended, error) := Append(l, Frame(Kind(op), l.next.value, op.id, payload), io);
        if error.Some? then (appended, error)
        else (appended.(attempts := Record(l.attempts, op, l.next.value, payload), next := CheckedNext(l.next.value)), None)
  }

  function Run(l: Log, ops: seq<(Op, Io)>): Log
    decreases |ops|
  {
    if ops == [] then l else Run(Apply(l, ops[0].0, ops[0].1).0, ops[1..])
  }

  /** `open_with_capacity` on a validated file. */
  function Open(disk: Str, capacity: nat): Result<Log, JournalError> {
    if capacity > MAX_JOURNAL_BYTES then Err(InvalidCapacity(capacity))
    else
      match Parse(disk, capacity)
      case Err(e) => Err(e)
      case Ok((next, attempts)) => Ok(Log(disk, next, attempts, false, |disk|, capacity))
  }

  // ----- the refinement ----------------------------------------------------

  /** The bytes the writer accounts for parse to exactly the state it holds. */
  predicate Refines(l: Log) {
    && l.length <= |l.disk|
    && Parse(l.disk[..l.length], l.capacity) == Ok((l.next, l.attempts))
  }

  /**
   What a later open of the raw bytes finds: this state, a truncated record,
   or the state of one more accepted operation.
   */
  ghost predicate Reopens(l: Log)
    requires l.length <= |l.disk|
  {
    var found := Parse(l.disk, l.capacity);
    || found == Ok((l.next, l.attempts))
    || found == Err(TruncatedRecord)
    || exists op: Op :: OneMore(l, op)
  }

  /** The disk parses to what `op` would have made of the log, had it not been sealed. */
  predicate OneMore(l: Log, op: Op)
    requires l.length <= |l.disk|
  {
    var (after, error) := Apply(l.(disk := l.disk[..l.length], unusable := false), op, Synced);
    error.None? && after.disk == l.disk && Parse(l.disk, l.capacity) == Ok((after.next, after.attempts))
  }

  ghost predicate Valid(l: Log) {
    && l.capacity <= MAX_JOURNAL_BYTES
    && Refines(l)
    && (!l.unusable ==> |l.disk| == l.length)
    && Reopens(l)
  }

  /** Forty bytes a frame and a bounded file leave the sequence far from its end. */
  lemma SequenceInReach(l: Log)
    requires l.capacity <= MAX_JOURNAL_BYTES && Refines(l)
    ensures l.next.Some? && 40 * l.next.value <= l.length <= l.capacity
    ensures CheckedNext(l.next.value).Some?
  {
    ParseLength(l.disk[..l.length], 0, map[]);
  }

  lemma NeverExhausted(l: Log, op: Op, io: Io)
    requires Valid(l)
    ensures Apply(l, op, io).1 != Some(SequenceExhausted)
  {
    hide Payload, Kind, Refusal, Record, PutFrame, Parse, Reopens;
    SequenceInReach(l);
    PayloadErrors(op);
    RefusalErrors(l.attempts, op);
  }

  lemma PayloadErrors(op: Op)
    ensures Payload(op).Err? ==> Payload(op).error != SequenceExhausted
  {
  }

  lemma RefusalErrors(attempts: Attempts, op: Op)
    ensures Refusal(attempts, op) != Some(SequenceExhausted)
  {
  }

  /** What an accepted operation writes replays to what it recorded, unless it is an empty reconciled token. */
  lemma FrameReplays(attempts: Attempts, op: Op, sequence: u64)
    requires Payload(op).Ok? && Refusal(attempts, op).None?
    ensures var replayed := ApplyFrame(attempts, Frame(Kind(op), sequence, op.id, Payload(op).value));
            replayed == if op.Reconcile? && EmptyToken(op.verdict) then Err(InvalidRecord)
                        else Ok(Record(attempts, op, sequence, Payload(op).value))
  {
    hide DecodeFinish, DecodeReconcile, EncodeFinish, EncodeReconcile, AttemptCodec.EncodeAttempt;
    match op
    case Begin(_, _) =>
    case Finish(id, outcome, receipt, evidence) => FinishRoundTrip(id, outcome, receipt, evidence);
    case Reconcile(id, verdict) => ReconcileRoundTrip(verdict, id);
  }

  /** What the disk parses to after one more frame. */
  lemma ParseNext(l: Log, f: Frame)
    requires l.capacity <= MAX_JOURNAL_BYTES && Refines(l) && |l.disk| == l.length
    requires l.next == Some(f.sequence) && |f.payload| <= MAX_RECORD_PAYLOAD
    requires l.length + |PutFrame(f)| <= l.capacity
    ensures Parse(l.disk + PutFrame(f), l.capacity)
            == match ApplyFrame(l.attempts, f)
               case Err(e) => Err(e)
               case Ok(after) => Ok((CheckedNext(f.sequence), after))
  {
    hide ApplyFrame, PutFrame, ParseFrom;
    SequenceInReach(l);
    assert l.disk[..l.length] == l.disk;
    ParseAppend(l.disk, PutFrame(f), 0, map[]);
    ParseOne(f, l.attempts);
  }

  predicate Accepted(l: Log, op: Op) {
    && Payload(op).Ok? && !l.unusable && Refusal(l.attempts, op).None? && l.next.Some?
  }

  function FrameOf(l: Log, op: Op): Frame
    requires Accepted(l, op)
  {
    Frame(Kind(op), l.next.value, op.id, Payload(op).value)
  }

  /**
   One successful operation keeps the refinement exactly when it does not
   reconcile to an empty token; such a token leaves an unreadable journal.
   */
  lemma SyncedRefines(l: Log, op: Op)
    requires Valid(l) && Apply(l, op, Synced).1.None?
    ensures var after := Apply(l, op, Synced).0;
            && after.disk == l.disk + PutFrame(FrameOf(l, op)) && !after.unusable && after.length == |after.disk|
            && (if op.Reconcile? && EmptyToken(op.verdict)
                then Parse(after.disk, after.capacity) == Err(InvalidRecord)
                else Parse(after.disk, after.capacity) == Ok((after.next, after.attempts)))
  {
    hide Payload, Kind, Refusal, Record, ApplyFrame, PutFrame, Reopens, Parse;
    FrameReplays(l.attempts, op, l.next.value);
    ParseNext(l, FrameOf(l, op));
  }

  lemma UnsealedValid(l: Log)
    requires l.capacity <= MAX_JOURNAL_BYTES && |l.disk| == l.length
    requires Parse(l.disk, l.capacity) == Ok((l.next, l.attempts))
    ensures Valid(l)
  {
    assert l.disk[..l.length] == l.disk;
  }

  /** A torn append seals the log over bytes a later open classifies. */
  lemma TornValid(l: Log, op: Op, k: nat)
    requires Valid(l) && Accepted(l, op) && !(op.Reconcile? && EmptyToken(op.verdict))
    requires Apply(l, op, Torn(k)).1 == Some(WriteFailed)
    ensures Valid(Apply(l, op, Torn(k)).0)
  {
    hide Payload, Kind, Refusal, Record, PutFrame, Parse;
    var f := FrameOf(l, op);
    var after := Apply(l, op, Torn(k)).0;
    assert l.disk[..l.length] == l.disk;
    assert after.disk[..l.length] == l.disk;
    if k == 0 {
      assert after.disk == l.disk;
    } else if k < |PutFrame(f)| {
      TornTail(l.disk, l.capacity, f, k);
    } else {
      SyncedRefines(l, op);
      assert after.(disk := after.disk[..after.length], unusable := false) == l;
      assert OneMore(after, op);
    }
  }

  predicate WritesEmptyToken(l: Log, op: Op) {
    op.Reconcile? && EmptyToken(op.verdict) && Accepted(l, op)
  }

  /** Every operation, accepted, rejected or torn, keeps the invariant unless it writes an empty token. */
  lemma ApplyValid(l: Log, op: Op, io: Io)
    requires Valid(l) && !WritesEmptyToken(l, op)
    ensures Valid(Apply(l, op, io).0)
  {
    hide Payload, Kind, Refusal, Record, PutFrame, Parse;
    var (after, error) := Apply(l, op, io);
    if error.None? {
      SyncedRefines(l, op);
      UnsealedValid(after);
    } else if after != l {
      if io.Torn? {
        TornValid(l, op, io.kept);
      } else {
        assert l.disk[..l.length] == l.disk;
        assert after.disk == l.disk;
      }
    }
  }

  predicate NonEmptyTokens(ops: seq<(Op, Io)>) {
    forall i :: 0 <= i < |ops| && ops[i].0.Reconcile? ==> !EmptyToken(ops[i].0.verdict)
  }

  /** The writer refines the parser over every run whose reconciled tokens are not empty. */
  lemma {:induction false} RunValid(l: Log, ops: seq<(Op, Io)>)
    requires Valid(l) && NonEmptyTokens(ops)
    ensures Valid(Run(l, ops))
    decreases |ops|
  {
    hide Apply, Valid;
    if ops != [] {
      ApplyValid(l, ops[0].0, ops[0].1);
      RunValid(Apply(l, ops[0].0, ops[0].1).0, ops[1..]);
    }
  }

  /**
   While the log is usable, the bytes on disk parse to exactly its attempt map
   and next sequence, within its capacity and far from the last sequence.
   */
  lemma WriterRefinesParser(l: Log, ops: seq<(Op, Io)>)
    requires Valid(l) && NonEmptyTokens(ops) && !Run(l, ops).unusable
    ensures var after := Run(l, ops);
            && Parse(after.disk, after.capacity) == Ok((after.next, after.attempts))
            && after.next.Some? && 40 * after.next.value <= |after.disk| == after.length <= after.capacity == l.capacity
  {
    hide Run, Parse, Reopens;
    RunValid(l, ops);
    CapacityKept(l, ops);
    var after := Run(l, ops);
    SequenceInReach(after);
    assert after.disk[..after.length] == after.disk;
  }

  /** An unsealed log reopens to itself, and every opened log satisfies the invariant. */
  lemma OpenExact(l: Log)
    requires Valid(l) && !l.unusable
    ensures Open(l.disk, l.capacity) == Ok(l)
  {
    hide Parse, Reopens;
    assert l.disk[..l.length] == l.disk;
  }

  lemma OpenValid(disk: Str, capacity: nat)
    requires Open(disk, capacity).Ok?
    ensures Valid(Open(disk, capacity).value)
  {
    hide Parse, Reopens;
    UnsealedValid(Open(disk, capacity).value);
  }

  /**
   However an append ends, the bytes it leaves open to exactly the log before
   it, to exactly the log after it, or are reported as truncated.
   */
  lemma CrashSafe(l: Log, op: Op, io: Io)
    requires Valid(l) && !l.unusable && !WritesEmptyToken(l, op)
    ensures var found := Open(Apply(l, op, io).0.disk, l.capacity);
            || found == Ok(l)
            || found == Err(TruncatedRecord)
            || (Accepted(l, op) && Apply(l, op, Synced).1.None? && found == Ok(Apply(l, op, Synced).0))
  {
    hide Payload, Kind, Refusal, Record, PutFrame, Parse, Reopens;
    var (after, error) := Apply(l, op, io);
    OpenExact(l);
    if after.disk != l.disk {
      var f := FrameOf(l, op);
      SyncedRefines(l, op);
      if io.Torn? && io.kept < |PutFrame(f)| {
        assert io.kept == 0 ==> after.disk == l.disk;
        assert l.disk[..l.length] == l.disk;
        TornTail(l.disk, l.capacity, f, io.kept);
      }
    }
  }

  // ----- the empty reconciled token ----------------------------------------

  predicate Unreadable(l: Log) {
    && l.length <= |l.disk|
    && (!l.unusable ==> |l.disk| == l.length)
    && |l.disk| <= l.capacity
    && Parse(l.disk, l.capacity) == Err(InvalidRecord)
  }

  lemma {:induction false} UnreadableForever(l: Log, ops: seq<(Op, Io)>)
    requires Unreadable(l)
    ensures Unreadable(Run(l, ops))
    decreases |ops|
  {
    hide Payload, Kind, Refusal, Record, PutFrame, ParseFrom;
    if ops != [] {
      var after := Apply(l, ops[0].0, ops[0].1).0;
      if after.disk != l.disk {
        ParseFaultStable(l.disk, after.disk[|l.disk|..], 0, map[]);
        assert after.disk == l.disk + after.disk[|l.disk|..];
      }
      UnreadableForever(after, ops[1..]);
    }
  }

  /**
   A successful operation keeps the refinement if and only if its verdict is
   not an empty token; otherwise no continuation of the run can be reopened.
   */
  lemma EmptyTokenExact(l: Log, op: Op, ops: seq<(Op, Io)>)
    requires Valid(l) && Apply(l, op, Synced).1.None?
    ensures Valid(Apply(l, op, Synced).0) <==> !(op.Reconcile? && EmptyToken(op.verdict))
    ensures op.Reconcile? && EmptyToken(op.verdict) ==>
              Open(Run(Apply(l, op, Synced).0, ops).disk, l.capacity).Err?
  {
    hide Payload, Kind, Refusal, Record, PutFrame, Parse, Reopens;
    var after := Apply(l, op, Synced).0;
    SyncedRefines(l, op);
    if op.Reconcile? && EmptyToken(op.verdict) {
      assert after.disk[..after.length] == after.disk;
      UnreadableForever(after, ops);
      CapacityKept(after, ops);
    } else {
      UnsealedValid(after);
    }
  }

  lemma {:induction false} CapacityKept(l: Log, ops: seq<(Op, Io)>)
    ensures Run(l, ops).capacity == l.capacity
    decreases |ops|
  {
    hide Payload, Kind, Refusal, Record, PutFrame;
    if ops != [] {
      CapacityKept(Apply(l, ops[0].0, ops[0].1).0, ops[1..]);
    }
  }

  lemma SucceedsWhenItFits(l: Log, op: Op)
    requires Accepted(l, op)
    requires |Payload(op).value| <= MAX_RECORD_PAYLOAD && l.length + 40 + |Payload(op).value| <= l.capacity
    ensures var (after, error) := Apply(l, op, Synced);
            && error.None? && !after.unusable && after.capacity == l.capacity && after.next == CheckedNext(l.next.value)
            && after.length == l.length + 40 + |Payload(op).value|
            && after.attempts == Record(l.attempts, op, l.next.value, Payload(op).value)
  {
    hide Payload, Kind, Refusal, Record, PutFrame;
  }

  const NEW_LOG := Log([], Some(0), map[], false, 0, MAX_JOURNAL_BYTES)

  /** Three accepted calls on a fresh log, whatever the effect, that leave a journal no open accepts. */
  lemma EmptyTokenReached(m: AttemptCodec.Metadata)
    requires AttemptCodec.EncodeAttempt(m).Ok?
    ensures var ops := [(Begin(0, m), Synced), (Finish(0, CommitUnknown, None, Some(Evidence(0, [1]))), Synced),
                        (Reconcile(0, CommittedAs(Receipt(0, []))), Synced)];
            Open(Run(NEW_LOG, ops).disk, MAX_JOURNAL_BYTES).Err?
  {
    hide PutFrame, Parse, Apply, AttemptCodec.PutAttempt, LittleEndian, Valid;
    var begin := Begin(0, m);
    var finish := Finish(0, CommitUnknown, None, Some(Evidence(0, [1])));
    var reconcile := Reconcile(0, CommittedAs(Receipt(0, [])));
    SucceedsWhenItFits(NEW_LOG, begin);
    var one := Apply(NEW_LOG, begin, Synced).0;
    SucceedsWhenItFits(one, finish);
    var two := Apply(one, finish, Synced).0;
    SucceedsWhenItFits(two, reconcile);
    NewLogValid();
    ApplyValid(NEW_LOG, begin, Synced);
    ApplyValid(one, finish, Synced);
    EmptyTokenExact(two, reconcile, []);
    var ops := [(begin, Synced), (finish, Synced), (reconcile, Synced)];
    assert ops[1..][1..] == [ops[2]];
    assert Run(NEW_LOG, ops) == Run(one, ops[1..]) == Run(two, [ops[2]]) == Run(Apply(two, reconcile, Synced).0, []);
  }

  lemma NewLogValid()
    ensures Valid(NEW_LOG)
  {
    assert Parse([], MAX_JOURNAL_BYTES) == Ok((Some(0), map[]));
    UnsealedValid(NEW_LOG);
  }
}
