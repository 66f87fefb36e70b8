/**
 The write-ahead audit journal (`durable_audit.rs`): its frames, checksum,
 terminal and reconciliation payloads, and the parser that rebuilds the
 attempt map from bytes.
 */
module Journal {
  import opened Bytes
  import Bits
  import AttemptCodec

  const VERSION := 1
  const START_KIND: byte := 1
  const FINISH_KIND: byte := 2
  const RECONCILE_KIND: byte := 3
  const HEADER_LEN := 32
  const CHECKSUM_LEN := 8
  const MAX_RECORD_PAYLOAD := AttemptCodec.MAX_RECORD_PAYLOAD
  const MAX_JOURNAL_BYTES := 128 * 1024 * 1024
  const MAX_COMMIT_UNKNOWN_EVIDENCE_BYTES := 64 * 1024
  const MAX_COMMIT_RECEIPT_BYTES := 64 * 1024

  type AttemptId = u64

  datatype Outcome = Started | Denied | FailedBeforeCommit | Committed | CommitUnknown

  datatype Receipt = Receipt(attempt: AttemptId, token: Str)

  datatype Evidence = Evidence(attempt: AttemptId, token: Str)

  datatype Verdict = CommittedAs(receipt: Receipt) | NotCommitted

  datatype Attempt = Attempt(
    id: AttemptId,
    startSequence: u64,
    payload: Str,
    outcome: Outcome,
    finishSequence: Option<u64>,
    receipt: Option<Receipt>,
    evidence: Option<Evidence>,
    reconciliation: Option<Verdict>)

  type Attempts = map<AttemptId, Attempt>

  datatype JournalError =
    | TruncatedRecord
    | InvalidMagic
    | UnsupportedVersion(version: nat)
    | InvalidRecord
    | SequenceMismatch(expected: u64, actual: u64)
    | RecordTooLarge(size: nat)
    | AttemptTooLarge
    | ChecksumMismatch(sequence: u64)
    | ReplayDetected(attempt: AttemptId)
    | SequenceExhausted
    | CapacityExceeded(current: nat, projected: nat, capacity: nat)
    | InvalidCapacity(requested: nat)
    | JournalUnavailable
    | TargetChanged
    | WriteFailed

  /** `b"AUTHWAL1"`. */
  function Magic(): (m: Str)
    ensures |m| == 8
  {
    [0x41, 0x55, 0x54, 0x48, 0x57, 0x41, 0x4C, 0x31]
  }

  // ----- checksum ----------------------------------------------------------

  const FNV_BASIS: u64 := 0xcbf2_9ce4_8422_2325
  const FNV_PRIME := 0x0100_0000_01b3

  /** One FNV-1a round: xor the byte in, then a wrapping multiplication. */
  function FnvStep(h: u64, x: byte): u64 {
    (Bits.Xor(h, x, 64) * FNV_PRIME) % U64_COUNT
  }

  function Checksum(b: Str): u64 {
    if b == [] then FNV_BASIS else FnvStep(Checksum(b[..|b| - 1]), b[|b| - 1])
  }

  method ComputeChecksum(b: Str) returns (h: u64)
    ensures h == Checksum(b)
  {
    hide FnvStep;
    h := FNV_BASIS;
    for i := 0 to |b|
      invariant h == Checksum(b[..i])
    {
      assert b[..i + 1][..i] == b[..i];
      h := FnvStep(h, b[i]);
    }
    assert b[..|b|] == b;
  }

  // ----- terminal payloads -------------------------------------------------

  function OutcomeCode(outcome: Outcome): byte {
    match outcome
    case Started => 0
    case Denied => 1
    case FailedBeforeCommit => 2
    case Committed => 3
    case CommitUnknown => 4
  }

  function DecodeOutcome(code: byte): Option<Outcome> {
    if code == 1 then Some(Denied)
    else if code == 2 then Some(FailedBeforeCommit)
    else if code == 3 then Some(Committed)
    else if code == 4 then Some(CommitUnknown)
    else None
  }

  /** `validate_finish`: `None` when the combination is accepted. */
  function ValidateFinish(id: AttemptId, outcome: Outcome, receipt: Option<Receipt>, evidence: Option<Evidence>): Option<JournalError> {
    if receipt.Some? && receipt.value.attempt != id then Some(InvalidRecord)
    else if receipt.Some? && receipt.value.token == [] then Some(InvalidRecord)
    else if receipt.Some? && |receipt.value.token| > MAX_COMMIT_RECEIPT_BYTES then Some(RecordTooLarge(|receipt.value.token|))
    else if evidence.Some? && evidence.value.attempt != id then Some(InvalidRecord)
    else if evidence.Some? && evidence.value.token == [] then Some(InvalidRecord)
    else if evidence.Some? && |evidence.value.token| > MAX_COMMIT_UNKNOWN_EVIDENCE_BYTES then Some(RecordTooLarge(|evidence.value.token|))
    else
      match outcome
      case Started => Some(InvalidRecord)
      case Committed => if receipt.Some? && evidence.None? then None else Some(InvalidRecord)
      case CommitUnknown => if receipt.None? && evidence.Some? then None else Some(InvalidRecord)
      case _ => if receipt.None? && evidence.None? then None else Some(InvalidRecord)
  }

  function EncodeFinish(id: AttemptId, outcome: Outcome, receipt: Option<Receipt>, evidence: Option<Evidence>): Result<Str, JournalError> {
    match ValidateFinish(id, outcome, receipt, evidence)
    case Some(e) => Err(e)
    case None =>
      var token := if receipt.Some? then Some(receipt.value.token) else if evidence.Some? then Some(evidence.value.token) else None;
      match token
      case None => Ok([OutcomeCode(outcome)])
      case Some(t) => Ok([OutcomeCode(outcome)] + LittleEndian(|t|, 4) + t)
  }

  function DecodeFinish(payload: Str, id: AttemptId): Result<(Outcome, Option<Receipt>, Option<Evidence>), JournalError> {
    if payload == [] then Err(InvalidRecord)
    else
      match DecodeOutcome(payload[0])
      case None => Err(InvalidRecord)
      case Some(outcome) =>
        var rest := payload[1..];
        if outcome.Committed? || outcome.CommitUnknown? then
          if |rest| < 4 then Err(TruncatedRecord)
          else
            var n := FromLittleEndian(rest[..4]);
            if n == 0 then Err(InvalidRecord)
            else if n > (if outcome.Committed? then MAX_COMMIT_RECEIPT_BYTES else MAX_COMMIT_UNKNOWN_EVIDENCE_BYTES) then Err(RecordTooLarge(n))
            else if |rest| != 4 + n then Err(InvalidRecord)
            else if outcome.Committed? then Ok((outcome, Some(Receipt(id, rest[4..])), None))
            else Ok((outcome, None, Some(Evidence(id, rest[4..]))))
        else if rest != [] then Err(InvalidRecord)
        else Ok((outcome, None, None))
  }

  // ----- reconciliation payloads -------------------------------------------

  function EncodeReconcile(verdict: Verdict): Result<Str, JournalError> {
    match verdict
    case NotCommitted => Ok([1, 2])
    case CommittedAs(r) =>
      if |r.token| >= U32_COUNT then Err(RecordTooLarge(|r.token|))
      else
        var payload := [1, 1] + LittleEndian(r.attempt, 8) + LittleEndian(|r.token|, 4) + r.token;
        if |payload| > MAX_RECORD_PAYLOAD then Err(RecordTooLarge(|payload|)) else Ok(payload)
  }

  /** `PayloadReader` reports a short payload, a wrong tag and trailing bytes alike as an invalid record. */
  function DecodeReconcile(payload: Str, id: AttemptId): Result<Verdict, JournalError> {
    if |payload| < 2 || payload[0] != 1 then Err(InvalidRecord)
    else if payload[1] == 2 then
      if |payload| == 2 then Ok(NotCommitted) else Err(InvalidRecord)
    else if payload[1] == 1 then
      if |payload| < 14 || FromLittleEndian(payload[2..10]) != id then Err(InvalidRecord)
      else
        var n := FromLittleEndian(payload[10..14]);
        if n == 0 || |payload| != 14 + n then Err(InvalidRecord)
        else Ok(CommittedAs(Receipt(id, payload[14..])))
    else Err(InvalidRecord)
  }

  // ----- frames ------------------------------------------------------------

  datatype Frame = Frame(kind: byte, sequence: u64, attempt: AttemptId, payload: Str)

  function FrameHead(f: Frame): (b: Str)
    ensures |b| == HEADER_LEN
  {
    Magic() + LittleEndian(VERSION, 2) + [f.kind] + [0] + LittleEndian(f.sequence, 8)
    + LittleEndian(f.attempt, 8) + LittleEndian(|f.payload|, 4)
  }

  function PutFrame(f: Frame): (b: Str)
    ensures |b| == HEADER_LEN + |f.payload| + CHECKSUM_LEN
  {
    var body := FrameHead(f) + f.payload;
    body + LittleEndian(Checksum(body), 8)
  }

  /** The header fields of a byte string at least one header long. */
  function HeadVersion(b: Str): nat requires |b| >= HEADER_LEN { FromLittleEndian(b[8..10]) }
  function HeadSequence(b: Str): u64 requires |b| >= HEADER_LEN { Pow256Values(); FromLittleEndian(b[12..20]) }
  function HeadAttempt(b: Str): u64 requires |b| >= HEADER_LEN { Pow256Values(); FromLittleEndian(b[20..28]) }
  function HeadLength(b: Str): nat requires |b| >= HEADER_LEN { FromLittleEndian(b[28..32]) }

  /** The header checks that precede the checksum, in source order. */
  function HeadFault(b: Str, expected: u64): Option<JournalError>
    requires |b| >= HEADER_LEN
  {
    if b[..8] != Magic() then Some(InvalidMagic)
    else if HeadVersion(b) != VERSION then Some(UnsupportedVersion(HeadVersion(b)))
    else if b[11] != 0 then Some(InvalidRecord)
    else if HeadSequence(b) != expected then Some(SequenceMismatch(expected, HeadSequence(b)))
    else if HeadLength(b) > MAX_RECORD_PAYLOAD then Some(RecordTooLarge(HeadLength(b)))
    else None
  }

  /** Reads one frame off the front; the second component is what follows it. */
  function ReadFrame(b: Str, expected: u64): (r: Result<(Frame, Str), JournalError>)
    ensures r.Ok? ==> |r.value.1| + HEADER_LEN + CHECKSUM_LEN + |r.value.0.payload| == |b|
  {
    if |b| < HEADER_LEN + CHECKSUM_LEN then Err(TruncatedRecord)
    else
      match HeadFault(b, expected)
      case Some(e) => Err(e)
      case None =>
        var body := HEADER_LEN + HeadLength(b);
        if |b| < body + CHECKSUM_LEN then Err(TruncatedRecord)
        else if Checksum(b[..body]) != FromLittleEndian(b[body..body + CHECKSUM_LEN]) then Err(ChecksumMismatch(expected))
        else Ok((Frame(b[10], expected, HeadAttempt(b), b[HEADER_LEN..body]), b[body + CHECKSUM_LEN..]))
  }

  // ----- replaying frames --------------------------------------------------

  function Begun(id: AttemptId, sequence: u64, payload: Str): Attempt {
    Attempt(id, sequence, payload, Started, None, None, None, None)
  }

  /** What one well-formed frame does to the attempt map. */
  function ApplyFrame(attempts: Attempts, f: Frame): Result<Attempts, JournalError> {
    if f.kind == START_KIND then
      if f.attempt in attempts then Err(ReplayDetected(f.attempt))
      else Ok(attempts[f.attempt := Begun(f.attempt, f.sequence, f.payload)])
    else if f.kind == FINISH_KIND then
      match DecodeFinish(f.payload, f.attempt)
      case Err(e) => Err(e)
      case Ok((outcome, receipt, evidence)) =>
        if f.attempt !in attempts || attempts[f.attempt].outcome != Started then Err(ReplayDetected(f.attempt))
        else
          Ok(attempts[f.attempt := attempts[f.attempt].(outcome := outcome, finishSequence := Some(f.sequence),
                                                        receipt := receipt, evidence := evidence)])
    else if f.kind == RECONCILE_KIND then
      match DecodeReconcile(f.payload, f.attempt)
      case Err(e) => Err(e)
      case Ok(verdict) =>
        if f.attempt !in attempts then Err(ReplayDetected(f.attempt))
        else if attempts[f.attempt].outcome != CommitUnknown then Err(InvalidRecord)
        else if attempts[f.attempt].reconciliation.Some? then Err(ReplayDetected(f.attempt))
        else Ok(attempts[f.attempt := attempts[f.attempt].(reconciliation := Some(verdict))])
    else Err(InvalidRecord)
  }

  type Parsed = Result<(Option<u64>, Attempts), JournalError>

  /** Parses the remaining bytes with the next expected sequence and the map built so far. */
  function ParseFrom(b: Str, expected: u64, attempts: Attempts): Parsed
    decreases |b|
  {
    if b == [] then Ok((Some(expected), attempts))
    else
      match ReadFrame(b, expected)
      case Err(e) => Err(e)
      case Ok((f, rest)) =>
        match ApplyFrame(attempts, f)
        case Err(e) => Err(e)
        case Ok(next) =>
          match CheckedNext(expected)
          case None => Err(SequenceExhausted)
          case Some(n) => ParseFrom(rest, n, next)
  }

  function Parse(b: Str, maximum: nat): Parsed {
    if |b| > maximum then Err(CapacityExceeded(|b|, |b|, maximum)) else ParseFrom(b, 0, map[])
  }

  /** `parse_journal`: one pass with an offset, an expected sequence and a growing map. */
  method ParseJournal(bytes: Str, maximum: nat) returns (r: Parsed)
    ensures r == Parse(bytes, maximum)
  {
    hide ReadFrame, ApplyFrame, Checksum, HeadFault;
    if |bytes| > maximum {
      return Err(CapacityExceeded(|bytes|, |bytes|, maximum));
    }
    var offset, expected, attempts := 0, 0, map[];
    assert bytes[0..] == bytes;
    while offset < |bytes|
      invariant offset <= |bytes|
      invariant 0 <= expected < U64_COUNT
      invariant ParseFrom(bytes, 0, map[]) == ParseFrom(bytes[offset..], expected, attempts)
    {
      var read := NextFrame(bytes, offset, expected);
      if read.Err? {
        return Err(read.error);
      }
      var f, end := read.value.0, read.value.1;
      var applied := ApplyFrame(attempts, f);
      if applied.Err? {
        return Err(applied.error);
      }
      var next := CheckedNext(expected);
      if next.None? {
        return Err(SequenceExhausted);
      }
      offset, expected, attempts := end, next.value, applied.value;
    }
    r := Ok((Some(expected), attempts));
  }

  /** One frame read in place at `offset`; on success also the offset of the next one. */
  method NextFrame(bytes: Str, offset: nat, expected: u64) returns (r: Result<(Frame, nat), JournalError>)
    requires offset < |bytes|
    ensures ReadFrame(bytes[offset..], expected).Err? ==> r == Err(ReadFrame(bytes[offset..], expected).error)
    ensures ReadFrame(bytes[offset..], expected).Ok? ==>
              && r.Ok? && offset < r.value.1 <= |bytes|
              && ReadFrame(bytes[offset..], expected) == Ok((r.value.0, bytes[r.value.1..]))
  {
    hide Checksum;
    ghost var rest := bytes[offset..];
    if |bytes| - offset < HEADER_LEN + CHECKSUM_LEN {
      return Err(TruncatedRecord);
    }
    HeadInPlace(bytes, offset);
    var head := bytes[offset..offset + HEADER_LEN];
    var fault := HeadFault(head, expected);
    if fault.Some? {
      return Err(fault.value);
    }
    var payloadStart := offset + HEADER_LEN;
    var payloadEnd := payloadStart + HeadLength(head);
    if |bytes| - offset < HEADER_LEN + HeadLength(head) + CHECKSUM_LEN {
      return Err(TruncatedRecord);
    }
    assert bytes[payloadEnd..payloadEnd + CHECKSUM_LEN] == rest[payloadEnd - offset..payloadEnd - offset + CHECKSUM_LEN];
    assert bytes[offset..payloadEnd] == rest[..payloadEnd - offset];
    var stored := FromLittleEndian(bytes[payloadEnd..payloadEnd + CHECKSUM_LEN]);
    var actual := ComputeChecksum(bytes[offset..payloadEnd]);
    if actual != stored {
      return Err(ChecksumMismatch(expected));
    }
    assert bytes[payloadStart..payloadEnd] == rest[HEADER_LEN..payloadEnd - offset];
    assert bytes[payloadEnd + CHECKSUM_LEN..] == rest[payloadEnd - offset + CHECKSUM_LEN..];
    r := Ok((Frame(head[10], expected, HeadAttempt(head), bytes[payloadStart..payloadEnd]), payloadEnd + CHECKSUM_LEN));
  }

  /** The header fields depend on the header bytes alone. */
  lemma HeadPrefix(head: Str, tail: Str, expected: u64)
    requires |head| >= HEADER_LEN
    ensures HeadFault(head + tail, expected) == HeadFault(head, expected)
    ensures HeadLength(head + tail) == HeadLength(head)
    ensures HeadAttempt(head + tail) == HeadAttempt(head)
    ensures (head + tail)[10] == head[10]
  {
    var b := head + tail;
    assert b[..8] == head[..8];
    assert b[8..10] == head[8..10];
    assert b[12..20] == head[12..20];
    assert b[20..28] == head[20..28];
    assert b[28..32] == head[28..32];
  }

  lemma HeadInPlace(bytes: Str, offset: nat)
    requires offset + HEADER_LEN <= |bytes|
    ensures forall e: u64 :: HeadFault(bytes[offset..], e) == HeadFault(bytes[offset..offset + HEADER_LEN], e)
    ensures HeadLength(bytes[offset..]) == HeadLength(bytes[offset..offset + HEADER_LEN])
    ensures HeadAttempt(bytes[offset..]) == HeadAttempt(bytes[offset..offset + HEADER_LEN])
    ensures bytes[offset..][10] == bytes[offset..offset + HEADER_LEN][10]
  {
    var head, tail := bytes[offset..offset + HEADER_LEN], bytes[offset + HEADER_LEN..];
    assert bytes[offset..] == head + tail;
    forall e: u64 ensures HeadFault(bytes[offset..], e) == HeadFault(head, e) {
      HeadPrefix(head, tail, e);
    }
    HeadPrefix(head, tail, 0);
  }
}
