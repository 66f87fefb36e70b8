/**
 The audit trail (`audit.rs`): attempt identities handed out in order, one
 in-memory record per attempt, and an optional durable journal behind it.
 */
module Audit {
  import opened Bytes
  import opened Capability
  import opened Order
  import AttemptCodec
  import opened Journal
  import J = JournalLog

  /** One `AttemptJournal`: immutable but for its outcome. */
  datatype Entry = Entry(id: AttemptId, metadata: AttemptCodec.Metadata, outcome: Outcome)

  datatype Trail = Trail(next: Option<u64>, entries: seq<Entry>, instance: u64, backend: Option<J.Log>)

  datatype AuditError = AttemptIdExhausted | Durable(error: JournalError) | StateRecoveryRequired(attempts: seq<AttemptId>)

  // ----- attempt identities ------------------------------------------------

  /** `next_attempt_sequence` of the journal: one past the largest identity, if a `u64` holds it. */
  function NextAttempt(attempts: Attempts): (r: Option<u64>)
    ensures r.Some? ==> r.value !in attempts
    ensures r.Some? ==> forall k :: k in attempts ==> k < r.value
  {
    if attempts.Keys == {} then Some(0) else CheckedNext(Largest(attempts.Keys))
  }

  lemma NextAfterStart(attempts: Attempts, a: Attempt)
    requires NextAttempt(attempts).Some?
    ensures NextAttempt(attempts[NextAttempt(attempts).value := a]) == CheckedNext(NextAttempt(attempts).value)
  {
    var id := NextAttempt(attempts).value;
    var more := attempts[id := a];
    assert id in more.Keys;
    assert Largest(more.Keys) == id;
  }

  lemma NextByKeys(a: Attempts, b: Attempts)
    requires a.Keys == b.Keys
    ensures NextAttempt(a) == NextAttempt(b)
  {
  }

  // ----- operations --------------------------------------------------------

  /** `new_with_backend`: only a journal without attempts needs no recovery. */
  function FreshTrail(l: J.Log): Result<Trail, AuditError> {
    if l.unusable then Err(Durable(JournalUnavailable))
    else if l.attempts.Keys != {} then Err(StateRecoveryRequired(Sorted(l.attempts.Keys)))
    else Ok(Trail(NextAttempt(l.attempts), [], 0, Some(l)))
  }

  /** `start_request_set`: the identity is given back when the durable start fails. */
  function StartSet(t: Trail, caller: SubjectId, capability: CapId, requests: RequestSet, epoch: u64, io: J.Io): (Trail, Result<AttemptId, AuditError>) {
    if t.next.None? then (t, Err(AttemptIdExhausted))
    else
      var m := AttemptCodec.Metadata(t.instance, caller, capability, epoch, requests);
      var begun := t.(next := CheckedNext(t.next.value), entries := t.entries + [Entry(t.next.value, m, Started)]);
      match t.backend
      case None => (begun, Ok(t.next.value))
      case Some(l) =>
        var (after, error) := J.Apply(l, J.Begin(t.next.value, m), io);
        if error.Some? then (t.(backend := Some(after)), Err(Durable(error.value)))
        else (begun.(backend := Some(after)), Ok(t.next.value))
  }

  /** The durable half of `AttemptGuard::finish`; `None` is success. */
  function FinishDurably(t: Trail, i: nat, outcome: Outcome, receipt: Option<Receipt>, evidence: Option<Evidence>, io: J.Io): (Trail, Option<JournalError>)
    requires i < |t.entries|
  {
    match t.backend
    case None => (t, None)
    case Some(l) =>
      var (after, error) := J.Apply(l, J.Finish(t.entries[i].id, outcome, receipt, evidence), io);
      (t.(backend := Some(after)), error)
  }

  /** The atomic store that follows it. */
  function Store(t: Trail, i: nat, outcome: Outcome): Trail
    requires i < |t.entries|
  {
    t.(entries := t.entries[i := t.entries[i].(outcome := outcome)])
  }

  /** `effects`: committed entries in start order. */
  function Effects(entries: seq<Entry>): seq<Entry> {
    if entries == [] then []
    else Effects(entries[..|entries| - 1]) + (if entries[|entries| - 1].outcome.Committed? then [entries[|entries| - 1]] else [])
  }

  // ----- invariant ---------------------------------------------------------

  predicate Ordered(entries: seq<Entry>) {
    forall i, j :: 0 <= i < j < |entries| ==> entries[i].id < entries[j].id
  }

  predicate BelowNext(entries: seq<Entry>, next: Option<u64>) {
    next.Some? ==> forall i :: 0 <= i < |entries| ==> entries[i].id < next.value
  }

  /** A memory record has its durable start, and its terminal outcome is the durable one. */
  predicate Backed(e: Entry, attempts: Attempts) {
    && e.id in attempts
    && AttemptCodec.EncodeAttempt(e.metadata) == Ok(attempts[e.id].payload)
    && (e.outcome != Started ==> attempts[e.id].outcome == e.outcome)
  }

  predicate AllBacked(entries: seq<Entry>, attempts: Attempts) {
    forall i :: 0 <= i < |entries| ==> Backed(entries[i], attempts)
  }

  predicate Valid(t: Trail) {
    && Ordered(t.entries)
    && BelowNext(t.entries, t.next)
    && (t.backend.Some? ==> t.next == NextAttempt(t.backend.value.attempts) && AllBacked(t.entries, t.backend.value.attempts))
  }

  /** Journal records only gain: a payload never changes and a terminal outcome is final. */
  predicate RecordLater(a: Attempt, b: Attempt) {
    && a.payload == b.payload
    && (a.outcome != Started ==> b.outcome == a.outcome && b.receipt == a.receipt && b.evidence == a.evidence)
  }

  predicate AttemptsLater(a: Attempts, b: Attempts) {
    forall id :: id in a ==> id in b && RecordLater(a[id], b[id])
  }

  predicate EntriesLater(a: seq<Entry>, b: seq<Entry>) {
    && |a| <= |b|
    && forall i :: 0 <= i < |a| ==>
         a[i].id == b[i].id && a[i].metadata == b[i].metadata && (a[i].outcome != Started ==> b[i].outcome == a[i].outcome)
  }

  predicate Later(t: Trail, u: Trail) {
    && t.instance == u.instance
    && EntriesLater(t.entries, u.entries)
    && (t.backend.Some? <==> u.backend.Some?)
    && (t.backend.Some? ==> AttemptsLater(t.backend.value.attempts, u.backend.value.attempts))
  }

  lemma LaterTransitive(t: Trail, u: Trail, v: Trail)
    requires Later(t, u) && Later(u, v)
    ensures Later(t, v)
  {
  }

  /** What one journal operation does to the attempt map, whatever the file system does. */
  lemma ApplyAttempts(l: J.Log, op: J.Op, io: J.Io)
    ensures var (after, error) := J.Apply(l, op, io);
            && (error.Some? ==> after.attempts == l.attempts)
            && (error.None? ==> J.Payload(op).Ok? && J.Refusal(l.attempts, op).None? && l.next.Some?
                                && after.attempts == J.Record(l.attempts, op, l.next.value, J.Payload(op).value))
  {
    hide PutFrame, J.Payload, J.Refusal, J.Record, J.Kind;
  }

  lemma RecordIsLater(attempts: Attempts, op: J.Op, sequence: u64, payload: Str)
    requires J.Refusal(attempts, op).None?
    ensures AttemptsLater(attempts, J.Record(attempts, op, sequence, payload))
  {
  }

  lemma JournalLater(l: J.Log, op: J.Op, io: J.Io)
    ensures AttemptsLater(l.attempts, J.Apply(l, op, io).0.attempts)
  {
    hide J.Apply, J.Payload, J.Refusal, J.Record;
    ApplyAttempts(l, op, io);
    if J.Apply(l, op, io).1.None? {
      RecordIsLater(l.attempts, op, l.next.value, J.Payload(op).value);
    }
  }

  lemma BackedLater(entries: seq<Entry>, a: Attempts, b: Attempts)
    requires AllBacked(entries, a) && AttemptsLater(a, b)
    ensures AllBacked(entries, b)
  {
    hide AttemptCodec.EncodeAttempt;
  }

  /** A fresh trail starts at identity zero, in agreement with its empty journal. */
  lemma FreshTrailExact(l: J.Log)
    ensures FreshTrail(l).Ok? <==> !l.unusable && l.attempts == map[]
    ensures FreshTrail(l).Ok? ==>
              Valid(FreshTrail(l).value) && FreshTrail(l).value.next == Some(0) && FreshTrail(l).value.instance == 0 && FreshTrail(l).value.entries == []
    ensures FreshTrail(l) == Err(Durable(JournalUnavailable)) <==> l.unusable
    ensures FreshTrail(l).Err? && !l.unusable ==>
              && Ascending(FreshTrail(l).error.attempts)
              && forall id :: id in FreshTrail(l).error.attempts <==> id in l.attempts
  {
    hide Sorted;
    assert l.attempts.Keys == {} ==> l.attempts == map[];
  }

  // ----- start -------------------------------------------------------------

  /** What a successful start leaves behind: a durable `Started` record for exactly this request set. */
  predicate StartedAt(t: Trail, i: nat, m: AttemptCodec.Metadata) {
    && i < |t.entries| && t.entries[i].metadata == m && t.entries[i].outcome == Started
    && (t.backend.Some? ==> t.entries[i].id in t.backend.value.attempts
                            && t.backend.value.attempts[t.entries[i].id].outcome == Started
                            && AttemptCodec.EncodeAttempt(m) == Ok(t.backend.value.attempts[t.entries[i].id].payload))
  }

  lemma StartValid(t: Trail, caller: SubjectId, capability: CapId, requests: RequestSet, epoch: u64, io: J.Io)
    requires Valid(t)
    ensures var (u, r) := StartSet(t, caller, capability, requests, epoch, io);
            && Valid(u) && Later(t, u)
            && (u.backend.Some? ==> forall id :: id in t.backend.value.attempts ==>
                                      id in u.backend.value.attempts && u.backend.value.attempts[id] == t.backend.value.attempts[id])
            && (r.Ok? ==> |u.entries| == |t.entries| + 1 && u.entries[..|t.entries|] == t.entries && u.entries[|t.entries|].id == r.value
                          && StartedAt(u, |t.entries|, AttemptCodec.Metadata(t.instance, caller, capability, epoch, requests)))
            && (r.Err? ==> u.entries == t.entries && u.next == t.next)
  {
    hide J.Apply, AttemptCodec.EncodeAttempt, NextAttempt;
    if t.next.Some? && t.backend.Some? {
      var l, m := t.backend.value, AttemptCodec.Metadata(t.instance, caller, capability, epoch, requests);
      var op := J.Begin(t.next.value, m);
      ApplyAttempts(l, op, io);
      JournalLater(l, op, io);
      var after := J.Apply(l, op, io).0;
      BackedLater(t.entries, l.attempts, after.attempts);
      if J.Apply(l, op, io).1.None? {
        NextAfterStart(l.attempts, Begun(t.next.value, l.next.value, J.Payload(op).value));
      }
    }
  }

  /** An identity the trail hands out is never one the journal has already seen. */
  lemma StartNeverReplays(t: Trail, caller: SubjectId, capability: CapId, requests: RequestSet, epoch: u64, io: J.Io, id: AttemptId)
    requires Valid(t)
    ensures StartSet(t, caller, capability, requests, epoch, io).1 != Err(Durable(ReplayDetected(id)))
  {
    hide PutFrame, AttemptCodec.EncodeAttempt;
  }

  // ----- finish ------------------------------------------------------------

  /** A durable finish touches one record and no identity. */
  lemma FinishAttempts(l: J.Log, id: AttemptId, outcome: Outcome, receipt: Option<Receipt>, evidence: Option<Evidence>, io: J.Io)
    ensures var (after, error) := J.Apply(l, J.Finish(id, outcome, receipt, evidence), io);
            && after.attempts.Keys == l.attempts.Keys
            && (forall x :: x in l.attempts && x != id ==> after.attempts[x] == l.attempts[x])
            && (error.None? ==> id in after.attempts && after.attempts[id].outcome == outcome
                                && after.attempts[id].receipt == receipt && after.attempts[id].evidence == evidence)
            && (error.Some? ==> after.attempts == l.attempts)
  {
    hide J.Apply, J.Payload;
    var op := J.Finish(id, outcome, receipt, evidence);
    ApplyAttempts(l, op, io);
    var (after, error) := J.Apply(l, op, io);
    if error.None? {
      assert id in l.attempts;
      assert after.attempts == J.Record(l.attempts, op, l.next.value, J.Payload(op).value);
    }
  }

  lemma FinishValid(t: Trail, i: nat, outcome: Outcome, receipt: Option<Receipt>, evidence: Option<Evidence>, io: J.Io)
    requires Valid(t) && i < |t.entries|
    ensures var (u, error) := FinishDurably(t, i, outcome, receipt, evidence, io);
            && Valid(u) && Later(t, u) && u.entries == t.entries && u.next == t.next
            && (error.None? && u.backend.Some? ==>
                  var id := t.entries[i].id;
                  && id in u.backend.value.attempts && u.backend.value.attempts[id].outcome == outcome
                  && u.backend.value.attempts[id].receipt == receipt && u.backend.value.attempts[id].evidence == evidence)
            && (error.Some? && u.backend.Some? ==> u.backend.value.attempts == t.backend.value.attempts)
            && (u.backend.Some? ==> forall id :: id in t.backend.value.attempts && id != t.entries[i].id ==>
                                      id in u.backend.value.attempts && u.backend.value.attempts[id] == t.backend.value.attempts[id])
  {
    hide J.Apply, NextAttempt, Backed, AttemptsLater;
    if t.backend.Some? {
      assert Backed(t.entries[i], t.backend.value.attempts);
      var l, op := t.backend.value, J.Finish(t.entries[i].id, outcome, receipt, evidence);
      FinishAttempts(l, t.entries[i].id, outcome, receipt, evidence, io);
      JournalLater(l, op, io);
      var after := J.Apply(l, op, io).0;
      BackedLater(t.entries, l.attempts, after.attempts);
      NextByKeys(l.attempts, after.attempts);
    }
  }

  lemma StoreValid(t: Trail, i: nat, outcome: Outcome)
    requires Valid(t) && i < |t.entries| && t.entries[i].outcome == Started
    requires t.backend.Some? ==> t.backend.value.attempts[t.entries[i].id].outcome == outcome
    ensures Valid(Store(t, i, outcome)) && Later(t, Store(t, i, outcome))
  {
    hide AttemptCodec.EncodeAttempt, NextAttempt;
  }

  // ----- effects -----------------------------------------------------------

  /** Exactly the committed entries, in start order and each once. */
  lemma {:induction false} EffectsExact(entries: seq<Entry>)
    requires Ordered(entries)
    ensures Ordered(Effects(entries))
    ensures forall e :: e in Effects(entries) <==> e in entries && e.outcome.Committed?
    decreases |entries|
  {
    if entries != [] {
      var front, last := entries[..|entries| - 1], entries[|entries| - 1];
      EffectsExact(front);
      assert entries == front + [last];
      forall e | e in Effects(front) ensures e.id < last.id {
        var k :| 0 <= k < |front| && front[k] == e;
        assert entries[k].id < entries[|entries| - 1].id;
      }
    }
  }
}
