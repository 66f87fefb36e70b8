/**
 Many process lifetimes on one journal: each opens the bytes the last one
 left, recovers, starts and finishes attempts under its own state instance,
 and may stop at any point, inside recovery or an append included.
 */
module Lifetimes {
  import opened Bytes
  import opened Order
  import opened Capability
  import AttemptCodec
  import opened Journal
  import JournalCodec
  import J = JournalLog
  import opened Audit
  import opened Recovery

  /** `birth` is history: the lifetime that wrote each attempt's start record. */
  datatype World = World(trail: Trail, log: J.Log, alive: bool, life: nat, birth: map<AttemptId, nat>)

  datatype Event =
    | Starts(caller: SubjectId, capability: CapId, requests: RequestSet, epoch: u64, startIo: J.Io)
    // the durable half of a finish, and the memory store that follows it
    | Finishes(i: nat, outcome: Outcome, receipt: Option<Receipt>, evidence: Option<Evidence>, finishIo: J.Io)
    | Publishes(at: nat)
    | Reconciles(id: AttemptId, verdict: Verdict, reconcileIo: J.Io)
    | Restarts(recoverIo: AttemptId -> J.Io)

  /** The instance `decode_attempt_payload` reads from a version 2 payload. */
  function InstanceOf(a: Attempt): u64 {
    if |a.payload| >= 9 then Pow256Values(); FromLittleEndian(a.payload[1..9]) else 0
  }

  function WithLog(w: World, l: J.Log): World {
    w.(log := l, trail := w.trail.(backend := Some(l)))
  }

  /** Events a stopped process cannot perform, and a journal no open accepts, leave the world as it is. */
  function Step(w: World, e: Event): World {
    match e
    case Starts(caller, capability, requests, epoch, io) =>
      if !w.alive then w
      else
        var (t, r) := StartSet(w.trail, caller, capability, requests, epoch, io);
        if t.backend.None? then w
        else w.(trail := t, log := t.backend.value, birth := if r.Ok? then w.birth[r.value := w.life] else w.birth)
    case Finishes(i, outcome, receipt, evidence, io) =>
      if !w.alive || i >= |w.trail.entries| then w
      else
        var t := FinishDurably(w.trail, i, outcome, receipt, evidence, io).0;
        if t.backend.None? then w else w.(trail := t, log := t.backend.value)
    case Publishes(i) =>
      if !w.alive || i >= |w.trail.entries| || w.trail.entries[i].outcome != Started || w.trail.entries[i].id !in w.log.attempts then w
      else w.(trail := Store(w.trail, i, w.log.attempts[w.trail.entries[i].id].outcome))
    case Reconciles(id, verdict, io) =>
      if JournalCodec.EmptyToken(verdict) then w else WithLog(w, J.Apply(w.log, J.Reconcile(id, verdict), io).0)
    case Restarts(io) =>
      match J.Open(w.log.disk, w.log.capacity)
      case Err(_) => w.(alive := false, life := w.life + 1)
      case Ok(l) =>
        var birth := Inherit(w.birth, w.life, l.attempts);
        var (after, r) := Recover(l, io);
        match r
        case Ok((trail, _)) => World(trail, after, true, w.life + 1, birth)
        case Err(_) => World(w.trail.(backend := Some(after)), after, false, w.life + 1, birth)
  }

  function Run(w: World, es: seq<Event>): World
    decreases |es|
  {
    if es == [] then w else Run(Step(w, es[0]), es[1..])
  }

  /** A fresh journal under its first kernel. */
  function First(capacity: nat): World {
    var l := J.Log([], Some(0), map[], false, 0, capacity);
    World(Trail(Some(0), [], 0, Some(l)), l, true, 0, map[])
  }

  // ----- invariant ---------------------------------------------------------

  /** Every attempt of a later life has an instance above every identity of an earlier life. */
  predicate InstancesApart(attempts: Attempts, birth: map<AttemptId, nat>) {
    && attempts.Keys == birth.Keys
    && (forall a :: a in attempts ==> InstanceOf(attempts[a]) <= a)
    && (forall a, b :: a in attempts && b in attempts && birth[a] < birth[b] ==> a < InstanceOf(attempts[b]))
    && (forall a, b :: a in attempts && b in attempts && birth[a] == birth[b] ==> InstanceOf(attempts[a]) == InstanceOf(attempts[b]))
  }

  /** The running life writes its own instance, above everything it inherited and found closed. */
  predicate OwnInstance(attempts: Attempts, birth: map<AttemptId, nat>, life: nat, instance: u64, next: Option<u64>) {
    && attempts.Keys == birth.Keys
    && (next.Some? ==> instance <= next.value)
    && forall a :: a in attempts ==>
         && birth[a] <= life
         && (birth[a] == life ==> InstanceOf(attempts[a]) == instance)
         && (birth[a] < life ==> a < instance && attempts[a].outcome != Started)
  }

  /** Bytes that open show the attempts in memory, or those and one start of the running life. */
  predicate DiskOwned(w: World) {
    var o := J.Open(w.log.disk, w.log.capacity);
    o.Ok? ==>
      && AttemptsLater(w.log.attempts, o.value.attempts)
      && forall id :: id in o.value.attempts && id !in w.log.attempts ==>
           w.alive && w.trail.next == Some(id) && InstanceOf(o.value.attempts[id]) == w.trail.instance
  }

  ghost predicate Valid(w: World) {
    && w.trail.backend == Some(w.log)
    && J.Valid(w.log)
    && InstancesApart(w.log.attempts, w.birth)
    && (forall a :: a in w.birth ==> w.birth[a] <= w.life)
    && (w.alive ==> Audit.Valid(w.trail) && OwnInstance(w.log.attempts, w.birth, w.life, w.trail.instance, w.trail.next))
    && (!w.alive ==> forall a :: a in w.birth ==> w.birth[a] < w.life)
    && DiskOwned(w)
  }

  lemma AttemptsLaterTransitive(a: Attempts, b: Attempts, c: Attempts)
    requires AttemptsLater(a, b) && AttemptsLater(b, c)
    ensures AttemptsLater(a, c)
  {
  }

  // ----- instances ---------------------------------------------------------

  lemma EncodedInstance(m: AttemptCodec.Metadata)
    requires AttemptCodec.EncodeAttempt(m).Ok?
    ensures var p := AttemptCodec.EncodeAttempt(m).value;
            |p| >= 9 && p[0] == 2 && FromLittleEndian(p[1..9]) == m.instance
  {
    hide LittleEndian, AttemptCodec.PutRequests;
    var p := AttemptCodec.EncodeAttempt(m).value;
    assert p[1..9] == LittleEndian(m.instance, 8);
    Pow256Values();
    LittleEndianRoundTrip(m.instance, 8);
  }

  /** What the decoder reports for a record this writer made is the instance the invariant speaks of. */
  lemma DecodedInstance(a: Attempt, isIp: Str -> bool)
    requires a.payload != [] && a.payload[0] == 2 && AttemptCodec.DecodeAttempt(a.payload, isIp).Some?
    ensures AttemptCodec.DecodeAttempt(a.payload, isIp).value.instance == InstanceOf(a)
  {
    hide FromLittleEndian, AttemptCodec.DecodeBody;
    assert a.payload[1..][..8] == a.payload[1..9];
    BodyInstance(InstanceOf(a), a.payload[9..], isIp);
    assert a.payload[1..][8..] == a.payload[9..];
  }

  lemma BodyInstance(instance: u64, b: Str, isIp: Str -> bool)
    ensures AttemptCodec.DecodeBody(instance, b, isIp).Some? ==> AttemptCodec.DecodeBody(instance, b, isIp).value.instance == instance
  {
    hide AttemptCodec.TakeRequests, AttemptCodec.TakeText, AttemptCodec.TakeU64, AttemptCodec.TakeU32;
  }

  lemma ApartSame(a: Attempts, b: Attempts, birth: map<AttemptId, nat>)
    requires InstancesApart(a, birth) && AttemptsLater(a, b) && a.Keys == b.Keys
    ensures InstancesApart(b, birth)
  {
    hide InstanceOf;
    forall x | x in a ensures InstanceOf(a[x]) == InstanceOf(b[x]) {
      SameInstance(a[x], b[x]);
    }
  }

  lemma SameInstance(a: Attempt, b: Attempt)
    requires a.payload == b.payload
    ensures InstanceOf(a) == InstanceOf(b)
  {
  }

  lemma OwnSame(a: Attempts, b: Attempts, birth: map<AttemptId, nat>, life: nat, instance: u64, next: Option<u64>)
    requires OwnInstance(a, birth, life, instance, next) && AttemptsLater(a, b) && a.Keys == b.Keys
    ensures OwnInstance(b, birth, life, instance, next)
  {
    hide InstanceOf;
    forall x | x in a ensures InstanceOf(a[x]) == InstanceOf(b[x]) {
      SameInstance(a[x], b[x]);
    }
  }

  /** One more start of the running life keeps every instance apart. */
  lemma ApartExtended(attempts: Attempts, birth: map<AttemptId, nat>, life: nat, instance: u64, id: AttemptId, a: Attempt)
    requires InstancesApart(attempts, birth) && OwnInstance(attempts, birth, life, instance, Some(id))
    requires id !in attempts && InstanceOf(a) == instance
    ensures InstancesApart(attempts[id := a], birth[id := life])
  {
    hide InstanceOf;
    var more, born := attempts[id := a], birth[id := life];
    assert more.Keys == born.Keys;
  }

  lemma OwnExtended(attempts: Attempts, birth: map<AttemptId, nat>, life: nat, instance: u64, id: AttemptId, a: Attempt)
    requires OwnInstance(attempts, birth, life, instance, Some(id))
    requires id !in attempts && InstanceOf(a) == instance
    ensures OwnInstance(attempts[id := a], birth[id := life], life, instance, CheckedNext(id))
  {
    hide InstanceOf;
    var more, born := attempts[id := a], birth[id := life];
    assert more.Keys == born.Keys;
  }

  // ----- starts ------------------------------------------------------------

  function MetadataOf(w: World, e: Event): AttemptCodec.Metadata
    requires e.Starts?
  {
    AttemptCodec.Metadata(w.trail.instance, e.caller, e.capability, e.epoch, e.requests)
  }

  /** The durable record a start leaves when its frame reaches the disk. */
  lemma StartRecord(w: World, e: Event, l: J.Log)
    requires e.Starts? && w.trail.next.Some?
    requires var op := J.Begin(w.trail.next.value, MetadataOf(w, e));
             J.Payload(op).Ok? && l.next.Some? && w.trail.next.value !in w.log.attempts
    ensures var op := J.Begin(w.trail.next.value, MetadataOf(w, e));
            var a := Begun(w.trail.next.value, l.next.value, J.Payload(op).value);
            && InstanceOf(a) == w.trail.instance
            && J.Refusal(w.log.attempts, op).None?
            && J.Record(w.log.attempts, op, l.next.value, J.Payload(op).value) == w.log.attempts[w.trail.next.value := a]
  {
    hide AttemptCodec.EncodeAttempt, InstanceOf;
    StartInstance(MetadataOf(w, e), w.trail.next.value, l.next.value);
  }

  lemma StartInstance(m: AttemptCodec.Metadata, id: AttemptId, sequence: u64)
    requires AttemptCodec.EncodeAttempt(m).Ok?
    ensures InstanceOf(Begun(id, sequence, AttemptCodec.EncodeAttempt(m).value)) == m.instance
  {
    hide AttemptCodec.EncodeAttempt, FromLittleEndian;
    EncodedInstance(m);
  }

  lemma SealedUnchanged(l: J.Log, op: J.Op, io: J.Io)
    requires l.unusable
    ensures J.Apply(l, op, io).0 == l && J.Apply(l, op, io).1.Some?
  {
    hide J.Payload;
  }

  lemma SuccessUnsealed(l: J.Log, op: J.Op, io: J.Io)
    requires J.Apply(l, op, io).1.None?
    ensures !J.Apply(l, op, io).0.unusable && J.Apply(l, op, io).0.capacity == l.capacity
    ensures io.Synced? && J.Accepted(l, op)
  {
    hide J.Payload, J.Refusal, J.Record, J.Kind, PutFrame;
  }

  lemma CapacityKept(l: J.Log, op: J.Op, io: J.Io)
    ensures J.Apply(l, op, io).0.capacity == l.capacity
  {
    hide J.Payload, J.Refusal, J.Record, J.Kind, PutFrame;
  }

  /** What the bytes of any one operation open to, in terms of the attempt map. */
  lemma DiskAfter(l: J.Log, op: J.Op, io: J.Io)
    requires J.Valid(l) && !J.WritesEmptyToken(l, op)
    ensures var (after, error) := J.Apply(l, op, io);
            var found := J.Open(after.disk, after.capacity);
            && J.Valid(after)
            && (error.Some? && !l.unusable && found.Ok? ==>
                  || found.value.attempts == l.attempts
                  || (J.Accepted(l, op) && found.value.attempts == J.Record(l.attempts, op, l.next.value, J.Payload(op).value)))
            && (error.None? ==> found == Ok(after))
            && (l.unusable ==> after == l)
  {
    hide J.Valid, J.Apply, J.Payload, J.Refusal, J.Record, J.Open;
    J.ApplyValid(l, op, io);
    CapacityKept(l, op, io);
    var (after, error) := J.Apply(l, op, io);
    if l.unusable {
      SealedUnchanged(l, op, io);
    } else if error.None? {
      SuccessUnsealed(l, op, io);
      J.OpenExact(after);
    } else {
      J.CrashSafe(l, op, io);
      ApplyAttempts(l, op, J.Synced);
    }
  }

  lemma StartStep(w: World, e: Event)
    requires Valid(w) && e.Starts?
    ensures Valid(Step(w, e)) && AttemptsLater(w.log.attempts, Step(w, e).log.attempts)
  {
    hide J.Valid, J.Apply, J.Payload, J.Refusal, J.Record, J.Open, InstanceOf, InstancesApart, OwnInstance, Audit.Valid, NextAttempt;
    hide FinishDurably, Store, Recover, Inherit, AttemptsLater;
    AttemptsLaterReflexive(w.log.attempts);
    if w.alive && w.trail.next.Some? {
      StartValid(w.trail, e.caller, e.capability, e.requests, e.epoch, e.startIo);
      var l, id, op := w.log, w.trail.next.value, J.Begin(w.trail.next.value, MetadataOf(w, e));
      FreshIdentity(w);
      DiskAfter(l, op, e.startIo);
      ApplyAttempts(l, op, e.startIo);
      var (after, error) := J.Apply(l, op, e.startIo);
      AttemptsLaterReflexive(after.attempts);
      if J.Accepted(l, op) {
        StartRecord(w, e, l);
        var a := Begun(id, l.next.value, J.Payload(op).value);
        ExtendedLater(l.attempts, id, a);
        ApartExtended(l.attempts, w.birth, w.life, w.trail.instance, id, a);
        OwnExtended(l.attempts, w.birth, w.life, w.trail.instance, id, a);
      }
    }
  }

  lemma ExtendedLater(attempts: Attempts, id: AttemptId, a: Attempt)
    requires id !in attempts
    ensures AttemptsLater(attempts, attempts[id := a])
  {
  }

  lemma FreshIdentity(w: World)
    requires w.trail.backend == Some(w.log) && Audit.Valid(w.trail) && w.trail.next.Some?
    ensures w.trail.next.value !in w.log.attempts
  {
  }

  // ----- finishes and verdicts ---------------------------------------------

  /** A finish or a verdict rewrites one record and adds none. */
  lemma QuietRecord(attempts: Attempts, op: J.Op, sequence: u64, payload: Str)
    requires !op.Begin? && J.Refusal(attempts, op).None?
    ensures J.Record(attempts, op, sequence, payload).Keys == attempts.Keys
    ensures AttemptsLater(attempts, J.Record(attempts, op, sequence, payload))
  {
  }

  lemma QuietLog(w: World, op: J.Op, io: J.Io)
    requires Valid(w) && !op.Begin? && !(op.Reconcile? && JournalCodec.EmptyToken(op.verdict))
    ensures var after := J.Apply(w.log, op, io).0;
            && J.Valid(after) && after.attempts.Keys == w.log.attempts.Keys && AttemptsLater(w.log.attempts, after.attempts)
            && InstancesApart(after.attempts, w.birth)
            && (w.alive ==> OwnInstance(after.attempts, w.birth, w.life, w.trail.instance, w.trail.next))
            && forall t: Trail :: t.next == w.trail.next && t.instance == w.trail.instance ==> DiskOwned(w.(log := after, trail := t))
  {
    hide J.Valid, J.Apply, J.Payload, J.Refusal, J.Record, J.Open, InstanceOf, InstancesApart, OwnInstance, Audit.Valid;
    var l := w.log;
    DiskAfter(l, op, io);
    ApplyAttempts(l, op, io);
    if J.Accepted(l, op) {
      QuietRecord(l.attempts, op, l.next.value, J.Payload(op).value);
    }
    var after := J.Apply(l, op, io).0;
    ApartSame(l.attempts, after.attempts, w.birth);
    if w.alive {
      OwnSame(l.attempts, after.attempts, w.birth, w.life, w.trail.instance, w.trail.next);
    }
  }

  lemma FinishStep(w: World, e: Event)
    requires Valid(w) && e.Finishes?
    ensures Valid(Step(w, e)) && AttemptsLater(w.log.attempts, Step(w, e).log.attempts)
  {
    hide J.Valid, J.Apply, J.Open, InstancesApart, OwnInstance, DiskOwned, Audit.Valid, AttemptsLater, StartSet, Recover, Inherit;
    AttemptsLaterReflexive(w.log.attempts);
    if w.alive && e.i < |w.trail.entries| {
      var op := J.Finish(w.trail.entries[e.i].id, e.outcome, e.receipt, e.evidence);
      QuietLog(w, op, e.finishIo);
      FinishValid(w.trail, e.i, e.outcome, e.receipt, e.evidence, e.finishIo);
    }
  }

  /** The memory store copies the durable outcome and touches nothing on disk. */
  lemma PublishStep(w: World, e: Event)
    requires Valid(w) && e.Publishes?
    ensures Valid(Step(w, e)) && AttemptsLater(w.log.attempts, Step(w, e).log.attempts)
  {
    hide J.Valid, J.Open, InstanceOf, InstancesApart, OwnInstance, Audit.Valid, AttemptsLater;
    hide StartSet, FinishDurably, Recover, Inherit;
    AttemptsLaterReflexive(w.log.attempts);
    var n := Step(w, e);
    if n != w {
      StoreValid(w.trail, e.at, w.log.attempts[w.trail.entries[e.at].id].outcome);
    }
  }

  lemma ReconcileStep(w: World, e: Event)
    requires Valid(w) && e.Reconciles?
    ensures Valid(Step(w, e)) && AttemptsLater(w.log.attempts, Step(w, e).log.attempts)
  {
    hide J.Valid, J.Apply, J.Open, InstancesApart, OwnInstance, DiskOwned, NextAttempt, Backed, AttemptsLater;
    hide StartSet, FinishDurably, Store, Recover, Inherit;
    AttemptsLaterReflexive(w.log.attempts);
    if !JournalCodec.EmptyToken(e.verdict) {
      var op := J.Reconcile(e.id, e.verdict);
      QuietLog(w, op, e.reconcileIo);
      var after := J.Apply(w.log, op, e.reconcileIo).0;
      if w.alive {
        NextByKeys(w.log.attempts, after.attempts);
        BackedLater(w.trail.entries, w.log.attempts, after.attempts);
      }
    }
  }

  lemma AttemptsLaterReflexive(a: Attempts)
    ensures AttemptsLater(a, a)
  {
  }

  // ----- restarts ----------------------------------------------------------

  /** The attempts found on disk, dated by the lives that wrote them. */
  function Inherit(birth: map<AttemptId, nat>, life: nat, found: Attempts): map<AttemptId, nat> {
    map id | id in found :: if id in birth then birth[id] else life
  }

  lemma InheritSame(attempts: Attempts, found: Attempts, birth: map<AttemptId, nat>, life: nat)
    requires InstancesApart(attempts, birth) && AttemptsLater(attempts, found) && found.Keys == attempts.Keys
    ensures Inherit(birth, life, found) == birth && InstancesApart(found, birth)
  {
    hide InstanceOf, RecordLater;
    ApartSame(attempts, found, birth);
  }

  lemma InheritOne(attempts: Attempts, found: Attempts, birth: map<AttemptId, nat>, life: nat, instance: u64, x: AttemptId)
    requires InstancesApart(attempts, birth) && OwnInstance(attempts, birth, life, instance, Some(x))
    requires AttemptsLater(attempts, found) && found.Keys == attempts.Keys + {x} && x !in attempts
    requires InstanceOf(found[x]) == instance
    ensures InstancesApart(found, Inherit(birth, life, found))
  {
    hide InstanceOf, InstancesApart, RecordLater;
    var before := found - {x};
    assert before.Keys == attempts.Keys;
    ApartSame(attempts, before, birth);
    OwnSame(attempts, before, birth, life, instance, Some(x));
    ApartExtended(before, birth, life, instance, x, found[x]);
    assert before[x := found[x]] == found;
    assert birth[x := life] == Inherit(birth, life, found) by {
      assert birth[x := life].Keys == found.Keys;
    }
  }

  lemma InheritApart(w: World, l: J.Log)
    requires Valid(w) && J.Open(w.log.disk, w.log.capacity) == Ok(l)
    ensures InstancesApart(l.attempts, Inherit(w.birth, w.life, l.attempts))
    ensures forall a :: a in l.attempts ==> Inherit(w.birth, w.life, l.attempts)[a] <= w.life
  {
    hide J.Valid, J.Open, InstanceOf, Audit.Valid, InstancesApart, OwnInstance, RecordLater;
    if extra :| extra in l.attempts && extra !in w.log.attempts {
      assert l.attempts.Keys == w.log.attempts.Keys + {extra};
      InheritOne(w.log.attempts, l.attempts, w.birth, w.life, w.trail.instance, extra);
    } else {
      assert l.attempts.Keys == w.log.attempts.Keys;
      InheritSame(w.log.attempts, l.attempts, w.birth, w.life);
    }
  }

  lemma {:induction false} ClosingDisk(l: J.Log, inherited: Attempts, ids: seq<AttemptId>, io: AttemptId -> J.Io, done: seq<AttemptId>)
    requires J.Valid(l) && !l.unusable
    ensures var (after, closed) := CloseStarted(l, inherited, ids, io, done);
            var found := J.Open(after.disk, after.capacity);
            && AttemptsLater(l.attempts, after.attempts) && after.attempts.Keys == l.attempts.Keys
            && (found.Ok? ==> AttemptsLater(after.attempts, found.value.attempts) && found.value.attempts.Keys == after.attempts.Keys)
    decreases |ids|
  {
    hide J.Valid, J.Apply, J.Payload, J.Refusal, J.Record, J.Open, RecoveredEvidence, AttemptsLater;
    AttemptsLaterReflexive(l.attempts);
    if ids == [] {
      J.OpenExact(l);
    } else if ids[0] !in inherited || inherited[ids[0]].outcome != Started {
      ClosingDisk(l, inherited, ids[1..], io, done);
    } else {
      var op := RecoveryFinish(ids[0]);
      var (after, error) := J.Apply(l, op, io(ids[0]));
      DiskAfter(l, op, io(ids[0]));
      ApplyAttempts(l, op, io(ids[0]));
      if J.Accepted(l, op) {
        QuietRecord(l.attempts, op, l.next.value, J.Payload(op).value);
      }
      if error.None? {
        SuccessUnsealed(l, op, io(ids[0]));
        ClosingDisk(after, inherited, ids[1..], io, done + [ids[0]]);
        AttemptsLaterTransitive(l.attempts, after.attempts, CloseStarted(after, inherited, ids[1..], io, done + [ids[0]]).0.attempts);
      }
    }
  }

  /** What recovery leaves behind, whichever way it ends. */
  lemma RecoverDisk(l: J.Log, io: AttemptId -> J.Io)
    requires J.Valid(l) && !l.unusable
    ensures var after := Recover(l, io).0;
            var found := J.Open(after.disk, after.capacity);
            && J.Valid(after) && AttemptsLater(l.attempts, after.attempts) && after.attempts.Keys == l.attempts.Keys
            && (found.Ok? ==> AttemptsLater(after.attempts, found.value.attempts) && found.value.attempts.Keys == after.attempts.Keys)
  {
    hide J.Valid, J.Open, CloseStarted, AttemptsLater, NextAttempt, Sorted;
    ClosingDisk(l, l.attempts, Sorted(l.attempts.Keys), io, []);
    AttemptsLaterReflexive(l.attempts);
    J.OpenExact(l);
    RecoverKeepsJournal(l, io);
  }

  lemma RestartWorld(w: World, l: J.Log, io: AttemptId -> J.Io)
    requires Valid(w) && J.Valid(l) && !l.unusable
    requires J.Open(w.log.disk, w.log.capacity) == Ok(l)
    ensures Valid(Step(w, Restarts(io)))
  {
    hide J.Valid, J.Open, InstanceOf, InstancesApart, OwnInstance, Audit.Valid, Recover, AttemptsLater, TerminalKept, ClosedExcept, StartedIds, Sorted;
    hide Step, DiskOwned, Recovered;
    RestartIs(w, l, io);
    InheritApart(w, l);
    RecoverDisk(l, io);
    RecoverExact(l, io);
    var (after, r) := Recover(l, io);
    var birth := Inherit(w.birth, w.life, l.attempts);
    ApartSame(l.attempts, after.attempts, birth);
    Inherited(birth, l.attempts, after.attempts, w.life);
    NoStray(Step(w, Restarts(io)));
    if r.Ok? {
      NewLife(birth, after, r.value.0, l.attempts, r.value.1, w.life);
    }
  }

  lemma RestartIs(w: World, l: J.Log, io: AttemptId -> J.Io)
    requires J.Open(w.log.disk, w.log.capacity) == Ok(l)
    ensures var (after, r) := Recover(l, io);
            var birth := Inherit(w.birth, w.life, l.attempts);
            Step(w, Restarts(io)) ==
              if r.Ok? then World(r.value.0, after, true, w.life + 1, birth)
              else World(w.trail.(backend := Some(after)), after, false, w.life + 1, birth)
  {
    hide J.Open, Recover, Inherit, StartSet, FinishDurably, Store;
  }

  /** Bytes that open to the identities in memory leave nothing for the disk to own. */
  lemma NoStray(w: World)
    requires var found := J.Open(w.log.disk, w.log.capacity);
             found.Ok? ==> AttemptsLater(w.log.attempts, found.value.attempts) && found.value.attempts.Keys == w.log.attempts.Keys
    ensures DiskOwned(w)
  {
    hide J.Open, AttemptsLater;
  }

  lemma Inherited(birth: map<AttemptId, nat>, found: Attempts, now: Attempts, life: nat)
    requires birth.Keys == found.Keys == now.Keys && forall a :: a in found ==> birth[a] <= life
    ensures forall a :: a in birth ==> birth[a] < life + 1
  {
  }

  /** The state a successful recovery hands to the next life. */
  lemma NewLife(birth: map<AttemptId, nat>, after: J.Log, trail: Trail, inherited: Attempts, report: AuditRecovery, life: nat)
    requires Recovered(inherited, after, trail, report)
    requires birth.Keys == after.attempts.Keys && forall a :: a in birth ==> birth[a] < life + 1
    ensures trail.backend == Some(after) && Audit.Valid(trail)
    ensures OwnInstance(after.attempts, birth, life + 1, trail.instance, trail.next)
  {
    hide InstanceOf, ClosedExcept, Audit.Valid, StartedIds, Sorted;
  }

  lemma RestartStep(w: World, e: Event)
    requires Valid(w) && e.Restarts?
    ensures Valid(Step(w, e)) && AttemptsLater(w.log.attempts, Step(w, e).log.attempts)
  {
    hide J.Valid, J.Open, InstancesApart, OwnInstance, Audit.Valid, Recover, AttemptsLater;
    AttemptsLaterReflexive(w.log.attempts);
    var found := J.Open(w.log.disk, w.log.capacity);
    if found.Ok? {
      var l := found.value;
      J.OpenValid(w.log.disk, w.log.capacity);
      OpenUnsealed(w.log.disk, w.log.capacity);
      RestartWorld(w, l, e.recoverIo);
      RecoverDisk(l, e.recoverIo);
      RecoverExact(l, e.recoverIo);
      AttemptsLaterTransitive(w.log.attempts, l.attempts, Recover(l, e.recoverIo).0.attempts);
    }
  }

  lemma OpenUnsealed(disk: Str, capacity: nat)
    requires J.Open(disk, capacity).Ok?
    ensures !J.Open(disk, capacity).value.unusable
  {
  }

  // ----- whole histories ---------------------------------------------------

  lemma StepValid(w: World, e: Event)
    requires Valid(w)
    ensures Valid(Step(w, e)) && AttemptsLater(w.log.attempts, Step(w, e).log.attempts)
  {
    hide Valid, Step, AttemptsLater;
    match e
    case Starts(_, _, _, _, _) => StartStep(w, e);
    case Finishes(_, _, _, _, _) => FinishStep(w, e);
    case Publishes(_) => PublishStep(w, e);
    case Reconciles(_, _, _) => ReconcileStep(w, e);
    case Restarts(_) => RestartStep(w, e);
  }

  /** Over any history of lives and crashes, no payload changes and no terminal outcome is undone. */
  lemma {:induction false} RunValid(w: World, es: seq<Event>)
    requires Valid(w)
    ensures Valid(Run(w, es)) && AttemptsLater(w.log.attempts, Run(w, es).log.attempts)
    decreases |es|
  {
    hide Valid, Step, AttemptsLater;
    if es == [] {
      AttemptsLaterReflexive(w.log.attempts);
    } else {
      StepValid(w, es[0]);
      RunValid(Step(w, es[0]), es[1..]);
      AttemptsLaterTransitive(w.log.attempts, Step(w, es[0]).log.attempts, Run(w, es).log.attempts);
    }
  }

  lemma FirstValid(capacity: nat)
    requires capacity <= MAX_JOURNAL_BYTES
    ensures Valid(First(capacity))
  {
    var l := First(capacity).log;
    assert Parse([], capacity) == Ok((Some(0), map[]));
    J.UnsealedValid(l);
  }

  /** Attempts of different lifetimes never carry the same state instance. */
  lemma LifetimesApart(capacity: nat, es: seq<Event>, a: AttemptId, b: AttemptId)
    requires capacity <= MAX_JOURNAL_BYTES
    requires var w := Run(First(capacity), es); a in w.log.attempts && b in w.log.attempts
    ensures var w := Run(First(capacity), es);
            && a in w.birth && b in w.birth
            && (w.birth[a] != w.birth[b] ==> InstanceOf(w.log.attempts[a]) != InstanceOf(w.log.attempts[b]))
  {
    hide J.Valid, InstanceOf, Audit.Valid, DiskOwned, Step, OwnInstance;
    FirstValid(capacity);
    RunValid(First(capacity), es);
  }

  /** While a life runs, nothing it inherited is still `Started`. */
  lemma NothingInheritedStarted(capacity: nat, es: seq<Event>, a: AttemptId)
    requires capacity <= MAX_JOURNAL_BYTES
    requires var w := Run(First(capacity), es); w.alive && a in w.log.attempts && a in w.birth && w.birth[a] < w.life
    ensures Run(First(capacity), es).log.attempts[a].outcome != Started
  {
    hide J.Valid, InstanceOf, Audit.Valid, DiskOwned, Step, InstancesApart;
    FirstValid(capacity);
    RunValid(First(capacity), es);
  }
}
