/** Whole kernel calls that nothing disturbs: how each ends, on record and for its caller. */
module KernelCalls {
  import opened Bytes
  import opened Capability
  import AttemptCodec
  import Journal
  import J = JournalLog
  import JD = JournalDecisions
  import S = State
  import SI = StateInvariant
  import A = Audit
  import opened K = Kernel
  import opened KernelInvariant
  import opened KernelTheorems

  // ----- runs of one thread ------------------------------------------------

  /** One more move in front of a run. */
  lemma Then(k: Kernel, t: Tid, m: Move, n: Kernel, rest: seq<(Tid, Move)>)
    requires Step(k, t, m) == n
    ensures Run(k, [(t, m)] + rest) == Run(n, rest)
  {
    hide Step;
    assert ([(t, m)] + rest)[1..] == rest;
  }

  lemma RunNone(k: Kernel)
    ensures Run(k, []) == k
  {
  }

  function MetadataOf(k: Kernel, call: Call): AttemptCodec.Metadata {
    AttemptCodec.Metadata(k.trail.instance, call.caller, call.capability, k.state.epoch, call.requests)
  }

  /** The trail once the attempt is recorded. */
  function Begun(k: Kernel, call: Call, io: J.Io): (A.Trail, Result<u64, A.AuditError>) {
    A.StartSet(k.trail, call.caller, call.capability, call.requests, k.state.epoch, io)
  }

  /** The moves from the call to the check. */
  function Opening(t: Tid, call: Call, rest: seq<(Tid, Move)>): seq<(Tid, Move)> {
    [(t, CallEffect(call))] + ([(t, Acquire)] + ([(t, Record(J.Synced))] + ([(t, Check)] + rest)))
  }

  /** The moves that put an outcome on record and end the call. */
  function Closing(t: Tid): seq<(Tid, Move)> {
    [(t, Persist(J.Synced))] + ([(t, Publish)] + ([(t, Release)] + []))
  }

  /** The kernel as the check is answered. */
  function Checked(k: Kernel, t: Tid, call: Call, pc: Pc): Kernel {
    k.(readers := k.readers + {t}, trail := Begun(k, call, J.Synced).0, threads := k.threads[t := pc])
  }

  lemma OpeningReaches(k: Kernel, t: Tid, call: Call, rest: seq<(Tid, Move)>)
    requires t !in k.threads && k.writer.None? && call.requests.complete && Begun(k, call, J.Synced).1.Ok?
    ensures var i := |k.trail.entries|;
            Run(k, Opening(t, call, rest)) ==
            Run(Checked(k, t, call, if AuthorizesAll(k.state, call) && call.capability in k.state.caps then Authorized(call, i)
                                    else Finishing(call, i, Journal.Denied, None, None)), rest)
  {
    hide AuthorizesAll, KernelSuccess, AfterExecution, Run, A.StartSet, TransitionStep, A.FinishDurably, A.Store;
    var i := |k.trail.entries|;
    var begun := Begun(k, call, J.Synced).0;
    var k1 := At(k, t, WantRead(call));
    var k2 := At(k1, t, Reading(call)).(readers := k.readers + {t});
    var k3 := At(k2, t, Recorded(call, i)).(trail := begun);
    var pc := if AuthorizesAll(k.state, call) && call.capability in k.state.caps then Authorized(call, i)
              else Finishing(call, i, Journal.Denied, None, None);
    var k4 := At(k3, t, pc);
    var s3 := [(t, Check)] + rest;
    var s2 := [(t, Record(J.Synced))] + s3;
    Then(k, t, CallEffect(call), k1, [(t, Acquire)] + s2);
    Then(k1, t, Acquire, k2, s2);
    Then(k2, t, Record(J.Synced), k3, s3);
    Then(k3, t, Check, k4, rest);
    assert k4.threads == k.threads[t := pc];
  }

  /** The durable half of the finish a thread is about to make. */
  function Finished(trail: A.Trail, pc: Pc): (A.Trail, Option<Journal.JournalError>)
    requires pc.Finishing? && pc.i < |trail.entries|
  {
    A.FinishDurably(trail, pc.i, pc.outcome, pc.receipt, pc.evidence, J.Synced)
  }

  /** From the decision to the reply. */
  lemma ClosingEnds(k: Kernel, t: Tid)
    requires t in k.threads && k.threads[t].Finishing? && k.threads[t].i < |k.trail.entries|
    requires Finished(k.trail, k.threads[t]).1.None? && Finished(k.trail, k.threads[t]).0.entries == k.trail.entries
    ensures var pc := k.threads[t];
            var stored := A.Store(Finished(k.trail, pc).0, pc.i, pc.outcome);
            Run(k, Closing(t)) ==
            k.(threads := k.threads - {t}, readers := k.readers - {t}, trail := stored,
               history := k.history + [Replied(pc.call, Some(pc.i), Saved(pc.outcome, pc.evidence), stored)])
  {
    hide AuthorizesAll, Run, TransitionStep, A.StartSet, A.FinishDurably, AfterExecution, Saved, Unsaved;
    var pc := k.threads[t];
    var reply := Saved(pc.outcome, pc.evidence);
    var k1 := At(k, t, Storing(pc.call, pc.i, pc.outcome, reply)).(trail := Finished(k.trail, pc).0);
    var k2 := At(k1, t, Leaving(pc.call, Some(pc.i), reply)).(trail := A.Store(k1.trail, pc.i, pc.outcome));
    var k3 := Log(k2.(readers := k.readers - {t}, threads := k2.threads - {t}), Replied(pc.call, Some(pc.i), reply, k2.trail));
    var s2 := [(t, Release)] + [];
    Then(k, t, Persist(J.Synced), k1, [(t, Publish)] + s2);
    Then(k1, t, Publish, k2, s2);
    Then(k2, t, Release, k3, []);
    RunNone(k3);
    assert k3.threads == k.threads - {t};
  }

  // ----- room in the journal -----------------------------------------------

  /**
   What a caller can check beforehand: an identity is left and, when there is
   a journal, it is usable and the start record and `finish` more bytes fit
   within its capacity.
   */
  predicate Room(trail: A.Trail, m: AttemptCodec.Metadata, finish: nat) {
    && trail.next.Some?
    && match trail.backend
       case None => true
       case Some(l) =>
         && !l.unusable && |AttemptCodec.PutAttempt(m)| <= 8_388_608
         && l.length + (40 + |AttemptCodec.PutAttempt(m)|) + finish <= l.capacity
  }

  /** The journal is as a writer leaves it: each sequence number has cost its bytes. */
  predicate Paced(trail: A.Trail) {
    trail.backend.Some? ==> JD.Paced(trail.backend.value)
  }

  /** A started attempt with `finish` bytes left for its end. */
  predicate Open(trail: A.Trail, i: nat, finish: nat) {
    && i < |trail.entries| && trail.entries[i].outcome == Journal.Started
    && (trail.backend.Some? ==>
          var l := trail.backend.value;
          && JD.Paced(l) && !l.unusable && l.length + finish <= l.capacity
          && trail.entries[i].id in l.attempts && l.attempts[trail.entries[i].id].outcome == Journal.Started)
  }

  /** With room, the start succeeds and leaves room for the finish. */
  lemma StartFits(k: Kernel, call: Call, finish: nat)
    requires A.Valid(k.trail) && Paced(k.trail) && call.requests.complete && Room(k.trail, MetadataOf(k, call), finish)
    ensures var (t, r) := Begun(k, call, J.Synced);
            && r == Ok(k.trail.next.value) && |t.entries| == |k.trail.entries| + 1 && t.entries[..|k.trail.entries|] == k.trail.entries
            && t.entries[|k.trail.entries|] == A.Entry(k.trail.next.value, MetadataOf(k, call), Journal.Started)
            && (t.backend.Some? <==> k.trail.backend.Some?)
            && Open(t, |k.trail.entries|, finish)
  {
    hide AttemptCodec.PutAttempt, J.Apply, A.NextAttempt, JD.Paced;
    if k.trail.backend.Some? {
      var l, op := k.trail.backend.value, J.Begin(k.trail.next.value, MetadataOf(k, call));
      NextIsNew(k.trail);
      JD.AcceptedExactly(l, op, J.Synced);
      JD.ApplyPaced(l, op, J.Synced);
      JD.ApplyEnds(l, op, J.Synced);
      A.ApplyAttempts(l, op, J.Synced);
    }
  }

  lemma NextIsNew(trail: A.Trail)
    requires A.Valid(trail) && trail.backend.Some? && trail.next.Some?
    ensures trail.next.value !in trail.backend.value.attempts
  {
  }

  /** The journal holds the attempt with this end. */
  predicate Ended(trail: A.Trail, id: u64, outcome: Journal.Outcome, receipt: Option<Journal.Receipt>, evidence: Option<Journal.Evidence>) {
    trail.backend.Some? ==>
      && id in trail.backend.value.attempts
      && trail.backend.value.attempts[id].outcome == outcome
      && trail.backend.value.attempts[id].receipt == receipt
      && trail.backend.value.attempts[id].evidence == evidence
  }

  /** The bytes a finish record takes. */
  function FinishBytes(receipt: Option<Journal.Receipt>, evidence: Option<Journal.Evidence>): nat {
    if receipt.Some? then 45 + |receipt.value.token| else if evidence.Some? then 45 + |evidence.value.token| else 41
  }

  /** With room, the durable finish succeeds and is what is then on record. */
  lemma FinishFits(trail: A.Trail, pc: Pc)
    requires pc.Finishing? && pc.i < |trail.entries| && Open(trail, pc.i, FinishBytes(pc.receipt, pc.evidence))
    requires JD.TerminalForm(trail.entries[pc.i].id, pc.outcome, pc.receipt, pc.evidence)
    ensures var (t, error) := Finished(trail, pc);
            && error.None? && t.entries == trail.entries && (t.backend.Some? <==> trail.backend.Some?)
            && Ended(t, trail.entries[pc.i].id, pc.outcome, pc.receipt, pc.evidence)
  {
    hide J.Apply, JD.Paced, JD.TerminalForm;
    if trail.backend.Some? {
      var id := trail.entries[pc.i].id;
      JD.AcceptedExactly(trail.backend.value, J.Finish(id, pc.outcome, pc.receipt, pc.evidence), J.Synced);
      A.FinishAttempts(trail.backend.value, id, pc.outcome, pc.receipt, pc.evidence, J.Synced);
    }
  }

  // ----- how a call ends ---------------------------------------------------

  /**
   The kernel after a whole call: the lock given back, the attempt one more
   entry with this end in memory and journal, and the caller told `reply`
   after the given events.
   */
  ghost predicate CallEnds(k: Kernel, n: Kernel, call: Call, outcome: Journal.Outcome,
                           receipt: Option<Str>, evidence: Option<Str>, events: seq<Event>, reply: Reply) {
    var i := |k.trail.entries|;
    && n.state == k.state && n.threads == k.threads && n.readers == k.readers && n.writer == k.writer && n.observers == k.observers
    && |n.trail.entries| == i + 1 && n.trail.entries[..i] == k.trail.entries
    && n.trail.entries[i].metadata == MetadataOf(k, call) && n.trail.entries[i].outcome == outcome
    && (n.trail.backend.Some? <==> k.trail.backend.Some?)
    && n.history == k.history + events + [Replied(call, Some(i), reply, n.trail)]
    && var id := n.trail.entries[i].id;
       Ended(n.trail, id, outcome, if receipt.Some? then Some(Journal.Receipt(id, receipt.value)) else None,
             if evidence.Some? then Some(Journal.Evidence(id, evidence.value)) else None)
  }

  /** The last part of every call: an open attempt, its end decided. */
  lemma DecidedEnds(k: Kernel, c: Kernel, t: Tid, call: Call, outcome: Journal.Outcome,
                    receipt: Option<Str>, evidence: Option<Str>, events: seq<Event>)
    requires t !in k.threads && t !in k.readers && |c.trail.entries| == |k.trail.entries| + 1
    requires var i := |k.trail.entries|;
             var id := c.trail.entries[i].id;
             var r := if receipt.Some? then Some(Journal.Receipt(id, receipt.value)) else None;
             var e := if evidence.Some? then Some(Journal.Evidence(id, evidence.value)) else None;
             && JD.TerminalForm(id, outcome, r, e) && Open(c.trail, i, FinishBytes(r, e))
             && c.trail.entries[..i] == k.trail.entries && c.trail.entries[i].metadata == MetadataOf(k, call)
             && (c.trail.backend.Some? <==> k.trail.backend.Some?)
             && c.state == k.state && c.writer == k.writer && c.observers == k.observers && c.history == k.history + events
             && c.readers == k.readers + {t} && c.threads == k.threads[t := Finishing(call, i, outcome, r, e)]
    ensures CallEnds(k, Run(c, Closing(t)), call, outcome, receipt, evidence, events,
                     Saved(outcome, if evidence.Some? then Some(Journal.Evidence(c.trail.entries[|k.trail.entries|].id, evidence.value)) else None))
  {
    hide Run, Closing, A.FinishDurably, JD.TerminalForm, JD.Paced, Saved;
    var pc := c.threads[t];
    FinishFits(c.trail, pc);
    ClosingEnds(c, t);
    assert c.threads - {t} == k.threads && c.readers - {t} == k.readers;
    var n := Run(c, Closing(t));
    assert n.trail.entries[..pc.i] == c.trail.entries[..pc.i];
  }

  // ----- the four ends -----------------------------------------------------

  /** Executor call, landing if any, and answer. */
  function Execute(t: Tid, landed: bool, exec: Execution): seq<(Tid, Move)> {
    [(t, Invoke)] + (if landed then [(t, Land)] + ([(t, Classify(exec))] + Closing(t)) else [(t, Classify(exec))] + Closing(t))
  }

  /** The events between the call and the reply of an executed effect. */
  function ExecutionEvents(k: Kernel, call: Call, landed: bool): seq<Event> {
    var i := |k.trail.entries|;
    [Invoked(call, i, k.state, Begun(k, call, J.Synced).0)] + if landed then [Landed(call, i, k.state)] else []
  }

  lemma ExecuteReaches(k: Kernel, t: Tid, call: Call, landed: bool, exec: Execution)
    requires Truthful(exec, landed) && Begun(k, call, J.Synced).1.Ok? && |Begun(k, call, J.Synced).0.entries| == |k.trail.entries| + 1
    ensures var i := |k.trail.entries|;
            var c := Checked(k, t, call, Authorized(call, i));
            var pc := AfterExecution(call, i, c.trail.entries[i].id, exec);
            Run(c, Execute(t, landed, exec)) == Run(Checked(k, t, call, pc).(history := k.history + ExecutionEvents(k, call, landed)), Closing(t))
  {
    hide AuthorizesAll, Run, TransitionStep, A.StartSet, A.FinishDurably, A.Store, AfterExecution, Closing;
    var i := |k.trail.entries|;
    var c := Checked(k, t, call, Authorized(call, i));
    var pc := AfterExecution(call, i, c.trail.entries[i].id, exec);
    var called := Invoked(call, i, k.state, c.trail);
    var k1 := Log(At(c, t, Executing(call, i, false)), called);
    var tail := [(t, Classify(exec))] + Closing(t);
    if landed {
      var k2 := Log(At(k1, t, Executing(call, i, true)), Landed(call, i, k.state));
      var k3 := At(k2, t, pc);
      Then(c, t, Invoke, k1, [(t, Land)] + tail);
      Then(k1, t, Land, k2, tail);
      Then(k2, t, Classify(exec), k3, Closing(t));
      assert k3.threads == k.threads[t := pc];
      assert k3.history == k.history + ExecutionEvents(k, call, landed);
    } else {
      var k2 := At(k1, t, pc);
      Then(c, t, Invoke, k1, tail);
      Then(k1, t, Classify(exec), k2, Closing(t));
      assert k2.threads == k.threads[t := pc];
      assert k2.history == k.history + ExecutionEvents(k, call, landed);
    }
  }

  /** A call that nothing disturbs can begin: no writer inside, a complete request set, and room for its records. */
  predicate Ready(k: Kernel, t: Tid, call: Call, finish: nat) {
    && A.Valid(k.trail) && Paced(k.trail) && t !in k.threads && t !in k.readers && k.writer.None?
    && call.requests.complete && Room(k.trail, MetadataOf(k, call), finish)
  }

  /**
   An authorized effect that nothing disturbs lands in the state it was
   checked in; memory and journal both record it as committed with its
   receipt, and its caller is told so.
   */
  lemma AuthorizedEffectLands(k: Kernel, t: Tid, call: Call, token: Option<Str>)
    requires 1 <= |Receipt(token)| <= 65_536 && Ready(k, t, call, 45 + |Receipt(token)|)
    requires AuthorizesAll(k.state, call)
    ensures CallEnds(k, Run(k, Opening(t, call, Execute(t, true, ExecCommitted(token)))), call, Journal.Committed,
                     Some(Receipt(token)), None, ExecutionEvents(k, call, true), Done)
  {
    hide AuthorizesAll, Run, A.Valid, Begun, Room, ReceiptToken, Receipt, Opening, Execute, Closing, ExecutionEvents, CallEnds, Open, JD.Paced, JD.Permitted;
    ReceiptIs(token);
    Known(k.state, call);
    StartFits(k, call, 45 + |ReceiptToken(token)|);
    OpeningReaches(k, t, call, Execute(t, true, ExecCommitted(token)));
    ExecuteReaches(k, t, call, true, ExecCommitted(token));
    var i := |k.trail.entries|;
    var id := Begun(k, call, J.Synced).0.entries[i].id;
    var c := Checked(k, t, call, Finishing(call, i, Journal.Committed, Some(Journal.Receipt(id, ReceiptToken(token))), None))
             .(history := k.history + ExecutionEvents(k, call, true));
    DecidedEnds(k, c, t, call, Journal.Committed, Some(ReceiptToken(token)), None, ExecutionEvents(k, call, true));
  }

  /** The executor's own token, or the kernel's words when it gave none. */
  function Receipt(token: Option<Str>): Str {
    match token
    case Some(own) => own
    case None => Ascii("kernel-executor-returned-success")
  }

  lemma {:induction false} AsciiAt(s: string, i: nat)
    requires i < |s|
    ensures Ascii(s)[i] == s[i] as int % 256
    decreases i
  {
    if i > 0 {
      AsciiAt(s[1..], i - 1);
    }
  }

  lemma ReceiptIs(token: Option<Str>)
    ensures ReceiptToken(token) == Receipt(token)
  {
    hide Ascii;
    if token.None? {
      var text := "kernel-executor-returned-success";
      forall i | 0 <= i < |text| ensures KernelSuccess()[i] == Ascii(text)[i] {
        AsciiAt(text, i);
      }
      assert KernelSuccess() == Ascii(text);
    }
  }

  /** An authorized request set names a capability that exists. */
  lemma Known(s: S.State, call: Call)
    requires AuthorizesAll(s, call)
    ensures call.capability in s.caps
  {
    assert Requests(call.requests)[0] == call.requests.first;
    assert S.Authorizes(s, call.caller, call.capability, Requests(call.requests)[0]);
  }

  /**
   An effect that is not authorized as a whole never reaches the executor:
   memory and journal both record it as denied, and its caller is told so.
   */
  lemma UnauthorizedEffectDenied(k: Kernel, t: Tid, call: Call)
    requires Ready(k, t, call, 41) && !AuthorizesAll(k.state, call)
    ensures CallEnds(k, Run(k, Opening(t, call, Closing(t))), call, Journal.Denied, None, None, [], NotAuthorized)
  {
    hide AuthorizesAll, Run, A.Valid, Begun, Room, Opening, Closing, CallEnds, Open, JD.Paced, JD.Permitted;
    StartFits(k, call, 41);
    OpeningReaches(k, t, call, Closing(t));
    var c := Checked(k, t, call, Finishing(call, |k.trail.entries|, Journal.Denied, None, None));
    assert k.history + [] == k.history;
    DecidedEnds(k, c, t, call, Journal.Denied, None, None, []);
  }

  /** An execution that failed before its commit is recorded as such, and nothing landed. */
  lemma FailedEffectRecorded(k: Kernel, t: Tid, call: Call)
    requires Ready(k, t, call, 41) && AuthorizesAll(k.state, call)
    ensures CallEnds(k, Run(k, Opening(t, call, Execute(t, false, ExecFailed))), call, Journal.FailedBeforeCommit,
                     None, None, ExecutionEvents(k, call, false), EffectFailed)
  {
    hide AuthorizesAll, Run, A.Valid, Begun, Room, Opening, Execute, Closing, ExecutionEvents, CallEnds, Open, JD.Paced, JD.Permitted;
    Known(k.state, call);
    StartFits(k, call, 41);
    OpeningReaches(k, t, call, Execute(t, false, ExecFailed));
    ExecuteReaches(k, t, call, false, ExecFailed);
    var c := Checked(k, t, call, Finishing(call, |k.trail.entries|, Journal.FailedBeforeCommit, None, None))
             .(history := k.history + ExecutionEvents(k, call, false));
    DecidedEnds(k, c, t, call, Journal.FailedBeforeCommit, None, None, ExecutionEvents(k, call, false));
  }

  /** An unknown commit, landed or not, is recorded with exactly the executor's evidence. */
  lemma UnknownEffectRecorded(k: Kernel, t: Tid, call: Call, landed: bool, evidence: Str)
    requires 1 <= |evidence| <= 65_536 && Ready(k, t, call, 45 + |evidence|) && AuthorizesAll(k.state, call)
    ensures CallEnds(k, Run(k, Opening(t, call, Execute(t, landed, ExecUnknown(evidence)))), call, Journal.CommitUnknown,
                     None, Some(evidence), ExecutionEvents(k, call, landed), ToldUnknown(evidence))
  {
    hide AuthorizesAll, Run, A.Valid, Begun, Room, Opening, Execute, Closing, ExecutionEvents, CallEnds, Open, JD.Paced, JD.Permitted;
    Known(k.state, call);
    StartFits(k, call, 45 + |evidence|);
    OpeningReaches(k, t, call, Execute(t, landed, ExecUnknown(evidence)));
    ExecuteReaches(k, t, call, landed, ExecUnknown(evidence));
    var i := |k.trail.entries|;
    var id := Begun(k, call, J.Synced).0.entries[i].id;
    var c := Checked(k, t, call, Finishing(call, i, Journal.CommitUnknown, None, Some(Journal.Evidence(id, evidence))))
             .(history := k.history + ExecutionEvents(k, call, landed));
    DecidedEnds(k, c, t, call, Journal.CommitUnknown, None, Some(evidence), ExecutionEvents(k, call, landed));
  }

  // ----- calls the audit record fails --------------------------------------

  /** An incomplete request set is refused before anything is recorded. */
  lemma IncompleteRefused(k: Kernel, t: Tid, call: Call)
    requires t !in k.threads && !call.requests.complete
    ensures Run(k, [(t, CallEffect(call))]) == Log(k, Replied(call, None, NotAuthorized, k.trail))
  {
    assert [(t, CallEffect(call))][1..] == [];
  }

  /** When the start cannot be recorded the call ends at once, with nothing started and no executor call. */
  lemma UnrecordedStartEnds(k: Kernel, t: Tid, call: Call, io: J.Io)
    requires A.Valid(k.trail) && t !in k.threads && t !in k.readers && k.writer.None? && call.requests.complete && Begun(k, call, io).1.Err?
    ensures var moves := [(t, CallEffect(call))] + ([(t, Acquire)] + ([(t, Record(io))] + ([(t, Release)] + [])));
            var failed := Begun(k, call, io).0;
            && Run(k, moves) == k.(trail := failed, history := k.history + [Replied(call, None, AuditFailed, failed)])
            && failed.entries == k.trail.entries && failed.next == k.trail.next
  {
    hide AuthorizesAll, Run, A.StartSet, TransitionStep, A.FinishDurably, A.Store, A.Valid, AfterExecution;
    var failed := Begun(k, call, io).0;
    A.StartValid(k.trail, call.caller, call.capability, call.requests, k.state.epoch, io);
    var k1 := At(k, t, WantRead(call));
    var k2 := At(k1, t, Reading(call)).(readers := k.readers + {t});
    var k3 := At(k2, t, Leaving(call, None, AuditFailed)).(trail := failed);
    var k4 := Log(k3.(readers := k3.readers - {t}, threads := k3.threads - {t}), Replied(call, None, AuditFailed, failed));
    var s3 := [(t, Release)] + [];
    var s2 := [(t, Record(io))] + s3;
    Then(k, t, CallEffect(call), k1, [(t, Acquire)] + s2);
    Then(k1, t, Acquire, k2, s2);
    Then(k2, t, Record(io), k3, s3);
    Then(k3, t, Release, k4, []);
    RunNone(k4);
    assert k4.threads == k.threads && k4.readers == k.readers;
  }

  /** When the end cannot be recorded the call still ends: the attempt stays open on record and the caller hears what the executor said. */
  lemma UnrecordedEndReported(k: Kernel, t: Tid, io: J.Io)
    requires A.Valid(k.trail) && t in k.threads && k.threads[t].Finishing? && k.threads[t].i < |k.trail.entries|
    requires var pc := k.threads[t];
             && A.FinishDurably(k.trail, pc.i, pc.outcome, pc.receipt, pc.evidence, io).1.Some?
             && (pc.outcome.Committed? ==> pc.receipt.Some?) && (pc.outcome.CommitUnknown? ==> pc.evidence.Some?)
    ensures var pc := k.threads[t];
            var reply := if pc.outcome.Committed? then CommittedUnsaved(pc.receipt.value.token)
                         else if pc.outcome.CommitUnknown? then UnknownUnsaved(pc.evidence.value.token) else AuditFailed;
            var failed := A.FinishDurably(k.trail, pc.i, pc.outcome, pc.receipt, pc.evidence, io).0;
            && Run(k, [(t, Persist(io))] + ([(t, Release)] + [])) ==
               k.(threads := k.threads - {t}, readers := k.readers - {t}, trail := failed,
                  history := k.history + [Replied(pc.call, Some(pc.i), reply, failed)])
            && failed.entries == k.trail.entries
            && (failed.backend.Some? && k.trail.backend.Some? ==> failed.backend.value.attempts == k.trail.backend.value.attempts)
  {
    hide AuthorizesAll, Run, TransitionStep, A.StartSet, A.FinishDurably, A.Store, A.Valid, AfterExecution, Saved;
    var pc := k.threads[t];
    A.FinishValid(k.trail, pc.i, pc.outcome, pc.receipt, pc.evidence, io);
    var failed := A.FinishDurably(k.trail, pc.i, pc.outcome, pc.receipt, pc.evidence, io).0;
    var reply := Unsaved(pc.outcome, pc.receipt, pc.evidence);
    var k1 := At(k, t, Leaving(pc.call, Some(pc.i), reply)).(trail := failed);
    var k2 := Log(k1.(readers := k.readers - {t}, threads := k1.threads - {t}), Replied(pc.call, Some(pc.i), reply, failed));
    Then(k, t, Persist(io), k1, [(t, Release)] + []);
    Then(k1, t, Release, k2, []);
    RunNone(k2);
    assert k2.threads == k.threads - {t};
  }

  /** Evidence that is empty or over 65536 bytes is handed back to the caller, unrecorded. */
  lemma UnfitEvidenceReturned(k: Kernel, t: Tid, evidence: Str)
    requires t in k.threads && k.threads[t].Executing? && k.threads[t].i < |k.trail.entries| && !(1 <= |evidence| <= 65_536)
    ensures var pc := k.threads[t];
            Run(k, [(t, Classify(ExecUnknown(evidence)))] + ([(t, Release)] + [])) ==
            k.(threads := k.threads - {t}, readers := k.readers - {t},
               history := k.history + [Replied(pc.call, Some(pc.i), UnknownUnsaved(evidence), k.trail)])
  {
    hide AuthorizesAll, Run, TransitionStep, A.StartSet, A.FinishDurably, A.Store;
    var pc := k.threads[t];
    var k1 := At(k, t, Leaving(pc.call, Some(pc.i), UnknownUnsaved(evidence)));
    var k2 := Log(k1.(readers := k.readers - {t}, threads := k1.threads - {t}), Replied(pc.call, Some(pc.i), UnknownUnsaved(evidence), k.trail));
    Then(k, t, Classify(ExecUnknown(evidence)), k1, [(t, Release)] + []);
    Then(k1, t, Release, k2, []);
    RunNone(k2);
    assert k2.threads == k.threads - {t};
  }

  // ----- transitions -------------------------------------------------------

  /** The remaining notifications of a round and the return. */
  function Notices(t: Tid, oks: seq<bool>): seq<(Tid, Move)> {
    if oks == [] then [(t, Return)] + [] else [(t, Notify(oks[0]))] + Notices(t, oks[1..])
  }

  /** The round in which observer `x` answers `oks[x]`. */
  function RoundOf(observers: seq<Observer>, oks: seq<bool>): seq<(Observer, bool)>
    requires |observers| == |oks|
  {
    seq(|oks|, x requires 0 <= x < |oks| => (observers[x], oks[x]))
  }

  function NoticeEvents(at: nat, round: seq<(Observer, bool)>): seq<Event> {
    seq(|round|, x requires 0 <= x < |round| => Notified(at, round[x].0, false, round[x].1))
  }

  lemma NoticesNext(at: nat, observers: seq<Observer>, oks: seq<bool>, done: nat)
    requires |observers| == |oks| && done < |oks|
    ensures var round := RoundOf(observers, oks);
            && round[..done + 1][..done] == round[..done] && round[..done + 1][done] == (observers[done], oks[done])
            && NoticeEvents(at, round[..done + 1]) == NoticeEvents(at, round[..done]) + [Notified(at, observers[done], false, oks[done])]
  {
  }

  lemma {:induction false} RoundRuns(k: Kernel, t: Tid, at: nat, oks: seq<bool>, done: nat, past: seq<Event>)
    requires t in k.threads && |k.observers| == |oks| && done <= |oks| && k.writer.None? && t !in k.readers
    requires var round := RoundOf(k.observers, oks);
             && k.threads[t] == Notifying(at, k.observers, done, FirstFailure(round[..done]))
             && k.history == past + NoticeEvents(at, round[..done])
    ensures var round := RoundOf(k.observers, oks);
            Run(k, Notices(t, oks[done..])) ==
            k.(threads := k.threads - {t}, history := past + NoticeEvents(at, round) + [Returned(at, FirstFailure(round))])
    decreases |oks| - done
  {
    hide EffectStep, Run, NoticeEvents, RoundOf;
    var round := RoundOf(k.observers, oks);
    RoundLength(k.observers, oks);
    if done == |oks| {
      assert oks[done..] == [] && round[..done] == round;
      var n := Log(k.(threads := k.threads - {t}), Returned(at, FirstFailure(round)));
      Then(k, t, Return, n, []);
      RunNone(n);
    } else {
      NoticesNext(at, k.observers, oks, done);
      var before := FirstFailure(round[..done]);
      var failed := if before.None? && !oks[done] then Some(k.observers[done]) else before;
      var n := Log(At(k, t, Notifying(at, k.observers, done + 1, failed)), Notified(at, k.observers[done], false, oks[done]));
      assert oks[done..][0] == oks[done] && oks[done..][1..] == oks[done + 1..];
      Then(k, t, Notify(oks[done]), n, Notices(t, oks[done + 1..]));
      assert failed == FirstFailure(round[..done + 1]);
      RoundRuns(n, t, at, oks, done + 1, past);
      assert n.threads - {t} == k.threads - {t};
    }
  }

  lemma RoundLength(observers: seq<Observer>, oks: seq<bool>)
    requires |observers| == |oks|
    ensures |RoundOf(observers, oks)| == |oks|
  {
  }

  /** The moves of one transition call; a round of observers follows when the epoch moves. */
  function WholeTransition(t: Tid, op: S.Op, moved: bool, oks: seq<bool>): seq<(Tid, Move)> {
    [(t, CallTransition(op))] + ([(t, Acquire)] + ([(t, K.Transition)] + ([(t, Release)] + if moved then [(t, Snapshot)] + Notices(t, oks) else [])))
  }

  /** From the call to the applied transition. */
  lemma TransitionOpens(k: Kernel, t: Tid, op: S.Op, rest: seq<(Tid, Move)>)
    requires t !in k.threads && k.writer.None? && k.readers == {}
    ensures var (state, outcome) := S.Apply(k.state, op);
            Run(k, [(t, CallTransition(op))] + ([(t, Acquire)] + ([(t, K.Transition)] + rest))) ==
            Run(k.(state := state, writer := Some(t), threads := k.threads[t := Unlocking(|k.history|)],
                   history := k.history + [Applied(op, k.state, state, outcome, k.observers)]), rest)
  {
    hide S.Apply, EffectStep, Run, Revoking;
    var (state, outcome) := S.Apply(k.state, op);
    var k1 := At(k, t, WantWrite(op));
    var k2 := At(k1, t, Writing(op)).(writer := Some(t));
    var k3 := Log(At(k2, t, Unlocking(|k.history|)), Applied(op, k.state, state, outcome, k.observers)).(state := state);
    var s2 := [(t, K.Transition)] + rest;
    Then(k, t, CallTransition(op), k1, [(t, Acquire)] + s2);
    Then(k1, t, Acquire, k2, s2);
    Then(k2, t, K.Transition, k3, rest);
    assert k3.threads == k.threads[t := Unlocking(|k.history|)];
  }

  /**
   A transition that nothing disturbs makes the state what the sequential
   operation makes it. If that moved the epoch every observer is then run,
   whatever each answers, and the call returns the first failure; otherwise
   it returns at once.
   */
  lemma TransitionCompletes(k: Kernel, t: Tid, op: S.Op, oks: seq<bool>)
    requires SI.Valid(k.state) && t !in k.threads && k.writer.None? && k.readers == {} && |oks| == |k.observers|
    ensures var (state, outcome) := S.Apply(k.state, op);
            var at, moved, round := |k.history|, state.epoch != k.state.epoch, RoundOf(k.observers, oks);
            Run(k, WholeTransition(t, op, moved, oks)) ==
            k.(state := state,
               history := k.history + [Applied(op, k.state, state, outcome, k.observers)]
                          + (if moved then NoticeEvents(at, round) + [Returned(at, FirstFailure(round))] else [Returned(at, None)]))
  {
    hide SI.Valid, S.Apply, EffectStep, Run, Revoking, RoundOf, NoticeEvents, Notices, FirstFailure;
    var (state, outcome) := S.Apply(k.state, op);
    var at, moved := |k.history|, state.epoch != k.state.epoch;
    RevokingExact(k.state, op);
    var applied := Applied(op, k.state, state, outcome, k.observers);
    var rest := if moved then [(t, Snapshot)] + Notices(t, oks) else [];
    TransitionOpens(k, t, op, [(t, Release)] + rest);
    var k3 := k.(state := state, writer := Some(t), threads := k.threads[t := Unlocking(at)], history := k.history + [applied]);
    if moved {
      TransitionNotifies(k, k3, t, at, oks);
      var past := k.history + [applied];
      assert past + NoticeEvents(at, RoundOf(k.observers, oks)) + [Returned(at, FirstFailure(RoundOf(k.observers, oks)))]
          == past + (NoticeEvents(at, RoundOf(k.observers, oks)) + [Returned(at, FirstFailure(RoundOf(k.observers, oks)))]);
    } else {
      var k4 := Log(k3.(writer := None, threads := k3.threads - {t}), Returned(at, None));
      Then(k3, t, Release, k4, []);
      RunNone(k4);
      assert k4.threads == k.threads;
    }
  }

  /** From the release of the lock to the return of a revoking call. */
  lemma TransitionNotifies(k: Kernel, k3: Kernel, t: Tid, at: nat, oks: seq<bool>)
    requires t !in k.threads && k3.threads == k.threads[t := Unlocking(at)] && at < |k3.history| && k3.history[at].Applied?
    requires Revoking(k3.history[at].outcome) && k3.readers == {} && |k3.observers| == |oks|
    ensures var round := RoundOf(k3.observers, oks);
            Run(k3, [(t, Release)] + ([(t, Snapshot)] + Notices(t, oks))) ==
            k3.(writer := None, threads := k.threads, history := k3.history + NoticeEvents(at, round) + [Returned(at, FirstFailure(round))])
  {
    hide EffectStep, Run, Revoking, Notices, S.Apply;
    var k4 := At(k3, t, Propagating(at)).(writer := None);
    var k5 := At(k4, t, Notifying(at, k3.observers, 0, None));
    Then(k3, t, Release, k4, [(t, Snapshot)] + Notices(t, oks));
    Then(k4, t, Snapshot, k5, Notices(t, oks));
    var round := RoundOf(k3.observers, oks);
    assert round[..0] == [] && NoticeEvents(at, []) == [] && oks[0..] == oks;
    assert k3.history + [] == k3.history;
    RoundRuns(k5, t, at, oks, 0, k3.history);
    assert k5.threads - {t} == k.threads;
  }
}
