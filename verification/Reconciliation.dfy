/** Asking a provider about unresolved commits (`reconcile_unknown_commits` of `audit.rs`). */
module Reconciliation {
  import opened Bytes
  import opened Order
  import AttemptCodec
  import opened Journal
  import JournalCodec
  import J = JournalLog
  import JD = JournalDecisions
  import opened Audit
  import opened Recovery

  /** What the provider adapter answers for one attempt. */
  datatype Answer = Unreachable | StillUnknown | Says(verdict: Verdict)

  datatype Summary = Summary(committed: seq<AttemptId>, notCommitted: seq<AttemptId>, stillUnknown: seq<AttemptId>)

  datatype ReconciliationError = Journaled(error: JournalError) | Provider(attempt: AttemptId)

  predicate Unresolved(a: Attempt) {
    a.outcome == CommitUnknown && a.reconciliation.None?
  }

  /** The summary with one more answered attempt. */
  function Tally(s: Summary, id: AttemptId, answer: Answer): Summary {
    match answer
    case Says(CommittedAs(_)) => s.(committed := s.committed + [id])
    case Says(NotCommitted) => s.(notCommitted := s.notCommitted + [id])
    case _ => s.(stillUnknown := s.stillUnknown + [id])
  }

  /** Works through the snapshot in the given order, recording each verdict before the next question. */
  function ResolveAll(l: J.Log, snapshot: Attempts, ids: seq<AttemptId>, isIp: Str -> bool,
                      ask: AttemptId -> Answer, io: AttemptId -> J.Io, sum: Summary)
    : (J.Log, Result<Summary, ReconciliationError>)
    decreases |ids|
  {
    if ids == [] then (l, Ok(sum))
    else
      var id := ids[0];
      if id !in snapshot || !Unresolved(snapshot[id]) then ResolveAll(l, snapshot, ids[1..], isIp, ask, io, sum)
      else if AttemptCodec.DecodeAttempt(snapshot[id].payload, isIp).None? then (l, Err(Journaled(InvalidRecord)))
      else
        match ask(id)
        case Unreachable => (l, Err(Provider(id)))
        case StillUnknown => ResolveAll(l, snapshot, ids[1..], isIp, ask, io, Tally(sum, id, ask(id)))
        case Says(verdict) =>
          var (after, error) := J.Apply(l, J.Reconcile(id, verdict), io(id));
          if error.Some? then (after, Err(Journaled(error.value)))
          else ResolveAll(after, snapshot, ids[1..], isIp, ask, io, Tally(sum, id, ask(id)))
  }

  function Reconcile(l: J.Log, isIp: Str -> bool, ask: AttemptId -> Answer, io: AttemptId -> J.Io)
    : (J.Log, Result<Summary, ReconciliationError>)
  {
    if l.unusable then (l, Err(Journaled(JournalUnavailable)))
    else ResolveAll(l, l.attempts, Sorted(l.attempts.Keys), isIp, ask, io, Summary([], [], []))
  }

  // ----- what it does ------------------------------------------------------

  /** Outside `todo`, each unresolved attempt the provider answered carries that answer; nothing else moved. */
  predicate ResolvedExcept(snapshot: Attempts, now: Attempts, ask: AttemptId -> Answer, todo: seq<AttemptId>) {
    && now.Keys == snapshot.Keys
    && forall id :: id in snapshot ==>
         now[id] == if Unresolved(snapshot[id]) && ask(id).Says? && id !in todo
                    then snapshot[id].(reconciliation := Some(ask(id).verdict))
                    else snapshot[id]
  }

  /** Even after a failure, terminal outcomes stand and only verdicts were added. */
  predicate OnlyVerdicts(snapshot: Attempts, now: Attempts, ask: AttemptId -> Answer) {
    && now.Keys == snapshot.Keys
    && forall id :: id in snapshot ==>
         || now[id] == snapshot[id]
         || (Unresolved(snapshot[id]) && ask(id).Says? && now[id] == snapshot[id].(reconciliation := Some(ask(id).verdict)))
  }

  datatype Kind = SaidCommitted | SaidNotCommitted | SaidNothing

  function KindOf(a: Answer): Kind {
    if !a.Says? then SaidNothing else if a.verdict.CommittedAs? then SaidCommitted else SaidNotCommitted
  }

  /** Unresolved identities, in order, with a given kind of answer. */
  function Answered(snapshot: Attempts, ids: seq<AttemptId>, ask: AttemptId -> Answer, kind: Kind): seq<AttemptId> {
    if ids == [] then []
    else (if ids[0] in snapshot && Unresolved(snapshot[ids[0]]) && KindOf(ask(ids[0])) == kind then [ids[0]] else [])
         + Answered(snapshot, ids[1..], ask, kind)
  }

  function SummaryOf(snapshot: Attempts, ids: seq<AttemptId>, ask: AttemptId -> Answer, sum: Summary): Summary {
    Summary(sum.committed + Answered(snapshot, ids, ask, SaidCommitted),
            sum.notCommitted + Answered(snapshot, ids, ask, SaidNotCommitted),
            sum.stillUnknown + Answered(snapshot, ids, ask, SaidNothing))
  }

  lemma Skip(snapshot: Attempts, now: Attempts, ids: seq<AttemptId>, ask: AttemptId -> Answer)
    requires ids != [] && ResolvedExcept(snapshot, now, ask, ids)
    requires ids[0] in snapshot ==> !Unresolved(snapshot[ids[0]]) || !ask(ids[0]).Says?
    ensures ResolvedExcept(snapshot, now, ask, ids[1..])
  {
    forall id | id in snapshot && id != ids[0] ensures id in ids <==> id in ids[1..] {
    }
  }

  lemma ResolveOne(l: J.Log, snapshot: Attempts, ids: seq<AttemptId>, ask: AttemptId -> Answer, io: J.Io)
    requires ids != [] && Ascending(ids) && ResolvedExcept(snapshot, l.attempts, ask, ids)
    requires ids[0] in snapshot && Unresolved(snapshot[ids[0]]) && ask(ids[0]).Says?
    requires J.Apply(l, J.Reconcile(ids[0], ask(ids[0]).verdict), io).1.None?
    ensures ResolvedExcept(snapshot, J.Apply(l, J.Reconcile(ids[0], ask(ids[0]).verdict), io).0.attempts, ask, ids[1..])
  {
    hide J.Apply, J.Payload;
    ApplyAttempts(l, J.Reconcile(ids[0], ask(ids[0]).verdict), io);
    forall id | id in snapshot && id != ids[0] ensures id in ids <==> id in ids[1..] {
    }
    assert ids[0] !in ids[1..];
  }

  /** One identity moved from the front of the work to the back of its list. */
  lemma AnsweredNext(snapshot: Attempts, ids: seq<AttemptId>, ask: AttemptId -> Answer, kind: Kind, acc: seq<AttemptId>)
    requires ids != [] && ids[0] in snapshot && Unresolved(snapshot[ids[0]])
    ensures acc + Answered(snapshot, ids, ask, kind)
         == (if KindOf(ask(ids[0])) == kind then acc + [ids[0]] else acc) + Answered(snapshot, ids[1..], ask, kind)
  {
    hide KindOf;
    var rest := Answered(snapshot, ids[1..], ask, kind);
    if KindOf(ask(ids[0])) == kind {
      assert acc + ([ids[0]] + rest) == acc + [ids[0]] + rest;
    } else {
      assert [] + rest == rest;
    }
  }

  lemma AnsweredSkip(snapshot: Attempts, ids: seq<AttemptId>, ask: AttemptId -> Answer, kind: Kind)
    requires ids != [] && (ids[0] in snapshot ==> !Unresolved(snapshot[ids[0]]))
    ensures Answered(snapshot, ids, ask, kind) == Answered(snapshot, ids[1..], ask, kind)
  {
  }

  lemma TallyAnswers(snapshot: Attempts, ids: seq<AttemptId>, ask: AttemptId -> Answer, sum: Summary)
    requires ids != [] && ids[0] in snapshot && Unresolved(snapshot[ids[0]])
    ensures SummaryOf(snapshot, ids[1..], ask, Tally(sum, ids[0], ask(ids[0]))) == SummaryOf(snapshot, ids, ask, sum)
  {
    hide Answered;
    AnsweredNext(snapshot, ids, ask, SaidCommitted, sum.committed);
    AnsweredNext(snapshot, ids, ask, SaidNotCommitted, sum.notCommitted);
    AnsweredNext(snapshot, ids, ask, SaidNothing, sum.stillUnknown);
  }

  lemma SkipAnswers(snapshot: Attempts, ids: seq<AttemptId>, ask: AttemptId -> Answer, sum: Summary)
    requires ids != [] && (ids[0] in snapshot ==> !Unresolved(snapshot[ids[0]]))
    ensures SummaryOf(snapshot, ids[1..], ask, sum) == SummaryOf(snapshot, ids, ask, sum)
  {
    hide Answered;
    AnsweredSkip(snapshot, ids, ask, SaidCommitted);
    AnsweredSkip(snapshot, ids, ask, SaidNotCommitted);
    AnsweredSkip(snapshot, ids, ask, SaidNothing);
  }

  lemma NoAnswers(snapshot: Attempts, ask: AttemptId -> Answer, sum: Summary)
    ensures SummaryOf(snapshot, [], ask, sum) == sum
  {
  }

  lemma {:induction false} ResolveAllExact(l: J.Log, snapshot: Attempts, ids: seq<AttemptId>, isIp: Str -> bool,
                                           ask: AttemptId -> Answer, io: AttemptId -> J.Io, sum: Summary)
    requires Ascending(ids) && ResolvedExcept(snapshot, l.attempts, ask, ids)
    ensures var (after, r) := ResolveAll(l, snapshot, ids, isIp, ask, io, sum);
            && OnlyVerdicts(snapshot, after.attempts, ask)
            && (r.Ok? ==> ResolvedExcept(snapshot, after.attempts, ask, []) && r.value == SummaryOf(snapshot, ids, ask, sum))
    decreases |ids|
  {
    hide J.Apply, AttemptCodec.DecodeAttempt, Unresolved, Tally, SummaryOf;
    if ids == [] {
      NoAnswers(snapshot, ask, sum);
    } else {
      var id := ids[0];
      if id !in snapshot || !Unresolved(snapshot[id]) {
        Skip(snapshot, l.attempts, ids, ask);
        ResolveAllExact(l, snapshot, ids[1..], isIp, ask, io, sum);
        SkipAnswers(snapshot, ids, ask, sum);
      } else if AttemptCodec.DecodeAttempt(snapshot[id].payload, isIp).Some? && !ask(id).Unreachable? {
        TallyAnswers(snapshot, ids, ask, sum);
        if ask(id).StillUnknown? {
          Skip(snapshot, l.attempts, ids, ask);
          ResolveAllExact(l, snapshot, ids[1..], isIp, ask, io, Tally(sum, id, ask(id)));
        } else {
          var op := J.Reconcile(id, ask(id).verdict);
          ApplyAttempts(l, op, io(id));
          var (after, error) := J.Apply(l, op, io(id));
          if error.None? {
            ResolveOne(l, snapshot, ids, ask, io(id));
            ResolveAllExact(after, snapshot, ids[1..], isIp, ask, io, Tally(sum, id, ask(id)));
          }
        }
      }
    }
  }

  /**
   Reconciliation adds verdicts and nothing else, even when it fails part
   way; when it succeeds every unresolved attempt was asked about once, in
   identity order, and the summary lists exactly the answers.
   */
  lemma ReconcileExact(l: J.Log, isIp: Str -> bool, ask: AttemptId -> Answer, io: AttemptId -> J.Io)
    ensures var (after, r) := Reconcile(l, isIp, ask, io);
            && OnlyVerdicts(l.attempts, after.attempts, ask)
            && (r.Ok? ==> ResolvedExcept(l.attempts, after.attempts, ask, [])
                          && r.value == SummaryOf(l.attempts, Sorted(l.attempts.Keys), ask, Summary([], [], [])))
  {
    hide ResolveAll, SummaryOf;
    var ids := Sorted(l.attempts.Keys);
    assert ResolvedExcept(l.attempts, l.attempts, ask, ids);
    ResolveAllExact(l, l.attempts, ids, isIp, ask, io, Summary([], [], []));
  }

  // ----- what it leaves on disk --------------------------------------------

  /** The provider answers some unresolved attempt with an empty receipt token. */
  predicate EmptyAnswer(snapshot: Attempts, ask: AttemptId -> Answer, id: AttemptId) {
    id in snapshot && Unresolved(snapshot[id]) && ask(id).Says? && JournalCodec.EmptyToken(ask(id).verdict)
  }

  /** Without an empty answer every point of the work keeps the journal readable. */
  lemma {:induction false} ResolvingKeepsJournal(l: J.Log, snapshot: Attempts, ids: seq<AttemptId>, isIp: Str -> bool,
                                                 ask: AttemptId -> Answer, io: AttemptId -> J.Io, sum: Summary)
    requires J.Valid(l) && forall id :: id in ids ==> !EmptyAnswer(snapshot, ask, id)
    ensures J.Valid(ResolveAll(l, snapshot, ids, isIp, ask, io, sum).0)
    decreases |ids|
  {
    hide J.Valid, J.Apply, AttemptCodec.DecodeAttempt, Unresolved, Tally;
    if ids != [] {
      var id := ids[0];
      if id in snapshot && Unresolved(snapshot[id]) && AttemptCodec.DecodeAttempt(snapshot[id].payload, isIp).Some? && ask(id).Says? {
        assert !EmptyAnswer(snapshot, ask, id);
        J.ApplyValid(l, J.Reconcile(id, ask(id).verdict), io(id));
        var (after, error) := J.Apply(l, J.Reconcile(id, ask(id).verdict), io(id));
        if error.None? {
          ResolvingKeepsJournal(after, snapshot, ids[1..], isIp, ask, io, Tally(sum, id, ask(id)));
        }
      } else {
        ResolvingKeepsJournal(l, snapshot, ids[1..], isIp, ask, io, sum);
        ResolvingKeepsJournal(l, snapshot, ids[1..], isIp, ask, io, Tally(sum, id, ask(id)));
      }
    }
  }

  /** Reconciliation is a run of journal calls, so a journal already unreadable stays so. */
  lemma {:induction false} ResolvingStaysUnreadable(l: J.Log, snapshot: Attempts, ids: seq<AttemptId>, isIp: Str -> bool,
                                                    ask: AttemptId -> Answer, io: AttemptId -> J.Io, sum: Summary)
    requires J.Unreadable(l)
    ensures J.Unreadable(ResolveAll(l, snapshot, ids, isIp, ask, io, sum).0)
    decreases |ids|
  {
    hide J.Unreadable, J.Apply, AttemptCodec.DecodeAttempt, Unresolved, Tally;
    if ids != [] {
      var id := ids[0];
      ResolvingStaysUnreadable(l, snapshot, ids[1..], isIp, ask, io, sum);
      ResolvingStaysUnreadable(l, snapshot, ids[1..], isIp, ask, io, Tally(sum, id, ask(id)));
      if ask(id).Says? {
        var op := J.Reconcile(id, ask(id).verdict);
        StepUnreadable(l, op, io(id));
        var after := J.Apply(l, op, io(id)).0;
        ResolvingStaysUnreadable(after, snapshot, ids[1..], isIp, ask, io, Tally(sum, id, ask(id)));
      }
    }
  }

  lemma StepUnreadable(l: J.Log, op: J.Op, io: J.Io)
    requires J.Unreadable(l)
    ensures J.Unreadable(J.Apply(l, op, io).0)
  {
    hide J.Unreadable, J.Apply;
    J.UnreadableForever(l, [(op, io)]);
    assert [(op, io)][1..] == [];
    assert J.Run(J.Apply(l, op, io).0, []) == J.Apply(l, op, io).0;
  }

  /** A successful pass over an empty answer has written it. */
  lemma {:induction false} ResolvingEmpty(l: J.Log, snapshot: Attempts, ids: seq<AttemptId>, isIp: Str -> bool,
                                          ask: AttemptId -> Answer, io: AttemptId -> J.Io, sum: Summary, bad: AttemptId)
    requires J.Valid(l) && bad in ids && EmptyAnswer(snapshot, ask, bad)
    requires ResolveAll(l, snapshot, ids, isIp, ask, io, sum).1.Ok?
    ensures J.Unreadable(ResolveAll(l, snapshot, ids, isIp, ask, io, sum).0)
    decreases |ids|
  {
    hide J.Valid, J.Unreadable, J.Apply, AttemptCodec.DecodeAttempt, Unresolved, Tally;
    var id := ids[0];
    assert ids == [id] + ids[1..];
    if id !in snapshot || !Unresolved(snapshot[id]) {
      ResolvingEmpty(l, snapshot, ids[1..], isIp, ask, io, sum, bad);
    } else if ask(id).StillUnknown? {
      ResolvingEmpty(l, snapshot, ids[1..], isIp, ask, io, Tally(sum, id, ask(id)), bad);
    } else {
      var op := J.Reconcile(id, ask(id).verdict);
      var after := J.Apply(l, op, io(id)).0;
      if JournalCodec.EmptyToken(ask(id).verdict) {
        EmptyWritten(l, op, io(id));
        ResolvingStaysUnreadable(after, snapshot, ids[1..], isIp, ask, io, Tally(sum, id, ask(id)));
      } else {
        J.ApplyValid(l, op, io(id));
        ResolvingEmpty(after, snapshot, ids[1..], isIp, ask, io, Tally(sum, id, ask(id)), bad);
      }
    }
  }

  lemma EmptyWritten(l: J.Log, op: J.Op, io: J.Io)
    requires J.Valid(l) && op.Reconcile? && JournalCodec.EmptyToken(op.verdict) && J.Apply(l, op, io).1.None?
    ensures J.Unreadable(J.Apply(l, op, io).0)
  {
    SucceedsSynced(l, op, io);
    J.SyncedRefines(l, op);
    WithinCapacity(l, op);
  }

  lemma SucceedsSynced(l: J.Log, op: J.Op, io: J.Io)
    requires J.Apply(l, op, io).1.None?
    ensures io == J.Synced
  {
    hide J.Payload, J.Refusal, J.Record, J.Kind, PutFrame;
  }

  lemma WithinCapacity(l: J.Log, op: J.Op)
    requires J.Apply(l, op, J.Synced).1.None?
    ensures J.Apply(l, op, J.Synced).0.length <= J.Apply(l, op, J.Synced).0.capacity
  {
    hide J.Payload, J.Refusal, J.Record, J.Kind, PutFrame;
  }

  /**
   Reconciliation keeps the journal readable while no answer is an empty
   token, even when it fails part way; when it succeeds the journal opens
   again if and only if no unresolved attempt was answered with one.
   */
  lemma ReconcileKeepsJournal(l: J.Log, isIp: Str -> bool, ask: AttemptId -> Answer, io: AttemptId -> J.Io)
    requires J.Valid(l)
    ensures (forall id :: !EmptyAnswer(l.attempts, ask, id)) ==> J.Valid(Reconcile(l, isIp, ask, io).0)
    ensures var (after, r) := Reconcile(l, isIp, ask, io);
            r.Ok? ==> (J.Open(after.disk, after.capacity).Ok? <==> forall id :: !EmptyAnswer(l.attempts, ask, id))
  {
    hide J.Valid, ResolveAll, EmptyAnswer, J.Open;
    var ids, none := Sorted(l.attempts.Keys), Summary([], [], []);
    var (after, r) := Reconcile(l, isIp, ask, io);
    if forall id :: !EmptyAnswer(l.attempts, ask, id) {
      ResolvingKeepsJournal(l, l.attempts, ids, isIp, ask, io, none);
      if r.Ok? {
        ResolvedUnsealed(l, l.attempts, ids, isIp, ask, io, none);
        J.OpenExact(after);
      }
    } else if r.Ok? {
      var bad :| EmptyAnswer(l.attempts, ask, bad);
      AnswerKnown(l.attempts, ask, bad);
      ResolvingEmpty(l, l.attempts, ids, isIp, ask, io, none, bad);
      NeverOpens(after);
    }
  }

  lemma AnswerKnown(snapshot: Attempts, ask: AttemptId -> Answer, id: AttemptId)
    requires EmptyAnswer(snapshot, ask, id)
    ensures id in snapshot.Keys
  {
  }

  lemma NeverOpens(l: J.Log)
    requires J.Unreadable(l)
    ensures J.Open(l.disk, l.capacity).Err?
  {
    hide Parse;
  }

  lemma {:induction false} ResolvedUnsealed(l: J.Log, snapshot: Attempts, ids: seq<AttemptId>, isIp: Str -> bool,
                                            ask: AttemptId -> Answer, io: AttemptId -> J.Io, sum: Summary)
    requires !l.unusable && ResolveAll(l, snapshot, ids, isIp, ask, io, sum).1.Ok?
    ensures !ResolveAll(l, snapshot, ids, isIp, ask, io, sum).0.unusable
    decreases |ids|
  {
    hide J.Apply, AttemptCodec.DecodeAttempt, Unresolved, Tally;
    if ids != [] {
      var id := ids[0];
      if id !in snapshot || !Unresolved(snapshot[id]) {
        ResolvedUnsealed(l, snapshot, ids[1..], isIp, ask, io, sum);
      } else if ask(id).StillUnknown? {
        ResolvedUnsealed(l, snapshot, ids[1..], isIp, ask, io, Tally(sum, id, ask(id)));
      } else {
        StaysUsable(l, J.Reconcile(id, ask(id).verdict), io(id));
        ResolvedUnsealed(J.Apply(l, J.Reconcile(id, ask(id).verdict), io(id)).0, snapshot, ids[1..], isIp, ask, io, Tally(sum, id, ask(id)));
      }
    }
  }

  lemma StaysUsable(l: J.Log, op: J.Op, io: J.Io)
    requires J.Apply(l, op, io).1.None?
    ensures !J.Apply(l, op, io).0.unusable
  {
    hide J.Payload, J.Refusal, J.Record, J.Kind, PutFrame;
  }

  // ----- when it succeeds --------------------------------------------------

  /** Nothing stands in the way of one unresolved attempt: it decodes, the provider answers, and an answer can be written. */
  predicate Resolvable(a: Attempt, id: AttemptId, isIp: Str -> bool, answer: Answer, io: J.Io) {
    && AttemptCodec.DecodeAttempt(a.payload, isIp).Some?
    && match answer
       case Unreachable => false
       case StillUnknown => true
       case Says(NotCommitted) => io.Synced?
       case Says(CommittedAs(r)) => io.Synced? && r.attempt == id && 14 + |r.token| <= 8_388_608
  }

  /** What the verdicts of the listed attempts add to the journal. */
  function VerdictBytes(snapshot: Attempts, ids: seq<AttemptId>, ask: AttemptId -> Answer): nat {
    if ids == [] then 0
    else
      (if ids[0] in snapshot && Unresolved(snapshot[ids[0]]) && ask(ids[0]).Says?
       then (if ask(ids[0]).verdict.CommittedAs? then 54 + |ask(ids[0]).verdict.receipt.token| else 42) else 0)
      + VerdictBytes(snapshot, ids[1..], ask)
  }

  predicate AllResolvable(snapshot: Attempts, ids: seq<AttemptId>, isIp: Str -> bool, ask: AttemptId -> Answer, io: AttemptId -> J.Io) {
    forall id :: id in ids && id in snapshot && Unresolved(snapshot[id]) ==> Resolvable(snapshot[id], id, isIp, ask(id), io(id))
  }

  lemma ResolvableSplit(snapshot: Attempts, ids: seq<AttemptId>, isIp: Str -> bool, ask: AttemptId -> Answer, io: AttemptId -> J.Io)
    requires ids != []
    ensures AllResolvable(snapshot, ids, isIp, ask, io) <==>
            && (ids[0] in snapshot && Unresolved(snapshot[ids[0]]) ==> Resolvable(snapshot[ids[0]], ids[0], isIp, ask(ids[0]), io(ids[0])))
            && AllResolvable(snapshot, ids[1..], isIp, ask, io)
  {
    hide Resolvable, Unresolved;
    assert ids == [ids[0]] + ids[1..];
  }

  lemma VerdictCall(a: Attempt, attempts: Attempts, id: AttemptId, isIp: Str -> bool, answer: Answer, io: J.Io)
    requires answer.Says? && id in attempts && Unresolved(attempts[id]) && AttemptCodec.DecodeAttempt(a.payload, isIp).Some?
    ensures Resolvable(a, id, isIp, answer, io) <==> io.Synced? && JD.Writable(J.Reconcile(id, answer.verdict))
    ensures JD.Permitted(attempts, J.Reconcile(id, answer.verdict))
    ensures JD.Size(J.Reconcile(id, answer.verdict)) == if answer.verdict.CommittedAs? then 54 + |answer.verdict.receipt.token| else 42
  {
    hide AttemptCodec.DecodeAttempt, AttemptCodec.PutAttempt, JD.TerminalForm;
    match answer.verdict
    case NotCommitted =>
    case CommittedAs(_) =>
  }

  lemma StillUnresolved(snapshot: Attempts, now: Attempts, ids: seq<AttemptId>, ask: AttemptId -> Answer)
    requires ids != [] && ResolvedExcept(snapshot, now, ask, ids) && ids[0] in snapshot
    ensures ids[0] in now && now[ids[0]] == snapshot[ids[0]]
  {
  }

  lemma {:induction false} ResolvingSucceeds(l: J.Log, snapshot: Attempts, ids: seq<AttemptId>, isIp: Str -> bool,
                                             ask: AttemptId -> Answer, io: AttemptId -> J.Io, sum: Summary)
    requires JD.Paced(l) && !l.unusable && Ascending(ids) && ResolvedExcept(snapshot, l.attempts, ask, ids)
    ensures ResolveAll(l, snapshot, ids, isIp, ask, io, sum).1.Ok? <==>
            AllResolvable(snapshot, ids, isIp, ask, io) && l.length + VerdictBytes(snapshot, ids, ask) <= l.capacity
    decreases |ids|
  {
    hide J.Apply, AttemptCodec.DecodeAttempt, Unresolved, Tally, AllResolvable, ResolvedExcept, JD.Writable, JD.Permitted, JD.Size;
    if ids == [] {
      NothingToResolve(snapshot, isIp, ask, io);
    } else {
      var id := ids[0];
      ResolvableSplit(snapshot, ids, isIp, ask, io);
      if id !in snapshot || !Unresolved(snapshot[id]) {
        Skip(snapshot, l.attempts, ids, ask);
        ResolvingSucceeds(l, snapshot, ids[1..], isIp, ask, io, sum);
      } else if AttemptCodec.DecodeAttempt(snapshot[id].payload, isIp).Some? && ask(id).StillUnknown? {
        Skip(snapshot, l.attempts, ids, ask);
        ResolvingSucceeds(l, snapshot, ids[1..], isIp, ask, io, Tally(sum, id, ask(id)));
      } else if AttemptCodec.DecodeAttempt(snapshot[id].payload, isIp).Some? && ask(id).Says? {
        var op := J.Reconcile(id, ask(id).verdict);
        StillUnresolved(snapshot, l.attempts, ids, ask);
        VerdictCall(snapshot[id], l.attempts, id, isIp, ask(id), io(id));
        JD.AcceptedExactly(l, op, io(id));
        JD.ApplyPaced(l, op, io(id));
        var (after, error) := J.Apply(l, op, io(id));
        if error.None? {
          ResolveOne(l, snapshot, ids, ask, io(id));
          CapacityStays(l, op, io(id));
          ResolvingSucceeds(after, snapshot, ids[1..], isIp, ask, io, Tally(sum, id, ask(id)));
        }
      }
    }
  }

  lemma NothingToResolve(snapshot: Attempts, isIp: Str -> bool, ask: AttemptId -> Answer, io: AttemptId -> J.Io)
    ensures AllResolvable(snapshot, [], isIp, ask, io) && VerdictBytes(snapshot, [], ask) == 0
  {
  }

  /**
   Reconciliation succeeds if and only if the journal is usable, every
   unresolved attempt decodes and is answered, and every verdict is in order,
   synced and fits.
   */
  lemma ReconcileSucceeds(l: J.Log, isIp: Str -> bool, ask: AttemptId -> Answer, io: AttemptId -> J.Io)
    requires JD.Paced(l)
    ensures Reconcile(l, isIp, ask, io).1.Ok? <==>
            && !l.unusable
            && (forall id :: id in l.attempts && Unresolved(l.attempts[id]) ==> Resolvable(l.attempts[id], id, isIp, ask(id), io(id)))
            && l.length + VerdictBytes(l.attempts, Sorted(l.attempts.Keys), ask) <= l.capacity
  {
    hide ResolveAll, VerdictBytes, Resolvable, Unresolved, Sorted;
    var ids := Sorted(l.attempts.Keys);
    assert ResolvedExcept(l.attempts, l.attempts, ask, ids);
    if !l.unusable {
      ResolvingSucceeds(l, l.attempts, ids, isIp, ask, io, Summary([], [], []));
    }
  }

  /** `id` is unresolved and in the way, for the reason given. */
  ghost predicate StoppedAt(snapshot: Attempts, isIp: Str -> bool, ask: AttemptId -> Answer, id: AttemptId, e: ReconciliationError) {
    && id in snapshot && Unresolved(snapshot[id])
    && if AttemptCodec.DecodeAttempt(snapshot[id].payload, isIp).None? then e == Journaled(InvalidRecord)
       else if ask(id).Unreachable? then e == Provider(id)
       else ask(id).Says? && e.Journaled?
  }

  /** A failure comes from an unresolved attempt and says why. */
  lemma {:induction false} ResolvingStops(l: J.Log, snapshot: Attempts, ids: seq<AttemptId>, isIp: Str -> bool,
                                          ask: AttemptId -> Answer, io: AttemptId -> J.Io, sum: Summary)
    requires ResolveAll(l, snapshot, ids, isIp, ask, io, sum).1.Err?
    ensures exists id :: id in ids && StoppedAt(snapshot, isIp, ask, id, ResolveAll(l, snapshot, ids, isIp, ask, io, sum).1.error)
    decreases |ids|
  {
    hide J.Apply, AttemptCodec.DecodeAttempt, Unresolved, Tally;
    var id := ids[0];
    assert ids == [id] + ids[1..];
    var e := ResolveAll(l, snapshot, ids, isIp, ask, io, sum).1.error;
    if id !in snapshot || !Unresolved(snapshot[id]) {
      ResolvingStops(l, snapshot, ids[1..], isIp, ask, io, sum);
    } else if AttemptCodec.DecodeAttempt(snapshot[id].payload, isIp).Some? && ask(id).StillUnknown? {
      ResolvingStops(l, snapshot, ids[1..], isIp, ask, io, Tally(sum, id, ask(id)));
    } else if AttemptCodec.DecodeAttempt(snapshot[id].payload, isIp).Some? && ask(id).Says? {
      var (after, error) := J.Apply(l, J.Reconcile(id, ask(id).verdict), io(id));
      if error.None? {
        ResolvingStops(after, snapshot, ids[1..], isIp, ask, io, Tally(sum, id, ask(id)));
      } else {
        assert StoppedAt(snapshot, isIp, ask, id, e);
      }
    } else {
      assert StoppedAt(snapshot, isIp, ask, id, e);
    }
  }
}
