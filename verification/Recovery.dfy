/** Recovery of a journal left by an earlier process (`AuditTrail::recover_with_backend`). */
module Recovery {
  import opened Bytes
  import opened Order
  import opened Journal
  import J = JournalLog
  import JD = JournalDecisions
  import opened Audit

  /** The evidence recorded for an attempt found `Started`. */
  function RecoveredEvidence(): (token: Str)
    ensures |token| == 77
  {
    var text := "authority-core recovery closed an attempt left started by an unclean shutdown";
    seq(|text|, i requires 0 <= i < |text| => text[i] as int % 256)
  }

  datatype AuditRecovery = AuditRecovery(instance: u64, inherited: nat, reconciled: seq<AttemptId>)

  function RecoveryFinish(id: AttemptId): J.Op {
    J.Finish(id, CommitUnknown, None, Some(Evidence(id, RecoveredEvidence())))
  }

  /** Finishes, in the given order, every attempt the snapshot shows as `Started`. */
  function CloseStarted(l: J.Log, inherited: Attempts, ids: seq<AttemptId>, io: AttemptId -> J.Io, done: seq<AttemptId>)
    : (J.Log, Result<seq<AttemptId>, JournalError>)
    decreases |ids|
  {
    if ids == [] then (l, Ok(done))
    else if ids[0] !in inherited || inherited[ids[0]].outcome != Started then CloseStarted(l, inherited, ids[1..], io, done)
    else
      var (after, error) := J.Apply(l, RecoveryFinish(ids[0]), io(ids[0]));
      if error.Some? then (after, Err(error.value))
      else CloseStarted(after, inherited, ids[1..], io, done + [ids[0]])
  }

  function Recover(l: J.Log, io: AttemptId -> J.Io): (J.Log, Result<(Trail, AuditRecovery), AuditError>) {
    if l.unusable then (l, Err(Durable(JournalUnavailable)))
    else if NextAttempt(l.attempts).None? then (l, Err(AttemptIdExhausted))
    else
      var instance := NextAttempt(l.attempts).value;
      var (after, closed) := CloseStarted(l, l.attempts, Sorted(l.attempts.Keys), io, []);
      match closed
      case Err(e) => (after, Err(Durable(e)))
      case Ok(ids) =>
        (after, Ok((Trail(NextAttempt(after.attempts), [], instance, Some(after)), AuditRecovery(instance, |l.attempts|, ids))))
  }

  // ----- what closing does -------------------------------------------------

  /** The terminal record recovery writes over a `Started` one. */
  predicate ClosedFrom(id: AttemptId, a: Attempt, b: Attempt) {
    && b.finishSequence.Some?
    && b == a.(outcome := CommitUnknown, finishSequence := b.finishSequence, receipt := None,
               evidence := Some(Evidence(id, RecoveredEvidence())))
  }

  /** Every inherited `Started` attempt outside `todo` is closed; every other record is as inherited. */
  predicate ClosedExcept(inherited: Attempts, now: Attempts, todo: seq<AttemptId>) {
    && now.Keys == inherited.Keys
    && forall id :: id in inherited ==>
         if inherited[id].outcome == Started && id !in todo then ClosedFrom(id, inherited[id], now[id]) else now[id] == inherited[id]
  }

  /** Whatever happened on the way, terminal records are untouched and nothing else was written. */
  predicate TerminalKept(inherited: Attempts, now: Attempts) {
    && now.Keys == inherited.Keys
    && forall id :: id in inherited ==>
         || now[id] == inherited[id]
         || (inherited[id].outcome == Started && ClosedFrom(id, inherited[id], now[id]))
  }

  function StartedIds(inherited: Attempts, ids: seq<AttemptId>): seq<AttemptId> {
    if ids == [] then []
    else (if ids[0] in inherited && inherited[ids[0]].outcome == Started then [ids[0]] else []) + StartedIds(inherited, ids[1..])
  }

  lemma CloseOne(l: J.Log, inherited: Attempts, ids: seq<AttemptId>, io: J.Io)
    requires ids != [] && Ascending(ids) && ClosedExcept(inherited, l.attempts, ids)
    requires ids[0] in inherited && inherited[ids[0]].outcome == Started
    requires J.Apply(l, RecoveryFinish(ids[0]), io).1.None?
    ensures ClosedExcept(inherited, J.Apply(l, RecoveryFinish(ids[0]), io).0.attempts, ids[1..])
  {
    hide J.Apply, J.Payload, RecoveredEvidence;
    ApplyAttempts(l, RecoveryFinish(ids[0]), io);
    forall id | id in inherited && id != ids[0] ensures id in ids <==> id in ids[1..] {
    }
    assert ids[0] !in ids[1..];
  }

  lemma SkipOne(inherited: Attempts, now: Attempts, ids: seq<AttemptId>)
    requires ids != [] && ClosedExcept(inherited, now, ids)
    requires ids[0] !in inherited || inherited[ids[0]].outcome != Started
    ensures ClosedExcept(inherited, now, ids[1..])
  {
    hide ClosedFrom;
    assert ids == [ids[0]] + ids[1..];
  }

  lemma PartlyClosed(inherited: Attempts, now: Attempts, ids: seq<AttemptId>)
    requires ClosedExcept(inherited, now, ids)
    ensures TerminalKept(inherited, now)
  {
    hide ClosedFrom;
  }

  lemma {:induction false} CloseStartedExact(l: J.Log, inherited: Attempts, ids: seq<AttemptId>, io: AttemptId -> J.Io, done: seq<AttemptId>)
    requires Ascending(ids) && ClosedExcept(inherited, l.attempts, ids)
    ensures var (after, closed) := CloseStarted(l, inherited, ids, io, done);
            && TerminalKept(inherited, after.attempts)
            && (closed.Ok? ==> ClosedExcept(inherited, after.attempts, []) && closed.value == done + StartedIds(inherited, ids))
    decreases |ids|
  {
    hide J.Apply, ClosedExcept, TerminalKept, RecoveryFinish;
    PartlyClosed(inherited, l.attempts, ids);
    if ids == [] {
      assert done + [] == done;
    } else {
      if ids[0] !in inherited || inherited[ids[0]].outcome != Started {
        SkipOne(inherited, l.attempts, ids);
        CloseStartedExact(l, inherited, ids[1..], io, done);
      } else {
        var (after, error) := J.Apply(l, RecoveryFinish(ids[0]), io(ids[0]));
        if error.Some? {
          ApplyAttempts(l, RecoveryFinish(ids[0]), io(ids[0]));
        } else {
          CloseOne(l, inherited, ids, io(ids[0]));
          CloseStartedExact(after, inherited, ids[1..], io, done + [ids[0]]);
          var rest := StartedIds(inherited, ids[1..]);
          assert done + [ids[0]] + rest == done + ([ids[0]] + rest);
        }
      }
    }
  }

  lemma {:induction false} NothingToClose(l: J.Log, inherited: Attempts, ids: seq<AttemptId>, io: AttemptId -> J.Io, done: seq<AttemptId>)
    requires forall id :: id in inherited ==> inherited[id].outcome != Started
    ensures CloseStarted(l, inherited, ids, io, done) == (l, Ok(done))
    decreases |ids|
  {
    if ids != [] {
      NothingToClose(l, inherited, ids[1..], io, done);
    }
  }

  // ----- what recovery promises --------------------------------------------

  /**
   Recovery never changes a terminal record, even when it fails; when it
   succeeds exactly the dangling attempts were closed, in identity order, and
   the new state instance is above every inherited identity.
   */
  lemma RecoverExact(l: J.Log, io: AttemptId -> J.Io)
    ensures TerminalKept(l.attempts, Recover(l, io).0.attempts)
    ensures Recover(l, io).1.Ok? ==>
              Recovered(l.attempts, Recover(l, io).0, Recover(l, io).1.value.0, Recover(l, io).1.value.1)
  {
    hide CloseStarted, NextAttempt, ClosedFrom, Sorted, StartedIds, TerminalKept, ClosedExcept;
    var ids := Sorted(l.attempts.Keys);
    NothingClosed(l.attempts, ids);
    CloseStartedExact(l, l.attempts, ids, io, []);
    var (after, closed) := CloseStarted(l, l.attempts, ids, io, []);
    if closed.Ok? {
      assert [] + StartedIds(l.attempts, ids) == StartedIds(l.attempts, ids);
      AllClosed(l.attempts, after.attempts);
      NextByKeys(l.attempts, after.attempts);
    }
  }

  predicate Recovered(inherited: Attempts, after: J.Log, trail: Trail, report: AuditRecovery) {
    && ClosedExcept(inherited, after.attempts, [])
    && report.reconciled == StartedIds(inherited, Sorted(inherited.Keys))
    && report.inherited == |inherited|
    && report.instance == trail.instance
    && trail.backend == Some(after) && Audit.Valid(trail)
    && trail.next == Some(trail.instance)
    && forall id :: id in after.attempts ==> id < trail.instance && after.attempts[id].outcome != Started
  }

  lemma NothingClosed(inherited: Attempts, ids: seq<AttemptId>)
    requires forall id :: id in inherited ==> id in ids
    ensures ClosedExcept(inherited, inherited, ids) && TerminalKept(inherited, inherited)
  {
    hide ClosedFrom;
  }

  lemma AllClosed(inherited: Attempts, now: Attempts)
    requires ClosedExcept(inherited, now, [])
    ensures now.Keys == inherited.Keys
    ensures forall id :: id in now ==> now[id].outcome != Started
  {
    hide RecoveredEvidence;
  }

  /** A second recovery right after a successful one writes nothing and reconciles nothing. */
  lemma RecoverTwice(l: J.Log, io: AttemptId -> J.Io, again: AttemptId -> J.Io)
    requires J.Valid(l) && Recover(l, io).1.Ok?
    ensures var after := Recover(l, io).0;
            var (last, r) := Recover(after, again);
            last == after && r.Ok? && r.value.1.reconciled == [] && r.value.0 == Recover(l, io).1.value.0
  {
    hide CloseStarted, NextAttempt, ClosedExcept, TerminalKept, Sorted, StartedIds, J.Valid;
    RecoverExact(l, io);
    RecoverKeepsJournal(l, io);
    var after := Recover(l, io).0;
    NothingToClose(after, after.attempts, Sorted(after.attempts.Keys), again, []);
  }

  lemma {:induction false} ClosingKeepsJournal(l: J.Log, inherited: Attempts, ids: seq<AttemptId>, io: AttemptId -> J.Io, done: seq<AttemptId>)
    requires J.Valid(l) && !l.unusable
    ensures var (after, closed) := CloseStarted(l, inherited, ids, io, done);
            J.Valid(after) && (closed.Ok? ==> !after.unusable)
    decreases |ids|
  {
    hide J.Valid, J.Payload, J.Refusal, J.Record, J.Kind, PutFrame, RecoveredEvidence;
    if ids != [] {
      if ids[0] !in inherited || inherited[ids[0]].outcome != Started {
        ClosingKeepsJournal(l, inherited, ids[1..], io, done);
      } else {
        J.ApplyValid(l, RecoveryFinish(ids[0]), io(ids[0]));
        var (after, error) := J.Apply(l, RecoveryFinish(ids[0]), io(ids[0]));
        if error.None? {
          ClosingKeepsJournal(after, inherited, ids[1..], io, done + [ids[0]]);
        }
      }
    }
  }

  /** Recovery keeps the journal readable and leaves it open for appends when it succeeds. */
  lemma RecoverKeepsJournal(l: J.Log, io: AttemptId -> J.Io)
    requires J.Valid(l)
    ensures J.Valid(Recover(l, io).0)
    ensures Recover(l, io).1.Ok? ==> !Recover(l, io).0.unusable
  {
    hide J.Valid, CloseStarted;
    if !l.unusable {
      ClosingKeepsJournal(l, l.attempts, Sorted(l.attempts.Keys), io, []);
    }
  }

  // ----- when recovery succeeds --------------------------------------------

  /** The attempts an unclean shutdown left `Started`. */
  function Dangling(attempts: Attempts): set<AttemptId> {
    set id | id in attempts && attempts[id].outcome == Started
  }

  lemma ClosingCall(attempts: Attempts, id: AttemptId)
    ensures JD.Writable(RecoveryFinish(id)) && JD.Size(RecoveryFinish(id)) == CLOSING_BYTES
    ensures JD.Permitted(attempts, RecoveryFinish(id)) <==> id in attempts && attempts[id].outcome == Started
  {
  }

  /** Each closing appends 122 bytes. */
  const CLOSING_BYTES := 122

  lemma {:induction false} ClosingSucceeds(l: J.Log, inherited: Attempts, ids: seq<AttemptId>, io: AttemptId -> J.Io, done: seq<AttemptId>)
    requires JD.Paced(l) && !l.unusable && Ascending(ids) && ClosedExcept(inherited, l.attempts, ids)
    ensures CloseStarted(l, inherited, ids, io, done).1.Ok? <==>
            && (forall id :: id in StartedIds(inherited, ids) ==> io(id).Synced?)
            && l.length + CLOSING_BYTES * |StartedIds(inherited, ids)| <= l.capacity
    decreases |ids|
  {
    hide J.Apply, ClosedExcept, RecoveryFinish, JD.Writable, JD.Permitted, JD.Size;
    if ids != [] {
      var rest := StartedIds(inherited, ids[1..]);
      if ids[0] !in inherited || inherited[ids[0]].outcome != Started {
        SkipOne(inherited, l.attempts, ids);
        ClosingSucceeds(l, inherited, ids[1..], io, done);
        assert StartedIds(inherited, ids) == rest;
      } else {
        var op := RecoveryFinish(ids[0]);
        assert StartedIds(inherited, ids) == [ids[0]] + rest;
        StillStarted(inherited, l.attempts, ids);
        ClosingCall(l.attempts, ids[0]);
        JD.AcceptedExactly(l, op, io(ids[0]));
        JD.ApplyPaced(l, op, io(ids[0]));
        var (after, error) := J.Apply(l, op, io(ids[0]));
        if error.None? {
          CloseOne(l, inherited, ids, io(ids[0]));
          CapacityStays(l, op, io(ids[0]));
          ClosingSucceeds(after, inherited, ids[1..], io, done + [ids[0]]);
        }
      }
    }
  }

  lemma StillStarted(inherited: Attempts, now: Attempts, ids: seq<AttemptId>)
    requires ids != [] && ClosedExcept(inherited, now, ids) && ids[0] in inherited
    ensures ids[0] in now && now[ids[0]] == inherited[ids[0]]
  {
    hide ClosedFrom;
  }

  lemma CapacityStays(l: J.Log, op: J.Op, io: J.Io)
    requires JD.Paced(l) && J.Apply(l, op, io).1.None?
    ensures J.Apply(l, op, io).0.capacity == l.capacity && !J.Apply(l, op, io).0.unusable
  {
    hide J.Apply, JD.Writable, JD.Permitted, JD.Size, JD.FormFault, JD.PlaceFault;
    JD.ApplyEnds(l, op, io);
  }

  lemma {:induction false} StartedMember(inherited: Attempts, ids: seq<AttemptId>, id: AttemptId)
    ensures id in StartedIds(inherited, ids) <==> id in ids && id in inherited && inherited[id].outcome == Started
    decreases |ids|
  {
    if ids != [] {
      StartedMember(inherited, ids[1..], id);
      assert ids == [ids[0]] + ids[1..];
    }
  }

  function Members(ids: seq<AttemptId>): set<AttemptId> {
    set id | id in ids
  }

  lemma MembersCons(first: AttemptId, rest: seq<AttemptId>)
    requires first !in rest
    ensures |Members([first] + rest)| == 1 + |Members(rest)|
  {
    assert Members([first] + rest) == {first} + Members(rest);
  }

  lemma {:induction false} StartedCount(inherited: Attempts, ids: seq<AttemptId>)
    requires Ascending(ids)
    ensures |StartedIds(inherited, ids)| == |Members(StartedIds(inherited, ids))|
    decreases |ids|
  {
    if ids == [] {
      assert Members([]) == {};
    } else {
      hide Members;
      var rest := StartedIds(inherited, ids[1..]);
      StartedCount(inherited, ids[1..]);
      StartedMember(inherited, ids[1..], ids[0]);
      assert ids[0] !in ids[1..];
      if ids[0] in inherited && inherited[ids[0]].outcome == Started {
        MembersCons(ids[0], rest);
        assert StartedIds(inherited, ids) == [ids[0]] + rest;
      } else {
        assert StartedIds(inherited, ids) == rest;
      }
    }
  }

  lemma IdentityLeft(attempts: Attempts)
    ensures NextAttempt(attempts).Some? <==> 0xFFFF_FFFF_FFFF_FFFF !in attempts
  {
    if attempts.Keys != {} {
      assert Largest(attempts.Keys) in attempts.Keys;
    }
  }

  /**
   Recovery succeeds if and only if the journal is usable, the last identity
   was never used, and every closing is synced and fits; a failure says which.
   */
  lemma RecoverSucceeds(l: J.Log, io: AttemptId -> J.Io)
    requires JD.Paced(l)
    ensures Recover(l, io).1.Ok? <==>
            && !l.unusable && 0xFFFF_FFFF_FFFF_FFFF !in l.attempts
            && (forall id :: id in Dangling(l.attempts) ==> io(id).Synced?)
            && l.length + CLOSING_BYTES * |Dangling(l.attempts)| <= l.capacity
    ensures Recover(l, io).1 == Err(Durable(JournalUnavailable)) <==> l.unusable
    ensures Recover(l, io).1 == Err(AttemptIdExhausted) <==> !l.unusable && 0xFFFF_FFFF_FFFF_FFFF in l.attempts
  {
    hide CloseStarted, NextAttempt, Sorted, ClosedExcept, StartedIds;
    IdentityLeft(l.attempts);
    var ids := Sorted(l.attempts.Keys);
    NothingClosed(l.attempts, ids);
    StartedCount(l.attempts, ids);
    forall id ensures id in StartedIds(l.attempts, ids) <==> id in Dangling(l.attempts) {
      StartedMember(l.attempts, ids, id);
    }
    assert Dangling(l.attempts) == Members(StartedIds(l.attempts, ids));
    if !l.unusable {
      ClosingSucceeds(l, l.attempts, ids, io, []);
      ClosingErrors(l, l.attempts, ids, io, []);
    }
  }

  lemma {:induction false} ClosingErrors(l: J.Log, inherited: Attempts, ids: seq<AttemptId>, io: AttemptId -> J.Io, done: seq<AttemptId>)
    requires JD.Paced(l) && !l.unusable
    ensures CloseStarted(l, inherited, ids, io, done).1 != Err(JournalUnavailable)
    decreases |ids|
  {
    hide J.Apply, RecoveryFinish, JD.Permitted, JD.Size;
    if ids != [] {
      ClosingErrors(l, inherited, ids[1..], io, done);
      var op := RecoveryFinish(ids[0]);
      JD.ApplyEnds(l, op, io(ids[0]));
      JD.ApplyPaced(l, op, io(ids[0]));
      var (after, error) := J.Apply(l, op, io(ids[0]));
      if error.None? {
        ClosingErrors(after, inherited, ids[1..], io, done + [ids[0]]);
      }
    }
  }
}
