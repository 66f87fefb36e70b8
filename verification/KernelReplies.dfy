/** What the caller of an effect is told agrees with the audit record and with what happened. */
module KernelReplies {
  import opened Bytes
  import opened Capability
  import Journal
  import J = JournalLog
  import S = State
  import A = Audit
  import opened K = Kernel
  import opened KernelInvariant
  import opened KernelTruth

  /** Memory and journal both show this outcome. */
  predicate OnRecord(trail: A.Trail, i: nat, outcome: Journal.Outcome) {
    && i < |trail.entries| && trail.entries[i].outcome == outcome
    && (trail.backend.Some? ==>
          trail.entries[i].id in trail.backend.value.attempts && trail.backend.value.attempts[trail.entries[i].id].outcome == outcome)
  }

  /** The journal, if there is one, holds exactly this evidence. */
  predicate EvidenceOnRecord(trail: A.Trail, i: nat, evidence: Str) {
    && i < |trail.entries|
    && (trail.backend.Some? ==>
          && trail.entries[i].id in trail.backend.value.attempts
          && trail.backend.value.attempts[trail.entries[i].id].evidence == Some(Journal.Evidence(trail.entries[i].id, evidence)))
  }

  /**
   What each reply means. Success: the effect landed and is committed on
   record. Refusal: the executor was not called and the denial is on record,
   or nothing was started. Failure: it was called, nothing landed, on record.
   Unknown: on record with exactly this evidence. The unsaved replies: the
   attempt is still open on record.
   */
  ghost predicate Told(history: seq<Event>, trail: A.Trail, attempt: Option<nat>, reply: Reply) {
    match attempt
    case None => reply == NotAuthorized || reply == AuditFailed
    case Some(i) =>
      match reply
      case Done => HasLanded(history, i) && OnRecord(trail, i, Journal.Committed)
      case NotAuthorized => !HasInvoked(history, i) && !HasLanded(history, i) && OnRecord(trail, i, Journal.Denied)
      case EffectFailed => HasInvoked(history, i) && !HasLanded(history, i) && OnRecord(trail, i, Journal.FailedBeforeCommit)
      case ToldUnknown(evidence) => HasInvoked(history, i) && OnRecord(trail, i, Journal.CommitUnknown) && EvidenceOnRecord(trail, i, evidence)
      case AuditFailed => !HasLanded(history, i) && OnRecord(trail, i, Journal.Started)
      case CommittedUnsaved(_) => HasLanded(history, i) && OnRecord(trail, i, Journal.Started)
      case UnknownUnsaved(_) => HasInvoked(history, i) && OnRecord(trail, i, Journal.Started)
  }

  /** The reply a stored outcome will be answered with. */
  predicate Matching(trail: A.Trail, i: nat, outcome: Journal.Outcome, reply: Reply) {
    match outcome
    case Started => false
    case Denied => reply == NotAuthorized
    case FailedBeforeCommit => reply == EffectFailed
    case Committed => reply == Done
    case CommitUnknown => reply.ToldUnknown? && EvidenceOnRecord(trail, i, reply.evidence)
  }

  /** What a thread must have seen to to give its reply. */
  ghost predicate Owed(history: seq<Event>, trail: A.Trail, pc: Pc) {
    match pc
    case Executing(_, i, _) => HasInvoked(history, i)
    case Finishing(_, i, outcome, receipt, evidence) =>
      && (outcome.Denied? <==> !HasInvoked(history, i))
      && (outcome.Committed? ==> receipt.Some?)
      && (outcome.CommitUnknown? ==> evidence.Some? && i < |trail.entries| && evidence.value.attempt == trail.entries[i].id)
    case Storing(_, i, outcome, reply) => (outcome.Denied? <==> !HasInvoked(history, i)) && Matching(trail, i, outcome, reply)
    case Leaving(_, attempt, reply) => Told(history, trail, attempt, reply)
    case _ => true
  }

  function Place(pc: Pc): Option<nat> {
    if HasAttempt(pc) then Some(pc.i) else if pc.Leaving? then pc.attempt else None
  }

  /** Every thread owes what it should, no two share an attempt, and every reply given was true. */
  ghost predicate Replies(history: seq<Event>, trail: A.Trail, threads: map<Tid, Pc>) {
    && (forall t :: t in threads ==> Owed(history, trail, threads[t]))
    && (forall t :: t in threads && Place(threads[t]).Some? ==> Place(threads[t]).value < |trail.entries|)
    && (forall t, u :: t in threads && u in threads && t != u && Place(threads[t]).Some? ==> Place(threads[t]) != Place(threads[u]))
    && (forall n :: 0 <= n < |history| && history[n].Replied? ==> Told(history[..n], history[n].trail, history[n].attempt, history[n].reply))
  }

  // ----- other threads -----------------------------------------------------

  /** The attempt looks the same in both trails. */
  predicate SameAttempt(a: A.Trail, b: A.Trail, i: nat) {
    && i < |a.entries| && i < |b.entries| && a.entries[i] == b.entries[i]
    && (a.backend.Some? <==> b.backend.Some?)
    && (a.backend.Some? && a.entries[i].id in a.backend.value.attempts ==>
          && a.entries[i].id in b.backend.value.attempts
          && b.backend.value.attempts[a.entries[i].id] == a.backend.value.attempts[a.entries[i].id])
  }

  /** The two histories agree on what happened to attempt `i`. */
  ghost predicate SameStory(h: seq<Event>, g: seq<Event>, i: nat) {
    (HasInvoked(h, i) <==> HasInvoked(g, i)) && (HasLanded(h, i) <==> HasLanded(g, i))
  }

  lemma OwedKept(h: seq<Event>, g: seq<Event>, a: A.Trail, b: A.Trail, pc: Pc)
    requires Owed(h, a, pc) && (Place(pc).Some? ==> SameAttempt(a, b, Place(pc).value) && SameStory(h, g, Place(pc).value))
    ensures Owed(g, b, pc)
  {
    hide HasInvoked, HasLanded;
  }

  lemma StoryKept(h: seq<Event>, e: Event, i: nat)
    requires e.Invoked? || e.Landed? ==> e.i != i
    ensures SameStory(h, h + [e], i)
  {
    hide HasInvoked, HasLanded;
    InvokedSame(h, e, i);
    LandedSame(h, e, i);
  }

  lemma RepliesGrow(h: seq<Event>, e: Event)
    requires forall n :: 0 <= n < |h| && h[n].Replied? ==> Told(h[..n], h[n].trail, h[n].attempt, h[n].reply)
    requires e.Replied? ==> Told(h, e.trail, e.attempt, e.reply)
    ensures var g := h + [e]; forall n :: 0 <= n < |g| && g[n].Replied? ==> Told(g[..n], g[n].trail, g[n].attempt, g[n].reply)
  {
    hide Told;
    var g := h + [e];
    forall n | 0 <= n < |g| && g[n].Replied? ensures Told(g[..n], g[n].trail, g[n].attempt, g[n].reply) {
      if n < |h| {
        assert g[..n] == h[..n] && g[n] == h[n];
      } else {
        assert g[..n] == h;
      }
    }
  }

  /** What one step of `t` leaves alone: every other thread's attempt, in the trail and in the history. */
  ghost predicate Undisturbed(k: Kernel, n: Kernel, t: Tid) {
    && (forall u :: u in n.threads && u != t ==> u in k.threads && n.threads[u] == k.threads[u])
    && (forall u :: u in k.threads && u != t && Place(k.threads[u]).Some? ==>
          SameAttempt(k.trail, n.trail, Place(k.threads[u]).value) && SameStory(k.history, n.history, Place(k.threads[u]).value))
    && |k.trail.entries| <= |n.trail.entries|
    && (n.history == k.history || exists e :: n.history == k.history + [e] && (e.Replied? ==> Told(k.history, e.trail, e.attempt, e.reply)))
  }

  /** The stepping thread keeps its attempt, takes the next new one, or gives it up. */
  ghost predicate OwnPlace(k: Kernel, n: Kernel, t: Tid) {
    t in n.threads && Place(n.threads[t]).Some? ==>
      || (t in k.threads && Place(n.threads[t]) == Place(k.threads[t]))
      || (Place(n.threads[t]).value == |k.trail.entries| && |n.trail.entries| > |k.trail.entries|)
  }

  lemma RepliesBy(k: Kernel, n: Kernel, t: Tid)
    requires Replies(k.history, k.trail, k.threads) && Undisturbed(k, n, t) && OwnPlace(k, n, t)
    requires t in n.threads ==> Owed(n.history, n.trail, n.threads[t])
    ensures Replies(n.history, n.trail, n.threads)
  {
    hide Owed, Told, SameAttempt, SameStory;
    forall u | u in n.threads ensures Owed(n.history, n.trail, n.threads[u]) {
      if u != t {
        OwedKept(k.history, n.history, k.trail, n.trail, k.threads[u]);
      }
    }
    if n.history != k.history {
      var e :| n.history == k.history + [e] && (e.Replied? ==> Told(k.history, e.trail, e.attempt, e.reply));
      RepliesGrow(k.history, e);
    }
  }

  // ----- each step ---------------------------------------------------------

  lemma SameHistory(k: Kernel, n: Kernel, t: Tid)
    requires n.history == k.history && n.trail == k.trail
    requires Replies(k.history, k.trail, k.threads)
    requires forall u :: u in n.threads && u != t ==> u in k.threads && n.threads[u] == k.threads[u]
    ensures Undisturbed(k, n, t)
  {
    hide HasInvoked, HasLanded, Owed, Told;
  }

  lemma OneEvent(k: Kernel, n: Kernel, t: Tid, e: Event)
    requires n.history == k.history + [e] && n.trail == k.trail
    requires Replies(k.history, k.trail, k.threads)
    requires forall u :: u in n.threads && u != t ==> u in k.threads && n.threads[u] == k.threads[u]
    requires e.Invoked? || e.Landed? ==> t in k.threads && Place(k.threads[t]) == Some(e.i)
    requires e.Replied? ==> Told(k.history, e.trail, e.attempt, e.reply)
    ensures Undisturbed(k, n, t)
  {
    hide HasInvoked, HasLanded, Owed, Told, SameStory;
    forall u | u in k.threads && u != t && Place(k.threads[u]).Some? ensures SameStory(k.history, n.history, Place(k.threads[u]).value) {
      assert t in k.threads && Place(k.threads[t]).Some? ==> Place(k.threads[t]) != Place(k.threads[u]);
      StoryKept(k.history, e, Place(k.threads[u]).value);
    }
  }

  lemma RecordReplies(k: Kernel, t: Tid, m: Move)
    requires Attempts(k.trail, k.state.epoch, k.threads) && Replies(k.history, k.trail, k.threads)
    requires t in k.threads && k.threads[t].Reading? && m.Record?
    ensures var n := EffectStep(k, t, k.threads[t], m); Replies(n.history, n.trail, n.threads)
  {
    hide A.StartSet, A.Valid, A.AttemptsLater, Owed, Told, Owns, Replies;
    var call := k.threads[t].call;
    A.StartValid(k.trail, call.caller, call.capability, call.requests, k.state.epoch, m.io);
    var (started, r) := A.StartSet(k.trail, call.caller, call.capability, call.requests, k.state.epoch, m.io);
    var n := EffectStep(k, t, k.threads[t], m);
    assert n.trail == started && n.history == k.history;
    Backing(k.trail);
    Placed(k);
    forall i | 0 <= i < |k.trail.entries| ensures SameAttempt(k.trail, started, i) {
      assert r.Ok? ==> started.entries[..|k.trail.entries|][i] == started.entries[i];
    }
    FreshOwed(n.history, n.trail, call, |k.trail.entries|);
    RepliesBy(k, n, t);
  }

  lemma FreshOwed(history: seq<Event>, trail: A.Trail, call: Call, i: nat)
    ensures Owed(history, trail, Recorded(call, i)) && Owed(history, trail, Leaving(call, None, AuditFailed))
    ensures Owed(history, trail, Reading(call)) && Owed(history, trail, Authorized(call, i))
  {
    hide HasInvoked, HasLanded;
  }

  lemma Placed(k: Kernel)
    requires Replies(k.history, k.trail, k.threads)
    ensures forall u :: u in k.threads && Place(k.threads[u]).Some? ==> Place(k.threads[u]).value < |k.trail.entries|
    ensures forall u :: u in k.threads ==> Owed(k.history, k.trail, k.threads[u])
  {
    hide Owed, Told;
  }

  lemma PersistReplies(k: Kernel, t: Tid, m: Move)
    requires Attempts(k.trail, k.state.epoch, k.threads) && Honest(k.history, k.trail, k.threads) && Replies(k.history, k.trail, k.threads)
    requires t in k.threads && k.threads[t].Finishing? && m.Persist?
    ensures var n := EffectStep(k, t, k.threads[t], m); Replies(n.history, n.trail, n.threads)
  {
    hide A.FinishDurably, A.Valid, A.AttemptsLater, HasInvoked, HasLanded, Owed, Told, Honest, Replies;
    var pc := k.threads[t];
    A.FinishValid(k.trail, pc.i, pc.outcome, pc.receipt, pc.evidence, m.io);
    var (finished, error) := A.FinishDurably(k.trail, pc.i, pc.outcome, pc.receipt, pc.evidence, m.io);
    var n := EffectStep(k, t, pc, m);
    assert n.trail == finished && n.history == k.history;
    Backing(k.trail);
    Placed(k);
    OwnTruth(k, t);
    forall i | 0 <= i < |k.trail.entries| && i != pc.i ensures SameAttempt(k.trail, finished, i) {
      DistinctIds(k.trail, i, pc.i);
    }
    OthersElsewhere(k, t);
    PersistOwed(k, t, finished, error);
    RepliesBy(k, n, t);
  }

  lemma OthersElsewhere(k: Kernel, t: Tid)
    requires Replies(k.history, k.trail, k.threads) && t in k.threads && Place(k.threads[t]).Some?
    ensures forall u :: u in k.threads && u != t ==> Place(k.threads[u]) != Place(k.threads[t])
  {
    hide Owed, Told;
  }

  lemma PersistOwed(k: Kernel, t: Tid, finished: A.Trail, error: Option<Journal.JournalError>)
    requires Attempts(k.trail, k.state.epoch, k.threads) && t in k.threads && k.threads[t].Finishing?
    requires Owed(k.history, k.trail, k.threads[t]) && ThreadTruth(k.history, k.threads[t])
    requires finished.entries == k.trail.entries && (finished.backend.Some? <==> k.trail.backend.Some?)
    requires var pc := k.threads[t];
             && pc.i < |k.trail.entries|
             && (error.None? && finished.backend.Some? ==>
                   var id := k.trail.entries[pc.i].id;
                   && id in finished.backend.value.attempts && finished.backend.value.attempts[id].outcome == pc.outcome
                   && finished.backend.value.attempts[id].evidence == pc.evidence)
             && (error.Some? && finished.backend.Some? ==> finished.backend.value.attempts == k.trail.backend.value.attempts)
    ensures var pc := k.threads[t];
            if error.None? then Owed(k.history, finished, Storing(pc.call, pc.i, pc.outcome, Saved(pc.outcome, pc.evidence)))
            else Owed(k.history, finished, Leaving(pc.call, Some(pc.i), Unsaved(pc.outcome, pc.receipt, pc.evidence)))
  {
    hide A.Valid, HasInvoked, HasLanded;
    assert Owns(k.trail, k.state.epoch, k.threads[t]);
  }

  lemma PublishReplies(k: Kernel, t: Tid, m: Move)
    requires Attempts(k.trail, k.state.epoch, k.threads) && Honest(k.history, k.trail, k.threads) && Replies(k.history, k.trail, k.threads)
    requires t in k.threads && k.threads[t].Storing? && m.Publish?
    ensures var n := EffectStep(k, t, k.threads[t], m); Replies(n.history, n.trail, n.threads)
  {
    hide A.Valid, HasInvoked, HasLanded, Owed, Told, Honest, Replies;
    var pc := k.threads[t];
    assert Owns(k.trail, k.state.epoch, pc);
    var stored := A.Store(k.trail, pc.i, pc.outcome);
    var n := EffectStep(k, t, pc, m);
    assert n.trail == stored && n.history == k.history;
    Placed(k);
    OwnTruth(k, t);
    OthersElsewhere(k, t);
    forall i | 0 <= i < |k.trail.entries| && i != pc.i ensures SameAttempt(k.trail, stored, i) {
    }
    PublishOwed(k, t);
    RepliesBy(k, n, t);
  }

  lemma PublishOwed(k: Kernel, t: Tid)
    requires t in k.threads && k.threads[t].Storing? && Owns(k.trail, k.state.epoch, k.threads[t])
    requires Owed(k.history, k.trail, k.threads[t]) && ThreadTruth(k.history, k.threads[t])
    ensures var pc := k.threads[t]; Owed(k.history, A.Store(k.trail, pc.i, pc.outcome), Leaving(pc.call, Some(pc.i), pc.reply))
  {
    hide HasInvoked, HasLanded;
  }

  /** Where the executor's answer, or the refusal, takes the thread. */
  lemma MovedOwed(k: Kernel, t: Tid, m: Move)
    requires t in k.threads && HasAttempt(k.threads[t]) && Owns(k.trail, k.state.epoch, k.threads[t])
    requires Owed(k.history, k.trail, k.threads[t]) && !TouchesTrail(k.threads[t], m) && !m.Invoke? && !m.Land?
    requires k.threads[t].Recorded? || k.threads[t].Authorized? ==> !HasInvoked(k.history, k.threads[t].i)
    ensures var n := EffectStep(k, t, k.threads[t], m);
            && n.history == k.history && n.trail == k.trail && t in n.threads && Owed(n.history, n.trail, n.threads[t])
            && Place(n.threads[t]) == Place(k.threads[t])
            && (forall u :: u in n.threads && u != t ==> u in k.threads && n.threads[u] == k.threads[u])
  {
    hide HasInvoked, HasLanded, AuthorizesAll, KernelSuccess, A.StartSet, A.FinishDurably, A.Store;
  }

  lemma InvokedNow(history: seq<Event>, e: Event)
    requires e.Invoked?
    ensures HasInvoked(history + [e], e.i)
  {
    assert (history + [e])[|history|] == e;
  }

  lemma InvokeReplies(k: Kernel, t: Tid)
    requires Replies(k.history, k.trail, k.threads) && t in k.threads && k.threads[t].Authorized?
    ensures var pc := k.threads[t];
            Replies(k.history + [Invoked(pc.call, pc.i, k.state, k.trail)], k.trail, k.threads[t := Executing(pc.call, pc.i, false)])
  {
    hide HasInvoked, HasLanded, Owed, Told, Replies;
    var pc := k.threads[t];
    var e := Invoked(pc.call, pc.i, k.state, k.trail);
    var n := Log(At(k, t, Executing(pc.call, pc.i, false)), e);
    InvokedNow(k.history, e);
    OneEvent(k, n, t, e);
    ExecutingOwed(n.history, n.trail, pc.call, pc.i, false);
    RepliesBy(k, n, t);
  }

  lemma ExecutingOwed(history: seq<Event>, trail: A.Trail, call: Call, i: nat, landed: bool)
    ensures HasInvoked(history, i) <==> Owed(history, trail, Executing(call, i, landed))
  {
    hide HasInvoked;
  }

  lemma LandReplies(k: Kernel, t: Tid)
    requires Replies(k.history, k.trail, k.threads) && t in k.threads && k.threads[t].Executing?
    ensures var pc := k.threads[t];
            Replies(k.history + [Landed(pc.call, pc.i, k.state)], k.trail, k.threads[t := Executing(pc.call, pc.i, true)])
  {
    hide HasInvoked, HasLanded, Owed, Told, Replies;
    var pc := k.threads[t];
    var e := Landed(pc.call, pc.i, k.state);
    var n := Log(At(k, t, Executing(pc.call, pc.i, true)), e);
    Placed(k);
    OneEvent(k, n, t, e);
    InvokedSame(k.history, e, pc.i);
    ExecutingOwed(k.history, k.trail, pc.call, pc.i, pc.landed);
    ExecutingOwed(n.history, n.trail, pc.call, pc.i, true);
    RepliesBy(k, n, t);
  }

  lemma ReleaseReplies(k: Kernel, t: Tid)
    requires Replies(k.history, k.trail, k.threads) && t in k.threads && k.threads[t].Leaving?
    ensures var pc := k.threads[t];
            Replies(k.history + [Replied(pc.call, pc.attempt, pc.reply, k.trail)], k.trail, k.threads - {t})
  {
    hide HasInvoked, HasLanded, Told, Replies;
    var pc := k.threads[t];
    var e := Replied(pc.call, pc.attempt, pc.reply, k.trail);
    var n := Log(k.(threads := k.threads - {t}), e);
    Placed(k);
    OneEvent(k, n, t, e);
    RepliesBy(k, n, t);
  }

  lemma QuietReplies(k: Kernel, t: Tid, m: Move)
    requires Attempts(k.trail, k.state.epoch, k.threads) && Single(k.history, |k.trail.entries|, k.threads)
    requires Replies(k.history, k.trail, k.threads) && t in k.threads && !TouchesTrail(k.threads[t], m)
    ensures var n := EffectStep(k, t, k.threads[t], m); Replies(n.history, n.trail, n.threads)
  {
    hide A.StartSet, A.FinishDurably, A.Store, AuthorizesAll, A.Valid, KernelSuccess, AfterExecution;
    hide HasInvoked, HasLanded, Owed, Told, Replies, Single, Attempts;
    var pc := k.threads[t];
    var n := EffectStep(k, t, pc, m);
    Placed(k);
    if pc.Authorized? && m.Invoke? {
      InvokeReplies(k, t);
    } else if pc.Executing? && m.Land? {
      if !pc.landed {
        LandReplies(k, t);
      }
    } else if pc.Leaving? && m.Release? {
      ReleaseReplies(k, t);
    } else if HasAttempt(pc) && !m.Invoke? && !m.Land? {
      OwnedBy(k, t);
      SingleHere(k, t);
      MovedOwed(k, t, m);
      SameHistory(k, n, t);
      RepliesBy(k, n, t);
    } else if pc.WantRead? {
      FreshOwed(k.history, k.trail, pc.call, 0);
      SameHistory(k, n, t);
      RepliesBy(k, n, t);
    }
  }

  lemma OwnedBy(k: Kernel, t: Tid)
    requires Attempts(k.trail, k.state.epoch, k.threads) && t in k.threads && HasAttempt(k.threads[t])
    ensures Owns(k.trail, k.state.epoch, k.threads[t])
  {
    hide A.Valid, Owns;
  }

  lemma TransitionReplies(k: Kernel, t: Tid, m: Move)
    requires Replies(k.history, k.trail, k.threads) && t in k.threads
    ensures var n := TransitionStep(k, t, k.threads[t], m); Replies(n.history, n.trail, n.threads)
  {
    hide S.Apply, Revoking, Replies, Told, HasInvoked, HasLanded;
    var pc := k.threads[t];
    var n := TransitionStep(k, t, pc, m);
    if n != k {
      if n.history == k.history {
        SameHistory(k, n, t);
      } else {
        assert n.history == k.history + [n.history[|k.history|]];
        OneEvent(k, n, t, n.history[|k.history|]);
      }
      RepliesBy(k, n, t);
    }
  }

  lemma BeginReplies(k: Kernel, t: Tid, m: Move)
    requires Replies(k.history, k.trail, k.threads) && t !in k.threads
    ensures var n := Begin(k, t, m); Replies(n.history, n.trail, n.threads)
  {
    hide Replies, HasInvoked, HasLanded;
    var n := Begin(k, t, m);
    if n.history == k.history {
      SameHistory(k, n, t);
    } else {
      OneEvent(k, n, t, Replied(m.call, None, NotAuthorized, k.trail));
    }
    RepliesBy(k, n, t);
  }

  lemma RepliesStep(k: Kernel, t: Tid, m: Move)
    requires Attempts(k.trail, k.state.epoch, k.threads) && Honest(k.history, k.trail, k.threads)
    requires Single(k.history, |k.trail.entries|, k.threads) && Replies(k.history, k.trail, k.threads)
    ensures var n := Step(k, t, m); Replies(n.history, n.trail, n.threads)
  {
    hide EffectStep, TransitionStep, Begin, Honest, Attempts, Single, Replies;
    if t !in k.threads {
      BeginReplies(k, t, m);
    } else {
      TransitionReplies(k, t, m);
      if k.threads[t].Reading? && m.Record? {
        RecordReplies(k, t, m);
      } else if k.threads[t].Finishing? && m.Persist? {
        PersistReplies(k, t, m);
      } else if k.threads[t].Storing? && m.Publish? {
        PublishReplies(k, t, m);
      } else {
        QuietReplies(k, t, m);
      }
    }
  }
}
