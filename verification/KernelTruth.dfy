/** The audit record and the outside world: what is recorded of an effect is what happened to it. */
module KernelTruth {
  import opened Bytes
  import opened Capability
  import Journal
  import J = JournalLog
  import S = State
  import A = Audit
  import opened K = Kernel
  import opened KernelInvariant

  /** The effect of attempt `i` crossed its linearization point. */
  ghost predicate HasLanded(history: seq<Event>, i: nat) {
    exists n :: 0 <= n < |history| && history[n].Landed? && history[n].i == i
  }

  /** The durable outcome of entry `i`, or the memory one of a trail without a journal. */
  function Standing(trail: A.Trail, i: nat): Journal.Outcome
    requires i < |trail.entries|
  {
    match trail.backend
    case None => trail.entries[i].outcome
    case Some(l) => if trail.entries[i].id in l.attempts then l.attempts[trail.entries[i].id].outcome else Journal.Started
  }

  ghost predicate Truth(history: seq<Event>, i: nat, outcome: Journal.Outcome) {
    && (outcome.Committed? ==> HasLanded(history, i))
    && (outcome.Denied? || outcome.FailedBeforeCommit? ==> !HasLanded(history, i))
  }

  ghost predicate ThreadTruth(history: seq<Event>, pc: Pc)
    requires HasAttempt(pc)
  {
    match pc
    case Executing(_, i, landed) => landed <==> HasLanded(history, i)
    case Finishing(_, i, outcome, _, _) => Truth(history, i, outcome)
    case Storing(_, i, outcome, _) => Truth(history, i, outcome)
    case _ => !HasLanded(history, pc.i)
  }

  ghost predicate Honest(history: seq<Event>, trail: A.Trail, threads: map<Tid, Pc>) {
    && (forall t :: t in threads && HasAttempt(threads[t]) ==> ThreadTruth(history, threads[t]))
    && (forall i :: 0 <= i < |trail.entries| ==> Truth(history, i, Standing(trail, i)))
    && (forall n :: 0 <= n < |history| && history[n].Landed? ==> history[n].i < |trail.entries|)
  }

  /** Events other than a landing of `i` say nothing about `i`. */
  lemma LandedSame(history: seq<Event>, e: Event, i: nat)
    requires e.Landed? ==> e.i != i
    ensures HasLanded(history + [e], i) <==> HasLanded(history, i)
  {
    if HasLanded(history, i) {
      var n :| 0 <= n < |history| && history[n].Landed? && history[n].i == i;
      assert (history + [e])[n] == history[n];
    }
  }

  lemma JustLanded(history: seq<Event>, e: Event)
    requires e.Landed?
    ensures HasLanded(history + [e], e.i)
  {
    assert (history + [e])[|history|] == e;
  }

  lemma HonestQuiet(history: seq<Event>, e: Event, trail: A.Trail, threads: map<Tid, Pc>)
    requires Honest(history, trail, threads) && !e.Landed?
    ensures Honest(history + [e], trail, threads)
  {
    hide HasLanded, Standing;
    forall i: nat ensures HasLanded(history + [e], i) <==> HasLanded(history, i) {
      LandedSame(history, e, i);
    }
  }

  /** A landing is news only to the thread whose attempt it is. */
  lemma HonestLanding(k: Kernel, t: Tid)
    requires Attempts(k.trail, k.state.epoch, k.threads) && Honest(k.history, k.trail, k.threads)
    requires t in k.threads && k.threads[t].Executing? && !k.threads[t].landed
    ensures var pc := k.threads[t];
            Honest(k.history + [Landed(pc.call, pc.i, k.state)], k.trail, k.threads[t := Executing(pc.call, pc.i, true)])
  {
    hide A.Valid, HasLanded;
    var pc := k.threads[t];
    var e := Landed(pc.call, pc.i, k.state);
    var more := k.history + [e];
    forall i: nat | i != pc.i ensures HasLanded(more, i) <==> HasLanded(k.history, i) {
      LandedSame(k.history, e, i);
    }
    JustLanded(k.history, e);
    assert Standing(k.trail, pc.i) == Journal.Started;
  }

  /** A thread moving on with its own truth leaves the rest alone. */
  lemma HonestMoves(history: seq<Event>, trail: A.Trail, threads: map<Tid, Pc>, t: Tid, pc: Pc)
    requires Honest(history, trail, threads) && (HasAttempt(pc) ==> ThreadTruth(history, pc))
    ensures Honest(history, trail, threads[t := pc])
  {
    hide HasLanded, Standing, Truth, ThreadTruth;
  }

  lemma HonestLeaves(history: seq<Event>, trail: A.Trail, threads: map<Tid, Pc>, t: Tid)
    requires Honest(history, trail, threads)
    ensures Honest(history, trail, threads - {t})
  {
    hide HasLanded, Standing, Truth, ThreadTruth;
  }

  lemma HonestRecord(k: Kernel, t: Tid, m: Move)
    requires Attempts(k.trail, k.state.epoch, k.threads) && Honest(k.history, k.trail, k.threads)
    requires t in k.threads && k.threads[t].Reading? && m.Record?
    ensures var n := EffectStep(k, t, k.threads[t], m); Honest(n.history, n.trail, n.threads)
  {
    hide A.StartSet, A.Valid, A.AttemptsLater, HasLanded, Owns;
    var call := k.threads[t].call;
    A.StartValid(k.trail, call.caller, call.capability, call.requests, k.state.epoch, m.io);
    var (started, r) := A.StartSet(k.trail, call.caller, call.capability, call.requests, k.state.epoch, m.io);
    var n := EffectStep(k, t, k.threads[t], m);
    assert n.trail == started;
    assert if r.Ok? then started.entries[..|k.trail.entries|] == k.trail.entries else started.entries == k.trail.entries;
    Backing(k.trail);
    forall i | 0 <= i < |k.trail.entries| ensures Standing(n.trail, i) == Standing(k.trail, i) {
      assert r.Ok? ==> started.entries[..|k.trail.entries|][i] == started.entries[i];
    }
    assert !HasLanded(k.history, |k.trail.entries|) by {
      NotYetLanded(k.history, |k.trail.entries|);
    }
  }

  lemma NotYetLanded(history: seq<Event>, i: nat)
    requires forall n :: 0 <= n < |history| && history[n].Landed? ==> history[n].i < i
    ensures !HasLanded(history, i)
  {
  }

  lemma Backing(trail: A.Trail)
    requires A.Valid(trail)
    ensures trail.backend.Some? ==> forall i :: 0 <= i < |trail.entries| ==> trail.entries[i].id in trail.backend.value.attempts
  {
    hide A.NextAttempt, A.Ordered, A.BelowNext;
    if trail.backend.Some? {
      forall i | 0 <= i < |trail.entries| ensures trail.entries[i].id in trail.backend.value.attempts {
        assert A.Backed(trail.entries[i], trail.backend.value.attempts);
      }
    }
  }

  lemma HonestPersist(k: Kernel, t: Tid, m: Move)
    requires Attempts(k.trail, k.state.epoch, k.threads) && Honest(k.history, k.trail, k.threads)
    requires t in k.threads && k.threads[t].Finishing? && m.Persist?
    ensures var n := EffectStep(k, t, k.threads[t], m); Honest(n.history, n.trail, n.threads)
  {
    hide A.FinishDurably, A.Valid, A.AttemptsLater, HasLanded;
    var pc := k.threads[t];
    A.FinishValid(k.trail, pc.i, pc.outcome, pc.receipt, pc.evidence, m.io);
    var n := EffectStep(k, t, pc, m);
    Backing(k.trail);
    OwnTruth(k, t);
    var (finished, error) := A.FinishDurably(k.trail, pc.i, pc.outcome, pc.receipt, pc.evidence, m.io);
    assert n.trail == finished;
    forall i | 0 <= i < |k.trail.entries| ensures Truth(n.history, i, Standing(n.trail, i)) {
      assert Truth(k.history, i, Standing(k.trail, i));
      if i != pc.i {
        DistinctIds(k.trail, i, pc.i);
      }
    }
  }

  lemma HonestPublish(k: Kernel, t: Tid, m: Move)
    requires Attempts(k.trail, k.state.epoch, k.threads) && Honest(k.history, k.trail, k.threads)
    requires t in k.threads && k.threads[t].Storing? && m.Publish?
    ensures var n := EffectStep(k, t, k.threads[t], m); Honest(n.history, n.trail, n.threads)
  {
    hide A.Valid, A.AttemptsLater, HasLanded;
    var pc := k.threads[t];
    var n := EffectStep(k, t, pc, m);
    OwnTruth(k, t);
    forall i | 0 <= i < |k.trail.entries| ensures Truth(n.history, i, Standing(n.trail, i)) {
      assert Truth(k.history, i, Standing(k.trail, i));
    }
  }

  lemma HonestEffect(k: Kernel, t: Tid, m: Move)
    requires Attempts(k.trail, k.state.epoch, k.threads) && Honest(k.history, k.trail, k.threads)
    requires t in k.threads && !TouchesTrail(k.threads[t], m)
    ensures var n := EffectStep(k, t, k.threads[t], m); Honest(n.history, n.trail, n.threads)
  {
    hide A.StartSet, A.FinishDurably, A.Store, AuthorizesAll, A.Valid, KernelSuccess, HasLanded, Standing, Honest, RetainableEvidence;
    var pc := k.threads[t];
    var n := EffectStep(k, t, pc, m);
    if pc.Executing? && m.Land? && !pc.landed {
      HonestLanding(k, t);
    } else if pc.Authorized? && m.Invoke? {
      OwnTruth(k, t);
      HonestMoves(k.history, k.trail, k.threads, t, Executing(pc.call, pc.i, false));
      HonestQuiet(k.history, Invoked(pc.call, pc.i, k.state, k.trail), k.trail, n.threads);
    } else if pc.Leaving? && m.Release? {
      HonestLeaves(k.history, k.trail, k.threads, t);
      HonestQuiet(k.history, Replied(pc.call, pc.attempt, pc.reply, k.trail), k.trail, k.threads - {t});
    } else if t in n.threads {
      if HasAttempt(pc) {
        OwnTruth(k, t);
      }
      HonestMoves(k.history, k.trail, k.threads, t, n.threads[t]);
      assert n.threads == k.threads[t := n.threads[t]];
    }
  }

  lemma OwnTruth(k: Kernel, t: Tid)
    requires Honest(k.history, k.trail, k.threads) && t in k.threads && HasAttempt(k.threads[t])
    ensures ThreadTruth(k.history, k.threads[t])
  {
    hide HasLanded, Standing, ThreadTruth;
  }

  lemma HonestTransition(k: Kernel, t: Tid, m: Move)
    requires Honest(k.history, k.trail, k.threads) && t in k.threads
    ensures var n := TransitionStep(k, t, k.threads[t], m); Honest(n.history, n.trail, n.threads)
  {
    hide S.Apply, Revoking, Honest;
    var pc := k.threads[t];
    var n := TransitionStep(k, t, pc, m);
    if t in n.threads {
      if HasAttempt(pc) {
        OwnTruth(k, t);
      }
      HonestMoves(k.history, k.trail, k.threads, t, n.threads[t]);
      assert n.threads == k.threads[t := n.threads[t]];
    } else {
      HonestLeaves(k.history, k.trail, k.threads, t);
    }
    if n.history != k.history {
      HonestQuiet(k.history, n.history[|k.history|], k.trail, n.threads);
    }
  }

  lemma HonestStep(k: Kernel, t: Tid, m: Move)
    requires Attempts(k.trail, k.state.epoch, k.threads) && Honest(k.history, k.trail, k.threads)
    ensures var n := Step(k, t, m); Honest(n.history, n.trail, n.threads)
  {
    hide EffectStep, TransitionStep, Honest, Attempts;
    if t !in k.threads {
      if m.CallEffect? {
        HonestMoves(k.history, k.trail, k.threads, t, WantRead(m.call));
        HonestQuiet(k.history, Replied(m.call, None, NotAuthorized, k.trail), k.trail, k.threads);
      } else if m.CallTransition? {
        HonestMoves(k.history, k.trail, k.threads, t, WantWrite(m.op));
      }
    } else {
      HonestTransition(k, t, m);
      if k.threads[t].Reading? && m.Record? {
        HonestRecord(k, t, m);
      } else if k.threads[t].Finishing? && m.Persist? {
        HonestPersist(k, t, m);
      } else if k.threads[t].Storing? && m.Publish? {
        HonestPublish(k, t, m);
      } else {
        HonestEffect(k, t, m);
      }
    }
  }

  // ----- one call and one landing per attempt ------------------------------

  ghost predicate HasInvoked(history: seq<Event>, i: nat) {
    exists n :: 0 <= n < |history| && history[n].Invoked? && history[n].i == i
  }

  /** No attempt has two executor calls or two landings. */
  ghost predicate Once(history: seq<Event>) {
    forall m, n :: 0 <= m < n < |history| && ((history[m].Invoked? && history[n].Invoked?) || (history[m].Landed? && history[n].Landed?)) ==>
      history[m].i != history[n].i
  }

  ghost predicate Single(history: seq<Event>, count: nat, threads: map<Tid, Pc>) {
    && Once(history)
    && (forall n :: 0 <= n < |history| && (history[n].Invoked? || history[n].Landed?) ==> history[n].i < count)
    && (forall t :: t in threads && (threads[t].Recorded? || threads[t].Authorized?) ==>
          !HasInvoked(history, threads[t].i) && !HasLanded(history, threads[t].i))
    && (forall t :: t in threads && threads[t].Executing? && !threads[t].landed ==> !HasLanded(history, threads[t].i))
  }

  lemma InvokedSame(history: seq<Event>, e: Event, i: nat)
    requires e.Invoked? ==> e.i != i
    ensures HasInvoked(history + [e], i) <==> HasInvoked(history, i)
  {
    if HasInvoked(history, i) {
      var n :| 0 <= n < |history| && history[n].Invoked? && history[n].i == i;
      assert (history + [e])[n] == history[n];
    }
  }

  lemma OnceGrows(history: seq<Event>, e: Event)
    requires Once(history)
    requires e.Invoked? ==> !HasInvoked(history, e.i)
    requires e.Landed? ==> !HasLanded(history, e.i)
    ensures Once(history + [e])
  {
  }

  /** An event about no attempt, or about the stepping thread's own. */
  lemma SingleGrows(history: seq<Event>, e: Event, count: nat, threads: map<Tid, Pc>, t: Tid)
    requires Single(history, count, threads - {t})
    requires e.Invoked? ==> !HasInvoked(history, e.i) && e.i < count
    requires e.Landed? ==> !HasLanded(history, e.i) && e.i < count
    requires e.Invoked? || e.Landed? ==> forall u :: u in threads && u != t && HasAttempt(threads[u]) ==> threads[u].i != e.i
    ensures Single(history + [e], count, threads - {t})
  {
    hide HasInvoked, HasLanded, Once;
    OnceGrows(history, e);
    var others := threads - {t};
    forall u | u in others && HasAttempt(others[u])
      ensures HasInvoked(history + [e], others[u].i) <==> HasInvoked(history, others[u].i)
      ensures HasLanded(history + [e], others[u].i) <==> HasLanded(history, others[u].i)
    {
      InvokedSame(history, e, others[u].i);
      LandedSame(history, e, others[u].i);
    }
  }

  /** The stepping thread put back, with what its new place needs. */
  lemma SingleReturns(history: seq<Event>, count: nat, threads: map<Tid, Pc>, t: Tid, pc: Pc)
    requires Single(history, count, threads - {t})
    requires pc.Recorded? || pc.Authorized? ==> !HasInvoked(history, pc.i) && !HasLanded(history, pc.i)
    requires pc.Executing? && !pc.landed ==> !HasLanded(history, pc.i)
    ensures Single(history, count, threads[t := pc])
  {
    hide HasInvoked, HasLanded, Once;
    var all := threads[t := pc];
    forall u | u in all && u != t ensures u in threads - {t} && (threads - {t})[u] == all[u] {
    }
  }

  lemma SingleLeaves(history: seq<Event>, count: nat, threads: map<Tid, Pc>, t: Tid)
    requires Single(history, count, threads)
    ensures Single(history, count, threads - {t})
  {
    hide HasInvoked, HasLanded, Once;
  }

  lemma SingleWider(history: seq<Event>, count: nat, more: nat, threads: map<Tid, Pc>)
    requires Single(history, count, threads) && count <= more
    ensures Single(history, more, threads)
    ensures !HasInvoked(history, count) && !HasLanded(history, count)
  {
    hide Once;
  }

  /** What the invariants say of the stepping thread alone. */
  lemma SingleHere(k: Kernel, t: Tid)
    requires Attempts(k.trail, k.state.epoch, k.threads) && Single(k.history, |k.trail.entries|, k.threads) && t in k.threads
    ensures var pc := k.threads[t];
            && (HasAttempt(pc) ==> pc.i < |k.trail.entries|)
            && (HasAttempt(pc) ==> forall u :: u in k.threads && u != t && HasAttempt(k.threads[u]) ==> k.threads[u].i != pc.i)
            && (pc.Recorded? || pc.Authorized? ==> !HasInvoked(k.history, pc.i) && !HasLanded(k.history, pc.i))
            && (pc.Executing? && !pc.landed ==> !HasLanded(k.history, pc.i))
  {
    hide HasInvoked, HasLanded, Once, A.Valid;
  }

  lemma SingleEffect(k: Kernel, t: Tid, m: Move)
    requires Attempts(k.trail, k.state.epoch, k.threads) && Single(k.history, |k.trail.entries|, k.threads) && t in k.threads
    ensures var n := EffectStep(k, t, k.threads[t], m); Single(n.history, |n.trail.entries|, n.threads)
  {
    hide A.StartSet, A.FinishDurably, A.Store, AuthorizesAll, A.Valid, KernelSuccess, RetainableEvidence, HasLanded, HasInvoked, Single, Attempts;
    var pc := k.threads[t];
    var n := EffectStep(k, t, pc, m);
    EntriesGrow(k, t, m);
    SingleHere(k, t);
    SingleLeaves(k.history, |k.trail.entries|, k.threads, t);
    SingleWider(k.history, |k.trail.entries|, |k.trail.entries|, k.threads);
    SingleWider(k.history, |k.trail.entries|, |n.trail.entries|, k.threads - {t});
    if pc.Authorized? && m.Invoke? {
      var e := Invoked(pc.call, pc.i, k.state, k.trail);
      SingleGrows(k.history, e, |k.trail.entries|, k.threads, t);
      LandedSame(k.history, e, pc.i);
      SingleReturns(n.history, |n.trail.entries|, k.threads, t, n.threads[t]);
    } else if pc.Executing? && m.Land? && !pc.landed {
      SingleGrows(k.history, Landed(pc.call, pc.i, k.state), |k.trail.entries|, k.threads, t);
      SingleReturns(n.history, |n.trail.entries|, k.threads, t, n.threads[t]);
    } else if pc.Leaving? && m.Release? {
      SingleGrows(k.history, Replied(pc.call, pc.attempt, pc.reply, k.trail), |k.trail.entries|, k.threads, t);
    } else if t in n.threads {
      SingleReturns(k.history, |n.trail.entries|, k.threads, t, n.threads[t]);
      assert n.threads == k.threads[t := n.threads[t]];
    }
  }

  lemma EntriesGrow(k: Kernel, t: Tid, m: Move)
    requires Attempts(k.trail, k.state.epoch, k.threads) && t in k.threads
    ensures var n := EffectStep(k, t, k.threads[t], m); |k.trail.entries| <= |n.trail.entries|
  {
    hide J.Apply, AuthorizesAll, KernelSuccess, AfterExecution, Owns, A.Valid;
  }

  lemma SingleTransition(k: Kernel, t: Tid, m: Move)
    requires Single(k.history, |k.trail.entries|, k.threads) && t in k.threads
    ensures var n := TransitionStep(k, t, k.threads[t], m); Single(n.history, |n.trail.entries|, n.threads)
  {
    var pc := k.threads[t];
    var n := TransitionStep(k, t, pc, m);
    assert pc.Recorded? || pc.Authorized? ==> !HasInvoked(k.history, pc.i) && !HasLanded(k.history, pc.i);
    assert pc.Executing? && !pc.landed ==> !HasLanded(k.history, pc.i);
    hide S.Apply, Revoking, Single, HasLanded, HasInvoked;
    SingleLeaves(k.history, |k.trail.entries|, k.threads, t);
    if n.history != k.history {
      SingleGrows(k.history, n.history[|k.history|], |k.trail.entries|, k.threads, t);
      assert n.history == k.history + [n.history[|k.history|]];
    }
    if t in n.threads {
      SingleReturns(n.history, |k.trail.entries|, k.threads, t, n.threads[t]);
      assert n.threads == k.threads[t := n.threads[t]];
    }
  }

  lemma SingleStep(k: Kernel, t: Tid, m: Move)
    requires Attempts(k.trail, k.state.epoch, k.threads) && Single(k.history, |k.trail.entries|, k.threads)
    ensures var n := Step(k, t, m); Single(n.history, |n.trail.entries|, n.threads)
  {
    hide EffectStep, TransitionStep, Single, Attempts, HasLanded, HasInvoked;
    if t in k.threads {
      SingleEffect(k, t, m);
      SingleTransition(k, t, m);
    } else if m.CallEffect? || m.CallTransition? {
      SingleLeaves(k.history, |k.trail.entries|, k.threads, t);
      SingleReturns(k.history, |k.trail.entries|, k.threads, t, if m.CallEffect? then WantRead(m.call) else WantWrite(m.op));
      if m.CallEffect? {
        SingleGrows(k.history, Replied(m.call, None, NotAuthorized, k.trail), |k.trail.entries|, k.threads, t);
        assert k.threads - {t} == k.threads;
      }
    }
  }
}
