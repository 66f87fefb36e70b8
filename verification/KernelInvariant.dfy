/** What every step of every interleaving keeps. */
module KernelInvariant {
  import opened Bytes
  import opened Capability
  import AttemptCodec
  import Journal
  import S = State
  import SI = StateInvariant
  import ST = StateTheorems
  import A = Audit
  import opened K = Kernel

  // ----- locks -------------------------------------------------------------

  /** The lock words say exactly which threads are inside, and never a reader beside a writer. */
  ghost predicate Locks(writer: Option<Tid>, readers: set<Tid>, threads: map<Tid, Pc>) {
    && (forall t: Tid :: t in readers <==> t in threads && HoldsShared(threads[t]))
    && (forall t: Tid :: writer == Some(t) <==> t in threads && HoldsExclusive(threads[t]))
    && (writer.Some? ==> readers == {})
  }

  lemma LocksEffect(k: Kernel, t: Tid, m: Move)
    requires Locks(k.writer, k.readers, k.threads) && t in k.threads
    ensures var n := EffectStep(k, t, k.threads[t], m); Locks(n.writer, n.readers, n.threads)
  {
    hide A.StartSet, A.FinishDurably, A.Store, AuthorizesAll, KernelSuccess, RetainableEvidence;
  }

  lemma LocksTransition(k: Kernel, t: Tid, m: Move)
    requires Locks(k.writer, k.readers, k.threads) && t in k.threads
    ensures var n := TransitionStep(k, t, k.threads[t], m); Locks(n.writer, n.readers, n.threads)
  {
    hide S.Apply, Revoking;
  }

  lemma LocksStep(k: Kernel, t: Tid, m: Move)
    requires Locks(k.writer, k.readers, k.threads)
    ensures var n := Step(k, t, m); Locks(n.writer, n.readers, n.threads)
  {
    hide EffectStep, TransitionStep;
    if t in k.threads {
      LocksEffect(k, t, m);
      LocksTransition(k, t, m);
    }
  }

  // ----- the capability state ----------------------------------------------

  predicate InEffect(pc: Pc) {
    pc.WantRead? || HoldsShared(pc)
  }

  /** No effect call drops part of its request set, and a thread past its check acts in a state that still authorizes all of it. */
  ghost predicate Cleared(state: S.State, threads: map<Tid, Pc>) {
    && (forall t :: t in threads && (threads[t].Authorized? || threads[t].Executing?) ==> AuthorizesAll(state, threads[t].call))
    && (forall t :: t in threads && InEffect(threads[t]) ==> threads[t].call.requests.complete)
  }

  /** The state only moves under exclusive access, and only by a transition. */
  lemma StateStep(k: Kernel, t: Tid, m: Move)
    requires Locks(k.writer, k.readers, k.threads) && SI.Valid(k.state)
    ensures var n := Step(k, t, m);
            && SI.Valid(n.state) && ST.Later(k.state, n.state)
            && (n.state != k.state ==> k.readers == {} && n.readers == {})
  {
    hide EffectStep, TransitionStep, SI.Valid, ST.Later;
    ST.LaterReflexive(k.state);
    if t in k.threads {
      EffectKeepsState(k, t, m);
      TransitionMoves(k, t, m);
      if k.threads[t].Writing? {
        SI.ApplyValid(k.state, k.threads[t].op);
        ST.ApplyLater(k.state, k.threads[t].op);
      }
    }
  }

  lemma EffectKeepsState(k: Kernel, t: Tid, m: Move)
    requires t in k.threads
    ensures EffectStep(k, t, k.threads[t], m).state == k.state
    ensures EffectStep(k, t, k.threads[t], m).observers == k.observers
  {
    hide A.StartSet, A.FinishDurably, A.Store, AuthorizesAll, KernelSuccess, AfterExecution;
  }

  lemma TransitionMoves(k: Kernel, t: Tid, m: Move)
    requires Locks(k.writer, k.readers, k.threads) && t in k.threads
    ensures var n := TransitionStep(k, t, k.threads[t], m);
            && n.trail == k.trail && n.observers == k.observers && n.readers == k.readers
            && (n.state == k.state || (k.threads[t].Writing? && n.state == S.Apply(k.state, k.threads[t].op).0 && k.readers == {}))
  {
    hide S.Apply, Revoking;
  }

  lemma ClearedEffect(k: Kernel, t: Tid, m: Move)
    requires Cleared(k.state, k.threads) && t in k.threads
    ensures var n := EffectStep(k, t, k.threads[t], m); Cleared(n.state, n.threads)
  {
    hide A.StartSet, A.FinishDurably, A.Store, AuthorizesAll, KernelSuccess, RetainableEvidence;
  }

  lemma ClearedTransition(k: Kernel, t: Tid, m: Move)
    requires Locks(k.writer, k.readers, k.threads) && Cleared(k.state, k.threads) && t in k.threads
    ensures var n := TransitionStep(k, t, k.threads[t], m); Cleared(n.state, n.threads)
  {
    hide S.Apply, Revoking, AuthorizesAll;
  }

  lemma ClearedStep(k: Kernel, t: Tid, m: Move)
    requires Locks(k.writer, k.readers, k.threads) && Cleared(k.state, k.threads)
    ensures Cleared(Step(k, t, m).state, Step(k, t, m).threads)
  {
    hide EffectStep, TransitionStep, AuthorizesAll;
    if t in k.threads {
      ClearedEffect(k, t, m);
      ClearedTransition(k, t, m);
    }
  }

  // ----- the audit trail ---------------------------------------------------

  /** The attempt a thread is responsible for, from its durable start to its memory store. */
  ghost predicate Owns(trail: A.Trail, epoch: u64, pc: Pc)
    requires HasAttempt(pc)
  {
    && pc.i < |trail.entries|
    && trail.entries[pc.i].metadata == AttemptCodec.Metadata(trail.instance, pc.call.caller, pc.call.capability, epoch, pc.call.requests)
    && trail.entries[pc.i].outcome == Journal.Started
    && (pc.Finishing? || pc.Storing? ==> pc.outcome != Journal.Started)
    && (trail.backend.Some? ==>
          && trail.entries[pc.i].id in trail.backend.value.attempts
          && trail.backend.value.attempts[trail.entries[pc.i].id].outcome == if pc.Storing? then pc.outcome else Journal.Started)
  }

  ghost predicate Attempts(trail: A.Trail, epoch: u64, threads: map<Tid, Pc>) {
    && A.Valid(trail)
    && (forall t :: t in threads && HasAttempt(threads[t]) ==> Owns(trail, epoch, threads[t]))
    && (forall t, u :: t in threads && u in threads && t != u && HasAttempt(threads[t]) && HasAttempt(threads[u]) ==>
          threads[t].i != threads[u].i)
  }

  /** Another thread's attempt survives any change that keeps its entry and its durable record. */
  lemma OwnsKept(a: A.Trail, b: A.Trail, epoch: u64, pc: Pc)
    requires HasAttempt(pc) && Owns(a, epoch, pc)
    requires a.instance == b.instance && (b.backend.Some? ==> a.backend.Some?)
    requires pc.i < |b.entries| && b.entries[pc.i] == a.entries[pc.i]
    requires b.backend.Some? ==> a.entries[pc.i].id in b.backend.value.attempts
                                 && b.backend.value.attempts[a.entries[pc.i].id] == a.backend.value.attempts[a.entries[pc.i].id]
    ensures Owns(b, epoch, pc)
  {
  }

  predicate TouchesTrail(pc: Pc, m: Move) {
    (pc.Reading? && m.Record?) || (pc.Finishing? && m.Persist?) || (pc.Storing? && m.Publish?)
  }

  lemma RecordStep(k: Kernel, t: Tid, m: Move)
    requires Attempts(k.trail, k.state.epoch, k.threads)
    requires t in k.threads && k.threads[t].Reading? && m.Record?
    ensures var n := Step(k, t, m); Attempts(n.trail, n.state.epoch, n.threads) && A.Later(k.trail, n.trail)
  {
    hide A.StartSet, AuthorizesAll, A.Valid, A.AttemptsLater;
    var call := k.threads[t].call;
    A.StartValid(k.trail, call.caller, call.capability, call.requests, k.state.epoch, m.io);
    var n := Step(k, t, m);
    var (started, r) := A.StartSet(k.trail, call.caller, call.capability, call.requests, k.state.epoch, m.io);
    assert n.trail == started;
    assert if r.Ok? then started.entries[..|k.trail.entries|] == k.trail.entries else started.entries == k.trail.entries;
    forall u | u in k.threads && u != t && HasAttempt(k.threads[u]) ensures Owns(n.trail, k.state.epoch, k.threads[u]) {
      assert n.trail.entries[..|k.trail.entries|] == k.trail.entries;
      assert n.trail.entries[k.threads[u].i] == n.trail.entries[..|k.trail.entries|][k.threads[u].i];
      OwnsKept(k.trail, n.trail, k.state.epoch, k.threads[u]);
    }
  }

  lemma DistinctIds(trail: A.Trail, i: nat, j: nat)
    requires A.Valid(trail) && i < |trail.entries| && j < |trail.entries| && i != j
    ensures trail.entries[i].id != trail.entries[j].id
  {
    hide A.AllBacked, A.NextAttempt;
  }

  lemma PersistStep(k: Kernel, t: Tid, m: Move)
    requires Attempts(k.trail, k.state.epoch, k.threads)
    requires t in k.threads && k.threads[t].Finishing? && m.Persist?
    ensures var n := Step(k, t, m); Attempts(n.trail, n.state.epoch, n.threads) && A.Later(k.trail, n.trail)
  {
    hide A.FinishDurably, AuthorizesAll, A.Valid, A.AttemptsLater;
    var pc := k.threads[t];
    A.FinishValid(k.trail, pc.i, pc.outcome, pc.receipt, pc.evidence, m.io);
    var n := Step(k, t, m);
    forall u | u in k.threads && u != t && HasAttempt(k.threads[u]) ensures Owns(n.trail, k.state.epoch, k.threads[u]) {
      DistinctIds(k.trail, pc.i, k.threads[u].i);
      OwnsKept(k.trail, n.trail, k.state.epoch, k.threads[u]);
    }
  }

  lemma PublishStep(k: Kernel, t: Tid, m: Move)
    requires Attempts(k.trail, k.state.epoch, k.threads)
    requires t in k.threads && k.threads[t].Storing? && m.Publish?
    ensures var n := Step(k, t, m); Attempts(n.trail, n.state.epoch, n.threads) && A.Later(k.trail, n.trail)
  {
    hide AuthorizesAll, A.Valid, A.AttemptsLater;
    var pc := k.threads[t];
    A.StoreValid(k.trail, pc.i, pc.outcome);
    var n := Step(k, t, m);
    forall u | u in k.threads && u != t && HasAttempt(k.threads[u]) ensures Owns(n.trail, k.state.epoch, k.threads[u]) {
      OwnsKept(k.trail, n.trail, k.state.epoch, k.threads[u]);
    }
  }

  lemma OtherEffect(k: Kernel, t: Tid, m: Move)
    requires Attempts(k.trail, k.state.epoch, k.threads) && t in k.threads && !TouchesTrail(k.threads[t], m)
    ensures var n := EffectStep(k, t, k.threads[t], m); n.trail == k.trail && Attempts(n.trail, k.state.epoch, n.threads)
  {
    hide A.StartSet, A.FinishDurably, A.Store, AuthorizesAll, A.Valid, KernelSuccess, RetainableEvidence;
  }

  lemma OtherTransition(k: Kernel, t: Tid, m: Move)
    requires Locks(k.writer, k.readers, k.threads) && Attempts(k.trail, k.state.epoch, k.threads) && t in k.threads
    ensures var n := TransitionStep(k, t, k.threads[t], m); Attempts(n.trail, n.state.epoch, n.threads)
  {
    hide S.Apply, Revoking, A.Valid, Owns;
  }

  lemma OtherStep(k: Kernel, t: Tid, m: Move)
    requires Locks(k.writer, k.readers, k.threads)
    requires Attempts(k.trail, k.state.epoch, k.threads)
    requires t in k.threads ==> !TouchesTrail(k.threads[t], m)
    ensures var n := Step(k, t, m); n.trail == k.trail && Attempts(n.trail, n.state.epoch, n.threads)
  {
    hide EffectStep, TransitionStep, A.Valid, Owns;
    if t in k.threads {
      TransitionMoves(k, t, m);
      EffectKeepsState(k, t, m);
      OtherEffect(k, t, m);
      OtherTransition(k, t, m);
    }
  }

  lemma AttemptsStep(k: Kernel, t: Tid, m: Move)
    requires Locks(k.writer, k.readers, k.threads)
    requires Attempts(k.trail, k.state.epoch, k.threads)
    ensures var n := Step(k, t, m); Attempts(n.trail, n.state.epoch, n.threads) && A.Later(k.trail, n.trail)
  {
    hide Step, Attempts, Locks;
    if t in k.threads && TouchesTrail(k.threads[t], m) {
      if k.threads[t].Reading? {
        RecordStep(k, t, m);
      } else if k.threads[t].Finishing? {
        PersistStep(k, t, m);
      } else {
        PublishStep(k, t, m);
      }
    } else {
      OtherStep(k, t, m);
    }
  }
}
