/** What holds of every interleaving: commits, revocations, observers and the audit trail. */
module KernelTheorems {
  import opened Bytes
  import opened Capability
  import AttemptCodec
  import Journal
  import J = JournalLog
  import S = State
  import SI = StateInvariant
  import ST = StateTheorems
  import SD = StateDecisions
  import A = Audit
  import opened K = Kernel
  import opened KernelInvariant
  import opened KernelTruth
  import opened KernelObservers
  import opened KernelReplies

  // ----- history -----------------------------------------------------------

  predicate Dated(e: Event) {
    e.Invoked? || e.Landed? || e.Applied?
  }

  /** What each event says about the moment it happened. */
  ghost predicate Sound(e: Event) {
    match e
    case Invoked(call, i, state, trail) =>
      && AuthorizesAll(state, call) && call.requests.complete
      && A.StartedAt(trail, i, AttemptCodec.Metadata(trail.instance, call.caller, call.capability, state.epoch, call.requests))
    case Landed(call, _, state) => AuthorizesAll(state, call) && call.requests.complete
    case Replied(_, _, _, _) => true
    case Applied(op, before, state, outcome, _) => SI.Valid(before) && (state, outcome) == S.Apply(before, op)
    case Notified(_, _, locked, _) => !locked
    case Returned(_, _) => true
  }

  /** Events carry valid states in the order of the run, none later than the present. */
  ghost predicate Chronicle(history: seq<Event>, now: S.State) {
    && (forall n :: 0 <= n < |history| ==> Sound(history[n]))
    && (forall n :: 0 <= n < |history| && Dated(history[n]) ==> SI.Valid(history[n].state) && ST.Later(history[n].state, now))
    && (forall i, j :: 0 <= i < j < |history| && Dated(history[i]) && Dated(history[j]) ==>
          ST.Later(history[i].state, history[j].state))
  }

  lemma ChronicleMoves(history: seq<Event>, now: S.State, next: S.State)
    requires Chronicle(history, now) && ST.Later(now, next)
    ensures Chronicle(history, next)
  {
    hide ST.Later, SI.Valid, Sound;
    forall n | 0 <= n < |history| && Dated(history[n]) ensures ST.Later(history[n].state, next) {
      ST.LaterTransitive(history[n].state, now, next);
    }
  }

  lemma ChronicleGrows(history: seq<Event>, now: S.State, e: Event)
    requires Chronicle(history, now) && Sound(e) && SI.Valid(now)
    requires Dated(e) ==> e.state == now
    ensures Chronicle(history + [e], now)
  {
    hide ST.Later, SI.Valid, Sound;
    ST.LaterReflexive(now);
  }

  /** The event a step adds, if any. */
  ghost predicate AddsOne(k: Kernel, n: Kernel, t: Tid) {
    || n.history == k.history
    || (exists e :: n.history == k.history + [e] && Sound(e) && (Dated(e) ==> e.state == n.state))
  }

  /** The attempt of a thread that has not finished is durably started for exactly its request set. */
  lemma StartedOwned(trail: A.Trail, epoch: u64, pc: Pc)
    requires A.Valid(trail) && HasAttempt(pc) && !pc.Storing? && Owns(trail, epoch, pc)
    ensures A.StartedAt(trail, pc.i, AttemptCodec.Metadata(trail.instance, pc.call.caller, pc.call.capability, epoch, pc.call.requests))
  {
    hide AttemptCodec.EncodeAttempt, A.NextAttempt;
    assert trail.backend.Some? ==> A.Backed(trail.entries[pc.i], trail.backend.value.attempts);
  }

  lemma EffectAdds(k: Kernel, t: Tid, m: Move)
    requires t in k.threads && Cleared(k.state, k.threads) && Attempts(k.trail, k.state.epoch, k.threads)
    ensures AddsOne(k, EffectStep(k, t, k.threads[t], m), t)
  {
    hide A.StartSet, A.FinishDurably, A.Store, AuthorizesAll, A.Valid, KernelSuccess, AfterExecution, AttemptCodec.EncodeAttempt, A.StartedAt;
    var pc := k.threads[t];
    if pc.Authorized? && m.Invoke? {
      var e := Invoked(pc.call, pc.i, k.state, k.trail);
      StartedOwned(k.trail, k.state.epoch, pc);
      assert Sound(e);
    } else if pc.Executing? && m.Land? && !pc.landed {
      var e := Landed(pc.call, pc.i, k.state);
      assert Sound(e);
    } else if pc.Leaving? && m.Release? {
      var e := Replied(pc.call, pc.attempt, pc.reply, k.trail);
      assert Sound(e);
    }
  }

  lemma BeginAdds(k: Kernel, t: Tid, m: Move)
    ensures AddsOne(k, Begin(k, t, m), t)
  {
    if m.CallEffect? {
      var e := Replied(m.call, None, NotAuthorized, k.trail);
      assert Sound(e);
    }
  }

  lemma TransitionAdds(k: Kernel, t: Tid, m: Move)
    requires t in k.threads && Locks(k.writer, k.readers, k.threads) && SI.Valid(k.state)
    ensures AddsOne(k, TransitionStep(k, t, k.threads[t], m), t)
  {
    hide S.Apply, Revoking, SI.Valid;
    var pc := k.threads[t];
    if pc.Writing? && m.Transition? {
      var (state, outcome) := S.Apply(k.state, pc.op);
      var e := Applied(pc.op, k.state, state, outcome, k.observers);
      assert Sound(e);
    } else if pc.Notifying? && m.Notify? && pc.done < |pc.list| {
      var e := Notified(pc.at, pc.list[pc.done], false, m.ok);
      assert Sound(e);
    } else if pc.Notifying? && m.Return? && pc.done == |pc.list| {
      var e := Returned(pc.at, pc.failed);
      assert Sound(e);
    } else if pc.Unlocking? && m.Release? {
      var e := Returned(pc.at, None);
      assert Sound(e);
    }
  }

  lemma ChronicleStep(k: Kernel, t: Tid, m: Move)
    requires Locks(k.writer, k.readers, k.threads) && SI.Valid(k.state)
    requires Cleared(k.state, k.threads) && Attempts(k.trail, k.state.epoch, k.threads)
    requires Chronicle(k.history, k.state)
    ensures Chronicle(Step(k, t, m).history, Step(k, t, m).state)
  {
    hide EffectStep, TransitionStep, SI.Valid, ST.Later, Sound, Chronicle, Locks, Cleared, Attempts;
    var n := Step(k, t, m);
    StateStep(k, t, m);
    ChronicleMoves(k.history, k.state, n.state);
    if t in k.threads {
      EffectAdds(k, t, m);
      TransitionAdds(k, t, m);
    } else {
      BeginAdds(k, t, m);
    }
    assert AddsOne(k, n, t);
    if n.history != k.history {
      var e :| n.history == k.history + [e] && Sound(e) && (Dated(e) ==> e.state == n.state);
      ChronicleGrows(k.history, n.state, e);
    }
  }

  // ----- every run ---------------------------------------------------------

  ghost predicate Valid(k: Kernel) {
    && Locks(k.writer, k.readers, k.threads)
    && SI.Valid(k.state)
    && Cleared(k.state, k.threads)
    && Attempts(k.trail, k.state.epoch, k.threads)
    && Chronicle(k.history, k.state)
    && Promises(k.threads, k.history, k.observers)
    && AllFulfilled(k.history)
    && Honest(k.history, k.trail, k.threads)
    && Single(k.history, |k.trail.entries|, k.threads)
    && Replies(k.history, k.trail, k.threads)
  }

  lemma StepValid(k: Kernel, t: Tid, m: Move)
    requires Valid(k)
    ensures Valid(Step(k, t, m)) && A.Later(k.trail, Step(k, t, m).trail) && ST.Later(k.state, Step(k, t, m).state)
  {
    hide Step, Locks, SI.Valid, Cleared, Attempts, Chronicle, Promises, AllFulfilled, Honest, Single, Replies, A.Later, ST.Later;
    LocksStep(k, t, m);
    StateStep(k, t, m);
    ClearedStep(k, t, m);
    AttemptsStep(k, t, m);
    ChronicleStep(k, t, m);
    PromisesStep(k, t, m);
    HonestStep(k, t, m);
    SingleStep(k, t, m);
    RepliesStep(k, t, m);
  }

  lemma TrailLaterReflexive(t: A.Trail)
    ensures A.Later(t, t)
  {
  }

  /**
   Every interleaving keeps the invariant. The trail it leaves extends the
   one it found: no attempt changes identity, and a terminal outcome, in
   memory or on disk, is final.
   */
  lemma {:induction false} RunValid(k: Kernel, steps: seq<(Tid, Move)>)
    requires Valid(k)
    ensures Valid(Run(k, steps)) && A.Later(k.trail, Run(k, steps).trail) && ST.Later(k.state, Run(k, steps).state)
    decreases |steps|
  {
    hide Step, Valid, A.Later, ST.Later;
    if steps == [] {
      TrailLaterReflexive(k.trail);
      ST.LaterReflexive(k.state);
    } else {
      var n := Step(k, steps[0].0, steps[0].1);
      StepValid(k, steps[0].0, steps[0].1);
      RunValid(n, steps[1..]);
      A.LaterTransitive(k.trail, n.trail, Run(k, steps).trail);
      ST.LaterTransitive(k.state, n.state, Run(k, steps).state);
    }
  }

  lemma StartValid(state: S.State, trail: A.Trail)
    requires SI.Valid(state) && A.Valid(trail) && trail.entries == []
    ensures Valid(K.Start(state, trail))
  {
    hide SI.Valid, A.Valid;
  }

  // ----- main results ------------------------------------------------------

  /** Each effect that lands does so in a valid state that authorizes every request of its set. */
  lemma CommitsAreAuthorized(state: S.State, trail: A.Trail, steps: seq<(Tid, Move)>, n: nat)
    requires SI.Valid(state) && A.Valid(trail) && trail.entries == []
    requires var h := Run(K.Start(state, trail), steps).history; n < |h| && h[n].Landed?
    ensures var e := Run(K.Start(state, trail), steps).history[n]; SI.Valid(e.state) && AuthorizesAll(e.state, e.call)
  {
    hide SI.Valid, A.Valid, Run, AuthorizesAll, ST.Later, Locks, Cleared, Attempts, Promises, AllFulfilled, Honest, Single, Replies;
    StartValid(state, trail);
    RunValid(K.Start(state, trail), steps);
    assert Sound(Run(K.Start(state, trail), steps).history[n]);
  }

  /**
   Once a transition has revoked `c`, no effect that lands later relies on
   `c` or on anything derived from it, at any distance.
   */
  lemma NoCommitAfterRevocation(state: S.State, trail: A.Trail, steps: seq<(Tid, Move)>, i: nat, j: nat, c: CapId, ch: seq<CapId>)
    requires SI.Valid(state) && A.Valid(trail) && trail.entries == []
    requires var h := Run(K.Start(state, trail), steps).history;
             && i < j < |h| && h[i].Applied? && c in h[i].state.revoked
             && h[j].Landed? && S.RootChain(h[j].state.caps, h[j].call.capability, ch)
    ensures c !in ch
  {
    hide SI.Valid, A.Valid, Run, S.Authorizes, ST.HandlesLater, ST.HeldLater, ST.StatusesLater, Locks, Cleared, Attempts, Promises, AllFulfilled, Honest, Single, Replies;
    var h := Run(K.Start(state, trail), steps).history;
    StartValid(state, trail);
    RunValid(K.Start(state, trail), steps);
    assert Sound(h[j]) && ST.Later(h[i].state, h[j].state);
    var e := h[j];
    assert Requests(e.call.requests)[0] == e.call.requests.first;
    assert S.Authorizes(e.state, e.call.caller, e.call.capability, e.call.requests.first);
    S.ChainUnique(e.state.caps, e.call.capability, ch, ST.Ancestry(e.state, e.call.capability));
    if x :| 0 <= x < |ch| && ch[x] == c {
      ST.RevokedDescendantInert(e.state, e.call.caller, e.call.capability, e.call.requests.first, x);
    }
  }

  /** The transitions that revoke, and what they revoke. */
  lemma RevokingTransitions(s: S.State, op: S.Op)
    ensures var (t, outcome) := S.Apply(s, op);
            && (op.OpRevokeHeldBy? && (outcome.NewlyRevoked? || outcome.AlreadyRevoked?) ==> op.c in t.revoked)
            && (op.OpRevoke? && (outcome.NewlyRevoked? || outcome.AlreadyRevoked?) ==> op.c in t.revoked)
            && (op.OpBeginClose? && outcome.CloseStarted? && op.subject in s.held ==> s.held[op.subject] <= t.revoked)
            && (Revoking(outcome) ==> op.OpRevokeHeldBy? || op.OpRevoke? || op.OpBeginClose?)
  {
    hide S.EnsureRunning, S.ValidateEnvelope, S.ParentFault, S.OwnsOpenHandle, S.Probe;
  }

  /**
   A transition counts as revoking exactly when it moves the epoch, that is
   when it revokes a capability or stops a subject; otherwise no answer about
   any capability there was has changed.
   */
  lemma RevokingExact(s: S.State, op: S.Op)
    requires SI.Valid(s)
    ensures var (t, outcome) := S.Apply(s, op);
            && (Revoking(outcome) <==> t.epoch != s.epoch)
            && (Revoking(outcome) <==> t.revoked != s.revoked || SD.NewlyStopped(s.statuses, t.statuses) != {})
            && (!Revoking(outcome) ==> forall caller, c, r :: c in s.caps ==> (S.Authorizes(t, caller, c, r) <==> S.Authorizes(s, caller, c, r)))
  {
    SD.Footprint(s, op);
    var (t, outcome) := S.Apply(s, op);
    assert SD.EpochMoves(s, t, outcome);
    hide SI.Valid, S.Apply, S.Authorizes, SD.Touches, SD.Answers, SD.NewlyStopped, ST.Later;
    if !Revoking(outcome) {
      SI.ApplyValid(s, op);
      ST.ApplyLater(s, op);
      forall caller, c, r | c in s.caps ensures S.Authorizes(t, caller, c, r) <==> S.Authorizes(s, caller, c, r) {
        ST.SameAnswer(s, t, caller, c, r);
      }
    }
  }

  /** The transition at place `i` of the history moved the epoch. */
  predicate MovedEpoch(h: seq<Event>, i: nat) {
    i < |h| && h[i].Applied? && h[i].before.epoch != h[i].state.epoch
  }

  /**
   A call whose transition moved the epoch returns only after every observer
   registered at that transition has run, each once and in registration
   order, while the call held no lock; it reports the first failure of that
   round. Other transitions notify nobody and report nothing.
   */
  lemma ObserversBeforeReturn(state: S.State, trail: A.Trail, steps: seq<(Tid, Move)>, j: nat)
    requires SI.Valid(state) && A.Valid(trail) && trail.entries == []
    requires var h := Run(K.Start(state, trail), steps).history; j < |h| && h[j].Returned?
    ensures var h := Run(K.Start(state, trail), steps).history;
            && h[j].at < j && h[h[j].at].Applied?
            && var round := Round(h[..j], h[j].at);
               if MovedEpoch(h, h[j].at) then
                 && h[h[j].at].observers <= Ran(round)
                 && h[j].failed == FirstFailure(round)
                 && forall n :: 0 <= n < j && h[n].Notified? && h[n].at == h[j].at ==> h[j].at < n && !h[n].locked
               else h[j].failed.None? && forall n :: 0 <= n < |h| && h[n].Notified? ==> h[n].at != h[j].at
  {
    hide SI.Valid, A.Valid, Run, ST.Later, Locks, Cleared, Attempts, Promises, Honest, Single, Replies, Round, Ran, FirstFailure, AuthorizesAll, A.StartedAt;
    hide Revoking, S.Apply;
    StartValid(state, trail);
    RunValid(K.Start(state, trail), steps);
    var h := Run(K.Start(state, trail), steps).history;
    assert Fulfilled(h, j);
    var i := h[j].at;
    assert Sound(h[i]);
    RevokingExact(h[i].before, h[i].op);
    forall n | 0 <= n < |h| && h[n].Notified? && h[n].at == i ensures i < n && !h[n].locked && Revoking(h[i].outcome) {
      assert Fulfilled(h, n) && Sound(h[n]);
    }
  }

  /** In particular each of those observers has its own notification between the transition and the return. */
  lemma ObserverHeard(state: S.State, trail: A.Trail, steps: seq<(Tid, Move)>, j: nat, x: nat)
    requires SI.Valid(state) && A.Valid(trail) && trail.entries == []
    requires var h := Run(K.Start(state, trail), steps).history;
             j < |h| && h[j].Returned? && MovedEpoch(h, h[j].at) && x < |h[h[j].at].observers|
    ensures var h := Run(K.Start(state, trail), steps).history;
            exists n :: h[j].at < n < j && h[n].Notified? && h[n].at == h[j].at && h[n].observer == h[h[j].at].observers[x] && !h[n].locked
  {
    hide SI.Valid, A.Valid, Run, Round;
    ObserversBeforeReturn(state, trail, steps, j);
    var h := Run(K.Start(state, trail), steps).history;
    var round := Round(h[..j], h[j].at);
    assert Ran(round)[x] == h[h[j].at].observers[x];
    RoundHeard(h[..j], h[j].at, x);
    var n :| 0 <= n < j && h[..j][n].Notified? && h[..j][n].at == h[j].at && (h[..j][n].observer, h[..j][n].ok) == round[x];
    assert h[n] == h[..j][n];
  }

  /**
   No stale decision outlives the call that changed it: when a transition
   takes back an answer about a capability, every observer registered then
   has been notified by the time the call returns.
   */
  lemma ChangedAnswersAreHeard(state: S.State, trail: A.Trail, steps: seq<(Tid, Move)>, i: nat, j: nat, x: nat,
                               caller: SubjectId, c: CapId, r: CapabilityRequest)
    requires SI.Valid(state) && A.Valid(trail) && trail.entries == []
    requires var h := Run(K.Start(state, trail), steps).history;
             && i < |h| && h[i].Applied? && x < |h[i].observers| && j < |h| && h[j].Returned? && h[j].at == i
             && S.Authorizes(h[i].before, caller, c, r) && !S.Authorizes(h[i].state, caller, c, r)
    ensures var h := Run(K.Start(state, trail), steps).history;
            exists n :: i < n < j && h[n].Notified? && h[n].at == i && h[n].observer == h[i].observers[x] && !h[n].locked
  {
    hide A.Valid, Run, ST.Later, Locks, Cleared, Attempts, Promises, AllFulfilled, Honest, Single, Replies, AuthorizesAll, A.StartedAt;
    hide SI.Valid, S.Apply, Revoking, CapabilityMatches, S.Active;
    StartValid(state, trail);
    RunValid(K.Start(state, trail), steps);
    var h := Run(K.Start(state, trail), steps).history;
    assert Sound(h[i]);
    RevokingExact(h[i].before, h[i].op);
    assert c in h[i].before.caps;
    ObserverHeard(state, trail, steps, j, x);
  }

  /** Whatever the caller of an effect is told agrees with the record and with what happened. */
  lemma RepliesAreTrue(state: S.State, trail: A.Trail, steps: seq<(Tid, Move)>, n: nat)
    requires SI.Valid(state) && A.Valid(trail) && trail.entries == []
    requires var h := Run(K.Start(state, trail), steps).history; n < |h| && h[n].Replied?
    ensures var h := Run(K.Start(state, trail), steps).history; Told(h[..n], h[n].trail, h[n].attempt, h[n].reply)
  {
    hide SI.Valid, A.Valid, Run, ST.Later, Locks, Cleared, Attempts, Promises, AllFulfilled, Honest, Single, Chronicle, Told, Owed;
    StartValid(state, trail);
    RunValid(K.Start(state, trail), steps);
  }

  /** In every interleaving each attempt has at most one executor call and at most one landing. */
  lemma OncePerAttempt(state: S.State, trail: A.Trail, steps: seq<(Tid, Move)>)
    requires SI.Valid(state) && A.Valid(trail) && trail.entries == []
    ensures Once(Run(K.Start(state, trail), steps).history)
  {
    hide SI.Valid, A.Valid, Run, ST.Later, Locks, Cleared, Attempts, Promises, AllFulfilled, Honest, Chronicle, Once, Replies;
    StartValid(state, trail);
    RunValid(K.Start(state, trail), steps);
  }

  /** The executor is called only for a durably started attempt whose whole request set was just authorized. */
  lemma ExecutorCallsAreAudited(state: S.State, trail: A.Trail, steps: seq<(Tid, Move)>, n: nat)
    requires SI.Valid(state) && A.Valid(trail) && trail.entries == []
    requires var h := Run(K.Start(state, trail), steps).history; n < |h| && h[n].Invoked?
    ensures var e := Run(K.Start(state, trail), steps).history[n];
            && AuthorizesAll(e.state, e.call) && e.call.requests.complete
            && A.StartedAt(e.trail, e.i, AttemptCodec.Metadata(e.trail.instance, e.call.caller, e.call.capability, e.state.epoch, e.call.requests))
  {
    hide SI.Valid, A.Valid, Run, AuthorizesAll, ST.Later, Locks, Cleared, Attempts, Promises, AllFulfilled, Honest, Single, A.StartedAt, Replies;
    StartValid(state, trail);
    RunValid(K.Start(state, trail), steps);
    assert Sound(Run(K.Start(state, trail), steps).history[n]);
  }

  /** In every reachable kernel the trail agrees with its journal, so the next start cannot be a replay. */
  lemma TrailAgrees(state: S.State, trail: A.Trail, steps: seq<(Tid, Move)>)
    requires SI.Valid(state) && A.Valid(trail) && trail.entries == []
    ensures var k := Run(K.Start(state, trail), steps); A.Valid(k.trail) && A.Ordered(A.Effects(k.trail.entries))
  {
    hide SI.Valid, Run, ST.Later, Locks, Cleared, Promises, AllFulfilled, Honest, Single, Chronicle, A.Backed, A.NextAttempt, Replies;
    StartValid(state, trail);
    RunValid(K.Start(state, trail), steps);
    A.EffectsExact(Run(K.Start(state, trail), steps).trail.entries);
  }

  /**
   The durable record tells the truth about the outside world: an attempt
   recorded as committed did land, and one recorded as denied or failed
   never did.
   */
  lemma RecordsAreTruthful(state: S.State, trail: A.Trail, steps: seq<(Tid, Move)>, i: nat)
    requires SI.Valid(state) && A.Valid(trail) && trail.entries == []
    requires i < |Run(K.Start(state, trail), steps).trail.entries|
    ensures var k := Run(K.Start(state, trail), steps);
            && (k.trail.entries[i].outcome != Journal.Started ==> Standing(k.trail, i) == k.trail.entries[i].outcome)
            && (Standing(k.trail, i).Committed? ==> HasLanded(k.history, i))
            && (Standing(k.trail, i).Denied? || Standing(k.trail, i).FailedBeforeCommit? ==> !HasLanded(k.history, i))
  {
    hide SI.Valid, Run, ST.Later, Locks, Cleared, Promises, AllFulfilled, Single, Chronicle, A.NextAttempt, HasLanded, Owns, AttemptCodec.EncodeAttempt, Replies;
    StartValid(state, trail);
    RunValid(K.Start(state, trail), steps);
    var k := Run(K.Start(state, trail), steps);
    assert Truth(k.history, i, Standing(k.trail, i));
    assert k.trail.backend.Some? ==> A.Backed(k.trail.entries[i], k.trail.backend.value.attempts);
  }

  // ----- linearization -----------------------------------------------------

  /** The transitions of a history, in order. */
  function Transitions(history: seq<Event>): seq<S.Op> {
    if history == [] then []
    else
      var last := history[|history| - 1];
      Transitions(history[..|history| - 1]) + if last.Applied? then [last.op] else []
  }

  lemma TransitionsSnoc(history: seq<Event>, e: Event)
    ensures Transitions(history + [e]) == Transitions(history) + if e.Applied? then [e.op] else []
  {
    assert (history + [e])[..|history|] == history;
  }

  lemma {:induction false} RunSnoc(s: S.State, ops: seq<S.Op>, op: S.Op)
    ensures S.Run(s, ops + [op]) == S.Apply(S.Run(s, ops), op).0
    decreases |ops|
  {
    hide S.Apply;
    if ops == [] {
      assert ops + [op] == [op] && [op][1..] == [];
    } else {
      assert (ops + [op])[1..] == ops[1..] + [op];
      RunSnoc(S.Apply(s, ops[0]).0, ops[1..], op);
    }
  }

  /** The present and every dated event are where the sequential run of the transitions so far has come to. */
  ghost predicate Linear(initial: S.State, history: seq<Event>, now: S.State) {
    && now == S.Run(initial, Transitions(history))
    && (forall n :: 0 <= n < |history| && Dated(history[n]) ==> history[n].state == S.Run(initial, Transitions(history[..n + 1])))
    && (forall n :: 0 <= n < |history| && history[n].Applied? ==> history[n].before == S.Run(initial, Transitions(history[..n])))
  }

  lemma LinearGrows(initial: S.State, history: seq<Event>, now: S.State, e: Event, next: S.State)
    requires Linear(initial, history, now)
    requires Dated(e) ==> e.state == next
    requires if e.Applied? then e.before == now && next == S.Apply(now, e.op).0 else next == now
    ensures Linear(initial, history + [e], next)
  {
    hide S.Apply, S.Run, Transitions;
    var more := history + [e];
    TransitionsSnoc(history, e);
    if e.Applied? {
      RunSnoc(initial, Transitions(history), e.op);
    }
    assert more[..|history|] == history && more[..|history| + 1] == more;
    assert Transitions(history) + [] == Transitions(history);
    forall n | 0 <= n < |more| && Dated(more[n]) ensures more[n].state == S.Run(initial, Transitions(more[..n + 1])) {
      assert n < |history| ==> more[..n + 1] == history[..n + 1] && more[n] == history[n];
    }
    forall n | 0 <= n < |more| && more[n].Applied? ensures more[n].before == S.Run(initial, Transitions(more[..n])) {
      assert n < |history| ==> more[..n] == history[..n] && more[n] == history[n];
    }
  }

  /** The event a step adds and the state it leaves. */
  lemma StepLinear(initial: S.State, k: Kernel, t: Tid, m: Move)
    requires Linear(initial, k.history, k.state)
    ensures Linear(initial, Step(k, t, m).history, Step(k, t, m).state)
  {
    hide Linear, EffectStep, TransitionStep;
    if t in k.threads {
      EffectLinear(initial, k, t, m);
      TransitionLinear(initial, k, t, m);
    } else if m.CallEffect? {
      LinearGrows(initial, k.history, k.state, Replied(m.call, None, NotAuthorized, k.trail), k.state);
    }
  }

  lemma EffectLinear(initial: S.State, k: Kernel, t: Tid, m: Move)
    requires Linear(initial, k.history, k.state) && t in k.threads
    ensures var n := EffectStep(k, t, k.threads[t], m); Linear(initial, n.history, n.state)
  {
    hide Linear, A.StartSet, A.FinishDurably, A.Store, AuthorizesAll, KernelSuccess, AfterExecution;
    var pc := k.threads[t];
    if pc.Authorized? && m.Invoke? {
      LinearGrows(initial, k.history, k.state, Invoked(pc.call, pc.i, k.state, k.trail), k.state);
    } else if pc.Executing? && m.Land? && !pc.landed {
      LinearGrows(initial, k.history, k.state, Landed(pc.call, pc.i, k.state), k.state);
    } else if pc.Leaving? && m.Release? {
      LinearGrows(initial, k.history, k.state, Replied(pc.call, pc.attempt, pc.reply, k.trail), k.state);
    }
  }

  lemma TransitionLinear(initial: S.State, k: Kernel, t: Tid, m: Move)
    requires Linear(initial, k.history, k.state) && t in k.threads
    ensures var n := TransitionStep(k, t, k.threads[t], m); Linear(initial, n.history, n.state)
  {
    hide Linear, S.Apply, Revoking;
    var pc := k.threads[t];
    var n := TransitionStep(k, t, pc, m);
    if n.history != k.history {
      assert n.history == k.history + [n.history[|k.history|]];
      LinearGrows(initial, k.history, k.state, n.history[|k.history|], n.state);
    }
  }

  /**
   Every interleaving is a sequential run: the state is what the transitions
   of the history, in their order, make of the first state, and each executor
   call, landing and transition saw the state of its own place in that order.
   */
  lemma {:induction false} Linearized(initial: S.State, k: Kernel, steps: seq<(Tid, Move)>)
    requires Linear(initial, k.history, k.state)
    ensures Linear(initial, Run(k, steps).history, Run(k, steps).state)
    decreases |steps|
  {
    hide Linear, Step;
    if steps != [] {
      StepLinear(initial, k, steps[0].0, steps[0].1);
      Linearized(initial, Step(k, steps[0].0, steps[0].1), steps[1..]);
    }
  }

  lemma StartLinear(state: S.State, trail: A.Trail)
    ensures Linear(state, K.Start(state, trail).history, state)
  {
  }

  // ----- the journal behind the trail --------------------------------------

  ghost predicate JournalValid(trail: A.Trail) {
    trail.backend.Some? ==> J.Valid(trail.backend.value)
  }

  lemma StartKeepsJournal(t: A.Trail, call: Call, epoch: u64, io: J.Io)
    requires JournalValid(t)
    ensures JournalValid(A.StartSet(t, call.caller, call.capability, call.requests, epoch, io).0)
  {
    hide J.Valid, J.Apply;
    if t.backend.Some? && t.next.Some? {
      J.ApplyValid(t.backend.value, J.Begin(t.next.value, AttemptCodec.Metadata(t.instance, call.caller, call.capability, epoch, call.requests)), io);
    }
  }

  lemma FinishKeepsJournal(t: A.Trail, i: nat, outcome: Journal.Outcome, receipt: Option<Journal.Receipt>, evidence: Option<Journal.Evidence>, io: J.Io)
    requires JournalValid(t) && i < |t.entries|
    ensures JournalValid(A.FinishDurably(t, i, outcome, receipt, evidence, io).0)
  {
    hide J.Valid, J.Apply;
    if t.backend.Some? {
      J.ApplyValid(t.backend.value, J.Finish(t.entries[i].id, outcome, receipt, evidence), io);
    }
  }

  lemma JournalEffect(k: Kernel, t: Tid, m: Move)
    requires JournalValid(k.trail) && t in k.threads
    ensures JournalValid(EffectStep(k, t, k.threads[t], m).trail)
  {
    hide J.Valid, A.StartSet, A.FinishDurably, AuthorizesAll, KernelSuccess, AfterExecution;
    var pc := k.threads[t];
    if pc.Reading? && m.Record? {
      StartKeepsJournal(k.trail, pc.call, k.state.epoch, m.io);
    } else if pc.Finishing? && m.Persist? && pc.i < |k.trail.entries| {
      FinishKeepsJournal(k.trail, pc.i, pc.outcome, pc.receipt, pc.evidence, m.io);
    }
  }

  lemma TransitionKeepsTrail(k: Kernel, t: Tid, m: Move)
    requires t in k.threads
    ensures TransitionStep(k, t, k.threads[t], m).trail == k.trail
  {
    hide S.Apply, Revoking;
  }

  /**
   In every interleaving the journal invariant holds: the bytes of a usable
   log parse to exactly its own attempt map, and those a sealed log accounts
   for still do.
   */
  lemma {:induction false} JournalKept(k: Kernel, steps: seq<(Tid, Move)>)
    requires JournalValid(k.trail)
    ensures JournalValid(Run(k, steps).trail)
    decreases |steps|
  {
    hide EffectStep, TransitionStep, JournalValid;
    if steps != [] {
      var (t, m) := steps[0];
      if t in k.threads {
        JournalEffect(k, t, m);
        TransitionKeepsTrail(k, t, m);
      }
      JournalKept(Step(k, t, m), steps[1..]);
    }
  }
}
