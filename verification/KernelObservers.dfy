/** What observers of a revoking transition are owed, and when its caller may return. */
module KernelObservers {
  import opened Bytes
  import opened Capability
  import S = State
  import A = Audit
  import opened K = Kernel
  import opened KernelInvariant

  // ----- rounds ------------------------------------------------------------

  /** The notifications made so far for transition `at`, in order, with their results. */
  function Round(history: seq<Event>, at: nat): seq<(Observer, bool)> {
    if history == [] then []
    else
      var last := history[|history| - 1];
      Round(history[..|history| - 1], at) + if last.Notified? && last.at == at then [(last.observer, last.ok)] else []
  }

  lemma RoundSnoc(history: seq<Event>, e: Event, at: nat)
    ensures Round(history + [e], at) == Round(history, at) + if e.Notified? && e.at == at then [(e.observer, e.ok)] else []
  {
    assert (history + [e])[..|history|] == history;
  }

  lemma {:induction false} RoundEmpty(history: seq<Event>, at: nat)
    requires forall j :: 0 <= j < |history| && history[j].Notified? ==> history[j].at != at
    ensures Round(history, at) == []
    decreases |history|
  {
    if history != [] {
      var n := |history| - 1;
      forall j | 0 <= j < n ensures history[..n][j] == history[j] {
      }
      RoundEmpty(history[..n], at);
      assert history[n].Notified? ==> history[n].at != at;
    }
  }

  /** Every entry of a round is an event of the history. */
  lemma {:induction false} RoundHeard(history: seq<Event>, at: nat, x: nat)
    requires x < |Round(history, at)|
    ensures exists n :: 0 <= n < |history| && history[n].Notified? && history[n].at == at
                        && (history[n].observer, history[n].ok) == Round(history, at)[x]
    decreases |history|
  {
    var n := |history| - 1;
    if x < |Round(history[..n], at)| {
      RoundHeard(history[..n], at, x);
      var j :| 0 <= j < n && history[..n][j].Notified? && history[..n][j].at == at
               && (history[..n][j].observer, history[..n][j].ok) == Round(history[..n], at)[x];
      assert history[j] == history[..n][j];
    } else {
      assert history[n].Notified?;
    }
  }

  /** The observers of a round, in the order they ran. */
  function Ran(round: seq<(Observer, bool)>): (s: seq<Observer>)
    ensures |s| == |round|
  {
    seq(|round|, i requires 0 <= i < |round| => round[i].0)
  }

  // ----- promises ----------------------------------------------------------

  predicate HasAt(pc: Pc) {
    pc.Unlocking? || pc.Propagating? || pc.Notifying?
  }

  /** What a thread past its transition still owes, and has already done. */
  ghost predicate Promise(pc: Pc, history: seq<Event>, observers: seq<Observer>) {
    HasAt(pc) ==>
      && pc.at < |history| && history[pc.at].Applied?
      && (!pc.Unlocking? ==> Revoking(history[pc.at].outcome))
      && (pc.Notifying? ==>
            && history[pc.at].observers <= pc.list && pc.done <= |pc.list|
            && Ran(Round(history, pc.at)) == pc.list[..pc.done] && pc.failed == FirstFailure(Round(history, pc.at)))
      && (!pc.Notifying? ==> history[pc.at].observers <= observers && Round(history, pc.at) == [])
  }

  ghost predicate Promises(threads: map<Tid, Pc>, history: seq<Event>, observers: seq<Observer>) {
    && (forall t :: t in threads ==> Promise(threads[t], history, observers))
    && (forall t, u :: t in threads && u in threads && t != u && HasAt(threads[t]) && HasAt(threads[u]) ==> threads[t].at != threads[u].at)
  }

  /**
   When the call of a revoking transition returns, every observer registered
   at the transition has run exactly once, in registration order, possibly
   followed by later ones; the failure it returns is the first of the round.
   */
  ghost predicate Fulfilled(history: seq<Event>, j: nat)
    requires j < |history|
  {
    && (history[j].Notified? ==> history[j].at < j && history[history[j].at].Applied? && Revoking(history[history[j].at].outcome))
    && (history[j].Returned? ==>
          && history[j].at < j && history[history[j].at].Applied?
          && (if Revoking(history[history[j].at].outcome)
              then && history[history[j].at].observers <= Ran(Round(history[..j], history[j].at))
                   && history[j].failed == FirstFailure(Round(history[..j], history[j].at))
              else history[j].failed.None?))
  }

  ghost predicate AllFulfilled(history: seq<Event>) {
    forall j :: 0 <= j < |history| ==> Fulfilled(history, j)
  }

  lemma FulfilledGrows(history: seq<Event>, e: Event)
    requires AllFulfilled(history) && Fulfilled(history + [e], |history|)
    ensures AllFulfilled(history + [e])
  {
    hide Revoking, Round;
    var more := history + [e];
    forall j | 0 <= j < |history| ensures Fulfilled(more, j) {
      assert Fulfilled(history, j);
      assert more[..j] == history[..j] && more[j] == history[j];
      if history[j].Returned? {
        assert more[history[j].at] == history[history[j].at];
      }
    }
  }

  /** A transition just applied has no notification yet. */
  lemma RoundFresh(history: seq<Event>, at: nat)
    requires AllFulfilled(history) && |history| <= at
    ensures Round(history, at) == []
  {
    hide Revoking;
    forall j | 0 <= j < |history| && history[j].Notified? ensures history[j].at != at {
      assert Fulfilled(history, j);
    }
    RoundEmpty(history, at);
  }

  /** Another thread's event, or a new observer, leaves a promise standing. */
  lemma PromiseKept(pc: Pc, history: seq<Event>, e: Event, observers: seq<Observer>)
    requires Promise(pc, history, observers)
    requires HasAt(pc) && e.Notified? ==> e.at != pc.at
    ensures Promise(pc, history + [e], observers)
  {
    hide Revoking, Round, Ran;
    if HasAt(pc) {
      RoundSnoc(history, e, pc.at);
      assert Round(history, pc.at) + [] == Round(history, pc.at);
      assert (history + [e])[pc.at] == history[pc.at];
    }
  }

  lemma PromiseWider(pc: Pc, history: seq<Event>, observers: seq<Observer>, o: Observer)
    requires Promise(pc, history, observers)
    ensures Promise(pc, history, observers + [o])
  {
    hide Revoking, Round, Ran;
  }

  // ----- the thread's own step ---------------------------------------------

  lemma NotifyPromise(pc: Pc, history: seq<Event>, observers: seq<Observer>, ok: bool)
    requires pc.Notifying? && pc.done < |pc.list| && Promise(pc, history, observers)
    ensures Promise(Notifying(pc.at, pc.list, pc.done + 1, if pc.failed.None? && !ok then Some(pc.list[pc.done]) else pc.failed),
                    history + [Notified(pc.at, pc.list[pc.done], false, ok)], observers)
  {
    hide Revoking, Round;
    var e := Notified(pc.at, pc.list[pc.done], false, ok);
    var round := Round(history, pc.at);
    RoundSnoc(history, e, pc.at);
    assert (history + [e])[pc.at] == history[pc.at];
    var more := round + [(e.observer, ok)];
    assert more[..|round|] == round;
    assert Ran(more) == Ran(round) + [e.observer];
    assert pc.list[..pc.done + 1] == pc.list[..pc.done] + [pc.list[pc.done]];
  }

  lemma ReturnFulfilled(pc: Pc, history: seq<Event>, observers: seq<Observer>)
    requires pc.Notifying? && pc.done == |pc.list| && Promise(pc, history, observers)
    ensures Fulfilled(history + [Returned(pc.at, pc.failed)], |history|)
  {
    hide Revoking, Round, Ran;
    var more := history + [Returned(pc.at, pc.failed)];
    assert more[..|history|] == history && more[pc.at] == history[pc.at];
    assert pc.list[..pc.done] == pc.list;
  }

  lemma NotLocked(k: Kernel, t: Tid)
    requires t in k.threads && Locks(k.writer, k.readers, k.threads) && k.threads[t].Notifying?
    ensures k.writer != Some(t) && t !in k.readers
  {
  }

  /** The stepping thread's own promise, and the fulfilment of a return. */
  lemma OwnPromise(k: Kernel, t: Tid, m: Move)
    requires t in k.threads && Locks(k.writer, k.readers, k.threads)
    requires Promise(k.threads[t], k.history, k.observers) && AllFulfilled(k.history)
    ensures var n := TransitionStep(k, t, k.threads[t], m);
            AllFulfilled(n.history) && (t in n.threads ==> Promise(n.threads[t], n.history, n.observers))
  {
    hide S.Apply, Revoking, AllFulfilled, Locks, Round, Ran, FirstFailure;
    var pc := k.threads[t];
    var n := TransitionStep(k, t, pc, m);
    if pc.Writing? && m.Transition? {
      var (state, outcome) := S.Apply(k.state, pc.op);
      var e := Applied(pc.op, k.state, state, outcome, k.observers);
      FulfilledGrows(k.history, e);
      RoundFresh(k.history, |k.history|);
      RoundSnoc(k.history, e, |k.history|);
    } else if pc.Notifying? && m.Notify? && pc.done < |pc.list| {
      NotLocked(k, t);
      NotifyPromise(pc, k.history, k.observers, m.ok);
      FulfilledGrows(k.history, Notified(pc.at, pc.list[pc.done], false, m.ok));
    } else if pc.Notifying? && m.Return? && pc.done == |pc.list| {
      ReturnFulfilled(pc, k.history, k.observers);
      FulfilledGrows(k.history, Returned(pc.at, pc.failed));
    } else if pc.Unlocking? && m.Release? && !Revoking(k.history[pc.at].outcome) {
      assert (k.history + [Returned(pc.at, None)])[pc.at] == k.history[pc.at];
      FulfilledGrows(k.history, Returned(pc.at, None));
    } else if pc.Propagating? && m.Snapshot? {
      EmptyRound(k.observers);
    }
  }

  lemma EmptyRound(list: seq<Observer>)
    ensures Ran([]) == list[..0] && FirstFailure([]) == None
  {
  }

  // ----- steps of every thread ---------------------------------------------

  /** What one transition step does to the history and to the other threads. */
  lemma TransitionOthers(k: Kernel, t: Tid, m: Move)
    requires t in k.threads && Promise(k.threads[t], k.history, k.observers)
    ensures var n := TransitionStep(k, t, k.threads[t], m);
            && n.observers == k.observers
            && (forall u :: u in n.threads && u != t ==> u in k.threads && n.threads[u] == k.threads[u])
            && (n.history == k.history
                || (exists e :: n.history == k.history + [e] && (e.Notified? ==> HasAt(k.threads[t]) && e.at == k.threads[t].at)))
            && (t in n.threads && HasAt(n.threads[t]) ==>
                  || (HasAt(k.threads[t]) && n.threads[t].at == k.threads[t].at)
                  || (n.threads[t].at == |k.history|))
  {
    hide S.Apply, Revoking, Promise;
    var pc := k.threads[t];
    var n := TransitionStep(k, t, pc, m);
    if n.history != k.history {
      assert n.history == k.history + [n.history[|k.history|]];
    }
  }

  lemma EffectOthers(k: Kernel, t: Tid, m: Move)
    requires t in k.threads && AllFulfilled(k.history)
    ensures var n := EffectStep(k, t, k.threads[t], m);
            && AllFulfilled(n.history) && n.observers == k.observers
            && (forall u :: u in n.threads && u != t ==> u in k.threads && n.threads[u] == k.threads[u])
            && (n.history == k.history || (exists e :: n.history == k.history + [e] && !e.Notified?))
            && (t in n.threads && n.threads[t] != k.threads[t] ==> !HasAt(n.threads[t]))
  {
    hide A.StartSet, A.FinishDurably, A.Store, AuthorizesAll, KernelSuccess, AllFulfilled, RetainableEvidence;
    var pc := k.threads[t];
    if pc.Authorized? && m.Invoke? {
      FulfilledGrows(k.history, Invoked(pc.call, pc.i, k.state, k.trail));
    } else if pc.Executing? && m.Land? && !pc.landed {
      FulfilledGrows(k.history, Landed(pc.call, pc.i, k.state));
    } else if pc.Leaving? && m.Release? {
      FulfilledGrows(k.history, Replied(pc.call, pc.attempt, pc.reply, k.trail));
    }
  }

  /** Threads that do not step keep their promises. */
  lemma OthersKept(k: Kernel, n: Kernel, t: Tid)
    requires Promises(k.threads, k.history, k.observers) && n.observers == k.observers
    requires n.history == k.history
             || (exists e :: n.history == k.history + [e] && (e.Notified? ==> t in k.threads && HasAt(k.threads[t]) && e.at == k.threads[t].at))
    ensures forall u :: u in k.threads && u != t ==> Promise(k.threads[u], n.history, n.observers)
  {
    hide Promise;
    if n.history != k.history {
      var e :| n.history == k.history + [e] && (e.Notified? ==> t in k.threads && HasAt(k.threads[t]) && e.at == k.threads[t].at);
      forall u | u in k.threads && u != t ensures Promise(k.threads[u], n.history, n.observers) {
        PromiseKept(k.threads[u], k.history, e, k.observers);
      }
    }
  }

  lemma AtBound(k: Kernel)
    requires Promises(k.threads, k.history, k.observers)
    ensures forall u :: u in k.threads && HasAt(k.threads[u]) ==> k.threads[u].at < |k.history|
  {
    hide Round, Ran, Revoking;
    forall u | u in k.threads && HasAt(k.threads[u]) ensures k.threads[u].at < |k.history| {
      assert Promise(k.threads[u], k.history, k.observers);
    }
  }

  lemma Unpromised(pc: Pc, history: seq<Event>, observers: seq<Observer>)
    ensures !HasAt(pc) ==> Promise(pc, history, observers)
  {
  }

  lemma TransitionPromises(k: Kernel, t: Tid, m: Move)
    requires Locks(k.writer, k.readers, k.threads) && t in k.threads
    requires Promises(k.threads, k.history, k.observers) && AllFulfilled(k.history)
    ensures var n := TransitionStep(k, t, k.threads[t], m); Promises(n.threads, n.history, n.observers) && AllFulfilled(n.history)
  {
    hide TransitionStep, Promise, AllFulfilled, Locks;
    OwnPromise(k, t, m);
    TransitionOthers(k, t, m);
    AtBound(k);
    OthersKept(k, TransitionStep(k, t, k.threads[t], m), t);
  }

  lemma EffectPromises(k: Kernel, t: Tid, m: Move)
    requires t in k.threads && !HasAt(k.threads[t])
    requires Promises(k.threads, k.history, k.observers) && AllFulfilled(k.history)
    ensures var n := EffectStep(k, t, k.threads[t], m); Promises(n.threads, n.history, n.observers) && AllFulfilled(n.history)
  {
    hide EffectStep, Promise, AllFulfilled;
    var n := EffectStep(k, t, k.threads[t], m);
    EffectOthers(k, t, m);
    OthersKept(k, n, t);
    if t in n.threads {
      Unpromised(n.threads[t], n.history, n.observers);
    }
  }

  lemma BeginPromises(k: Kernel, t: Tid, m: Move)
    requires t !in k.threads && Promises(k.threads, k.history, k.observers) && AllFulfilled(k.history)
    ensures var n := Begin(k, t, m); Promises(n.threads, n.history, n.observers) && AllFulfilled(n.history)
  {
    hide Promise, AllFulfilled;
    var n := Begin(k, t, m);
    forall u | u in k.threads ensures Promise(k.threads[u], n.history, n.observers) {
      if m.Register? {
        PromiseWider(k.threads[u], k.history, k.observers, m.observer);
      } else if m.CallEffect? {
        PromiseKept(k.threads[u], k.history, Replied(m.call, None, NotAuthorized, k.trail), k.observers);
      }
    }
    if m.CallEffect? {
      FulfilledGrows(k.history, Replied(m.call, None, NotAuthorized, k.trail));
    }
    if t in n.threads {
      Unpromised(n.threads[t], n.history, n.observers);
    }
  }

  lemma PromisesStep(k: Kernel, t: Tid, m: Move)
    requires Locks(k.writer, k.readers, k.threads)
    requires Promises(k.threads, k.history, k.observers) && AllFulfilled(k.history)
    ensures var n := Step(k, t, m); Promises(n.threads, n.history, n.observers) && AllFulfilled(n.history)
  {
    hide EffectStep, TransitionStep, Begin, Promises, AllFulfilled, Locks;
    if t !in k.threads {
      BeginPromises(k, t, m);
    } else {
      TransitionPromises(k, t, m);
      if !HasAt(k.threads[t]) {
        EffectPromises(k, t, m);
      }
    }
  }
}
