/**
 Kernel interleavings between crashes: one journal, any number of kernels one
 after the other, each running any interleaving of effects and transitions
 until it stops at an arbitrary point and the next one recovers.
 */
module Deployment {
  import opened Bytes
  import opened Capability
  import Journal
  import J = JournalLog
  import SI = StateInvariant
  import S = State
  import A = Audit
  import R = Recovery
  import K = Kernel
  import KI = KernelInvariant
  import KT = KernelTheorems
  import L = Lifetimes

  /** A running kernel beside the journal history it belongs to, or a journal no kernel runs on. */
  datatype Machine = Up(kernel: K.Kernel, world: L.World) | Down(world: L.World)

  /** A move of a kernel thread, or a stop followed by recovery under a fresh capability state. */
  datatype Act = Moves(t: K.Tid, m: K.Move) | Crashes(io: u64 -> J.Io, state: S.State)

  /** What a kernel move does to the journal history. */
  function Shadow(k: K.Kernel, t: K.Tid, m: K.Move): Option<L.Event> {
    if t !in k.threads then None
    else
      match k.threads[t]
      case Reading(call) =>
        if m.Record? then Some(L.Starts(call.caller, call.capability, call.requests, k.state.epoch, m.io)) else None
      case Finishing(_, i, outcome, receipt, evidence) =>
        if m.Persist? then Some(L.Finishes(i, outcome, receipt, evidence, m.io)) else None
      case Storing(_, i, _, _) => if m.Publish? then Some(L.Publishes(i)) else None
      case _ => None
  }

  function Follow(w: L.World, e: Option<L.Event>): L.World {
    if e.None? then w else L.Step(w, e.value)
  }

  function Step(x: Machine, act: Act): Machine {
    match act
    case Moves(t, m) =>
      if x.Down? then x else Up(K.Step(x.kernel, t, m), Follow(x.world, Shadow(x.kernel, t, m)))
    case Crashes(io, state) =>
      var w := L.Step(x.world, L.Restarts(io));
      if w.alive then Up(K.Start(state, w.trail), w) else Down(w)
  }

  function Run(x: Machine, acts: seq<Act>): Machine
    decreases |acts|
  {
    if acts == [] then x else Run(Step(x, acts[0]), acts[1..])
  }

  /** The first kernel on a fresh journal. */
  function First(state: S.State, capacity: nat): Machine {
    Up(K.Start(state, L.First(capacity).trail), L.First(capacity))
  }

  /** Each kernel starts from a capability state that some run of transitions reaches. */
  ghost predicate FreshStates(acts: seq<Act>) {
    forall i :: 0 <= i < |acts| && acts[i].Crashes? ==> SI.Valid(acts[i].state)
  }

  /** The attempts of the running kernel are exactly its own: started in this life. */
  ghost predicate Own(entries: seq<A.Entry>, w: L.World) {
    forall i :: 0 <= i < |entries| ==> entries[i].id in w.birth && w.birth[entries[i].id] == w.life
  }

  ghost predicate Valid(x: Machine) {
    && L.Valid(x.world)
    && (x.Up? ==> KT.Valid(x.kernel) && x.world.alive && x.world.trail == x.kernel.trail && Own(x.kernel.trail.entries, x.world))
    && (x.Down? ==> !x.world.alive)
  }

  // ----- a kernel move follows the journal history -------------------------

  lemma BackendIs(w: L.World)
    requires L.Valid(w)
    ensures w.trail.backend == Some(w.log)
  {
    hide J.Valid, L.InstancesApart, L.OwnInstance, L.DiskOwned, A.Valid;
  }

  lemma KernelParts(k: K.Kernel)
    requires KT.Valid(k)
    ensures KI.Locks(k.writer, k.readers, k.threads) && KI.Attempts(k.trail, k.state.epoch, k.threads)
  {
    hide KI.Locks, KI.Attempts, SI.Valid, KI.Cleared;
  }

  /** A start adds one attempt of this life, or none. */
  lemma StartOwn(w: L.World, call: K.Call, epoch: u64, io: J.Io)
    requires w.alive && w.trail.backend.Some? && A.Valid(w.trail) && Own(w.trail.entries, w)
    ensures var v := L.Step(w, L.Starts(call.caller, call.capability, call.requests, epoch, io));
            && v.alive && Own(v.trail.entries, v)
            && v.trail == A.StartSet(w.trail, call.caller, call.capability, call.requests, epoch, io).0
  {
    hide A.StartSet, A.Valid, A.AttemptsLater;
    A.StartValid(w.trail, call.caller, call.capability, call.requests, epoch, io);
    var (started, r) := A.StartSet(w.trail, call.caller, call.capability, call.requests, epoch, io);
    var v := L.Step(w, L.Starts(call.caller, call.capability, call.requests, epoch, io));
    forall i | 0 <= i < |started.entries| ensures started.entries[i].id in v.birth && v.birth[started.entries[i].id] == v.life {
      if r.Ok? && i < |w.trail.entries| {
        assert started.entries[i] == started.entries[..|w.trail.entries|][i];
      }
    }
  }

  lemma RecordFollows(k: K.Kernel, w: L.World, t: K.Tid, m: K.Move)
    requires w.alive && w.trail == k.trail && w.trail.backend.Some? && A.Valid(k.trail) && Own(k.trail.entries, w)
    requires t in k.threads && k.threads[t].Reading? && m.Record?
    ensures var n, v := K.Step(k, t, m), Follow(w, Shadow(k, t, m));
            v.alive && v.trail == n.trail && Own(n.trail.entries, v)
  {
    hide A.StartSet, A.Valid, K.AuthorizesAll, K.TransitionStep, L.Step, Own;
    StartOwn(w, k.threads[t].call, k.state.epoch, m.io);
  }

  lemma PersistFollows(k: K.Kernel, w: L.World, t: K.Tid, m: K.Move)
    requires w.alive && w.trail == k.trail && w.trail.backend.Some? && A.Valid(k.trail) && Own(k.trail.entries, w)
    requires t in k.threads && k.threads[t].Finishing? && m.Persist? && k.threads[t].i < |k.trail.entries|
    ensures var n, v := K.Step(k, t, m), Follow(w, Shadow(k, t, m));
            v.alive && v.trail == n.trail && Own(n.trail.entries, v)
  {
    hide A.StartSet, A.Valid, K.AuthorizesAll, A.FinishDurably, A.Store, A.AttemptsLater, K.TransitionStep;
    var pc := k.threads[t];
    A.FinishValid(k.trail, pc.i, pc.outcome, pc.receipt, pc.evidence, m.io);
  }

  lemma PublishFollows(k: K.Kernel, w: L.World, t: K.Tid, m: K.Move)
    requires w.alive && w.trail == k.trail && w.trail.backend == Some(w.log) && Own(k.trail.entries, w)
    requires t in k.threads && k.threads[t].Storing? && m.Publish? && KI.Owns(k.trail, k.state.epoch, k.threads[t])
    ensures var n, v := K.Step(k, t, m), Follow(w, Shadow(k, t, m));
            v.alive && v.trail == n.trail && Own(n.trail.entries, v)
  {
    hide A.StartSet, A.FinishDurably, K.AuthorizesAll, K.TransitionStep;
  }

  lemma Unshadowed(k: K.Kernel, t: K.Tid, m: K.Move)
    requires t in k.threads ==> !KI.TouchesTrail(k.threads[t], m)
    ensures Shadow(k, t, m) == None
  {
  }

  lemma Owned(k: K.Kernel, t: K.Tid)
    requires KI.Attempts(k.trail, k.state.epoch, k.threads) && t in k.threads
    ensures A.Valid(k.trail)
    ensures K.HasAttempt(k.threads[t]) ==> KI.Owns(k.trail, k.state.epoch, k.threads[t]) && k.threads[t].i < |k.trail.entries|
  {
    hide A.Valid;
  }

  lemma MoveFollows(k: K.Kernel, w: L.World, t: K.Tid, m: K.Move)
    requires L.Valid(w) && KT.Valid(k) && w.alive && w.trail == k.trail && Own(k.trail.entries, w)
    ensures var n, v := K.Step(k, t, m), Follow(w, Shadow(k, t, m));
            v.alive && v.trail == n.trail && Own(n.trail.entries, v)
  {
    hide K.Step, L.Step, L.Valid, KT.Valid, KI.Locks, A.Valid, Own, KI.Owns, KI.Attempts, Shadow;
    BackendIs(w);
    KernelParts(k);
    if t in k.threads && KI.TouchesTrail(k.threads[t], m) {
      Owned(k, t);
      if k.threads[t].Reading? {
        RecordFollows(k, w, t, m);
      } else if k.threads[t].Finishing? {
        PersistFollows(k, w, t, m);
      } else {
        PublishFollows(k, w, t, m);
      }
    } else {
      Unshadowed(k, t, m);
      KI.OtherStep(k, t, m);
    }
  }

  // ----- a crash -----------------------------------------------------------

  lemma RestartFresh(w: L.World, io: u64 -> J.Io)
    ensures var v := L.Step(w, L.Restarts(io)); v.alive ==> v.trail.entries == []
  {
    hide J.Open, R.CloseStarted, A.NextAttempt, L.Inherit;
  }

  lemma AliveTrail(w: L.World)
    requires L.Valid(w) && w.alive
    ensures A.Valid(w.trail)
  {
    hide J.Valid, L.InstancesApart, L.OwnInstance, L.DiskOwned, A.Valid;
  }

  lemma StepValid(x: Machine, act: Act)
    requires Valid(x) && (act.Crashes? ==> SI.Valid(act.state))
    ensures Valid(Step(x, act)) && A.AttemptsLater(x.world.log.attempts, Step(x, act).world.log.attempts)
  {
    hide L.Valid, KT.Valid, K.Step, L.Step, SI.Valid, A.AttemptsLater, Shadow, A.Valid;
    L.AttemptsLaterReflexive(x.world.log.attempts);
    match act
    case Moves(t, m) =>
      if x.Up? {
        MoveFollows(x.kernel, x.world, t, m);
        KT.StepValid(x.kernel, t, m);
        var e := Shadow(x.kernel, t, m);
        if e.Some? {
          L.StepValid(x.world, e.value);
        }
      }
    case Crashes(io, state) =>
      L.StepValid(x.world, L.Restarts(io));
      RestartFresh(x.world, io);
      var w := L.Step(x.world, L.Restarts(io));
      if w.alive {
        AliveTrail(w);
        KT.StartValid(state, w.trail);
      }
  }

  lemma FirstValid(state: S.State, capacity: nat)
    requires SI.Valid(state) && capacity <= Journal.MAX_JOURNAL_BYTES
    ensures Valid(First(state, capacity))
  {
    hide L.Valid, KT.Valid, SI.Valid, A.Valid;
    L.FirstValid(capacity);
    AliveTrail(L.First(capacity));
    KT.StartValid(state, L.First(capacity).trail);
  }

  /**
   Whatever the kernels do and wherever they stop: the invariants of the
   running kernel and of the journal's whole history hold together, no
   recorded payload changes, and no terminal outcome is undone.
   */
  lemma {:induction false} RunValid(x: Machine, acts: seq<Act>)
    requires Valid(x) && FreshStates(acts)
    ensures Valid(Run(x, acts)) && A.AttemptsLater(x.world.log.attempts, Run(x, acts).world.log.attempts)
    decreases |acts|
  {
    hide Valid, Step, A.AttemptsLater, SI.Valid;
    if acts == [] {
      L.AttemptsLaterReflexive(x.world.log.attempts);
    } else {
      StepValid(x, acts[0]);
      RunValid(Step(x, acts[0]), acts[1..]);
      L.AttemptsLaterTransitive(x.world.log.attempts, Step(x, acts[0]).world.log.attempts, Run(x, acts).world.log.attempts);
    }
  }

  // ----- main results ------------------------------------------------------

  /** Attempts recorded by different kernels never carry the same state instance. */
  lemma KernelsApart(state: S.State, capacity: nat, acts: seq<Act>, a: u64, b: u64)
    requires SI.Valid(state) && capacity <= Journal.MAX_JOURNAL_BYTES && FreshStates(acts)
    requires var w := Run(First(state, capacity), acts).world; a in w.log.attempts && b in w.log.attempts
    ensures var w := Run(First(state, capacity), acts).world;
            && a in w.birth && b in w.birth
            && (w.birth[a] != w.birth[b] ==> L.InstanceOf(w.log.attempts[a]) != L.InstanceOf(w.log.attempts[b]))
  {
    hide J.Valid, L.InstanceOf, A.Valid, L.DiskOwned, L.OwnInstance, SI.Valid, KT.Valid, Run, Own, FreshStates;
    FirstValid(state, capacity);
    RunValid(First(state, capacity), acts);
  }

  /**
   While a kernel runs, each of its attempts carries its own instance and
   nothing it inherited is still `Started`; whatever it inherited carries
   another instance.
   */
  lemma KernelOwnsItsAttempts(state: S.State, capacity: nat, acts: seq<Act>, i: nat, inherited: u64)
    requires SI.Valid(state) && capacity <= Journal.MAX_JOURNAL_BYTES && FreshStates(acts)
    requires var x := Run(First(state, capacity), acts);
             && x.Up? && i < |x.kernel.trail.entries|
             && inherited in x.world.log.attempts && inherited in x.world.birth && x.world.birth[inherited] < x.world.life
    ensures var x := Run(First(state, capacity), acts);
            var id := x.kernel.trail.entries[i].id;
            && id in x.world.log.attempts && L.InstanceOf(x.world.log.attempts[id]) == x.kernel.trail.instance
            && inherited < x.kernel.trail.instance && x.world.log.attempts[inherited].outcome != Journal.Started
            && L.InstanceOf(x.world.log.attempts[inherited]) != x.kernel.trail.instance
  {
    hide J.Valid, L.InstanceOf, A.Valid, L.DiskOwned, SI.Valid, KT.Valid, Run, FreshStates;
    FirstValid(state, capacity);
    RunValid(First(state, capacity), acts);
  }

  /** In any life, an effect that landed did so in a state authorizing its whole request set. */
  lemma CommitsAreAuthorized(state: S.State, capacity: nat, acts: seq<Act>, n: nat)
    requires SI.Valid(state) && capacity <= Journal.MAX_JOURNAL_BYTES && FreshStates(acts)
    requires var x := Run(First(state, capacity), acts); x.Up? && n < |x.kernel.history| && x.kernel.history[n].Landed?
    ensures var e := Run(First(state, capacity), acts).kernel.history[n]; SI.Valid(e.state) && K.AuthorizesAll(e.state, e.call)
  {
    hide L.Valid, SI.Valid, Run, FreshStates, Own, K.AuthorizesAll, KI.Locks, KI.Cleared, KI.Attempts;
    FirstValid(state, capacity);
    RunValid(First(state, capacity), acts);
    assert KT.Sound(Run(First(state, capacity), acts).kernel.history[n]);
  }
}
