/** The mutable capability state object (`state.rs`), proved against `State`. */
module StateObject {
  import opened Bytes
  import opened Capability
  import opened State
  import Spec = State
  import SI = StateInvariant
  import ST = StateTheorems
  import SD = StateDecisions

  /** The identity reached after `k` parent links, if there are that many. */
  function Steps(caps: map<CapId, Capability>, c: CapId, k: nat): Option<CapId>
    decreases k
  {
    if k == 0 then Some(c)
    else match Link(caps, c)
      case None => None
      case Some(p) => Steps(caps, p, k - 1)
  }

  lemma {:induction false} StepsDepth(caps: map<CapId, Capability>, c: CapId, k: nat, m: nat)
    requires Steps(caps, c, k).Some?
    ensures Depth(caps, c, k + m) == k + Depth(caps, Steps(caps, c, k).value, m)
    decreases k
  {
    if k > 0 {
      StepsDepth(caps, Link(caps, c).value, k - 1, m);
    }
  }

  lemma {:induction false} StepsPrefix(caps: map<CapId, Capability>, c: CapId, k: nat, j: nat)
    requires Steps(caps, c, k).Some? && j <= k
    ensures Steps(caps, c, j).Some?
    decreases j
  {
    if j > 0 {
      StepsPrefix(caps, Link(caps, c).value, k - 1, j - 1);
    }
  }

  lemma {:induction false} StepsSnoc(caps: map<CapId, Capability>, c: CapId, k: nat)
    requires Steps(caps, c, k).Some?
    ensures Steps(caps, c, k + 1) == Link(caps, Steps(caps, c, k).value)
    decreases k
  {
    if k > 0 {
      StepsSnoc(caps, Link(caps, c).value, k - 1);
    }
  }

  /** From an identity on a cycle the parent walk never ends. */
  lemma {:induction false} CycleDepth(caps: map<CapId, Capability>, c: CapId, k: nat, n: nat)
    requires k >= 1 && Steps(caps, c, k) == Some(c)
    ensures Depth(caps, c, n) == n
    decreases n
  {
    if n < k {
      StepsPrefix(caps, c, k, n);
      StepsDepth(caps, c, n, 0);
    } else {
      CycleDepth(caps, c, k, n - k);
      StepsDepth(caps, c, k, n - k);
    }
  }

  /** Each visited identity reaches `current` by at least one link. */
  ghost predicate LeadsTo(caps: map<CapId, Capability>, visited: set<CapId>, current: CapId) {
    forall v :: v in visited ==> exists k: nat :: k >= 1 && Steps(caps, v, k) == Some(current)
  }

  lemma LeadsOn(caps: map<CapId, Capability>, visited: set<CapId>, current: CapId)
    requires LeadsTo(caps, visited, current) && Link(caps, current).Some?
    ensures LeadsTo(caps, visited + {current}, Link(caps, current).value)
  {
    var next := Link(caps, current).value;
    forall v | v in visited + {current}
      ensures exists k: nat :: k >= 1 && Steps(caps, v, k) == Some(next)
    {
      if v in visited {
        var k: nat :| k >= 1 && Steps(caps, v, k) == Some(current);
        StepsSnoc(caps, v, k);
        assert Steps(caps, v, k + 1) == Some(next);
      } else {
        assert Steps(caps, v, 1) == Some(next);
      }
    }
  }

  /** `subject_open_handle_count`. */
  function OpenHandleCount(handles: map<HandleId, OpenHandle>, subject: SubjectId): nat {
    |set h | h in handles && handles[h].subject == subject|
  }

  lemma OpenHandleCountZero(s: State, subject: SubjectId)
    ensures OpenHandleCount(s.handles, subject) == 0 <==> !OwnsOpenHandle(s, subject)
  {
    var mine := set h | h in s.handles && s.handles[h].subject == subject;
    if h :| h in s.handles && s.handles[h].subject == subject {
      assert h in mine;
    }
    assert mine == {} <==> !OwnsOpenHandle(s, subject);
  }

  // ----- what every transition of the object keeps -------------------------

  /**
   From a valid state a transition reaches a later valid one and touches only
   what it names. It is rejected exactly when a listed reason holds, with the
   first such reason and nothing changed, and never for want of numbers.
   */
  ghost predicate Stepped(s: State, op: Op, t: State, r: Outcome) {
    && SI.Valid(t) && ST.Later(s, t)
    && SD.Decided(s, op, r) && SD.Touches(s, op, t, r)
    && (r.Rejected? ==> t == s && r.error != AuthorizationEpochExhausted && r.error != CapabilityIdExhausted)
  }

  lemma Transition(s: State, op: Op)
    requires SI.Valid(s)
    ensures SI.Valid(Apply(s, op).0) && Stepped(s, op, Apply(s, op).0, Apply(s, op).1)
  {
    hide SI.Valid, ST.Later, Apply, SD.Decided, SD.Touches;
    SI.ApplyValid(s, op);
    ST.ApplyLater(s, op);
    SD.Decisions(s, op);
    SD.Footprint(s, op);
    if Apply(s, op).1.Rejected? {
      ST.RejectedUnchanged(s, op);
    }
  }

  /** Neither `c` nor anything derived from it authorizes any request of anyone. */
  ghost predicate Silenced(s: State, c: CapId) {
    forall caller, d, r, ch :: RootChain(s.caps, d, ch) && c in ch ==> !Authorizes(s, caller, d, r)
  }

  lemma RevokedSilenced(s: State)
    requires SI.Valid(s)
    ensures forall c :: c in s.revoked ==> Silenced(s, c)
  {
    hide SI.Valid, Authorizes;
    forall c, caller, d, r, ch | c in s.revoked && RootChain(s.caps, d, ch) && c in ch ensures !Authorizes(s, caller, d, r) {
      ST.RevokedChainInert(s, c, caller, d, r, ch);
    }
  }

  lemma StoppedSilenced(s: State, x: SubjectId)
    requires SI.Valid(s) && x in s.statuses && !s.statuses[x].Running?
    ensures x in s.held && forall c :: c in s.held[x] ==> Silenced(s, c)
  {
    assert x in s.held && s.held[x] <= s.revoked by {
      hide SI.Ids, SI.Holders, SI.Forest, SI.Narrowing, SI.Envelopes, SI.Handles;
    }
    hide SI.Valid, Silenced;
    RevokedSilenced(s);
  }

  lemma NeverOutOfEpochs(s: State)
    requires SI.Valid(s)
    ensures CheckedNext(s.epoch).Some?
  {
    hide SI.Valid;
    SI.EpochBound(s);
  }

  lemma ClosedOwnsNothing(s: State, x: SubjectId)
    requires SI.Valid(s)
    ensures x in s.statuses && s.statuses[x].Closed? ==> !OwnsOpenHandle(s, x)
  {
    hide SI.Valid;
    if x in s.statuses && s.statuses[x].Closed? {
      ST.ClosedOwnsNothing(s, x);
    }
  }

  /** `id` is held as the grant says, inside the envelope of a running subject. */
  ghost predicate Granted(s: State, t: State, id: CapId, g: Grant, parent: Option<CapId>) {
    && id in t.caps && t.caps[id] == Capability(id, g.subject, s.issuer, parent, g.delegable, g.validity, g.authority)
    && IsHeldBy(t, g.subject, id) && IsRunning(s, g.subject)
    && g.subject in s.subjects && EnvelopeContains(s.subjects[g.subject].envelope, g.validity, g.authority)
  }

  /** What an issuing transition promises about the capability it reports. */
  lemma RootGranted(s: State, op: Op)
    requires SI.Valid(s) && ST.GrantOf(op).Some?
    ensures var (t, r) := Apply(s, op);
            r.Issued? ==>
              && r.id !in s.caps && Granted(s, t, r.id, ST.GrantOf(op).value, if op.OpDerive? then Some(op.p) else None)
              && (op.OpDerive? ==>
                    && op.p in s.caps && WeakerThan(t.caps[r.id], s.caps[op.p]) && s.caps[op.p].delegable
                    && IsHeldBy(s, op.caller, op.p) && Active(s, op.p, op.now))
  {
    var (t, r) := Apply(s, op);
    if r.Issued? {
      IssuedIsNew(s, op);
      hide Apply, SI.Valid, WeakerThan, EnvelopeContains, Active;
      ST.NewCapability(s, op, r.id);
    }
  }

  lemma IssueIsNew(s: State, g: Grant, parent: Option<CapId>)
    requires SI.Valid(s) && Issue(s, g, parent).1.Issued?
    ensures var (t, r) := Issue(s, g, parent); r.id !in s.caps && r.id in t.caps && IsHeldBy(t, g.subject, r.id)
  {
    hide SI.Subjects, SI.Holders, SI.Forest, SI.Narrowing, SI.Envelopes, SI.Lifecycle, SI.Handles, SeqId;
    SI.ProbeFinds(s.issuer, s.issued, s.cursor.value);
  }

  lemma AllIssued(s: State, c: CapId)
    requires SI.Valid(s)
    ensures c in s.issued <==> c in s.caps
  {
    hide SI.Subjects, SI.Holders, SI.Forest, SI.Narrowing, SI.Envelopes, SI.Lifecycle, SI.Handles;
  }

  /** `r` reports a capability that is new, present and held by `subject`. */
  ghost predicate NewlyHeld(s: State, r: (State, Outcome), subject: SubjectId) {
    r.1.Issued? ==> r.1.id !in s.caps && r.1.id in r.0.caps && IsHeldBy(r.0, subject, r.1.id)
  }

  lemma Inserted(s: State, g: Grant, parent: Option<CapId>, id: CapId)
    requires id !in s.caps
    ensures NewlyHeld(s, IssueWithId(s, g, parent, id), g.subject)
  {
  }

  lemma NewRoot(s: State, g: Grant)
    requires SI.Valid(s)
    ensures NewlyHeld(s, Spec.IssueRoot(s, g), g.subject)
  {
    hide SI.Valid, ValidateEnvelope, Issue;
    if Issue(s, g, None).1.Issued? {
      IssueIsNew(s, g, None);
    }
  }

  lemma NewNamedRoot(s: State, id: CapId, g: Grant)
    requires SI.Valid(s)
    ensures NewlyHeld(s, Spec.IssueRootWithId(s, id, g), g.subject)
  {
    hide SI.Valid, ValidateEnvelope, IssueWithId;
    AllIssued(s, id);
    if id !in s.caps {
      Inserted(s, g, None, id);
    }
  }

  lemma NewChild(s: State, caller: SubjectId, p: CapId, g: Grant, now: u64)
    requires SI.Valid(s)
    ensures NewlyHeld(s, Spec.Derive(s, caller, p, g, now), g.subject)
  {
    hide SI.Valid, ValidateEnvelope, ParentFault, Issue;
    if Issue(s, g, Some(p)).1.Issued? {
      IssueIsNew(s, g, Some(p));
    }
  }

  lemma IssuedIsNew(s: State, op: Op)
    requires SI.Valid(s) && ST.GrantOf(op).Some?
    ensures NewlyHeld(s, Apply(s, op), ST.GrantOf(op).value.subject)
  {
    hide SI.Valid, Spec.IssueRoot, Spec.IssueRootWithId, Spec.Derive, NewlyHeld;
    match op
    case OpIssueRoot(g) => NewRoot(s, g);
    case OpIssueRootWithId(id, g) => NewNamedRoot(s, id, g);
    case OpDerive(caller, p, g, now) => NewChild(s, caller, p, g, now);
  }

  class CapabilityState {
    const issuer: IssuerId
    var cursor: Option<u64>
    var subjects: map<SubjectId, Subject>
    var statuses: map<SubjectId, Status>
    var caps: map<CapId, Capability>
    var held: map<SubjectId, set<CapId>>
    var revoked: set<CapId>
    var issued: set<CapId>
    var epoch: u64
    var handles: map<HandleId, OpenHandle>
    var owners: map<HandleId, SubjectId>

    function Value(): State
      reads this
    {
      State(issuer, cursor, subjects, statuses, caps, held, revoked, issued, epoch, handles, owners)
    }

    ghost predicate Valid()
      reads this
    {
      SI.Valid(Value())
    }

    constructor (issuer: IssuerId)
      ensures Value() == New(issuer) && Valid()
    {
      SI.NewValid(issuer);
      this.issuer := issuer;
      cursor := Some(0);
      subjects, statuses, caps, held := map[], map[], map[], map[];
      revoked, issued, epoch := {}, {}, 0;
      handles, owners := map[], map[];
    }

    /** `is_effectively_active`: ends on any map, and accepts exactly what `Walk` does. */
    method IsEffectivelyActive(capability: CapId, now: u64) returns (r: bool)
      ensures r == Active(Value(), capability, now)
    {
      var current := Some(capability);
      var visited: set<CapId> := {};
      while current.Some?
        invariant Active(Value(), capability, now) ==
                  (current.Some? ==> Walk(caps, revoked, now, current.value, visited))
        decreases caps.Keys - visited
      {
        var id := current.value;
        if id in visited || id !in caps {
          return false;
        }
        if id in revoked || !InWindow(caps[id].validity, now) {
          return false;
        }
        visited := visited + {id};
        current := caps[id].parent;
      }
      r := true;
    }

    /** `delegation_depth`: counts the parent walk, reporting 65 on a cycle or a longer chain. */
    method DelegationDepth(capability: CapId) returns (d: nat)
      ensures d == Depth(caps, capability, MAX_DELEGATION_DEPTH + 1)
    {
      var current := Some(capability);
      var visited: set<CapId> := {};
      d := 0;
      while current.Some?
        invariant d <= MAX_DELEGATION_DEPTH
        invariant Depth(caps, capability, MAX_DELEGATION_DEPTH + 1) ==
                  d + (if current.Some? then Depth(caps, current.value, MAX_DELEGATION_DEPTH + 1 - d) else 0)
        invariant current.Some? ==> LeadsTo(caps, visited, current.value)
        decreases MAX_DELEGATION_DEPTH - d, current.Some?
      {
        var id := current.value;
        if id in visited {
          ghost var k: nat :| k >= 1 && Steps(caps, id, k) == Some(id);
          CycleDepth(caps, id, k, MAX_DELEGATION_DEPTH + 1 - d);
          return MAX_DELEGATION_DEPTH + 1;
        }
        if Link(caps, id).Some? {
          LeadsOn(caps, visited, id);
        }
        visited := visited + {id};
        d := d + 1;
        if d > MAX_DELEGATION_DEPTH {
          return;
        }
        current := Link(caps, id);
      }
    }

    /** `allocate_capability_id`: probes forward from the cursor. */
    method AllocateCapabilityId() returns (r: Option<CapId>)
      modifies this`cursor
      ensures old(cursor).None? ==> r.None? && cursor.None?
      ensures old(cursor).Some? ==>
                match Probe(issuer, issued, old(cursor).value)
                case None => r.None? && cursor.None?
                case Some(n) => r == Some(SeqId(issuer, n)) && cursor == CheckedNext(n)
    {
      if cursor.None? {
        return None;
      }
      var sequence := cursor.value;
      while true
        invariant Probe(issuer, issued, old(cursor).value) == Probe(issuer, issued, sequence)
        decreases U64_COUNT - sequence
      {
        var next := CheckedNext(sequence);
        var id := SeqId(issuer, sequence);
        if id !in issued {
          cursor := next;
          return Some(id);
        }
        if next.Some? {
          sequence := next.value;
        } else {
          cursor := None;
          return None;
        }
      }
    }

    method InsertCapability(g: Grant, parent: Option<CapId>, id: CapId)
      modifies this`issued, this`held, this`caps
      ensures Value() == IssueWithId(old(Value()), g, parent, id).0
    {
      var c := Capability(id, g.subject, issuer, parent, g.delegable, g.validity, g.authority);
      issued := issued + {id};
      var mine := if g.subject in held then held[g.subject] else {};
      held := held[g.subject := mine + {id}];
      caps := caps[id := c];
    }

    method IssueCapability(g: Grant, parent: Option<CapId>) returns (r: Outcome)
      modifies this`cursor, this`issued, this`held, this`caps
      ensures (Value(), r) == Issue(old(Value()), g, parent)
    {
      if |issued| >= MAX_CAPABILITIES {
        return Rejected(CapabilityCountExceeded);
      }
      var id := AllocateCapabilityId();
      if id.None? {
        return Rejected(CapabilityIdExhausted);
      }
      InsertCapability(g, parent, id.value);
      r := Issued(id.value);
    }

    /** The checks of a registration, in source order. */
    method CheckSubject(x: Subject) returns (fault: Option<StateError>)
      ensures fault.Some? ==> Spec.RegisterSubject(Value(), x) == (Value(), Rejected(fault.value))
      ensures fault.None? ==> x.id !in subjects && Spec.RegisterSubject(Value(), x).1 == Registered
    {
      if x.id in subjects {
        return Some(DuplicateSubject(x.id));
      }
      if x.parent.Some? && x.parent.value !in subjects {
        return Some(UnknownParentSubject(x.parent.value));
      }
      if x.parent.Some? {
        var e := EnsureRunning(Value(), x.parent.value);
        if e.Some? {
          return e;
        }
      }
      if |subjects| >= MAX_SUBJECTS {
        return Some(SubjectCountExceeded);
      }
      fault := None;
    }

    /** A registered subject is new, runs and holds nothing. */
    method RegisterSubject(x: Subject) returns (r: Outcome)
      requires Valid()
      modifies this`held, this`statuses, this`subjects
      ensures (Value(), r) == Spec.RegisterSubject(old(Value()), x)
      ensures Valid() && Stepped(old(Value()), OpRegister(x), Value(), r)
      ensures r.Registered? ==>
                && x.id !in old(subjects) && x.id in subjects && subjects[x.id] == x && IsRunning(Value(), x.id)
                && x.id in held && held[x.id] == {}
      ensures !r.Registered? ==> r.Rejected?
    {
      hide SI.Valid, Stepped;
      Transition(Value(), OpRegister(x));
      var fault := CheckSubject(x);
      if fault.Some? {
        return Rejected(fault.value);
      }
      held := held[x.id := {}];
      statuses := statuses[x.id := Running];
      subjects := subjects[x.id := x];
      r := Registered;
    }

    /** A root capability is new, exactly as granted, and inside its subject's envelope. */
    method IssueRoot(g: Grant) returns (r: Outcome)
      requires Valid()
      modifies this`cursor, this`issued, this`held, this`caps
      ensures (Value(), r) == Spec.IssueRoot(old(Value()), g)
      ensures Valid() && Stepped(old(Value()), OpIssueRoot(g), Value(), r)
      ensures r.Issued? ==> r.id !in old(caps) && Granted(old(Value()), Value(), r.id, g, None)
    {
      hide SI.Valid, Stepped, Issue;
      Transition(Value(), OpIssueRoot(g));
      RootGranted(Value(), OpIssueRoot(g));
      var e := ValidateEnvelope(Value(), g);
      if e.Some? {
        return Rejected(e.value);
      }
      r := IssueCapability(g, None);
    }

    method IssueRootWithId(id: CapId, g: Grant) returns (r: Outcome)
      requires Valid()
      modifies this`issued, this`held, this`caps
      ensures (Value(), r) == Spec.IssueRootWithId(old(Value()), id, g)
      ensures Valid() && Stepped(old(Value()), OpIssueRootWithId(id, g), Value(), r)
      ensures r.Issued? ==> r.id == id && id !in old(caps) && Granted(old(Value()), Value(), id, g, None)
    {
      hide SI.Valid, Stepped;
      Transition(Value(), OpIssueRootWithId(id, g));
      RootGranted(Value(), OpIssueRootWithId(id, g));
      var e := ValidateEnvelope(Value(), g);
      if e.Some? {
        return Rejected(e.value);
      }
      if id == [] {
        return Rejected(InvalidCapabilityId(id));
      }
      if id in issued {
        return Rejected(CapabilityIdAlreadyIssued(id));
      }
      if |issued| >= MAX_CAPABILITIES {
        return Rejected(CapabilityCountExceeded);
      }
      InsertCapability(g, None, id);
      r := Issued(id);
    }

    method CheckParent(caller: SubjectId, p: CapId, g: Grant, now: u64) returns (r: Option<StateError>)
      ensures r == ParentFault(Value(), caller, p, g, now)
    {
      var e := EnsureRunning(Value(), caller);
      if e.Some? {
        return e;
      }
      if p !in caps {
        return Some(UnknownCapability(p));
      }
      var parent := caps[p];
      if parent.subject != caller || !IsHeldBy(Value(), caller, p) {
        return Some(ParentNotHeld(caller, p));
      }
      var active := IsEffectivelyActive(p, now);
      if !active {
        return Some(ParentChainInactive(p));
      }
      if !parent.delegable {
        return Some(ParentNotDelegable(p));
      }
      if !WindowSubset(g.validity, parent.validity) || !AuthorityBelow(g.authority, parent.authority) {
        return Some(GrantExceedsParent(p));
      }
      var depth := DelegationDepth(p);
      if depth >= MAX_DELEGATION_DEPTH {
        return Some(DelegationDepthExceeded(p));
      }
      r := None;
    }

    /** A derived capability is new and no stronger than a delegable, active parent its running caller holds. */
    method Derive(caller: SubjectId, p: CapId, g: Grant, now: u64) returns (r: Outcome)
      requires Valid()
      modifies this`cursor, this`issued, this`held, this`caps
      ensures (Value(), r) == Spec.Derive(old(Value()), caller, p, g, now)
      ensures Valid() && Stepped(old(Value()), OpDerive(caller, p, g, now), Value(), r)
      ensures r.Issued? ==>
                && r.id !in old(caps) && Granted(old(Value()), Value(), r.id, g, Some(p))
                && p in old(caps) && WeakerThan(caps[r.id], old(caps)[p]) && old(caps)[p].delegable
                && IsHeldBy(old(Value()), caller, p) && Active(old(Value()), p, now)
    {
      hide SI.Valid, Stepped, Issue, ParentFault, Active;
      Transition(Value(), OpDerive(caller, p, g, now));
      RootGranted(Value(), OpDerive(caller, p, g, now));
      var fault := CheckParent(caller, p, g, now);
      if fault.Some? {
        return Rejected(fault.value);
      }
      var e := ValidateEnvelope(Value(), g);
      if e.Some? {
        return Rejected(e.value);
      }
      r := IssueCapability(g, Some(p));
    }

    /** Unless it is rejected, nothing derived from the capability authorizes afterwards. */
    method RevokeHeldBy(caller: SubjectId, c: CapId) returns (r: Outcome)
      requires Valid()
      modifies this`revoked, this`epoch
      ensures (Value(), r) == Spec.RevokeHeldBy(old(Value()), caller, c)
      ensures Valid() && Stepped(old(Value()), OpRevokeHeldBy(caller, c), Value(), r)
      ensures !r.Rejected? <==> c in caps && IsHeldBy(Value(), caller, c)
      ensures !r.Rejected? ==> revoked == old(revoked) + {c} && Silenced(Value(), c)
    {
      hide SI.Valid, Stepped, Silenced;
      Transition(Value(), OpRevokeHeldBy(caller, c));
      NeverOutOfEpochs(Value());
      RevokedSilenced(Spec.RevokeHeldBy(Value(), caller, c).0);
      if c !in caps {
        return Rejected(UnknownCapability(c));
      }
      if !IsHeldBy(Value(), caller, c) {
        return Rejected(CapabilityNotHeld(caller, c));
      }
      if c in revoked {
        return AlreadyRevoked;
      }
      var next := CheckedNext(epoch);
      if next.None? {
        return Rejected(AuthorizationEpochExhausted);
      }
      revoked := revoked + {c};
      epoch := next.value;
      r := NewlyRevoked;
    }

    /** A known subject is stopped afterwards, and nothing it held or passed on authorizes. */
    method BeginSubjectClose(x: SubjectId) returns (r: Outcome)
      requires Valid()
      modifies this`revoked, this`statuses, this`epoch
      ensures (Value(), r) == BeginClose(old(Value()), x)
      ensures Valid() && Stepped(old(Value()), OpBeginClose(x), Value(), r)
      ensures r.Rejected? <==> x !in statuses
      ensures x in statuses ==> !IsRunning(Value(), x) && x in held && forall c :: c in held[x] ==> Silenced(Value(), c)
    {
      hide SI.Valid, Stepped, Silenced;
      Transition(Value(), OpBeginClose(x));
      NeverOutOfEpochs(Value());
      if x in statuses {
        StoppedSilenced(BeginClose(Value(), x).0, x);
      }
      if x !in statuses {
        return Rejected(UnknownSubject(x));
      }
      if statuses[x].Closing? {
        return AlreadyClosing;
      }
      if statuses[x].Closed? {
        return AlreadyClosed;
      }
      var next := CheckedNext(epoch);
      if next.None? {
        return Rejected(AuthorizationEpochExhausted);
      }
      if x in held {
        revoked := revoked + held[x];
      }
      assert revoked == old(revoked) + (if x in held then held[x] else {});
      statuses := statuses[x := Closing];
      epoch := next.value;
      r := CloseStarted;
    }

    /** A subject is closed only from closing and only without open handles. */
    method FinishSubjectClose(x: SubjectId) returns (r: Outcome)
      requires Valid()
      modifies this`statuses
      ensures (Value(), r) == FinishClose(old(Value()), x)
      ensures Valid() && Stepped(old(Value()), OpFinishClose(x), Value(), r)
      ensures !r.Rejected? ==> x in statuses && statuses[x].Closed? && !OwnsOpenHandle(Value(), x)
    {
      hide SI.Valid, Stepped;
      Transition(Value(), OpFinishClose(x));
      ClosedOwnsNothing(Value(), x);
      if x !in statuses {
        return Rejected(UnknownSubject(x));
      }
      match statuses[x]
      case Running => r := Rejected(SubjectNotClosing(x));
      case Closed => r := AlreadyClosed;
      case Closing =>
        OpenHandleCountZero(Value(), x);
        if OpenHandleCount(handles, x) != 0 {
          return Rejected(SubjectHasOpenHandles(x));
        }
        statuses := statuses[x := Closed];
        r := CloseFinished;
    }

    /** An opened handle has a new identity and a running owner. */
    method RegisterOpenHandle(h: OpenHandle) returns (r: Outcome)
      requires Valid()
      modifies this`owners, this`handles
      ensures (Value(), r) == RegisterHandle(old(Value()), h)
      ensures Valid() && Stepped(old(Value()), OpOpenHandle(h), Value(), r)
      ensures !r.Rejected? ==>
                h.id !in old(owners) && h.id in handles && handles[h.id] == h && owners[h.id] == h.subject && IsRunning(Value(), h.subject)
    {
      hide SI.Valid, Stepped;
      Transition(Value(), OpOpenHandle(h));
      var e := EnsureRunning(Value(), h.subject);
      if e.Some? {
        return Rejected(e.value);
      }
      if h.id in owners {
        return Rejected(HandleIdAlreadyIssued(h.id));
      }
      if |owners| >= MAX_HANDLES {
        return Rejected(HandleCountExceeded);
      }
      owners := owners[h.id := h.subject];
      handles := handles[h.id := h];
      r := HandleOpened;
    }

    /** Only its owner closes a handle, once; the identity stays taken and no other handle is touched. */
    method CloseHandle(caller: SubjectId, h: HandleId) returns (r: Outcome)
      requires Valid()
      modifies this`handles
      ensures (Value(), r) == Spec.CloseHandle(old(Value()), caller, h)
      ensures Valid() && Stepped(old(Value()), OpCloseHandle(caller, h), Value(), r)
      ensures !r.Rejected? <==> h in owners && owners[h] == caller
      ensures !r.Rejected? ==> handles == old(handles) - {h} && (r.HandleClosed? <==> h in old(handles))
    {
      hide SI.Valid, Stepped;
      Transition(Value(), OpCloseHandle(caller, h));
      if h !in owners {
        return Rejected(UnknownHandle(h));
      }
      if owners[h] != caller {
        return Rejected(HandleNotOwned(caller, h));
      }
      if h in handles {
        handles := handles - {h};
        return HandleClosed;
      }
      r := HandleAlreadyClosed;
    }

    /** `authorizes`: the check made before every effect. */
    method CheckAuthorizes(caller: SubjectId, c: CapId, request: CapabilityRequest) returns (r: bool)
      ensures r == Authorizes(Value(), caller, c, request)
    {
      if !IsRunning(Value(), caller) || c !in caps {
        return false;
      }
      if caps[c].subject != caller || !IsHeldBy(Value(), caller, c) {
        return false;
      }
      var active := IsEffectivelyActive(c, request.time);
      r := active && CapabilityMatches(caps[c], request);
    }
  }
}
