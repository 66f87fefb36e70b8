/**
 The sequential capability state (`state.rs`): its transitions as functions
 on values, and the meaning of its two ancestor walks.
 */
module State {
  import opened Bytes
  import opened Capability

  const MAX_SUBJECTS := 1_048_576
  const MAX_CAPABILITIES := 1_048_576
  const MAX_HANDLES := 1_048_576
  const MAX_DELEGATION_DEPTH := 64

  type HandleId = Str

  /** The immutable authority ceiling of one subject. */
  datatype Envelope = Envelope(validity: TimeWindow, authority: AuthorityBody)

  predicate EnvelopeContains(e: Envelope, validity: TimeWindow, authority: AuthorityBody) {
    WindowSubset(validity, e.validity) && AuthorityBelow(authority, e.authority)
  }

  datatype Subject = Subject(id: SubjectId, parent: Option<SubjectId>, envelope: Envelope)
  datatype Status = Running | Closing | Closed
  datatype Grant = Grant(subject: SubjectId, validity: TimeWindow, authority: AuthorityBody, delegable: bool)
  datatype OpenHandle = OpenHandle(id: HandleId, subject: SubjectId, object: Str)

  datatype StateError =
    | DuplicateSubject(subject: SubjectId)
    | SubjectCountExceeded
    | UnknownParentSubject(subject: SubjectId)
    | UnknownSubject(subject: SubjectId)
    | SubjectNotRunning(subject: SubjectId)
    | SubjectNotClosing(subject: SubjectId)
    | SubjectHasOpenHandles(subject: SubjectId)
    | HandleIdAlreadyIssued(handle: HandleId)
    | HandleCountExceeded
    | UnknownHandle(handle: HandleId)
    | HandleNotOwned(caller: SubjectId, handle: HandleId)
    | UnknownCapability(capability: CapId)
    | CapabilityNotHeld(caller: SubjectId, capability: CapId)
    | InvalidCapabilityId(capability: CapId)
    | CapabilityIdAlreadyIssued(capability: CapId)
    | ParentNotHeld(caller: SubjectId, parent: CapId)
    | ParentChainInactive(parent: CapId)
    | ParentNotDelegable(parent: CapId)
    | DelegationDepthExceeded(parent: CapId)
    | GrantExceedsParent(parent: CapId)
    | GrantExceedsEnvelope(subject: SubjectId)
    | CapabilityIdExhausted
    | CapabilityCountExceeded
    | AuthorizationEpochExhausted

  datatype Outcome =
    | Registered
    | Issued(id: CapId)
    | NewlyRevoked
    | AlreadyRevoked
    | CloseStarted
    | AlreadyClosing
    | AlreadyClosed
    | CloseFinished
    | HandleOpened
    | HandleClosed
    | HandleAlreadyClosed
    | Rejected(error: StateError)

  datatype State = State(
    issuer: IssuerId,
    cursor: Option<u64>,
    subjects: map<SubjectId, Subject>,
    statuses: map<SubjectId, Status>,
    caps: map<CapId, Capability>,
    held: map<SubjectId, set<CapId>>,
    revoked: set<CapId>,
    issued: set<CapId>,
    epoch: u64,
    handles: map<HandleId, OpenHandle>,
    owners: map<HandleId, SubjectId>)

  function New(issuer: IssuerId): State {
    State(issuer, Some(0), map[], map[], map[], map[], {}, {}, 0, map[], map[])
  }

  predicate IsRunning(s: State, subject: SubjectId) {
    subject in s.statuses && s.statuses[subject].Running?
  }

  predicate IsHeldBy(s: State, subject: SubjectId, c: CapId) {
    subject in s.held && c in s.held[subject]
  }

  // ----- capability identities ---------------------------------------------

  function Decimal(n: nat): Str {
    if n < 10 then ['0' as int + n] else Decimal(n / 10) + ['0' as int + n % 10]
  }

  /** The sequential identity `issuer:n`. */
  function SeqId(issuer: IssuerId, n: nat): CapId {
    issuer + [':' as int] + Decimal(n)
  }

  /** The first unissued sequence number at or after `n`, if the `u64` range holds one. */
  function Probe(issuer: IssuerId, issued: set<CapId>, n: u64): Option<u64>
    decreases U64_COUNT - n
  {
    if SeqId(issuer, n) !in issued then Some(n)
    else if n + 1 == U64_COUNT then None
    else Probe(issuer, issued, n + 1)
  }

  // ----- ancestor walks ----------------------------------------------------

  predicate Live(caps: map<CapId, Capability>, revoked: set<CapId>, now: u64, c: CapId) {
    c in caps && c !in revoked && InWindow(caps[c].validity, now)
  }

  /** `is_effectively_active`: a walk to the root that stops on any repeat. */
  predicate Walk(caps: map<CapId, Capability>, revoked: set<CapId>, now: u64, c: CapId, visited: set<CapId>)
    decreases caps.Keys - visited
  {
    && c !in visited
    && Live(caps, revoked, now, c)
    && match caps[c].parent
       case None => true
       case Some(p) => Walk(caps, revoked, now, p, visited + {c})
  }

  predicate Active(s: State, c: CapId, now: u64) {
    Walk(s.caps, s.revoked, now, c, {})
  }

  function Link(caps: map<CapId, Capability>, c: CapId): Option<CapId> {
    if c in caps then caps[c].parent else None
  }

  /** Nodes on the parent walk from `c`, counted up to `limit`. */
  function Depth(caps: map<CapId, Capability>, c: CapId, limit: nat): (d: nat)
    ensures d <= limit
    decreases limit
  {
    if limit == 0 then 0
    else match Link(caps, c)
      case None => 1
      case Some(p) => 1 + Depth(caps, p, limit - 1)
  }

  // ----- queries -----------------------------------------------------------

  predicate ActiveCapability(s: State, caller: SubjectId, c: CapId, now: u64) {
    && IsRunning(s, caller)
    && c in s.caps
    && s.caps[c].subject == caller
    && IsHeldBy(s, caller, c)
    && Active(s, c, now)
  }

  predicate Authorizes(s: State, caller: SubjectId, c: CapId, r: CapabilityRequest) {
    ActiveCapability(s, caller, c, r.time) && CapabilityMatches(s.caps[c], r)
  }

  // ----- transitions -------------------------------------------------------

  function EnsureRunning(s: State, subject: SubjectId): Option<StateError> {
    if subject !in s.statuses then Some(UnknownSubject(subject))
    else if s.statuses[subject].Running? then None
    else Some(SubjectNotRunning(subject))
  }

  function ValidateEnvelope(s: State, g: Grant): Option<StateError> {
    var running := EnsureRunning(s, g.subject);
    if running.Some? then running
    else if g.subject !in s.subjects then Some(UnknownSubject(g.subject))
    else if EnvelopeContains(s.subjects[g.subject].envelope, g.validity, g.authority) then None
    else Some(GrantExceedsEnvelope(g.subject))
  }

  function RegisterSubject(s: State, x: Subject): (State, Outcome) {
    if x.id in s.subjects then (s, Rejected(DuplicateSubject(x.id)))
    else if x.parent.Some? && x.parent.value !in s.subjects then (s, Rejected(UnknownParentSubject(x.parent.value)))
    else if x.parent.Some? && EnsureRunning(s, x.parent.value).Some? then (s, Rejected(EnsureRunning(s, x.parent.value).value))
    else if |s.subjects| >= MAX_SUBJECTS then (s, Rejected(SubjectCountExceeded))
    else
      (s.(held := s.held[x.id := {}], statuses := s.statuses[x.id := Running], subjects := s.subjects[x.id := x]), Registered)
  }

  function RegisterHandle(s: State, h: OpenHandle): (State, Outcome) {
    if EnsureRunning(s, h.subject).Some? then (s, Rejected(EnsureRunning(s, h.subject).value))
    else if h.id in s.owners then (s, Rejected(HandleIdAlreadyIssued(h.id)))
    else if |s.owners| >= MAX_HANDLES then (s, Rejected(HandleCountExceeded))
    else (s.(owners := s.owners[h.id := h.subject], handles := s.handles[h.id := h]), HandleOpened)
  }

  function CloseHandle(s: State, caller: SubjectId, h: HandleId): (State, Outcome) {
    if h !in s.owners then (s, Rejected(UnknownHandle(h)))
    else if s.owners[h] != caller then (s, Rejected(HandleNotOwned(caller, h)))
    else if h in s.handles then (s.(handles := s.handles - {h}), HandleClosed)
    else (s, HandleAlreadyClosed)
  }

  /** `issue_with_id`: the checks are done, the identity is chosen. */
  function IssueWithId(s: State, g: Grant, parent: Option<CapId>, id: CapId): (State, Outcome) {
    var c := Capability(id, g.subject, s.issuer, parent, g.delegable, g.validity, g.authority);
    var mine := if g.subject in s.held then s.held[g.subject] else {};
    (s.(issued := s.issued + {id}, held := s.held[g.subject := mine + {id}], caps := s.caps[id := c]), Issued(id))
  }

  function Issue(s: State, g: Grant, parent: Option<CapId>): (State, Outcome) {
    if |s.issued| >= MAX_CAPABILITIES then (s, Rejected(CapabilityCountExceeded))
    else if s.cursor.None? then (s, Rejected(CapabilityIdExhausted))
    else match Probe(s.issuer, s.issued, s.cursor.value)
      case None => (s.(cursor := None), Rejected(CapabilityIdExhausted))
      case Some(n) => IssueWithId(s.(cursor := CheckedNext(n)), g, parent, SeqId(s.issuer, n))
  }

  function IssueRoot(s: State, g: Grant): (State, Outcome) {
    if ValidateEnvelope(s, g).Some? then (s, Rejected(ValidateEnvelope(s, g).value)) else Issue(s, g, None)
  }

  function IssueRootWithId(s: State, id: CapId, g: Grant): (State, Outcome) {
    if ValidateEnvelope(s, g).Some? then (s, Rejected(ValidateEnvelope(s, g).value))
    else if id == [] then (s, Rejected(InvalidCapabilityId(id)))
    else if id in s.issued then (s, Rejected(CapabilityIdAlreadyIssued(id)))
    else if |s.issued| >= MAX_CAPABILITIES then (s, Rejected(CapabilityCountExceeded))
    else IssueWithId(s, g, None, id)
  }

  /** The checks `derive` makes on the parent capability, in source order. */
  function ParentFault(s: State, caller: SubjectId, p: CapId, g: Grant, now: u64): Option<StateError> {
    if EnsureRunning(s, caller).Some? then EnsureRunning(s, caller)
    else if p !in s.caps then Some(UnknownCapability(p))
    else if s.caps[p].subject != caller || !IsHeldBy(s, caller, p) then Some(ParentNotHeld(caller, p))
    else if !Active(s, p, now) then Some(ParentChainInactive(p))
    else if !s.caps[p].delegable then Some(ParentNotDelegable(p))
    else if !WindowSubset(g.validity, s.caps[p].validity) || !AuthorityBelow(g.authority, s.caps[p].authority)
    then Some(GrantExceedsParent(p))
    else if Depth(s.caps, p, MAX_DELEGATION_DEPTH + 1) >= MAX_DELEGATION_DEPTH then Some(DelegationDepthExceeded(p))
    else None
  }

  function Derive(s: State, caller: SubjectId, p: CapId, g: Grant, now: u64): (State, Outcome) {
    if ParentFault(s, caller, p, g, now).Some? then (s, Rejected(ParentFault(s, caller, p, g, now).value))
    else if ValidateEnvelope(s, g).Some? then (s, Rejected(ValidateEnvelope(s, g).value))
    else Issue(s, g, Some(p))
  }

  function RevokeExisting(s: State, c: CapId): (State, Outcome) {
    if c in s.revoked then (s, AlreadyRevoked)
    else match CheckedNext(s.epoch)
      case None => (s, Rejected(AuthorizationEpochExhausted))
      case Some(e) => (s.(revoked := s.revoked + {c}, epoch := e), NewlyRevoked)
  }

  function Revoke(s: State, c: CapId): (State, Outcome) {
    if c !in s.caps then (s, Rejected(UnknownCapability(c))) else RevokeExisting(s, c)
  }

  function RevokeHeldBy(s: State, caller: SubjectId, c: CapId): (State, Outcome) {
    if c !in s.caps then (s, Rejected(UnknownCapability(c)))
    else if !IsHeldBy(s, caller, c) then (s, Rejected(CapabilityNotHeld(caller, c)))
    else RevokeExisting(s, c)
  }

  function BeginClose(s: State, subject: SubjectId): (State, Outcome) {
    if subject !in s.statuses then (s, Rejected(UnknownSubject(subject)))
    else match s.statuses[subject]
      case Closing => (s, AlreadyClosing)
      case Closed => (s, AlreadyClosed)
      case Running =>
        match CheckedNext(s.epoch)
        case None => (s, Rejected(AuthorizationEpochExhausted))
        case Some(e) =>
          var mine := if subject in s.held then s.held[subject] else {};
          (s.(revoked := s.revoked + mine, statuses := s.statuses[subject := Closing], epoch := e), CloseStarted)
  }

  predicate OwnsOpenHandle(s: State, subject: SubjectId) {
    exists h :: h in s.handles && s.handles[h].subject == subject
  }

  function FinishClose(s: State, subject: SubjectId): (State, Outcome) {
    if subject !in s.statuses then (s, Rejected(UnknownSubject(subject)))
    else match s.statuses[subject]
      case Running => (s, Rejected(SubjectNotClosing(subject)))
      case Closed => (s, AlreadyClosed)
      case Closing =>
        if OwnsOpenHandle(s, subject) then (s, Rejected(SubjectHasOpenHandles(subject)))
        else (s.(statuses := s.statuses[subject := Closed]), CloseFinished)
  }

  datatype Op =
    | OpRegister(x: Subject)
    | OpIssueRoot(g: Grant)
    | OpIssueRootWithId(id: CapId, g: Grant)
    | OpDerive(caller: SubjectId, p: CapId, g: Grant, now: u64)
    | OpRevoke(c: CapId)
    | OpRevokeHeldBy(caller: SubjectId, c: CapId)
    | OpBeginClose(subject: SubjectId)
    | OpFinishClose(subject: SubjectId)
    | OpOpenHandle(h: OpenHandle)
    | OpCloseHandle(caller: SubjectId, handle: HandleId)

  function Apply(s: State, op: Op): (State, Outcome) {
    match op
    case OpRegister(x) => RegisterSubject(s, x)
    case OpIssueRoot(g) => IssueRoot(s, g)
    case OpIssueRootWithId(id, g) => IssueRootWithId(s, id, g)
    case OpDerive(caller, p, g, now) => Derive(s, caller, p, g, now)
    case OpRevoke(c) => Revoke(s, c)
    case OpRevokeHeldBy(caller, c) => RevokeHeldBy(s, caller, c)
    case OpBeginClose(x) => BeginClose(s, x)
    case OpFinishClose(x) => FinishClose(s, x)
    case OpOpenHandle(h) => RegisterHandle(s, h)
    case OpCloseHandle(caller, h) => CloseHandle(s, caller, h)
  }

  /** The state after a whole run of accepted and rejected transitions. */
  function Run(s: State, ops: seq<Op>): State
    decreases ops
  {
    if ops == [] then s else Run(Apply(s, ops[0]).0, ops[1..])
  }

  // ----- chains ------------------------------------------------------------

  /** `ch` lists `c` and its ancestors up to a root, over any map of capabilities. */
  predicate RootChain(caps: map<CapId, Capability>, c: CapId, ch: seq<CapId>)
    decreases ch
  {
    && |ch| >= 1
    && ch[0] == c
    && c in caps
    && if |ch| == 1 then caps[c].parent.None?
       else caps[c].parent == Some(ch[1]) && RootChain(caps, ch[1], ch[1..])
  }

  predicate AllLive(caps: map<CapId, Capability>, revoked: set<CapId>, now: u64, ch: seq<CapId>) {
    forall i :: 0 <= i < |ch| ==> Live(caps, revoked, now, ch[i])
  }

  lemma {:induction false} ChainUnique(caps: map<CapId, Capability>, c: CapId, x: seq<CapId>, y: seq<CapId>)
    requires RootChain(caps, c, x) && RootChain(caps, c, y)
    ensures x == y
    decreases x
  {
    if |x| > 1 {
      ChainUnique(caps, x[1], x[1..], y[1..]);
      assert x == [x[0]] + x[1..] && y == [y[0]] + y[1..];
    }
  }

  lemma {:induction false} ChainSuffix(caps: map<CapId, Capability>, c: CapId, ch: seq<CapId>, i: nat)
    requires RootChain(caps, c, ch) && i < |ch|
    ensures RootChain(caps, ch[i], ch[i..])
    decreases i
  {
    if i > 0 {
      ChainSuffix(caps, ch[1], ch[1..], i - 1);
      assert ch[1..][i - 1..] == ch[i..];
    } else {
      assert ch[0..] == ch;
    }
  }

  /** No identity repeats on a chain that reaches a root. */
  lemma ChainDistinct(caps: map<CapId, Capability>, c: CapId, ch: seq<CapId>, i: nat, j: nat)
    requires RootChain(caps, c, ch) && i < j < |ch|
    ensures ch[i] != ch[j]
  {
    if ch[i] == ch[j] {
      ChainSuffix(caps, c, ch, i);
      ChainSuffix(caps, c, ch, j);
      ChainUnique(caps, ch[i], ch[i..], ch[j..]);
    }
  }

  lemma {:induction false} WalkChain(caps: map<CapId, Capability>, revoked: set<CapId>, now: u64, c: CapId, visited: set<CapId>)
    returns (ch: seq<CapId>)
    requires Walk(caps, revoked, now, c, visited)
    ensures RootChain(caps, c, ch) && AllLive(caps, revoked, now, ch)
    decreases caps.Keys - visited
  {
    match caps[c].parent
    case None => ch := [c];
    case Some(p) =>
      var rest := WalkChain(caps, revoked, now, p, visited + {c});
      ch := [c] + rest;
      assert ch[1..] == rest;
  }

  lemma {:induction false} ChainWalk(caps: map<CapId, Capability>, revoked: set<CapId>, now: u64, c: CapId, ch: seq<CapId>, visited: set<CapId>)
    requires RootChain(caps, c, ch) && AllLive(caps, revoked, now, ch)
    requires forall i :: 0 <= i < |ch| ==> ch[i] !in visited
    ensures Walk(caps, revoked, now, c, visited)
    decreases |ch|
  {
    assert ch[0] == c;
    if |ch| > 1 {
      forall i | 0 <= i < |ch[1..]|
        ensures ch[1..][i] !in visited + {c}
      {
        ChainDistinct(caps, c, ch, 0, i + 1);
      }
      assert AllLive(caps, revoked, now, ch[1..]);
      ChainWalk(caps, revoked, now, ch[1], ch[1..], visited + {c});
    }
  }

  /**
   On any capability map, even a cyclic or dangling one, the walk accepts
   exactly the identities with a chain of live ancestors up to a root.
   */
  lemma WalkExact(caps: map<CapId, Capability>, revoked: set<CapId>, now: u64, c: CapId)
    ensures Walk(caps, revoked, now, c, {}) <==>
            exists ch :: RootChain(caps, c, ch) && AllLive(caps, revoked, now, ch)
  {
    if Walk(caps, revoked, now, c, {}) {
      var ch := WalkChain(caps, revoked, now, c, {});
    }
    if ch :| RootChain(caps, c, ch) && AllLive(caps, revoked, now, ch) {
      ChainWalk(caps, revoked, now, c, ch, {});
    }
  }
}
