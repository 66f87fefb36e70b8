/** What holds of the capability state over whole runs. */
module StateTheorems {
  import opened Bytes
  import opened Capability
  import opened State
  import opened StateInvariant

  /** `c` and its ancestors, in a valid state. */
  ghost function Ancestry(s: State, c: CapId): (ch: seq<CapId>)
    requires Valid(s) && c in s.caps
    ensures RootChain(s.caps, c, ch) && 1 <= |ch| <= MAX_DELEGATION_DEPTH
  {
    hide Ids, Subjects, Holders, Narrowing, Envelopes, Lifecycle, Handles;
    ChainOfRoot(s.caps, c, MAX_DELEGATION_DEPTH);
    ChainOf(s.caps, c, MAX_DELEGATION_DEPTH).value
  }

  lemma {:induction false} ChainMembers(caps: map<CapId, Capability>, c: CapId, ch: seq<CapId>, i: nat)
    requires RootChain(caps, c, ch) && i < |ch|
    ensures ch[i] in caps
    ensures i + 1 < |ch| ==> caps[ch[i]].parent == Some(ch[i + 1])
    decreases i
  {
    if i > 0 {
      ChainMembers(caps, ch[1], ch[1..], i - 1);
    }
  }

  // ----- attenuation -------------------------------------------------------

  lemma {:induction false} ChainMatches(caps: map<CapId, Capability>, c: CapId, ch: seq<CapId>, r: CapabilityRequest, i: nat)
    requires Narrowing(caps) && RootChain(caps, c, ch) && i < |ch| && CapabilityMatches(caps[c], r)
    ensures ch[i] in caps && CapabilityMatches(caps[ch[i]], r)
  {
    hide CapabilityMatches, WeakerThan;
    ChainMembers(caps, c, ch, i);
    if i > 0 {
      ChainMatches(caps, c, ch, r, i - 1);
      ChainMembers(caps, c, ch, i - 1);
      WeakerThanSound(caps[ch[i - 1]], caps[ch[i]], r);
    }
  }

  lemma EnvelopeMatches(subjects: map<SubjectId, Subject>, c: Capability, r: CapabilityRequest)
    requires Enveloped(subjects, c) && CapabilityMatches(c, r)
    ensures InWindow(subjects[c.subject].envelope.validity, r.time)
    ensures AuthorityMatches(subjects[c.subject].envelope.authority, r.authority)
  {
    hide AuthorityBelow, AuthorityMatches;
    AuthorityBelowSound(c.authority, subjects[c.subject].envelope.authority, r.authority);
  }

  /**
   Attenuation: a request authorised by a capability is permitted by each of
   its ancestors, and lies inside the static envelope of each ancestor's holder.
   */
  lemma Attenuation(s: State, caller: SubjectId, c: CapId, r: CapabilityRequest, i: nat)
    requires Valid(s) && Authorizes(s, caller, c, r) && i < |Ancestry(s, c)|
    ensures var a := Ancestry(s, c)[i];
            && a in s.caps && CapabilityMatches(s.caps[a], r)
            && s.caps[a].subject in s.subjects
            && InWindow(s.subjects[s.caps[a].subject].envelope.validity, r.time)
            && AuthorityMatches(s.subjects[s.caps[a].subject].envelope.authority, r.authority)
  {
    hide CapabilityMatches, Ids, Subjects, Holders, Forest, Narrowing, Lifecycle, Handles, EnvelopeContains, AuthorityMatches, Walk;
    var ch := Ancestry(s, c);
    ChainMatches(s.caps, c, ch, r, i);
    assert Enveloped(s.subjects, s.caps[ch[i]]);
    EnvelopeMatches(s.subjects, s.caps[ch[i]], r);
  }

  // ----- effective activity ------------------------------------------------

  lemma {:induction false} WindowsNarrow(caps: map<CapId, Capability>, c: CapId, ch: seq<CapId>, now: u64, i: nat)
    requires Narrowing(caps) && RootChain(caps, c, ch) && i < |ch| && InWindow(caps[c].validity, now)
    ensures ch[i] in caps && InWindow(caps[ch[i]].validity, now)
  {
    hide AuthorityBelow;
    ChainMembers(caps, c, ch, i);
    if i > 0 {
      WindowsNarrow(caps, c, ch, now, i - 1);
      ChainMembers(caps, c, ch, i - 1);
      assert WeakerThan(caps[ch[i - 1]], caps[ch[i]]);
    }
  }

  /**
   In a valid state the visited-set walk says: the capability's own window
   contains the time, and neither it nor any ancestor was directly revoked.
   */
  lemma ActiveExact(s: State, c: CapId, now: u64)
    requires Valid(s) && c in s.caps
    ensures Active(s, c, now) <==>
            && InWindow(s.caps[c].validity, now)
            && forall i :: 0 <= i < |Ancestry(s, c)| ==> Ancestry(s, c)[i] !in s.revoked
  {
    hide Ids, Subjects, Holders, Forest, Narrowing, Envelopes, Lifecycle, Handles;
    var ch := Ancestry(s, c);
    WalkExact(s.caps, s.revoked, now, c);
    if Active(s, c, now) {
      var live :| RootChain(s.caps, c, live) && AllLive(s.caps, s.revoked, now, live);
      ChainUnique(s.caps, c, ch, live);
      assert Live(s.caps, s.revoked, now, ch[0]);
    } else if InWindow(s.caps[c].validity, now) && forall i :: 0 <= i < |ch| ==> ch[i] !in s.revoked {
      forall i | 0 <= i < |ch|
        ensures Live(s.caps, s.revoked, now, ch[i])
      {
        WindowsNarrow(s.caps, c, ch, now, i);
      }
      assert AllLive(s.caps, s.revoked, now, ch);
    }
  }

  /** No capability that descends from a revoked one authorises anything. */
  lemma RevokedDescendantInert(s: State, caller: SubjectId, c: CapId, r: CapabilityRequest, i: nat)
    requires Valid(s) && c in s.caps && i < |Ancestry(s, c)| && Ancestry(s, c)[i] in s.revoked
    ensures !Authorizes(s, caller, c, r)
  {
    hide Valid, Walk, CapabilityMatches;
    ActiveExact(s, c, r.time);
  }

  // ----- order between states of a run -------------------------------------

  ghost predicate StatusesLater(old_: map<SubjectId, Status>, new_: map<SubjectId, Status>) {
    forall x :: x in old_ ==>
      && x in new_
      && (!old_[x].Running? ==> !new_[x].Running?)
      && (old_[x].Closed? ==> new_[x].Closed?)
  }

  ghost predicate HeldLater(statuses: map<SubjectId, Status>, old_: map<SubjectId, set<CapId>>, new_: map<SubjectId, set<CapId>>) {
    forall x :: x in old_ ==>
      && x in new_
      && old_[x] <= new_[x]
      && (x in statuses && !statuses[x].Running? ==> new_[x] == old_[x])
  }

  /** A subject that is not running gains no handle identity and no open handle. */
  ghost predicate HandlesLater(s: State, t: State) {
    && Extends(s.owners, t.owners)
    && (forall h :: h in t.owners && t.owners[h] in s.statuses && !s.statuses[t.owners[h]].Running? ==> h in s.owners)
    && (forall h :: h in t.handles && t.handles[h].subject in s.statuses && !s.statuses[t.handles[h].subject].Running? ==>
          h in s.handles && s.handles[h] == t.handles[h])
  }

  ghost predicate SameDecisions(s: State, t: State) {
    && s.revoked == t.revoked
    && forall x :: x in s.statuses && x in t.statuses ==> (s.statuses[x].Running? <==> t.statuses[x].Running?)
  }

  /** `t` can come after `s` in a run. */
  ghost predicate Later(s: State, t: State) {
    && s.issuer == t.issuer
    && Extends(s.subjects, t.subjects)
    && Extends(s.caps, t.caps)
    && s.revoked <= t.revoked
    && s.epoch <= t.epoch
    && StatusesLater(s.statuses, t.statuses)
    && HeldLater(s.statuses, s.held, t.held)
    && HandlesLater(s, t)
    && (s.epoch == t.epoch ==> SameDecisions(s, t))
  }

  lemma HandlesLaterTransitive(s: State, t: State, u: State)
    requires StatusesLater(s.statuses, t.statuses) && HandlesLater(s, t) && HandlesLater(t, u)
    ensures HandlesLater(s, u)
  {
  }

  lemma HeldLaterTransitive(a: map<SubjectId, Status>, b: map<SubjectId, Status>, x: map<SubjectId, set<CapId>>, y: map<SubjectId, set<CapId>>, z: map<SubjectId, set<CapId>>)
    requires StatusesLater(a, b) && HeldLater(a, x, y) && HeldLater(b, y, z)
    ensures HeldLater(a, x, z)
  {
  }

  lemma LaterTransitive(s: State, t: State, u: State)
    requires Later(s, t) && Later(t, u)
    ensures Later(s, u)
  {
    hide HandlesLater, HeldLater;
    HandlesLaterTransitive(s, t, u);
    HeldLaterTransitive(s.statuses, t.statuses, s.held, t.held, u.held);
  }

  lemma LaterReflexive(s: State)
    ensures Later(s, s)
  {
  }

  lemma IssueLater(s: State, cursor: Option<u64>, g: Grant, parent: Option<CapId>, id: CapId)
    requires id !in s.caps && IsRunning(s, g.subject)
    ensures Later(s, IssueWithId(s.(cursor := cursor), g, parent, id).0)
  {
  }

  lemma GrantLater(s: State, g: Grant, parent: Option<CapId>)
    requires Valid(s) && ValidateEnvelope(s, g).None?
    ensures Later(s, Issue(s, g, parent).0)
  {
    hide Subjects, Holders, Forest, Narrowing, Envelopes, Lifecycle, Handles, Later, EnvelopeContains;
    LaterReflexive(s);
    if |s.issued| < MAX_CAPABILITIES {
      ProbeFinds(s.issuer, s.issued, s.cursor.value);
      var n := Probe(s.issuer, s.issued, s.cursor.value).value;
      IssueLater(s, CheckedNext(n), g, parent, SeqId(s.issuer, n));
    }
  }

  lemma RegisterLater(s: State, x: Subject)
    requires s.subjects.Keys == s.statuses.Keys == s.held.Keys
    ensures Later(s, RegisterSubject(s, x).0)
  {
    var t := RegisterSubject(s, x).0;
    LaterReflexive(s);
    if x.id !in s.subjects && RegisterSubject(s, x).1.Registered? {
      assert t.owners == s.owners && t.handles == s.handles;
      assert HandlesLater(s, t);
    }
  }

  lemma RevokeLater(s: State, c: CapId)
    ensures Later(s, RevokeExisting(s, c).0)
  {
  }

  lemma BeginCloseLater(s: State, x: SubjectId)
    ensures Later(s, BeginClose(s, x).0)
  {
    LaterReflexive(s);
    if IsRunning(s, x) {
      HandlesLaterSame(s, BeginClose(s, x).0);
    }
  }

  lemma FinishCloseLater(s: State, x: SubjectId)
    ensures Later(s, FinishClose(s, x).0)
  {
    hide OwnsOpenHandle;
    LaterReflexive(s);
    HandlesLaterSame(s, FinishClose(s, x).0);
  }

  lemma HandlesLaterSame(s: State, t: State)
    requires t.owners == s.owners && t.handles == s.handles
    ensures HandlesLater(s, t)
  {
  }

  lemma OpenHandleLater(s: State, h: OpenHandle)
    ensures Later(s, RegisterHandle(s, h).0)
  {
    hide StatusesLater, HeldLater;
    LaterReflexive(s);
  }

  lemma CloseHandleLater(s: State, caller: SubjectId, id: HandleId)
    ensures Later(s, CloseHandle(s, caller, id).0)
  {
    hide StatusesLater, HeldLater;
    LaterReflexive(s);
  }

  /** One transition moves the state forward in the order. */
  lemma ApplyLater(s: State, op: Op)
    requires Valid(s)
    ensures Later(s, Apply(s, op).0)
  {
    hide Later, Issue, IssueWithId, RegisterSubject, BeginClose, FinishClose, RegisterHandle, CloseHandle, RevokeExisting;
    hide Holders, Forest, Narrowing, Envelopes, Lifecycle;
    LaterReflexive(s);
    match op
    case OpRegister(x) => RegisterLater(s, x);
    case OpIssueRoot(g) => if ValidateEnvelope(s, g).None? { GrantLater(s, g, None); }
    case OpIssueRootWithId(id, g) =>
      if ValidateEnvelope(s, g).None? && id !in s.issued {
        IssueLater(s, s.cursor, g, None, id);
      }
    case OpDerive(caller, p, g, now) => if ValidateEnvelope(s, g).None? { GrantLater(s, g, Some(p)); }
    case OpRevoke(c) => RevokeLater(s, c);
    case OpRevokeHeldBy(caller, c) => RevokeLater(s, c);
    case OpBeginClose(x) => BeginCloseLater(s, x);
    case OpFinishClose(x) => FinishCloseLater(s, x);
    case OpOpenHandle(h) => OpenHandleLater(s, h);
    case OpCloseHandle(caller, h) => CloseHandleLater(s, caller, h);
  }

  lemma {:induction false} RunLater(s: State, ops: seq<Op>)
    requires Valid(s)
    ensures Later(s, Run(s, ops))
    decreases ops
  {
    hide Later, Valid;
    if ops == [] {
      LaterReflexive(s);
    } else {
      ApplyLater(s, ops[0]);
      ApplyValid(s, ops[0]);
      RunLater(Apply(s, ops[0]).0, ops[1..]);
      LaterTransitive(s, Apply(s, ops[0]).0, Run(s, ops));
    }
  }

  // ----- the epoch as a cache key ------------------------------------------

  /** Existing capabilities keep their ancestry. */
  lemma AncestryStable(s: State, t: State, c: CapId)
    requires Valid(s) && Valid(t) && Extends(s.caps, t.caps) && c in s.caps
    ensures c in t.caps && t.caps[c] == s.caps[c] && Ancestry(t, c) == Ancestry(s, c)
  {
    var ch := Ancestry(s, c);
    ChainExtends(s.caps, t.caps, c, ch);
    ChainUnique(t.caps, c, ch, Ancestry(t, c));
  }

  lemma SameAnswer(s: State, t: State, caller: SubjectId, c: CapId, r: CapabilityRequest)
    requires Valid(s) && Valid(t) && Later(s, t) && s.epoch == t.epoch && c in s.caps
    ensures Authorizes(t, caller, c, r) <==> Authorizes(s, caller, c, r)
  {
    hide Ids, Forest, Narrowing, Envelopes, Lifecycle, Handles, Walk, CapabilityMatches, HandlesLater;
    AncestryStable(s, t, c);
    ActiveExact(s, c, r.time);
    ActiveExact(t, c, r.time);
  }

  /**
   The epoch is a sound cache key: between two states of a run with the same
   epoch, every caller and every request gets the same answer for every
   capability that already existed, and the epoch itself never goes back.
   */
  lemma EpochIsCacheKey(s: State, ops: seq<Op>, caller: SubjectId, c: CapId, r: CapabilityRequest)
    requires Valid(s) && c in s.caps
    ensures s.epoch <= Run(s, ops).epoch
    ensures s.epoch == Run(s, ops).epoch ==> (Authorizes(Run(s, ops), caller, c, r) <==> Authorizes(s, caller, c, r))
  {
    hide Valid, Authorizes;
    RunLater(s, ops);
    RunValid(s, ops);
    if s.epoch == Run(s, ops).epoch {
      SameAnswer(s, Run(s, ops), caller, c, r);
    }
  }

  // ----- revocation and shutdown are permanent -----------------------------

  /** After a revocation no later state lets the capability or a descendant authorise. */
  lemma RevocationPermanent(s: State, ops: seq<Op>, c: CapId, caller: SubjectId, d: CapId, r: CapabilityRequest, ch: seq<CapId>)
    requires Valid(s) && c in s.revoked
    requires RootChain(Run(s, ops).caps, d, ch) && c in ch
    ensures !Authorizes(Run(s, ops), caller, d, r)
  {
    hide Valid, Authorizes, Run, StatusesLater, HeldLater, HandlesLater;
    RunLater(s, ops);
    RunValid(s, ops);
    RevokedChainInert(Run(s, ops), c, caller, d, r, ch);
  }

  lemma RevokedChainInert(s: State, c: CapId, caller: SubjectId, d: CapId, r: CapabilityRequest, ch: seq<CapId>)
    requires Valid(s) && c in s.revoked && RootChain(s.caps, d, ch) && c in ch
    ensures !Authorizes(s, caller, d, r)
  {
    hide Valid, Authorizes;
    ChainUnique(s.caps, d, ch, Ancestry(s, d));
    var i :| 0 <= i < |ch| && ch[i] == c;
    RevokedDescendantInert(s, caller, d, r, i);
  }

  /**
   Shutdown is permanent. Once a subject is not running, in every later state:
   it is still not running and holds exactly what it held; all of that is
   revoked; it has gained no handle; and neither what it held nor anything
   derived from it, whoever holds it, authorises any request.
   */
  lemma ShutdownPermanent(s: State, ops: seq<Op>, x: SubjectId)
    requires Valid(s) && x in s.statuses && !s.statuses[x].Running?
    ensures var t := Run(s, ops);
            && x in t.statuses && !t.statuses[x].Running?
            && x in s.held && x in t.held && t.held[x] == s.held[x] && t.held[x] <= t.revoked
            && (forall h :: h in t.owners && t.owners[h] == x ==> h in s.owners)
            && (forall h :: h in t.handles && t.handles[h].subject == x ==> h in s.handles)
  {
    hide Ids, Holders, Forest, Narrowing, Envelopes, Handles;
    RunLater(s, ops);
    RunValid(s, ops);
  }

  lemma ShutdownSilences(s: State, ops: seq<Op>, x: SubjectId, c: CapId, caller: SubjectId, d: CapId, r: CapabilityRequest, ch: seq<CapId>)
    requires Valid(s) && x in s.statuses && !s.statuses[x].Running? && x in s.held && c in s.held[x]
    requires RootChain(Run(s, ops).caps, d, ch) && c in ch
    ensures !Authorizes(Run(s, ops), caller, d, r)
  {
    hide Valid, Authorizes, Run;
    ShutdownPermanent(s, ops, x);
    RunValid(s, ops);
    RevokedChainInert(Run(s, ops), c, caller, d, r, ch);
  }

  /** A closed subject has no open handle. */
  lemma ClosedOwnsNothing(s: State, x: SubjectId)
    requires Valid(s) && x in s.statuses && s.statuses[x].Closed?
    ensures !OwnsOpenHandle(s, x)
  {
    hide Ids, Subjects, Holders, Forest, Narrowing, Envelopes, Lifecycle;
  }

  // ----- rejections --------------------------------------------------------

  lemma RejectedGrant(s: State, g: Grant, parent: Option<CapId>)
    requires Valid(s) && Issue(s, g, parent).1.Rejected?
    ensures Issue(s, g, parent) == (s, Rejected(CapabilityCountExceeded))
  {
    hide Subjects, Holders, Forest, Narrowing, Envelopes, Lifecycle, Handles;
    if |s.issued| < MAX_CAPABILITIES {
      ProbeFinds(s.issuer, s.issued, s.cursor.value);
    }
  }

  lemma RejectedDerive(s: State, caller: SubjectId, p: CapId, g: Grant, now: u64)
    requires Valid(s) && Derive(s, caller, p, g, now).1.Rejected?
    ensures Derive(s, caller, p, g, now).0 == s
    ensures Derive(s, caller, p, g, now).1.error != AuthorizationEpochExhausted
    ensures Derive(s, caller, p, g, now).1.error != CapabilityIdExhausted
  {
    hide Valid, Issue, Active, Depth, EnvelopeContains, WindowSubset, AuthorityBelow;
    if ParentFault(s, caller, p, g, now).None? && ValidateEnvelope(s, g).None? {
      RejectedGrant(s, g, Some(p));
    }
  }

  /** A rejection that changes nothing and is not an exhausted sequence. */
  predicate CleanRejection(s: State, r: (State, Outcome)) {
    r.1.Rejected? ==> r.0 == s && r.1.error != AuthorizationEpochExhausted && r.1.error != CapabilityIdExhausted
  }

  lemma RejectedRegister(s: State, x: Subject)
    ensures CleanRejection(s, RegisterSubject(s, x))
  {
  }

  lemma RejectedHandles(s: State, h: OpenHandle, caller: SubjectId, id: HandleId)
    ensures CleanRejection(s, RegisterHandle(s, h)) && CleanRejection(s, CloseHandle(s, caller, id))
  {
  }

  lemma RejectedRoots(s: State, id: CapId, g: Grant)
    requires Valid(s)
    ensures CleanRejection(s, IssueRoot(s, g)) && CleanRejection(s, IssueRootWithId(s, id, g))
  {
    hide Valid, Issue, IssueWithId, EnvelopeContains;
    if ValidateEnvelope(s, g).None? && Issue(s, g, None).1.Rejected? {
      RejectedGrant(s, g, None);
    }
    IssueWithIdAccepts(s, g, id);
  }

  lemma IssueWithIdAccepts(s: State, g: Grant, id: CapId)
    ensures !IssueWithId(s, g, None, id).1.Rejected?
  {
  }

  lemma RejectedClosings(s: State, caller: SubjectId, c: CapId, x: SubjectId)
    requires Valid(s)
    ensures CleanRejection(s, Revoke(s, c)) && CleanRejection(s, RevokeHeldBy(s, caller, c))
    ensures CleanRejection(s, BeginClose(s, x)) && CleanRejection(s, FinishClose(s, x))
  {
    hide Valid, OwnsOpenHandle;
    EpochBound(s);
  }

  /**
   A rejected transition leaves a valid state unchanged, and neither the epoch
   nor the identity sequence is ever the reason.
   */
  lemma RejectedUnchanged(s: State, op: Op)
    requires Valid(s) && Apply(s, op).1.Rejected?
    ensures Apply(s, op).0 == s
    ensures Apply(s, op).1.error != AuthorizationEpochExhausted
    ensures Apply(s, op).1.error != CapabilityIdExhausted
  {
    hide Valid, RegisterSubject, RegisterHandle, CloseHandle, IssueRoot, IssueRootWithId, Derive, Revoke, RevokeHeldBy, BeginClose, FinishClose;
    match op
    case OpRegister(x) => RejectedRegister(s, x);
    case OpOpenHandle(h) => RejectedHandles(s, h, [], []);
    case OpCloseHandle(caller, id) => RejectedHandles(s, OpenHandle([], [], []), caller, id);
    case OpIssueRoot(g) => RejectedRoots(s, [], g);
    case OpIssueRootWithId(id, g) => RejectedRoots(s, id, g);
    case OpDerive(caller, p, g, now) => RejectedDerive(s, caller, p, g, now);
    case OpRevoke(c) => RejectedClosings(s, [], c, []);
    case OpRevokeHeldBy(caller, c) => RejectedClosings(s, caller, c, []);
    case OpBeginClose(x) => RejectedClosings(s, [], [], x);
    case OpFinishClose(x) => RejectedClosings(s, [], [], x);
  }

  // ----- where authority comes from ----------------------------------------

  function GrantOf(op: Op): Option<Grant> {
    match op
    case OpIssueRoot(g) => Some(g)
    case OpIssueRootWithId(_, g) => Some(g)
    case OpDerive(_, _, g, _) => Some(g)
    case _ => None
  }

  lemma IssuedWith(s: State, g: Grant, parent: Option<CapId>, c: CapId)
    requires c in Issue(s, g, parent).0.caps && c !in s.caps
    ensures Issue(s, g, parent).0.caps[c] == Capability(c, g.subject, s.issuer, parent, g.delegable, g.validity, g.authority)
  {
    hide Probe;
  }

  /**
   A capability appears only by an issuing transition, exactly as granted and
   inside its subject's envelope; a derived one only from a parent the running
   caller holds, that is active and delegable and no weaker.
   */
  lemma NewCapability(s: State, op: Op, c: CapId)
    requires c in Apply(s, op).0.caps && c !in s.caps
    ensures GrantOf(op).Some?
    ensures var g, now := GrantOf(op).value, Apply(s, op).0.caps[c];
            && now == Capability(c, g.subject, s.issuer, if op.OpDerive? then Some(op.p) else None, g.delegable, g.validity, g.authority)
            && IsRunning(s, g.subject) && g.subject in s.subjects
            && EnvelopeContains(s.subjects[g.subject].envelope, g.validity, g.authority)
            && (op.OpDerive? ==>
                  && op.p in s.caps && s.caps[op.p].delegable && Active(s, op.p, op.now) && WeakerThan(now, s.caps[op.p])
                  && IsHeldBy(s, op.caller, op.p) && IsRunning(s, op.caller))
  {
    hide Issue, Active, Depth, EnvelopeContains, WindowSubset, AuthorityBelow, OwnsOpenHandle;
    match op
    case OpIssueRoot(g) => if ValidateEnvelope(s, g).None? { IssuedWith(s, g, None, c); }
    case OpDerive(caller, p, g, now) => if Derive(s, caller, p, g, now).0 != s { IssuedWith(s, g, Some(p), c); }
    case _ =>
  }

  /** A capability is revoked only by revoking it, by its holder or the trusted host, or by closing its holder. */
  lemma NewRevocation(s: State, op: Op, c: CapId)
    requires c in Apply(s, op).0.revoked && c !in s.revoked
    ensures || (op.OpRevoke? && op.c == c)
            || (op.OpRevokeHeldBy? && op.c == c && IsHeldBy(s, op.caller, c))
            || (op.OpBeginClose? && IsHeldBy(s, op.subject, c))
  {
    hide Active, Depth, EnvelopeContains, WindowSubset, AuthorityBelow, OwnsOpenHandle, Probe, ValidateEnvelope, ParentFault;
  }

  /** Every parent of every capability is delegable. */
  ghost predicate DelegableParents(caps: map<CapId, Capability>) {
    forall c, p :: c in caps && p in caps && caps[c].parent == Some(p) ==> caps[p].delegable
  }

  lemma {:induction false} RunDelegable(s: State, ops: seq<Op>)
    requires Valid(s) && DelegableParents(s.caps)
    ensures DelegableParents(Run(s, ops).caps)
    decreases ops
  {
    hide Valid, Apply, Later;
    if ops != [] {
      ApplyDelegable(s, ops[0]);
      ApplyValid(s, ops[0]);
      RunDelegable(Apply(s, ops[0]).0, ops[1..]);
    }
  }

  lemma ApplyDelegable(s: State, op: Op)
    requires Valid(s) && DelegableParents(s.caps)
    ensures DelegableParents(Apply(s, op).0.caps)
  {
    hide Ids, Subjects, Holders, Narrowing, Envelopes, Lifecycle, Handles, Apply, StatusesLater, HeldLater, HandlesLater;
    ApplyLater(s, op);
    var t := Apply(s, op).0;
    forall c, p | c in t.caps && p in t.caps && t.caps[c].parent == Some(p) ensures t.caps[p].delegable {
      if c in s.caps {
        ParentKnown(s.caps, c);
      } else {
        NewCapability(s, op, c);
      }
    }
  }

  // ----- reachable states --------------------------------------------------

  /** `s` is what some run of transitions makes of a fresh state. */
  ghost predicate Reachable(s: State) {
    exists issuer, ops :: s == Run(New(issuer), ops)
  }

  lemma ReachableValid(s: State)
    requires Reachable(s)
    ensures Valid(s)
  {
    hide Valid;
    var issuer, ops :| s == Run(New(issuer), ops);
    NewValid(issuer);
    RunValid(New(issuer), ops);
  }

  /** Attenuation in every reachable state, along any chain to a root. */
  lemma ReachableAttenuation(s: State, caller: SubjectId, c: CapId, r: CapabilityRequest, ch: seq<CapId>, i: nat)
    requires Reachable(s) && Authorizes(s, caller, c, r) && RootChain(s.caps, c, ch) && i < |ch|
    ensures ch[i] in s.caps && CapabilityMatches(s.caps[ch[i]], r)
    ensures var holder := s.caps[ch[i]].subject;
            && holder in s.subjects
            && InWindow(s.subjects[holder].envelope.validity, r.time)
            && AuthorityMatches(s.subjects[holder].envelope.authority, r.authority)
  {
    hide Valid, Authorizes, CapabilityMatches, AuthorityMatches, Reachable;
    ReachableValid(s);
    ChainUnique(s.caps, c, ch, Ancestry(s, c));
    Attenuation(s, caller, c, r, i);
  }

  /**
   In every reachable state parent links form a forest of bounded depth whose
   inner nodes are delegable, the epoch and the identity cursor are bounded by
   what has happened, and a closed subject has no open handle.
   */
  lemma ReachableBounds(s: State)
    requires Reachable(s)
    ensures forall c :: c in s.caps ==> exists ch :: RootChain(s.caps, c, ch) && |ch| <= MAX_DELEGATION_DEPTH
    ensures DelegableParents(s.caps)
    ensures s.epoch <= |s.revoked| + |Stopped(s.statuses)|
    ensures s.cursor.Some? && s.cursor.value <= |s.issued|
    ensures forall x :: x in s.statuses && s.statuses[x].Closed? ==> !OwnsOpenHandle(s, x)
  {
    ReachableValid(s);
    var issuer, ops :| s == Run(New(issuer), ops);
    NewValid(issuer);
    RunDelegable(New(issuer), ops);
    hide Subjects, Holders, Forest, Narrowing, Envelopes, Lifecycle, Handles, Run, OwnsOpenHandle, DelegableParents;
    CursorBound(s.issuer, s.issued, s.cursor.value);
    EpochBound(s);
    forall c | c in s.caps ensures exists ch :: RootChain(s.caps, c, ch) && |ch| <= MAX_DELEGATION_DEPTH {
      var ch := Ancestry(s, c);
    }
    forall x | x in s.statuses && s.statuses[x].Closed? ensures !OwnsOpenHandle(s, x) {
      ClosedOwnsNothing(s, x);
    }
  }
}
