/** When each transition of the capability state is accepted, why it is not, and what it touches. */
module StateDecisions {
  import opened Bytes
  import opened Capability
  import opened State
  import opened StateInvariant
  import opened StateTheorems

  // ----- what can be wrong with a transition -------------------------------

  /** `c` or one of its ancestors was revoked. */
  ghost predicate Cut(s: State, c: CapId) {
    exists ch, i :: RootChain(s.caps, c, ch) && 0 <= i < |ch| && ch[i] in s.revoked
  }

  /** Some chain from `c` to a root has fewer than 64 nodes. */
  ghost predicate Shallow(s: State, c: CapId) {
    exists ch :: RootChain(s.caps, c, ch) && |ch| < 64
  }

  predicate Unknown(s: State, x: SubjectId, e: StateError) {
    e == UnknownSubject(x) && x !in s.statuses
  }

  predicate Stopping(s: State, x: SubjectId, e: StateError) {
    e == SubjectNotRunning(x) && x in s.statuses && s.statuses[x] != Running
  }

  predicate RegisterWrong(s: State, x: Subject, e: StateError) {
    || (e == DuplicateSubject(x.id) && x.id in s.subjects)
    || (x.parent.Some? && e == UnknownParentSubject(x.parent.value) && x.parent.value !in s.subjects)
    || (x.parent.Some? && Stopping(s, x.parent.value, e))
    || (e == SubjectCountExceeded && |s.subjects| >= 1_048_576)
  }

  /** Against the holder of a new capability, and the number already issued. */
  predicate GrantWrong(s: State, g: Grant, e: StateError) {
    || Unknown(s, g.subject, e)
    || Stopping(s, g.subject, e)
    || (e == GrantExceedsEnvelope(g.subject) && g.subject in s.subjects
        && !(WindowSubset(g.validity, s.subjects[g.subject].envelope.validity)
             && AuthorityBelow(g.authority, s.subjects[g.subject].envelope.authority)))
    || (e == CapabilityCountExceeded && |s.caps| >= 1_048_576)
  }

  predicate IdentityWrong(s: State, id: CapId, e: StateError) {
    || (e == InvalidCapabilityId(id) && |id| == 0)
    || (e == CapabilityIdAlreadyIssued(id) && id in s.caps)
  }

  /** Against a known parent of a derived capability. */
  ghost predicate LinkWrong(s: State, caller: SubjectId, p: CapId, g: Grant, now: u64, e: StateError)
    requires p in s.caps
  {
    || (e == ParentNotHeld(caller, p) && !IsHeldBy(s, caller, p))
    || (e == ParentChainInactive(p) && (!InWindow(s.caps[p].validity, now) || Cut(s, p)))
    || (e == ParentNotDelegable(p) && !s.caps[p].delegable)
    || (e == GrantExceedsParent(p)
        && !(WindowSubset(g.validity, s.caps[p].validity) && AuthorityBelow(g.authority, s.caps[p].authority)))
    || (e == DelegationDepthExceeded(p) && !Shallow(s, p))
  }

  ghost predicate ParentWrong(s: State, caller: SubjectId, p: CapId, g: Grant, now: u64, e: StateError) {
    || Unknown(s, caller, e)
    || Stopping(s, caller, e)
    || (e == UnknownCapability(p) && p !in s.caps)
    || (p in s.caps && LinkWrong(s, caller, p, g, now, e))
  }

  /** `e` is a reason against `op` in `s`. */
  ghost predicate Wrong(s: State, op: Op, e: StateError) {
    match op
    case OpRegister(x) => RegisterWrong(s, x, e)
    case OpIssueRoot(g) => GrantWrong(s, g, e)
    case OpIssueRootWithId(id, g) => GrantWrong(s, g, e) || IdentityWrong(s, id, e)
    case OpDerive(caller, p, g, now) => ParentWrong(s, caller, p, g, now, e) || GrantWrong(s, g, e)
    case OpRevoke(c) => e == UnknownCapability(c) && c !in s.caps
    case OpRevokeHeldBy(caller, c) =>
      || (e == UnknownCapability(c) && c !in s.caps)
      || (e == CapabilityNotHeld(caller, c) && c in s.caps && !IsHeldBy(s, caller, c))
    case OpBeginClose(x) => Unknown(s, x, e)
    case OpFinishClose(x) =>
      || Unknown(s, x, e)
      || (e == SubjectNotClosing(x) && IsRunning(s, x))
      || (e == SubjectHasOpenHandles(x) && x in s.statuses && s.statuses[x] == Closing && OwnsOpenHandle(s, x))
    case OpOpenHandle(h) =>
      || Unknown(s, h.subject, e)
      || Stopping(s, h.subject, e)
      || (e == HandleIdAlreadyIssued(h.id) && h.id in s.owners)
      || (e == HandleCountExceeded && |s.owners| >= 1_048_576)
    case OpCloseHandle(caller, h) =>
      || (e == UnknownHandle(h) && h !in s.owners)
      || (e == HandleNotOwned(caller, h) && h in s.owners && s.owners[h] != caller)
  }

  /** The order in which reasons are looked for; a derivation looks at its caller first and its holder late. */
  function Rank(op: Op, e: StateError): nat {
    match e
    case UnknownSubject(x) => if op.OpDerive? && x != op.caller then 20 else 0
    case SubjectNotRunning(x) => if op.OpDerive? && x != op.caller then 21 else 2
    case DuplicateSubject(_) => 0
    case UnknownParentSubject(_) => 1
    case SubjectCountExceeded => 3
    case UnknownCapability(_) => 10
    case ParentNotHeld(_, _) => 11
    case CapabilityNotHeld(_, _) => 11
    case ParentChainInactive(_) => 12
    case ParentNotDelegable(_) => 13
    case GrantExceedsParent(_) => 14
    case DelegationDepthExceeded(_) => 15
    case GrantExceedsEnvelope(_) => 22
    case InvalidCapabilityId(_) => 23
    case CapabilityIdAlreadyIssued(_) => 24
    case CapabilityCountExceeded => 25
    case SubjectNotClosing(_) => 1
    case SubjectHasOpenHandles(_) => 2
    case HandleIdAlreadyIssued(_) => 3
    case HandleCountExceeded => 4
    case UnknownHandle(_) => 0
    case HandleNotOwned(_, _) => 1
    case _ => 99
  }

  /** `r` is the answer to `op`: rejected exactly when something is wrong, and then with the first such reason. */
  ghost predicate Decided(s: State, op: Op, r: Outcome) {
    && (r.Rejected? ==> Wrong(s, op, r.error) && forall e :: Wrong(s, op, e) ==> Rank(op, r.error) <= Rank(op, e))
    && (!r.Rejected? ==> forall e :: !Wrong(s, op, e))
  }

  // ----- meanings of the checks --------------------------------------------

  lemma ActiveMeans(s: State, c: CapId, now: u64)
    requires Valid(s) && c in s.caps
    ensures Active(s, c, now) <==> InWindow(s.caps[c].validity, now) && !Cut(s, c)
  {
    hide Valid, Active, RootChain;
    ActiveExact(s, c, now);
    var line := Ancestry(s, c);
    if Cut(s, c) {
      var ch, i :| RootChain(s.caps, c, ch) && 0 <= i < |ch| && ch[i] in s.revoked;
      ChainUnique(s.caps, c, ch, line);
    } else {
      assert RootChain(s.caps, c, line);
      assert forall i :: 0 <= i < |line| ==> line[i] !in s.revoked;
    }
  }

  lemma DepthMeans(s: State, c: CapId)
    requires Valid(s) && c in s.caps
    ensures Depth(s.caps, c, MAX_DELEGATION_DEPTH + 1) < MAX_DELEGATION_DEPTH <==> Shallow(s, c)
  {
    hide Valid, RootChain;
    var line := Ancestry(s, c);
    DepthOfChain(s.caps, c, line, MAX_DELEGATION_DEPTH + 1);
    assert RootChain(s.caps, c, line);
    if Shallow(s, c) {
      var ch :| RootChain(s.caps, c, ch) && |ch| < 64;
      ChainUnique(s.caps, c, ch, line);
    }
  }

  lemma SameKeys(s: State)
    requires Valid(s)
    ensures s.subjects.Keys == s.statuses.Keys == s.held.Keys && s.issued == s.caps.Keys
  {
    hide Holders, Forest, Narrowing, Envelopes, Lifecycle, Handles, AllIssuedBelow;
  }

  /** What a subject holds is a capability of its own. */
  lemma HeldMeans(s: State, x: SubjectId, c: CapId)
    requires Valid(s)
    ensures IsHeldBy(s, x, c) ==> c in s.caps && s.caps[c].subject == x
    ensures c in s.caps && s.caps[c].subject == x ==> IsHeldBy(s, x, c)
  {
    hide Ids, Subjects, Forest, Narrowing, Envelopes, Lifecycle, Handles;
  }

  // ----- each transition ---------------------------------------------------

  lemma IssueDecided(s: State, g: Grant, parent: Option<CapId>)
    requires Valid(s)
    ensures Issue(s, g, parent).1.Rejected? <==> |s.caps| >= 1_048_576
    ensures Issue(s, g, parent).1.Rejected? ==> Issue(s, g, parent).1.error == CapabilityCountExceeded
  {
    SameKeys(s);
    hide Subjects, Holders, Forest, Narrowing, Envelopes, Lifecycle, Handles;
    assert |s.issued| == |s.caps|;
    if |s.issued| < MAX_CAPABILITIES {
      ProbeFinds(s.issuer, s.issued, s.cursor.value);
    }
  }

  lemma EnvelopeDecided(s: State, g: Grant)
    requires Valid(s)
    ensures ValidateEnvelope(s, g).None? <==> forall e :: GrantWrong(s, g, e) ==> e == CapabilityCountExceeded
    ensures ValidateEnvelope(s, g).Some? ==>
              var f := ValidateEnvelope(s, g).value;
              && f != CapabilityCountExceeded && GrantWrong(s, g, f)
              && forall e, op: Op | GrantWrong(s, g, e) && e != CapabilityCountExceeded && GrantOf(op) == Some(g) :: Rank(op, f) <= Rank(op, e)
  {
    hide Valid, WindowSubset, AuthorityBelow;
    SameKeys(s);
    if ValidateEnvelope(s, g).Some? {
      assert GrantWrong(s, g, ValidateEnvelope(s, g).value);
    }
  }

  lemma RegisterDecided(s: State, x: Subject)
    requires Valid(s)
    ensures Decided(s, OpRegister(x), RegisterSubject(s, x).1)
  {
    hide Valid;
    SameKeys(s);
  }

  lemma RootDecided(s: State, g: Grant)
    requires Valid(s)
    ensures Decided(s, OpIssueRoot(g), IssueRoot(s, g).1)
  {
    hide Valid, ValidateEnvelope, Issue, WindowSubset, AuthorityBelow;
    EnvelopeDecided(s, g);
    IssueDecided(s, g, None);
    assert GrantOf(OpIssueRoot(g)) == Some(g);
  }

  lemma NamedRootDecided(s: State, id: CapId, g: Grant)
    requires Valid(s)
    ensures Decided(s, OpIssueRootWithId(id, g), IssueRootWithId(s, id, g).1)
  {
    hide Valid, ValidateEnvelope, WindowSubset, AuthorityBelow, IssueWithId;
    SameKeys(s);
    EnvelopeDecided(s, g);
    IssueWithIdAccepts(s, g, id);
    assert GrantOf(OpIssueRootWithId(id, g)) == Some(g);
    if ValidateEnvelope(s, g).None? {
      NamedRootAnswer(s, id, g);
    }
  }

  lemma NamedRootAnswer(s: State, id: CapId, g: Grant)
    requires Valid(s) && ValidateEnvelope(s, g).None?
    ensures var r := IssueRootWithId(s, id, g).1;
            && (r.Rejected? <==> |id| == 0 || id in s.caps || |s.caps| >= 1_048_576)
            && (r.Rejected? ==> r.error == if |id| == 0 then InvalidCapabilityId(id)
                                           else if id in s.caps then CapabilityIdAlreadyIssued(id) else CapabilityCountExceeded)
  {
    SameKeys(s);
    hide Valid, ValidateEnvelope;
    assert |s.issued| == |s.caps|;
  }

  /** The checks on the parent, in order and with their meaning. */
  lemma ParentDecided(s: State, caller: SubjectId, p: CapId, g: Grant, now: u64)
    requires Valid(s)
    ensures ParentFault(s, caller, p, g, now).None? <==> forall e :: !ParentWrong(s, caller, p, g, now, e)
    ensures ParentFault(s, caller, p, g, now).Some? ==>
              var f := ParentFault(s, caller, p, g, now).value;
              && ParentWrong(s, caller, p, g, now, f)
              && Rank(OpDerive(caller, p, g, now), f) <= 15
              && forall e :: ParentWrong(s, caller, p, g, now, e) ==> Rank(OpDerive(caller, p, g, now), f) <= Rank(OpDerive(caller, p, g, now), e)
  {
    hide Valid, Active, Depth, WindowSubset, AuthorityBelow, Cut, Shallow;
    HeldMeans(s, caller, p);
    if p in s.caps {
      ActiveMeans(s, p, now);
      DepthMeans(s, p);
    }
    var f := ParentFault(s, caller, p, g, now);
    if f.Some? {
      assert ParentWrong(s, caller, p, g, now, f.value);
    }
  }

  lemma DeriveDecided(s: State, caller: SubjectId, p: CapId, g: Grant, now: u64)
    requires Valid(s)
    ensures Decided(s, OpDerive(caller, p, g, now), Derive(s, caller, p, g, now).1)
  {
    hide Valid, ParentFault, ParentWrong, ValidateEnvelope, Issue, WindowSubset, AuthorityBelow;
    var op := OpDerive(caller, p, g, now);
    ParentDecided(s, caller, p, g, now);
    EnvelopeDecided(s, g);
    IssueDecided(s, g, Some(p));
    assert GrantOf(op) == Some(g);
    forall e | GrantWrong(s, g, e) ensures ParentWrong(s, caller, p, g, now, e) || 20 <= Rank(op, e) {
      LateGrant(s, caller, p, g, now, e);
    }
  }

  /** A fault of the holder counts early only when the holder is the caller. */
  lemma LateGrant(s: State, caller: SubjectId, p: CapId, g: Grant, now: u64, e: StateError)
    requires GrantWrong(s, g, e)
    ensures ParentWrong(s, caller, p, g, now, e) || 20 <= Rank(OpDerive(caller, p, g, now), e)
  {
    hide LinkWrong, WindowSubset, AuthorityBelow;
  }

  lemma ClosingDecided(s: State, x: SubjectId)
    requires Valid(s)
    ensures Decided(s, OpBeginClose(x), BeginClose(s, x).1)
    ensures Decided(s, OpFinishClose(x), FinishClose(s, x).1)
  {
    hide Valid, OwnsOpenHandle;
    EpochBound(s);
  }

  lemma RevokeDecided(s: State, caller: SubjectId, c: CapId)
    requires Valid(s)
    ensures Decided(s, OpRevoke(c), Revoke(s, c).1)
    ensures Decided(s, OpRevokeHeldBy(caller, c), RevokeHeldBy(s, caller, c).1)
  {
    hide Valid;
    EpochBound(s);
  }

  lemma HandlesDecided(s: State, h: OpenHandle, caller: SubjectId, id: HandleId)
    ensures Decided(s, OpOpenHandle(h), RegisterHandle(s, h).1)
    ensures Decided(s, OpCloseHandle(caller, id), CloseHandle(s, caller, id).1)
  {
  }

  /**
   In a valid state every transition is rejected exactly when one of the
   listed reasons holds, and the reason it reports is the first of them.
   */
  lemma Decisions(s: State, op: Op)
    requires Valid(s)
    ensures Decided(s, op, Apply(s, op).1)
  {
    hide Valid, Decided, RegisterSubject, IssueRoot, IssueRootWithId, Derive, BeginClose, FinishClose, RegisterHandle, CloseHandle, Revoke, RevokeHeldBy;
    match op
    case OpRegister(x) => RegisterDecided(s, x);
    case OpIssueRoot(g) => RootDecided(s, g);
    case OpIssueRootWithId(id, g) => NamedRootDecided(s, id, g);
    case OpDerive(caller, p, g, now) => DeriveDecided(s, caller, p, g, now);
    case OpRevoke(c) => RevokeDecided(s, [], c);
    case OpRevokeHeldBy(caller, c) => RevokeDecided(s, caller, c);
    case OpBeginClose(x) => ClosingDecided(s, x);
    case OpFinishClose(x) => ClosingDecided(s, x);
    case OpOpenHandle(h) => HandlesDecided(s, h, [], []);
    case OpCloseHandle(caller, h) => HandlesDecided(s, OpenHandle([], [], []), caller, h);
  }

  /**
   A derivation is issued if and only if the caller runs and holds the parent,
   the parent is in its window, not cut off, delegable and no weaker, fewer
   than 64 nodes lie between it and its root, the new holder runs with the
   grant inside its envelope, and capabilities are left to issue.
   */
  lemma DeriveAccepted(s: State, caller: SubjectId, p: CapId, g: Grant, now: u64)
    requires Valid(s)
    ensures Derive(s, caller, p, g, now).1.Issued? <==>
            && IsRunning(s, caller) && IsHeldBy(s, caller, p) && p in s.caps
            && InWindow(s.caps[p].validity, now) && !Cut(s, p) && s.caps[p].delegable
            && WindowSubset(g.validity, s.caps[p].validity) && AuthorityBelow(g.authority, s.caps[p].authority)
            && Shallow(s, p)
            && IsRunning(s, g.subject) && g.subject in s.subjects
            && WindowSubset(g.validity, s.subjects[g.subject].envelope.validity)
            && AuthorityBelow(g.authority, s.subjects[g.subject].envelope.authority)
            && |s.caps| < 1_048_576
  {
    HeldMeans(s, caller, p);
    SameKeys(s);
    IssueDecided(s, g, Some(p));
    IssueAnswers(s, g, Some(p));
    if p in s.caps {
      ActiveMeans(s, p, now);
      DepthMeans(s, p);
    }
    hide Valid, Active, Depth, Issue, WindowSubset, AuthorityBelow, Cut, Shallow;
  }

  lemma IssueAnswers(s: State, g: Grant, parent: Option<CapId>)
    ensures !Issue(s, g, parent).1.Rejected? ==> Issue(s, g, parent).1.Issued?
  {
    hide Probe, SeqId;
  }

  /** What an accepted transition answers, from the state it met. */
  predicate Answers(s: State, op: Op, r: Outcome) {
    match op
    case OpRegister(_) => r == Registered
    case OpRevoke(c) => r == if c in s.revoked then AlreadyRevoked else NewlyRevoked
    case OpRevokeHeldBy(_, c) => r == if c in s.revoked then AlreadyRevoked else NewlyRevoked
    case OpBeginClose(x) =>
      x in s.statuses && r == (match s.statuses[x] case Running => CloseStarted case Closing => AlreadyClosing case Closed => AlreadyClosed)
    case OpFinishClose(x) => x in s.statuses && r == if s.statuses[x] == Closed then AlreadyClosed else CloseFinished
    case OpOpenHandle(_) => r == HandleOpened
    case OpCloseHandle(_, h) => r == if h in s.handles then HandleClosed else HandleAlreadyClosed
    case _ => r.Issued?
  }

  // ----- what a transition touches -----------------------------------------

  /** The subjects that used to run and no longer do. */
  function NewlyStopped(before: map<SubjectId, Status>, after: map<SubjectId, Status>): set<SubjectId> {
    set x | x in before && x in after && before[x] == Running && after[x] != Running
  }

  /** Only its own lifecycle call moves a subject, one stage at a time. */
  ghost predicate StatusesMove(before: map<SubjectId, Status>, after: map<SubjectId, Status>, op: Op) {
    && (forall x :: x in before ==> x in after)
    && forall x :: x in after && (x !in before || after[x] != before[x]) ==>
         || (op.OpRegister? && op.x.id == x && x !in before && after[x] == Running)
         || (op.OpBeginClose? && op.subject == x && x in before && before[x] == Running && after[x] == Closing)
         || (op.OpFinishClose? && op.subject == x && x in before && before[x] == Closing && after[x] == Closed)
  }

  /** A handle appears only by opening it and disappears only by its owner closing it; no handle changes. */
  ghost predicate HandlesMove(before: map<HandleId, OpenHandle>, after: map<HandleId, OpenHandle>, op: Op) {
    && (forall h :: h in after && h !in before ==> op.OpOpenHandle? && op.h.id == h && after[h] == op.h)
    && (forall h :: h in before && h !in after ==> op.OpCloseHandle? && op.handle == h && op.caller == before[h].subject)
    && (forall h :: h in before && h in after ==> after[h] == before[h])
  }

  /** Every handle identity, open or not, keeps its owner; a new one is the handle just opened. */
  ghost predicate OwnersMove(before: map<HandleId, SubjectId>, after: map<HandleId, SubjectId>, op: Op) {
    && Extends(before, after)
    && (forall h :: h in after && h !in before ==> op.OpOpenHandle? && op.h.id == h && after[h] == op.h.subject)
  }

  ghost predicate SubjectsMove(before: map<SubjectId, Subject>, after: map<SubjectId, Subject>, op: Op) {
    && Extends(before, after)
    && (forall x :: x in after && x !in before ==> op.OpRegister? && op.x.id == x && after[x] == op.x)
  }

  /** The epoch moves by one, exactly when something was revoked or someone stopped running. */
  ghost predicate EpochMoves(s: State, t: State, r: Outcome) {
    && t.epoch == s.epoch + (if r.NewlyRevoked? || r.CloseStarted? then 1 else 0)
    && (t.epoch != s.epoch <==> t.revoked != s.revoked || NewlyStopped(s.statuses, t.statuses) != {})
  }

  ghost predicate Touches(s: State, op: Op, t: State, r: Outcome) {
    && StatusesMove(s.statuses, t.statuses, op)
    && SubjectsMove(s.subjects, t.subjects, op)
    && HandlesMove(s.handles, t.handles, op)
    && OwnersMove(s.owners, t.owners, op)
    && EpochMoves(s, t, r)
  }

  lemma Still(s: State, op: Op)
    ensures StatusesMove(s.statuses, s.statuses, op) && SubjectsMove(s.subjects, s.subjects, op)
    ensures HandlesMove(s.handles, s.handles, op) && OwnersMove(s.owners, s.owners, op)
    ensures NewlyStopped(s.statuses, s.statuses) == {}
  {
  }

  /** Lifecycles, handles, revocations and epoch are as they were. */
  predicate SameElsewhere(s: State, t: State) {
    && t.statuses == s.statuses && t.subjects == s.subjects && t.handles == s.handles
    && t.owners == s.owners && t.revoked == s.revoked && t.epoch == s.epoch
  }

  lemma SameTouches(s: State, op: Op, t: State, r: Outcome)
    requires SameElsewhere(s, t) && !r.NewlyRevoked? && !r.CloseStarted?
    ensures Touches(s, op, t, r)
  {
    hide StatusesMove, SubjectsMove, HandlesMove, OwnersMove, NewlyStopped;
    Still(s, op);
  }

  lemma IssueKeeps(s: State, g: Grant, parent: Option<CapId>, id: CapId)
    ensures SameElsewhere(s, IssueWithId(s, g, parent, id).0) && IssueWithId(s, g, parent, id).1.Issued?
  {
  }

  lemma NumberedKeeps(s: State, g: Grant, parent: Option<CapId>)
    ensures SameElsewhere(s, Issue(s, g, parent).0)
    ensures var r := Issue(s, g, parent).1; !r.NewlyRevoked? && !r.CloseStarted?
  {
    hide Probe, SeqId, IssueWithId;
    if s.cursor.Some? && Probe(s.issuer, s.issued, s.cursor.value).Some? {
      var n := Probe(s.issuer, s.issued, s.cursor.value).value;
      IssueKeeps(s.(cursor := CheckedNext(n)), g, parent, SeqId(s.issuer, n));
    }
  }

  lemma IssueTouches(s: State, op: Op, g: Grant, parent: Option<CapId>, id: CapId)
    ensures Touches(s, op, Issue(s, g, parent).0, Issue(s, g, parent).1)
    ensures Touches(s, op, IssueWithId(s, g, parent, id).0, IssueWithId(s, g, parent, id).1)
  {
    hide Issue, IssueWithId, Touches, SameElsewhere;
    IssueKeeps(s, g, parent, id);
    NumberedKeeps(s, g, parent);
    SameTouches(s, op, Issue(s, g, parent).0, Issue(s, g, parent).1);
    SameTouches(s, op, IssueWithId(s, g, parent, id).0, IssueWithId(s, g, parent, id).1);
  }

  lemma RegisteredMoves(s: State, x: Subject)
    requires x.id !in s.subjects && x.id !in s.statuses
    ensures StatusesMove(s.statuses, s.statuses[x.id := Running], OpRegister(x))
    ensures SubjectsMove(s.subjects, s.subjects[x.id := x], OpRegister(x))
    ensures NewlyStopped(s.statuses, s.statuses[x.id := Running]) == {}
  {
  }

  lemma RegisterTouches(s: State, x: Subject)
    requires Valid(s) && !RegisterSubject(s, x).1.Rejected?
    ensures Touches(s, OpRegister(x), RegisterSubject(s, x).0, RegisterSubject(s, x).1)
  {
    SameKeys(s);
    var t := RegisterSubject(s, x).0;
    assert x.id !in s.subjects && x.id !in s.statuses;
    assert t.statuses == s.statuses[x.id := Running] && t.subjects == s.subjects[x.id := x];
    assert t.handles == s.handles && t.owners == s.owners && t.revoked == s.revoked && t.epoch == s.epoch;
    assert RegisterSubject(s, x).1 == Registered;
    hide Valid, StatusesMove, SubjectsMove, HandlesMove, OwnersMove, NewlyStopped, RegisterSubject;
    Still(s, OpRegister(x));
    RegisteredMoves(s, x);
  }

  lemma RevokeTouches(s: State, op: Op, c: CapId)
    requires RevokeExisting(s, c).1 == NewlyRevoked
    ensures Touches(s, op, RevokeExisting(s, c).0, NewlyRevoked)
  {
    hide StatusesMove, SubjectsMove, HandlesMove, OwnersMove, NewlyStopped;
    Still(s, op);
    var t := RevokeExisting(s, c).0;
    assert c in t.revoked && c !in s.revoked;
  }

  lemma ClosingMoves(s: State, x: SubjectId)
    requires IsRunning(s, x)
    ensures StatusesMove(s.statuses, s.statuses[x := Closing], OpBeginClose(x))
    ensures NewlyStopped(s.statuses, s.statuses[x := Closing]) != {}
  {
    assert x in NewlyStopped(s.statuses, s.statuses[x := Closing]);
  }

  lemma BeginCloseTouches(s: State, x: SubjectId)
    requires Valid(s)
    ensures Touches(s, OpBeginClose(x), BeginClose(s, x).0, BeginClose(s, x).1)
  {
    EpochBound(s);
    hide Valid, StatusesMove, SubjectsMove, HandlesMove, OwnersMove, NewlyStopped;
    Still(s, OpBeginClose(x));
    if IsRunning(s, x) {
      ClosingMoves(s, x);
    }
  }

  lemma ClosedMoves(s: State, x: SubjectId)
    requires x in s.statuses && s.statuses[x] == Closing
    ensures StatusesMove(s.statuses, s.statuses[x := Closed], OpFinishClose(x))
    ensures NewlyStopped(s.statuses, s.statuses[x := Closed]) == {}
  {
  }

  lemma FinishCloseTouches(s: State, x: SubjectId)
    ensures Touches(s, OpFinishClose(x), FinishClose(s, x).0, FinishClose(s, x).1)
  {
    hide OwnsOpenHandle, StatusesMove, SubjectsMove, HandlesMove, OwnersMove, NewlyStopped;
    Still(s, OpFinishClose(x));
    if x in s.statuses && s.statuses[x] == Closing {
      ClosedMoves(s, x);
    }
  }

  lemma OpenedMoves(s: State, h: OpenHandle)
    requires h.id !in s.owners && h.id !in s.handles
    ensures HandlesMove(s.handles, s.handles[h.id := h], OpOpenHandle(h))
    ensures OwnersMove(s.owners, s.owners[h.id := h.subject], OpOpenHandle(h))
  {
  }

  /** An open handle is owned by its subject. */
  lemma HandleOwned(s: State, id: HandleId)
    requires Valid(s)
    ensures id in s.handles ==> id in s.owners && s.owners[id] == s.handles[id].subject
  {
    hide Ids, Subjects, Holders, Forest, Narrowing, Envelopes, Lifecycle;
  }

  lemma OpenTouches(s: State, h: OpenHandle)
    requires Valid(s) && !RegisterHandle(s, h).1.Rejected?
    ensures Touches(s, OpOpenHandle(h), RegisterHandle(s, h).0, RegisterHandle(s, h).1)
  {
    hide Valid, StatusesMove, SubjectsMove, HandlesMove, OwnersMove, NewlyStopped;
    Still(s, OpOpenHandle(h));
    HandleOwned(s, h.id);
    OpenedMoves(s, h);
  }

  lemma CloseMoves(s: State, caller: SubjectId, id: HandleId)
    requires id in s.handles && s.handles[id].subject == caller
    ensures HandlesMove(s.handles, s.handles - {id}, OpCloseHandle(caller, id))
  {
  }

  lemma CloseTouches(s: State, caller: SubjectId, id: HandleId)
    requires Valid(s) && CloseHandle(s, caller, id).1 == HandleClosed
    ensures Touches(s, OpCloseHandle(caller, id), CloseHandle(s, caller, id).0, HandleClosed)
  {
    hide Valid, StatusesMove, SubjectsMove, HandlesMove, OwnersMove, NewlyStopped;
    Still(s, OpCloseHandle(caller, id));
    HandleOwned(s, id);
    CloseMoves(s, caller, id);
  }

  /** A transition answers from the state it met and touches only what it names; the epoch counts revocations and stops. */
  lemma Footprint(s: State, op: Op)
    requires Valid(s)
    ensures var (t, r) := Apply(s, op); Touches(s, op, t, r) && (!r.Rejected? ==> Answers(s, op, r))
  {
    AnswersExact(s, op);
    hide Valid, Touches, Answers, Apply;
    var (t, r) := Apply(s, op);
    if r.Rejected? {
      RejectedUnchanged(s, op);
      assert SameElsewhere(s, t);
      SameTouches(s, op, t, r);
    } else {
      AcceptedTouches(s, op);
    }
  }

  lemma AcceptedTouches(s: State, op: Op)
    requires Valid(s) && !Apply(s, op).1.Rejected?
    ensures Touches(s, op, Apply(s, op).0, Apply(s, op).1)
  {
    hide Valid, Touches, RegisterSubject, BeginClose, FinishClose, RegisterHandle, CloseHandle, RevokeExisting;
    hide ValidateEnvelope, ParentFault, Issue, IssueWithId, SameElsewhere, OwnsOpenHandle;
    match op
    case OpRegister(x) => RegisterTouches(s, x);
    case OpIssueRoot(g) => IssueTouches(s, op, g, None, []);
    case OpIssueRootWithId(id, g) => IssueTouches(s, op, g, None, id);
    case OpDerive(_, p, g, _) => IssueTouches(s, op, g, Some(p), []);
    case OpRevoke(c) => RevokedTouches(s, op, c);
    case OpRevokeHeldBy(_, c) => RevokedTouches(s, op, c);
    case OpBeginClose(x) => BeginCloseTouches(s, x);
    case OpFinishClose(x) => FinishCloseTouches(s, x);
    case OpOpenHandle(h) => OpenTouches(s, h);
    case OpCloseHandle(caller, h) => ClosedTouches(s, caller, h);
  }

  lemma RevokedTouches(s: State, op: Op, c: CapId)
    requires !RevokeExisting(s, c).1.Rejected?
    ensures Touches(s, op, RevokeExisting(s, c).0, RevokeExisting(s, c).1)
  {
    hide Touches;
    if c in s.revoked {
      SameTouches(s, op, s, AlreadyRevoked);
    } else {
      RevokeTouches(s, op, c);
    }
  }

  lemma ClosedTouches(s: State, caller: SubjectId, id: HandleId)
    requires Valid(s) && !CloseHandle(s, caller, id).1.Rejected?
    ensures Touches(s, OpCloseHandle(caller, id), CloseHandle(s, caller, id).0, CloseHandle(s, caller, id).1)
  {
    hide Valid, Touches;
    if id in s.handles {
      CloseTouches(s, caller, id);
    } else {
      SameTouches(s, OpCloseHandle(caller, id), s, HandleAlreadyClosed);
    }
  }

  lemma AnswersExact(s: State, op: Op)
    requires Valid(s)
    ensures !Apply(s, op).1.Rejected? ==> Answers(s, op, Apply(s, op).1)
  {
    hide Valid, ValidateEnvelope, ParentFault, Probe, OwnsOpenHandle;
  }

  /**
   In a valid state a capability authorizes a request exactly when it is the
   caller's own, its window holds at that time, neither it nor an ancestor was
   revoked, and its authority matches.
   */
  lemma AuthorizesExact(s: State, caller: SubjectId, c: CapId, r: CapabilityRequest)
    requires Valid(s)
    ensures Authorizes(s, caller, c, r) <==>
            && c in s.caps && s.caps[c].subject == caller
            && InWindow(s.caps[c].validity, r.time) && !Cut(s, c)
            && AuthorityMatches(s.caps[c].authority, r.authority)
  {
    HeldMeans(s, caller, c);
    SameKeys(s);
    if c in s.caps {
      ActiveMeans(s, c, r.time);
      UncutRuns(s, c);
    }
    hide Valid, Active, AuthorityMatches, Cut;
  }

  /** The holder of a capability that is not cut is running. */
  lemma UncutRuns(s: State, c: CapId)
    requires Valid(s) && c in s.caps
    ensures !Cut(s, c) ==> IsRunning(s, s.caps[c].subject)
  {
    var line := Ancestry(s, c);
    assert RootChain(s.caps, c, line) && line[0] == c;
    hide Ids, Forest, Narrowing, Envelopes, Handles, RootChain;
    assert c in s.revoked ==> Cut(s, c);
  }
}
