/** What every transition of the capability state keeps. */
module StateInvariant {
  import opened Bytes
  import opened Capability
  import opened State

  // ----- finite sets -------------------------------------------------------

  lemma {:induction false} CardinalityMonotone<T>(a: set<T>, b: set<T>)
    requires a <= b
    ensures |a| <= |b|
  {
    assert b == a + (b - a);
  }

  // ----- sequential identities ---------------------------------------------

  lemma {:induction false} DecimalInjective(m: nat, n: nat)
    requires Decimal(m) == Decimal(n)
    ensures m == n
  {
    var x, y := Decimal(m), Decimal(n);
    assert x[|x| - 1] == '0' as int + m % 10 && y[|y| - 1] == '0' as int + n % 10;
    if m >= 10 && n >= 10 {
      assert x[..|x| - 1] == Decimal(m / 10) && y[..|y| - 1] == Decimal(n / 10);
      DecimalInjective(m / 10, n / 10);
    }
  }

  lemma SeqIdInjective(issuer: IssuerId, m: nat, n: nat)
    requires SeqId(issuer, m) == SeqId(issuer, n)
    ensures m == n
  {
    var k := |issuer| + 1;
    assert SeqId(issuer, m)[k..] == Decimal(m) && SeqId(issuer, n)[k..] == Decimal(n);
    DecimalInjective(m, n);
  }

  /** The identities `issuer:0` to `issuer:(n-1)`. */
  function SeqIds(issuer: IssuerId, n: nat): set<CapId> {
    if n == 0 then {} else SeqIds(issuer, n - 1) + {SeqId(issuer, n - 1)}
  }

  lemma {:induction false} SeqIdsMembers(issuer: IssuerId, n: nat, id: CapId)
    ensures id in SeqIds(issuer, n) <==> exists k: nat :: k < n && id == SeqId(issuer, k)
  {
    if n > 0 {
      SeqIdsMembers(issuer, n - 1, id);
    }
  }

  lemma {:induction false} SeqIdsCount(issuer: IssuerId, n: nat)
    ensures |SeqIds(issuer, n)| == n
  {
    if n > 0 {
      SeqIdsCount(issuer, n - 1);
      SeqIdsMembers(issuer, n - 1, SeqId(issuer, n - 1));
      if SeqId(issuer, n - 1) in SeqIds(issuer, n - 1) {
        var k: nat :| k < n - 1 && SeqId(issuer, n - 1) == SeqId(issuer, k);
        SeqIdInjective(issuer, n - 1, k);
      }
    }
  }

  ghost predicate AllIssuedBelow(issuer: IssuerId, issued: set<CapId>, n: nat) {
    forall k: nat :: k < n ==> SeqId(issuer, k) in issued
  }

  /** By counting: a cursor below which everything is issued is at most the number issued. */
  lemma CursorBound(issuer: IssuerId, issued: set<CapId>, n: nat)
    requires AllIssuedBelow(issuer, issued, n)
    ensures n <= |issued|
  {
    SeqIdsCount(issuer, n);
    forall id | id in SeqIds(issuer, n)
      ensures id in issued
    {
      SeqIdsMembers(issuer, n, id);
    }
    CardinalityMonotone(SeqIds(issuer, n), issued);
  }

  /**
   The probe always finds a fresh number, at most `|issued|`: so it looks at no
   more than `|issued| + 1` candidates and never runs out of `u64` values.
   */
  lemma {:induction false} ProbeFinds(issuer: IssuerId, issued: set<CapId>, n: u64)
    requires AllIssuedBelow(issuer, issued, n)
    requires |issued| < MAX_CAPABILITIES
    ensures Probe(issuer, issued, n).Some?
    ensures var m := Probe(issuer, issued, n).value;
            n <= m <= |issued| && SeqId(issuer, m) !in issued && AllIssuedBelow(issuer, issued, m)
    decreases U64_COUNT - n
  {
    CursorBound(issuer, issued, n);
    if SeqId(issuer, n) in issued {
      assert AllIssuedBelow(issuer, issued, n + 1);
      CursorBound(issuer, issued, n + 1);
      ProbeFinds(issuer, issued, n + 1);
    }
  }

  // ----- chains ------------------------------------------------------------

  ghost predicate Extends<K, V>(m: map<K, V>, n: map<K, V>) {
    forall k :: k in m ==> k in n && n[k] == m[k]
  }

  /** The ancestor chain of `c`, if it reaches a root within `n` nodes. */
  function ChainOf(caps: map<CapId, Capability>, c: CapId, n: nat): Option<seq<CapId>>
    decreases n
  {
    if n == 0 || c !in caps then None
    else match caps[c].parent
      case None => Some([c])
      case Some(p) =>
        match ChainOf(caps, p, n - 1)
        case None => None
        case Some(rest) => Some([c] + rest)
  }

  lemma {:induction false} ChainOfRoot(caps: map<CapId, Capability>, c: CapId, n: nat)
    requires ChainOf(caps, c, n).Some?
    ensures var ch := ChainOf(caps, c, n).value; RootChain(caps, c, ch) && |ch| <= n
    decreases n
  {
    match caps[c].parent
    case None =>
    case Some(p) =>
      ChainOfRoot(caps, p, n - 1);
      var ch := ChainOf(caps, c, n).value;
      assert ch[1..] == ChainOf(caps, p, n - 1).value;
  }

  lemma {:induction false} RootChainOf(caps: map<CapId, Capability>, c: CapId, ch: seq<CapId>, n: nat)
    requires RootChain(caps, c, ch) && |ch| <= n
    ensures ChainOf(caps, c, n) == Some(ch)
    decreases n
  {
    assert |ch| == 1 ==> ch == [c];
    if |ch| > 1 {
      RootChainOf(caps, ch[1], ch[1..], n - 1);
      assert ch == [c] + ch[1..];
    }
  }

  lemma {:induction false} ChainExtends(caps: map<CapId, Capability>, more: map<CapId, Capability>, c: CapId, ch: seq<CapId>)
    requires RootChain(caps, c, ch) && Extends(caps, more)
    ensures RootChain(more, c, ch)
    decreases ch
  {
    if |ch| > 1 {
      ChainExtends(caps, more, ch[1], ch[1..]);
    }
  }

  /** The source's depth counter measures the chain. */
  lemma {:induction false} DepthOfChain(caps: map<CapId, Capability>, c: CapId, ch: seq<CapId>, limit: nat)
    requires RootChain(caps, c, ch)
    ensures Depth(caps, c, limit) == if |ch| <= limit then |ch| else limit
    decreases limit
  {
    if limit > 0 && |ch| > 1 {
      DepthOfChain(caps, ch[1], ch[1..], limit - 1);
    }
  }

  // ----- the invariant -----------------------------------------------------
  // Each clause names only the fields it reads, so a transition that leaves
  // those fields alone keeps the clause without further argument.

  ghost predicate Ids(issuer: IssuerId, cursor: Option<u64>, caps: map<CapId, Capability>, issued: set<CapId>) {
    && issued == caps.Keys
    && |issued| <= MAX_CAPABILITIES
    && (forall c :: c in caps ==> caps[c].id == c && caps[c].issuer == issuer)
    && cursor.Some?
    && AllIssuedBelow(issuer, issued, cursor.value)
  }

  ghost predicate Subjects(subjects: map<SubjectId, Subject>, statuses: map<SubjectId, Status>, held: map<SubjectId, set<CapId>>) {
    && subjects.Keys == statuses.Keys == held.Keys
    && |subjects| <= MAX_SUBJECTS
    && (forall x :: x in subjects ==> subjects[x].id == x)
  }

  ghost predicate Holders(caps: map<CapId, Capability>, held: map<SubjectId, set<CapId>>) {
    && (forall c :: c in caps ==> caps[c].subject in held && c in held[caps[c].subject])
    && (forall x, c :: x in held && c in held[x] ==> c in caps && caps[c].subject == x)
  }

  /** Parent links form a forest of bounded depth. */
  ghost predicate Forest(caps: map<CapId, Capability>) {
    forall c :: c in caps ==> ChainOf(caps, c, MAX_DELEGATION_DEPTH).Some?
  }

  /** Along every parent link authority only narrows. */
  ghost predicate Narrowing(caps: map<CapId, Capability>) {
    forall c, p :: c in caps && p in caps && caps[c].parent == Some(p) ==> WeakerThan(caps[c], caps[p])
  }

  ghost predicate Enveloped(subjects: map<SubjectId, Subject>, c: Capability) {
    c.subject in subjects && EnvelopeContains(subjects[c.subject].envelope, c.validity, c.authority)
  }

  ghost predicate Envelopes(subjects: map<SubjectId, Subject>, caps: map<CapId, Capability>) {
    forall c :: c in caps ==> Enveloped(subjects, caps[c])
  }

  function Stopped(statuses: map<SubjectId, Status>): set<SubjectId> {
    set x | x in statuses && !statuses[x].Running?
  }

  ghost predicate Lifecycle(statuses: map<SubjectId, Status>, caps: map<CapId, Capability>, held: map<SubjectId, set<CapId>>, revoked: set<CapId>, epoch: nat) {
    && revoked <= caps.Keys
    && (forall x :: x in Stopped(statuses) && x in held ==> held[x] <= revoked)
    && epoch <= |revoked| + |Stopped(statuses)|
  }

  ghost predicate Handles(statuses: map<SubjectId, Status>, handles: map<HandleId, OpenHandle>, owners: map<HandleId, SubjectId>) {
    && |owners| <= MAX_HANDLES
    && (forall h :: h in handles ==> h in owners && handles[h].id == h && owners[h] == handles[h].subject)
    && (forall h :: h in owners ==> owners[h] in statuses)
    && (forall h :: h in handles && handles[h].subject in statuses ==> !statuses[handles[h].subject].Closed?)
  }

  ghost predicate Valid(s: State) {
    && Ids(s.issuer, s.cursor, s.caps, s.issued)
    && Subjects(s.subjects, s.statuses, s.held)
    && Holders(s.caps, s.held)
    && Forest(s.caps)
    && Narrowing(s.caps)
    && Envelopes(s.subjects, s.caps)
    && Lifecycle(s.statuses, s.caps, s.held, s.revoked, s.epoch)
    && Handles(s.statuses, s.handles, s.owners)
  }

  lemma NewValid(issuer: IssuerId)
    ensures Valid(New(issuer))
  {
  }

  // ----- issuing -----------------------------------------------------------

  lemma IssueForest(caps: map<CapId, Capability>, id: CapId, c: Capability)
    requires Forest(caps) && id !in caps
    requires c.parent.Some? ==> c.parent.value in caps && Depth(caps, c.parent.value, MAX_DELEGATION_DEPTH + 1) < MAX_DELEGATION_DEPTH
    ensures Forest(caps[id := c])
  {
    var more := caps[id := c];
    forall d | d in more
      ensures ChainOf(more, d, MAX_DELEGATION_DEPTH).Some?
    {
      if d in caps {
        OldChain(caps, more, d);
      } else if c.parent.Some? {
        var p := c.parent.value;
        OldChain(caps, more, p);
        var ch := ChainOf(caps, p, MAX_DELEGATION_DEPTH).value;
        DepthOfChain(caps, p, ch, MAX_DELEGATION_DEPTH + 1);
        RootChainOf(more, p, ch, MAX_DELEGATION_DEPTH - 1);
      }
    }
  }

  /** Issuing more capabilities never changes an existing chain. */
  lemma OldChain(caps: map<CapId, Capability>, more: map<CapId, Capability>, c: CapId)
    requires Extends(caps, more) && ChainOf(caps, c, MAX_DELEGATION_DEPTH).Some?
    ensures ChainOf(more, c, MAX_DELEGATION_DEPTH) == ChainOf(caps, c, MAX_DELEGATION_DEPTH)
    ensures var ch := ChainOf(caps, c, MAX_DELEGATION_DEPTH).value;
            RootChain(caps, c, ch) && RootChain(more, c, ch) && |ch| <= MAX_DELEGATION_DEPTH
  {
    ChainOfRoot(caps, c, MAX_DELEGATION_DEPTH);
    var ch := ChainOf(caps, c, MAX_DELEGATION_DEPTH).value;
    ChainExtends(caps, more, c, ch);
    RootChainOf(more, c, ch, MAX_DELEGATION_DEPTH);
  }

  lemma IssueNarrowing(caps: map<CapId, Capability>, id: CapId, c: Capability)
    requires Forest(caps) && Narrowing(caps) && id !in caps
    requires c.parent.Some? ==> c.parent.value in caps && WeakerThan(c, caps[c.parent.value])
    ensures Narrowing(caps[id := c])
  {
    var more := caps[id := c];
    forall d, p | d in more && p in more && more[d].parent == Some(p)
      ensures WeakerThan(more[d], more[p])
    {
      if d in caps {
        ParentKnown(caps, d);
      }
    }
  }

  lemma ParentKnown(caps: map<CapId, Capability>, c: CapId)
    requires Forest(caps) && c in caps && caps[c].parent.Some?
    ensures caps[c].parent.value in caps
  {
    assert ChainOf(caps, c, MAX_DELEGATION_DEPTH).Some?;
    assert ChainOf(caps, caps[c].parent.value, MAX_DELEGATION_DEPTH - 1).Some?;
  }

  lemma IssueHolders(caps: map<CapId, Capability>, held: map<SubjectId, set<CapId>>, id: CapId, c: Capability)
    requires Holders(caps, held) && id !in caps && c.subject in held
    ensures Holders(caps[id := c], held[c.subject := held[c.subject] + {id}])
  {
  }

  lemma IssueEnvelopes(subjects: map<SubjectId, Subject>, caps: map<CapId, Capability>, id: CapId, c: Capability)
    requires Envelopes(subjects, caps) && Enveloped(subjects, c)
    ensures Envelopes(subjects, caps[id := c])
  {
    var more := caps[id := c];
    forall d | d in more
      ensures Enveloped(subjects, more[d])
    {
      if d != id {
        assert Enveloped(subjects, caps[d]);
      }
    }
  }

  lemma IssueLifecycle(s: State, x: SubjectId, id: CapId, c: Capability)
    requires Lifecycle(s.statuses, s.caps, s.held, s.revoked, s.epoch) && IsRunning(s, x) && x in s.held
    ensures Lifecycle(s.statuses, s.caps[id := c], s.held[x := s.held[x] + {id}], s.revoked, s.epoch)
  {
  }

  /** The conditions under which both `issue_root` and `derive` reach the issuing step. */
  ghost predicate GrantFits(s: State, g: Grant, parent: Option<CapId>) {
    && ValidateEnvelope(s, g).None?
    && (parent.Some? ==>
          && parent.value in s.caps
          && WindowSubset(g.validity, s.caps[parent.value].validity)
          && AuthorityBelow(g.authority, s.caps[parent.value].authority)
          && Depth(s.caps, parent.value, MAX_DELEGATION_DEPTH + 1) < MAX_DELEGATION_DEPTH)
  }

  lemma IssueIds(s: State, cursor: u64, id: CapId, c: Capability)
    requires Ids(s.issuer, s.cursor, s.caps, s.issued) && c.id == id && c.issuer == s.issuer
    requires id !in s.issued && |s.issued| < MAX_CAPABILITIES
    requires AllIssuedBelow(s.issuer, s.issued + {id}, cursor)
    ensures Ids(s.issuer, Some(cursor), s.caps[id := c], s.issued + {id})
  {
    hide SeqId, AllIssuedBelow;
  }

  /** Issuing under a fresh identity keeps the invariant. */
  lemma IssueWithIdValid(s: State, cursor: u64, g: Grant, parent: Option<CapId>, id: CapId)
    requires Valid(s) && GrantFits(s, g, parent)
    requires id !in s.issued && |s.issued| < MAX_CAPABILITIES
    requires AllIssuedBelow(s.issuer, s.issued + {id}, cursor)
    ensures Valid(IssueWithId(s.(cursor := Some(cursor)), g, parent, id).0)
  {
    hide Forest, Narrowing, Envelopes, Holders, Lifecycle, Handles, ChainOf, Depth, AllIssuedBelow;
    var c := Capability(id, g.subject, s.issuer, parent, g.delegable, g.validity, g.authority);
    IssueIds(s, cursor, id, c);
    IssueForest(s.caps, id, c);
    IssueNarrowing(s.caps, id, c);
    IssueHolders(s.caps, s.held, id, c);
    IssueLifecycle(s, g.subject, id, c);
    IssueEnvelopes(s.subjects, s.caps, id, c);
    assert s.held[g.subject := s.held[g.subject] + {id}].Keys == s.held.Keys;
  }

  /** Allocation never fails for want of identities, and its identity is new. */
  lemma IssueFresh(s: State, g: Grant, parent: Option<CapId>)
    requires Valid(s) && GrantFits(s, g, parent) && |s.issued| < MAX_CAPABILITIES
    ensures Issue(s, g, parent).1.Issued? && Issue(s, g, parent).1.id !in s.issued
    ensures Valid(Issue(s, g, parent).0)
  {
    hide Subjects, Holders, Forest, Narrowing, Envelopes, Lifecycle, Handles, GrantFits;
    ProbeFinds(s.issuer, s.issued, s.cursor.value);
    var n := Probe(s.issuer, s.issued, s.cursor.value).value;
    var id := SeqId(s.issuer, n);
    assert AllIssuedBelow(s.issuer, s.issued + {id}, n + 1);
    IssueWithIdValid(s, n + 1, g, parent, id);
  }

  // ----- each transition ---------------------------------------------------

  lemma RegisterEnvelopes(subjects: map<SubjectId, Subject>, caps: map<CapId, Capability>, x: Subject)
    requires Envelopes(subjects, caps) && x.id !in subjects
    ensures Envelopes(subjects[x.id := x], caps)
  {
    forall c | c in caps
      ensures Enveloped(subjects[x.id := x], caps[c])
    {
      assert Enveloped(subjects, caps[c]);
    }
  }

  lemma RegisterHolders(caps: map<CapId, Capability>, held: map<SubjectId, set<CapId>>, x: SubjectId)
    requires Holders(caps, held) && x !in held
    ensures Holders(caps, held[x := {}])
  {
  }

  lemma RegisterStatuses(s: State, x: Subject)
    requires Subjects(s.subjects, s.statuses, s.held) && x.id !in s.subjects && |s.subjects| < MAX_SUBJECTS
    requires Handles(s.statuses, s.handles, s.owners)
    ensures Subjects(s.subjects[x.id := x], s.statuses[x.id := Running], s.held[x.id := {}])
    ensures Handles(s.statuses[x.id := Running], s.handles, s.owners)
  {
    assert s.subjects[x.id := x].Keys == s.subjects.Keys + {x.id};
  }

  lemma RegisterLifecycle(s: State, x: SubjectId)
    requires Lifecycle(s.statuses, s.caps, s.held, s.revoked, s.epoch) && x !in s.statuses
    ensures Lifecycle(s.statuses[x := Running], s.caps, s.held[x := {}], s.revoked, s.epoch)
  {
    assert Stopped(s.statuses[x := Running]) == Stopped(s.statuses);
  }

  lemma RegisterValid(s: State, x: Subject)
    requires Valid(s)
    ensures Valid(RegisterSubject(s, x).0)
  {
    hide Ids, Holders, Forest, Narrowing, Envelopes, Lifecycle, Handles;
    if x.id !in s.subjects && |s.subjects| < MAX_SUBJECTS {
      RegisterStatuses(s, x);
      RegisterLifecycle(s, x.id);
      RegisterEnvelopes(s.subjects, s.caps, x);
      RegisterHolders(s.caps, s.held, x.id);
    }
  }

  /** The epoch counts revocations and shutdowns, so it can always advance. */
  lemma EpochBound(s: State)
    requires Valid(s)
    ensures s.epoch <= |s.revoked| + |Stopped(s.statuses)|
    ensures s.epoch <= MAX_CAPABILITIES + MAX_SUBJECTS
    ensures CheckedNext(s.epoch).Some?
  {
    hide Holders, Forest, Narrowing, Envelopes, Handles;
    CardinalityMonotone(s.revoked, s.caps.Keys);
    CardinalityMonotone(Stopped(s.statuses), s.statuses.Keys);
    assert |s.statuses.Keys| == |s.subjects.Keys|;
  }

  lemma RevokeValid(s: State, c: CapId)
    requires Valid(s) && c in s.caps
    ensures Valid(RevokeExisting(s, c).0)
    ensures !RevokeExisting(s, c).1.Rejected?
  {
    hide Ids, Subjects, Holders, Forest, Narrowing, Envelopes, Handles, Lifecycle;
    EpochBound(s);
    if c !in s.revoked {
      RevokeLifecycle(s.statuses, s.caps, s.held, s.revoked, s.epoch, c);
    }
  }

  lemma RevokeLifecycle(statuses: map<SubjectId, Status>, caps: map<CapId, Capability>, held: map<SubjectId, set<CapId>>, revoked: set<CapId>, epoch: nat, c: CapId)
    requires Lifecycle(statuses, caps, held, revoked, epoch) && c in caps && c !in revoked
    ensures Lifecycle(statuses, caps, held, revoked + {c}, epoch + 1)
  {
    hide Stopped;
    assert |revoked + {c}| == |revoked| + 1;
  }

  /** Stopping one more running subject makes the set of stopped subjects one larger. */
  lemma StopOne(statuses: map<SubjectId, Status>, x: SubjectId)
    requires x in statuses && statuses[x].Running?
    ensures Stopped(statuses[x := Closing]) == Stopped(statuses) + {x}
    ensures |Stopped(statuses[x := Closing])| == |Stopped(statuses)| + 1
  {
    assert Stopped(statuses[x := Closing]) == Stopped(statuses) + {x};
    assert x !in Stopped(statuses);
  }

  lemma CloseLifecycle(s: State, x: SubjectId)
    requires Lifecycle(s.statuses, s.caps, s.held, s.revoked, s.epoch) && Holders(s.caps, s.held)
    requires IsRunning(s, x) && x in s.held
    ensures Lifecycle(s.statuses[x := Closing], s.caps, s.held, s.revoked + s.held[x], s.epoch + 1)
  {
    assert s.held[x] <= s.caps.Keys;
    hide Holders, Stopped;
    StopOne(s.statuses, x);
    CardinalityMonotone(s.revoked, s.revoked + s.held[x]);
  }

  lemma BeginCloseValid(s: State, x: SubjectId)
    requires Valid(s)
    ensures Valid(BeginClose(s, x).0)
    ensures BeginClose(s, x).1.Rejected? ==> BeginClose(s, x).1.error == UnknownSubject(x)
  {
    hide Ids, Subjects, Holders, Forest, Narrowing, Envelopes, Lifecycle, Handles;
    EpochBound(s);
    if IsRunning(s, x) {
      ClosingStatus(s.subjects, s.statuses, s.held, s.handles, s.owners, x);
      CloseLifecycle(s, x);
      assert BeginClose(s, x) == (s.(revoked := s.revoked + s.held[x], statuses := s.statuses[x := Closing], epoch := s.epoch + 1), CloseStarted);
    }
  }

  lemma ClosingStatus(subjects: map<SubjectId, Subject>, statuses: map<SubjectId, Status>, held: map<SubjectId, set<CapId>>,
                      handles: map<HandleId, OpenHandle>, owners: map<HandleId, SubjectId>, x: SubjectId)
    requires Subjects(subjects, statuses, held) && Handles(statuses, handles, owners) && x in statuses
    ensures x in held
    ensures Subjects(subjects, statuses[x := Closing], held) && Handles(statuses[x := Closing], handles, owners)
  {
    assert statuses[x := Closing].Keys == statuses.Keys;
  }

  lemma FinishStatuses(s: State, x: SubjectId)
    requires Subjects(s.subjects, s.statuses, s.held)
    requires Lifecycle(s.statuses, s.caps, s.held, s.revoked, s.epoch)
    requires Handles(s.statuses, s.handles, s.owners)
    requires x in s.statuses && s.statuses[x].Closing? && !OwnsOpenHandle(s, x)
    ensures Subjects(s.subjects, s.statuses[x := Closed], s.held)
    ensures Lifecycle(s.statuses[x := Closed], s.caps, s.held, s.revoked, s.epoch)
    ensures Handles(s.statuses[x := Closed], s.handles, s.owners)
  {
    assert s.statuses[x := Closed].Keys == s.statuses.Keys;
    assert Stopped(s.statuses[x := Closed]) == Stopped(s.statuses);
  }

  lemma FinishCloseValid(s: State, x: SubjectId)
    requires Valid(s)
    ensures Valid(FinishClose(s, x).0)
  {
    hide Ids, Subjects, Holders, Forest, Narrowing, Envelopes, Lifecycle, Handles, OwnsOpenHandle;
    if x in s.statuses && s.statuses[x].Closing? && !OwnsOpenHandle(s, x) {
      FinishStatuses(s, x);
    }
  }

  lemma OpenHandles(statuses: map<SubjectId, Status>, handles: map<HandleId, OpenHandle>, owners: map<HandleId, SubjectId>, h: OpenHandle)
    requires Handles(statuses, handles, owners) && h.id !in owners && |owners| < MAX_HANDLES
    requires h.subject in statuses && statuses[h.subject].Running?
    ensures Handles(statuses, handles[h.id := h], owners[h.id := h.subject])
  {
    var hs, os := handles[h.id := h], owners[h.id := h.subject];
    assert os.Keys == owners.Keys + {h.id};
    forall k | k in hs
      ensures k in os && hs[k].id == k && os[k] == hs[k].subject
      ensures hs[k].subject in statuses ==> !statuses[hs[k].subject].Closed?
    {
      assert k == h.id || k in handles;
    }
    forall k | k in os ensures os[k] in statuses {
      assert k == h.id || k in owners;
    }
  }

  lemma OpenHandleValid(s: State, h: OpenHandle)
    requires Valid(s)
    ensures Valid(RegisterHandle(s, h).0)
  {
    hide Ids, Subjects, Holders, Forest, Narrowing, Envelopes, Lifecycle, Handles;
    if RegisterHandle(s, h).1.HandleOpened? {
      OpenHandles(s.statuses, s.handles, s.owners, h);
    }
  }

  lemma CloseHandleValid(s: State, caller: SubjectId, h: HandleId)
    requires Valid(s)
    ensures Valid(CloseHandle(s, caller, h).0)
  {
    hide Ids, Subjects, Holders, Forest, Narrowing, Envelopes, Lifecycle;
  }

  lemma IssueRootValid(s: State, g: Grant)
    requires Valid(s)
    ensures Valid(IssueRoot(s, g).0)
  {
    hide Valid;
    if ValidateEnvelope(s, g).None? && |s.issued| < MAX_CAPABILITIES {
      IssueFresh(s, g, None);
    }
  }

  lemma IssueRootWithIdValid(s: State, id: CapId, g: Grant)
    requires Valid(s)
    ensures Valid(IssueRootWithId(s, id, g).0)
  {
    hide Subjects, Holders, Forest, Narrowing, Envelopes, Lifecycle, Handles;
    if ValidateEnvelope(s, g).None? && id !in s.issued && |s.issued| < MAX_CAPABILITIES {
      IssueWithIdValid(s, s.cursor.value, g, None, id);
      assert s.(cursor := Some(s.cursor.value)) == s;
    }
  }

  lemma DeriveValid(s: State, caller: SubjectId, p: CapId, g: Grant, now: u64)
    requires Valid(s)
    ensures Valid(Derive(s, caller, p, g, now).0)
  {
    hide Valid;
    if ParentFault(s, caller, p, g, now).None? && ValidateEnvelope(s, g).None? && |s.issued| < MAX_CAPABILITIES {
      IssueFresh(s, g, Some(p));
    }
  }

  /** Every transition, accepted or rejected, keeps the invariant. */
  lemma ApplyValid(s: State, op: Op)
    requires Valid(s)
    ensures Valid(Apply(s, op).0)
  {
    hide Valid, RegisterSubject, IssueRoot, IssueRootWithId, Derive, BeginClose, FinishClose, RegisterHandle, CloseHandle;
    match op
    case OpRegister(x) => RegisterValid(s, x);
    case OpIssueRoot(g) => IssueRootValid(s, g);
    case OpIssueRootWithId(id, g) => IssueRootWithIdValid(s, id, g);
    case OpDerive(caller, p, g, now) => DeriveValid(s, caller, p, g, now);
    case OpRevoke(c) => if c in s.caps { RevokeValid(s, c); }
    case OpRevokeHeldBy(caller, c) => if c in s.caps { RevokeValid(s, c); }
    case OpBeginClose(x) => BeginCloseValid(s, x);
    case OpFinishClose(x) => FinishCloseValid(s, x);
    case OpOpenHandle(h) => OpenHandleValid(s, h);
    case OpCloseHandle(caller, h) => CloseHandleValid(s, caller, h);
  }

  /** Every state of every run is valid. */
  lemma {:induction false} RunValid(s: State, ops: seq<Op>)
    requires Valid(s)
    ensures Valid(Run(s, ops))
    decreases ops
  {
    hide Valid;
    if ops != [] {
      ApplyValid(s, ops[0]);
      RunValid(Apply(s, ops[0]).0, ops[1..]);
    }
  }
}
