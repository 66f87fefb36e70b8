/** Time windows, capability envelopes and delegation (`time.rs`, `capability.rs`). */
module Capability {
  import opened Bytes
  import opened Patterns
  import opened Path
  import opened File
  import opened Http
  import opened Github
  import Bits

  const MAX_REQUESTS_PER_EFFECT := 16

  type CapId = Str
  type SubjectId = Str
  type IssuerId = Str

  // ----- time --------------------------------------------------------------

  /** A half-open interval `[notBefore, expiresAt)`. */
  datatype TimeWindow = TimeWindow(notBefore: u64, expiresAt: u64)

  function NewWindow(notBefore: u64, expiresAt: u64): Option<TimeWindow> {
    if notBefore < expiresAt then Some(TimeWindow(notBefore, expiresAt)) else None
  }

  predicate ValidWindow(w: TimeWindow) {
    w.notBefore < w.expiresAt
  }

  /** A window is constructed exactly when it contains some instant. */
  lemma NewWindowExact(notBefore: u64, expiresAt: u64)
    ensures NewWindow(notBefore, expiresAt).Some? <==> exists t: u64 :: InWindow(TimeWindow(notBefore, expiresAt), t)
    ensures NewWindow(notBefore, expiresAt).Some? ==> ValidWindow(NewWindow(notBefore, expiresAt).value)
  {
    if notBefore < expiresAt {
      assert InWindow(TimeWindow(notBefore, expiresAt), notBefore);
    }
  }

  predicate InWindow(w: TimeWindow, t: u64) {
    w.notBefore <= t < w.expiresAt
  }

  predicate WindowSubset(child: TimeWindow, parent: TimeWindow) {
    parent.notBefore <= child.notBefore && child.expiresAt <= parent.expiresAt
  }

  /** Comparing bounds is comparing the sets of instants. */
  lemma WindowSubsetExact(child: TimeWindow, parent: TimeWindow)
    requires ValidWindow(child)
    ensures WindowSubset(child, parent) <==> forall t: u64 :: InWindow(child, t) ==> InWindow(parent, t)
  {
    assert InWindow(child, child.notBefore) && InWindow(child, child.expiresAt - 1);
  }

  // ----- typed authority ---------------------------------------------------

  datatype AuthorityBody =
    | FileBody(file: FileAuthority)
    | HttpBody(http: HttpAuthority)
    | GitHubBody(github: GitHubAuthority)

  datatype AuthorityRequest =
    | FileAction(file: FileRequest)
    | HttpAction(http: HttpRequest)
    | GitHubAction(github: GitHubRequest)

  predicate AuthorityMatches(a: AuthorityBody, r: AuthorityRequest) {
    match (a, r)
    case (FileBody(x), FileAction(y)) => FileMatches(x, y)
    case (HttpBody(x), HttpAction(y)) => HttpMatches(x, y)
    case (GitHubBody(x), GitHubAction(y)) => GitHubMatches(x, y)
    case _ => false
  }

  predicate AuthorityBelow(child: AuthorityBody, parent: AuthorityBody) {
    match (child, parent)
    case (FileBody(x), FileBody(y)) => FileBelow(x, y)
    case (HttpBody(x), HttpBody(y)) => HttpBelow(x, y)
    case (GitHubBody(x), GitHubBody(y)) => GitHubBelow(x, y)
    case _ => false
  }

  datatype Capability = Capability(
    id: CapId,
    subject: SubjectId,
    issuer: IssuerId,
    parent: Option<CapId>,
    delegable: bool,
    validity: TimeWindow,
    authority: AuthorityBody)

  datatype CapabilityRequest = CapabilityRequest(time: u64, authority: AuthorityRequest)

  predicate CapabilityMatches(c: Capability, r: CapabilityRequest) {
    InWindow(c.validity, r.time) && AuthorityMatches(c.authority, r.authority)
  }

  predicate WeakerThan(child: Capability, parent: Capability) {
    WindowSubset(child.validity, parent.validity) && AuthorityBelow(child.authority, parent.authority)
  }

  // ----- delegation safety -------------------------------------------------

  lemma BitsetSound(a: nat, b: nat, tag: nat, w: nat)
    requires Bits.Subset(a, b, w) && Bits.Has(a, tag, w) && tag < w
    ensures Bits.Has(b, tag, w)
  {
    var k := tag;
    Bits.MaskTest(a, k, w);
    Bits.MaskTest(b, k, w);
    Bits.BitwiseBit(Bits.AndNotTable, a, b, w, k);
    Bits.ZeroBits(k);
  }

  lemma BranchPairSound(child: GitHubAuthority, parent: GitHubAuthority, r: GitHubRequest)
    requires GitHubBelow(child, parent) && GitHubMatches(child, r)
    ensures GitHubMatches(parent, r)
  {
    BitsetSound(child.operations, parent.operations, OperationTag(r.operation), 8);
    BelowSound(child.base, parent.base, r.base);
    BelowSound(child.head, parent.head, r.head);
  }

  /** A structurally smaller body never permits a request its parent refuses. */
  lemma AuthorityBelowSound(child: AuthorityBody, parent: AuthorityBody, r: AuthorityRequest)
    requires AuthorityBelow(child, parent) && AuthorityMatches(child, r)
    ensures AuthorityMatches(parent, r)
  {
    match r
    case FileAction(y) =>
      BitsetSound(child.file.effects, parent.file.effects, Tag(y.effect), 16);
      BelowSound(child.file.path, parent.file.path, y.path);
    case HttpAction(y) =>
      BitsetSound(child.http.methods, parent.http.methods, MethodTag(y.verb), 8);
      BelowSound(child.http.path, parent.http.path, y.path);
    case GitHubAction(y) =>
      BranchPairSound(child.github, parent.github, y);
  }

  lemma WeakerThanSound(child: Capability, parent: Capability, r: CapabilityRequest)
    requires WeakerThan(child, parent) && CapabilityMatches(child, r)
    ensures CapabilityMatches(parent, r)
  {
    AuthorityBelowSound(child.authority, parent.authority, r.authority);
  }

  // ----- delegation completeness -------------------------------------------

  predicate ValidAuthority(a: AuthorityBody, isIp: Str -> bool) {
    match a
    case FileBody(x) => ValidFileAuthority(x)
    case HttpBody(x) => ValidHttpAuthority(x, isIp)
    case GitHubBody(x) => ValidGitHubAuthority(x)
  }

  /** The requests whose typed fields the constructors accept. */
  predicate ValidAction(r: AuthorityRequest, isIp: Str -> bool) {
    match r
    case FileAction(y) => ValidPath(y.path)
    case HttpAction(y) => ValidHttpRequest(y, isIp)
    case GitHubAction(y) => ValidGitHubRequest(y)
  }

  /** A body whose effect, method or operation set is empty permits nothing. */
  predicate Inert(a: AuthorityBody) {
    match a
    case FileBody(x) => x.effects == 0
    case HttpBody(x) => x.methods == 0
    case GitHubBody(x) => x.operations == 0
  }

  /** The body with every dead-end prefix read as exact. */
  function Tight(a: AuthorityBody): AuthorityBody {
    match a
    case FileBody(x) => FileBody(TightFile(x))
    case HttpBody(x) => HttpBody(TightHttp(x))
    case GitHubBody(x) => GitHubBody(TightGitHub(x))
  }

  ghost predicate BodyContained(child: AuthorityBody, parent: AuthorityBody, isIp: Str -> bool) {
    forall r :: ValidAction(r, isIp) && AuthorityMatches(child, r) ==> AuthorityMatches(parent, r)
  }

  /** A request that a body with a non-empty operation set permits. */
  lemma LiveBodyPermits(a: AuthorityBody, isIp: Str -> bool) returns (r: AuthorityRequest)
    requires ValidAuthority(a, isIp) && !Inert(a)
    ensures ValidAction(r, isIp) && AuthorityMatches(a, r)
  {
    hide HasEffect, HasMethod, HasOperation, ValidPath, ValidHost, ValidUrl, ValidBranch;
    match a
    case FileBody(x) =>
      EffectsSubsetExact(x.effects, 0);
      var e :| HasEffect(x.effects, e);
      r := FileAction(FileRequest(x.repository, e, x.path.name));
    case HttpBody(x) =>
      MethodsSubsetExact(x.methods, 0);
      var m := if HasMethod(x.methods, Get) then Get else Head;
      r := HttpAction(HttpRequest(m, x.host, x.path.name, x.maxBytes));
    case GitHubBody(x) =>
      OperationsSubsetExact(x.operations, 0);
      var o := if HasOperation(x.operations, PublishBranch) then PublishBranch else CreatePullRequest;
      r := GitHubAction(GitHubRequest(x.installation, x.repository, o, x.base.name, x.head.name));
  }

  lemma InertPermitsNothing(a: AuthorityBody, isIp: Str -> bool, r: AuthorityRequest)
    requires ValidAuthority(a, isIp) && Inert(a)
    ensures !AuthorityMatches(a, r)
  {
    match a
    case FileBody(x) => EffectsSubsetExact(x.effects, 0);
    case HttpBody(x) => MethodsSubsetExact(x.methods, 0);
    case GitHubBody(x) => OperationsSubsetExact(x.operations, 0);
  }

  lemma FileLift(x: FileAuthority, y: FileAuthority, isIp: Str -> bool)
    ensures FileContained(x, y) <==> BodyContained(FileBody(x), FileBody(y), isIp)
  {
    if BodyContained(FileBody(x), FileBody(y), isIp) {
      forall r: FileRequest | ValidPath(r.path) && FileMatches(x, r)
        ensures FileMatches(y, r)
      {
        assert AuthorityMatches(FileBody(y), FileAction(r));
      }
    } else {
      var r :| ValidAction(r, isIp) && AuthorityMatches(FileBody(x), r) && !AuthorityMatches(FileBody(y), r);
      assert r.FileAction? && !FileMatches(y, r.file);
    }
  }

  lemma HttpLift(x: HttpAuthority, y: HttpAuthority, isIp: Str -> bool)
    ensures HttpContained(x, y, isIp) <==> BodyContained(HttpBody(x), HttpBody(y), isIp)
  {
    if BodyContained(HttpBody(x), HttpBody(y), isIp) {
      forall r: HttpRequest | ValidHttpRequest(r, isIp) && HttpMatches(x, r)
        ensures HttpMatches(y, r)
      {
        assert AuthorityMatches(HttpBody(y), HttpAction(r));
      }
    } else {
      var r :| ValidAction(r, isIp) && AuthorityMatches(HttpBody(x), r) && !AuthorityMatches(HttpBody(y), r);
      assert r.HttpAction? && !HttpMatches(y, r.http);
    }
  }

  lemma GitHubLift(x: GitHubAuthority, y: GitHubAuthority, isIp: Str -> bool)
    ensures GitHubContained(x, y) <==> BodyContained(GitHubBody(x), GitHubBody(y), isIp)
  {
    if BodyContained(GitHubBody(x), GitHubBody(y), isIp) {
      forall r: GitHubRequest | ValidGitHubRequest(r) && GitHubMatches(x, r)
        ensures GitHubMatches(y, r)
      {
        assert AuthorityMatches(GitHubBody(y), GitHubAction(r));
      }
    } else {
      var r :| ValidAction(r, isIp) && AuthorityMatches(GitHubBody(x), r) && !AuthorityMatches(GitHubBody(y), r);
      assert r.GitHubAction? && !GitHubMatches(y, r.github);
    }
  }

  /** The contained children `authority_body_below` refuses; across families, every body that permits nothing. */
  predicate BodyGap(child: AuthorityBody, parent: AuthorityBody) {
    match (child, parent)
    case (FileBody(x), FileBody(y)) => FileGap(x, y)
    case (HttpBody(x), HttpBody(y)) => HttpGap(x, y)
    case (GitHubBody(x), GitHubBody(y)) => GitHubGap(x, y)
    case _ => Inert(child)
  }

  /** `authority_body_below` decides containment, for every family and across families, save for the gap. */
  lemma AuthorityBelowExact(child: AuthorityBody, parent: AuthorityBody, isIp: Str -> bool)
    requires ValidAuthority(child, isIp) && ValidAuthority(parent, isIp)
    ensures AuthorityBelow(child, parent) <==> BodyContained(child, parent, isIp) && !BodyGap(child, parent)
    ensures BodyContained(child, parent, isIp) <==> Inert(child) || AuthorityBelow(Tight(child), parent)
  {
    match (child, parent)
    case (FileBody(x), FileBody(y)) =>
      FileBelowExact(x, y);
      FileLift(x, y, isIp);
    case (HttpBody(x), HttpBody(y)) =>
      HttpBelowExact(x, y, isIp);
      HttpLift(x, y, isIp);
    case (GitHubBody(x), GitHubBody(y)) =>
      GitHubBelowExact(x, y);
      GitHubLift(x, y, isIp);
    case _ => CrossFamily(child, parent, isIp);
  }

  lemma CrossFamily(child: AuthorityBody, parent: AuthorityBody, isIp: Str -> bool)
    requires ValidAuthority(child, isIp)
    requires child.FileBody? != parent.FileBody? || child.HttpBody? != parent.HttpBody?
    ensures BodyContained(child, parent, isIp) <==> Inert(child)
  {
    if !Inert(child) {
      var r := LiveBodyPermits(child, isIp);
      assert !AuthorityMatches(parent, r);
    } else {
      forall r
        ensures !AuthorityMatches(child, r)
      {
        InertPermitsNothing(child, isIp, r);
      }
    }
  }

  ghost predicate CapabilityContained(child: Capability, parent: Capability, isIp: Str -> bool) {
    forall r: CapabilityRequest :: ValidAction(r.authority, isIp) && CapabilityMatches(child, r) ==> CapabilityMatches(parent, r)
  }

  /** Containment of capabilities is containment of windows and of bodies. */
  lemma ContainedSplit(child: Capability, parent: Capability, isIp: Str -> bool)
    requires ValidAuthority(child.authority, isIp) && !Inert(child.authority) && ValidWindow(child.validity)
    ensures CapabilityContained(child, parent, isIp) <==>
            && BodyContained(child.authority, parent.authority, isIp)
            && forall t: u64 :: InWindow(child.validity, t) ==> InWindow(parent.validity, t)
  {
    if CapabilityContained(child, parent, isIp) {
      var live := LiveBodyPermits(child.authority, isIp);
      forall t: u64 | InWindow(child.validity, t)
        ensures InWindow(parent.validity, t)
      {
        assert CapabilityMatches(parent, CapabilityRequest(t, live));
      }
      forall a | ValidAction(a, isIp) && AuthorityMatches(child.authority, a)
        ensures AuthorityMatches(parent.authority, a)
      {
        assert CapabilityMatches(parent, CapabilityRequest(child.validity.notBefore, a));
      }
    }
  }

  /** The contained children `weaker_than` refuses. */
  predicate CapabilityGap(child: Capability, parent: Capability) {
    || BodyGap(child.authority, parent.authority)
    || (Inert(child.authority) && !WindowSubset(child.validity, parent.validity))
  }

  /**
   `weaker_than` decides containment of whole capabilities, save for the gap:
   every request the child permits at any time is permitted by the parent.
   */
  lemma WeakerThanExact(child: Capability, parent: Capability, isIp: Str -> bool)
    requires ValidAuthority(child.authority, isIp) && ValidAuthority(parent.authority, isIp)
    requires ValidWindow(child.validity)
    ensures WeakerThan(child, parent) <==> CapabilityContained(child, parent, isIp) && !CapabilityGap(child, parent)
    ensures CapabilityContained(child, parent, isIp) <==>
            Inert(child.authority) || WeakerThan(child.(authority := Tight(child.authority)), parent)
  {
    AuthorityBelowExact(child.authority, parent.authority, isIp);
    WindowSubsetExact(child.validity, parent.validity);
    if Inert(child.authority) {
      forall r
        ensures !AuthorityMatches(child.authority, r)
      {
        InertPermitsNothing(child.authority, isIp, r);
      }
    } else {
      ContainedSplit(child, parent, isIp);
    }
  }

  // ----- request sets ------------------------------------------------------

  datatype RequestSet = RequestSet(first: CapabilityRequest, additional: seq<CapabilityRequest>, complete: bool)

  /** Every request of the set, in audit order. */
  function Requests(s: RequestSet): seq<CapabilityRequest> {
    [s.first] + s.additional
  }

  /**
   `CapabilityRequestSet::new`: at most fifteen further requests are retained,
   and the set is complete exactly when none was dropped.
   */
  function NewRequestSet(first: CapabilityRequest, additional: seq<CapabilityRequest>): (r: RequestSet)
    ensures |Requests(r)| == if |additional| <= 15 then 1 + |additional| else 16
    ensures Requests(r) <= [first] + additional
    ensures r.complete <==> Requests(r) == [first] + additional
  {
    var kept := if |additional| <= MAX_REQUESTS_PER_EFFECT - 1 then additional else additional[..MAX_REQUESTS_PER_EFFECT - 1];
    RequestSet(first, kept, |additional| <= MAX_REQUESTS_PER_EFFECT - 1)
  }

  predicate ValidRequestSet(s: RequestSet) {
    |s.additional| < MAX_REQUESTS_PER_EFFECT
  }
}
