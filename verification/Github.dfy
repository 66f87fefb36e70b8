/** Branch names and GitHub authority (`github.rs`). */
module Github {
  import opened Bytes
  import opened Patterns
  import opened Bits

  const SLASH: byte := '/' as int
  const DOT: byte := '.' as int
  const AT: byte := '@' as int
  const BRACE: byte := '{' as int
  const DASH: byte := '-' as int
  const REFS: Str := ['r' as int, 'e' as int, 'f' as int, 's' as int]
  const LOCK: Str := ['.' as int, 'l' as int, 'o' as int, 'c' as int, 'k' as int]

  datatype InvalidBranch =
    | Empty
    | LeadingOrTrailingSeparator
    | FullyQualifiedReference
    | LeadingDash
    | ReservedAt
    | TrailingDot
    | DoubleDot
    | ReflogSyntax
    | EmptySegment(index: nat)
    | SegmentLeadingDot(index: nat)
    | SegmentTrailingDot(index: nat)
    | SegmentLockSuffix(index: nat)
    | ForbiddenCharacter(index: nat)

  /** `str::contains` for a two-byte needle. */
  predicate HasPair(s: Str, a: byte, b: byte) {
    exists i :: 0 <= i < |s| - 1 && s[i] == a && s[i + 1] == b
  }

  predicate EndsWith(s: Str, t: Str) {
    |t| <= |s| && s[|s| - |t|..] == t
  }

  predicate ForbiddenByte(b: byte) {
    || b < 0x20 || b == 0x7F
    || b in [' ' as int, '~' as int, '^' as int, ':' as int, '?' as int, '*' as int, '[' as int, '\\' as int]
  }

  /** Byte `i` is, or starts, a control or Git-forbidden character; `C2 80` to `C2 9F` are the C1 controls. */
  predicate ForbiddenAt(s: Str, i: nat)
    requires i < |s|
  {
    ForbiddenByte(s[i]) || (i + 1 < |s| && s[i] == 0xC2 && 0x80 <= s[i + 1] <= 0x9F)
  }

  function SegmentFault(s: Str, index: nat): Option<InvalidBranch> {
    if s == [] then Some(EmptySegment(index))
    else if s[0] == DOT then Some(SegmentLeadingDot(index))
    else if s[|s| - 1] == DOT then Some(SegmentTrailingDot(index))
    else if EndsWith(s, LOCK) then Some(SegmentLockSuffix(index))
    else if exists i :: 0 <= i < |s| && ForbiddenAt(s, i) then Some(ForbiddenCharacter(index))
    else None
  }

  /** A control character, or one of space, `~`, `^`, `:`, `?`, `*`, `[` and backslash, at byte `i`. */
  predicate Unsafe(s: Str, i: nat)
    requires i < |s|
  {
    || s[i] <= 0x20 || s[i] == 0x7F
    || s[i] == 0x7E || s[i] == 0x5E || s[i] == 0x3A || s[i] == 0x3F || s[i] == 0x2A || s[i] == 0x5B || s[i] == 0x5C
    || (s[i] == 0xC2 && i + 1 < |s| && 0x80 <= s[i + 1] <= 0x9F)
  }

  /** What each rule forbids in a branch segment. */
  predicate SegmentBreaks(s: Str, e: InvalidBranch) {
    match e
    case EmptySegment(_) => |s| == 0
    case SegmentLeadingDot(_) => |s| > 0 && s[0] == '.' as int
    case SegmentTrailingDot(_) => |s| > 0 && s[|s| - 1] == '.' as int
    case SegmentLockSuffix(_) =>
      && |s| >= 5 && s[|s| - 5] == '.' as int && s[|s| - 4] == 'l' as int && s[|s| - 3] == 'o' as int
      && s[|s| - 2] == 'c' as int && s[|s| - 1] == 'k' as int
    case ForbiddenCharacter(_) => exists i :: 0 <= i < |s| && Unsafe(s, i)
    case _ => false
  }

  /** The order in which faults are reported, those of the whole spelling first. */
  function FaultOrder(e: InvalidBranch): nat {
    match e
    case Empty => 0
    case LeadingOrTrailingSeparator => 1
    case FullyQualifiedReference => 2
    case LeadingDash => 3
    case ReservedAt => 4
    case TrailingDot => 5
    case DoubleDot => 6
    case ReflogSyntax => 7
    case EmptySegment(_) => 8
    case SegmentLeadingDot(_) => 9
    case SegmentTrailingDot(_) => 10
    case SegmentLockSuffix(_) => 11
    case ForbiddenCharacter(_) => 12
  }

  predicate PlacedAt(e: InvalidBranch, index: nat) {
    FaultOrder(e) >= 8 && e.index == index
  }

  /** A segment passes exactly when it breaks no rule, and otherwise the first broken one is reported, with its place. */
  lemma SegmentFaultExact(s: Str, index: nat)
    ensures SegmentFault(s, index).None? <==> forall e :: !SegmentBreaks(s, e)
    ensures SegmentFault(s, index).Some? ==>
              var f := SegmentFault(s, index).value;
              PlacedAt(f, index) && SegmentBreaks(s, f) && forall e :: SegmentBreaks(s, e) ==> FaultOrder(f) <= FaultOrder(e)
  {
    assert SegmentBreaks(s, EmptySegment(index)) <==> s == [];
    assert EndsWith(s, LOCK) <==> SegmentBreaks(s, SegmentLockSuffix(index)) by {
      LockSuffix(s);
    }
    forall i | 0 <= i < |s| ensures ForbiddenAt(s, i) <==> Unsafe(s, i) {
    }
    assert (exists i :: 0 <= i < |s| && ForbiddenAt(s, i)) <==> SegmentBreaks(s, ForbiddenCharacter(index));
    if SegmentFault(s, index).Some? {
      assert SegmentBreaks(s, SegmentFault(s, index).value);
    }
  }

  lemma LockSuffix(s: Str)
    ensures EndsWith(s, LOCK) <==>
            && |s| >= 5 && s[|s| - 5] == '.' as int && s[|s| - 4] == 'l' as int && s[|s| - 3] == 'o' as int
            && s[|s| - 2] == 'c' as int && s[|s| - 1] == 'k' as int
  {
    if |s| >= 5 {
      var t := s[|s| - 5..];
      assert t[0] == s[|s| - 5] && t[1] == s[|s| - 4] && t[2] == s[|s| - 3] && t[3] == s[|s| - 2] && t[4] == s[|s| - 1];
      assert t == [t[0], t[1], t[2], t[3], t[4]];
    }
  }

  function FirstBadSegment(parts: seq<Str>, i: nat): (r: Option<InvalidBranch>)
    requires i <= |parts|
    ensures r.None? <==> forall k :: i <= k < |parts| ==> SegmentFault(parts[k], k).None?
    ensures r.Some? ==>
              exists k :: i <= k < |parts| && SegmentFault(parts[k], k) == r && forall j :: i <= j < k ==> SegmentFault(parts[j], j).None?
    decreases |parts| - i
  {
    if i == |parts| then None
    else if SegmentFault(parts[i], i).Some? then SegmentFault(parts[i], i)
    else FirstBadSegment(parts, i + 1)
  }

  /** The checks made on the whole spelling, in source order. */
  function SpellingFault(v: Str): Option<InvalidBranch> {
    if v == [] then Some(Empty)
    else if v[0] == SLASH || v[|v| - 1] == SLASH then Some(LeadingOrTrailingSeparator)
    else if REFS + [SLASH] <= v then Some(FullyQualifiedReference)
    else if v[0] == DASH then Some(LeadingDash)
    else if v == [AT] then Some(ReservedAt)
    else if v[|v| - 1] == DOT then Some(TrailingDot)
    else if HasPair(v, DOT, DOT) then Some(DoubleDot)
    else if HasPair(v, AT, BRACE) then Some(ReflogSyntax)
    else None
  }

  /** What is forbidden in the spelling as a whole. */
  predicate SpellingBreaks(v: Str, e: InvalidBranch) {
    match e
    case Empty => |v| == 0
    case LeadingOrTrailingSeparator => |v| > 0 && (v[0] == '/' as int || v[|v| - 1] == '/' as int)
    case FullyQualifiedReference =>
      |v| >= 5 && v[0] == 'r' as int && v[1] == 'e' as int && v[2] == 'f' as int && v[3] == 's' as int && v[4] == '/' as int
    case LeadingDash => |v| > 0 && v[0] == '-' as int
    case ReservedAt => |v| == 1 && v[0] == '@' as int
    case TrailingDot => |v| > 0 && v[|v| - 1] == '.' as int
    case DoubleDot => exists i :: 0 <= i < |v| - 1 && v[i] == '.' as int && v[i + 1] == '.' as int
    case ReflogSyntax => exists i :: 0 <= i < |v| - 1 && v[i] == '@' as int && v[i + 1] == '{' as int
    case _ => false
  }

  lemma SpellingFaultExact(v: Str)
    ensures SpellingFault(v).None? <==> forall e :: !SpellingBreaks(v, e)
    ensures SpellingFault(v).Some? ==>
              && SpellingBreaks(v, SpellingFault(v).value)
              && forall e :: SpellingBreaks(v, e) ==> FaultOrder(SpellingFault(v).value) <= FaultOrder(e)
  {
    assert REFS + [SLASH] <= v <==> SpellingBreaks(v, FullyQualifiedReference) by {
      assert REFS + [SLASH] <= v ==> forall i :: 0 <= i < 5 ==> v[i] == (REFS + [SLASH])[i];
      if |v| >= 5 {
        assert v[..5] == [v[0], v[1], v[2], v[3], v[4]];
      }
    }
    assert v == [AT] <==> SpellingBreaks(v, ReservedAt);
    assert HasPair(v, DOT, DOT) <==> SpellingBreaks(v, DoubleDot);
    assert HasPair(v, AT, BRACE) <==> SpellingBreaks(v, ReflogSyntax);
    if SpellingFault(v).Some? {
      assert SpellingBreaks(v, SpellingFault(v).value);
    }
  }

  /** `BranchName::new`. */
  function BranchParse(v: Str): Result<Segments, InvalidBranch> {
    if SpellingFault(v).Some? then Err(SpellingFault(v).value)
    else
      var parts := Split(v, SLASH);
      var bad := FirstBadSegment(parts, 0);
      if bad.Some? then Err(bad.value) else Ok(parts)
  }

  /** Why a spelling is refused: its first fault as a whole, or else the first fault of its first bad segment. */
  ghost predicate BranchRefused(v: Str, e: InvalidBranch) {
    if exists f :: SpellingBreaks(v, f) then
      SpellingBreaks(v, e) && forall f :: SpellingBreaks(v, f) ==> FaultOrder(e) <= FaultOrder(f)
    else
      var parts := Split(v, '/' as int);
      && FaultOrder(e) >= 8 && e.index < |parts| && SegmentBreaks(parts[e.index], e)
      && (forall f :: SegmentBreaks(parts[e.index], f) ==> FaultOrder(e) <= FaultOrder(f))
      && forall j, f | 0 <= j < e.index :: !SegmentBreaks(parts[j], f)
  }

  /** A branch name is accepted exactly when neither the spelling nor a segment breaks a rule; a refusal names the first fault. */
  lemma BranchParseExact(v: Str)
    ensures BranchParse(v).Ok? <==>
            (forall e :: !SpellingBreaks(v, e)) && forall part, e | part in Split(v, '/' as int) :: !SegmentBreaks(part, e)
    ensures BranchParse(v).Err? ==> BranchRefused(v, BranchParse(v).error)
  {
    hide SpellingFault, SpellingBreaks, SegmentFault, SegmentBreaks, Split, FaultOrder;
    SpellingFaultExact(v);
    var parts := Split(v, SLASH);
    forall k | 0 <= k < |parts| ensures SegmentFault(parts[k], k).None? <==> forall e :: !SegmentBreaks(parts[k], e) {
      SegmentFaultExact(parts[k], k);
    }
    var bad := FirstBadSegment(parts, 0);
    if bad.Some? {
      var k :| 0 <= k < |parts| && SegmentFault(parts[k], k) == bad && forall j :: 0 <= j < k ==> SegmentFault(parts[j], j).None?;
      SegmentFaultExact(parts[k], k);
      assert parts[k] in parts && SegmentBreaks(parts[k], bad.value);
    }
    if SpellingFault(v).Some? {
      assert SpellingBreaks(v, SpellingFault(v).value);
    }
  }

  function BranchPrint(b: Segments): Str {
    Join(b, SLASH)
  }

  predicate ValidBranchSegment(s: Str) {
    && ValidUtf8(s)
    && SLASH !in s
    && SegmentFault(s, 0).None?
    && !HasPair(s, DOT, DOT)
    && !HasPair(s, AT, BRACE)
  }

  /** What a branch name is, stated on segments only. */
  predicate ValidBranch(b: Segments) {
    && |b| >= 1
    && (forall i :: 0 <= i < |b| ==> ValidBranchSegment(b[i]))
    && b[0][0] != DASH
    && b != [[AT]]
    && !(b[0] == REFS && |b| > 1)
  }

  lemma SegmentFaultIndex(s: Str, i: nat, j: nat)
    ensures SegmentFault(s, i).None? <==> SegmentFault(s, j).None?
  {
  }

  /** A pair without the separator occurs in a join exactly when it occurs in a piece. */
  lemma {:induction false} PairInJoin(parts: seq<Str>, a: byte, b: byte)
    requires a != SLASH && b != SLASH
    ensures HasPair(Join(parts, SLASH), a, b) <==> exists k :: 0 <= k < |parts| && HasPair(parts[k], a, b)
  {
    if |parts| > 1 {
      var head, tail := parts[0], Join(parts[1..], SLASH);
      PairInJoin(parts[1..], a, b);
      PairInConcat(head, tail, a, b);
      if k :| 0 <= k < |parts| && HasPair(parts[k], a, b) {
        if k > 0 {
          assert HasPair(parts[1..][k - 1], a, b);
        }
      }
      if HasPair(tail, a, b) {
        var k :| 0 <= k < |parts[1..]| && HasPair(parts[1..][k], a, b);
        assert HasPair(parts[k + 1], a, b);
      }
    }
  }

  lemma PairInConcat(head: Str, tail: Str, a: byte, b: byte)
    requires a != SLASH && b != SLASH
    ensures HasPair(head + [SLASH] + tail, a, b) <==> HasPair(head, a, b) || HasPair(tail, a, b)
  {
    var v := head + [SLASH] + tail;
    if HasPair(v, a, b) {
      var i :| 0 <= i < |v| - 1 && v[i] == a && v[i + 1] == b;
      if i + 1 < |head| {
        assert head[i] == a && head[i + 1] == b;
      } else {
        var j := i - |head| - 1;
        assert tail[j] == a && tail[j + 1] == b;
      }
    }
    if HasPair(head, a, b) {
      var i :| 0 <= i < |head| - 1 && head[i] == a && head[i + 1] == b;
      assert v[i] == a && v[i + 1] == b;
    }
    if HasPair(tail, a, b) {
      var i :| 0 <= i < |tail| - 1 && tail[i] == a && tail[i + 1] == b;
      assert v[i + |head| + 1] == a && v[i + |head| + 1 + 1] == b;
    }
  }

  lemma {:induction false} JoinEnds(parts: seq<Str>)
    requires |parts| >= 1 && forall k :: 0 <= k < |parts| ==> parts[k] != []
    ensures var v := Join(parts, SLASH);
            v != [] && v[0] == parts[0][0] &&
            v[|v| - 1] == parts[|parts| - 1][|parts[|parts| - 1]| - 1]
  {
    if |parts| > 1 {
      JoinEnds(parts[1..]);
    }
  }

  lemma RefsInJoin(parts: seq<Str>)
    requires |parts| >= 1 && SLASH !in parts[0]
    ensures REFS + [SLASH] <= Join(parts, SLASH) <==> |parts| > 1 && parts[0] == REFS
  {
    var v := Join(parts, SLASH);
    if REFS + [SLASH] <= v {
      assert v[4] == SLASH;
      assert forall i :: 0 <= i < 4 ==> v[i] != SLASH by {
        assert forall i :: 0 <= i < 4 ==> v[i] == REFS[i];
      }
      assert v[|parts[0]|] == SLASH;
      assert parts[0] == v[..|parts[0]|];
    }
  }

  /** Printing a branch and parsing it again returns it. */
  lemma BranchPrintParse(b: Segments)
    requires ValidBranch(b)
    ensures BranchParse(BranchPrint(b)) == Ok(b)
  {
    var v := BranchPrint(b);
    assert forall k :: 0 <= k < |b| ==> ValidBranchSegment(b[k]);
    JoinEnds(b);
    RefsInJoin(b);
    PairInJoin(b, DOT, DOT);
    PairInJoin(b, AT, BRACE);
    SplitJoin(b, SLASH);
    assert v[0] != SLASH && v[|v| - 1] != SLASH && v[|v| - 1] != DOT;
    if v == [AT] {
      SplitWhole(v, SLASH);
    }
    forall k | 0 <= k < |b|
      ensures SegmentFault(b[k], k).None?
    {
      SegmentFaultIndex(b[k], 0, k);
    }
  }

  /** Every accepted spelling yields a branch, and is that branch's spelling. */
  lemma BranchParsePrint(v: Str)
    requires ValidUtf8(v) && BranchParse(v).Ok?
    ensures ValidBranch(BranchParse(v).value) && BranchPrint(BranchParse(v).value) == v
  {
    var parts := Split(v, SLASH);
    JoinSplit(v, SLASH);
    SplitKeepsUtf8(v, SLASH);
    forall k | 0 <= k < |parts|
      ensures ValidUtf8(parts[k]) && SLASH !in parts[k] && SegmentFault(parts[k], 0).None?
    {
      SegmentFaultIndex(parts[k], 0, k);
      assert parts[k] in parts;
    }
    JoinEnds(parts);
    RefsInJoin(parts);
    PairInJoin(parts, DOT, DOT);
    PairInJoin(parts, AT, BRACE);
    assert parts == [[AT]] ==> v == [AT];
  }

  // ----- containment -------------------------------------------------------

  /** `refs` is a branch, but nothing below it is: `refs/` spellings are rejected. */
  predicate BranchHasDescendant(b: Segments) {
    b != [REFS]
  }

  lemma RefsIsDeadEnd(q: Segments)
    requires ValidBranch(q) && [REFS] <= q
    ensures q == [REFS]
  {
    assert q[0] == REFS;
  }

  lemma BranchExtends(b: Segments)
    requires ValidBranch(b) && BranchHasDescendant(b)
    ensures ValidBranch(b + [['a' as int]])
  {
    var s := ['a' as int];
    assert ValidBranchSegment(s) by {
      AsciiIsUtf8(s);
      assert !EndsWith(s, LOCK);
      assert forall i :: 0 <= i < |s| ==> !ForbiddenAt(s, i);
    }
  }

  /** `branch_below` is containment over valid branches, except for the prefix `refs`. */
  lemma BranchBelowExact(child: Pattern, parent: Pattern)
    requires ValidBranch(child.name)
    ensures Below(child, parent) <==> Contained(ValidBranch, child, parent) && !DeadEnd(child, parent, BranchHasDescendant(child.name))
    ensures Contained(ValidBranch, child, parent) <==> Below(Tighten(child, BranchHasDescendant(child.name)), parent)
  {
    var b := child.name;
    if BranchHasDescendant(b) {
      BranchExtends(b);
    }
    forall q: Segments | ValidBranch(q) && b <= q && !BranchHasDescendant(b)
      ensures q == b
    {
      RefsIsDeadEnd(q);
    }
    BelowExact(ValidBranch, child, parent, BranchHasDescendant(b), b + [['a' as int]]);
  }

  /** The prefix `refs` selects only the branch `refs`, yet is refused under that exact branch. */
  lemma RefsPrefixRefused()
    ensures ValidBranch([REFS]) && Contained(ValidBranch, Prefix([REFS]), Exact([REFS])) && !Below(Prefix([REFS]), Exact([REFS]))
  {
    AsciiIsUtf8(REFS);
    BranchBelowExact(Prefix([REFS]), Exact([REFS]));
  }

  // ----- authority ---------------------------------------------------------

  datatype Operation = PublishBranch | CreatePullRequest

  function OperationTag(o: Operation): (t: byte)
    ensures t < 2
  {
    match o
    case PublishBranch => 0
    case CreatePullRequest => 1
  }

  /** A `u8` bitset over the two operations. */
  type Operations = nat

  predicate HasOperation(bits: Operations, o: Operation) {
    Has(bits, OperationTag(o), 8)
  }

  predicate ValidOperations(bits: Operations) {
    bits < Pow2(2)
  }

  datatype GitHubAuthority = GitHubAuthority(
    installation: Str, repository: Str, operations: Operations, base: Pattern, head: Pattern)

  datatype GitHubRequest = GitHubRequest(
    installation: Str, repository: Str, operation: Operation, base: Segments, head: Segments)

  predicate GitHubMatches(a: GitHubAuthority, r: GitHubRequest) {
    && a.installation == r.installation
    && a.repository == r.repository
    && HasOperation(a.operations, r.operation)
    && Matches(a.base, r.base)
    && Matches(a.head, r.head)
  }

  predicate GitHubBelow(child: GitHubAuthority, parent: GitHubAuthority) {
    && child.installation == parent.installation
    && child.repository == parent.repository
    && Subset(child.operations, parent.operations, 8)
    && Below(child.base, parent.base)
    && Below(child.head, parent.head)
  }

  predicate ValidGitHubRequest(r: GitHubRequest) {
    ValidBranch(r.base) && ValidBranch(r.head)
  }

  predicate ValidGitHubAuthority(a: GitHubAuthority) {
    ValidOperations(a.operations) && ValidBranch(a.base.name) && ValidBranch(a.head.name)
  }

  function TightGitHub(a: GitHubAuthority): GitHubAuthority {
    a.(base := Tighten(a.base, BranchHasDescendant(a.base.name)),
       head := Tighten(a.head, BranchHasDescendant(a.head.name)))
  }

  lemma OperationsSubsetExact(a: Operations, b: Operations)
    requires ValidOperations(a)
    ensures Subset(a, b, 8) <==> forall o :: HasOperation(a, o) ==> HasOperation(b, o)
    ensures a != 0 <==> HasOperation(a, PublishBranch) || HasOperation(a, CreatePullRequest)
  {
    SubsetExact(a, b, 2, 8);
    assert Subset(a, b, 8) <==> (Has(a, 0, 8) ==> Has(b, 0, 8)) && (Has(a, 1, 8) ==> Has(b, 1, 8));
    assert HasOperation(a, PublishBranch) == Has(a, 0, 8) && HasOperation(a, CreatePullRequest) == Has(a, 1, 8);
    assert HasOperation(b, PublishBranch) == Has(b, 0, 8) && HasOperation(b, CreatePullRequest) == Has(b, 1, 8);
  }

  ghost predicate GitHubContained(child: GitHubAuthority, parent: GitHubAuthority) {
    forall r :: ValidGitHubRequest(r) && GitHubMatches(child, r) ==> GitHubMatches(parent, r)
  }

  /** The contained children `github_body_below` refuses. */
  predicate GitHubGap(child: GitHubAuthority, parent: GitHubAuthority) {
    if child.operations == 0 then
      || child.installation != parent.installation || child.repository != parent.repository
      || !Below(child.base, parent.base) || !Below(child.head, parent.head)
    else
      || DeadEnd(child.base, parent.base, BranchHasDescendant(child.base.name))
      || DeadEnd(child.head, parent.head, BranchHasDescendant(child.head.name))
  }

  /** GitHub delegation is containment of permitted requests, save for the gap. */
  lemma GitHubBelowExact(child: GitHubAuthority, parent: GitHubAuthority)
    requires ValidGitHubAuthority(child) && ValidGitHubAuthority(parent)
    ensures GitHubBelow(child, parent) <==> GitHubContained(child, parent) && !GitHubGap(child, parent)
    ensures GitHubContained(child, parent) <==> child.operations == 0 || GitHubBelow(TightGitHub(child), parent)
  {
    OperationsSubsetExact(child.operations, parent.operations);
    BranchBelowExact(child.base, parent.base);
    BranchBelowExact(child.head, parent.head);
    if GitHubContained(child, parent) && child.operations != 0 {
      var o := if HasOperation(child.operations, PublishBranch) then PublishBranch else CreatePullRequest;
      forall n, base, head |
        && HasOperation(child.operations, n)
        && ValidBranch(base) && Matches(child.base, base)
        && ValidBranch(head) && Matches(child.head, head)
        ensures GitHubMatches(parent, GitHubRequest(child.installation, child.repository, n, base, head))
      {
        var r := GitHubRequest(child.installation, child.repository, n, base, head);
        assert ValidGitHubRequest(r) && GitHubMatches(child, r);
      }
      assert Matches(child.base, child.base.name) && Matches(child.head, child.head.name);
      GitHubComponents(child, parent, o);
    }
  }

  lemma GitHubComponents(child: GitHubAuthority, parent: GitHubAuthority, o: Operation)
    requires ValidGitHubAuthority(child) && ValidGitHubAuthority(parent)
    requires HasOperation(child.operations, o)
    requires forall n, base, head |
               && HasOperation(child.operations, n)
               && ValidBranch(base) && Matches(child.base, base)
               && ValidBranch(head) && Matches(child.head, head)
               :: GitHubMatches(parent, GitHubRequest(child.installation, child.repository, n, base, head))
    ensures child.installation == parent.installation && child.repository == parent.repository
    ensures Subset(child.operations, parent.operations, 8)
    ensures Contained(ValidBranch, child.base, parent.base)
    ensures Contained(ValidBranch, child.head, parent.head)
  {
    var base, head := child.base.name, child.head.name;
    assert Matches(child.base, base) && Matches(child.head, head);
    assert GitHubMatches(parent, GitHubRequest(child.installation, child.repository, o, base, head));
    OperationsSubsetExact(child.operations, parent.operations);
    forall n | HasOperation(child.operations, n)
      ensures HasOperation(parent.operations, n)
    {
      assert GitHubMatches(parent, GitHubRequest(child.installation, child.repository, n, base, head));
    }
    forall q | ValidBranch(q) && Matches(child.base, q)
      ensures Matches(parent.base, q)
    {
      assert GitHubMatches(parent, GitHubRequest(child.installation, child.repository, o, q, head));
    }
    forall q | ValidBranch(q) && Matches(child.head, q)
      ensures Matches(parent.head, q)
    {
      assert GitHubMatches(parent, GitHubRequest(child.installation, child.repository, o, base, q));
    }
  }
}
