/** Canonical repository paths (`path.rs`). */
module Path {
  import opened Bytes
  import opened Patterns

  const MAX_PATH_BYTES := 4096
  const MAX_PATH_SEGMENTS := 64

  datatype Reason =
    | Empty
    | CurrentDirectory
    | ParentDirectory
    | ContainsSeparator
    | ContainsNul
    | ContainsWildcard
    | TooManySegments
    | EncodedPathTooLong

  datatype InvalidSegment = InvalidSegment(index: nat, reason: Reason)

  /** `validate_segment`: the first rule one segment breaks, if any. */
  function SegmentFault(s: Str): Option<Reason> {
    if s == [] then Some(Empty)
    else if s == ['.' as int] then Some(CurrentDirectory)
    else if s == ['.' as int, '.' as int] then Some(ParentDirectory)
    else if '/' as int in s then Some(ContainsSeparator)
    else if 0 in s then Some(ContainsNul)
    else if '*' as int in s then Some(ContainsWildcard)
    else None
  }

  /** What each rule forbids in a segment. */
  predicate Breaks(s: Str, r: Reason) {
    match r
    case Empty => |s| == 0
    case CurrentDirectory => |s| == 1 && s[0] == '.' as int
    case ParentDirectory => |s| == 2 && s[0] == '.' as int && s[1] == '.' as int
    case ContainsSeparator => exists i :: 0 <= i < |s| && s[i] == '/' as int
    case ContainsNul => exists i :: 0 <= i < |s| && s[i] == 0
    case ContainsWildcard => exists i :: 0 <= i < |s| && s[i] == '*' as int
    case _ => false
  }

  /** The order in which rules are reported. */
  function RuleOrder(r: Reason): nat {
    match r
    case Empty => 0
    case CurrentDirectory => 1
    case ParentDirectory => 2
    case ContainsSeparator => 3
    case ContainsNul => 4
    case ContainsWildcard => 5
    case TooManySegments => 6
    case EncodedPathTooLong => 7
  }

  /** A segment passes exactly when it breaks no rule, and otherwise the first broken one is reported. */
  lemma SegmentFaultExact(s: Str)
    ensures SegmentFault(s).None? <==> forall r :: !Breaks(s, r)
    ensures SegmentFault(s).Some? ==>
              Breaks(s, SegmentFault(s).value) && forall r :: Breaks(s, r) ==> RuleOrder(SegmentFault(s).value) <= RuleOrder(r)
  {
    assert '/' as int in s <==> Breaks(s, ContainsSeparator);
    assert 0 in s <==> Breaks(s, ContainsNul);
    assert '*' as int in s <==> Breaks(s, ContainsWildcard);
    assert Breaks(s, Empty) <==> s == [];
    assert Breaks(s, CurrentDirectory) <==> s == ['.' as int];
    assert Breaks(s, ParentDirectory) <==> s == ['.' as int, '.' as int];
  }

  predicate ValidSegment(s: Str) {
    ValidUtf8(s) && SegmentFault(s).None?
  }

  /** Bytes of all segments, without separators. */
  function SumLen(p: Segments): nat {
    if p == [] then 0 else SumLen(p[..|p| - 1]) + |p[|p| - 1]|
  }

  function EncodedLen(p: Segments): nat {
    SumLen(p) + (if p == [] then 0 else |p| - 1)
  }

  predicate ValidPath(p: Segments) {
    && |p| <= MAX_PATH_SEGMENTS
    && EncodedLen(p) <= MAX_PATH_BYTES
    && forall i :: 0 <= i < |p| ==> ValidSegment(p[i])
  }

  /** The rule the path breaks at segment `i`, given valid earlier segments. */
  function FaultAt(p: Segments, i: nat): Option<Reason>
    requires i < |p|
  {
    if SegmentFault(p[i]).Some? then SegmentFault(p[i])
    else if i >= MAX_PATH_SEGMENTS then Some(TooManySegments)
    else if EncodedLen(p[..i + 1]) > MAX_PATH_BYTES then Some(EncodedPathTooLong)
    else None
  }

  /** The length counted on the way is that of the joined spelling. */
  lemma {:induction false} EncodedLenExact(p: Segments)
    ensures EncodedLen(p) == |Join(p, '/' as int)|
    decreases |p|
  {
    if |p| == 1 {
      assert p[..0] == [];
    } else if |p| > 1 {
      EncodedLenExact(p[1..]);
      var first: Segments := [p[0]];
      SumLenConcat(first, p[1..]);
      assert first + p[1..] == p;
      assert first[..0] == [];
    }
  }

  /** What a canonical path is: at most 64 segments and 4096 bytes, every segment in UTF-8 and within the rules. */
  lemma ValidPathExact(p: Segments)
    ensures ValidPath(p) <==>
            && |p| <= 64 && |Join(p, '/' as int)| <= 4096
            && forall i :: 0 <= i < |p| ==> ValidUtf8(p[i]) && forall r :: !Breaks(p[i], r)
  {
    hide Breaks, SegmentFault, Join, ValidUtf8;
    EncodedLenExact(p);
    forall i | 0 <= i < |p| ensures SegmentFault(p[i]).None? <==> forall r :: !Breaks(p[i], r) {
      SegmentFaultExact(p[i]);
    }
  }

  /** Segment `i` is where the path goes wrong, for the reason given and none before it. */
  ghost predicate WrongAt(p: Segments, i: nat, reason: Reason)
    requires i < |p|
  {
    match reason
    case TooManySegments => (forall r :: !Breaks(p[i], r)) && i >= 64
    case EncodedPathTooLong => (forall r :: !Breaks(p[i], r)) && i < 64 && |Join(p[..i + 1], '/' as int)| > 4096
    case _ => Breaks(p[i], reason) && forall r :: Breaks(p[i], r) ==> RuleOrder(reason) <= RuleOrder(r)
  }

  lemma FaultAtExact(p: Segments, i: nat)
    requires i < |p|
    ensures FaultAt(p, i).Some? ==> WrongAt(p, i, FaultAt(p, i).value)
  {
    hide Breaks, SegmentFault, Join;
    SegmentFaultExact(p[i]);
    EncodedLenExact(p[..i + 1]);
    NotLimits(p[i]);
  }

  lemma NotLimits(s: Str)
    ensures !Breaks(s, TooManySegments) && !Breaks(s, EncodedPathTooLong)
  {
  }

  lemma {:induction false} SumLenMonotone(p: Segments, i: nat)
    requires i <= |p|
    ensures SumLen(p[..i]) <= SumLen(p)
  {
    if i < |p| {
      SumLenMonotone(p[..|p| - 1], i);
      assert p[..|p| - 1][..i] == p[..i];
    } else {
      assert p[..i] == p;
    }
  }

  /**
   `CanonicalPath::new`. The accepted paths are exactly the valid ones, and a
   rejection names the first segment at which a rule breaks.
   */
  method NewPath(segments: Segments) returns (r: Result<Segments, InvalidSegment>)
    requires forall i :: 0 <= i < |segments| ==> ValidUtf8(segments[i])
    ensures r.Ok? <==> ValidPath(segments)
    ensures r.Ok? ==> r.value == segments
    ensures r.Err? ==> r.error.index < |segments| && ValidPath(segments[..r.error.index])
    ensures r.Err? ==> WrongAt(segments, r.error.index, r.error.reason)
    ensures r.Ok? ==> forall i, rule | 0 <= i < |segments| :: !Breaks(segments[i], rule)
  {
    hide WrongAt, Breaks, SegmentFault;
    ValidPathExact(segments);
    var canonical: Segments := [];
    var encoded := 0;
    for index := 0 to |segments|
      invariant canonical == segments[..index]
      invariant encoded == EncodedLen(canonical)
      invariant ValidPath(canonical)
    {
      var segment := segments[index];
      assert segments[..index + 1][..index] == segments[..index];
      FaultAtExact(segments, index);
      var fault := SegmentFault(segment);
      if fault.Some? {
        return Err(InvalidSegment(index, fault.value));
      }
      if index >= MAX_PATH_SEGMENTS {
        return Err(InvalidSegment(index, TooManySegments));
      }
      encoded := encoded + (if index != 0 then 1 else 0) + |segment|;
      assert encoded == EncodedLen(segments[..index + 1]);
      if encoded > MAX_PATH_BYTES {
        SumLenMonotone(segments, index + 1);
        return Err(InvalidSegment(index, EncodedPathTooLong));
      }
      canonical := canonical + [segment];
    }
    assert segments[..|segments|] == segments;
    r := Ok(canonical);
  }

  /** `CanonicalPath::child`. */
  function Child(p: Segments, name: Str): Result<Segments, InvalidSegment> {
    if SegmentFault(name).Some? then Err(InvalidSegment(|p|, SegmentFault(name).value))
    else if |p| >= MAX_PATH_SEGMENTS then Err(InvalidSegment(|p|, TooManySegments))
    else if EncodedLen(p) + (if |p| != 0 then 1 else 0) + |name| > MAX_PATH_BYTES
    then Err(InvalidSegment(|p|, EncodedPathTooLong))
    else Ok(p + [name])
  }

  /** A child is accepted exactly when the extended path is valid. */
  lemma ChildExact(p: Segments, name: Str)
    requires ValidPath(p) && ValidUtf8(name)
    ensures Child(p, name).Ok? <==> ValidPath(p + [name])
    ensures Child(p, name).Ok? ==> Child(p, name).value == p + [name]
    ensures Child(p, name).Err? ==> Child(p, name).error.index == |p| && WrongAt(p + [name], |p|, Child(p, name).error.reason)
  {
    hide WrongAt;
    var q := p + [name];
    FaultAtExact(q, |p|);
    assert q[..|q| - 1] == p && q[|q| - 1] == name && q[..|p| + 1] == q;
  }

  /** `CanonicalPath::rebase`. */
  function Rebase(p: Segments, source: Segments, destination: Segments): Option<Segments> {
    if !(source <= p) then None
    else
      var suffix := p[|source|..];
      if |destination| + |suffix| > MAX_PATH_SEGMENTS then None
      else
        var suffixBytes := SumLen(suffix) + (if suffix == [] then 0 else |suffix| - 1);
        var separator := if suffix != [] && destination != [] then 1 else 0;
        if EncodedLen(destination) + separator + suffixBytes > MAX_PATH_BYTES then None
        else Some(destination + suffix)
  }

  lemma {:induction false} SumLenConcat(a: Segments, b: Segments)
    ensures SumLen(a + b) == SumLen(a) + SumLen(b)
  {
    if b == [] {
      assert a + b == a;
    } else {
      SumLenConcat(a, b[..|b| - 1]);
      assert (a + b)[..|a + b| - 1] == a + b[..|b| - 1];
    }
  }

  /** A rebase succeeds exactly on paths below `source` whose new name is valid. */
  lemma RebaseExact(p: Segments, source: Segments, destination: Segments)
    requires ValidPath(p) && ValidPath(destination)
    ensures Rebase(p, source, destination).Some? <==>
            source <= p && ValidPath(destination + p[|source|..])
    ensures Rebase(p, source, destination).Some? ==>
              Rebase(p, source, destination).value == destination + p[|source|..]
  {
    if source <= p {
      SumLenConcat(destination, p[|source|..]);
    }
  }

  /** Rebasing a renamed path back returns the original path. */
  lemma RebaseBack(p: Segments, source: Segments, destination: Segments)
    requires ValidPath(p) && ValidPath(source) && ValidPath(destination)
    requires Rebase(p, source, destination).Some?
    ensures Rebase(Rebase(p, source, destination).value, destination, source) == Some(p)
  {
    RebaseExact(p, source, destination);
    var q := Rebase(p, source, destination).value;
    RebaseExact(q, destination, source);
    assert q[|destination|..] == p[|source|..];
    assert source + p[|source|..] == p;
  }

  /** Distinct paths of one subtree keep distinct names when it is renamed. */
  lemma RebaseInjective(p: Segments, q: Segments, source: Segments, destination: Segments)
    requires ValidPath(p) && ValidPath(q) && ValidPath(source) && ValidPath(destination)
    requires Rebase(p, source, destination).Some?
    requires Rebase(p, source, destination) == Rebase(q, source, destination)
    ensures p == q
  {
    RebaseBack(p, source, destination);
    RebaseBack(q, source, destination);
  }

  /** Some valid path lies strictly below `p`. */
  predicate HasDescendant(p: Segments) {
    p == [] || (|p| < MAX_PATH_SEGMENTS && EncodedLen(p) + 2 <= MAX_PATH_BYTES)
  }

  lemma NoDescendant(p: Segments, q: Segments)
    requires ValidPath(q) && p < q
    ensures HasDescendant(p)
  {
    SumLenMonotone(q, |p| + 1);
    assert q[..|p| + 1][..|p|] == p;
    assert ValidSegment(q[|p|]);
    assert SumLen(q[..|p| + 1]) == SumLen(p) + |q[|p|]|;
  }

  /**
   `path_below` holds exactly when every valid path the child selects is one
   the parent selects, except for a prefix at the size limits under the equal
   exact path.
   */
  lemma PathBelowExact(child: Pattern, parent: Pattern)
    requires ValidPath(child.name)
    ensures Below(child, parent) <==> Contained(ValidPath, child, parent) && !DeadEnd(child, parent, HasDescendant(child.name))
    ensures Contained(ValidPath, child, parent) <==> Below(Tighten(child, HasDescendant(child.name)), parent)
  {
    var p := child.name;
    var longer := p + [['a' as int]];
    AsciiIsUtf8(['a' as int]);
    ChildExact(p, ['a' as int]);
    forall q | ValidPath(q) && p <= q && !HasDescendant(p)
      ensures q == p
    {
      if q != p {
        NoDescendant(p, q);
      }
    }
    BelowExact(ValidPath, child, parent, HasDescendant(p), longer);
  }

  /** `n` segments of one letter. */
  function Chain(n: nat): Segments {
    seq(n, _ => ['a' as int])
  }

  lemma {:induction false} ChainLength(n: nat)
    ensures SumLen(Chain(n)) == n
  {
    if n > 0 {
      ChainLength(n - 1);
      assert Chain(n)[..n - 1] == Chain(n - 1);
      assert Chain(n)[n - 1] == ['a' as int];
    }
  }

  /** A prefix of 64 segments selects only its own path, yet is refused under that exact path. */
  lemma DeepestPrefixRefused()
    ensures var p := Chain(MAX_PATH_SEGMENTS);
            ValidPath(p) && Contained(ValidPath, Prefix(p), Exact(p)) && !Below(Prefix(p), Exact(p))
  {
    var p := Chain(MAX_PATH_SEGMENTS);
    AsciiIsUtf8(['a' as int]);
    ChainLength(MAX_PATH_SEGMENTS);
    assert ValidSegment(['a' as int]);
    PathBelowExact(Prefix(p), Exact(p));
  }
}
