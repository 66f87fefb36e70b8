/** The attempt metadata payload of the audit journal (`durable_audit.rs`). */
module AttemptCodec {
  import opened Bytes
  import opened Patterns
  import opened Path
  import opened File
  import opened Http
  import opened Github
  import opened Capability

  const MAX_RECORD_PAYLOAD := 8 * 1024 * 1024
  const ATTEMPT_PAYLOAD_VERSION := 2

  datatype Metadata = Metadata(instance: u64, caller: SubjectId, capability: CapId, epoch: u64, requests: RequestSet)

  // ----- writing -----------------------------------------------------------

  function PutText(s: Str): (b: Str)
    ensures |b| == 4 + |s|
  {
    LittleEndian(|s|, 4) + s
  }

  function PutTexts(parts: seq<Str>): Str {
    if parts == [] then [] else PutText(parts[0]) + PutTexts(parts[1..])
  }

  function PutSegments(parts: seq<Str>): Str {
    LittleEndian(|parts|, 4) + PutTexts(parts)
  }

  function PutAction(r: AuthorityRequest): Str {
    match r
    case FileAction(f) => [1] + PutText(f.repository) + [Tag(f.effect)] + PutSegments(f.path)
    case HttpAction(h) => [2] + [MethodTag(h.verb)] + PutText(h.host) + PutSegments(h.path) + LittleEndian(h.maxBytes, 8)
    case GitHubAction(g) =>
      [3] + PutText(g.installation) + PutText(g.repository) + [OperationTag(g.operation)] + PutSegments(g.base) + PutSegments(g.head)
  }

  function PutRequest(r: CapabilityRequest): Str {
    LittleEndian(r.time, 8) + PutAction(r.authority)
  }

  function PutRequests(rs: seq<CapabilityRequest>): Str {
    if rs == [] then [] else PutRequest(rs[0]) + PutRequests(rs[1..])
  }

  function PutAttempt(m: Metadata): Str {
    [ATTEMPT_PAYLOAD_VERSION] + LittleEndian(m.instance, 8) + PutText(m.caller) + PutText(m.capability)
    + LittleEndian(m.epoch, 8) + LittleEndian(|Requests(m.requests)|, 4) + PutRequests(Requests(m.requests))
  }

  datatype EncodeError = IncompleteRequestSet | PayloadTooLarge

  /** `encode_attempt_payload`. */
  function EncodeAttempt(m: Metadata): Result<Str, EncodeError> {
    if !m.requests.complete then Err(IncompleteRequestSet)
    else if |PutAttempt(m)| > MAX_RECORD_PAYLOAD then Err(PayloadTooLarge)
    else Ok(PutAttempt(m))
  }

  // ----- reading -----------------------------------------------------------

  function TakeByte(b: Str): Option<(byte, Str)> {
    if |b| < 1 then None else Some((b[0], b[1..]))
  }

  function TakeU32(b: Str): Option<(nat, Str)> {
    if |b| < 4 then None else Some((FromLittleEndian(b[..4]), b[4..]))
  }

  function TakeU64(b: Str): Option<(u64, Str)> {
    if |b| < 8 then None else Pow256Values(); Some((FromLittleEndian(b[..8]), b[8..]))
  }

  function TakeText(b: Str): Option<(Str, Str)> {
    match TakeU32(b)
    case None => None
    case Some((n, rest)) =>
      if |rest| < n || !ValidUtf8(rest[..n]) then None else Some((rest[..n], rest[n..]))
  }

  function TakeTexts(b: Str, count: nat): Option<(seq<Str>, Str)>
    decreases count
  {
    if count == 0 then Some(([], b))
    else match TakeText(b)
      case None => None
      case Some((s, rest)) =>
        match TakeTexts(rest, count - 1)
        case None => None
        case Some((more, end)) => Some(([s] + more, end))
  }

  function TakeSegments(b: Str): Option<(seq<Str>, Str)> {
    match TakeU32(b)
    case None => None
    case Some((n, rest)) => TakeTexts(rest, n)
  }

  function TakePath(b: Str): Option<(Segments, Str)> {
    match TakeSegments(b)
    case None => None
    case Some((parts, rest)) => if ValidPath(parts) then Some((parts, rest)) else None
  }

  /** `decode_url_path`: the joined spelling is parsed again. */
  function DecodeUrl(parts: seq<Str>): Option<Segments> {
    if parts == [] then Some([])
    else match UrlParse([Http.SLASH] + Join(parts, Http.SLASH))
      case Ok(path) => Some(path)
      case Err(_) => None
  }

  /** `decode_branch`: the joined spelling is parsed again. */
  function DecodeBranch(parts: seq<Str>): Option<Segments> {
    match BranchParse(Join(parts, Github.SLASH))
    case Ok(branch) => Some(branch)
    case Err(_) => None
  }

  function TakeFile(b: Str): Option<(AuthorityRequest, Str)> {
    match TakeText(b)
    case None => None
    case Some((repository, b1)) =>
      match TakeByte(b1)
      case None => None
      case Some((tag, b2)) =>
        match (FromTag(tag), TakePath(b2))
        case (Some(effect), Some((path, b3))) => Some((FileAction(FileRequest(repository, effect, path)), b3))
        case _ => None
  }

  function DecodeMethod(tag: byte): Option<Method> {
    if tag == 0 then Some(Get) else if tag == 1 then Some(Head) else None
  }

  function TakeHttp(b: Str, isIp: Str -> bool): Option<(AuthorityRequest, Str)> {
    match TakeByte(b)
    case None => None
    case Some((tag, b1)) =>
      match (DecodeMethod(tag), TakeText(b1))
      case (Some(verb), Some((name, b2))) =>
        (match (CanonicalHost(name, isIp), TakeSegments(b2))
         case (Some(host), Some((parts, b3))) =>
           (match (DecodeUrl(parts), TakeU64(b3))
            case (Some(path), Some((limit, b4))) => Some((HttpAction(HttpRequest(verb, host, path, limit)), b4))
            case _ => None)
         case _ => None)
      case _ => None
  }

  function DecodeOperation(tag: byte): Option<Operation> {
    if tag == 0 then Some(PublishBranch) else if tag == 1 then Some(CreatePullRequest) else None
  }

  function TakeBranch(b: Str): Option<(Segments, Str)> {
    match TakeSegments(b)
    case None => None
    case Some((parts, rest)) =>
      match DecodeBranch(parts)
      case None => None
      case Some(branch) => Some((branch, rest))
  }

  function TakeGitHub(b: Str): Option<(AuthorityRequest, Str)> {
    match TakeText(b)
    case None => None
    case Some((installation, b1)) =>
      match TakeText(b1)
      case None => None
      case Some((repository, b2)) =>
        match TakeByte(b2)
        case None => None
        case Some((tag, b3)) =>
          match (DecodeOperation(tag), TakeBranch(b3))
          case (Some(operation), Some((base, b4))) =>
            (match TakeBranch(b4)
             case Some((head, b5)) => Some((GitHubAction(GitHubRequest(installation, repository, operation, base, head)), b5))
             case None => None)
          case _ => None
  }

  function TakeAction(b: Str, isIp: Str -> bool): Option<(AuthorityRequest, Str)> {
    match TakeByte(b)
    case None => None
    case Some((tag, rest)) =>
      if tag == 1 then TakeFile(rest)
      else if tag == 2 then TakeHttp(rest, isIp)
      else if tag == 3 then TakeGitHub(rest)
      else None
  }

  function TakeRequest(b: Str, isIp: Str -> bool): Option<(CapabilityRequest, Str)> {
    match TakeU64(b)
    case None => None
    case Some((time, rest)) =>
      match TakeAction(rest, isIp)
      case None => None
      case Some((action, end)) => Some((CapabilityRequest(time, action), end))
  }

  function TakeRequests(b: Str, count: nat, isIp: Str -> bool): Option<(seq<CapabilityRequest>, Str)>
    decreases count
  {
    if count == 0 then Some(([], b))
    else match TakeRequest(b, isIp)
      case None => None
      case Some((r, rest)) =>
        match TakeRequests(rest, count - 1, isIp)
        case None => None
        case Some((more, end)) => Some(([r] + more, end))
  }

  /** The fields after the version and the state instance. */
  function DecodeBody(instance: u64, b: Str, isIp: Str -> bool): Option<Metadata> {
    match TakeText(b)
    case None => None
    case Some((caller, b1)) =>
      match TakeText(b1)
      case None => None
      case Some((capability, b2)) =>
        match TakeU64(b2)
        case None => None
        case Some((epoch, b3)) =>
          match TakeU32(b3)
          case None => None
          case Some((count, b4)) =>
            if count == 0 || count > MAX_REQUESTS_PER_EFFECT then None
            else match TakeRequests(b4, count, isIp)
              case None => None
              case Some((rs, end)) =>
                if end != [] || rs == [] then None
                else Some(Metadata(instance, caller, capability, epoch, NewRequestSet(rs[0], rs[1..])))
  }

  /** `decode_attempt_payload`: version 1 records carry no instance and belong to instance 0. */
  function DecodeAttempt(b: Str, isIp: Str -> bool): Option<Metadata> {
    match TakeByte(b)
    case None => None
    case Some((version, rest)) =>
      if version == 1 then DecodeBody(0, rest, isIp)
      else if version == 2 then
        match TakeU64(rest)
        case None => None
        case Some((instance, body)) => DecodeBody(instance, body, isIp)
      else None
  }

  // ----- round trip --------------------------------------------------------

  predicate WellFormedAction(r: AuthorityRequest, isIp: Str -> bool) {
    && ValidAction(r, isIp)
    && match r
       case FileAction(f) => ValidUtf8(f.repository)
       case HttpAction(_) => true
       case GitHubAction(g) => ValidUtf8(g.installation) && ValidUtf8(g.repository)
  }

  lemma TakePutU32(n: nat, rest: Str)
    requires n < U32_COUNT
    ensures TakeU32(LittleEndian(n, 4) + rest) == Some((n, rest))
  {
    Pow256Values();
    LittleEndianRoundTrip(n, 4);
    var b := LittleEndian(n, 4) + rest;
    assert b[..4] == LittleEndian(n, 4) && b[4..] == rest;
  }

  lemma TakePutU64(n: u64, rest: Str)
    ensures TakeU64(LittleEndian(n, 8) + rest) == Some((n, rest))
  {
    Pow256Values();
    LittleEndianRoundTrip(n, 8);
    var b := LittleEndian(n, 8) + rest;
    assert b[..8] == LittleEndian(n, 8) && b[8..] == rest;
  }

  lemma TakePutText(s: Str, rest: Str)
    requires ValidUtf8(s) && |s| < U32_COUNT
    ensures TakeText(PutText(s) + rest) == Some((s, rest))
  {
    hide LittleEndian, TakeU32, ValidUtf8;
    assert PutText(s) + rest == LittleEndian(|s|, 4) + (s + rest);
    TakePutU32(|s|, s + rest);
    assert (s + rest)[..|s|] == s && (s + rest)[|s|..] == rest;
  }

  predicate Texts(parts: seq<Str>) {
    forall i :: 0 <= i < |parts| ==> ValidUtf8(parts[i]) && |parts[i]| < U32_COUNT
  }

  lemma {:induction false} TakePutTexts(parts: seq<Str>, rest: Str)
    requires Texts(parts)
    ensures TakeTexts(PutTexts(parts) + rest, |parts|) == Some((parts, rest))
    decreases parts
  {
    hide TakeText, PutText, ValidUtf8;
    if parts == [] {
      assert PutTexts(parts) + rest == rest;
    } else {
      var tail := PutTexts(parts[1..]) + rest;
      assert PutTexts(parts) + rest == PutText(parts[0]) + tail;
      TakePutText(parts[0], tail);
      TakePutTexts(parts[1..], rest);
      assert [parts[0]] + parts[1..] == parts;
    }
  }

  lemma TakePutSegments(parts: seq<Str>, rest: Str)
    requires Texts(parts) && |parts| < U32_COUNT
    ensures TakeSegments(PutSegments(parts) + rest) == Some((parts, rest))
  {
    hide TakeTexts, PutTexts, LittleEndian, TakeU32;
    var tail := PutTexts(parts) + rest;
    assert PutSegments(parts) + rest == LittleEndian(|parts|, 4) + tail;
    TakePutU32(|parts|, tail);
    TakePutTexts(parts, rest);
  }

  /** The texts in a payload are no longer than the payload. */
  lemma {:induction false} PutTextsLength(parts: seq<Str>)
    ensures |PutTexts(parts)| >= 4 * |parts|
    ensures forall i :: 0 <= i < |parts| ==> |parts[i]| <= |PutTexts(parts)|
    decreases parts
  {
    if parts != [] {
      PutTextsLength(parts[1..]);
      forall i | 0 <= i < |parts|
        ensures |parts[i]| <= |PutTexts(parts)|
      {
        if i > 0 {
          assert parts[i] == parts[1..][i - 1];
        }
      }
    }
  }

  lemma SegmentsFit(parts: seq<Str>)
    requires |PutSegments(parts)| <= MAX_RECORD_PAYLOAD
    requires forall i :: 0 <= i < |parts| ==> ValidUtf8(parts[i])
    ensures Texts(parts) && |parts| < U32_COUNT
  {
    PutTextsLength(parts);
  }

  lemma FileRoundTrip(f: FileRequest, rest: Str)
    requires ValidUtf8(f.repository) && ValidPath(f.path)
    requires |PutAction(FileAction(f))| <= MAX_RECORD_PAYLOAD
    ensures TakeFile(PutAction(FileAction(f))[1..] + rest) == Some((FileAction(f), rest))
  {
    hide TakeText, TakeSegments, PutText, PutSegments, ValidUtf8;
    var b2 := PutSegments(f.path) + rest;
    var b1 := [Tag(f.effect)] + b2;
    assert PutAction(FileAction(f))[1..] + rest == PutText(f.repository) + b1 by {
      Nested([1], PutText(f.repository), [Tag(f.effect)], PutSegments(f.path), [], rest);
    }
    TakePutText(f.repository, b1);
    assert b1[1..] == b2;
    TagsInverse(Tag(f.effect));
    assert forall i :: 0 <= i < |f.path| ==> ValidSegment(f.path[i]);
    SegmentsFit(f.path);
    TakePutSegments(f.path, rest);
  }

  lemma UrlTexts(path: Segments)
    requires ValidUrl(path)
    ensures forall i :: 0 <= i < |path| ==> ValidUtf8(path[i])
    ensures DecodeUrl(path) == Some(path)
  {
    forall i | 0 <= i < |path|
      ensures ValidUtf8(path[i])
    {
      assert ValidUrlSegment(path[i]);
      AsciiIsUtf8(path[i]);
    }
    UrlPrintParse(path);
  }

  /** A field list written front to back, read from its second byte on. */
  lemma Nested(a: Str, b: Str, c: Str, d: Str, e: Str, rest: Str)
    requires |a| == 1
    ensures (a + b + c + d + e)[1..] + rest == b + (c + (d + (e + rest)))
    ensures (a + b + c + d)[1..] + rest == b + (c + (d + rest))
  {
    assert (a + b + c + d + e)[1..] == b + c + d + e;
    assert (a + b + c + d)[1..] == b + c + d;
  }

  lemma HttpRoundTrip(h: HttpRequest, rest: Str, isIp: Str -> bool)
    requires ValidHttpRequest(h, isIp)
    requires |PutAction(HttpAction(h))| <= MAX_RECORD_PAYLOAD
    ensures TakeHttp(PutAction(HttpAction(h))[1..] + rest, isIp) == Some((HttpAction(h), rest))
  {
    hide TakeText, TakeSegments, TakeU64, PutText, PutSegments, ValidUtf8, LittleEndian, CanonicalHost, UrlParse, ValidUrl, UrlPrint;
    var b3 := LittleEndian(h.maxBytes, 8) + rest;
    var b2 := PutSegments(h.path) + b3;
    var b1 := PutText(h.host) + b2;
    assert PutAction(HttpAction(h))[1..] + rest == [MethodTag(h.verb)] + b1 by {
      Nested([2], [MethodTag(h.verb)], PutText(h.host), PutSegments(h.path), LittleEndian(h.maxBytes, 8), rest);
    }
    assert ([MethodTag(h.verb)] + b1)[1..] == b1;
    AsciiIsUtf8(h.host);
    TakePutText(h.host, b2);
    CanonicalHostIdempotent(h.host, isIp);
    UrlTexts(h.path);
    SegmentsFit(h.path);
    TakePutSegments(h.path, b3);
    TakePutU64(h.maxBytes, rest);
  }

  lemma BranchRoundTrip(branch: Segments, rest: Str)
    requires ValidBranch(branch) && |PutSegments(branch)| <= MAX_RECORD_PAYLOAD
    ensures TakeBranch(PutSegments(branch) + rest) == Some((branch, rest))
  {
    assert forall i :: 0 <= i < |branch| ==> ValidBranchSegment(branch[i]);
    SegmentsFit(branch);
    TakePutSegments(branch, rest);
    BranchPrintParse(branch);
  }

  lemma GitHubRoundTrip(g: GitHubRequest, rest: Str)
    requires ValidUtf8(g.installation) && ValidUtf8(g.repository) && ValidGitHubRequest(g)
    requires |PutAction(GitHubAction(g))| <= MAX_RECORD_PAYLOAD
    ensures TakeGitHub(PutAction(GitHubAction(g))[1..] + rest) == Some((GitHubAction(g), rest))
  {
    hide TakeText, PutText, PutSegments, ValidUtf8, TakeBranch, ValidBranch;
    var b4 := PutSegments(g.head) + rest;
    var b3 := PutSegments(g.base) + b4;
    var b2 := [OperationTag(g.operation)] + b3;
    var b1 := PutText(g.repository) + b2;
    assert PutAction(GitHubAction(g))[1..] + rest == PutText(g.installation) + b1;
    TakePutText(g.installation, b1);
    TakePutText(g.repository, b2);
    assert b2[1..] == b3;
    BranchRoundTrip(g.base, b4);
    BranchRoundTrip(g.head, rest);
  }

  lemma ActionRoundTrip(r: AuthorityRequest, rest: Str, isIp: Str -> bool)
    requires WellFormedAction(r, isIp) && |PutAction(r)| <= MAX_RECORD_PAYLOAD
    ensures TakeAction(PutAction(r) + rest, isIp) == Some((r, rest))
  {
    hide TakeFile, TakeHttp, TakeGitHub, ValidPath, ValidHttpRequest, ValidGitHubRequest;
    assert (PutAction(r) + rest)[1..] == PutAction(r)[1..] + rest;
    match r
    case FileAction(f) => FileRoundTrip(f, rest);
    case HttpAction(h) => HttpRoundTrip(h, rest, isIp);
    case GitHubAction(g) => GitHubRoundTrip(g, rest);
  }

  predicate WellFormedRequests(rs: seq<CapabilityRequest>, isIp: Str -> bool) {
    forall i :: 0 <= i < |rs| ==> WellFormedAction(rs[i].authority, isIp)
  }

  lemma {:induction false} RequestsRoundTrip(rs: seq<CapabilityRequest>, rest: Str, isIp: Str -> bool)
    requires WellFormedRequests(rs, isIp) && |PutRequests(rs)| <= MAX_RECORD_PAYLOAD
    ensures TakeRequests(PutRequests(rs) + rest, |rs|, isIp) == Some((rs, rest))
    decreases rs
  {
    hide TakeAction, PutAction, WellFormedAction;
    if rs == [] {
      assert PutRequests(rs) + rest == rest;
    } else {
      var tail := PutRequests(rs[1..]) + rest;
      var action := PutAction(rs[0].authority) + tail;
      assert PutRequests(rs) + rest == LittleEndian(rs[0].time, 8) + action;
      TakePutU64(rs[0].time, action);
      ActionRoundTrip(rs[0].authority, tail, isIp);
      RequestsRoundTrip(rs[1..], rest, isIp);
      assert [rs[0]] + rs[1..] == rs;
    }
  }

  /** Metadata as the kernel writes it: typed fields hold what their constructors accept. */
  predicate WellFormed(m: Metadata, isIp: Str -> bool) {
    && ValidUtf8(m.caller) && ValidUtf8(m.capability)
    && ValidRequestSet(m.requests) && m.requests.complete
    && WellFormedRequests(Requests(m.requests), isIp)
  }

  lemma BodyRoundTrip(m: Metadata, isIp: Str -> bool)
    requires WellFormed(m, isIp) && |PutAttempt(m)| <= MAX_RECORD_PAYLOAD
    ensures DecodeBody(m.instance, PutAttempt(m)[9..], isIp) == Some(m)
  {
    hide TakeText, TakeU64, TakeU32, PutText, ValidUtf8, LittleEndian, TakeRequests, WellFormedRequests, PutRequests;
    var rs := Requests(m.requests);
    var b4 := PutRequests(rs);
    var b3 := LittleEndian(|rs|, 4) + b4;
    var b2 := LittleEndian(m.epoch, 8) + b3;
    var b1 := PutText(m.capability) + b2;
    assert PutAttempt(m)[9..] == PutText(m.caller) + b1;
    TakePutText(m.caller, b1);
    TakePutText(m.capability, b2);
    TakePutU64(m.epoch, b3);
    TakePutU32(|rs|, b4);
    RequestsRoundTrip(rs, [], isIp);
    assert b4 + [] == b4;
    assert rs[1..] == m.requests.additional;
  }

  /**
   Decoding undoes encoding, for every complete request set of all three
   authority families and for every IP address parser.
   */
  lemma AttemptRoundTrip(m: Metadata, isIp: Str -> bool)
    requires WellFormed(m, isIp) && EncodeAttempt(m).Ok?
    ensures DecodeAttempt(EncodeAttempt(m).value, isIp) == Some(m)
  {
    hide DecodeBody, WellFormed, TakeU64, LittleEndian, PutText, PutRequests;
    var b := PutAttempt(m);
    assert b[1..] == LittleEndian(m.instance, 8) + b[9..];
    TakePutU64(m.instance, b[9..]);
    BodyRoundTrip(m, isIp);
  }

  /**
   The decoder is not injective: the version 1 form of an attempt of instance
   0 decodes to the same metadata, whose encoding is the version 2 form.
   */
  lemma VersionOneAlias(m: Metadata, isIp: Str -> bool)
    requires WellFormed(m, isIp) && EncodeAttempt(m).Ok? && m.instance == 0
    ensures var old_ := [1] + EncodeAttempt(m).value[9..];
            DecodeAttempt(old_, isIp) == Some(m) && EncodeAttempt(m) != Ok(old_)
  {
    hide DecodeBody, WellFormed, TakeU64, LittleEndian, PutText, PutRequests;
    BodyRoundTrip(m, isIp);
    var old_ := [1] + PutAttempt(m)[9..];
    assert old_[1..] == PutAttempt(m)[9..];
    assert PutAttempt(m)[0] == 2;
  }
}
