/** Canonical hosts and URL paths, and HTTP fetch authority (`http.rs`). */
module Http {
  import opened Bytes
  import opened Patterns
  import opened Bits

  const MAX_URL_PATH_BYTES := 4096
  const MAX_URL_PATH_SEGMENTS := 64
  const DOT: byte := '.' as int
  const SLASH: byte := '/' as int
  const DASH: byte := '-' as int

  // ----- hosts -------------------------------------------------------------

  datatype HostReason =
    | Empty
    | NonAscii
    | TooLong
    | EmptyLabel
    | LabelTooLong
    | LabelEdgeHyphen
    | InvalidLabelCharacter
    | IpAddressLiteral

  datatype InvalidHost = InvalidHost(index: Option<nat>, reason: HostReason)

  predicate IsAscii(s: Str) {
    forall i :: 0 <= i < |s| ==> s[i] < 0x80
  }

  function LowerByte(b: byte): byte {
    if 'A' as int <= b <= 'Z' as int then b + 32 else b
  }

  /** `to_ascii_lowercase`. */
  function Lower(s: Str): (r: Str)
    ensures |r| == |s|
    ensures forall i :: 0 <= i < |s| ==> r[i] == LowerByte(s[i])
  {
    if s == [] then [] else [LowerByte(s[0])] + Lower(s[1..])
  }

  /** `strip_suffix('.')`: one terminal root dot is dropped. */
  function StripDot(s: Str): Str {
    if s != [] && s[|s| - 1] == DOT then s[..|s| - 1] else s
  }

  predicate Alphanumeric(b: byte) {
    || '0' as int <= b <= '9' as int
    || 'a' as int <= b <= 'z' as int
    || 'A' as int <= b <= 'Z' as int
  }

  function LabelFault(l: Str): Option<HostReason> {
    if l == [] then Some(EmptyLabel)
    else if |l| > 63 then Some(LabelTooLong)
    else if l[0] == DASH || l[|l| - 1] == DASH then Some(LabelEdgeHyphen)
    else if exists i :: 0 <= i < |l| && !(Alphanumeric(l[i]) || l[i] == DASH) then Some(InvalidLabelCharacter)
    else None
  }

  /** What each rule forbids in a label: RFC 1123 host labels of 1 to 63 bytes. */
  predicate LabelBreaks(l: Str, r: HostReason) {
    match r
    case EmptyLabel => |l| == 0
    case LabelTooLong => |l| >= 64
    case LabelEdgeHyphen => |l| > 0 && (l[0] == '-' as int || l[|l| - 1] == '-' as int)
    case InvalidLabelCharacter => exists i :: 0 <= i < |l| && !LabelByte(l[i])
    case _ => false
  }

  predicate LabelByte(b: byte) {
    b == '-' as int || 0x30 <= b <= 0x39 || 0x41 <= b <= 0x5A || 0x61 <= b <= 0x7A
  }

  function LabelOrder(r: HostReason): nat {
    match r
    case EmptyLabel => 0
    case LabelTooLong => 1
    case LabelEdgeHyphen => 2
    case InvalidLabelCharacter => 3
    case _ => 4
  }

  /** A label passes exactly when it breaks no rule, and otherwise the first broken one is reported. */
  lemma LabelFaultExact(l: Str)
    ensures LabelFault(l).None? <==> forall r :: !LabelBreaks(l, r)
    ensures LabelFault(l).Some? ==>
              LabelBreaks(l, LabelFault(l).value) && forall r :: LabelBreaks(l, r) ==> LabelOrder(LabelFault(l).value) <= LabelOrder(r)
  {
    assert LabelBreaks(l, EmptyLabel) <==> l == [];
    assert LabelBreaks(l, LabelTooLong) <==> |l| > 63;
    assert LabelBreaks(l, LabelEdgeHyphen) <==> l != [] && (l[0] == DASH || l[|l| - 1] == DASH);
    assert LabelBreaks(l, InvalidLabelCharacter) <==> exists i :: 0 <= i < |l| && !(Alphanumeric(l[i]) || l[i] == DASH);
  }

  predicate GoodLabels(labels: seq<Str>) {
    forall i :: 0 <= i < |labels| ==> LabelFault(labels[i]).None?
  }

  /** What a canonical host name is, apart from how it is reached. */
  predicate ValidHost(h: Str, isIp: Str -> bool) {
    && IsAscii(h)
    && 0 < |h| <= 253
    && !isIp(h)
    && Lower(h) == h
    && GoodLabels(Split(h, DOT))
  }

  /** The faults checked before the labels are looked at. */
  function HostFault(host: Str, isIp: Str -> bool): Option<HostReason> {
    if !IsAscii(host) then Some(NonAscii)
    else
      var canonical := Lower(StripDot(host));
      if canonical == [] then Some(Empty)
      else if |canonical| > 253 then Some(TooLong)
      else if isIp(canonical) then Some(IpAddressLiteral)
      else None
  }

  /** Whether `host` is accepted, and the name it is accepted as. */
  function CanonicalHost(host: Str, isIp: Str -> bool): Option<Str> {
    var canonical := Lower(StripDot(host));
    if HostFault(host, isIp).None? && GoodLabels(Split(canonical, DOT)) then Some(canonical) else None
  }

  /**
   `CanonicalHost::new`, with the IP address parser as a parameter. A label
   rejection names the first label that breaks a rule.
   */
  method NewHost(host: Str, isIp: Str -> bool) returns (r: Result<Str, InvalidHost>)
    ensures r.Ok? <==> CanonicalHost(host, isIp).Some?
    ensures r.Ok? ==> Some(r.value) == CanonicalHost(host, isIp)
    ensures r.Err? && r.error.index.None? ==>
              HostWrong(host, isIp, r.error.reason) && forall o :: HostWrong(host, isIp, o) ==> HostOrder(r.error.reason) <= HostOrder(o)
    ensures r.Err? && r.error.index.Some? ==>
              var labels, k := Split(Lower(StripDot(host)), DOT), r.error.index.value;
              && k < |labels| && GoodLabels(labels[..k]) && LabelBreaks(labels[k], r.error.reason)
              && forall o :: LabelBreaks(labels[k], o) ==> LabelOrder(r.error.reason) <= LabelOrder(o)
  {
    hide HostWrong, LabelBreaks, LabelFault;
    HostFaultExact(host, isIp);
    var fault := HostFault(host, isIp);
    if fault.Some? {
      return Err(InvalidHost(None, fault.value));
    }
    var canonical := Lower(StripDot(host));
    var labels := Split(canonical, DOT);
    for index := 0 to |labels|
      invariant GoodLabels(labels[..index])
    {
      LabelFaultExact(labels[index]);
      var bad := LabelFault(labels[index]);
      if bad.Some? {
        return Err(InvalidHost(Some(index), bad.value));
      }
    }
    assert labels[..|labels|] == labels;
    r := Ok(canonical);
  }

  /** The last piece of a split is empty exactly when the text ends with the separator. */
  lemma {:induction false} SplitLast(s: Str, sep: byte)
    ensures var parts := Split(s, sep);
            parts[|parts| - 1] == [] <==> s == [] || s[|s| - 1] == sep
  {
    if s != [] {
      SplitLast(s[1..], sep);
    }
  }

  /** Canonicalisation yields canonical names and leaves canonical names alone. */
  lemma CanonicalHostIdempotent(host: Str, isIp: Str -> bool)
    ensures CanonicalHost(host, isIp).Some? ==> ValidHost(CanonicalHost(host, isIp).value, isIp)
    ensures ValidHost(host, isIp) ==> CanonicalHost(host, isIp) == Some(host)
  {
    if ValidHost(host, isIp) {
      SplitLast(host, DOT);
      var labels := Split(host, DOT);
      assert LabelFault(labels[|labels| - 1]).None?;
      assert StripDot(host) == host;
    }
  }

  /** A canonical name written out: 1 to 253 bytes, lower-case labels of 1 to 63 letters, digits and inner hyphens. */
  predicate CanonicalName(c: Str) {
    1 <= |c| <= 253 && forall l :: l in Split(c, '.' as int) ==> CanonicalLabel(l)
  }

  predicate CanonicalLabel(l: Str) {
    && 1 <= |l| <= 63 && l[0] != '-' as int && l[|l| - 1] != '-' as int
    && forall i :: 0 <= i < |l| ==> l[i] == '-' as int || 0x30 <= l[i] <= 0x39 || 0x61 <= l[i] <= 0x7A
  }

  /** `host` is `c` in some mixture of cases. */
  predicate SameButCase(host: Str, c: Str) {
    |host| == |c| && forall i :: 0 <= i < |c| ==> host[i] == c[i] || (0x41 <= host[i] <= 0x5A && c[i] == host[i] + 32)
  }

  /** Every byte of a piece is a byte of the text other than the separator, and conversely. */
  lemma {:induction false} SplitBytes(s: Str, sep: byte, b: byte)
    ensures b != sep ==> (b in s <==> exists k :: 0 <= k < |Split(s, sep)| && b in Split(s, sep)[k])
    ensures forall k :: 0 <= k < |Split(s, sep)| ==> sep !in Split(s, sep)[k]
    decreases |s|
  {
    var parts := Split(s, sep);
    if s != [] {
      SplitBytes(s[1..], sep, b);
      var rest := Split(s[1..], sep);
      if s[0] == sep {
        assert forall k :: 0 <= k < |rest| ==> parts[k + 1] == rest[k];
        assert forall k :: 0 < k < |parts| ==> parts[k] == rest[k - 1];
      } else {
        assert parts[0] == [s[0]] + rest[0];
        assert forall k :: 0 < k < |parts| ==> parts[k] == rest[k];
      }
    }
  }

  /** In lower case, the label rules leave exactly the canonical labels. */
  lemma CanonicalLabelExact(l: Str)
    requires Lower(l) == l
    ensures CanonicalLabel(l) <==> LabelFault(l).None?
  {
    forall i | 0 <= i < |l| ensures LowerByte(l[i]) == l[i] {
    }
  }

  lemma CanonicalLabelLower(l: Str)
    requires CanonicalLabel(l)
    ensures forall b :: b in l ==> b < 0x80 && LowerByte(b) == b
    ensures Lower(l) == l
  {
  }

  /** Canonical names by their bytes are canonical names by the rules for labels. */
  lemma CanonicalNameExact(c: Str)
    ensures CanonicalName(c) <==> 0 < |c| <= 253 && IsAscii(c) && Lower(c) == c && GoodLabels(Split(c, DOT))
  {
    hide CanonicalLabel, LabelFault, Split;
    var parts := Split(c, DOT);
    if CanonicalName(c) {
      forall k | 0 <= k < |parts| ensures LabelFault(parts[k]).None? {
        assert parts[k] in parts;
        CanonicalLabelLower(parts[k]);
        CanonicalLabelExact(parts[k]);
      }
      forall i | 0 <= i < |c| ensures c[i] < 0x80 && LowerByte(c[i]) == c[i] {
        SplitBytes(c, DOT, c[i]);
        if c[i] != DOT {
          var k :| 0 <= k < |parts| && c[i] in parts[k];
          CanonicalLabelLower(parts[k]);
        }
      }
    }
    if 0 < |c| <= 253 && IsAscii(c) && Lower(c) == c && GoodLabels(parts) {
      forall l | l in parts ensures CanonicalLabel(l) {
        var k :| 0 <= k < |parts| && parts[k] == l;
        LowerPiece(c, k);
        CanonicalLabelExact(l);
      }
    }
  }

  lemma LowerPiece(c: Str, k: nat)
    requires Lower(c) == c && k < |Split(c, DOT)|
    ensures Lower(Split(c, DOT)[k]) == Split(c, DOT)[k]
  {
    var l := Split(c, DOT)[k];
    forall i | 0 <= i < |l| ensures LowerByte(l[i]) == l[i] {
      SplitBytes(c, DOT, l[i]);
      assert l[i] in l;
      var j :| 0 <= j < |c| && c[j] == l[i];
    }
  }

  lemma CanonicalEnd(c: Str)
    requires CanonicalName(c)
    ensures c[|c| - 1] != DOT
  {
    hide Split;
    SplitLast(c, DOT);
    var parts := Split(c, DOT);
    var last := parts[|parts| - 1];
    assert last in parts;
    assert CanonicalLabel(last);
  }

  /**
   A host is accepted as `c` if and only if `c` is a canonical name that is no
   IP literal and the host spells it, in any case and with or without one
   final dot.
   */
  lemma CanonicalHostExact(host: Str, isIp: Str -> bool, c: Str)
    ensures CanonicalHost(host, isIp) == Some(c) <==>
            CanonicalName(c) && !isIp(c) && (SameButCase(host, c) || SameButCase(host, c + ['.' as int]))
  {
    hide CanonicalHost, CanonicalName, SameButCase;
    if CanonicalHost(host, isIp) == Some(c) {
      AcceptedSpells(host, isIp, c);
    }
    if CanonicalName(c) && !isIp(c) && (SameButCase(host, c) || SameButCase(host, c + [DOT])) {
      SpelledAccepted(host, isIp, c);
    }
  }

  lemma AcceptedSpells(host: Str, isIp: Str -> bool, c: Str)
    requires CanonicalHost(host, isIp) == Some(c)
    ensures CanonicalName(c) && !isIp(c) && (SameButCase(host, c) || SameButCase(host, c + [DOT]))
  {
    hide GoodLabels, Split, CanonicalName, SameButCase;
    var bare := StripDot(host);
    assert IsAscii(bare);
    LowerSpells(bare);
    LowerLower(bare);
    CanonicalNameExact(c);
    assert host == bare || host == bare + [DOT];
  }

  lemma SpelledAccepted(host: Str, isIp: Str -> bool, c: Str)
    requires CanonicalName(c) && !isIp(c) && (SameButCase(host, c) || SameButCase(host, c + [DOT]))
    ensures CanonicalHost(host, isIp) == Some(c)
  {
    hide GoodLabels, Split;
    CanonicalNameExact(c);
    CanonicalEnd(c);
    hide CanonicalName;
    if SameButCase(host, c) {
      assert host[|c| - 1] != DOT;
      SpellsLower(host, c);
    } else {
      assert (c + [DOT])[|c|] == DOT;
      assert host[|c|] == DOT;
      assert StripDot(host) == host[..|c|];
      SameStem(host, c);
      SpellsLower(host[..|c|], c);
    }
  }

  lemma SameStem(host: Str, c: Str)
    requires SameButCase(host, c + [DOT])
    ensures SameButCase(host[..|c|], c)
  {
    forall i | 0 <= i < |c| ensures host[..|c|][i] == host[i] && (c + [DOT])[i] == c[i] {
    }
  }

  lemma LowerSpells(s: Str)
    ensures SameButCase(s, Lower(s)) && SameButCase(s + [DOT], Lower(s) + [DOT])
  {
  }

  lemma LowerLower(s: Str)
    ensures Lower(Lower(s)) == Lower(s) && (IsAscii(s) ==> IsAscii(Lower(s)))
  {
  }

  lemma SpellsLower(s: Str, c: Str)
    requires SameButCase(s, c) && Lower(c) == c && IsAscii(c)
    ensures Lower(s) == c && IsAscii(s)
  {
    forall i | 0 <= i < |c| ensures LowerByte(s[i]) == c[i] && s[i] < 0x80 {
      assert LowerByte(c[i]) == c[i];
    }
  }

  /** What is wrong with a host before its labels are looked at, in order. */
  predicate HostWrong(host: Str, isIp: Str -> bool, r: HostReason) {
    var bare := if |host| > 0 && host[|host| - 1] == '.' as int then |host| - 1 else |host|;
    match r
    case NonAscii => exists i :: 0 <= i < |host| && host[i] >= 0x80
    case Empty => bare == 0
    case TooLong => bare > 253
    case IpAddressLiteral => isIp(Lower(host[..bare]))
    case _ => false
  }

  function HostOrder(r: HostReason): nat {
    match r
    case NonAscii => 0
    case Empty => 1
    case TooLong => 2
    case IpAddressLiteral => 3
    case _ => 4
  }

  lemma HostFaultExact(host: Str, isIp: Str -> bool)
    ensures HostFault(host, isIp).None? <==> forall r :: !HostWrong(host, isIp, r)
    ensures HostFault(host, isIp).Some? ==>
              && HostWrong(host, isIp, HostFault(host, isIp).value)
              && forall r :: HostWrong(host, isIp, r) ==> HostOrder(HostFault(host, isIp).value) <= HostOrder(r)
  {
    var bare := if |host| > 0 && host[|host| - 1] == DOT then |host| - 1 else |host|;
    assert StripDot(host) == host[..bare];
    assert HostWrong(host, isIp, NonAscii) <==> !IsAscii(host);
    assert HostWrong(host, isIp, Empty) <==> Lower(StripDot(host)) == [];
    assert HostWrong(host, isIp, TooLong) <==> |Lower(StripDot(host))| > 253;
    assert HostWrong(host, isIp, IpAddressLiteral) <==> isIp(Lower(StripDot(host)));
  }

  // ----- URL paths ---------------------------------------------------------

  datatype UrlReason =
    | MissingLeadingSlash
    | TrailingSlash
    | UrlNonAscii
    | EmptySegment
    | CurrentDirectory
    | ParentDirectory
    | ContainsBackslash
    | ContainsPercentEncoding
    | ContainsQueryDelimiter
    | ContainsFragmentDelimiter
    | ContainsControlCharacter
    | ContainsInvalidCharacter
    | TooManySegments
    | EncodedPathTooLong

  datatype InvalidUrl = InvalidUrl(index: Option<nat>, reason: UrlReason)

  /** `pchar` of section 3.3 of RFC 3986 without percent encoding. */
  predicate PathCharacter(b: byte) {
    || Alphanumeric(b)
    || b in ['-' as int, '.' as int, '_' as int, '~' as int]
    || b in ['!' as int, '$' as int, '&' as int, '\'' as int, '(' as int, ')' as int,
             '*' as int, '+' as int, ',' as int, ';' as int, '=' as int]
    || b in [':' as int, '@' as int]
  }

  predicate ControlByte(b: byte) {
    b < 0x20 || b == 0x7F
  }

  function UrlSegmentFault(s: Str): Option<UrlReason> {
    if s == [] then Some(EmptySegment)
    else if s == [DOT] then Some(CurrentDirectory)
    else if s == [DOT, DOT] then Some(ParentDirectory)
    else if '\\' as int in s then Some(ContainsBackslash)
    else if '%' as int in s then Some(ContainsPercentEncoding)
    else if '?' as int in s then Some(ContainsQueryDelimiter)
    else if '#' as int in s then Some(ContainsFragmentDelimiter)
    else if exists i :: 0 <= i < |s| && ControlByte(s[i]) then Some(ContainsControlCharacter)
    else if exists i :: 0 <= i < |s| && !PathCharacter(s[i]) then Some(ContainsInvalidCharacter)
    else None
  }

  predicate ValidUrlSegment(s: Str) {
    && s != [] && s != [DOT] && s != [DOT, DOT]
    && forall i :: 0 <= i < |s| ==> PathCharacter(s[i])
  }

  /** The long chain of rejections accepts exactly the `pchar` segments. */
  lemma UrlSegmentFaultExact(s: Str)
    ensures UrlSegmentFault(s).None? <==> ValidUrlSegment(s)
  {
    if ValidUrlSegment(s) {
      forall b: byte | b in s
        ensures PathCharacter(b)
      {
        var i :| 0 <= i < |s| && s[i] == b;
      }
      assert !PathCharacter('\\' as int) && !PathCharacter('%' as int);
      assert !PathCharacter('?' as int) && !PathCharacter('#' as int);
    }
  }

  /** `unreserved`, `sub-delims`, `:` and `@` of RFC 3986, by their codes. */
  predicate Pchar(b: byte) {
    || 0x30 <= b <= 0x39 || 0x41 <= b <= 0x5A || 0x61 <= b <= 0x7A
    || b == 0x2D || b == 0x2E || b == 0x5F || b == 0x7E
    || b == 0x21 || b == 0x24 || 0x26 <= b <= 0x2C || b == 0x3B || b == 0x3D
    || b == 0x3A || b == 0x40
  }

  lemma PathCharacterExact(b: byte)
    ensures PathCharacter(b) <==> Pchar(b)
  {
  }

  /** What each rule forbids in a URL path segment. */
  predicate UrlBreaks(s: Str, r: UrlReason) {
    match r
    case EmptySegment => |s| == 0
    case CurrentDirectory => |s| == 1 && s[0] == '.' as int
    case ParentDirectory => |s| == 2 && s[0] == '.' as int && s[1] == '.' as int
    case ContainsBackslash => exists i :: 0 <= i < |s| && s[i] == '\\' as int
    case ContainsPercentEncoding => exists i :: 0 <= i < |s| && s[i] == '%' as int
    case ContainsQueryDelimiter => exists i :: 0 <= i < |s| && s[i] == '?' as int
    case ContainsFragmentDelimiter => exists i :: 0 <= i < |s| && s[i] == '#' as int
    case ContainsControlCharacter => exists i :: 0 <= i < |s| && (s[i] < 0x20 || s[i] == 0x7F)
    case ContainsInvalidCharacter => exists i :: 0 <= i < |s| && !Pchar(s[i])
    case _ => false
  }

  function UrlOrder(r: UrlReason): nat {
    match r
    case EmptySegment => 0
    case CurrentDirectory => 1
    case ParentDirectory => 2
    case ContainsBackslash => 3
    case ContainsPercentEncoding => 4
    case ContainsQueryDelimiter => 5
    case ContainsFragmentDelimiter => 6
    case ContainsControlCharacter => 7
    case ContainsInvalidCharacter => 8
    case _ => 9
  }

  /** The reported rule is the first one the segment breaks. */
  lemma UrlSegmentFaultFirst(s: Str)
    ensures UrlSegmentFault(s).None? <==> forall r :: !UrlBreaks(s, r)
    ensures UrlSegmentFault(s).Some? ==>
              UrlBreaks(s, UrlSegmentFault(s).value) && forall r :: UrlBreaks(s, r) ==> UrlOrder(UrlSegmentFault(s).value) <= UrlOrder(r)
  {
    hide PathCharacter, Pchar;
    forall i | 0 <= i < |s| ensures PathCharacter(s[i]) <==> Pchar(s[i]) {
      PathCharacterExact(s[i]);
    }
    assert UrlBreaks(s, EmptySegment) <==> s == [];
    assert UrlBreaks(s, CurrentDirectory) <==> s == [DOT];
    assert UrlBreaks(s, ParentDirectory) <==> s == [DOT, DOT];
    assert UrlBreaks(s, ContainsBackslash) <==> '\\' as int in s;
    assert UrlBreaks(s, ContainsPercentEncoding) <==> '%' as int in s;
    assert UrlBreaks(s, ContainsQueryDelimiter) <==> '?' as int in s;
    assert UrlBreaks(s, ContainsFragmentDelimiter) <==> '#' as int in s;
    assert UrlBreaks(s, ContainsControlCharacter) <==> exists i :: 0 <= i < |s| && ControlByte(s[i]);
    assert UrlBreaks(s, ContainsInvalidCharacter) <==> exists i :: 0 <= i < |s| && !PathCharacter(s[i]);
  }

  /** Rendering of a URL path: `/` for the root, else `/` before each segment. */
  function UrlPrint(segments: Segments): Str {
    if segments == [] then [SLASH] else [SLASH] + Join(segments, SLASH)
  }

  /** The first segment at or after `i` that breaks a rule, with the rule. */
  function FirstBadSegment(parts: seq<Str>, i: nat): (r: Option<InvalidUrl>)
    requires i <= |parts|
    ensures r.None? <==> forall k :: i <= k < |parts| ==> UrlSegmentFault(parts[k]).None?
    ensures r.Some? ==>
              && r.value.index.Some? && i <= r.value.index.value < |parts|
              && UrlSegmentFault(parts[r.value.index.value]) == Some(r.value.reason)
              && forall k :: i <= k < r.value.index.value ==> UrlSegmentFault(parts[k]).None?
    decreases |parts| - i
  {
    if i == |parts| then None
    else if UrlSegmentFault(parts[i]).Some? then Some(InvalidUrl(Some(i), UrlSegmentFault(parts[i]).value))
    else FirstBadSegment(parts, i + 1)
  }

  /** `CanonicalUrlPath::new`. */
  function UrlParse(path: Str): Result<Segments, InvalidUrl> {
    if path == [SLASH] then Ok([])
    else if path == [] || path[0] != SLASH then Err(InvalidUrl(None, MissingLeadingSlash))
    else if path[|path| - 1] == SLASH then Err(InvalidUrl(None, TrailingSlash))
    else if !IsAscii(path) then Err(InvalidUrl(None, UrlNonAscii))
    else if |path| > MAX_URL_PATH_BYTES then Err(InvalidUrl(None, EncodedPathTooLong))
    else
      var parts := Split(path[1..], SLASH);
      if |parts| > MAX_URL_PATH_SEGMENTS then Err(InvalidUrl(Some(MAX_URL_PATH_SEGMENTS), TooManySegments))
      else
        var bad := FirstBadSegment(parts, 0);
        if bad.Some? then Err(bad.value) else Ok(parts)
  }

  /** Why a spelling is refused, looked for in this order; the last case is the first bad segment. */
  ghost predicate UrlRefused(path: Str, e: InvalidUrl) {
    if |path| == 0 || path[0] != '/' as int then e == InvalidUrl(None, MissingLeadingSlash)
    else if path[|path| - 1] == '/' as int then |path| > 1 && e == InvalidUrl(None, TrailingSlash)
    else if exists i :: 0 <= i < |path| && path[i] >= 0x80 then e == InvalidUrl(None, UrlNonAscii)
    else if |path| > 4096 then e == InvalidUrl(None, EncodedPathTooLong)
    else
      var parts := Split(path[1..], '/' as int);
      if |parts| > 64 then e == InvalidUrl(Some(64), TooManySegments)
      else
        && e.index.Some? && e.index.value < |parts|
        && (forall k, r | 0 <= k < e.index.value :: !UrlBreaks(parts[k], r))
        && UrlBreaks(parts[e.index.value], e.reason)
        && forall r :: UrlBreaks(parts[e.index.value], r) ==> UrlOrder(e.reason) <= UrlOrder(r)
  }

  /** A refused spelling is reported with its first fault and where it is. */
  lemma UrlParseRefuses(path: Str)
    ensures UrlParse(path).Err? ==> UrlRefused(path, UrlParse(path).error)
  {
    hide UrlBreaks, UrlSegmentFault, Split;
    if UrlParse(path).Err? && path != [] {
      var parts := Split(path[1..], SLASH);
      forall k | 0 <= k < |parts| ensures UrlSegmentFault(parts[k]).None? <==> forall r :: !UrlBreaks(parts[k], r) {
        UrlSegmentFaultFirst(parts[k]);
      }
      var bad := FirstBadSegment(parts, 0);
      if bad.Some? {
        UrlSegmentFaultFirst(parts[bad.value.index.value]);
      }
    }
  }

  /** The limits of a canonical URL path in numbers. */
  lemma ValidUrlExact(segments: Segments)
    ensures ValidUrl(segments) <==>
            && |segments| <= 64 && |UrlPrint(segments)| <= 4096
            && forall k, r | 0 <= k < |segments| :: !UrlBreaks(segments[k], r)
  {
    hide UrlBreaks, UrlSegmentFault, ValidUrlSegment, UrlPrint;
    forall k | 0 <= k < |segments| ensures ValidUrlSegment(segments[k]) <==> forall r :: !UrlBreaks(segments[k], r) {
      UrlSegmentFaultExact(segments[k]);
      UrlSegmentFaultFirst(segments[k]);
    }
  }

  /** What a canonical URL path is, on its segments. */
  predicate ValidUrl(segments: Segments) {
    && |segments| <= MAX_URL_PATH_SEGMENTS
    && |UrlPrint(segments)| <= MAX_URL_PATH_BYTES
    && forall i :: 0 <= i < |segments| ==> ValidUrlSegment(segments[i])
  }

  lemma {:induction false} JoinIsAscii(parts: seq<Str>)
    requires forall i :: 0 <= i < |parts| ==> ValidUrlSegment(parts[i])
    ensures IsAscii(Join(parts, SLASH))
    ensures parts != [] ==> Join(parts, SLASH) != [] && Join(parts, SLASH)[|Join(parts, SLASH)| - 1] != SLASH
  {
    if |parts| > 0 {
      assert ValidUrlSegment(parts[0]);
      assert IsAscii(parts[0]);
      if |parts| > 1 {
        JoinIsAscii(parts[1..]);
      } else {
        assert PathCharacter(parts[0][|parts[0]| - 1]);
      }
    }
  }

  lemma NoSlashes(segments: Segments)
    requires forall i :: 0 <= i < |segments| ==> ValidUrlSegment(segments[i])
    ensures forall p :: p in segments ==> SLASH !in p
  {
    assert !PathCharacter(SLASH);
    forall p | p in segments
      ensures SLASH !in p
    {
      assert ValidUrlSegment(p);
    }
  }

  lemma UrlAccepted(path: Str, parts: seq<Str>)
    requires |path| > 1 && path[0] == SLASH && path[|path| - 1] != SLASH && IsAscii(path) && |path| <= MAX_URL_PATH_BYTES
    requires parts == Split(path[1..], SLASH) && |parts| <= MAX_URL_PATH_SEGMENTS
    requires forall k :: 0 <= k < |parts| ==> UrlSegmentFault(parts[k]).None?
    ensures UrlParse(path) == Ok(parts)
  {
    hide Split, UrlSegmentFault;
  }

  /** Printing a canonical URL path and parsing it again returns it. */
  lemma UrlPrintParse(segments: Segments)
    requires ValidUrl(segments)
    ensures UrlParse(UrlPrint(segments)) == Ok(segments)
  {
    if segments != [] {
      hide Split, Join, UrlParse, UrlSegmentFault, ValidUrlSegment;
      JoinIsAscii(segments);
      var path := UrlPrint(segments);
      var text := Join(segments, SLASH);
      assert path[1..] == text;
      assert path[|path| - 1] == text[|text| - 1];
      assert forall i :: 0 < i < |path| ==> path[i] == text[i - 1];
      NoSlashes(segments);
      SplitJoin(segments, SLASH);
      forall k | 0 <= k < |segments|
        ensures UrlSegmentFault(segments[k]).None?
      {
        UrlSegmentFaultExact(segments[k]);
      }
      UrlAccepted(path, segments);
    }
  }

  /** Every accepted spelling is the one spelling of the path it denotes. */
  lemma UrlParsePrint(path: Str)
    requires UrlParse(path).Ok?
    ensures ValidUrl(UrlParse(path).value) && UrlPrint(UrlParse(path).value) == path
  {
    if path != [SLASH] {
      var parts := Split(path[1..], SLASH);
      JoinSplit(path[1..], SLASH);
      assert path == [SLASH] + path[1..];
      forall k | 0 <= k < |parts|
        ensures ValidUrlSegment(parts[k])
      {
        UrlSegmentFaultExact(parts[k]);
      }
    }
  }

  // ----- URL containment ---------------------------------------------------

  predicate UrlHasDescendant(p: Segments) {
    p == [] || (|p| < MAX_URL_PATH_SEGMENTS && |UrlPrint(p)| + 2 <= MAX_URL_PATH_BYTES)
  }

  lemma {:induction false} JoinAppendLen(p: Segments, q: Segments)
    requires p != [] && q != []
    ensures |Join(p + q, SLASH)| == |Join(p, SLASH)| + 1 + |Join(q, SLASH)|
  {
    if |p| == 1 {
      assert (p + q)[1..] == q;
    } else {
      assert (p + q)[1..] == p[1..] + q;
      JoinAppendLen(p[1..], q);
    }
  }

  lemma UrlNoDescendant(p: Segments, q: Segments)
    requires ValidUrl(q) && p < q
    ensures UrlHasDescendant(p)
  {
    if p != [] {
      var rest := q[|p|..];
      assert q == p + rest;
      JoinAppendLen(p, rest);
      assert ValidUrlSegment(q[|p|]) && rest[0] == q[|p|];
    }
  }

  /** `url_path_below` is containment over valid URL paths, up to dead-end prefixes. */
  lemma UrlBelowExact(child: Pattern, parent: Pattern)
    requires ValidUrl(child.name)
    ensures Below(child, parent) <==> Contained(ValidUrl, child, parent) && !DeadEnd(child, parent, UrlHasDescendant(child.name))
    ensures Contained(ValidUrl, child, parent) <==> Below(Tighten(child, UrlHasDescendant(child.name)), parent)
  {
    var p := child.name;
    var tail: Segments := [['a' as int]];
    if UrlHasDescendant(p) {
      assert ValidUrlSegment(tail[0]);
      if p == [] {
        assert p + tail == tail;
      } else {
        JoinAppendLen(p, tail);
      }
      assert ValidUrl(p + tail);
    }
    forall q | ValidUrl(q) && p <= q && !UrlHasDescendant(p)
      ensures q == p
    {
      if q != p {
        UrlNoDescendant(p, q);
      }
    }
    BelowExact(ValidUrl, child, parent, UrlHasDescendant(p), p + tail);
  }

  // ----- authority ---------------------------------------------------------

  datatype Method = Get | Head

  function MethodTag(m: Method): (t: byte)
    ensures t < 2
  {
    match m
    case Get => 0
    case Head => 1
  }

  /** A `u8` bitset over the two methods. */
  type Methods = nat

  predicate HasMethod(bits: Methods, m: Method) {
    Has(bits, MethodTag(m), 8)
  }

  predicate ValidMethods(bits: Methods) {
    bits < Pow2(2)
  }

  datatype HttpAuthority = HttpAuthority(methods: Methods, host: Str, path: Pattern, maxBytes: u64)
  datatype HttpRequest = HttpRequest(verb: Method, host: Str, path: Segments, maxBytes: u64)

  predicate HttpMatches(a: HttpAuthority, r: HttpRequest) {
    && HasMethod(a.methods, r.verb)
    && a.host == r.host
    && Matches(a.path, r.path)
    && r.maxBytes <= a.maxBytes
  }

  predicate HttpBelow(child: HttpAuthority, parent: HttpAuthority) {
    && Subset(child.methods, parent.methods, 8)
    && child.host == parent.host
    && Below(child.path, parent.path)
    && child.maxBytes <= parent.maxBytes
  }

  predicate ValidHttpRequest(r: HttpRequest, isIp: Str -> bool) {
    ValidHost(r.host, isIp) && ValidUrl(r.path)
  }

  predicate ValidHttpAuthority(a: HttpAuthority, isIp: Str -> bool) {
    ValidMethods(a.methods) && ValidHost(a.host, isIp) && ValidUrl(a.path.name)
  }

  function TightHttp(a: HttpAuthority): HttpAuthority {
    a.(path := Tighten(a.path, UrlHasDescendant(a.path.name)))
  }

  lemma MethodsSubsetExact(a: Methods, b: Methods)
    requires ValidMethods(a)
    ensures Subset(a, b, 8) <==> forall m :: HasMethod(a, m) ==> HasMethod(b, m)
    ensures a != 0 <==> HasMethod(a, Get) || HasMethod(a, Head)
  {
    SubsetExact(a, b, 2, 8);
    assert Subset(a, b, 8) <==> (Has(a, 0, 8) ==> Has(b, 0, 8)) && (Has(a, 1, 8) ==> Has(b, 1, 8));
    assert HasMethod(a, Get) == Has(a, 0, 8) && HasMethod(a, Head) == Has(a, 1, 8);
    assert HasMethod(b, Get) == Has(b, 0, 8) && HasMethod(b, Head) == Has(b, 1, 8);
  }

  ghost predicate HttpContained(child: HttpAuthority, parent: HttpAuthority, isIp: Str -> bool) {
    forall r :: ValidHttpRequest(r, isIp) && HttpMatches(child, r) ==> HttpMatches(parent, r)
  }

  /** The contained children `http_fetch_body_below` refuses. */
  predicate HttpGap(child: HttpAuthority, parent: HttpAuthority) {
    if child.methods == 0 then child.host != parent.host || !Below(child.path, parent.path) || child.maxBytes > parent.maxBytes
    else DeadEnd(child.path, parent.path, UrlHasDescendant(child.path.name))
  }

  /** HTTP delegation is containment of permitted requests, save for the gap. */
  lemma HttpBelowExact(child: HttpAuthority, parent: HttpAuthority, isIp: Str -> bool)
    requires ValidHttpAuthority(child, isIp) && ValidHttpAuthority(parent, isIp)
    ensures HttpBelow(child, parent) <==> HttpContained(child, parent, isIp) && !HttpGap(child, parent)
    ensures HttpContained(child, parent, isIp) <==> child.methods == 0 || HttpBelow(TightHttp(child), parent)
  {
    MethodsSubsetExact(child.methods, parent.methods);
    UrlBelowExact(child.path, parent.path);
    if HttpContained(child, parent, isIp) && child.methods != 0 {
      var m := if HasMethod(child.methods, Get) then Get else Head;
      forall n | HasMethod(child.methods, n)
        ensures HasMethod(parent.methods, n) && child.host == parent.host && child.maxBytes <= parent.maxBytes
      {
        var r := HttpRequest(n, child.host, child.path.name, child.maxBytes);
        assert ValidHttpRequest(r, isIp) && HttpMatches(child, r);
      }
      assert child.host == parent.host by { assert HasMethod(child.methods, m); }
      forall q | ValidUrl(q) && Matches(child.path, q)
        ensures Matches(parent.path, q)
      {
        var r := HttpRequest(m, child.host, q, child.maxBytes);
        assert ValidHttpRequest(r, isIp) && HttpMatches(child, r);
      }
    }
  }
}
