/** What the attempt decoder accepts: only well-formed metadata, and never bytes beyond it. */
module AttemptDecoding {
  import opened Bytes
  import opened Patterns
  import opened Path
  import opened File
  import opened Http
  import opened Github
  import opened Capability
  import opened AttemptCodec

  // ----- UTF-8 -------------------------------------------------------------

  lemma WidthKept(a: Str, b: Str)
    ensures CharWidth(a) > 0 ==> CharWidth(a + b) == CharWidth(a)
  {
    if |a| >= 1 {
      assert (a + b)[0] == a[0];
    }
    if |a| >= 2 {
      assert (a + b)[1] == a[1];
    }
    if |a| >= 3 {
      assert (a + b)[2] == a[2];
    }
    if |a| >= 4 {
      assert (a + b)[3] == a[3];
    }
  }

  lemma {:induction false} Utf8Concat(a: Str, b: Str)
    requires ValidUtf8(a) && ValidUtf8(b)
    ensures ValidUtf8(a + b)
    decreases |a|
  {
    hide CharWidth;
    if a == [] {
      assert a + b == b;
    } else {
      var w := CharWidth(a);
      Utf8Concat(a[w..], b);
      WidthKept(a, b);
      assert (a + b)[w..] == a[w..] + b;
    }
  }

  lemma {:induction false} Utf8Join(parts: seq<Str>, sep: byte)
    requires sep < 0x80 && forall i :: 0 <= i < |parts| ==> ValidUtf8(parts[i])
    ensures ValidUtf8(Join(parts, sep))
    decreases |parts|
  {
    hide ValidUtf8;
    if |parts| == 0 {
      AsciiIsUtf8([]);
    } else if |parts| > 1 {
      AsciiIsUtf8([sep]);
      Utf8Join(parts[1..], sep);
      Utf8Concat(parts[0], [sep]);
      Utf8Concat(parts[0] + [sep], Join(parts[1..], sep));
    }
  }

  // ----- accepted fields are valid -----------------------------------------

  lemma {:induction false} TextsValid(b: Str, count: nat)
    requires TakeTexts(b, count).Some?
    ensures |TakeTexts(b, count).value.0| == count
    ensures forall i :: 0 <= i < count ==> ValidUtf8(TakeTexts(b, count).value.0[i])
    decreases count
  {
    hide TakeU32, ValidUtf8;
    if count > 0 {
      TextsValid(TakeText(b).value.1, count - 1);
    }
  }

  lemma SegmentsValid(b: Str)
    requires TakeSegments(b).Some?
    ensures forall i :: 0 <= i < |TakeSegments(b).value.0| ==> ValidUtf8(TakeSegments(b).value.0[i])
  {
    hide TakeTexts, ValidUtf8;
    var (n, rest) := TakeU32(b).value;
    TextsValid(rest, n);
  }

  lemma UrlValid(parts: seq<Str>)
    requires DecodeUrl(parts).Some?
    ensures ValidUrl(DecodeUrl(parts).value)
  {
    hide UrlParse, ValidUrlSegment;
    if parts == [] {
      assert UrlPrint([]) == [Http.SLASH];
    } else {
      UrlParsePrint([Http.SLASH] + Join(parts, Http.SLASH));
    }
  }

  lemma BranchValid(b: Str)
    requires TakeBranch(b).Some?
    ensures ValidBranch(TakeBranch(b).value.0)
  {
    hide TakeSegments, BranchParse, ValidUtf8, ValidBranch;
    var (parts, rest) := TakeSegments(b).value;
    SegmentsValid(b);
    Utf8Join(parts, Github.SLASH);
    BranchParsePrint(Join(parts, Github.SLASH));
  }

  lemma HttpValid(b: Str, isIp: Str -> bool)
    requires TakeHttp(b, isIp).Some?
    ensures TakeHttp(b, isIp).value.0.HttpAction? && ValidHttpRequest(TakeHttp(b, isIp).value.0.http, isIp)
  {
    hide TakeText, TakeSegments, TakeU64, CanonicalHost, DecodeUrl, ValidHost, ValidUrl, ValidUtf8;
    var (name, b2) := TakeText(TakeByte(b).value.1).value;
    CanonicalHostIdempotent(name, isIp);
    UrlValid(TakeSegments(b2).value.0);
  }

  lemma GitHubValid(b: Str)
    requires TakeGitHub(b).Some?
    ensures var r := TakeGitHub(b).value.0;
            r.GitHubAction? && ValidGitHubRequest(r.github) && ValidUtf8(r.github.installation) && ValidUtf8(r.github.repository)
  {
    hide TakeU32, TakeBranch, ValidBranch, ValidUtf8;
    var b3 := TakeByte(TakeText(TakeText(b).value.1).value.1).value.1;
    BranchValid(b3);
    BranchValid(TakeBranch(b3).value.1);
  }

  lemma ActionValid(b: Str, isIp: Str -> bool)
    requires TakeAction(b, isIp).Some?
    ensures WellFormedAction(TakeAction(b, isIp).value.0, isIp)
  {
    hide TakeHttp, TakeGitHub, TakeU32, ValidUtf8, ValidPath, ValidHttpRequest, ValidGitHubRequest, TakeSegments;
    var (tag, rest) := TakeByte(b).value;
    if tag == 2 {
      HttpValid(rest, isIp);
    } else if tag == 3 {
      GitHubValid(rest);
    }
  }

  lemma {:induction false} RequestsValid(b: Str, count: nat, isIp: Str -> bool)
    requires TakeRequests(b, count, isIp).Some?
    ensures |TakeRequests(b, count, isIp).value.0| == count && WellFormedRequests(TakeRequests(b, count, isIp).value.0, isIp)
    decreases count
  {
    hide TakeU64, TakeAction, WellFormedAction;
    if count > 0 {
      var (time, rest) := TakeU64(b).value;
      ActionValid(rest, isIp);
      RequestsValid(TakeRequest(b, isIp).value.1, count - 1, isIp);
    }
  }

  lemma BodyValid(instance: u64, b: Str, isIp: Str -> bool)
    requires DecodeBody(instance, b, isIp).Some?
    ensures WellFormed(DecodeBody(instance, b, isIp).value, isIp)
  {
    hide TakeU32, TakeU64, TakeRequests, WellFormedRequests, ValidUtf8;
    var (caller, b1) := TakeText(b).value;
    var (capability, b2) := TakeText(b1).value;
    var (count, b4) := TakeU32(TakeU64(b2).value.1).value;
    RequestsValid(b4, count, isIp);
    var rs := TakeRequests(b4, count, isIp).value.0;
    var kept := NewRequestSet(rs[0], rs[1..]);
    assert [rs[0]] + rs[1..] == rs;
    assert Requests(kept) == rs;
  }

  /**
   Whatever the decoder accepts is well-formed: a complete set of 1 to 16
   requests whose typed fields their constructors accept. Writing it again
   and reading that back changes nothing.
   */
  lemma DecodedIsWellFormed(b: Str, isIp: Str -> bool)
    requires DecodeAttempt(b, isIp).Some?
    ensures var m := DecodeAttempt(b, isIp).value;
            && WellFormed(m, isIp) && 1 <= |Requests(m.requests)| <= 16
            && (EncodeAttempt(m).Ok? ==> DecodeAttempt(EncodeAttempt(m).value, isIp) == Some(m))
  {
    hide DecodeBody, TakeU64, WellFormedRequests, EncodeAttempt, ValidUtf8;
    var (version, rest) := TakeByte(b).value;
    if version == 1 {
      BodyValid(0, rest, isIp);
    } else {
      var (instance, body) := TakeU64(rest).value;
      BodyValid(instance, body, isIp);
    }
    var m := DecodeAttempt(b, isIp).value;
    assert WellFormed(m, isIp);
    if EncodeAttempt(m).Ok? {
      AttemptRoundTrip(m, isIp);
    }
  }

  // ----- nothing may follow ------------------------------------------------

  lemma U32Extends(b: Str, x: Str)
    ensures TakeU32(b).Some? ==> TakeU32(b + x) == Some((TakeU32(b).value.0, TakeU32(b).value.1 + x))
  {
    hide FromLittleEndian;
    if |b| >= 4 {
      assert (b + x)[..4] == b[..4] && (b + x)[4..] == b[4..] + x;
    }
  }

  lemma U64Extends(b: Str, x: Str)
    ensures TakeU64(b).Some? ==> TakeU64(b + x) == Some((TakeU64(b).value.0, TakeU64(b).value.1 + x))
  {
    hide FromLittleEndian;
    if |b| >= 8 {
      assert (b + x)[..8] == b[..8] && (b + x)[8..] == b[8..] + x;
    }
  }

  lemma ByteExtends(b: Str, x: Str)
    ensures TakeByte(b).Some? ==> TakeByte(b + x) == Some((TakeByte(b).value.0, TakeByte(b).value.1 + x))
  {
    if |b| >= 1 {
      assert (b + x)[1..] == b[1..] + x;
    }
  }

  lemma TextExtends(b: Str, x: Str)
    ensures TakeText(b).Some? ==> TakeText(b + x) == Some((TakeText(b).value.0, TakeText(b).value.1 + x))
  {
    hide TakeU32, ValidUtf8;
    U32Extends(b, x);
    if TakeText(b).Some? {
      var (n, rest) := TakeU32(b).value;
      assert (rest + x)[..n] == rest[..n] && (rest + x)[n..] == rest[n..] + x;
    }
  }

  lemma {:induction false} TextsExtend(b: Str, count: nat, x: Str)
    ensures TakeTexts(b, count).Some? ==> TakeTexts(b + x, count) == Some((TakeTexts(b, count).value.0, TakeTexts(b, count).value.1 + x))
    decreases count
  {
    hide TakeText;
    if count > 0 {
      TextExtends(b, x);
      if TakeText(b).Some? {
        TextsExtend(TakeText(b).value.1, count - 1, x);
      }
    }
  }

  lemma SegmentsExtend(b: Str, x: Str)
    ensures TakeSegments(b).Some? ==> TakeSegments(b + x) == Some((TakeSegments(b).value.0, TakeSegments(b).value.1 + x))
  {
    hide TakeU32, TakeTexts;
    U32Extends(b, x);
    if TakeU32(b).Some? {
      TextsExtend(TakeU32(b).value.1, TakeU32(b).value.0, x);
    }
  }

  lemma FileExtends(b: Str, x: Str)
    ensures TakeFile(b).Some? ==> TakeFile(b + x) == Some((TakeFile(b).value.0, TakeFile(b).value.1 + x))
  {
    hide TakeText, TakeByte, TakeSegments, ValidPath, FromTag;
    TextExtends(b, x);
    if TakeFile(b).Some? {
      var b1 := TakeText(b).value.1;
      ByteExtends(b1, x);
      SegmentsExtend(TakeByte(b1).value.1, x);
    }
  }

  lemma HttpExtends(b: Str, x: Str, isIp: Str -> bool)
    ensures TakeHttp(b, isIp).Some? ==> TakeHttp(b + x, isIp) == Some((TakeHttp(b, isIp).value.0, TakeHttp(b, isIp).value.1 + x))
  {
    hide TakeText, TakeByte, TakeSegments, TakeU64, CanonicalHost, DecodeUrl, DecodeMethod;
    ByteExtends(b, x);
    if TakeHttp(b, isIp).Some? {
      var b1 := TakeByte(b).value.1;
      TextExtends(b1, x);
      var b2 := TakeText(b1).value.1;
      SegmentsExtend(b2, x);
      U64Extends(TakeSegments(b2).value.1, x);
    }
  }

  lemma BranchExtends(b: Str, x: Str)
    ensures TakeBranch(b).Some? ==> TakeBranch(b + x) == Some((TakeBranch(b).value.0, TakeBranch(b).value.1 + x))
  {
    hide TakeSegments, DecodeBranch;
    SegmentsExtend(b, x);
  }

  lemma GitHubExtends(b: Str, x: Str)
    ensures TakeGitHub(b).Some? ==> TakeGitHub(b + x) == Some((TakeGitHub(b).value.0, TakeGitHub(b).value.1 + x))
  {
    hide TakeText, TakeByte, TakeBranch, DecodeOperation;
    TextExtends(b, x);
    if TakeGitHub(b).Some? {
      var b1 := TakeText(b).value.1;
      TextExtends(b1, x);
      var b2 := TakeText(b1).value.1;
      ByteExtends(b2, x);
      var b3 := TakeByte(b2).value.1;
      BranchExtends(b3, x);
      BranchExtends(TakeBranch(b3).value.1, x);
    }
  }

  lemma ActionExtends(b: Str, x: Str, isIp: Str -> bool)
    ensures TakeAction(b, isIp).Some? ==> TakeAction(b + x, isIp) == Some((TakeAction(b, isIp).value.0, TakeAction(b, isIp).value.1 + x))
  {
    hide TakeFile, TakeHttp, TakeGitHub, TakeByte;
    ByteExtends(b, x);
    if TakeByte(b).Some? {
      var rest := TakeByte(b).value.1;
      FileExtends(rest, x);
      HttpExtends(rest, x, isIp);
      GitHubExtends(rest, x);
    }
  }

  lemma {:induction false} RequestsExtend(b: Str, count: nat, x: Str, isIp: Str -> bool)
    ensures TakeRequests(b, count, isIp).Some? ==>
              TakeRequests(b + x, count, isIp) == Some((TakeRequests(b, count, isIp).value.0, TakeRequests(b, count, isIp).value.1 + x))
    decreases count
  {
    hide TakeU64, TakeAction;
    if count > 0 && TakeRequests(b, count, isIp).Some? {
      U64Extends(b, x);
      ActionExtends(TakeU64(b).value.1, x, isIp);
      RequestsExtend(TakeRequest(b, isIp).value.1, count - 1, x, isIp);
    }
  }

  lemma BodyRefusesMore(instance: u64, b: Str, x: Str, isIp: Str -> bool)
    requires DecodeBody(instance, b, isIp).Some? && x != []
    ensures DecodeBody(instance, b + x, isIp).None?
  {
    hide TakeText, TakeU64, TakeU32, TakeRequests;
    TextExtends(b, x);
    var b1 := TakeText(b).value.1;
    TextExtends(b1, x);
    var b2 := TakeText(b1).value.1;
    U64Extends(b2, x);
    var b3 := TakeU64(b2).value.1;
    U32Extends(b3, x);
    var (count, b4) := TakeU32(b3).value;
    RequestsExtend(b4, count, x, isIp);
  }

  /** No accepted payload is a proper prefix of another: what follows the last request is always refused. */
  lemma DecodeRefusesMore(b: Str, x: Str, isIp: Str -> bool)
    requires DecodeAttempt(b, isIp).Some? && x != []
    ensures DecodeAttempt(b + x, isIp).None?
  {
    hide DecodeBody, TakeByte, TakeU64;
    ByteExtends(b, x);
    var (version, rest) := TakeByte(b).value;
    if version == 1 {
      BodyRefusesMore(0, rest, x, isIp);
    } else {
      U64Extends(rest, x);
      var (instance, body) := TakeU64(rest).value;
      BodyRefusesMore(instance, body, x, isIp);
    }
  }
}
