/** The payload writer and reader (`durable_audit.rs`), which move a buffer and a cursor. */
module PayloadBuffers {
  import opened Bytes
  import opened Patterns
  import opened Path
  import opened File
  import opened Http
  import opened Github
  import opened Capability
  import opened AttemptCodec

  // ----- writer ------------------------------------------------------------

  class PayloadWriter {
    var bytes: Str

    constructor ()
      ensures bytes == []
    {
      bytes := [];
    }

    method Append(chunk: Str)
      modifies this
      ensures bytes == old(bytes) + chunk
    {
      bytes := bytes + chunk;
    }

    /** Fails, as the source does, once the running payload is over the record limit. */
    method Text(s: Str) returns (ok: bool)
      modifies this
      ensures ok ==> bytes == old(bytes) + PutText(s)
      ensures !ok ==> |old(bytes)| + |PutText(s)| > MAX_RECORD_PAYLOAD
    {
      if |s| >= U32_COUNT {
        return false;
      }
      bytes := bytes + LittleEndian(|s|, 4);
      bytes := bytes + s;
      ok := |bytes| <= MAX_RECORD_PAYLOAD;
      assert bytes == old(bytes) + PutText(s);
    }

    method Segments(parts: seq<Str>) returns (ok: bool)
      modifies this
      ensures ok ==> bytes == old(bytes) + PutSegments(parts)
      ensures !ok ==> |old(bytes)| + |PutSegments(parts)| > MAX_RECORD_PAYLOAD
    {
      if |parts| >= U32_COUNT {
        PutTextsLength(parts);
        return false;
      }
      Append(LittleEndian(|parts|, 4));
      ghost var start := bytes;
      assert PutTexts(parts[..0]) == [];
      hide PutTexts, PutText, LittleEndian;
      for i := 0 to |parts|
        invariant bytes == start + PutTexts(parts[..i])
      {
        PutTextsSnoc(parts[..i], parts[i]);
        assert parts[..i + 1] == parts[..i] + [parts[i]];
        PutTextsPrefix(parts, i + 1);
        ok := Text(parts[i]);
        if !ok {
          return false;
        }
      }
      assert parts[..|parts|] == parts;
      ok := true;
    }
  }

  lemma Regroup(o: Str, a: Str, b: Str, c: Str, d: Str, e: Str, f: Str)
    ensures o + a + b + c + d + e + f == o + (a + b + c + d + e + f)
    ensures o + a + b + c + d + e == o + (a + b + c + d + e)
    ensures o + a + b + c + d == o + (a + b + c + d)
  {
  }

  method WriteFile(w: PayloadWriter, f: FileRequest) returns (ok: bool)
    modifies w
    ensures ok ==> w.bytes == old(w.bytes) + PutAction(FileAction(f))
    ensures !ok ==> |old(w.bytes)| + |PutAction(FileAction(f))| > MAX_RECORD_PAYLOAD
  {
    hide PutText, PutSegments;
    Regroup(w.bytes, [1], PutText(f.repository), [Tag(f.effect)], PutSegments(f.path), [], []);
    w.Append([1]);
    ok := w.Text(f.repository);
    if !ok { return; }
    w.Append([Tag(f.effect)]);
    ok := w.Segments(f.path);
  }

  method WriteHttp(w: PayloadWriter, h: HttpRequest) returns (ok: bool)
    modifies w
    ensures ok ==> w.bytes == old(w.bytes) + PutAction(HttpAction(h))
    ensures !ok ==> |old(w.bytes)| + |PutAction(HttpAction(h))| > MAX_RECORD_PAYLOAD
  {
    hide PutText, PutSegments, LittleEndian;
    Regroup(w.bytes, [2], [MethodTag(h.verb)], PutText(h.host), PutSegments(h.path), LittleEndian(h.maxBytes, 8), []);
    w.Append([2]);
    w.Append([MethodTag(h.verb)]);
    ok := w.Text(h.host);
    if !ok { return; }
    ok := w.Segments(h.path);
    if !ok { return; }
    w.Append(LittleEndian(h.maxBytes, 8));
  }

  method WriteGitHub(w: PayloadWriter, g: GitHubRequest) returns (ok: bool)
    modifies w
    ensures ok ==> w.bytes == old(w.bytes) + PutAction(GitHubAction(g))
    ensures !ok ==> |old(w.bytes)| + |PutAction(GitHubAction(g))| > MAX_RECORD_PAYLOAD
  {
    hide PutText, PutSegments;
    Regroup(w.bytes, [3], PutText(g.installation), PutText(g.repository), [OperationTag(g.operation)], PutSegments(g.base), PutSegments(g.head));
    w.Append([3]);
    ok := w.Text(g.installation);
    if !ok { return; }
    ok := w.Text(g.repository);
    if !ok { return; }
    w.Append([OperationTag(g.operation)]);
    ok := w.Segments(g.base);
    if !ok { return; }
    ok := w.Segments(g.head);
  }

  /** `encode_authority_request`. */
  method WriteAction(w: PayloadWriter, r: AuthorityRequest) returns (ok: bool)
    modifies w
    ensures ok ==> w.bytes == old(w.bytes) + PutAction(r)
    ensures !ok ==> |old(w.bytes)| + |PutAction(r)| > MAX_RECORD_PAYLOAD
  {
    hide PutAction;
    match r
    case FileAction(f) => ok := WriteFile(w, f);
    case HttpAction(h) => ok := WriteHttp(w, h);
    case GitHubAction(g) => ok := WriteGitHub(w, g);
  }

  method WriteRequest(w: PayloadWriter, r: CapabilityRequest) returns (ok: bool)
    modifies w
    ensures ok ==> w.bytes == old(w.bytes) + PutRequest(r)
    ensures !ok ==> |old(w.bytes)| + |PutRequest(r)| > MAX_RECORD_PAYLOAD
  {
    hide PutAction, LittleEndian;
    w.Append(LittleEndian(r.time, 8));
    ok := WriteAction(w, r.authority);
    assert old(w.bytes) + LittleEndian(r.time, 8) + PutAction(r.authority) == old(w.bytes) + PutRequest(r);
  }

  method WriteRequests(w: PayloadWriter, rs: seq<CapabilityRequest>) returns (ok: bool)
    modifies w
    ensures ok ==> w.bytes == old(w.bytes) + PutRequests(rs)
    ensures !ok ==> |old(w.bytes)| + |PutRequests(rs)| > MAX_RECORD_PAYLOAD
  {
    hide PutRequest;
    for i := 0 to |rs|
      invariant w.bytes == old(w.bytes) + PutRequests(rs[..i])
    {
      PutRequestsSnoc(rs[..i], rs[i]);
      assert rs[..i + 1] == rs[..i] + [rs[i]];
      PutRequestsPrefix(rs, i + 1);
      ok := WriteRequest(w, rs[i]);
      if !ok {
        return;
      }
    }
    assert rs[..|rs|] == rs;
    ok := true;
  }

  lemma {:induction false} PutRequestsSnoc(rs: seq<CapabilityRequest>, last: CapabilityRequest)
    ensures PutRequests(rs + [last]) == PutRequests(rs) + PutRequest(last)
    decreases rs
  {
    if rs == [] {
      assert rs + [last] == [last];
      assert [last][1..] == [];
    } else {
      PutRequestsSnoc(rs[1..], last);
      assert (rs + [last])[1..] == rs[1..] + [last];
    }
  }

  lemma {:induction false} PutRequestsPrefix(rs: seq<CapabilityRequest>, i: nat)
    requires i <= |rs|
    ensures |PutRequests(rs[..i])| <= |PutRequests(rs)|
    decreases rs
  {
    if i > 0 {
      PutRequestsPrefix(rs[1..], i - 1);
      assert rs[..i][1..] == rs[1..][..i - 1];
    }
  }

  /**
   `encode_attempt_payload`. Stopping at the first oversized prefix rejects
   exactly the payloads whose whole encoding is over the limit.
   */
  method EncodeAttemptPayload(m: Metadata) returns (r: Result<Str, EncodeError>)
    ensures r == EncodeAttempt(m)
  {
    hide PutRequests, LittleEndian;
    if !m.requests.complete {
      return Err(IncompleteRequestSet);
    }
    var w := new PayloadWriter();
    w.Append([ATTEMPT_PAYLOAD_VERSION]);
    w.Append(LittleEndian(m.instance, 8));
    var ok := w.Text(m.caller);
    if !ok {
      return Err(PayloadTooLarge);
    }
    ok := w.Text(m.capability);
    if !ok {
      return Err(PayloadTooLarge);
    }
    w.Append(LittleEndian(m.epoch, 8));
    var rs := Requests(m.requests);
    w.Append(LittleEndian(|rs|, 4));
    ok := WriteRequests(w, rs);
    if !ok {
      return Err(PayloadTooLarge);
    }
    assert w.bytes == PutAttempt(m);
    if |w.bytes| > MAX_RECORD_PAYLOAD {
      return Err(PayloadTooLarge);
    }
    r := Ok(w.bytes);
  }

  lemma {:induction false} PutTextsSnoc(parts: seq<Str>, last: Str)
    ensures PutTexts(parts + [last]) == PutTexts(parts) + PutText(last)
    decreases parts
  {
    if parts == [] {
      assert parts + [last] == [last];
      assert [last][1..] == [];
    } else {
      PutTextsSnoc(parts[1..], last);
      assert (parts + [last])[1..] == parts[1..] + [last];
    }
  }

  lemma {:induction false} PutTextsPrefix(parts: seq<Str>, i: nat)
    requires i <= |parts|
    ensures |PutTexts(parts[..i])| <= |PutTexts(parts)|
    decreases parts
  {
    if i > 0 {
      PutTextsPrefix(parts[1..], i - 1);
      assert parts[..i][1..] == parts[1..][..i - 1];
    }
  }

  // ----- reader ------------------------------------------------------------

  class PayloadReader {
    const bytes: Str
    var offset: nat

    predicate Valid()
      reads this
    {
      offset <= |bytes|
    }

    /** What is still unread. */
    function Rest(): Str
      requires Valid()
      reads this
    {
      bytes[offset..]
    }

    constructor (b: Str)
      ensures bytes == b && Valid() && Rest() == b
    {
      bytes, offset := b, 0;
    }

    method Take(length: nat) returns (r: Option<Str>)
      requires Valid()
      modifies this
      ensures Valid()
      ensures r.Some? <==> length <= |old(Rest())|
      ensures r.Some? ==> r.value == old(Rest())[..length] && Rest() == old(Rest())[length..]
    {
      if |bytes| - offset < length {
        return None;
      }
      r := Some(bytes[offset..offset + length]);
      offset := offset + length;
    }

    method U32() returns (r: Option<nat>)
      requires Valid()
      modifies this
      ensures Valid()
      ensures r.None? <==> TakeU32(old(Rest())).None?
      ensures r.Some? ==> TakeU32(old(Rest())) == Some((r.value, Rest()))
    {
      var chunk := Take(4);
      if chunk.None? {
        return None;
      }
      r := Some(FromLittleEndian(chunk.value));
    }

    method Byte() returns (r: Option<byte>)
      requires Valid()
      modifies this
      ensures Valid()
      ensures r.None? <==> TakeByte(old(Rest())).None?
      ensures r.Some? ==> TakeByte(old(Rest())) == Some((r.value, Rest()))
    {
      var chunk := Take(1);
      if chunk.None? {
        return None;
      }
      r := Some(chunk.value[0]);
    }

    method U64() returns (r: Option<u64>)
      requires Valid()
      modifies this
      ensures Valid()
      ensures r.None? <==> TakeU64(old(Rest())).None?
      ensures r.Some? ==> TakeU64(old(Rest())) == Some((r.value, Rest()))
    {
      var chunk := Take(8);
      if chunk.None? {
        return None;
      }
      Pow256Values();
      r := Some(FromLittleEndian(chunk.value));
    }

    method Text() returns (r: Option<Str>)
      requires Valid()
      modifies this
      ensures Valid()
      ensures r.None? <==> TakeText(old(Rest())).None?
      ensures r.Some? ==> TakeText(old(Rest())) == Some((r.value, Rest()))
    {
      hide ValidUtf8, TakeU32;
      var length := U32();
      if length.None? {
        return None;
      }
      var chunk := Take(length.value);
      if chunk.None? || !ValidUtf8(chunk.value) {
        return None;
      }
      r := chunk;
    }

    /** `segments`: each piece is read before the next is expected. */
    method Segments() returns (r: Option<seq<Str>>)
      requires Valid()
      modifies this
      ensures Valid()
      ensures r.None? <==> TakeSegments(old(Rest())).None?
      ensures r.Some? ==> TakeSegments(old(Rest())) == Some((r.value, Rest()))
    {
      hide TakeText, TakeU32;
      var count := U32();
      if count.None? {
        return None;
      }
      ghost var body := Rest();
      var parts: seq<Str> := [];
      PrependNil(TakeTexts(body, count.value));
      for i := 0 to count.value
        invariant Valid()
        invariant TakeTexts(body, count.value) == Prepend(parts, TakeTexts(Rest(), count.value - i))
      {
        ghost var before := Rest();
        var s := Text();
        if s.None? {
          return None;
        }
        PrependSnoc(parts, s.value, TakeTexts(Rest(), count.value - i - 1));
        parts := parts + [s.value];
      }
      assert parts + [] == parts;
      r := Some(parts);
    }
  }

  /** The texts read so far, in front of those still to be read. */
  ghost function Prepend(done: seq<Str>, more: Option<(seq<Str>, Str)>): Option<(seq<Str>, Str)> {
    match more
    case None => None
    case Some((parts, rest)) => Some((done + parts, rest))
  }

  lemma PrependNil(more: Option<(seq<Str>, Str)>)
    ensures Prepend([], more) == more
  {
    if more.Some? {
      assert [] + more.value.0 == more.value.0;
    }
  }

  lemma PrependSnoc(done: seq<Str>, s: Str, more: Option<(seq<Str>, Str)>)
    ensures Prepend(done, if more.None? then None else Some(([s] + more.value.0, more.value.1))) == Prepend(done + [s], more)
  {
    if more.Some? {
      assert done + ([s] + more.value.0) == done + [s] + more.value.0;
    }
  }

  // ----- decoding ----------------------------------------------------------

  /** `decode_authority_request`. */
  method ReadAction(b: PayloadReader, isIp: Str -> bool) returns (r: Option<AuthorityRequest>)
    requires b.Valid()
    modifies b
    ensures b.Valid()
    ensures r.None? <==> TakeAction(old(b.Rest()), isIp).None?
    ensures r.Some? ==> TakeAction(old(b.Rest()), isIp) == Some((r.value, b.Rest()))
  {
    hide TakeText, TakeSegments, TakeU64, CanonicalHost, DecodeUrl, DecodeBranch, ValidPath;
    var tag := b.Byte();
    if tag.None? {
      return None;
    }
    if tag.value == 1 {
      var repository := b.Text();
      if repository.None? { return None; }
      var effect := b.Byte();
      if effect.None? || FromTag(effect.value).None? { return None; }
      var path := b.Segments();
      if path.None? || !ValidPath(path.value) { return None; }
      r := Some(FileAction(FileRequest(repository.value, FromTag(effect.value).value, path.value)));
    } else if tag.value == 2 {
      var verb := b.Byte();
      if verb.None? || DecodeMethod(verb.value).None? { return None; }
      var name := b.Text();
      if name.None? || CanonicalHost(name.value, isIp).None? { return None; }
      var parts := b.Segments();
      if parts.None? || DecodeUrl(parts.value).None? { return None; }
      var limit := b.U64();
      if limit.None? { return None; }
      r := Some(HttpAction(HttpRequest(DecodeMethod(verb.value).value, CanonicalHost(name.value, isIp).value,
                                       DecodeUrl(parts.value).value, limit.value)));
    } else if tag.value == 3 {
      var installation := b.Text();
      if installation.None? { return None; }
      var repository := b.Text();
      if repository.None? { return None; }
      var operation := b.Byte();
      if operation.None? || DecodeOperation(operation.value).None? { return None; }
      var base := b.Segments();
      if base.None? || DecodeBranch(base.value).None? { return None; }
      var head := b.Segments();
      if head.None? || DecodeBranch(head.value).None? { return None; }
      r := Some(GitHubAction(GitHubRequest(installation.value, repository.value, DecodeOperation(operation.value).value,
                                           DecodeBranch(base.value).value, DecodeBranch(head.value).value)));
    } else {
      r := None;
    }
  }

  ghost function PrependRequests(done: seq<CapabilityRequest>, more: Option<(seq<CapabilityRequest>, Str)>): Option<(seq<CapabilityRequest>, Str)> {
    match more
    case None => None
    case Some((rs, rest)) => Some((done + rs, rest))
  }

  lemma PrependRequest(done: seq<CapabilityRequest>, x: CapabilityRequest, more: Option<(seq<CapabilityRequest>, Str)>)
    ensures PrependRequests([], more) == more
    ensures PrependRequests(done, if more.None? then None else Some(([x] + more.value.0, more.value.1))) == PrependRequests(done + [x], more)
  {
    if more.Some? {
      assert [] + more.value.0 == more.value.0;
      assert done + ([x] + more.value.0) == done + [x] + more.value.0;
    }
  }

  method ReadRequests(b: PayloadReader, count: nat, isIp: Str -> bool) returns (r: Option<seq<CapabilityRequest>>)
    requires b.Valid()
    modifies b
    ensures b.Valid()
    ensures r.None? <==> TakeRequests(old(b.Rest()), count, isIp).None?
    ensures r.Some? ==> TakeRequests(old(b.Rest()), count, isIp) == Some((r.value, b.Rest()))
  {
    hide TakeAction, TakeU64;
    var rs: seq<CapabilityRequest> := [];
    ghost var body := b.Rest();
    assert PrependRequests(rs, TakeRequests(body, count, isIp)) == TakeRequests(body, count, isIp) by {
      if TakeRequests(body, count, isIp).Some? {
        assert [] + TakeRequests(body, count, isIp).value.0 == TakeRequests(body, count, isIp).value.0;
      }
    }
    for i := 0 to count
      invariant b.Valid()
      invariant TakeRequests(body, count, isIp) == PrependRequests(rs, TakeRequests(b.Rest(), count - i, isIp))
    {
      var time := b.U64();
      if time.None? {
        return None;
      }
      var action := ReadAction(b, isIp);
      if action.None? {
        return None;
      }
      var x := CapabilityRequest(time.value, action.value);
      PrependRequest(rs, x, TakeRequests(b.Rest(), count - i - 1, isIp));
      rs := rs + [x];
    }
    assert rs + [] == rs;
    r := Some(rs);
  }

  method ReadBody(b: PayloadReader, instance: u64, isIp: Str -> bool) returns (r: Option<Metadata>)
    requires b.Valid()
    modifies b
    ensures r == DecodeBody(instance, old(b.Rest()), isIp)
  {
    hide TakeRequests, TakeText, TakeU64, TakeU32;
    var caller := b.Text();
    if caller.None? { return None; }
    var capability := b.Text();
    if capability.None? { return None; }
    var epoch := b.U64();
    if epoch.None? { return None; }
    var count := b.U32();
    if count.None? || count.value == 0 || count.value > MAX_REQUESTS_PER_EFFECT { return None; }
    var rs := ReadRequests(b, count.value, isIp);
    if rs.None? || b.offset != |b.bytes| || rs.value == [] { return None; }
    r := Some(Metadata(instance, caller.value, capability.value, epoch.value, NewRequestSet(rs.value[0], rs.value[1..])));
  }

  /** `decode_attempt_payload`. */
  method DecodeAttemptPayload(payload: Str, isIp: Str -> bool) returns (r: Option<Metadata>)
    ensures r == DecodeAttempt(payload, isIp)
  {
    hide DecodeBody, TakeU64;
    var b := new PayloadReader(payload);
    var version := b.Byte();
    if version.None? || !(1 <= version.value <= 2) {
      return None;
    }
    var instance: u64 := 0;
    if version.value == 2 {
      var recorded := b.U64();
      if recorded.None? {
        return None;
      }
      instance := recorded.value;
    }
    r := ReadBody(b, instance, isIp);
  }
}
