/** Journal payloads and frames read back as written, alone and inside longer byte strings. */
module JournalCodec {
  import opened Bytes
  import opened Journal

  // ----- terminal payloads -------------------------------------------------

  lemma FinishRoundTrip(id: AttemptId, outcome: Outcome, receipt: Option<Receipt>, evidence: Option<Evidence>)
    requires EncodeFinish(id, outcome, receipt, evidence).Ok?
    ensures DecodeFinish(EncodeFinish(id, outcome, receipt, evidence).value, id) == Ok((outcome, receipt, evidence))
  {
    var payload := EncodeFinish(id, outcome, receipt, evidence).value;
    if outcome.Committed? || outcome.CommitUnknown? {
      var token := if outcome.Committed? then receipt.value.token else evidence.value.token;
      TokenAfterCode(OutcomeCode(outcome), token);
    }
  }

  lemma TokenAfterCode(code: byte, token: Str)
    requires |token| < U32_COUNT
    ensures var p := [code] + LittleEndian(|token|, 4) + token;
            && p[0] == code && |p[1..]| == 4 + |token|
            && FromLittleEndian(p[1..][..4]) == |token| && p[1..][4..] == token
  {
    var p := [code] + LittleEndian(|token|, 4) + token;
    assert p[1..][..4] == LittleEndian(|token|, 4);
    Pow256Values();
    LittleEndianRoundTrip(|token|, 4);
  }

  /** Every payload the decoder accepts is the encoding of what it returns. */
  lemma FinishOnto(payload: Str, id: AttemptId)
    requires DecodeFinish(payload, id).Ok?
    ensures var (outcome, receipt, evidence) := DecodeFinish(payload, id).value;
            EncodeFinish(id, outcome, receipt, evidence) == Ok(payload)
  {
    var rest := payload[1..];
    if payload[0] >= 3 {
      LittleEndianOnto(rest[..4]);
      assert payload == [payload[0]] + rest[..4] + rest[4..];
    } else {
      assert payload == [payload[0]];
    }
  }

  // ----- reconciliation payloads -------------------------------------------

  predicate EmptyToken(verdict: Verdict) {
    verdict.CommittedAs? && verdict.receipt.token == []
  }

  /** The decoder returns the encoded verdict exactly when its token is not empty. */
  lemma ReconcileRoundTrip(verdict: Verdict, id: AttemptId)
    requires EncodeReconcile(verdict).Ok?
    requires verdict.CommittedAs? ==> verdict.receipt.attempt == id
    ensures DecodeReconcile(EncodeReconcile(verdict).value, id)
            == if EmptyToken(verdict) then Err(InvalidRecord) else Ok(verdict)
  {
    if verdict.CommittedAs? {
      var token := verdict.receipt.token;
      var payload := EncodeReconcile(verdict).value;
      assert payload[2..10] == LittleEndian(id, 8);
      assert payload[10..14] == LittleEndian(|token|, 4);
      assert payload[14..] == token;
      Pow256Values();
      LittleEndianRoundTrip(id, 8);
      LittleEndianRoundTrip(|token|, 4);
    }
  }

  lemma ReconcileOnto(payload: Str, id: AttemptId)
    requires |payload| <= MAX_RECORD_PAYLOAD
    requires DecodeReconcile(payload, id).Ok?
    ensures EncodeReconcile(DecodeReconcile(payload, id).value) == Ok(payload)
  {
    if payload[1] == 1 {
      LittleEndianOnto(payload[2..10]);
      LittleEndianOnto(payload[10..14]);
      assert payload == [1, 1] + payload[2..10] + payload[10..14] + payload[14..];
    } else {
      assert payload == [1, 2];
    }
  }

  // ----- frames ------------------------------------------------------------

  lemma HeadFields(f: Frame)
    ensures var h := FrameHead(f);
            && h[..8] == Magic() && h[8..10] == LittleEndian(VERSION, 2) && h[10] == f.kind && h[11] == 0
            && h[12..20] == LittleEndian(f.sequence, 8) && h[20..28] == LittleEndian(f.attempt, 8)
            && h[28..32] == LittleEndian(|f.payload|, 4)
  {
    hide LittleEndian;
    hide Magic;
  }

  lemma HeadReads(f: Frame)
    requires |f.payload| <= MAX_RECORD_PAYLOAD
    ensures HeadFault(FrameHead(f), f.sequence).None?
    ensures HeadLength(FrameHead(f)) == |f.payload|
    ensures HeadAttempt(FrameHead(f)) == f.attempt
    ensures FrameHead(f)[10] == f.kind
  {
    hide FrameHead, LittleEndian;
    HeadFields(f);
    Pow256Values();
    LittleEndianRoundTrip(VERSION, 2);
    LittleEndianRoundTrip(f.sequence, 8);
    LittleEndianRoundTrip(f.attempt, 8);
    LittleEndianRoundTrip(|f.payload|, 4);
  }

  /** A frame reads back whole, whatever follows it. */
  lemma ReadPut(f: Frame, tail: Str)
    requires |f.payload| <= MAX_RECORD_PAYLOAD
    ensures ReadFrame(PutFrame(f) + tail, f.sequence) == Ok((f, tail))
  {
    hide FrameHead, LittleEndian, Checksum, HeadFault, HeadLength, HeadAttempt, HeadSequence, HeadVersion, FromLittleEndian;
    var head, b := FrameHead(f), PutFrame(f) + tail;
    var body := head + f.payload;
    var sum := LittleEndian(Checksum(body), 8);
    assert b == head + (f.payload + sum + tail);
    HeadReads(f);
    HeadPrefix(head, f.payload + sum + tail, f.sequence);
    assert b[..|body|] == body;
    assert b[|body|..|body| + 8] == sum;
    assert b[|body| + 8..] == tail;
    assert b[32..|body|] == f.payload;
    Pow256Values();
    LittleEndianRoundTrip(Checksum(body), 8);
  }

  /** Bytes after a complete frame, or after a fault other than truncation, change nothing. */
  lemma ReadExtends(b: Str, tail: Str, expected: u64)
    ensures ReadFrame(b, expected).Ok? ==>
              ReadFrame(b + tail, expected) == Ok((ReadFrame(b, expected).value.0, ReadFrame(b, expected).value.1 + tail))
    ensures ReadFrame(b, expected).Err? && ReadFrame(b, expected).error != TruncatedRecord ==>
              ReadFrame(b + tail, expected) == ReadFrame(b, expected)
  {
    hide Checksum, HeadFault, HeadLength, HeadAttempt, FromLittleEndian;
    if |b| >= 40 {
      HeadPrefix(b, tail, expected);
      var body := 32 + HeadLength(b);
      if |b| >= body + 8 {
        assert (b + tail)[..body] == b[..body];
        assert (b + tail)[body..body + 8] == b[body..body + 8];
        assert (b + tail)[body + 8..] == b[body + 8..] + tail;
        assert (b + tail)[32..body] == b[32..body];
      }
    }
  }

  // ----- whole journals ----------------------------------------------------

  /** Parsing a journal and then more bytes is parsing the more bytes from where it stopped. */
  lemma {:induction false} ParseAppend(b: Str, tail: Str, expected: u64, attempts: Attempts)
    requires ParseFrom(b, expected, attempts).Ok?
    ensures ParseFrom(b, expected, attempts).value.0.Some?
    ensures var (next, after) := ParseFrom(b, expected, attempts).value;
            ParseFrom(b + tail, expected, attempts) == ParseFrom(tail, next.value, after)
    decreases |b|
  {
    hide ReadFrame, ApplyFrame;
    if b == [] {
      assert b + tail == tail;
    } else {
      ReadExtends(b, tail, expected);
      var (f, rest) := ReadFrame(b, expected).value;
      ParseAppend(rest, tail, CheckedNext(expected).value, ApplyFrame(attempts, f).value);
    }
  }

  /** A fault other than truncation is never cured by appending. */
  lemma {:induction false} ParseFaultStable(b: Str, tail: Str, expected: u64, attempts: Attempts)
    requires ParseFrom(b, expected, attempts).Err? && ParseFrom(b, expected, attempts).error != TruncatedRecord
    ensures ParseFrom(b + tail, expected, attempts) == ParseFrom(b, expected, attempts)
    decreases |b|
  {
    hide ReadFrame, ApplyFrame;
    ReadExtends(b, tail, expected);
    if ReadFrame(b, expected).Ok? {
      var (f, rest) := ReadFrame(b, expected).value;
      if ApplyFrame(attempts, f).Ok? && CheckedNext(expected).Some? {
        ParseFaultStable(rest, tail, CheckedNext(expected).value, ApplyFrame(attempts, f).value);
      }
    }
  }

  /** Each sequence number costs at least one minimal frame of forty bytes. */
  lemma {:induction false} ParseLength(b: Str, expected: u64, attempts: Attempts)
    requires ParseFrom(b, expected, attempts).Ok?
    ensures ParseFrom(b, expected, attempts).value.0.Some?
    ensures 40 * (ParseFrom(b, expected, attempts).value.0.value - expected) <= |b|
    decreases |b|
  {
    hide ReadFrame, ApplyFrame;
    if b != [] {
      var (f, rest) := ReadFrame(b, expected).value;
      ParseLength(rest, CheckedNext(expected).value, ApplyFrame(attempts, f).value);
    }
  }

  /** One frame parsed on its own. */
  lemma ParseOne(f: Frame, attempts: Attempts)
    requires |f.payload| <= MAX_RECORD_PAYLOAD
    requires CheckedNext(f.sequence).Some?
    ensures ParseFrom(PutFrame(f), f.sequence, attempts)
            == match ApplyFrame(attempts, f)
               case Err(e) => Err(e)
               case Ok(after) => Ok((CheckedNext(f.sequence), after))
  {
    hide ReadFrame, ApplyFrame, PutFrame;
    ReadPut(f, []);
    assert PutFrame(f) + [] == PutFrame(f);
    if ApplyFrame(attempts, f).Ok? {
      var next := CheckedNext(f.sequence).value;
      assert ParseFrom([], next, ApplyFrame(attempts, f).value) == Ok((Some(next), ApplyFrame(attempts, f).value));
    }
  }
}
