/**
 What a readable journal is: the bytes of numbered frames that tell a lawful
 history, in which each attempt starts once, ends at most once after that, and
 is reconciled at most once after an unknown end.
 */
module JournalHistory {
  import opened Bytes
  import opened Journal
  import opened JournalCodec

  // ----- bytes and frames --------------------------------------------------

  lemma HeadOnto(b: Str, expected: u64)
    requires |b| >= HEADER_LEN && HeadFault(b, expected).None?
    ensures forall payload: Str :: |payload| == HeadLength(b) ==> b[..HEADER_LEN] == FrameHead(Frame(b[10], expected, HeadAttempt(b), payload))
  {
    hide LittleEndian, FromLittleEndian, Magic;
    LittleEndianOnto(b[8..10]);
    LittleEndianOnto(b[12..20]);
    LittleEndianOnto(b[20..28]);
    LittleEndianOnto(b[28..32]);
    assert b[..32] == b[..8] + b[8..10] + [b[10]] + [b[11]] + b[12..20] + b[20..28] + b[28..32];
  }

  /** A frame that reads is, byte for byte, the frame that would be written. */
  lemma ReadOnto(b: Str, expected: u64)
    requires ReadFrame(b, expected).Ok?
    ensures var (f, rest) := ReadFrame(b, expected).value;
            f.sequence == expected && |f.payload| <= MAX_RECORD_PAYLOAD && b == PutFrame(f) + rest
  {
    hide LittleEndian, FromLittleEndian, Checksum, FrameHead, HeadLength, HeadAttempt;
    var (f, rest) := ReadFrame(b, expected).value;
    var body := HEADER_LEN + HeadLength(b);
    HeadOnto(b, expected);
    assert HeadLength(b) <= MAX_RECORD_PAYLOAD;
    assert b[..body] == b[..HEADER_LEN] + b[HEADER_LEN..body];
    LittleEndianOnto(b[body..body + CHECKSUM_LEN]);
    assert b == b[..body] + b[body..body + CHECKSUM_LEN] + b[body + CHECKSUM_LEN..];
  }

  /** The frames one after another. */
  function Written(fs: seq<Frame>): Str {
    if fs == [] then [] else PutFrame(fs[0]) + Written(fs[1..])
  }

  /** Consecutive sequence numbers from `expected`, and payloads within the record limit. */
  predicate Numbered(fs: seq<Frame>, expected: nat) {
    forall i :: 0 <= i < |fs| ==> fs[i].sequence == expected + i && |fs[i].payload| <= 8_388_608
  }

  /** What the frames make of an attempt map, if each applies to what came before. */
  function Replay(fs: seq<Frame>, attempts: Attempts): Option<Attempts> {
    if fs == [] then Some(attempts)
    else match ApplyFrame(attempts, fs[0])
      case Err(_) => None
      case Ok(next) => Replay(fs[1..], next)
  }

  /** Bytes that parse are the bytes of such frames. */
  lemma {:induction false} ParsedFrames(b: Str, expected: u64, attempts: Attempts) returns (fs: seq<Frame>)
    requires ParseFrom(b, expected, attempts).Ok?
    ensures b == Written(fs) && Numbered(fs, expected) && expected + |fs| < U64_COUNT
    ensures ParseFrom(b, expected, attempts).value.0 == Some(expected + |fs|)
    ensures Replay(fs, attempts) == Some(ParseFrom(b, expected, attempts).value.1)
    decreases |b|
  {
    hide ReadFrame, ApplyFrame, PutFrame;
    if b == [] {
      fs := [];
    } else {
      ReadOnto(b, expected);
      var (f, rest) := ReadFrame(b, expected).value;
      var more := ParsedFrames(rest, expected + 1, ApplyFrame(attempts, f).value);
      fs := [f] + more;
      assert fs[1..] == more;
    }
  }

  /** The bytes of such frames parse. */
  lemma {:induction false} WrittenParses(fs: seq<Frame>, expected: u64, attempts: Attempts)
    requires Numbered(fs, expected) && expected + |fs| < U64_COUNT && Replay(fs, attempts).Some?
    ensures ParseFrom(Written(fs), expected, attempts) == Ok((Some(expected + |fs|), Replay(fs, attempts).value))
    decreases |fs|
  {
    hide ReadFrame, ApplyFrame, PutFrame;
    if fs != [] {
      ReadPut(fs[0], Written(fs[1..]));
      WrittenParses(fs[1..], expected + 1, ApplyFrame(attempts, fs[0]).value);
      FrameNotEmpty(fs[0]);
    }
  }

  lemma FrameNotEmpty(f: Frame)
    ensures PutFrame(f) != []
  {
    hide Checksum, FrameHead;
    assert |PutFrame(f)| >= 40;
  }

  // ----- lawful histories --------------------------------------------------

  ghost predicate Has(fs: seq<Frame>, kind: byte, id: AttemptId) {
    exists i :: 0 <= i < |fs| && fs[i].kind == kind && fs[i].attempt == id
  }

  /** The attempt ended in an unknown commit. */
  ghost predicate EndedUnknown(fs: seq<Frame>, id: AttemptId) {
    exists i :: 0 <= i < |fs| && fs[i].kind == 2 && fs[i].attempt == id
                && DecodeFinish(fs[i].payload, id).Ok? && DecodeFinish(fs[i].payload, id).value.0 == CommitUnknown
  }

  /** `f` may follow `fs`: 1 starts an attempt, 2 ends it, 3 reconciles an unknown end. */
  ghost predicate MayFollow(fs: seq<Frame>, f: Frame) {
    || (f.kind == 1 && !Has(fs, 1, f.attempt))
    || (f.kind == 2 && DecodeFinish(f.payload, f.attempt).Ok? && Has(fs, 1, f.attempt) && !Has(fs, 2, f.attempt))
    || (f.kind == 3 && DecodeReconcile(f.payload, f.attempt).Ok? && EndedUnknown(fs, f.attempt) && !Has(fs, 3, f.attempt))
  }

  ghost predicate Lawful(fs: seq<Frame>) {
    forall j :: 0 <= j < |fs| ==> MayFollow(fs[..j], fs[j])
  }

  lemma HasSnoc(fs: seq<Frame>, f: Frame, kind: byte, id: AttemptId)
    ensures Has(fs + [f], kind, id) <==> Has(fs, kind, id) || (f.kind == kind && f.attempt == id)
  {
    var all := fs + [f];
    if Has(fs, kind, id) {
      var i :| 0 <= i < |fs| && fs[i].kind == kind && fs[i].attempt == id;
      assert all[i] == fs[i];
    }
    assert all[|fs|] == f;
  }

  lemma UnknownSnoc(fs: seq<Frame>, f: Frame, id: AttemptId)
    ensures EndedUnknown(fs + [f], id) <==>
            || EndedUnknown(fs, id)
            || (f.kind == 2 && f.attempt == id && DecodeFinish(f.payload, id).Ok? && DecodeFinish(f.payload, id).value.0 == CommitUnknown)
  {
    hide DecodeFinish;
    var all := fs + [f];
    if EndedUnknown(fs, id) {
      var i :| 0 <= i < |fs| && fs[i].kind == 2 && fs[i].attempt == id
               && DecodeFinish(fs[i].payload, id).Ok? && DecodeFinish(fs[i].payload, id).value.0 == CommitUnknown;
      assert all[i] == fs[i];
    }
    assert all[|fs|] == f;
  }

  lemma LawfulSnoc(fs: seq<Frame>, f: Frame)
    ensures Lawful(fs + [f]) <==> Lawful(fs) && MayFollow(fs, f)
  {
    hide MayFollow;
    var all := fs + [f];
    assert all[..|fs|] == fs && all[|fs|] == f;
    forall j | 0 <= j < |fs| ensures all[..j] == fs[..j] && all[j] == fs[j] {
    }
    if Lawful(all) {
      assert MayFollow(all[..|fs|], all[|fs|]);
      forall j | 0 <= j < |fs| ensures MayFollow(fs[..j], fs[j]) {
        assert MayFollow(all[..j], all[j]);
      }
    }
  }

  lemma {:induction false} ReplaySnoc(fs: seq<Frame>, f: Frame, attempts: Attempts)
    ensures Replay(fs + [f], attempts) ==
            match Replay(fs, attempts)
            case None => None
            case Some(a) => (match ApplyFrame(a, f) case Err(_) => None case Ok(next) => Some(next))
    decreases |fs|
  {
    hide ApplyFrame;
    if fs == [] {
      assert fs + [f] == [f] && [f][1..] == [];
    } else {
      assert (fs + [f])[1..] == fs[1..] + [f];
      if ApplyFrame(attempts, fs[0]).Ok? {
        ReplaySnoc(fs[1..], f, ApplyFrame(attempts, fs[0]).value);
      }
    }
  }

  /** What a map says of one attempt is what its frames say. */
  ghost predicate Tells(fs: seq<Frame>, attempts: Attempts, id: AttemptId) {
    && (id in attempts <==> Has(fs, 1, id))
    && (id !in attempts ==> !Has(fs, 2, id) && !Has(fs, 3, id) && !EndedUnknown(fs, id))
    && (id in attempts ==>
          var a := attempts[id];
          && a.id == id
          && (a.outcome != Started <==> Has(fs, 2, id)) && (a.finishSequence.Some? <==> Has(fs, 2, id))
          && (a.outcome == CommitUnknown <==> EndedUnknown(fs, id))
          && (a.reconciliation.Some? <==> Has(fs, 3, id))
          && (!Has(fs, 2, id) ==> a.receipt.None? && a.evidence.None?))
  }

  /** Each frame left its fields in the attempt it names. */
  ghost predicate Kept(f: Frame, attempts: Attempts) {
    && f.attempt in attempts
    && var a := attempts[f.attempt];
       && (f.kind == 1 ==> a.startSequence == f.sequence && a.payload == f.payload)
       && (f.kind == 2 ==> a.finishSequence == Some(f.sequence) && DecodeFinish(f.payload, f.attempt) == Ok((a.outcome, a.receipt, a.evidence)))
       && (f.kind == 3 ==> a.reconciliation.Some? && DecodeReconcile(f.payload, f.attempt) == Ok(a.reconciliation.value))
  }

  ghost predicate Told(fs: seq<Frame>, attempts: Attempts) {
    && (forall id: AttemptId :: Tells(fs, attempts, id))
    && (forall i :: 0 <= i < |fs| ==> Kept(fs[i], attempts))
  }

  lemma FinishNotStarted(payload: Str, id: AttemptId)
    ensures DecodeFinish(payload, id).Ok? ==> DecodeFinish(payload, id).value.0 != Started
  {
    hide FromLittleEndian;
  }

  /** A frame applies exactly when it may follow. */
  lemma AppliesExactly(fs: seq<Frame>, attempts: Attempts, f: Frame)
    requires Told(fs, attempts)
    ensures ApplyFrame(attempts, f).Ok? <==> MayFollow(fs, f)
  {
    hide DecodeFinish, DecodeReconcile, Has, EndedUnknown, Kept;
    assert Tells(fs, attempts, f.attempt);
  }

  lemma TellsNext(fs: seq<Frame>, attempts: Attempts, f: Frame, id: AttemptId)
    requires Tells(fs, attempts, id) && Tells(fs, attempts, f.attempt) && ApplyFrame(attempts, f).Ok?
    ensures Tells(fs + [f], ApplyFrame(attempts, f).value, id)
  {
    hide DecodeFinish, DecodeReconcile, Has, EndedUnknown;
    HasSnoc(fs, f, 1, id);
    HasSnoc(fs, f, 2, id);
    HasSnoc(fs, f, 3, id);
    UnknownSnoc(fs, f, id);
    FinishNotStarted(f.payload, f.attempt);
  }

  lemma KeptNext(fs: seq<Frame>, attempts: Attempts, f: Frame, g: Frame)
    requires Kept(g, attempts) && Tells(fs, attempts, f.attempt) && ApplyFrame(attempts, f).Ok?
    requires g.kind == 2 ==> Has(fs, 2, g.attempt)
    requires g.kind == 3 ==> Has(fs, 3, g.attempt)
    requires 1 <= g.kind <= 3
    ensures Kept(g, ApplyFrame(attempts, f).value)
  {
    hide DecodeFinish, DecodeReconcile, Has, EndedUnknown;
  }

  lemma KeptOwn(attempts: Attempts, f: Frame)
    requires ApplyFrame(attempts, f).Ok?
    ensures Kept(f, ApplyFrame(attempts, f).value) && 1 <= f.kind <= 3
  {
    hide DecodeFinish, DecodeReconcile;
  }

  lemma ToldNext(fs: seq<Frame>, attempts: Attempts, f: Frame)
    requires Told(fs, attempts) && ApplyFrame(attempts, f).Ok? && Lawful(fs)
    ensures Told(fs + [f], ApplyFrame(attempts, f).value)
  {
    hide ApplyFrame, Tells, Kept, Has;
    var after, all := ApplyFrame(attempts, f).value, fs + [f];
    forall id: AttemptId ensures Tells(all, after, id) {
      TellsNext(fs, attempts, f, id);
    }
    forall i | 0 <= i < |all| ensures Kept(all[i], after) {
      if i < |fs| {
        assert all[i] == fs[i];
        FrameAt(fs, i);
        KeptNext(fs, attempts, f, fs[i]);
      } else {
        KeptOwn(attempts, f);
      }
    }
  }

  lemma FrameAt(fs: seq<Frame>, i: nat)
    requires Lawful(fs) && i < |fs|
    ensures 1 <= fs[i].kind <= 3 && Has(fs, fs[i].kind, fs[i].attempt)
  {
    hide DecodeFinish, DecodeReconcile, EndedUnknown;
    assert MayFollow(fs[..i], fs[i]);
  }

  /**
   Frames replay exactly when they tell a lawful history, and the map they
   leave says of every attempt what they say.
   */
  lemma {:induction false} ReplayExact(fs: seq<Frame>)
    ensures Replay(fs, map[]).Some? <==> Lawful(fs)
    ensures Replay(fs, map[]).Some? ==> Told(fs, Replay(fs, map[]).value)
    decreases |fs|
  {
    hide ApplyFrame, MayFollow, Told;
    if fs == [] {
      NothingTold();
    } else {
      var front, f := fs[..|fs| - 1], fs[|fs| - 1];
      assert fs == front + [f];
      ReplayExact(front);
      ReplaySnoc(front, f, map[]);
      LawfulSnoc(front, f);
      if Replay(front, map[]).Some? {
        AppliesExactly(front, Replay(front, map[]).value, f);
        if MayFollow(front, f) {
          ToldNext(front, Replay(front, map[]).value, f);
        }
      }
    }
  }

  lemma NothingTold()
    ensures Told([], map[])
  {
  }

  /**
   A journal opens if and only if it is the bytes of numbered frames telling
   a lawful history within the capacity; what is read from it is what they tell.
   */
  lemma ParseExact(b: Str, maximum: nat)
    requires maximum <= 134_217_728
    ensures Parse(b, maximum).Ok? <==> exists fs :: b == Written(fs) && Numbered(fs, 0) && Lawful(fs) && |b| <= maximum
    ensures Parse(b, maximum).Ok? ==>
              exists fs :: b == Written(fs) && Numbered(fs, 0) && Lawful(fs) && Told(fs, Parse(b, maximum).value.1) && Parse(b, maximum).value.0 == Some(|fs|)
  {
    hide Written, Numbered, Lawful, Told, ParseFrom;
    if Parse(b, maximum).Ok? {
      var fs := ParsedFrames(b, 0, map[]);
      ReplayExact(fs);
    }
    if fs :| b == Written(fs) && Numbered(fs, 0) && Lawful(fs) && |b| <= maximum {
      ReplayExact(fs);
      WrittenLength(fs);
      WrittenParses(fs, 0, map[]);
    }
  }

  lemma {:induction false} WrittenLength(fs: seq<Frame>)
    ensures |Written(fs)| >= 40 * |fs|
    decreases |fs|
  {
    hide Checksum, FrameHead;
    if fs != [] {
      WrittenLength(fs[1..]);
    }
  }
}
