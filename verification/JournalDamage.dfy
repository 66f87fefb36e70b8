/** Torn and damaged journals: what the parser says about bytes that are not what was written. */
module JournalDamage {
  import opened Bytes
  import Bits
  import opened Journal
  import opened JournalCodec

  // ----- the checksum step loses nothing -----------------------------------

  /** The inverse of the FNV prime modulo 2^64. */
  const FNV_PRIME_INVERSE := 0xce96_5057_aff6_957b

  lemma PrimeUndone(a: u64)
    ensures ((a * FNV_PRIME) % U64_COUNT * FNV_PRIME_INVERSE) % U64_COUNT == a
  {
    var q, r := (a * FNV_PRIME) / U64_COUNT, (a * FNV_PRIME) % U64_COUNT;
    assert r * FNV_PRIME_INVERSE == a + (a * 887285111055 - q * FNV_PRIME_INVERSE) * U64_COUNT;
    Residue(a, a * 887285111055 - q * FNV_PRIME_INVERSE);
  }

  lemma Residue(a: u64, t: int)
    ensures (a + t * U64_COUNT) % U64_COUNT == a
  {
  }

  lemma {:induction false} Pow2Add(m: nat, n: nat)
    ensures Bits.Pow2(m + n) == Bits.Pow2(m) * Bits.Pow2(n)
  {
    if m > 0 {
      Pow2Add(m - 1, n);
    }
  }

  lemma Pow2At4()
    ensures Bits.Pow2(4) == 16
  {
  }

  lemma Pow2At64()
    ensures Bits.Pow2(64) == U64_COUNT
  {
    hide Bits.Pow2;
    Pow2At4();
    Pow2Add(4, 4);
    Pow2Add(8, 8);
    Pow2Add(16, 16);
    Pow2Add(32, 32);
  }

  lemma FnvStepInjective(h: u64, g: u64, x: byte, y: byte)
    requires FnvStep(h, x) == FnvStep(g, y)
    ensures h == g <==> x == y
  {
    hide Bits.Xor;
    Pow2At64();
    var a, b := Bits.Xor(h, x, 64), Bits.Xor(g, y, 64);
    assert a < U64_COUNT && b < U64_COUNT by {
      XorRange(h, x);
      XorRange(g, y);
    }
    PrimeUndone(a);
    PrimeUndone(b);
    Bits.XorInjective(h, g, x, y, 64);
  }

  lemma XorRange(h: u64, x: byte)
    ensures Bits.Xor(h, x, 64) < U64_COUNT
  {
    Pow2At64();
  }

  /** Changing one byte always changes the checksum. */
  lemma {:induction false} ChecksumDamage(b: Str, p: nat, x: byte)
    requires p < |b| && b[p] != x
    ensures Checksum(b[p := x]) != Checksum(b)
    decreases |b|
  {
    hide FnvStep;
    var last, d := |b| - 1, b[p := x];
    if p == last {
      assert d[..last] == b[..last];
    } else {
      ChecksumDamage(b[..last], p, x);
      assert d[..last] == b[..last][p := x];
    }
    if Checksum(d) == Checksum(b) {
      FnvStepInjective(Checksum(d[..last]), Checksum(b[..last]), d[last], b[last]);
    }
  }

  // ----- one frame ---------------------------------------------------------

  function FrameSize(b: Str): nat
    requires |b| >= HEADER_LEN
  {
    HEADER_LEN + HeadLength(b) + CHECKSUM_LEN
  }

  /** Cutting inside a frame leaves a truncation; cutting behind it leaves the frame. */
  lemma ReadCut(b: Str, expected: u64, k: nat)
    requires ReadFrame(b, expected).Ok? && k <= |b|
    ensures k < FrameSize(b) ==> ReadFrame(b[..k], expected) == Err(TruncatedRecord)
    ensures k >= FrameSize(b) ==>
              ReadFrame(b[..k], expected) == Ok((ReadFrame(b, expected).value.0, ReadFrame(b, expected).value.1[..k - FrameSize(b)]))
  {
    hide Checksum, HeadFault, HeadLength, HeadAttempt, FromLittleEndian;
    var c := b[..k];
    if k >= 40 {
      assert b == c + b[k..];
      HeadPrefix(c, b[k..], expected);
      var body := 32 + HeadLength(b);
      if k >= body + 8 {
        assert c[..body] == b[..body];
        assert c[body..body + 8] == b[body..body + 8];
        assert c[body + 8..] == b[body + 8..][..k - (body + 8)];
        assert c[32..body] == b[32..body];
      }
    }
  }

  lemma HeadLengthKept(b: Str, p: nat, x: byte)
    requires HEADER_LEN <= |b| && p < |b| && !(28 <= p < 32)
    ensures HeadLength(b[p := x]) == HeadLength(b)
  {
    assert b[p := x][28..32] == b[28..32];
  }

  lemma StoredSumDamage(b: Str, p: nat, x: byte)
    requires |b| == 8 && p < 8 && b[p] != x
    ensures FromLittleEndian(b[p := x]) != FromLittleEndian(b)
  {
    LittleEndianOnto(b);
    LittleEndianOnto(b[p := x]);
    assert b[p := x][p] != b[p];
  }

  /** A changed byte inside a frame, outside its length field, makes that frame unreadable. */
  lemma ReadDamaged(b: Str, expected: u64, p: nat, x: byte)
    requires ReadFrame(b, expected).Ok?
    requires p < FrameSize(b) && !(28 <= p < 32) && b[p] != x
    ensures ReadFrame(b[p := x], expected).Err?
  {
    hide Checksum, HeadFault, HeadLength, HeadAttempt, FromLittleEndian;
    var d, body := b[p := x], 32 + HeadLength(b);
    HeadLengthKept(b, p, x);
    if p < body {
      ChecksumDamage(b[..body], p, x);
      assert d[..body] == b[..body][p := x];
      assert d[body..body + 8] == b[body..body + 8];
    } else {
      StoredSumDamage(b[body..body + 8], p - body, x);
      assert d[..body] == b[..body];
      assert d[body..body + 8] == b[body..body + 8][p - body := x];
    }
  }

  lemma ReadBeforeDamage(b: Str, expected: u64, p: nat, x: byte)
    requires ReadFrame(b, expected).Ok?
    requires FrameSize(b) <= p < |b|
    ensures ReadFrame(b[p := x], expected)
            == Ok((ReadFrame(b, expected).value.0, ReadFrame(b, expected).value.1[p - FrameSize(b) := x]))
  {
    hide ReadFrame, HeadLength, HeadAttempt, HeadFault;
    var size, d := FrameSize(b), b[p := x];
    ReadCut(b, expected, size);
    var (f, rest) := ReadFrame(b, expected).value;
    assert rest[..0] == [];
    assert d == b[..size] + d[size..];
    ReadExtends(b[..size], d[size..], expected);
    ReadExtends(b[..size], b[size..], expected);
    assert b == b[..size] + b[size..];
    assert [] + d[size..] == d[size..] && [] + b[size..] == b[size..];
    assert d[size..] == rest[p - size := x];
  }

  // ----- whole journals ----------------------------------------------------

  /** `p` is one of the four payload-length bytes of some frame of `b`. */
  predicate InLengthField(b: Str, p: nat)
    decreases |b|
  {
    if |b| < HEADER_LEN then false
    else if p < FrameSize(b) then 28 <= p < 32
    else FrameSize(b) <= |b| && InLengthField(b[FrameSize(b)..], p - FrameSize(b))
  }

  lemma RestAfterFrame(b: Str, expected: u64)
    requires ReadFrame(b, expected).Ok?
    ensures FrameSize(b) <= |b| && ReadFrame(b, expected).value.1 == b[FrameSize(b)..]
  {
  }

  /** Changing any one byte outside the length fields makes a valid journal unreadable. */
  lemma {:induction false} ParseDamaged(b: Str, expected: u64, attempts: Attempts, p: nat, x: byte)
    requires ParseFrom(b, expected, attempts).Ok?
    requires p < |b| && b[p] != x && !InLengthField(b, p)
    ensures ParseFrom(b[p := x], expected, attempts).Err?
    decreases |b|
  {
    hide ReadFrame, ApplyFrame, HeadLength;
    RestAfterFrame(b, expected);
    if p < FrameSize(b) {
      ReadDamaged(b, expected, p, x);
    } else {
      ReadBeforeDamage(b, expected, p, x);
      var (f, rest) := ReadFrame(b, expected).value;
      ParseDamaged(rest, CheckedNext(expected).value, ApplyFrame(attempts, f).value, p - FrameSize(b), x);
    }
  }

  /** A valid journal cut anywhere is either a shorter valid journal or reported as truncated. */
  lemma {:induction false} ParseCut(b: Str, expected: u64, attempts: Attempts, k: nat)
    requires ParseFrom(b, expected, attempts).Ok? && k <= |b|
    ensures ParseFrom(b[..k], expected, attempts).Ok? || ParseFrom(b[..k], expected, attempts) == Err(TruncatedRecord)
    decreases |b|
  {
    hide ReadFrame, ApplyFrame, HeadLength;
    if k > 0 {
      ReadCut(b, expected, k);
      if k >= FrameSize(b) {
        RestAfterFrame(b, expected);
        var (f, rest) := ReadFrame(b, expected).value;
        ParseCut(rest, CheckedNext(expected).value, ApplyFrame(attempts, f).value, k - FrameSize(b));
      }
    }
  }

  /** `parse_journal` never accepts a single changed byte outside the length fields. */
  lemma DamageDetected(b: Str, maximum: nat, p: nat, x: byte)
    requires Parse(b, maximum).Ok?
    requires p < |b| && b[p] != x && !InLengthField(b, p)
    ensures Parse(b[p := x], maximum).Err?
  {
    ParseDamaged(b, 0, map[], p, x);
  }

  /** A journal followed by a non-empty proper prefix of its next frame is a truncated record. */
  lemma TornTail(b: Str, maximum: nat, f: Frame, k: nat)
    requires Parse(b, maximum).Ok? && Parse(b, maximum).value.0 == Some(f.sequence)
    requires |f.payload| <= MAX_RECORD_PAYLOAD
    requires 0 < k < |PutFrame(f)| && |b| + k <= maximum
    ensures Parse(b + PutFrame(f)[..k], maximum) == Err(TruncatedRecord)
  {
    hide ReadFrame, PutFrame, HeadLength;
    ReadPut(f, []);
    assert PutFrame(f) + [] == PutFrame(f);
    RestAfterFrame(PutFrame(f), f.sequence);
    ReadCut(PutFrame(f), f.sequence, k);
    ParseAppend(b, PutFrame(f)[..k], 0, map[]);
  }

  lemma XorStep(a: nat, b: nat, w: nat)
    requires w > 0
    ensures Bits.Xor(a, b, w) == (if (a % 2 == 1) != (b % 2 == 1) then 1 else 0) + 2 * Bits.Xor(a / 2, b / 2, w - 1)
  {
  }

  lemma {:induction false} XorZero(a: nat, w: nat)
    requires a < Bits.Pow2(w)
    ensures Bits.Xor(a, 0, w) == a
    decreases w
  {
    if w > 0 {
      XorStep(a, 0, w);
      XorZero(a / 2, w - 1);
    }
  }

  /** Published test vectors of 64-bit FNV-1a: the empty text and `a`. */
  lemma ChecksumVectors()
    ensures Checksum([]) == 0xcbf2_9ce4_8422_2325
    ensures Checksum([0x61]) == 0xaf63_dc4c_8601_ec8c
  {
    hide Bits.Xor, Bits.Pow2;
    var a: Str := [0x61];
    assert a[..0] == [];
    Pow2At57();
    XorStep(0xcbf29ce484222325, 97, 64);
    XorStep(0x65f94e7242111192, 48, 63);
    XorStep(0x32fca739210888c9, 24, 62);
    XorStep(0x197e539c90844464, 12, 61);
    XorStep(0xcbf29ce48422232, 6, 60);
    XorStep(0x65f94e724211119, 3, 59);
    XorStep(0x32fca739210888c, 1, 58);
    XorZero(0x197e539c9084446, 57);
    assert Bits.Xor(0xcbf2_9ce4_8422_2325, 0x61, 64) == 0xcbf2_9ce4_8422_2344;
    assert Checksum(a) == FnvStep(Checksum(a[..0]), 0x61);
  }

  lemma Pow2At57()
    ensures Bits.Pow2(57) == 0x200_0000_0000_0000
  {
    hide Bits.Pow2;
    Pow2At4();
    Pow2Add(4, 4);
    Pow2Add(8, 8);
    Pow2Add(16, 16);
    Pow2Add(32, 16);
    Pow2Add(48, 8);
    PowOne();
    Pow2Add(56, 1);
  }

  lemma PowOne()
    ensures Bits.Pow2(1) == 2
  {
  }
}
