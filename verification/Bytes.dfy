/**
 Bytes, fixed-width integers, and the text primitives every codec of the
 runtime is built on. Text is the UTF-8 byte string that Rust holds.
 */
module Bytes {

  datatype Option<+T> = None | Some(value: T)

  datatype Result<+T, +E> = Ok(value: T) | Err(error: E)

  type byte = b: int | 0 <= b < 256

  type Str = seq<byte>

  const U64_COUNT := 0x1_0000_0000_0000_0000
  const U32_COUNT := 0x1_0000_0000

  type u64 = n: int | 0 <= n < 0x1_0000_0000_0000_0000

  /** `u64::checked_add(1)`. */
  function CheckedNext(n: u64): (r: Option<u64>) {
    if n + 1 < U64_COUNT then Some(n + 1) else None
  }

  /** The bytes of an ASCII literal. */
  function Ascii(s: string): (r: Str)
    ensures |r| == |s|
  {
    if s == "" then [] else [s[0] as int % 256] + Ascii(s[1..])
  }

  // ----- fixed-width integers ---------------------------------------------

  function Pow256(k: nat): (p: nat)
    ensures p >= 1
  {
    if k == 0 then 1 else 256 * Pow256(k - 1)
  }

  /** `to_le_bytes` for an integer of `width` bytes. */
  function LittleEndian(n: nat, width: nat): (b: Str)
    ensures |b| == width
  {
    if width == 0 then [] else [n % 256] + LittleEndian(n / 256, width - 1)
  }

  function FromLittleEndian(b: Str): (n: nat)
    ensures n < Pow256(|b|)
  {
    if |b| == 0 then 0 else b[0] + 256 * FromLittleEndian(b[1..])
  }

  lemma {:induction false} LittleEndianRoundTrip(n: nat, width: nat)
    requires n < Pow256(width)
    ensures FromLittleEndian(LittleEndian(n, width)) == n
  {
    if width > 0 {
      LittleEndianRoundTrip(n / 256, width - 1);
      assert LittleEndian(n, width)[1..] == LittleEndian(n / 256, width - 1);
    }
  }

  lemma {:induction false} LittleEndianOnto(b: Str)
    ensures LittleEndian(FromLittleEndian(b), |b|) == b
  {
    if |b| > 0 {
      var low, high := b[0], FromLittleEndian(b[1..]);
      LittleEndianOnto(b[1..]);
      assert (low + 256 * high) % 256 == low && (low + 256 * high) / 256 == high;
      assert b == [low] + b[1..];
    }
  }

  /** `to_be_bytes` for an integer of `width` bytes. */
  function BigEndian(n: nat, width: nat): (b: Str)
    ensures |b| == width
  {
    if width == 0 then [] else BigEndian(n / 256, width - 1) + [n % 256]
  }

  lemma {:induction false} BigEndianInjective(m: nat, n: nat, width: nat)
    requires m < Pow256(width) && n < Pow256(width)
    requires BigEndian(m, width) == BigEndian(n, width)
    ensures m == n
  {
    if width > 0 {
      var x, y := BigEndian(m, width), BigEndian(n, width);
      assert x[..width - 1] == BigEndian(m / 256, width - 1);
      assert y[..width - 1] == BigEndian(n / 256, width - 1);
      BigEndianInjective(m / 256, n / 256, width - 1);
      assert x[width - 1] == m % 256 && y[width - 1] == n % 256;
    }
  }

  lemma Pow256Values()
    ensures Pow256(2) == 0x1_0000 && Pow256(4) == U32_COUNT && Pow256(8) == U64_COUNT
  {
    assert Pow256(3) == 0x100_0000;
    assert Pow256(6) == 256 * Pow256(5) == 65536 * Pow256(4);
  }

  // ----- split and join ----------------------------------------------------

  /** `str::split(sep)`: always at least one piece, none containing `sep`. */
  function Split(s: Str, sep: byte): (parts: seq<Str>)
    ensures |parts| >= 1
  {
    if s == [] then [[]]
    else
      var rest := Split(s[1..], sep);
      if s[0] == sep then [[]] + rest else [[s[0]] + rest[0]] + rest[1..]
  }

  /** `[T]::join(sep)`. */
  function Join(parts: seq<Str>, sep: byte): Str {
    if |parts| == 0 then []
    else if |parts| == 1 then parts[0]
    else parts[0] + [sep] + Join(parts[1..], sep)
  }

  lemma {:induction false} JoinSplit(s: Str, sep: byte)
    ensures Join(Split(s, sep), sep) == s
    ensures forall p :: p in Split(s, sep) ==> sep !in p
  {
    if s != [] {
      JoinSplit(s[1..], sep);
      var rest, parts := Split(s[1..], sep), Split(s, sep);
      if s[0] == sep {
        assert parts[1..] == rest;
      } else {
        assert parts[1..] == rest[1..];
        assert rest[0] in rest;
      }
      assert s == [s[0]] + s[1..];
    }
  }

  /** Splitting a text without the separator leaves it whole. */
  lemma {:induction false} SplitWhole(s: Str, sep: byte)
    requires sep !in s
    ensures Split(s, sep) == [s]
  {
    if s != [] {
      SplitWhole(s[1..], sep);
      assert s == [s[0]] + s[1..];
    }
  }

  lemma {:induction false} SplitCons(p: Str, sep: byte, t: Str)
    requires sep !in p
    ensures Split(p + [sep] + t, sep) == [p] + Split(t, sep)
  {
    var s := p + [sep] + t;
    if p == [] {
      assert s[1..] == t;
    } else {
      assert s[1..] == p[1..] + [sep] + t;
      SplitCons(p[1..], sep, t);
      assert p == [p[0]] + p[1..];
    }
  }

  lemma {:induction false} SplitJoin(parts: seq<Str>, sep: byte)
    requires |parts| >= 1
    requires forall p :: p in parts ==> sep !in p
    ensures Split(Join(parts, sep), sep) == parts
  {
    assert parts[0] in parts;
    if |parts| == 1 {
      SplitWhole(parts[0], sep);
    } else {
      SplitJoin(parts[1..], sep);
      SplitCons(parts[0], sep, Join(parts[1..], sep));
      assert parts == [parts[0]] + parts[1..];
    }
  }

  // ----- UTF-8 -------------------------------------------------------------

  predicate Continuation(b: byte) {
    0x80 <= b <= 0xBF
  }

  /** Width of the well-formed UTF-8 character that starts `s`; 0 if none does. */
  function CharWidth(s: Str): (w: nat)
    ensures w <= |s|
  {
    if |s| == 0 then 0
    else if s[0] < 0x80 then 1
    else if |s| < 2 || !Continuation(s[1]) then 0
    else if 0xC2 <= s[0] <= 0xDF then 2
    else if |s| < 3 || !Continuation(s[2]) then 0
    else if s[0] == 0xE0 && s[1] >= 0xA0 then 3
    else if s[0] == 0xED && s[1] <= 0x9F then 3
    else if 0xE1 <= s[0] <= 0xEF && s[0] != 0xED then 3
    else if |s| < 4 || !Continuation(s[3]) then 0
    else if s[0] == 0xF0 && s[1] >= 0x90 then 4
    else if s[0] == 0xF4 && s[1] <= 0x8F then 4
    else if 0xF1 <= s[0] <= 0xF3 then 4
    else 0
  }

  /** What `String::from_utf8` accepts. */
  predicate ValidUtf8(s: Str)
    decreases |s|
  {
    s == [] || (CharWidth(s) > 0 && ValidUtf8(s[CharWidth(s)..]))
  }

  lemma {:induction false} AsciiIsUtf8(s: Str)
    requires forall i :: 0 <= i < |s| ==> s[i] < 0x80
    ensures ValidUtf8(s)
  {
    if s != [] {
      AsciiIsUtf8(s[1..]);
    }
  }

  /** Cutting UTF-8 text at an ASCII separator leaves UTF-8 pieces. */
  lemma {:induction false} SplitKeepsUtf8(s: Str, sep: byte)
    requires ValidUtf8(s) && sep < 0x80
    ensures forall p :: p in Split(s, sep) ==> ValidUtf8(p)
    decreases |s|
  {
    if s != [] {
      var w := CharWidth(s);
      SplitKeepsUtf8(s[w..], sep);
      var rest := Split(s[w..], sep);
      if s[0] == sep {
        assert Split(s, sep) == [[]] + rest;
      } else {
        SplitPrefix(s[..w], s[w..], sep);
        assert s == s[..w] + s[w..];
        var head := s[..w] + rest[0];
        assert CharWidth(head) == w;
        assert head[w..] == rest[0];
        assert rest[0] in rest;
        assert Split(s, sep) == [head] + rest[1..];
      }
    }
  }

  /** A separator-free prefix stays glued to the first piece. */
  lemma {:induction false} SplitPrefix(p: Str, t: Str, sep: byte)
    requires sep !in p
    ensures Split(p + t, sep) == [p + Split(t, sep)[0]] + Split(t, sep)[1..]
  {
    if p == [] {
      assert p + t == t;
      var parts := Split(t, sep);
      assert p + parts[0] == parts[0];
    } else {
      assert (p + t)[1..] == p[1..] + t;
      SplitPrefix(p[1..], t, sep);
      assert [p[0]] + (p[1..] + Split(t, sep)[0]) == p + Split(t, sep)[0];
    }
  }
}
