/** The canonical root-policy encoding and its textual digest (`policy.rs`). */
module Policy {
  import opened Bytes
  import opened Bits
  import opened Patterns
  import opened File
  import opened Http
  import opened Github
  import opened Capability

  const ROOT_POLICY_ENCODING_VERSION := 1

  /** What `AuthorityPolicyDigest::for_root` is computed from. */
  datatype RootPolicy = RootPolicy(validity: TimeWindow, authority: AuthorityBody, delegable: bool)

  // ----- bitsets -----------------------------------------------------------

  /** The fold over a closed universe of `n` tags that rebuilds a bitset bit by bit. */
  function Gather(bits: nat, n: nat, w: nat): nat {
    if n == 0 then 0
    else Or(Gather(bits, n - 1, w), if Has(bits, n - 1, w) then Pow2(n - 1) else 0, w)
  }

  lemma {:induction false} GatherExact(bits: nat, n: nat, w: nat, k: nat)
    requires n <= w
    ensures Gather(bits, n, w) < Pow2(w)
    ensures Bit(Gather(bits, n, w), k) <==> k < n && Has(bits, k, w)
  {
    ZeroBits(k);
    if n > 0 {
      GatherExact(bits, n - 1, w, k);
      BitwiseBit(OrTable, Gather(bits, n - 1, w), if Has(bits, n - 1, w) then Pow2(n - 1) else 0, w, k);
      Pow2Bit(n - 1, k);
    }
  }

  /** A set of valid tags is recovered from its bits. */
  lemma GatherInjective(a: nat, b: nat, n: nat, w: nat)
    requires n <= w && a < Pow2(n) && b < Pow2(n)
    requires Gather(a, n, w) == Gather(b, n, w)
    ensures a == b
  {
    forall t: nat | t < n ensures Has(a, t, w) <==> Has(b, t, w) {
      GatherExact(a, n, w, t);
      GatherExact(b, n, w, t);
    }
    SameMembers(a, b, n, w);
  }

  // ----- the encoding ------------------------------------------------------

  /** `b"authority-root-policy\0"`. */
  function Domain(): Str {
    Ascii("authority-root-policy") + [0]
  }

  function FieldText(s: Str): Str {
    BigEndian(|s|, 4) + s
  }

  function FieldTexts(parts: seq<Str>): Str {
    if parts == [] then [] else FieldText(parts[0]) + FieldTexts(parts[1..])
  }

  function FieldSegments(parts: seq<Str>): Str {
    BigEndian(|parts|, 4) + FieldTexts(parts)
  }

  function FieldPattern(p: Pattern): Str {
    [if p.Exact? then 1 else 2] + FieldSegments(p.name)
  }

  function FieldAuthority(a: AuthorityBody): Str {
    match a
    case FileBody(f) => [1] + (FieldText(f.repository) + (BigEndian(Gather(f.effects, 13, 16), 2) + FieldPattern(f.path)))
    case HttpBody(h) => [2] + ([Gather(h.methods, 2, 8) % 256] + (FieldText(h.host) + (FieldPattern(h.path) + BigEndian(h.maxBytes, 8))))
    case GitHubBody(g) =>
      [3] + (FieldText(g.installation) + (FieldText(g.repository)
      + ([Gather(g.operations, 2, 8) % 256] + (FieldPattern(g.base) + FieldPattern(g.head)))))
  }

  function Canonical(p: RootPolicy): Str {
    Domain() + (BigEndian(ROOT_POLICY_ENCODING_VERSION, 2) + (BigEndian(p.validity.notBefore, 8)
    + (BigEndian(p.validity.expiresAt, 8) + ([if p.delegable then 1 else 0] + FieldAuthority(p.authority)))))
  }

  // ----- injectivity -------------------------------------------------------
  // Each field ends where its own bytes say, so equal encodings can be taken
  // apart from the front, one field at a time.

  predicate Fits(s: Str) {
    |s| < U32_COUNT
  }

  predicate FitsPattern(p: Pattern) {
    |p.name| < U32_COUNT && forall i :: 0 <= i < |p.name| ==> Fits(p.name[i])
  }

  /** Lengths and counts the encoder can write in four bytes, and bitsets over their own universe. */
  predicate Encodable(a: AuthorityBody) {
    match a
    case FileBody(f) => Fits(f.repository) && ValidEffects(f.effects) && FitsPattern(f.path)
    case HttpBody(h) => ValidMethods(h.methods) && Fits(h.host) && FitsPattern(h.path)
    case GitHubBody(g) =>
      Fits(g.installation) && Fits(g.repository) && ValidOperations(g.operations) && FitsPattern(g.base) && FitsPattern(g.head)
  }

  lemma Cancel(a: Str, b: Str, x: Str, y: Str)
    requires |a| == |b| && a + x == b + y
    ensures a == b && x == y
  {
    assert a == (a + x)[..|a|] && b == (b + y)[..|b|];
    assert x == (a + x)[|a|..] && y == (b + y)[|b|..];
  }

  lemma CancelNumber(m: nat, n: nat, width: nat, x: Str, y: Str)
    requires m < Pow256(width) && n < Pow256(width)
    requires BigEndian(m, width) + x == BigEndian(n, width) + y
    ensures m == n && x == y
  {
    Cancel(BigEndian(m, width), BigEndian(n, width), x, y);
    BigEndianInjective(m, n, width);
  }

  lemma CancelText(s: Str, t: Str, x: Str, y: Str)
    requires Fits(s) && Fits(t) && FieldText(s) + x == FieldText(t) + y
    ensures s == t && x == y
  {
    hide BigEndian;
    Pow256Values();
    assert BigEndian(|s|, 4) + (s + x) == FieldText(s) + x;
    assert BigEndian(|t|, 4) + (t + y) == FieldText(t) + y;
    CancelNumber(|s|, |t|, 4, s + x, t + y);
    Cancel(s, t, x, y);
  }

  lemma {:induction false} CancelTexts(p: seq<Str>, q: seq<Str>, x: Str, y: Str)
    requires |p| == |q| && (forall i :: 0 <= i < |p| ==> Fits(p[i]) && Fits(q[i]))
    requires FieldTexts(p) + x == FieldTexts(q) + y
    ensures p == q && x == y
    decreases |p|
  {
    hide FieldText;
    if p == [] {
      assert [] + x == x && [] + y == y;
    } else {
      assert FieldText(p[0]) + (FieldTexts(p[1..]) + x) == FieldTexts(p) + x;
      assert FieldText(q[0]) + (FieldTexts(q[1..]) + y) == FieldTexts(q) + y;
      CancelText(p[0], q[0], FieldTexts(p[1..]) + x, FieldTexts(q[1..]) + y);
      CancelTexts(p[1..], q[1..], x, y);
      assert p == [p[0]] + p[1..] && q == [q[0]] + q[1..];
    }
  }

  lemma CancelPattern(p: Pattern, q: Pattern, x: Str, y: Str)
    requires FitsPattern(p) && FitsPattern(q) && FieldPattern(p) + x == FieldPattern(q) + y
    ensures p == q && x == y
  {
    hide BigEndian, FieldTexts;
    var a, b: byte := if p.Exact? then 1 else 2, if q.Exact? then 1 else 2;
    Pow256Values();
    assert [a] + (BigEndian(|p.name|, 4) + (FieldTexts(p.name) + x)) == FieldPattern(p) + x;
    assert [b] + (BigEndian(|q.name|, 4) + (FieldTexts(q.name) + y)) == FieldPattern(q) + y;
    Cancel([a], [b], BigEndian(|p.name|, 4) + (FieldTexts(p.name) + x), BigEndian(|q.name|, 4) + (FieldTexts(q.name) + y));
    CancelNumber(|p.name|, |q.name|, 4, FieldTexts(p.name) + x, FieldTexts(q.name) + y);
    CancelTexts(p.name, q.name, x, y);
  }

  lemma Pow2At8()
    ensures Pow2(8) == 256
  {
  }

  lemma GatherByte(a: nat, b: nat)
    requires a < Pow2(2) && b < Pow2(2) && Gather(a, 2, 8) % 256 == Gather(b, 2, 8) % 256
    ensures a == b
  {
    Pow2At8();
    hide Gather, Pow2;
    GatherExact(a, 2, 8, 0);
    GatherExact(b, 2, 8, 0);
    GatherInjective(a, b, 2, 8);
  }

  lemma FileInjective(a: FileAuthority, b: FileAuthority)
    requires Encodable(FileBody(a)) && Encodable(FileBody(b))
    requires FieldAuthority(FileBody(a)) == FieldAuthority(FileBody(b))
    ensures a == b
  {
    hide BigEndian, Gather, FieldText, FieldPattern, Pow2;
    Cancel([1], [1], FieldAuthority(FileBody(a))[1..], FieldAuthority(FileBody(b))[1..]);
    var x, y := Gather(a.effects, 13, 16), Gather(b.effects, 13, 16);
    GatherExact(a.effects, 13, 16, 0);
    GatherExact(b.effects, 13, 16, 0);
    Pow2At16();
    Pow256Values();
    CancelText(a.repository, b.repository, BigEndian(x, 2) + FieldPattern(a.path), BigEndian(y, 2) + FieldPattern(b.path));
    CancelNumber(x, y, 2, FieldPattern(a.path), FieldPattern(b.path));
    GatherInjective(a.effects, b.effects, 13, 16);
    assert FieldPattern(a.path) + [] == FieldPattern(a.path) && FieldPattern(b.path) + [] == FieldPattern(b.path);
    CancelPattern(a.path, b.path, [], []);
  }

  lemma Pow2At16()
    ensures Pow2(16) == 0x1_0000
  {
    assert Pow2(8) == 256;
    assert Pow2(12) == 16 * Pow2(8);
  }

  lemma HttpInjective(a: HttpAuthority, b: HttpAuthority)
    requires Encodable(HttpBody(a)) && Encodable(HttpBody(b))
    requires FieldAuthority(HttpBody(a)) == FieldAuthority(HttpBody(b))
    ensures a == b
  {
    hide BigEndian, Gather, FieldText, FieldPattern;
    var u, v := FieldPattern(a.path) + BigEndian(a.maxBytes, 8), FieldPattern(b.path) + BigEndian(b.maxBytes, 8);
    var x: byte, y: byte := Gather(a.methods, 2, 8) % 256, Gather(b.methods, 2, 8) % 256;
    Cancel([2], [2], [x] + (FieldText(a.host) + u), [y] + (FieldText(b.host) + v));
    Cancel([x], [y], FieldText(a.host) + u, FieldText(b.host) + v);
    assert x == [x][0] && y == [y][0];
    GatherByte(a.methods, b.methods);
    CancelText(a.host, b.host, u, v);
    CancelPattern(a.path, b.path, BigEndian(a.maxBytes, 8), BigEndian(b.maxBytes, 8));
    Pow256Values();
    BigEndianInjective(a.maxBytes, b.maxBytes, 8);
  }

  lemma GitHubInjective(a: GitHubAuthority, b: GitHubAuthority)
    requires Encodable(GitHubBody(a)) && Encodable(GitHubBody(b))
    requires FieldAuthority(GitHubBody(a)) == FieldAuthority(GitHubBody(b))
    ensures a == b
  {
    hide BigEndian, Gather, FieldText, FieldPattern;
    var u, v := FieldPattern(a.base) + FieldPattern(a.head), FieldPattern(b.base) + FieldPattern(b.head);
    var x: byte, y: byte := Gather(a.operations, 2, 8) % 256, Gather(b.operations, 2, 8) % 256;
    Cancel([3], [3], FieldText(a.installation) + (FieldText(a.repository) + ([x] + u)), FieldText(b.installation) + (FieldText(b.repository) + ([y] + v)));
    CancelText(a.installation, b.installation, FieldText(a.repository) + ([x] + u), FieldText(b.repository) + ([y] + v));
    CancelText(a.repository, b.repository, [x] + u, [y] + v);
    Cancel([x], [y], u, v);
    assert x == [x][0] && y == [y][0];
    GatherByte(a.operations, b.operations);
    CancelPattern(a.base, b.base, FieldPattern(a.head), FieldPattern(b.head));
    assert FieldPattern(a.head) + [] == FieldPattern(a.head) && FieldPattern(b.head) + [] == FieldPattern(b.head);
    CancelPattern(a.head, b.head, [], []);
  }

  lemma AuthorityInjective(a: AuthorityBody, b: AuthorityBody)
    requires Encodable(a) && Encodable(b) && FieldAuthority(a) == FieldAuthority(b)
    ensures a == b
  {
    hide BigEndian, Gather, FieldText, FieldPattern, Encodable;
    assert FieldAuthority(a)[0] == FieldAuthority(b)[0];
    match a
    case FileBody(f) => FileInjective(f, b.file);
    case HttpBody(h) => HttpInjective(h, b.http);
    case GitHubBody(g) => GitHubInjective(g, b.github);
  }

  /**
   Two root policies with the same canonical bytes are the same policy, in
   validity, delegability and every field of the authority.
   */
  lemma CanonicalInjective(p: RootPolicy, q: RootPolicy)
    requires Encodable(p.authority) && Encodable(q.authority)
    requires Canonical(p) == Canonical(q)
    ensures p == q
  {
    hide BigEndian, FieldAuthority, Domain, Encodable;
    var a, b := FieldAuthority(p.authority), FieldAuthority(q.authority);
    var d, e: byte := if p.delegable then 1 else 0, if q.delegable then 1 else 0;
    var pe, qe := BigEndian(p.validity.expiresAt, 8) + ([d] + a), BigEndian(q.validity.expiresAt, 8) + ([e] + b);
    var pn, qn := BigEndian(p.validity.notBefore, 8) + pe, BigEndian(q.validity.notBefore, 8) + qe;
    Pow256Values();
    Cancel(Domain(), Domain(), BigEndian(ROOT_POLICY_ENCODING_VERSION, 2) + pn, BigEndian(ROOT_POLICY_ENCODING_VERSION, 2) + qn);
    Cancel(BigEndian(ROOT_POLICY_ENCODING_VERSION, 2), BigEndian(ROOT_POLICY_ENCODING_VERSION, 2), pn, qn);
    CancelNumber(p.validity.notBefore, q.validity.notBefore, 8, pe, qe);
    CancelNumber(p.validity.expiresAt, q.validity.expiresAt, 8, [d] + a, [e] + b);
    Cancel([d], [e], a, b);
    assert d == [d][0] && e == [e][0];
    AuthorityInjective(p.authority, q.authority);
  }

  /** Equal digests of different policies are a collision of the hash itself. */
  lemma DigestBinds(sha: Str -> Str, p: RootPolicy, q: RootPolicy)
    requires Encodable(p.authority) && Encodable(q.authority) && p != q
    requires sha(Canonical(p)) == sha(Canonical(q))
    ensures exists x, y :: x != y && sha(x) == sha(y)
  {
    hide Canonical, Encodable;
    if Canonical(p) == Canonical(q) {
      CanonicalInjective(p, q);
    }
  }

  // ----- hexadecimal -------------------------------------------------------

  function HexDigit(n: nat): byte
    requires n < 16
  {
    if n < 10 then 0x30 + n else 0x61 + n - 10
  }

  function DecodeHex(c: byte): Option<nat> {
    if 0x30 <= c <= 0x39 then Some(c - 0x30)
    else if 0x61 <= c <= 0x66 then Some(c - 0x61 + 10)
    else None
  }

  function ToHex(b: Str): (s: Str)
    ensures |s| == 2 * |b|
  {
    if b == [] then [] else ToHex(b[..|b| - 1]) + [HexDigit(b[|b| - 1] / 16), HexDigit(b[|b| - 1] % 16)]
  }

  /** Every pair of digits decodes, high digit first. */
  predicate HexOf(s: Str, b: Str) {
    && |s| == 2 * |b|
    && forall i :: 0 <= i < |b| ==> DecodeHex(s[2 * i]) == Some(b[i] / 16) && DecodeHex(s[2 * i + 1]) == Some(b[i] % 16)
  }

  /** Printing then reading returns the bytes, and the printed text is the only one that reads as them. */
  lemma {:induction false} HexExact(s: Str, b: Str)
    ensures HexOf(s, b) <==> s == ToHex(b)
    decreases |b|
  {
    if b != [] && |s| == 2 * |b| {
      hide HexDigit, DecodeHex;
      var n := |b| - 1;
      var front, high, low := s[..2 * n], s[2 * n], s[2 * n + 1];
      HexExact(front, b[..n]);
      HexDigits(b[n] / 16);
      HexDigits(b[n] % 16);
      assert s == front + [high, low];
      HexFront(s, b, n);
      if s == ToHex(b) {
        assert front == ToHex(b[..n]);
      }
    }
  }

  lemma HexFront(s: Str, b: Str, n: nat)
    requires |s| == 2 * |b| && n + 1 == |b|
    ensures HexOf(s, b) <==> HexOf(s[..2 * n], b[..n]) && DecodeHex(s[2 * n]) == Some(b[n] / 16) && DecodeHex(s[2 * n + 1]) == Some(b[n] % 16)
  {
    hide DecodeHex;
    var front := s[..2 * n];
    forall i | 0 <= i < n
      ensures front[2 * i] == s[2 * i] && front[2 * i + 1] == s[2 * i + 1] && b[..n][i] == b[i]
    {
    }
  }

  lemma HexDigits(n: nat)
    requires n < 16
    ensures forall c: byte :: DecodeHex(c) == Some(n) <==> c == HexDigit(n)
  {
  }

  /** `to_hex`. */
  method PrintDigest(b: Str) returns (s: Str)
    ensures s == ToHex(b)
  {
    s := [];
    for i := 0 to |b|
      invariant s == ToHex(b[..i])
    {
      assert b[..i + 1][..i] == b[..i];
      s := s + [HexDigit(b[i] / 16)];
      s := s + [HexDigit(b[i] % 16)];
    }
    assert b[..|b|] == b;
  }

  /** `from_hex`: exactly the 64-digit lower-case spelling of some 32 bytes, and then those bytes. */
  method ParseDigest(s: Str) returns (r: Option<Str>)
    ensures r.Some? ==> |r.value| == 32 && s == ToHex(r.value)
    ensures r.None? ==> forall b: Str :: |b| == 32 ==> s != ToHex(b)
  {
    hide ToHex, DecodeHex;
    if |s| != 64 {
      return None;
    }
    var bytes := new byte[32](_ => 0);
    for i := 0 to 32
      invariant forall j :: 0 <= j < i ==>
                  DecodeHex(s[2 * j]) == Some(bytes[j] / 16) && DecodeHex(s[2 * j + 1]) == Some(bytes[j] % 16)
    {
      var high, low := DecodeHex(s[2 * i]), DecodeHex(s[2 * i + 1]);
      if high.None? || low.None? {
        NoSuchDigest(s, i);
        return None;
      }
      DecodeRange(s[2 * i]);
      DecodeRange(s[2 * i + 1]);
      bytes[i] := high.value * 16 + low.value;
    }
    r := Some(bytes[..]);
    HexExact(s, bytes[..]);
  }

  lemma NoSuchDigest(s: Str, i: nat)
    requires |s| == 64 && i < 32 && (DecodeHex(s[2 * i]).None? || DecodeHex(s[2 * i + 1]).None?)
    ensures forall b: Str :: |b| == 32 ==> s != ToHex(b)
  {
    hide DecodeHex, ToHex;
    forall b: Str | |b| == 32 ensures s != ToHex(b) {
      HexExact(s, b);
      var digit := b[i];
    }
  }

  lemma DecodeRange(c: byte)
    ensures DecodeHex(c).Some? ==> DecodeHex(c).value < 16
  {
  }

  // ----- the buffer --------------------------------------------------------

  lemma {:induction false} FieldTextsSnoc(parts: seq<Str>, last: Str)
    ensures FieldTexts(parts + [last]) == FieldTexts(parts) + FieldText(last)
    decreases |parts|
  {
    if parts == [] {
      assert parts + [last] == [last];
      assert [last][1..] == [];
    } else {
      FieldTextsSnoc(parts[1..], last);
      assert (parts + [last])[1..] == parts[1..] + [last];
    }
  }

  lemma Regroup(o: Str, a: Str, b: Str, c: Str, d: Str, e: Str)
    ensures o + a + b + c + d + e == o + (a + (b + (c + (d + e))))
    ensures o + a + b + c + d == o + (a + (b + (c + d)))
  {
  }

  lemma RegroupAll(o: Str, a: Str, b: Str, c: Str, d: Str, e: Str, f: Str)
    ensures o + a + b + c + d + e + f == o + (a + (b + (c + (d + (e + f)))))
  {
    Regroup(o + a, b, c, d, e, f);
    assert o + a + (b + (c + (d + (e + f)))) == o + (a + (b + (c + (d + (e + f)))));
  }

  /** `CanonicalPolicy`: a byte buffer that only grows. */
  class CanonicalPolicy {
    var bytes: Str

    constructor ()
      ensures bytes == Domain()
    {
      bytes := Domain();
    }

    method Append(chunk: Str)
      modifies this
      ensures bytes == old(bytes) + chunk
    {
      bytes := bytes + chunk;
    }

    method Text(s: Str)
      modifies this
      ensures bytes == old(bytes) + FieldText(s)
    {
      Append(BigEndian(|s|, 4));
      Append(s);
    }

    method Pattern(p: Pattern)
      modifies this
      ensures bytes == old(bytes) + FieldPattern(p)
    {
      hide FieldText, BigEndian;
      Append([if p.Exact? then 1 else 2]);
      Append(BigEndian(|p.name|, 4));
      ghost var start := bytes;
      for i := 0 to |p.name|
        invariant bytes == start + FieldTexts(p.name[..i])
      {
        FieldTextsSnoc(p.name[..i], p.name[i]);
        assert p.name[..i + 1] == p.name[..i] + [p.name[i]];
        Text(p.name[i]);
      }
      assert p.name[..|p.name|] == p.name;
    }

    method File(f: FileAuthority)
      modifies this
      ensures bytes == old(bytes) + FieldAuthority(FileBody(f))
    {
      hide FieldText, FieldPattern, BigEndian, Gather;
      Append([1]);
      Text(f.repository);
      Append(BigEndian(Gather(f.effects, 13, 16), 2));
      Pattern(f.path);
      Regroup(old(bytes), [1], FieldText(f.repository), BigEndian(Gather(f.effects, 13, 16), 2), FieldPattern(f.path), []);
      assert FieldPattern(f.path) + [] == FieldPattern(f.path);
    }

    method Http(h: HttpAuthority)
      modifies this
      ensures bytes == old(bytes) + FieldAuthority(HttpBody(h))
    {
      hide FieldText, FieldPattern, BigEndian, Gather;
      Append([2]);
      Append([Gather(h.methods, 2, 8) % 256]);
      Text(h.host);
      Pattern(h.path);
      Append(BigEndian(h.maxBytes, 8));
      Regroup(old(bytes), [2], [Gather(h.methods, 2, 8) % 256], FieldText(h.host), FieldPattern(h.path), BigEndian(h.maxBytes, 8));
    }

    method GitHub(g: GitHubAuthority)
      modifies this
      ensures bytes == old(bytes) + FieldAuthority(GitHubBody(g))
    {
      hide FieldText, FieldPattern, BigEndian, Gather;
      Append([3]);
      Text(g.installation);
      Text(g.repository);
      Append([Gather(g.operations, 2, 8) % 256]);
      Pattern(g.base);
      Pattern(g.head);
      RegroupAll(old(bytes), [3], FieldText(g.installation), FieldText(g.repository), [Gather(g.operations, 2, 8) % 256],
                 FieldPattern(g.base), FieldPattern(g.head));
    }

    method Authority(a: AuthorityBody)
      modifies this
      ensures bytes == old(bytes) + FieldAuthority(a)
    {
      hide FieldAuthority;
      match a
      case FileBody(f) => File(f);
      case HttpBody(h) => Http(h);
      case GitHubBody(g) => GitHub(g);
    }

    /** The encoding step of `for_root`. */
    static method ForRoot(p: RootPolicy) returns (bytes: Str)
      ensures bytes == Canonical(p)
    {
      hide FieldAuthority, BigEndian, Domain;
      var canonical := new CanonicalPolicy();
      canonical.Append(BigEndian(ROOT_POLICY_ENCODING_VERSION, 2));
      canonical.Append(BigEndian(p.validity.notBefore, 8));
      canonical.Append(BigEndian(p.validity.expiresAt, 8));
      canonical.Append([if p.delegable then 1 else 0]);
      canonical.Authority(p.authority);
      bytes := canonical.bytes;
    }
  }
}
