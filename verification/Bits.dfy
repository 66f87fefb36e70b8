/** Machine-word bit operations, on the numbers the words denote. */
module Bits {

  function Pow2(k: nat): (p: nat)
    ensures p >= 1
  {
    if k == 0 then 1 else 2 * Pow2(k - 1)
  }

  predicate Bit(n: nat, k: nat)
    decreases k
  {
    if k == 0 then n % 2 == 1 else Bit(n / 2, k - 1)
  }

  /** Applies a truth table to each of the low `w` bits. */
  function Bitwise(f: (bool, bool) -> bool, a: nat, b: nat, w: nat): (r: nat)
    ensures r < Pow2(w)
  {
    if w == 0 then 0
    else (if f(a % 2 == 1, b % 2 == 1) then 1 else 0) + 2 * Bitwise(f, a / 2, b / 2, w - 1)
  }

  predicate AndTable(x: bool, y: bool) { x && y }
  predicate OrTable(x: bool, y: bool) { x || y }
  predicate AndNotTable(x: bool, y: bool) { x && !y }
  predicate XorTable(x: bool, y: bool) { x != y }

  function And(a: nat, b: nat, w: nat): nat { Bitwise(AndTable, a, b, w) }
  function Or(a: nat, b: nat, w: nat): nat { Bitwise(OrTable, a, b, w) }
  function AndNot(a: nat, b: nat, w: nat): nat { Bitwise(AndNotTable, a, b, w) }
  function Xor(a: nat, b: nat, w: nat): nat { Bitwise(XorTable, a, b, w) }

  lemma {:induction false} BitwiseBit(f: (bool, bool) -> bool, a: nat, b: nat, w: nat, k: nat)
    ensures Bit(Bitwise(f, a, b, w), k) <==> k < w && f(Bit(a, k), Bit(b, k))
    decreases k
  {
    if w == 0 {
      ZeroBits(k);
    } else {
      var r := Bitwise(f, a, b, w);
      assert r / 2 == Bitwise(f, a / 2, b / 2, w - 1);
      if k > 0 {
        BitwiseBit(f, a / 2, b / 2, w - 1, k - 1);
      }
    }
  }

  lemma {:induction false} ZeroBits(k: nat)
    ensures !Bit(0, k)
  {
    if k > 0 {
      ZeroBits(k - 1);
    }
  }

  lemma {:induction false} HighBits(n: nat, w: nat, k: nat)
    requires n < Pow2(w) && w <= k
    ensures !Bit(n, k)
  {
    if w == 0 {
      ZeroBits(k);
    } else {
      HighBits(n / 2, w - 1, k - 1);
    }
  }

  /** Words with the same bits are the same word. */
  lemma {:induction false} BitsExtensional(a: nat, b: nat, w: nat)
    requires a < Pow2(w) && b < Pow2(w)
    requires forall k: nat :: k < w ==> (Bit(a, k) <==> Bit(b, k))
    ensures a == b
  {
    if w > 0 {
      forall k: nat | k < w - 1
        ensures Bit(a / 2, k) <==> Bit(b / 2, k)
      {
        assert Bit(a, k + 1) <==> Bit(b, k + 1);
      }
      BitsExtensional(a / 2, b / 2, w - 1);
      assert Bit(a, 0) <==> Bit(b, 0);
    }
  }

  lemma {:induction false} Pow2Bit(t: nat, k: nat)
    ensures Bit(Pow2(t), k) <==> k == t
    decreases k
  {
    if t == 0 {
      if k > 0 {
        ZeroBits(k - 1);
      }
    } else if k > 0 {
      assert Pow2(t) / 2 == Pow2(t - 1);
      Pow2Bit(t - 1, k - 1);
    }
  }

  /** A nonzero word of width `w` has a bit below `w`. */
  lemma {:induction false} SomeBit(n: nat, w: nat) returns (k: nat)
    requires 0 < n < Pow2(w)
    ensures k < w && Bit(n, k)
  {
    if n % 2 == 1 {
      k := 0;
    } else {
      var j := SomeBit(n / 2, w - 1);
      k := j + 1;
    }
  }

  /** `word & (1 << t) != 0` reads bit `t`. */
  lemma MaskTest(a: nat, t: nat, w: nat)
    requires t < w
    ensures And(a, Pow2(t), w) != 0 <==> Bit(a, t)
  {
    Pow2Bit(t, t);
    BitwiseBit(AndTable, a, Pow2(t), w, t);
    if And(a, Pow2(t), w) != 0 {
      var k := SomeBit(And(a, Pow2(t), w), w);
      BitwiseBit(AndTable, a, Pow2(t), w, k);
      Pow2Bit(t, k);
    } else {
      ZeroBits(t);
    }
  }

  /** `word | (1 << t)` sets bit `t` and no other. */
  lemma MaskSet(a: nat, t: nat, w: nat, k: nat)
    requires t < w && a < Pow2(w)
    ensures Bit(Or(a, Pow2(t), w), k) <==> Bit(a, k) || k == t
  {
    BitwiseBit(OrTable, a, Pow2(t), w, k);
    Pow2Bit(t, k);
    if k >= w {
      HighBits(a, w, k);
    }
  }

  /** `a & !b == 0` is inclusion of bits. */
  lemma MaskSubset(a: nat, b: nat, w: nat)
    requires a < Pow2(w)
    ensures AndNot(a, b, w) == 0 <==> forall k: nat :: Bit(a, k) ==> Bit(b, k)
  {
    if AndNot(a, b, w) != 0 {
      var k := SomeBit(AndNot(a, b, w), w);
      BitwiseBit(AndNotTable, a, b, w, k);
    } else {
      forall k: nat | Bit(a, k)
        ensures Bit(b, k)
      {
        if k >= w {
          HighBits(a, w, k);
        }
        BitwiseBit(AndNotTable, a, b, w, k);
        ZeroBits(k);
      }
    }
  }

  /** Xor with a fixed word loses nothing, in either argument. */
  lemma XorInjective(a: nat, b: nat, c: nat, d: nat, w: nat)
    requires a < Pow2(w) && b < Pow2(w) && c < Pow2(w) && d < Pow2(w)
    requires Xor(a, c, w) == Xor(b, d, w)
    ensures a == b <==> c == d
  {
    forall k: nat | k < w
      ensures (Bit(a, k) <==> Bit(b, k)) <==> (Bit(c, k) <==> Bit(d, k))
    {
      BitwiseBit(XorTable, a, c, w, k);
      BitwiseBit(XorTable, b, d, w, k);
    }
    if a == b {
      BitsExtensional(c, d, w);
    }
    if c == d {
      BitsExtensional(a, b, w);
    }
  }

  // ----- closed tag sets ---------------------------------------------------
  // File effects, HTTP methods and GitHub operations are each a bitset over a
  // closed universe of `n` tags, held in a word of `w >= n` bits.

  predicate Has(bits: nat, tag: nat, w: nat) {
    And(bits, Pow2(tag), w) != 0
  }

  predicate Subset(a: nat, b: nat, w: nat) {
    AndNot(a, b, w) == 0
  }

  /** The set built from a list of tags. */
  function FromTags(tags: seq<nat>, w: nat): nat {
    if tags == [] then 0 else Or(FromTags(tags[..|tags| - 1], w), Pow2(tags[|tags| - 1]), w)
  }

  lemma {:induction false} Pow2Monotone(m: nat, n: nat)
    requires m <= n
    ensures Pow2(m) <= Pow2(n)
  {
    if m < n {
      Pow2Monotone(m, n - 1);
    }
  }

  /** A set built from a list holds exactly the listed tags, and stays in its universe. */
  lemma {:induction false} FromTagsExact(tags: seq<nat>, n: nat, w: nat, k: nat)
    requires n <= w && forall i :: 0 <= i < |tags| ==> tags[i] < n
    ensures FromTags(tags, w) < Pow2(w)
    ensures Bit(FromTags(tags, w), k) <==> k in tags
  {
    if tags == [] {
      ZeroBits(k);
    } else {
      var init, last := tags[..|tags| - 1], tags[|tags| - 1];
      FromTagsExact(init, n, w, k);
      MaskSet(FromTags(init, w), last, w, k);
      assert tags == init + [last];
    }
  }

  /** A number without bits at or above `n` is below the universe bound. */
  lemma {:induction false} LowBits(a: nat, n: nat, w: nat)
    requires a < Pow2(w) && forall k: nat :: Bit(a, k) ==> k < n
    ensures a < Pow2(n)
    decreases n
  {
    if n == 0 {
      if a != 0 {
        var k := SomeBit(a, w);
      }
    } else {
      forall k: nat | Bit(a / 2, k) ensures k < n - 1 {
        assert Bit(a, k + 1);
      }
      LowBits(a / 2, n - 1, w);
    }
  }

  /** The mask test is set inclusion over the universe; only zero is empty. */
  lemma SubsetExact(a: nat, b: nat, n: nat, w: nat)
    requires a < Pow2(n) && n <= w
    ensures Subset(a, b, w) <==> forall t: nat :: t < n && Has(a, t, w) ==> Has(b, t, w)
    ensures a == 0 <==> forall t: nat :: t < n ==> !Has(a, t, w)
  {
    Pow2Monotone(n, w);
    MaskSubset(a, b, w);
    forall t: nat | t < n && Subset(a, b, w) && Has(a, t, w)
      ensures Has(b, t, w)
    {
      MaskTest(a, t, w);
      MaskTest(b, t, w);
    }
    if !Subset(a, b, w) {
      var k: nat :| Bit(a, k) && !Bit(b, k);
      UniverseBit(a, n, k);
      MaskTest(a, k, w);
      MaskTest(b, k, w);
      assert Has(a, k, w) && !Has(b, k, w);
    }
    if a != 0 {
      var k := SomeBit(a, n);
      MaskTest(a, k, w);
      assert Has(a, k, w);
    }
    forall t: nat | a == 0 && t < n
      ensures !Has(a, t, w)
    {
      ZeroBits(t);
      MaskTest(a, t, w);
    }
  }

  lemma UniverseBit(a: nat, n: nat, k: nat)
    requires a < Pow2(n) && Bit(a, k)
    ensures k < n
  {
    if k >= n {
      HighBits(a, n, k);
    }
  }

  /** Sets over one universe with the same members are the same word. */
  lemma SameMembers(a: nat, b: nat, n: nat, w: nat)
    requires a < Pow2(n) && b < Pow2(n) && n <= w
    requires forall t: nat :: t < n ==> (Has(a, t, w) <==> Has(b, t, w))
    ensures a == b
  {
    forall t: nat | t < n
      ensures Bit(a, t) <==> Bit(b, t)
    {
      assert Has(a, t, w) <==> Has(b, t, w);
      MaskTest(a, t, w);
      MaskTest(b, t, w);
    }
    BitsExtensional(a, b, n);
  }
}
