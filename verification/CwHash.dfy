/**
 The arithmetic modulo the Mersenne prime 2^89-1 of sylvan_hash.c: numbers of three 32-bit limbs, on machine words
 of 64 bits.
 */
module CwHash {

  const W32: nat := 0x1_0000_0000
  const W64: nat := 0x1_0000_0000_0000_0000

  /** The prime 2^89-1. */
  const PRIME: nat := W64 * 0x200_0000 - 1

  datatype Int96 = Int96(r0: nat, r1: nat, r2: nat)
  {
    function Value(): nat { r0 + r1 * W32 + r2 * W64 }

    /** Every limb is below 2^32. */
    predicate Limbs() { r0 < W32 && r1 < W32 && r2 < W32 }
  }

  function Low(x: nat): nat { x % W32 }

  function High(x: nat): nat { x / W32 }

  /** Unsigned 64-bit wrap-around. */
  function Wrap(x: nat): nat { x % W64 }

  ghost predicate Congruent(x: int, y: int) { exists k: int :: x - y == k * PRIME }

  // ---------- Splitting products at bit 89 ----------

  lemma MulMono(a: nat, b: nat, x: nat, y: nat)
    requires a <= b && x <= y
    ensures a * x <= b * y
  {
    assert b * y - a * x == (b - a) * y + a * (y - x);
  }

  /** The product of two 32-bit numbers fits in 64 bits. */
  lemma SquareBound(a: nat, x: nat)
    requires a < W32 && x < W32
    ensures a * x <= (W32 - 1) * (W32 - 1) && Wrap(a * x) == a * x
  {
    MulMono(a, W32 - 1, x, W32 - 1);
  }

  /** a * x, limb by limb. */
  lemma Product(a0: nat, a1: nat, a2: nat, x0: nat, x1: nat)
    ensures (a0 + a1 * W32 + a2 * W64) * (x0 + x1 * W32) ==
      a0 * x0 + (a0 * x1 + a1 * x0) * W32 + (a1 * x1 + a2 * x0) * W64 + a2 * x1 * (W64 * W32)
  {
    var y := x1 * W32;
    calc {
      (a0 + a1 * W32 + a2 * W64) * (x0 + y);
      (a0 + a1 * W32 + a2 * W64) * x0 + (a0 + a1 * W32 + a2 * W64) * y;
      a0 * x0 + a1 * x0 * W32 + a2 * x0 * W64 + a0 * y + a1 * y * W32 + a2 * y * W64;
    }
    assert a0 * y == a0 * x1 * W32 && a1 * y == a1 * x1 * W32 && a2 * y == a2 * x1 * W32;
  }

  /** The limbs are 64-bit words. */
  predicate Words(a: Int96) { a.r0 < W64 && a.r1 < W64 && a.r2 < W64 }

  /** The bounds within which nothing overflows: a number of three limbs, and one below 2^89 to add. */
  predicate InBounds(a: Int96, b: Int96) { a.Limbs() && b.r0 < W32 && b.r1 < W32 && b.r2 < LOW25 }

  const LOW25: nat := 0x200_0000
  const LOW57: nat := 0x200_0000_0000_0000

  /** A 64-bit multiplication. */
  function Times(a: nat, x: nat): nat { Wrap(a * x) }

  /** What the machine computes, with all wrap-arounds. */
  function MultAdd(x: nat, a: Int96, b: Int96): Int96 {
    var x1, x0 := High(x), Low(x);
    Split(b, Times(a.r2, x1), Times(a.r1, x1), Times(a.r0, x1), Times(a.r2, x0), Times(a.r1, x0), Times(a.r0, x0))
  }

  /** The products are split where they reach bit 89. */
  function Split(b: Int96, c21: nat, c11: nat, c01: nat, c20: nat, c10: nat, c00: nat): Int96 {
    Sum(b, c00, Wrap(c20 / LOW25 + c11 / LOW25 + c10 / LOW57 + c01 / LOW57), Wrap(c21 * 0x80),
        Wrap(c10 % LOW57 + c01 % LOW57), Wrap(c20 % LOW25 + c11 % LOW25 + c21 / LOW57))
  }

  /** The sum of all parts, with carries. */
  function Sum(b: Int96, c00: nat, d0: nat, d1: nat, d2: nat, d3: nat): Int96 {
    var s0 := Wrap(b.r0 + Low(c00) + Low(d0) + Low(d1));
    var s1 := Wrap(b.r1 + High(c00) + High(d0) + High(d1) + Low(d2) + High(s0));
    Int96(Low(s0), Low(s1), Wrap(b.r2 + High(d2) + d3 + High(s1)))
  }

  /** The sum of the six products, each of them modulo 2^64. */
  ghost function Products(x: nat, a: Int96): nat {
    var x1, x0 := High(x), Low(x);
    Times(a.r0, x0) + (Times(a.r0, x1) + Times(a.r1, x0)) * W32 + (Times(a.r1, x1) + Times(a.r2, x0)) * W64 +
    Times(a.r2, x1) * (W64 * W32)
  }

  /** The result is right up to what the products and the sums lose. */
  ghost predicate RightUpToLosses(x: nat, a: Int96, b: Int96, r: Int96) {
    && r.r0 < W32 && r.r1 < W32
    && exists o0: nat, o1: nat, o2: nat :: o0 <= 1 && o1 <= 1 && o2 <= 1 && LosesCarries(x, a, b, r, o0, o1, o2)
  }

  ghost predicate LosesCarries(x: nat, a: Int96, b: Int96, r: Int96, o0: nat, o1: nat, o2: nat) {
    Congruent(r.Value() + o0 * W64 + o1 * (W64 * W32) + o2 * (W64 * W64), Products(x, a) + b.Value())
  }

  /**
   MultAddPrime89. For any limbs the result is congruent to a * x + b but for what the six products lose modulo 2^64,
   and for one carry out of each sum. Within the bounds nothing is lost.
   */
  method MultAddPrime89(x: nat, a: Int96, b: Int96) returns (r: Int96)
    requires x < W64 && Words(a) && Words(b)
    ensures r == MultAdd(x, a, b) && Words(r)
    ensures RightUpToLosses(x, a, b, r)
    ensures InBounds(a, b) ==> r.Limbs() && Congruent(r.Value(), a.Value() * x + b.Value())
  {
    var x1, x0 := High(x), Low(x);
    var c21, c11, c01 := Times(a.r2, x1), Times(a.r1, x1), Times(a.r0, x1);
    var c20, c10, c00 := Times(a.r2, x0), Times(a.r1, x0), Times(a.r0, x0);
    r := AddUp(b, c21, c11, c01, c20, c10, c00);
    MultAddAny(x, a, b);
    if InBounds(a, b) {
      MultAddExact(x, a, b);
    }
  }

  method AddUp(b: Int96, c21: nat, c11: nat, c01: nat, c20: nat, c10: nat, c00: nat) returns (r: Int96)
    ensures r == Split(b, c21, c11, c01, c20, c10, c00) && Words(r)
  {
    var d0 := Wrap(c20 / LOW25 + c11 / LOW25 + c10 / LOW57 + c01 / LOW57);
    var d1 := Wrap(c21 * 0x80);
    var d2 := Wrap(c10 % LOW57 + c01 % LOW57);
    var d3 := Wrap(c20 % LOW25 + c11 % LOW25 + c21 / LOW57);
    var s0 := Wrap(b.r0 + Low(c00) + Low(d0) + Low(d1));
    var r0 := Low(s0);
    var carry := High(s0);
    var s1 := Wrap(b.r1 + High(c00) + High(d0) + High(d1) + Low(d2) + carry);
    var r1 := Low(s1);
    carry := High(s1);
    r := Int96(r0, r1, Wrap(b.r2 + High(d2) + d3 + carry));
  }

  lemma MultAddAny(x: nat, a: Int96, b: Int96)
    requires x < W64 && Words(b)
    ensures RightUpToLosses(x, a, b, MultAdd(x, a, b))
  {
    var x1, x0 := High(x), Low(x);
    var c21, c11, c01 := Times(a.r2, x1), Times(a.r1, x1), Times(a.r0, x1);
    var c20, c10, c00 := Times(a.r2, x0), Times(a.r1, x0), Times(a.r0, x0);
    var o0, o1, o2 := SplitAny(b, c21, c11, c01, c20, c10, c00);
    assert LosesCarries(x, a, b, MultAdd(x, a, b), o0, o1, o2);
  }

  lemma SplitAny(b: Int96, c21: nat, c11: nat, c01: nat, c20: nat, c10: nat, c00: nat)
    returns (o0: nat, o1: nat, o2: nat)
    requires c21 < W64 && c20 < W64 && c11 < W64 && c10 < W64 && c01 < W64 && c00 < W64 && Words(b)
    ensures o0 <= 1 && o1 <= 1 && o2 <= 1
    ensures var r := Split(b, c21, c11, c01, c20, c10, c00);
      && r.r0 < W32 && r.r1 < W32
      && Congruent(r.Value() + o0 * W64 + o1 * (W64 * W32) + o2 * (W64 * W64),
                   c00 + (c01 + c10) * W32 + (c11 + c20) * W64 + c21 * (W64 * W32) + b.Value())
  {
    var d0 := Wrap(c20 / LOW25 + c11 / LOW25 + c10 / LOW57 + c01 / LOW57);
    var d1, d2 := Wrap(c21 * 0x80), Wrap(c10 % LOW57 + c01 % LOW57);
    var d3 := Wrap(c20 % LOW25 + c11 % LOW25 + c21 / LOW57);
    Folded(c20, c11, c10, c01, c21);
    o0, o1, o2 := SumAny(b, c00, d0, d1, d2, d3);
    var v := Sum(b, c00, d0, d1, d2, d3).Value() + o0 * W64 + o1 * (W64 * W32) + o2 * (W64 * W64);
    Reduced(v, c00 + b.Value(), c01 + c10, c11 + c20, c21,
            c20 / LOW25 + c11 / LOW25, c10 / LOW57 + c01 / LOW57,
            c20 % LOW25 + c11 % LOW25, c10 % LOW57 + c01 % LOW57, c21 % LOW57, c21 / LOW57);
  }

  lemma SumAny(b: Int96, c00: nat, d0: nat, d1: nat, d2: nat, d3: nat) returns (o0: nat, o1: nat, o2: nat)
    requires Words(b) && c00 < W64 && d0 < W64 && d1 < W64 && d2 < 2 * LOW57 && d3 < 3 * LOW25
    ensures o0 <= 1 && o1 <= 1 && o2 <= 1
    ensures var r := Sum(b, c00, d0, d1, d2, d3);
      && r.r0 < W32 && r.r1 < W32
      && r.Value() + o0 * W64 + o1 * (W64 * W32) + o2 * (W64 * W64) ==
         b.Value() + c00 + d0 + d1 + d2 * W32 + d3 * W64
  {
    Halves(c00);
    Halves(d0);
    Halves(d1);
    Halves(d2);
    var t0 := b.r0 + Low(c00) + Low(d0) + Low(d1);
    o0 := Carry(t0);
    Halves(Wrap(t0));
    var t1 := b.r1 + High(c00) + High(d0) + High(d1) + Low(d2) + High(Wrap(t0));
    o1 := Carry(t1);
    Halves(Wrap(t1));
    o2 := Carry(b.r2 + High(d2) + d3 + High(Wrap(t1)));
  }

  lemma Carry(t: nat) returns (o: nat)
    requires t < 2 * W64
    ensures o <= 1 && t == Wrap(t) + o * W64
  {
    o := if t < W64 then 0 else 1;
  }

  lemma MultAddExact(x: nat, a: Int96, b: Int96)
    requires x < W64 && InBounds(a, b)
    ensures MultAdd(x, a, b).Limbs() && Congruent(MultAdd(x, a, b).Value(), a.Value() * x + b.Value())
  {
    var x1, x0 := High(x), Low(x);
    assert x == x0 + x1 * W32;
    TimesExact(a.r2, x1);
    TimesExact(a.r1, x1);
    TimesExact(a.r0, x1);
    TimesExact(a.r2, x0);
    TimesExact(a.r1, x0);
    TimesExact(a.r0, x0);
    Product(a.r0, a.r1, a.r2, x0, x1);
    SplitExact(b, Times(a.r2, x1), Times(a.r1, x1), Times(a.r0, x1), Times(a.r2, x0), Times(a.r1, x0), Times(a.r0, x0));
  }

  lemma TimesExact(a: nat, x: nat)
    requires a < W32 && x < W32
    ensures Times(a, x) == a * x < W64
  {
    SquareBound(a, x);
  }

  /** 2^89 counts as 1, and nothing is lost. */
  lemma SplitExact(b: Int96, c21: nat, c11: nat, c01: nat, c20: nat, c10: nat, c00: nat)
    requires c21 < W64 && c20 < W64 && c11 < W64 && c10 < W64 && c01 < W64 && c00 < W64
    requires b.r0 < W32 && b.r1 < W32 && b.r2 < LOW25
    ensures var r := Split(b, c21, c11, c01, c20, c10, c00);
      && r.Limbs()
      && Congruent(r.Value(), c00 + (c01 + c10) * W32 + (c11 + c20) * W64 + c21 * (W64 * W32) + b.Value())
  {
    var d0 := Wrap(c20 / LOW25 + c11 / LOW25 + c10 / LOW57 + c01 / LOW57);
    var d1, d2 := Wrap(c21 * 0x80), Wrap(c10 % LOW57 + c01 % LOW57);
    var d3 := Wrap(c20 % LOW25 + c11 % LOW25 + c21 / LOW57);
    Folded(c20, c11, c10, c01, c21);
    SumExact(b, c00, d0, d1, d2, d3);
    Reduced(Sum(b, c00, d0, d1, d2, d3).Value(), c00 + b.Value(), c01 + c10, c11 + c20, c21,
            c20 / LOW25 + c11 / LOW25, c10 / LOW57 + c01 / LOW57,
            c20 % LOW25 + c11 % LOW25, c10 % LOW57 + c01 % LOW57, c21 % LOW57, c21 / LOW57);
  }

  /** The parts of the products do not overflow. */
  lemma Folded(c20: nat, c11: nat, c10: nat, c01: nat, c21: nat)
    requires c21 < W64 && c20 < W64 && c11 < W64 && c10 < W64 && c01 < W64
    ensures Wrap(c20 / LOW25 + c11 / LOW25 + c10 / LOW57 + c01 / LOW57)
      == c20 / LOW25 + c11 / LOW25 + c10 / LOW57 + c01 / LOW57
    ensures Wrap(c21 * 0x80) == c21 % LOW57 * 0x80
    ensures Wrap(c10 % LOW57 + c01 % LOW57) == c10 % LOW57 + c01 % LOW57 < 2 * LOW57
    ensures Wrap(c20 % LOW25 + c11 % LOW25 + c21 / LOW57) == c20 % LOW25 + c11 % LOW25 + c21 / LOW57 < 3 * LOW25
    ensures c20 + c11 == (c20 / LOW25 + c11 / LOW25) * LOW25 + (c20 % LOW25 + c11 % LOW25)
    ensures c10 + c01 == (c10 / LOW57 + c01 / LOW57) * LOW57 + (c10 % LOW57 + c01 % LOW57)
    ensures c21 == c21 / LOW57 * LOW57 + c21 % LOW57
  {
    Shifted(c21);
  }

  /** A shift by 7 bits drops the 7 highest bits. */
  lemma Shifted(c: nat)
    requires c < W64
    ensures Wrap(c * 0x80) == c % LOW57 * 0x80 && c / LOW57 < 0x80
  {
    var q, m := c / LOW57, c % LOW57;
    assert c == q * LOW57 + m;
    assert c * 0x80 == q * W64 + m * 0x80;
    assert m * 0x80 < W64;
  }

  /** 2^89 counts as 1: what is left over is a multiple of the prime. */
  lemma Reduced(v: nat, low: nat, mid: nat, high: nat, top: nat, highQ: nat, midQ: nat, highM: nat, midM: nat,
                topM: nat, topQ: nat)
    requires high == highQ * LOW25 + highM && mid == midQ * LOW57 + midM && top == topQ * LOW57 + topM
    requires v == low + (highQ + midQ) + topM * 0x80 + midM * W32 + (highM + topQ) * W64
    ensures Congruent(v, low + mid * W32 + high * W64 + top * (W64 * W32))
  {
    var k := highQ + midQ + top * 0x80;
    assert low + mid * W32 + high * W64 + top * (W64 * W32) - v == k * PRIME;
    assert v - (low + mid * W32 + high * W64 + top * (W64 * W32)) == (-k) * PRIME;
  }

  lemma SumExact(b: Int96, c00: nat, d0: nat, d1: nat, d2: nat, d3: nat)
    requires b.r0 < W32 && b.r1 < W32 && b.r2 < LOW25
    requires c00 < W64 && d0 < W64 && d1 < W64 && d2 < 2 * LOW57 && d3 < 3 * LOW25
    ensures var r := Sum(b, c00, d0, d1, d2, d3);
      r.Limbs() && r.Value() == b.Value() + c00 + d0 + d1 + d2 * W32 + d3 * W64
  {
    Halves(c00);
    Halves(d0);
    Halves(d1);
    Halves(d2);
    var s0 := b.r0 + Low(c00) + Low(d0) + Low(d1);
    Halves(s0);
    var s1 := b.r1 + High(c00) + High(d0) + High(d1) + Low(d2) + High(s0);
    Halves(s1);
    NoCarryLost(s0, s1, b.r2 + High(d2) + d3 + High(s1));
    assert Sum(b, c00, d0, d1, d2, d3) == Int96(Low(s0), Low(s1), b.r2 + High(d2) + d3 + High(s1));
  }

  lemma NoCarryLost(s0: nat, s1: nat, s2: nat)
    requires s0 < 4 * W32 && s1 < 6 * W32 && s2 < W32
    ensures Wrap(s0) == s0 && Wrap(s1) == s1 && Wrap(s2) == s2
  {
  }

  lemma Halves(x: nat)
    ensures x == Low(x) + High(x) * W32 && Low(x) < W32 && (x < W64 ==> High(x) < W32)
  {
  }

  /** What the machine computes as the residue. */
  function Mod64(r: Int96): nat {
    var r0, r1, r2 := Wrap(r.r0 + r.r2 / LOW25), r.r1, r.r2 % LOW25;
    if r2 == LOW25 - 1 && r1 == W32 - 1 && r0 >= W32 - 1 then r0 - (W32 - 1) else Wrap(r0 + Wrap(r1 * W32))
  }

  /** Mod64Prime89: of three limbs, the residue modulo the prime, of which the low 64 bits are returned. */
  method Mod64Prime89(r: Int96) returns (m: nat)
    requires Words(r)
    ensures m == Mod64(r)
    ensures r.Limbs() ==> m == r.Value() % PRIME % W64
  {
    var r2, r1 := r.r2, r.r1;
    var r0 := Wrap(r.r0 + r2 / LOW25);
    r2 := r2 % LOW25;
    if r2 == LOW25 - 1 && r1 == W32 - 1 && r0 >= W32 - 1 {
      m := r0 - (W32 - 1);
    } else {
      m := Wrap(r0 + Wrap(r1 * W32));
    }
    if r.Limbs() {
      Mod64Exact(r);
    }
  }

  lemma Mod64Exact(r: Int96)
    requires r.Limbs()
    ensures Mod64(r) == r.Value() % PRIME % W64
  {
    var r0, r1, r2 := r.r0 + r.r2 / LOW25, r.r1, r.r2 % LOW25;
    TopFolded(r);
    assert Wrap(r0) == r0;
    if r2 == LOW25 - 1 && r1 == W32 - 1 && r0 >= W32 - 1 {
      Residue(r.Value(), r0 - (W32 - 1), r.r2 / LOW25 + 1);
    } else {
      BelowPrime(r0, r1, r2);
      Residue(r.Value(), r0 + r1 * W32 + r2 * W64, r.r2 / LOW25);
      WrapTwice(r0, r1, r2);
    }
  }

  /** The bits from 2^89 on are added at the low end. */
  lemma TopFolded(r: Int96)
    requires r.Limbs()
    ensures r.Value() == (r.r0 + r.r2 / LOW25) + r.r1 * W32 + (r.r2 % LOW25) * W64 + (r.r2 / LOW25) * PRIME
    ensures r.r2 / LOW25 < 0x80
  {
    var q, m := r.r2 / LOW25, r.r2 % LOW25;
    assert r.r2 == q * LOW25 + m;
    assert q * PRIME == q * LOW25 * W64 - q;
  }

  lemma BelowPrime(r0: nat, r1: nat, r2: nat)
    requires r0 < W32 + 0x80 && r1 < W32 && r2 < LOW25
    requires !(r2 == LOW25 - 1 && r1 == W32 - 1 && r0 >= W32 - 1)
    ensures r0 + r1 * W32 + r2 * W64 < PRIME
  {
  }

  lemma Residue(v: nat, w: nat, k: nat)
    requires v == w + k * PRIME && w < PRIME
    ensures v % PRIME == w
  {
  }

  lemma WrapTwice(r0: nat, r1: nat, r2: nat)
    ensures Wrap(r0 + Wrap(r1 * W32)) == (r0 + r1 * W32 + r2 * W64) % W64
  {
    var x := r1 * W32;
    assert x == x / W64 * W64 + x % W64;
    LowBits(r0 + x % W64, x / W64);
    LowBits(r0 + x, r2);
  }

  lemma LowBits(x: nat, k: nat)
    ensures (x + k * W64) % W64 == x % W64
  {
  }

  // ---------- The chain of CWhash ----------

  /** The polynomial with these coefficients, the first one of the highest degree. */
  ghost function Horner(x: nat, cs: seq<Int96>): nat
    requires cs != []
  {
    if |cs| == 1 then cs[0].Value() else Horner(x, cs[..|cs| - 1]) * x + cs[|cs| - 1].Value()
  }

  predicate Coefficients(cs: seq<Int96>) {
    && |cs| >= 2 && cs[0].Limbs()
    && forall i :: 1 <= i < |cs| ==> cs[i].r0 < W32 && cs[i].r1 < W32 && cs[i].r2 < LOW25
  }

  lemma CongruentStep(r: nat, s: nat, x: nat, b: nat, t: nat)
    requires Congruent(r, s) && Congruent(t, r * x + b)
    ensures Congruent(t, s * x + b)
  {
    var k: int :| r - s == k * PRIME;
    var l: int :| t - (r * x + b) == l * PRIME;
    assert r * x - s * x == (r - s) * x;
    assert (r - s) * x == k * x * PRIME;
    assert t - (s * x + b) == (l + k * x) * PRIME;
  }

  /** The chain of multiply-adds on the machine. */
  function Chain(x: nat, cs: seq<Int96>): Int96
    requires cs != []
  {
    if |cs| == 1 then cs[0] else MultAdd(x, Chain(x, cs[..|cs| - 1]), cs[|cs| - 1])
  }

  lemma ChainNext(x: nat, cs: seq<Int96>, i: nat)
    requires 1 <= i < |cs|
    ensures Chain(x, cs[..i + 1]) == MultAdd(x, Chain(x, cs[..i]), cs[i])
    ensures Horner(x, cs[..i + 1]) == Horner(x, cs[..i]) * x + cs[i].Value()
  {
    assert cs[..i + 1][..i] == cs[..i];
  }

  /** Within the bounds the chain is congruent to the polynomial at every step. */
  lemma {:induction false} ChainExact(x: nat, cs: seq<Int96>, i: nat)
    requires x < W64 && Coefficients(cs) && 1 <= i <= |cs|
    ensures Chain(x, cs[..i]).Limbs() && Congruent(Chain(x, cs[..i]).Value(), Horner(x, cs[..i]))
  {
    if i == 1 {
      assert cs[..1] == [cs[0]];
      assert cs[0].Value() - Horner(x, cs[..1]) == 0 * PRIME;
    } else {
      ChainExact(x, cs, i - 1);
      ChainNext(x, cs, i - 1);
      var r := Chain(x, cs[..i - 1]);
      MultAddExact(x, r, cs[i - 1]);
      CongruentStep(r.Value(), Horner(x, cs[..i - 1]), x, cs[i - 1].Value(), Chain(x, cs[..i]).Value());
    }
  }

  /** Chained multiply-adds. With coefficients within the bounds they evaluate the polynomial modulo the prime. */
  method CWhash(x: nat, cs: seq<Int96>) returns (hash: nat)
    requires x < W64 && cs != [] && forall i :: 0 <= i < |cs| ==> Words(cs[i])
    ensures hash == Mod64(Chain(x, cs))
    ensures Coefficients(cs) ==> hash == Horner(x, cs) % PRIME % W64
  {
    var r := cs[0];
    var i := 1;
    assert cs[..1] == [cs[0]];
    while i < |cs|
      invariant 1 <= i <= |cs| && Words(r) && r == Chain(x, cs[..i])
    {
      r := MultAddPrime89(x, r, cs[i]);
      ChainNext(x, cs, i);
      i := i + 1;
    }
    assert cs[..|cs|] == cs;
    hash := Mod64Prime89(r);
    if Coefficients(cs) {
      ChainExact(x, cs, |cs|);
      SameResidue(r.Value(), Horner(x, cs));
    }
  }

  lemma SameResidue(v: nat, w: nat)
    requires Congruent(v, w)
    ensures v % PRIME == w % PRIME
  {
    var k: int :| v - w == k * PRIME;
    if k >= 0 {
      assert v == w % PRIME + (w / PRIME + k) * PRIME;
    } else {
      assert w == v % PRIME + (v / PRIME - k) * PRIME;
    }
  }

  // ---------- Beyond the bounds ----------

  lemma ZeroParts()
    ensures Split(Int96(0, 0, 0), 0, 0, 0, 0, 0, 0) == Int96(0, 0, 0)
  {
    assert Wrap(0) == 0 && Low(0) == 0 && High(0) == 0;
  }

  /** With a limb of 64 bits a product can overflow: 2^63 * 2^64 times 2 becomes 0. */
  lemma LimbOverflows()
    ensures var a, b := Int96(0, 0, W64 / 2), Int96(0, 0, 0);
      Words(a) && !Congruent(MultAdd(2, a, b).Value(), a.Value() * 2 + b.Value())
  {
    var a, b := Int96(0, 0, W64 / 2), Int96(0, 0, 0);
    assert High(2) == 0 && Low(2) == 2;
    assert Times(W64 / 2, 2) == 0 && Times(W64 / 2, 0) == 0 && Times(0, 2) == 0 && Times(0, 0) == 0;
    ZeroParts();
    assert MultAdd(2, a, b).Value() == 0;
    forall k: int ensures 0 - W64 * W64 != k * PRIME { NoMultiple(k); }
  }

  /** 2^128 lies strictly between two multiples of the prime. */
  lemma NoMultiple(k: int)
    ensures 0 - W64 * W64 != k * PRIME
  {
    var q := W64 / LOW25;
    assert q * PRIME < W64 * W64 < (q + 1) * PRIME;
    if -k <= q {
      assert -k * PRIME <= q * PRIME;
    } else {
      assert -k * PRIME >= (q + 1) * PRIME;
    }
  }
}
