/**
 That the constants of SHA-256 are those of FIPS 180-4: the fractions of the cube roots of the first 64 primes (section
 4.2.2), and of the square roots of the first eight (section 5.3.3).
 */
module Sha256Constants {
  import opened Sha256Standard

  // ---------- The first primes ----------

  predicate IsPrime(n: nat) { n >= 2 && forall d :: 2 <= d < n ==> n % d != 0 }

  const PRIMES: seq<nat> :=
    [2, 3, 5, 7, 11, 13, 17, 19, 23, 29, 31, 37, 41, 43, 47, 53] +
    [59, 61, 67, 71, 73, 79, 83, 89, 97, 101, 103, 107, 109, 113, 127, 131] +
    [137, 139, 149, 151, 157, 163, 167, 173, 179, 181, 191, 193, 197, 199, 211, 223] +
    [227, 229, 233, 239, 241, 251, 257, 263, 269, 271, 277, 281, 283, 293, 307, 311]

  /** None of the primes below 19 divides `n`, or `n` is one of them. */
  predicate PassesTest(n: nat) {
    && (n % 2 != 0 || n == 2) && (n % 3 != 0 || n == 3) && (n % 5 != 0 || n == 5) && (n % 7 != 0 || n == 7)
    && (n % 11 != 0 || n == 11) && (n % 13 != 0 || n == 13) && (n % 17 != 0 || n == 17)
  }

  /** Below 19 * 19 that decides. */
  lemma PrimeTest(n: nat)
    requires 2 <= n < 361
    ensures IsPrime(n) <==> PassesTest(n)
  {
    if PassesTest(n) {
      forall d | 2 <= d < n ensures n % d != 0 {
        if n % d == 0 { NoFactors(n, d, n / d); }
      }
    }
  }

  /** Of two factors one is below 19. */
  lemma NoFactors(n: nat, d: nat, e: nat)
    requires n < 361 && 2 <= d < n && n == d * e
    ensures !PassesTest(n)
  {
    FactorBounds(n, d, e);
    if d < 19 {
      SmallFactor(n, d, e);
    } else {
      SmallFactor(n, e, d);
    }
  }

  lemma FactorBounds(n: nat, d: nat, e: nat)
    requires n < 361 && 2 <= d < n && n == d * e
    ensures 2 <= e && (d < 19 || e < 19)
  {
    assert d >= 19 ==> d * e >= 19 * e;
  }

  /** A factor below 19 is divided by a prime below 19. */
  lemma SmallFactor(n: nat, d: nat, e: nat)
    requires n == d * e && 2 <= d < 19 && e >= 2
    ensures !PassesTest(n)
  {
    var p :=
      if d % 2 == 0 then 2 else if d % 3 == 0 then 3 else if d % 5 == 0 then 5 else if d % 7 == 0 then 7 else d;
    Multiple(n, p, d / p, e);
  }

  lemma Multiple(n: nat, p: nat, c: nat, e: nat)
    requires p > 0 && c > 0 && n == p * c * e && e >= 2
    ensures n % p == 0 && n > p
  {
    assert n == p * (c * e);
    assert c * e >= 2;
    MultipleOf(p, c * e);
  }

  lemma MultipleOf(p: nat, c: nat)
    requires p > 0
    ensures p * c % p == 0 && p * c >= c
  {
    var q, r := p * c / p, p * c % p;
    Distance(p, c, q, r);
  }

  lemma Distance(p: nat, c: nat, q: nat, r: nat)
    requires p > r && p * c == p * q + r
    ensures r == 0 && p * c >= c
  {
    AtLeast(c, p);
    if c > q {
      Spread(p, q, c - q);
      AtLeast(p, c - q);
    } else if c < q {
      Spread(p, c, q - c);
      AtLeast(p, q - c);
    }
  }

  lemma AtLeast(p: nat, d: nat)
    requires d > 0
    ensures p * d >= p
  {
  }

  lemma Spread(p: nat, c: nat, d: nat)
    ensures p * (c + d) == p * c + p * d
  {
  }

  /** `q` is the next prime after `p`. */
  ghost predicate NextPrime(p: nat, q: nat) {
    p < q && IsPrime(q) && forall n :: p < n < q ==> !IsPrime(n)
  }

  /** The first entries of the list are followed by the next prime. */
  ghost predicate PrimesUpTo(n: nat)
    requires n < 64
  {
    forall i :: 0 <= i < n ==> NextPrime(PRIMES[i], PRIMES[i + 1])
  }

  lemma NextByTest(i: nat, p: nat, q: nat)
    requires i < 63 && PRIMES[i] == p && PRIMES[i + 1] == q && PrimesUpTo(i)
    requires 2 <= p < q < 361 && PassesTest(q) && forall n :: p < n < q ==> !PassesTest(n)
    ensures PrimesUpTo(i + 1)
  {
    PrimeTest(q);
    forall n | p < n < q ensures !IsPrime(n) { PrimeTest(n); }
  }

  lemma Primes0()
    requires PrimesUpTo(0)
    ensures PrimesUpTo(4)
  {
    NextByTest(0, 2, 3);
    NextByTest(1, 3, 5);
    NextByTest(2, 5, 7);
    NextByTest(3, 7, 11);
  }

  lemma Primes4()
    requires PrimesUpTo(4)
    ensures PrimesUpTo(8)
  {
    NextByTest(4, 11, 13);
    NextByTest(5, 13, 17);
    NextByTest(6, 17, 19);
    NextByTest(7, 19, 23);
  }

  lemma Primes8()
    requires PrimesUpTo(8)
    ensures PrimesUpTo(12)
  {
    NextByTest(8, 23, 29);
    NextByTest(9, 29, 31);
    NextByTest(10, 31, 37);
    NextByTest(11, 37, 41);
  }

  lemma Primes12()
    requires PrimesUpTo(12)
    ensures PrimesUpTo(16)
  {
    NextByTest(12, 41, 43);
    NextByTest(13, 43, 47);
    NextByTest(14, 47, 53);
    NextByTest(15, 53, 59);
  }

  lemma Primes16()
    requires PrimesUpTo(16)
    ensures PrimesUpTo(20)
  {
    NextByTest(16, 59, 61);
    NextByTest(17, 61, 67);
    NextByTest(18, 67, 71);
    NextByTest(19, 71, 73);
  }

  lemma Primes20()
    requires PrimesUpTo(20)
    ensures PrimesUpTo(24)
  {
    NextByTest(20, 73, 79);
    NextByTest(21, 79, 83);
    NextByTest(22, 83, 89);
    NextByTest(23, 89, 97);
  }

  lemma Primes24()
    requires PrimesUpTo(24)
    ensures PrimesUpTo(26)
  {
    NextByTest(24, 97, 101);
    NextByTest(25, 101, 103);
  }

  lemma Primes26()
    requires PrimesUpTo(26)
    ensures PrimesUpTo(28)
  {
    NextByTest(26, 103, 107);
    NextByTest(27, 107, 109);
  }

  lemma Primes28()
    requires PrimesUpTo(28)
    ensures PrimesUpTo(30)
  {
    NextByTest(28, 109, 113);
    NextByTest(29, 113, 127);
  }

  lemma Primes30()
    requires PrimesUpTo(30)
    ensures PrimesUpTo(32)
  {
    NextByTest(30, 127, 131);
    NextByTest(31, 131, 137);
  }

  lemma Primes32()
    requires PrimesUpTo(32)
    ensures PrimesUpTo(34)
  {
    NextByTest(32, 137, 139);
    NextByTest(33, 139, 149);
  }

  lemma Primes34()
    requires PrimesUpTo(34)
    ensures PrimesUpTo(36)
  {
    NextByTest(34, 149, 151);
    NextByTest(35, 151, 157);
  }

  lemma Primes36()
    requires PrimesUpTo(36)
    ensures PrimesUpTo(38)
  {
    NextByTest(36, 157, 163);
    NextByTest(37, 163, 167);
  }

  lemma Primes38()
    requires PrimesUpTo(38)
    ensures PrimesUpTo(40)
  {
    NextByTest(38, 167, 173);
    NextByTest(39, 173, 179);
  }

  lemma Primes40()
    requires PrimesUpTo(40)
    ensures PrimesUpTo(42)
  {
    NextByTest(40, 179, 181);
    NextByTest(41, 181, 191);
  }

  lemma Primes42()
    requires PrimesUpTo(42)
    ensures PrimesUpTo(44)
  {
    NextByTest(42, 191, 193);
    NextByTest(43, 193, 197);
  }

  lemma Primes44()
    requires PrimesUpTo(44)
    ensures PrimesUpTo(46)
  {
    NextByTest(44, 197, 199);
    NextByTest(45, 199, 211);
  }

  lemma Primes46()
    requires PrimesUpTo(46)
    ensures PrimesUpTo(48)
  {
    NextByTest(46, 211, 223);
    NextByTest(47, 223, 227);
  }

  lemma Primes48()
    requires PrimesUpTo(48)
    ensures PrimesUpTo(50)
  {
    NextByTest(48, 227, 229);
    NextByTest(49, 229, 233);
  }

  lemma Primes50()
    requires PrimesUpTo(50)
    ensures PrimesUpTo(52)
  {
    NextByTest(50, 233, 239);
    NextByTest(51, 239, 241);
  }

  lemma Primes52()
    requires PrimesUpTo(52)
    ensures PrimesUpTo(54)
  {
    NextByTest(52, 241, 251);
    NextByTest(53, 251, 257);
  }

  lemma Primes54()
    requires PrimesUpTo(54)
    ensures PrimesUpTo(56)
  {
    NextByTest(54, 257, 263);
    NextByTest(55, 263, 269);
  }

  lemma Primes56()
    requires PrimesUpTo(56)
    ensures PrimesUpTo(58)
  {
    NextByTest(56, 269, 271);
    NextByTest(57, 271, 277);
  }

  lemma Primes58()
    requires PrimesUpTo(58)
    ensures PrimesUpTo(60)
  {
    NextByTest(58, 277, 281);
    NextByTest(59, 281, 283);
  }

  lemma Primes60()
    requires PrimesUpTo(60)
    ensures PrimesUpTo(62)
  {
    NextByTest(60, 283, 293);
    NextByTest(61, 293, 307);
  }

  lemma Primes62()
    requires PrimesUpTo(62)
    ensures PrimesUpTo(63)
  {
    NextByTest(62, 307, 311);
  }

  // ---------- The constants ----------

  const W32: nat := 0x1_0000_0000

  /** The first 32 bits of the fractional part of the cube root of `p` are `k`; `m` is its integer part. */
  predicate CubeRoot(p: nat, m: nat, k: Word) {
    var v := m * W32 + (k as nat);
    v * v * v <= p * W32 * W32 * W32 < (v + 1) * (v + 1) * (v + 1)
  }

  /** The same for the square root. */
  predicate SquareRoot(p: nat, m: nat, k: Word) {
    var v := m * W32 + (k as nat);
    v * v <= p * W32 * W32 < (v + 1) * (v + 1)
  }

  ghost predicate IsCubeRoot(p: nat, k: Word) { exists m: nat :: CubeRoot(p, m, k) }

  ghost predicate ConstantsUpTo(n: nat)
    requires n <= 64
  {
    forall i :: 0 <= i < n ==> IsCubeRoot(PRIMES[i], K256[i])
  }

  lemma ConstantAt(i: nat, p: nat, m: nat, k: Word)
    requires i < 64 && PRIMES[i] == p && K256[i] == k && CubeRoot(p, m, k) && ConstantsUpTo(i)
    ensures ConstantsUpTo(i + 1)
  {
    assert IsCubeRoot(PRIMES[i], K256[i]);
  }

  lemma Constants0()
    requires ConstantsUpTo(0)
    ensures ConstantsUpTo(3)
  {
    ConstantAt(0, 2, 1, 0x428a2f98);
    ConstantAt(1, 3, 1, 0x71374491);
    ConstantAt(2, 5, 1, 0xb5c0fbcf);
  }

  lemma Constants3()
    requires ConstantsUpTo(3)
    ensures ConstantsUpTo(6)
  {
    ConstantAt(3, 7, 1, 0xe9b5dba5);
    ConstantAt(4, 11, 2, 0x3956c25b);
    ConstantAt(5, 13, 2, 0x59f111f1);
  }

  lemma Constants6()
    requires ConstantsUpTo(6)
    ensures ConstantsUpTo(9)
  {
    ConstantAt(6, 17, 2, 0x923f82a4);
    ConstantAt(7, 19, 2, 0xab1c5ed5);
    ConstantAt(8, 23, 2, 0xd807aa98);
  }

  lemma Constants9()
    requires ConstantsUpTo(9)
    ensures ConstantsUpTo(12)
  {
    ConstantAt(9, 29, 3, 0x12835b01);
    ConstantAt(10, 31, 3, 0x243185be);
    ConstantAt(11, 37, 3, 0x550c7dc3);
  }

  lemma Constants12()
    requires ConstantsUpTo(12)
    ensures ConstantsUpTo(15)
  {
    ConstantAt(12, 41, 3, 0x72be5d74);
    ConstantAt(13, 43, 3, 0x80deb1fe);
    ConstantAt(14, 47, 3, 0x9bdc06a7);
  }

  lemma Constants15()
    requires ConstantsUpTo(15)
    ensures ConstantsUpTo(18)
  {
    ConstantAt(15, 53, 3, 0xc19bf174);
    ConstantAt(16, 59, 3, 0xe49b69c1);
    ConstantAt(17, 61, 3, 0xefbe4786);
  }

  lemma Constants18()
    requires ConstantsUpTo(18)
    ensures ConstantsUpTo(21)
  {
    ConstantAt(18, 67, 4, 0x0fc19dc6);
    ConstantAt(19, 71, 4, 0x240ca1cc);
    ConstantAt(20, 73, 4, 0x2de92c6f);
  }

  lemma Constants21()
    requires ConstantsUpTo(21)
    ensures ConstantsUpTo(24)
  {
    ConstantAt(21, 79, 4, 0x4a7484aa);
    ConstantAt(22, 83, 4, 0x5cb0a9dc);
    ConstantAt(23, 89, 4, 0x76f988da);
  }

  lemma Constants24()
    requires ConstantsUpTo(24)
    ensures ConstantsUpTo(27)
  {
    ConstantAt(24, 97, 4, 0x983e5152);
    ConstantAt(25, 101, 4, 0xa831c66d);
    ConstantAt(26, 103, 4, 0xb00327c8);
  }

  lemma Constants27()
    requires ConstantsUpTo(27)
    ensures ConstantsUpTo(30)
  {
    ConstantAt(27, 107, 4, 0xbf597fc7);
    ConstantAt(28, 109, 4, 0xc6e00bf3);
    ConstantAt(29, 113, 4, 0xd5a79147);
  }

  lemma Constants30()
    requires ConstantsUpTo(30)
    ensures ConstantsUpTo(33)
  {
    ConstantAt(30, 127, 5, 0x06ca6351);
    ConstantAt(31, 131, 5, 0x14292967);
    ConstantAt(32, 137, 5, 0x27b70a85);
  }

  lemma Constants33()
    requires ConstantsUpTo(33)
    ensures ConstantsUpTo(36)
  {
    ConstantAt(33, 139, 5, 0x2e1b2138);
    ConstantAt(34, 149, 5, 0x4d2c6dfc);
    ConstantAt(35, 151, 5, 0x53380d13);
  }

  lemma Constants36()
    requires ConstantsUpTo(36)
    ensures ConstantsUpTo(39)
  {
    ConstantAt(36, 157, 5, 0x650a7354);
    ConstantAt(37, 163, 5, 0x766a0abb);
    ConstantAt(38, 167, 5, 0x81c2c92e);
  }

  lemma Constants39()
    requires ConstantsUpTo(39)
    ensures ConstantsUpTo(42)
  {
    ConstantAt(39, 173, 5, 0x92722c85);
    ConstantAt(40, 179, 5, 0xa2bfe8a1);
    ConstantAt(41, 181, 5, 0xa81a664b);
  }

  lemma Constants42()
    requires ConstantsUpTo(42)
    ensures ConstantsUpTo(45)
  {
    ConstantAt(42, 191, 5, 0xc24b8b70);
    ConstantAt(43, 193, 5, 0xc76c51a3);
    ConstantAt(44, 197, 5, 0xd192e819);
  }

  lemma Constants45()
    requires ConstantsUpTo(45)
    ensures ConstantsUpTo(48)
  {
    ConstantAt(45, 199, 5, 0xd6990624);
    ConstantAt(46, 211, 5, 0xf40e3585);
    ConstantAt(47, 223, 6, 0x106aa070);
  }

  lemma Constants48()
    requires ConstantsUpTo(48)
    ensures ConstantsUpTo(51)
  {
    ConstantAt(48, 227, 6, 0x19a4c116);
    ConstantAt(49, 229, 6, 0x1e376c08);
    ConstantAt(50, 233, 6, 0x2748774c);
  }

  lemma Constants51()
    requires ConstantsUpTo(51)
    ensures ConstantsUpTo(54)
  {
    ConstantAt(51, 239, 6, 0x34b0bcb5);
    ConstantAt(52, 241, 6, 0x391c0cb3);
    ConstantAt(53, 251, 6, 0x4ed8aa4a);
  }

  lemma Constants54()
    requires ConstantsUpTo(54)
    ensures ConstantsUpTo(57)
  {
    ConstantAt(54, 257, 6, 0x5b9cca4f);
    ConstantAt(55, 263, 6, 0x682e6ff3);
    ConstantAt(56, 269, 6, 0x748f82ee);
  }

  lemma Constants57()
    requires ConstantsUpTo(57)
    ensures ConstantsUpTo(60)
  {
    ConstantAt(57, 271, 6, 0x78a5636f);
    ConstantAt(58, 277, 6, 0x84c87814);
    ConstantAt(59, 281, 6, 0x8cc70208);
  }

  lemma Constants60()
    requires ConstantsUpTo(60)
    ensures ConstantsUpTo(63)
  {
    ConstantAt(60, 283, 6, 0x90befffa);
    ConstantAt(61, 293, 6, 0xa4506ceb);
    ConstantAt(62, 307, 6, 0xbef9a3f7);
  }

  lemma Constants63()
    requires ConstantsUpTo(63)
    ensures ConstantsUpTo(64)
  {
    ConstantAt(63, 311, 6, 0xc67178f2);
  }

  /** The list has the first 64 primes. */
  lemma FirstPrimes()
    ensures |PRIMES| == 64 && PRIMES[0] == 2 && forall i :: 0 <= i < 63 ==> NextPrime(PRIMES[i], PRIMES[i + 1])
  {
    Primes0();
    Primes4();
    Primes8();
    Primes12();
    Primes16();
    Primes20();
    Primes24();
    Primes26();
    Primes28();
    Primes30();
    Primes32();
    Primes34();
    Primes36();
    Primes38();
    Primes40();
    Primes42();
    Primes44();
    Primes46();
    Primes48();
    Primes50();
    Primes52();
    Primes54();
    Primes56();
    Primes58();
    Primes60();
    Primes62();
    assert PrimesUpTo(63);
  }

  /** The constants of the rounds are taken from the cube roots of the first 64 primes. */
  lemma RoundConstants()
    ensures |K256| == 64 && forall i :: 0 <= i < 64 ==> IsCubeRoot(PRIMES[i], K256[i])
  {
    Constants0();
    Constants3();
    Constants6();
    Constants9();
    Constants12();
    Constants15();
    Constants18();
    Constants21();
    Constants24();
    Constants27();
    Constants30();
    Constants33();
    Constants36();
    Constants39();
    Constants42();
    Constants45();
    Constants48();
    Constants51();
    Constants54();
    Constants57();
    Constants60();
    Constants63();
    assert ConstantsUpTo(64);
  }

  /** The initial hash value is taken from the square roots of the first eight primes. */
  lemma InitialValue()
    ensures SquareRoot(2, 1, INITIAL.a) && SquareRoot(3, 1, INITIAL.b) && SquareRoot(5, 2, INITIAL.c)
    ensures SquareRoot(7, 2, INITIAL.d) && SquareRoot(11, 3, INITIAL.e) && SquareRoot(13, 3, INITIAL.f)
    ensures SquareRoot(17, 4, INITIAL.g) && SquareRoot(19, 4, INITIAL.h)
  {
  }
}
