/** The functions and constants of SHA-256 in sections 4.1.2, 4.2.2, 5.3.3 and 6.2 of FIPS 180-4, on words. */
module Sha256Standard {

  type Word = bv32

  // ---------- Words ----------

  function Add(x: Word, y: Word): Word { x + y }

  lemma AddCommutes(x: Word, y: Word)
    ensures Add(x, y) == Add(y, x)
  {
  }

  function Ch(x: Word, y: Word, z: Word): Word { (x & y) ^ (!x & z) }

  function Maj(x: Word, y: Word, z: Word): Word { (x & y) ^ (x & z) ^ (y & z) }

  // Each pair of shifts is a rotation to the right.

  function BigSigma0(x: Word): Word {
    ((x >> 2) | (x << 30)) ^ ((x >> 13) | (x << 19)) ^ ((x >> 22) | (x << 10))
  }

  function BigSigma1(x: Word): Word {
    ((x >> 6) | (x << 26)) ^ ((x >> 11) | (x << 21)) ^ ((x >> 25) | (x << 7))
  }

  function Sigma0(x: Word): Word {
    ((x >> 7) | (x << 25)) ^ ((x >> 18) | (x << 14)) ^ (x >> 3)
  }

  function Sigma1(x: Word): Word {
    ((x >> 17) | (x << 15)) ^ ((x >> 19) | (x << 13)) ^ (x >> 10)
  }

  // ---------- What the word functions do ----------

  /** The bits of `x` choose between those of `y` and `z`. */
  lemma ChooseBits(x: Word, y: Word, z: Word)
    ensures x & Ch(x, y, z) == x & y && !x & Ch(x, y, z) == !x & z
  {
  }

  /** Where two words agree, their bit; where they differ, that of the third one. */
  lemma MajorityBits(x: Word, y: Word, z: Word)
    ensures !(x ^ y) & Maj(x, y, z) == !(x ^ y) & x && (x ^ y) & Maj(x, y, z) == (x ^ y) & z
  {
  }

  lemma Rotations(x: Word)
    ensures BigSigma0(x) == x.RotateRight(2) ^ x.RotateRight(13) ^ x.RotateRight(22)
    ensures BigSigma1(x) == x.RotateRight(6) ^ x.RotateRight(11) ^ x.RotateRight(25)
    ensures Sigma0(x) == x.RotateRight(7) ^ x.RotateRight(18) ^ (x >> 3)
    ensures Sigma1(x) == x.RotateRight(17) ^ x.RotateRight(19) ^ (x >> 10)
  {
  }

  // ---------- The constants ----------

  const K256: seq<Word> :=
    [0x428a2f98, 0x71374491, 0xb5c0fbcf, 0xe9b5dba5, 0x3956c25b, 0x59f111f1, 0x923f82a4, 0xab1c5ed5] +
    [0xd807aa98, 0x12835b01, 0x243185be, 0x550c7dc3, 0x72be5d74, 0x80deb1fe, 0x9bdc06a7, 0xc19bf174] +
    [0xe49b69c1, 0xefbe4786, 0x0fc19dc6, 0x240ca1cc, 0x2de92c6f, 0x4a7484aa, 0x5cb0a9dc, 0x76f988da] +
    [0x983e5152, 0xa831c66d, 0xb00327c8, 0xbf597fc7, 0xc6e00bf3, 0xd5a79147, 0x06ca6351, 0x14292967] +
    [0x27b70a85, 0x2e1b2138, 0x4d2c6dfc, 0x53380d13, 0x650a7354, 0x766a0abb, 0x81c2c92e, 0x92722c85] +
    [0xa2bfe8a1, 0xa81a664b, 0xc24b8b70, 0xc76c51a3, 0xd192e819, 0xd6990624, 0xf40e3585, 0x106aa070] +
    [0x19a4c116, 0x1e376c08, 0x2748774c, 0x34b0bcb5, 0x391c0cb3, 0x4ed8aa4a, 0x5b9cca4f, 0x682e6ff3] +
    [0x748f82ee, 0x78a5636f, 0x84c87814, 0x8cc70208, 0x90befffa, 0xa4506ceb, 0xbef9a3f7, 0xc67178f2]

  datatype Vars = Vars(a: Word, b: Word, c: Word, d: Word, e: Word, f: Word, g: Word, h: Word)

  const INITIAL: Vars := Vars(0x6a09e667, 0xbb67ae85, 0x3c6ef372, 0xa54ff53a,
                              0x510e527f, 0x9b05688c, 0x1f83d9ab, 0x5be0cd19)

  // ---------- The standard ----------

  /** One round of section 6.2.2. */
  function Round(v: Vars, k: Word, w: Word): Vars {
    var t1 := Add(Add(Add(Add(v.h, BigSigma1(v.e)), Ch(v.e, v.f, v.g)), k), w);
    var t2 := Add(BigSigma0(v.a), Maj(v.a, v.b, v.c));
    Vars(Add(t1, t2), v.a, v.b, v.c, Add(v.d, t1), v.e, v.f, v.g)
  }

  /** Word `t` of the message schedule of section 6.2.2, from the words before it. */
  function NextWord(s: seq<Word>, t: nat): Word
    requires 16 <= t <= |s|
  {
    Add(Add(Add(Sigma1(s[t - 2]), s[t - 7]), Sigma0(s[t - 15])), s[t - 16])
  }

  /** The first `n` words of the schedule. */
  function Schedule(m: seq<Word>, n: nat): (s: seq<Word>)
    requires |m| == 16 <= n
    ensures |s| == n
  {
    if n == 16 then m
    else
      var s := Schedule(m, n - 1);
      s + [NextWord(s, n - 1)]
  }

  lemma {:induction false} ScheduleWord(m: seq<Word>, n: nat, t: nat)
    requires |m| == 16 && t < n && n >= 16
    ensures t < 16 ==> Schedule(m, n)[t] == m[t]
    ensures t >= 16 ==> Schedule(m, n)[t] == NextWord(Schedule(m, n)[..t], t)
  {
    if n > 16 {
      var s := Schedule(m, n - 1);
      Prefix(s, NextWord(s, n - 1), t);
      if t < n - 1 {
        ScheduleWord(m, n - 1, t);
      }
    }
  }

  lemma Prefix<T>(s: seq<T>, x: T, t: nat)
    requires t <= |s|
    ensures (s + [x])[..t] == s[..t] && (s + [x])[t] == if t < |s| then s[t] else x
  {
  }

  /** The first `n` rounds with the constants `k` and the schedule `s`. */
  function Rounds(k: seq<Word>, v: Vars, s: seq<Word>, n: nat): Vars
    requires n <= |k| && n <= |s|
  {
    if n == 0 then v else Round(Rounds(k, v, s, n - 1), k[n - 1], s[n - 1])
  }

  function Sum(x: Vars, y: Vars): Vars {
    Vars(Add(x.a, y.a), Add(x.b, y.b), Add(x.c, y.c), Add(x.d, y.d), Add(x.e, y.e), Add(x.f, y.f), Add(x.g, y.g),
         Add(x.h, y.h))
  }
}
