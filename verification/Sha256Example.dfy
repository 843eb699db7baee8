/** The one block of the message "abc": the schedule and the rounds, with the values published for FIPS 180-4. */
module Sha256Example {
  import opened Sha256Standard

  /** The message schedule. */
  const W: seq<Word> :=
    [0x61626380, 0x00000000, 0x00000000, 0x00000000, 0x00000000, 0x00000000, 0x00000000, 0x00000000] +
    [0x00000000, 0x00000000, 0x00000000, 0x00000000, 0x00000000, 0x00000000, 0x00000000, 0x00000018] +
    [0x61626380, 0x000f0000, 0x7da86405, 0x600003c6, 0x3e9d7b78, 0x0183fc00, 0x12dcbfdb, 0xe2e2c38e] +
    [0xc8215c1a, 0xb73679a2, 0xe5bc3909, 0x32663c5b, 0x9d209d67, 0xec8726cb, 0x702138a4, 0xd3b7973b] +
    [0x93f5997f, 0x3b68ba73, 0xaff4ffc1, 0xf10a5c62, 0x0a8b3996, 0x72af830a, 0x9409e33e, 0x24641522] +
    [0x9f47bf94, 0xf0a64f5a, 0x3e246a79, 0x27333ba3, 0x0c4763f2, 0x840abf27, 0x7a290d5d, 0x065c43da] +
    [0xfb3e89cb, 0xcc7617db, 0xb9e66c34, 0xa9993667, 0x84badedd, 0xc21462bc, 0x1487472c, 0xb20f7a99] +
    [0xef57b9cd, 0xebe6b238, 0x9fe3095e, 0x78bc8d4b, 0xa43fcf15, 0x668b2ff8, 0xeeaba2cc, 0x12b1edeb]

  predicate WordFits(i: nat)
    requires 16 <= i < 64
  {
    W[i] == NextWord(W, i)
  }

  predicate WordsUpTo(n: nat)
    requires n <= 64
  {
    forall i :: 16 <= i < n ==> WordFits(i)
  }

  lemma WordStep(i: nat)
    requires 16 <= i < 64 && WordFits(i) && WordsUpTo(i)
    ensures WordsUpTo(i + 1)
  {
  }

  lemma Words16()
    requires WordsUpTo(16)
    ensures WordsUpTo(20)
  {
    WordStep(16);
    WordStep(17);
    WordStep(18);
    WordStep(19);
  }

  lemma Words20()
    requires WordsUpTo(20)
    ensures WordsUpTo(24)
  {
    WordStep(20);
    WordStep(21);
    WordStep(22);
    WordStep(23);
  }

  lemma Words24()
    requires WordsUpTo(24)
    ensures WordsUpTo(28)
  {
    WordStep(24);
    WordStep(25);
    WordStep(26);
    WordStep(27);
  }

  lemma Words28()
    requires WordsUpTo(28)
    ensures WordsUpTo(32)
  {
    WordStep(28);
    WordStep(29);
    WordStep(30);
    WordStep(31);
  }

  lemma Words32()
    requires WordsUpTo(32)
    ensures WordsUpTo(36)
  {
    WordStep(32);
    WordStep(33);
    WordStep(34);
    WordStep(35);
  }

  lemma Words36()
    requires WordsUpTo(36)
    ensures WordsUpTo(40)
  {
    WordStep(36);
    WordStep(37);
    WordStep(38);
    WordStep(39);
  }

  lemma Words40()
    requires WordsUpTo(40)
    ensures WordsUpTo(44)
  {
    WordStep(40);
    WordStep(41);
    WordStep(42);
    WordStep(43);
  }

  lemma Words44()
    requires WordsUpTo(44)
    ensures WordsUpTo(48)
  {
    WordStep(44);
    WordStep(45);
    WordStep(46);
    WordStep(47);
  }

  lemma Words48()
    requires WordsUpTo(48)
    ensures WordsUpTo(52)
  {
    WordStep(48);
    WordStep(49);
    WordStep(50);
    WordStep(51);
  }

  lemma Words52()
    requires WordsUpTo(52)
    ensures WordsUpTo(56)
  {
    WordStep(52);
    WordStep(53);
    WordStep(54);
    WordStep(55);
  }

  lemma Words56()
    requires WordsUpTo(56)
    ensures WordsUpTo(60)
  {
    WordStep(56);
    WordStep(57);
    WordStep(58);
    WordStep(59);
  }

  lemma Words60()
    requires WordsUpTo(60)
    ensures WordsUpTo(64)
  {
    WordStep(60);
    WordStep(61);
    WordStep(62);
    WordStep(63);
  }

  lemma AllWords()
    ensures forall i :: 16 <= i < 64 ==> W[i] == NextWord(W, i)
  {
    Words16();
    Words20();
    Words24();
    Words28();
    Words32();
    Words36();
    Words40();
    Words44();
    Words48();
    Words52();
    Words56();
    Words60();
    forall i | 16 <= i < 64 ensures W[i] == NextWord(W, i) { assert WordFits(i); }
  }

  lemma FirstWords(j: nat)
    requires j < 16
    ensures W[j] == if j == 0 then 0x61626380 else if j == 15 then 0x18 else 0
  {
    assert W[..16] == [0x61626380, 0, 0, 0, 0, 0, 0, 0] + [0, 0, 0, 0, 0, 0, 0, 0x18];
    assert W[j] == W[..16][j];
  }

  // ---------- The rounds ----------

  /** The registers `v` after the rounds with the constants `k` and the words `s`. */
  datatype Progress = Progress(k: seq<Word>, s: seq<Word>, v: Vars)

  ghost predicate Reached(p: Progress, h: Vars) { |p.k| == |p.s| && Rounds(p.k, h, p.s, |p.k|) == p.v }

  /** Six registers take over the values of others. */
  function Shifted(v: Vars, a: Word, e: Word): Vars { Vars(a, v.a, v.b, v.c, e, v.e, v.f, v.g) }

  lemma {:induction false} RoundsPrefix(k: seq<Word>, k': seq<Word>, v: Vars, s: seq<Word>, s': seq<Word>, n: nat)
    requires n <= |k| && n <= |s|
    ensures Rounds(k + k', v, s + s', n) == Rounds(k, v, s, n)
  {
    if n > 0 {
      RoundsPrefix(k, k', v, s, s', n - 1);
    }
  }

  /** One more round, which gives the first and the fifth register the values `a` and `e`. */
  lemma Next(h: Vars, p: Progress, k: Word, w: Word, a: Word, e: Word) returns (p': Progress)
    requires Reached(p, h) && Round(p.v, k, w) == Shifted(p.v, a, e)
    ensures p' == Progress(p.k + [k], p.s + [w], Shifted(p.v, a, e)) && Reached(p', h)
  {
    p' := Progress(p.k + [k], p.s + [w], Shifted(p.v, a, e));
    RoundsPrefix(p.k, [k], h, p.s, [w], |p.k|);
  }

  lemma Rounds0(h: Vars, p: Progress) returns (p': Progress)
    requires Reached(p, h)
    requires p.v == Vars(0x6a09e667, 0xbb67ae85, 0x3c6ef372, 0xa54ff53a,
                         0x510e527f, 0x9b05688c, 0x1f83d9ab, 0x5be0cd19)
    ensures Reached(p', h)
    ensures p'.k == p.k +
      [0x428a2f98, 0x71374491, 0xb5c0fbcf, 0xe9b5dba5, 0x3956c25b, 0x59f111f1, 0x923f82a4, 0xab1c5ed5]
    ensures p'.s == p.s +
      [0x61626380, 0x00000000, 0x00000000, 0x00000000, 0x00000000, 0x00000000, 0x00000000, 0x00000000]
    ensures p'.v == Vars(0x85a07b5f, 0xe5030380, 0x2b4209f5, 0x04409a6a,
                         0x0c657a79, 0x9b27a401, 0x714260ad, 0x43ada245)
  {
    p' := p;
    p' := Next(h, p', 0x428a2f98, 0x61626380, 0x5d6aebcd, 0xfa2a4622);
    p' := Next(h, p', 0x71374491, 0x00000000, 0x5a6ad9ad, 0x78ce7989);
    p' := Next(h, p', 0xb5c0fbcf, 0x00000000, 0xc8c347a7, 0xf92939eb);
    p' := Next(h, p', 0xe9b5dba5, 0x00000000, 0xd550f666, 0x24e00850);
    p' := Next(h, p', 0x3956c25b, 0x00000000, 0x04409a6a, 0x43ada245);
    p' := Next(h, p', 0x59f111f1, 0x00000000, 0x2b4209f5, 0x714260ad);
    p' := Next(h, p', 0x923f82a4, 0x00000000, 0xe5030380, 0x9b27a401);
    p' := Next(h, p', 0xab1c5ed5, 0x00000000, 0x85a07b5f, 0x0c657a79);
  }

  lemma Rounds8(h: Vars, p: Progress) returns (p': Progress)
    requires Reached(p, h)
    requires p.v == Vars(0x85a07b5f, 0xe5030380, 0x2b4209f5, 0x04409a6a,
                         0x0c657a79, 0x9b27a401, 0x714260ad, 0x43ada245)
    ensures Reached(p', h)
    ensures p'.k == p.k +
      [0xd807aa98, 0x12835b01, 0x243185be, 0x550c7dc3, 0x72be5d74, 0x80deb1fe, 0x9bdc06a7, 0xc19bf174]
    ensures p'.s == p.s +
      [0x00000000, 0x00000000, 0x00000000, 0x00000000, 0x00000000, 0x00000000, 0x00000000, 0x00000018]
    ensures p'.v == Vars(0xb0fa238e, 0xc0645fde, 0xd932eb16, 0x87912990,
                         0x07590dcd, 0x0b92f20c, 0x745a48de, 0x1e578218)
  {
    p' := p;
    p' := Next(h, p', 0xd807aa98, 0x00000000, 0x8e04ecb9, 0x32ca2d8c);
    p' := Next(h, p', 0x12835b01, 0x00000000, 0x8c87346b, 0x1cc92596);
    p' := Next(h, p', 0x243185be, 0x00000000, 0x4798a3f4, 0x436b23e8);
    p' := Next(h, p', 0x550c7dc3, 0x00000000, 0xf71fc5a9, 0x816fd6e9);
    p' := Next(h, p', 0x72be5d74, 0x00000000, 0x87912990, 0x1e578218);
    p' := Next(h, p', 0x80deb1fe, 0x00000000, 0xd932eb16, 0x745a48de);
    p' := Next(h, p', 0x9bdc06a7, 0x00000000, 0xc0645fde, 0x0b92f20c);
    p' := Next(h, p', 0xc19bf174, 0x00000018, 0xb0fa238e, 0x07590dcd);
  }

  lemma Rounds16(h: Vars, p: Progress) returns (p': Progress)
    requires Reached(p, h)
    requires p.v == Vars(0xb0fa238e, 0xc0645fde, 0xd932eb16, 0x87912990,
                         0x07590dcd, 0x0b92f20c, 0x745a48de, 0x1e578218)
    ensures Reached(p', h)
    ensures p'.k == p.k +
      [0xe49b69c1, 0xefbe4786, 0x0fc19dc6, 0x240ca1cc, 0x2de92c6f, 0x4a7484aa, 0x5cb0a9dc, 0x76f988da]
    ensures p'.s == p.s +
      [0x61626380, 0x000f0000, 0x7da86405, 0x600003c6, 0x3e9d7b78, 0x0183fc00, 0x12dcbfdb, 0xe2e2c38e]
    ensures p'.v == Vars(0xc5d53d8d, 0xa7a3623f, 0xc2606d6d, 0x9dc68b63,
                         0xaa47c347, 0x49f5114a, 0xe1257970, 0x8ada8930)
  {
    p' := p;
    p' := Next(h, p', 0xe49b69c1, 0x61626380, 0x21da9a9b, 0x8034229c);
    p' := Next(h, p', 0xefbe4786, 0x000f0000, 0xc2fbd9d1, 0x846ee454);
    p' := Next(h, p', 0x0fc19dc6, 0x7da86405, 0xfe777bbf, 0xcc899961);
    p' := Next(h, p', 0x240ca1cc, 0x600003c6, 0xe1f20c33, 0xb0638179);
    p' := Next(h, p', 0x2de92c6f, 0x3e9d7b78, 0x9dc68b63, 0x8ada8930);
    p' := Next(h, p', 0x4a7484aa, 0x0183fc00, 0xc2606d6d, 0xe1257970);
    p' := Next(h, p', 0x5cb0a9dc, 0x12dcbfdb, 0xa7a3623f, 0x49f5114a);
    p' := Next(h, p', 0x76f988da, 0xe2e2c38e, 0xc5d53d8d, 0xaa47c347);
  }

  lemma Rounds24(h: Vars, p: Progress) returns (p': Progress)
    requires Reached(p, h)
    requires p.v == Vars(0xc5d53d8d, 0xa7a3623f, 0xc2606d6d, 0x9dc68b63,
                         0xaa47c347, 0x49f5114a, 0xe1257970, 0x8ada8930)
    ensures Reached(p', h)
    ensures p'.k == p.k +
      [0x983e5152, 0xa831c66d, 0xb00327c8, 0xbf597fc7, 0xc6e00bf3, 0xd5a79147, 0x06ca6351, 0x14292967]
    ensures p'.s == p.s +
      [0xc8215c1a, 0xb73679a2, 0xe5bc3909, 0x32663c5b, 0x9d209d67, 0xec8726cb, 0x702138a4, 0xd3b7973b]
    ensures p'.v == Vars(0x73b33bf5, 0xea992a22, 0xa0060b30, 0x363482c9,
                         0xba591112, 0x0109ab3a, 0xade79437, 0x6112a3b7)
  {
    p' := p;
    p' := Next(h, p', 0x983e5152, 0xc8215c1a, 0x1c2c2838, 0x2823ef91);
    p' := Next(h, p', 0xa831c66d, 0xb73679a2, 0xcde8037d, 0x14383d8e);
    p' := Next(h, p', 0xb00327c8, 0xe5bc3909, 0xb62ec4bc, 0xc74c6516);
    p' := Next(h, p', 0xbf597fc7, 0x32663c5b, 0x77d37528, 0xedffbff8);
    p' := Next(h, p', 0xc6e00bf3, 0x9d209d67, 0x363482c9, 0x6112a3b7);
    p' := Next(h, p', 0xd5a79147, 0xec8726cb, 0xa0060b30, 0xade79437);
    p' := Next(h, p', 0x06ca6351, 0x702138a4, 0xea992a22, 0x0109ab3a);
    p' := Next(h, p', 0x14292967, 0xd3b7973b, 0x73b33bf5, 0xba591112);
  }

  lemma Rounds32(h: Vars, p: Progress) returns (p': Progress)
    requires Reached(p, h)
    requires p.v == Vars(0x73b33bf5, 0xea992a22, 0xa0060b30, 0x363482c9,
                         0xba591112, 0x0109ab3a, 0xade79437, 0x6112a3b7)
    ensures Reached(p', h)
    ensures p'.k == p.k +
      [0x27b70a85, 0x2e1b2138, 0x4d2c6dfc, 0x53380d13, 0x650a7354, 0x766a0abb, 0x81c2c92e, 0x92722c85]
    ensures p'.s == p.s +
      [0x93f5997f, 0x3b68ba73, 0xaff4ffc1, 0xf10a5c62, 0x0a8b3996, 0x72af830a, 0x9409e33e, 0x24641522]
    ensures p'.v == Vars(0x79ea687a, 0x6dc57a8a, 0x34df1604, 0x41a65cb1,
                         0x1efbc0a0, 0xf0781bc8, 0xa507a53d, 0x0772a26b)
  {
    p' := p;
    p' := Next(h, p', 0x27b70a85, 0x93f5997f, 0x98e12507, 0x9cd9f5f6);
    p' := Next(h, p', 0x2e1b2138, 0x3b68ba73, 0xfe604df5, 0x59249dd3);
    p' := Next(h, p', 0x4d2c6dfc, 0xaff4ffc1, 0xa9a7738c, 0x085f3833);
    p' := Next(h, p', 0x53380d13, 0xf10a5c62, 0x65a0cfe4, 0xf4b002d6);
    p' := Next(h, p', 0x650a7354, 0x0a8b3996, 0x41a65cb1, 0x0772a26b);
    p' := Next(h, p', 0x766a0abb, 0x72af830a, 0x34df1604, 0xa507a53d);
    p' := Next(h, p', 0x81c2c92e, 0x9409e33e, 0x6dc57a8a, 0xf0781bc8);
    p' := Next(h, p', 0x92722c85, 0x24641522, 0x79ea687a, 0x1efbc0a0);
  }

  lemma Rounds40(h: Vars, p: Progress) returns (p': Progress)
    requires Reached(p, h)
    requires p.v == Vars(0x79ea687a, 0x6dc57a8a, 0x34df1604, 0x41a65cb1,
                         0x1efbc0a0, 0xf0781bc8, 0xa507a53d, 0x0772a26b)
    ensures Reached(p', h)
    ensures p'.k == p.k +
      [0xa2bfe8a1, 0xa81a664b, 0xc24b8b70, 0xc76c51a3, 0xd192e819, 0xd6990624, 0xf40e3585, 0x106aa070]
    ensures p'.s == p.s +
      [0x9f47bf94, 0xf0a64f5a, 0x3e246a79, 0x27333ba3, 0x0c4763f2, 0x840abf27, 0x7a290d5d, 0x065c43da]
    ensures p'.v == Vars(0x4172328d, 0xa14c14b0, 0x72ab4b91, 0x26628815,
                         0xfecf0bc6, 0xd57b94a9, 0xb7755da1, 0xa80f11f0)
  {
    p' := p;
    p' := Next(h, p', 0xa2bfe8a1, 0x9f47bf94, 0xd6670766, 0x26352d63);
    p' := Next(h, p', 0xa81a664b, 0xf0a64f5a, 0xdf46652f, 0x838b2711);
    p' := Next(h, p', 0xc24b8b70, 0x3e246a79, 0x17aa0dfe, 0xdecd4715);
    p' := Next(h, p', 0xc76c51a3, 0x27333ba3, 0x9d4baf93, 0xfda24c2e);
    p' := Next(h, p', 0xd192e819, 0x0c4763f2, 0x26628815, 0xa80f11f0);
    p' := Next(h, p', 0xd6990624, 0x840abf27, 0x72ab4b91, 0xb7755da1);
    p' := Next(h, p', 0xf40e3585, 0x7a290d5d, 0xa14c14b0, 0xd57b94a9);
    p' := Next(h, p', 0x106aa070, 0x065c43da, 0x4172328d, 0xfecf0bc6);
  }

  lemma Rounds48(h: Vars, p: Progress) returns (p': Progress)
    requires Reached(p, h)
    requires p.v == Vars(0x4172328d, 0xa14c14b0, 0x72ab4b91, 0x26628815,
                         0xfecf0bc6, 0xd57b94a9, 0xb7755da1, 0xa80f11f0)
    ensures Reached(p', h)
    ensures p'.k == p.k +
      [0x19a4c116, 0x1e376c08, 0x2748774c, 0x34b0bcb5, 0x391c0cb3, 0x4ed8aa4a, 0x5b9cca4f, 0x682e6ff3]
    ensures p'.s == p.s +
      [0xfb3e89cb, 0xcc7617db, 0xb9e66c34, 0xa9993667, 0x84badedd, 0xc21462bc, 0x1487472c, 0xb20f7a99]
    ensures p'.v == Vars(0x38cc9913, 0x3ec45cdb, 0xf5702fdb, 0x101fd28f,
                         0x54cb266b, 0xe50e1b4f, 0x9f4787c3, 0x529e7d00)
  {
    p' := p;
    p' := Next(h, p', 0x19a4c116, 0xfb3e89cb, 0x05757ceb, 0xbd714038);
    p' := Next(h, p', 0x1e376c08, 0xcc7617db, 0xf11bfaa8, 0x6e5c390c);
    p' := Next(h, p', 0x2748774c, 0xb9e66c34, 0x7a0508a1, 0x52f1ccf7);
    p' := Next(h, p', 0x34b0bcb5, 0xa9993667, 0x886e7a22, 0x49231c1e);
    p' := Next(h, p', 0x391c0cb3, 0x84badedd, 0x101fd28f, 0x529e7d00);
    p' := Next(h, p', 0x4ed8aa4a, 0xc21462bc, 0xf5702fdb, 0x9f4787c3);
    p' := Next(h, p', 0x5b9cca4f, 0x1487472c, 0x3ec45cdb, 0xe50e1b4f);
    p' := Next(h, p', 0x682e6ff3, 0xb20f7a99, 0x38cc9913, 0x54cb266b);
  }

  lemma Rounds56(h: Vars, p: Progress) returns (p': Progress)
    requires Reached(p, h)
    requires p.v == Vars(0x38cc9913, 0x3ec45cdb, 0xf5702fdb, 0x101fd28f,
                         0x54cb266b, 0xe50e1b4f, 0x9f4787c3, 0x529e7d00)
    ensures Reached(p', h)
    ensures p'.k == p.k +
      [0x748f82ee, 0x78a5636f, 0x84c87814, 0x8cc70208, 0x90befffa, 0xa4506ceb, 0xbef9a3f7, 0xc67178f2]
    ensures p'.s == p.s +
      [0xef57b9cd, 0xebe6b238, 0x9fe3095e, 0x78bc8d4b, 0xa43fcf15, 0x668b2ff8, 0xeeaba2cc, 0x12b1edeb]
    ensures p'.v == Vars(0x506e3058, 0xd39a2165, 0x04d24d6c, 0xb85e2ce9,
                         0x5ef50f24, 0xfb121210, 0x948d25b6, 0x961f4894)
  {
    p' := p;
    p' := Next(h, p', 0x748f82ee, 0xef57b9cd, 0xfcd1887b, 0x9b5e906c);
    p' := Next(h, p', 0x78a5636f, 0xebe6b238, 0xc062d46f, 0x7e44008e);
    p' := Next(h, p', 0x84c87814, 0x9fe3095e, 0xffb70472, 0x6d83bfc6);
    p' := Next(h, p', 0x8cc70208, 0x78bc8d4b, 0xb6ae8fff, 0xb21bad3d);
    p' := Next(h, p', 0x90befffa, 0xa43fcf15, 0xb85e2ce9, 0x961f4894);
    p' := Next(h, p', 0xa4506ceb, 0x668b2ff8, 0x04d24d6c, 0x948d25b6);
    p' := Next(h, p', 0xbef9a3f7, 0xeeaba2cc, 0xd39a2165, 0xfb121210);
    p' := Next(h, p', 0xc67178f2, 0x12b1edeb, 0x506e3058, 0x5ef50f24);
  }

  lemma AllRounds() returns (p: Progress)
    ensures Reached(p, INITIAL) && p.k == K256 && p.s == W
    ensures p.v == Vars(0x506e3058, 0xd39a2165, 0x04d24d6c, 0xb85e2ce9,
                        0x5ef50f24, 0xfb121210, 0x948d25b6, 0x961f4894)
  {
    p := Progress([], [], INITIAL);
    p := Rounds0(INITIAL, p);
    p := Rounds8(INITIAL, p);
    p := Rounds16(INITIAL, p);
    p := Rounds24(INITIAL, p);
    p := Rounds32(INITIAL, p);
    p := Rounds40(INITIAL, p);
    p := Rounds48(INITIAL, p);
    p := Rounds56(INITIAL, p);
  }

  /** The published digest. */
  const DIGEST: Vars := Vars(0xba7816bf, 0x8f01cfea, 0x414140de, 0x5dae2223,
                             0xb00361a3, 0x96177a9c, 0xb410ff61, 0xf20015ad)

  /** The registers after all rounds, added to the initial value. */
  lemma DigestOf(k: seq<Word>, s: seq<Word>)
    requires k == K256 && s == W
    ensures Sum(INITIAL, Rounds(k, INITIAL, s, |k|)) == DIGEST
  {
    var p := AllRounds();
  }
}
