/** The digest of the message "abc", which is published with FIPS 180-4. */
module Sha256Digest {
  import opened Sha256
  import opened Sha256Example
  import opened Sha256Standard

  const ABC: seq<Byte> := [0x61, 0x62, 0x63]

  lemma AbcLength()
    ensures BigEndian(24, 8) == [0, 0, 0, 0, 0, 0, 0, 0x18]
  {
    assert BigEndian(0, 1) == [0];
    assert BigEndian(0, 3) == [0, 0, 0];
    assert BigEndian(0, 5) == [0, 0, 0, 0, 0];
    assert BigEndian(0, 7) == [0, 0, 0, 0, 0, 0, 0];
  }

  /** The padded message is one block: the message, a one bit, zeros, and the length. */
  lemma AbcPadded()
    ensures Padded(ABC) == [0x61, 0x62, 0x63, 0x80] + Zeros(52) + [0, 0, 0, 0, 0, 0, 0, 0x18]
  {
    AbcLength();
    assert ZeroCount(3) == 52;
    assert ABC + [0x80] == [0x61, 0x62, 0x63, 0x80];
  }

  lemma AbcBytes(p: seq<Byte>)
    requires p == [0x61, 0x62, 0x63, 0x80] + Zeros(52) + [0, 0, 0, 0, 0, 0, 0, 0x18]
    ensures |p| == BLOCK_LENGTH && p[0] == 0x61 && p[1] == 0x62 && p[2] == 0x63 && p[3] == 0x80 && p[63] == 0x18
    ensures forall i :: 4 <= i < 63 ==> p[i] == 0
  {
  }

  lemma AbcWord(p: seq<Byte>, j: nat)
    requires |p| == BLOCK_LENGTH && p[0] == 0x61 && p[1] == 0x62 && p[2] == 0x63 && p[3] == 0x80 && p[63] == 0x18
    requires (forall i :: 4 <= i < 63 ==> p[i] == 0) && j < 16
    ensures WordAt(p, j) == if j == 0 then 0x61626380 else if j == 15 then 0x18 else 0
  {
  }

  lemma AbcBlock(s: seq<Word>)
    requires s == W
    ensures |Padded(ABC)| == BLOCK_LENGTH && |s| == 64 && WordsOf(Padded(ABC)) == s[..16]
  {
    var p := Padded(ABC);
    AbcPadded();
    AbcBytes(p);
    forall j | 0 <= j < 16 ensures WordsOf(p)[j] == s[..16][j] {
      AbcWord(p, j);
      FirstWords(j);
    }
  }

  /** Words that follow from those before them are the schedule of the first sixteen. */
  lemma {:induction false} ScheduleOf(m: seq<Word>, s: seq<Word>, n: nat)
    requires |m| == 16 <= n <= |s| && m == s[..16] && forall i :: 16 <= i < |s| ==> s[i] == NextWord(s, i)
    ensures Schedule(m, n) == s[..n]
  {
    if n > 16 {
      ScheduleOf(m, s, n - 1);
      assert s[..n] == s[..n - 1] + [s[n - 1]];
      assert NextWord(s[..n - 1], n - 1) == NextWord(s, n - 1);
    }
  }

  /** The digest of "abc" is the published one. */
  lemma AbcDigest(k: seq<Word>)
    requires k == K256
    ensures Hash(k, ABC) == DIGEST
  {
    var s := W;
    AbcBlock(s);
    AllWords();
    ScheduleOf(WordsOf(Padded(ABC)), s, |s|);
    assert s[..|s|] == s;
    DigestOf(k, s);
    ChainOne(k, INITIAL, Padded(ABC));
  }
}
