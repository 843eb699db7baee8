/**
 The 32-bit words of an EWAH bitmap: bits, bitwise operations, and the fields of a marker word
 (runninglengthword.h). Words are numbers; a bit-field is stored and read by its place value.
 */
module EwahWord {

  const WORD_BITS: nat := 32

  type Word = w: nat | w < 0x1_0000_0000

  const ZERO: Word := 0
  const ALL_ONES: Word := 0xFFFF_FFFF

  // ---------- Marker words ----------

  const LARGEST_RUN: nat := 0xFFFF
  const LARGEST_LITERALS: nat := 0x7FFF

  function RunBit(w: Word): bool { w % 2 == 1 }

  function RunLen(w: Word): (r: nat)
    ensures r <= LARGEST_RUN
  {
    w / 2 % 0x1_0000
  }

  function Lits(w: Word): (r: nat)
    ensures r <= LARGEST_LITERALS
  {
    w / 0x2_0000
  }

  function Marker(b: bool, run: nat, lits: nat): Word
    requires run <= LARGEST_RUN && lits <= LARGEST_LITERALS
  {
    (if b then 1 else 0) + 2 * run + 0x2_0000 * lits
  }

  /** The three fields do not overlap and make up the word. */
  lemma MarkerFields(b: bool, run: nat, lits: nat)
    requires run <= LARGEST_RUN && lits <= LARGEST_LITERALS
    ensures RunBit(Marker(b, run, lits)) == b
    ensures RunLen(Marker(b, run, lits)) == run
    ensures Lits(Marker(b, run, lits)) == lits
  {
    var w := Marker(b, run, lits);
    assert w / 2 == run + 0x1_0000 * lits;
  }

  function SetRunBit(w: Word, b: bool): (r: Word)
    ensures RunBit(r) == b && RunLen(r) == RunLen(w) && Lits(r) == Lits(w)
  {
    MarkerFields(b, RunLen(w), Lits(w));
    Marker(b, RunLen(w), Lits(w))
  }

  function SetRunLen(w: Word, run: nat): (r: Word)
    requires run <= LARGEST_RUN
    ensures RunBit(r) == RunBit(w) && RunLen(r) == run && Lits(r) == Lits(w)
  {
    MarkerFields(RunBit(w), run, Lits(w));
    Marker(RunBit(w), run, Lits(w))
  }

  function SetLits(w: Word, lits: nat): (r: Word)
    requires lits <= LARGEST_LITERALS
    ensures RunBit(r) == RunBit(w) && RunLen(r) == RunLen(w) && Lits(r) == lits
  {
    MarkerFields(RunBit(w), RunLen(w), lits);
    Marker(RunBit(w), RunLen(w), lits)
  }

  // ---------- Bits and bitwise operations ----------

  function Bit(w: nat, i: nat): bool {
    if i == 0 then w % 2 == 1 else Bit(w / 2, i - 1)
  }

  function Pow2(n: nat): (p: nat)
    ensures p > 0
  {
    if n == 0 then 1 else 2 * Pow2(n - 1)
  }

  lemma Pow2Word()
    ensures Pow2(WORD_BITS) == 0x1_0000_0000
  {
    assert Pow2(8) == 256;
    assert Pow2(16) == 0x1_0000;
    assert Pow2(24) == 0x100_0000;
  }

  lemma {:induction false} Pow2Less(i: nat, n: nat)
    requires i < n
    ensures 2 * Pow2(i) <= Pow2(n)
  {
    if i + 1 < n {
      Pow2Less(i, n - 1);
    }
  }

  datatype Op = Or | And | Xor
  {
    function Apply(x: bool, y: bool): bool {
      match this
      case Or => x || y
      case And => x && y
      case Xor => x != y
    }
  }

  /** The operation on the lowest `n` bits. */
  function BitOp(op: Op, a: nat, b: nat, n: nat): (r: nat)
    ensures r < Pow2(n)
  {
    if n == 0 then 0
    else 2 * BitOp(op, a / 2, b / 2, n - 1) + (if op.Apply(a % 2 == 1, b % 2 == 1) then 1 else 0)
  }

  function WordOp(op: Op, a: Word, b: Word): Word {
    Pow2Word();
    BitOp(op, a, b, WORD_BITS)
  }

  function NotWord(w: Word): Word { ALL_ONES - w }

  lemma {:induction false} BitOfBitOp(op: Op, a: nat, b: nat, n: nat, i: nat)
    requires i < n
    ensures Bit(BitOp(op, a, b, n), i) == op.Apply(Bit(a, i), Bit(b, i))
  {
    var r := BitOp(op, a / 2, b / 2, n - 1);
    assert BitOp(op, a, b, n) / 2 == r;
    if i > 0 {
      BitOfBitOp(op, a / 2, b / 2, n - 1, i - 1);
    }
  }

  lemma BitOfWordOp(op: Op, a: Word, b: Word, i: nat)
    requires i < WORD_BITS
    ensures Bit(WordOp(op, a, b), i) == op.Apply(Bit(a, i), Bit(b, i))
  {
    BitOfBitOp(op, a, b, WORD_BITS, i);
  }

  lemma {:induction false} BitOpCommutes(op: Op, a: nat, b: nat, n: nat)
    ensures BitOp(op, a, b, n) == BitOp(op, b, a, n)
  {
    if n > 0 {
      BitOpCommutes(op, a / 2, b / 2, n - 1);
    }
  }

  lemma {:induction false} BitOpConstants(b: nat, n: nat)
    requires b < Pow2(n)
    ensures BitOp(Or, 0, b, n) == b && BitOp(Or, Pow2(n) - 1, b, n) == Pow2(n) - 1
    ensures BitOp(And, 0, b, n) == 0 && BitOp(And, Pow2(n) - 1, b, n) == b
    ensures BitOp(Xor, 0, b, n) == b && BitOp(Xor, Pow2(n) - 1, b, n) == Pow2(n) - 1 - b
  {
    if n > 0 {
      BitOpConstants(b / 2, n - 1);
      assert (Pow2(n) - 1) / 2 == Pow2(n - 1) - 1 && (Pow2(n) - 1) % 2 == 1;
      assert b == 2 * (b / 2) + b % 2;
    }
  }

  /** The operations with a word of a run. */
  lemma WordOpConstants(w: Word)
    ensures WordOp(Or, ZERO, w) == w && WordOp(Or, ALL_ONES, w) == ALL_ONES
    ensures WordOp(And, ZERO, w) == ZERO && WordOp(And, ALL_ONES, w) == w
    ensures WordOp(Xor, ZERO, w) == w && WordOp(Xor, ALL_ONES, w) == NotWord(w)
  {
    Pow2Word();
    BitOpConstants(w, WORD_BITS);
  }

  lemma WordOpCommutes(op: Op, a: Word, b: Word)
    ensures WordOp(op, a, b) == WordOp(op, b, a)
  {
    BitOpCommutes(op, a, b, WORD_BITS);
  }

  lemma {:induction false} BitOfZero(i: nat)
    ensures !Bit(0, i)
  {
    if i > 0 { BitOfZero(i - 1); }
  }

  lemma {:induction false} BitOfOnes(n: nat, i: nat)
    requires i < n
    ensures Bit(Pow2(n) - 1, i)
  {
    assert (Pow2(n) - 1) / 2 == Pow2(n - 1) - 1;
    if i > 0 { BitOfOnes(n - 1, i - 1); }
  }

  lemma BitOfAllOnes(i: nat)
    requires i < WORD_BITS
    ensures Bit(ALL_ONES, i)
  {
    Pow2Word();
    BitOfOnes(WORD_BITS, i);
  }

  lemma {:induction false} BitOfPow2(k: nat, i: nat)
    ensures Bit(Pow2(k), i) <==> i == k
  {
    if k == 0 {
      if i > 0 { BitOfZero(i - 1); }
    } else {
      assert Pow2(k) / 2 == Pow2(k - 1);
      if i > 0 { BitOfPow2(k - 1, i - 1); }
    }
  }

  /** The word with the single bit `k`. */
  function SingleBit(k: nat): Word
    requires k < WORD_BITS
  {
    Pow2Word();
    Pow2Less(k, WORD_BITS);
    Pow2(k)
  }

  /** A word is its bits. */
  lemma {:induction false} BitsDetermine(a: nat, b: nat, n: nat)
    requires a < Pow2(n) && b < Pow2(n)
    requires forall i :: 0 <= i < n ==> Bit(a, i) == Bit(b, i)
    ensures a == b
  {
    if n > 0 {
      assert Bit(a, 0) == Bit(b, 0);
      forall i | 0 <= i < n - 1 ensures Bit(a / 2, i) == Bit(b / 2, i) {
        assert Bit(a, i + 1) == Bit(b, i + 1);
      }
      BitsDetermine(a / 2, b / 2, n - 1);
    }
  }
}
