/** The two iterators of ewah.h that step through a buffer: over its words, and over its set bits. */
module EwahIterators {
  import opened EwahWord
  import opened EwahFormat
  import opened Ewah
  import opened EwahReaders

  /** The words of a bitmap one by one. */
  class EwahBoolArrayIterator {
    const myparent: seq<Word>
    var pointer: nat
    var compressedwords: nat
    var literalwords: nat
    var rl: nat
    var lw: nat
    var b: bool
    ghost const ws: seq<Word>
    /** The word that comes next. */
    ghost var c: nat

    predicate HasNext()
      reads this
    {
      pointer < |myparent|
    }

    /** `pointer` is at the literal read last, or at the marker if none was read. */
    ghost predicate Valid()
      reads this
    {
      if HasNext() then
        && literalwords <= pointer && compressedwords + literalwords <= c
        && (literalwords > 0 ==> compressedwords == rl)
        && compressedwords <= rl && literalwords <= lw && compressedwords + literalwords < rl + lw
        && var marker := pointer - literalwords;
        && rl == RunLen(myparent[marker]) && lw == Lits(myparent[marker]) && b == RunBit(myparent[marker])
        && At(ws, c - compressedwords - literalwords, myparent, marker)
      else
        pointer == |myparent| && c == |ws|
    }

    constructor (parent: seq<Word>)
      requires Parses(parent)
      ensures Valid() && c == 0 && ws == Decode(parent)
    {
      myparent, pointer, compressedwords, literalwords, rl, lw, b := parent, 0, 0, 0, 0, 0, false;
      ws, c := Decode(parent), 0;
      new;
      AtStart(ws, parent);
      if pointer < |myparent| {
        ReadNewRunningLengthWord();
      }
    }

    /** Reads the marker at `pointer`; markers without words are passed over. */
    method ReadNewRunningLengthWord()
      requires HasNext() && At(ws, c, myparent, pointer)
      modifies this
      ensures Valid() && c == old(c)
      decreases |myparent| - pointer
    {
      literalwords, compressedwords := 0, 0;
      var m := myparent[pointer];
      rl, lw, b := RunLen(m), Lits(m), RunBit(m);
      if rl == 0 && lw == 0 {
        if pointer < |myparent| - 1 {
          pointer := pointer + 1;
          ReadNewRunningLengthWord();
        } else {
          pointer := |myparent|;
        }
      }
    }

    method Next() returns (w: Word)
      requires Valid() && HasNext()
      modifies this
      ensures Valid() && old(c) < |ws| && w == ws[old(c)] && c == old(c) + 1
    {
      ghost var first, marker := c - compressedwords - literalwords, pointer - literalwords;
      w := Take(first, marker);
      if compressedwords == rl && literalwords == lw {
        LeaveSegment();
      }
    }

    /** Takes a word of the current marker. */
    method Take(ghost first: nat, ghost marker: nat) returns (w: Word)
      requires Valid() && HasNext() && first == c - compressedwords - literalwords && marker == pointer - literalwords
      modifies this`compressedwords, this`literalwords, this`pointer, this`c
      ensures old(c) < |ws| && w == ws[old(c)] && c == old(c) + 1 && HasNext()
      ensures c == first + compressedwords + literalwords && pointer == marker + literalwords
      ensures At(ws, first, myparent, marker) && Behind(myparent, marker) <= |myparent|
      ensures rl == RunLen(myparent[marker]) && lw == Lits(myparent[marker])
      ensures compressedwords < rl || literalwords < lw ==> Valid()
    {
      SegmentWord(ws, first, myparent, marker, compressedwords + literalwords);
      if compressedwords < rl {
        compressedwords := compressedwords + 1;
        w := if b then ALL_ONES else ZERO;
      } else {
        literalwords := literalwords + 1;
        pointer := pointer + 1;
        w := myparent[pointer];
      }
      c := c + 1;
    }

    /** Steps to the next marker when all words of one have been read. */
    method LeaveSegment()
      requires HasNext() && At(ws, c, myparent, pointer + 1) && (pointer + 1 == |myparent| ==> c == |ws|)
      modifies this
      ensures Valid() && c == old(c)
    {
      pointer := pointer + 1;
      if pointer < |myparent| {
        ReadNewRunningLengthWord();
      }
    }
  }

  /** Word `k` of a marker. */
  lemma SegmentWord(ws: seq<Word>, first: nat, buf: seq<Word>, marker: nat, k: nat)
    requires marker < |buf| && At(ws, first, buf, marker) && k < RunLen(buf[marker]) + Lits(buf[marker])
    ensures first + k < |ws| && Behind(buf, marker) <= |buf|
    ensures var run := RunLen(buf[marker]);
      ws[first + k] == if k < run then RunWord(RunBit(buf[marker])) else buf[marker + 1 + k - run]
  {
    assert Marks(ws, first, buf, marker);
  }

  /** The iterator yields the decoded words. */
  method Uncompress(a: EwahBoolArray) returns (words: seq<Word>)
    requires a.Valid()
    ensures words == a.Words()
  {
    a.WholeBuffer();
    var i := new EwahBoolArrayIterator(a.buffer);
    words := CollectWords(i);
  }

  method CollectWords(i: EwahBoolArrayIterator) returns (words: seq<Word>)
    requires i.Valid() && i.c == 0
    modifies i
    ensures words == i.ws
  {
    words := [];
    while i.HasNext()
      invariant i.Valid() && i.c <= |i.ws| && words == i.ws[..i.c]
      decreases |i.ws| - i.c
    {
      var w := i.Next();
      words := words + [w];
    }
  }

  /** The set bits of a bitmap one by one. */
  class EwahBoolArraySetBitForwardIterator {
    const buffer: seq<Word>
    var mpointer: nat
    var offsetofpreviousrun: nat
    var currentrunoffset: nat
    var rlw: Word
    ghost const ws: seq<Word>
    /** The first word of the current marker. */
    ghost var c: nat

    predicate Over()
      reads this
    {
      mpointer == |buffer|
    }

    /** The location of the set bit. */
    function Position(): nat
      reads this
    {
      currentrunoffset + offsetofpreviousrun
    }

    ghost predicate Valid()
      reads this
    {
      && At(ws, c, buffer, mpointer)
      && offsetofpreviousrun == WORD_BITS * c
      && (Over() ==> currentrunoffset == 0)
      && (!Over() ==> rlw == buffer[mpointer] && currentrunoffset <= WORD_BITS * (RunLen(rlw) + Lits(rlw)))
    }

    ghost predicate AtBit()
      reads this
    {
      Member(ws, Position()) && currentrunoffset < WORD_BITS * (RunLen(rlw) + Lits(rlw))
    }

    /** The iterator is at the first set bit from `p` on, or over if there is none. */
    ghost predicate FirstFrom(p: nat)
      reads this
    {
      && p <= Position()
      && (forall q: nat :: p <= q < Position() ==> !Member(ws, q))
      && (if Over() then Position() == WORD_BITS * |ws| else AtBit())
    }

    constructor (parent: seq<Word>)
      requires Parses(parent)
      ensures Valid() && FirstFrom(0) && ws == Decode(parent)
    {
      buffer, mpointer, offsetofpreviousrun, currentrunoffset, rlw := parent, 0, 0, 0, 0;
      ws, c := Decode(parent), 0;
      new;
      AtStart(ws, parent);
      if mpointer < |buffer| {
        rlw := buffer[mpointer];
        var _ := AdvanceToNextSetBit();
      }
    }

    method Increment()
      requires Valid() && !Over() && AtBit()
      modifies this
      ensures Valid() && FirstFrom(old(Position()) + 1)
    {
      currentrunoffset := currentrunoffset + 1;
      var _ := AdvanceToNextSetBit();
    }

    method AdvanceToNextSetBit() returns (found: bool)
      requires Valid()
      modifies this
      ensures Valid() && FirstFrom(old(Position())) && found == !Over()
      decreases |buffer| - mpointer, 1
    {
      if Over() {
        return false;
      }
      SegmentAt(ws, c, buffer, mpointer);
      if currentrunoffset < WORD_BITS * RunLen(rlw) {
        MemberOfRun(ws, c, RunBit(rlw), RunLen(rlw), Position());
        if RunBit(rlw) {
          return true;
        }
        SkipRunFrom(Position());
        currentrunoffset := WORD_BITS * RunLen(rlw);
      }
      found := SearchLiterals(old(Position()));
    }

    /** There is no bit in the rest of a run of zeros. */
    lemma SkipRunFrom(p: nat)
      requires Valid() && !Over() && p >= offsetofpreviousrun && !RunBit(rlw)
      ensures forall q: nat :: p <= q < WORD_BITS * (c + RunLen(rlw)) ==> !Member(ws, q)
    {
      SegmentAt(ws, c, buffer, mpointer);
      forall q: nat | p <= q < WORD_BITS * (c + RunLen(rlw)) ensures !Member(ws, q) {
        MemberOfRun(ws, c, false, RunLen(rlw), q);
      }
    }

    /** Goes through the literal words, and on to the next marker behind them. */
    method SearchLiterals(ghost p: nat) returns (found: bool)
      requires Valid() && !Over() && WORD_BITS * RunLen(rlw) <= currentrunoffset
      requires p <= Position() && forall q: nat :: p <= q < Position() ==> !Member(ws, q)
      modifies this
      ensures Valid() && FirstFrom(p) && found == !Over()
      decreases |buffer| - mpointer, 0
    {
      while true
        invariant Valid() && !Over() && mpointer == old(mpointer) && WORD_BITS * RunLen(rlw) <= currentrunoffset
        invariant p <= Position() && forall q: nat :: p <= q < Position() ==> !Member(ws, q)
        decreases WORD_BITS * (RunLen(rlw) + Lits(rlw)) - currentrunoffset
      {
        var indexoflitword := (currentrunoffset - RunLen(rlw) * WORD_BITS) / WORD_BITS;
        if indexoflitword >= Lits(rlw) {
          var more := AdvanceToNextRun();
          if more {
            found := AdvanceToNextSetBit();
            return;
          }
          return false;
        }
        found := SearchWord(p, indexoflitword);
        if found {
          return;
        }
      }
    }

    lemma InWord(offset: nat, run: nat, index: nat)
      requires WORD_BITS * run <= offset && index == (offset - run * WORD_BITS) / WORD_BITS
      ensures offset == WORD_BITS * (run + index) + (offset - run * WORD_BITS) % WORD_BITS
    {
    }

    /** What the rest of a literal word says about the bits from `p` on. */
    lemma WordAhead(p: nat, index: nat, inWord: nat)
      requires Valid() && !Over() && WORD_BITS * RunLen(rlw) <= currentrunoffset
      requires index == (currentrunoffset - RunLen(rlw) * WORD_BITS) / WORD_BITS < Lits(rlw)
      requires inWord == (currentrunoffset - RunLen(rlw) * WORD_BITS) % WORD_BITS
      requires p <= Position() && forall q: nat :: p <= q < Position() ==> !Member(ws, q)
      ensures mpointer + 1 + index < |buffer|
      ensures var rest := Shift(buffer[mpointer + 1 + index], inWord);
        if rest == 0 then forall q: nat :: p <= q < Position() + (WORD_BITS - inWord) ==> !Member(ws, q)
        else
          && TrailingZeros(rest) < WORD_BITS - inWord && Member(ws, Position() + TrailingZeros(rest))
          && forall q: nat :: p <= q < Position() + TrailingZeros(rest) ==> !Member(ws, q)
    {
      InWord(currentrunoffset, RunLen(rlw), index);
      SegmentWord(ws, c, buffer, mpointer, RunLen(rlw) + index);
      NextBit(ws, c + RunLen(rlw) + index, inWord);
    }

    /** What is left of one literal word. */
    method SearchWord(ghost p: nat, index: nat) returns (found: bool)
      requires Valid() && !Over() && WORD_BITS * RunLen(rlw) <= currentrunoffset
      requires index == (currentrunoffset - RunLen(rlw) * WORD_BITS) / WORD_BITS < Lits(rlw)
      requires p <= Position() && forall q: nat :: p <= q < Position() ==> !Member(ws, q)
      modifies this`currentrunoffset
      ensures Valid() && currentrunoffset >= old(currentrunoffset) && (found ==> AtBit())
      ensures !found ==> currentrunoffset > old(currentrunoffset)
      ensures forall q: nat :: p <= q < Position() ==> !Member(ws, q)
    {
      var inWord := (currentrunoffset - RunLen(rlw) * WORD_BITS) % WORD_BITS;
      WordAhead(p, index, inWord);
      var shifted := Shift(buffer[mpointer + 1 + index], inWord);
      if shifted != 0 {
        currentrunoffset := currentrunoffset + TrailingZeros(shifted);
        return true;
      }
      currentrunoffset := currentrunoffset + (WORD_BITS - inWord);
      return false;
    }

    method AdvanceToNextRun() returns (more: bool)
      requires Valid() && !Over() && currentrunoffset == WORD_BITS * (RunLen(rlw) + Lits(rlw))
      modifies this
      ensures Valid() && mpointer > old(mpointer) && more == !Over() && Position() == old(Position())
      ensures Over() ==> Position() == WORD_BITS * |ws|
    {
      SegmentAt(ws, c, buffer, mpointer);
      offsetofpreviousrun := offsetofpreviousrun + currentrunoffset;
      currentrunoffset := 0;
      c := c + RunLen(rlw) + Lits(rlw);
      mpointer := mpointer + 1 + Lits(rlw);
      if mpointer < |buffer| {
        rlw := buffer[mpointer];
        more := true;
      } else {
        more := false;
      }
    }
  }

  /** The next bit in a word, if there is one. */
  lemma NextBit(ws: seq<Word>, c: nat, o: nat)
    requires c < |ws| && o < WORD_BITS
    ensures Shift(ws[c], o) == 0 ==> forall q: nat :: WORD_BITS * c + o <= q < WORD_BITS * (c + 1) ==> !Member(ws, q)
    ensures Shift(ws[c], o) > 0 ==>
      var k := WORD_BITS * c + o + TrailingZeros(Shift(ws[c], o));
      && k < WORD_BITS * (c + 1) && Member(ws, k)
      && forall q: nat :: WORD_BITS * c + o <= q < k ==> !Member(ws, q)
  {
    ShiftedWord(ws[c], o);
    forall k | 0 <= k < WORD_BITS ensures Member(ws, WORD_BITS * c + k) == Bit(ws[c], k) { MemberAt(ws, c, k); }
    assert forall q: nat :: WORD_BITS * c <= q < WORD_BITS * (c + 1) ==> Member(ws, q) == Bit(ws[c], q - WORD_BITS * c);
  }

  /** begin() to end() goes through the same positions as toArray. */
  method SetBits(a: EwahBoolArray) returns (ids: seq<nat>)
    requires a.Valid()
    ensures ids == Positions(a.Words(), 0) && Lists(ids, a.Words(), 0)
  {
    a.WholeBuffer();
    PositionsAre(a.Words(), 0);
    var i := new EwahBoolArraySetBitForwardIterator(a.buffer);
    ids := Collect(i);
  }

  method Collect(i: EwahBoolArraySetBitForwardIterator) returns (ids: seq<nat>)
    requires i.Valid() && i.FirstFrom(0)
    modifies i
    ensures ids == Positions(i.ws, 0)
  {
    ids := [];
    SkipZeros(i.ws, 0, i.Position(), 0);
    while !i.Over()
      invariant i.Valid() && (if i.Over() then i.Position() == WORD_BITS * |i.ws| else i.AtBit())
      invariant ids == Below(i.ws, i.Position(), 0)
      decreases WORD_BITS * |i.ws| - i.Position()
    {
      var p := i.Position();
      ids := ids + [p];
      i.Increment();
      NextListed(i.ws, p, i.Position());
    }
  }

  lemma NextListed(ws: seq<Word>, p: nat, q: nat)
    requires p < q && Member(ws, p) && forall r: nat :: p + 1 <= r < q ==> !Member(ws, r)
    ensures Below(ws, q, 0) == Below(ws, p, 0) + [p] && p < WORD_BITS * |ws|
  {
    SkipZeros(ws, p + 1, q, 0);
  }
}
