/** The compressed bitmap of ewah.h, with 32-bit words: appending words, setting bits and padding. */
module Ewah {
  import opened EwahWord
  import opened EwahFormat

  /** The number of pieces of at most `size` words that `n` words are cut into. */
  function Pieces(n: nat, size: nat): nat
    requires size > 0
  {
    if n == 0 then 0 else if n <= size then 1 else 1 + Pieces(n - size, size)
  }

  /** How many new markers `n` words take, when the last marker has room for `room` and a new one for `size` of them. */
  function NewMarkers(n: nat, room: nat, size: nat): nat
    requires size > 0
  {
    if n <= room then 0 else Pieces(n - room, size)
  }

  /** That many hold all words, and fewer do not. */
  lemma FewestMarkers(n: nat, room: nat, size: nat)
    requires size > 0
    ensures n <= room + size * NewMarkers(n, room, size)
    ensures forall m: nat :: m < NewMarkers(n, room, size) ==> room + size * m < n
  {
    if n > room { FewestPieces(n - room, size); }
  }

  lemma {:induction false} FewestPieces(n: nat, size: nat)
    requires size > 0
    ensures n <= size * Pieces(n, size)
    ensures forall m: nat :: m < Pieces(n, size) ==> size * m < n
  {
    if n > size {
      FewestPieces(n - size, size);
      forall m: nat | m < Pieces(n, size) ensures size * m < n {
        if m > 0 { assert size * (m - 1) < n - size; }
      }
    }
  }

  class EwahBoolArray {
    var buffer: seq<Word>
    var sizeinbits: nat
    var lastRLW: nat

    /** The buffer parses into markers and literals, and `lastRLW` is the last marker. */
    ghost predicate Valid()
      reads this
    {
      && lastRLW < |buffer|
      && Parses(buffer[..lastRLW])
      && |buffer| == lastRLW + 1 + Lits(buffer[lastRLW])
    }

    /** The decoded words. */
    ghost function Words(): seq<Word>
      requires Valid()
      reads this
    {
      Decode(buffer[..lastRLW]) + Fill(RunBit(buffer[lastRLW]), RunLen(buffer[lastRLW])) + buffer[lastRLW + 1..]
    }

    /** The words that are stored as literals. */
    ghost function Dirty(): seq<Word>
      requires Valid()
      reads this
    {
      Literals(buffer[..lastRLW]) + buffer[lastRLW + 1..]
    }

    /** No word is stored as a literal that a run could hold. */
    ghost predicate Compact()
      requires Valid()
      reads this
    {
      AllGenuine(Dirty())
    }

    /** The last marker describes at least one word. */
    ghost predicate LastInUse()
      requires Valid()
      reads this
    {
      RunLen(buffer[lastRLW]) + Lits(buffer[lastRLW]) > 0
    }

    /** The last marker is in use unless there are no words. */
    ghost predicate InUse()
      requires Valid()
      reads this
    {
      Words() != [] ==> LastInUse()
    }

    /** There are enough words for all bits, and no bit is set past the size. */
    ghost predicate Covers()
      requires Valid()
      reads this
    {
      && WordsFor(sizeinbits) <= |Words()|
      && AllBelow(Words(), sizeinbits)
    }

    /** There are exactly as many words as the size demands. */
    ghost predicate Exact()
      requires Valid()
      reads this
    {
      Covers() && |Words()| == WordsFor(sizeinbits) && (sizeinbits % WORD_BITS != 0 ==> LastInUse())
    }

    lemma WholeBuffer()
      requires Valid()
      ensures Parses(buffer) && Decode(buffer) == Words() && Literals(buffer) == Dirty()
    {
      var p, q := buffer[..lastRLW], buffer[lastRLW..];
      assert p + q == buffer && q[1..] == buffer[lastRLW + 1..];
      LastSegment(q);
      ParsesConcat(p, q);
      LiteralsConcat(p, q);
    }

    /** A compact bitmap stores each word that no run can hold, and nothing else but markers. */
    lemma CompactBuffer()
      requires Valid() && Compact()
      ensures Dirty() == Genuines(Words())
      ensures Parses(buffer) && |buffer| == Markers(buffer) + |Genuines(Words())|
    {
      WholeBuffer();
      LiteralsAreGenuines(buffer);
    }

    lemma LastSegment(q: seq<Word>)
      requires q != [] && |q| == 1 + Lits(q[0])
      ensures Parses(q) && Decode(q) == Fill(RunBit(q[0]), RunLen(q[0])) + q[1..] && Literals(q) == q[1..]
    {
      assert Tail(q) == [] && q[1..1 + Lits(q[0])] == q[1..];
    }

    constructor ()
      ensures Valid() && Exact() && sizeinbits == 0 && Words() == [] && |buffer| == 1 && Compact()
    {
      buffer, sizeinbits, lastRLW := [0], 0, 0;
    }

    method Reset()
      modifies this
      ensures Valid() && Exact() && sizeinbits == 0 && Words() == [] && |buffer| == 1 && Compact()
    {
      buffer, sizeinbits, lastRLW := [0], 0, 0;
    }

    // ---------- Appending words ----------

    /** Starts a new, empty marker. */
    method StartMarker(v: bool)
      requires Valid()
      modifies this`buffer, this`lastRLW
      ensures Valid() && Words() == old(Words()) && Dirty() == old(Dirty()) && |buffer| == old(|buffer|) + 1
      ensures RunBit(buffer[lastRLW]) == v && RunLen(buffer[lastRLW]) == Lits(buffer[lastRLW]) == 0
    {
      WholeBuffer();
      ghost var before := buffer;
      buffer := buffer + [0];
      lastRLW := |buffer| - 1;
      if v {
        buffer := buffer[lastRLW := SetRunBit(buffer[lastRLW], v)];
      }
      assert buffer[..lastRLW] == before;
    }

    /** Lengthens the run of the last marker, which has no literals. */
    method GrowRun(k: nat)
      requires Valid() && Lits(buffer[lastRLW]) == 0 && RunLen(buffer[lastRLW]) + k <= LARGEST_RUN
      modifies this`buffer
      ensures Valid() && Words() == old(Words()) + Fill(RunBit(old(buffer[lastRLW])), k) && Dirty() == old(Dirty())
      ensures RunLen(buffer[lastRLW]) == old(RunLen(buffer[lastRLW])) + k && Lits(buffer[lastRLW]) == 0
      ensures RunBit(buffer[lastRLW]) == old(RunBit(buffer[lastRLW])) && |buffer| == old(|buffer|)
    {
      ghost var before := buffer;
      buffer := buffer[lastRLW := SetRunLen(buffer[lastRLW], RunLen(buffer[lastRLW]) + k)];
      assert buffer[..lastRLW] == before[..lastRLW];
    }

    /** Appends literals to the last marker, which has room for them. */
    method GrowLiterals(ws: seq<Word>)
      requires Valid() && Lits(buffer[lastRLW]) + |ws| <= LARGEST_LITERALS
      modifies this`buffer
      ensures Valid() && Words() == old(Words()) + ws && |buffer| == old(|buffer|) + |ws|
      ensures Dirty() == old(Dirty()) + ws
      ensures Lits(buffer[lastRLW]) == old(Lits(buffer[lastRLW])) + |ws|
    {
      ghost var before := buffer;
      buffer := buffer[lastRLW := SetLits(buffer[lastRLW], Lits(buffer[lastRLW]) + |ws|)] + ws;
      assert buffer[..lastRLW] == before[..lastRLW];
      assert buffer[lastRLW + 1..] == before[lastRLW + 1..] + ws;
    }

    /** Aligns the bit of a last marker that describes no words. */
    method AlignRunBit(v: bool)
      requires Valid() && RunLen(buffer[lastRLW]) == Lits(buffer[lastRLW]) == 0
      modifies this`buffer
      ensures Valid() && Words() == old(Words()) && Dirty() == old(Dirty()) && |buffer| == old(|buffer|)
      ensures RunBit(buffer[lastRLW]) == v && RunLen(buffer[lastRLW]) == Lits(buffer[lastRLW]) == 0
    {
      ghost var before := buffer;
      buffer := buffer[lastRLW := SetRunBit(buffer[lastRLW], v)];
      assert buffer[..lastRLW] == before[..lastRLW];
    }

    /** How many more words of ones or of zeros the last marker can count. */
    ghost function RunRoom(v: bool): nat
      requires Valid()
      reads this
    {
      var m := buffer[lastRLW];
      if Lits(m) == 0 && (RunLen(m) == 0 || RunBit(m) == v) then LARGEST_RUN - RunLen(m) else 0
    }

    method AddEmptyWord(v: bool) returns (added: nat)
      requires Valid()
      modifies this`buffer, this`lastRLW
      ensures Valid() && LastInUse() && Words() == old(Words()) + [RunWord(v)] && Dirty() == old(Dirty())
      ensures |buffer| == old(|buffer|) + added && added == if old(RunRoom(v)) > 0 then 0 else 1
      ensures Lits(buffer[lastRLW]) == 0 && RunBit(buffer[lastRLW]) == v
    {
      var noLiteral := Lits(buffer[lastRLW]) == 0;
      var run := RunLen(buffer[lastRLW]);
      if noLiteral && run == 0 {
        AlignRunBit(v);
      }
      if noLiteral && RunBit(buffer[lastRLW]) == v && run < LARGEST_RUN {
        added := 0;
      } else {
        StartMarker(v);
        added := 1;
      }
      GrowRun(1);
      assert Fill(v, 1) == [RunWord(v)];
    }

    method AddLiteralWord(w: Word) returns (added: nat)
      requires Valid()
      modifies this`buffer, this`lastRLW
      ensures Valid() && LastInUse() && Words() == old(Words()) + [w] && Dirty() == old(Dirty()) + [w]
      ensures |buffer| == old(|buffer|) + added
      ensures added == (if old(Lits(buffer[lastRLW])) < LARGEST_LITERALS then 1 else 2) && Lits(buffer[lastRLW]) > 0
    {
      added := 1;
      if Lits(buffer[lastRLW]) >= LARGEST_LITERALS {
        StartMarker(false);
        added := 2;
      }
      GrowLiterals([w]);
    }

    method Add(w: Word, bitsThatMatter: nat) returns (added: nat)
      requires Valid()
      modifies this
      ensures Valid() && LastInUse() && Words() == old(Words()) + [w]
      ensures sizeinbits == old(sizeinbits) + bitsThatMatter && |buffer| == old(|buffer|) + added
      ensures Lits(buffer[lastRLW]) == 0 <==> !Genuine(w)
      ensures Dirty() == old(Dirty()) + (if Genuine(w) then [w] else [])
    {
      sizeinbits := sizeinbits + bitsThatMatter;
      if w == 0 {
        added := AddEmptyWord(false);
      } else if w == ALL_ONES {
        added := AddEmptyWord(true);
      } else {
        added := AddLiteralWord(w);
      }
    }

    lemma FillMore(words: seq<Word>, v: bool, m: nat, n: nat)
      ensures words + Fill(v, m) + Fill(v, n) == words + Fill(v, m + n)
    {
    }

    /** Makes the last marker one for a run of `v`. */
    method StartRun(v: bool) returns (added: nat)
      requires Valid()
      modifies this`buffer, this`lastRLW
      ensures Valid() && Words() == old(Words()) && Dirty() == old(Dirty())
      ensures Lits(buffer[lastRLW]) == 0 && RunBit(buffer[lastRLW]) == v
      ensures |buffer| == old(|buffer|) + added && (added == 0 || (added == 1 && old(RunRoom(v)) == 0))
      ensures added == 0 ==> old(Lits(buffer[lastRLW])) == 0 && LARGEST_RUN - RunLen(buffer[lastRLW]) == old(RunRoom(v))
      ensures added == 1 ==> RunLen(buffer[lastRLW]) == 0
    {
      added := 0;
      if RunBit(buffer[lastRLW]) != v && RunLen(buffer[lastRLW]) + Lits(buffer[lastRLW]) == 0 {
        AlignRunBit(v);
      } else if Lits(buffer[lastRLW]) != 0 || RunBit(buffer[lastRLW]) != v {
        StartMarker(v);
        added := 1;
      }
    }

    lemma CutLiterals(words: seq<Word>, ws: seq<Word>, k: nat)
      requires k <= |ws|
      ensures words + ws[..k] + ws[k..] == words + ws
      ensures k == |ws| ==> ws[..k] == ws
    {
    }

    /** Appends a run, filling up markers to the largest count. */
    method FastAddStreamOfEmptyWords(v: bool, number: nat) returns (added: nat)
      requires Valid()
      modifies this`buffer, this`lastRLW
      ensures Valid() && Words() == old(Words()) + Fill(v, number) && Dirty() == old(Dirty())
      ensures Lits(buffer[lastRLW]) == 0 && (number > 0 ==> LastInUse())
      ensures |buffer| == old(|buffer|) + added
      ensures number > 0 ==> added == NewMarkers(number, old(RunRoom(v)), LARGEST_RUN)
    {
      added := StartRun(v);
      var run := RunLen(buffer[lastRLW]);
      var whatWeCanAdd := if number < LARGEST_RUN - run then number else LARGEST_RUN - run;
      GrowRun(whatWeCanAdd);
      ghost var words := old(Words());
      FillMore(words, v, whatWeCanAdd, number - whatWeCanAdd);
      var more := AddMarkers(v, number - whatWeCanAdd);
      added := added + more;
    }

    /** A new marker for a run that fits into it. */
    method AddRunMarker(v: bool, number: nat)
      requires Valid() && 0 < number <= LARGEST_RUN
      modifies this`buffer, this`lastRLW
      ensures Valid() && LastInUse() && Words() == old(Words()) + Fill(v, number) && Dirty() == old(Dirty())
      ensures |buffer| == old(|buffer|) + 1 && Lits(buffer[lastRLW]) == 0
    {
      StartMarker(v);
      GrowRun(number);
    }

    /** New markers for a run of `number` words, all full but the last. */
    method AddMarkers(v: bool, number: nat) returns (added: nat)
      requires Valid()
      modifies this`buffer, this`lastRLW
      ensures Valid() && Words() == old(Words()) + Fill(v, number) && Dirty() == old(Dirty())
      ensures old(LastInUse()) || number > 0 ==> LastInUse()
      ensures old(Lits(buffer[lastRLW])) == 0 || number > 0 ==> Lits(buffer[lastRLW]) == 0
      ensures |buffer| == old(|buffer|) + added && added == Pieces(number, LARGEST_RUN)
    {
      ghost var words := Words();
      var left: nat := number;
      added := 0;
      assert words == words + Fill(v, 0);
      while left >= LARGEST_RUN
        invariant Valid() && left <= number
        invariant Words() == words + Fill(v, number - left) && Dirty() == old(Dirty())
        invariant old(LastInUse()) || left < number ==> LastInUse()
        invariant old(Lits(buffer[lastRLW])) == 0 || left < number ==> Lits(buffer[lastRLW]) == 0
        invariant |buffer| == old(|buffer|) + added && added + Pieces(left, LARGEST_RUN) == Pieces(number, LARGEST_RUN)
      {
        AddRunMarker(v, LARGEST_RUN);
        added := added + 1;
        FillMore(words, v, number - left, LARGEST_RUN);
        left := left - LARGEST_RUN;
      }
      if left > 0 {
        AddRunMarker(v, left);
        added := added + 1;
        FillMore(words, v, number - left, left);
      }
    }

    method AddStreamOfEmptyWords(v: bool, number: nat) returns (added: nat)
      requires Valid()
      modifies this
      ensures Valid() && Words() == old(Words()) + Fill(v, number) && Dirty() == old(Dirty())
      ensures number > 0 ==> LastInUse() && Lits(buffer[lastRLW]) == 0
      ensures number == 0 ==> buffer == old(buffer) && lastRLW == old(lastRLW)
      ensures sizeinbits == old(sizeinbits) + number * WORD_BITS && |buffer| == old(|buffer|) + added
      ensures added == NewMarkers(number, old(RunRoom(v)), LARGEST_RUN)
    {
      if number == 0 {
        return 0;
      }
      sizeinbits := sizeinbits + number * WORD_BITS;
      added := FastAddStreamOfEmptyWords(v, number);
    }

    method AddStreamOfDirtyWords(ws: seq<Word>) returns (added: nat)
      requires Valid()
      modifies this
      ensures Valid() && Words() == old(Words()) + ws && Dirty() == old(Dirty()) + ws && (ws != [] ==> LastInUse())
      ensures ws == [] ==> buffer == old(buffer) && lastRLW == old(lastRLW)
      ensures sizeinbits == old(sizeinbits) + |ws| * WORD_BITS && |buffer| == old(|buffer|) + added
      ensures added == |ws| + NewMarkers(|ws|, LARGEST_LITERALS - old(Lits(buffer[lastRLW])), LARGEST_LITERALS)
      decreases |ws|, Lits(buffer[lastRLW])
    {
      if ws == [] {
        return 0;
      }
      var room := LARGEST_LITERALS - Lits(buffer[lastRLW]);
      var whatWeCanAdd := if |ws| < room then |ws| else room;
      CutLiterals(Words(), ws, whatWeCanAdd);
      CutLiterals(Dirty(), ws, whatWeCanAdd);
      GrowLiterals(ws[..whatWeCanAdd]);
      sizeinbits := sizeinbits + whatWeCanAdd * WORD_BITS;
      added := whatWeCanAdd;
      if |ws| - whatWeCanAdd > 0 {
        StartMarker(false);
        var more := AddStreamOfDirtyWords(ws[whatWeCanAdd..]);
        added := added + 1 + more;
      }
    }

    // ---------- Setting bits ----------

    /**
     Turns the last word of the last run into the literal `w`. In a marker that describes no words the run length
     wraps around, which sets the field to the largest count.
     */
    method OpenRunWord(w: Word)
      requires Valid() && Lits(buffer[lastRLW]) == 0
      modifies this`buffer, this`lastRLW
      ensures Valid() && LastInUse() && Dirty() == old(Dirty()) + [w]
      ensures old(LastInUse()) ==> |old(Words())| > 0 && Words() == old(Words())[..|old(Words())| - 1] + [w]
      ensures !old(LastInUse()) ==> Words() == old(Words()) + Fill(RunBit(old(buffer[lastRLW])), LARGEST_RUN) + [w]
    {
      ghost var before, words := buffer, Words();
      var run := RunLen(buffer[lastRLW]);
      buffer := buffer[lastRLW := SetRunLen(buffer[lastRLW], if run == 0 then LARGEST_RUN else run - 1)];
      assert buffer[..lastRLW] == before[..lastRLW];
      if run > 0 {
        assert Words() == words[..|words| - 1];
      } else {
        assert Words() == words + Fill(RunBit(before[lastRLW]), LARGEST_RUN);
      }
      var _ := AddLiteralWord(w);
    }

    /** Setting a bit in the last word, which is a literal; a word of ones becomes part of a run. */
    method OrLiteralWord(w: Word)
      requires Valid() && Lits(buffer[lastRLW]) > 0
      modifies this`buffer, this`lastRLW
      ensures Valid() && LastInUse() && |Words()| == |old(Words())| > 0
      ensures Words() == old(Words())[|old(Words())| - 1 := WordOp(Or, old(Words())[|old(Words())| - 1], w)]
      ensures old(Compact()) && Words()[|Words()| - 1] != ZERO ==> Compact()
    {
      ghost var before, words, dirty := buffer, Words(), Dirty();
      var last := |buffer| - 1;
      buffer := buffer[last := WordOp(Or, buffer[last], w)];
      assert buffer[..lastRLW] == before[..lastRLW];
      assert Words() == words[|words| - 1 := WordOp(Or, words[|words| - 1], w)];
      assert Dirty() == dirty[|dirty| - 1 := buffer[last]];
      if buffer[last] == ALL_ONES {
        DropLastLiteral();
        var _ := AddEmptyWord(true);
      }
    }

    method DropLastLiteral()
      requires Valid() && Lits(buffer[lastRLW]) > 0
      modifies this`buffer
      ensures Valid() && |old(Words())| > 0 && Words() == old(Words())[..|old(Words())| - 1]
      ensures |old(Dirty())| > 0 && Dirty() == old(Dirty())[..|old(Dirty())| - 1]
    {
      ghost var before, words := buffer, Words();
      ghost var front := Decode(buffer[..lastRLW]) + Fill(RunBit(buffer[lastRLW]), RunLen(buffer[lastRLW]));
      assert words == front + before[lastRLW + 1..];
      var last := |buffer| - 1;
      buffer := buffer[..last];
      buffer := buffer[lastRLW := SetLits(buffer[lastRLW], Lits(buffer[lastRLW]) - 1)];
      assert |buffer| == last && forall i :: 0 <= i < last && i != lastRLW ==> buffer[i] == before[i];
      assert buffer[..lastRLW] == before[..lastRLW];
      assert buffer[lastRLW + 1..] == before[lastRLW + 1..last];
      assert Words() == front + before[lastRLW + 1..last];
      DropLast(front, before[lastRLW + 1..]);
      DropLast(Literals(before[..lastRLW]), before[lastRLW + 1..]);
      assert before[lastRLW + 1..][..last - lastRLW - 1] == before[lastRLW + 1..last];
    }

    lemma DropLast(front: seq<Word>, rest: seq<Word>)
      requires rest != []
      ensures (front + rest)[..|front + rest| - 1] == front + rest[..|rest| - 1]
    {
    }

    lemma SingleBitIsGenuine(b: nat, w: Word)
      requires b < WORD_BITS
      ensures Genuine(SingleBit(b)) && WordOp(Or, w, SingleBit(b)) != ZERO
    {
      var other := if b == 0 then 1 else 0;
      BitOfPow2(b, b);
      BitOfPow2(b, other);
      BitOfZero(b);
      BitOfAllOnes(other);
      BitOfWordOp(Or, w, SingleBit(b), b);
    }

    /** A single bit `b` in a word behind `n` words of zeros. */
    lemma SetInNewWord(before: seq<Word>, n: nat, b: nat, after: seq<Word>)
      requires b < WORD_BITS && after == before + Fill(false, n) + [SingleBit(b)]
      ensures Adds(before, WORD_BITS * (|before| + n) + b, after)
    {
      var gap := before + Fill(false, n);
      forall j: nat ensures Member(after, j) <==> Member(before, j) || j == WORD_BITS * |gap| + b {
        MemberOfZeros(before, n, j);
        if j / WORD_BITS == |gap| {
          BitOfPow2(b, j % WORD_BITS);
        }
      }
    }

    /** The bit `b` joins the last word. */
    lemma SetInLastWord(before: seq<Word>, b: nat, after: seq<Word>)
      requires |before| > 0 && b < WORD_BITS
      requires after == before[|before| - 1 := WordOp(Or, before[|before| - 1], SingleBit(b))]
      ensures Adds(before, WORD_BITS * (|before| - 1) + b, after)
    {
      forall j: nat ensures Member(after, j) <==> Member(before, j) || j == WORD_BITS * (|before| - 1) + b {
        if j / WORD_BITS == |before| - 1 {
          BitOfWordOp(Or, before[|before| - 1], SingleBit(b), j % WORD_BITS);
          BitOfPow2(b, j % WORD_BITS);
        }
      }
    }

    /** Where `set` puts bit `i`: every word more than the size demands moves it by a word. */
    ghost function Target(i: nat): int
      requires Valid()
      reads this
    {
      i + WORD_BITS * (|Words()| - WordsFor(sizeinbits))
    }

    /** Bit `i` needs a new word, or there is a last word to put it in. */
    ghost predicate HasPlace(i: nat)
      requires Valid()
      reads this
    {
      WordsFor(i + 1) > WordsFor(sizeinbits) || LastInUse()
    }

    /** The last word does not come from a run of ones, which would be replaced by the bit alone. */
    ghost predicate Joins(i: nat)
      requires Valid()
      reads this
    {
      HasPlace(i) && (WordsFor(i + 1) > WordsFor(sizeinbits) || Lits(buffer[lastRLW]) > 0 || !RunBit(buffer[lastRLW]))
    }

    /** When `set` adds exactly bit `i`. */
    ghost predicate SetsExactly(i: nat)
      requires Valid()
      reads this
    {
      |Words()| == WordsFor(sizeinbits) && HasPlace(i)
    }

    /**
     Bits are set in increasing order. What becomes of the words of any bitmap, and that on one whose words cover its
     size exactly bit `i` is added if and only if there is no word too many and a word for it to join.
     */
    method Set(i: nat) returns (changed: bool)
      requires Valid()
      modifies this
      ensures Valid() && (changed <==> i >= old(sizeinbits)) && (!changed ==> unchanged(this))
      ensures changed ==> sizeinbits == i + 1 && LastInUse()
      ensures changed && old(HasPlace(i)) ==> |Words()| - WordsFor(i + 1) == old(|Words()| - WordsFor(sizeinbits))
      ensures changed && old(Joins(i)) ==> Adds(old(Words()), old(Target(i)), Words())
      ensures changed && old(HasPlace(i) && !Joins(i)) ==>
        Words() == old(Words())[..|old(Words())| - 1] + [SingleBit(i % WORD_BITS)]
      ensures changed && !old(HasPlace(i)) ==>
        Words() == old(Words() + Fill(RunBit(buffer[lastRLW]), LARGEST_RUN)) + [SingleBit(i % WORD_BITS)]
      ensures changed && old(Covers()) ==> (old(SetsExactly(i)) <==> Adds(old(Words()), i, Words()))
      ensures changed && old(Covers()) ==> (old(SetsExactly(i)) <==> Covers())
      ensures changed && old(Covers() && HasPlace(i)) ==> Adds(old(Words()), old(Target(i)), Words())
      ensures old(Exact()) ==> Exact()
      ensures old(Compact()) ==> Compact()
    {
      if i < sizeinbits { return false; }
      ghost var words, size, bit := Words(), sizeinbits, RunBit(buffer[lastRLW]);
      ghost var hasPlace, covers, exact := HasPlace(i), Covers(), Exact();
      assert exact ==> SetsExactly(i) by {
        if exact { ExactHasPlace(i); }
      }
      assert covers && hasPlace ==> Joins(i) by {
        if covers && hasPlace { CoversJoins(i); }
      }
      SetHigher(i);
      if covers {
        SetOutcome(words, size, i, hasPlace, bit, Words());
      }
      return true;
    }

    /** When the words cover the size, a last word that bit `i` joins does not come from a run of ones. */
    lemma CoversJoins(i: nat)
      requires Valid() && Covers() && i >= sizeinbits && HasPlace(i)
      ensures Joins(i)
    {
      if WordsFor(i + 1) == WordsFor(sizeinbits) && Lits(buffer[lastRLW]) == 0 {
        LastRunIsZero(sizeinbits);
      }
    }

    lemma ExactHasPlace(i: nat)
      requires Valid() && Exact() && i >= sizeinbits
      ensures SetsExactly(i)
    {
      if WordsFor(i + 1) == WordsFor(sizeinbits) {
        assert sizeinbits % WORD_BITS != 0;
      }
    }

    method SetHigher(i: nat)
      requires Valid() && sizeinbits <= i
      modifies this
      ensures Valid() && LastInUse() && sizeinbits == i + 1 && (old(Compact()) ==> Compact())
      ensures old(HasPlace(i)) ==> |Words()| - WordsFor(i + 1) == old(|Words()| - WordsFor(sizeinbits))
      ensures old(Joins(i)) ==> Adds(old(Words()), old(Target(i)), Words())
      ensures old(HasPlace(i) && !Joins(i)) ==>
        Words() == old(Words())[..|old(Words())| - 1] + [SingleBit(i % WORD_BITS)]
      ensures !old(HasPlace(i)) ==>
        Words() == old(Words() + Fill(RunBit(buffer[lastRLW]), LARGEST_RUN)) + [SingleBit(i % WORD_BITS)]
    {
      ghost var words, size, target := Words(), sizeinbits, Target(i);
      var dist := (i + WORD_BITS) / WORD_BITS - (sizeinbits + WORD_BITS - 1) / WORD_BITS;
      sizeinbits := i + 1;
      TargetWord(|words|, size, i, dist);
      if dist > 0 {
        SetBehind(i, dist);
        assert Adds(words, target, Words());
      } else {
        SetInPlace(i);
      }
    }

    lemma TargetWord(n: nat, size: nat, i: nat, dist: nat)
      requires dist == i / WORD_BITS + 1 - WordsFor(size)
      ensures WORD_BITS * (n + dist - 1) + i % WORD_BITS == i + WORD_BITS * (n - WordsFor(size))
    {
      assert i == WORD_BITS * (i / WORD_BITS) + i % WORD_BITS;
    }

    /** The bit gets a word of its own. */
    method SetBehind(i: nat, dist: nat)
      requires Valid() && dist > 0
      modifies this`buffer, this`lastRLW
      ensures Valid() && LastInUse() && |Words()| == |old(Words())| + dist && (old(Compact()) ==> Compact())
      ensures Adds(old(Words()), WORD_BITS * (|old(Words())| + dist - 1) + i % WORD_BITS, Words())
    {
      ghost var words := Words();
      if dist > 1 {
        var _ := FastAddStreamOfEmptyWords(false, dist - 1);
      }
      SingleBitIsGenuine(i % WORD_BITS, ZERO);
      var _ := AddLiteralWord(SingleBit(i % WORD_BITS));
      assert Words() == words + Fill(false, dist - 1) + [SingleBit(i % WORD_BITS)];
      SetInNewWord(words, dist - 1, i % WORD_BITS, Words());
    }

    /** The bit goes into the last word. */
    method SetInPlace(i: nat)
      requires Valid()
      modifies this`buffer, this`lastRLW
      ensures Valid() && LastInUse() && (old(Compact()) ==> Compact())
      ensures old(LastInUse()) ==> |Words()| == |old(Words())| > 0
      ensures old(LastInUse() && (Lits(buffer[lastRLW]) > 0 || !RunBit(buffer[lastRLW]))) ==>
        Adds(old(Words()), WORD_BITS * (|old(Words())| - 1) + i % WORD_BITS, Words())
      ensures old(LastInUse() && Lits(buffer[lastRLW]) == 0 && RunBit(buffer[lastRLW])) ==>
        Words() == old(Words())[..|old(Words())| - 1] + [SingleBit(i % WORD_BITS)]
      ensures !old(LastInUse()) ==>
        Words() == old(Words() + Fill(RunBit(buffer[lastRLW]), LARGEST_RUN)) + [SingleBit(i % WORD_BITS)]
    {
      ghost var words, inUse := Words(), LastInUse();
      var w := SingleBit(i % WORD_BITS);
      SingleBitIsGenuine(i % WORD_BITS, if words == [] then ZERO else words[|words| - 1]);
      if Lits(buffer[lastRLW]) == 0 {
        ghost var zeros := inUse && !RunBit(buffer[lastRLW]);
        assert zeros ==> words[|words| - 1] == ZERO;
        OpenRunWord(w);
        if zeros {
          WordOpConstants(w);
          assert Words() == words[|words| - 1 := WordOp(Or, words[|words| - 1], w)];
          SetInLastWord(words, i % WORD_BITS, Words());
        }
      } else {
        OrLiteralWord(w);
        SetInLastWord(words, i % WORD_BITS, Words());
      }
    }

    /** When the last word of the size is partial, a last word that belongs to a run belongs to a run of zeros. */
    lemma LastRunIsZero(size: nat)
      requires Valid() && LastInUse() && Lits(buffer[lastRLW]) == 0
      requires size % WORD_BITS != 0 && |Words()| >= WordsFor(size)
      requires AllBelow(Words(), size)
      ensures !RunBit(buffer[lastRLW])
    {
      LastRunOfOnes();
    }

    /** The last bit of a bitmap that ends in a run of ones is set. */
    lemma LastRunOfOnes()
      requires Valid() && LastInUse()
      ensures |Words()| > 0
      ensures Lits(buffer[lastRLW]) == 0 && RunBit(buffer[lastRLW]) ==> Member(Words(), |Words()| * WORD_BITS - 1)
    {
      var ws := Words();
      if Lits(buffer[lastRLW]) == 0 && RunBit(buffer[lastRLW]) {
        BitOfAllOnes(WORD_BITS - 1);
        assert ws[|ws| - 1] == ALL_ONES;
        assert (|ws| * WORD_BITS - 1) / WORD_BITS == |ws| - 1 && (|ws| * WORD_BITS - 1) % WORD_BITS == WORD_BITS - 1;
      }
    }

    // ---------- Padding ----------

    /** When padding to `total` bits yields exactly the words that the size demands. */
    ghost predicate PadsExactly(total: nat)
      requires Valid() && total >= sizeinbits
      reads this
    {
      var r, m := sizeinbits % WORD_BITS, (total - sizeinbits) % WORD_BITS;
      r == 0 || Lits(buffer[lastRLW]) > 0 || m == 0 || r + m > WORD_BITS
    }

    /** The bits that remain to be added after the unused bits of a literal last word. */
    ghost function MissingBits(size: nat, total: nat, literal: bool): nat
      requires size <= total
    {
      var avail := if literal && size % WORD_BITS > 0 then WORD_BITS - size % WORD_BITS else 0;
      if total - size > avail then total - size - avail else 0
    }

    lemma PadCount(size: nat, total: nat, literal: bool)
      requires size < total
      ensures WordsFor(size) + WordsFor(MissingBits(size, total, literal)) - WordsFor(total) ==
        if size % WORD_BITS == 0 || literal || (total - size) % WORD_BITS == 0
           || size % WORD_BITS + (total - size) % WORD_BITS > WORD_BITS then 0 else 1
    {
      if literal && size % WORD_BITS > 0 {
        PadCountLiteral(size, total);
      } else {
        PadCountRun(size / WORD_BITS, size % WORD_BITS, (total - size) / WORD_BITS, (total - size) % WORD_BITS);
      }
    }

    lemma PadCountRun(q: nat, r: nat, d: nat, m: nat)
      requires r < WORD_BITS && m < WORD_BITS
      ensures WordsFor(q * WORD_BITS + r) + WordsFor(d * WORD_BITS + m)
        - WordsFor(q * WORD_BITS + r + (d * WORD_BITS + m)) == if r == 0 || m == 0 || r + m > WORD_BITS then 0 else 1
    {
      WholeWords(q, r);
      WholeWords(d, m);
      WholeWords(q + d, r + m);
      FewWords(r);
      FewWords(m);
      FewWords(r + m);
    }

    lemma FewWords(n: nat)
      requires n < 2 * WORD_BITS
      ensures WordsFor(n) == if n == 0 then 0 else if n <= WORD_BITS then 1 else 2
    {
    }

    lemma PadCountLiteral(size: nat, total: nat)
      requires size < total && size % WORD_BITS > 0
      ensures WordsFor(size) + WordsFor(MissingBits(size, total, true)) == WordsFor(total)
    {
      var q, missing := size / WORD_BITS, MissingBits(size, total, true);
      WholeWords(q, size % WORD_BITS);
      if missing > 0 {
        assert total == (q + 1) * WORD_BITS + missing;
        WholeWords(q + 1, missing);
      } else {
        WholeWords(q, total - q * WORD_BITS);
      }
    }

    lemma PadMembers(words: seq<Word>, n: nat)
      ensures forall i: nat :: Member(words + Fill(false, n), i) <==> Member(words, i)
    {
      forall i: nat ensures Member(words + Fill(false, n), i) <==> Member(words, i) { MemberOfZeros(words, n, i); }
    }

    /** Adds zeros up to `total` bits. */
    method PadWithZeroes(total: nat) returns (added: nat)
      requires Valid() && Covers() && total >= sizeinbits
      modifies this
      ensures Valid() && Covers() && sizeinbits == total
      ensures forall i: nat :: Member(Words(), i) <==> old(Member(Words(), i))
      ensures Dirty() == old(Dirty())
      ensures |Words()| - WordsFor(total) ==
        old(|Words()| - WordsFor(sizeinbits)) + (if total == old(sizeinbits) || old(PadsExactly(total)) then 0 else 1)
      ensures old(Exact()) && |Words()| == WordsFor(total) ==> Exact()
      ensures old(LastInUse()) || |Words()| > |old(Words())| ==> LastInUse()
      ensures |Words()| > |old(Words())| ==> Lits(buffer[lastRLW]) == 0
    {
      if total <= sizeinbits { return 0; }
      ghost var words, size, literal := Words(), sizeinbits, Lits(buffer[lastRLW]) > 0;
      added := AddZerosUpTo(total);
      PadMembers(words, WordsFor(MissingBits(size, total, literal)));
      PadCount(size, total, literal);
    }

    method AddZerosUpTo(total: nat) returns (added: nat)
      requires Valid() && total > sizeinbits
      modifies this
      ensures Valid() && sizeinbits == total && Dirty() == old(Dirty())
      ensures var n := MissingBits(old(sizeinbits), total, old(Lits(buffer[lastRLW]) > 0));
        && Words() == old(Words()) + Fill(false, WordsFor(n))
        && (old(LastInUse()) || n > 0 ==> LastInUse()) && (n > 0 ==> Lits(buffer[lastRLW]) == 0)
    {
      var missing := UseLastLiteral(total);
      added := AddZerosFor(missing);
      sizeinbits := total;
    }

    /** The bits to be added after those that fit into a literal last word. */
    method UseLastLiteral(total: nat) returns (missing: nat)
      requires Valid() && total > sizeinbits
      modifies this`sizeinbits
      ensures missing == MissingBits(old(sizeinbits), total, Lits(buffer[lastRLW]) > 0)
    {
      missing := total - sizeinbits;
      if Lits(buffer[lastRLW]) > 0 {
        var remain := sizeinbits % WORD_BITS;
        if remain > 0 {
          var avail := WORD_BITS - remain;
          missing := if missing > avail then missing - avail else 0;
          sizeinbits := sizeinbits + avail;
        }
      }
    }

    /** The zero words for `missing` bits. */
    method AddZerosFor(missing: nat) returns (added: nat)
      requires Valid()
      modifies this
      ensures Valid() && Words() == old(Words()) + Fill(false, WordsFor(missing)) && Dirty() == old(Dirty())
      ensures old(LastInUse()) || missing > 0 ==> LastInUse()
      ensures missing > 0 ==> Lits(buffer[lastRLW]) == 0
    {
      added := 0;
      assert Words() == Words() + Fill(false, 0);
      if missing > 0 {
        var wordsToAdd := missing / WORD_BITS;
        if missing % WORD_BITS != 0 {
          wordsToAdd := wordsToAdd + 1;
        }
        added := AddStreamOfEmptyWords(false, wordsToAdd);
      }
    }

    // ---------- Appending a bitmap ----------

    /**
     The words of `x` behind those of this bitmap; refused when the size is not a number of whole words. The bits of
     `x` are shifted by the words in front of them, which is the size when there is no word too many.
     */
    method Append(x: EwahBoolArray) returns (ok: bool)
      requires Valid() && x.Valid() && x != this
      modifies this
      ensures ok <==> old(sizeinbits) % WORD_BITS == 0
      ensures !ok ==> unchanged(this)
      ensures ok ==> Valid() && sizeinbits == old(sizeinbits) + x.sizeinbits && Words() == old(Words()) + x.Words()
      ensures ok ==> Dirty() == old(Dirty()) + x.Dirty()
      ensures ok ==> Follows(old(Words()), x.Words(), Words())
      ensures ok && old(Exact()) && x.Exact() ==> Exact()
      ensures ok && old(Exact()) ==> WORD_BITS * |old(Words())| == old(sizeinbits)
    {
      if sizeinbits % WORD_BITS != 0 { return false; }
      ghost var words, size, exact := Words(), sizeinbits, Exact() && x.Exact();
      AppendBuffer(x);
      BitsFollow(words, x.Words());
      if exact {
        SizesAdd(words, size, x.Words(), x.sizeinbits);
      }
      ok := true;
    }

    method AppendBuffer(x: EwahBoolArray)
      requires Valid() && x.Valid() && x != this
      modifies this
      ensures Valid() && Words() == old(Words()) + x.Words() && sizeinbits == old(sizeinbits) + x.sizeinbits
      ensures Dirty() == old(Dirty()) + x.Dirty()
      ensures LastInUse() <==> x.LastInUse()
    {
      sizeinbits := sizeinbits + x.sizeinbits;
      WholeBuffer();
      ghost var words, dirty := Words(), Dirty();
      if RunLen(buffer[lastRLW]) == 0 && Lits(buffer[lastRLW]) == 0 {
        DropEmptyMarker();
        lastRLW := x.lastRLW + |buffer| - 1;
        buffer := buffer[..|buffer| - 1];
      } else {
        lastRLW := x.lastRLW + |buffer|;
      }
      ghost var front := buffer;
      buffer := buffer + x.buffer;
      Appended(x, front, words);
      AppendedDirty(x, front, dirty);
    }

    /** An empty last marker describes no words. */
    lemma DropEmptyMarker()
      requires Valid() && RunLen(buffer[lastRLW]) == 0 && Lits(buffer[lastRLW]) == 0
      ensures lastRLW == |buffer| - 1 && Parses(buffer[..lastRLW]) && Decode(buffer[..lastRLW]) == Words()
      ensures Literals(buffer[..lastRLW]) == Dirty()
    {
    }

    lemma Appended(x: EwahBoolArray, front: seq<Word>, words: seq<Word>)
      requires x.Valid() && Parses(front) && Decode(front) == words
      requires buffer == front + x.buffer && lastRLW == |front| + x.lastRLW
      ensures Valid() && Words() == words + x.Words() && buffer[lastRLW] == x.buffer[x.lastRLW]
    {
      var p, lits := x.buffer[..x.lastRLW], x.buffer[x.lastRLW + 1..];
      assert buffer[..lastRLW] == front + p && buffer[lastRLW + 1..] == lits;
      assert buffer[lastRLW] == x.buffer[x.lastRLW];
      ParsesConcat(front, p);
      FillAfter(words, Decode(p), Fill(RunBit(buffer[lastRLW]), RunLen(buffer[lastRLW])), lits);
    }

    lemma AppendedDirty(x: EwahBoolArray, front: seq<Word>, dirty: seq<Word>)
      requires Valid() && x.Valid() && Parses(front) && Literals(front) == dirty
      requires buffer == front + x.buffer && lastRLW == |front| + x.lastRLW
      ensures Dirty() == dirty + x.Dirty()
    {
      var p, lits := x.buffer[..x.lastRLW], x.buffer[x.lastRLW + 1..];
      assert buffer[..lastRLW] == front + p && buffer[lastRLW + 1..] == lits;
      LiteralsConcat(front, p);
    }

    lemma FillAfter(words: seq<Word>, more: seq<Word>, run: seq<Word>, lits: seq<Word>)
      ensures (words + more) + run + lits == words + (more + run + lits)
    {
    }
  }

  /** The bits of appended words. */
  lemma MemberOfAppended(a: seq<Word>, b: seq<Word>, i: nat)
    ensures Member(a + b, i) <==> if i < WORD_BITS * |a| then Member(a, i) else Member(b, i - WORD_BITS * |a|)
  {
    if i >= WORD_BITS * |a| {
      assert (i - WORD_BITS * |a|) / WORD_BITS == i / WORD_BITS - |a|;
    }
  }

  /** The bits of `b`, shifted by the words of `a`, come behind those of `a`. */
  ghost predicate Follows(a: seq<Word>, b: seq<Word>, both: seq<Word>) {
    forall i: nat :: Member(both, i) <==>
      if i < WORD_BITS * |a| then Member(a, i) else Member(b, i - WORD_BITS * |a|)
  }

  lemma BitsFollow(a: seq<Word>, b: seq<Word>)
    ensures Follows(a, b, a + b)
  {
    forall i: nat ensures Member(a + b, i) <==>
      if i < WORD_BITS * |a| then Member(a, i) else Member(b, i - WORD_BITS * |a|)
    {
      MemberOfAppended(a, b, i);
    }
  }

  /** Bits behind a number of whole words. */
  lemma SizesAdd(a: seq<Word>, size: nat, b: seq<Word>, more: nat)
    requires size % WORD_BITS == 0 && |a| == WordsFor(size) && |b| == WordsFor(more)
    requires AllBelow(a, size) && AllBelow(b, more)
    ensures |a + b| == WordsFor(size + more) && AllBelow(a + b, size + more) && WORD_BITS * |a| == size
    ensures (size + more) % WORD_BITS == more % WORD_BITS
  {
    WholeSize(size, more);
    MembersAdd(a, size, b, more);
  }

  lemma WholeSize(size: nat, more: nat)
    requires size % WORD_BITS == 0
    ensures WORD_BITS * WordsFor(size) == size && (size + more) % WORD_BITS == more % WORD_BITS
    ensures WordsFor(size + more) == WordsFor(size) + WordsFor(more)
  {
    var q := size / WORD_BITS;
    assert size == q * WORD_BITS + 0;
    WholeWords(q, 0);
    WholeWords(q, more);
  }

  lemma MembersAdd(a: seq<Word>, size: nat, b: seq<Word>, more: nat)
    requires size == WORD_BITS * |a| && AllBelow(a, size) && AllBelow(b, more)
    ensures AllBelow(a + b, size + more)
  {
    forall i: nat | Member(a + b, i) ensures i < size + more {
      MemberOfAppended(a, b, i);
    }
  }

  lemma WholeWords(q: nat, r: nat)
    ensures WordsFor(q * WORD_BITS + r) == q + WordsFor(r)
  {
    assert q * WORD_BITS + r + WORD_BITS - 1 == (r + WORD_BITS - 1) + WORD_BITS * q;
  }

  /** The set holds bit `i` besides the bits of `before`. */
  ghost predicate Adds(before: seq<Word>, i: int, after: seq<Word>) {
    forall j: nat :: Member(after, j) <==> Member(before, j) || j == i
  }

  ghost predicate AllBelow(ws: seq<Word>, size: nat) {
    forall j: nat :: Member(ws, j) ==> j < size
  }

  /** A bit is added to the right place exactly when there is no word too many, and else behind the size. */
  lemma SetAtTarget(before: seq<Word>, size: nat, i: nat, after: seq<Word>)
    requires WordsFor(size) <= |before| && size <= i && AllBelow(before, size)
    requires Adds(before, i + WORD_BITS * (|before| - WordsFor(size)), after)
    ensures |before| == WordsFor(size) <==> Adds(before, i, after)
    ensures |before| == WordsFor(size) <==> AllBelow(after, i + 1)
  {
    var target := i + WORD_BITS * (|before| - WordsFor(size));
    assert Member(after, target) && !Member(before, i) && !Member(before, target);
  }

  /** A bit behind a run of the largest count is behind the size. */
  lemma SetOutOfPlace(before: seq<Word>, size: nat, i: nat, bit: bool, after: seq<Word>)
    requires WordsFor(i + 1) <= |before| && size <= i && AllBelow(before, size)
    requires after == before + Fill(bit, LARGEST_RUN) + [SingleBit(i % WORD_BITS)]
    ensures !Adds(before, i, after) && !AllBelow(after, i + 1)
  {
    var target := WORD_BITS * (|before| + LARGEST_RUN) + i % WORD_BITS;
    BitOfPow2(i % WORD_BITS, i % WORD_BITS);
    assert Member(after, target) && target > i && !Member(before, target);
  }

  /** What `set` does to the words, and that it is right exactly when there is no word too many and a place. */
  lemma SetOutcome(before: seq<Word>, size: nat, i: nat, hasPlace: bool, bit: bool, after: seq<Word>)
    requires WordsFor(size) <= |before| && size <= i && AllBelow(before, size)
    requires hasPlace ==> Adds(before, i + WORD_BITS * (|before| - WordsFor(size)), after)
    requires !hasPlace ==> WordsFor(i + 1) <= |before|
    requires !hasPlace ==> after == before + Fill(bit, LARGEST_RUN) + [SingleBit(i % WORD_BITS)]
    ensures (|before| == WordsFor(size) && hasPlace) <==> Adds(before, i, after)
    ensures (|before| == WordsFor(size) && hasPlace) <==> AllBelow(after, i + 1)
  {
    if hasPlace {
      SetAtTarget(before, size, i, after);
    } else {
      SetOutOfPlace(before, size, i, bit, after);
    }
  }

  /** Position `k` is larger than all before it. */
  ghost predicate Rises(ps: seq<nat>, k: nat) {
    k < |ps| && forall i :: 0 <= i < k ==> ps[i] < ps[k]
  }

  /** The bits are the positions among the first `n` that are larger than all before them; `size` is behind them. */
  ghost predicate HoldsRising(ws: seq<Word>, size: nat, ps: seq<nat>, n: nat)
    requires n <= |ps|
  {
    && (forall i :: 0 <= i < n ==> ps[i] < size)
    && (size == 0 || exists i :: 0 <= i < n && ps[i] == size - 1)
    && forall j: nat :: Member(ws, j) <==> exists k :: 0 <= k < n && Rises(ps, k) && ps[k] == j
  }

  lemma HoldsOneMore(ws: seq<Word>, size: nat, ps: seq<nat>, n: nat, ws': seq<Word>, size': nat)
    requires n < |ps| && HoldsRising(ws, size, ps, n)
    requires if ps[n] < size then ws' == ws && size' == size else Adds(ws, ps[n], ws') && size' == ps[n] + 1
    ensures HoldsRising(ws', size', ps, n + 1)
  {
    assert ps[n] >= size <==> Rises(ps, n);
    forall j: nat ensures Member(ws', j) <==> exists k :: 0 <= k < n + 1 && Rises(ps, k) && ps[k] == j {
      if Member(ws, j) {
        var k :| 0 <= k < n && Rises(ps, k) && ps[k] == j;
      }
    }
  }

  /**
   Sets positions one after the other in an empty bitmap. A position that is not larger than all before it is
   ignored, so strictly increasing positions become exactly the set bits.
   */
  method BitmapOf(ps: seq<nat>) returns (a: EwahBoolArray)
    ensures a.Valid() && a.Exact() && a.Compact()
    ensures forall j: nat :: Member(a.Words(), j) <==> exists k :: 0 <= k < |ps| && Rises(ps, k) && ps[k] == j
    ensures (forall k :: 0 <= k < |ps| ==> Rises(ps, k)) ==> forall j: nat :: Member(a.Words(), j) <==> j in ps
  {
    a := new EwahBoolArray();
    var n := 0;
    while n < |ps|
      invariant 0 <= n <= |ps| && fresh(a) && a.Valid() && a.Exact() && a.Compact()
      invariant HoldsRising(a.Words(), a.sizeinbits, ps, n)
    {
      ghost var words, size := a.Words(), a.sizeinbits;
      var _ := a.Set(ps[n]);
      HoldsOneMore(words, size, ps, n, a.Words(), a.sizeinbits);
      n := n + 1;
    }
  }

  /**
   Padding twice within the first word leaves two words for 10 bits. Setting bit 10 then sets bit 42, and setting bit
   11 after it sets bit 43.
   */
  method SetAfterPadding() returns (a: EwahBoolArray)
    ensures a.Valid() && a.sizeinbits == 12 && !a.Covers()
    ensures forall j: nat :: Member(a.Words(), j) <==> j == 42 || j == 43
  {
    a := new EwahBoolArray();
    var _ := a.PadWithZeroes(5);
    var _ := a.PadWithZeroes(10);
    assert |a.Words()| == 2 && a.LastInUse();
    ghost var words := a.Words();
    var _ := a.Set(10);
    assert Adds(words, 42, a.Words());
    words := a.Words();
    assert |words| == 2;
    a.LastRunOfOnes();
    assert !Member(words, 63) && a.Joins(11);
    var _ := a.Set(11);
    assert Adds(words, 43, a.Words());
  }
}
