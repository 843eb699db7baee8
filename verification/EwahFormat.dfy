/** The compressed format: a buffer of markers, each followed by its literal words, and what it decodes to. */
module EwahFormat {
  import opened Common
  import opened EwahWord

  function RunWord(b: bool): Word { if b then ALL_ONES else ZERO }

  function Fill(b: bool, n: nat): (r: seq<Word>)
    ensures |r| == n && forall i :: 0 <= i < n ==> r[i] == RunWord(b)
  {
    seq(n, _ => RunWord(b))
  }

  /** The words that the first marker and its literals stand for. */
  function Head(buf: seq<Word>): seq<Word>
    requires buf != [] && 1 + Lits(buf[0]) <= |buf|
  {
    Fill(RunBit(buf[0]), RunLen(buf[0])) + HeadLiterals(buf)
  }

  /** The literals of the first marker. */
  function HeadLiterals(buf: seq<Word>): seq<Word>
    requires buf != [] && 1 + Lits(buf[0]) <= |buf|
  {
    buf[1..1 + Lits(buf[0])]
  }

  /** The buffer behind the first marker and its literals. */
  function Tail(buf: seq<Word>): (r: seq<Word>)
    requires buf != [] && 1 + Lits(buf[0]) <= |buf|
    ensures |r| < |buf|
  {
    buf[1 + Lits(buf[0])..]
  }

  predicate Parses(buf: seq<Word>) {
    buf == [] || (1 + Lits(buf[0]) <= |buf| && Parses(Tail(buf)))
  }

  function Decode(buf: seq<Word>): seq<Word>
    requires Parses(buf)
  {
    if buf == [] then [] else Head(buf) + Decode(Tail(buf))
  }

  lemma HeadTailConcat(p: seq<Word>, q: seq<Word>)
    requires p != [] && 1 + Lits(p[0]) <= |p|
    ensures Head(p + q) == Head(p) && HeadLiterals(p + q) == HeadLiterals(p) && Tail(p + q) == Tail(p) + q
  {
    assert HeadLiterals(p + q) == HeadLiterals(p);
  }

  lemma {:induction false} ParsesBoth(p: seq<Word>, q: seq<Word>)
    requires Parses(p)
    ensures Parses(p + q) == Parses(q)
  {
    if p == [] {
      assert p + q == q;
    } else {
      HeadTailConcat(p, q);
      ParsesBoth(Tail(p), q);
    }
  }

  lemma DecodeStep(w: seq<Word>, h: seq<Word>, t: seq<Word>)
    requires w != [] && Parses(w) && h == Head(w) && t == Tail(w)
    ensures Parses(t) && Decode(w) == h + Decode(t)
  {
  }

  lemma {:induction false} DecodeBoth(p: seq<Word>, q: seq<Word>)
    requires Parses(p) && Parses(q) && Parses(p + q)
    ensures Decode(p + q) == Decode(p) + Decode(q)
  {
    if p == [] {
      assert p + q == q;
      assert Decode(p) == [];
    } else {
      ParsesBoth(Tail(p), q);
      DecodeBoth(Tail(p), q);
      DecodeJoin(p, q);
    }
  }

  lemma DecodeJoin(p: seq<Word>, q: seq<Word>)
    requires p != [] && Parses(p) && Parses(q) && Parses(p + q) && Parses(Tail(p) + q)
    requires Decode(Tail(p) + q) == Decode(Tail(p)) + Decode(q)
    ensures Decode(p + q) == Decode(p) + Decode(q)
  {
    HeadTailConcat(p, q);
    DecodeStep(p + q, Head(p), Tail(p) + q);
    DecodeStep(p, Head(p), Tail(p));
    Regroup(Head(p), Decode(Tail(p)), Decode(q));
  }

  lemma ParsesConcat(p: seq<Word>, q: seq<Word>)
    requires Parses(p)
    ensures Parses(p + q) == Parses(q)
    ensures Parses(q) ==> Decode(p + q) == Decode(p) + Decode(q)
  {
    ParsesBoth(p, q);
    if Parses(q) {
      DecodeBoth(p, q);
    }
  }

  // ---------- Literals ----------

  /** A word that no run can hold. */
  predicate Genuine(w: Word) { w != ZERO && w != ALL_ONES }

  predicate AllGenuine(ws: seq<Word>) {
    forall i :: 0 <= i < |ws| ==> Genuine(ws[i])
  }

  /** The words that are stored as literals. */
  function Literals(buf: seq<Word>): seq<Word>
    requires Parses(buf)
  {
    if buf == [] then [] else HeadLiterals(buf) + Literals(Tail(buf))
  }

  function Markers(buf: seq<Word>): nat
    requires Parses(buf)
  {
    if buf == [] then 0 else 1 + Markers(Tail(buf))
  }

  lemma LiteralsStep(w: seq<Word>, lits: seq<Word>, t: seq<Word>)
    requires w != [] && Parses(w) && lits == HeadLiterals(w) && t == Tail(w)
    ensures Parses(t) && Literals(w) == lits + Literals(t) && Markers(w) == 1 + Markers(t)
    ensures AllGenuine(Literals(w)) ==> AllGenuine(lits) && AllGenuine(Literals(t))
  {
    if AllGenuine(Literals(w)) {
      assert forall i :: 0 <= i < |lits| ==> lits[i] == Literals(w)[i];
      assert forall i :: 0 <= i < |Literals(t)| ==> Literals(t)[i] == Literals(w)[|lits| + i];
    }
  }

  lemma LiteralsConcat(p: seq<Word>, q: seq<Word>)
    requires Parses(p) && Parses(q)
    ensures Parses(p + q) && Literals(p + q) == Literals(p) + Literals(q)
  {
    ParsesBoth(p, q);
    LiteralsBoth(p, q);
  }

  lemma {:induction false} LiteralsBoth(p: seq<Word>, q: seq<Word>)
    requires Parses(p) && Parses(q) && Parses(p + q)
    ensures Literals(p + q) == Literals(p) + Literals(q)
  {
    if p == [] {
      assert p + q == q;
      assert Literals(p) == [];
    } else {
      ParsesBoth(Tail(p), q);
      LiteralsBoth(Tail(p), q);
      LiteralsJoin(p, q);
    }
  }

  lemma LiteralsJoin(p: seq<Word>, q: seq<Word>)
    requires p != [] && Parses(p) && Parses(q) && Parses(p + q) && Parses(Tail(p) + q)
    requires Literals(Tail(p) + q) == Literals(Tail(p)) + Literals(q)
    ensures Literals(p + q) == Literals(p) + Literals(q)
  {
    HeadTailConcat(p, q);
    LiteralsStep(p + q, HeadLiterals(p), Tail(p) + q);
    LiteralsStep(p, HeadLiterals(p), Tail(p));
    Regroup(HeadLiterals(p), Literals(Tail(p)), Literals(q));
  }

  /** The words that no run can hold, in their order. */
  function Genuines(ws: seq<Word>): seq<Word> {
    if ws == [] then [] else (if Genuine(ws[0]) then [ws[0]] else []) + Genuines(ws[1..])
  }

  lemma {:induction false} GenuinesConcat(a: seq<Word>, b: seq<Word>)
    ensures Genuines(a + b) == Genuines(a) + Genuines(b)
  {
    if a == [] {
      assert a + b == b;
    } else {
      assert (a + b)[1..] == a[1..] + b && (a + b)[0] == a[0];
      GenuinesConcat(a[1..], b);
      Regroup(if Genuine(a[0]) then [a[0]] else [], Genuines(a[1..]), Genuines(b));
    }
  }

  lemma {:induction false} GenuinesOfFill(b: bool, n: nat)
    ensures Genuines(Fill(b, n)) == []
  {
    if n > 0 {
      assert Fill(b, n)[1..] == Fill(b, n - 1);
      GenuinesOfFill(b, n - 1);
    }
  }

  lemma {:induction false} GenuinesOfAll(ws: seq<Word>)
    requires AllGenuine(ws)
    ensures Genuines(ws) == ws
  {
    if ws != [] { GenuinesOfAll(ws[1..]); }
  }

  /**
   When every literal is a word that no run can hold, the literals are exactly these words, and a buffer consists of
   them and its markers.
   */
  lemma {:induction false} LiteralsAreGenuines(buf: seq<Word>)
    requires Parses(buf) && AllGenuine(Literals(buf))
    ensures Literals(buf) == Genuines(Decode(buf)) && |buf| == Markers(buf) + |Genuines(Decode(buf))|
  {
    if buf != [] {
      LiteralsStep(buf, HeadLiterals(buf), Tail(buf));
      LiteralsAreGenuines(Tail(buf));
      GenuinesOfHead(buf);
      DecodeStep(buf, Head(buf), Tail(buf));
      GenuinesConcat(Head(buf), Decode(Tail(buf)));
    }
  }

  lemma GenuinesOfHead(buf: seq<Word>)
    requires buf != [] && 1 + Lits(buf[0]) <= |buf| && AllGenuine(HeadLiterals(buf))
    ensures Genuines(Head(buf)) == HeadLiterals(buf)
  {
    var lits := HeadLiterals(buf);
    GenuinesOfAll(lits);
    GenuinesOfFill(RunBit(buf[0]), RunLen(buf[0]));
    GenuinesConcat(Fill(RunBit(buf[0]), RunLen(buf[0])), lits);
  }

  // ---------- Bits of a sequence of words ----------

  predicate Member(ws: seq<Word>, i: nat) {
    i / WORD_BITS < |ws| && Bit(ws[i / WORD_BITS], i % WORD_BITS)
  }

  /** The operation word by word, as far as both go. */
  function ZipOp(op: Op, a: seq<Word>, b: seq<Word>): (r: seq<Word>)
    ensures |r| == Min(|a|, |b|)
    ensures forall i :: 0 <= i < |r| ==> r[i] == WordOp(op, a[i], b[i])
  {
    seq(Min(|a|, |b|), i requires 0 <= i < Min(|a|, |b|) => WordOp(op, a[i], b[i]))
  }

  lemma ZipSplit(op: Op, a: seq<Word>, a': seq<Word>, b: seq<Word>, b': seq<Word>)
    requires |a| == |b|
    ensures ZipOp(op, a + a', b + b') == ZipOp(op, a, b) + ZipOp(op, a', b')
  {
  }

  lemma ZipCommutes(op: Op, a: seq<Word>, b: seq<Word>)
    ensures ZipOp(op, a, b) == ZipOp(op, b, a)
  {
    forall i | 0 <= i < Min(|a|, |b|) ensures WordOp(op, a[i], b[i]) == WordOp(op, b[i], a[i]) {
      WordOpCommutes(op, a[i], b[i]);
    }
  }

  function NotAll(ws: seq<Word>): (r: seq<Word>)
    ensures |r| == |ws| && forall i :: 0 <= i < |ws| ==> r[i] == NotWord(ws[i])
  {
    seq(|ws|, i requires 0 <= i < |ws| => NotWord(ws[i]))
  }

  /** A run against any words. */
  lemma ZipRun(op: Op, b: bool, ws: seq<Word>)
    ensures ZipOp(op, Fill(b, |ws|), ws) ==
      match op
      case Or => (if b then Fill(true, |ws|) else ws)
      case And => (if b then ws else Fill(false, |ws|))
      case Xor => (if b then NotAll(ws) else ws)
  {
    forall i | 0 <= i < |ws|
      ensures WordOp(op, RunWord(b), ws[i]) ==
        match op
        case Or => (if b then ALL_ONES else ws[i])
        case And => (if b then ws[i] else ZERO)
        case Xor => (if b then NotWord(ws[i]) else ws[i])
    {
      WordOpConstants(ws[i]);
    }
  }

  lemma MemberOfZip(op: Op, a: seq<Word>, b: seq<Word>, i: nat)
    requires i / WORD_BITS < Min(|a|, |b|)
    ensures Member(ZipOp(op, a, b), i) == op.Apply(Member(a, i), Member(b, i))
  {
    BitOfWordOp(op, a[i / WORD_BITS], b[i / WORD_BITS], i % WORD_BITS);
  }

  lemma MemberOfZeros(ws: seq<Word>, n: nat, i: nat)
    ensures Member(ws + Fill(false, n), i) == Member(ws, i)
  {
    if |ws| <= i / WORD_BITS < |ws| + n {
      BitOfZero(i % WORD_BITS);
    }
  }

  /** The number of words for `bits` bits. */
  function WordsFor(bits: nat): nat { (bits + WORD_BITS - 1) / WORD_BITS }

  // ---------- Buffered iteration ----------

  /**
   An iterator that has read a marker, with the fields buffered and partly consumed. `pointer` is behind the
   literals of the marker.
   */
  datatype Cursor = Cursor(buf: seq<Word>, pointer: nat, bit: bool, run: nat, lits: nat)
  {
    predicate Ok() {
      lits <= pointer <= |buf| && Parses(buf[pointer..])
    }

    function Size(): nat { run + lits }

    /** The literal words that have not been consumed. */
    function Dirty(): seq<Word>
      requires Ok()
    {
      buf[pointer - lits..pointer]
    }

    /** What is left of the segment. */
    function Segment(): (r: seq<Word>)
      requires Ok()
      ensures |r| == Size()
    {
      Fill(bit, run) + Dirty()
    }

    /** The words behind the segment. */
    function Rest(): seq<Word>
      requires Ok()
    {
      Decode(buf[pointer..])
    }

    /** No run could hold a literal of the segment or of the markers behind it. */
    predicate Compact()
      requires Ok()
    {
      AllGenuine(Dirty()) && AllGenuine(Literals(buf[pointer..]))
    }

    /** discardFirstWords of the buffered marker. */
    function Discard(x: nat): (r: Cursor)
      requires Ok() && x <= Size()
      ensures r.Ok() && r.Size() == Size() - x && r.buf == buf && r.pointer == pointer
    {
      if run >= x then this.(run := run - x)
      else this.(run := 0, lits := lits - (x - run))
    }

    lemma DiscardSegment(x: nat)
      requires Ok() && x <= Size()
      ensures Discard(x).Segment() == Segment()[x..]
      ensures Compact() ==> Discard(x).Compact()
    {
      assert forall i :: 0 <= i < |Discard(x).Dirty()| ==>
        Discard(x).Dirty()[i] == Dirty()[|Dirty()| - |Discard(x).Dirty()| + i];
    }

    lemma NoRun()
      requires Ok() && run == 0
      ensures Segment() == Dirty()
    {
    }

    predicate HasNext() { pointer < |buf| }

    /** Reads the next marker and moves behind its literals. */
    function Next(): (r: Cursor)
      requires Ok() && HasNext()
      ensures r.Ok() && r.buf == buf && r.pointer > pointer
      ensures r.Segment() + r.Rest() == Rest()
    {
      var m := buf[pointer];
      var r := Cursor(buf, pointer + Lits(m) + 1, RunBit(m), RunLen(m), Lits(m));
      var rest := buf[pointer..];
      assert rest[1..1 + Lits(m)] == buf[pointer + 1..pointer + 1 + Lits(m)];
      assert rest[1 + Lits(m)..] == buf[pointer + 1 + Lits(m)..];
      assert Head(rest) == r.Segment() && Tail(rest) == buf[r.pointer..];
      r
    }

    lemma NextCompact()
      requires Ok() && HasNext() && Compact()
      ensures Next().Compact()
    {
      var rest := buf[pointer..];
      LiteralsStep(rest, HeadLiterals(rest), Tail(rest));
      var m := buf[pointer];
      assert rest[0] == m && Next().pointer == pointer + Lits(m) + 1 && Next().lits == Lits(m);
      assert rest[1..1 + Lits(m)] == buf[pointer + 1..pointer + 1 + Lits(m)];
      assert rest[1 + Lits(m)..] == buf[pointer + 1 + Lits(m)..];
    }
  }
}
