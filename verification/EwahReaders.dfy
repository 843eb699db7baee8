/**
 The readers of ewah.h: get, numberOfOnes, appendRowIDs and toArray, and the one list of positions on which they
 agree.
 */
module EwahReaders {
  import opened Common
  import opened EwahWord
  import opened EwahFormat
  import opened Ewah

  // ---------- The positions of the set bits ----------

  /** `s` holds the positions of the bits of `ws`, counted from `base`, in ascending order. */
  ghost predicate Lists(s: seq<nat>, ws: seq<Word>, base: nat) {
    && Ascending(s)
    && forall p: nat :: p in s <==> p >= base && Member(ws, p - base)
  }

  lemma {:induction false} AscendingUnique(s: seq<nat>, t: seq<nat>)
    requires Ascending(s) && Ascending(t)
    requires (forall p :: p in s ==> p in t) && (forall p :: p in t ==> p in s)
    ensures s == t
  {
    assert (s != [] ==> s[0] in t) && (t != [] ==> t[0] in s);
    if s != [] && t != [] {
      var a, s', b, t' := s[|s| - 1], s[..|s| - 1], t[|t| - 1], t[..|t| - 1];
      assert a in t && b in s;
      assert s == s' + [a] && t == t' + [b];
      forall p | p in s' ensures p in t' { assert p in s && p != a; }
      forall p | p in t' ensures p in s' { assert p in t && p != b; }
      AscendingUnique(s', t');
    }
  }

  /** Only one list holds the positions. */
  lemma ListsUnique(s: seq<nat>, t: seq<nat>, ws: seq<Word>, base: nat)
    requires Lists(s, ws, base) && Lists(t, ws, base)
    ensures s == t
  {
    AscendingUnique(s, t);
  }

  /** The positions below `n`. */
  ghost function Below(ws: seq<Word>, n: nat, base: nat): seq<nat> {
    if n == 0 then []
    else if Member(ws, n - 1) then Below(ws, n - 1, base) + [base + n - 1]
    else Below(ws, n - 1, base)
  }

  ghost function Positions(ws: seq<Word>, base: nat): seq<nat> {
    Below(ws, WORD_BITS * |ws|, base)
  }

  lemma {:induction false} BelowAre(ws: seq<Word>, n: nat, base: nat)
    ensures Ascending(Below(ws, n, base))
    ensures forall p: nat :: p in Below(ws, n, base) <==> base <= p < base + n && Member(ws, p - base)
  {
    if n > 0 {
      BelowAre(ws, n - 1, base);
      var s := Below(ws, n - 1, base);
      assert forall i :: 0 <= i < |s| ==> s[i] in s;
    }
  }

  lemma PositionsAre(ws: seq<Word>, base: nat)
    ensures Lists(Positions(ws, base), ws, base)
  {
    BelowAre(ws, WORD_BITS * |ws|, base);
  }

  /** Positions without a bit are skipped. */
  lemma {:induction false} SkipZeros(ws: seq<Word>, lo: nat, hi: nat, base: nat)
    requires lo <= hi && forall p: nat :: lo <= p < hi ==> !Member(ws, p)
    ensures Below(ws, lo, base) == Below(ws, hi, base)
    decreases hi - lo
  {
    if lo < hi {
      SkipZeros(ws, lo, hi - 1, base);
    }
  }

  // ---------- Reading a buffer ----------

  /** Behind the marker and the literals at `pointer`. */
  function Behind(buf: seq<Word>, pointer: nat): nat
    requires pointer < |buf|
  {
    pointer + 1 + Lits(buf[pointer])
  }

  /** Word `c` of `ws` is the first one that the buffer describes from `pointer` on. */
  ghost predicate At(ws: seq<Word>, c: nat, buf: seq<Word>, pointer: nat)
    decreases |buf| - pointer
  {
    if pointer >= |buf| then pointer == |buf| && c == |ws|
    else
      && Marks(ws, c, buf, pointer)
      && At(ws, c + RunLen(buf[pointer]) + Lits(buf[pointer]), buf, Behind(buf, pointer))
  }

  /** The marker at `pointer` and its literals describe the words from `c` on. */
  ghost predicate Marks(ws: seq<Word>, c: nat, buf: seq<Word>, pointer: nat)
    requires pointer < |buf|
  {
    var m := buf[pointer];
    var d := c + RunLen(m);
    && Behind(buf, pointer) <= |buf| && d + Lits(m) <= |ws|
    && (forall i :: c <= i < d ==> ws[i] == RunWord(RunBit(m)))
    && (forall i :: d <= i < d + Lits(m) ==> ws[i] == buf[pointer + 1 + i - d])
  }

  lemma {:induction false} AtRest(ws: seq<Word>, c: nat, buf: seq<Word>, pointer: nat)
    requires c <= |ws| && pointer <= |buf| && Parses(buf[pointer..]) && ws[c..] == Decode(buf[pointer..])
    ensures At(ws, c, buf, pointer)
    decreases |buf| - pointer
  {
    if pointer == |buf| {
      assert |ws[c..]| == 0;
    } else {
      MarksHere(ws, c, buf, pointer);
      AtRest(ws, c + RunLen(buf[pointer]) + Lits(buf[pointer]), buf, Behind(buf, pointer));
    }
  }

  lemma MarksHere(ws: seq<Word>, c: nat, buf: seq<Word>, pointer: nat)
    requires c <= |ws| && pointer < |buf| && Parses(buf[pointer..]) && ws[c..] == Decode(buf[pointer..])
    ensures Marks(ws, c, buf, pointer) && Parses(buf[Behind(buf, pointer)..])
    ensures ws[c + RunLen(buf[pointer]) + Lits(buf[pointer])..] == Decode(buf[Behind(buf, pointer)..])
  {
    var rest := buf[pointer..];
    var m := rest[0];
    assert Tail(rest) == buf[Behind(buf, pointer)..];
    SliceOf(ws, c, Fill(RunBit(m), RunLen(m)), rest[1..1 + Lits(m)], Decode(Tail(rest)));
  }

  lemma AtStart(ws: seq<Word>, buf: seq<Word>)
    requires Parses(buf) && ws == Decode(buf)
    ensures At(ws, 0, buf, 0)
  {
    assert buf[0..] == buf && ws[0..] == ws;
    AtRest(ws, 0, buf, 0);
  }

  /** A marker with these literals describes the words from `c` on. */
  ghost predicate Segment(ws: seq<Word>, c: nat, m: Word, lits: seq<Word>) {
    var d := c + RunLen(m);
    && d + |lits| <= |ws|
    && (forall i :: c <= i < d ==> ws[i] == RunWord(RunBit(m)))
    && ws[d..d + |lits|] == lits
  }

  /** The words of the marker at `pointer`, and those behind it. */
  lemma SegmentAt(ws: seq<Word>, c: nat, buf: seq<Word>, pointer: nat)
    requires pointer < |buf| && At(ws, c, buf, pointer)
    ensures var m, next := buf[pointer], Behind(buf, pointer);
      && next <= |buf|
      && At(ws, c + RunLen(m) + Lits(m), buf, next)
      && Segment(ws, c, m, buf[pointer + 1..next])
  {
    assert Marks(ws, c, buf, pointer);
  }

  lemma SliceOf<T>(ws: seq<T>, c: nat, x: seq<T>, y: seq<T>, z: seq<T>)
    requires c <= |ws| && ws[c..] == (x + y) + z
    ensures c + |x| + |y| <= |ws| && ws[c + |x|..c + |x| + |y|] == y && ws[c + |x| + |y|..] == z
    ensures forall i :: c <= i < c + |x| ==> ws[i] == x[i - c]
    ensures forall i :: c + |x| <= i < c + |x| + |y| ==> ws[i] == y[i - c - |x|]
  {
    assert forall i :: c <= i < |ws| ==> ws[i] == ws[c..][i - c];
  }

  lemma MemberAt(ws: seq<Word>, c: nat, k: nat)
    requires c < |ws| && k < WORD_BITS
    ensures Member(ws, WORD_BITS * c + k) == Bit(ws[c], k)
  {
  }

  // ---------- appendRowIDs ----------

  /** The positions of one word are appended, bit by bit. */
  method AppendBits(out: seq<nat>, w: Word, offset: nat, ghost pre: seq<nat>, ghost ws: seq<Word>, ghost c: nat)
    returns (ids: seq<nat>)
    requires c < |ws| && ws[c] == w && offset >= WORD_BITS * c
    requires out == pre + Below(ws, WORD_BITS * c, offset - WORD_BITS * c)
    ensures ids == pre + Below(ws, WORD_BITS * (c + 1), offset - WORD_BITS * c)
  {
    ids := out;
    var k := 0;
    while k < WORD_BITS
      invariant 0 <= k <= WORD_BITS && ids == pre + Below(ws, WORD_BITS * c + k, offset - WORD_BITS * c)
    {
      MemberAt(ws, c, k);
      if Bit(w, k) {
        ids := ids + [offset + k];
      }
      k := k + 1;
    }
  }

  method AppendLiterals(out: seq<nat>, lits: seq<Word>, offset: nat, ghost pre: seq<nat>, ghost ws: seq<Word>,
                        ghost c: nat)
    returns (ids: seq<nat>)
    requires c + |lits| <= |ws| && ws[c..c + |lits|] == lits && offset >= WORD_BITS * c
    requires out == pre + Below(ws, WORD_BITS * c, offset - WORD_BITS * c)
    ensures ids == pre + Below(ws, WORD_BITS * (c + |lits|), offset - WORD_BITS * c)
  {
    ids := out;
    var k := 0;
    while k < |lits|
      invariant 0 <= k <= |lits|
      invariant ids == pre + Below(ws, WORD_BITS * (c + k), offset - WORD_BITS * c)
    {
      assert ws[c + k] == ws[c..c + |lits|][k];
      ids := AppendBits(ids, lits[k], offset + WORD_BITS * k, pre, ws, c + k);
      k := k + 1;
    }
  }

  lemma MemberOfRun(ws: seq<Word>, c: nat, b: bool, run: nat, p: nat)
    requires c + run <= |ws| && (forall i :: c <= i < c + run ==> ws[i] == RunWord(b))
    requires WORD_BITS * c <= p < WORD_BITS * (c + run)
    ensures Member(ws, p) == b
  {
    BitOfAllOnes(p % WORD_BITS);
    BitOfZero(p % WORD_BITS);
    assert c <= p / WORD_BITS < c + run;
    assert ws[p / WORD_BITS] == RunWord(b);
  }

  /** The positions of a run of ones. */
  method AppendRun(out: seq<nat>, run: nat, offset: nat, ghost pre: seq<nat>, ghost ws: seq<Word>, ghost c: nat)
    returns (ids: seq<nat>)
    requires c + run <= |ws| && (forall i :: c <= i < c + run ==> ws[i] == RunWord(true)) && offset >= WORD_BITS * c
    requires out == pre + Below(ws, WORD_BITS * c, offset - WORD_BITS * c)
    ensures ids == pre + Below(ws, WORD_BITS * (c + run), offset - WORD_BITS * c)
  {
    ids := out;
    var x := 0;
    while x < WORD_BITS * run
      invariant 0 <= x <= WORD_BITS * run
      invariant ids == pre + Below(ws, WORD_BITS * c + x, offset - WORD_BITS * c)
    {
      MemberOfRun(ws, c, true, run, WORD_BITS * c + x);
      ids := ids + [offset + x];
      x := x + 1;
    }
  }

  /** A run of zeros is skipped. */
  lemma SkipRun(ws: seq<Word>, c: nat, run: nat, base: nat)
    requires c + run <= |ws| && (forall i :: c <= i < c + run ==> ws[i] == RunWord(false))
    ensures Below(ws, WORD_BITS * c, base) == Below(ws, WORD_BITS * (c + run), base)
  {
    forall p: nat | WORD_BITS * c <= p < WORD_BITS * (c + run) ensures !Member(ws, p) {
      MemberOfRun(ws, c, false, run, p);
    }
    SkipZeros(ws, WORD_BITS * c, WORD_BITS * (c + run), base);
  }

  method AppendRowIDs(a: EwahBoolArray, out: seq<nat>, offset: nat) returns (ids: seq<nat>)
    requires a.Valid()
    ensures ids == out + Positions(a.Words(), offset)
    ensures Lists(Positions(a.Words(), offset), a.Words(), offset)
  {
    a.WholeBuffer();
    PositionsAre(a.Words(), offset);
    ghost var ws := a.Words();
    AtStart(ws, a.buffer);
    ids := AppendBufferIDs(a.buffer, out, offset, ws);
  }

  /** The positions of a marker and its literals. */
  method AppendSegment(out: seq<nat>, m: Word, lits: seq<Word>, offset: nat, ghost pre: seq<nat>, ghost ws: seq<Word>,
                       ghost c: nat)
    returns (ids: seq<nat>)
    requires Segment(ws, c, m, lits) && offset >= WORD_BITS * c
    requires out == pre + Below(ws, WORD_BITS * c, offset - WORD_BITS * c)
    ensures ids == pre + Below(ws, WORD_BITS * (c + RunLen(m) + |lits|), offset - WORD_BITS * c)
  {
    ids := out;
    if RunBit(m) {
      ids := AppendRun(ids, RunLen(m), offset, pre, ws, c);
    } else {
      SkipRun(ws, c, RunLen(m), offset - WORD_BITS * c);
    }
    ids := AppendLiterals(ids, lits, offset + WORD_BITS * RunLen(m), pre, ws, c + RunLen(m));
  }

  method AppendBufferIDs(buf: seq<Word>, out: seq<nat>, offset: nat, ghost ws: seq<Word>) returns (ids: seq<nat>)
    requires At(ws, 0, buf, 0)
    ensures ids == out + Positions(ws, offset)
  {
    ids := out;
    var pointer, current := 0, offset;
    ghost var c: nat := 0;
    while pointer < |buf|
      invariant At(ws, c, buf, pointer) && current == offset + WORD_BITS * c
      invariant ids == out + Below(ws, WORD_BITS * c, offset)
    {
      SegmentAt(ws, c, buf, pointer);
      var m, next := buf[pointer], Behind(buf, pointer);
      ids := AppendSegment(ids, m, buf[pointer + 1..next], current, out, ws, c);
      current := current + WORD_BITS * (RunLen(m) + Lits(m));
      c := c + RunLen(m) + Lits(m);
      pointer := next;
    }
  }

  // ---------- toArray: literal words by trailing zeros ----------

  function TrailingZeros(x: nat): (r: nat)
    requires x > 0
    ensures Bit(x, r) && forall j :: 0 <= j < r ==> !Bit(x, j)
  {
    if x % 2 == 1 then 0 else 1 + TrailingZeros(x / 2)
  }

  /** The word shifted to the right. */
  function Shift(w: nat, o: nat): (r: nat) {
    if o == 0 then w else Shift(w / 2, o - 1)
  }

  lemma {:induction false} BitShift(w: nat, o: nat, j: nat)
    ensures Bit(Shift(w, o), j) == Bit(w, o + j)
  {
    if o > 0 {
      BitShift(w / 2, o - 1, j);
    }
  }

  lemma {:induction false} HalveShift(w: nat, k: nat)
    ensures Shift(w, k + 1) == Shift(w, k) / 2
  {
    if k > 0 {
      HalveShift(w / 2, k - 1);
    }
  }

  lemma {:induction false} ShiftAll(w: nat, n: nat)
    requires w < Pow2(n)
    ensures Shift(w, n) == 0
  {
    if n > 0 {
      ShiftAll(w / 2, n - 1);
    }
  }

  lemma {:induction false} BitBeyond(w: nat, n: nat, i: nat)
    requires w < Pow2(n) && n <= i
    ensures !Bit(w, i)
  {
    if n == 0 {
      BitOfZero(i);
    } else {
      BitBeyond(w / 2, n - 1, i - 1);
    }
  }

  /** What the shifted word says about the bits from `o` on. */
  lemma ShiftedWord(w: Word, o: nat)
    requires o < WORD_BITS
    ensures Shift(w, o) == 0 ==> forall i :: o <= i < WORD_BITS ==> !Bit(w, i)
    ensures Shift(w, o) > 0 ==>
      var k := o + TrailingZeros(Shift(w, o));
      k < WORD_BITS && Bit(w, k) && forall i :: o <= i < k ==> !Bit(w, i)
  {
    var v := Shift(w, o);
    if v == 0 {
      forall i | o <= i < WORD_BITS ensures !Bit(w, i) {
        BitShift(w, o, i - o);
        BitOfZero(i - o);
      }
    } else {
      var k := o + TrailingZeros(v);
      BitShift(w, o, TrailingZeros(v));
      if k >= WORD_BITS {
        Pow2Word();
        BitBeyond(w, WORD_BITS, k);
      }
      forall i | o <= i < k ensures !Bit(w, i) {
        BitShift(w, o, i - o);
      }
    }
  }

  /** Bits of a word that are not set. */
  lemma SkipBits(ws: seq<Word>, c: nat, lo: nat, hi: nat, base: nat)
    requires c < |ws| && lo <= hi <= WORD_BITS && forall i :: lo <= i < hi ==> !Bit(ws[c], i)
    ensures Below(ws, WORD_BITS * c + lo, base) == Below(ws, WORD_BITS * c + hi, base)
  {
    forall p: nat | WORD_BITS * c + lo <= p < WORD_BITS * c + hi ensures !Member(ws, p) {
      MemberAt(ws, c, p - WORD_BITS * c);
    }
    SkipZeros(ws, WORD_BITS * c + lo, WORD_BITS * c + hi, base);
  }

  /** The next position in a word, if there is one. */
  lemma NextInWord(ws: seq<Word>, c: nat, o: nat)
    requires c < |ws| && o < WORD_BITS
    ensures Shift(ws[c], o) == 0 ==> Below(ws, WORD_BITS * c + o, 0) == Below(ws, WORD_BITS * (c + 1), 0)
    ensures Shift(ws[c], o) > 0 ==>
      var k := o + TrailingZeros(Shift(ws[c], o));
      && k < WORD_BITS
      && Below(ws, WORD_BITS * c + k + 1, 0) == Below(ws, WORD_BITS * c + o, 0) + [WORD_BITS * c + k]
  {
    ShiftedWord(ws[c], o);
    if Shift(ws[c], o) == 0 {
      SkipBits(ws, c, o, WORD_BITS, 0);
    } else {
      var k := o + TrailingZeros(Shift(ws[c], o));
      SkipBits(ws, c, o, k, 0);
      MemberAt(ws, c, k);
    }
  }

  method AppendByTrailingZeros(out: seq<nat>, w: Word, pos: nat, ghost ws: seq<Word>, ghost c: nat)
    returns (ids: seq<nat>)
    requires c < |ws| && ws[c] == w && pos == WORD_BITS * c && out == Below(ws, pos, 0)
    ensures ids == Below(ws, pos + WORD_BITS, 0)
  {
    ids := out;
    var offset := 0;
    while offset < WORD_BITS
      invariant 0 <= offset <= WORD_BITS && ids == Below(ws, pos + offset, 0)
    {
      NextInWord(ws, c, offset);
      var shifted := Shift(w, offset);
      if shifted == 0 {
        return;
      }
      offset := offset + TrailingZeros(shifted);
      ids := ids + [pos + offset];
      offset := offset + 1;
    }
  }

  method AppendLiteralsByTrailingZeros(out: seq<nat>, lits: seq<Word>, pos: nat, ghost ws: seq<Word>, ghost c: nat)
    returns (ids: seq<nat>)
    requires c + |lits| <= |ws| && ws[c..c + |lits|] == lits && pos == WORD_BITS * c && out == Below(ws, pos, 0)
    ensures ids == Below(ws, WORD_BITS * (c + |lits|), 0)
  {
    ids := out;
    var k := 0;
    while k < |lits|
      invariant 0 <= k <= |lits| && ids == Below(ws, WORD_BITS * (c + k), 0)
    {
      assert ws[c + k] == ws[c..c + |lits|][k];
      ids := AppendByTrailingZeros(ids, lits[k], pos + WORD_BITS * k, ws, c + k);
      k := k + 1;
    }
  }

  method AppendSegmentByTrailingZeros(out: seq<nat>, m: Word, lits: seq<Word>, pos: nat, ghost ws: seq<Word>,
                                      ghost c: nat)
    returns (ids: seq<nat>)
    requires Segment(ws, c, m, lits) && pos == WORD_BITS * c && out == Below(ws, pos, 0)
    ensures ids == Below(ws, WORD_BITS * (c + RunLen(m) + |lits|), 0)
  {
    ids := out;
    if RunBit(m) {
      ids := AppendRun(ids, RunLen(m), pos, [], ws, c);
    } else {
      SkipRun(ws, c, RunLen(m), 0);
    }
    ids := AppendLiteralsByTrailingZeros(ids, lits, pos + WORD_BITS * RunLen(m), ws, c + RunLen(m));
  }

  method ToArray(a: EwahBoolArray) returns (ans: seq<nat>)
    requires a.Valid()
    ensures ans == Positions(a.Words(), 0) && Lists(ans, a.Words(), 0)
  {
    a.WholeBuffer();
    PositionsAre(a.Words(), 0);
    ghost var ws := a.Words();
    AtStart(ws, a.buffer);
    ans := BufferToArray(a.buffer, ws);
  }

  method BufferToArray(buf: seq<Word>, ghost ws: seq<Word>) returns (ans: seq<nat>)
    requires At(ws, 0, buf, 0)
    ensures ans == Positions(ws, 0)
  {
    ans := [];
    var pointer, pos := 0, 0;
    ghost var c: nat := 0;
    while pointer < |buf|
      invariant At(ws, c, buf, pointer) && pos == WORD_BITS * c
      invariant ans == Below(ws, pos, 0)
    {
      SegmentAt(ws, c, buf, pointer);
      var m, next := buf[pointer], Behind(buf, pointer);
      ans := AppendSegmentByTrailingZeros(ans, m, buf[pointer + 1..next], pos, ws, c);
      pos := pos + WORD_BITS * (RunLen(m) + Lits(m));
      c := c + RunLen(m) + Lits(m);
      pointer := next;
    }
  }

  // ---------- numberOfOnes ----------

  function CountOnes(w: nat): nat {
    if w == 0 then 0 else w % 2 + CountOnes(w / 2)
  }

  /** The positions from bit `k` of a word are counted by the ones of the shifted word. */
  lemma {:induction false} CountOnesAre(ws: seq<Word>, c: nat, k: nat)
    requires c < |ws| && k <= WORD_BITS
    ensures |Below(ws, WORD_BITS * c + k, 0)| + CountOnes(Shift(ws[c], k)) == |Below(ws, WORD_BITS * (c + 1), 0)|
    decreases WORD_BITS - k
  {
    if k == WORD_BITS {
      Pow2Word();
      ShiftAll(ws[c], WORD_BITS);
    } else {
      CountOnesAre(ws, c, k + 1);
      HalveShift(ws[c], k);
      BitShift(ws[c], k, 0);
      MemberAt(ws, c, k);
    }
  }

  lemma {:induction false} CountRun(ws: seq<Word>, c: nat, run: nat, x: nat)
    requires c + run <= |ws| && (forall i :: c <= i < c + run ==> ws[i] == RunWord(true)) && x <= WORD_BITS * run
    ensures |Below(ws, WORD_BITS * c + x, 0)| == |Below(ws, WORD_BITS * c, 0)| + x
  {
    if x > 0 {
      CountRun(ws, c, run, x - 1);
      MemberOfRun(ws, c, true, run, WORD_BITS * c + x - 1);
    }
  }

  method CountLiterals(tot: nat, lits: seq<Word>, ghost ws: seq<Word>, ghost c: nat) returns (count: nat)
    requires c + |lits| <= |ws| && ws[c..c + |lits|] == lits && tot == |Below(ws, WORD_BITS * c, 0)|
    ensures count == |Below(ws, WORD_BITS * (c + |lits|), 0)|
  {
    count := tot;
    var k := 0;
    while k < |lits|
      invariant 0 <= k <= |lits| && count == |Below(ws, WORD_BITS * (c + k), 0)|
    {
      assert ws[c + k] == ws[c..c + |lits|][k];
      CountOnesAre(ws, c + k, 0);
      count := count + CountOnes(lits[k]);
      k := k + 1;
    }
  }

  method CountSegment(tot: nat, m: Word, lits: seq<Word>, ghost ws: seq<Word>, ghost c: nat) returns (count: nat)
    requires Segment(ws, c, m, lits) && tot == |Below(ws, WORD_BITS * c, 0)|
    ensures count == |Below(ws, WORD_BITS * (c + RunLen(m) + |lits|), 0)|
  {
    count := tot;
    if RunBit(m) {
      CountRun(ws, c, RunLen(m), WORD_BITS * RunLen(m));
      count := count + WORD_BITS * RunLen(m);
    } else {
      SkipRun(ws, c, RunLen(m), 0);
    }
    count := CountLiterals(count, lits, ws, c + RunLen(m));
  }

  method NumberOfOnes(a: EwahBoolArray) returns (tot: nat)
    requires a.Valid()
    ensures tot == |Positions(a.Words(), 0)|
    ensures Lists(Positions(a.Words(), 0), a.Words(), 0)
  {
    a.WholeBuffer();
    PositionsAre(a.Words(), 0);
    ghost var ws := a.Words();
    AtStart(ws, a.buffer);
    tot := BufferOnes(a.buffer, ws);
  }

  method BufferOnes(buf: seq<Word>, ghost ws: seq<Word>) returns (tot: nat)
    requires At(ws, 0, buf, 0)
    ensures tot == |Positions(ws, 0)|
  {
    tot := 0;
    var pointer := 0;
    ghost var c: nat := 0;
    while pointer < |buf|
      invariant At(ws, c, buf, pointer) && tot == |Below(ws, WORD_BITS * c, 0)|
    {
      SegmentAt(ws, c, buf, pointer);
      var m, next := buf[pointer], Behind(buf, pointer);
      tot := CountSegment(tot, m, buf[pointer + 1..next], ws, c);
      c := c + RunLen(m) + Lits(m);
      pointer := next;
    }
  }

  // ---------- get ----------

  method Get(a: EwahBoolArray, pos: nat) returns (r: bool)
    requires a.Valid() && a.Covers()
    ensures r <==> Member(a.Words(), pos)
  {
    if pos >= a.sizeinbits { return false; }
    a.WholeBuffer();
    ghost var ws := a.Words();
    AtStart(ws, a.buffer);
    r := BufferGet(a.buffer, pos, ws);
  }

  method BufferGet(buf: seq<Word>, pos: nat, ghost ws: seq<Word>) returns (r: bool)
    requires At(ws, 0, buf, 0)
    ensures r <==> Member(ws, pos)
  {
    var wordpos, pointer := pos / WORD_BITS, 0;
    var checked: nat := 0;
    while pointer < |buf|
      invariant At(ws, checked, buf, pointer) && checked <= wordpos
    {
      SegmentAt(ws, checked, buf, pointer);
      var m, next := buf[pointer], Behind(buf, pointer);
      if wordpos < checked + RunLen(m) {
        MemberOfRun(ws, checked, RunBit(m), RunLen(m), pos);
        return RunBit(m);
      }
      checked := checked + RunLen(m);
      if wordpos < checked + Lits(m) {
        var w := buf[pointer + 1..next][wordpos - checked];
        assert w == ws[checked..checked + Lits(m)][wordpos - checked];
        return Bit(w, pos % WORD_BITS);
      }
      checked := checked + Lits(m);
      pointer := next;
    }
    return false;
  }
}
