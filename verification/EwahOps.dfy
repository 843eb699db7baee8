/** logicalor, logicaland and logicalxor of ewah.h: a merge of two compressed bitmaps by prey and predator. */
module EwahOps {
  import opened Common
  import opened EwahWord
  import opened EwahFormat
  import opened Ewah

  /**
   The words for the run of the prey: Seg is what the predator has at the same place. The run of the predator
   covers it, or its literals continue it.
   */
  lemma PredatorWords(predator: Cursor, n: nat)
    requires predator.Ok() && n <= predator.Size()
    ensures predator.Segment()[..n] ==
      if predator.run >= n then Fill(predator.bit, n)
      else Fill(predator.bit, predator.run) + predator.Dirty()[..n - predator.run]
  {
  }

  /** Appends the words of a segment from its front, the part in the run and then the literals. */
  method CopyPredator(container: EwahBoolArray, predator: Cursor, n: nat)
    requires container.Valid() && predator.Ok() && n <= predator.Size()
    modifies container
    ensures container.Valid() && container.Words() == old(container.Words()) + predator.Segment()[..n]
    ensures old(container.InUse()) ==> container.InUse()
    ensures old(container.Compact()) && predator.Compact() ==> container.Compact()
  {
    PredatorWords(predator, n);
    if predator.run >= n {
      var _ := container.AddStreamOfEmptyWords(predator.bit, n);
    } else {
      var _ := container.AddStreamOfEmptyWords(predator.bit, predator.run);
      if n - predator.run > 0 {
        var _ := container.AddStreamOfDirtyWords(predator.Dirty()[..n - predator.run]);
      }
    }
  }

  /** Adds the complements of the words one at a time. */
  method AddNegated(container: EwahBoolArray, ws: seq<Word>)
    requires container.Valid()
    modifies container
    ensures container.Valid() && container.Words() == old(container.Words()) + NotAll(ws)
    ensures old(container.InUse()) ==> container.InUse()
    ensures old(container.Compact()) ==> container.Compact()
  {
    ghost var words := container.Words();
    var k := 0;
    while k < |ws|
      invariant 0 <= k <= |ws| && container.Valid() && (old(container.InUse()) ==> container.InUse())
      invariant old(container.Compact()) ==> container.Compact()
      invariant container.Words() == words + NotAll(ws[..k])
    {
      var _ := container.Add(NotWord(ws[k]), WORD_BITS);
      assert NotAll(ws[..k + 1]) == NotAll(ws[..k]) + [NotWord(ws[k])];
      k := k + 1;
    }
    assert ws[..|ws|] == ws;
  }

  lemma NotAllOfSegment(bit: bool, run: nat, dirty: seq<Word>)
    ensures NotAll(Fill(bit, run)) == Fill(!bit, run)
    ensures NotAll(Fill(bit, run) + dirty) == Fill(!bit, run) + NotAll(dirty)
  {
  }

  /** The complement of a segment from its front, as logicalxor adds it. */
  method CopyPredatorNegated(container: EwahBoolArray, predator: Cursor, n: nat)
    requires container.Valid() && predator.Ok() && n <= predator.Size()
    modifies container
    ensures container.Valid() && container.Words() == old(container.Words()) + NotAll(predator.Segment()[..n])
    ensures old(container.InUse()) ==> container.InUse()
    ensures old(container.Compact()) ==> container.Compact()
  {
    PredatorWords(predator, n);
    if predator.run >= n {
      NotAllOfSegment(predator.bit, n, []);
      var _ := container.AddStreamOfEmptyWords(!predator.bit, n);
    } else {
      NegatedRunAndLiterals(container, predator.bit, predator.run, predator.Dirty()[..n - predator.run]);
    }
  }

  method NegatedRunAndLiterals(container: EwahBoolArray, bit: bool, run: nat, dirty: seq<Word>)
    requires container.Valid()
    modifies container
    ensures container.Valid() && container.Words() == old(container.Words()) + NotAll(Fill(bit, run) + dirty)
    ensures old(container.InUse()) ==> container.InUse()
    ensures old(container.Compact()) ==> container.Compact()
  {
    NotAllOfSegment(bit, run, dirty);
    if run > 0 {
      var _ := container.AddStreamOfEmptyWords(!bit, run);
    }
    AddNegated(container, dirty);
  }

  /** First phase: the run of the prey against the front of the predator. */
  method RunPhase(op: Op, container: EwahBoolArray, prey: Cursor, predator: Cursor)
    requires container.Valid() && prey.Ok() && predator.Ok() && prey.run <= predator.Size()
    modifies container
    ensures container.Valid()
    ensures old(container.InUse()) ==> container.InUse()
    ensures container.Words() ==
      old(container.Words()) + ZipOp(op, Fill(prey.bit, prey.run), predator.Segment()[..prey.run])
    ensures old(container.Compact()) && predator.Compact() ==> container.Compact()
  {
    ZipRun(op, prey.bit, predator.Segment()[..prey.run]);
    match op
    case Or =>
      if !prey.bit {
        CopyPredator(container, predator, prey.run);
      } else {
        var _ := container.AddStreamOfEmptyWords(true, prey.run);
      }
    case And =>
      if !prey.bit {
        var _ := container.AddStreamOfEmptyWords(false, prey.run);
      } else {
        CopyPredator(container, predator, prey.run);
      }
    case Xor =>
      if !prey.bit {
        CopyPredator(container, predator, prey.run);
      } else {
        CopyPredatorNegated(container, predator, prey.run);
      }
  }

  /** Second phase: the front of the prey's literals against what is left of the predator's run. */
  method LiteralsAgainstRun(op: Op, container: EwahBoolArray, dirty: seq<Word>, bit: bool)
    requires container.Valid()
    modifies container
    ensures container.Valid()
    ensures old(container.InUse()) ==> container.InUse()
    ensures container.Words() == old(container.Words()) + ZipOp(op, dirty, Fill(bit, |dirty|))
    ensures old(container.Compact()) && AllGenuine(dirty) ==> container.Compact()
  {
    ZipRun(op, bit, dirty);
    ZipCommutes(op, dirty, Fill(bit, |dirty|));
    match op
    case Or =>
      if !bit {
        var _ := container.AddStreamOfDirtyWords(dirty);
      } else {
        var _ := container.AddStreamOfEmptyWords(true, |dirty|);
      }
    case And =>
      if !bit {
        var _ := container.AddStreamOfEmptyWords(false, |dirty|);
      } else {
        var _ := container.AddStreamOfDirtyWords(dirty);
      }
    case Xor =>
      if !bit {
        var _ := container.AddStreamOfDirtyWords(dirty);
      } else {
        AddNegated(container, dirty);
      }
  }

  lemma ZipSnoc(op: Op, a: seq<Word>, b: seq<Word>, k: nat)
    requires k < |a| && k < |b|
    ensures ZipOp(op, a[..k + 1], b[..k + 1]) == ZipOp(op, a[..k], b[..k]) + [WordOp(op, a[k], b[k])]
  {
  }

  /** Third phase: literals against literals, one word at a time. */
  method LiteralsAgainstLiterals(op: Op, container: EwahBoolArray, prey: seq<Word>, predator: seq<Word>)
    requires container.Valid() && |prey| <= |predator|
    modifies container
    ensures container.Valid()
    ensures old(container.InUse()) ==> container.InUse()
    ensures container.Words() == old(container.Words()) + ZipOp(op, prey, predator[..|prey|])
    ensures old(container.Compact()) ==> container.Compact()
  {
    ghost var words := container.Words();
    var k := 0;
    while k < |prey|
      invariant 0 <= k <= |prey| && container.Valid() && (old(container.InUse()) ==> container.InUse())
      invariant old(container.Compact()) ==> container.Compact()
      invariant container.Words() == words + ZipOp(op, prey[..k], predator[..k])
    {
      var _ := container.Add(WordOp(op, prey[k], predator[k]), WORD_BITS);
      ZipSnoc(op, prey, predator, k);
      k := k + 1;
    }
    assert prey[..|prey|] == prey;
  }

  /** The whole prey segment against the front of the predator, which is consumed. */
  method Devour(op: Op, container: EwahBoolArray, prey: Cursor, predator: Cursor) returns (rest: Cursor)
    requires container.Valid() && prey.Ok() && predator.Ok() && prey.Size() <= predator.Size()
    modifies container
    ensures container.Valid()
    ensures old(container.InUse()) ==> container.InUse()
    ensures container.Words() ==
      old(container.Words()) + ZipOp(op, prey.Segment(), predator.Segment()[..prey.Size()])
    ensures rest.Ok() && rest.buf == predator.buf && rest.pointer == predator.pointer
    ensures rest.Segment() == predator.Segment()[prey.Size()..]
    ensures old(container.Compact()) && prey.Compact() && predator.Compact() ==> container.Compact() && rest.Compact()
  {
    ghost var before := container.Words();
    RunPhase(op, container, prey, predator);
    ghost var middle := container.Words();
    var pred := predator.Discard(prey.run);
    predator.DiscardSegment(prey.run);
    rest := DevourLiterals(op, container, prey.Dirty(), pred);
    SegmentSplit(op, prey, predator, pred);
    Appended(before, middle, container.Words(), ZipOp(op, Fill(prey.bit, prey.run), predator.Segment()[..prey.run]),
             ZipOp(op, prey.Dirty(), pred.Segment()[..prey.lits]));
  }

  lemma Appended<T>(before: seq<T>, middle: seq<T>, after: seq<T>, x: seq<T>, y: seq<T>)
    requires middle == before + x && after == middle + y
    ensures after == before + (x + y)
  {
  }

  lemma SegmentSplit(op: Op, prey: Cursor, predator: Cursor, pred: Cursor)
    requires prey.Ok() && predator.Ok() && pred.Ok() && prey.Size() <= predator.Size()
    requires pred.Segment() == predator.Segment()[prey.run..] && pred.Size() == predator.Size() - prey.run
    ensures ZipOp(op, prey.Segment(), predator.Segment()[..prey.Size()]) ==
      ZipOp(op, Fill(prey.bit, prey.run), predator.Segment()[..prey.run])
      + ZipOp(op, prey.Dirty(), pred.Segment()[..prey.lits])
    ensures pred.Segment()[prey.lits..] == predator.Segment()[prey.Size()..]
  {
    var front := predator.Segment()[..prey.Size()];
    assert front == predator.Segment()[..prey.run] + pred.Segment()[..prey.lits];
    ZipSplit(op, Fill(prey.bit, prey.run), prey.Dirty(), predator.Segment()[..prey.run], pred.Segment()[..prey.lits]);
  }

  /** The literals of the prey, first against the run of the predator and then against its literals. */
  method DevourLiterals(op: Op, container: EwahBoolArray, dirty: seq<Word>, pred: Cursor) returns (rest: Cursor)
    requires container.Valid() && pred.Ok() && |dirty| <= pred.Size()
    modifies container
    ensures container.Valid()
    ensures old(container.InUse()) ==> container.InUse()
    ensures container.Words() == old(container.Words()) + ZipOp(op, dirty, pred.Segment()[..|dirty|])
    ensures rest.Ok() && rest.buf == pred.buf && rest.pointer == pred.pointer
    ensures rest.Segment() == pred.Segment()[|dirty|..]
    ensures old(container.Compact()) && AllGenuine(dirty) && pred.Compact() ==> container.Compact() && rest.Compact()
  {
    var k := if pred.run >= |dirty| then |dirty| else pred.run;
    ghost var before := container.Words();
    LiteralsInRun(op, container, dirty[..k], pred);
    ghost var middle := container.Words();
    rest := LiteralsLeft(op, container, dirty[k..], pred.Discard(k));
    LiteralsSplit(op, dirty, pred, k, before, middle, container.Words());
  }

  lemma LiteralsSplit(op: Op, dirty: seq<Word>, pred: Cursor, k: nat,
                      before: seq<Word>, middle: seq<Word>, after: seq<Word>)
    requires pred.Ok() && k <= |dirty| <= pred.Size()
    requires middle == before + ZipOp(op, dirty[..k], pred.Segment()[..k])
    requires after == middle + ZipOp(op, dirty[k..], pred.Discard(k).Segment()[..|dirty| - k])
    ensures after == before + ZipOp(op, dirty, pred.Segment()[..|dirty|])
    ensures pred.Discard(k).Segment()[|dirty| - k..] == pred.Segment()[|dirty|..]
  {
    pred.DiscardSegment(k);
    ZipSplitAt(op, dirty, pred.Segment(), k);
    Appended(before, middle, after, ZipOp(op, dirty[..k], pred.Segment()[..k]),
             ZipOp(op, dirty[k..], pred.Segment()[k..][..|dirty| - k]));
  }

  lemma ZipSplitAt(op: Op, ws: seq<Word>, seg: seq<Word>, k: nat)
    requires k <= |ws| <= |seg|
    ensures ZipOp(op, ws, seg[..|ws|]) == ZipOp(op, ws[..k], seg[..k]) + ZipOp(op, ws[k..], seg[k..][..|ws| - k])
    ensures seg[k..][|ws| - k..] == seg[|ws|..]
  {
    assert ws == ws[..k] + ws[k..] && seg[..|ws|] == seg[..k] + seg[k..][..|ws| - k];
    ZipSplit(op, ws[..k], ws[k..], seg[..k], seg[k..][..|ws| - k]);
  }

  /** Literals that the run of the predator covers. */
  method LiteralsInRun(op: Op, container: EwahBoolArray, dirty: seq<Word>, pred: Cursor)
    requires container.Valid() && pred.Ok() && |dirty| <= pred.run
    modifies container
    ensures container.Valid()
    ensures old(container.InUse()) ==> container.InUse()
    ensures container.Words() == old(container.Words()) + ZipOp(op, dirty, pred.Segment()[..|dirty|])
    ensures old(container.Compact()) && AllGenuine(dirty) ==> container.Compact()
  {
    assert pred.Segment()[..|dirty|] == Fill(pred.bit, |dirty|);
    if |dirty| > 0 {
      LiteralsAgainstRun(op, container, dirty, pred.bit);
    } else {
      assert ZipOp(op, dirty, pred.Segment()[..|dirty|]) == [];
    }
  }

  /** What remains of the prey's literals is met by literals only. */
  method LiteralsLeft(op: Op, container: EwahBoolArray, remaining: seq<Word>, pred: Cursor) returns (rest: Cursor)
    requires container.Valid() && pred.Ok() && |remaining| <= pred.Size() && (remaining != [] ==> pred.run == 0)
    modifies container
    ensures container.Valid()
    ensures old(container.InUse()) ==> container.InUse()
    ensures container.Words() == old(container.Words()) + ZipOp(op, remaining, pred.Segment()[..|remaining|])
    ensures rest.Ok() && rest.buf == pred.buf && rest.pointer == pred.pointer
    ensures rest.Segment() == pred.Segment()[|remaining|..]
    ensures old(container.Compact()) && pred.Compact() ==> container.Compact() && rest.Compact()
  {
    if remaining != [] {
      pred.NoRun();
      LiteralsAgainstLiterals(op, container, remaining, pred.Dirty());
    } else {
      assert ZipOp(op, remaining, pred.Segment()[..|remaining|]) == [];
    }
    pred.DiscardSegment(|remaining|);
    rest := pred.Discard(|remaining|);
  }

  /** Pads the smaller bitmap to the size of the larger one. */
  method MakeSameSize(x: EwahBoolArray, a: EwahBoolArray)
    requires x.Valid() && x.Covers() && a.Valid() && a.Covers()
    modifies x, a
    ensures x.Valid() && x.Covers() && a.Valid() && a.Covers()
    ensures x.sizeinbits == a.sizeinbits == Max(old(x.sizeinbits), old(a.sizeinbits))
    ensures forall i: nat :: Member(x.Words(), i) <==> old(Member(x.Words(), i))
    ensures forall i: nat :: Member(a.Words(), i) <==> old(Member(a.Words(), i))
    ensures x.Dirty() == old(x.Dirty()) && a.Dirty() == old(a.Dirty())
    ensures old(x.sizeinbits) >= old(a.sizeinbits) ==> unchanged(x)
    ensures old(a.sizeinbits) >= old(x.sizeinbits) ==> unchanged(a)
  {
    if a.sizeinbits < x.sizeinbits {
      var _ := a.PadWithZeroes(x.sizeinbits);
    } else if x.sizeinbits < a.sizeinbits {
      var _ := x.PadWithZeroes(a.sizeinbits);
    }
  }

  /** A fresh iterator over a buffer. */
  function Iterator(buf: seq<Word>): (r: Cursor)
    requires Parses(buf)
    ensures r.Ok() && r.Segment() == [] && r.Rest() == Decode(buf) && (AllGenuine(Literals(buf)) ==> r.Compact())
  {
    var r := Cursor(buf, 0, false, 0, 0);
    assert buf[0..] == buf;
    r
  }

  /** What is left to be produced by two iterators. */
  ghost function Pending(op: Op, i: Cursor, j: Cursor): seq<Word>
    requires i.Ok() && j.Ok()
  {
    ZipOp(op, i.Segment() + i.Rest(), j.Segment() + j.Rest())
  }

  lemma PendingCommutes(op: Op, i: Cursor, j: Cursor)
    requires i.Ok() && j.Ok()
    ensures Pending(op, i, j) == Pending(op, j, i)
  {
    ZipCommutes(op, i.Segment() + i.Rest(), j.Segment() + j.Rest());
  }

  /** One turn of the merge: the prey segment is devoured, and the next one read if there is one. */
  method Turn(op: Op, container: EwahBoolArray, prey: Cursor, predator: Cursor)
    returns (prey': Cursor, rest: Cursor, more: bool)
    requires container.Valid() && prey.Ok() && predator.Ok() && prey.Size() <= predator.Size()
    modifies container
    ensures container.Valid() && prey'.Ok() && rest.Ok()
    ensures old(container.InUse()) ==> container.InUse()
    ensures more ==>
      container.Words() + Pending(op, prey', rest) == old(container.Words()) + Pending(op, prey, predator)
    ensures !more ==> container.Words() == old(container.Words()) + Pending(op, prey, predator)
    ensures rest.buf == predator.buf && rest.pointer == predator.pointer && prey'.buf == prey.buf
    ensures prey'.pointer >= prey.pointer && (more ==> prey'.pointer > prey.pointer)
    ensures old(container.Compact()) && prey.Compact() && predator.Compact() ==>
      container.Compact() && prey'.Compact() && rest.Compact()
  {
    ghost var before := container.Words();
    rest := Devour(op, container, prey, predator);
    MergeStep(op, prey, predator, rest, before, container.Words());
    more := prey.HasNext();
    prey' := if more then prey.Next() else prey;
    if more && prey.Compact() { prey.NextCompact(); }
  }

  lemma MergeStep(op: Op, prey: Cursor, predator: Cursor, rest: Cursor, before: seq<Word>, after: seq<Word>)
    requires prey.Ok() && predator.Ok() && rest.Ok() && prey.Size() <= predator.Size()
    requires rest.buf == predator.buf && rest.pointer == predator.pointer
    requires rest.Segment() == predator.Segment()[prey.Size()..]
    requires after == before + ZipOp(op, prey.Segment(), predator.Segment()[..prey.Size()])
    ensures prey.HasNext() ==> after + Pending(op, prey.Next(), rest) == before + Pending(op, prey, predator)
    ensures !prey.HasNext() ==> after == before + Pending(op, prey, predator)
  {
    var front, behind := predator.Segment()[..prey.Size()], rest.Segment() + rest.Rest();
    assert predator.Segment() == front + rest.Segment();
    Regroup(front, rest.Segment(), rest.Rest());
    ZipSplit(op, prey.Segment(), prey.Rest(), front, behind);
    if prey.HasNext() {
      assert ZipOp(op, prey.Rest(), behind) == Pending(op, prey.Next(), rest);
    } else {
      assert ZipOp(op, prey.Rest(), behind) == [];
    }
    Regroup(before, ZipOp(op, prey.Segment(), front), ZipOp(op, prey.Rest(), behind));
  }

  /** The iterator with the smaller segment is the prey. */
  method ChoosePrey(op: Op, container: EwahBoolArray, i: Cursor, j: Cursor)
    returns (i': Cursor, j': Cursor, more: bool)
    requires container.Valid() && i.Ok() && j.Ok()
    modifies container
    ensures container.Valid() && i'.Ok() && j'.Ok()
    ensures old(container.InUse()) ==> container.InUse()
    ensures more ==> container.Words() + Pending(op, i', j') == old(container.Words()) + Pending(op, i, j)
    ensures !more ==> container.Words() == old(container.Words()) + Pending(op, i, j)
    ensures i'.buf == i.buf && j'.buf == j.buf
    ensures i'.pointer + j'.pointer >= i.pointer + j.pointer + (if more then 1 else 0)
    ensures old(container.Compact()) && i.Compact() && j.Compact() ==>
      container.Compact() && i'.Compact() && j'.Compact()
  {
    if i.Size() < j.Size() {
      i', j', more := Turn(op, container, i, j);
    } else {
      PendingCommutes(op, i, j);
      j', i', more := Turn(op, container, j, i);
      PendingCommutes(op, i', j');
    }
  }

  /** The merge loop. */
  method MergeLoop(op: Op, container: EwahBoolArray, first: Cursor, second: Cursor)
    requires container.Valid() && first.Ok() && second.Ok()
    modifies container
    ensures container.Valid() && container.Words() == old(container.Words()) + Pending(op, first, second)
    ensures old(container.InUse()) ==> container.InUse()
    ensures old(container.Compact()) && first.Compact() && second.Compact() ==> container.Compact()
  {
    var i, j, more := first, second, true;
    ghost var goal := container.Words() + Pending(op, i, j);
    while more
      invariant container.Valid() && (old(container.InUse()) ==> container.InUse())
      invariant i.Ok() && j.Ok()
      invariant old(container.Compact()) && first.Compact() && second.Compact() ==>
        container.Compact() && i.Compact() && j.Compact()
      invariant i.buf == first.buf && j.buf == second.buf
      invariant more ==> container.Words() + Pending(op, i, j) == goal
      invariant !more ==> container.Words() == goal
      decreases |first.buf| + |second.buf| - i.pointer - j.pointer, more
    {
      i, j, more := ChoosePrey(op, container, i, j);
    }
  }

  /** The first segment of a buffer. */
  function First(buf: seq<Word>): (r: Cursor)
    requires Parses(buf) && buf != []
    ensures r.Ok() && r.Segment() + r.Rest() == Decode(buf)
    ensures AllGenuine(Literals(buf)) ==> r.Compact()
  {
    assert AllGenuine(Literals(buf)) ==> Iterator(buf).Next().Compact() by {
      if AllGenuine(Literals(buf)) { Iterator(buf).NextCompact(); }
    }
    Iterator(buf).Next()
  }

  method Merge(op: Op, container: EwahBoolArray, bufI: seq<Word>, bufJ: seq<Word>)
    requires container.Valid() && container.Words() == []
    requires Parses(bufI) && Parses(bufJ) && bufI != [] && bufJ != []
    modifies container
    ensures container.Valid() && container.Words() == ZipOp(op, Decode(bufI), Decode(bufJ))
    ensures old(container.InUse()) ==> container.InUse()
    ensures old(container.Compact()) && AllGenuine(Literals(bufI)) && AllGenuine(Literals(bufJ)) ==> container.Compact()
  {
    MergeLoop(op, container, First(bufI), First(bufJ));
  }

  /**
   The three logical operations on bitmaps of any sizes: bit by bit, in a container of the larger size. The
   operands may be padded but keep their bits. The container has the exact word count exactly when one of the padded
   operands has, so it has when both had it before.
   */
  method Logical(op: Op, x: EwahBoolArray, a: EwahBoolArray, container: EwahBoolArray)
    requires x.Valid() && x.Covers() && a.Valid() && a.Covers() && container != x && container != a
    modifies x, a, container
    ensures x.Valid() && x.Covers() && a.Valid() && a.Covers() && container.Valid() && container.Covers()
    ensures container.sizeinbits == x.sizeinbits == a.sizeinbits == Max(old(x.sizeinbits), old(a.sizeinbits))
    ensures |container.Words()| == Min(|a.Words()|, |x.Words()|) && container.InUse()
    ensures container.Exact() <==> Min(|a.Words()|, |x.Words()|) == WordsFor(container.sizeinbits)
    ensures old(x.Exact()) && old(a.Exact()) ==> container.Exact()
    ensures old(x.Compact() && a.Compact()) ==> x.Compact() && a.Compact() && container.Compact()
    ensures forall i: nat :: Member(x.Words(), i) <==> old(Member(x.Words(), i))
    ensures forall i: nat :: Member(a.Words(), i) <==> old(Member(a.Words(), i))
    ensures forall i: nat :: Member(container.Words(), i) <==>
      op.Apply(old(Member(x.Words(), i)), old(Member(a.Words(), i)))
  {
    MakeSameSize(x, a);
    LogicalSameSize(op, x, a, container);
  }

  method LogicalSameSize(op: Op, x: EwahBoolArray, a: EwahBoolArray, container: EwahBoolArray)
    requires x.Valid() && x.Covers() && a.Valid() && a.Covers() && container != x && container != a
    requires x.sizeinbits == a.sizeinbits
    modifies container
    ensures container.Valid() && container.Covers() && container.sizeinbits == x.sizeinbits
    ensures container.Words() == ZipOp(op, a.Words(), x.Words()) && container.InUse()
    ensures x.Compact() && a.Compact() ==> container.Compact()
    ensures forall i: nat :: Member(container.Words(), i) <==> op.Apply(Member(x.Words(), i), Member(a.Words(), i))
  {
    container.Reset();
    x.WholeBuffer();
    a.WholeBuffer();
    Merge(op, container, a.buffer, x.buffer);
    container.sizeinbits := x.sizeinbits;
    ZipBits(op, a.Words(), x.Words(), x.sizeinbits);
  }

  lemma ZipBits(op: Op, a: seq<Word>, x: seq<Word>, size: nat)
    requires WordsFor(size) <= |a| && WordsFor(size) <= |x|
    requires forall i: nat :: Member(a, i) ==> i < size
    requires forall i: nat :: Member(x, i) ==> i < size
    ensures forall i: nat :: Member(ZipOp(op, a, x), i) <==> op.Apply(Member(x, i), Member(a, i))
    ensures forall i: nat :: Member(ZipOp(op, a, x), i) ==> i < size
  {
    forall i: nat ensures Member(ZipOp(op, a, x), i) <==> op.Apply(Member(x, i), Member(a, i)) {
      if i / WORD_BITS < Min(|a|, |x|) {
        MemberOfZip(op, a, x, i);
      } else {
        assert i >= size;
      }
    }
  }
}
