/** What sylvan_closure computes on any relation: exactly the paths of one or more steps between live states. */
module LiveStates {
  /*
   The blocks that one step of block elimination puts together are those of Closed, and Closed has all properties of a
   closure.
   */
  import opened BlockElimination
  import opened Relations

  // ---------- The bits that play a role ----------

  lemma SpansIgnores(r: Relation, k: nat, n: nat)
    requires Spans(r, k, n)
    ensures Ignores(r, k)
  {
  }

  lemma BlockSpans(r: Relation, k: nat, n: nat, i: bool, j: bool)
    requires Spans(r, k, n) && k < n
    ensures Spans(Block(r, k, i, j), k + 1, n)
  {
    forall x: State, y: State, x': State, y': State
      | (x, y) in Block(r, k, i, j) && AgreeOn(x, x', k + 1, n) && AgreeOn(y, y', k + 1, n)
      ensures (x', y') in Block(r, k, i, j)
    {
      assert AgreeOn(SetBit(x, k, i), SetBit(x', k, i), k, n) && AgreeOn(SetBit(y, k, j), SetBit(y', k, j), k, n);
    }
  }

  lemma DetourSpans(direct: Relation, there: Relation, middle: Relation, back: Relation, k: nat, n: nat)
    requires Spans(direct, k, n) && Spans(there, k, n) && Spans(back, k, n)
    ensures Spans(direct + Comp(there, Comp(middle, back)), k, n)
  {
    var all := direct + Comp(there, Comp(middle, back));
    forall x: State, y: State, x': State, y': State | (x, y) in all && AgreeOn(x, x', k, n) && AgreeOn(y, y', k, n)
      ensures (x', y') in all
    {
      if (x, y) !in direct {
        var m: State :| (x, m) in there && (m, y) in Comp(middle, back);
        var q: State :| (m, q) in middle && (q, y) in back;
        assert AgreeOn(m, m, k, n) && AgreeOn(q, q, k, n);
        assert (x', m) in there && (q, y') in back;
        assert (m, y') in Comp(middle, back);
      } else {
        assert (x', y') in direct;
      }
    }
  }

  lemma ShortenedSpans(r: Relation, k: nat, n: nat)
    requires Spans(r, k, n) && k < n
    ensures Spans(Shortened(r, k, n), k + 1, n)
  {
    BlockSpans(r, k, n, false, false);
    BlockSpans(r, k, n, false, true);
    BlockSpans(r, k, n, true, false);
    DetourSpans(Block(r, k, false, false), Block(r, k, false, true), Closed(Block(r, k, true, true), k + 1, n),
                Block(r, k, true, false), k + 1, n);
  }

  lemma SkippedSpans(r: Relation, k: nat, n: nat)
    requires Spans(r, k, n) && k < n && IgnoresBit(r, k)
    ensures Spans(r, k + 1, n)
  {
    forall x: State, y: State, x': State, y': State
      | (x, y) in r && AgreeOn(x, x', k + 1, n) && AgreeOn(y, y', k + 1, n)
      ensures (x', y') in r
    {
      assert (SetBit(x, k, k in x'), SetBit(y, k, k in y')) in r;
      assert AgreeOn(SetBit(x, k, k in x'), x', k, n) && AgreeOn(SetBit(y, k, k in y'), y', k, n);
    }
  }

  /** Whether a state is live depends on those bits only. */
  lemma {:induction false} LiveAgree(r: Relation, k: nat, n: nat, x: State, x': State)
    requires Spans(r, k, n) && AgreeOn(x, x', k, n)
    ensures Live(r, k, n, x) <==> Live(r, k, n, x')
    decreases if k < n then n - k else 0
  {
    if k >= n {
      assert AgreeOn(x', x, k, n);
    } else {
      var sub := Remaining(r, k, n, k in x);
      assert Live(sub, k + 1, n, x) <==> Live(sub, k + 1, n, x') by {
        RemainingSpans(r, k, n, k in x);
        LiveAgree(sub, k + 1, n, x, x');
      }
      LiveRemaining(r, k, n, x);
      LiveRemaining(r, k, n, x');
    }
  }

  /** The relation in which liveness is decided after bit `k`, for states that have the bit or not. */
  ghost function Remaining(r: Relation, k: nat, n: nat, b: bool): Relation
    requires k < n
  {
    if IgnoresBit(r, k) then r else if b then Block(r, k, true, true) else Shortened(r, k, n)
  }

  lemma LiveRemaining(r: Relation, k: nat, n: nat, x: State)
    requires k < n
    ensures Live(r, k, n, x) <==> Live(Remaining(r, k, n, k in x), k + 1, n, x)
  {
  }

  lemma RemainingSpans(r: Relation, k: nat, n: nat, b: bool)
    requires Spans(r, k, n) && k < n
    ensures Spans(Remaining(r, k, n, b), k + 1, n)
  {
    if IgnoresBit(r, k) {
      SkippedSpans(r, k, n);
    } else if b {
      BlockSpans(r, k, n, true, true);
    } else {
      ShortenedSpans(r, k, n);
    }
  }

  lemma LivePartSpans(r: Relation, k: nat, n: nat)
    requires Spans(r, k, n)
    ensures Spans(LivePart(r, k, n), k, n)
  {
    forall x: State, y: State, x': State, y': State
      | (x, y) in LivePart(r, k, n) && AgreeOn(x, x', k, n) && AgreeOn(y, y', k, n)
      ensures (x', y') in LivePart(r, k, n)
    {
      LiveAgree(r, k, n, x, x');
      LiveAgree(r, k, n, y, y');
    }
  }

  lemma PlusSpans(r: Relation, k: nat, n: nat)
    requires Spans(r, k, n)
    ensures Spans(PlusOf(r), k, n)
  {
    forall x: State, y: State, x': State, y': State
      | (x, y) in PlusOf(r) && AgreeOn(x, x', k, n) && AgreeOn(y, y', k, n)
      ensures (x', y') in PlusOf(r)
    {
      var p: seq<State> :| |p| >= 2 && IsPath(r, p) && p[0] == x && p[|p| - 1] == y;
      var q := p[0 := x'][|p| - 1 := y'];
      forall i | 0 <= i < |q| - 1 ensures (q[i], q[i + 1]) in r {
        assert (p[i], p[i + 1]) in r;
      }
      assert IsPath(r, q);
    }
  }

  lemma ClosedSpans(r: Relation, k: nat, n: nat)
    requires Spans(r, k, n)
    ensures Spans(Closed(r, k, n), k, n) && Ignores(Closed(r, k, n), k)
  {
    LivePartSpans(r, k, n);
    PlusSpans(LivePart(r, k, n), k, n);
    SpansIgnores(Closed(r, k, n), k, n);
  }

  // ---------- One step of block elimination ----------

  ghost predicate LoopsAreLive(r: Relation, c: Relation, k: nat, n: nat) {
    forall x: State :: (x, x) in c <==> Live(r, k, n, x)
  }

  /** A closure whose loops are at the live states is the relation of the paths between live states. */
  lemma ClosedFromLoops(r: Relation, c: Relation, k: nat, n: nat)
    requires ClosureOf(r, c, k) && LoopsAreLive(r, c, k, n)
    ensures c == Closed(r, k, n)
  {
    var part := LivePart(r, k, n);
    assert LoopPart(r, c) == part;
    PlusTransitive(part);
    forall p | p in part ensures p in c {
      assert p == (p.0, p.1) && (p.0, p.0) in c && (p.1, p.1) in c;
    }
    PlusLeast(part, c);
  }

  /** The result that is put together from the closures of the two parts is exactly the closure of the whole. */
  lemma EliminationExact(s: Elimination, k: nat, n: nat, r: Relation, c: Relation)
    requires k < n && Spans(r, k, n) && !IgnoresBit(r, k)
    requires s.Solved(k) && Assembled(s, k, r, c)
    requires s.u1 == Closed(s.a11, k + 1, n) && s.e == Closed(s.Inner(), k + 1, n)
    requires LoopsAreLive(s.a11, s.u1, k + 1, n) && LoopsAreLive(s.Inner(), s.e, k + 1, n)
    ensures c == Closed(r, k, n) && ClosureOf(r, c, k) && LoopsAreLive(r, c, k, n)
  {
    assert s.Inner() == Shortened(r, k, n);
    SpansIgnores(r, k, n);
    BlockSpans(r, k, n, true, true);
    ShortenedSpans(r, k, n);
    SpansIgnores(s.a11, k + 1, n);
    SpansIgnores(s.Inner(), k + 1, n);
    ClosedSpans(s.a11, k + 1, n);
    ClosedSpans(s.Inner(), k + 1, n);
    EliminationCorrect(s, k, r, c);
    forall x: State ensures (x, x) in c <==> Live(r, k, n, x) {
      if (x, x) in c {
        assert (x, x) in s.Output(k in x, k in x);
        OutputLooping(s, k in x, k in x, x, x);
      }
      if Live(r, k, n, x) {
        assert (x, x) in s.Output(k in x, k in x);
      }
    }
    ClosedFromLoops(r, c, k, n);
  }

  /** No bit is left: the relation is empty or total. */
  lemma ClosedConstant(r: Relation, k: nat, n: nat)
    requires Spans(r, k, n) && k >= n
    ensures Closed(r, k, n) == r && ClosureOf(r, r, k) && LoopsAreLive(r, r, k, n)
  {
    forall x: State, y: State, x': State, y': State | (x, y) in r ensures (x', y') in r {
      assert AgreeOn(x, x', k, n) && AgreeOn(y, y', k, n);
    }
    if x: State, y: State :| (x, y) in r {
      ReflexiveIsCovered(r, k);
    }
    forall t: Relation | Transitive(t) && LoopPart(r, r) <= t ensures r <= t {
      forall p | p in r ensures p in LoopPart(r, r) { assert p == (p.0, p.1); }
    }
    ClosedFromLoops(r, r, k, n);
  }

  /** Closed has the properties of a closure, and relates exactly the live states to themselves. */
  lemma ClosedIsClosure(r: Relation, k: nat, n: nat)
    requires Spans(r, k, n)
    ensures ClosureOf(r, Closed(r, k, n), k) && LoopsAreLive(r, Closed(r, k, n), k, n)
  {
    var c := ClosureByLevels(r, k, n);
  }

  lemma {:induction false} ClosureByLevels(r: Relation, k: nat, n: nat) returns (c: Relation)
    requires Spans(r, k, n)
    ensures c == Closed(r, k, n) && ClosureOf(r, c, k) && LoopsAreLive(r, c, k, n)
    decreases if k < n then n - k else 0
  {
    if k >= n {
      c := r;
      ClosedConstant(r, k, n);
    } else if IgnoresBit(r, k) {
      SkippedSpans(r, k, n);
      c := ClosureByLevels(r, k + 1, n);
      ClosedPassed(r, k, n, c);
    } else {
      BlockSpans(r, k, n, true, true);
      ShortenedSpans(r, k, n);
      var u1 := ClosureByLevels(Block(r, k, true, true), k + 1, n);
      var e := ClosureByLevels(Shortened(r, k, n), k + 1, n);
      c := ClosedEliminated(r, k, n, u1, e);
    }
  }

  lemma ClosedSkipped(r: Relation, k: nat, n: nat)
    requires k < n && IgnoresBit(r, k)
    ensures Closed(r, k, n) == Closed(r, k + 1, n) && forall x: State :: Live(r, k, n, x) <==> Live(r, k + 1, n, x)
  {
    assert LivePart(r, k, n) == LivePart(r, k + 1, n);
  }

  lemma ClosedPassed(r: Relation, k: nat, n: nat, c: Relation)
    requires k < n && Spans(r, k + 1, n) && IgnoresBit(r, k)
    requires c == Closed(r, k + 1, n) && ClosureOf(r, c, k + 1) && LoopsAreLive(r, c, k + 1, n)
    ensures c == Closed(r, k, n) && ClosureOf(r, c, k) && LoopsAreLive(r, c, k, n)
  {
    ClosedSkipped(r, k, n);
    SpansIgnores(r, k + 1, n);
    ClosureOfLower(r, c, k + 1, k);
  }

  lemma ClosedEliminated(r: Relation, k: nat, n: nat, u1: Relation, e: Relation) returns (c: Relation)
    requires k < n && Spans(r, k, n) && !IgnoresBit(r, k)
    requires u1 == Closed(Block(r, k, true, true), k + 1, n) && e == Closed(Shortened(r, k, n), k + 1, n)
    requires ClosureOf(Block(r, k, true, true), u1, k + 1) && LoopsAreLive(Block(r, k, true, true), u1, k + 1, n)
    requires ClosureOf(Shortened(r, k, n), e, k + 1) && LoopsAreLive(Shortened(r, k, n), e, k + 1, n)
    ensures c == Closed(r, k, n) && ClosureOf(r, c, k) && LoopsAreLive(r, c, k, n)
  {
    var s := Eliminated(r, k, n);
    EliminatedShape(r, k, n);
    c := Assemble(s, k);
    EliminationExact(s, k, n, r, c);
  }

  lemma EliminatedShape(r: Relation, k: nat, n: nat)
    requires k < n
    ensures var s := Eliminated(r, k, n);
      && InputsAre(s, k, r) && s.Inner() == Shortened(r, k, n)
      && s.u1 == Closed(s.a11, k + 1, n) && s.e == Closed(s.Inner(), k + 1, n)
      && s.u2 == Comp(s.u1, s.a10) && s.u3 == Comp(s.a01, s.u1)
      && s.f == Comp(s.e, s.u3) && s.g == Comp(s.u2, s.e) && s.h == s.u1 + Comp(s.u2, s.f)
  {
  }

  ghost function Eliminated(r: Relation, k: nat, n: nat): Elimination
    requires k < n
  {
    var a01, a10, a11 := Block(r, k, false, true), Block(r, k, true, false), Block(r, k, true, true);
    var u1 := Closed(a11, k + 1, n);
    var u2, u3 := Comp(u1, a10), Comp(a01, u1);
    var e := Closed(Shortened(r, k, n), k + 1, n);
    var f := Comp(e, u3);
    Elimination(Block(r, k, false, false), a01, a10, a11, u1, u2, u3, e, f, Comp(u2, e), u1 + Comp(u2, f))
  }

  /** Bits that play no role may be passed over. */
  lemma {:induction false} ClosedLower(r: Relation, k: nat, k': nat, n: nat)
    requires Spans(r, k, n) && k' <= k <= n
    ensures Closed(r, k', n) == Closed(r, k, n)
    decreases k - k'
  {
    if k' < k {
      SpansSkips(r, k, k', n);
      ClosedLower(r, k, k' + 1, n);
      ClosedSkipped(r, k', n);
    }
  }

  lemma SpansSkips(r: Relation, k: nat, j: nat, n: nat)
    requires Spans(r, k, n) && j < k
    ensures IgnoresBit(r, j)
  {
    forall x: State, y: State, i, i' | (x, y) in r ensures (SetBit(x, j, i), SetBit(y, j, i')) in r {
      assert AgreeOn(x, SetBit(x, j, i), k, n) && AgreeOn(y, SetBit(y, j, i'), k, n);
    }
  }

  // ---------- The order of the states alone does not decide which are live ----------

  /** Bit 1 plays a role between states without bit 0, and none between states with it. */
  ghost function Skipping(): Relation {
    iset x: State, y: State
      | (0 in x && 0 in y && !(2 in x && 2 in y)) || (0 !in x && 0 !in y && 1 in x) :: (x, y)
  }

  ghost function SkippingBlock(): Relation {
    iset x: State, y: State | !(2 in x && 2 in y) :: (x, y)
  }

  lemma SkippingShape()
    ensures Spans(Skipping(), 0, 3) && !IgnoresBit(Skipping(), 0)
    ensures Block(Skipping(), 0, true, true) == SkippingBlock()
  {
    SkippingSpans();
    assert (iset{0}, iset{0}) in Skipping();
    assert (SetBit(iset{0}, 0, true), SetBit(iset{0}, 0, false)) !in Skipping();
    forall p ensures p in Block(Skipping(), 0, true, true) <==> p in SkippingBlock() {
      var x, y := SetBit(p.0, 0, true), SetBit(p.1, 0, true);
      assert p == (p.0, p.1) && (2 in x <==> 2 in p.0) && (2 in y <==> 2 in p.1);
      assert (x, y) in Skipping() <==> p in SkippingBlock();
    }
  }

  lemma SkippingSpans()
    ensures Spans(Skipping(), 0, 3)
  {
    forall x: State, y: State, x': State, y': State
      | (x, y) in Skipping() && AgreeOn(x, x', 0, 3) && AgreeOn(y, y', 0, 3)
      ensures (x', y') in Skipping()
    {
      assert (0 in x <==> 0 in x') && (1 in x <==> 1 in x') && (2 in x <==> 2 in x');
      assert (0 in y <==> 0 in y') && (2 in y <==> 2 in y');
    }
  }

  lemma SkippingBlockShape()
    ensures IgnoresBit(SkippingBlock(), 1) && !IgnoresBit(SkippingBlock(), 2)
  {
    assert (iset{}, iset{}) in SkippingBlock();
    assert (SetBit(iset{}, 2, true), SetBit(iset{}, 2, true)) !in SkippingBlock();
  }

  lemma SkippingBlockLive(k: nat, n: nat, x: State)
    requires k == 2 && n == 3
    ensures Live(SkippingBlock(), k, n, x) <==> 2 !in x
  {
    LiveRemaining(SkippingBlock(), k, n, x);
    LiveAtEnd(Remaining(SkippingBlock(), k, n, k in x), k + 1, n, x);
    SkippingRemaining(k, n, x);
  }

  lemma SkippingRemaining(k: nat, n: nat, x: State)
    requires k == 2 && n == 3
    ensures (x, x) in Remaining(SkippingBlock(), k, n, k in x) <==> 2 !in x
  {
    var q := SkippingBlock();
    SkippingBlockShape();
    BlockMember(q, k, x, x);
    assert 2 in x <==> (x, x) !in q;
  }

  lemma LiveAtEnd(r: Relation, k: nat, n: nat, x: State)
    requires k >= n
    ensures Live(r, k, n, x) <==> (x, x) in r
  {
  }

  lemma SkippingLive(k: nat, n: nat, x: State)
    requires k == 0 && n == 3 && 0 in x
    ensures Live(Skipping(), k, n, x) <==> 2 !in x
  {
    SkippingShape();
    SkippingBlockShape();
    LiveRemaining(Skipping(), k, n, x);
    LiveRemaining(SkippingBlock(), k + 1, n, x);
    SkippingBlockLive(k + 2, n, x);
  }

  /**
   A state can lie on a cycle through a live state that comes after it, and not be live: what comes after matters only
   as far as the bits that still play a role when the state is eliminated.
   */
  lemma LaterLiveCycleIsNotEnough(n: nat)
    requires n == 3
    ensures var x, p: State, r := iset{0, 2}, iset{0, 1}, Skipping();
      && Spans(r, 0, n) && Later(x, p) && (x, p) in r && (p, x) in r
      && (p, p) in Closed(r, 0, n) && (x, x) !in Closed(r, 0, n)
  {
    var x, p: State := iset{0, 2}, iset{0, 1};
    SkippingShape();
    SkippingLoops(n, x);
    SkippingLoops(n, p);
    assert AgreeBelow(x, p, 1);
  }

  lemma SkippingLoops(n: nat, x: State)
    requires n == 3 && 0 in x
    ensures (x, x) in Closed(Skipping(), 0, n) <==> 2 !in x
  {
    SkippingSpans();
    ClosedIsClosure(Skipping(), 0, n);
    assert (x, x) in Closed(Skipping(), 0, n) <==> Live(Skipping(), 0, n, x);
    SkippingLive(0, n, x);
  }
}
