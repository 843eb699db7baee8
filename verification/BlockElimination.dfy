/**
 The block elimination of Matsunaga, McGeer and Brayton, on which sylvan_closure is built: the closure of a
 relation from the closures of two smaller relations.
 */
module BlockElimination {
  /*
   One state variable splits the states into block 0 and block 1, and the steps of the relation into the four parts
   a00, a01, a10 and a11. Block 1 is eliminated first: u1 is the closure of a11. A step inside block 0 is then one of
   a00 or a detour through block 1, by a01, u1 and a10; e is the closure of these steps. The parts of the result are

     from block 0 to block 0: e
     from block 0 to block 1: f, that is e and then u3, where u3 is a01 and then u1
     from block 1 to block 0: g, that is u2 and then e, where u2 is u1 and then a10
     from block 1 to block 1: h, that is u1, or u2 and then f.

   The first part below shows that the result is transitive and absorbs the relation, and that it is contained in
   every transitive relation above it. The second part finds out which states the result relates to themselves, and
   the third one when the relation is contained in the result.
   */
  import opened Relations

  /** A transitive relation that absorbs `r` also absorbs `r` or no step at all. */
  lemma AbsorbsComp(c: Relation, r: Relation)
    requires Transitive(c) && Absorbs(c, r)
    ensures Comp(Comp(c, r + Identity()), c) <= c
  {
    forall p | p in Comp(Comp(c, r + Identity()), c) ensures p in c {
      var m: State :| (p.0, m) in Comp(c, r + Identity()) && (m, p.1) in c;
      var n: State :| (p.0, n) in c && (n, m) in r + Identity();
    }
  }

  /** The intermediate results of one elimination step, named as in the source. */
  datatype Elimination = Elimination(
    a00: Relation, a01: Relation, a10: Relation, a11: Relation,
    u1: Relation, u2: Relation, u3: Relation, e: Relation, f: Relation, g: Relation, h: Relation)
  {
    ghost predicate Valid() {
      && Transitive(u1) && Absorbs(u1, a11)
      && u3 == Comp(a01, u1)
      && u2 == Comp(u1, a10)
      && Transitive(e) && Absorbs(e, Inner())
      && g == Comp(u2, e)
      && f == Comp(e, u3)
      && h == u1 + Comp(u2, f)
    }

    /** The steps inside block 0, directly or by a detour through block 1. */
    ghost function Inner(): Relation { a00 + Comp(a01, u2) }

    /** The two recursive calls return closures. */
    ghost predicate Solved(k: nat) {
      Valid() && ClosureOf(a11, u1, k + 1) && ClosureOf(Inner(), e, k + 1)
    }

    ghost function Input(i: bool, j: bool): Relation {
      if i then (if j then a11 else a10) else (if j then a01 else a00)
    }

    ghost function Output(i: bool, j: bool): Relation {
      if i then (if j then h else g) else (if j then f else e)
    }

    /** One input step, or no step when source and target are in the same block. */
    ghost function Step(i: bool, j: bool): Relation {
      if i == j then Input(i, j) + Identity() else Input(i, j)
    }
  }

  /** `e` absorbs a step inside block 0 and a detour through block 1. */
  lemma AbsorbE(s: Elimination)
    requires s.Valid()
    ensures Comp(Comp(s.e, s.Step(false, false)), s.e) <= s.e
    ensures Comp(Comp(s.f, s.a10), s.e) <= s.e
  {
    var inner := s.Inner();
    AbsorbsComp(s.e, inner);
    var w := inner + Identity();
    CompMonotone(s.e, s.e, s.a00 + Identity(), w);
    CompMonotone(Comp(s.e, s.a00 + Identity()), Comp(s.e, w), s.e, s.e);
    CompMonotone(s.e, s.e, Comp(s.a01, s.u2), w);
    CompMonotone(Comp(s.e, Comp(s.a01, s.u2)), Comp(s.e, w), s.e, s.e);
    CompAssociative(s.e, s.u3, s.a10);
    CompAssociative(s.a01, s.u1, s.a10);
  }

  /** `u1` absorbs a step inside block 1. */
  lemma AbsorbU(s: Elimination, left: Relation)
    requires s.Valid()
    ensures Comp(Comp(Comp(left, s.u1), s.Step(true, true)), s.u1) <= Comp(left, s.u1)
  {
    AbsorbsComp(s.u1, s.a11);
    var m := s.Step(true, true);
    CompAssociative(left, s.u1, m);
    CompAssociative(left, Comp(s.u1, m), s.u1);
    CompMonotone(left, left, Comp(Comp(s.u1, m), s.u1), s.u1);
  }

  /** After a step into block 0, going on by `e`. */
  lemma IntoBlock0(s: Elimination)
    requires s.Valid()
    ensures Comp(Comp(s.e, s.Step(false, false)), s.e) <= s.e && Comp(Comp(s.f, s.a10), s.e) <= s.e
    ensures Comp(Comp(s.g, s.Step(false, false)), s.e) <= s.g && Comp(Comp(s.h, s.a10), s.e) <= s.g
  {
    AbsorbE(s);
    var m := s.Step(false, false);
    CompAssociative(s.u2, s.e, m);
    CompAssociative(s.u2, Comp(s.e, m), s.e);
    CompMonotone(s.u2, s.u2, Comp(Comp(s.e, m), s.e), s.e);
    CompUnion(s.u1, Comp(s.u2, s.f), s.a10);
    CompUnion(Comp(s.u1, s.a10), Comp(Comp(s.u2, s.f), s.a10), s.e);
    CompAssociative(s.u2, s.f, s.a10);
    CompAssociative(s.u2, Comp(s.f, s.a10), s.e);
    CompMonotone(s.u2, s.u2, Comp(Comp(s.f, s.a10), s.e), s.e);
  }

  /** After a step into block 1, going on by `u1`. */
  lemma IntoBlock1(s: Elimination)
    requires s.Valid()
    ensures Comp(Comp(s.e, s.a01), s.u1) <= s.f && Comp(Comp(s.f, s.Step(true, true)), s.u1) <= s.f
    ensures Comp(Comp(s.g, s.a01), s.u1) <= s.h && Comp(Comp(s.h, s.Step(true, true)), s.u1) <= s.h
  {
    var m := s.Step(true, true);
    CompAssociative(s.e, s.a01, s.u1);
    AbsorbU(s, Comp(s.e, s.a01));
    CompAssociative(s.u2, s.e, s.a01);
    CompAssociative(s.u2, Comp(s.e, s.a01), s.u1);
    AbsorbsComp(s.u1, s.a11);
    CompUnion(s.u1, Comp(s.u2, s.f), m);
    CompUnion(Comp(s.u1, m), Comp(Comp(s.u2, s.f), m), s.u1);
    CompAssociative(s.u2, s.f, m);
    CompAssociative(s.u2, Comp(s.f, m), s.u1);
    CompMonotone(s.u2, s.u2, Comp(Comp(s.f, m), s.u1), s.f);
  }

  /** An output block, a step and another output block stay within an output block. */
  lemma OutputAbsorbs(s: Elimination, i: bool, j: bool, m: bool, l: bool)
    requires s.Valid()
    ensures Comp(Comp(s.Output(i, j), s.Step(j, m)), s.Output(m, l)) <= s.Output(i, l)
  {
    IntoBlock0(s);
    IntoBlock1(s);
    var left := Comp(s.Output(i, j), s.Step(j, m));
    if !m {
      assert Comp(left, s.e) <= s.Output(i, false);
      if l {
        ContinueByU3(s, left, i);
      }
    } else {
      assert Comp(left, s.u1) <= s.Output(i, true);
      CompAssociative(left, s.u1, s.a10);
      CompMonotone(Comp(left, s.u1), s.Output(i, true), s.a10, s.a10);
      var back := Comp(left, s.u2);
      assert back <= Comp(s.Output(i, true), s.a10);
      CompMonotone(back, Comp(s.Output(i, true), s.a10), s.e, s.e);
      assert Comp(back, s.e) <= s.Output(i, false);
      if l {
        ContinueByU3(s, back, i);
        CompAssociative(left, s.u2, s.f);
        CompUnion(s.u1, Comp(s.u2, s.f), left);
      } else {
        CompAssociative(left, s.u2, s.e);
      }
    }
  }

  lemma ContinueByU3(s: Elimination, left: Relation, i: bool)
    requires s.Valid() && Comp(left, s.e) <= s.Output(i, false)
    ensures Comp(left, s.f) <= s.Output(i, true)
  {
    CompAssociative(left, s.e, s.u3);
    CompMonotone(Comp(left, s.e), s.Output(i, false), s.u3, s.u3);
    CompAssociative(s.u2, s.e, s.u3);
  }

  /** Every step of `r` is in the input block of its ends. */
  ghost predicate StepsIn(s: Elimination, k: nat, r: Relation) {
    forall x: State, y: State :: (x, y) in r ==> (x, y) in s.Input(k in x, k in y)
  }

  /** `c` is put together from the output blocks. */
  ghost predicate OutputsIn(s: Elimination, k: nat, c: Relation) {
    forall x: State, y: State :: (x, y) in c <==> (x, y) in s.Output(k in x, k in y)
  }

  ghost predicate InputsAre(s: Elimination, k: nat, r: Relation) {
    && s.a00 == Block(r, k, false, false) && s.a01 == Block(r, k, false, true)
    && s.a10 == Block(r, k, true, false) && s.a11 == Block(r, k, true, true)
  }

  /** The inputs are the blocks of `r` and the outputs are the blocks of `c`. */
  ghost predicate Assembled(s: Elimination, k: nat, r: Relation, c: Relation) {
    && InputsAre(s, k, r)
    && OutputsIn(s, k, c)
  }

  lemma AssembledSteps(s: Elimination, k: nat, r: Relation, c: Relation)
    requires Assembled(s, k, r, c)
    ensures StepsIn(s, k, r)
  {
    forall x: State, y: State | (x, y) in r ensures (x, y) in s.Input(k in x, k in y) {
      BlockMember(r, k, x, y);
    }
  }

  ghost predicate OutputsAbsorb(s: Elimination) {
    forall i, j, m, l {:trigger Comp(Comp(s.Output(i, j), s.Step(j, m)), s.Output(m, l))} ::
      Comp(Comp(s.Output(i, j), s.Step(j, m)), s.Output(m, l)) <= s.Output(i, l)
  }

  lemma ValidOutputsAbsorb(s: Elimination)
    requires s.Valid()
    ensures OutputsAbsorb(s)
  {
    forall i, j, m, l ensures Comp(Comp(s.Output(i, j), s.Step(j, m)), s.Output(m, l)) <= s.Output(i, l) {
      OutputAbsorbs(s, i, j, m, l);
    }
  }

  lemma AbsorbPoint(s: Elimination, k: nat, r: Relation, c: Relation, x: State, y: State, y': State, z: State)
    requires OutputsAbsorb(s) && StepsIn(s, k, r) && OutputsIn(s, k, c)
    requires (x, y) in c && (y == y' || (y, y') in r) && (y', z) in c
    ensures (x, z) in c
  {
    assert (y, y) in Identity();
    var i, j, m, l := k in x, k in y, k in y', k in z;
    var left := Comp(s.Output(i, j), s.Step(j, m));
    assert (x, y') in left;
    assert (x, z) in Comp(left, s.Output(m, l));
  }

  lemma EliminationAbsorbs(s: Elimination, k: nat, r: Relation, c: Relation)
    requires s.Valid() && StepsIn(s, k, r) && OutputsIn(s, k, c)
    ensures Transitive(c) && Absorbs(c, r)
  {
    ValidOutputsAbsorb(s);
    forall x: State, y: State, z: State | (x, y) in c && (y, z) in c ensures (x, z) in c {
      AbsorbPoint(s, k, r, c, x, y, y, z);
    }
    forall x: State, y: State, y': State, z: State | (x, y) in c && (y, y') in r && (y', z) in c
      ensures (x, z) in c
    {
      AbsorbPoint(s, k, r, c, x, y, y', z);
    }
  }

  /** Moving a state into the block where it is looked at leaves it live. */
  lemma LoopsMoved(s: Elimination, k: nat, c: Relation, b: bool, x: State)
    requires s.Valid() && OutputsIn(s, k, c) && Ignores(s.u1, k + 1) && Ignores(s.e, k + 1)
    requires LiveIn(s, b, x)
    ensures (SetBit(x, k, b), SetBit(x, k, b)) in c
  {
    var x' := SetBit(x, k, b);
    assert AgreeFrom(x, x', k + 1);
    assert (x', x') in s.Output(b, b);
  }

  ghost predicate LiveIn(s: Elimination, i: bool, x: State) { (x, x) in (if i then s.u1 else s.e) }

  /** The input steps between live states are steps of `t`. */
  ghost predicate LiveStepsIn(s: Elimination, k: nat, t: Relation) {
    forall i, j, x: State, y: State {:trigger s.Input(i, j), LiveIn(s, i, x), LiveIn(s, j, y)} ::
      (x, y) in s.Input(i, j) && LiveIn(s, i, x) && LiveIn(s, j, y) ==> (x, y) in Block(t, k, i, j)
  }

  /** A transitive relation above the steps between live states is above the result. */
  lemma EliminationLeast(s: Elimination, k: nat, r: Relation, c: Relation, t: Relation)
    requires s.Solved(k) && Assembled(s, k, r, c) && Ignores(s.u1, k + 1) && Ignores(s.e, k + 1)
    requires Transitive(t) && LoopPart(r, c) <= t
    ensures c <= t
  {
    forall i, j, x: State, y: State | (x, y) in s.Input(i, j) && LiveIn(s, i, x) && LiveIn(s, j, y)
      ensures (x, y) in Block(t, k, i, j)
    {
      LoopsMoved(s, k, c, i, x);
      LoopsMoved(s, k, c, j, y);
      assert (SetBit(x, k, i), SetBit(y, k, j)) in r;
    }
    LeastBlocks(s, k, t);
    forall p | p in c ensures p in t {
      BlockMember(t, k, p.0, p.1);
      assert p == (p.0, p.1);
      LeastOutput(s, k, t, k in p.0, k in p.1, p.0, p.1);
    }
  }

  lemma LeastBlocks(s: Elimination, k: nat, t: Relation)
    requires s.Solved(k) && Transitive(t) && LiveStepsIn(s, k, t)
    ensures s.u1 <= Block(t, k, true, true) && s.e <= Block(t, k, false, false)
  {
    var t00, t11 := Block(t, k, false, false), Block(t, k, true, true);
    forall p | p in LoopPart(s.a11, s.u1) ensures p in t11 {
      assert p == (p.0, p.1) && p in s.Input(true, true) && LiveIn(s, true, p.0) && LiveIn(s, true, p.1);
    }
    assert Transitive(t11) && Transitive(t00);
    forall p | p in LoopPart(s.Inner(), s.e) ensures p in t00 {
      assert p == (p.0, p.1) && LiveIn(s, false, p.0) && LiveIn(s, false, p.1);
      if p in s.a00 {
        assert p in s.Input(false, false);
      } else {
        var m: State :| (p.0, m) in s.a01 && (m, p.1) in s.u2;
        LeastU2(s, k, t, m, p.1);
        assert LiveIn(s, true, m) && (p.0, m) in s.Input(false, true);
      }
    }
  }

  lemma LeastU2(s: Elimination, k: nat, t: Relation, x: State, y: State)
    requires s.Solved(k) && Transitive(t) && LiveStepsIn(s, k, t) && s.u1 <= Block(t, k, true, true)
    requires (x, y) in s.u2 && LiveIn(s, false, y)
    ensures (x, y) in Block(t, k, true, false) && LiveIn(s, true, x)
  {
    var n: State :| (x, n) in s.u1 && (n, y) in s.a10;
    assert LiveIn(s, true, n) && (n, y) in s.Input(true, false);
    assert (x, n) in Block(t, k, true, true) && (n, y) in Block(t, k, true, false);
  }

  lemma LeastF(s: Elimination, k: nat, t: Relation, x: State, y: State)
    requires s.Solved(k) && Transitive(t) && LiveStepsIn(s, k, t)
    requires s.u1 <= Block(t, k, true, true) && s.e <= Block(t, k, false, false) && (x, y) in s.f
    ensures (x, y) in Block(t, k, false, true) && LiveIn(s, false, x)
  {
    var p: State :| (x, p) in s.e && (p, y) in s.u3;
    var m: State :| (p, m) in s.a01 && (m, y) in s.u1;
    assert LiveIn(s, false, p) && LiveIn(s, true, m) && (p, m) in s.Input(false, true);
    assert (x, p) in Block(t, k, false, false) && (p, m) in Block(t, k, false, true);
    assert (m, y) in Block(t, k, true, true);
  }

  lemma LeastOutput(s: Elimination, k: nat, t: Relation, i: bool, j: bool, x: State, y: State)
    requires s.Solved(k) && Transitive(t) && LiveStepsIn(s, k, t)
    requires s.u1 <= Block(t, k, true, true) && s.e <= Block(t, k, false, false) && (x, y) in s.Output(i, j)
    ensures (x, y) in Block(t, k, i, j)
  {
    if !i && j {
      LeastF(s, k, t, x, y);
    } else if i && !j {
      var q: State :| (x, q) in s.u2 && (q, y) in s.e;
      LeastU2(s, k, t, x, q);
      assert (q, y) in Block(t, k, false, false);
    } else if i && (x, y) !in s.u1 {
      var q: State :| (x, q) in s.u2 && (q, y) in s.f;
      LeastF(s, k, t, q, y);
      LeastU2(s, k, t, x, q);
    }
  }

  lemma EliminationLooping(s: Elimination, k: nat, c: Relation)
    requires s.Valid() && Looping(s.u1) && Looping(s.e) && OutputsIn(s, k, c)
    ensures Looping(c)
  {
    forall x: State, y: State | (x, y) in c ensures (x, x) in c && (y, y) in c {
      OutputLooping(s, k in x, k in y, x, y);
      assert (x, x) in s.Output(k in x, k in x) && (y, y) in s.Output(k in y, k in y);
    }
  }

  lemma OutputLooping(s: Elimination, i: bool, j: bool, x: State, y: State)
    requires s.Valid() && Looping(s.u1) && Looping(s.e) && (x, y) in s.Output(i, j)
    ensures (x, x) in (if i then s.u1 else s.e) && (y, y) in (if j then s.u1 else s.e)
  {
    OutputLoopingLeft(s, i, j, x, y);
    OutputLoopingRight(s, i, j, x, y);
  }

  lemma OutputLoopingLeft(s: Elimination, i: bool, j: bool, x: State, y: State)
    requires s.Valid() && Looping(s.u1) && Looping(s.e) && (x, y) in s.Output(i, j)
    ensures (x, x) in (if i then s.u1 else s.e)
  {
    if i && (x, y) !in s.u1 {
      var m: State :| (x, m) in s.u2;
      var n: State :| (x, n) in s.u1 && (n, m) in s.a10;
    }
  }

  lemma OutputLoopingRight(s: Elimination, i: bool, j: bool, x: State, y: State)
    requires s.Valid() && Looping(s.u1) && Looping(s.e) && (x, y) in s.Output(i, j)
    ensures (y, y) in (if j then s.u1 else s.e)
  {
    if j && (x, y) !in s.u1 {
      assert (x, y) in s.f || (x, y) in Comp(s.u2, s.f);
      var m: State :| (m, y) in s.f;
      var n: State :| (m, n) in s.e && (n, y) in s.u3;
      var q: State :| (n, q) in s.a01 && (q, y) in s.u1;
    }
  }

  // ---------- States on cycles through later states ----------

  lemma FromSameBlock(k: nat, x: State, p: State)
    requires From(k, x, p) && (k in x || k !in p)
    ensures From(k + 1, x, p) && (k in x <==> k in p)
  {
  }

  /** A state that the result relates to itself lies on a cycle through later states. */
  lemma EliminationLive(s: Elimination, k: nat, r: Relation, c: Relation, x: State)
    requires s.Solved(k) && Assembled(s, k, r, c) && Ignores(r, k)
    requires (x, x) in c
    ensures OnLaterCycle(r, k, x)
  {
    AssembledSteps(s, k, r, c);
    assert (x, x) in s.Output(k in x, k in x);
    OutputLooping(s, k in x, k in x, x, x);
    if k in x {
      LiveInBlock1(s, k, r, x);
    } else {
      LiveInBlock0(s, k, r, x);
    }
  }

  lemma LiveInBlock1(s: Elimination, k: nat, r: Relation, x: State)
    requires ClosureOf(s.a11, s.u1, k + 1) && s.a11 == Block(r, k, true, true) && k in x && (x, x) in s.u1
    ensures OnLaterCycle(r, k, x)
  {
    assert OnLaterCycle(s.a11, k + 1, x);
    CycleInBlock1(s.a11, k, r, x);
  }

  lemma CycleInBlock1(a11: Relation, k: nat, r: Relation, x: State)
    requires a11 == Block(r, k, true, true) && k in x && OnLaterCycle(a11, k + 1, x)
    ensures OnLaterCycle(r, k, x)
  {
    var inner := Within(a11, k + 1, x);
    forall p: State, q: State | (p, q) in inner ensures (p, q) in Within(r, k, x) {
      assert k in p && k in q;
      BlockMember(r, k, p, q);
    }
    PlusMap(inner, Within(r, k, x), y => y, x, x);
  }

  lemma LiveInBlock0(s: Elimination, k: nat, r: Relation, x: State)
    requires s.u2 == Comp(s.u1, s.a10)
    requires forall t: Relation :: Transitive(t) && LoopPart(s.a11, s.u1) <= t ==> s.u1 <= t
    requires InputsAre(s, k, r) && Ignores(r, k)
    requires k !in x && OnLaterCycle(s.Inner(), k + 1, x)
    ensures OnLaterCycle(r, k, x)
  {
    var inner := Within(s.Inner(), k + 1, x);
    var plus := PlusOf(Within(r, k, x));
    PlusTransitive(s.a11);
    assert LoopPart(s.a11, s.u1) <= PlusOf(s.a11);
    forall p | p in inner ensures p in plus {
      assert p == (p.0, p.1);
      InnerStepLive(s, k, r, x, p.0, p.1);
    }
    PlusTransitive(Within(r, k, x));
    PlusLeast(inner, plus);
    assert (x, x) in PlusOf(inner);
  }

  /** Brings a state into block 1, with the bits of `x` below `k`. */
  ghost function Lift(k: nat, x: State, y: State): State { SetBit(Overlay(y, k, x), k, true) }

  lemma LiftShape(k: nat, x: State, y: State)
    requires k !in x
    ensures k in Lift(k, x, y) && From(k, x, Lift(k, x, y)) && AgreeFrom(SetBit(y, k, true), Lift(k, x, y), k)
  {
    assert k !in x && k in Lift(k, x, y) && AgreeBelow(x, Lift(k, x, y), k);
  }

  /** A step inside block 0, or its detour through block 1, is a path through states from `x` on. */
  lemma InnerStepLive(s: Elimination, k: nat, r: Relation, x: State, p: State, q: State)
    requires s.u2 == Comp(s.u1, s.a10) && s.u1 <= PlusOf(s.a11) && InputsAre(s, k, r) && Ignores(r, k)
    requires k !in x && (p, q) in Within(s.Inner(), k + 1, x)
    ensures ReachPlus(Within(r, k, x), p, q)
  {
    assert k !in p && k !in q && From(k, x, p) && From(k, x, q);
    if (p, q) in s.a00 {
      BlockMember(r, k, p, q);
      assert IsPath(Within(r, k, x), [p, q]);
    } else {
      var m: State :| (p, m) in s.a01 && (m, q) in s.u2;
      var n: State :| (m, n) in s.u1 && (n, q) in s.a10;
      assert (m, n) in PlusOf(s.a11);
      DetourLive(r, k, x, p, m, n, q);
    }
  }

  lemma DetourLive(r: Relation, k: nat, x: State, p: State, m: State, n: State, q: State)
    requires Ignores(r, k) && k !in x && k !in p && k !in q && From(k, x, p) && From(k, x, q)
    requires (p, m) in Block(r, k, false, true) && (n, q) in Block(r, k, true, false)
    requires ReachPlus(Block(r, k, true, true), m, n)
    ensures ReachPlus(Within(r, k, x), p, q)
  {
    var w := Within(r, k, x);
    PlusTransitive(w);
    LiftShape(k, x, m);
    LiftShape(k, x, n);
    assert SetBit(p, k, false) == p && SetBit(q, k, false) == q;
    assert (p, Lift(k, x, m)) in w && (Lift(k, x, n), q) in w;
    MiddleLive(r, k, x, m, n);
    var plus := PlusOf(w);
    assert (p, Lift(k, x, m)) in plus && (Lift(k, x, m), Lift(k, x, n)) in plus && (Lift(k, x, n), q) in plus;
    assert (p, q) in plus;
  }

  lemma MiddleLive(r: Relation, k: nat, x: State, m: State, n: State)
    requires Ignores(r, k) && k !in x && ReachPlus(Block(r, k, true, true), m, n)
    ensures ReachPlus(Within(r, k, x), Lift(k, x, m), Lift(k, x, n))
  {
    forall p: State, q: State | (p, q) in Block(r, k, true, true)
      ensures (Lift(k, x, p), Lift(k, x, q)) in Within(r, k, x)
    {
      LiftShape(k, x, p);
      LiftShape(k, x, q);
      assert (SetBit(p, k, true), SetBit(q, k, true)) in r;
    }
    PlusMap(Block(r, k, true, true), Within(r, k, x), y => Lift(k, x, y), m, n);
  }

  // ---------- Covered relations are contained in their closure ----------

  /** Moving the bit `k` of every state along. */
  lemma CoveredMove(r: Relation, k: nat, x: State, b: bool)
    requires Ignores(r, k + 1) && OnLaterCycle(r, k + 1, SetBit(x, k, b))
    ensures OnLaterCycle(r, k + 1, x)
  {
    var x' := SetBit(x, k, b);
    var f := (y: State) => SetBit(y, k, k in x);
    forall p: State | From(k + 1, x', p) ensures From(k + 1, x, f(p)) {
      if x' == p {
        assert f(p) == x;
      } else {
        var m: nat :| m !in x' && m in p && AgreeBelow(x', p, m);
        assert m !in x && m in f(p) && AgreeBelow(x, f(p), m);
      }
    }
    forall p: State, q: State | (p, q) in Within(r, k + 1, x') ensures (f(p), f(q)) in Within(r, k + 1, x) {
      assert AgreeFrom(p, f(p), k + 1) && AgreeFrom(q, f(q), k + 1);
    }
    assert f(x') == x;
    PlusMap(Within(r, k + 1, x'), Within(r, k + 1, x), f, x', x');
  }

  /** The steps from `x` on stay in block 1 when `x` is in block 1. */
  lemma WithinBlock1(s: Elimination, k: nat, r: Relation, x: State)
    requires s.a11 == Block(r, k, true, true) && k in x
    ensures Within(r, k, x) <= Within(s.a11, k + 1, x)
  {
    forall p | p in Within(r, k, x) ensures p in Within(s.a11, k + 1, x) {
      assert p == (p.0, p.1);
      FromSameBlock(k, x, p.0);
      FromSameBlock(k, x, p.1);
      BlockMember(r, k, p.0, p.1);
    }
  }

  lemma CoveredBlock1(s: Elimination, k: nat, r: Relation)
    requires ClosureOf(s.a11, s.u1, k + 1) && s.a11 == Block(r, k, true, true) && Ignores(s.a11, k + 1)
    requires Covered(r, k)
    ensures s.a11 <= s.u1
    ensures forall m: State :: k in m && Touched(r, m) ==> (m, m) in s.u1
  {
    forall x: State | Touched(s.a11, x) ensures OnLaterCycle(s.a11, k + 1, x) {
      var x' := SetBit(x, k, true);
      assert Touched(r, x') by {
        var y: State :| (x, y) in s.a11 || (y, x) in s.a11;
        assert (x', SetBit(y, k, true)) in r || (SetBit(y, k, true), x') in r;
      }
      WithinBlock1(s, k, r, x');
      PlusMap(Within(r, k, x'), Within(s.a11, k + 1, x'), y => y, x', x');
      CoveredMove(s.a11, k, x, true);
    }
    assert Covered(s.a11, k + 1);
    forall m: State | k in m && Touched(r, m) ensures (m, m) in s.u1 {
      WithinBlock1(s, k, r, m);
      PlusLeast(Within(r, k, m), s.u1);
      assert (m, m) in PlusOf(Within(r, k, m));
    }
  }

  /** The steps of `w` from block `i` to block `j`. */
  ghost function Part(w: Relation, k: nat, i: bool, j: bool): Relation {
    iset p: State, q: State | (p, q) in w && (k in p <==> i) && (k in q <==> j) :: (p, q)
  }

  /** The elimination step on the part `w` of the relation, with a reflexive middle. */
  ghost function Compressed(s: Elimination, k: nat, w: Relation, plus: Relation): Elimination {
    var e := plus + Identity();
    var a01, a10 := Part(w, k, false, true), Part(w, k, true, false);
    var u2, u3 := Comp(s.u1, a10), Comp(a01, s.u1);
    var f := Comp(e, u3);
    Elimination(Part(w, k, false, false), a01, a10, Part(w, k, true, true),
                s.u1, u2, u3, e, f, Comp(u2, e), s.u1 + Comp(u2, f))
  }

  ghost function Assemble(s: Elimination, k: nat): Relation {
    iset p: State, q: State | (p, q) in s.Output(k in p, k in q) :: (p, q)
  }

  /** The steps of the compressed relation that stay in block 0 are steps of the second recursive call. */
  lemma CompressedInner(s: Elimination, k: nat, r: Relation, x: State)
    requires s.u2 == Comp(s.u1, s.a10) && InputsAre(s, k, r) && k !in x
    ensures Compressed(s, k, Within(r, k, x), PlusOf(Within(s.Inner(), k + 1, x))).Inner()
      <= Within(s.Inner(), k + 1, x)
  {
    var w := Within(r, k, x);
    var d := Compressed(s, k, w, PlusOf(Within(s.Inner(), k + 1, x)));
    forall p | p in d.Inner() ensures p in Within(s.Inner(), k + 1, x) {
      assert p == (p.0, p.1);
      if p in d.a00 {
        BlockMember(r, k, p.0, p.1);
        assert p in s.Input(false, false);
      } else {
        var m: State :| (p.0, m) in d.a01 && (m, p.1) in d.u2;
        var n: State :| (m, n) in s.u1 && (n, p.1) in d.a10;
        BlockMember(r, k, p.0, m);
        BlockMember(r, k, n, p.1);
        assert (p.0, m) in s.Input(false, true) && (n, p.1) in s.Input(true, false);
        assert (m, p.1) in s.u2;
      }
      FromSameBlock(k, x, p.0);
      FromSameBlock(k, x, p.1);
    }
  }

  lemma CompressedValid(s: Elimination, k: nat, w: Relation, inner: Relation)
    requires Transitive(s.u1) && Absorbs(s.u1, s.a11) && Part(w, k, true, true) <= s.a11
    requires Compressed(s, k, w, PlusOf(inner)).Inner() <= inner
    ensures Compressed(s, k, w, PlusOf(inner)).Valid()
  {
    var plus := PlusOf(inner);
    PlusTransitive(inner);
    var e := plus + Identity();
    assert Transitive(e);
    forall x: State, y: State, y': State, z: State | (x, y) in e && (y, y') in inner && (y', z) in e
      ensures (x, z) in e
    {
      assert (y, y') in plus;
    }
  }

  lemma CompressedCovers(s: Elimination, k: nat, r: Relation, w: Relation, d: Elimination)
    requires d.Valid() && d.u1 == s.u1 && d.e >= Identity() && w <= r
    requires forall i, j :: d.Input(i, j) == Part(w, k, i, j)
    requires forall m: State :: k in m && Touched(r, m) ==> (m, m) in s.u1
    ensures PlusOf(w) <= Assemble(d, k)
  {
    var c := Assemble(d, k);
    forall x: State, y: State | (x, y) in w ensures (x, y) in d.Input(k in x, k in y) {}
    EliminationAbsorbs(d, k, w, c);
    forall p | p in w ensures p in c {
      assert p == (p.0, p.1);
      assert Touched(r, p.0) && Touched(r, p.1);
      assert (p.0, p.0) in Identity() && (p.1, p.1) in Identity();
      assert (p.0, p.0) in d.Output(k in p.0, k in p.0) && (p.1, p.1) in d.Output(k in p.1, k in p.1);
    }
    PlusLeast(w, c);
  }

  /** A cycle through states from `x` on becomes a cycle of the second recursive call. */
  lemma CompressCycle(s: Elimination, k: nat, r: Relation, x: State)
    requires s.u2 == Comp(s.u1, s.a10) && Transitive(s.u1) && Absorbs(s.u1, s.a11)
    requires InputsAre(s, k, r) && k !in x
    requires forall m: State :: k in m && Touched(r, m) ==> (m, m) in s.u1
    requires OnLaterCycle(r, k, x)
    ensures OnLaterCycle(s.Inner(), k + 1, x)
  {
    var w, inner := Within(r, k, x), Within(s.Inner(), k + 1, x);
    var d := Compressed(s, k, w, PlusOf(inner));
    CompressedInner(s, k, r, x);
    PartOfBlock1(r, k, w);
    CompressedValid(s, k, w, inner);
    CompressedCovers(s, k, r, w, d);
    CompressPath(d, k, w, inner, x);
  }

  lemma PartOfBlock1(r: Relation, k: nat, w: Relation)
    requires w <= r
    ensures Part(w, k, true, true) <= Block(r, k, true, true)
  {
    forall p | p in Part(w, k, true, true) ensures p in Block(r, k, true, true) {
      BlockMember(r, k, p.0, p.1);
    }
  }

  /** The first step of the cycle leads to a step of the second recursive call, and the rest follows it. */
  lemma CompressPath(d: Elimination, k: nat, w: Relation, inner: Relation, x: State)
    requires d.g == Comp(d.u2, d.e) && d.e == PlusOf(inner) + Identity() && d.Inner() <= inner
    requires forall i, j :: d.Input(i, j) == Part(w, k, i, j)
    requires PlusOf(w) <= Assemble(d, k) && k !in x && ReachPlus(w, x, x)
    ensures ReachPlus(inner, x, x)
  {
    var plus := PlusOf(inner);
    PlusTransitive(inner);
    var path: seq<State> :| |path| >= 2 && IsPath(w, path) && path[0] == x && path[|path| - 1] == x;
    var y := path[1];
    assert (x, y) in w;
    assert (x, y) in d.Input(k in x, k in y);
    assert y == x || (y, x) in d.Output(k in y, k in x) by {
      if |path| > 2 {
        assert IsPath(w, path[1..]);
        assert (y, x) in PlusOf(w);
      }
    }
    if k !in y {
      assert (x, y) in plus;
      assert y == x || (y, x) in plus + Identity();
    } else {
      var q: State :| (y, q) in d.u2 && (q, x) in d.e;
      assert (x, q) in Comp(d.a01, d.u2);
      assert (x, q) in plus;
    }
    assert (x, x) in plus;
  }

  lemma CoveredBlock0(s: Elimination, k: nat, r: Relation)
    requires s.u2 == Comp(s.u1, s.a10) && Transitive(s.u1) && Absorbs(s.u1, s.a11)
    requires ClosureOf(s.Inner(), s.e, k + 1) && InputsAre(s, k, r)
    requires forall m: State :: k in m && Touched(r, m) ==> (m, m) in s.u1
    requires Covered(r, k) && Ignores(s.Inner(), k + 1)
    ensures s.Inner() <= s.e
    ensures forall m: State :: k !in m && Touched(r, m) ==> (m, m) in s.e
  {
    forall x: State | Touched(s.Inner(), x) ensures OnLaterCycle(s.Inner(), k + 1, x) {
      var x' := SetBit(x, k, false);
      InnerTouched(s, k, r, x);
      CompressCycle(s, k, r, x');
      CoveredMove(s.Inner(), k, x, false);
    }
    assert Covered(s.Inner(), k + 1);
    forall m: State | k !in m && Touched(r, m) ensures (m, m) in s.e {
      CompressCycle(s, k, r, m);
      PlusLeast(Within(s.Inner(), k + 1, m), s.e);
      assert (m, m) in PlusOf(Within(s.Inner(), k + 1, m));
    }
  }

  lemma InnerTouched(s: Elimination, k: nat, r: Relation, x: State)
    requires s.u2 == Comp(s.u1, s.a10) && InputsAre(s, k, r) && Touched(s.Inner(), x)
    ensures Touched(r, SetBit(x, k, false))
  {
    var x' := SetBit(x, k, false);
    assert s.a00 == s.Input(false, false) && s.a01 == s.Input(false, true) && s.a10 == s.Input(true, false);
    var y: State :| (x, y) in s.Inner() || (y, x) in s.Inner();
    if (x, y) in s.Inner() {
      if (x, y) in s.a00 {
        assert (x', SetBit(y, k, false)) in r;
      } else {
        var m: State :| (x, m) in s.a01 && (m, y) in s.u2;
        assert (x', SetBit(m, k, true)) in r;
      }
    } else if (y, x) in s.a00 {
      assert (SetBit(y, k, false), x') in r;
    } else {
      var m: State :| (y, m) in s.a01 && (m, x) in s.u2;
      var n: State :| (m, n) in s.u1 && (n, x) in s.a10;
      assert (SetBit(n, k, true), x') in r;
    }
  }

  lemma EliminationCovered(s: Elimination, k: nat, r: Relation, c: Relation)
    requires s.Solved(k) && Assembled(s, k, r, c)
    requires Ignores(s.a11, k + 1) && Ignores(s.Inner(), k + 1)
    requires Covered(r, k)
    ensures r <= c
  {
    assert s.a11 == s.Input(true, true);
    CoveredBlock1(s, k, r);
    CoveredBlock0(s, k, r);
    AssembledSteps(s, k, r, c);
    EliminationAbsorbs(s, k, r, c);
    forall p | p in r ensures p in c {
      assert p == (p.0, p.1);
      assert Touched(r, p.0) && Touched(r, p.1);
      assert (p.0, p.0) in s.Output(k in p.0, k in p.0);
      assert (p.1, p.1) in s.Output(k in p.1, k in p.1);
    }
  }

  /** Steps of a state to itself are kept. */
  lemma EliminationLoops(s: Elimination, k: nat, r: Relation, c: Relation, x: State)
    requires s.Solved(k) && Assembled(s, k, r, c) && (x, x) in r
    ensures (x, x) in c
  {
    BlockMember(r, k, x, x);
    assert (x, x) in s.Input(k in x, k in x);
    assert (x, x) in s.Output(k in x, k in x);
  }

  /** One step of block elimination computes the closure of the whole from the closures of the parts. */
  lemma EliminationCorrect(s: Elimination, k: nat, r: Relation, c: Relation)
    requires s.Solved(k) && Assembled(s, k, r, c)
    requires Ignores(r, k) && Ignores(s.a11, k + 1) && Ignores(s.Inner(), k + 1)
    requires Ignores(s.u1, k + 1) && Ignores(s.e, k + 1)
    ensures ClosureOf(r, c, k)
  {
    AssembledSteps(s, k, r, c);
    EliminationAbsorbs(s, k, r, c);
    forall t: Relation | Transitive(t) && LoopPart(r, c) <= t ensures c <= t {
      EliminationLeast(s, k, r, c, t);
    }
    EliminationLooping(s, k, c);
    forall x: State | (x, x) in r ensures (x, x) in c {
      EliminationLoops(s, k, r, c, x);
    }
    forall x: State | (x, x) in c ensures OnLaterCycle(r, k, x) {
      EliminationLive(s, k, r, c, x);
    }
    if Covered(r, k) {
      EliminationCovered(s, k, r, c);
    }
  }

  /** A relation that ignores the bits below `k` may be looked at from any lower bit. */
  lemma ClosureOfLower(r: Relation, c: Relation, k: nat, k': nat)
    requires ClosureOf(r, c, k) && Ignores(r, k) && k' <= k
    ensures ClosureOf(r, c, k')
  {
    forall x: State | (x, x) in c ensures OnLaterCycle(r, k', x) {
      PlusMap(Within(r, k, x), Within(r, k', x), y => y, x, x);
    }
    if Covered(r, k') {
      forall x: State | Touched(r, x) ensures OnLaterCycle(r, k, x) {
        LowerCycle(r, k, k', x);
      }
    }
  }

  lemma LowerCycle(r: Relation, k: nat, k': nat, x: State)
    requires Ignores(r, k) && k' <= k && Covered(r, k') && Touched(r, x)
    ensures OnLaterCycle(r, k, x)
  {
    var x' := iset m: nat | m < k || m in x;
    var f := (y: State) => Overlay(y, k, x);
    assert Touched(r, x') by {
      var y: State :| (x, y) in r || (y, x) in r;
      assert AgreeFrom(x, x', k) && AgreeFrom(y, y, k);
      assert (x', y) in r || (y, x') in r;
    }
    forall p: State | From(k', x', p) ensures From(k, x, f(p)) {
      if x' == p {
        assert f(p) == x;
      } else {
        var m: nat :| m !in x' && m in p && AgreeBelow(x', p, m);
        assert m !in x && m in f(p) && AgreeBelow(x, f(p), m);
      }
    }
    forall p: State, q: State | (p, q) in Within(r, k', x') ensures (f(p), f(q)) in Within(r, k, x) {
      assert AgreeFrom(p, f(p), k) && AgreeFrom(q, f(q), k);
    }
    PlusMap(Within(r, k', x'), Within(r, k, x), f, x', x');
    assert f(x') == x;
  }

  // ---------- What a closure is good for ----------

  /**
   The computed relation is the transitive closure exactly when every state with a step lies on a cycle of the given
   relation whose other states come after it, and the reflexive-transitive closure exactly when every state does.
   */
  lemma ClosureExact(r: Relation, c: Relation, k: nat)
    requires ClosureOf(r, c, k)
    ensures Covered(r, k) <==> forall x: State, z: State :: (x, z) in c <==> ReachPlus(r, x, z)
    ensures EverywhereCovered(r, k) <==> forall x: State, z: State :: (x, z) in c <==> ReachStar(r, x, z)
    ensures forall x: State, z: State :: (x, z) in c ==> ReachPlus(r, x, z)
  {
    PlusTransitive(r);
    ClosureLeast(r, c, k, PlusOf(r));
    forall x: State, z: State | (x, z) in c ensures ReachPlus(r, x, z) {
      assert (x, z) in PlusOf(r);
    }
    if r <= c {
      PlusLeast(r, c);
      forall x: State, z: State | ReachPlus(r, x, z) ensures (x, z) in c {
        assert (x, z) in PlusOf(r);
      }
    }
    if forall x: State, z: State :: (x, z) in c <==> ReachPlus(r, x, z) {
      ExactIsCovered(r, c, k);
    }
    ReflexiveExact(r, c, k);
    if !Reflexive(c) {
      var x: State :| (x, x) !in c;
      assert ReachStar(r, x, x);
    }
  }

  /** The computed relation is reflexive exactly when every state lies on a cycle through later states. */
  lemma ReflexiveExact(r: Relation, c: Relation, k: nat)
    requires ClosureOf(r, c, k)
    ensures EverywhereCovered(r, k) <==> Reflexive(c)
    ensures EverywhereCovered(r, k) ==> r <= c
  {
    if EverywhereCovered(r, k) {
      assert Covered(r, k);
      assert r <= c;
      forall x: State ensures (x, x) in c {
        assert OnLaterCycle(r, k, x);
        PlusLeast(Within(r, k, x), c);
        assert (x, x) in PlusOf(Within(r, k, x));
      }
    }
  }

  lemma ExactIsCovered(r: Relation, c: Relation, k: nat)
    requires ClosureOf(r, c, k)
    requires forall x: State, z: State :: (x, z) in c <==> ReachPlus(r, x, z)
    ensures Covered(r, k)
  {
    PlusTransitive(r);
    forall x: State | Touched(r, x) ensures OnLaterCycle(r, k, x) {
      var y: State :| (x, y) in r || (y, x) in r;
      assert (x, y) in PlusOf(r) || (y, x) in PlusOf(r);
      assert (x, y) in c || (y, x) in c;
      assert (x, x) in c;
    }
  }

  /** Reflexive relations are covered, by self-loops. */
  lemma ReflexiveIsCovered(r: Relation, k: nat)
    requires Reflexive(r)
    ensures EverywhereCovered(r, k)
  {
    forall x: State ensures OnLaterCycle(r, k, x) {
      assert IsPath(Within(r, k, x), [x, x]);
    }
  }
}
