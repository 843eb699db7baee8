/** Composition and closure of relations: sylvan_relprev with all levels as variables, and sylvan_closure. */
module BddRel {
  import opened Bdd
  import opened BddCache
  import opened BddOps
  import opened LiveStates
  import opened Relations
  import opened BlockElimination
  import opened Common

  // ---------- Cofactors over a pair of levels ----------

  function Cofactor(e: Edge, level: nat, b: bool): Edge {
    if b then High(e, level) else Low(e, level)
  }

  /** The cofactor for s-bit `i` and t-bit `j` of the pair `k`. */
  function PairCofactor(e: Edge, k: nat, i: bool, j: bool): Edge {
    Cofactor(Cofactor(e, 2 * k, i), 2 * k + 1, j)
  }

  lemma PairCofactorShape(e: Edge, k: nat, i: bool, j: bool)
    requires Above(e, 2 * k) && Canonical(e)
    ensures Above(Cofactor(e, 2 * k, i), 2 * k + 1) && Canonical(Cofactor(e, 2 * k, i))
    ensures Above(PairCofactor(e, k, i, j), 2 * k + 2) && Canonical(PairCofactor(e, k, i, j))
    ensures Support(PairCofactor(e, k, i, j)) <= Support(e) - {2 * k, 2 * k + 1}
    ensures Size(PairCofactor(e, k, i, j)) <= Size(e)
    ensures e.n.Node? && e.n.v <= 2 * k + 1 ==> Size(PairCofactor(e, k, i, j)) < Size(e)
  {
    CofactorShape(e, 2 * k);
    CofactorShape(Cofactor(e, 2 * k, i), 2 * k + 1);
  }

  lemma PairBits(x: State, y: State, k: nat)
    ensures (2 * k in Pair(x, y) <==> k in x) && (2 * k + 1 in Pair(x, y) <==> k in y)
  {
  }

  lemma PairCofactorRel(e: Edge, k: nat, x: State, y: State)
    requires Above(e, 2 * k) && Canonical(e)
    ensures Rel(e, x, y) <==> Rel(PairCofactor(e, k, k in x, k in y), x, y)
  {
    var env := Pair(x, y);
    PairBits(x, y, k);
    PairCofactorShape(e, k, k in x, k in y);
    CofactorEval(e, 2 * k, env);
    CofactorEval(Cofactor(e, 2 * k, k in x), 2 * k + 1, env);
  }

  /** Diagrams below the pair `k` do not see the bits `k`. */
  lemma RelIgnores(e: Edge, k: nat, i: bool, j: bool, x: State, y: State)
    requires Above(e, 2 * k + 2)
    ensures Rel(e, x, y) <==> Rel(e, SetBit(x, k, i), SetBit(y, k, j))
  {
    OrderedSupport(e.n, 2 * k + 2);
    EvalAgree(e.n, Pair(x, y), Pair(SetBit(x, k, i), SetBit(y, k, j)));
  }

  // ---------- Composition ----------

  lemma PairOnto(env: Env) returns (x: State, y: State)
    ensures Pair(x, y) == env
  {
    x := iset k: nat | 2 * k in env;
    y := iset k: nat | 2 * k + 1 in env;
    forall l: nat ensures l in Pair(x, y) <==> l in env {
      assert l == if l % 2 == 0 then 2 * (l / 2) else 2 * (l / 2) + 1;
    }
  }

  /** The composition only depends on levels that an operand depends on. */
  lemma RelPrevSupport(a: Edge, b: Edge, r: Edge)
    requires IsRelPrev(a, b, r)
    ensures Support(r) <= Support(a) + Support(b)
  {
    forall l | l in Support(r) ensures l in Support(a) + Support(b) {
      if l !in Support(a) + Support(b) {
        var env := SupportEssential(r, l);
        var x, z := PairOnto(env + iset{l});
        var x', z' := PairOnto(env - iset{l});
        assert Rel(r, x, z) == Composed(a, b, x, z) && Rel(r, x', z') == Composed(a, b, x', z');
        if Rel(r, x, z) {
          ComposedSame(a, b, l, x, z, x', z');
        } else {
          ComposedSame(a, b, l, x', z', x, z);
        }
      }
    }
  }

  lemma ComposedSame(a: Edge, b: Edge, l: nat, x: State, z: State, x': State, z': State)
    requires l !in Support(a) + Support(b)
    requires forall m :: m != l ==> (m in Pair(x, z) <==> m in Pair(x', z'))
    requires Composed(a, b, x, z)
    ensures Composed(a, b, x', z')
  {
    var y: State :| Rel(a, x, y) && Rel(b, y, z);
    forall m: nat | m in Support(a) ensures m in Pair(x, y) <==> m in Pair(x', y) {
      assert m % 2 == 0 ==> (m in Pair(x, z) <==> m in Pair(x', z'));
    }
    forall m: nat | m in Support(b) ensures m in Pair(y, z) <==> m in Pair(y, z') {
      assert m % 2 == 1 ==> (m in Pair(x, z) <==> m in Pair(x', z'));
    }
    EvalAgree(a.n, Pair(x, y), Pair(x', y));
    EvalAgree(b.n, Pair(y, z), Pair(y, z'));
    assert Rel(a, x', y) && Rel(b, y, z');
  }

  lemma RelPrevAbove(a: Edge, b: Edge, r: Edge, lo: nat)
    requires Above(a, lo) && Above(b, lo) && IsRelPrev(a, b, r)
    ensures Above(r, lo)
  {
    RelPrevSupport(a, b, r);
    OrderedSupport(a.n, lo);
    OrderedSupport(b.n, lo);
    AboveFromSupport(r, lo);
  }

  /** `r` composes `a` with the cofactor of the second operand that the t-bit `k` selects. */
  ghost predicate IsRow(a: Edge, b0: Edge, b1: Edge, k: nat, r: Edge) {
    && Canonical(r) && Above(r, 2 * k + 1)
    && forall x: State, z: State :: Rel(r, x, z) <==> Composed(a, if k in z then b1 else b0, x, z)
  }

  lemma RowOfOne(a: Edge, b: Edge, k: nat, r: Edge)
    requires Above(a, 2 * k + 2) && Above(b, 2 * k + 2) && IsRelPrev(a, b, r)
    ensures IsRow(a, b, b, k, r)
  {
    RelPrevAbove(a, b, r, 2 * k + 2);
    OrderedMonotone(r.n, 2 * k + 2, 2 * k + 1);
  }

  lemma RowOfTwo(a: Edge, b0: Edge, b1: Edge, k: nat, r0: Edge, r1: Edge)
    requires Above(a, 2 * k + 2) && Above(b0, 2 * k + 2) && Above(b1, 2 * k + 2)
    requires IsRelPrev(a, b0, r0) && IsRelPrev(a, b1, r1)
    ensures Above(r0, 2 * k + 2) && Above(r1, 2 * k + 2)
    ensures IsRow(a, b0, b1, k, MakeNode(2 * k + 1, r0, r1))
  {
    RelPrevAbove(a, b0, r0, 2 * k + 2);
    RelPrevAbove(a, b1, r1, 2 * k + 2);
    var r := MakeNode(2 * k + 1, r0, r1);
    MakeNodeEval(2 * k + 1, r0, r1);
    forall x: State, z: State ensures Rel(r, x, z) <==> Composed(a, if k in z then b1 else b0, x, z) {
      PairBits(x, z, k);
      assert Rel(r, x, z) == Rel(if k in z then r1 else r0, x, z);
      assert Rel(r0, x, z) <==> Composed(a, b0, x, z);
      assert Rel(r1, x, z) <==> Composed(a, b1, x, z);
    }
  }

  /** Joins the two rows of an s-cofactor and both s-cofactors. */
  lemma RelPrevStep(a: Edge, b: Edge, k: nat, r00: Edge, r01: Edge, r10: Edge, r11: Edge, r0: Edge, r1: Edge)
    requires Above(a, 2 * k) && Above(b, 2 * k) && Canonical(a) && Canonical(b)
    requires IsRow(PairCofactor(a, k, false, false), PairCofactor(b, k, false, false), PairCofactor(b, k, false, true),
                   k, r00)
    requires IsRow(PairCofactor(a, k, false, true), PairCofactor(b, k, true, false), PairCofactor(b, k, true, true),
                   k, r01)
    requires IsRow(PairCofactor(a, k, true, false), PairCofactor(b, k, false, false), PairCofactor(b, k, false, true),
                   k, r10)
    requires IsRow(PairCofactor(a, k, true, true), PairCofactor(b, k, true, false), PairCofactor(b, k, true, true),
                   k, r11)
    requires IsIte(r00, TRUE, r01, r0) && IsIte(r10, TRUE, r11, r1)
    ensures Above(r0, 2 * k + 1) && Above(r1, 2 * k + 1)
    ensures IsRelPrev(a, b, MakeNode(2 * k, r0, r1))
  {
    IteAbove(r00, TRUE, r01, r0, 2 * k + 1);
    IteAbove(r10, TRUE, r11, r1, 2 * k + 1);
    var r := MakeNode(2 * k, r0, r1);
    MakeNodeEval(2 * k, r0, r1);
    forall x: State, z: State ensures Rel(r, x, z) <==> Composed(a, b, x, z) {
      assert 2 * k in Pair(x, z) <==> k in x;
      assert Rel(r, x, z) == Rel(if k in x then r1 else r0, x, z);
      assert Rel(if k in x then r1 else r0, x, z)
        <==> Rel(if k in x then r10 else r00, x, z) || Rel(if k in x then r11 else r01, x, z);
      ComposedByBit(a, b, k, x, z);
    }
  }

  lemma ComposedByBit(a: Edge, b: Edge, k: nat, x: State, z: State)
    requires Above(a, 2 * k) && Above(b, 2 * k) && Canonical(a) && Canonical(b)
    ensures Composed(a, b, x, z) <==>
      || Composed(PairCofactor(a, k, k in x, false), PairCofactor(b, k, false, k in z), x, z)
      || Composed(PairCofactor(a, k, k in x, true), PairCofactor(b, k, true, k in z), x, z)
  {
    if Composed(a, b, x, z) {
      var y: State :| Rel(a, x, y) && Rel(b, y, z);
      PairCofactorRel(a, k, x, y);
      PairCofactorRel(b, k, y, z);
    }
    if Composed(PairCofactor(a, k, k in x, false), PairCofactor(b, k, false, k in z), x, z) {
      ComposedFromBit(a, b, k, false, x, z);
    }
    if Composed(PairCofactor(a, k, k in x, true), PairCofactor(b, k, true, k in z), x, z) {
      ComposedFromBit(a, b, k, true, x, z);
    }
  }

  lemma ComposedFromBit(a: Edge, b: Edge, k: nat, j: bool, x: State, z: State)
    requires Above(a, 2 * k) && Above(b, 2 * k) && Canonical(a) && Canonical(b)
    requires Composed(PairCofactor(a, k, k in x, j), PairCofactor(b, k, j, k in z), x, z)
    ensures Composed(a, b, x, z)
  {
    var y: State :| Rel(PairCofactor(a, k, k in x, j), x, y) && Rel(PairCofactor(b, k, j, k in z), y, z);
    var y' := SetBit(y, k, j);
    PairCofactorShape(a, k, k in x, j);
    PairCofactorShape(b, k, j, k in z);
    RelIgnores(PairCofactor(a, k, k in x, j), k, k in x, j, x, y);
    RelIgnores(PairCofactor(b, k, j, k in z), k, j, k in z, y, z);
    assert SetBit(x, k, k in x) == x && SetBit(z, k, k in z) == z;
    PairCofactorRel(a, k, x, y');
    PairCofactorRel(b, k, y', z);
    assert Rel(a, x, y') && Rel(b, y', z);
  }

  /**
   sylvan_relprev with vars = false. The spawned calls form a stack, and a sync runs the last one spawned.
   */
  method RelPrev(cache: Cache, a: Edge, b: Edge, prevLevel: nat) returns (result: Edge)
    requires cache.Sound() && Canonical(a) && Canonical(b)
    modifies cache
    ensures cache.Sound()
    ensures IsRelPrev(a, b, result)
    decreases Size(a) + Size(b), 4
  {
    RelPrevTerminal(a, b);
    if a == TRUE && b == TRUE { return TRUE; }
    if a == FALSE { return FALSE; }
    if b == FALSE { return FALSE; }

    // a constant lies below every variable
    var level := if IsConst(a) then b.n.v else if IsConst(b) then a.n.v else Min(a.n.v, b.n.v);

    var cacheNow := cache.CacheNow(prevLevel, level);
    if cacheNow {
      var hit, r := cache.Get(Key(OpRelPrev, a, b, FALSE));
      if hit { return r; }
    }

    result := RelPrevPair(cache, a, b, level / 2, level);

    if cacheNow {
      cache.Put(Key(OpRelPrev, a, b, FALSE), result);
    }
  }

  lemma RelOfConstants(x: State, y: State)
    ensures Rel(TRUE, x, y) && !Rel(FALSE, x, y)
  {
  }

  lemma ComposedWithFalse(a: Edge, b: Edge, x: State, z: State)
    requires a == FALSE || b == FALSE
    ensures !Composed(a, b, x, z)
  {
    forall y: State ensures !(Rel(a, x, y) && Rel(b, y, z)) {
      RelOfConstants(x, y);
      RelOfConstants(y, z);
    }
  }

  lemma RelPrevFalse(a: Edge, b: Edge, r: Edge)
    requires (a == FALSE || b == FALSE) && r == FALSE
    ensures IsRelPrev(a, b, r)
  {
    forall x: State, z: State ensures Rel(r, x, z) <==> Composed(a, b, x, z) {
      RelOfConstants(x, z);
      ComposedWithFalse(a, b, x, z);
    }
  }

  lemma RelPrevTrue(a: Edge, b: Edge, r: Edge)
    requires a == TRUE && b == TRUE && r == TRUE
    ensures IsRelPrev(a, b, r)
  {
    forall x: State, z: State ensures Rel(r, x, z) <==> Composed(a, b, x, z) {
      RelOfConstants(x, z);
      RelOfConstants(x, iset{});
      RelOfConstants(iset{}, z);
    }
  }

  lemma RelPrevTerminal(a: Edge, b: Edge)
    ensures a == TRUE && b == TRUE ==> IsRelPrev(a, b, TRUE)
    ensures a == FALSE || b == FALSE ==> IsRelPrev(a, b, FALSE)
  {
    if a == TRUE && b == TRUE {
      RelPrevTrue(a, b, TRUE);
    }
    if a == FALSE || b == FALSE {
      RelPrevFalse(a, b, FALSE);
    }
  }

  /** Runs the last spawned call. */
  method SyncRelPrev(cache: Cache, spawned: seq<(Edge, Edge)>, level: nat, ghost bound: nat)
    returns (result: Edge, rest: seq<(Edge, Edge)>)
    requires cache.Sound() && |spawned| > 0
    requires Canonical(spawned[|spawned| - 1].0) && Canonical(spawned[|spawned| - 1].1)
    requires Size(spawned[|spawned| - 1].0) + Size(spawned[|spawned| - 1].1) < bound
    modifies cache
    ensures cache.Sound()
    ensures rest == spawned[..|spawned| - 1]
    ensures IsRelPrev(spawned[|spawned| - 1].0, spawned[|spawned| - 1].1, result)
    decreases bound, 0
  {
    var task := spawned[|spawned| - 1];
    result := RelPrev(cache, task.0, task.1, level);
    rest := spawned[..|spawned| - 1];
  }

  /** The calls spawned for one row: `a` against the cofactors `b0` and `b1`. */
  function SpawnRow(a: Edge, b0: Edge, b1: Edge): seq<(Edge, Edge)> {
    if b0 == b1 then [(a, b0)] else [(a, b0), (a, b1)]
  }

  /** The calls spawned for one value of the middle bit: the rows of `a0` and of `a1`. */
  function SpawnRows(a0: Edge, a1: Edge, b0: Edge, b1: Edge): seq<(Edge, Edge)> {
    SpawnRow(a0, b0, b1) + SpawnRow(a1, b0, b1)
  }

  /** Syncs the row that has been spawned last, on top of `base`. */
  method SyncRow(cache: Cache, a: Edge, b0: Edge, b1: Edge, k: nat, spawned: seq<(Edge, Edge)>,
                 level: nat, ghost base: seq<(Edge, Edge)>, ghost bound: nat)
    returns (row: Edge, rest: seq<(Edge, Edge)>)
    requires cache.Sound()
    requires forall e :: e in {a, b0, b1} ==> Canonical(e) && Above(e, 2 * k + 2)
    requires Size(a) + Size(b0) < bound && Size(a) + Size(b1) < bound
    requires spawned == base + SpawnRow(a, b0, b1)
    modifies cache
    ensures cache.Sound()
    ensures IsRow(a, b0, b1, k, row)
    ensures rest == base
    decreases bound, 1
  {
    if b0 == b1 {
      assert spawned[|spawned| - 1] == (a, b0);
      row, rest := SyncRelPrev(cache, spawned, level, bound);
      RowOfOne(a, b0, k, row);
    } else {
      var r0, r1;
      assert spawned[|spawned| - 1] == (a, b1);
      r1, rest := SyncRelPrev(cache, spawned, level, bound);
      assert rest == base + [(a, b0)];
      r0, rest := SyncRelPrev(cache, rest, level, bound);
      RowOfTwo(a, b0, b1, k, r0, r1);
      row := MakeNode(2 * k + 1, r0, r1);
    }
  }

  /** Syncs what SpawnRows has spawned last, the row of `a1` first. */
  method SyncRows(cache: Cache, a0: Edge, a1: Edge, b0: Edge, b1: Edge, k: nat, spawned: seq<(Edge, Edge)>,
                  level: nat, ghost base: seq<(Edge, Edge)>, ghost bound: nat)
    returns (row0: Edge, row1: Edge, rest: seq<(Edge, Edge)>)
    requires cache.Sound()
    requires forall e :: e in {a0, a1, b0, b1} ==> Canonical(e) && Above(e, 2 * k + 2)
    requires forall e, d :: e in {a0, a1} && d in {b0, b1} ==> Size(e) + Size(d) < bound
    requires spawned == base + SpawnRows(a0, a1, b0, b1)
    modifies cache
    ensures cache.Sound()
    ensures IsRow(a0, b0, b1, k, row0) && IsRow(a1, b0, b1, k, row1)
    ensures rest == base
    decreases bound, 2
  {
    ghost var first := base + SpawnRow(a0, b0, b1);
    assert spawned == first + SpawnRow(a1, b0, b1);
    row1, rest := SyncRow(cache, a1, b0, b1, k, spawned, level, first, bound);
    row0, rest := SyncRow(cache, a0, b0, b1, k, rest, level, base, bound);
  }

  method RelPrevPair(cache: Cache, a: Edge, b: Edge, k: nat, level: nat) returns (result: Edge)
    requires cache.Sound() && Canonical(a) && Canonical(b) && Above(a, 2 * k) && Above(b, 2 * k)
    requires (a.n.Node? && a.n.v <= 2 * k + 1) || (b.n.Node? && b.n.v <= 2 * k + 1)
    modifies cache
    ensures cache.Sound()
    ensures IsRelPrev(a, b, result)
    decreases Size(a) + Size(b), 3
  {
    ghost var bound := Size(a) + Size(b);
    forall i, j
      ensures Above(PairCofactor(a, k, i, j), 2 * k + 2) && Canonical(PairCofactor(a, k, i, j))
      ensures Above(PairCofactor(b, k, i, j), 2 * k + 2) && Canonical(PairCofactor(b, k, i, j))
    {
      PairCofactorShape(a, k, i, j);
      PairCofactorShape(b, k, i, j);
    }
    forall i, j, i', j' ensures Size(PairCofactor(a, k, i, j)) + Size(PairCofactor(b, k, i', j')) < bound {
      PairCofactorShape(a, k, i, j);
      PairCofactorShape(b, k, i', j');
    }
    var a00, a01 := PairCofactor(a, k, false, false), PairCofactor(a, k, false, true);
    var a10, a11 := PairCofactor(a, k, true, false), PairCofactor(a, k, true, true);
    var b00, b01 := PairCofactor(b, k, false, false), PairCofactor(b, k, false, true);
    var b10, b11 := PairCofactor(b, k, true, false), PairCofactor(b, k, true, true);

    // the rows of middle bit 0 are spawned before those of middle bit 1, and synced after them
    var spawned := SpawnRows(a00, a10, b00, b01) + SpawnRows(a01, a11, b10, b11);
    var r00, r01, r10, r11;
    ghost var first := SpawnRows(a00, a10, b00, b01);
    r01, r11, spawned := SyncRows(cache, a01, a11, b10, b11, k, spawned, level, first, bound);
    assert first == [] + first;
    r00, r10, spawned := SyncRows(cache, a00, a10, b00, b01, k, spawned, level, [], bound);

    var r1 := Or(cache, r10, r11);
    var r0 := Or(cache, r00, r01);
    RelPrevStep(a, b, k, r00, r01, r10, r11, r0, r1);
    result := MakeNode(2 * k, r0, r1);
  }

  // ---------- Closure ----------

  lemma RelPrevComp(a: Edge, b: Edge, r: Edge)
    requires IsRelPrev(a, b, r)
    ensures RelOf(r) == Comp(RelOf(a), RelOf(b))
  {
    forall p ensures p in RelOf(r) <==> p in Comp(RelOf(a), RelOf(b)) {
      assert p == (p.0, p.1);
      if Composed(a, b, p.0, p.1) {
        var y: State :| Rel(a, p.0, y) && Rel(b, y, p.1);
        assert (p.0, y) in RelOf(a) && (y, p.1) in RelOf(b);
      }
    }
  }

  lemma OrUnion(a: Edge, b: Edge, r: Edge)
    requires IsIte(a, TRUE, b, r)
    ensures RelOf(r) == RelOf(a) + RelOf(b)
  {
  }

  lemma RelInBlock(a: Edge, k: nat, i: bool, j: bool, x: State, y: State)
    requires Above(a, 2 * k) && Canonical(a)
    ensures Rel(PairCofactor(a, k, i, j), x, y) <==> Rel(a, SetBit(x, k, i), SetBit(y, k, j))
  {
    PairCofactorShape(a, k, i, j);
    RelIgnores(PairCofactor(a, k, i, j), k, i, j, x, y);
    PairCofactorRel(a, k, SetBit(x, k, i), SetBit(y, k, j));
  }

  lemma RelOfBlock(a: Edge, k: nat, i: bool, j: bool)
    requires Above(a, 2 * k) && Canonical(a)
    ensures RelOf(PairCofactor(a, k, i, j)) == Block(RelOf(a), k, i, j)
  {
    forall p ensures p in RelOf(PairCofactor(a, k, i, j)) <==> p in Block(RelOf(a), k, i, j) {
      assert p == (p.0, p.1);
      RelInBlock(a, k, i, j, p.0, p.1);
    }
  }

  /** The pairs that a diagram depends on are the bits that play a role in its relation. */
  lemma RelOfSpans(a: Edge, k: nat, n: nat)
    requires Between(a, k, n)
    ensures Spans(RelOf(a), k, n)
  {
    forall x: State, y: State, x': State, y': State
      | (x, y) in RelOf(a) && AgreeOn(x, x', k, n) && AgreeOn(y, y', k, n)
      ensures (x', y') in RelOf(a)
    {
      forall l | l in Support(a) ensures l in Pair(x, y) <==> l in Pair(x', y') {
        assert l / 2 in PairsOf(a);
      }
      EvalAgree(a.n, Pair(x, y), Pair(x', y'));
    }
  }

  /** Every assignment is that of a pair of states. */
  ghost function Source(env: Env): State { iset m: nat | 2 * m in env }

  ghost function Target(env: Env): State { iset m: nat | 2 * m + 1 in env }

  lemma PairOfEnv(env: Env)
    ensures Pair(Source(env), Target(env)) == env
  {
  }

  lemma PairSetBit(env: Env, l: nat, b: bool)
    ensures l % 2 == 0 ==>
      SetBit(env, l, b) == Pair(SetBit(Source(env), l / 2, b), SetBit(Target(env), l / 2, l / 2 in Target(env)))
    ensures l % 2 == 1 ==>
      SetBit(env, l, b) == Pair(SetBit(Source(env), l / 2, l / 2 in Source(env)), SetBit(Target(env), l / 2, b))
  {
  }

  lemma PairMatters(a: Edge, k: nat)
    requires Canonical(a) && k in PairsOf(a)
    ensures !IgnoresBit(RelOf(a), k)
  {
    var l :| l in Support(a) && l / 2 == k;
    var env := SupportEssential(a, l);
    assert SetBit(env, l, true) == env + iset{l} && SetBit(env, l, false) == env - iset{l};
    PairSetBit(env, l, true);
    PairSetBit(env, l, false);
    if IgnoresBit(RelOf(a), k) {
      IgnoredBit(a, k, Source(env), Target(env), l % 2 == 0);
    }
  }

  lemma IgnoredBit(a: Edge, k: nat, x: State, y: State, source: bool)
    requires IgnoresBit(RelOf(a), k)
    ensures source ==>
      (Rel(a, SetBit(x, k, true), SetBit(y, k, k in y)) <==> Rel(a, SetBit(x, k, false), SetBit(y, k, k in y)))
    ensures !source ==>
      (Rel(a, SetBit(x, k, k in x), SetBit(y, k, true)) <==> Rel(a, SetBit(x, k, k in x), SetBit(y, k, false)))
  {
    var r := RelOf(a);
    forall i, j, i', j' | (SetBit(x, k, i), SetBit(y, k, j)) in r
      ensures (SetBit(x, k, i'), SetBit(y, k, j')) in r
    {
      assert SetBit(SetBit(x, k, i), k, i') == SetBit(x, k, i') && SetBit(SetBit(y, k, j), k, j') == SetBit(y, k, j');
    }
    assert forall i, j :: Rel(a, SetBit(x, k, i), SetBit(y, k, j)) <==> (SetBit(x, k, i), SetBit(y, k, j)) in r;
  }

  lemma ClosureTerminal(a: Edge)
    ensures IsConst(a) ==> IsClosure(a, a)
  {
    if IsConst(a) {
      forall k, n | Between(a, k, n) ensures RelOf(a) == Closed(RelOf(a), k, n) {
        RelOfSpans(a, k, n);
        RelOfSpans(a, n, n);
        if k >= n {
          ClosedConstant(RelOf(a), k, n);
        } else {
          ClosedLower(RelOf(a), n, k, n);
          ClosedConstant(RelOf(a), n, n);
        }
      }
    }
  }

  lemma PairsAbove(e: Edge, k: nat)
    requires Canonical(e)
    ensures Above(e, 2 * k) <==> forall m :: m in PairsOf(e) ==> k <= m
  {
    if Above(e, 2 * k) {
      OrderedSupport(e.n, 2 * k);
    }
    if forall m :: m in PairsOf(e) ==> k <= m {
      forall l | l in Support(e) ensures 2 * k <= l {
        assert l / 2 in PairsOf(e);
      }
      AboveFromSupport(e, 2 * k);
    }
  }

  /** The cofactors of the pair `k` involve the other pairs only. */
  lemma PairsOfCofactor(e: Edge, k: nat, i: bool, j: bool)
    requires Above(e, 2 * k) && Canonical(e)
    ensures PairsOf(PairCofactor(e, k, i, j)) <= PairsOf(e) - {k}
  {
    PairCofactorShape(e, k, i, j);
    forall l | l in Support(PairCofactor(e, k, i, j)) ensures l / 2 in PairsOf(e) - {k} {
      assert l in Support(e);
    }
  }

  lemma PairsOfRelPrev(a: Edge, b: Edge, r: Edge, p: set<nat>)
    requires IsRelPrev(a, b, r) && PairsOf(a) <= p && PairsOf(b) <= p
    ensures PairsOf(r) <= p
  {
    RelPrevSupport(a, b, r);
    forall l | l in Support(r) ensures l / 2 in p {
      assert l in Support(a) || l in Support(b);
      assert l in Support(a) ==> l / 2 in PairsOf(a);
      assert l in Support(b) ==> l / 2 in PairsOf(b);
    }
  }

  lemma PairsOfOr(a: Edge, b: Edge, r: Edge, p: set<nat>)
    requires Canonical(a) && Canonical(b) && IsIte(a, TRUE, b, r) && PairsOf(a) <= p && PairsOf(b) <= p
    ensures PairsOf(r) <= p
  {
    IteAbove(a, TRUE, b, r, 0);
    forall l | l in Support(r) ensures l / 2 in p {
      assert l in Support(a) || l in Support(b);
      assert l in Support(a) ==> l / 2 in PairsOf(a);
      assert l in Support(b) ==> l / 2 in PairsOf(b);
    }
  }

  lemma PairsAboveNext(e: Edge, k: nat, p: set<nat>)
    requires Canonical(e) && PairsOf(e) <= p - {k} && forall m :: m in p ==> k <= m
    ensures Above(e, 2 * k + 2)
  {
    PairsAbove(e, k + 1);
  }

  /** The diagram of an s,t pair of levels with the four given cofactors. */
  function MakePair(k: nat, e: Edge, f: Edge, g: Edge, h: Edge): (r: Edge)
    requires Above(e, 2 * k + 2) && Above(f, 2 * k + 2) && Above(g, 2 * k + 2) && Above(h, 2 * k + 2)
    ensures Above(r, 2 * k)
  {
    MakeNode(2 * k, MakeNode(2 * k + 1, e, f), MakeNode(2 * k + 1, g, h))
  }

  lemma NodeRelS(k: nat, low: Edge, high: Edge, x: State, y: State)
    requires Above(low, 2 * k + 1) && Above(high, 2 * k + 1)
    ensures Rel(MakeNode(2 * k, low, high), x, y) <==> Rel(if k in x then high else low, x, y)
  {
    MakeNodeEval(2 * k, low, high);
    assert 2 * k in Pair(x, y) <==> k in x;
  }

  lemma NodeRelT(k: nat, low: Edge, high: Edge, x: State, y: State)
    requires Above(low, 2 * k + 2) && Above(high, 2 * k + 2)
    ensures Rel(MakeNode(2 * k + 1, low, high), x, y) <==> Rel(if k in y then high else low, x, y)
  {
    MakeNodeEval(2 * k + 1, low, high);
    assert 2 * k + 1 in Pair(x, y) <==> k in y;
  }

  lemma MakePairRel(k: nat, e: Edge, f: Edge, g: Edge, h: Edge)
    requires Above(e, 2 * k + 2) && Above(f, 2 * k + 2) && Above(g, 2 * k + 2) && Above(h, 2 * k + 2)
    ensures Canonical(MakePair(k, e, f, g, h))
    ensures forall x: State, y: State ::
      Rel(MakePair(k, e, f, g, h), x, y) <==>
      Rel(if k in x then (if k in y then h else g) else (if k in y then f else e), x, y)
  {
    var r0, r1 := MakeNode(2 * k + 1, e, f), MakeNode(2 * k + 1, g, h);
    OrderedMonotone(MakeNode(2 * k, r0, r1).n, 2 * k, 0);
    forall x: State, y: State
      ensures Rel(MakePair(k, e, f, g, h), x, y) <==>
        Rel(if k in x then (if k in y then h else g) else (if k in y then f else e), x, y)
    {
      NodeRelS(k, r0, r1, x, y);
      NodeRelT(k, e, f, x, y);
      NodeRelT(k, g, h, x, y);
    }
  }

  lemma MakePairPairs(k: nat, e: Edge, f: Edge, g: Edge, h: Edge, p: set<nat>)
    requires Above(e, 2 * k + 2) && Above(f, 2 * k + 2) && Above(g, 2 * k + 2) && Above(h, 2 * k + 2)
    requires PairsOf(e) <= p && PairsOf(f) <= p && PairsOf(g) <= p && PairsOf(h) <= p && k in p
    ensures PairsOf(MakePair(k, e, f, g, h)) <= p
  {
    PairsOfNode(2 * k + 1, e, f, p);
    PairsOfNode(2 * k + 1, g, h, p);
    PairsOfNode(2 * k, MakeNode(2 * k + 1, e, f), MakeNode(2 * k + 1, g, h), p);
  }

  lemma PairsOfNode(v: nat, low: Edge, high: Edge, p: set<nat>)
    requires Above(low, v + 1) && Above(high, v + 1)
    requires PairsOf(low) <= p && PairsOf(high) <= p && v / 2 in p
    ensures PairsOf(MakeNode(v, low, high)) <= p
  {
    forall l | l in {v} + Support(low) + Support(high) ensures l / 2 in p {
      assert l in Support(low) ==> l / 2 in PairsOf(low);
      assert l in Support(high) ==> l / 2 in PairsOf(high);
    }
  }

  /** The results of sylvan_closure for the four cofactors make up the closure. */
  lemma ClosureStep(a: Edge, k: nat, u1: Edge, u2: Edge, u3: Edge, d: Edge, e0: Edge, e: Edge, f: Edge, g: Edge,
                    m: Edge, h: Edge)
    requires Canonical(a) && AbovePair(a, k) && k in PairsOf(a)
    requires PairsOf(PairCofactor(a, k, true, true)) <= PairsOf(a) - {k} && PairsOf(e0) <= PairsOf(a) - {k}
    requires IsClosure(PairCofactor(a, k, true, true), u1)
    requires IsRelPrev(PairCofactor(a, k, false, true), u1, u3)
    requires IsRelPrev(u1, PairCofactor(a, k, true, false), u2)
    requires IsRelPrev(PairCofactor(a, k, false, true), u2, d)
    requires IsIte(PairCofactor(a, k, false, false), TRUE, d, e0)
    requires IsClosure(e0, e)
    requires IsRelPrev(u2, e, g) && IsRelPrev(e, u3, f) && IsRelPrev(u2, f, m) && IsIte(u1, TRUE, m, h)
    requires Above(e, 2 * k + 2) && Above(f, 2 * k + 2) && Above(g, 2 * k + 2) && Above(h, 2 * k + 2)
    requires PairsOf(e) <= PairsOf(a) - {k} && PairsOf(f) <= PairsOf(a) - {k}
    requires PairsOf(g) <= PairsOf(a) - {k} && PairsOf(h) <= PairsOf(a) - {k}
    ensures IsClosure(a, MakePair(k, e, f, g, h))
  {
    var s := Elimination(
      RelOf(PairCofactor(a, k, false, false)), RelOf(PairCofactor(a, k, false, true)),
      RelOf(PairCofactor(a, k, true, false)), RelOf(PairCofactor(a, k, true, true)),
      RelOf(u1), RelOf(u2), RelOf(u3), RelOf(e), RelOf(f), RelOf(g), RelOf(h));
    RelPrevComp(PairCofactor(a, k, false, true), u1, u3);
    RelPrevComp(u1, PairCofactor(a, k, true, false), u2);
    RelPrevComp(PairCofactor(a, k, false, true), u2, d);
    OrUnion(PairCofactor(a, k, false, false), d, e0);
    RelPrevComp(u2, e, g);
    RelPrevComp(e, u3, f);
    RelPrevComp(u2, f, m);
    OrUnion(u1, m, h);
    var c := MakePair(k, e, f, g, h);
    MakePairRel(k, e, f, g, h);
    MakePairPairs(k, e, f, g, h, PairsOf(a));
    ClosureAssembled(a, k, s, e, f, g, h);
    assert s.Inner() == RelOf(e0);
    forall k', n | Between(a, k', n) ensures RelOf(c) == Closed(RelOf(a), k', n) {
      PairsAbove(a, k);
      assert Between(a, k, n);
      ClosureStepFor(a, k, n, s, PairCofactor(a, k, true, true), u1, e0, e, RelOf(c));
      RelOfSpans(a, k, n);
      ClosedLower(RelOf(a), k, k', n);
    }
  }

  lemma ClosureStepFor(a: Edge, k: nat, n: nat, s: Elimination, a11: Edge, u1: Edge, e0: Edge, e: Edge, c: Relation)
    requires Canonical(a) && k in PairsOf(a) && Between(a, k, n)
    requires PairsOf(a11) <= PairsOf(a) - {k} && PairsOf(e0) <= PairsOf(a) - {k}
    requires IsClosure(a11, u1) && IsClosure(e0, e)
    requires s.a11 == RelOf(a11) && s.u1 == RelOf(u1) && s.Inner() == RelOf(e0) && s.e == RelOf(e)
    requires s.u3 == Comp(s.a01, s.u1) && s.u2 == Comp(s.u1, s.a10) && s.g == Comp(s.u2, s.e)
    requires s.f == Comp(s.e, s.u3) && s.h == s.u1 + Comp(s.u2, s.f) && Assembled(s, k, RelOf(a), c)
    ensures c == Closed(RelOf(a), k, n)
  {
    RelOfSpans(a, k, n);
    PairMatters(a, k);
    PartClosed(a, k, n, a11, u1);
    PartClosed(a, k, n, e0, e);
    EliminationExact(s, k, n, RelOf(a), c);
  }

  /** What the closure of a relation over the later pairs is. */
  lemma PartClosed(a: Edge, k: nat, n: nat, part: Edge, r: Edge)
    requires Between(a, k, n) && PairsOf(part) <= PairsOf(a) - {k} && IsClosure(part, r)
    ensures RelOf(r) == Closed(RelOf(part), k + 1, n)
    ensures ClosureOf(RelOf(part), RelOf(r), k + 1) && LoopsAreLive(RelOf(part), RelOf(r), k + 1, n)
  {
    assert Between(part, k + 1, n);
    RelOfSpans(part, k + 1, n);
    ClosedIsClosure(RelOf(part), k + 1, n);
  }

  lemma ClosureAssembled(a: Edge, k: nat, s: Elimination, e: Edge, f: Edge, g: Edge, h: Edge)
    requires Canonical(a) && Above(a, 2 * k)
    requires Above(e, 2 * k + 2) && Above(f, 2 * k + 2) && Above(g, 2 * k + 2) && Above(h, 2 * k + 2)
    requires s.a00 == RelOf(PairCofactor(a, k, false, false)) && s.a01 == RelOf(PairCofactor(a, k, false, true))
    requires s.a10 == RelOf(PairCofactor(a, k, true, false)) && s.a11 == RelOf(PairCofactor(a, k, true, true))
    requires s.e == RelOf(e) && s.f == RelOf(f) && s.g == RelOf(g) && s.h == RelOf(h)
    ensures Assembled(s, k, RelOf(a), RelOf(MakePair(k, e, f, g, h)))
  {
    RelOfBlock(a, k, false, false);
    RelOfBlock(a, k, false, true);
    RelOfBlock(a, k, true, false);
    RelOfBlock(a, k, true, true);
    MakePairRel(k, e, f, g, h);
  }

  method Closure(cache: Cache, a: Edge, prevLevel: nat) returns (result: Edge)
    requires cache.Sound() && Canonical(a)
    modifies cache
    ensures cache.Sound()
    ensures IsClosure(a, result)
    decreases |PairsOf(a)|, 1
  {
    ClosureTerminal(a);
    if a == TRUE { return a; }
    if a == FALSE { return a; }

    var level := a.n.v;
    var cacheNow := cache.CacheNow(prevLevel, level);
    if cacheNow {
      var hit, r := cache.Get(Key(OpClosure, a, FALSE, FALSE));
      if hit { return r; }
    }

    result := ClosurePair(cache, a, level / 2, level);

    if cacheNow {
      cache.Put(Key(OpClosure, a, FALSE, FALSE), result);
    }
  }

  method ClosurePair(cache: Cache, a: Edge, k: nat, level: nat) returns (result: Edge)
    requires cache.Sound() && Canonical(a) && a.n.Node? && level == a.n.v && k == level / 2
    modifies cache
    ensures cache.Sound()
    ensures IsClosure(a, result)
    decreases |PairsOf(a)|, 0
  {
    var a00, a01 := PairCofactor(a, k, false, false), PairCofactor(a, k, false, true);
    var a10, a11 := PairCofactor(a, k, true, false), PairCofactor(a, k, true, true);
    ghost var pairs := PairsOf(a);
    assert level in Support(a);
    assert k in pairs;
    forall i, j
      ensures Canonical(PairCofactor(a, k, i, j)) && PairsOf(PairCofactor(a, k, i, j)) <= pairs - {k}
    {
      PairCofactorShape(a, k, i, j);
      PairsOfCofactor(a, k, i, j);
    }
    ProperSubset(PairsOf(a11), pairs, k);

    var u1 := Closure(cache, a11, level);
    var u2 := RelPrev(cache, u1, a10, level);
    PairsOfRelPrev(u1, a10, u2, pairs - {k});
    var d := RelPrev(cache, a01, u2, level);
    PairsOfRelPrev(a01, u2, d, pairs - {k});
    var e0 := Ite(cache, a00, TRUE, d, level);
    PairsOfOr(a00, d, e0, pairs - {k});
    ProperSubset(PairsOf(e0), pairs, k);
    var e := Closure(cache, e0, level);
    var g := RelPrev(cache, u2, e, level);
    PairsOfRelPrev(u2, e, g, pairs - {k});
    // spawned before u2 was computed, synced here
    var u3 := RelPrev(cache, a01, u1, level);
    PairsOfRelPrev(a01, u1, u3, pairs - {k});
    var f := RelPrev(cache, e, u3, level);
    PairsOfRelPrev(e, u3, f, pairs - {k});
    var m := RelPrev(cache, u2, f, level);
    PairsOfRelPrev(u2, f, m, pairs - {k});
    var h := Ite(cache, u1, TRUE, m, level);
    PairsOfOr(u1, m, h, pairs - {k});

    PairsAbove(a, k);
    PairsAboveNext(e, k, pairs);
    PairsAboveNext(f, k, pairs);
    PairsAboveNext(g, k, pairs);
    PairsAboveNext(h, k, pairs);
    ClosureStep(a, k, u1, u2, u3, d, e0, e, f, g, m, h);
    result := MakePair(k, e, f, g, h);
  }

  /** Pairs that bound those of a diagram. */
  ghost function Bound(a: Edge): (n: nat)
    ensures Between(a, 0, n)
  {
    BoundOf(PairsOf(a))
  }

  ghost function BoundOf(p: set<nat>): (n: nat)
    ensures forall l :: l in p ==> l < n
  {
    if p == {} then 0
    else
      var l :| l in p;
      var n := BoundOf(p - {l});
      assert forall m :: m in p ==> m == l || m in p - {l};
      Max(l + 1, n)
  }

  lemma ClosureProperties(a: Edge, r: Edge)
    requires IsClosure(a, r)
    ensures ClosureOf(RelOf(a), RelOf(r), 0)
    ensures forall x: State :: Rel(r, x, x) <==> Live(RelOf(a), 0, Bound(a), x)
  {
    var n := Bound(a);
    RelOfSpans(a, 0, n);
    ClosedIsClosure(RelOf(a), 0, n);
    forall x: State ensures Rel(r, x, x) <==> Live(RelOf(a), 0, n, x) {
      assert Rel(r, x, x) <==> (x, x) in RelOf(r);
    }
  }

  /** The result is determined: it consists of the paths between live states, and no other handle stands for them. */
  lemma ClosureDetermined(a: Edge, r: Edge, r': Edge)
    requires IsClosure(a, r)
    ensures IsClosure(a, r') <==> r' == r
    ensures forall x: State, z: State :: Rel(r, x, z) <==> ReachPlus(LivePart(RelOf(a), 0, Bound(a)), x, z)
    ensures forall x: State :: Rel(a, x, x) ==> Rel(r, x, x)
  {
    var n := Bound(a);
    forall x: State, z: State ensures Rel(r, x, z) <==> ReachPlus(LivePart(RelOf(a), 0, n), x, z) {
      assert Rel(r, x, z) <==> (x, z) in RelOf(r);
      assert RelOf(r) == PlusOf(LivePart(RelOf(a), 0, n));
    }
    ClosureProperties(a, r);
    forall x: State | Rel(a, x, x) ensures Rel(r, x, x) {
      assert (x, x) in RelOf(a);
      assert (x, x) in RelOf(r);
    }
    if IsClosure(a, r') {
      SameRelation(r, r');
    }
  }

  lemma SameRelation(r: Edge, r': Edge)
    requires Canonical(r) && Canonical(r') && RelOf(r) == RelOf(r')
    ensures r == r'
  {
    forall env: Env ensures Eval(r, env) == Eval(r', env) {
      PairOfEnv(env);
      assert (Source(env), Target(env)) in RelOf(r) <==> (Source(env), Target(env)) in RelOf(r');
    }
    Canonicity(r, r');
  }

  /**
   On every input, the result is the transitive closure exactly when every state with a step lies on a cycle of the
   operand whose other states come after it, and the reflexive-transitive closure exactly when every state does.
   */
  lemma ClosureMeaning(a: Edge, r: Edge)
    requires Canonical(a) && IsClosure(a, r)
    ensures Covered(RelOf(a), 0) <==> forall x: State, z: State :: Rel(r, x, z) <==> ReachPlus(RelOf(a), x, z)
    ensures EverywhereCovered(RelOf(a), 0) <==>
      forall x: State, z: State :: Rel(r, x, z) <==> ReachStar(RelOf(a), x, z)
    ensures forall x: State, z: State :: Rel(r, x, z) ==> ReachPlus(RelOf(a), x, z)
  {
    ClosureProperties(a, r);
    ClosureExact(RelOf(a), RelOf(r), 0);
    forall x: State, z: State ensures Rel(r, x, z) <==> (x, z) in RelOf(r) {}
  }

  /** On a reflexive relation the result is the reflexive-transitive closure. */
  lemma ClosureOfReflexive(a: Edge, r: Edge)
    requires Canonical(a) && IsClosure(a, r) && Reflexive(RelOf(a))
    ensures forall x: State, z: State :: Rel(r, x, z) <==> ReachStar(RelOf(a), x, z)
  {
    ReflexiveIsCovered(RelOf(a), 0);
    ClosureMeaning(a, r);
  }

  /** The relation with one step, from the states without bit 0 to the states with bit 0. */
  const ONE_WAY: Edge := Edge(false, Node(0, Node(1, Terminal, true, Terminal), false, Terminal))

  /** Without loops, steps are lost: the result for ONE_WAY is empty, and its transitive closure is not. */
  lemma ClosureLosesSteps(r: Edge)
    requires IsClosure(ONE_WAY, r)
    ensures ReachPlus(RelOf(ONE_WAY), iset{}, iset{0})
    ensures forall x: State, z: State :: !Rel(r, x, z)
  {
    assert Rel(ONE_WAY, iset{}, iset{0});
    assert IsPath(RelOf(ONE_WAY), [iset{}, iset{0}]);
    ClosureProperties(ONE_WAY, r);
    forall x: State, z: State ensures !Rel(r, x, z) {
      if Rel(r, x, z) {
        assert (x, z) in RelOf(r);
        assert (x, x) in RelOf(r);
        OneWayHasNoCycle(x);
      }
    }
  }

  /** The first state of a path has no bit 0 and the last one has it. */
  lemma OneWayPath(p: seq<State>)
    requires |p| >= 2 && IsPath(RelOf(ONE_WAY), p)
    ensures 0 !in p[0] && 0 in p[|p| - 1]
  {
    assert (p[0], p[1]) in RelOf(ONE_WAY) && (p[|p| - 2], p[|p| - 2 + 1]) in RelOf(ONE_WAY);
    assert 0 in Pair(p[0], p[1]) <==> 0 in p[0];
    assert 1 in Pair(p[|p| - 2], p[|p| - 1]) <==> 0 in p[|p| - 1];
    assert Rel(ONE_WAY, p[0], p[1]) && Rel(ONE_WAY, p[|p| - 2], p[|p| - 1]);
  }

  lemma OneWayHasNoCycle(x: State)
    ensures !OnLaterCycle(RelOf(ONE_WAY), 0, x)
  {
    forall p: seq<State> | |p| >= 2 && IsPath(Within(RelOf(ONE_WAY), 0, x), p) ensures p[0] != p[|p| - 1] {
      forall i | 0 <= i < |p| - 1 ensures (p[i], p[i + 1]) in RelOf(ONE_WAY) {
        assert (p[i], p[i + 1]) in Within(RelOf(ONE_WAY), 0, x);
      }
      OneWayPath(p);
    }
  }
}
