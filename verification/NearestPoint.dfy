/** Where the generalised cofactors evaluate their operand. */
module NearestPoint {
  /*
   They do so at the assignment nearest to the given one among those that satisfy the care function. It exists and is
   unique, and is found level by level.
   */
  import opened Bdd
  import opened BddCache
  import opened Relations

  lemma SetBitEval(e: Edge, level: nat, env: Env, b: bool)
    requires Above(e, level + 1)
    ensures Eval(e, SetBit(env, level, b)) == Eval(e, env)
  {
    EvalFlip(e, level + 1, level, env);
  }

  lemma {:induction false} SetBitTested(n: Node, lo: nat, level: nat, e: Env, b: bool)
    requires Ordered(n, lo) && level < lo
    ensures Tested(n, SetBit(e, level, b)) == Tested(n, e)
  {
    if n.Node? {
      SetBitTested(n.low, n.v + 1, level, e, b);
      SetBitTested(n.high, n.v + 1, level, e, b);
    }
  }

  function Side(e: Edge, level: nat, b: bool): Edge { if b then High(e, level) else Low(e, level) }

  lemma SideEval(e: Edge, level: nat, d: Env, b: bool)
    requires Canonical(e) && (e.n.Node? ==> level <= e.n.v)
    ensures Above(Side(e, level, b), level + 1)
    ensures Eval(e, SetBit(d, level, b)) == Eval(Side(e, level, b), d)
    ensures (level in d <==> b) ==> Eval(e, d) == Eval(Side(e, level, b), d)
  {
    CofactorShape(e, level);
    CofactorEval(e, level, SetBit(d, level, b));
    SetBitEval(Side(e, level, b), level, d, b);
    CofactorEval(e, level, d);
  }

  // ---------- One level ----------

  /**
   The nearest assignment for one cofactor of the care function is the nearest one for the whole, once the bit of the
   level has been set: to that of `env`, or to the other one if the care function leaves no choice.
   */
  lemma NearestStep(c: Edge, level: nat, b: bool, env: Env, e: Env, t: iset<nat>)
    requires Canonical(c) && (c.n.Node? ==> level <= c.n.v)
    requires (level in env <==> b) || Side(c, level, !b) == FALSE
    requires Nearest(Side(c, level, b), env, e, t)
    ensures Nearest(c, env, SetBit(e, level, b), t + iset{level})
  {
    var cb, e', t' := Side(c, level, b), SetBit(e, level, b), t + iset{level};
    var d: Env :| Eval(cb, d) && AgreeIn(d, e, t);
    SideEval(c, level, d, b);
    assert AgreeIn(SetBit(d, level, b), e', t');
    forall v: nat | v in t' && (v in e') != (v in env) ensures Blocked(c, env, e', t', v) {
      if v == level {
        BlockedAt(c, level, b, env, e', t');
      } else if v < level {
        BlockedBefore(c, level, b, env, e, t, v, d);
      } else {
        BlockedAfter(c, level, b, env, e, t, v);
      }
    }
  }

  lemma BlockedAt(c: Edge, level: nat, b: bool, env: Env, e: Env, t: iset<nat>)
    requires Canonical(c) && (c.n.Node? ==> level <= c.n.v)
    requires Side(c, level, !b) == FALSE && (level in env <==> !b)
    ensures Blocked(c, env, e, t, level)
  {
    forall d: Env | Eval(c, d) && (level in d <==> level in env) ensures false {
      SideEval(c, level, d, !b);
    }
  }

  lemma BlockedBefore(c: Edge, level: nat, b: bool, env: Env, e: Env, t: iset<nat>, v: nat, m: Env)
    requires Canonical(c) && (c.n.Node? ==> level <= c.n.v) && v < level
    requires Eval(Side(c, level, b), m) && Blocked(Side(c, level, b), env, e, t, v)
    ensures Blocked(c, env, SetBit(e, level, b), t + iset{level}, v)
  {
    var cb, e', t' := Side(c, level, b), SetBit(e, level, b), t + iset{level};
    CofactorShape(c, level);
    OrderedSupport(cb.n, level + 1);
    forall d: Env | Eval(c, d) && (v in d <==> v in env) && AgreeIn(d, e', LevelsBelow(t', v)) ensures false {
      var d' := iset x: nat | if x <= level then x in d else x in m;
      EvalAgree(cb.n, d', m);
      assert AgreeIn(d', e, LevelsBelow(t, v)) && (v in d' <==> v in env);
    }
  }

  lemma BlockedAfter(c: Edge, level: nat, b: bool, env: Env, e: Env, t: iset<nat>, v: nat)
    requires Canonical(c) && (c.n.Node? ==> level <= c.n.v) && level < v
    requires Blocked(Side(c, level, b), env, e, t, v)
    ensures Blocked(c, env, SetBit(e, level, b), t + iset{level}, v)
  {
    var cb, e', t' := Side(c, level, b), SetBit(e, level, b), t + iset{level};
    forall d: Env | Eval(c, d) && (v in d <==> v in env) && AgreeIn(d, e', LevelsBelow(t', v)) ensures false {
      assert level in LevelsBelow(t', v) && (level in d <==> b);
      var d' := SetBit(d, level, level in e);
      SideEval(c, level, d, b);
      SetBitEval(cb, level, d, level in e);
      forall x: nat | x in LevelsBelow(t, v) ensures x in d' <==> x in e {
        assert x in LevelsBelow(t', v);
      }
      assert AgreeIn(d', e, LevelsBelow(t, v)) && (v in d' <==> v in env);
    }
  }

  /** The same with the value of `f`, whose cofactor is evaluated at the assignment for the cofactor. */
  lemma ValueStep(f: Edge, c: Edge, level: nat, b: bool, r: Edge, rb: Edge, env: Env, all: bool)
    requires Canonical(f) && Canonical(c) && (f.n.Node? ==> level <= f.n.v) && (c.n.Node? ==> level <= c.n.v)
    requires all || (f.n.Node? && f.n.v == level)
    requires (level in env <==> b) || Side(c, level, !b) == FALSE
    requires ValueAtNearest(Side(f, level, b), Side(c, level, b), rb, env, all) && Eval(r, env) == Eval(rb, env)
    ensures ValueAtNearest(f, c, r, env, all)
  {
    var fb, cb := Side(f, level, b), Side(c, level, b);
    var e: Env :| Nearest(cb, env, e, Levels(fb, e, all)) && (Eval(rb, env) <==> Eval(fb, e));
    var e' := SetBit(e, level, b);
    NearestStep(c, level, b, env, e, Levels(fb, e, all));
    SideEval(f, level, e, b);
    LevelsStep(f, level, b, e, all);
  }

  /** The levels that are read on the way of an assignment, from those for the cofactor. */
  lemma LevelsStep(f: Edge, level: nat, b: bool, e: Env, all: bool)
    requires Canonical(f) && (f.n.Node? ==> level <= f.n.v) && (all || (f.n.Node? && f.n.v == level))
    ensures Levels(Side(f, level, b), e, all) + iset{level} == Levels(f, SetBit(e, level, b), all)
  {
    if all {
      assert AllLevels() + iset{level} == AllLevels();
    } else {
      CofactorShape(f, level);
      SetBitTested(Side(f, level, b).n, level + 1, level, e, b);
    }
  }

  // ---------- Existence and uniqueness ----------

  /** Every care function but false has a nearest assignment, at which it is satisfied. */
  lemma {:induction false} SelfNearest(c: Edge, env: Env, all: bool)
    requires Canonical(c) && c != FALSE
    ensures ValueAtNearest(c, c, TRUE, env, all)
    decreases Size(c)
  {
    if c.n.Terminal? {
      assert Eval(c, env) && AgreeIn(env, env, Levels(c, env, all));
      assert Nearest(c, env, env, Levels(c, env, all));
    } else {
      var level := c.n.v;
      CofactorShape(c, level);
      var b := if Side(c, level, level in env) == FALSE then level !in env else level in env;
      SelfNearest(Side(c, level, b), env, all);
      ValueStep(c, c, level, b, TRUE, TRUE, env, all);
    }
  }

  /** As far as all levels go, there is only one. */
  lemma {:induction false} NearestUniqueBelow(c: Edge, env: Env, e: Env, e': Env, v: nat)
    requires Nearest(c, env, e, AllLevels()) && Nearest(c, env, e', AllLevels())
    ensures forall x: nat :: x < v ==> (x in e <==> x in e')
  {
    if v > 0 {
      NearestUniqueBelow(c, env, e, e', v - 1);
      if (v - 1 in e) != (v - 1 in e') {
        if (v - 1 in e) != (v - 1 in env) {
          NotBlocked(c, env, e, e', AllLevels(), AllLevels(), v - 1);
        } else {
          NotBlocked(c, env, e', e, AllLevels(), AllLevels(), v - 1);
        }
      }
    }
  }

  /** An assignment that keeps the bit shows that the other one may keep it. */
  lemma NotBlocked(c: Edge, env: Env, e: Env, e': Env, t: iset<nat>, t': iset<nat>, v: nat)
    requires (exists d: Env :: Eval(c, d) && AgreeIn(d, e', t')) && v in t' && (v in e' <==> v in env)
    requires forall x :: x in LevelsBelow(t, v) ==> x in t' && (x in e <==> x in e')
    ensures !Blocked(c, env, e, t, v)
  {
    var d: Env :| Eval(c, d) && AgreeIn(d, e', t');
    assert AgreeIn(d, e, LevelsBelow(t, v));
  }

  lemma NearestUnique(c: Edge, env: Env, e: Env, e': Env)
    requires Nearest(c, env, e, AllLevels()) && Nearest(c, env, e', AllLevels())
    ensures e == e'
  {
    forall x: nat ensures x in e <==> x in e' {
      NearestUniqueBelow(c, env, e, e', x + 1);
    }
  }

  /** As far as the tested levels go, `f` has the same value at all of them: the paths of `f` are the same. */
  lemma {:induction false} TestedUnique(n: Node, lo: nat, c: Edge, env: Env, e: Env, e': Env, p: iset<nat>)
    requires Ordered(n, lo) && (forall x :: x in p ==> x < lo) && AgreeIn(e, e', p)
    requires Nearest(c, env, e, p + Tested(n, e)) && Nearest(c, env, e', p + Tested(n, e'))
    ensures EvalN(n, e) == EvalN(n, e')
  {
    if n.Node? {
      var v, t, t' := n.v, p + Tested(n, e), p + Tested(n, e');
      TestedFrom(n, lo, e);
      TestedFrom(n, lo, e');
      TestedBelow(n, lo, e, p);
      TestedBelow(n, lo, e', p);
      if (v in e) != (v in e') {
        if (v in e) != (v in env) {
          NotBlocked(c, env, e, e', t, t', v);
        } else {
          NotBlocked(c, env, e', e, t', t, v);
        }
      }
      var next := if v in e then n.high else n.low;
      assert t == (p + iset{v}) + Tested(next, e) && t' == (p + iset{v}) + Tested(next, e');
      TestedUnique(next, v + 1, c, env, e, e', p + iset{v});
    }
  }

  lemma {:induction false} TestedFrom(n: Node, lo: nat, e: Env)
    requires Ordered(n, lo)
    ensures forall x :: x in Tested(n, e) ==> lo <= x
  {
    if n.Node? {
      TestedFrom(n.low, n.v + 1, e);
      TestedFrom(n.high, n.v + 1, e);
    }
  }

  lemma TestedBelow(n: Node, lo: nat, e: Env, p: iset<nat>)
    requires Ordered(n, lo) && n.Node? && (forall x :: x in p ==> x < lo)
    ensures LevelsBelow(p + Tested(n, e), n.v) == p && n.v in Tested(n, e)
  {
    TestedFrom(if n.v in e then n.high else n.low, n.v + 1, e);
  }

  // ---------- Where the care function holds ----------

  /** An assignment that satisfies the care function is nearest to itself. */
  lemma {:induction false} NearestKeeps(c: Edge, env: Env, e: Env, t: iset<nat>, v: nat)
    requires Eval(c, env) && Nearest(c, env, e, t)
    ensures forall x: nat :: x in t && x < v ==> (x in e <==> x in env)
  {
    if v > 0 {
      NearestKeeps(c, env, e, t, v - 1);
      assert AgreeIn(env, e, LevelsBelow(t, v - 1));
    }
  }

  lemma {:induction false} TestedEval(n: Node, e: Env, env: Env)
    requires AgreeIn(e, env, Tested(n, e))
    ensures EvalN(n, e) == EvalN(n, env)
  {
    if n.Node? {
      TestedEval(if n.v in e then n.high else n.low, e, env);
    }
  }

  /** Where the care function holds, the generalised cofactors have the value of `f`. */
  lemma NearestAgrees(f: Edge, c: Edge, r: Edge, all: bool, env: Env)
    requires ValuesAtNearest(f, c, r, all) && Eval(c, env)
    ensures Eval(r, env) == Eval(f, env)
  {
    assert ValueAtNearest(f, c, r, env, all);
    var e: Env :| Nearest(c, env, e, Levels(f, e, all)) && (Eval(r, env) <==> Eval(f, e));
    forall x: nat | x in Levels(f, e, all) ensures x in e <==> x in env {
      NearestKeeps(c, env, e, Levels(f, e, all), x + 1);
    }
    if all {
      assert forall x: nat :: IsLevel(x) ==> x in AllLevels();
      forall x: nat ensures x in e <==> x in env { assert IsLevel(x); }
      assert e == env;
    } else {
      TestedEval(f.n, e, env);
    }
  }

  lemma NearestSatisfies(c: Edge, env: Env, e: Env)
    requires Nearest(c, env, e, AllLevels())
    ensures Eval(c, e)
  {
    var d: Env :| Eval(c, d) && AgreeIn(d, e, AllLevels());
    forall x: nat ensures x in d <==> x in e { assert IsLevel(x); }
    assert d == e;
  }

  // ---------- What the generalised cofactors are ----------

  /** The value at any nearest assignment. */
  lemma NearestValue(f: Edge, c: Edge, r: Edge, all: bool, env: Env, e: Env)
    requires Canonical(f) && c != FALSE && ValuesAtNearest(f, c, r, all) && Nearest(c, env, e, Levels(f, e, all))
    ensures Eval(r, env) == Eval(f, e)
  {
    assert ValueAtNearest(f, c, r, env, all);
    var d: Env :| Nearest(c, env, d, Levels(f, d, all)) && (Eval(r, env) <==> Eval(f, d));
    if all {
      NearestUnique(c, env, d, e);
    } else {
      assert Tested(f.n, d) == iset{} + Tested(f.n, d) && Tested(f.n, e) == iset{} + Tested(f.n, e);
      TestedUnique(f.n, 0, c, env, d, e, iset{});
    }
  }

  /** There is only one canonical result. */
  lemma NearestDetermines(f: Edge, c: Edge, r: Edge, r': Edge, all: bool)
    requires Canonical(f) && Canonical(r) && Canonical(r')
    requires ValuesAtNearest(f, c, r, all) && ValuesAtNearest(f, c, r', all)
    ensures r == r'
  {
    if c != FALSE {
      forall env: Env ensures Eval(r, env) == Eval(r', env) {
        assert ValueAtNearest(f, c, r, env, all);
        var e: Env :| Nearest(c, env, e, Levels(f, e, all)) && (Eval(r, env) <==> Eval(f, e));
        NearestValue(f, c, r', all, env, e);
      }
      Canonicity(r, r');
    }
  }
}
