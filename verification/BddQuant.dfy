/** Quantification and the generalised cofactors of sylvan_bdd.c. */
module BddQuant {
  import opened Bdd
  import opened BddCache
  import opened BddOps
  import opened Common
  import opened NearestPoint
  import opened Relations

  // ---------- The meaning of quantification ----------

  lemma SomeEvalIsAndTrue(a: Edge, v: set<nat>, env: Env)
    ensures SomeEval(a, v, env) <==> SomeEvalAnd(a, TRUE, v, env)
    ensures SomeEval(a, v, env) <==> SomeEvalAnd(TRUE, a, v, env)
    ensures SomeEval(a, v, env) <==> SomeEvalAnd(a, a, v, env)
  {
  }

  /** Only the quantified variables that the operands depend on matter. */
  lemma SomeEvalAndRestrict(a: Edge, b: Edge, v: set<nat>, w: set<nat>, env: Env)
    requires forall x :: x in Support(a) + Support(b) ==> (x in v ==> x in w)
    requires SomeEvalAnd(a, b, v, env)
    ensures SomeEvalAnd(a, b, w, env)
  {
    var e: Env :| SameOutside(e, env, v) && Eval(a, e) && Eval(b, e);
    var s := Support(a) + Support(b);
    var d := iset x: nat | if x in s then x in e else x in env;
    EvalAgree(a.n, d, e);
    EvalAgree(b.n, d, e);
    assert SameOutside(d, env, w);
  }

  /** The quantified function takes the same value on assignments that agree outside `v`. */
  lemma SomeEvalAndSame(a: Edge, b: Edge, v: set<nat>, env: Env, env': Env)
    requires SameOutside(env, env', v)
    ensures SomeEvalAnd(a, b, v, env) <==> SomeEvalAnd(a, b, v, env')
  {
    if SomeEvalAnd(a, b, v, env) {
      var e: Env :| SameOutside(e, env, v) && Eval(a, e) && Eval(b, e);
      assert SameOutside(e, env', v);
    }
    if SomeEvalAnd(a, b, v, env') {
      var e: Env :| SameOutside(e, env', v) && Eval(a, e) && Eval(b, e);
      assert SameOutside(e, env, v);
    }
  }

  /** Quantifying a level that is in the set: either cofactor will do. */
  lemma SomeEvalAndIn(a: Edge, b: Edge, level: nat, v: set<nat>, env: Env)
    requires Canonical(a) && Canonical(b)
    requires (a.n.Node? ==> level <= a.n.v) && (b.n.Node? ==> level <= b.n.v)
    ensures SomeEvalAnd(a, b, v + {level}, env) <==>
      SomeEvalAnd(Low(a, level), Low(b, level), v, env) || SomeEvalAnd(High(a, level), High(b, level), v, env)
  {
    CofactorShape(a, level);
    CofactorShape(b, level);
    if SomeEvalAnd(a, b, v + {level}, env) {
      var e: Env :| SameOutside(e, env, v + {level}) && Eval(a, e) && Eval(b, e);
      CofactorEval(a, level, e);
      CofactorEval(b, level, e);
      var ae := if level in e then High(a, level) else Low(a, level);
      var be := if level in e then High(b, level) else Low(b, level);
      assert SameOutside(e, e, v + {level});
      SomeEvalAndRestrict(ae, be, v + {level}, v, e);
      SomeEvalAndMove(ae, be, level, v, e, env);
    }
    if SomeEvalAnd(Low(a, level), Low(b, level), v, env) {
      SomeEvalAndUp(a, b, level, false, v, env);
    }
    if SomeEvalAnd(High(a, level), High(b, level), v, env) {
      SomeEvalAndUp(a, b, level, true, v, env);
    }
  }

  /** An assignment for the cofactors by `level` is one for the operands, once `level` has been set to `bit`. */
  lemma SomeEvalAndUp(a: Edge, b: Edge, level: nat, bit: bool, v: set<nat>, env: Env)
    requires Canonical(a) && Canonical(b)
    requires (a.n.Node? ==> level <= a.n.v) && (b.n.Node? ==> level <= b.n.v)
    requires SomeEvalAnd(if bit then High(a, level) else Low(a, level),
                         if bit then High(b, level) else Low(b, level), v, env)
    ensures SomeEvalAnd(a, b, v + {level}, env)
  {
    CofactorShape(a, level);
    CofactorShape(b, level);
    var ac, bc := if bit then High(a, level) else Low(a, level), if bit then High(b, level) else Low(b, level);
    var e: Env :| SameOutside(e, env, v) && Eval(ac, e) && Eval(bc, e);
    var d := if bit then e + iset{level} else e - iset{level};
    EvalFlip(ac, level + 1, level, e);
    EvalFlip(bc, level + 1, level, e);
    CofactorEval(a, level, d);
    CofactorEval(b, level, d);
    assert SameOutside(d, env, v + {level});
  }

  /** Operands below `level` do not notice a change of `level` in the free assignment. */
  lemma SomeEvalAndMove(a: Edge, b: Edge, level: nat, v: set<nat>, env: Env, env': Env)
    requires Above(a, level + 1) && Above(b, level + 1)
    requires SameOutside(env, env', v + {level}) && SomeEvalAnd(a, b, v, env)
    ensures SomeEvalAnd(a, b, v, env')
  {
    OrderedSupport(a.n, level + 1);
    OrderedSupport(b.n, level + 1);
    SomeEvalAndRestrict(a, b, v, v + {level}, env);
    SomeEvalAndSame(a, b, v + {level}, env, env');
    SomeEvalAndRestrict(a, b, v + {level}, v, env');
  }

  /** A level that is not in the set selects the cofactor. */
  lemma SomeEvalAndOut(a: Edge, b: Edge, level: nat, v: set<nat>, env: Env)
    requires Canonical(a) && Canonical(b) && level !in v
    requires (a.n.Node? ==> level <= a.n.v) && (b.n.Node? ==> level <= b.n.v)
    ensures SomeEvalAnd(a, b, v, env) <==>
      if level in env then SomeEvalAnd(High(a, level), High(b, level), v, env)
      else SomeEvalAnd(Low(a, level), Low(b, level), v, env)
  {
    forall e: Env | SameOutside(e, env, v)
      ensures (level in e <==> level in env)
      ensures Eval(a, e) == Eval(if level in e then High(a, level) else Low(a, level), e)
      ensures Eval(b, e) == Eval(if level in e then High(b, level) else Low(b, level), e)
    {
      CofactorEval(a, level, e);
      CofactorEval(b, level, e);
    }
  }

  lemma AndExistsAbove(a: Edge, b: Edge, v: Edge, r: Edge, lo: nat)
    requires Above(a, lo) && Above(b, lo) && IsAndExists(a, b, v, r)
    ensures Above(r, lo)
    ensures Support(r) <= (Support(a) + Support(b)) - Support(v)
  {
    OrderedSupport(a.n, lo);
    OrderedSupport(b.n, lo);
    forall x | x in Support(r) ensures x in (Support(a) + Support(b)) - Support(v) {
      if x !in (Support(a) + Support(b)) - Support(v) {
        var env := SupportEssential(r, x);
        if SomeEvalAnd(a, b, Support(v), env + iset{x}) {
          SomeEvalAndInsensitive(a, b, Support(v), x, env + iset{x}, env - iset{x});
        } else {
          SomeEvalAndInsensitive(a, b, Support(v), x, env - iset{x}, env + iset{x});
        }
      }
    }
    AboveFromSupport(r, lo);
  }

  lemma SomeEvalAndInsensitive(a: Edge, b: Edge, v: set<nat>, x: nat, env: Env, env': Env)
    requires x !in (Support(a) + Support(b)) - v && SameOutside(env, env', {x})
    requires SomeEvalAnd(a, b, v, env)
    ensures SomeEvalAnd(a, b, v, env')
  {
    SomeEvalAndRestrict(a, b, v, v + {x}, env);
    SomeEvalAndSame(a, b, v + {x}, env, env');
    SomeEvalAndRestrict(a, b, v + {x}, v, env');
  }

  // ---------- Steps of the recursion ----------

  lemma CubeShape(v: Edge)
    requires IsCube(v) && Canonical(v)
    ensures v != TRUE ==> v.n.Node? && Canonical(NodeHigh(v)) && Above(NodeHigh(v), v.n.v + 1) && IsCube(NodeHigh(v))
    ensures v != TRUE ==> Support(v) == {v.n.v} + Support(NodeHigh(v)) && v.n.v !in Support(NodeHigh(v))
  {
    if v != TRUE {
      CofactorShape(v, v.n.v);
    }
  }

  /** Leading variables of the set that lie above both operands may be dropped. */
  lemma AndExistsSkip(a: Edge, b: Edge, v: Edge, w: Edge, r: Edge)
    requires forall x :: x in Support(a) + Support(b) ==> (x in Support(v) <==> x in Support(w))
    requires IsAndExists(a, b, w, r)
    ensures IsAndExists(a, b, v, r)
  {
    forall env: Env ensures Eval(r, env) <==> SomeEvalAnd(a, b, Support(v), env) {
      if SomeEvalAnd(a, b, Support(v), env) { SomeEvalAndRestrict(a, b, Support(v), Support(w), env); }
      if SomeEvalAnd(a, b, Support(w), env) { SomeEvalAndRestrict(a, b, Support(w), Support(v), env); }
    }
  }

  /** The top level is quantified: the results for the cofactors are joined. */
  lemma AndExistsIn(a: Edge, b: Edge, v: Edge, level: nat, low: Edge, high: Edge, r: Edge)
    requires Canonical(a) && Canonical(b) && Canonical(v) && IsCube(v) && v != TRUE && v.n.v == level
    requires (a.n.Node? ==> level <= a.n.v) && (b.n.Node? ==> level <= b.n.v)
    requires IsAndExists(Low(a, level), Low(b, level), NodeHigh(v), low)
    requires IsAndExists(High(a, level), High(b, level), NodeHigh(v), high)
    requires IsIte(low, TRUE, high, r)
    ensures IsAndExists(a, b, v, r)
  {
    CubeShape(v);
    var w := Support(NodeHigh(v));
    assert Support(v) == w + {level};
    forall env: Env ensures Eval(r, env) <==> SomeEvalAnd(a, b, Support(v), env) {
      SomeEvalAndIn(a, b, level, w, env);
    }
  }

  /** The top level is kept. */
  lemma AndExistsOut(a: Edge, b: Edge, v: Edge, level: nat, low: Edge, high: Edge)
    requires Canonical(a) && Canonical(b) && level !in Support(v)
    requires (a.n.Node? ==> level <= a.n.v) && (b.n.Node? ==> level <= b.n.v)
    requires IsAndExists(Low(a, level), Low(b, level), v, low)
    requires IsAndExists(High(a, level), High(b, level), v, high)
    ensures Above(low, level + 1) && Above(high, level + 1)
    ensures IsAndExists(a, b, v, MakeNode(level, low, high))
  {
    CofactorShape(a, level);
    CofactorShape(b, level);
    AndExistsAbove(Low(a, level), Low(b, level), v, low, level + 1);
    AndExistsAbove(High(a, level), High(b, level), v, high, level + 1);
    var r := MakeNode(level, low, high);
    MakeNodeEval(level, low, high);
    forall env: Env ensures Eval(r, env) <==> SomeEvalAnd(a, b, Support(v), env) {
      SomeEvalAndOut(a, b, level, Support(v), env);
    }
  }

  lemma ExistsIsAndExists(a: Edge, v: Edge, r: Edge)
    ensures IsExists(a, v, r) <==> IsAndExists(a, TRUE, v, r)
    ensures IsExists(a, v, r) <==> IsAndExists(TRUE, a, v, r)
    ensures IsExists(a, v, r) <==> IsAndExists(a, a, v, r)
  {
    forall env: Env
      ensures SomeEval(a, Support(v), env) <==> SomeEvalAnd(a, TRUE, Support(v), env)
      ensures SomeEval(a, Support(v), env) <==> SomeEvalAnd(TRUE, a, Support(v), env)
      ensures SomeEval(a, Support(v), env) <==> SomeEvalAnd(a, a, Support(v), env)
    {
      SomeEvalIsAndTrue(a, Support(v), env);
    }
  }

  lemma AndExistsTerminal(a: Edge, b: Edge, v: Edge)
    ensures a == FALSE || b == FALSE || a == Not(b) ==> IsAndExists(a, b, v, FALSE)
    ensures a == TRUE && b == TRUE ==> IsAndExists(a, b, v, TRUE)
  {
    NotEval(b);
    if a == TRUE && b == TRUE {
      forall env: Env ensures SomeEvalAnd(a, b, Support(v), env) {
        assert SameOutside(env, env, Support(v)) && Eval(a, env) && Eval(b, env);
      }
    }
  }

  lemma AndExistsEmpty(a: Edge, b: Edge, r: Edge)
    requires IsAnd(a, b, r)
    ensures IsAndExists(a, b, TRUE, r)
  {
    forall env: Env ensures Eval(r, env) <==> SomeEvalAnd(a, b, {}, env) {
      assert SameOutside(env, env, {});
      if SomeEvalAnd(a, b, {}, env) {
        var e: Env :| SameOutside(e, env, {}) && Eval(a, e) && Eval(b, e);
        EvalAgree(a.n, e, env);
        EvalAgree(b.n, e, env);
      }
    }
  }

  // ---------- EXISTS ----------

  /** Drops the leading variables of a cube that lie above `level`; the while loop of the quantifiers. */
  method SkipAbove(v0: Edge, level: nat) returns (v: Edge)
    requires IsCube(v0) && Canonical(v0)
    ensures IsCube(v) && Canonical(v) && Above(v, level) && Size(v) <= Size(v0)
    ensures forall x | level <= x :: x in Support(v0) <==> x in Support(v)
  {
    v := v0;
    while v != TRUE && v.n.v < level
      invariant IsCube(v) && Canonical(v) && Size(v) <= Size(v0)
      invariant forall x | level <= x :: x in Support(v0) <==> x in Support(v)
      decreases Size(v)
    {
      CubeShape(v);
      v := NodeHigh(v);
    }
  }

  method Exists(cache: Cache, a: Edge, variables: Edge, prevLevel: nat) returns (result: Edge)
    requires cache.Sound() && Canonical(a) && Canonical(variables) && IsCube(variables)
    modifies cache
    ensures cache.Sound()
    ensures IsExists(a, variables, result)
    decreases Size(a), 2
  {
    AndExistsTerminal(a, TRUE, variables);
    ExistsIsAndExists(a, variables, a);
    if a == TRUE { return TRUE; }
    if a == FALSE { return FALSE; }
    AndTerminal(a, TRUE);
    AndExistsEmpty(a, TRUE, a);
    if variables == TRUE { return a; }

    var level := a.n.v;
    var v := SkipAbove(variables, level);
    OrderedSupport(a.n, level);
    if v == TRUE {
      AndExistsSkip(a, TRUE, variables, v, a);
      return a;
    }

    result := ExistsBelow(cache, a, v, prevLevel);
    ExistsIsAndExists(a, v, result);
    AndExistsSkip(a, TRUE, variables, v, result);
    ExistsIsAndExists(a, variables, result);
  }

  /** The part of sylvan_exists after the skipping loop. */
  method ExistsBelow(cache: Cache, a: Edge, v: Edge, prevLevel: nat) returns (result: Edge)
    requires cache.Sound() && Canonical(a) && Canonical(v) && IsCube(v) && v != TRUE
    requires a.n.Node? && Above(v, a.n.v)
    modifies cache
    ensures cache.Sound()
    ensures IsExists(a, v, result)
    decreases Size(a), 1
  {
    var level := a.n.v;
    var cacheNow := cache.CacheNow(prevLevel, level);
    if cacheNow {
      var hit, r := cache.Get(Key(OpExists, a, v, FALSE));
      if hit { return r; }
    }

    CofactorShape(a, level);
    CubeShape(v);
    var aLow, aHigh := NodeLow(a), NodeHigh(a);
    if v.n.v == level {
      result := ExistsLevel(cache, aLow, aHigh, NodeHigh(v), level);
      ExistsLevelStep(a, v, result);
    } else {
      var low := Exists(cache, aLow, v, level);
      var high := Exists(cache, aHigh, v, level);
      ExistsIsAndExists(aLow, v, low);
      ExistsIsAndExists(aHigh, v, high);
      OrderedSupport(v.n, level + 1);
      AndExistsOut(a, TRUE, v, level, low, high);
      result := MakeNode(level, low, high);
      ExistsIsAndExists(a, v, result);
    }

    if cacheNow {
      cache.Put(Key(OpExists, a, v, FALSE), result);
    }
  }

  /** `r` holds where one of the two quantified operands does. */
  ghost predicate IsExistsEither(low: Edge, high: Edge, v: Edge, r: Edge) {
    Canonical(r) && forall env: Env ::
      Eval(r, env) <==> SomeEval(low, Support(v), env) || SomeEval(high, Support(v), env)
  }

  lemma ExistsLevelStep(a: Edge, v: Edge, r: Edge)
    requires Canonical(a) && a.n.Node? && Canonical(v) && IsCube(v) && v != TRUE && v.n.v == a.n.v
    requires IsExistsEither(NodeLow(a), NodeHigh(a), NodeHigh(v), r)
    ensures IsExists(a, v, r)
  {
    CubeShape(v);
    var w := Support(NodeHigh(v));
    assert Support(v) == w + {a.n.v};
    forall env: Env ensures Eval(r, env) <==> SomeEval(a, Support(v), env) {
      SomeEvalAndIn(a, TRUE, a.n.v, w, env);
      SomeEvalIsAndTrue(a, Support(v), env);
      SomeEvalIsAndTrue(NodeLow(a), w, env);
      SomeEvalIsAndTrue(NodeHigh(a), w, env);
    }
  }

  lemma ExistsEitherTrivial(low: Edge, high: Edge, v: Edge)
    requires low == TRUE || high == TRUE || low == Not(high)
    ensures IsExistsEither(low, high, v, TRUE)
  {
    NotEval(high);
    forall env: Env ensures SomeEval(low, Support(v), env) || SomeEval(high, Support(v), env) {
      assert SameOutside(env, env, Support(v));
      assert Eval(low, env) || Eval(high, env);
    }
  }

  /** The abstraction of a level in sylvan_exists. */
  method ExistsLevel(cache: Cache, aLow: Edge, aHigh: Edge, v: Edge, level: nat) returns (result: Edge)
    requires cache.Sound() && Canonical(aLow) && Canonical(aHigh) && Canonical(v) && IsCube(v)
    modifies cache
    ensures cache.Sound()
    ensures IsExistsEither(aLow, aHigh, v, result)
    decreases Size(aLow) + Size(aHigh) + 1, 0
  {
    if aLow == TRUE || aHigh == TRUE || aLow == Not(aHigh) {
      ExistsEitherTrivial(aLow, aHigh, v);
      return TRUE;
    }
    var low := Exists(cache, aLow, v, level);
    if low == TRUE { return TRUE; }
    var high := Exists(cache, aHigh, v, level);
    if high == TRUE { return TRUE; }
    if low == FALSE && high == FALSE { return FALSE; }
    result := Or(cache, low, high);
  }

  // ---------- AND-EXISTS ----------

  method AndExists(cache: Cache, a: Edge, b: Edge, v: Edge, prevLevel: nat) returns (result: Edge)
    requires cache.Sound() && Canonical(a) && Canonical(b) && Canonical(v) && IsCube(v)
    modifies cache
    ensures cache.Sound()
    ensures IsAndExists(a, b, v, result)
    decreases Size(a) + Size(b), 2
  {
    AndExistsTerminal(a, b, v);
    if a == FALSE { return FALSE; }
    if b == FALSE { return FALSE; }
    if a == Not(b) { return FALSE; }
    if a == TRUE && b == TRUE { return TRUE; }

    if a == TRUE {
      result := Exists(cache, b, v, 0);
      ExistsIsAndExists(b, v, result);
      return;
    }
    if b == TRUE || a == b {
      result := Exists(cache, a, v, 0);
      ExistsIsAndExists(a, v, result);
      return;
    }
    if v == TRUE {
      result := And(cache, a, b, 0);
      AndExistsEmpty(a, b, result);
      return;
    }

    if * {
      result := AndExistsNodes(cache, b, a, v, prevLevel);
    } else {
      result := AndExistsNodes(cache, a, b, v, prevLevel);
    }
  }

  /** After the terminal cases and the swap: skips leading variables and consults the cache. */
  method AndExistsNodes(cache: Cache, a: Edge, b: Edge, v0: Edge, prevLevel: nat) returns (result: Edge)
    requires cache.Sound() && Canonical(a) && Canonical(b) && Canonical(v0) && IsCube(v0)
    requires a.n.Node? && b.n.Node?
    modifies cache
    ensures cache.Sound()
    ensures IsAndExists(a, b, v0, result)
    decreases Size(a) + Size(b), 1
  {
    var level := Min(a.n.v, b.n.v);
    var v := SkipAbove(v0, level);
    OrderedSupport(a.n, a.n.v);
    OrderedSupport(b.n, b.n.v);
    if v == TRUE {
      result := And(cache, a, b, 0);
      AndExistsEmpty(a, b, result);
      AndExistsSkip(a, b, v0, v, result);
      return;
    }

    var cacheNow := cache.CacheNow(prevLevel, level);
    if cacheNow {
      var hit, r := cache.Get(Key(OpAndExists, a, b, v));
      if hit {
        AndExistsSkip(a, b, v0, v, r);
        return r;
      }
    }

    result := AndExistsBelow(cache, a, b, v, level);
    AndExistsSkip(a, b, v0, v, result);
    if cacheNow {
      cache.Put(Key(OpAndExists, a, b, v), result);
    }
  }

  method AndExistsBelow(cache: Cache, a: Edge, b: Edge, v: Edge, level: nat) returns (result: Edge)
    requires cache.Sound() && Canonical(a) && Canonical(b) && Canonical(v) && IsCube(v) && v != TRUE
    requires a.n.Node? && b.n.Node? && level == Min(a.n.v, b.n.v) && Above(v, level)
    modifies cache
    ensures cache.Sound()
    ensures IsAndExists(a, b, v, result)
    decreases Size(a) + Size(b), 0
  {
    CofactorShape(a, level);
    CofactorShape(b, level);
    CubeShape(v);
    var aLow, aHigh := Low(a, level), High(a, level);
    var bLow, bHigh := Low(b, level), High(b, level);

    if v.n.v == level {
      var w := NodeHigh(v);
      var low := AndExists(cache, aLow, bLow, w, level);
      if low == TRUE || low == aHigh || low == bHigh {
        AndExistsCovered(a, b, v, level, low);
        return low;
      }
      if low == Not(aHigh) {
        var high := Exists(cache, bHigh, w, 0);
        result := JoinHigh(cache, low, high);
        AndExistsComplement(a, b, v, level, low, high, result);
      } else if low == Not(bHigh) {
        var high := Exists(cache, aHigh, w, 0);
        result := JoinHigh(cache, low, high);
        AndExistsComplement(b, a, v, level, low, high, result);
      } else {
        var high := AndExists(cache, aHigh, bHigh, w, level);
        result := JoinHigh(cache, low, high);
        AndExistsIn(a, b, v, level, low, high, result);
      }
    } else {
      var low := AndExists(cache, aLow, bLow, v, level);
      var high := AndExists(cache, aHigh, bHigh, v, level);
      OrderedSupport(v.n, level + 1);
      AndExistsOut(a, b, v, level, low, high);
      result := MakeNode(level, low, high);
    }
  }

  method JoinHigh(cache: Cache, low: Edge, high: Edge) returns (result: Edge)
    requires cache.Sound() && Canonical(low) && Canonical(high)
    modifies cache
    ensures cache.Sound()
    ensures IsIte(low, TRUE, high, result)
  {
    if high == TRUE { return TRUE; }
    if high == FALSE { return low; }
    if low == FALSE { return high; }
    result := Or(cache, low, high);
  }

  /** When the low result equals a high cofactor, the high result adds nothing. */
  lemma AndExistsCovered(a: Edge, b: Edge, v: Edge, level: nat, low: Edge)
    requires Canonical(a) && Canonical(b) && Canonical(v) && IsCube(v) && v != TRUE && v.n.v == level
    requires (a.n.Node? ==> level <= a.n.v) && (b.n.Node? ==> level <= b.n.v)
    requires IsAndExists(Low(a, level), Low(b, level), NodeHigh(v), low)
    requires low == TRUE || low == High(a, level) || low == High(b, level)
    ensures IsAndExists(a, b, v, low)
  {
    CubeShape(v);
    var w := Support(NodeHigh(v));
    assert Support(v) == w + {level};
    forall env: Env ensures Eval(low, env) <==> SomeEvalAnd(a, b, Support(v), env) {
      SomeEvalAndIn(a, b, level, w, env);
      if low != TRUE && SomeEvalAnd(High(a, level), High(b, level), w, env) {
        var e: Env :| SameOutside(e, env, w) && Eval(High(a, level), e) && Eval(High(b, level), e);
        assert Eval(low, e);
        SomeEvalAndSame(Low(a, level), Low(b, level), w, e, env);
      }
    }
  }

  /** When the low result is the complement of a high cofactor, that cofactor may be left out of the conjunction. */
  lemma AndExistsComplement(a: Edge, b: Edge, v: Edge, level: nat, low: Edge, high: Edge, r: Edge)
    requires Canonical(a) && Canonical(b) && Canonical(v) && IsCube(v) && v != TRUE && v.n.v == level
    requires (a.n.Node? ==> level <= a.n.v) && (b.n.Node? ==> level <= b.n.v)
    requires IsAndExists(Low(a, level), Low(b, level), NodeHigh(v), low)
    requires low == Not(High(a, level)) && IsExists(High(b, level), NodeHigh(v), high)
    requires IsIte(low, TRUE, high, r)
    ensures IsAndExists(a, b, v, r) && IsAndExists(b, a, v, r)
  {
    CubeShape(v);
    NotEval(High(a, level));
    var w := Support(NodeHigh(v));
    assert Support(v) == w + {level};
    forall env: Env ensures Eval(r, env) <==> SomeEvalAnd(a, b, Support(v), env) {
      SomeEvalAndIn(a, b, level, w, env);
      if !Eval(low, env) && SomeEval(High(b, level), w, env) {
        var e: Env :| SameOutside(e, env, w) && Eval(High(b, level), e);
        SomeEvalAndSame(Low(a, level), Low(b, level), w, e, env);
        assert Eval(High(a, level), e);
      }
    }
  }

  // ---------- CONSTRAIN ----------

  lemma ConstrainTerminal(f: Edge, c: Edge)
    requires Canonical(f) && Canonical(c)
    ensures c == TRUE ==> IsConstrain(f, c, f) && IsRestrict(f, c, f)
    ensures c == FALSE ==> IsConstrain(f, c, FALSE) && IsRestrict(f, c, FALSE)
    ensures c != FALSE && IsConst(f) ==> IsConstrain(f, c, f) && IsRestrict(f, c, f)
    ensures c != FALSE && f == c ==> IsConstrain(f, c, TRUE) && IsRestrict(f, c, TRUE)
    ensures c != FALSE && f == Not(c) ==> IsConstrain(f, c, FALSE) && IsRestrict(f, c, FALSE)
  {
    if c != FALSE {
      forall env: Env, all: bool
        ensures c == TRUE || IsConst(f) ==> ValueAtNearest(f, c, f, env, all)
        ensures f == c ==> ValueAtNearest(f, c, TRUE, env, all)
        ensures f == Not(c) ==> ValueAtNearest(f, c, FALSE, env, all)
      {
        TerminalValue(f, c, env, all);
      }
    }
  }

  lemma TerminalValue(f: Edge, c: Edge, env: Env, all: bool)
    requires Canonical(c) && c != FALSE
    ensures c == TRUE || IsConst(f) ==> ValueAtNearest(f, c, f, env, all)
    ensures f == c ==> ValueAtNearest(f, c, TRUE, env, all)
    ensures f == Not(c) ==> ValueAtNearest(f, c, FALSE, env, all)
  {
    SelfNearest(c, env, all);
    var e: Env :| Nearest(c, env, e, Levels(c, e, all)) && Eval(c, e);
    if c == TRUE {
      assert Eval(c, env) && AgreeIn(env, env, Levels(f, env, all));
      assert Nearest(c, env, env, Levels(f, env, all));
    } else if IsConst(f) {
      assert AgreeIn(e, e, Levels(f, e, all));
      assert Nearest(c, env, e, Levels(f, e, all));
    } else if f == Not(c) {
      assert Nearest(c, env, e, Levels(f, e, all));
    }
  }

  lemma ConstrainNot(f: Edge, c: Edge, r: Edge)
    requires c != FALSE
    ensures IsConstrain(f, c, r) ==> IsConstrain(Not(f), c, Not(r))
    ensures IsRestrict(f, c, r) ==> IsRestrict(Not(f), c, Not(r))
  {
    forall env: Env, all: bool | ValueAtNearest(f, c, r, env, all) ensures ValueAtNearest(Not(f), c, Not(r), env, all) {
      var e: Env :| Nearest(c, env, e, Levels(f, e, all)) && (Eval(r, env) <==> Eval(f, e));
      assert Levels(Not(f), e, all) == Levels(f, e, all);
    }
  }

  /** Where one cofactor of the care function is false, the other cofactor of `f` decides. */
  lemma ConstrainOneSide(f: Edge, c: Edge, level: nat, b: bool, r: Edge)
    requires Canonical(f) && Canonical(c) && Side(c, level, !b) == FALSE && c != FALSE
    requires (f.n.Node? ==> level <= f.n.v) && (c.n.Node? ==> level <= c.n.v)
    ensures IsConstrain(Side(f, level, b), Side(c, level, b), r) ==> IsConstrain(f, c, r)
    ensures IsRestrict(Side(f, level, b), Side(c, level, b), r) && f.n.Node? && f.n.v == level ==> IsRestrict(f, c, r)
  {
    CofactorShape(f, level);
    CofactorShape(c, level);
    forall env: Env, all: bool
      | ValueAtNearest(Side(f, level, b), Side(c, level, b), r, env, all) && (all || (f.n.Node? && f.n.v == level))
      ensures ValueAtNearest(f, c, r, env, all)
    {
      ValueStep(f, c, level, b, r, r, env, all);
    }
  }

  lemma ConstrainStep(f: Edge, c: Edge, level: nat, low: Edge, high: Edge)
    requires Canonical(f) && Canonical(c) && Low(c, level) != FALSE && High(c, level) != FALSE
    requires (f.n.Node? ==> level <= f.n.v) && (c.n.Node? ==> level <= c.n.v)
    requires (f.n.Node? && level == f.n.v) || (c.n.Node? && level == c.n.v)
    requires IsConstrain(Low(f, level), Low(c, level), low) && IsConstrain(High(f, level), High(c, level), high)
    ensures Above(low, level + 1) && Above(high, level + 1)
    ensures IsConstrain(f, c, MakeNode(level, low, high))
  {
    CofactorShape(f, level);
    CofactorShape(c, level);
    OrderedSupport(Low(f, level).n, level + 1);
    OrderedSupport(Low(c, level).n, level + 1);
    OrderedSupport(High(f, level).n, level + 1);
    OrderedSupport(High(c, level).n, level + 1);
    AboveFromSupport(low, level + 1);
    AboveFromSupport(high, level + 1);
    MakeNodeEval(level, low, high);
    assert c != FALSE;
    forall env: Env ensures ValueAtNearest(f, c, MakeNode(level, low, high), env, true) {
      ConstrainStepAt(f, c, level, low, high, env, true);
    }
  }

  lemma ConstrainStepAt(f: Edge, c: Edge, level: nat, low: Edge, high: Edge, env: Env, all: bool)
    requires Canonical(f) && Canonical(c) && Above(low, level + 1) && Above(high, level + 1)
    requires (f.n.Node? ==> level <= f.n.v) && (c.n.Node? ==> level <= c.n.v)
    requires all || (f.n.Node? && f.n.v == level)
    requires ValueAtNearest(Low(f, level), Low(c, level), low, env, all)
    requires ValueAtNearest(High(f, level), High(c, level), high, env, all)
    ensures ValueAtNearest(f, c, MakeNode(level, low, high), env, all)
  {
    MakeNodeEval(level, low, high);
    var b := level in env;
    ValueStep(f, c, level, b, MakeNode(level, low, high), if b then high else low, env, all);
  }

  method Constrain(cache: Cache, f: Edge, c: Edge, prevLevel: nat) returns (result: Edge)
    requires cache.Sound() && Canonical(f) && Canonical(c)
    modifies cache
    ensures cache.Sound()
    ensures IsConstrain(f, c, result)
    decreases Size(f) + Size(c), 1
  {
    ConstrainTerminal(f, c);
    if c == TRUE { return f; }
    if c == FALSE { return FALSE; }
    if IsConst(f) { return f; }
    if f == c { return TRUE; }
    if f == Not(c) { return FALSE; }

    if f.c {
      var r := ConstrainNodes(cache, StripMark(f), c, prevLevel);
      ConstrainNot(StripMark(f), c, r);
      result := Not(r);
    } else {
      result := ConstrainNodes(cache, f, c, prevLevel);
    }
  }

  method ConstrainNodes(cache: Cache, f: Edge, c: Edge, prevLevel: nat) returns (result: Edge)
    requires cache.Sound() && Canonical(f) && Canonical(c) && f.n.Node? && c.n.Node?
    modifies cache
    ensures cache.Sound()
    ensures IsConstrain(f, c, result)
    decreases Size(f) + Size(c), 0
  {
    var level := Min(f.n.v, c.n.v);
    var cacheNow := cache.CacheNow(prevLevel, level);
    if cacheNow {
      var hit, r := cache.Get(Key(OpConstrain, f, c, FALSE));
      if hit { return r; }
    }

    CofactorShape(f, level);
    CofactorShape(c, level);
    var fLow, fHigh := Low(f, level), High(f, level);
    var cLow, cHigh := Low(c, level), High(c, level);
    ConstrainTerminal(fLow, cLow);
    ConstrainTerminal(fHigh, cHigh);

    if cLow == FALSE {
      if cHigh == TRUE {
        result := fHigh;
      } else {
        result := Constrain(cache, fHigh, cHigh, level);
      }
      ConstrainOneSide(f, c, level, true, result);
    } else if cHigh == FALSE {
      if cLow == TRUE {
        result := fLow;
      } else {
        result := Constrain(cache, fLow, cLow, level);
      }
      ConstrainOneSide(f, c, level, false, result);
    } else {
      var low, high;
      if cLow == TRUE {
        high := Constrain(cache, fHigh, cHigh, level);
        low := fLow;
      } else if cHigh == TRUE {
        low := Constrain(cache, fLow, cLow, level);
        high := fHigh;
      } else {
        high := Constrain(cache, fHigh, cHigh, level);
        low := Constrain(cache, fLow, cLow, level);
      }
      ConstrainStep(f, c, level, low, high);
      result := MakeNode(level, low, high);
    }

    if cacheNow {
      cache.Put(Key(OpConstrain, f, c, FALSE), result);
    }
  }

  // ---------- RESTRICT ----------

  lemma RestrictShape(f: Edge, c: Edge, level: nat, low: Edge, high: Edge)
    requires Canonical(f) && f.n.Node? && level == f.n.v
    requires IsRestrict(Low(f, level), Low(c, level), low) && IsRestrict(High(f, level), High(c, level), high)
    ensures Above(low, level + 1) && Above(high, level + 1)
    ensures Support(low) <= Support(f) && Support(high) <= Support(f) && level in Support(f)
  {
    CofactorShape(f, level);
    OrderedSupport(Low(f, level).n, level + 1);
    OrderedSupport(High(f, level).n, level + 1);
    AboveFromSupport(low, level + 1);
    AboveFromSupport(high, level + 1);
  }

  lemma RestrictStep(f: Edge, c: Edge, level: nat, low: Edge, high: Edge)
    requires Canonical(f) && Canonical(c) && f.n.Node? && level == f.n.v && (c.n.Node? ==> level <= c.n.v)
    requires Low(c, level) != FALSE && High(c, level) != FALSE
    requires IsRestrict(Low(f, level), Low(c, level), low) && IsRestrict(High(f, level), High(c, level), high)
    ensures Above(low, level + 1) && Above(high, level + 1)
    ensures IsRestrict(f, c, MakeNode(level, low, high))
  {
    RestrictShape(f, c, level, low, high);
    MakeNodeEval(level, low, high);
    assert c != FALSE;
    forall env: Env ensures ValueAtNearest(f, c, MakeNode(level, low, high), env, false) {
      ConstrainStepAt(f, c, level, low, high, env, false);
    }
  }

  /** Levels of the care function above those of `f` are quantified. */
  lemma RestrictQuantified(f: Edge, c: Edge, c': Edge, r: Edge)
    requires Canonical(f) && Canonical(c) && c.n.Node? && (f.n.Node? ==> c.n.v < f.n.v)
    requires IsIte(NodeLow(c), TRUE, NodeHigh(c), c') && IsRestrict(f, c', r)
    ensures IsRestrict(f, c, r)
  {
    SelfNearest(c, iset{}, true);
    var sat: Env :| Nearest(c, iset{}, sat, Levels(c, sat, true)) && Eval(c, sat);
    EitherSide(c, c', sat);
    assert Eval(c', sat) && c' != FALSE;
    forall env: Env ensures ValueAtNearest(f, c, r, env, false) {
      assert ValueAtNearest(f, c', r, env, false);
      var e: Env :| Nearest(c', env, e, Levels(f, e, false)) && (Eval(r, env) <==> Eval(f, e));
      NearestQuantified(f, c, c', env, e);
    }
  }

  lemma EitherSide(c: Edge, c': Edge, d: Env)
    requires Canonical(c) && c.n.Node? && IsIte(NodeLow(c), TRUE, NodeHigh(c), c')
    ensures Eval(c, d) ==> Eval(c', d)
    ensures Eval(c', d) ==> Eval(c, SetBit(d, c.n.v, true)) || Eval(c, SetBit(d, c.n.v, false))
  {
    SideEval(c, c.n.v, d, true);
    SideEval(c, c.n.v, d, false);
  }

  lemma NearestQuantified(f: Edge, c: Edge, c': Edge, env: Env, e: Env)
    requires Canonical(f) && Canonical(c) && c.n.Node? && (f.n.Node? ==> c.n.v < f.n.v)
    requires IsIte(NodeLow(c), TRUE, NodeHigh(c), c') && Nearest(c', env, e, Tested(f.n, e))
    ensures Nearest(c, env, e, Tested(f.n, e))
  {
    var t, v := Tested(f.n, e), c.n.v;
    if f.n.Node? { TestedFrom(f.n, v + 1, e); }
    var d: Env :| Eval(c', d) && AgreeIn(d, e, t);
    EitherSide(c, c', d);
    assert AgreeIn(SetBit(d, v, true), e, t) && AgreeIn(SetBit(d, v, false), e, t);
    forall x: nat | x in t && (x in e) != (x in env) ensures Blocked(c, env, e, t, x) {
      assert Blocked(c', env, e, t, x);
      forall m: Env | Eval(c, m) && (x in m <==> x in env) && AgreeIn(m, e, LevelsBelow(t, x)) ensures false {
        EitherSide(c, c', m);
      }
    }
  }

  method Restrict(cache: Cache, f: Edge, c: Edge, prevLevel: nat) returns (result: Edge)
    requires cache.Sound() && Canonical(f) && Canonical(c)
    modifies cache
    ensures cache.Sound()
    ensures IsRestrict(f, c, result)
    decreases |Support(f)| + |Support(c)|, 1
  {
    ConstrainTerminal(f, c);
    if c == TRUE { return f; }
    if c == FALSE { return FALSE; }
    if IsConst(f) { return f; }
    if f == c { return TRUE; }
    if f == Not(c) { return FALSE; }

    if f.c {
      var r := RestrictNodes(cache, StripMark(f), c, prevLevel);
      ConstrainNot(StripMark(f), c, r);
      result := Not(r);
    } else {
      result := RestrictNodes(cache, f, c, prevLevel);
    }
  }

  method RestrictNodes(cache: Cache, f: Edge, c: Edge, prevLevel: nat) returns (result: Edge)
    requires cache.Sound() && Canonical(f) && Canonical(c) && f.n.Node? && c.n.Node?
    modifies cache
    ensures cache.Sound()
    ensures IsRestrict(f, c, result)
    decreases |Support(f)| + |Support(c)|, 0
  {
    var vf, vc := f.n.v, c.n.v;
    var level := Min(vf, vc);
    var cacheNow := cache.CacheNow(prevLevel, level);
    if cacheNow {
      var hit, r := cache.Get(Key(OpRestrict, f, c, FALSE));
      if hit { return r; }
    }

    CofactorShape(f, vf);
    CofactorShape(c, vc);
    if vc < vf {
      var c' := Or(cache, NodeLow(c), NodeHigh(c));
      IteAbove(NodeLow(c), TRUE, NodeHigh(c), c', 0);
      ProperSubset(Support(c'), Support(c), vc);
      result := Restrict(cache, f, c', level);
      RestrictQuantified(f, c, c', result);
    } else {
      CofactorShape(c, level);
      var fLow, fHigh := NodeLow(f), NodeHigh(f);
      var cLow, cHigh := Low(c, level), High(c, level);
      ProperSubset(Support(fLow), Support(f), vf);
      ProperSubset(Support(fHigh), Support(f), vf);
      SubsetSize(Support(cLow), Support(c));
      SubsetSize(Support(cHigh), Support(c));
      if cLow == FALSE {
        result := Restrict(cache, fHigh, cHigh, level);
        ConstrainOneSide(f, c, level, true, result);
      } else if cHigh == FALSE {
        result := Restrict(cache, fLow, cLow, level);
        ConstrainOneSide(f, c, level, false, result);
      } else {
        var high := Restrict(cache, fHigh, cHigh, level);
        var low := Restrict(cache, fLow, cLow, level);
        RestrictStep(f, c, level, low, high);
        result := MakeNode(level, low, high);
      }
    }

    if cacheNow {
      cache.Put(Key(OpRestrict, f, c, FALSE), result);
    }
  }

  // ---------- What the two cofactors are ----------

  /**
   Constrain: for a care function other than false, the value of `f` at the assignment that satisfies `c` and is nearest
   to the given one, level by level from the top. This determines the handle, and it is `f` itself wherever `c` holds.
   */
  lemma ConstrainMeaning(f: Edge, c: Edge, r: Edge)
    requires Canonical(f) && Canonical(c) && IsConstrain(f, c, r)
    ensures c == FALSE ==> r == FALSE
    ensures forall env: Env, e: Env :: c != FALSE && Nearest(c, env, e, AllLevels()) ==>
      Eval(c, e) && (Eval(r, env) <==> Eval(f, e))
    ensures forall env: Env :: Eval(c, env) ==> (Eval(r, env) <==> Eval(f, env))
    ensures forall r' :: IsConstrain(f, c, r') ==> r' == r
  {
    forall env: Env, e: Env | c != FALSE && Nearest(c, env, e, AllLevels())
      ensures Eval(c, e) && (Eval(r, env) <==> Eval(f, e))
    {
      NearestSatisfies(c, env, e);
      NearestValue(f, c, r, true, env, e);
    }
    forall env: Env | Eval(c, env) ensures Eval(r, env) <==> Eval(f, env) { NearestAgrees(f, c, r, true, env); }
    forall r' | IsConstrain(f, c, r') ensures r' == r { NearestDetermines(f, c, r, r', true); }
  }

  /** Restrict: the same, as far as the levels go that `f` tests. */
  lemma RestrictMeaning(f: Edge, c: Edge, r: Edge)
    requires Canonical(f) && Canonical(c) && IsRestrict(f, c, r)
    ensures c == FALSE ==> r == FALSE
    ensures forall env: Env, e: Env :: c != FALSE && Nearest(c, env, e, Tested(f.n, e)) ==>
      (Eval(r, env) <==> Eval(f, e))
    ensures forall env: Env :: Eval(c, env) ==> (Eval(r, env) <==> Eval(f, env))
    ensures forall r' :: IsRestrict(f, c, r') ==> r' == r
  {
    forall env: Env, e: Env | c != FALSE && Nearest(c, env, e, Tested(f.n, e)) ensures Eval(r, env) <==> Eval(f, e) {
      NearestValue(f, c, r, false, env, e);
    }
    forall env: Env | Eval(c, env) ensures Eval(r, env) <==> Eval(f, env) { NearestAgrees(f, c, r, false, env); }
    forall r' | IsRestrict(f, c, r') ensures r' == r { NearestDetermines(f, c, r, r', false); }
  }
}
