/** The Boolean operations of sylvan_bdd.c: and, xor and if-then-else. */
module BddOps {
  import opened Bdd
  import opened BddCache
  import opened Common

  // ---------- Bounds on the variables of a result ----------

  lemma AndAbove(a: Edge, b: Edge, r: Edge, lo: nat)
    requires Above(a, lo) && Above(b, lo) && IsAnd(a, b, r)
    ensures Above(r, lo)
    ensures Support(r) <= Support(a) + Support(b)
  {
    OrderedSupport(a.n, lo);
    OrderedSupport(b.n, lo);
    forall x | x in Support(r) ensures x in Support(a) + Support(b) {
      if x !in Support(a) + Support(b) {
        var env := SupportEssential(r, x);
        EvalAgree(a.n, env + iset{x}, env - iset{x});
        EvalAgree(b.n, env + iset{x}, env - iset{x});
      }
    }
    AboveFromSupport(r, lo);
  }

  lemma XorAbove(a: Edge, b: Edge, r: Edge, lo: nat)
    requires Above(a, lo) && Above(b, lo) && IsXor(a, b, r)
    ensures Above(r, lo)
    ensures Support(r) <= Support(a) + Support(b)
  {
    OrderedSupport(a.n, lo);
    OrderedSupport(b.n, lo);
    forall x | x in Support(r) ensures x in Support(a) + Support(b) {
      if x !in Support(a) + Support(b) {
        var env := SupportEssential(r, x);
        EvalAgree(a.n, env + iset{x}, env - iset{x});
        EvalAgree(b.n, env + iset{x}, env - iset{x});
      }
    }
    AboveFromSupport(r, lo);
  }

  lemma IteAbove(a: Edge, b: Edge, c: Edge, r: Edge, lo: nat)
    requires Above(a, lo) && Above(b, lo) && Above(c, lo) && IsIte(a, b, c, r)
    ensures Above(r, lo)
    ensures Support(r) <= Support(a) + Support(b) + Support(c)
  {
    OrderedSupport(a.n, lo);
    OrderedSupport(b.n, lo);
    OrderedSupport(c.n, lo);
    forall x | x in Support(r) ensures x in Support(a) + Support(b) + Support(c) {
      if x !in Support(a) + Support(b) + Support(c) {
        var env := SupportEssential(r, x);
        EvalAgree(a.n, env + iset{x}, env - iset{x});
        EvalAgree(b.n, env + iset{x}, env - iset{x});
        EvalAgree(c.n, env + iset{x}, env - iset{x});
      }
    }
    AboveFromSupport(r, lo);
  }

  // ---------- Terminal cases and the recombination of cofactors ----------

  lemma AndTerminal(a: Edge, b: Edge)
    requires Canonical(a) && Canonical(b)
    ensures a == TRUE || a == b ==> IsAnd(a, b, b)
    ensures b == TRUE ==> IsAnd(a, b, a)
    ensures a == FALSE || b == FALSE || a == Not(b) ==> IsAnd(a, b, FALSE)
  {
    NotEval(b);
  }

  lemma AndStep(a: Edge, b: Edge, level: nat, low: Edge, high: Edge)
    requires Canonical(a) && Canonical(b)
    requires (a.n.Node? ==> level <= a.n.v) && (b.n.Node? ==> level <= b.n.v)
    requires IsAnd(Low(a, level), Low(b, level), low) && IsAnd(High(a, level), High(b, level), high)
    ensures Above(low, level + 1) && Above(high, level + 1)
    ensures IsAnd(a, b, MakeNode(level, low, high))
  {
    CofactorShape(a, level);
    CofactorShape(b, level);
    AndAbove(Low(a, level), Low(b, level), low, level + 1);
    AndAbove(High(a, level), High(b, level), high, level + 1);
    var r := MakeNode(level, low, high);
    MakeNodeEval(level, low, high);
    forall env: Env ensures Eval(r, env) <==> Eval(a, env) && Eval(b, env) {
      CofactorEval(a, level, env);
      CofactorEval(b, level, env);
    }
  }

  lemma XorTerminal(a: Edge, b: Edge)
    requires Canonical(a) && Canonical(b)
    ensures a == FALSE ==> IsXor(a, b, b)
    ensures b == FALSE ==> IsXor(a, b, a)
    ensures a == TRUE ==> IsXor(a, b, Not(b))
    ensures b == TRUE ==> IsXor(a, b, Not(a))
    ensures a == b ==> IsXor(a, b, FALSE)
    ensures a == Not(b) ==> IsXor(a, b, TRUE)
  {
    NotEval(a);
    NotEval(b);
  }

  lemma XorStep(a: Edge, b: Edge, level: nat, low: Edge, high: Edge)
    requires Canonical(a) && Canonical(b)
    requires (a.n.Node? ==> level <= a.n.v) && (b.n.Node? ==> level <= b.n.v)
    requires IsXor(Low(a, level), Low(b, level), low) && IsXor(High(a, level), High(b, level), high)
    ensures Above(low, level + 1) && Above(high, level + 1)
    ensures IsXor(a, b, MakeNode(level, low, high))
  {
    CofactorShape(a, level);
    CofactorShape(b, level);
    XorAbove(Low(a, level), Low(b, level), low, level + 1);
    XorAbove(High(a, level), High(b, level), high, level + 1);
    var r := MakeNode(level, low, high);
    MakeNodeEval(level, low, high);
    forall env: Env ensures Eval(r, env) <==> Eval(a, env) != Eval(b, env) {
      CofactorEval(a, level, env);
      CofactorEval(b, level, env);
    }
  }

  lemma IteStep(a: Edge, b: Edge, c: Edge, level: nat, low: Edge, high: Edge)
    requires Canonical(a) && Canonical(b) && Canonical(c)
    requires (a.n.Node? ==> level <= a.n.v) && (b.n.Node? ==> level <= b.n.v) && (c.n.Node? ==> level <= c.n.v)
    requires IsIte(Low(a, level), Low(b, level), Low(c, level), low)
    requires IsIte(High(a, level), High(b, level), High(c, level), high)
    ensures Above(low, level + 1) && Above(high, level + 1)
    ensures IsIte(a, b, c, MakeNode(level, low, high))
  {
    CofactorShape(a, level);
    CofactorShape(b, level);
    CofactorShape(c, level);
    IteAbove(Low(a, level), Low(b, level), Low(c, level), low, level + 1);
    IteAbove(High(a, level), High(b, level), High(c, level), high, level + 1);
    var r := MakeNode(level, low, high);
    MakeNodeEval(level, low, high);
    forall env: Env ensures Eval(r, env) <==> if Eval(a, env) then Eval(b, env) else Eval(c, env) {
      CofactorEval(a, level, env);
      CofactorEval(b, level, env);
      CofactorEval(c, level, env);
    }
  }

  lemma IteTerminal(a: Edge, b: Edge, c: Edge)
    requires Canonical(a) && Canonical(b) && Canonical(c)
    ensures a == TRUE || b == c ==> IsIte(a, b, c, b)
    ensures a == FALSE ==> IsIte(a, b, c, c)
    ensures b == TRUE && c == FALSE ==> IsIte(a, b, c, a)
    ensures b == FALSE && c == TRUE ==> IsIte(a, b, c, Not(a))
  {
    NotEval(a);
  }

  /** Replacing an operand of ITE that equals the condition, or its negation, by a constant. */
  lemma IteSimplify(a: Edge, b: Edge, c: Edge, r: Edge)
    ensures a == b && IsIte(a, TRUE, c, r) ==> IsIte(a, b, c, r)
    ensures a == Not(b) && IsIte(a, FALSE, c, r) ==> IsIte(a, b, c, r)
    ensures a == c && IsIte(a, b, FALSE, r) ==> IsIte(a, b, c, r)
    ensures a == Not(c) && IsIte(a, b, TRUE, r) ==> IsIte(a, b, c, r)
  {
    NotEval(b);
    NotEval(c);
  }

  /** The cases of ITE that reduce to AND and XOR. */
  lemma IteReduce(a: Edge, b: Edge, c: Edge, r: Edge)
    ensures c == FALSE && IsAnd(a, b, r) ==> IsIte(a, b, c, r)
    ensures b == TRUE && IsAnd(Not(a), Not(c), r) ==> IsIte(a, b, c, Not(r))
    ensures b == FALSE && IsAnd(Not(a), c, r) ==> IsIte(a, b, c, r)
    ensures c == TRUE && IsAnd(a, Not(b), r) ==> IsIte(a, b, c, Not(r))
    ensures b == Not(c) && IsXor(a, c, r) ==> IsIte(a, b, c, r)
  {
    NotEval(a);
    NotEval(b);
    NotEval(c);
    NotEval(r);
  }

  lemma IteNormalise(a: Edge, b: Edge, c: Edge, r: Edge)
    ensures a.c && IsIte(StripMark(a), c, b, r) ==> IsIte(a, b, c, r)
    ensures IsIte(a, Not(b), Not(c), r) ==> IsIte(a, b, c, Not(r))
  {
    NotEval(StripMark(a));
    NotEval(b);
    NotEval(c);
    NotEval(r);
  }

  // ---------- AND ----------

  /** The tests on a pair of cofactors that avoid a recursive call. */
  function AndShortcut(a: Edge, b: Edge): (r: Option<Edge>)
    requires Canonical(a) && Canonical(b)
    ensures r.Some? ==> IsAnd(a, b, r.value)
    ensures r.None? ==> !IsConst(a) && !IsConst(b)
  {
    AndTerminal(a, b);
    if a == TRUE then Some(b)
    else if a == FALSE || b == FALSE then Some(FALSE)
    else if b == TRUE then Some(a)
    else None
  }

  /**
   sylvan_and, sylvan_and_nogc, sylvan_and_alone and sylvan_and_nogc_alone. The swap for better caching depends on
   table indices, which are not modelled: it may or may not happen.
   */
  method And(cache: Cache, a: Edge, b: Edge, prevLevel: nat) returns (result: Edge)
    requires cache.Sound() && Canonical(a) && Canonical(b)
    modifies cache
    ensures cache.Sound()
    ensures IsAnd(a, b, result)
    decreases Size(a) + Size(b), 1
  {
    AndTerminal(a, b);
    if a == TRUE { return b; }
    if b == TRUE { return a; }
    if a == FALSE { return FALSE; }
    if b == FALSE { return FALSE; }
    if a == b { return a; }
    if a == Not(b) { return FALSE; }

    if * {
      result := AndNodes(cache, b, a, prevLevel);
    } else {
      result := AndNodes(cache, a, b, prevLevel);
    }
  }

  /** The variants that spawn sync the high result after the call for the low one, the others compute it first. */
  method AndNodes(cache: Cache, a: Edge, b: Edge, prevLevel: nat) returns (result: Edge)
    requires cache.Sound() && Canonical(a) && Canonical(b) && a.n.Node? && b.n.Node?
    modifies cache
    ensures cache.Sound()
    ensures IsAnd(a, b, result)
    decreases Size(a) + Size(b), 0
  {
    var level := Min(a.n.v, b.n.v);
    var cacheNow := cache.CacheNow(prevLevel, level);
    if cacheNow {
      var hit, r := cache.Get(Key(OpAnd, a, b, FALSE));
      if hit { return r; }
    }

    CofactorShape(a, level);
    CofactorShape(b, level);
    var aLow, aHigh := Low(a, level), High(a, level);
    var bLow, bHigh := Low(b, level), High(b, level);

    var low, high;
    if * {
      low := AndCofactors(cache, aLow, bLow, level);
      high := AndCofactors(cache, aHigh, bHigh, level);
    } else {
      high := AndCofactors(cache, aHigh, bHigh, level);
      low := AndCofactors(cache, aLow, bLow, level);
    }

    AndStep(a, b, level, low, high);
    result := MakeNode(level, low, high);
    if cacheNow {
      cache.Put(Key(OpAnd, a, b, FALSE), result);
    }
  }

  method AndCofactors(cache: Cache, a: Edge, b: Edge, level: nat) returns (result: Edge)
    requires cache.Sound() && Canonical(a) && Canonical(b)
    modifies cache
    ensures cache.Sound()
    ensures IsAnd(a, b, result)
    decreases Size(a) + Size(b), 2
  {
    var shortcut := AndShortcut(a, b);
    if shortcut.Some? {
      result := shortcut.value;
    } else {
      result := And(cache, a, b, level);
    }
  }

  /** sylvan_or is the negated and of the negations. */
  method Or(cache: Cache, a: Edge, b: Edge) returns (result: Edge)
    requires cache.Sound() && Canonical(a) && Canonical(b)
    modifies cache
    ensures cache.Sound()
    ensures IsIte(a, TRUE, b, result)
  {
    var r := And(cache, Not(a), Not(b), 0);
    IteReduce(a, TRUE, b, r);
    result := Not(r);
  }

  // ---------- XOR ----------

  method Xor(cache: Cache, a0: Edge, b0: Edge, prevLevel: nat) returns (result: Edge)
    requires cache.Sound() && Canonical(a0) && Canonical(b0)
    modifies cache
    ensures cache.Sound()
    ensures IsXor(a0, b0, result)
    decreases Size(a0) + Size(b0), 1
  {
    XorTerminal(a0, b0);
    if a0 == FALSE { return b0; }
    if b0 == FALSE { return a0; }
    if a0 == TRUE { return Not(b0); }
    if b0 == TRUE { return Not(a0); }
    if a0 == b0 { return FALSE; }
    if a0 == Not(b0) { return TRUE; }

    var a, b := a0, b0;
    if * { a, b := b, a; }

    // XOR(~A,B) is XOR(A,~B)
    NotEval(StripMark(a));
    NotEval(b);
    if a.c {
      a, b := StripMark(a), Not(b);
    }
    result := XorNodes(cache, a, b, prevLevel);
  }

  method XorNodes(cache: Cache, a: Edge, b: Edge, prevLevel: nat) returns (result: Edge)
    requires cache.Sound() && Canonical(a) && Canonical(b) && a.n.Node? && b.n.Node?
    modifies cache
    ensures cache.Sound()
    ensures IsXor(a, b, result)
    decreases Size(a) + Size(b), 0
  {
    var level := Min(a.n.v, b.n.v);
    var cacheNow := cache.CacheNow(prevLevel, level);
    if cacheNow {
      var hit, r := cache.Get(Key(OpXor, a, b, FALSE));
      if hit { return r; }
    }

    CofactorShape(a, level);
    CofactorShape(b, level);
    var low := Xor(cache, Low(a, level), Low(b, level), level);
    var high := Xor(cache, High(a, level), High(b, level), level);

    XorStep(a, b, level, low, high);
    result := MakeNode(level, low, high);
    if cacheNow {
      cache.Put(Key(OpXor, a, b, FALSE), result);
    }
  }

  // ---------- ITE ----------

  method Ite(cache: Cache, a: Edge, b: Edge, c: Edge, prevLevel: nat) returns (result: Edge)
    requires cache.Sound() && Canonical(a) && Canonical(b) && Canonical(c)
    modifies cache
    ensures cache.Sound()
    ensures IsIte(a, b, c, result)
    decreases Size(a) + Size(b) + Size(c), 3
  {
    IteTerminal(a, b, c);
    if a == TRUE { return b; }
    if a == FALSE { return c; }

    var b', c' := b, c;
    if a == b' { b' := TRUE; }
    if a == Not(b') { b' := FALSE; }
    if a == c' { c' := FALSE; }
    if a == Not(c') { c' := TRUE; }

    result := IteReduced(cache, a, b', c', prevLevel);
    IteSimplify(a, b, c', result);
    IteSimplify(a, b', c', result);
    IteSimplify(a, b, c, result);
  }

  /** The remaining terminal cases and the cases that reduce to AND and XOR. */
  method IteReduced(cache: Cache, a: Edge, b: Edge, c: Edge, prevLevel: nat) returns (result: Edge)
    requires cache.Sound() && Canonical(a) && Canonical(b) && Canonical(c) && a.n.Node?
    modifies cache
    ensures cache.Sound()
    ensures IsIte(a, b, c, result)
    decreases Size(a) + Size(b) + Size(c), 2
  {
    IteTerminal(a, b, c);
    if b == c { return b; }
    if b == TRUE && c == FALSE { return a; }
    if b == FALSE && c == TRUE { return Not(a); }

    var r;
    if c == FALSE {
      r := And(cache, a, b, prevLevel);
      result := r;
    } else if b == TRUE {
      r := And(cache, Not(a), Not(c), prevLevel);
      result := Not(r);
    } else if b == FALSE {
      r := And(cache, Not(a), c, prevLevel);
      result := r;
    } else if c == TRUE {
      r := And(cache, a, Not(b), prevLevel);
      result := Not(r);
    } else if b == Not(c) {
      r := Xor(cache, a, c, 0);
      result := r;
    } else {
      result := IteNormalised(cache, a, b, c, prevLevel);
      return;
    }
    IteReduce(a, b, c, r);
  }

  /** Puts the operands in canonical form for better caching. */
  method IteNormalised(cache: Cache, a: Edge, b: Edge, c: Edge, prevLevel: nat) returns (result: Edge)
    requires cache.Sound() && Canonical(a) && Canonical(b) && Canonical(c)
    requires a.n.Node? && b.n.Node? && c.n.Node?
    modifies cache
    ensures cache.Sound()
    ensures IsIte(a, b, c, result)
    decreases Size(a) + Size(b) + Size(c), 1
  {
    // ITE(~A,B,C) is ITE(A,C,B)
    var a', b', c' := a, b, c;
    if a'.c {
      a', b', c' := StripMark(a'), c', b';
    }
    // ITE(A,~B,C) is ~ITE(A,B,~C)
    if b'.c {
      var r := IteNodes(cache, a', Not(b'), Not(c'), prevLevel);
      IteNormalise(a', b', c', r);
      result := Not(r);
    } else {
      result := IteNodes(cache, a', b', c', prevLevel);
    }
    IteNormalise(a, b, c, result);
  }

  /** The recursive part of sylvan_ite. */
  method IteNodes(cache: Cache, a: Edge, b: Edge, c: Edge, prevLevel: nat) returns (result: Edge)
    requires cache.Sound() && Canonical(a) && Canonical(b) && Canonical(c)
    requires a.n.Node? && b.n.Node? && c.n.Node?
    modifies cache
    ensures cache.Sound()
    ensures IsIte(a, b, c, result)
    decreases Size(a) + Size(b) + Size(c), 0
  {
    var va, vb, vc := a.n.v, b.n.v, c.n.v;
    var level := Min(vb, vc);

    // Fast case: a is a single variable above b and c
    if va < level && NodeLow(a) == FALSE && NodeHigh(a) == TRUE {
      IteStep(a, b, c, va, c, b);
      result := MakeNode(va, c, b);
      return;
    }
    if va < level { level := va; }

    var cacheNow := cache.CacheNow(prevLevel, level);
    if cacheNow {
      var hit, r := cache.Get(Key(OpIte, a, b, c));
      if hit { return r; }
    }

    CofactorShape(a, level);
    CofactorShape(b, level);
    CofactorShape(c, level);
    var aLow, aHigh := Low(a, level), High(a, level);
    var bLow, bHigh := Low(b, level), High(b, level);
    var cLow, cHigh := Low(c, level), High(c, level);
    IteTerminal(aLow, bLow, cLow);
    IteTerminal(aHigh, bHigh, cHigh);

    // The high cofactors are spawned, and synced after the call for the low cofactors
    var low, high;
    if aLow == TRUE {
      low := bLow;
    } else if aLow == FALSE {
      low := cLow;
    } else {
      low := Ite(cache, aLow, bLow, cLow, level);
    }
    if aHigh == TRUE {
      high := bHigh;
    } else if aHigh == FALSE {
      high := cHigh;
    } else {
      high := Ite(cache, aHigh, bHigh, cHigh, level);
    }

    IteStep(a, b, c, level, low, high);
    result := MakeNode(level, low, high);
    if cacheNow {
      cache.Put(Key(OpIte, a, b, c), result);
    }
  }
}
