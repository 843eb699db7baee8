/** Binary decision diagrams with complement edges. */
module Bdd {
  /*
   The handles of sylvan_mtbdd.h, the node constructor of sylvan_mtbdd.c and their meaning as Boolean functions.

   The node table gives equal nodes equal indices, so a node is modelled by its contents and handle equality is
   structural equality. Nothing else about the table is modelled.
   */
  import opened Common

  /** A node of the table. The low edge carries no mark; `hc` is the mark of the high edge. */
  datatype Node =
    | Terminal
    | Node(v: nat, low: Node, hc: bool, high: Node)

  /** A handle: a complement bit and the index of a node. */
  datatype Edge = Edge(c: bool, n: Node)

  const FALSE: Edge := Edge(false, Terminal)
  const TRUE: Edge := Edge(true, Terminal)

  predicate IsConst(e: Edge) { e.n.Terminal? }

  function Not(e: Edge): Edge { Edge(!e.c, e.n) }

  function StripMark(e: Edge): Edge { Edge(false, e.n) }

  /** Follows an edge: the mark of the handle is transferred to the child. */
  function NodeLow(e: Edge): Edge
    requires e.n.Node?
  {
    Edge(e.c, e.n.low)
  }

  function NodeHigh(e: Edge): Edge
    requires e.n.Node?
  {
    Edge(e.c != e.n.hc, e.n.high)
  }

  /** The cofactors with respect to a level that is not below the top of `e`. */
  function Low(e: Edge, level: nat): Edge {
    if e.n.Node? && e.n.v == level then NodeLow(e) else e
  }

  function High(e: Edge, level: nat): Edge {
    if e.n.Node? && e.n.v == level then NodeHigh(e) else e
  }

  // ---------- Meaning ----------

  /** An assignment, given by the set of its true variables. */
  type Env = iset<nat>

  ghost predicate EvalN(n: Node, env: Env) {
    match n
    case Terminal => false
    case Node(v, low, hc, high) => if v in env then hc != EvalN(high, env) else EvalN(low, env)
  }

  ghost predicate Eval(e: Edge, env: Env) { e.c != EvalN(e.n, env) }

  function SupportN(n: Node): set<nat> {
    match n
    case Terminal => {}
    case Node(v, low, _, high) => {v} + SupportN(low) + SupportN(high)
  }

  function Support(e: Edge): set<nat> { SupportN(e.n) }

  // ---------- Canonical diagrams ----------

  /** Ordered and reduced, with every variable at level `lo` or deeper. */
  predicate Ordered(n: Node, lo: nat) {
    n.Node? ==>
      && lo <= n.v
      && Ordered(n.low, n.v + 1)
      && Ordered(n.high, n.v + 1)
      && (n.low == n.high ==> n.hc)
  }

  predicate Above(e: Edge, lo: nat) { Ordered(e.n, lo) }

  predicate Canonical(e: Edge) { Above(e, 0) }

  function SizeN(n: Node): nat {
    match n
    case Terminal => 0
    case Node(_, low, _, high) => 1 + SizeN(low) + SizeN(high)
  }

  function Size(e: Edge): nat { SizeN(e.n) }

  lemma {:induction false} OrderedMonotone(n: Node, lo: nat, lo': nat)
    requires Ordered(n, lo) && lo' <= lo
    ensures Ordered(n, lo')
  {
  }

  lemma {:induction false} OrderedSupport(n: Node, lo: nat)
    requires Ordered(n, lo)
    ensures forall x :: x in SupportN(n) ==> lo <= x
  {
    if n.Node? {
      OrderedSupport(n.low, n.v + 1);
      OrderedSupport(n.high, n.v + 1);
    }
  }

  /** A diagram only looks at its support. */
  lemma {:induction false} EvalAgree(n: Node, env: Env, env': Env)
    requires forall x :: x in SupportN(n) ==> (x in env <==> x in env')
    ensures EvalN(n, env) == EvalN(n, env')
  {
    if n.Node? {
      EvalAgree(n.low, env, env');
      EvalAgree(n.high, env, env');
    }
  }

  lemma EvalFlip(e: Edge, lo: nat, x: nat, env: Env)
    requires Above(e, lo) && x < lo
    ensures Eval(e, env + iset{x}) == Eval(e, env) == Eval(e, env - iset{x})
  {
    OrderedSupport(e.n, lo);
    EvalAgree(e.n, env, env + iset{x});
    EvalAgree(e.n, env, env - iset{x});
  }

  /** `e` does not depend on the variable `x`. */
  ghost predicate Independent(e: Edge, x: nat) {
    forall env: Env :: Eval(e, env + iset{x}) == Eval(e, env - iset{x})
  }

  // ---------- Canonicity ----------

  predicate TopFirst(a: Edge, b: Edge) {
    b.n.Terminal? || (a.n.Node? && a.n.v <= b.n.v)
  }

  /** An assignment that tells the low cofactors apart tells the handles apart when the variable is false. */
  lemma LowDiffers(a: Edge, b: Edge, v: nat, e: Env)
    requires Canonical(a) && Canonical(b) && (a.n.Node? ==> v <= a.n.v) && (b.n.Node? ==> v <= b.n.v)
    requires Eval(Low(a, v), e) != Eval(Low(b, v), e)
    ensures Eval(a, e - iset{v}) != Eval(b, e - iset{v})
  {
    CofactorShape(a, v);
    CofactorShape(b, v);
    EvalFlip(Low(a, v), v + 1, v, e);
    EvalFlip(Low(b, v), v + 1, v, e);
    CofactorEval(a, v, e - iset{v});
    CofactorEval(b, v, e - iset{v});
  }

  lemma HighDiffers(a: Edge, b: Edge, v: nat, e: Env)
    requires Canonical(a) && Canonical(b) && (a.n.Node? ==> v <= a.n.v) && (b.n.Node? ==> v <= b.n.v)
    requires Eval(High(a, v), e) != Eval(High(b, v), e)
    ensures Eval(a, e + iset{v}) != Eval(b, e + iset{v})
  {
    CofactorShape(a, v);
    CofactorShape(b, v);
    EvalFlip(High(a, v), v + 1, v, e);
    EvalFlip(High(b, v), v + 1, v, e);
    CofactorEval(a, v, e + iset{v});
    CofactorEval(b, v, e + iset{v});
  }

  /** Handles with the same cofactors by the top variable of one of them are the same. */
  lemma DifferentCofactors(a: Edge, b: Edge, v: nat)
    requires Canonical(a) && Canonical(b) && a != b && a.n.Node? && a.n.v == v && (b.n.Node? ==> v <= b.n.v)
    requires Low(a, v) == Low(b, v)
    ensures High(a, v) != High(b, v)
  {
    CofactorShape(a, v);
  }

  /** Different canonical handles differ under some assignment, which is returned. */
  lemma {:induction false} Distinguish(a: Edge, b: Edge) returns (env: Env)
    requires Canonical(a) && Canonical(b) && a != b
    ensures Eval(a, env) != Eval(b, env)
    decreases Size(a) + Size(b), !TopFirst(a, b)
  {
    if a.n == b.n {
      env := iset{};
    } else if TopFirst(a, b) {
      var v := a.n.v;
      CofactorShape(a, v);
      CofactorShape(b, v);
      if Low(a, v) != Low(b, v) {
        var e := Distinguish(Low(a, v), Low(b, v));
        env := e - iset{v};
        LowDiffers(a, b, v, e);
      } else {
        DifferentCofactors(a, b, v);
        var e := Distinguish(High(a, v), High(b, v));
        env := e + iset{v};
        HighDiffers(a, b, v, e);
      }
    } else {
      env := Distinguish(b, a);
    }
  }

  /** Canonical handles are equal exactly when they denote the same function. */
  lemma Canonicity(a: Edge, b: Edge)
    requires Canonical(a) && Canonical(b)
    ensures a == b <==> forall env: Env :: Eval(a, env) == Eval(b, env)
  {
    if a != b {
      var env := Distinguish(a, b);
    }
  }

  /** The cofactors at a level that is not below the top of `e` lie below that level. */
  lemma CofactorShape(e: Edge, level: nat)
    requires Canonical(e) && (e.n.Node? ==> level <= e.n.v)
    ensures Above(Low(e, level), level + 1) && Above(High(e, level), level + 1)
    ensures Canonical(Low(e, level)) && Canonical(High(e, level))
    ensures Support(Low(e, level)) <= Support(e) - {level} && Support(High(e, level)) <= Support(e) - {level}
    ensures Size(Low(e, level)) <= Size(e) && Size(High(e, level)) <= Size(e)
    ensures e.n.Node? && e.n.v == level ==>
      Size(Low(e, level)) < Size(e) && Size(High(e, level)) < Size(e) && Low(e, level) != High(e, level)
  {
    if e.n.Node? && e.n.v == level {
      OrderedMonotone(e.n.low, level + 1, 0);
      OrderedMonotone(e.n.high, level + 1, 0);
      OrderedSupport(e.n.low, level + 1);
      OrderedSupport(e.n.high, level + 1);
    } else if e.n.Node? {
      OrderedSupport(e.n, level + 1);
    }
  }

  /** Shannon expansion. */
  lemma CofactorEval(e: Edge, level: nat, env: Env)
    requires Canonical(e) && (e.n.Node? ==> level <= e.n.v)
    ensures Eval(e, env) == Eval(if level in env then High(e, level) else Low(e, level), env)
  {
  }

  lemma NotEval(e: Edge)
    ensures Canonical(Not(e)) == Canonical(e)
    ensures forall env: Env :: Eval(Not(e), env) == !Eval(e, env)
  {
  }

  /** In a canonical diagram every variable of the support matters. */
  lemma {:induction false} SupportEssential(e: Edge, x: nat) returns (env: Env)
    requires Canonical(e) && x in Support(e)
    ensures Eval(e, env + iset{x}) != Eval(e, env - iset{x})
    decreases Size(e)
  {
    var v := e.n.v;
    CofactorShape(e, v);
    var l, h := NodeLow(e), NodeHigh(e);
    if x == v {
      env := Distinguish(l, h);
      EvalFlip(l, v + 1, v, env);
      EvalFlip(h, v + 1, v, env);
    } else if x in Support(l) {
      var d := SupportEssential(l, x);
      env := d - iset{v};
      EvalFlip(l, v + 1, v, d + iset{x});
      EvalFlip(l, v + 1, v, d - iset{x});
      assert env + iset{x} == (d + iset{x}) - iset{v};
      assert env - iset{x} == (d - iset{x}) - iset{v};
    } else {
      var d := SupportEssential(h, x);
      env := d + iset{v};
      EvalFlip(h, v + 1, v, d + iset{x});
      EvalFlip(h, v + 1, v, d - iset{x});
      assert env + iset{x} == (d + iset{x}) + iset{v};
      assert env - iset{x} == (d - iset{x}) + iset{v};
    }
  }

  /** The support of a canonical diagram is the set of variables its function depends on. */
  lemma SupportIsDependence(e: Edge, x: nat)
    requires Canonical(e)
    ensures x in Support(e) <==> !Independent(e, x)
  {
    if x in Support(e) {
      var env := SupportEssential(e, x);
    } else {
      forall env: Env ensures Eval(e, env + iset{x}) == Eval(e, env - iset{x}) {
        EvalAgree(e.n, env + iset{x}, env - iset{x});
      }
    }
  }

  lemma AboveFromSupport(e: Edge, lo: nat)
    requires Canonical(e)
    requires forall x :: x in Support(e) ==> lo <= x
    ensures Above(e, lo)
  {
    if e.n.Node? {
      assert e.n.v in Support(e);
    }
  }

  // ---------- The node constructor ----------

  /** mtbdd_makenode: equal children collapse and the mark of the low child moves to the result. */
  function Joined(v: nat, low: Edge, high: Edge): Edge {
    if low == high then low else Edge(low.c, Node(v, low.n, low.c != high.c, high.n))
  }

  /** The node constructor on children below the variable. */
  function MakeNode(v: nat, low: Edge, high: Edge): (r: Edge)
    requires Above(low, v + 1) && Above(high, v + 1)
    ensures Above(r, v)
    ensures Support(r) <= {v} + Support(low) + Support(high)
  {
    OrderedMonotone(low.n, v + 1, v);
    Joined(v, low, high)
  }

  lemma MakeNodeEval(v: nat, low: Edge, high: Edge)
    requires Above(low, v + 1) && Above(high, v + 1)
    ensures Canonical(MakeNode(v, low, high))
    ensures forall env: Env ::
      Eval(MakeNode(v, low, high), env) == Eval(if v in env then high else low, env)
  {
    OrderedMonotone(MakeNode(v, low, high).n, v, 0);
  }

  lemma ProperSubset<T>(a: set<T>, b: set<T>, x: T)
    requires a <= b && x in b && x !in a
    ensures |a| < |b|
  {
    SubsetSize(a, b - {x});
  }
}
