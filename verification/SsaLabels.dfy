/**
 The BDDs behind the tags of ssa_tag_gc.cpp: a tag is the set of input offsets whose bits satisfy its diagram.
 Variable `i` is bit `i` of the offset (VAR_ORDER_RE).
 */
module SsaLabels {
  import opened Bdd
  import opened BddCache
  import opened BddOps
  import Word = EwahWord

  const TAG_WIDTH: nat := 24

  const OFFSETS: nat := 0x100_0000

  lemma OffsetCount()
    ensures Word.Pow2(TAG_WIDTH) == OFFSETS
  {
    assert Word.Pow2(8) == 256;
    assert Word.Pow2(16) == 0x1_0000;
  }

  /** The assignment that the bits of an offset give. */
  ghost function OffsetEnv(x: nat): Env {
    iset i: nat | i < TAG_WIDTH && Word.Bit(x, i)
  }

  /** The offsets in the set that a diagram stands for. */
  ghost function Labels(b: Edge): iset<nat> {
    iset x: nat | x < OFFSETS && Eval(b, OffsetEnv(x))
  }

  /** The diagrams that tags use: canonical, over the bits of an offset, and not empty. */
  ghost predicate TagBdd(b: Edge) {
    && Canonical(b)
    && (forall x :: x in Support(b) ==> x < TAG_WIDTH)
    && b != FALSE
  }

  // ---------- Offsets and assignments ----------

  function NextBit(i: nat): nat { i + 1 }

  /** The assignment without its lowest bit. */
  ghost function Halved(env: Env): Env { iset i: nat | NextBit(i) in env }

  /** The number with these bits. */
  ghost function NumberOf(env: Env, n: nat): (x: nat)
    ensures x < Word.Pow2(n)
  {
    if n == 0 then 0
    else 2 * NumberOf(Halved(env), n - 1) + (if 0 in env then 1 else 0)
  }

  lemma {:induction false} NumberBits(env: Env, n: nat, i: nat)
    requires i < n
    ensures Word.Bit(NumberOf(env, n), i) <==> i in env
  {
    var rest := Halved(env);
    assert NumberOf(env, n) / 2 == NumberOf(rest, n - 1);
    assert i > 0 ==> (i - 1 in rest <==> NextBit(i - 1) in env);
    if i > 0 {
      NumberBits(rest, n - 1, i - 1);
    }
  }

  /** On the bits of an offset every assignment is that of an offset. */
  lemma OffsetOf(env: Env) returns (x: nat)
    ensures x < OFFSETS
    ensures forall i: nat :: i < TAG_WIDTH ==> (i in OffsetEnv(x) <==> i in env)
  {
    OffsetCount();
    x := NumberOf(env, TAG_WIDTH);
    forall i: nat | i < TAG_WIDTH ensures i in OffsetEnv(x) <==> i in env { NumberBits(env, TAG_WIDTH, i); }
  }

  /** Equal sets have equal diagrams: comparing handles decides equality of tags. */
  lemma LabelsDetermine(a: Edge, b: Edge)
    requires Canonical(a) && Canonical(b)
    requires forall x :: x in Support(a) + Support(b) ==> x < TAG_WIDTH
    ensures a == b <==> Labels(a) == Labels(b)
  {
    if a != b {
      var env := Distinguish(a, b);
      var x := OffsetOf(env);
      assert forall v :: v in SupportN(a.n) || v in SupportN(b.n) ==> v in Support(a) + Support(b);
      EvalAgree(a.n, env, OffsetEnv(x));
      EvalAgree(b.n, env, OffsetEnv(x));
      assert x in Labels(a) <==> x !in Labels(b);
    }
  }

  lemma NotEmpty(b: Edge)
    requires TagBdd(b)
    ensures Labels(b) != iset{}
  {
    assert Labels(FALSE) == iset{};
    LabelsDetermine(b, FALSE);
  }

  // ---------- One offset: mtbdd_cube ----------

  /** The array that ssa_tag_alloc fills. */
  function OffsetBits(offset: nat): (bits: seq<bool>)
    ensures |bits| == TAG_WIDTH && forall i :: 0 <= i < TAG_WIDTH ==> bits[i] == Word.Bit(offset, i)
  {
    seq(TAG_WIDTH, i requires 0 <= i < TAG_WIDTH => Word.Bit(offset, i))
  }

  /** The cube over the variables from `v` on, without marked don't-cares. */
  function Cube(v: nat, bits: seq<bool>): (r: Edge)
    requires v <= |bits|
    ensures Above(r, v) && r != FALSE && forall x :: x in Support(r) ==> x < |bits|
    decreases |bits| - v
  {
    if v == |bits| then TRUE
    else
      var result := Cube(v + 1, bits);
      if bits[v] then MakeNode(v, FALSE, result) else MakeNode(v, result, FALSE)
  }

  lemma {:induction false} CubeEval(v: nat, bits: seq<bool>, env: Env)
    requires v <= |bits|
    ensures Eval(Cube(v, bits), env) <==> forall i :: v <= i < |bits| ==> (i in env <==> bits[i])
    decreases |bits| - v
  {
    if v < |bits| {
      var rest := Cube(v + 1, bits);
      CubeEval(v + 1, bits, env);
      if bits[v] {
        MakeNodeEval(v, FALSE, rest);
      } else {
        MakeNodeEval(v, rest, FALSE);
      }
    }
  }

  /** A new tag is the set of its offset, of which only the bits below TAG_WIDTH count. */
  lemma OffsetCube(offset: nat)
    ensures TagBdd(Cube(0, OffsetBits(offset)))
    ensures Labels(Cube(0, OffsetBits(offset))) == iset{offset % OFFSETS}
  {
    var b := Cube(0, OffsetBits(offset));
    OffsetCount();
    var y := offset % OFFSETS;
    assert offset == y + OFFSETS * (offset / OFFSETS);
    forall i | 0 <= i < TAG_WIDTH ensures OffsetBits(offset)[i] == Word.Bit(y, i) {
      HighBits(y, offset / OFFSETS, TAG_WIDTH, i);
    }
    forall x: nat ensures x in Labels(b) <==> x == y {
      if x < OFFSETS {
        CubeEval(0, OffsetBits(offset), OffsetEnv(x));
        if x in Labels(b) {
          forall i | 0 <= i < TAG_WIDTH ensures Word.Bit(x, i) == Word.Bit(y, i) {
            assert i in OffsetEnv(x) <==> OffsetBits(offset)[i];
          }
          Word.BitsDetermine(x, y, TAG_WIDTH);
        }
      }
    }
  }

  /** Higher bits do not change the lower ones. */
  lemma {:induction false} HighBits(y: nat, k: nat, n: nat, i: nat)
    requires i < n
    ensures Word.Bit(y + Word.Pow2(n) * k, i) == Word.Bit(y, i)
  {
    var m := Word.Pow2(n - 1) * k;
    assert y + Word.Pow2(n) * k == y + 2 * m;
    if i > 0 {
      HighBits(y / 2, k, n - 1, i - 1);
    }
  }

  // ---------- Union ----------

  /** The BDD backend answers a combine request with the negated and of the negations. */
  method Union(cache: Cache, a: Edge, b: Edge) returns (r: Edge)
    requires cache.Sound() && TagBdd(a) && TagBdd(b)
    modifies cache
    ensures cache.Sound() && TagBdd(r) && Labels(r) == Labels(a) + Labels(b)
  {
    NotEval(a);
    NotEval(b);
    var n := And(cache, Not(a), Not(b), 0);
    r := Not(n);
    UnionOf(a, b, n);
  }

  lemma UnionOf(a: Edge, b: Edge, n: Edge)
    requires TagBdd(a) && TagBdd(b) && IsAnd(Not(a), Not(b), n)
    ensures TagBdd(Not(n)) && Labels(Not(n)) == Labels(a) + Labels(b)
  {
    NotEval(a);
    NotEval(b);
    NotEval(n);
    AndAbove(Not(a), Not(b), n, 0);
    assert forall x :: x in Support(Not(n)) ==> x in Support(a) + Support(b);
    NotEmpty(a);
    assert Labels(Not(n)) == Labels(a) + Labels(b);
    assert Labels(FALSE) == iset{};
  }

  /** The union is one of the operands exactly when the other is a subset: the test on handles is exact. */
  lemma SubsetTest(a: Edge, b: Edge, r: Edge)
    requires TagBdd(a) && TagBdd(b) && TagBdd(r) && Labels(r) == Labels(a) + Labels(b)
    ensures r == a <==> Labels(b) <= Labels(a)
    ensures r == b <==> Labels(a) <= Labels(b)
  {
    LabelsDetermine(r, a);
    LabelsDetermine(r, b);
    assert Labels(b) <= Labels(a) <==> Labels(a) + Labels(b) == Labels(a);
    assert Labels(a) <= Labels(b) <==> Labels(a) + Labels(b) == Labels(b);
  }
}
