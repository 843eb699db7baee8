/**
 The operation cache as the BDD algorithms see it: a partial map from operation and operands to
 a result. Any put may be dropped, and between two accesses other workers may replace the contents
 by any other contents, as long as every entry is a result that the operation may return.
 */
module BddCache {
  import opened Bdd
  import opened Relations

  datatype Op = OpAnd | OpXor | OpIte | OpConstrain | OpRestrict | OpExists | OpAndExists | OpRelPrev | OpClosure

  datatype Key = Key(op: Op, a: Edge, b: Edge, c: Edge)

  // ---------- What each operation may return ----------

  ghost predicate IsAnd(a: Edge, b: Edge, r: Edge) {
    Canonical(r) && forall env: Env :: Eval(r, env) <==> Eval(a, env) && Eval(b, env)
  }

  ghost predicate IsXor(a: Edge, b: Edge, r: Edge) {
    Canonical(r) && forall env: Env :: Eval(r, env) <==> Eval(a, env) != Eval(b, env)
  }

  ghost predicate IsIte(a: Edge, b: Edge, c: Edge, r: Edge) {
    Canonical(r) && forall env: Env :: Eval(r, env) <==> if Eval(a, env) then Eval(b, env) else Eval(c, env)
  }

  // ---------- Generalised cofactors ----------

  ghost predicate AgreeIn(d: Env, e: Env, t: iset<nat>) {
    forall x: nat :: x in t ==> (x in d <==> x in e)
  }

  ghost function LevelsBelow(t: iset<nat>, v: nat): iset<nat> { iset x: nat | x in t && x < v }

  predicate IsLevel(x: nat) { true }

  ghost function AllLevels(): iset<nat> { iset x: nat | IsLevel(x) }

  /** At level `v` the bit of `env` cannot be kept: no assignment satisfying `c` has it and agrees with `e` above. */
  ghost predicate Blocked(c: Edge, env: Env, e: Env, t: iset<nat>, v: nat) {
    !exists d: Env :: Eval(c, d) && (v in d <==> v in env) && AgreeIn(d, e, LevelsBelow(t, v))
  }

  /**
   As far as the levels in `t` go, `e` satisfies the care function `c` and is nearest to `env`: from the top down, it
   keeps the bit of `env` wherever that can be extended to an assignment that satisfies `c`.
   */
  ghost predicate Nearest(c: Edge, env: Env, e: Env, t: iset<nat>) {
    && (exists d: Env :: Eval(c, d) && AgreeIn(d, e, t))
    && forall v: nat :: v in t && (v in e) != (v in env) ==> Blocked(c, env, e, t, v)
  }

  /** The levels at which the value under `e` is decided. */
  ghost function Tested(n: Node, e: Env): iset<nat> {
    if n.Terminal? then iset{} else iset{n.v} + Tested(if n.v in e then n.high else n.low, e)
  }

  /** The levels that matter to constrain (all of them) and to restrict (those that `f` tests). */
  ghost function Levels(f: Edge, e: Env, all: bool): iset<nat> {
    if all then AllLevels() else Tested(f.n, e)
  }

  /** Under `env`, `r` has the value that `f` has at the nearest assignment that satisfies `c`. */
  ghost predicate ValueAtNearest(f: Edge, c: Edge, r: Edge, env: Env, all: bool) {
    exists e: Env :: Nearest(c, env, e, Levels(f, e, all)) && (Eval(r, env) <==> Eval(f, e))
  }

  ghost predicate ValuesAtNearest(f: Edge, c: Edge, r: Edge, all: bool) {
    if c == FALSE then r == FALSE else forall env: Env :: ValueAtNearest(f, c, r, env, all)
  }

  ghost predicate IsConstrain(f: Edge, c: Edge, r: Edge) {
    && Canonical(r)
    && Support(r) <= Support(f) + Support(c)
    && ValuesAtNearest(f, c, r, true)
  }

  /** As constrain, as far as the levels go that `f` tests; no variable outside the support of `f` is introduced. */
  ghost predicate IsRestrict(f: Edge, c: Edge, r: Edge) {
    && Canonical(r)
    && Support(r) <= Support(f)
    && ValuesAtNearest(f, c, r, false)
  }

  // ---------- Quantification and relations ----------

  /** A variable set is the cube of its variables: every low edge is false, the end is true. */
  predicate IsCube(v: Edge)
    decreases Size(v)
  {
    v == TRUE || (v.n.Node? && NodeLow(v) == FALSE && IsCube(NodeHigh(v)))
  }

  /** Some assignment that differs from `env` only in the variables of `v` satisfies `a`. */
  ghost predicate SomeEval(a: Edge, v: set<nat>, env: Env) {
    exists e: Env :: SameOutside(e, env, v) && Eval(a, e)
  }

  ghost predicate SameOutside(e: Env, env: Env, v: set<nat>) {
    forall x: nat :: x !in v ==> (x in e <==> x in env)
  }

  ghost predicate IsExists(a: Edge, v: Edge, r: Edge) {
    Canonical(r) && forall env: Env :: Eval(r, env) <==> SomeEval(a, Support(v), env)
  }

  ghost predicate SomeEvalAnd(a: Edge, b: Edge, v: set<nat>, env: Env) {
    exists e: Env :: SameOutside(e, env, v) && Eval(a, e) && Eval(b, e)
  }

  ghost predicate IsAndExists(a: Edge, b: Edge, v: Edge, r: Edge) {
    Canonical(r) && forall env: Env :: Eval(r, env) <==> SomeEvalAnd(a, b, Support(v), env)
  }

  /** Each pair of levels (2k, 2k+1) is one bit of a state: the even level of the source, the odd one of the target. */
  ghost function Pair(x: State, y: State): Env {
    iset l: nat | (if l % 2 == 0 then l / 2 in x else l / 2 in y)
  }

  ghost predicate Rel(a: Edge, x: State, y: State) { Eval(a, Pair(x, y)) }

  /** Relational composition, first `a` and then `b`. */
  ghost predicate Composed(a: Edge, b: Edge, x: State, z: State) {
    exists y: State :: Rel(a, x, y) && Rel(b, y, z)
  }

  ghost predicate IsRelPrev(a: Edge, b: Edge, r: Edge) {
    Canonical(r) && forall x: State, z: State :: Rel(r, x, z) <==> Composed(a, b, x, z)
  }

  // ---------- Transitive closure ----------

  ghost function RelOf(a: Edge): Relation {
    iset x: State, y: State | Rel(a, x, y) :: (x, y)
  }

  /** The pairs of levels that a diagram depends on. */
  function PairsOf(a: Edge): set<nat> {
    set l | l in Support(a) :: l / 2
  }

  predicate AbovePair(a: Edge, k: nat) { Above(a, 2 * k) }

  predicate Between(a: Edge, k: nat, n: nat) { forall l :: l in PairsOf(a) ==> k <= l < n }

  /** Exactly the paths between live states, from whatever bounds of the pairs they are determined. */
  ghost predicate IsClosure(a: Edge, r: Edge) {
    && Canonical(r)
    && PairsOf(r) <= PairsOf(a)
    && (forall k, n :: Between(a, k, n) ==> RelOf(r) == Closed(RelOf(a), k, n))
  }

  ghost predicate SoundEntry(k: Key, r: Edge) {
    match k.op
    case OpAnd => IsAnd(k.a, k.b, r)
    case OpXor => IsXor(k.a, k.b, r)
    case OpIte => IsIte(k.a, k.b, k.c, r)
    case OpConstrain => IsConstrain(k.a, k.b, r)
    case OpRestrict => IsRestrict(k.a, k.b, r)
    case OpExists => IsExists(k.a, k.b, r)
    case OpAndExists => IsAndExists(k.a, k.b, k.c, r)
    case OpRelPrev => IsRelPrev(k.a, k.b, r)
    case OpClosure => IsClosure(k.a, r)
  }

  ghost predicate SoundTable(t: map<Key, Edge>) {
    forall k :: k in t ==> SoundEntry(k, t[k])
  }

  /**
   `others(n)` is the contents that the other workers have left behind at the n-th access. It is an
   arbitrary parameter, so what holds for this class holds for every schedule of the other workers.
   */
  class Cache {
    var table: map<Key, Edge>
    var time: nat
    const granularity: nat
    const others: nat -> map<Key, Edge>

    ghost predicate Sound()
      reads this
    {
      SoundTable(table) && forall n :: SoundTable(others(n))
    }

    constructor (granularity: nat, others: nat -> map<Key, Edge>)
      requires forall n :: SoundTable(others(n))
      ensures Sound()
    {
      this.granularity := granularity;
      this.others := others;
      table, time := map[], 0;
    }

    /** Whether the cache is used when going from `prevLevel` to `level`. */
    predicate CacheNow(prevLevel: nat, level: nat) {
      if granularity < 2 || prevLevel == 0 then true
      else prevLevel / granularity != level / granularity
    }

    method Get(k: Key) returns (hit: bool, r: Edge)
      requires Sound()
      modifies this
      ensures Sound()
      ensures hit ==> SoundEntry(k, r)
      ensures table == others(old(time)) && (hit <==> k in table) && (hit ==> r == table[k])
    {
      table, time := others(time), time + 1;
      if k in table {
        hit, r := true, table[k];
      } else {
        hit, r := false, FALSE;
      }
    }

    method Put(k: Key, r: Edge)
      requires Sound() && SoundEntry(k, r)
      modifies this
      ensures Sound()
      ensures table == old(table) || table == old(table)[k := r]
    {
      if * {
        table := table[k := r];
      }
    }
  }
}
