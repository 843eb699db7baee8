/** Relations over states: composition, blocks, reachability by paths, and cycles through later states. */
module Relations {

  /** A state gives every natural number one bit. */
  type State = iset<nat>

  type Relation = iset<(State, State)>

  ghost predicate Transitive(t: Relation) {
    forall x: State, y: State, z: State {:trigger (x, y) in t, (y, z) in t} ::
      (x, y) in t && (y, z) in t ==> (x, z) in t
  }

  ghost predicate Reflexive(t: Relation) {
    forall x: State :: (x, x) in t
  }

  /** Going from `x` to `y` by `c`, taking one step of `r` and going on by `c` is again in `c`. */
  ghost predicate Absorbs(c: Relation, r: Relation) {
    forall x: State, y: State, y': State, z: State {:trigger (x, y) in c, (y, y') in r, (y', z) in c} ::
      (x, y) in c && (y, y') in r && (y', z) in c ==> (x, z) in c
  }

  /** States that `c` relates to some state are related to themselves. */
  ghost predicate Looping(c: Relation) {
    forall x: State, y: State :: (x, y) in c ==> (x, x) in c && (y, y) in c
  }

  ghost function Comp(a: Relation, b: Relation): Relation {
    iset x: State, y: State, z: State | (x, y) in a && (y, z) in b :: (x, z)
  }

  ghost function Identity(): Relation {
    iset x: State | true :: (x, x)
  }

  lemma CompAssociative(a: Relation, b: Relation, c: Relation)
    ensures Comp(Comp(a, b), c) == Comp(a, Comp(b, c))
  {
    forall p | p in Comp(Comp(a, b), c) ensures p in Comp(a, Comp(b, c)) {
      var m: State :| (p.0, m) in Comp(a, b) && (m, p.1) in c;
      var n: State :| (p.0, n) in a && (n, m) in b;
      assert (n, p.1) in Comp(b, c);
    }
    forall p | p in Comp(a, Comp(b, c)) ensures p in Comp(Comp(a, b), c) {
      var m: State :| (p.0, m) in a && (m, p.1) in Comp(b, c);
      var n: State :| (m, n) in b && (n, p.1) in c;
      assert (p.0, n) in Comp(a, b);
    }
  }

  lemma CompMonotone(a: Relation, a': Relation, b: Relation, b': Relation)
    requires a <= a' && b <= b'
    ensures Comp(a, b) <= Comp(a', b')
  {
  }

  lemma CompUnion(a: Relation, b: Relation, c: Relation)
    ensures Comp(a + b, c) == Comp(a, c) + Comp(b, c)
    ensures Comp(c, a + b) == Comp(c, a) + Comp(c, b)
  {
    forall p ensures p in Comp(a + b, c) <==> p in Comp(a, c) + Comp(b, c) {}
    forall p ensures p in Comp(c, a + b) <==> p in Comp(c, a) + Comp(c, b) {}
  }

  // ---------- The blocks of a relation ----------

  ghost function SetBit(x: State, k: nat, b: bool): State {
    if b then x + iset{k} else x - iset{k}
  }

  /** The part of `t` between states whose bit `k` is `i` and states whose bit `k` is `j`. */
  ghost function Block(t: Relation, k: nat, i: bool, j: bool): Relation {
    iset x: State, y: State | (SetBit(x, k, i), SetBit(y, k, j)) in t :: (x, y)
  }

  lemma BlockMember(t: Relation, k: nat, x: State, y: State)
    ensures (x, y) in t <==> (x, y) in Block(t, k, k in x, k in y)
  {
    assert SetBit(x, k, k in x) == x;
    assert SetBit(y, k, k in y) == y;
  }

  // ---------- Reachability by paths ----------

  /** `p` is a sequence of states that are linked by steps of `r`. */
  ghost predicate IsPath(r: Relation, p: seq<State>) {
    |p| >= 1 && forall i :: 0 <= i < |p| - 1 ==> (p[i], p[i + 1]) in r
  }

  /** `z` is reachable from `x` by one or more steps. */
  ghost predicate ReachPlus(r: Relation, x: State, z: State) {
    exists p: seq<State> :: |p| >= 2 && IsPath(r, p) && p[0] == x && p[|p| - 1] == z
  }

  /** `z` is reachable from `x` by any number of steps. */
  ghost predicate ReachStar(r: Relation, x: State, z: State) {
    x == z || ReachPlus(r, x, z)
  }

  ghost function PlusOf(r: Relation): Relation {
    iset x: State, z: State | ReachPlus(r, x, z) :: (x, z)
  }

  lemma PlusTransitive(r: Relation)
    ensures Transitive(PlusOf(r)) && r <= PlusOf(r)
  {
    forall x: State, y: State, z: State | ReachPlus(r, x, y) && ReachPlus(r, y, z) ensures ReachPlus(r, x, z) {
      var p: seq<State> :| |p| >= 2 && IsPath(r, p) && p[0] == x && p[|p| - 1] == y;
      var q: seq<State> :| |q| >= 2 && IsPath(r, q) && q[0] == y && q[|q| - 1] == z;
      var w := p + q[1..];
      forall i | 0 <= i < |w| - 1 ensures (w[i], w[i + 1]) in r {
        if i >= |p| - 1 {
          var d := i - (|p| - 1);
          assert w[i] == q[d] && w[i + 1] == q[d + 1];
        }
      }
      assert IsPath(r, w) && w[0] == x && w[|w| - 1] == z;
    }
    forall p | p in r ensures p in PlusOf(r) {
      assert p == (p.0, p.1);
      assert IsPath(r, [p.0, p.1]);
    }
  }

  lemma {:induction false} PathInTransitive(r: Relation, t: Relation, p: seq<State>)
    requires |p| >= 2 && IsPath(r, p) && Transitive(t) && r <= t
    ensures (p[0], p[|p| - 1]) in t
    decreases |p|
  {
    assert (p[0], p[1]) in r;
    if |p| > 2 {
      var q := p[1..];
      assert IsPath(r, q);
      PathInTransitive(r, t, q);
      assert q[|q| - 1] == p[|p| - 1];
    }
  }

  lemma PlusLeast(r: Relation, t: Relation)
    requires Transitive(t) && r <= t
    ensures PlusOf(r) <= t
  {
    forall p | p in PlusOf(r) ensures p in t {
      var w: seq<State> :| |w| >= 2 && IsPath(r, w) && w[0] == p.0 && w[|w| - 1] == p.1;
      PathInTransitive(r, t, w);
    }
  }

  /** A map that takes the steps of `r` to steps of `r'` takes paths to paths. */
  lemma PlusMap(r: Relation, r': Relation, f: State -> State, x: State, y: State)
    requires forall p: State, q: State :: (p, q) in r ==> (f(p), f(q)) in r'
    requires ReachPlus(r, x, y)
    ensures ReachPlus(r', f(x), f(y))
  {
    var t: Relation := iset p: State, q: State | (f(p), f(q)) in PlusOf(r') :: (p, q);
    PlusTransitive(r');
    forall p | p in r ensures p in t {
      assert p == (p.0, p.1);
      assert (f(p.0), f(p.1)) in r';
    }
    assert Transitive(t);
    PlusLeast(r, t);
    assert (x, y) in PlusOf(r);
  }

  // ---------- Cycles through later states ----------

  ghost predicate AgreeBelow(x: State, y: State, k: nat) {
    forall m: nat :: m < k ==> (m in x <==> m in y)
  }

  ghost predicate AgreeFrom(x: State, y: State, k: nat) {
    forall m: nat :: k <= m ==> (m in x <==> m in y)
  }

  /** `y` comes after `x`: at the first bit where they differ, `y` has the one. */
  ghost predicate Later(x: State, y: State) {
    exists m: nat :: m !in x && m in y && AgreeBelow(x, y, m)
  }

  ghost predicate From(k: nat, x: State, y: State) {
    AgreeBelow(x, y, k) && (x == y || Later(x, y))
  }

  /** The steps of `r` between states that agree with `x` below bit `k` and are `x` or come after it. */
  ghost function Within(r: Relation, k: nat, x: State): Relation {
    iset p: State, q: State | (p, q) in r && From(k, x, p) && From(k, x, q) :: (p, q)
  }

  ghost predicate OnLaterCycle(r: Relation, k: nat, x: State) { ReachPlus(Within(r, k, x), x, x) }

  ghost predicate Touched(r: Relation, x: State) {
    exists y: State :: (x, y) in r || (y, x) in r
  }

  /** Every state with a step lies on a cycle whose other states come after it. */
  ghost predicate Covered(r: Relation, k: nat) {
    forall x: State :: Touched(r, x) ==> OnLaterCycle(r, k, x)
  }

  /** Every state lies on a cycle whose other states come after it. */
  ghost predicate EverywhereCovered(r: Relation, k: nat) {
    forall x: State :: OnLaterCycle(r, k, x)
  }

  /** The bits below `k` play no role in `r`. */
  ghost predicate Ignores(r: Relation, k: nat) {
    forall x: State, y: State, x': State, y': State ::
      (x, y) in r && AgreeFrom(x, x', k) && AgreeFrom(y, y', k) ==> (x', y') in r
  }

  ghost function Overlay(x: State, k: nat, w: State): State {
    iset m: nat | if m < k then m in w else m in x
  }

  // ---------- The closure, bit by bit ----------

  ghost predicate AgreeOn(x: State, y: State, k: nat, n: nat) {
    forall m: nat :: k <= m < n ==> (m in x <==> m in y)
  }

  /** Only the bits from `k` up to `n` play a role in `r`. */
  ghost predicate Spans(r: Relation, k: nat, n: nat) {
    forall x: State, y: State, x': State, y': State ::
      (x, y) in r && AgreeOn(x, x', k, n) && AgreeOn(y, y', k, n) ==> (x', y') in r
  }

  ghost predicate IgnoresBit(r: Relation, k: nat) {
    forall x: State, y: State, i, j {:trigger (SetBit(x, k, i), SetBit(y, k, j)) in r} ::
      (x, y) in r ==> (SetBit(x, k, i), SetBit(y, k, j)) in r
  }

  /**
   Which states are related to themselves by the closure of a relation whose bits are those from `k` up to `n`. At
   the first bit that plays a role, a state with the bit is live when it is live among the states with that bit. These
   are then eliminated: a state without the bit is live when it is live among the states without it, where a path
   through live states with the bit counts as a step. When no bit is left, a state is live when it has a step to itself.
   */
  ghost predicate Live(r: Relation, k: nat, n: nat, x: State)
    decreases if k < n then n - k else 0, 0
  {
    if k >= n then (x, x) in r
    else if IgnoresBit(r, k) then Live(r, k + 1, n, x)
    else if k in x then Live(Block(r, k, true, true), k + 1, n, x)
    else Live(Shortened(r, k, n), k + 1, n, x)
  }

  /** The steps between live states. */
  ghost function LivePart(r: Relation, k: nat, n: nat): Relation
    decreases if k < n then n - k else 0, 1
  {
    iset x: State, y: State | (x, y) in r && Live(r, k, n, x) && Live(r, k, n, y) :: (x, y)
  }

  /** The paths of one or more steps between live states. */
  ghost function Closed(r: Relation, k: nat, n: nat): Relation
    decreases if k < n then n - k else 0, 2
  {
    PlusOf(LivePart(r, k, n))
  }

  /** The steps between states without bit `k`, directly or by a path through live states with it. */
  ghost function Shortened(r: Relation, k: nat, n: nat): Relation
    requires k < n
    decreases n - k - 1, 3
  {
    Block(r, k, false, false) +
    Comp(Block(r, k, false, true), Comp(Closed(Block(r, k, true, true), k + 1, n), Block(r, k, true, false)))
  }

  /** The steps of `r` between states that `c` relates to themselves. */
  ghost function LoopPart(r: Relation, c: Relation): Relation {
    iset x: State, y: State | (x, y) in r && (x, x) in c && (y, y) in c :: (x, y)
  }

  /** What a closure of a relation `r` that ignores the bits below `k` has for properties. */
  ghost predicate ClosureOf(r: Relation, c: Relation, k: nat) {
    && Transitive(c)
    && Absorbs(c, r)
    && (forall t: Relation :: Transitive(t) && LoopPart(r, c) <= t ==> c <= t)
    && Looping(c)
    && (forall x: State :: (x, x) in r ==> (x, x) in c)
    && (forall x: State :: (x, x) in c ==> OnLaterCycle(r, k, x))
    && (Covered(r, k) ==> r <= c)
  }

  /** It is contained in every transitive relation above `r`. */
  lemma ClosureLeast(r: Relation, c: Relation, k: nat, t: Relation)
    requires ClosureOf(r, c, k) && Transitive(t) && r <= t
    ensures c <= t
  {
    assert LoopPart(r, c) <= t;
  }
}
