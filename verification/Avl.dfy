/**
 The search tree of avl.h: insertion with rotations on linked nodes. A ghost tree carries the nodes together with
 their keys and stored heights, so that what the pointers look like is a fact about the heap, and everything else
 is a fact about trees.
 */
module Avl {
  import opened Common

  class AvlNode {
    var left: AvlNode?
    var right: AvlNode?
    var height: nat
    const data: int

    constructor (data: int)
      ensures this.data == data && left == null && right == null && height == 1
    {
      left, right, height := null, null, 1;
      this.data := data;
    }
  }

  datatype Tree = Nil | Bin(n: AvlNode, key: int, h: nat, l: Tree, r: Tree)

  function Nodes(t: Tree): set<AvlNode> {
    if t.Nil? then {} else {t.n} + Nodes(t.l) + Nodes(t.r)
  }

  /** `root` points to linked nodes of the shape of `t`, each node used once. */
  ghost predicate Shape(root: AvlNode?, t: Tree)
    reads Nodes(t)
  {
    if t.Nil? then root == null
    else
      && root == t.n && t.n.data == t.key && t.n.height == t.h
      && t.n !in Nodes(t.l) && t.n !in Nodes(t.r) && Nodes(t.l) !! Nodes(t.r)
      && Shape(t.n.left, t.l) && Shape(t.n.right, t.r)
  }

  // ---------- Search order, heights and balance ----------

  function InOrder(t: Tree): seq<int> {
    if t.Nil? then [] else InOrder(t.l) + [t.key] + InOrder(t.r)
  }

  ghost predicate Sorted(t: Tree) { Ascending(InOrder(t)) }

  function Height(t: Tree): nat {
    if t.Nil? then 0 else 1 + Max(Height(t.l), Height(t.r))
  }

  /** avl_get_height: the height that is stored. */
  function Stored(t: Tree): nat { if t.Nil? then 0 else t.h }

  /** avl_get_balance */
  function Factor(t: Tree): int {
    if t.Nil? then 0 else Stored(t.l) - Stored(t.r)
  }

  /** Every stored height agrees with those below it. */
  predicate Exact(t: Tree) {
    t.Bin? ==> t.h == 1 + Max(Stored(t.l), Stored(t.r)) && Exact(t.l) && Exact(t.r)
  }

  lemma {:induction false} ExactIsHeight(t: Tree)
    requires Exact(t)
    ensures Stored(t) == Height(t)
  {
    if t.Bin? {
      ExactIsHeight(t.l);
      ExactIsHeight(t.r);
    }
  }

  predicate Balanced(t: Tree) {
    t.Bin? ==> -1 <= Factor(t) <= 1 && Balanced(t.l) && Balanced(t.r)
  }

  // ---------- What the operations do to the tree ----------

  /** avl_update_height */
  function Updated(t: Tree): Tree
    requires t.Bin?
  {
    t.(h := 1 + Max(Stored(t.l), Stored(t.r)))
  }

  function RotatedLL(t: Tree): Tree
    requires t.Bin? && t.l.Bin?
  {
    Updated(t.l.(r := Updated(t.(l := t.l.r))))
  }

  function RotatedRR(t: Tree): Tree
    requires t.Bin? && t.r.Bin?
  {
    Updated(t.r.(l := Updated(t.(r := t.r.l))))
  }

  function RotatedRL(t: Tree): Tree
    requires t.Bin? && t.r.Bin? && t.r.l.Bin?
  {
    RotatedRR(t.(r := RotatedLL(t.r)))
  }

  function RotatedLR(t: Tree): Tree
    requires t.Bin? && t.l.Bin? && t.l.r.Bin?
  {
    RotatedLL(t.(l := RotatedRR(t.l)))
  }

  /** The rotations that balancing performs have the nodes they need. */
  predicate CanBalance(t: Tree) {
    && t.Bin?
    && (Factor(t) > 1 ==> t.l.Bin? && (Factor(t.l) <= 0 ==> t.l.r.Bin?))
    && (Factor(t) < -1 ==> t.r.Bin? && (Factor(t.r) >= 0 ==> t.r.l.Bin?))
  }

  /** With exact heights they always have. */
  lemma ExactCanBalance(t: Tree)
    requires t.Bin? && Exact(t.l) && Exact(t.r)
    ensures CanBalance(t)
  {
  }

  /** avl_balance_tree */
  function Rebalanced(t: Tree): Tree
    requires CanBalance(t)
  {
    var u := Updated(t);
    if Factor(t) > 1 then
      if Factor(t.l) > 0 then RotatedLL(u) else RotatedLR(u)
    else if Factor(t) < -1 then
      if Factor(t.r) < 0 then RotatedRR(u) else RotatedRL(u)
    else u
  }

  /** The same nodes and keys in the same order. */
  ghost predicate Rearranges(t: Tree, r: Tree) {
    InOrder(r) == InOrder(t) && Nodes(r) == Nodes(t)
  }

  lemma UpdatedKeeps(t: Tree)
    requires t.Bin? && Exact(t.l) && Exact(t.r)
    ensures Rearranges(t, Updated(t)) && Exact(Updated(t))
  {
  }

  lemma Rejoined(a: seq<int>, x: int, b: seq<int>, y: int, c: seq<int>)
    ensures a + [x] + b + [y] + c == a + [x] + (b + [y] + c)
  {
  }

  lemma LLKeeps(t: Tree)
    requires t.Bin? && t.l.Bin? && Exact(t.l) && Exact(t.r)
    ensures Rearranges(t, RotatedLL(t)) && Exact(RotatedLL(t))
  {
    var p := Updated(t.(l := t.l.r));
    assert Exact(p) && InOrder(p) == InOrder(t.l.r) + [t.key] + InOrder(t.r);
    assert RotatedLL(t).l == t.l.l && RotatedLL(t).r == p && RotatedLL(t).key == t.l.key;
    Rejoined(InOrder(t.l.l), t.l.key, InOrder(t.l.r), t.key, InOrder(t.r));
  }

  lemma RRKeeps(t: Tree)
    requires t.Bin? && t.r.Bin? && Exact(t.l) && Exact(t.r)
    ensures Rearranges(t, RotatedRR(t)) && Exact(RotatedRR(t))
  {
    var p := Updated(t.(r := t.r.l));
    assert Exact(p) && InOrder(p) == InOrder(t.l) + [t.key] + InOrder(t.r.l);
    assert RotatedRR(t).r == t.r.r && RotatedRR(t).l == p && RotatedRR(t).key == t.r.key;
    Rejoined(InOrder(t.l), t.key, InOrder(t.r.l), t.r.key, InOrder(t.r.r));
  }

  /** Replacing a subtree by a rearrangement of it. */
  lemma ReplaceKeeps(t: Tree, l': Tree, r': Tree)
    requires t.Bin? && Rearranges(t.l, l') && Rearranges(t.r, r')
    ensures Rearranges(t, t.(l := l', r := r'))
  {
  }

  /** Balancing keeps keys, order, nodes and the exactness of heights. */
  lemma RebalancedKeeps(t: Tree)
    requires CanBalance(t) && Exact(t.l) && Exact(t.r)
    ensures Rearranges(t, Rebalanced(t)) && Exact(Rebalanced(t))
  {
    var u := Updated(t);
    UpdatedKeeps(t);
    if Factor(t) > 1 {
      if Factor(t.l) > 0 {
        LLKeeps(u);
      } else {
        RRKeeps(t.l);
        ReplaceKeeps(u, RotatedRR(t.l), t.r);
        LLKeeps(u.(l := RotatedRR(t.l)));
      }
    } else if Factor(t) < -1 {
      if Factor(t.r) < 0 {
        RRKeeps(u);
      } else {
        LLKeeps(t.r);
        ReplaceKeeps(u, t.l, RotatedLL(t.r));
        RRKeeps(u.(r := RotatedLL(t.r)));
      }
    }
  }

  /** What insertion below `t` leaves to be balanced. */
  predicate AlmostBalanced(t: Tree) {
    && t.Bin? && Exact(t.l) && Exact(t.r) && Balanced(t.l) && Balanced(t.r)
    && -2 <= Factor(t) <= 2
    && (Factor(t) == 2 ==> Factor(t.l) != 0)
    && (Factor(t) == -2 ==> Factor(t.r) != 0)
  }

  /**
   A side that is too high by two, and not evenly high itself, is brought back: the result is one lower than the
   unbalanced tree.
   */
  lemma RebalancedHeights(t: Tree)
    requires AlmostBalanced(t)
    ensures CanBalance(t) && Balanced(Rebalanced(t))
    ensures -1 <= Factor(t) <= 1 ==> Stored(Rebalanced(t)) == Stored(Updated(t)) && Factor(Rebalanced(t)) == Factor(t)
    ensures Factor(t) == 2 || Factor(t) == -2 ==> Stored(Rebalanced(t)) == Stored(Updated(t)) - 1
  {
    ExactCanBalance(t);
    if Factor(t) == 2 {
      LeftHeights(t);
    } else if Factor(t) == -2 {
      RightHeights(t);
    }
  }

  lemma LeftHeights(t: Tree)
    requires AlmostBalanced(t) && CanBalance(t) && Factor(t) == 2
    ensures Balanced(Rebalanced(t)) && Stored(Rebalanced(t)) == Stored(Updated(t)) - 1
  {
    var l, u := t.l, Updated(t);
    if Factor(l) > 0 {
      assert Balanced(Updated(u.(l := l.r)));
    } else {
      var m := l.r;
      assert Balanced(m) && Exact(m);
      var a, b := Updated(l.(r := m.l)), Updated(u.(l := m.r));
      var v := Updated(m.(l := a));
      assert v.Bin? && RotatedRR(l) == v && Rebalanced(t) == Updated(v.(r := b));
      assert Balanced(a) && Balanced(b);
    }
  }

  lemma RightHeights(t: Tree)
    requires AlmostBalanced(t) && CanBalance(t) && Factor(t) == -2
    ensures Balanced(Rebalanced(t)) && Stored(Rebalanced(t)) == Stored(Updated(t)) - 1
  {
    var r, u := t.r, Updated(t);
    if Factor(r) < 0 {
      assert Balanced(Updated(u.(r := r.l)));
    } else {
      var m := r.l;
      assert Balanced(m) && Exact(m);
      var a, b := Updated(r.(l := m.r)), Updated(u.(r := m.l));
      var v := Updated(m.(r := a));
      assert v.Bin? && RotatedLL(r) == v && Rebalanced(t) == Updated(v.(l := b));
      assert Balanced(a) && Balanced(b);
    }
  }

  // ---------- Insertion ----------

  /** The tree below which a key is inserted. */
  function WithSide(t: Tree, key: int, side: Tree): Tree
    requires t.Bin?
  {
    if key < t.key then t.(l := side) else t.(r := side)
  }

  function Side(t: Tree, key: int): Tree
    requires t.Bin?
  {
    if key < t.key then t.l else t.r
  }

  /** NAME_put: the tree after inserting a key, with `node` for a new key. */
  function Inserted(t: Tree, key: int, node: AvlNode): (r: Tree)
    requires Exact(t)
    ensures Exact(r)
  {
    if t.Nil? then Bin(node, key, 1, Nil, Nil)
    else if key == t.key then t
    else
      var u := WithSide(t, key, Inserted(Side(t, key), key, node));
      ExactCanBalance(u);
      RebalancedKeeps(u);
      Rebalanced(u)
  }

  /** Insertion into an ascending list. */
  function InsertSorted(s: seq<int>, key: int): seq<int> {
    if s == [] then [key]
    else if key < s[0] then [key] + s
    else if key == s[0] then s
    else [s[0]] + InsertSorted(s[1..], key)
  }

  lemma {:induction false} InsertSortedMembers(s: seq<int>, key: int)
    ensures forall k :: k in InsertSorted(s, key) <==> k in s || k == key
  {
    if s != [] && key > s[0] {
      InsertSortedMembers(s[1..], key);
      assert s == [s[0]] + s[1..];
    }
  }

  lemma AscendingCons(x: int, s: seq<int>)
    requires Ascending(s) && forall k :: k in s ==> x < k
    ensures Ascending([x] + s)
  {
    assert forall i :: 0 <= i < |s| ==> s[i] in s;
  }

  lemma AscendingHead(s: seq<int>)
    requires Ascending(s) && s != []
    ensures Ascending(s[1..]) && s == [s[0]] + s[1..] && forall k :: k in s[1..] ==> s[0] < k
  {
  }

  lemma {:induction false} InsertSortedAdds(s: seq<int>, key: int)
    requires Ascending(s)
    ensures Ascending(InsertSorted(s, key))
    ensures forall k :: k in InsertSorted(s, key) <==> k in s || k == key
    ensures key in s ==> InsertSorted(s, key) == s
    ensures key !in s ==> |InsertSorted(s, key)| == |s| + 1
  {
    InsertSortedMembers(s, key);
    if s != [] {
      AscendingHead(s);
      if key > s[0] {
        InsertSortedAdds(s[1..], key);
        AscendingCons(s[0], InsertSorted(s[1..], key));
      } else if key < s[0] {
        AscendingCons(key, s);
      }
    }
  }

  lemma {:induction false} InsertBehind(x: seq<int>, z: seq<int>, key: int)
    requires forall i :: 0 <= i < |x| ==> x[i] < key
    ensures InsertSorted(x + z, key) == x + InsertSorted(z, key)
  {
    if x == [] {
      assert x + z == z;
    } else {
      assert (x + z)[1..] == x[1..] + z && x == [x[0]] + x[1..];
      InsertBehind(x[1..], z, key);
    }
  }

  lemma {:induction false} InsertBefore(x: seq<int>, z: seq<int>, key: int)
    requires z != [] && key < z[0]
    ensures InsertSorted(x + z, key) == InsertSorted(x, key) + z
  {
    if x == [] {
      assert x + z == z;
    } else {
      assert (x + z)[1..] == x[1..] + z;
      InsertBefore(x[1..], z, key);
    }
  }

  /** The list of a tree splits at its root. */
  lemma InsertSortedSplits(x: seq<int>, k: int, y: seq<int>, key: int)
    requires Ascending(x + [k] + y)
    ensures key < k ==> InsertSorted(x + [k] + y, key) == InsertSorted(x, key) + [k] + y
    ensures key > k ==> InsertSorted(x + [k] + y, key) == x + [k] + InsertSorted(y, key)
    ensures key == k ==> InsertSorted(x + [k] + y, key) == x + [k] + y
  {
    var s := x + [k] + y;
    assert s[|x|] == k && forall i :: 0 <= i < |x| ==> x[i] == s[i];
    assert s == x + ([k] + y);
    if key < k {
      InsertBefore(x, [k] + y, key);
    } else if key > k {
      InsertBehind(x + [k], y, key);
    } else {
      InsertBehind(x, [k] + y, key);
    }
  }

  lemma SidesSorted(t: Tree)
    requires t.Bin? && Sorted(t)
    ensures Sorted(t.l) && Sorted(t.r)
    ensures forall k :: k in InOrder(t.l) ==> k < t.key
    ensures forall k :: k in InOrder(t.r) ==> t.key < k
  {
    var s, n := InOrder(t), |InOrder(t.l)|;
    assert forall i :: 0 <= i < n ==> InOrder(t.l)[i] == s[i];
    assert s[n] == t.key;
    assert forall i :: 0 <= i < |InOrder(t.r)| ==> InOrder(t.r)[i] == s[n + 1 + i];
  }

  /** Insertion into the tree is insertion into its ascending list of keys; no other node is added. */
  lemma {:induction false} InsertedKeys(t: Tree, key: int, node: AvlNode)
    requires Exact(t) && Sorted(t)
    ensures InOrder(Inserted(t, key, node)) == InsertSorted(InOrder(t), key)
    ensures Sorted(Inserted(t, key, node))
    ensures Nodes(Inserted(t, key, node)) == if key in InOrder(t) then Nodes(t) else Nodes(t) + {node}
  {
    InsertSortedAdds(InOrder(t), key);
    if t.Bin? {
      SidesSorted(t);
      InsertSortedSplits(InOrder(t.l), t.key, InOrder(t.r), key);
      if key != t.key {
        var side := Inserted(Side(t, key), key, node);
        InsertedKeys(Side(t, key), key, node);
        SideReplaced(t, key, side, node);
        ExactCanBalance(WithSide(t, key, side));
        RebalancedKeeps(WithSide(t, key, side));
      }
    }
  }

  lemma SideReplaced(t: Tree, key: int, side: Tree, node: AvlNode)
    requires t.Bin? && key != t.key && Sorted(t) && InOrder(side) == InsertSorted(InOrder(Side(t, key)), key)
    requires Nodes(side) == if key in InOrder(Side(t, key)) then Nodes(Side(t, key)) else Nodes(Side(t, key)) + {node}
    ensures InOrder(WithSide(t, key, side)) == InsertSorted(InOrder(t), key)
    ensures Nodes(WithSide(t, key, side)) == if key in InOrder(t) then Nodes(t) else Nodes(t) + {node}
  {
    SidesSorted(t);
    InsertSortedSplits(InOrder(t.l), t.key, InOrder(t.r), key);
    assert key in InOrder(t) <==> key in InOrder(Side(t, key));
  }

  /** How much an insertion may change a tree: it grows by at most one, and then leans to one side. */
  predicate Grows(t: Tree, r: Tree) {
    && Balanced(r) && Stored(t) <= Stored(r) <= Stored(t) + 1
    && (Stored(r) > Stored(t) && t.Bin? ==> Factor(r) != 0)
  }

  lemma SideGrows(t: Tree, key: int, side: Tree)
    requires t.Bin? && Exact(t) && Balanced(t) && Exact(side) && Grows(Side(t, key), side)
    ensures CanBalance(WithSide(t, key, side)) && Grows(t, Rebalanced(WithSide(t, key, side)))
  {
    var u := WithSide(t, key, side);
    assert AlmostBalanced(u);
    RebalancedHeights(u);
  }

  /** Insertion keeps the balance within 1. A tree that has become higher leans to one side, unless it was empty. */
  lemma {:induction false} InsertedBalance(t: Tree, key: int, node: AvlNode)
    requires Exact(t) && Balanced(t)
    ensures Grows(t, Inserted(t, key, node))
  {
    if t.Bin? && key != t.key {
      InsertedBalance(Side(t, key), key, node);
      SideGrows(t, key, Inserted(Side(t, key), key, node));
    }
  }
}
