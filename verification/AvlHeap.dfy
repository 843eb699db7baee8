/** The methods of avl.h on linked nodes: each one leaves nodes of the shape of the tree that its function gives. */
module AvlHeap {
  import opened Avl

  /** avl_get_height */
  function GetHeight(node: AvlNode?): nat
    reads node
  {
    if node == null then 0 else node.height
  }

  /** avl_get_balance */
  function GetBalance(node: AvlNode?): int
    reads node, if node == null then {} else {node.left, node.right}
  {
    if node == null then 0 else GetHeight(node.left) - GetHeight(node.right)
  }

  lemma BalanceIsFactor(node: AvlNode?, t: Tree)
    requires Shape(node, t)
    ensures GetHeight(node) == Stored(t) && GetBalance(node) == Factor(t)
  {
    if t.Bin? {
      assert Shape(node.left, t.l) && Shape(node.right, t.r);
    }
  }

  /** Nodes that are reached by pointers are allocated. */
  lemma {:induction false} Reached(root: AvlNode?, t: Tree)
    requires Shape(root, t)
    ensures forall n :: n in Nodes(t) ==> allocated(n)
    decreases t
  {
    if t.Bin? {
      Reached(root.left, t.l);
      Reached(root.right, t.r);
    }
  }

  /** avl_update_height */
  method UpdateHeight(node: AvlNode, ghost t: Tree)
    requires t.Bin? && Shape(node, t)
    modifies node`height
    ensures Shape(node, Updated(t))
  {
    var h1: int, h2: int := GetHeight(node.left), GetHeight(node.right);
    assert h1 == Stored(t.l) && h2 == Stored(t.r);
    node.height := 1 + (if h1 > h2 then h1 else h2);
  }

  method RotateLL(parent: AvlNode, ghost t: Tree) returns (child: AvlNode)
    requires t.Bin? && t.l.Bin? && Shape(parent, t)
    modifies Nodes(t)
    ensures Shape(child, RotatedLL(t))
  {
    Reached(parent, t);
    child := parent.left;
    assert Shape(child, t.l) && Shape(child.left, t.l.l) && Shape(child.right, t.l.r);
    assert parent !in Nodes(t.l) && child !in Nodes(t.l.l) && child !in Nodes(t.l.r) && child !in Nodes(t.r);
    parent.left := child.right;
    ghost var p := t.(l := t.l.r);
    assert Shape(child.left, t.l.l) && Shape(parent, p);
    child.right := parent;
    assert Shape(child.left, t.l.l) && Shape(parent, p);
    UpdateHeight(parent, p);
    assert Shape(child.left, t.l.l) && Shape(child.right, Updated(p));
    UpdateHeight(child, t.l.(r := Updated(p)));
  }

  method RotateRR(parent: AvlNode, ghost t: Tree) returns (child: AvlNode)
    requires t.Bin? && t.r.Bin? && Shape(parent, t)
    modifies Nodes(t)
    ensures Shape(child, RotatedRR(t))
  {
    Reached(parent, t);
    child := parent.right;
    assert Shape(child, t.r) && Shape(child.left, t.r.l) && Shape(child.right, t.r.r);
    assert parent !in Nodes(t.r) && child !in Nodes(t.r.l) && child !in Nodes(t.r.r) && child !in Nodes(t.l);
    parent.right := child.left;
    ghost var p := t.(r := t.r.l);
    assert Shape(child.right, t.r.r) && Shape(parent, p);
    child.left := parent;
    assert Shape(child.right, t.r.r) && Shape(parent, p);
    UpdateHeight(parent, p);
    assert Shape(child.right, t.r.r) && Shape(child.left, Updated(p));
    UpdateHeight(child, t.r.(l := Updated(p)));
  }

  method RotateRL(parent: AvlNode, ghost t: Tree) returns (child: AvlNode)
    requires t.Bin? && t.r.Bin? && t.r.l.Bin? && Shape(parent, t)
    modifies Nodes(t)
    ensures Shape(child, RotatedRL(t))
  {
    Reached(parent, t);
    RotatedNodes(t.r);
    assert parent !in Nodes(t.l) && parent !in Nodes(t.r) && Nodes(t.l) !! Nodes(t.r);
    var right := RotateLL(parent.right, t.r);
    assert Shape(parent.left, t.l);
    parent.right := right;
    assert Shape(parent.left, t.l) && Shape(right, RotatedLL(t.r));
    child := RotateRR(parent, t.(r := RotatedLL(t.r)));
  }

  method RotateLR(parent: AvlNode, ghost t: Tree) returns (child: AvlNode)
    requires t.Bin? && t.l.Bin? && t.l.r.Bin? && Shape(parent, t)
    modifies Nodes(t)
    ensures Shape(child, RotatedLR(t))
  {
    Reached(parent, t);
    RotatedNodes(t.l);
    assert parent !in Nodes(t.l) && parent !in Nodes(t.r) && Nodes(t.l) !! Nodes(t.r);
    var left := RotateRR(parent.left, t.l);
    assert Shape(parent.right, t.r);
    parent.left := left;
    assert Shape(parent.right, t.r) && Shape(left, RotatedRR(t.l));
    child := RotateLL(parent, t.(l := RotatedRR(t.l)));
  }

  /** Rotations use the same nodes. */
  lemma RotatedNodes(t: Tree)
    requires t.Bin?
    ensures t.l.Bin? ==> Nodes(RotatedLL(t)) == Nodes(t)
    ensures t.r.Bin? ==> Nodes(RotatedRR(t)) == Nodes(t)
  {
  }

  /** avl_update_height_get_balance */
  method UpdateHeightGetBalance(node: AvlNode, ghost t: Tree) returns (factor: int)
    requires t.Bin? && Shape(node, t)
    modifies node`height
    ensures Shape(node, Updated(t)) && factor == Factor(t)
  {
    var h1: int, h2: int := GetHeight(node.left), GetHeight(node.right);
    assert h1 == Stored(t.l) && h2 == Stored(t.r);
    node.height := 1 + (if h1 > h2 then h1 else h2);
    factor := h1 - h2;
  }

  method BalanceTree(node: AvlNode, ghost t: Tree) returns (root: AvlNode)
    requires CanBalance(t) && Shape(node, t)
    modifies Nodes(t)
    ensures Shape(root, Rebalanced(t))
  {
    Reached(node, t);
    var factor := UpdateHeightGetBalance(node, t);
    ghost var u := Updated(t);
    root := node;
    if factor > 1 {
      BalanceIsFactor(node.left, t.l);
      if GetBalance(node.left) > 0 {
        root := RotateLL(node, u);
      } else {
        root := RotateLR(node, u);
      }
    } else if factor < -1 {
      BalanceIsFactor(node.right, t.r);
      if GetBalance(node.right) < 0 {
        root := RotateRR(node, u);
      } else {
        root := RotateRL(node, u);
      }
    }
  }

  /** NAME_put: finds the node with the key, or links a new one. */
  method Put(root: AvlNode?, data: int, ghost t: Tree) returns (root': AvlNode, result: AvlNode, inserted: bool)
    requires Shape(root, t) && Exact(t) && Sorted(t)
    modifies Nodes(t)
    ensures result.data == data && Shape(root', Inserted(t, data, result))
    ensures inserted <==> data !in InOrder(t)
    ensures if inserted then fresh(result) else result in Nodes(t)
    ensures Nodes(Inserted(t, data, result)) == Nodes(t) + {result}
    decreases t, 2
  {
    if root == null {
      result := new AvlNode(data);
      root', inserted := result, true;
    } else if data == root.data {
      SidesSorted(t);
      root', result, inserted := root, root, false;
    } else {
      root', result, inserted := PutBelow(root, data, t);
    }
  }

  method PutBelow(root: AvlNode, data: int, ghost t: Tree) returns (root': AvlNode, result: AvlNode, inserted: bool)
    requires Shape(root, t) && Exact(t) && Sorted(t) && t.Bin? && data != t.key
    modifies Nodes(t)
    ensures result.data == data && Shape(root', Inserted(t, data, result))
    ensures inserted <==> data !in InOrder(t)
    ensures if inserted then fresh(result) else result in Nodes(t)
    ensures Nodes(Inserted(t, data, result)) == Nodes(t) + {result}
    decreases t, 1
  {
    if data < root.data {
      result, inserted := PutLeft(root, data, t);
    } else {
      result, inserted := PutRight(root, data, t);
    }
    ghost var u := WithSide(t, data, Inserted(Side(t, data), data, result));
    ExactCanBalance(u);
    RebalancedKeeps(u);
    root' := BalanceTree(root, u);
  }

  method PutLeft(root: AvlNode, data: int, ghost t: Tree) returns (result: AvlNode, inserted: bool)
    requires Shape(root, t) && Exact(t) && Sorted(t) && t.Bin? && data < t.key
    modifies Nodes(t)
    ensures var u := t.(l := Inserted(t.l, data, result)); Shape(root, u) && Nodes(u) == Nodes(t) + {result}
    ensures result.data == data && (inserted <==> data !in InOrder(t))
    ensures if inserted then fresh(result) else result in Nodes(t)
    decreases t, 0
  {
    Reached(root, t);
    SidesSorted(t);
    assert root !in Nodes(t.l) && root !in Nodes(t.r) && Nodes(t.l) !! Nodes(t.r);
    var left;
    left, result, inserted := Put(root.left, data, t.l);
    assert Shape(root.right, t.r);
    root.left := left;
    assert Shape(root.right, t.r);
  }

  method PutRight(root: AvlNode, data: int, ghost t: Tree) returns (result: AvlNode, inserted: bool)
    requires Shape(root, t) && Exact(t) && Sorted(t) && t.Bin? && data > t.key
    modifies Nodes(t)
    ensures var u := t.(r := Inserted(t.r, data, result)); Shape(root, u) && Nodes(u) == Nodes(t) + {result}
    ensures result.data == data && (inserted <==> data !in InOrder(t))
    ensures if inserted then fresh(result) else result in Nodes(t)
    decreases t, 0
  {
    Reached(root, t);
    SidesSorted(t);
    assert root !in Nodes(t.l) && root !in Nodes(t.r) && Nodes(t.l) !! Nodes(t.r);
    var right;
    right, result, inserted := Put(root.right, data, t.r);
    assert Shape(root.left, t.l);
    root.right := right;
    assert Shape(root.left, t.l);
  }

  /** NAME_search */
  method Search(root: AvlNode?, data: int, ghost t: Tree) returns (found: AvlNode?)
    requires Shape(root, t) && Sorted(t)
    ensures found != null <==> data in InOrder(t)
    ensures found != null ==> found in Nodes(t) && found.data == data
  {
    var node := root;
    ghost var u := t;
    while node != null
      invariant Shape(node, u) && Sorted(u) && Nodes(u) <= Nodes(t)
      invariant data in InOrder(t) <==> data in InOrder(u)
      decreases u
    {
      SidesSorted(u);
      if node.data == data { return node; }
      if node.data > data {
        node, u := node.left, u.l;
      } else {
        node, u := node.right, u.r;
      }
    }
    return null;
  }

  /** Inserting one more key keeps the tree sorted, exact and balanced. */
  method Insert(root: AvlNode?, data: int, ghost t: Tree) returns (root': AvlNode, ghost t': Tree)
    requires Shape(root, t) && Exact(t) && Balanced(t) && Sorted(t)
    modifies Nodes(t)
    ensures Shape(root', t') && Exact(t') && Balanced(t') && Sorted(t')
    ensures InOrder(t') == InsertSorted(InOrder(t), data)
    ensures forall n :: n in Nodes(t') ==> n in Nodes(t) || fresh(n)
  {
    var result, inserted;
    root', result, inserted := Put(root, data, t);
    InsertedKeys(t, data, result);
    InsertedBalance(t, data, result);
    t' := Inserted(t, data, result);
  }

  lemma OneMoreKey(keys: seq<int>, data: seq<int>, i: nat)
    requires i < |data| && forall k :: k in keys <==> k in data[..i]
    ensures forall k :: k in InsertSorted(keys, data[i]) <==> k in data[..i + 1]
  {
    InsertSortedMembers(keys, data[i]);
    assert data[..i + 1] == data[..i] + [data[i]];
  }

  /** Inserting a sequence of keys into an empty tree. */
  method InsertAll(data: seq<int>) returns (root: AvlNode?, ghost t: Tree)
    ensures Shape(root, t) && Exact(t) && Balanced(t) && Sorted(t)
    ensures forall k :: k in InOrder(t) <==> k in data
    ensures root != null ==> root.height == Height(t)
  {
    root, t := null, Nil;
    var i := 0;
    while i < |data|
      invariant 0 <= i <= |data| && Shape(root, t) && Exact(t) && Balanced(t) && Sorted(t) && fresh(Nodes(t))
      invariant forall k :: k in InOrder(t) <==> k in data[..i]
    {
      OneMoreKey(InOrder(t), data, i);
      root, t := Insert(root, data[i], t);
      i := i + 1;
    }
    ExactIsHeight(t);
    assert data[..|data|] == data;
  }
}
