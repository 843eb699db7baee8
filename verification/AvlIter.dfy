/** The iterator of avl.h, which keeps the path to the node it is at in an array. */
module AvlIter {
  import opened Avl
  import opened AvlHeap
  import opened Common

  // ---------- Paths ----------

  function Child(t: Tree, right: bool): Tree
    requires t.Bin?
  {
    if right then t.r else t.l
  }

  /** A path of subtrees from the root down; `right[k]` says that it goes to the right at its node `k`. */
  ghost predicate Descends(t: Tree, path: seq<Tree>, right: seq<bool>) {
    && |right| == |path|
    && (forall k :: 0 <= k < |path| ==> path[k].Bin?)
    && (path != [] ==> path[0] == t)
    && (forall k :: 0 < k < |path| ==> path[k] == Child(path[k - 1], right[k - 1]))
  }

  /** The subtree `head` below the path is to be visited; when it is empty, its parent is next, or all is done. */
  ghost predicate Visiting(t: Tree, path: seq<Tree>, right: seq<bool>, head: Tree) {
    && Descends(t, path, right) && Height(head) + |path| <= Height(t)
    && (if path == [] then head == t || head == Nil
        else if head.Nil? then !right[|path| - 1]
        else head == Child(path[|path| - 1], right[|path| - 1]))
  }

  /** The keys that come after the subtree at the end of a path. */
  ghost function Up(path: seq<Tree>, right: seq<bool>): seq<int>
    requires |right| == |path| && forall k :: 0 <= k < |path| ==> path[k].Bin?
  {
    if path == [] then []
    else
      var last := |path| - 1;
      if right[last] then Up(path[..last], right[..last])
      else [path[last].key] + InOrder(path[last].r) + Up(path[..last], right[..last])
  }

  /** The keys that are still to come. */
  ghost function RestOf(t: Tree, path: seq<Tree>, right: seq<bool>, head: Tree): seq<int>
    requires Visiting(t, path, right, head)
  {
    InOrder(head) + Up(path, right)
  }

  lemma {:induction false} PathHeight(t: Tree, path: seq<Tree>, right: seq<bool>, k: nat)
    requires Descends(t, path, right) && k < |path|
    ensures Height(path[k]) + k <= Height(t)
  {
    if k > 0 {
      PathHeight(t, path, right, k - 1);
    }
  }

  lemma {:induction false} PathShape(root: AvlNode?, t: Tree, path: seq<Tree>, right: seq<bool>, k: nat)
    requires Descends(t, path, right) && Shape(root, t) && k < |path|
    ensures Nodes(path[k]) <= Nodes(t) && Shape(path[k].n, path[k])
  {
    if k > 0 {
      PathShape(root, t, path, right, k - 1);
    }
  }

  lemma UpLast(path: seq<Tree>, right: seq<bool>)
    requires |right| == |path| > 0 && (forall k :: 0 <= k < |path| ==> path[k].Bin?)
    ensures var last := |path| - 1;
      Up(path, right) ==
        if right[last] then Up(path[..last], right[..last])
        else [path[last].key] + InOrder(path[last].r) + Up(path[..last], right[..last])
  {
  }

  /** Going down to the left. */
  lemma Pushed(t: Tree, path: seq<Tree>, right: seq<bool>, head: Tree)
    requires Visiting(t, path, right, head) && head.Bin?
    ensures Visiting(t, path + [head], right + [false], head.l)
    ensures RestOf(t, path + [head], right + [false], head.l) == RestOf(t, path, right, head)
  {
    PushedVisits(t, path, right, head);
    PushedUp(path, right, head);
  }

  lemma PushedVisits(t: Tree, path: seq<Tree>, right: seq<bool>, head: Tree)
    requires Visiting(t, path, right, head) && head.Bin?
    ensures Visiting(t, path + [head], right + [false], head.l)
  {
  }

  lemma PushedUp(path: seq<Tree>, right: seq<bool>, head: Tree)
    requires |right| == |path| && (forall k :: 0 <= k < |path| ==> path[k].Bin?) && head.Bin?
    ensures InOrder(head.l) + Up(path + [head], right + [false]) == InOrder(head) + Up(path, right)
  {
    UpLast(path + [head], right + [false]);
    assert (path + [head])[..|path|] == path && (right + [false])[..|right|] == right;
    Regroup(InOrder(head.l), [head.key], InOrder(head.r));
    Regroup(InOrder(head.l), [head.key] + InOrder(head.r), Up(path, right));
  }

  /** The parent of an empty left side is visited, and its right side is next. */
  lemma Turned(t: Tree, path: seq<Tree>, right: seq<bool>)
    requires Visiting(t, path, right, Nil) && path != [] && path[|path| - 1].r.Bin?
    ensures var last := |path| - 1;
      && Visiting(t, path, right[last := true], path[last].r)
      && [path[last].key] + RestOf(t, path, right[last := true], path[last].r) == RestOf(t, path, right, Nil)
  {
    TurnedVisits(t, path, right);
    TurnedUp(path, right);
  }

  lemma TurnedVisits(t: Tree, path: seq<Tree>, right: seq<bool>)
    requires Visiting(t, path, right, Nil) && path != [] && path[|path| - 1].r.Bin?
    ensures Visiting(t, path, right[|path| - 1 := true], path[|path| - 1].r)
  {
    PathHeight(t, path, right, |path| - 1);
  }

  lemma TurnedUp(path: seq<Tree>, right: seq<bool>)
    requires |right| == |path| > 0 && (forall k :: 0 <= k < |path| ==> path[k].Bin?) && !right[|path| - 1]
    ensures var last := |path| - 1;
      Up(path, right) == [path[last].key] + (InOrder(path[last].r) + Up(path, right[last := true]))
  {
    var last := |path| - 1;
    var right' := right[last := true];
    UpLast(path, right);
    UpLast(path, right');
    assert right'[..last] == right[..last];
    assert Up(path, right') == Up(path[..last], right[..last]);
    Regroup([path[last].key], InOrder(path[last].r), Up(path, right'));
  }

  /** The parent of an empty left side is visited, and all up to `k` is finished. */
  lemma Finished(t: Tree, path: seq<Tree>, right: seq<bool>, k: nat)
    requires Visiting(t, path, right, Nil) && k < |path| && path[|path| - 1].r == Nil && (k > 0 ==> !right[k - 1])
    requires Up(path[..k], right[..k]) == Up(path[..|path| - 1], right[..|path| - 1])
    ensures Visiting(t, path[..k], right[..k], Nil)
    ensures [path[|path| - 1].key] + RestOf(t, path[..k], right[..k], Nil) == RestOf(t, path, right, Nil)
  {
    FinishedVisits(t, path, right, k);
    FinishedUp(path, right, k);
  }

  lemma FinishedVisits(t: Tree, path: seq<Tree>, right: seq<bool>, k: nat)
    requires Visiting(t, path, right, Nil) && k < |path| && (k > 0 ==> !right[k - 1])
    ensures Visiting(t, path[..k], right[..k], Nil)
  {
  }

  lemma FinishedUp(path: seq<Tree>, right: seq<bool>, k: nat)
    requires |right| == |path| > k && (forall i :: 0 <= i < |path| ==> path[i].Bin?)
    requires !right[|path| - 1] && path[|path| - 1].r == Nil
    requires Up(path[..k], right[..k]) == Up(path[..|path| - 1], right[..|path| - 1])
    ensures Up(path, right) == [path[|path| - 1].key] + ([] + Up(path[..k], right[..k]))
  {
    var last := |path| - 1;
    UpLast(path, right);
    Regroup([path[last].key], [], Up(path[..last], right[..last]));
  }

  function RootOf(t: Tree): AvlNode? { if t.Nil? then null else t.n }

  class AvlIter {
    var height: nat
    const nodes: array<AvlNode?>
    ghost const root: AvlNode?
    ghost const t: Tree
    ghost var path: seq<Tree>
    ghost var right: seq<bool>
    ghost var head: Tree

    ghost predicate Valid()
      reads this, nodes, Nodes(t)
    {
      && Shape(root, t) && nodes.Length == Height(t) + 1
      && Visiting(t, path, right, head) && height == |path|
      && (forall k :: 0 <= k < height ==> nodes[k] == path[k].n)
      && nodes[height] == RootOf(head)
    }

    /** The keys that are still to come. */
    ghost function Rest(): seq<int>
      requires Valid()
      reads this, nodes, Nodes(t)
    {
      RestOf(t, path, right, head)
    }

    constructor (root: AvlNode?, ghost t: Tree)
      requires Shape(root, t) && Exact(t)
      ensures Valid() && Rest() == InOrder(t) && this.t == t && fresh(nodes)
    {
      ExactIsHeight(t);
      var max := if root != null then root.height + 1 else 1;
      height := 0;
      nodes := new AvlNode?[max](_ => null);
      this.root, this.t := root, t;
      path, right, head := [], [], t;
      new;
      nodes[0] := root;
    }

    /** The node with the next key; NULL when there is none. */
    method Next() returns (result: AvlNode?)
      requires Valid()
      modifies this, nodes
      ensures Valid()
      ensures result == null <==> old(Rest()) == []
      ensures result != null ==> result in Nodes(t) && [result.data] + Rest() == old(Rest())
      ensures result == null ==> Rest() == []
    {
      if nodes[0] == null { return null; }
      GoLeft();
      PathShape(root, t, path, right, height - 1);
      result := nodes[height - 1];
      if result.right != null {
        GoRight();
      } else {
        Backtrack();
      }
    }

    /** Goes down to the leftmost node. */
    method GoLeft()
      requires Valid() && nodes[0] != null
      modifies this, nodes
      ensures Valid() && Rest() == old(Rest()) && head == Nil && height > 0
    {
      while nodes[height] != null
        invariant Valid() && Rest() == old(Rest()) && (head.Bin? || height > 0)
        decreases head
      {
        Pushed(t, path, right, head);
        PushLeft();
      }
    }

    method PushLeft()
      requires Valid() && head.Bin?
      modifies this, nodes
      ensures Valid() && path == old(path) + [old(head)] && right == old(right) + [false] && head == old(head.l)
    {
      StoreLeft();
      PushedVisits(t, path, right, head);
      height := height + 1;
      path, right, head := path + [head], right + [false], head.l;
    }

    method StoreLeft()
      requires Valid() && head.Bin?
      modifies nodes
      ensures Valid()
      ensures height + 1 < nodes.Length && nodes[height] == head.n && nodes[height + 1] == RootOf(head.l)
    {
      HeadShape();
      nodes[height + 1] := nodes[height].left;
    }

    lemma HeadShape()
      requires Valid() && head.Bin?
      ensures Shape(nodes[height], head) && nodes[height].left == RootOf(head.l)
    {
      if height > 0 { PathShape(root, t, path, right, height - 1); }
      assert Shape(nodes[height].left, head.l);
    }

    method GoRight()
      requires Valid() && height > 0 && head == Nil && path[height - 1].r.Bin?
      modifies this, nodes
      ensures Valid() && [old(path[height - 1]).key] + Rest() == old(Rest())
    {
      PathShape(root, t, path, right, height - 1);
      Turned(t, path, right);
      assert Shape(nodes[height - 1].right, path[height - 1].r);
      nodes[height] := nodes[height - 1].right;
      head, right := path[height - 1].r, right[height - 1 := true];
    }

    /** Drops the nodes that are finished. */
    method Backtrack()
      requires Valid() && height > 0 && head == Nil && path[height - 1].r == Nil
      modifies this, nodes
      ensures Valid() && [old(path[height - 1]).key] + Rest() == old(Rest()) && head == Nil
    {
      Reached(root, t);
      height := height - 1;
      UpToLeft();
      Finished(t, path, right, height);
      CutPath();
    }

    /** The node at the current height is dropped, and what is below it. */
    method CutPath()
      requires Shape(root, t) && nodes.Length == Height(t) + 1 && height < |path| == |right| && |path| < nodes.Length
      requires Visiting(t, path[..height], right[..height], Nil) && head == Nil
      requires forall k :: 0 <= k < height ==> nodes[k] == path[k].n
      modifies this`path, this`right, nodes
      ensures Valid() && path == old(path[..height]) && right == old(right[..height])
    {
      nodes[height] := null;
      path, right := path[..height], right[..height];
    }

    /** On the way up, nodes that are right children are finished as well. */
    method UpToLeft()
      requires height < |path| < nodes.Length && Shape(root, t) && Descends(t, path, right)
      requires forall k :: 0 <= k < |path| ==> nodes[k] == path[k].n
      modifies this`height
      ensures height <= old(height) && (height > 0 ==> !right[height - 1])
      ensures Up(path[..height], right[..height]) == Up(path[..old(height)], right[..old(height)])
    {
      Reached(root, t);
      while height > 0 && FromRight()
        invariant 0 <= height <= old(height) && Shape(root, t)
        invariant Up(path[..height], right[..height]) == Up(path[..old(height)], right[..old(height)])
      {
        WhichChild();
        UpLast(path[..height], right[..height]);
        assert path[..height][..height - 1] == path[..height - 1];
        assert right[..height][..height - 1] == right[..height - 1];
        height := height - 1;
      }
      if height > 0 { WhichChild(); }
    }

    /** The node at the current height is the right child of the one before. */
    predicate FromRight()
      requires 0 < height < nodes.Length && nodes[height - 1] != null
      reads this, nodes, nodes[height - 1]
    {
      nodes[height] == nodes[height - 1].right
    }

    lemma WhichChild()
      requires 0 < height < |path| == |right| && |path| < nodes.Length
      requires Shape(root, t) && Descends(t, path, right)
      requires forall k :: 0 <= k < |path| ==> nodes[k] == path[k].n
      ensures FromRight() <==> right[height - 1]
    {
      PathShape(root, t, path, right, height - 1);
      var p := path[height - 1];
      assert path[height] == Child(p, right[height - 1]);
      assert Shape(p.n.left, p.l) && Shape(p.n.right, p.r) && Nodes(p.l) !! Nodes(p.r);
      assert path[height].n in Nodes(path[height]);
    }
  }

  ghost function Pending(node: AvlNode?, rest: seq<int>): seq<int> {
    if node == null then rest else [node.data] + rest
  }

  lemma NextKey(keys: seq<int>, key: int, rest: seq<int>)
    ensures keys + ([key] + rest) == (keys + [key]) + rest
  {
  }

  /** The iterator enumerates the tree in order, each node once. */
  method Enumerate(root: AvlNode?, ghost t: Tree) returns (keys: seq<int>)
    requires Shape(root, t) && Exact(t)
    ensures keys == InOrder(t)
  {
    var it := new AvlIter(root, t);
    keys := [];
    var node := it.Next();
    while node != null
      invariant it.Valid() && it.t == t && fresh(it) && fresh(it.nodes)
      invariant keys + Pending(node, it.Rest()) == InOrder(t) && (node == null ==> it.Rest() == [])
      decreases |it.Rest()|, node != null
    {
      NextKey(keys, node.data, it.Rest());
      keys := keys + [node.data];
      node := it.Next();
    }
  }
}
