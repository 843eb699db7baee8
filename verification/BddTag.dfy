/** The label tree of src/bdd_tag.cpp. */
module BddTag {
  /*
   It is a mutable trie that issues integer labels for sets of positions, and spells a set as a bit string: a left
   child continues with zeros, a right child with a one. A node's parent link leads to the label of the set without
   its last one. Positions are spelled one at a time, so every one-segment has length 1.
   */
  import opened Common

  const MAX_LB: nat := 0xFF_FFFF
  const ROOT: nat := 0

  datatype TagSeg = TagSeg(sign: bool, begin: nat, end: nat)

  datatype TagNode = TagNode(left: nat, right: nat, parent: nat, seg: TagSeg)

  // ---------- The meaning of a label ----------

  /** The positions along the parent links from `lb` to the root. */
  ghost function Meaning(nodes: seq<TagNode>, lb: nat): set<nat> {
    if lb == ROOT || lb >= |nodes| || nodes[lb].parent >= lb then {}
    else {nodes[lb].seg.begin} + Meaning(nodes, nodes[lb].parent)
  }

  /** The root and the nodes that end with a one; only these are issued as labels. */
  ghost predicate IsLabel(ones: set<nat>, lb: nat) { lb == ROOT || lb in ones }

  /** The label of the positions spelled on the way to the node. */
  ghost function Anchor(nodes: seq<TagNode>, ones: set<nat>, lb: nat): nat
    requires lb < |nodes|
  {
    if IsLabel(ones, lb) then lb else nodes[lb].parent
  }

  ghost predicate NodeOk(nodes: seq<TagNode>, ones: set<nat>, lb: nat)
    requires 0 < lb < |nodes|
  {
    var n := nodes[lb];
    && n.parent < lb && IsLabel(ones, n.parent)
    && nodes[n.parent].seg.end <= n.seg.begin < n.seg.end
    && (lb in ones ==> n.seg.end == n.seg.begin + 1)
  }

  /** The children continue where the node ends, and know the label of what has been spelled so far. */
  ghost predicate ChildrenOk(nodes: seq<TagNode>, ones: set<nat>, lb: nat)
    requires lb < |nodes|
  {
    var n := nodes[lb];
    && (n.left != 0 ==>
          && n.left < |nodes| && n.left !in ones
          && nodes[n.left].seg.begin == n.seg.end && nodes[n.left].parent == Anchor(nodes, ones, lb))
    && (n.right != 0 ==>
          && n.right < |nodes| && n.right in ones
          && nodes[n.right].seg.begin == n.seg.end && nodes[n.right].parent == Anchor(nodes, ones, lb))
  }

  ghost predicate ValidTree(nodes: seq<TagNode>, ones: set<nat>) {
    && 0 < |nodes| <= MAX_LB
    && nodes[ROOT].seg.begin == nodes[ROOT].seg.end == 0
    && (forall lb :: lb in ones ==> 0 < lb < |nodes|)
    && (forall lb :: 0 < lb < |nodes| ==> NodeOk(nodes, ones, lb))
    && (forall lb :: 0 <= lb < |nodes| ==> ChildrenOk(nodes, ones, lb))
    && (forall x, y :: 0 <= x < y < |nodes| && nodes[x].left == nodes[y].left ==> nodes[x].left == 0)
  }

  /** What later operations leave alone: parents, ends, and whole segments of labels. */
  ghost predicate Kept(nodes: seq<TagNode>, ones: set<nat>, nodes': seq<TagNode>, ones': set<nat>) {
    && |nodes| <= |nodes'|
    && (forall lb :: 0 <= lb < |nodes| ==> (lb in ones <==> lb in ones'))
    && (forall lb :: 0 <= lb < |nodes| ==>
          nodes'[lb].parent == nodes[lb].parent && nodes'[lb].seg.end == nodes[lb].seg.end)
    && (forall lb :: 0 <= lb < |nodes| && lb in ones ==> nodes'[lb].seg.begin == nodes[lb].seg.begin)
  }

  lemma KeptTransitive(a: seq<TagNode>, ones: set<nat>, b: seq<TagNode>, bs: set<nat>, c: seq<TagNode>, cs: set<nat>)
    requires Kept(a, ones, b, bs) && Kept(b, bs, c, cs)
    ensures Kept(a, ones, c, cs)
  {
  }

  /** Labels keep their meaning although the trie is rewired in place. */
  lemma {:induction false} MeaningKept(nodes: seq<TagNode>, ones: set<nat>,
                                       nodes': seq<TagNode>, ones': set<nat>, lb: nat)
    requires ValidTree(nodes, ones) && Kept(nodes, ones, nodes', ones')
    requires lb < |nodes| && IsLabel(ones, lb)
    ensures Meaning(nodes', lb) == Meaning(nodes, lb)
  {
    if lb != ROOT {
      assert NodeOk(nodes, ones, lb);
      MeaningKept(nodes, ones, nodes', ones', nodes[lb].parent);
    }
  }

  lemma MeaningsKept(nodes: seq<TagNode>, ones: set<nat>, nodes': seq<TagNode>, ones': set<nat>)
    requires ValidTree(nodes, ones) && Kept(nodes, ones, nodes', ones')
    ensures forall lb :: 0 <= lb < |nodes| && IsLabel(ones, lb) ==>
      IsLabel(ones', lb) && Meaning(nodes', lb) == Meaning(nodes, lb)
  {
    forall lb | 0 <= lb < |nodes| && IsLabel(ones, lb) ensures Meaning(nodes', lb) == Meaning(nodes, lb) {
      MeaningKept(nodes, ones, nodes', ones', lb);
    }
  }

  lemma {:induction false} MeaningBelow(nodes: seq<TagNode>, ones: set<nat>, lb: nat)
    requires ValidTree(nodes, ones) && lb < |nodes| && IsLabel(ones, lb)
    ensures forall p :: p in Meaning(nodes, lb) ==> p <= nodes[lb].seg.begin && p < nodes[lb].seg.end
  {
    if lb != ROOT {
      assert NodeOk(nodes, ones, lb);
      MeaningBelow(nodes, ones, nodes[lb].parent);
    }
  }

  lemma MeaningOfOne(nodes: seq<TagNode>, ones: set<nat>, lb: nat)
    requires ValidTree(nodes, ones) && lb < |nodes| && lb in ones
    ensures Meaning(nodes, lb) == {nodes[lb].seg.begin} + Meaning(nodes, nodes[lb].parent)
    ensures nodes[lb].seg.begin !in Meaning(nodes, nodes[lb].parent)
  {
    assert NodeOk(nodes, ones, lb);
    MeaningBelow(nodes, ones, nodes[lb].parent);
  }

  // ---------- Signs ----------

  /** The positions along the parent links from `lb` whose nodes are signed in `flags`. */
  ghost function Signs(nodes: seq<TagNode>, lb: nat, flags: seq<TagNode>): set<nat> {
    if lb == ROOT || lb >= |nodes| || nodes[lb].parent >= lb then {}
    else SignAt(nodes, lb, flags) + Signs(nodes, nodes[lb].parent, flags)
  }

  ghost function SignAt(nodes: seq<TagNode>, lb: nat, flags: seq<TagNode>): set<nat>
    requires lb < |nodes|
  {
    if lb < |flags| && flags[lb].seg.sign then {nodes[lb].seg.begin} else {}
  }

  lemma {:induction false} SignsKept(nodes: seq<TagNode>, ones: set<nat>, nodes': seq<TagNode>, ones': set<nat>,
                                     lb: nat, flags: seq<TagNode>)
    requires ValidTree(nodes, ones) && Kept(nodes, ones, nodes', ones')
    requires lb < |nodes| && IsLabel(ones, lb)
    ensures Signs(nodes', lb, flags) == Signs(nodes, lb, flags)
  {
    if lb != ROOT {
      assert NodeOk(nodes, ones, lb);
      SignsKept(nodes, ones, nodes', ones', nodes[lb].parent, flags);
    }
  }

  /** Signs that agree on the nodes up to `lb` are the same. */
  lemma {:induction false} SignsSame(nodes: seq<TagNode>, ones: set<nat>, lb: nat, f: seq<TagNode>, g: seq<TagNode>)
    requires ValidTree(nodes, ones) && lb < |nodes| && IsLabel(ones, lb)
    requires forall x :: 0 < x <= lb ==> (x < |f| && f[x].seg.sign <==> x < |g| && g[x].seg.sign)
    ensures Signs(nodes, lb, f) == Signs(nodes, lb, g)
  {
    if lb != ROOT {
      assert NodeOk(nodes, ones, lb);
      SignsSame(nodes, ones, nodes[lb].parent, f, g);
    }
  }

  lemma {:induction false} SignsBelow(nodes: seq<TagNode>, ones: set<nat>, lb: nat, flags: seq<TagNode>)
    requires ValidTree(nodes, ones) && lb < |nodes| && IsLabel(ones, lb)
    ensures Signs(nodes, lb, flags) <= Meaning(nodes, lb)
  {
    if lb != ROOT {
      assert NodeOk(nodes, ones, lb);
      SignsBelow(nodes, ones, nodes[lb].parent, flags);
    }
  }

  /** The last position of a label is signed exactly when its node is. */
  lemma SignsOfOne(nodes: seq<TagNode>, ones: set<nat>, lb: nat, flags: seq<TagNode>)
    requires ValidTree(nodes, ones) && lb < |nodes| && lb in ones
    ensures Signs(nodes, lb, flags) == SignAt(nodes, lb, flags) + Signs(nodes, nodes[lb].parent, flags)
    ensures nodes[lb].seg.begin in Signs(nodes, lb, flags) <==> lb < |flags| && flags[lb].seg.sign
  {
    assert NodeOk(nodes, ones, lb);
    MeaningOfOne(nodes, ones, lb);
    SignsBelow(nodes, ones, nodes[lb].parent, flags);
  }

  /** No sign is set or taken away, and new nodes have none. */
  ghost predicate SameSigns(before: seq<TagNode>, after: seq<TagNode>) {
    && |before| <= |after|
    && forall x :: 0 <= x < |after| ==> (after[x].seg.sign <==> x < |before| && before[x].seg.sign)
  }

  ghost function SignedBegins(nodes: seq<TagNode>, s: seq<nat>): set<nat>
    requires forall i :: 0 <= i < |s| ==> s[i] < |nodes|
  {
    set i | 0 <= i < |s| && nodes[s[i]].seg.sign :: nodes[s[i]].seg.begin
  }

  /** Signs may be set, and none is taken away. */
  ghost predicate KeepsSigns(before: seq<TagNode>, after: seq<TagNode>) {
    |before| <= |after| && forall x :: 0 <= x < |before| && before[x].seg.sign ==> after[x].seg.sign
  }

  lemma {:induction false} SignsGrow(nodes: seq<TagNode>, ones: set<nat>, lb: nat, f: seq<TagNode>, g: seq<TagNode>)
    requires ValidTree(nodes, ones) && lb < |nodes| && IsLabel(ones, lb) && KeepsSigns(f, g)
    ensures Signs(nodes, lb, f) <= Signs(nodes, lb, g)
  {
    if lb != ROOT {
      assert NodeOk(nodes, ones, lb);
      SignsGrow(nodes, ones, nodes[lb].parent, f, g);
    }
  }

  lemma SignsGrown(nodes: seq<TagNode>, ones: set<nat>, nodes': seq<TagNode>, ones': set<nat>)
    requires ValidTree(nodes, ones) && Kept(nodes, ones, nodes', ones') && KeepsSigns(nodes, nodes')
    ensures forall lb :: 0 <= lb < |nodes| && IsLabel(ones, lb) ==> Signs(nodes, lb, nodes) <= Signs(nodes', lb, nodes')
  {
    forall lb | 0 <= lb < |nodes| && IsLabel(ones, lb)
      ensures Signs(nodes, lb, nodes) <= Signs(nodes', lb, nodes')
    {
      SignsKept(nodes, ones, nodes', ones', lb, nodes');
      SignsGrow(nodes, ones, lb, nodes, nodes');
    }
  }

  lemma SignedBeginsMore(nodes: seq<TagNode>, s: seq<nat>, n: nat)
    requires 0 < n <= |s| && forall i :: 0 <= i < |s| ==> s[i] < |nodes|
    ensures SignedBegins(nodes, s[n - 1..]) == SignedBegins(nodes, s[n..]) + SignAt(nodes, s[n - 1], nodes)
  {
    var s', t := s[n - 1..], s[n..];
    assert s'[0] == s[n - 1];
    forall i | 0 <= i < |t| && nodes[t[i]].seg.sign ensures nodes[t[i]].seg.begin in SignedBegins(nodes, s') {
      assert s'[i + 1] == t[i];
    }
    forall i | 0 <= i < |s'| && nodes[s'[i]].seg.sign
      ensures nodes[s'[i]].seg.begin in SignedBegins(nodes, t) + SignAt(nodes, s[n - 1], nodes)
    {
      if i > 0 { assert s'[i] == t[i - 1]; }
    }
  }

  /**
   While combine spells the positions of the stack `st0`, of which the last `n` are left: the chain of `cur` has the
   signs that its nodes had at first, and those of the positions that have been spelled.
   */
  ghost predicate Signed(nodes: seq<TagNode>, ones: set<nat>, first: seq<TagNode>, firstOnes: set<nat>, st0: seq<nat>,
                         n: nat, cur: nat, base: nat)
  {
    && n <= |st0| && (forall i :: 0 <= i < |st0| ==> st0[i] < |first| && st0[i] in firstOnes)
    && |first| <= |nodes| && cur < |nodes| && IsLabel(ones, cur)
    && Signs(nodes, cur, nodes) == Signs(nodes, cur, first) + SignedBegins(first, st0[n..])
    && Signs(first, base, first) <= Signs(nodes, cur, first)
    && (forall i :: 0 <= i < n ==> (nodes[st0[i]].seg.sign <==> first[st0[i]].seg.sign))
    && forall x :: 0 <= x < |nodes| && x in ones && nodes[x].seg.begin >= nodes[cur].seg.end ==>
         (nodes[x].seg.sign <==> x < |first| && first[x].seg.sign)
  }

  // ---------- Sets of positions ----------

  ghost function Begins(nodes: seq<TagNode>, s: seq<nat>): set<nat>
    requires forall i :: 0 <= i < |s| ==> s[i] < |nodes|
  {
    set i | 0 <= i < |s| :: nodes[s[i]].seg.begin
  }

  function Reverse<T>(s: seq<T>): (r: seq<T>)
    ensures |r| == |s| && forall i :: 0 <= i < |s| ==> r[i] == s[|s| - 1 - i]
  {
    seq(|s|, i requires 0 <= i < |s| => s[|s| - 1 - i])
  }

  /** The positions that `find` lists and `combine` collects: it starts from MAX_LB downwards. */
  function Seen(s: set<nat>): set<nat> { set p | p in s && p < MAX_LB }

  /** No position below MAX_LB is missing, and there is no other one. */
  ghost predicate Covers(s: set<nat>, all: set<nat>) { Seen(all) <= s <= all }

  /** What covers the stack `st` and one chain covers everything, together with the other chain. */
  lemma CoversJoin(st': set<nat>, chain': set<nat>, st: set<nat>, chain: set<nat>, other: set<nat>, all: set<nat>)
    requires Covers(st' + chain', st + chain)
    requires Covers(st + chain + other, all) || Covers(st + other + chain, all)
    ensures Covers(st' + chain' + other, all) && Covers(st' + other + chain', all)
  {
    assert st + chain + other == st + other + chain && st' + chain' + other == st' + other + chain';
    assert forall p :: p in st + chain && p < MAX_LB ==> p in Seen(st + chain);
  }

  /** Position `b` is moved from the second set to the first, or is not seen. */
  lemma CoversMove(s: set<nat>, rest: set<nat>, b: nat, all: set<nat>)
    requires Covers(s + ({b} + rest), all)
    ensures b in all && Covers(s + {b} + rest, all) && (b >= MAX_LB ==> Covers(s + rest, all))
  {
    assert s + {b} + rest == s + ({b} + rest);
  }

  // ---------- Hanging a new node into the trie ----------

  /** The tree after a zero-node of `num` positions has been hung under `cur`, in front of what was there. */
  function LinkZeros(nodes: seq<TagNode>, cur: nat, num: nat, lastOne: nat): (r: seq<TagNode>)
    requires cur < |nodes| && nodes[cur].left < |nodes|
    ensures |r| == |nodes| + 1
  {
    var next, off := nodes[cur].left, nodes[cur].seg.end;
    var grown := nodes + [TagNode(0, 0, lastOne, TagSeg(false, off, off + num))];
    var linked := grown[cur := grown[cur].(left := |nodes|)];
    if next == 0 then linked else linked[next := linked[next].(seg := linked[next].seg.(begin := off + num))]
  }

  /** The tree after a one-node has been hung under `cur`. */
  function LinkOne(nodes: seq<TagNode>, cur: nat, lastOne: nat): (r: seq<TagNode>)
    requires cur < |nodes|
    ensures |r| == |nodes| + 1
  {
    var off := nodes[cur].seg.end;
    var grown := nodes + [TagNode(0, 0, lastOne, TagSeg(false, off, off + 1))];
    grown[cur := grown[cur].(right := |nodes|)]
  }

  /** The place for a new zero-node: nothing is there, or a longer zero-node. */
  ghost predicate ZerosFit(nodes: seq<TagNode>, ones: set<nat>, cur: nat, num: nat, lastOne: nat) {
    && ValidTree(nodes, ones) && |nodes| < MAX_LB && num > 0
    && cur < |nodes| && lastOne == Anchor(nodes, ones, cur) && nodes[cur].left < |nodes|
    && (nodes[cur].left != 0 ==> nodes[nodes[cur].left].seg.end > nodes[cur].seg.end + num)
  }

  lemma LinkZerosNodes(nodes: seq<TagNode>, ones: set<nat>, cur: nat, num: nat, lastOne: nat, x: nat)
    requires ZerosFit(nodes, ones, cur, num, lastOne) && 0 < x <= |nodes|
    ensures NodeOk(LinkZeros(nodes, cur, num, lastOne), ones, x)
  {
    assert ChildrenOk(nodes, ones, cur);
    if cur > 0 { assert NodeOk(nodes, ones, cur); }
    if nodes[cur].left != 0 { assert NodeOk(nodes, ones, nodes[cur].left); }
    if x < |nodes| { assert NodeOk(nodes, ones, x); }
  }

  lemma LinkZerosChildren(nodes: seq<TagNode>, ones: set<nat>, cur: nat, num: nat, lastOne: nat, x: nat)
    requires ZerosFit(nodes, ones, cur, num, lastOne) && x <= |nodes|
    ensures ChildrenOk(LinkZeros(nodes, cur, num, lastOne), ones, x)
  {
    var next := nodes[cur].left;
    assert ChildrenOk(nodes, ones, cur);
    if x < |nodes| {
      assert ChildrenOk(nodes, ones, x);
      if x != cur && next != 0 { assert nodes[x].left != next; }
    }
  }

  lemma LinkZerosLefts(nodes: seq<TagNode>, ones: set<nat>, cur: nat, num: nat, lastOne: nat, x: nat, y: nat)
    requires ZerosFit(nodes, ones, cur, num, lastOne) && x < y <= |nodes|
    requires LinkZeros(nodes, cur, num, lastOne)[x].left == LinkZeros(nodes, cur, num, lastOne)[y].left
    ensures LinkZeros(nodes, cur, num, lastOne)[x].left == 0
  {
    if y < |nodes| {
      assert ChildrenOk(nodes, ones, x) && ChildrenOk(nodes, ones, y);
    }
  }

  lemma LinkZerosValid(nodes: seq<TagNode>, ones: set<nat>, cur: nat, num: nat, lastOne: nat)
    requires ZerosFit(nodes, ones, cur, num, lastOne)
    ensures ValidTree(LinkZeros(nodes, cur, num, lastOne), ones)
    ensures Kept(nodes, ones, LinkZeros(nodes, cur, num, lastOne), ones)
  {
    var r := LinkZeros(nodes, cur, num, lastOne);
    assert ChildrenOk(nodes, ones, cur);
    forall x | 0 < x < |r| ensures NodeOk(r, ones, x) { LinkZerosNodes(nodes, ones, cur, num, lastOne, x); }
    forall x | 0 <= x < |r| ensures ChildrenOk(r, ones, x) { LinkZerosChildren(nodes, ones, cur, num, lastOne, x); }
    forall x, y | 0 <= x < y < |r| && r[x].left == r[y].left ensures r[x].left == 0 {
      LinkZerosLefts(nodes, ones, cur, num, lastOne, x, y);
    }
  }

  lemma LinkOneValid(nodes: seq<TagNode>, ones: set<nat>, cur: nat, lastOne: nat)
    requires ValidTree(nodes, ones) && |nodes| < MAX_LB && cur < |nodes|
    requires lastOne == Anchor(nodes, ones, cur) && nodes[cur].right == 0
    ensures ValidTree(LinkOne(nodes, cur, lastOne), ones + {|nodes|})
    ensures Kept(nodes, ones, LinkOne(nodes, cur, lastOne), ones + {|nodes|})
  {
    var r, ones' := LinkOne(nodes, cur, lastOne), ones + {|nodes|};
    if cur > 0 { assert NodeOk(nodes, ones, cur); }
    forall x | 0 < x < |r| ensures NodeOk(r, ones', x) {
      if x < |nodes| { assert NodeOk(nodes, ones, x); }
    }
    forall x | 0 <= x < |r| ensures ChildrenOk(r, ones', x) {
      if x < |nodes| { assert ChildrenOk(nodes, ones, x); }
    }
    forall x, y | 0 <= x < y < |r| && r[x].left == r[y].left ensures r[x].left == 0 {
      if y < |nodes| { assert nodes[x].left == r[x].left && nodes[y].left == r[y].left; }
    }
  }

  class BDDTag {
    var nodes: seq<TagNode>
    ghost var ones: set<nat>

    ghost predicate Valid()
      reads this
    {
      ValidTree(nodes, ones)
    }

    /** A label that the tree has issued. */
    ghost predicate Issued(lb: nat)
      reads this
    {
      lb < |nodes| && IsLabel(ones, lb)
    }

    ghost function SetOf(lb: nat): set<nat>
      reads this
    {
      Meaning(nodes, lb)
    }

    /** The positions of the set that are signed. */
    ghost function SignsOf(lb: nat): set<nat>
      reads this
    {
      Signs(nodes, lb, nodes)
    }

    constructor ()
      ensures Valid() && Issued(ROOT) && SetOf(ROOT) == {} && |nodes| == 1
    {
      nodes := [TagNode(0, 0, ROOT, TagSeg(false, 0, 0))];
      ones := {};
    }

    /** Appends a node, or fails when the labels are used up (where the program divides by zero). */
    method AllocNode(parent: nat, begin: nat, end: nat) returns (r: Option<nat>)
      requires |nodes| <= MAX_LB
      modifies this`nodes
      ensures r.None? <==> old(|nodes|) == MAX_LB
      ensures r.None? ==> nodes == old(nodes)
      ensures r.Some? ==>
        && r.value == old(|nodes|)
        && nodes == old(nodes) + [TagNode(0, 0, parent, TagSeg(false, begin, end))]
    {
      var lb := |nodes|;
      if lb < MAX_LB {
        nodes := nodes + [TagNode(0, 0, parent, TagSeg(false, begin, end))];
        r := Some(lb);
      } else {
        r := None;
      }
    }

    /** Hangs a new zero-node under `cur`; a longer zero-node that was there is cut off and starts later. */
    method NewZeros(cur: nat, num: nat, lastOne: nat) returns (r: Option<nat>)
      requires Valid() && num > 0 && cur < |nodes| && lastOne == Anchor(nodes, ones, cur)
      requires nodes[cur].left < |nodes|
      requires nodes[cur].left != 0 ==> nodes[nodes[cur].left].seg.end > nodes[cur].seg.end + num
      modifies this`nodes
      ensures Valid() && Kept(old(nodes), ones, nodes, ones)
      ensures r.None? ==> old(|nodes|) == MAX_LB
      ensures |nodes| <= old(|nodes|) + 1 && SameSigns(old(nodes), nodes)
      ensures r.Some? ==> r.value == old(|nodes|) && nodes == LinkZeros(old(nodes), cur, num, lastOne)
    {
      var next, off := nodes[cur].left, nodes[cur].seg.end;
      r := AllocNode(lastOne, off, off + num);
      if r.None? { return; }
      nodes := nodes[cur := nodes[cur].(left := r.value)];
      if next != 0 {
        nodes := nodes[next := nodes[next].(seg := nodes[next].seg.(begin := off + num))];
      }
      assert nodes == LinkZeros(old(nodes), cur, num, lastOne);
      LinkZerosValid(old(nodes), ones, cur, num, lastOne);
    }

    /** Spells `num` zeros from `cur` on. */
    method InsertNZeros(cur0: nat, num0: nat, lastOne: nat) returns (r: Option<nat>)
      requires Valid() && cur0 < |nodes| && lastOne == Anchor(nodes, ones, cur0)
      modifies this
      ensures Valid() && Kept(old(nodes), old(ones), nodes, ones)
      ensures r.None? ==> old(|nodes|) == MAX_LB
      ensures |nodes| <= old(|nodes|) + 1 && SameSigns(old(nodes), nodes)
      ensures r.Some? ==>
        && r.value < |nodes| && Anchor(nodes, ones, r.value) == lastOne
        && nodes[r.value].seg.end == old(nodes[cur0].seg.end) + num0
    {
      var cur: nat, num: nat := cur0, num0;
      while num != 0
        invariant Valid() && Kept(old(nodes), old(ones), nodes, ones) && SameSigns(old(nodes), nodes)
        invariant |nodes| <= old(|nodes|) + (if num == 0 then 1 else 0)
        invariant cur < |nodes| && Anchor(nodes, ones, cur) == lastOne
        invariant nodes[cur].seg.end + num == old(nodes[cur0].seg.end) + num0
      {
        var next := nodes[cur].left;
        assert ChildrenOk(nodes, ones, cur);
        assert next != 0 ==> NodeOk(nodes, ones, next);
        if next == 0 || nodes[next].seg.end - nodes[next].seg.begin > num {
          r := NewZeros(cur, num, lastOne);
          if r.None? { return; }
          cur, num := r.value, 0;
        } else {
          num := num - (nodes[next].seg.end - nodes[next].seg.begin);
          cur := next;
        }
      }
      r := Some(cur);
    }

    /**
     Spells a one after `cur`. Every one-segment has length 1, so an existing right child is always taken
     as it is, and the loop of the source makes one turn.
     */
    method InsertOne(cur: nat, lastOne: nat) returns (r: Option<nat>)
      requires Valid() && cur < |nodes| && lastOne == Anchor(nodes, ones, cur)
      modifies this
      ensures Valid() && Kept(old(nodes), old(ones), nodes, ones)
      ensures r.None? ==> old(|nodes|) == MAX_LB
      ensures |nodes| <= old(|nodes|) + 1 && SameSigns(old(nodes), nodes)
      ensures r.Some? ==>
        && r.value < |nodes| && r.value in ones
        && nodes[r.value].seg.begin == old(nodes[cur].seg.end) && nodes[r.value].parent == lastOne
    {
      var next := nodes[cur].right;
      assert ChildrenOk(nodes, ones, cur);
      assert cur > 0 ==> NodeOk(nodes, ones, cur);
      if next != 0 {
        assert NodeOk(nodes, ones, next);
        assert nodes[next].seg.end - nodes[cur].seg.end == 1;
        return Some(next);
      }
      var off := nodes[cur].seg.end;
      r := AllocNode(lastOne, off, off + 1);
      if r.None? { return; }
      nodes := nodes[cur := nodes[cur].(right := r.value)];
      ones := ones + {r.value};
      LinkOneValid(old(nodes), old(ones), cur, lastOne);
      assert nodes == LinkOne(old(nodes), cur, lastOne);
    }

    /** The label of the single position `pos`. No sign changes. */
    method Insert(pos: nat) returns (r: Option<nat>)
      requires Valid()
      modifies this
      ensures Valid() && Kept(old(nodes), old(ones), nodes, ones) && SameSigns(old(nodes), nodes)
      ensures forall lb :: old(Issued(lb)) ==> Issued(lb) && SetOf(lb) == old(SetOf(lb))
      ensures forall lb :: old(Issued(lb)) ==> SignsOf(lb) == old(SignsOf(lb))
      ensures |nodes| <= old(|nodes|) + 2 && (r.None? ==> old(|nodes|) + 2 > MAX_LB)
      ensures r.Some? ==> Issued(r.value) && SetOf(r.value) == {pos}
    {
      var z := InsertNZeros(ROOT, pos, ROOT);
      MeaningsKept(old(nodes), old(ones), nodes, ones);
      AllSignsKept(old(nodes), old(ones));
      if z.None? { return None; }
      r := InsertOne(z.value, ROOT);
      MeaningsKept(old(nodes), old(ones), nodes, ones);
      AllSignsKept(old(nodes), old(ones));
      if r.Some? {
        MeaningOfOne(nodes, ones, r.value);
      }
    }

    lemma AllSignsKept(before: seq<TagNode>, beforeOnes: set<nat>)
      requires ValidTree(before, beforeOnes) && Kept(before, beforeOnes, nodes, ones) && SameSigns(before, nodes)
      ensures forall lb :: 0 <= lb < |before| && IsLabel(beforeOnes, lb) ==> SignsOf(lb) == Signs(before, lb, before)
    {
      forall lb | 0 <= lb < |before| && IsLabel(beforeOnes, lb) ensures SignsOf(lb) == Signs(before, lb, before) {
        SignsKept(before, beforeOnes, nodes, ones, lb, nodes);
        SignsSame(before, beforeOnes, lb, nodes, before);
      }
    }

    /** The last position of a label becomes signed. */
    method SetSign(lb: nat)
      requires Valid() && lb < |nodes|
      modifies this`nodes
      ensures Valid() && Kept(old(nodes), old(ones), nodes, ones)
      ensures nodes == old(nodes)[lb := old(nodes)[lb].(seg := old(nodes)[lb].seg.(sign := true))]
    {
      ghost var first := nodes;
      nodes := nodes[lb := nodes[lb].(seg := nodes[lb].seg.(sign := true))];
      forall x | 0 < x < |nodes| ensures NodeOk(nodes, ones, x) { assert NodeOk(first, ones, x); }
      forall x | 0 <= x < |nodes| ensures ChildrenOk(nodes, ones, x) { assert ChildrenOk(first, ones, x); }
    }

    /** The stack holds labels, deepest position first. */
    ghost predicate StackOk(st: seq<nat>)
      reads this
    {
      && (forall i :: 0 <= i < |st| ==> st[i] < |nodes| && st[i] in ones && nodes[st[i]].seg.begin < MAX_LB)
      && (forall i, j :: 0 <= i < j < |st| ==> nodes[st[i]].seg.begin > nodes[st[j]].seg.begin)
    }

    /**
     Walks both chains down from the larger position, collecting each position once, until they meet or one
     of them ends. What remains is the chain of `base`.
     */
    method Collect(a: nat, b: nat) returns (st: seq<nat>, base: nat)
      requires Valid() && Issued(a) && Issued(b)
      ensures StackOk(st) && Issued(base)
      ensures Covers(Begins(nodes, st) + SetOf(base), SetOf(a) + SetOf(b))
      ensures |st| <= |Seen(SetOf(a) + SetOf(b))|
      ensures PicksWell(st, base, Picked(a, b), SetOf(a) + SetOf(b))
      ensures st != [] ==> nodes[base].seg.begin <= nodes[st[|st| - 1]].seg.begin
    {
      var l1, l2, lastBegin := a, b, MAX_LB;
      st := [];
      while l1 > 0 && l1 != l2
        invariant Walk(st, l1, l2, lastBegin, SetOf(a) + SetOf(b)) && Tracks(st, l1, l2, lastBegin, a, b)
        decreases l1 + l2
      {
        st, lastBegin, l1, l2 := CollectTurn(st, l1, l2, lastBegin, a, b);
      }
      base := if l1 > 0 then l1 else l2;
      TracksEnd(st, l1, l2, lastBegin, a, b, base);
      StackSize(st, SetOf(a) + SetOf(b));
    }

    /** The signs that combine takes over: those of `a`, and those of `b` at positions that `a` does not have. */
    ghost function Picked(a: nat, b: nat): set<nat>
      reads this
    {
      Seen(SignsOf(a) + (SignsOf(b) - SetOf(a)))
    }

    /** The smaller label comes first. */
    ghost function PickedOf(a: nat, b: nat): set<nat>
      reads this
    {
      if a > b then Picked(b, a) else Picked(a, b)
    }

    /** The signs on the stack and on the chain of `base` are those that are taken over. */
    ghost predicate PicksWell(st: seq<nat>, base: nat, picked: set<nat>, all: set<nat>)
      requires StackOk(st)
      reads this
    {
      forall p :: p in Seen(all) ==>
        (p in picked <==> if p in Begins(nodes, st) then p in SignedBegins(nodes, st) else p in SignsOf(base))
    }

    /** The chains are those of `a` and `b` as far as the stack has not covered them. */
    ghost predicate Tracks(st: seq<nat>, l1: nat, l2: nat, lastBegin: nat, a: nat, b: nat)
      requires StackOk(st)
      reads this
    {
      Picks(st, Picked(a, b)) && TracksChain(l1, a, lastBegin) && TracksChain(l2, b, lastBegin)
    }

    ghost predicate Picks(st: seq<nat>, picked: set<nat>)
      requires StackOk(st)
      reads this
    {
      forall p :: p in Begins(nodes, st) ==> (p in SignedBegins(nodes, st) <==> p in picked)
    }

    ghost predicate TracksChain(l: nat, a: nat, lastBegin: nat)
      reads this
    {
      forall p :: 0 <= p < lastBegin ==>
        (p in SetOf(l) <==> p in SetOf(a)) && (p in SignsOf(l) <==> p in SignsOf(a))
    }

    lemma PicksStep(st: seq<nat>, l1: nat, l2: nat, lastBegin: nat, st': seq<nat>, a: nat, b: nat)
      requires Valid() && Issued(l1) && Issued(l2) && l1 > 0 && StackOk(st) && StackOk(st') && lastBegin <= MAX_LB
      requires Picks(st, Picked(a, b)) && TracksChain(l1, a, lastBegin) && TracksChain(l2, b, lastBegin)
      requires st' == if nodes[Next(l1, l2)].seg.begin < lastBegin then st + [Next(l1, l2)] else st
      ensures Picks(st', Picked(a, b))
    {
      if nodes[Next(l1, l2)].seg.begin < lastBegin {
        assert nodes[Next(l1, l2)].seg.begin in Picked(a, b) <==> nodes[Next(l1, l2)].seg.sign by {
          TopPicked(l1, l2, lastBegin, a, b);
        }
        StackPicked(st, Next(l1, l2), Picked(a, b));
      }
    }

    lemma ChainsStep(l1: nat, l2: nat, lastBegin: nat, l1': nat, l2': nat, lastBegin': nat, a: nat, b: nat)
      requires Valid() && Issued(l1) && Issued(l2) && l1 > 0
      requires TracksChain(l1, a, lastBegin) && TracksChain(l2, b, lastBegin)
      requires lastBegin' == Min(lastBegin, nodes[Next(l1, l2)].seg.begin)
      requires l1' == (if Next(l1, l2) == l1 then nodes[l1].parent else l1)
      requires l2' == (if Next(l1, l2) == l1 then l2 else nodes[l2].parent)
      ensures TracksChain(l1', a, lastBegin') && TracksChain(l2', b, lastBegin')
    {
      if Next(l1, l2) == l1 {
        ChainShorter(l1, a, lastBegin);
      } else {
        ChainShorter(l2, b, lastBegin);
      }
    }

    /** The chain with the larger next position, or the first one. */
    ghost function Next(l1: nat, l2: nat): nat
      requires l1 < |nodes| && l2 < |nodes|
      reads this
    {
      if nodes[l1].seg.begin < nodes[l2].seg.begin then l2 else l1
    }

    lemma StackPicked(st: seq<nat>, lb: nat, picked: set<nat>)
      requires StackOk(st) && lb < |nodes| && StackOk(st + [lb])
      requires nodes[lb].seg.begin in picked <==> nodes[lb].seg.sign
      requires Picks(st, picked)
      ensures Picks(st + [lb], picked)
    {
      StackSigns(st, lb);
      forall p | p in SignedBegins(nodes, st) ensures p in Begins(nodes, st) {
        var i :| 0 <= i < |st| && nodes[st[i]].seg.sign && p == nodes[st[i]].seg.begin;
      }
    }

    lemma ChainShorter(l: nat, a: nat, lastBegin: nat)
      requires Valid() && Issued(l) && l > 0 && TracksChain(l, a, lastBegin)
      ensures TracksChain(nodes[l].parent, a, Min(lastBegin, nodes[l].seg.begin))
    {
      MeaningOfOne(nodes, ones, l);
      SignsOfOne(nodes, ones, l, nodes);
    }

    /** The larger of the two next positions is taken over with its sign; at equal ones that of the first chain is. */
    lemma TopPicked(l1: nat, l2: nat, lastBegin: nat, a: nat, b: nat)
      requires Valid() && Issued(l1) && Issued(l2) && l1 > 0 && lastBegin <= MAX_LB
      requires TracksChain(l1, a, lastBegin) && TracksChain(l2, b, lastBegin)
      ensures var lb := Next(l1, l2);
        nodes[lb].seg.begin < lastBegin ==> (nodes[lb].seg.begin in Picked(a, b) <==> nodes[lb].seg.sign)
    {
      var lb := Next(l1, l2);
      MeaningOfOne(nodes, ones, lb);
      SignsOfOne(nodes, ones, lb, nodes);
      MeaningBelow(nodes, ones, l1);
      SignsBelow(nodes, ones, l1, nodes);
      assert nodes[lb].seg.begin in SetOf(lb);
    }

    lemma StackSigns(st: seq<nat>, lb: nat)
      requires StackOk(st) && lb < |nodes|
      ensures Begins(nodes, st + [lb]) == Begins(nodes, st) + {nodes[lb].seg.begin}
      ensures SignedBegins(nodes, st + [lb]) == SignedBegins(nodes, st) + SignAt(nodes, lb, nodes)
    {
      var st' := st + [lb];
      assert st'[|st|] == lb;
      forall i | 0 <= i < |st| ensures nodes[st[i]].seg.begin in Begins(nodes, st') { assert st'[i] == st[i]; }
      forall i | 0 <= i < |st| && nodes[st[i]].seg.sign ensures nodes[st[i]].seg.begin in SignedBegins(nodes, st') {
        assert st'[i] == st[i];
      }
    }

    lemma TracksEnd(st: seq<nat>, l1: nat, l2: nat, lastBegin: nat, a: nat, b: nat, base: nat)
      requires Valid() && Issued(a) && Issued(b)
      requires Walk(st, l1, l2, lastBegin, SetOf(a) + SetOf(b)) && Tracks(st, l1, l2, lastBegin, a, b)
      requires l1 == 0 || l1 == l2
      requires base == if l1 > 0 then l1 else l2
      ensures PicksWell(st, base, Picked(a, b), SetOf(a) + SetOf(b))
    {
      MeaningBelow(nodes, ones, base);
      forall p | p in Seen(SetOf(a) + SetOf(b)) && p !in Begins(nodes, st)
        ensures p in Picked(a, b) <==> p in SignsOf(base)
      {
        assert p in SetOf(base);
        assert st != [] ==> nodes[st[|st| - 1]].seg.begin in Begins(nodes, st);
        assert p < lastBegin;
        SignsBelow(nodes, ones, b, nodes);
      }
    }

    /** The stack holds different positions below MAX_LB. */
    lemma StackSize(st: seq<nat>, all: set<nat>)
      requires StackOk(st) && Begins(nodes, st) <= all
      ensures |st| <= |Seen(all)|
    {
      DifferentBegins(st);
      SubsetSize(Begins(nodes, st), Seen(all));
    }

    lemma {:induction false} DifferentBegins(st: seq<nat>)
      requires StackOk(st)
      ensures |Begins(nodes, st)| == |st|
    {
      if st == [] {
        assert Begins(nodes, st) == {};
      } else {
        DifferentBegins(st[..|st| - 1]);
        BeginsPop(st);
        assert nodes[st[|st| - 1]].seg.begin !in Begins(nodes, st[..|st| - 1]);
      }
    }

    /** Between two turns of the first loop: the stack and the two chains cover `all`. */
    ghost predicate Walk(st: seq<nat>, l1: nat, l2: nat, lastBegin: nat, all: set<nat>)
      reads this
    {
      && Issued(l1) && Issued(l2) && StackOk(st)
      && Covers(Begins(nodes, st) + SetOf(l1) + SetOf(l2), all)
      && lastBegin == (if st == [] then MAX_LB else nodes[st[|st| - 1]].seg.begin)
      && (st != [] ==> nodes[l1].seg.begin <= lastBegin && nodes[l2].seg.begin <= lastBegin)
    }

    /** One turn of the first loop of combine, with the signs. */
    method CollectTurn(st: seq<nat>, l1: nat, l2: nat, lastBegin: nat, ghost a: nat, ghost b: nat)
      returns (st': seq<nat>, lastBegin': nat, l1': nat, l2': nat)
      requires Valid() && l1 > 0 && l1 != l2
      requires Walk(st, l1, l2, lastBegin, SetOf(a) + SetOf(b)) && Tracks(st, l1, l2, lastBegin, a, b)
      ensures Walk(st', l1', l2', lastBegin', SetOf(a) + SetOf(b)) && Tracks(st', l1', l2', lastBegin', a, b)
      ensures l1' + l2' < l1 + l2
    {
      st', lastBegin', l1', l2' := CollectStep(st, l1, l2, lastBegin, SetOf(a) + SetOf(b));
      PicksStep(st, l1, l2, lastBegin, st', a, b);
      ChainsStep(l1, l2, lastBegin, l1', l2', lastBegin', a, b);
    }

    method CollectStep(st: seq<nat>, l1: nat, l2: nat, lastBegin: nat, ghost all: set<nat>)
      returns (st': seq<nat>, lastBegin': nat, l1': nat, l2': nat)
      requires Valid() && Walk(st, l1, l2, lastBegin, all) && l1 > 0 && l1 != l2
      ensures Walk(st', l1', l2', lastBegin', all) && l1' + l2' < l1 + l2
      ensures var lb := Next(l1, l2);
        && st' == (if nodes[lb].seg.begin < lastBegin then st + [lb] else st)
        && lastBegin' == Min(lastBegin, nodes[lb].seg.begin)
        && l1' == (if lb == l1 then nodes[l1].parent else l1)
        && l2' == (if lb == l1 then l2 else nodes[l2].parent)
    {
      BeginBelow(l1);
      l1', l2' := l1, l2;
      if nodes[l1].seg.begin < nodes[l2].seg.begin {
        st', lastBegin', l2' := Take(st, l2, lastBegin);
        WalkOn(st, l2, l1, st', l2', lastBegin', all);
      } else {
        st', lastBegin', l1' := Take(st, l1, lastBegin);
        WalkOn(st, l1, l2, st', l1', lastBegin', all);
      }
    }

    /** Going on along the chain of `l`, in any order of the two chains. */
    lemma WalkOn(st: seq<nat>, l: nat, other: nat, st': seq<nat>, l': nat, lastBegin': nat, all: set<nat>)
      requires Issued(l') && Issued(other) && StackOk(st) && StackOk(st')
      requires Covers(Begins(nodes, st') + SetOf(l'), Begins(nodes, st) + SetOf(l))
      requires Covers(Begins(nodes, st) + SetOf(l) + SetOf(other), all) ||
               Covers(Begins(nodes, st) + SetOf(other) + SetOf(l), all)
      requires lastBegin' == (if st' == [] then MAX_LB else nodes[st'[|st'| - 1]].seg.begin)
      requires st' != [] ==> nodes[l'].seg.begin <= lastBegin' && nodes[other].seg.begin <= lastBegin'
      ensures Walk(st', l', other, lastBegin', all) && Walk(st', other, l', lastBegin', all)
    {
      CoversJoin(Begins(nodes, st'), SetOf(l'), Begins(nodes, st), SetOf(l), SetOf(other), all);
    }

    /**
     Takes the largest position off the chain of `lb`. It goes onto the stack, unless it has just been taken off the
     other chain, or is no smaller than MAX_LB.
     */
    method Take(st: seq<nat>, lb: nat, lastBegin: nat) returns (st': seq<nat>, lastBegin': nat, parent: nat)
      requires Valid() && StackOk(st) && lb < |nodes| && lb in ones
      requires lastBegin == if st == [] then MAX_LB else nodes[st[|st| - 1]].seg.begin
      requires st != [] ==> nodes[lb].seg.begin <= lastBegin
      ensures StackOk(st') && lastBegin' == if st' == [] then MAX_LB else nodes[st'[|st'| - 1]].seg.begin
      ensures st' != [] ==> lastBegin' == nodes[lb].seg.begin
      ensures Issued(parent) && parent < lb && nodes[parent].seg.begin <= nodes[lb].seg.begin
      ensures parent == nodes[lb].parent && lastBegin' == Min(lastBegin, nodes[lb].seg.begin)
      ensures st' == if nodes[lb].seg.begin < lastBegin then st + [lb] else st
      ensures Covers(Begins(nodes, st') + SetOf(parent), Begins(nodes, st) + SetOf(lb))
    {
      assert NodeOk(nodes, ones, lb);
      MeaningOfOne(nodes, ones, lb);
      var b := nodes[lb].seg.begin;
      if b < lastBegin {
        st' := Push(st, lb, lastBegin);
        lastBegin' := b;
      } else {
        st', lastBegin' := st, lastBegin;
        if st != [] { BeginsPop(st); }
        assert st != [] ==> Begins(nodes, st) + {b} == Begins(nodes, st);
      }
      parent := nodes[lb].parent;
      CoversMove(Begins(nodes, st), SetOf(parent), b, Begins(nodes, st) + SetOf(lb));
      BeginBelow(parent);
    }

    method Push(st: seq<nat>, lb: nat, ghost lastBegin: nat) returns (st': seq<nat>)
      requires StackOk(st) && lb < |nodes| && lb in ones && nodes[lb].seg.begin < lastBegin
      requires lastBegin == if st == [] then MAX_LB else nodes[st[|st| - 1]].seg.begin
      ensures st' == st + [lb] && StackOk(st')
      ensures Begins(nodes, st') == Begins(nodes, st) + {nodes[lb].seg.begin}
    {
      st' := st + [lb];
      forall i, j | 0 <= i < j < |st'| ensures nodes[st'[i]].seg.begin > nodes[st'[j]].seg.begin {
        if j == |st| && i < |st| - 1 {
          assert nodes[st[i]].seg.begin > nodes[st[|st| - 1]].seg.begin;
        }
      }
      forall p | p in Begins(nodes, st) + {nodes[lb].seg.begin} ensures p in Begins(nodes, st') {
        if p in Begins(nodes, st) {
          var i :| 0 <= i < |st| && p == nodes[st[i]].seg.begin;
          assert st'[i] == st[i];
        } else {
          assert st'[|st|] == lb;
        }
      }
    }

    lemma BeginBelow(lb: nat)
      requires Valid() && Issued(lb)
      ensures nodes[lb].seg.begin <= nodes[lb].seg.end
    {
      if lb != ROOT { assert NodeOk(nodes, ones, lb); }
    }

    /** Spells the position `p` after the label `cur`, which has no larger position. */
    method Extend(cur: nat, p: nat) returns (r: Option<nat>)
      requires Valid() && Issued(cur) && nodes[cur].seg.begin <= p
      modifies this
      ensures Valid() && Kept(old(nodes), old(ones), nodes, ones) && SameSigns(old(nodes), nodes)
      ensures |nodes| <= old(|nodes|) + 2 && (r.None? ==> old(|nodes|) + 2 > MAX_LB)
      ensures r.Some? ==>
        && Issued(r.value) && nodes[r.value].seg.begin == p && r.value != ROOT
        && SetOf(r.value) == old(SetOf(cur)) + {p}
        && (r.value == cur || (nodes[r.value].parent == cur && old(nodes[cur].seg.end) <= p))
    {
      ghost var first, firstOnes := nodes, ones;
      if cur != ROOT { assert NodeOk(nodes, ones, cur); }
      if nodes[cur].seg.end >= p {
        if p + 1 > nodes[cur].seg.end {
          r := InsertOne(cur, cur);
          if r.Some? {
            MeaningOfOne(nodes, ones, r.value);
            MeaningKept(first, firstOnes, nodes, ones, cur);
          }
        } else {
          MeaningOfOne(nodes, ones, cur);
          r := Some(cur);
        }
      } else {
        var z := InsertNZeros(cur, p - nodes[cur].seg.end, cur);
        if z.None? { return None; }
        r := InsertOne(z.value, cur);
        if r.Some? {
          MeaningOfOne(nodes, ones, r.value);
          MeaningKept(first, firstOnes, nodes, ones, cur);
        }
      }
    }

    /**
     The label of the union. Positions from MAX_LB on may be lost; `find` does not list them for any label, and lists
     for the result what it lists for the two sets. The signs of the result are those that its nodes had before, and
     those of the two labels; where both have a position, the sign of the smaller label counts.
     */
    method Combine(a: nat, b: nat) returns (r: Option<nat>)
      requires Valid() && Issued(a) && Issued(b)
      modifies this
      ensures Valid() && Kept(old(nodes), old(ones), nodes, ones)
      ensures forall lb :: old(Issued(lb)) ==> Issued(lb) && SetOf(lb) == old(SetOf(lb))
      ensures |nodes| <= old(|nodes| + 2 * |Seen(SetOf(a) + SetOf(b))|)
      ensures r.None? ==> old(|nodes| + 2 * |Seen(SetOf(a) + SetOf(b))|) > MAX_LB
      ensures r.Some? ==> Issued(r.value) && Seen(SetOf(r.value)) == Seen(old(SetOf(a))) + Seen(old(SetOf(b)))
      ensures r.Some? ==> SetOf(r.value) <= old(SetOf(a)) + old(SetOf(b))
      ensures r.Some? ==> SignsOf(r.value) == Signs(nodes, r.value, old(nodes)) + old(PickedOf(a, b))
      ensures forall lb :: old(Issued(lb)) ==> old(SignsOf(lb)) <= SignsOf(lb)
      ensures r.Some? && (forall p :: p in old(SetOf(a)) + old(SetOf(b)) ==> p < MAX_LB) ==>
        SetOf(r.value) == old(SetOf(a)) + old(SetOf(b))
    {
      if a == 0 { return Some(b); }
      if b == 0 || a == b { return Some(a); }
      var l1, l2 := if a > b then b else a, if a > b then a else b;
      assert SetOf(l1) + SetOf(l2) == SetOf(a) + SetOf(b);
      r := CombineNodes(l1, l2);
      MeaningsKept(old(nodes), old(ones), nodes, ones);
      SignsGrown(old(nodes), old(ones), nodes, ones);
    }

    /** Two different labels of sets that are not empty. */
    method CombineNodes(l1: nat, l2: nat) returns (r: Option<nat>)
      requires Valid() && Issued(l1) && Issued(l2)
      modifies this
      ensures Valid() && Kept(old(nodes), old(ones), nodes, ones) && KeepsSigns(old(nodes), nodes)
      ensures |nodes| <= old(|nodes| + 2 * |Seen(SetOf(l1) + SetOf(l2))|)
      ensures r.None? ==> old(|nodes| + 2 * |Seen(SetOf(l1) + SetOf(l2))|) > MAX_LB
      ensures r.Some? ==> Issued(r.value) && Covers(SetOf(r.value), old(SetOf(l1) + SetOf(l2)))
      ensures r.Some? ==> SignsOf(r.value) == Signs(nodes, r.value, old(nodes)) + old(Picked(l1, l2))
    {
      var st, base := Collect(l1, l2);
      PickedSplit(st, base, l1, l2);
      r := ExtendAll(base, st);
    }

    /** What is taken over is on the stack or on the chain of `base`. */
    lemma PickedSplit(st: seq<nat>, base: nat, a: nat, b: nat)
      requires Valid() && Issued(a) && Issued(b) && StackOk(st)
      requires Covers(Begins(nodes, st) + SetOf(base), SetOf(a) + SetOf(b))
      requires PicksWell(st, base, Picked(a, b), SetOf(a) + SetOf(b))
      ensures SignedBegins(nodes, st) <= Picked(a, b) <= SignedBegins(nodes, st) + SignsOf(base)
    {
      SignsBelow(nodes, ones, a, nodes);
      SignsBelow(nodes, ones, b, nodes);
      forall p | p in SignedBegins(nodes, st) ensures p in Picked(a, b) {
        var i :| 0 <= i < |st| && nodes[st[i]].seg.sign && p == nodes[st[i]].seg.begin;
        assert p in Begins(nodes, st);
      }
    }

    /** The second loop of combine: the positions on the stack are spelled after the label `base`. */
    method ExtendAll(base: nat, st0: seq<nat>) returns (r: Option<nat>)
      requires Valid() && StackOk(st0) && Issued(base)
      requires st0 != [] ==> nodes[base].seg.begin <= nodes[st0[|st0| - 1]].seg.begin
      modifies this
      ensures Valid() && Kept(old(nodes), old(ones), nodes, ones)
      ensures |nodes| <= old(|nodes|) + 2 * |st0| && (r.None? ==> old(|nodes|) + 2 * |st0| > MAX_LB)
      ensures r.Some? ==> Issued(r.value) && SetOf(r.value) == old(Begins(nodes, st0)) + old(SetOf(base))
      ensures r.Some? ==> SignsOf(r.value) == Signs(nodes, r.value, old(nodes)) + old(SignedBegins(nodes, st0))
      ensures r.Some? ==> old(SignsOf(base)) <= Signs(nodes, r.value, old(nodes))
      ensures KeepsSigns(old(nodes), nodes)
    {
      var st, cur := st0, base;
      ghost var first, firstOnes := nodes, ones;
      ghost var all := Begins(nodes, st0) + SetOf(base);
      SignsStart(base, st0);
      while st != []
        invariant Extending(first, firstOnes, st0, st, cur, all)
        invariant Signed(nodes, ones, first, firstOnes, st0, |st|, cur, base)
      {
        var e := ExtendTurnSigned(first, firstOnes, st0, st, cur, base, all);
        if e.None? { return None; }
        cur, st := e.value, st[..|st| - 1];
      }
      r := Some(cur);
      assert st0[0..] == st0;
    }

    /** Between two turns of the second loop of combine. */
    ghost predicate Extending(first: seq<TagNode>, firstOnes: set<nat>, st0: seq<nat>, st: seq<nat>, cur: nat,
                              all: set<nat>)
      reads this
    {
      && Valid() && Kept(first, firstOnes, nodes, ones)
      && StackOk(st0) && |st| <= |st0| && st == st0[..|st|] && Issued(cur)
      && |nodes| <= |first| + 2 * (|st0| - |st|) && KeepsSigns(first, nodes)
      && SetOf(cur) + Begins(nodes, st) == all
      && (st != [] ==> nodes[cur].seg.begin <= nodes[st[|st| - 1]].seg.begin)
    }

    method ExtendTurn(ghost first: seq<TagNode>, ghost firstOnes: set<nat>, ghost st0: seq<nat>, st: seq<nat>, cur: nat,
                      ghost all: set<nat>)
      returns (r: Option<nat>)
      requires st != [] && Extending(first, firstOnes, st0, st, cur, all)
      modifies this
      ensures r.Some? ==> Extending(first, firstOnes, st0, st[..|st| - 1], r.value, all)
      ensures Valid() && Kept(first, firstOnes, nodes, ones) && |nodes| <= |first| + 2 * |st0|
      ensures r.None? ==> |first| + 2 * |st0| > MAX_LB
      ensures Kept(old(nodes), old(ones), nodes, ones) && KeepsSigns(first, nodes)
      ensures r.Some? ==>
        && nodes[r.value].seg.begin == old(nodes[st[|st| - 1]].seg.begin) == nodes[st[|st| - 1]].seg.begin
        && SignAdded(old(nodes), cur, r.value, old(nodes[st[|st| - 1]].seg.sign))
    {
      ghost var mid, midOnes := nodes, ones;
      r := ExtendByTop(cur, st);
      KeptTransitive(first, firstOnes, mid, midOnes, nodes, ones);
      if r.Some? {
        StackKept(mid, midOnes, st0);
        assert st[..|st| - 1] == st0[..|st| - 1];
      }
    }

    /** One turn of the second loop of combine, with the signs. */
    method ExtendTurnSigned(ghost first: seq<TagNode>, ghost firstOnes: set<nat>, ghost st0: seq<nat>, st: seq<nat>,
                            cur: nat, ghost base: nat, ghost all: set<nat>)
      returns (r: Option<nat>)
      requires st != [] && Extending(first, firstOnes, st0, st, cur, all)
      requires Signed(nodes, ones, first, firstOnes, st0, |st|, cur, base)
      modifies this
      ensures r.Some? ==> Extending(first, firstOnes, st0, st[..|st| - 1], r.value, all)
      ensures r.Some? ==> Signed(nodes, ones, first, firstOnes, st0, |st| - 1, r.value, base)
      ensures Valid() && Kept(first, firstOnes, nodes, ones) && |nodes| <= |first| + 2 * |st0|
      ensures r.None? ==> |first| + 2 * |st0| > MAX_LB
      ensures KeepsSigns(first, nodes)
    {
      ghost var mid, midOnes := nodes, ones;
      r := ExtendTurn(first, firstOnes, st0, st, cur, all);
      if r.Some? {
        SignedStep(mid, midOnes, first, firstOnes, st0, |st|, cur, base, r.value);
      }
    }

    lemma StackKept(mid: seq<TagNode>, midOnes: set<nat>, st: seq<nat>)
      requires Valid() && Kept(mid, midOnes, nodes, ones)
      requires forall i :: 0 <= i < |st| ==> st[i] < |mid| && st[i] in midOnes && mid[st[i]].seg.begin < MAX_LB
      requires forall i, j :: 0 <= i < j < |st| ==> mid[st[i]].seg.begin > mid[st[j]].seg.begin
      ensures StackOk(st)
    {
    }

    lemma SignsStart(base: nat, st0: seq<nat>)
      requires Valid() && Issued(base) && StackOk(st0)
      ensures Signed(nodes, ones, nodes, ones, st0, |st0|, base, base)
    {
      assert SignedBegins(nodes, st0[|st0|..]) == {};
    }

    /** One turn sets the sign of the position that it spells, if the node on the stack has it. */
    lemma SignedStep(mid: seq<TagNode>, midOnes: set<nat>, first: seq<TagNode>, firstOnes: set<nat>, st0: seq<nat>,
                     n: nat, cur: nat, base: nat, lb: nat)
      requires Valid() && ValidTree(mid, midOnes)
      requires Kept(mid, midOnes, nodes, ones) && Kept(first, firstOnes, mid, midOnes)
      requires 0 < n && Signed(mid, midOnes, first, firstOnes, st0, n, cur, base)
      requires StackOk(st0) && st0[n - 1] < |mid| && SignAdded(mid, cur, lb, mid[st0[n - 1]].seg.sign)
      requires nodes[st0[n - 1]].seg.begin == nodes[lb].seg.begin
      ensures Signed(nodes, ones, first, firstOnes, st0, n - 1, lb, base)
    {
      SignedBeginsMore(first, st0, n);
      SignsKept(mid, midOnes, nodes, ones, cur, first);
      SignsKept(mid, midOnes, nodes, ones, cur, mid);
      SignsOfOne(nodes, ones, lb, nodes);
      SignsOfOne(nodes, ones, lb, first);
      assert NodeOk(nodes, ones, lb);
      if lb == cur {
        SignsOfOne(nodes, ones, cur, mid);
        SignsSame(nodes, ones, nodes[cur].parent, nodes, mid);
      } else {
        SignsSame(nodes, ones, cur, nodes, mid);
      }
    }

    /** One turn of the second loop of combine. */
    method ExtendByTop(cur: nat, st: seq<nat>) returns (r: Option<nat>)
      requires Valid() && StackOk(st) && st != [] && Issued(cur)
      requires nodes[cur].seg.begin <= nodes[st[|st| - 1]].seg.begin
      modifies this
      ensures Valid() && Kept(old(nodes), old(ones), nodes, ones)
      ensures |nodes| <= old(|nodes|) + 2 && (r.None? ==> old(|nodes|) + 2 > MAX_LB)
      ensures KeepsSigns(old(nodes), nodes)
      ensures r.Some? ==>
        && Issued(r.value) && StackOk(st[..|st| - 1])
        && SetOf(r.value) + Begins(nodes, st[..|st| - 1]) == old(SetOf(cur)) + old(Begins(nodes, st))
        && (|st| > 1 ==> nodes[r.value].seg.begin <= nodes[st[|st| - 2]].seg.begin)
        && nodes[r.value].seg.begin == old(nodes[st[|st| - 1]].seg.begin)
        && SignAdded(old(nodes), cur, r.value, old(nodes[st[|st| - 1]].seg.sign))
    {
      var next, rest := st[|st| - 1], st[..|st| - 1];
      assert NodeOk(nodes, ones, next);
      BeginsPop(st);
      var nextSeg := nodes[next].seg;
      r := ExtendSigned(cur, nextSeg.begin, nextSeg.sign);
      BeginsKept(old(nodes), old(ones), rest);
    }

    /** `lb` is `cur` or follows it, and of the signs only that of `lb` may have been set. */
    ghost predicate SignAdded(before: seq<TagNode>, cur: nat, lb: nat, sign: bool)
      reads this
    {
      && cur < |before| <= |nodes| && lb < |nodes| && lb in ones
      && (lb == cur || (nodes[lb].parent == cur && before[cur].seg.end <= nodes[lb].seg.begin))
      && forall x :: 0 <= x < |nodes| ==>
           (nodes[x].seg.sign <==> (x < |before| && before[x].seg.sign) || (sign && x == lb))
    }

    method ExtendSigned(cur: nat, p: nat, sign: bool) returns (r: Option<nat>)
      requires Valid() && Issued(cur) && nodes[cur].seg.begin <= p
      modifies this
      ensures Valid() && Kept(old(nodes), old(ones), nodes, ones)
      ensures |nodes| <= old(|nodes|) + 2 && (r.None? ==> old(|nodes|) + 2 > MAX_LB)
      ensures r.Some? ==>
        Issued(r.value) && nodes[r.value].seg.begin == p && SetOf(r.value) == old(SetOf(cur)) + {p}
      ensures r.Some? ==> SignAdded(old(nodes), cur, r.value, sign)
      ensures KeepsSigns(old(nodes), nodes)
    {
      r := Extend(cur, p);
      if r.Some? && sign {
        ghost var mid, midOnes := nodes, ones;
        SetSign(r.value);
        MeaningKept(mid, midOnes, nodes, ones, r.value);
      }
    }

    lemma BeginsPop(st: seq<nat>)
      requires StackOk(st) && st != []
      ensures Begins(nodes, st) == Begins(nodes, st[..|st| - 1]) + {nodes[st[|st| - 1]].seg.begin}
    {
      forall p | p in Begins(nodes, st)
        ensures p in Begins(nodes, st[..|st| - 1]) + {nodes[st[|st| - 1]].seg.begin}
      {
        var i :| 0 <= i < |st| && p == nodes[st[i]].seg.begin;
        if i < |st| - 1 { assert st[..|st| - 1][i] == st[i]; }
      }
    }

    lemma BeginsKept(before: seq<TagNode>, beforeOnes: set<nat>, st: seq<nat>)
      requires Kept(before, beforeOnes, nodes, ones)
      requires forall i :: 0 <= i < |st| ==> st[i] < |before| && st[i] in beforeOnes
      ensures Begins(nodes, st) == Begins(before, st)
    {
      forall i | 0 <= i < |st| ensures nodes[st[i]].seg.begin == before[st[i]].seg.begin {}
    }

    /** The segments of a label, in ascending order: all positions of its set exactly when they are below MAX_LB. */
    method Find(lb: nat) returns (tags: seq<TagSeg>)
      requires Valid() && Issued(lb)
      ensures forall i :: 0 <= i < |tags| ==> tags[i].end == tags[i].begin + 1
      ensures forall i, j :: 0 <= i < j < |tags| ==> tags[i].begin < tags[j].begin
      ensures forall i :: 0 <= i < |tags| ==> (tags[i].sign <==> tags[i].begin in SignsOf(lb))
      ensures Positions(tags) == Seen(SetOf(lb))
      ensures Positions(tags) == SetOf(lb) <==> forall p :: p in SetOf(lb) ==> p < MAX_LB
    {
      var list: seq<TagSeg> := [];
      var lastBegin := MAX_LB;
      var l := lb;
      while l > 0
        invariant Listed(list, lastBegin, l, SetOf(lb)) && SignsListed(list, l, SignsOf(lb))
      {
        list, lastBegin, l := FindStep(list, lastBegin, l, SetOf(lb), SignsOf(lb));
      }
      PositionsReverse(list);
      tags := if |list| > 1 then Reverse(list) else list;
    }

    /** Between two turns of find: the list and what is left of the chain cover `all`. */
    ghost predicate Listed(list: seq<TagSeg>, lastBegin: nat, l: nat, all: set<nat>)
      reads this
    {
      && Issued(l) && Descending(list)
      && Positions(list) <= Seen(all) && Covers(Positions(list) + SetOf(l), all)
      && lastBegin <= MAX_LB && lastBegin == (if list == [] then MAX_LB else list[|list| - 1].begin)
      && (l > 0 && list != [] ==> nodes[l].seg.begin < lastBegin)
    }

    /** The segments in the list have their signs, and so has what is left of the chain. */
    ghost predicate SignsListed(list: seq<TagSeg>, l: nat, signs: set<nat>)
      reads this
    {
      && (forall i :: 0 <= i < |list| ==> (list[i].sign <==> list[i].begin in signs))
      && forall p :: p in SetOf(l) ==> (p in SignsOf(l) <==> p in signs)
    }

    method FindStep(list: seq<TagSeg>, lastBegin: nat, l: nat, ghost all: set<nat>, ghost signs: set<nat>)
      returns (list': seq<TagSeg>, lastBegin': nat, l': nat)
      requires Valid() && l > 0 && Listed(list, lastBegin, l, all) && SignsListed(list, l, signs)
      ensures Listed(list', lastBegin', l', all) && l' < l && SignsListed(list', l', signs)
    {
      assert NodeOk(nodes, ones, l);
      MeaningOfOne(nodes, ones, l);
      SignsOfOne(nodes, ones, l, nodes);
      CoversMove(Positions(list), SetOf(nodes[l].parent), nodes[l].seg.begin, all);
      list', lastBegin', l' := list, lastBegin, nodes[l].parent;
      if nodes[l].seg.begin < lastBegin {
        PositionsAppend(list, nodes[l].seg);
        list', lastBegin' := list + [nodes[l].seg], nodes[l].seg.begin;
      }
      if l' > 0 { assert NodeOk(nodes, ones, l'); }
    }
  }

  /** A position from MAX_LB on gets a label, for which nothing is listed. */
  method InsertPastLimit() returns (tree: BDDTag, lb: nat, tags: seq<TagSeg>)
    ensures tree.Valid() && tree.Issued(lb) && tree.SetOf(lb) == {MAX_LB} && tags == []
  {
    tree := new BDDTag();
    var r := tree.Insert(MAX_LB);
    lb := r.value;
    tags := tree.Find(lb);
    assert Seen({MAX_LB}) == {};
    SomePosition(tags);
  }

  ghost function Positions(tags: seq<TagSeg>): set<nat> {
    set i | 0 <= i < |tags| :: tags[i].begin
  }

  ghost predicate Descending(tags: seq<TagSeg>) {
    && (forall i :: 0 <= i < |tags| ==> tags[i].end == tags[i].begin + 1)
    && (forall i, j :: 0 <= i < j < |tags| ==> tags[i].begin > tags[j].begin)
  }

  lemma SomePosition(tags: seq<TagSeg>)
    ensures tags != [] ==> Positions(tags) != {}
  {
    if tags != [] { assert tags[0].begin in Positions(tags); }
  }

  lemma PositionsAppend(tags: seq<TagSeg>, t: TagSeg)
    requires Descending(tags) && t.end == t.begin + 1 && (tags != [] ==> t.begin < tags[|tags| - 1].begin)
    ensures Positions(tags + [t]) == Positions(tags) + {t.begin}
    ensures Descending(tags + [t])
  {
    var tags' := tags + [t];
    forall i | 0 <= i < |tags| ensures tags[i].begin in Positions(tags') { assert tags'[i] == tags[i]; }
    assert tags'[|tags|] == t;
  }

  lemma PositionsReverse(tags: seq<TagSeg>)
    ensures Positions(Reverse(tags)) == Positions(tags)
  {
    var r := Reverse(tags);
    forall i | 0 <= i < |tags| ensures tags[i].begin in Positions(r) { assert r[|tags| - 1 - i] == tags[i]; }
  }
}
