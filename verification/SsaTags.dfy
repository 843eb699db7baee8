/** The taint tags of ssa_tag_gc.h and ssa_tag_gc.cpp. */
module SsaTags {
  /*
   For one mutator thread: reference-counted ssa objects, the ring of free ones, their collection, and the one-entry
   cache of combine.

   Memory is explicit: ssa objects have consecutive addresses in the blocks, and a tag is an address whose content
   is a pointer to an ssa object or NULL. The tags of the cache are the addresses below CACHE_TAGS.
   */
  import opened Bdd
  import opened BddCache
  import opened Common
  import opened SsaLabels

  const SSA_BLK: nat := 0x1_0000
  const SSA_GC_THRESHOLD: nat := SSA_BLK / 2

  /** The reference count of an object that has never been used. */
  const UNUSED: nat := 0xFFFF_FFFF_FFFF_FFFF

  datatype Ssa = Ssa(refCount: nat, bdd: Edge)

  datatype Ref = Null | To(i: nat)

  const CACHE_L: nat := 0
  const CACHE_R: nat := 1
  const CACHE_V: nat := 2
  const CACHE_TAGS: nat := 3

  // ---------- Counting references ----------

  ghost function Holders(tags: map<nat, Ref>, i: nat): set<nat> {
    set a | a in tags && tags[a] == To(i)
  }

  ghost function Refs(tags: map<nat, Ref>, i: nat): nat { |Holders(tags, i)| }

  function One(r: Ref, i: nat): nat { if r == To(i) then 1 else 0 }

  lemma RefsOfNew(tags: map<nat, Ref>, a: nat, r: Ref, i: nat)
    requires a !in tags
    ensures Refs(tags[a := r], i) == Refs(tags, i) + One(r, i)
  {
    assert Holders(tags[a := r], i) == Holders(tags, i) + (if r == To(i) then {a} else {});
  }

  lemma RefsOfRemoved(tags: map<nat, Ref>, a: nat, i: nat)
    requires a in tags
    ensures Refs(tags - {a}, i) + One(tags[a], i) == Refs(tags, i)
  {
    assert Holders(tags, i) == Holders(tags - {a}, i) + (if tags[a] == To(i) then {a} else {});
  }

  lemma RefsOfUpdate(tags: map<nat, Ref>, a: nat, r: Ref, i: nat)
    requires a in tags
    ensures Refs(tags[a := r], i) + One(tags[a], i) == Refs(tags, i) + One(r, i)
  {
    RefsOfRemoved(tags, a, i);
    RefsOfNew(tags - {a}, a, r, i);
    assert (tags - {a})[a := r] == tags[a := r];
  }

  lemma RefsBound(tags: map<nat, Ref>, i: nat)
    ensures Refs(tags, i) <= |tags|
  {
    assert Holders(tags, i) <= tags.Keys;
    SubsetSize(Holders(tags, i), tags.Keys);
    assert |tags.Keys| == |tags|;
  }

  /** The count of every used object is the number of tags that point to it; unused objects have none. */
  ghost predicate Counted(mem: seq<Ssa>, tags: map<nat, Ref>) {
    && (forall a :: a in tags && tags[a].To? ==> tags[a].i < |mem|)
    && forall i :: 0 <= i < |mem| ==> Refs(tags, i) == if mem[i].refCount == UNUSED then 0 else mem[i].refCount
  }

  lemma PointedIsUsed(mem: seq<Ssa>, tags: map<nat, Ref>, a: nat)
    requires Counted(mem, tags) && a in tags && tags[a].To?
    ensures 0 < mem[tags[a].i].refCount != UNUSED
  {
    assert a in Holders(tags, tags[a].i);
  }

  /** ref_count++ and ref_count-- through a pointer that may be NULL. */
  function Inc(mem: seq<Ssa>, r: Ref): (mem': seq<Ssa>)
    requires r.To? ==> r.i < |mem|
    ensures |mem'| == |mem| && forall i :: 0 <= i < |mem| ==>
      mem'[i].bdd == mem[i].bdd && mem'[i].refCount == mem[i].refCount + One(r, i)
  {
    if r.Null? then mem else mem[r.i := mem[r.i].(refCount := mem[r.i].refCount + 1)]
  }

  function Dec(mem: seq<Ssa>, r: Ref): (mem': seq<Ssa>)
    requires r.To? ==> r.i < |mem| && mem[r.i].refCount > 0
    ensures |mem'| == |mem| && forall i :: 0 <= i < |mem| ==>
      mem'[i].bdd == mem[i].bdd && mem'[i].refCount == mem[i].refCount - One(r, i)
  {
    if r.Null? then mem else mem[r.i := mem[r.i].(refCount := mem[r.i].refCount - 1)]
  }

  /** Counts after a pointer to `r` has been stored and one to `gone` has been dropped. */
  lemma CountedAfter(mem: seq<Ssa>, tags: map<nat, Ref>, mem': seq<Ssa>, tags': map<nat, Ref>, r: Ref, gone: Ref)
    requires Counted(mem, tags) && |tags'| < UNUSED && |mem'| == |mem|
    requires forall a :: a in tags' && tags'[a].To? ==> tags'[a].i < |mem| && mem[tags'[a].i].refCount != UNUSED
    requires gone.To? && gone.i < |mem| ==> mem[gone.i].refCount != UNUSED
    requires r.To? && r.i < |mem| ==> mem[r.i].refCount != UNUSED
    requires forall i: nat :: i < |mem| ==>
      && Refs(tags', i) + One(gone, i) == Refs(tags, i) + One(r, i)
      && mem'[i].refCount + One(gone, i) == mem[i].refCount + One(r, i)
    ensures Counted(mem', tags')
  {
    forall i | 0 <= i < |mem|
      ensures Refs(tags', i) == if mem'[i].refCount == UNUSED then 0 else mem'[i].refCount
    {
      RefsBound(tags', i);
    }
  }

  // ---------- The ring of free objects ----------

  function RingLen(h: nat, t: nat): nat
    requires h < SSA_BLK && t < SSA_BLK
  {
    if t >= h then t - h else t + SSA_BLK - h
  }

  function Succ(i: nat): nat { (i + 1) % SSA_BLK }

  /** The entries from `h` up to `t`. */
  ghost function RingOf(q: seq<nat>, h: nat, t: nat): (s: seq<nat>)
    requires |q| == SSA_BLK && h < SSA_BLK && t < SSA_BLK
    ensures |s| == RingLen(h, t)
  {
    seq(RingLen(h, t), k requires 0 <= k < RingLen(h, t) => q[(h + k) % SSA_BLK])
  }

  lemma RingPush(q: seq<nat>, h: nat, t: nat, x: nat)
    requires |q| == SSA_BLK && h < SSA_BLK && t < SSA_BLK && RingLen(h, t) < SSA_BLK - 1
    ensures RingOf(q[t := x], h, Succ(t)) == RingOf(q, h, t) + [x]
    ensures RingLen(h, Succ(t)) == RingLen(h, t) + 1
  {
  }

  lemma RingPop(q: seq<nat>, h: nat, t: nat)
    requires |q| == SSA_BLK && h < SSA_BLK && t < SSA_BLK && h != t
    ensures RingOf(q, h, t) == [q[h]] + RingOf(q, Succ(h), t)
  {
  }

  /** Free objects are pairwise distinct and nothing points to them. */
  ghost predicate FreeRing(mem: seq<Ssa>, ring: seq<nat>) {
    && (forall j, k :: 0 <= j < k < |ring| ==> ring[j] != ring[k])
    && (forall i :: i in ring ==> i < |mem| && (mem[i].refCount == 0 || mem[i].refCount == UNUSED))
  }

  ghost function FreeObjects(mem: seq<Ssa>): set<nat> {
    set i: nat | i < |mem| && IsFree(mem, i)
  }

  /** A ring holds at most as many objects as are free, and as many if it holds all of them. */
  lemma {:induction false} RingSize(ring: seq<nat>, free: set<nat>)
    requires (forall j, k :: 0 <= j < k < |ring| ==> ring[j] != ring[k]) && forall i :: i in ring ==> i in free
    ensures |ring| <= |free|
    ensures (forall i :: i in free ==> i in ring) ==> |ring| == |free|
  {
    if ring == [] {
      assert (forall i :: i in free ==> i in ring) ==> free == {};
    } else {
      assert ring[0] in ring && forall i :: i in ring[1..] ==> i in ring && i != ring[0];
      assert forall i :: i in ring ==> i == ring[0] || i in ring[1..];
      RingSize(ring[1..], free - {ring[0]});
    }
  }

  /** The BDD library protects the diagrams of exactly the objects that have been used and are not in the ring. */
  ghost predicate Protects(mem: seq<Ssa>, ring: seq<nat>, prot: set<nat>) {
    && (forall i :: i in prot ==> i < |mem|)
    && forall i: nat :: i < |mem| ==> (i in prot <==> mem[i].refCount != UNUSED && i !in ring)
  }

  ghost predicate HoldBdds(mem: seq<Ssa>) {
    forall i :: 0 <= i < |mem| && mem[i].refCount != UNUSED ==> TagBdd(mem[i].bdd)
  }

  ghost predicate Consistent(mem: seq<Ssa>, tags: map<nat, Ref>, ring: seq<nat>, prot: set<nat>) {
    && |tags| < UNUSED && Counted(mem, tags)
    && HoldBdds(mem) && FreeRing(mem, ring) && Protects(mem, ring, prot)
  }

  // ---------- What a tag means ----------

  ghost function SetOf(mem: seq<Ssa>, r: Ref): iset<nat>
    requires r.To? ==> r.i < |mem|
  {
    if r.Null? then iset{} else Labels(mem[r.i].bdd)
  }

  /** A filled cache holds two sets and their union. */
  ghost predicate CacheHolds(mem: seq<Ssa>, tags: map<nat, Ref>)
    requires Counted(mem, tags)
  {
    && CACHE_L in tags && CACHE_R in tags && CACHE_V in tags
    && (tags[CACHE_L].Null? || SetOf(mem, tags[CACHE_V]) == SetOf(mem, tags[CACHE_L]) + SetOf(mem, tags[CACHE_R]))
  }

  ghost predicate SameBdds(mem: seq<Ssa>, mem': seq<Ssa>) {
    |mem'| == |mem| && forall i :: 0 <= i < |mem| ==> mem'[i].bdd == mem[i].bdd
  }

  lemma SameBddsSameSet(mem: seq<Ssa>, mem': seq<Ssa>, r: Ref)
    requires SameBdds(mem, mem') && (r.To? ==> r.i < |mem|)
    ensures SetOf(mem', r) == SetOf(mem, r)
  {
  }

  /** Every tag but `dst` keeps its set. */
  ghost predicate SameSets(mem: seq<Ssa>, tags: map<nat, Ref>, mem': seq<Ssa>, tags': map<nat, Ref>, dst: nat)
    requires Counted(mem, tags) && Counted(mem', tags')
  {
    forall a :: a in tags && a != dst ==> a in tags' && SetOf(mem', tags'[a]) == SetOf(mem, tags[a])
  }

  /** Copies of two tags and of a tag for their union fill the cache, and the other tags keep their sets. */
  lemma Remembered(mem: seq<Ssa>, tags: map<nat, Ref>, mem': seq<Ssa>, tags': map<nat, Ref>,
                   lhs: nat, rhs: nat, v: nat)
    requires Counted(mem, tags) && Counted(mem', tags') && SameBdds(mem, mem')
    requires lhs in tags && rhs in tags && v in tags && lhs >= CACHE_TAGS && rhs >= CACHE_TAGS && v >= CACHE_TAGS
    requires SetOf(mem, tags[v]) == SetOf(mem, tags[lhs]) + SetOf(mem, tags[rhs])
    requires tags' == tags[CACHE_L := tags[lhs]][CACHE_R := tags[rhs]][CACHE_V := tags[v]]
    ensures CacheHolds(mem', tags')
    ensures forall a :: a in tags && a >= CACHE_TAGS ==>
      a in tags' && tags'[a] == tags[a] && SetOf(mem', tags'[a]) == SetOf(mem, tags[a])
  {
  }

  /** `r` is an object that no tag points to. */
  ghost predicate IsUnheld(tags: map<nat, Ref>, r: Ref) {
    r.To? && forall a :: a in tags ==> tags[a] != r
  }

  lemma Unheld(mem: seq<Ssa>, tags: map<nat, Ref>, r: Ref)
    requires Counted(mem, tags) && r.To? && r.i < |mem| && IsFree(mem, r.i)
    ensures IsUnheld(tags, r)
  {
    forall a | a in tags ensures tags[a] != r {
      if tags[a] == r { PointedIsUsed(mem, tags, a); }
    }
  }

  ghost predicate SameCache(tags: map<nat, Ref>, tags': map<nat, Ref>) {
    forall a :: a in {CACHE_L, CACHE_R, CACHE_V} ==> a in tags && a in tags' && tags'[a] == tags[a]
  }

  /** The cache holds `l`, `r` and `v`. */
  ghost predicate Cached(tags: map<nat, Ref>, l: Ref, r: Ref, v: Ref) {
    && CACHE_L in tags && CACHE_R in tags && CACHE_V in tags
    && tags[CACHE_L] == l && tags[CACHE_R] == r && tags[CACHE_V] == v
  }

  /**
   Where the tag `dst` of a union points to. An operand that contains the other one is shared, and so is the result
   in the cache if its operands have the sets of the new ones; only then does the cache stay as it is, except that
   empty and equal operands never reach it. Any other union gets an object that no tag points to.
   */
  ghost predicate Shares(mem: seq<Ssa>, tags: map<nat, Ref>, tags': map<nat, Ref>, dst: nat, lhs: nat, rhs: nat)
    requires Counted(mem, tags) && CacheHolds(mem, tags) && lhs in tags && rhs in tags && dst in tags'
  {
    var l, r := SetOf(mem, tags[lhs]), SetOf(mem, tags[rhs]);
    if l == iset{} then tags'[dst] == tags[rhs] && SameCache(tags, tags')
    else if r == iset{} || l == r then tags'[dst] == tags[lhs] && SameCache(tags, tags')
    else if SetOf(mem, tags[CACHE_L]) == l && SetOf(mem, tags[CACHE_R]) == r then
      tags'[dst] == tags[CACHE_V] && SameCache(tags, tags')
    else
      && Cached(tags', tags[lhs], tags[rhs], tags'[dst])
      && (if r <= l then tags'[dst] == tags[lhs]
          else if l <= r then tags'[dst] == tags[rhs]
          else IsUnheld(tags, tags'[dst]))
  }

  /** What `dst` points to before it is written. */
  function Previous(tags: map<nat, Ref>, dst: nat): Ref { if dst in tags then tags[dst] else Null }

  /**
   Copy construction and copy assignment: the pointer of `src` is stored in `dst`. This covers `src == dst`, and
   tags that point to the same object.
   */
  lemma CopyKeeps(mem: seq<Ssa>, tags: map<nat, Ref>, ring: seq<nat>, prot: set<nat>, dst: nat, src: nat)
    requires Consistent(mem, tags, ring, prot) && src in tags && (dst !in tags ==> |tags| + 1 < UNUSED)
    ensures (Previous(tags, dst).To? ==> Previous(tags, dst).i < |mem| && mem[Previous(tags, dst).i].refCount > 0)
    ensures var mem', tags' := Dec(Inc(mem, tags[src]), Previous(tags, dst)), tags[dst := tags[src]];
      && Consistent(mem', tags', ring, prot)
      && SameSets(mem, tags, mem', tags', dst)
      && SetOf(mem', tags'[dst]) == SetOf(mem, tags[src])
  {
    var r, gone := tags[src], Previous(tags, dst);
    if gone.To? { PointedIsUsed(mem, tags, dst); }
    if r.To? { PointedIsUsed(mem, tags, src); }
    var mem', tags' := Dec(Inc(mem, r), gone), tags[dst := r];
    forall a | a in tags' && tags'[a].To? ensures tags'[a].i < |mem| && mem[tags'[a].i].refCount != UNUSED {
      PointedIsUsed(mem, tags, if a == dst then src else a);
    }
    forall i: nat | i < |mem| ensures Refs(tags', i) + One(gone, i) == Refs(tags, i) + One(r, i) {
      if dst in tags { RefsOfUpdate(tags, dst, r, i); } else { RefsOfNew(tags, dst, r, i); }
    }
    CountedAfter(mem, tags, mem', tags', r, gone);
    CountsKeep(mem, tags, ring, prot, mem', tags');
  }

  /** Changing counts of objects in use keeps the ring and the protected diagrams. */
  lemma CountsKeep(mem: seq<Ssa>, tags: map<nat, Ref>, ring: seq<nat>, prot: set<nat>,
                   mem': seq<Ssa>, tags': map<nat, Ref>)
    requires Consistent(mem, tags, ring, prot) && Counted(mem', tags') && |mem'| == |mem| && |tags'| < UNUSED
    requires forall i: nat :: i < |mem| ==>
      && mem'[i].bdd == mem[i].bdd
      && (mem'[i].refCount == UNUSED <==> mem[i].refCount == UNUSED)
      && (IsFree(mem, i) ==> mem'[i] == mem[i])
    ensures Consistent(mem', tags', ring, prot)
  {
  }

  lemma DestroyKeeps(mem: seq<Ssa>, tags: map<nat, Ref>, ring: seq<nat>, prot: set<nat>, a: nat)
    requires Consistent(mem, tags, ring, prot) && a in tags
    ensures tags[a].To? ==> tags[a].i < |mem| && mem[tags[a].i].refCount > 0
    ensures var mem', tags' := Dec(mem, tags[a]), tags - {a};
      Consistent(mem', tags', ring, prot) && SameSets(mem, tags, mem', tags', a)
  {
    var gone := tags[a];
    if gone.To? { PointedIsUsed(mem, tags, a); }
    var mem', tags' := Dec(mem, gone), tags - {a};
    forall b | b in tags' && tags'[b].To? ensures tags'[b].i < |mem| && mem[tags'[b].i].refCount != UNUSED {
      PointedIsUsed(mem, tags, b);
    }
    forall i: nat | i < |mem| ensures Refs(tags', i) + One(gone, i) == Refs(tags, i) { RefsOfRemoved(tags, a, i); }
    CountedAfter(mem, tags, mem', tags', Null, gone);
    CountsKeep(mem, tags, ring, prot, mem', tags');
  }

  /** Move construction and move assignment; `src` is left NULL, also when it is `dst`. */
  lemma MoveKeeps(mem: seq<Ssa>, tags: map<nat, Ref>, ring: seq<nat>, prot: set<nat>, dst: nat, src: nat)
    requires Consistent(mem, tags, ring, prot) && src in tags && (dst !in tags ==> |tags| + 1 < UNUSED)
    ensures Previous(tags, dst).To? ==> Previous(tags, dst).i < |mem| && mem[Previous(tags, dst).i].refCount > 0
    ensures var mem', tags' := Dec(mem, Previous(tags, dst)), tags[dst := tags[src]][src := Null];
      && Consistent(mem', tags', ring, prot)
      && SameBdds(mem, mem')
  {
    var r, gone := tags[src], Previous(tags, dst);
    if gone.To? { PointedIsUsed(mem, tags, dst); }
    var mem', tags' := Dec(mem, gone), tags[dst := r][src := Null];
    forall a | a in tags' && tags'[a].To? ensures tags'[a].i < |mem| && mem[tags'[a].i].refCount != UNUSED {
      PointedIsUsed(mem, tags, if a == dst then src else a);
    }
    RefsOfMove(mem, tags, dst, src);
    CountedAfter(mem, tags, mem', tags', Null, gone);
    CountsKeep(mem, tags, ring, prot, mem', tags');
  }

  lemma RefsOfMove(mem: seq<Ssa>, tags: map<nat, Ref>, dst: nat, src: nat)
    requires src in tags
    ensures forall i: nat :: i < |mem| ==>
      Refs(tags[dst := tags[src]][src := Null], i) + One(Previous(tags, dst), i) == Refs(tags, i)
  {
    forall i: nat | i < |mem|
      ensures Refs(tags[dst := tags[src]][src := Null], i) + One(Previous(tags, dst), i) == Refs(tags, i)
    {
      if dst in tags { RefsOfUpdate(tags, dst, tags[src], i); } else { RefsOfNew(tags, dst, tags[src], i); }
      RefsOfUpdate(tags[dst := tags[src]], src, Null, i);
    }
  }

  /** The object at the head of the ring is taken for a new tag `dst` with diagram `b`. */
  lemma ClaimKeeps(mem: seq<Ssa>, tags: map<nat, Ref>, ring: seq<nat>, prot: set<nat>, dst: nat, b: Edge)
    requires Consistent(mem, tags, ring, prot) && dst !in tags && |tags| + 1 < UNUSED && ring != [] && TagBdd(b)
    ensures ring[0] < |mem|
    ensures var mem', tags' := mem[ring[0] := Ssa(1, b)], tags[dst := To(ring[0])];
      Consistent(mem', tags', ring[1..], prot + {ring[0]}) && SameSets(mem, tags, mem', tags', dst)
    ensures IsUnheld(tags, To(ring[0]))
  {
    var v := ring[0];
    assert v in ring;
    var mem', tags' := mem[v := Ssa(1, b)], tags[dst := To(v)];
    Unheld(mem, tags, To(v));
    forall i: nat | i < |mem| ensures Refs(tags', i) == if mem'[i].refCount == UNUSED then 0 else mem'[i].refCount {
      RefsOfNew(tags, dst, To(v), i);
    }
    assert forall x: nat :: x in ring <==> x == v || x in ring[1..];
  }

  lemma HeadClaimed(mem: seq<Ssa>, tags: map<nat, Ref>, q: seq<nat>, h: nat, t: nat, prot: set<nat>, dst: nat, b: Edge)
    requires |q| == SSA_BLK && h < SSA_BLK && t < SSA_BLK && h != t
    requires Consistent(mem, tags, RingOf(q, h, t), prot) && dst !in tags && |tags| + 1 < UNUSED && TagBdd(b)
    ensures q[h] < |mem|
    ensures var mem', tags' := mem[q[h] := Ssa(1, b)], tags[dst := To(q[h])];
      && Consistent(mem', tags', RingOf(q, Succ(h), t), prot + {q[h]})
      && SameSets(mem, tags, mem', tags', dst)
    ensures IsUnheld(tags, To(q[h]))
  {
    RingPop(q, h, t);
    ClaimKeeps(mem, tags, RingOf(q, h, t), prot, dst, b);
  }

  class SsaHeap {
    var mem: seq<Ssa>
    var tags: map<nat, Ref>
    var h: nat
    var t: nat
    const q: array<nat>
    /** The objects whose diagram the BDD library keeps alive. */
    var protected: set<nat>

    ghost predicate Wf()
      reads this, q
    {
      q.Length == SSA_BLK && h < SSA_BLK && t < SSA_BLK
    }

    ghost function Ring(): seq<nat>
      requires Wf()
      reads this, q
    {
      RingOf(q[..], h, t)
    }

    /** Everything but the cache. */
    ghost predicate Base()
      reads this, q
    {
      && Wf()
      && Consistent(mem, tags, Ring(), protected)
    }

    ghost predicate Valid()
      reads this, q
    {
      Base() && CacheHolds(mem, tags)
    }

    /** The set of offsets that a tag stands for. */
    ghost function TagSet(a: nat): iset<nat>
      requires Base() && a in tags
      reads this, q
    {
      SetOf(mem, tags[a])
    }

    /** ssa_init and ssa_thread_start: one block, and an empty cache. */
    constructor ()
      ensures Valid() && fresh(q) && tags.Keys == {CACHE_L, CACHE_R, CACHE_V} && RingLen(h, t) == SSA_BLK - 1
    {
      mem, tags, h, t, protected := [], map[CACHE_L := Null, CACHE_R := Null, CACHE_V := Null], 0, 0, {};
      q := new nat[SSA_BLK];
      new;
      assert Ring() == [];
      AddSsaBlk();
    }

    // ---------- Blocks and collection ----------

    /** add_ssa_blk: a new block, of which as many objects as fit are put into the ring. */
    method AddSsaBlk()
      requires Base()
      modifies this`mem, this`t, q
      ensures Base() && RingLen(h, t) == SSA_BLK - 1
      ensures old(mem) <= mem && |mem| == |old(mem)| + SSA_BLK
    {
      ghost var ring, mem0 := Ring(), mem;
      var emptyCount := if t >= h then SSA_BLK - 1 - (t - h) else h - t - 1;
      var sp := |mem|;
      mem := mem + seq(SSA_BLK, _ => Ssa(UNUSED, TRUE));
      ghost var mem1 := mem;
      var tempT, i := t, 0;
      while i < emptyCount
        invariant mem == mem1 && t == old(t)
        invariant 0 <= i <= emptyCount && 0 <= tempT < SSA_BLK && RingLen(h, tempT) == SSA_BLK - 1 - emptyCount + i
        invariant RingOf(q[..], h, tempT) == ring + Fresh(sp, i)
      {
        RingPush(q[..], h, tempT, sp + i);
        q[tempT] := sp + i;
        tempT := Succ(tempT);
        i := i + 1;
      }
      t := tempT;
      BlockAdded(mem0, mem, tags, ring, protected, emptyCount);
    }

    /**
     ssa_gc: when the ring is empty, refills it with objects that are not in use, and allocates a block if there are
     few of them. Objects in use are not touched.
     */
    method SsaGc()
      requires Base() && h == t
      modifies this`mem, this`t, this`protected, q
      ensures Base() && old(mem) <= mem
      ensures |mem| == |old(mem)| +
        (if |FreeObjects(old(mem))| < SSA_BLK - 1 - SSA_GC_THRESHOLD then SSA_BLK else 0)
      ensures RingLen(h, t) >= SSA_BLK - 1 - SSA_GC_THRESHOLD && h != t
      ensures RingLen(h, t) == SSA_BLK - 1 || forall i: nat :: i < |mem| && IsFree(mem, i) ==> i in Ring()
    {
      var emptyCount := if t >= h then SSA_BLK - 1 - (t - h) else h - t - 1;
      var tempT, i := t, 0;
      assert RingOf(q[..], h, t) == [];
      while i < |mem|
        invariant mem == old(mem) && t == old(t)
        invariant 0 <= i <= |mem| && 0 <= tempT < SSA_BLK
        invariant RingLen(h, tempT) == SSA_BLK - 1 - emptyCount && emptyCount > 0
        invariant FreeRing(mem, RingOf(q[..], h, tempT)) && Protects(mem, RingOf(q[..], h, tempT), protected)
        invariant forall x: nat :: x in RingOf(q[..], h, tempT) <==> x < i && IsFree(mem, x)
      {
        if mem[i].refCount == 0 || mem[i].refCount == UNUSED {
          RingPush(q[..], h, tempT, i);
          Freed(mem, RingOf(q[..], h, tempT), protected, i);
          q[tempT] := i;
          if mem[i].refCount == 0 && mem[i].bdd != FALSE {
            protected := protected - {i};
          }
          tempT := Succ(tempT);
          emptyCount := emptyCount - 1;
          if emptyCount == 0 {
            t := tempT;
            RingSize(Ring(), FreeObjects(mem));
            return;
          }
        }
        i := i + 1;
      }
      t := tempT;
      RingSize(Ring(), FreeObjects(mem));
      if emptyCount > SSA_GC_THRESHOLD {
        AddSsaBlk();
      }
    }

    // ---------- Tags: construction, assignment, destruction ----------

    /** ssa_tag() */
    method Construct(dst: nat)
      requires Valid() && dst !in tags && |tags| + 1 < UNUSED
      modifies this`tags
      ensures Valid() && SameSets(mem, old(tags), mem, tags, dst) && dst in tags && TagSet(dst) == iset{}
    {
      ghost var tags0 := tags;
      tags := tags[dst := Null];
      forall i: nat | i < |mem| ensures Refs(tags, i) == Refs(tags0, i) { RefsOfNew(tags0, dst, Null, i); }
    }

    /** Stores the pointer of `src` in `dst`, as the copy constructor and the copy assignment do. */
    method CopyRef(dst: nat, src: nat)
      requires Base() && src in tags && (dst !in tags ==> |tags| + 1 < UNUSED)
      modifies this`mem, this`tags
      ensures Base() && tags == old(tags)[dst := old(tags[src])] && SameBdds(old(mem), mem)
    {
      CopyKeeps(mem, tags, Ring(), protected, dst, src);
      var r, gone := tags[src], Previous(tags, dst);
      mem := Inc(mem, r);
      mem := Dec(mem, gone);
      tags := tags[dst := r];
    }

    /** ssa_tag(const ssa_tag &) and operator=(const ssa_tag &) */
    method Copy(dst: nat, src: nat)
      requires Valid() && src in tags && dst >= CACHE_TAGS && (dst !in tags ==> |tags| + 1 < UNUSED)
      modifies this`mem, this`tags
      ensures Valid() && tags == old(tags)[dst := old(tags[src])] && SameBdds(old(mem), mem)
      ensures SameSets(old(mem), old(tags), mem, tags, dst) && TagSet(dst) == old(TagSet(src))
    {
      ghost var mem0, tags0 := mem, tags;
      CopyRef(dst, src);
      forall a | a in tags0 ensures SetOf(mem, tags0[a]) == SetOf(mem0, tags0[a]) {
        SameBddsSameSet(mem0, mem, tags0[a]);
      }
    }

    /** ssa_tag(ssa_tag &&) and operator=(ssa_tag &&) */
    method Move(dst: nat, src: nat)
      requires Valid() && src in tags && dst >= CACHE_TAGS && src >= CACHE_TAGS
      requires dst !in tags ==> |tags| + 1 < UNUSED
      modifies this`mem, this`tags
      ensures Valid() && tags == old(tags)[dst := old(tags[src])][src := Null] && TagSet(src) == iset{}
      ensures dst != src ==> TagSet(dst) == old(TagSet(src))
      ensures forall a :: a in old(tags) && a != dst && a != src ==> TagSet(a) == old(TagSet(a))
    {
      ghost var mem0, tags0 := mem, tags;
      MoveRef(dst, src);
      forall a | a in tags0 ensures SetOf(mem, tags0[a]) == SetOf(mem0, tags0[a]) {
        SameBddsSameSet(mem0, mem, tags0[a]);
      }
    }

    /** Moves the pointer of `src` to `dst`, whose object loses a reference. */
    method MoveRef(dst: nat, src: nat)
      requires Base() && src in tags && (dst !in tags ==> |tags| + 1 < UNUSED)
      modifies this`mem, this`tags
      ensures Base() && tags == old(tags)[dst := old(tags[src])][src := Null] && SameBdds(old(mem), mem)
    {
      MoveKeeps(mem, tags, Ring(), protected, dst, src);
      mem := Dec(mem, Previous(tags, dst));
      tags := tags[dst := tags[src]];
      tags := tags[src := Null];
    }

    /** ~ssa_tag() */
    method Destroy(a: nat)
      requires Valid() && a in tags && a >= CACHE_TAGS
      modifies this`mem, this`tags
      ensures Valid() && tags == old(tags) - {a} && SameSets(old(mem), old(tags), mem, tags, a)
    {
      DestroyKeeps(mem, tags, Ring(), protected, a);
      mem := Dec(mem, tags[a]);
      tags := tags - {a};
    }

    /** operator== */
    predicate Equal(a: nat, b: nat)
      requires a in tags && b in tags
      requires (tags[a].To? ==> tags[a].i < |mem|) && (tags[b].To? ==> tags[b].i < |mem|)
      reads this
    {
      if tags[a] == tags[b] then true
      else if tags[a].Null? || tags[b].Null? then false
      else mem[tags[a].i].bdd == mem[tags[b].i].bdd
    }

    /** Tags compare equal exactly when they stand for the same set. */
    lemma EqualIsSetEquality(a: nat, b: nat)
      requires Base() && a in tags && b in tags
      ensures Equal(a, b) <==> TagSet(a) == TagSet(b)
    {
      if tags[a].To? { PointedIsUsed(mem, tags, a); NotEmpty(mem[tags[a].i].bdd); }
      if tags[b].To? { PointedIsUsed(mem, tags, b); NotEmpty(mem[tags[b].i].bdd); }
      if tags[a].To? && tags[b].To? {
        LabelsDetermine(mem[tags[a].i].bdd, mem[tags[b].i].bdd);
      }
    }

    lemma NullIsEmpty(a: nat)
      requires Base() && a in tags
      ensures tags[a].Null? <==> TagSet(a) == iset{}
    {
      if tags[a].To? { PointedIsUsed(mem, tags, a); NotEmpty(mem[tags[a].i].bdd); }
    }

    // ---------- alloc and combine ----------

    /** Collects when there is no free object. */
    method AwaitFree()
      requires Base()
      modifies this`mem, this`t, this`protected, q
      ensures Base() && h != t && forall a :: a in tags ==> TagSet(a) == old(TagSet(a))
    {
      while h == t
        invariant Base() && old(mem) <= mem
        decreases h == t
      {
        SsaGc();
      }
    }

    /** Takes a free object, after a collection if there is none, for a new tag. */
    method Claim(dst: nat, b: Edge)
      requires Base() && dst !in tags && |tags| + 1 < UNUSED && TagBdd(b)
      modifies this, q
      ensures Base() && tags.Keys == old(tags.Keys) + {dst}
      ensures forall a :: a in old(tags) ==> tags[a] == old(tags[a]) && TagSet(a) == old(TagSet(a))
      ensures IsUnheld(old(tags), tags[dst]) && TagSet(dst) == Labels(b)
    {
      AwaitFree();
      UseFree(dst, b);
    }

    method UseFree(dst: nat, b: Edge)
      requires Base() && dst !in tags && |tags| + 1 < UNUSED && TagBdd(b) && h != t
      modifies this`h, this`mem, this`protected, this`tags
      ensures Base() && tags.Keys == old(tags.Keys) + {dst}
      ensures forall a :: a in old(tags) ==> tags[a] == old(tags[a]) && TagSet(a) == old(TagSet(a))
      ensures IsUnheld(old(tags), tags[dst]) && TagSet(dst) == Labels(b)
    {
      ghost var mem0, tags0 := mem, tags;
      HeadClaimed(mem, tags, q[..], h, t, protected, dst, b);
      var victim := q[h];
      h, mem := Succ(h), mem[victim := Ssa(1, b)];
      protected, tags := protected + {victim}, tags[dst := To(victim)];
      assert SameSets(mem0, tags0, mem, tags, dst);
    }

    /** ssa_tag_alloc: a new tag for one offset, of which the bits below TAG_WIDTH count. */
    method Alloc(dst: nat, offset: nat)
      requires Valid() && dst !in tags && |tags| + 1 < UNUSED
      modifies this, q
      ensures Valid() && tags.Keys == old(tags.Keys) + {dst} && TagSet(dst) == iset{offset % OFFSETS}
      ensures SameSets(old(mem), old(tags), mem, tags, dst) && IsUnheld(old(tags), tags[dst])
    {
      OffsetCube(offset);
      Claim(dst, Cube(0, OffsetBits(offset)));
    }

    /** Fills the cache of combine. */
    method Remember(lhs: nat, rhs: nat, v: nat)
      requires Base() && lhs in tags && rhs in tags && v in tags
      requires lhs >= CACHE_TAGS && rhs >= CACHE_TAGS && v >= CACHE_TAGS
      requires CACHE_L in tags && CACHE_R in tags && CACHE_V in tags
      requires TagSet(v) == TagSet(lhs) + TagSet(rhs)
      modifies this`mem, this`tags
      ensures Valid() && tags.Keys == old(tags.Keys) && Cached(tags, old(tags[lhs]), old(tags[rhs]), old(tags[v]))
      ensures forall a :: a in old(tags) && a >= CACHE_TAGS ==> tags[a] == old(tags[a]) && TagSet(a) == old(TagSet(a))
    {
      ghost var mem0, tags0 := mem, tags;
      CopyRef(CACHE_L, lhs);
      CopyRef(CACHE_R, rhs);
      CopyRef(CACHE_V, v);
      Remembered(mem0, tags0, mem, tags, lhs, rhs, v);
    }

    /** ssa_tag_combine: the new tag `dst` stands for the union, and all other tags keep their sets. */
    method Combine(cache: Cache, dst: nat, lhs: nat, rhs: nat)
      requires Valid() && cache.Sound() && dst !in tags && lhs in tags && rhs in tags && |tags| + 1 < UNUSED
      requires lhs >= CACHE_TAGS && rhs >= CACHE_TAGS
      modifies this, q, cache
      ensures Valid() && cache.Sound() && tags.Keys == old(tags.Keys) + {dst}
      ensures TagSet(dst) == old(TagSet(lhs)) + old(TagSet(rhs))
      ensures forall a :: a in old(tags) && a >= CACHE_TAGS ==> tags[a] == old(tags[a]) && TagSet(a) == old(TagSet(a))
      ensures Shares(old(mem), old(tags), tags, dst, lhs, rhs)
    {
      NullIsEmpty(lhs);
      NullIsEmpty(rhs);
      EqualIsSetEquality(lhs, rhs);
      if tags[lhs].Null? {
        Copy(dst, rhs);
      } else if tags[rhs].Null? || Equal(lhs, rhs) {
        Copy(dst, lhs);
      } else {
        CombineDifferent(cache, dst, lhs, rhs);
      }
    }

    /** The part of combine for different operands that are not empty. */
    method CombineDifferent(cache: Cache, dst: nat, lhs: nat, rhs: nat)
      requires Valid() && cache.Sound() && dst !in tags && lhs in tags && rhs in tags && |tags| + 1 < UNUSED
      requires lhs >= CACHE_TAGS && rhs >= CACHE_TAGS && tags[lhs].To? && tags[rhs].To?
      requires TagSet(lhs) != iset{} && TagSet(rhs) != iset{} && TagSet(lhs) != TagSet(rhs)
      modifies this, q, cache
      ensures Valid() && cache.Sound() && tags.Keys == old(tags.Keys) + {dst}
      ensures TagSet(dst) == old(TagSet(lhs)) + old(TagSet(rhs))
      ensures forall a :: a in old(tags) && a >= CACHE_TAGS ==> tags[a] == old(tags[a]) && TagSet(a) == old(TagSet(a))
      ensures Shares(old(mem), old(tags), tags, dst, lhs, rhs)
    {
      EqualIsSetEquality(CACHE_L, lhs);
      EqualIsSetEquality(CACHE_R, rhs);
      if Equal(CACHE_L, lhs) && Equal(CACHE_R, rhs) {
        Copy(dst, CACHE_V);
      } else {
        CombineUncached(cache, dst, lhs, rhs);
      }
    }

    /** The union is the operand `v`: the cache gets it, and `dst` shares its object. */
    method ShareOperand(dst: nat, lhs: nat, rhs: nat, v: nat)
      requires Valid() && dst !in tags && lhs in tags && rhs in tags && v in tags && |tags| + 1 < UNUSED
      requires lhs >= CACHE_TAGS && rhs >= CACHE_TAGS && v >= CACHE_TAGS
      requires TagSet(v) == TagSet(lhs) + TagSet(rhs)
      modifies this`mem, this`tags
      ensures Valid() && tags.Keys == old(tags.Keys) + {dst} && tags[dst] == old(tags[v])
      ensures TagSet(dst) == old(TagSet(v))
      ensures forall a :: a in old(tags) && a >= CACHE_TAGS ==> tags[a] == old(tags[a]) && TagSet(a) == old(TagSet(a))
      ensures Cached(tags, old(tags[lhs]), old(tags[rhs]), tags[dst])
    {
      Remember(lhs, rhs, v);
      Copy(dst, v);
    }

    method CombineUncached(cache: Cache, dst: nat, lhs: nat, rhs: nat)
      requires Valid() && cache.Sound() && dst !in tags && lhs in tags && rhs in tags && |tags| + 1 < UNUSED
      requires lhs >= CACHE_TAGS && rhs >= CACHE_TAGS && tags[lhs].To? && tags[rhs].To?
      modifies this, q, cache
      ensures Valid() && cache.Sound() && tags.Keys == old(tags.Keys) + {dst}
      ensures TagSet(dst) == old(TagSet(lhs)) + old(TagSet(rhs))
      ensures forall a :: a in old(tags) && a >= CACHE_TAGS ==> tags[a] == old(tags[a]) && TagSet(a) == old(TagSet(a))
      ensures Cached(tags, old(tags[lhs]), old(tags[rhs]), tags[dst])
      ensures if old(TagSet(rhs)) <= old(TagSet(lhs)) then tags[dst] == old(tags[lhs])
              else if old(TagSet(lhs)) <= old(TagSet(rhs)) then tags[dst] == old(tags[rhs])
              else IsUnheld(old(tags), tags[dst])
    {
      PointedIsUsed(mem, tags, lhs);
      PointedIsUsed(mem, tags, rhs);
      var res := Union(cache, mem[tags[lhs].i].bdd, mem[tags[rhs].i].bdd);
      UseUnion(dst, lhs, rhs, res);
    }

    /** The part of combine after the diagram `res` of the union has come back. */
    method UseUnion(dst: nat, lhs: nat, rhs: nat, res: Edge)
      requires Valid() && dst !in tags && lhs in tags && rhs in tags && |tags| + 1 < UNUSED
      requires lhs >= CACHE_TAGS && rhs >= CACHE_TAGS && tags[lhs].To? && tags[rhs].To?
      requires TagBdd(res) && Labels(res) == TagSet(lhs) + TagSet(rhs)
      modifies this, q
      ensures Valid() && tags.Keys == old(tags.Keys) + {dst}
      ensures TagSet(dst) == old(TagSet(lhs)) + old(TagSet(rhs))
      ensures forall a :: a in old(tags) && a >= CACHE_TAGS ==> tags[a] == old(tags[a]) && TagSet(a) == old(TagSet(a))
      ensures Cached(tags, old(tags[lhs]), old(tags[rhs]), tags[dst])
      ensures if old(TagSet(rhs)) <= old(TagSet(lhs)) then tags[dst] == old(tags[lhs])
              else if old(TagSet(lhs)) <= old(TagSet(rhs)) then tags[dst] == old(tags[rhs])
              else IsUnheld(old(tags), tags[dst])
    {
      PointedIsUsed(mem, tags, lhs);
      PointedIsUsed(mem, tags, rhs);
      var l, r := mem[tags[lhs].i].bdd, mem[tags[rhs].i].bdd;
      SubsetTest(l, r, res);
      if res == l {
        ShareOperand(dst, lhs, rhs, lhs);
      } else if res == r {
        ShareOperand(dst, lhs, rhs, rhs);
      } else {
        NewUnion(dst, lhs, rhs, res);
      }
    }

    /** The union is neither operand: it gets a free object, and the cache gets it. */
    method NewUnion(dst: nat, lhs: nat, rhs: nat, res: Edge)
      requires Valid() && dst !in tags && lhs in tags && rhs in tags && |tags| + 1 < UNUSED
      requires lhs >= CACHE_TAGS && rhs >= CACHE_TAGS
      requires TagBdd(res) && Labels(res) == TagSet(lhs) + TagSet(rhs)
      modifies this, q
      ensures Valid() && tags.Keys == old(tags.Keys) + {dst} && IsUnheld(old(tags), tags[dst])
      ensures TagSet(dst) == Labels(res)
      ensures forall a :: a in old(tags) && a >= CACHE_TAGS ==> tags[a] == old(tags[a]) && TagSet(a) == old(TagSet(a))
      ensures Cached(tags, old(tags[lhs]), old(tags[rhs]), tags[dst])
    {
      Claim(dst, res);
      Remember(lhs, rhs, dst);
    }
  }

  predicate IsFree(mem: seq<Ssa>, i: nat)
    requires i < |mem|
  {
    mem[i].refCount == 0 || mem[i].refCount == UNUSED
  }

  /** `n` consecutive objects from `sp` on. */
  ghost function Fresh(sp: nat, n: nat): seq<nat> { seq(n, k => sp + k) }

  lemma BlockAdded(mem: seq<Ssa>, mem': seq<Ssa>, tags: map<nat, Ref>, ring: seq<nat>, prot: set<nat>, n: nat)
    requires Counted(mem, tags) && HoldBdds(mem) && FreeRing(mem, ring) && Protects(mem, ring, prot)
    requires n <= SSA_BLK && mem' == mem + seq(SSA_BLK, _ => Ssa(UNUSED, TRUE))
    ensures var ring' := ring + Fresh(|mem|, n);
      Counted(mem', tags) && HoldBdds(mem') && FreeRing(mem', ring') && Protects(mem', ring', prot)
  {
    forall i | |mem| <= i < |mem'| ensures Refs(tags, i) == 0 {
      assert Holders(tags, i) == {};
    }
    var ring' := ring + Fresh(|mem|, n);
    assert forall i: nat :: i in ring' && i < |mem| ==> i in ring;
    assert forall j :: 0 <= j < |ring| ==> ring'[j] in ring;
    assert forall j :: |ring| <= j < |ring'| ==> ring'[j] == |mem| + (j - |ring|);
  }

  lemma Freed(mem: seq<Ssa>, ring: seq<nat>, prot: set<nat>, i: nat)
    requires FreeRing(mem, ring) && Protects(mem, ring, prot) && i < |mem| && i !in ring && IsFree(mem, i)
    ensures FreeRing(mem, ring + [i]) && Protects(mem, ring + [i], prot - {i})
    ensures mem[i].refCount == UNUSED ==> prot - {i} == prot
  {
    assert forall x: nat :: x in ring + [i] <==> x in ring || x == i;
  }
}
