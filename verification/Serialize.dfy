/** Serialization of sylvan_bdd.c. */
module Serialize {
  /*
   Nodes are numbered children first, written as records of numbers, and read back. The two search trees are modelled
   as maps by handle and by number, the file as a sequence of records.
   */
  import opened Bdd
  import opened Common

  /** A handle in which the node is replaced by its number; 0 is the terminal. */
  datatype Ref = Ref(mark: bool, num: nat)

  datatype Record = Record(v: nat, low: Ref, high: Ref)

  predicate Canon(n: Node) { Ordered(n, 0) }

  // ---------- Numberings ----------

  /** The unmarked handle of a node. */
  function Plain(n: Node): Edge { Edge(false, n) }

  function Elements(es: seq<Edge>): set<Edge> { set e | e in es }

  /** The nodes of `n` that are not known, children first: the order in which they are numbered. */
  function NewNodes(known: set<Edge>, n: Node): (r: seq<Edge>)
    ensures forall x :: x in r ==> x !in known && !x.c && x.n.Node?
    ensures Known(known + Elements(r), n)
    decreases n
  {
    if Known(known, n) then []
    else
      var known' := known + {Plain(n)};
      var low := NewNodes(known', n.low);
      low + NewNodes(known' + Elements(low), n.high) + [Plain(n)]
  }

  predicate Known(known: set<Edge>, n: Node) { n.Terminal? || Plain(n) in known }

  function Number(numbers: map<Edge, nat>, n: Node): nat
    requires Known(numbers.Keys, n)
  {
    if n.Terminal? then 0 else numbers[Plain(n)]
  }

  /** `k` is the number of `n` in the list of the nodes that can be looked up by number. */
  predicate IsNumber(order: seq<Edge>, n: Node, k: nat) {
    if n.Terminal? then k == 0 else 0 < k <= |order| && order[k - 1] == Plain(n)
  }

  /** The table by number holds the nodes of the list. */
  ghost predicate Lists(order: seq<Edge>, reversed: map<nat, Edge>) {
    && (forall k: nat :: k in reversed <==> 1 <= k <= |order|)
    && (forall k :: k in reversed ==> reversed[k] == order[k - 1])
  }

  /** The nodes `added` get the numbers from `counter` on, and the others keep theirs. */
  ghost predicate Numbered(numbers: map<Edge, nat>, counter: nat, added: seq<Edge>, numbers': map<Edge, nat>) {
    && numbers'.Keys == numbers.Keys + Elements(added)
    && (forall x :: x in numbers ==> numbers'[x] == numbers[x])
    && forall k :: 0 <= k < |added| ==> added[k] in numbers' && numbers'[added[k]] == counter + k
  }

  /** Insertion into the table by number does not overwrite: only nodes whose numbers are free join the list. */
  function Extended(order: seq<Edge>, counter: nat, added: seq<Edge>): seq<Edge>
    requires counter <= |order| + 1
  {
    order + added[Min(|order| + 1 - counter, |added|)..]
  }

  ghost predicate Grown(numbers: map<Edge, nat>, order: seq<Edge>, counter: nat, added: seq<Edge>,
                        numbers': map<Edge, nat>, order': seq<Edge>, counter': nat)
  {
    && Numbered(numbers, counter, added, numbers')
    && counter' == counter + |added|
    && 1 <= counter <= |order| + 1 && order' == Extended(order, counter, added)
  }

  lemma GrownNothing(numbers: map<Edge, nat>, order: seq<Edge>, counter: nat)
    requires 1 <= counter <= |order| + 1
    ensures Grown(numbers, order, counter, [], numbers, order, counter)
  {
  }

  lemma NumberedTwice(numbers: map<Edge, nat>, counter: nat, added: seq<Edge>, numbers': map<Edge, nat>,
                      more: seq<Edge>, numbers'': map<Edge, nat>)
    requires Numbered(numbers, counter, added, numbers') && Numbered(numbers', counter + |added|, more, numbers'')
    ensures Numbered(numbers, counter, added + more, numbers'')
  {
    var all := added + more;
    assert Elements(all) == Elements(added) + Elements(more);
    forall k | 0 <= k < |all| ensures all[k] in numbers'' && numbers''[all[k]] == counter + k {
      if k < |added| {
        assert all[k] == added[k] && added[k] in numbers';
      } else {
        assert all[k] == more[k - |added|];
      }
    }
  }

  lemma ExtendedTwice(order: seq<Edge>, counter: nat, added: seq<Edge>, more: seq<Edge>)
    requires counter <= |order| + 1
    ensures counter + |added| <= |Extended(order, counter, added)| + 1
    ensures Extended(Extended(order, counter, added), counter + |added|, more) == Extended(order, counter, added + more)
  {
    var m := |order| + 1 - counter;
    if m < |added| {
      assert (added + more)[m..] == added[m..] + more;
    } else {
      assert (added + more)[Min(m, |added + more|)..] == more[Min(m - |added|, |more|)..];
    }
  }

  lemma ExtendedOnce(order: seq<Edge>, counter: nat, n: Edge)
    requires counter <= |order| + 1
    ensures Extended(order, counter, [n]) == if counter <= |order| then order else order + [n]
  {
  }

  lemma GrownTwice(numbers: map<Edge, nat>, order: seq<Edge>, counter: nat, added: seq<Edge>,
                   numbers': map<Edge, nat>, order': seq<Edge>, counter': nat, more: seq<Edge>,
                   numbers'': map<Edge, nat>, order'': seq<Edge>, counter'': nat)
    requires Grown(numbers, order, counter, added, numbers', order', counter')
    requires Grown(numbers', order', counter', more, numbers'', order'', counter'')
    ensures Grown(numbers, order, counter, added + more, numbers'', order'', counter'')
  {
    NumberedTwice(numbers, counter, added, numbers', more, numbers'');
    ExtendedTwice(order, counter, added, more);
  }

  /** A node that is marked by 0 while its children are numbered gets its number last. */
  lemma NumberedLast(numbers: map<Edge, nat>, counter: nat, n: Edge, below: seq<Edge>, numbers': map<Edge, nat>)
    requires n !in numbers && n !in below && Numbered(numbers[n := 0], counter, below, numbers')
    ensures Numbered(numbers, counter, below + [n], numbers'[n := counter + |below|])
  {
    var all, final := below + [n], numbers'[n := counter + |below|];
    assert Elements(all) == Elements(below) + {n};
    forall k | 0 <= k < |all| ensures all[k] in final && final[all[k]] == counter + k {
      if k < |below| { assert all[k] == below[k] != n; }
    }
  }

  lemma GrownNode(numbers: map<Edge, nat>, order: seq<Edge>, counter: nat, n: Edge, below: seq<Edge>,
                  numbers': map<Edge, nat>, order': seq<Edge>, counter': nat)
    requires n !in numbers && n !in below
    requires Grown(numbers[n := 0], order, counter, below, numbers', order', counter')
    ensures Grown(numbers, order, counter, below + [n], numbers'[n := counter'],
                  if counter' <= |order'| then order' else order' + [n], counter' + 1)
  {
    NumberedLast(numbers, counter, n, below, numbers');
    ExtendedTwice(order, counter, below, [n]);
    ExtendedOnce(order', counter', n);
  }

  /** The children are numbered one after the other, and then the node itself. */
  lemma GrownBelow(numbers: map<Edge, nat>, order: seq<Edge>, counter: nat, n: Node,
                   numbers': map<Edge, nat>, order': seq<Edge>, counter': nat,
                   numbers'': map<Edge, nat>, order'': seq<Edge>, counter'': nat)
    requires !Known(numbers.Keys, n)
    requires Grown(numbers[Plain(n) := 0], order, counter, NewNodes(numbers[Plain(n) := 0].Keys, n.low),
                   numbers', order', counter')
    requires Grown(numbers', order', counter', NewNodes(numbers'.Keys, n.high), numbers'', order'', counter'')
    ensures Grown(numbers, order, counter, NewNodes(numbers.Keys, n), numbers''[Plain(n) := counter''],
                  if counter'' <= |order''| then order'' else order'' + [Plain(n)], counter'' + 1)
  {
    var e, started := Plain(n), numbers[Plain(n) := 0];
    var known := numbers.Keys + {e};
    assert started.Keys == known;
    var low := NewNodes(known, n.low);
    assert numbers'.Keys == known + Elements(low);
    var high := NewNodes(known + Elements(low), n.high);
    GrownTwice(started, order, counter, low, numbers', order', counter', high, numbers'', order'', counter'');
    GrownNode(numbers, order, counter, e, low + high, numbers'', order'', counter'');
  }

  // ---------- What reads back ----------

  /** What every state keeps: listed handles are numbered, and numbers are those of listed handles. */
  ghost predicate Bounded(order: seq<Edge>, numbers: map<Edge, nat>) {
    && (forall i :: 0 <= i < |order| ==> order[i] in numbers)
    && forall x :: x in numbers ==> numbers[x] <= |order|
  }

  /** Only unmarked handles of canonical nodes are numbered, and the nodes below them have been numbered as well. */
  ghost predicate Tables(order: seq<Edge>, numbers: map<Edge, nat>) {
    && Bounded(order, numbers)
    && forall x {:trigger Entry(order, numbers, x)} :: x in numbers ==> Entry(order, numbers, x)
  }

  ghost predicate Entry(order: seq<Edge>, numbers: map<Edge, nat>, x: Edge)
    requires x in numbers
  {
    && !x.c && x.n.Node? && Canon(x.n) && 0 < numbers[x] <= |order|
    && Known(numbers.Keys, x.n.low) && Known(numbers.Keys, x.n.high)
  }

  /** The numbers of the two tables fit together, and children have smaller numbers. */
  ghost predicate Faithful(order: seq<Edge>, numbers: map<Edge, nat>)
    requires Tables(order, numbers)
  {
    && (forall x {:trigger Entry(order, numbers, x)} :: x in numbers ==>
          Entry(order, numbers, x) && order[numbers[x] - 1] == x)
    && forall i {:trigger InPlace(order, numbers, i)} :: 0 <= i < |order| ==> InPlace(order, numbers, i)
  }

  ghost predicate InPlace(order: seq<Edge>, numbers: map<Edge, nat>, i: nat)
    requires i < |order| && Tables(order, numbers)
  {
    var e := order[i];
    && numbers[e] == i + 1
    && e.n.Node?
    && Known(numbers.Keys, e.n.low) && Number(numbers, e.n.low) <= i
    && Known(numbers.Keys, e.n.high) && Number(numbers, e.n.high) <= i
  }

  /** The new nodes are canonical and no larger than `n`, and their children are known or come before them. */
  lemma {:induction false} NewNodesShape(known: set<Edge>, n: Node)
    requires Canon(n)
    ensures forall k :: 0 <= k < |NewNodes(known, n)| ==> NewNode(known, SizeN(n), NewNodes(known, n), k)
    decreases n
  {
    if !Known(known, n) {
      OrderedMonotone(n.low, n.v + 1, 0);
      OrderedMonotone(n.high, n.v + 1, 0);
      var known' := known + {Plain(n)};
      var low := NewNodes(known', n.low);
      var high := NewNodes(known' + Elements(low), n.high);
      NewNodesShape(known', n.low);
      NewNodesShape(known' + Elements(low), n.high);
      NewNodesJoin(known, n, low, high);
    }
  }

  lemma NewNodesJoin(known: set<Edge>, n: Node, low: seq<Edge>, high: seq<Edge>)
    requires n.Node? && Canon(n)
    requires forall k :: 0 <= k < |low| ==> NewNode(known + {Plain(n)}, SizeN(n.low), low, k)
    requires forall k :: 0 <= k < |high| ==> NewNode(known + {Plain(n)} + Elements(low), SizeN(n.high), high, k)
    requires Known(known + {Plain(n)} + Elements(low), n.low)
    requires Known(known + {Plain(n)} + Elements(low) + Elements(high), n.high)
    ensures forall k :: 0 <= k <= |low| + |high| ==> NewNode(known, SizeN(n), low + high + [Plain(n)], k)
  {
    var all := low + high + [Plain(n)];
    forall k | 0 <= k < |all| ensures NewNode(known, SizeN(n), all, k) {
      if k < |low| {
        assert NewNode(known + {Plain(n)}, SizeN(n.low), low, k) && all[..k] == low[..k];
      } else if k < |low| + |high| {
        assert NewNode(known + {Plain(n)} + Elements(low), SizeN(n.high), high, k - |low|);
        assert all[..k] == low + high[..k - |low|];
      } else {
        assert all[..k] == low + high;
      }
    }
  }

  ghost predicate NewNode(known: set<Edge>, size: nat, added: seq<Edge>, k: nat)
    requires k < |added|
  {
    var x := added[k];
    && !x.c && x.n.Node? && Canon(x.n) && SizeN(x.n) <= size
    && (Known(known, x.n.low) || Plain(x.n.low) in added[..k])
    && (Known(known, x.n.high) || Plain(x.n.high) in added[..k])
  }

  lemma GrownBounded(numbers: map<Edge, nat>, order: seq<Edge>, counter: nat, added: seq<Edge>,
                     numbers': map<Edge, nat>, order': seq<Edge>, counter': nat)
    requires Bounded(order, numbers) && Grown(numbers, order, counter, added, numbers', order', counter')
    ensures Bounded(order', numbers') && counter' <= |order'| + 1
  {
    forall i | 0 <= i < |order'| ensures order'[i] in numbers' {
      if i >= |order| { assert order'[i] in added; }
    }
    forall x | x in numbers' ensures numbers'[x] <= |order'| {
      if x !in numbers {
        var k :| 0 <= k < |added| && added[k] == x;
      }
    }
  }

  lemma GrownTables(numbers: map<Edge, nat>, order: seq<Edge>, counter: nat, n: Node,
                    numbers': map<Edge, nat>, order': seq<Edge>, counter': nat)
    requires Tables(order, numbers) && Canon(n)
    requires Grown(numbers, order, counter, NewNodes(numbers.Keys, n), numbers', order', counter')
    ensures Tables(order', numbers')
  {
    var added := NewNodes(numbers.Keys, n);
    NewNodesShape(numbers.Keys, n);
    GrownBounded(numbers, order, counter, added, numbers', order', counter');
    forall x {:trigger Entry(order', numbers', x)} | x in numbers' ensures Entry(order', numbers', x) {
      if x in numbers {
        assert Entry(order, numbers, x);
      } else {
        var k :| 0 <= k < |added| && added[k] == x;
        assert NewNode(numbers.Keys, SizeN(n), added, k);
        assert forall y :: y in added[..k] ==> y in Elements(added);
      }
    }
  }

  /** A new node can be looked up by its number exactly when the number was not taken. */
  lemma GrownReadsBack(numbers: map<Edge, nat>, order: seq<Edge>, counter: nat, added: seq<Edge>,
                       numbers': map<Edge, nat>, order': seq<Edge>, counter': nat, k: nat)
    requires Bounded(order, numbers) && k < |added| && added[k] !in numbers && !added[k].c && added[k].n.Node?
    requires Grown(numbers, order, counter, added, numbers', order', counter')
    ensures IsNumber(order', added[k].n, numbers'[added[k]]) <==> counter + k > |order|
  {
    var m := |order| + 1 - counter;
    if counter + k > |order| {
      assert order'[counter + k - 1] == added[m..][k - m];
    } else {
      assert order'[counter + k - 1] == order[counter + k - 1];
    }
  }

  lemma NewNodesLast(known: set<Edge>, n: Node)
    requires !Known(known, n)
    ensures NewNodes(known, n) != [] && NewNodes(known, n)[|NewNodes(known, n)| - 1] == Plain(n)
  {
  }

  /** The root is found again by its number exactly when it had a number already, or gets a free one. */
  lemma RootReadsBack(numbers: map<Edge, nat>, order: seq<Edge>, counter: nat, n: Node,
                      numbers': map<Edge, nat>, order': seq<Edge>, counter': nat)
    requires Bounded(order, numbers)
    requires (Tables(order, numbers) && Faithful(order, numbers)) || NewNodes(numbers.Keys, n) != []
    requires Grown(numbers, order, counter, NewNodes(numbers.Keys, n), numbers', order', counter')
    requires Known(numbers'.Keys, n)
    ensures IsNumber(order', n, Number(numbers', n)) <==>
      NewNodes(numbers.Keys, n) == [] || counter + |NewNodes(numbers.Keys, n)| > |order| + 1
  {
    var added := NewNodes(numbers.Keys, n);
    if !Known(numbers.Keys, n) {
      NewNodesLast(numbers.Keys, n);
      GrownReadsBack(numbers, order, counter, added, numbers', order', counter', |added| - 1);
    } else if n.Node? {
      var e := Plain(n);
      assert added == [] && numbers'[e] == numbers[e];
      assert Entry(order, numbers, e);
      assert order'[numbers[e] - 1] == order[numbers[e] - 1] == e;
    }
  }

  /** Numbering keeps the tables faithful exactly when nothing is new or the next number is free. */
  lemma GrownFaithful(numbers: map<Edge, nat>, order: seq<Edge>, counter: nat, n: Node,
                      numbers': map<Edge, nat>, order': seq<Edge>, counter': nat)
    requires Tables(order, numbers) && Faithful(order, numbers) && Tables(order', numbers') && Canon(n)
    requires Grown(numbers, order, counter, NewNodes(numbers.Keys, n), numbers', order', counter')
    ensures Faithful(order', numbers') <==> NewNodes(numbers.Keys, n) == [] || counter == |order| + 1
  {
    var added := NewNodes(numbers.Keys, n);
    if added == [] {
      assert numbers' == numbers && order' == order;
    } else if counter == |order| + 1 {
      assert order' == order + added;
      NewNodesShape(numbers.Keys, n);
      GrownInPlace(numbers, order, SizeN(n), added, numbers', order');
    } else {
      GrownReadsBack(numbers, order, counter, added, numbers', order', counter', 0);
      assert Entry(order', numbers', added[0]);
    }
  }

  lemma GrownInPlace(numbers: map<Edge, nat>, order: seq<Edge>, size: nat, added: seq<Edge>,
                     numbers': map<Edge, nat>, order': seq<Edge>)
    requires Tables(order, numbers) && Faithful(order, numbers) && Tables(order', numbers')
    requires Numbered(numbers, |order| + 1, added, numbers') && order' == order + added
    requires forall k :: 0 <= k < |added| ==> NewNode(numbers.Keys, size, added, k)
    ensures Faithful(order', numbers')
  {
    forall x {:trigger Entry(order', numbers', x)} | x in numbers'
      ensures Entry(order', numbers', x) && order'[numbers'[x] - 1] == x
    {
      assert Entry(order', numbers', x);
      NumberedEntry(numbers, order, added, numbers', order', x);
    }
    forall i {:trigger InPlace(order', numbers', i)} | 0 <= i < |order'| ensures InPlace(order', numbers', i) {
      if i < |order| {
        assert InPlace(order, numbers, i) && order'[i] == order[i];
      } else {
        NewInPlace(numbers, order, size, added, numbers', order', i - |order|);
      }
    }
  }

  lemma NumberedEntry(numbers: map<Edge, nat>, order: seq<Edge>, added: seq<Edge>,
                      numbers': map<Edge, nat>, order': seq<Edge>, x: Edge)
    requires Tables(order, numbers) && Faithful(order, numbers) && Numbered(numbers, |order| + 1, added, numbers')
    requires order' == order + added && x in numbers'
    ensures 0 < numbers'[x] <= |order'| && order'[numbers'[x] - 1] == x
  {
    if x in numbers {
      assert Entry(order, numbers, x);
    } else {
      var k :| 0 <= k < |added| && added[k] == x;
    }
  }

  lemma NewInPlace(numbers: map<Edge, nat>, order: seq<Edge>, size: nat, added: seq<Edge>,
                   numbers': map<Edge, nat>, order': seq<Edge>, k: nat)
    requires Tables(order, numbers) && Tables(order', numbers') && Numbered(numbers, |order| + 1, added, numbers')
    requires order' == order + added && k < |added| && NewNode(numbers.Keys, size, added, k)
    ensures InPlace(order', numbers', |order| + k)
  {
    var x := added[k];
    assert order'[|order| + k] == x;
    if x.n.low.Node? { ChildBefore(numbers, order, added, numbers', k, Plain(x.n.low)); }
    if x.n.high.Node? { ChildBefore(numbers, order, added, numbers', k, Plain(x.n.high)); }
  }

  lemma ChildBefore(numbers: map<Edge, nat>, order: seq<Edge>, added: seq<Edge>, numbers': map<Edge, nat>,
                    k: nat, y: Edge)
    requires Tables(order, numbers) && Numbered(numbers, |order| + 1, added, numbers') && k < |added|
    requires y in numbers || y in added[..k]
    ensures y in numbers' && numbers'[y] <= |order| + k
  {
    if y in numbers {
      assert Entry(order, numbers, y);
    } else {
      var j :| 0 <= j < k && added[j] == y;
    }
  }

  lemma OnlyListed(order: seq<Edge>, numbers: map<Edge, nat>)
    requires Tables(order, numbers) && Faithful(order, numbers)
    ensures numbers.Keys == Elements(order)
  {
    forall x | x in numbers ensures x in order { assert Entry(order, numbers, x); }
  }

  // ---------- Files ----------

  /** The record of a node, by the numbers of its children. */
  function RecordOf(numbers: map<Edge, nat>, n: Node): Record
    requires n.Node? && Known(numbers.Keys, n.low) && Known(numbers.Keys, n.high)
  {
    Record(n.v, Ref(false, Number(numbers, n.low)), Ref(n.hc, Number(numbers, n.high)))
  }

  /** The record of node `i` of the list. */
  ghost predicate IsRecord(rec: Record, order: seq<Edge>, i: nat)
    requires i < |order| && order[i].n.Node?
  {
    var n := order[i].n;
    && rec.v == n.v
    && !rec.low.mark && IsNumber(order, n.low, rec.low.num) && rec.low.num <= i
    && rec.high.mark == n.hc && IsNumber(order, n.high, rec.high.num) && rec.high.num <= i
  }

  predicate PlainNode(e: Edge) { !e.c && e.n.Node? && Canon(e.n) }

  /** The file holds the nodes of the list from `lo` on. */
  ghost predicate Describes(file: seq<Record>, order: seq<Edge>, lo: nat) {
    && lo + |file| == |order|
    && (forall i :: 0 <= i < |order| ==> PlainNode(order[i]))
    && (forall i, j :: 0 <= i < j < |order| ==> order[i] != order[j])
    && forall k :: 0 <= k < |file| ==> IsRecord(file[k], order, lo + k)
  }

  /** What fromfile makes of a record: children are looked up by number, whatever is there. */
  function Loaded(order: seq<Edge>, rec: Record): Edge
    requires rec.low.num <= |order| && rec.high.num <= |order|
  {
    Joined(rec.v, ByNumber(order, rec.low), ByNumber(order, rec.high))
  }

  function ByNumber(order: seq<Edge>, r: Ref): Edge
    requires r.num <= |order|
  {
    if r.num == 0 then Edge(r.mark, Terminal) else Edge(r.mark != order[r.num - 1].c, order[r.num - 1].n)
  }

  /** A record is loaded as the node it describes when the nodes before it are in place. */
  lemma LoadedAgain(order: seq<Edge>, nodes: seq<Edge>, rec: Record, i: nat)
    requires i < |nodes| && PlainNode(nodes[i]) && IsRecord(rec, nodes, i) && nodes[..i] <= order
    ensures Loaded(order, rec) == nodes[i]
    ensures Known(Elements(order[..i]), nodes[i].n.low) && Known(Elements(order[..i]), nodes[i].n.high)
  {
    var n := nodes[i].n;
    forall k | 0 <= k < i ensures order[k] == nodes[k] { assert order[k] == nodes[..i][k]; }
    assert ByNumber(order, rec.low) == Edge(false, n.low) && ByNumber(order, rec.high) == Edge(n.hc, n.high);
  }

  /** The lists have the same handles at the numbers that both have. */
  ghost predicate Agree(order: seq<Edge>, nodes: seq<Edge>) {
    forall i :: 0 <= i < |order| && i < |nodes| ==> order[i] == nodes[i]
  }

  /** A node is put into both tables, or into neither when its number is taken by itself. */
  lemma LoadedTables(numbers: map<Edge, nat>, order: seq<Edge>, numbers': map<Edge, nat>, order': seq<Edge>,
                     e: Edge, k: nat)
    requires Tables(order, numbers) && PlainNode(e) && 0 < k <= |order| + 1
    requires Known(Elements(order[..k - 1]), e.n.low) && Known(Elements(order[..k - 1]), e.n.high)
    requires e !in order[..k - 1] && (k <= |order| ==> order[k - 1] == e)
    requires numbers' == if e in numbers then numbers else numbers[e := k]
    requires order' == if k <= |order| then order else order + [e]
    ensures Tables(order', numbers')
    ensures Faithful(order, numbers) ==> Faithful(order', numbers')
  {
    forall x {:trigger Entry(order', numbers', x)} | x in numbers' ensures Entry(order', numbers', x) {
      if x in numbers { assert Entry(order, numbers, x); }
    }
    if Faithful(order, numbers) {
      if k > |order| {
        OnlyListed(order, numbers);
        LoadedLast(numbers, order, e);
      } else {
        assert e == order[k - 1] && e in numbers;
      }
    }
  }

  lemma LoadedLast(numbers: map<Edge, nat>, order: seq<Edge>, e: Edge)
    requires Tables(order, numbers) && Faithful(order, numbers) && PlainNode(e) && e !in order
    requires Tables(order + [e], numbers[e := |order| + 1])
    requires Known(Elements(order), e.n.low) && Known(Elements(order), e.n.high)
    ensures e !in numbers && Faithful(order + [e], numbers[e := |order| + 1])
  {
    var order', numbers' := order + [e], numbers[e := |order| + 1];
    OnlyListed(order, numbers);
    forall x {:trigger Entry(order', numbers', x)} | x in numbers'
      ensures Entry(order', numbers', x) && order'[numbers'[x] - 1] == x
    {
      assert Entry(order', numbers', x);
      assert x in numbers ==> Entry(order, numbers, x);
    }
    forall x | x in order ensures x in numbers && numbers'[x] <= |order| { assert Entry(order, numbers, x); }
    forall i {:trigger InPlace(order', numbers', i)} | 0 <= i < |order'| ensures InPlace(order', numbers', i) {
      if i < |order| { assert InPlace(order, numbers, i) && order'[i] == order[i]; }
    }
  }

  class Serializer {
    /** sylvan_ser_set */
    var numbers: map<Edge, nat>
    /** sylvan_ser_reversed_set */
    var reversed: map<nat, Edge>
    var counter: nat
    var done: nat
    /** The handles of the table by number. */
    ghost var order: seq<Edge>

    /** What any sequence of adding, writing and loading keeps. */
    ghost predicate Valid()
      reads this
    {
      Lists(order, reversed) && Bounded(order, numbers) && 1 <= counter <= |order| + 1 && done <= |order|
    }

    /** As long as files have been loaded to where they belong. */
    ghost predicate Closed()
      reads this
    {
      Valid() && Tables(order, numbers)
    }

    /** Every numbered node is found again by its number. */
    ghost predicate Sound()
      reads this
    {
      Closed() && Faithful(order, numbers)
    }

    /** sylvan_serialize_reset, and the initial state */
    constructor ()
      ensures Sound() && order == [] && numbers == map[] && counter == 1 && done == 0
    {
      numbers, reversed, counter, done, order := map[], map[], 1, 0, [];
    }

    /** Numbers the nodes of a diagram that have no number, children first. */
    method AssignRec(e: Edge) returns (num: nat)
      requires Valid()
      modifies this`numbers, this`reversed, this`counter, this`order
      ensures Valid()
      ensures Grown(old(numbers), old(order), old(counter), NewNodes(old(numbers.Keys), e.n), numbers, order, counter)
      ensures Known(numbers.Keys, e.n) && num == Number(numbers, e.n)
      decreases e.n, 1
    {
      if e.n.Terminal? {
        GrownNothing(numbers, order, counter);
        return 0;
      }
      var s := StripMark(e);
      if s !in numbers {
        AssignNew(e.n);
      } else {
        GrownNothing(numbers, order, counter);
      }
      num := numbers[s];
    }

    method AssignNew(n: Node)
      requires Valid() && !Known(numbers.Keys, n)
      modifies this`numbers, this`reversed, this`counter, this`order
      ensures Valid()
      ensures Grown(old(numbers), old(order), old(counter), NewNodes(old(numbers.Keys), n), numbers, order, counter)
      ensures Plain(n) in numbers
      decreases n, 0
    {
      ghost var numbers0, order0, counter0 := numbers, order, counter;
      numbers := numbers[Plain(n) := 0];
      var _ := AssignRec(Edge(false, n.low));
      ghost var numbers1, order1, counter1 := numbers, order, counter;
      var _ := AssignRec(Edge(n.hc, n.high));
      GrownBelow(numbers0, order0, counter0, n, numbers1, order1, counter1, numbers, order, counter);
      AssignNext(Plain(n));
    }

    /** The next number, and an entry in the table by number if there is none. */
    method AssignNext(s: Edge)
      requires Valid()
      modifies this`numbers, this`reversed, this`counter, this`order
      ensures Valid() && counter == old(counter) + 1 && numbers == old(numbers)[s := old(counter)]
      ensures order == if old(counter) <= |old(order)| then old(order) else old(order) + [s]
    {
      numbers := numbers[s := counter];
      counter := counter + 1;
      if numbers[s] !in reversed {
        reversed := reversed[numbers[s] := s];
        order := order + [s];
      }
    }

    /**
     sylvan_serialize_add. Sound tables stay sound exactly when nothing is new or the next number is free, and the
     returned number leads back to the handle exactly when its node has a number already or gets a free one.
     */
    method Add(e: Edge) returns (r: Ref)
      requires Valid() && Canonical(e)
      modifies this`numbers, this`reversed, this`counter, this`order
      ensures Valid() && old(order) <= order && (old(Closed()) ==> Closed())
      ensures Grown(old(numbers), old(order), old(counter), NewNodes(old(numbers.Keys), e.n), numbers, order, counter)
      ensures Known(numbers.Keys, e.n) && r == Get(e)
      ensures old(Sound()) ==> (Sound() <==> NewNodes(old(numbers.Keys), e.n) == [] || old(counter) == |old(order)| + 1)
      ensures old(Sound()) || NewNodes(old(numbers.Keys), e.n) != [] ==> (GetReversed(r) == e <==>
        NewNodes(old(numbers.Keys), e.n) == [] || old(counter) + |NewNodes(old(numbers.Keys), e.n)| > |old(order)| + 1)
    {
      ghost var numbers0, order0, counter0 := numbers, order, counter;
      var num := AssignRec(e);
      r := Ref(e.c, num);
      if old(Closed()) {
        GrownTables(numbers0, order0, counter0, e.n, numbers, order, counter);
      }
      if old(Sound()) {
        GrownFaithful(numbers0, order0, counter0, e.n, numbers, order, counter);
      }
      if old(Sound()) || NewNodes(numbers0.Keys, e.n) != [] {
        RootReadsBack(numbers0, order0, counter0, e.n, numbers, order, counter);
      }
    }

    /** sylvan_serialize_get */
    function Get(e: Edge): (r: Ref)
      requires Valid() && Known(numbers.Keys, e.n)
      reads this
      ensures r.num <= |order|
      ensures Sound() ==> GetReversed(r) == e
    {
      assert e.n.Node? && Sound() ==> Entry(order, numbers, Plain(e.n));
      Ref(e.c, Number(numbers, e.n))
    }

    /** sylvan_serialize_get_reversed */
    function GetReversed(r: Ref): (e: Edge)
      requires Valid() && r.num <= |order|
      reads this
      ensures forall n: Node :: IsNumber(order, n, r.num) ==> e == Edge(r.mark, n)
      ensures e == ByNumber(order, r)
    {
      if r.num == 0 then Edge(r.mark, Terminal) else Edge(r.mark != reversed[r.num].c, reversed[r.num].n)
    }

    /** sylvan_serialize_tofile: the records of the nodes that have not been written. */
    method ToFile() returns (file: seq<Record>)
      requires Closed() && counter == |order| + 1
      modifies this`done
      ensures Closed() && done == |order| && |file| == |order| - old(done)
      ensures forall k :: 0 <= k < |file| ==>
        Entry(order, numbers, order[old(done) + k]) && file[k] == RecordOf(numbers, order[old(done) + k].n)
      ensures Sound() ==> Describes(file, order, old(done))
    {
      file := [];
      var index := done;
      while index < counter - 1
        invariant Closed() && done == old(done) <= index <= |order| && |file| == index - done
        invariant forall k :: 0 <= k < |file| ==>
          Entry(order, numbers, order[done + k]) && file[k] == RecordOf(numbers, order[done + k].n)
      {
        assert Entry(order, numbers, order[index]);
        file := file + [RecordOf(numbers, reversed[index + 1].n)];
        index := index + 1;
      }
      ghost var lo := done;
      done := counter - 1;
      if Sound() { Written(file, lo); }
    }

    lemma Written(file: seq<Record>, lo: nat)
      requires Sound() && lo + |file| == |order|
      requires forall k :: 0 <= k < |file| ==>
        Entry(order, numbers, order[lo + k]) && file[k] == RecordOf(numbers, order[lo + k].n)
      ensures Describes(file, order, lo)
    {
      forall i | 0 <= i < |order| ensures PlainNode(order[i]) && InPlace(order, numbers, i) {
        assert Entry(order, numbers, order[i]);
      }
      forall k | 0 <= k < |file| ensures IsRecord(file[k], order, lo + k) {
        var n := order[lo + k].n;
        ChildNumber(n.low);
        ChildNumber(n.high);
      }
    }

    lemma ChildNumber(n: Node)
      requires Sound() && Known(numbers.Keys, n)
      ensures IsNumber(order, n, Number(numbers, n))
    {
      if n.Node? { assert Entry(order, numbers, Plain(n)); }
    }

    /**
     sylvan_serialize_fromfile: loads a file that describes the nodes after the first `done`. The nodes are found by
     their numbers afterwards exactly when the tables held no other handles under these numbers before.
     */
    method FromFile(file: seq<Record>, ghost nodes: seq<Edge>)
      requires Valid() && Describes(file, nodes, done)
      modifies this`numbers, this`reversed, this`done, this`order
      ensures Valid() && done == |nodes| && old(order) <= order
      ensures Agree(old(order), nodes) <==> forall i :: 0 <= i < |nodes| ==> reversed[i + 1] == nodes[i]
      ensures Agree(old(order), nodes) ==> (old(Closed()) ==> Closed()) && (old(Sound()) ==> Sound())
      ensures Agree(old(order), nodes) ==> order == if |nodes| <= |old(order)| then old(order) else nodes
    {
      ghost var loaded, first := done, order;
      var i := 0;
      while i < |file|
        invariant 0 <= i <= |file| && Valid() && done == loaded + i && first <= order
        invariant Agree(first, nodes) ==> (old(Closed()) ==> Closed()) && (old(Sound()) ==> Sound())
        invariant Agree(first, nodes) ==> order == Merged(first, nodes, done)
      {
        assert IsRecord(file[i], nodes, loaded + i);
        LoadNext(file[i], nodes, first);
        i := i + 1;
      }
      AgreeExact(first, nodes, order);
    }

    method LoadNext(rec: Record, ghost nodes: seq<Edge>, ghost first: seq<Edge>)
      requires Valid() && done < |nodes| && PlainNode(nodes[done]) && IsRecord(rec, nodes, done)
      requires forall j, k :: 0 <= j < k < |nodes| ==> nodes[j] != nodes[k]
      requires Agree(first, nodes) ==> order == Merged(first, nodes, done)
      modifies this`numbers, this`reversed, this`done, this`order
      ensures Valid() && done == old(done) + 1 && old(order) <= order
      ensures Agree(first, nodes) ==> (old(Closed()) ==> Closed()) && (old(Sound()) ==> Sound())
      ensures Agree(first, nodes) ==> order == Merged(first, nodes, done)
    {
      ghost var numbers0, order0, closed := numbers, order, Closed();
      var bdd := LoadRecord(rec);
      if Agree(first, nodes) {
        FirstAgree(first, nodes, order0, done - 1);
        LoadedAgain(order0, nodes, rec, done - 1);
        if closed {
          LoadedTables(numbers0, order0, numbers, order, bdd, done);
        }
      }
    }

    /** The record is put into both tables under the next number, unless the handle or the number is there. */
    method LoadRecord(rec: Record) returns (bdd: Edge)
      requires Valid() && rec.low.num <= done && rec.high.num <= done
      modifies this`numbers, this`reversed, this`done, this`order
      ensures Valid() && done == old(done) + 1 && bdd == Loaded(old(order), rec)
      ensures numbers == if bdd in old(numbers) then old(numbers) else old(numbers)[bdd := done]
      ensures order == if done <= |old(order)| then old(order) else old(order) + [bdd]
    {
      var low, high := GetReversed(rec.low), GetReversed(rec.high);
      bdd := Joined(rec.v, low, high);
      done := done + 1;
      if bdd !in numbers {
        numbers := numbers[bdd := done];
      }
      if done !in reversed {
        reversed := reversed[done := bdd];
        order := order + [bdd];
      }
    }
  }

  /** The list while a file is loaded to where it belongs. */
  function Merged(first: seq<Edge>, nodes: seq<Edge>, i: nat): seq<Edge>
    requires i <= |nodes|
  {
    if i <= |first| then first else nodes[..i]
  }

  lemma FirstAgree(first: seq<Edge>, nodes: seq<Edge>, order: seq<Edge>, i: nat)
    requires Agree(first, nodes) && i < |nodes| && i <= |order|
    requires order == Merged(first, nodes, i)
    requires forall j, k :: 0 <= j < k < |nodes| ==> nodes[j] != nodes[k]
    ensures nodes[..i] <= order && nodes[i] !in order[..i] && (i < |order| ==> order[i] == nodes[i])
    ensures Merged(first, nodes, i + 1) == if i < |order| then order else order + [nodes[i]]
  {
    assert order[..i] == nodes[..i];
  }

  lemma AgreeExact(first: seq<Edge>, nodes: seq<Edge>, order: seq<Edge>)
    requires first <= order && |nodes| <= |order|
    requires Agree(first, nodes) ==> order == Merged(first, nodes, |nodes|)
    ensures Agree(first, nodes) <==> forall i :: 0 <= i < |nodes| ==> order[i] == nodes[i]
  {
  }

  // ---------- The round trip ----------

  /** Consecutive files describe growing lists. */
  ghost predicate Chain(files: seq<seq<Record>>, lists: seq<seq<Edge>>) {
    && |lists| == |files| + 1 && lists[0] == []
    && forall j :: 0 <= j < |files| ==> lists[j] <= lists[j + 1] && Describes(files[j], lists[j + 1], |lists[j]|)
  }

  /** Adds the handles of every batch and then writes a file, with one serializer. */
  method WriteFiles(batches: seq<seq<Edge>>)
    returns (files: seq<seq<Record>>, refs: seq<seq<Ref>>, ghost lists: seq<seq<Edge>>)
    requires forall b, k :: 0 <= b < |batches| && 0 <= k < |batches[b]| ==> Canonical(batches[b][k])
    ensures |files| == |refs| == |batches| && Chain(files, lists)
    ensures forall b :: 0 <= b < |batches| ==> |refs[b]| == |batches[b]|
    ensures forall b, k :: 0 <= b < |batches| && 0 <= k < |batches[b]| ==>
      refs[b][k].mark == batches[b][k].c && IsNumber(lists[|files|], batches[b][k].n, refs[b][k].num)
  {
    var writer := new Serializer();
    files, refs, lists := [], [], [[]];
    while |files| < |batches|
      invariant fresh(writer) && writer.Sound() && writer.counter == |writer.order| + 1 && writer.done == |writer.order|
      invariant |files| == |refs| <= |batches| && Chain(files, lists) && lists[|files|] == writer.order
      invariant forall b :: 0 <= b < |files| ==> |refs[b]| == |batches[b]|
      invariant forall b, k :: 0 <= b < |files| && 0 <= k < |batches[b]| ==>
        refs[b][k].mark == batches[b][k].c && IsNumber(writer.order, batches[b][k].n, refs[b][k].num)
    {
      ghost var before := writer.order;
      var rs := AddAll(writer, batches[|files|]);
      var file := writer.ToFile();
      files, refs, lists := files + [file], refs + [rs], lists + [writer.order];
    }
  }

  method AddAll(writer: Serializer, es: seq<Edge>) returns (rs: seq<Ref>)
    requires writer.Sound() && writer.counter == |writer.order| + 1
    requires forall k :: 0 <= k < |es| ==> Canonical(es[k])
    modifies writer`numbers, writer`reversed, writer`counter, writer`order
    ensures writer.Sound() && writer.counter == |writer.order| + 1 && old(writer.order) <= writer.order
    ensures |rs| == |es|
    ensures forall k :: 0 <= k < |es| ==> rs[k].mark == es[k].c && IsNumber(writer.order, es[k].n, rs[k].num)
  {
    rs := [];
    while |rs| < |es|
      invariant writer.Sound() && writer.counter == |writer.order| + 1 && old(writer.order) <= writer.order
      invariant |rs| <= |es|
      invariant forall k :: 0 <= k < |rs| ==> rs[k].mark == es[k].c && IsNumber(writer.order, es[k].n, rs[k].num)
    {
      var r := AddOne(writer, es[|rs|]);
      rs := rs + [r];
    }
  }

  method AddOne(writer: Serializer, e: Edge) returns (r: Ref)
    requires writer.Sound() && writer.counter == |writer.order| + 1 && Canonical(e)
    modifies writer`numbers, writer`reversed, writer`counter, writer`order
    ensures writer.Sound() && writer.counter == |writer.order| + 1 && old(writer.order) <= writer.order
    ensures r.mark == e.c && IsNumber(writer.order, e.n, r.num)
  {
    r := writer.Add(e);
    assert e.n.Node? ==> Entry(writer.order, writer.numbers, Plain(e.n));
  }

  method LoadFiles(files: seq<seq<Record>>, ghost lists: seq<seq<Edge>>) returns (reader: Serializer)
    requires Chain(files, lists)
    ensures fresh(reader) && reader.Sound() && reader.order == lists[|files|]
  {
    reader := new Serializer();
    var j := 0;
    while j < |files|
      invariant 0 <= j <= |files| && fresh(reader) && reader.Sound()
      invariant reader.order == lists[j] && reader.done == |lists[j]|
    {
      reader.FromFile(files[j], lists[j + 1]);
      j := j + 1;
    }
  }

  /**
   The round trip: handles added in any number of batches, with a file written after each batch, are read back from
   the files into reset tables as the same handles, marks included, and under the same numbers.
   */
  method RoundTrip(batches: seq<seq<Edge>>) returns (reader: Serializer, refs: seq<seq<Ref>>)
    requires forall b, k :: 0 <= b < |batches| && 0 <= k < |batches[b]| ==> Canonical(batches[b][k])
    ensures reader.Sound() && |refs| == |batches|
    ensures forall b :: 0 <= b < |batches| ==> |refs[b]| == |batches[b]|
    ensures forall b, k :: 0 <= b < |batches| && 0 <= k < |batches[b]| ==>
      var e := batches[b][k];
      Known(reader.numbers.Keys, e.n) && reader.Get(e) == refs[b][k] && reader.GetReversed(refs[b][k]) == e
  {
    var files;
    ghost var lists;
    files, refs, lists := WriteFiles(batches);
    reader := LoadFiles(files, lists);
    forall b, k | 0 <= b < |batches| && 0 <= k < |batches[b]|
      ensures Known(reader.numbers.Keys, batches[b][k].n)
      ensures reader.Get(batches[b][k]) == refs[b][k]
    {
      var e, num := batches[b][k], refs[b][k].num;
      assert IsNumber(reader.order, e.n, num);
      assert e.n.Node? ==> InPlace(reader.order, reader.numbers, num - 1);
    }
  }

  // ---------- Adding after loading, and loading after adding ----------

  lemma OneNew(known: set<Edge>, n: Node)
    requires n.Node? && n.low.Terminal? && n.high.Terminal? && Plain(n) !in known
    ensures NewNodes(known, n) == [Plain(n)]
  {
  }

  /** The tables after adding one node. */
  method AddedOne(x: Node) returns (ser: Serializer)
    requires x.Node? && x.low.Terminal? && x.high.Terminal? && Canon(x)
    ensures fresh(ser) && ser.Sound() && ser.order == [Plain(x)] && ser.counter == 2 && ser.done == 0
  {
    ser := new Serializer();
    OneNew({}, x);
    var _ := ser.Add(Plain(x));
    assert ser.order == [Plain(x)];
  }

  method WriteOne(x: Node) returns (file: seq<Record>)
    requires x.Node? && x.low.Terminal? && x.high.Terminal? && Canon(x)
    ensures Describes(file, [Plain(x)], 0)
  {
    var writer := AddedOne(x);
    file := writer.ToFile();
  }

  /** The tables after loading the file of one node. */
  method LoadOne(x: Node) returns (reader: Serializer)
    requires x.Node? && x.low.Terminal? && x.high.Terminal? && Canon(x)
    ensures fresh(reader) && reader.Sound() && reader.order == [Plain(x)]
    ensures reader.numbers.Keys == {Plain(x)} && reader.counter == 1
  {
    var file := WriteOne(x);
    reader := new Serializer();
    reader.FromFile(file, [Plain(x)]);
    OnlyListed(reader.order, reader.numbers);
  }

  const FIRST: Edge := Edge(false, Node(0, Terminal, true, Terminal))
  const SECOND: Edge := Edge(false, Node(1, Terminal, true, Terminal))

  /**
   After loading a file into reset tables the next number is still 1. Adding another diagram of one node gives it
   the number 1 as well, which leads to the loaded node.
   */
  method AddAfterLoading() returns (added: Edge, found: Edge)
    ensures added == SECOND && found == FIRST
  {
    var reader := LoadOne(FIRST.n);
    added := SECOND;
    OneNew(reader.numbers.Keys, added.n);
    var r := reader.Add(added);
    found := reader.GetReversed(r);
  }

  /** After adding one node, a file of another node is loaded: its number 1 leads to the added node. */
  method LoadAfterAdding() returns (file: seq<Record>, found: Edge)
    ensures Describes(file, [SECOND], 0) && found == FIRST
  {
    file := WriteOne(SECOND.n);
    var reader := AddedOne(FIRST.n);
    reader.FromFile(file, [SECOND]);
    found := reader.GetReversed(Ref(false, 1));
  }
}
