/** lace_get_head: a task that was not handed the head of the deque finds it by searching for the first empty slot. */
module LaceHead {
  import opened LaceDeque

  /** Exactly the slots from `h` on are empty. */
  predicate EmptyFrom(slots: seq<Slot>, h: nat) {
    h <= |slots| && forall i :: 0 <= i < |slots| ==> (slots[i].thief == Empty <==> h <= i)
  }

  /** The deque is allocated with empty slots. */
  predicate Allocated(s: State) {
    Initial(s) && forall i :: 0 <= i < |s.slots| ==> s.slots[i].thief == Empty
  }

  predicate UnusedEmpty(s: State) {
    forall i: nat :: Live(s) <= i < |s.slots| ==> s.slots[i].thief == Empty
  }

  lemma SyncStepKeepsUnused(s: State)
    requires Inv(s) && Enabled(s, Owner) && UnusedEmpty(s) && !WritesHead(s.pc)
    ensures UnusedEmpty(SyncStep(s))
  {
    if !s.pc.RunInline? && !s.pc.LeapEnd? {
      assert SyncStep(s).slots == s.slots && Live(SyncStep(s)) == Live(s);
    }
  }

  /** A thief without a slot empties none, and neither does winning one. */
  lemma IdleKeepsUnused(s: State, id: nat)
    requires Enabled(s, ThiefStep(id)) && UnusedEmpty(s)
    requires !s.thieves[id].Won? && !s.thieves[id].Marked? && !s.thieves[id].Stored?
    ensures UnusedEmpty(StealStep(s, id))
  {
    var s' := StealStep(s, id);
    forall i: nat | Live(s') <= i < |s'.slots| ensures s'.slots[i].thief == Empty {
      assert s.slots[i].thief == Empty;
    }
  }

  /** The slot of a thief is below the head. */
  lemma HolderKeepsUnused(s: State, s': State, id: nat, i: nat)
    requires SlotsOk(s) && ThievesOk(s) && UnusedEmpty(s) && id in s.thieves && s.thieves[id].Holds(i)
    requires Live(s') == Live(s) && |s'.slots| == |s.slots|
    requires forall k :: 0 <= k < |s.slots| && k != i ==> s'.slots[k] == s.slots[k]
    ensures UnusedEmpty(s')
  {
    assert ThiefOk(s, id);
    forall k: nat | Live(s') <= k < |s'.slots| ensures s'.slots[k].thief == Empty {
      assert s.slots[k].thief == Empty;
    }
  }

  lemma StealKeepsUnused(s: State, id: nat)
    requires Inv(s) && Enabled(s, ThiefStep(id)) && UnusedEmpty(s)
    ensures UnusedEmpty(StealStep(s, id))
  {
    match s.thieves[id]
    case Won(i) => HolderKeepsUnused(s, StealStep(s, id), id, i);
    case Marked(i) => HolderKeepsUnused(s, StealStep(s, id), id, i);
    case Stored(i) => HolderKeepsUnused(s, StealStep(s, id), id, i);
    case _ => IdleKeepsUnused(s, id);
  }

  lemma StepKeepsUnused(s: State, a: Action)
    requires Inv(s) && Enabled(s, a) && UnusedEmpty(s)
    ensures UnusedEmpty(Apply(s, a))
  {
    if a.ThiefStep? {
      StealKeepsUnused(s, a.id);
    } else if a.ThiefFinish? {
      HolderKeepsUnused(s, StealFinish(s, a.id, a.result), a.id, s.thieves[a.id].slot);
    } else if a.Owner? && !WritesHead(s.pc) {
      SyncStepKeepsUnused(s);
    } else if a.Owner? {
      assert SpawnStep(s).slots == s.slots && Live(SpawnStep(s)) == Live(s);
    }
  }

  /** In every reachable state the slots below the head are not empty and all others are. */
  lemma {:induction false} RunKeepsUnused(run: seq<State>, actions: seq<Action>, n: nat)
    requires IsRun(run, actions) && Allocated(run[0]) && n < |run|
    ensures Inv(run[n]) && UnusedEmpty(run[n])
  {
    RunKeeps(run, actions, n);
    if n > 0 {
      var s := run[n - 1];
      RunKeepsUnused(run, actions, n - 1);
      StepKeepsUnused(s, actions[n - 1]);
      assert run[n - 1 + 1] == Apply(s, actions[n - 1]);
    }
  }

  lemma HeadIsFirstEmpty(run: seq<State>, actions: seq<Action>, n: nat)
    requires IsRun(run, actions) && Allocated(run[0]) && n < |run| && run[n].pc == Idle
    ensures EmptyFrom(run[n].slots, run[n].head)
  {
    RunKeepsUnused(run, actions, n);
    var s := run[n];
    forall i | 0 <= i < |s.slots| ensures s.slots[i].thief == Empty <==> s.head <= i {
      if i < s.head {
        assert SlotOk(s, i);
        if i < Stolen(s) && s.slots[i].thief != Completed {
          assert ThiefOk(s, s.slots[i].winner);
        }
      }
    }
  }

  /** Four slots are looked at one by one, then powers of two, then the interval is halved. */
  method GetHead(dq: array<Slot>, ghost h: nat) returns (head: nat)
    requires dq.Length >= 4 && EmptyFrom(dq[..], h)
    ensures head == h
  {
    if dq[0].thief == Empty { return 0; }
    if dq[1].thief == Empty { return 1; }
    if dq[2].thief == Empty { return 2; }
    if dq[3].thief == Empty { return 3; }
    var low, high := 2, dq.Length;
    while true
      invariant 2 <= low < h <= high <= dq.Length
      decreases high - low
    {
      if low * 2 >= high {
        break;
      } else if dq[low * 2].thief == Empty {
        high := low * 2;
        break;
      } else {
        low := low * 2;
      }
    }
    while low < high
      invariant low <= h <= high <= dq.Length
    {
      var mid := low + (high - low) / 2;
      if dq[mid].thief == Empty {
        high := mid;
      } else {
        low := mid + 1;
      }
    }
    head := low;
  }
}
