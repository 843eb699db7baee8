/** What the operations of the deque achieve, however the steps of its owner and of the thieves are interleaved. */
module LaceProgress {
  /*
   When a steal succeeds, what SPAWN and SYNC do with the shared part, and that neither takes more than a few steps of
   its own. The steps of one thread in a run are given by their positions, which are consecutive for that thread.
   */
  import opened Common
  import opened LaceDeque

  predicate OfThief(a: Action, id: nat) {
    (a.ThiefStart? || a.ThiefStep? || a.ThiefFinish?) && a.id == id
  }

  predicate OfOwner(a: Action) { a.Spawn? || a.Sync? || a.Owner? || a.Return? || a.LeapRead? }

  /** The positions of consecutive steps of a thief. */
  ghost predicate ThiefSteps(actions: seq<Action>, id: nat, at: seq<nat>) {
    && (forall k :: 0 <= k < |at| ==> at[k] < |actions| && OfThief(actions[at[k]], id))
    && (forall k :: 0 < k < |at| ==> at[k - 1] < at[k] && NoneOf(actions, id, at[k - 1] + 1, at[k]))
  }

  ghost predicate NoneOf(actions: seq<Action>, id: nat, i: nat, j: nat) {
    forall m :: i <= m < j && m < |actions| ==> !OfThief(actions[m], id)
  }

  /** The positions of consecutive steps of the owner. */
  ghost predicate OwnerSteps(actions: seq<Action>, at: seq<nat>) {
    && (forall k :: 0 <= k < |at| ==> at[k] < |actions| && OfOwner(actions[at[k]]))
    && (forall k :: 0 < k < |at| ==> at[k - 1] < at[k] && NoneOfOwner(actions, at[k - 1] + 1, at[k]))
  }

  ghost predicate NoneOfOwner(actions: seq<Action>, i: nat, j: nat) {
    forall m :: i <= m < j && m < |actions| ==> !OfOwner(actions[m])
  }

  // ---------- Steals ----------

  /** Other steps leave a thief where it is. */
  lemma {:induction false} ThiefStays(run: seq<State>, actions: seq<Action>, id: nat, i: nat, j: nat)
    requires IsRun(run, actions) && i <= j < |run| && NoneOf(actions, id, i, j)
    ensures id in run[j].thieves <==> id in run[i].thieves
    ensures id in run[i].thieves ==> run[j].thieves[id] == run[i].thieves[id]
    decreases j - i
  {
    if i < j {
      var a := actions[i];
      assert !OfThief(a, id) && run[i + 1] == Apply(run[i], a);
      OtherThief(run[i], a, id);
      ThiefStays(run, actions, id, i + 1, j);
    }
  }

  lemma OtherThief(s: State, a: Action, id: nat)
    requires Enabled(s, a) && !OfThief(a, id)
    ensures id in Apply(s, a).thieves <==> id in s.thieves
    ensures id in s.thieves ==> Apply(s, a).thieves[id] == s.thieves[id]
  {
    if OfOwner(a) {
      OwnerKeepsThieves(s, a);
    } else if a.ThiefStep? {
      StepKeepsOthers(s, a.id, id);
    }
  }

  lemma OwnerKeepsThieves(s: State, a: Action)
    requires Enabled(s, a) && OfOwner(a)
    ensures Apply(s, a).thieves == s.thieves
  {
    if a.Owner? && !WritesHead(s.pc) {
      assert SyncStep(s).thieves == s.thieves;
    }
  }

  lemma StepKeepsOthers(s: State, d: nat, id: nat)
    requires Enabled(s, ThiefStep(d)) && d != id
    ensures id in StealStep(s, d).thieves <==> id in s.thieves
    ensures id in s.thieves ==> StealStep(s, d).thieves[id] == s.thieves[id]
  {
  }

  /** The next step of a thief finds it where its last step has left it. */
  lemma ThiefNext(run: seq<State>, actions: seq<Action>, id: nat, at: seq<nat>, k: nat)
    requires IsRun(run, actions) && ThiefSteps(actions, id, at) && k + 1 < |at|
    requires id in run[at[k] + 1].thieves
    ensures id in run[at[k + 1]].thieves && run[at[k + 1]].thieves[id] == run[at[k] + 1].thieves[id]
    ensures Enabled(run[at[k + 1]], actions[at[k + 1]])
    ensures run[at[k + 1] + 1] == Apply(run[at[k + 1]], actions[at[k + 1]])
  {
    ThiefStays(run, actions, id, at[k] + 1, at[k + 1]);
    var a := actions[at[k + 1]];
  }

  /** An attempt on a deque whose owner has declared everything stolen ends at once. */
  lemma StealRefused(run: seq<State>, actions: seq<Action>, id: nat, at: seq<nat>)
    requires IsRun(run, actions) && ThiefSteps(actions, id, at) && |at| == 2
    requires actions[at[0]] == ThiefStart(id) && run[at[1]].allstolen
    ensures run[at[1] + 1] == DropThief(run[at[1]], id)
  {
    var s := run[at[0]];
    assert run[at[0] + 1] == Apply(s, actions[at[0]]);
    ThiefNext(run, actions, id, at, 0);
  }

  /**
   An attempt that does not find everything declared stolen takes three steps. It wins the slot at the tail that it has
   read, and raises the tail by one, if and only if it has read a tail below the split and tail and split are the same
   when it swaps them. It leaves without a slot only when it has read that nothing is shared, and then the owner
   is asked to share, or when tail and split have changed since.
   */
  lemma StealOutcome(run: seq<State>, actions: seq<Action>, id: nat, at: seq<nat>)
    requires IsRun(run, actions) && ThiefSteps(actions, id, at) && |at| == 4
    requires actions[at[0]] == ThiefStart(id) && !run[at[1]].allstolen
    ensures var read, before, after := run[at[2]].ts, run[at[3]], run[at[3] + 1];
      if read.tail < read.split && before.ts == read then
        && after.ts == TailSplit(read.tail + 1, read.split)
        && after.thieves == before.thieves[id := Won(read.tail)] && after.movesplit == before.movesplit
        && read.tail < |before.slots| && after.slots[read.tail].winner == id
      else if read.tail < read.split then after == DropThief(before, id)
      else after == DropThief(before.(movesplit := true), id)
  {
    StealReads(run, actions, id, at);
    LastStep(run[at[3]], id);
  }

  /** The steps of the attempt up to the compare-and-swap. */
  lemma StealReads(run: seq<State>, actions: seq<Action>, id: nat, at: seq<nat>)
    requires IsRun(run, actions) && ThiefSteps(actions, id, at) && |at| == 4
    requires actions[at[0]] == ThiefStart(id) && !run[at[1]].allstolen
    ensures Enabled(run[at[3]], ThiefStep(id)) && run[at[3] + 1] == StealStep(run[at[3]], id)
    ensures run[at[3]].thieves[id] == if run[at[2]].ts.tail < run[at[2]].ts.split then Loaded(run[at[2]].ts) else Asking
  {
    assert run[at[0] + 1] == Apply(run[at[0]], actions[at[0]]);
    ThiefNext(run, actions, id, at, 0);
    FirstSteps(run[at[1]], id);
    ThiefNext(run, actions, id, at, 1);
    PeekStep(run[at[2]], id);
    ThiefNext(run, actions, id, at, 2);
  }

  lemma FirstSteps(s: State, id: nat)
    requires Enabled(s, ThiefStep(id)) && s.thieves[id] == Start
    ensures StealStep(s, id) == if s.allstolen then DropThief(s, id) else SetThief(s, id, Peeked)
  {
  }

  lemma PeekStep(s: State, id: nat)
    requires Enabled(s, ThiefStep(id)) && s.thieves[id] == Peeked
    ensures StealStep(s, id).thieves[id] == if s.ts.tail < s.ts.split then Loaded(s.ts) else Asking
  {
  }

  lemma LastStep(s: State, id: nat)
    requires Enabled(s, ThiefStep(id)) && (s.thieves[id].Loaded? || s.thieves[id] == Asking)
    ensures s.thieves[id] == Asking ==> StealStep(s, id) == DropThief(s.(movesplit := true), id)
    ensures s.thieves[id].Loaded? && s.thieves[id].ts != s.ts ==> StealStep(s, id) == DropThief(s, id)
    ensures s.thieves[id].Loaded? && s.thieves[id].ts == s.ts && s.ts.tail < s.ts.split ==>
      var s' := StealStep(s, id);
      && s'.ts == TailSplit(s.ts.tail + 1, s.ts.split) && s'.thieves == s.thieves[id := Won(s.ts.tail)]
      && s'.movesplit == s.movesplit && s.ts.tail < |s.slots| && s'.slots[s.ts.tail].winner == id
  {
  }

  // ---------- Stolen tasks ----------

  ghost predicate SlotKept(s: State, s': State, i: nat)
    requires i < |s.slots| && s.slots[i].task < |s.tasks|
  {
    && |s'.slots| == |s.slots| && s'.slots[i] == s.slots[i]
    && s.slots[i].task < |s'.tasks| && s'.tasks[s.slots[i].task] == s.tasks[s.slots[i].task]
  }

  /** Nobody else touches a slot while a thief holds it, nor the task in it. */
  lemma HeldStep(s: State, a: Action, id: nat, i: nat)
    requires Inv(s) && Enabled(s, a) && !OfThief(a, id) && id in s.thieves && s.thieves[id].Holds(i)
    ensures i < |s.slots| && s.slots[i].task < |s.tasks| && SlotKept(s, Apply(s, a), i)
  {
    assert ThiefOk(s, id);
    assert SlotOk(s, i);
    match a
    case Return(_) => assert FrameOk(s, |s.frames| - 1);
    case ThiefStep(d) => HeldFromThief(s, d, id, i);
    case ThiefFinish(d, _) =>
      assert ThiefOk(s, d);
      assert SlotOk(s, s.thieves[d].slot);
    case Owner => if !WritesHead(s.pc) { HeldFromSync(s, id, i); }
    case _ =>
  }

  lemma HeldFromSync(s: State, id: nat, i: nat)
    requires Inv(s) && Enabled(s, Owner) && !WritesHead(s.pc) && id in s.thieves && s.thieves[id].Holds(i)
    ensures i < |s.slots| && s.slots[i].task < |s.tasks| && SlotKept(s, SyncStep(s), i)
  {
    assert ThiefOk(s, id);
    assert SlotOk(s, i);
    assert SlotOk(s, s.head - 1);
    if !s.pc.RunInline? && !s.pc.LeapEnd? {
      assert SyncStep(s).slots == s.slots && SyncStep(s).tasks == s.tasks;
    }
  }

  lemma HeldFromThief(s: State, d: nat, id: nat, i: nat)
    requires Inv(s) && Enabled(s, ThiefStep(d)) && d != id && id in s.thieves && s.thieves[id].Holds(i)
    ensures i < |s.slots| && s.slots[i].task < |s.tasks| && SlotKept(s, StealStep(s, d), i)
  {
    assert ThiefOk(s, id);
    assert ThiefOk(s, d);
    assert SlotOk(s, i);
    if s.thieves[d].Holds(s.thieves[id].slot) { assert false; }
    match s.thieves[d]
    case Marked(j) => assert SlotOk(s, j);
    case _ =>
  }

  lemma {:induction false} HeldStays(run: seq<State>, actions: seq<Action>, id: nat, n: nat, m: nat, i: nat)
    requires IsRun(run, actions) && n <= m < |run| && NoneOf(actions, id, n, m)
    requires id in run[n].thieves && run[n].thieves[id].Holds(i)
    ensures i < |run[n].slots| && run[n].slots[i].task < |run[n].tasks| && SlotKept(run[n], run[m], i)
    decreases m - n
  {
    RunKeeps(run, actions, n);
    assert ThiefOk(run[n], id);
    if n < m {
      assert !OfThief(actions[n], id) && run[n + 1] == Apply(run[n], actions[n]);
      HeldStep(run[n], actions[n], id, i);
      OtherThief(run[n], actions[n], id);
      HeldStays(run, actions, id, n + 1, m, i);
    }
  }

  /** What a thief does with the slot it has won, at each of its four steps. */
  ghost predicate HolderEffect(s: State, a: Action, s': State, id: nat, i: nat) {
    && i < |s.slots| == |s'.slots| && s.slots[i].task < |s.tasks| == |s'.tasks| && id in s.thieves
    && var t := s.slots[i].task;
    && s'.slots[i].task == t
    && match s.thieves[id]
       case Won(_) =>
         && s.tasks[t].runs == 0 && s'.tasks[t] == s.tasks[t] && s'.slots[i].thief == By(id)
         && id in s'.thieves && s'.thieves[id] == Marked(i)
       case Marked(_) =>
         s'.tasks[t].runs == s.tasks[t].runs + 1 && id in s'.thieves && s'.thieves[id] == Running(i, t)
       case Running(_, _) =>
         && a.ThiefFinish? && s'.slots[i].res == a.result && s'.tasks[t].result == Some(a.result)
         && s'.tasks[t].runs == s.tasks[t].runs && id in s'.thieves && s'.thieves[id] == Stored(i)
       case Stored(_) =>
         s'.slots[i] == s.slots[i].(thief := Completed) && s'.tasks[t] == s.tasks[t] && id !in s'.thieves
       case _ => true
  }

  lemma HolderStepEffect(s: State, a: Action, id: nat, i: nat)
    requires Inv(s) && Enabled(s, a) && OfThief(a, id) && id in s.thieves && s.thieves[id].Holds(i)
    ensures HolderEffect(s, a, Apply(s, a), id, i)
  {
    assert ThiefOk(s, id);
  }

  /**
   A thief that has won a slot marks it as its own, runs the task in it, stores the result of that run, and marks the
   slot completed: four steps, whatever the others do in between.
   */
  lemma StealCompletes(run: seq<State>, actions: seq<Action>, id: nat, at: seq<nat>, i: nat)
    requires IsRun(run, actions) && ThiefSteps(actions, id, at) && |at| == 4
    requires id in run[at[0]].thieves && run[at[0]].thieves[id] == Won(i)
    ensures i < |run[at[0]].slots| && run[at[0]].slots[i].task < |run[at[0]].tasks|
    ensures run[at[0]].tasks[run[at[0]].slots[i].task].runs == 0
    ensures i < |run[at[0] + 1].slots| && run[at[0] + 1].slots[i].thief == By(id)
    ensures id in run[at[1] + 1].thieves && run[at[1] + 1].thieves[id] == Running(i, run[at[0]].slots[i].task)
    ensures actions[at[2]].ThiefFinish?
    ensures var t, r, s := run[at[0]].slots[i].task, actions[at[2]].result, run[at[3] + 1];
      && id !in s.thieves && i < |s.slots| && t < |s.tasks|
      && s.slots[i].task == t && s.slots[i].thief == Completed && s.slots[i].res == r
      && s.tasks[t].runs == 1 && s.tasks[t].result == Some(r)
  {
    StealRuns(run, actions, id, at, i);
    HolderTwice(run, actions, id, at, 2, i);
  }

  /** The first two of these steps. */
  lemma StealRuns(run: seq<State>, actions: seq<Action>, id: nat, at: seq<nat>, i: nat)
    requires IsRun(run, actions) && ThiefSteps(actions, id, at) && |at| >= 3
    requires id in run[at[0]].thieves && run[at[0]].thieves[id] == Won(i)
    ensures i < |run[at[0]].slots| && run[at[0]].slots[i].task < |run[at[0]].tasks|
    ensures run[at[0]].tasks[run[at[0]].slots[i].task].runs == 0
    ensures i < |run[at[0] + 1].slots| && run[at[0] + 1].slots[i].thief == By(id)
    ensures id in run[at[1] + 1].thieves && run[at[1] + 1].thieves[id] == Running(i, run[at[0]].slots[i].task)
    ensures id in run[at[2]].thieves && run[at[2]].thieves[id] == Running(i, run[at[0]].slots[i].task)
    ensures var t, s := run[at[0]].slots[i].task, run[at[2]];
      i < |s.slots| && s.slots[i].task == t < |s.tasks| && s.tasks[t].runs == 1
  {
    HolderTwice(run, actions, id, at, 0, i);
    HolderTwice(run, actions, id, at, 1, i);
  }

  /** Two consecutive steps of a thief with the slot that it holds. */
  lemma HolderTwice(run: seq<State>, actions: seq<Action>, id: nat, at: seq<nat>, k: nat, i: nat)
    requires IsRun(run, actions) && ThiefSteps(actions, id, at) && k + 1 < |at|
    requires id in run[at[k]].thieves && run[at[k]].thieves[id].Holds(i) && !run[at[k]].thieves[id].Stored?
    ensures HolderEffect(run[at[k]], actions[at[k]], run[at[k] + 1], id, i)
    ensures id in run[at[k + 1]].thieves && run[at[k + 1]].thieves[id] == run[at[k] + 1].thieves[id]
    ensures SlotKept(run[at[k] + 1], run[at[k + 1]], i)
    ensures HolderEffect(run[at[k + 1]], actions[at[k + 1]], run[at[k + 1] + 1], id, i)
  {
    HolderNext(run, actions, id, at, k, i);
    ThiefNext(run, actions, id, at, k);
    HeldStays(run, actions, id, at[k] + 1, at[k + 1], i);
    HolderNext(run, actions, id, at, k + 1, i);
  }

  lemma HolderNext(run: seq<State>, actions: seq<Action>, id: nat, at: seq<nat>, k: nat, i: nat)
    requires IsRun(run, actions) && ThiefSteps(actions, id, at) && k < |at|
    requires id in run[at[k]].thieves && run[at[k]].thieves[id].Holds(i)
    ensures Inv(run[at[k]]) && Enabled(run[at[k]], actions[at[k]]) && OfThief(actions[at[k]], id)
    ensures run[at[k] + 1] == Apply(run[at[k]], actions[at[k]])
    ensures HolderEffect(run[at[k]], actions[at[k]], run[at[k] + 1], id, i)
  {
    RunKeeps(run, actions, at[k]);
    HolderStepEffect(run[at[k]], actions[at[k]], id, i);
  }

  // ---------- The owner's steps ----------

  /** What the owner finds as it has left it: its own fields and what only it writes; the tail may have risen. */
  ghost predicate OwnerSame(s: State, s': State) {
    && s'.pc == s.pc && s'.head == s.head && s'.wsplit == s.wsplit && s'.wallstolen == s.wallstolen
    && s'.frames == s.frames && s'.allstolen == s.allstolen && s'.ts.split == s.ts.split
    && s.ts.tail <= s'.ts.tail && (s.movesplit ==> s'.movesplit)
    && |s'.slots| == |s.slots| && |s'.tasks| == |s.tasks|
    && (forall i :: 0 <= i < |s.slots| ==> s'.slots[i].task == s.slots[i].task)
    && (forall t :: 0 <= t < |s.tasks| ==> s'.tasks[t].loc == s.tasks[t].loc)
  }

  lemma ThiefKeepsOwner(s: State, a: Action)
    requires Enabled(s, a) && !OfOwner(a)
    ensures OwnerSame(s, Apply(s, a))
  {
    match a
    case ThiefStep(id) => StealKeepsOwner(s, id);
    case ThiefFinish(id, r) => FinishKeepsOwner(s, id, r);
    case _ =>
  }

  lemma StealKeepsOwner(s: State, id: nat)
    requires Enabled(s, ThiefStep(id))
    ensures OwnerSame(s, StealStep(s, id))
  {
    match s.thieves[id]
    case Marked(_) => MarkedKeepsOwner(s, id);
    case _ =>
  }

  lemma MarkedKeepsOwner(s: State, id: nat)
    requires Enabled(s, ThiefStep(id)) && s.thieves[id].Marked?
    ensures OwnerSame(s, StealStep(s, id))
  {
  }

  lemma FinishKeepsOwner(s: State, id: nat, r: int)
    requires Enabled(s, ThiefFinish(id, r))
    ensures OwnerSame(s, StealFinish(s, id, r))
  {
  }

  lemma {:induction false} OwnerWaits(run: seq<State>, actions: seq<Action>, i: nat, j: nat)
    requires IsRun(run, actions) && i <= j < |run| && NoneOfOwner(actions, i, j)
    ensures OwnerSame(run[i], run[j])
    decreases j - i
  {
    if i < j {
      assert !OfOwner(actions[i]) && run[i + 1] == Apply(run[i], actions[i]);
      ThiefKeepsOwner(run[i], actions[i]);
      OwnerWaits(run, actions, i + 1, j);
    }
  }

  /** One step of the owner, and the state in which it takes its next one. */
  lemma OwnerNext(run: seq<State>, actions: seq<Action>, at: seq<nat>, k: nat)
    requires IsRun(run, actions) && OwnerSteps(actions, at) && k < |at|
    ensures Inv(run[at[k]]) && Enabled(run[at[k]], actions[at[k]])
    ensures run[at[k] + 1] == Apply(run[at[k]], actions[at[k]])
    ensures k + 1 < |at| ==> OwnerSame(run[at[k] + 1], run[at[k + 1]])
    ensures k + 1 < |at| && run[at[k] + 1].pc != Idle ==> actions[at[k + 1]] == Owner
  {
    RunKeeps(run, actions, at[k]);
    var a := actions[at[k]];
    if k + 1 < |at| {
      OwnerWaits(run, actions, at[k] + 1, at[k + 1]);
      var b := actions[at[k + 1]];
    }
  }

  // ---------- Every operation ends ----------

  /** A bound for the steps that the owner still has to take. */
  function Rank(pc: OwnerPc): nat {
    match pc
    case Idle => 0
    case SpawnWritten => 3
    case SpawnCleared => 2
    case SpawnPublished => 1
    case SpawnGrow => 2
    case SpawnGrown => 1
    case Syncing => 10
    case SyncSlow => 9
    case Shrink => 8
    case ShrinkWrite(_, _) => 7
    case ShrinkCheck(_) => 6
    case ShrinkFix(_, _) => 5
    case ShrinkFail => 5
    case Grow => 4
    case GrowWrite => 3
    case GrowDone => 2
    case RunInline => 1
    case Leap => 4
    case LeapSpin => 3
    case LeapPost => 2
    case LeapEnd => 1
  }

  /** The owner spins until the thief of the stolen task has said who it is. */
  predicate Spins(s: State) {
    s.pc == LeapSpin && 0 < s.head <= |s.slots| &&
    (s.slots[s.head - 1].thief == Empty || s.slots[s.head - 1].thief == Task)
  }

  lemma OwnerAdvances(s: State)
    requires Enabled(s, Owner) && !Spins(s)
    ensures Rank(Apply(s, Owner).pc) < Rank(s.pc)
  {
  }

  /** It spins only while the thief that has won the slot is about to mark it. */
  lemma SpinsForOneStep(s: State)
    requires Inv(s) && Spins(s)
    ensures exists id :: id in s.thieves && s.thieves[id] == Won(s.head - 1)
  {
    assert SlotOk(s, s.head - 1);
    assert ThiefOk(s, s.slots[s.head - 1].winner);
  }

  /** When it goes on to leapfrog, the slot names the thief that is at work on it. */
  lemma LeapsFromHolder(s: State)
    requires Inv(s) && Enabled(s, Owner) && s.pc.LeapSpin? && Apply(s, Owner).frames != s.frames
    ensures var h := s.head - 1;
      && s.slots[h].thief.By? && s.slots[h].thief.id in s.thieves
      && s.thieves[s.slots[h].thief.id].Holds(h) && !s.thieves[s.slots[h].thief.id].Won?
  {
    assert SlotOk(s, s.head - 1);
    assert ThiefOk(s, s.slots[s.head - 1].winner);
  }

  /** The owner is inside of an operation and does not spin. */
  ghost predicate Busy(s: State) { s.pc != Idle && !Spins(s) }

  lemma {:induction false} RankAfter(run: seq<State>, actions: seq<Action>, at: seq<nat>, n: nat)
    requires IsRun(run, actions) && OwnerSteps(actions, at) && n < |at|
    requires forall k :: 0 <= k <= n ==> at[k] < |run| && Busy(run[at[k]])
    ensures at[n] + 1 < |run| && n + 1 + Rank(run[at[n] + 1].pc) <= Rank(run[at[0]].pc)
  {
    assert Busy(run[at[n]]);
    OneStepNearer(run, actions, at, n);
    if n > 0 {
      assert Busy(run[at[n - 1]]);
      OneStepNearer(run, actions, at, n - 1);
      RankAfter(run, actions, at, n - 1);
    }
  }

  /** An operation of the owner takes at most ten steps of its own, unless it spins. */
  lemma OperationEnds(run: seq<State>, actions: seq<Action>, at: seq<nat>)
    requires IsRun(run, actions) && OwnerSteps(actions, at) && at != []
    requires forall k :: 0 <= k < |at| ==> at[k] < |run| && Busy(run[at[k]])
    ensures |at| <= 10
  {
    RankAfter(run, actions, at, |at| - 1);
  }

  lemma OneStepNearer(run: seq<State>, actions: seq<Action>, at: seq<nat>, k: nat)
    requires IsRun(run, actions) && OwnerSteps(actions, at) && k < |at|
    requires Busy(run[at[k]])
    ensures Rank(run[at[k] + 1].pc) < Rank(run[at[k]].pc)
    ensures k + 1 < |at| ==> run[at[k + 1]].pc == run[at[k] + 1].pc
  {
    OwnerNext(run, actions, at, k);
    OwnerAdvances(run[at[k]]);
  }

  // ---------- SPAWN ----------

  /** SPAWN writes a new task to the slot at the head. */
  lemma SpawnWrites(run: seq<State>, actions: seq<Action>, at: seq<nat>)
    requires IsRun(run, actions) && OwnerSteps(actions, at) && |at| == 2 && actions[at[0]] == Spawn
    ensures actions[at[1]] == Owner && run[at[1]].pc == SpawnWritten && run[at[1]].head == run[at[0]].head
    ensures var s, h := run[at[1]], run[at[0]].head;
      h < |s.slots| && s.slots[h].task == |run[at[0]].tasks| == |s.tasks| - 1 && s.tasks[|s.tasks| - 1].loc == InSlot(h)
  {
    OwnerNext(run, actions, at, 0);
  }

  /** Nobody asks for work: the task is private, and the shared part stays as it is. */
  lemma SpawnPrivate(run: seq<State>, actions: seq<Action>, i: nat)
    requires IsRun(run, actions) && i < |actions| && actions[i] == Owner && run[i].pc == SpawnWritten
    requires !run[i].wallstolen && !run[i].movesplit
    ensures run[i + 1] == run[i].(head := run[i].head + 1, pc := Idle)
  {
  }

  /** A thief has asked for work: half of the private tasks, rounded up, are shared, and the request is taken back. */
  lemma SpawnShares(run: seq<State>, actions: seq<Action>, at: seq<nat>)
    requires IsRun(run, actions) && OwnerSteps(actions, at) && |at| == 3
    requires run[at[0]].pc == SpawnWritten && !run[at[0]].wallstolen && run[at[0]].movesplit
    ensures var before, after := run[at[0]], run[at[2] + 1];
      && after.pc == Idle && after.head == before.head + 1 && !after.movesplit
      && after.ts.split == after.wsplit && before.wsplit == before.ts.split && before.ts.tail <= after.ts.tail
      && IsHalf(after.wsplit - before.wsplit, after.head - before.wsplit)
  {
    OwnerNext(run, actions, at, 0);
    OwnerNext(run, actions, at, 1);
    OwnerNext(run, actions, at, 2);
  }

  /** `part` is half of `whole`, rounded up. */
  predicate IsHalf(part: int, whole: int) { 2 * part == whole || 2 * part == whole + 1 }

  /** Everything was stolen: the new task is the only shared one, and the declaration is taken back. */
  lemma SpawnReopens(run: seq<State>, actions: seq<Action>, at: seq<nat>)
    requires IsRun(run, actions) && OwnerSteps(actions, at) && |at| == 3
    requires run[at[0]].pc == SpawnWritten && run[at[0]].wallstolen
    ensures var h, published, after := run[at[0]].head, run[at[1] + 1], run[at[2] + 1];
      && published.ts == TailSplit(h, h + 1) && !run[at[0] + 1].movesplit
      && after.pc == Idle && after.head == after.wsplit == after.ts.split == h + 1 && after.ts.tail >= h
      && !after.allstolen && !after.wallstolen
  {
    OwnerNext(run, actions, at, 0);
    OwnerNext(run, actions, at, 1);
    OwnerNext(run, actions, at, 2);
  }

  // ---------- SYNC ----------

  /** The task in slot `h` is run inline: it leaves its slot, and the owner is inside of it. */
  ghost predicate StartsInline(s: State, s': State, h: nat)
    requires h < |s.slots|
  {
    && s'.pc == Idle && s'.head == h && s'.frames == s.frames + [InlineFrame(h, s.slots[h].task)]
    && |s'.slots| == |s.slots| && s'.slots[h].thief == Empty && s.slots[h].task < |s'.tasks|
    && s'.tasks[s.slots[h].task] == TaskInfo(InFrame(|s.frames|), 1, None)
  }

  lemma InlineStarts(s: State)
    requires Inv(s) && Enabled(s, Owner) && s.pc == RunInline
    ensures StartsInline(s, Apply(s, Owner), s.head - 1)
  {
    assert SlotOk(s, s.head - 1);
  }

  /** A private task, and nobody asks for work: two steps lead to its run, and the shared part stays as it is. */
  lemma SyncPrivate(run: seq<State>, actions: seq<Action>, at: seq<nat>)
    requires IsRun(run, actions) && OwnerSteps(actions, at) && |at| == 2 && run[at[0]].pc == Syncing
    requires !run[at[0]].wallstolen && run[at[0]].wsplit < run[at[0]].head && !run[at[0]].movesplit
    ensures var s, after := run[at[1]], run[at[1] + 1];
      && s.head == run[at[0]].head && 0 < s.head <= |s.slots| && StartsInline(s, after, s.head - 1)
      && after.wsplit == after.ts.split == run[at[0]].wsplit
  {
    OwnerNext(run, actions, at, 0);
    OwnerNext(run, actions, at, 1);
    InlineStarts(run[at[1]]);
  }

  /**
   A private task, and a thief has asked for work: half of the other private tasks, rounded up, are shared, the request
   is taken back, and the task is run.
   */
  lemma SyncShares(run: seq<State>, actions: seq<Action>, at: seq<nat>)
    requires IsRun(run, actions) && OwnerSteps(actions, at) && |at| == 6 && run[at[0]].pc == Syncing
    requires !run[at[0]].wallstolen && run[at[0]].wsplit < run[at[0]].head && run[at[0]].movesplit
    ensures var before, s, after := run[at[0]], run[at[5]], run[at[5] + 1];
      && s.head == before.head && 0 < s.head <= |s.slots| && StartsInline(s, after, s.head - 1)
      && after.wsplit == after.ts.split && !run[at[4] + 1].movesplit
      && IsHalf(after.wsplit - before.wsplit, after.head - before.wsplit)
  {
    SyncAsked(run, actions, at);
    OwnerNext(run, actions, at, 3);
    GrowShares(run[at[3]]);
    SyncServed(run, actions, at);
  }

  lemma SyncServed(run: seq<State>, actions: seq<Action>, at: seq<nat>)
    requires IsRun(run, actions) && OwnerSteps(actions, at) && |at| == 6 && run[at[4]].pc == GrowDone
    ensures var s, after := run[at[5]], run[at[5] + 1];
      && s.head == run[at[4]].head && 0 < s.head <= |s.slots| && StartsInline(s, after, s.head - 1)
      && after.wsplit == run[at[4]].wsplit && after.ts.split == run[at[4]].ts.split && !run[at[4] + 1].movesplit
  {
    OwnerNext(run, actions, at, 4);
    OwnerNext(run, actions, at, 5);
    InlineStarts(run[at[5]]);
  }

  lemma SyncAsked(run: seq<State>, actions: seq<Action>, at: seq<nat>)
    requires IsRun(run, actions) && OwnerSteps(actions, at) && |at| >= 4 && run[at[0]].pc == Syncing
    requires !run[at[0]].wallstolen && run[at[0]].wsplit < run[at[0]].head && run[at[0]].movesplit
    ensures run[at[3]].pc == GrowWrite && run[at[3]].head == run[at[0]].head && run[at[3]].wsplit == run[at[0]].wsplit
  {
    OwnerNext(run, actions, at, 0);
    OwnerNext(run, actions, at, 1);
    OwnerNext(run, actions, at, 2);
  }

  lemma GrowShares(s: State)
    requires Inv(s) && Enabled(s, Owner) && s.pc == GrowWrite
    ensures var s' := Apply(s, Owner);
      && s'.pc == GrowDone && s'.head == s.head && s'.wsplit == s'.ts.split
      && IsHalf(s'.wsplit - s.wsplit, s.head - 1 - s.wsplit)
  {
  }

  /**
   A shared task: half of the shared tasks, rounded up, are taken back. Thieves may be faster: when they have stolen
   more than what was left to them, half of the rest is taken back; when they have stolen all, everything is declared
   stolen.
   */
  lemma ShrinkTakesBack(run: seq<State>, actions: seq<Action>, at: seq<nat>)
    requires IsRun(run, actions) && OwnerSteps(actions, at) && |at| == 4 && run[at[0]].pc == Shrink
    ensures var read, halved, seen, head := run[at[0]].ts, run[at[1] + 1], run[at[2]].ts, run[at[0]].head;
      if read.tail == read.split then DeclaresAll(run[at[1] + 1], head)
      else
        && halved.ts.tail == run[at[1]].ts.tail && IsHalf(read.split - halved.ts.split, read.split - read.tail)
        && if seen.tail == read.split then DeclaresAll(run[at[3] + 1], head)
           else if seen.tail > seen.split then
             && run[at[3] + 1].pc == Grow && run[at[3] + 1].head == head
             && run[at[3] + 1].wsplit == run[at[3] + 1].ts.split
             && IsHalf(read.split - run[at[3] + 1].wsplit, read.split - seen.tail)
           else
             && run[at[2] + 1].pc == Grow && run[at[2] + 1].head == head
             && run[at[2] + 1].wsplit == run[at[2] + 1].ts.split == halved.ts.split
  {
    ShrinkReads(run, actions, at);
    if run[at[0]].ts.tail != run[at[0]].ts.split {
      ShrinkSettles(run, actions, at, run[at[0]].ts.split);
    }
  }

  lemma ShrinkReads(run: seq<State>, actions: seq<Action>, at: seq<nat>)
    requires IsRun(run, actions) && OwnerSteps(actions, at) && |at| == 4 && run[at[0]].pc == Shrink
    ensures var read, halved, head := run[at[0]].ts, run[at[1] + 1], run[at[0]].head;
      if read.tail == read.split then DeclaresAll(run[at[1] + 1], head)
      else
        && halved.ts.tail == run[at[1]].ts.tail && IsHalf(read.split - halved.ts.split, read.split - read.tail)
        && run[at[2]].pc == ShrinkCheck(read.split) && run[at[2]].head == head
        && run[at[2]].ts.split == halved.ts.split
  {
    OwnerNext(run, actions, at, 0);
    OwnerNext(run, actions, at, 1);
  }

  lemma ShrinkSettles(run: seq<State>, actions: seq<Action>, at: seq<nat>, split: nat)
    requires IsRun(run, actions) && OwnerSteps(actions, at) && |at| == 4 && run[at[2]].pc == ShrinkCheck(split)
    ensures var seen, head := run[at[2]].ts, run[at[2]].head;
      if seen.tail == split then DeclaresAll(run[at[3] + 1], head)
      else if seen.tail > seen.split then
        && run[at[3] + 1].pc == Grow && run[at[3] + 1].head == head
        && run[at[3] + 1].wsplit == run[at[3] + 1].ts.split
        && IsHalf(split - run[at[3] + 1].wsplit, split - seen.tail)
      else
        && run[at[2] + 1].pc == Grow && run[at[2] + 1].head == head
        && run[at[2] + 1].wsplit == run[at[2] + 1].ts.split == seen.split
  {
    OwnerNext(run, actions, at, 2);
    OwnerNext(run, actions, at, 3);
  }

  ghost predicate DeclaresAll(s: State, head: nat) {
    s.allstolen && s.wallstolen && s.pc == Leap && s.head == head
  }

  /** The stolen task in slot `h` is synced: its SYNC returns what its thief has stored. */
  ghost predicate ReturnsStolen(s: State, s': State, h: nat)
    requires h < |s.slots|
  {
    && s.slots[h].thief == Completed && s'.pc == Idle && s'.head == h && s.slots[h].task < |s'.tasks|
    && s'.tasks[s.slots[h].task] == TaskInfo(Returned(s.slots[h].res), 1, Some(s.slots[h].res))
    && |s'.slots| == |s.slots| && s'.slots[h].thief == Empty && s'.frames == s.frames
  }

  lemma StolenReturns(s: State)
    requires Inv(s) && Enabled(s, Owner) && s.pc == LeapEnd
    ensures ReturnsStolen(s, Apply(s, Owner), s.head - 1)
  {
    assert SlotOk(s, s.head - 1);
  }

  /** When everything was declared stolen, a SYNC of a completed slot returns in four steps. */
  lemma SyncCompleted(run: seq<State>, actions: seq<Action>, at: seq<nat>)
    requires IsRun(run, actions) && OwnerSteps(actions, at) && |at| == 4 && run[at[0]].pc == Syncing
    requires run[at[0]].wallstolen
    requires 0 < run[at[0]].head <= |run[at[2]].slots| && run[at[2]].slots[run[at[0]].head - 1].thief == Completed
    ensures run[at[3]].head == run[at[0]].head <= |run[at[3]].slots|
    ensures ReturnsStolen(run[at[3]], run[at[3] + 1], run[at[0]].head - 1)
  {
    SyncToLeap(run, actions, at);
    OwnerNext(run, actions, at, 2);
    OwnerNext(run, actions, at, 3);
    StolenReturns(run[at[3]]);
  }

  lemma SyncToLeap(run: seq<State>, actions: seq<Action>, at: seq<nat>)
    requires IsRun(run, actions) && OwnerSteps(actions, at) && |at| >= 3 && run[at[0]].pc == Syncing
    requires run[at[0]].wallstolen
    ensures run[at[2]].pc == Leap && run[at[2]].head == run[at[0]].head
  {
    OwnerNext(run, actions, at, 0);
    OwnerNext(run, actions, at, 1);
  }

  /** While its thief is at work, the owner goes on to steal from that thief, with the slot still in place. */
  lemma SyncLeaps(run: seq<State>, actions: seq<Action>, at: seq<nat>)
    requires IsRun(run, actions) && OwnerSteps(actions, at) && |at| == 2 && run[at[0]].pc == Leap
    requires 0 < run[at[0]].head <= |run[at[0]].slots| && run[at[0]].slots[run[at[0]].head - 1].thief != Completed
    requires run[at[0]].head <= |run[at[1]].slots| && run[at[1]].slots[run[at[0]].head - 1].thief.By?
    ensures var s, after := run[at[1]], run[at[1] + 1];
      after.pc == Idle && after.head == run[at[0]].head && after.frames == s.frames + [LeapFrame(after.head - 1)]
  {
    OwnerNext(run, actions, at, 0);
    OwnerNext(run, actions, at, 1);
  }

  /** A completed slot that the owner leapfrogs for is synced in three steps, and everything is declared stolen. */
  lemma LeapReturns(run: seq<State>, actions: seq<Action>, at: seq<nat>)
    requires IsRun(run, actions) && OwnerSteps(actions, at) && |at| == 3 && actions[at[0]] == LeapRead
    requires var s := run[at[0]];
      s.frames != [] && s.frames[|s.frames| - 1].LeapFrame? && s.frames[|s.frames| - 1].slot < |s.slots| &&
      s.slots[s.frames[|s.frames| - 1].slot].thief == Completed
    ensures var s, h := run[at[0]], run[at[0]].frames[|run[at[0]].frames| - 1].slot;
      && h < |run[at[2]].slots| && ReturnsStolen(run[at[2]], run[at[2] + 1], h)
      && run[at[2] + 1].frames == s.frames[..|s.frames| - 1]
      && run[at[2] + 1].allstolen && run[at[2] + 1].wallstolen
  {
    LeapEnds(run, actions, at);
    OwnerNext(run, actions, at, 1);
    OwnerNext(run, actions, at, 2);
    StolenReturns(run[at[2]]);
  }

  lemma LeapEnds(run: seq<State>, actions: seq<Action>, at: seq<nat>)
    requires IsRun(run, actions) && OwnerSteps(actions, at) && |at| == 3 && actions[at[0]] == LeapRead
    requires var s := run[at[0]];
      s.frames != [] && s.frames[|s.frames| - 1].LeapFrame? && s.frames[|s.frames| - 1].slot < |s.slots| &&
      s.slots[s.frames[|s.frames| - 1].slot].thief == Completed
    ensures actions[at[1]] == Owner && run[at[1]].pc == LeapPost
    ensures run[at[1]].head == run[at[0]].frames[|run[at[0]].frames| - 1].slot + 1
    ensures run[at[1]].frames == run[at[0]].frames[..|run[at[0]].frames| - 1]
  {
    OwnerNext(run, actions, at, 0);
  }
}
