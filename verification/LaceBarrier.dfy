/** lace_barrier as a transition system. */
module LaceBarrier {
  /*
   There is a fixed number of workers, and a step is one access to the shared counters. The fields `flips`, `entered`
   and `left` are history.
   */

  /** Where a worker is; `w` is its local copy of the sense. */
  datatype Pc =
    | Out
    | Entering(w: nat)
    | Waiting(w: nat)
    | LastReset(w: nat)
    | LastLeaving(w: nat)
    | LastFlip(w: nat)
    | Leaving

  datatype State = State(
    count: nat, leaving: int, wait: nat, pcs: seq<Pc>,
    flips: nat, entered: seq<nat>, left: seq<nat>)

  predicate IsLast(p: Pc) { p.LastReset? || p.LastLeaving? || p.LastFlip? }

  predicate Initial(s: State) {
    && s.count == 0 && s.leaving == 0 && s.wait == 0 && s.flips == 0
    && |s.pcs| > 0 && |s.entered| == |s.left| == |s.pcs|
    && forall i :: 0 <= i < |s.pcs| ==> s.pcs[i] == Out && s.entered[i] == 0 && s.left[i] == 0
  }

  function SetPc(s: State, i: nat, p: Pc): State
    requires i < |s.pcs|
  {
    s.(pcs := s.pcs[i := p])
  }

  /** The next step of worker `i`. */
  function Step(s: State, i: nat): State
    requires i < |s.pcs| && |s.entered| == |s.left| == |s.pcs|
  {
    match s.pcs[i]
    case Out => SetPc(s, i, Entering(s.wait))
    case Entering(w) =>
      // atomic add-and-fetch
      SetPc(s.(count := s.count + 1, entered := s.entered[i := s.entered[i] + 1]), i,
            if s.count + 1 == |s.pcs| then LastReset(w) else Waiting(w))
    case LastReset(w) => SetPc(s.(count := 0), i, LastLeaving(w))
    case LastLeaving(w) => SetPc(s.(leaving := |s.pcs|), i, LastFlip(w))
    case LastFlip(w) => SetPc(s.(wait := if w == 0 then 1 else 0, flips := s.flips + 1), i, Leaving)
    case Waiting(w) => if w == s.wait then s else SetPc(s, i, Leaving)
    case Leaving => SetPc(s.(leaving := s.leaving - 1, left := s.left[i := s.left[i] + 1]), i, Out)
  }

  // ---------- Counting workers ----------

  function Count(bs: seq<bool>): nat {
    if bs == [] then 0 else (if bs[0] then 1 else 0) + Count(bs[1..])
  }

  lemma {:induction false} CountUpdate(bs: seq<bool>, i: nat, b: bool)
    requires i < |bs|
    ensures Count(bs[i := b]) == Count(bs) - (if bs[i] then 1 else 0) + (if b then 1 else 0)
  {
    if i == 0 {
      assert bs[0 := b][1..] == bs[1..];
    } else {
      assert bs[i := b][1..] == bs[1..][i - 1 := b];
      CountUpdate(bs[1..], i - 1, b);
    }
  }

  lemma {:induction false} CountAll(bs: seq<bool>)
    ensures Count(bs) <= |bs|
    ensures Count(bs) == |bs| <==> forall i :: 0 <= i < |bs| ==> bs[i]
    ensures Count(bs) == 0 <==> forall i :: 0 <= i < |bs| ==> !bs[i]
  {
    if bs != [] {
      CountAll(bs[1..]);
      assert forall i :: 1 <= i < |bs| ==> bs[i] == bs[1..][i - 1];
    }
  }

  /** The worker has entered the round that is not yet complete. */
  predicate IsIn(s: State, i: nat)
    requires i < |s.entered|
  {
    s.entered[i] == s.flips + 1
  }

  /** The worker has not yet left the round that was completed last. */
  predicate IsBehind(s: State, i: nat)
    requires i < |s.left|
  {
    s.left[i] + 1 == s.flips
  }

  function In(s: State): seq<bool> {
    seq(|s.entered|, i requires 0 <= i < |s.entered| => IsIn(s, i))
  }

  function Behind(s: State): seq<bool> {
    seq(|s.left|, i requires 0 <= i < |s.left| => IsBehind(s, i))
  }

  // ---------- The invariant ----------

  predicate WorkerOk(s: State, i: nat)
    requires i < |s.pcs| && |s.entered| == |s.left| == |s.pcs|
  {
    match s.pcs[i]
    case Out => s.entered[i] == s.left[i] == s.flips
    case Entering(w) => w == s.wait && s.entered[i] == s.left[i] == s.flips
    case Waiting(w) =>
      if w == s.wait then s.entered[i] == s.flips + 1 && s.left[i] == s.flips
      else s.entered[i] == s.flips && s.left[i] + 1 == s.flips
    case Leaving => s.entered[i] == s.flips && s.left[i] + 1 == s.flips
    case _ => s.pcs[i].w == s.wait && s.entered[i] == s.flips + 1 && s.left[i] == s.flips
  }

  /** Once a worker has found itself to be the last, all others wait with the current sense. */
  predicate LastOk(s: State, i: nat)
    requires i < |s.pcs|
  {
    IsLast(s.pcs[i]) ==> forall j :: 0 <= j < |s.pcs| && j != i ==> s.pcs[j] == Waiting(s.wait)
  }

  predicate Inv(s: State) {
    && |s.pcs| > 0 && |s.entered| == |s.left| == |s.pcs|
    && s.wait == s.flips % 2
    && (forall i :: 0 <= i < |s.pcs| ==> WorkerOk(s, i))
    && (forall i :: 0 <= i < |s.pcs| ==> LastOk(s, i))
    && (s.count ==
        if exists i :: 0 <= i < |s.pcs| && (s.pcs[i].LastLeaving? || s.pcs[i].LastFlip?) then 0 else Count(In(s)))
    && (exists i :: 0 <= i < |s.pcs| && (IsLast(s.pcs[i]) || !IsIn(s, i)))
    && (s.leaving == if exists i :: 0 <= i < |s.pcs| && s.pcs[i].LastFlip? then |s.pcs| else Count(Behind(s)))
  }

  lemma InitialInv(s: State)
    requires Initial(s)
    ensures Inv(s)
  {
    CountAll(In(s));
    CountAll(Behind(s));
  }

  lemma EnterKeeps(s: State, i: nat)
    requires Inv(s) && i < |s.pcs| && s.pcs[i].Entering?
    ensures Inv(Step(s, i))
  {
    var s' := Step(s, i);
    assert WorkerOk(s, i);
    forall j | 0 <= j < |s.pcs| ensures !IsLast(s.pcs[j]) { assert LastOk(s, j); }
    assert In(s') == In(s)[i := true];
    CountUpdate(In(s), i, true);
    CountAll(In(s'));
    assert Behind(s') == Behind(s);
    forall j | 0 <= j < |s'.pcs| ensures WorkerOk(s', j) && In(s')[j] == IsIn(s', j) { assert WorkerOk(s, j); }
    if IsLast(s'.pcs[i]) {
      forall j | 0 <= j < |s'.pcs| && j != i ensures s'.pcs[j] == Waiting(s'.wait) {
        assert In(s')[j];
        assert WorkerOk(s, j);
      }
    }
  }

  lemma LastKeeps(s: State, i: nat)
    requires Inv(s) && i < |s.pcs| && (s.pcs[i].LastReset? || s.pcs[i].LastLeaving?)
    ensures Inv(Step(s, i))
  {
    var s' := Step(s, i);
    assert LastOk(s, i) && WorkerOk(s, i);
    assert s'.pcs[i].LastLeaving? || s'.pcs[i].LastFlip?;
    assert In(s') == In(s) && Behind(s') == Behind(s);
    forall j | 0 <= j < |s'.pcs| ensures WorkerOk(s', j) { assert WorkerOk(s, j); }
  }

  /** The flip turns everyone who has entered into someone who has to leave. */
  lemma FlipKeeps(s: State, i: nat)
    requires Inv(s) && i < |s.pcs| && s.pcs[i].LastFlip?
    ensures Inv(Step(s, i))
  {
    var s' := Step(s, i);
    assert LastOk(s, i) && WorkerOk(s, i);
    forall j | 0 <= j < |s'.pcs| ensures WorkerOk(s', j) && !IsIn(s', j) && IsBehind(s', j) { assert WorkerOk(s, j); }
    CountAll(In(s'));
    CountAll(Behind(s'));
    assert !IsIn(s', 0);
    forall j | 0 <= j < |s'.pcs| ensures !IsLast(s'.pcs[j]) {}
  }

  lemma LeaveKeeps(s: State, i: nat)
    requires Inv(s) && i < |s.pcs| && s.pcs[i].Leaving?
    ensures Inv(Step(s, i))
  {
    var s' := Step(s, i);
    assert WorkerOk(s, i);
    forall j | 0 <= j < |s.pcs| ensures !IsLast(s.pcs[j]) { assert LastOk(s, j); }
    assert In(s') == In(s);
    assert Behind(s') == Behind(s)[i := false];
    CountUpdate(Behind(s), i, false);
    assert !IsIn(s', i);
    forall j | 0 <= j < |s'.pcs| ensures WorkerOk(s', j) { assert WorkerOk(s, j); }
  }

  lemma MoveKeeps(s: State, i: nat)
    requires Inv(s) && i < |s.pcs| && (s.pcs[i].Out? || s.pcs[i].Waiting?)
    ensures Inv(Step(s, i))
  {
    var s' := Step(s, i);
    assert WorkerOk(s, i);
    if s' != s {
      forall j | 0 <= j < |s.pcs| ensures !IsLast(s.pcs[j]) { assert LastOk(s, j); }
      assert In(s') == In(s) && Behind(s') == Behind(s);
      forall j | 0 <= j < |s'.pcs| ensures WorkerOk(s', j) { assert WorkerOk(s, j); }
    }
  }

  lemma StepKeeps(s: State, i: nat)
    requires Inv(s) && i < |s.pcs|
    ensures Inv(Step(s, i))
  {
    match s.pcs[i]
    case Entering(_) => EnterKeeps(s, i);
    case LastFlip(_) => FlipKeeps(s, i);
    case Leaving => LeaveKeeps(s, i);
    case Out => MoveKeeps(s, i);
    case Waiting(_) => MoveKeeps(s, i);
    case _ => LastKeeps(s, i);
  }

  // ---------- Runs ----------

  predicate IsRun(run: seq<State>, schedule: seq<nat>) {
    && |run| == |schedule| + 1
    && Initial(run[0])
    && forall n :: 0 <= n < |schedule| ==>
         && schedule[n] < |run[n].pcs| && |run[n].entered| == |run[n].left| == |run[n].pcs|
         && run[n + 1] == Step(run[n], schedule[n])
  }

  lemma {:induction false} RunKeeps(run: seq<State>, schedule: seq<nat>, n: nat)
    requires IsRun(run, schedule) && n < |run|
    ensures Inv(run[n])
  {
    if n == 0 {
      InitialInv(run[0]);
    } else {
      RunKeeps(run, schedule, n - 1);
      StepKeeps(run[n - 1], schedule[n - 1]);
    }
  }

  /** A worker that is leaving its k-th barrier, or has left it, knows that all have entered their k-th. */
  lemma NobodyLeavesEarly(run: seq<State>, schedule: seq<nat>, n: nat, i: nat, j: nat)
    requires IsRun(run, schedule) && n < |run|
    requires i < |run[n].pcs| && j < |run[n].pcs| && |run[n].entered| == |run[n].left| == |run[n].pcs|
    ensures run[n].left[i] <= run[n].entered[j]
    ensures run[n].pcs[i].Leaving? ==> run[n].left[i] + 1 == run[n].entered[i] <= run[n].entered[j]
  {
    RunKeeps(run, schedule, n);
    assert WorkerOk(run[n], i) && WorkerOk(run[n], j);
  }

  /** No two workers are ever more than one barrier apart, however soon one of them enters again. */
  lemma RoundsDoNotMix(run: seq<State>, schedule: seq<nat>, n: nat, i: nat, j: nat)
    requires IsRun(run, schedule) && n < |run|
    requires i < |run[n].pcs| && j < |run[n].pcs| && |run[n].entered| == |run[n].left| == |run[n].pcs|
    ensures run[n].entered[i] <= run[n].entered[j] + 1
    ensures run[n].left[i] <= run[n].left[j] + 1
  {
    RunKeeps(run, schedule, n);
    assert WorkerOk(run[n], i) && WorkerOk(run[n], j);
  }

  /**
   Nobody waits in vain: while the sense has not flipped, some worker has still to enter the round, or the last
   one is on its way to the flip. Once it has flipped the round is complete.
   */
  lemma NobodyWaitsInVain(run: seq<State>, schedule: seq<nat>, n: nat, i: nat)
    requires IsRun(run, schedule) && n < |run| && i < |run[n].pcs| && |run[n].entered| == |run[n].pcs|
    requires run[n].pcs[i].Waiting?
    ensures run[n].pcs[i].w == run[n].wait ==>
      exists j :: 0 <= j < |run[n].pcs| && (IsLast(run[n].pcs[j]) || run[n].entered[j] + 1 == run[n].entered[i])
    ensures run[n].pcs[i].w != run[n].wait ==>
      forall j :: 0 <= j < |run[n].pcs| ==> run[n].entered[j] >= run[n].entered[i]
  {
    RunKeeps(run, schedule, n);
    var s := run[n];
    assert WorkerOk(s, i);
    var j :| 0 <= j < |s.pcs| && (IsLast(s.pcs[j]) || !IsIn(s, j));
    assert WorkerOk(s, j);
    if s.pcs[i].w != s.wait {
      forall j | 0 <= j < |s.pcs| ensures s.entered[j] >= s.entered[i] { assert WorkerOk(s, j); }
    }
  }

  /** When all are out, the counters are back at 0, and all have passed the same number of barriers. */
  lemma AllOut(run: seq<State>, schedule: seq<nat>, n: nat)
    requires IsRun(run, schedule) && n < |run|
    requires forall i :: 0 <= i < |run[n].pcs| ==> run[n].pcs[i] == Out
    ensures run[n].count == 0 && run[n].leaving == 0
    ensures |run[n].left| == |run[n].pcs|
    ensures forall i, j :: 0 <= i < |run[n].pcs| && 0 <= j < |run[n].pcs| ==> run[n].left[i] == run[n].left[j]
  {
    RunKeeps(run, schedule, n);
    var s := run[n];
    forall i | 0 <= i < |s.pcs| ensures !In(s)[i] && !Behind(s)[i] && s.left[i] == s.flips { assert WorkerOk(s, i); }
    CountAll(In(s));
    CountAll(Behind(s));
  }

  // ---------- Progress ----------

  ghost predicate NoneOf(schedule: seq<nat>, i: nat, n: nat, m: nat) {
    forall l :: n <= l < m && l < |schedule| ==> schedule[l] != i
  }

  /** The positions of consecutive steps of worker `i`. */
  ghost predicate StepsOf(schedule: seq<nat>, i: nat, at: seq<nat>) {
    && (forall j :: 0 <= j < |at| ==> at[j] < |schedule| && schedule[at[j]] == i)
    && (forall j :: 0 < j < |at| ==> at[j - 1] < at[j] && NoneOf(schedule, i, at[j - 1] + 1, at[j]))
  }

  /** Other workers leave a worker where it is, and the counts of the barriers that it has entered and left. */
  lemma {:induction false} WorkerStays(run: seq<State>, schedule: seq<nat>, i: nat, n: nat, m: nat)
    requires IsRun(run, schedule) && n <= m < |run| && NoneOf(schedule, i, n, m)
    requires i < |run[n].pcs| == |run[n].entered| == |run[n].left|
    ensures |run[m].pcs| == |run[n].pcs| == |run[m].entered| == |run[m].left|
    ensures run[m].pcs[i] == run[n].pcs[i]
    ensures run[m].entered[i] == run[n].entered[i] && run[m].left[i] == run[n].left[i]
    decreases m - n
  {
    if n < m {
      assert schedule[n] != i && run[n + 1] == Step(run[n], schedule[n]);
      WorkerStays(run, schedule, i, n + 1, m);
    }
  }

  /** While a worker that waits has seen the sense flip, or could see it, the sense does not flip back. */
  lemma {:induction false} FlipStays(run: seq<State>, schedule: seq<nat>, i: nat, n: nat, m: nat)
    requires IsRun(run, schedule) && n <= m < |run| && NoneOf(schedule, i, n, m)
    requires i < |run[n].pcs| && run[n].pcs[i].Waiting? && run[n].pcs[i].w != run[n].wait
    ensures run[m].wait == run[n].wait
    decreases m - n
  {
    if n < m {
      RunKeeps(run, schedule, n);
      var j := schedule[n];
      assert j != i && run[n + 1] == Step(run[n], j);
      assert LastOk(run[n], j);
      FlipStays(run, schedule, i, n + 1, m);
    }
  }

  /** A worker that waits leaves at its first step after the flip, and only then. */
  lemma WaiterLeaves(run: seq<State>, schedule: seq<nat>, i: nat, n: nat, m: nat)
    requires IsRun(run, schedule) && n <= m < |schedule| && NoneOf(schedule, i, n, m) && schedule[m] == i
    requires i < |run[n].pcs| && run[n].pcs[i].Waiting?
    ensures i < |run[m + 1].pcs| && run[m].pcs[i] == run[n].pcs[i]
    ensures run[n].pcs[i].w != run[n].wait ==> run[m + 1].pcs[i] == Leaving
    ensures run[m + 1].pcs[i] == if run[n].pcs[i].w != run[m].wait then Leaving else run[n].pcs[i]
  {
    RunKeeps(run, schedule, n);
    WorkerStays(run, schedule, i, n, m);
    assert run[m + 1] == Step(run[m], i);
    if run[n].pcs[i].w != run[n].wait {
      FlipStays(run, schedule, i, n, m);
    }
  }

  lemma WorkerNext(run: seq<State>, schedule: seq<nat>, i: nat, at: seq<nat>, j: nat)
    requires IsRun(run, schedule) && StepsOf(schedule, i, at) && j < |at|
    ensures at[j] + 1 < |run| && i < |run[at[j]].pcs| && Inv(run[at[j]]) && run[at[j] + 1] == Step(run[at[j]], i)
    ensures j + 1 < |at| ==> at[j + 1] < |run| && |run[at[j + 1]].pcs| == |run[at[j]].pcs|
    ensures j + 1 < |at| ==> run[at[j + 1]].pcs[i] == run[at[j] + 1].pcs[i]
    ensures j + 1 < |at| ==> run[at[j + 1]].entered[i] == run[at[j] + 1].entered[i]
  {
    assert schedule[at[j]] == i;
    RunKeeps(run, schedule, at[j]);
    RunKeeps(run, schedule, at[j] + 1);
    if j + 1 < |at| {
      assert at[j + 1] < |schedule|;
      RunKeeps(run, schedule, at[j + 1]);
      WorkerStays(run, schedule, i, at[j] + 1, at[j + 1]);
    }
  }

  /**
   A worker enters with its second step, and is the last one exactly when its entry makes the count complete. The last
   one resets the counters and flips the sense with its next three steps, and is then leaving.
   */
  lemma LastFlips(run: seq<State>, schedule: seq<nat>, i: nat, at: seq<nat>)
    requires IsRun(run, schedule) && StepsOf(schedule, i, at) && |at| == 5
    requires at[0] < |run| && i < |run[at[0]].pcs| == |run[at[0]].entered| && run[at[0]].pcs[i] == Out
    ensures at[1] + 1 < |run| && i < |run[at[1] + 1].pcs| == |run[at[1] + 1].entered|
    ensures run[at[1] + 1].entered[i] == run[at[0]].entered[i] + 1 && run[at[1] + 1].count == run[at[1]].count + 1
    ensures IsLast(run[at[1] + 1].pcs[i]) <==> run[at[1] + 1].count == |run[at[0]].pcs|
    ensures !IsLast(run[at[1] + 1].pcs[i]) ==> run[at[1] + 1].pcs[i].Waiting?
    ensures IsLast(run[at[1] + 1].pcs[i]) ==>
      && at[4] + 1 < |run| && i < |run[at[4] + 1].pcs| && run[at[4] + 1].pcs[i] == Leaving
      && run[at[4] + 1].count == 0 && run[at[4] + 1].leaving == |run[at[0]].pcs|
      && run[at[4] + 1].wait == 1 - run[at[0]].wait && run[at[4] + 1].flips == run[at[0]].flips + 1
  {
    EntersSecond(run, schedule, i, at);
    if IsLast(run[at[1] + 1].pcs[i]) {
      LastThree(run, schedule, i, at);
    }
  }

  lemma LastThree(run: seq<State>, schedule: seq<nat>, i: nat, at: seq<nat>)
    requires IsRun(run, schedule) && StepsOf(schedule, i, at) && |at| == 5
    requires at[1] + 1 < |run| && i < |run[at[1] + 1].pcs| && run[at[1] + 1].pcs[i].LastReset?
    ensures at[4] + 1 < |run| && i < |run[at[4] + 1].pcs| && run[at[4] + 1].pcs[i] == Leaving
    ensures var s, s' := run[at[1] + 1], run[at[4] + 1];
      s'.count == 0 && s'.leaving == |s.pcs| && s'.wait == 1 - s.wait && s'.flips == s.flips + 1
  {
    RunKeeps(run, schedule, at[1] + 1);
    assert WorkerOk(run[at[1] + 1], i);
    NextAlone(run, schedule, i, at, 1);
    NextAlone(run, schedule, i, at, 2);
    NextAlone(run, schedule, i, at, 3);
    WorkerNext(run, schedule, i, at, 4);
  }

  lemma NextAlone(run: seq<State>, schedule: seq<nat>, i: nat, at: seq<nat>, j: nat)
    requires IsRun(run, schedule) && StepsOf(schedule, i, at) && j + 1 < |at|
    requires at[j] + 1 < |run| && i < |run[at[j] + 1].pcs| && IsLast(run[at[j] + 1].pcs[i])
    ensures at[j + 1] + 1 < |run| && run[at[j + 1]] == run[at[j] + 1]
    ensures |run[at[j + 1]].entered| == |run[at[j + 1]].left| == |run[at[j + 1]].pcs|
    ensures run[at[j + 1] + 1] == Step(run[at[j + 1]], i)
  {
    WorkerNext(run, schedule, i, at, j);
    assert at[j] < at[j + 1] && NoneOf(schedule, i, at[j] + 1, at[j + 1]);
    WorkerNext(run, schedule, i, at, j + 1);
    LastAlone(run, schedule, i, at[j] + 1, at[j + 1]);
  }

  lemma EntersSecond(run: seq<State>, schedule: seq<nat>, i: nat, at: seq<nat>)
    requires IsRun(run, schedule) && StepsOf(schedule, i, at) && |at| == 5
    requires at[0] < |run| && i < |run[at[0]].pcs| == |run[at[0]].entered| && run[at[0]].pcs[i] == Out
    ensures at[1] + 1 < |run| && i < |run[at[1] + 1].pcs| == |run[at[1] + 1].entered| && at[2] < |run|
    ensures run[at[1] + 1].entered[i] == run[at[0]].entered[i] + 1 && run[at[1] + 1].count == run[at[1]].count + 1
    ensures run[at[1] + 1].pcs[i] == if run[at[1] + 1].count == |run[at[0]].pcs| then LastReset(run[at[0]].wait)
                                     else Waiting(run[at[0]].wait)
    ensures run[at[1] + 1].wait == run[at[0]].wait && run[at[1] + 1].flips == run[at[0]].flips
  {
    WorkerNext(run, schedule, i, at, 0);
    WorkerNext(run, schedule, i, at, 1);
    assert WorkerOk(run[at[0]], i) && WorkerOk(run[at[1]], i);
  }

  /** While the last one is on its way to the flip, the others spin and change nothing. */
  lemma {:induction false} LastAlone(run: seq<State>, schedule: seq<nat>, i: nat, n: nat, m: nat)
    requires IsRun(run, schedule) && n <= m < |run| && NoneOf(schedule, i, n, m)
    requires i < |run[n].pcs| && IsLast(run[n].pcs[i])
    ensures run[m] == run[n]
    decreases m - n
  {
    if n < m {
      RunKeeps(run, schedule, n);
      assert schedule[n] != i && run[n + 1] == Step(run[n], schedule[n]);
      assert LastOk(run[n], i);
      LastAlone(run, schedule, i, n + 1, m);
    }
  }
}
