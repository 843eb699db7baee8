/** The split deque of one Lace worker, as a transition system. */
module LaceDeque {
  /*
   There are one owner and any number of thieves, and a step is one access to shared memory, in any order. The owner
   runs SPAWN and SYNC of tasks without arguments, nested as deeply as the tasks demand; a thief runs lace_steal.

   A task number names one SPAWN. The field `tasks` is history: no step of the owner or of a thief depends on it.

   The slots fall into four parts: those below the tail are stolen, those up to the split are shared and may be
   stolen, those up to the head are private to the owner, and the rest is free. When `allstolen` is set, everything
   below the head is stolen, whatever tail and split say. The invariant Inv states this at every point of the owner,
   and says for each task where it is: in a slot, in a frame of the owner, or returned with the result of its only run.
   */
  import opened Common

  /** The `thief` field of a task: THIEF_EMPTY, THIEF_TASK, a worker, or THIEF_COMPLETED. */
  datatype Thief = Empty | Task | By(id: nat) | Completed

  /** `winner` is history: the thief that won the slot last. */
  datatype Slot = Slot(task: nat, thief: Thief, res: int, winner: nat)

  datatype TailSplit = TailSplit(tail: nat, split: nat)

  /** Where the owner is. The slot it works on is `head` in SPAWN and `head - 1` in SYNC. */
  datatype OwnerPc =
    | Idle
    // SPAWN
    | SpawnWritten
    | SpawnCleared
    | SpawnPublished
    | SpawnGrow
    | SpawnGrown
    // SYNC and SYNC_SLOW
    | Syncing
    | SyncSlow
    | Grow
    | GrowWrite
    | GrowDone
    | RunInline
    // lace_shrink_shared
    | Shrink
    | ShrinkWrite(tail: nat, split: nat)
    | ShrinkCheck(split: nat)
    | ShrinkFix(tail: nat, split: nat)
    | ShrinkFail
    // lace_leapfrog
    | Leap
    | LeapSpin
    | LeapPost
    | LeapEnd

  /** What the owner is inside of: a task it runs inline, or waiting for a stolen task while it leapfrogs. */
  datatype Frame =
    | InlineFrame(base: nat, task: nat)
    | LeapFrame(slot: nat)
  {
    /** The first slot that the code inside the frame may use. */
    function Base(): nat { if InlineFrame? then base else slot + 1 }

    /** The head to which the deque returns when the frame is left. */
    function Lo(): nat { if InlineFrame? then base else slot }
  }

  datatype ThiefPc =
    | Start
    | Peeked
    | Loaded(ts: TailSplit)
    | Asking
    | Won(slot: nat)
    | Marked(slot: nat)
    | Running(slot: nat, task: nat)
    | Stored(slot: nat)
  {
    predicate Holds(i: nat) {
      (Won? || Marked? || Running? || Stored?) && slot == i
    }
  }

  datatype Location = InSlot(slot: nat) | InFrame(frame: nat) | Returned(value: int)

  datatype TaskInfo = TaskInfo(loc: Location, runs: nat, result: Option<int>)

  datatype State = State(
    // shared
    ts: TailSplit, allstolen: bool, movesplit: bool, slots: seq<Slot>,
    // private to the owner
    wsplit: nat, wallstolen: bool, head: nat, pc: OwnerPc, frames: seq<Frame>,
    // the steal attempts under way
    thieves: map<nat, ThiefPc>,
    // history
    tasks: seq<TaskInfo>)

  datatype Action =
    | Spawn
    | Sync
    | Owner
    | Return(result: int)
    | LeapRead
    | ThiefStart(id: nat)
    | ThiefStep(id: nat)
    | ThiefFinish(id: nat, result: int)

  predicate Initial(s: State) {
    && s.ts == TailSplit(0, 0) && !s.allstolen && !s.movesplit
    && s.wsplit == 0 && !s.wallstolen && s.head == 0 && s.pc == Idle && s.frames == []
    && s.thieves == map[] && s.tasks == []
  }

  function TopBase(s: State): nat {
    if s.frames == [] then 0 else s.frames[|s.frames| - 1].Base()
  }

  // ---------- Steps ----------

  /** What the program demands: a full deque aborts, and a task syncs only what it has spawned itself. */
  predicate Guard(s: State, a: Action) {
    match a
    case Spawn => s.pc == Idle && s.head < |s.slots|
    case Sync => s.pc == Idle && s.head > TopBase(s)
    case Owner => s.pc != Idle
    case Return(_) => s.pc == Idle && s.head == TopBase(s) && s.frames != [] && s.frames[|s.frames| - 1].InlineFrame?
    case LeapRead => s.pc == Idle && s.head == TopBase(s) && s.frames != [] && s.frames[|s.frames| - 1].LeapFrame?
    case ThiefStart(id) => id !in s.thieves
    case ThiefStep(id) => id in s.thieves && !s.thieves[id].Running?
    case ThiefFinish(id, _) => id in s.thieves && s.thieves[id].Running?
  }

  /** The slots and tasks that the step accesses exist. The invariant implies this, see GuardedStepsAreInRange. */
  predicate InRange(s: State, a: Action)
    requires Guard(s, a)
  {
    match a
    case Owner => WritesHead(s.pc) || (0 < s.head <= |s.slots| && s.slots[s.head - 1].task < |s.tasks|)
    case Return(_) => s.frames[|s.frames| - 1].task < |s.tasks|
    case LeapRead => s.frames[|s.frames| - 1].slot < |s.slots|
    case ThiefStep(id) =>
      (match s.thieves[id]
       case Loaded(ts) => ts.tail < ts.split && s.ts == ts ==> ts.tail < |s.slots|
       case Won(i) => i < |s.slots|
       case Marked(i) => i < |s.slots| && s.slots[i].task < |s.tasks|
       case Stored(i) => i < |s.slots|
       case _ => true)
    case ThiefFinish(id, _) => s.thieves[id].slot < |s.slots| && s.thieves[id].task < |s.tasks|
    case _ => true
  }

  predicate Enabled(s: State, a: Action) { Guard(s, a) && InRange(s, a) }

  /** The steps of SPAWN work on the slot at `head`, all others below it. */
  predicate WritesHead(pc: OwnerPc) {
    pc.SpawnWritten? || pc.SpawnCleared? || pc.SpawnPublished? || pc.SpawnGrow? || pc.SpawnGrown?
  }

  function Apply(s: State, a: Action): State
    requires Enabled(s, a)
  {
    match a
    case Spawn =>
      s.(slots := s.slots[s.head := s.slots[s.head].(task := |s.tasks|, thief := Task)],
         tasks := s.tasks + [TaskInfo(InSlot(s.head), 0, None)],
         pc := SpawnWritten)
    case Sync => s.(pc := Syncing)
    case Owner => OwnerStep(s)
    case Return(r) => ReturnInline(s, r)
    case LeapRead =>
      var slot := s.frames[|s.frames| - 1].slot;
      if s.slots[slot].thief == Completed then
        s.(pc := LeapPost, frames := s.frames[..|s.frames| - 1])
      else s
    case ThiefStart(id) => s.(thieves := s.thieves[id := Start])
    case ThiefStep(id) => StealStep(s, id)
    case ThiefFinish(id, r) => StealFinish(s, id, r)
  }

  function OwnerStep(s: State): State
    requires Enabled(s, Owner)
  {
    if WritesHead(s.pc) then SpawnStep(s) else SyncStep(s)
  }

  /** SPAWN after the task has been written to the slot. */
  function SpawnStep(s: State): State
    requires WritesHead(s.pc)
  {
    match s.pc
    case SpawnWritten =>
      if s.wallstolen then s.(movesplit := false, pc := SpawnCleared)
      else if s.movesplit then s.(pc := SpawnGrow)
      else s.(head := s.head + 1, pc := Idle)
    case SpawnCleared => s.(ts := TailSplit(s.head, s.head + 1), pc := SpawnPublished)
    case SpawnPublished =>
      s.(allstolen := false, wsplit := s.head + 1, wallstolen := false, head := s.head + 1, pc := Idle)
    case SpawnGrow =>
      var newsplit := (s.wsplit + s.head + 2) / 2;
      s.(ts := s.ts.(split := newsplit), wsplit := newsplit, pc := SpawnGrown)
    case SpawnGrown => s.(movesplit := false, head := s.head + 1, pc := Idle)
  }

  /** SYNC of the task in the slot below `head`. */
  function SyncStep(s: State): State
    requires s.pc != Idle && !WritesHead(s.pc) && 0 < s.head <= |s.slots|
    requires s.slots[s.head - 1].task < |s.tasks|
  {
    var h := s.head - 1;
    match s.pc
    case Syncing => s.(pc := if !s.movesplit && s.wsplit <= h then RunInline else SyncSlow)
    case SyncSlow => s.(pc := if s.wallstolen then Leap else if s.wsplit > h then Shrink else Grow)
    case Shrink => s.(pc := if s.ts.tail == s.ts.split then ShrinkFail else ShrinkWrite(s.ts.tail, s.ts.split))
    case ShrinkWrite(tail, split) =>
      s.(ts := s.ts.(split := (tail + split) / 2), pc := ShrinkCheck(split))
    case ShrinkCheck(split) =>
      if s.ts.tail == split then s.(pc := ShrinkFail)
      else if s.ts.tail > s.ts.split then s.(pc := ShrinkFix(s.ts.tail, split))
      else s.(wsplit := s.ts.split, pc := Grow)
    case ShrinkFix(tail, split) =>
      s.(ts := s.ts.(split := (tail + split) / 2), wsplit := (tail + split) / 2, pc := Grow)
    case ShrinkFail => s.(allstolen := true, wallstolen := true, pc := Leap)
    case Grow => s.(pc := if s.movesplit then GrowWrite else RunInline)
    case GrowWrite =>
      var diff := if h < s.wsplit then 0 else (h - s.wsplit + 1) / 2;
      s.(wsplit := s.wsplit + diff, ts := s.ts.(split := s.ts.split + diff), pc := GrowDone)
    case GrowDone => s.(movesplit := false, pc := RunInline)
    case RunInline =>
      var task := s.slots[h].task;
      s.(slots := s.slots[h := s.slots[h].(thief := Empty)], head := h, pc := Idle,
         frames := s.frames + [InlineFrame(h, task)],
         tasks := s.tasks[task := s.tasks[task].(loc := InFrame(|s.frames|), runs := s.tasks[task].runs + 1)])
    case Leap => s.(pc := if s.slots[h].thief == Completed then LeapEnd else LeapSpin)
    case LeapSpin =>
      if s.slots[h].thief == Empty || s.slots[h].thief == Task then s
      else if s.slots[h].thief == Completed then s.(pc := LeapPost)
      else s.(pc := Idle, frames := s.frames + [LeapFrame(h)])
    case LeapPost => s.(allstolen := true, wallstolen := true, pc := LeapEnd)
    case LeapEnd =>
      var task := s.slots[h].task;
      s.(slots := s.slots[h := s.slots[h].(thief := Empty)], head := h, pc := Idle,
         tasks := s.tasks[task := s.tasks[task].(loc := Returned(s.slots[h].res))])
    case Idle => s
  }

  /** The task that was run inline returns `r` from its SYNC. */
  function ReturnInline(s: State, r: int): State
    requires Enabled(s, Return(r))
  {
    var task := s.frames[|s.frames| - 1].task;
    s.(frames := s.frames[..|s.frames| - 1],
       tasks := s.tasks[task := s.tasks[task].(loc := Returned(r), result := Some(r))])
  }

  function SetThief(s: State, id: nat, p: ThiefPc): State { s.(thieves := s.thieves[id := p]) }

  function DropThief(s: State, id: nat): State { s.(thieves := s.thieves - {id}) }

  /** lace_steal, up to the start of the stolen task and from its end. */
  function StealStep(s: State, id: nat): State
    requires Enabled(s, ThiefStep(id))
  {
    match s.thieves[id]
    case Start => if s.allstolen then DropThief(s, id) else SetThief(s, id, Peeked)
    case Peeked => SetThief(s, id, if s.ts.tail < s.ts.split then Loaded(s.ts) else Asking)
    case Asking => DropThief(s.(movesplit := true), id)
    case Loaded(ts) =>
      // compare-and-swap of the packed word
      if ts.tail < ts.split && s.ts == ts then
        SetThief(s.(ts := TailSplit(ts.tail + 1, ts.split),
                    slots := s.slots[ts.tail := s.slots[ts.tail].(winner := id)]), id, Won(ts.tail))
      else DropThief(s, id)
    case Won(i) => SetThief(s.(slots := s.slots[i := s.slots[i].(thief := By(id))]), id, Marked(i))
    case Marked(i) =>
      var task := s.slots[i].task;
      SetThief(s.(tasks := s.tasks[task := s.tasks[task].(runs := s.tasks[task].runs + 1)]), id, Running(i, task))
    case Stored(i) => DropThief(s.(slots := s.slots[i := s.slots[i].(thief := Completed)]), id)
    case Running(_, _) => s
  }

  /** The stolen task ends and its result is stored in the slot. */
  function StealFinish(s: State, id: nat, r: int): State
    requires Enabled(s, ThiefFinish(id, r))
  {
    var Running(i, task) := s.thieves[id];
    SetThief(s.(slots := s.slots[i := s.slots[i].(res := r)],
                tasks := s.tasks[task := s.tasks[task].(result := Some(r))]), id, Stored(i))
  }

  // ---------- The invariant ----------

  /** The number of slots that hold a spawned and not yet synced task. */
  function Live(s: State): nat { if WritesHead(s.pc) then s.head + 1 else s.head }

  /** The slots below this index are stolen, those from it on are not. */
  function Stolen(s: State): nat {
    if s.wallstolen && !s.pc.SpawnPublished? then s.head else s.ts.tail
  }

  predicate Agreed(s: State) { s.ts.tail <= s.ts.split == s.wsplit }

  /** How tail, split and head relate at each point of the owner. */
  predicate Shape(s: State) {
    && Live(s) <= |s.slots|
    && (s.wallstolen ==> s.allstolen && s.wsplit >= s.head)
    && (s.wallstolen && !s.pc.SpawnPublished? ==> s.ts.tail >= s.ts.split)
    && (s.pc != Idle && !WritesHead(s.pc) ==> TopBase(s) < s.head)
    && TopBase(s) <= s.head
    && match s.pc
       case Idle => !s.wallstolen ==> Agreed(s) && s.wsplit <= s.head
       case SpawnWritten => !s.wallstolen ==> Agreed(s) && s.wsplit <= s.head
       case SpawnCleared => s.wallstolen
       case SpawnPublished => s.wallstolen && s.ts.split == s.head + 1 && s.head <= s.ts.tail <= s.head + 1
       case SpawnGrow => !s.wallstolen && Agreed(s) && s.wsplit <= s.head
       case SpawnGrown => !s.wallstolen && Agreed(s) && s.wsplit <= s.head + 1
       case Syncing => !s.wallstolen ==> Agreed(s) && s.wsplit <= s.head
       case SyncSlow => !s.wallstolen ==> Agreed(s) && s.wsplit <= s.head
       case Shrink => !s.wallstolen && Agreed(s) && s.wsplit == s.head
       case ShrinkWrite(tail, split) =>
         !s.wallstolen && Agreed(s) && s.wsplit == s.head && tail < split == s.head && tail <= s.ts.tail
       case ShrinkCheck(split) =>
         !s.wallstolen && s.ts.split < split == s.wsplit == s.head && s.ts.tail <= split
       case ShrinkFix(tail, split) =>
         !s.wallstolen && s.ts.split < tail == s.ts.tail < split == s.wsplit == s.head
       case ShrinkFail => !s.wallstolen && s.ts.tail == s.head == s.wsplit && s.ts.split <= s.ts.tail
       case Grow => !s.wallstolen && Agreed(s) && s.wsplit < s.head
       case GrowWrite => !s.wallstolen && Agreed(s) && s.wsplit < s.head
       case GrowDone => !s.wallstolen && Agreed(s) && s.wsplit < s.head
       case RunInline => !s.wallstolen && Agreed(s) && s.wsplit < s.head
       case Leap => s.wallstolen
       case LeapSpin => s.wallstolen
       case LeapPost => s.slots[s.head - 1].thief == Completed &&
         (!s.wallstolen ==> s.ts.tail == s.ts.split == s.wsplit == s.head)
       case LeapEnd => s.wallstolen && s.slots[s.head - 1].thief == Completed
  }

  predicate FramesOk(s: State) {
    && (forall i, j :: 0 <= i < j < |s.frames| ==> s.frames[i].Base() <= s.frames[j].Lo())
    && (forall j :: 0 <= j < |s.frames| ==> FrameOk(s, j))
  }

  predicate FrameOk(s: State, j: nat)
    requires j < |s.frames|
  {
    match s.frames[j]
    case LeapFrame(h) => h < Stolen(s)
    case InlineFrame(_, task) => task < |s.tasks| && s.tasks[task] == TaskInfo(InFrame(j), 1, None)
  }

  /** Every task is in one place, and that place has it. */
  predicate TasksOk(s: State) {
    forall t :: 0 <= t < |s.tasks| ==> TaskOk(s, t)
  }

  predicate TaskOk(s: State, t: nat)
    requires t < |s.tasks|
  {
    match s.tasks[t].loc
    case InSlot(i) => i < Live(s) && i < |s.slots| && s.slots[i].task == t
    case InFrame(j) => j < |s.frames| && s.frames[j].InlineFrame? && s.frames[j].task == t
    case Returned(v) => s.tasks[t].runs == 1 && s.tasks[t].result == Some(v)
  }

  predicate SlotsOk(s: State) {
    && Stolen(s) <= Live(s) <= |s.slots|
    && forall i :: 0 <= i < Live(s) ==> SlotOk(s, i)
  }

  predicate SlotOk(s: State, i: nat)
    requires i < |s.slots|
  {
    && s.slots[i].task < |s.tasks|
    && s.tasks[s.slots[i].task].loc == InSlot(i)
    && if i < Stolen(s) then StolenOk(s, i)
       else s.slots[i].thief == Task && s.tasks[s.slots[i].task].runs == 0 && s.tasks[s.slots[i].task].result == None
  }

  /** A stolen slot is completed, with the result of its only run, or the thief that won it is at work on it. */
  predicate StolenOk(s: State, i: nat)
    requires i < |s.slots| && s.slots[i].task < |s.tasks|
  {
    var info := s.tasks[s.slots[i].task];
    if s.slots[i].thief == Completed then info.runs == 1 && info.result == Some(s.slots[i].res)
    else s.slots[i].winner in s.thieves && s.thieves[s.slots[i].winner].Holds(i)
  }

  predicate ThievesOk(s: State) {
    forall id :: id in s.thieves ==> ThiefOk(s, id)
  }

  predicate ThiefOk(s: State, id: nat)
    requires id in s.thieves
  {
    var p := s.thieves[id];
    (p.Won? || p.Marked? || p.Running? || p.Stored?) ==>
      && p.slot < Stolen(s) && p.slot < |s.slots| && s.slots[p.slot].winner == id && s.slots[p.slot].task < |s.tasks|
      && var info := s.tasks[s.slots[p.slot].task];
         match p
         case Won(i) => s.slots[i].thief == Task && info.runs == 0 && info.result == None
         case Marked(i) => s.slots[i].thief == By(id) && info.runs == 0 && info.result == None
         case Running(i, task) =>
           s.slots[i].thief == By(id) && task == s.slots[i].task && info.runs == 1 && info.result == None
         case Stored(i) => s.slots[i].thief == By(id) && info.runs == 1 && info.result == Some(s.slots[i].res)
         case _ => true
  }

  predicate Inv(s: State) {
    Shape(s) && SlotsOk(s) && FramesOk(s) && TasksOk(s) && ThievesOk(s)
  }

  // ---------- Every step keeps the invariant ----------

  lemma SpawnKeeps(s: State)
    requires Inv(s) && Enabled(s, Spawn)
    ensures Inv(Apply(s, Spawn))
  {
    var s' := Apply(s, Spawn);
    forall i | 0 <= i < Live(s') ensures SlotOk(s', i) {
      if i < s.head { assert SlotOk(s, i); }
    }
    forall t | 0 <= t < |s'.tasks| ensures TaskOk(s', t) {
      if t < |s.tasks| { assert TaskOk(s, t); }
    }
    forall j | 0 <= j < |s'.frames| ensures FrameOk(s', j) { assert FrameOk(s, j); }
    forall id | id in s'.thieves ensures ThiefOk(s', id) { assert ThiefOk(s, id); }
  }

  /** Slots, tasks, frames and thieves are the same, and the border between stolen and unstolen slots. */
  predicate SameData(s: State, s': State) {
    && s'.slots == s.slots && s'.tasks == s.tasks && s'.frames == s.frames && s'.thieves == s.thieves
    && Live(s') == Live(s) && Stolen(s') == Stolen(s)
  }

  /** The frames stay when their tasks do and no stolen slot is given back. */
  lemma FramesCarry(s: State, s': State)
    requires FramesOk(s) && s'.frames == s.frames && Stolen(s) <= Stolen(s') && |s.tasks| <= |s'.tasks|
    requires forall t :: 0 <= t < |s.tasks| && s.tasks[t].loc.InFrame? ==> s'.tasks[t] == s.tasks[t]
    ensures FramesOk(s')
  {
    forall j | 0 <= j < |s'.frames| ensures FrameOk(s', j) { assert FrameOk(s, j); }
  }

  /** Tasks that keep their places stay in them. */
  lemma TasksCarry(s: State, s': State)
    requires TasksOk(s) && s'.frames == s.frames && Live(s) <= Live(s')
    requires |s'.slots| == |s.slots| && forall i :: 0 <= i < |s.slots| ==> s'.slots[i].task == s.slots[i].task
    requires |s'.tasks| == |s.tasks| && forall t :: 0 <= t < |s.tasks| ==> s'.tasks[t].loc == s.tasks[t].loc
    requires forall t :: 0 <= t < |s.tasks| && s.tasks[t].loc.Returned? ==> s'.tasks[t] == s.tasks[t]
    ensures TasksOk(s')
  {
    forall t | 0 <= t < |s'.tasks| ensures TaskOk(s', t) { assert TaskOk(s, t); }
  }

  /** Slots do not notice what happens to a task `t` that is in none of them. */
  lemma SlotsCarry(s: State, s': State, t: nat)
    requires SlotsOk(s) && s'.slots == s.slots && s'.thieves == s.thieves
    requires Live(s') == Live(s) && Stolen(s') == Stolen(s) && |s'.tasks| == |s.tasks|
    requires forall u :: 0 <= u < |s.tasks| && u != t ==> s'.tasks[u] == s.tasks[u]
    requires t < |s.tasks| ==> !s.tasks[t].loc.InSlot?
    ensures SlotsOk(s')
  {
    forall i | 0 <= i < Live(s') ensures SlotOk(s', i) { assert SlotOk(s, i); }
  }

  lemma ThievesCarry(s: State, s': State, t: nat)
    requires SlotsOk(s) && ThievesOk(s) && s'.slots == s.slots && s'.thieves == s.thieves
    requires Stolen(s') == Stolen(s) && |s'.tasks| == |s.tasks|
    requires forall u :: 0 <= u < |s.tasks| && u != t ==> s'.tasks[u] == s.tasks[u]
    requires t < |s.tasks| ==> !s.tasks[t].loc.InSlot?
    ensures ThievesOk(s')
  {
    forall id | id in s'.thieves ensures ThiefOk(s', id) {
      assert ThiefOk(s, id);
      var p := s.thieves[id];
      if p.Won? || p.Marked? || p.Running? || p.Stored? { assert SlotOk(s, p.slot); }
    }
  }

  lemma ControlKeeps(s: State, s': State)
    requires Inv(s) && Shape(s') && SameData(s, s')
    ensures Inv(s')
  {
    FramesCarry(s, s');
    TasksCarry(s, s');
    SlotsCarry(s, s', |s.tasks|);
    ThievesCarry(s, s', |s.tasks|);
  }

  lemma SpawnStepKeeps(s: State)
    requires Inv(s) && Enabled(s, Owner) && WritesHead(s.pc)
    ensures Inv(Apply(s, Owner))
  {
    SpawnStepShape(s);
    ControlKeeps(s, SpawnStep(s));
  }

  lemma SpawnStepShape(s: State)
    requires Shape(s) && WritesHead(s.pc)
    ensures Shape(SpawnStep(s)) && SameData(s, SpawnStep(s))
  {
  }

  lemma SyncKeeps(s: State)
    requires Inv(s) && Enabled(s, Sync)
    ensures Inv(Apply(s, Sync))
  {
    ControlKeeps(s, Apply(s, Sync));
  }

  lemma SyncStepKeeps(s: State)
    requires Inv(s) && Enabled(s, Owner) && !WritesHead(s.pc)
    ensures Inv(Apply(s, Owner))
  {
    if s.pc.RunInline? {
      RunInlineKeeps(s);
    } else if s.pc.LeapSpin? {
      LeapSpinKeeps(s);
    } else if s.pc.LeapEnd? {
      LeapEndKeeps(s);
    } else {
      SyncShape(s);
      ControlKeeps(s, SyncStep(s));
    }
  }

  /** The steps of SYNC that leave the data alone keep the shape. */
  lemma SyncShape(s: State)
    requires Shape(s) && Enabled(s, Owner) && !WritesHead(s.pc)
    requires !s.pc.RunInline? && !s.pc.LeapSpin? && !s.pc.LeapEnd?
    ensures Shape(SyncStep(s)) && SameData(s, SyncStep(s))
  {
    if s.pc.Shrink? || s.pc.ShrinkFail? {
      ShrinkEndsShape(s);
    } else if s.pc.ShrinkCheck? {
      ShrinkCheckShape(s);
    } else if s.pc.ShrinkWrite? || s.pc.ShrinkFix? {
      ShrinkWriteShape(s);
    } else if s.pc.Grow? || s.pc.GrowWrite? || s.pc.GrowDone? {
      GrowShape(s);
    } else {
      SyncControlShape(s);
    }
  }

  lemma ShrinkEndsShape(s: State)
    requires Shape(s) && Enabled(s, Owner) && (s.pc.Shrink? || s.pc.ShrinkFail?)
    ensures Shape(SyncStep(s)) && SameData(s, SyncStep(s))
  {
  }

  lemma ShrinkWriteShape(s: State)
    requires Shape(s) && Enabled(s, Owner) && (s.pc.ShrinkWrite? || s.pc.ShrinkFix?)
    ensures Shape(SyncStep(s)) && SameData(s, SyncStep(s))
  {
  }

  lemma ShrinkCheckShape(s: State)
    requires Shape(s) && Enabled(s, Owner) && s.pc.ShrinkCheck?
    ensures Shape(SyncStep(s)) && SameData(s, SyncStep(s))
  {
  }

  lemma GrowShape(s: State)
    requires Shape(s) && Enabled(s, Owner) && (s.pc.Grow? || s.pc.GrowWrite? || s.pc.GrowDone?)
    ensures Shape(SyncStep(s)) && SameData(s, SyncStep(s))
  {
  }

  lemma SyncControlShape(s: State)
    requires Shape(s) && Enabled(s, Owner)
    requires s.pc.Syncing? || s.pc.SyncSlow? || s.pc.Leap? || s.pc.LeapPost?
    ensures Shape(SyncStep(s)) && SameData(s, SyncStep(s))
  {
  }

  /** The owner takes the task `t` out of the slot `h` below the head; no thief is at work on it. */
  ghost predicate Taken(s: State, s': State, h: nat, t: nat) {
    && h < |s.slots| && Live(s) == h + 1 && Live(s') == h && s.slots[h].task == t < |s.tasks|
    && s'.slots == s.slots[h := s.slots[h].(thief := Empty)] && s'.thieves == s.thieves
    && |s'.tasks| == |s.tasks| && (forall u :: 0 <= u < |s.tasks| && u != t ==> s'.tasks[u] == s.tasks[u])
    && Stolen(s') == Min(Stolen(s), h)
    && (h < Stolen(s) ==> s.slots[h].thief == Completed)
  }

  lemma TakenSlots(s: State, s': State, h: nat, t: nat)
    requires SlotsOk(s) && Taken(s, s', h, t)
    ensures SlotsOk(s')
  {
    assert SlotOk(s, h);
    forall i | 0 <= i < Live(s') ensures SlotOk(s', i) { assert SlotOk(s, i); }
  }

  lemma TakenThieves(s: State, s': State, h: nat, t: nat)
    requires SlotsOk(s) && ThievesOk(s) && Taken(s, s', h, t)
    ensures ThievesOk(s')
  {
    assert SlotOk(s, h);
    forall id | id in s'.thieves ensures ThiefOk(s', id) {
      assert ThiefOk(s, id);
      var p := s.thieves[id];
      if p.Won? || p.Marked? || p.Running? || p.Stored? { assert SlotOk(s, p.slot); }
    }
  }

  /** The tasks other than `t` stay where they are. */
  lemma TakenTasks(s: State, s': State, h: nat, t: nat)
    requires TasksOk(s) && Taken(s, s', h, t) && TaskOk(s', t) && s.frames <= s'.frames
    ensures TasksOk(s')
  {
    forall u | 0 <= u < |s'.tasks| ensures TaskOk(s', u) {
      if u != t { assert TaskOk(s, u); }
    }
  }

  lemma RunInlineKeeps(s: State)
    requires Inv(s) && Enabled(s, Owner) && s.pc == RunInline
    ensures Inv(SyncStep(s))
  {
    var s' := SyncStep(s);
    var h := s.head - 1;
    assert SlotOk(s, h);
    TakenSlots(s, s', h, s.slots[h].task);
    TakenThieves(s, s', h, s.slots[h].task);
    TakenTasks(s, s', h, s.slots[h].task);
    PushedFrames(s, s', s.slots[h].task);
  }

  /** A frame is entered, whose slots are above those of the frames outside. */
  lemma PushedFrames(s: State, s': State, t: nat)
    requires FramesOk(s) && |s'.frames| == |s.frames| + 1 && s'.frames[..|s.frames|] == s.frames
    requires TopBase(s) <= s'.frames[|s.frames|].Lo() && FrameOk(s', |s.frames|)
    requires Min(Stolen(s), TopBase(s)) <= Stolen(s')
    requires |s'.tasks| == |s.tasks| && (t < |s.tasks| ==> !s.tasks[t].loc.InFrame?)
    requires forall u :: 0 <= u < |s.tasks| && u != t ==> s'.tasks[u] == s.tasks[u]
    ensures FramesOk(s')
  {
    var n := |s.frames|;
    forall j | 0 <= j < |s'.frames| ensures FrameOk(s', j) {
      if j < n {
        assert FrameOk(s, j) && s'.frames[j] == s.frames[j];
        assert j < n - 1 ==> s.frames[j].Base() <= s.frames[n - 1].Lo();
      }
    }
    forall i, j | 0 <= i < j < |s'.frames| ensures s'.frames[i].Base() <= s'.frames[j].Lo() {
      assert s'.frames[i] == s.frames[i];
      if j == n && i < n - 1 {
        assert s.frames[i].Base() <= s.frames[n - 1].Lo();
      }
    }
  }

  lemma LeapSpinKeeps(s: State)
    requires Inv(s) && Enabled(s, Owner) && s.pc == LeapSpin
    ensures Inv(SyncStep(s))
  {
    var s' := SyncStep(s);
    if s'.frames == s.frames {
      LeapSpinShape(s);
      ControlKeeps(s, s');
    } else {
      LeapFrameKeeps(s, s');
    }
  }

  lemma LeapSpinShape(s: State)
    requires Shape(s) && Enabled(s, Owner) && s.pc == LeapSpin && SyncStep(s).frames == s.frames
    ensures Shape(SyncStep(s)) && SameData(s, SyncStep(s))
  {
  }

  lemma LeapFrameKeeps(s: State, s': State)
    requires Inv(s) && s.pc == LeapSpin && s.head > 0
    requires s' == s.(pc := Idle, frames := s.frames + [LeapFrame(s.head - 1)])
    ensures Inv(s')
  {
    SlotsCarry(s, s', |s.tasks|);
    ThievesCarry(s, s', |s.tasks|);
    PushedFrames(s, s', |s.tasks|);
    forall t | 0 <= t < |s'.tasks| ensures TaskOk(s', t) { assert TaskOk(s, t); }
  }

  lemma LeapEndKeeps(s: State)
    requires Inv(s) && Enabled(s, Owner) && s.pc == LeapEnd
    ensures Inv(SyncStep(s))
  {
    var s' := SyncStep(s);
    var h := s.head - 1;
    assert SlotOk(s, h);
    TakenSlots(s, s', h, s.slots[h].task);
    TakenThieves(s, s', h, s.slots[h].task);
    TakenTasks(s, s', h, s.slots[h].task);
    LeapEndFrames(s);
  }

  /** Leapfrog frames wait for slots below those the owner uses, so none waits for the slot that is given back. */
  lemma LeapEndFrames(s: State)
    requires Shape(s) && SlotsOk(s) && FramesOk(s) && Enabled(s, Owner) && s.pc == LeapEnd
    ensures FramesOk(SyncStep(s))
  {
    var s' := SyncStep(s);
    var n := |s.frames|;
    assert SlotOk(s, s.head - 1);
    forall j | 0 <= j < |s'.frames| ensures FrameOk(s', j) {
      assert FrameOk(s, j);
      assert j < n - 1 ==> s.frames[j].Base() <= s.frames[n - 1].Lo();
    }
  }

  /** The innermost frame is left; with it goes the task `t` that is in it, if any. */
  ghost predicate Left(s: State, s': State, t: nat) {
    && s.frames != [] && s'.frames == s.frames[..|s.frames| - 1]
    && s'.slots == s.slots && s'.thieves == s.thieves
    && Live(s') == Live(s) && Stolen(s') == Stolen(s) && |s'.tasks| == |s.tasks|
    && (forall u :: 0 <= u < |s.tasks| && u != t ==> s'.tasks[u] == s.tasks[u])
    && (t < |s.tasks| ==> s.tasks[t].loc == InFrame(|s.frames| - 1) && TaskOk(s', t))
    && (s.frames[|s.frames| - 1].InlineFrame? ==> s.frames[|s.frames| - 1].task == t)
  }

  lemma LeftKeeps(s: State, s': State, t: nat)
    requires Inv(s) && Shape(s') && Left(s, s', t)
    ensures Inv(s')
  {
    SlotsCarry(s, s', t);
    ThievesCarry(s, s', t);
    LeftFrames(s, s', t);
    LeftTasks(s, s', t);
  }

  lemma LeftFrames(s: State, s': State, t: nat)
    requires FramesOk(s) && Left(s, s', t)
    ensures FramesOk(s')
  {
    forall j | 0 <= j < |s'.frames| ensures FrameOk(s', j) { assert FrameOk(s, j); }
  }

  lemma LeftTasks(s: State, s': State, t: nat)
    requires TasksOk(s) && Left(s, s', t)
    ensures TasksOk(s')
  {
    forall u | 0 <= u < |s'.tasks| ensures TaskOk(s', u) {
      if u != t { assert TaskOk(s, u); }
    }
  }

  /** Outside the innermost frame the owner may use fewer slots. */
  lemma LeftBase(s: State)
    requires FramesOk(s) && s.frames != []
    ensures (if |s.frames| == 1 then 0 else s.frames[|s.frames| - 2].Base()) <= s.frames[|s.frames| - 1].Lo()
  {
  }

  lemma ReturnKeeps(s: State, r: int)
    requires Inv(s) && Enabled(s, Return(r))
    ensures Inv(Apply(s, Return(r)))
  {
    var n := |s.frames| - 1;
    assert FrameOk(s, n);
    LeftBase(s);
    LeftKeeps(s, ReturnInline(s, r), s.frames[n].task);
  }

  lemma LeapReadKeeps(s: State)
    requires Inv(s) && Enabled(s, LeapRead)
    ensures Inv(Apply(s, LeapRead))
  {
    var s' := Apply(s, LeapRead);
    if s' != s {
      LeapReadShape(s);
      LeftKeeps(s, s', |s.tasks|);
    }
  }

  lemma LeapReadShape(s: State)
    requires Shape(s) && SlotsOk(s) && FramesOk(s) && Enabled(s, LeapRead) && Apply(s, LeapRead) != s
    ensures Shape(Apply(s, LeapRead))
  {
    assert FrameOk(s, |s.frames| - 1);
    LeftBase(s);
  }

  /** A thief that holds no slot may come, move on or go. */
  lemma IdleThiefKeeps(s: State, s': State, id: nat)
    requires Inv(s)
    requires s' == s.(thieves := s'.thieves, movesplit := s'.movesplit)
    requires forall d :: d != id ==> (d in s.thieves <==> d in s'.thieves)
    requires forall d :: d != id && d in s.thieves ==> s'.thieves[d] == s.thieves[d]
    requires id in s.thieves ==> forall i :: !s.thieves[id].Holds(i)
    requires id in s'.thieves ==> forall i :: !s'.thieves[id].Holds(i)
    ensures Inv(s')
  {
    FramesCarry(s, s');
    TasksCarry(s, s');
    forall i | 0 <= i < Live(s') ensures SlotOk(s', i) { assert SlotOk(s, i); }
    forall d | d in s'.thieves ensures ThiefOk(s', d) {
      if d != id {
        assert ThiefOk(s, d);
      } else {
        var p := s'.thieves[id];
        if p.Won? || p.Marked? || p.Running? || p.Stored? { assert p.Holds(p.slot); }
      }
    }
  }

  /** The compare-and-swap succeeds only on a slot that is spawned, shared and not stolen. */
  lemma CasKeeps(s: State, id: nat)
    requires Inv(s) && Enabled(s, ThiefStep(id)) && s.thieves[id].Loaded?
    requires s.thieves[id].ts.tail < s.thieves[id].ts.split && s.ts == s.thieves[id].ts
    ensures Inv(Apply(s, ThiefStep(id)))
  {
    var s' := StealStep(s, id);
    CasShape(s, id);
    FramesCarry(s, s');
    TasksCarry(s, s');
    CasSlots(s, id);
    CasThieves(s, id);
  }

  lemma CasShape(s: State, id: nat)
    requires Shape(s) && Enabled(s, ThiefStep(id)) && s.thieves[id].Loaded?
    requires s.thieves[id].ts.tail < s.thieves[id].ts.split && s.ts == s.thieves[id].ts
    ensures Shape(StealStep(s, id)) && Stolen(s) == s.ts.tail && Stolen(StealStep(s, id)) == s.ts.tail + 1
    ensures Stolen(StealStep(s, id)) <= Live(s)
  {
  }

  lemma CasSlots(s: State, id: nat)
    requires Shape(s) && SlotsOk(s) && Enabled(s, ThiefStep(id)) && s.thieves[id].Loaded?
    requires s.thieves[id].ts.tail < s.thieves[id].ts.split && s.ts == s.thieves[id].ts
    ensures SlotsOk(StealStep(s, id))
  {
    var s' := StealStep(s, id);
    CasShape(s, id);
    forall i | 0 <= i < Live(s') ensures SlotOk(s', i) { assert SlotOk(s, i); }
  }

  lemma CasThieves(s: State, id: nat)
    requires Shape(s) && SlotsOk(s) && ThievesOk(s) && Enabled(s, ThiefStep(id)) && s.thieves[id].Loaded?
    requires s.thieves[id].ts.tail < s.thieves[id].ts.split && s.ts == s.thieves[id].ts
    ensures ThievesOk(StealStep(s, id))
  {
    var s' := StealStep(s, id);
    CasShape(s, id);
    assert SlotOk(s, s.ts.tail);
    forall d | d in s'.thieves ensures ThiefOk(s', d) {
      if d != id { assert ThiefOk(s, d); }
    }
  }

  /** A step of thief `id` on the slot `i` that it has won. */
  ghost predicate HolderStep(s: State, s': State, id: nat, i: nat) {
    && id in s.thieves && s.thieves[id].Holds(i)
    && i < |s.slots| && s.slots[i].task < |s.tasks|
    && s' == s.(thieves := s'.thieves, slots := s'.slots, tasks := s'.tasks)
    && |s'.slots| == |s.slots| && |s'.tasks| == |s.tasks|
    && (forall k :: 0 <= k < |s.slots| && k != i ==> s'.slots[k] == s.slots[k])
    && (forall t :: 0 <= t < |s.tasks| && t != s.slots[i].task ==> s'.tasks[t] == s.tasks[t])
    && s'.slots[i].task == s.slots[i].task && s'.slots[i].winner == s.slots[i].winner
    && s'.tasks[s.slots[i].task].loc == s.tasks[s.slots[i].task].loc
    && (forall d :: d != id ==> (d in s.thieves <==> d in s'.thieves))
    && (forall d :: d != id && d in s.thieves ==> s'.thieves[d] == s.thieves[d])
    && if id in s'.thieves then s'.thieves[id].Holds(i) && ThiefOk(s', id) && s'.slots[i].thief != Completed
       else s'.slots[i].thief == Completed && StolenOk(s', i)
  }

  lemma HolderKeeps(s: State, s': State, id: nat, i: nat)
    requires Inv(s) && HolderStep(s, s', id, i) && s.slots[i].thief != Completed
    ensures Inv(s')
  {
    assert ThiefOk(s, id);
    assert SlotOk(s, i);
    FramesCarry(s, s');
    TasksCarry(s, s');
    forall k | 0 <= k < Live(s') ensures SlotOk(s', k) { HolderSlot(s, s', id, i, k); }
    forall d | d in s'.thieves ensures ThiefOk(s', d) {
      if d != id { HolderOther(s, s', id, i, d); }
    }
  }

  lemma HolderSlot(s: State, s': State, id: nat, i: nat, k: nat)
    requires SlotsOk(s) && HolderStep(s, s', id, i) && ThiefOk(s, id) && k < Live(s)
    ensures SlotOk(s', k)
  {
    assert SlotOk(s, i);
    assert SlotOk(s, k);
    if k != i {
      assert s.slots[k].task != s.slots[i].task;
      if k < Stolen(s) && s.slots[k].thief != Completed {
        assert s.slots[k].winner != id;
      }
    }
  }

  lemma HolderOther(s: State, s': State, id: nat, i: nat, d: nat)
    requires SlotsOk(s) && ThievesOk(s) && HolderStep(s, s', id, i) && d in s.thieves && d != id
    ensures ThiefOk(s', d)
  {
    assert ThiefOk(s, d);
    assert ThiefOk(s, id);
    var p := s.thieves[d];
    if p.Won? || p.Marked? || p.Running? || p.Stored? {
      assert SlotOk(s, p.slot);
      assert SlotOk(s, i);
    }
  }

  lemma StealStepKeeps(s: State, id: nat)
    requires Inv(s) && Enabled(s, ThiefStep(id))
    ensures Inv(Apply(s, ThiefStep(id)))
  {
    match s.thieves[id]
    case Loaded(ts) =>
      if ts.tail < ts.split && s.ts == ts { CasKeeps(s, id); } else { StealIdleKeeps(s, id); }
    case Won(i) => WonKeeps(s, id);
    case Marked(i) => MarkedKeeps(s, id);
    case Stored(i) => StoredKeeps(s, id);
    case _ => StealIdleKeeps(s, id);
  }

  lemma StealIdleKeeps(s: State, id: nat)
    requires Inv(s) && Enabled(s, ThiefStep(id))
    requires s.thieves[id].Start? || s.thieves[id].Peeked? || s.thieves[id].Asking? || s.thieves[id].Loaded?
    requires s.thieves[id].Loaded? ==>
      !(s.thieves[id].ts.tail < s.thieves[id].ts.split && s.ts == s.thieves[id].ts)
    ensures Inv(Apply(s, ThiefStep(id)))
  {
    IdleThiefKeeps(s, Apply(s, ThiefStep(id)), id);
  }

  lemma WonKeeps(s: State, id: nat)
    requires Inv(s) && Enabled(s, ThiefStep(id)) && s.thieves[id].Won?
    ensures Inv(Apply(s, ThiefStep(id)))
  {
    assert ThiefOk(s, id);
    HolderKeeps(s, Apply(s, ThiefStep(id)), id, s.thieves[id].slot);
  }

  lemma MarkedKeeps(s: State, id: nat)
    requires Inv(s) && Enabled(s, ThiefStep(id)) && s.thieves[id].Marked?
    ensures Inv(Apply(s, ThiefStep(id)))
  {
    assert ThiefOk(s, id);
    HolderKeeps(s, Apply(s, ThiefStep(id)), id, s.thieves[id].slot);
  }

  lemma StoredKeeps(s: State, id: nat)
    requires Inv(s) && Enabled(s, ThiefStep(id)) && s.thieves[id].Stored?
    ensures Inv(Apply(s, ThiefStep(id)))
  {
    assert ThiefOk(s, id);
    HolderKeeps(s, Apply(s, ThiefStep(id)), id, s.thieves[id].slot);
  }

  lemma StealFinishKeeps(s: State, id: nat, r: int)
    requires Inv(s) && Enabled(s, ThiefFinish(id, r))
    ensures Inv(Apply(s, ThiefFinish(id, r)))
  {
    assert ThiefOk(s, id);
    HolderKeeps(s, Apply(s, ThiefFinish(id, r)), id, s.thieves[id].slot);
  }

  lemma StepKeeps(s: State, a: Action)
    requires Inv(s) && Enabled(s, a)
    ensures Inv(Apply(s, a))
  {
    match a
    case Spawn => SpawnKeeps(s);
    case Sync => SyncKeeps(s);
    case Owner => if WritesHead(s.pc) { SpawnStepKeeps(s); } else { SyncStepKeeps(s); }
    case Return(r) => ReturnKeeps(s, r);
    case LeapRead => LeapReadKeeps(s);
    case ThiefStart(id) => IdleThiefKeeps(s, Apply(s, a), id);
    case ThiefStep(id) => StealStepKeeps(s, id);
    case ThiefFinish(id, r) => StealFinishKeeps(s, id, r);
  }

  /** No step of the program leaves the deque. */
  lemma GuardedStepsAreInRange(s: State, a: Action)
    requires Inv(s) && Guard(s, a)
    ensures Enabled(s, a)
  {
    match a
    case Owner => if !WritesHead(s.pc) { assert SlotOk(s, s.head - 1); }
    case Return(_) => assert FrameOk(s, |s.frames| - 1);
    case LeapRead => assert FrameOk(s, |s.frames| - 1);
    case ThiefStep(id) => assert ThiefOk(s, id);
    case ThiefFinish(id, _) => assert ThiefOk(s, id);
    case _ =>
  }

  // ---------- Runs ----------

  /** The states of a run: every interleaving of enabled steps from an initial state. */
  predicate IsRun(run: seq<State>, actions: seq<Action>) {
    && |run| == |actions| + 1
    && Initial(run[0])
    && forall i {:trigger actions[i]} :: 0 <= i < |actions| ==>
         Enabled(run[i], actions[i]) && run[i + 1] == Apply(run[i], actions[i])
  }

  lemma {:induction false} RunKeeps(run: seq<State>, actions: seq<Action>, n: nat)
    requires IsRun(run, actions) && n < |run|
    ensures Inv(run[n])
  {
    if n > 0 {
      RunKeeps(run, actions, n - 1);
      StepKeeps(run[n - 1], actions[n - 1]);
    }
  }

  /** In every run every task runs at most once, and a SYNC returns the result of the only run of its task. */
  lemma RunsOnce(run: seq<State>, actions: seq<Action>, n: nat, t: nat)
    requires IsRun(run, actions) && n < |run| && t < |run[n].tasks|
    ensures run[n].tasks[t].runs <= 1
    ensures run[n].tasks[t].loc.Returned? ==>
      run[n].tasks[t].runs == 1 && run[n].tasks[t].result == Some(run[n].tasks[t].loc.value)
  {
    RunKeeps(run, actions, n);
    var s := run[n];
    assert TaskOk(s, t);
    match s.tasks[t].loc
    case InSlot(i) =>
      assert SlotOk(s, i);
      if i < Stolen(s) && s.slots[i].thief != Completed { assert ThiefOk(s, s.slots[i].winner); }
    case InFrame(j) => assert FrameOk(s, j);
    case Returned(v) =>
  }

  /** When the deque is empty and the owner is inside of nothing, every task has run exactly once and was synced. */
  lemma AllDone(run: seq<State>, actions: seq<Action>, n: nat, t: nat)
    requires IsRun(run, actions) && n < |run| && t < |run[n].tasks|
    requires run[n].pc == Idle && run[n].head == 0 && run[n].frames == []
    ensures run[n].tasks[t].runs == 1 && run[n].tasks[t].loc.Returned?
  {
    RunKeeps(run, actions, n);
    assert TaskOk(run[n], t);
  }

  /** No task is run by two threads at a time. */
  lemma OneRunner(run: seq<State>, actions: seq<Action>, n: nat, id: nat, j: nat, d: nat)
    requires IsRun(run, actions) && n < |run| && id in run[n].thieves && run[n].thieves[id].Running?
    ensures j < |run[n].frames| && run[n].frames[j].InlineFrame? ==> run[n].frames[j].task != run[n].thieves[id].task
    ensures d in run[n].thieves && d != id && run[n].thieves[d].Running? ==>
      run[n].thieves[d].task != run[n].thieves[id].task && run[n].thieves[d].slot != run[n].thieves[id].slot
  {
    RunKeeps(run, actions, n);
    var s := run[n];
    assert ThiefOk(s, id);
    assert SlotOk(s, s.thieves[id].slot);
    if j < |s.frames| && s.frames[j].InlineFrame? { assert FrameOk(s, j); }
    if d in s.thieves && d != id && s.thieves[d].Running? {
      assert ThiefOk(s, d);
      assert SlotOk(s, s.thieves[d].slot);
    }
  }

  /**
   A step that ends the SYNC of a task still in its slot finds the slot stolen and marked completed, and
   returns the result that the thief has stored.
   */
  lemma StolenSyncWaits(run: seq<State>, actions: seq<Action>, n: nat, t: nat)
    requires IsRun(run, actions) && n < |actions| && t < |run[n].tasks|
    requires run[n].tasks[t].loc.InSlot? && t < |run[n + 1].tasks| && run[n + 1].tasks[t].loc.Returned?
    ensures var i := run[n].tasks[t].loc.slot;
      && i < |run[n].slots| && i < Stolen(run[n]) && run[n].slots[i].thief == Completed
      && run[n + 1].tasks[t].loc.value == run[n].slots[i].res
      && run[n].tasks[t].runs == 1 && run[n].tasks[t].result == Some(run[n].slots[i].res)
  {
    RunKeeps(run, actions, n);
    var s, a := run[n], actions[n];
    assert TaskOk(s, t);
    assert SlotOk(s, s.tasks[t].loc.slot);
    if a == Owner && !WritesHead(s.pc) {
      OwnerReturns(s, t);
    } else {
      OtherStepsReturnNothing(s, a, t);
    }
  }

  lemma OwnerReturns(s: State, t: nat)
    requires Inv(s) && Enabled(s, Owner) && !WritesHead(s.pc) && t < |s.tasks|
    requires s.tasks[t].loc.InSlot? && SyncStep(s).tasks[t].loc.Returned?
    ensures s.pc == LeapEnd && s.tasks[t].loc == InSlot(s.head - 1)
    ensures SyncStep(s).tasks[t].loc.value == s.slots[s.head - 1].res
  {
    assert SlotOk(s, s.head - 1);
  }

  lemma OtherStepsReturnNothing(s: State, a: Action, t: nat)
    requires Inv(s) && Enabled(s, a) && t < |s.tasks| && s.tasks[t].loc.InSlot?
    requires a == Owner ==> WritesHead(s.pc)
    ensures t < |Apply(s, a).tasks| && Apply(s, a).tasks[t].loc == s.tasks[t].loc
  {
    match a
    case Return(r) => assert FrameOk(s, |s.frames| - 1);
    case _ =>
  }

  /** While the owner waits for a stolen task that is not completed, the thief that won it is at work on it. */
  lemma WaitIsNotLost(run: seq<State>, actions: seq<Action>, n: nat, h: nat)
    requires IsRun(run, actions) && n < |run|
    requires (run[n].pc == LeapSpin && h + 1 == run[n].head) || LeapFrame(h) in run[n].frames
    ensures h < |run[n].slots|
    ensures run[n].slots[h].thief == Completed ||
      exists id :: id in run[n].thieves && run[n].thieves[id].Holds(h)
  {
    RunKeeps(run, actions, n);
    var s := run[n];
    if LeapFrame(h) in s.frames {
      var j :| 0 <= j < |s.frames| && s.frames[j] == LeapFrame(h);
      assert FrameOk(s, j);
    }
    assert SlotOk(s, h);
  }

  /** After leapfrogging with a deque that is not all stolen, tail, split and head coincide. */
  lemma PostLeapMeets(run: seq<State>, actions: seq<Action>, n: nat)
    requires IsRun(run, actions) && n < |run| && run[n].pc == LeapPost && !run[n].wallstolen
    ensures run[n].ts.tail == run[n].ts.split == run[n].head == run[n].wsplit
  {
    RunKeeps(run, actions, n);
  }
}
