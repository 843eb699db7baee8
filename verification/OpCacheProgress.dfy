/** When cache_get and cache_put succeed in every interleaving. */
module OpCacheProgress {
  /*
   Each fails only for one of the reasons that the source tests, and what a put has stored is found by a get. The steps
   of one worker in a run are given by their positions, which are consecutive for that worker.
   */
  import opened OpCache

  predicate OfWorker(step: (nat, Start), i: nat) { step.0 == i }

  ghost predicate NoneOf(schedule: seq<(nat, Start)>, i: nat, n: nat, m: nat) {
    forall l :: n <= l < m && l < |schedule| ==> !OfWorker(schedule[l], i)
  }

  ghost predicate StepsOf(schedule: seq<(nat, Start)>, i: nat, at: seq<nat>) {
    && (forall j :: 0 <= j < |at| ==> at[j] < |schedule| && OfWorker(schedule[at[j]], i))
    && (forall j :: 0 < j < |at| ==> at[j - 1] < at[j] && NoneOf(schedule, i, at[j - 1] + 1, at[j]))
  }

  /** Other workers leave a worker where it is. */
  lemma {:induction false} WorkerStays(run: seq<State>, schedule: seq<(nat, Start)>, i: nat, n: nat, m: nat)
    requires IsRun(run, schedule) && n <= m < |run| && NoneOf(schedule, i, n, m) && i < |run[n].pcs|
    ensures |run[m].pcs| == |run[n].pcs| && run[m].pcs[i] == run[n].pcs[i]
    decreases m - n
  {
    if n < m {
      assert !OfWorker(schedule[n], i) && run[n + 1] == Step(run[n], schedule[n].0, schedule[n].1);
      WorkerStays(run, schedule, i, n + 1, m);
    }
  }

  /** The step of a worker, and where its next step finds it. */
  lemma WorkerNext(run: seq<State>, schedule: seq<(nat, Start)>, i: nat, at: seq<nat>, j: nat)
    requires IsRun(run, schedule) && StepsOf(schedule, i, at) && j < |at|
    ensures at[j] + 1 < |run| && i < |run[at[j]].pcs| == |run[at[j] + 1].pcs|
    ensures run[at[j] + 1] == Step(run[at[j]], i, schedule[at[j]].1)
    ensures j + 1 < |at| ==> at[j + 1] + 1 < |run| && |run[at[j + 1]].pcs| == |run[at[j]].pcs|
    ensures j + 1 < |at| ==> run[at[j + 1]].pcs[i] == run[at[j] + 1].pcs[i]
  {
    assert OfWorker(schedule[at[j]], i);
    if j + 1 < |at| {
      assert at[j + 1] < |schedule|;
      WorkerStays(run, schedule, i, at[j] + 1, at[j + 1]);
    }
  }

  // ---------- cache_get ----------

  /** The test at the j-th step of a get that has started with step 0, on what it finds in the bucket then. */
  predicate TestPassed(buckets: seq<Bucket>, j: nat, k: Key, h: nat)
    requires j < |buckets|
  {
    var b := buckets[j];
    if j == 0 then !b.status.locked && !b.status.twoPart && b.status.hash == h
    else if j == 1 then b.a == k.a
    else if j == 2 then b.b == k.b
    else if j == 3 then b.c == k.c
    else if j == 5 then b.status == buckets[0].status
    else true
  }

  ghost function Buckets(run: seq<State>, at: seq<nat>): (r: seq<Bucket>)
    requires forall j :: 0 <= j < |at| ==> at[j] < |run|
    ensures |r| == |at| && forall j :: 0 <= j < |at| ==> r[j] == run[at[j]].bucket
  {
    seq(|at|, j requires 0 <= j < |at| => run[at[j]].bucket)
  }

  lemma InRun(run: seq<State>, schedule: seq<(nat, Start)>, i: nat, at: seq<nat>)
    requires IsRun(run, schedule) && StepsOf(schedule, i, at)
    ensures forall j :: 0 <= j < |at| ==> at[j] + 1 < |run| && i < |run[at[j]].pcs| == |run[at[j] + 1].pcs|
  {
    forall j | 0 <= j < |at| ensures at[j] + 1 < |run| && i < |run[at[j]].pcs| == |run[at[j] + 1].pcs| {
      WorkerNext(run, schedule, i, at, j);
    }
  }

  /** Where a get is when it has passed its first `j` tests. */
  predicate GetAt(p: Pc, j: nat, k: Key, h: nat, st: Status, res: nat) {
    if j == 0 then p == GetStatus(k, h)
    else if j == 1 then p.GetA? && p.k == k && p.s == st
    else if j == 2 then p.GetB? && p.k == k && p.s == st
    else if j == 3 then p.GetC? && p.k == k && p.s == st
    else if j == 4 then p.GetRes? && p.k == k && p.s == st
    else if j == 5 then p.GetCheck? && p.k == k && p.s == st && p.res == res
    else p.Hit? && p.k == k && p.res == res
  }

  lemma GetStep(s: State, i: nat, start: Start, j: nat, k: Key, h: nat, st: Status, res: nat)
    requires i < |s.pcs| && j < 6 && GetAt(s.pcs[i], j, k, h, st, res)
    ensures var b, p := s.bucket, Step(s, i, start).pcs[i];
      && (j == 0 ==> if b.status.locked || b.status.twoPart || b.status.hash != h then p == Failed
                     else GetAt(p, 1, k, h, b.status, res))
      && (j == 1 ==> if b.a == k.a then GetAt(p, 2, k, h, st, res) else p == Failed)
      && (j == 2 ==> if b.b == k.b then GetAt(p, 3, k, h, st, res) else p == Failed)
      && (j == 3 ==> if b.c == k.c then GetAt(p, 4, k, h, st, res) else p == Failed)
      && (j == 4 ==> GetAt(p, 5, k, h, st, b.res))
      && (j == 5 ==> if b.status == st then GetAt(p, 6, k, h, st, res) else p == Failed)
  {
  }

  /**
   A get that has passed the tests of its first steps passes the next one, or fails there for the reason tested. When it
   passes all six it is a hit, with the result that it has read.
   */
  lemma {:induction false} GetOutcome(run: seq<State>, schedule: seq<(nat, Start)>, i: nat, at: seq<nat>, j: nat,
                                      k: Key, h: nat)
    requires IsRun(run, schedule) && StepsOf(schedule, i, at) && j < |at| <= 6
    requires forall m :: 0 <= m < |at| ==> at[m] + 1 < |run|
    requires i < |run[at[0]].pcs| && run[at[0]].pcs[i] == GetStatus(k, h)
    requires forall m :: 0 <= m < j ==> TestPassed(Buckets(run, at), m, k, h)
    ensures i < |run[at[j] + 1].pcs|
    ensures var p := run[at[j] + 1].pcs[i];
      if TestPassed(Buckets(run, at), j, k, h)
      then GetAt(p, j + 1, k, h, run[at[0]].bucket.status, if j >= 4 then run[at[4]].bucket.res else 0)
      else p == Failed
  {
    var st := run[at[0]].bucket.status;
    if j > 0 {
      GetOutcome(run, schedule, i, at, j - 1, k, h);
      WorkerNext(run, schedule, i, at, j - 1);
    }
    WorkerNext(run, schedule, i, at, j);
    var res := if j > 4 then run[at[4]].bucket.res else 0;
    assert GetAt(run[at[j]].pcs[i], j, k, h, st, res);
    GetStep(run[at[j]], i, schedule[at[j]].1, j, k, h, st, res);
  }

  /** A get that is not disturbed finds the entry that the bucket holds for its key and hash. */
  lemma UndisturbedGet(run: seq<State>, schedule: seq<(nat, Start)>, i: nat, at: seq<nat>, k: Key, h: nat, res: nat)
    requires IsRun(run, schedule) && StepsOf(schedule, i, at) && |at| == 6
    requires forall m :: 0 <= m < 6 ==> at[m] + 1 < |run| && run[at[m]].bucket == run[at[0]].bucket
    requires i < |run[at[0]].pcs| && run[at[0]].pcs[i] == GetStatus(k, h)
    requires var b := run[at[0]].bucket;
      !b.status.locked && !b.status.twoPart && b.status.hash == h && Contains(b, Entry(k, res))
    ensures i < |run[at[5] + 1].pcs|
    ensures var p := run[at[5] + 1].pcs[i]; p.Hit? && p.k == k && p.res == res
  {
    var buckets := Buckets(run, at);
    forall m | 0 <= m < 6 ensures TestPassed(buckets, m, k, h) { assert buckets[m] == run[at[0]].bucket; }
    GetOutcome(run, schedule, i, at, 5, k, h);
  }

  // ---------- cache_put ----------

  /**
   A put fails only when it finds the bucket locked, or when the status has changed before it claims the bucket.
   Otherwise it claims the bucket with its entry.
   */
  lemma PutOutcome(run: seq<State>, schedule: seq<(nat, Start)>, i: nat, at: seq<nat>, e: Entry, h: nat)
    requires IsRun(run, schedule) && StepsOf(schedule, i, at) && |at| == 2
    requires at[0] < |run| && i < |run[at[0]].pcs| && run[at[0]].pcs[i] == PutStatus(e, h)
    ensures at[0] + 1 < |run| && at[1] + 1 < |run| && i < |run[at[0] + 1].pcs| && i < |run[at[1] + 1].pcs|
    ensures var st, before, after := run[at[0]].bucket.status, run[at[1]], run[at[1] + 1];
      if st.locked then run[at[0] + 1].pcs[i] == Failed && run[at[0] + 1].claims == run[at[0]].claims
      else if before.bucket.status != st then after.pcs[i] == Failed && after.claims == before.claims
      else after.pcs[i] == PutA(e, NewStatus(h, st)) && after.claims == before.claims + [e]
  {
    WorkerNext(run, schedule, i, at, 0);
    WorkerNext(run, schedule, i, at, 1);
  }

  /** Where a put is that has claimed the bucket, before its j-th write. */
  predicate PutAt(p: Pc, j: nat, e: Entry, st: Status) {
    if j == 0 then p == PutA(e, st)
    else if j == 1 then p == PutB(e, st)
    else if j == 2 then p == PutC(e, st)
    else if j == 3 then p == PutRes(e, st)
    else if j == 4 then p == PutUnlock(e, st)
    else p == Idle
  }

  lemma PutStep(s: State, i: nat, start: Start, j: nat, e: Entry, st: Status)
    requires i < |s.pcs| && j < 5 && PutAt(s.pcs[i], j, e, st)
    ensures PutAt(Step(s, i, start).pcs[i], j + 1, e, st) && Step(s, i, start).claims == s.claims
    ensures j == 4 ==> Step(s, i, start).bucket == s.bucket.(status := st) && Step(s, i, start).done == s.done + 1
  {
  }

  lemma {:induction false} PutSteps(run: seq<State>, schedule: seq<(nat, Start)>, i: nat, at: seq<nat>, j: nat,
                                    e: Entry, st: Status)
    requires IsRun(run, schedule) && StepsOf(schedule, i, at) && j < |at| <= 5 && at[0] < |run|
    requires i < |run[at[0]].pcs| && run[at[0]].pcs[i] == PutA(e, st)
    ensures at[j] + 1 < |run| && i < |run[at[j]].pcs| && PutAt(run[at[j]].pcs[i], j, e, st)
    ensures run[at[j] + 1] == Step(run[at[j]], i, schedule[at[j]].1)
  {
    if j > 0 {
      PutSteps(run, schedule, i, at, j - 1, e, st);
      WorkerNext(run, schedule, i, at, j - 1);
      PutStep(run[at[j - 1]], i, schedule[at[j - 1]].1, j - 1, e, st);
    }
    WorkerNext(run, schedule, i, at, j);
  }

  /** A put that has claimed the bucket completes in five steps, and leaves exactly its entry behind, unlocked. */
  lemma PutCompletes(run: seq<State>, schedule: seq<(nat, Start)>, i: nat, at: seq<nat>, e: Entry, st: Status)
    requires IsRun(run, schedule) && StepsOf(schedule, i, at) && |at| == 5 && at[0] < |run|
    requires i < |run[at[0]].pcs| && run[at[0]].pcs[i] == PutA(e, st)
    ensures at[4] + 1 < |run| && i < |run[at[4] + 1].pcs| && run[at[4] + 1].pcs[i] == Idle
    ensures var s := run[at[4] + 1];
      && s.bucket == Bucket(st, e.key.a, e.key.b, e.key.c, e.res) && !st.locked
      && s.done == |s.claims| > 0 && s.claims[|s.claims| - 1] == e
  {
    PutSteps(run, schedule, i, at, 4, e, st);
    RunKeeps(run, schedule, at[4]);
    assert WorkerOk(run[at[4]], i);
    PutStep(run[at[4]], i, schedule[at[4]].1, 4, e, st);
  }

  // ---------- What is stored is found ----------

  /** As long as nobody claims it, an unlocked bucket stays as it is. */
  lemma {:induction false} BucketStays(run: seq<State>, schedule: seq<(nat, Start)>, n: nat, m: nat)
    requires IsRun(run, schedule) && n <= m < |run|
    requires !run[n].bucket.status.locked && |run[m].claims| == |run[n].claims|
    ensures run[m].bucket == run[n].bucket
    decreases m - n
  {
    if n < m {
      RunKeeps(run, schedule, n);
      var i := schedule[n].0;
      assert run[n + 1] == Step(run[n], i, schedule[n].1);
      StepKeeps(run[n], i, schedule[n].1);
      ClaimsGrow(run, schedule, n + 1, m);
      assert Reads(run[n], i);
      BucketStays(run, schedule, n + 1, m);
    }
  }

  lemma {:induction false} ClaimsGrow(run: seq<State>, schedule: seq<(nat, Start)>, n: nat, m: nat)
    requires IsRun(run, schedule) && n <= m < |run|
    ensures |run[n].claims| <= |run[m].claims|
    decreases m - n
  {
    if n < m {
      RunKeeps(run, schedule, n);
      assert run[n + 1] == Step(run[n], schedule[n].0, schedule[n].1);
      StepKeeps(run[n], schedule[n].0, schedule[n].1);
      ClaimsGrow(run, schedule, n + 1, m);
    }
  }

  /**
   What a put has stored is found by every later get for the same key and hash, of any worker, if no other put has
   claimed the bucket in between.
   */
  lemma StoredIsFound(run: seq<State>, schedule: seq<(nat, Start)>, i: nat, put: seq<nat>, e: Entry, h: nat, st: Status,
                      d: nat, get: seq<nat>)
    requires IsRun(run, schedule)
    requires StepsOf(schedule, i, put) && |put| == 5 && put[0] < |run| && i < |run[put[0]].pcs|
    requires run[put[0]].pcs[i] == PutA(e, NewStatus(h, st))
    requires StepsOf(schedule, d, get) && |get| == 6 && put[4] < get[0] && get[5] < |run|
    requires d < |run[get[0]].pcs| && run[get[0]].pcs[d] == GetStatus(e.key, h)
    requires put[4] + 1 < |run| && |run[get[5]].claims| == |run[put[4] + 1].claims|
    ensures get[5] + 1 < |run| && d < |run[get[5] + 1].pcs|
    ensures var p := run[get[5] + 1].pcs[d]; p.Hit? && p.k == e.key && p.res == e.res
  {
    PutCompletes(run, schedule, i, put, e, NewStatus(h, st));
    InRun(run, schedule, d, get);
    forall m | 0 <= m < 6 ensures get[m] + 1 < |run| && run[get[m]].bucket == run[put[4] + 1].bucket {
      Increasing(schedule, d, get, 0, m);
      Increasing(schedule, d, get, m, 5);
      ClaimsGrow(run, schedule, put[4] + 1, get[m]);
      ClaimsGrow(run, schedule, get[m], get[5]);
      BucketStays(run, schedule, put[4] + 1, get[m]);
    }
    UndisturbedGet(run, schedule, d, get, e.key, h, e.res);
  }

  lemma {:induction false} Increasing(schedule: seq<(nat, Start)>, i: nat, at: seq<nat>, j: nat, m: nat)
    requires StepsOf(schedule, i, at) && j <= m < |at|
    ensures at[j] <= at[m]
    decreases m - j
  {
    if j < m {
      Increasing(schedule, i, at, j, m - 1);
    }
  }
}
