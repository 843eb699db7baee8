/** One bucket of the lock-free operation cache of sylvan_cache.c. */
module OpCache {
  /*
   Any number of workers are in cache_get and cache_put. A step is one access to shared memory. The history fields are
   `claims`, the entries of all puts that have taken the bucket, and `done`, how many of them have released it.

   The status word is modelled by its fields: the lock bit, the bit of two-part entries, 14 bits of the hash, and a
   version of 16 bits that every put increases. The hash of an operation may be anything.
   */

  const VERSIONS: nat := 0x1_0000

  datatype Status = Status(locked: bool, twoPart: bool, hash: nat, version: nat)

  datatype Key = Key(a: nat, b: nat, c: nat)

  datatype Entry = Entry(key: Key, res: nat)

  /** The contents of a bucket that has never been written. */
  const ZERO: Entry := Entry(Key(0, 0, 0), 0)

  /**
   Where a worker is. A reader keeps the status `s` it has read, and as history the number `n` of claims at that
   time; a hit also records the number `m` of claims at the second read of the status.
   */
  datatype Pc =
    | Idle
    | GetStatus(k: Key, h: nat)
    | GetA(k: Key, s: Status, n: nat)
    | GetB(k: Key, s: Status, n: nat)
    | GetC(k: Key, s: Status, n: nat)
    | GetRes(k: Key, s: Status, n: nat)
    | GetCheck(k: Key, s: Status, n: nat, res: nat)
    | Hit(k: Key, res: nat, n: nat, m: nat)
    | Failed
    | PutStatus(e: Entry, h: nat)
    | PutClaim(e: Entry, h: nat, s: Status)
    | PutA(e: Entry, s: Status)
    | PutB(e: Entry, s: Status)
    | PutC(e: Entry, s: Status)
    | PutRes(e: Entry, s: Status)
    | PutUnlock(e: Entry, s: Status)

  datatype Bucket = Bucket(status: Status, a: nat, b: nat, c: nat, res: nat)

  datatype State = State(bucket: Bucket, pcs: seq<Pc>, claims: seq<Entry>, done: nat)

  /** What a worker does when it is not in an operation. */
  datatype Start = StartGet(k: Key, h: nat) | StartPut(e: Entry, h: nat)

  predicate Initial(s: State) {
    && s.bucket == Bucket(Status(false, false, 0, 0), 0, 0, 0, 0)
    && s.claims == [] && s.done == 0
    && forall i :: 0 <= i < |s.pcs| ==> s.pcs[i] == Idle
  }

  function NewStatus(h: nat, s: Status): Status {
    Status(false, false, h, (s.version + 1) % VERSIONS)
  }

  function SetPc(s: State, i: nat, p: Pc): State
    requires i < |s.pcs|
  {
    s.(pcs := s.pcs[i := p])
  }

  /** The next step of worker `i`; `start` matters only when it is not in an operation. */
  function Step(s: State, i: nat, start: Start): State
    requires i < |s.pcs|
  {
    var b := s.bucket;
    match s.pcs[i]
    case Idle =>
      SetPc(s, i, match start case StartGet(k, h) => GetStatus(k, h) case StartPut(e, h) => PutStatus(e, h))
    case GetStatus(k, h) =>
      if b.status.locked || b.status.twoPart || b.status.hash != h then SetPc(s, i, Failed)
      else SetPc(s, i, GetA(k, b.status, |s.claims|))
    case GetA(k, st, n) => SetPc(s, i, if b.a != k.a then Failed else GetB(k, st, n))
    case GetB(k, st, n) => SetPc(s, i, if b.b != k.b then Failed else GetC(k, st, n))
    case GetC(k, st, n) => SetPc(s, i, if b.c != k.c then Failed else GetRes(k, st, n))
    case GetRes(k, st, n) => SetPc(s, i, GetCheck(k, st, n, b.res))
    case GetCheck(k, st, n, res) => SetPc(s, i, if b.status == st then Hit(k, res, n, |s.claims|) else Failed)
    case Hit(_, _, _, _) => SetPc(s, i, Idle)
    case Failed => SetPc(s, i, Idle)
    case PutStatus(e, h) => SetPc(s, i, if b.status.locked then Failed else PutClaim(e, h, b.status))
    case PutClaim(e, h, st) =>
      // compare-and-swap of the status word
      if b.status != st then SetPc(s, i, Failed)
      else SetPc(s.(bucket := b.(status := NewStatus(h, st).(locked := true)), claims := s.claims + [e]), i,
                 PutA(e, NewStatus(h, st)))
    case PutA(e, st) => SetPc(s.(bucket := b.(a := e.key.a)), i, PutB(e, st))
    case PutB(e, st) => SetPc(s.(bucket := b.(b := e.key.b)), i, PutC(e, st))
    case PutC(e, st) => SetPc(s.(bucket := b.(c := e.key.c)), i, PutRes(e, st))
    case PutRes(e, st) => SetPc(s.(bucket := b.(res := e.res)), i, PutUnlock(e, st))
    case PutUnlock(_, st) => SetPc(s.(bucket := b.(status := st), done := s.done + 1), i, Idle)
  }

  // ---------- The invariant ----------

  predicate Holds(p: Pc) { p.PutA? || p.PutB? || p.PutC? || p.PutRes? || p.PutUnlock? }

  /** The entry that the first `n` claims leave behind. */
  function Latest(claims: seq<Entry>, n: nat): Entry
    requires n <= |claims|
  {
    if n == 0 then ZERO else claims[n - 1]
  }

  predicate Contains(b: Bucket, e: Entry) {
    b.a == e.key.a && b.b == e.key.b && b.c == e.key.c && b.res == e.res
  }

  /** What a reader has seen is the latest entry as long as nobody has claimed the bucket since. */
  predicate ReaderOk(s: State, k: Key, st: Status, n: nat) {
    && n <= s.done <= |s.claims| && !st.locked && st.version == n % VERSIONS
    && (n == |s.claims| ==> s.bucket.status == st)
  }

  predicate WriterOk(s: State, e: Entry, st: Status) {
    && s.bucket.status == st.(locked := true) && !st.locked
    && s.claims != [] && s.claims[|s.claims| - 1] == e
  }

  predicate WorkerOk(s: State, i: nat)
    requires i < |s.pcs|
  {
    var b := s.bucket;
    match s.pcs[i]
    case GetA(k, st, n) => ReaderOk(s, k, st, n)
    case GetB(k, st, n) => ReaderOk(s, k, st, n) && (n == |s.claims| ==> Latest(s.claims, n).key.a == k.a)
    case GetC(k, st, n) =>
      && ReaderOk(s, k, st, n)
      && (n == |s.claims| ==> Latest(s.claims, n).key.a == k.a && Latest(s.claims, n).key.b == k.b)
    case GetRes(k, st, n) => ReaderOk(s, k, st, n) && (n == |s.claims| ==> Latest(s.claims, n).key == k)
    case GetCheck(k, st, n, res) => ReaderOk(s, k, st, n) && (n == |s.claims| ==> Latest(s.claims, n) == Entry(k, res))
    case Hit(k, res, n, m) =>
      n <= s.done <= |s.claims| && n <= m && (m < n + VERSIONS ==> Latest(s.claims, n) == Entry(k, res))
    case PutClaim(_, _, st) => !st.locked
    case PutA(e, st) => WriterOk(s, e, st)
    case PutB(e, st) => WriterOk(s, e, st) && b.a == e.key.a
    case PutC(e, st) => WriterOk(s, e, st) && b.a == e.key.a && b.b == e.key.b
    case PutRes(e, st) => WriterOk(s, e, st) && b.a == e.key.a && b.b == e.key.b && b.c == e.key.c
    case PutUnlock(e, st) => WriterOk(s, e, st) && Contains(b, e)
    case _ => true
  }

  predicate Inv(s: State) {
    && s.bucket.status.version == |s.claims| % VERSIONS
    && (s.bucket.status.locked <==> exists i :: 0 <= i < |s.pcs| && Holds(s.pcs[i]))
    && (forall i, j :: 0 <= i < |s.pcs| && 0 <= j < |s.pcs| && Holds(s.pcs[i]) && Holds(s.pcs[j]) ==> i == j)
    && s.done + (if s.bucket.status.locked then 1 else 0) == |s.claims|
    && (!s.bucket.status.locked ==> Contains(s.bucket, Latest(s.claims, |s.claims|)))
    && forall i :: 0 <= i < |s.pcs| ==> WorkerOk(s, i)
  }

  lemma InitialInv(s: State)
    requires Initial(s)
    ensures Inv(s)
  {
  }

  /** Steps that write nothing. */
  predicate Reads(s: State, i: nat)
    requires i < |s.pcs|
  {
    !Holds(s.pcs[i]) && (s.pcs[i].PutClaim? ==> s.bucket.status != s.pcs[i].s)
  }

  lemma ReaderStep(s: State, i: nat, start: Start)
    requires Inv(s) && i < |s.pcs| && Reads(s, i)
    ensures WorkerOk(Step(s, i, start), i) && !Holds(Step(s, i, start).pcs[i])
  {
    assert WorkerOk(s, i);
  }

  lemma ReadKeeps(s: State, i: nat, start: Start)
    requires Inv(s) && i < |s.pcs| && Reads(s, i)
    ensures Inv(Step(s, i, start))
  {
    var s' := Step(s, i, start);
    ReaderStep(s, i, start);
    OnlyPc(s, s', i);
  }

  lemma OnlyPc(s: State, s': State, i: nat)
    requires Inv(s) && i < |s.pcs| && !Holds(s.pcs[i])
    requires s' == s.(pcs := s'.pcs) && |s'.pcs| == |s.pcs| && WorkerOk(s', i) && !Holds(s'.pcs[i])
    requires forall j :: 0 <= j < |s.pcs| && j != i ==> s'.pcs[j] == s.pcs[j]
    ensures Inv(s')
  {
    forall j | 0 <= j < |s.pcs| ensures WorkerOk(s', j) && Holds(s'.pcs[j]) == Holds(s.pcs[j]) {
      assert WorkerOk(s, j);
    }
    if s.bucket.status.locked {
      var j :| 0 <= j < |s.pcs| && Holds(s.pcs[j]);
      assert Holds(s'.pcs[j]);
    }
  }

  lemma ClaimKeeps(s: State, i: nat, start: Start)
    requires Inv(s) && i < |s.pcs| && s.pcs[i].PutClaim? && s.bucket.status == s.pcs[i].s
    ensures Inv(Step(s, i, start))
  {
    var s' := Step(s, i, start);
    assert WorkerOk(s, i);
    forall j | 0 <= j < |s'.pcs| ensures WorkerOk(s', j) { assert WorkerOk(s, j); }
    assert Holds(s'.pcs[i]);
    assert forall j :: 0 <= j < |s.pcs| && j != i ==> s'.pcs[j] == s.pcs[j];
  }

  lemma WriteKeeps(s: State, i: nat, start: Start)
    requires Inv(s) && i < |s.pcs| && Holds(s.pcs[i])
    ensures Inv(Step(s, i, start))
  {
    var s' := Step(s, i, start);
    assert WorkerOk(s, i);
    forall j | 0 <= j < |s'.pcs| && j != i ensures WorkerOk(s', j) && !Holds(s'.pcs[j]) { assert WorkerOk(s, j); }
    assert Holds(s'.pcs[i]) <==> s'.bucket.status.locked;
  }

  lemma StepKeeps(s: State, i: nat, start: Start)
    requires Inv(s) && i < |s.pcs|
    ensures Inv(Step(s, i, start))
    ensures s.claims <= Step(s, i, start).claims && s.done <= Step(s, i, start).done
  {
    if Reads(s, i) {
      ReadKeeps(s, i, start);
    } else if Holds(s.pcs[i]) {
      WriteKeeps(s, i, start);
    } else {
      ClaimKeeps(s, i, start);
    }
  }

  // ---------- Runs ----------

  predicate IsRun(run: seq<State>, schedule: seq<(nat, Start)>) {
    && |run| == |schedule| + 1
    && Initial(run[0])
    && forall n :: 0 <= n < |schedule| ==>
         schedule[n].0 < |run[n].pcs| && run[n + 1] == Step(run[n], schedule[n].0, schedule[n].1)
  }

  lemma {:induction false} RunKeeps(run: seq<State>, schedule: seq<(nat, Start)>, n: nat)
    requires IsRun(run, schedule) && n < |run|
    ensures Inv(run[n])
  {
    if n == 0 {
      InitialInv(run[0]);
    } else {
      RunKeeps(run, schedule, n - 1);
      StepKeeps(run[n - 1], schedule[n - 1].0, schedule[n - 1].1);
    }
  }

  /**
   A hit for a key that is not zero returns what a completed put stored for exactly that key, when fewer than
   2^16 puts have taken the bucket between the two reads of the status.
   */
  lemma HitIsStored(run: seq<State>, schedule: seq<(nat, Start)>, n: nat, i: nat)
    requires IsRun(run, schedule) && n < |run| && i < |run[n].pcs|
    requires run[n].pcs[i].Hit? && run[n].pcs[i].k != ZERO.key && run[n].pcs[i].m < run[n].pcs[i].n + VERSIONS
    ensures run[n].done <= |run[n].claims|
    ensures Entry(run[n].pcs[i].k, run[n].pcs[i].res) in run[n].claims[..run[n].done]
  {
    RunKeeps(run, schedule, n);
    assert WorkerOk(run[n], i);
    var r := run[n].pcs[i].n;
    assert r > 0 && run[n].claims[..run[n].done][r - 1] == run[n].claims[r - 1];
  }

  /** At most one worker writes to the bucket, and only under the lock. */
  lemma OneWriter(run: seq<State>, schedule: seq<(nat, Start)>, n: nat, i: nat, j: nat)
    requires IsRun(run, schedule) && n < |run| && i < |run[n].pcs| && j < |run[n].pcs|
    requires Holds(run[n].pcs[i])
    ensures run[n].bucket.status.locked && (Holds(run[n].pcs[j]) ==> i == j)
    ensures run[n].done + 1 == |run[n].claims|
  {
    RunKeeps(run, schedule, n);
  }

  /** A bucket that is not locked holds one whole entry, the last one that was put. */
  lemma UnlockedIsWhole(run: seq<State>, schedule: seq<(nat, Start)>, n: nat)
    requires IsRun(run, schedule) && n < |run| && !run[n].bucket.status.locked
    ensures run[n].done == |run[n].claims|
    ensures Contains(run[n].bucket, if run[n].claims == [] then ZERO else run[n].claims[|run[n].claims| - 1])
  {
    RunKeeps(run, schedule, n);
  }
}
