# Verified models of the taint-tag containers and the libraries below them

This Dafny project models the containers that hold taint tags and the machinery under them, and proves what they
promise:

- **Lace** (`LaceDeque.dfy`, `LaceProgress.dfy`, `LaceHead.dfy`, `LaceBarrier.dfy`): the split work-stealing deque of
  one owner and any number of thieves, and the sense-reversing barrier, as transition systems with one access to shared
  memory per step. The properties hold in every state of every run, and say what each operation achieves however the
  steps of the others fall in between.
- **Sylvan** (`Bdd.dfy`, `BddCache.dfy`, `BddOps.dfy`, `BddQuant.dfy` with `NearestPoint.dfy`, `BddRel.dfy` with the
  relational algebra in `Relations.dfy`, `BlockElimination.dfy` and `LiveStates.dfy`): binary decision diagrams with
  complement edges, their Boolean operations, quantification, generalised cofactors, relational composition and
  transitive closure. `OpCache.dfy` and `OpCacheProgress.dfy` are the lock-free bucket of the operation cache,
  `Serialize.dfy` the numbering and loading of diagrams, `Avl.dfy`, `AvlHeap.dfy` and `AvlIter.dfy` the search tree,
  `CwHash.dfy` the arithmetic modulo 2^89-1 and `Sha256.dfy` the streaming SHA-256, with the standard and its tables in
  `Sha256Standard.dfy`, `Sha256Constants.dfy`, `Sha256Example.dfy` and `Sha256Digest.dfy`. `Common.dfy` holds what
  several modules use.
- **EWAH** (`EwahWord.dfy`, `EwahFormat.dfy`, `Ewah.dfy`, `EwahOps.dfy`, `EwahReaders.dfy`, `EwahIterators.dfy`): the
  compressed bitmap as a refinement of a plain sequence of words.
- **Tags** (`BddTag.dfy`, `SsaLabels.dfy`, `SsaTags.dfy`): the label tree, and the reference-counted tags with their
  free ring, collection and combine cache. Both are specified by plain sets of offsets.

What a reader should know about the model:

- A diagram node is modelled by its contents, which is what the unique table guarantees. Handle equality is then
  equality of values. The operation cache is a map that other workers may replace at any access by any sound contents.
  Spawned subtasks are computed at the place of their SYNC; the deque guarantees that each runs exactly once.
- The four conjunctions of Sylvan differ in garbage collection and in the order in which they compute the results for
  the cofactors: those that spawn sync the high one last, the others call for it first. `BddOps.And` stands for all of
  them and takes either order.
- `sylvan_closure` is documented to compute the transitive closure of any relation over interleaved levels. The code
  computes the paths between live states (`Relations.Live`), which is the closure only when every state with a step
  lies on a cycle whose other states come later in the order of the levels (a self-loop is enough).
  `BddRel.ClosureDetermined` states what the result is on every input, `BddRel.ClosureMeaning` when it is the closure,
  and `BddRel.ClosureLosesSteps` gives an input for which the documented claim fails. Which states are live depends on
  the levels that the remaining relation still depends on, and not on the order of the states alone:
  `LiveStates.LaterLiveCycleIsNotEnough` has a state on a cycle through a later live state that is not live itself.
- `sylvan_constrain` and `sylvan_restrict` return false for a care function that is false, whatever the operand.
- `padWithZeroes` can leave one word too many; `Ewah.EwahBoolArray.PadWithZeroes` states exactly when. `set` then puts
  its bit into the wrong word: `Ewah.EwahBoolArray.Set` states for every bitmap which bit is added and exactly when it
  is the right one, and `Ewah.SetAfterPadding` builds a bitmap on which setting bit 10 sets bit 42 and setting bit 11
  then sets bit 43.
- Loading a file does not advance the counter of `sylvan_serialize_add`, and a number that is taken is not overwritten.
  `Serialize.Serializer.Add` states exactly when added handles read back, and `Serialize.AddAfterLoading` builds a case
  in which another handle is read. It holds when nothing is new or the next number is free; for the returned number
  alone it is enough that the last number given is free. Loading into tables that hold other handles under the numbers
  of the file fails in the same way: `Serialize.Serializer.FromFile` states exactly when all nodes of the file are
  found, and `Serialize.LoadAfterAdding` builds a case in which one is not.
- `find` and `combine` of the label tree start from the position MAX_LB downwards, so positions from MAX_LB on are
  inserted but never listed; `BddTag.BDDTag.Find` states exactly when all positions of a label are listed, and
  `BddTag.InsertPastLimit` inserts one that is not.
- The multiplication of `CWhash` is exact for limbs of 32 bits. The coefficients in the source have limbs of 64 bits;
  `CwHash.LimbOverflows` gives such operands for which a product overflows.
- The three EWAH operations are one method with the operation as a parameter; the branches in which the three
  functions of the source differ are the branches of `EwahOps.RunPhase` and `EwahOps.LiteralsAgainstRun`.
- `ssa_tag_alloc` keeps only the lowest 24 bits of an offset; `SsaTags.SsaHeap.Alloc` says so.
- In `BddTag.dfy` a division by zero that ends the program when labels run out is an `Option` result.
- The objects of `ssa_tag_gc.h` live in explicit memory: tags are addresses, so that assignments of a tag to itself
  and tags pointing to the same object are covered.
- Ghost fields (`ones`, `order`, `message`, the ghost tree of the search tree, the history of the transition systems)
  never influence what a method computes.

`dafny verify dfyconfig.toml` checks the whole project.

## Model

| member | source | states |
|---|---|---|
| LaceDeque.RunKeeps | sylvan/src/lace.h:557-829 | in every interleaving of the owner and any number of thieves: slots below the tail are stolen, those up to the split shared, those up to the head private, allstolen means everything below the head is stolen, and each stolen slot is completed or has the one thief that won it at work on it |
| LaceDeque.StepKeeps | sylvan/src/lace.h:557-829 | every single step of the owner or of a thief keeps that invariant, through both directions of moving the split and through nested leapfrogging |
| LaceDeque.GuardedStepsAreInRange | sylvan/src/lace.h:557-829 | no step that the program can take touches a slot or a task that does not exist |
| LaceDeque.RunsOnce | sylvan/src/lace.h:784-829 | in every run every task runs at most once, and a SYNC returns the result of the only run of its task, whether it was run inline or by a thief |
| LaceDeque.AllDone | sylvan/src/lace.h:710-829 | when the deque is empty again every spawned task has run exactly once and has been synced |
| LaceDeque.OneRunner | sylvan/src/lace.h:557-595 | no task is ever run by two threads, and no two thieves work on one slot |
| LaceDeque.StolenSyncWaits | sylvan/src/lace.h:628-672 | a SYNC of a stolen task ends only after its thief has marked it completed, with the result the thief stored |
| LaceDeque.WaitIsNotLost | sylvan/src/lace.h:628-672 | while the owner waits for a stolen task that is not completed, some thief is at work on it |
| LaceDeque.PostLeapMeets | sylvan/src/lace.h:598-672 | after leapfrogging inside of which the deque was used again, tail, split and head coincide, so setting allstolen is right |
| LaceDeque.SyncStepKeeps | sylvan/src/lace.h:784-829 | SYNC with its shrink, grow, inline and leapfrog paths keeps the invariant |
| LaceDeque.StealStepKeeps | sylvan/src/lace.h:557-595 | each step of a steal keeps the invariant: the reads, the compare-and-swap of the packed word whether it succeeds or not, and the marking of the slot |
| LaceProgress.StealOutcome | sylvan/src/lace.h:557-595 | in every interleaving: an attempt that does not find everything declared stolen wins the slot at the tail, and raises the tail by one, if and only if the tail it has read is below the split and both are unchanged when it swaps them; otherwise it leaves without a slot, and asks the owner to share exactly when it has read that nothing is shared |
| LaceProgress.StealRefused | sylvan/src/lace.h:557-595 | an attempt ends at once exactly when it reads that everything was declared stolen |
| LaceProgress.StealCompletes | sylvan/src/lace.h:572-579 | a thief that has won a slot marks it, runs the task in it, stores the result of that run and marks the slot completed with its next four steps |
| LaceProgress.OperationEnds | sylvan/src/lace.h:598-829 | no operation of the owner takes more than ten of its own steps, unless it spins |
| LaceProgress.SpinsForOneStep | sylvan/src/lace.h:628-640 | it spins only while the thief that has won the slot has not taken its next step |
| LaceProgress.LeapsFromHolder | sylvan/src/lace.h:632-639 | the owner goes on to leapfrog only when the slot names the thief that is at work on it |
| LaceProgress.SpawnWrites | sylvan/src/lace.h:710-725 | SPAWN puts a new task into the slot at the head |
| LaceProgress.SpawnPrivate | sylvan/src/lace.h:726-747 | when nobody has asked for work the task stays private |
| LaceProgress.SpawnShares | sylvan/src/lace.h:738-747 | when a thief has asked, half of the private tasks, rounded up, are shared, and the request is taken back |
| LaceProgress.SpawnReopens | sylvan/src/lace.h:728-737 | when everything was declared stolen, the new task becomes the only shared one, and the declaration is taken back |
| LaceProgress.SyncPrivate | sylvan/src/lace.h:812-829 | a SYNC of a private task starts its inline run with its second step when nobody has asked for work |
| LaceProgress.SyncShares | sylvan/src/lace.h:784-810 | when a thief has asked, half of the other private tasks, rounded up, are shared first, and the request is taken back |
| LaceProgress.ShrinkTakesBack | sylvan/src/lace.h:598-626 | of the shared tasks half, rounded up, are taken back; when thieves were faster, half of the rest; when they have taken all, everything is declared stolen |
| LaceProgress.SyncCompleted | sylvan/src/lace.h:628-672 | when everything was declared stolen, a SYNC of a completed slot returns the stored result with its fourth step |
| LaceProgress.SyncLeaps | sylvan/src/lace.h:628-656 | while the thief is at work, the owner goes on to leapfrog with the slot still in place |
| LaceProgress.LeapReturns | sylvan/src/lace.h:656-672 | a completed slot that the owner leapfrogs for is synced within three steps, and everything is declared stolen |
| LaceHead.HeadIsFirstEmpty | sylvan/src/lace.h:710-829 | whenever the owner is between operations, the empty slots are exactly those from the head on |
| LaceHead.GetHead | sylvan/src/lace.cpp:115-151 | the search finds that first empty slot, or the end of a full deque |
| LaceBarrier.RunKeeps | sylvan/src/lace.cpp:180-193 | count, leaving and sense stay consistent in every run, with the count reused between rounds |
| LaceBarrier.NobodyLeavesEarly | sylvan/src/lace.cpp:180-193 | no worker leaves its k-th barrier before all workers have entered their k-th |
| LaceBarrier.RoundsDoNotMix | sylvan/src/lace.cpp:180-193 | workers are never more than one barrier apart, however soon one enters again while others still spin |
| LaceBarrier.NobodyWaitsInVain | sylvan/src/lace.cpp:180-193 | a worker that spins waits for a worker that has still to enter or for the last one about to flip the sense; after the flip its round is complete |
| LaceBarrier.WaiterLeaves | sylvan/src/lace.cpp:180-193 | a worker that waits leaves with its first step after the flip, and not before; the sense does not flip back in between |
| LaceBarrier.LastFlips | sylvan/src/lace.cpp:180-193 | a worker enters with its second step, is the last one exactly when that completes the count, and then flips the sense with its next three |
| LaceBarrier.AllOut | sylvan/src/lace.cpp:180-193 | when all are out, count and leaving are 0 and all have passed the same number of barriers |
| Bdd.Canonicity | sylvan/src/sylvan_mtbdd_int.h:77-79 | ordered, reduced diagrams whose only marks are on high edges are equal exactly when they denote the same Boolean function |
| Bdd.MakeNode | sylvan/src/sylvan_mtbdd.c:487-530 | the node constructor keeps diagrams ordered, reduced and free of marks on low edges |
| Bdd.MakeNodeEval | sylvan/src/sylvan_mtbdd.c:487-530 | what it makes denotes the choice between its children by the variable |
| Bdd.SupportIsDependence | sylvan/src/sylvan_mtbdd.h:170-178 | in a canonical diagram the variables that occur are exactly those its function depends on |
| Bdd.CofactorEval | sylvan/src/sylvan_mtbdd_int.h:163-173 | following low and high edges with mark transfer is Shannon expansion |
| BddCache.Cache.Get | sylvan/src/sylvan_cache.c:178-201 | a hit returns a result that the operation may return for that key, whatever other workers do to the table in between |
| BddCache.Cache.Put | sylvan/src/sylvan_cache.c:203-232 | a put may be dropped and keeps the table sound |
| BddOps.And | sylvan/src/sylvan_bdd.c:43-420 | the canonical diagram of the conjunction, for any sound cache contents and any granularity, in all four variants |
| BddOps.AndShortcut | sylvan/src/sylvan_bdd.c:95-117 | the tests of a pair of cofactors for constants give their conjunction, and leave only pairs without constants to a recursive call |
| BddOps.AndStep | sylvan/src/sylvan_bdd.c:43-140 | recombining the conjunctions of the cofactors gives the conjunction |
| BddOps.Xor | sylvan/src/sylvan_bdd.c:518-590 | the canonical diagram of the exclusive or |
| BddOps.XorStep | sylvan/src/sylvan_bdd.c:518-590 | recombining the exclusive ors of the cofactors gives the exclusive or |
| BddOps.Ite | sylvan/src/sylvan_bdd.c:593-728 | the canonical diagram of if-then-else, through all terminal cases and normalisations |
| BddOps.IteStep | sylvan/src/sylvan_bdd.c:593-728 | recombining the cofactors gives the if-then-else |
| BddOps.Or | sylvan/src/sylvan_bdd.h:76 | the canonical diagram of the disjunction |
| BddQuant.Exists | sylvan/src/sylvan_bdd.c:910-991 | true exactly where some assignment to the quantified variables satisfies the operand |
| BddQuant.AndExists | sylvan/src/sylvan_bdd.c:1086-1206 | true exactly where some assignment to the quantified variables satisfies both operands, including the shortcuts on low == aHigh and low == not(aHigh) |
| BddQuant.AndExistsCovered | sylvan/src/sylvan_bdd.c:1086-1206 | the first shortcut is right: a low result equal to a high cofactor already covers the high side |
| BddQuant.AndExistsComplement | sylvan/src/sylvan_bdd.c:1086-1206 | the second shortcut is right: with the complement, only the quantified other operand remains |
| BddQuant.Constrain | sylvan/src/sylvan_bdd.c:734-822 | the value of f at the assignment that satisfies c and is nearest to the given one, level by level from the top; false when c is false |
| BddQuant.ConstrainMeaning | sylvan/src/sylvan_bdd.c:734-822 | at every nearest assignment; this determines the handle, and it agrees with f wherever c holds |
| BddQuant.Restrict | sylvan/src/sylvan_bdd.c:827-905 | the same as far as the levels go that f tests on the way, with a support contained in that of f; levels of c above them are quantified |
| BddQuant.RestrictMeaning | sylvan/src/sylvan_bdd.c:827-905 | at every such assignment; this determines the handle, and it agrees with f wherever c holds |
| BddQuant.ConstrainStep | sylvan/src/sylvan_bdd.c:734-822 | recombining constrained cofactors keeps the value at the nearest assignment |
| BddQuant.RestrictStep | sylvan/src/sylvan_bdd.c:827-905 | recombining restricted cofactors keeps the value and the support bound |
| NearestPoint.NearestStep | sylvan/src/sylvan_bdd.c:785-810 | the nearest assignment is found level by level: the bit is kept unless the cofactor of c for it is false |
| NearestPoint.SelfNearest | sylvan/src/sylvan_bdd.c:734-742 | every care function but false has a nearest assignment, at which it holds |
| NearestPoint.NearestUnique | sylvan/src/sylvan_bdd.c:730-733 | there is only one |
| BddRel.RelPrev | sylvan/src/sylvan_bdd.c:1517-1785 | exactly the relational composition of its operands, for all diagrams over paired levels, with skipped levels and last-in-first-out syncs |
| BddRel.RelPrevStep | sylvan/src/sylvan_bdd.c:1517-1785 | the eight compositions of the cofactors, joined in pairs, make up the composition |
| BddRel.Closure | sylvan/src/sylvan_bdd.c:1793-1892 | exactly the paths of one or more steps between live states, for every operand |
| BddRel.ClosureDetermined | sylvan/src/sylvan_bdd.c:1793-1892 | no other handle is a closure of the operand; it consists of these paths, and keeps every step of a state to itself |
| BddRel.ClosureStep | sylvan/src/sylvan_bdd.c:1793-1892 | one level of the block elimination on the diagrams of the four cofactors |
| BddRel.ClosureMeaning | sylvan/src/sylvan_bdd.c:1793-1892 | on every input: the result is the transitive closure if and only if every state with a step of the operand lies on a cycle of the operand whose other states come after it; it is the reflexive-transitive closure if and only if every state does; it is never more than the transitive closure |
| BddRel.ClosureOfReflexive | sylvan/src/sylvan_bdd.c:1793-1892 | on a reflexive relation the result is the reflexive-transitive closure |
| BddRel.ClosureLosesSteps | sylvan/src/sylvan_bdd.h:146-157 | the documented transitive closure fails without loops: for one concrete relation with a single kind of step the result is empty |
| LiveStates.ClosedIsClosure | sylvan/src/sylvan_bdd.c:1793-1892 | the relation of these paths is transitive, absorbs the operand, relates exactly the live states to themselves, and lies in every transitive relation above the steps between live states; live states lie on cycles through later states; no step is lost when all states with a step lie on such cycles |
| LiveStates.EliminationExact | sylvan/src/sylvan_bdd.c:1793-1892 | one level of block elimination puts exactly this relation together from those of the two parts |
| LiveStates.LaterLiveCycleIsNotEnough | sylvan/src/sylvan_bdd.c:1811-1850 | a relation with a state that lies on a cycle through a later live state and is not live, because a level is passed over on which only another part depends |
| BlockElimination.EliminationCorrect | sylvan/src/sylvan_bdd.c:1793-1892 | block elimination on the four quarters of any relation computes the closure of the whole from the closures of two parts |
| BlockElimination.EliminationLeast | sylvan/src/sylvan_bdd.c:1793-1892 | every pair in the result is in every transitive relation above the steps of the operand between states that the result relates to themselves |
| BlockElimination.EliminationLive | sylvan/src/sylvan_bdd.c:1793-1892 | a loop in the result comes from a cycle of the operand through later states |
| BlockElimination.EliminationLoops | sylvan/src/sylvan_bdd.c:1793-1892 | steps of a state to itself are kept |
| BlockElimination.EliminationCovered | sylvan/src/sylvan_bdd.c:1793-1892 | when every state with a step lies on such a cycle no step is lost |
| BlockElimination.ClosureExact | sylvan/src/sylvan_bdd.c:1793-1892 | the exact conditions on the given relation under which the computed one is its transitive or its reflexive-transitive closure, in both directions |
| EwahWord.MarkerFields | ewah_0.4.0/runninglengthword.h:20-148 | the three fields of a marker do not overlap and make up the word |
| EwahWord.BitOfWordOp | ewah_0.4.0/ewah.h:1399-1700 | the word operations act on each bit |
| EwahFormat.ParsesConcat | ewah_0.4.0/ewah.h:1096-1124 | buffers that parse can be joined, and decode to the joined words |
| Ewah.EwahBoolArray.WholeBuffer | ewah_0.4.0/ewah.h:464-466 | the buffer of a well-formed bitmap parses into markers and literals as a whole, and decodes to its words |
| Ewah.EwahBoolArray.CompactBuffer | ewah_0.4.0/ewah.h:886-896 | when no run could hold a literal, the literals are exactly the words that are neither zeros nor ones, and the buffer holds each of them once besides its markers |
| EwahFormat.LiteralsAreGenuines | ewah_0.4.0/ewah.h:886-896 | the same of any buffer that parses |
| Ewah.EwahBoolArray.AddEmptyWord | ewah_0.4.0/ewah.h:1366-1397 | appends one word of a run, through alignment and marker overflow; a new marker is added exactly when the last one cannot count the word |
| Ewah.EwahBoolArray.AddLiteralWord | ewah_0.4.0/ewah.h:941-957 | appends one literal word, through overflow of the literal count; a new marker is added exactly when that count is full |
| Ewah.EwahBoolArray.Add | ewah_0.4.0/ewah.h:886-896 | appends the word; a word of zeros or of ones goes into a run, any other one becomes a literal |
| Ewah.EwahBoolArray.FastAddStreamOfEmptyWords | ewah_0.4.0/ewah.h:1271-1315 | appends a run of any length; the last marker is filled up first, and exactly as many new ones are added as the rest of the run needs |
| Ewah.EwahBoolArray.AddStreamOfEmptyWords | ewah_0.4.0/ewah.h:1215-1267 | the same with the size in bits |
| Ewah.EwahBoolArray.AddStreamOfDirtyWords | ewah_0.4.0/ewah.h:1319-1361 | appends any number of literal words, with exactly as many new markers as they need |
| Ewah.FewestMarkers | ewah_0.4.0/ewah.h:1229-1264 | that many new markers hold all words, and fewer do not |
| Ewah.EwahBoolArray.Set | ewah_0.4.0/ewah.h:758-792 | on every well-formed bitmap: refuses positions below the size; otherwise says what becomes of the words in every case: the bit joins a last literal or run of zeros, replaces the last word of a run of ones, starts a new word, or wraps around the run length of a marker without words. When the words cover the size, exactly the given bit is added if and only if there is no word more than the size demands and the bit has a word to join; each word more moves the bit by a word. No literal becomes one that a run could hold |
| Ewah.SetOutcome | ewah_0.4.0/ewah.h:758-792 | that condition on the words: the given bit and no other is added, and nothing past the size, exactly when it holds |
| Ewah.SetAfterPadding | ewah_0.4.0/ewah.h:960-1002 | the failing input: after padding an empty bitmap to 5 and then to 10 bits, setting bit 10 sets bit 42, and setting bit 11 on the bitmap this leaves, with a bit past its size, sets bit 43 |
| Ewah.BitmapOf | ewah_0.4.0/ewah.h:47-56 | setting a sequence of positions yields exactly those larger than all before them; a strictly increasing sequence yields exactly its set; no run could hold a literal of the result |
| Ewah.EwahBoolArray.PadWithZeroes | ewah_0.4.0/ewah.h:960-1002 | keeps the set of bits, and adds one word more than the size demands if and only if the bitmap is not word-aligned, does not end in a literal word, and the remainders of size and padding fit into one word together |
| Ewah.EwahBoolArray.PadCount | ewah_0.4.0/ewah.h:960-1002 | the arithmetic of that condition, for all sizes |
| Ewah.EwahBoolArray.Append | ewah_0.4.0/ewah.h:1096-1124 | the words of the second bitmap follow those of the first, so its bits are shifted by them; with exact word counts the shift is the old size and the count stays exact; refused when the size is not a number of whole words; its literals follow those of the first |
| EwahOps.Logical | ewah_0.4.0/ewah.h:1399-1700 | logicalor, logicaland and logicalxor on bitmaps of any sizes: a well-formed container of the larger size holding the operation bit by bit, with a last marker in use; its word count is exact if and only if the shorter of the two padded operands has the exact count, hence whenever both operands have it; the operands keep their bits; when no run could hold a literal of the operands, no run could hold a literal of the container |
| EwahOps.MergeLoop | ewah_0.4.0/ewah.h:1417-1495 | the merge terminates and appends the operation word by word, across every overlap of runs and literals |
| EwahOps.Devour | ewah_0.4.0/ewah.h:1417-1481 | a whole prey segment is merged with the front of the predator, which keeps exactly its rest |
| EwahOps.MergeStep | ewah_0.4.0/ewah.h:1417-1495 | what has been produced and what two iterators still hold always add up to the result |
| EwahOps.MakeSameSize | ewah_0.4.0/ewah.h:130-135 | both bitmaps get the larger size and keep their bits; the one that is not smaller is unchanged |
| EwahReaders.Get | ewah_0.4.0/ewah.h:66-84 | membership of the position |
| EwahReaders.NumberOfOnes | ewah_0.4.0/ewah.h:812-831 | the number of positions in the one ascending list of set bits |
| EwahReaders.ToArray | ewah_0.4.0/ewah.h:834-865 | the ascending list of exactly the set bits, by trailing zeros within words |
| EwahReaders.AppendRowIDs | ewah_0.4.0/ewah.h:1166-1195 | the same list, shifted by the offset, behind what was there |
| EwahReaders.ListsUnique | ewah_0.4.0/ewah.h:834-865 | there is only one such list, so all readers agree |
| EwahReaders.NextInWord | ewah_0.4.0/ewah.h:848-857 | shifting and counting trailing zeros skips exactly the unset bits |
| EwahIterators.Uncompress | ewah_0.4.0/ewah.h:1063-1065 | the word iterator yields the decoded words |
| EwahIterators.EwahBoolArrayIterator.Next | ewah_0.4.0/ewah.h:485-506 | each step yields the next decoded word, past markers without words |
| EwahIterators.SetBits | ewah_0.4.0/ewah.h:152-162 | going from begin to end visits the same list as toArray |
| EwahIterators.EwahBoolArraySetBitForwardIterator.AdvanceToNextSetBit | ewah_0.4.0/ewah.h:634-688 | stops at the first set bit from the current position on, or at the end if there is none |
| BddTag.BDDTag.Insert | src/bdd_tag.cpp:97-101 | the label returned stands for exactly the position, and no earlier label changes meaning although the trie is rewired; no sign changes; any position is accepted; at most two labels are used up, so there is a result whenever two are left |
| BddTag.BDDTag.Combine | src/bdd_tag.cpp:110-185 | the label returned stands for exactly the union of the two sets if all positions are below MAX_LB; for any labels find lists for it the union of what it lists for the two; its signs are those that its nodes had and those of the two labels, the smaller label deciding where both have the position; no earlier label changes meaning or loses a sign; at most two labels are used up for each position that find lists, so there is a result whenever that many are left |
| BddTag.BDDTag.Find | src/bdd_tag.cpp:187-205 | the segments cover exactly the positions of the set below MAX_LB, hence the whole set if and only if it has no others; they are in strictly ascending order, each of length 1 and with the sign of its position |
| BddTag.InsertPastLimit | src/bdd_tag.cpp:97-205 | the failing input: the position MAX_LB gets a label that stands for it, and find lists nothing for that label |
| BddTag.BDDTag.InsertNZeros | src/bdd_tag.cpp:37-63 | spells zeros over existing, longer and missing zero-nodes and keeps the tree valid |
| BddTag.BDDTag.AllocNode | src/bdd_tag.cpp:25-35 | issues the next label, or fails when labels are used up |
| BddTag.MeaningKept | src/bdd_tag.cpp:37-95 | labels keep their meaning through every rewiring of the trie |
| BddTag.LinkZerosValid | src/bdd_tag.cpp:43-55 | splitting a zero-node keeps the tree valid |
| BddTag.LinkOneValid | src/bdd_tag.cpp:65-95 | hanging in a one-node keeps the tree valid, with one-segments of length 1 |
| SsaLabels.LabelsDetermine | src/ssa_tag_gc.cpp:249-263 | tag diagrams are equal exactly when they stand for the same set of offsets |
| SsaLabels.SubsetTest | src/ssa_tag_gc.cpp:249-263 | the union equals an operand exactly when the other set is contained in it: the test on handles is exact |
| SsaLabels.OffsetCube | src/ssa_tag_gc.cpp:177-197 | the diagram of a new tag stands for exactly one offset, the given one modulo 2^24 |
| SsaLabels.CubeEval | sylvan/src/sylvan_mtbdd.c:677-725 | the cube holds exactly under the assignment of its array |
| SsaLabels.Union | sylvan/src/lace.cpp:345-400 | the backend answers a combine request with the diagram of the union |
| SsaTags.SsaHeap.AddSsaBlk | src/ssa_tag_gc.cpp:52-69 | fills the ring from a new block and keeps every invariant |
| SsaTags.SsaHeap.SsaGc | src/ssa_tag_gc.cpp:78-151 | on an empty ring: leaves it with at least half of its places filled, either full or with every free object in it, with pairwise distinct unreferenced objects; allocates a block exactly when fewer objects than that are free; objects in use are untouched and their diagrams stay protected |
| SsaTags.Freed | src/ssa_tag_gc.cpp:94-129 | putting a free object into the ring keeps the ring distinct and the protected diagrams exactly those in use |
| SsaTags.SsaHeap.Construct | src/ssa_tag_gc.h:29 | a default tag is empty, and the others keep their sets and the counts |
| SsaTags.SsaHeap.Copy | src/ssa_tag_gc.h:33-70 | copy construction and assignment, self-assignment included: the target shares the object and with it the set, all other tags keep theirs, counts stay exact |
| SsaTags.SsaHeap.Move | src/ssa_tag_gc.h:40-88 | move construction and assignment: the target takes over the object and with it the set, the source becomes empty, counts stay exact |
| SsaTags.SsaHeap.Destroy | src/ssa_tag_gc.h:46-51 | destroying a tag keeps all others and the counts |
| SsaTags.CopyKeeps | src/ssa_tag_gc.h:33-70 | after a copy every count is the number of tags that point to the object, and ring and protection are unchanged |
| SsaTags.MoveKeeps | src/ssa_tag_gc.h:40-88 | the same after a move, also onto itself |
| SsaTags.DestroyKeeps | src/ssa_tag_gc.h:46-51 | the same after a destruction |
| SsaTags.ClaimKeeps | src/ssa_tag_gc.cpp:153-176 | the same after taking a free object for a new tag |
| SsaTags.SsaHeap.EqualIsSetEquality | src/ssa_tag_gc.h:90-99 | tags compare equal exactly when they stand for the same set |
| SsaTags.SsaHeap.Alloc | src/ssa_tag_gc.cpp:153-197 | the new tag stands for its offset and has an object that no tag points to; all other tags keep their sets, collection included |
| SsaTags.SsaHeap.Remember | src/ssa_tag_gc.cpp:250-262 | the cache holds the two operands and the tag of their union, by counted references |
| SsaTags.SsaHeap.Combine | src/ssa_tag_gc.cpp:199-293 | the new tag stands for the union, on a cache hit as well; it shares the operand that contains the other one, or the cached result for operands with the same sets, and otherwise has an object that no tag points to; the cache then holds exactly this union, unless an operand was empty, both were equal or the cache was hit; all other tags keep their objects and sets |
| OpCache.HitIsStored | sylvan/src/sylvan_cache.c:178-201 | a hit for a non-zero key returns what a completed put stored for exactly that key, if fewer than 2^16 puts took the bucket between the two reads of its status |
| OpCache.OneWriter | sylvan/src/sylvan_cache.c:203-232 | at most one worker writes to the bucket, and only under the lock |
| OpCache.UnlockedIsWhole | sylvan/src/sylvan_cache.c:203-232 | an unlocked bucket holds one whole entry, the last one put |
| OpCache.StepKeeps | sylvan/src/sylvan_cache.c:178-232 | every memory access of every worker keeps the invariant |
| OpCacheProgress.GetOutcome | sylvan/src/sylvan_cache.c:178-201 | in every interleaving: a get passes its six tests one after the other or fails at one of them for the reason tested, and when it passes all it is a hit with the result that it has read |
| OpCacheProgress.PutOutcome | sylvan/src/sylvan_cache.c:203-222 | a put fails exactly when it finds the bucket locked or the status changed; otherwise it claims the bucket with its entry |
| OpCacheProgress.PutCompletes | sylvan/src/sylvan_cache.c:222-232 | a put that has claimed the bucket leaves exactly its entry behind, unlocked, after five more steps |
| OpCacheProgress.StoredIsFound | sylvan/src/sylvan_cache.c:178-232 | a get of any worker for the key and hash of the last put is a hit with its result, if no other put claims the bucket before the get ends |
| Avl.InsertedKeys | sylvan/src/avl.h:258-282 | insertion into the tree is insertion into its ascending list of keys, and adds no other node |
| Avl.InsertedBalance | sylvan/src/avl.h:180-192 | insertion keeps the balance within 1 and the height within one more |
| Avl.RebalancedKeeps | sylvan/src/avl.h:129-192 | balancing keeps keys, order, nodes and the exactness of the stored heights |
| Avl.RebalancedHeights | sylvan/src/avl.h:180-192 | balancing brings a side that is too high by two back |
| Avl.InsertSortedAdds | sylvan/src/avl.h:258-282 | the list gains exactly the key |
| Avl.ExactIsHeight | sylvan/src/avl.h:82-96 | stored heights that agree with each other are the heights |
| AvlHeap.Put | sylvan/src/avl.h:258-282 | on linked nodes: the result points to the node with the key, which is new exactly when the key was missing, and the links have the shape of the balanced tree |
| AvlHeap.BalanceTree | sylvan/src/avl.h:180-192 | the rotations on pointers give the balanced tree |
| AvlHeap.Search | sylvan/src/avl.h:333-343 | finds a node exactly when the key is in the tree |
| AvlHeap.InsertAll | sylvan/src/avl.h:258-282 | any sequence of insertions gives a sorted, balanced tree with exact heights and exactly those keys |
| AvlIter.AvlIter.Next | sylvan/src/avl.h:229-256 | yields the next key in order, within an array one longer than the height |
| AvlIter.Enumerate | sylvan/src/avl.h:217-256 | enumerates the tree in order, each node once |
| Serialize.Serializer.Add | sylvan/src/sylvan_bdd.c:2452-2487 | on every state, also after loading: numbers the new nodes children first; sound tables, in which every numbered node is found by its number, stay sound if and only if nothing is new or the next number is free; the returned number leads back to the handle if and only if nothing is new or the last number given is free |
| Serialize.GrownReadsBack | sylvan/src/sylvan_bdd.c:2452-2481 | a newly numbered node is found by its number if and only if the number was not taken |
| Serialize.GrownFaithful | sylvan/src/sylvan_bdd.c:2452-2481 | the condition under which all numbered nodes are found by their numbers afterwards, in both directions |
| Serialize.NewNodesShape | sylvan/src/sylvan_bdd.c:2452-2481 | new nodes are numbered after their children |
| Serialize.AddAfterLoading | sylvan/src/sylvan_bdd.c:2576-2604 | the failing input: after loading a file of one node into reset tables, another handle is added and its number leads to the loaded node |
| Serialize.LoadAfterAdding | sylvan/src/sylvan_bdd.c:2576-2604 | the failing input: after one node is added to reset tables, a file of another node is loaded, and its number leads to the added node |
| Serialize.Serializer.AssignRec | sylvan/src/sylvan_bdd.c:2452-2481 | the new nodes get consecutive numbers, older numbers stay, and taken numbers are not overwritten in the table by number |
| Serialize.Serializer.GetReversed | sylvan/src/sylvan_bdd.c:2509-2518 | the handle with the given number, mark transferred |
| Serialize.Serializer.ToFile | sylvan/src/sylvan_bdd.c:2541-2574 | under the condition that the source asserts on the numbers: writes exactly the records of the nodes not written before; from sound tables they describe these nodes |
| Serialize.Serializer.FromFile | sylvan/src/sylvan_bdd.c:2576-2604 | for a file that follows the nodes loaded or written so far, on tables in any state: the nodes are found by their numbers afterwards if and only if the tables held no other handles under these numbers; then sound tables stay sound and hold exactly these nodes and those added before |
| Serialize.RoundTrip | sylvan/src/sylvan_bdd.c:2452-2604 | for every way to cut the added handles into batches, with one file written per batch: loading the files into reset tables gives back every handle under its number, marks included |
| CwHash.MultAddPrime89 | sylvan/src/sylvan_hash.c:84-113 | for any limbs of 64 bits congruent to a*x+b modulo 2^89-1 but for what the six products lose modulo 2^64 and for at most one carry out of each sum; for limbs within the bounds three limbs below 2^32 and nothing lost |
| CwHash.LimbOverflows | sylvan/src/sylvan_hash.c:84-113 | the failing input: with a limb of 64 bits, as the coefficients of the source have them, a product overflows and the result is not congruent to a*x+b |
| CwHash.Product | sylvan/src/sylvan_hash.c:92-99 | the product, limb by limb |
| CwHash.Reduced | sylvan/src/sylvan_hash.c:100-103 | folding the products at bit 89 changes the value by a multiple of the prime |
| CwHash.Mod64Prime89 | sylvan/src/sylvan_hash.c:69-78 | for limbs of 64 bits what the machine computes; for limbs below 2^32 the residue modulo 2^89-1, modulo 2^64 |
| CwHash.ChainExact | sylvan/src/sylvan_hash.c:121-150 | after every step of the chain three limbs congruent to the value of the polynomial so far, for coefficients within the limb bounds |
| CwHash.CWhash | sylvan/src/sylvan_hash.c:121-150 | for any coefficients the chain of machine operations; for coefficients within the limb bounds the value of the polynomial modulo the prime |
| Sha256.HashChunks | sylvan/src/sha2.c:516-603 | however a message is cut into chunks, the result is the hash value of section 6.2 of FIPS 180-4, with the constants of the standard |
| Sha256Standard.ChooseBits | sylvan/src/sha2.c:201 | the bits of the first word choose between those of the others |
| Sha256Standard.MajorityBits | sylvan/src/sha2.c:202 | where two words agree their bit, where they differ that of the third |
| Sha256Standard.Rotations | sylvan/src/sha2.c:205-208 | the four sigma functions are the rotations and shifts of section 4.1.2 |
| Sha256Constants.RoundConstants | sylvan/src/sha2.c:228-245 | all 64 constants are the first 32 bits of the fractions of the cube roots of the first 64 primes |
| Sha256Constants.FirstPrimes | sylvan/src/sha2.c:228-245 | these are the first 64 primes |
| Sha256Constants.InitialValue | sylvan/src/sha2.c:248-257 | the initial hash value has the first 32 bits of the fractions of the square roots of the first eight primes |
| Sha256Digest.AbcDigest | sylvan/src/sha2.c:439-512 | the hash value of the message "abc" is the published one, by its schedule and its 64 rounds |
| Sha256.Sha256Ctx.Update | sylvan/src/sha2.c:516-558 | the context stands for the message with the data appended |
| Sha256.Sha256Ctx.Final | sylvan/src/sha2.c:560-603 | the digest is that of the message with the padding of section 5.1.1 of FIPS 180-4, and the context is cleared |
| Sha256.Sha256Ctx.Transform | sylvan/src/sha2.c:439-512 | sixteen words expanded in place give the compression with the 64-word schedule of section 6.2.2 of FIPS 180-4 |
| Sha256.Expanded | sylvan/src/sha2.c:482-489 | each in-place update of the sixteen words yields the next word of the schedule |
| Sha256.ChainConcat | sylvan/src/sha2.c:546-552 | the chain of blocks of a joined message is the chain continued |
| Sha256.ShortPad | sylvan/src/sha2.c:574-580 | when the padding fits into the last block |
| Sha256.LongPad | sylvan/src/sha2.c:581-590 | when the padding needs one more block |

## Left out

- Lace: tasks with arguments (they differ only in copying), `newframe` and `together` (`DROP` and
  `LACE_MAKE_ALL_SHARED`), thread start and stop, and weak memory: accesses are sequentially consistent, as the fences
  of the source intend. While the owner leapfrogs, the steals it makes from others are runs of a thief of their deque.
- LaceDeque: task indices are unbounded numbers; the source packs tail and split into 32 bits each.
- Sylvan: the unique table and garbage collection, node counting, `sylvan_relnext`, `sylvan_relprev` with an explicit
  variable set, projection, composition, counting, and `sylvan_and_alone_profile`, which only adds a counter.
- BddRel.Closure: the two results that the source computes by a spawned task are computed where they are synced.
- The bit layout of handles and nodes (24-bit variables, 40-bit indices): handles are modelled by mark and node.
- OpCache: the six-word entries that share a bucket with the two-part bit; the hash function is any function.
- EWAH: stream input and output, `logicalnot`, the uncompressed `BoolArray`, equality of buffers, comparison of
  iterators. Marker fields are stored and read by place value instead of by masks; sizes are unbounded numbers, and
  words have 32 bits, the default of the template.
- EwahOps.Logical: a trace line that `logicalxor` prints is not modelled.
- BddTag: `set_size`, labels with the length bit, and segments longer than 1, which only `set_size` creates;
  uniqueness of labels, which the source does not provide because a split node is not linked again.
- SsaTags: one mutator thread, so the ring is changed without compare-and-swap and the lock of the collector is always
  free; the memory of blocks is modelled by consecutive addresses, and there are fewer than 2^64-1 tags.
- SsaTags.SsaHeap.Combine: the target is a new tag, as the returned temporary of the source is.
- Avl: deletion, which rebalances slots that may be empty and does not keep the balance; keys are numbers.
- AvlHeap.InsertAll: freeing the tree and copying it to an array are left out.
- Serialize: the search trees are maps here, and the file is a sequence of records; read errors end the program in the
  source.
- CwHash.CWhash: for coefficients outside the limb bounds, as those of the source are, the chain is stated with what
  its products and sums lose at each step, and nothing about its quality as a hash value.
- Sha256: SHA-384 and SHA-512, which are analogous; the digest as bytes; messages of 2^61 bytes or more, for which the
  standard defines nothing.
- The tag map, the instrumentation of instructions and system calls, and printing.
