/** Point and batched lookups and scans under interleaving. A reader checks the
    active table under `cur_mtx`, lets it go, and checks the frozen tables under
    `frozen_mtx`; a scan holds both; writers, freezes and clears run in between.
    Every state change made under a lock is a step of its own. */
module TwoPhaseReads {
  import opened Keys
  import opened Tables
  import opened Layers

  /** What a thread is about to do, and with it which locks it holds. */
  datatype Thread =
    | Idle
    // get and get_batch
    | ReadStart(keys: seq<Bytes>)
    | ReadActive(keys: seq<Bytes>)
    | ReadGap(keys: seq<Bytes>, found: seq<Option<Entry>>)
    | ReadFrozen(keys: seq<Bytes>, found: seq<Option<Entry>>)
    | ReadDone(keys: seq<Bytes>, results: seq<Option<Entry>>)
    // begin, iters_preffix, iters_monotony_predicate: the tables collected so far
    | ScanStart
    | ScanWaiting
    | Scanning(seen: seq<Table>)
    | ScanDone(seen: seq<Table>)
    // put, put_batch, remove, remove_batch: the first `done` writes are made
    | WriteStart(kvs: seq<(Bytes, Bytes)>, trancId: nat)
    | Writing(kvs: seq<(Bytes, Bytes)>, trancId: nat, done: nat)
    // frozen_cur_table, and a write over the size limit
    | FreezeStart
    | FreezeWaiting
    | Freezing
    // clear
    | ClearStart
    | ClearWaiting
    | ClearFrozen
    | ClearActive

  datatype State = State(mem: Mem, threads: seq<Thread>)

  predicate HoldsCurShared(t: Thread) {
    t.ReadActive? || t.ScanWaiting? || t.Scanning?
  }

  predicate HoldsCurExclusive(t: Thread) {
    t.Writing? || t.FreezeWaiting? || t.Freezing? || t.ClearWaiting? || t.ClearFrozen? || t.ClearActive?
  }

  predicate HoldsFrozenShared(t: Thread) {
    t.ReadFrozen? || t.Scanning?
  }

  predicate HoldsFrozenExclusive(t: Thread) {
    t.Freezing? || t.ClearFrozen? || t.ClearActive?
  }

  predicate NoneHolds(s: State, holds: Thread -> bool) {
    forall j | 0 <= j < |s.threads| :: !holds(s.threads[j])
  }

  predicate CurFree(s: State) {
    NoneHolds(s, HoldsCurShared) && NoneHolds(s, HoldsCurExclusive)
  }

  predicate FrozenFree(s: State) {
    NoneHolds(s, HoldsFrozenShared) && NoneHolds(s, HoldsFrozenExclusive)
  }

  function FirstPhase(mem: Mem, keys: seq<Bytes>): (r: seq<Option<Entry>>)
    ensures |r| == |keys|
    ensures forall p | 0 <= p < |keys| :: r[p] == InActive(mem, keys[p])
  {
    seq(|keys|, p requires 0 <= p < |keys| => InActive(mem, keys[p]))
  }

  function SecondPhase(mem: Mem, keys: seq<Bytes>, found: seq<Option<Entry>>): (r: seq<Option<Entry>>)
    requires |found| == |keys|
    ensures |r| == |keys|
    ensures forall p | 0 <= p < |keys| :: r[p] == if found[p].Some? then found[p] else InFrozen(mem, keys[p])
  {
    seq(|keys|, p requires 0 <= p < |keys| => if found[p].Some? then found[p] else InFrozen(mem, keys[p]))
  }

  /** One move of a thread: what it is next, and the tables afterwards. A write
      may freeze at its end or not, so every size limit is covered. */
  predicate Moves(s: State, now: Thread, next: Thread, mem': Mem) {
    match now
    case Idle =>
      && mem' == s.mem
      && (next.ReadStart? || next.ScanStart? || next.WriteStart? || next.FreezeStart? || next.ClearStart?)
    case ReadStart(keys) =>
      mem' == s.mem && next == ReadActive(keys) && NoneHolds(s, HoldsCurExclusive)
    case ReadActive(keys) =>
      var found := FirstPhase(s.mem, keys);
      mem' == s.mem && next == if None in found then ReadGap(keys, found) else ReadDone(keys, found)
    case ReadGap(keys, found) =>
      mem' == s.mem && next == ReadFrozen(keys, found) && NoneHolds(s, HoldsFrozenExclusive)
    case ReadFrozen(keys, found) =>
      mem' == s.mem && |found| == |keys| && next == ReadDone(keys, SecondPhase(s.mem, keys, found))
    case ReadDone(_, _) =>
      mem' == s.mem && next == Idle
    case ScanStart =>
      mem' == s.mem && next == ScanWaiting && NoneHolds(s, HoldsCurExclusive)
    case ScanWaiting =>
      mem' == s.mem && next == Scanning([]) && NoneHolds(s, HoldsFrozenExclusive)
    case Scanning(seen) =>
      var all := s.mem.All();
      mem' == s.mem && next == if |seen| < |all| then Scanning(seen + [all[|seen|]]) else ScanDone(seen)
    case ScanDone(_) =>
      mem' == s.mem && next == Idle
    case WriteStart(kvs, id) =>
      mem' == s.mem && next == Writing(kvs, id, 0) && CurFree(s)
    case Writing(kvs, id, done) =>
      if done < |kvs| then
        mem' == WriteOne(s.mem, kvs[done].0, kvs[done].1, id) && next == Writing(kvs, id, done + 1)
      else
        mem' == s.mem && (next == Idle || next == FreezeWaiting)
    case FreezeStart =>
      mem' == s.mem && next == FreezeWaiting && CurFree(s)
    case FreezeWaiting =>
      mem' == s.mem && next == Freezing && FrozenFree(s)
    case Freezing =>
      mem' == Freeze(s.mem) && next == Idle
    case ClearStart =>
      mem' == s.mem && next == ClearWaiting && CurFree(s)
    case ClearWaiting =>
      mem' == s.mem && next == ClearFrozen && FrozenFree(s)
    case ClearFrozen =>
      mem' == s.mem.(frozen := []) && next == ClearActive
    case ClearActive =>
      mem' == s.mem.(active := []) && next == Idle
  }

  predicate Step(s: State, s': State, i: nat) {
    && i < |s.threads| == |s'.threads|
    && (forall j | 0 <= j < |s.threads| && j != i :: s'.threads[j] == s.threads[j])
    && Moves(s, s.threads[i], s'.threads[i], s'.mem)
  }

  ghost predicate Next(s: State, s': State) {
    exists i :: Step(s, s', i)
  }

  predicate AllIdle(s: State) {
    forall j | 0 <= j < |s.threads| :: s.threads[j] == Idle
  }

  /** An execution from any tables with all threads idle. */
  ghost predicate Execution(tr: seq<State>) {
    && tr != []
    && AllIdle(tr[0])
    && (forall t | 0 <= t < |tr| - 1 :: Next(tr[t], tr[t + 1]))
  }

  // ------------------------------------------------------------ lock discipline

  /** A lock held exclusively is held by no other thread. */
  ghost predicate Excluded(s: State) {
    forall i, j | 0 <= i < |s.threads| && 0 <= j < |s.threads| && i != j ::
      && (HoldsCurExclusive(s.threads[i]) ==> !HoldsCurExclusive(s.threads[j]) && !HoldsCurShared(s.threads[j]))
      && (HoldsFrozenExclusive(s.threads[i]) ==>
            !HoldsFrozenExclusive(s.threads[j]) && !HoldsFrozenShared(s.threads[j]))
  }

  lemma StepKeepsExclusion(s: State, s': State, i: nat)
    requires Step(s, s', i) && Excluded(s)
    ensures Excluded(s') && |s'.threads| == |s.threads|
  {
  }

  lemma IdleExcludes(s: State)
    requires AllIdle(s)
    ensures Excluded(s)
  {
  }

  lemma {:induction false} ExclusionHolds(tr: seq<State>, t: nat)
    requires Execution(tr) && t < |tr|
    ensures Excluded(tr[t]) && |tr[t].threads| == |tr[0].threads|
  {
    hide Step, Excluded;
    if t == 0 {
      IdleExcludes(tr[0]);
    } else {
      ExclusionHolds(tr, t - 1);
      assert Next(tr[t - 1], tr[t - 1 + 1]);
      var i: nat :| Step(tr[t - 1], tr[t], i);
      StepKeepsExclusion(tr[t - 1], tr[t], i);
    }
  }

  // ----------------------------------------------------------- linearizability

  /** Thread `r` reads `keys` in states a..b: it checks the active table in state
      `a` and has its results after state `b`. */
  ghost predicate ReadSpan(tr: seq<State>, r: nat, keys: seq<Bytes>, a: nat, b: nat, results: seq<Option<Entry>>)
    ensures ReadSpan(tr, r, keys, a, b, results) ==> a <= b < |tr| - 1
  {
    && a <= b < |tr| - 1
    && (forall t | a <= t <= b + 1 :: r < |tr[t].threads|)
    && tr[a].threads[r] == ReadActive(keys)
    && (forall t | a < t <= b :: tr[t].threads[r].ReadGap? || tr[t].threads[r].ReadFrozen?)
    && tr[b + 1].threads[r] == ReadDone(keys, results)
  }

  ghost predicate SomeClearing(s: State) {
    exists i :: 0 <= i < |s.threads| && s.threads[i].ClearActive?
  }

  /** No thread is inside a section that changes the tables: every write, freeze
      and clear so far is complete (`QuietIsSequential`). */
  predicate Quiet(s: State) {
    NoneHolds(s, HoldsCurExclusive)
  }

  /** The frozen tables of state `t` answer for every key the active table of
      state `a` did not have as the whole memtable did in state `j`. */
  ghost predicate AnswersAs(tr: seq<State>, a: nat, j: nat, t: nat)
    requires a < |tr| && j < |tr| && t < |tr|
  {
    forall key | InActive(tr[a].mem, key) == None :: Get(tr[j].mem, key) == InFrozen(tr[t].mem, key)
  }

  /** The frozen tables of state `t` answer for all those keys at once as the
      whole memtable did in some quiet state since. */
  ghost predicate AnsweredSince(tr: seq<State>, a: nat, t: nat)
    requires a < |tr| && t < |tr|
  {
    exists j :: a <= j <= t && Quiet(tr[j]) && AnswersAs(tr, a, j, t)
  }

  /** Whatever any thread does, the frozen tables keep answering for all keys
      missed in state `a` as the whole memtable did at one quiet instant since, or
      a clear is halfway: a freeze and a finished clear leave the active table
      empty, and no other step changes the frozen tables. */
  lemma {:induction false} GapKeepsAnswer(tr: seq<State>, a: nat, t: nat)
    requires Execution(tr) && a <= t < |tr| && Quiet(tr[a])
    ensures AnsweredSince(tr, a, t) || SomeClearing(tr[t])
  {
    hide Step, Get, InFrozen, Lookup, SomeClearing, Quiet;
    if t == a {
      forall key | InActive(tr[a].mem, key) == None
        ensures Get(tr[a].mem, key) == InFrozen(tr[a].mem, key)
      {
        GetInTwoParts(tr[a].mem, key);
      }
      assert AnswersAs(tr, a, a, t);
    } else {
      GapKeepsAnswer(tr, a, t - 1);
      ExclusionHolds(tr, t - 1);
      assert Next(tr[t - 1], tr[t - 1 + 1]);
      var i: nat :| Step(tr[t - 1], tr[t], i);
      AnswerStep(tr[t - 1], tr[t], i);
      if EmptyAndQuiet(tr[t]) {
        AnswersItself(tr, a, t);
      } else if AnsweredSince(tr, a, t - 1) && tr[t].mem.frozen == tr[t - 1].mem.frozen {
        var j :| a <= j <= t - 1 && Quiet(tr[j]) && AnswersAs(tr, a, j, t - 1);
        SameFrozen(tr, a, j, t - 1, t);
      }
    }
  }

  predicate EmptyAndQuiet(s: State) {
    s.mem.active == [] && Quiet(s)
  }

  /** With nothing in the active table the frozen ones answer for the whole. */
  lemma AnswersItself(tr: seq<State>, a: nat, t: nat)
    requires a <= t < |tr| && EmptyAndQuiet(tr[t])
    ensures AnsweredSince(tr, a, t)
  {
    forall key
      ensures Get(tr[t].mem, key) == InFrozen(tr[t].mem, key)
    {
      OverlayEmptyTable(tr[t].mem.frozen, key);
    }
    assert AnswersAs(tr, a, t, t);
  }

  lemma SameFrozen(tr: seq<State>, a: nat, j: nat, t: nat, u: nat)
    requires a < |tr| && j < |tr| && t < |tr| && u < |tr|
    requires AnswersAs(tr, a, j, t) && tr[t].mem.frozen == tr[u].mem.frozen
    ensures AnswersAs(tr, a, j, u)
  {
    hide Get, Lookup, Overlay;
    assert forall key :: InFrozen(tr[t].mem, key) == InFrozen(tr[u].mem, key);
  }

  /** One step leaves the frozen tables alone, or leaves the active table empty
      and nobody changing it, or starts the second half of a clear; and that half
      ends only by emptying the active table. */
  lemma AnswerStep(s: State, s': State, i: nat)
    requires Step(s, s', i) && Excluded(s)
    ensures s'.mem.frozen == s.mem.frozen || EmptyAndQuiet(s') || SomeClearing(s')
    ensures SomeClearing(s) ==> SomeClearing(s') || EmptyAndQuiet(s')
  {
    if s.threads[i].Freezing? || s.threads[i].ClearActive? {
      assert forall j | 0 <= j < |s.threads| && j != i :: !HoldsCurExclusive(s.threads[j]);
    } else if s.threads[i].ClearFrozen? {
      assert s'.threads[i].ClearActive?;
    } else if SomeClearing(s) {
      var c :| 0 <= c < |s.threads| && s.threads[c].ClearActive?;
      assert s'.threads[c].ClearActive?;
    }
  }

  /** The first phase ends the read exactly if it finds every key; otherwise the
      reader lets `cur_mtx` go. */
  lemma EndsAfterFirstPhaseIff(s: State, s': State, i: nat)
    requires Step(s, s', i) && s.threads[i].ReadActive?
    ensures s'.threads[i].ReadDone? <==> forall key | key in s.threads[i].keys :: InActive(s.mem, key).Some?
    ensures !HoldsCurShared(s'.threads[i])
  {
    hide InActive;
    var keys := s.threads[i].keys;
    var found := FirstPhase(s.mem, keys);
    if None in found {
      var p :| 0 <= p < |found| && found[p] == None;
      assert keys[p] in keys;
    }
  }

  /** Between the two phases a reader keeps what its first phase found. */
  lemma {:induction false} GapRemembers(tr: seq<State>, r: nat, keys: seq<Bytes>, a: nat, t: nat)
    requires Execution(tr) && a < t < |tr| && forall u | a <= u <= t :: r < |tr[u].threads|
    requires tr[a].threads[r] == ReadActive(keys)
    requires forall u | a < u <= t :: tr[u].threads[r].ReadGap? || tr[u].threads[r].ReadFrozen?
    ensures tr[t].threads[r].keys == keys && tr[t].threads[r].found == FirstPhase(tr[a].mem, keys)
  {
    if t > a + 1 {
      GapRemembers(tr, r, keys, a, t - 1);
    }
    assert Next(tr[t - 1], tr[t - 1 + 1]);
    var i: nat :| Step(tr[t - 1], tr[t], i);
  }

  /** A step to `ReadDone` from a phase is the reader's own, with that phase's
      results. */
  lemma DoneStep(s: State, s': State, r: nat, keys: seq<Bytes>, results: seq<Option<Entry>>)
    requires Next(s, s') && r < |s.threads| && r < |s'.threads|
    requires !s.threads[r].ReadDone? && s'.threads[r] == ReadDone(keys, results)
    ensures s.threads[r].ReadActive? || s.threads[r].ReadFrozen?
    ensures s.threads[r].ReadActive? ==>
              s.threads[r].keys == keys && results == FirstPhase(s.mem, keys) && None !in results
    ensures s.threads[r].ReadFrozen? ==>
              && s.threads[r].keys == keys && |s.threads[r].found| == |keys|
              && results == SecondPhase(s.mem, keys, s.threads[r].found)
  {
    var i: nat :| Step(s, s', i);
  }

  /** All results are what the memtable held for their keys in state `j`. */
  ghost predicate AllFrom(mem: Mem, keys: seq<Bytes>, results: seq<Option<Entry>>) {
    |results| == |keys| && forall p | 0 <= p < |keys| :: results[p] == Get(mem, keys[p])
  }

  /** In every execution a completed read draws on two instants only, both quiet:
      every key found in the active table has what the memtable held when it was
      checked, and all other keys have what it held at one later instant before
      the end of the check of the frozen tables. */
  lemma ReadDrawsOnTwoInstants(tr: seq<State>, r: nat, keys: seq<Bytes>, a: nat, b: nat,
                               results: seq<Option<Entry>>)
    returns (j: nat)
    requires Execution(tr) && ReadSpan(tr, r, keys, a, b, results)
    ensures |results| == |keys| && a <= j <= b && Quiet(tr[a]) && Quiet(tr[j])
    ensures forall p | 0 <= p < |keys| ::
              results[p] == Get(tr[if InActive(tr[a].mem, keys[p]).Some? then a else j].mem, keys[p])
  {
    hide Get, InFrozen, Lookup;
    var mem := tr[a].mem;
    assert Next(tr[b], tr[b + 1]);
    DoneStep(tr[b], tr[b + 1], r, keys, results);
    ExclusionHolds(tr, a);
    assert HoldsCurShared(tr[a].threads[r]);
    forall p | 0 <= p < |keys| && InActive(mem, keys[p]).Some?
      ensures Get(mem, keys[p]) == InActive(mem, keys[p])
    {
      GetInTwoParts(mem, keys[p]);
    }
    if a == b {
      j := a;
    } else {
      GapRemembers(tr, r, keys, a, b);
      GapKeepsAnswer(tr, a, b);
      ExclusionHolds(tr, b);
      assert HoldsFrozenShared(tr[b].threads[r]);
      assert !SomeClearing(tr[b]);
      j :| a <= j <= b && Quiet(tr[j]) && AnswersAs(tr, a, j, b);
    }
  }

  /** Two-phase reads are linearizable key by key: in every execution, every
      result of a completed read is what the memtable held for that key at one
      quiet instant between the check of the active table and the end of the check
      of the frozen ones, whatever was put, removed, frozen or cleared meanwhile. */
  lemma ReadsAreLinearizable(tr: seq<State>, r: nat, keys: seq<Bytes>, a: nat, b: nat,
                             results: seq<Option<Entry>>, p: nat)
    requires Execution(tr) && ReadSpan(tr, r, keys, a, b, results) && p < |keys|
    ensures |results| == |keys|
    ensures exists j :: a <= j <= b && Quiet(tr[j]) && results[p] == Get(tr[j].mem, keys[p])
  {
    var j := ReadDrawsOnTwoInstants(tr, r, keys, a, b, results);
  }

  // -------------------------------------------- quiet states are sequential

  /** The memtable after whole operations, one after the other. A limit no size
      exceeds leaves every freeze an operation of its own. */
  function Complete(m: Mem, ops: seq<Op>): Mem {
    if ops == [] then m else Apply(Complete(m, ops[..|ops| - 1]), ops[|ops| - 1], TWO64)
  }

  /** How far the section of the thread that may change the tables has come from
      the state `base` that whole operations lead to. */
  predicate Partial(mem: Mem, base: Mem, t: Thread) {
    match t
    case Writing(kvs, id, done) => done <= |kvs| && mem == WriteMany(base, kvs[..done], id)
    case ClearActive => mem == base.(frozen := [])
    case _ => HoldsCurExclusive(t) ==> mem == base
  }

  ghost predicate InProgress(s: State, base: Mem)
    ensures InProgress(s, base) && Quiet(s) ==> s.mem == base
  {
    && (Quiet(s) ==> s.mem == base)
    && forall i | 0 <= i < |s.threads| :: Partial(s.mem, base, s.threads[i])
  }

  lemma NothingInProgress(s: State)
    requires AllIdle(s)
    ensures InProgress(s, s.mem)
  {
  }

  lemma NoWriteYet(m: Mem, kvs: seq<(Bytes, Bytes)>, id: nat)
    ensures WriteMany(m, kvs[..0], id) == m
  {
  }

  lemma OneMoreWrite(m: Mem, kvs: seq<(Bytes, Bytes)>, n: nat, id: nat)
    requires n < |kvs|
    ensures WriteMany(m, kvs[..n + 1], id) == WriteOne(WriteMany(m, kvs[..n], id), kvs[n].0, kvs[n].1, id)
  {
    assert kvs[..n + 1][..n] == kvs[..n];
  }

  /** A step is the move of one thread: all others stand still, and a move always
      changes what a thread is about to do. */
  lemma OneMover(s: State, s': State, i: nat, k: nat)
    requires Step(s, s', i) && Step(s, s', k)
    ensures i == k
  {
    hide FirstPhase, SecondPhase, WriteOne, Freeze;
    assert s'.threads[i] != s.threads[i];
  }

  ghost function Mover(s: State, s': State): (i: nat)
    requires Next(s, s')
    ensures Step(s, s', i) && i < |s.threads|
  {
    var i: nat :| Step(s, s', i);
    i
  }

  /** The operation whose section the thread ends with its next step. A write that
      goes on to freeze ends as a write first. */
  function EndedOp(t: Thread): Option<Op> {
    match t
    case Writing(kvs, id, done) => if done < |kvs| then None else Some(PutBatch(kvs, id))
    case Freezing => Some(FreezeNow)
    case ClearActive => Some(Op.Clear)
    case _ => None
  }

  /** The operations an execution completes before state `t`, in order. */
  ghost function Completed(tr: seq<State>, t: nat): seq<Op>
    requires Execution(tr) && t < |tr|
  {
    if t == 0 then []
    else
      assert Next(tr[t - 1], tr[t - 1 + 1]);
      var ended := EndedOp(tr[t - 1].threads[Mover(tr[t - 1], tr[t])]);
      Completed(tr, t - 1) + if ended.Some? then [ended.value] else []
  }

  /** All states of an execution share one history: it only grows. */
  lemma {:induction false} HistoryGrows(tr: seq<State>, t: nat, u: nat)
    requires Execution(tr) && t <= u < |tr|
    ensures Completed(tr, t) <= Completed(tr, u)
  {
    if t == u {
    } else {
      HistoryGrows(tr, t, u - 1);
    }
  }

  /** In every execution the tables of a quiet state are those the operations
      completed so far lead to, one after the other; in any other state one
      operation is partly done on top of that. */
  lemma {:induction false} QuietIsSequential(tr: seq<State>, t: nat)
    requires Execution(tr) && t < |tr|
    ensures InProgress(tr[t], Complete(tr[0].mem, Completed(tr, t)))
    ensures Quiet(tr[t]) ==> tr[t].mem == Complete(tr[0].mem, Completed(tr, t))
  {
    hide Step, Excluded, InProgress, Apply, EndedOp;
    if t == 0 {
      NothingInProgress(tr[0]);
    } else {
      QuietIsSequential(tr, t - 1);
      ExclusionHolds(tr, t - 1);
      assert Next(tr[t - 1], tr[t - 1 + 1]);
      var i, before := Mover(tr[t - 1], tr[t]), Completed(tr, t - 1);
      var ended := EndedOp(tr[t - 1].threads[i]);
      SectionStep(tr[t - 1], tr[t], i, Complete(tr[0].mem, before));
      if ended.Some? {
        assert (before + [ended.value])[..|before|] == before;
      } else {
        assert before + [] == before;
      }
    }
  }

  /** One step keeps the operations completed so far, or completes exactly the one
      the moving thread has finished. */
  lemma SectionStep(s: State, s': State, i: nat, base: Mem)
    requires Step(s, s', i) && Excluded(s) && InProgress(s, base)
    ensures var ended := EndedOp(s.threads[i]);
            InProgress(s', if ended.Some? then Apply(base, ended.value, TWO64) else base)
  {
    hide Freeze, Write, WriteMany, TotalBytes, FirstPhase, SecondPhase, Overlay;
    match s.threads[i]
    case Writing(kvs, id, done) =>
      if done < |kvs| {
        OneMoreWrite(base, kvs, done, id);
      } else {
        assert kvs[..done] == kvs;
      }
    case WriteStart(kvs, id) => NoWriteYet(base, kvs, id);
    case _ =>
  }

  /** Every answer of a completed read is what the operations completed by one
      instant of the read lead to: those done before it and some of those that end
      during it, the same history for all reads. */
  lemma ReadsFollowHistory(tr: seq<State>, r: nat, keys: seq<Bytes>, a: nat, b: nat,
                           results: seq<Option<Entry>>, p: nat)
    returns (j: nat)
    requires Execution(tr) && ReadSpan(tr, r, keys, a, b, results) && p < |keys|
    ensures |results| == |keys| && a <= j <= b
    ensures Completed(tr, a) <= Completed(tr, j) <= Completed(tr, b)
    ensures results[p] == Get(Complete(tr[0].mem, Completed(tr, j)), keys[p])
  {
    hide Get, Complete, Completed, ReadSpan, Execution;
    ReadsAreLinearizable(tr, r, keys, a, b, results, p);
    j :| a <= j <= b && Quiet(tr[j]) && results[p] == Get(tr[j].mem, keys[p]);
    QuietIsSequential(tr, j);
    HistoryGrows(tr, a, j);
    HistoryGrows(tr, j, b);
  }

  // -------------------------------------------------------------------- scans

  lemma OnlyExclusiveChanges(s: State, s': State, i: nat)
    requires Step(s, s', i)
    ensures s'.mem == s.mem || HoldsCurExclusive(s.threads[i])
  {
    hide FirstPhase, SecondPhase;
  }

  lemma SharedStep(s: State, s': State, i: nat, r: nat)
    requires Step(s, s', i) && Excluded(s) && r < |s.threads| && HoldsCurShared(s.threads[r])
    ensures s'.mem == s.mem
  {
    OnlyExclusiveChanges(s, s', i);
    hide Step;
  }

  /** While a thread holds `cur_mtx` shared nothing changes the tables. */
  lemma {:induction false} SharedHoldsStill(tr: seq<State>, r: nat, a: nat, b: nat)
    requires Execution(tr) && a <= b < |tr|
    requires forall t | a <= t <= b :: r < |tr[t].threads|
    requires forall t | a <= t < b :: HoldsCurShared(tr[t].threads[r])
    ensures tr[b].mem == tr[a].mem
  {
    hide Step, Excluded, HoldsCurShared;
    if a == b {
    } else {
      SharedHoldsStill(tr, r, a, b - 1);
      ExclusionHolds(tr, b - 1);
      assert Next(tr[b - 1], tr[b - 1 + 1]);
      SharedStep(tr[b - 1], tr[b], Mover(tr[b - 1], tr[b]), r);
    }
  }

  /** Thread `r` scans in states a..b: it takes `cur_mtx` in the step before `a`
      and has collected `seen` after state `b`. */
  ghost predicate ScanSpan(tr: seq<State>, r: nat, a: nat, b: nat, seen: seq<Table>)
    ensures ScanSpan(tr, r, a, b, seen) ==> a <= b < |tr| - 1
  {
    && a <= b < |tr| - 1
    && (forall t | a <= t <= b + 1 :: r < |tr[t].threads|)
    && tr[a].threads[r] == ScanWaiting
    && (forall t | a < t <= b :: tr[t].threads[r].ScanWaiting? || tr[t].threads[r].Scanning?)
    && tr[b + 1].threads[r] == ScanDone(seen)
  }

  /** A scan sees one quiet state whole: from when it has `cur_mtx` until it is done
      nothing changes, what it collects are all tables, newest first, and they are
      what the operations completed before it lead to. */
  lemma ScanSeesOneState(tr: seq<State>, r: nat, a: nat, b: nat, seen: seq<Table>)
    requires Execution(tr) && ScanSpan(tr, r, a, b, seen)
    ensures forall t | a <= t <= b :: Quiet(tr[t]) && tr[t].mem == tr[a].mem
    ensures seen == tr[a].mem.All()
    ensures tr[a].mem == Complete(tr[0].mem, Completed(tr, a))
  {
    hide Execution, Step, Complete, Completed, Excluded;
    assert forall t | a <= t <= b :: HoldsCurShared(tr[t].threads[r]);
    forall t | a <= t <= b
      ensures Quiet(tr[t]) && tr[t].mem == tr[a].mem
    {
      SharedHoldsStill(tr, r, a, t);
      SharedIsQuiet(tr, r, t);
    }
    QuietIsSequential(tr, a);
    ScanCollects(tr, r, a, b);
    LastScanStep(tr, r, b, seen);
  }

  lemma SharedIsQuiet(tr: seq<State>, r: nat, t: nat)
    requires Execution(tr) && t < |tr| && r < |tr[t].threads| && HoldsCurShared(tr[t].threads[r])
    ensures Quiet(tr[t])
  {
    ExclusionHolds(tr, t);
  }

  /** What a scanning thread has collected are the first tables of the stack. */
  predicate Collected(s: State, r: nat) {
    r < |s.threads| && s.threads[r].Scanning? ==> s.threads[r].seen <= s.mem.All()
  }

  lemma {:induction false} ScanCollects(tr: seq<State>, r: nat, a: nat, t: nat)
    requires Execution(tr) && a <= t < |tr| && forall u | a <= u <= t :: r < |tr[u].threads|
    requires tr[a].threads[r] == ScanWaiting
    requires forall u | a < u <= t :: tr[u].threads[r].ScanWaiting? || tr[u].threads[r].Scanning?
    ensures Collected(tr[t], r)
  {
    hide Step, Collected;
    if t == a {
      NothingCollected(tr[t], r);
    } else {
      ScanCollects(tr, r, a, t - 1);
      SharedHoldsStill(tr, r, t - 1, t);
      assert Next(tr[t - 1], tr[t - 1 + 1]);
      CollectStep(tr[t - 1], tr[t], Mover(tr[t - 1], tr[t]), r);
    }
  }

  lemma NothingCollected(s: State, r: nat)
    requires r < |s.threads| && s.threads[r].ScanWaiting?
    ensures Collected(s, r)
  {
  }

  lemma CollectStep(s: State, s': State, i: nat, r: nat)
    requires Step(s, s', i) && s'.mem == s.mem && r < |s.threads| && Collected(s, r)
    requires s.threads[r].ScanWaiting? || s.threads[r].Scanning?
    ensures Collected(s', r)
  {
    hide FirstPhase, SecondPhase;
  }

  lemma LastScanStep(tr: seq<State>, r: nat, b: nat, seen: seq<Table>)
    requires Execution(tr) && b + 1 < |tr| && r < |tr[b].threads| && r < |tr[b + 1].threads|
    requires Collected(tr[b], r) && !tr[b].threads[r].ScanDone? && tr[b + 1].threads[r] == ScanDone(seen)
    ensures seen == tr[b].mem.All()
  {
    assert Next(tr[b], tr[b + 1]);
    var i := Mover(tr[b], tr[b + 1]);
  }

  // ----------------------------------------------------------------- progress

  predicate MidOperation(s: State) {
    exists i :: 0 <= i < |s.threads| && s.threads[i] != Idle
  }

  /** What a reader found in its first phase fits its keys. */
  predicate FoundFits(s: State) {
    forall i | 0 <= i < |s.threads| && (s.threads[i].ReadGap? || s.threads[i].ReadFrozen?) ::
      |s.threads[i].found| == |s.threads[i].keys|
  }

  lemma {:induction false} FoundAlwaysFits(tr: seq<State>, t: nat)
    requires Execution(tr) && t < |tr|
    ensures FoundFits(tr[t])
  {
    if t == 0 {
    } else {
      FoundAlwaysFits(tr, t - 1);
      assert Next(tr[t - 1], tr[t - 1 + 1]);
      var i: nat :| Step(tr[t - 1], tr[t], i);
    }
  }

  /** The locks a thread waits for are free as far as it needs them: shared means
      that nobody holds it exclusively, exclusive that nobody holds it at all. */
  predicate Granted(s: State, t: Thread) {
    && (t.ReadStart? || t.ScanStart? ==> NoneHolds(s, HoldsCurExclusive))
    && (t.WriteStart? || t.FreezeStart? || t.ClearStart? ==> CurFree(s))
    && (t.ReadGap? || t.ScanWaiting? ==> NoneHolds(s, HoldsFrozenExclusive))
    && (t.FreezeWaiting? || t.ClearWaiting? ==> FrozenFree(s))
  }

  /** A thread can move exactly if the locks it waits for are free. */
  lemma MovesIffGranted(s: State, i: nat)
    requires i < |s.threads| && FoundFits(s)
    ensures (exists s' :: Step(s, s', i)) <==> Granted(s, s.threads[i])
  {
    hide FirstPhase, SecondPhase, WriteOne, Freeze, NoneHolds;
    if Granted(s, s.threads[i]) {
      var s' := GrantedMove(s, i);
    }
  }

  /** Its move. */
  lemma GrantedMove(s: State, i: nat) returns (s': State)
    requires i < |s.threads| && FoundFits(s) && Granted(s, s.threads[i])
    ensures Step(s, s', i)
  {
    var now := s.threads[i];
    var (next, mem) := match now
      case ReadStart(keys) => (ReadActive(keys), s.mem)
      case ReadActive(keys) =>
        var found := FirstPhase(s.mem, keys);
        (if None in found then ReadGap(keys, found) else ReadDone(keys, found), s.mem)
      case ReadGap(keys, found) => (ReadFrozen(keys, found), s.mem)
      case ReadFrozen(keys, found) => (ReadDone(keys, SecondPhase(s.mem, keys, found)), s.mem)
      case ScanStart => (ScanWaiting, s.mem)
      case ScanWaiting => (Scanning([]), s.mem)
      case Scanning(seen) =>
        (if |seen| < |s.mem.All()| then Scanning(seen + [s.mem.All()[|seen|]]) else ScanDone(seen), s.mem)
      case WriteStart(kvs, id) => (Writing(kvs, id, 0), s.mem)
      case Writing(kvs, id, done) =>
        if done < |kvs| then (Writing(kvs, id, done + 1), WriteOne(s.mem, kvs[done].0, kvs[done].1, id))
        else (Idle, s.mem)
      case FreezeStart => (FreezeWaiting, s.mem)
      case FreezeWaiting => (Freezing, s.mem)
      case Freezing => (Idle, Freeze(s.mem))
      case ClearStart => (ClearWaiting, s.mem)
      case ClearWaiting => (ClearFrozen, s.mem)
      case ClearFrozen => (ClearActive, s.mem.(frozen := []))
      case ClearActive => (Idle, s.mem.(active := []))
      case Idle => (FreezeStart, s.mem)
      case _ => (Idle, s.mem);
    s' := State(mem, s.threads[i := next]);
  }

  /** The thread waits for no lock. */
  predicate NeverBlocks(t: Thread) {
    || t.ReadActive? || t.ReadFrozen? || t.ReadDone? || t.Scanning? || t.ScanDone?
    || t.Writing? || t.Freezing? || t.ClearFrozen? || t.ClearActive?
  }

  /** It waits for the lock on the frozen tables, perhaps holding the other one. */
  predicate WantsFrozen(t: Thread) {
    t.ReadGap? || t.ScanWaiting? || t.FreezeWaiting? || t.ClearWaiting?
  }

  /** No deadlock: since the locks are always taken in the same order, in every
      state of every execution with an operation under way, some thread with an
      operation under way can move. */
  lemma SomeThreadCanMove(tr: seq<State>, t: nat)
    requires Execution(tr) && t < |tr| && MidOperation(tr[t])
    ensures exists s', i: nat :: Step(tr[t], s', i) && tr[t].threads[i] != Idle
  {
    hide Step;
    var s := tr[t];
    FoundAlwaysFits(tr, t);
    var i :| 0 <= i < |s.threads| && s.threads[i] != Idle;
    if j :| 0 <= j < |s.threads| && NeverBlocks(s.threads[j]) {
      var s' := GrantedMove(s, j);
    } else if j :| 0 <= j < |s.threads| && WantsFrozen(s.threads[j]) {
      var s' := GrantedMove(s, j);
    } else {
      var s' := GrantedMove(s, i);
    }
  }

  // -------------------------------------------- when a batched read is atomic

  /** Some key is in the active table and some non-empty key is not. */
  ghost predicate Mixed(mem: Mem, keys: seq<Bytes>) {
    exists k0, k1 :: Parted(mem, keys, k0, k1)
  }

  predicate Parted(mem: Mem, keys: seq<Bytes>, k0: Bytes, k1: Bytes) {
    k0 in keys && k1 in keys && InActive(mem, k0).Some? && k1 != [] && InActive(mem, k1).None?
  }

  /** All results of a read stem from one quiet instant between its two checks. */
  ghost predicate Snapshot(tr: seq<State>, keys: seq<Bytes>, a: nat, b: nat, results: seq<Option<Entry>>)
    requires b < |tr|
  {
    exists j :: a <= j <= b && Quiet(tr[j]) && AllFrom(tr[j].mem, keys, results)
  }

  /** In every execution every read of these keys that checks the active table
      when the memtable is `mem` is a snapshot. */
  ghost predicate AlwaysSnapshot(mem: Mem, keys: seq<Bytes>) {
    forall tr: seq<State>, r: nat, a: nat, b: nat, results: seq<Option<Entry>> |
      Execution(tr) && ReadSpan(tr, r, keys, a, b, results) && tr[a].mem == mem ::
      Snapshot(tr, keys, a, b, results)
  }

  /** A batched read is atomic, whatever runs beside it, if and only if its first
      phase finds all of the non-empty keys or none of them. A point lookup always
      is. */
  lemma BatchedReadAtomicIff(mem: Mem, keys: seq<Bytes>)
    requires Sorted(mem.active)
    ensures AlwaysSnapshot(mem, keys) <==> !Mixed(mem, keys)
    ensures |keys| <= 1 ==> AlwaysSnapshot(mem, keys)
  {
    hide ReadSpan, Execution, Snapshot, InActive;
    if k0, k1 :| Parted(mem, keys, k0, k1) {
      var tr, results := TornTrace(mem, keys, k0, k1), TornResults(mem, keys, k0, k1);
      TornReadTears(mem, keys, k0, k1);
      assert ReadSpan(tr, 0, keys, 2, 11, results) && tr[2].mem == mem;
      assert !Snapshot(tr, keys, 2, 11, results);
    } else {
      forall tr: seq<State>, r: nat, a: nat, b: nat, results: seq<Option<Entry>> |
        Execution(tr) && ReadSpan(tr, r, keys, a, b, results) && tr[a].mem == mem
        ensures Snapshot(tr, keys, a, b, results)
      {
        UnmixedIsSnapshot(tr, r, keys, a, b, results);
      }
    }
  }

  lemma UnmixedIsSnapshot(tr: seq<State>, r: nat, keys: seq<Bytes>, a: nat, b: nat, results: seq<Option<Entry>>)
    requires Execution(tr) && ReadSpan(tr, r, keys, a, b, results) && !Mixed(tr[a].mem, keys)
    ensures Snapshot(tr, keys, a, b, results)
  {
    hide Execution, Overlay, Lookup, Quiet;
    var mem := tr[a].mem;
    var j := ReadDrawsOnTwoInstants(tr, r, keys, a, b, results);
    if p0 :| 0 <= p0 < |keys| && InActive(mem, keys[p0]).Some? {
      forall p | 0 <= p < |keys|
        ensures results[p] == Get(mem, keys[p])
      {
        assert !Parted(mem, keys, keys[p0], keys[p]);
      }
      assert AllFrom(tr[a].mem, keys, results);
    } else {
      assert AllFrom(tr[j].mem, keys, results);
    }
  }

  // The execution that tears a read: while the reader stands between its phases
  // one batch overwrites a key it has found, writes a key it has missed, and
  // freezes.

  function TornBatch(mem: Mem, k0: Bytes, k1: Bytes): seq<(Bytes, Bytes)> {
    [(k0, OtherValue(InActive(mem, k0))), (k1, OtherValue(Get(mem, k1)))]
  }

  function OtherValue(e: Option<Entry>): (v: Bytes)
    ensures e.Some? ==> v != e.value.value
  {
    match e
    case Some(x) => x.value + [0]
    case None => []
  }

  function TornMem(mem: Mem, k0: Bytes, k1: Bytes, t: nat): Mem {
    var kvs := TornBatch(mem, k0, k1);
    if t <= 5 then mem
    else if t == 6 then WriteMany(mem, kvs[..1], 0)
    else if t <= 9 then WriteMany(mem, kvs, 0)
    else Freeze(WriteMany(mem, kvs, 0))
  }

  function TornResults(mem: Mem, keys: seq<Bytes>, k0: Bytes, k1: Bytes): (r: seq<Option<Entry>>)
    ensures |r| == |keys|
  {
    SecondPhase(TornMem(mem, k0, k1, 11), keys, FirstPhase(mem, keys))
  }

  function TornReader(mem: Mem, keys: seq<Bytes>, k0: Bytes, k1: Bytes, t: nat): Thread {
    var found := FirstPhase(mem, keys);
    if t == 0 then Idle
    else if t == 1 then ReadStart(keys)
    else if t == 2 then ReadActive(keys)
    else if t <= 10 then ReadGap(keys, found)
    else if t == 11 then ReadFrozen(keys, found)
    else ReadDone(keys, TornResults(mem, keys, k0, k1))
  }

  function TornWriter(kvs: seq<(Bytes, Bytes)>, t: nat): Thread {
    if t <= 3 then Idle
    else if t == 4 then WriteStart(kvs, 0)
    else if t <= 7 then Writing(kvs, 0, t - 5)
    else if t == 8 then FreezeWaiting
    else if t == 9 then Freezing
    else Idle
  }

  function TornState(mem: Mem, keys: seq<Bytes>, k0: Bytes, k1: Bytes, t: nat): State {
    State(TornMem(mem, k0, k1, t),
          [TornReader(mem, keys, k0, k1, t), TornWriter(TornBatch(mem, k0, k1), t)])
  }

  function TornTrace(mem: Mem, keys: seq<Bytes>, k0: Bytes, k1: Bytes): (tr: seq<State>)
    ensures |tr| == 13 && forall t | 0 <= t < 13 :: tr[t] == TornState(mem, keys, k0, k1, t)
  {
    seq(13, t requires 0 <= t < 13 => TornState(mem, keys, k0, k1, t))
  }

  /** For any tables and keys of which some are in the active table and some not,
      it is an execution, and no instant of the read has all answers. */
  lemma TornReadTears(mem: Mem, keys: seq<Bytes>, k0: Bytes, k1: Bytes)
    requires Sorted(mem.active) && Parted(mem, keys, k0, k1)
    ensures var tr, results := TornTrace(mem, keys, k0, k1), TornResults(mem, keys, k0, k1);
            && Execution(tr) && ReadSpan(tr, 0, keys, 2, 11, results)
            && tr[2].mem == mem && !Snapshot(tr, keys, 2, 11, results)
  {
    hide Step, TornMem, TornBatch, AllFrom, Quiet, Parted;
    var tr, results := TornTrace(mem, keys, k0, k1), TornResults(mem, keys, k0, k1);
    forall t | 0 <= t < |tr| - 1
      ensures Next(tr[t], tr[t + 1])
    {
      if t <= 2 || t >= 10 {
        ReaderStep(mem, keys, k0, k1, t);
      } else {
        WriterStep(mem, keys, k0, k1, t);
      }
    }
    forall j | 2 <= j <= 11
      ensures !AllFrom(tr[j].mem, keys, results)
    {
      NeverBoth(mem, keys, k0, k1, j);
    }
    assert tr[2].mem == mem by {
      TornMemStart(mem, k0, k1);
    }
  }

  lemma TornMemStart(mem: Mem, k0: Bytes, k1: Bytes)
    ensures TornMem(mem, k0, k1, 2) == mem
  {
  }

  lemma ReaderStep(mem: Mem, keys: seq<Bytes>, k0: Bytes, k1: Bytes, t: nat)
    requires (t <= 2 || 10 <= t <= 11) && Parted(mem, keys, k0, k1)
    ensures Step(TornState(mem, keys, k0, k1, t), TornState(mem, keys, k0, k1, t + 1), 0)
  {
    hide WriteMany, Freeze, InActive, InFrozen, Get;
    var p :| 0 <= p < |keys| && keys[p] == k1;
    assert FirstPhase(mem, keys)[p] == None;
  }

  lemma WriterStep(mem: Mem, keys: seq<Bytes>, k0: Bytes, k1: Bytes, t: nat)
    requires 3 <= t <= 9
    ensures Step(TornState(mem, keys, k0, k1, t), TornState(mem, keys, k0, k1, t + 1), 1)
  {
    hide WriteOne, WriteMany, Freeze, InActive, InFrozen, Get, FirstPhase, SecondPhase;
    var kvs := TornBatch(mem, k0, k1);
    NoWriteYet(mem, kvs, 0);
    OneMoreWrite(mem, kvs, 0, 0);
    OneMoreWrite(mem, kvs, 1, 0);
    assert kvs[..2] == kvs;
  }

  /** Until the batch starts the missed key does not have its later value, and
      from then on the found one no longer has its earlier value. */
  lemma NeverBoth(mem: Mem, keys: seq<Bytes>, k0: Bytes, k1: Bytes, j: nat)
    requires Sorted(mem.active) && Parted(mem, keys, k0, k1) && 2 <= j <= 11
    ensures !AllFrom(TornMem(mem, k0, k1, j), keys, TornResults(mem, keys, k0, k1))
  {
    hide Lookup, Write, WriteMany, Freeze, Sorted;
    var kvs, results := TornBatch(mem, k0, k1), TornResults(mem, keys, k0, k1);
    var p0 :| 0 <= p0 < |keys| && keys[p0] == k0;
    var p1 :| 0 <= p1 < |keys| && keys[p1] == k1;
    TornValues(mem, k0, k1);
    if j <= 5 {
      assert results[p1] == InFrozen(TornMem(mem, k0, k1, 11), k1);
    } else {
      assert results[p0] == InActive(mem, k0);
    }
  }

  /** What the tables hold for the two keys while and after the batch is written. */
  lemma TornValues(mem: Mem, k0: Bytes, k1: Bytes)
    requires Sorted(mem.active) && k0 != k1 && k0 != [] && k1 != []
    ensures var kvs := TornBatch(mem, k0, k1);
            && Holds(Get(WriteMany(mem, kvs[..1], 0), k0), kvs[0].1)
            && Holds(Get(WriteMany(mem, kvs, 0), k0), kvs[0].1)
            && Holds(Get(Freeze(WriteMany(mem, kvs, 0)), k0), kvs[0].1)
            && Holds(InFrozen(Freeze(WriteMany(mem, kvs, 0)), k1), kvs[1].1)
  {
    hide Lookup, Write, WriteMany, Sorted, TotalBytes;
    var kvs := TornBatch(mem, k0, k1);
    NoWriteYet(mem, kvs, 0);
    OneMoreWrite(mem, kvs, 0, 0);
    OneMoreWrite(mem, kvs, 1, 0);
    assert kvs[..2] == kvs;
    var m1 := WriteMany(mem, kvs[..1], 0);
    WriteIsUpdate(mem.active, k0, kvs[0].1, 0);
    WriteIsUpdate(m1.active, k1, kvs[1].1, 0);
    var m2 := WriteMany(mem, kvs, 0);
    OverlayEmptyTable(m2.All(), k0);
  }

  predicate Holds(e: Option<Entry>, value: Bytes) {
    e.Some? && e.value.value == value
  }

  const OLD: Entry := Entry([1], [7], 0)

  /** The smallest case: two keys, the first one in the active table. The read
      gets the first key's value from before the batch and the second one's from
      after it. */
  lemma BatchedReadIsNotAtomic()
    ensures var (mem, keys) := (Mem([OLD], [], 0), [[1], [2]]);
            && TornBatch(mem, [1], [2]) == [([1], [7, 0]), ([2], [])]
            && TornResults(mem, keys, [1], [2]) == [Some(OLD), Some(Entry([2], [], 0))]
            && !AlwaysSnapshot(mem, keys)
  {
    hide AlwaysSnapshot, Sorted, TornBatch, TornResults, InActive, Get;
    var (mem, keys) := (Mem([OLD], [], 0), [[1], [2]]);
    OneEntry();
    SmallestResults();
    assert Parted(mem, keys, keys[0], keys[1]);
    BatchedReadAtomicIff(mem, keys);
  }

  /** A table with one entry finds it and nothing else. */
  lemma OneEntry()
    ensures var mem := Mem([OLD], [], 0);
            && Sorted(mem.active) && InActive(mem, [1]) == Some(OLD)
            && InActive(mem, [2]) == None && Get(mem, [2]) == None
            && TornBatch(mem, [1], [2]) == [([1], [7, 0]), ([2], [])]
  {
    var mem := Mem([OLD], [], 0);
    assert mem.All() == [[OLD]];
    OverlayFirst([[OLD]], [2], 1);
    assert OtherValue(Some(OLD)) == [7, 0];
  }

  lemma SmallestResults()
    ensures TornResults(Mem([OLD], [], 0), [[1], [2]], [1], [2]) == [Some(OLD), Some(Entry([2], [], 0))]
  {
    hide TotalBytes, TornBatch, OtherValue, Get;
    var (mem, keys) := (Mem([OLD], [], 0), [[1], [2]]);
    var kvs := TornBatch(mem, [1], [2]);
    OneEntry();
    NoWriteYet(mem, kvs, 0);
    OneMoreWrite(mem, kvs, 0, 0);
    OneMoreWrite(mem, kvs, 1, 0);
    assert kvs[..2] == kvs;
    var results := TornResults(mem, keys, [1], [2]);
    assert results[0] == InActive(mem, [1]);
    assert results[1] == InFrozen(TornMem(mem, [1], [2], 11), [2]);
  }
}
