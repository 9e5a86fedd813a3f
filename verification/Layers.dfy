/** The memtable as a value: an active table over frozen ones, newest first. */
module Layers {
  import opened Keys
  import opened Tables

  datatype Mem = Mem(active: Table, frozen: seq<Table>, frozenBytes: nat) {
    /** All tables, newest first. */
    function All(): seq<Table> {
      [active] + frozen
    }
  }

  const EMPTY: Mem := Mem([], [], 0)

  /** The newest version of a key: the first table that has it decides. */
  function Overlay(tables: seq<Table>, key: Bytes): Option<Entry> {
    if tables == [] then None
    else if Lookup(tables[0], key).Some? then Lookup(tables[0], key)
    else Overlay(tables[1..], key)
  }

  function ValueOf(e: Option<Entry>): Option<Bytes> {
    match e
    case Some(x) => Some(x.value)
    case None => None
  }

  /** The newest value each key has in a stack of tables. */
  function TablesHeld(tables: seq<Table>): Bytes -> Option<Bytes> {
    key => ValueOf(Overlay(tables, key))
  }

  /** What `get` finds; a stored empty key is never reported as found. */
  function Get(m: Mem, key: Bytes): Option<Entry> {
    if key == [] then None else Overlay(m.All(), key)
  }

  /** What its first part, the check of the active table, finds. */
  function InActive(m: Mem, key: Bytes): Option<Entry> {
    if key == [] then None else Lookup(m.active, key)
  }

  /** And what the second part, the check of the frozen tables, finds. */
  function InFrozen(m: Mem, key: Bytes): Option<Entry> {
    if key == [] then None else Overlay(m.frozen, key)
  }

  /** What the first part finds stands, and what it misses the second decides; the
      empty key is never found. */
  lemma GetInTwoParts(m: Mem, key: Bytes)
    ensures Get(m, []) == None
    ensures Get(m, key) == if InActive(m, key).Some? then InActive(m, key) else InFrozen(m, key)
  {
    assert m.All()[1..] == m.frozen;
  }

  // --------------------------------------------------------------- operations

  function Freeze(m: Mem): Mem {
    Mem([], [m.active] + m.frozen, Wrap64(m.frozenBytes + Wrap64(TotalBytes(m.active))))
  }

  /** The end of every public write: freeze when the active table's size is over
      the limit. */
  function Settle(m: Mem, limit: nat): Mem {
    if Wrap64(TotalBytes(m.active)) > limit then Freeze(m) else m
  }

  function WriteOne(m: Mem, key: Bytes, value: Bytes, trancId: nat): Mem {
    m.(active := Write(m.active, key, value, trancId))
  }

  function WriteMany(m: Mem, kvs: seq<(Bytes, Bytes)>, trancId: nat): Mem {
    if kvs == [] then m
    else
      var n := |kvs| - 1;
      WriteOne(WriteMany(m, kvs[..n], trancId), kvs[n].0, kvs[n].1, trancId)
  }

  /** Deleting is writing the empty value. */
  function Tombstones(keys: seq<Bytes>): (r: seq<(Bytes, Bytes)>)
    ensures |r| == |keys|
    ensures forall i | 0 <= i < |keys| :: r[i] == (keys[i], [])
  {
    seq(|keys|, i requires 0 <= i < |keys| => (keys[i], []))
  }

  function Cleared(m: Mem): Mem {
    Mem([], [], m.frozenBytes)
  }

  /** `flush_last`: the table handed to the SST builder, if any, and what stays. */
  function FlushLast(m: Mem): (Option<Table>, Mem) {
    if m.frozen == [] && Wrap64(TotalBytes(m.active)) == 0 then (None, m)
    else
      var f := if m.frozen == [] then Freeze(m) else m;
      var n := |f.frozen| - 1;
      (Some(f.frozen[n]),
       Mem(f.active, f.frozen[..n], Wrap64(f.frozenBytes - Wrap64(TotalBytes(f.frozen[n])))))
  }

  datatype Op =
    | Put(key: Bytes, value: Bytes, trancId: nat)
    | PutBatch(kvs: seq<(Bytes, Bytes)>, trancId: nat)
    | Remove(key: Bytes, trancId: nat)
    | RemoveBatch(keys: seq<Bytes>, trancId: nat)
    | FreezeNow
    | Clear
    | Flush

  /** The writes an operation makes to the active table, in order. */
  function Writes(op: Op): seq<(Bytes, Bytes)> {
    match op
    case Put(k, v, _) => [(k, v)]
    case PutBatch(kvs, _) => kvs
    case Remove(k, _) => [(k, [])]
    case RemoveBatch(ks, _) => Tombstones(ks)
    case FreezeNow => []
    case Clear => []
    case Flush => []
  }

  predicate IsWrite(op: Op) {
    op.Put? || op.PutBatch? || op.Remove? || op.RemoveBatch?
  }

  function Apply(m: Mem, op: Op, limit: nat): Mem {
    match op
    case FreezeNow => Freeze(m)
    case Clear => Cleared(m)
    case Flush => FlushLast(m).1
    case _ => Settle(WriteMany(m, Writes(op), op.trancId), limit)
  }

  function Run(ops: seq<Op>, limit: nat): Mem {
    if ops == [] then EMPTY
    else Apply(Run(ops[..|ops| - 1], limit), ops[|ops| - 1], limit)
  }

  // ---------------------------------------------------------- basic invariants

  ghost predicate AllSorted(tables: seq<Table>) {
    forall i | 0 <= i < |tables| :: Sorted(tables[i])
  }

  lemma {:induction false} WriteManySorted(m: Mem, kvs: seq<(Bytes, Bytes)>, trancId: nat)
    requires AllSorted(m.All())
    ensures var m' := WriteMany(m, kvs, trancId);
            AllSorted(m'.All()) && m'.frozen == m.frozen && m'.frozenBytes == m.frozenBytes
  {
    hide Write, Sorted, Lookup;
    if kvs == [] {
    } else {
      var n := |kvs| - 1;
      WriteManySorted(m, kvs[..n], trancId);
      var before := WriteMany(m, kvs[..n], trancId);
      assert Sorted(before.All()[0]);
      WriteIsUpdate(before.active, kvs[n].0, kvs[n].1, trancId);
      forall i | 0 <= i < |WriteMany(m, kvs, trancId).All()|
        ensures Sorted(WriteMany(m, kvs, trancId).All()[i])
      {
        assert i > 0 ==> WriteMany(m, kvs, trancId).All()[i] == before.All()[i];
      }
    }
  }

  lemma WriteManySingle(m: Mem, key: Bytes, value: Bytes, trancId: nat)
    ensures WriteMany(m, [(key, value)], trancId) == WriteOne(m, key, value, trancId)
  {
    assert [(key, value)][..0] == [];
  }

  /** One answer of a batched lookup: tombstones stay distinct from absence. */
  function Tagged(key: Bytes, found: Option<Entry>): (Bytes, Option<(Bytes, nat)>) {
    (key, match found
          case Some(e) => Some((e.value, e.trancId))
          case None => None)
  }

  lemma FreezeTables(m: Mem)
    ensures Freeze(m).All() == [[]] + m.All()
  {
  }

  lemma FlushTables(m: Mem)
    ensures var (t, m') := FlushLast(m);
            match t
            case None => m' == m
            case Some(data) => m'.All() + [data] == m.All() || m'.All() + [data] == [[]] + m.All()
  {
    FreezeTables(m);
    var f := if m.frozen == [] then Freeze(m) else m;
    var n := |f.frozen| - 1;
    if n >= 0 {
      assert f.frozen == f.frozen[..n] + [f.frozen[n]];
    }
  }

  lemma ApplySorted(m: Mem, op: Op, limit: nat)
    requires AllSorted(m.All())
    ensures AllSorted(Apply(m, op, limit).All())
  {
    hide Sorted;
    assert Sorted([]) by {
      EmptySorted();
    }
    match op
    case FreezeNow => FreezeTables(m);
    case Clear =>
    case Flush =>
      FlushTables(m);
      var (t, m') := FlushLast(m);
      if t.Some? {
        forall i | 0 <= i < |m'.All()|
          ensures Sorted(m'.All()[i])
        {
          assert m'.All()[i] == (m'.All() + [t.value])[i];
        }
      }
    case _ =>
      WriteManySorted(m, Writes(op), op.trancId);
      FreezeTables(WriteMany(m, Writes(op), op.trancId));
  }

  lemma EmptySorted()
    ensures Sorted([])
  {
  }

  lemma {:induction false} RunSorted(ops: seq<Op>, limit: nat)
    ensures AllSorted(Run(ops, limit).All())
  {
    if ops == [] {
      EmptySorted();
    } else {
      RunSorted(ops[..|ops| - 1], limit);
      ApplySorted(Run(ops[..|ops| - 1], limit), ops[|ops| - 1], limit);
    }
  }

  // --------------------------------------------------------- last write wins

  /** The first table that has a key decides; with none before it, that is it. */
  lemma {:induction false} OverlayFirst(tables: seq<Table>, key: Bytes, n: nat)
    requires n <= |tables| && forall i | 0 <= i < n :: Lookup(tables[i], key).None?
    ensures n == |tables| ==> Overlay(tables, key).None?
    ensures n < |tables| && Lookup(tables[n], key).Some? ==> Overlay(tables, key) == Lookup(tables[n], key)
  {
    if n == 0 {
    } else {
      OverlayFirst(tables[1..], key, n - 1);
    }
  }

  lemma {:induction false} OverlayConcat(a: seq<Table>, b: seq<Table>, key: Bytes)
    ensures Overlay(a + b, key) == if Overlay(a, key).Some? then Overlay(a, key) else Overlay(b, key)
  {
    if a == [] {
      assert a + b == b;
    } else {
      assert (a + b)[1..] == a[1..] + b;
      OverlayConcat(a[1..], b, key);
    }
  }

  lemma OverlayEmptyTable(tables: seq<Table>, key: Bytes)
    ensures Overlay([[]] + tables, key) == Overlay(tables, key)
  {
    assert ([[]] + tables)[1..] == tables;
  }

  /** The value last written to a key in a history of writes. */
  function LastValue(history: seq<(Bytes, Bytes)>, key: Bytes): Option<Bytes> {
    if history == [] then None
    else
      var n := |history| - 1;
      if history[n].0 == key then Some(history[n].1) else LastValue(history[..n], key)
  }

  /** The writes of a run since its last `clear`. */
  function History(ops: seq<Op>): seq<(Bytes, Bytes)> {
    if ops == [] then []
    else
      var n := |ops| - 1;
      if ops[n].Clear? then [] else History(ops[..n]) + Writes(ops[n])
  }

  /** The newest value each table stack holds is the last one written. */
  ghost predicate HoldsHistory(tables: seq<Table>, history: seq<(Bytes, Bytes)>) {
    forall k ::
      match Overlay(tables, k)
      case Some(e) => LastValue(history, k) == Some(e.value)
      case None => LastValue(history, k) == None
  }

  lemma {:induction false} WriteManyHolds(m: Mem, older: seq<Table>, kvs: seq<(Bytes, Bytes)>, trancId: nat,
                                          history: seq<(Bytes, Bytes)>)
    requires AllSorted(m.All()) && HoldsHistory(m.All() + older, history)
    ensures HoldsHistory(WriteMany(m, kvs, trancId).All() + older, history + kvs)
  {
    if kvs == [] {
      assert history + kvs == history;
    } else {
      var n := |kvs| - 1;
      var before := WriteMany(m, kvs[..n], trancId);
      WriteManyHolds(m, older, kvs[..n], trancId, history);
      WriteManySorted(m, kvs[..n], trancId);
      assert history + kvs == (history + kvs[..n]) + [kvs[n]];
      WriteOneHolds(before, older, kvs[n].0, kvs[n].1, trancId, history + kvs[..n]);
    }
  }

  lemma WriteOneHolds(m: Mem, older: seq<Table>, key: Bytes, value: Bytes, trancId: nat, history: seq<(Bytes, Bytes)>)
    requires AllSorted(m.All()) && HoldsHistory(m.All() + older, history)
    ensures HoldsHistory(WriteOne(m, key, value, trancId).All() + older, history + [(key, value)])
  {
    hide Write, Lookup, LastValue, Overlay, Sorted;
    var m' := WriteOne(m, key, value, trancId);
    assert Sorted(m.All()[0]);
    WriteIsUpdate(m.active, key, value, trancId);
    forall k
      ensures match Overlay(m'.All() + older, k)
              case Some(e) => LastValue(history + [(key, value)], k) == Some(e.value)
              case None => LastValue(history + [(key, value)], k) == None
    {
      OverlaySplit(m, older, k);
      OverlaySplit(m', older, k);
      LastValueSnoc(history, key, value, k);
    }
  }

  lemma OverlaySplit(m: Mem, older: seq<Table>, key: Bytes)
    ensures Overlay(m.All() + older, key) ==
            if Lookup(m.active, key).Some? then Lookup(m.active, key) else Overlay(m.frozen + older, key)
  {
    hide Lookup;
    assert (m.All() + older)[1..] == m.frozen + older;
  }

  lemma LastValueSnoc(history: seq<(Bytes, Bytes)>, key: Bytes, value: Bytes, k: Bytes)
    ensures LastValue(history + [(key, value)], k) == if k == key then Some(value) else LastValue(history, k)
  {
    assert (history + [(key, value)])[..|history|] == history;
  }

  // ------------------------------------------------ what each operation does

  /** The last value of a list of pairs is that of its last pair with the key. */
  lemma {:induction false} LastValueAt(kvs: seq<(Bytes, Bytes)>, key: Bytes, i: nat)
    requires i < |kvs| && kvs[i].0 == key && forall j | i < j < |kvs| :: kvs[j].0 != key
    ensures LastValue(kvs, key) == Some(kvs[i].1)
  {
    if i == |kvs| - 1 {
    } else {
      LastValueAt(kvs[..|kvs| - 1], key, i);
    }
  }

  /** Never written means absent from the history. */
  lemma {:induction false} NeverWritten(history: seq<(Bytes, Bytes)>, key: Bytes)
    ensures LastValue(history, key) == None <==> forall i | 0 <= i < |history| :: history[i].0 != key
  {
    if history == [] {
    } else {
      NeverWritten(history[..|history| - 1], key);
    }
  }

  /** The version a list of writes leaves: its last value, under the id the key
      already had in the active table, or else under the writer's. */
  lemma {:induction false} WriteManyVersion(m: Mem, kvs: seq<(Bytes, Bytes)>, trancId: nat, key: Bytes)
    requires AllSorted(m.All())
    ensures Lookup(WriteMany(m, kvs, trancId).active, key) ==
            match LastValue(kvs, key)
            case Some(v) => Some(Entry(key, v, FirstId(m, key, trancId)))
            case None => Lookup(m.active, key)
  {
    hide Write, Lookup, Sorted;
    if kvs == [] {
    } else {
      var n := |kvs| - 1;
      var before := WriteMany(m, kvs[..n], trancId);
      WriteManyVersion(m, kvs[..n], trancId, key);
      WriteManySorted(m, kvs[..n], trancId);
      assert Sorted(before.All()[0]);
      WriteIsUpdate(before.active, kvs[n].0, kvs[n].1, trancId);
      if key == kvs[n].0 {
        FoundUnderKey(m.active, key);
      }
    }
  }

  function FirstId(m: Mem, key: Bytes, trancId: nat): nat {
    match Lookup(m.active, key)
    case Some(e) => e.trancId
    case None => trancId
  }

  lemma FoundUnderKey(t: Table, key: Bytes)
    ensures Lookup(t, key).Some? ==> Lookup(t, key).value.key == key
  {
  }

  /** The value an operation leaves for a key, if it writes it. */
  ghost function Effect(op: Op, key: Bytes): Option<Bytes> {
    match op
    case Put(k, v, _) => if key == k then Some(v) else None
    case PutBatch(kvs, _) => LastValue(kvs, key)
    case Remove(k, _) => if key == k then Some([]) else None
    case RemoveBatch(ks, _) => if key in ks then Some([]) else None
    case _ => None
  }

  lemma WritesEffect(op: Op, key: Bytes)
    ensures LastValue(Writes(op), key) == Effect(op, key)
  {
    match op
    case Put(k, v, _) => LastValueSnoc([], k, v, key);
    case Remove(k, _) => LastValueSnoc([], k, [], key);
    case RemoveBatch(ks, _) => TombstonesEffect(ks, key);
    case _ =>
  }

  lemma {:induction false} TombstonesEffect(keys: seq<Bytes>, key: Bytes)
    ensures LastValue(Tombstones(keys), key) == if key in keys then Some([]) else None
  {
    if keys == [] {
    } else {
      var n := |keys| - 1;
      TombstonesEffect(keys[..n], key);
      assert Tombstones(keys)[..n] == Tombstones(keys[..n]);
      assert keys == keys[..n] + [keys[n]];
    }
  }

  /** What every operation but a flush does to a key, for every limit: a write
      leaves its value, under the first id of the active table or its own, a freeze
      leaves every version, and a clear leaves none. */
  lemma OperationEffect(m: Mem, op: Op, limit: nat, key: Bytes)
    requires AllSorted(m.All()) && !op.Flush?
    ensures Overlay(Apply(m, op, limit).All(), key) ==
            if op.Clear? then None
            else match Effect(op, key)
                 case Some(v) => Some(Entry(key, v, FirstId(m, key, op.trancId)))
                 case None => Overlay(m.All(), key)
  {
    hide Lookup, Write, WriteMany, TotalBytes, LastValue;
    if op.FreezeNow? {
      FreezeTables(m);
      OverlayEmptyTable(m.All(), key);
    } else if op.Clear? {
      OverlayFirst([[]], key, 1) by {
        NothingStored(key);
      }
    } else {
      var m' := WriteMany(m, Writes(op), op.trancId);
      WritesEffect(op, key);
      WriteManyVersion(m, Writes(op), op.trancId, key);
      WriteManySorted(m, Writes(op), op.trancId);
      OverlaySplit(m, [], key);
      OverlaySplit(m', [], key);
      assert m.All() + [] == m.All() && m'.All() + [] == m'.All();
      FreezeTables(m');
      OverlayEmptyTable(m'.All(), key);
    }
  }

  lemma NothingStored(key: Bytes)
    ensures Lookup([], key) == None
  {
  }

  /** A batch of removals deletes every one of its keys and changes no other. */
  lemma RemoveBatchDeletes(m: Mem, keys: seq<Bytes>, trancId: nat, limit: nat, k: Bytes)
    requires AllSorted(m.All())
    ensures TablesHeld(Apply(m, RemoveBatch(keys, trancId), limit).All())(k) ==
            if k in keys then Some([]) else TablesHeld(m.All())(k)
  {
    hide Apply, Overlay;
    OperationEffect(m, RemoveBatch(keys, trancId), limit, k);
  }

  /** A batch of writes leaves, for each of its keys, the value of the last pair
      with that key, and changes no other key. */
  lemma PutBatchKeepsLast(m: Mem, kvs: seq<(Bytes, Bytes)>, trancId: nat, limit: nat, k: Bytes)
    requires AllSorted(m.All())
    ensures var held := TablesHeld(Apply(m, PutBatch(kvs, trancId), limit).All())(k);
            && (forall i | 0 <= i < |kvs| && kvs[i].0 == k && (forall j | i < j < |kvs| :: kvs[j].0 != k) ::
                  held == Some(kvs[i].1))
            && ((forall i | 0 <= i < |kvs| :: kvs[i].0 != k) ==> held == TablesHeld(m.All())(k))
  {
    hide Apply, Overlay, LastValue;
    OperationEffect(m, PutBatch(kvs, trancId), limit, k);
    NeverWritten(kvs, k);
    forall i: nat | i < |kvs| && kvs[i].0 == k && (forall j | i < j < |kvs| :: kvs[j].0 != k)
      ensures LastValue(kvs, k) == Some(kvs[i].1)
    {
      LastValueAt(kvs, k, i);
    }
  }

  /** A write freezes exactly if the table written is over the limit afterwards:
      that table is then the newest frozen one and the active one is empty. */
  lemma WriteFreezesIff(m: Mem, op: Op, limit: nat)
    requires AllSorted(m.All()) && IsWrite(op)
    ensures var m' := Apply(m, op, limit);
            var froze := |m'.frozen| > |m.frozen|;
            var written := if froze then m'.frozen[0] else m'.active;
            && (froze <==> Wrap64(TotalBytes(written)) > limit)
            && (froze ==> m'.active == [] && m'.frozen[1..] == m.frozen)
            && (!froze ==> m'.frozen == m.frozen && m'.frozenBytes == m.frozenBytes)
  {
    hide TotalBytes, Wrap64, WriteMany, Sorted;
    WriteManySorted(m, Writes(op), op.trancId);
  }

  /** With `flushed` the tables handed to SST builders, newest first. */
  function RunFlushed(ops: seq<Op>, limit: nat): seq<Table> {
    if ops == [] then []
    else
      var n := |ops| - 1;
      var before := RunFlushed(ops[..n], limit);
      if ops[n].Clear? then []
      else if ops[n].Flush? then
        match FlushLast(Run(ops[..n], limit)).0
        case Some(t) => [t] + before
        case None => before
      else before
  }

  /** `flush_last` moves the oldest table below all others: lookups over memory
      and then the flushed tables see no difference, also when the active table
      is frozen on the spot. */
  lemma FlushPreservesLookups(m: Mem, flushed: seq<Table>, key: Bytes)
    ensures var (t, m') := FlushLast(m);
            Overlay(m'.All() + (match t case Some(data) => [data] + flushed case None => flushed), key)
            == Overlay(m.All() + flushed, key)
  {
    var (t, m') := FlushLast(m);
    FlushTables(m);
    if t.Some? {
      var data := t.value;
      assert m'.All() + ([data] + flushed) == (m'.All() + [data]) + flushed;
      assert ([[]] + m.All()) + flushed == [[]] + (m.All() + flushed);
      OverlayEmptyTable(m.All() + flushed, key);
    }
  }

  /** Last write wins over whole runs, wherever freezes and flushes fall. */
  lemma {:induction false} RunHoldsHistory(ops: seq<Op>, limit: nat)
    ensures HoldsHistory(Run(ops, limit).All() + RunFlushed(ops, limit), History(ops))
  {
    if ops == [] {
      assert EMPTY.All() + [] == [[]];
      assert forall k :: Overlay([[]], k) == None;
    } else {
      var n := |ops| - 1;
      var m, older := Run(ops[..n], limit), RunFlushed(ops[..n], limit);
      RunHoldsHistory(ops[..n], limit);
      RunSorted(ops[..n], limit);
      match ops[n]
      case FreezeNow =>
        FreezeHolds(m, older, History(ops[..n]));
        assert History(ops) == History(ops[..n]);
      case Clear =>
        assert Cleared(m).All() + [] == [[]];
        assert forall k :: Overlay([[]], k) == None;
      case Flush =>
        assert History(ops) == History(ops[..n]);
        forall k
          ensures Overlay(Run(ops, limit).All() + RunFlushed(ops, limit), k) == Overlay(m.All() + older, k)
        {
          FlushPreservesLookups(m, older, k);
        }
      case _ =>
        WriteManyHolds(m, older, Writes(ops[n]), ops[n].trancId, History(ops[..n]));
        FreezeHolds(WriteMany(m, Writes(ops[n]), ops[n].trancId), older, History(ops));
    }
  }

  lemma FreezeHolds(m: Mem, older: seq<Table>, history: seq<(Bytes, Bytes)>)
    requires HoldsHistory(m.All() + older, history)
    ensures HoldsHistory(Freeze(m).All() + older, history)
  {
    FreezeTables(m);
    assert ([[]] + m.All()) + older == [[]] + (m.All() + older);
    forall k
      ensures Overlay(Freeze(m).All() + older, k) == Overlay(m.All() + older, k)
    {
      OverlayEmptyTable(m.All() + older, k);
    }
  }

  /** Without flushes the memtable alone answers with the last value written, and
      with nothing exactly for keys never written since the last clear (and for
      the empty key). */
  lemma LastWriteWins(ops: seq<Op>, limit: nat, key: Bytes)
    requires key != [] && forall i | 0 <= i < |ops| :: !ops[i].Flush?
    ensures match Get(Run(ops, limit), key)
            case Some(e) => LastValue(History(ops), key) == Some(e.value)
            case None => LastValue(History(ops), key) == None
  {
    RunHoldsHistory(ops, limit);
    NothingFlushed(ops, limit);
    var m := Run(ops, limit);
    assert m.All() + [] == m.All();
  }

  lemma {:induction false} NothingFlushed(ops: seq<Op>, limit: nat)
    requires forall i | 0 <= i < |ops| :: !ops[i].Flush?
    ensures RunFlushed(ops, limit) == []
  {
    if ops == [] {
    } else {
      NothingFlushed(ops[..|ops| - 1], limit);
    }
  }

  lemma {:induction false} LastValueConcat(a: seq<(Bytes, Bytes)>, b: seq<(Bytes, Bytes)>, key: Bytes)
    ensures LastValue(a + b, key) == if LastValue(b, key).Some? then LastValue(b, key) else LastValue(a, key)
  {
    if b == [] {
      assert a + b == a;
    } else {
      var n := |b| - 1;
      LastValueConcat(a, b[..n], key);
      assert a + b == (a + b[..n]) + [b[n]];
      LastValueSnoc(a + b[..n], b[n].0, b[n].1, key);
    }
  }

  /** The value the last operation that says anything about a key leaves. */
  ghost function LastEffect(ops: seq<Op>, key: Bytes): Option<Bytes> {
    if ops == [] then None
    else
      var n := |ops| - 1;
      if ops[n].Clear? then None
      else if Effect(ops[n], key).Some? then Effect(ops[n], key)
      else LastEffect(ops[..n], key)
  }

  lemma {:induction false} HistoryEffect(ops: seq<Op>, key: Bytes)
    ensures LastValue(History(ops), key) == LastEffect(ops, key)
  {
    hide LastValue;
    if ops == [] {
      NeverWritten([], key);
    } else {
      var n := |ops| - 1;
      HistoryEffect(ops[..n], key);
      NeverWritten([], key);
      WritesEffect(ops[n], key);
      LastValueConcat(History(ops[..n]), Writes(ops[n]), key);
    }
  }

  /** Over every run, lookup through active, frozen and flushed tables gives for
      every key what the last operation on it left. */
  lemma RunFollowsOperations(ops: seq<Op>, limit: nat, key: Bytes)
    ensures TablesHeld(Run(ops, limit).All() + RunFlushed(ops, limit))(key) == LastEffect(ops, key)
  {
    hide Run, RunFlushed, History, LastValue, Overlay;
    RunHoldsHistory(ops, limit);
    HistoryEffect(ops, key);
  }

  // ----------------------------------------------------- what a flush hands out

  lemma NoBytesNoEntries(t: Table)
    ensures TotalBytes(t) == 0 <==> t == []
  {
  }

  /** A flush hands out the oldest table there is: the last frozen one, leaving the
      rest as it was, or with none frozen the whole active one, leaving only empty
      tables. It hands out nothing exactly if no table is frozen and the active
      one's size is 0, which below 2^64 bytes means that nothing is stored at all. */
  lemma FlushHandsOutOldest(m: Mem)
    ensures var (t, m') := FlushLast(m);
            var n := |m.frozen|;
            && (t.None? <==> n == 0 && Wrap64(TotalBytes(m.active)) == 0)
            && (TotalBytes(m.active) < TWO64 ==> (t.None? <==> m.All() == [[]]))
            && (t.None? ==> m' == m)
            && (n == 0 && t.Some? ==> t == Some(m.active) && m'.All() == [[]])
            && (n > 0 ==> t == Some(m.All()[n]) && m'.All() == m.All()[..n])
  {
    hide TotalBytes, Wrap64;
    NoBytesNoEntries(m.active);
    if TotalBytes(m.active) < TWO64 {
      WrapSmall(TotalBytes(m.active));
    }
  }

  lemma WrapSmall(n: nat)
    requires n < TWO64
    ensures Wrap64(n) == n
  {
  }

  /** So below 2^64 bytes a flush that hands out nothing had nothing to hand out. */
  lemma FlushNothingHeld(m: Mem, key: Bytes)
    requires TotalBytes(m.active) < TWO64 && FlushLast(m).0 == None
    ensures Overlay(m.All(), key) == None
  {
    FlushHandsOutOldest(m);
    OverlayFirst(m.All(), key, 1);
  }

  // -------------------------------------------------------------- byte counts

  function SumBytes(tables: seq<Table>): nat {
    if tables == [] then 0 else TotalBytes(tables[0]) + SumBytes(tables[1..])
  }

  lemma {:induction false} SumBytesConcat(a: seq<Table>, b: seq<Table>)
    ensures SumBytes(a + b) == SumBytes(a) + SumBytes(b)
  {
    if a == [] {
      assert a + b == b;
    } else {
      assert (a + b)[1..] == a[1..] + b;
      SumBytesConcat(a[1..], b);
    }
  }

  /** The frozen bytes dropped by the `clear` calls of a run, which the counter
      keeps counting. */
  function Dropped(ops: seq<Op>, limit: nat): nat {
    if ops == [] then 0
    else
      var n := |ops| - 1;
      Dropped(ops[..n], limit) + if ops[n].Clear? then SumBytes(Run(ops[..n], limit).frozen) else 0
  }

  lemma FreezeBytes(m: Mem, extra: nat)
    requires m.frozenBytes == Wrap64(SumBytes(m.frozen) + extra)
    ensures Freeze(m).frozenBytes == Wrap64(SumBytes(Freeze(m).frozen) + extra)
  {
    hide TotalBytes, Wrap64;
    assert ([m.active] + m.frozen)[1..] == m.frozen;
    WrapAdd(SumBytes(m.frozen) + extra, TotalBytes(m.active));
  }

  lemma SumBytesOne(t: Table)
    ensures SumBytes([t]) == TotalBytes(t)
  {
    hide TotalBytes;
  }

  lemma FlushBytes(m: Mem, extra: nat)
    requires m.frozenBytes == Wrap64(SumBytes(m.frozen) + extra)
    ensures FlushLast(m).1.frozenBytes == Wrap64(SumBytes(FlushLast(m).1.frozen) + extra)
  {
    hide TotalBytes, Wrap64, SumBytes;
    FreezeBytes(m, extra);
    var f := if m.frozen == [] then Freeze(m) else m;
    var n := |f.frozen| - 1;
    if n >= 0 {
      assert f.frozen == f.frozen[..n] + [f.frozen[n]];
      SumBytesConcat(f.frozen[..n], [f.frozen[n]]);
      SumBytesOne(f.frozen[n]);
      WrapAdd(SumBytes(f.frozen) + extra, TotalBytes(f.frozen[n]));
    }
  }

  lemma ApplyBytes(m: Mem, op: Op, limit: nat, extra: nat)
    requires AllSorted(m.All()) && !op.Clear?
    requires m.frozenBytes == Wrap64(SumBytes(m.frozen) + extra)
    ensures var m' := Apply(m, op, limit); m'.frozenBytes == Wrap64(SumBytes(m'.frozen) + extra)
  {
    hide TotalBytes, Wrap64, Freeze, FlushLast, WriteMany, SumBytes, Sorted;
    if op.FreezeNow? {
      FreezeBytes(m, extra);
    } else if op.Flush? {
      FlushBytes(m, extra);
    } else {
      WriteManySorted(m, Writes(op), op.trancId);
      FreezeBytes(WriteMany(m, Writes(op), op.trancId), extra);
    }
  }

  /** Byte conservation over every run: the counter is the size of the frozen
      tables plus everything `clear` dropped, modulo 2^64. */
  lemma {:induction false} FrozenBytesOverRun(ops: seq<Op>, limit: nat)
    ensures Run(ops, limit).frozenBytes == Wrap64(SumBytes(Run(ops, limit).frozen) + Dropped(ops, limit))
  {
    hide TotalBytes, Wrap64, Freeze, FlushLast, WriteMany, Sorted;
    if ops == [] {
      assert Wrap64(0) == 0 by {
        WrapSmall(0);
      }
    } else {
      var n := |ops| - 1;
      FrozenBytesOverRun(ops[..n], limit);
      RunSorted(ops[..n], limit);
      if !ops[n].Clear? {
        ApplyBytes(Run(ops[..n], limit), ops[n], limit, Dropped(ops[..n], limit));
      }
    }
  }

  /** As long as totals fit in 64 bits, the counter is the size of the frozen
      tables exactly if no `clear` has dropped frozen bytes. */
  lemma FrozenBytesExactIff(ops: seq<Op>, limit: nat)
    requires SumBytes(Run(ops, limit).frozen) + Dropped(ops, limit) < TWO64
    ensures Run(ops, limit).frozenBytes == SumBytes(Run(ops, limit).frozen) <==> Dropped(ops, limit) == 0
  {
    hide Wrap64, SumBytes, Run, Dropped;
    FrozenBytesOverRun(ops, limit);
    WrapSmall(SumBytes(Run(ops, limit).frozen) + Dropped(ops, limit));
  }

  /** The smallest drift: a `clear` after a freeze leaves ten bytes counted and
      nothing frozen. */
  lemma ClearLeavesCount(limit: nat)
    ensures var m := Run([Put([1], [2], 0), FreezeNow, Clear], limit);
            m.frozen == [] && m.frozenBytes == 10
  {
    hide Run;
    var ops: seq<Op> := [Put([1], [2], 0), FreezeNow, Clear];
    var o1, o2 := ops[..1], ops[..2];
    assert o1[..0] == [] && o2[..1] == o1 && ops[..3] == ops;
    RunEnds([], limit);
    RunEnds(o1, limit);
    RunEnds(o2, limit);
    RunEnds(ops, limit);
    WriteManySingle(EMPTY, [1], [2], 0);
    var e := Entry([1], [2], 0);
    assert Write([], [1], [2], 0) == [e];
    assert TotalBytes([e]) == 10 && TotalBytes([]) == 0;
  }

  lemma RunEnds(ops: seq<Op>, limit: nat)
    ensures Run(ops, limit) ==
            if ops == [] then EMPTY else Apply(Run(ops[..|ops| - 1], limit), ops[|ops| - 1], limit)
  {
  }

  /** At every point of every run the active table is within the limit. */
  lemma {:induction false} ActiveWithinLimit(ops: seq<Op>, limit: nat)
    ensures Wrap64(TotalBytes(Run(ops, limit).active)) <= limit
  {
    if ops == [] {
    } else {
      var n := |ops| - 1;
      ActiveWithinLimit(ops[..n], limit);
      WrapSmall(TotalBytes([]));
    }
  }
}
