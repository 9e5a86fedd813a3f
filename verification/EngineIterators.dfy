/** Opening a scan of the whole store: the level iterator's constructor over an
    actual memtable, the L0 tables and the deeper levels. */
module EngineIterators {
  import opened Keys
  import opened Tables
  import opened Layers
  import opened SearchItems
  import opened HeapIterators
  import opened Scans
  import opened MemTables
  import opened LevelMerges
  import opened LevelIterators
  import opened EngineScans

  /** Everything a heap iterator still yields, read to its end. */
  method Drain(h: HeapIterator) returns (out: seq<KeyValue>)
    requires h.Valid()
    modifies h`items
    ensures out == old(h.Remaining())
  {
    hide HeapIterator.Valid, HeapIterator.Remaining;
    out := [];
    while !h.IsEnd()
      invariant h.Valid() && out + h.Remaining() == old(h.Remaining())
      decreases |h.items|
    {
      var kv := h.Deref();
      ghost var rest := h.Remaining();
      h.Next();
      assert [kv] + rest[1..] == rest;
      out := out + [kv];
    }
    assert out + [] == out;
  }

  /** One cursor for each source, in order. */
  method OpenCursors(sources: seq<Source>, readId: nat) returns (cursors: seq<Cursor>)
    ensures forall i | 0 <= i < |cursors| :: fresh(cursors[i])
    ensures forall i, j | 0 <= i < j < |cursors| :: cursors[i] != cursors[j]
    ensures RestsOf(cursors) == sources && IdsOf(cursors) == ReportedIds(|sources|, readId)
  {
    cursors := [];
    for i := 0 to |sources|
      invariant |cursors| == i && forall j | 0 <= j < i :: fresh(cursors[j])
      invariant forall j, k | 0 <= j < k < i :: cursors[j] != cursors[k]
      invariant forall j | 0 <= j < i :: cursors[j].rest == sources[j] && cursors[j].trancId == readId
    {
      var c := new Cursor(sources[i], readId);
      cursors := cursors + [c];
    }
  }

  /** The three parts of the constructor, lowest-numbered source first: the
      memtable, the L0 tables in one heap, and the deeper levels. */
  method OpenSources(mem: MemTable, ssts: seq<Sst>, levels: seq<seq<Table>>, readId: nat)
    returns (sources: seq<Source>)
    requires mem.Valid() && StoreFit(mem.Model(), ssts, levels, readId)
    ensures sources == Sources(mem.Model(), ssts, levels, readId)
  {
    hide MemTable.Valid, MemTable.Model, HeapIterator.Valid, HeapIterator.Remaining, Scan, LinearOn, OrderOn, L0Items,
         AllSorted, IdsFollowAge, LevelsSorted, EmptyKeyLast, L0Fit, LevelSources, ItemsFrom;
    ghost var m := mem.Model();
    ItemsLinearIff(m.All());
    var memIter := mem.Begin(readId);
    var memPart := Drain(memIter);
    var itemVec := BuildL0Items(ssts, readId);
    L0Linear(ssts, readId);
    LinearIsOrder(itemVec);
    var l0Iter := new HeapIterator(itemVec, readId);
    var l0Part := Drain(l0Iter);
    var deep := BuildLevelSources(levels);
    sources := [memPart, l0Part] + deep;
  }

  /** A level iterator over a store yields the scan of that store. */
  method OpenScan(mem: MemTable, ssts: seq<Sst>, levels: seq<seq<Table>>, readId: nat) returns (it: LevelIterator)
    requires mem.Valid() && StoreFit(mem.Model(), ssts, levels, readId)
    ensures fresh(it) && it.Valid()
    ensures it.Remaining() == EngineScan(mem.Model(), ssts, levels, readId)
  {
    hide MemTable.Valid, MemTable.Model, LevelIterator.Valid, StoreFit, Sources, Merge, RestsOf, IdsOf;
    ghost var m := mem.Model();
    var sources := OpenSources(mem, ssts, levels, readId);
    var cursors := OpenCursors(sources, readId);
    it := new LevelIterator(cursors, readId);
    assert mem.Model() == m;
  }
}
