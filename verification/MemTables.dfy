/** The memtable: a current skip list, frozen skip lists newest first, and the
    byte count of the frozen ones. Locks are the subject of `TwoPhaseReads`. */
module MemTables {
  import opened Keys
  import opened Tables
  import opened SkipNodes
  import opened SkipLists
  import opened Ranges
  import opened Layers
  import opened SearchItems
  import opened HeapIterators
  import opened Scans

  /** An append-only sink standing for the SST builder. */
  class SstBuilder {
    var data: Table

    constructor ()
      ensures data == []
    {
      data := [];
    }

    method Add(key: Bytes, value: Bytes, trancId: nat)
      modifies this
      ensures data == old(data) + [Entry(key, value, trancId)]
    {
      data := data + [Entry(key, value, trancId)];
    }
  }

  lemma NoItems()
    ensures ItemsFrom([], 0) == []
  {
  }

  lemma NothingOrdered()
    ensures OrderOn([])
  {
  }

  lemma SelectedLinear(tables: seq<Table>, f: Bytes -> bool)
    requires AllSorted(tables) && OrderOn(ItemsFrom(SelectAll(tables, f), 0))
    ensures LinearOn(ItemsFrom(SelectAll(tables, f), 0))
  {
    hide OrderOn, LinearOn, ItemsFrom, Sorted, Select;
    forall i | 0 <= i < |tables|
      ensures Sorted(SelectAll(tables, f)[i])
    {
      SelectionSorted(tables[i], f);
    }
    ItemsLinearIff(SelectAll(tables, f));
  }

  lemma {:induction false} AppendItems(tables: seq<Table>, t: Table, idx: nat)
    ensures ItemsFrom(tables + [t], idx) == ItemsFrom(tables, idx) + TableItems(t, idx + |tables|)
  {
    if tables == [] {
      assert tables + [t] == [t];
    } else {
      assert (tables + [t])[1..] == tables[1..] + [t];
      AppendItems(tables[1..], t, idx + 1);
    }
  }

  /** One step of a walk: the item under the iterator, which moves on. */
  method Take(table: SkipList, iter: SkipListIterator, idx: nat, ghost p: nat) returns (item: SearchItem)
    requires table.Valid() && p < |table.Entries()| && iter.current == At(table.spine, p + 1)
    modifies iter
    ensures item == ItemOf(table.Entries()[p], idx)
    ensures iter.current == At(table.spine, p + 2)
  {
    hide WellLinked, TotalBytes, Wrap64;
    table.LowestLevel(p + 1);
    item := SearchItem(iter.current.key, iter.current.value, iter.current.trancId, idx, 0);
    iter.Next();
  }

  lemma GrowItems(t: Table, b: nat, p: nat, idx: nat)
    requires b <= p < |t|
    ensures TableItems(t[b..p], idx) + [ItemOf(t[p], idx)] == TableItems(t[b..p + 1], idx)
  {
  }

  lemma NoneTaken(t: Table, b: nat, idx: nat)
    requires b <= |t|
    ensures TableItems(t[b..b], idx) == []
  {
  }

  /** Walks a list from one iterator to another. */
  method Walk(table: SkipList, iter: SkipListIterator, end: SkipListIterator, idx: nat, ghost b: nat, ghost e: nat)
    returns (items: seq<SearchItem>)
    requires table.Valid() && b <= e <= |table.Entries()| && iter != end
    requires iter.current == At(table.spine, b + 1) && end.current == At(table.spine, e + 1)
    modifies iter
    ensures items == TableItems(table.Entries()[b..e], idx)
  {
    hide SkipList.Valid, EntriesOf;
    ghost var t := table.Entries();
    items := [];
    ghost var p := b;
    table.PositionsDiffer(p + 1, e + 1);
    while !iter.Equals(end)
      invariant b <= p <= e && iter.current == At(table.spine, p + 1)
      invariant iter.Equals(end) <==> p == e
      invariant items == TableItems(t[b..p], idx)
      decreases e - p
    {
      var item := Take(table, iter, idx, p);
      GrowItems(t, b, p, idx);
      items := items + [item];
      p := p + 1;
      table.PositionsDiffer(p + 1, e + 1);
    }
  }

  method CollectAll(table: SkipList, idx: nat) returns (items: seq<SearchItem>)
    requires table.Valid()
    ensures items == TableItems(table.Entries(), idx)
  {
    hide SkipList.Valid, SkipList.Entries;
    ghost var t := table.Entries();
    var iter := table.Begin();
    var end := table.End();
    items := Walk(table, iter, end, idx, 0, |t|);
    assert t[0..|t|] == t;
  }

  method CollectRange(table: SkipList, f: Bytes -> int, idx: nat) returns (items: seq<SearchItem>)
    requires table.Valid() && MonotoneOn(table.Entries(), f)
    ensures items == TableItems(Select(table.Entries(), InRange(f)), idx)
  {
    hide SkipList.Valid, SkipList.Entries, MonotoneOn;
    ghost var t := table.Entries();
    var result, b, e := table.ItersMonotonyPredicate(f);
    RangeIsSelection(t, b, e, InRange(f));
    items := [];
    if result.Some? {
      var (begin, end) := result.value;
      items := Walk(table, begin, end, idx, b, e);
    }
  }

  /** The prefix range of a table is the selection of the keys with the prefix. */
  lemma PrefixSelection(t: Table, prefix: Bytes)
    requires Sorted(t)
    ensures var b := LowerBound(t, prefix);
            t[b..PrefixRunEnd(t, b, prefix)] == Select(t, StartsWith(prefix))
  {
    var b := LowerBound(t, prefix);
    PrefixRangeExact(t, prefix);
    RangeIsSelection(t, b, PrefixRunEnd(t, b, prefix), StartsWith(prefix));
  }

  /** The end of a prefix range, asked for again at every step of its loop. */
  method PrefixEnd(table: SkipList, prefix: Bytes, ghost t: Table, ghost e: nat) returns (end: SkipListIterator)
    requires table.Valid() && table.Entries() == t
    requires e == PrefixRunEnd(t, LowerBound(t, prefix), prefix)
    ensures fresh(end) && end.current == At(table.spine, e + 1)
  {
    hide SkipList.Valid, SkipList.Entries, LowerBound, PrefixRunEnd;
    end := table.EndPreffix(prefix);
  }

  /** One pass of the loop over a prefix range. */
  method StepPrefix(table: SkipList, prefix: Bytes, iter: SkipListIterator, idx: nat,
                    ghost t: Table, ghost p: nat, ghost e: nat)
    returns (item: SearchItem, end: SkipListIterator)
    requires table.Valid() && table.Entries() == t && p < e <= |t|
    requires e == PrefixRunEnd(t, LowerBound(t, prefix), prefix)
    requires iter.current == At(table.spine, p + 1)
    modifies iter
    ensures table.Valid() && table.Entries() == t
    ensures item == ItemOf(t[p], idx) && iter.current == At(table.spine, p + 2)
    ensures fresh(end) && (iter.Equals(end) <==> p + 1 == e)
  {
    hide SkipList.Valid, SkipList.Entries, LowerBound, PrefixRunEnd;
    item := Take(table, iter, idx, p);
    end := PrefixEnd(table, prefix, t, e);
    table.PositionsDiffer(p + 2, e + 1);
  }

  /** The loop over a prefix range. */
  method WalkPrefix(table: SkipList, prefix: Bytes, iter: SkipListIterator, idx: nat,
                    ghost t: Table, ghost b: nat, ghost e: nat)
    returns (items: seq<SearchItem>)
    requires table.Valid() && table.Entries() == t
    requires b == LowerBound(t, prefix) && e == PrefixRunEnd(t, b, prefix)
    requires b <= e <= |t| && iter.current == At(table.spine, b + 1)
    modifies iter
    ensures items == TableItems(t[b..e], idx)
  {
    hide SkipList.Valid, SkipList.Entries, LowerBound, PrefixRunEnd, TableItems, At;
    items := [];
    var end := PrefixEnd(table, prefix, t, e);
    ghost var p := b;
    table.PositionsDiffer(p + 1, e + 1);
    assert items == TableItems(t[b..p], idx) by {
      NoneTaken(t, b, idx);
    }
    while !iter.Equals(end)
      invariant iter != end && table.Valid() && table.Entries() == t
      invariant b <= p <= e && iter.current == At(table.spine, p + 1)
      invariant iter.Equals(end) <==> p == e
      invariant items == TableItems(t[b..p], idx)
      decreases e - p
    {
      var item;
      item, end := StepPrefix(table, prefix, iter, idx, t, p, e);
      GrowItems(t, b, p, idx);
      items := items + [item];
      p := p + 1;
    }
  }

  method CollectPrefix(table: SkipList, prefix: Bytes, idx: nat) returns (items: seq<SearchItem>)
    requires table.Valid()
    ensures items == TableItems(Select(table.Entries(), StartsWith(prefix)), idx)
  {
    hide SkipList.Valid, SkipList.Entries, LowerBound, PrefixRunEnd, Less, Select, TableItems, Sorted, At;
    ghost var t := table.Entries();
    ghost var b := LowerBound(t, prefix);
    ghost var e := PrefixRunEnd(t, b, prefix);
    table.ListSorted();
    PrefixSelection(t, prefix);
    var iter := table.BeginPreffix(prefix);
    items := WalkPrefix(table, prefix, iter, idx, t, b, e);
  }

  ghost function NodesOf(s: SkipList): (r: set<object>)
    reads s
  {
    set n: Node | n in s.spine :: n as object
  }

  ghost predicate Apart(s: SkipList, t: SkipList)
    reads s, t
  {
    forall n | n in s.spine :: n !in t.spine
  }

  /** A list none of whose objects changed is the list it was. */
  twostate lemma TableUntouched(t: SkipList)
    requires old(t.Valid()) && unchanged(t)
    requires forall n | n in t.spine :: unchanged(n)
    ensures t.Valid() && t.Entries() == old(t.Entries())
  {
    assert t.spine == old(t.spine);
    assert forall n | n in t.spine ::
        n.forward == old(n.forward) && n.backward == old(n.backward) && n.value == old(n.value);
    assert Sized(t.spine);
    OnlyValueChanged(t.spine);
    OnlyForwardChanged(t.spine);
  }

  class MemTable {
    const limit: nat
    var currentTable: SkipList
    var frozenTables: seq<SkipList>
    var frozenBytes: nat
    ghost var repr: set<object>

    ghost predicate Owned(t: SkipList)
      reads this, t
    {
      t in repr && forall n | n in t.spine :: n in repr
    }

    /** Every table is well formed, and the current one, the only one that is
        written, shares nothing with the frozen ones. */
    ghost predicate Valid()
      reads this, repr
    {
      && currentTable in repr && Owned(currentTable) && currentTable.Valid()
      && (forall t | t in frozenTables :: t in repr && Owned(t) && t.Valid())
      && (forall t | t in frozenTables :: t != currentTable && Apart(t, currentTable))
    }

    ghost function Model(): (m: Mem)
      requires Valid()
      reads this, repr
    {
      Mem(currentTable.Entries(), FrozenModel(), frozenBytes)
    }

    ghost function FrozenModel(): (f: seq<Table>)
      requires Valid()
      reads this, repr
      ensures |f| == |frozenTables|
      ensures forall i | 0 <= i < |f| :: frozenTables[i] in frozenTables && f[i] == frozenTables[i].Entries()
    {
      seq(|frozenTables|, i requires 0 <= i < |frozenTables| && Valid() reads this, repr =>
        assert frozenTables[i] in frozenTables; frozenTables[i].Entries())
    }

    constructor (limit: nat)
      ensures Valid() && fresh(repr) && this.limit == limit
      ensures Model() == EMPTY
    {
      this.limit := limit;
      var t := new SkipList();
      currentTable, frozenTables, frozenBytes := t, [], 0;
      repr := {t} + NodesOf(t);
    }

    /** Writing without locks and without looking at the size. */
    method PutUnlocked(key: Bytes, value: Bytes, trancId: nat)
      requires Valid()
      modifies this`repr, repr
      ensures Valid() && fresh(repr - old(repr))
      ensures Model() == WriteOne(old(Model()), key, value, trancId)
    {
      hide SkipList.Valid, SkipList.Entries;
      ghost var m := Model();
      var coins: seq<bool> := *;
      currentTable.Put(key, value, trancId, coins);
      repr := repr + NodesOf(currentTable);
      FrozenUntouched();
      assert FrozenModel() == m.frozen;
    }

    /** Tables keep their state while none of their objects changes. */
    twostate lemma TablesUntouched(tables: seq<SkipList>)
      requires forall t | t in tables :: old(t.Valid()) && unchanged(t)
      requires forall t, n | t in tables && n in t.spine :: unchanged(n)
      ensures forall t | t in tables :: t.Valid() && t.Entries() == old(t.Entries())
    {
      hide SkipList.Valid, SkipList.Entries;
      forall t | t in tables
        ensures t.Valid() && t.Entries() == old(t.Entries())
      {
        TableUntouched(t);
      }
    }

    /** Frozen tables keep their state while only the current one, objects apart
        from them or new objects change. */
    twostate lemma FrozenUntouched()
      requires old(Valid()) && frozenTables == old(frozenTables) && currentTable == old(currentTable)
      requires old(repr) <= repr
      requires forall t | t in frozenTables :: unchanged(t)
      requires forall t, n | t in frozenTables && n in t.spine :: unchanged(n)
      requires forall n | n in currentTable.spine :: n in old(currentTable.spine) || fresh(n)
      ensures forall t | t in frozenTables ::
                t in repr && Owned(t) && t.Valid() && t.Entries() == old(t.Entries()) && Apart(t, currentTable)
    {
      forall t | t in frozenTables
        ensures t in repr && Owned(t) && t.Valid() && t.Entries() == old(t.Entries()) && Apart(t, currentTable)
      {
        TableUntouched(t);
      }
    }

    /** A write and the size check at its end. */
    method Put(key: Bytes, value: Bytes, trancId: nat)
      requires Valid()
      modifies this, repr
      ensures Valid() && fresh(repr - old(repr))
      ensures Model() == Apply(old(Model()), Op.Put(key, value, trancId), limit)
    {
      WriteManySingle(Model(), key, value, trancId);
      PutUnlocked(key, value, trancId);
      SettleUnlocked();
    }

    method PutBatch(kvs: seq<(Bytes, Bytes)>, trancId: nat)
      requires Valid()
      modifies this, repr
      ensures Valid() && fresh(repr - old(repr))
      ensures Model() == Apply(old(Model()), Op.PutBatch(kvs, trancId), limit)
    {
      hide SkipList.Valid, SkipList.Entries, Valid, Model;
      ghost var m := Model();
      for i := 0 to |kvs|
        invariant Valid() && fresh(repr - old(repr))
        invariant Model() == WriteMany(m, kvs[..i], trancId)
      {
        PutUnlocked(kvs[i].0, kvs[i].1, trancId);
        assert kvs[..i + 1][..i] == kvs[..i];
      }
      assert kvs[..|kvs|] == kvs;
      SettleUnlocked();
    }

    method RemoveUnlocked(key: Bytes, trancId: nat)
      requires Valid()
      modifies this, repr
      ensures Valid() && fresh(repr - old(repr))
      ensures Model() == WriteOne(old(Model()), key, [], trancId)
    {
      PutUnlocked(key, [], trancId);
    }

    /** Deleting writes a tombstone, also over nothing. */
    method Remove(key: Bytes, trancId: nat)
      requires Valid()
      modifies this, repr
      ensures Valid() && fresh(repr - old(repr))
      ensures Model() == Apply(old(Model()), Op.Remove(key, trancId), limit)
    {
      WriteManySingle(Model(), key, [], trancId);
      RemoveUnlocked(key, trancId);
      SettleUnlocked();
    }

    method RemoveBatch(keys: seq<Bytes>, trancId: nat)
      requires Valid()
      modifies this, repr
      ensures Valid() && fresh(repr - old(repr))
      ensures Model() == Apply(old(Model()), Op.RemoveBatch(keys, trancId), limit)
    {
      hide SkipList.Valid, SkipList.Entries, Valid, Model;
      ghost var m, kvs := Model(), Tombstones(keys);
      for i := 0 to |keys|
        invariant Valid() && fresh(repr - old(repr))
        invariant Model() == WriteMany(m, kvs[..i], trancId)
      {
        RemoveUnlocked(keys[i], trancId);
        assert kvs[..i + 1][..i] == kvs[..i];
      }
      assert kvs[..|kvs|] == kvs;
      SettleUnlocked();
    }

    /** Freezes the current table if its size is over the limit. */
    method SettleUnlocked()
      requires Valid()
      modifies this
      ensures Valid() && fresh(repr - old(repr)) && old(repr) <= repr
      ensures Model() == Settle(old(Model()), limit)
    {
      hide SkipList.Valid, SkipList.Entries, TotalBytes, Wrap64;
      var size := currentTable.GetSize();
      if size > limit {
        FreezeUnlocked();
      }
    }

    /** Counts the current table as frozen and moves it there. */
    method FreezeUnlocked()
      requires Valid()
      modifies this
      ensures Valid() && fresh(repr - old(repr)) && old(repr) <= repr
      ensures Model() == Freeze(old(Model()))
    {
      hide SkipList.Valid, SkipList.Entries, TotalBytes, Wrap64, FrozenModel;
      var size := currentTable.GetSize();
      frozenBytes := Wrap64(frozenBytes + size);
      PushFront();
    }

    /** Moves the current table to the front of the frozen ones and starts an
        empty one. */
    method PushFront()
      requires Valid()
      modifies this`frozenTables, this`currentTable, this`repr
      ensures Valid() && fresh(repr - old(repr)) && old(repr) <= repr
      ensures Model() == old(Mem([], [Model().active] + Model().frozen, frozenBytes))
    {
      hide SkipList.Valid, SkipList.Entries, FrozenModel;
      ghost var m, older := Model(), [currentTable] + frozenTables;
      frozenTables := [currentTable] + frozenTables;
      var t := new SkipList();
      currentTable := t;
      repr := repr + {t} + NodesOf(t);
      TablesUntouched(older);
      assert forall i | 0 <= i < |older| :: older[i] in older;
      assert FrozenModel() == [m.active] + m.frozen;
    }

    method FrozenCurTable()
      requires Valid()
      modifies this
      ensures Valid() && fresh(repr - old(repr)) && old(repr) <= repr
      ensures Model() == Apply(old(Model()), FreezeNow, limit)
    {
      FreezeUnlocked();
    }

    /** Drops everything; the frozen byte count is left as it was. */
    method Clear()
      requires Valid()
      modifies this, repr
      ensures Valid() && fresh(repr - old(repr))
      ensures Model() == Apply(old(Model()), Op.Clear, limit)
    {
      hide SkipList.Valid;
      frozenTables := [];
      currentTable.Clear();
      repr := repr + NodesOf(currentTable);
    }

    /** Hands the oldest table's entries to the builder, after freezing the
        current table if none is frozen; nothing happens when all is empty. */
    method FlushLast(builder: SstBuilder) returns (built: bool)
      requires Valid() && builder !in repr
      modifies this, builder
      ensures Valid() && fresh(repr - old(repr)) && old(repr) <= repr
      ensures var (t, m') := Layers.FlushLast(old(Model()));
              && Model() == m'
              && Model() == Apply(old(Model()), Op.Flush, limit)
              && built == t.Some?
              && builder.data == old(builder.data) + (if t.Some? then t.value else [])
    {
      hide SkipList.Valid, SkipList.Entries, TotalBytes, Wrap64, FrozenModel, Valid;
      if frozenTables == [] {
        CurrentFacts();
        var size := currentTable.GetSize();
        if size == 0 {
          return false;
        }
        FreezeUnlocked();
      }
      var flushData := TakeOldest();
      FeedBuilder(builder, flushData);
      built := true;
    }

    method Uncount(size: nat)
      requires Valid()
      modifies this`frozenBytes
      ensures Valid() && Model() == old(Model()).(frozenBytes := Wrap64(old(frozenBytes) - size))
    {
      hide SkipList.Valid, SkipList.Entries, Wrap64;
      ghost var f := FrozenModel();
      frozenBytes := Wrap64(frozenBytes - size);
      assert FrozenModel() == f;
    }

    method DropOldest()
      requires Valid() && frozenTables != []
      modifies this`frozenTables
      ensures Valid()
      ensures Model() == old(Mem(Model().active, Model().frozen[..|frozenTables| - 1], frozenBytes))
    {
      hide SkipList.Valid, SkipList.Entries, FrozenModel;
      ghost var m, n := Model(), |frozenTables| - 1;
      frozenTables := frozenTables[..|frozenTables| - 1];
      assert forall i | 0 <= i < n :: frozenTables[i] in frozenTables;
      assert FrozenModel() == m.frozen[..n];
    }

    /** Removes the oldest frozen table and reads its entries. */
    method TakeOldest() returns (flushData: Table)
      requires Valid() && frozenTables != []
      modifies this`frozenTables, this`frozenBytes
      ensures Valid()
      ensures var (m, n) := (old(Model()), |old(frozenTables)| - 1);
              && flushData == m.frozen[n]
              && Model() == Mem(m.active, m.frozen[..n], Wrap64(m.frozenBytes - Wrap64(TotalBytes(m.frozen[n]))))
    {
      hide SkipList.Valid, SkipList.Entries, TotalBytes, Wrap64, FrozenModel;
      ghost var m := Model();
      var n := |frozenTables| - 1;
      var table := frozenTables[n];
      FrozenFacts(n);
      var size := table.GetSize();
      flushData := table.Flush();
      Uncount(size);
      DropOldest();
    }

    method FeedBuilder(builder: SstBuilder, flushData: Table)
      modifies builder
      ensures builder.data == old(builder.data) + flushData
    {
      for i := 0 to |flushData|
        invariant builder.data == old(builder.data) + flushData[..i]
      {
        builder.Add(flushData[i].key, flushData[i].value, flushData[i].trancId);
      }
    }

    // --------------------------------------------------------------- lookups

    method CurGet(key: Bytes, trancId: nat) returns (it: SkipListIterator)
      requires Valid()
      ensures fresh(it) && it.Found() == InActive(Model(), key)
      ensures it.IsValid() <==> it.current != null
      ensures it.current != null ==> key != [] && it.current.key == key
    {
      hide SkipList.Valid, SkipList.Entries;
      it := currentTable.Get(key, trancId);
      if !it.IsValid() {
        it := new SkipListIterator(null);
      }
    }

    /** The newest frozen table that has the key decides. */
    method FrozenGet(key: Bytes, trancId: nat) returns (it: SkipListIterator)
      requires Valid()
      ensures fresh(it) && it.Found() == InFrozen(Model(), key)
      ensures it.IsValid() <==> it.current != null
      ensures it.current != null ==> key != [] && it.current.key == key
    {
      hide SkipList.Valid, SkipList.Entries, Overlay;
      ghost var f := FrozenModel();
      for i := 0 to |frozenTables|
        invariant key != [] ==> forall j | 0 <= j < i :: Lookup(f[j], key).None?
      {
        assert frozenTables[i] in frozenTables;
        var result := frozenTables[i].Get(key, trancId);
        if result.IsValid() {
          OverlayFirst(f, key, i);
          return result;
        }
      }
      if key != [] {
        OverlayFirst(f, key, |f|);
      }
      it := new SkipListIterator(null);
    }

    /** A point lookup: the active table first, then the frozen ones. */
    method Get(key: Bytes, trancId: nat) returns (it: SkipListIterator)
      requires Valid()
      ensures fresh(it) && it.Found() == Layers.Get(Model(), key)
      ensures it.IsValid() <==> it.current != null
      ensures it.current != null ==> key != [] && it.current.key == key
    {
      hide SkipList.Valid, SkipList.Entries, Valid, Model, InActive, InFrozen, Layers.Get;
      GetInTwoParts(Model(), key);
      it := CurGet(key, trancId);
      if it.IsValid() {
        return;
      }
      var frozenResult := FrozenGet(key, trancId);
      if frozenResult.IsValid() {
        return frozenResult;
      }
      it := new SkipListIterator(null);
    }

    /** The two-pass batched lookup: one answer per key, in order, duplicates
        included, each what a point lookup gives. */
    method GetBatch(keys: seq<Bytes>, trancId: nat)
      returns (results: seq<(Bytes, Option<(Bytes, nat)>)>)
      requires Valid()
      ensures |results| == |keys|
      ensures forall i | 0 <= i < |keys| :: results[i].0 == keys[i]
      ensures forall i | 0 <= i < |keys| :: results[i].1.None? <==> Layers.Get(Model(), keys[i]).None?
      ensures forall i | 0 <= i < |keys| && results[i].1.Some? ::
                var e := Layers.Get(Model(), keys[i]).value; results[i].1.value == (e.value, e.trancId)
    {
      hide SkipList.Valid, SkipList.Entries, Valid, InActive, InFrozen, Layers.Get;
      ghost var m := Model();
      results := [];
      var missing := false;
      for i := 0 to |keys|
        invariant |results| == i
        invariant forall j | 0 <= j < i :: results[j] == Tagged(keys[j], InActive(m, keys[j]))
        invariant missing <==> exists j :: 0 <= j < i && results[j].1.None?
      {
        var curRes := CurGet(keys[i], trancId);
        if curRes.IsValid() {
          results := results + [(keys[i], Some((curRes.current.value, curRes.current.trancId)))];
        } else {
          results := results + [(keys[i], None)];
          missing := true;
        }
      }
      forall j | 0 <= j < |keys|
        ensures results[j].1.Some? ==> results[j] == Tagged(keys[j], Layers.Get(m, keys[j]))
      {
        GetInTwoParts(m, keys[j]);
      }
      if !missing {
        return;
      }
      for i := 0 to |keys|
        invariant |results| == |keys|
        invariant forall j | 0 <= j < i :: results[j] == Tagged(keys[j], Layers.Get(m, keys[j]))
        invariant forall j | i <= j < |keys| :: results[j] == Tagged(keys[j], InActive(m, keys[j]))
      {
        GetInTwoParts(m, keys[i]);
        if results[i].1.None? {
          var frozenResult := FrozenGet(keys[i], trancId);
          if frozenResult.IsValid() {
            results := results[i := (keys[i], Some((frozenResult.current.value, frozenResult.current.trancId)))];
          } else {
            results := results[i := (keys[i], None)];
          }
        }
      }
    }

    /** The state of the tables, as the model has it. */
    lemma CurrentFacts()
      requires Valid()
      ensures currentTable.Valid() && currentTable.Entries() == Model().active
      ensures |Model().frozen| == |frozenTables|
    {
      hide SkipList.Valid, SkipList.Entries;
    }

    lemma FrozenFacts(i: nat)
      requires Valid() && i < |frozenTables|
      ensures frozenTables[i].Valid() && frozenTables[i].Entries() == FrozenModel()[i] == Model().frozen[i]
    {
      hide SkipList.Valid, SkipList.Entries;
      assert frozenTables[i] in frozenTables;
    }

    lemma TablesSorted()
      requires Valid()
      ensures AllSorted(Model().All())
    {
      hide SkipList.Valid, SkipList.Entries, Sorted;
      var all := Model().All();
      forall i | 0 <= i < |all|
        ensures Sorted(all[i])
      {
        if i == 0 {
          currentTable.ListSorted();
        } else {
          FrozenFacts(i - 1);
          frozenTables[i - 1].ListSorted();
        }
      }
    }

    // ----------------------------------------------------------------- scans

    /** `begin`: every entry of every table goes into one heap. The heap needs
        an ordering, which ids that follow age provide. */
    method Begin(trancId: nat) returns (h: HeapIterator)
      requires Valid() && OrderOn(Items(Model()))
      ensures fresh(h) && h.Valid() && h.maxTrancId == trancId
      ensures h.Remaining() == Scan(Items(Model()), trancId)
    {
      hide SkipList.Valid, SkipList.Entries, Scan, OrderOn, LinearOn, AllSorted, Valid, Model, FrozenModel, ItemsFrom;
      ghost var m := Model();
      CurrentFacts();
      var itemVec := CollectAll(currentTable, 0);
      assert itemVec == ItemsFrom([m.active] + m.frozen[..0], 0) by {
        assert [m.active] + m.frozen[..0] == [] + [m.active];
        AppendItems([], m.active, 0);
        NoItems();
      }
      for i := 0 to |frozenTables|
        invariant Valid() && Model() == m
        invariant itemVec == ItemsFrom([m.active] + m.frozen[..i], 0)
      {
        FrozenFacts(i);
        var more := CollectAll(frozenTables[i], i + 1);
        AppendItems([m.active] + m.frozen[..i], m.frozen[i], 0);
        assert [m.active] + m.frozen[..i] + [m.frozen[i]] == [m.active] + m.frozen[..i + 1];
        itemVec := itemVec + more;
      }
      assert m.frozen[..|m.frozen|] == m.frozen;
      TablesSorted();
      ItemsLinearIff(m.All());
      h := new HeapIterator(itemVec, trancId);
    }

    method End() returns (h: HeapIterator)
      ensures fresh(h) && h.IsEnd()
    {
      assert OrderOn([]) by {
        NothingOrdered();
      }
      h := new HeapIterator([], 0);
    }

    /** The scan of the keys starting with a prefix. */
    method ItersPreffix(prefix: Bytes, trancId: nat) returns (h: HeapIterator)
      requires Valid() && OrderOn(ItemsFrom(SelectAll(Model().All(), StartsWith(prefix)), 0))
      ensures fresh(h) && h.Valid() && h.maxTrancId == trancId
      ensures h.Remaining() == Scan(ItemsFrom(SelectAll(Model().All(), StartsWith(prefix)), 0), trancId)
    {
      hide SkipList.Valid, SkipList.Entries, Scan, OrderOn, LinearOn, AllSorted, Valid, Model, FrozenModel,
           ItemsFrom, Select;
      ghost var m := Model();
      ghost var parts := SelectAll(m.All(), StartsWith(prefix));
      CurrentFacts();
      var itemVec := CollectPrefix(currentTable, prefix, 0);
      assert itemVec == ItemsFrom(parts[..1], 0) by {
        assert parts[..1] == [] + [parts[0]];
        AppendItems([], parts[0], 0);
        NoItems();
      }
      for i := 0 to |frozenTables|
        invariant Valid() && Model() == m
        invariant itemVec == ItemsFrom(parts[..i + 1], 0)
      {
        FrozenFacts(i);
        var more := CollectPrefix(frozenTables[i], prefix, i + 1);
        AppendItems(parts[..i + 1], parts[i + 1], 0);
        assert parts[..i + 1] + [parts[i + 1]] == parts[..i + 2];
        itemVec := itemVec + more;
      }
      assert parts[..|parts|] == parts;
      TablesSorted();
      SelectedLinear(m.All(), StartsWith(prefix));
      h := new HeapIterator(itemVec, trancId);
    }

    /** The scan of the keys in the range of a monotone predicate, with an end
        marker. */
    method ItersMonotonyPredicate(trancId: nat, f: Bytes -> int) returns (h: HeapIterator, end: HeapIterator)
      requires Valid() && OrderOn(ItemsFrom(SelectAll(Model().All(), InRange(f)), 0))
      requires forall i | 0 <= i < |Model().All()| :: MonotoneOn(Model().All()[i], f)
      ensures fresh(h) && h.Valid() && h.maxTrancId == trancId
      ensures h.Remaining() == Scan(ItemsFrom(SelectAll(Model().All(), InRange(f)), 0), trancId)
      ensures fresh(end) && end.IsEnd()
    {
      hide SkipList.Valid, SkipList.Entries, Scan, OrderOn, LinearOn, AllSorted, MonotoneOn, Valid, Model,
           FrozenModel, ItemsFrom, Select;
      ghost var m := Model();
      ghost var parts := SelectAll(m.All(), InRange(f));
      CurrentFacts();
      assert MonotoneOn(m.All()[0], f);
      var itemVec := CollectRange(currentTable, f, 0);
      assert itemVec == ItemsFrom(parts[..1], 0) by {
        assert parts[..1] == [] + [parts[0]];
        AppendItems([], parts[0], 0);
        NoItems();
      }
      for i := 0 to |frozenTables|
        invariant Valid() && Model() == m
        invariant itemVec == ItemsFrom(parts[..i + 1], 0)
      {
        FrozenFacts(i);
        assert MonotoneOn(m.All()[i + 1], f);
        var more := CollectRange(frozenTables[i], f, i + 1);
        AppendItems(parts[..i + 1], parts[i + 1], 0);
        assert parts[..i + 1] + [parts[i + 1]] == parts[..i + 2];
        itemVec := itemVec + more;
      }
      assert parts[..|parts|] == parts;
      TablesSorted();
      SelectedLinear(m.All(), InRange(f));
      h := new HeapIterator(itemVec, trancId);
      end := End();
    }
  }
}
