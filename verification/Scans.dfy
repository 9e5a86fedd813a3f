/** Scans over the memtable: the items it merges, when their comparison is an
    ordering, and agreement of scans with point lookups. */
module Scans {
  import opened Keys
  import opened Tables
  import opened Ranges
  import opened Layers
  import opened SearchItems
  import opened HeapIterators

  /** The items of one table, tagged with its index. */
  function TableItems(t: Table, idx: int): (r: seq<SearchItem>)
    ensures |r| == |t|
    ensures forall i | 0 <= i < |t| :: r[i] == SearchItem(t[i].key, t[i].value, t[i].trancId, idx, 0)
  {
    seq(|t|, i requires 0 <= i < |t| => SearchItem(t[i].key, t[i].value, t[i].trancId, idx, 0))
  }

  /** The items of tables indexed from `idx` on. */
  function ItemsFrom(tables: seq<Table>, idx: nat): seq<SearchItem> {
    if tables == [] then [] else TableItems(tables[0], idx) + ItemsFrom(tables[1..], idx + 1)
  }

  /** `MemTable::begin`: the active table has index 0, frozen ones 1, 2, ... from
      the newest. */
  function Items(m: Mem): seq<SearchItem> {
    ItemsFrom(m.All(), 0)
  }

  /** The item of entry `e` in table number `n`. */
  function ItemOf(e: Entry, n: nat): SearchItem {
    SearchItem(e.key, e.value, e.trancId, n, 0)
  }

  lemma {:induction false} ItemMember(tables: seq<Table>, idx: nat, x: SearchItem)
    ensures x in ItemsFrom(tables, idx) <==>
            x.level == 0 && idx <= x.idx < idx + |tables| &&
            Entry(x.key, x.value, x.trancId) in tables[x.idx - idx]
  {
    if tables == [] {
    } else {
      ItemMember(tables[1..], idx + 1, x);
      var t := tables[0];
      if x in TableItems(t, idx) {
        var i :| 0 <= i < |t| && TableItems(t, idx)[i] == x;
        assert t[i] == Entry(x.key, x.value, x.trancId);
      }
      if x.level == 0 && x.idx == idx && Entry(x.key, x.value, x.trancId) in t {
        var i :| 0 <= i < |t| && t[i] == Entry(x.key, x.value, x.trancId);
        assert TableItems(t, idx)[i] == x;
      }
    }
  }

  // ------------------------------------------------------------- the ordering

  /** No older version of a key carries a larger transaction id. */
  ghost predicate IdsFollowAge(tables: seq<Table>) {
    forall a, b, e, f {:trigger e in tables[a], f in tables[b]} ::
      0 <= a < b < |tables| && e in tables[a] && f in tables[b] && e.key == f.key ==> e.trancId >= f.trancId
  }

  /** On the memtable's items the heap comparison is a strict weak ordering, and
      then a linear one, exactly when ids follow age. */
  lemma ItemsLinearIff(tables: seq<Table>)
    requires AllSorted(tables)
    ensures OrderOn(ItemsFrom(tables, 0)) <==> IdsFollowAge(tables)
    ensures LinearOn(ItemsFrom(tables, 0)) <==> IdsFollowAge(tables)
  {
    hide Less, Greater, IdsFollowAge, ItemsFrom, OrderOn, LinearOn;
    var items := ItemsFrom(tables, 0);
    if LinearOn(items) {
      LinearIsOrder(items);
    }
    if OrderOn(items) {
      OrderMeansAge(tables);
    }
    if IdsFollowAge(tables) {
      AgeMeansLinear(tables);
      LinearIsOrder(items);
    }
  }

  lemma OrderMeansAge(tables: seq<Table>)
    requires AllSorted(tables) && OrderOn(ItemsFrom(tables, 0))
    ensures IdsFollowAge(tables)
  {
    hide Less, Greater, ItemsFrom, StrictWeakOrderOn;
    OrderIffVersionsAgree(set x | x in ItemsFrom(tables, 0));
    forall a, b, e, f | 0 <= a < b < |tables| && e in tables[a] && f in tables[b] && e.key == f.key
      ensures e.trancId >= f.trancId
    {
      ItemMember(tables, 0, ItemOf(e, a));
      ItemMember(tables, 0, ItemOf(f, b));
    }
  }

  lemma AgeMeansLinear(tables: seq<Table>)
    requires AllSorted(tables) && IdsFollowAge(tables)
    ensures LinearOn(ItemsFrom(tables, 0))
  {
    hide Less, Greater, ItemsFrom, IdsFollowAge;
    var items := ItemsFrom(tables, 0);
    forall x, y | x in items && y in items && x != y
      ensures Greater(x, y) <==> !Greater(y, x)
    {
      PairLinear(tables, x, y);
    }
  }

  /** Two items of the memtable compare by key and then by table index alone,
      the newest table first: the fall-through never fires. */
  lemma ComparesByAge(tables: seq<Table>, x: SearchItem, y: SearchItem)
    requires AllSorted(tables) && IdsFollowAge(tables)
    requires x in ItemsFrom(tables, 0) && y in ItemsFrom(tables, 0)
    ensures Greater(x, y) <==> Less(y.key, x.key) || (x.key == y.key && x.idx > y.idx)
  {
    ItemMember(tables, 0, x);
    ItemMember(tables, 0, y);
    if x.key == y.key {
      LessAsymmetricSelf(x.key);
      if x.idx == y.idx {
        SameEntry(tables[x.idx], Entry(x.key, x.value, x.trancId), Entry(y.key, y.value, y.trancId));
      }
    }
  }

  lemma LessAsymmetricSelf(key: Bytes)
    ensures !Less(key, key)
  {
    if Less(key, key) {
      LessAsymmetric(key, key);
    }
  }

  /** A sorted table holds one version of a key. */
  lemma SameEntry(t: Table, e: Entry, f: Entry)
    requires Sorted(t) && e in t && f in t && e.key == f.key
    ensures e == f
  {
    var i :| 0 <= i < |t| && t[i] == e;
    var j :| 0 <= j < |t| && t[j] == f;
    LookupAt(t, i);
    LookupAt(t, j);
  }

  lemma PairLinear(tables: seq<Table>, x: SearchItem, y: SearchItem)
    requires AllSorted(tables) && IdsFollowAge(tables) && x != y
    requires x in ItemsFrom(tables, 0) && y in ItemsFrom(tables, 0)
    ensures Greater(x, y) <==> !Greater(y, x)
  {
    ComparesByAge(tables, x, y);
    ComparesByAge(tables, y, x);
    ItemMember(tables, 0, x);
    ItemMember(tables, 0, y);
    if x.key == y.key {
      if x.idx == y.idx {
        SameEntry(tables[x.idx], Entry(x.key, x.value, x.trancId), Entry(y.key, y.value, y.trancId));
      }
    } else {
      LessTotal(x.key, y.key);
      if Less(x.key, y.key) {
        LessAsymmetric(x.key, y.key);
      } else {
        LessAsymmetric(y.key, x.key);
      }
    }
  }

  // --------------------------------------------------------- the shown version

  /** What the overlay finds lies in the newest table that has the key. */
  lemma {:induction false} OverlayIsNewest(tables: seq<Table>, key: Bytes) returns (n: nat)
    requires Overlay(tables, key).Some?
    ensures n < |tables| && Lookup(tables[n], key) == Overlay(tables, key)
    ensures forall i | 0 <= i < n :: Lookup(tables[i], key).None?
  {
    if Lookup(tables[0], key).Some? {
      n := 0;
    } else {
      var k := OverlayIsNewest(tables[1..], key);
      n := k + 1;
    }
  }

  lemma {:induction false} OverlayNone(tables: seq<Table>, key: Bytes)
    requires Overlay(tables, key).None?
    ensures forall i | 0 <= i < |tables| :: Lookup(tables[i], key).None?
  {
    if tables == [] {
    } else {
      OverlayNone(tables[1..], key);
      forall i | 0 <= i < |tables|
        ensures Lookup(tables[i], key).None?
      {
        assert i > 0 ==> tables[i] == tables[1..][i - 1];
      }
    }
  }

  /** A scan's winner for a key is the version a lookup finds. */
  lemma WinnerIsOverlay(tables: seq<Table>, kv: KeyValue)
    requires AllSorted(tables) && IdsFollowAge(tables)
    ensures ShowsWinner(ItemsFrom(tables, 0), kv) <==>
            Overlay(tables, kv.0).Some? && Overlay(tables, kv.0).value.value == kv.1
  {
    var items := ItemsFrom(tables, 0);
    if Overlay(tables, kv.0).Some? {
      var n := OverlayIsNewest(tables, kv.0);
      var e := Overlay(tables, kv.0).value;
      NewestWins(tables, kv.0, n);
      if ShowsWinner(items, kv) {
        var x :| Wins(items, x) && x.key == kv.0 && x.value == kv.1;
        var w := ItemOf(e, n);
        if x != w {
          PairLinear(tables, x, w);
        }
      }
    } else if ShowsWinner(items, kv) {
      var x :| Wins(items, x) && x.key == kv.0 && x.value == kv.1;
      ItemMember(tables, 0, x);
      OverlayNone(tables, kv.0);
    }
  }

  lemma NewestWins(tables: seq<Table>, key: Bytes, n: nat)
    requires AllSorted(tables) && IdsFollowAge(tables)
    requires n < |tables| && Lookup(tables[n], key).Some?
    requires forall i | 0 <= i < n :: Lookup(tables[i], key).None?
    ensures Wins(ItemsFrom(tables, 0), ItemOf(Lookup(tables[n], key).value, n))
  {
    var items := ItemsFrom(tables, 0);
    var e := Lookup(tables[n], key).value;
    var w := ItemOf(e, n);
    ItemMember(tables, 0, w);
    forall y | y in items && y.key == key
      ensures !Greater(w, y)
    {
      ItemMember(tables, 0, y);
      var f := Entry(y.key, y.value, y.trancId);
      assert f in tables[y.idx];
      if y.idx == n {
        SameEntry(tables[n], e, f);
      }
      ComparesByAge(tables, w, y);
      LessAsymmetricSelf(key);
    }
  }

  // ------------------------------------------------------------ main theorems

  /** In any memtable whose ids follow age, running `begin(0)` to its end yields,
      in strictly increasing key order, exactly the keys whose newest version is
      not a tombstone, each with that version's value. */
  lemma ScanIsOverlay(tables: seq<Table>)
    requires AllSorted(tables) && IdsFollowAge(tables)
    ensures var items := ItemsFrom(tables, 0);
            && LinearOn(items) && Increasing(Scan(items, 0))
            && forall kv :: kv in Scan(items, 0) <==>
                 Overlay(tables, kv.0).Some? && Overlay(tables, kv.0).value.value == kv.1 && kv.1 != []
  {
    var items := ItemsFrom(tables, 0);
    ItemsLinearIff(tables);
    ScanExact(items);
    forall kv
      ensures ShowsWinner(items, kv) <==>
              Overlay(tables, kv.0).Some? && Overlay(tables, kv.0).value.value == kv.1
    {
      WinnerIsOverlay(tables, kv);
    }
  }

  /** The transaction id a write carries. */
  function IdOf(op: Op): nat {
    if IsWrite(op) then op.trancId else 0
  }

  /** Ids never decrease over the writes of a run. */
  ghost predicate IdsNeverDecrease(ops: seq<Op>) {
    forall i, j :: 0 <= i < j < |ops| && IsWrite(ops[i]) && IsWrite(ops[j]) ==> IdOf(ops[i]) <= IdOf(ops[j])
  }

  /** Every id in a newer table is at least every id in an older one, and no id
      exceeds `bound`. */
  ghost predicate IdsLayered(tables: seq<Table>, bound: nat) {
    && (forall a, e {:trigger e in tables[a]} :: 0 <= a < |tables| && e in tables[a] ==> e.trancId <= bound)
    && (forall a, b, e, f {:trigger e in tables[a], f in tables[b]} ::
          0 <= a < b < |tables| && e in tables[a] && f in tables[b] ==> e.trancId >= f.trancId)
  }

  /** Writes with an id at least `bound` keep the layering; overwriting keeps the
      id of a key's first write, which is still newer than every older table. */
  lemma {:induction false} WriteManyLayered(m: Mem, kvs: seq<(Bytes, Bytes)>, trancId: nat, bound: nat)
    requires IdsLayered(m.All(), bound) && trancId >= bound
    ensures IdsLayered(WriteMany(m, kvs, trancId).All(), trancId)
    ensures WriteMany(m, kvs, trancId).frozen == m.frozen
    ensures forall a, f | 0 <= a < |m.frozen| && f in m.frozen[a] :: f.trancId <= bound
  {
    forall a, f | 0 <= a < |m.frozen| && f in m.frozen[a]
      ensures f.trancId <= bound
    {
      assert m.frozen[a] == m.All()[a + 1];
    }
    if kvs == [] {
    } else {
      var n := |kvs| - 1;
      var before := WriteMany(m, kvs[..n], trancId);
      WriteManyLayered(m, kvs[..n], trancId, bound);
      WriteOneLayered(before, kvs[n].0, kvs[n].1, trancId, bound);
    }
  }

  lemma WriteOneLayered(m: Mem, key: Bytes, value: Bytes, trancId: nat, bound: nat)
    requires IdsLayered(m.All(), trancId) && trancId >= bound
    requires forall a, f | 0 <= a < |m.frozen| && f in m.frozen[a] :: f.trancId <= bound
    ensures IdsLayered(WriteOne(m, key, value, trancId).All(), trancId)
  {
    var tables, tables' := m.All(), WriteOne(m, key, value, trancId).All();
    assert forall a | 0 < a < |tables'| :: tables'[a] == tables[a] == m.frozen[a - 1];
    forall e: Entry | e in tables'[0]
      ensures bound <= e.trancId <= trancId || exists o: Entry :: o in tables[0] && o.trancId == e.trancId
    {
      WrittenId(m.active, key, value, trancId, e);
    }
  }

  /** An entry after a write has the writer's id or one that was there. */
  lemma WrittenId(t: Table, key: Bytes, value: Bytes, trancId: nat, e: Entry)
    requires e in Write(t, key, value, trancId)
    ensures e.trancId == trancId || exists o: Entry :: o in t && o.trancId == e.trancId
  {
    var p, t' := LowerBound(t, key), Write(t, key, value, trancId);
    var i :| 0 <= i < |t'| && t'[i] == e;
    if p < |t| && t[p].key == key {
      assert t[i] in t && t[i].trancId == e.trancId;
    } else if i != p {
      assert e == t[if i < p then i else i - 1];
    }
  }

  lemma LayeredFreeze(m: Mem, bound: nat)
    requires IdsLayered(m.All(), bound)
    ensures IdsLayered(Freeze(m).All(), bound)
  {
    FreezeTables(m);
    var tables, tables' := m.All(), Freeze(m).All();
    assert forall a | 0 < a < |tables'| :: tables'[a] == tables[a - 1];
    assert tables'[0] == [];
  }

  lemma LayeredPrefix(tables: seq<Table>, rest: seq<Table>, bound: nat)
    requires IdsLayered(tables + rest, bound)
    ensures IdsLayered(tables, bound)
  {
    assert forall a | 0 <= a < |tables| :: tables[a] == (tables + rest)[a];
  }

  lemma LayeredFlush(m: Mem, bound: nat)
    requires IdsLayered(m.All(), bound)
    ensures IdsLayered(FlushLast(m).1.All(), bound)
  {
    hide IdsLayered;
    FlushTables(m);
    LayeredFreeze(m, bound);
    FreezeTables(m);
    var (t, m') := FlushLast(m);
    if t.Some? {
      LayeredPrefix(m'.All(), [t.value], bound);
    }
  }

  /** The largest id written so far. */
  function LastId(ops: seq<Op>): nat {
    if ops == [] then 0
    else if IsWrite(ops[|ops| - 1]) then IdOf(ops[|ops| - 1])
    else LastId(ops[..|ops| - 1])
  }

  lemma {:induction false} LastIdIsBound(ops: seq<Op>)
    requires IdsNeverDecrease(ops)
    ensures LastId(ops) == 0 || exists i :: 0 <= i < |ops| && IsWrite(ops[i]) && IdOf(ops[i]) == LastId(ops)
  {
    if ops != [] && !IsWrite(ops[|ops| - 1]) {
      LastIdIsBound(ops[..|ops| - 1]);
      if LastId(ops) != 0 {
        var i :| 0 <= i < |ops| - 1 && IsWrite(ops[..|ops| - 1][i]) && IdOf(ops[..|ops| - 1][i]) == LastId(ops);
        assert IsWrite(ops[i]);
      }
    }
  }

  /** If ids never decrease over a run, ids follow age in the state it reaches. */
  lemma {:induction false} RunIdsLayered(ops: seq<Op>, limit: nat)
    requires IdsNeverDecrease(ops)
    ensures IdsLayered(Run(ops, limit).All(), LastId(ops))
    ensures IdsFollowAge(Run(ops, limit).All())
  {
    hide Freeze, FlushLast, WriteMany, IdsLayered, IdsFollowAge;
    NothingLayered(EMPTY, 0);
    if ops == [] {
    } else {
      var n := |ops| - 1;
      var front := ops[..n];
      assert forall i | 0 <= i < n :: front[i] == ops[i];
      RunIdsLayered(front, limit);
      var m := Run(front, limit);
      match ops[n]
      case FreezeNow => LayeredFreeze(m, LastId(front));
      case Clear => NothingLayered(Cleared(m), LastId(front));
      case Flush => LayeredFlush(m, LastId(front));
      case _ =>
        LastIdIsBound(front);
        var id := ops[n].trancId;
        assert LastId(front) <= id;
        WriteManyLayered(m, Writes(ops[n]), id, LastId(front));
        LayeredFreeze(WriteMany(m, Writes(ops[n]), id), id);
    }
    LayeredFollowsAge(Run(ops, limit).All(), LastId(ops));
  }

  lemma NothingLayered(m: Mem, bound: nat)
    requires m.active == [] && m.frozen == []
    ensures IdsLayered(m.All(), bound)
  {
  }

  lemma LayeredFollowsAge(tables: seq<Table>, bound: nat)
    requires IdsLayered(tables, bound)
    ensures IdsFollowAge(tables)
  {
  }

  /** Scan equals lookups, in every state reached by a run whose ids never
      decrease: the scan lists exactly the non-empty keys for which `get` finds a
      non-empty value (and the empty key if it was stored, which `get` never
      reports). */
  lemma ScanEqualsLookups(ops: seq<Op>, limit: nat)
    requires IdsNeverDecrease(ops)
    ensures var m := Run(ops, limit);
            && LinearOn(Items(m)) && Increasing(Scan(Items(m), 0))
            && forall k, v | k != [] :: (k, v) in Scan(Items(m), 0) <==>
                 Get(m, k).Some? && Get(m, k).value.value == v && v != []
  {
    var m := Run(ops, limit);
    RunSorted(ops, limit);
    RunIdsLayered(ops, limit);
    ScanIsOverlay(m.All());
  }

  /** Without flushes the scan also lists exactly the keys whose last write since
      the last clear was not a deletion, with the value written. */
  lemma ScanIsHistory(ops: seq<Op>, limit: nat)
    requires IdsNeverDecrease(ops) && forall i | 0 <= i < |ops| :: !ops[i].Flush?
    ensures forall k, v :: (k, v) in Scan(Items(Run(ops, limit)), 0) <==>
              LastValue(History(ops), k) == Some(v) && v != []
  {
    var m := Run(ops, limit);
    RunSorted(ops, limit);
    RunIdsLayered(ops, limit);
    ScanIsOverlay(m.All());
    RunHoldsHistory(ops, limit);
    NothingFlushed(ops, limit);
    assert m.All() + [] == m.All();
  }

  /** Decreasing ids break the comparison: a key frozen with id 5 and written
      again with id 3 has two versions each greater than the other. */
  lemma DecreasingIdsBreakOrder(limit: nat)
    requires limit >= 10
    ensures var ops := [Put([1], [2], 5), FreezeNow, Put([1], [3], 3)];
            && !IdsNeverDecrease(ops)
            && !OrderOn(Items(Run(ops, limit)))
  {
    hide Less, TotalBytes, Run, OrderOn, Greater;
    var ops := [Put([1], [2], 5), FreezeNow, Put([1], [3], 3)];
    assert IdOf(ops[0]) > IdOf(ops[2]);
    var m := Run(ops, limit);
    DecreasingRun(limit);
    var a, b := SearchItem([1], [3], 3, 0, 0), SearchItem([1], [2], 5, 1, 0);
    assert m.active[0] in m.All()[0] && m.frozen[0][0] in m.All()[1];
    ItemMember(m.All(), 0, a);
    ItemMember(m.All(), 0, b);
    assert Greater(a, b) && Greater(b, a) by {
      BothGreater(a, b);
    }
    if OrderOn(Items(m)) {
      OrderTransitive(Items(m), a, b, a);
    }
  }

  lemma BothGreater(a: SearchItem, b: SearchItem)
    requires a.key == b.key && a.trancId < b.trancId && a.idx < b.idx
    ensures Greater(a, b) && Greater(b, a)
  {
  }

  lemma DecreasingRun(limit: nat)
    requires limit >= 10
    ensures var m := Run([Put([1], [2], 5), FreezeNow, Put([1], [3], 3)], limit);
            m.active == [Entry([1], [3], 3)] && m.frozen == [[Entry([1], [2], 5)]]
  {
    hide Run, TotalBytes;
    var ops := [Put([1], [2], 5), FreezeNow, Put([1], [3], 3)];
    var o1, o2 := ops[..1], ops[..2];
    assert ops[..3] == ops && o2[..1] == o1 && o1[..0] == [];
    RunEnds([], limit);
    RunEnds(o1, limit);
    RunEnds(o2, limit);
    RunEnds(ops, limit);
    WriteFirst(EMPTY, [1], [2], 5);
    WriteFirst(Run(o2, limit), [1], [3], 3);
  }

  lemma WriteFirst(m: Mem, key: Bytes, value: Bytes, trancId: nat)
    requires m.active == [] && |key| == 1 && |value| == 1
    ensures WriteMany(m, [(key, value)], trancId) == m.(active := [Entry(key, value, trancId)])
    ensures TotalBytes([Entry(key, value, trancId)]) == 10
  {
    assert [(key, value)][..0] == [];
  }

  // ---------------------------------------------------------- what a heap shows

  function LiveOf(v: Option<Bytes>): Option<Bytes> {
    if v == Some([]) then None else v
  }

  ghost predicate LiveBelow(held: Bytes -> Option<Bytes>, key: Bytes) {
    exists k :: Less(k, key) && LiveOf(held(k)).Some?
  }

  /** What a heap that holds some newest values shows for a key: it drops every
      tombstone without a transaction, and with one only those below all live
      keys. */
  ghost function Shown(held: Bytes -> Option<Bytes>, readId: nat, key: Bytes): Option<Bytes> {
    if held(key) == Some([]) && (readId == 0 || !LiveBelow(held, key)) then None else held(key)
  }

  lemma HeapShows(items: seq<SearchItem>, held: Bytes -> Option<Bytes>, readId: nat)
    requires LinearOn(items) && forall kv :: ShowsWinner(items, kv) <==> held(kv.0) == Some(kv.1)
    ensures Increasing(Scan(items, readId))
    ensures forall kv :: kv in Scan(items, readId) <==> Shown(held, readId, kv.0) == Some(kv.1)
  {
    hide Scan, LinearOn, ShowsWinner, Less, LiveBelow, LiveBefore, Increasing;
    if readId == 0 {
      ScanExact(items);
    } else {
      TransactionScanExact(items, readId);
      forall key
        ensures LiveBefore(items, key) <==> LiveBelow(held, key)
      {
        LiveIsHeld(items, held, key);
      }
    }
  }

  lemma LiveIsHeld(items: seq<SearchItem>, held: Bytes -> Option<Bytes>, key: Bytes)
    requires forall kv :: ShowsWinner(items, kv) <==> held(kv.0) == Some(kv.1)
    ensures LiveBefore(items, key) <==> LiveBelow(held, key)
  {
    hide Less, Wins;
    if x :| Wins(items, x) && x.value != [] && Less(x.key, key) {
      assert ShowsWinner(items, (x.key, x.value));
    }
    if k :| Less(k, key) && LiveOf(held(k)).Some? {
      assert ShowsWinner(items, (k, held(k).value));
    }
  }

  /** The heap over a stack of tables whose ids follow age shows what they hold, as
      every heap does, for every read id. */
  lemma TablesShow(tables: seq<Table>, readId: nat)
    requires AllSorted(tables) && IdsFollowAge(tables)
    ensures var items := ItemsFrom(tables, 0);
            && LinearOn(items) && Increasing(Scan(items, readId))
            && forall kv :: kv in Scan(items, readId) <==> Shown(TablesHeld(tables), readId, kv.0) == Some(kv.1)
  {
    hide Scan, LinearOn, ShowsWinner, Overlay, ItemsFrom, AllSorted, IdsFollowAge, Increasing;
    var items := ItemsFrom(tables, 0);
    ItemsLinearIff(tables);
    forall kv
      ensures ShowsWinner(items, kv) <==> TablesHeld(tables)(kv.0) == Some(kv.1)
    {
      WinnerIsOverlay(tables, kv);
    }
    HeapShows(items, TablesHeld(tables), readId);
  }

  // ------------------------------------------------------------ range queries

  function StartsWith(prefix: Bytes): Bytes -> bool {
    key => prefix <= key
  }

  function InRange(f: Bytes -> int): Bytes -> bool {
    key => f(key) == 0
  }

  /** Every table cut down to the keys that satisfy a condition. */
  function SelectAll(tables: seq<Table>, f: Bytes -> bool): (r: seq<Table>)
    ensures |r| == |tables|
    ensures forall i | 0 <= i < |tables| :: r[i] == Select(tables[i], f)
  {
    seq(|tables|, i requires 0 <= i < |tables| => Select(tables[i], f))
  }

  function KeepKeys(out: seq<KeyValue>, f: Bytes -> bool): (r: seq<KeyValue>)
    ensures forall kv :: kv in r <==> kv in out && f(kv.0)
  {
    if out == [] then []
    else (if f(out[0].0) then [out[0]] else []) + KeepKeys(out[1..], f)
  }

  lemma SelectLookup(t: Table, f: Bytes -> bool, key: Bytes)
    requires Sorted(t)
    ensures Lookup(Select(t, f), key) == if f(key) then Lookup(t, key) else None
  {
    if f(key) && Lookup(t, key).Some? {
      assert Lookup(t, key).value in Select(t, f);
      SameEntry(t, Lookup(t, key).value, Lookup(Select(t, f), key).value);
    }
  }

  lemma {:induction false} SelectOverlay(tables: seq<Table>, f: Bytes -> bool, key: Bytes)
    requires AllSorted(tables)
    ensures Overlay(SelectAll(tables, f), key) == if f(key) then Overlay(tables, key) else None
  {
    if tables == [] {
    } else {
      assert SelectAll(tables, f)[1..] == SelectAll(tables[1..], f);
      SelectLookup(tables[0], f, key);
      SelectOverlay(tables[1..], f, key);
    }
  }

  lemma {:induction false} KeepKeysIncreasing(out: seq<KeyValue>, f: Bytes -> bool)
    requires Increasing(out)
    ensures Increasing(KeepKeys(out, f))
  {
    hide Less;
    if out == [] {
    } else {
      KeepKeysIncreasing(out[1..], f);
      forall kv | kv in KeepKeys(out[1..], f)
        ensures Less(out[0].0, kv.0)
      {
        var i :| 0 <= i < |out[1..]| && out[1..][i] == kv;
        assert out[i + 1] == kv;
      }
    }
  }

  /** An increasing sequence is determined by its members. */
  lemma {:induction false} IncreasingUnique(a: seq<KeyValue>, b: seq<KeyValue>)
    requires Increasing(a) && Increasing(b)
    requires forall kv :: kv in a <==> kv in b
    ensures a == b
  {
    if a != [] {
      assert a[0] in a;
    }
    if b != [] {
      assert b[0] in b;
    }
    if a != [] && b != [] {
      assert a[0] in b && b[0] in a;
      var i :| 0 <= i < |b| && b[i] == a[0];
      var j :| 0 <= j < |a| && a[j] == b[0];
      if i > 0 && j > 0 {
        LessAsymmetric(a[0].0, b[0].0);
      }
      assert a[0] == b[0];
      forall kv
        ensures kv in a[1..] <==> kv in b[1..]
      {
        TailMember(a, kv);
        TailMember(b, kv);
      }
      IncreasingUnique(a[1..], b[1..]);
    }
  }

  lemma TailMember(out: seq<KeyValue>, kv: KeyValue)
    requires Increasing(out) && out != []
    ensures kv in out[1..] <==> kv in out && kv != out[0]
  {
    if kv in out[1..] {
      var i :| 0 <= i < |out[1..]| && out[1..][i] == kv;
      LessAsymmetric(out[0].0, out[i + 1].0);
    }
  }

  /** Range queries commute with merging: scanning the selected parts of all
      tables is selecting from the full scan. */
  lemma RangeScanIsFilteredScan(tables: seq<Table>, f: Bytes -> bool)
    requires AllSorted(tables) && IdsFollowAge(tables)
    ensures LinearOn(ItemsFrom(SelectAll(tables, f), 0))
    ensures Scan(ItemsFrom(SelectAll(tables, f), 0), 0) == KeepKeys(Scan(ItemsFrom(tables, 0), 0), f)
  {
    hide Less, Greater, Scan, Overlay, Increasing, ItemsFrom, IdsFollowAge;
    var parts := SelectAll(tables, f);
    SelectedTablesFit(tables, f);
    ScanIsOverlay(tables);
    ScanIsOverlay(parts);
    var full := Scan(ItemsFrom(tables, 0), 0);
    KeepKeysIncreasing(full, f);
    forall kv
      ensures kv in Scan(ItemsFrom(parts, 0), 0) <==> kv in KeepKeys(full, f)
    {
      SelectOverlay(tables, f, kv.0);
    }
    IncreasingUnique(Scan(ItemsFrom(parts, 0), 0), KeepKeys(full, f));
  }

  lemma SelectedTablesFit(tables: seq<Table>, f: Bytes -> bool)
    requires AllSorted(tables) && IdsFollowAge(tables)
    ensures AllSorted(SelectAll(tables, f)) && IdsFollowAge(SelectAll(tables, f))
  {
    hide Sorted;
    forall i | 0 <= i < |tables|
      ensures Sorted(SelectAll(tables, f)[i])
    {
      SelectionSorted(tables[i], f);
    }
  }

  /** A deleted key in the range after some live key, but after none in the range:
      the full scan with a transaction shows its tombstone, and the range scan takes
      it for a leading one. */
  ghost predicate LeadsInRange(tables: seq<Table>, f: Bytes -> bool, key: Bytes) {
    && f(key) && TablesHeld(tables)(key) == Some([])
    && LiveBelow(TablesHeld(tables), key) && !LiveBelow(TablesHeld(SelectAll(tables, f)), key)
  }

  /** With a transaction id scanning the selected parts is selecting from the full
      scan if and only if no deleted key in the range comes after a live key outside
      it and after none inside. Without one it always is. */
  lemma RangeScanIsFilteredIff(tables: seq<Table>, f: Bytes -> bool, readId: nat)
    requires AllSorted(tables) && IdsFollowAge(tables)
    ensures Scan(ItemsFrom(SelectAll(tables, f), 0), readId) == KeepKeys(Scan(ItemsFrom(tables, 0), readId), f)
            <==> readId == 0 || !exists key :: LeadsInRange(tables, f, key)
  {
    hide Less, Scan, Overlay, Increasing, ItemsFrom, IdsFollowAge, AllSorted, TablesHeld, Shown, LeadsInRange, LinearOn;
    var parts := SelectAll(tables, f);
    var range, full := Scan(ItemsFrom(parts, 0), readId), Scan(ItemsFrom(tables, 0), readId);
    SelectedTablesFit(tables, f);
    TablesShow(tables, readId);
    TablesShow(parts, readId);
    KeepKeysIncreasing(full, f);
    forall key
      ensures ShownAlike(tables, f, readId, key) <==> readId == 0 || !LeadsInRange(tables, f, key)
    {
      RangeShows(tables, f, readId, key);
    }
    if forall key :: ShownAlike(tables, f, readId, key) {
      forall kv
        ensures kv in range <==> kv in KeepKeys(full, f)
      {
        assert ShownAlike(tables, f, readId, kv.0);
      }
      IncreasingUnique(range, KeepKeys(full, f));
    } else {
      var key :| !ShownAlike(tables, f, readId, key);
      DifferentPair(tables, f, readId, key, range, full);
    }
  }

  /** Both scans show the same for a key: what the full scan shows, in the range. */
  ghost predicate ShownAlike(tables: seq<Table>, f: Bytes -> bool, readId: nat, key: Bytes) {
    Shown(TablesHeld(SelectAll(tables, f)), readId, key) ==
    if f(key) then Shown(TablesHeld(tables), readId, key) else None
  }

  lemma DifferentPair(tables: seq<Table>, f: Bytes -> bool, readId: nat, key: Bytes,
                      range: seq<KeyValue>, full: seq<KeyValue>)
    requires forall kv :: kv in range <==> Shown(TablesHeld(SelectAll(tables, f)), readId, kv.0) == Some(kv.1)
    requires forall kv :: kv in full <==> Shown(TablesHeld(tables), readId, kv.0) == Some(kv.1)
    requires !ShownAlike(tables, f, readId, key)
    ensures range != KeepKeys(full, f)
  {
    hide Shown, TablesHeld;
    var a, b := Shown(TablesHeld(SelectAll(tables, f)), readId, key), Shown(TablesHeld(tables), readId, key);
    if a.Some? {
      assert (key, a.value) in range && (key, a.value) !in KeepKeys(full, f);
    } else {
      assert (key, b.value) !in range && (key, b.value) in KeepKeys(full, f);
    }
  }

  lemma RangeShows(tables: seq<Table>, f: Bytes -> bool, readId: nat, key: Bytes)
    requires AllSorted(tables)
    ensures ShownAlike(tables, f, readId, key) <==> readId == 0 || !LeadsInRange(tables, f, key)
  {
    hide Less, LiveBelow, Overlay, AllSorted;
    SelectOverlay(tables, f, key);
    if LiveBelow(TablesHeld(SelectAll(tables, f)), key) {
      LiveInRange(tables, f, key);
    }
  }

  lemma LiveInRange(tables: seq<Table>, f: Bytes -> bool, key: Bytes)
    requires AllSorted(tables) && LiveBelow(TablesHeld(SelectAll(tables, f)), key)
    ensures LiveBelow(TablesHeld(tables), key)
  {
    hide Less, Overlay, AllSorted;
    var k :| Less(k, key) && LiveOf(TablesHeld(SelectAll(tables, f))(k)).Some?;
    SelectOverlay(tables, f, k);
    assert LiveOf(TablesHeld(tables)(k)).Some?;
  }

  /** The smallest difference: one live key, one deleted key with the prefix. */
  lemma RangeScanDropsTombstone()
    ensures var live, gone := Entry([1], [7], 0), Entry([2], [], 0);
            && Scan(ItemsFrom([[live, gone]], 0), 1) == [([1], [7]), ([2], [])]
            && Scan(ItemsFrom(SelectAll([[live, gone]], StartsWith([2])), 0), 1) == []
  {
    var live, gone := Entry([1], [7], 0), Entry([2], [], 0);
    var items := [ItemOf(live, 0), ItemOf(gone, 0)];
    assert ItemsFrom([[live, gone]], 0) == items;
    assert Select([gone], StartsWith([2])) == [gone];
    assert Select([live, gone], StartsWith([2])) == [gone] by {
      assert [live, gone][1..] == [gone];
      assert !([2] <= live.key) by {
        assert live.key[0] == 1;
      }
    }
    assert SelectAll([[live, gone]], StartsWith([2])) == [[gone]];
    assert ItemsFrom([[gone]], 0) == [ItemOf(gone, 0)];
    SmallestShownTombstone();
    TombstoneAlone(ItemOf(gone, 0), 1);
  }
}
