/** A scan over the whole store, with a transaction or without: the memtable's
    heap, the heap over the L0 tables, and one source per prefix of each deeper
    level. */
module EngineScans {
  import opened Keys
  import opened Tables
  import opened Layers
  import opened SearchItems
  import opened HeapIterators
  import opened Scans
  import opened LevelMerges

  /** An SST, abstracted to its id and its entries in key order. */
  datatype Sst = Sst(id: nat, data: Table)

  // ------------------------------------------------------------ L0 indices

  const TWO32: int := 0x1_0000_0000
  const TWO31: int := 0x8000_0000

  /** `-sst_id` on an unsigned 64-bit id, narrowed to a 32-bit `int`. */
  function NegatedIndex(id: nat): (idx: int)
    ensures -TWO31 <= idx < TWO31
  {
    var n: int := id;
    var low := Wrap64(0 - n) % TWO32;
    if low >= TWO31 then low - TWO32 else low
  }

  /** The narrowed index is the negated id exactly up to 2^31. */
  lemma NegatedIndexExactIff(id: nat)
    requires id < TWO64
    ensures NegatedIndex(id) == 0 - id <==> id <= TWO31
  {
  }

  /** Of two ids the larger gets the smaller index exactly if their last 32 bits
      lie on the same side of 2^31 in the same order, or those of the smaller id
      past it and those of the larger one not. */
  lemma NewerFirstIff(older: nat, newer: nat)
    requires older < newer < TWO64
    ensures NegatedIndex(newer) < NegatedIndex(older) <==>
            var (o, n) := (older % TWO32, newer % TWO32);
            if o <= TWO31 <==> n <= TWO31 then o < n else o > TWO31
  {
    hide NegatedIndex;
    NegatedIndexForm(older);
    NegatedIndexForm(newer);
  }

  /** Only the last 32 bits of an id count, and past 2^31 they give a positive
      index. */
  lemma NegatedIndexForm(id: nat)
    requires id < TWO64
    ensures var low := id % TWO32;
            NegatedIndex(id) == if low <= TWO31 then 0 - low else TWO32 - low
  {
    var q, low := id / TWO32, id % TWO32;
    if id > 0 {
      assert Wrap64(0 - id) == TWO64 - id;
      if low == 0 {
        assert TWO64 - id == (TWO32 - q) * TWO32 + 0;
      } else {
        assert TWO64 - id == (TWO32 - q - 1) * TWO32 + (TWO32 - low);
      }
    }
  }

  // -------------------------------------------------------------- L0 merge

  function L0Item(s: Sst, e: Entry, readId: nat): SearchItem {
    SearchItem(e.key, e.value, readId, NegatedIndex(s.id), 0)
  }

  function SstItems(s: Sst, readId: nat): (r: seq<SearchItem>)
    ensures |r| == |s.data|
    ensures forall i | 0 <= i < |r| :: r[i] == L0Item(s, s.data[i], readId)
  {
    seq(|s.data|, i requires 0 <= i < |s.data| => L0Item(s, s.data[i], readId))
  }

  /** The items of the L0 heap. Every SST iterator reports the scan's read id, so
      no item is newer than the transaction and none is left out. */
  function L0Items(ssts: seq<Sst>, readId: nat): seq<SearchItem> {
    if ssts == [] then [] else SstItems(ssts[0], readId) + L0Items(ssts[1..], readId)
  }

  ghost predicate DistinctIds(ssts: seq<Sst>) {
    && (forall s | s in ssts :: s.id < TWO64)
    && (forall i, j | 0 <= i < |ssts| && 0 <= j < |ssts| && ssts[i].id == ssts[j].id :: i == j)
  }

  /** The larger id always gets the smaller index. `NewerFirstIff` says when. */
  ghost predicate IdsInOrder(ssts: seq<Sst>) {
    forall s, r | s in ssts && r in ssts && s.id < r.id :: NegatedIndex(r.id) < NegatedIndex(s.id)
  }

  ghost predicate SstsSorted(ssts: seq<Sst>) {
    forall s | s in ssts :: Sorted(s.data)
  }

  ghost predicate L0Fit(ssts: seq<Sst>) {
    DistinctIds(ssts) && SstsSorted(ssts) && IdsInOrder(ssts)
  }

  /** Ids up to 2^31 are in order. */
  lemma SmallIdsInOrder(ssts: seq<Sst>)
    requires forall s | s in ssts :: s.id <= TWO31
    ensures IdsInOrder(ssts)
  {
    forall s, r | s in ssts && r in ssts && s.id < r.id
      ensures NegatedIndex(r.id) < NegatedIndex(s.id)
    {
      NegatedIndexExactIff(s.id);
      NegatedIndexExactIff(r.id);
    }
  }

  lemma {:induction false} L0ItemOrigin(ssts: seq<Sst>, readId: nat, x: SearchItem) returns (s: nat, e: Entry)
    requires x in L0Items(ssts, readId)
    ensures s < |ssts| && e in ssts[s].data && x == L0Item(ssts[s], e, readId)
  {
    var d, own := ssts[0].data, SstItems(ssts[0], readId);
    if x in own {
      var i :| 0 <= i < |own| && own[i] == x;
      s, e := 0, d[i];
    } else {
      var r;
      r, e := L0ItemOrigin(ssts[1..], readId, x);
      s := r + 1;
    }
  }

  lemma {:induction false} L0ItemPresent(ssts: seq<Sst>, readId: nat, s: nat, e: Entry)
    requires s < |ssts| && e in ssts[s].data
    ensures L0Item(ssts[s], e, readId) in L0Items(ssts, readId)
  {
    var d, own := ssts[0].data, SstItems(ssts[0], readId);
    if s == 0 {
      var i :| 0 <= i < |d| && d[i] == e;
      assert own[i] == L0Item(ssts[0], e, readId);
    } else {
      L0ItemPresent(ssts[1..], readId, s - 1, e);
    }
  }

  /** Two L0 items compare by key and then by id, the larger id first. */
  lemma L0Compares(ssts: seq<Sst>, readId: nat, x: SearchItem, y: SearchItem, s: nat, e: Entry, r: nat, f: Entry)
    requires L0Fit(ssts) && s < |ssts| && r < |ssts| && e in ssts[s].data && f in ssts[r].data
    requires x == L0Item(ssts[s], e, readId) && y == L0Item(ssts[r], f, readId)
    ensures Greater(x, y) <==> Less(f.key, e.key) || (e.key == f.key && ssts[s].id < ssts[r].id)
    ensures e.key == f.key && ssts[s].id == ssts[r].id ==> x == y
  {
    hide NegatedIndex;
    assert ssts[s] in ssts && ssts[r] in ssts;
    LessAsymmetricSelf(e.key);
    if e.key == f.key && ssts[s].id == ssts[r].id {
      SameEntry(ssts[s].data, e, f);
    }
  }

  lemma L0Linear(ssts: seq<Sst>, readId: nat)
    requires L0Fit(ssts)
    ensures LinearOn(L0Items(ssts, readId))
  {
    var items := L0Items(ssts, readId);
    forall x, y | x in items && y in items && x != y
      ensures Greater(x, y) <==> !Greater(y, x)
    {
      var s, e := L0ItemOrigin(ssts, readId, x);
      var r, f := L0ItemOrigin(ssts, readId, y);
      L0Compares(ssts, readId, x, y, s, e, r, f);
      L0Compares(ssts, readId, y, x, r, f, s, e);
      LessTotal(e.key, f.key);
      if Less(e.key, f.key) {
        LessAsymmetric(e.key, f.key);
      } else if Less(f.key, e.key) {
        LessAsymmetric(f.key, e.key);
      }
    }
  }

  /** SST number `s` is the newest that has the key. */
  ghost predicate NewestWith(ssts: seq<Sst>, s: nat, key: Bytes)
    ensures NewestWith(ssts, s, key) ==> s < |ssts| && Lookup(ssts[s].data, key).Some?
  {
    && s < |ssts| && Lookup(ssts[s].data, key).Some?
    && forall r | 0 <= r < |ssts| && Lookup(ssts[r].data, key).Some? :: ssts[r].id <= ssts[s].id
  }

  /** The value of a key in L0: that of the newest SST that has it. */
  ghost function L0Value(ssts: seq<Sst>, key: Bytes): Option<Bytes> {
    if exists s: nat :: NewestWith(ssts, s, key) then
      var s: nat :| NewestWith(ssts, s, key);
      Some(Lookup(ssts[s].data, key).value.value)
    else None
  }

  lemma L0ValueIs(ssts: seq<Sst>, s: nat, key: Bytes)
    requires DistinctIds(ssts) && NewestWith(ssts, s, key)
    ensures L0Value(ssts, key) == Some(Lookup(ssts[s].data, key).value.value)
  {
    forall r: nat | NewestWith(ssts, r, key)
      ensures r == s
    {
      NewestUnique(ssts, r, s, key);
    }
  }

  lemma NewestUnique(ssts: seq<Sst>, r: nat, s: nat, key: Bytes)
    requires DistinctIds(ssts) && NewestWith(ssts, r, key) && NewestWith(ssts, s, key)
    ensures r == s
  {
    assert ssts[r].id <= ssts[s].id <= ssts[r].id;
  }

  lemma L0WinnerIsNewest(ssts: seq<Sst>, readId: nat, s: nat, key: Bytes)
    requires L0Fit(ssts) && NewestWith(ssts, s, key)
    ensures Wins(L0Items(ssts, readId), L0Item(ssts[s], Lookup(ssts[s].data, key).value, readId))
  {
    var e := Lookup(ssts[s].data, key).value;
    var w := L0Item(ssts[s], e, readId);
    L0ItemPresent(ssts, readId, s, e);
    forall y | y in L0Items(ssts, readId) && y.key == key
      ensures !Greater(w, y)
    {
      var r, f := L0ItemOrigin(ssts, readId, y);
      assert Lookup(ssts[r].data, key).Some?;
      L0Compares(ssts, readId, w, y, s, e, r, f);
      LessAsymmetricSelf(key);
    }
  }

  ghost function L0Held(ssts: seq<Sst>): Bytes -> Option<Bytes> {
    key => L0Value(ssts, key)
  }

  /** The L0 heap is right for these tables: for every key it shows what the SST
      with the largest id holds, tombstones as every heap does. */
  ghost predicate L0Exact(ssts: seq<Sst>, readId: nat) {
    var items := L0Items(ssts, readId);
    && LinearOn(items) && Increasing(Scan(items, readId))
    && forall kv :: kv in Scan(items, readId) <==> Shown(L0Held(ssts), readId, kv.0) == Some(kv.1)
  }

  /** The newest L0 table wins wherever the larger id gets the smaller index. */
  lemma L0NewestWins(ssts: seq<Sst>, readId: nat)
    requires L0Fit(ssts)
    ensures L0Exact(ssts, readId)
  {
    hide LinearOn, Scan, L0Items, L0Value, L0Fit, ShowsWinner, Increasing;
    L0Linear(ssts, readId);
    forall kv
      ensures ShowsWinner(L0Items(ssts, readId), kv) <==> L0Held(ssts)(kv.0) == Some(kv.1)
    {
      L0ShowsNewest(ssts, readId, kv);
    }
    HeapShows(L0Items(ssts, readId), L0Held(ssts), readId);
  }

  ghost predicate SameIds(a: seq<Sst>, b: seq<Sst>) {
    |a| == |b| && forall i | 0 <= i < |a| :: a[i].id == b[i].id
  }

  /** The L0 heap is right for all contents of the SSTs with given ids if and only
      if the larger id always gets the smaller index. */
  lemma L0NewestWinsIff(ssts: seq<Sst>, readId: nat)
    requires DistinctIds(ssts)
    ensures (forall others | SameIds(ssts, others) && SstsSorted(others) :: L0Exact(others, readId))
            <==> IdsInOrder(ssts)
  {
    hide L0Exact, NegatedIndex, Sorted;
    if IdsInOrder(ssts) {
      forall others | SameIds(ssts, others) && SstsSorted(others)
        ensures L0Exact(others, readId)
      {
        SameIdsFit(ssts, others);
        L0NewestWins(others, readId);
      }
    } else {
      var s, r :| s in ssts && r in ssts && s.id < r.id && NegatedIndex(s.id) <= NegatedIndex(r.id);
      var i: nat :| i < |ssts| && ssts[i] == s;
      var j: nat :| j < |ssts| && ssts[j] == r;
      OlderWins(ssts, i, j, readId);
      var others := TwoVersions(ssts, i, j);
      assert SameIds(ssts, others) && SstsSorted(others) && !L0Exact(others, readId);
    }
  }

  lemma SameIdsFit(ssts: seq<Sst>, others: seq<Sst>)
    requires SameIds(ssts, others) && DistinctIds(ssts) && IdsInOrder(ssts)
    ensures DistinctIds(others) && IdsInOrder(others)
  {
    hide NegatedIndex;
    forall s | s in others
      ensures exists i: nat :: i < |ssts| && others[i] == s && ssts[i] in ssts
    {
      var i: nat :| i < |others| && others[i] == s;
      assert ssts[i] in ssts;
    }
  }

  /** SSTs with the same ids of which two hold a version of one key. */
  function TwoVersions(ssts: seq<Sst>, i: nat, j: nat): (r: seq<Sst>)
    requires i < |ssts| && j < |ssts| && i != j
    ensures |r| == |ssts| && SameIds(ssts, r) && SstsSorted(r)
    ensures forall k | 0 <= k < |r| ::
              r[k].data == if k == i then [Entry([1], [1], 0)] else if k == j then [Entry([1], [2], 0)] else []
  {
    seq(|ssts|, k requires 0 <= k < |ssts| =>
      Sst(ssts[k].id, if k == i then [Entry([1], [1], 0)] else if k == j then [Entry([1], [2], 0)] else []))
  }

  lemma OlderWins(ssts: seq<Sst>, i: nat, j: nat, readId: nat)
    requires DistinctIds(ssts) && i < |ssts| && j < |ssts|
    requires ssts[i].id < ssts[j].id && NegatedIndex(ssts[i].id) <= NegatedIndex(ssts[j].id)
    ensures !L0Exact(TwoVersions(ssts, i, j), readId)
  {
    hide NegatedIndex, L0Items, Scan, Increasing, Sorted, L0Value, Shown;
    var others := TwoVersions(ssts, i, j);
    var older, newer := Entry([1], [1], 0), Entry([1], [2], 0);
    var x, y := L0Item(others[i], older, readId), L0Item(others[j], newer, readId);
    var items, kv := L0Items(others, readId), ([1], [2]);
    L0ItemPresent(others, readId, i, older);
    L0ItemPresent(others, readId, j, newer);
    assert others[i].id == ssts[i].id && others[j].id == ssts[j].id;
    if L0Exact(others, readId) {
      assert Greater(y, x);
      NewestHeld(others, i, j, readId);
      HeapOnlyShowsWinners(items, readId, kv);
      var z :| Wins(items, z) && z.key == kv.0 && z.value == kv.1;
      var s, e := L0ItemOrigin(others, readId, z);
      assert false;
    }
  }

  lemma NewestHeld(ssts: seq<Sst>, i: nat, j: nat, readId: nat)
    requires i < |ssts| && j < |ssts| && ssts[i].id < ssts[j].id
    requires forall s, r | 0 <= s < |ssts| && 0 <= r < |ssts| && ssts[s].id == ssts[r].id :: s == r
    requires forall s | s in ssts :: s.id < TWO64
    requires forall k | 0 <= k < |ssts| ::
              ssts[k].data == if k == i then [Entry([1], [1], 0)] else if k == j then [Entry([1], [2], 0)] else []
    ensures Shown(L0Held(ssts), readId, [1]) == Some([2])
  {
    assert NewestWith(ssts, j, [1]);
    L0ValueIs(ssts, j, [1]);
  }

  lemma HeapOnlyShowsWinners(items: seq<SearchItem>, readId: nat, kv: KeyValue)
    requires LinearOn(items) && kv in Scan(items, readId)
    ensures ShowsWinner(items, kv)
  {
    hide LinearOn, Scan;
    if readId == 0 {
      ScanExact(items);
    } else {
      TransactionScanExact(items, readId);
    }
  }

  lemma L0ShowsNewest(ssts: seq<Sst>, readId: nat, kv: KeyValue)
    requires L0Fit(ssts)
    ensures ShowsWinner(L0Items(ssts, readId), kv) <==> L0Value(ssts, kv.0) == Some(kv.1)
  {
    hide Less, Greater, Lookup, Wins, DistinctIds, SstsSorted, IdsInOrder, NewestWith, LinearOn, L0Items;
    var items := L0Items(ssts, readId);
    if ShowsWinner(items, kv) {
      var x :| Wins(items, x) && x.key == kv.0 && x.value == kv.1;
      L0ShownIsNewest(ssts, readId, x);
    }
    if s: nat :| NewestWith(ssts, s, kv.0) {
      L0ValueIs(ssts, s, kv.0);
      L0WinnerIsNewest(ssts, readId, s, kv.0);
      L0Linear(ssts, readId);
      OneWinner(items, kv, L0Item(ssts[s], Lookup(ssts[s].data, kv.0).value, readId));
    }
  }

  lemma L0ShownIsNewest(ssts: seq<Sst>, readId: nat, x: SearchItem)
    requires L0Fit(ssts) && Wins(L0Items(ssts, readId), x)
    ensures exists s: nat :: NewestWith(ssts, s, x.key)
  {
    var s, e := L0ItemOrigin(ssts, readId, x);
    forall r | 0 <= r < |ssts| && Lookup(ssts[r].data, x.key).Some?
      ensures ssts[r].id <= ssts[s].id
    {
      L0OlderLoses(ssts, readId, x, s, e, r);
    }
    assert NewestWith(ssts, s, x.key);
  }

  lemma L0OlderLoses(ssts: seq<Sst>, readId: nat, x: SearchItem, s: nat, e: Entry, r: nat)
    requires L0Fit(ssts) && Wins(L0Items(ssts, readId), x)
    requires s < |ssts| && e in ssts[s].data && x == L0Item(ssts[s], e, readId)
    requires r < |ssts| && Lookup(ssts[r].data, x.key).Some?
    ensures ssts[r].id <= ssts[s].id
  {
    hide L0Items, Greater, Less, L0Fit, Lookup, NegatedIndex;
    var f := Lookup(ssts[r].data, x.key).value;
    var y := L0Item(ssts[r], f, readId);
    L0ItemPresent(ssts, readId, r, f);
    LessAsymmetricSelf(x.key);
    assert y in L0Items(ssts, readId) && !Greater(x, y);
    L0Compares(ssts, readId, x, y, s, e, r, f);
  }

  /** A linear set of items has one winner per key. */
  lemma OneWinner(items: seq<SearchItem>, kv: KeyValue, w: SearchItem)
    requires LinearOn(items) && Wins(items, w) && w.key == kv.0
    ensures ShowsWinner(items, kv) <==> w.value == kv.1
  {
    hide Greater;
    if ShowsWinner(items, kv) {
      var x :| Wins(items, x) && x.key == kv.0 && x.value == kv.1;
    }
  }

  // ---------------------------------------------------------- deeper levels

  function Pairs(t: Table): (r: Source)
    ensures |r| == |t| && forall i | 0 <= i < |t| :: r[i] == (t[i].key, t[i].value)
  {
    seq(|t|, i requires 0 <= i < |t| => (t[i].key, t[i].value))
  }

  /** A level's tables read one after the other. */
  function Chained(tables: seq<Table>): Source {
    if tables == [] then [] else Chained(tables[..|tables| - 1]) + Pairs(tables[|tables| - 1])
  }

  lemma {:induction false} FirstValueConcat(a: Source, b: Source, key: Bytes)
    ensures FirstValue(a + b, key) == if FirstValue(a, key).Some? then FirstValue(a, key) else FirstValue(b, key)
  {
    if a == [] {
      assert a + b == b;
    } else {
      assert (a + b)[1..] == a[1..] + b;
      FirstValueConcat(a[1..], b, key);
    }
  }

  lemma {:induction false} PairsLookup(t: Table, key: Bytes)
    ensures FirstValue(Pairs(t), key) == ValueOf(Lookup(t, key))
  {
    if t == [] {
    } else {
      assert Pairs(t)[1..] == Pairs(t[1..]);
      PairsLookup(t[1..], key);
    }
  }

  /** A level read table by table answers as its stack of tables does. */
  lemma {:induction false} ChainedIsOverlay(tables: seq<Table>, key: Bytes)
    ensures FirstValue(Chained(tables), key) == ValueOf(Overlay(tables, key))
  {
    hide Lookup, FirstValue;
    if tables == [] {
      assert FirstValue([], key) == None;
    } else {
      var n := |tables| - 1;
      ChainedIsOverlay(tables[..n], key);
      FirstValueConcat(Chained(tables[..n]), Pairs(tables[n]), key);
      PairsLookup(tables[n], key);
      assert tables == tables[..n] + [tables[n]];
      OverlayConcat(tables[..n], [tables[n]], key);
      OneTable(tables[n], key);
    }
  }

  lemma OneTable(t: Table, key: Bytes)
    ensures Overlay([t], key) == Lookup(t, key)
  {
  }

  /** The sources the constructor builds for one level: the list of tables grows
      and after each table a source over the list so far is added. */
  function PrefixSources(tables: seq<Table>): (r: seq<Source>)
    ensures |r| == |tables|
    ensures forall j | 0 <= j < |r| :: r[j] == Chained(tables[..j + 1])
  {
    seq(|tables|, j requires 0 <= j < |tables| => Chained(tables[..j + 1]))
  }

  lemma {:induction false} LevelLookupConcat(a: seq<Source>, b: seq<Source>, key: Bytes)
    ensures LevelLookup(a + b, key) == if LevelLookup(a, key).Some? then LevelLookup(a, key) else LevelLookup(b, key)
  {
    if a == [] {
      assert a + b == b;
    } else {
      assert (a + b)[1..] == a[1..] + b;
      LevelLookupConcat(a[1..], b, key);
    }
  }

  /** The extra sources over prefixes of a level change no lookup: together they
      answer as the one source over the whole level. */
  lemma {:induction false} PrefixSourcesHarmless(tables: seq<Table>, key: Bytes)
    ensures LevelLookup(PrefixSources(tables), key) == FirstValue(Chained(tables), key)
  {
    if tables == [] {
    } else {
      var n := |tables| - 1;
      var front := tables[..n];
      PrefixSourcesHarmless(front, key);
      assert tables[..n + 1] == tables;
      forall j | 0 <= j < n
        ensures PrefixSources(tables)[j] == PrefixSources(front)[j]
      {
        assert tables[..j + 1] == front[..j + 1];
      }
      assert PrefixSources(tables) == PrefixSources(front) + [Chained(tables)];
      LevelLookupConcat(PrefixSources(front), [Chained(tables)], key);
      FirstValueConcat(Chained(front), Pairs(tables[n]), key);
    }
  }

  function LevelSources(levels: seq<seq<Table>>): seq<Source> {
    if levels == [] then [] else PrefixSources(levels[0]) + LevelSources(levels[1..])
  }

  /** The value of a key in the deeper levels, the lowest level first. */
  function DeepValue(levels: seq<seq<Table>>, key: Bytes): Option<Bytes> {
    if levels == [] then None
    else if FirstValue(Chained(levels[0]), key).Some? then FirstValue(Chained(levels[0]), key)
    else DeepValue(levels[1..], key)
  }

  lemma {:induction false} LevelSourcesLookup(levels: seq<seq<Table>>, key: Bytes)
    ensures LevelLookup(LevelSources(levels), key) == DeepValue(levels, key)
  {
    if levels == [] {
    } else {
      PrefixSourcesHarmless(levels[0], key);
      LevelSourcesLookup(levels[1..], key);
      LevelLookupConcat(PrefixSources(levels[0]), LevelSources(levels[1..]), key);
    }
  }

  /** The answer of the deeper levels is that of the first level that has one. */
  lemma {:induction false} DeepFirstLevel(levels: seq<seq<Table>>, key: Bytes, n: nat)
    requires n <= |levels| && forall i | 0 <= i < n :: Overlay(levels[i], key).None?
    ensures n == |levels| ==> DeepValue(levels, key) == None
    ensures n < |levels| && Overlay(levels[n], key).Some? ==> DeepValue(levels, key) == ValueOf(Overlay(levels[n], key))
  {
    hide Overlay, Chained;
    if levels == [] {
    } else {
      ChainedIsOverlay(levels[0], key);
      if n > 0 {
        DeepFirstLevel(levels[1..], key, n - 1);
      }
    }
  }

  /** All tables of the deeper levels, the lowest level first. */
  function Flat(levels: seq<seq<Table>>): seq<Table> {
    if levels == [] then [] else levels[0] + Flat(levels[1..])
  }

  lemma {:induction false} DeepIsOverlay(levels: seq<seq<Table>>, key: Bytes)
    ensures DeepValue(levels, key) == ValueOf(Overlay(Flat(levels), key))
  {
    hide Chained;
    if levels == [] {
    } else {
      ChainedIsOverlay(levels[0], key);
      OverlayConcat(levels[0], Flat(levels[1..]), key);
      DeepIsOverlay(levels[1..], key);
    }
  }

  /** Along a level no key comes before a smaller one. */
  ghost predicate InOrder(tables: seq<Table>) {
    && (forall a, i, j {:trigger tables[a][i], tables[a][j]} ::
          0 <= a < |tables| && 0 <= i < j < |tables[a]| ==> !Less(tables[a][j].key, tables[a][i].key))
    && (forall a, b, e, f {:trigger e in tables[a], f in tables[b]} ::
          0 <= a < b < |tables| && e in tables[a] && f in tables[b] ==> !Less(f.key, e.key))
  }

  ghost predicate LevelsSorted(levels: seq<seq<Table>>) {
    forall i | 0 <= i < |levels| :: InOrder(levels[i])
  }

  lemma {:induction false} ChainedOrigin(tables: seq<Table>, kv: KeyValue) returns (a: nat, e: Entry)
    requires kv in Chained(tables)
    ensures a < |tables| && e in tables[a] && kv == (e.key, e.value)
  {
    var n := |tables| - 1;
    if kv in Chained(tables[..n]) {
      a, e := ChainedOrigin(tables[..n], kv);
    } else {
      var p := Pairs(tables[n]);
      var i :| 0 <= i < |p| && p[i] == kv;
      a, e := n, tables[n][i];
    }
  }

  /** So its source is sorted. */
  lemma {:induction false} ChainedSorted(tables: seq<Table>)
    requires InOrder(tables)
    ensures SourceSorted(Chained(tables))
  {
    hide Less;
    if tables == [] {
    } else {
      var n := |tables| - 1;
      var front, last := Chained(tables[..n]), Pairs(tables[n]);
      assert forall a | 0 <= a < n :: tables[..n][a] == tables[a];
      ChainedSorted(tables[..n]);
      assert SourceSorted(last) by {
        assert forall i | 0 <= i < |last| :: last[i].0 == tables[n][i].key;
      }
      forall x, y | x in front && y in last
        ensures !Less(y.0, x.0)
      {
        var a, e := ChainedOrigin(tables[..n], x);
        var j :| 0 <= j < |last| && last[j] == y;
        assert e in tables[a] && tables[n][j] in tables[n];
      }
      SortedConcat(front, last);
    }
  }

  lemma SortedConcat(a: Source, b: Source)
    requires SourceSorted(a) && SourceSorted(b) && forall x, y | x in a && y in b :: !Less(y.0, x.0)
    ensures SourceSorted(a + b)
  {
    hide Less;
  }

  lemma {:induction false} ChainedPrefix(tables: seq<Table>, j: nat)
    requires j <= |tables|
    ensures Chained(tables[..j]) <= Chained(tables)
  {
    if j == |tables| {
      assert tables[..j] == tables;
    } else {
      var n := |tables| - 1;
      assert tables[..n][..j] == tables[..j];
      ChainedPrefix(tables[..n], j);
    }
  }

  lemma {:induction false} LevelSourcesSorted(levels: seq<seq<Table>>)
    requires LevelsSorted(levels)
    ensures AllSourcesSorted(LevelSources(levels))
  {
    if levels == [] {
    } else {
      assert forall i | 0 <= i < |levels[1..]| :: levels[1..][i] == levels[i + 1];
      LevelSourcesSorted(levels[1..]);
      ChainedSorted(levels[0]);
      forall j | 0 <= j < |levels[0]|
        ensures SourceSorted(PrefixSources(levels[0])[j])
      {
        ChainedPrefix(levels[0], j + 1);
        SortedPrefix(Chained(levels[0][..j + 1]), Chained(levels[0]));
      }
      assert LevelSources(levels) == PrefixSources(levels[0]) + LevelSources(levels[1..]);
    }
  }

  lemma SortedPrefix(a: Source, b: Source)
    requires SourceSorted(b) && a <= b
    ensures SourceSorted(a)
  {
    assert forall i | 0 <= i < |a| :: a[i] == b[i];
  }

  // ------------------------------------------------- how the sources are built

  lemma {:induction false} L0ItemsConcat(a: seq<Sst>, b: seq<Sst>, readId: nat)
    ensures L0Items(a + b, readId) == L0Items(a, readId) + L0Items(b, readId)
  {
    if a == [] {
      assert a + b == b;
    } else {
      assert (a + b)[1..] == a[1..] + b;
      L0ItemsConcat(a[1..], b, readId);
    }
  }

  /** The constructor's loops over the L0 tables. Every iterator reports the read id,
      so the test for newer records lets all pass. */
  method BuildL0Items(ssts: seq<Sst>, readId: nat) returns (itemVec: seq<SearchItem>)
    ensures itemVec == L0Items(ssts, readId)
  {
    hide L0Item;
    itemVec := [];
    for i := 0 to |ssts|
      invariant itemVec == L0Items(ssts[..i], readId)
    {
      var s := ssts[i];
      var reported := readId;
      ghost var before := itemVec;
      for j := 0 to |s.data|
        invariant itemVec == before + SstItems(s, readId)[..j]
      {
        if readId != 0 && reported > readId {
          continue;
        }
        itemVec := itemVec + [L0Item(s, s.data[j], reported)];
      }
      assert ssts[..i + 1] == ssts[..i] + [s];
      L0ItemsConcat(ssts[..i], [s], readId);
      assert L0Items([s], readId) == SstItems(s, readId) + L0Items([], readId);
    }
    assert ssts[..|ssts|] == ssts;
  }

  lemma {:induction false} LevelSourcesConcat(a: seq<seq<Table>>, b: seq<seq<Table>>)
    ensures LevelSources(a + b) == LevelSources(a) + LevelSources(b)
  {
    if a == [] {
      assert a + b == b;
    } else {
      assert (a + b)[1..] == a[1..] + b;
      LevelSourcesConcat(a[1..], b);
    }
  }

  /** The constructor's loops over the deeper levels: within a level the list of
      tables grows, and after each table a source over the list so far is added. */
  method BuildLevelSources(levels: seq<seq<Table>>) returns (sources: seq<Source>)
    ensures sources == LevelSources(levels)
  {
    hide Chained;
    sources := [];
    for i := 0 to |levels|
      invariant sources == LevelSources(levels[..i])
    {
      var ssts: seq<Table> := [];
      ghost var before := sources;
      for j := 0 to |levels[i]|
        invariant ssts == levels[i][..j]
        invariant sources == before + PrefixSources(levels[i])[..j]
      {
        ssts := ssts + [levels[i][j]];
        sources := sources + [Chained(ssts)];
      }
      assert levels[..i + 1] == levels[..i] + [levels[i]];
      LevelSourcesConcat(levels[..i], [levels[i]]);
      assert LevelSources([levels[i]]) == PrefixSources(levels[i]) + LevelSources([]);
    }
    assert levels[..|levels|] == levels;
  }

  // -------------------------------------------------------- the whole store

  /** The sources of the level iterator. */
  function Sources(m: Mem, ssts: seq<Sst>, levels: seq<seq<Table>>, readId: nat): seq<Source> {
    [Scan(Items(m), readId), Scan(L0Items(ssts, readId), readId)] + LevelSources(levels)
  }

  /** Every heap and every SST iterator reports the read id. */
  function ReportedIds(n: nat, readId: nat): (r: seq<nat>)
    ensures |r| == n && forall i | 0 <= i < n :: r[i] == readId
  {
    seq(n, _ => readId)
  }

  /** The pairs a scan of the whole store yields. */
  function EngineScan(m: Mem, ssts: seq<Sst>, levels: seq<seq<Table>>, readId: nat): seq<KeyValue> {
    var sources := Sources(m, ssts, levels, readId);
    Merge(sources, ReportedIds(|sources|, readId), readId)
  }

  ghost predicate StoreFit(m: Mem, ssts: seq<Sst>, levels: seq<seq<Table>>, readId: nat) {
    && AllSorted(m.All()) && IdsFollowAge(m.All())
    && L0Fit(ssts)
    && LevelsSorted(levels)
    && EmptyKeyLast(Sources(m, ssts, levels, readId), |Sources(m, ssts, levels, readId)|)
  }

  function OrElse(a: Option<Bytes>, b: Option<Bytes>): Option<Bytes> {
    if a.Some? then a else b
  }

  /** What the store holds for a key: the newest version decides, and if that is
      a tombstone the key is deleted. */
  ghost function StoreValue(m: Mem, ssts: seq<Sst>, levels: seq<seq<Table>>, key: Bytes): Option<Bytes> {
    LiveOf(OrElse(TablesHeld(m.All())(key), OrElse(L0Held(ssts)(key), DeepValue(levels, key))))
  }

  /** What the scan shows for a key: tombstones both heaps have dropped no longer
      cover what lies below. */
  ghost function ShownValue(m: Mem, ssts: seq<Sst>, levels: seq<seq<Table>>, readId: nat, key: Bytes): Option<Bytes> {
    LiveOf(OrElse(Shown(TablesHeld(m.All()), readId, key),
                  OrElse(Shown(L0Held(ssts), readId, key), DeepValue(levels, key))))
  }

  /** An increasing list of pairs answers for a key with its only pair, if any. */
  lemma IncreasingLookup(s: Source, key: Bytes, v: Option<Bytes>)
    requires Increasing(s)
    requires forall x :: (key, x) in s <==> v == Some(x)
    ensures FirstValue(s, key) == v && SourceSorted(s)
  {
    forall i, j | 0 <= i < j < |s|
      ensures !Less(s[j].0, s[i].0)
    {
      LessAsymmetric(s[i].0, s[j].0);
    }
    assert v.Some? ==> (key, v.value) in s;
  }

  lemma SourcesLookup(m: Mem, ssts: seq<Sst>, levels: seq<seq<Table>>, readId: nat, key: Bytes)
    requires StoreFit(m, ssts, levels, readId)
    ensures AllSourcesSorted(Sources(m, ssts, levels, readId))
    ensures LiveOf(LevelLookup(Sources(m, ssts, levels, readId), key)) == ShownValue(m, ssts, levels, readId, key)
  {
    hide Scan, Less, Greater, Overlay, L0Value, DeepValue, IdsFollowAge, AllSorted, EmptyKeyLast, L0Fit, LevelsSorted,
         Shown, L0Held, TablesHeld, LinearOn, Increasing;
    var (mem, l0, deep) := (Scan(Items(m), readId), Scan(L0Items(ssts, readId), readId), LevelSources(levels));
    TablesShow(m.All(), readId);
    L0NewestWins(ssts, readId);
    IncreasingLookup(mem, key, Shown(TablesHeld(m.All()), readId, key));
    IncreasingLookup(l0, key, Shown(L0Held(ssts), readId, key));
    LevelSourcesSorted(levels);
    LevelSourcesLookup(levels, key);
    LevelLookupConcat([mem, l0], deep, key);
    assert [mem, l0][1..] == [l0];
  }

  /** The scan of the whole store is exact about what it shows, with a transaction
      or without: keys strictly increase, and each carries the value of the first of
      memtable, L0 and deeper levels that shows one, unless that is a tombstone. */
  lemma EngineScanExact(m: Mem, ssts: seq<Sst>, levels: seq<seq<Table>>, readId: nat)
    requires StoreFit(m, ssts, levels, readId)
    ensures Increasing(EngineScan(m, ssts, levels, readId))
    ensures forall kv :: kv in EngineScan(m, ssts, levels, readId) <==>
              ShownValue(m, ssts, levels, readId, kv.0) == Some(kv.1)
  {
    hide Merge, Sources, Increasing, ShownValue;
    var sources := Sources(m, ssts, levels, readId);
    SourcesLookup(m, ssts, levels, readId, []);
    MergeExact(sources, ReportedIds(|sources|, readId), readId);
    forall kv: KeyValue
      ensures LevelLookup(sources, kv.0) == Some(kv.1) && kv.1 != [] <==>
              ShownValue(m, ssts, levels, readId, kv.0) == Some(kv.1)
    {
      SourcesLookup(m, ssts, levels, readId, kv.0);
      ShownIsLive(m, ssts, levels, readId, kv.0);
    }
  }

  lemma ShownIsLive(m: Mem, ssts: seq<Sst>, levels: seq<seq<Table>>, readId: nat, key: Bytes)
    ensures ShownValue(m, ssts, levels, readId, key) != Some([])
  {
  }

  /** The heap holds a tombstone for the key and does not show it. */
  ghost predicate Hidden(held: Bytes -> Option<Bytes>, readId: nat, key: Bytes) {
    held(key) == Some([]) && (readId == 0 || !LiveBelow(held, key))
  }

  /** A key whose tombstone a heap hides, while an older part of the store has a
      live version that nothing else covers: in L0 below the memtable's tombstone,
      or in the deeper levels below tombstones of either or both. */
  ghost predicate Reappears(m: Mem, ssts: seq<Sst>, levels: seq<seq<Table>>, readId: nat, key: Bytes) {
    var (mem, l0, deep) := (TablesHeld(m.All())(key), L0Held(ssts)(key), DeepValue(levels, key));
    var (memHidden, l0Hidden) := (Hidden(TablesHeld(m.All()), readId, key), Hidden(L0Held(ssts), readId, key));
    || (memHidden && LiveOf(l0).Some?)
    || (memHidden && (l0 == None || l0Hidden) && LiveOf(deep).Some?)
    || (mem == None && l0Hidden && LiveOf(deep).Some?)
  }

  /** A scan of the store, with a transaction or without, shows exactly the keys
      the store holds if and only if no hidden tombstone has a live version below
      it: such a key reappears. */
  lemma EngineScanRightIff(m: Mem, ssts: seq<Sst>, levels: seq<seq<Table>>, readId: nat)
    requires StoreFit(m, ssts, levels, readId)
    ensures (forall kv :: kv in EngineScan(m, ssts, levels, readId) <==>
               StoreValue(m, ssts, levels, kv.0) == Some(kv.1))
            <==> !exists key :: Reappears(m, ssts, levels, readId, key)
  {
    hide EngineScan, StoreFit, Reappears, StoreValue, ShownValue;
    EngineScanExact(m, ssts, levels, readId);
    forall key
      ensures Reappears(m, ssts, levels, readId, key) <==>
              StoreValue(m, ssts, levels, key) != ShownValue(m, ssts, levels, readId, key)
    {
      ReappearsIffDifferent(m, ssts, levels, readId, key);
    }
    if key :| Reappears(m, ssts, levels, readId, key) {
      var shown, held := ShownValue(m, ssts, levels, readId, key), StoreValue(m, ssts, levels, key);
      if shown.Some? {
        assert (key, shown.value) in EngineScan(m, ssts, levels, readId);
        assert held != Some(shown.value);
      } else {
        assert (key, held.value) !in EngineScan(m, ssts, levels, readId);
      }
    }
  }

  lemma ReappearsIffDifferent(m: Mem, ssts: seq<Sst>, levels: seq<seq<Table>>, readId: nat, key: Bytes)
    ensures Reappears(m, ssts, levels, readId, key) <==>
            StoreValue(m, ssts, levels, key) != ShownValue(m, ssts, levels, readId, key)
  {
    hide LiveBelow, L0Held, TablesHeld, DeepValue;
  }

  // ------------------------------------------------------- the store as a stack

  function Datas(ssts: seq<Sst>): (r: seq<Table>)
    ensures |r| == |ssts| && forall i | 0 <= i < |r| :: r[i] == ssts[i].data
  {
    seq(|ssts|, i requires 0 <= i < |ssts| => ssts[i].data)
  }

  ghost predicate NewestFirst(ssts: seq<Sst>) {
    forall i, j :: 0 <= i < j < |ssts| ==> ssts[i].id > ssts[j].id
  }

  /** With its SSTs listed newest first L0 answers as their stack of tables does. */
  lemma L0IsOverlay(ssts: seq<Sst>, key: Bytes)
    requires DistinctIds(ssts) && NewestFirst(ssts)
    ensures L0Value(ssts, key) == ValueOf(Overlay(Datas(ssts), key))
  {
    hide Overlay, Lookup;
    if Overlay(Datas(ssts), key).Some? {
      var n := OverlayIsNewest(Datas(ssts), key);
      assert NewestWith(ssts, n, key);
      L0ValueIs(ssts, n, key);
    } else {
      OverlayNone(Datas(ssts), key);
      forall s: nat
        ensures !NewestWith(ssts, s, key)
      {
        assert s < |ssts| ==> Datas(ssts)[s] == ssts[s].data;
      }
    }
  }

  /** All tables of the store, newest first. */
  function Stack(m: Mem, ssts: seq<Sst>, levels: seq<seq<Table>>): seq<Table> {
    m.All() + Datas(ssts) + Flat(levels)
  }

  /** What the store holds for a key is the newest version of the whole stack of
      tables, if that is not a tombstone. */
  lemma StoreIsOverlay(m: Mem, ssts: seq<Sst>, levels: seq<seq<Table>>, key: Bytes)
    requires DistinctIds(ssts) && NewestFirst(ssts)
    ensures StoreValue(m, ssts, levels, key) == LiveOf(ValueOf(Overlay(Stack(m, ssts, levels), key)))
  {
    hide Overlay, L0Value, DeepValue, Flat;
    L0IsOverlay(ssts, key);
    DeepIsOverlay(levels, key);
    OverlayConcat(m.All(), Datas(ssts), key);
    OverlayConcat(m.All() + Datas(ssts), Flat(levels), key);
  }

  /** Where neither the memtable nor L0 holds a tombstone as its newest version, a
      scan of the store lists exactly the newest live versions of the whole stack. */
  lemma TombstoneFreeScanIsRight(m: Mem, ssts: seq<Sst>, levels: seq<seq<Table>>, readId: nat)
    requires StoreFit(m, ssts, levels, readId) && NewestFirst(ssts)
    requires forall key :: TablesHeld(m.All())(key) != Some([]) && TablesHeld(Datas(ssts))(key) != Some([])
    ensures forall kv :: kv in EngineScan(m, ssts, levels, readId) <==>
              LiveOf(TablesHeld(Stack(m, ssts, levels))(kv.0)) == Some(kv.1)
  {
    hide EngineScan, StoreValue, Overlay, L0Value, DeepValue, Stack, IdsInOrder, LevelsSorted, IdsFollowAge, AllSorted,
         EmptyKeyLast, LiveBelow;
    EngineScanRightIff(m, ssts, levels, readId);
    forall key
      ensures !Reappears(m, ssts, levels, readId, key)
      ensures StoreValue(m, ssts, levels, key) == LiveOf(TablesHeld(Stack(m, ssts, levels))(key))
    {
      L0IsOverlay(ssts, key);
      StoreIsOverlay(m, ssts, levels, key);
    }
  }

  ghost predicate NoEmptyKeys(tables: seq<Table>) {
    forall t, e | t in tables && e in t :: e.key != []
  }

  /** Non-empty keys and tables in order are enough for a store to be scanned. */
  lemma NonEmptyKeysFit(m: Mem, ssts: seq<Sst>, levels: seq<seq<Table>>, readId: nat)
    requires AllSorted(m.All()) && IdsFollowAge(m.All())
    requires DistinctIds(ssts) && SstsSorted(ssts) && IdsInOrder(ssts)
    requires forall i | 0 <= i < |levels| :: InOrder(levels[i])
    requires NoEmptyKeys(Stack(m, ssts, levels))
    ensures StoreFit(m, ssts, levels, readId)
  {
    hide Scan, AllSorted, IdsFollowAge, DistinctIds, SstsSorted, IdsInOrder, InOrder, Increasing, LinearOn, ItemsFrom,
         L0Items, LevelSources, Shown, L0Value, Overlay;
    var sources: seq<Source> := Sources(m, ssts, levels, readId);
    PartsOfStack(m, ssts, levels);
    TablesShow(m.All(), readId);
    L0NewestWins(ssts, readId);
    forall kv | kv in sources[0]
      ensures kv.0 != []
    {
      HeldIsStored(m.All(), kv.0, readId);
    }
    forall kv | kv in sources[1]
      ensures kv.0 != []
    {
      L0HeldIsStored(ssts, kv.0, readId);
    }
    DeepKeys(levels);
    forall i | 0 <= i < |sources| && sources[i] != []
      ensures sources[i][0].0 != []
    {
      assert sources[i][0] in sources[i];
      assert i >= 2 ==> sources[i] in LevelSources(levels);
    }
  }

  lemma PartsOfStack(m: Mem, ssts: seq<Sst>, levels: seq<seq<Table>>)
    requires NoEmptyKeys(Stack(m, ssts, levels))
    ensures NoEmptyKeys(m.All()) && NoEmptyKeys(Datas(ssts)) && NoEmptyKeys(Flat(levels))
  {
    var stack := Stack(m, ssts, levels);
    assert forall t | t in m.All() || t in Datas(ssts) || t in Flat(levels) :: t in stack;
  }

  lemma HeldIsStored(tables: seq<Table>, key: Bytes, readId: nat)
    requires NoEmptyKeys(tables) && Shown(TablesHeld(tables), readId, key).Some?
    ensures key != []
  {
    hide Lookup, LiveBelow;
    var n := OverlayIsNewest(tables, key);
    assert tables[n] in tables;
  }

  lemma L0HeldIsStored(ssts: seq<Sst>, key: Bytes, readId: nat)
    requires NoEmptyKeys(Datas(ssts)) && Shown(L0Held(ssts), readId, key).Some?
    ensures key != []
  {
    hide Lookup, LiveBelow;
    var s: nat :| NewestWith(ssts, s, key);
    assert Datas(ssts)[s] in Datas(ssts);
  }

  ghost predicate NoEmptySourceKeys(sources: seq<Source>) {
    forall s, kv | s in sources && kv in s :: kv.0 != []
  }

  lemma {:induction false} DeepKeys(levels: seq<seq<Table>>)
    requires NoEmptyKeys(Flat(levels))
    ensures NoEmptySourceKeys(LevelSources(levels))
  {
    hide Chained;
    if levels == [] {
    } else {
      assert forall t | t in levels[0] || t in Flat(levels[1..]) :: t in Flat(levels);
      DeepKeys(levels[1..]);
      var first, rest := PrefixSources(levels[0]), LevelSources(levels[1..]);
      forall s, kv | s in first && kv in s
        ensures kv.0 != []
      {
        var j :| 0 <= j < |first| && first[j] == s;
        var a, e := ChainedOrigin(levels[0][..j + 1], kv);
        assert levels[0][a] in levels[0];
      }
      assert LevelSources(levels) == first + rest;
    }
  }

  // --------------------------------------------------------- removing a key

  /** Whatever the store, a key that has a live version in L0 and is then removed
      is scanned as if it had not been removed. */
  lemma RemovedKeyReappears(m: Mem, ssts: seq<Sst>, levels: seq<seq<Table>>, key: Bytes, trancId: nat, limit: nat)
    requires LiveOf(L0Value(ssts, key)).Some?
    requires StoreFit(Apply(m, Remove(key, trancId), limit), ssts, levels, 0)
    ensures var m' := Apply(m, Remove(key, trancId), limit);
            && StoreValue(m', ssts, levels, key) == None
            && (key, L0Value(ssts, key).value) in EngineScan(m', ssts, levels, 0)
  {
    hide Apply, StoreFit, L0Value, DeepValue, EngineScan, Overlay;
    var m' := Apply(m, Remove(key, trancId), limit);
    RemoveLeavesTombstone(m, key, trancId, limit);
    EngineScanExact(m', ssts, levels, 0);
  }

  lemma RemoveLeavesTombstone(m: Mem, key: Bytes, trancId: nat, limit: nat)
    ensures TablesHeld(Apply(m, Remove(key, trancId), limit).All())(key) == Some([])
  {
    hide Write, TotalBytes;
    WriteManySingle(m, key, [], trancId);
    var m' := WriteOne(m, key, [], trancId);
    WrittenIsFound(m.active, key, [], trancId);
    OverlayEmptyTable(m'.All(), key);
  }

  /** Also in a table out of order the written entry is found. */
  lemma WrittenIsFound(t: Table, key: Bytes, value: Bytes, trancId: nat)
    ensures var e := Lookup(Write(t, key, value, trancId), key); e.Some? && e.value.value == value
  {
    hide Less, Lookup;
    var p, t' := LowerBound(t, key), Write(t, key, value, trancId);
    forall i | 0 <= i < p
      ensures t'[i].key != key
    {
      if t'[i].key == key {
        LessAsymmetric(t[i].key, key);
      }
    }
    FirstIsFound(t', p, key);
  }

  lemma {:induction false} FirstIsFound(t: Table, p: nat, key: Bytes)
    requires p < |t| && t[p].key == key && forall i | 0 <= i < p :: t[i].key != key
    ensures Lookup(t, key) == Some(t[p])
  {
    if p == 0 {
    } else {
      FirstIsFound(t[1..], p - 1, key);
    }
  }

  /** Putting a key, freezing and flushing. */
  function PutAndFlush(key: Bytes, value: Bytes, trancId: nat): seq<Op> {
    [Put(key, value, trancId), FreezeNow, Flush]
  }

  /** The shortest run with a reappearing key: put, freeze, flush, remove. */
  lemma FlushedThenRemovedReappears(key: Bytes, value: Bytes, trancId: nat, limit: nat)
    requires value != []
    ensures var ops := PutAndFlush(key, value, trancId);
            var m, flushed := Run(ops + [Remove(key, trancId)], limit), RunFlushed(ops, limit);
            && flushed == [[Entry(key, value, trancId)]]
            && var ssts := [Sst(0, flushed[0])];
               && StoreFit(m, ssts, [], 0)
               && StoreValue(m, ssts, [], key) == None
               && (key, value) in EngineScan(m, ssts, [], 0)
  {
    hide Run, Apply, RunFlushed, StoreFit, EngineScan, StoreValue, L0Value, IdsFollowAge, AllSorted, L0Fit;
    var ops, all := PutAndFlush(key, value, trancId), PutAndFlush(key, value, trancId) + [Remove(key, trancId)];
    var e, m := Entry(key, value, trancId), Run(all, limit);
    var ssts := [Sst(0, [e])];
    RunPutAndFlush(key, value, trancId, limit);
    assert all[..3] == ops;
    assert m == Apply(Run(ops, limit), Remove(key, trancId), limit) by {
      RunEnds(all, limit);
    }
    RunSorted(all, limit);
    RunIdsLayered(all, limit);
    OneLive(e);
    assert Scan(Items(m), 0) == [] by {
      OnlyTombstone(Run(ops, limit), key, trancId, limit);
    }
    LittleStoreFits(m, ssts);
    RemovedKeyReappears(Run(ops, limit), ssts, [], key, trancId, limit);
  }

  /** The flush hands out the one entry and leaves only empty tables. */
  lemma RunPutAndFlush(key: Bytes, value: Bytes, trancId: nat, limit: nat)
    ensures var ops := PutAndFlush(key, value, trancId);
            && RunFlushed(ops, limit) == [[Entry(key, value, trancId)]]
            && forall k :: Overlay(Run(ops, limit).All(), k) == None
  {
    hide Run, Freeze, FlushLast, TotalBytes, Wrap64, Overlay;
    var ops, e := PutAndFlush(key, value, trancId), Entry(key, value, trancId);
    var m1, m2 := Run(ops[..1], limit), Run(ops[..2], limit);
    assert ops[..3] == ops && ops[..2][..1] == ops[..1] && ops[..1][..0] == [];
    RunEnds(ops[..1], limit);
    RunEnds(ops[..2], limit);
    RunEnds(ops, limit);
    FirstPut(key, value, trancId, limit);
    FreezeThenFlush(m1, e);
    forall k
      ensures Overlay(Run(ops, limit).All(), k) == None
    {
      NothingHeld(Run(ops, limit).All(), k);
    }
    NothingFlushed(ops[..2], limit);
  }

  lemma FirstPut(key: Bytes, value: Bytes, trancId: nat, limit: nat)
    ensures var m, e := Apply(Run([], limit), Put(key, value, trancId), limit), Entry(key, value, trancId);
            m.All() == [[e]] || m.All() == [[], [e]]
  {
    hide TotalBytes, Wrap64;
    WriteManySingle(EMPTY, key, value, trancId);
    assert Write([], key, value, trancId) == [Entry(key, value, trancId)];
  }

  lemma FreezeThenFlush(m: Mem, e: Entry)
    requires m.All() == [[e]] || m.All() == [[], [e]]
    ensures var (t, m') := FlushLast(Freeze(m));
            t == Some([e]) && forall i | 0 <= i < |m'.All()| :: m'.All()[i] == []
  {
    hide TotalBytes, Wrap64;
    assert Freeze(m).frozen == m.All();
  }

  lemma NothingHeld(tables: seq<Table>, k: Bytes)
    requires forall i | 0 <= i < |tables| :: tables[i] == []
    ensures Overlay(tables, k) == None
  {
    OverlayFirst(tables, k, |tables|);
  }

  /** Removing a key from empty tables leaves nothing to scan. */
  lemma OnlyTombstone(m: Mem, key: Bytes, trancId: nat, limit: nat)
    requires forall k :: Overlay(m.All(), k) == None
    requires var m' := Apply(m, Remove(key, trancId), limit); AllSorted(m'.All()) && IdsFollowAge(m'.All())
    ensures Scan(Items(Apply(m, Remove(key, trancId), limit)), 0) == []
  {
    hide Apply, Scan, AllSorted, IdsFollowAge, Overlay;
    var m' := Apply(m, Remove(key, trancId), limit);
    forall k
      ensures LiveOf(TablesHeld(m'.All())(k)) == None
    {
      OnlyKeyHeld(m, key, trancId, limit, k);
    }
    TablesShow(m'.All(), 0);
    IncreasingUnique(Scan(Items(m'), 0), []);
  }

  lemma OnlyKeyHeld(m: Mem, key: Bytes, trancId: nat, limit: nat, k: Bytes)
    requires forall k :: Overlay(m.All(), k) == None
    ensures LiveOf(TablesHeld(Apply(m, Remove(key, trancId), limit).All())(k)) == None
  {
    hide TotalBytes, Wrap64;
    if k == key {
      RemoveLeavesTombstone(m, key, trancId, limit);
    } else {
      WriteManySingle(m, key, [], trancId);
      var m' := WriteOne(m, key, [], trancId);
      OverlayNone(m.All(), k);
      OverlayNone(m.All(), key);
      assert Lookup(m.All()[0], k).None?;
      forall e | e in m'.active
        ensures e.key == key || e in m.active
      {
        WrittenKey(m.active, key, [], trancId, e);
      }
      forall i | 0 <= i < |m'.All()|
        ensures Lookup(m'.All()[i], k).None?
      {
        assert i > 0 ==> m'.All()[i] == m.All()[i];
      }
      OverlayFirst(m'.All(), k, |m'.All()|);
      OverlayEmptyTable(m'.All(), k);
    }
  }

  lemma WrittenKey(t: Table, key: Bytes, value: Bytes, trancId: nat, e: Entry)
    requires e in Write(t, key, value, trancId)
    ensures e.key == key || e in t
  {
  }

  lemma LittleStoreFits(m: Mem, ssts: seq<Sst>)
    requires AllSorted(m.All()) && IdsFollowAge(m.All()) && L0Fit(ssts) && Scan(Items(m), 0) == []
    ensures StoreFit(m, ssts, [], 0)
  {
    hide Scan, L0Fit, AllSorted, IdsFollowAge;
    assert LevelSources([]) == [];
  }

  /** An L0 table holding one entry has that entry's value. */
  lemma OneLive(live: Entry)
    ensures var ssts := [Sst(0, [live])];
            L0Fit(ssts) && L0Value(ssts, live.key) == Some(live.value)
  {
    var ssts := [Sst(0, [live])];
    assert Lookup([live], live.key) == Some(live);
    assert NewestWith(ssts, 0, live.key);
    L0ValueIs(ssts, 0, live.key);
  }
}
