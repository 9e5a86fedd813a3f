/** The heap merge. `std::priority_queue` is modelled by the sequence in which it
    pops its items: some order in which none is greater than a later one, which is
    unique if no two items tie. */
module HeapIterators {
  import opened Keys
  import opened SearchItems

  type KeyValue = (Bytes, Bytes)

  // -------------------------------------------------------- the queue's order

  /** Pop order: no item is greater than a later one. */
  predicate Ordered(q: seq<SearchItem>) {
    forall i, j :: 0 <= i < j < |q| ==> !Greater(q[i], q[j])
  }

  /** An order in which a queue may pop the items: ties come out either way. */
  ghost predicate PopOrder(q: seq<SearchItem>, items: seq<SearchItem>) {
    Ordered(q) && multiset(q) == multiset(items)
  }

  function InsertAt(q: seq<SearchItem>, p: nat, x: SearchItem): (r: seq<SearchItem>)
    requires p <= |q|
    ensures multiset(r) == multiset(q) + multiset{x}
  {
    assert q == q[..p] + q[p..];
    q[..p] + [x] + q[p..]
  }

  /** The position behind all items that are not greater. */
  function Behind(q: seq<SearchItem>, x: SearchItem): (p: nat)
    ensures p <= |q|
    ensures forall i | 0 <= i < p :: !Greater(q[i], x)
    ensures p < |q| ==> Greater(q[p], x)
  {
    if q == [] || Greater(q[0], x) then 0 else 1 + Behind(q[1..], x)
  }

  /** There the item fits, whatever the queue holds. */
  lemma FitsBehind(q: seq<SearchItem>, x: SearchItem)
    requires Ordered(q) && OrderOn(q + [x])
    ensures Ordered(InsertAt(q, Behind(q, x), x))
  {
    hide Greater, OrderOn;
    var p, s := Behind(q, x), q + [x];
    forall j | p <= j < |q|
      ensures !Greater(x, q[j])
    {
      assert q[p] in s && x in s && q[j] in s;
      if Greater(x, q[j]) {
        OrderTransitive(s, q[p], x, q[j]);
      }
    }
    InsertOrdered(q, p, x);
  }

  lemma InsertOrdered(q: seq<SearchItem>, p: nat, x: SearchItem)
    requires Ordered(q) && p <= |q|
    requires forall i | 0 <= i < p :: !Greater(q[i], x)
    requires forall j | p <= j < |q| :: !Greater(x, q[j])
    ensures Ordered(InsertAt(q, p, x))
  {
    hide Greater;
  }

  /** One pop order of given items. */
  function PushAll(items: seq<SearchItem>): (r: seq<SearchItem>)
    ensures multiset(r) == multiset(items)
  {
    if items == [] then []
    else
      var n := |items| - 1;
      assert items == items[..n] + [items[n]];
      var q := PushAll(items[..n]);
      InsertAt(q, Behind(q, items[n]), items[n])
  }

  lemma SubOrder(s: seq<SearchItem>, t: seq<SearchItem>)
    requires OrderOn(t) && forall x | x in s :: x in t
    ensures OrderOn(s)
  {
    hide Greater;
  }

  lemma SameMembers(q: seq<SearchItem>, items: seq<SearchItem>)
    requires multiset(q) == multiset(items)
    ensures forall x :: x in q <==> x in items
  {
    forall x
      ensures x in q <==> x in items
    {
      assert x in q <==> x in multiset(q);
      assert x in items <==> x in multiset(items);
    }
  }

  lemma {:induction false} PushAllOrdered(items: seq<SearchItem>)
    requires OrderOn(items)
    ensures PopOrder(PushAll(items), items)
  {
    hide Greater, OrderOn;
    if items == [] {
    } else {
      var n := |items| - 1;
      var front := items[..n];
      assert items == front + [items[n]];
      SubOrder(front, items);
      PushAllOrdered(front);
      SameMembers(PushAll(front), front);
      SubOrder(PushAll(front) + [items[n]], items);
      FitsBehind(PushAll(front), items[n]);
    }
  }

  /** Without ties there is no other pop order. */
  lemma {:induction false} PopOrderUnique(q: seq<SearchItem>, r: seq<SearchItem>)
    requires Ordered(q) && Ordered(r) && multiset(q) == multiset(r) && LinearOn(q)
    ensures q == r
  {
    hide Greater, LinearOn, Ordered;
    SameMembers(q, r);
    assert |q| == |multiset(q)| == |multiset(r)| == |r|;
    if q == [] {
    } else {
      SameTop(q, r);
      TailsMatch(q, r);
      TailFits(q);
      TailFits(r);
      PopOrderUnique(q[1..], r[1..]);
      assert q == [q[0]] + q[1..] && r == [r[0]] + r[1..];
    }
  }

  lemma SameTop(q: seq<SearchItem>, r: seq<SearchItem>)
    requires Ordered(q) && Ordered(r) && LinearOn(q) && q != [] && r != []
    requires forall x :: x in q <==> x in r
    ensures q[0] == r[0]
  {
    hide Greater;
    assert q[0] in r && r[0] in q;
    var i :| 0 <= i < |r| && r[i] == q[0];
    var j :| 0 <= j < |q| && q[j] == r[0];
  }

  lemma TailsMatch(q: seq<SearchItem>, r: seq<SearchItem>)
    requires q != [] && r != [] && multiset(q) == multiset(r) && q[0] == r[0]
    ensures multiset(q[1..]) == multiset(r[1..])
  {
    assert q == [q[0]] + q[1..] && r == [r[0]] + r[1..];
    assert multiset(q[1..]) == multiset(q) - multiset{q[0]};
  }

  lemma TailFits(q: seq<SearchItem>)
    requires q != [] && Ordered(q)
    ensures Ordered(q[1..]) && (LinearOn(q) ==> LinearOn(q[1..]))
  {
    hide Greater;
  }

  // --------------------------------------------------- what iteration leaves

  /** How many leading items have a key. */
  function RunLength(q: seq<SearchItem>, key: Bytes): (n: nat)
    ensures n <= |q|
    ensures forall i | 0 <= i < n :: q[i].key == key
    ensures n < |q| ==> q[n].key != key
  {
    if q != [] && q[0].key == key then 1 + RunLength(q[1..], key) else 0
  }

  /** The queue after popping while the top has a key. */
  function DropKey(q: seq<SearchItem>, key: Bytes): (r: seq<SearchItem>)
    ensures |r| <= |q|
    ensures q != [] && q[0].key == key ==> |r| < |q|
  {
    q[RunLength(q, key)..]
  }

  /** The queue after dropping whole keys while the top is a tombstone. */
  function DropTombs(q: seq<SearchItem>): (r: seq<SearchItem>)
    ensures |r| <= |q|
    ensures r != [] ==> r[0].value != []
    decreases |q|
  {
    if q == [] || q[0].value != [] then q else DropTombs(DropKey(q, q[0].key))
  }

  /** The pairs read off one key at a time. */
  function AllKeys(q: seq<SearchItem>): seq<KeyValue>
    decreases |q|
  {
    if q == [] then [] else [(q[0].key, q[0].value)] + AllKeys(DropKey(q, q[0].key))
  }

  /** Pairs without those that mark a deletion. */
  function LiveOnly(out: seq<KeyValue>): (r: seq<KeyValue>)
    ensures forall kv :: kv in r <==> kv in out && kv.1 != []
  {
    if out == [] then []
    else (if out[0].1 == [] then [] else [out[0]]) + LiveOnly(out[1..])
  }

  function LiveKeys(q: seq<SearchItem>): seq<KeyValue> {
    LiveOnly(AllKeys(q))
  }

  lemma {:induction false} DropTombsKeepsLive(q: seq<SearchItem>)
    ensures LiveKeys(DropTombs(q)) == LiveKeys(q)
    decreases |q|
  {
    if q != [] && q[0].value == [] {
      DropTombsKeepsLive(DropKey(q, q[0].key));
    }
  }

  /** The pairs a scan yields when its items pop in the order `q`. Without a
      transaction tombstones are skipped throughout; with one they are skipped only
      before the first live key. */
  function ScanFrom(q: seq<SearchItem>, maxTrancId: nat): seq<KeyValue> {
    if maxTrancId == 0 then LiveKeys(q) else AllKeys(DropTombs(q))
  }

  /** The pairs a scan over `items` yields when none of them tie. */
  function Scan(items: seq<SearchItem>, maxTrancId: nat): seq<KeyValue> {
    ScanFrom(PushAll(items), maxTrancId)
  }

  lemma InsertFits(q: seq<SearchItem>, items: seq<SearchItem>, i: nat)
    requires i < |items| && OrderOn(items) && PopOrder(q, items[..i])
    ensures Ordered(InsertAt(q, Behind(q, items[i]), items[i]))
  {
    hide Ordered, OrderOn;
    SameMembers(q, items[..i]);
    SubOrder(q + [items[i]], items);
    FitsBehind(q, items[i]);
  }

  lemma NextPopOrder(q: seq<SearchItem>, items: seq<SearchItem>, i: nat, p: nat)
    requires i < |items| && p <= |q| && PopOrder(q, items[..i]) && Ordered(InsertAt(q, p, items[i]))
    ensures PopOrder(InsertAt(q, p, items[i]), items[..i + 1])
  {
    hide Ordered, InsertAt;
    assert items[..i + 1] == items[..i] + [items[i]];
  }

  // ------------------------------------------------------------ the iterator

  class HeapIterator {
    var items: seq<SearchItem>
    const maxTrancId: nat

    ghost predicate Valid()
      reads this
    {
      maxTrancId == 0 && items != [] ==> items[0].value != []
    }

    /** What dereferencing and advancing to the end will still yield. */
    ghost function Remaining(): seq<KeyValue>
      reads this
    {
      if maxTrancId == 0 then LiveKeys(items) else AllKeys(items)
    }

    /** Builds the queue and drops leading tombstones, for items on which the
        comparison is a strict weak ordering. Items that tie may pop in any order;
        without ties the scan is determined. */
    constructor (itemVec: seq<SearchItem>, maxTrancId: nat)
      requires OrderOn(itemVec)
      ensures Valid() && this.maxTrancId == maxTrancId
      ensures exists q :: PopOrder(q, itemVec) && items == DropTombs(q) && Remaining() == ScanFrom(q, maxTrancId)
      ensures LinearOn(itemVec) ==> Remaining() == Scan(itemVec, maxTrancId)
    {
      hide AllKeys, LinearOn, OrderOn, DropTombs, LiveKeys, PopOrder;
      this.items, this.maxTrancId := [], maxTrancId;
      new;
      assert PopOrder([], itemVec[..0]) by {
        EmptyQueue();
      }
      for i := 0 to |itemVec|
        invariant PopOrder(items, itemVec[..i])
      {
        Push(itemVec[i], itemVec, i);
      }
      assert itemVec[..|itemVec|] == itemVec;
      ghost var q := items;
      SkipTombstones();
      DropTombsKeepsLive(q);
      if LinearOn(itemVec) {
        OnlyPopOrder(q, itemVec);
      }
    }

    /** `priority_queue::push`: the item goes anywhere it fits. */
    method Push(x: SearchItem, ghost itemVec: seq<SearchItem>, ghost i: nat)
      requires i < |itemVec| && itemVec[i] == x && OrderOn(itemVec) && PopOrder(items, itemVec[..i])
      modifies this`items
      ensures PopOrder(items, itemVec[..i + 1])
    {
      hide *;
      InsertFits(items, itemVec, i);
      var p: nat :| p <= |items| && Ordered(InsertAt(items, p, x));
      NextPopOrder(items, itemVec, i, p);
      items := InsertAt(items, p, x);
    }

    /** The nested loops that skip deleted keys at the top of the queue. */
    method SkipTombstones()
      modifies this`items
      ensures items == DropTombs(old(items))
    {
      while items != [] && items[0].value == []
        invariant DropTombs(items) == DropTombs(old(items))
        decreases |items|
      {
        PopKey(items[0].key);
      }
    }

    method PopKey(key: Bytes)
      modifies this`items
      ensures items == DropKey(old(items), key)
    {
      ghost var n: nat := 0;
      while items != [] && items[0].key == key
        invariant n <= |old(items)| && items == old(items)[n..]
        invariant RunLength(old(items), key) == n + RunLength(items, key)
        decreases |items|
      {
        items := items[1..];
        n := n + 1;
      }
    }

    predicate TopValueLegal()
      reads this
    {
      items == [] || maxTrancId != 0 || items[0].value != []
    }

    /** `operator++`: every step pops at least one item, and exactly the next
        pair of the scan is consumed. */
    method Next()
      requires Valid()
      modifies this`items
      ensures Valid()
      ensures Remaining() == if old(Remaining()) == [] then [] else old(Remaining())[1..]
      ensures old(items) != [] ==> |items| < |old(items)|
    {
      if items == [] {
        return;
      }
      ghost var q := items;
      var oldItem := items[0];
      items := items[1..];
      PopKey(oldItem.key);
      assert items == DropKey(q, oldItem.key);
      ghost var rest := items;
      while !TopValueLegal()
        invariant |items| <= |rest|
        invariant if maxTrancId == 0 then LiveKeys(items) == LiveKeys(rest) else items == rest
        decreases |items|
      {
        DropTombsKeepsLive(items);
        SkipTombstones();
      }
    }

    method Deref() returns (r: KeyValue)
      requires Valid() && !IsEnd()
      ensures Remaining() != [] && r == Remaining()[0]
    {
      r := (items[0].key, items[0].value);
    }

    /** Standing at the end is having yielded everything. */
    predicate IsEnd()
      reads this
      ensures Valid() ==> (IsEnd() <==> Remaining() == [])
    {
      items == []
    }
  }

  lemma EmptyQueue()
    ensures PopOrder([], [])
  {
  }

  lemma OnlyPopOrder(q: seq<SearchItem>, items: seq<SearchItem>)
    requires PopOrder(q, items) && LinearOn(items)
    ensures q == PushAll(items)
  {
    hide Greater;
    LinearIsOrder(items);
    PushAllOrdered(items);
    SameMembers(q, items);
    PopOrderUnique(q, PushAll(items));
  }

  // ------------------------------------------------------------ what is shown

  /** An item a scan may show for its key: it is greater than no other version.
      Without ties a key has one such item. */
  ghost predicate Wins(items: seq<SearchItem>, x: SearchItem) {
    x in items && forall y | y in items && y.key == x.key :: !Greater(x, y)
  }

  ghost predicate Increasing(out: seq<KeyValue>) {
    forall i, j :: 0 <= i < j < |out| ==> Less(out[i].0, out[j].0)
  }

  /** The pair of some winner. */
  ghost predicate ShowsWinner(items: seq<SearchItem>, kv: KeyValue) {
    exists x :: Wins(items, x) && x.key == kv.0 && x.value == kv.1
  }

  ghost predicate HasKey(out: seq<KeyValue>, key: Bytes) {
    exists kv :: kv in out && kv.0 == key
  }

  /** In pop order the versions of the first key come first, then greater keys. */
  lemma FirstKeyFirst(q: seq<SearchItem>)
    requires q != [] && Ordered(q)
    ensures forall i | RunLength(q, q[0].key) <= i < |q| :: Less(q[0].key, q[i].key)
  {
    var n := RunLength(q, q[0].key);
    forall i | n <= i < |q|
      ensures Less(q[0].key, q[i].key)
    {
      assert !Greater(q[0], q[n]) && q[n].key != q[0].key;
      LessTotal(q[0].key, q[n].key);
      if n < i {
        assert !Greater(q[n], q[i]);
        LessTotal(q[n].key, q[i].key);
        if q[n].key != q[i].key {
          LessTransitive(q[0].key, q[n].key, q[i].key);
        }
      }
    }
  }

  /** The top wins, and so do the winners of what is left without its key. */
  lemma WinnersSplit(q: seq<SearchItem>)
    requires q != [] && Ordered(q)
    ensures Wins(q, q[0])
    ensures forall y | y in q :: y.key == q[0].key || y in DropKey(q, q[0].key)
    ensures forall y | y in DropKey(q, q[0].key) :: y in q && Less(q[0].key, y.key)
    ensures forall x | Wins(DropKey(q, q[0].key), x) :: Wins(q, x)
  {
    hide Less;
    var n, rest := RunLength(q, q[0].key), DropKey(q, q[0].key);
    FirstKeyFirst(q);
    assert q == q[..n] + rest;
    forall y | y in rest
      ensures y in q && y.key != q[0].key && Less(q[0].key, y.key)
    {
      var i :| 0 <= i < |rest| && rest[i] == y;
      assert y == q[n + i];
      LessAsymmetric(q[0].key, y.key);
    }
    GreaterIrreflexive(q[0]);
  }

  lemma DropKeyOrdered(q: seq<SearchItem>, key: Bytes)
    requires Ordered(q)
    ensures Ordered(DropKey(q, key))
  {
    hide Greater, Less;
  }

  /** Reading off a queue shows each key once, in increasing order, with the value
      of an item that is greater than no other version. */
  lemma {:induction false} AllKeysSound(q: seq<SearchItem>)
    requires Ordered(q)
    ensures Increasing(AllKeys(q))
    ensures forall kv | kv in AllKeys(q) :: ShowsWinner(q, kv)
    ensures forall x | x in q :: HasKey(AllKeys(q), x.key)
    decreases |q|
  {
    hide Greater, Less, Ordered, RunLength, DropKey, Wins;
    if q == [] {
    } else {
      var rest := DropKey(q, q[0].key);
      var kv0, later := (q[0].key, q[0].value), AllKeys(rest);
      DropKeyOrdered(q, q[0].key);
      AllKeysSound(rest);
      WinnersSplit(q);
      assert AllKeys(q) == [kv0] + later;
      forall kv | kv in later
        ensures ShowsWinner(q, kv) && Less(q[0].key, kv.0)
      {
        LaterPair(q, kv);
      }
      forall x | x in q
        ensures HasKey([kv0] + later, x.key)
      {
        if x in rest {
          var kv :| kv in later && kv.0 == x.key;
          assert kv in [kv0] + later;
        } else {
          assert kv0 in [kv0] + later;
        }
      }
      IncreasingCons(kv0, later);
    }
  }

  lemma LaterPair(q: seq<SearchItem>, kv: KeyValue)
    requires q != [] && Ordered(q) && ShowsWinner(DropKey(q, q[0].key), kv)
    ensures ShowsWinner(q, kv) && Less(q[0].key, kv.0)
  {
    hide Greater, Less, Ordered, DropKey;
    WinnersSplit(q);
    var x :| Wins(DropKey(q, q[0].key), x) && x.key == kv.0 && x.value == kv.1;
  }

  lemma IncreasingCons(kv: KeyValue, later: seq<KeyValue>)
    requires Increasing(later) && forall x | x in later :: Less(kv.0, x.0)
    ensures Increasing([kv] + later)
  {
    hide Less;
  }

  /** Whatever the ties, a scan without a transaction shows, in increasing order,
      each key at most once, with the value of a least version, and leaves out only
      keys that have a tombstone among their least versions. */
  lemma TiedScanSound(items: seq<SearchItem>, q: seq<SearchItem>)
    requires PopOrder(q, items)
    ensures var out := ScanFrom(q, 0);
            && Increasing(out)
            && (forall kv | kv in out :: ShowsWinner(items, kv) && kv.1 != [])
            && (forall x | x in items :: HasKey(out, x.key) || ShowsWinner(items, (x.key, [])))
  {
    hide Greater, Less, Ordered, Wins, LiveOnly;
    SameMembers(q, items);
    AllKeysSound(q);
    LiveOnlyIncreasing(AllKeys(q));
    forall kv | kv in AllKeys(q)
      ensures ShowsWinner(items, kv)
    {
      SameWinners(q, items, kv);
    }
    forall x | x in items
      ensures HasKey(ScanFrom(q, 0), x.key) || ShowsWinner(items, (x.key, []))
    {
      var kv :| kv in AllKeys(q) && kv.0 == x.key;
      if kv.1 == [] {
        assert kv == (x.key, []);
      } else {
        assert kv in ScanFrom(q, 0);
      }
    }
  }

  /** Without ties the pairs read off are exactly the winners' pairs. */
  lemma AllKeysExact(q: seq<SearchItem>)
    requires Ordered(q) && LinearOn(q)
    ensures Increasing(AllKeys(q))
    ensures forall kv :: kv in AllKeys(q) <==> ShowsWinner(q, kv)
  {
    hide Greater, Less, Ordered;
    AllKeysSound(q);
    forall kv | ShowsWinner(q, kv)
      ensures kv in AllKeys(q)
    {
      var x :| Wins(q, x) && x.key == kv.0 && x.value == kv.1;
      var kv' :| kv' in AllKeys(q) && kv'.0 == x.key;
      var x' :| Wins(q, x') && x'.key == kv'.0 && x'.value == kv'.1;
      assert !Greater(x, x') && !Greater(x', x);
    }
  }

  lemma {:induction false} LiveOnlyIncreasing(out: seq<KeyValue>)
    requires Increasing(out)
    ensures Increasing(LiveOnly(out))
  {
    hide Less;
    if out == [] {
    } else {
      LiveOnlyIncreasing(out[1..]);
      forall kv | kv in LiveOnly(out[1..])
        ensures Less(out[0].0, kv.0)
      {
        var i :| 0 <= i < |out[1..]| && out[1..][i] == kv;
        assert out[i + 1] == kv;
      }
    }
  }

  /** The heap merge is exact: without a transaction a scan visits keys in
      strictly increasing order and shows exactly the winners that are not
      tombstones, whatever the order in which the items were given. */
  lemma ScanExact(items: seq<SearchItem>)
    requires LinearOn(items)
    ensures Increasing(Scan(items, 0))
    ensures forall kv :: kv in Scan(items, 0) <==> ShowsWinner(items, kv) && kv.1 != []
  {
    hide Greater, Less, Ordered;
    var q := PushAll(items);
    PushedLinear(items);
    AllKeysExact(q);
    LiveOnlyIncreasing(AllKeys(q));
    forall kv
      ensures ShowsWinner(items, kv) <==> ShowsWinner(q, kv)
    {
      SameWinners(items, q, kv);
      SameWinners(q, items, kv);
    }
  }

  lemma SameWinners(a: seq<SearchItem>, b: seq<SearchItem>, kv: KeyValue)
    requires forall y :: y in a <==> y in b
    ensures ShowsWinner(a, kv) ==> ShowsWinner(b, kv)
  {
    if ShowsWinner(a, kv) {
      var x :| Wins(a, x) && x.key == kv.0 && x.value == kv.1;
      assert Wins(b, x);
    }
  }

  // ------------------------------------------- scans with a transaction id

  /** The pairs from the first live one on. */
  function FromFirstLive(out: seq<KeyValue>): seq<KeyValue> {
    if out == [] || out[0].1 != [] then out else FromFirstLive(out[1..])
  }

  lemma {:induction false} DropTombsDropsPrefix(q: seq<SearchItem>)
    ensures AllKeys(DropTombs(q)) == FromFirstLive(AllKeys(q))
    decreases |q|
  {
    if q != [] && q[0].value == [] {
      DropTombsDropsPrefix(DropKey(q, q[0].key));
    }
  }

  /** Some deleted key comes after some live key. */
  ghost predicate TombAfterLive(out: seq<KeyValue>) {
    exists i, j :: 0 <= i < j < |out| && out[i].1 != [] && out[j].1 == []
  }

  lemma {:induction false} FromFirstLiveIsLiveOnly(out: seq<KeyValue>)
    ensures FromFirstLive(out) == LiveOnly(out) <==> !TombAfterLive(out)
  {
    if out == [] {
    } else if out[0].1 == [] {
      FromFirstLiveIsLiveOnly(out[1..]);
      TombAfterLiveTail(out);
    } else if TombAfterLive(out) {
      var i, j :| 0 <= i < j < |out| && out[i].1 != [] && out[j].1 == [];
      assert out[j] in out && out[j] !in LiveOnly(out);
    } else {
      assert forall j | 0 < j < |out| :: out[0].1 != [] && out[j].1 != [];
      AllLiveIsLiveOnly(out);
    }
  }

  lemma TombAfterLiveTail(out: seq<KeyValue>)
    requires out != [] && out[0].1 == []
    ensures TombAfterLive(out[1..]) <==> TombAfterLive(out)
  {
    if TombAfterLive(out[1..]) {
      var i, j :| 0 <= i < j < |out[1..]| && out[1..][i].1 != [] && out[1..][j].1 == [];
      assert out[i + 1].1 != [] && out[j + 1].1 == [];
    }
    if TombAfterLive(out) {
      var i, j :| 0 <= i < j < |out| && out[i].1 != [] && out[j].1 == [];
      assert out[1..][i - 1].1 != [] && out[1..][j - 1].1 == [];
    }
  }

  lemma {:induction false} AllLiveIsLiveOnly(out: seq<KeyValue>)
    requires forall j | 0 <= j < |out| :: out[j].1 != []
    ensures LiveOnly(out) == out
  {
    if out == [] {
    } else {
      AllLiveIsLiveOnly(out[1..]);
    }
  }

  /** Some key deleted by its winner lies after a key shown by its winner. */
  ghost predicate DeletedAfterLive(items: seq<SearchItem>) {
    exists x, y :: Wins(items, x) && Wins(items, y) && x.value != [] && y.value == [] && Less(x.key, y.key)
  }

  lemma DeletedAfterLiveIsShown(items: seq<SearchItem>, out: seq<KeyValue>)
    requires Increasing(out) && forall kv :: kv in out <==> ShowsWinner(items, kv)
    ensures DeletedAfterLive(items) <==> TombAfterLive(out)
  {
    if TombAfterLive(out) {
      var i, j :| 0 <= i < j < |out| && out[i].1 != [] && out[j].1 == [];
      assert out[i] in out && out[j] in out;
      assert ShowsWinner(items, out[i]) && ShowsWinner(items, out[j]);
    }
    if DeletedAfterLive(items) {
      var x, y :| Wins(items, x) && Wins(items, y) && x.value != [] && y.value == [] && Less(x.key, y.key);
      assert ShowsWinner(items, (x.key, x.value)) && ShowsWinner(items, (y.key, y.value));
      var i :| 0 <= i < |out| && out[i] == (x.key, x.value);
      var j :| 0 <= j < |out| && out[j] == (y.key, y.value);
      if j <= i {
        LessAsymmetric(x.key, y.key);
      }
    }
  }

  /** A scan with a transaction id shows what a scan without one shows exactly
      when no deleted key lies after a live key: past its first live key such a
      scan also yields tombstones. */
  lemma TransactionScanIff(items: seq<SearchItem>, maxTrancId: nat)
    requires LinearOn(items) && maxTrancId != 0
    ensures Scan(items, maxTrancId) == Scan(items, 0) <==>
            !DeletedAfterLive(items)
  {
    hide Greater, Less, Ordered, LinearOn, Wins, DeletedAfterLive, TombAfterLive, Increasing;
    var q := PushAll(items);
    PushedLinear(items);
    AllKeysExact(q);
    DropTombsDropsPrefix(q);
    FromFirstLiveIsLiveOnly(AllKeys(q));
    forall kv
      ensures kv in AllKeys(q) <==> ShowsWinner(items, kv)
    {
      SameWinners(q, items, kv);
      SameWinners(items, q, kv);
    }
    DeletedAfterLiveIsShown(items, AllKeys(q));
  }

  lemma PushedLinear(items: seq<SearchItem>)
    requires LinearOn(items)
    ensures Ordered(PushAll(items)) && LinearOn(PushAll(items))
    ensures forall x :: x in PushAll(items) <==> x in items
  {
    hide Greater;
    LinearIsOrder(items);
    PushAllOrdered(items);
    SameMembers(PushAll(items), items);
  }

  /** With a transaction id a scan shows the live winners, and the tombstones of
      winners that come after some live one. */
  lemma TransactionScanExact(items: seq<SearchItem>, maxTrancId: nat)
    requires LinearOn(items) && maxTrancId != 0
    ensures Increasing(Scan(items, maxTrancId))
    ensures forall kv :: kv in Scan(items, maxTrancId) <==>
              ShowsWinner(items, kv) && (kv.1 != [] || LiveBefore(items, kv.0))
  {
    hide Greater, Less, Ordered, LinearOn, Increasing, ShowsWinner, LiveBefore, FromFirstLive;
    var q := PushAll(items);
    var out := AllKeys(q);
    PushedLinear(items);
    AllKeysExact(q);
    DropTombsDropsPrefix(q);
    FromFirstLiveMembers(out);
    forall kv
      ensures kv in out <==> ShowsWinner(items, kv)
    {
      SameWinners(q, items, kv);
      SameWinners(items, q, kv);
    }
    forall key
      ensures LiveBefore(items, key) <==> exists kv :: kv in out && kv.1 != [] && Less(kv.0, key)
    {
      LiveBeforeIsShown(items, out, key);
    }
  }

  lemma LiveBeforeIsShown(items: seq<SearchItem>, out: seq<KeyValue>, key: Bytes)
    requires forall kv :: kv in out <==> ShowsWinner(items, kv)
    ensures LiveBefore(items, key) <==> exists kv :: kv in out && kv.1 != [] && Less(kv.0, key)
  {
    hide Less, Wins;
    if x :| Wins(items, x) && x.value != [] && Less(x.key, key) {
      assert ShowsWinner(items, (x.key, x.value));
    }
    if kv :| kv in out && kv.1 != [] && Less(kv.0, key) {
      assert ShowsWinner(items, kv);
    }
  }

  /** Some smaller key is live. */
  ghost predicate LiveBefore(items: seq<SearchItem>, key: Bytes) {
    exists x :: Wins(items, x) && x.value != [] && Less(x.key, key)
  }

  lemma {:induction false} FromFirstLiveMembers(out: seq<KeyValue>)
    requires Increasing(out)
    ensures Increasing(FromFirstLive(out))
    ensures forall kv :: kv in FromFirstLive(out) <==>
              kv in out && (kv.1 != [] || exists x :: x in out && x.1 != [] && Less(x.0, kv.0))
  {
    hide Less;
    if out == [] {
    } else if out[0].1 == [] {
      FromFirstLiveMembers(out[1..]);
      assert out == [out[0]] + out[1..];
      forall x | x in out[1..]
        ensures Less(out[0].0, x.0) && !Less(x.0, out[0].0)
      {
        var i :| 0 <= i < |out[1..]| && out[1..][i] == x;
        assert out[i + 1] == x;
        LessAsymmetric(out[0].0, x.0);
      }
    } else {
      forall kv | kv in out && kv.1 == []
        ensures exists x :: x in out && x.1 != [] && Less(x.0, kv.0)
      {
        var i :| 0 <= i < |out| && out[i] == kv;
        assert out[0] in out;
      }
    }
  }

  /** A live key before a deleted one: with a transaction id the deleted key is
      shown, without one it is not. */
  lemma TransactionShowsTombstone(live: SearchItem, gone: SearchItem, maxTrancId: nat)
    requires Less(live.key, gone.key) && live.value != [] && gone.value == [] && maxTrancId != 0
    ensures Scan([live, gone], 0) == [(live.key, live.value)]
    ensures Scan([live, gone], maxTrancId) == [(live.key, live.value), (gone.key, [])]
  {
    LessAsymmetric(live.key, gone.key);
    hide Less, Greater, PushAll, AllKeys;
    var out := [(live.key, live.value), (gone.key, [])];
    TwoPushed(live, gone);
    TwoKeys(live, gone);
    assert LiveOnly(out[1..]) == [];
  }

  lemma TwoPushed(a: SearchItem, b: SearchItem)
    requires Less(a.key, b.key)
    ensures PushAll([a, b]) == [a, b]
  {
    hide Less;
    LessAsymmetric(a.key, b.key);
    assert [a, b][..1] == [a] && [a][..0] == [];
    assert Behind([a], b) == 1;
  }

  lemma TwoKeys(a: SearchItem, b: SearchItem)
    requires a.key != b.key
    ensures AllKeys([a, b]) == [(a.key, a.value), (b.key, b.value)]
  {
    hide Greater;
    assert DropKey([b], b.key) == [];
    assert DropKey([a, b], a.key) == [b];
    assert AllKeys([b]) == [(b.key, b.value)];
  }

  lemma SmallestShownTombstone()
    ensures Scan([SearchItem([1], [7], 0, 0, 0), SearchItem([2], [], 0, 0, 0)], 1) == [([1], [7]), ([2], [])]
  {
    hide Scan;
    TransactionShowsTombstone(SearchItem([1], [7], 0, 0, 0), SearchItem([2], [], 0, 0, 0), 1);
  }

  /** A scan of nothing but a tombstone is empty. */
  lemma TombstoneAlone(gone: SearchItem, maxTrancId: nat)
    requires gone.value == []
    ensures Scan([gone], maxTrancId) == []
  {
    hide Greater;
    assert [gone][..0] == [];
    assert PushAll([gone]) == [gone];
    assert DropKey([gone], gone.key) == [];
    assert DropTombs([gone]) == [];
    DropTombsKeepsLive([gone]);
  }
}
