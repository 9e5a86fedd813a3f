/** The contents of one in-memory table as a value: entries in key order, and
    what writing, removing and looking up mean on them. */
module Tables {
  import opened Keys

  datatype Option<+T> = None | Some(value: T)

  /** One stored version of a key; the empty value marks a deleted key. */
  datatype Entry = Entry(key: Bytes, value: Bytes, trancId: nat)

  type Table = seq<Entry>

  ghost predicate Sorted(t: Table) {
    forall i, j :: 0 <= i < j < |t| ==> Less(t[i].key, t[j].key)
  }

  /** The entry stored for a key. */
  function Lookup(t: Table, key: Bytes): (r: Option<Entry>)
    ensures r.Some? ==> r.value in t && r.value.key == key
    ensures r.None? ==> forall e | e in t :: e.key != key
  {
    if t == [] then None
    else if t[0].key == key then Some(t[0])
    else Lookup(t[1..], key)
  }

  /** The first position whose key is not below `key`. */
  function LowerBound(t: Table, key: Bytes): (p: nat)
    ensures p <= |t|
    ensures forall i | 0 <= i < p :: Less(t[i].key, key)
    ensures p < |t| ==> !Less(t[p].key, key)
  {
    if t == [] || !Less(t[0].key, key) then 0 else 1 + LowerBound(t[1..], key)
  }

  /** Writing a key: an existing entry gets the new value and keeps the
      transaction id of its first write; a new key is inserted in order. */
  function Write(t: Table, key: Bytes, value: Bytes, trancId: nat): Table {
    var p := LowerBound(t, key);
    if p < |t| && t[p].key == key
    then t[p := Entry(key, value, t[p].trancId)]
    else t[..p] + [Entry(key, value, trancId)] + t[p..]
  }

  /** Unlinking a key, if it is there. */
  function Erase(t: Table, key: Bytes): Table {
    var p := LowerBound(t, key);
    if p < |t| && t[p].key == key then t[..p] + t[p + 1..] else t
  }

  /** In a sorted table a key occurs at most once. */
  lemma LookupAt(t: Table, i: nat)
    requires Sorted(t) && i < |t|
    ensures Lookup(t, t[i].key) == Some(t[i])
  {
    var e := Lookup(t, t[i].key).value;
    var j :| 0 <= j < |t| && t[j] == e;
    if j != i {
      LessAsymmetric(t[if i < j then i else j].key, t[if i < j then j else i].key);
    }
  }

  /** From the lower bound on, every key but an equal first one is greater. */
  lemma PastLowerBound(t: Table, key: Bytes)
    requires Sorted(t)
    ensures var p := LowerBound(t, key);
            forall i | p <= i < |t| && t[i].key != key :: Less(key, t[i].key)
    ensures var p := LowerBound(t, key);
            forall i | 0 <= i < |t| && t[i].key == key :: i == p
  {
    var p := LowerBound(t, key);
    forall i | p <= i < |t|
      ensures t[i].key == key ==> i == p
      ensures t[i].key != key ==> Less(key, t[i].key)
    {
      LessTotal(t[i].key, key);
      if p < i {
        NotLessThenLess(key, t[p].key, t[i].key);
        LessAsymmetric(key, t[i].key);
      }
    }
    forall i | 0 <= i < p
      ensures t[i].key != key
    {
      LessAsymmetric(t[i].key, key);
    }
  }

  lemma WriteSorted(t: Table, key: Bytes, value: Bytes, trancId: nat)
    requires Sorted(t)
    ensures Sorted(Write(t, key, value, trancId))
  {
    hide Less;
    PastLowerBound(t, key);
  }

  /** The written entry is at the lower bound; every other entry stays. */
  lemma WriteMembers(t: Table, key: Bytes, value: Bytes, trancId: nat)
    requires Sorted(t)
    ensures var p, t' := LowerBound(t, key), Write(t, key, value, trancId);
            p < |t'| && t'[p].key == key && t'[p].value == value
    ensures forall e: Entry | e.key != key :: e in t <==> e in Write(t, key, value, trancId)
  {
    hide LowerBound, Less;
    var p, t' := LowerBound(t, key), Write(t, key, value, trancId);
    if p < |t| && t[p].key == key {
      assert t == t[..p] + [t[p]] + t[p + 1..];
      assert t' == t[..p] + [t'[p]] + t[p + 1..];
    } else {
      assert t == t[..p] + t[p..];
    }
  }

  /** `Write` is a map update that keeps the table sorted; only a new key takes
      the writer's transaction id. */
  lemma WriteIsUpdate(t: Table, key: Bytes, value: Bytes, trancId: nat)
    requires Sorted(t)
    ensures var t' := Write(t, key, value, trancId);
            && Sorted(t')
            && Lookup(t', key) == Some(Entry(key, value, match Lookup(t, key)
                                                         case Some(e) => e.trancId
                                                         case None => trancId))
            && forall k | k != key :: Lookup(t', k) == Lookup(t, k)
  {
    var p, t' := LowerBound(t, key), Write(t, key, value, trancId);
    WriteSorted(t, key, value, trancId);
    WriteMembers(t, key, value, trancId);
    PastLowerBound(t, key);
    LookupAt(t', p);
    if p < |t| && t[p].key == key {
      LookupAt(t, p);
    }
    forall k | k != key
      ensures Lookup(t', k) == Lookup(t, k)
    {
      SameElsewhere(t, t', k, key);
    }
  }

  /** `Erase` removes exactly one key from the map and keeps the table sorted. */
  lemma EraseIsRemoval(t: Table, key: Bytes)
    requires Sorted(t)
    ensures var t' := Erase(t, key);
            && Sorted(t')
            && Lookup(t', key) == None
            && forall k | k != key :: Lookup(t', k) == Lookup(t, k)
  {
    var p, t' := LowerBound(t, key), Erase(t, key);
    PastLowerBound(t, key);
    forall k | k != key
      ensures Lookup(t', k) == Lookup(t, k)
    {
      SameElsewhere(t, t', k, key);
    }
  }

  /** Two sorted tables with the same entries outside `key` agree outside it. */
  lemma SameElsewhere(t: Table, t': Table, k: Bytes, key: Bytes)
    requires Sorted(t) && Sorted(t') && k != key
    requires forall e: Entry | e.key != key :: e in t <==> e in t'
    ensures Lookup(t', k) == Lookup(t, k)
  {
    match Lookup(t, k)
    case Some(e) =>
      var i :| 0 <= i < |t'| && t'[i] == e;
      LookupAt(t', i);
    case None =>
  }

  /** A sorted table is determined by what it holds for each key. */
  lemma {:induction false} SortedUnique(a: Table, b: Table)
    requires Sorted(a) && Sorted(b)
    requires forall e :: e in a <==> e in b
    ensures a == b
  {
    if a != [] {
      assert a[0] in a;
    }
    if b != [] {
      assert b[0] in b;
    }
    if a != [] && b != [] {
      assert a[0] in b && b[0] in a;
      var i :| 0 <= i < |b| && b[i] == a[0];
      var j :| 0 <= j < |a| && a[j] == b[0];
      if i > 0 && j > 0 {
        LessAsymmetric(a[0].key, b[0].key);
      }
      assert a[0] == b[0];
      forall e
        ensures e in a[1..] <==> e in b[1..]
      {
        SplitHead(a, e);
        SplitHead(b, e);
      }
      SortedUnique(a[1..], b[1..]);
    }
  }

  lemma SplitHead(t: Table, e: Entry)
    requires Sorted(t) && t != []
    ensures e in t[1..] <==> e in t && e != t[0]
  {
    if e in t[1..] {
      var i :| 0 <= i < |t[1..]| && t[1..][i] == e;
      LessAsymmetric(t[0].key, t[i + 1].key);
    }
  }

  // ------------------------------------------------------------- byte counts

  const TWO64: nat := 0x1_0000_0000_0000_0000

  /** `size_t` arithmetic. */
  function Wrap64(n: int): (r: nat)
    ensures r < TWO64
  {
    n % TWO64
  }

  /** What one node costs: its key, its value and a transaction id. */
  function EntryBytes(e: Entry): nat {
    |e.key| + |e.value| + 8
  }

  function TotalBytes(t: Table): nat {
    if t == [] then 0 else EntryBytes(t[0]) + TotalBytes(t[1..])
  }

  lemma {:induction false} TotalBytesConcat(a: Table, b: Table)
    ensures TotalBytes(a + b) == TotalBytes(a) + TotalBytes(b)
  {
    if a == [] {
      assert a + b == b;
    } else {
      TotalBytesConcat(a[1..], b);
      assert (a + b)[1..] == a[1..] + b;
    }
  }

  lemma TotalBytesHalves(t: Table, p: nat)
    requires p <= |t|
    ensures TotalBytes(t) == TotalBytes(t[..p]) + TotalBytes(t[p..])
  {
    hide TotalBytes;
    TotalBytesConcat(t[..p], t[p..]);
    assert t[..p] + t[p..] == t;
  }

  lemma TotalBytesSplit(t: Table, p: nat)
    requires p < |t|
    ensures TotalBytes(t) == TotalBytes(t[..p]) + EntryBytes(t[p]) + TotalBytes(t[p + 1..])
  {
    TotalBytesHalves(t, p);
    assert t[p..][1..] == t[p + 1..];
  }

  /** Reducing a summand first does not change a wrapped sum. */
  lemma WrapAdd(a: int, b: int)
    ensures Wrap64(Wrap64(a) + b) == Wrap64(a + b) == Wrap64(Wrap64(a) + Wrap64(b))
    ensures Wrap64(Wrap64(a) - Wrap64(b)) == Wrap64(a - b)
  {
    var (qa, qb) := (a / TWO64, b / TWO64);
    WrapShift(Wrap64(a) + b, qa);
    WrapShift(Wrap64(a) + Wrap64(b), qa + qb);
    WrapShift(Wrap64(a) - Wrap64(b), qa - qb);
  }

  /** Whole multiples of 2^64 do not show. */
  lemma WrapShift(x: int, q: int)
    ensures Wrap64(x + q * TWO64) == Wrap64(x)
  {
    var r := x / TWO64;
    assert x + q * TWO64 == (r + q) * TWO64 + Wrap64(x);
    WrapUnique(x + q * TWO64, r + q, Wrap64(x));
  }

  lemma WrapUnique(x: int, q: int, r: nat)
    requires x == q * TWO64 + r && r < TWO64
    ensures Wrap64(x) == r
  {
  }

  /** How replacing, inserting and removing an entry change the total. */
  lemma BytesAfterReplace(t: Table, p: nat, e: Entry)
    requires p < |t| && t[p].key == e.key
    ensures TotalBytes(t[p := e]) == TotalBytes(t) + |e.value| - |t[p].value|
  {
    TotalBytesSplit(t, p);
    TotalBytesSplit(t[p := e], p);
    assert t[p := e][..p] == t[..p] && t[p := e][p + 1..] == t[p + 1..];
  }

  lemma BytesAfterInsert(t: Table, p: nat, e: Entry)
    requires p <= |t|
    ensures TotalBytes(t[..p] + [e] + t[p..]) == TotalBytes(t) + EntryBytes(e)
  {
    TotalBytesConcat(t[..p] + [e], t[p..]);
    TotalBytesConcat(t[..p], [e]);
    TotalBytesHalves(t, p);
  }

  lemma SizeAfterInsert(t: Table, p: nat, e: Entry)
    requires p <= |t|
    ensures Wrap64(TotalBytes(t[..p] + [e] + t[p..])) == Wrap64(Wrap64(TotalBytes(t)) + (|e.key| + |e.value| + 8))
  {
    hide TotalBytes;
    BytesAfterInsert(t, p, e);
    WrapAdd(TotalBytes(t), EntryBytes(e));
  }

  lemma SizeAfterReplace(t: Table, p: nat, e: Entry)
    requires p < |t| && t[p].key == e.key
    ensures Wrap64(TotalBytes(t[p := e])) == Wrap64(Wrap64(TotalBytes(t)) + Wrap64(|e.value| - |t[p].value|))
  {
    BytesAfterReplace(t, p, e);
    WrapAdd(TotalBytes(t), |e.value| - |t[p].value|);
  }

  lemma SizeAfterDelete(t: Table, p: nat)
    requires p < |t|
    ensures Wrap64(TotalBytes(t[..p] + t[p + 1..])) ==
            Wrap64(Wrap64(TotalBytes(t)) - Wrap64(|t[p].key| + |t[p].value| + 8))
  {
    BytesAfterDelete(t, p);
    WrapAdd(TotalBytes(t), EntryBytes(t[p]));
  }

  lemma BytesAfterDelete(t: Table, p: nat)
    requires p < |t|
    ensures TotalBytes(t[..p] + t[p + 1..]) == TotalBytes(t) - EntryBytes(t[p])
  {
    TotalBytesSplit(t, p);
    TotalBytesConcat(t[..p], t[p + 1..]);
  }

  /** How `Write` and `Erase` change the byte total. */
  lemma BytesAfterWrite(t: Table, key: Bytes, value: Bytes, trancId: nat)
    requires Sorted(t)
    ensures TotalBytes(Write(t, key, value, trancId)) == TotalBytes(t) +
            match Lookup(t, key)
            case Some(e) => |value| - |e.value|
            case None => |key| + |value| + 8
  {
    hide TotalBytes, LowerBound, Less;
    var p := LowerBound(t, key);
    PastLowerBound(t, key);
    if p < |t| && t[p].key == key {
      LookupAt(t, p);
      BytesAfterReplace(t, p, Entry(key, value, t[p].trancId));
    } else {
      BytesAfterInsert(t, p, Entry(key, value, trancId));
    }
  }

  lemma BytesAfterErase(t: Table, key: Bytes)
    requires Sorted(t)
    ensures TotalBytes(Erase(t, key)) == TotalBytes(t) -
            match Lookup(t, key)
            case Some(e) => |key| + |e.value| + 8
            case None => 0
  {
    hide TotalBytes, LowerBound, Less;
    var p := LowerBound(t, key);
    PastLowerBound(t, key);
    if p < |t| && t[p].key == key {
      LookupAt(t, p);
      BytesAfterDelete(t, p);
    }
  }
}
