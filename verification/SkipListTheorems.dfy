/** What the skip list's invariant means: levels as sublists, mirrored links,
    and refinement of a map over whole runs. */
module SkipListTheorems {
  import opened Keys
  import opened Tables
  import opened SkipNodes
  import opened SkipLists

  // ------------------------------------------------------------------ levels

  /** The nodes from position `p` on whose towers reach level `i`. */
  ghost function LevelFrom(spine: Spine, p: nat, i: nat): Spine
    requires p <= |spine|
    decreases |spine| - p
  {
    if p == |spine| then []
    else if spine[p].height > i then [spine[p]] + LevelFrom(spine, p + 1, i)
    else LevelFrom(spine, p + 1, i)
  }

  /** Following level-`i` forward links from `n` meets exactly `nodes`, then null. */
  ghost predicate ChainIs(n: Node?, nodes: Spine, i: nat)
    reads nodes
    decreases |nodes|
  {
    if nodes == [] then n == null
    else n == nodes[0] && i < |nodes[0].forward| && ChainIs(nodes[0].forward[i], nodes[1..], i)
  }

  ghost predicate Subsequence(a: Spine, b: Spine) {
    if a == [] then true
    else if b == [] then false
    else if a[0] == b[0] then Subsequence(a[1..], b[1..])
    else Subsequence(a, b[1..])
  }

  /** In a well-linked list the chain at every level, from any node on, is the
      list of later nodes whose towers reach that level. */
  lemma {:induction false} LevelIsChain(spine: Spine, maxLevel: nat, level: nat, p: nat, i: nat)
    requires WellLinked(spine, maxLevel, level) && p <= |spine| && i < maxLevel
    ensures ChainIs(At(spine, NextIdx(spine, p, i)), LevelFrom(spine, p, i), i)
    decreases |spine| - p
  {
    if p == |spine| {
    } else {
      LevelIsChain(spine, maxLevel, level, p + 1, i);
      if spine[p].height > i {
        assert LevelFrom(spine, p, i)[1..] == LevelFrom(spine, p + 1, i);
      }
    }
  }

  /** Every level is a sublist of the one below it. */
  lemma {:induction false} LevelIsSublist(spine: Spine, p: nat, i: nat)
    requires p <= |spine|
    ensures Subsequence(LevelFrom(spine, p, i + 1), LevelFrom(spine, p, i))
    decreases |spine| - p
  {
    if p == |spine| {
    } else {
      LevelIsSublist(spine, p + 1, i);
      var upper, lower := LevelFrom(spine, p + 1, i + 1), LevelFrom(spine, p + 1, i);
      if spine[p].height > i + 1 {
        assert ([spine[p]] + upper)[1..] == upper && ([spine[p]] + lower)[1..] == lower;
      } else if spine[p].height > i {
        assert ([spine[p]] + lower)[1..] == lower;
        if upper != [] && upper[0] == spine[p] {
          SubsequenceTail(upper, lower);
        }
      }
    }
  }

  lemma {:induction false} SubsequenceTail(a: Spine, b: Spine)
    requires a != [] && Subsequence(a, b)
    ensures Subsequence(a[1..], b)
  {
    if a[0] == b[0] {
      if a[1..] != [] {
        if a[1] == b[0] {
          assert a[1..][0] == b[0];
          SubsequenceTail(a[1..], b[1..]);
        }
      }
    } else {
      SubsequenceTail(a, b[1..]);
      if |a| > 1 && a[1] == b[0] {
        assert a[1..][0] == b[0];
        SubsequenceTail(a[1..], b[1..]);
      }
    }
  }

  ghost predicate SortedKeys(nodes: Spine) {
    forall i, j :: 0 <= i < j < |nodes| ==> Less(nodes[i].key, nodes[j].key)
  }

  /** Levels from the current one on are empty, and the nodes of any level are
      in strict key order. */
  lemma {:induction false} LevelSortedOrEmpty(spine: Spine, maxLevel: nat, level: nat, p: nat, i: nat)
    requires Towers(spine, maxLevel, level) && SpineSorted(spine) && 1 <= p <= |spine|
    ensures i >= level ==> LevelFrom(spine, p, i) == []
    ensures SortedKeys(LevelFrom(spine, p, i))
    ensures forall n | n in LevelFrom(spine, p, i) :: n in spine[p..] && n.height > i
    decreases |spine| - p
  {
    hide Less;
    if p == |spine| {
    } else {
      LevelSortedOrEmpty(spine, maxLevel, level, p + 1, i);
      assert spine[p..] == [spine[p]] + spine[p + 1..];
      if spine[p].height > i {
        LaterKeysGreater(spine, p);
        SortedCons(spine[p], LevelFrom(spine, p + 1, i));
      }
    }
  }

  lemma LaterKeysGreater(spine: Spine, p: nat)
    requires SpineSorted(spine) && 1 <= p < |spine|
    ensures forall n | n in spine[p + 1..] :: Less(spine[p].key, n.key)
  {
    hide Less;
    forall n | n in spine[p + 1..]
      ensures Less(spine[p].key, n.key)
    {
      var j :| 0 <= j < |spine[p + 1..]| && spine[p + 1..][j] == n;
      assert spine[p + 1 + j] == n;
    }
  }

  lemma SortedCons(n: Node, later: Spine)
    requires SortedKeys(later) && forall m | m in later :: Less(n.key, m.key)
    ensures SortedKeys([n] + later)
  {
    hide Less;
  }

  /** Following a node's backward link and then the forward link on the same
      level leads back to the node; and likewise forward then backward. */
  lemma BackwardMirrorsForward(spine: Spine, maxLevel: nat, level: nat, p: nat, i: nat)
    requires WellLinked(spine, maxLevel, level) && p < |spine| && i < spine[p].height
    ensures p >= 1 ==>
              && spine[p].backward[i] != null
              && i < |spine[p].backward[i].forward|
              && spine[p].backward[i].forward[i] == spine[p]
    ensures spine[p].forward[i] != null ==>
              && i < |spine[p].forward[i].backward|
              && spine[p].forward[i].backward[i] == spine[p]
  {
    hide NextIdx, PrevIdx, Less;
    if p >= 1 {
      var q := PrevIdx(spine, p, i);
      NextUnique(spine, q + 1, i, p);
      assert spine[q].forward[i] == spine[p];
    }
    var q := NextIdx(spine, p + 1, i);
    if q < |spine| {
      PrevUnique(spine, q, i, p);
      assert spine[q].backward[i] == spine[p];
    }
  }

  // -------------------------------------------------------------------- runs

  datatype Op = Put(key: Bytes, value: Bytes, trancId: nat) | Remove(key: Bytes) | Clear

  /** What one call does to the stored entries (the contracts of the class). */
  function Apply(t: Table, op: Op): Table {
    match op
    case Put(k, v, id) => Write(t, k, v, id)
    case Remove(k) => Erase(t, k)
    case Clear => []
  }

  /** And on an actual list it does just that, whatever the coins. */
  method Perform(list: SkipList, op: Op, coins: seq<bool>)
    requires list.Valid()
    modifies list, list.spine
    ensures list.Valid() && list.Entries() == Apply(old(list.Entries()), op)
  {
    hide SkipList.Valid, SkipList.Entries;
    match op
    case Put(k, v, id) => list.Put(k, v, id, coins);
    case Remove(k) => list.Remove(k);
    case Clear => list.Clear();
  }

  function Run(ops: seq<Op>): Table {
    if ops == [] then [] else Apply(Run(ops[..|ops| - 1]), ops[|ops| - 1])
  }

  /** The same run on a finite map from keys to a value and a transaction id:
      an overwrite keeps the id of the write that created the key. */
  function RunMap(ops: seq<Op>): map<Bytes, (Bytes, nat)> {
    if ops == [] then map[]
    else
      var m := RunMap(ops[..|ops| - 1]);
      match ops[|ops| - 1]
      case Put(k, v, id) => m[k := (v, if k in m then m[k].1 else id)]
      case Remove(k) => m - {k}
      case Clear => map[]
  }

  /** A table holds exactly what a map holds. */
  ghost predicate Agrees(t: Table, m: map<Bytes, (Bytes, nat)>) {
    forall k :: Lookup(t, k) == if k in m then Some(Entry(k, m[k].0, m[k].1)) else None
  }

  /** After any run of puts, removals and clears, whatever the tower heights, the
      list is the sorted table of the map the run describes. */
  lemma {:induction false} RunRefinesMap(ops: seq<Op>)
    ensures Sorted(Run(ops)) && Agrees(Run(ops), RunMap(ops))
  {
    if ops == [] {
    } else {
      var before := Run(ops[..|ops| - 1]);
      RunRefinesMap(ops[..|ops| - 1]);
      match ops[|ops| - 1]
      case Put(k, v, id) => WriteIsUpdate(before, k, v, id);
      case Remove(k) => EraseIsRemoval(before, k);
      case Clear =>
    }
  }

  /** So two runs that build the same map leave the same flushed sequence. */
  lemma SameMapSameList(a: seq<Op>, b: seq<Op>)
    requires RunMap(a) == RunMap(b)
    ensures Run(a) == Run(b)
  {
    RunRefinesMap(a);
    RunRefinesMap(b);
    forall e
      ensures e in Run(a) <==> e in Run(b)
    {
      MemberIsLookup(Run(a), e);
      MemberIsLookup(Run(b), e);
    }
    SortedUnique(Run(a), Run(b));
  }

  lemma MemberIsLookup(t: Table, e: Entry)
    requires Sorted(t)
    ensures e in t <==> Lookup(t, e.key) == Some(e)
  {
    if e in t {
      var i :| 0 <= i < |t| && t[i] == e;
      LookupAt(t, i);
    }
  }
}
