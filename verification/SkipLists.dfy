/** The skip list: an in-place multi-level linked list that refines the sorted
    tables of module `Tables`. */
module SkipLists {
  import opened Keys
  import opened Tables
  import opened SkipNodes
  import opened Ranges

  /** A position in a list: a node, or null past the end. */
  class SkipListIterator {
    var current: Node?

    constructor (node: Node?)
      ensures current == node
    {
      current := node;
    }

    /** `operator++`. */
    method Next()
      requires current != null ==> |current.forward| > 0
      modifies this
      ensures current == if old(current) == null then null else old(current.forward[0])
    {
      if current != null {
        current := current.forward[0];
      }
    }

    /** An iterator on an entry with the empty key counts as invalid. */
    predicate IsValid()
      reads this
    {
      current != null && current.key != []
    }

    /** The entry a valid iterator stands on. */
    ghost function Found(): Option<Entry>
      reads this, current
    {
      if IsValid() then Some(EntryOf(current)) else None
    }

    predicate Equals(other: SkipListIterator)
      reads this, other
    {
      current == other.current
    }
  }

  ghost function EntriesOf(spine: Spine): (t: Table)
    requires |spine| >= 1
    reads spine
    ensures |t| == |spine| - 1
    ensures forall j | 0 <= j < |t| :: t[j] == Entry(spine[j + 1].key, spine[j + 1].value, spine[j + 1].trancId)
  {
    seq(|spine| - 1, j requires 0 <= j < |spine| - 1 reads spine =>
      Entry(spine[j + 1].key, spine[j + 1].value, spine[j + 1].trancId))
  }

  ghost function EntryOf(n: Node): Entry
    reads n
  {
    Entry(n.key, n.value, n.trancId)
  }

  /** The entries of the shorter spine are those of the longer one without the
      entry of the node at `pos`. */
  lemma EntriesRemoved(rest: Spine, spine: Spine, t: Table, pos: nat)
    requires 1 <= pos < |spine| && IsWithout(rest, spine, pos) && t == EntriesOf(spine)
    ensures |t| == |spine| - 1 && EntriesOf(rest) == t[..pos - 1] + t[pos..]
  {
    var t' := EntriesOf(rest);
    forall j | 0 <= j < |t'|
      ensures t'[j] == if j < pos - 1 then t[j] else t[j + 1]
    {
      assert rest[j + 1] == spine[Shift(j + 1, pos)];
    }
  }

  /** The level's first node from `pos` on is the one at `pos` exactly if its
      tower reaches the level. */
  lemma SeesIfTall(spine: Spine, pos: nat, i: nat)
    requires pos < |spine| && Distinct(spine)
    ensures At(spine, NextIdx(spine, pos, i)) == spine[pos] <==> spine[pos].height > i
  {
    if spine[pos].height > i {
      NextUnique(spine, pos, i, pos);
    }
  }

  lemma NothingSpliced(spine: Spine, pos: nat, node: Node)
    requires 1 <= pos <= |spine| && Sized(spine) && ForwardLinked(spine)
    ensures ForwardSpliced(spine, pos, node, 0)
  {
    hide Seen, Last;
  }

  lemma NothingSplicedBack(spine: Spine, pos: nat, node: Node)
    requires 1 <= pos <= |spine| && Sized(spine) && BackwardLinked(spine)
    ensures BackwardSpliced(spine, pos, node, 0)
  {
    hide Before;
  }

  lemma NothingBypassed(spine: Spine, pos: nat)
    requires 1 <= pos < |spine| && Sized(spine) && ForwardLinked(spine) && BackwardLinked(spine)
    ensures ForwardBypassed(spine, pos, 0) && BackwardBypassed(spine, pos, 0)
  {
    hide Seen, Last, Before;
  }

  /** The predecessor still points to the node at `pos` exactly on the levels its
      tower reaches. */
  lemma BypassedSees(spine: Spine, pos: nat, i: nat)
    requires 1 <= pos < |spine| && Sized(spine) && Distinct(spine) && i < spine[0].height
    requires ForwardBypassed(spine, pos, i)
    ensures i < |spine[PrevIdx(spine, pos, i)].forward|
    ensures spine[PrevIdx(spine, pos, i)].forward[i] == spine[pos] <==> spine[pos].height > i
  {
    hide NextIdx, PrevIdx;
    ghost var last := PrevIdx(spine, pos, i);
    LastSees(spine, pos, i);
    SeesIfTall(spine, pos, i);
    assert spine[last].forward[i] == Seen(spine, last + 1, i);
  }

  /** One level of unlinking the node at `pos`: its predecessor takes over its
      forward link. */
  method BypassForward(ghost spine: Spine, prev: Node, node: Node, i: nat, ghost pos: nat, ghost last: nat)
    requires 1 <= pos < |spine| && Distinct(spine) && Sized(spine) && node == spine[pos]
    requires i < node.height <= spine[0].height
    requires last < pos && last == Last(spine, pos, i) && prev == spine[last] && i < prev.height
    requires ForwardBypassed(spine, pos, i)
    modifies prev`forward
    ensures Sized(spine)
    ensures ForwardBypassed(spine, pos, i + 1)
    ensures node.forward[i] == Seen(spine, pos + 1, i)
  {
    hide Seen, Last;
    assert node.forward[i] == Seen(spine, pos + 1, i);
    prev.forward := prev.forward[i := node.forward[i]];
    assert forall q {:trigger spine[q].forward} | 0 <= q < |spine| ::
        spine[q].forward == if q == last then old(prev.forward)[i := node.forward[i]] else old(spine[q].forward);
  }

  /** Bypassed backward links and entries do not depend on forward links. */
  twostate lemma BypassFrame(spine: Spine)
    requires |spine| >= 1 && forall n | n in spine :: n.backward == old(n.backward) && n.value == old(n.value)
    requires old(Sized(spine)) && Sized(spine)
    ensures forall pos: nat, i: nat | 1 <= pos < |spine| && i <= spine[0].height ::
              old(BackwardBypassed(spine, pos, i)) ==> BackwardBypassed(spine, pos, i)
    ensures EntriesOf(spine) == old(EntriesOf(spine))
  {
    hide NextIdx, PrevIdx;
  }

  /** And its successor on the level, if any, takes over its backward link. */
  method BypassBackward(ghost spine: Spine, prev: Node, next: Node?, i: nat, ghost pos: nat)
    requires 1 <= pos < |spine| && Distinct(spine) && Sized(spine)
    requires i < spine[pos].height <= spine[0].height
    requires prev == Before(spine, pos, i) && next == Seen(spine, pos + 1, i)
    requires ForwardBypassed(spine, pos, i + 1) && BackwardBypassed(spine, pos, i)
    modifies next
    ensures Sized(spine)
    ensures ForwardBypassed(spine, pos, i + 1) && BackwardBypassed(spine, pos, i + 1)
    ensures EntriesOf(spine) == old(EntriesOf(spine))
  {
    hide PrevIdx, Before, Last, EntriesOf;
    ghost var first := NextIdx(spine, pos + 1, i);
    if next != null {
      next.backward := next.backward[i := prev];
      assert forall q {:trigger spine[q].backward} | 0 <= q < |spine| ::
          spine[q].backward == if q == first then old(next.backward)[i := prev] else old(spine[q].backward);
    }
    assert forall q {:trigger spine[q].forward} | 0 <= q < |spine| :: spine[q].forward == old(spine[q].forward);
    assert EntriesOf(spine) == old(EntriesOf(spine));
  }

  /** The entries of the longer spine are those of the shorter one with the
      entry of the node at `pos` put in. */
  lemma EntriesInserted(rest: Spine, t: Table, spine: Spine, pos: nat, e: Entry)
    requires 1 <= pos < |spine| && IsWithout(rest, spine, pos)
    requires t == EntriesOf(rest) && e == EntriesOf(spine)[pos - 1]
    ensures EntriesOf(spine) == t[..pos - 1] + [e] + t[pos - 1..]
  {
    var t' := EntriesOf(spine);
    forall j | 0 <= j < |t'|
      ensures t'[j] == if j < pos - 1 then t[j] else if j == pos - 1 then e else t[j - 1]
    {
      if j != pos - 1 {
        var q := Unshift(rest, spine, pos, j + 1);
      }
    }
  }

  lemma EntriesSorted(spine: Spine)
    requires |spine| >= 1 && SpineSorted(spine)
    ensures Sorted(EntriesOf(spine))
  {
    hide Less;
  }

  /** Everything before a positive entry is positive, everything from a negative
      one on is negative. */
  lemma LeftOfRange(t: Table, f: Bytes -> int, b: nat)
    requires MonotoneOn(t, f) && b <= |t|
    requires b >= 1 ==> f(t[b - 1].key) > 0
    ensures forall i | 0 <= i < b :: f(t[i].key) > 0
    ensures b < |t| && f(t[b].key) < 0 ==> forall i | b <= i < |t| :: f(t[i].key) < 0
  {
    assert forall i | 0 <= i < b - 1 :: f(t[i].key) <= 0 ==> f(t[b - 1].key) <= 0;
    if b < |t| {
      assert forall i | b < i < |t| :: f(t[b].key) < 0 ==> f(t[i].key) < 0;
    }
  }

  /** A maximal run of zeros after positives holds all the zeros. */
  lemma RunIsRange(t: Table, f: Bytes -> int, b: nat, e: nat)
    requires MonotoneOn(t, f) && b < e <= |t|
    requires forall i | 0 <= i < b :: f(t[i].key) > 0
    requires forall i | b <= i < e :: f(t[i].key) == 0
    requires e < |t| ==> f(t[e].key) != 0
    ensures forall i | 0 <= i < |t| :: b <= i < e <==> f(t[i].key) == 0
  {
    if e < |t| {
      assert f(t[b].key) <= 0 ==> f(t[e].key) <= 0;
      assert forall i | e < i < |t| :: f(t[e].key) < 0 ==> f(t[i].key) < 0;
    }
  }

  /** Both descriptions of where a key belongs agree. */
  lemma LowerBoundIsLowerPos(spine: Spine, key: Bytes)
    requires |spine| >= 1
    ensures LowerBound(EntriesOf(spine), key) + 1 == LowerPos(spine, 1, key)
  {
    var t := EntriesOf(spine);
    var p := LowerBound(t, key);
    assert p < |t| ==> t[p].key == spine[p + 1].key;
    assert forall r | 1 <= r < p + 1 :: spine[r].key == t[r - 1].key;
  }

  /** The links do not depend on values. */
  twostate lemma OnlyValueChanged(spine: Spine)
    requires forall n | n in spine :: n.backward == old(n.backward) && n.forward == old(n.forward)
    requires old(Sized(spine)) && Sized(spine)
    ensures old(ForwardLinked(spine)) ==> ForwardLinked(spine)
    ensures old(BackwardLinked(spine)) ==> BackwardLinked(spine)
  {
  }

  /** Backward links and entries do not depend on forward links. */
  twostate lemma OnlyForwardChanged(spine: Spine)
    requires forall n | n in spine :: n.backward == old(n.backward) && n.value == old(n.value)
    requires old(Sized(spine)) && Sized(spine)
    ensures old(BackwardLinked(spine)) ==> BackwardLinked(spine)
    ensures |spine| >= 1 ==> EntriesOf(spine) == old(EntriesOf(spine))
  {
  }

  /** One level of splicing a node in: it takes over its predecessor's forward
      link and the predecessor points to it. */
  method SpliceForward(ghost spine: Spine, prev: Node, node: Node, i: nat, ghost pos: nat, ghost last: nat)
    requires 1 <= pos <= |spine| && Distinct(spine) && Sized(spine) && node !in spine
    requires i < |node.forward| == node.height <= spine[0].height
    requires last < pos && last == Last(spine, pos, i) && prev == spine[last] && i < prev.height
    requires Seen(spine, last + 1, i) == Seen(spine, pos, i)
    requires ForwardSpliced(spine, pos, node, i)
    modifies prev`forward, node`forward
    ensures Sized(spine) && |node.forward| == node.height
    ensures ForwardSpliced(spine, pos, node, i + 1)
  {
    hide Seen, Last;
    node.forward := node.forward[i := prev.forward[i]];
    prev.forward := prev.forward[i := node];
    assert forall q {:trigger spine[q].forward} | 0 <= q < |spine| ::
        spine[q].forward == if q == last then old(prev.forward)[i := node] else old(spine[q].forward);
  }

  /** One level of splicing a node in backwards: it points to its predecessor,
      and its successor on the level, if any, points to it. */
  method SpliceBackward(ghost spine: Spine, prev: Node, node: Node, next: Node?, i: nat, ghost pos: nat)
    requires 1 <= pos <= |spine| && Distinct(spine) && Sized(spine) && node !in spine
    requires i < |node.backward| == |node.forward| == node.height <= spine[0].height
    requires prev == Before(spine, pos, i) && next == node.forward[i]
    requires ForwardSpliced(spine, pos, node, node.height)
    requires BackwardSpliced(spine, pos, node, i)
    modifies node, next
    ensures Sized(spine) && |node.backward| == |node.forward| == node.height
    ensures ForwardSpliced(spine, pos, node, node.height)
    ensures BackwardSpliced(spine, pos, node, i + 1)
    ensures EntriesOf(spine) == old(EntriesOf(spine)) && node.value == old(node.value)
  {
    hide NextIdx, PrevIdx, First, Last, Before, EntriesOf;
    ghost var first := First(spine, pos, i);
    assert next == At(spine, first) by {
      FirstIsSeen(spine, pos, i);
    }
    node.SetBackward(i, prev);
    if next != null {
      next.SetBackward(i, node);
    }
    assert BackwardSpliced(spine, pos, node, i + 1) by {
      forall q, j | 1 <= q < |spine| && 0 <= j < spine[q].height && spine[0].height > j
        ensures spine[q].backward[j] == if j < i + 1 && q == First(spine, pos, j) then node else Before(spine, q, j)
      {
        assert spine[q].backward[j] == if q == first && j == i then node else old(spine[q].backward[j]);
      }
    }
    assert ForwardSpliced(spine, pos, node, node.height) by {
      hide Seen, BackwardSpliced;
      assert forall q {:trigger spine[q].forward} | 0 <= q < |spine| :: spine[q].forward == old(spine[q].forward);
    }
    assert EntriesOf(spine) == old(EntriesOf(spine));
  }

  /** The last node before `pos` on a level sees the level's first node from
      `pos` on. */
  lemma LastSees(spine: Spine, pos: nat, i: nat)
    requires 1 <= pos <= |spine| && spine[0].height > i
    ensures NextIdx(spine, PrevIdx(spine, pos, i) + 1, i) == NextIdx(spine, pos, i)
    ensures Seen(spine, PrevIdx(spine, pos, i) + 1, i) == Seen(spine, pos, i)
  {
    NextUnique(spine, PrevIdx(spine, pos, i) + 1, i, NextIdx(spine, pos, i));
  }

  lemma FirstIsSeen(spine: Spine, pos: nat, i: nat)
    requires 1 <= pos <= |spine|
    ensures First(spine, pos, i) <= |spine| && At(spine, First(spine, pos, i)) == Seen(spine, pos, i)
  {
  }

  lemma BeforeIsPrev(spine: Spine, pos: nat, i: nat)
    requires 1 <= pos <= |spine| && spine[0].height > i
    ensures Before(spine, pos, i) == spine[PrevIdx(spine, pos, i)]
  {
  }

  /** A level's search stops on its last node before the lower position. */
  lemma StopsAtLast(spine: Spine, pos: nat, p: nat, i: nat)
    requires p < pos <= |spine| && spine[0].height > i && spine[p].height > i
    requires NextIdx(spine, p + 1, i) >= pos
    ensures p == PrevIdx(spine, pos, i)
  {
    PrevUnique(spine, pos, i, p);
  }

  /** The tower a run of coins builds: one level more than it starts with heads,
      but at most `maxLevel`. */
  predicate TowerFor(coins: seq<bool>, maxLevel: nat, level: nat) {
    && 1 <= level <= maxLevel
    && (forall j | 0 <= j < level - 1 :: j < |coins| && coins[j])
    && (level < maxLevel ==> level - 1 >= |coins| || !coins[level - 1])
  }

  /** No level in use but the first is empty. */
  ghost predicate TopInUse(spine: Spine, level: nat)
    requires |spine| >= 1
  {
    level == 1 || exists n :: n in spine && n != spine[0] && n.height == level
  }

  class SkipList {
    const maxLevel: nat
    var head: Node
    var currentLevel: nat
    var sizeBytes: nat
    ghost var spine: Spine

    ghost predicate Shape()
      reads this, spine
    {
      WellLinked(spine, maxLevel, currentLevel) && spine[0] == head
    }

    ghost predicate Valid()
      reads this, spine
      ensures Valid() ==> |spine| >= 1
    {
      Shape() && sizeBytes == Wrap64(TotalBytes(Entries()))
    }

    /** The stored entries in list order. */
    ghost function Entries(): (t: Table)
      requires |spine| >= 1
      reads this, spine
      ensures |t| == |spine| - 1
    {
      EntriesOf(spine)
    }

    constructor (maxLevel: nat := 16)
      requires maxLevel >= 1
      ensures Valid() && Entries() == [] && sizeBytes == 0
      ensures this.maxLevel == maxLevel && currentLevel == 1
      ensures forall n | n in spine :: fresh(n)
    {
      this.maxLevel, currentLevel, sizeBytes := maxLevel, 1, 0;
      var h := new Node([], [], maxLevel, 0);
      head, spine := h, [h];
    }

    /** One level, and another for every coin that comes up heads, up to
        `maxLevel`; once the coins run out, all others come up tails. */
    method RandomLevel(coins: seq<bool>) returns (level: nat)
      requires maxLevel >= 1
      ensures TowerFor(coins, maxLevel, level)
    {
      level := 1;
      while level - 1 < |coins| && coins[level - 1] && level < maxLevel
        invariant 1 <= level <= maxLevel
        invariant forall j | 0 <= j < level - 1 :: j < |coins| && coins[j]
        decreases maxLevel - level
      {
        level := level + 1;
      }
    }

    /** One level of a search: move right while the next key is below `key`. It
        stops on the level's last node below `key`. */
    method MoveRight(start: Node, i: nat, key: Bytes, ghost from: nat) returns (current: Node, ghost p: nat)
      requires Shape() && i < currentLevel
      requires from < LowerPos(spine, 1, key) && start == spine[from] && start.height > i
      ensures p == PrevIdx(spine, LowerPos(spine, 1, key), i)
      ensures current == spine[PrevIdx(spine, LowerPos(spine, 1, key), i)]
    {
      hide NextIdx, PrevIdx, LowerPos, Less;
      ghost var pos := LowerPos(spine, 1, key);
      PastLowerPos(spine, key);
      current, p := start, from;
      while current.forward[i] != null && Less(current.forward[i].key, key)
        invariant p < pos && current == spine[p] && spine[p].height > i
        decreases pos - p
      {
        p := NextIdx(spine, p + 1, i);
        current := current.forward[i];
      }
      StopsAtLast(spine, pos, p, i);
    }

    /** The search all lookups share: from the top level down, move right while
        the next key is below `key`. It stops on the last node below `key`. */
    method Descend(key: Bytes) returns (current: Node, ghost pos: nat)
      requires Shape()
      ensures 1 <= pos <= |spine| && pos == LowerPos(spine, 1, key)
      ensures current == spine[LowerPos(spine, 1, key) - 1]
    {
      pos := LowerPos(spine, 1, key);
      current := head;
      ghost var p: nat := 0;
      for i := currentLevel downto 0
        invariant p < pos && current == spine[p] && spine[p].height >= i
        invariant i < currentLevel ==> p == PrevIdx(spine, pos, i)
      {
        current, p := MoveRight(current, i, key, p);
      }
      BottomLevel(spine, pos);
    }

    /** The same search, recording on every level the last node below `key`;
        levels not in use stay null. */
    method FindUpdates(key: Bytes) returns (update: seq<Node?>, ghost pos: nat)
      requires Shape()
      ensures 1 <= pos <= |spine| && pos == LowerPos(spine, 1, key)
      ensures |update| == maxLevel
      ensures forall i | 0 <= i < currentLevel :: update[i] == spine[PrevIdx(spine, pos, i)]
    {
      pos := LowerPos(spine, 1, key);
      update := seq(maxLevel, _ => null);
      var current := head;
      ghost var p: nat := 0;
      for i := currentLevel downto 0
        invariant p < pos && current == spine[p] && spine[p].height >= i
        invariant |update| == maxLevel
        invariant forall j | i <= j < currentLevel :: update[j] == spine[PrevIdx(spine, pos, j)]
      {
        current, p := MoveRight(current, i, key, p);
        update := update[i := current];
      }
    }

    /** Splices a new node into its levels' forward chains. */
    method LinkForward(update: seq<Node?>, node: Node, ghost pos: nat)
      requires Shape() && 1 <= pos <= |spine| && node !in spine
      requires |node.forward| == node.height <= maxLevel && node.height <= |update|
      requires forall i | 0 <= i < node.height :: update[i] == spine[PrevIdx(spine, pos, i)]
      modifies spine, node
      ensures Sized(spine) && |node.forward| == node.height
      ensures ForwardSpliced(spine, pos, node, node.height)
      ensures BackwardLinked(spine) && EntriesOf(spine) == old(EntriesOf(spine))
      ensures node.value == old(node.value) && node.backward == old(node.backward)
    {
      hide NextIdx, PrevIdx, Seen, ForwardSpliced, ForwardLinked, BackwardLinked, EntriesOf, SpineSorted;
      NothingSpliced(spine, pos, node);
      for i := 0 to node.height
        invariant Sized(spine) && |node.forward| == node.height
        invariant ForwardSpliced(spine, pos, node, i)
        invariant BackwardLinked(spine) && EntriesOf(spine) == old(EntriesOf(spine))
        invariant node.value == old(node.value) && node.backward == old(node.backward)
      {
        label before:
        LastSees(spine, pos, i);
        SpliceForward(spine, update[i], node, i, pos, PrevIdx(spine, pos, i));
        OnlyForwardChanged@before(spine);
      }
    }

    /** Splices a new node into its levels' backward chains. */
    method LinkBackward(update: seq<Node?>, node: Node, ghost pos: nat)
      requires Towers(spine, maxLevel, currentLevel) && Distinct(spine)
      requires 1 <= pos <= |spine| && node !in spine && Sized(spine)
      requires |node.forward| == |node.backward| == node.height <= maxLevel && node.height <= |update|
      requires BackwardLinked(spine) && ForwardSpliced(spine, pos, node, node.height)
      requires forall i | 0 <= i < node.height :: update[i] == spine[PrevIdx(spine, pos, i)]
      modifies spine, node
      ensures Sized(spine) && |node.forward| == |node.backward| == node.height
      ensures ForwardSpliced(spine, pos, node, node.height)
      ensures BackwardSpliced(spine, pos, node, node.height)
      ensures EntriesOf(spine) == old(EntriesOf(spine)) && node.value == old(node.value)
    {
      hide NextIdx, PrevIdx, Before, BackwardSpliced, BackwardLinked, EntriesOf, SpineSorted;
      NothingSplicedBack(spine, pos, node);
      for i := 0 to node.height
        invariant Sized(spine) && |node.forward| == |node.backward| == node.height
        invariant ForwardSpliced(spine, pos, node, node.height)
        invariant BackwardSpliced(spine, pos, node, i)
        invariant EntriesOf(spine) == old(EntriesOf(spine)) && node.value == old(node.value)
      {
        BeforeIsPrev(spine, pos, i);
        SpliceBackward(spine, update[i], node, node.forward[i], i, pos);
      }
    }

    /** Links a prepared node into every level its tower reaches. */
    method Link(update: seq<Node?>, node: Node, ghost pos: nat)
      requires Shape() && node !in spine && |update| == maxLevel
      requires |node.forward| == |node.backward| == node.height && 1 <= node.height <= currentLevel
      requires pos == LowerPos(spine, 1, node.key) && (pos < |spine| ==> spine[pos].key != node.key)
      requires forall i | 0 <= i < node.height :: update[i] == spine[PrevIdx(spine, pos, i)]
      modifies this`spine, spine, node
      ensures Shape()
      ensures IsWithout(old(spine), spine, pos) && spine[pos] == node
      ensures forall n :: n in spine <==> n == node || n in old(spine)
      ensures EntriesOf(old(spine)) == old(EntriesOf(spine)) && node.value == old(node.value)
    {
      hide NextIdx, PrevIdx, LowerPos, Less, EntriesOf, ForwardSpliced, BackwardSpliced, ForwardLinked, BackwardLinked,
           Sized, Distinct, SpineSorted, IsWithout;
      ghost var rest := spine;
      LinkForward(update, node, pos);
      LinkBackward(update, node, pos);
      ghost var longer := PutIn(rest, pos, node);
      SplicedIsWellLinked(rest, longer, pos, maxLevel, currentLevel);
      spine := longer;
    }

    /** Brings levels into use up to `newLevel`; on them the head comes last
        before any key. */
    method RaiseTo(update0: seq<Node?>, newLevel: nat, ghost pos: nat) returns (update: seq<Node?>)
      requires Shape() && 1 <= newLevel <= maxLevel == |update0| && 1 <= pos <= |spine|
      requires forall i | 0 <= i < currentLevel :: update0[i] == spine[PrevIdx(spine, pos, i)]
      modifies this`currentLevel
      ensures Shape() && currentLevel == if newLevel > old(currentLevel) then newLevel else old(currentLevel)
      ensures |update| == maxLevel
      ensures forall i | 0 <= i < newLevel :: update[i] == spine[PrevIdx(spine, pos, i)]
    {
      update := update0;
      if newLevel > currentLevel {
        for i := currentLevel to newLevel
          invariant |update| == maxLevel
          invariant forall j | 0 <= j < i :: update[j] == spine[PrevIdx(spine, pos, j)]
        {
          update := update[i := head];
        }
        currentLevel := newLevel;
      }
    }

    /** Replaces the value of the node at `pos`; the byte count changes by an
        unsigned difference that wraps around when the value shrinks. */
    method Overwrite(node: Node, value: Bytes, ghost pos: nat)
      requires Valid() && 1 <= pos < |spine| && spine[pos] == node
      modifies this`sizeBytes, node`value
      ensures Valid()
      ensures Entries() == old(Entries())[pos - 1 := Entry(node.key, value, node.trancId)]
    {
      hide ForwardLinked, BackwardLinked, SpineSorted, TotalBytes, Wrap64, EntriesOf;
      ghost var t, e := Entries(), Entry(node.key, value, node.trancId);
      SizeAfterReplace(t, pos - 1, e);
      sizeBytes := Wrap64(sizeBytes + Wrap64(|value| - |node.value|));
      node.value := value;
      OnlyValueChanged(spine);
      assert Entries() == t[pos - 1 := e];
    }

    /** The insertion of a key that is not there yet, with a tower of any height. */
    method Insert(update0: seq<Node?>, key: Bytes, value: Bytes, newLevel: nat, trancId: nat, ghost pos: nat)
      requires Valid() && 1 <= newLevel <= maxLevel == |update0|
      requires pos == LowerPos(spine, 1, key) && (pos < |spine| ==> spine[pos].key != key)
      requires 1 <= pos
      requires forall i | 0 <= i < currentLevel :: update0[i] == spine[PrevIdx(spine, pos, i)]
      modifies this, spine
      ensures Valid()
      ensures Entries() == old(Entries()[..pos - 1] + [Entry(key, value, trancId)] + Entries()[pos - 1..])
      ensures IsWithout(old(spine), spine, pos) && spine[pos].key == key && spine[pos].height == newLevel
      ensures currentLevel == if newLevel > old(currentLevel) then newLevel else old(currentLevel)
      ensures forall n | n in spine :: n in old(spine) || fresh(n)
    {
      hide WellLinked, NextIdx, PrevIdx, LowerPos, Less, TotalBytes, Wrap64, EntriesOf;
      ghost var rest, t, e := spine, Entries(), Entry(key, value, trancId);
      var update := RaiseTo(update0, newLevel, pos);
      var node := new Node(key, value, newLevel, trancId);
      SizeAfterInsert(t, pos - 1, e);
      sizeBytes := Wrap64(sizeBytes + (|node.key| + |node.value| + 8));
      Link(update, node, pos);
      EntriesInserted(rest, t, spine, pos, e);
    }

    /** The node of a key just inserted: its tower is the one the coins build, and
        the levels in use reach exactly as high as it or as before. */
    ghost predicate HasTower(n: Node, key: Bytes, coins: seq<bool>, before: nat)
      reads this
    {
      && n.key == key && TowerFor(coins, maxLevel, n.height)
      && currentLevel == if n.height > before then n.height else before
    }

    lemma ListSorted()
      requires Valid()
      ensures Sorted(Entries())
    {
      EntriesSorted(spine);
    }

    /** A key is stored exactly if it is at its lower position. */
    lemma FoundAtPosition(key: Bytes, pos: nat)
      requires Valid() && pos == LowerPos(spine, 1, key)
      ensures LowerBound(Entries(), key) + 1 == pos
      ensures Lookup(Entries(), key).Some? <==> pos < |spine| && spine[pos].key == key
    {
      hide WellLinked, TotalBytes, Wrap64, Less, LowerPos;
      var t := Entries();
      LowerBoundIsLowerPos(spine, key);
      ListSorted();
      PastLowerBound(t, key);
      if pos < |spine| && spine[pos].key == key {
        LookupAt(t, pos - 1);
      }
    }

    /** Inserts or updates a key. A new node gets the tower the coins build; an
        update leaves the structure as it is. */
    method Put(key: Bytes, value: Bytes, trancId: nat, coins: seq<bool>)
      requires Valid()
      modifies this, spine
      ensures Valid()
      ensures Entries() == Write(old(Entries()), key, value, trancId)
      ensures Lookup(old(Entries()), key).Some? ==> spine == old(spine) && currentLevel == old(currentLevel)
      ensures Lookup(old(Entries()), key).None? ==> exists n :: n in spine && HasTower(n, key, coins, old(currentLevel))
      ensures forall n | n in spine :: n in old(spine) || fresh(n)
    {
      var update, pos := FindUpdates(key);
      BottomLevel(spine, pos);
      FoundAtPosition(key, pos);
      var current := update[0].forward[0];
      if current != null && current.key == key {
        Overwrite(current, value, pos);
        return;
      }
      var newLevel := RandomLevel(coins);
      Insert(update, key, value, newLevel, trancId, pos);
      assert HasTower(spine[pos], key, coins, old(currentLevel));
    }

    /** Unlinks the node at `pos` from every level its tower reaches; the first
        level on which its predecessor points elsewhere ends the loop. */
    method UnlinkLevels(update: seq<Node?>, node: Node, ghost pos: nat)
      requires Shape() && 1 <= pos < |spine| && node == spine[pos] && |update| == maxLevel
      requires forall i | 0 <= i < currentLevel :: update[i] == spine[PrevIdx(spine, pos, i)]
      modifies spine
      ensures Towers(spine, maxLevel, currentLevel) && Distinct(spine) && SpineSorted(spine) && Sized(spine)
      ensures ForwardBypassed(spine, pos, node.height) && BackwardBypassed(spine, pos, node.height)
      ensures EntriesOf(spine) == old(EntriesOf(spine))
    {
      hide NextIdx, PrevIdx, SpineSorted, EntriesOf, ForwardBypassed, BackwardBypassed, ForwardLinked, BackwardLinked;
      ghost var h: nat := 0;
      NothingBypassed(spine, pos);
      for i := 0 to currentLevel
        invariant i == h <= node.height && Sized(spine)
        invariant ForwardBypassed(spine, pos, h) && BackwardBypassed(spine, pos, h)
        invariant EntriesOf(spine) == old(EntriesOf(spine))
      {
        BypassedSees(spine, pos, i);
        if update[i].forward[i] != node {
          break;
        }
        label before:
        BypassForward(spine, update[i], node, i, pos, PrevIdx(spine, pos, i));
        BypassFrame@before(spine);
        BypassBackward(spine, update[i], node.forward[i], i, pos);
        h := h + 1;
      }
      assert h == node.height;
    }

    /** Takes the node at `pos` out of the list. */
    method Unlink(update: seq<Node?>, node: Node, ghost pos: nat)
      requires Shape() && 1 <= pos < |spine| && node == spine[pos] && |update| == maxLevel
      requires forall i | 0 <= i < currentLevel :: update[i] == spine[PrevIdx(spine, pos, i)]
      modifies this`spine, spine
      ensures Shape()
      ensures IsWithout(spine, old(spine), pos)
      ensures forall n :: n in spine ==> n in old(spine)
      ensures EntriesOf(old(spine)) == old(EntriesOf(spine))
    {
      hide WellLinked, NextIdx, PrevIdx, EntriesOf, ForwardBypassed, BackwardBypassed, Sized, Towers, Distinct,
           SpineSorted;
      ghost var longer := spine;
      UnlinkLevels(update, node, pos);
      ghost var shorter := TakeOut(longer, pos);
      BypassedIsWellLinked(shorter, longer, pos, maxLevel, currentLevel);
      spine := shorter;
    }

    /** The removal of a node that is there. */
    method Delete(update: seq<Node?>, node: Node, ghost pos: nat)
      requires Valid() && 1 <= pos < |spine| && node == spine[pos] && |update| == maxLevel
      requires forall i | 0 <= i < currentLevel :: update[i] == spine[PrevIdx(spine, pos, i)]
      modifies this, spine
      ensures Valid()
      ensures Entries() == old(Entries()[..pos - 1] + Entries()[pos..])
      ensures forall n | n in spine :: n in old(spine)
    {
      hide WellLinked, NextIdx, PrevIdx, Less, TotalBytes, Wrap64, EntriesOf;
      ghost var full, t := spine, Entries();
      SizeAfterDelete(t, pos - 1);
      sizeBytes := Wrap64(sizeBytes - Wrap64(|node.key| + |node.value| + 8));
      Unlink(update, node, pos);
      EntriesRemoved(spine, full, t, pos);
    }

    /** Takes empty top levels out of use. */
    method Shrink()
      requires Valid()
      modifies this`currentLevel
      ensures Valid() && Entries() == old(Entries()) && currentLevel <= old(currentLevel)
      ensures TopInUse(spine, currentLevel)
    {
      hide NextIdx, PrevIdx, Less, TotalBytes, EntriesOf;
      while currentLevel > 1 && head.forward[currentLevel - 1] == null
        invariant Shape() && currentLevel <= old(currentLevel)
      {
        ghost var top := currentLevel - 1;
        assert NextIdx(spine, 1, top) == |spine|;
        currentLevel := currentLevel - 1;
      }
      if currentLevel > 1 {
        assert head.forward[currentLevel - 1] == Seen(spine, 1, currentLevel - 1);
      }
    }

    /** Removes a key. If it was there the level count falls to the highest tower
        left, and otherwise nothing changes. */
    method Remove(key: Bytes)
      requires Valid()
      modifies this, spine
      ensures Valid()
      ensures Entries() == Erase(old(Entries()), key)
      ensures Lookup(old(Entries()), key).None? ==> spine == old(spine) && currentLevel == old(currentLevel)
      ensures Lookup(old(Entries()), key).Some? ==> TopInUse(spine, currentLevel)
      ensures forall n | n in spine :: n in old(spine)
    {
      hide NextIdx, PrevIdx, Less, TotalBytes, Wrap64, EntriesOf;
      var update, pos := FindUpdates(key);
      BottomLevel(spine, pos);
      FoundAtPosition(key, pos);
      var current := update[0].forward[0];
      if current != null && current.key == key {
        Delete(update, current, pos);
        Shrink();
      }
    }

    /** Where a key is stored, or a null iterator; the transaction id plays no
        part in the search. */
    method Get(key: Bytes, trancId: nat) returns (it: SkipListIterator)
      requires Valid()
      ensures fresh(it)
      ensures it.current == null <==> Lookup(Entries(), key).None?
      ensures it.current != null ==>
                && it.current in spine && it.current.key == key
                && Lookup(Entries(), key) == Some(EntryOf(it.current))
    {
      hide NextIdx, PrevIdx, TotalBytes, Less;
      var current, pos := Descend(key);
      BottomLevel(spine, pos);
      LowerBoundIsLowerPos(spine, key);
      EntriesSorted(spine);
      PastLowerBound(Entries(), key);
      var next := current.forward[0];
      if next != null && next.key == key {
        LookupAt(Entries(), pos - 1);
        it := new SkipListIterator(next);
      } else {
        it := new SkipListIterator(null);
      }
    }

    /** All entries, by walking the lowest level. */
    method Flush() returns (data: Table)
      requires Valid()
      ensures data == Entries()
    {
      hide PrevIdx, TotalBytes, Less;
      data := [];
      BottomLevel(spine, 1);
      var node := head.forward[0];
      ghost var p: nat := 1;
      while node != null
        invariant 1 <= p <= |spine| && node == At(spine, p)
        invariant data == Entries()[..p - 1]
        decreases |spine| - p
      {
        data := data + [Entry(node.key, node.value, node.trancId)];
        BottomLevel(spine, p + 1);
        node := node.forward[0];
        p := p + 1;
      }
    }

    method GetSize() returns (size: nat)
      requires Valid()
      ensures size == Wrap64(TotalBytes(Entries()))
      ensures TotalBytes(Entries()) < TWO64 ==> size == TotalBytes(Entries())
    {
      size := sizeBytes;
    }

    /** Drops the whole structure but not the level count. */
    method Clear()
      requires Valid()
      modifies this
      ensures Valid() && Entries() == [] && currentLevel == old(currentLevel)
      ensures forall n | n in spine :: fresh(n)
    {
      head := new Node([], [], maxLevel, 0);
      sizeBytes := 0;
      spine := [head];
    }

    method Begin() returns (it: SkipListIterator)
      requires Valid()
      ensures fresh(it) && it.current == At(spine, 1)
    {
      BottomLevel(spine, 1);
      it := new SkipListIterator(head.forward[0]);
    }

    method End() returns (it: SkipListIterator)
      ensures fresh(it) && it.current == null
    {
      it := new SkipListIterator(null);
    }

    /** The first node at or past a key, by the shared search. */
    method FirstAtOrPast(key: Bytes) returns (node: Node?)
      requires Valid()
      ensures node == At(spine, LowerBound(Entries(), key) + 1)
    {
      hide NextIdx, PrevIdx, TotalBytes, Less, EntriesOf;
      var current, pos := Descend(key);
      BottomLevel(spine, pos);
      LowerBoundIsLowerPos(spine, key);
      node := current.forward[0];
    }

    /** The first entry at or past a prefix. */
    method BeginPreffix(prefix: Bytes) returns (it: SkipListIterator)
      requires Valid()
      ensures fresh(it)
      ensures it.current == At(spine, LowerBound(Entries(), prefix) + 1)
    {
      var node := FirstAtOrPast(prefix);
      it := new SkipListIterator(node);
    }

    /** The lowest level links every entry to the next one. */
    lemma LowestLevel(p: nat)
      requires Valid() && p < |spine|
      ensures |spine[p].forward| >= 1 && spine[p].forward[0] == At(spine, p + 1)
      ensures p + 1 < |spine| ==> Entries()[p].key == spine[p + 1].key
    {
      hide NextIdx, PrevIdx, TotalBytes, Less;
      BottomLevel(spine, p + 1);
    }

    /** Different positions hold different nodes; the end is like no node. */
    lemma PositionsDiffer(p: nat, q: nat)
      requires Valid() && p <= |spine| && q <= |spine|
      ensures At(spine, p) == At(spine, q) <==> p == q
    {
    }

    /** The first entry past those starting with a prefix. */
    method EndPreffix(prefix: Bytes) returns (it: SkipListIterator)
      requires Valid()
      ensures fresh(it)
      ensures var t := Entries();
              it.current == At(spine, PrefixRunEnd(t, LowerBound(t, prefix), prefix) + 1)
    {
      hide Valid, Entries, LowerBound, PrefixRunEnd, ComparePrefix;
      var node := FirstAtOrPast(prefix);
      ghost var b := LowerBound(Entries(), prefix);
      ghost var p := b + 1;
      LowestLevel(p - 1);
      while node != null && ComparePrefix(node.key, prefix) == 0
        invariant b + 1 <= p <= |spine| && node == At(spine, p)
        invariant p < |spine| ==> Entries()[p - 1].key == spine[p].key
        invariant forall i | b <= i < p - 1 :: prefix <= Entries()[i].key
        decreases |spine| - p
      {
        PrefixComparesEqual(node.key, prefix);
        LowestLevel(p);
        node := node.forward[0];
        p := p + 1;
      }
      if node != null {
        PrefixComparesEqual(node.key, prefix);
      }
      PrefixRunEndUnique(Entries(), b, prefix, p - 1);
      it := new SkipListIterator(node);
    }

    /** From the top level down, move right while the next entry is to the left
        of the range. */
    method DescendLeftOf(f: Bytes -> int) returns (current: Node, ghost p: nat)
      requires Valid()
      ensures p < |spine| && current == spine[p] && (p >= 1 ==> f(current.key) > 0)
      ensures current in spine && (current == head || f(current.key) > 0)
    {
      hide NextIdx, PrevIdx, TotalBytes, Less, EntriesOf, SpineSorted, BackwardLinked, Distinct;
      current, p := head, 0;
      for level := currentLevel downto 0
        invariant p < |spine| && current == spine[p] && spine[p].height >= level
        invariant p >= 1 ==> f(current.key) > 0
      {
        while current.forward[level] != null
          invariant p < |spine| && current == spine[p] && spine[p].height > level
          invariant p >= 1 ==> f(current.key) > 0
          decreases |spine| - p
        {
          var result := f(current.forward[level].key);
          if result == 0 {
            break;
          } else if result < 0 {
            break;
          } else {
            p := NextIdx(spine, p + 1, level);
            current := current.forward[level];
          }
        }
      }
    }

    /** From the first match, walk right while entries match. */
    method LastMatch(f: Bytes -> int, first: Node, ghost b: nat) returns (last: Node, ghost e: nat)
      requires Valid() && b < |Entries()| && first == spine[b + 1] && f(Entries()[b].key) == 0
      ensures b < e <= |Entries()| && last == spine[e]
      ensures f(last.key) == 0 && last in spine[b + 1..]
      ensures forall i | b <= i < e :: f(Entries()[i].key) == 0
      ensures e < |Entries()| ==> f(Entries()[e].key) != 0
    {
      hide WellLinked, NextIdx, PrevIdx, TotalBytes, Less, EntriesOf;
      last, e := first, b + 1;
      LowestLevel(e);
      while last.forward[0] != null
        invariant b + 1 <= e < |spine| && last == spine[e] && f(last.key) == 0
        invariant |last.forward| >= 1 && last.forward[0] == At(spine, e + 1)
        invariant e + 1 < |spine| ==> Entries()[e].key == spine[e + 1].key
        invariant forall i | b <= i < e :: f(Entries()[i].key) == 0
        decreases |spine| - e
      {
        var result := f(last.forward[0].key);
        if result == 0 {
          last := last.forward[0];
          e := e + 1;
          LowestLevel(e);
        } else {
          break;
        }
      }
    }

    /** The walk on the lowest level that ends the search for the first match:
        past `current` it skips entries to the left of the range. */
    method FirstMatch(f: Bytes -> int, start: Node, ghost from: nat) returns (first: Node?, ghost b: nat)
      requires Valid() && MonotoneOn(Entries(), f)
      requires from < |spine| && start == spine[from] && (from >= 1 ==> f(start.key) > 0)
      ensures first == null ==> forall i | 0 <= i < |Entries()| :: f(Entries()[i].key) != 0
      ensures first != null ==> b < |Entries()| && first == spine[b + 1] && f(Entries()[b].key) == 0
      ensures first != null ==> forall i | 0 <= i < b :: f(Entries()[i].key) > 0
    {
      hide WellLinked, NextIdx, PrevIdx, TotalBytes, Less, EntriesOf;
      var current := start;
      b := from;
      LowestLevel(b);
      while current.forward[0] != null
        invariant b < |spine| && current == spine[b]
        invariant |current.forward| >= 1 && current.forward[0] == At(spine, b + 1)
        invariant b + 1 < |spine| ==> Entries()[b].key == spine[b + 1].key
        invariant b >= 1 ==> f(Entries()[b - 1].key) > 0
        decreases |spine| - b
      {
        var result := f(current.forward[0].key);
        if result == 0 {
          break;
        } else if result < 0 {
          LeftOfRange(Entries(), f, b);
          return null, b;
        } else {
          current := current.forward[0];
          b := b + 1;
          LowestLevel(b);
        }
      }
      LeftOfRange(Entries(), f, b);
      first := current.forward[0];
    }

    /** The range where a monotone predicate is zero, or nothing. */
    method ItersMonotonyPredicate(f: Bytes -> int)
      returns (r: Option<(SkipListIterator, SkipListIterator)>, ghost b: nat, ghost e: nat)
      requires Valid() && MonotoneOn(Entries(), f)
      ensures b <= e <= |Entries()|
      ensures forall i | 0 <= i < |Entries()| :: b <= i < e <==> f(Entries()[i].key) == 0
      ensures r.None? <==> b == e
      ensures r.Some? ==> fresh(r.value.0) && fresh(r.value.1) && r.value.0 != r.value.1
      ensures r.Some? ==> r.value.0.current == At(spine, b + 1) && r.value.1.current == At(spine, e + 1)
    {
      hide WellLinked, NextIdx, PrevIdx, TotalBytes, Less, EntriesOf;
      var current, p := DescendLeftOf(f);
      var first;
      first, b := FirstMatch(f, current, p);
      if first == null {
        return None, 0, 0;
      }
      var last;
      last, e := LastMatch(f, first, b);
      RunIsRange(Entries(), f, b, e);
      LowestLevel(e);
      var beginIter := new SkipListIterator(first);
      var endIter := new SkipListIterator(last.forward[0]);
      r := Some((beginIter, endIter));
    }
  }
}
