/** Skip list nodes, and the shape of the linked structure seen through the
    sequence of its nodes in list order (the "spine", head first). A node's key,
    transaction id and tower height never change after construction, so
    everything here but the links is about values. */
module SkipNodes {
  import opened Keys

  class Node {
    const key: Bytes
    const trancId: nat
    const height: nat
    var value: Bytes
    var forward: seq<Node?>
    var backward: seq<Node?>

    constructor (key: Bytes, value: Bytes, level: nat, trancId: nat)
      ensures this.key == key && this.value == value && this.trancId == trancId
      ensures height == level
      ensures forward == seq(level, _ => null) && backward == seq(level, _ => null)
    {
      this.key, this.value, this.trancId, height := key, value, trancId, level;
      forward, backward := seq(level, _ => null), seq(level, _ => null);
    }

    method SetBackward(level: nat, node: Node)
      requires level < |backward|
      modifies this`backward
      ensures backward == old(backward)[level := node]
    {
      backward := backward[level := node];
    }
  }

  type Spine = seq<Node>

  /** The first position at or after `p` whose tower reaches level `i`, or the
      length of the spine. */
  ghost function NextIdx(spine: Spine, p: nat, i: nat): (q: nat)
    requires p <= |spine|
    ensures p <= q <= |spine|
    ensures q < |spine| ==> spine[q].height > i
    ensures forall r | p <= r < q :: spine[r].height <= i
    decreases |spine| - p
  {
    if p == |spine| || spine[p].height > i then p else NextIdx(spine, p + 1, i)
  }

  /** The last position before `p` whose tower reaches level `i`. */
  ghost function PrevIdx(spine: Spine, p: nat, i: nat): (q: nat)
    requires 0 < p <= |spine| && spine[0].height > i
    ensures q < p && spine[q].height > i
    ensures forall r | q < r < p :: spine[r].height <= i
  {
    if spine[p - 1].height > i then p - 1 else PrevIdx(spine, p - 1, i)
  }

  /** The first data position whose key is not below `key`. */
  ghost function LowerPos(spine: Spine, p: nat, key: Bytes): (q: nat)
    requires p <= |spine|
    ensures p <= q <= |spine|
    ensures q < |spine| ==> !Less(spine[q].key, key)
    ensures forall r | p <= r < q :: Less(spine[r].key, key)
    decreases |spine| - p
  {
    if p == |spine| || !Less(spine[p].key, key) then p else LowerPos(spine, p + 1, key)
  }

  ghost function At(spine: Spine, p: nat): Node? {
    if p < |spine| then spine[p] else null
  }

  /** The node at `NextIdx`, or null. */
  ghost function Seen(spine: Spine, p: nat, i: nat): Node?
    requires p <= |spine|
  {
    At(spine, NextIdx(spine, p, i))
  }

  /** `NextIdx` and `PrevIdx` without their postconditions, which proofs about many
      positions at once do better without; and the node at the latter. */
  ghost function First(spine: Spine, p: nat, i: nat): nat
    requires p <= |spine|
  {
    NextIdx(spine, p, i)
  }

  ghost function Last(spine: Spine, p: nat, i: nat): nat
    requires 0 < p <= |spine| && spine[0].height > i
  {
    PrevIdx(spine, p, i)
  }

  ghost function Before(spine: Spine, p: nat, i: nat): Node
    requires 0 < p <= |spine| && spine[0].height > i
  {
    spine[PrevIdx(spine, p, i)]
  }

  ghost predicate SpineSorted(spine: Spine) {
    forall p, q :: 1 <= p < q < |spine| ==> Less(spine[p].key, spine[q].key)
  }

  ghost predicate Distinct(spine: Spine) {
    forall p, q :: 0 <= p < q < |spine| ==> spine[p] != spine[q]
  }

  /** The head's tower is `maxLevel` high, every other node's at most `level`. */
  ghost predicate Towers(spine: Spine, maxLevel: nat, level: nat) {
    && 1 <= |spine| && 1 <= level <= maxLevel && spine[0].height == maxLevel
    && forall p :: 1 <= p < |spine| ==> 1 <= spine[p].height <= level
  }

  /** The link vectors have the tower's height. */
  ghost predicate Sized(spine: Spine)
    reads spine
  {
    forall p {:trigger spine[p].forward} {:trigger spine[p].backward} :: 0 <= p < |spine| ==>
      |spine[p].forward| == |spine[p].backward| == spine[p].height
  }

  /** At every level a node points to the next node whose tower reaches it. */
  ghost predicate ForwardLinked(spine: Spine)
    requires Sized(spine)
    reads spine
  {
    forall p, i {:trigger spine[p].forward[i]} :: 0 <= p < |spine| && 0 <= i < spine[p].height ==>
      spine[p].forward[i] == Seen(spine, p + 1, i)
  }

  /** At every level a data node points back to the last node before it whose
      tower reaches that level. */
  ghost predicate BackwardLinked(spine: Spine)
    requires Sized(spine)
    reads spine
  {
    forall p, i {:trigger spine[p].backward[i]} ::
      1 <= p < |spine| && 0 <= i < spine[p].height && spine[0].height > i ==>
      spine[p].backward[i] == Before(spine, p, i)
  }

  /** The whole linked structure: every level is the sublist of the spine whose
      towers reach it, levels from `level` on are empty, the spine is in strict
      key order, and backward links mirror forward links. */
  ghost predicate WellLinked(spine: Spine, maxLevel: nat, level: nat)
    reads spine
  {
    && Towers(spine, maxLevel, level)
    && Distinct(spine)
    && SpineSorted(spine)
    && Sized(spine)
    && ForwardLinked(spine)
    && BackwardLinked(spine)
  }

  /** In a sorted spine the keys below `key` are those before its lower position. */
  lemma PastLowerPos(spine: Spine, key: Bytes)
    requires |spine| >= 1 && SpineSorted(spine)
    ensures forall r | 1 <= r < |spine| :: Less(spine[r].key, key) <==> r < LowerPos(spine, 1, key)
  {
    var pos := LowerPos(spine, 1, key);
    forall r | pos < r < |spine|
      ensures !Less(spine[r].key, key)
    {
      if Less(spine[r].key, key) {
        LessTransitive(spine[pos].key, spine[r].key, key);
      }
    }
  }

  // ------------------------------------------------- taking one position out
  //
  // Insertion and removal are the same step read in opposite directions: below,
  // `spine` holds a node at `pos` and `rest` does not.

  ghost predicate IsWithout(rest: Spine, spine: Spine, pos: nat) {
    && pos < |spine| == |rest| + 1
    && forall r {:trigger rest[r]} :: 0 <= r < |rest| ==> rest[r] == spine[Shift(r, pos)]
  }

  /** Where position `p` of the shorter spine is in the longer one. */
  ghost function Shift(p: nat, pos: nat): nat {
    if p < pos then p else p + 1
  }

  /** The spine with a node put in at `pos`. */
  lemma PutIn(rest: Spine, pos: nat, node: Node) returns (spine: Spine)
    requires pos <= |rest|
    ensures IsWithout(rest, spine, pos) && spine[pos] == node
    ensures forall n :: n in spine <==> n == node || n in rest
  {
    spine := rest[..pos] + [node] + rest[pos..];
    assert rest == rest[..pos] + rest[pos..];
  }

  /** The spine with the node at `pos` taken out. */
  lemma TakeOut(spine: Spine, pos: nat) returns (rest: Spine)
    requires pos < |spine|
    ensures IsWithout(rest, spine, pos)
    ensures forall n :: n in rest ==> n in spine
  {
    rest := spine[..pos] + spine[pos + 1..];
  }

  /** Which position of the shorter spine holds what the longer one has at `p`. */
  lemma Unshift(rest: Spine, spine: Spine, pos: nat, p: nat) returns (q: nat)
    requires IsWithout(rest, spine, pos) && p < |spine| && p != pos
    ensures q < |rest| && rest[q] == spine[p] && Shift(q, pos) == p
  {
    q := if p < pos then p else p - 1;
    assert rest[q] == spine[Shift(q, pos)];
  }

  lemma NextUnique(spine: Spine, p: nat, i: nat, q: nat)
    requires p <= q <= |spine|
    requires q < |spine| ==> spine[q].height > i
    requires forall r | p <= r < q :: spine[r].height <= i
    ensures NextIdx(spine, p, i) == q
  {
  }

  lemma PrevUnique(spine: Spine, p: nat, i: nat, q: nat)
    requires q < p <= |spine| && spine[0].height > i && spine[q].height > i
    requires forall r | q < r < p :: spine[r].height <= i
    ensures PrevIdx(spine, p, i) == q
  {
  }

  /** The next node at level `i`: the last node before `pos` sees the node at
      `pos` if its tower reaches the level, and without it sees what that node
      sees; every other node sees the same node with and without it. */
  lemma NextWithout(rest: Spine, spine: Spine, pos: nat, p: nat, i: nat)
    requires 1 <= pos < |spine| && IsWithout(rest, spine, pos) && p < |spine| - 1
    requires spine[0].height > i && spine[Shift(p, pos)].height > i
    ensures var p0 := Shift(p, pos);
            if spine[pos].height > i && p0 == PrevIdx(spine, pos, i)
            then && NextIdx(spine, p0 + 1, i) == pos
                 && At(rest, NextIdx(rest, p + 1, i)) == At(spine, NextIdx(spine, pos + 1, i))
            else && NextIdx(spine, p0 + 1, i) != pos
                 && At(rest, NextIdx(rest, p + 1, i)) == At(spine, NextIdx(spine, p0 + 1, i))
  {
    if spine[pos].height > i && Shift(p, pos) == PrevIdx(spine, pos, i) {
      NextSeen(rest, spine, pos, p, i);
    } else {
      if p < pos {
        NextOrLast(spine, pos, p, i);
      }
      NextElsewhere(rest, spine, pos, p, i);
    }
  }

  lemma NextSeen(rest: Spine, spine: Spine, pos: nat, p: nat, i: nat)
    requires 1 <= pos < |spine| && IsWithout(rest, spine, pos) && spine[0].height > i && spine[pos].height > i
    requires p == PrevIdx(spine, pos, i)
    ensures NextIdx(spine, p + 1, i) == pos
    ensures At(rest, NextIdx(rest, p + 1, i)) == At(spine, NextIdx(spine, pos + 1, i))
  {
    NextUnique(spine, p + 1, i, pos);
    NextUnique(rest, p + 1, i, NextIdx(spine, pos + 1, i) - 1);
  }

  /** Before `pos`, a node of level `i` is the level's last one or sees another. */
  lemma NextOrLast(spine: Spine, pos: nat, p: nat, i: nat)
    requires p < pos < |spine| && spine[0].height > i && spine[p].height > i
    ensures p == PrevIdx(spine, pos, i) || NextIdx(spine, p + 1, i) < pos
  {
    var last := PrevIdx(spine, pos, i);
    assert p < last ==> NextIdx(spine, p + 1, i) <= last;
  }

  /** A node that does not see `pos` sees the same with and without it. */
  lemma NextElsewhere(rest: Spine, spine: Spine, pos: nat, p: nat, i: nat)
    requires 1 <= pos < |spine| && IsWithout(rest, spine, pos) && p < |spine| - 1
    requires NextIdx(spine, Shift(p, pos) + 1, i) != pos
    ensures At(rest, NextIdx(rest, p + 1, i)) == At(spine, NextIdx(spine, Shift(p, pos) + 1, i))
  {
    var q := NextIdx(spine, Shift(p, pos) + 1, i);
    var q' := if q < pos then q else q - 1;
    forall r | p + 1 <= r < q'
      ensures rest[r].height <= i
    {
      assert rest[r] == spine[Shift(r, pos)];
    }
    NextUnique(rest, p + 1, i, q');
  }

  /** The node before a data node at level `i`, with and without `pos`. */
  lemma PrevWithout(rest: Spine, spine: Spine, pos: nat, p: nat, i: nat)
    requires 1 <= pos < |spine| && IsWithout(rest, spine, pos) && 1 <= p < |spine| - 1
    requires spine[0].height > i && spine[Shift(p, pos)].height > i
    ensures var p0 := Shift(p, pos);
            if spine[pos].height > i && p0 == NextIdx(spine, pos + 1, i)
            then && PrevIdx(spine, p0, i) == pos
                 && rest[PrevIdx(rest, p, i)] == spine[PrevIdx(spine, pos, i)]
            else && PrevIdx(spine, p0, i) != pos
                 && rest[PrevIdx(rest, p, i)] == spine[PrevIdx(spine, p0, i)]
  {
    var p0 := Shift(p, pos);
    var seen := spine[pos].height > i && p0 == NextIdx(spine, pos + 1, i);
    var q := if seen then PrevIdx(spine, pos, i) else PrevIdx(spine, p0, i);
    if seen {
      PrevUnique(spine, p0, i, pos);
    }
    PrevUnique(rest, p, i, if q < pos then q else q - 1);
  }

  /** Before `pos` nothing moves. */
  lemma PrevSame(rest: Spine, spine: Spine, pos: nat, i: nat)
    requires 1 <= pos < |spine| && IsWithout(rest, spine, pos) && spine[0].height > i
    ensures PrevIdx(rest, pos, i) == PrevIdx(spine, pos, i)
  {
    PrevUnique(rest, pos, i, PrevIdx(spine, pos, i));
  }

  /** What follows `pos` is what the shorter spine has from `pos` on. */
  lemma NextSame(rest: Spine, spine: Spine, pos: nat, i: nat)
    requires 1 <= pos < |spine| && IsWithout(rest, spine, pos)
    ensures NextIdx(spine, pos + 1, i) == NextIdx(rest, pos, i) + 1
  {
    NextUnique(rest, pos, i, NextIdx(spine, pos + 1, i) - 1);
  }

  /** The lowest level links every node. */
  lemma BottomLevel(spine: Spine, p: nat)
    requires 1 <= p <= |spine| && forall q | 0 <= q < |spine| :: spine[q].height >= 1
    ensures PrevIdx(spine, p, 0) == p - 1 && NextIdx(spine, p, 0) == p
  {
  }

  // ------------------------------------------------------ links while splicing

  /** The forward links when every level of `node` has been spliced in at `pos`
      of `rest`: the last node before `pos` on each of its levels sees it. */
  ghost predicate ForwardSpliced(rest: Spine, pos: nat, node: Node, upTo: nat)
    requires Sized(rest) && 1 <= pos <= |rest| && upTo <= |node.forward| && upTo <= rest[0].height
    reads rest, node
  {
    && (forall q, j {:trigger rest[q].forward[j]} :: 0 <= q < |rest| && 0 <= j < rest[q].height ==>
          rest[q].forward[j] == if j < upTo && q == Last(rest, pos, j) then node else Seen(rest, q + 1, j))
    && (forall j {:trigger node.forward[j]} :: 0 <= j < upTo ==> node.forward[j] == Seen(rest, pos, j))
  }

  /** Likewise the backward links. */
  ghost predicate BackwardSpliced(rest: Spine, pos: nat, node: Node, upTo: nat)
    requires Sized(rest) && 1 <= pos <= |rest| && upTo <= |node.backward| && upTo <= rest[0].height
    reads rest, node
  {
    && (forall q, j {:trigger rest[q].backward[j]} ::
          1 <= q < |rest| && 0 <= j < rest[q].height && rest[0].height > j ==>
          rest[q].backward[j] == if j < upTo && q == First(rest, pos, j) then node
                                 else Before(rest, q, j))
    && (forall j {:trigger node.backward[j]} :: 0 <= j < upTo ==> node.backward[j] == Before(rest, pos, j))
  }

  lemma SplicedIsForwardLinked(rest: Spine, spine: Spine, pos: nat)
    requires 1 <= pos < |spine| && IsWithout(rest, spine, pos)
    requires Sized(rest) && Sized(spine) && spine[pos].height <= rest[0].height
    requires forall q | 0 <= q < |rest| :: rest[q].height <= rest[0].height
    requires ForwardSpliced(rest, pos, spine[pos], spine[pos].height)
    ensures ForwardLinked(spine)
  {
    hide NextIdx, PrevIdx;
    forall p, i | 0 <= p < |spine| && 0 <= i < spine[p].height
      ensures spine[p].forward[i] == At(spine, NextIdx(spine, p + 1, i))
    {
      assert spine[0] == rest[0];
      if p == pos {
        NextSame(rest, spine, pos, i);
      } else {
        var q := Unshift(rest, spine, pos, p);
        NextWithout(rest, spine, pos, q, i);
        PrevSame(rest, spine, pos, i);
        NextSame(rest, spine, pos, i);
      }
    }
  }

  lemma SplicedIsBackwardLinked(rest: Spine, spine: Spine, pos: nat)
    requires 1 <= pos < |spine| && IsWithout(rest, spine, pos)
    requires Sized(rest) && Sized(spine) && spine[pos].height <= rest[0].height
    requires BackwardSpliced(rest, pos, spine[pos], spine[pos].height)
    ensures BackwardLinked(spine)
  {
    hide NextIdx, PrevIdx;
    forall p, i | 1 <= p < |spine| && 0 <= i < spine[p].height && spine[0].height > i
      ensures spine[p].backward[i] == spine[PrevIdx(spine, p, i)]
    {
      assert spine[0] == rest[0];
      PrevSame(rest, spine, pos, i);
      if p == pos {
      } else {
        var q := Unshift(rest, spine, pos, p);
        PrevWithout(rest, spine, pos, q, i);
        NextSame(rest, spine, pos, i);
      }
    }
  }

  lemma InsertKeepsTowers(rest: Spine, spine: Spine, pos: nat, maxLevel: nat, level: nat)
    requires 1 <= pos < |spine| && IsWithout(rest, spine, pos)
    requires Towers(rest, maxLevel, level) && Sized(rest)
    requires |spine[pos].forward| == |spine[pos].backward| == spine[pos].height && 1 <= spine[pos].height <= level
    ensures Towers(spine, maxLevel, level) && Sized(spine) && spine[0] == rest[0]
  {
    assert spine[0] == rest[0];
    forall p | 0 <= p < |spine| && p != pos
      ensures |spine[p].forward| == |spine[p].backward| == spine[p].height
      ensures p >= 1 ==> 1 <= spine[p].height <= level
    {
      var q := Unshift(rest, spine, pos, p);
    }
  }

  lemma InsertKeepsOrder(rest: Spine, spine: Spine, pos: nat)
    requires 1 <= pos < |spine| && IsWithout(rest, spine, pos)
    requires SpineSorted(rest) && Distinct(rest) && spine[pos] !in rest
    requires pos == LowerPos(rest, 1, spine[pos].key)
    requires pos < |rest| ==> rest[pos].key != spine[pos].key
    ensures SpineSorted(spine) && Distinct(spine)
  {
    var key := spine[pos].key;
    PastLowerPos(rest, key);
    forall p, q | 1 <= p < q < |spine|
      ensures Less(spine[p].key, spine[q].key)
    {
      if p == pos {
        assert spine[q] == rest[q - 1];
        LessTotal(key, rest[pos].key);
        if q - 1 > pos {
          LessTransitive(key, rest[pos].key, rest[q - 1].key);
        }
      } else if q == pos {
        assert spine[p] == rest[p];
      } else {
        assert spine[p] == rest[if p < pos then p else p - 1];
        assert spine[q] == rest[if q < pos then q else q - 1];
      }
    }
    forall p, q | 0 <= p < q < |spine|
      ensures spine[p] != spine[q]
    {
      assert p != pos ==> spine[p] == rest[if p < pos then p else p - 1];
      assert q != pos ==> spine[q] == rest[if q < pos then q else q - 1];
    }
  }

  /** A node spliced in where its key belongs leaves a well-linked list. */
  lemma SplicedIsWellLinked(rest: Spine, spine: Spine, pos: nat, maxLevel: nat, level: nat)
    requires 1 <= pos < |spine| && IsWithout(rest, spine, pos) && spine[pos] !in rest
    requires Towers(rest, maxLevel, level) && Sized(rest) && Distinct(rest) && SpineSorted(rest)
    requires |spine[pos].forward| == |spine[pos].backward| == spine[pos].height && 1 <= spine[pos].height <= level
    requires pos == LowerPos(rest, 1, spine[pos].key) && (pos < |rest| ==> rest[pos].key != spine[pos].key)
    requires ForwardSpliced(rest, pos, spine[pos], spine[pos].height)
    requires BackwardSpliced(rest, pos, spine[pos], spine[pos].height)
    ensures WellLinked(spine, maxLevel, level) && spine[0] == rest[0]
  {
    InsertKeepsTowers(rest, spine, pos, maxLevel, level);
    InsertKeepsOrder(rest, spine, pos);
    SplicedIsForwardLinked(rest, spine, pos);
    SplicedIsBackwardLinked(rest, spine, pos);
  }

  // ---------------------------------------------------- links while unlinking

  /** The forward links when the node at `pos` has been bypassed on every level
      below `upTo`. */
  ghost predicate ForwardBypassed(spine: Spine, pos: nat, upTo: nat)
    requires Sized(spine) && 1 <= pos < |spine| && upTo <= spine[0].height
    reads spine
  {
    forall q, j {:trigger spine[q].forward[j]} :: 0 <= q < |spine| && 0 <= j < spine[q].height ==>
      spine[q].forward[j] == if j < upTo && q == Last(spine, pos, j) then Seen(spine, pos + 1, j)
                             else Seen(spine, q + 1, j)
  }

  ghost predicate BackwardBypassed(spine: Spine, pos: nat, upTo: nat)
    requires Sized(spine) && 1 <= pos < |spine| && upTo <= spine[0].height
    reads spine
  {
    forall q, j {:trigger spine[q].backward[j]} ::
      1 <= q < |spine| && 0 <= j < spine[q].height && spine[0].height > j ==>
      spine[q].backward[j] == if j < upTo && q == First(spine, pos + 1, j) then Before(spine, pos, j)
                              else Before(spine, q, j)
  }

  lemma BypassedIsForwardLinked(rest: Spine, spine: Spine, pos: nat)
    requires 1 <= pos < |spine| && IsWithout(rest, spine, pos)
    requires Sized(rest) && Sized(spine)
    requires forall q | 0 <= q < |spine| :: spine[q].height <= spine[0].height
    requires ForwardBypassed(spine, pos, spine[pos].height)
    ensures ForwardLinked(rest)
  {
    hide NextIdx, PrevIdx;
    forall p, i | 0 <= p < |rest| && 0 <= i < rest[p].height
      ensures rest[p].forward[i] == At(rest, NextIdx(rest, p + 1, i))
    {
      NextWithout(rest, spine, pos, p, i);
      assert rest[p] == spine[Shift(p, pos)];
    }
  }

  lemma BypassedIsBackwardLinked(rest: Spine, spine: Spine, pos: nat)
    requires 1 <= pos < |spine| && IsWithout(rest, spine, pos)
    requires Sized(rest) && Sized(spine) && spine[pos].height <= spine[0].height
    requires BackwardBypassed(spine, pos, spine[pos].height)
    ensures BackwardLinked(rest)
  {
    hide NextIdx, PrevIdx;
    forall p, i | 1 <= p < |rest| && 0 <= i < rest[p].height && rest[0].height > i
      ensures rest[p].backward[i] == rest[PrevIdx(rest, p, i)]
    {
      PrevWithout(rest, spine, pos, p, i);
      assert rest[p] == spine[Shift(p, pos)];
    }
  }

  /** A node bypassed on all its levels leaves a well-linked list without it. */
  lemma BypassedIsWellLinked(rest: Spine, spine: Spine, pos: nat, maxLevel: nat, level: nat)
    requires 1 <= pos < |spine| && IsWithout(rest, spine, pos)
    requires Towers(spine, maxLevel, level) && Sized(spine) && Distinct(spine) && SpineSorted(spine)
    requires ForwardBypassed(spine, pos, spine[pos].height)
    requires BackwardBypassed(spine, pos, spine[pos].height)
    ensures WellLinked(rest, maxLevel, level) && rest[0] == spine[0]
  {
    hide NextIdx, PrevIdx, Less, ForwardLinked, BackwardLinked;
    assert rest[0] == spine[Shift(0, pos)];
    BypassedIsForwardLinked(rest, spine, pos);
    BypassedIsBackwardLinked(rest, spine, pos);
  }
}
