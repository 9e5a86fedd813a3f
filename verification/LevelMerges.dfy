/** The k-way merge of the levels as a function of what its sources still hold. */
module LevelMerges {
  import opened Keys
  import opened Tables
  import opened HeapIterators

  type Source = seq<KeyValue>

  predicate AllEnded(rests: seq<Source>) {
    forall i | 0 <= i < |rests| :: rests[i] == []
  }

  function TotalLength(rests: seq<Source>): nat {
    if rests == [] then 0 else |rests[0]| + TotalLength(rests[1..])
  }

  /** Source `i` comes before source `j` on equal keys: with a transaction the
      one reporting the larger id, otherwise and on equal ids the lower index. */
  predicate Preferred(i: nat, j: nat, ids: seq<nat>, maxTrancId: nat)
    requires i < |ids| && j < |ids|
  {
    if maxTrancId != 0 && ids[i] != ids[j] then ids[i] > ids[j] else i < j
  }

  /** One iteration of the search for the smallest key; the empty key means that
      none has been seen yet. */
  function MinStep(rests: seq<Source>, ids: seq<nat>, maxTrancId: nat, best: (nat, Bytes), i: nat): (r: (nat, Bytes))
    requires |ids| == |rests| && i < |rests| && best.0 < |rests|
    requires best.1 != [] ==> rests[best.0] != [] && rests[best.0][0].0 == best.1
    ensures r.0 < |rests|
    ensures r.1 != [] ==> rests[r.0] != [] && rests[r.0][0].0 == r.1
  {
    if rests[i] == [] then best
    else if best.1 == [] then (i, rests[i][0].0)
    else if Less(rests[i][0].0, rests[best.0][0].0) then (i, rests[i][0].0)
    else if rests[i][0].0 == best.1 && maxTrancId != 0 && ids[i] > ids[best.0] then (i, best.1)
    else best
  }

  /** `get_min_key_idx` over the first `n` sources. */
  function MinScan(rests: seq<Source>, ids: seq<nat>, maxTrancId: nat, n: nat): (r: (nat, Bytes))
    requires |ids| == |rests| && n <= |rests| && rests != []
    ensures r.0 < |rests|
    ensures r.1 != [] ==> rests[r.0] != [] && rests[r.0][0].0 == r.1
  {
    if n == 0 then (0, []) else MinStep(rests, ids, maxTrancId, MinScan(rests, ids, maxTrancId, n - 1), n - 1)
  }

  /** The source the search should choose: no source has a smaller key, and none
      with the same key is preferred. */
  predicate Chosen(rests: seq<Source>, ids: seq<nat>, maxTrancId: nat, n: nat, c: nat)
    requires |ids| == |rests| && n <= |rests|
  {
    && c < n && rests[c] != []
    && forall j | 0 <= j < n && rests[j] != [] && j != c ::
         Less(rests[c][0].0, rests[j][0].0) || (rests[c][0].0 == rests[j][0].0 && Preferred(c, j, ids, maxTrancId))
  }

  /** No source stands on the empty key unless no later source has anything. */
  predicate EmptyKeyLast(rests: seq<Source>, n: nat)
    requires n <= |rests|
  {
    forall i, j :: 0 <= i < j < n && rests[i] != [] && rests[j] != [] ==> rests[i][0].0 != []
  }

  lemma EmptyIsLeast(key: Bytes)
    ensures Less([], key) <==> key != []
    ensures !Less(key, [])
  {
  }

  /** The search is right whenever no empty key misleads it. */
  lemma {:induction false} MinScanChooses(rests: seq<Source>, ids: seq<nat>, maxTrancId: nat, n: nat)
    requires |ids| == |rests| && n <= |rests| && rests != []
    requires EmptyKeyLast(rests, n)
    ensures var (c, key) := MinScan(rests, ids, maxTrancId, n);
            if AllEnded(rests[..n]) then key == [] else Chosen(rests, ids, maxTrancId, n, c) && key == rests[c][0].0
  {
    hide Less;
    if n == 0 {
    } else {
      MinScanChooses(rests, ids, maxTrancId, n - 1);
      var best := MinScan(rests, ids, maxTrancId, n - 1);
      var i := n - 1;
      assert rests[..n] == rests[..i] + [rests[i]];
      assert rests[..i] == rests[..n][..i];
      if rests[i] != [] && !AllEnded(rests[..i]) {
        ChosenStep(rests, ids, maxTrancId, i, best.0);
      } else if rests[i] != [] {
        assert forall j | 0 <= j < i :: rests[j] == rests[..i][j];
      }
    }
  }

  /** Comparing one more source with the choice so far. */
  lemma ChosenStep(rests: seq<Source>, ids: seq<nat>, maxTrancId: nat, i: nat, c: nat)
    requires |ids| == |rests| && i < |rests| && rests[i] != []
    requires Chosen(rests, ids, maxTrancId, i, c)
    ensures var (key, other) := (rests[c][0].0, rests[i][0].0);
            if Less(other, key) || (other == key && maxTrancId != 0 && ids[i] > ids[c])
            then Chosen(rests, ids, maxTrancId, i + 1, i)
            else Chosen(rests, ids, maxTrancId, i + 1, c)
  {
    hide Less;
    var key, other := rests[c][0].0, rests[i][0].0;
    LessTotal(key, other);
    if Less(other, key) {
      forall j | 0 <= j < i && rests[j] != [] && j != c
        ensures Less(other, rests[j][0].0)
      {
        if key != rests[j][0].0 {
          LessTransitive(other, key, rests[j][0].0);
        }
      }
    }
  }

  /** With equal ids the search chooses right exactly when no source standing on
      the empty key is followed by another that has something. */
  lemma MinScanRightIff(rests: seq<Source>, ids: seq<nat>, maxTrancId: nat)
    requires |ids| == |rests| && !AllEnded(rests)
    requires maxTrancId == 0 || forall i, j | 0 <= i < |ids| && 0 <= j < |ids| :: ids[i] == ids[j]
    ensures Chosen(rests, ids, maxTrancId, |rests|, MinScan(rests, ids, maxTrancId, |rests|).0)
            <==> EmptyKeyLast(rests, |rests|)
  {
    var n := |rests|;
    assert rests[..n] == rests;
    if EmptyKeyLast(rests, n) {
      MinScanChooses(rests, ids, maxTrancId, n);
    } else {
      var i, j :| 0 <= i < j < n && rests[i] != [] && rests[j] != [] && rests[i][0].0 == [];
      PassesEmptyKey(rests, ids, maxTrancId, i, j, n);
      var c := MinScan(rests, ids, maxTrancId, n).0;
      if c < n && rests[c] != [] {
        EmptyIsLeast(rests[c][0].0);
        EmptyIsLeast(rests[i][0].0);
      }
    }
  }

  /** Once a source has an empty key, a later source takes its place for good. */
  lemma {:induction false} PassesEmptyKey(rests: seq<Source>, ids: seq<nat>, maxTrancId: nat, i: nat, j: nat, n: nat)
    requires |ids| == |rests| && i < j < n <= |rests|
    requires rests[i] != [] && rests[j] != [] && rests[i][0].0 == []
    ensures MinScan(rests, ids, maxTrancId, n).0 > i
  {
    if n - 1 > j {
      PassesEmptyKey(rests, ids, maxTrancId, i, j, n - 1);
    } else {
      AfterEmptyKey(rests, ids, maxTrancId, i, n - 1);
    }
  }

  lemma {:induction false} AfterEmptyKey(rests: seq<Source>, ids: seq<nat>, maxTrancId: nat, i: nat, n: nat)
    requires |ids| == |rests| && i < n <= |rests| && rests[i] != [] && rests[i][0].0 == []
    ensures MinScan(rests, ids, maxTrancId, n).0 > i || MinScan(rests, ids, maxTrancId, n) == (i, [])
  {
    var best := MinScan(rests, ids, maxTrancId, n - 1);
    if n - 1 > i {
      AfterEmptyKey(rests, ids, maxTrancId, i, n - 1);
    } else {
      EmptyIsLeast(best.1);
    }
  }

  // --------------------------------------------------------------- skipping

  function SkipRun(s: Source, key: Bytes): (r: Source)
    ensures |r| <= |s|
    ensures r != [] ==> r[0].0 != key
    ensures s != [] && s[0].0 == key ==> |r| < |s|
  {
    if s != [] && s[0].0 == key then SkipRun(s[1..], key) else s
  }

  /** `skip_key`: every source moves past a key it stands on. */
  function SkipKey(rests: seq<Source>, key: Bytes): (r: seq<Source>)
    ensures |r| == |rests|
    ensures forall i | 0 <= i < |r| :: r[i] == SkipRun(rests[i], key)
  {
    seq(|rests|, i requires 0 <= i < |rests| => SkipRun(rests[i], key))
  }

  /** Skipping a key some source stands on consumes at least one element. */
  lemma {:induction false} SkipConsumes(rests: seq<Source>, key: Bytes, c: nat)
    requires c < |rests| && rests[c] != [] && rests[c][0].0 == key
    ensures TotalLength(SkipKey(rests, key)) < TotalLength(rests)
  {
    assert SkipKey(rests, key)[1..] == SkipKey(rests[1..], key);
    if c > 0 {
      SkipConsumes(rests[1..], key, c - 1);
    } else {
      SkipNeverGrows(rests[1..], key);
    }
  }

  lemma {:induction false} SkipNeverGrows(rests: seq<Source>, key: Bytes)
    ensures TotalLength(SkipKey(rests, key)) <= TotalLength(rests)
  {
    if rests == [] {
    } else {
      assert SkipKey(rests, key)[1..] == SkipKey(rests[1..], key);
      SkipNeverGrows(rests[1..], key);
    }
  }

  /** When some source has an element, the search ends on such a source. */
  lemma {:induction false} MinScanFinds(rests: seq<Source>, ids: seq<nat>, maxTrancId: nat, n: nat)
    requires |ids| == |rests| && n <= |rests| && rests != []
    ensures AllEnded(rests[..n]) || rests[MinScan(rests, ids, maxTrancId, n).0] != []
  {
    if n == 0 {
    } else {
      MinScanFinds(rests, ids, maxTrancId, n - 1);
      assert rests[..n] == rests[..n - 1] + [rests[n - 1]];
      assert rests[..n - 1] == rests[..n][..n - 1];
    }
  }

  /** What the merge yields from given sources on. */
  function Merge(rests: seq<Source>, ids: seq<nat>, maxTrancId: nat): seq<KeyValue>
    requires |ids| == |rests|
    decreases TotalLength(rests)
  {
    if AllEnded(rests) then []
    else
      assert rests[..|rests|] == rests;
      MinScanFinds(rests, ids, maxTrancId, |rests|);
      var c := MinScan(rests, ids, maxTrancId, |rests|).0;
      var kv := rests[c][0];
      SkipConsumes(rests, kv.0, c);
      (if kv.1 == [] then [] else [kv]) + Merge(SkipKey(rests, kv.0), ids, maxTrancId)
  }

  /** One pass of the merge. */
  lemma MergeUnfolds(rests: seq<Source>, ids: seq<nat>, maxTrancId: nat)
    requires |ids| == |rests| && !AllEnded(rests)
    ensures var c := MinScan(rests, ids, maxTrancId, |rests|).0;
            && rests[c] != []
            && Merge(rests, ids, maxTrancId) ==
               (if rests[c][0].1 == [] then [] else [rests[c][0]]) +
               Merge(SkipKey(rests, rests[c][0].0), ids, maxTrancId)
            && TotalLength(SkipKey(rests, rests[c][0].0)) < TotalLength(rests)
  {
    assert rests[..|rests|] == rests;
    MinScanFinds(rests, ids, maxTrancId, |rests|);
    var c := MinScan(rests, ids, maxTrancId, |rests|).0;
    SkipConsumes(rests, rests[c][0].0, c);
  }

  /** Skipping the key of a live pair the merge stands on consumes that pair and
      nothing else; at the end nothing is left to skip. */
  lemma MergeAfterSkip(rests: seq<Source>, ids: seq<nat>, maxTrancId: nat, key: Bytes)
    requires |ids| == |rests|
    requires !AllEnded(rests) ==>
               var c := MinScan(rests, ids, maxTrancId, |rests|).0;
               rests[c] != [] && rests[c][0].0 == key && rests[c][0].1 != []
    ensures var (before, after) := (Merge(rests, ids, maxTrancId), Merge(SkipKey(rests, key), ids, maxTrancId));
            after == if before == [] then [] else before[1..]
    ensures !AllEnded(rests) ==> TotalLength(SkipKey(rests, key)) < TotalLength(rests)
  {
    if AllEnded(rests) {
      assert AllEnded(SkipKey(rests, key));
    } else {
      MergeUnfolds(rests, ids, maxTrancId);
    }
  }

  /** With an empty key in a source that is not the last, the merge goes wrong:
      the empty key comes out after a greater one. */
  lemma EmptyKeyMisleads()
    ensures var rests: seq<Source> := [[([], [7])], [([1], [8])]];
            && !EmptyKeyLast(rests, 2)
            && Merge(rests, [0, 0], 0) == [([1], [8]), ([], [7])]
            && !Increasing(Merge(rests, [0, 0], 0))
  {
    var rests: seq<Source> := [[([], [7])], [([1], [8])]];
    var then1: seq<Source> := [[([], [7])], []];
    var then2: seq<Source> := [[], []];
    assert rests[0][0].0 == [];
    assert MinScan(rests, [0, 0], 0, 1) == (0, []);
    assert MinScan(rests, [0, 0], 0, 2) == (1, [1]);
    assert SkipKey(rests, [1]) == then1;
    MergeUnfolds(rests, [0, 0], 0);
    assert MinScan(then1, [0, 0], 0, 1) == (0, []);
    assert MinScan(then1, [0, 0], 0, 2) == (0, []);
    assert SkipKey(then1, []) == then2;
    MergeUnfolds(then1, [0, 0], 0);
    assert Merge(then2, [0, 0], 0) == [];
    assert Merge(rests, [0, 0], 0)[0].0 == [1] && Merge(rests, [0, 0], 0)[1].0 == [];
  }

  // -------------------------------------------------------------- exactness

  ghost predicate SourceSorted(s: Source) {
    forall i, j :: 0 <= i < j < |s| ==> !Less(s[j].0, s[i].0)
  }

  ghost predicate AllSourcesSorted(rests: seq<Source>) {
    forall i | 0 <= i < |rests| :: SourceSorted(rests[i])
  }

  /** The first value a source has for a key. */
  function FirstValue(s: Source, key: Bytes): (r: Option<Bytes>)
    ensures r.Some? ==> (key, r.value) in s
    ensures r.None? ==> forall kv | kv in s :: kv.0 != key
  {
    if s == [] then None
    else if s[0].0 == key then Some(s[0].1)
    else FirstValue(s[1..], key)
  }

  /** It is the first one. */
  lemma {:induction false} FirstValueAt(s: Source, key: Bytes, i: nat)
    requires i < |s| && s[i].0 == key && forall j | 0 <= j < i :: s[j].0 != key
    ensures FirstValue(s, key) == Some(s[i].1)
  {
    if i == 0 {
    } else {
      FirstValueAt(s[1..], key, i - 1);
    }
  }

  /** The value from the lowest-numbered source that has the key. */
  function LevelLookup(rests: seq<Source>, key: Bytes): Option<Bytes> {
    if rests == [] then None
    else if FirstValue(rests[0], key).Some? then FirstValue(rests[0], key)
    else LevelLookup(rests[1..], key)
  }

  lemma {:induction false} SkipRunSorted(s: Source, key: Bytes)
    requires SourceSorted(s)
    ensures SourceSorted(SkipRun(s, key))
  {
    if s != [] && s[0].0 == key {
      SkipRunSorted(s[1..], key);
    }
  }

  /** In a sorted source no key past the first is below it. */
  lemma {:induction false} SkipRunLookup(s: Source, key: Bytes, k: Bytes)
    requires SourceSorted(s) && (s != [] ==> !Less(s[0].0, key))
    ensures k != key ==> FirstValue(SkipRun(s, key), k) == FirstValue(s, k)
    ensures FirstValue(SkipRun(s, key), key) == None
    ensures forall kv | kv in SkipRun(s, key) :: Less(key, kv.0)
  {
    if s != [] && s[0].0 == key {
      assert s[1..] != [] ==> !Less(s[1].0, s[0].0);
      SkipRunLookup(s[1..], key, k);
    } else if s != [] {
      forall kv | kv in s
        ensures Less(key, kv.0)
      {
        var i :| 0 <= i < |s| && s[i] == kv;
        LessTotal(key, s[0].0);
        LessTotal(s[0].0, s[i].0);
        if i > 0 && s[0].0 != s[i].0 {
          LessTransitive(key, s[0].0, s[i].0);
        }
      }
      if Less(key, key) {
        LessAsymmetric(key, key);
      }
    }
  }

  /** Each key's answer survives skipping another key. */
  lemma {:induction false} SkipKeyLookup(rests: seq<Source>, key: Bytes, k: Bytes)
    requires AllSourcesSorted(rests)
    requires forall i | 0 <= i < |rests| && rests[i] != [] :: !Less(rests[i][0].0, key)
    ensures LevelLookup(SkipKey(rests, key), k) == if k == key then None else LevelLookup(rests, k)
  {
    if rests == [] {
    } else {
      SkipRunLookup(rests[0], key, k);
      assert SkipKey(rests, key)[1..] == SkipKey(rests[1..], key);
      SkipKeyLookup(rests[1..], key, k);
    }
  }

  lemma {:induction false} LowestIndexDecides(rests: seq<Source>, key: Bytes, c: nat)
    requires c < |rests| && FirstValue(rests[c], key).Some?
    requires forall i | 0 <= i < c :: FirstValue(rests[i], key).None?
    ensures LevelLookup(rests, key) == FirstValue(rests[c], key)
  {
    if c == 0 {
    } else {
      LowestIndexDecides(rests[1..], key, c - 1);
    }
  }

  lemma {:induction false} NoSourceHas(rests: seq<Source>, key: Bytes)
    requires forall i, kv | 0 <= i < |rests| && kv in rests[i] :: kv.0 != key
    ensures LevelLookup(rests, key) == None
  {
    if rests == [] {
    } else {
      assert forall i, kv | 0 <= i < |rests[1..]| && kv in rests[1..][i] :: kv in rests[i + 1];
      NoSourceHas(rests[1..], key);
    }
  }

  /** The chosen source holds the smallest key of all and, being the lowest index
      standing on it, decides that key. */
  lemma ChosenDecides(rests: seq<Source>, ids: seq<nat>, maxTrancId: nat, c: nat)
    requires |ids| == |rests| && AllSourcesSorted(rests) && Chosen(rests, ids, maxTrancId, |rests|, c)
    requires maxTrancId == 0 || forall i, j | 0 <= i < |ids| && 0 <= j < |ids| :: ids[i] == ids[j]
    ensures LevelLookup(rests, rests[c][0].0) == Some(rests[c][0].1)
    ensures forall i | 0 <= i < |rests| && rests[i] != [] :: !Less(rests[i][0].0, rests[c][0].0)
  {
    var key := rests[c][0].0;
    forall i | 0 <= i < |rests| && rests[i] != []
      ensures !Less(rests[i][0].0, key)
    {
      NotBelow(key, rests[i][0].0);
    }
    forall i | 0 <= i < c
      ensures FirstValue(rests[i], key).None?
    {
      if rests[i] != [] {
        assert Less(key, rests[i][0].0);
        SkipRunLookup(rests[i], key, key);
        LessAsymmetric(key, rests[i][0].0);
      }
    }
    LowestIndexDecides(rests, key, c);
  }

  lemma NotBelow(a: Bytes, b: Bytes)
    requires Less(a, b) || a == b
    ensures !Less(b, a)
  {
    if Less(b, a) {
      LessAsymmetric(b, a);
    }
  }

  /** After skipping the smallest key no source stands on the empty key. */
  lemma SkipLeavesNonEmpty(rests: seq<Source>, key: Bytes)
    requires AllSourcesSorted(rests)
    requires forall i | 0 <= i < |rests| && rests[i] != [] :: !Less(rests[i][0].0, key)
    ensures AllSourcesSorted(SkipKey(rests, key))
    ensures EmptyKeyLast(SkipKey(rests, key), |rests|)
    ensures forall i, kv | 0 <= i < |rests| && kv in SkipKey(rests, key)[i] :: Less(key, kv.0)
  {
    forall i | 0 <= i < |rests|
      ensures SourceSorted(SkipKey(rests, key)[i])
      ensures forall kv | kv in SkipKey(rests, key)[i] :: Less(key, kv.0)
      ensures SkipKey(rests, key)[i] != [] ==> SkipKey(rests, key)[i][0].0 != []
    {
      SkipRunSorted(rests[i], key);
      SkipRunLookup(rests[i], key, key);
      if SkipKey(rests, key)[i] != [] {
        assert SkipKey(rests, key)[i][0] in SkipKey(rests, key)[i];
        EmptyIsLeast(key);
      }
    }
  }

  /** The level merge is exact: from sorted sources reporting equal ids, among
      which only the last non-empty one may stand on the empty key, it yields keys
      in strictly increasing order, and exactly those whose value in the
      lowest-numbered source that has them is not a tombstone. */
  lemma {:induction false} MergeExact(rests: seq<Source>, ids: seq<nat>, maxTrancId: nat)
    requires |ids| == |rests| && AllSourcesSorted(rests) && EmptyKeyLast(rests, |rests|)
    requires maxTrancId == 0 || forall i, j | 0 <= i < |ids| && 0 <= j < |ids| :: ids[i] == ids[j]
    ensures Increasing(Merge(rests, ids, maxTrancId))
    ensures forall kv :: kv in Merge(rests, ids, maxTrancId) <==>
              LevelLookup(rests, kv.0) == Some(kv.1) && kv.1 != []
    decreases TotalLength(rests)
  {
    hide Less, LevelLookup, MinScan;
    if AllEnded(rests) {
      forall k: Bytes
        ensures LevelLookup(rests, k) == None
      {
        NoSourceHas(rests, k);
      }
    } else {
      assert rests[..|rests|] == rests;
      MinScanChooses(rests, ids, maxTrancId, |rests|);
      var c := MinScan(rests, ids, maxTrancId, |rests|).0;
      var kv := rests[c][0];
      ChosenDecides(rests, ids, maxTrancId, c);
      SkipConsumes(rests, kv.0, c);
      SkipLeavesNonEmpty(rests, kv.0);
      var later := SkipKey(rests, kv.0);
      MergeExact(later, ids, maxTrancId);
      forall k: Bytes
        ensures LevelLookup(later, k) == if k == kv.0 then None else LevelLookup(rests, k)
      {
        SkipKeyLookup(rests, kv.0, k);
      }
      MergeStep(rests, later, kv, Merge(later, ids, maxTrancId));
    }
  }

  /** Putting the smallest key's pair, if live, before the rest of the merge. */
  lemma MergeStep(rests: seq<Source>, later: seq<Source>, kv: KeyValue, out: seq<KeyValue>)
    requires LevelLookup(rests, kv.0) == Some(kv.1)
    requires forall k :: LevelLookup(later, k) == if k == kv.0 then None else LevelLookup(rests, k)
    requires forall i, x | 0 <= i < |later| && x in later[i] :: Less(kv.0, x.0)
    requires Increasing(out)
    requires forall x :: x in out <==> LevelLookup(later, x.0) == Some(x.1) && x.1 != []
    ensures var out' := (if kv.1 == [] then [] else [kv]) + out;
            && Increasing(out')
            && forall x :: x in out' <==> LevelLookup(rests, x.0) == Some(x.1) && x.1 != []
  {
    hide Less, LevelLookup;
    forall x | x in out
      ensures Less(kv.0, x.0)
    {
      LookupIsMember(later, x.0);
    }
    forall x: KeyValue
      ensures LevelLookup(rests, x.0) == Some(x.1) && x.1 != [] <==> x in out || (x == kv && kv.1 != [])
    {
      assert LevelLookup(later, x.0) == if x.0 == kv.0 then None else LevelLookup(rests, x.0);
    }
  }

  lemma {:induction false} LookupIsMember(rests: seq<Source>, key: Bytes)
    requires LevelLookup(rests, key).Some?
    ensures exists i :: 0 <= i < |rests| && (key, LevelLookup(rests, key).value) in rests[i]
  {
    if FirstValue(rests[0], key).None? {
      LookupIsMember(rests[1..], key);
      var i :| 0 <= i < |rests[1..]| && (key, LevelLookup(rests, key).value) in rests[1..][i];
      assert (key, LevelLookup(rests, key).value) in rests[i + 1];
    }
  }

  // ------------------------------------------- exactly when the merge is exact

  /** The merge is right for these sources. */
  ghost predicate MergeRight(rests: seq<Source>, ids: seq<nat>, maxTrancId: nat)
    requires |ids| == |rests|
  {
    && Increasing(Merge(rests, ids, maxTrancId))
    && forall kv :: kv in Merge(rests, ids, maxTrancId) <==>
         LevelLookup(rests, kv.0) == Some(kv.1) && kv.1 != []
  }

  /** Sources that differ in nothing but values. */
  ghost predicate SameKeys(a: seq<Source>, b: seq<Source>) {
    && |a| == |b|
    && (forall s | 0 <= s < |a| :: |a[s]| == |b[s]|)
    && (forall s, i | 0 <= s < |a| && 0 <= i < |a[s]| :: a[s][i].0 == b[s][i].0)
  }

  /** The merge of sorted sources with equal ids is right for every choice of
      values on their keys if and only if no source standing on the empty key is
      followed by another that has something. */
  lemma MergeRightIff(rests: seq<Source>, ids: seq<nat>, maxTrancId: nat)
    requires |ids| == |rests| && AllSourcesSorted(rests)
    requires maxTrancId == 0 || forall i, j | 0 <= i < |ids| && 0 <= j < |ids| :: ids[i] == ids[j]
    ensures (forall others | SameKeys(rests, others) :: MergeRight(others, ids, maxTrancId))
            <==> EmptyKeyLast(rests, |rests|)
  {
    hide Merge, MergeRight, Less;
    if EmptyKeyLast(rests, |rests|) {
      forall others | SameKeys(rests, others)
        ensures MergeRight(others, ids, maxTrancId)
      {
        assert AllSourcesSorted(others) && EmptyKeyLast(others, |others|);
        MergeIsRight(others, ids, maxTrancId);
      }
    } else {
      var i: nat, j: nat :| i < j < |rests| && rests[i] != [] && rests[j] != [] && rests[i][0].0 == [];
      StampedIsWrong(rests, ids, maxTrancId, i, j);
      assert SameKeys(rests, Stamped(rests));
    }
  }

  lemma MergeIsRight(rests: seq<Source>, ids: seq<nat>, maxTrancId: nat)
    requires |ids| == |rests| && AllSourcesSorted(rests) && EmptyKeyLast(rests, |rests|)
    requires maxTrancId == 0 || forall i, j | 0 <= i < |ids| && 0 <= j < |ids| :: ids[i] == ids[j]
    ensures MergeRight(rests, ids, maxTrancId)
  {
    hide Merge, Less, Increasing;
    MergeExact(rests, ids, maxTrancId);
  }

  /** Values that tell where they come from: source `s` has `s + 1` zeros. */
  function Stamp(s: nat): (v: Bytes)
    ensures |v| == s + 1
  {
    seq(s + 1, _ => 0)
  }

  function StampedSource(source: Source, s: nat): (r: Source)
    ensures |r| == |source|
    ensures forall i | 0 <= i < |r| :: r[i] == (source[i].0, Stamp(s))
  {
    seq(|source|, i requires 0 <= i < |source| => (source[i].0, Stamp(s)))
  }

  function Stamped(rests: seq<Source>): (r: seq<Source>)
    ensures |r| == |rests|
    ensures forall s | 0 <= s < |r| :: r[s] == StampedSource(rests[s], s)
  {
    seq(|rests|, s requires 0 <= s < |rests| => StampedSource(rests[s], s))
  }

  /** With all values live and different from source to source, a first pair that
      comes from a source behind the empty key is wrong. */
  lemma StampedIsWrong(rests: seq<Source>, ids: seq<nat>, maxTrancId: nat, i: nat, j: nat)
    requires |ids| == |rests| && i < j < |rests| && rests[i] != [] && rests[j] != [] && rests[i][0].0 == []
    ensures !MergeRight(Stamped(rests), ids, maxTrancId)
  {
    hide Merge, MinScan, Less, LevelLookup, FirstValue, Increasing;
    var others := Stamped(rests);
    var n := |others|;
    PassesEmptyKey(others, ids, maxTrancId, i, j, n);
    MergeUnfolds(others, ids, maxTrancId);
    var c := MinScan(others, ids, maxTrancId, n).0;
    var out, first := Merge(others, ids, maxTrancId), others[c][0];
    assert out[0] == first && first.1 == Stamp(c);
    var s := EmptyKeyHolder(others, i);
    assert Stamp(s) != Stamp(c) by {
      assert |Stamp(s)| != |Stamp(c)|;
    }
    if MergeRight(others, ids, maxTrancId) {
      assert ([], Stamp(s)) in out;
      assert first in out;
      FirstIsLeast(out, ([], Stamp(s)));
    }
  }

  /** The empty key's value comes from source `i` or an earlier one. */
  lemma EmptyKeyHolder(others: seq<Source>, i: nat) returns (s: nat)
    requires i < |others| && others[i] != [] && others[i][0].0 == []
    requires forall s, x | 0 <= s < |others| && x in others[s] :: x.1 == Stamp(s)
    ensures s <= i && LevelLookup(others, []) == Some(Stamp(s))
  {
    s := 0;
    while FirstValue(others[s], []).None?
      invariant s <= i && forall r | 0 <= r < s :: FirstValue(others[r], []).None?
      decreases i - s
    {
      assert s < i by {
        assert others[i][0] in others[i];
      }
      s := s + 1;
    }
    LowestIndexDecides(others, [], s);
    var v := FirstValue(others[s], []).value;
    assert ([], v) in others[s];
  }

  /** In increasing order the empty key can only come first. */
  lemma FirstIsLeast(out: seq<KeyValue>, kv: KeyValue)
    requires Increasing(out) && kv in out && kv.0 == []
    ensures out[0] == kv
  {
    var i :| 0 <= i < |out| && out[i] == kv;
    if i > 0 {
      EmptyIsLeast(out[0].0);
    }
  }
}
