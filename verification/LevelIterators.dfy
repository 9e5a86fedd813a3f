/** The iterator over all levels. Its sources are cursors over sorted sequences
    of pairs; the lowest-numbered source wins and tombstones suppress a key. */
module LevelIterators {
  import opened Keys
  import opened Tables
  import opened HeapIterators
  import opened LevelMerges

  /** A source: what it still has to yield, and the id it reports. */
  class Cursor {
    var rest: Source
    const trancId: nat

    constructor (rest: Source, trancId: nat)
      ensures this.rest == rest && this.trancId == trancId
    {
      this.rest, this.trancId := rest, trancId;
    }

    predicate IsValid()
      reads this
    {
      rest != []
    }

    function Deref(): KeyValue
      requires IsValid()
      reads this
    {
      rest[0]
    }

    method Next()
      requires IsValid()
      modifies this
      ensures rest == old(rest)[1..]
    {
      rest := rest[1..];
    }
  }

  ghost function RestsOf(cursors: seq<Cursor>): (r: seq<Source>)
    reads cursors
    ensures |r| == |cursors|
    ensures forall i | 0 <= i < |r| :: r[i] == cursors[i].rest
  {
    seq(|cursors|, i requires 0 <= i < |cursors| reads cursors => cursors[i].rest)
  }

  ghost function IdsOf(cursors: seq<Cursor>): (r: seq<nat>)
    ensures |r| == |cursors|
    ensures forall i | 0 <= i < |r| :: r[i] == cursors[i].trancId
  {
    seq(|cursors|, i requires 0 <= i < |cursors| => cursors[i].trancId)
  }

  class LevelIterator {
    const iterVec: seq<Cursor>
    const maxTrancId: nat
    var curIdx: nat
    var cachedValue: Option<KeyValue>

    /** Standing on a live pair: the one the search would choose. */
    ghost predicate Valid()
      reads this, iterVec
    {
      && (forall i, j | 0 <= i < j < |iterVec| :: iterVec[i] != iterVec[j])
      && (!AllEnded(RestsOf(iterVec)) ==>
            && curIdx < |iterVec| && iterVec[curIdx].rest != []
            && cachedValue == Some(iterVec[curIdx].rest[0])
            && cachedValue.value.1 != []
            && curIdx == MinScan(RestsOf(iterVec), IdsOf(iterVec), maxTrancId, |iterVec|).0)
    }

    /** What dereferencing and advancing to the end will still yield. */
    ghost function Remaining(): seq<KeyValue>
      reads this, iterVec
    {
      Merge(RestsOf(iterVec), IdsOf(iterVec), maxTrancId)
    }

    constructor (sources: seq<Cursor>, maxTrancId: nat)
      requires forall i, j | 0 <= i < j < |sources| :: sources[i] != sources[j]
      modifies sources
      ensures Valid() && iterVec == sources && this.maxTrancId == maxTrancId
      ensures Remaining() == old(Merge(RestsOf(sources), IdsOf(sources), maxTrancId))
    {
      hide Merge, MinScan, AllEnded, RestsOf, IdsOf;
      iterVec, this.maxTrancId := sources, maxTrancId;
      curIdx, cachedValue := 0, None;
      new;
      FindLive();
    }

    /** The index and key of the smallest current key. */
    method GetMinKeyIdx() returns (minIdx: nat, minKey: Bytes)
      requires iterVec != []
      ensures (minIdx, minKey) == MinScan(RestsOf(iterVec), IdsOf(iterVec), maxTrancId, |iterVec|)
    {
      hide Less;
      minIdx, minKey := 0, [];
      ghost var (rests, ids) := (RestsOf(iterVec), IdsOf(iterVec));
      for i := 0 to |iterVec|
        invariant (minIdx, minKey) == MinScan(rests, ids, maxTrancId, i)
        invariant minIdx < |iterVec|
      {
        if !iterVec[i].IsValid() {
        } else if minKey == [] {
          minKey := iterVec[i].Deref().0;
          minIdx := i;
        } else if Less(iterVec[i].Deref().0, iterVec[minIdx].Deref().0) {
          minKey := iterVec[i].Deref().0;
          minIdx := i;
        } else if iterVec[i].Deref().0 == minKey {
          if maxTrancId != 0 && iterVec[i].trancId > iterVec[minIdx].trancId {
            minIdx := i;
          }
        }
      }
    }

    /** Moves every source past a key it stands on. */
    method SkipKeyInAll(key: Bytes)
      requires forall i, j | 0 <= i < j < |iterVec| :: iterVec[i] != iterVec[j]
      modifies iterVec
      ensures RestsOf(iterVec) == old(SkipKey(RestsOf(iterVec), key))
    {
      for i := 0 to |iterVec|
        invariant forall j | 0 <= j < i :: iterVec[j].rest == old(SkipRun(iterVec[j].rest, key))
        invariant forall j | i <= j < |iterVec| :: iterVec[j].rest == old(iterVec[j].rest)
      {
        SkipOne(iterVec[i], key);
      }
    }

    method SkipOne(cursor: Cursor, key: Bytes)
      modifies cursor
      ensures cursor.rest == old(SkipRun(cursor.rest, key))
    {
      while cursor.IsValid() && cursor.Deref().0 == key
        invariant SkipRun(cursor.rest, key) == old(SkipRun(cursor.rest, key))
        decreases |cursor.rest|
      {
        cursor.Next();
      }
    }

    /** Makes the source with the smallest key the current one. */
    method Choose()
      requires !IsEnd()
      modifies this`curIdx, this`cachedValue
      ensures curIdx == MinScan(RestsOf(iterVec), IdsOf(iterVec), maxTrancId, |iterVec|).0
      ensures curIdx < |iterVec| && iterVec[curIdx].rest != [] && cachedValue == Some(iterVec[curIdx].rest[0])
    {
      hide MinScan, Merge;
      MergeUnfolds(RestsOf(iterVec), IdsOf(iterVec), maxTrancId);
      var minIdx, _ := GetMinKeyIdx();
      curIdx := minIdx;
      UpdateCurrent();
    }

    /** One pass of the loop of the constructor and of `operator++`: choose, and
        skip the key if the chosen value is a tombstone, which consumes an element
        and nothing the merge yields. */
    method Pass() returns (live: bool)
      requires (forall i, j | 0 <= i < j < |iterVec| :: iterVec[i] != iterVec[j]) && !IsEnd()
      modifies this`curIdx, this`cachedValue, iterVec
      ensures Remaining() == old(Remaining()) && cachedValue.Some?
      ensures if live then Valid() && RestsOf(iterVec) == old(RestsOf(iterVec))
              else TotalLength(RestsOf(iterVec)) < old(TotalLength(RestsOf(iterVec)))
    {
      hide MinScan, Merge, SkipKey, TotalLength, RestsOf;
      MergeUnfolds(RestsOf(iterVec), IdsOf(iterVec), maxTrancId);
      Choose();
      live := cachedValue.value.1 != [];
      if !live {
        SkipKeyInAll(cachedValue.value.0);
      }
    }

    /** The loop: it stops on a live pair or at the end. */
    method FindLive()
      requires forall i, j | 0 <= i < j < |iterVec| :: iterVec[i] != iterVec[j]
      modifies this`curIdx, this`cachedValue, iterVec
      ensures Valid() && (old(cachedValue).Some? ==> cachedValue.Some?)
      ensures Remaining() == old(Remaining())
      ensures TotalLength(RestsOf(iterVec)) <= old(TotalLength(RestsOf(iterVec)))
    {
      hide MinScan, Remaining, SkipKey, TotalLength, RestsOf;
      while !IsEnd()
        invariant Remaining() == old(Remaining())
        invariant TotalLength(RestsOf(iterVec)) <= old(TotalLength(RestsOf(iterVec)))
        invariant old(cachedValue).Some? ==> cachedValue.Some?
        decreases TotalLength(RestsOf(iterVec))
      {
        var live := Pass();
        if live {
          return;
        }
      }
    }

    /** `operator++`: exactly the current pair of the merge is consumed, and the
        sources together hold strictly fewer elements; at the end nothing
        happens. */
    method Next()
      requires Valid() && cachedValue.Some?
      modifies this`curIdx, this`cachedValue, iterVec
      ensures Valid() && cachedValue.Some?
      ensures Remaining() == if old(Remaining()) == [] then [] else old(Remaining())[1..]
      ensures !old(IsEnd()) ==> TotalLength(RestsOf(iterVec)) < old(TotalLength(RestsOf(iterVec)))
    {
      hide MinScan, Merge, TotalLength, SkipKey;
      MergeAfterSkip(RestsOf(iterVec), IdsOf(iterVec), maxTrancId, cachedValue.value.0);
      SkipKeyInAll(cachedValue.value.0);
      FindLive();
    }

    method UpdateCurrent()
      requires curIdx < |iterVec| && iterVec[curIdx].IsValid()
      modifies this`cachedValue
      ensures cachedValue == Some(iterVec[curIdx].rest[0])
    {
      cachedValue := Some(iterVec[curIdx].Deref());
    }

    /** The current pair; nothing, as an exception, if there never was one. */
    method Deref() returns (r: Option<KeyValue>)
      requires Valid()
      ensures !IsEnd() ==> Remaining() != [] && r == Some(Remaining()[0])
      ensures r == cachedValue
    {
      if !IsEnd() {
        MergeUnfolds(RestsOf(iterVec), IdsOf(iterVec), maxTrancId);
      }
      r := cachedValue;
    }

    /** Standing at the end is having yielded everything. */
    lemma EndIffNothingRemains()
      requires Valid()
      ensures IsEnd() <==> Remaining() == []
    {
      if !IsEnd() {
        MergeUnfolds(RestsOf(iterVec), IdsOf(iterVec), maxTrancId);
      }
    }

    predicate IsEnd()
      reads this, iterVec
      ensures IsEnd() <==> AllEnded(RestsOf(iterVec))
    {
      forall i | 0 <= i < |iterVec| :: !iterVec[i].IsValid()
    }
  }
}
