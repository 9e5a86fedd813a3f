/** Contiguous key ranges of a sorted table: by prefix and by a predicate that
    tells which way to go. */
module Ranges {
  import opened Keys
  import opened Tables

  /** The first position from `p` on whose key does not start with `prefix`. */
  function PrefixRunEnd(t: Table, p: nat, prefix: Bytes): (q: nat)
    requires p <= |t|
    ensures p <= q <= |t|
    ensures forall i | p <= i < q :: prefix <= t[i].key
    ensures q < |t| ==> !(prefix <= t[q].key)
    decreases |t| - p
  {
    if p < |t| && prefix <= t[p].key then PrefixRunEnd(t, p + 1, prefix) else p
  }

  lemma PrefixRunEndUnique(t: Table, p: nat, prefix: Bytes, q: nat)
    requires p <= q <= |t|
    requires forall i | p <= i < q :: prefix <= t[i].key
    requires q < |t| ==> !(prefix <= t[q].key)
    ensures PrefixRunEnd(t, p, prefix) == q
  {
  }

  /** The entries whose keys satisfy a condition, in order. */
  function Select(t: Table, f: Bytes -> bool): (r: Table)
    ensures forall e :: e in r <==> e in t && f(e.key)
  {
    if t == [] then []
    else if f(t[0].key) then [t[0]] + Select(t[1..], f)
    else Select(t[1..], f)
  }

  /** Along key order the predicate is first positive ("go right"), then zero
      ("in the range"), then negative ("go left"). */
  ghost predicate MonotoneOn(t: Table, f: Bytes -> int) {
    forall i, j {:trigger f(t[i].key), f(t[j].key)} :: 0 <= i < j < |t| ==>
      && (f(t[i].key) <= 0 ==> f(t[j].key) <= 0)
      && (f(t[i].key) < 0 ==> f(t[j].key) < 0)
  }

  /** Keys sharing a prefix are contiguous: they are exactly those from the
      prefix's lower bound up to the first later key without it. */
  lemma PrefixRangeExact(t: Table, prefix: Bytes)
    requires Sorted(t)
    ensures var b := LowerBound(t, prefix);
            var e := PrefixRunEnd(t, b, prefix);
            forall i | 0 <= i < |t| :: b <= i < e <==> prefix <= t[i].key
  {
    var b := LowerBound(t, prefix);
    var e := PrefixRunEnd(t, b, prefix);
    forall i | 0 <= i < b
      ensures !(prefix <= t[i].key)
    {
      if prefix <= t[i].key {
        PrefixNotBelow(t[i].key, prefix);
      }
    }
    forall i | e <= i < |t|
      ensures !(prefix <= t[i].key)
    {
      PastPrefixRun(t, prefix, e, i);
    }
  }

  lemma PastPrefixRun(t: Table, prefix: Bytes, e: nat, i: nat)
    requires Sorted(t) && LowerBound(t, prefix) <= e <= i < |t| && !(prefix <= t[e].key)
    ensures !(prefix <= t[i].key)
  {
    PastLowerBound(t, prefix);
    if t[e].key == prefix {
    } else {
      LessAsymmetric(prefix, t[e].key);
      AtOrPastPrefix(t[e].key, prefix);
      PrefixComparesEqual(t[e].key, prefix);
      if e < i {
        AbovePrefixStays(t[e].key, t[i].key, prefix);
        PrefixComparesEqual(t[i].key, prefix);
      }
    }
  }

  /** Comparing with a prefix is a legitimate range predicate on any table. */
  lemma PrefixPredicateMonotone(t: Table, prefix: Bytes)
    requires Sorted(t)
    ensures MonotoneOn(t, PrefixPredicate(prefix))
  {
    var f := PrefixPredicate(prefix);
    forall i, j | 0 <= i < j < |t|
      ensures f(t[i].key) <= 0 ==> f(t[j].key) <= 0
      ensures f(t[i].key) < 0 ==> f(t[j].key) < 0
    {
      if f(t[i].key) < 0 {
        AbovePrefixStays(t[i].key, t[j].key, prefix);
      } else if f(t[i].key) == 0 {
        if Less(t[i].key, prefix) {
          BelowPrefix(t[i].key, prefix);
        }
        if Less(t[j].key, prefix) {
          LessTransitive(t[i].key, t[j].key, prefix);
        }
        AtOrPastPrefix(t[j].key, prefix);
      }
    }
  }

  /** When some key has the prefix, the prefix search and the predicate search
      for comparing with that prefix return the same range. */
  lemma PrefixRangeIsPredicateRange(t: Table, prefix: Bytes, b: nat, e: nat)
    requires Sorted(t) && b < e <= |t|
    requires forall i | 0 <= i < |t| :: b <= i < e <==> PrefixPredicate(prefix)(t[i].key) == 0
    ensures b == LowerBound(t, prefix) && e == PrefixRunEnd(t, b, prefix)
  {
    hide Less, LowerBound, PrefixRunEnd, ComparePrefix;
    var b' := LowerBound(t, prefix);
    var e' := PrefixRunEnd(t, b', prefix);
    PrefixRangeExact(t, prefix);
    PrefixComparesEqual(t[b].key, prefix);
    PrefixComparesEqual(t[e - 1].key, prefix);
    assert b' <= b < e' && b' <= e - 1 < e';
    PrefixComparesEqual(t[b'].key, prefix);
    PrefixComparesEqual(t[e' - 1].key, prefix);
    assert b <= b' < e && b <= e' - 1 < e;
  }

  /** A position range that holds exactly the keys satisfying a condition is
      the selection of that condition. */
  lemma {:induction false} RangeIsSelection(t: Table, b: nat, e: nat, f: Bytes -> bool)
    requires b <= e <= |t|
    requires forall i | 0 <= i < |t| :: b <= i < e <==> f(t[i].key)
    ensures t[b..e] == Select(t, f)
  {
    if t == [] {
    } else {
      var rest := t[1..];
      var b', e' := if b == 0 then 0 else b - 1, if e == 0 then 0 else e - 1;
      assert forall i | 0 <= i < |rest| :: rest[i] == t[i + 1];
      RangeIsSelection(rest, b', e', f);
      CutHead(t, b, e);
    }
  }

  /** Cutting a range after taking the first element off. */
  lemma CutHead(t: Table, b: nat, e: nat)
    requires t != [] && b <= e <= |t|
    ensures var b', e' := if b == 0 then 0 else b - 1, if e == 0 then 0 else e - 1;
            t[b..e] == if b == 0 < e then [t[0]] + t[1..][b'..e'] else t[1..][b'..e']
  {
  }

  lemma SelectionSorted(t: Table, f: Bytes -> bool)
    requires Sorted(t)
    ensures Sorted(Select(t, f))
  {
    hide Less;
    if t != [] {
      SelectionSorted(t[1..], f);
      forall e | e in Select(t[1..], f)
        ensures Less(t[0].key, e.key)
      {
        var i :| 0 <= i < |t[1..]| && t[1..][i] == e;
        assert t[i + 1] == e;
      }
    }
  }
}
