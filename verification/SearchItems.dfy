/** The items a merge works on, and when the comparison the heap uses is an
    ordering at all. */
module SearchItems {
  import opened Keys

  /** One version of a key, tagged with its transaction id, the index of the
      table it comes from and a level. */
  datatype SearchItem = SearchItem(key: Bytes, value: Bytes, trancId: nat, idx: int, level: int)

  /** `operator>`: for equal keys each test that fails falls through to the
      next, even when its operands differ the other way. */
  predicate Greater(a: SearchItem, b: SearchItem) {
    if a.key != b.key then Less(b.key, a.key)
    else if a.trancId < b.trancId then true
    else if a.level > b.level then true
    else a.idx > b.idx
  }

  /** What `std::priority_queue` asks of its comparison on the items it holds
      (section 25.8 of ISO/IEC 14882:2020). */
  ghost predicate StrictWeakOrderOn(s: set<SearchItem>) {
    && (forall a | a in s :: !Greater(a, a))
    && (forall a, b, c | a in s && b in s && c in s && Greater(a, b) && Greater(b, c) :: Greater(a, c))
    && (forall a, b, c | a in s && b in s && c in s && Tied(a, b) && Tied(b, c) :: Tied(a, c))
  }

  ghost predicate OrderOn(s: seq<SearchItem>) {
    StrictWeakOrderOn(set x | x in s)
  }

  lemma OrderTransitive(s: seq<SearchItem>, a: SearchItem, b: SearchItem, c: SearchItem)
    requires OrderOn(s) && a in s && b in s && c in s && Greater(a, b) && Greater(b, c)
    ensures Greater(a, c) && a != c
  {
    hide Greater;
    var t := set x | x in s;
    assert a in t && b in t && c in t;
  }

  predicate Tied(a: SearchItem, b: SearchItem) {
    !Greater(a, b) && !Greater(b, a)
  }

  /** On versions of one key, the newer transaction id never comes with a larger
      table index or level, and levels never disagree with indices. */
  ghost predicate VersionsAgree(s: set<SearchItem>) {
    forall a, b | a in s && b in s && a.key == b.key ::
      && (a.trancId < b.trancId ==> a.level >= b.level && a.idx >= b.idx)
      && (a.level > b.level ==> a.idx >= b.idx)
  }

  /** The comparison is a strict weak ordering on a set of items exactly when
      the fields of versions of the same key do not contradict each other. */
  lemma OrderIffVersionsAgree(s: set<SearchItem>)
    ensures StrictWeakOrderOn(s) <==> VersionsAgree(s)
  {
    if VersionsAgree(s) {
      forall a | a in s
        ensures !Greater(a, a)
      {
      }
      forall a, b, c | a in s && b in s && c in s && Greater(a, b) && Greater(b, c)
        ensures Greater(a, c)
      {
        GreaterTransitive(a, b, c);
      }
      forall a, b, c | a in s && b in s && c in s && Tied(a, b) && Tied(b, c)
        ensures Tied(a, c)
      {
        TiedSameKey(a, b);
        TiedSameKey(b, c);
      }
    }
    if StrictWeakOrderOn(s) {
      forall a, b | a in s && b in s && a.key == b.key
        ensures a.trancId < b.trancId ==> a.level >= b.level && a.idx >= b.idx
        ensures a.level > b.level ==> a.idx >= b.idx
      {
        assert !(Greater(a, b) && Greater(b, a));
      }
    }
  }

  lemma TiedSameKey(a: SearchItem, b: SearchItem)
    requires Tied(a, b)
    ensures a.key == b.key && a.trancId == b.trancId && a.level == b.level && a.idx == b.idx
  {
    LessTotal(a.key, b.key);
  }

  lemma GreaterIrreflexive(a: SearchItem)
    ensures !Greater(a, a)
  {
  }

  /** Transitivity holds for any three items whose versions agree pairwise. */
  lemma GreaterTransitive(a: SearchItem, b: SearchItem, c: SearchItem)
    requires Greater(a, b) && Greater(b, c)
    requires a.key == b.key ==> !Greater(b, a)
    requires b.key == c.key ==> !Greater(c, b)
    ensures Greater(a, c)
  {
    hide Less;
    if a.key != b.key && b.key != c.key {
      LessTransitive(c.key, b.key, a.key);
      LessAsymmetric(c.key, a.key);
    }
  }

  /** Any two different items compare in exactly one direction. */
  ghost predicate LinearOn(s: seq<SearchItem>) {
    forall a, b | a in s && b in s && a != b :: Greater(a, b) <==> !Greater(b, a)
  }

  /** On linear items no two different items are tied and the order is strict
      weak, so a heap's pop order is determined. */
  lemma LinearIsOrder(s: seq<SearchItem>)
    requires LinearOn(s)
    ensures OrderOn(s)
  {
    OrderIffVersionsAgree(set x | x in s);
  }
}
