/** Byte strings as the store compares them: `std::string` order is the
    lexicographic order of unsigned bytes, a proper prefix coming first. */
module Keys {

  type Byte = x: int | 0 <= x < 256

  type Bytes = seq<Byte>

  /** `a < b` on byte strings. */
  predicate Less(a: Bytes, b: Bytes) {
    if b == [] then false
    else if a == [] then true
    else if a[0] != b[0] then a[0] < b[0]
    else Less(a[1..], b[1..])
  }

  /** At most one of `a < b`, `a == b`, `b < a` holds. */
  lemma {:induction false} LessAsymmetric(a: Bytes, b: Bytes)
    requires Less(a, b)
    ensures a != b && !Less(b, a)
  {
    if a != [] && a[0] == b[0] {
      LessAsymmetric(a[1..], b[1..]);
    }
  }

  /** At least one of `a < b`, `a == b`, `b < a` holds. */
  lemma {:induction false} LessTotal(a: Bytes, b: Bytes)
    ensures Less(a, b) || a == b || Less(b, a)
  {
    if a != [] && b != [] && a[0] == b[0] {
      LessTotal(a[1..], b[1..]);
      assert a == [a[0]] + a[1..] && b == [b[0]] + b[1..];
    }
  }

  lemma {:induction false} LessTransitive(a: Bytes, b: Bytes, c: Bytes)
    requires Less(a, b) && Less(b, c)
    ensures Less(a, c)
  {
    if a != [] && a[0] == b[0] == c[0] {
      LessTransitive(a[1..], b[1..], c[1..]);
    }
  }

  /** `a <= b` follows `<`: from `!(b < a)` and `b < c` conclude `a < c`. */
  lemma NotLessThenLess(a: Bytes, b: Bytes, c: Bytes)
    requires !Less(b, a) && Less(b, c)
    ensures Less(a, c)
  {
    LessTotal(a, b);
    if a != b {
      LessTransitive(a, b, c);
    }
  }

  /** What the order is: `a < b` if `a` is a proper prefix of `b`, or has the
      smaller unsigned byte at the first position where they differ. */
  lemma {:induction false} LessIsLexicographic(a: Bytes, b: Bytes)
    ensures Less(a, b) <==>
            || (a <= b && a != b)
            || exists i :: 0 <= i < |a| && i < |b| && a[..i] == b[..i] && a[i] < b[i]
  {
    if a == [] || b == [] {
    } else if a[0] != b[0] {
      assert a[..0] == b[..0];
      assert forall i | 0 < i < |a| && i < |b| :: a[..i][0] == a[0] && b[..i][0] == b[0];
    } else {
      var x, y := a[1..], b[1..];
      LessIsLexicographic(x, y);
      assert a == [a[0]] + x && b == [b[0]] + y;
      if i :| 0 <= i < |x| && i < |y| && x[..i] == y[..i] && x[i] < y[i] {
        assert a[..i + 1] == [a[0]] + x[..i] && b[..i + 1] == [b[0]] + y[..i];
      }
      if i :| 0 <= i < |a| && i < |b| && a[..i] == b[..i] && a[i] < b[i] {
        assert x[..i - 1] == a[..i][1..] && y[..i - 1] == b[..i][1..];
      }
    }
  }

  // ---------------------------------------------------------------- prefixes

  /** `key.compare(0, prefix.size(), prefix)`: the sign of comparing the first
      |prefix| bytes of the key (fewer when it is shorter) with the prefix. */
  function ComparePrefix(key: Bytes, prefix: Bytes): (sign: int) {
    var front := if |prefix| <= |key| then key[..|prefix|] else key;
    if Less(front, prefix) then -1 else if Less(prefix, front) then 1 else 0
  }

  /** Comparing equal on the first |prefix| bytes is starting with the prefix. */
  lemma PrefixComparesEqual(key: Bytes, prefix: Bytes)
    ensures ComparePrefix(key, prefix) == 0 <==> prefix <= key
  {
    var front := if |prefix| <= |key| then key[..|prefix|] else key;
    LessTotal(front, prefix);
    if front == prefix && Less(front, prefix) {
      LessAsymmetric(front, prefix);
    }
  }

  lemma {:induction false} PrefixNotBelow(key: Bytes, prefix: Bytes)
    requires prefix <= key
    ensures !Less(key, prefix)
  {
    if prefix == [] {
    } else {
      PrefixNotBelow(key[1..], prefix[1..]);
    }
  }

  /** A key at or past the prefix in key order compares equal or above on its
      first bytes. */
  lemma {:induction false} AtOrPastPrefix(key: Bytes, prefix: Bytes)
    requires !Less(key, prefix)
    ensures ComparePrefix(key, prefix) >= 0
  {
    if prefix != [] && key != [] && key[0] == prefix[0] {
      AtOrPastPrefix(key[1..], prefix[1..]);
      if |prefix| <= |key| {
        assert key[..|prefix|][1..] == key[1..][..|prefix| - 1];
      }
    }
  }

  /** A key below the prefix in key order compares below on its first bytes. */
  lemma {:induction false} BelowPrefix(key: Bytes, prefix: Bytes)
    requires Less(key, prefix)
    ensures ComparePrefix(key, prefix) < 0
  {
    if key != [] && key[0] == prefix[0] {
      BelowPrefix(key[1..], prefix[1..]);
      if |prefix| <= |key| {
        assert key[..|prefix|][1..] == key[1..][..|prefix| - 1];
      }
    }
  }

  /** Once a key compares above the prefix, so does every greater key. */
  lemma {:induction false} AbovePrefixStays(key: Bytes, later: Bytes, prefix: Bytes)
    requires Less(key, later) && ComparePrefix(key, prefix) > 0
    ensures ComparePrefix(later, prefix) > 0
  {
    if key[0] == prefix[0] {
      if |prefix| <= |key| {
        assert key[..|prefix|][1..] == key[1..][..|prefix| - 1];
      }
      if later != [] && later[0] == key[0] {
        AbovePrefixStays(key[1..], later[1..], prefix[1..]);
        if |prefix| <= |later| {
          assert later[..|prefix|][1..] == later[1..][..|prefix| - 1];
        }
      }
    }
  }

  /** The three-way comparison with a prefix, as a range predicate: positive
      means "go right", negative "go left", zero "in the range". */
  function PrefixPredicate(prefix: Bytes): Bytes -> int {
    key => -ComparePrefix(key, prefix)
  }
}
