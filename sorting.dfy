/** The orderings the pages sort by. `String.prototype.localeCompare` is
    modelled by an ordinal (code point by code point) comparison, and every
    comparator of the source is expressed as a sort key: a number compared
    first and a string compared when the numbers tie. */
module Sorting {

  /** The model of `a.localeCompare(b)`: negative, zero or positive as `a`
      sorts before, together with or after `b`. */
  function CompareStrings(a: string, b: string): (r: int)
    ensures -1 <= r <= 1
    ensures r == 0 <==> a == b
  {
    if a == [] && b == [] then 0
    else if a == [] then -1
    else if b == [] then 1
    else if a[0] < b[0] then -1
    else if a[0] > b[0] then 1
    else
      var r := CompareStrings(a[1..], b[1..]);
      assert r == 0 ==> a == [a[0]] + a[1..] == [b[0]] + b[1..] == b;
      r
  }

  lemma {:induction false} CompareStringsAntisymmetric(a: string, b: string)
    ensures CompareStrings(a, b) == -CompareStrings(b, a)
  {
    if a != [] && b != [] && a[0] == b[0] {
      CompareStringsAntisymmetric(a[1..], b[1..]);
    }
  }

  lemma {:induction false} CompareStringsTransitive(a: string, b: string, c: string)
    requires CompareStrings(a, b) <= 0 && CompareStrings(b, c) <= 0
    ensures CompareStrings(a, c) <= 0
  {
    if a != [] && b != [] && c != [] && a[0] == b[0] == c[0] {
      CompareStringsTransitive(a[1..], b[1..], c[1..]);
    }
  }

  /** A sort key: `primary` is compared by subtraction, `secondary` by
      `CompareStrings` when the primaries tie. */
  datatype Key = Key(primary: int, secondary: string)

  /** The comparator `a.primary - b.primary || a.secondary.localeCompare(b.secondary)`. */
  function CompareKeys(a: Key, b: Key): int
  {
    if a.primary != b.primary then a.primary - b.primary
    else CompareStrings(a.secondary, b.secondary)
  }

  predicate KeyLe(a: Key, b: Key) { CompareKeys(a, b) <= 0 }

  lemma KeyLeTotal(a: Key, b: Key)
    ensures KeyLe(a, b) || KeyLe(b, a)
  {
    CompareStringsAntisymmetric(a.secondary, b.secondary);
  }

  lemma KeyLeTransitive(a: Key, b: Key, c: Key)
    requires KeyLe(a, b) && KeyLe(b, c)
    ensures KeyLe(a, c)
  {
    if a.primary == b.primary == c.primary {
      CompareStringsTransitive(a.secondary, b.secondary, c.secondary);
    }
  }

  /** `s` is in ascending order of `key`. */
  ghost predicate SortedBy<T>(s: seq<T>, key: T -> Key) {
    forall i, j :: 0 <= i < j < |s| ==> KeyLe(key(s[i]), key(s[j]))
  }

  /** Inserts `x` before the first element it does not sort after. */
  function Insert<T>(x: T, s: seq<T>, key: T -> Key): (r: seq<T>)
    ensures multiset(r) == multiset(s) + multiset{x}
    ensures |r| == |s| + 1
  {
    if s == [] then [x]
    else if KeyLe(key(x), key(s[0])) then [x] + s
    else
      assert s == [s[0]] + s[1..];
      [s[0]] + Insert(x, s[1..], key)
  }

  lemma {:induction false} InsertSorted<T>(x: T, s: seq<T>, key: T -> Key)
    requires SortedBy(s, key)
    ensures SortedBy(Insert(x, s, key), key)
  {
    if s != [] {
      if KeyLe(key(x), key(s[0])) {
        var r := [x] + s;
        forall i, j | 0 <= i < j < |r| ensures KeyLe(key(r[i]), key(r[j])) {
          if i == 0 && j > 1 { KeyLeTransitive(key(x), key(s[0]), key(s[j - 1])); }
        }
      } else {
        KeyLeTotal(key(x), key(s[0]));
        var tail := Insert(x, s[1..], key);
        InsertSorted(x, s[1..], key);
        var r := [s[0]] + tail;
        forall i, j | 0 <= i < j < |r| ensures KeyLe(key(r[i]), key(r[j])) {
          if i == 0 {
            var y := r[j];
            assert y in multiset(tail);
            assert y in multiset(s[1..]) + multiset{x};
            if y != x {
              assert y in s[1..];
              var k :| 0 <= k < |s[1..]| && s[1..][k] == y;
              assert s[k + 1] == y;
            }
          }
        }
      }
    }
  }

  /** A stable insertion sort: the result is `s` rearranged into ascending
      order of `key`. It stands for `Array.prototype.sort` with the
      comparator that `key` expresses. */
  function SortBy<T>(s: seq<T>, key: T -> Key): (r: seq<T>)
    ensures multiset(r) == multiset(s)
    ensures |r| == |s|
  {
    if s == [] then []
    else
      assert s == [s[0]] + s[1..];
      Insert(s[0], SortBy(s[1..], key), key)
  }

  lemma {:induction false} SortBySorted<T>(s: seq<T>, key: T -> Key)
    ensures SortedBy(SortBy(s, key), key)
  {
    if s != [] {
      SortBySorted(s[1..], key);
      InsertSorted(s[0], SortBy(s[1..], key), key);
    }
  }
}
