/** The `ORDER BY` of the modelled queries: a sort by a two-column key
    (major column first, minor column to break ties). A descending column
    is given as its negation. SQL promises nothing about the order of rows
    with equal keys, so the contract is only "sorted and a permutation". */
module Sorting {

  datatype Key = Key(major: int, minor: int)

  /** Lexicographic order on keys: a total preorder. */
  predicate KeyLe(a: Key, b: Key) {
    a.major < b.major || (a.major == b.major && a.minor <= b.minor)
  }

  predicate SortedBy<T>(s: seq<T>, key: T -> Key) {
    forall i, j :: 0 <= i < j < |s| ==> KeyLe(key(s[i]), key(s[j]))
  }

  /** Every row of `s` has a key at least `lo`. */
  predicate AllAtLeast<T>(lo: Key, s: seq<T>, key: T -> Key) {
    forall k :: 0 <= k < |s| ==> KeyLe(lo, key(s[k]))
  }

  /** A row whose key is at most the first key of a sorted sequence can be
      put in front of it. */
  lemma ConsSorted<T>(y: T, s: seq<T>, key: T -> Key)
    requires SortedBy(s, key) && AllAtLeast(key(y), s, key)
    ensures SortedBy([y] + s, key)
  {
    var r := [y] + s;
    forall i, j | 0 <= i < j < |r| ensures KeyLe(key(r[i]), key(r[j])) {
      if i > 0 {
        assert r[i] == s[i - 1] && r[j] == s[j - 1];
      } else {
        assert r[j] == s[j - 1];
      }
    }
  }

  /** A lower bound of every row of `s` and of `x` bounds every row of a
      sequence holding the rows of `s` and `x`. */
  lemma BoundKept<T>(lo: Key, x: T, s: seq<T>, t: seq<T>, key: T -> Key)
    requires AllAtLeast(lo, s, key) && KeyLe(lo, key(x))
    requires multiset(t) == multiset(s) + multiset{x}
    ensures AllAtLeast(lo, t, key)
  {
    forall k | 0 <= k < |t| ensures KeyLe(lo, key(t[k])) {
      assert t[k] in multiset(t);
      if t[k] != x {
        assert t[k] in multiset(s);
        var m :| 0 <= m < |s| && s[m] == t[k];
      }
    }
  }

  /** Inserts `x` before the first row whose key is not below it. */
  function Insert<T>(x: T, s: seq<T>, key: T -> Key): (r: seq<T>)
    requires SortedBy(s, key)
    ensures SortedBy(r, key)
    ensures multiset(r) == multiset(s) + multiset{x}
  {
    if s == [] then [x]
    else if KeyLe(key(x), key(s[0])) then
      assert AllAtLeast(key(x), s, key);
      ConsSorted(x, s, key);
      [x] + s
    else
      var tail := Insert(x, s[1..], key);
      assert AllAtLeast(key(s[0]), s[1..], key);
      BoundKept(key(s[0]), x, s[1..], tail, key);
      ConsSorted(s[0], tail, key);
      assert s == [s[0]] + s[1..];
      [s[0]] + tail
  }

  /** Rows ordered by `key` ascending, holding exactly the rows of `s`. */
  function SortBy<T>(s: seq<T>, key: T -> Key): (r: seq<T>)
    ensures SortedBy(r, key)
    ensures multiset(r) == multiset(s)
  {
    if s == [] then []
    else
      assert s == [s[0]] + s[1..];
      Insert(s[0], SortBy(s[1..], key), key)
  }
}
