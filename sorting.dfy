// Stable sorting by an integer-pair key in row-major (lexicographic) order.
// The solvers sort with their language's library sort (a stable merge sort in
// Rust, JavaScript and Swift, an introsort in C#); this module gives the
// sorted-permutation contract those calls rely on, realised as an insertion
// sort so that the contract is proved rather than assumed.
module Sorting {

  /** Row-major order on pairs: first by the first component, then by the second. */
  predicate LexLe(a: (int, int), b: (int, int)) {
    a.0 < b.0 || (a.0 == b.0 && a.1 <= b.1)
  }

  predicate SortedBy<T>(s: seq<T>, key: T -> (int, int)) {
    forall i, j :: 0 <= i < j < |s| ==> LexLe(key(s[i]), key(s[j]))
  }

  /** Inserts x before the first element whose key is not smaller than x's. */
  function Insert<T>(x: T, s: seq<T>, key: T -> (int, int)): (r: seq<T>)
    requires SortedBy(s, key)
    ensures |r| == |s| + 1
    ensures multiset(r) == multiset(s) + multiset{x}
    ensures forall k :: 0 <= k < |r| ==> r[k] in s || r[k] == x
    ensures SortedBy(r, key)
  {
    if s == [] || LexLe(key(x), key(s[0])) then
      [x] + s
    else
      var t := Insert(x, s[1..], key);
      assert s == [s[0]] + s[1..];
      assert forall k :: 0 <= k < |t| ==> LexLe(key(s[0]), key(t[k]));
      [s[0]] + t
  }

  /** Insertion sort; stable, since each element goes in front of its equals. */
  function SortBy<T>(s: seq<T>, key: T -> (int, int)): (r: seq<T>)
    ensures |r| == |s|
    ensures multiset(r) == multiset(s)
    ensures SortedBy(r, key)
  {
    if s == [] then []
    else
      assert s == [s[0]] + s[1..];
      Insert(s[0], SortBy(s[1..], key), key)
  }

  /** Sorting an already sorted sequence returns it unchanged. */
  lemma {:induction false} SortSorted<T>(s: seq<T>, key: T -> (int, int))
    requires SortedBy(s, key)
    ensures SortBy(s, key) == s
  {
    if s != [] {
      assert SortedBy(s[1..], key);
      SortSorted(s[1..], key);
      assert s == [s[0]] + s[1..];
    }
  }

  /** The sorted sequence holds the same elements as the input. */
  lemma SortByElements<T>(s: seq<T>, key: T -> (int, int), y: T)
    ensures y in SortBy(s, key) <==> y in s
  {
    var r := SortBy(s, key);
    assert y in r <==> y in multiset(r);
    assert y in s <==> y in multiset(s);
  }
}
