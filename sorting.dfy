/** The descending views of the store. The source calls std::sort with a
    `>` comparator on price or stock; std::sort is not stable, so only its
    outcome is specified here: a permutation ordered non-increasingly by the
    key. An insertion sort realises that outcome; no claim is made about the
    order of books with equal keys. */
module Sorting {
  import opened Books

  datatype SortKey = ByPrice | ByStock

  function KeyOf(b: Book, k: SortKey): int {
    match k
    case ByPrice => b.price
    case ByStock => b.stock
  }

  predicate NonIncreasing(s: seq<Book>, k: SortKey) {
    forall i, j :: 0 <= i < j < |s| ==> KeyOf(s[i], k) >= KeyOf(s[j], k)
  }

  /** Inserts `x` before the first element whose key is not greater. */
  function Insert(x: Book, s: seq<Book>, k: SortKey): (r: seq<Book>)
    requires NonIncreasing(s, k)
    ensures NonIncreasing(r, k)
    ensures multiset(r) == multiset(s) + multiset{x}
    ensures forall b :: b in r <==> b == x || b in s
  {
    if s == [] || KeyOf(x, k) >= KeyOf(s[0], k) then
      [x] + s
    else
      var tail := Insert(x, s[1..], k);
      HeadBoundsTail(x, s, tail, k);
      assert s == [s[0]] + s[1..];
      [s[0]] + tail
  }

  lemma HeadBoundsTail(x: Book, s: seq<Book>, tail: seq<Book>, k: SortKey)
    requires NonIncreasing(s, k) && s != [] && KeyOf(x, k) < KeyOf(s[0], k)
    requires NonIncreasing(tail, k)
    requires forall b :: b in tail <==> b == x || b in s[1..]
    ensures NonIncreasing([s[0]] + tail, k)
  {
    var r := [s[0]] + tail;
    forall j | 0 < j < |r| ensures KeyOf(r[j], k) <= KeyOf(s[0], k) {
      assert r[j] == tail[j - 1];
      assert tail[j - 1] in tail;
      if r[j] != x {
        var m :| 0 <= m < |s[1..]| && s[1..][m] == r[j];
        assert s[m + 1] == r[j];
      }
    }
    forall i, j | 0 <= i < j < |r| ensures KeyOf(r[i], k) >= KeyOf(r[j], k) {
      if i > 0 {
        assert r[i] == tail[i - 1] && r[j] == tail[j - 1];
      }
    }
  }

  /** A non-increasing permutation of `s`. */
  function SortDescending(s: seq<Book>, k: SortKey): (r: seq<Book>)
    ensures NonIncreasing(r, k)
    ensures multiset(r) == multiset(s)
    ensures |r| == |s|
  {
    if s == [] then []
    else
      assert s == [s[0]] + s[1..];
      var r := Insert(s[0], SortDescending(s[1..], k), k);
      assert |r| == |multiset(r)|;
      r
  }

  /** The first element of a non-empty descending view of a store (any
      non-increasing permutation of it, whatever the order of ties) is a book
      of the store with the largest key. */
  lemma HeadIsMaximal(r: seq<Book>, s: seq<Book>, k: SortKey)
    requires s != [] && NonIncreasing(r, k) && multiset(r) == multiset(s)
    ensures r != [] && r[0] in s
    ensures forall b :: b in s ==> KeyOf(b, k) <= KeyOf(r[0], k)
  {
    assert s[0] in multiset(s);
    assert r != [];
    assert r[0] in multiset(r);
    forall b | b in s ensures KeyOf(b, k) <= KeyOf(r[0], k) {
      assert b in multiset(s);
      assert b in multiset(r);
      var j :| 0 <= j < |r| && r[j] == b;
      assert j == 0 || KeyOf(r[0], k) >= KeyOf(r[j], k);
    }
  }
}
