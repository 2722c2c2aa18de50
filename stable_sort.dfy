/**
 * `all_result.sort(key=lambda x: x[0])` in `Pool.map`: Python's list sort is
 * stable, so pairs are ordered by their index and pairs with equal indices
 * keep their arrival order. The sort itself belongs to the Python runtime;
 * here it is a stable insertion sort on (index, value) pairs.
 */
module StableSort {

  /** The pairs are in ascending order of their index. */
  predicate SortedByIndex<W>(s: seq<(int, W)>)
  {
    forall i, j :: 0 <= i < j < |s| ==> s[i].0 <= s[j].0
  }

  /** The pairs of s whose index is k, in their order in s. */
  function WithIndex<W>(s: seq<(int, W)>, k: int): seq<(int, W)>
  {
    if s == [] then []
    else (if s[0].0 == k then [s[0]] else []) + WithIndex(s[1..], k)
  }

  /** x placed in front of the first pair whose index is not smaller than its own. */
  function Insert<W>(x: (int, W), s: seq<(int, W)>): (r: seq<(int, W)>)
    ensures |r| == |s| + 1
  {
    if s == [] || x.0 <= s[0].0 then [x] + s
    else [s[0]] + Insert(x, s[1..])
  }

  lemma {:induction false} InsertSorted<W>(x: (int, W), s: seq<(int, W)>)
    requires SortedByIndex(s)
    ensures SortedByIndex(Insert(x, s))
    ensures Insert(x, s) != [] && (Insert(x, s)[0] == x || (s != [] && Insert(x, s)[0] == s[0]))
  {
    if s != [] && x.0 > s[0].0 {
      InsertSorted(x, s[1..]);
    }
  }

  lemma {:induction false} InsertWithIndex<W>(x: (int, W), s: seq<(int, W)>, k: int)
    ensures WithIndex(Insert(x, s), k) == (if x.0 == k then [x] else []) + WithIndex(s, k)
  {
    if s == [] || x.0 <= s[0].0 {
      var r := [x] + s;
      assert Insert(x, s) == r;
      assert r[1..] == s && r[0] == x;
      assert WithIndex(r, k) == (if x.0 == k then [x] else []) + WithIndex(s, k);
    } else {
      var tail := Insert(x, s[1..]);
      var r := [s[0]] + tail;
      assert Insert(x, s) == r;
      InsertWithIndex(x, s[1..], k);
      assert r[1..] == tail && r[0] == s[0];
      var h := if s[0].0 == k then [s[0]] else [];
      var hx := if x.0 == k then [x] else [];
      assert WithIndex(r, k) == h + WithIndex(tail, k);
      assert WithIndex(tail, k) == hx + WithIndex(s[1..], k);
      assert WithIndex(s, k) == h + WithIndex(s[1..], k);
    }
  }

  /**
   * The stable sort by index: sorted, and for every index the pairs carrying
   * it appear in the same order as in the input, so the result is a
   * rearrangement of the input that keeps ties in arrival order.
   */
  function SortByIndex<W>(s: seq<(int, W)>): (r: seq<(int, W)>)
    ensures |r| == |s|
    ensures SortedByIndex(r)
    ensures forall k :: WithIndex(r, k) == WithIndex(s, k)
  {
    if s == [] then []
    else
      var rest := SortByIndex(s[1..]);
      InsertSorted(s[0], rest);
      assert forall k :: WithIndex(Insert(s[0], rest), k) == WithIndex(s, k) by {
        forall k ensures WithIndex(Insert(s[0], rest), k) == WithIndex(s, k) {
          InsertWithIndex(s[0], rest, k);
        }
      }
      Insert(s[0], rest)
  }

  lemma {:induction false} InsertMultiset<W>(x: (int, W), s: seq<(int, W)>)
    ensures multiset(Insert(x, s)) == multiset(s) + multiset{x}
  {
    if s != [] && x.0 > s[0].0 {
      InsertMultiset(x, s[1..]);
      assert s == [s[0]] + s[1..];
    }
  }

  /** The sort is a permutation of its input. */
  lemma {:induction false} SortIsPermutation<W>(s: seq<(int, W)>)
    ensures multiset(SortByIndex(s)) == multiset(s)
  {
    if s != [] {
      SortIsPermutation(s[1..]);
      InsertMultiset(s[0], SortByIndex(s[1..]));
      assert s == [s[0]] + s[1..];
    }
  }

  /** The sort leaves an already sorted sequence as it is. */
  lemma {:induction false} SortOfSorted<W>(s: seq<(int, W)>)
    requires SortedByIndex(s)
    ensures SortByIndex(s) == s
  {
    if s != [] {
      SortOfSorted(s[1..]);
      assert s == [s[0]] + s[1..];
    }
  }

  lemma {:induction false} WithIndexHead<W>(s: seq<(int, W)>, k: int)
    requires s != [] && s[0].0 == k
    ensures WithIndex(s, k) != [] && WithIndex(s, k)[0] == s[0]
  {
  }

  lemma {:induction false} WithIndexEmpty<W>(s: seq<(int, W)>, i: nat)
    requires i < |s|
    ensures WithIndex(s, s[i].0) != []
  {
    if i > 0 {
      WithIndexEmpty(s[1..], i - 1);
    }
  }

  lemma {:induction false} WithIndexMin<W>(s: seq<(int, W)>, k: int)
    requires SortedByIndex(s) && s != [] && WithIndex(s, k) != []
    ensures s[0].0 <= k
  {
    if s[0].0 != k {
      assert WithIndex(s, k) == WithIndex(s[1..], k);
      WithIndexMin(s[1..], k);
    }
  }

  /**
   * A sorted sequence is determined by the pairs it holds for each index: two
   * sorted sequences that agree on every index are equal.
   */
  lemma {:induction false} SortedDeterminedByIndices<W>(a: seq<(int, W)>, b: seq<(int, W)>)
    requires SortedByIndex(a) && SortedByIndex(b)
    requires forall k :: WithIndex(a, k) == WithIndex(b, k)
    ensures a == b
    decreases |a|
  {
    if a == [] || b == [] {
      if a != [] {
        WithIndexEmpty(a, 0);
      } else if b != [] {
        WithIndexEmpty(b, 0);
      }
    } else {
      WithIndexEmpty(a, 0);
      WithIndexEmpty(b, 0);
      WithIndexMin(b, a[0].0);
      WithIndexMin(a, b[0].0);
      var k := a[0].0;
      WithIndexHead(a, k);
      WithIndexHead(b, k);
      assert a[0] == b[0];
      forall j ensures WithIndex(a[1..], j) == WithIndex(b[1..], j) {
        assert WithIndex(a, j) == (if a[0].0 == j then [a[0]] else []) + WithIndex(a[1..], j);
        assert WithIndex(b, j) == (if b[0].0 == j then [b[0]] else []) + WithIndex(b[1..], j);
        var h := if a[0].0 == j then [a[0]] else [];
        assert WithIndex(a[1..], j) == (h + WithIndex(a[1..], j))[|h|..];
        assert WithIndex(b[1..], j) == (h + WithIndex(b[1..], j))[|h|..];
      }
      SortedDeterminedByIndices(a[1..], b[1..]);
      assert a == [a[0]] + a[1..];
      assert b == [b[0]] + b[1..];
    }
  }

  /**
   * Arrival order does not matter to the sorted result: two collections that
   * hold the same pairs for every index sort to the same sequence.
   */
  lemma SortIgnoresArrivalOrder<W>(a: seq<(int, W)>, b: seq<(int, W)>)
    requires forall k :: WithIndex(a, k) == WithIndex(b, k)
    ensures SortByIndex(a) == SortByIndex(b)
  {
    SortedDeterminedByIndices(SortByIndex(a), SortByIndex(b));
  }

  /** Two rearrangements of each other that start alike continue as rearrangements of each other. */
  lemma SameTail<T>(a: seq<T>, b: seq<T>)
    requires multiset(a) == multiset(b) && a != [] && b != [] && a[0] == b[0]
    ensures multiset(a[1..]) == multiset(b[1..])
  {
    assert a == [a[0]] + a[1..];
    assert b == [b[0]] + b[1..];
    calc {
      multiset(a[1..]);
      multiset(a) - multiset{a[0]};
      multiset(b) - multiset{b[0]};
      multiset(b[1..]);
    }
  }

  /** A sorted rearrangement of pairs numbered lo, lo + 1, ... starts with the pair numbered lo. */
  lemma SortedRearrangementHead<W>(r: seq<(int, W)>, e: seq<(int, W)>, lo: int)
    requires SortedByIndex(r) && multiset(r) == multiset(e) && e != []
    requires forall i :: 0 <= i < |e| ==> e[i].0 == lo + i
    ensures r != [] && r[0] == e[0]
  {
    assert e[0] in multiset(r);
    var j :| 0 <= j < |r| && r[j] == e[0];
    assert r[0] in multiset(e);
    var m :| 0 <= m < |e| && e[m] == r[0];
    assert r[0].0 <= r[j].0;
  }

  /**
   * A sorted rearrangement of pairs numbered lo, lo + 1, ... in order is
   * those pairs in that order.
   */
  lemma {:induction false} SortedRearrangementOfNumbered<W>(r: seq<(int, W)>, e: seq<(int, W)>, lo: int)
    requires SortedByIndex(r) && multiset(r) == multiset(e)
    requires forall i :: 0 <= i < |e| ==> e[i].0 == lo + i
    ensures r == e
    decreases |e|
  {
    if e == [] {
      assert |r| == |multiset(r)| == 0;
    } else {
      SortedRearrangementHead(r, e, lo);
      SameTail(r, e);
      SortedRearrangementOfNumbered(r[1..], e[1..], lo + 1);
    }
  }

  /**
   * Whatever order pairs numbered 0, 1, ..., n - 1 arrive in, the sort puts
   * them back in the order of their numbers.
   */
  lemma SortRestoresNumbered<W>(s: seq<(int, W)>, e: seq<(int, W)>)
    requires multiset(s) == multiset(e)
    requires forall i :: 0 <= i < |e| ==> e[i].0 == i
    ensures SortByIndex(s) == e
  {
    SortIsPermutation(s);
    SortedRearrangementOfNumbered(SortByIndex(s), e, 0);
  }
}
