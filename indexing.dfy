/**
 * Integer and index helpers on tensors (jactorch/functional/indexing.py).
 *
 * A tensor is its shape and its elements in row-major order; two-dimensional
 * tensors are also written as a sequence of rows. Values are integers: the
 * 0/1 float entries of `one_hot` are modelled as the integers 0 and 1. An
 * operation that torch refuses (an index out of range, a `view` whose sizes do
 * not match, the `assert` in `index_one_hot_ellipsis`) returns `None`.
 */
module Indexing {
  import opened Wrappers
  import opened Layout

  /** A tensor: its sizes and its elements in row-major order. */
  datatype Tensor = Tensor(shape: seq<nat>, data: seq<int>)
  {
    predicate Valid()
    {
      |data| == Prod(shape)
    }
  }

  /** Every entry of `index` is a valid position in [0, bound). */
  predicate InRange(index: seq<int>, bound: nat)
  {
    forall r :: 0 <= r < |index| ==> 0 <= index[r] < bound
  }

  // ---------------------------------------------------------------------------
  // reversed(x, dim)

  /** The sequence read backwards. */
  function Rev<T>(s: seq<T>): (r: seq<T>)
    ensures |r| == |s|
  {
    seq(|s|, i requires 0 <= i < |s| => s[|s| - 1 - i])
  }

  lemma RevRev<T>(s: seq<T>)
    ensures Rev(Rev(s)) == s
  {
  }

  /**
   * The axis `reversed` flips. A negative `dim` gets `ndim` added once; the
   * result is then the start of the Python slice `xsize[dim:]`, so it is
   * normalised a second time by slicing. None when that slice is empty, where
   * the code fails on `x.size(1)`.
   */
  function ReverseAxis(ndim: nat, dim: int): (e: Option<nat>)
    ensures e.Some? ==> e.value < ndim
    ensures 0 <= dim < ndim ==> e == Some(dim)
    ensures dim < 0 && 0 <= ndim + dim ==> e == Some(ndim + dim)
    ensures dim >= ndim ==> e == None
    ensures ndim + dim < 0 && ndim > 0 ==> e == Some(if 2 * ndim + dim >= 0 then 2 * ndim + dim else 0)
    ensures ndim == 0 ==> e == None
  {
    var d := if dim < 0 then ndim + dim else dim;
    var b := SliceBound(ndim, d);
    if b < ndim then Some(b) else None
  }

  /** Elements before axis e: the rows of `x.view(-1, *xsize[e:])`. */
  function Outer(shape: seq<nat>, e: nat): nat
    requires e < |shape|
  {
    Prod(shape[..e])
  }

  /** Elements after axis e: the last size of `x.view(x.size(0), x.size(1), -1)`. */
  function Inner(shape: seq<nat>, e: nat): nat
    requires e < |shape|
  {
    Prod(shape[e + 1..])
  }

  /** Every (S, R) block of v with its rows in reverse order. */
  function FlipMiddle<T>(v: seq<seq<seq<T>>>): (w: seq<seq<seq<T>>>)
    ensures |w| == |v| && forall a :: 0 <= a < |v| ==> w[a] == Rev(v[a])
  {
    seq(|v|, a requires 0 <= a < |v| => Rev(v[a]))
  }

  lemma FlipMiddleShape<T>(v: seq<seq<seq<T>>>, S: nat, R: nat)
    requires forall a :: 0 <= a < |v| ==> |v[a]| == S && Uniform(v[a], R)
    ensures forall a :: 0 <= a < |v| ==> |FlipMiddle(v)[a]| == S && Uniform(FlipMiddle(v)[a], R)
  {
  }

  /**
   * `reversed(x, dim)`: view x as (A, S, R) around the flipped axis, take the
   * middle index backwards, view back. None for an empty axis slice and for a
   * tensor with no elements, where torch cannot infer the `-1` size of a view.
   */
  function Reversed(x: Tensor, dim: int): (r: Option<Tensor>)
    requires x.Valid()
    ensures r.Some? <==> ReverseAxis(|x.shape|, dim).Some? && |x.data| > 0
    ensures r.Some? ==> r.value.Valid() && r.value.shape == x.shape
  {
    match ReverseAxis(|x.shape|, dim)
    case None => None
    case Some(e) =>
      if |x.data| == 0 then None
      else
        var A, S, R := Outer(x.shape, e), x.shape[e], Inner(x.shape, e);
        ProdSplit(x.shape, e);
        var v := View3(x.data, A, S, R);
        var w := FlipMiddle(v);
        FlipMiddleShape(v, S, R);
        Flatten3At(w, S, R, 0, 0, 0);
        Some(Tensor(x.shape, Flatten3(w)))
  }

  /**
   * As written, a dim below -ndim is not refused: one more ndim is added by
   * the Python slice, so on a 2-D tensor dim -3 flips the last axis.
   */
  lemma ReversedBelowRange(x: Tensor, dim: int)
    requires x.Valid() && 0 <= dim + 2 * |x.shape| && dim + |x.shape| < 0
    ensures Reversed(x, dim) == Reversed(x, dim + |x.shape|)
  {
    assert ReverseAxis(|x.shape|, dim) == ReverseAxis(|x.shape|, dim + |x.shape|);
  }

  /** A concrete case: dim -3 on a 2 x 3 tensor reverses its rows. */
  lemma ReversedDimMinusThree()
    ensures Reversed(Tensor([2, 3], [1, 2, 3, 4, 5, 6]), -3).Some?
  {
  }

  /**
   * `reversed` with the range check that torch applies to its own dim
   * arguments: only -ndim <= dim < ndim name an axis.
   */
  function ReversedChecked(x: Tensor, dim: int): (r: Option<Tensor>)
    requires x.Valid()
    ensures r.Some? <==> 0 <= dim + |x.shape| && dim < |x.shape| && |x.data| > 0
    ensures r.Some? ==> r.value.Valid() && r.value.shape == x.shape
    ensures 0 <= dim + |x.shape| && dim < |x.shape| ==> r == Reversed(x, dim)
  {
    if 0 <= dim + |x.shape| then Reversed(x, dim) else None
  }

  /** With the check, dim -3 on a 2 x 3 tensor is refused. */
  lemma ReversedCheckedRefusesDimMinusThree()
    ensures ReversedChecked(Tensor([2, 3], [1, 2, 3, 4, 5, 6]), -3) == None
  {
  }

  /** Position k along the flipped axis moves to position S - 1 - k; nothing else moves. */
  lemma ReversedAt(x: Tensor, dim: int, a: nat, k: nat, c: nat)
    requires x.Valid() && Reversed(x, dim).Some?
    requires var e := ReverseAxis(|x.shape|, dim).value;
      a < Outer(x.shape, e) && k < x.shape[e] && c < Inner(x.shape, e)
    ensures var e := ReverseAxis(|x.shape|, dim).value;
      var S, R := x.shape[e], Inner(x.shape, e);
      && Flat3(S, R, a, k, c) < |x.data| && Flat3(S, R, a, S - 1 - k, c) < |x.data|
      && Reversed(x, dim).value.data[Flat3(S, R, a, k, c)] == x.data[Flat3(S, R, a, S - 1 - k, c)]
  {
    var e := ReverseAxis(|x.shape|, dim).value;
    var A, S, R := Outer(x.shape, e), x.shape[e], Inner(x.shape, e);
    ProdSplit(x.shape, e);
    var v := View3(x.data, A, S, R);
    var w := FlipMiddle(v);
    FlipMiddleShape(v, S, R);
    Flatten3At(w, S, R, a, k, c);
    View3At(x.data, A, S, R, a, S - 1 - k, c);
    View3At(x.data, A, S, R, a, k, c);
  }

  /** Reversing twice along the same dim gives back the tensor. */
  lemma ReversedInvolutive(x: Tensor, dim: int)
    requires x.Valid() && Reversed(x, dim).Some?
    ensures Reversed(Reversed(x, dim).value, dim) == Some(x)
  {
    var e := ReverseAxis(|x.shape|, dim).value;
    var A, S, R := Outer(x.shape, e), x.shape[e], Inner(x.shape, e);
    ProdSplit(x.shape, e);
    var v := View3(x.data, A, S, R);
    var w := FlipMiddle(v);
    FlipMiddleShape(v, S, R);
    var y := Reversed(x, dim).value;
    assert y.data == Flatten3(w);
    View3Flatten3(w, S, R);
    var w2 := FlipMiddle(View3(y.data, A, S, R));
    forall a | 0 <= a < A ensures w2[a] == v[a] {
      RevRev(v[a]);
    }
    assert w2 == v;
    Flatten3View3(x.data, A, S, R);
  }

  // ---------------------------------------------------------------------------
  // one_hot(index, nr_classes), one_hot_nd(index, nr_classes)

  /** A row of C entries, 1 at column k and 0 elsewhere. */
  function OneHotRow(k: int, C: nat): seq<int>
  {
    seq(C, c requires 0 <= c < C => if c == k then 1 else 0)
  }

  /** The n x C matrix whose row r is the one-hot row of index[r]. */
  function OneHotRows(index: seq<int>, C: nat): (m: seq<seq<int>>)
    ensures |m| == |index| && Uniform(m, C)
  {
    seq(|index|, r requires 0 <= r < |index| => OneHotRow(index[r], C))
  }

  /**
   * `one_hot(index, nr_classes)`: a zero n x C matrix, then a scatter of 1 at
   * column index[r] of each row r. None when an index is outside [0, C),
   * where the scatter fails.
   */
  method OneHot(index: seq<int>, nrClasses: nat) returns (r: Option<seq<seq<int>>>)
    ensures r.Some? <==> InRange(index, nrClasses)
    ensures r.Some? ==> |r.value| == |index| && Uniform(r.value, nrClasses)
    ensures r.Some? ==> forall i :: 0 <= i < |index| ==> r.value[i][index[i]] == 1
    ensures r.Some? ==> forall i, c :: 0 <= i < |index| && 0 <= c < nrClasses && c != index[i] ==> r.value[i][c] == 0
    ensures r.Some? ==> r.value == OneHotRows(index, nrClasses)
  {
    var n := |index|;
    var mask := new int[n, nrClasses]((i, j) => 0);
    var i := 0;
    while i < n
      invariant 0 <= i <= n
      invariant forall p :: 0 <= p < i ==> 0 <= index[p] < nrClasses
      invariant forall p, c :: 0 <= p < n && 0 <= c < nrClasses ==> mask[p, c] == if p < i && c == index[p] then 1 else 0
    {
      if !(0 <= index[i] < nrClasses) {
        return None;
      }
      mask[i, index[i]] := 1;
      i := i + 1;
    }
    var m := seq(n, p requires 0 <= p < n reads mask =>
      seq(nrClasses, c requires 0 <= c < nrClasses reads mask => mask[p, c]));
    forall p | 0 <= p < n ensures m[p] == OneHotRows(index, nrClasses)[p] {
      assert forall c :: 0 <= c < nrClasses ==> m[p][c] == OneHotRows(index, nrClasses)[p][c];
    }
    r := Some(m);
  }

  /** torch.argmax over a row: the first position holding the largest element. */
  function Argmax(row: seq<int>): (k: nat)
    requires |row| > 0
    ensures k < |row|
    ensures forall j :: 0 <= j < |row| ==> row[j] <= row[k]
    ensures forall j :: 0 <= j < k ==> row[j] < row[k]
  {
    if |row| == 1 then 0
    else
      var k := Argmax(row[..|row| - 1]);
      if row[|row| - 1] > row[k] then |row| - 1 else k
  }

  /** The argmax of each one-hot row recovers the index it encodes. */
  lemma OneHotArgmax(index: seq<int>, C: nat, r: nat)
    requires InRange(index, C) && r < |index|
    ensures Argmax(OneHotRows(index, C)[r]) == index[r]
  {
    var row := OneHotRows(index, C)[r];
    assert row[index[r]] == 1;
  }

  /**
   * `one_hot_nd(index, nr_classes)`: one_hot of the flattened index, viewed
   * with shape `index.shape + (nr_classes,)`.
   */
  function OneHotNd(index: Tensor, nrClasses: nat): (r: Option<Tensor>)
    requires index.Valid()
    ensures r.Some? <==> InRange(index.data, nrClasses)
    ensures r.Some? ==> r.value.Valid() && r.value.shape == index.shape + [nrClasses]
  {
    if InRange(index.data, nrClasses) then
      var rows := OneHotRows(index.data, nrClasses);
      FlattenLength(rows, nrClasses);
      ProdAppend(index.shape, [nrClasses]);
      Some(Tensor(index.shape + [nrClasses], Flatten(rows)))
    else
      None
  }

  /** Entry (p, c) of one_hot_nd is the entry of one_hot on the flattened index. */
  lemma OneHotNdAt(index: Tensor, C: nat, p: nat, c: nat)
    requires index.Valid() && InRange(index.data, C)
    requires p < |index.data| && c < C
    ensures Flat2(C, p, c) < |OneHotNd(index, C).value.data|
    ensures OneHotNd(index, C).value.data[Flat2(C, p, c)] == OneHotRows(index.data, C)[p][c]
    ensures OneHotNd(index, C).value.data[Flat2(C, p, c)] == if c == index.data[p] then 1 else 0
  {
    FlattenAt(OneHotRows(index.data, C), C, p, c);
  }

  // ---------------------------------------------------------------------------
  // inverse_permutation(perm)

  /** perm holds each of 0 .. |perm|-1 exactly once. */
  predicate IsPermutation(perm: seq<int>)
  {
    && (forall j :: 0 <= j < |perm| ==> 0 <= perm[j] < |perm|)
    && (forall i, j :: 0 <= i < j < |perm| ==> perm[i] != perm[j])
  }

  /** Position of the first v in s, or |s| when there is none. */
  function IndexOf(s: seq<int>, v: int): (k: nat)
    ensures k <= |s|
    ensures k < |s| ==> s[k] == v
    ensures forall j :: 0 <= j < k ==> s[j] != v
  {
    if s == [] then 0
    else if s[0] == v then 0
    else 1 + IndexOf(s[1..], v)
  }

  /** The inverse permutation: position v holds where v occurs in perm. */
  function Inverse(perm: seq<int>): (inv: seq<int>)
    ensures |inv| == |perm|
  {
    seq(|perm|, v requires 0 <= v < |perm| => IndexOf(perm, v))
  }

  /** The set {0, ..., n-1}. */
  function Range(n: nat): (s: set<int>)
    ensures forall v :: v in s <==> 0 <= v < n
  {
    if n == 0 then {} else Range(n - 1) + {n - 1}
  }

  lemma {:induction false} RangeSize(n: nat)
    ensures |Range(n)| == n
  {
    if n > 0 {
      RangeSize(n - 1);
    }
  }

  lemma {:induction false} DistinctElements(s: seq<int>)
    requires forall i, j :: 0 <= i < j < |s| ==> s[i] != s[j]
    ensures |set x | x in s| == |s|
  {
    if s != [] {
      DistinctElements(s[1..]);
      assert (set x | x in s) == (set x | x in s[1..]) + {s[0]};
      assert s[0] !in s[1..];
    }
  }

  /** A permutation of 0 .. n-1 hits every value in 0 .. n-1 (pigeonhole). */
  lemma PermutationOnto(perm: seq<int>)
    requires IsPermutation(perm)
    ensures forall v :: 0 <= v < |perm| ==> IndexOf(perm, v) < |perm|
  {
    var n := |perm|;
    var image := set x | x in perm;
    DistinctElements(perm);
    RangeSize(n);
    assert image <= Range(n);
    forall v | 0 <= v < n ensures IndexOf(perm, v) < n {
      if v !in image {
        assert image <= Range(n) - {v};
        assert |Range(n) - {v}| == n - 1;
        SubsetSize(image, Range(n) - {v});
        assert false;
      }
    }
  }

  lemma SubsetSize(a: set<int>, b: set<int>)
    requires a <= b
    ensures |a| <= |b|
  {
    assert b == a + (b - a);
  }

  /** The inverse is a permutation, and it undoes perm on both sides. */
  lemma InverseIsInverse(perm: seq<int>)
    requires IsPermutation(perm)
    ensures IsPermutation(Inverse(perm))
    ensures forall j :: 0 <= j < |perm| ==> Inverse(perm)[perm[j]] == j
    ensures forall v :: 0 <= v < |perm| ==> perm[Inverse(perm)[v]] == v
  {
    PermutationOnto(perm);
    var inv := Inverse(perm);
    forall j | 0 <= j < |perm| ensures inv[perm[j]] == j {
      var k := IndexOf(perm, perm[j]);
      assert k <= j;
    }
  }

  /** inverse_permutation applied twice returns the original permutation. */
  lemma InverseInvolutive(perm: seq<int>)
    requires IsPermutation(perm)
    ensures Inverse(Inverse(perm)) == perm
  {
    InverseIsInverse(perm);
    var inv := Inverse(perm);
    InverseIsInverse(inv);
    forall j | 0 <= j < |perm| ensures Inverse(inv)[j] == perm[j] {
      assert inv[perm[j]] == j;
      assert Inverse(inv)[inv[perm[j]]] == perm[j];
    }
  }

  /**
   * `inverse_permutation(perm)`: a zero vector, then the scatter
   * `inv[perm[j]] = j` for every j.
   */
  method InversePermutation(perm: seq<int>) returns (inv: seq<int>)
    requires IsPermutation(perm)
    ensures |inv| == |perm|
    ensures forall j :: 0 <= j < |perm| ==> inv[perm[j]] == j
    ensures inv == Inverse(perm)
  {
    var n := |perm|;
    var a := new int[n](_ => 0);
    var j := 0;
    while j < n
      invariant 0 <= j <= n
      invariant forall i :: 0 <= i < j ==> a[perm[i]] == i
    {
      a[perm[j]] := j;
      j := j + 1;
    }
    inv := a[..];
    InverseIsInverse(perm);
    forall v | 0 <= v < n ensures inv[v] == Inverse(perm)[v] {
      var k := Inverse(perm)[v];
      assert perm[k] == v;
    }
  }

  // ---------------------------------------------------------------------------
  // index_one_hot(tensor, 1, index), set_index_one_hot_(tensor, 1, index, value)

  /** Sum of the products of corresponding entries. */
  function Dot(a: seq<int>, b: seq<int>): int
    requires |a| == |b|
  {
    if a == [] then 0 else a[0] * b[0] + Dot(a[1..], b[1..])
  }

  lemma {:induction false} DotZeros(a: seq<int>, k: int)
    requires k < 0
    ensures Dot(a, OneHotRow(k, |a|)) == 0
  {
    if a != [] {
      assert OneHotRow(k, |a|)[1..] == OneHotRow(k - 1, |a| - 1);
      DotZeros(a[1..], k - 1);
    }
  }

  /** A row dotted with a one-hot row picks the entry at the hot column. */
  lemma {:induction false} DotOneHot(a: seq<int>, k: nat)
    requires k < |a|
    ensures Dot(a, OneHotRow(k, |a|)) == a[k]
  {
    assert OneHotRow(k, |a|)[1..] == OneHotRow(k - 1, |a| - 1);
    if k == 0 {
      DotZeros(a[1..], -1);
    } else {
      DotOneHot(a[1..], k - 1);
    }
  }

  /**
   * `index_one_hot(tensor, 1, index)` on a matrix: gather one entry per row,
   * the one at column index[r]. None when there are more index entries than
   * rows or an index is outside its row.
   */
  function IndexOneHot(t: seq<seq<int>>, index: seq<int>): (r: Option<seq<int>>)
    ensures r.Some? <==> |index| <= |t| && forall i :: 0 <= i < |index| ==> 0 <= index[i] < |t[i]|
    ensures r.Some? ==> |r.value| == |index|
    ensures r.Some? ==> forall i :: 0 <= i < |index| ==> r.value[i] == Dot(t[i], OneHotRow(index[i], |t[i]|))
  {
    if |index| <= |t| && forall i :: 0 <= i < |index| ==> 0 <= index[i] < |t[i]| then
      var g := seq(|index|, i requires 0 <= i < |index| => t[i][index[i]]);
      assert forall i :: 0 <= i < |index| ==> g[i] == Dot(t[i], OneHotRow(index[i], |t[i]|)) by {
        forall i | 0 <= i < |index| ensures g[i] == Dot(t[i], OneHotRow(index[i], |t[i]|)) {
          DotOneHot(t[i], index[i]);
        }
      }
      Some(g)
    else
      None
  }

  /** The value written by set_index_one_hot_: a scalar, or one value per row. */
  datatype Fill = Scalar(x: int) | PerRow(xs: seq<int>)

  /** The scatter of `set_index_one_hot_` is accepted by torch. */
  predicate ScatterOk(rows: nat, cols: nat, index: seq<int>, value: Fill)
  {
    && |index| <= rows
    && (value.PerRow? ==> |index| <= |value.xs|)
    && InRange(index, cols)
  }

  function FillAt(value: Fill, r: nat): int
    requires value.PerRow? ==> r < |value.xs|
  {
    match value
    case Scalar(x) => x
    case PerRow(xs) => xs[r]
  }

  /** The matrix m with entry (r, index[r]) of each indexed row r replaced by the fill value. */
  function Scattered(m: seq<seq<int>>, index: seq<int>, value: Fill): (s: seq<seq<int>>)
    requires value.PerRow? ==> |index| <= |value.xs|
    ensures |s| == |m| && forall r :: 0 <= r < |m| ==> |s[r]| == |m[r]|
    ensures forall r, c :: 0 <= r < |m| && 0 <= c < |m[r]| && !(r < |index| && c == index[r]) ==> s[r][c] == m[r][c]
  {
    seq(|m|, r requires 0 <= r < |m| =>
      seq(|m[r]|, c requires 0 <= c < |m[r]| =>
        if r < |index| && c == index[r] then FillAt(value, r) else m[r][c]))
  }

  /** The rows of a two-dimensional array. */
  function Rows(t: array2<int>): (m: seq<seq<int>>)
    reads t
    ensures |m| == t.Length0 && Uniform(m, t.Length1)
  {
    seq(t.Length0, i requires 0 <= i < t.Length0 reads t =>
      seq(t.Length1, j requires 0 <= j < t.Length1 reads t => t[i, j]))
  }

  /**
   * `set_index_one_hot_(tensor, 1, index, value)`: scatter in place, writing
   * the value at column index[r] of each row r. When torch would refuse the
   * scatter, ok is false and the tensor is left as it was.
   */
  method SetIndexOneHot(t: array2<int>, index: seq<int>, value: Fill) returns (ok: bool)
    modifies t
    ensures ok == ScatterOk(t.Length0, t.Length1, index, value)
    ensures ok ==> Rows(t) == Scattered(old(Rows(t)), index, value)
    ensures !ok ==> Rows(t) == old(Rows(t))
  {
    ok := |index| <= t.Length0 && (value.PerRow? ==> |index| <= |value.xs|)
      && forall r :: 0 <= r < |index| ==> 0 <= index[r] < t.Length1;
    if !ok {
      return;
    }
    ghost var before := Rows(t);
    var r := 0;
    while r < |index|
      invariant 0 <= r <= |index|
      invariant forall i, c :: 0 <= i < t.Length0 && 0 <= c < t.Length1 ==>
        t[i, c] == if i < r && c == index[i] then FillAt(value, i) else before[i][c]
    {
      t[r, index[r]] := FillAt(value, r);
      r := r + 1;
    }
    forall i | 0 <= i < t.Length0 ensures Rows(t)[i] == Scattered(before, index, value)[i] {
      assert forall c :: 0 <= c < t.Length1 ==> Rows(t)[i][c] == Scattered(before, index, value)[i][c];
    }
  }

  /** Reading back the entries just written gives the fill values. */
  lemma GetAfterSet(m: seq<seq<int>>, index: seq<int>, value: Fill)
    requires |index| <= |m| && (value.PerRow? ==> |index| <= |value.xs|)
    requires forall r :: 0 <= r < |index| ==> 0 <= index[r] < |m[r]|
    ensures IndexOneHot(Scattered(m, index, value), index)
      == Some(seq(|index|, r requires 0 <= r < |index| => FillAt(value, r)))
  {
    var s := Scattered(m, index, value);
    var g := IndexOneHot(s, index);
    assert g.Some?;
    forall r | 0 <= r < |index| ensures g.value[r] == FillAt(value, r) {
      assert s[r][index[r]] == FillAt(value, r);
      DotOneHot(s[r], index[r]);
    }
    assert g.value == seq(|index|, r requires 0 <= r < |index| => FillAt(value, r));
  }

  /** Writing back the entries just read leaves the matrix unchanged. */
  lemma SetAfterGet(m: seq<seq<int>>, index: seq<int>)
    requires IndexOneHot(m, index).Some?
    ensures Scattered(m, index, PerRow(IndexOneHot(m, index).value)) == m
  {
    var g := IndexOneHot(m, index).value;
    var s := Scattered(m, index, PerRow(g));
    forall r | 0 <= r < |m| ensures s[r] == m[r] {
      if r < |index| {
        DotOneHot(m[r], index[r]);
        assert s[r][index[r]] == g[r];
      }
      assert forall c :: 0 <= c < |m[r]| ==> s[r][c] == m[r][c];
    }
  }

  // ---------------------------------------------------------------------------
  // index_one_hot_ellipsis(tensor, dim, index)

  /**
   * `index_one_hot_ellipsis(tensor, dim, index)` as written: view the tensor
   * as (P, K, Q) with P = prod(shape[:dim]), K = shape[dim],
   * Q = prod(shape[dim+1:]), gather entry index[p] of the middle axis for each
   * p, and view the result as shape[:dim] + shape[dim+1:]. The slices are
   * Python slices of the shape tuple, taken with `dim` as given.
   */
  function IndexOneHotEllipsis(t: Tensor, dim: int, index: seq<int>): (r: Option<Tensor>)
    requires t.Valid()
    ensures r.Some? ==> r.value.Valid()
    ensures r.Some? ==> r.value.shape == SliceTo(t.shape, dim) + SliceFrom(t.shape, dim + 1)
    ensures r.Some? ==> |index| == Prod(SliceTo(t.shape, dim))
  {
    if !(0 <= dim + |t.shape| && dim < |t.shape|) then None
    else
      var (P, K, Q) := EllipsisView(t.shape, dim);
      if |t.data| != P * (K * Q) then None
      else if |index| != P then None
      else if Q > 0 && !InRange(index, K) then None
      else
        var v := View3(t.data, P, K, Q);
        var g := seq(P, p requires 0 <= p < P => if Q == 0 then [] else v[p][index[p]]);
        FlattenLength(g, Q);
        ProdAppend(SliceTo(t.shape, dim), SliceFrom(t.shape, dim + 1));
        Some(Tensor(SliceTo(t.shape, dim) + SliceFrom(t.shape, dim + 1), Flatten(g)))
  }

  /** The sizes (P, K, Q) of the view in index_one_hot_ellipsis for a dim in range. */
  function EllipsisView(shape: seq<nat>, dim: int): (pkq: (nat, nat, nat))
    requires 0 <= dim + |shape| && dim < |shape|
  {
    (Prod(SliceTo(shape, dim)), shape[if dim < 0 then dim + |shape| else dim], Prod(SliceFrom(shape, dim + 1)))
  }

  /** Entry (p, q) of the result is entry (p, index[p], q) of the (P, K, Q) view. */
  lemma EllipsisAt(t: Tensor, dim: int, index: seq<int>, p: nat, q: nat)
    requires t.Valid() && IndexOneHotEllipsis(t, dim, index).Some?
    requires 0 <= dim + |t.shape| && dim < |t.shape|
    requires var (P, K, Q) := EllipsisView(t.shape, dim); p < P && q < Q
    ensures var (P, K, Q) := EllipsisView(t.shape, dim);
      && 0 <= index[p] < K
      && Flat2(Q, p, q) < |IndexOneHotEllipsis(t, dim, index).value.data|
      && Flat3(K, Q, p, index[p], q) < |t.data|
      && IndexOneHotEllipsis(t, dim, index).value.data[Flat2(Q, p, q)] == t.data[Flat3(K, Q, p, index[p], q)]
  {
    var (P, K, Q) := EllipsisView(t.shape, dim);
    var v := View3(t.data, P, K, Q);
    var g := seq(P, p requires 0 <= p < P => if Q == 0 then [] else v[p][index[p]]);
    FlattenAt(g, Q, p, q);
    View3At(t.data, P, K, Q, p, index[p], q);
  }

  /**
   * When the axes after dim hold no element, nothing is gathered, so no entry
   * of index is checked: a (2, 3, 0) tensor with index [5, 7] gives (2, 0).
   */
  lemma EllipsisEmptyTrailing()
    ensures IndexOneHotEllipsis(Tensor([2, 3, 0], []), 1, [5, 7]) == Some(Tensor([2, 0], []))
  {
    var t := Tensor([2, 3, 0], []);
    assert SliceTo(t.shape, 1) == [2];
    assert SliceFrom(t.shape, 2) == [0];
    assert Prod([2]) == 2;
    assert Prod([0]) == 0;
    assert EllipsisView(t.shape, 1) == (2, 3, 0);
    var r := IndexOneHotEllipsis(t, 1, [5, 7]);
    assert r.Some? && r.value.shape == [2, 0];
    assert Prod([2, 0]) == 0;
  }

  /** On a matrix with dim 1, index_one_hot_ellipsis is index_one_hot on its rows. */
  lemma EllipsisOnMatrix(t: Tensor, index: seq<int>)
    requires t.Valid() && |t.shape| == 2 && |t.data| == t.shape[0] * t.shape[1]
    requires |index| == t.shape[0]
    ensures IndexOneHotEllipsis(t, 1, index)
      == if InRange(index, t.shape[1]) then
           Some(Tensor([t.shape[0]], IndexOneHot(Chunks(t.data, t.shape[0], t.shape[1]), index).value))
         else None
  {
    var m, C := t.shape[0], t.shape[1];
    assert SliceTo(t.shape, 1) == [m];
    assert SliceFrom(t.shape, 2) == [];
    assert Prod([m]) == m;
    assert EllipsisView(t.shape, 1) == (m, C, 1);
    assert C * 1 == C;
    assert |t.data| == m * (C * 1);
    var r := IndexOneHotEllipsis(t, 1, index);
    if InRange(index, C) {
      var rows := Chunks(t.data, m, C);
      var g := IndexOneHot(rows, index);
      assert r.Some? && g.Some?;
      assert |r.value.data| == m;
      forall p | 0 <= p < m ensures r.value.data[p] == g.value[p] {
        EllipsisAt(t, 1, index, p, 0);
        FlatUnit(C, p, index[p]);
        ChunksAt(t.data, m, C, p, index[p]);
        DotOneHot(rows[p], index[p]);
      }
      assert r.value.data == g.value;
      assert r.value.shape == [m];
    } else {
      assert r == None;
    }
  }

  /**
   * index_one_hot_ellipsis with the negative dim made non-negative first, as
   * `reversed` does: the evidently intended reading of `dim`.
   */
  function IndexOneHotEllipsisNormalized(t: Tensor, dim: int, index: seq<int>): (r: Option<Tensor>)
    requires t.Valid()
    ensures 0 <= dim + |t.shape| && dim < |t.shape| ==>
      var e := if dim < 0 then dim + |t.shape| else dim;
      (r.Some? <==> |index| == Prod(t.shape[..e]) && (Prod(t.shape[e + 1..]) > 0 ==> InRange(index, t.shape[e])))
    ensures r.Some? ==> 0 <= dim + |t.shape| && dim < |t.shape|
    ensures r.Some? && 0 <= dim + |t.shape| && dim < |t.shape| ==>
      var e := if dim < 0 then dim + |t.shape| else dim;
      r.value.shape == t.shape[..e] + t.shape[e + 1..]
  {
    var n := |t.shape|;
    var e := if dim < 0 then dim + n else dim;
    if 0 <= e < n then
      ProdSplit(t.shape, e);
      assert SliceTo(t.shape, e) == t.shape[..e];
      assert SliceFrom(t.shape, e + 1) == t.shape[e + 1..];
      IndexOneHotEllipsis(t, e, index)
    else
      None
  }

  /** As written, every dim other than -1 behaves as intended. */
  lemma EllipsisAgreesExceptLastAxis(t: Tensor, dim: int, index: seq<int>)
    requires t.Valid() && dim != -1
    ensures IndexOneHotEllipsis(t, dim, index) == IndexOneHotEllipsisNormalized(t, dim, index)
  {
    var n := |t.shape|;
    if 0 <= dim + n && dim < 0 {
      var e := dim + n;
      assert SliceTo(t.shape, dim) == SliceTo(t.shape, e);
      assert SliceFrom(t.shape, dim + 1) == SliceFrom(t.shape, e + 1);
      assert IndexOneHotEllipsisNormalized(t, dim, index) == IndexOneHotEllipsis(t, e, index);
    }
  }

  /** As written, dim = -1 on a 2 x 3 tensor fails: the view asks for 2 x 3 x 6 elements. */
  lemma EllipsisLastAxisFails()
    ensures IndexOneHotEllipsis(Tensor([2, 3], [10, 11, 12, 13, 14, 15]), -1, [0, 2]) == None
  {
    var t := Tensor([2, 3], [10, 11, 12, 13, 14, 15]);
    assert Prod([3]) == 3;
    assert Prod([2]) == 2;
    assert Prod(t.shape) == 6;
    assert SliceFrom(t.shape, 0) == t.shape;
    assert SliceTo(t.shape, -1) == [2];
    assert EllipsisView(t.shape, -1) == (2, 3, 6);
  }

  /** With dim = -1 read as the last axis, the same call gathers one entry per row. */
  lemma EllipsisLastAxisIntended()
    ensures IndexOneHotEllipsisNormalized(Tensor([2, 3], [10, 11, 12, 13, 14, 15]), -1, [0, 2])
      == Some(Tensor([2], [10, 15]))
  {
    var t := Tensor([2, 3], [10, 11, 12, 13, 14, 15]);
    assert Prod([3]) == 3;
    assert Prod(t.shape) == 6;
    EllipsisOnMatrix(t, [0, 2]);
    var rows := Chunks(t.data, 2, 3);
    ChunksAt(t.data, 2, 3, 0, 0);
    ChunksAt(t.data, 2, 3, 1, 2);
    var g := IndexOneHot(rows, [0, 2]);
    assert g.Some?;
    DotOneHot(rows[0], 0);
    DotOneHot(rows[1], 2);
    assert g.value == [10, 15];
  }
}
