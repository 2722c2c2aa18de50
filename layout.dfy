/**
 * Row-major tensor layout: the flat data of a tensor, the product of a shape,
 * the reshapes (`view`) used by the indexing helpers, and Python's slice
 * bounds on a shape tuple.
 */
module Layout {

  /** Number of elements of a tensor of the given shape (`prod` of the sizes). */
  function Prod(shape: seq<nat>): nat
  {
    if shape == [] then 1 else shape[0] * Prod(shape[1..])
  }

  lemma {:induction false} ProdAppend(a: seq<nat>, b: seq<nat>)
    ensures Prod(a + b) == Prod(a) * Prod(b)
  {
    if a == [] {
      assert a + b == b;
    } else {
      assert (a + b)[1..] == a[1..] + b;
      ProdAppend(a[1..], b);
      MulAssoc(a[0], Prod(a[1..]), Prod(b));
    }
  }

  lemma MulAssoc(x: nat, y: nat, z: nat)
    ensures x * (y * z) == (x * y) * z
  {
  }

  /** The product of a shape, split at axis e into outer sizes, the axis and inner sizes. */
  lemma ProdSplit(shape: seq<nat>, e: nat)
    requires e < |shape|
    ensures Prod(shape) == Prod(shape[..e]) * (shape[e] * Prod(shape[e + 1..]))
  {
    assert shape == shape[..e] + shape[e..];
    ProdAppend(shape[..e], shape[e..]);
    assert shape[e..][1..] == shape[e + 1..];
  }

  /** Python's normalisation of a slice bound `i` on a sequence of length n. */
  function SliceBound(n: nat, i: int): (b: nat)
    ensures b <= n
    ensures 0 <= i <= n ==> b == i
    ensures i < 0 && 0 <= n + i ==> b == n + i
    ensures i > n ==> b == n
    ensures n + i < 0 ==> b == 0
  {
    if i >= 0 then (if i <= n then i else n)
    else if 0 <= n + i then n + i
    else 0
  }

  /** Python's `shape[:i]`. */
  function SliceTo(shape: seq<nat>, i: int): seq<nat>
  {
    shape[..SliceBound(|shape|, i)]
  }

  /** Python's `shape[i:]`. */
  function SliceFrom(shape: seq<nat>, i: int): seq<nat>
  {
    shape[SliceBound(|shape|, i)..]
  }

  /** Position of row p, column c in a row-major matrix of width w. */
  function Flat2(w: nat, p: nat, c: nat): nat
  {
    p * w + c
  }

  /** Position of (a, k, c) in a row-major tensor of shape (_, S, R). */
  function Flat3(S: nat, R: nat, a: nat, k: nat, c: nat): nat
  {
    (a * S + k) * R + c
  }

  lemma MulPred(n: nat, w: nat)
    requires n > 0
    ensures n * w == (n - 1) * w + w
  {
  }

  lemma Flat2Bound(n: nat, w: nat, p: nat, c: nat)
    requires p < n && c < w
    ensures Flat2(w, p, c) < n * w
  {
    MulMono(p + 1, n, w);
  }

  lemma MulMono(x: nat, y: nat, w: nat)
    requires x <= y
    ensures x * w <= y * w
  {
  }

  lemma Flat2Pred(w: nat, p: nat, c: nat)
    requires p > 0
    ensures Flat2(w, p, c) == w + Flat2(w, p - 1, c)
  {
    MulPred(p, w);
  }

  lemma Flat3Split(S: nat, R: nat, a: nat, k: nat, c: nat)
    ensures Flat3(S, R, a, k, c) == Flat2(S * R, a, Flat2(R, k, c))
  {
    assert (a * S + k) * R == a * S * R + k * R;
    MulAssoc(a, S, R);
  }

  lemma FlatUnit(S: nat, a: nat, k: nat)
    ensures Flat2(1, a, 0) == a
    ensures Flat3(S, 1, a, k, 0) == Flat2(S, a, k)
  {
  }

  predicate Uniform<T>(m: seq<seq<T>>, w: nat)
  {
    forall p :: 0 <= p < |m| ==> |m[p]| == w
  }

  /** Concatenation of the rows: the flat data of a matrix. */
  function Flatten<T>(m: seq<seq<T>>): seq<T>
  {
    if m == [] then [] else m[0] + Flatten(m[1..])
  }

  lemma {:induction false} FlattenAppend<T>(a: seq<seq<T>>, b: seq<seq<T>>)
    ensures Flatten(a + b) == Flatten(a) + Flatten(b)
  {
    if a != [] {
      assert (a + b)[1..] == a[1..] + b;
      FlattenAppend(a[1..], b);
    } else {
      assert a + b == b;
    }
  }

  /** One more row adds its length to the flattened length. */
  lemma FlattenSnocLength<T>(m: seq<seq<T>>, x: seq<T>)
    ensures |Flatten(m + [x])| == |Flatten(m)| + |x|
  {
    FlattenAppend(m, [x]);
    assert [x][1..] == [];
    assert Flatten([x]) == x + Flatten([x][1..]);
  }

  /** An element of the flattened rows sits in some row. */
  lemma {:induction false} FlattenMember<T>(m: seq<seq<T>>, x: T)
    requires x in Flatten(m)
    ensures exists a, c :: 0 <= a < |m| && 0 <= c < |m[a]| && m[a][c] == x
    decreases |m|
  {
    assert m != [];
    if x in m[0] {
      var c :| 0 <= c < |m[0]| && m[0][c] == x;
    } else {
      FlattenMember(m[1..], x);
      var a, c :| 0 <= a < |m| - 1 && 0 <= c < |m[1..][a]| && m[1..][a][c] == x;
      assert m[a + 1][c] == x;
    }
  }

  /** Every element of every row is an element of the flattened rows. */
  lemma {:induction false} FlattenHas<T>(m: seq<seq<T>>, a: nat, c: nat)
    requires a < |m| && c < |m[a]|
    ensures m[a][c] in Flatten(m)
    decreases a
  {
    if a == 0 {
      assert Flatten(m) == m[0] + Flatten(m[1..]);
    } else {
      FlattenHas(m[1..], a - 1, c);
      assert Flatten(m) == m[0] + Flatten(m[1..]);
    }
  }

  /** `view(n, w)` of flat data: n consecutive rows of width w. */
  function Chunks<T>(s: seq<T>, n: nat, w: nat): (m: seq<seq<T>>)
    requires |s| == n * w
    ensures |m| == n && Uniform(m, w)
    decreases n
  {
    if n == 0 then []
    else
      MulPred(n, w);
      [s[..w]] + Chunks(s[w..], n - 1, w)
  }

  lemma {:induction false} FlattenLength<T>(m: seq<seq<T>>, w: nat)
    requires Uniform(m, w)
    ensures |Flatten(m)| == |m| * w
  {
    if m != [] {
      FlattenLength(m[1..], w);
      MulPred(|m|, w);
    }
  }

  lemma {:induction false} FlattenAt<T>(m: seq<seq<T>>, w: nat, p: nat, c: nat)
    requires Uniform(m, w) && p < |m| && c < w
    ensures |Flatten(m)| == |m| * w
    ensures Flat2(w, p, c) < |Flatten(m)| && Flatten(m)[Flat2(w, p, c)] == m[p][c]
  {
    FlattenLength(m, w);
    Flat2Bound(|m|, w, p, c);
    if p > 0 {
      FlattenAt(m[1..], w, p - 1, c);
      Flat2Pred(w, p, c);
    }
  }

  lemma {:induction false} ChunksAt<T>(s: seq<T>, n: nat, w: nat, p: nat, c: nat)
    requires |s| == n * w && p < n && c < w
    ensures Flat2(w, p, c) < |s| && Chunks(s, n, w)[p][c] == s[Flat2(w, p, c)]
    decreases n
  {
    MulPred(n, w);
    Flat2Bound(n, w, p, c);
    var m := Chunks(s, n, w);
    assert m == [s[..w]] + Chunks(s[w..], n - 1, w);
    if p > 0 {
      ChunksAt(s[w..], n - 1, w, p - 1, c);
      Flat2Pred(w, p, c);
      assert m[p] == Chunks(s[w..], n - 1, w)[p - 1];
      assert s[w..][Flat2(w, p - 1, c)] == s[w + Flat2(w, p - 1, c)];
    } else {
      assert Flat2(w, 0, c) == c;
      assert m[0] == s[..w];
    }
  }

  lemma {:induction false} FlattenChunks<T>(s: seq<T>, n: nat, w: nat)
    requires |s| == n * w
    ensures Flatten(Chunks(s, n, w)) == s
    decreases n
  {
    if n > 0 {
      MulPred(n, w);
      FlattenChunks(s[w..], n - 1, w);
      assert Chunks(s, n, w)[1..] == Chunks(s[w..], n - 1, w);
      assert s == s[..w] + s[w..];
    }
  }

  lemma {:induction false} ChunksFlatten<T>(m: seq<seq<T>>, w: nat)
    requires Uniform(m, w)
    ensures |Flatten(m)| == |m| * w
    ensures Chunks(Flatten(m), |m|, w) == m
  {
    FlattenLength(m, w);
    if m != [] {
      ChunksFlatten(m[1..], w);
      var f := Flatten(m);
      assert f[..w] == m[0];
      assert f[w..] == Flatten(m[1..]);
      assert m == [m[0]] + m[1..];
    }
  }

  /** `view(A, S, R)` of flat data: A blocks of S rows of width R. */
  function View3<T>(s: seq<T>, A: nat, S: nat, R: nat): (v: seq<seq<seq<T>>>)
    requires |s| == A * (S * R)
    ensures |v| == A
    ensures forall a :: 0 <= a < A ==> |v[a]| == S && Uniform(v[a], R)
  {
    var blocks := Chunks(s, A, S * R);
    seq(A, a requires 0 <= a < A => Chunks(blocks[a], S, R))
  }

  lemma {:induction false} FlattenSingletons<T>(m: seq<seq<T>>)
    requires forall p :: 0 <= p < |m| ==> |m[p]| == 1
    ensures Flatten(m) == seq(|m|, p requires 0 <= p < |m| => m[p][0])
  {
    if m != [] {
      FlattenSingletons(m[1..]);
    }
  }

  /** The flat data of a three-level tensor. */
  function Flatten3<T>(v: seq<seq<seq<T>>>): seq<T>
  {
    Flatten(seq(|v|, a requires 0 <= a < |v| => Flatten(v[a])))
  }

  lemma View3At<T>(s: seq<T>, A: nat, S: nat, R: nat, a: nat, k: nat, c: nat)
    requires |s| == A * (S * R) && a < A && k < S && c < R
    ensures Flat3(S, R, a, k, c) < |s|
    ensures View3(s, A, S, R)[a][k][c] == s[Flat3(S, R, a, k, c)]
  {
    var blocks := Chunks(s, A, S * R);
    ChunksAt(blocks[a], S, R, k, c);
    Flat2Bound(S, R, k, c);
    ChunksAt(s, A, S * R, a, Flat2(R, k, c));
    Flat3Split(S, R, a, k, c);
  }

  lemma Flatten3At<T>(v: seq<seq<seq<T>>>, S: nat, R: nat, a: nat, k: nat, c: nat)
    requires forall b :: 0 <= b < |v| ==> |v[b]| == S && Uniform(v[b], R)
    requires a < |v| && k < S && c < R
    ensures |Flatten3(v)| == |v| * (S * R)
    ensures |v[a][k]| == R
    ensures Flat3(S, R, a, k, c) < |Flatten3(v)| && Flatten3(v)[Flat3(S, R, a, k, c)] == v[a][k][c]
  {
    var rows := seq(|v|, b requires 0 <= b < |v| => Flatten(v[b]));
    forall b | 0 <= b < |v| ensures |rows[b]| == S * R {
      FlattenLength(v[b], R);
    }
    Flat2Bound(S, R, k, c);
    FlattenAt(rows, S * R, a, Flat2(R, k, c));
    FlattenAt(v[a], R, k, c);
    Flat3Split(S, R, a, k, c);
  }

  lemma Flatten3View3<T>(s: seq<T>, A: nat, S: nat, R: nat)
    requires |s| == A * (S * R)
    ensures Flatten3(View3(s, A, S, R)) == s
  {
    var v := View3(s, A, S, R);
    var blocks := Chunks(s, A, S * R);
    var rows := seq(|v|, b requires 0 <= b < |v| => Flatten(v[b]));
    forall b | 0 <= b < A ensures rows[b] == blocks[b] {
      FlattenChunks(blocks[b], S, R);
    }
    assert rows == blocks;
    FlattenChunks(s, A, S * R);
  }

  lemma View3Flatten3<T>(v: seq<seq<seq<T>>>, S: nat, R: nat)
    requires forall b :: 0 <= b < |v| ==> |v[b]| == S && Uniform(v[b], R)
    ensures |Flatten3(v)| == |v| * (S * R)
    ensures View3(Flatten3(v), |v|, S, R) == v
  {
    var rows := seq(|v|, b requires 0 <= b < |v| => Flatten(v[b]));
    forall b | 0 <= b < |v| ensures |rows[b]| == S * R && Chunks(rows[b], S, R) == v[b] {
      ChunksFlatten(v[b], R);
    }
    ChunksFlatten(rows, S * R);
  }
}
