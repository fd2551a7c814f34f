/**
 * Mixed-radix arithmetic on flat sequences of extents.
 *
 * Two orders are used by the tensor library:
 *  - `Decompose`/`Compose`: the block and thread grids, where the LAST
 *    dimension varies fastest (row-major);
 *  - `ColexDecompose`/`ColexCompose`: linear element indices into a view,
 *    where the FIRST dimension varies fastest (column-major) and the last
 *    dimension takes whatever quotient remains.
 */
module MixedRadix {

  /** Product of a sequence of extents; 1 for the empty sequence. */
  function Product(rs: seq<nat>): nat {
    if rs == [] then 1 else rs[0] * Product(rs[1..])
  }

  /** Every extent is strictly positive. */
  predicate Positive(rs: seq<nat>) {
    forall k :: 0 <= k < |rs| ==> rs[k] > 0
  }

  /** `c` is a coordinate inside the box spanned by the extents `rs`. */
  predicate InBox(c: seq<nat>, rs: seq<nat>) {
    |c| == |rs| && forall k :: 0 <= k < |c| ==> c[k] < rs[k]
  }

  lemma InBoxCons(x: nat, t: seq<nat>, rs: seq<nat>)
    requires |rs| > 0 && x < rs[0] && InBox(t, rs[1..])
    ensures InBox([x] + t, rs)
  {
    var c := [x] + t;
    forall k | 0 <= k < |c| ensures c[k] < rs[k] {
      if k > 0 { assert c[k] == t[k - 1]; }
    }
  }

  // ---------------------------------------------------------------------
  // Small arithmetic facts about Euclidean division
  // ---------------------------------------------------------------------

  lemma DivModOfCombination(q: nat, r: nat, n: nat)
    requires r < n
    ensures (q * n + r) / n == q && (q * n + r) % n == r
  {
    var x := q * n + r;
    var q', r' := x / n, x % n;
    DivMod(x, n);
    if q' < q {
      MulMono(q' + 1, q, n);
      assert false;
    } else if q' > q {
      MulMono(q + 1, q', n);
      assert false;
    }
  }

  lemma MulMono(a: int, b: int, n: int)
    ensures 0 <= n && a <= b ==> a * n <= b * n
  {}

  lemma DivMod(x: nat, n: nat)
    requires n > 0
    ensures x % n + n * (x / n) == x
  {}

  lemma Distribute(n: nat, x: nat, y: nat)
    ensures n * (x + y) == n * x + n * y
  {}

  lemma MulLeq(a: nat, b: nat, n: nat)
    requires a <= b
    ensures a * n <= b * n
  {}

  lemma DivBelow(x: nat, n: nat, p: nat)
    requires n > 0 && x < n * p
    ensures x / n < p
  {
    DivMod(x, n);
    if x / n >= p {
      MulMono(p, x / n, n);
      assert false;
    }
  }

  lemma CombinationBelow(q: nat, r: nat, n: nat, p: nat)
    requires r < n && q < p
    ensures q * n + r < p * n
  {
    MulLeq(q + 1, p, n);
  }

  // ---------------------------------------------------------------------
  // Product
  // ---------------------------------------------------------------------

  lemma {:induction false} ProductPositive(rs: seq<nat>)
    requires Positive(rs)
    ensures Product(rs) > 0
  {
    if rs != [] {
      ProductPositive(rs[1..]);
    }
  }

  lemma {:induction false} ProductConcat(a: seq<nat>, b: seq<nat>)
    ensures Product(a + b) == Product(a) * Product(b)
  {
    if a != [] {
      assert (a + b)[0] == a[0];
      assert (a + b)[1..] == a[1..] + b;
      ProductConcat(a[1..], b);
    } else {
      assert a + b == b;
    }
  }

  lemma ProductSnoc(a: seq<nat>, x: nat)
    ensures Product(a + [x]) == Product(a) * x
  {
    ProductConcat(a, [x]);
  }

  /** Dot product of two sequences of equal length. */
  function Dot(a: seq<nat>, b: seq<nat>): nat
    requires |a| == |b|
  {
    if a == [] then 0 else a[0] * b[0] + Dot(a[1..], b[1..])
  }

  lemma {:induction false} DotConcat(a: seq<nat>, b: seq<nat>, c: seq<nat>, d: seq<nat>)
    requires |a| == |c| && |b| == |d|
    ensures Dot(a + b, c + d) == Dot(a, c) + Dot(b, d)
  {
    if a == [] {
      assert a + b == b && c + d == d;
    } else {
      assert (a + b)[0] == a[0] && (c + d)[0] == c[0];
      assert (a + b)[1..] == a[1..] + b && (c + d)[1..] == c[1..] + d;
      DotConcat(a[1..], b, c[1..], d);
    }
  }

  // ---------------------------------------------------------------------
  // Last-fastest decomposition of a grid identifier
  // ---------------------------------------------------------------------

  /**
   * The per-dimension coordinate of `id` in the grid `rs`, the last
   * dimension varying fastest: the last coordinate is `id % last`, and the
   * rest is the decomposition of `id / last` over the leading dimensions.
   * Every coordinate is reduced modulo its radix, the first one included.
   */
  function Decompose(id: nat, rs: seq<nat>): (c: seq<nat>)
    requires Positive(rs)
    ensures InBox(c, rs)
    decreases |rs|
  {
    if rs == [] then []
    else
      var n := |rs| - 1;
      Decompose(id / rs[n], rs[..n]) + [id % rs[n]]
  }

  /** The row-major linear identifier of a grid coordinate. */
  function Compose(c: seq<nat>, rs: seq<nat>): (id: nat)
    requires |c| == |rs|
    ensures InBox(c, rs) ==> id < Product(rs)
    decreases |rs|
  {
    if rs == [] then 0
    else
      var n := |rs| - 1;
      var r := Compose(c[..n], rs[..n]) * rs[n] + c[n];
      assert rs == rs[..n] + [rs[n]];
      ProductSnoc(rs[..n], rs[n]);
      assert InBox(c, rs) ==> r < Product(rs) by {
        if InBox(c, rs) {
          assert InBox(c[..n], rs[..n]);
          CombinationBelow(Compose(c[..n], rs[..n]), c[n], rs[n], Product(rs[..n]));
        }
      }
      r
  }

  lemma {:induction false} ComposeDecompose(id: nat, rs: seq<nat>)
    requires Positive(rs) && id < Product(rs)
    ensures Compose(Decompose(id, rs), rs) == id
    decreases |rs|
  {
    if rs != [] {
      var n := |rs| - 1;
      var c := Decompose(id, rs);
      assert rs == rs[..n] + [rs[n]];
      ProductSnoc(rs[..n], rs[n]);
      assert id < rs[n] * Product(rs[..n]);
      DivBelow(id, rs[n], Product(rs[..n]));
      assert c[..n] == Decompose(id / rs[n], rs[..n]);
      assert c[n] == id % rs[n];
      ComposeDecompose(id / rs[n], rs[..n]);
      assert Compose(c, rs) == (id / rs[n]) * rs[n] + id % rs[n];
      DivMod(id, rs[n]);
    }
  }

  lemma {:induction false} DecomposeCompose(c: seq<nat>, rs: seq<nat>)
    requires Positive(rs) && InBox(c, rs)
    ensures Decompose(Compose(c, rs), rs) == c
    decreases |rs|
  {
    if rs != [] {
      var n := |rs| - 1;
      var q := Compose(c[..n], rs[..n]);
      DivModOfCombination(q, c[n], rs[n]);
      assert InBox(c[..n], rs[..n]);
      DecomposeCompose(c[..n], rs[..n]);
      assert c == c[..n] + [c[n]];
    }
  }

  /** Distinct identifiers inside the grid have distinct coordinates. */
  lemma DecomposeInjective(a: nat, b: nat, rs: seq<nat>)
    requires Positive(rs) && a < Product(rs) && b < Product(rs)
    requires Decompose(a, rs) == Decompose(b, rs)
    ensures a == b
  {
    ComposeDecompose(a, rs);
    ComposeDecompose(b, rs);
  }

  // ---------------------------------------------------------------------
  // First-fastest decomposition of a linear element index
  // ---------------------------------------------------------------------

  /**
   * The per-dimension coordinate of the linear index `i` in a view of
   * extents `rs`, the first dimension varying fastest; the last dimension
   * takes the remaining quotient unreduced.
   */
  function ColexDecompose(i: nat, rs: seq<nat>): (c: seq<nat>)
    requires Positive(rs)
    ensures |c| == |rs|
    ensures i < Product(rs) ==> InBox(c, rs)
    decreases |rs|
  {
    if rs == [] then []
    else if |rs| == 1 then
      assert Product(rs) == rs[0] * Product([]) by { assert rs[1..] == []; }
      [i]
    else
      var t := ColexDecompose(i / rs[0], rs[1..]);
      assert i < Product(rs) ==> InBox([i % rs[0]] + t, rs) by {
        if i < Product(rs) {
          DivBelow(i, rs[0], Product(rs[1..]));
          InBoxCons(i % rs[0], t, rs);
        }
      }
      [i % rs[0]] + t
  }

  /** The column-major linear index of a coordinate: `c[0] + rs[0] * (...)`. */
  function ColexCompose(c: seq<nat>, rs: seq<nat>): nat
    requires |c| == |rs|
  {
    if rs == [] then 0 else c[0] + rs[0] * ColexCompose(c[1..], rs[1..])
  }

  /** A coordinate inside the box has a linear index inside the box's size. */
  lemma {:induction false} ColexComposeBelow(c: seq<nat>, rs: seq<nat>)
    requires InBox(c, rs)
    ensures ColexCompose(c, rs) < Product(rs)
  {
    if rs != [] {
      assert InBox(c[1..], rs[1..]);
      ColexComposeBelow(c[1..], rs[1..]);
      CombinationBelow(ColexCompose(c[1..], rs[1..]), c[0], rs[0], Product(rs[1..]));
    }
  }

  lemma {:induction false} ColexComposeDecompose(i: nat, rs: seq<nat>)
    requires Positive(rs) && i < Product(rs)
    ensures ColexCompose(ColexDecompose(i, rs), rs) == i
    decreases |rs|
  {
    var c := ColexDecompose(i, rs);
    if |rs| == 1 {
      assert c == [i] && c[1..] == [] && rs[1..] == [];
      assert ColexCompose(c[1..], rs[1..]) == 0;
      assert rs[0] * 0 == 0;
    } else if |rs| > 1 {
      var q, m := i / rs[0], i % rs[0];
      var t := ColexDecompose(q, rs[1..]);
      assert ColexCompose(t, rs[1..]) == q by {
        DivBelow(i, rs[0], Product(rs[1..]));
        ColexComposeDecompose(q, rs[1..]);
      }
      assert ColexCompose(c, rs) == m + rs[0] * q by {
        assert c[0] == m && c[1..] == t;
      }
      DivMod(i, rs[0]);
    }
  }

  lemma {:induction false} ColexDecomposeCompose(c: seq<nat>, rs: seq<nat>)
    requires Positive(rs) && InBox(c, rs)
    ensures ColexDecompose(ColexCompose(c, rs), rs) == c
  {
    if |rs| == 1 {
      assert c == [c[0]];
    } else if |rs| > 1 {
      var q := ColexCompose(c[1..], rs[1..]);
      assert InBox(c[1..], rs[1..]);
      DivModOfCombination(q, c[0], rs[0]);
      ColexDecomposeCompose(c[1..], rs[1..]);
      assert c == [c[0]] + c[1..];
    }
  }

  /** The linear index 0 has the all-zero coordinate. */
  lemma {:induction false} ColexDecomposeZero(rs: seq<nat>)
    requires Positive(rs)
    ensures forall k :: 0 <= k < |rs| ==> ColexDecompose(0, rs)[k] == 0
  {
    if |rs| > 1 {
      ColexDecomposeZero(rs[1..]);
      assert forall k :: 1 <= k < |rs| ==> ColexDecompose(0, rs)[k] == ColexDecompose(0, rs[1..])[k - 1];
    }
  }

  /** The linear index 1 is one step along the first dimension when it has room. */
  lemma ColexDecomposeOne(rs: seq<nat>)
    requires Positive(rs) && |rs| > 0 && rs[0] > 1
    ensures ColexDecompose(1, rs)[0] == 1
    ensures forall k :: 1 <= k < |rs| ==> ColexDecompose(1, rs)[k] == 0
  {
    if |rs| > 1 {
      DivModOfCombination(0, 1, rs[0]);
      ColexDecomposeZero(rs[1..]);
      assert forall k :: 1 <= k < |rs| ==> ColexDecompose(1, rs)[k] == ColexDecompose(0, rs[1..])[k - 1];
    }
  }

  /** Elementwise sum of two coordinates. */
  function Add(a: seq<nat>, b: seq<nat>): (c: seq<nat>)
    requires |a| == |b|
    ensures |c| == |a| && forall k :: 0 <= k < |c| ==> c[k] == a[k] + b[k]
  {
    seq(|a|, k requires 0 <= k < |a| => a[k] + b[k])
  }

  /** Elementwise product of two coordinates. */
  function Mul(a: seq<nat>, b: seq<nat>): (c: seq<nat>)
    requires |a| == |b|
    ensures |c| == |a| && forall k :: 0 <= k < |c| ==> c[k] == a[k] * b[k]
  {
    seq(|a|, k requires 0 <= k < |a| => a[k] * b[k])
  }

  /** The all-zero coordinate of a given rank. */
  function Zeros(n: nat): (c: seq<nat>)
    ensures |c| == n && forall k :: 0 <= k < n ==> c[k] == 0
  {
    seq(n, k => 0)
  }

  /** `ColexCompose` is linear in the coordinate. */
  lemma {:induction false} ColexComposeAdd(a: seq<nat>, b: seq<nat>, rs: seq<nat>)
    requires |a| == |b| == |rs|
    ensures ColexCompose(Add(a, b), rs) == ColexCompose(a, rs) + ColexCompose(b, rs)
  {
    if rs != [] {
      var s := Add(a, b);
      assert s[0] == a[0] + b[0];
      assert s[1..] == Add(a[1..], b[1..]);
      ColexComposeAdd(a[1..], b[1..], rs[1..]);
      var x, y := ColexCompose(a[1..], rs[1..]), ColexCompose(b[1..], rs[1..]);
      assert ColexCompose(s, rs) == s[0] + rs[0] * (x + y);
      Distribute(rs[0], x, y);
    }
  }

  lemma {:induction false} ColexComposeZeros(c: seq<nat>, rs: seq<nat>)
    requires |c| == |rs| && forall k :: 0 <= k < |c| ==> c[k] == 0
    ensures ColexCompose(c, rs) == 0
  {
    if rs != [] {
      ColexComposeZeros(c[1..], rs[1..]);
      assert rs[0] * 0 == 0;
    }
  }

  /** The unit step along the first dimension has linear index 1. */
  lemma ColexComposeUnit(c: seq<nat>, rs: seq<nat>)
    requires |c| == |rs| > 0 && c[0] == 1 && forall k :: 1 <= k < |c| ==> c[k] == 0
    ensures ColexCompose(c, rs) == 1
  {
    ColexComposeZeros(c[1..], rs[1..]);
    assert rs[0] * 0 == 0;
  }

  // ---------------------------------------------------------------------
  // Elementwise quotients (grid of blocks, block of a grid)
  // ---------------------------------------------------------------------

  /** Every `shape[d]` is a multiple of `grid[d]`. */
  predicate DividesAll(grid: seq<nat>, shape: seq<nat>)
    requires |grid| == |shape| && Positive(grid)
  {
    forall d :: 0 <= d < |shape| ==> shape[d] % grid[d] == 0
  }

  /** `shape[d] / grid[d]` for every dimension. */
  function Quotients(shape: seq<nat>, grid: seq<nat>): (q: seq<nat>)
    requires |grid| == |shape| && Positive(grid)
    ensures |q| == |shape|
    ensures forall d :: 0 <= d < |q| ==> q[d] == shape[d] / grid[d]
  {
    if shape == [] then []
    else [shape[0] / grid[0]] + Quotients(shape[1..], grid[1..])
  }

  lemma QuotientTimesDivisor(s: nat, g: nat)
    requires g > 0 && s % g == 0
    ensures (s / g) * g == s
    ensures s > 0 ==> s / g > 0
  {
    DivMod(s, g);
  }

  /**
   * When the grid divides the shape, the quotients are positive, multiply
   * back to the shape, and their product is the shape's product divided by
   * the grid's.
   */
  lemma {:induction false} QuotientsProduct(shape: seq<nat>, grid: seq<nat>)
    requires |grid| == |shape| && Positive(grid) && Positive(shape) && DividesAll(grid, shape)
    ensures Positive(Quotients(shape, grid))
    ensures forall d :: 0 <= d < |shape| ==> Quotients(shape, grid)[d] * grid[d] == shape[d]
    ensures Product(Quotients(shape, grid)) * Product(grid) == Product(shape)
    ensures Product(grid) > 0 && Product(Quotients(shape, grid)) == Product(shape) / Product(grid)
  {
    var q := Quotients(shape, grid);
    forall d | 0 <= d < |shape| ensures q[d] * grid[d] == shape[d] && q[d] > 0 {
      QuotientTimesDivisor(shape[d], grid[d]);
    }
    if shape != [] {
      QuotientsProduct(shape[1..], grid[1..]);
      assert q[1..] == Quotients(shape[1..], grid[1..]);
      ProductRegroup(q[0], Product(q[1..]), grid[0], Product(grid[1..]));
    }
    ProductPositive(grid);
    DivModOfCombination(Product(q), 0, Product(grid));
  }

  lemma ProductRegroup(a: nat, b: nat, c: nat, d: nat)
    ensures (a * b) * (c * d) == (a * c) * (b * d)
  {}
}
