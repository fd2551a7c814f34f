/**
 * A layout binds a shape tree to a congruent stride tree.  A linear index
 * becomes a coordinate tree (first child fastest, the last child of every
 * node taking the remaining quotient), and a coordinate becomes an offset
 * by the leaf-wise dot product with the strides.
 */
module Layouts {
  import opened MixedRadix
  import opened ShapeTree

  datatype Layout = Layout(shape: Tree, stride: Tree)

  /** Why `make_layout` refuses its arguments. */
  datatype LayoutError = StructureError | ExtentError

  datatype Result<T> = Ok(value: T) | Err(error: LayoutError)

  /** Congruent shape and stride trees, with strictly positive extents. */
  predicate Valid(l: Layout) {
    Congruent(l.shape, l.stride) && AllPositive(l.shape)
  }

  /**
   * `make_layout(shape, stride)`: a checked construction.  Incongruent trees
   * are a StructureError; congruent trees with a zero extent an ExtentError.
   */
  function MakeLayout(shape: Tree, stride: Tree): (r: Result<Layout>)
    ensures r.Ok? <==> Congruent(shape, stride) && AllPositive(shape)
    ensures r.Ok? ==> r.value == Layout(shape, stride) && Valid(r.value)
    ensures r.Err? ==> (r.error == StructureError <==> !Congruent(shape, stride))
  {
    if !Congruent(shape, stride) then Err(StructureError)
    else if !AllPositive(shape) then Err(ExtentError)
    else Ok(Layout(shape, stride))
  }

  // ---------------------------------------------------------------------
  // Coordinates
  // ---------------------------------------------------------------------

  /** Every coordinate leaf lies below the matching extent. */
  predicate Bounded(crd: Tree, shape: Tree)
    decreases crd
  {
    match (crd, shape)
    case (Leaf(c), Leaf(n)) => c < n
    case (Node(xs), Node(ys)) => BoundedSeq(xs, ys)
    case _ => false
  }

  predicate BoundedSeq(xs: seq<Tree>, ys: seq<Tree>)
    decreases xs
  {
    |xs| == |ys| && forall k :: 0 <= k < |xs| ==> Bounded(xs[k], ys[k])
  }

  lemma CongruentSeqCons(h: Tree, t: seq<Tree>, cs: seq<Tree>)
    requires |cs| > 0 && Congruent(h, cs[0]) && CongruentSeq(t, cs[1..])
    ensures CongruentSeq([h] + t, cs)
  {
    var xs := [h] + t;
    forall k | 0 <= k < |xs| ensures Congruent(xs[k], cs[k]) {
      if k > 0 { assert xs[k] == t[k - 1]; }
    }
  }

  lemma BoundedSeqCons(h: Tree, t: seq<Tree>, cs: seq<Tree>)
    requires |cs| > 0 && Bounded(h, cs[0]) && BoundedSeq(t, cs[1..])
    ensures BoundedSeq([h] + t, cs)
  {
    var xs := [h] + t;
    forall k | 0 <= k < |xs| ensures Bounded(xs[k], cs[k]) {
      if k > 0 { assert xs[k] == t[k - 1]; }
    }
  }

  lemma SizeSeqSingle(cs: seq<Tree>)
    requires |cs| == 1
    ensures SizeSeq(cs) == Size(cs[0])
  {
    assert SizeSeq(cs[1..]) == 1;
  }

  /** The coordinate tree of the linear index `x`: first child fastest, last child taking the rest of the quotient. */
  function IdxToCrd(shape: Tree, x: nat): (crd: Tree)
    requires AllPositive(shape)
    ensures Congruent(crd, shape)
    ensures x < Size(shape) ==> Bounded(crd, shape)
    decreases shape
  {
    match shape
    case Leaf(_) => Leaf(x)
    case Node(cs) => Node(CrdSeq(cs, x))
  }

  function CrdSeq(cs: seq<Tree>, x: nat): (crds: seq<Tree>)
    requires AllPositiveSeq(cs)
    ensures CongruentSeq(crds, cs)
    ensures x < SizeSeq(cs) ==> BoundedSeq(crds, cs)
    decreases cs
  {
    if cs == [] then []
    else
      assert AllPositive(cs[0]) && AllPositiveSeq(cs[1..]);
      if |cs| == 1 then
        SizeSeqSingle(cs);
        [IdxToCrd(cs[0], x)]
      else
        var s := Size(cs[0]);
        var head := IdxToCrd(cs[0], x % s);
        var tail := CrdSeq(cs[1..], x / s);
        CongruentSeqCons(head, tail, cs);
        assert x < SizeSeq(cs) ==> BoundedSeq([head] + tail, cs) by {
          if x < SizeSeq(cs) {
            DivBelow(x, s, SizeSeq(cs[1..]));
            BoundedSeqCons(head, tail, cs);
          }
        }
        [head] + tail
  }

  /** The linear index of a coordinate tree. */
  function CrdToIdx(shape: Tree, crd: Tree): (x: nat)
    requires Congruent(crd, shape)
    ensures Bounded(crd, shape) ==> x < Size(shape)
    decreases shape
  {
    if shape.Leaf? then crd.value
    else IdxSeq(shape.children, crd.children)
  }

  function IdxSeq(cs: seq<Tree>, xs: seq<Tree>): (x: nat)
    requires CongruentSeq(xs, cs)
    ensures BoundedSeq(xs, cs) ==> x < SizeSeq(cs)
    decreases cs
  {
    if cs == [] then 0
    else if |cs| == 1 then
      SizeSeqSingle(cs);
      CrdToIdx(cs[0], xs[0])
    else
      var s := Size(cs[0]);
      var h := CrdToIdx(cs[0], xs[0]);
      var t := IdxSeq(cs[1..], xs[1..]);
      assert BoundedSeq(xs, cs) ==> h + s * t < SizeSeq(cs) by {
        if BoundedSeq(xs, cs) {
          assert Bounded(xs[0], cs[0]) && BoundedSeq(xs[1..], cs[1..]);
          var p := SizeSeq(cs[1..]);
          CombinationBelow(t, h, s, p);
          assert t * s == s * t && p * s == s * p && SizeSeq(cs) == s * p;
        }
      }
      h + s * t
  }

  /** Index to coordinate and back is the identity on the layout's domain. */
  lemma {:induction false} CrdIdxRoundTrip(shape: Tree, x: nat)
    requires AllPositive(shape) && x < Size(shape)
    ensures CrdToIdx(shape, IdxToCrd(shape, x)) == x
    decreases shape
  {
    match shape
    case Leaf(_) =>
    case Node(cs) => CrdIdxRoundTripSeq(cs, x);
  }

  lemma {:induction false} CrdIdxRoundTripSeq(cs: seq<Tree>, x: nat)
    requires AllPositiveSeq(cs) && x < SizeSeq(cs)
    ensures IdxSeq(cs, CrdSeq(cs, x)) == x
    decreases cs
  {
    if |cs| == 1 {
      SizeSeqSingle(cs);
      CrdIdxRoundTrip(cs[0], x);
    } else if |cs| > 1 {
      var s := Size(cs[0]);
      var crds := CrdSeq(cs, x);
      assert crds[0] == IdxToCrd(cs[0], x % s) && crds[1..] == CrdSeq(cs[1..], x / s);
      assert IdxSeq(cs[1..], crds[1..]) == x / s by {
        DivBelow(x, s, SizeSeq(cs[1..]));
        CrdIdxRoundTripSeq(cs[1..], x / s);
      }
      assert CrdToIdx(cs[0], crds[0]) == x % s by {
        CrdIdxRoundTrip(cs[0], x % s);
      }
      assert IdxSeq(cs, crds) == x % s + s * (x / s);
      DivMod(x, s);
    }
  }

  /** Coordinate to index and back is the identity on bounded coordinates. */
  lemma {:induction false} IdxCrdRoundTrip(shape: Tree, crd: Tree)
    requires AllPositive(shape) && Congruent(crd, shape) && Bounded(crd, shape)
    ensures IdxToCrd(shape, CrdToIdx(shape, crd)) == crd
    decreases shape
  {
    match shape
    case Leaf(_) =>
    case Node(cs) => IdxCrdRoundTripSeq(cs, crd.children);
  }

  lemma {:induction false} IdxCrdRoundTripSeq(cs: seq<Tree>, xs: seq<Tree>)
    requires AllPositiveSeq(cs) && CongruentSeq(xs, cs) && BoundedSeq(xs, cs)
    ensures CrdSeq(cs, IdxSeq(cs, xs)) == xs
    decreases cs
  {
    if |cs| == 1 {
      IdxCrdRoundTrip(cs[0], xs[0]);
      assert xs == [xs[0]];
    } else if |cs| > 1 {
      var s := Size(cs[0]);
      var h := CrdToIdx(cs[0], xs[0]);
      var t := IdxSeq(cs[1..], xs[1..]);
      var x := IdxSeq(cs, xs);
      assert h < s && x == h + s * t;
      assert s * t == t * s;
      DivModOfCombination(t, h, s);
      assert CrdSeq(cs, x) == [IdxToCrd(cs[0], x % s)] + CrdSeq(cs[1..], x / s);
      IdxCrdRoundTrip(cs[0], xs[0]);
      IdxCrdRoundTripSeq(cs[1..], xs[1..]);
      assert xs == [xs[0]] + xs[1..];
    }
  }

  // ---------------------------------------------------------------------
  // Offsets
  // ---------------------------------------------------------------------

  /** The offset of a coordinate: leaf coordinate times leaf stride, summed over the tree. */
  function CrdOffset(crd: Tree, stride: Tree): nat
    requires Congruent(crd, stride)
    decreases crd
  {
    if crd.Leaf? then crd.value * stride.value
    else DotSeq(crd.children, stride.children)
  }

  function DotSeq(xs: seq<Tree>, ys: seq<Tree>): nat
    requires CongruentSeq(xs, ys)
    decreases xs
  {
    if xs == [] then 0 else CrdOffset(xs[0], ys[0]) + DotSeq(xs[1..], ys[1..])
  }

  /** The offset of the linear index `x` within one (possibly nested) mode. */
  function ModeOffset(shape: Tree, stride: Tree, x: nat): nat
    requires Congruent(shape, stride) && AllPositive(shape)
  {
    var crd := IdxToCrd(shape, x);
    CongruentTransitive(crd, shape, stride);
    CrdOffset(crd, stride)
  }

  /** `layout(i)`: the offset of the linear index `i`. */
  function LinearOffset(l: Layout, i: nat): nat
    requires Valid(l)
  {
    ModeOffset(l.shape, l.stride, i)
  }

  /**
   * The offset of a coordinate is the dot product of its leaves with the
   * stride leaves: merged dimensions are addressed leaf by leaf.
   */
  lemma {:induction false} CrdOffsetIsLeafDot(crd: Tree, stride: Tree)
    requires Congruent(crd, stride)
    ensures |Leaves(crd)| == |Leaves(stride)|
    ensures CrdOffset(crd, stride) == Dot(Leaves(crd), Leaves(stride))
    decreases crd
  {
    CongruentLeaves(crd, stride);
    if crd.Leaf? {
      assert Dot([crd.value], [stride.value]) == crd.value * stride.value + Dot([], []);
    } else {
      DotSeqIsLeafDot(crd.children, stride.children);
    }
  }

  lemma {:induction false} DotSeqIsLeafDot(xs: seq<Tree>, ys: seq<Tree>)
    requires CongruentSeq(xs, ys)
    ensures |LeavesSeq(xs)| == |LeavesSeq(ys)|
    ensures DotSeq(xs, ys) == Dot(LeavesSeq(xs), LeavesSeq(ys))
    decreases xs
  {
    CongruentLeavesSeq(xs, ys);
    if xs != [] {
      CrdOffsetIsLeafDot(xs[0], ys[0]);
      DotSeqIsLeafDot(xs[1..], ys[1..]);
      DotConcat(Leaves(xs[0]), LeavesSeq(xs[1..]), Leaves(ys[0]), LeavesSeq(ys[1..]));
    }
  }

  /** The offset of a linear index is the leaf-wise dot product of its coordinate with the strides. */
  lemma LinearOffsetIsLeafDot(l: Layout, i: nat)
    requires Valid(l)
    ensures |Leaves(IdxToCrd(l.shape, i))| == |Leaves(l.stride)|
    ensures LinearOffset(l, i) == Dot(Leaves(IdxToCrd(l.shape, i)), Leaves(l.stride))
  {
    var crd := IdxToCrd(l.shape, i);
    CongruentTransitive(crd, l.shape, l.stride);
    CrdOffsetIsLeafDot(crd, l.stride);
  }

  // ---------------------------------------------------------------------
  // Compact (column-major) strides
  // ---------------------------------------------------------------------

  /**
   * The packed column-major strides of a shape, starting at `m`: each leaf's
   * stride is `m` times the product of all extents before it.
   */
  function CompactStride(shape: Tree, m: nat): (stride: Tree)
    ensures Congruent(shape, stride)
    decreases shape
  {
    match shape
    case Leaf(_) => Leaf(m)
    case Node(cs) => Node(CompactSeq(cs, m))
  }

  function CompactSeq(cs: seq<Tree>, m: nat): (ss: seq<Tree>)
    ensures CongruentSeq(cs, ss)
    decreases cs
  {
    if cs == [] then []
    else
      var h := CompactStride(cs[0], m);
      var t := CompactSeq(cs[1..], m * Size(cs[0]));
      assert CongruentSeq(cs, [h] + t) by {
        var ss := [h] + t;
        forall k | 0 <= k < |cs| ensures Congruent(cs[k], ss[k]) {
          if k > 0 { assert ss[k] == t[k - 1]; }
        }
      }
      [h] + t
  }

  lemma ScaledDivMod(m: nat, x: nat, s: nat)
    requires s > 0
    ensures m * (x % s) + (m * s) * (x / s) == m * x
  {
    DivMod(x, s);
    assert m * x == m * (x % s + s * (x / s));
  }

  /** Under compact strides a mode maps the linear index `x` to `m * x`. */
  lemma {:induction false} CompactOffsetIsScaled(shape: Tree, m: nat, x: nat)
    requires AllPositive(shape) && x < Size(shape)
    ensures ModeOffset(shape, CompactStride(shape, m), x) == m * x
    decreases shape
  {
    match shape
    case Leaf(_) =>
    case Node(cs) => CompactSeqOffsetIsScaled(cs, m, x);
  }

  lemma {:induction false} CompactSeqOffsetIsScaled(cs: seq<Tree>, m: nat, x: nat)
    requires AllPositiveSeq(cs) && x < SizeSeq(cs)
    ensures CongruentSeq(CrdSeq(cs, x), CompactSeq(cs, m))
    ensures DotSeq(CrdSeq(cs, x), CompactSeq(cs, m)) == m * x
    decreases cs
  {
    CongruentSeqTransitive(CrdSeq(cs, x), cs, CompactSeq(cs, m));
    var crds, ss := CrdSeq(cs, x), CompactSeq(cs, m);
    if cs == [] {
      assert x == 0;
    } else if |cs| == 1 {
      SizeSeqSingle(cs);
      assert crds == [IdxToCrd(cs[0], x)] && ss[0] == CompactStride(cs[0], m);
      assert DotSeq(crds, ss) == CrdOffset(crds[0], ss[0]) + DotSeq([], []);
      CompactOffsetIsScaled(cs[0], m, x);
    } else {
      assert AllPositive(cs[0]) && AllPositiveSeq(cs[1..]);
      var s := Size(cs[0]);
      assert crds[0] == IdxToCrd(cs[0], x % s) && crds[1..] == CrdSeq(cs[1..], x / s);
      assert ss[0] == CompactStride(cs[0], m) && ss[1..] == CompactSeq(cs[1..], m * s);
      assert CrdOffset(crds[0], ss[0]) == m * (x % s) by {
        CompactOffsetIsScaled(cs[0], m, x % s);
      }
      assert DotSeq(crds[1..], ss[1..]) == (m * s) * (x / s) by {
        DivBelow(x, s, SizeSeq(cs[1..]));
        CompactSeqOffsetIsScaled(cs[1..], m * s, x / s);
      }
      ScaledDivMod(m, x, s);
    }
  }

  lemma CongruentSeqTransitive(xs: seq<Tree>, ys: seq<Tree>, zs: seq<Tree>)
    requires CongruentSeq(xs, ys) && CongruentSeq(ys, zs)
    ensures CongruentSeq(xs, zs)
  {
    forall k | 0 <= k < |xs| ensures Congruent(xs[k], zs[k]) {
      CongruentTransitive(xs[k], ys[k], zs[k]);
    }
  }

  /** A compact layout with unit leading stride maps every index in its domain to itself. */
  lemma CompactLayoutIsIdentity(shape: Tree, i: nat)
    requires AllPositive(shape) && i < Size(shape)
    ensures Valid(Layout(shape, CompactStride(shape, 1)))
    ensures LinearOffset(Layout(shape, CompactStride(shape, 1)), i) == i
  {
    CompactOffsetIsScaled(shape, 1, i);
  }
}
