/**
 * A tensor is a buffer addressed through a layout.  A tensor made by
 * `make_tensor` views the whole layout; a partition or a tile views a box of
 * it: the same buffer and layout, its own extent per top-level mode (`shape`)
 * and a per-mode starting index (`origin`).  Element `i` of a view is found
 * by splitting `i` over the view's extents (first mode fastest), shifting the
 * result by the origin, and handing each mode's index to the layout.
 */
module Tensors {
  import opened MixedRadix
  import opened ShapeTree
  import opened Layouts

  datatype Tensor = Tensor(data: seq<int>, layout: Layout, shape: seq<nat>, origin: seq<nat>)

  /** A valid layout, one extent and one origin per top-level mode, and the box inside the layout. */
  predicate Valid(t: Tensor) {
    Layouts.Valid(t.layout)
    && |t.shape| == |Modes(t.layout.shape)| && |t.origin| == |t.shape|
    && Positive(t.shape)
    && forall d :: 0 <= d < |t.shape| ==> t.origin[d] + t.shape[d] <= SizeOf(t.layout.shape, d)
  }

  /** The buffer `std::iota` fills: the value at position k is k. */
  function Iota(n: nat): (data: seq<int>)
    ensures |data| == n && forall k :: 0 <= k < n ==> data[k] == k
  {
    seq(n, k => k)
  }

  /** `make_tensor(data, layout)`: a view of the whole layout. */
  function MakeTensor(data: seq<int>, l: Layout): (t: Tensor)
    requires Layouts.Valid(l)
    ensures Valid(t) && t.data == data && t.layout == l
    ensures TensorSize(t) == Size(l.shape)
  {
    ModeSizesPositive(l.shape);
    SizeIsModeProduct(l.shape);
    Tensor(data, l, ModeSizes(l.shape), Zeros(|Modes(l.shape)|))
  }

  /** `size(tensor)`: the number of elements the view holds. */
  function TensorSize(t: Tensor): (n: nat)
    ensures Positive(t.shape) ==> n > 0
  {
    assert Positive(t.shape) ==> Product(t.shape) > 0 by {
      if Positive(t.shape) { ProductPositive(t.shape); }
    }
    Product(t.shape)
  }

  /**
   * The per-mode index of element `i`: the view coordinate of `i` shifted by
   * the origin.  Elements of the view land inside the layout's modes.
   */
  function ModeIndex(t: Tensor, i: nat): (v: seq<nat>)
    requires Valid(t)
    ensures |v| == |Modes(t.layout.shape)|
    ensures i < TensorSize(t) ==> InBox(v, ModeSizes(t.layout.shape))
  {
    var c := ColexDecompose(i, t.shape);
    var v := Add(t.origin, c);
    assert i < TensorSize(t) ==> InBox(v, ModeSizes(t.layout.shape)) by {
      if i < TensorSize(t) {
        forall d | 0 <= d < |v| ensures v[d] < ModeSizes(t.layout.shape)[d] {
          assert c[d] < t.shape[d];
        }
      }
    }
    v
  }

  /** The offset addressed by one index per mode: the sum of each mode's own offset. */
  function ModesOffset(ms: seq<Tree>, ss: seq<Tree>, v: seq<nat>): nat
    requires CongruentSeq(ms, ss) && AllPositiveSeq(ms) && |v| == |ms|
  {
    if ms == [] then 0
    else
      assert AllPositive(ms[0]) && Congruent(ms[0], ss[0]);
      ModeOffset(ms[0], ss[0], v[0]) + ModesOffset(ms[1..], ss[1..], v[1..])
  }

  /** The buffer position of element `i`. */
  function Offset(t: Tensor, i: nat): nat
    requires Valid(t)
  {
    CongruentModes(t.layout.shape, t.layout.stride);
    ModeSizesPositive(t.layout.shape);
    ModesOffset(Modes(t.layout.shape), Modes(t.layout.stride), ModeIndex(t, i))
  }

  /** `tensor(i)`: the buffer value at element `i`'s offset. */
  function Element(t: Tensor, i: nat): (v: int)
    requires Valid(t) && Offset(t, i) < |t.data|
    ensures v in t.data
  {
    t.data[Offset(t, i)]
  }

  // ---------------------------------------------------------------------
  // Views address the layout at the parent's linear index
  // ---------------------------------------------------------------------

  /**
   * Splitting a linear index over a node's children and reading each child's
   * offset is the same as splitting the index over the children's sizes and
   * summing the per-mode offsets.
   */
  lemma {:induction false} DotSeqCrdSeq(cs: seq<Tree>, ss: seq<Tree>, x: nat)
    requires AllPositiveSeq(cs) && CongruentSeq(cs, ss) && Positive(SizesSeq(cs))
    ensures CongruentSeq(CrdSeq(cs, x), ss)
    ensures DotSeq(CrdSeq(cs, x), ss) == ModesOffset(cs, ss, ColexDecompose(x, SizesSeq(cs)))
    decreases cs
  {
    CongruentSeqTransitive(CrdSeq(cs, x), cs, ss);
    var rs := SizesSeq(cs);
    var v := ColexDecompose(x, rs);
    if |cs| == 1 {
      assert CrdSeq(cs, x) == [IdxToCrd(cs[0], x)];
      assert v == [x];
      assert ModesOffset(cs[1..], ss[1..], v[1..]) == 0;
      assert DotSeq(CrdSeq(cs, x)[1..], ss[1..]) == 0;
    } else if |cs| > 1 {
      var s := Size(cs[0]);
      assert AllPositive(cs[0]);
      var tail := CrdSeq(cs[1..], x / s);
      assert CrdSeq(cs, x) == [IdxToCrd(cs[0], x % s)] + tail;
      assert rs[0] == s && rs[1..] == SizesSeq(cs[1..]);
      assert v == [x % s] + ColexDecompose(x / s, SizesSeq(cs[1..]));
      DotSeqCrdSeq(cs[1..], ss[1..], x / s);
      assert CrdSeq(cs, x)[1..] == tail;
      assert v[1..] == ColexDecompose(x / s, SizesSeq(cs[1..]));
    }
  }

  /**
   * Addressing a layout mode by mode is addressing it at the column-major
   * linear index of the mode indices.
   */
  lemma ModesOffsetIsLinear(l: Layout, v: seq<nat>)
    requires Layouts.Valid(l) && InBox(v, ModeSizes(l.shape))
    ensures CongruentSeq(Modes(l.shape), Modes(l.stride)) && AllPositiveSeq(Modes(l.shape))
    ensures ModesOffset(Modes(l.shape), Modes(l.stride), v)
         == LinearOffset(l, ColexCompose(v, ModeSizes(l.shape)))
  {
    CongruentModes(l.shape, l.stride);
    ModeSizesPositive(l.shape);
    var rs := ModeSizes(l.shape);
    var x := ColexCompose(v, rs);
    ColexDecomposeCompose(v, rs);
    match l.shape
    case Leaf(n) =>
      assert v == [v[0]] && rs == [n];
      assert x == v[0] + n * ColexCompose([], []);
      assert ModesOffset(Modes(l.shape), Modes(l.stride), v)
          == ModeOffset(l.shape, l.stride, v[0]) + ModesOffset([], [], []);
    case Node(cs) =>
      assert Modes(l.stride) == l.stride.children;
      DotSeqCrdSeq(cs, l.stride.children, x);
  }

  /**
   * Element `i` of any view sits at the layout offset of the parent's linear
   * index built from its mode indices; that index lies inside the layout.
   */
  lemma ViewOffset(t: Tensor, i: nat)
    requires Valid(t) && i < TensorSize(t)
    ensures ColexCompose(ModeIndex(t, i), ModeSizes(t.layout.shape)) < Size(t.layout.shape)
    ensures Offset(t, i) == LinearOffset(t.layout, ColexCompose(ModeIndex(t, i), ModeSizes(t.layout.shape)))
  {
    ModesOffsetIsLinear(t.layout, ModeIndex(t, i));
    ColexComposeBelow(ModeIndex(t, i), ModeSizes(t.layout.shape));
    SizeIsModeProduct(t.layout.shape);
  }

  /** A tensor over a whole layout reads element `i` at `layout(i)`. */
  lemma PlainOffsetIsLinear(data: seq<int>, l: Layout, i: nat)
    requires Layouts.Valid(l) && i < Size(l.shape)
    ensures Offset(MakeTensor(data, l), i) == LinearOffset(l, i)
  {
    var t := MakeTensor(data, l);
    var c := ColexDecompose(i, t.shape);
    assert ModeIndex(t, i) == c;
    ViewOffset(t, i);
    ColexComposeDecompose(i, t.shape);
  }

  /** Element 0 of every view is the view's origin. */
  lemma FirstElementAtOrigin(t: Tensor)
    requires Valid(t)
    ensures ModeIndex(t, 0) == t.origin
  {
    ColexDecomposeZero(t.shape);
  }

  // ---------------------------------------------------------------------
  // Compact layouts
  // ---------------------------------------------------------------------

  /** The strides are the packed column-major strides of the shape. */
  predicate Compact(l: Layout) {
    l.stride == CompactStride(l.shape, 1)
  }

  /** Over a compact layout, element `i` of a view is at its parent linear index. */
  lemma CompactOffset(t: Tensor, i: nat)
    requires Valid(t) && Compact(t.layout) && i < TensorSize(t)
    ensures Offset(t, i) == ColexCompose(ModeIndex(t, i), ModeSizes(t.layout.shape))
    ensures Offset(t, i) < Size(t.layout.shape)
  {
    ViewOffset(t, i);
    CompactLayoutIsIdentity(t.layout.shape, ColexCompose(ModeIndex(t, i), ModeSizes(t.layout.shape)));
  }

  lemma ProductAtLeastFirst(rs: seq<nat>)
    requires Positive(rs) && |rs| > 0
    ensures Product(rs) >= rs[0]
  {
    ProductPositive(rs[1..]);
    MulLeq(1, Product(rs[1..]), rs[0]);
  }

  /** Over a compact layout, element 1 of a view follows element 0 when mode 0 has room. */
  lemma CompactNextElement(t: Tensor)
    requires Valid(t) && Compact(t.layout) && |t.shape| > 0 && t.shape[0] > 1
    ensures 1 < TensorSize(t)
    ensures Offset(t, 1) == Offset(t, 0) + 1
  {
    ProductAtLeastFirst(t.shape);
    CompactOffset(t, 0);
    CompactOffset(t, 1);
    FirstElementAtOrigin(t);
    var rs := ModeSizes(t.layout.shape);
    var e := ColexDecompose(1, t.shape);
    ColexDecomposeOne(t.shape);
    assert ModeIndex(t, 1) == Add(t.origin, e);
    ColexComposeAdd(t.origin, e, rs);
    ColexComposeUnit(e, rs);
  }
}
