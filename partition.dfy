/**
 * `make_local_partition` and `make_local_tile`.  Both cut a tensor's view
 * into a grid of equal boxes and return the box a scalar id selects: the id
 * becomes a grid coordinate (last grid dimension fastest) and the box starts
 * at that coordinate times the box extent, mode by mode (a blocked
 * distribution).  A partition fixes the grid (the thread layout) and derives
 * the box; a tile fixes the box (the block shape) and derives the grid.
 */
module Partitioning {
  import opened MixedRadix
  import opened ShapeTree
  import Layouts
  import opened Tensors

  /** `grid` boxes of extent `extent` exactly cover the view of `t`, mode by mode. */
  predicate Tiles(t: Tensor, grid: seq<nat>, extent: seq<nat>) {
    Valid(t) && |grid| == |t.shape| && |extent| == |t.shape|
    && Positive(grid) && Positive(extent)
    && forall d :: 0 <= d < |t.shape| ==> grid[d] * extent[d] == t.shape[d]
  }

  lemma NextMultipleBelow(c: nat, g: nat, e: nat)
    requires c < g
    ensures c * e + e <= g * e
  {
    MulLeq(c + 1, g, e);
  }

  /** The box of grid position `id`: a view of the same buffer and layout with extent `extent`. */
  function Window(t: Tensor, grid: seq<nat>, extent: seq<nat>, id: nat): (w: Tensor)
    requires Tiles(t, grid, extent)
    ensures Valid(w) && w.data == t.data && w.layout == t.layout && w.shape == extent
    ensures TensorSize(w) == Product(extent)
  {
    var c := Decompose(id, grid);
    var w := Tensor(t.data, t.layout, extent, Add(t.origin, Mul(c, extent)));
    assert Valid(w) by {
      forall d | 0 <= d < |extent| ensures w.origin[d] + extent[d] <= SizeOf(t.layout.shape, d) {
        NextMultipleBelow(c[d], grid[d], extent[d]);
      }
    }
    w
  }

  lemma AddAssoc(a: seq<nat>, b: seq<nat>, c: seq<nat>)
    requires |a| == |b| == |c|
    ensures Add(Add(a, b), c) == Add(a, Add(b, c))
  {
  }

  /** A grid coordinate times the extent, plus an index inside the box, stays inside the view. */
  lemma BlockedBox(c: seq<nat>, x: seq<nat>, grid: seq<nat>, extent: seq<nat>, shape: seq<nat>)
    requires InBox(c, grid) && InBox(x, extent) && |shape| == |grid| == |extent|
    requires forall d :: 0 <= d < |shape| ==> grid[d] * extent[d] == shape[d]
    ensures InBox(Add(Mul(c, extent), x), shape)
  {
    var u := Add(Mul(c, extent), x);
    forall d | 0 <= d < |u| ensures u[d] < shape[d] {
      CombinationBelow(c[d], x[d], extent[d], grid[d]);
    }
  }

  /** The mode index of element `i` of box `id`: origin, plus block start, plus position in the box. */
  lemma WindowModeIndex(t: Tensor, grid: seq<nat>, extent: seq<nat>, id: nat, i: nat)
    requires Tiles(t, grid, extent)
    ensures ModeIndex(Window(t, grid, extent, id), i)
         == Add(t.origin, Add(Mul(Decompose(id, grid), extent), ColexDecompose(i, extent)))
  {
    AddAssoc(t.origin, Mul(Decompose(id, grid), extent), ColexDecompose(i, extent));
  }

  /** The parent element that element `i` of box `id` is. */
  function ParentIndex(t: Tensor, grid: seq<nat>, extent: seq<nat>, id: nat, i: nat): (k: nat)
    requires Tiles(t, grid, extent) && i < Product(extent)
    ensures k < TensorSize(t)
    ensures ModeIndex(Window(t, grid, extent, id), i) == ModeIndex(t, k)
  {
    var u := Add(Mul(Decompose(id, grid), extent), ColexDecompose(i, extent));
    BlockedBox(Decompose(id, grid), ColexDecompose(i, extent), grid, extent, t.shape);
    ColexComposeBelow(u, t.shape);
    ColexDecomposeCompose(u, t.shape);
    WindowModeIndex(t, grid, extent, id, i);
    ColexCompose(u, t.shape)
  }

  /** Element `i` of box `id` reads the buffer where the parent's element `ParentIndex` does. */
  lemma WindowElement(t: Tensor, grid: seq<nat>, extent: seq<nat>, id: nat, i: nat)
    requires Tiles(t, grid, extent) && i < Product(extent)
    ensures Offset(Window(t, grid, extent, id), i) == Offset(t, ParentIndex(t, grid, extent, id, i))
  {
  }

  /** No parent element is in two boxes, or twice in one box. */
  lemma WindowsDisjoint(t: Tensor, grid: seq<nat>, extent: seq<nat>, a: nat, b: nat, i: nat, j: nat)
    requires Tiles(t, grid, extent)
    requires a < Product(grid) && b < Product(grid) && i < Product(extent) && j < Product(extent)
    requires ModeIndex(Window(t, grid, extent, a), i) == ModeIndex(Window(t, grid, extent, b), j)
    ensures a == b && i == j
  {
    var ca, cb := Decompose(a, grid), Decompose(b, grid);
    var xa, xb := ColexDecompose(i, extent), ColexDecompose(j, extent);
    var va := ModeIndex(Window(t, grid, extent, a), i);
    var vb := ModeIndex(Window(t, grid, extent, b), j);
    forall d | 0 <= d < |grid| ensures ca[d] == cb[d] && xa[d] == xb[d] {
      assert va[d] == t.origin[d] + ca[d] * extent[d] + xa[d];
      assert vb[d] == t.origin[d] + cb[d] * extent[d] + xb[d];
      DivModOfCombination(ca[d], xa[d], extent[d]);
      DivModOfCombination(cb[d], xb[d], extent[d]);
    }
    assert ca == cb;
    DecomposeInjective(a, b, grid);
    assert xa == xb;
    ColexComposeDecompose(i, extent);
    ColexComposeDecompose(j, extent);
  }

  /** An index inside the view splits into a grid coordinate and a position inside its box. */
  lemma BlockedSplit(u: seq<nat>, grid: seq<nat>, extent: seq<nat>, shape: seq<nat>) returns (c: seq<nat>, x: seq<nat>)
    requires InBox(u, shape) && |grid| == |extent| == |shape| && Positive(extent)
    requires forall d :: 0 <= d < |shape| ==> grid[d] * extent[d] == shape[d]
    ensures InBox(c, grid) && InBox(x, extent)
    ensures Add(Mul(c, extent), x) == u
  {
    c := seq(|u|, d requires 0 <= d < |u| => u[d] / extent[d]);
    x := seq(|u|, d requires 0 <= d < |u| => u[d] % extent[d]);
    forall d | 0 <= d < |u| ensures c[d] < grid[d] && x[d] < extent[d] && c[d] * extent[d] + x[d] == u[d] {
      assert u[d] < extent[d] * grid[d];
      DivBelow(u[d], extent[d], grid[d]);
      DivMod(u[d], extent[d]);
    }
  }

  /** Every parent element is element `i` of some box `id`. */
  lemma WindowsCover(t: Tensor, grid: seq<nat>, extent: seq<nat>, k: nat) returns (id: nat, i: nat)
    requires Tiles(t, grid, extent) && k < TensorSize(t)
    ensures id < Product(grid) && i < Product(extent)
    ensures ModeIndex(Window(t, grid, extent, id), i) == ModeIndex(t, k)
  {
    var u := ColexDecompose(k, t.shape);
    var c, x := BlockedSplit(u, grid, extent, t.shape);
    id := Compose(c, grid);
    DecomposeCompose(c, grid);
    i := ColexCompose(x, extent);
    ColexComposeBelow(x, extent);
    ColexDecomposeCompose(x, extent);
    WindowModeIndex(t, grid, extent, id, i);
  }

  // ---------------------------------------------------------------------
  // make_local_partition
  // ---------------------------------------------------------------------

  /** A thread grid that divides the view tiles it with boxes of the quotient extent. */
  lemma PartitionTiles(t: Tensor, grid: seq<nat>)
    requires Valid(t) && |grid| == |t.shape| && Positive(grid) && DividesAll(grid, t.shape)
    ensures Tiles(t, grid, Quotients(t.shape, grid))
    ensures Product(grid) > 0 && Product(Quotients(t.shape, grid)) == Product(t.shape) / Product(grid)
  {
    QuotientsProduct(t.shape, grid);
    var q := Quotients(t.shape, grid);
    forall d | 0 <= d < |t.shape| ensures grid[d] * q[d] == t.shape[d] {
      assert q[d] * grid[d] == t.shape[d];
    }
  }

  /**
   * `make_local_partition(tensor, thread_layout, thread_id)`: the grid is the
   * thread layout's mode sizes, and each thread's box is the view's extent
   * divided by them.
   */
  function LocalPartition(t: Tensor, threadLayout: Tree, threadId: nat): (p: Tensor)
    requires Valid(t) && AllPositive(threadLayout)
    requires |Modes(threadLayout)| == |t.shape| && DividesAll(ModeSizes(threadLayout), t.shape)
    requires threadId < Size(threadLayout)
    ensures Valid(p) && p.data == t.data && p.layout == t.layout
    ensures forall d :: 0 <= d < |t.shape| ==> SizeOf(threadLayout, d) * p.shape[d] == t.shape[d]
    ensures TensorSize(p) == TensorSize(t) / Size(threadLayout)
  {
    var grid := ModeSizes(threadLayout);
    ModeSizesPositive(threadLayout);
    SizeIsModeProduct(threadLayout);
    PartitionTiles(t, grid);
    Window(t, grid, Quotients(t.shape, grid), threadId)
  }

  /** Partition `threadId` starts at its grid coordinate times the partition's extent. */
  lemma LocalPartitionOrigin(t: Tensor, threadLayout: Tree, threadId: nat)
    requires Valid(t) && AllPositive(threadLayout)
    requires |Modes(threadLayout)| == |t.shape| && DividesAll(ModeSizes(threadLayout), t.shape)
    requires threadId < Size(threadLayout)
    ensures LocalPartition(t, threadLayout, threadId).origin
         == Add(t.origin, Mul(Decompose(threadId, ModeSizes(threadLayout)),
                              Quotients(t.shape, ModeSizes(threadLayout))))
  {
  }

  /** Two threads' partitions share no element, and no partition holds an element twice. */
  lemma PartitionsDisjoint(t: Tensor, threadLayout: Tree, a: nat, b: nat, i: nat, j: nat)
    requires Valid(t) && AllPositive(threadLayout)
    requires |Modes(threadLayout)| == |t.shape| && DividesAll(ModeSizes(threadLayout), t.shape)
    requires a < Size(threadLayout) && b < Size(threadLayout)
    requires i < TensorSize(LocalPartition(t, threadLayout, a))
    requires j < TensorSize(LocalPartition(t, threadLayout, b))
    requires ModeIndex(LocalPartition(t, threadLayout, a), i) == ModeIndex(LocalPartition(t, threadLayout, b), j)
    ensures a == b && i == j
  {
    var grid := ModeSizes(threadLayout);
    ModeSizesPositive(threadLayout);
    SizeIsModeProduct(threadLayout);
    PartitionTiles(t, grid);
    WindowsDisjoint(t, grid, Quotients(t.shape, grid), a, b, i, j);
  }

  /** Every element of the tensor is an element of some thread's partition. */
  lemma PartitionsCover(t: Tensor, threadLayout: Tree, k: nat) returns (threadId: nat, i: nat)
    requires Valid(t) && AllPositive(threadLayout)
    requires |Modes(threadLayout)| == |t.shape| && DividesAll(ModeSizes(threadLayout), t.shape)
    requires k < TensorSize(t)
    ensures threadId < Size(threadLayout)
    ensures i < TensorSize(LocalPartition(t, threadLayout, threadId))
    ensures ModeIndex(LocalPartition(t, threadLayout, threadId), i) == ModeIndex(t, k)
  {
    var grid := ModeSizes(threadLayout);
    ModeSizesPositive(threadLayout);
    SizeIsModeProduct(threadLayout);
    PartitionTiles(t, grid);
    threadId, i := WindowsCover(t, grid, Quotients(t.shape, grid), k);
  }

  // ---------------------------------------------------------------------
  // make_local_tile
  // ---------------------------------------------------------------------

  /** The number of blocks per mode: `size<d>(shape) / size<d>(block_shape)`. */
  function NumBlocks(shape: Tree, blockShape: Tree): (nb: seq<nat>)
    requires AllPositive(blockShape) && |Modes(shape)| == |Modes(blockShape)|
    ensures |nb| == |Modes(shape)|
    ensures forall d :: 0 <= d < |nb| ==> nb[d] == SizeOf(shape, d) / SizeOf(blockShape, d)
    ensures AllPositive(shape) && DividesAll(ModeSizes(blockShape), ModeSizes(shape)) ==>
              Positive(nb) && Product(nb) == Size(shape) / Size(blockShape)
  {
    ModeSizesPositive(blockShape);
    var nb := Quotients(ModeSizes(shape), ModeSizes(blockShape));
    SizeIsModeProduct(shape);
    SizeIsModeProduct(blockShape);
    assert AllPositive(shape) && DividesAll(ModeSizes(blockShape), ModeSizes(shape)) ==>
             Positive(nb) && Product(nb) == Size(shape) / Size(blockShape) by {
      if AllPositive(shape) && DividesAll(ModeSizes(blockShape), ModeSizes(shape)) {
        ModeSizesPositive(shape);
        QuotientsProduct(ModeSizes(shape), ModeSizes(blockShape));
      }
    }
    nb
  }

  /**
   * `make_local_tile(tensor, block_shape, block_idx)`: the box is the block
   * shape's mode sizes, and the grid is the view's extent divided by them.
   */
  function LocalTile(t: Tensor, blockShape: Tree, blockIdx: nat): (r: Tensor)
    requires Valid(t) && AllPositive(blockShape)
    requires |Modes(blockShape)| == |t.shape| && DividesAll(ModeSizes(blockShape), t.shape)
    requires blockIdx < Product(Quotients(t.shape, ModeSizes(blockShape)))
    ensures Valid(r) && r.data == t.data && r.layout == t.layout
    ensures forall d :: 0 <= d < |r.shape| ==> r.shape[d] == SizeOf(blockShape, d)
    ensures TensorSize(r) == Size(blockShape)
  {
    BlockTiles(t, blockShape);
    SizeIsModeProduct(blockShape);
    Window(t, Quotients(t.shape, ModeSizes(blockShape)), ModeSizes(blockShape), blockIdx)
  }

  /**
   * A dividing block shape tiles the view: `num_blocks` boxes of the block
   * extent, `size(tensor) / size(block_shape)` of them.
   */
  lemma BlockTiles(t: Tensor, blockShape: Tree)
    requires Valid(t) && AllPositive(blockShape)
    requires |Modes(blockShape)| == |t.shape| && DividesAll(ModeSizes(blockShape), t.shape)
    ensures Tiles(t, Quotients(t.shape, ModeSizes(blockShape)), ModeSizes(blockShape))
    ensures Product(Quotients(t.shape, ModeSizes(blockShape))) == TensorSize(t) / Size(blockShape)
  {
    var block := ModeSizes(blockShape);
    ModeSizesPositive(blockShape);
    SizeIsModeProduct(blockShape);
    QuotientsProduct(t.shape, block);
    var q := Quotients(t.shape, block);
    forall d | 0 <= d < |t.shape| ensures q[d] * block[d] == t.shape[d] {
    }
  }

  /** Two tiles share no element, and no tile holds an element twice. */
  lemma TilesDisjoint(t: Tensor, blockShape: Tree, a: nat, b: nat, i: nat, j: nat)
    requires Valid(t) && AllPositive(blockShape)
    requires |Modes(blockShape)| == |t.shape| && DividesAll(ModeSizes(blockShape), t.shape)
    requires a < Product(Quotients(t.shape, ModeSizes(blockShape)))
    requires b < Product(Quotients(t.shape, ModeSizes(blockShape)))
    requires i < Size(blockShape) && j < Size(blockShape)
    requires ModeIndex(LocalTile(t, blockShape, a), i) == ModeIndex(LocalTile(t, blockShape, b), j)
    ensures a == b && i == j
  {
    BlockTiles(t, blockShape);
    SizeIsModeProduct(blockShape);
    WindowsDisjoint(t, Quotients(t.shape, ModeSizes(blockShape)), ModeSizes(blockShape), a, b, i, j);
  }

  /** Every element of the tensor is an element of some tile. */
  lemma TilesCover(t: Tensor, blockShape: Tree, k: nat) returns (blockIdx: nat, i: nat)
    requires Valid(t) && AllPositive(blockShape)
    requires |Modes(blockShape)| == |t.shape| && DividesAll(ModeSizes(blockShape), t.shape)
    requires k < TensorSize(t)
    ensures blockIdx < Product(Quotients(t.shape, ModeSizes(blockShape))) && i < Size(blockShape)
    ensures ModeIndex(LocalTile(t, blockShape, blockIdx), i) == ModeIndex(t, k)
  {
    BlockTiles(t, blockShape);
    SizeIsModeProduct(blockShape);
    blockIdx, i := WindowsCover(t, Quotients(t.shape, ModeSizes(blockShape)), ModeSizes(blockShape), k);
  }

  lemma AddZeros(z: seq<nat>, a: seq<nat>)
    requires |z| == |a| && forall k :: 0 <= k < |z| ==> z[k] == 0
    ensures Add(z, a) == a
  {
  }

  /** Tile `blockIdx` starts at its grid coordinate times the block shape. */
  lemma LocalTileOrigin(t: Tensor, blockShape: Tree, blockIdx: nat)
    requires Valid(t) && AllPositive(blockShape)
    requires |Modes(blockShape)| == |t.shape| && DividesAll(ModeSizes(blockShape), t.shape)
    requires blockIdx < Product(Quotients(t.shape, ModeSizes(blockShape)))
    ensures LocalTile(t, blockShape, blockIdx).origin
         == Add(t.origin, Mul(Decompose(blockIdx, Quotients(t.shape, ModeSizes(blockShape))), ModeSizes(blockShape)))
  {
  }

  // ---------------------------------------------------------------------
  // The first element of a tile over a flat layout
  // ---------------------------------------------------------------------

  /** Every top-level mode of the layout is a single leaf. */
  predicate Flat(l: Layouts.Layout) {
    forall d :: 0 <= d < |Modes(l.shape)| ==> Modes(l.shape)[d].Leaf?
  }

  /** `Σ_d c[d] · e[d] · s[d]`, accumulated from the last dimension. */
  function BaseOffset(c: seq<nat>, e: seq<nat>, s: seq<nat>): nat
    requires |c| == |e| == |s|
  {
    if c == [] then 0
    else
      var n := |c| - 1;
      BaseOffset(c[..n], e[..n], s[..n]) + c[n] * e[n] * s[n]
  }

  lemma {:induction false} ModesOffsetSnoc(ms: seq<Tree>, ss: seq<Tree>, v: seq<nat>, m: Tree, s: Tree, x: nat)
    requires CongruentSeq(ms, ss) && AllPositiveSeq(ms) && |v| == |ms|
    requires Congruent(m, s) && AllPositive(m)
    ensures CongruentSeq(ms + [m], ss + [s]) && AllPositiveSeq(ms + [m])
    ensures ModesOffset(ms + [m], ss + [s], v + [x]) == ModesOffset(ms, ss, v) + Layouts.ModeOffset(m, s, x)
  {
    assert CongruentSeq(ms + [m], ss + [s]) by {
      forall k | 0 <= k < |ms| + 1 ensures Congruent((ms + [m])[k], (ss + [s])[k]) {
        if k < |ms| { assert (ms + [m])[k] == ms[k] && (ss + [s])[k] == ss[k]; }
      }
    }
    assert AllPositiveSeq(ms + [m]) by {
      forall k | 0 <= k < |ms| + 1 ensures AllPositive((ms + [m])[k]) {
        if k < |ms| { assert (ms + [m])[k] == ms[k]; }
      }
    }
    if ms == [] {
      assert ModesOffset([m], [s], [x]) == Layouts.ModeOffset(m, s, x) + ModesOffset([], [], []);
    } else {
      assert (ms + [m])[1..] == ms[1..] + [m];
      assert (ss + [s])[1..] == ss[1..] + [s];
      assert (v + [x])[1..] == v[1..] + [x];
      ModesOffsetSnoc(ms[1..], ss[1..], v[1..], m, s, x);
    }
  }

  /** Over leaf modes, the offset of the index `c[d] · e[d]` per mode is the base offset. */
  lemma {:induction false} FlatModesOffset(ms: seq<Tree>, ss: seq<Tree>, c: seq<nat>, e: seq<nat>)
    requires CongruentSeq(ms, ss) && AllPositiveSeq(ms) && |c| == |e| == |ms|
    requires forall d :: 0 <= d < |ms| ==> ms[d].Leaf?
    ensures ModesOffset(ms, ss, Mul(c, e)) == BaseOffset(c, e, SizesSeq(ss))
    decreases |ms|
  {
    if ms != [] {
      var n := |ms| - 1;
      var v := Mul(c, e);
      assert ms == ms[..n] + [ms[n]] && ss == ss[..n] + [ss[n]] && v == v[..n] + [v[n]];
      assert CongruentSeq(ms[..n], ss[..n]) && AllPositiveSeq(ms[..n]);
      assert AllPositive(ms[n]) && Congruent(ms[n], ss[n]);
      ModesOffsetSnoc(ms[..n], ss[..n], v[..n], ms[n], ss[n], v[n]);
      assert v[..n] == Mul(c[..n], e[..n]);
      FlatModesOffset(ms[..n], ss[..n], c[..n], e[..n]);
      assert SizesSeq(ss)[..n] == SizesSeq(ss[..n]);
      assert Layouts.ModeOffset(ms[n], ss[n], v[n]) == v[n] * ss[n].value;
    }
  }

  /**
   * The first element of tile `blockIdx` of a whole tensor over a flat layout
   * sits at `Σ_d coord[d] · size<d>(block_shape) · size<d>(strides)`, where
   * `coord` is `blockIdx` split over the number of blocks, last dimension fastest.
   */
  lemma TileFirstElementFlat(data: seq<int>, l: Layouts.Layout, blockShape: Tree, blockIdx: nat)
    requires Layouts.Valid(l) && Flat(l) && AllPositive(blockShape)
    requires |Modes(blockShape)| == |Modes(l.shape)|
    requires DividesAll(ModeSizes(blockShape), ModeSizes(l.shape))
    requires blockIdx < Product(NumBlocks(l.shape, blockShape))
    ensures |Modes(l.stride)| == |Modes(l.shape)|
    ensures Offset(LocalTile(MakeTensor(data, l), blockShape, blockIdx), 0)
         == BaseOffset(Decompose(blockIdx, NumBlocks(l.shape, blockShape)), ModeSizes(blockShape), ModeSizes(l.stride))
  {
    var t := MakeTensor(data, l);
    var r := LocalTile(t, blockShape, blockIdx);
    var block := ModeSizes(blockShape);
    var c := Decompose(blockIdx, NumBlocks(l.shape, blockShape));
    assert r.origin == Mul(c, block) by {
      assert NumBlocks(l.shape, blockShape) == Quotients(t.shape, block);
      LocalTileOrigin(t, blockShape, blockIdx);
      AddZeros(t.origin, Mul(c, block));
    }
    FirstElementAtOrigin(r);
    CongruentModes(l.shape, l.stride);
    ModeSizesPositive(l.shape);
    FlatModesOffset(Modes(l.shape), Modes(l.stride), c, block);
  }

  /**
   * The first element of thread `threadId`'s partition of a whole tensor over
   * a flat layout sits at `Σ_d coord[d] · extent[d] · size<d>(strides)`, where
   * `coord` is `threadId` split over the thread grid, last dimension fastest,
   * and `extent` is the partition's extent.
   */
  lemma PartitionFirstElementFlat(data: seq<int>, l: Layouts.Layout, threadLayout: Tree, threadId: nat)
    requires Layouts.Valid(l) && Flat(l) && AllPositive(threadLayout)
    requires |Modes(threadLayout)| == |Modes(l.shape)|
    requires DividesAll(ModeSizes(threadLayout), ModeSizes(l.shape))
    requires threadId < Size(threadLayout)
    ensures |Modes(l.stride)| == |Modes(l.shape)|
    ensures Offset(LocalPartition(MakeTensor(data, l), threadLayout, threadId), 0)
         == BaseOffset(Decompose(threadId, ModeSizes(threadLayout)),
                       Quotients(ModeSizes(l.shape), ModeSizes(threadLayout)), ModeSizes(l.stride))
  {
    var t := MakeTensor(data, l);
    var p := LocalPartition(t, threadLayout, threadId);
    var grid := ModeSizes(threadLayout);
    var c := Decompose(threadId, grid);
    var q := Quotients(t.shape, grid);
    assert p.origin == Mul(c, q) by {
      LocalPartitionOrigin(t, threadLayout, threadId);
      AddZeros(t.origin, Mul(c, q));
    }
    FirstElementAtOrigin(p);
    CongruentModes(l.shape, l.stride);
    ModeSizesPositive(l.shape);
    FlatModesOffset(Modes(l.shape), Modes(l.stride), c, q);
  }
}
