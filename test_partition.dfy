/**
 * The two scenarios `test/wrapper/test_partition.cpp` checks: a 256-element
 * `iota` buffer behind the layouts `((16,4),4):((1,16),64)` and
 * `(16,4,4):(1,16,64)`, cut by the thread layout `(8,1)` into eight
 * partitions and by the block shape `(2,4,2)` into sixteen tiles.
 */
module TestPartition {
  import opened MixedRadix
  import opened ShapeTree
  import Layouts
  import opened Tensors
  import opened Partitioning

  const PartitionShape: Tree := Node([Node([Leaf(16), Leaf(4)]), Leaf(4)])
  const PartitionStrides: Tree := Node([Node([Leaf(1), Leaf(16)]), Leaf(64)])
  const ThreadSteps: Tree := Node([Leaf(8), Leaf(1)])
  const ThreadLayout: Tree := Node([Leaf(8), Leaf(1)])

  const TileShape: Tree := Node([Leaf(16), Leaf(4), Leaf(4)])
  const TileStrides: Tree := Node([Leaf(1), Leaf(16), Leaf(64)])
  const BlockShape: Tree := Node([Leaf(2), Leaf(4), Leaf(2)])

  const PartitionLayout: Layouts.Layout := Layouts.Layout(PartitionShape, PartitionStrides)
  const TileLayout: Layouts.Layout := Layouts.Layout(TileShape, TileStrides)

  /** Both layouts are accepted by `make_layout`, hold 256 elements and are packed column-major. */
  lemma LayoutFacts()
    ensures Layouts.MakeLayout(PartitionShape, PartitionStrides) == Layouts.Ok(PartitionLayout)
    ensures Layouts.MakeLayout(TileShape, TileStrides) == Layouts.Ok(TileLayout)
    ensures Size(PartitionShape) == 256 && Size(TileShape) == 256
    ensures ModeSizes(PartitionShape) == [64, 4] && ModeSizes(TileShape) == [16, 4, 4]
    ensures Compact(PartitionLayout)
    ensures Compact(TileLayout) && Flat(TileLayout)
  {
    var inner := Node([Leaf(16), Leaf(4)]);
    assert Layouts.CompactStride(inner, 1) == Node([Leaf(1), Leaf(16)]);
    assert Size(inner) == 64;
    assert Layouts.CompactSeq([Leaf(4)], 64) == [Leaf(64)];
    assert Layouts.CompactSeq([inner, Leaf(4)], 1)
        == [Layouts.CompactStride(inner, 1)] + Layouts.CompactSeq([Leaf(4)], 1 * Size(inner));
  }

  /** The partition test's thread grid is 8 along mode 0 and 1 along mode 1: mode 0 is split eight ways, mode 1 not at all. */
  lemma ThreadFacts()
    ensures AllPositive(ThreadLayout) && ModeSizes(ThreadLayout) == [8, 1] && Size(ThreadLayout) == 8
    ensures SizeOf(ThreadSteps, 0) == 8
    ensures DividesAll([8, 1], [64, 4]) && Quotients([64, 4], [8, 1]) == [8, 4]
  {
  }

  /** `num_blocks` of the tile test is `(8,1,2)`: sixteen tiles of sixteen elements. */
  lemma BlockFacts()
    ensures AllPositive(BlockShape) && ModeSizes(BlockShape) == [2, 4, 2] && Size(BlockShape) == 16
    ensures DividesAll([2, 4, 2], [16, 4, 4])
    ensures NumBlocks(TileShape, BlockShape) == [8, 1, 2] && Product([8, 1, 2]) == 16
  {
    assert ModeSizes(TileShape) == [16, 4, 4];
  }

  /** Thread `threadId` sits at grid coordinate `(threadId, 0)`. */
  lemma ThreadCoordinate(threadId: nat)
    requires threadId < 8
    ensures Decompose(threadId, [8, 1]) == [threadId, 0]
  {
    assert [8, 1][..1] == [8] && [8][..0] == [];
    assert Decompose(threadId, [8]) == Decompose(threadId / 8, []) + [threadId % 8];
  }

  /** The whole tensor of the partition test, over an `iota` buffer of `size(layout)` elements. */
  function PartitionTensor(): (t: Tensor)
    ensures Valid(t) && t.layout == PartitionLayout && Compact(t.layout)
    ensures t.data == Iota(256) && t.shape == [64, 4] && t.origin == [0, 0]
  {
    LayoutFacts();
    MakeTensor(Iota(Size(PartitionShape)), PartitionLayout)
  }

  /** Partition `threadId` is the `[8·threadId, 8·threadId + 8) × [0, 4)` box of the tensor's modes. */
  lemma PartitionView(threadId: nat)
    requires threadId < 8
    ensures AllPositive(ThreadLayout) && Size(ThreadLayout) == 8
    ensures |Modes(ThreadLayout)| == 2 && DividesAll(ModeSizes(ThreadLayout), [64, 4])
    ensures var p := LocalPartition(PartitionTensor(), ThreadLayout, threadId);
            p.shape == [8, 4] && p.origin == [8 * threadId, 0]
  {
    ThreadFacts();
    ThreadCoordinate(threadId);
    var t := PartitionTensor();
    var p := LocalPartition(t, ThreadLayout, threadId);
    assert p.shape == [8, 4];
    assert p.origin == Add(t.origin, Mul(Decompose(threadId, [8, 1]), [8, 4]));
  }

  /**
   * Thread `threadId` of the partition test: 32 elements, element 0 at
   * `threadId · size<0>(thread_steps)` and element 1 right after it.
   */
  lemma PartitionScenario(threadId: nat)
    requires threadId < 8
    ensures AllPositive(ThreadLayout) && Size(ThreadLayout) == 8
    ensures |Modes(ThreadLayout)| == 2 && DividesAll(ModeSizes(ThreadLayout), [64, 4])
    ensures var p := LocalPartition(PartitionTensor(), ThreadLayout, threadId);
            TensorSize(p) == TensorSize(PartitionTensor()) / Size(ThreadLayout) == 32
            && Offset(p, 0) < |p.data| && Offset(p, 1) < |p.data|
            && Element(p, 0) == threadId * SizeOf(ThreadSteps, 0)
            && Element(p, 1) == Element(p, 0) + 1
  {
    PartitionView(threadId);
    ThreadFacts();
    var p := LocalPartition(PartitionTensor(), ThreadLayout, threadId);
    FirstElementAtOrigin(p);
    CompactOffset(p, 0);
    CompactNextElement(p);
    CompactOffset(p, 1);
    assert ColexCompose([8 * threadId, 0], [64, 4]) == 8 * threadId + 64 * (0 + 4 * 0);
  }

  /** The whole tensor of the tile test, over an `iota` buffer of `size(layout)` elements. */
  function TileTensor(): (t: Tensor)
    ensures Valid(t) && t.layout == TileLayout && Compact(t.layout) && Flat(t.layout)
    ensures t.data == Iota(256) && t.shape == [16, 4, 4] && t.origin == [0, 0, 0]
  {
    LayoutFacts();
    MakeTensor(Iota(Size(TileShape)), TileLayout)
  }

  /**
   * Tile `blockIdx` of the tile test: `size(block_shape)` elements, element 0
   * at the base offset of its block coordinate and element 1 right after it.
   */
  lemma TileScenario(blockIdx: nat)
    requires blockIdx < 16
    ensures AllPositive(BlockShape) && |Modes(BlockShape)| == 3 && DividesAll(ModeSizes(BlockShape), [16, 4, 4])
    ensures NumBlocks(TileShape, BlockShape) == Quotients([16, 4, 4], ModeSizes(BlockShape)) == [8, 1, 2]
    ensures var r := LocalTile(TileTensor(), BlockShape, blockIdx);
            TensorSize(r) == Size(BlockShape) == 16
            && Offset(r, 0) < |r.data| && Offset(r, 1) < |r.data|
            && Element(r, 0) == BaseOffset(Decompose(blockIdx, [8, 1, 2]), ModeSizes(BlockShape), ModeSizes(TileStrides))
            && Element(r, 1) == Element(r, 0) + 1
  {
    LayoutFacts();
    BlockFacts();
    var r := LocalTile(TileTensor(), BlockShape, blockIdx);
    TileFirstElementFlat(Iota(Size(TileShape)), TileLayout, BlockShape, blockIdx);
    assert r.shape == [2, 4, 2];
    CompactOffset(r, 0);
    CompactNextElement(r);
    CompactOffset(r, 1);
  }

  // ---------------------------------------------------------------------
  // The expected first value of a tile
  // ---------------------------------------------------------------------

  /** The base offset contributed by the first `d` dimensions of `idx`'s block coordinate. */
  function PrefixOffset(idx: nat, nb: seq<nat>, bs: seq<nat>, st: seq<nat>, d: nat): nat
    requires Positive(nb) && |bs| == |nb| == |st| && d <= |nb|
  {
    assert Positive(nb[..d]);
    BaseOffset(Decompose(idx, nb[..d]), bs[..d], st[..d])
  }

  /** One step of the expected-value computation peels the last remaining dimension. */
  lemma PrefixOffsetStep(idx: nat, nb: seq<nat>, bs: seq<nat>, st: seq<nat>, d: nat)
    requires Positive(nb) && |bs| == |nb| == |st| && d < |nb|
    ensures PrefixOffset(idx, nb, bs, st, d + 1)
         == PrefixOffset(idx / nb[d], nb, bs, st, d) + (idx % nb[d]) * bs[d] * st[d]
  {
    var r := nb[..d + 1];
    assert r[..d] == nb[..d] && r[d] == nb[d];
    var c := Decompose(idx, r);
    assert c == Decompose(idx / nb[d], nb[..d]) + [idx % nb[d]];
    assert c[..d] == Decompose(idx / nb[d], nb[..d]);
    assert bs[..d + 1][..d] == bs[..d] && st[..d + 1][..d] == st[..d];
  }

  /** With every dimension taken, the prefix offset is the whole base offset. */
  lemma PrefixOffsetAll(idx: nat, nb: seq<nat>, bs: seq<nat>, st: seq<nat>)
    requires Positive(nb) && |bs| == |nb| == |st|
    ensures PrefixOffset(idx, nb, bs, st, |nb|) == BaseOffset(Decompose(idx, nb), bs, st)
  {
    assert nb[..|nb|] == nb && bs[..|nb|] == bs && st[..|nb|] == st;
  }

  /** Once every dimension is taken, what was accumulated is the whole base offset. */
  lemma PrefixOffsetDone(expected: nat, idx: nat, blockIdx: nat, nb: seq<nat>, bs: seq<nat>, st: seq<nat>)
    requires Positive(nb) && |bs| == |nb| == |st|
    requires expected + PrefixOffset(idx, nb, bs, st, 0) == PrefixOffset(blockIdx, nb, bs, st, |nb|)
    ensures expected == BaseOffset(Decompose(blockIdx, nb), bs, st)
  {
    assert nb[..0] == [];
    PrefixOffsetAll(blockIdx, nb, bs, st);
  }

  /**
   * The expected first value of tile `blockIdx`, computed as the test spells
   * it out: from the last dimension to the first, add
   * `(idx % num_blocks[d]) · block_shape[d] · strides[d]` and divide `idx`
   * by `num_blocks[d]`.  The result is the base offset of the tile's block
   * coordinate (last dimension fastest).
   */
  method ExpectedTileFirstVal(blockIdx: nat, numBlocks: seq<nat>, blockShape: seq<nat>, strides: seq<nat>)
    returns (expected: nat)
    requires Positive(numBlocks) && |blockShape| == |numBlocks| && |strides| == |numBlocks|
    ensures expected == BaseOffset(Decompose(blockIdx, numBlocks), blockShape, strides)
  {
    expected := 0;
    var idx := blockIdx;
    var d := |numBlocks|;
    while d > 0
      invariant 0 <= d <= |numBlocks|
      invariant expected + PrefixOffset(idx, numBlocks, blockShape, strides, d)
             == PrefixOffset(blockIdx, numBlocks, blockShape, strides, |numBlocks|)
    {
      d := d - 1;
      var digit: nat := idx % numBlocks[d];
      var scaled: nat := digit * blockShape[d];
      PrefixOffsetStep(idx, numBlocks, blockShape, strides, d);
      expected := expected + scaled * strides[d];
      idx := idx / numBlocks[d];
    }
    PrefixOffsetDone(expected, idx, blockIdx, numBlocks, blockShape, strides);
  }

  // ---------------------------------------------------------------------
  // The two tests
  // ---------------------------------------------------------------------

  /** `TEST(TestPartition, LocalPartition)`: every expectation of every thread holds. */
  method LocalPartitionTest() returns (passed: bool)
    ensures passed
  {
    LayoutFacts();
    ThreadFacts();
    var layout := Layouts.MakeLayout(PartitionShape, PartitionStrides);
    var data := Iota(Size(layout.value.shape));
    var tensor := MakeTensor(data, layout.value);
    assert tensor == PartitionTensor();
    passed := true;
    var threadId := 0;
    while threadId < Size(ThreadLayout)
      invariant passed
    {
      PartitionScenario(threadId);
      var partition := LocalPartition(tensor, ThreadLayout, threadId);
      var expectedSize := TensorSize(tensor) / Size(ThreadLayout);
      var expectedFirst := threadId * SizeOf(ThreadSteps, 0);
      var expectedSecond := expectedFirst + 1;
      passed := passed && TensorSize(partition) == expectedSize
        && Element(partition, 0) == expectedFirst && Element(partition, 1) == expectedSecond;
      threadId := threadId + 1;
    }
  }

  /** `TEST(TestPartition, LocalTile)`: every expectation of every tile holds. */
  method LocalTileTest() returns (passed: bool)
    ensures passed
  {
    LayoutFacts();
    BlockFacts();
    var layout := Layouts.MakeLayout(TileShape, TileStrides);
    var data := Iota(Size(layout.value.shape));
    var tensor := MakeTensor(data, layout.value);
    assert tensor == TileTensor();
    var numBlocks := NumBlocks(TileShape, BlockShape);
    passed := true;
    var k := 0;
    while k < Product(numBlocks)
      invariant passed
    {
      var blockIdx := k;
      TileScenario(blockIdx);
      var tile := LocalTile(tensor, BlockShape, blockIdx);
      var expectedSize := Size(BlockShape);
      var expectedFirst := ExpectedTileFirstVal(blockIdx, numBlocks, ModeSizes(BlockShape), ModeSizes(TileStrides));
      var expectedSecond := expectedFirst + 1;
      passed := passed && TensorSize(tile) == expectedSize
        && Element(tile, 0) == expectedFirst && Element(tile, 1) == expectedSecond;
      k := k + 1;
    }
  }
}
