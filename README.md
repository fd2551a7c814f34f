# Hierarchical tensor addressing behind `make_local_partition` and `make_local_tile`

This project is a Dafny model of the addressing arithmetic that
`test/wrapper/test_partition.cpp` of composable_kernel pins down. It proves
properties of that model.

The model covers:

- **Layouts.** A layout is a nested shape tree paired with a congruent stride tree.
  - `make_layout` accepts a congruent pair with positive extents. Otherwise it returns a structure error or an extent error.
  - `size` is the product of all leaf extents.
  - `size<d>` is the size of the d-th top-level mode.
  - A linear index becomes a coordinate tree. The first child varies fastest, and the last child of every node takes the rest of the quotient.
  - A coordinate becomes an offset: the leaf-wise sum of coordinate times stride.
- **Tensors.** A tensor is a buffer seen through a layout.
  - A whole tensor (`make_tensor`) views every top-level mode in full.
  - A partition or a tile keeps the same buffer and layout. It carries its own extent per top-level mode and a per-mode start index.
  - Element `i` of a view: split `i` over the view's extents (first mode fastest), shift by the start index, and address each mode through the layout.
- **Partition and tile.** Both come from a single routine, `Window`.
  - A scalar id becomes a grid coordinate with the last grid dimension varying fastest.
  - The box starts at that coordinate times the box extent.
  - `make_local_partition` takes the grid from the thread layout and divides the view's extent by it.
  - `make_local_tile` takes the box from the block shape and divides the view's extent by it to get `num_blocks`.
  - The boxes are pairwise disjoint and together cover every element of the parent exactly once.
- **The two tests.**
  - Each test is a method that loops over the ids as the test does and returns `passed`. Its contract states `passed`.
  - The partition test uses a 256-element `iota` buffer, the layout `((16,4),4):((1,16),64)` and the thread layout `(8,1)`.
  - The tile test uses the layout `(16,4,4):(1,16,64)` and the block shape `(2,4,2)`.
  - The test computes the expected first value of a tile step by step, updating `block_idx` in place. It is a method with a loop, proved equal to the pure base-offset formula over the last-fastest decomposition.

The modules are:

- `MixedRadix`: mixed-radix arithmetic on sequences.
- `ShapeTree`: shape trees, `size` and `size<d>`.
- `Layouts`: `make_layout` and index/coordinate/offset maps.
- `Tensors`: views and element access.
- `Partitioning`: the shared window, `make_local_partition` and `make_local_tile`.
- `TestPartition`: the two tests.

The test expects each partition to hold `size(tensor) / size(thread_layout)` = 256 / 8 = 32 elements, and the model proves 32. The first and second values of thread `thread_id` are `8·thread_id` and `8·thread_id + 1`.

Non-dividing grids and out-of-range ids are preconditions of `LocalPartition` and `LocalTile`. `make_layout`'s congruence and extent failures are a `Result`.

## Model

| member | source | states |
|---|---|---|
| `Layouts.MakeLayout` | test/wrapper/test_partition.cpp:20-24 | Returns `Ok` exactly when the trees are congruent and every extent is positive. An incongruent pair gives `StructureError`; a congruent pair with a zero extent gives `ExtentError`. |
| `ShapeTree.Size` | test/wrapper/test_partition.cpp:35-41 | `size` of a shape with positive extents is positive. Its value is given by `SizeIsLeafProduct` and `SizeIsModeProduct`. |
| `ShapeTree.SizeOf` | test/wrapper/test_partition.cpp:63-66 | `size<d>` of a shape with positive extents is positive. It is entry d of `ModeSizes`, and `SizeIsModeProduct` multiplies these to `size`. |
| `ShapeTree.SizeIsLeafProduct` | test/wrapper/test_partition.cpp:20-26 | `size` of a nested shape equals the product of all its leaf extents, at any nesting depth. |
| `ShapeTree.SizeIsModeProduct` | test/wrapper/test_partition.cpp:40-41 | `size` equals the product of the top-level mode sizes `size<d>`. |
| `ShapeTree.ModeSizes` | test/wrapper/test_partition.cpp:63-66 | Lists one size per top-level mode, and entry d is `size<d>`. |
| `Layouts.IdxToCrd` | test/wrapper/test_partition.cpp:45-46 | The coordinate of a linear index is congruent to the shape, and lies inside the shape when the index is below `size`. |
| `Layouts.CrdToIdx` | test/wrapper/test_partition.cpp:45-46 | A coordinate inside the shape maps to a linear index below `size`. |
| `Layouts.CrdIdxRoundTrip` | test/wrapper/test_partition.cpp:45-46 | Index to coordinate and back is the identity on `[0, size)`. |
| `Layouts.IdxCrdRoundTrip` | test/wrapper/test_partition.cpp:45-46 | Coordinate to index and back is the identity on coordinates inside the shape. |
| `Layouts.CrdOffset` | test/wrapper/test_partition.cpp:22-24 | The offset of a coordinate tree under a congruent stride tree. It has no contract of its own; `CrdOffsetIsLeafDot` gives its value as the leaf-wise dot product. |
| `Layouts.LinearOffset` | test/wrapper/test_partition.cpp:24-24 | `layout(i)`: the offset of index i's coordinate. It has no contract of its own; `LinearOffsetIsLeafDot` gives its value, and `CompactLayoutIsIdentity` shows it is the identity under packed strides. |
| `Layouts.CrdOffsetIsLeafDot` | test/wrapper/test_partition.cpp:22-24 | The offset of a coordinate is the dot product of its leaves with the stride leaves. |
| `Layouts.LinearOffsetIsLeafDot` | test/wrapper/test_partition.cpp:45-45 | `layout(i)` is the leaf-wise dot product of `i`'s coordinate with the strides. |
| `Layouts.CompactOffsetIsScaled` | test/wrapper/test_partition.cpp:20-24 | Under packed column-major strides starting at `m`, index `x` is at offset `m·x`. |
| `Layouts.CompactLayoutIsIdentity` | test/wrapper/test_partition.cpp:20-27 | Under packed column-major strides the layout is valid and maps every index below `size` to itself. |
| `MixedRadix.Decompose` | test/wrapper/test_partition.cpp:75-85 | The last-fastest grid coordinate of any id, in range or not, lies inside the grid. |
| `MixedRadix.ComposeDecompose` | test/wrapper/test_partition.cpp:75-85 | Composing the decomposition of an id below the grid size gives back the id. |
| `MixedRadix.DecomposeCompose` | test/wrapper/test_partition.cpp:75-85 | Decomposing the composition of an in-grid coordinate gives back the coordinate. |
| `MixedRadix.DecomposeInjective` | test/wrapper/test_partition.cpp:70-72 | Distinct ids below the grid size have distinct coordinates. |
| `MixedRadix.ColexDecompose` | test/wrapper/test_partition.cpp:45-46 | The first-fastest coordinate of an element index below the view size lies inside the view. |
| `MixedRadix.ColexComposeBelow` | test/wrapper/test_partition.cpp:45-46 | An in-box coordinate has a column-major index below the box size. |
| `MixedRadix.ColexComposeDecompose` | test/wrapper/test_partition.cpp:45-46 | Element index to view coordinate and back is the identity below the view size. |
| `MixedRadix.ColexDecomposeCompose` | test/wrapper/test_partition.cpp:45-46 | View coordinate to element index and back is the identity inside the box. |
| `MixedRadix.ColexDecomposeOne` | test/wrapper/test_partition.cpp:46-46 | Element 1 is one step along mode 0 and zero elsewhere, when mode 0 has more than one element. |
| `MixedRadix.QuotientsProduct` | test/wrapper/test_partition.cpp:40-41 | If the grid divides the shape mode by mode, the quotients are positive, each quotient times its divisor gives back the extent, and their product is `size(shape) / size(grid)`. |
| `Tensors.Iota` | test/wrapper/test_partition.cpp:27-27 | The `iota` buffer has length n and holds k at position k. |
| `Tensors.MakeTensor` | test/wrapper/test_partition.cpp:29-30 | `make_tensor` gives a valid view of the whole layout over the given buffer. Its size is `size(layout)`. |
| `Tensors.TensorSize` | test/wrapper/test_partition.cpp:40-44 | `size(tensor)` of a view with positive extents is positive. `MakeTensor`, `Window`, `LocalPartition` and `LocalTile` state its value for each kind of view. |
| `Tensors.Offset` | test/wrapper/test_partition.cpp:45-46 | The buffer position of element i. It has no contract of its own; `ViewOffset` gives it as `layout(j)` for the parent index j, and `CompactOffset` as j itself under packed strides. |
| `Tensors.Element` | test/wrapper/test_partition.cpp:45-46 | `tensor(i)` is a value held in the buffer, read at `Offset(t, i)`. |
| `Tensors.ModeIndex` | test/wrapper/test_partition.cpp:45-46 | Every element below the view size has per-mode indices inside the layout's modes. |
| `Tensors.ModesOffsetIsLinear` | test/wrapper/test_partition.cpp:45-45 | Addressing the layout mode by mode equals `layout(j)`, where j is the column-major index of the mode indices. |
| `Tensors.ViewOffset` | test/wrapper/test_partition.cpp:45-46 | Element i of any view lies at `layout(j)` for a parent index j below `size(layout)`. |
| `Tensors.PlainOffsetIsLinear` | test/wrapper/test_partition.cpp:29-30 | Element i of a whole tensor is at `layout(i)`. |
| `Tensors.FirstElementAtOrigin` | test/wrapper/test_partition.cpp:45-45 | Element 0 of a view is at the view's start index. |
| `Tensors.CompactOffset` | test/wrapper/test_partition.cpp:26-30 | Over a packed layout, element i of a view is at the column-major index of its mode indices, below `size(layout)`. So it lies inside a buffer of `size(layout)` elements. |
| `Tensors.CompactNextElement` | test/wrapper/test_partition.cpp:87-90 | Over a packed layout, element 1 of a view whose mode 0 has room is at element 0's offset plus 1. |
| `Partitioning.Window` | test/wrapper/test_partition.cpp:37-38 | The box of any grid id is a valid view of the same buffer and layout, with the box extent and size `Π extent`. |
| `Partitioning.ParentIndex` | test/wrapper/test_partition.cpp:37-38 | Element i of box id is a parent element: its index is below the parent's size and it has the same mode indices. |
| `Partitioning.WindowElement` | test/wrapper/test_partition.cpp:45-45 | Element i of box id reads the same buffer position as its parent element. |
| `Partitioning.WindowsDisjoint` | test/wrapper/test_partition.cpp:35-38 | Two boxes share an element only if they are the same box at the same position. |
| `Partitioning.WindowsCover` | test/wrapper/test_partition.cpp:35-38 | Every parent element is some element of some box. |
| `Partitioning.PartitionTiles` | test/wrapper/test_partition.cpp:40-41 | A dividing thread grid tiles the view exactly with boxes of the quotient extent, each of `size(tensor) / size(grid)` elements. |
| `Partitioning.LocalPartition` | test/wrapper/test_partition.cpp:37-44 | The partition of a thread is a valid view of the same buffer and layout. Its extent times `size<d>(thread_layout)` is the tensor's extent in every mode, and its size is `size(tensor) / size(thread_layout)`. |
| `Partitioning.PartitionFirstElementFlat` | test/wrapper/test_partition.cpp:37-45 | Element 0 of thread `thread_id`'s partition of a whole tensor over a flat layout is at `Σ_d coord[d]·extent[d]·size<d>(strides)`, where coord is `thread_id` split last-fastest over `size<d>(thread_layout)` and extent is the partition's extent. |
| `Partitioning.PartitionsDisjoint` | test/wrapper/test_partition.cpp:35-38 | Two in-range threads' partitions share an element only if they are the same thread at the same element index. |
| `Partitioning.PartitionsCover` | test/wrapper/test_partition.cpp:35-38 | Every element of the tensor is some element of the partition of some thread below `size(thread_layout)`. |
| `Partitioning.NumBlocks` | test/wrapper/test_partition.cpp:63-66 | `num_blocks[d] = size<d>(shape) / size<d>(block_shape)`. When the block divides the shape, the entries are positive and their product is `size(shape) / size(block_shape)`. |
| `Partitioning.LocalTile` | test/wrapper/test_partition.cpp:72-74 | The tile is a valid view of the same buffer and layout with extent `size<d>(block_shape)` per mode and size `size(block_shape)`. |
| `Partitioning.BlockTiles` | test/wrapper/test_partition.cpp:62-68 | A dividing block shape tiles the view exactly with `num_blocks` boxes of the block extent, `size(tensor) / size(block_shape)` of them. |
| `Partitioning.TilesDisjoint` | test/wrapper/test_partition.cpp:70-72 | Two in-range tiles share an element only if they are the same tile at the same element index. |
| `Partitioning.TilesCover` | test/wrapper/test_partition.cpp:70-72 | Every element of the tensor is some element of some tile with index below `size(num_blocks)`. |
| `Partitioning.BaseOffset` | test/wrapper/test_partition.cpp:75-85 | `Σ_d c[d]·e[d]·s[d]`, one term per dimension as lines 75-85 add them. It has no contract of its own; `PrefixOffsetStep` and `ExpectedTileFirstVal` tie it to the test's step-by-step computation, and `TileFirstElementFlat` and `PartitionFirstElementFlat` to the first element of a view. |
| `Partitioning.FlatModesOffset` | test/wrapper/test_partition.cpp:75-85 | Over single-leaf modes, the offset of per-mode index `c[d]·e[d]` is `Σ c[d]·e[d]·stride[d]`. |
| `Partitioning.TileFirstElementFlat` | test/wrapper/test_partition.cpp:75-89 | Element 0 of tile `block_idx` of a whole tensor over a flat layout is `Σ_d coord[d]·size<d>(block_shape)·size<d>(strides)`, where coord is the last-fastest decomposition over `num_blocks`. |
| `TestPartition.LayoutFacts` | test/wrapper/test_partition.cpp:20-26 | Both test layouts are accepted by `make_layout` and hold 256 elements, with mode sizes `(64,4)` and `(16,4,4)`. Both are packed column-major. |
| `TestPartition.ThreadFacts` | test/wrapper/test_partition.cpp:32-35 | The thread layout `(8,1)` has size 8 and divides `(64,4)` into boxes `(8,4)`. `size<0>(thread_steps)` is 8. |
| `TestPartition.BlockFacts` | test/wrapper/test_partition.cpp:62-68 | The block `(2,4,2)` has size 16 and divides `(16,4,4)`. `num_blocks` is `(8,1,2)`, sixteen tiles. |
| `TestPartition.ThreadCoordinate` | test/wrapper/test_partition.cpp:35-38 | Thread id t below 8 has grid coordinate `(t, 0)` in `(8,1)`. |
| `TestPartition.PartitionTensor` | test/wrapper/test_partition.cpp:26-30 | The first test's tensor is a valid whole view with 256 `iota` values over a packed layout. |
| `TestPartition.PartitionView` | test/wrapper/test_partition.cpp:37-38 | The partition of thread t has extent `(8,4)` and starts at `(8t, 0)`. |
| `TestPartition.PartitionScenario` | test/wrapper/test_partition.cpp:40-46 | For each of the 8 threads: the partition has `size(tensor)/size(thread_layout)` = 32 elements. Element 0 is `thread_id · size<0>(thread_steps)` and element 1 is element 0 plus 1, both inside the buffer. |
| `TestPartition.TileTensor` | test/wrapper/test_partition.cpp:56-60 | The second test's tensor is a valid whole view with 256 `iota` values over a packed, flat layout. |
| `TestPartition.TileScenario` | test/wrapper/test_partition.cpp:72-90 | For each of the 16 tiles: the tile has `size(block_shape)` = 16 elements. Element 0 is the base offset of its block coordinate over `(8,1,2)` and element 1 is element 0 plus 1, both inside the buffer. |
| `TestPartition.PrefixOffsetStep` | test/wrapper/test_partition.cpp:78-85 | One `% num_blocks[d]`, `/= num_blocks[d]` step takes off dimension d's term of the base offset. |
| `TestPartition.ExpectedTileFirstVal` | test/wrapper/test_partition.cpp:75-85 | The step-by-step computation of the expected value, from the last dimension to the first, returns the base offset `Σ_d coord[d]·block_shape[d]·strides[d]` of the last-fastest coordinate. |
| `TestPartition.LocalPartitionTest` | test/wrapper/test_partition.cpp:18-48 | Every expectation of the partition test holds for every thread id. |
| `TestPartition.LocalTileTest` | test/wrapper/test_partition.cpp:50-92 | Every expectation of the tile test holds for every block index. |

## Left out

- The implementing headers `ck/wrapper/layout.hpp` and `ck/wrapper/tensor.hpp` are not part of this model. The behaviour is rebuilt from what the test fixes.
- The gtest framework: each `EXPECT_EQ` is one conjunct of a method's `passed` result.
- The `std::vector` and `std::iota` buffers are modelled as the sequence `Iota(n)`.
- The device-memory, kernel-launch and checking includes are host/device I/O, not addressing.
- `MemoryTypeEnum::Generic` is a descriptive tag only.
- Compile-time `ck::Number<>` extents are plain natural numbers.
  - `ck::index_t` is modelled unbounded. Every value in the test is below 256, so 32-bit wrap-around never arises.
- Strides are natural numbers, so negative strides are not modelled.
- The interleaved policy for multi-dimensional thread grids is not modelled. The partition is blocked: a thread's box starts at its grid coordinate times the box extent, and element 1 follows element 0, as the test requires.
  - The test's grid `(8,1)` is effectively one-dimensional. The model does not claim more than that.
  - Thread ids use the same last-fastest decomposition as block ids. For `(8,1)` every decomposition order gives the same coordinate.
- A partition or tile is a box of whole top-level modes addressed through the parent layout. Its shape is one extent per mode, not a new nested shape tree.
  - A view's mode index feeds the nested mode's own index-to-coordinate map, as in the first test, where mode 0 is `(16,4)`.
- Non-dividing grids or blocks, out-of-range ids and element reads outside the buffer are preconditions. They are not modelled as raised errors.
- ExpectedTileFirstVal: the test's three unrolled steps become a loop over any number of dimensions. The loop also divides `idx` after the first dimension, where the test does not, which has no effect on the result.
- Concurrency: the source runs nothing concurrently. A thread id is only a parameter here.
