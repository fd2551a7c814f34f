/**
 * Nested shape/stride trees: a leaf holds one extent (or one stride, or one
 * coordinate), an inner node groups its children into one logical
 * dimension.  The top-level children of a tree are its modes: `size<d>`
 * is the size of mode d.
 */
module ShapeTree {
  import opened MixedRadix

  datatype Tree = Leaf(value: nat) | Node(children: seq<Tree>)

  /** Every leaf extent is strictly positive. */
  predicate AllPositive(t: Tree)
    decreases t
  {
    match t
    case Leaf(v) => v > 0
    case Node(cs) => AllPositiveSeq(cs)
  }

  predicate AllPositiveSeq(cs: seq<Tree>)
    decreases cs
  {
    forall k :: 0 <= k < |cs| ==> AllPositive(cs[k])
  }

  /** The two trees have the same branching structure at every node. */
  predicate Congruent(a: Tree, b: Tree)
    decreases a
  {
    match (a, b)
    case (Leaf(_), Leaf(_)) => true
    case (Node(xs), Node(ys)) => CongruentSeq(xs, ys)
    case _ => false
  }

  predicate CongruentSeq(xs: seq<Tree>, ys: seq<Tree>)
    decreases xs
  {
    |xs| == |ys| && forall k :: 0 <= k < |xs| ==> Congruent(xs[k], ys[k])
  }

  /** `size(t)`: a leaf is its own extent, a node the product of its children's sizes. */
  function Size(t: Tree): (n: nat)
    ensures AllPositive(t) ==> n > 0
    decreases t
  {
    match t
    case Leaf(v) => v
    case Node(cs) => SizeSeq(cs)
  }

  function SizeSeq(cs: seq<Tree>): (n: nat)
    ensures AllPositiveSeq(cs) ==> n > 0
    decreases cs
  {
    if cs == [] then 1
    else
      assert AllPositiveSeq(cs) ==> AllPositive(cs[0]) && AllPositiveSeq(cs[1..]);
      Size(cs[0]) * SizeSeq(cs[1..])
  }

  /** The leaves of a tree, left to right. */
  function Leaves(t: Tree): seq<nat>
    decreases t
  {
    match t
    case Leaf(v) => [v]
    case Node(cs) => LeavesSeq(cs)
  }

  function LeavesSeq(cs: seq<Tree>): seq<nat>
    decreases cs
  {
    if cs == [] then [] else Leaves(cs[0]) + LeavesSeq(cs[1..])
  }

  /** The size of a tree is the product of all its leaf extents, however deep the nesting. */
  lemma {:induction false} SizeIsLeafProduct(t: Tree)
    ensures Size(t) == Product(Leaves(t))
    decreases t
  {
    match t
    case Leaf(v) =>
      assert Product([v]) == v * Product([]);
    case Node(cs) =>
      SizeSeqIsLeafProduct(cs);
  }

  lemma {:induction false} SizeSeqIsLeafProduct(cs: seq<Tree>)
    ensures SizeSeq(cs) == Product(LeavesSeq(cs))
    decreases cs
  {
    if cs != [] {
      SizeIsLeafProduct(cs[0]);
      SizeSeqIsLeafProduct(cs[1..]);
      ProductConcat(Leaves(cs[0]), LeavesSeq(cs[1..]));
    }
  }

  /** The top-level modes of a tree; a bare leaf is a single mode. */
  function Modes(t: Tree): (ms: seq<Tree>)
    ensures |ms| > 0 || t == Node([])
  {
    match t
    case Leaf(_) => [t]
    case Node(cs) => cs
  }

  /** `size<d>(t)`: the size of the d-th top-level mode. */
  function SizeOf(t: Tree, d: nat): (n: nat)
    requires d < |Modes(t)|
    ensures AllPositive(t) ==> n > 0
  {
    match t
    case Leaf(v) => v
    case Node(cs) =>
      assert AllPositive(t) ==> AllPositiveSeq(cs);
      assert AllPositiveSeq(cs) ==> AllPositive(cs[d]);
      Size(cs[d])
  }

  /** The sizes of the top-level modes, in order. */
  function ModeSizes(t: Tree): (ns: seq<nat>)
    ensures |ns| == |Modes(t)|
    ensures forall d :: 0 <= d < |ns| ==> ns[d] == SizeOf(t, d)
  {
    SizesSeq(Modes(t))
  }

  function SizesSeq(cs: seq<Tree>): (ns: seq<nat>)
    ensures |ns| == |cs|
    ensures forall k :: 0 <= k < |cs| ==> ns[k] == Size(cs[k])
  {
    if cs == [] then [] else [Size(cs[0])] + SizesSeq(cs[1..])
  }

  /** The size of a tree is the product of the sizes of its top-level modes. */
  lemma SizeIsModeProduct(t: Tree)
    ensures Size(t) == Product(ModeSizes(t))
  {
    match t
    case Leaf(v) =>
      assert ModeSizes(t) == [v];
      assert Product([v]) == v * Product([]);
    case Node(cs) =>
      SizeSeqIsProduct(cs);
  }

  lemma {:induction false} SizeSeqIsProduct(cs: seq<Tree>)
    ensures SizeSeq(cs) == Product(SizesSeq(cs))
  {
    if cs != [] {
      SizeSeqIsProduct(cs[1..]);
      assert SizesSeq(cs)[1..] == SizesSeq(cs[1..]);
    }
  }

  /** Positive trees have positive mode sizes. */
  lemma ModeSizesPositive(t: Tree)
    requires AllPositive(t)
    ensures Positive(ModeSizes(t)) && AllPositiveSeq(Modes(t))
  {
  }

  // ---------------------------------------------------------------------
  // Congruence is transitive
  // ---------------------------------------------------------------------

  lemma {:induction false} CongruentTransitive(a: Tree, b: Tree, c: Tree)
    requires Congruent(a, b) && Congruent(b, c)
    ensures Congruent(a, c)
    decreases a
  {
    match (a, b, c)
    case (Leaf(_), Leaf(_), Leaf(_)) =>
    case (Node(xs), Node(ys), Node(zs)) =>
      forall k | 0 <= k < |xs| ensures Congruent(xs[k], zs[k]) {
        CongruentTransitive(xs[k], ys[k], zs[k]);
      }
  }

  /** Congruent trees have congruent modes and the same number of leaves. */
  lemma CongruentModes(a: Tree, b: Tree)
    requires Congruent(a, b)
    ensures CongruentSeq(Modes(a), Modes(b))
  {
  }

  lemma {:induction false} CongruentLeaves(a: Tree, b: Tree)
    requires Congruent(a, b)
    ensures |Leaves(a)| == |Leaves(b)|
    decreases a
  {
    match (a, b)
    case (Leaf(_), Leaf(_)) =>
    case (Node(xs), Node(ys)) =>
      CongruentLeavesSeq(xs, ys);
  }

  lemma {:induction false} CongruentLeavesSeq(xs: seq<Tree>, ys: seq<Tree>)
    requires CongruentSeq(xs, ys)
    ensures |LeavesSeq(xs)| == |LeavesSeq(ys)|
    decreases xs
  {
    if xs != [] {
      CongruentLeaves(xs[0], ys[0]);
      CongruentLeavesSeq(xs[1..], ys[1..]);
    }
  }
}
