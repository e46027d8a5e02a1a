/**
 * `block_orthogonal`: split a tensor into a grid of equally sized, axis-aligned
 * blocks and initialise each block on its own.
 *
 * The orthogonal initialisation of a block is floating-point and random-number
 * code; here writing a block leaves an opaque mark, a per-cell write counter,
 * so that what the routine guarantees about its blocks can be stated: they are
 * checked before anything is written, they are enumerated in lexicographic
 * order, there are as many as the sizes divided by the split sizes multiply to,
 * each lies inside the tensor, and together they write every cell exactly once.
 *
 * Python's `zip(sizes, split_sizes)` stops at the shorter list, so only the
 * `Paired` leading dimensions are split; further dimensions are left whole by
 * the slice.
 */
module BlockOrthogonal {
  import opened Checks

  // ---------------------------------------------------------------------------
  // The divisibility test
  // ---------------------------------------------------------------------------

  /** The number of (size, split size) pairs `zip` produces. */
  function Paired(sizes: seq<nat>, splitSizes: seq<int>): (k: nat)
    ensures k <= |sizes| && k <= |splitSizes|
    ensures k == |sizes| || k == |splitSizes|
  {
    if |sizes| <= |splitSizes| then |sizes| else |splitSizes|
  }

  /** Whether some pair from position `d` on has split size 0, on which `size % split` raises. */
  predicate ZeroSplitFrom(sizes: seq<nat>, splitSizes: seq<int>, d: nat)
    requires d <= Paired(sizes, splitSizes)
    decreases Paired(sizes, splitSizes) - d
    ensures ZeroSplitFrom(sizes, splitSizes, d) <==>
              exists e :: d <= e < Paired(sizes, splitSizes) && splitSizes[e] == 0
  {
    d < Paired(sizes, splitSizes) && (splitSizes[d] == 0 || ZeroSplitFrom(sizes, splitSizes, d + 1))
  }

  /**
   * Whether some pair from position `d` on has a size its split size does not
   * divide. Python's `%` is never zero on a non-zero divisor that does not
   * divide, whatever the signs, and neither is Dafny's.
   */
  predicate IndivisibleFrom(sizes: seq<nat>, splitSizes: seq<int>, d: nat)
    requires d <= Paired(sizes, splitSizes)
    decreases Paired(sizes, splitSizes) - d
    ensures IndivisibleFrom(sizes, splitSizes, d) <==>
              exists e :: d <= e < Paired(sizes, splitSizes) && splitSizes[e] != 0 && sizes[e] % splitSizes[e] != 0
  {
    d < Paired(sizes, splitSizes) &&
    ((splitSizes[d] != 0 && sizes[d] % splitSizes[d] != 0) || IndivisibleFrom(sizes, splitSizes, d + 1))
  }

  /**
   * The test that runs before any block is written. The list of remainders is
   * built in full before `any` looks at it, so a zero split size anywhere
   * raises ZeroDivisionError even when an earlier pair is already indivisible.
   */
  function SplitCheck(sizes: seq<nat>, splitSizes: seq<int>): (r: Outcome)
    ensures r == Pass <==>
              forall d :: 0 <= d < Paired(sizes, splitSizes) ==>
                splitSizes[d] != 0 && sizes[d] % splitSizes[d] == 0
    ensures r == Fail(ZeroDivision) <==> exists d :: 0 <= d < Paired(sizes, splitSizes) && splitSizes[d] == 0
    ensures r.Fail? && r.error != ZeroDivision ==> r.error == IndivisibleSizes(sizes, splitSizes)
  {
    if ZeroSplitFrom(sizes, splitSizes, 0) then Fail(ZeroDivision)
    else if IndivisibleFrom(sizes, splitSizes, 0) then Fail(IndivisibleSizes(sizes, splitSizes))
    else Pass
  }

  /** Every paired split size is positive. */
  predicate PositiveSplits(sizes: seq<nat>, splitSizes: seq<int>)
  {
    forall d :: 0 <= d < Paired(sizes, splitSizes) ==> splitSizes[d] > 0
  }

  // ---------------------------------------------------------------------------
  // Block start offsets
  // ---------------------------------------------------------------------------

  /**
   * Python's `range(start, stop, step)` for a positive step: empty exactly
   * when `stop <= start`, and otherwise within `[start, stop)`; `RangeAt`
   * gives each element.
   */
  function Range(start: nat, stop: nat, step: nat): (r: seq<nat>)
    requires step > 0
    ensures |r| == 0 <==> stop <= start
    ensures forall k :: 0 <= k < |r| ==> start <= r[k] < stop
    decreases if start < stop then stop - start else 0
  {
    if start < stop then [start] + Range(start + step, stop, step) else []
  }

  /**
   * `list(range(0, size, split))`: the block starts along one dimension. A
   * negative step gives an empty range; a zero step never gets here, since the
   * divisibility test has raised already.
   */
  function Offsets(size: nat, split: int): (r: seq<nat>)
    ensures |r| == 0 <==> split <= 0 || size == 0
    ensures forall k :: 0 <= k < |r| ==> r[k] < size
  {
    if split > 0 then Range(0, size, split) else []
  }

  /**
   * `indexes`: the offset list of every paired dimension, in dimension order.
   * A dimension has no offset at all exactly when it is empty or its split
   * size is not positive.
   */
  function Indexes(sizes: seq<nat>, splitSizes: seq<int>): (r: seq<seq<nat>>)
    ensures |r| == Paired(sizes, splitSizes)
    ensures forall d :: 0 <= d < |r| ==> (|r[d]| == 0 <==> splitSizes[d] <= 0 || sizes[d] == 0)
  {
    seq(Paired(sizes, splitSizes), d requires 0 <= d < Paired(sizes, splitSizes) => Offsets(sizes[d], splitSizes[d]))
  }

  // ---------------------------------------------------------------------------
  // itertools.product
  // ---------------------------------------------------------------------------

  /** Every tuple of `tails`, with `x` put in front. */
  function Prepend(x: nat, tails: seq<seq<nat>>): (r: seq<seq<nat>>)
    ensures |r| == |tails|
    ensures forall i :: 0 <= i < |tails| ==> r[i] == [x] + tails[i]
  {
    if tails == [] then [] else [[x] + tails[0]] + Prepend(x, tails[1..])
  }

  /**
   * Each head in turn, in front of every tuple of `tails`; empty exactly when
   * either list is, and `ExtendLength` counts it.
   */
  function Extend(heads: seq<nat>, tails: seq<seq<nat>>): (r: seq<seq<nat>>)
    ensures |r| == 0 <==> |heads| == 0 || |tails| == 0
  {
    if heads == [] then [] else Prepend(heads[0], tails) + Extend(heads[1..], tails)
  }

  /**
   * `itertools.product(*lists)`: one element from each list, the last list
   * varying fastest. It is empty exactly when one of the lists is.
   */
  function Product(lists: seq<seq<nat>>): (r: seq<seq<nat>>)
    ensures |r| == 0 <==> exists d :: 0 <= d < |lists| && |lists[d]| == 0
  {
    if lists == [] then [[]]
    else
      var rest := Product(lists[1..]);
      assert forall d :: 0 < d < |lists| ==> lists[1..][d - 1] == lists[d];
      Extend(lists[0], rest)
  }

  /**
   * The start tuples of the blocks, in the order the loop visits them. There
   * is none exactly when some paired dimension is empty or has a split size
   * that is not positive: a negative split size that divides its size passes
   * the test, and then the routine writes nothing.
   */
  function BlockStarts(sizes: seq<nat>, splitSizes: seq<int>): (r: seq<seq<nat>>)
    ensures |r| == 0 <==>
              exists d :: 0 <= d < Paired(sizes, splitSizes) && (splitSizes[d] <= 0 || sizes[d] == 0)
  {
    var lists := Indexes(sizes, splitSizes);
    assert (exists d :: 0 <= d < |lists| && |lists[d]| == 0) <==>
           exists d :: 0 <= d < Paired(sizes, splitSizes) && (splitSizes[d] <= 0 || sizes[d] == 0);
    Product(lists)
  }

  /**
   * Whether cell `c` lies in the block whose slice is `start[d] : start[d] + split[d]`
   * in each sliced dimension `d`; dimensions past `|start|` are not sliced.
   */
  predicate InBlock(c: seq<nat>, start: seq<nat>, splitSizes: seq<int>)
    ensures InBlock(c, start, splitSizes) ==>
              |start| <= |splitSizes| && forall d :: 0 <= d < |start| ==> splitSizes[d] > 0
    ensures |start| == 0 ==> InBlock(c, start, splitSizes)
  {
    |start| <= |c| && |start| <= |splitSizes| &&
    forall d :: 0 <= d < |start| ==> start[d] <= c[d] < start[d] + splitSizes[d]
  }

  /** How many of `blocks` contain cell `c`. */
  function Coverage(blocks: seq<seq<nat>>, c: seq<nat>, splitSizes: seq<int>): nat
  {
    if blocks == [] then 0
    else (if InBlock(c, blocks[0], splitSizes) then 1 else 0) + Coverage(blocks[1..], c, splitSizes)
  }

  /** How many of the one-dimensional intervals `[x, x + width)`, `x` in `xs`, contain `p`. */
  function CountCover(xs: seq<nat>, p: nat, width: int): nat
  {
    if xs == [] then 0
    else (if xs[0] <= p < xs[0] + width then 1 else 0) + CountCover(xs[1..], p, width)
  }

  /** The product of `size / split` over the paired dimensions. */
  function BlockCount(sizes: seq<nat>, splitSizes: seq<int>): nat
    requires PositiveSplits(sizes, splitSizes)
  {
    if Paired(sizes, splitSizes) == 0 then 1
    else
      assert PositiveSplits(sizes[1..], splitSizes[1..]) by {
        forall d | 0 <= d < Paired(sizes[1..], splitSizes[1..]) ensures splitSizes[1..][d] > 0 {
          assert splitSizes[1..][d] == splitSizes[d + 1];
        }
      }
      (sizes[0] / splitSizes[0]) * BlockCount(sizes[1..], splitSizes[1..])
  }

  // ---------------------------------------------------------------------------
  // The tensor's cells
  // ---------------------------------------------------------------------------

  /** The number of cells of a tensor of the given shape. */
  function Volume(shape: seq<nat>): nat
  {
    if shape == [] then 1 else shape[0] * Volume(shape[1..])
  }

  /** A cell index of a tensor of the given shape. */
  predicate InBounds(c: seq<nat>, shape: seq<nat>)
  {
    |c| == |shape| && forall d :: 0 <= d < |shape| ==> c[d] < shape[d]
  }

  /** The cell stored at position `i` of the row-major (contiguous) layout. */
  function Unflatten(i: nat, shape: seq<nat>): (c: seq<nat>)
    requires i < Volume(shape)
    ensures InBounds(c, shape)
  {
    if shape == [] then []
    else
      var inner := Volume(shape[1..]);
      QuotientBound(i, shape[0], inner);
      [i / inner] + Unflatten(i % inner, shape[1..])
  }

  /** The row-major position of a cell. */
  function Flatten(c: seq<nat>, shape: seq<nat>): (i: nat)
    requires InBounds(c, shape)
    ensures i < Volume(shape)
  {
    if shape == [] then 0
    else
      var inner := Volume(shape[1..]);
      var rest := Flatten(c[1..], shape[1..]);
      RowBound(c[0], rest, shape[0], inner);
      c[0] * inner + rest
  }

  lemma MulMonotone(a: nat, b: nat, k: nat)
    requires a <= b
    ensures a * k <= b * k
  {
  }

  lemma QuotientBound(i: nat, n: nat, inner: nat)
    requires i < n * inner
    ensures inner > 0 && i / inner < n && i % inner < inner
  {
    assert inner != 0;
    if i / inner >= n {
      MulMonotone(n, i / inner, inner);
      assert false;
    }
  }

  lemma RowBound(q: nat, r: nat, n: nat, inner: nat)
    requires q < n && r < inner
    ensures q * inner + r < n * inner
  {
    MulMonotone(q + 1, n, inner);
  }

  /** Division by `inner` undoes `q * inner + r` when `r < inner`. */
  lemma DivModOfRow(q: nat, r: nat, inner: nat)
    requires r < inner
    ensures (q * inner + r) / inner == q && (q * inner + r) % inner == r
  {
    var n := q * inner + r;
    var q', r' := n / inner, n % inner;
    assert n == q' * inner + r';
    if q' > q {
      MulMonotone(q + 1, q', inner);
      assert false;
    } else if q' < q {
      MulMonotone(q' + 1, q, inner);
      assert false;
    }
  }

  /** Reading a cell's position back gives the cell. */
  lemma {:induction false} UnflattenFlatten(c: seq<nat>, shape: seq<nat>)
    requires InBounds(c, shape)
    ensures Unflatten(Flatten(c, shape), shape) == c
  {
    if shape != [] {
      var inner := Volume(shape[1..]);
      var rest := Flatten(c[1..], shape[1..]);
      DivModOfRow(c[0], rest, inner);
      UnflattenFlatten(c[1..], shape[1..]);
    }
  }

  /** Flattening the cell at a position gives the position. */
  lemma {:induction false} FlattenUnflatten(i: nat, shape: seq<nat>)
    requires i < Volume(shape)
    ensures Flatten(Unflatten(i, shape), shape) == i
  {
    if shape != [] {
      var inner := Volume(shape[1..]);
      QuotientBound(i, shape[0], inner);
      var c := Unflatten(i, shape);
      assert c[1..] == Unflatten(i % inner, shape[1..]);
      FlattenUnflatten(i % inner, shape[1..]);
    }
  }

  // ---------------------------------------------------------------------------
  // The tensor, and the routine
  // ---------------------------------------------------------------------------

  /**
   * A tensor, seen through the one thing initialisation does to it: each cell
   * holds how many block writes have reached it, in row-major order.
   */
  class Tensor {
    const shape: seq<nat>
    const writes: array<nat>

    ghost predicate Valid()
    {
      writes.Length == Volume(shape)
    }

    constructor (shape: seq<nat>)
      ensures Valid() && this.shape == shape && fresh(writes)
      ensures forall i :: 0 <= i < writes.Length ==> writes[i] == 0
    {
      this.shape := shape;
      writes := new nat[Volume(shape)](_ => 0);
    }

    /**
     * `tensor[block_slice] = ...`: every cell of the block is written once, no
     * other cell. Only positive widths are modelled: a slice whose stop is
     * negative counts from the end of its dimension, and the routine never
     * forms one, since a non-positive split size leaves it no block.
     */
    method AssignBlock(start: seq<nat>, splitSizes: seq<int>)
      requires Valid()
      requires forall d :: 0 <= d < |start| && d < |splitSizes| ==> splitSizes[d] > 0
      modifies writes
      ensures forall i :: 0 <= i < writes.Length ==>
                writes[i] == old(writes[i]) + (if InBlock(Unflatten(i, shape), start, splitSizes) then 1 else 0)
    {
      forall i | 0 <= i < writes.Length && InBlock(Unflatten(i, shape), start, splitSizes) {
        writes[i] := writes[i] + 1;
      }
    }
  }

  /**
   * `block_orthogonal(tensor, split_sizes)`: raise if a paired dimension is not
   * divisible, before writing anything; otherwise write every block once, in
   * the order of `BlockStarts`.
   */
  method BlockOrthogonalInit(t: Tensor, splitSizes: seq<int>) returns (r: Outcome)
    requires t.Valid()
    modifies t.writes
    ensures r == SplitCheck(t.shape, splitSizes)
    ensures r.Fail? ==> t.writes[..] == old(t.writes[..])
    ensures r.Pass? ==> forall i :: 0 <= i < t.writes.Length ==>
              t.writes[i] == old(t.writes[i]) + Coverage(BlockStarts(t.shape, splitSizes), Unflatten(i, t.shape), splitSizes)
    ensures r.Pass? && PositiveSplits(t.shape, splitSizes) ==>
              forall i :: 0 <= i < t.writes.Length ==> t.writes[i] == old(t.writes[i]) + 1
    ensures r.Pass? && !PositiveSplits(t.shape, splitSizes) ==> t.writes[..] == old(t.writes[..])
  {
    var sizes := t.shape;
    r := SplitCheck(sizes, splitSizes);
    if r.Fail? {
      return;
    }
    var starts := BlockStarts(sizes, splitSizes);
    for b := 0 to |starts|
      invariant forall i :: 0 <= i < t.writes.Length ==>
                  t.writes[i] == old(t.writes[i]) + Coverage(starts[..b], Unflatten(i, sizes), splitSizes)
    {
      BlockWidthsPositive(sizes, splitSizes, b);
      t.AssignBlock(starts[b], splitSizes);
      forall i | 0 <= i < t.writes.Length
        ensures Coverage(starts[..b + 1], Unflatten(i, sizes), splitSizes) ==
                Coverage(starts[..b], Unflatten(i, sizes), splitSizes) +
                (if InBlock(Unflatten(i, sizes), starts[b], splitSizes) then 1 else 0)
      {
        assert starts[..b + 1] == starts[..b] + [starts[b]];
        CoverageConcat(starts[..b], [starts[b]], Unflatten(i, sizes), splitSizes);
      }
    }
    assert starts[..|starts|] == starts;
    if PositiveSplits(sizes, splitSizes) {
      forall i | 0 <= i < t.writes.Length
        ensures Coverage(starts, Unflatten(i, sizes), splitSizes) == 1
      {
        CoveredExactlyOnce(sizes, splitSizes, Unflatten(i, sizes));
      }
    } else {
      assert t.writes[..] == old(t.writes[..]);
    }
  }

  // ---------------------------------------------------------------------------
  // Lemmas: the shape of the enumeration
  // ---------------------------------------------------------------------------

  /** A block that exists has a positive width in every sliced dimension. */
  lemma BlockWidthsPositive(sizes: seq<nat>, splitSizes: seq<int>, b: nat)
    requires b < |BlockStarts(sizes, splitSizes)|
    ensures forall d :: 0 <= d < |BlockStarts(sizes, splitSizes)[b]| && d < |splitSizes| ==> splitSizes[d] > 0
  {
    var starts := BlockStarts(sizes, splitSizes);
    assert starts[b] in starts;
    ProductMember(Indexes(sizes, splitSizes), starts[b]);
  }

  lemma IndexesCons(sizes: seq<nat>, splitSizes: seq<int>)
    requires Paired(sizes, splitSizes) > 0
    ensures Indexes(sizes, splitSizes) ==
              [Offsets(sizes[0], splitSizes[0])] + Indexes(sizes[1..], splitSizes[1..])
  {
    var xs := Indexes(sizes, splitSizes);
    var ys := [Offsets(sizes[0], splitSizes[0])] + Indexes(sizes[1..], splitSizes[1..]);
    assert |xs| == |ys|;
    forall d | 0 <= d < |xs| ensures xs[d] == ys[d] {
      if d > 0 {
        assert sizes[1..][d - 1] == sizes[d] && splitSizes[1..][d - 1] == splitSizes[d];
      }
    }
  }

  lemma PositiveSplitsTail(sizes: seq<nat>, splitSizes: seq<int>)
    requires Paired(sizes, splitSizes) > 0 && PositiveSplits(sizes, splitSizes)
    ensures splitSizes[0] > 0 && PositiveSplits(sizes[1..], splitSizes[1..])
  {
    forall d | 0 <= d < Paired(sizes[1..], splitSizes[1..]) ensures splitSizes[1..][d] > 0 {
      assert splitSizes[1..][d] == splitSizes[d + 1];
    }
  }

  /** `range(s, s + n*step, step)` has `n` elements, the `j`-th being `s + j*step`. */
  lemma {:induction false} RangeAt(s: nat, n: nat, step: nat)
    requires step > 0
    ensures |Range(s, s + n * step, step)| == n
    ensures forall j :: 0 <= j < n ==> Range(s, s + n * step, step)[j] == s + j * step
    decreases n
  {
    if n > 0 {
      var stop, next := s + n * step, s + step;
      assert stop == next + (n - 1) * step;
      RangeAt(next, n - 1, step);
      var rest := Range(next, stop, step);
      var r := Range(s, stop, step);
      assert r == [s] + rest;
      forall j | 0 < j < n ensures r[j] == s + j * step {
        assert r[j] == rest[j - 1];
        assert next + (j - 1) * step == s + j * step;
      }
    }
  }

  /**
   * When the split divides the size, the offsets along a dimension are exactly
   * `0, split, 2*split, ...`, there are `size / split` of them, and the block
   * at each one ends inside the dimension.
   */
  lemma OffsetsAreMultiples(size: nat, split: int)
    requires split > 0 && size % split == 0
    ensures |Offsets(size, split)| == size / split
    ensures forall j :: 0 <= j < |Offsets(size, split)| ==>
              Offsets(size, split)[j] == j * split && Offsets(size, split)[j] + split <= size
  {
    var n := size / split;
    assert size == n * split;
    RangeAt(0, n, split);
    forall j | 0 <= j < n ensures j * split + split <= size {
      MulMonotone(j + 1, n, split);
    }
  }

  /** One tuple per (head, tail) pair. */
  lemma {:induction false} ExtendLength(heads: seq<nat>, tails: seq<seq<nat>>)
    ensures |Extend(heads, tails)| == |heads| * |tails|
  {
    if heads != [] {
      ExtendLength(heads[1..], tails);
      assert |heads| * |tails| == |tails| + (|heads| - 1) * |tails|;
    }
  }

  /** There are `BlockCount` blocks: the product of `size / split` over the paired dimensions. */
  lemma {:induction false} NumberOfBlocks(sizes: seq<nat>, splitSizes: seq<int>)
    requires SplitCheck(sizes, splitSizes) == Pass && PositiveSplits(sizes, splitSizes)
    ensures |BlockStarts(sizes, splitSizes)| == BlockCount(sizes, splitSizes)
  {
    if Paired(sizes, splitSizes) > 0 {
      IndexesCons(sizes, splitSizes);
      PositiveSplitsTail(sizes, splitSizes);
      assert SplitCheck(sizes[1..], splitSizes[1..]) == Pass by {
        forall d | 0 <= d < Paired(sizes[1..], splitSizes[1..])
          ensures splitSizes[1..][d] != 0 && sizes[1..][d] % splitSizes[1..][d] == 0
        {
          assert sizes[1..][d] == sizes[d + 1] && splitSizes[1..][d] == splitSizes[d + 1];
        }
      }
      NumberOfBlocks(sizes[1..], splitSizes[1..]);
      OffsetsAreMultiples(sizes[0], splitSizes[0]);
      ExtendLength(Offsets(sizes[0], splitSizes[0]), BlockStarts(sizes[1..], splitSizes[1..]));
    }
  }

  lemma {:induction false} PrependMember(x: nat, tails: seq<seq<nat>>, t: seq<nat>)
    requires t in Prepend(x, tails)
    ensures |t| > 0 && t[0] == x && t[1..] in tails
  {
    var i :| 0 <= i < |tails| && Prepend(x, tails)[i] == t;
    assert t == [x] + tails[i];
    assert t[1..] == tails[i];
  }

  lemma {:induction false} ExtendMember(heads: seq<nat>, tails: seq<seq<nat>>, t: seq<nat>)
    requires t in Extend(heads, tails)
    ensures |t| > 0 && t[0] in heads && t[1..] in tails
  {
    if t in Prepend(heads[0], tails) {
      PrependMember(heads[0], tails, t);
    } else {
      ExtendMember(heads[1..], tails, t);
    }
  }

  /** Every tuple of a product takes its `d`-th element from the `d`-th list. */
  lemma {:induction false} ProductMember(lists: seq<seq<nat>>, t: seq<nat>)
    requires t in Product(lists)
    ensures |t| == |lists| && forall d :: 0 <= d < |lists| ==> t[d] in lists[d]
  {
    if lists != [] {
      ExtendMember(lists[0], Product(lists[1..]), t);
      ProductMember(lists[1..], t[1..]);
      forall d | 0 < d < |lists| ensures t[d] in lists[d] {
        assert t[1..][d - 1] == t[d] && lists[1..][d - 1] == lists[d];
      }
    }
  }

  /**
   * Each block lies inside the tensor: along every paired dimension it starts
   * at a multiple of the split size and ends no later than the dimension does.
   */
  lemma BlockWithinBounds(sizes: seq<nat>, splitSizes: seq<int>, b: nat)
    requires SplitCheck(sizes, splitSizes) == Pass && PositiveSplits(sizes, splitSizes)
    requires b < |BlockStarts(sizes, splitSizes)|
    ensures |BlockStarts(sizes, splitSizes)[b]| == Paired(sizes, splitSizes)
    ensures forall d :: 0 <= d < Paired(sizes, splitSizes) ==>
              var start := BlockStarts(sizes, splitSizes)[b][d];
              (exists j: nat :: start == j * splitSizes[d]) && start + splitSizes[d] <= sizes[d]
  {
    var t := BlockStarts(sizes, splitSizes)[b];
    ProductMember(Indexes(sizes, splitSizes), t);
    forall d | 0 <= d < Paired(sizes, splitSizes)
      ensures (exists j: nat :: t[d] == j * splitSizes[d]) && t[d] + splitSizes[d] <= sizes[d]
    {
      var offsets := Offsets(sizes[d], splitSizes[d]);
      assert t[d] in offsets;
      OffsetsAreMultiples(sizes[d], splitSizes[d]);
      var j :| 0 <= j < |offsets| && offsets[j] == t[d];
    }
  }

  // ---------------------------------------------------------------------------
  // Lemmas: blocks tile the tensor
  // ---------------------------------------------------------------------------

  lemma InBlockCons(c: seq<nat>, x: nat, t: seq<nat>, splitSizes: seq<int>)
    requires |c| > 0 && |splitSizes| > 0
    ensures InBlock(c, [x] + t, splitSizes) <==>
              x <= c[0] < x + splitSizes[0] && InBlock(c[1..], t, splitSizes[1..])
  {
    var s := [x] + t;
    if InBlock(c, s, splitSizes) {
      forall d | 0 <= d < |t| ensures t[d] <= c[1..][d] < t[d] + splitSizes[1..][d] {
        assert s[d + 1] == t[d];
      }
    }
    if x <= c[0] < x + splitSizes[0] && InBlock(c[1..], t, splitSizes[1..]) {
      forall d | 0 <= d < |s| ensures s[d] <= c[d] < s[d] + splitSizes[d] {
        if d > 0 {
          assert s[d] == t[d - 1] && c[d] == c[1..][d - 1] && splitSizes[d] == splitSizes[1..][d - 1];
        }
      }
    }
  }

  lemma {:induction false} CoverageConcat(a: seq<seq<nat>>, b: seq<seq<nat>>, c: seq<nat>, splitSizes: seq<int>)
    ensures Coverage(a + b, c, splitSizes) == Coverage(a, c, splitSizes) + Coverage(b, c, splitSizes)
  {
    if a == [] {
      assert a + b == b;
    } else {
      assert (a + b)[1..] == a[1..] + b;
      CoverageConcat(a[1..], b, c, splitSizes);
    }
  }

  lemma {:induction false} CoveragePrepend(x: nat, tails: seq<seq<nat>>, c: seq<nat>, splitSizes: seq<int>)
    requires |c| > 0 && |splitSizes| > 0
    ensures Coverage(Prepend(x, tails), c, splitSizes) ==
              if x <= c[0] < x + splitSizes[0] then Coverage(tails, c[1..], splitSizes[1..]) else 0
  {
    if tails != [] {
      InBlockCons(c, x, tails[0], splitSizes);
      CoveragePrepend(x, tails[1..], c, splitSizes);
    }
  }

  lemma {:induction false} ExtendCoverage(heads: seq<nat>, tails: seq<seq<nat>>, c: seq<nat>, splitSizes: seq<int>)
    requires |c| > 0 && |splitSizes| > 0
    ensures Coverage(Extend(heads, tails), c, splitSizes) ==
              CountCover(heads, c[0], splitSizes[0]) * Coverage(tails, c[1..], splitSizes[1..])
  {
    if heads != [] {
      CoverageConcat(Prepend(heads[0], tails), Extend(heads[1..], tails), c, splitSizes);
      CoveragePrepend(heads[0], tails, c, splitSizes);
      ExtendCoverage(heads[1..], tails, c, splitSizes);
      var k := Coverage(tails, c[1..], splitSizes[1..]);
      var b := if heads[0] <= c[0] < heads[0] + splitSizes[0] then 1 else 0;
      assert (b + CountCover(heads[1..], c[0], splitSizes[0])) * k == b * k + CountCover(heads[1..], c[0], splitSizes[0]) * k;
    }
  }

  lemma {:induction false} RangeBelowStart(start: nat, stop: nat, step: nat, p: nat)
    requires step > 0 && p < start
    ensures CountCover(Range(start, stop, step), p, step) == 0
    decreases if start < stop then stop - start else 0
  {
    if start < stop {
      RangeBelowStart(start + step, stop, step, p);
    }
  }

  /** Along one dimension, the intervals `[x, x + step)` of a range cover each point of it once. */
  lemma {:induction false} RangeCoversOnce(start: nat, stop: nat, step: nat, p: nat)
    requires step > 0 && start <= p < stop
    ensures CountCover(Range(start, stop, step), p, step) == 1
    decreases stop - start
  {
    if p < start + step {
      RangeBelowStart(start + step, stop, step, p);
    } else {
      RangeCoversOnce(start + step, stop, step, p);
    }
  }

  /** Every cell of the tensor lies in exactly one block. */
  lemma {:induction false} CoveredExactlyOnce(sizes: seq<nat>, splitSizes: seq<int>, c: seq<nat>)
    requires PositiveSplits(sizes, splitSizes) && InBounds(c, sizes)
    ensures Coverage(BlockStarts(sizes, splitSizes), c, splitSizes) == 1
  {
    if Paired(sizes, splitSizes) == 0 {
      assert Indexes(sizes, splitSizes) == [];
      assert InBlock(c, [], splitSizes);
    } else {
      IndexesCons(sizes, splitSizes);
      PositiveSplitsTail(sizes, splitSizes);
      var offsets := Offsets(sizes[0], splitSizes[0]);
      assert Indexes(sizes, splitSizes)[1..] == Indexes(sizes[1..], splitSizes[1..]);
      assert InBounds(c[1..], sizes[1..]) by {
        forall d | 0 <= d < |sizes[1..]| ensures c[1..][d] < sizes[1..][d] {
          assert c[1..][d] == c[d + 1] && sizes[1..][d] == sizes[d + 1];
        }
      }
      CoveredExactlyOnce(sizes[1..], splitSizes[1..], c[1..]);
      ExtendCoverage(offsets, BlockStarts(sizes[1..], splitSizes[1..]), c, splitSizes);
      RangeCoversOnce(0, sizes[0], splitSizes[0], c[0]);
    }
  }

  lemma {:induction false} CoverageOfTwo(blocks: seq<seq<nat>>, c: seq<nat>, splitSizes: seq<int>, i: nat, j: nat)
    requires i < j < |blocks|
    requires InBlock(c, blocks[i], splitSizes) && InBlock(c, blocks[j], splitSizes)
    ensures Coverage(blocks, c, splitSizes) >= 2
  {
    if i > 0 {
      CoverageOfTwo(blocks[1..], c, splitSizes, i - 1, j - 1);
    } else {
      CoverageOfOne(blocks[1..], c, splitSizes, j - 1);
    }
  }

  lemma {:induction false} CoverageOfOne(blocks: seq<seq<nat>>, c: seq<nat>, splitSizes: seq<int>, j: nat)
    requires j < |blocks| && InBlock(c, blocks[j], splitSizes)
    ensures Coverage(blocks, c, splitSizes) >= 1
  {
    if j > 0 {
      CoverageOfOne(blocks[1..], c, splitSizes, j - 1);
    }
  }

  /** Two different blocks share no cell of the tensor. */
  lemma BlocksDisjoint(sizes: seq<nat>, splitSizes: seq<int>, c: seq<nat>, i: nat, j: nat)
    requires PositiveSplits(sizes, splitSizes) && InBounds(c, sizes)
    requires i < j < |BlockStarts(sizes, splitSizes)|
    ensures !(InBlock(c, BlockStarts(sizes, splitSizes)[i], splitSizes) &&
              InBlock(c, BlockStarts(sizes, splitSizes)[j], splitSizes))
  {
    CoveredExactlyOnce(sizes, splitSizes, c);
    if InBlock(c, BlockStarts(sizes, splitSizes)[i], splitSizes) &&
       InBlock(c, BlockStarts(sizes, splitSizes)[j], splitSizes) {
      CoverageOfTwo(BlockStarts(sizes, splitSizes), c, splitSizes, i, j);
    }
  }

  // ---------------------------------------------------------------------------
  // Lemmas: the order of the blocks
  // ---------------------------------------------------------------------------

  /** Strict lexicographic order on start tuples. */
  predicate LexLess(a: seq<nat>, b: seq<nat>)
  {
    |a| > 0 && |b| > 0 && (a[0] < b[0] || (a[0] == b[0] && LexLess(a[1..], b[1..])))
  }

  predicate LexSorted(blocks: seq<seq<nat>>)
  {
    forall i, j :: 0 <= i < j < |blocks| ==> LexLess(blocks[i], blocks[j])
  }

  predicate Increasing(xs: seq<nat>)
  {
    forall i, j :: 0 <= i < j < |xs| ==> xs[i] < xs[j]
  }

  lemma {:induction false} RangeIncreasing(start: nat, stop: nat, step: nat)
    requires step > 0
    ensures Increasing(Range(start, stop, step))
    ensures forall x :: x in Range(start, stop, step) ==> start <= x
    decreases if start < stop then stop - start else 0
  {
    if start < stop {
      RangeIncreasing(start + step, stop, step);
      var r := Range(start, stop, step);
      forall i, j | 0 <= i < j < |r| ensures r[i] < r[j] {
        assert r[j] in Range(start + step, stop, step);
        if i > 0 {
          assert r[i] == Range(start + step, stop, step)[i - 1];
          assert r[j] == Range(start + step, stop, step)[j - 1];
        }
      }
    }
  }

  lemma PrependSorted(x: nat, tails: seq<seq<nat>>)
    requires LexSorted(tails)
    ensures LexSorted(Prepend(x, tails))
  {
    var r := Prepend(x, tails);
    forall i, j | 0 <= i < j < |r| ensures LexLess(r[i], r[j]) {
      assert r[i][1..] == tails[i] && r[j][1..] == tails[j];
    }
  }

  lemma SortedConcat(a: seq<seq<nat>>, b: seq<seq<nat>>)
    requires LexSorted(a) && LexSorted(b)
    requires forall x, y :: x in a && y in b ==> LexLess(x, y)
    ensures LexSorted(a + b)
  {
    var ab := a + b;
    forall i, j | 0 <= i < j < |ab| ensures LexLess(ab[i], ab[j]) {
      if j < |a| {
        assert ab[i] == a[i] && ab[j] == a[j];
      } else if i >= |a| {
        assert ab[i] == b[i - |a|] && ab[j] == b[j - |a|];
      } else {
        assert ab[i] == a[i] && ab[j] == b[j - |a|];
        assert ab[i] in a && ab[j] in b;
      }
    }
  }

  lemma {:induction false} ExtendSorted(heads: seq<nat>, tails: seq<seq<nat>>)
    requires Increasing(heads) && LexSorted(tails)
    ensures LexSorted(Extend(heads, tails))
  {
    if heads != [] {
      assert Increasing(heads[1..]);
      ExtendSorted(heads[1..], tails);
      PrependSorted(heads[0], tails);
      forall x, y | x in Prepend(heads[0], tails) && y in Extend(heads[1..], tails)
        ensures LexLess(x, y)
      {
        PrependMember(heads[0], tails, x);
        ExtendMember(heads[1..], tails, y);
        var k :| 0 <= k < |heads[1..]| && heads[1..][k] == y[0];
        assert heads[k + 1] == y[0];
      }
      SortedConcat(Prepend(heads[0], tails), Extend(heads[1..], tails));
    }
  }

  lemma {:induction false} ProductSorted(lists: seq<seq<nat>>)
    requires forall d :: 0 <= d < |lists| ==> Increasing(lists[d])
    ensures LexSorted(Product(lists))
  {
    if lists != [] {
      assert forall d :: 0 <= d < |lists[1..]| ==> lists[1..][d] == lists[d + 1];
      ProductSorted(lists[1..]);
      ExtendSorted(lists[0], Product(lists[1..]));
    }
  }

  /**
   * The blocks are visited in strictly increasing lexicographic order of their
   * start tuples, so no block is visited twice.
   */
  lemma BlocksInLexOrder(sizes: seq<nat>, splitSizes: seq<int>)
    ensures LexSorted(BlockStarts(sizes, splitSizes))
  {
    var lists := Indexes(sizes, splitSizes);
    forall d | 0 <= d < |lists| ensures Increasing(lists[d]) {
      if splitSizes[d] > 0 {
        RangeIncreasing(0, sizes[d], splitSizes[d]);
      }
    }
    ProductSorted(lists);
  }
}
