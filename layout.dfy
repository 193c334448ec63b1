/**
 * Row-major layout of an N-dimensional board in a flat buffer.
 *
 * The engine stores its board in a dynamic-rank array; this model stores the
 * same cells in one flat buffer. A coordinate `c` of a board of axis sizes
 * `shape` lives at `Offset(c, shape)`, the last axis varying fastest, so the
 * cells along the last axis (a drop column) are contiguous.
 */
module Layout {

  /** The number of cells of a board with the given axis sizes. */
  function Product(shape: seq<nat>): nat
  {
    if |shape| == 0 then 1 else Product(shape[..|shape| - 1]) * shape[|shape| - 1]
  }

  /** `c` is a coordinate of the board: one index per axis, each below the axis size. */
  predicate InBounds(c: seq<nat>, shape: seq<nat>)
  {
    |c| == |shape| && forall i :: 0 <= i < |c| ==> c[i] < shape[i]
  }

  /** Row-major position of coordinate `c` in the flat buffer. */
  function Offset(c: seq<nat>, shape: seq<nat>): nat
    requires |c| == |shape|
  {
    if |c| == 0 then 0
    else Offset(c[..|c| - 1], shape[..|shape| - 1]) * shape[|shape| - 1] + c[|c| - 1]
  }

  /** Every cell of the board lies inside the buffer. */
  lemma {:induction false} OffsetBound(c: seq<nat>, shape: seq<nat>)
    requires InBounds(c, shape)
    ensures Offset(c, shape) < Product(shape)
  {
    if |c| > 0 {
      var pre, ps := c[..|c| - 1], shape[..|shape| - 1];
      assert InBounds(pre, ps);
      OffsetBound(pre, ps);
      CellInBlocks(Offset(pre, ps), c[|c| - 1], Product(ps), shape[|shape| - 1]);
    }
  }

  lemma MulCancel(a: nat, b: nat, h: nat)
    requires a * h < b * h
    ensures a < b
  {}

  lemma DivModOf(q: nat, x: nat, h: nat)
    requires x < h
    ensures (q * h + x) / h == q && (q * h + x) % h == x
  {
    var k := q * h + x;
    var d, r := k / h, k % h;
    assert k == d * h + r;
    assert (q + 1) * h == q * h + h;
    assert (d + 1) * h == d * h + h;
    MulCancel(d, q + 1, h);
    MulCancel(q, d + 1, h);
  }

  /** Block and cell index are determined by the position. */
  lemma SameBlockSameCell(o: nat, x: nat, o': nat, x': nat, h: nat)
    requires x < h && x' < h && o * h + x == o' * h + x'
    ensures o == o' && x == x'
  {
    DivModOf(o, x, h);
    DivModOf(o', x', h);
  }

  /** A block of `h` cells starting at `b * h` fits into `m` such blocks. */
  lemma BlockInRange(b: nat, k: nat, m: nat, h: nat)
    requires b < m && k <= h
    ensures b * h + k <= m * h
  {
    assert (b + 1) * h <= m * h;
  }

  /** Cell `x` of block `o` of `h` cells lies inside `p` such blocks. */
  lemma CellInBlocks(o: nat, x: nat, p: nat, h: nat)
    ensures o < p && x < h ==> o * h + x < p * h
  {
    if o < p && x < h {
      BlockInRange(o, x + 1, p, h);
    }
  }

  /** Distinct blocks of `h` cells do not overlap. */
  lemma BlocksApart(b: nat, b0: nat, k: nat, h: nat)
    requires b != b0 && k < h
    ensures b0 * h + k < b * h || b * h + h <= b0 * h + k
  {
    if b < b0 {
      assert (b + 1) * h <= b0 * h;
    } else {
      assert (b0 + 1) * h <= b * h;
    }
  }

  /** Distinct coordinates occupy distinct buffer positions. */
  lemma {:induction false} OffsetInjective(c: seq<nat>, d: seq<nat>, shape: seq<nat>)
    requires InBounds(c, shape) && InBounds(d, shape)
    ensures Offset(c, shape) == Offset(d, shape) ==> c == d
  {
    if |c| > 0 && Offset(c, shape) == Offset(d, shape) {
      var n, h, ps := |c|, shape[|shape| - 1], shape[..|shape| - 1];
      var cp, dp := c[..n - 1], d[..n - 1];
      assert InBounds(cp, ps) && InBounds(dp, ps);
      SameBlockSameCell(Offset(cp, ps), c[n - 1], Offset(dp, ps), d[n - 1], h);
      OffsetInjective(cp, dp, ps);
      assert c == cp + [c[n - 1]] && d == dp + [d[n - 1]];
    }
  }

  /** The cells of one drop column are contiguous: fixing all axes but the last. */
  lemma OffsetAppend(pos: seq<nat>, k: nat, shape: seq<nat>)
    requires |pos| + 1 == |shape|
    ensures Offset(pos + [k], shape) == Offset(pos, shape[..|pos|]) * shape[|pos|] + k
  {
    assert (pos + [k])[..|pos|] == pos;
  }
}
