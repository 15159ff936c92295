/** Small arithmetic vocabulary shared by the blender and the detector:
    the Rust `min`/`max`/`clamp`/`saturating_sub` operations, row-major
    indexing of flat buffers, and what it means for a function to be a
    square root (f32::sqrt is not defined here, it is passed in). */
module Numerics {

  /** `u32::min` / `usize::min` */
  function Min(a: nat, b: nat): (r: nat)
    ensures r <= a && r <= b && (r == a || r == b)
  {
    if a <= b then a else b
  }

  /** `f32::min` (no NaN in the model) */
  function MinReal(a: real, b: real): (r: real)
    ensures r <= a && r <= b && (r == a || r == b)
  {
    if a <= b then a else b
  }

  /** `f32::max` (no NaN in the model) */
  function MaxReal(a: real, b: real): (r: real)
    ensures r >= a && r >= b && (r == a || r == b)
  {
    if a >= b then a else b
  }

  /** `f32::clamp`, which panics unless `lo <= hi` */
  function Clamp(v: real, lo: real, hi: real): (r: real)
    requires lo <= hi
    ensures lo <= r <= hi
    ensures lo <= v <= hi ==> r == v
    ensures v < lo ==> r == lo
    ensures v > hi ==> r == hi
  {
    if v < lo then lo else if v > hi then hi else v
  }

  /** `u32::saturating_sub`: never below zero */
  function SaturatingSub(a: nat, b: nat): (r: nat)
    ensures a >= b ==> r + b == a
    ensures a < b ==> r == 0
  {
    if a >= b then a - b else 0
  }

  /** End (exclusive) of the watermark span along one axis, clipped to the image. */
  function ClipEnd(pos: nat, extent: nat, bound: nat): (e: nat)
    ensures e <= bound && e <= pos + extent
    ensures e == bound || e == pos + extent
  {
    Min(pos + extent, bound)
  }

  /** Position of cell (x, y) in a row-major buffer whose rows are `w` long. */
  function Idx(x: nat, y: nat, w: nat): nat
  {
    y * w + x
  }

  lemma MulMonotone(a: nat, b: nat, w: nat)
    requires a <= b
    ensures a * w <= b * w
  {
    var d := b - a;
    assert b * w == a * w + d * w;
  }

  /** Every cell of a `w` by `h` grid lands inside a buffer of `w * h` cells. */
  lemma IdxBound(x: nat, y: nat, w: nat, h: nat)
    requires x < w && y < h
    ensures Idx(x, y, w) < w * h
  {
    MulMonotone(y + 1, h, w);
    assert (y + 1) * w == y * w + w;
    assert h * w == w * h;
  }

  /** A cell that comes earlier in row-major order has a smaller index. */
  lemma IdxOrder(x1: nat, y1: nat, x2: nat, y2: nat, w: nat)
    requires x1 < w && x2 <= w
    requires y1 < y2 || (y1 == y2 && x1 < x2)
    ensures Idx(x1, y1, w) < Idx(x2, y2, w)
  {
    if y1 < y2 {
      MulMonotone(y1 + 1, y2, w);
      assert (y1 + 1) * w == y1 * w + w;
    }
  }

  /** Distinct cells of a grid with rows `w` long have distinct indices. */
  lemma IdxInjective(x1: nat, y1: nat, x2: nat, y2: nat, w: nat)
    requires x1 < w && x2 < w
    requires Idx(x1, y1, w) == Idx(x2, y2, w)
    ensures x1 == x2 && y1 == y2
  {
    if y1 < y2 || (y1 == y2 && x1 < x2) {
      IdxOrder(x1, y1, x2, y2, w);
    } else if y2 < y1 || (y1 == y2 && x2 < x1) {
      IdxOrder(x2, y2, x1, y1, w);
    }
  }

  lemma IdxInjectiveAll(w: nat)
    ensures forall x1: nat, y1: nat, x2: nat, y2: nat
              | x1 < w && x2 < w && Idx(x1, y1, w) == Idx(x2, y2, w) :: x1 == x2 && y1 == y2
  {
    forall x1: nat, y1: nat, x2: nat, y2: nat
      | x1 < w && x2 < w && Idx(x1, y1, w) == Idx(x2, y2, w)
      ensures x1 == x2 && y1 == y2
    {
      IdxInjective(x1, y1, x2, y2, w);
    }
  }

  /** Every index of a `w`-wide buffer is the index of exactly the cell (k % w, k / w). */
  lemma IdxOfDivMod(k: nat, w: nat, h: nat)
    requires w > 0 && k < w * h
    ensures k % w < w && k / w < h && Idx(k % w, k / w, w) == k
  {
    assert k == (k / w) * w + k % w;
    if k / w >= h {
      MulMonotone(h, k / w, w);
    }
  }

  /** Rows laid out one after the other: the row-major order of a flat buffer. */
  function Flatten<T>(rows: seq<seq<T>>): seq<T>
  {
    if |rows| == 0 then [] else Flatten(rows[..|rows| - 1]) + rows[|rows| - 1]
  }

  /** Every row is `w` long. */
  ghost predicate Rectangular<T>(rows: seq<seq<T>>, w: nat)
  {
    forall y | 0 <= y < |rows| :: |rows[y]| == w
  }

  lemma {:induction false} FlattenLength<T>(rows: seq<seq<T>>, w: nat)
    requires Rectangular(rows, w)
    ensures |Flatten(rows)| == |rows| * w
  {
    if |rows| > 0 {
      var n := |rows|;
      FlattenLength(rows[..n - 1], w);
      assert (n - 1) * w + w == n * w;
    }
  }

  /** Cell (x, y) of a rectangular grid sits at index `y * w + x` of its flattening. */
  lemma {:induction false} FlattenAt<T>(rows: seq<seq<T>>, w: nat, x: nat, y: nat)
    requires Rectangular(rows, w) && x < w && y < |rows|
    ensures |Flatten(rows)| == |rows| * w
    ensures Idx(x, y, w) < |Flatten(rows)| && Flatten(rows)[Idx(x, y, w)] == rows[y][x]
  {
    var n := |rows|;
    var prefix := rows[..n - 1];
    FlattenLength(rows, w);
    FlattenLength(prefix, w);
    assert Flatten(rows) == Flatten(prefix) + rows[n - 1];
    if y < n - 1 {
      FlattenAt(prefix, w, x, y);
    } else {
      assert Idx(x, y, w) == |Flatten(prefix)| + x;
    }
  }

  /** Index k of a flattened rectangular grid holds cell (k % w, k / w). */
  lemma FlattenIndex<T>(rows: seq<seq<T>>, w: nat, k: nat)
    requires Rectangular(rows, w) && k < |Flatten(rows)|
    ensures w > 0 && k % w < w && k / w < |rows|
    ensures Flatten(rows)[k] == rows[k / w][k % w]
  {
    FlattenLength(rows, w);
    assert |rows| * w == w * |rows|;
    IdxOfDivMod(k, w, |rows|);
    FlattenAt(rows, w, k % w, k / w);
  }

  /** What it means for `sqrt` to be the (real) square root on the
      non-negative reals. The quantifier fires only on `Root` terms, which
      only `SqrtFacts` introduces: proofs ask for the facts they need
      instead of having them derived for every square root in sight. */
  ghost predicate IsSqrt(sqrt: real -> real)
  {
    forall x: real {:trigger Root(sqrt, x)} :: 0.0 <= x ==> 0.0 <= Root(sqrt, x) && Root(sqrt, x) * Root(sqrt, x) == x
  }

  ghost function Root(sqrt: real -> real, x: real): real
  {
    sqrt(x)
  }

  /** The defining property of a square root, at one point. */
  lemma SqrtFacts(sqrt: real -> real, x: real)
    requires IsSqrt(sqrt) && 0.0 <= x
    ensures 0.0 <= sqrt(x) && sqrt(x) * sqrt(x) == x
  {
    assert Root(sqrt, x) == sqrt(x);
  }

  lemma MulPositive(a: real, b: real)
    requires 0.0 < a && 0.0 < b
    ensures 0.0 < a * b
  {
  }

  lemma MulNonNegative(a: real, b: real)
    requires 0.0 <= a && 0.0 <= b
    ensures 0.0 <= a * b
  {
  }

  /** Squaring is strictly monotone on the non-negative reals. */
  lemma SquareMonotone(a: real, b: real)
    requires 0.0 <= a < b
    ensures a * a < b * b
  {
    assert b * b - a * a == (b - a) * (b + a);
    MulPositive(b - a, b + a);
  }

  lemma SqrtOfSquare(sqrt: real -> real, d: real)
    requires IsSqrt(sqrt) && 0.0 <= d
    ensures sqrt(d * d) == d
  {
    var s := sqrt(d * d);
    if 0.0 < d { MulPositive(d, d); }
    SqrtFacts(sqrt, d * d);
    if s > d {
      SquareMonotone(d, s);
    } else if s < d {
      SquareMonotone(s, d);
    }
  }

  lemma SqrtZero(sqrt: real -> real)
    requires IsSqrt(sqrt)
    ensures sqrt(0.0) == 0.0
  {
    SqrtOfSquare(sqrt, 0.0);
  }

  lemma SqrtPositive(sqrt: real -> real, x: real)
    requires IsSqrt(sqrt) && 0.0 < x
    ensures 0.0 < sqrt(x)
  {
    SqrtFacts(sqrt, x);
  }

  /** The square root is monotone: a value whose square is at most `x` is at most `sqrt(x)`. */
  lemma SqrtBoundsAbs(sqrt: real -> real, v: real, x: real)
    requires IsSqrt(sqrt) && 0.0 <= x && v * v <= x
    ensures -sqrt(x) <= v <= sqrt(x)
  {
    var s := sqrt(x);
    SqrtFacts(sqrt, x);
    if v > s {
      SquareMonotone(s, v);
    }
    if -v > s {
      SquareMonotone(s, -v);
    }
  }
}
