/** The block-level "diagonal snake" order of the scramble shader
    (src/app.ts:74-131): a bijection between the cells of a bw × bh grid of
    8×8 blocks and the indices 0 .. bw*bh-1. Cells are visited anti-diagonal by
    anti-diagonal (all cells with bx + by = d form diagonal d); the direction
    along a diagonal alternates with the parity of d.

    The shader's parameter names are reused for different things from one
    function to the next; here the grid width and height are `bw` and `bh`,
    the shorter and longer side `short` and `long`. */
module Diagonal {
  import opened ShaderInt

  /** The block coordinate `c` lies inside the bw × bh grid. */
  predicate InGrid(bw: int, bh: int, c: Coord) {
    0 <= c.x < bw && 0 <= c.y < bh
  }

  /** `triangleSum(y, t, f)`: how many cells lie on diagonals 0 .. f-1. The
      closed form has three regimes: diagonals growing by one cell each, a
      plateau of `short` cells, and diagonals shrinking back to one cell.
      Every division here is exact (a product of two consecutive integers is
      even), so truncating and Euclidean division agree. */
  function TriangleSum(bw: int, bh: int, f: int): int {
    var short := Min2(bw, bh);
    var long := Max2(bw, bh);
    if f < short then f * (f + 1) / 2
    else if f < long then short * (short + 1) / 2 + short * (f - short)
    else
      var r := f - long;
      short * (short + 1) / 2 + short * (long - short) + (short - 1) * r - (r - 1) * r / 2
  }

  /** `coordToIndex(y, t, x)`: the position of block `c` in the snake order:
      the cells of the earlier diagonals, plus the cell's offset along its own
      diagonal, counted from one end or the other depending on parity. */
  function CoordToIndex(bw: int, bh: int, c: Coord): int {
    var short := Min2(bw, bh);
    var long := Max2(bw, bh);
    var v := c.x + c.y;
    var even := Mod(v, 2) == 0;
    if v < short then
      if even then TriangleSum(bw, bh, v) + v - c.y else TriangleSum(bw, bh, v) + c.y
    else if v < long then
      var s := if bw < bh then short - (bw - c.x) else bh - c.y - 1;
      if even then TriangleSum(bw, bh, v) + s else TriangleSum(bw, bh, v) + short - s - 1
    else
      var s := bh - c.y - 1;
      var e := short + long - v - 1;
      if even then TriangleSum(bw, bh, v) + s else TriangleSum(bw, bh, v) + e - s - 1
  }

  /** `indexToCoord(y, t, x)`: the closed-form inverse of CoordToIndex. The
      diagonal is recovered with a triangular root in the growing and the
      shrinking regime and with a division in the plateau. GLSL's float
      `sqrt` is replaced by the exact FloorSqrt; outside 0 .. bw*bh-1 the
      shader would take the square root of a negative number. */
  function IndexToCoord(bw: int, bh: int, i: int): (c: Coord)
    requires 1 <= bw && 1 <= bh && 0 <= i < bw * bh
    ensures InGrid(bw, bh, c)
  {
    var short := Min2(bw, bh);
    var long := Max2(bw, bh);
    if i < short * (short + 1) / 2 then GrowingIndexToCoord(bw, bh, i)
    else if i < short * (short + 1) / 2 + short * (long - short) then PlateauIndexToCoord(bw, bh, i)
    else ShrinkingIndexToCoord(bw, bh, i)
  }

  /** Lines 102-108: i lies on one of the first `short` diagonals. */
  function GrowingIndexToCoord(bw: int, bh: int, i: int): (c: Coord)
    requires 1 <= bw && 1 <= bh && 0 <= i
    requires var short := Min2(bw, bh); i < short * (short + 1) / 2
    ensures InGrid(bw, bh, c)
  {
    GrowingRegime(bw, bh, i);
    var n := TriangularRoot(i);
    var h := i - TriangleSum(bw, bh, n);
    if Mod(n, 2) == 0 then Coord(h, n - h) else Coord(n - h, h)
  }

  /** Lines 109-121: i lies on a plateau diagonal of `short` cells. */
  function PlateauIndexToCoord(bw: int, bh: int, i: int): (c: Coord)
    requires 1 <= bw && 1 <= bh
    requires var short, long := Min2(bw, bh), Max2(bw, bh);
             short * (short + 1) / 2 <= i < short * (short + 1) / 2 + short * (long - short)
    ensures InGrid(bw, bh, c)
  {
    PlateauRegime(bw, bh, i);
    var short := Min2(bw, bh);
    var k := i - short * (short + 1) / 2;
    var n := short + k / short;
    var s := Mod(k, short);
    var even := Mod(n, 2) == 0;
    var g, e, across, along := n - short + s + 1, short - s - 1, n - s, s;
    if bw > bh then
      if even then Coord(g, e) else Coord(across, along)
    else
      if even then Coord(along, across) else Coord(e, g)
  }

  /** Lines 122-130: i lies on one of the last short-1 diagonals, found by
      counting back from the last index. */
  function ShrinkingIndexToCoord(bw: int, bh: int, i: int): (c: Coord)
    requires 1 <= bw && 1 <= bh && i < bw * bh
    requires var short, long := Min2(bw, bh), Max2(bw, bh);
             short * (short + 1) / 2 + short * (long - short) <= i
    ensures InGrid(bw, bh, c)
  {
    ShrinkingRegime(bw, bh, i);
    var short := Min2(bw, bh);
    var long := Max2(bw, bh);
    var s := TriangularRoot(ShrinkingBack(bw, bh, i));
    var n := long + short - s - 2;
    var h0 := i - TriangleSum(bw, bh, n);
    var e := short + long - n - 1;
    var h := if Mod(n, 2) == 0 then e - h0 - 1 else h0;
    var y := n + h - bw + 1;
    Coord(n - y, y)
  }

  /** Line 122: how many cells of the grid come after index i, counted back
      from the last one through the size of the shrinking triangle. */
  function ShrinkingBack(bw: int, bh: int, i: int): (back: nat)
    requires 1 <= bw && 1 <= bh && i < bw * bh
    requires var short, long := Min2(bw, bh), Max2(bw, bh);
             short * (short + 1) / 2 + short * (long - short) <= i
    ensures back == bw * bh - i - 1
    ensures var t := Min2(bw, bh) - 1; 2 * back < t * (t + 1)
  {
    var short, long := Min2(bw, bh), Max2(bw, bh);
    GridTotal(bw, bh);
    HalfExact(short - 1, short);
    short * (short - 1) / 2 - (i - (short * (short + 1) / 2 + short * (long - short))) - 1
  }

  // ---------------------------------------------------------------------------
  // An independent count of the cells on each diagonal.

  /** How many of the rows 0 .. k-1 meet anti-diagonal d inside a grid of
      width bw, that is, have their column d - by in 0 .. bw-1. */
  function CellsOnDiagonal(bw: int, d: int, k: nat): nat {
    if k == 0 then 0
    else CellsOnDiagonal(bw, d, k - 1) + (if 0 <= d - (k - 1) < bw then 1 else 0)
  }

  /** How many cells of the bw × bh grid lie on diagonals 0 .. f-1. */
  function CellsBefore(bw: int, bh: nat, f: nat): nat {
    if f == 0 then 0 else CellsBefore(bw, bh, f - 1) + CellsOnDiagonal(bw, f - 1, bh)
  }

  /** The length of diagonal d in closed form: it grows, plateaus at the
      shorter side, and shrinks. */
  function DiagonalLength(bw: int, bh: int, d: int): int {
    Min2(Min2(d + 1, bw + bh - 1 - d), Min2(bw, bh))
  }

  lemma {:induction false} CellsOnDiagonalPrefix(bw: int, d: int, k: nat)
    requires 1 <= bw && 0 <= d
    ensures var lo := Max2(0, d - bw + 1);
            CellsOnDiagonal(bw, d, k) == Max2(0, Min2(k, d + 1) - lo)
  {
    if k > 0 {
      CellsOnDiagonalPrefix(bw, d, k - 1);
    }
  }

  /** Counting the cells of a diagonal gives its closed-form length. */
  lemma DiagonalLengthCounts(bw: int, bh: int, d: int)
    requires 1 <= bw && 1 <= bh && 0 <= d < bw + bh - 1
    ensures CellsOnDiagonal(bw, d, bh) == DiagonalLength(bw, bh, d)
    ensures 1 <= DiagonalLength(bw, bh, d)
  {
    CellsOnDiagonalPrefix(bw, d, bh);
  }

  // ---------------------------------------------------------------------------
  // Arithmetic facts.

  /** a*(a+1) is even, so halving it is exact. */
  lemma HalfExact(a: int, b: int)
    requires b == a + 1
    ensures a * b == 2 * (a * b / 2)
    ensures b * a == 2 * (b * a / 2)
  {
    var q := a / 2;
    assert a == 2 * q + a % 2;
    if a % 2 == 0 {
      assert a * b == 2 * (q * b);
      DivModUnique(a * b, 2, q * b, 0);
    } else {
      assert b == 2 * (q + 1);
      assert a * b == 2 * (a * (q + 1));
      DivModUnique(a * b, 2, a * (q + 1), 0);
    }
  }

  /** (f+1)(f+2) exceeds f(f+1) by 2(f+1). */
  lemma NextProduct(f: int)
    ensures (f + 1) * (f + 2) == f * (f + 1) + 2 * (f + 1)
  {
  }

  /** The three regimes' doubled counts add up to twice the grid. */
  lemma FullGrid(bw: int, bh: int)
    ensures var short, long := Min2(bw, bh), Max2(bw, bh);
            short * (short + 1) + 2 * (short * (long - short)) + short * (short - 1) == 2 * (bw * bh)
  {
    var short, long := Min2(bw, bh), Max2(bw, bh);
    assert bw * bh == short * long;
  }

  /** Twice TriangleSum, without the divisions. */
  lemma TriangleSumTwice(bw: int, bh: int, f: int)
    ensures var short, long := Min2(bw, bh), Max2(bw, bh);
            var r := f - long;
            2 * TriangleSum(bw, bh, f) ==
              if f < short then f * (f + 1)
              else if f < long then short * (short + 1) + 2 * (short * (f - short))
              else short * (short + 1) + 2 * (short * (long - short)) + 2 * ((short - 1) * r) - (r - 1) * r
  {
    var short, long := Min2(bw, bh), Max2(bw, bh);
    HalfExact(f, f + 1);
    HalfExact(short, short + 1);
    HalfExact(f - long - 1, f - long);
  }

  /** The grid splits into the three regimes: short(short+1)/2 cells growing,
      short*(long-short) on the plateau and short(short-1)/2 shrinking. */
  lemma GridTotal(bw: int, bh: int)
    ensures var short, long := Min2(bw, bh), Max2(bw, bh);
            bw * bh == short * (short + 1) / 2 + short * (long - short) + short * (short - 1) / 2
  {
    var short, long := Min2(bw, bh), Max2(bw, bh);
    HalfExact(short, short + 1);
    HalfExact(short - 1, short);
    assert bw * bh == short * long;
  }

  // ---------------------------------------------------------------------------
  // Properties of TriangleSum.

  /** Going from f to f+1 adds exactly the cells of diagonal f. */
  lemma TriangleSumStep(bw: int, bh: int, f: int)
    requires 1 <= bw && 1 <= bh && 0 <= f < bw + bh - 1
    ensures TriangleSum(bw, bh, f + 1) == TriangleSum(bw, bh, f) + DiagonalLength(bw, bh, f)
  {
    var short, long := Min2(bw, bh), Max2(bw, bh);
    if f < short {
      StepGrowing(bw, bh, f);
    } else if f < long {
      StepPlateau(bw, bh, f);
    } else {
      StepShrinking(bw, bh, f);
    }
  }

  lemma StepGrowing(bw: int, bh: int, f: int)
    requires 1 <= bw && 1 <= bh && 0 <= f < Min2(bw, bh)
    ensures 2 * TriangleSum(bw, bh, f + 1) == 2 * TriangleSum(bw, bh, f) + 2 * (f + 1)
  {
    hide TriangleSum;
    var short, long := Min2(bw, bh), Max2(bw, bh);
    TriangleSumTwice(bw, bh, f);
    TriangleSumTwice(bw, bh, f + 1);
    NextProduct(f);
  }

  lemma StepPlateau(bw: int, bh: int, f: int)
    requires 1 <= bw && 1 <= bh && Min2(bw, bh) <= f < Max2(bw, bh)
    ensures 2 * TriangleSum(bw, bh, f + 1) == 2 * TriangleSum(bw, bh, f) + 2 * Min2(bw, bh)
  {
    var short, long := Min2(bw, bh), Max2(bw, bh);
    TriangleSumTwice(bw, bh, f);
    TriangleSumTwice(bw, bh, f + 1);
    assert short * (f + 1 - short) == short * (f - short) + short;
  }

  lemma StepShrinking(bw: int, bh: int, f: int)
    requires 1 <= bw && 1 <= bh && Max2(bw, bh) <= f
    ensures 2 * TriangleSum(bw, bh, f + 1) == 2 * TriangleSum(bw, bh, f) + 2 * (bw + bh - 1 - f)
  {
    var short, long := Min2(bw, bh), Max2(bw, bh);
    TriangleSumTwice(bw, bh, f);
    TriangleSumTwice(bw, bh, f + 1);
    var r := f - long;
    assert (short - 1) * (r + 1) == (short - 1) * r + (short - 1);
    assert r * (r + 1) == (r - 1) * r + 2 * r;
  }

  /** TriangleSum(f) is the number of grid cells with bx + by < f. */
  lemma {:induction false} TriangleSumCountsCells(bw: int, bh: int, f: nat)
    requires 1 <= bw && 1 <= bh && f <= bw + bh - 1
    ensures TriangleSum(bw, bh, f) == CellsBefore(bw, bh, f)
  {
    if f == 0 {
      TriangleSumTwice(bw, bh, 0);
    } else {
      TriangleSumCountsCells(bw, bh, f - 1);
      TriangleSumStep(bw, bh, f - 1);
      DiagonalLengthCounts(bw, bh, f - 1);
    }
  }

  /** No cell before diagonal 0; all bw*bh cells before diagonal bw+bh-1. */
  lemma TriangleSumEnds(bw: int, bh: int)
    requires 1 <= bw && 1 <= bh
    ensures TriangleSum(bw, bh, 0) == 0
    ensures TriangleSum(bw, bh, bw + bh - 1) == bw * bh
  {
    hide *;
    var short, long := Min2(bw, bh), Max2(bw, bh);
    TriangleSumTwice(bw, bh, 0);
    TriangleSumTwice(bw, bh, bw + bh - 1);
    ShrinkingTail(short, -1, short - 1);
    FullGrid(bw, bh);
  }

  /** TriangleSum grows strictly across the diagonals of the grid. */
  lemma {:induction false} TriangleSumMonotone(bw: int, bh: int, a: int, b: int)
    requires 1 <= bw && 1 <= bh && 0 <= a <= b <= bw + bh - 1
    ensures TriangleSum(bw, bh, a) + (b - a) <= TriangleSum(bw, bh, b)
    decreases b - a
  {
    if a < b {
      TriangleSumMonotone(bw, bh, a, b - 1);
      TriangleSumStep(bw, bh, b - 1);
    }
  }

  /** At most one diagonal d brackets a given index: TriangleSum(d) <= i < TriangleSum(d+1). */
  lemma DiagonalBracketUnique(bw: int, bh: int, i: int, a: int, b: int)
    requires 1 <= bw && 1 <= bh && 0 <= a < bw + bh - 1 && 0 <= b < bw + bh - 1
    requires TriangleSum(bw, bh, a) <= i < TriangleSum(bw, bh, a + 1)
    requires TriangleSum(bw, bh, b) <= i < TriangleSum(bw, bh, b + 1)
    ensures a == b
  {
    if a < b {
      TriangleSumMonotone(bw, bh, a + 1, b);
    } else if b < a {
      TriangleSumMonotone(bw, bh, b + 1, a);
    }
  }

  // ---------------------------------------------------------------------------
  // Properties of CoordToIndex and IndexToCoord.

  /** A block's index lies among the indices of its own diagonal. */
  lemma CoordToIndexOnDiagonal(bw: int, bh: int, c: Coord)
    requires 1 <= bw && 1 <= bh && InGrid(bw, bh, c)
    ensures var v := c.x + c.y;
            TriangleSum(bw, bh, v) <= CoordToIndex(bw, bh, c) < TriangleSum(bw, bh, v + 1)
  {
    TriangleSumStep(bw, bh, c.x + c.y);
  }

  /** Every block of the grid gets an index in 0 .. bw*bh-1. */
  lemma CoordToIndexRange(bw: int, bh: int, c: Coord)
    requires 1 <= bw && 1 <= bh && InGrid(bw, bh, c)
    ensures 0 <= CoordToIndex(bw, bh, c) < bw * bh
  {
    var v := c.x + c.y;
    CoordToIndexOnDiagonal(bw, bh, c);
    TriangleSumEnds(bw, bh);
    TriangleSumMonotone(bw, bh, 0, v);
    TriangleSumMonotone(bw, bh, v + 1, bw + bh - 1);
  }

  /** The snake starts in the corner block (0, 0). */
  lemma SnakeStart(bw: int, bh: int)
    requires 1 <= bw && 1 <= bh
    ensures CoordToIndex(bw, bh, Coord(0, 0)) == 0
  {
    TriangleSumEnds(bw, bh);
  }

  /** Two blocks of the same diagonal with the same index are the same block. */
  lemma CoordToIndexInjectiveOnDiagonal(bw: int, bh: int, c: Coord, c': Coord)
    requires c.x + c.y == c'.x + c'.y
    requires CoordToIndex(bw, bh, c) == CoordToIndex(bw, bh, c')
    ensures c == c'
  {
  }

  /** Products of consecutive naturals order like the naturals themselves. */
  lemma ConsecutiveProductLess(a: int, b: int)
    requires 0 <= a && 0 <= b && a * (a + 1) < b * (b + 1)
    ensures a < b
  {
    if a >= b {
      MulMonotone(b, a, b + 1);
      MulMonotone(b + 1, a + 1, a);
    }
  }

  /** The cells still to come after diagonal n in the shrinking regime, where
      r = n - long and the diagonal holds s + 1 cells. */
  lemma ShrinkingTail(short: int, s: int, r: int)
    requires r == short - s - 2
    ensures 2 * ((short - 1) * r) - (r - 1) * r == short * (short - 1) - (s + 1) * (s + 2)
  {
  }

  /** The growing regime of IndexToCoord: the triangular root finds the
      diagonal n holding index i, and n is shorter than both sides. */
  lemma GrowingRegime(bw: int, bh: int, i: int)
    requires 1 <= bw && 1 <= bh && 0 <= i
    requires var short := Min2(bw, bh); i < short * (short + 1) / 2
    ensures var n := TriangularRoot(i);
            0 <= n < Min2(bw, bh) &&
            TriangleSum(bw, bh, n) <= i < TriangleSum(bw, bh, n) + n + 1 &&
            TriangleSum(bw, bh, n + 1) == TriangleSum(bw, bh, n) + n + 1
  {
    hide *;
    var short := Min2(bw, bh);
    var n := TriangularRoot(i);
    HalfExact(short, short + 1);
    ConsecutiveProductLess(n, short);
    TriangleSumTwice(bw, bh, n);
    NextProduct(n);
    StepGrowing(bw, bh, n);
  }

  /** The plateau regime of IndexToCoord: dividing by the shorter side finds
      the diagonal n, and the remainder is the offset along it. */
  lemma PlateauRegime(bw: int, bh: int, i: int)
    requires 1 <= bw && 1 <= bh
    requires var short, long := Min2(bw, bh), Max2(bw, bh);
             short * (short + 1) / 2 <= i < short * (short + 1) / 2 + short * (long - short)
    ensures var short, long := Min2(bw, bh), Max2(bw, bh);
            var k := i - short * (short + 1) / 2;
            var n := short + k / short;
            short <= n < long && k % short == i - TriangleSum(bw, bh, n) &&
            TriangleSum(bw, bh, n + 1) == TriangleSum(bw, bh, n) + short
  {
    hide *;
    var short, long := Min2(bw, bh), Max2(bw, bh);
    var k := i - short * (short + 1) / 2;
    DivideSpan(k, short, long - short);
    PlateauValue(bw, bh, k / short);
    StepPlateau(bw, bh, short + k / short);
  }

  /** An index below u*span splits into one of `span` whole rows of u and
      a remainder. */
  lemma DivideSpan(k: int, u: int, span: int)
    requires 0 < u && 0 <= k < u * span
    ensures 0 <= k / u < span && k == u * (k / u) + k % u && 0 <= k % u < u
  {
    var q := k / u;
    assert k == q * u + k % u;
    if q >= span {
      MulMonotone(span, q, u);
    }
  }

  /** TriangleSum on plateau diagonal short+q: the growing triangle plus
      `short` cells for each of the q plateau diagonals before it. */
  lemma PlateauValue(bw: int, bh: int, q: int)
    requires 0 <= q < Max2(bw, bh) - Min2(bw, bh)
    ensures var short := Min2(bw, bh);
            TriangleSum(bw, bh, short + q) == short * (short + 1) / 2 + short * q
  {
  }

  /** The shrinking regime of IndexToCoord: counting back from the last
      index, the triangular root finds s, and diagonal n = long+short-s-2
      holds s+1 cells, among them index i. */
  lemma ShrinkingRegime(bw: int, bh: int, i: int)
    requires 1 <= bw && 1 <= bh && i < bw * bh
    requires var short, long := Min2(bw, bh), Max2(bw, bh);
             short * (short + 1) / 2 + short * (long - short) <= i
    ensures var s := TriangularRoot(ShrinkingBack(bw, bh, i));
            var n := Max2(bw, bh) + Min2(bw, bh) - s - 2;
            0 <= s <= Min2(bw, bh) - 2 &&
            TriangleSum(bw, bh, n) <= i <= TriangleSum(bw, bh, n) + s &&
            TriangleSum(bw, bh, n + 1) == TriangleSum(bw, bh, n) + s + 1
  {
    hide *;
    var short, long := Min2(bw, bh), Max2(bw, bh);
    var back := ShrinkingBack(bw, bh, i);
    var s := TriangularRoot(back);
    ConsecutiveProductLess(s, short - 1);
    var n := long + short - s - 2;
    ShrinkingValue(bw, bh, n, s);
    HalfExact(s + 1, s + 2);
    BracketFromDoubles(TriangleSum(bw, bh, n), i, back, s * (s + 1), (s + 1) * (s + 2), s, bw * bh);
    StepShrinking(bw, bh, n);
  }

  /** The linear core of the shrinking bracket, with the two products named:
      lo = s(s+1), hi = (s+1)(s+2). */
  lemma BracketFromDoubles(t: int, i: int, back: int, lo: int, hi: int, s: int, total: int)
    requires hi == lo + 2 * s + 2 && hi == 2 * (hi / 2)
    requires 2 * t == 2 * total - hi
    requires 2 * i == 2 * total - 2 * back - 2
    requires lo <= 2 * back < hi
    ensures t <= i <= t + s
  {
  }

  /** TriangleSum on diagonal n = long+short-s-2 of the shrinking regime:
      all but the last (s+1)(s+2)/2 cells. */
  lemma ShrinkingValue(bw: int, bh: int, n: int, s: int)
    requires 1 <= bw && 1 <= bh && 0 <= s <= Min2(bw, bh) - 2
    requires n == Max2(bw, bh) + Min2(bw, bh) - s - 2
    ensures 2 * TriangleSum(bw, bh, n) == 2 * (bw * bh) - (s + 1) * (s + 2)
  {
    hide TriangleSum;
    var short, long := Min2(bw, bh), Max2(bw, bh);
    TriangleSumTwice(bw, bh, n);
    ShrinkingTail(short, s, n - long);
    FullGrid(bw, bh);
  }

  /** IndexToCoord lands on the diagonal that brackets i, and CoordToIndex
      maps it back to i. */
  lemma IndexToCoordCorrect(bw: int, bh: int, i: int)
    requires 1 <= bw && 1 <= bh && 0 <= i < bw * bh
    ensures var c := IndexToCoord(bw, bh, i);
            var v := c.x + c.y;
            0 <= v < bw + bh - 1 &&
            TriangleSum(bw, bh, v) <= i < TriangleSum(bw, bh, v + 1) &&
            CoordToIndex(bw, bh, c) == i
  {
    hide GrowingIndexToCoord, PlateauIndexToCoord, ShrinkingIndexToCoord, TriangleSum, CoordToIndex;
    var short, long := Min2(bw, bh), Max2(bw, bh);
    if i < short * (short + 1) / 2 {
      GrowingCorrect(bw, bh, i);
    } else if i < short * (short + 1) / 2 + short * (long - short) {
      PlateauCorrect(bw, bh, i);
    } else {
      ShrinkingCorrect(bw, bh, i);
    }
  }

  lemma GrowingCorrect(bw: int, bh: int, i: int)
    requires 1 <= bw && 1 <= bh && 0 <= i < bw * bh
    requires var short := Min2(bw, bh); i < short * (short + 1) / 2
    ensures var c := GrowingIndexToCoord(bw, bh, i);
            var v := c.x + c.y;
            0 <= v < bw + bh - 1 &&
            TriangleSum(bw, bh, v) <= i < TriangleSum(bw, bh, v + 1) &&
            CoordToIndex(bw, bh, c) == i
  {
    hide TriangleSum;
    GrowingRegime(bw, bh, i);
    var n := TriangularRoot(i);
    var h := i - TriangleSum(bw, bh, n);
    var c := GrowingIndexToCoord(bw, bh, i);
    assert c == if Mod(n, 2) == 0 then Coord(h, n - h) else Coord(n - h, h);
    assert c.x + c.y == n;
  }

  lemma PlateauCorrect(bw: int, bh: int, i: int)
    requires 1 <= bw && 1 <= bh && 0 <= i < bw * bh
    requires var short, long := Min2(bw, bh), Max2(bw, bh);
             short * (short + 1) / 2 <= i < short * (short + 1) / 2 + short * (long - short)
    ensures var c := PlateauIndexToCoord(bw, bh, i);
            var v := c.x + c.y;
            0 <= v < bw + bh - 1 &&
            TriangleSum(bw, bh, v) <= i < TriangleSum(bw, bh, v + 1) &&
            CoordToIndex(bw, bh, c) == i
  {
    hide TriangleSum;
    var short, long := Min2(bw, bh), Max2(bw, bh);
    PlateauRegime(bw, bh, i);
    var k := i - short * (short + 1) / 2;
    var n := short + k / short;
    var s := k % short;
    var c := PlateauIndexToCoord(bw, bh, i);
    var even := Mod(n, 2) == 0;
    if bw > bh {
      assert c == if even then Coord(n - short + s + 1, short - s - 1) else Coord(n - s, s);
    } else {
      assert c == if even then Coord(s, n - s) else Coord(short - s - 1, n - short + s + 1);
    }
    assert c.x + c.y == n;
  }

  lemma ShrinkingCorrect(bw: int, bh: int, i: int)
    requires 1 <= bw && 1 <= bh && 0 <= i < bw * bh
    requires var short, long := Min2(bw, bh), Max2(bw, bh);
             short * (short + 1) / 2 + short * (long - short) <= i
    ensures var c := ShrinkingIndexToCoord(bw, bh, i);
            var v := c.x + c.y;
            0 <= v < bw + bh - 1 &&
            TriangleSum(bw, bh, v) <= i < TriangleSum(bw, bh, v + 1) &&
            CoordToIndex(bw, bh, c) == i
  {
    hide TriangleSum, ShrinkingBack, TriangularRoot;
    var short, long := Min2(bw, bh), Max2(bw, bh);
    ShrinkingRegime(bw, bh, i);
    var s := TriangularRoot(ShrinkingBack(bw, bh, i));
    var n := long + short - s - 2;
    var h0 := i - TriangleSum(bw, bh, n);
    var e := short + long - n - 1;
    var h := if Mod(n, 2) == 0 then e - h0 - 1 else h0;
    var c := ShrinkingIndexToCoord(bw, bh, i);
    assert c.x + c.y == n;
  }

  /** Every index of the grid decodes to a block that encodes back to it. */
  lemma CoordToIndexOfIndexToCoord(bw: int, bh: int, i: int)
    requires 1 <= bw && 1 <= bh && 0 <= i < bw * bh
    ensures CoordToIndex(bw, bh, IndexToCoord(bw, bh, i)) == i
  {
    IndexToCoordCorrect(bw, bh, i);
  }

  /** Every block of the grid encodes to an index that decodes back to it:
      together with CoordToIndexOfIndexToCoord, the snake order is a
      bijection between the grid and 0 .. bw*bh-1. */
  lemma IndexToCoordOfCoordToIndex(bw: int, bh: int, c: Coord)
    requires 1 <= bw && 1 <= bh && InGrid(bw, bh, c)
    ensures 0 <= CoordToIndex(bw, bh, c) < bw * bh
    ensures IndexToCoord(bw, bh, CoordToIndex(bw, bh, c)) == c
  {
    hide TriangleSum, IndexToCoord;
    var i := CoordToIndex(bw, bh, c);
    CoordToIndexRange(bw, bh, c);
    CoordToIndexOnDiagonal(bw, bh, c);
    IndexToCoordCorrect(bw, bh, i);
    var c' := IndexToCoord(bw, bh, i);
    DiagonalBracketUnique(bw, bh, i, c.x + c.y, c'.x + c'.y);
    CoordToIndexInjectiveOnDiagonal(bw, bh, c, c');
  }
}
