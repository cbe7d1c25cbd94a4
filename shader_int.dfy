/** Integer helpers of the scramble fragment shader (src/app.ts:70-72) and the
    exact integer square root that stands in for the shader's float `sqrt`.

    GLSL `int` division truncates toward zero. Dafny's `/` and `%` are Euclidean;
    the two agree whenever the dividend is non-negative and the divisor positive,
    and on every exact division. The model writes `/` only in such places and
    spells the shader's own `mod` out with a truncating quotient. */
module ShaderInt {

  /** The shader's `ivec2`: a pixel, a block, or a local offset inside a block. */
  datatype Coord = Coord(x: int, y: int)

  /** GLSL integer division: the quotient truncated toward zero. */
  function Quot(i: int, u: int): int
    requires u != 0
  {
    if i >= 0 then i / u else -((-i) / u)
  }

  /** The shader's `mod(i, u) = i - (i/u)*u`: a remainder that takes the sign of
      the dividend. It is Dafny's `%` exactly when the dividend is non-negative. */
  function Mod(i: int, u: int): (r: int)
    requires u != 0
    ensures 0 <= i && 0 < u ==> r == i % u
    ensures i < 0 && 0 < u ==> r == -((-i) % u) && -u < r <= 0
  {
    if 0 < u then QuotRemainder(i, u); i - Quot(i, u) * u
    else i - Quot(i, u) * u
  }

  /** What remains after the truncated quotient, in terms of Dafny's `%`. */
  lemma QuotRemainder(i: int, u: int)
    requires 0 < u
    ensures i - Quot(i, u) * u == if i >= 0 then i % u else -((-i) % u)
  {
    if i >= 0 {
      assert i == (i / u) * u + i % u;
    } else {
      assert -i == ((-i) / u) * u + (-i) % u;
    }
  }

  /** `min2` */
  function Min2(a: int, b: int): (r: int)
    ensures r <= a && r <= b && (r == a || r == b)
  {
    if a < b then a else b
  }

  /** `max2` */
  function Max2(a: int, b: int): (r: int)
    ensures r >= a && r >= b && (r == a || r == b)
  {
    if a > b then a else b
  }

  /** The exact floor square root that replaces `int(sqrt(float(n)))`. */
  function FloorSqrt(n: nat): (r: nat)
    ensures r * r <= n < (r + 1) * (r + 1)
  {
    if n == 0 then 0
    else
      var r := FloorSqrt(n - 1);
      if (r + 1) * (r + 1) <= n then r + 1 else r
  }

  /** Squaring is monotone on the naturals. */
  lemma SquareMonotone(a: nat, b: nat)
    requires a <= b
    ensures a * a <= b * b
  {
    assert a * a <= a * b <= b * b;
  }

  lemma OddSquare(t: int)
    ensures (2 * t + 1) * (2 * t + 1) == 4 * (t * (t + 1)) + 1
  {
  }

  /** The shader's triangular-root formula `(-1 + sqrt(8k + 1)) / 2` with an
      exact square root: the unique t with t(t+1)/2 <= k < (t+1)(t+2)/2, that
      is, the number of the diagonal on which the k-th cell of a triangle lies. */
  function TriangularRoot(k: nat): (t: nat)
    ensures t * (t + 1) <= 2 * k < (t + 1) * (t + 2)
  {
    TriangularRootBracket(k);
    (-1 + FloorSqrt(8 * k + 1)) / 2
  }

  lemma TriangularRootBracket(k: nat)
    ensures var t := (-1 + FloorSqrt(8 * k + 1)) / 2;
            0 <= t && t * (t + 1) <= 2 * k < (t + 1) * (t + 2)
  {
    hide FloorSqrt;
    var q := FloorSqrt(8 * k + 1);
    assert q >= 1;
    var t := (-1 + q) / 2;
    assert 2 * t + 1 <= q <= 2 * t + 2;
    SquareMonotone(2 * t + 1, q);
    SquareMonotone(q + 1, 2 * t + 3);
    OddSquare(t);
    OddSquare(t + 1);
    assert 4 * (t * (t + 1)) + 1 <= 8 * k + 1;
    assert 8 * k + 1 < 4 * ((t + 1) * (t + 2)) + 1;
  }

  lemma MulMonotone(a: int, b: int, c: int)
    requires 0 <= c && a <= b
    ensures a * c <= b * c
  {
  }

  /** Dividing q*u + r by u, with 0 <= r < u, gives back q and r. */
  lemma DivModUnique(k: int, u: int, q: int, r: int)
    requires 0 < u && 0 <= r < u && k == q * u + r
    ensures k / u == q && k % u == r
  {
    var q', r' := k / u, k % u;
    assert k == q' * u + r';
    if q > q' {
      MulMonotone(1, q - q', u);
    } else if q < q' {
      MulMonotone(1, q' - q, u);
    }
  }

  /** Moving by at most one multiple of `u` keeps the residue modulo `u`. */
  lemma ShiftResidue(u: int, a: int, b: int)
    requires 0 < u && (b == a || b == a - u || b == a + u)
    ensures b % u == a % u
  {
    var q := a / u;
    assert a == q * u + a % u;
    if b == a - u {
      DivModUnique(b, u, q - 1, a % u);
    } else if b == a + u {
      DivModUnique(b, u, q + 1, a % u);
    }
  }
}
