/** The per-fragment `main` of the scramble shader (src/app.ts:165-176) and the
    draw call that runs it once for every pixel: the destination pixel at
    `frag` shows the source texel `offset` steps further along the pixel
    order, after an optional vertical flip of the fragment coordinate. */
module Fragment {
  import opened ShaderInt
  import opened Image
  import opened BlockOrder
  import Diagonal
  import opened RowFlip

  /** The fragment coordinate, mirrored vertically when `flipY` is set (line 167). */
  function Flip(h: int, flipY: bool, frag: Coord): Coord {
    if flipY then Coord(frag.x, h - frag.y - 1) else frag
  }

  /** Lines 166-174: the texel the fragment at `frag` reads. The offset `uO`
      is added to the pixel's order index and the sum is wrapped once down
      and once up by w*h; every offset from -2*w*h on leaves an index that
      blockIndexToCoord accepts. The application passes
      `Math.floor(state.offset * w * h)` (line 233); the range of
      `state.offset` is set by a slider that is not part of this model. */
  function SourceCoord(w: int, h: int, flipY: bool, offset: int, frag: Coord): (src: Coord)
    requires ValidDims(w, h) && InImage(w, h, frag) && -2 * (w * h) <= offset
    ensures InImage(w, h, src)
  {
    var size := w * h;
    var idx := BlockCoordToIndex(w, h, Flip(h, flipY, frag)) + offset;
    BlockIndexToCoord(w, h, Wrap(size, idx))
  }

  /** Lines 170-171: one step down by `size` from `size` on, then one step up
      by `size` below 0. The result names the same residue modulo `size`
      and is never below -size. */
  function Wrap(size: int, idx: int): (r: int)
    requires 0 < size && -2 * size <= idx
    ensures -size <= r && r % size == idx % size
    ensures 0 <= idx < size ==> r == idx
  {
    var idx1 := if idx >= size then idx - size else idx;
    ShiftResidue(size, idx, idx1);
    var idx2 := if idx1 < 0 then idx1 + size else idx1;
    ShiftResidue(size, idx1, idx2);
    idx2
  }

  /** The texel read at `frag` sits exactly `offset` steps (modulo w*h)
      after the (flipped) fragment in the pixel order. */
  lemma SourceCoordShiftsOrder(w: int, h: int, flipY: bool, offset: int, frag: Coord)
    requires ValidDims(w, h) && InImage(w, h, frag) && -2 * (w * h) <= offset
    ensures BlockCoordToIndex(w, h, SourceCoord(w, h, flipY, offset, frag))
            == (BlockCoordToIndex(w, h, Flip(h, flipY, frag)) + offset) % (w * h)
  {
    hide BlockCoordToIndex, BlockIndexToCoord, Wrap;
    var size := w * h;
    var idx := BlockCoordToIndex(w, h, Flip(h, flipY, frag)) + offset;
    OrderOfIndex(w, h, Wrap(size, idx));
  }

  /** The texel read at `frag` is the pixel `offset` steps (modulo w*h)
      after the (flipped) fragment in the pixel order. */
  lemma SourceCoordIsShift(w: int, h: int, flipY: bool, offset: int, frag: Coord)
    requires ValidDims(w, h) && InImage(w, h, frag) && -2 * (w * h) <= offset
    ensures SourceCoord(w, h, flipY, offset, frag)
            == BlockIndexToCoord(w, h, (BlockCoordToIndex(w, h, Flip(h, flipY, frag)) + offset) % (w * h))
  {
    hide BlockCoordToIndex, BlockIndexToCoord, Wrap;
    var size := w * h;
    var idx := BlockCoordToIndex(w, h, Flip(h, flipY, frag)) + offset;
    var r := Wrap(size, idx);
    IndexWrapsModulo(w, h, r);
    var m := idx % size;
    DivModUnique(m, size, 0, m);
    IndexWrapsModulo(w, h, m);
  }

  /** Pixels are told apart by their order index. */
  lemma OrderIndexInjective(w: int, h: int, p: Coord, q: Coord)
    requires ValidDims(w, h) && InImage(w, h, p) && InImage(w, h, q)
    requires BlockCoordToIndex(w, h, p) == BlockCoordToIndex(w, h, q)
    ensures p == q
  {
    PixelRoundTrip(w, h, p);
    PixelRoundTrip(w, h, q);
  }

  /** With offset 0 and no flip, every fragment reads its own texel. */
  lemma SourceCoordIdentity(w: int, h: int, frag: Coord)
    requires ValidDims(w, h) && InImage(w, h, frag)
    ensures SourceCoord(w, h, false, 0, frag) == frag
  {
    var b := BlockCoordToIndex(w, h, frag);
    SourceCoordIsShift(w, h, false, 0, frag);
    DivModUnique(b, w * h, 0, b);
    PixelRoundTrip(w, h, frag);
  }

  /** With offset 0 and the flip on, the fragment at (x, y) reads (x, h-1-y). */
  lemma SourceCoordFlipOnly(w: int, h: int, frag: Coord)
    requires ValidDims(w, h) && InImage(w, h, frag)
    ensures SourceCoord(w, h, true, 0, frag) == Coord(frag.x, h - 1 - frag.y)
  {
    var p := Flip(h, true, frag);
    var b := BlockCoordToIndex(w, h, p);
    SourceCoordIsShift(w, h, true, 0, frag);
    DivModUnique(b, w * h, 0, b);
    PixelRoundTrip(w, h, p);
  }

  /** Two different fragments never read the same texel. */
  lemma SourceCoordInjective(w: int, h: int, flipY: bool, offset: int, f1: Coord, f2: Coord)
    requires ValidDims(w, h) && InImage(w, h, f1) && InImage(w, h, f2) && -2 * (w * h) <= offset
    requires SourceCoord(w, h, flipY, offset, f1) == SourceCoord(w, h, flipY, offset, f2)
    ensures f1 == f2
  {
    hide BlockCoordToIndex, BlockIndexToCoord;
    var p1, p2 := Flip(h, flipY, f1), Flip(h, flipY, f2);
    var b1, b2 := BlockCoordToIndex(w, h, p1), BlockCoordToIndex(w, h, p2);
    var src := SourceCoord(w, h, flipY, offset, f1);
    SourceCoordShiftsOrder(w, h, flipY, offset, f1);
    SourceCoordShiftsOrder(w, h, flipY, offset, f2);
    assert (b1 + offset) % (w * h) == BlockCoordToIndex(w, h, src) == (b2 + offset) % (w * h);
    ShiftInjective(w * h, offset, b1, b2);
    OrderIndexInjective(w, h, p1, p2);
    assert f1 == Flip(h, flipY, p1) && f2 == Flip(h, flipY, p2);
  }

  /** Adding the same offset modulo `size` keeps distinct indices distinct. */
  lemma ShiftInjective(size: int, offset: int, a: int, b: int)
    requires 0 < size && 0 <= a < size && 0 <= b < size
    requires (a + offset) % size == (b + offset) % size
    ensures a == b
  {
    var qa, qb := (a + offset) / size, (b + offset) / size;
    assert a + offset == qa * size + (a + offset) % size;
    assert b + offset == qb * size + (b + offset) % size;
    assert a - b == (qa - qb) * size;
    if qa > qb {
      MulMonotone(1, qa - qb, size);
    } else if qa < qb {
      MulMonotone(1, qb - qa, size);
    }
  }

  /** Every texel is read by some fragment: with SourceCoordInjective, the
      fragment-to-source map is a bijection of the pixel grid. */
  lemma SourceCoordSurjective(w: int, h: int, flipY: bool, offset: int, q: Coord)
    requires ValidDims(w, h) && InImage(w, h, q) && -2 * (w * h) <= offset
    ensures exists frag :: InImage(w, h, frag) && SourceCoord(w, h, flipY, offset, frag) == q
  {
    hide BlockCoordToIndex, BlockIndexToCoord;
    var size := w * h;
    var bq := BlockCoordToIndex(w, h, q);
    var k := (bq - offset) % size;
    var p := BlockIndexToCoord(w, h, k);
    var frag := Flip(h, flipY, p);
    assert Flip(h, flipY, frag) == p;
    OrderRoundTrip(w, h, k);
    assert BlockCoordToIndex(w, h, p) == k;
    SourceCoordIsShift(w, h, flipY, offset, frag);
    ShiftBack(size, offset, bq);
    assert (k + offset) % size == bq;
    PixelRoundTrip(w, h, q);
    assert SourceCoord(w, h, flipY, offset, frag) == BlockIndexToCoord(w, h, bq) == q;
    assert InImage(w, h, frag);
  }

  /** Stepping back by `offset` and forward again returns to the start. */
  lemma ShiftBack(size: int, offset: int, b: int)
    requires 0 < size && 0 <= b < size
    ensures ((b - offset) % size + offset) % size == b
  {
    var k := (b - offset) % size;
    var q := (b - offset) / size;
    assert b - offset == q * size + k;
    assert k + offset == -q * size + b;
    DivModUnique(k + offset, size, -q, b);
  }

  /** Without the flip, the fragment map for offset o undoes the one for
      w*h - o: scrambling by w*h - o and then by o restores every pixel. */
  lemma SourceCoordRestores(w: int, h: int, offset: int, frag: Coord)
    requires ValidDims(w, h) && InImage(w, h, frag) && 0 <= offset <= w * h
    // `hide *` here only keeps the well-formedness check of the nested call
    // from unfolding the whole pixel order; callers see the plain equation.
    ensures hide BlockCoordToIndex, BlockIndexToCoord, Wrap;
            SourceCoord(w, h, false, offset, SourceCoord(w, h, false, w * h - offset, frag)) == frag
  {
    hide BlockCoordToIndex, BlockIndexToCoord;
    var size := w * h;
    var mid := SourceCoord(w, h, false, size - offset, frag);
    var b := BlockCoordToIndex(w, h, frag);
    SourceCoordShiftsOrder(w, h, false, size - offset, frag);
    ShiftBackAround(size, offset, b);
    var bm := BlockCoordToIndex(w, h, mid);
    assert bm == (b - offset) % size;
    ShiftBack(size, offset, b);
    assert (bm + offset) % size == b;
    SourceCoordIsShift(w, h, false, offset, mid);
    assert SourceCoord(w, h, false, offset, mid) == BlockIndexToCoord(w, h, b);
    PixelRoundTrip(w, h, frag);
  }

  /** Going forward by size - offset is going back by offset. */
  lemma ShiftBackAround(size: int, offset: int, b: int)
    requires 0 < size
    ensures (b + (size - offset)) % size == (b - offset) % size
  {
    ShiftResidue(size, b - offset, b + (size - offset));
  }

  /** With the flip on, drawing the map for w*h - o again over a canvas
      drawn for o does not restore it, because each draw mirrors the rows
      once more. Mirroring the intermediate canvas back, as the export's row
      reversal does, makes the two shifts cancel: the fragment map for o,
      after the mirror, undoes the one for w*h - o. */
  lemma SourceCoordRestoresFlipped(w: int, h: int, offset: int, p: Coord)
    requires ValidDims(w, h) && InImage(w, h, p) && 0 <= offset <= w * h
    // The hide here only keeps the well-formedness check of the nested call
    // from unfolding the whole pixel order; callers see the plain equation.
    ensures hide BlockCoordToIndex, BlockIndexToCoord, Wrap;
            SourceCoord(w, h, true, offset,
              Flip(h, true, SourceCoord(w, h, true, w * h - offset, Flip(h, true, p)))) == p
  {
    hide BlockCoordToIndex, BlockIndexToCoord;
    var size := w * h;
    var f1 := Flip(h, true, p);
    var mid := SourceCoord(w, h, true, size - offset, f1);
    var f2 := Flip(h, true, mid);
    var b := BlockCoordToIndex(w, h, p);
    assert Flip(h, true, f1) == p && Flip(h, true, f2) == mid;
    SourceCoordShiftsOrder(w, h, true, size - offset, f1);
    ShiftBackAround(size, offset, b);
    var bm := BlockCoordToIndex(w, h, mid);
    assert bm == (b - offset) % size;
    ShiftBack(size, offset, b);
    SourceCoordIsShift(w, h, true, offset, f2);
    assert SourceCoord(w, h, true, offset, f2) == BlockIndexToCoord(w, h, b);
    PixelRoundTrip(w, h, p);
  }

  /** On an 8×8 image with the flip on, drawing with offset 56 and then
      drawing the result again with offset 8 moves the corner pixel (0, 0)
      to (0, 2): the second draw alone does not restore. */
  lemma FlippedRedrawMoves()
    ensures SourceCoord(8, 8, true, 8, SourceCoord(8, 8, true, 56, Coord(0, 0))) == Coord(0, 2)
  {
    hide BlockCoordToIndex, BlockIndexToCoord, SourceCoord;
    SourceCoordIsShift(8, 8, true, 56, Coord(0, 0));
    SingleBlockOrder(Coord(0, 7));
    SingleBlockPixel(48);
    assert SourceCoord(8, 8, true, 56, Coord(0, 0)) == Coord(0, 6);
    SourceCoordIsShift(8, 8, true, 8, Coord(0, 6));
    SingleBlockOrder(Coord(0, 1));
    SingleBlockPixel(16);
  }

  // ---------------------------------------------------------------------------
  // The draw call: `main` run for every pixel of a w × h canvas.

  /** Row-major position of the texel that the fragment at row-major position
      k reads. */
  function SourceIndex(w: int, h: int, flipY: bool, offset: int, k: int): (j: int)
    requires ValidDims(w, h) && 0 <= k < w * h && -2 * (w * h) <= offset
    ensures 0 <= j < w * h
  {
    PixelAtInImage(w, h, k);
    var src := SourceCoord(w, h, flipY, offset, PixelAt(w, k));
    TexelIndexInRange(w, h, src);
    TexelIndex(w, src)
  }

  /** The canvas after one draw: every fragment holds the texel its `main`
      reads from the w × h texture `src` (row-major, as uploaded). */
  function Scrambled(src: seq<Texel>, w: int, h: int, flipY: bool, offset: int): (dst: seq<Texel>)
    requires ValidDims(w, h) && |src| == w * h && -2 * (w * h) <= offset
    ensures |dst| == w * h
  {
    seq(w * h, k requires 0 <= k < w * h => src[SourceIndex(w, h, flipY, offset, k)])
  }

  /** The pixel at p of the drawn canvas is the texel at SourceCoord(p). */
  lemma ScrambledAt(src: seq<Texel>, w: int, h: int, flipY: bool, offset: int, p: Coord)
    requires ValidDims(w, h) && |src| == w * h && -2 * (w * h) <= offset && InImage(w, h, p)
    ensures 0 <= TexelIndex(w, p) < w * h
    ensures 0 <= TexelIndex(w, SourceCoord(w, h, flipY, offset, p)) < w * h
    ensures Scrambled(src, w, h, flipY, offset)[TexelIndex(w, p)]
            == src[TexelIndex(w, SourceCoord(w, h, flipY, offset, p))]
  {
    hide BlockCoordToIndex, BlockIndexToCoord;
    TexelIndexInRange(w, h, p);
    TexelIndexInRange(w, h, SourceCoord(w, h, flipY, offset, p));
  }

  /** Lines 165-176 run over a w × h canvas: a fresh image whose pixel at p
      is the texel of `src` at SourceCoord(p). `src` is left alone. */
  method Scramble(src: array<Texel>, w: int, h: int, flipY: bool, offset: int) returns (dst: array<Texel>)
    requires ValidDims(w, h) && src.Length == w * h && -2 * (w * h) <= offset
    ensures fresh(dst)
    ensures dst[..] == Scrambled(src[..], w, h, flipY, offset)
    ensures src[..] == old(src[..])
  {
    hide TexelIndex, BlockCoordToIndex, BlockIndexToCoord;
    dst := new Texel[w * h];
    RowsSpan(w, h);
    for y := 0 to h
      invariant TexelIndex(w, Coord(0, y)) <= w * h
      invariant forall k :: 0 <= k < TexelIndex(w, Coord(0, y)) ==>
                  dst[k] == Scrambled(src[..], w, h, flipY, offset)[k]
    {
      RowSpan(w, h, y);
      for x := 0 to w
        invariant TexelIndex(w, Coord(x, y)) == TexelIndex(w, Coord(0, y)) + x
        invariant forall k :: 0 <= k < TexelIndex(w, Coord(x, y)) ==>
                    dst[k] == Scrambled(src[..], w, h, flipY, offset)[k]
      {
        var frag := Coord(x, y);
        var p := SourceCoord(w, h, flipY, offset, frag);
        ScrambledAt(src[..], w, h, flipY, offset, frag);
        NextTexel(w, x, y);
        dst[TexelIndex(w, frag)] := src[TexelIndex(w, p)];
      }
    }
  }

  /** Row-major positions run from 0 at the first pixel to w*h past the
      last row. */
  lemma RowsSpan(w: int, h: int)
    ensures TexelIndex(w, Coord(0, 0)) == 0
    ensures TexelIndex(w, Coord(0, h)) == w * h
  {
  }

  /** Row y of a w-wide image holds the w positions before the start of
      row y+1, which lies inside the image. */
  lemma RowSpan(w: int, h: int, y: int)
    requires 0 < w && 0 <= y < h
    ensures TexelIndex(w, Coord(0, y)) + w == TexelIndex(w, Coord(0, y + 1)) <= w * h
  {
    MulMonotone(y + 1, h, w);
  }

  /** Pixel x + 1 of a row follows pixel x. */
  lemma NextTexel(w: int, x: int, y: int)
    ensures TexelIndex(w, Coord(x + 1, y)) == TexelIndex(w, Coord(x, y)) + 1
  {
  }

  /** With offset 0 and no flip the draw reproduces the texture. */
  lemma ScrambleIdentity(src: seq<Texel>, w: int, h: int)
    requires ValidDims(w, h) && |src| == w * h
    ensures Scrambled(src, w, h, false, 0) == src
  {
    hide BlockCoordToIndex, BlockIndexToCoord;
    var dst := Scrambled(src, w, h, false, 0);
    forall k | 0 <= k < w * h
      ensures dst[k] == src[k]
    {
      PixelAtInImage(w, h, k);
      SourceCoordIdentity(w, h, PixelAt(w, k));
    }
  }

  /** With offset 0 and the flip on the draw reproduces the texture upside
      down: the same row reversal `downloadImage` applies. */
  lemma ScrambleFlipOnly(src: seq<Texel>, w: int, h: int)
    requires ValidDims(w, h) && |src| == w * h
    ensures Scrambled(src, w, h, true, 0) == ReverseRows(src, w, h)
  {
    hide BlockCoordToIndex, BlockIndexToCoord;
    var dst := Scrambled(src, w, h, true, 0);
    forall k | 0 <= k < w * h
      ensures dst[k] == ReverseRows(src, w, h)[k]
    {
      PixelAtInImage(w, h, k);
      SourceCoordFlipOnly(w, h, PixelAt(w, k));
    }
  }

  /** Without the flip, drawing with offset o and then drawing the result
      with offset w*h - o gives back the original texture. */
  lemma ScrambleRestores(src: seq<Texel>, w: int, h: int, offset: int)
    requires ValidDims(w, h) && |src| == w * h && 0 <= offset <= w * h
    ensures Scrambled(Scrambled(src, w, h, false, offset), w, h, false, w * h - offset) == src
  {
    hide BlockCoordToIndex, BlockIndexToCoord;
    var mid := Scrambled(src, w, h, false, offset);
    var dst := Scrambled(mid, w, h, false, w * h - offset);
    forall k | 0 <= k < w * h
      ensures dst[k] == src[k]
    {
      PixelAtInImage(w, h, k);
      var p := PixelAt(w, k);
      var q := SourceCoord(w, h, false, w * h - offset, p);
      ScrambledAt(mid, w, h, false, w * h - offset, p);
      ScrambledAt(src, w, h, false, offset, q);
      SourceCoordRestores(w, h, offset, p);
    }
  }

  /** Position p of the row-reversed canvas holds the texel at the mirrored
      pixel. */
  lemma ReverseRowsFlip<T>(s: seq<T>, w: int, h: int, p: Coord)
    requires 0 < w && 0 < h && |s| == w * h && InImage(w, h, p)
    ensures 0 <= TexelIndex(w, p) < w * h && 0 <= TexelIndex(w, Flip(h, true, p)) < w * h
    ensures ReverseRows(s, w, h)[TexelIndex(w, p)] == s[TexelIndex(w, Flip(h, true, p))]
  {
    ReverseRowsAt(s, w, h, h - 1 - p.y, p.x);
  }

  /** With the flip on: draw with o, reverse the rows of the canvas (the
      export's flip), draw that with w*h - o, and the result is the texture
      with its rows reversed, which is what a draw with offset 0 shows
      (ScrambleFlipOnly). */
  lemma ScrambleRestoresFlipped(src: seq<Texel>, w: int, h: int, offset: int)
    requires ValidDims(w, h) && |src| == w * h && 0 <= offset <= w * h
    ensures Scrambled(ReverseRows(Scrambled(src, w, h, true, offset), w, h), w, h, true, w * h - offset)
            == ReverseRows(src, w, h)
  {
    hide BlockCoordToIndex, BlockIndexToCoord;
    var mid := Scrambled(src, w, h, true, offset);
    var back := ReverseRows(mid, w, h);
    var dst := Scrambled(back, w, h, true, w * h - offset);
    forall k | 0 <= k < w * h
      ensures dst[k] == ReverseRows(src, w, h)[k]
    {
      PixelAtInImage(w, h, k);
      var p := PixelAt(w, k);
      var q := SourceCoord(w, h, true, w * h - offset, p);
      ScrambledAt(back, w, h, true, w * h - offset, p);
      ReverseRowsFlip(mid, w, h, q);
      ScrambledAt(src, w, h, true, offset, Flip(h, true, q));
      assert Flip(h, true, Flip(h, true, p)) == p;
      SourceCoordRestoresFlipped(w, h, offset, Flip(h, true, p));
      ReverseRowsFlip(src, w, h, p);
    }
  }

  // ---------------------------------------------------------------------------
  // A single 8×8 block.

  /** On an 8×8 image the only block has order 0 and orientation 0, so the
      pixel order is plain row-major order. */
  lemma SingleBlockOrder(p: Coord)
    requires InImage(8, 8, p)
    ensures BlockCoordToIndex(8, 8, p) == p.x + 8 * p.y
  {
    hide BlockCoordToIndex, Diagonal.CoordToIndex, Diagonal.TriangleSum, Diagonal.IndexToCoord;
    Diagonal.SnakeStart(1, 1);
    OrderOfBlockPixel(8, 8, Coord(0, 0), p);
  }

  /** On an 8×8 image the pixel with order index k is (k mod 8, k div 8). */
  lemma SingleBlockPixel(k: int)
    requires 0 <= k < 64
    ensures BlockIndexToCoord(8, 8, k) == Coord(k % 8, k / 8)
  {
    hide BlockCoordToIndex, BlockIndexToCoord;
    var p := BlockIndexToCoord(8, 8, k);
    OrderRoundTrip(8, 8, k);
    SingleBlockOrder(p);
    DivModUnique(k, 8, p.y, p.x);
  }

  /** On an 8×8 image, offset 32 makes row y read row (y + 4) mod 8: the top
      and bottom halves swap places. */
  lemma SingleBlockHalfTurn(frag: Coord)
    requires InImage(8, 8, frag)
    ensures SourceCoord(8, 8, false, 32, frag) == Coord(frag.x, (frag.y + 4) % 8)
  {
    hide BlockCoordToIndex, BlockIndexToCoord, SourceCoord;
    var q := Coord(frag.x, (frag.y + 4) % 8);
    var src := SourceCoord(8, 8, false, 32, frag);
    SingleBlockOrder(frag);
    SingleBlockOrder(q);
    SingleBlockOrder(src);
    SourceCoordShiftsOrder(8, 8, false, 32, frag);
    DivModUnique(frag.x + 8 * frag.y + 32, 64, (frag.y + 4) / 8, frag.x + 8 * ((frag.y + 4) % 8));
    OrderIndexInjective(8, 8, src, q);
  }

  /** On an 8×8 image, drawing with offset 32 rotates the row-major texels
      by half the image. */
  lemma ScrambleHalfTurn(src: seq<Texel>)
    requires |src| == 64
    ensures forall k :: 0 <= k < 64 ==> Scrambled(src, 8, 8, false, 32)[k] == src[(k + 32) % 64]
  {
    forall k | 0 <= k < 64
      ensures Scrambled(src, 8, 8, false, 32)[k] == src[(k + 32) % 64]
    {
      HalfTurnAt(src, k);
    }
  }

  /** Row-major arithmetic of the half turn: position k = 8y + x moves to
      row (y + 4) mod 8 of the same column. */
  lemma HalfTurnIndex(k: int, x: int, y: int)
    requires 0 <= x < 8 && 0 <= y < 8 && k == 8 * y + x
    ensures TexelIndex(8, Coord(x, (y + 4) % 8)) == (k + 32) % 64
  {
    DivModUnique(k + 32, 64, (y + 4) / 8, x + 8 * ((y + 4) % 8));
  }

  lemma HalfTurnAt(src: seq<Texel>, k: int)
    requires |src| == 64 && 0 <= k < 64
    ensures Scrambled(src, 8, 8, false, 32)[k] == src[(k + 32) % 64]
  {
    hide BlockCoordToIndex, BlockIndexToCoord, SourceCoord, SourceIndex, Scrambled, PixelAt;
    PixelAtInImage(8, 8, k);
    var p := PixelAt(8, k);
    ScrambledAt(src, 8, 8, false, 32, p);
    SingleBlockHalfTurn(p);
    HalfTurnIndex(k, p.x, p.y);
  }
}
