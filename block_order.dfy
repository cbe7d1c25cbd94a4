/** The pixel-level order of the scramble shader (src/app.ts:133-163): a pixel's
    order index is its block's position in the diagonal snake order times 64,
    plus its position inside the 8×8 block, read in one of four orientations
    chosen by the block's order index modulo 4. */
module BlockOrder {
  import opened ShaderInt
  import opened Image
  import opened Diagonal

  /** Lines 139-143: the local index of the pixel at (lx, ly) inside its
      block under orientation `variant`: 0 reads rows, 1 mirrors x, 2
      transposes, 3 transposes and mirrors. */
  function OrientedLocalIndex(variant: int, lx: int, ly: int): int {
    var rx := if variant == 1 then 7 - lx
              else if variant == 2 then ly
              else if variant == 3 then 7 - ly
              else lx;
    var ry := if variant == 2 || variant == 3 then lx else ly;
    rx + ry * 8
  }

  /** Lines 152-161: the position inside its block of the pixel with local
      index `local` under orientation `variant`. */
  function LocalOffset(variant: int, local: int): Coord
    requires 0 <= local < 64
  {
    var row := local / 8;
    var col := local - row * 8;
    if variant == 0 then Coord(col, row)
    else if variant == 1 then Coord(7 - col, row)
    else if variant == 2 then Coord(row, col)
    else if variant == 3 then Coord(row, 7 - col)
    else Coord(0, 0)
  }

  /** `blockCoordToIndex(v)`: the order index of pixel `p`. */
  function BlockCoordToIndex(w: int, h: int, p: Coord): (i: int)
    requires ValidDims(w, h) && InImage(w, h, p)
    ensures 0 <= i < w * h
  {
    var bw, bh := w / 8, h / 8;
    var block := Coord(p.x / 8, p.y / 8);
    CoordToIndexRange(bw, bh, block);
    var order := CoordToIndex(bw, bh, block);
    var variant := Mod(order, 4);
    var local := OrientedLocalIndex(variant, Mod(p.x, 8), Mod(p.y, 8));
    LocalIndexRoundTrip(variant, Mod(p.x, 8), Mod(p.y, 8));
    BlockIndexBound(bw, bh, order, local);
    order * 64 + local
  }

  /** `blockIndexToCoord(i)`: the pixel with order index `i`. An index in
      -w*h .. -1 is first moved up by w*h (line 148) and every index is then
      reduced modulo w*h (line 149). Below -w*h the truncating remainder of
      line 149 can stay negative (an exact multiple of w*h becomes 0), and a
      negative index then either leaves its block at lines 158-161 or makes
      indexToCoord take the square root of a negative number. The model
      admits the indices from -w*h on, which covers every index `main`
      passes for an offset from -2*w*h on. */
  function BlockIndexToCoord(w: int, h: int, i: int): (p: Coord)
    requires ValidDims(w, h) && -(w * h) <= i
    ensures InImage(w, h, p)
  {
    var size := w * h;
    var j := if i < 0 then i + size else i;
    PixelOfOrder(w, h, Mod(j, size))
  }

  /** Lines 150-162: the pixel with order index k in 0 .. w*h-1: block
      k / 64 of the snake order, local index k mod 64 read under that
      block's orientation. */
  function PixelOfOrder(w: int, h: int, k: int): (p: Coord)
    requires ValidDims(w, h) && 0 <= k < w * h
    ensures InImage(w, h, p)
  {
    var bw, bh := w / 8, h / 8;
    var order := k / 64;
    var local := k - order * 64;
    var variant := Mod(order, 4);
    OrderOfIndexBound(bw, bh, k);
    var block := IndexToCoord(bw, bh, order);
    var offset := LocalOffset(variant, local);
    LocalOffsetRoundTrip(variant, local);
    PixelOfBlockBound(w, h, block, offset);
    Coord(block.x * 8 + offset.x, block.y * 8 + offset.y)
  }

  // ---------------------------------------------------------------------------
  // Arithmetic facts about blocks.

  lemma BlockIndexBound(bw: int, bh: int, order: int, local: int)
    requires 0 <= order < bw * bh && 0 <= local < 64
    ensures 0 <= order * 64 + local < (bw * 8) * (bh * 8)
  {
    MulMonotone(order + 1, bw * bh, 64);
  }

  lemma OrderOfIndexBound(bw: int, bh: int, k: int)
    requires 0 <= k < (bw * 8) * (bh * 8)
    ensures 0 <= k / 64 < bw * bh
  {
    if k / 64 >= bw * bh {
      MulMonotone(bw * bh, k / 64, 64);
    }
  }

  lemma PixelOfBlockBound(w: int, h: int, block: Coord, offset: Coord)
    requires ValidDims(w, h) && InGrid(w / 8, h / 8, block)
    requires 0 <= offset.x < 8 && 0 <= offset.y < 8
    ensures InImage(w, h, Coord(block.x * 8 + offset.x, block.y * 8 + offset.y))
  {
  }

  // ---------------------------------------------------------------------------
  // The four orientations.

  /** Encoding a local position under any of the four orientations gives an
      index in 0 .. 63, and decoding it under the same orientation gives the
      position back. */
  lemma LocalIndexRoundTrip(variant: int, lx: int, ly: int)
    requires 0 <= variant < 4 && 0 <= lx < 8 && 0 <= ly < 8
    ensures 0 <= OrientedLocalIndex(variant, lx, ly) < 64
    ensures LocalOffset(variant, OrientedLocalIndex(variant, lx, ly)) == Coord(lx, ly)
  {
    var local := OrientedLocalIndex(variant, lx, ly);
    if variant == 0 || variant == 1 {
      DivModUnique(local, 8, ly, local - ly * 8);
    } else {
      DivModUnique(local, 8, lx, local - lx * 8);
    }
  }

  /** Decoding a local index under any orientation gives a position inside
      the block that encodes back to the same index. */
  lemma LocalOffsetRoundTrip(variant: int, local: int)
    requires 0 <= variant < 4 && 0 <= local < 64
    ensures var o := LocalOffset(variant, local);
            0 <= o.x < 8 && 0 <= o.y < 8 && OrientedLocalIndex(variant, o.x, o.y) == local
  {
    assert local == (local / 8) * 8 + local % 8;
  }

  // ---------------------------------------------------------------------------
  // The pixel order.

  /** Every pixel gets back the pixel it came from: BlockIndexToCoord undoes
      BlockCoordToIndex. */
  lemma PixelRoundTrip(w: int, h: int, p: Coord)
    requires ValidDims(w, h) && InImage(w, h, p)
    ensures BlockIndexToCoord(w, h, BlockCoordToIndex(w, h, p)) == p
  {
    var i := BlockCoordToIndex(w, h, p);
    DivModUnique(i, w * h, 0, i);
    assert BlockIndexToCoord(w, h, i) == PixelOfOrder(w, h, i);
    PixelOfOrderOfPixel(w, h, p);
  }

  lemma PixelOfOrderOfPixel(w: int, h: int, p: Coord)
    requires ValidDims(w, h) && InImage(w, h, p)
    ensures PixelOfOrder(w, h, BlockCoordToIndex(w, h, p)) == p
  {
    hide IndexToCoord, CoordToIndex, TriangleSum, PixelOfOrder, BlockCoordToIndex, LocalOffset;
    var block := Coord(p.x / 8, p.y / 8);
    var offset := Coord(p.x % 8, p.y % 8);
    assert p == Coord(block.x * 8 + offset.x, block.y * 8 + offset.y);
    IndexToCoordOfCoordToIndex(w / 8, h / 8, block);
    var order := CoordToIndex(w / 8, h / 8, block);
    OrderOfBlockPixel(w, h, block, offset);
    LocalIndexRoundTrip(Mod(order, 4), offset.x, offset.y);
    PixelOfBlockIndex(w, h, order, OrientedLocalIndex(Mod(order, 4), offset.x, offset.y));
  }

  /** The pixel with order index order*64 + local lies in block `order` of
      the snake order, at the offset `local` decodes to under that block's
      orientation. */
  lemma PixelOfBlockIndex(w: int, h: int, order: int, local: int)
    requires ValidDims(w, h) && 0 <= order < (w / 8) * (h / 8) && 0 <= local < 64
    ensures 0 <= order * 64 + local < w * h
    ensures var block := IndexToCoord(w / 8, h / 8, order);
            var offset := LocalOffset(Mod(order, 4), local);
            PixelOfOrder(w, h, order * 64 + local) == Coord(block.x * 8 + offset.x, block.y * 8 + offset.y)
  {
    hide IndexToCoord, CoordToIndex, TriangleSum, LocalOffset;
    BlockIndexBound(w / 8, h / 8, order, local);
    DivModUnique(order * 64 + local, 64, order, local);
  }

  /** Every order index in 0 .. w*h-1 gets back the index it came from:
      BlockCoordToIndex undoes BlockIndexToCoord. With PixelRoundTrip, the
      two are mutually inverse bijections between the pixels of the image
      and 0 .. w*h-1. */
  lemma OrderRoundTrip(w: int, h: int, i: int)
    requires ValidDims(w, h) && 0 <= i < w * h
    ensures BlockCoordToIndex(w, h, BlockIndexToCoord(w, h, i)) == i
  {
    hide PixelOfOrder, BlockCoordToIndex;
    DivModUnique(i, w * h, 0, i);
    assert BlockIndexToCoord(w, h, i) == PixelOfOrder(w, h, i);
    OrderOfPixelOfOrder(w, h, i);
  }

  lemma OrderOfPixelOfOrder(w: int, h: int, k: int)
    requires ValidDims(w, h) && 0 <= k < w * h
    ensures BlockCoordToIndex(w, h, PixelOfOrder(w, h, k)) == k
  {
    hide IndexToCoord, CoordToIndex, TriangleSum, BlockCoordToIndex, LocalOffset;
    var bw, bh := w / 8, h / 8;
    var order := k / 64;
    var local := k - order * 64;
    OrderOfIndexBound(bw, bh, k);
    var variant := Mod(order, 4);
    var block := IndexToCoord(bw, bh, order);
    CoordToIndexOfIndexToCoord(bw, bh, order);
    var offset := LocalOffset(variant, local);
    LocalOffsetRoundTrip(variant, local);
    assert PixelOfOrder(w, h, k) == Coord(block.x * 8 + offset.x, block.y * 8 + offset.y);
    OrderOfBlockPixel(w, h, block, offset);
  }

  /** The pixel at `offset` inside block `block` has the block's order times
      64 plus the offset's local index under the block's orientation. */
  lemma OrderOfBlockPixel(w: int, h: int, block: Coord, offset: Coord)
    requires ValidDims(w, h) && InGrid(w / 8, h / 8, block)
    requires 0 <= offset.x < 8 && 0 <= offset.y < 8
    ensures InImage(w, h, Coord(block.x * 8 + offset.x, block.y * 8 + offset.y))
    ensures var order := CoordToIndex(w / 8, h / 8, block);
            BlockCoordToIndex(w, h, Coord(block.x * 8 + offset.x, block.y * 8 + offset.y))
            == order * 64 + OrientedLocalIndex(Mod(order, 4), offset.x, offset.y)
  {
    hide CoordToIndex, TriangleSum;
    var p := Coord(block.x * 8 + offset.x, block.y * 8 + offset.y);
    PixelOfBlockBound(w, h, block, offset);
    DivModUnique(p.x, 8, block.x, offset.x);
    DivModUnique(p.y, 8, block.y, offset.y);
  }

  /** Lines 148-149: any index from -w*h on names the same pixel as its
      remainder modulo w*h. */
  lemma IndexWrapsModulo(w: int, h: int, i: int)
    requires ValidDims(w, h) && -(w * h) <= i
    ensures BlockIndexToCoord(w, h, i) == BlockIndexToCoord(w, h, i % (w * h))
  {
    hide PixelOfOrder;
    var size := w * h;
    var j := if i < 0 then i + size else i;
    ShiftResidue(size, i, j);
    assert BlockIndexToCoord(w, h, i) == PixelOfOrder(w, h, j % size);
    DivModUnique(i % size, size, 0, i % size);
    assert BlockIndexToCoord(w, h, i % size) == PixelOfOrder(w, h, i % size);
  }

  /** Any index from -w*h on is carried to its residue modulo w*h by going
      to its pixel and back. */
  lemma OrderOfIndex(w: int, h: int, i: int)
    requires ValidDims(w, h) && -(w * h) <= i
    ensures BlockCoordToIndex(w, h, BlockIndexToCoord(w, h, i)) == i % (w * h)
  {
    IndexWrapsModulo(w, h, i);
    OrderRoundTrip(w, h, i % (w * h));
  }
}
