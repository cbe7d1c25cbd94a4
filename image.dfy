/** Images as the scramble shader and the export code see them: a row-major
    grid of w × h RGBA texels with 8-bit channels. */
module Image {
  import opened ShaderInt

  /** An unsigned 8-bit channel value (`UNSIGNED_BYTE`, `Uint8Array`). */
  newtype Byte = b: int | 0 <= b < 256

  /** One RGBA texel. */
  datatype Texel = Texel(r: Byte, g: Byte, b: Byte, a: Byte)

  /** The dimensions the block order is built for: positive multiples of the
      8-pixel block size. The shader itself never checks this. */
  predicate ValidDims(w: int, h: int)
    ensures ValidDims(w, h) ==> 0 < w * h
  {
    0 < w && 0 < h && w % 8 == 0 && h % 8 == 0
  }

  /** The pixel `p` lies inside a w × h image. */
  predicate InImage(w: int, h: int, p: Coord) {
    0 <= p.x < w && 0 <= p.y < h
  }

  /** Row-major position of pixel `p` in an image of width w. */
  function TexelIndex(w: int, p: Coord): int {
    p.y * w + p.x
  }

  /** The pixel at row-major position k of an image of width w. */
  function PixelAt(w: int, k: int): Coord
    requires 0 < w
  {
    Coord(k % w, k / w)
  }

  /** Row-major positions of the pixels of the image are exactly 0 .. w*h-1,
      and PixelAt undoes TexelIndex. */
  lemma TexelIndexInRange(w: int, h: int, p: Coord)
    requires InImage(w, h, p)
    ensures 0 <= TexelIndex(w, p) < w * h
    ensures PixelAt(w, TexelIndex(w, p)) == p
  {
    MulMonotone(p.y + 1, h, w);
    DivModUnique(p.y * w + p.x, w, p.y, p.x);
  }

  /** PixelAt maps 0 .. w*h-1 into the image, and TexelIndex undoes it. */
  lemma PixelAtInImage(w: int, h: int, k: int)
    requires 0 < w && 0 <= k < w * h
    ensures InImage(w, h, PixelAt(w, k))
    ensures TexelIndex(w, PixelAt(w, k)) == k
  {
    assert k == (k / w) * w + k % w;
    if k / w >= h {
      assert (k / w) * w >= h * w;
    }
  }
}
