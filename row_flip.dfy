/** The vertical flip `downloadImage` applies to the read-back framebuffer
    before encoding it (src/app.ts:424-449): WebGL's rows run bottom-up,
    PNG rows top-down, so row y of `pixels` becomes row h-1-y of
    `invertYPixels`, byte for byte. */
module RowFlip {
  import opened ShaderInt
  import opened Image

  /** The position that position k of a `rows`-row buffer with rows of
      `rowLen` elements takes after the row order is reversed: same column,
      mirrored row. */
  function MirrorIndex(rowLen: nat, rows: nat, k: nat): (m: nat)
    requires k < rowLen * rows
    ensures 0 < rowLen && m < rowLen * rows
    ensures m / rowLen == rows - 1 - k / rowLen && m % rowLen == k % rowLen
  {
    assert 0 < rowLen;
    var row := k / rowLen;
    RowBound(rowLen, rows, k);
    var m := (rows - 1 - row) * rowLen + k % rowLen;
    DivModUnique(m, rowLen, rows - 1 - row, k % rowLen);
    RowStartBound(rowLen, rows, rows - 1 - row, k % rowLen);
    m
  }

  lemma RowBound(rowLen: nat, rows: nat, k: nat)
    requires 0 < rowLen && k < rowLen * rows
    ensures k / rowLen < rows
  {
    assert k == (k / rowLen) * rowLen + k % rowLen;
    if k / rowLen >= rows {
      MulMonotone(rows, k / rowLen, rowLen);
    }
  }

  lemma RowStartBound(rowLen: nat, rows: nat, row: nat, col: nat)
    requires row < rows && col < rowLen
    ensures row * rowLen + col < rowLen * rows
  {
    MulMonotone(row + 1, rows, rowLen);
  }

  /** Mirroring the rows twice brings every position back. */
  lemma MirrorIndexInvolution(rowLen: nat, rows: nat, k: nat)
    requires 0 < rowLen && k < rowLen * rows
    ensures MirrorIndex(rowLen, rows, MirrorIndex(rowLen, rows, k)) == k
  {
    var m := MirrorIndex(rowLen, rows, k);
    var mm := MirrorIndex(rowLen, rows, m);
    assert mm == (mm / rowLen) * rowLen + mm % rowLen;
    assert k == (k / rowLen) * rowLen + k % rowLen;
  }

  /** The buffer `s`, `rows` rows of `rowLen` elements, with its rows in
      reverse order. */
  function ReverseRows<T>(s: seq<T>, rowLen: nat, rows: nat): (r: seq<T>)
    requires |s| == rowLen * rows
    ensures |r| == |s|
  {
    seq(|s|, k requires 0 <= k < |s| => s[MirrorIndex(rowLen, rows, k)])
  }

  /** Element `col` of row `row` moves to element `col` of row rows-1-row,
      the statement of src/app.ts:441-447 for every pixel and channel. */
  lemma ReverseRowsAt<T>(s: seq<T>, rowLen: nat, rows: nat, row: nat, col: nat)
    requires 0 < rowLen && |s| == rowLen * rows && row < rows && col < rowLen
    ensures row * rowLen + col < |s| && (rows - 1 - row) * rowLen + col < |s|
    ensures ReverseRows(s, rowLen, rows)[(rows - 1 - row) * rowLen + col] == s[row * rowLen + col]
  {
    RowStartBound(rowLen, rows, row, col);
    RowStartBound(rowLen, rows, rows - 1 - row, col);
    var d := (rows - 1 - row) * rowLen + col;
    DivModUnique(d, rowLen, rows - 1 - row, col);
    var m := MirrorIndex(rowLen, rows, d);
    assert m == (m / rowLen) * rowLen + m % rowLen;
  }

  /** Flipping twice gives the original buffer back. */
  lemma ReverseRowsTwice<T>(s: seq<T>, rowLen: nat, rows: nat)
    requires 0 < rowLen && |s| == rowLen * rows
    ensures ReverseRows(ReverseRows(s, rowLen, rows), rowLen, rows) == s
  {
    var r := ReverseRows(s, rowLen, rows);
    var rr := ReverseRows(r, rowLen, rows);
    forall k | 0 <= k < |s|
      ensures rr[k] == s[k]
    {
      MirrorIndexInvolution(rowLen, rows, k);
    }
  }

  /** Lines 441-442: the position of the first byte of pixel (x, y) in a
      w-pixel-wide RGBA buffer. */
  function ByteOffset(w: nat, x: nat, y: nat): nat {
    (y * w + x) * 4
  }

  /** Lines 424-449: a fresh buffer holding the rows of the w × h RGBA
      buffer `pixels` in reverse order. `pixels` itself is left alone. A
      zero-width or zero-height buffer is empty and stays empty. */
  method FlipRows(pixels: array<Byte>, w: nat, h: nat) returns (inverted: array<Byte>)
    requires pixels.Length == w * h * 4
    ensures fresh(inverted)
    ensures inverted[..] == ReverseRows(pixels[..], w * 4, h)
    ensures pixels[..] == old(pixels[..])
  {
    hide ByteOffset, MirrorIndex;
    var rowLen := w * 4;
    BufferLayout(w, h);
    inverted := new Byte[w * h * 4];
    for y := 0 to h
      invariant forall k :: ByteOffset(w, 0, h - y) <= k < inverted.Length ==>
                  inverted[k] == pixels[MirrorIndex(rowLen, h, k)]
    {
      var dstRow := h - 1 - y;
      RowLayout(w, h, y);
      for x := 0 to w
        invariant ByteOffset(w, x, dstRow) <= ByteOffset(w, 0, h - y)
        invariant forall k :: ByteOffset(w, 0, h - y) <= k < inverted.Length ==>
                    inverted[k] == pixels[MirrorIndex(rowLen, h, k)]
        invariant forall k :: ByteOffset(w, 0, dstRow) <= k < ByteOffset(w, x, dstRow) ==>
                    inverted[k] == pixels[MirrorIndex(rowLen, h, k)]
      {
        var srcIdx := ByteOffset(w, x, y);
        var dstIdx := ByteOffset(w, x, dstRow);
        PixelBytes(w, h, y, x);
        ChannelIndex(w, h, y, x, 0);
        ChannelIndex(w, h, y, x, 1);
        ChannelIndex(w, h, y, x, 2);
        ChannelIndex(w, h, y, x, 3);
        inverted[dstIdx + 0] := pixels[srcIdx + 0];
        inverted[dstIdx + 1] := pixels[srcIdx + 1];
        inverted[dstIdx + 2] := pixels[srcIdx + 2];
        inverted[dstIdx + 3] := pixels[srcIdx + 3];
      }
    }
    forall k | 0 <= k < inverted.Length
      ensures inverted[k] == ReverseRows(pixels[..], rowLen, h)[k]
    {
    }
  }

  /** The buffer is w*4 bytes per row and h rows, from offset 0 to w*h*4. */
  lemma BufferLayout(w: nat, h: nat)
    ensures w * h * 4 == (w * 4) * h
    ensures ByteOffset(w, 0, 0) == 0 && ByteOffset(w, 0, h) == w * h * 4
  {
  }

  /** Row h-1-y runs from its first byte up to the first byte of row h-y,
      which does not lie beyond the buffer. */
  lemma RowLayout(w: nat, h: nat, y: nat)
    requires y < h
    ensures ByteOffset(w, 0, h - (y + 1)) == ByteOffset(w, 0, h - 1 - y)
    ensures ByteOffset(w, 0, h - 1 - y) <= ByteOffset(w, w, h - 1 - y) == ByteOffset(w, 0, h - y)
    ensures ByteOffset(w, 0, h - y) <= w * h * 4
  {
    MulMonotone(h - y, h, w);
  }

  /** The four bytes of pixel (x, h-1-y) are consecutive and lie inside
      row h-1-y. */
  lemma PixelBytes(w: nat, h: nat, y: nat, x: nat)
    requires y < h && x < w
    ensures ByteOffset(w, x + 1, h - 1 - y) == ByteOffset(w, x, h - 1 - y) + 4
    ensures ByteOffset(w, 0, h - 1 - y) <= ByteOffset(w, x, h - 1 - y)
    ensures ByteOffset(w, x + 1, h - 1 - y) <= ByteOffset(w, w, h - 1 - y)
  {
  }

  /** The byte position line 442 computes for channel c of pixel (x, y):
      inside the buffer, and the mirror of the source position line 441
      computes. */
  lemma ChannelIndex(w: nat, h: nat, y: nat, x: nat, c: nat)
    requires 0 < w && y < h && x < w && c < 4
    ensures ByteOffset(w, x, h - 1 - y) + c < w * h * 4
    ensures MirrorIndex(w * 4, h, ByteOffset(w, x, h - 1 - y) + c) == ByteOffset(w, x, y) + c
  {
    var rowLen := w * 4;
    var d := ByteOffset(w, x, h - 1 - y) + c;
    Distribute(h - 1 - y, w, x, c);
    Distribute(y, w, x, c);
    assert d == (h - 1 - y) * rowLen + (x * 4 + c);
    RowStartBound(rowLen, h, h - 1 - y, x * 4 + c);
    DivModUnique(d, rowLen, h - 1 - y, x * 4 + c);
    var m := MirrorIndex(rowLen, h, d);
    assert m == (m / rowLen) * rowLen + m % rowLen;
  }

  /** Byte position of channel c of pixel (x, row) as row * rowLen + column. */
  lemma Distribute(row: int, w: int, x: int, c: int)
    ensures (row * w + x) * 4 + c == row * (w * 4) + (x * 4 + c)
  {
  }
}
