/**
 * Images in memory as the codecs see them: `height` rows that start `stride`
 * bytes apart in one buffer, of which each row uses the first few bytes.
 */
module Strided {

  /** Offset of item i (a row, or a pixel in a row) when items start `step` bytes apart. */
  function Offset(i: nat, step: nat): nat {
    i * step
  }

  /** Rows 0 .. rows-1, each `rowBytes` long and `stride` apart, lie inside a buffer of `len` bytes. */
  predicate RowsFit(len: int, stride: int, rowBytes: int, rows: int) {
    rows <= 0 || (rows - 1) * stride + rowBytes <= len
  }

  /** Row y of a buffer that fits `rows` rows lies inside it, and so do the rows before it. */
  lemma RowInBounds(len: int, stride: nat, rowBytes: nat, rows: int, y: nat)
    requires RowsFit(len, stride, rowBytes, rows) && y < rows
    ensures 0 <= y * stride && y * stride + rowBytes <= len
    ensures RowsFit(len, stride, rowBytes, y) && RowsFit(len, stride, rowBytes, y + 1)
  {
    assert (rows - 1) * stride == y * stride + (rows - 1 - y) * stride;
    if y > 0 {
      assert y * stride == (y - 1) * stride + stride;
    }
  }

  /** Multiplying by a non-negative factor keeps the order. */
  lemma MulMono(a: nat, b: nat, c: nat)
    requires a <= b
    ensures a * c <= b * c
  {
    assert b * c == a * c + (b - a) * c;
  }
}
