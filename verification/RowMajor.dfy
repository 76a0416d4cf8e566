/** Bytes, and the row-major indexing of a plane of h rows and w columns kept in one flat
    buffer. */
module RowMajor {

  type Byte = b: int | 0 <= b < 256

  lemma MulMono(a: int, b: int, w: nat)
    requires a <= b
    ensures a * w <= b * w
  {
    assert b * w - a * w == (b - a) * w;
  }

  lemma NextRow(y: int, w: nat)
    ensures (y + 1) * w == y * w + w
  {}

  /** Every pixel lies in the buffer. */
  lemma Inside(h: nat, w: nat, y: int, x: int)
    requires 0 <= y < h && 0 <= x < w
    ensures 0 <= y * w + x < w * h
  {
    NextRow(y, w);
    MulMono(y + 1, h, w);
    MulMono(0, y, w);
  }

  /** Row-major order: pixels of earlier rows come first. */
  lemma Before(w: nat, y: int, x: int, v: int, u: int)
    requires y < v && 0 <= x < w && 0 <= u < w
    ensures y * w + x < v * w + u
  {
    NextRow(y, w);
    MulMono(y + 1, v, w);
  }
}
