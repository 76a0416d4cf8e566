/**
 The YUV decoders of internal/raster/yuv.go: which samples each pixel is made of, for every
 format and every width and height, odd and 1 included, on buffers of exactly the frame
 size; and how the 4:2:0 formats are rearrangements of one another.
 */
module Yuv {
  import opened RowMajor

  datatype Yuv = Yuv(y: Byte, u: Byte, v: Byte)

  /** What a frame holds: the three samples behind each pixel, row by row. */
  type Picture = seq<seq<Yuv>>

  predicate IsPicture(pic: Picture, h: nat, w: nat) {
    |pic| == h && forall j :: 0 <= j < h ==> |pic[j]| == w
  }

  function Clamp(v: int): Byte {
    if v < 0 then 0 else if v > 255 then 255 else v
  }

  function Lesser(a: int, b: int): int {
    if a < b then a else b
  }

  /** yuvToRgb and the opaque alpha of setPixel; a shift right by 8 is a division rounding
      down. */
  function Rgba(p: Yuv): (r: seq<Byte>)
    ensures |r| == 4 && r[3] == 255
    ensures p.u == p.v == 128 ==> r == [p.y, p.y, p.y, 255]
  {
    var uu, vv, c := p.u as int - 128, p.v as int - 128, p.y as int * 256;
    [Clamp((c + 409 * vv) / 256), Clamp((c - 100 * uu - 208 * vv) / 256), Clamp((c + 516 * uu) / 256), 255]
  }

  /** The exact conversion, cut to the range of a byte. */
  function Exact(v: real): real {
    if v < 0.0 then 0.0 else if v > 255.0 then 255.0 else v
  }

  lemma Rounded(n: int, v: real)
    requires -1.25 < n as real - v < 0.25
    ensures -1.25 < Clamp(n) as real - Exact(v) < 0.25
  {}

  lemma Shifted(n: int)
    ensures (n as real) / 256.0 - 1.0 < (n / 256) as real <= (n as real) / 256.0
  {
    assert n == 256 * (n / 256) + n % 256;
    assert n as real == 256.0 * (n / 256) as real + (n % 256) as real;
  }

  /** The integer arithmetic stays within 1.25 below and 0.25 above what the coefficients it
      stands for would give: 1.596, 0.392, 0.813 and 2.017, with chroma centred at 128. */
  lemma CloseToExact(p: Yuv)
    ensures var r, y, u, v := Rgba(p), p.y as real, (p.u as int - 128) as real, (p.v as int - 128) as real;
            && -1.25 < r[0] as real - Exact(y + 1.596 * v) < 0.25
            && -1.25 < r[1] as real - Exact(y - 0.392 * u - 0.813 * v) < 0.25
            && -1.25 < r[2] as real - Exact(y + 2.017 * u) < 0.25
  {
    hide Clamp, Exact;
    var uu, vv, c := p.u as int - 128, p.v as int - 128, p.y as int * 256;
    Shifted(c + 409 * vv);
    Shifted(c - 100 * uu - 208 * vv);
    Shifted(c + 516 * uu);
    Rounded((c + 409 * vv) / 256, p.y as real + 1.596 * vv as real);
    Rounded((c - 100 * uu - 208 * vv) / 256, p.y as real - 0.392 * uu as real - 0.813 * vv as real);
    Rounded((c + 516 * uu) / 256, p.y as real + 2.017 * uu as real);
  }

  /** The pixel's place, counted in pixels. */
  function Pix(w: nat, j: int, i: int): int {
    j * w + i
  }

  /** Four output bytes show one picture element. */
  predicate Shown(out: seq<Byte>, k: int, p: Yuv) {
    0 <= 4 * k && 4 * k + 4 <= |out| && out[4 * k..4 * k + 4] == Rgba(p)
  }

  /** Every pixel of the output is written, and shows the picture. */
  predicate Shows(out: seq<Byte>, pic: Picture, h: nat, w: nat) {
    && IsPicture(pic, h, w) && |out| == 4 * (w * h)
    && forall j, i :: 0 <= j < h && 0 <= i < w ==> Shown(out, Pix(w, j, i), pic[j][i])
  }

  /** The rows above j, and row j up to column i. */
  predicate Earlier(v: int, u: int, j: int, i: int) {
    v < j || (v == j && u < i)
  }

  predicate ShowsUpTo(out: seq<Byte>, pic: Picture, h: nat, w: nat, j: int, i: int) {
    && IsPicture(pic, h, w) && |out| == 4 * (w * h)
    && forall v, u :: 0 <= v < h && 0 <= u < w && Earlier(v, u, j, i) ==> Shown(out, Pix(w, v, u), pic[v][u])
  }

  lemma NextInside(h: nat, w: nat, j: int, i: int)
    requires 0 <= j < h && 0 <= i < w
    ensures 0 <= Pix(w, j, i) < w * h
  {
    Inside(h, w, j, i);
  }

  lemma Ordered(w: nat, v: int, u: int, j: int, i: int)
    requires 0 <= u < w && 0 <= i < w && Earlier(v, u, j, i)
    ensures Pix(w, v, u) < Pix(w, j, i)
  {
    if v < j {
      Before(w, v, u, j, i);
    }
  }

  lemma Written(now: seq<Byte>, k: int, p: Yuv)
    requires 0 <= 4 * k && 4 * k + 4 <= |now|
    requires forall d :: 0 <= d < 4 ==> now[4 * k + d] == Rgba(p)[d]
    ensures Shown(now, k, p)
  {
    hide Rgba;
    assert now[4 * k..4 * k + 4] == Rgba(p);
  }

  lemma StillShown(was: seq<Byte>, now: seq<Byte>, k: int, e: int, p: Yuv)
    requires |was| == |now| && e < k && Shown(was, e, p)
    requires forall o :: 0 <= o < |now| && o < 4 * k ==> now[o] == was[o]
    ensures Shown(now, e, p)
  {
    hide Rgba;
    assert now[4 * e..4 * e + 4] == was[4 * e..4 * e + 4];
  }

  /** setPixel, with the conversion before it, at the next pixel in row-major order. */
  method SetPixel(out: array<Byte>, ghost pic: Picture, h: nat, w: nat, j: int, i: int, p: Yuv)
    requires 0 <= j < h && 0 <= i < w && ShowsUpTo(out[..], pic, h, w, j, i) && pic[j][i] == p
    modifies out
    ensures ShowsUpTo(out[..], pic, h, w, j, i + 1)
  {
    hide Rgba, Pix, Shown;
    ghost var was := out[..];
    NextInside(h, w, j, i);
    var o := 4 * Pix(w, j, i);
    var rgba := Rgba(p);
    out[o] := rgba[0];
    out[o + 1] := rgba[1];
    out[o + 2] := rgba[2];
    out[o + 3] := rgba[3];
    Written(out[..], Pix(w, j, i), p);
    forall v, u | 0 <= v < h && 0 <= u < w && Earlier(v, u, j, i) ensures Shown(out[..], Pix(w, v, u), pic[v][u]) {
      Ordered(w, v, u, j, i);
      StillShown(was, out[..], Pix(w, j, i), Pix(w, v, u), pic[v][u]);
    }
  }

  // ----- planar and semi-planar 4:2:0 -----

  /** Where a 4:2:0 frame keeps luma sample k and the two halves of chroma sample c:
      at y + k, u + step * c and v + step * c. */
  datatype Layout = Layout(y: nat, u: nat, v: nat, step: nat)

  function ChromaCount(w: nat, h: nat): nat {
    (w / 2) * (h / 2)
  }

  /** The chroma sample of a pixel: its quarter of the frame, the last one reused for an odd
      row or column. */
  function ChromaIndex(h: nat, w: nat, j: int, i: int): (c: int)
    requires w >= 2 && h >= 2 && 0 <= j < h && 0 <= i < w
    ensures 0 <= c < ChromaCount(w, h)
  {
    var cj, ci := Lesser(h / 2 - 1, j / 2), Lesser(w / 2 - 1, i / 2);
    Inside(h / 2, w / 2, cj, ci);
    Pix(w / 2, cj, ci)
  }

  function Place(offset: nat, step: nat, c: int): int {
    offset + step * c
  }

  /** The frame lies in the buffer. */
  predicate Fits(size: nat, l: Layout, h: nat, w: nat) {
    && l.y + w * h <= size
    && forall c :: 0 <= c < ChromaCount(w, h) ==> 0 <= Place(l.u, l.step, c) < size && 0 <= Place(l.v, l.step, c) < size
  }

  function Pixel420(buf: seq<Byte>, l: Layout, h: nat, w: nat, j: int, i: int): Yuv
    requires Fits(|buf|, l, h, w) && 0 <= j < h && 0 <= i < w
  {
    NextInside(h, w, j, i);
    var y := buf[Place(l.y, 1, Pix(w, j, i))];
    if w < 2 || h < 2 then Yuv(y, 128, 128)
    else
      var c := ChromaIndex(h, w, j, i);
      Yuv(y, buf[Place(l.u, l.step, c)], buf[Place(l.v, l.step, c)])
  }

  function Picture420(buf: seq<Byte>, l: Layout, h: nat, w: nat): Picture
    requires Fits(|buf|, l, h, w)
  {
    seq(h, j requires 0 <= j < h => seq(w, i requires 0 <= i < w => Pixel420(buf, l, h, w, j, i)))
  }

  lemma ChromaIs(h: nat, w: nat, j: int, i: int)
    requires w >= 2 && h >= 2 && 0 <= j < h && 0 <= i < w
    ensures ChromaIndex(h, w, j, i) == Pix(w / 2, Lesser(h / 2 - 1, j / 2), Lesser(w / 2 - 1, i / 2))
  {}

  lemma FitsAt(size: nat, l: Layout, h: nat, w: nat, j: int, i: int)
    requires Fits(size, l, h, w) && 0 <= j < h && 0 <= i < w
    ensures l.y + w * h <= size
    ensures w >= 2 && h >= 2 ==>
              var c := ChromaIndex(h, w, j, i); 0 <= Place(l.u, l.step, c) < size && 0 <= Place(l.v, l.step, c) < size
  {
    hide ChromaIndex, ChromaCount;
  }

  lemma Start(out: seq<Byte>, pic: Picture, h: nat, w: nat)
    requires IsPicture(pic, h, w) && |out| == 4 * (w * h)
    ensures ShowsUpTo(out, pic, h, w, 0, 0)
  {}

  lemma RowDone(out: seq<Byte>, pic: Picture, h: nat, w: nat, j: int)
    requires ShowsUpTo(out, pic, h, w, j, w)
    ensures ShowsUpTo(out, pic, h, w, j + 1, 0)
  {}

  lemma Finish(out: seq<Byte>, pic: Picture, h: nat, w: nat)
    requires ShowsUpTo(out, pic, h, w, h, 0)
    ensures Shows(out, pic, h, w)
  {}

  method DecodePlanar420(buf: seq<Byte>, w: nat, h: nat, yOff: nat, uOff: nat, vOff: nat) returns (out: array<Byte>)
    requires Fits(|buf|, Layout(yOff, uOff, vOff, 1), h, w)
    ensures fresh(out) && Shows(out[..], Picture420(buf, Layout(yOff, uOff, vOff, 1), h, w), h, w)
  {
    hide ShowsUpTo, Shown, Pix, Fits, ChromaIndex;
    out := new Byte[4 * (w * h)](_ => 0);
    ghost var pic := Picture420(buf, Layout(yOff, uOff, vOff, 1), h, w);
    var hw, hh := w / 2, h / 2;
    var hasChroma := hw > 0 && hh > 0;
    Start(out[..], pic, h, w);
    for j := 0 to h
      invariant ShowsUpTo(out[..], pic, h, w, j, 0)
    {
      var cj := if hasChroma then Lesser(hh - 1, j / 2) else 0;
      for i := 0 to w
        invariant ShowsUpTo(out[..], pic, h, w, j, i)
      {
        NextInside(h, w, j, i);
        FitsAt(|buf|, Layout(yOff, uOff, vOff, 1), h, w, j, i);
        var y := buf[yOff + Pix(w, j, i)];
        var u, v := 128, 128;
        if hasChroma {
          var ci := Lesser(hw - 1, i / 2);
          ChromaIs(h, w, j, i);
          u := buf[uOff + Pix(hw, cj, ci)];
          v := buf[vOff + Pix(hw, cj, ci)];
        }
        SetPixel(out, pic, h, w, j, i, Yuv(y, u, v));
      }
      RowDone(out[..], pic, h, w, j);
    }
    Finish(out[..], pic, h, w);
  }

  function SemiPlanar(w: nat, h: nat, vuFirst: bool): Layout {
    var n := w * h;
    if vuFirst then Layout(0, n + 1, n, 2) else Layout(0, n, n + 1, 2)
  }

  predicate SemiPlanarFits(size: nat, w: nat, h: nat, vuFirst: bool) {
    Fits(size, SemiPlanar(w, h, vuFirst), h, w)
  }

  lemma SemiPlanarInside(size: nat, w: nat, h: nat, vuFirst: bool)
    requires size >= w * h + 2 * ChromaCount(w, h)
    ensures SemiPlanarFits(size, w, h, vuFirst)
  {
    hide ChromaCount;
  }

  method DecodeSemiPlanar420(buf: seq<Byte>, w: nat, h: nat, vuFirst: bool) returns (out: array<Byte>)
    requires |buf| >= w * h + 2 * ChromaCount(w, h)
    ensures SemiPlanarFits(|buf|, w, h, vuFirst)
    ensures fresh(out) && Shows(out[..], Picture420(buf, SemiPlanar(w, h, vuFirst), h, w), h, w)
  {
    hide ShowsUpTo, Shown, Pix, Fits, ChromaIndex;
    out := new Byte[4 * (w * h)](_ => 0);
    SemiPlanarInside(|buf|, w, h, vuFirst);
    ghost var pic := Picture420(buf, SemiPlanar(w, h, vuFirst), h, w);
    var hw, hh := w / 2, h / 2;
    var hasChroma := hw > 0 && hh > 0;
    var uvOff := w * h;
    Start(out[..], pic, h, w);
    for j := 0 to h
      invariant ShowsUpTo(out[..], pic, h, w, j, 0)
    {
      var cj := if hasChroma then Lesser(hh - 1, j / 2) else 0;
      for i := 0 to w
        invariant ShowsUpTo(out[..], pic, h, w, j, i)
      {
        NextInside(h, w, j, i);
        FitsAt(|buf|, SemiPlanar(w, h, vuFirst), h, w, j, i);
        var y := buf[Pix(w, j, i)];
        var u, v := 128, 128;
        if hasChroma {
          var ci := Lesser(hw - 1, i / 2);
          ChromaIs(h, w, j, i);
          var uvIdx := uvOff + Pix(hw, cj, ci) * 2;
          if vuFirst {
            u, v := buf[uvIdx + 1], buf[uvIdx];
          } else {
            u, v := buf[uvIdx], buf[uvIdx + 1];
          }
        }
        SetPixel(out, pic, h, w, j, i, Yuv(y, u, v));
      }
      RowDone(out[..], pic, h, w, j);
    }
    Finish(out[..], pic, h, w);
  }

  function Planar(w: nat, h: nat, vFirst: bool): Layout {
    var n, c := w * h, ChromaCount(w, h);
    if vFirst then Layout(0, n + c, n, 1) else Layout(0, n, n + c, 1)
  }

  lemma PlanarInside(size: nat, w: nat, h: nat, vFirst: bool)
    requires size >= w * h + 2 * ChromaCount(w, h)
    ensures Fits(size, Planar(w, h, vFirst), h, w)
  {
    hide ChromaCount;
  }

  /** Two frames that hold the same samples, each in its own layout, are one picture. */
  predicate SameSamples(a: seq<Byte>, la: Layout, b: seq<Byte>, lb: Layout, h: nat, w: nat)
    requires Fits(|a|, la, h, w) && Fits(|b|, lb, h, w)
  {
    && (forall k :: 0 <= k < w * h ==> a[Place(la.y, 1, k)] == b[Place(lb.y, 1, k)])
    && forall c :: 0 <= c < ChromaCount(w, h) ==>
         a[Place(la.u, la.step, c)] == b[Place(lb.u, lb.step, c)] && a[Place(la.v, la.step, c)] == b[Place(lb.v, lb.step, c)]
  }

  lemma SamePicture(a: seq<Byte>, la: Layout, b: seq<Byte>, lb: Layout, h: nat, w: nat)
    requires Fits(|a|, la, h, w) && Fits(|b|, lb, h, w) && SameSamples(a, la, b, lb, h, w)
    ensures Picture420(a, la, h, w) == Picture420(b, lb, h, w)
  {
    hide ChromaCount, ChromaIndex, Pix;
    var pa, pb := Picture420(a, la, h, w), Picture420(b, lb, h, w);
    forall j | 0 <= j < h ensures pa[j] == pb[j] {
      forall i | 0 <= i < w ensures pa[j][i] == pb[j][i] {
        NextInside(h, w, j, i);
      }
    }
  }

  /** An NV12 frame with the bytes of every chroma pair exchanged. */
  function SwapPairs(buf: seq<Byte>, w: nat, h: nat): (r: seq<Byte>)
    requires |buf| == w * h + 2 * ChromaCount(w, h)
    ensures |r| == |buf|
  {
    hide ChromaCount;
    var n := w * h;
    seq(|buf|, k requires 0 <= k < |buf| => if k < n then buf[k] else if (k - n) % 2 == 0 then buf[k + 1] else buf[k - 1])
  }

  /** An I420 frame with its two chroma planes interleaved. */
  function Interleave(buf: seq<Byte>, w: nat, h: nat): (r: seq<Byte>)
    requires |buf| == w * h + 2 * ChromaCount(w, h)
    ensures |r| == |buf|
  {
    hide ChromaCount;
    var n, c := w * h, ChromaCount(w, h);
    seq(|buf|, k requires 0 <= k < |buf| =>
      if k < n then buf[k] else if (k - n) % 2 == 0 then buf[n + (k - n) / 2] else buf[n + c + (k - n) / 2])
  }

  /** An I420 frame with its two chroma planes exchanged. */
  function SwapPlanes(buf: seq<Byte>, w: nat, h: nat): (r: seq<Byte>)
    requires |buf| == w * h + 2 * ChromaCount(w, h)
    ensures |r| == |buf|
  {
    hide ChromaCount;
    var n, c := w * h, ChromaCount(w, h);
    buf[..n] + buf[n + c..] + buf[n..n + c]
  }

  lemma Yv12IsI420Swapped(buf: seq<Byte>, w: nat, h: nat)
    requires |buf| == w * h + 2 * ChromaCount(w, h)
    ensures Fits(|buf|, Planar(w, h, true), h, w) && Fits(|buf|, Planar(w, h, false), h, w)
    ensures Picture420(SwapPlanes(buf, w, h), Planar(w, h, true), h, w) == Picture420(buf, Planar(w, h, false), h, w)
  {
    hide ChromaCount, Picture420;
    PlanarInside(|buf|, w, h, true);
    PlanarInside(|buf|, w, h, false);
    SamePicture(SwapPlanes(buf, w, h), Planar(w, h, true), buf, Planar(w, h, false), h, w);
  }

  lemma Nv21IsNv12Swapped(buf: seq<Byte>, w: nat, h: nat)
    requires |buf| == w * h + 2 * ChromaCount(w, h)
    ensures SemiPlanarFits(|buf|, w, h, true) && SemiPlanarFits(|buf|, w, h, false)
    ensures Picture420(SwapPairs(buf, w, h), SemiPlanar(w, h, true), h, w) == Picture420(buf, SemiPlanar(w, h, false), h, w)
  {
    hide ChromaCount, Picture420;
    SemiPlanarInside(|buf|, w, h, true);
    SemiPlanarInside(|buf|, w, h, false);
    SamePicture(SwapPairs(buf, w, h), SemiPlanar(w, h, true), buf, SemiPlanar(w, h, false), h, w);
  }

  lemma I420IsNv12Interleaved(buf: seq<Byte>, w: nat, h: nat)
    requires |buf| == w * h + 2 * ChromaCount(w, h)
    ensures Fits(|buf|, Planar(w, h, false), h, w) && SemiPlanarFits(|buf|, w, h, false)
    ensures Picture420(Interleave(buf, w, h), SemiPlanar(w, h, false), h, w) == Picture420(buf, Planar(w, h, false), h, w)
  {
    hide ChromaCount, Picture420;
    SemiPlanarInside(|buf|, w, h, false);
    PlanarInside(|buf|, w, h, false);
    SamePicture(Interleave(buf, w, h), SemiPlanar(w, h, false), buf, Planar(w, h, false), h, w);
  }

  /** A frame one pixel wide or high has no chroma and decodes to grey. */
  lemma ThinIsGrey(buf: seq<Byte>, l: Layout, h: nat, w: nat, out: seq<Byte>, j: int, i: int)
    requires Fits(|buf|, l, h, w) && (w == 1 || h == 1) && 0 <= j < h && 0 <= i < w
    requires Shows(out, Picture420(buf, l, h, w), h, w)
    ensures var k, y := Pix(w, j, i), Picture420(buf, l, h, w)[j][i].y;
            0 <= 4 * k && 4 * k + 4 <= |out| && out[4 * k..4 * k + 4] == [y, y, y, 255]
  {
    hide Rgba, Pix;
    assert Shown(out, Pix(w, j, i), Picture420(buf, l, h, w)[j][i]);
  }

  // ----- packed 4:2:2 -----

  /** Whole macro-pixels of four bytes, one per pair of columns. */
  function Packed422Stride(w: int): (s: nat)
    ensures w > 0 ==> 2 * w <= s <= 2 * w + 2
    ensures w > 0 && w % 2 == 0 ==> s == 2 * w
  {
    if w <= 0 then 0 else ((w + 1) / 2) * 4
  }

  /** The byte positions of Y, U and V in a macro-pixel; the second Y is two bytes on. */
  datatype Order = Order(y: nat, u: nat, v: nat)

  const YUYV := Order(0, 1, 3)
  const UYVY := Order(1, 0, 2)

  function Macro(w: nat, j: int, i: int): int {
    j * Packed422Stride(w) + (i / 2) * 4
  }

  lemma MacroInside(h: nat, w: nat, j: int, i: int)
    requires 0 <= j < h && 0 <= i < w
    ensures 0 <= Macro(w, j, i) && Macro(w, j, i) + 4 <= Packed422Stride(w) * h
  {
    Inside(h, Packed422Stride(w), j, (i / 2) * 4 + 3);
    MulMono(0, j, Packed422Stride(w));
  }

  /** The frame lies in the buffer, and the order in its macro-pixels. */
  predicate Fits422(size: nat, o: Order, h: nat, w: nat) {
    size >= Packed422Stride(w) * h && o.y < 2 && o.u < 4 && o.v < 4
  }

  lemma Fits422At(size: nat, o: Order, h: nat, w: nat, j: int, i: int)
    requires Fits422(size, o, h, w) && 0 <= j < h && 0 <= i < w
    ensures 0 <= Macro(w, j, i) && Macro(w, j, i) + 4 <= size && o.y < 2 && o.u < 4 && o.v < 4
  {
    MacroInside(h, w, j, i);
  }

  function Pixel422(buf: seq<Byte>, o: Order, h: nat, w: nat, j: int, i: int): Yuv
    requires Fits422(|buf|, o, h, w) && 0 <= j < h && 0 <= i < w
  {
    Fits422At(|buf|, o, h, w, j, i);
    var m := Macro(w, j, i);
    Yuv(buf[m + o.y + 2 * (i % 2)], buf[m + o.u], buf[m + o.v])
  }

  function Picture422(buf: seq<Byte>, o: Order, h: nat, w: nat): Picture
    requires Fits422(|buf|, o, h, w)
  {
    seq(h, j requires 0 <= j < h => seq(w, i requires 0 <= i < w => Pixel422(buf, o, h, w, j, i)))
  }

  lemma SameMacro(w: nat, j: int, i: int)
    requires i % 2 == 0
    ensures Macro(w, j, i + 1) == Macro(w, j, i)
  {
    assert (i + 1) / 2 == i / 2;
  }

  method DecodePacked422(buf: seq<Byte>, w: nat, h: nat, o: Order) returns (out: array<Byte>)
    requires Fits422(|buf|, o, h, w)
    ensures fresh(out) && Shows(out[..], Picture422(buf, o, h, w), h, w)
  {
    hide ShowsUpTo, Shown, Fits422, Macro;
    out := new Byte[4 * (w * h)](_ => 0);
    ghost var pic := Picture422(buf, o, h, w);
    Start(out[..], pic, h, w);
    for j := 0 to h
      invariant ShowsUpTo(out[..], pic, h, w, j, 0)
    {
      var i := 0;
      while i < w
        invariant 0 <= i <= w + 1 && i % 2 == 0 && ShowsUpTo(out[..], pic, h, w, j, Lesser(i, w))
      {
        Fits422At(|buf|, o, h, w, j, i);
        var macro := Macro(w, j, i);
        var y := buf[macro + o.y];
        var u := buf[macro + o.u];
        var v := buf[macro + o.v];
        SetPixel(out, pic, h, w, j, i, Yuv(y, u, v));
        if i + 1 < w {
          SameMacro(w, j, i);
          var y2 := buf[macro + o.y + 2];
          SetPixel(out, pic, h, w, j, i + 1, Yuv(y2, u, v));
        }
        i := i + 2;
      }
      RowDone(out[..], pic, h, w, j);
    }
    Finish(out[..], pic, h, w);
  }

  lemma FourOut(b: int, q: int)
    ensures b * (q * 4) == 4 * (b * q)
  {}

  function Macros(w: nat): nat {
    (w + 1) / 2
  }

  lemma StrideIs(w: nat)
    ensures Packed422Stride(w) == Macros(w) * 4
  {}

  /** A macro-pixel starts at a multiple of four. */
  lemma MacroAligned(w: nat, j: int, i: int)
    ensures Macro(w, j, i) == 4 * (j * Macros(w) + i / 2)
  {
    hide Packed422Stride, Macros;
    StrideIs(w);
    FourOut(j, Macros(w));
  }

  /** The bytes of every pair are exchanged: pair p is at 2 * p and 2 * p + 1. */
  ghost predicate PairsSwapped(a: seq<Byte>, b: seq<Byte>) {
    && |a| == |b|
    && forall p :: 0 <= p && Place(1, 2, p) < |a| ==>
         b[Place(0, 2, p)] == a[Place(1, 2, p)] && b[Place(1, 2, p)] == a[Place(0, 2, p)]
  }

  lemma SwappedAt(a: seq<Byte>, b: seq<Byte>, p: int)
    requires PairsSwapped(a, b) && 0 <= p && 2 * p + 1 < |a|
    ensures b[2 * p] == a[2 * p + 1] && b[2 * p + 1] == a[2 * p]
  {
    assert Place(1, 2, p) < |a|;
  }

  lemma SameFit(size: nat, h: nat, w: nat)
    ensures Fits422(size, YUYV, h, w) <==> Fits422(size, UYVY, h, w)
  {}

  lemma SameLength(a: seq<Byte>, b: seq<Byte>)
    requires PairsSwapped(a, b)
    ensures |a| == |b|
  {}

  lemma UyvyPixel(a: seq<Byte>, b: seq<Byte>, h: nat, w: nat, j: int, i: int)
    requires Fits422(|a|, YUYV, h, w) && PairsSwapped(a, b) && 0 <= j < h && 0 <= i < w
    ensures Pixel422(b, UYVY, h, w, j, i) == Pixel422(a, YUYV, h, w, j, i)
  {
    hide Packed422Stride, Macro, Macros, PairsSwapped;
    Fits422At(|a|, YUYV, h, w, j, i);
    SameFit(|a|, h, w);
    SameLength(a, b);
    MacroAligned(w, j, i);
    var q := j * Macros(w) + i / 2;
    SwappedAt(a, b, 2 * q);
    SwappedAt(a, b, 2 * q + 1);
  }

  /** UYVY is YUYV with the bytes of every pair exchanged. */
  lemma UyvyIsYuyvSwapped(a: seq<Byte>, b: seq<Byte>, h: nat, w: nat)
    requires Fits422(|a|, YUYV, h, w) && PairsSwapped(a, b)
    ensures Picture422(b, UYVY, h, w) == Picture422(a, YUYV, h, w)
  {
    hide Fits422, PairsSwapped, Pixel422;
    SameFit(|a|, h, w);
    SameLength(a, b);
    var pa, pb := Picture422(b, UYVY, h, w), Picture422(a, YUYV, h, w);
    forall j | 0 <= j < h ensures pa[j] == pb[j] {
      forall i | 0 <= i < w ensures pa[j][i] == pb[j][i] {
        UyvyPixel(a, b, h, w, j, i);
      }
    }
  }

  // ----- planar 4:4:4 -----

  function Pixel444(buf: seq<Byte>, h: nat, w: nat, j: int, i: int): Yuv
    requires |buf| >= 3 * (w * h) && 0 <= j < h && 0 <= i < w
  {
    NextInside(h, w, j, i);
    Yuv(buf[Pix(w, j, i)], buf[w * h + Pix(w, j, i)], buf[2 * (w * h) + Pix(w, j, i)])
  }

  function Picture444(buf: seq<Byte>, h: nat, w: nat): Picture
    requires |buf| >= 3 * (w * h)
  {
    seq(h, j requires 0 <= j < h => seq(w, i requires 0 <= i < w => Pixel444(buf, h, w, j, i)))
  }

  method DecodePlanar444(buf: seq<Byte>, w: nat, h: nat) returns (out: array<Byte>)
    requires |buf| >= 3 * (w * h)
    ensures fresh(out) && Shows(out[..], Picture444(buf, h, w), h, w)
  {
    hide ShowsUpTo, Shown, Pix;
    out := new Byte[4 * (w * h)](_ => 0);
    ghost var pic := Picture444(buf, h, w);
    var n := w * h;
    Start(out[..], pic, h, w);
    for j := 0 to h
      invariant ShowsUpTo(out[..], pic, h, w, j, 0)
    {
      for i := 0 to w
        invariant ShowsUpTo(out[..], pic, h, w, j, i)
      {
        NextInside(h, w, j, i);
        var y := buf[Pix(w, j, i)];
        var u := buf[n + Pix(w, j, i)];
        var v := buf[2 * n + Pix(w, j, i)];
        SetPixel(out, pic, h, w, j, i, Yuv(y, u, v));
      }
      RowDone(out[..], pic, h, w, j);
    }
    Finish(out[..], pic, h, w);
  }

  // ----- the entry point -----

  /** yuvFrameSize. */
  function FrameSize(format: string, w: nat, h: nat): nat {
    if format == "yuyv" || format == "uyvy" then Packed422Stride(w) * h
    else if format == "yuv444" then 3 * (w * h)
    else w * h + 2 * ChromaCount(w, h)
  }

  predicate IsPacked(format: string) {
    format == "yuyv" || format == "uyvy"
  }

  function LayoutOf(format: string, w: nat, h: nat): Layout {
    if format == "yv12" then Planar(w, h, true)
    else if format == "nv12" then SemiPlanar(w, h, false)
    else if format == "nv21" then SemiPlanar(w, h, true)
    else Planar(w, h, false)
  }

  lemma LayoutFits(format: string, size: nat, w: nat, h: nat)
    requires !IsPacked(format) && format != "yuv444" && size >= FrameSize(format, w, h)
    ensures Fits(size, LayoutOf(format, w, h), h, w)
  {
    hide ChromaCount, Fits;
    PlanarInside(size, w, h, true);
    PlanarInside(size, w, h, false);
    SemiPlanarInside(size, w, h, true);
    SemiPlanarInside(size, w, h, false);
  }

  function PictureOf(format: string, buf: seq<Byte>, w: nat, h: nat): Picture
    requires |buf| >= FrameSize(format, w, h)
  {
    if format == "yuyv" then Picture422(buf, YUYV, h, w)
    else if format == "uyvy" then Picture422(buf, UYVY, h, w)
    else if format == "yuv444" then Picture444(buf, h, w)
    else
      LayoutFits(format, |buf|, w, h);
      Picture420(buf, LayoutOf(format, w, h), h, w)
  }

  /** YuvDecode: on a buffer of the frame size every read is inside the buffer, every pixel
      is written, and unknown formats decode as I420. */
  method YuvDecode(format: string, buf: seq<Byte>, w: nat, h: nat) returns (out: array<Byte>)
    requires |buf| >= FrameSize(format, w, h)
    ensures fresh(out) && Shows(out[..], PictureOf(format, buf, w, h), h, w)
  {
    hide Shows, Picture420, Picture422, Picture444, ChromaCount, Fits, Packed422Stride;
    if format == "yuyv" {
      out := DecodePacked422(buf, w, h, YUYV);
    } else if format == "uyvy" {
      out := DecodePacked422(buf, w, h, UYVY);
    } else if format == "yuv444" {
      out := DecodePlanar444(buf, w, h);
    } else {
      LayoutFits(format, |buf|, w, h);
      var n, c := w * h, ChromaCount(w, h);
      if format == "yv12" {
        out := DecodePlanar420(buf, w, h, 0, n + c, n);
      } else if format == "nv12" {
        out := DecodeSemiPlanar420(buf, w, h, false);
      } else if format == "nv21" {
        out := DecodeSemiPlanar420(buf, w, h, true);
      } else {
        out := DecodePlanar420(buf, w, h, 0, n, n + c);
      }
    }
  }
}
