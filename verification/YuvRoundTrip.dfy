/**
 Frames written out in each format of internal/raster/yuv.go, sample by sample as the format
 lays them out, and the proof that the decoders read them back.
 */
module YuvRoundTrip {
  import opened RowMajor
  import opened Yuv

  // ----- positions -----

  lemma RowAndColumn(w: nat, j: int, i: int)
    requires 0 <= i < w && 0 <= j
    ensures Pix(w, j, i) / w == j && Pix(w, j, i) % w == i
  {
    var k := Pix(w, j, i);
    assert k == w * (k / w) + k % w;
    if k / w < j {
      MulMono(k / w + 1, j, w);
    } else if k / w > j {
      MulMono(j + 1, k / w, w);
    }
  }

  lemma InRows(h: nat, w: nat, k: int)
    requires 0 <= k < w * h
    ensures w > 0 && 0 <= k / w < h && 0 <= k % w < w
  {
    assert w == 0 ==> w * h == 0;
    assert w > 0 && k == w * (k / w) + k % w;
    if k / w >= h {
      MulMono(h, k / w, w);
    }
  }

  /** The pixel that comes k-th, counted along the rows. */
  function Nth(pic: Picture, h: nat, w: nat, k: int): Yuv
    requires IsPicture(pic, h, w) && 0 <= k < w * h
  {
    InRows(h, w, k);
    pic[k / w][k % w]
  }

  /** The pixel in the upper left of the c-th block of two by two. */
  function Corner(pic: Picture, h: nat, w: nat, c: int): Yuv
    requires IsPicture(pic, h, w) && 0 <= c < ChromaCount(w, h)
  {
    InRows(h / 2, w / 2, c);
    pic[2 * (c / (w / 2))][2 * (c % (w / 2))]
  }

  // ----- writing frames -----

  function LumaPlane(pic: Picture, h: nat, w: nat): (s: seq<Byte>)
    requires IsPicture(pic, h, w)
    ensures |s| == w * h
  {
    seq(w * h, k requires 0 <= k < w * h => Nth(pic, h, w, k).y)
  }

  /** One chroma sample for each block of two by two. */
  function UPlane(pic: Picture, h: nat, w: nat): (s: seq<Byte>)
    requires IsPicture(pic, h, w)
    ensures |s| == ChromaCount(w, h)
  {
    hide ChromaCount;
    seq(ChromaCount(w, h), c requires 0 <= c < ChromaCount(w, h) => Corner(pic, h, w, c).u)
  }

  function VPlane(pic: Picture, h: nat, w: nat): (s: seq<Byte>)
    requires IsPicture(pic, h, w)
    ensures |s| == ChromaCount(w, h)
  {
    hide ChromaCount;
    seq(ChromaCount(w, h), c requires 0 <= c < ChromaCount(w, h) => Corner(pic, h, w, c).v)
  }

  function Alternate(a: seq<Byte>, b: seq<Byte>): (s: seq<Byte>)
    requires |a| == |b|
    ensures |s| == 2 * |a|
  {
    seq(2 * |a|, k requires 0 <= k < 2 * |a| => if k % 2 == 0 then a[k / 2] else b[k / 2])
  }

  /** Byte b of the macro-pixel that starts at column left. */
  function MacroByte(row: seq<Yuv>, o: Order, left: int, b: int): Byte
    requires 0 <= left < |row|
  {
    if b == o.y then row[left].y
    else if b == o.u then row[left].u
    else if b == o.v then row[left].v
    else row[Lesser(left + 1, |row| - 1)].y
  }

  /** Row by row, two pixels to a macro-pixel of four bytes, which share the left one's chroma;
      in a frame of odd width the last pixel's luma is repeated. */
  function PackedByte(pic: Picture, o: Order, h: nat, w: nat, k: int): Byte
    requires IsPicture(pic, h, w) && 0 <= k < Packed422Stride(w) * h
  {
    InRows(h, Packed422Stride(w), k);
    MacroByte(pic[k / Packed422Stride(w)], o, 2 * (k % Packed422Stride(w) / 4), k % 4)
  }

  function PackedFrame(pic: Picture, o: Order, h: nat, w: nat): (s: seq<Byte>)
    requires IsPicture(pic, h, w)
    ensures |s| == Packed422Stride(w) * h
  {
    seq(Packed422Stride(w) * h, k requires 0 <= k < Packed422Stride(w) * h => PackedByte(pic, o, h, w, k))
  }

  function Written(format: string, pic: Picture, h: nat, w: nat): seq<Byte>
    requires IsPicture(pic, h, w)
  {
    var y, u, v := LumaPlane(pic, h, w), UPlane(pic, h, w), VPlane(pic, h, w);
    if format == "yuyv" then PackedFrame(pic, YUYV, h, w)
    else if format == "uyvy" then PackedFrame(pic, UYVY, h, w)
    else if format == "yuv444" then
      y + seq(w * h, k requires 0 <= k < w * h => Nth(pic, h, w, k).u) + seq(w * h, k requires 0 <= k < w * h => Nth(pic, h, w, k).v)
    else if format == "yv12" then y + v + u
    else if format == "nv12" then y + Alternate(u, v)
    else if format == "nv21" then y + Alternate(v, u)
    else y + u + v
  }

  predicate SameChroma(a: Yuv, b: Yuv) {
    a.u == b.u && a.v == b.v
  }

  /** What a format can hold of colour: for 4:4:4 anything; for 4:2:2 one chroma value for each
      pair of columns; for 4:2:0 one for each block of two by two, which an odd last row or
      column shares; and none in a frame one pixel wide or high. */
  predicate Holds(format: string, pic: Picture, h: nat, w: nat)
    requires IsPicture(pic, h, w)
  {
    forall j, i :: 0 <= j < h && 0 <= i < w ==>
      if format == "yuv444" then true
      else if IsPacked(format) then SameChroma(pic[j][i], pic[j][2 * (i / 2)])
      else if w < 2 || h < 2 then pic[j][i].u == pic[j][i].v == 128
      else SameChroma(pic[j][i], pic[2 * Lesser(h / 2 - 1, j / 2)][2 * Lesser(w / 2 - 1, i / 2)])
  }

  // ----- reading them back -----

  lemma NthAt(pic: Picture, h: nat, w: nat, j: int, i: int)
    requires IsPicture(pic, h, w) && 0 <= j < h && 0 <= i < w
    ensures 0 <= Pix(w, j, i) < w * h && Nth(pic, h, w, Pix(w, j, i)) == pic[j][i]
  {
    hide Pix;
    NextInside(h, w, j, i);
    RowAndColumn(w, j, i);
  }

  lemma CornerAt(pic: Picture, h: nat, w: nat, j: int, i: int)
    requires IsPicture(pic, h, w) && w >= 2 && h >= 2 && 0 <= j < h && 0 <= i < w
    ensures Corner(pic, h, w, ChromaIndex(h, w, j, i)) == pic[2 * Lesser(h / 2 - 1, j / 2)][2 * Lesser(w / 2 - 1, i / 2)]
  {
    hide Pix;
    ChromaIs(h, w, j, i);
    RowAndColumn(w / 2, Lesser(h / 2 - 1, j / 2), Lesser(w / 2 - 1, i / 2));
  }

  /** The frame keeps the picture's samples where a 4:2:0 layout has them. */
  predicate Keeps(buf: seq<Byte>, l: Layout, pic: Picture, h: nat, w: nat)
    requires IsPicture(pic, h, w) && Fits(|buf|, l, h, w)
  {
    && (forall k :: 0 <= k < w * h ==> buf[Place(l.y, 1, k)] == LumaPlane(pic, h, w)[k])
    && forall c :: 0 <= c < ChromaCount(w, h) ==>
         buf[Place(l.u, l.step, c)] == UPlane(pic, h, w)[c] && buf[Place(l.v, l.step, c)] == VPlane(pic, h, w)[c]
  }

  lemma PixelKept(buf: seq<Byte>, l: Layout, format: string, pic: Picture, h: nat, w: nat, j: int, i: int)
    requires IsPicture(pic, h, w) && Fits(|buf|, l, h, w) && Keeps(buf, l, pic, h, w)
    requires !IsPacked(format) && format != "yuv444" && Holds(format, pic, h, w) && 0 <= j < h && 0 <= i < w
    ensures Pixel420(buf, l, h, w, j, i) == pic[j][i]
  {
    hide Pix, ChromaIndex, ChromaCount, Nth, Corner;
    NthAt(pic, h, w, j, i);
    if w >= 2 && h >= 2 {
      CornerAt(pic, h, w, j, i);
    }
  }

  lemma PictureKept(buf: seq<Byte>, l: Layout, format: string, pic: Picture, h: nat, w: nat)
    requires IsPicture(pic, h, w) && Fits(|buf|, l, h, w) && Keeps(buf, l, pic, h, w)
    requires !IsPacked(format) && format != "yuv444" && Holds(format, pic, h, w)
    ensures Picture420(buf, l, h, w) == pic
  {
    hide Fits, Keeps, Holds, Pixel420;
    var q := Picture420(buf, l, h, w);
    forall j | 0 <= j < h ensures q[j] == pic[j] {
      forall i | 0 <= i < w ensures q[j][i] == pic[j][i] {
        PixelKept(buf, l, format, pic, h, w, j, i);
      }
    }
  }

  lemma AlternateAt(y: seq<Byte>, a: seq<Byte>, b: seq<Byte>, c: int)
    requires |a| == |b| && 0 <= c < |a|
    ensures var s := y + Alternate(a, b); s[|y| + 2 * c] == a[c] && s[|y| + 2 * c + 1] == b[c]
  {}

  lemma ThreeAt(y: seq<Byte>, a: seq<Byte>, b: seq<Byte>, c: int)
    requires |a| == |b| && 0 <= c < |a|
    ensures var s := y + a + b; s[|y| + c] == a[c] && s[|y| + |a| + c] == b[c]
  {}

  lemma PlanarKept(y: seq<Byte>, u: seq<Byte>, v: seq<Byte>, pic: Picture, h: nat, w: nat, vFirst: bool)
    requires IsPicture(pic, h, w) && y == LumaPlane(pic, h, w) && u == UPlane(pic, h, w) && v == VPlane(pic, h, w)
    ensures var buf := if vFirst then y + v + u else y + u + v;
            Fits(|buf|, Planar(w, h, vFirst), h, w) && Keeps(buf, Planar(w, h, vFirst), pic, h, w)
  {
    hide ChromaCount, LumaPlane, UPlane, VPlane, Fits;
    var buf := if vFirst then y + v + u else y + u + v;
    PlanarInside(|buf|, w, h, vFirst);
    forall c | 0 <= c < ChromaCount(w, h)
      ensures buf[Place(Planar(w, h, vFirst).u, 1, c)] == u[c] && buf[Place(Planar(w, h, vFirst).v, 1, c)] == v[c]
    {
      if vFirst {
        ThreeAt(y, v, u, c);
      } else {
        ThreeAt(y, u, v, c);
      }
    }
    assert forall k :: 0 <= k < w * h ==> buf[Place(0, 1, k)] == y[k];
  }

  lemma SemiPlanarKept(y: seq<Byte>, u: seq<Byte>, v: seq<Byte>, pic: Picture, h: nat, w: nat, vuFirst: bool)
    requires IsPicture(pic, h, w) && y == LumaPlane(pic, h, w) && u == UPlane(pic, h, w) && v == VPlane(pic, h, w)
    ensures var buf := y + if vuFirst then Alternate(v, u) else Alternate(u, v);
            Fits(|buf|, SemiPlanar(w, h, vuFirst), h, w) && Keeps(buf, SemiPlanar(w, h, vuFirst), pic, h, w)
  {
    hide ChromaCount, LumaPlane, UPlane, VPlane, Fits, Alternate;
    var l := SemiPlanar(w, h, vuFirst);
    var buf := y + if vuFirst then Alternate(v, u) else Alternate(u, v);
    SemiPlanarInside(|buf|, w, h, vuFirst);
    forall c | 0 <= c < ChromaCount(w, h)
      ensures buf[Place(l.u, 2, c)] == u[c] && buf[Place(l.v, 2, c)] == v[c]
    {
      if vuFirst {
        AlternateAt(y, v, u, c);
      } else {
        AlternateAt(y, u, v, c);
      }
    }
    assert forall k :: 0 <= k < w * h ==> buf[Place(0, 1, k)] == y[k];
  }

  lemma FullPixel(y: seq<Byte>, u: seq<Byte>, v: seq<Byte>, pic: Picture, h: nat, w: nat, j: int, i: int)
    requires IsPicture(pic, h, w) && |y| == |u| == |v| == w * h && 0 <= j < h && 0 <= i < w
    requires forall k :: 0 <= k < w * h ==> y[k] == Nth(pic, h, w, k).y && u[k] == Nth(pic, h, w, k).u && v[k] == Nth(pic, h, w, k).v
    ensures Pixel444(y + u + v, h, w, j, i) == pic[j][i]
  {
    hide Pix, Nth;
    NthAt(pic, h, w, j, i);
    ThreeAt(y, u, v, Pix(w, j, i));
  }

  // ----- packed frames -----

  lemma InStride(w: nat, i: int, b: int)
    requires 0 <= i < w && 0 <= b < 4
    ensures 0 <= (i / 2) * 4 + b < Packed422Stride(w) && ((i / 2) * 4 + b) / 4 == i / 2
  {}

  lemma FourAndByte(q: int, b: int)
    requires 0 <= b < 4
    ensures (4 * q + b) % 4 == b
  {}

  lemma InMacro(h: nat, w: nat, j: int, i: int, b: int)
    requires 0 <= j < h && 0 <= i < w && 0 <= b < 4
    ensures var s, k := Packed422Stride(w), Macro(w, j, i) + b;
            0 <= k < s * h && k / s == j && k % s / 4 == i / 2 && k % 4 == b
  {
    hide Packed422Stride;
    MacroInside(h, w, j, i);
    InStride(w, i, b);
    RowAndColumn(Packed422Stride(w), j, (i / 2) * 4 + b);
    assert Pix(Packed422Stride(w), j, (i / 2) * 4 + b) == Macro(w, j, i) + b;
    MacroAligned(w, j, i);
    FourAndByte(j * Macros(w) + i / 2, b);
  }

  lemma PackedAt(o: Order, pic: Picture, h: nat, w: nat, j: int, i: int, b: int)
    requires IsPicture(pic, h, w) && 0 <= j < h && 0 <= i < w && 0 <= b < 4
    ensures var k := Macro(w, j, i) + b;
            0 <= k < Packed422Stride(w) * h && PackedByte(pic, o, h, w, k) == MacroByte(pic[j], o, 2 * (i / 2), b)
  {
    hide Packed422Stride, Macro, MacroByte;
    InMacro(h, w, j, i, b);
  }

  lemma PackedPixel(o: Order, pic: Picture, h: nat, w: nat, j: int, i: int)
    requires IsPicture(pic, h, w) && 0 <= j < h && 0 <= i < w && (o == YUYV || o == UYVY)
    requires SameChroma(pic[j][i], pic[j][2 * (i / 2)])
    ensures var buf := PackedFrame(pic, o, h, w); Fits422(|buf|, o, h, w) && Pixel422(buf, o, h, w, j, i) == pic[j][i]
  {
    hide Packed422Stride, Macro, PackedByte;
    PackedAt(o, pic, h, w, j, i, o.y + 2 * (i % 2));
    PackedAt(o, pic, h, w, j, i, o.u);
    PackedAt(o, pic, h, w, j, i, o.v);
  }

  lemma PackedPicture(o: Order, pic: Picture, h: nat, w: nat)
    requires IsPicture(pic, h, w) && (o == YUYV || o == UYVY)
    requires forall j, i :: 0 <= j < h && 0 <= i < w ==> SameChroma(pic[j][i], pic[j][2 * (i / 2)])
    ensures var buf := PackedFrame(pic, o, h, w); Fits422(|buf|, o, h, w) && Picture422(buf, o, h, w) == pic
  {
    hide Packed422Stride, Pixel422, PackedByte;
    var buf := PackedFrame(pic, o, h, w);
    var q := Picture422(buf, o, h, w);
    forall j | 0 <= j < h ensures q[j] == pic[j] {
      forall i | 0 <= i < w ensures q[j][i] == pic[j][i] {
        PackedPixel(o, pic, h, w, j, i);
      }
    }
  }

  lemma FullPicture(pic: Picture, h: nat, w: nat)
    requires IsPicture(pic, h, w)
    ensures var buf := Written("yuv444", pic, h, w); |buf| == 3 * (w * h) && Picture444(buf, h, w) == pic
  {
    hide UPlane, VPlane, Nth, Pixel444;
    var buf := Written("yuv444", pic, h, w);
    var n := w * h;
    var q := Picture444(buf, h, w);
    forall j | 0 <= j < h ensures q[j] == pic[j] {
      forall i | 0 <= i < w ensures q[j][i] == pic[j][i] {
        FullPixel(buf[..n], buf[n..2 * n], buf[2 * n..], pic, h, w, j, i);
        assert buf == buf[..n] + buf[n..2 * n] + buf[2 * n..];
      }
    }
  }

  // ----- every format -----

  lemma Subsampled(format: string, pic: Picture, h: nat, w: nat)
    requires IsPicture(pic, h, w) && Holds(format, pic, h, w) && !IsPacked(format) && format != "yuv444"
    ensures var buf := Written(format, pic, h, w);
            |buf| == w * h + 2 * ChromaCount(w, h)
            && Fits(|buf|, LayoutOf(format, w, h), h, w) && Picture420(buf, LayoutOf(format, w, h), h, w) == pic
  {
    hide ChromaCount, LumaPlane, UPlane, VPlane, Holds, Fits, Keeps, Picture420, Alternate;
    var y, u, v := LumaPlane(pic, h, w), UPlane(pic, h, w), VPlane(pic, h, w);
    PlanarKept(y, u, v, pic, h, w, format == "yv12");
    SemiPlanarKept(y, u, v, pic, h, w, format == "nv21");
    PictureKept(Written(format, pic, h, w), LayoutOf(format, w, h), format, pic, h, w);
  }

  /** Main result. In every format, unknown names included, a picture that the format can hold
      is written out in exactly the frame size, and decoding gives it back. */
  lemma RoundTrip(format: string, pic: Picture, h: nat, w: nat)
    requires IsPicture(pic, h, w) && Holds(format, pic, h, w)
    ensures |Written(format, pic, h, w)| == FrameSize(format, w, h)
    ensures PictureOf(format, Written(format, pic, h, w), w, h) == pic
  {
    hide ChromaCount, LumaPlane, UPlane, VPlane, Picture420, Picture422, Picture444, PackedFrame, Packed422Stride;
    if format == "yuyv" {
      PackedPicture(YUYV, pic, h, w);
    } else if format == "uyvy" {
      PackedPicture(UYVY, pic, h, w);
    } else if format == "yuv444" {
      FullPicture(pic, h, w);
    } else {
      Subsampled(format, pic, h, w);
    }
  }
}
