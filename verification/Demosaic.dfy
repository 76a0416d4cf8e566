/**
 The demosaic of internal/raster/miniisp.go, over reals: black level correction, the
 directional green plane, the two colour difference planes and their low-pass. A Bayer
 frame of one constant per colour comes out exact at every pixel, borders included, for
 every pattern, exactly when the frame is at least 3 x 3.
 */
module Demosaic {
  import opened BoxBlur
  import opened RowMajor

  // ----- the colour filter array -----

  /** Per 2x2 phase 2 * (y % 2) + x % 2: the black level index (0 R, 1 Gr, 2 Gb, 3 B) and
      the colour (0 R, 1 G, 2 B). */
  datatype Cfa = Cfa(channel: seq<int>, color: seq<int>)

  function Tile(key: string): (tile: seq<string>)
    ensures |tile| == 2 && |tile[0]| == |tile[1]| == 2
  {
    if key == "BGGR" then ["BG", "GR"]
    else if key == "GRBG" then ["GR", "BG"]
    else if key == "GBRG" then ["GB", "RG"]
    else ["RG", "GB"]
  }

  function Hue<T>(k: int, r: T, g: T, b: T): T {
    if k == 0 then r else if k == 1 then g else b
  }

  function Color(t: Cfa, y: int, x: int): int
    requires |t.color| == 4
  {
    t.color[(y % 2) * 2 + x % 2]
  }

  function Channel(t: Cfa, y: int, x: int): int
    requires |t.channel| == 4
  {
    t.channel[(y % 2) * 2 + x % 2]
  }

  predicate BayerSite(t: Cfa, y: int, x: int)
    requires |t.color| == 4 && |t.channel| == 4 && 0 <= y < 2 && 0 <= x < 2
  {
    var k := t.color[y * 2 + x];
    var across := t.color[y * 2 + (1 - x)];
    var down := t.color[(1 - y) * 2 + x];
    var diagonal := t.color[(1 - y) * 2 + (1 - x)];
    && 0 <= k <= 2
    && (k == 1 ==> across != 1 && down == 2 - across && diagonal == 1)
    && (k != 1 ==> across == 1 && down == 1 && diagonal == 2 - k)
    && (t.channel[y * 2 + x] == if k == 0 then 0 else if k == 2 then 3 else if across == 0 then 1 else 2)
  }

  /** What makes a Bayer array: the four neighbours of an R or B site are green and its
      diagonal carries the other one; of a green site one axis carries R, the other B. */
  predicate Bayer(t: Cfa) {
    && |t.color| == 4 && |t.channel| == 4
    && forall y, x :: 0 <= y < 2 && 0 <= x < 2 ==> BayerSite(t, y, x)
  }

  function ColorOf(tile: seq<string>, y: int, x: int): int
    requires |tile| == 2 && |tile[0]| == |tile[1]| == 2 && 0 <= y < 2 && 0 <= x < 2
  {
    if tile[y][x] == 'R' then 0 else if tile[y][x] == 'B' then 2 else 1
  }

  function ChannelOf(tile: seq<string>, y: int, x: int): int
    requires |tile| == 2 && |tile[0]| == |tile[1]| == 2 && 0 <= y < 2 && 0 <= x < 2
  {
    if tile[y][x] == 'R' then 0 else if tile[y][x] == 'B' then 3 else if tile[y][1 - x] == 'R' then 1 else 2
  }

  lemma Phases(tile: seq<string>, t: Cfa)
    requires |tile| == 2 && |tile[0]| == |tile[1]| == 2 && |t.color| == 4 && |t.channel| == 4
    requires forall ph :: 0 <= ph < 4 ==>
               t.channel[ph] == ChannelOf(tile, ph / 2, ph % 2) && t.color[ph] == ColorOf(tile, ph / 2, ph % 2)
    ensures t.color[0] == ColorOf(tile, 0, 0) && t.channel[0] == ChannelOf(tile, 0, 0)
    ensures t.color[1] == ColorOf(tile, 0, 1) && t.channel[1] == ChannelOf(tile, 0, 1)
    ensures t.color[2] == ColorOf(tile, 1, 0) && t.channel[2] == ChannelOf(tile, 1, 0)
    ensures t.color[3] == ColorOf(tile, 1, 1) && t.channel[3] == ChannelOf(tile, 1, 1)
  {}

  lemma SiteOfTile(tile: seq<string>, t: Cfa, y: int, x: int)
    requires tile == ["RG", "GB"] || tile == ["BG", "GR"] || tile == ["GR", "BG"] || tile == ["GB", "RG"]
    requires |t.color| == 4 && |t.channel| == 4 && 0 <= y < 2 && 0 <= x < 2
    requires forall ph :: 0 <= ph < 4 ==>
               t.channel[ph] == ChannelOf(tile, ph / 2, ph % 2) && t.color[ph] == ColorOf(tile, ph / 2, ph % 2)
    ensures BayerSite(t, y, x) && tile[y][x] == Hue(Color(t, y, x), 'R', 'G', 'B')
  {
    Phases(tile, t);
    assert (y == 0 || y == 1) && (x == 0 || x == 1);
  }

  lemma TilesAreBayer(key: string, t: Cfa)
    requires |t.color| == 4 && |t.channel| == 4
    requires var tile := Tile(key); forall ph :: 0 <= ph < 4 ==>
               t.channel[ph] == ChannelOf(tile, ph / 2, ph % 2) && t.color[ph] == ColorOf(tile, ph / 2, ph % 2)
    ensures Bayer(t)
    ensures forall y, x :: 0 <= y < 2 && 0 <= x < 2 ==> Tile(key)[y][x] == Hue(Color(t, y, x), 'R', 'G', 'B')
  {
    forall y, x | 0 <= y < 2 && 0 <= x < 2
      ensures BayerSite(t, y, x) && Tile(key)[y][x] == Hue(Color(t, y, x), 'R', 'G', 'B')
    {
      SiteOfTile(Tile(key), t, y, x);
    }
  }

  /** The letters of a key that is one of the four, row by row; RGGB for any other. */
  function Pattern(key: string): (p: string)
    ensures |p| == 4
  {
    if key in {"RGGB", "BGGR", "GRBG", "GBRG"} then key else "RGGB"
  }

  lemma TileIsPattern(key: string)
    ensures forall y, x :: 0 <= y < 2 && 0 <= x < 2 ==> Tile(key)[y][x] == Pattern(key)[2 * y + x]
  {
    forall y, x | 0 <= y < 2 && 0 <= x < 2 ensures Tile(key)[y][x] == Pattern(key)[2 * y + x] {
      assert (y == 0 || y == 1) && (x == 0 || x == 1);
    }
  }

  /** ispCfa: every pattern key, known or not, gives a Bayer array laid out as its letters. */
  method IspCfa(key: string) returns (t: Cfa)
    ensures Bayer(t)
    ensures forall y, x :: 0 <= y < 2 && 0 <= x < 2 ==> Pattern(key)[2 * y + x] == Hue(Color(t, y, x), 'R', 'G', 'B')
  {
    var tile := Tile(key);
    var channel := new int[4](_ => 0);
    var color := new int[4](_ => 0);
    for y := 0 to 2
      invariant forall ph :: 0 <= ph < 2 * y ==>
                  channel[ph] == ChannelOf(tile, ph / 2, ph % 2) && color[ph] == ColorOf(tile, ph / 2, ph % 2)
    {
      for x := 0 to 2
        invariant forall ph :: 0 <= ph < 2 * y + x ==>
                    channel[ph] == ChannelOf(tile, ph / 2, ph % 2) && color[ph] == ColorOf(tile, ph / 2, ph % 2)
      {
        var ph := y * 2 + x;
        match tile[y][x] {
          case 'R' =>
            channel[ph] := 0;
            color[ph] := 0;
          case 'B' =>
            channel[ph] := 3;
            color[ph] := 2;
          case _ =>
            channel[ph] := if tile[y][1 - x] == 'R' then 1 else 2;
            color[ph] := 1;
        }
      }
    }
    t := Cfa(channel[..], color[..]);
    TilesAreBayer(key, t);
    TileIsPattern(key);
  }

  // ----- mirroring -----

  /** mirx and miry: a coordinate off the edge is mirrored, then clamped. */
  function Mir(v: int, n: int): (m: int)
    requires n > 0
    ensures 0 <= m < n
    ensures 0 <= v < n ==> m == v
  {
    Cl(if v < 0 then -v else if v >= n then 2 * (n - 1) - v else v, n - 1)
  }

  /** Mirroring keeps the parity of every coordinate within two of the frame, so that the
      sample read has the colour meant, exactly when the side is at least three. */
  lemma MirrorParity(n: int)
    requires n > 0
    ensures n >= 3 <==> forall v :: -2 <= v < n + 2 ==> Mir(v, n) % 2 == v % 2
  {
    if n < 3 {
      assert Mir(-n, n) % 2 != -n % 2;
    } else {
      forall v | -2 <= v < n + 2 ensures Mir(v, n) % 2 == v % 2 {
        if v < 0 {
          assert Mir(v, n) == -v;
        } else if v >= n {
          assert Mir(v, n) == 2 * (n - 1) - v;
        }
      }
    }
  }

  /** A coordinate off the edge is read as far inside it, up to the whole frame. */
  lemma MirrorReflects(n: int, k: int)
    requires 0 <= k < n
    ensures Mir(-k, n) == k && Mir(n - 1 + k, n) == n - 1 - k
  {}

  // ----- the passes on values -----

  function Abs(v: real): real {
    if v < 0.0 then -v else v
  }

  /** The green estimate along one axis: the mean of the two green neighbours plus half the
      second difference of the site's own colour. */
  function Axis(a: real, b: real, c: real, a2: real, b2: real): real {
    0.5 * (a + b) + 0.5 * (c - 0.5 * (a2 + b2))
  }

  /** The axis with the smaller green difference wins; a tie takes the mean. */
  function Directed(dh: real, gh: real, dv: real, gv: real): real {
    if dh < dv then gh else if dv < dh then gv else 0.5 * (gh + gv)
  }

  function Across(p: Plane, h: nat, w: nat, y: int, x: int): real
    requires IsPlane(p, h, w) && 0 <= y < h && 0 <= x < w
  {
    Axis(p[y][Mir(x - 1, w)], p[y][Mir(x + 1, w)], p[y][x], p[y][Mir(x - 2, w)], p[y][Mir(x + 2, w)])
  }

  function Down(p: Plane, h: nat, w: nat, y: int, x: int): real
    requires IsPlane(p, h, w) && 0 <= y < h && 0 <= x < w
  {
    Axis(p[Mir(y - 1, h)][x], p[Mir(y + 1, h)][x], p[y][x], p[Mir(y - 2, h)][x], p[Mir(y + 2, h)][x])
  }

  function Green(p: Plane, t: Cfa, h: nat, w: nat, y: int, x: int): real
    requires IsPlane(p, h, w) && 0 <= y < h && 0 <= x < w && Bayer(t)
  {
    if Color(t, y, x) == 1 then p[y][x]
    else Directed(Abs(p[y][Mir(x - 1, w)] - p[y][Mir(x + 1, w)]), Across(p, h, w, y, x),
                  Abs(p[Mir(y - 1, h)][x] - p[Mir(y + 1, h)][x]), Down(p, h, w, y, x))
  }

  function GreenPlane(p: Plane, t: Cfa, h: nat, w: nat): Plane
    requires IsPlane(p, h, w) && Bayer(t)
  {
    seq(h, y requires 0 <= y < h => seq(w, x requires 0 <= x < w => Green(p, t, h, w, y, x)))
  }

  /** The mean of "sample minus green" over a site's two horizontal, two vertical or four
      diagonal neighbours. */
  function AcrossDiff(p: Plane, g: Plane, h: nat, w: nat, y: int, x: int): real
    requires IsPlane(p, h, w) && IsPlane(g, h, w) && 0 <= y < h && 0 <= x < w
  {
    var xm, xp := Mir(x - 1, w), Mir(x + 1, w);
    0.5 * (p[y][xm] + p[y][xp]) - 0.5 * (g[y][xm] + g[y][xp])
  }

  function DownDiff(p: Plane, g: Plane, h: nat, w: nat, y: int, x: int): real
    requires IsPlane(p, h, w) && IsPlane(g, h, w) && 0 <= y < h && 0 <= x < w
  {
    var ym, yp := Mir(y - 1, h), Mir(y + 1, h);
    0.5 * (p[ym][x] + p[yp][x]) - 0.5 * (g[ym][x] + g[yp][x])
  }

  function DiagonalDiff(p: Plane, g: Plane, h: nat, w: nat, y: int, x: int): real
    requires IsPlane(p, h, w) && IsPlane(g, h, w) && 0 <= y < h && 0 <= x < w
  {
    var xm, xp, ym, yp := Mir(x - 1, w), Mir(x + 1, w), Mir(y - 1, h), Mir(y + 1, h);
    0.25 * (p[ym][xm] + p[ym][xp] + p[yp][xm] + p[yp][xp]) - 0.25 * (g[ym][xm] + g[ym][xp] + g[yp][xm] + g[yp][xp])
  }

  /** The difference of colour k (0 R, 2 B) from green at one pixel. */
  function Diff(p: Plane, g: Plane, t: Cfa, h: nat, w: nat, k: int, y: int, x: int): real
    requires IsPlane(p, h, w) && IsPlane(g, h, w) && 0 <= y < h && 0 <= x < w && Bayer(t)
  {
    if Color(t, y, x) == k then p[y][x] - g[y][x]
    else if Color(t, y, x) == 1 then
      if Color(t, y, x + 1) == k then AcrossDiff(p, g, h, w, y, x) else DownDiff(p, g, h, w, y, x)
    else DiagonalDiff(p, g, h, w, y, x)
  }

  function DiffPlane(p: Plane, g: Plane, t: Cfa, h: nat, w: nat, k: int): Plane
    requires IsPlane(p, h, w) && IsPlane(g, h, w) && Bayer(t)
  {
    seq(h, y requires 0 <= y < h => seq(w, x requires 0 <= x < w => Diff(p, g, t, h, w, k, y, x)))
  }

  // ----- constant frames -----

  /** A plane whose R, G and B sites each hold one constant. */
  predicate Mosaic(p: Plane, t: Cfa, h: nat, w: nat, r: real, g: real, b: real)
    requires Bayer(t)
  {
    IsPlane(p, h, w) && forall y, x :: 0 <= y < h && 0 <= x < w ==> p[y][x] == Hue(Color(t, y, x), r, g, b)
  }

  function Flat(h: nat, w: nat, v: real): Plane {
    seq(h, _ => seq(w, _ => v))
  }

  function MosaicPlane(t: Cfa, h: nat, w: nat, r: real, g: real, b: real): (p: Plane)
    requires Bayer(t)
    ensures Mosaic(p, t, h, w, r, g, b)
  {
    seq(h, y requires 0 <= y < h => seq(w, x requires 0 <= x < w => Hue(Color(t, y, x), r, g, b)))
  }

  lemma Parities(v: int)
    ensures (v - 1) % 2 == (v + 1) % 2 == 1 - v % 2 && (v - 2) % 2 == v % 2 == (v + 2) % 2
  {}

  /** One step to the side of a site changes its colour as the array says, two steps do not. */
  lemma Sides(t: Cfa, n: int, y: int, x: int)
    requires Bayer(t) && n >= 3 && 0 <= x < n
    ensures Color(t, y, Mir(x - 1, n)) == Color(t, y, x + 1) == Color(t, y, Mir(x + 1, n))
    ensures Color(t, y, Mir(x - 2, n)) == Color(t, y, x) == Color(t, y, Mir(x + 2, n))
  {
    hide Mir, BayerSite;
    MirrorParity(n);
    Parities(x);
  }

  lemma Ends(t: Cfa, n: int, y: int, x: int)
    requires Bayer(t) && n >= 3 && 0 <= y < n
    ensures Color(t, Mir(y - 1, n), x) == Color(t, y + 1, x) == Color(t, Mir(y + 1, n), x)
    ensures Color(t, Mir(y - 2, n), x) == Color(t, y, x) == Color(t, Mir(y + 2, n), x)
  {
    hide Mir, BayerSite;
    MirrorParity(n);
    Parities(y);
  }

  /** The array's neighbourhood, at any coordinates. */
  lemma Neighbours(t: Cfa, y: int, x: int)
    requires Bayer(t)
    ensures var k := Color(t, y, x);
            && 0 <= k <= 2
            && (k == 1 ==> Color(t, y, x + 1) != 1 && Color(t, y + 1, x) == 2 - Color(t, y, x + 1))
            && (k != 1 ==> Color(t, y, x + 1) == 1 == Color(t, y + 1, x) && Color(t, y + 1, x + 1) == 2 - k)
            && 0 <= Color(t, y, x + 1) <= 2
  {
    Parities(y);
    Parities(x);
    assert BayerSite(t, y % 2, x % 2) && BayerSite(t, y % 2, 1 - x % 2);
  }

  lemma GreenExact(p: Plane, t: Cfa, h: nat, w: nat, r: real, g: real, b: real, y: int, x: int)
    requires Bayer(t) && Mosaic(p, t, h, w, r, g, b) && h >= 3 && w >= 3 && 0 <= y < h && 0 <= x < w
    ensures Green(p, t, h, w, y, x) == g
  {
    hide Bayer, Mir, Color;
    Neighbours(t, y, x);
    Sides(t, w, y, x);
    Ends(t, h, y, x);
  }

  lemma GreenFlat(p: Plane, t: Cfa, h: nat, w: nat, r: real, g: real, b: real)
    requires Bayer(t) && Mosaic(p, t, h, w, r, g, b) && h >= 3 && w >= 3
    ensures GreenPlane(p, t, h, w) == Flat(h, w, g)
  {
    hide Bayer, Green;
    var q := GreenPlane(p, t, h, w);
    forall y, x | 0 <= y < h && 0 <= x < w ensures q[y][x] == g {
      GreenExact(p, t, h, w, r, g, b, y, x);
    }
    assert forall y :: 0 <= y < h ==> q[y] == Flat(h, w, g)[y];
  }

  lemma DiffExact(p: Plane, t: Cfa, h: nat, w: nat, r: real, g: real, b: real, k: int, y: int, x: int)
    requires Bayer(t) && Mosaic(p, t, h, w, r, g, b) && h >= 3 && w >= 3 && 0 <= y < h && 0 <= x < w && (k == 0 || k == 2)
    ensures Diff(p, Flat(h, w, g), t, h, w, k, y, x) == Hue(k, r, g, b) - g
  {
    hide Bayer, Mir, Color;
    Neighbours(t, y, x);
    Sides(t, w, y, x);
    Ends(t, h, y, x);
    Sides(t, w, y + 1, x);
    Sides(t, w, Mir(y - 1, h), x);
    Sides(t, w, Mir(y + 1, h), x);
    Ends(t, h, y, x + 1);
  }

  lemma DiffFlat(p: Plane, t: Cfa, h: nat, w: nat, r: real, g: real, b: real, k: int)
    requires Bayer(t) && Mosaic(p, t, h, w, r, g, b) && h >= 3 && w >= 3 && (k == 0 || k == 2)
    ensures DiffPlane(p, Flat(h, w, g), t, h, w, k) == Flat(h, w, Hue(k, r, g, b) - g)
  {
    hide Bayer, Diff;
    var q := DiffPlane(p, Flat(h, w, g), t, h, w, k);
    forall y, x | 0 <= y < h && 0 <= x < w ensures q[y][x] == Hue(k, r, g, b) - g {
      DiffExact(p, t, h, w, r, g, b, k, y, x);
    }
    assert forall y :: 0 <= y < h ==> q[y] == Flat(h, w, Hue(k, r, g, b) - g)[y];
  }

  lemma FlatStays(h: nat, w: nat, v: real, radius: int)
    ensures IsPlane(Flat(h, w, v), h, w) && Blurred(Flat(h, w, v), h, w, radius) == Flat(h, w, v)
  {
    hide Blurred;
    BlurredBetween(Flat(h, w, v), h, w, radius, v, v);
  }

  // ----- constant frames are exact -----

  /** All three planes the later stages read. */
  ghost predicate Demosaiced(p: Plane, t: Cfa, h: nat, w: nat, radius: int, gp: Plane, dr: Plane, db: Plane)
    requires IsPlane(p, h, w) && Bayer(t)
  {
    && gp == GreenPlane(p, t, h, w)
    && dr == Blurred(DiffPlane(p, gp, t, h, w, 0), h, w, radius)
    && db == Blurred(DiffPlane(p, gp, t, h, w, 2), h, w, radius)
  }

  /** Exact reconstruction of a constant frame: green, R - G and B - G at every pixel. */
  ghost predicate Exact(t: Cfa, h: nat, w: nat, radius: int, r: real, g: real, b: real)
    requires Bayer(t)
  {
    Demosaiced(MosaicPlane(t, h, w, r, g, b), t, h, w, radius, Flat(h, w, g), Flat(h, w, r - g), Flat(h, w, b - g))
  }

  lemma ConstantExact(t: Cfa, h: nat, w: nat, radius: int, r: real, g: real, b: real)
    requires Bayer(t) && h >= 3 && w >= 3
    ensures Exact(t, h, w, radius, r, g, b)
  {
    hide Bayer, GreenPlane, DiffPlane, Mosaic, Blurred, Flat;
    var p := MosaicPlane(t, h, w, r, g, b);
    GreenFlat(p, t, h, w, r, g, b);
    DiffFlat(p, t, h, w, r, g, b, 0);
    DiffFlat(p, t, h, w, r, g, b, 2);
    FlatStays(h, w, r - g, radius);
    FlatStays(h, w, b - g, radius);
  }

  // ----- frames too small -----

  /** With red and blue 1 and green 0, the two neighbours of a site near the corner agree,
      and an axis of fewer than three samples overestimates green. */
  lemma SmallAcross(p: Plane, t: Cfa, h: nat, w: nat, y: int, x: int)
    requires Bayer(t) && Mosaic(p, t, h, w, 1.0, 0.0, 1.0) && 0 <= y < h && 0 <= x < w && x < 2 && Color(t, y, x) != 1
    ensures p[y][Mir(x - 1, w)] == p[y][Mir(x + 1, w)]
    ensures if w < 3 then Across(p, h, w, y, x) > 0.0 else Across(p, h, w, y, x) >= 0.0
  {
    hide BayerSite;
    Neighbours(t, y, x);
    if w >= 3 {
      Sides(t, w, y, x);
    }
  }

  lemma SmallDown(p: Plane, t: Cfa, h: nat, w: nat, y: int, x: int)
    requires Bayer(t) && Mosaic(p, t, h, w, 1.0, 0.0, 1.0) && 0 <= y < h && 0 <= x < w && y < 2 && Color(t, y, x) != 1
    ensures p[Mir(y - 1, h)][x] == p[Mir(y + 1, h)][x]
    ensures if h < 3 then Down(p, h, w, y, x) > 0.0 else Down(p, h, w, y, x) >= 0.0
  {
    hide BayerSite;
    Neighbours(t, y, x);
    if h >= 3 {
      Ends(t, h, y, x);
    }
  }

  lemma SmallGreen(p: Plane, t: Cfa, h: nat, w: nat, y: int, x: int)
    requires Bayer(t) && Mosaic(p, t, h, w, 1.0, 0.0, 1.0) && (h < 3 || w < 3)
    requires 0 <= y < h && y < 2 && 0 <= x < w && x < 2 && Color(t, y, x) != 1
    ensures Green(p, t, h, w, y, x) > 0.0
  {
    hide Mir, Across, Down, Bayer, Mosaic;
    SmallAcross(p, t, h, w, y, x);
    SmallDown(p, t, h, w, y, x);
  }

  /** A single green site: its differences come out 0. */
  lemma OneGreenSite(p: Plane, t: Cfa, radius: int)
    requires Bayer(t) && Mosaic(p, t, 1, 1, 1.0, 0.0, 1.0) && Color(t, 0, 0) == 1
    ensures Blurred(DiffPlane(p, GreenPlane(p, t, 1, 1), t, 1, 1, 0), 1, 1, radius) != Flat(1, 1, 1.0)
  {
    var q := DiffPlane(p, GreenPlane(p, t, 1, 1), t, 1, 1, 0);
    assert q[0][0] == 0.0;
    FlatStays(1, 1, 0.0, radius);
    assert q == Flat(1, 1, 0.0) by {
      assert q[0] == Flat(1, 1, 0.0)[0];
    }
    assert Flat(1, 1, 0.0)[0][0] != Flat(1, 1, 1.0)[0][0];
  }

  lemma TooSmall(t: Cfa, h: nat, w: nat, radius: int)
    requires Bayer(t) && 0 < h && 0 < w && (h < 3 || w < 3)
    ensures !Exact(t, h, w, radius, 1.0, 0.0, 1.0)
  {
    hide BayerSite, Green, DiffPlane, Mosaic, Blurred;
    var p := MosaicPlane(t, h, w, 1.0, 0.0, 1.0);
    Neighbours(t, 0, 0);
    if Color(t, 0, 0) != 1 {
      SmallGreen(p, t, h, w, 0, 0);
      assert GreenPlane(p, t, h, w)[0][0] > 0.0;
    } else if w >= 2 {
      SmallGreen(p, t, h, w, 0, 1);
      assert GreenPlane(p, t, h, w)[0][1] > 0.0;
    } else if h >= 2 {
      SmallGreen(p, t, h, w, 1, 0);
      assert GreenPlane(p, t, h, w)[1][0] > 0.0;
    } else {
      OneGreenSite(p, t, radius);
    }
  }

  /** Main result. Every constant frame is reconstructed exactly, borders included and after
      any low-pass, precisely when both sides are at least three. */
  lemma ExactIff(t: Cfa, h: nat, w: nat, radius: int)
    requires Bayer(t) && 0 < h && 0 < w
    ensures (h >= 3 && w >= 3) <==> forall r, g, b :: Exact(t, h, w, radius, r, g, b)
  {
    hide Bayer, Exact;
    if h >= 3 && w >= 3 {
      forall r, g, b ensures Exact(t, h, w, radius, r, g, b) {
        ConstantExact(t, h, w, radius, r, g, b);
      }
    } else {
      TooSmall(t, h, w, radius);
    }
  }

  // ----- frames that are not constant -----

  /** No sample is lost: green sites keep theirs, and green plus difference gives back the
      others. */
  lemma SamplesKept(p: Plane, t: Cfa, h: nat, w: nat, y: int, x: int)
    requires IsPlane(p, h, w) && Bayer(t) && 0 <= y < h && 0 <= x < w
    ensures var g := GreenPlane(p, t, h, w);
            p[y][x] == g[y][x] + if Color(t, y, x) == 1 then 0.0 else Diff(p, g, t, h, w, Color(t, y, x), y, x)
  {
    Neighbours(t, y, x);
  }

  /** A grey scene that varies only from row to row is exact at a site if the rows above and
      below differ, because then the estimate along the row is taken. If they agree, both
      estimates count, and the second differences down the column must cancel. */
  lemma RowsExact(p: Plane, f: int -> real, t: Cfa, h: nat, w: nat, y: int, x: int)
    requires IsPlane(p, h, w) && Bayer(t) && 0 <= y < h && 0 <= x < w
    requires forall v, u :: 0 <= v < h && 0 <= u < w ==> p[v][u] == f(v)
    ensures Green(p, t, h, w, y, x) == f(y) <==>
            Color(t, y, x) == 1 || f(Mir(y - 1, h)) != f(Mir(y + 1, h))
            || 4.0 * f(Mir(y - 1, h)) == 2.0 * f(y) + f(Mir(y - 2, h)) + f(Mir(y + 2, h))
  {
    hide Mir, Bayer, Color;
  }

  lemma ColumnsExact(p: Plane, f: int -> real, t: Cfa, h: nat, w: nat, y: int, x: int)
    requires IsPlane(p, h, w) && Bayer(t) && 0 <= y < h && 0 <= x < w
    requires forall v, u :: 0 <= v < h && 0 <= u < w ==> p[v][u] == f(u)
    ensures Green(p, t, h, w, y, x) == f(x) <==>
            Color(t, y, x) == 1 || f(Mir(x - 1, w)) != f(Mir(x + 1, w))
            || 4.0 * f(Mir(x - 1, w)) == 2.0 * f(x) + f(Mir(x - 2, w)) + f(Mir(x + 2, w))
  {
    hide Mir, Bayer, Color;
  }

  lemma Evenly(a: real, k: real, n: int)
    ensures (a + k * (n - 1) as real) + (a + k * (n + 1) as real) == 2.0 * (a + k * n as real)
    ensures (a + k * (n - 2) as real) + (a + k * (n + 2) as real) == 2.0 * (a + k * n as real)
  {}

  lemma EvenRow(p: Plane, t: Cfa, h: nat, w: nat, y: int, x: int)
    requires IsPlane(p, h, w) && Bayer(t) && 0 <= y < h && 2 <= x < w - 2
    requires p[y][x - 1] + p[y][x + 1] == 2.0 * p[y][x] == p[y][x - 2] + p[y][x + 2]
    requires Abs(p[y][x + 1] - p[y][x - 1]) < Abs(p[Mir(y + 1, h)][x] - p[Mir(y - 1, h)][x])
    ensures Green(p, t, h, w, y, x) == p[y][x]
  {
    hide Bayer, Color, Mir, Down;
  }

  /** A grey scene that is linear along every row is exact two pixels from the left and right
      border wherever the green difference along the row is the smaller one, whatever happens
      down the columns. */
  lemma LinearRowsExact(p: Plane, base: int -> real, slope: int -> real, t: Cfa, h: nat, w: nat, y: int, x: int)
    requires IsPlane(p, h, w) && Bayer(t) && 0 <= y < h && 2 <= x < w - 2
    requires forall v, u :: 0 <= v < h && 0 <= u < w ==> p[v][u] == base(v) + slope(v) * u as real
    requires Abs(p[y][x + 1] - p[y][x - 1]) < Abs(p[Mir(y + 1, h)][x] - p[Mir(y - 1, h)][x])
    ensures Green(p, t, h, w, y, x) == p[y][x]
  {
    hide Bayer, Mir, Abs, Green;
    Evenly(base(y), slope(y), x);
    EvenRow(p, t, h, w, y, x);
  }

  lemma EvenColumn(p: Plane, t: Cfa, h: nat, w: nat, y: int, x: int)
    requires IsPlane(p, h, w) && Bayer(t) && 2 <= y < h - 2 && 0 <= x < w
    requires p[y - 1][x] + p[y + 1][x] == 2.0 * p[y][x] == p[y - 2][x] + p[y + 2][x]
    requires Abs(p[y + 1][x] - p[y - 1][x]) < Abs(p[y][Mir(x + 1, w)] - p[y][Mir(x - 1, w)])
    ensures Green(p, t, h, w, y, x) == p[y][x]
  {
    hide Bayer, Color, Mir, Across;
  }

  lemma LinearColumnsExact(p: Plane, base: int -> real, slope: int -> real, t: Cfa, h: nat, w: nat, y: int, x: int)
    requires IsPlane(p, h, w) && Bayer(t) && 2 <= y < h - 2 && 0 <= x < w
    requires forall v, u :: 0 <= v < h && 0 <= u < w ==> p[v][u] == base(u) + slope(u) * v as real
    requires Abs(p[y + 1][x] - p[y - 1][x]) < Abs(p[y][Mir(x + 1, w)] - p[y][Mir(x - 1, w)])
    ensures Green(p, t, h, w, y, x) == p[y][x]
  {
    hide Bayer, Mir, Abs, Green;
    Evenly(base(x), slope(x), y);
    EvenColumn(p, t, h, w, y, x);
  }

  /** A colour that changes linearly over the frame. */
  datatype Ramp = Ramp(base: real, down: real, across: real)

  function At(k: Ramp, y: int, x: int): real {
    k.base + k.down * y as real + k.across * x as real
  }

  lemma RampSums(k: Ramp, y: int, x: int)
    ensures At(k, y, x - 1) + At(k, y, x + 1) == 2.0 * At(k, y, x) == At(k, y, x - 2) + At(k, y, x + 2)
    ensures At(k, y - 1, x) + At(k, y + 1, x) == 2.0 * At(k, y, x) == At(k, y - 2, x) + At(k, y + 2, x)
    ensures At(k, y - 1, x - 1) + At(k, y - 1, x + 1) + At(k, y + 1, x - 1) + At(k, y + 1, x + 1) == 4.0 * At(k, y, x)
  {}

  predicate Ramps(p: Plane, t: Cfa, h: nat, w: nat, r: Ramp, g: Ramp, b: Ramp)
    requires Bayer(t)
  {
    IsPlane(p, h, w) && forall y, x :: 0 <= y < h && 0 <= x < w ==> p[y][x] == At(Hue(Color(t, y, x), r, g, b), y, x)
  }

  /** Away from the border, three colours that each change linearly are exact too. */
  lemma RampGreen(p: Plane, t: Cfa, h: nat, w: nat, r: Ramp, g: Ramp, b: Ramp, y: int, x: int)
    requires Bayer(t) && Ramps(p, t, h, w, r, g, b) && 2 <= y < h - 2 && 2 <= x < w - 2
    ensures Green(p, t, h, w, y, x) == At(g, y, x)
  {
    hide BayerSite, Color, At;
    Neighbours(t, y, x);
    Sides(t, w, y, x);
    Ends(t, h, y, x);
    RampSums(g, y, x);
    RampSums(Hue(Color(t, y, x), r, g, b), y, x);
  }

  lemma RampDiff(p: Plane, t: Cfa, h: nat, w: nat, r: Ramp, g: Ramp, b: Ramp, k: int, y: int, x: int)
    requires Bayer(t) && Ramps(p, t, h, w, r, g, b) && 3 <= y < h - 3 && 3 <= x < w - 3 && (k == 0 || k == 2)
    ensures Diff(p, GreenPlane(p, t, h, w), t, h, w, k, y, x) == At(Hue(k, r, g, b), y, x) - At(g, y, x)
  {
    hide BayerSite, Color, At, Green;
    forall v, u | y - 1 <= v <= y + 1 && x - 1 <= u <= x + 1 ensures GreenPlane(p, t, h, w)[v][u] == At(g, v, u) {
      RampGreen(p, t, h, w, r, g, b, v, u);
    }
    Neighbours(t, y, x);
    Sides(t, w, y, x);
    Ends(t, h, y, x);
    Sides(t, w, y - 1, x);
    Sides(t, w, y + 1, x);
    Ends(t, h, y, x + 1);
    RampSums(g, y, x);
    RampSums(Hue(k, r, g, b), y, x);
  }

  lemma Spread(a: real, x: int, j: int)
    ensures a * (x - j) as real + a * (x + j) as real == 2.0 * (a * x as real)
  {
    assert (x - j) as real == x as real - j as real && (x + j) as real == x as real + j as real;
  }

  /** A ramp is linear in every direction. */
  lemma RampCentred(k: Ramp, y: int, x: int, j: int)
    ensures At(k, y, x - j) + At(k, y, x + j) == 2.0 * At(k, y, x)
    ensures At(k, y - j, x) + At(k, y + j, x) == 2.0 * At(k, y, x)
  {
    Spread(k.across, x, j);
    Spread(k.down, y, j);
  }

  lemma DifferenceCentred(d: Plane, h: nat, w: nat, a: Ramp, g: Ramp, y: int, x: int, n: nat)
    requires IsPlane(d, h, w) && 3 + n <= y < h - 3 - n && 3 + n <= x < w - 3 - n
    requires forall v, u :: 3 <= v < h - 3 && 3 <= u < w - 3 ==> d[v][u] == At(a, v, u) - At(g, v, u)
    ensures Centred(d, y, x, n)
  {
    hide At;
    forall v, j | y - n <= v <= y + n && 0 <= j <= n ensures Pairs(RowFn(d, v), x, j) {
      RampCentred(a, v, x, j);
      RampCentred(g, v, x, j);
    }
    forall j | 0 <= j <= n ensures Pairs(ColFn(d, x), y, j) {
      RampCentred(a, y, x, j);
      RampCentred(g, y, x, j);
    }
  }

  /** The low-pass keeps it exact where its window stays clear of the border. */
  lemma RampBlurred(p: Plane, t: Cfa, h: nat, w: nat, r: Ramp, g: Ramp, b: Ramp, k: int, radius: int, y: int, x: int)
    requires Bayer(t) && Ramps(p, t, h, w, r, g, b) && (k == 0 || k == 2)
    requires 3 <= y < h - 3 && 3 <= x < w - 3 && 3 + radius <= y < h - 3 - radius && 3 + radius <= x < w - 3 - radius
    ensures Blurred(DiffPlane(p, GreenPlane(p, t, h, w), t, h, w, k), h, w, radius)[y][x] == At(Hue(k, r, g, b), y, x) - At(g, y, x)
  {
    hide Bayer, Hue, At, Green, Diff, Mean, Color, Centred;
    var d, a := DiffPlane(p, GreenPlane(p, t, h, w), t, h, w, k), Hue(k, r, g, b);
    forall v, u | 3 <= v < h - 3 && 3 <= u < w - 3 ensures d[v][u] == At(a, v, u) - At(g, v, u) {
      RampDiff(p, t, h, w, r, g, b, k, v, u);
    }
    if radius > 0 {
      DifferenceCentred(d, h, w, a, g, y, x, radius);
      MeanCentred(d, y, x, radius);
    }
  }

  // ----- the demosaic as it runs -----

  function BytesPer(bitDepth: int): nat {
    if bitDepth <= 8 then 1 else 2
  }

  /** ispSample: a byte per sample, or two, low byte first. */
  function Sample(buf: seq<Byte>, bitDepth: int, i: int): (v: int)
    requires 0 <= i && |buf| >= BytesPer(bitDepth) * (i + 1)
    ensures 0 <= v < 65536
  {
    if bitDepth <= 8 then buf[i] else buf[i * 2] as int + 256 * (buf[i * 2 + 1] as int)
  }

  /** A sample takes one byte up to eight bits, and two, low byte first, beyond. */
  lemma SampleReadsBack(buf: seq<Byte>, bitDepth: int, i: nat, v: int)
    requires |buf| >= BytesPer(bitDepth) * (i + 1) && 0 <= v < 65536
    ensures Sample(buf, bitDepth, i) == v <==>
            if bitDepth <= 8 then buf[i] == v else buf[i * 2] == v % 256 && buf[i * 2 + 1] == v / 256
  {}

  /** One sample less its black level, cut to [0, maxVal]. */
  function Level(v: int, black: int, maxVal: int): (r: int)
    ensures maxVal >= 0 ==> 0 <= r <= maxVal
    ensures 0 <= v - black <= maxVal ==> r + black == v
  {
    var d := v - black;
    if d < 0 then 0 else if d > maxVal then maxVal else d
  }

  function Gap(a: int, b: int): int {
    if a < b then b - a else a - b
  }

  /** No value in range is nearer to what is left of the sample. */
  lemma LevelNearest(v: int, black: int, maxVal: int, q: int)
    requires 0 <= q <= maxVal
    ensures Gap(Level(v, black, maxVal), v - black) <= Gap(q, v - black)
    ensures Gap(Level(v, black, maxVal), v - black) == Gap(q, v - black) ==> Level(v, black, maxVal) == q
  {}

  predicate Frame(buf: seq<Byte>, bitDepth: int, h: nat, w: nat) {
    |buf| >= BytesPer(bitDepth) * (w * h)
  }

  lemma InFrame(buf: seq<Byte>, bitDepth: int, h: nat, w: nat, y: int, x: int)
    requires Frame(buf, bitDepth, h, w) && 0 <= y < h && 0 <= x < w
    ensures 0 <= y * w + x && |buf| >= BytesPer(bitDepth) * (y * w + x + 1)
  {
    Inside(h, w, y, x);
    MulMono(y * w + x + 1, w * h, BytesPer(bitDepth));
  }

  function SampleAt(buf: seq<Byte>, bitDepth: int, h: nat, w: nat, y: int, x: int): int
    requires Frame(buf, bitDepth, h, w) && 0 <= y < h && 0 <= x < w
  {
    InFrame(buf, bitDepth, h, w, y, x);
    Sample(buf, bitDepth, y * w + x)
  }

  function ChannelIn(t: Cfa, y: int, x: int): (c: int)
    requires Bayer(t)
    ensures 0 <= c < 4
    ensures c == if Color(t, y, x) == 0 then 0 else if Color(t, y, x) == 2 then 3 else if Color(t, y, x + 1) == 0 then 1 else 2
  {
    Parities(x);
    assert BayerSite(t, y % 2, x % 2);
    Channel(t, y, x)
  }

  function Corrected(buf: seq<Byte>, bitDepth: int, t: Cfa, black: seq<int>, maxVal: int, h: nat, w: nat): (p: Plane)
    requires Frame(buf, bitDepth, h, w) && Bayer(t) && |black| == 4
    ensures IsPlane(p, h, w)
  {
    seq(h, y requires 0 <= y < h => seq(w, x requires 0 <= x < w =>
      Level(SampleAt(buf, bitDepth, h, w, y, x), black[ChannelIn(t, y, x)], maxVal) as real))
  }

  method BlackLevel(buf: seq<Byte>, bitDepth: int, t: Cfa, black: seq<int>, maxVal: int, plane: array2<real>)
    requires Frame(buf, bitDepth, plane.Length0, plane.Length1) && Bayer(t) && |black| == 4
    modifies plane
    ensures Rows(plane) == Corrected(buf, bitDepth, t, black, maxVal, plane.Length0, plane.Length1)
  {
    hide Bayer, Sample, Level;
    var h, w := plane.Length0, plane.Length1;
    ghost var p := Corrected(buf, bitDepth, t, black, maxVal, h, w);
    for y := 0 to h
      invariant forall v, u :: 0 <= v < y && 0 <= u < w ==> plane[v, u] == p[v][u]
    {
      for x := 0 to w
        invariant forall v, u :: 0 <= v < h && 0 <= u < w && (v < y || (v == y && u < x)) ==> plane[v, u] == p[v][u]
      {
        InFrame(buf, bitDepth, h, w, y, x);
        plane[y, x] := Level(Sample(buf, bitDepth, y * w + x), black[ChannelIn(t, y, x)], maxVal) as real;
      }
    }
    SamePlane(plane, p);
  }

  method GreenPixel(plane: array2<real>, t: Cfa, y: int, x: int) returns (g: real)
    requires Bayer(t) && 0 <= y < plane.Length0 && 0 <= x < plane.Length1
    ensures g == Green(Rows(plane), t, plane.Length0, plane.Length1, y, x)
  {
    hide BayerSite, Mir;
    var h, w := plane.Length0, plane.Length1;
    if Color(t, y, x) == 1 {
      return plane[y, x];
    }
    var xm, xp, ym, yp := Mir(x - 1, w), Mir(x + 1, w), Mir(y - 1, h), Mir(y + 1, h);
    var xm2, xp2, ym2, yp2 := Mir(x - 2, w), Mir(x + 2, w), Mir(y - 2, h), Mir(y + 2, h);
    var c := plane[y, x];
    var gl, gr, gu, gd := plane[y, xm], plane[y, xp], plane[ym, x], plane[yp, x];
    var gh := 0.5 * (gl + gr) + 0.5 * (c - 0.5 * (plane[y, xm2] + plane[y, xp2]));
    var gv := 0.5 * (gu + gd) + 0.5 * (c - 0.5 * (plane[ym2, x] + plane[yp2, x]));
    var dh := Abs(gl - gr);
    var dv := Abs(gu - gd);
    if dh < dv {
      g := gh;
    } else if dv < dh {
      g := gv;
    } else {
      g := 0.5 * (gh + gv);
    }
  }

  /** Pass 1, the green plane. */
  method GreenPass(plane: array2<real>, gp: array2<real>, t: Cfa)
    requires plane != gp && plane.Length0 == gp.Length0 && plane.Length1 == gp.Length1 && Bayer(t)
    modifies gp
    ensures Rows(gp) == GreenPlane(Rows(plane), t, plane.Length0, plane.Length1)
  {
    hide Bayer, Green;
    var h, w := plane.Length0, plane.Length1;
    ghost var p := Rows(plane);
    for y := 0 to h
      invariant forall v, u :: 0 <= v < y && 0 <= u < w ==> gp[v, u] == Green(p, t, h, w, v, u)
    {
      for x := 0 to w
        invariant forall v, u :: 0 <= v < h && 0 <= u < w && (v < y || (v == y && u < x)) ==> gp[v, u] == Green(p, t, h, w, v, u)
      {
        var g := GreenPixel(plane, t, y, x);
        gp[y, x] := g;
      }
    }
    SamePlane(gp, GreenPlane(p, t, h, w));
  }

  method DifferencePixel(plane: array2<real>, gp: array2<real>, t: Cfa, y: int, x: int) returns (r: real, b: real)
    requires plane.Length0 == gp.Length0 && plane.Length1 == gp.Length1
    requires Bayer(t) && 0 <= y < plane.Length0 && 0 <= x < plane.Length1
    ensures r == Diff(Rows(plane), Rows(gp), t, plane.Length0, plane.Length1, 0, y, x)
    ensures b == Diff(Rows(plane), Rows(gp), t, plane.Length0, plane.Length1, 2, y, x)
  {
    hide BayerSite, Mir, Color;
    Neighbours(t, y, x);
    var h, w := plane.Length0, plane.Length1;
    var ym, yp, xm, xp := Mir(y - 1, h), Mir(y + 1, h), Mir(x - 1, w), Mir(x + 1, w);
    var g := gp[y, x];
    var rp, bp: real;
    if Color(t, y, x) == 1 {
      var horizDiff := 0.5 * (plane[y, xm] + plane[y, xp]) - 0.5 * (gp[y, xm] + gp[y, xp]);
      var vertDiff := 0.5 * (plane[ym, x] + plane[yp, x]) - 0.5 * (gp[ym, x] + gp[yp, x]);
      if Color(t, y, x + 1) == 0 {
        rp, bp := g + horizDiff, g + vertDiff;
      } else {
        bp, rp := g + horizDiff, g + vertDiff;
      }
    } else {
      var diagDiff := 0.25 * (plane[ym, xm] + plane[ym, xp] + plane[yp, xm] + plane[yp, xp])
                      - 0.25 * (gp[ym, xm] + gp[ym, xp] + gp[yp, xm] + gp[yp, xp]);
      if Color(t, y, x) == 0 {
        rp, bp := plane[y, x], g + diagDiff;
      } else {
        bp, rp := plane[y, x], g + diagDiff;
      }
    }
    r := rp - g;
    b := bp - g;
  }

  /** Pass 2a, the two difference planes. */
  method DifferencePass(plane: array2<real>, gp: array2<real>, dr: array2<real>, db: array2<real>, t: Cfa)
    requires gp.Length0 == dr.Length0 == db.Length0 == plane.Length0 && gp.Length1 == dr.Length1 == db.Length1 == plane.Length1
    requires dr != db && plane != dr && plane != db && gp != dr && gp != db && Bayer(t)
    modifies dr, db
    ensures Rows(dr) == DiffPlane(Rows(plane), Rows(gp), t, plane.Length0, plane.Length1, 0)
    ensures Rows(db) == DiffPlane(Rows(plane), Rows(gp), t, plane.Length0, plane.Length1, 2)
  {
    hide Bayer, Diff;
    var h, w := plane.Length0, plane.Length1;
    ghost var p, g := Rows(plane), Rows(gp);
    for y := 0 to h
      invariant forall v, u :: 0 <= v < y && 0 <= u < w ==>
                  dr[v, u] == Diff(p, g, t, h, w, 0, v, u) && db[v, u] == Diff(p, g, t, h, w, 2, v, u)
    {
      for x := 0 to w
        invariant forall v, u :: 0 <= v < h && 0 <= u < w && (v < y || (v == y && u < x)) ==>
                    dr[v, u] == Diff(p, g, t, h, w, 0, v, u) && db[v, u] == Diff(p, g, t, h, w, 2, v, u)
      {
        var r, b := DifferencePixel(plane, gp, t, y, x);
        dr[y, x] := r;
        db[y, x] := b;
      }
    }
    SamePlane(dr, DiffPlane(p, g, t, h, w, 0));
    SamePlane(db, DiffPlane(p, g, t, h, w, 2));
  }

  /** ProcessBayer up to the low-pass of the difference planes. A buffer too short for the
      frame gives nothing. */
  method Demosaic(buf: seq<Byte>, w: int, h: int, bitDepth: int, key: string, black: seq<int>, maxValue: int, radius: int, procs: int)
    returns (ok: bool, gp: array2<real>, dr: array2<real>, db: array2<real>, t: Cfa)
    requires |black| == 4
    ensures ok <==> h > 0 && w > 0 && |buf| >= if bitDepth <= 8 then w * h else 2 * (w * h)
    ensures ok ==> h > 0 && w > 0 && Frame(buf, bitDepth, h, w)
    ensures Bayer(t) && forall y, x :: 0 <= y < 2 && 0 <= x < 2 ==> Pattern(key)[2 * y + x] == Hue(Color(t, y, x), 'R', 'G', 'B')
    ensures ok ==>
              var p := Corrected(buf, bitDepth, t, black, if maxValue <= 0 then 1023 else maxValue, h, w);
              Demosaiced(p, t, h, w, radius, Rows(gp), Rows(dr), Rows(db))
  {
    hide Bayer, Color, Corrected, GreenPlane, DiffPlane, Blurred;
    t := IspCfa(key);
    if w <= 0 || h <= 0 || |buf| < BytesPer(bitDepth) * (w * h) {
      gp, dr, db := new real[0, 0], new real[0, 0], new real[0, 0];
      return false, gp, dr, db, t;
    }
    var maxVal := if maxValue <= 0 then 1023 else maxValue;
    var plane := new real[h, w];
    gp, dr, db := new real[h, w], new real[h, w], new real[h, w];
    BlackLevel(buf, bitDepth, t, black, maxVal, plane);
    GreenPass(plane, gp, t);
    DifferencePass(plane, gp, dr, db, t);
    var tmp := new real[h, w];
    Blur(dr, tmp, radius, procs);
    Blur(db, tmp, radius, procs);
    ok := true;
  }

  /** Red, green and blue sites of the raw frame each hold one number. */
  predicate OneEach(buf: seq<Byte>, bitDepth: int, t: Cfa, h: nat, w: nat, r: int, g: int, b: int)
    requires Frame(buf, bitDepth, h, w) && Bayer(t)
  {
    forall y, x :: 0 <= y < h && 0 <= x < w ==> SampleAt(buf, bitDepth, h, w, y, x) == Hue(Color(t, y, x), r, g, b)
  }

  /** A raw frame of one number per colour, whose two green black levels leave the same
      value, is a mosaic of three constants after the correction. */
  lemma CorrectedMosaic(buf: seq<Byte>, bitDepth: int, t: Cfa, black: seq<int>, maxVal: int, h: nat, w: nat, r: int, g: int, b: int)
    requires Frame(buf, bitDepth, h, w) && Bayer(t) && |black| == 4
    requires OneEach(buf, bitDepth, t, h, w, r, g, b)
    requires Level(g, black[1], maxVal) == Level(g, black[2], maxVal)
    ensures Mosaic(Corrected(buf, bitDepth, t, black, maxVal, h, w), t, h, w,
                   Level(r, black[0], maxVal) as real, Level(g, black[1], maxVal) as real, Level(b, black[3], maxVal) as real)
  {
    hide BayerSite, SampleAt, Level, Color;
    forall y, x | 0 <= y < h && 0 <= x < w
      ensures Corrected(buf, bitDepth, t, black, maxVal, h, w)[y][x] ==
              Hue(Color(t, y, x), Level(r, black[0], maxVal) as real, Level(g, black[1], maxVal) as real,
                  Level(b, black[3], maxVal) as real)
    {
      Neighbours(t, y, x);
    }
  }

  predicate FlatColours(h: nat, w: nat, red: real, green: real, blue: real, gp: Plane, dr: Plane, db: Plane) {
    gp == Flat(h, w, green) && dr == Flat(h, w, red - green) && db == Flat(h, w, blue - green)
  }

  lemma EqualLevelsExact(buf: seq<Byte>, bitDepth: int, t: Cfa, black: seq<int>, maxVal: int, h: nat, w: nat, radius: int,
                         r: int, g: int, b: int, gp: Plane, dr: Plane, db: Plane)
    requires Frame(buf, bitDepth, h, w) && Bayer(t) && |black| == 4 && h >= 3 && w >= 3
    requires OneEach(buf, bitDepth, t, h, w, r, g, b) && Level(g, black[1], maxVal) == Level(g, black[2], maxVal)
    requires Demosaiced(Corrected(buf, bitDepth, t, black, maxVal, h, w), t, h, w, radius, gp, dr, db)
    ensures FlatColours(h, w, Level(r, black[0], maxVal) as real, Level(g, black[1], maxVal) as real,
                        Level(b, black[3], maxVal) as real, gp, dr, db)
  {
    hide Bayer, GreenPlane, DiffPlane, Mosaic, Blurred, Flat, Level, SampleAt, Corrected, Color;
    var red, green, blue := Level(r, black[0], maxVal) as real, Level(g, black[1], maxVal) as real, Level(b, black[3], maxVal) as real;
    var p := Corrected(buf, bitDepth, t, black, maxVal, h, w);
    CorrectedMosaic(buf, bitDepth, t, black, maxVal, h, w, r, g, b);
    GreenFlat(p, t, h, w, red, green, blue);
    DiffFlat(p, t, h, w, red, green, blue, 0);
    DiffFlat(p, t, h, w, red, green, blue, 2);
    FlatStays(h, w, red - green, radius);
    FlatStays(h, w, blue - green, radius);
  }

  /** The green plane keeps each green site's corrected sample. */
  lemma GreenSiteKept(buf: seq<Byte>, bitDepth: int, t: Cfa, black: seq<int>, maxVal: int, h: nat, w: nat,
                      r: int, g: int, b: int, y: int, x: int)
    requires Frame(buf, bitDepth, h, w) && Bayer(t) && |black| == 4 && 0 <= y < h && 0 <= x < w
    requires OneEach(buf, bitDepth, t, h, w, r, g, b) && Color(t, y, x) == 1
    ensures GreenPlane(Corrected(buf, bitDepth, t, black, maxVal, h, w), t, h, w)[y][x]
         == Level(g, black[if Color(t, y, x + 1) == 0 then 1 else 2], maxVal) as real
  {
    hide BayerSite, SampleAt, Level, Color, Sample;
  }

  /** A 2 x 2 tile has a green site in its first row, and its diagonal neighbour is green
      with the axes exchanged. */
  lemma BothGreens(t: Cfa) returns (x: int)
    requires Bayer(t)
    ensures 0 <= x < 2 && Color(t, 0, x) == 1 == Color(t, 1, 1 - x)
    ensures (Color(t, 0, x + 1) == 0) != (Color(t, 1, 1 - x + 1) == 0)
  {
    assert BayerSite(t, 0, 0) && BayerSite(t, 0, 1) && BayerSite(t, 1, 0) && BayerSite(t, 1, 1);
    x := if Color(t, 0, 0) == 1 then 0 else 1;
  }

  lemma FlatGreenEqualLevels(buf: seq<Byte>, bitDepth: int, t: Cfa, black: seq<int>, maxVal: int, h: nat, w: nat,
                             r: int, g: int, b: int, green: real)
    requires Frame(buf, bitDepth, h, w) && Bayer(t) && |black| == 4 && h >= 2 && w >= 2
    requires OneEach(buf, bitDepth, t, h, w, r, g, b)
    requires GreenPlane(Corrected(buf, bitDepth, t, black, maxVal, h, w), t, h, w) == Flat(h, w, green)
    ensures Level(g, black[1], maxVal) == Level(g, black[2], maxVal)
  {
    hide Bayer, SampleAt, Level, Color, Corrected, GreenPlane, OneEach;
    var x := BothGreens(t);
    GreenSiteKept(buf, bitDepth, t, black, maxVal, h, w, r, g, b, 0, x);
    GreenSiteKept(buf, bitDepth, t, black, maxVal, h, w, r, g, b, 1, 1 - x);
    assert Flat(h, w, green)[0][x] == Flat(h, w, green)[1][1 - x];
  }

  /** What Demosaic makes of a raw frame of one number per colour: some constant green plane
      with the two constant differences that belong to it, if and only if the two green black
      levels leave the same value. The green is then that value. */
  lemma RawFrameExact(buf: seq<Byte>, bitDepth: int, t: Cfa, black: seq<int>, maxVal: int, h: nat, w: nat, radius: int,
                      r: int, g: int, b: int, gp: Plane, dr: Plane, db: Plane)
    requires Frame(buf, bitDepth, h, w) && Bayer(t) && |black| == 4 && h >= 3 && w >= 3
    requires OneEach(buf, bitDepth, t, h, w, r, g, b)
    requires Demosaiced(Corrected(buf, bitDepth, t, black, maxVal, h, w), t, h, w, radius, gp, dr, db)
    ensures var red, blue := Level(r, black[0], maxVal) as real, Level(b, black[3], maxVal) as real;
            && (Level(g, black[1], maxVal) == Level(g, black[2], maxVal) <==>
                  exists green :: FlatColours(h, w, red, green, blue, gp, dr, db))
            && (Level(g, black[1], maxVal) == Level(g, black[2], maxVal) <==>
                  FlatColours(h, w, red, Level(g, black[1], maxVal) as real, blue, gp, dr, db))
  {
    hide Bayer, GreenPlane, DiffPlane, Blurred, Flat, Level, SampleAt, Corrected, Color, OneEach;
    var red, blue := Level(r, black[0], maxVal) as real, Level(b, black[3], maxVal) as real;
    if Level(g, black[1], maxVal) == Level(g, black[2], maxVal) {
      EqualLevelsExact(buf, bitDepth, t, black, maxVal, h, w, radius, r, g, b, gp, dr, db);
    }
    if green :| FlatColours(h, w, red, green, blue, gp, dr, db) {
      FlatGreenEqualLevels(buf, bitDepth, t, black, maxVal, h, w, r, g, b, green);
    }
  }

  lemma AllHundred(buf: seq<Byte>, t: Cfa)
    requires buf == seq(9, _ => 100) && Bayer(t)
    ensures Frame(buf, 8, 3, 3) && OneEach(buf, 8, t, 3, 3, 100, 100, 100)
  {
    hide BayerSite, Color;
    forall y, x | 0 <= y < 3 && 0 <= x < 3 ensures SampleAt(buf, 8, 3, 3, y, x) == 100 {
      InFrame(buf, 8, 3, 3, y, x);
    }
  }

  /** One such failure: a 3 x 3 frame of a single number under RGGB, with black levels 0 at
      Gr and 16 at Gb. */
  lemma UnequalBlackLevels(buf: seq<Byte>, t: Cfa)
    requires buf == seq(9, _ => 100) && t == Cfa([0, 1, 2, 3], [0, 1, 1, 2])
    ensures Frame(buf, 8, 3, 3) && Bayer(t)
    ensures var gp := GreenPlane(Corrected(buf, 8, t, [0, 0, 16, 0], 255, 3, 3), t, 3, 3);
            gp[0][1] == 100.0 && gp[1][0] == 84.0 && forall green :: gp != Flat(3, 3, green)
  {
    hide Sample;
    var black := [0, 0, 16, 0];
    AllHundred(buf, t);
    GreenSiteKept(buf, 8, t, black, 255, 3, 3, 100, 100, 100, 0, 1);
    GreenSiteKept(buf, 8, t, black, 255, 3, 3, 100, 100, 100, 1, 0);
    forall green ensures GreenPlane(Corrected(buf, 8, t, black, 255, 3, 3), t, 3, 3) != Flat(3, 3, green) {
      assert Flat(3, 3, green)[0][1] == Flat(3, 3, green)[1][0];
    }
  }
}
