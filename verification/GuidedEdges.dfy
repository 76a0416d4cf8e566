/**
 What the self-guided filter is for: where the variance is large against eps, a pixel stays
 as it is, and where it is small, the pixel becomes the mean of the window means.
 */
module GuidedEdges {
  import opened BoxBlur
  import opened GuidedFilter

  /** The mean of the squares less the square of the mean, around one pixel. */
  function Spread(p: Plane, h: nat, w: nat, y: int, x: int, r: int): real
    requires IsPlane(p, h, w) && r > 0
  {
    Mean(Squared(p, h, w), y, x, r) - Mean(p, y, x, r) * Mean(p, y, x, r)
  }

  /** Every pixel of the frame in the window around (y, x) has spread at least, or at most, v. */
  predicate SpreadAtLeast(p: Plane, h: nat, w: nat, y: int, x: int, r: int, v: real)
    requires IsPlane(p, h, w) && r > 0
  {
    forall i, j :: 0 <= i < h && 0 <= j < w && y - r <= i <= y + r && x - r <= j <= x + r ==> Spread(p, h, w, i, j, r) >= v
  }

  predicate SpreadAtMost(p: Plane, h: nat, w: nat, y: int, x: int, r: int, v: real)
    requires IsPlane(p, h, w) && r > 0
  {
    forall i, j :: 0 <= i < h && 0 <= j < w && y - r <= i <= y + r && x - r <= j <= x + r ==> Spread(p, h, w, i, j, r) <= v
  }

  /** The share of v in v + eps. */
  function Share(v: real, eps: real): real
    requires v >= 0.0 && eps > 0.0
  {
    v / (v + eps)
  }

  lemma ShareGrows(a: real, b: real, eps: real)
    requires 0.0 <= a <= b && eps > 0.0
    ensures Share(a, eps) <= Share(b, eps)
    ensures eps / (a + eps) == 1.0 - Share(a, eps)
  {
    var q, s := a / (a + eps), b / (b + eps);
    assert q * (a + eps) == a && s * (b + eps) == b;
    assert (s - q) * ((a + eps) * (b + eps)) == b * (a + eps) - a * (b + eps) == eps * (b - a);
    if s < q {
      ProductPositive(a + eps, b + eps);
      ProductPositive(q - s, (a + eps) * (b + eps));
      ProductNonNegative(eps, b - a);
    }
    assert eps / (a + eps) + a / (a + eps) == (eps + a) / (a + eps);
  }

  /** The gain of a pixel, from its spread. */
  lemma GainFromSpread(p: Plane, h: nat, w: nat, y: int, x: int, r: int, eps: real)
    requires IsPlane(p, h, w) && r > 0 && eps > 0.0 && 0 <= y < h && 0 <= x < w
    ensures Spread(p, h, w, y, x, r) >= 0.0
    ensures var m, c := Blurred(p, h, w, r)[y][x], Blurred(Squared(p, h, w), h, w, r)[y][x];
            && m == Mean(p, y, x, r) && Divides(m, c, eps)
            && Gain(m, c, eps) == Share(Spread(p, h, w, y, x, r), eps)
  {
    hide Mean, Squared;
    VarianceNonNegative(p, h, w, r, y, x);
  }

  lemma Clamped(v: int, c: int, r: int, n: int)
    requires 0 <= c < n && c - r <= v <= c + r
    ensures 0 <= Cl(v, n - 1) < n && c - r <= Cl(v, n - 1) <= c + r
  {}

  /** The gain at a pixel of the clamped window. */
  lemma GainInWindow(p: Plane, h: nat, w: nat, y: int, x: int, r: int, eps: real, v: int, u: int) returns (i: int, j: int)
    requires IsPlane(p, h, w) && r > 0 && eps > 0.0 && 0 <= y < h && 0 <= x < w && Runs(p, h, w, r, eps)
    requires y - r <= v <= y + r && x - r <= u <= x + r
    ensures 0 <= i < h && 0 <= j < w && y - r <= i <= y + r && x - r <= j <= x + r && Spread(p, h, w, i, j, r) >= 0.0
    ensures Px(GainsOf(p, h, w, r, eps), v, u) == Share(Spread(p, h, w, i, j, r), eps)
  {
    hide Spread, Gain, Blurred, Squared, Cl, Share;
    i, j := Cl(v, h - 1), Cl(u, w - 1);
    Clamped(v, y, r, h);
    Clamped(u, x, r, w);
    GainFromSpread(p, h, w, i, j, r, eps);
  }

  lemma ShareInUnit(v: real, eps: real)
    requires v >= 0.0 && eps > 0.0
    ensures 0.0 <= Share(v, eps) < 1.0
  {
    Fraction(v, eps);
  }

  lemma GainsAtLeast(p: Plane, h: nat, w: nat, y: int, x: int, r: int, eps: real, a: real)
    requires IsPlane(p, h, w) && r > 0 && eps > 0.0 && 0 <= y < h && 0 <= x < w && 0.0 <= a
    requires Runs(p, h, w, r, eps) && SpreadAtLeast(p, h, w, y, x, r, a)
    ensures Share(a, eps) <= Mean(GainsOf(p, h, w, r, eps), y, x, r)
  {
    hide Spread, GainsOf, Mean, Px, Share;
    var gains := GainsOf(p, h, w, r, eps);
    forall v, u | y - r <= v <= y + r && x - r <= u <= x + r ensures Share(a, eps) <= Px(gains, v, u) <= 1.0 {
      var i, j := GainInWindow(p, h, w, y, x, r, eps, v, u);
      ShareGrows(a, Spread(p, h, w, i, j, r), eps);
      ShareInUnit(Spread(p, h, w, i, j, r), eps);
    }
    MeanBounds(gains, y, x, r, Share(a, eps), 1.0);
  }

  lemma GainsAtMost(p: Plane, h: nat, w: nat, y: int, x: int, r: int, eps: real, b: real)
    requires IsPlane(p, h, w) && r > 0 && eps > 0.0 && 0 <= y < h && 0 <= x < w && 0.0 <= b
    requires Runs(p, h, w, r, eps) && SpreadAtMost(p, h, w, y, x, r, b)
    ensures Mean(GainsOf(p, h, w, r, eps), y, x, r) <= Share(b, eps)
  {
    hide Spread, GainsOf, Mean, Px, Share;
    var gains := GainsOf(p, h, w, r, eps);
    forall v, u | y - r <= v <= y + r && x - r <= u <= x + r ensures 0.0 <= Px(gains, v, u) <= Share(b, eps) {
      var i, j := GainInWindow(p, h, w, y, x, r, eps, v, u);
      ShareGrows(Spread(p, h, w, i, j, r), b, eps);
      ShareInUnit(Spread(p, h, w, i, j, r), eps);
    }
    MeanBounds(gains, y, x, r, 0.0, Share(b, eps));
  }

  // ----- where the plane varies much -----

  function Distance(a: real, b: real): real {
    if a < b then b - a else a - b
  }

  lemma ProductMono(a: real, b: real, x: real)
    requires a <= b && x >= 0.0
    ensures a * x <= b * x
  {}

  /** A pixel moves by at most its share of what the mean gain leaves. */
  lemma BlendMoves(a: real, x: real, b: real, lo: real, hi: real)
    requires a <= 1.0 && lo <= x <= hi && b >= Blend(-lo, a, lo) && -b >= Blend(hi, a, -hi)
    ensures Distance(Blend(a, x, b), x) <= (1.0 - a) * (hi - lo)
  {
    ProductMono(x - lo, hi - lo, 1.0 - a);
    ProductMono(hi - x, hi - lo, 1.0 - a);
    assert (1.0 - a) * (x - lo) == x - a * x - lo + a * lo;
    assert (1.0 - a) * (hi - x) == hi - a * hi - x + a * x;
  }

  /** Main result: an edge survives. Where the spread around each pixel of the window is at
      least v, the pixel moves by at most eps / (v + eps) of the range. */
  lemma EdgeKept(p: Plane, h: nat, w: nat, r: int, eps: real, lo: real, hi: real, y: int, x: int, v: real)
    requires IsPlane(p, h, w) && eps > 0.0 && r > 0 && Between(p, lo, hi) && 0 <= y < h && 0 <= x < w
    requires v >= 0.0 && SpreadAtLeast(p, h, w, y, x, r, v)
    ensures Runs(p, h, w, r, eps)
    ensures Distance(Guided(p, h, w, r, eps)[y][x], p[y][x]) <= eps / (v + eps) * (hi - lo)
  {
    hide Mean, Guided, GainsOf, OffsetsOf, Spread, Blend, Share, Distance;
    PixelParts(p, h, w, r, eps, lo, hi, y, x);
    var a, b := Mean(GainsOf(p, h, w, r, eps), y, x, r), Mean(OffsetsOf(p, h, w, r, eps), y, x, r);
    GainsAtLeast(p, h, w, y, x, r, eps, v);
    BlendMoves(a, p[y][x], b, lo, hi);
    ShareGrows(v, v, eps);
    ProductMono(1.0 - a, eps / (v + eps), hi - lo);
  }

  // ----- where the plane varies little -----

  function Added(o: Plane, g: Plane, k: real, h: nat, w: nat): Plane
    requires IsPlane(o, h, w) && IsPlane(g, h, w)
  {
    seq(h, y requires 0 <= y < h => seq(w, x requires 0 <= x < w => Blend(k, g[y][x], o[y][x])))
  }

  lemma AddedMean(o: Plane, g: Plane, k: real, h: nat, w: nat, y: int, x: int, r: int)
    requires IsPlane(o, h, w) && IsPlane(g, h, w) && h > 0 && w > 0 && r > 0
    ensures Mean(Added(o, g, k, h, w), y, x, r) == Blend(k, Mean(g, y, x, r), Mean(o, y, x, r))
  {
    hide Mean, Blend;
    MeanLinear(o, g, k, Added(o, g, k, h, w), y, x, r);
  }

  /** Offset and gain at a pixel, against the mean there. */
  lemma OffsetAround(m: real, c: real, eps: real, lo: real, hi: real)
    requires eps > 0.0 && lo <= m <= hi
    ensures Divides(m, c, eps)
    ensures Offset(m, c, eps) + lo * Gain(m, c, eps) <= m <= Offset(m, c, eps) + hi * Gain(m, c, eps)
  {
    hide Gain;
    GainInUnit(m, c, eps);
    ProductMono(lo, m, Gain(m, c, eps));
    ProductMono(m, hi, Gain(m, c, eps));
  }

  /** The mean offset lies within the mean gain's share of the range around the mean of means. */
  lemma OffsetMeans(p: Plane, h: nat, w: nat, r: int, eps: real, lo: real, hi: real, y: int, x: int)
    requires IsPlane(p, h, w) && eps > 0.0 && r > 0 && Between(p, lo, hi) && 0 <= y < h && 0 <= x < w
    ensures Runs(p, h, w, r, eps)
    ensures var a, b := Mean(GainsOf(p, h, w, r, eps), y, x, r), Mean(OffsetsOf(p, h, w, r, eps), y, x, r);
            b + lo * a <= Mean(Blurred(p, h, w, r), y, x, r) <= b + hi * a
  {
    hide Mean, Gain, Offset, Divides;
    PositiveEpsRuns(p, h, w, r, eps);
    var mean, corr := Blurred(p, h, w, r), Blurred(Squared(p, h, w), h, w, r);
    var gains, offsets := GainsOf(p, h, w, r, eps), OffsetsOf(p, h, w, r, eps);
    BlurredBetween(p, h, w, r, lo, hi);
    var below, above := Added(offsets, gains, lo, h, w), Added(offsets, gains, hi, h, w);
    forall v, u | 0 <= v < h && 0 <= u < w
      ensures mean[v][u] >= Blend(1.0, below[v][u], 0.0) && above[v][u] >= Blend(1.0, mean[v][u], 0.0)
    {
      OffsetAround(mean[v][u], corr[v][u], eps, lo, hi);
    }
    MeanAffine(mean, below, h, w, 0.0, 1.0, y, x, r);
    MeanAffine(above, mean, h, w, 0.0, 1.0, y, x, r);
    AddedMean(offsets, gains, lo, h, w, y, x, r);
    AddedMean(offsets, gains, hi, h, w, y, x, r);
  }

  lemma Products(a: real, x: real, b: real, lo: real, hi: real)
    requires 0.0 <= a && lo <= x <= hi
    ensures lo * a <= Blend(a, x, b) - b <= hi * a
    ensures a * (hi - lo) == hi * a - lo * a
  {
    ProductNonNegative(a, x - lo);
    ProductNonNegative(a, hi - x);
    assert a * (x - lo) == Blend(a, x, b) - b - lo * a;
    assert a * (hi - x) == hi * a - (Blend(a, x, b) - b);
  }

  lemma BlendNear(a: real, x: real, b: real, m: real, lo: real, hi: real)
    requires 0.0 <= a && lo <= x <= hi && b + lo * a <= m <= b + hi * a
    ensures Distance(Blend(a, x, b), m) <= a * (hi - lo)
  {
    hide Blend;
    Products(a, x, b, lo, hi);
  }

  /** Main result: flat areas are smoothed. Where the spread around each pixel of the window
      is at most v, the pixel ends within v / (v + eps) of the range of the mean of means. */
  lemma FlatSmoothed(p: Plane, h: nat, w: nat, r: int, eps: real, lo: real, hi: real, y: int, x: int, v: real)
    requires IsPlane(p, h, w) && eps > 0.0 && r > 0 && Between(p, lo, hi) && 0 <= y < h && 0 <= x < w
    requires v >= 0.0 && SpreadAtMost(p, h, w, y, x, r, v)
    ensures Runs(p, h, w, r, eps)
    ensures Distance(Guided(p, h, w, r, eps)[y][x], Mean(Blurred(p, h, w, r), y, x, r)) <= v / (v + eps) * (hi - lo)
  {
    hide Mean, Guided, GainsOf, OffsetsOf, Spread, Blend, Distance;
    PixelParts(p, h, w, r, eps, lo, hi, y, x);
    OffsetMeans(p, h, w, r, eps, lo, hi, y, x);
    var a, b := Mean(GainsOf(p, h, w, r, eps), y, x, r), Mean(OffsetsOf(p, h, w, r, eps), y, x, r);
    GainsAtMost(p, h, w, y, x, r, eps, v);
    BlendNear(a, p[y][x], b, Mean(Blurred(p, h, w, r), y, x, r), lo, hi);
    ProductMono(a, v / (v + eps), hi - lo);
  }
}
