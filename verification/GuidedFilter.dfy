/**
 The self-guided edge-preserving filter of internal/raster/miniisp.go, over reals: its
 local variance is never negative, its gain lies in [0, 1), and its output stays within
 the range of the input plane.
 */
module GuidedFilter {
  import opened BoxBlur

  // ----- the filter on values -----

  function Square(x: real): real {
    x * x
  }

  function Squared(p: Plane, h: nat, w: nat): Plane
    requires IsPlane(p, h, w)
  {
    seq(h, y requires 0 <= y < h => seq(w, x requires 0 <= x < w => Square(p[y][x])))
  }

  /** The local variance, a negative one cut to zero. */
  function Variance(m: real, c: real): (v: real)
    ensures v >= 0.0
  {
    if c - Square(m) < 0.0 then 0.0 else c - Square(m)
  }

  /** The divisor of a pixel's gain is not zero. */
  predicate Divides(m: real, c: real, eps: real) {
    Variance(m, c) + eps != 0.0
  }

  /** No pixel divides by zero. */
  predicate Defined(mean: Plane, corr: Plane, h: nat, w: nat, eps: real)
    requires IsPlane(mean, h, w) && IsPlane(corr, h, w)
  {
    forall y, x :: 0 <= y < h && 0 <= x < w ==> Divides(mean[y][x], corr[y][x], eps)
  }

  /** a = var / (var + eps). */
  function Gain(m: real, c: real, eps: real): real
    requires Divides(m, c, eps)
  {
    Variance(m, c) / (Variance(m, c) + eps)
  }

  function Gains(mean: Plane, corr: Plane, h: nat, w: nat, eps: real): Plane
    requires IsPlane(mean, h, w) && IsPlane(corr, h, w) && Defined(mean, corr, h, w, eps)
  {
    seq(h, y requires 0 <= y < h => seq(w, x requires 0 <= x < w => Gain(mean[y][x], corr[y][x], eps)))
  }

  function Offset(m: real, c: real, eps: real): real
    requires Divides(m, c, eps)
  {
    m - Gain(m, c, eps) * m
  }

  function Offsets(mean: Plane, corr: Plane, h: nat, w: nat, eps: real): Plane
    requires IsPlane(mean, h, w) && IsPlane(corr, h, w) && Defined(mean, corr, h, w, eps)
  {
    seq(h, y requires 0 <= y < h => seq(w, x requires 0 <= x < w => Offset(mean[y][x], corr[y][x], eps)))
  }

  function Combined(a: Plane, p: Plane, b: Plane, h: nat, w: nat): Plane
    requires IsPlane(a, h, w) && IsPlane(p, h, w) && IsPlane(b, h, w)
  {
    seq(h, y requires 0 <= y < h => seq(w, x requires 0 <= x < w => Blend(a[y][x], p[y][x], b[y][x])))
  }

  /** The filter runs on p without a division by zero. */
  predicate Runs(p: Plane, h: nat, w: nat, r: int, eps: real)
    requires IsPlane(p, h, w)
  {
    r > 0 ==> Defined(Blurred(p, h, w, r), Blurred(Squared(p, h, w), h, w, r), h, w, eps)
  }

  /** With a positive eps it always does. */
  lemma PositiveEpsRuns(p: Plane, h: nat, w: nat, r: int, eps: real)
    requires IsPlane(p, h, w) && eps > 0.0
    ensures Runs(p, h, w, r, eps)
  {
    hide Blurred, Variance, Squared;
  }

  /** The two planes of the filter's second half. */
  function GainsOf(p: Plane, h: nat, w: nat, r: int, eps: real): Plane
    requires IsPlane(p, h, w) && r > 0 && Runs(p, h, w, r, eps)
  {
    Gains(Blurred(p, h, w, r), Blurred(Squared(p, h, w), h, w, r), h, w, eps)
  }

  function OffsetsOf(p: Plane, h: nat, w: nat, r: int, eps: real): Plane
    requires IsPlane(p, h, w) && r > 0 && Runs(p, h, w, r, eps)
  {
    Offsets(Blurred(p, h, w, r), Blurred(Squared(p, h, w), h, w, r), h, w, eps)
  }

  function Guided(p: Plane, h: nat, w: nat, r: int, eps: real): Plane
    requires IsPlane(p, h, w) && Runs(p, h, w, r, eps)
  {
    if r <= 0 then p
    else Combined(Blurred(GainsOf(p, h, w, r, eps), h, w, r), p, Blurred(OffsetsOf(p, h, w, r, eps), h, w, r), h, w)
  }

  // ----- the filter as it runs -----

  ghost predicate SameShape(a: array2<real>, b: array2<real>) {
    a.Length0 == b.Length0 && a.Length1 == b.Length1
  }

  /** The two planes of the first step: a copy, and the squares. */
  method Prepare(plane: array2<real>, mean: array2<real>, corr: array2<real>)
    requires mean != plane && corr != plane && mean != corr && SameShape(mean, plane) && SameShape(corr, plane)
    modifies mean, corr
    ensures Rows(mean) == Rows(plane)
    ensures Rows(corr) == Squared(Rows(plane), plane.Length0, plane.Length1)
  {
    ghost var p := Rows(plane);
    var h, w := plane.Length0, plane.Length1;
    for y := 0 to h
      invariant forall v, x :: 0 <= v < y && 0 <= x < w ==> mean[v, x] == p[v][x] && corr[v, x] == Square(p[v][x])
    {
      for x := 0 to w
        invariant forall v, u :: 0 <= v < h && 0 <= u < w && (v < y || (v == y && u < x)) ==>
                    mean[v, u] == p[v][u] && corr[v, u] == Square(p[v][u])
      {
        mean[y, x] := plane[y, x];
        corr[y, x] := Square(plane[y, x]);
      }
    }
    assert forall y :: 0 <= y < h ==> Rows(mean)[y] == p[y];
    assert forall y :: 0 <= y < h ==> Rows(corr)[y] == Squared(p, h, w)[y];
  }

  method Coefficient(m: real, c: real, eps: real) returns (a: real, b: real)
    requires Divides(m, c, eps)
    ensures a == Gain(m, c, eps) && b == Offset(m, c, eps)
  {
    var v := c - Square(m);
    if v < 0.0 {
      v := 0.0;
    }
    a := v / (v + eps);
    b := m - a * m;
  }

  /** Mean and correlation are replaced by gain and offset, pixel by pixel. */
  method Coefficients(mean: array2<real>, corr: array2<real>, eps: real)
    requires mean != corr && SameShape(mean, corr) && Defined(Rows(mean), Rows(corr), mean.Length0, mean.Length1, eps)
    modifies mean, corr
    ensures Rows(mean) == Gains(old(Rows(mean)), old(Rows(corr)), mean.Length0, mean.Length1, eps)
    ensures Rows(corr) == Offsets(old(Rows(mean)), old(Rows(corr)), mean.Length0, mean.Length1, eps)
  {
    hide Gain, Offset, Divides;
    ghost var ms, cs := Rows(mean), Rows(corr);
    var h, w := mean.Length0, mean.Length1;
    for y := 0 to h
      invariant forall v, u :: 0 <= v < h && 0 <= u < w ==>
                  && mean[v, u] == (if v < y then Gain(ms[v][u], cs[v][u], eps) else ms[v][u])
                  && corr[v, u] == (if v < y then Offset(ms[v][u], cs[v][u], eps) else cs[v][u])
    {
      for x := 0 to w
        invariant forall v, u :: 0 <= v < h && 0 <= u < w ==>
                    && mean[v, u] == (if v < y || (v == y && u < x) then Gain(ms[v][u], cs[v][u], eps) else ms[v][u])
                    && corr[v, u] == (if v < y || (v == y && u < x) then Offset(ms[v][u], cs[v][u], eps) else cs[v][u])
      {
        var a, b := Coefficient(mean[y, x], corr[y, x], eps);
        mean[y, x] := a;
        corr[y, x] := b;
      }
    }
    SamePlane(mean, Gains(ms, cs, h, w, eps));
    SamePlane(corr, Offsets(ms, cs, h, w, eps));
  }

  method Combine(plane: array2<real>, mean: array2<real>, corr: array2<real>)
    requires mean != plane && corr != plane && SameShape(mean, plane) && SameShape(corr, plane)
    modifies plane
    ensures Rows(plane) == Combined(Rows(mean), old(Rows(plane)), Rows(corr), plane.Length0, plane.Length1)
  {
    ghost var a, p, b := Rows(mean), Rows(plane), Rows(corr);
    var h, w := plane.Length0, plane.Length1;
    for y := 0 to h
      invariant forall v, u :: 0 <= v < h && 0 <= u < w ==>
                  plane[v, u] == if v < y then Blend(a[v][u], p[v][u], b[v][u]) else p[v][u]
    {
      for x := 0 to w
        invariant forall v, u :: 0 <= v < h && 0 <= u < w ==>
                    plane[v, u] == if v < y || (v == y && u < x) then Blend(a[v][u], p[v][u], b[v][u]) else p[v][u]
      {
        plane[y, x] := Blend(mean[y, x], plane[y, x], corr[y, x]);
      }
    }
    assert forall y :: 0 <= y < h ==> Rows(plane)[y] == Combined(a, p, b, h, w)[y];
  }

  /** guidedSelf, in place, with its three scratch planes. */
  method GuidedSelf(plane: array2<real>, radius: int, eps: real, mean: array2<real>, corr: array2<real>, tmp: array2<real>, procs: int)
    requires SameShape(mean, plane) && SameShape(corr, plane) && SameShape(tmp, plane)
    requires plane != mean && plane != corr && plane != tmp && mean != corr && mean != tmp && corr != tmp
    requires Runs(Rows(plane), plane.Length0, plane.Length1, radius, eps)
    modifies plane, mean, corr, tmp
    ensures Rows(plane) == Guided(old(Rows(plane)), plane.Length0, plane.Length1, radius, eps)
  {
    hide Blurred, Squared, Gains, Offsets, Combined, Defined;
    if radius <= 0 {
      return;
    }
    ghost var p := Rows(plane);
    Prepare(plane, mean, corr);
    Blur(mean, tmp, radius, procs);
    Blur(corr, tmp, radius, procs);
    Coefficients(mean, corr, eps);
    Blur(mean, tmp, radius, procs);
    Blur(corr, tmp, radius, procs);
    assert Rows(plane) == p;
    Combine(plane, mean, corr);
  }

  // ----- means of affinely bounded planes -----

  function Times(a: real, n: real): real {
    a * n
  }

  lemma DivideAffine(s: real, t: real, a: real, b: real, n: real)
    requires n > 0.0 && s >= Blend(b, t, Times(a, n))
    ensures s / n >= Blend(b, t / n, a)
  {
    assert (b * t + a * n) / n == b * (t / n) + a;
    assert s / n - (b * t + a * n) / n == (s - (b * t + a * n)) / n;
  }

  /** SumAffine over a window of width n. */
  lemma WindowAffine(f: int -> real, g: int -> real, a: real, b: real, lo: int, hi: int, n: real)
    requires lo <= hi && n == (hi - lo) as real && forall k :: lo <= k < hi ==> f(k) >= Blend(b, g(k), a)
    ensures Sum(f, lo, hi) >= Blend(b, Sum(g, lo, hi), Times(a, n))
  {
    hide Sum;
    SumAffine(f, g, a, b, lo, hi);
  }

  lemma SideIsWidth(y: int, r: int)
    ensures ((y + r + 1) - (y - r)) as real == Side(r)
  {
    assert (y + r + 1) - (y - r) == 2 * r + 1;
  }

  lemma RowClamped(p: Plane, h: nat, w: nat, v: int, u: int)
    requires IsPlane(p, h, w) && h > 0 && w > 0
    ensures RowFn(p, v)(u) == p[Cl(v, h - 1)][Cl(u, w - 1)]
  {}

  lemma RowAffine(f: Plane, g: Plane, h: nat, w: nat, a: real, b: real, v: int, x: int, r: int)
    requires IsPlane(f, h, w) && IsPlane(g, h, w) && h > 0 && w > 0 && r > 0
    requires forall v, u :: 0 <= v < h && 0 <= u < w ==> f[v][u] >= Blend(b, g[v][u], a)
    ensures RowSum(f, v, x, r) >= Blend(b, RowSum(g, v, x, r), Times(a, Side(r)))
  {
    hide Sum, Side, RowFn, Blend, Times;
    SideIsWidth(x, r);
    forall u | x - r <= u < x + r + 1 ensures RowFn(f, v)(u) >= Blend(b, RowFn(g, v)(u), a) {
      RowClamped(f, h, w, v, u);
      RowClamped(g, h, w, v, u);
    }
    WindowAffine(RowFn(f, v), RowFn(g, v), a, b, x - r, x + r + 1, Side(r));
  }

  /** A pixelwise lower bound b * g + a on a plane is one on its window means. */
  lemma MeanAffine(f: Plane, g: Plane, h: nat, w: nat, a: real, b: real, y: int, x: int, r: int)
    requires IsPlane(f, h, w) && IsPlane(g, h, w) && h > 0 && w > 0 && r > 0
    requires forall v, u :: 0 <= v < h && 0 <= u < w ==> f[v][u] >= Blend(b, g[v][u], a)
    ensures Mean(f, y, x, r) >= Blend(b, Mean(g, y, x, r), a)
  {
    hide Sum, Side, Blend, Times;
    SidePositive(r);
    forall v | y - r <= v < y + r + 1
      ensures RowSums(f, x, r)(v) >= Blend(b, RowSums(g, x, r)(v), Times(a, Side(r)))
    {
      RowAffine(f, g, h, w, a, b, v, x, r);
    }
    SideIsWidth(y, r);
    WindowAffine(RowSums(f, x, r), RowSums(g, x, r), Times(a, Side(r)), b, y - r, y + r + 1, Side(r));
    var s, t := Sum(RowSums(f, x, r), y - r, y + r + 1), Sum(RowSums(g, x, r), y - r, y + r + 1);
    DivideAffine(s, t, Times(a, Side(r)), b, Side(r));
    DivideAffine(s / Side(r), t / Side(r), a, b, Side(r));
  }

  // ----- the variance -----

  lemma SquareNonNegative(x: real)
    ensures Square(x) >= 0.0
  {}

  lemma SquareBound(x: real, m: real)
    ensures Square(x) >= Blend(2.0 * m, x, -Square(m))
  {
    SquareNonNegative(x - m);
    assert Square(x - m) == Square(x) - (2.0 * m) * x + Square(m);
  }

  /** The local variance, as the filter computes it from two window means, is never
      negative: the mean of the squares is at least the square of the mean. */
  lemma VarianceNonNegative(p: Plane, h: nat, w: nat, r: int, y: int, x: int)
    requires IsPlane(p, h, w) && r > 0 && 0 <= y < h && 0 <= x < w
    ensures var m := Blurred(p, h, w, r)[y][x]; Blurred(Squared(p, h, w), h, w, r)[y][x] - Square(m) >= 0.0
  {
    hide Mean;
    var m := Mean(p, y, x, r);
    var sq := Squared(p, h, w);
    forall v, u | 0 <= v < h && 0 <= u < w ensures sq[v][u] >= Blend(2.0 * m, p[v][u], -Square(m)) {
      SquareBound(p[v][u], m);
    }
    MeanAffine(sq, p, h, w, -Square(m), 2.0 * m, y, x, r);
    assert (2.0 * m) * m == Square(m) + Square(m);
  }

  lemma ProductNonNegative(x: real, y: real)
    requires x >= 0.0 && y >= 0.0
    ensures x * y >= 0.0
  {}

  lemma ProductPositive(x: real, y: real)
    requires x > 0.0 && y > 0.0
    ensures x * y > 0.0
  {}

  lemma Fraction(v: real, eps: real)
    requires v >= 0.0 && eps > 0.0
    ensures 0.0 <= v / (v + eps) < 1.0
  {
    var d := v + eps;
    var q := v / d;
    assert q * d == v;
    if q < 0.0 {
      ProductPositive(-q, d);
    } else if q >= 1.0 {
      ProductNonNegative(q - 1.0, d);
    }
  }

  lemma GainInUnit(m: real, c: real, eps: real)
    requires eps > 0.0
    ensures Divides(m, c, eps) && 0.0 <= Gain(m, c, eps) < 1.0
  {
    Fraction(Variance(m, c), eps);
  }

  // ----- the output range -----

  lemma BlendIs(a: real, x: real, b: real)
    ensures Blend(a, x, b) == x * a + b
    ensures Blend(-a, x, b) == b - x * a
  {}

  lemma OffsetBounds(m: real, c: real, eps: real, lo: real, hi: real)
    requires eps > 0.0 && lo <= m <= hi
    ensures Divides(m, c, eps)
    ensures Offset(m, c, eps) >= Blend(-lo, Gain(m, c, eps), lo)
    ensures -Offset(m, c, eps) >= Blend(hi, Gain(m, c, eps), -hi)
  {
    GainInUnit(m, c, eps);
    var a := Gain(m, c, eps);
    ProductNonNegative(1.0 - a, m - lo);
    ProductNonNegative(1.0 - a, hi - m);
    assert (1.0 - a) * (m - lo) == m - lo - a * m + a * lo;
    assert (1.0 - a) * (hi - m) == hi - m - a * hi + a * m;
    BlendIs(-lo, a, lo);
    BlendIs(hi, a, -hi);
  }

  /** One pixel of the output, from the window means of gains and offsets. */
  lemma BlendBounds(a: real, x: real, b: real, lo: real, hi: real)
    requires a >= 0.0 && lo <= x <= hi && b >= Blend(-lo, a, lo) && -b >= Blend(hi, a, -hi)
    ensures lo <= Blend(a, x, b) <= hi
  {
    hide Blend;
    ProductNonNegative(a, x - lo);
    ProductNonNegative(a, hi - x);
    BlendIs(lo, a, lo);
    BlendIs(hi, a, -hi);
    BlendIs(a, x, b);
    assert a * (x - lo) == x * a - a * lo && a * (hi - x) == a * hi - x * a;
  }

  function Negated(p: Plane, h: nat, w: nat): Plane
    requires IsPlane(p, h, w)
  {
    seq(h, y requires 0 <= y < h => seq(w, x requires 0 <= x < w => -p[y][x]))
  }

  lemma {:induction false} SumNegated(f: int -> real, g: int -> real, lo: int, hi: int)
    requires forall k :: lo <= k < hi ==> g(k) == -f(k)
    ensures Sum(g, lo, hi) == -Sum(f, lo, hi)
    decreases hi - lo
  {
    if lo < hi {
      SumNegated(f, g, lo, hi - 1);
    }
  }

  lemma RowNegated(p: Plane, h: nat, w: nat, v: int, x: int, r: int)
    requires IsPlane(p, h, w) && h > 0 && w > 0
    ensures RowSum(Negated(p, h, w), v, x, r) == -RowSum(p, v, x, r)
  {
    hide Sum;
    var q := Negated(p, h, w);
    forall u | x - r <= u < x + r + 1 ensures RowFn(q, v)(u) == -RowFn(p, v)(u) {
      RowClamped(q, h, w, v, u);
    }
    SumNegated(RowFn(p, v), RowFn(q, v), x - r, x + r + 1);
  }

  lemma DivideNegated(s: real, n: real)
    requires n > 0.0
    ensures (-s) / n == -(s / n)
  {}

  lemma MeanNegated(p: Plane, h: nat, w: nat, y: int, x: int, r: int)
    requires IsPlane(p, h, w) && h > 0 && w > 0 && r > 0
    ensures Mean(Negated(p, h, w), y, x, r) == -Mean(p, y, x, r)
  {
    hide Sum, Side;
    var q := Negated(p, h, w);
    SidePositive(r);
    forall v | y - r <= v < y + r + 1 ensures RowSums(q, x, r)(v) == -RowSums(p, x, r)(v) {
      RowNegated(p, h, w, v, x, r);
    }
    SumNegated(RowSums(p, x, r), RowSums(q, x, r), y - r, y + r + 1);
    var s := Sum(RowSums(p, x, r), y - r, y + r + 1);
    DivideNegated(s, Side(r));
    DivideNegated(s / Side(r), Side(r));
  }

  /** An output pixel in terms of the mean gain and the mean offset around it. */
  lemma PixelParts(p: Plane, h: nat, w: nat, r: int, eps: real, lo: real, hi: real, y: int, x: int)
    requires IsPlane(p, h, w) && eps > 0.0 && r > 0 && Between(p, lo, hi) && 0 <= y < h && 0 <= x < w
    ensures Runs(p, h, w, r, eps)
    ensures var a, b := Mean(GainsOf(p, h, w, r, eps), y, x, r), Mean(OffsetsOf(p, h, w, r, eps), y, x, r);
            && Guided(p, h, w, r, eps)[y][x] == Blend(a, p[y][x], b)
            && 0.0 <= a <= 1.0 && b >= Blend(-lo, a, lo) && -b >= Blend(hi, a, -hi)
  {
    hide Mean, Gain, Offset, Blend, Divides;
    PositiveEpsRuns(p, h, w, r, eps);
    var mean := Blurred(p, h, w, r);
    var corr := Blurred(Squared(p, h, w), h, w, r);
    var gains := GainsOf(p, h, w, r, eps);
    var offsets := OffsetsOf(p, h, w, r, eps);
    var negated := Negated(offsets, h, w);
    BlurredBetween(p, h, w, r, lo, hi);
    forall v, u | 0 <= v < h && 0 <= u < w
      ensures 0.0 <= gains[v][u] <= 1.0
      ensures offsets[v][u] >= Blend(-lo, gains[v][u], lo) && negated[v][u] >= Blend(hi, gains[v][u], -hi)
    {
      GainInUnit(mean[v][u], corr[v][u], eps);
      OffsetBounds(mean[v][u], corr[v][u], eps, lo, hi);
    }
    PlaneWindow(gains, h, w, y, x, r, 0.0, 1.0);
    MeanBounds(gains, y, x, r, 0.0, 1.0);
    MeanAffine(offsets, gains, h, w, lo, -lo, y, x, r);
    MeanAffine(negated, gains, h, w, -hi, hi, y, x, r);
    MeanNegated(offsets, h, w, y, x, r);
  }

  lemma PixelBounds(p: Plane, h: nat, w: nat, r: int, eps: real, lo: real, hi: real, y: int, x: int)
    requires IsPlane(p, h, w) && eps > 0.0 && r > 0 && Between(p, lo, hi) && 0 <= y < h && 0 <= x < w
    ensures Runs(p, h, w, r, eps) && lo <= Guided(p, h, w, r, eps)[y][x] <= hi
  {
    hide Mean, Blend, Guided, GainsOf, OffsetsOf;
    PixelParts(p, h, w, r, eps, lo, hi, y, x);
    BlendBounds(Mean(GainsOf(p, h, w, r, eps), y, x, r), p[y][x], Mean(OffsetsOf(p, h, w, r, eps), y, x, r), lo, hi);
  }

  /** The filter never leaves the range of its input, so it leaves a constant plane alone. */
  lemma GuidedBetween(p: Plane, h: nat, w: nat, r: int, eps: real, lo: real, hi: real)
    requires IsPlane(p, h, w) && eps > 0.0 && Between(p, lo, hi)
    ensures Runs(p, h, w, r, eps) && Between(Guided(p, h, w, r, eps), lo, hi)
    ensures lo == hi ==> Guided(p, h, w, r, eps) == p
  {
    hide Gains, Offsets, Squared, Blurred, Defined;
    PositiveEpsRuns(p, h, w, r, eps);
    var q := Guided(p, h, w, r, eps);
    forall y, x | 0 <= y < |q| && 0 <= x < |q[y]| ensures lo <= q[y][x] <= hi {
      if r > 0 {
        PixelBounds(p, h, w, r, eps, lo, hi, y, x);
      }
    }
    if lo == hi {
      assert forall y :: 0 <= y < h ==> q[y] == p[y];
    }
  }
}
