/**
 The separable box blur of internal/raster/miniisp.go: running sums along the rows,
 then down the columns in bands of 64, fanned out over chunks. Reals stand for float32.
 Planes are two-dimensional arrays, indexed row first.
 */
module BoxBlur {

  type Plane = seq<seq<real>>

  function Cl(v: int, hi: int): int {
    if v < 0 then 0 else if v > hi then hi else v
  }

  /** The pixel of an edge-clamped plane. */
  function Px(p: Plane, y: int, x: int): real {
    if |p| == 0 then 0.0
    else
      var row := p[Cl(y, |p| - 1)];
      if |row| == 0 then 0.0 else row[Cl(x, |row| - 1)]
  }

  predicate IsPlane(p: Plane, h: nat, w: nat) {
    |p| == h && forall y :: 0 <= y < h ==> |p[y]| == w
  }

  ghost function Rows(a: array2<real>): (p: Plane)
    reads a
    ensures IsPlane(p, a.Length0, a.Length1)
    ensures forall y, x :: 0 <= y < a.Length0 && 0 <= x < a.Length1 ==> p[y][x] == a[y, x]
  {
    seq(a.Length0, y requires 0 <= y < a.Length0 reads a => seq(a.Length1, x requires 0 <= x < a.Length1 reads a => a[y, x]))
  }

  lemma SamePlane(a: array2<real>, p: Plane)
    requires IsPlane(p, a.Length0, a.Length1)
    requires forall y, x :: 0 <= y < a.Length0 && 0 <= x < a.Length1 ==> a[y, x] == p[y][x]
    ensures Rows(a) == p
  {
    assert forall y :: 0 <= y < a.Length0 ==> Rows(a)[y] == p[y];
  }

  // ----- sums -----

  function Sum(f: int -> real, lo: int, hi: int): real
    decreases hi - lo
  {
    if lo >= hi then 0.0 else Sum(f, lo, hi - 1) + f(hi - 1)
  }

  lemma {:induction false} SumFront(f: int -> real, lo: int, hi: int)
    requires lo < hi
    ensures Sum(f, lo, hi) == f(lo) + Sum(f, lo + 1, hi)
    decreases hi - lo
  {
    if lo < hi - 1 {
      SumFront(f, lo, hi - 1);
    }
  }

  /** Moving a window by one adds what comes in and takes away what goes out. */
  lemma SumSlide(f: int -> real, lo: int, hi: int)
    requires lo < hi
    ensures Sum(f, lo + 1, hi + 1) == Sum(f, lo, hi) + (f(hi) - f(lo))
  {
    SumFront(f, lo, hi);
  }

  lemma {:induction false} SumScaled(f: int -> real, g: int -> real, n: real, lo: int, hi: int)
    requires n != 0.0 && forall k :: lo <= k < hi ==> g(k) == f(k) / n
    ensures Sum(g, lo, hi) == Sum(f, lo, hi) / n
    decreases hi - lo
  {
    if lo < hi {
      SumScaled(f, g, n, lo, hi - 1);
      assert Sum(f, lo, hi - 1) / n + f(hi - 1) / n == (Sum(f, lo, hi - 1) + f(hi - 1)) / n;
    }
  }

  /** An affine lower bound on the terms is one on the sum. */
  lemma {:induction false} SumAffine(f: int -> real, g: int -> real, a: real, b: real, lo: int, hi: int)
    requires lo <= hi && forall k :: lo <= k < hi ==> f(k) >= a + b * g(k)
    ensures Sum(f, lo, hi) >= a * (hi - lo) as real + b * Sum(g, lo, hi)
    decreases hi - lo
  {
    if lo == hi {
      assert b * 0.0 == 0.0 && a * 0.0 == 0.0;
    } else {
      SumAffine(f, g, a, b, lo, hi - 1);
      assert a * (hi - lo) as real == a * (hi - 1 - lo) as real + a;
      assert b * (Sum(g, lo, hi - 1) + g(hi - 1)) == b * Sum(g, lo, hi - 1) + b * g(hi - 1);
    }
  }

  // ----- the window mean -----

  function RowFn(p: Plane, y: int): int -> real {
    x => Px(p, y, x)
  }

  function ColFn(p: Plane, x: int): int -> real {
    y => Px(p, y, x)
  }

  lemma ColAt(p: Plane, h: nat, w: nat, v: int, x: int)
    requires IsPlane(p, h, w) && h > 0 && 0 <= x < w
    ensures ColFn(p, x)(v) == p[Cl(v, h - 1)][x]
  {}

  lemma RowAt(p: Plane, h: nat, w: nat, y: int, u: int)
    requires IsPlane(p, h, w) && 0 <= y < h && w > 0
    ensures RowFn(p, y)(u) == p[y][Cl(u, w - 1)]
  {}

  lemma SumNext(f: int -> real, lo: int, hi: int)
    requires lo <= hi
    ensures Sum(f, lo, hi + 1) == Sum(f, lo, hi) + f(hi)
  {}

  lemma SumEmpty(f: int -> real, lo: int)
    ensures Sum(f, lo, lo) == 0.0
  {}

  /** The sum of 2r+1 neighbours along row y. */
  function RowSum(p: Plane, y: int, x: int, r: int): real {
    Sum(RowFn(p, y), x - r, x + r + 1)
  }

  function RowSums(p: Plane, x: int, r: int): int -> real {
    y => RowSum(p, y, x, r)
  }

  function ColSum(p: Plane, y: int, x: int, r: int): real {
    Sum(ColFn(p, x), y - r, y + r + 1)
  }

  function Side(r: int): real {
    (2 * r + 1) as real
  }

  /** The mean of the edge-clamped (2r+1) x (2r+1) window around a pixel: the sum of its
      pixels, divided by each side. */
  function Mean(p: Plane, y: int, x: int, r: int): real
    requires r > 0
  {
    Sum(RowSums(p, x, r), y - r, y + r + 1) / Side(r) / Side(r)
  }

  /** The blurred plane: unchanged for a radius of zero or less. */
  function Blurred(p: Plane, h: nat, w: nat, r: int): Plane
    requires IsPlane(p, h, w)
  {
    if r <= 0 then p
    else seq(h, y requires 0 <= y < h => seq(w, x requires 0 <= x < w => Mean(p, y, x, r)))
  }

  // ----- chunks -----

  /** Half-open intervals one after the other, from 0 to n. */
  predicate Tiles(chunks: seq<(int, int)>, n: int) {
    && |chunks| > 0 && chunks[0].0 == 0 && chunks[|chunks| - 1].1 == n
    && (forall i :: 0 <= i < |chunks| ==> chunks[i].0 <= chunks[i].1)
    && (forall i :: 0 < i < |chunks| ==> chunks[i].0 == chunks[i - 1].1)
  }

  /** parallelFor's split of [0, n) over the workers it has. */
  method ParallelFor(n: int, procs: int) returns (chunks: seq<(int, int)>)
    requires n >= 0
    ensures Tiles(chunks, n)
  {
    var workers := procs;
    if workers > 16 {
      workers := 16;
    }
    if workers < 2 || n < 4 * workers {
      return [(0, n)];
    }
    var chunk := (n + workers - 1) / workers;
    assert chunk > 0;
    chunks := [];
    var lo := 0;
    while lo < n
      invariant 0 <= lo && (lo == 0 ==> chunks == [])
      invariant lo > 0 ==> Tiles(chunks, if lo < n then lo else n)
      decreases n - lo
    {
      var hi := if n < lo + chunk then n else lo + chunk;
      chunks := chunks + [(lo, hi)];
      lo := lo + chunk;
    }
  }

  lemma {:induction false} TilesMonotone(chunks: seq<(int, int)>, n: int, i: int, j: int)
    requires Tiles(chunks, n) && 0 <= i < j < |chunks|
    ensures chunks[i].1 <= chunks[j].0
    decreases j - i
  {
    if i < j - 1 {
      TilesMonotone(chunks, n, i, j - 1);
    }
  }

  /** Every index lies in exactly one chunk. */
  lemma {:induction false} TilesPartition(chunks: seq<(int, int)>, n: int, k: int)
    requires Tiles(chunks, n) && 0 <= k < n
    ensures exists i :: 0 <= i < |chunks| && chunks[i].0 <= k < chunks[i].1
    ensures forall i, j :: 0 <= i < j < |chunks| && chunks[i].0 <= k < chunks[i].1 ==> !(chunks[j].0 <= k < chunks[j].1)
  {
    var i := 0;
    while k >= chunks[i].1
      invariant 0 <= i < |chunks| && chunks[i].0 <= k
      decreases |chunks| - i
    {
      i := i + 1;
    }
    forall i, j | 0 <= i < j < |chunks| && chunks[i].0 <= k < chunks[i].1
      ensures !(chunks[j].0 <= k < chunks[j].1)
    {
      TilesMonotone(chunks, n, i, j);
    }
  }

  // ----- the blur as it runs -----

  method HorizontalRow(plane: array2<real>, tmp: array2<real>, radius: int, y: int)
    requires plane != tmp && plane.Length0 == tmp.Length0 && plane.Length1 == tmp.Length1 > 0
    requires radius > 0 && 0 <= y < plane.Length0
    modifies tmp
    ensures forall v, x :: 0 <= v < tmp.Length0 && 0 <= x < tmp.Length1 ==>
              tmp[v, x] == if v == y then RowSum(Rows(plane), y, x, radius) / Side(radius) else old(tmp[v, x])
  {
    hide Sum, RowFn;
    var h, w := plane.Length0, plane.Length1;
    var n := (2 * radius + 1) as real;
    ghost var p := Rows(plane);
    ghost var f := RowFn(p, y);
    var acc := 0.0;
    SumEmpty(f, -radius);
    for x := -radius to radius + 1
      invariant acc == Sum(f, -radius, x)
      invariant forall v, u :: 0 <= v < tmp.Length0 && 0 <= u < tmp.Length1 ==> tmp[v, u] == old(tmp[v, u])
    {
      RowAt(p, h, w, y, x);
      SumNext(f, -radius, x);
      acc := acc + plane[y, Cl(x, w - 1)];
    }
    for x := 0 to w
      invariant acc == Sum(f, x - radius, x + radius + 1)
      invariant forall u :: 0 <= u < x ==> tmp[y, u] == Sum(f, u - radius, u + radius + 1) / n
      invariant forall v, u :: 0 <= v < tmp.Length0 && 0 <= u < tmp.Length1 && v != y ==> tmp[v, u] == old(tmp[v, u])
    {
      tmp[y, x] := acc / n;
      RowAt(p, h, w, y, x + radius + 1);
      RowAt(p, h, w, y, x - radius);
      SumSlide(f, x - radius, x + radius + 1);
      acc := acc + (plane[y, Cl(x + radius + 1, w - 1)] - plane[y, Cl(x - radius, w - 1)]);
    }
  }

  /** The horizontal pass over rows y0..y1-1. */
  method HorizontalRows(plane: array2<real>, tmp: array2<real>, radius: int, y0: int, y1: int)
    requires plane != tmp && plane.Length0 == tmp.Length0 && plane.Length1 == tmp.Length1 > 0
    requires radius > 0 && 0 <= y0 <= y1 <= plane.Length0
    modifies tmp
    ensures forall y, x :: 0 <= y < tmp.Length0 && 0 <= x < tmp.Length1 ==>
              tmp[y, x] == if y0 <= y < y1 then RowSum(Rows(plane), y, x, radius) / Side(radius) else old(tmp[y, x])
  {
    hide Sum, Px;
    ghost var p := Rows(plane);
    for y := y0 to y1
      invariant forall v, x :: 0 <= v < tmp.Length0 && 0 <= x < tmp.Length1 ==>
                  tmp[v, x] == if y0 <= v < y then RowSum(p, v, x, radius) / Side(radius) else old(tmp[v, x])
    {
      HorizontalRow(plane, tmp, radius, y);
    }
  }

  const BAND := 64

  /** The running sums of columns x0..x0+bw-1 are the sums of t's rows lo..hi-1, clamped. */
  ghost predicate Holds(acc: array<real>, t: Plane, x0: int, bw: int, lo: int, hi: int)
    requires acc.Length == BAND && 0 <= bw <= BAND
    reads acc
  {
    forall k :: 0 <= k < bw ==> acc[k] == Sum(ColFn(t, x0 + k), lo, hi)
  }

  method AddRow(acc: array<real>, tmp: array2<real>, ghost t: Plane, y: int, x0: int, bw: int, ghost lo: int)
    requires acc.Length == BAND && 0 <= bw <= BAND && 0 <= x0 && x0 + bw <= tmp.Length1 && tmp.Length0 > 0
    requires t == Rows(tmp) && lo <= y && Holds(acc, t, x0, bw, lo, y)
    modifies acc
    ensures Holds(acc, t, x0, bw, lo, y + 1)
  {
    hide Sum, ColFn;
    for k := 0 to bw
      invariant forall j :: 0 <= j < k ==> acc[j] == Sum(ColFn(t, x0 + j), lo, y + 1)
      invariant forall j :: k <= j < bw ==> acc[j] == Sum(ColFn(t, x0 + j), lo, y)
    {
      ColAt(t, tmp.Length0, tmp.Length1, y, x0 + k);
      SumNext(ColFn(t, x0 + k), lo, y);
      acc[k] := acc[k] + tmp[Cl(y, tmp.Length0 - 1), x0 + k];
    }
  }

  lemma SlideColumn(t: Plane, h: nat, w: nat, y: int, x: int, r: int)
    requires IsPlane(t, h, w) && r > 0 && h > 0 && 0 <= x < w
    ensures ColSum(t, y + 1, x, r) == ColSum(t, y, x, r) + (t[Cl(y + r + 1, h - 1)][x] - t[Cl(y - r, h - 1)][x])
  {
    hide Sum;
    ColAt(t, h, w, y + r + 1, x);
    ColAt(t, h, w, y - r, x);
    SumSlide(ColFn(t, x), y - r, y + r + 1);
  }

  /** Store one row of means and slide the sums down by one. */
  method StoreRow(plane: array2<real>, acc: array<real>, tmp: array2<real>, ghost t: Plane, y: int, x0: int, bw: int, radius: int)
    requires plane != tmp && plane.Length0 == tmp.Length0 && plane.Length1 == tmp.Length1 && acc.Length == BAND
    requires radius > 0 && 0 <= y < plane.Length0 && 0 <= bw <= BAND && 0 <= x0 && x0 + bw <= tmp.Length1
    requires t == Rows(tmp) && Holds(acc, t, x0, bw, y - radius, y + radius + 1)
    modifies plane, acc
    ensures Holds(acc, t, x0, bw, y + 1 - radius, y + 1 + radius + 1)
    ensures forall v, x :: 0 <= v < plane.Length0 && 0 <= x < plane.Length1 ==>
              plane[v, x] == if v == y && x0 <= x < x0 + bw then ColSum(t, y, x, radius) / Side(radius) else old(plane[v, x])
  {
    hide Sum, ColFn;
    var h, w := plane.Length0, plane.Length1;
    var n := (2 * radius + 1) as real;
    for k := 0 to bw
      invariant forall j :: 0 <= j < k ==> acc[j] == Sum(ColFn(t, x0 + j), y + 1 - radius, y + 1 + radius + 1)
      invariant forall j :: k <= j < bw ==> acc[j] == Sum(ColFn(t, x0 + j), y - radius, y + radius + 1)
      invariant forall x :: x0 <= x < x0 + k ==> plane[y, x] == Sum(ColFn(t, x), y - radius, y + radius + 1) / n
      invariant forall v, x :: 0 <= v < h && 0 <= x < w && !(v == y && x0 <= x < x0 + k) ==> plane[v, x] == old(plane[v, x])
    {
      plane[y, x0 + k] := acc[k] / n;
      SlideColumn(t, h, w, y, x0 + k, radius);
      acc[k] := acc[k] + (tmp[Cl(y + radius + 1, h - 1), x0 + k] - tmp[Cl(y - radius, h - 1), x0 + k]);
    }
  }

  lemma EmptySums(acc: array<real>, t: Plane, x0: int, bw: int, lo: int)
    requires acc.Length == BAND && 0 <= bw <= BAND && forall k :: 0 <= k < BAND ==> acc[k] == 0.0
    ensures Holds(acc, t, x0, bw, lo, lo)
  {}

  /** One band of the vertical pass: columns x0..x0+bw-1, with one running sum each. */
  method VerticalBand(plane: array2<real>, tmp: array2<real>, radius: int, x0: int, bw: int)
    requires plane != tmp && plane.Length0 == tmp.Length0 > 0 && plane.Length1 == tmp.Length1
    requires radius > 0 && 0 <= x0 && 0 <= bw <= BAND && x0 + bw <= plane.Length1
    modifies plane
    ensures forall y, x :: 0 <= y < plane.Length0 && 0 <= x < plane.Length1 ==>
              plane[y, x] == if x0 <= x < x0 + bw then ColSum(Rows(tmp), y, x, radius) / Side(radius) else old(plane[y, x])
  {
    hide Sum, Px, ColSum;
    ghost var t := Rows(tmp);
    var acc := new real[BAND](_ => 0.0);
    EmptySums(acc, t, x0, bw, -radius);
    for y := -radius to radius + 1
      invariant Holds(acc, t, x0, bw, -radius, y)
      invariant forall v, x :: 0 <= v < plane.Length0 && 0 <= x < plane.Length1 ==> plane[v, x] == old(plane[v, x])
    {
      AddRow(acc, tmp, t, y, x0, bw, -radius);
    }
    for y := 0 to plane.Length0
      invariant Holds(acc, t, x0, bw, y - radius, y + radius + 1)
      invariant forall v, x :: 0 <= v < plane.Length0 && 0 <= x < plane.Length1 ==>
                  plane[v, x] == if v < y && x0 <= x < x0 + bw then ColSum(t, v, x, radius) / Side(radius) else old(plane[v, x])
    {
      StoreRow(plane, acc, tmp, t, y, x0, bw, radius);
    }
  }

  /** The vertical pass over bands b0..b1-1. */
  method VerticalBands(plane: array2<real>, tmp: array2<real>, radius: int, b0: int, b1: int)
    requires plane != tmp && plane.Length0 == tmp.Length0 > 0 && plane.Length1 == tmp.Length1 > 0
    requires radius > 0 && 0 <= b0 <= b1 && (b1 - 1) * BAND < plane.Length1
    modifies plane
    ensures forall y, x :: 0 <= y < plane.Length0 && 0 <= x < plane.Length1 ==>
              plane[y, x] == if b0 * BAND <= x < b1 * BAND then ColSum(Rows(tmp), y, x, radius) / Side(radius) else old(plane[y, x])
  {
    hide Sum, Px, ColSum;
    ghost var t := Rows(tmp);
    var w := plane.Length1;
    for b := b0 to b1
      invariant forall y, x :: 0 <= y < plane.Length0 && 0 <= x < plane.Length1 ==>
                  plane[y, x] == if b0 * BAND <= x < b * BAND then ColSum(t, y, x, radius) / Side(radius) else old(plane[y, x])
    {
      var x0 := b * BAND;
      var xEnd := if w < x0 + BAND then w else x0 + BAND;
      VerticalBand(plane, tmp, radius, x0, xEnd - x0);
    }
  }

  // ----- windows that are even around their centre -----

  predicate Pairs(f: int -> real, c: int, j: int) {
    f(c - j) + f(c + j) == 2.0 * f(c)
  }

  lemma OneMorePair(f: int -> real, c: int, r: nat)
    requires r > 0 && Pairs(f, c, r)
    ensures Sum(f, c - r, c + r + 1) == Sum(f, c - r + 1, c + r) + 2.0 * f(c)
  {
    SumNext(f, c - r, c + r);
    SumFront(f, c - r, c + r);
  }

  lemma SidePositive(r: int)
    requires r > 0
    ensures Side(r) > 0.0
  {}

  lemma OneMoreSide(r: nat, v: real)
    requires r > 0
    ensures Side(r) * v == Side(r - 1) * v + 2.0 * v
  {
    assert Side(r) == Side(r - 1) + 2.0;
  }

  /** A window whose terms pair off around its centre sums to the centre, counted Side times. */
  lemma {:induction false} SumPaired(f: int -> real, c: int, r: nat)
    requires forall j :: 0 <= j <= r ==> Pairs(f, c, j)
    ensures Sum(f, c - r, c + r + 1) == Side(r) * f(c)
  {
    hide Sum, Pairs;
    if r == 0 {
      SumEmpty(f, c);
      SumNext(f, c, c);
    } else {
      SumPaired(f, c, r - 1);
      OneMorePair(f, c, r);
      OneMoreSide(r, f(c));
    }
  }

  /** The rows and the middle column of the window pair off around its centre. */
  predicate Centred(p: Plane, y: int, x: int, r: nat) {
    && (forall v, j :: y - r <= v <= y + r && 0 <= j <= r ==> Pairs(RowFn(p, v), x, j))
    && (forall j :: 0 <= j <= r ==> Pairs(ColFn(p, x), y, j))
  }

  lemma PairsScaled(f: int -> real, g: int -> real, n: real, c: int, j: int)
    requires Pairs(f, c, j) && g(c - j) == n * f(c - j) && g(c + j) == n * f(c + j) && g(c) == n * f(c)
    ensures Pairs(g, c, j)
  {
    assert n * (f(c - j) + f(c + j)) == n * f(c - j) + n * f(c + j);
    assert n * (2.0 * f(c)) == 2.0 * (n * f(c));
  }

  lemma Cancelled(n: real, v: real)
    requires n > 0.0
    ensures n * v / n == v
  {}

  lemma Twice(sum: real, n: real, f: real, v: real)
    requires n > 0.0 && sum == n * f && f == n * v
    ensures sum / n / n == v
  {
    Cancelled(n, f);
    Cancelled(n, v);
  }

  /** The pixel in the middle of such a window is its mean. */
  lemma MeanCentred(p: Plane, y: int, x: int, r: nat)
    requires r > 0 && Centred(p, y, x, r)
    ensures Mean(p, y, x, r) == Px(p, y, x)
  {
    hide Sum, Px, Pairs, Side;
    var f, n := RowSums(p, x, r), Side(r);
    forall v | y - r <= v <= y + r ensures f(v) == n * ColFn(p, x)(v) {
      SumPaired(RowFn(p, v), x, r);
    }
    forall j | 0 <= j <= r ensures Pairs(f, y, j) {
      PairsScaled(ColFn(p, x), f, n, y, j);
    }
    SumPaired(f, y, r);
    SidePositive(r);
    Twice(Sum(f, y - r, y + r + 1), n, f(y), ColFn(p, x)(y));
  }

  // ----- what the two passes amount to -----

  lemma {:induction false} SumSame(f: int -> real, g: int -> real, lo: int, hi: int)
    requires forall k :: lo <= k < hi ==> f(k) == g(k)
    ensures Sum(f, lo, hi) == Sum(g, lo, hi)
    decreases hi - lo
  {
    if lo < hi {
      SumSame(f, g, lo, hi - 1);
    }
  }

  lemma SameRow(p: Plane, h: nat, w: nat, v: int, x: int, r: int)
    requires IsPlane(p, h, w) && h > 0 && w > 0
    ensures RowSum(p, v, x, r) == RowSum(p, Cl(v, h - 1), x, r)
  {
    SumSame(RowFn(p, v), RowFn(p, Cl(v, h - 1)), x - r, x + r + 1);
  }

  lemma Separable(p: Plane, t: Plane, h: nat, w: nat, r: int, y: int, x: int)
    requires IsPlane(p, h, w) && IsPlane(t, h, w) && r > 0 && 0 <= y < h && 0 <= x < w
    requires forall v, u :: 0 <= v < h && 0 <= u < w ==> t[v][u] == RowSum(p, v, u, r) / Side(r)
    ensures Side(r) > 0.0 && ColSum(t, y, x, r) / Side(r) == Mean(p, y, x, r)
  {
    hide Sum, RowSum, ColFn, Side;
    SidePositive(r);
    var n := Side(r);
    forall v | y - r <= v < y + r + 1 ensures ColFn(t, x)(v) == RowSums(p, x, r)(v) / n {
      ColAt(t, h, w, v, x);
      SameRow(p, h, w, v, x, r);
    }
    SumScaled(RowSums(p, x, r), ColFn(t, x), n, y - r, y + r + 1);
  }

  lemma NothingToBlur(p: Plane, h: nat, w: nat, r: int)
    requires IsPlane(p, h, w) && (r <= 0 || w == 0 || h == 0)
    ensures Blurred(p, h, w, r) == p
  {
    var q := Blurred(p, h, w, r);
    assert forall y :: 0 <= y < h ==> q[y] == p[y];
  }

  lemma IsBlurred(p: Plane, q: Plane, h: nat, w: nat, r: int)
    requires IsPlane(p, h, w) && IsPlane(q, h, w) && r > 0
    requires forall y, x :: 0 <= y < h && 0 <= x < w ==> q[y][x] == Mean(p, y, x, r)
    ensures q == Blurred(p, h, w, r)
  {
    hide Mean;
    var b := Blurred(p, h, w, r);
    assert forall y :: 0 <= y < h ==> q[y] == b[y];
  }

  lemma ChunkInRange(chunks: seq<(int, int)>, n: int, c: (int, int))
    requires Tiles(chunks, n) && c in chunks
    ensures 0 <= c.0 <= c.1 <= n
  {
    var i :| 0 <= i < |chunks| && chunks[i] == c;
    if i > 0 {
      TilesMonotone(chunks, n, 0, i);
    }
    if i < |chunks| - 1 {
      TilesMonotone(chunks, n, i, |chunks| - 1);
    }
  }

  method HorizontalPass(plane: array2<real>, tmp: array2<real>, radius: int, procs: int)
    requires plane != tmp && plane.Length0 == tmp.Length0 && plane.Length1 == tmp.Length1 > 0 && radius > 0
    modifies tmp
    ensures forall y, x :: 0 <= y < tmp.Length0 && 0 <= x < tmp.Length1 ==>
              tmp[y, x] == RowSum(Rows(plane), y, x, radius) / Side(radius)
  {
    hide RowSum;
    ghost var p := Rows(plane);
    var chunks := ParallelFor(plane.Length0, procs);
    var todo := set c | c in chunks;
    while exists c :: c in todo
      invariant todo <= set c | c in chunks
      invariant forall c, y, x :: c in chunks && c !in todo && c.0 <= y < c.1 && 0 <= y < tmp.Length0 && 0 <= x < tmp.Length1
                  ==> tmp[y, x] == RowSum(p, y, x, radius) / Side(radius)
      decreases todo
    {
      var c :| c in todo;
      ChunkInRange(chunks, plane.Length0, c);
      HorizontalRows(plane, tmp, radius, c.0, c.1);
      todo := todo - {c};
    }
    forall y, x | 0 <= y < tmp.Length0 && 0 <= x < tmp.Length1
      ensures tmp[y, x] == RowSum(p, y, x, radius) / Side(radius)
    {
      TilesPartition(chunks, plane.Length0, y);
    }
  }

  method VerticalPass(plane: array2<real>, tmp: array2<real>, radius: int, procs: int)
    requires plane != tmp && plane.Length0 == tmp.Length0 > 0 && plane.Length1 == tmp.Length1 > 0 && radius > 0
    modifies plane
    ensures forall y, x :: 0 <= y < plane.Length0 && 0 <= x < plane.Length1 ==>
              plane[y, x] == ColSum(Rows(tmp), y, x, radius) / Side(radius)
  {
    hide ColSum;
    ghost var t := Rows(tmp);
    var bands := (plane.Length1 + BAND - 1) / BAND;
    var chunks := ParallelFor(bands, procs);
    var todo := set c | c in chunks;
    while exists c :: c in todo
      invariant todo <= set c | c in chunks
      invariant forall c, y, x :: c in chunks && c !in todo && c.0 <= x / BAND < c.1 && 0 <= y < plane.Length0 && 0 <= x < plane.Length1
                  ==> plane[y, x] == ColSum(t, y, x, radius) / Side(radius)
      decreases todo
    {
      var c :| c in todo;
      ChunkInRange(chunks, bands, c);
      VerticalBands(plane, tmp, radius, c.0, c.1);
      todo := todo - {c};
    }
    forall y, x | 0 <= y < plane.Length0 && 0 <= x < plane.Length1
      ensures plane[y, x] == ColSum(t, y, x, radius) / Side(radius)
    {
      TilesPartition(chunks, bands, x / BAND);
    }
  }

  /** boxBlur. Whatever the number of processors, and in whatever order the chunks of each
      pass are run, the plane becomes its edge-clamped window mean. */
  method Blur(plane: array2<real>, tmp: array2<real>, radius: int, procs: int)
    requires plane != tmp && plane.Length0 == tmp.Length0 && plane.Length1 == tmp.Length1
    modifies plane, tmp
    ensures Rows(plane) == Blurred(old(Rows(plane)), plane.Length0, plane.Length1, radius)
  {
    hide Sum, Px, ColSum, RowSum, Mean;
    var h, w := plane.Length0, plane.Length1;
    ghost var p := Rows(plane);
    if radius <= 0 || w <= 0 || h <= 0 {
      NothingToBlur(p, h, w, radius);
      return;
    }
    HorizontalPass(plane, tmp, radius, procs);
    ghost var t := Rows(tmp);
    VerticalPass(plane, tmp, radius, procs);
    forall y, x | 0 <= y < h && 0 <= x < w ensures plane[y, x] == Mean(p, y, x, radius) {
      Separable(p, t, h, w, radius, y, x);
    }
    IsBlurred(p, Rows(plane), h, w, radius);
  }

  // ----- the mean lies between the extremes -----

  lemma {:induction false} SumBounds(f: int -> real, lo: int, hi: int, a: real, b: real)
    requires lo <= hi && forall k :: lo <= k < hi ==> a <= f(k) <= b
    ensures a * (hi - lo) as real <= Sum(f, lo, hi) <= b * (hi - lo) as real
    decreases hi - lo
  {
    if lo == hi {
      assert a * 0.0 == 0.0 && b * 0.0 == 0.0;
    } else {
      SumBounds(f, lo, hi - 1, a, b);
      assert a * (hi - lo) as real == a * (hi - 1 - lo) as real + a;
      assert b * (hi - lo) as real == b * (hi - 1 - lo) as real + b;
    }
  }

  predicate Between(p: Plane, a: real, b: real) {
    forall y, x :: 0 <= y < |p| && 0 <= x < |p[y]| ==> a <= p[y][x] <= b
  }

  lemma Quotient(total: real, d: real, a: real, b: real)
    requires d > 0.0 && a * d <= total <= b * d
    ensures a <= total / d <= b
  {
    assert total / d - a == (total - a * d) / d;
    assert b - total / d == (b * d - total) / d;
  }

  /** The pixels of the clamped window around (y, x) lie between a and b. */
  predicate WindowBetween(p: Plane, y: int, x: int, r: int, a: real, b: real) {
    forall v, u :: y - r <= v <= y + r && x - r <= u <= x + r ==> a <= Px(p, v, u) <= b
  }

  lemma PlaneWindow(p: Plane, h: nat, w: nat, y: int, x: int, r: int, a: real, b: real)
    requires IsPlane(p, h, w) && h > 0 && w > 0 && Between(p, a, b)
    ensures WindowBetween(p, y, x, r, a, b)
  {}

  lemma RowBounds(p: Plane, y: int, x: int, r: int, a: real, b: real)
    requires r > 0 && forall u :: x - r <= u <= x + r ==> a <= Px(p, y, u) <= b
    ensures a * Side(r) <= RowSum(p, y, x, r) <= b * Side(r)
  {
    hide Sum, Px;
    SumBounds(RowFn(p, y), x - r, x + r + 1, a, b);
    assert (x + r + 1) - (x - r) == 2 * r + 1;
  }

  lemma MeanBounds(p: Plane, y: int, x: int, r: int, a: real, b: real)
    requires r > 0 && WindowBetween(p, y, x, r, a, b)
    ensures a <= Mean(p, y, x, r) <= b
  {
    hide Sum, RowSum, Px;
    var n := Side(r);
    assert (y + r + 1) - (y - r) == 2 * r + 1;
    forall v | y - r <= v < y + r + 1 ensures a * n <= RowSums(p, x, r)(v) <= b * n {
      RowBounds(p, v, x, r, a, b);
    }
    SumBounds(RowSums(p, x, r), y - r, y + r + 1, a * n, b * n);
    var total := Sum(RowSums(p, x, r), y - r, y + r + 1);
    Quotient(total, n, a * n, b * n);
    Quotient(total / n, n, a, b);
  }

  /** Blurring stays within the range of the plane, so a constant plane is left as it is. */
  lemma BlurredBetween(p: Plane, h: nat, w: nat, r: int, a: real, b: real)
    requires IsPlane(p, h, w) && Between(p, a, b)
    ensures Between(Blurred(p, h, w, r), a, b)
    ensures a == b ==> Blurred(p, h, w, r) == p
  {
    hide Mean;
    var q := Blurred(p, h, w, r);
    forall y, x | 0 <= y < |q| && 0 <= x < |q[y]| ensures a <= q[y][x] <= b {
      if r > 0 {
        PlaneWindow(p, h, w, y, x, r, a, b);
        MeanBounds(p, y, x, r, a, b);
      }
    }
    if a == b {
      assert forall y :: 0 <= y < h ==> q[y] == p[y];
    }
  }

  // ----- the mean is linear -----

  function Blend(a: real, x: real, b: real): real {
    a * x + b
  }

  lemma BlendSum(k: real, x: real, y: real, b: real, c: real)
    ensures Blend(k, x, b) + Blend(k, y, c) == Blend(k, x + y, b + c)
    ensures Blend(k, 0.0, 0.0) == 0.0
  {
    assert k * (x + y) == k * x + k * y;
  }

  lemma {:induction false} SumLinear(f: int -> real, g: int -> real, k: real, s: int -> real, lo: int, hi: int)
    requires forall i :: lo <= i < hi ==> s(i) == Blend(k, g(i), f(i))
    ensures Sum(s, lo, hi) == Blend(k, Sum(g, lo, hi), Sum(f, lo, hi))
    decreases hi - lo
  {
    hide Blend;
    if lo < hi {
      SumLinear(f, g, k, s, lo, hi - 1);
      BlendSum(k, Sum(g, lo, hi - 1), g(hi - 1), Sum(f, lo, hi - 1), f(hi - 1));
    } else {
      BlendSum(k, 0.0, 0.0, 0.0, 0.0);
    }
  }

  /** s is f plus k times g, around (y, x). */
  predicate Linear(f: Plane, g: Plane, k: real, s: Plane, y: int, x: int, r: int) {
    forall v, u :: y - r <= v <= y + r && x - r <= u <= x + r ==> Px(s, v, u) == Blend(k, Px(g, v, u), Px(f, v, u))
  }

  lemma BlendDivided(k: real, g: real, f: real, n: real)
    requires n > 0.0
    ensures Blend(k, g, f) / n == Blend(k, g / n, f / n)
  {
    assert (k * g + f) / n == (k * g) / n + f / n;
  }

  lemma RowLinear(f: Plane, g: Plane, k: real, s: Plane, v: int, x: int, r: int)
    requires forall u :: x - r <= u <= x + r ==> Px(s, v, u) == Blend(k, Px(g, v, u), Px(f, v, u))
    ensures RowSum(s, v, x, r) == Blend(k, RowSum(g, v, x, r), RowSum(f, v, x, r))
  {
    hide Sum, Px, Blend;
    SumLinear(RowFn(f, v), RowFn(g, v), k, RowFn(s, v), x - r, x + r + 1);
  }

  lemma MeanLinear(f: Plane, g: Plane, k: real, s: Plane, y: int, x: int, r: int)
    requires r > 0 && Linear(f, g, k, s, y, x, r)
    ensures Mean(s, y, x, r) == Blend(k, Mean(g, y, x, r), Mean(f, y, x, r))
  {
    hide Sum, Px, Side, RowSum, Blend;
    forall v | y - r <= v < y + r + 1
      ensures RowSums(s, x, r)(v) == Blend(k, RowSums(g, x, r)(v), RowSums(f, x, r)(v))
    {
      RowLinear(f, g, k, s, v, x, r);
    }
    SumLinear(RowSums(f, x, r), RowSums(g, x, r), k, RowSums(s, x, r), y - r, y + r + 1);
    SidePositive(r);
    var a, b := Sum(RowSums(g, x, r), y - r, y + r + 1), Sum(RowSums(f, x, r), y - r, y + r + 1);
    BlendDivided(k, a, b, Side(r));
    BlendDivided(k, a / Side(r), b / Side(r), Side(r));
  }

  // ----- a single bright pixel -----

  /** The sum of a function that is v at one place and zero at all others. */
  lemma {:induction false} SumOne(f: int -> real, k: int, v: real, lo: int, hi: int)
    requires lo <= hi && f(k) == v && forall i :: lo <= i < hi && i != k ==> f(i) == 0.0
    ensures Sum(f, lo, hi) == if lo <= k < hi then v else 0.0
    decreases hi - lo
  {
    if lo < hi {
      SumOne(f, k, v, lo, hi - 1);
    }
  }

  predicate Impulse(p: Plane, h: nat, w: nat, y0: int, x0: int)
    requires IsPlane(p, h, w)
  {
    forall y, x :: 0 <= y < h && 0 <= x < w ==> p[y][x] == if y == y0 && x == x0 then 1.0 else 0.0
  }

  lemma ImpulseRow(p: Plane, h: nat, w: nat, y0: int, x0: int, v: int, x: int, r: int)
    requires IsPlane(p, h, w) && 0 < y0 < h - 1 && 0 < x0 < w - 1 && Impulse(p, h, w, y0, x0) && r > 0
    ensures RowSum(p, v, x, r) == if v == y0 && x - r <= x0 <= x + r then 1.0 else 0.0
  {
    hide Sum;
    SumOne(RowFn(p, v), x0, if v == y0 then 1.0 else 0.0, x - r, x + r + 1);
  }

  /** A bright pixel off the border is spread evenly over the square of that radius around it,
      and reaches no further: the blur's weights are all equal. */
  lemma ImpulseSpread(p: Plane, h: nat, w: nat, y0: int, x0: int, y: int, x: int, r: int)
    requires IsPlane(p, h, w) && 0 < y0 < h - 1 && 0 < x0 < w - 1 && Impulse(p, h, w, y0, x0)
    requires r > 0 && 0 <= y < h && 0 <= x < w
    ensures Blurred(p, h, w, r)[y][x]
         == if y - r <= y0 <= y + r && x - r <= x0 <= x + r then 1.0 / Side(r) / Side(r) else 0.0
  {
    hide Sum, RowSum;
    forall v | y - r <= v <= y + r || v == y0
      ensures RowSums(p, x, r)(v) == if v == y0 && x - r <= x0 <= x + r then 1.0 else 0.0
    {
      ImpulseRow(p, h, w, y0, x0, v, x, r);
    }
    SumOne(RowSums(p, x, r), y0, if x - r <= x0 <= x + r then 1.0 else 0.0, y - r, y + r + 1);
    SidePositive(r);
  }
}
