/**
 The out-of-gamut handling of internal/raster/miniisp.go, over reals: a colour outside the
 unit cube is shrunk towards its own luma (the weights of section 2.5.1 of ITU-R BT.601)
 by the largest factor that brings it back.
 */
module Gamut {

  datatype Rgb = Rgb(r: real, g: real, b: real)

  function Luma(c: Rgb): real {
    0.299 * c.r + 0.587 * c.g + 0.114 * c.b
  }

  function Min(x: real, y: real): real {
    if x < y then x else y
  }

  function Max(x: real, y: real): real {
    if x > y then x else y
  }

  function Least(c: Rgb): real {
    Min(c.r, Min(c.g, c.b))
  }

  function Greatest(c: Rgb): real {
    Max(c.r, Max(c.g, c.b))
  }

  predicate InGamut(c: Rgb) {
    0.0 <= c.r <= 1.0 && 0.0 <= c.g <= 1.0 && 0.0 <= c.b <= 1.0
  }

  /** A channel moved towards the luma: all of the way for 0, not at all for 1. */
  function Towards(l: real, x: real, t: real): real {
    l + (x - l) * t
  }

  function Shrunk(c: Rgb, t: real): Rgb {
    Rgb(Towards(Luma(c), c.r, t), Towards(Luma(c), c.g, t), Towards(Luma(c), c.b, t))
  }

  predicate Shrinks(c: Rgb) {
    0.0 < Luma(c) < 1.0 && !InGamut(c)
  }

  function Factor(c: Rgb): real
    requires Shrinks(c)
  {
    var l, mn, mx := Luma(c), Least(c), Greatest(c);
    var t := if mn < 0.0 then Min(1.0, l / (l - mn)) else 1.0;
    if mx > 1.0 then Min(t, (1.0 - l) / (mx - l)) else t
  }

  function Compressed(c: Rgb): Rgb {
    if Luma(c) <= 0.0 then Rgb(0.0, 0.0, 0.0)
    else if Luma(c) >= 1.0 then Rgb(1.0, 1.0, 1.0)
    else if InGamut(c) then c
    else Shrunk(c, Factor(c))
  }

  lemma Outside(c: Rgb)
    ensures InGamut(c) <==> Least(c) >= 0.0 && Greatest(c) <= 1.0
  {}

  lemma DivideIff(s: real, x: real, d: real)
    requires d > 0.0
    ensures s * d <= x <==> s <= x / d
  {
    var q := x / d;
    assert q * d == x;
    if s <= q {
      assert (q - s) * d >= 0.0;
    } else {
      assert (s - q) * d > 0.0;
    }
  }

  lemma FactorRange(c: Rgb)
    requires Shrinks(c)
    ensures 0.0 <= Factor(c) <= 1.0
  {
    hide Luma;
    var l, mn, mx := Luma(c), Least(c), Greatest(c);
    if mn < 0.0 {
      DivideIff(0.0, l, l - mn);
    }
    if mx > 1.0 {
      DivideIff(0.0, 1.0 - l, mx - l);
    }
  }

  /** A channel below 0 comes back exactly for the factors up to l / (l - x). */
  lemma LowIff(l: real, x: real, s: real)
    requires l > 0.0 && x < 0.0
    ensures Towards(l, x, s) >= 0.0 <==> s <= l / (l - x)
  {
    DivideIff(s, l, l - x);
    assert s * (l - x) == -((x - l) * s);
  }

  /** A channel above 1 comes back exactly for the factors up to (1 - l) / (x - l). */
  lemma HighIff(l: real, x: real, s: real)
    requires l < 1.0 && x > 1.0
    ensures Towards(l, x, s) <= 1.0 <==> s <= (1.0 - l) / (x - l)
  {
    DivideIff(s, 1.0 - l, x - l);
    assert s * (x - l) == (x - l) * s;
  }

  lemma Product(x: real, y: real)
    requires x >= 0.0 && y >= 0.0
    ensures x * y >= 0.0
  {}

  /** A channel already in range stays there. */
  lemma Inside(l: real, x: real, s: real)
    requires 0.0 < l < 1.0 && 0.0 <= s <= 1.0
    ensures x >= 0.0 ==> Towards(l, x, s) >= 0.0
    ensures x <= 1.0 ==> Towards(l, x, s) <= 1.0
  {
    var u := 1.0 - s;
    assert Towards(l, x, s) == l * u + x * s;
    Product(l, u);
    if x >= 0.0 {
      Product(x, s);
    }
    if x <= 1.0 {
      Product(1.0 - x, s);
      Product(1.0 - l, u);
      assert (1.0 - x) * s == s - x * s && (1.0 - l) * u == u - l * u;
    }
  }

  /** Shrinking keeps the order of two channels. */
  lemma Ordered(l: real, x: real, y: real, s: real)
    requires x <= y && s >= 0.0
    ensures Towards(l, x, s) <= Towards(l, y, s)
  {
    Product(y - x, s);
    assert (y - x) * s == (y - l) * s - (x - l) * s;
  }

  lemma Extremes(c: Rgb, s: real)
    requires s >= 0.0
    ensures InGamut(Shrunk(c, s)) <==> Towards(Luma(c), Least(c), s) >= 0.0 && Towards(Luma(c), Greatest(c), s) <= 1.0
  {
    hide Towards, Luma;
    var l := Luma(c);
    Ordered(l, Least(c), c.r, s);
    Ordered(l, Least(c), c.g, s);
    Ordered(l, Least(c), c.b, s);
    Ordered(l, c.r, Greatest(c), s);
    Ordered(l, c.g, Greatest(c), s);
    Ordered(l, c.b, Greatest(c), s);
  }

  /** The factor is the largest one that brings the colour into the cube. */
  lemma LargestFactor(c: Rgb, s: real)
    requires Shrinks(c) && 0.0 <= s <= 1.0
    ensures InGamut(Shrunk(c, s)) <==> s <= Factor(c)
  {
    hide Towards, Luma, InGamut, Shrunk;
    var l, mn, mx := Luma(c), Least(c), Greatest(c);
    Extremes(c, s);
    Inside(l, mn, s);
    Inside(l, mx, s);
    if mn < 0.0 {
      LowIff(l, mn, s);
    }
    if mx > 1.0 {
      HighIff(l, mx, s);
    }
  }

  lemma FactorApplied(c: Rgb)
    requires Shrinks(c)
    ensures Compressed(c) == Shrunk(c, Factor(c))
  {
    hide Luma, Factor, Shrunk;
  }

  /** A colour outside the cube moves to the last point, on its way to the luma's grey, from
      which on the way lies inside. */
  lemma NoFurther(c: Rgb) returns (t: real)
    requires Shrinks(c)
    ensures 0.0 <= t <= 1.0 && Compressed(c) == Shrunk(c, t) && InGamut(Compressed(c))
    ensures forall s :: 0.0 <= s <= 1.0 ==> (InGamut(Shrunk(c, s)) <==> s <= t)
  {
    hide Luma, Factor, Shrunk, InGamut;
    t := Factor(c);
    FactorRange(c);
    forall s | 0.0 <= s <= 1.0 ensures InGamut(Shrunk(c, s)) <==> s <= t {
      LargestFactor(c, s);
    }
    FactorApplied(c);
  }

  lemma Landing(c: Rgb)
    ensures InGamut(Compressed(c))
  {
    hide Luma, Factor, Shrunk;
    if Shrinks(c) {
      FactorRange(c);
      LargestFactor(c, Factor(c));
    }
  }

  /** The gamut block of pass 2c, on the three channel variables. */
  method Compress(cr: real, cg: real, cb: real) returns (r: real, g: real, b: real)
    ensures Rgb(r, g, b) == Compressed(Rgb(cr, cg, cb))
    ensures InGamut(Rgb(r, g, b))
  {
    hide InGamut, Luma, Towards, Min, Max;
    r, g, b := cr, cg, cb;
    ghost var c := Rgb(r, g, b);
    var lum := Luma(Rgb(r, g, b));
    var mn := Min(r, Min(g, b));
    var mx := Max(r, Max(g, b));
    Outside(c);
    Landing(c);
    if lum <= 0.0 {
      r, g, b := 0.0, 0.0, 0.0;
    } else if lum >= 1.0 {
      r, g, b := 1.0, 1.0, 1.0;
    } else if mn < 0.0 || mx > 1.0 {
      var t := 1.0;
      if mn < 0.0 {
        t := Min(t, lum / (lum - mn));
      }
      if mx > 1.0 {
        t := Min(t, (1.0 - lum) / (mx - lum));
      }
      r := Towards(lum, r, t);
      g := Towards(lum, g, t);
      b := Towards(lum, b, t);
    }
  }

  // ----- the whole colour -----

  lemma ShrunkLuma(c: Rgb, t: real)
    ensures Luma(Shrunk(c, t)) == Luma(c)
  {
    var l := Luma(c);
    assert 0.299 * ((c.r - l) * t) + 0.587 * ((c.g - l) * t) + 0.114 * ((c.b - l) * t)
        == (0.299 * (c.r - l) + 0.587 * (c.g - l) + 0.114 * (c.b - l)) * t;
  }

  /** Between black and white the luma survives. */
  lemma LumaKept(c: Rgb)
    ensures Luma(Compressed(c)) == if Luma(c) <= 0.0 then 0.0 else if Luma(c) >= 1.0 then 1.0 else Luma(c)
  {
    if Shrinks(c) {
      ShrunkLuma(c, Factor(c));
    }
  }

  lemma OrderPair(l: real, x: real, y: real, t: real)
    requires t >= 0.0
    ensures x <= y ==> Towards(l, x, t) <= Towards(l, y, t)
    ensures y <= x ==> Towards(l, y, t) <= Towards(l, x, t)
  {
    if x <= y {
      Ordered(l, x, y, t);
    }
    if y <= x {
      Ordered(l, y, x, t);
    }
  }

  lemma OrderKept(c: Rgb)
    ensures c.r <= c.g ==> Compressed(c).r <= Compressed(c).g
    ensures c.g <= c.r ==> Compressed(c).g <= Compressed(c).r
    ensures c.g <= c.b ==> Compressed(c).g <= Compressed(c).b
    ensures c.b <= c.g ==> Compressed(c).b <= Compressed(c).g
    ensures c.r <= c.b ==> Compressed(c).r <= Compressed(c).b
    ensures c.b <= c.r ==> Compressed(c).b <= Compressed(c).r
  {
    hide Towards, Luma, Factor;
    if Shrinks(c) {
      var l, t := Luma(c), Factor(c);
      FactorRange(c);
      OrderPair(l, c.r, c.g, t);
      OrderPair(l, c.g, c.b, t);
      OrderPair(l, c.r, c.b, t);
    }
  }

  lemma InsideUntouched(c: Rgb)
    requires InGamut(c)
    ensures Compressed(c) == c
  {}

  /** A colour is left alone exactly when it is in the cube, black and white included; so
      compressing twice is compressing once. */
  lemma UntouchedIff(c: Rgb)
    ensures Compressed(c) == c <==> InGamut(c)
    ensures Compressed(Compressed(c)) == Compressed(c)
  {
    hide Factor, Shrunk;
    Landing(c);
    if InGamut(c) {
      InsideUntouched(c);
    }
    InsideUntouched(Compressed(c));
  }
}
