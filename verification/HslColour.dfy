// Colours as red, green and blue and as hue, saturation and lightness
// (extra/lesscss/less-rhino-1.7.0.js, tree.Color and tree.functions), over exact reals.
module HslColour {
  import opened Wrappers

  datatype Color = Color(r: real, g: real, b: real, alpha: real)

  datatype Hsl = Hsl(h: real, s: real, l: real, a: real)

  function Max(x: real, y: real): real {
    if x < y then y else x
  }

  function Min(x: real, y: real): real {
    if y < x then y else x
  }

  function Clamp(x: real): real {
    Min(1.0, Max(0.0, x))
  }

  // The remainder of JavaScript has the sign of the dividend.
  function Remainder(x: real, m: real): real
    requires m > 0.0
  {
    var q := x / m;
    x - m * (if q >= 0.0 then q.Floor as real else -((-q).Floor as real))
  }

  // ---------- from red, green and blue ----------

  function ToHsl(c: Color): Hsl {
    var r, g, b := c.r / 255.0, c.g / 255.0, c.b / 255.0;
    var max, min := Max(Max(r, g), b), Min(Min(r, g), b);
    var l, d := (max + min) / 2.0, max - min;
    if max == min then Hsl(0.0, 0.0, l, c.alpha)
    else Hsl(Sixths(r, g, b) / 6.0 * 360.0, Saturation(max, min), l, c.alpha)
  }

  function Saturation(max: real, min: real): real
    requires max != min
  {
    var l, d := (max + min) / 2.0, max - min;
    if l > 0.5 then (if 2.0 - max - min != 0.0 then d / (2.0 - max - min) else 0.0)
    else if max + min != 0.0 then d / (max + min) else 0.0
  }

  // The hue in sixths of the circle.
  function Sixths(r: real, g: real, b: real): real
    requires !(r == g == b)
  {
    var max, min := Max(Max(r, g), b), Min(Min(r, g), b);
    var d := max - min;
    if max == r then (g - b) / d + (if g < b then 6.0 else 0.0)
    else if max == g then (b - r) / d + 2.0
    else (r - g) / d + 4.0
  }

  // ---------- to red, green and blue ----------

  function Hue(h: real, m1: real, m2: real): real {
    var h := if h < 0.0 then h + 1.0 else if h > 1.0 then h - 1.0 else h;
    if h * 6.0 < 1.0 then m1 + (m2 - m1) * h * 6.0
    else if h * 2.0 < 1.0 then m2
    else if h * 3.0 < 2.0 then m1 + (m2 - m1) * (2.0 / 3.0 - h) * 6.0
    else m1
  }

  function Hsla(hsl: Hsl): Color {
    var h := Remainder(hsl.h, 360.0) / 360.0;
    var s, l, a := Clamp(hsl.s), Clamp(hsl.l), Clamp(hsl.a);
    var m2 := Upper(s, l);
    var m1 := l * 2.0 - m2;
    Color(Hue(h + 1.0 / 3.0, m1, m2) * 255.0, Hue(h, m1, m2) * 255.0, Hue(h - 1.0 / 3.0, m1, m2) * 255.0, a)
  }

  // The largest channel.
  function Upper(s: real, l: real): real {
    if l <= 0.5 then l * (s + 1.0) else l + s - l * s
  }

  // ---------- there and back ----------

  predicate Channel(x: real) {
    0.0 <= x <= 255.0
  }

  // A channel as a function of the hue in sixths: it rises, stays, falls and stays.
  function Wave(x: real, low: real, d: real): real {
    if x < 1.0 then low + d * x
    else if x < 3.0 then low + d
    else if x < 4.0 then low + d * (4.0 - x)
    else low
  }

  lemma HueIsWave(x: real, m1: real, m2: real)
    requires 0.0 <= x <= 6.0
    ensures Hue(x / 6.0, m1, m2) == Wave(x, m1, m2 - m1)
  {
    var h, d := x / 6.0, m2 - m1;
    assert d * h * 6.0 == d * x by { Reassociate(d, h, 6.0, x); }
    assert d * (2.0 / 3.0 - h) * 6.0 == d * (4.0 - x) by { Reassociate(d, 2.0 / 3.0 - h, 6.0, 4.0 - x); }
  }

  lemma Reassociate(a: real, b: real, c: real, bc: real)
    requires b * c == bc
    ensures a * b * c == a * bc
  {
  }

  // A third of a turn to either side.
  lemma HueBefore(x: real, m1: real, m2: real)
    requires 0.0 <= x < 6.0
    ensures Hue(x / 6.0 - 1.0 / 3.0, m1, m2) == Wave(if x < 2.0 then x + 4.0 else x - 2.0, m1, m2 - m1)
  {
    if x < 2.0 {
      HueIsWave(x + 4.0, m1, m2);
      assert x / 6.0 - 1.0 / 3.0 + 1.0 == (x + 4.0) / 6.0;
    } else {
      HueIsWave(x - 2.0, m1, m2);
      assert x / 6.0 - 1.0 / 3.0 == (x - 2.0) / 6.0;
    }
  }

  lemma HueAfter(x: real, m1: real, m2: real)
    requires 0.0 <= x < 6.0
    ensures Hue(x / 6.0 + 1.0 / 3.0, m1, m2) == Wave(if x > 4.0 then x - 4.0 else x + 2.0, m1, m2 - m1)
  {
    if x > 4.0 {
      HueIsWave(x - 4.0, m1, m2);
      assert x / 6.0 + 1.0 / 3.0 - 1.0 == (x - 4.0) / 6.0;
    } else {
      HueIsWave(x + 2.0, m1, m2);
      assert x / 6.0 + 1.0 / 3.0 == (x + 2.0) / 6.0;
    }
  }

  lemma Quotient(a: real, d: real) returns (q: real)
    requires d > 0.0 && -d <= a <= d
    ensures q == a / d && d * q == a && -1.0 <= q <= 1.0
    ensures (a >= 0.0 ==> q >= 0.0) && (a < 0.0 ==> q < 0.0) && (a > 0.0 ==> q > 0.0)
    ensures (a < d ==> q < 1.0) && (a > -d ==> q > -1.0)
  {
    q := a / d;
    assert d * q == a;
    assert d * (q - 1.0) == a - d && d * (q + 1.0) == a + d;
    SignOfProduct(d, q);
    SignOfProduct(d, q - 1.0);
    SignOfProduct(d, q + 1.0);
  }

  lemma SignOfProduct(d: real, q: real)
    requires d > 0.0
    ensures (q > 0.0 <==> d * q > 0.0) && (q < 0.0 <==> d * q < 0.0)
  {
  }

  // The three channels are read off the waves again, ties included.
  lemma SixthsAndBack(r: real, g: real, b: real)
    requires !(r == g == b)
    ensures var x, min := Sixths(r, g, b), Min(Min(r, g), b);
            var d := Max(Max(r, g), b) - min;
            && 0.0 <= x < 6.0
            && Wave(if x > 4.0 then x - 4.0 else x + 2.0, min, d) == r
            && Wave(x, min, d) == g
            && Wave(if x < 2.0 then x + 4.0 else x - 2.0, min, d) == b
  {
    hide Wave;
    var max, min := Max(Max(r, g), b), Min(Min(r, g), b);
    var d := max - min;
    if max == r {
      var q := Quotient(g - b, d);
      Waves(q + (if g < b then 6.0 else 0.0), min, d, q);
    } else if max == g {
      var q := Quotient(b - r, d);
      Waves(q + 2.0, min, d, q);
    } else {
      var q := Quotient(r - g, d);
      Waves(q + 4.0, min, d, q);
    }
  }

  // The three waves at x, which is q away from an even sixth.
  lemma Waves(x: real, low: real, d: real, q: real)
    requires 0.0 <= x < 6.0 && -1.0 <= q <= 1.0 && (x == q || x == q + 2.0 || x == q + 4.0 || x == q + 6.0)
    ensures Wave(if x > 4.0 then x - 4.0 else x + 2.0, low, d)
         == if x == q || x == q + 6.0 then low + d
            else if x == q + 2.0 then if q < 0.0 then low - d * q else low
            else if q > 0.0 then low + d * q else low
    ensures Wave(x, low, d)
         == if x == q then low + d * q else if x == q + 6.0 then low
            else if x == q + 2.0 then low + d else if q < 0.0 then low - d * q else low
    ensures Wave(if x < 2.0 then x + 4.0 else x - 2.0, low, d)
         == if x == q then low else if x == q + 6.0 then low - d * q
            else if x == q + 2.0 then (if q > 0.0 then low + d * q else low) else low + d
  {
    assert d * (4.0 - (q + 4.0)) == -(d * q) && d * 1.0 == d && d * 0.0 == 0.0;
  }

  lemma SaturationAndBack(max: real, min: real)
    requires 0.0 <= min < max <= 1.0
    ensures var s, l := Saturation(max, min), (max + min) / 2.0;
            0.0 <= s <= 1.0 && Upper(s, l) == max
  {
    var s, l, d := Saturation(max, min), (max + min) / 2.0, max - min;
    if l <= 0.5 {
      s := Quotient(d, max + min);
      assert l * s == d / 2.0;
    } else {
      s := Quotient(d, 2.0 - max - min);
      assert (1.0 - l) * s == d / 2.0;
      assert l + s - l * s == l + (1.0 - l) * s;
    }
  }

  lemma RemainderOfHue(x: real)
    requires 0.0 <= x < 6.0
    ensures Remainder(x / 6.0 * 360.0, 360.0) / 360.0 == x / 6.0
  {
    assert (x / 6.0).Floor == 0;
  }

  // Every colour comes back from its hue, saturation and lightness.
  lemma HslRoundTrip(c: Color)
    requires Channel(c.r) && Channel(c.g) && Channel(c.b) && 0.0 <= c.alpha <= 1.0
    ensures Hsla(ToHsl(c)) == c
  {
    hide Hue, Wave, Saturation, Sixths, Remainder, Upper;
    var r, g, b := c.r / 255.0, c.g / 255.0, c.b / 255.0;
    var max, min := Max(Max(r, g), b), Min(Min(r, g), b);
    var l := (max + min) / 2.0;
    if max == min {
      NoHue(l, c.alpha);
    } else {
      var x, s := Sixths(r, g, b), Saturation(max, min);
      SixthsAndBack(r, g, b);
      SaturationAndBack(max, min);
      RemainderOfHue(x);
      HueAfter(x, min, max);
      HueIsWave(x, min, max);
      HueBefore(x, min, max);
      assert l * 2.0 - max == min && Clamp(s) == s && Clamp(l) == l;
    }
  }

  lemma NoHue(l: real, a: real)
    requires 0.0 <= l <= 1.0 && 0.0 <= a <= 1.0
    ensures Hsla(Hsl(0.0, 0.0, l, a)) == Color(l * 255.0, l * 255.0, l * 255.0, a)
  {
    assert (0.0 / 360.0).Floor == 0;
  }

  // ---------- hues that turn round more than once ----------

  // The same angle from 0 up to 360.
  function Normal(h: real): real {
    h - 360.0 * ((h / 360.0).Floor as real)
  }

  lemma RemainderOrNormal(h: real)
    ensures 0.0 <= Normal(h) < 360.0 && Remainder(Normal(h), 360.0) == Normal(h)
    ensures -360.0 < Remainder(h, 360.0) < 360.0
    ensures Normal(h) == Remainder(h, 360.0) + if Remainder(h, 360.0) < 0.0 then 360.0 else 0.0
  {
    var q := h / 360.0;
    FloorOfNegative(q);
    assert (Normal(h) / 360.0).Floor == 0;
  }

  lemma FloorOfNegative(q: real)
    ensures q.Floor as real <= q < q.Floor as real + 1.0
    ensures (-q).Floor == if q.Floor as real == q then -q.Floor else -q.Floor - 1
  {
  }

  lemma OneTurn(x: real, m1: real, m2: real)
    requires -1.0 <= x
    ensures x < 1.0 / 3.0 ==> Hue(x, m1, m2) == Hue(x + 1.0, m1, m2)
  {
    assert (m2 - m1) * 0.0 * 6.0 == 0.0;
    if x == 0.0 {
      assert Hue(x, m1, m2) == m1;
    }
  }

  // Two thirds of a turn below zero the correction by one turn is not enough.
  lemma TwoTurns(x: real, m1: real, m2: real)
    requires -4.0 / 3.0 < x < -1.0
    ensures Hue(x, m1, m2) == m1 + (m2 - m1) * (x + 1.0) * 6.0
    ensures Hue(x + 1.0, m1, m2) == m1
  {
    assert (x + 2.0) * 3.0 >= 2.0;
  }

  lemma NoSpread(s: real, l: real)
    requires 0.0 <= s <= 1.0 && 0.0 <= l <= 1.0
    ensures Upper(s, l) == l * 2.0 - Upper(s, l) <==> s == 0.0 || l == 0.0 || l == 1.0
  {
    var d := if l <= 0.5 then l * s else (1.0 - l) * s;
    assert Upper(s, l) == l + d by {
      assert l > 0.5 ==> l + s - l * s == l + (1.0 - l) * s;
    }
    if s > 0.0 && 0.0 < l < 1.0 {
      assert d > 0.0;
    }
  }

  // A hue means the same as its angle between 0 and 360, unless it is more than 240 below a full turn
  // and the colour has a hue at all.
  lemma HueWrapsExactlyWhen(hsl: Hsl)
    ensures Hsla(hsl) == Hsla(hsl.(h := Normal(hsl.h))) <==>
              Remainder(hsl.h, 360.0) >= -240.0 || hsl.s <= 0.0 || hsl.l <= 0.0 || hsl.l >= 1.0
  {
    hide Hue, Remainder, Normal, Upper;
    RemainderOrNormal(hsl.h);
    var s, l := Clamp(hsl.s), Clamp(hsl.l);
    var m2 := Upper(s, l);
    var m1 := l * 2.0 - m2;
    NoSpread(s, l);
    var rem := Remainder(hsl.h, 360.0);
    if rem < 0.0 {
      var x := rem / 360.0;
      assert Normal(hsl.h) / 360.0 == x + 1.0;
      OneTurn(x + 1.0 / 3.0, m1, m2);
      OneTurn(x, m1, m2);
      assert x + 1.0 / 3.0 + 1.0 == x + 1.0 + 1.0 / 3.0 && x - 1.0 / 3.0 + 1.0 == x + 1.0 - 1.0 / 3.0;
      if rem >= -240.0 {
        OneTurn(x - 1.0 / 3.0, m1, m2);
      } else {
        TwoTurns(x - 1.0 / 3.0, m1, m2);
        SpreadOrNot(m2 - m1, x - 1.0 / 3.0 + 1.0);
      }
    }
  }

  // A hue of -300 is not taken for one of 60.
  lemma HueOfMinus300()
    ensures Normal(-300.0) == 60.0 && Hsla(Hsl(-300.0, 1.0, 0.5, 1.0)) != Hsla(Hsl(60.0, 1.0, 0.5, 1.0))
  {
    hide Hsla;
    var q := -300.0 / 360.0;
    assert q.Floor == -1 && (-q).Floor == 0;
    assert Remainder(-300.0, 360.0) == -300.0;
    HueWrapsExactlyWhen(Hsl(-300.0, 1.0, 0.5, 1.0));
  }

  lemma SpreadOrNot(d: real, x: real)
    requires x < 0.0
    ensures d * x * 6.0 == 0.0 <==> d == 0.0
  {
  }

  // ---------- hue, saturation and value ----------

  datatype Hsv = Hsv(h: real, s: real, v: real, a: real)

  function ToHsv(c: Color): Hsv {
    var r, g, b := c.r / 255.0, c.g / 255.0, c.b / 255.0;
    var max, min := Max(Max(r, g), b), Min(Min(r, g), b);
    Hsv(if max == min then 0.0 else Sixths(r, g, b) / 6.0 * 360.0, if max == 0.0 then 0.0 else (max - min) / max, max,
        c.alpha)
  }

  // A row of the table of channels; a negative hue has none, which is an exception.
  function Hsva(hsv: Hsv): Option<Color> {
    AtSixth(Remainder(hsv.h, 360.0) / 360.0 * 360.0 / 60.0, hsv.s, hsv.v, hsv.a)
  }

  function AtSixth(x: real, s: real, v: real, a: real): Option<Color> {
    var i := Remainder(x, 6.0).Floor;
    RowAt(i, x - i as real, s, v, a)
  }

  function RowAt(i: int, f: real, s: real, v: real, a: real): Option<Color> {
    Row(i, v, v * (1.0 - s), v * (1.0 - f * s), v * (1.0 - (1.0 - f) * s), a)
  }

  function Row(i: int, v: real, p: real, q: real, t: real, a: real): Option<Color> {
    if i == 0 then Some(Rgba(v, t, p, a))
    else if i == 1 then Some(Rgba(q, v, p, a))
    else if i == 2 then Some(Rgba(p, v, t, a))
    else if i == 3 then Some(Rgba(p, q, v, a))
    else if i == 4 then Some(Rgba(t, p, v, a))
    else if i == 5 then Some(Rgba(v, p, q, a))
    else None
  }

  function Rgba(r: real, g: real, b: real, a: real): Color {
    Color(r * 255.0, g * 255.0, b * 255.0, a)
  }

  // The row for x holds the three waves.
  lemma RowsAreWaves(x: real, i: int, f: real, low: real, d: real, p: real, q: real, t: real, v: real)
    requires 0.0 <= x < 6.0 && i == x.Floor && f == x - i as real
    requires v == low + d && p == low && q == low + (1.0 - f) * d && t == low + f * d
    ensures Wave(if x > 4.0 then x - 4.0 else x + 2.0, low, d)
         == if i == 0 || i == 5 then v else if i == 1 then q else if i == 4 then t else p
    ensures Wave(x, low, d) == if i == 0 then t else if i == 1 || i == 2 then v else if i == 3 then q else p
    ensures Wave(if x < 2.0 then x + 4.0 else x - 2.0, low, d)
         == if i == 2 then t else if i == 3 || i == 4 then v else if i == 5 then q else p
  {
    assert d * f == f * d && d * (1.0 - f) == (1.0 - f) * d;
    if i == 1 {
      assert 4.0 - (x + 2.0) == 1.0 - f;
    } else if i == 4 {
      assert x == 4.0 ==> f * d == 0.0;
    } else if i == 5 {
      assert 4.0 - (x - 2.0) == 1.0 - f;
    }
  }

  lemma ValuesOfRow(v: real, s: real, d: real, f: real)
    requires v * s == d
    ensures v * (1.0 - s) == v - d
    ensures v * (1.0 - f * s) == v - d + (1.0 - f) * d
    ensures v * (1.0 - (1.0 - f) * s) == v - d + f * d
  {
    assert v * (f * s) == f * (v * s);
    assert v * ((1.0 - f) * s) == (1.0 - f) * (v * s);
  }

  lemma RowOfWaves(x: real, low: real, d: real, v: real, p: real, q: real, t: real, a: real)
    requires 0.0 <= x < 6.0 && v == low + d && p == low
    requires var f := x - x.Floor as real; q == low + (1.0 - f) * d && t == low + f * d
    ensures Row(x.Floor, v, p, q, t, a)
         == Some(Rgba(Wave(if x > 4.0 then x - 4.0 else x + 2.0, low, d), Wave(x, low, d),
                      Wave(if x < 2.0 then x + 4.0 else x - 2.0, low, d), a))
  {
    hide Wave;
    RowsAreWaves(x, x.Floor, x - x.Floor as real, low, d, p, q, t, v);
  }

  lemma AtSixthIsWaves(x: real, low: real, d: real, s: real, v: real, a: real)
    requires 0.0 <= x < 6.0 && v * s == d && v == low + d
    ensures AtSixth(x, s, v, a)
         == Some(Rgba(Wave(if x > 4.0 then x - 4.0 else x + 2.0, low, d), Wave(x, low, d),
                      Wave(if x < 2.0 then x + 4.0 else x - 2.0, low, d), a))
  {
    hide Wave, RowAt, Remainder;
    RowOfHue(x);
    RowAtIsWaves(x, x - x.Floor as real, low, d, s, v, a);
  }

  lemma RowAtIsWaves(x: real, f: real, low: real, d: real, s: real, v: real, a: real)
    requires 0.0 <= x < 6.0 && f == x - x.Floor as real && v * s == d && v == low + d
    ensures RowAt(x.Floor, f, s, v, a)
         == Some(Rgba(Wave(if x > 4.0 then x - 4.0 else x + 2.0, low, d), Wave(x, low, d),
                      Wave(if x < 2.0 then x + 4.0 else x - 2.0, low, d), a))
  {
    hide Wave, Row;
    ValuesOfRow(v, s, d, f);
    RowOfWaves(x, low, d, v, v * (1.0 - s), v * (1.0 - f * s), v * (1.0 - (1.0 - f) * s), a);
  }

  lemma FlatWave(low: real)
    ensures forall x :: Wave(x, low, 0.0) == low
  {
  }

  lemma RowOfHue(x: real)
    requires 0.0 <= x < 6.0
    ensures Remainder(x / 6.0 * 360.0, 360.0) / 360.0 * 360.0 / 60.0 == x
    ensures Remainder(x, 6.0) == x && 0 <= x.Floor <= 5
  {
    assert (x / 6.0).Floor == 0;
  }

  lemma HsvRoundTrip(c: Color)
    requires Channel(c.r) && Channel(c.g) && Channel(c.b)
    ensures Hsva(ToHsv(c)) == Some(c)
  {
    hide Sixths, Remainder, Wave, AtSixth;
    var r, g, b := c.r / 255.0, c.g / 255.0, c.b / 255.0;
    var max, min := Max(Max(r, g), b), Min(Min(r, g), b);
    var d := max - min;
    var s := if max == 0.0 then 0.0 else d / max;
    var x := if max == min then 0.0 else Sixths(r, g, b);
    if max != min {
      SixthsAndBack(r, g, b);
    } else {
      FlatWave(max);
    }
    RowOfHue(x);
    AtSixthIsWaves(x, min, d, s, max, c.alpha);
  }
}
