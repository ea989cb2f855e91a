/** The fraction bar (`gmathml_view_draw_fraction_line`) reduced to the stroke
    it emits: an integer line width, a pixel-aligned start point on raster
    surfaces, and translucency standing in for a bar thinner than a pixel. */
module FractionLines {
  import opened Numeric
  import opened Shaping

  /** A horizontal stroke from (x0, y) to (x1, y). */
  datatype Stroke = Stroke(x0: real, x1: real, y: real, lineWidth: int, color: Color)

  /** Half an even width is a whole number of units. */
  lemma HalfOfEven(w: int)
    requires w % 2 == 0
    ensures IsInteger(w as real / 2.0)
  {
    var k := w / 2;
    assert w == 2 * k;
    HalfOfDouble(k, w);
  }

  /** Half an odd width is a whole number and a half. */
  lemma HalfOfOdd(w: int)
    requires w % 2 != 0
    ensures IsInteger(w as real / 2.0 - 0.5)
  {
    var k := w / 2;
    assert w == 2 * k + 1;
    HalfOfDouble(k, w - 1);
    assert w as real / 2.0 - 0.5 == (w - 1) as real / 2.0;
  }

  lemma HalfOfDouble(k: int, w: int)
    requires w == 2 * k
    ensures w as real / 2.0 == k as real
    ensures IsInteger(w as real / 2.0)
  {
  }

  /** Where the view puts a raster bar coordinate `v` for a stroke of width
      `lineWidth`: the edges, half a width away, fall on whole units, and
      the coordinate lies within half a unit of `v` from the parity's
      threshold up (-0.5 for an even width, 0 for an odd one) but half a
      unit to one and a half units above `v` below it, because `(int)`
      moves negative values up toward zero. */
  predicate CastAligned(r: real, v: real, lineWidth: int)
  {
    var threshold := if lineWidth % 2 == 0 then -0.5 else 0.0;
    && IsInteger(r - lineWidth as real / 2.0)
    && (threshold <= v ==> -0.5 < r - v <= 0.5)
    && (v < threshold ==> 0.5 <= r - v < 1.5)
  }

  /** The alignment the rounding is evidently meant to give: the edges on
      whole units and the coordinate within half a unit of `v`, whatever its
      sign. */
  predicate NearestAligned(r: real, v: real, lineWidth: int)
  {
    && IsInteger(r - lineWidth as real / 2.0)
    && -0.5 < r - v <= 0.5
  }

  /** Two coordinates whose edges fall on whole units for the same width
      and that are less than a unit apart are equal. */
  lemma AlignedCoordinatesMeet(r1: real, r2: real, lineWidth: int)
    requires IsInteger(r1 - lineWidth as real / 2.0) && IsInteger(r2 - lineWidth as real / 2.0)
    requires -1.0 < r1 - r2 < 1.0
    ensures r1 == r2
  {
    IntegerDifference(r1 - lineWidth as real / 2.0, r2 - lineWidth as real / 2.0);
    var d := r1 - r2;
    assert d == (r1 - lineWidth as real / 2.0) - (r2 - lineWidth as real / 2.0);
    assert d.Floor as real == d;
    assert d.Floor == 0;
  }

  /** Each description fixes the coordinate: no two coordinates meet it. */
  lemma AlignmentIsUnique(r1: real, r2: real, v: real, lineWidth: int)
    ensures CastAligned(r1, v, lineWidth) && CastAligned(r2, v, lineWidth) ==> r1 == r2
    ensures NearestAligned(r1, v, lineWidth) && NearestAligned(r2, v, lineWidth) ==> r1 == r2
  {
    if IsInteger(r1 - lineWidth as real / 2.0) && IsInteger(r2 - lineWidth as real / 2.0)
       && -1.0 < r1 - r2 < 1.0 {
      AlignedCoordinatesMeet(r1, r2, lineWidth);
    }
  }

  /** The two descriptions agree from the parity's threshold up. */
  lemma AlignmentsAgreeAboveThreshold(r: real, v: real, lineWidth: int)
    requires (if lineWidth % 2 == 0 then -0.5 else 0.0) <= v
    ensures CastAligned(r, v, lineWidth) <==> NearestAligned(r, v, lineWidth)
  {
  }

  /** Rounding by truncation: `(int) (v + 0.5)`, a whole number. */
  function RoundByCast(v: real): (r: real)
    ensures IsInteger(r)
    ensures -0.5 <= v ==> -0.5 < r - v <= 0.5
    ensures v < -0.5 ==> 0.5 <= r - v < 1.5
  {
    Trunc(v + 0.5) as real
  }

  /** Centring on a pixel by truncation: `0.5 + (int) v`, a half. */
  function CentreByCast(v: real): (r: real)
    ensures IsInteger(r - 0.5)
    ensures 0.0 <= v ==> -0.5 < r - v <= 0.5
    ensures v < 0.0 ==> 0.5 <= r - v < 1.5
  {
    var n := Trunc(v);
    assert (0.5 + n as real) - 0.5 == n as real;
    0.5 + n as real
  }

  /** Raster alignment of one coordinate for a given line width, as the
      view does it: `(int) (v + 0.5)` for an even width, `0.5 + (int) v` for
      an odd one. */
  function AlignForWidth(v: real, lineWidth: int): (r: real)
    ensures CastAligned(r, v, lineWidth)
  {
    if lineWidth % 2 == 0 then
      var r := RoundByCast(v);
      HalfOfEven(lineWidth);
      IntegerDifference(r, lineWidth as real / 2.0);
      r
    else
      var r := CentreByCast(v);
      HalfOfOdd(lineWidth);
      IntegerDifference(r - 0.5, lineWidth as real / 2.0 - 0.5);
      r
  }

  /** The same alignment with `floor` in place of the casts, which rounds to
      the nearest whole (even width) or half (odd width) unit for negative
      coordinates too. */
  function AlignForWidthNearest(v: real, lineWidth: int): (r: real)
    ensures NearestAligned(r, v, lineWidth)
  {
    if lineWidth % 2 == 0 then
      var r := (v + 0.5).Floor as real;
      HalfOfEven(lineWidth);
      IntegerDifference(r, lineWidth as real / 2.0);
      r
    else
      var n := v.Floor;
      var r := 0.5 + n as real;
      assert r - 0.5 == n as real;
      HalfOfOdd(lineWidth);
      IntegerDifference(r - 0.5, lineWidth as real / 2.0 - 0.5);
      r
  }

  /** The bar's colour: the element's colour, made translucent by the
      thickness on a raster surface when the bar is thinner than one unit. */
  function BarColor(isVector: bool, thickness: real, color: Color): Color
  {
    color.(alpha := if thickness < 1.0 && !isVector then thickness else color.alpha)
  }

  /** `gmathml_view_draw_fraction_line` as written: the line width is the
      thickness cast to an integer, after adding one half on raster
      surfaces, and raster coordinates are aligned by casts. */
  function DrawFractionLine(isVector: bool, x: real, y: real, width: real, thickness: real,
                            color: Color): (s: Stroke)
    ensures isVector ==> s.lineWidth == Trunc(thickness) && s.x0 == x && s.y == y
    ensures !isVector ==> s.lineWidth == Trunc(thickness + 0.5)
    ensures !isVector && thickness >= -0.5 ==>
              thickness - 0.5 < s.lineWidth as real <= thickness + 0.5
    ensures !isVector ==> CastAligned(s.x0, x, s.lineWidth) && CastAligned(s.y, y, s.lineWidth)
    ensures s.x1 == s.x0 + width
    ensures s.color.red == color.red && s.color.green == color.green && s.color.blue == color.blue
    ensures s.color.alpha == thickness <== thickness < 1.0 && !isVector
    ensures s.color.alpha == color.alpha <== !(thickness < 1.0 && !isVector)
  {
    var lineWidth := if isVector then Trunc(thickness) else Trunc(thickness + 0.5);
    var x0 := if isVector then x else AlignForWidth(x, lineWidth);
    var y0 := if isVector then y else AlignForWidth(y, lineWidth);
    Stroke(x0, x0 + width, y0, lineWidth, BarColor(isVector, thickness, color))
  }

  /** As written, a raster bar thinner than half a unit gets line width 0,
      so the translucency meant to stand in for it has nothing to act on:
      width times alpha is 0 rather than the thickness. */
  lemma HairlineVanishes(x: real, y: real, width: real, thickness: real, color: Color)
    requires 0.0 < thickness < 0.5
    ensures var s := DrawFractionLine(false, x, y, width, thickness, color);
            s.lineWidth == 0 && s.color.alpha == thickness
            && s.lineWidth as real * s.color.alpha != thickness
  {
  }

  /** As written, a bar above the baseline (negative y) on a raster surface
      drifts toward it: thickness 2 at y = -1.4 is drawn at 0, 1.4 units
      away, where the nearest whole unit is -1. */
  lemma BarAboveBaselineDrifts(x: real, width: real, color: Color)
    ensures var s := DrawFractionLine(false, x, -1.4, width, 2.0, color);
            s.lineWidth == 2 && s.y == 0.0
            && DrawFractionLineCorrected(false, x, -1.4, width, 2.0, color).y == -1.0
  {
    assert Trunc(2.5) == 2;
    assert Trunc(-0.9) == 0;
    AlignmentIsUnique(DrawFractionLineCorrected(false, x, -1.4, width, 2.0, color).y, -1.0, -1.4, 2);
  }

  /** The width of the corrected bar: on a raster surface a bar of positive
      thickness is at least one unit wide, as the radical's top line is. */
  function CorrectedLineWidth(isVector: bool, thickness: real): (w: int)
    ensures !isVector && 0.0 < thickness ==> w >= 1
    ensures !isVector && 0.0 < thickness < 1.0 ==> w == 1
    ensures isVector || thickness <= 0.0 || thickness >= 0.5 ==>
              w == if isVector then Trunc(thickness) else Trunc(thickness + 0.5)
  {
    var rounded := if isVector then Trunc(thickness) else Trunc(thickness + 0.5);
    if !isVector && 0.0 < thickness && rounded < 1 then 1 else rounded
  }

  /** The bar with the evident intent restored: a raster bar of positive
      thickness is at least one unit wide, so that its translucency carries
      its weight, and raster coordinates are rounded to the nearest aligned
      position whatever their sign. */
  function DrawFractionLineCorrected(isVector: bool, x: real, y: real, width: real, thickness: real,
                                     color: Color): (s: Stroke)
    ensures !isVector && 0.0 < thickness ==> s.lineWidth >= 1
    ensures !isVector && 0.0 < thickness < 1.0 ==>
              s.lineWidth as real * s.color.alpha == thickness
    ensures !isVector ==> NearestAligned(s.x0, x, s.lineWidth) && NearestAligned(s.y, y, s.lineWidth)
    ensures isVector ==> s.x0 == x && s.y == y
  {
    var lineWidth := CorrectedLineWidth(isVector, thickness);
    var x0 := if isVector then x else AlignForWidthNearest(x, lineWidth);
    var y0 := if isVector then y else AlignForWidthNearest(y, lineWidth);
    Stroke(x0, x0 + width, y0, lineWidth, BarColor(isVector, thickness, color))
  }

  /** The correction changes nothing but the vanishing hairlines and the
      coordinates below the alignment threshold. */
  lemma CorrectedBarAgreesOtherwise(isVector: bool, x: real, y: real, width: real, thickness: real,
                                    color: Color)
    requires isVector || ((thickness <= 0.0 || thickness >= 0.5) && 0.0 <= x && 0.0 <= y)
    ensures DrawFractionLineCorrected(isVector, x, y, width, thickness, color)
            == DrawFractionLine(isVector, x, y, width, thickness, color)
  {
    var a := DrawFractionLine(isVector, x, y, width, thickness, color);
    var b := DrawFractionLineCorrected(isVector, x, y, width, thickness, color);
    if !isVector {
      assert a.lineWidth == b.lineWidth;
      AlignmentsAgreeAboveThreshold(a.x0, x, a.lineWidth);
      AlignmentsAgreeAboveThreshold(a.y, y, a.lineWidth);
      AlignmentIsUnique(a.x0, b.x0, x, a.lineWidth);
      AlignmentIsUnique(a.y, b.y, y, a.lineWidth);
    }
  }
}
