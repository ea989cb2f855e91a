/** The seam to the text-shaping library. Shaping itself is a parameter of
    every operation (`shape: FontRequest -> Layout`): a deterministic function
    from a font request to the ink rectangle and baseline it reports, both in
    Pango units. This module also holds the style context an element exposes
    and the font request the view builds from it for plain text. */
module Shaping {
  import opened Wrappers
  import opened Numeric
  import opened Boxes

  /** An ink rectangle in Pango units; `y` is measured downward from the top
      of the layout, like the baseline. */
  datatype Rect = Rect(x: int, y: int, width: int, height: int)

  /** What shaping reports: the ink rectangle and the baseline of the layout. */
  datatype Layout = Layout(ink: Rect, baseline: int)

  datatype FontStyle = StyleNormal | StyleItalic

  /** The font description and text handed to the shaping library; `size` is
      in Pango units and is an integer, as the library's setter takes one. */
  datatype FontRequest = FontRequest(text: string, family: string, size: int, style: FontStyle)

  /** The math variants the view distinguishes; every other variant is shaped
      like `Normal`. */
  datatype Variant = Normal | Italic | OtherVariant

  datatype Color = Color(red: real, green: real, blue: real, alpha: real)

  /** The style attributes of the current element. */
  datatype Element = Element(mathSize: real, mathVariant: Variant, mathColor: Color, mathBackground: Color)

  /** Scale applied to a large operator that has no large glyph of its own. */
  const LargeOpScale: real := 1.6

  function LargeScale(large: bool): real
  {
    if large then LargeOpScale else 1.0
  }

  /** The font size in Pango units: the product is converted to the library's
      integer argument, so its fraction is dropped. */
  function FontSize(mathSize: real, scale: real): (size: int)
    ensures mathSize * scale >= 0.0 ==>
              size as real <= mathSize * scale * PangoScale as real < size as real + 1.0
    ensures mathSize * scale < 0.0 ==>
              size as real - 1.0 < mathSize * scale * PangoScale as real <= size as real
  {
    Trunc(mathSize * PangoScale as real * scale)
  }

  function VariantStyle(v: Variant): FontStyle
  {
    if v == Italic then StyleItalic else StyleNormal
  }

  /** `gmathml_view_update_layout`: plain text is shaped in the serif family,
      at the element's size (scaled for a large operator), italic exactly when
      the element's variant is italic. */
  function TextRequest(text: string, e: Element, large: bool): (r: FontRequest)
    ensures r.text == text && r.family == "Serif"
    ensures e.mathSize >= 0.0 ==>
              r.size as real <= e.mathSize * PangoScale as real * (if large then LargeOpScale else 1.0)
                                < r.size as real + 1.0
    ensures e.mathSize < 0.0 ==>
              r.size as real - 1.0 < e.mathSize * PangoScale as real * (if large then LargeOpScale else 1.0)
                                     <= r.size as real
    ensures r.style == StyleItalic <==> e.mathVariant == Italic
  {
    FontRequest(text, "Serif", FontSize(e.mathSize, LargeScale(large)), VariantStyle(e.mathVariant))
  }

  /** A large operator's text is never shaped smaller than the same text at
      the element's size, and the two requests differ in nothing else. */
  lemma LargeTextIsNotSmaller(text: string, e: Element)
    requires e.mathSize >= 0.0
    ensures TextRequest(text, e, false).size <= TextRequest(text, e, true).size
    ensures TextRequest(text, e, true) == TextRequest(text, e, false).(size := TextRequest(text, e, true).size)
  {
    var base := e.mathSize * PangoScale as real;
    assert base * 1.0 <= base * LargeOpScale;
    TruncMonotone(e.mathSize * PangoScale as real * 1.0, e.mathSize * PangoScale as real * LargeOpScale);
  }

  /** The box of a shaped layout read off its ink: the height is the part of
      the ink above the baseline, the depth the part below it. */
  function InkBox(l: Layout): (b: Bbox)
    ensures b.isDefined
    ensures b.width == UnitsToReal(l.ink.width)
    ensures b.height == UnitsToReal(l.baseline) - UnitsToReal(l.ink.y)
    ensures b.height + b.depth == UnitsToReal(l.ink.height)
  {
    UnitsToRealLinear(l.baseline, l.ink.y);
    UnitsToRealLinear(l.ink.height + l.ink.y, l.baseline);
    UnitsToRealLinear(l.ink.height, l.ink.y);
    Bbox(UnitsToReal(l.ink.width),
         UnitsToReal(l.baseline - l.ink.y),
         UnitsToReal(l.ink.height + l.ink.y - l.baseline),
         true)
  }

  /** `gmathml_view_measure_text`: no text gives the null box without any
      shaping; otherwise the box is the ink box of the unscaled serif text. */
  function MeasureText(text: Option<string>, e: Element, shape: FontRequest -> Layout): (b: Bbox)
    ensures text.None? ==> b == NullBbox
    ensures text.Some? ==>
              var l := shape(TextRequest(text.value, e, false));
              && b.isDefined
              && b.width == UnitsToReal(l.ink.width)
              && b.height == UnitsToReal(l.baseline) - UnitsToReal(l.ink.y)
              && b.height + b.depth == UnitsToReal(l.ink.height)
  {
    match text
    case None => NullBbox
    case Some(t) => InkBox(shape(TextRequest(t, e, false)))
  }
}
