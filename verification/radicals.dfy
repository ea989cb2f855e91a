/** Radicals (`gmathml_view_measure_radical`): the radical sign is an operator
    stretched over its content plus a margin, and the root index is placed
    relative to the resulting box. */
module Radicals {
  import opened Wrappers
  import opened Numeric
  import opened Boxes
  import opened Shaping
  import opened Glyphs
  import opened Operators

  /** The radical's constants: the text of the radical sign, the top-line
      width and medium space as fractions of the font size, and the root
      index offsets as fractions of the radical box. */
  datatype RadicalConstants = RadicalConstants(text: string, topLineWidth: real, mediumSpaceEm: real,
                                               orderXOffset: real, orderYOffset: real)

  /** The radical's box and where its root index goes. */
  datatype RadicalMetrics = RadicalMetrics(bbox: Bbox, xOffset: real, yOffset: real)

  /** The thickness of the top line: a snapped fraction of the font size,
      never below one device unit on a raster surface. */
  function TopLineThickness(isVector: bool, mathSize: real, c: RadicalConstants): (t: real)
    ensures isVector ==> t == mathSize * c.topLineWidth
    ensures !isVector ==> IsInteger(t) && t >= 1.0
    ensures !isVector ==> t == Max(1.0, MeasureLength(mathSize * c.topLineWidth, false))
  {
    var t := MeasureLength(mathSize * c.topLineWidth, isVector);
    if !isVector && t < 1.0 then 1.0 else t
  }

  /** The medium space at the current size, snapped. */
  function MediumSpace(isVector: bool, mathSize: real, c: RadicalConstants): real
  {
    MeasureLength(c.mediumSpaceEm * mathSize, isVector)
  }

  /** A non-negative medium space stays non-negative when snapped. */
  lemma MediumSpaceNonNegative(isVector: bool, mathSize: real, c: RadicalConstants)
    requires c.mediumSpaceEm * mathSize >= 0.0
    ensures MediumSpace(isVector, mathSize, c) >= 0.0
  {
    SnappingCoversWholeNumbers(0.0, c.mediumSpaceEm * mathSize, isVector);
  }

  /** The target the radical sign is stretched to: the given target with a
      medium space and the top line added above and a medium space added
      below; its width and whether it is defined are copied unchanged. */
  function RadicalStretchBox(isVector: bool, mathSize: real, c: RadicalConstants, stretch: Bbox): (r: Bbox)
    ensures r.width == stretch.width && r.isDefined == stretch.isDefined
    ensures r.depth - stretch.depth == MediumSpace(isVector, mathSize, c)
    ensures r.height - stretch.height == (r.depth - stretch.depth) + TopLineThickness(isVector, mathSize, c)
    ensures c.mediumSpaceEm * mathSize >= 0.0 ==>
              r.height >= stretch.height + TopLineThickness(isVector, mathSize, c) && r.depth >= stretch.depth
  {
    var thickness := TopLineThickness(isVector, mathSize, c);
    var space := MediumSpace(isVector, mathSize, c);
    SnappingCoversWholeNumbers(0.0, c.mediumSpaceEm * mathSize, isVector);
    stretch.(height := stretch.height + space + thickness, depth := stretch.depth + space)
  }

  /** The root index offsets of `m` relative to its box: fractions of the
      box's width and of its total height, the latter lowered by an unsnapped
      medium space; exact on a vector surface, and on a raster surface whole
      numbers within half a unit of those values. */
  predicate IndexPlaced(isVector: bool, mathSize: real, c: RadicalConstants, m: RadicalMetrics)
  {
    var x := m.bbox.width * c.orderXOffset;
    var y := (m.bbox.height + m.bbox.depth) * c.orderYOffset - c.mediumSpaceEm * mathSize;
    && (isVector ==> m.xOffset == x && m.yOffset == y)
    && (!isVector ==> IsInteger(m.xOffset) && -0.5 < m.xOffset - x <= 0.5)
    && (!isVector ==> IsInteger(m.yOffset) && -0.5 < m.yOffset - y <= 0.5)
  }

  /** Where the root index goes relative to a radical box: snapped
      fractions of its width and of its total height, the latter lowered by
      an unsnapped medium space. */
  function RootIndexOffsets(isVector: bool, mathSize: real, c: RadicalConstants, b: Bbox): (m: RadicalMetrics)
    ensures m.bbox == b
    ensures IndexPlaced(isVector, mathSize, c, m)
  {
    RadicalMetrics(b,
                   MeasureLength(b.width * c.orderXOffset, isVector),
                   MeasureLength((b.height + b.depth) * c.orderYOffset - c.mediumSpaceEm * mathSize, isVector))
  }

  /** The radical sign measured against the inflated target takes that
      target's height and depth when it stretches vertically, and its
      natural size when there is no target. */
  lemma RadicalSignBox(isVector: bool, e: Element, c: RadicalConstants, stretch: Bbox,
                       find: string -> Option<OperatorGlyph>, shape: FontRequest -> Layout)
    requires ValidLookup(find, c.text)
    ensures var target := RadicalStretchBox(isVector, e.mathSize, c, stretch);
            var b := MeasureOperator(isVector, e, Some(c.text), false, false, 0.0, target, find, shape);
            && (find(c.text).Some? && find(c.text).value.flags.stretchVertical && stretch.isDefined ==>
                  b.height == target.height && b.depth == target.depth)
            && (!stretch.isDefined ==>
                  b == MeasureOperator(isVector, e, Some(c.text), false, false, 0.0, NullBbox, find, shape))
  {
    var target := RadicalStretchBox(isVector, e.mathSize, c, stretch);
    if find(c.text).Some? && find(c.text).value.flags.stretchVertical && stretch.isDefined {
      StretchedOperatorFollowsTarget(isVector, e, c.text, false, false, 0.0, target, find, shape);
    }
    if !stretch.isDefined {
      UndefinedTargetsMeasureAlike(isVector, e, c.text, false, false, 0.0, target, NullBbox, find, shape);
    }
  }

  /** The box of the radical sign: the sign measured as a plain operator
      against the inflated target. */
  function RadicalSign(isVector: bool, e: Element, c: RadicalConstants, stretch: Bbox,
                       find: string -> Option<OperatorGlyph>, shape: FontRequest -> Layout): (b: Bbox)
    requires ValidLookup(find, c.text)
    ensures b.isDefined
    ensures find(c.text).Some? && find(c.text).value.flags.stretchVertical && stretch.isDefined ==>
              && b.height == stretch.height + MediumSpace(isVector, e.mathSize, c)
                             + TopLineThickness(isVector, e.mathSize, c)
              && b.depth == stretch.depth + MediumSpace(isVector, e.mathSize, c)
    ensures !stretch.isDefined ==>
              b == MeasureOperator(isVector, e, Some(c.text), false, false, 0.0, NullBbox, find, shape)
  {
    RadicalSignBox(isVector, e, c, stretch, find, shape);
    MeasureOperator(isVector, e, Some(c.text), false, false, 0.0,
                    RadicalStretchBox(isVector, e.mathSize, c, stretch), find, shape)
  }

  /** `gmathml_view_measure_radical`: the radical sign is measured as a
      plain (not large, not symmetric, no axis offset) operator against the
      inflated target, then the root index is placed relative to its box.
      With a target and a vertically stretchy sign the box is exactly the
      inflated target; without a target the sign has its natural size. */
  function MeasureRadical(isVector: bool, e: Element, c: RadicalConstants, stretch: Bbox,
                          find: string -> Option<OperatorGlyph>, shape: FontRequest -> Layout): (m: RadicalMetrics)
    requires ValidLookup(find, c.text)
    ensures m.bbox.isDefined
    ensures find(c.text).Some? && find(c.text).value.flags.stretchVertical && stretch.isDefined ==>
              && m.bbox.height == stretch.height + MediumSpace(isVector, e.mathSize, c)
                                  + TopLineThickness(isVector, e.mathSize, c)
              && m.bbox.depth == stretch.depth + MediumSpace(isVector, e.mathSize, c)
    ensures !stretch.isDefined ==>
              m.bbox == MeasureOperator(isVector, e, Some(c.text), false, false, 0.0, NullBbox, find, shape)
    ensures IndexPlaced(isVector, e.mathSize, c, m)
  {
    var b := RadicalSign(isVector, e, c, stretch, find, shape);
    var m := RootIndexOffsets(isVector, e.mathSize, c, b);
    assert m.bbox == b;
    m
  }

  /** With a target and a vertically stretchy radical sign, the radical box
      clears the content by the top line above and reaches at least as far
      below, when the medium space is not negative. */
  lemma RadicalCoversContent(isVector: bool, e: Element, c: RadicalConstants, stretch: Bbox,
                             find: string -> Option<OperatorGlyph>, shape: FontRequest -> Layout)
    requires find(c.text).Some? && ValidGlyph(find(c.text).value)
    requires find(c.text).value.flags.stretchVertical && stretch.isDefined
    requires c.mediumSpaceEm * e.mathSize >= 0.0
    ensures var m := MeasureRadical(isVector, e, c, stretch, find, shape);
            && m.bbox.height >= stretch.height + TopLineThickness(isVector, e.mathSize, c)
            && m.bbox.depth >= stretch.depth
  {
    MediumSpaceNonNegative(isVector, e.mathSize, c);
  }
}
