/** Operators: choosing the sized glyph of an operator, building its box
    (`gmathml_view_measure_operator`) and the paint-time glyph choice and
    scaling (`gmathml_view_show_operator`). */
module Operators {
  import opened Wrappers
  import opened Numeric
  import opened Boxes
  import opened Shaping
  import opened Glyphs

  /** The two places that resolve an operator glyph: measuring and painting.
      They run the same search from different start indices. */
  datatype Pass = MeasurePass | PaintPass

  /** Where the sized-glyph search starts. Measuring jumps to the large
      rendering only for a large operator with no stretch target; painting
      jumps to it for every large operator. */
  function StartIndex(pass: Pass, large: bool, flags: GlyphFlags, stretch: Bbox): (i: nat)
    ensures i <= 1
    ensures pass == MeasurePass ==> (i == 1 <==> large && flags.hasLargeVersion && !stretch.isDefined)
    ensures pass == PaintPass ==> (i == 1 <==> large && flags.hasLargeVersion)
  {
    match pass
    case MeasurePass => if large && flags.hasLargeVersion && !stretch.isDefined then 1 else 0
    case PaintPass => if large && flags.hasLargeVersion then 1 else 0
  }

  /** The font size set before the search: the large rendering is shaped at
      the element's own size; otherwise a large operator is scaled up. */
  function SizedFontSize(e: Element, large: bool, start: nat): int
  {
    if start == 1 then FontSize(e.mathSize, 1.0) else FontSize(e.mathSize, LargeScale(large))
  }

  /** The ink of every sized rendering of `g`, shaped at `size`. */
  function CandidateInks(g: OperatorGlyph, size: int, shape: FontRequest -> Layout): (inks: seq<Rect>)
    ensures |inks| == |g.sizedGlyphs|
    ensures forall j :: 0 <= j < |inks| ==> inks[j] == shape(CandidateRequest(g.sizedGlyphs[j], size)).ink
  {
    seq(|g.sizedGlyphs|, j requires 0 <= j < |g.sizedGlyphs| => shape(CandidateRequest(g.sizedGlyphs[j], size)).ink)
  }

  /** The outcome of resolving an operator: what was shaped last, what
      shaping reported for it, the table flags (none for an unlisted
      operator) and the index of the chosen rendering (none for an unlisted
      operator). */
  datatype Resolution = Resolution(request: FontRequest, layout: Layout, flags: GlyphFlags, index: Option<nat>)

  /** Glyph resolution shared by measuring and painting. An operator missing
      from the table is shaped as plain text; a listed one gets the first
      sized rendering from the start index on that the search accepts, or
      the last rendering. */
  function Resolve(pass: Pass, text: string, e: Element, large: bool, stretch: Bbox,
                   find: string -> Option<OperatorGlyph>, shape: FontRequest -> Layout): (r: Resolution)
    requires ValidLookup(find, text)
    ensures r.layout == shape(r.request)
    ensures find(text).None? ==>
              r.index.None? && r.flags == NoFlags && r.request == TextRequest(text, e, large)
    ensures find(text).Some? ==>
              var g := find(text).value;
              var start := StartIndex(pass, large, g.flags, stretch);
              var size := SizedFontSize(e, large, start);
              && r.flags == g.flags
              && r.index.Some? && start <= r.index.value < |g.sizedGlyphs|
              && r.request == CandidateRequest(g.sizedGlyphs[r.index.value], size)
              && (Accepts(r.layout.ink, g.flags, stretch) || r.index.value == |g.sizedGlyphs| - 1)
              && forall j :: start <= j < r.index.value ==>
                   !Accepts(shape(CandidateRequest(g.sizedGlyphs[j], size)).ink, g.flags, stretch)
  {
    match find(text)
    case None =>
      var request := TextRequest(text, e, large);
      Resolution(request, shape(request), NoFlags, None)
    case Some(g) =>
      var start := StartIndex(pass, large, g.flags, stretch);
      var size := SizedFontSize(e, large, start);
      var inks := CandidateInks(g, size, shape);
      var k := SelectSized(inks, start, g.flags, stretch);
      var request := CandidateRequest(g.sizedGlyphs[k], size);
      Resolution(request, shape(request), g.flags, Some(k))
  }

  /** The box of a resolved operator before axis handling: the stretch
      target's vertical extent on a vertically stretchy entry with a target,
      the ink's otherwise; the target's width on a horizontally stretchy
      entry with a target, the ink's otherwise. */
  function BaseOperatorBox(l: Layout, flags: GlyphFlags, stretch: Bbox): Bbox
  {
    var ink := InkBox(l);
    var vertical := stretch.isDefined && flags.stretchVertical;
    Bbox(if stretch.isDefined && flags.stretchHorizontal then stretch.width else ink.width,
         if vertical then stretch.height else ink.height,
         if vertical then stretch.depth else ink.depth,
         true)
  }

  /** Box assembly of `gmathml_view_measure_operator`: the base box, then the
      axis split for an axis-aligned operator at natural size, then the
      symmetric re-split for a vertically stretched symmetric operator. */
  function AssembleOperatorBox(l: Layout, flags: GlyphFlags, symmetric: bool, axisOffset: real,
                               stretch: Bbox, isVector: bool): (b: Bbox)
    ensures b.isDefined
    ensures b.width == if stretch.isDefined && flags.stretchHorizontal then stretch.width
                       else UnitsToReal(l.ink.width)
    // natural size, centred on the axis
    ensures !stretch.isDefined && flags.alignAxis ==>
              && b.height == MeasureLength(0.5 * UnitsToReal(l.ink.height) + axisOffset, isVector)
              && b.depth == MeasureLength(0.5 * UnitsToReal(l.ink.height) - axisOffset, isVector)
    // the ink decides the vertical extent
    ensures !(stretch.isDefined && flags.stretchVertical) && !(!stretch.isDefined && flags.alignAxis) ==>
              && b.height == UnitsToReal(l.baseline) - UnitsToReal(l.ink.y)
              && b.height + b.depth == UnitsToReal(l.ink.height)
    // the stretch target decides it
    ensures stretch.isDefined && flags.stretchVertical && !symmetric ==>
              b.height == stretch.height && b.depth == stretch.depth
    // ... and is made symmetric about the axis
    ensures stretch.isDefined && flags.stretchVertical && symmetric && isVector ==>
              && b.height - axisOffset == b.depth + axisOffset
              && b.height >= stretch.height && b.depth >= stretch.depth
              && (b.height == stretch.height || b.depth == stretch.depth)
    ensures stretch.isDefined && flags.stretchVertical && symmetric && !isVector ==>
              && IsInteger(b.height) && IsInteger(b.depth)
              && -1.0 < (b.height - axisOffset) - (b.depth + axisOffset) < 1.0
              && (IsInteger(stretch.height) && IsInteger(stretch.depth) ==>
                    b.height >= stretch.height && b.depth >= stretch.depth)
  {
    var base := BaseOperatorBox(l, flags, stretch);
    var aligned := if !stretch.isDefined && flags.alignAxis then AlignOnAxis(base, axisOffset, isVector) else base;
    var result := if stretch.isDefined && symmetric && flags.stretchVertical
                  then StretchSymmetrically(aligned, axisOffset, isVector) else aligned;
    result.(isDefined := true)
  }

  /** `gmathml_view_measure_operator`: no text gives the null box without a
      table lookup; otherwise the operator is resolved for measuring and its
      box assembled, and the result is always defined. */
  function MeasureOperator(isVector: bool, e: Element, text: Option<string>, large: bool, symmetric: bool,
                           axisOffset: real, stretch: Bbox,
                           find: string -> Option<OperatorGlyph>, shape: FontRequest -> Layout): (b: Bbox)
    requires text.Some? ==> ValidLookup(find, text.value)
    ensures text.None? ==> b == NullBbox
    ensures text.Some? ==> b.isDefined
    ensures text.Some? ==>
              var res := Resolve(MeasurePass, text.value, e, large, stretch, find, shape);
              b.width == if stretch.isDefined && res.flags.stretchHorizontal then stretch.width
                         else UnitsToReal(res.layout.ink.width)
  {
    match text
    case None => NullBbox
    case Some(t) =>
      var res := Resolve(MeasurePass, t, e, large, stretch, find, shape);
      AssembleOperatorBox(res.layout, res.flags, symmetric, axisOffset, stretch, isVector)
  }

  /** A target that is not defined is never looked at: measuring against
      any two undefined targets gives the same box, so an operator without a
      target is measured at its natural size. */
  lemma UndefinedTargetsMeasureAlike(isVector: bool, e: Element, text: string, large: bool, symmetric: bool,
                                     axisOffset: real, s1: Bbox, s2: Bbox,
                                     find: string -> Option<OperatorGlyph>, shape: FontRequest -> Layout)
    requires ValidLookup(find, text)
    requires !s1.isDefined && !s2.isDefined
    ensures MeasureOperator(isVector, e, Some(text), large, symmetric, axisOffset, s1, find, shape)
            == MeasureOperator(isVector, e, Some(text), large, symmetric, axisOffset, s2, find, shape)
  {
    var r1 := Resolve(MeasurePass, text, e, large, s1, find, shape);
    var r2 := Resolve(MeasurePass, text, e, large, s2, find, shape);
    if find(text).Some? {
      var g := find(text).value;
      var start := StartIndex(MeasurePass, large, g.flags, s1);
      assert start == StartIndex(MeasurePass, large, g.flags, s2);
      var inks := CandidateInks(g, SizedFontSize(e, large, start), shape);
      SelectWithoutTarget(inks, start, g.flags, s1);
      SelectWithoutTarget(inks, start, g.flags, s2);
    }
    assert r1 == r2;
  }

  /** An operator missing from the table is measured exactly like text at
      the (possibly enlarged) operator size: no stretching and no axis
      alignment apply to it. */
  lemma UnlistedOperatorIsPlainText(isVector: bool, e: Element, text: string, large: bool, symmetric: bool,
                                    axisOffset: real, stretch: Bbox,
                                    find: string -> Option<OperatorGlyph>, shape: FontRequest -> Layout)
    requires find(text).None?
    ensures MeasureOperator(isVector, e, Some(text), large, symmetric, axisOffset, stretch, find, shape)
            == InkBox(shape(TextRequest(text, e, large)))
  {
    var res := Resolve(MeasurePass, text, e, large, stretch, find, shape);
    assert res.flags == NoFlags;
  }

  /** A large operator with a large rendering and no stretch target is
      measured with that rendering (index 1) at the element's own size, and
      its box comes from that rendering's ink. */
  lemma LargeOperatorAtNaturalSize(isVector: bool, e: Element, text: string, symmetric: bool,
                                   axisOffset: real, stretch: Bbox,
                                   find: string -> Option<OperatorGlyph>, shape: FontRequest -> Layout)
    requires find(text).Some? && ValidGlyph(find(text).value)
    requires find(text).value.flags.hasLargeVersion && !stretch.isDefined
    ensures var g := find(text).value;
            var res := Resolve(MeasurePass, text, e, true, stretch, find, shape);
            var b := MeasureOperator(isVector, e, Some(text), true, symmetric, axisOffset, stretch, find, shape);
            && res.index == Some(1)
            && res.request == CandidateRequest(g.sizedGlyphs[1], FontSize(e.mathSize, 1.0))
            && b.width == UnitsToReal(res.layout.ink.width)
            && (!g.flags.alignAxis ==> b.height + b.depth == UnitsToReal(res.layout.ink.height))
            && (g.flags.alignAxis && isVector ==> b.height + b.depth == UnitsToReal(res.layout.ink.height))
  {
    var g := find(text).value;
    var res := Resolve(MeasurePass, text, e, true, stretch, find, shape);
    assert StartIndex(MeasurePass, true, g.flags, stretch) == 1;
    assert res.index.value == 1;
  }

  /** On a vector surface an axis-aligned operator at natural size keeps its
      ink's total height and is split so that it straddles the math axis. */
  lemma AxisAlignedOperatorStraddlesAxis(e: Element, text: string, large: bool, symmetric: bool,
                                         axisOffset: real, stretch: Bbox,
                                         find: string -> Option<OperatorGlyph>, shape: FontRequest -> Layout)
    requires find(text).Some? && ValidGlyph(find(text).value)
    requires find(text).value.flags.alignAxis && !stretch.isDefined
    ensures var res := Resolve(MeasurePass, text, e, large, stretch, find, shape);
            var b := MeasureOperator(true, e, Some(text), large, symmetric, axisOffset, stretch, find, shape);
            && b.height + b.depth == UnitsToReal(res.layout.ink.height)
            && b.height - b.depth == 2.0 * axisOffset
  {
  }

  /** A vertically stretchy operator with a stretch target takes the
      target's height and depth; a symmetric one on a vector surface grows to
      the smallest box around the target that is centred on the axis. */
  lemma StretchedOperatorFollowsTarget(isVector: bool, e: Element, text: string, large: bool, symmetric: bool,
                                       axisOffset: real, stretch: Bbox,
                                       find: string -> Option<OperatorGlyph>, shape: FontRequest -> Layout)
    requires find(text).Some? && ValidGlyph(find(text).value)
    requires find(text).value.flags.stretchVertical && stretch.isDefined
    ensures var b := MeasureOperator(isVector, e, Some(text), large, symmetric, axisOffset, stretch, find, shape);
            && (!symmetric ==> b.height == stretch.height && b.depth == stretch.depth)
            && (symmetric && isVector ==>
                  && b.height - axisOffset == b.depth + axisOffset
                  && b.height >= stretch.height && b.depth >= stretch.depth
                  && (b.height == stretch.height || b.depth == stretch.depth))
  {
  }

  /** The start indices of the two passes differ exactly for a large
      operator with a large rendering that is given a stretch target. */
  lemma PassesDivergeExactly(large: bool, flags: GlyphFlags, stretch: Bbox)
    ensures StartIndex(MeasurePass, large, flags, stretch) != StartIndex(PaintPass, large, flags, stretch)
            <==> large && flags.hasLargeVersion && stretch.isDefined
  {
  }

  /** Outside that case, painting with a stretch target re-resolves exactly
      the glyph that measuring chose. */
  lemma PaintMatchesMeasure(text: string, e: Element, large: bool, stretch: Bbox,
                            find: string -> Option<OperatorGlyph>, shape: FontRequest -> Layout)
    requires ValidLookup(find, text)
    requires !(large && find(text).Some? && find(text).value.flags.hasLargeVersion)
    ensures Resolve(PaintPass, text, e, large, stretch, find, shape)
            == Resolve(MeasurePass, text, e, large, stretch, find, shape)
  {
  }

  /** In that case the two passes can disagree: when every rendering is
      taller than the target, measuring takes the first rendering at the
      enlarged size while painting takes the large rendering at the
      element's size. */
  lemma LargeStretchedOperatorDiverges(text: string, e: Element, stretch: Bbox,
                                       find: string -> Option<OperatorGlyph>, shape: FontRequest -> Layout)
    requires find(text).Some? && ValidGlyph(find(text).value)
    requires find(text).value.flags.hasLargeVersion && find(text).value.flags.stretchVertical
    requires stretch.isDefined
    requires forall r :: UnitsToReal(shape(r).ink.height) > stretch.height + stretch.depth
    ensures var g := find(text).value;
            var measured := Resolve(MeasurePass, text, e, true, stretch, find, shape);
            var painted := Resolve(PaintPass, text, e, true, stretch, find, shape);
            && measured.index == Some(0)
            && measured.request == CandidateRequest(g.sizedGlyphs[0], FontSize(e.mathSize, LargeOpScale))
            && painted.index == Some(1)
            && painted.request == CandidateRequest(g.sizedGlyphs[1], FontSize(e.mathSize, 1.0))
  {
    var g := find(text).value;
    var measured := Resolve(MeasurePass, text, e, true, stretch, find, shape);
    var painted := Resolve(PaintPass, text, e, true, stretch, find, shape);
    var m := measured.index.value;
    var p := painted.index.value;
    assert StartIndex(MeasurePass, true, g.flags, stretch) == 0;
    assert StartIndex(PaintPass, true, g.flags, stretch) == 1;
  }

  /** A paint of an operator glyph: the request that was shaped and its
      layout, the point the transform is anchored at, the scale factors, and
      where the layout's origin lands in the scaled frame. */
  datatype OperatorPaint = OperatorPaint(request: FontRequest, layout: Layout,
                                         originX: real, originY: real,
                                         scaleX: real, scaleY: real,
                                         penX: real, penY: real)

  /** Device coordinates of the painted ink's edges. */
  function InkLeft(p: OperatorPaint): real
  {
    p.originX + p.scaleX * (p.penX + UnitsToReal(p.layout.ink.x))
  }

  function InkRight(p: OperatorPaint): real
  {
    p.originX + p.scaleX * (p.penX + UnitsToReal(p.layout.ink.x + p.layout.ink.width))
  }

  function InkTop(p: OperatorPaint): real
  {
    p.originY + p.scaleY * (p.penY + UnitsToReal(p.layout.ink.y))
  }

  function InkBottom(p: OperatorPaint): real
  {
    p.originY + p.scaleY * (p.penY + UnitsToReal(p.layout.ink.y + p.layout.ink.height))
  }

  /** Dividing a target extent by a non-zero ink extent gives the factor
      that scales the ink onto the target. */
  lemma ScaleOntoTarget(ink: real, target: real)
    requires ink != 0.0
    ensures (target / ink) * ink == target
  {
  }

  /** One axis of the placement: after moving the pen back by the ink's
      near edge and scaling by target over ink extent, the ink's near edge
      lands on the anchor and its far edge one target extent further. */
  lemma ScaledSpan(anchor: real, scale: real, pen: real, lo: real, hi: real, ext: real, target: real)
    requires ext != 0.0 && scale == target / ext && pen == -lo && hi == lo + ext
    ensures anchor + scale * (pen + lo) == anchor
    ensures anchor + scale * (pen + hi) == anchor + target
    ensures scale == 0.0 <==> target == 0.0
  {
    ScaleOntoTarget(ext, target);
    assert pen + hi == ext;
    assert pen + lo == 0.0;
  }

  /** The transform `gmathml_view_show_operator` applies to a chosen glyph
      with non-empty ink: anchor at the top of the target, scale the ink
      onto the target, then move the layout so that its ink starts at the
      anchor. */
  function PlaceGlyph(res: Resolution, x: real, y: real, stretch: Bbox): (p: OperatorPaint)
    requires res.layout.ink.width != 0 && res.layout.ink.height != 0
    ensures p.request == res.request && p.layout == res.layout
    ensures InkLeft(p) == x && InkRight(p) == x + stretch.width
    ensures InkTop(p) == y - stretch.height && InkBottom(p) == y + stretch.depth
    ensures p.scaleX == 0.0 <==> stretch.width == 0.0
    ensures p.scaleY == 0.0 <==> stretch.height + stretch.depth == 0.0
  {
    var ink := res.layout.ink;
    var w := UnitsToReal(ink.width);
    var h := UnitsToReal(ink.height);
    var top := y - stretch.height;
    var sx := stretch.width / w;
    var sy := (stretch.height + stretch.depth) / h;
    var px := -UnitsToReal(ink.x);
    var py := -UnitsToReal(ink.y);
    UnitsToRealLinear(ink.x, ink.width);
    UnitsToRealLinear(ink.y, ink.height);
    ScaledSpan(x, sx, px, UnitsToReal(ink.x), UnitsToReal(ink.x + ink.width), w, stretch.width);
    ScaledSpan(top, sy, py, UnitsToReal(ink.y), UnitsToReal(ink.y + ink.height), h,
               stretch.height + stretch.depth);
    var p := OperatorPaint(res.request, res.layout, x, top, sx, sy, px, py);
    assert InkLeft(p) == x + sx * (px + UnitsToReal(ink.x));
    assert InkRight(p) == x + sx * (px + UnitsToReal(ink.x + ink.width));
    assert InkTop(p) == top + sy * (py + UnitsToReal(ink.y));
    assert InkBottom(p) == top + sy * (py + UnitsToReal(ink.y + ink.height));
    assert top + (stretch.height + stretch.depth) == y + stretch.depth;
    p
  }

  /** `gmathml_view_show_operator` without the drawing: nothing is painted
      without text or without a stretch target, nor when the chosen ink is
      empty along either axis; otherwise the chosen glyph is scaled so that
      its ink exactly fills the stretch target placed at (x, y). A target of
      zero width or zero total height gives a zero scale factor. */
  function ShowOperator(e: Element, x: real, y: real, text: Option<string>, large: bool, stretch: Bbox,
                        find: string -> Option<OperatorGlyph>, shape: FontRequest -> Layout): (p: Option<OperatorPaint>)
    requires text.Some? ==> ValidLookup(find, text.value)
    ensures p.Some? <==>
              && text.Some? && stretch.isDefined
              && var ink := Resolve(PaintPass, text.value, e, large, stretch, find, shape).layout.ink;
                 ink.width != 0 && ink.height != 0
    ensures p.Some? ==>
              && p.value.request == Resolve(PaintPass, text.value, e, large, stretch, find, shape).request
              && InkLeft(p.value) == x && InkRight(p.value) == x + stretch.width
              && InkTop(p.value) == y - stretch.height && InkBottom(p.value) == y + stretch.depth
              && (p.value.scaleX == 0.0 <==> stretch.width == 0.0)
              && (p.value.scaleY == 0.0 <==> stretch.height + stretch.depth == 0.0)
  {
    if text.None? || !stretch.isDefined then None
    else
      var res := Resolve(PaintPass, text.value, e, large, stretch, find, shape);
      if res.layout.ink.width == 0 || res.layout.ink.height == 0 then None
      else Some(PlaceGlyph(res, x, y, stretch))
  }
}
