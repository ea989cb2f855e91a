# GMathML view: box geometry and glyph decisions

This project models the geometry and decision logic of the MathML view of
GMathML (`src/gmathmlview.c`). It covers the following:

- snapping lengths to device units on raster surfaces;
- measuring text and operators from the ink rectangle and baseline that
  text shaping reports;
- choosing among an operator's sized glyph renderings, and building its box
  from the stretch target, the math axis and the symmetric-stretch rule;
- the paint-time re-choice of the glyph, and the scaling that makes it fill
  its stretch target;
- the inflated stretch target of a radical, and where its root index goes;
- the stroke parameters of a fraction bar;
- the push/pop discipline of the element context, and how a render resets
  and cleans it up.

Text shaping and the operator glyph table are parameters of the model. A
`shape: FontRequest -> Layout` function maps a font request (text, family,
integer size in Pango units, style) to an ink rectangle and a baseline in
Pango units. A `find: string -> Option<OperatorGlyph>` function is the table
lookup. Both are deterministic, so measuring twice gives the same box.
Lengths are Dafny `real`s. `floor` is Dafny's `.Floor` of a real. C `(int)` casts, and the
conversion of a double to the library's integer font size, are
`Numeric.Trunc`, which truncates toward zero.

Modules: `Numeric` (units, truncation), `Boxes` (the box, length snapping,
axis split, symmetric stretch), `Shaping` (the shaping seam, element style,
text measurement), `Glyphs` (the glyph table and the sized-glyph search),
`Operators` (resolution, operator box, paint-time choice and scale),
`Radicals`, `FractionLines` and `ElementStacks`.

Behaviour of the code that is easy to misread:

- With a stretch target, the glyph search accepts a candidate only when its
  ink is strictly larger than the target. Without one, the first candidate
  is taken. Either stretchy axis is enough to accept it; the
  flagged axes do not all have to reach the target.
- Measuring an operator starts the search at the large rendering only when
  there is no stretch target. Painting starts there for every large
  operator that has a large rendering. So for a large operator with a
  stretch target, the two can choose different glyphs
  (`Operators.LargeStretchedOperatorDiverges`). This is kept as written.
- Among operators with text and a stretch target, the paint is skipped
  only when the chosen ink width or height is exactly 0, not when it is
  negative.
- The paint-time scale factors are always applied, whether the chosen
  glyph is smaller or larger than the target. So for a target of non-zero
  width and non-zero total height, the painted ink fills the target
  exactly. A target of zero width or zero total height gives a zero scale
  factor.
- Boxes are not folded to non-negative height and depth. Ink that lies
  wholly above the baseline gives a negative depth.
- After a render with dangling elements, the element list is emptied but
  the current element is not cleared
  (`ElementStacks.DanglingRenderLeavesStaleCurrent`).
- On a raster surface, a fraction bar thinner than half a unit gets line
  width 0. See Findings.
- On a raster surface, the fraction bar's coordinates are aligned with
  `(int)` casts, which truncate toward zero. A bar above the baseline has
  a negative y, so it moves up to one and a half units toward the baseline
  instead of to the nearest aligned position. See Findings.

## Model

| member | source | states |
|---|---|---|
| Numeric.Trunc | src/gmathmlview.c:737-743 | an `(int)` cast is the integer within one unit of its argument on the side of zero |
| Numeric.TruncVersusFloor | src/gmathmlview.c:739-743 | truncation equals `floor` on non-negative values and is one more on negative non-integers |
| Boxes.MeasureLength | src/gmathmlview.c:66-75 | vector: the length is unchanged; raster: the result is a whole number within (-0.5, +0.5] of the length |
| Boxes.MeasureLengthUnique | src/gmathmlview.c:66-75 | raster snapping is the only whole number in that window |
| Boxes.MeasureLengthIdempotent | src/gmathmlview.c:66-75 | snapping a snapped length changes nothing |
| Boxes.MeasureLengthMonotone | src/gmathmlview.c:66-75 | snapping preserves the order of lengths |
| Boxes.AlignOnAxis | src/gmathmlview.c:366-372 | vector: the total height is kept and height minus depth is twice the axis offset; raster: both hold to within one unit, with whole-number height and depth |
| Boxes.SnappingCoversWholeNumbers | src/gmathmlview.c:66-75 | raster snapping never drops a length below a whole number that it is at least |
| Boxes.StretchSymmetrically | src/gmathmlview.c:374-380 | vector: the box is centred on the axis, contains the original, and keeps one side unchanged (smallest such box); raster: whole numbers, centred to within one unit, and still containing a whole-number box |
| Glyphs.FontNamesDistinct | src/gmathmlview.c:36-44 | every font of the table requests its own family name, and only the default font's name is empty |
| Shaping.FontSize | src/gmathmlview.c:95-96 | the integer font size is the scaled size in Pango units with its fraction dropped, toward zero for either sign |
| Shaping.TextRequest | src/gmathmlview.c:94-109 | text is shaped in the serif family; the integer size is within one unit below (above, for a negative size) the element's size in Pango units, times 1.6 for a large operator; italic exactly for the italic variant |
| Shaping.LargeTextIsNotSmaller | src/gmathmlview.c:94-96 | a large operator's text is never shaped at a smaller size than at the element's size, and nothing else in the request changes |
| Shaping.InkBox | src/gmathmlview.c:199-202 | the box width is the ink width, the height is the ink above the baseline, and height plus depth is the ink height |
| Shaping.MeasureText | src/gmathmlview.c:192-202 | no text gives the null box; otherwise a defined box read off the ink of the unscaled text |
| Glyphs.SelectSized | src/gmathmlview.c:311-342 | the chosen index is the first accepted candidate from the start index, or the last candidate when none is accepted |
| Glyphs.SelectSizedUnique | src/gmathmlview.c:311-342 | that description determines the chosen index |
| Glyphs.SelectWithoutTarget | src/gmathmlview.c:323-326 | without a stretch target the candidate at the start index is chosen |
| Glyphs.ExactFitIsRejected | src/gmathmlview.c:328-338 | ink exactly as tall and as wide as the target is not accepted |
| Glyphs.SelectFallsBackToLast | src/gmathmlview.c:311-342 | when no candidate is accepted, the last rendering is chosen |
| Operators.Resolve | src/gmathmlview.c:287-352 | a table miss is shaped as plain text with no flags; a hit is shaped from the first accepted rendering from the start index (or the last one), at the size set before the search, and carries the entry's flags |
| Operators.AssembleOperatorBox | src/gmathmlview.c:354-382 | width from the target or the ink; height and depth from the ink, the axis split or the target, by case; a symmetric stretched box is centred on the axis and contains the target (on raster surfaces: whole numbers, centred to within one unit, containing a whole-number target); always defined |
| Operators.UndefinedTargetsMeasureAlike | src/gmathmlview.c:311-380 | an undefined stretch target is never read: any two undefined targets give the same box |
| Operators.MeasureOperator | src/gmathmlview.c:257-383 | no text gives the null box; otherwise the box is defined, with its width from the target or the resolved ink |
| Operators.UnlistedOperatorIsPlainText | src/gmathmlview.c:287-293 | an operator missing from the table gets the ink box of its text at operator size |
| Operators.LargeOperatorAtNaturalSize | src/gmathmlview.c:299-303 | a large operator with a large rendering and no target is measured from rendering 1 at the element's own size |
| Operators.AxisAlignedOperatorStraddlesAxis | src/gmathmlview.c:366-372 | vector: an axis-aligned operator keeps its ink height and straddles the axis by twice the offset |
| Operators.StretchedOperatorFollowsTarget | src/gmathmlview.c:354-380 | a vertically stretchy operator takes the target's height and depth, or, when symmetric on a vector surface, the smallest axis-centred box around it |
| Operators.PassesDivergeExactly | src/gmathmlview.c:418-421 | the two start indices differ exactly for a large operator with a large rendering and a stretch target |
| Operators.PaintMatchesMeasure | src/gmathmlview.c:410-468 | outside that case painting re-resolves exactly the glyph measuring chose |
| Operators.LargeStretchedOperatorDiverges | src/gmathmlview.c:418-427 | in that case, with every rendering tall enough, measuring takes rendering 0 at 1.6 times the size, and painting takes rendering 1 at the element's size |
| Operators.PlaceGlyph | src/gmathmlview.c:473-494 | the scaled glyph's ink spans exactly from the top-left to the bottom-right of the stretch target at (x, y); a scale factor is zero exactly when the target has zero width or zero total height |
| Operators.ShowOperator | src/gmathmlview.c:403-494 | painting happens exactly when there is text, a stretch target, and non-zero chosen ink; the painted ink then spans the target, and a scale factor is zero exactly for a target of zero width or zero total height |
| Radicals.TopLineThickness | src/gmathmlview.c:523-526 | vector: size times the top-line ratio; raster: that snapped, but never below 1 |
| Radicals.RadicalStretchBox | src/gmathmlview.c:521-535 | the target gains a medium space below and a medium space plus the top line above; width and definedness are unchanged |
| Radicals.RootIndexOffsets | src/gmathmlview.c:540-549 | the root index sits at fractions of the radical box's width and total height, the latter lowered by an unsnapped medium space; exact on vector surfaces, whole numbers within half a unit of them on raster surfaces |
| Radicals.RadicalSign | src/gmathmlview.c:521-538 | the sign's box is defined; with a target and a vertically stretchy sign it is the target grown by a medium space below and a medium space plus the top line above; without a target it is the sign's natural box |
| Radicals.MeasureRadical | src/gmathmlview.c:510-550 | the radical box is defined, is the inflated target for a vertically stretchy sign with a target and the natural box without one, and the root index offsets are placed relative to that box |
| Radicals.RadicalCoversContent | src/gmathmlview.c:528-538 | with a target, a vertically stretchy sign and a non-negative medium space, the box clears the content by the top line above and reaches at least as far below |
| FractionLines.RoundByCast | src/gmathmlview.c:739-740 | `(int)(v + 0.5)` is a whole number within half a unit of v from -0.5 up, and half a unit to one and a half units above v below -0.5 |
| FractionLines.CentreByCast | src/gmathmlview.c:742-743 | `0.5 + (int) v` is a half within half a unit of a non-negative v, and half a unit to one and a half units above a negative v |
| FractionLines.AlignForWidth | src/gmathmlview.c:738-744 | for either parity of the width the stroke's edges land on whole units, and the coordinate is within half a unit of v above the parity's threshold and pushed up toward zero below it |
| FractionLines.AlignmentIsUnique | src/gmathmlview.c:738-744 | each of the two alignment descriptions (by cast, to the nearest) determines the coordinate |
| FractionLines.AlignmentsAgreeAboveThreshold | src/gmathmlview.c:738-744 | above the parity's threshold the cast alignment is the nearest alignment |
| FractionLines.DrawFractionLine | src/gmathmlview.c:722-755 | vector: width is the truncated thickness and the position is unchanged; raster: width is the thickness rounded half up and both coordinates are cast-aligned; the colour is kept except that alpha becomes the thickness below one unit on raster surfaces |
| FractionLines.HairlineVanishes | src/gmathmlview.c:737-751 | a raster bar thinner than half a unit has width 0 while its alpha is set to the thickness |
| FractionLines.BarAboveBaselineDrifts | src/gmathmlview.c:737-740 | a raster bar of thickness 2 at y = -1.4 is drawn at 0, where the corrected bar is at -1 |
| FractionLines.AlignForWidthNearest | src/gmathmlview.c:738-744 | with `floor` in place of the casts, the edges land on whole units and the coordinate is within half a unit of v for every v |
| FractionLines.CorrectedLineWidth | src/gmathmlview.c:734-737 | a raster bar of positive thickness is at least one unit wide, exactly one below one unit, and otherwise as wide as written |
| FractionLines.DrawFractionLineCorrected | src/gmathmlview.c:734-751 | a raster bar of positive thickness is at least one unit wide, below one unit its width times alpha equals the thickness, and its coordinates are at the nearest aligned positions |
| FractionLines.CorrectedBarAgreesOtherwise | src/gmathmlview.c:734-751 | the corrected bar equals the bar as written on vector surfaces, and on raster surfaces for thicknesses outside (0, 0.5) at non-negative coordinates |
| ElementStacks.RemoveFirst | src/gmathmlview.c:713 | removing the value at the head of the list drops exactly the head |
| ElementStacks.Push | src/gmathmlview.c:698-705 | a null element changes nothing; otherwise it is prepended and becomes current |
| ElementStacks.Pop | src/gmathmlview.c:707-719 | an empty list is unchanged; otherwise the head is dropped and the new head, or null, becomes current |
| ElementStacks.PushThenPopRestores | src/gmathmlview.c:698-719 | pop after push gives back a consistent context unchanged |
| ElementStacks.Run | src/gmathmlview.c:698-719 | any sequence of pushes and pops keeps the current element equal to the head of the list |
| ElementStacks.RunKeepsBase | src/gmathmlview.c:698-719 | calls that never pop below their start leave the starting list under exactly as many new elements as the nesting depth |
| ElementStacks.WellNestedRunRestores | src/gmathmlview.c:698-719 | properly nested calls give back a consistent starting context |
| ElementStacks.Render | src/gmathmlview.c:800-827 | after a render the element list is empty; the warning is issued exactly when the walk left elements behind; the refused push and pop calls of the walk are counted |
| ElementStacks.RefusalsAccountForLength | src/gmathmlview.c:698-719 | the list is never longer than the start plus the nesting depth plus the refused calls |
| ElementStacks.NestedCallsAreNeverRefused | src/gmathmlview.c:698-719 | calls that never pop below their start and push no null element are never refused |
| ElementStacks.OverPoppingIsRefused | src/gmathmlview.c:707-713 | a walk from the empty context that pops more than it pushes has at least one refused call per surplus pop |
| ElementStacks.RenderReportsRefusedCalls | src/gmathmlview.c:698-719 | a render reports no refused call for a properly nested walk without null pushes, and at least one per surplus pop otherwise |
| ElementStacks.RenderIgnoresPriorContext | src/gmathmlview.c:800-801 | the context held before a render does not affect its outcome |
| ElementStacks.WellNestedRenderIsClean | src/gmathmlview.c:823-827 | a properly nested walk ends with an empty context and no warning |
| ElementStacks.DanglingRenderLeavesStaleCurrent | src/gmathmlview.c:823-827 | any walk that leaves elements behind, however it nested, draws the warning and ends with an empty list but a stale current element |

## Findings

| source | as written | input that shows it | evidently intended | confidence | as-written member | corrected member |
|---|---|---|---|---|---|---|
| src/gmathmlview.c:737-751 | on a raster surface the bar's line width is `(int)(thickness + 0.5)`, and its alpha is the thickness when that is below 1 | raster surface, thickness 0.4: line width 0, alpha 0.4 | a positive thickness gives a bar at least one unit wide, so that the alpha substitution carries the hairline's weight (the radical's top line is clamped to 1 at lines 525-526) | medium, not executed | FractionLines.HairlineVanishes | FractionLines.DrawFractionLineCorrected |
| src/gmathmlview.c:738-744 | on a raster surface the bar's coordinates are aligned with `(int)` casts, which round toward zero, so `(int)(y + 0.5)` rounds to the nearest whole unit only for y >= -0.5 | raster surface, thickness 2, y = -1.4: the bar is drawn at y = 0 rather than -1; render lays the root out with its baseline at y = 0 (lines 813-816), so bars above it have negative y | the nearest whole unit (even width) or half unit (odd width), as for non-negative coordinates | medium, not executed | FractionLines.BarAboveBaselineDrifts | FractionLines.DrawFractionLineCorrected |

The fraction bar is a leaf of the model: nothing else in it uses the bar's
parameters. `FractionLines.DrawFractionLine` stays the as-written model, and
`FractionLines.DrawFractionLineCorrected` carries both corrections.

## Left out

- Pango and Cairo calls are not modelled. This covers font description
  set-up, layout extents and iterators, glyph blitting, the debug rectangles
  of `gmathml_view_show_layout`, `gmathml_view_show_text`,
  `gmathml_view_show_background`, `gmathml_view_show_bbox`,
  `gmathml_view_show_rectangle`, `gmathml_view_show_line` and the drawing
  part of `gmathml_view_show_radical`. These are foreign library calls.
  Shaping is the `shape` parameter, and painting is reduced to the values
  handed to the library.
- `gmathml_view_measure_axis_offset` is not modelled: its value comes
  entirely from shaping the minus sign. The axis offset is an input.
- `gmathml_view_measure_hairline` is `MeasureLength(1.0)` and has no
  member of its own.
- The recursive measure, layout and render over the element tree are not
  modelled, because the element implementations are not part of this
  model. The tree walk is the sequence of push and pop calls it makes. The
  same goes for `gmathml_view_measure`.
- Object lifecycle is not modelled: `set_cairo`, `new`, `init`,
  `finalize`, `class_init`, reference counting, `set_debug` and debug
  logging.
- The view-pointer and element-pointer guards (`g_return_if_fail`) are not
  modelled. Elements are values, and an element context is always present
  where one is read. The null-element guard of push and the empty-list
  guard of pop are modelled: the call changes nothing, and a render counts
  such refused calls (`ElementStacks.Render`'s `refusedCalls`), which
  stand for the critical messages the guards log. The message text is not
  modelled.
- Operators.ShowOperator: a target of zero width or zero total height
  gives a zero scale factor, which is stated. What the drawing library does
  with that singular scale is not modelled. It refuses the scale and puts
  the drawing context into an error state, so nothing more is drawn on it.
- The vector/raster flag is an input. In the source it is derived from
  the surface type when a Cairo context is attached.
- What the shaping library does with a negative font size is not modelled.
  The request carries the truncated value for either sign, as the view
  computes it.
- IEEE double arithmetic is not modelled: lengths are exact reals, and the
  1.6 large-operator scale is exact. Out-of-range double-to-int
  conversions are not modelled.
- The radical constants (sign text, top-line ratio, medium space, root
  index offsets) are a parameter record. The header that defines them is
  not part of this model. The null box is assumed to be all zeros and
  undefined.
- Only the normal and italic variants are told apart, because every other
  variant is shaped in the normal style. The full variant list lives in a
  header that is not part of this model.
- Glyph table entries are assumed to have at least one rendering, and a
  second one when they claim a large version (`Glyphs.ValidGlyph`). The
  code reads an unset ink rectangle otherwise.
- `src/gmathmltest.c` is not modelled. It is a test driver that walks
  directories, matches file names, and writes PNG and HTML output.
