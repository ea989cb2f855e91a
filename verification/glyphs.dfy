/** The operator glyph table as the view consults it: each entry lists sized
    renderings of one operator, smallest first, and flags that say whether
    the operator has a distinct large rendering, which axes it may stretch
    along, and whether it is centred on the math axis. The table itself is a
    parameter (`find: string -> Option<OperatorGlyph>`). */
module Glyphs {
  import opened Wrappers
  import opened Numeric
  import opened Boxes
  import opened Shaping

  /** The fonts a sized glyph may name, in the order of the view's font-name
      table. */
  datatype Font = DefaultFont | Sans | Cmr10 | Cmmi10 | Cmex10 | Cmsy10 | SymbolFont

  /** `gmathml_font_names`: the family requested for each font. */
  function FontName(f: Font): string
  {
    match f
    case DefaultFont => ""
    case Sans => "Sans"
    case Cmr10 => "cmr10"
    case Cmmi10 => "cmmi10"
    case Cmex10 => "cmex10"
    case Cmsy10 => "cmsy10"
    case SymbolFont => "symbol"
  }

  /** Every font requests a family of its own, and only the default font
      leaves the family empty. */
  lemma FontNamesDistinct(f: Font, g: Font)
    ensures f != g ==> FontName(f) != FontName(g)
    ensures FontName(f) == "" <==> f == DefaultFont
  {
  }

  datatype GlyphFlags = GlyphFlags(hasLargeVersion: bool, stretchVertical: bool,
                                   stretchHorizontal: bool, alignAxis: bool)

  /** The flags of an operator that is not in the table. */
  const NoFlags: GlyphFlags := GlyphFlags(false, false, false, false)

  datatype SizedGlyph = SizedGlyph(font: Font, utf8: string)

  datatype OperatorGlyph = OperatorGlyph(sizedGlyphs: seq<SizedGlyph>, flags: GlyphFlags)

  /** What the view needs of a table entry: at least one rendering, and a
      second one when the entry claims a large version (the search may start
      at index 1). An entry without them would leave the ink rectangle unset. */
  predicate ValidGlyph(g: OperatorGlyph)
  {
    |g.sizedGlyphs| >= 1 && (g.flags.hasLargeVersion ==> |g.sizedGlyphs| >= 2)
  }

  /** The lookup for `text` is either a miss or a valid entry. */
  predicate ValidLookup(find: string -> Option<OperatorGlyph>, text: string)
  {
    find(text).Some? ==> ValidGlyph(find(text).value)
  }

  /** The request that shapes one sized rendering: its own text and font, the
      size chosen before the search, and the normal style. */
  function CandidateRequest(g: SizedGlyph, size: int): FontRequest
  {
    FontRequest(g.utf8, FontName(g.font), size, StyleNormal)
  }

  /** Whether the search stops at a candidate with this ink. Without a
      stretch target the first candidate is taken; with one, a candidate is
      taken as soon as it is strictly taller than the target's total height
      on a vertically stretchy entry, or strictly wider than the target on a
      horizontally stretchy one: either axis is enough. */
  predicate Accepts(ink: Rect, flags: GlyphFlags, stretch: Bbox)
  {
    || !stretch.isDefined
    || (flags.stretchVertical && UnitsToReal(ink.height) > stretch.height + stretch.depth)
    || (flags.stretchHorizontal && UnitsToReal(ink.width) > stretch.width)
  }

  /** The sized-glyph search: the first candidate from `start` on that is
      accepted, or the last candidate when none is. */
  function SelectSized(inks: seq<Rect>, start: nat, flags: GlyphFlags, stretch: Bbox): (k: nat)
    requires start < |inks|
    ensures start <= k < |inks|
    ensures Accepts(inks[k], flags, stretch) || k == |inks| - 1
    ensures forall j :: start <= j < k ==> !Accepts(inks[j], flags, stretch)
    decreases |inks| - start
  {
    if Accepts(inks[start], flags, stretch) || start == |inks| - 1 then start
    else SelectSized(inks, start + 1, flags, stretch)
  }

  /** The search result is the only index with those three properties. */
  lemma SelectSizedUnique(inks: seq<Rect>, start: nat, flags: GlyphFlags, stretch: Bbox, k: nat)
    requires start <= k < |inks|
    requires Accepts(inks[k], flags, stretch) || k == |inks| - 1
    requires forall j :: start <= j < k ==> !Accepts(inks[j], flags, stretch)
    ensures SelectSized(inks, start, flags, stretch) == k
  {
  }

  /** Without a stretch target the candidate at the start index is chosen. */
  lemma SelectWithoutTarget(inks: seq<Rect>, start: nat, flags: GlyphFlags, stretch: Bbox)
    requires start < |inks| && !stretch.isDefined
    ensures SelectSized(inks, start, flags, stretch) == start
  {
  }

  /** A candidate whose ink exactly matches the target is not large enough:
      the comparison is strict on both axes. */
  lemma ExactFitIsRejected(ink: Rect, flags: GlyphFlags, stretch: Bbox)
    requires stretch.isDefined
    requires UnitsToReal(ink.height) == stretch.height + stretch.depth
    requires UnitsToReal(ink.width) == stretch.width
    ensures !Accepts(ink, flags, stretch)
  {
  }

  /** When no candidate qualifies, the largest (last) rendering is used. */
  lemma SelectFallsBackToLast(inks: seq<Rect>, start: nat, flags: GlyphFlags, stretch: Bbox)
    requires start < |inks|
    requires forall j :: start <= j < |inks| ==> !Accepts(inks[j], flags, stretch)
    ensures SelectSized(inks, start, flags, stretch) == |inks| - 1
  {
  }
}
