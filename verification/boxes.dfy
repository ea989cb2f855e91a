/** The box model of the view: a width (advance), a height above the baseline
    and a depth below it, plus the snapping of lengths to device units and the
    two re-splits of an operator's vertical extent around the math axis. */
module Boxes {
  import opened Numeric

  datatype Bbox = Bbox(width: real, height: real, depth: real, isDefined: bool)

  /** The null box: no extent and not defined. */
  const NullBbox: Bbox := Bbox(0.0, 0.0, 0.0, false)

  function Max(a: real, b: real): real
  {
    if a >= b then a else b
  }

  /** `gmathml_view_measure_length`: lengths pass through unchanged on a vector
      surface and are rounded half up to a whole device unit on a raster one. */
  function MeasureLength(length: real, isVector: bool): (r: real)
    ensures isVector ==> r == length
    ensures !isVector ==> IsInteger(r) && length - 0.5 < r <= length + 0.5
  {
    if isVector then length else (length + 0.5).Floor as real
  }

  /** Raster snapping is the one whole number within half a unit below and
      strictly less than half a unit above: any such number is the result. */
  lemma MeasureLengthUnique(length: real, n: real)
    requires IsInteger(n) && length - 0.5 < n <= length + 0.5
    ensures MeasureLength(length, false) == n
  {
    var k := n.Floor;
    var m := (length + 0.5).Floor;
    assert (k + 1) as real > m as real;
    assert k as real < (m + 1) as real;
    assert k == m;
  }

  /** Whole numbers are left alone, so snapping twice is snapping once. */
  lemma MeasureLengthIdempotent(length: real, isVector: bool)
    ensures MeasureLength(MeasureLength(length, isVector), isVector) == MeasureLength(length, isVector)
  {
    if !isVector {
      var r := MeasureLength(length, false);
      MeasureLengthUnique(r, r);
    }
  }

  /** Snapping never reverses the order of two lengths. */
  lemma MeasureLengthMonotone(a: real, b: real, isVector: bool)
    requires a <= b
    ensures MeasureLength(a, isVector) <= MeasureLength(b, isVector)
  {
    if !isVector {
      assert (a + 0.5).Floor <= (b + 0.5).Floor;
    }
  }

  /** Axis alignment (`gmathml_view_measure_operator`, the align-axis branch):
      the total vertical extent is split in two halves shifted by the axis
      offset, each half snapped. */
  function AlignOnAxis(b: Bbox, axisOffset: real, isVector: bool): (r: Bbox)
    ensures r.width == b.width && r.isDefined == b.isDefined
    ensures isVector ==> r.height + r.depth == b.height + b.depth
    ensures isVector ==> r.height - r.depth == 2.0 * axisOffset
    ensures !isVector ==> IsInteger(r.height) && IsInteger(r.depth)
    ensures !isVector ==> -1.0 < (r.height + r.depth) - (b.height + b.depth) <= 1.0
    ensures !isVector ==> -1.0 < (r.height - r.depth) - 2.0 * axisOffset < 1.0
  {
    var length := b.depth + b.height;
    b.(height := MeasureLength(0.5 * length + axisOffset, isVector),
       depth := MeasureLength(0.5 * length - axisOffset, isVector))
  }

  /** Symmetric stretch (`gmathml_view_measure_operator`, the symmetric branch):
      the box grows on one side until it extends equally far above and below
      the math axis. */
  function StretchSymmetrically(b: Bbox, axisOffset: real, isVector: bool): (r: Bbox)
    ensures r.width == b.width && r.isDefined == b.isDefined
    ensures isVector ==> r.height - axisOffset == r.depth + axisOffset
    ensures isVector ==> r.height >= b.height && r.depth >= b.depth
    ensures isVector ==> r.height == b.height || r.depth == b.depth
    ensures !isVector ==> IsInteger(r.height) && IsInteger(r.depth)
    ensures !isVector ==> -1.0 < (r.height - axisOffset) - (r.depth + axisOffset) < 1.0
    ensures !isVector && IsInteger(b.height) && IsInteger(b.depth) ==>
              r.height >= b.height && r.depth >= b.depth
  {
    var length := Max(axisOffset + b.depth, b.height - axisOffset);
    SnappingCoversWholeNumbers(b.height, length + axisOffset, isVector);
    SnappingCoversWholeNumbers(b.depth, length - axisOffset, isVector);
    b.(height := MeasureLength(length + axisOffset, isVector),
       depth := MeasureLength(length - axisOffset, isVector))
  }

  /** Raster snapping never drops a length below a whole number it exceeds. */
  lemma SnappingCoversWholeNumbers(k: real, x: real, isVector: bool)
    ensures !isVector && IsInteger(k) && k <= x ==> k <= MeasureLength(x, isVector)
  {
    if !isVector && IsInteger(k) && k <= x {
      MeasureLengthMonotone(k, x, false);
      MeasureLengthUnique(k, k);
    }
  }
}
