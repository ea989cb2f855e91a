/** Number conversions the view relies on: Pango's fixed-point units and the
    C `(int)` cast, which truncates toward zero. */
module Numeric {

  /** One device unit is this many Pango units. */
  const PangoScale: int := 1024

  /** `pango_units_to_double`: Pango units to device units. */
  function UnitsToReal(u: int): (r: real)
    ensures r * PangoScale as real == u as real
  {
    u as real / PangoScale as real
  }

  /** A real with no fractional part. */
  predicate IsInteger(x: real)
  {
    x.Floor as real == x
  }

  /** Whole numbers are closed under subtraction. */
  lemma IntegerDifference(a: real, b: real)
    requires IsInteger(a) && IsInteger(b)
    ensures IsInteger(a - b)
  {
    assert a - b == (a.Floor - b.Floor) as real;
  }

  /** The C conversion of a double to an int: the fractional part is dropped,
      so negative values move up toward zero (unlike `floor`). */
  function Trunc(x: real): (r: int)
    ensures 0.0 <= x ==> r as real <= x < r as real + 1.0
    ensures x < 0.0 ==> r as real - 1.0 < x <= r as real
  {
    if x >= 0.0 then x.Floor else -((-x).Floor)
  }

  /** Truncation keeps the order of non-negative values. */
  lemma TruncMonotone(a: real, b: real)
    requires 0.0 <= a <= b
    ensures Trunc(a) <= Trunc(b)
  {
  }

  /** Unit conversion is linear: differences of Pango quantities may be taken
      before or after the conversion. */
  lemma UnitsToRealLinear(a: int, b: int)
    ensures UnitsToReal(a - b) == UnitsToReal(a) - UnitsToReal(b)
    ensures UnitsToReal(a + b) == UnitsToReal(a) + UnitsToReal(b)
    ensures UnitsToReal(a) < UnitsToReal(b) <==> a < b
  {
  }

  /** Truncation and `floor` agree on non-negative values and differ on
      negative non-integers, which is why the two are kept apart. */
  lemma TruncVersusFloor(x: real)
    ensures 0.0 <= x ==> Trunc(x) == x.Floor
    ensures x < 0.0 && !IsInteger(x) ==> Trunc(x) == x.Floor + 1
  {
  }
}
