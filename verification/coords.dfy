/** Plot coordinate mapping of `CoordsFunctions` (gl_diagram.h).

    Both maps compute in `double` and cast to `int`; here the arithmetic is
    exact (`real`) and the cast is truncation toward zero. `log10` is not
    computed: it is a parameter, and only the two facts the mapping relies on
    (`log10(1) == 0`, strictly increasing on positive reals) are assumed of it
    where a property needs them. */
module Coords {
  import opened CppNumeric

  /** The facts of the base-10 logarithm the luminosity axis depends on. */
  ghost predicate Log10Axioms(log10: real -> real) {
    && log10(1.0) == 0.0
    && forall a: real, b: real :: 0.0 < a < b ==> log10(a) < log10(b)
  }

  /** The value `diagram_get_x` casts: `width / range * (range - (star_temp - temp_offset))`. */
  function DiagramXExact(tempOffset: int, width: int, range: int, starTemp: int): real
    requires range != 0
  {
    (width as real / range as real) * (range - (starTemp - tempOffset)) as real
  }

  /** `diagram_get_x`: linear, reversed temperature -> pixel map. A zero range
      divides by zero in the source, so it is the precondition. */
  function DiagramX(tempOffset: int, width: int, range: int, starTemp: int): (x: int)
    requires range != 0
    ensures starTemp == tempOffset + range ==> x == 0
    ensures starTemp == tempOffset ==> x == width
  {
    TruncToInt(DiagramXExact(tempOffset, width, range, starTemp))
  }

  /** Hotter stars plot further left: for a non-negative width and positive
      range the pixel column never increases with the temperature. */
  lemma DiagramXMonotone(tempOffset: int, width: int, range: int, t1: int, t2: int)
    requires width >= 0 && range > 0 && t1 <= t2
    ensures DiagramX(tempOffset, width, range, t1) >= DiagramX(tempOffset, width, range, t2)
  {
    var a := width as real / range as real;
    var d1, d2 := (range - (t1 - tempOffset)) as real, (range - (t2 - tempOffset)) as real;
    assert a >= 0.0 && d2 <= d1;
    assert a * d2 <= a * d1;
    TruncMonotone(DiagramXExact(tempOffset, width, range, t2), DiagramXExact(tempOffset, width, range, t1));
  }

  /** A temperature inside the axis range lands inside the plot width. */
  lemma DiagramXWithinWidth(tempOffset: int, width: int, range: int, starTemp: int)
    requires width >= 0 && range > 0
    requires tempOffset <= starTemp <= tempOffset + range
    ensures 0 <= DiagramX(tempOffset, width, range, starTemp) <= width
  {
    DiagramXMonotone(tempOffset, width, range, tempOffset, starTemp);
    DiagramXMonotone(tempOffset, width, range, starTemp, tempOffset + range);
  }

  /** The value `diagram_get_y` casts: `y_offset - height / range * log10(star_lum)`. */
  function DiagramYExact(yOffset: int, height: int, range: int, starLum: real, log10: real -> real): real
    requires range != 0
  {
    yOffset as real - (height as real / range as real) * log10(starLum)
  }

  /** `diagram_get_y`: logarithmic luminosity -> pixel map with no branch on
      the luminosity. A zero range or a non-positive luminosity makes the
      source cast a non-finite double, so both are preconditions. */
  function DiagramY(yOffset: int, height: int, range: int, starLum: real, log10: real -> real): (y: int)
    requires range != 0 && starLum > 0.0
    ensures log10(starLum) == 0.0 ==> y == yOffset
  {
    TruncToInt(DiagramYExact(yOffset, height, range, starLum, log10))
  }

  /** A star of solar luminosity sits on the midline the caller passes as offset. */
  lemma DiagramYSolar(yOffset: int, height: int, range: int, log10: real -> real)
    requires range != 0 && Log10Axioms(log10)
    ensures DiagramY(yOffset, height, range, 1.0, log10) == yOffset
  {
  }

  /** Brighter stars plot higher (smaller y) for a positive height and range. */
  lemma DiagramYMonotone(yOffset: int, height: int, range: int, l1: real, l2: real, log10: real -> real)
    requires height >= 0 && range > 0 && 0.0 < l1 <= l2 && Log10Axioms(log10)
    ensures DiagramY(yOffset, height, range, l1, log10) >= DiagramY(yOffset, height, range, l2, log10)
  {
    var a := height as real / range as real;
    assert log10(l1) <= log10(l2);
    assert a * log10(l1) <= a * log10(l2);
    TruncMonotone(DiagramYExact(yOffset, height, range, l2, log10), DiagramYExact(yOffset, height, range, l1, log10));
  }

  /** The reference lines drawn with `range` and `-range` are mirror images
      about `y_offset`: before the cast the two values sum to `2 * y_offset`. */
  lemma DiagramYReflection(yOffset: int, height: int, range: int, starLum: real, log10: real -> real)
    requires range != 0
    ensures DiagramYExact(yOffset, height, range, starLum, log10)
          + DiagramYExact(yOffset, height, -range, starLum, log10) == 2.0 * yOffset as real
  {
    assert height as real / (-range) as real == -(height as real / range as real);
  }

  /** The pair of horizontal reference lines `draw_reference_lines` computes for
      one luminosity: once with `lum_range`, once with `-lum_range`, both about
      the midline `diagram_height / 2` on a plot `diagram_height - 64` tall.
      For a positive range and a luminosity of at least 1 the first line is at
      or above the midline and the second at or below it; at luminosity 1 both
      are on it. */
  function ReferenceLineRows(diagramHeight: int, lumRange: int, lum: real, log10: real -> real): (rows: (int, int))
    requires lumRange != 0 && lum > 0.0
    ensures log10(lum) == 0.0 ==> rows.0 == CDiv(diagramHeight, 2) && rows.1 == CDiv(diagramHeight, 2)
    ensures diagramHeight >= 64 && lumRange > 0 && log10(lum) >= 0.0 ==>
              rows.0 <= CDiv(diagramHeight, 2) <= rows.1
  {
    var midline := CDiv(diagramHeight, 2);
    var positive := DiagramY(midline, diagramHeight - 64, lumRange, lum, log10);
    var negative := DiagramY(midline, diagramHeight - 64, -lumRange, lum, log10);
    ReferenceLinesStraddle(midline, diagramHeight - 64, lumRange, lum, log10);
    (positive, negative)
  }

  /** Helper for `ReferenceLineRows`: the `range` line is not below the offset
      and the `-range` line not above it. */
  lemma ReferenceLinesStraddle(yOffset: int, height: int, range: int, lum: real, log10: real -> real)
    requires range != 0 && lum > 0.0
    ensures height >= 0 && range > 0 && log10(lum) >= 0.0 ==>
              DiagramY(yOffset, height, range, lum, log10) <= yOffset <= DiagramY(yOffset, height, -range, lum, log10)
  {
    if height >= 0 && range > 0 && log10(lum) >= 0.0 {
      var a := height as real / range as real;
      assert a * log10(lum) >= 0.0;
      DiagramYReflection(yOffset, height, range, lum, log10);
      TruncOfInteger(yOffset);
      TruncMonotone(DiagramYExact(yOffset, height, range, lum, log10), yOffset as real);
      TruncMonotone(yOffset as real, DiagramYExact(yOffset, height, -range, lum, log10));
    }
  }

  /** For a positive range and a luminosity of at least 1 the `range` line is
      at or above the midline and the `-range` line at or below it. */
  lemma ReferenceLinesAroundMidline(diagramHeight: int, lumRange: int, lum: real, log10: real -> real)
    requires Log10Axioms(log10) && lum >= 1.0 && lumRange > 0 && diagramHeight >= 64
    ensures var rows := ReferenceLineRows(diagramHeight, lumRange, lum, log10);
            rows.0 <= CDiv(diagramHeight, 2) <= rows.1
  {
    if lum > 1.0 {
      assert log10(1.0) < log10(lum);
    }
  }
}
