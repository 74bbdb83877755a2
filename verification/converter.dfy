/** Spectral type <-> temperature lookup of `StarFunctions` (converter.h).

    A spectral type is packed into one integer `(class + 1) * 10 + subclass`,
    with classes O, B, A, F, G, K, M numbered 0..6 and subclasses 0..9, so the
    70 codes are exactly 10..79. The table is kept in the source's 7 x 10 shape;
    `Temp(k)` is its row-major (flat) view, the layout the C++ array has in
    memory, which is what the scan's `table[i][j - 1]` read relies on. */
module Converter {
  import opened CppNumeric

  /** Base temperatures in tens of kelvin; rows O, B, A, F, G, K, M, columns subclass 0..9. */
  const TemperatureTable: seq<seq<int>> := [
    [6000, 5700, 5400, 5100, 4800, 4500, 4200, 3900, 3600, 3300],
    [3000, 2800, 2600, 2400, 2200, 2000, 1800, 1600, 1400, 1200],
    [1000, 975, 950, 925, 900, 875, 850, 825, 800, 775],
    [750, 735, 720, 705, 690, 675, 660, 645, 630, 615],
    [600, 590, 580, 570, 560, 550, 540, 530, 520, 510],
    [500, 485, 470, 455, 440, 425, 410, 395, 380, 365],
    [350, 340, 330, 320, 310, 300, 290, 280, 270, 260]
  ]

  /** Below this temperature the lookup answers the M9 sentinel 79. */
  const CoolestTabulated: int := 2600
  /** From this temperature on the lookup answers the O0 sentinel 10. */
  const HottestTabulated: int := 60000

  /** A packed spectral type: tens digit 1..7 (O..M), units digit 0..9. */
  predicate ValidCode(code: int) {
    10 <= code <= 79
  }

  /** `get_spectral_type_temperature`: the entry of row `spectralClass`,
      column `subclass`, scaled to kelvin. */
  function SpectralTypeTemperature(spectralClass: int, subclass: int): (t: int)
    requires 0 <= spectralClass < 7 && 0 <= subclass < 10
    ensures CoolestTabulated <= t <= HottestTabulated
  {
    assert spectralClass in {0, 1, 2, 3, 4, 5, 6};
    TemperatureTable[spectralClass][subclass] * 10
  }

  /** Row-major walk over rows of ten: the entry at flat index `k`, the way
      the C++ array is laid out in memory. */
  function Flat(rows: seq<seq<int>>, k: nat): int
    requires forall row | row in rows :: |row| == 10
    requires k < 10 * |rows|
  {
    if k < 10 then rows[0][k] else Flat(rows[1..], k - 10)
  }

  /** The flat walk reaches row `k / 10`, column `k % 10`. */
  lemma {:induction false} FlatIsEntry(rows: seq<seq<int>>, k: nat)
    requires forall row | row in rows :: |row| == 10
    requires k < 10 * |rows|
    ensures Flat(rows, k) == rows[k / 10][k % 10]
  {
    if k >= 10 {
      FlatIsEntry(rows[1..], k - 10);
    }
  }

  /** The temperature in kelvin stored at flat index `k = 10 * class + subclass`. */
  function Temp(k: int): int
    requires 0 <= k < 70
  {
    Flat(TemperatureTable, k) * 10
  }

  /** The flat view and the two-index lookup agree. */
  lemma TempIsEntry(k: int)
    requires 0 <= k < 70
    ensures Temp(k) == SpectralTypeTemperature(k / 10, k % 10)
  {
    FlatIsEntry(TemperatureTable, k);
  }

  /** One step of the flat table is a strict decrease, also across row ends. */
  lemma StepDown(k: int)
    requires 1 <= k < 70
    ensures Temp(k) < Temp(k - 1)
  {
    TempIsEntry(k);
    TempIsEntry(k - 1);
    var i, j := k / 10, k % 10;
    assert i in {0, 1, 2, 3, 4, 5, 6};
    assert j in {0, 1, 2, 3, 4, 5, 6, 7, 8, 9};
  }

  /** The hottest entry is O0 at 60000 K and the coolest M9 at 2600 K. */
  lemma TableEnds()
    ensures Temp(0) == HottestTabulated && Temp(69) == CoolestTabulated
  {
    TempIsEntry(0);
    TempIsEntry(69);
  }

  /** The 70 temperatures are strictly decreasing in row-major order. */
  lemma {:induction false} TableStrictlyDecreasing(a: int, b: int)
    requires 0 <= a < b < 70
    ensures Temp(b) < Temp(a)
    decreases b - a
  {
    StepDown(b);
    if a < b - 1 {
      TableStrictlyDecreasing(a, b - 1);
    }
  }

  /** The 7 x 10 table read in row-major order is strictly decreasing: an
      earlier (class, subclass) pair is always hotter. */
  lemma SpectralTypeTemperatureDecreasing(c1: int, s1: int, c2: int, s2: int)
    requires 0 <= c1 < 7 && 0 <= s1 < 10 && 0 <= c2 < 7 && 0 <= s2 < 10
    requires c1 < c2 || (c1 == c2 && s1 < s2)
    ensures SpectralTypeTemperature(c1, s1) > SpectralTypeTemperature(c2, s2)
  {
    var k1, k2 := 10 * c1 + s1, 10 * c2 + s2;
    assert k1 / 10 == c1 && k1 % 10 == s1;
    assert k2 / 10 == c2 && k2 % 10 == s2;
    TempIsEntry(k1);
    TempIsEntry(k2);
    TableStrictlyDecreasing(k1, k2);
  }

  /** Every entry lies between the M9 and O0 temperatures. */
  lemma TemperatureBounds(k: int)
    requires 0 <= k < 70
    ensures CoolestTabulated <= Temp(k) <= HottestTabulated
  {
    TableEnds();
    if 0 < k { TableStrictlyDecreasing(0, k); }
    if k < 69 { TableStrictlyDecreasing(k, 69); }
  }

  /** The flat index of a spectral type, packed the way `get_spectral_type` packs it. */
  function CodeOf(k: int): (code: int)
    requires 0 <= k < 70
    ensures code == k + 10 && ValidCode(code)
  {
    (k / 10 + 1) * 10 + k % 10
  }

  /** The row `get_temperature` selects: `(code - 10) / 10 % 10` in C++ arithmetic. */
  function TableRow(code: int): int {
    CRem(CDiv(code - 10, 10), 10)
  }

  /** The column `get_temperature` selects: `(code + 10) % 10` in C++ arithmetic. */
  function TableColumn(code: int): int {
    CRem(code + 10, 10)
  }

  /** The codes for which `get_temperature` reads inside the table. */
  predicate InTable(code: int) {
    0 <= TableRow(code) < 7 && 0 <= TableColumn(code) < 10
  }

  /** `get_temperature`: decode a packed spectral type and look it up. Reading
      outside the 7 x 10 table is undefined in C++, so it is the precondition. */
  function GetTemperature(code: int): (t: int)
    requires InTable(code)
    ensures CoolestTabulated <= t <= HottestTabulated
  {
    var k := 10 * TableRow(code) + TableColumn(code);
    assert k / 10 == TableRow(code) && k % 10 == TableColumn(code);
    TempIsEntry(k);
    TemperatureBounds(k);
    SpectralTypeTemperature(TableRow(code), TableColumn(code))
  }

  /** A valid code is decoded into row `code / 10 - 1` and column `code % 10`,
      i.e. flat index `code - 10`. */
  lemma GetTemperatureDecodes(code: int)
    requires ValidCode(code)
    ensures InTable(code)
    ensures TableRow(code) == code / 10 - 1 && TableColumn(code) == code % 10
    ensures GetTemperature(code) == Temp(code - 10)
  {
    assert (code - 10) / 10 == code / 10 - 1 && (code - 10) % 10 == code % 10;
    TempIsEntry(code - 10);
  }

  /** Among the non-negative two-digit numbers exactly 1..79 decode inside the
      table: 0 decodes to row -1, 80..89 to row 7 and 90..99 to row 8. Codes
      1..9 land on row 0 because C++ division truncates `(code - 10) / 10`
      toward zero. */
  lemma InTableTwoDigits(code: int)
    requires 0 <= code < 100
    ensures InTable(code) <==> 1 <= code <= 79
    ensures code == 0 ==> TableRow(code) == -1
    ensures 1 <= code <= 9 ==> TableRow(code) == 0
    ensures 80 <= code ==> TableRow(code) == code / 10 - 1 && TableRow(code) in {7, 8}
  {
    var q := CDiv(code - 10, 10);
    if code == 0 {
      assert q == -1;
    } else if code <= 9 {
      assert q == 0;
    } else {
      assert q == code / 10 - 1;
    }
    assert CDiv(q, 10) == 0;
  }

  /** The first flat index from `k` on whose temperature is at or below `temperature`;
      the table is decreasing, so it is the bucket `Temp(b) <= temperature < Temp(b - 1)`. */
  function FirstAtOrBelow(temperature: int, k: int): (b: int)
    requires CoolestTabulated <= temperature && 0 <= k < 70
    requires k == 0 || temperature < Temp(k - 1)
    ensures k <= b < 70
    ensures Temp(b) <= temperature && (b == 0 || temperature < Temp(b - 1))
    decreases 70 - k
  {
    if Temp(k) <= temperature then k
    else TableEnds(); FirstAtOrBelow(temperature, k + 1)
  }

  /** Reference definition of `get_spectral_type`: the sentinels outside
      [2600, 60000), otherwise the bucket whose lower bound is inclusive. */
  function SpectralType(temperature: int): (code: int)
    ensures ValidCode(code)
    ensures CoolestTabulated <= temperature < HottestTabulated ==>
              11 <= code && Temp(code - 10) <= temperature < Temp(code - 11)
  {
    if temperature < CoolestTabulated then 79
    else if temperature >= HottestTabulated then 10
    else CodeOf(FirstAtOrBelow(temperature, 0))
  }

  /** What the scan has produced after visiting the first `n` flat indices. */
  ghost predicate ScannedPrefix(temperature: int, n: int, code: int) {
    if CoolestTabulated <= temperature < HottestTabulated then
      var b := FirstAtOrBelow(temperature, 0);
      code == (if b < n then CodeOf(b) else 79)
    else
      n > 0 ==> code == SpectralType(temperature)
  }

  /** At most one flat index satisfies the scan's bucket test. */
  lemma BucketUnique(temperature: int, k: int)
    requires 1 <= k < 70 && Temp(k) <= temperature < Temp(k - 1)
    ensures CoolestTabulated <= temperature
    ensures k == FirstAtOrBelow(temperature, 0)
  {
    TemperatureBounds(k);
    var b := FirstAtOrBelow(temperature, 0);
    if k < b {
      if k < b - 1 { TableStrictlyDecreasing(k, b - 1); }
    } else if b < k {
      if b < k - 1 { TableStrictlyDecreasing(b, k - 1); }
    }
  }

  /** One pass of the inner loop body of `get_spectral_type` at cell (i, j),
      flat index `k = 10 * i + j`. The read of `table[i][j - 1]` is flat index
      `k - 1`; at `k = 0` it is skipped only because the first conjunct already
      fails, which Dafny checks here. The literals and the packing
      `(i + 1) * 10 + j` are kept as the source writes them; the ensures ties
      them to `CoolestTabulated`, `HottestTabulated` and `CodeOf`. */
  function Visit(temperature: int, k: int, code: int): (r: int)
    requires 0 <= k < 70
    ensures ValidCode(code) ==> ValidCode(r)
    ensures r != code ==> r == 79 || r == 10 || r == CodeOf(k)
    ensures temperature < CoolestTabulated ==> r == 79
    ensures temperature >= HottestTabulated ==> r == 10
  {
    if temperature >= 2600 && temperature < 60000 then
      if temperature >= Temp(k) && temperature < Temp(k - 1) then (k / 10 + 1) * 10 + k % 10
      else code
    else if temperature < 2600 then 79
    else 10
  }

  /** Visiting the next cell extends what the scan has established by one index. */
  lemma VisitExtendsPrefix(temperature: int, k: int, code: int)
    requires 0 <= k < 70 && ScannedPrefix(temperature, k, code)
    ensures ScannedPrefix(temperature, k + 1, Visit(temperature, k, code))
  {
    if CoolestTabulated <= temperature < HottestTabulated && Temp(k) <= temperature {
      if k > 0 && temperature < Temp(k - 1) {
        BucketUnique(temperature, k);
      }
    }
  }

  /** `get_spectral_type` as written: the full 7 x 10 scan without early exit,
      the last matching bucket winning, and the out-of-range branch rewriting
      the sentinel on every pass. */
  method ScanSpectralType(temperature: int) returns (code: int)
    ensures code == SpectralType(temperature)
    ensures ValidCode(code)
    ensures temperature < CoolestTabulated ==> code == 79
    ensures temperature >= HottestTabulated ==> code == 10
  {
    code := 79;
    var i := 0;
    while i < 7
      invariant 0 <= i <= 7
      invariant ScannedPrefix(temperature, 10 * i, code)
    {
      var j := 0;
      while j < 10
        invariant 0 <= j <= 10
        invariant ScannedPrefix(temperature, 10 * i + j, code)
      {
        VisitExtendsPrefix(temperature, 10 * i + j, code);
        code := Visit(temperature, 10 * i + j, code);
        j := j + 1;
      }
      i := i + 1;
    }
  }

  /** For 2600 <= T < 60000 the result is the code of flat index k exactly when
      `Temp(k) <= T < Temp(k - 1)` with k >= 1: buckets are disjoint and cover the range. */
  lemma SpectralTypeBucket(temperature: int, k: int)
    requires CoolestTabulated <= temperature < HottestTabulated
    requires 0 <= k < 70
    ensures SpectralType(temperature) == CodeOf(k) <==> (1 <= k && Temp(k) <= temperature < Temp(k - 1))
  {
    if 1 <= k && Temp(k) <= temperature < Temp(k - 1) {
      BucketUnique(temperature, k);
    }
  }

  /** Code -> temperature -> code is the identity on all 70 codes. */
  lemma SpectralTypeRoundTrip(code: int)
    requires ValidCode(code)
    ensures InTable(code) && SpectralType(GetTemperature(code)) == code
  {
    GetTemperatureDecodes(code);
    var k := code - 10;
    var t := Temp(k);
    if k > 0 {
      TableStrictlyDecreasing(0, k);
      if k < 69 { TableStrictlyDecreasing(k, 69); }
      StepDown(k);
      SpectralTypeBucket(t, k);
    }
  }

  /** Temperature -> code -> temperature loses at most one bucket: the result is
      the bucket's lower bound, never above the input from 2600 on, and the next
      hotter entry is still above the input below 60000; cooler inputs give 2600. */
  lemma SpectralTypeLossy(temperature: int)
    ensures InTable(SpectralType(temperature))
    ensures CoolestTabulated <= temperature ==> GetTemperature(SpectralType(temperature)) <= temperature
    ensures CoolestTabulated <= temperature < HottestTabulated ==>
              var code := SpectralType(temperature); temperature < Temp(code - 11)
    ensures temperature < CoolestTabulated ==> GetTemperature(SpectralType(temperature)) == CoolestTabulated
  {
    GetTemperatureDecodes(SpectralType(temperature));
  }

  /** Hotter never gives a later class: T1 <= T2 implies code(T1) >= code(T2). */
  lemma SpectralTypeMonotone(t1: int, t2: int)
    requires t1 <= t2
    ensures SpectralType(t1) >= SpectralType(t2)
  {
    if CoolestTabulated <= t1 && t2 < HottestTabulated {
      var b1, b2 := FirstAtOrBelow(t1, 0), FirstAtOrBelow(t2, 0);
      if b2 > b1 {
        if b1 < b2 - 1 { TableStrictlyDecreasing(b1, b2 - 1); }
      }
    }
  }

  /** The worked example of the source comments: G2 (class 4, subclass 2, code 52) is 5800 K. */
  lemma ConverterExamples()
    ensures SpectralTypeTemperature(4, 2) == 5800
    ensures GetTemperature(52) == 5800
  {
    GetTemperatureDecodes(52);
    TempIsEntry(42);
  }

  /** ... and 5800 K is G2: the lower bound of a bucket belongs to it. */
  lemma InclusiveLowerBoundExample()
    ensures SpectralType(5800) == 52
  {
    ConverterExamples();
    SpectralTypeRoundTrip(52);
  }

  /** The two sentinels: cooler than the table is M9, hotter is O0. */
  lemma SentinelExamples()
    ensures SpectralType(2000) == 79 && SpectralType(70000) == 10
  {
  }
}
