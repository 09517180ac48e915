/**
  The non-symbiotic fixation estimator: a per-hectare coefficient (kg N per
  hectare harvested, in a Low, a Main and a High band) looked up by item code
  and scaled by the harvested area of each row.
 */
module Nonsymbiotic {
  import opened Wrappers
  import opened Floats
  import opened Table

  /** The three uncertainty bands of the coefficient table, and of the result. */
  datatype Band = Low | Main | High

  /** One row of the coefficient table, in kg N per hectare harvested; a blank cell is NaN. */
  datatype Coefs = Coefs(low: Value, main: Value, high: Value)

  /** The result of one row: fixed N in Mg N for each band, NaN where it cannot be computed. */
  datatype Bands = Bands(low: Value, main: Value, high: Value)

  function CoefOf(c: Coefs, b: Band): Value
  {
    match b
    case Low => c.low
    case Main => c.main
    case High => c.high
  }

  function BandOf(r: Bands, b: Band): Value
  {
    match b
    case Low => r.low
    case Main => r.main
    case High => r.high
  }

  /** The argument of the estimator: either a named series over the crop-table index, or something else. */
  datatype AreaInput =
    | AreaSeries(name: string, data: map<Key, Value>)
    | NotASeries

  const AreaColumnName := "Area_harvested_ha"

  /** kg N / ha to Mg N / ha. */
  const KgToMg := 0.001

  /** Fixed N in Mg N of `area` hectares at `coef` kg N per hectare. */
  function MgN(coef: real, area: real): real
  {
    coef * KgToMg * area
  }

  /**
    One cell of the product: the coefficient of the row's item (NaN when the
    coefficient table has no such item or the cell is blank) times 0.001 times
    the row's area.
   */
  function BandValue(coefs: map<int, Coefs>, itemCode: int, b: Band, area: Value): (v: Value)
    ensures v.Some? <==> itemCode in coefs && CoefOf(coefs[itemCode], b).Some? && area.Some?
    ensures v.Some? ==> v.value == MgN(CoefOf(coefs[itemCode], b).value, area.value)
  {
    var coef: Value := if itemCode in coefs then CoefOf(coefs[itemCode], b) else None;
    if coef.Some? && area.Some? then Some(MgN(coef.value, area.value)) else None
  }

  function RowBands(coefs: map<int, Coefs>, itemCode: int, area: Value): Bands
  {
    Bands(BandValue(coefs, itemCode, Low, area), BandValue(coefs, itemCode, Main, area),
          BandValue(coefs, itemCode, High, area))
  }

  /**
    estimate_fixation_MgN: refuses anything but the harvested-area series;
    otherwise every row of the series gets its three bands. The coefficient
    table is aligned on the Item Code level of the row key, so a row whose
    item the table lacks is kept with NaN in every band.
   */
  function EstimateFixationMgN(coefs: map<int, Coefs>, areas: AreaInput): (r: Result<map<Key, Bands>, Error>)
    ensures r.Failure? <==> !(areas.AreaSeries? && areas.name == AreaColumnName)
    ensures r.Failure? ==> r.error == NotAreaSeries
    ensures r.Success? ==> r.value.Keys == areas.data.Keys
    ensures r.Success? ==> forall k, b | k in r.value ::
              var v := BandOf(r.value[k], b);
              && (v.Some? <==> k.itemCode in coefs && CoefOf(coefs[k.itemCode], b).Some? && areas.data[k].Some?)
              && (v.Some? ==> v.value == MgN(CoefOf(coefs[k.itemCode], b).value, areas.data[k].value))
  {
    if !areas.AreaSeries? || areas.name != AreaColumnName then Failure(NotAreaSeries)
    else
      var r := map k | k in areas.data :: RowBands(coefs, k.itemCode, areas.data[k]);
      assert forall k, b | k in r :: BandOf(r[k], b) == BandValue(coefs, k.itemCode, b, areas.data[k]) by {
        forall k, b | k in r {
          BandOfRow(coefs, k.itemCode, areas.data[k], b);
        }
      }
      Success(r)
  }

  lemma BandOfRow(coefs: map<int, Coefs>, itemCode: int, area: Value, b: Band)
    ensures BandOf(RowBands(coefs, itemCode, area), b) == BandValue(coefs, itemCode, b, area)
  {
  }

  /** A row with zero hectares harvested fixes nothing in a band where its item has a coefficient. */
  lemma ZeroAreaFixesNothing(coefs: map<int, Coefs>, data: map<Key, Value>, k: Key, b: Band)
    requires k in data && data[k] == Some(0.0) && k.itemCode in coefs && CoefOf(coefs[k.itemCode], b).Some?
    ensures var r := EstimateFixationMgN(coefs, AreaSeries(AreaColumnName, data));
            r.Success? && BandOf(r.value[k], b) == Some(0.0)
  {
  }

  /** For a non-negative area, the three results are ordered as the item's three coefficients are. */
  lemma BandsFollowCoefficientOrder(coefs: map<int, Coefs>, data: map<Key, Value>, k: Key)
    requires k in data && data[k].Some? && data[k].value >= 0.0
    requires k.itemCode in coefs
    requires var c := coefs[k.itemCode];
             c.low.Some? && c.main.Some? && c.high.Some? && c.low.value <= c.main.value <= c.high.value
    ensures var r := EstimateFixationMgN(coefs, AreaSeries(AreaColumnName, data));
            && r.Success?
            && r.value[k].low.Some? && r.value[k].main.Some? && r.value[k].high.Some?
            && r.value[k].low.value <= r.value[k].main.value <= r.value[k].high.value
  {
    var r := EstimateFixationMgN(coefs, AreaSeries(AreaColumnName, data));
    var c, a := coefs[k.itemCode], data[k].value;
    assert BandOf(r.value[k], Low).value == c.low.value * KgToMg * a;
    assert BandOf(r.value[k], Main).value == c.main.value * KgToMg * a;
    assert BandOf(r.value[k], High).value == c.high.value * KgToMg * a;
    ScaleMonotone(c.low.value, c.main.value, KgToMg * a);
    ScaleMonotone(c.main.value, c.high.value, KgToMg * a);
  }

  lemma ScaleMonotone(x: real, y: real, t: real)
    requires x <= y && t >= 0.0
    ensures x * t <= y * t
  {
    assert (y - x) * t >= 0.0;
  }

  /**
    The coefficient depends on the item code only: two rows of the same item
    with the same area get the same bands, whatever their area code, area name or year.
   */
  lemma SameItemSameBands(coefs: map<int, Coefs>, data: map<Key, Value>, k1: Key, k2: Key)
    requires k1 in data && k2 in data && k1.itemCode == k2.itemCode && data[k1] == data[k2]
    ensures var r := EstimateFixationMgN(coefs, AreaSeries(AreaColumnName, data));
            r.Success? && r.value[k1] == r.value[k2]
  {
  }

  /**
    The result is linear in area: where one series has `t` times the area `a`
    of another on a row, each of that row's bands is `t` times as large.
   */
  lemma LinearInArea(coefs: map<int, Coefs>, data: map<Key, Value>, scaled: map<Key, Value>, k: Key, a: real, t: real, b: Band)
    requires k in data && k in scaled && data[k] == Some(a) && scaled[k] == Some(t * a)
    requires k.itemCode in coefs && CoefOf(coefs[k.itemCode], b).Some?
    ensures var r := EstimateFixationMgN(coefs, AreaSeries(AreaColumnName, data));
            var s := EstimateFixationMgN(coefs, AreaSeries(AreaColumnName, scaled));
            && r.Success? && s.Success?
            && BandOf(r.value[k], b).Some? && BandOf(s.value[k], b).Some?
            && BandOf(s.value[k], b).value == t * BandOf(r.value[k], b).value
  {
    var x := CoefOf(coefs[k.itemCode], b).value;
    MgNLinear(x, a, t);
  }

  /** One cell of the product is linear in the area. */
  lemma BandValueLinear(coefs: map<int, Coefs>, itemCode: int, b: Band, a: real, t: real)
    requires itemCode in coefs && CoefOf(coefs[itemCode], b).Some?
    ensures BandValue(coefs, itemCode, b, Some(a)).Some? && BandValue(coefs, itemCode, b, Some(t * a)).Some?
    ensures BandValue(coefs, itemCode, b, Some(t * a)).value == t * BandValue(coefs, itemCode, b, Some(a)).value
  {
    MgNLinear(CoefOf(coefs[itemCode], b).value, a, t);
  }

  /** The conversion is linear in the area. */
  lemma MgNLinear(coef: real, a: real, t: real)
    ensures MgN(coef, t * a) == t * MgN(coef, a)
  {
    var x := coef * KgToMg;
    assert x * (t * a) == t * (x * a);
  }

  /** A blank coefficient cell blanks that band of the row only; the item's other bands are still computed. */
  lemma BlankCellBlanksOneBand(coefs: map<int, Coefs>, data: map<Key, Value>, k: Key, b: Band, other: Band)
    requires k in data && data[k].Some? && k.itemCode in coefs
    requires CoefOf(coefs[k.itemCode], b) == None && CoefOf(coefs[k.itemCode], other).Some?
    ensures var r := EstimateFixationMgN(coefs, AreaSeries(AreaColumnName, data));
            && r.Success?
            && BandOf(r.value[k], b) == None
            && BandOf(r.value[k], other).Some?
  {
  }

  /** A worked row: coefficients 5, 10 and 15 kg N / ha on 100,000 ha give 0.5, 1 and 1.5 thousand Mg N. */
  lemma WorkedExample(k: Key)
    ensures var coefs := map[k.itemCode := Coefs(Some(5.0), Some(10.0), Some(15.0))];
            var r := EstimateFixationMgN(coefs, AreaSeries(AreaColumnName, map[k := Some(100000.0)]));
            && r.Success?
            && r.value[k] == Bands(Some(500.0), Some(1000.0), Some(1500.0))
  {
    var coefs := map[k.itemCode := Coefs(Some(5.0), Some(10.0), Some(15.0))];
    var r := EstimateFixationMgN(coefs, AreaSeries(AreaColumnName, map[k := Some(100000.0)]));
    assert BandOf(r.value[k], Low).value == 500.0;
    assert BandOf(r.value[k], Main).value == 1000.0;
    assert BandOf(r.value[k], High).value == 1500.0;
  }
}
