/**
  The symbiotic fixation estimator for grain legumes: an inner join of the
  crop table against the crop map and the region map, followed by the formula
  chain yield -> HI -> shoot DM -> shoot N concentration -> shoot N ->
  below-ground factor -> total crop N -> Ndfa -> fixed N.
 */
module Grainleg {
  import opened Wrappers
  import opened Floats
  import opened Table
  import opened Reference
  import opened Coefficients

  /** A kept row: its input columns, the joined crop name and region, and the derived columns in order. */
  datatype Enriched = Enriched(
    cols: Columns,
    crop: string,
    region: Region,
    yieldMgHa: Value,
    hi: Value,
    shootDmMg: Value,
    shootNConc: Value,
    shootNMgN: Value,
    belowGroundFactor: Value,
    totalCropNMgN: Value,
    ndfa: Value,
    fixedNMgN: Value)

  /**
    The formula chain as the model states it: yield = production / area,
    shoot DM = production / HI, shoot N = shoot DM * N concentration,
    total crop N = shoot N * below-ground factor, fixed N = total crop N * Ndfa,
    each NaN when one of its operands is.
   */
  predicate Chained(e: Enriched)
  {
    && e.yieldMgHa == Div(e.cols.productionMg, e.cols.areaHarvestedHa)
    && e.shootDmMg == Div(e.cols.productionMg, e.hi)
    && e.shootNMgN == Mul(e.shootDmMg, e.shootNConc)
    && e.totalCropNMgN == Mul(e.shootNMgN, e.belowGroundFactor)
    && e.fixedNMgN == Mul(e.totalCropNMgN, e.ndfa)
  }

  /**
    The derived columns of one row, each computed from the input columns and the
    columns before it, with the row's crop and region selecting the coefficients.
    `crops` is the set of crop names of the crop map, over which every
    coefficient dictionary is built.
   */
  function Enrich(crops: set<string>, ln: real -> real, cols: Columns, crop: string, region: Region): (e: Enriched)
    ensures e.cols == cols && e.crop == crop && e.region == region
    ensures Chained(e)
    ensures e.hi == HarvestIndex(crops, ln, e.yieldMgHa, crop)
    ensures e.shootNConc == NConcentration(crops, crop, e.shootDmMg, cols.areaHarvestedHa)
    ensures e.belowGroundFactor == BelowGroundFactor(crops, crop)
    ensures e.ndfa == Ndfa(crops, crop, region)
  {
    var yieldMgHa := Div(cols.productionMg, cols.areaHarvestedHa);
    var hi := HarvestIndex(crops, ln, yieldMgHa, crop);
    var shootDm := Div(cols.productionMg, hi);
    var conc := NConcentration(crops, crop, shootDm, cols.areaHarvestedHa);
    var shootN := Mul(shootDm, conc);
    var bg := BelowGroundFactor(crops, crop);
    var totalN := Mul(shootN, bg);
    var ndfa := Ndfa(crops, crop, region);
    var fixedN := Mul(totalN, ndfa);
    Enriched(cols, crop, region, yieldMgHa, hi, shootDm, conc, shootN, bg, totalN, ndfa, fixedN)
  }

  /**
    estimate_fixation: keeps the rows whose item code is in the crop map and whose
    area code is in the region map, leaves their input columns as they are, and
    adds the derived columns.
   */
  function EstimateFixation(cropNames: map<int, string>, regions: map<int, Region>, ln: real -> real,
                            table: map<Key, Columns>): (r: map<Key, Enriched>)
    ensures forall k :: k in r <==> k in table && k.itemCode in cropNames && k.areaCode in regions
    ensures forall k | k in r ::
              && r[k].cols == table[k]
              && r[k].crop == cropNames[k.itemCode]
              && r[k].region == regions[k.areaCode]
    ensures forall k | k in r ::
              r[k] == Enrich(cropNames.Values, ln, table[k], cropNames[k.itemCode], regions[k.areaCode])
  {
    map k | k in table && k.itemCode in cropNames && k.areaCode in regions ::
      Enrich(cropNames.Values, ln, table[k], cropNames[k.itemCode], regions[k.areaCode])
  }

  /** Along the chain, fixed N is production / HI * N concentration * below-ground factor * Ndfa. */
  lemma FixedNClosedForm(e: Enriched)
    requires Chained(e)
    ensures e.fixedNMgN.Some? ==>
              && e.cols.productionMg.Some? && e.hi.Some? && e.hi.value != 0.0 && e.shootNConc.Some?
              && e.belowGroundFactor.Some? && e.ndfa.Some? && e.shootDmMg.Some?
              && e.fixedNMgN.value == e.shootDmMg.value * e.shootNConc.value * e.belowGroundFactor.value * e.ndfa.value
              && e.fixedNMgN.value == e.cols.productionMg.value / e.hi.value * e.shootNConc.value
                                      * e.belowGroundFactor.value * e.ndfa.value
  {
  }

  /**
    For a crop of the crop map, fixed N is defined exactly when yield is a
    positive number and HI is not zero: NaN production or area, zero area and
    zero production all leave the row without fixed N. Ndfa is always defined
    and strictly between 0 and 1.
   */
  lemma FixedNDefinedness(crops: set<string>, ln: real -> real, cols: Columns, crop: string, region: Region)
    requires crop in crops
    ensures var e := Enrich(crops, ln, cols, crop, region);
            && (e.yieldMgHa.Some? <==> cols.productionMg.Some? && cols.areaHarvestedHa.Some?
                                       && cols.areaHarvestedHa.value != 0.0)
            && (e.fixedNMgN.Some? <==> e.yieldMgHa.Some? && e.yieldMgHa.value > 0.0 && e.hi.Some? && e.hi.value != 0.0)
            && e.belowGroundFactor.Some? && e.ndfa.Some? && 0.0 < e.ndfa.value < 1.0
  {
  }

  /** Fixed N is total N times an Ndfa strictly between 0 and 1, so for a mapped crop it never exceeds total N. */
  lemma FixedNeverExceedsTotal(crops: set<string>, ln: real -> real, cols: Columns, crop: string, region: Region)
    requires crop in crops
    ensures var e := Enrich(crops, ln, cols, crop, region);
            e.fixedNMgN.Some? && e.totalCropNMgN.value >= 0.0 ==> 0.0 <= e.fixedNMgN.value <= e.totalCropNMgN.value
  {
    var e := Enrich(crops, ln, cols, crop, region);
    FixedNDefinedness(crops, ln, cols, crop, region);
    if e.fixedNMgN.Some? && e.totalCropNMgN.value >= 0.0 {
      ScaledByFraction(e.totalCropNMgN, e.ndfa);
    }
  }

  /** A non-negative amount scaled by a fraction strictly between 0 and 1 stays between 0 and the amount. */
  lemma ScaledByFraction(t: Value, n: Value)
    requires t.Some? && t.value >= 0.0 && n.Some? && 0.0 < n.value < 1.0
    ensures Mul(t, n).Some? && 0.0 <= Mul(t, n).value <= t.value
  {
    assert t.value * (1.0 - n.value) >= 0.0;
  }

  /**
    The worked example of the model, soybean in Brazil on 1,000,000 ha producing
    3,000,000 Mg: yield 3, HI 0.1178 ln 3 + 0.2775 (`ln` stays uninterpreted),
    below-ground factor 1.4 and Ndfa 0.78 ...
   */
  lemma SoybeanInBrazilCoefficients(crops: set<string>, ln: real -> real)
    requires "Soybean" in crops
    ensures var e := Enrich(crops, ln, Columns(Some(1000000.0), Some(3000000.0)), "Soybean", Brazil);
            && e.yieldMgHa == Some(3.0)
            && e.hi == Some(0.1178 * ln(3.0) + 0.2775)
            && e.belowGroundFactor == Some(1.4)
            && e.ndfa == Some(0.78)
  {
    var e := Enrich(crops, ln, Columns(Some(1000000.0), Some(3000000.0)), "Soybean", Brazil);
    SoybeanHarvestIndex(crops, ln);
    assert e.yieldMgHa == Some(3.0);
  }

  lemma SoybeanHarvestIndex(crops: set<string>, ln: real -> real)
    requires "Soybean" in crops
    ensures Div(Some(3000000.0), Some(1000000.0)) == Some(3.0)
    ensures HarvestIndex(crops, ln, Some(3.0), "Soybean") == Some(0.1178 * ln(3.0) + 0.2775)
  {
  }

  /**
    ... shoot DM 3,000,000 / HI, N concentration (-0.118 * DM / 1,000,000 + 3.913) / 100,
    and a fixed N (which FixedNClosedForm then gives as DM * concentration * 1.4 * 0.78).
   */
  lemma SoybeanInBrazilFixedN(crops: set<string>, ln: real -> real)
    requires "Soybean" in crops
    ensures var e := Enrich(crops, ln, Columns(Some(1000000.0), Some(3000000.0)), "Soybean", Brazil);
            e.hi.Some? && e.hi.value != 0.0 ==>
              && e.shootDmMg.Some? && e.shootDmMg.value == 3000000.0 / e.hi.value
              && e.shootNConc.Some? && e.shootNConc.value == (-0.118 * e.shootDmMg.value / 1000000.0 + 3.913) / 100.0
              && e.fixedNMgN.Some?
  {
    var e := Enrich(crops, ln, Columns(Some(1000000.0), Some(3000000.0)), "Soybean", Brazil);
    if e.hi.Some? && e.hi.value != 0.0 {
      var dm := 3000000.0 / e.hi.value;
      assert e.shootDmMg == Some(dm);
      SoybeanConcentration(crops, dm);
    }
  }

  lemma SoybeanConcentration(crops: set<string>, dm: real)
    requires "Soybean" in crops
    ensures var r := NConcentration(crops, "Soybean", Some(dm), Some(1000000.0));
            r.Some? && r.value == (-0.118 * dm / 1000000.0 + 3.913) / 100.0
  {
  }
}
