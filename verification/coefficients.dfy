/**
  The per-crop coefficients of the legume model (Herridge et al. 2022). Each
  table gives every crop of the crop map a default value and then lets a few
  named crops override it; the Ndfa table further lets a (crop, region) pair
  override the crop's value.
 */
module Coefficients {
  import opened Wrappers
  import opened Floats
  import opened Reference

  /** A per-crop coefficient: one default for all crops, plus named overrides. */
  datatype CoefTable = CoefTable(default: real, overrides: map<string, real>)

  /** A value that replaces the crop's own one on the rows of one crop in one region. */
  datatype RegionalOverride = RegionalOverride(crop: string, region: Region, value: real)

  /** Harvest index HI = k * ln(yield) + m: the slope k ... */
  const HiSlope := CoefTable(0.0804, map["Soybean" := 0.1178, "Groundnut" := 0.1343, "Pigeonpea" := 0.0517])
  /** ... and the intercept m. */
  const HiIntercept := CoefTable(0.2839, map["Soybean" := 0.2775, "Groundnut" := 0.2614, "Pigeonpea" := 0.1647])

  /** Shoot N concentration in percent = k * (shoot DM per hectare) + m: the slope k ... */
  const NConcSlope := CoefTable(0.0, map["Soybean" := -0.118])
  /** ... and the intercept m. */
  const NConcIntercept := CoefTable(2.5, map["Soybean" := 3.913, "Groundnut" := 2.7, "Chickpea" := 1.9,
                                              "Pigeonpea" := 1.9, "Lupin" := 2.7])

  /** Multiplier from shoot N to total crop N, for the N in roots and nodules. */
  const BelowGroundTable := CoefTable(1.4, map["Chickpea" := 2.0, "Pigeonpea" := 2.0])

  /** Percentage of crop N derived from the atmosphere, per crop ... */
  const NdfaPercentTable := CoefTable(62.0, map["Soybean" := 61.0, "Common bean" := 38.0, "Pigeonpea" := 74.0,
                                                 "Faba bean" := 74.0, "Lupin" := 74.0])
  /** ... and for soybean in Europe and in Brazil, applied in this order. */
  const NdfaRegionalPercent := [RegionalOverride("Soybean", Europe, 44.0), RegionalOverride("Soybean", Brazil, 78.0)]

  /** The dictionary built for a table: every crop name of the crop map to the default, the overrides merged on top. */
  function Dict(crops: set<string>, t: CoefTable): map<string, real>
  {
    (map c | c in crops :: t.default) + t.overrides
  }

  /** Looking a row's crop up in a table's dictionary (`Series.map`): NaN when the dictionary lacks the crop. */
  function Coef(crops: set<string>, t: CoefTable, crop: string): (r: Value)
    ensures crop in t.overrides ==> r == Some(t.overrides[crop])
    ensures crop !in t.overrides && crop in crops ==> r == Some(t.default)
    ensures crop !in t.overrides && crop !in crops ==> r == None
  {
    var d := Dict(crops, t);
    if crop in d then Some(d[crop]) else None
  }

  predicate Matches(o: RegionalOverride, crop: string, region: Region)
  {
    o.crop == crop && o.region == region
  }

  /**
    Assigning each regional override, in order, to the rows of its (crop, region):
    the last matching override decides, and without one the crop's value stays.
   */
  function ApplyRegional(base: Value, crop: string, region: Region, overrides: seq<RegionalOverride>): (r: Value)
    ensures (forall i :: 0 <= i < |overrides| ==> !Matches(overrides[i], crop, region)) ==> r == base
    ensures forall i :: 0 <= i < |overrides| && Matches(overrides[i], crop, region)
                        && (forall j :: i < j < |overrides| ==> !Matches(overrides[j], crop, region))
                        ==> r == Some(overrides[i].value)
    decreases |overrides|
  {
    if |overrides| == 0 then base
    else
      var next := if Matches(overrides[0], crop, region) then Some(overrides[0].value) else base;
      ApplyRegional(next, crop, region, overrides[1..])
  }

  /** HI for a row of the given crop and yield (Mg/ha). */
  function HarvestIndex(crops: set<string>, ln: real -> real, yieldMgHa: Value, crop: string): (hi: Value)
    ensures hi.Some? <==> (crop in crops || crop in {"Soybean", "Groundnut", "Pigeonpea"})
                          && yieldMgHa.Some? && yieldMgHa.value > 0.0
    ensures hi.Some? ==> hi.value == (var y := ln(yieldMgHa.value);
                                      if crop == "Soybean" then 0.1178 * y + 0.2775
                                      else if crop == "Groundnut" then 0.1343 * y + 0.2614
                                      else if crop == "Pigeonpea" then 0.0517 * y + 0.1647
                                      else 0.0804 * y + 0.2839)
  {
    Add(Mul(Coef(crops, HiSlope, crop), Log(ln, yieldMgHa)), Coef(crops, HiIntercept, crop))
  }

  /**
    Shoot N concentration (a fraction) for a row with the given shoot dry
    matter (Mg) and harvested area (ha). Only soybean's depends on the dry
    matter per hectare; every other crop's is its fixed percentage.
   */
  function NConcentration(crops: set<string>, crop: string, shootDmMg: Value, areaHa: Value): (r: Value)
    ensures r.Some? <==> (crop in crops || crop == "Soybean")
                         && shootDmMg.Some? && areaHa.Some? && areaHa.value != 0.0
    ensures r.Some? && crop == "Soybean" ==>
              r.value == (-0.118 * shootDmMg.value / areaHa.value + 3.913) / 100.0
    ensures r.Some? && crop != "Soybean" ==>
              r.value == (if crop == "Groundnut" || crop == "Lupin" then 2.7
                          else if crop == "Chickpea" || crop == "Pigeonpea" then 1.9
                          else 2.5) / 100.0
  {
    var k := Coef(crops, NConcSlope, crop);
    var m := Coef(crops, NConcIntercept, crop);
    Div(Add(Div(Mul(k, shootDmMg), areaHa), m), Some(100.0))
  }

  /** The below-ground N factor of a crop. */
  function BelowGroundFactor(crops: set<string>, crop: string): (r: Value)
    ensures r.Some? <==> crop in crops || crop in {"Chickpea", "Pigeonpea"}
    ensures r.Some? ==> r.value == if crop == "Chickpea" || crop == "Pigeonpea" then 2.0 else 1.4
  {
    Coef(crops, BelowGroundTable, crop)
  }

  /**
    Ndfa as a fraction for a row of the given crop and region: soybean in Europe
    and in Brazil take their regional value whatever the crop default, every
    other row the crop's own value; for a mapped crop it lies strictly between 0 and 1.
   */
  function Ndfa(crops: set<string>, crop: string, region: Region): (r: Value)
    ensures crop == "Soybean" && region == Europe ==> r == Some(0.44)
    ensures crop == "Soybean" && region == Brazil ==> r == Some(0.78)
    ensures !(crop == "Soybean" && region != ROW) ==>
              (r.Some? <==> crop in crops || crop in {"Soybean", "Common bean", "Pigeonpea", "Faba bean", "Lupin"})
    ensures !(crop == "Soybean" && region != ROW) && r.Some? ==>
              r.value == if crop == "Soybean" then 0.61
                         else if crop == "Common bean" then 0.38
                         else if crop == "Pigeonpea" || crop == "Faba bean" || crop == "Lupin" then 0.74
                         else 0.62
    ensures crop in crops ==> r.Some? && 0.0 < r.value < 1.0
  {
    var percent := ApplyRegional(Coef(crops, NdfaPercentTable, crop), crop, region, NdfaRegionalPercent);
    Div(percent, Some(100.0))
  }
}
