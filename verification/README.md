# bnf-faostat in Dafny

A model of the estimator of biological nitrogen fixation (BNF) from FAOSTAT
crop production data. The model covers four parts.

- **Symbiotic fixation in grain legumes** (`grainleg.py`), following
  Herridge et al. (2022):
  - Every FAOSTAT country is labelled ROW, Europe or Brazil.
  - The wide crop table is inner-joined with the crop map and the region map.
  - Each kept row then gets the derived columns in order: yield, harvest index
    (HI), shoot dry matter, shoot N concentration, shoot N, below-ground
    factor, total crop N, Ndfa (the share of N derived from the atmosphere)
    and fixed N.
  - Every coefficient comes from a per-crop table: a default plus named
    overrides. Ndfa also has (crop, region) overrides.
- **Report helpers**:
  - Table 2 is the soybean rows of 2018.
  - Table 4 is the sums per year, legume category and continental region,
    with the yield recomputed from the sums.
  - Both helpers first insist that (Area, Year, Item Code) identifies a row.
- **The driver** (`main.py`):
  - the guard that refuses to run when the output path already exists;
  - the reshape of the long production series, element codes 5312 (area
    harvested) and 5510 (production), into the wide crop table.
- **Non-symbiotic fixation** (`nonsymbiotic.py`): per-hectare Low, Main and
  High coefficients per item, scaled by the harvested area. The result has
  exactly the rows of the area series: a coefficient row whose item has no
  area row adds no row.

## How the values are represented

- Numbers are `real`.
- A missing or undefined number (NaN) is `None` in `Value = Option<real>`
  (module `Floats`). Arithmetic propagates it, as pandas does.
- A division by zero is also `None`. This covers the infinities pandas would
  produce.
- The natural logarithm is a parameter `ln: real -> real` and stays
  uninterpreted. The logarithm of a non-positive number is `None`.
- Data frames become maps from their index to records:
  - the wide crop table is `map<Key, Columns>`, keyed by (Area Code, Area,
    Item Code, Item, Year);
  - the estimate is `map<Key, Enriched>`.
- The reference tables are parameters:
  - the crop map (item code to crop name) is `map<int, string>`;
  - the country list and the country-group table are sequences of rows.
- A failed `assert`, a failed unpacking or a cross-section (`xs`) whose
  label no row carries, in `grainleg.py`, `main.py` or `nonsymbiotic.py`,
  becomes a `Result.Failure` carrying an `Error`.

Modules:

| module | file | models |
|---|---|---|
| `Wrappers` | wrappers.dfy | `Option`, `Result` |
| `Floats` | floats.dfy | NaN-propagating arithmetic |
| `Table` | table.dfy | the crop-table key, its two columns, and the error kinds |
| `Reference` | reference.dfy | the region map |
| `Coefficients` | coefficients.dfy | the coefficient tables and the `get_*` lookups |
| `Grainleg` | grainleg.dfy | `estimate_fixation` and the formula chain |
| `Reports` | reports.dfy | `calc_herridge_table_2` and `calc_herridge_table_4` |
| `Production` | production.dfy | the output guard and the element pivot of `main.py` |
| `Nonsymbiotic` | nonsymbiotic.dfy | `estimate_fixation_MgN` |

## Model

| member | source | states |
|---|---|---|
| Reference.OneNamed | grainleg.py:40-42 | Exactly one code is collected for a name exactly when exactly one row of the country list has that name. That code belongs to that row. |
| Reference.BrazilCode | grainleg.py:40-42 | Unpacking Brazil's code succeeds exactly when one country row is named "Brazil", and yields that row's code. Any other count is a fatal MissingReferenceData. |
| Reference.BrazilCodeUnique | grainleg.py:40-46 | Once the Brazil row is unique, its code is the only code of a row named Brazil. |
| Reference.BuildRegions | grainleg.py:29-46 | The region map labels exactly the codes of the country list. A code is Brazil iff it is Brazil's code. It is Europe iff it is a European code and not Brazil's, so Brazil wins. Otherwise it is ROW. European codes missing from the list are ignored. |
| Coefficients.Coef | grainleg.py:92-106 | A dictionary lookup gives the override when the crop has one, otherwise the default for a crop of the crop map, otherwise NaN. |
| Coefficients.ApplyRegional | grainleg.py:166-171 | Regional overrides are applied in order: with no matching (crop, region) the crop's value stays, and otherwise the last matching override decides. |
| Coefficients.HarvestIndex | grainleg.py:91-108 | HI is defined exactly for a known crop with a positive yield. It equals k·ln(yield)+m, where (k, m) is (0.1178, 0.2775) for Soybean, (0.1343, 0.2614) for Groundnut, (0.0517, 0.1647) for Pigeonpea and (0.0804, 0.2839) otherwise. |
| Coefficients.NConcentration | grainleg.py:115-132 | Shoot N concentration is defined exactly for a known crop with defined shoot DM and a defined non-zero area. For Soybean it is (−0.118·DM/area+3.913)/100. For every other crop it is a constant percentage over 100 that does not depend on DM: 2.7 for Groundnut and Lupin, 1.9 for Chickpea and Pigeonpea, 2.5 otherwise. |
| Coefficients.BelowGroundFactor | grainleg.py:139-145 | The below-ground factor is 2.0 for Chickpea and Pigeonpea and 1.4 for every other crop of the crop map. |
| Coefficients.Ndfa | grainleg.py:152-173 | Ndfa is 0.44 for Soybean in Europe and 0.78 for Soybean in Brazil, whatever the default. Otherwise it is the crop default: 0.61 Soybean, 0.38 Common bean, 0.74 Pigeonpea, Faba bean and Lupin, 0.62 otherwise. For a crop of the crop map it lies strictly between 0 and 1. |
| Grainleg.Enrich | grainleg.py:66-82 | A kept row keeps its input columns, crop and region. The derived columns form the chain yield = P/A, shoot DM = P/HI, shoot N = DM·conc, total N = shoot N·BG, fixed N = total N·Ndfa. HI, concentration, BG and Ndfa come from their coefficient functions, each fed the earlier column it uses. |
| Grainleg.EstimateFixation | grainleg.py:54-84 | A row is kept exactly when its Item Code is in the crop map and its Area Code is in the region map. Its input columns are unchanged. Its crop and region are the maps' entries. |
| Grainleg.FixedNClosedForm | grainleg.py:111-177 | Along the chain, a defined fixed N equals shoot DM·concentration·BG·Ndfa, which equals production/HI·concentration·BG·Ndfa, with HI non-zero. |
| Grainleg.FixedNDefinedness | grainleg.py:87-177 | For a mapped crop, yield is defined iff production and area are defined and area is non-zero. Fixed N is defined iff yield is positive and HI is defined and non-zero. BG is always defined, and Ndfa is always in (0, 1). |
| Grainleg.FixedNeverExceedsTotal | grainleg.py:152-177 | For a mapped crop with non-negative total N, fixed N lies between 0 and total N. |
| Grainleg.SoybeanInBrazilCoefficients | grainleg.py:87-173 | Soybean in Brazil on 1,000,000 ha producing 3,000,000 Mg has yield 3, HI 0.1178·ln 3+0.2775, BG 1.4 and Ndfa 0.78. |
| Grainleg.SoybeanConcentration | grainleg.py:115-132 | Soybean's concentration on 1,000,000 ha with shoot DM `dm` is (−0.118·dm/1,000,000+3.913)/100. |
| Grainleg.SoybeanInBrazilFixedN | grainleg.py:111-177 | In the same example, with HI non-zero, shoot DM is 3,000,000/HI, the concentration follows the soybean formula, and fixed N is defined. |
| Reports.CheckKeysUnique | grainleg.py:191 | The one-pass check answers true exactly when no two rows share (Area, Year, Item Code). |
| Reports.Select | grainleg.py:193-195 | The selected rows are exactly the rows with that item code and year. |
| Reports.Table2 | grainleg.py:189-197 | Table 2 fails with NonUniqueKey exactly when the key is not unique. With a unique key it fails with MissingLabel exactly when no row is a soybean row of 2018, since one of the two cross-sections then finds no label. Otherwise it holds exactly the soybean rows of 2018. |
| Reports.LegumeCategory | grainleg.py:231-236 | An item has a category iff it is in the crop map. Soybean and Groundnut keep their name, and every other crop is "Pulses". |
| Reports.Memberships | grainleg.py:238-243 | The kept memberships are group-table rows of the country whose group has a region. |
| Reports.MembershipsCount | grainleg.py:238-243 | Each group-table row of the country whose group has a region is kept as many times as the table lists it, and no other row is kept. |
| Reports.RowEntriesExact | grainleg.py:238-243 | A row joined with the group table yields exactly one entry per kept membership, in order. The i-th entry carries the row's amounts, year and category, and the region of the i-th membership. |
| Reports.RowEntriesCover | grainleg.py:238-243 | Every entry of a row carries its amounts, year and category and the region of a group its country belongs to. Every such group's region has an entry. |
| Reports.EntriesProvenance | grainleg.py:238-247 | Every bucketed entry comes from a row with a legume category and a group membership whose region is the entry's. It carries that row's amounts and year. |
| Reports.EntriesOfRow | grainleg.py:238-247 | A single row yields no entry when its item has no legume category. Otherwise it yields its row entries under that category. |
| Reports.EntriesConcat | grainleg.py:238-247 | The join treats rows independently and keeps their order: the entries of two blocks of rows are the first block's entries followed by the second's. |
| Reports.AmountsInConcat | grainleg.py:248-249 | A bucket's amounts in two blocks of entries are those in the first block followed by those in the second. |
| Reports.BucketTotalsAdditive | grainleg.py:238-249 | A bucket's totals over two blocks of rows are the column-wise sum of its totals over each block. |
| Reports.GroupSums | grainleg.py:248-249 | The buckets are exactly the keys of the entries. Each bucket's totals are the NaN-skipping sum of exactly its own entries' amounts. |
| Reports.SumOfConcat | grainleg.py:248-249 | Summing a concatenation equals adding the two parts' sums column by column. |
| Reports.EntryKeys | grainleg.py:215-247 | Every entry's category is Soybean, Groundnut or Pulses. Every entry's region is one of the six Table 4 regions, with South and Central America merged. |
| Reports.BucketKeys | grainleg.py:238-249 | Every bucket of the sums has one of the three categories and one of the six regions. |
| Reports.ReportRow | grainleg.py:248-250 | A Table 4 row keeps its bucket's totals. Its yield is defined iff summed area is non-zero, and then equals summed production / summed area. |
| Reports.YearRows | grainleg.py:250-251 | The cross-section of one year fails with MissingLabel exactly when no bucket has that year. Otherwise it holds exactly that year's buckets, each made a Table 4 row from its own totals. |
| Reports.YearKeys | grainleg.py:238-251 | The buckets of one year are exactly the keys of that year's entries, so no bucket has the year exactly when no entry has it. |
| Reports.Table4 | grainleg.py:228-251 | Table 4 fails with NonUniqueKey exactly when the key is not unique. With a unique key it fails with MissingLabel exactly when no entry is of 2018, because the cross-section of 2018 then finds no label. Otherwise its buckets are exactly the keys of the 2018 entries, every bucket has an allowed category and region, and its totals are the sums of its own entries. Its yield is defined iff summed area is non-zero, and then equals summed production / summed area. |
| Production.Xs | main.py:58-63 | The values of one element are keyed by exactly the keys that have a record of that element. Each value is the value of the last such record. |
| Production.XsEmpty | main.py:58-63 | One element's values are empty exactly when no record has that element code. |
| Production.Pivot | main.py:56-65 | The pivot fails with MissingLabel exactly when no record has element code 5312 or none has 5510, since the cross-section for that code then finds no label. Otherwise the wide table's keys are exactly the union of the keys of elements 5312 and 5510. A column is NaN when its element has no record for the key. A defined column holds the value of a record of its own element under that key. |
| Production.XsUnique | main.py:58-63 | With one record per (element, key), every record of the element is found under its key with its own value. |
| Production.PivotCarriesValues | main.py:56-65 | When the pivot succeeds and there is one record per (element, key), an element-5312 record lands unchanged in the area column and an element-5510 record in the production column. |
| Production.CropElements | main.py:56-65 | The filter keeps exactly the records of elements 5312 and 5510. |
| Production.XsIgnoresOtherElements | main.py:58-63 | Records of other elements do not change one element's values. |
| Production.PivotIgnoresOtherElements | main.py:56-65 | Records of any other element code contribute nothing to the wide table. |
| Production.GuardOutput | main.py:15-18 | The run exits with status 1 exactly when the output path exists, as a directory or a file, and creates nothing then. Otherwise it creates exactly that directory and goes on. |
| Production.SecondRunRefused | main.py:15-18 | After a run that went on, a second run over the same directory exits with status 1 and the refusal message. |
| Nonsymbiotic.BandValue | nonsymbiotic.py:10-23 | One band of one row is defined iff the item has coefficients, its cell for that band is not blank, and the area is defined. It then equals coefficient·0.001·area. |
| Nonsymbiotic.EstimateFixationMgN | nonsymbiotic.py:10-23 | The estimator fails with NotAreaSeries unless it is given a series named "Area_harvested_ha". Otherwise it keeps every row of the series. Each of the three bands is the item's coefficient for that band ·0.001·area, or NaN when the item has no coefficients, its cell for that band is blank, or the area is NaN. |
| Nonsymbiotic.ZeroAreaFixesNothing | nonsymbiotic.py:23 | Zero hectares give zero fixation in every band whose coefficient is not blank. |
| Nonsymbiotic.BandsFollowCoefficientOrder | nonsymbiotic.py:23 | For a non-negative area and three non-blank, ordered coefficients Low ≤ Main ≤ High, the three results are ordered the same way. |
| Nonsymbiotic.SameItemSameBands | nonsymbiotic.py:23 | Two rows of the same item with the same area get the same bands, whatever their country or year: the coefficient depends on the item code alone. |
| Nonsymbiotic.LinearInArea | nonsymbiotic.py:23 | Scaling a row's area by t scales each of its bands by t. |
| Nonsymbiotic.BandValueLinear | nonsymbiotic.py:23 | One band of one row is linear in the area. |
| Nonsymbiotic.BlankCellBlanksOneBand | nonsymbiotic.py:10-23 | A blank coefficient cell makes that band of the row NaN, while a non-blank band of the same item is still computed. |
| Nonsymbiotic.WorkedExample | nonsymbiotic.py:10-23 | Coefficients 5, 10 and 15 kg N/ha on 100,000 ha give 500, 1000 and 1500 Mg N. |

## Left out

- Reading the zipped FAOSTAT CSV and the reference CSVs, `to_csv`, `print` and the bare notebook-cell expressions (I/O and display). The tables they produce are parameters.
- The `calc_peoples_table_2` and `calc_peoples_table_4` calls of `main.py` (lines 73-80). `grainleg.py` defines no functions of those names: its report helpers are `calc_herridge_table_2` and `calc_herridge_table_4`, and those are what `Reports` models.
- Presentation of the report tables: `.div(1e6)`, `.round(...)`, the renaming of columns, the `reindex` to the five countries of Table 2, and the category and region order in Table 4. The Year level, which the cross-section of 2018 drops, stays in the model's bucket key, where it is always 2018.
- IEEE floating point.
  - NaN and the infinities are one `None`. So a row whose production is 0 has no HI (ln 0 is −inf in numpy) and no fixed N here; numpy would carry −inf and −0.0.
  - Rounding error is not modelled.
- Grainleg.FixedNDefinedness: states definedness under the `None`-for-infinity reading above, not numpy's −inf results for zero production.
- `ln` is uninterpreted, so no numeric value of HI is computed, only its formula.
- `SOYBEANS_CODE` (the inversion of the crop map) is the parameter `soybeanCode` of `Table2`.
- Reports.Table2: states which rows are kept, not their order.
- Duplicate labels in the reference tables: the crop map, the region map and the coefficient table are maps, so a repeated code has a single entry.
- Production.Xs: where one (key, element) pair repeats, the model keeps the value of the last such record; pandas `xs` returns every matching value under the repeated key.
- Production.Pivot: where one (key, element) pair repeats, the model keeps the later value; pandas would refuse to align such a series or duplicate the row. `PivotCarriesValues` states the exact result for unique records.
- Table 4 sums every numeric column (`numeric_only=True`), including the codes and the per-row coefficients. The model sums the six quantities the table shows: area, production, shoot DM, shoot N, total crop N and fixed N.
- Creating the output directory when its parent does not exist (`mkdir` would raise). The guard models only the existence test.
- Uncertainty bands and category roll-ups of the symbiotic results: none of the modelled files contain them.
