/**
  The report helpers that reproduce Tables 2 and 4 of Herridge et al. (2022)
  from the estimate: both first insist that (Area, Year, Item Code) identifies
  a row; Table 4 then buckets crops into legume categories and countries into
  continental regions and sums each bucket.
 */
module Reports {
  import opened Wrappers
  import opened Floats
  import opened Table
  import opened Reference
  import opened Grainleg

  /** A row of the estimate with its index turned into columns. */
  datatype FixationRow = FixationRow(key: Key, fix: Enriched)

  /** The key the report helpers require to be unique: area name, year and item code. */
  datatype ReportKey = ReportKey(area: string, year: int, itemCode: int)

  function ReportKeyOf(row: FixationRow): ReportKey
  {
    ReportKey(row.key.area, row.key.year, row.key.itemCode)
  }

  /** No two rows share a report key. */
  predicate KeysUnique(rows: seq<FixationRow>)
  {
    forall i, j :: 0 <= i < j < |rows| ==> ReportKeyOf(rows[i]) != ReportKeyOf(rows[j])
  }

  /** `index.is_unique`: one pass over the rows remembering the keys seen so far. */
  method CheckKeysUnique(rows: seq<FixationRow>) returns (unique: bool)
    ensures unique <==> KeysUnique(rows)
  {
    var seen: set<ReportKey> := {};
    var i := 0;
    while i < |rows|
      invariant 0 <= i <= |rows|
      invariant seen == set j | 0 <= j < i :: ReportKeyOf(rows[j])
      invariant KeysUnique(rows[..i])
    {
      var k := ReportKeyOf(rows[i]);
      if k in seen {
        var j :| 0 <= j < i && ReportKeyOf(rows[j]) == k;
        assert ReportKeyOf(rows[j]) == ReportKeyOf(rows[i]);
        return false;
      }
      assert forall j :: 0 <= j < i ==> ReportKeyOf(rows[j]) != k;
      seen := seen + {k};
      i := i + 1;
    }
    assert rows[..i] == rows;
    return true;
  }

  /** The rows of one item in one year, in table order. */
  function Select(rows: seq<FixationRow>, itemCode: int, year: int): (r: seq<FixationRow>)
    ensures forall x :: x in r <==> x in rows && x.key.itemCode == itemCode && x.key.year == year
    ensures |r| <= |rows|
  {
    if |rows| == 0 then []
    else
      var rest := Select(rows[1..], itemCode, year);
      assert forall x :: x in rows <==> x == rows[0] || x in rows[1..];
      if rows[0].key.itemCode == itemCode && rows[0].key.year == year then [rows[0]] + rest else rest
  }

  /**
    Table 2: the soybean rows of 2018, after the key-uniqueness assertion.
    `soybeanCode` is the item code the crop map gives to "Soybean". Each of
    the two cross-sections fails when no row carries its label, so the table
    fails unless some row is a soybean row of 2018.
   */
  function Table2(rows: seq<FixationRow>, soybeanCode: int): (r: Result<seq<FixationRow>, Error>)
    ensures r.Failure? <==> !KeysUnique(rows) || forall x | x in rows :: !(x.key.itemCode == soybeanCode && x.key.year == 2018)
    ensures r.Failure? ==> (r.error == NonUniqueKey <==> !KeysUnique(rows))
    ensures r.Failure? ==> r.error in {NonUniqueKey, MissingLabel}
    ensures r.Success? ==> forall x :: x in r.value <==> x in rows && x.key.itemCode == soybeanCode && x.key.year == 2018
  {
    if !KeysUnique(rows) then Failure(NonUniqueKey)
    else
      var soybean2018 := Select(rows, soybeanCode, 2018);
      if |soybean2018| == 0 then Failure(MissingLabel)
      else
        assert soybean2018[0] in soybean2018;
        Success(soybean2018)
  }

  /** FAOSTAT continent groups merged into the regions of Table 4; every other group has no region. */
  const RegionBuckets: map<string, string> := map[
    "South America" := "South, Central America",
    "Central America" := "South, Central America",
    "Northern America" := "North America",
    "Asia" := "Asia",
    "Europe" := "Europe",
    "Africa" := "Africa",
    "Oceania" := "Oceania"]

  /** The legume categories and the regions of Table 4. */
  const LegumeCategories: set<string> := {"Soybean", "Groundnut", "Pulses"}
  const Table4Regions: set<string> := {"South, Central America", "North America", "Asia", "Europe", "Africa", "Oceania"}

  /** The legume category of an item: Soybean and Groundnut keep their crop name, every other mapped crop is "Pulses". */
  function LegumeCategory(cropNames: map<int, string>, itemCode: int): (r: Option<string>)
    ensures r.Some? <==> itemCode in cropNames
    ensures r.Some? ==> r.value in LegumeCategories
    ensures r.Some? && cropNames[itemCode] in {"Soybean", "Groundnut"} ==> r.value == cropNames[itemCode]
    ensures r.Some? && cropNames[itemCode] !in {"Soybean", "Groundnut"} ==> r.value == "Pulses"
  {
    if itemCode in cropNames then
      var name := cropNames[itemCode];
      Some(if name in {"Soybean", "Groundnut"} then name else "Pulses")
    else None
  }

  /** The bucket a row is summed into. */
  datatype GroupKey = GroupKey(year: int, category: string, region: string)

  /** The summed columns of a row; Table 4 sums every numeric column of the estimate, these are the ones it shows. */
  datatype Amounts = Amounts(areaHa: Value, productionMg: Value, shootDmMg: Value, shootNMgN: Value,
                             totalCropNMgN: Value, fixedNMgN: Value)

  /** NaN-skipping column sums of a bucket. */
  datatype Totals = Totals(areaHa: real, productionMg: real, shootDmMg: real, shootNMgN: real,
                           totalCropNMgN: real, fixedNMgN: real)

  /** One row's contribution to one bucket. */
  datatype Entry = Entry(key: GroupKey, amounts: Amounts)

  /** A row of Table 4: the bucket sums, and the yield recomputed from them. */
  datatype Table4Row = Table4Row(totals: Totals, yieldMgHa: Value)

  const NoTotals := Totals(0.0, 0.0, 0.0, 0.0, 0.0, 0.0)

  function AmountsOf(row: FixationRow): Amounts
  {
    Amounts(row.fix.cols.areaHarvestedHa, row.fix.cols.productionMg, row.fix.shootDmMg, row.fix.shootNMgN,
            row.fix.totalCropNMgN, row.fix.fixedNMgN)
  }

  /** Adding one row's amounts to a bucket's totals, NaN contributing nothing. */
  function Accumulate(t: Totals, a: Amounts): Totals
  {
    Totals(AddSkipNaN(t.areaHa, a.areaHa), AddSkipNaN(t.productionMg, a.productionMg),
           AddSkipNaN(t.shootDmMg, a.shootDmMg), AddSkipNaN(t.shootNMgN, a.shootNMgN),
           AddSkipNaN(t.totalCropNMgN, a.totalCropNMgN), AddSkipNaN(t.fixedNMgN, a.fixedNMgN))
  }

  /** Column-wise sum of two totals. */
  function Combine(s: Totals, t: Totals): Totals
  {
    Totals(s.areaHa + t.areaHa, s.productionMg + t.productionMg, s.shootDmMg + t.shootDmMg,
           s.shootNMgN + t.shootNMgN, s.totalCropNMgN + t.totalCropNMgN, s.fixedNMgN + t.fixedNMgN)
  }

  /** The NaN-skipping sum of a list of amounts (zero for an empty list or an all-NaN column). */
  function SumOf(xs: seq<Amounts>): Totals
  {
    if |xs| == 0 then NoTotals else Accumulate(SumOf(xs[..|xs| - 1]), xs[|xs| - 1])
  }

  /** The amounts of the entries of one bucket, in order. */
  function AmountsIn(es: seq<Entry>, k: GroupKey): seq<Amounts>
  {
    if |es| == 0 then []
    else
      var rest := AmountsIn(es[..|es| - 1], k);
      if es[|es| - 1].key == k then rest + [es[|es| - 1].amounts] else rest
  }

  /** The group memberships of a country in groups that have a region, in group-table order. */
  function Memberships(groups: seq<GroupMember>, areaCode: int): (ms: seq<GroupMember>)
    ensures forall i | 0 <= i < |ms| :: ms[i] in groups && ms[i].countryCode == areaCode && ms[i].group in RegionBuckets
  {
    if |groups| == 0 then []
    else
      var g := groups[0];
      var rest := Memberships(groups[1..], areaCode);
      assert forall h | h in groups[1..] :: h in groups;
      if g.countryCode == areaCode && g.group in RegionBuckets then [g] + rest else rest
  }

  /** Every membership of the country in a group with a region is kept, as often as the group table lists it, and nothing else is. */
  lemma {:induction false} MembershipsCount(groups: seq<GroupMember>, areaCode: int)
    ensures forall g :: multiset(Memberships(groups, areaCode))[g]
                     == if g.countryCode == areaCode && g.group in RegionBuckets then multiset(groups)[g] else 0
  {
    if |groups| > 0 {
      MembershipsCount(groups[1..], areaCode);
      assert groups == [groups[0]] + groups[1..];
    }
  }

  /**
    The entries of one row: one per membership of its country in a group that
    has a region, in group-table order. A country in no such group contributes nothing.
   */
  function RowEntries(row: FixationRow, category: string, groups: seq<GroupMember>): seq<Entry>
  {
    if |groups| == 0 then []
    else
      var g := groups[0];
      var rest := RowEntries(row, category, groups[1..]);
      if g.countryCode == row.key.areaCode && g.group in RegionBuckets then
        [Entry(GroupKey(row.key.year, category, RegionBuckets[g.group]), AmountsOf(row))] + rest
      else rest
  }

  /**
    One entry per membership, exactly: the i-th entry of a row is the row's
    amounts in the bucket of its i-th membership, and there are no others.
   */
  lemma {:induction false} RowEntriesExact(row: FixationRow, category: string, groups: seq<GroupMember>)
    ensures var es, ms := RowEntries(row, category, groups), Memberships(groups, row.key.areaCode);
            && |es| == |ms|
            && forall i | 0 <= i < |es| ::
                 es[i] == Entry(GroupKey(row.key.year, category, RegionBuckets[ms[i].group]), AmountsOf(row))
  {
    if |groups| > 0 {
      var g := groups[0];
      RowEntriesExact(row, category, groups[1..]);
      var es, rest := RowEntries(row, category, groups), RowEntries(row, category, groups[1..]);
      var ms, msr := Memberships(groups, row.key.areaCode), Memberships(groups[1..], row.key.areaCode);
      if g.countryCode == row.key.areaCode && g.group in RegionBuckets {
        assert es == [Entry(GroupKey(row.key.year, category, RegionBuckets[g.group]), AmountsOf(row))] + rest;
        assert ms == [g] + msr;
        forall i | 1 <= i < |es|
          ensures es[i] == Entry(GroupKey(row.key.year, category, RegionBuckets[ms[i].group]), AmountsOf(row))
        {
          assert es[i] == rest[i - 1] && ms[i] == msr[i - 1];
        }
      } else {
        assert es == rest && ms == msr;
      }
    }
  }

  /**
    The entries of a row are its own: each carries the row's amounts, year and
    category and the region of a group the row's country belongs to; and each
    such group's region has an entry.
   */
  lemma RowEntriesCover(row: FixationRow, category: string, groups: seq<GroupMember>)
    ensures forall e | e in RowEntries(row, category, groups) ::
              && e.amounts == AmountsOf(row) && e.key.year == row.key.year && e.key.category == category
              && exists g | g in groups :: g.countryCode == row.key.areaCode && g.group in RegionBuckets
                                          && e.key.region == RegionBuckets[g.group]
    ensures forall g | g in groups && g.countryCode == row.key.areaCode && g.group in RegionBuckets ::
              Entry(GroupKey(row.key.year, category, RegionBuckets[g.group]), AmountsOf(row)) in RowEntries(row, category, groups)
  {
    var es, ms := RowEntries(row, category, groups), Memberships(groups, row.key.areaCode);
    RowEntriesExact(row, category, groups);
    MembershipsCount(groups, row.key.areaCode);
    forall e | e in es
      ensures exists g | g in groups :: g.countryCode == row.key.areaCode && g.group in RegionBuckets
                                       && e.key.region == RegionBuckets[g.group]
    {
      var i :| 0 <= i < |es| && es[i] == e;
      assert ms[i] in groups;
    }
    forall g | g in groups && g.countryCode == row.key.areaCode && g.group in RegionBuckets
      ensures Entry(GroupKey(row.key.year, category, RegionBuckets[g.group]), AmountsOf(row)) in es
    {
      assert g in multiset(groups);
      assert g in multiset(ms);
      var i :| 0 <= i < |ms| && ms[i] == g;
      assert es[i] == Entry(GroupKey(row.key.year, category, RegionBuckets[g.group]), AmountsOf(row));
    }
  }

  /**
    The rows joined with their country groups, the groups' regions and the
    items' legume categories; a row without a category or a region has no entry.
   */
  function Entries(rows: seq<FixationRow>, cropNames: map<int, string>, groups: seq<GroupMember>): seq<Entry>
  {
    if |rows| == 0 then []
    else Entries(rows[..|rows| - 1], cropNames, groups) + RowContribution(rows[|rows| - 1], cropNames, groups)
  }

  /**
    Every entry comes from a row: it carries that row's amounts and year, the
    legume category of the row's item, and the region of a group its country belongs to.
   */
  lemma {:induction false} EntriesProvenance(rows: seq<FixationRow>, cropNames: map<int, string>, groups: seq<GroupMember>)
    ensures forall e | e in Entries(rows, cropNames, groups) :: exists x | x in rows ::
              && e.amounts == AmountsOf(x) && e.key.year == x.key.year
              && LegumeCategory(cropNames, x.key.itemCode) == Some(e.key.category)
              && exists g | g in groups :: g.countryCode == x.key.areaCode && g.group in RegionBuckets
                                          && e.key.region == RegionBuckets[g.group]
  {
    if |rows| > 0 {
      var front, x := rows[..|rows| - 1], rows[|rows| - 1];
      EntriesProvenance(front, cropNames, groups);
      assert forall y | y in front :: y in rows;
      assert x in rows;
      match LegumeCategory(cropNames, x.key.itemCode)
      case None =>
      case Some(category) => RowEntriesCover(x, category, groups);
    }
  }

  /** The entries of one row under its legume category; none when its item has no category. */
  function RowContribution(x: FixationRow, cropNames: map<int, string>, groups: seq<GroupMember>): seq<Entry>
  {
    match LegumeCategory(cropNames, x.key.itemCode)
    case None => []
    case Some(category) => RowEntries(x, category, groups)
  }

  /** The entries of one row alone: its memberships under its legume category, or none without a category. */
  lemma EntriesOfRow(x: FixationRow, cropNames: map<int, string>, groups: seq<GroupMember>)
    ensures var es := Entries([x], cropNames, groups);
            match LegumeCategory(cropNames, x.key.itemCode)
            case None => es == []
            case Some(category) => es == RowEntries(x, category, groups)
  {
    assert [x][..0] == [];
  }

  /**
    The join keeps row order and treats rows independently: the entries of two
    blocks of rows are the entries of the first block followed by those of the second.
   */
  lemma {:induction false} EntriesConcat(xs: seq<FixationRow>, ys: seq<FixationRow>, cropNames: map<int, string>,
                                         groups: seq<GroupMember>)
    ensures Entries(xs + ys, cropNames, groups) == Entries(xs, cropNames, groups) + Entries(ys, cropNames, groups)
  {
    if |ys| == 0 {
      assert xs + ys == xs;
    } else {
      var ys', y := ys[..|ys| - 1], ys[|ys| - 1];
      var zs := xs + ys;
      assert zs[..|zs| - 1] == xs + ys' && zs[|zs| - 1] == y;
      EntriesConcat(xs, ys', cropNames, groups);
    }
  }

  /** A bucket's amounts in two blocks of entries are its amounts in the first followed by those in the second. */
  lemma {:induction false} AmountsInConcat(es: seq<Entry>, fs: seq<Entry>, k: GroupKey)
    ensures AmountsIn(es + fs, k) == AmountsIn(es, k) + AmountsIn(fs, k)
  {
    if |fs| == 0 {
      assert es + fs == es;
    } else {
      var fs', f := fs[..|fs| - 1], fs[|fs| - 1];
      var gs := es + fs;
      assert gs[..|gs| - 1] == es + fs';
      assert gs[|gs| - 1] == f;
      AmountsInConcat(es, fs', k);
    }
  }

  /**
    Bucket totals are additive over rows: the totals of a bucket over two
    blocks of rows are the column-wise sum of its totals over each block.
   */
  lemma BucketTotalsAdditive(xs: seq<FixationRow>, ys: seq<FixationRow>, cropNames: map<int, string>,
                             groups: seq<GroupMember>, k: GroupKey)
    ensures SumOf(AmountsIn(Entries(xs + ys, cropNames, groups), k))
         == Combine(SumOf(AmountsIn(Entries(xs, cropNames, groups), k)), SumOf(AmountsIn(Entries(ys, cropNames, groups), k)))
  {
    EntriesConcat(xs, ys, cropNames, groups);
    AmountsInConcat(Entries(xs, cropNames, groups), Entries(ys, cropNames, groups), k);
    SumOfConcat(AmountsIn(Entries(xs, cropNames, groups), k), AmountsIn(Entries(ys, cropNames, groups), k));
  }

  /**
    groupby(...).sum(): the NaN-skipping totals of every bucket that has an
    entry; each bucket's totals are the sum of exactly its own entries.
   */
  function GroupSums(es: seq<Entry>): (m: map<GroupKey, Totals>)
    ensures m.Keys == set e | e in es :: e.key
    ensures forall k | k in m :: m[k] == SumOf(AmountsIn(es, k))
  {
    if |es| == 0 then map[]
    else
      var front := es[..|es| - 1];
      var e := es[|es| - 1];
      var m := GroupSums(front);
      var previous := if e.key in m then m[e.key] else NoTotals;
      var r := m[e.key := Accumulate(previous, e.amounts)];
      GroupSumsStep(es, m);
      r
  }

  /** One step of GroupSums: totals that are right for all but the last entry, updated with it, are right for all. */
  lemma GroupSumsStep(es: seq<Entry>, m: map<GroupKey, Totals>)
    requires |es| > 0
    requires m.Keys == set x | x in es[..|es| - 1] :: x.key
    requires forall k | k in m :: m[k] == SumOf(AmountsIn(es[..|es| - 1], k))
    ensures var e := es[|es| - 1];
            var r := m[e.key := Accumulate(if e.key in m then m[e.key] else NoTotals, e.amounts)];
            && r.Keys == (set x | x in es :: x.key)
            && forall k | k in r :: r[k] == SumOf(AmountsIn(es, k))
  {
    var front, e := es[..|es| - 1], es[|es| - 1];
    var r := m[e.key := Accumulate(if e.key in m then m[e.key] else NoTotals, e.amounts)];
    GroupKeysStep(es, m.Keys);
    AmountsInLast(es);
    if e.key !in m {
      NoEntriesNoAmounts(front, e.key);
    }
    forall k | k in r
      ensures r[k] == SumOf(AmountsIn(es, k))
    {
      if k != e.key {
        assert r[k] == m[k];
      }
    }
  }

  /** The buckets of all entries are those of all but the last, plus the last one's. */
  lemma GroupKeysStep(es: seq<Entry>, keys: set<GroupKey>)
    requires |es| > 0
    requires keys == set x | x in es[..|es| - 1] :: x.key
    ensures keys + {es[|es| - 1].key} == set x | x in es :: x.key
  {
    assert es == es[..|es| - 1] + [es[|es| - 1]];
  }

  /** Appending an entry extends its own bucket's amounts and leaves every other bucket alone. */
  lemma AmountsInLast(es: seq<Entry>)
    requires |es| > 0
    ensures var front, e := es[..|es| - 1], es[|es| - 1];
            && SumOf(AmountsIn(es, e.key)) == Accumulate(SumOf(AmountsIn(front, e.key)), e.amounts)
            && forall k | k != e.key :: AmountsIn(es, k) == AmountsIn(front, k)
  {
    var front, e := es[..|es| - 1], es[|es| - 1];
    var xs := AmountsIn(front, e.key) + [e.amounts];
    assert AmountsIn(es, e.key) == xs;
    assert xs[..|xs| - 1] == AmountsIn(front, e.key);
  }

  lemma {:induction false} NoEntriesNoAmounts(es: seq<Entry>, k: GroupKey)
    requires forall e | e in es :: e.key != k
    ensures AmountsIn(es, k) == []
  {
    if |es| > 0 {
      assert es[|es| - 1] in es;
      assert forall e | e in es[..|es| - 1] :: e in es;
      NoEntriesNoAmounts(es[..|es| - 1], k);
    }
  }

  /**
    Rolling up in two steps equals rolling up at once: the totals of a
    concatenation are the column-wise sum of the two parts' totals.
   */
  lemma {:induction false} SumOfConcat(xs: seq<Amounts>, ys: seq<Amounts>)
    ensures SumOf(xs + ys) == Combine(SumOf(xs), SumOf(ys))
  {
    if |ys| == 0 {
      assert xs + ys == xs;
      var s := SumOf(xs);
      assert Combine(s, NoTotals) == s;
    } else {
      var ys', y := ys[..|ys| - 1], ys[|ys| - 1];
      var zs := xs + ys;
      assert zs[..|zs| - 1] == xs + ys';
      assert zs[|zs| - 1] == y;
      assert SumOf(zs) == Accumulate(SumOf(xs + ys'), y);
      SumOfConcat(xs, ys');
      AccumulateCombine(SumOf(xs), SumOf(ys'), y);
    }
  }

  lemma AccumulateCombine(s: Totals, t: Totals, a: Amounts)
    ensures Accumulate(Combine(s, t), a) == Combine(s, Accumulate(t, a))
  {
  }

  /** Every entry lands in one of the three legume categories and one of the six regions. */
  lemma EntryKeys(rows: seq<FixationRow>, cropNames: map<int, string>, groups: seq<GroupMember>)
    ensures forall e | e in Entries(rows, cropNames, groups) ::
              && e.key.category in LegumeCategories
              && e.key.region in Table4Regions
  {
    var es := Entries(rows, cropNames, groups);
    EntriesProvenance(rows, cropNames, groups);
    forall e | e in es
      ensures e.key.category in LegumeCategories
      ensures e.key.region in Table4Regions
    {
      var x :| x in rows && LegumeCategory(cropNames, x.key.itemCode) == Some(e.key.category)
               && exists g | g in groups :: g.countryCode == x.key.areaCode && g.group in RegionBuckets
                                           && e.key.region == RegionBuckets[g.group];
      var g :| g in groups && g.countryCode == x.key.areaCode && g.group in RegionBuckets
               && e.key.region == RegionBuckets[g.group];
    }
  }

  /** A row of Table 4 from a bucket's totals: the yield is summed production over summed area, NaN over zero area. */
  function ReportRow(t: Totals): (row: Table4Row)
    ensures row.totals == t
    ensures row.yieldMgHa.Some? <==> t.areaHa != 0.0
    ensures row.yieldMgHa.Some? ==> row.yieldMgHa.value == t.productionMg / t.areaHa
  {
    Table4Row(t, Div(Some(t.productionMg), Some(t.areaHa)))
  }

  /** The year Table 4 reports. */
  const ReportYear := 2018

  /**
    The buckets of one year, each made a row of Table 4. The cross-section
    fails when no bucket of that year exists.
   */
  function YearRows(sums: map<GroupKey, Totals>, year: int): (r: Result<map<GroupKey, Table4Row>, Error>)
    ensures r.Failure? <==> forall k | k in sums :: k.year != year
    ensures r.Failure? ==> r.error == MissingLabel
    ensures r.Success? ==> r.value.Keys == set k | k in sums && k.year == year
    ensures r.Success? ==> forall k | k in r.value :: r.value[k] == ReportRow(sums[k])
  {
    var rows := map k | k in sums && k.year == year :: ReportRow(sums[k]);
    if rows == map[] then
      assert forall k | k in sums && k.year == year :: k in rows;
      Failure(MissingLabel)
    else
      var k :| k in rows;
      Success(rows)
  }

  /** The buckets of one year are the keys of that year's entries. */
  lemma YearKeys(es: seq<Entry>, year: int)
    ensures (set k | k in GroupSums(es) && k.year == year) == set e | e in es && e.key.year == year :: e.key
    ensures (forall k | k in GroupSums(es) :: k.year != year) <==> forall e | e in es :: e.key.year != year
  {
    var sums := GroupSums(es);
    forall e | e in es
      ensures e.key in sums
    {
      assert e.key in set x | x in es :: x.key;
    }
    forall k | k in sums
      ensures exists e | e in es :: e.key == k
    {
      assert k in set x | x in es :: x.key;
    }
  }

  /**
    Table 4: after the key-uniqueness assertion, the NaN-skipping totals per
    (year, legume category, region), the yield of each bucket recomputed as
    summed production over summed area, and the cross-section of 2018.
   */
  function Table4(rows: seq<FixationRow>, cropNames: map<int, string>, groups: seq<GroupMember>)
    : (r: Result<map<GroupKey, Table4Row>, Error>)
    ensures r.Failure? <==> !KeysUnique(rows) || forall e | e in Entries(rows, cropNames, groups) :: e.key.year != ReportYear
    ensures r.Failure? ==> (r.error == NonUniqueKey <==> !KeysUnique(rows))
    ensures r.Failure? ==> r.error in {NonUniqueKey, MissingLabel}
    ensures r.Success? ==> r.value.Keys == set e | e in Entries(rows, cropNames, groups) && e.key.year == ReportYear :: e.key
    ensures r.Success? ==> forall k | k in r.value ::
              && k.year == ReportYear
              && k.category in LegumeCategories
              && k.region in Table4Regions
              && r.value[k].totals == SumOf(AmountsIn(Entries(rows, cropNames, groups), k))
              && (r.value[k].yieldMgHa.Some? <==> r.value[k].totals.areaHa != 0.0)
              && (r.value[k].yieldMgHa.Some? ==>
                    r.value[k].yieldMgHa.value == r.value[k].totals.productionMg / r.value[k].totals.areaHa)
  {
    if !KeysUnique(rows) then Failure(NonUniqueKey)
    else
      var es := Entries(rows, cropNames, groups);
      BucketKeys(rows, cropNames, groups);
      YearKeys(es, ReportYear);
      YearRows(GroupSums(es), ReportYear)
  }

  lemma BucketKeys(rows: seq<FixationRow>, cropNames: map<int, string>, groups: seq<GroupMember>)
    ensures forall k | k in GroupSums(Entries(rows, cropNames, groups)) ::
              && k.category in LegumeCategories
              && k.region in Table4Regions
  {
    var es := Entries(rows, cropNames, groups);
    var sums := GroupSums(es);
    EntryKeys(rows, cropNames, groups);
    forall k | k in sums
      ensures k.category in LegumeCategories
      ensures k.region in Table4Regions
    {
      assert k in set e | e in es :: e.key;
      var e :| e in es && e.key == k;
    }
  }
}
