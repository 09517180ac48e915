/**
  The driver's own logic: the guard that refuses to run over an existing output
  directory, and the reshape of the long FAOSTAT production series (one value
  per element code) into the wide crop table with one column per element.
 */
module Production {
  import opened Wrappers
  import opened Floats
  import opened Table

  /** FAOSTAT element codes of the two series the crop table is built from. */
  const AreaHarvestedElement := 5312
  const ProductionElement := 5510

  /** One value of the long production series: its six index levels and the value. */
  datatype LongRecord = LongRecord(areaCode: int, area: string, itemCode: int, item: string,
                                   elementCode: int, year: int, value: Value)

  /** The record's index with the Element Code level taken out. */
  function KeyOf(rec: LongRecord): Key
  {
    Key(rec.areaCode, rec.area, rec.itemCode, rec.item, rec.year)
  }

  /** `rec` is a record of `element` under key `k`. */
  predicate IsAt(rec: LongRecord, element: int, k: Key)
  {
    rec.elementCode == element && KeyOf(rec) == k
  }

  /** Some record of `element` has key `k`. */
  ghost predicate HasRecord(recs: seq<LongRecord>, element: int, k: Key)
  {
    exists i :: 0 <= i < |recs| && IsAt(recs[i], element, k)
  }

  /**
    `xs(element, level="Element Code")`: the values of one element, keyed by the
    remaining index levels. Where a key repeats within the element, the later
    record's value is the one kept.
   */
  function Xs(recs: seq<LongRecord>, element: int): (m: map<Key, Value>)
    ensures forall k :: k in m <==> HasRecord(recs, element, k)
    ensures forall k | k in m :: exists i :: 0 <= i < |recs| && IsAt(recs[i], element, k) && recs[i].value == m[k]
                                             && forall j :: i < j < |recs| ==> !IsAt(recs[j], element, k)
  {
    if |recs| == 0 then map[]
    else
      var m := Xs(recs[..|recs| - 1], element);
      XsStep(recs, element, m);
      var last := recs[|recs| - 1];
      if last.elementCode == element then m[KeyOf(last) := last.value] else m
  }

  /** The contract of Xs, as a predicate of the records and a candidate result. */
  ghost predicate XsOf(recs: seq<LongRecord>, element: int, m: map<Key, Value>)
  {
    && (forall k :: k in m <==> HasRecord(recs, element, k))
    && (forall k | k in m :: exists i :: 0 <= i < |recs| && IsAt(recs[i], element, k) && recs[i].value == m[k]
                                         && forall j :: i < j < |recs| ==> !IsAt(recs[j], element, k))
  }

  /** One step of Xs: the values of all but the last record, updated with the last one if it is of the element. */
  lemma XsStep(recs: seq<LongRecord>, element: int, m: map<Key, Value>)
    requires |recs| > 0 && XsOf(recs[..|recs| - 1], element, m)
    ensures var last := recs[|recs| - 1];
            XsOf(recs, element, if last.elementCode == element then m[KeyOf(last) := last.value] else m)
  {
    var front, last := recs[..|recs| - 1], recs[|recs| - 1];
    var n := |front|;
    assert forall i :: 0 <= i < n ==> recs[i] == front[i];
    var r := if last.elementCode == element then m[KeyOf(last) := last.value] else m;
    forall k | k in r
      ensures exists i :: 0 <= i < |recs| && IsAt(recs[i], element, k) && recs[i].value == r[k]
                          && forall j :: i < j < |recs| ==> !IsAt(recs[j], element, k)
    {
      if IsAt(last, element, k) {
        assert IsAt(recs[n], element, k) && recs[n].value == r[k];
      } else {
        var i :| 0 <= i < n && IsAt(front[i], element, k) && front[i].value == m[k]
                 && forall j :: i < j < n ==> !IsAt(front[j], element, k);
        assert IsAt(recs[i], element, k) && recs[i].value == r[k];
      }
    }
    forall k | exists i :: 0 <= i < |recs| && IsAt(recs[i], element, k)
      ensures k in r
    {
      var i :| 0 <= i < |recs| && IsAt(recs[i], element, k);
      if i < n { assert IsAt(front[i], element, k); }
    }
  }

  /** Some record is of `element`: the Element Code level carries that label. */
  ghost predicate HasElement(recs: seq<LongRecord>, element: int)
  {
    exists i :: 0 <= i < |recs| && recs[i].elementCode == element
  }

  /** One element's values are empty exactly when no record is of that element. */
  lemma XsEmpty(recs: seq<LongRecord>, element: int)
    ensures |Xs(recs, element)| == 0 <==> !HasElement(recs, element)
  {
    var m := Xs(recs, element);
    if HasElement(recs, element) {
      var i :| 0 <= i < |recs| && recs[i].elementCode == element;
      assert IsAt(recs[i], element, KeyOf(recs[i]));
      assert KeyOf(recs[i]) in m;
    }
  }

  /** The wide table built from the two cross-sections, one row per key of either. */
  function Wide(recs: seq<LongRecord>): (wide: map<Key, Columns>)
    ensures forall k :: k in wide <==> HasRecord(recs, AreaHarvestedElement, k) || HasRecord(recs, ProductionElement, k)
    ensures forall k | k in wide ::
              && (HasRecord(recs, AreaHarvestedElement, k) || wide[k].areaHarvestedHa == None)
              && (HasRecord(recs, ProductionElement, k) || wide[k].productionMg == None)
    ensures forall k | k in wide ::
              && (wide[k].areaHarvestedHa == None
                  || exists i :: 0 <= i < |recs| && IsAt(recs[i], AreaHarvestedElement, k)
                                 && recs[i].value == wide[k].areaHarvestedHa)
              && (wide[k].productionMg == None
                  || exists i :: 0 <= i < |recs| && IsAt(recs[i], ProductionElement, k)
                                 && recs[i].value == wide[k].productionMg)
  {
    var area := Xs(recs, AreaHarvestedElement);
    var production := Xs(recs, ProductionElement);
    map k | k in area.Keys + production.Keys ::
      Columns(if k in area then area[k] else None, if k in production then production[k] else None)
  }

  /**
    The wide crop table: one row per key that has an area-harvested or a
    production value, each column filled from its own element and NaN where
    the key has no record of that element. Each cross-section fails when no
    record carries its element code at all.
   */
  function Pivot(recs: seq<LongRecord>): (r: Result<map<Key, Columns>, Error>)
    ensures r.Failure? <==> !HasElement(recs, AreaHarvestedElement) || !HasElement(recs, ProductionElement)
    ensures r.Failure? ==> r.error == MissingLabel
    ensures r.Success? ==> forall k :: k in r.value <==> HasRecord(recs, AreaHarvestedElement, k) || HasRecord(recs, ProductionElement, k)
    ensures r.Success? ==> forall k | k in r.value ::
              && (HasRecord(recs, AreaHarvestedElement, k) || r.value[k].areaHarvestedHa == None)
              && (HasRecord(recs, ProductionElement, k) || r.value[k].productionMg == None)
    ensures r.Success? ==> forall k | k in r.value ::
              && (r.value[k].areaHarvestedHa == None
                  || exists i :: 0 <= i < |recs| && IsAt(recs[i], AreaHarvestedElement, k)
                                 && recs[i].value == r.value[k].areaHarvestedHa)
              && (r.value[k].productionMg == None
                  || exists i :: 0 <= i < |recs| && IsAt(recs[i], ProductionElement, k)
                                 && recs[i].value == r.value[k].productionMg)
  {
    XsEmpty(recs, AreaHarvestedElement);
    XsEmpty(recs, ProductionElement);
    if |Xs(recs, AreaHarvestedElement)| == 0 || |Xs(recs, ProductionElement)| == 0 then Failure(MissingLabel)
    else Success(Wide(recs))
  }

  /** No two records share an element and a key. */
  predicate RecordsUnique(recs: seq<LongRecord>)
  {
    forall i, j :: 0 <= i < j < |recs| ==>
      !(recs[i].elementCode == recs[j].elementCode && KeyOf(recs[i]) == KeyOf(recs[j]))
  }

  /**
    With one record per element and key, every value lands unchanged in its
    own column, under its own key: area harvested from element 5312, production
    from element 5510.
   */
  lemma PivotCarriesValues(recs: seq<LongRecord>, i: nat)
    requires RecordsUnique(recs) && i < |recs|
    ensures var r, rec := Pivot(recs), recs[i];
            r.Success? ==>
            && (rec.elementCode == AreaHarvestedElement ==>
                  KeyOf(rec) in r.value && r.value[KeyOf(rec)].areaHarvestedHa == rec.value)
            && (rec.elementCode == ProductionElement ==>
                  KeyOf(rec) in r.value && r.value[KeyOf(rec)].productionMg == rec.value)
  {
    var rec := recs[i];
    if rec.elementCode in {AreaHarvestedElement, ProductionElement} {
      XsUnique(recs, rec.elementCode, i);
    }
  }

  lemma XsUnique(recs: seq<LongRecord>, element: int, i: nat)
    requires RecordsUnique(recs) && i < |recs| && recs[i].elementCode == element
    ensures KeyOf(recs[i]) in Xs(recs, element) && Xs(recs, element)[KeyOf(recs[i])] == recs[i].value
  {
    var k := KeyOf(recs[i]);
    var m := Xs(recs, element);
    assert IsAt(recs[i], element, k);
    var j :| 0 <= j < |recs| && IsAt(recs[j], element, k) && recs[j].value == m[k]
             && forall l :: j < l < |recs| ==> !IsAt(recs[l], element, k);
  }

  /** The records of the two elements the crop table is built from, in order. */
  function CropElements(recs: seq<LongRecord>): (r: seq<LongRecord>)
    ensures forall rec :: rec in r <==> rec in recs && rec.elementCode in {AreaHarvestedElement, ProductionElement}
  {
    if |recs| == 0 then []
    else
      var rest := CropElements(recs[..|recs| - 1]);
      var last := recs[|recs| - 1];
      assert forall rec :: rec in recs <==> rec in recs[..|recs| - 1] || rec == last;
      if last.elementCode in {AreaHarvestedElement, ProductionElement} then rest + [last] else rest
  }

  /** Records of any other element code contribute nothing to one element's values. */
  lemma {:induction false} XsIgnoresOtherElements(recs: seq<LongRecord>, element: int)
    requires element in {AreaHarvestedElement, ProductionElement}
    ensures Xs(CropElements(recs), element) == Xs(recs, element)
  {
    if |recs| > 0 {
      var front, last := recs[..|recs| - 1], recs[|recs| - 1];
      XsIgnoresOtherElements(front, element);
      var rest := CropElements(front);
      if last.elementCode in {AreaHarvestedElement, ProductionElement} {
        var r := rest + [last];
        assert r[..|r| - 1] == rest;
      }
    }
  }

  /** Records of any other element code contribute nothing to the wide crop table. */
  lemma PivotIgnoresOtherElements(recs: seq<LongRecord>)
    ensures Pivot(CropElements(recs)) == Pivot(recs)
  {
    XsIgnoresOtherElements(recs, AreaHarvestedElement);
    XsIgnoresOtherElements(recs, ProductionElement);
  }

  /** The part of the file system the guard looks at: the paths that exist, directories or files alike. */
  datatype FileSystem = FileSystem(paths: set<string>)

  /** The guard either stops the run with an exit status and a message, or lets it go on. */
  datatype GuardOutcome =
    | Exit(status: int, message: string)
    | Proceed(fs: FileSystem)

  /**
    The output-directory guard: an existing output path, directory or file,
    stops the run with status 1 before anything is created; otherwise the
    directory is created and the run goes on.
   */
  function GuardOutput(fs: FileSystem, outdata: string): (r: GuardOutcome)
    ensures r.Exit? <==> outdata in fs.paths
    ensures r.Exit? ==> r.status == 1
    ensures r.Proceed? ==> r.fs.paths == fs.paths + {outdata} && outdata !in fs.paths
  {
    if outdata in fs.paths then
      Exit(1, "Not doing anything because outdata directory exists: '" + outdata + "'")
    else
      Proceed(FileSystem(fs.paths + {outdata}))
  }

  /** A second run after one that went on is refused: the guard never lets two runs write to the same directory. */
  lemma SecondRunRefused(fs: FileSystem, outdata: string)
    ensures var first := GuardOutput(fs, outdata);
            first.Proceed? ==> GuardOutput(first.fs, outdata) == Exit(1, "Not doing anything because outdata directory exists: '" + outdata + "'")
  {
  }
}
