/** The keyed crop-production table the estimators work on, and the run's error kinds. */
module Table {
  import opened Floats

  /**
    Row key of the wide crop table: the index levels of the FAOSTAT production
    series once its Element Code level is taken out.
   */
  datatype Key = Key(areaCode: int, area: string, itemCode: int, item: string, year: int)

  /** The two columns of the wide crop table: hectares harvested and tonnes (Mg) produced. */
  datatype Columns = Columns(areaHarvestedHa: Value, productionMg: Value)

  /** The fatal error kinds of a run. */
  datatype Error =
    | MissingReferenceData   // Brazil cannot be resolved in the country list
    | NonUniqueKey           // (Area, Year, Item Code) repeats before a report reshape
    | NotAreaSeries          // the non-symbiotic estimator was not given the harvested-area series
    | MissingLabel           // a cross-section asks for an index label no row carries
}
