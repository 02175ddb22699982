/** Constants shared by the dashboard callbacks and the aggregation code. */
module Settings {
  /** The top of the age slider (utils.py, line 13); a selected upper bound
      equal to it means "this age and older". */
  const AgeMax: int := 40
}
