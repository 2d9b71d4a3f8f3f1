/** The rows the pipeline works on, with counts as unbounded integers and
    dates as day numbers. */
module Records {
  import opened Order

  datatype Option<T> = None | Some(value: T)

  datatype Result<T, E> = Ok(value: T) | Err(error: E)

  /** The `attributes` of one feature returned by the municipality service:
      one municipality-day observation. */
  datatype RawRecord = RawRecord(
    concelho: string,   // municipality (Concelho)
    distrito: string,   // district (Distrito)
    data: int,          // report date (Data)
    dataConc: int,      // report timestamp (Data_Conc), as a day number
    confirmed: int,     // cumulative confirmed cases (ConfirmadosAcumulado)
    awaiting: int)      // cumulative awaiting lab results (AguardarResultadosLab)

  /** The de-duplication key (Concelho, Data). */
  function ConcelhoKey(r: RawRecord): Key
  {
    Key(r.concelho, r.data)
  }

  /** The district aggregation key (Distrito, Data). */
  function DistritoKey(r: RawRecord): Key
  {
    Key(r.distrito, r.data)
  }

  /** One district-day row, indexed by (region, date); `positive` and `total`
      hold cumulative counts before normalisation and daily deltas after it. */
  datatype DistrictRow = DistrictRow(region: string, date: int, positive: int, total: int)

  /** The (region, date) index label of a row. */
  function IndexKey(r: DistrictRow): Key
  {
    Key(r.region, r.date)
  }

  function IndexKeys(s: seq<DistrictRow>): (ks: seq<Key>)
    ensures |ks| == |s| && forall i :: 0 <= i < |s| ==> ks[i] == IndexKey(s[i])
  {
    seq(|s|, i requires 0 <= i < |s| => IndexKey(s[i]))
  }
}
