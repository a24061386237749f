/** The optional value used for pandas' missing entries (NaN) and for the
    Python exceptions the dashboard would raise. */
module Options {

  datatype Option<+T> = None | Some(value: T)
}
