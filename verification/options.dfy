/** A minimal Some/None datatype, standing in for JavaScript's `null`
    results (a winner that may be absent, a click that may be ignored). */
module Options {

  datatype Option<+T> = None | Some(value: T)
}
