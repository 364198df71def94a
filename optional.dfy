/** Python's `None`-or-value, used for optional results and for table cells that may be NaN. */
module Optional {

  datatype Option<+T> = None | Some(value: T)
}
