/** The optional value used wherever the page may find nothing: a missing row, a cell that
    pandas holds as a non-string (NaN), a string that does not parse as a number. */
module Options {
  datatype Option<+T> = None | Some(value: T)
}
