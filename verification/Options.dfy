/** The source's `Option`: a value, or the clean failure it stands for. */
module Options {
  datatype Option<+T> = None | Some(value: T)
}
