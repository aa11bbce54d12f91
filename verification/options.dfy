/** The optional value used for lookups that can fail (a missing substring, an
    out-of-range index). */
module Options {

  datatype Option<+T> = None | Some(value: T)
}
