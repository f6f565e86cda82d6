/** The optional value returned by the table lookups and the rule matchers. */
module Options {

  datatype Option<+T> = None | Some(value: T)
}
