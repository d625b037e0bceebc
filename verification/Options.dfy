// The optional values that searches, lookups and decoders return.

module Options {

  datatype Option<+T> = None | Some(value: T)
}
