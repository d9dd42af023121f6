/** The optional value the model uses for dictionary lookups and for the
    optional `search_mode` request argument. */
module Wrappers {
  datatype Option<+T> = None | Some(value: T)
}
