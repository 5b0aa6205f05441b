/** The optional value used wherever the program has "something or nothing":
    Python's None for the matched record, an absent key in a JSON reply,
    a request that raised instead of answering. */
module Wrappers {

  datatype Option<+T> = None | Some(value: T)
}
