/** The optional value shared by every module of the model: `None` stands for
    a missing attribute, a failed parse or an absent query answer. */
module Wrappers {

  datatype Option<T> = None | Some(value: T)
}
