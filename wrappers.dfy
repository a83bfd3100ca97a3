/** The optional-value type used for the nullable fields of an account and
    for decoders that may reject their input. */
module Wrappers {

  datatype Option<+T> = None | Some(value: T)
}
