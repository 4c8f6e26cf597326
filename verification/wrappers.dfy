/** The optional value used for the driver's in-flight slot and for decoders that may reject their input. */
module Wrappers {
  datatype Option<+T> = None | Some(value: T)
}
