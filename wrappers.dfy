/** The optional value the exporter passes around where Python uses `None`. */
module Wrappers {
  datatype Option<+T> = None | Some(value: T)
}
