/** The value-or-nothing wrapper. A Python call that may raise on its input
    (float(), a find_element with no match) becomes a function returning None
    in that case. */
module Wrappers {

  datatype Option<+T> = None | Some(value: T)
}
