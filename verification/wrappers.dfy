/** The optional value used for nullable pointers of the view: the operator
    text, the current element and the glyph-table lookup result. */
module Wrappers {

  datatype Option<+T> = None | Some(value: T)
}
