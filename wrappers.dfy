/** The optional value used for page elements and attributes that may be missing. */
module Wrappers {

  /** `None` stands for a page element or attribute that was not found. */
  datatype Option<+T> = None | Some(value: T)
}
