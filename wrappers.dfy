/** The optional value used for absent form fields, failed parses and failed decodes. */
module Wrappers {

  datatype Option<+T> = None | Some(value: T)
}
