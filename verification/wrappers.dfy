/** The optional value used where the C# index answers "a value, or nothing". */
module Wrappers {

  /** A value that may be absent: a stat result for a file that may not exist, a directory
      scan that may fail, the record found by a lookup. */
  datatype Option<+T> = None | Some(value: T)
}
