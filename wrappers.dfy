/** Small value types shared by the model of both PHP classes. */
module Wrappers {

  /** `None` stands for PHP's `false`, which calculateSolution returns when the search fails. */
  datatype Option<+T> = None | Some(value: T)

  /** The end of a call: it returns a value, or PHP aborts it with a TypeError. */
  datatype Outcome<+T> = Returns(value: T) | Aborts

  /** An argument as `is_integer` sees it: an integer, or any other PHP value (float, string, null, ...). */
  datatype Value = Int(i: int) | NotInt
}
