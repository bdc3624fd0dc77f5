/** The optional value that stands for a pandas null (NaN) or a missing dict key. */
module Wrappers {

  datatype Option<+T> = None | Some(value: T)

  /** The value, with an absent one read as zero. */
  function OrZero(o: Option<nat>): nat
  {
    match o
    case None => 0
    case Some(n) => n
  }
}
