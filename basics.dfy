/** Small value types shared by every module of the model. */
module Basics {

  /** An optional value, as java.util.Optional. */
  datatype Option<+T> = None | Some(value: T)

  /** A byte of a file's contents. */
  newtype byte = x: int | 0 <= x < 256

  /** The elements of an option, as a sequence of length zero or one. */
  function OptionToSeq<T>(o: Option<T>): (r: seq<T>)
    ensures |r| <= 1
    ensures o.None? <==> r == []
    ensures o.Some? ==> r == [o.value]
  {
    match o
    case None => []
    case Some(x) => [x]
  }
}
