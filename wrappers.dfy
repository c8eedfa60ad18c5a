/** Failure-compatible datatypes shared by every module of the model.
    A Rust `panic!`/`assert!`/`todo!` or a JavaScript `throw` becomes a `Failure`
    carrying the message the source raises. */
module Wrappers {

  datatype Option<+T> = None | Some(value: T) {
    predicate IsFailure() { None? }

    function PropagateFailure<U>(): Option<U>
      requires None?
    {
      None
    }

    function Extract(): T
      requires Some?
    {
      value
    }
  }

  datatype Result<+T> = Success(value: T) | Failure(error: string) {
    predicate IsFailure() { Failure? }

    function PropagateFailure<U>(): Result<U>
      requires Failure?
    {
      Failure(error)
    }

    function Extract(): T
      requires Success?
    {
      value
    }
  }

  /** A whole number as JavaScript prints it in a template string or in
      `Array.prototype.toString`. */
  function Numeral(n: int): string
  {
    if n < 0 then "-" + Decimal(-n) else Decimal(n)
  }

  /** An array of whole numbers as `Array.prototype.toString` prints it:
      its entries joined by commas. */
  function Joined(s: seq<int>): string
  {
    if |s| == 0 then "" else if |s| == 1 then Numeral(s[0]) else Numeral(s[0]) + "," + Joined(s[1..])
  }

  function Decimal(n: nat): string
  {
    if n < 10 then [Digit(n)] else Decimal(n / 10) + [Digit(n % 10)]
  }

  function Digit(d: nat): char
    requires d < 10
  {
    "0123456789"[d]
  }
}
