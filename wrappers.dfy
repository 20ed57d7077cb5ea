/** Result and error values shared by every module of the model.
 *  A Java method that throws is modelled as a function or method returning `Err`. */
module Wrappers {

  datatype Option<T> = None | Some(value: T)
  {
    function GetOr(default: T): T
    {
      if Some? then value else default
    }
  }

  /** The Java exception classes the modelled code throws. */
  datatype Error =
    | IllegalArgument(reason: string)
    | IllegalState(reason: string)
    | Arithmetic            // division by zero, or a `mod` by a modulus that is not positive
    | IndexOutOfBounds      // an array read or write past its end
    | NullPointer           // a field read through an unset reference

  datatype Result<T> = Ok(value: T) | Err(error: Error)

  /** Java's decimal rendering of a non-negative int, as string concatenation produces it. */
  function DecimalString(n: nat): (s: string)
    ensures |s| > 0
    ensures forall i | 0 <= i < |s| :: '0' <= s[i] <= '9'
  {
    var digit := "0123456789"[n % 10];
    if n < 10 then [digit] else DecimalString(n / 10) + [digit]
  }

  /** Java's `%d` rendering of an int: a minus sign only for a negative value. */
  function SignedDecimalString(x: int): (s: string)
    ensures |s| > 0
    ensures s[0] == '-' <==> x < 0
  {
    if x < 0 then "-" + DecimalString(-x) else DecimalString(x)
  }
}
