/** The exceptions thrown by the extension methods, as values. */
module Exceptions {

  /** An exception message: either already rendered, or a caller-supplied composite
      format string together with the arguments `string.Format` is given. */
  datatype Message =
    | Text(s: string)
    | Formatted(format: string, args: seq<string>)

  datatype Error =
    | ArgumentNull(parameter: string)
    | ArgumentOutOfRange(parameter: string, message: string)
    | InvalidOperation(message: string)
    | NullReference
    | Validation(reason: Message)

  /** Decimal rendering of a non-negative integer, as `ToString()` gives it. */
  function NatToString(n: nat): (s: string)
    ensures |s| >= 1
    ensures forall i :: 0 <= i < |s| ==> '0' <= s[i] <= '9'
  {
    var d := [(('0' as int) + n % 10) as char];
    if n < 10 then d else NatToString(n / 10) + d
  }

  /** Decimal rendering of an integer, with a leading '-' when negative. */
  function IntToString(n: int): (s: string)
    ensures |s| >= 1
    ensures (s[0] == '-') <==> n < 0
  {
    if n < 0 then "-" + NatToString(-n) else NatToString(n)
  }

  /** The value of a string of decimal digits; the inverse of `NatToString`. */
  function DigitsValue(s: string): nat
    requires forall i :: 0 <= i < |s| ==> '0' <= s[i] <= '9'
  {
    if s == [] then 0 else DigitsValue(s[..|s| - 1]) * 10 + (s[|s| - 1] as int - '0' as int)
  }

  /** Rendering a row or column index and reading it back gives the same number. */
  lemma {:induction false} NatToStringRoundTrip(n: nat)
    ensures DigitsValue(NatToString(n)) == n
  {
    var s := NatToString(n);
    if n >= 10 {
      NatToStringRoundTrip(n / 10);
      assert s[..|s| - 1] == NatToString(n / 10);
    }
  }
}
