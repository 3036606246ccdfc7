/** The two pieces of PHP language semantics the controller relies on:
    `empty()` on a request variable or record field, and the loose `==`
    comparison of two strings. */
module Php {
  import opened Wrappers

  /** PHP's `empty($v)` for a value that is either a string or absent (null).
      Read as a test on the string: it is empty exactly when it has at most one
      character and that character is '0', so "00", " " and "0.0" are not. */
  function Empty(v: Option<string>): (b: bool)
    ensures b <==> v.None? || (|v.value| <= 1 && forall i :: 0 <= i < |v.value| ==> v.value[i] == '0')
  {
    v.None? || v.value == "" || v.value == "0"
  }

  /** The PHP engine's reading of a numeric string ("1", "1.0", " 1e0"), or None
      when the string is not numeric. The exact grammar and the float rounding
      belong to the engine and are kept abstract. */
  datatype Runtime = Runtime(numericValue: string -> Option<real>)

  /** PHP 8's `$a == $b` on two strings: when both are numeric strings they are
      compared as numbers, otherwise byte for byte. */
  function LooseEquals(rt: Runtime, a: string, b: string): (eq: bool)
    // identical strings are always equal, whatever the engine reads them as
    ensures a == b ==> eq
    // when either side is not numeric, the comparison is plain string equality
    ensures rt.numericValue(a).None? || rt.numericValue(b).None? ==> (eq <==> a == b)
    // when both are numeric, only their numeric values count: "1" == "1.0"
    ensures rt.numericValue(a).Some? && rt.numericValue(b).Some? ==>
      (eq <==> rt.numericValue(a).value == rt.numericValue(b).value)
  {
    match (rt.numericValue(a), rt.numericValue(b))
    case (Some(x), Some(y)) => x == y
    case _ => a == b
  }
}
