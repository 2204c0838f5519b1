/** Option and Result for the error paths of the pipeline, and the cell values
    that a pandas DataFrame of survey data holds. */
module Values {

  datatype Option<+T> = None | Some(value: T)

  datatype Result<+T, +E> = Success(value: T) | Failure(error: E)

  /** One cell of a DataFrame: a string, an integer, a float or a missing value (NaN). */
  datatype Value = Str(s: string) | Int(i: int) | Float(x: real) | NaN

  /** True for the cells that pandas arithmetic accepts (NaN propagates). */
  predicate IsNumeric(v: Value)
  {
    v.Int? || v.Float? || v.NaN?
  }

  /** The number a numeric, non-missing cell stands for. */
  function AsReal(v: Value): real
    requires v.Int? || v.Float?
  {
    if v.Int? then v.i as real else v.x
  }

  /** Decimal text of a natural number, as Python's str() writes it. */
  function NatText(n: nat): (r: string)
    ensures |r| > 0
    ensures forall k :: 0 <= k < |r| ==> '0' <= r[k] <= '9'
    decreases n
  {
    if n < 10 then [DigitChar(n)] else NatText(n / 10) + [DigitChar(n % 10)]
  }

  function DigitChar(d: nat): (c: char)
    requires d < 10
    ensures '0' <= c <= '9' && (c as int) - ('0' as int) == d
  {
    (('0' as int) + d) as char
  }

  /** Decimal text of an integer, as Python's str() writes it. */
  function IntText(i: int): (r: string)
    ensures |r| > 0
  {
    if i < 0 then "-" + NatText(-i) else NatText(i)
  }

  /** Python's str() of a cell. The text of a float (shortest round-trip repr)
      is not part of this model and is supplied by the caller as floatText. */
  function Show(v: Value, floatText: real -> string): string
  {
    match v
    case Str(s) => s
    case Int(i) => IntText(i)
    case Float(x) => floatText(x)
    case NaN => "nan"
  }
}
