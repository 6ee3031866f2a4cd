/**
 * Shared vocabulary of the DSV model: the options the parsers read and the
 * ways a parse can end abnormally.
 */
module Outcomes {

  /** The exceptions the parsers can raise, each named after its cause. */
  datatype Failure =
    | InvalidEscapedEscapeChar  // FormatException: an escape character was not paired
    | InvalidRowColumn          // FormatException: a data row has more columns than the header
    | SliceOutOfRange           // ArgumentOutOfRangeException from a Slice with a bad start or length
    | IndexOutOfRange           // IndexOutOfRangeException from an array or span index
    | NegativeArraySize         // OverflowException from allocating an array of negative length

  /** Either a value or the exception that ended the computation. */
  datatype Result<+T> = Ok(value: T) | Err(error: Failure) {

    predicate IsFailure() {
      Err?
    }

    function PropagateFailure<U>(): Result<U>
      requires Err?
    {
      Err(error)
    }

    function Extract(): T
      requires Ok?
    {
      value
    }
  }

  datatype Option<+T> = None | Some(value: T)

  /**
   * Parser configuration. The reader looks at `delimiter`, `escapeChar` and
   * `hasHeaders`; the older splitter also looks at `lineBreak`,
   * `knownColumns` and `knownRows`.
   */
  datatype Options = Options(
    delimiter: char,
    escapeChar: char,
    hasHeaders: bool,
    lineBreak: string,
    knownColumns: int,
    knownRows: int)

  /** The named presets: comma, tab and pipe, quoted by '"', with a header row and "\r\n" line breaks. */
  const DefaultCsvOptions := Options(',', '"', true, "\r\n", 0, 0)
  const DefaultTsvOptions := Options('\t', '"', true, "\r\n", 0, 0)
  const DefaultPsvOptions := Options('|', '"', true, "\r\n", 0, 0)

  /** Number of occurrences of `c` in `s`. */
  function CountOf(s: string, c: char): (n: nat)
    ensures n <= |s|
  {
    if |s| == 0 then 0 else (if s[0] == c then 1 else 0) + CountOf(s[1..], c)
  }
}
