/** The symbolic-algebra library as the bot sees it. Parsing, solving and
    simplifying are done by the library; the model keeps only what the bot's
    own code branches on: whether a fragment parses, which kind of exception
    a parse raises, and the text each solver path hands back. */
module Algebra {

  datatype Option<T> = None | Some(value: T)

  /** What `parse_expr` with implicit multiplication does with a fragment:
      it parses, it raises `SympifyError`, or it raises some other exception
      (a tokenizer or syntax error, say), which `validate_expression` does
      not catch. Parsing is deterministic: the same fragment always gives
      the same outcome. */
  datatype ParseOutcome = Parsed | SympifyError(message: string) | OtherError(message: string)

  /** An equation built from the two sides of a fragment. */
  datatype Equation = Equation(lhs: string, rhs: string)

  /** What parsing and simplifying a valid expression gives: the printed
      result, a `SympifyError`, or another exception. */
  datatype Simplification = Simplified(printed: string) | SimplifyFailed(message: string) | SimplifyRaised(message: string)

  /** The library calls the core depends on. `equate` is what building
      `Eq(parse_expr(lhs), parse_expr(rhs))` does once both sides parse: it
      succeeds, raises `SympifyError` (a side parsed to something `Eq` cannot
      convert, such as a builtin function or a list), or raises another
      exception. `solveSingle` and `solveSystem`
      stand for the transcript-producing parts of the single-equation and
      the system paths that run after validation, together with the handlers
      that turn their exceptions into a reply ("Equation parsing error" or
      "Solving error" for the first, "System solution error" for the
      second), so each always returns the reply text. */
  datatype Engine = Engine(
    parse: string -> ParseOutcome,
    equate: (string, string) -> ParseOutcome,
    solveSingle: (string, string) -> string,
    solveSystem: seq<Equation> -> string,
    simplify: string -> Simplification)

  /** The outcome of `validate_expression`: valid, invalid, or an exception
      that escapes it. */
  datatype Validity = Valid | Invalid | Raised(message: string)

  /** `validate_expression`: a fragment is valid when it parses and invalid
      when parsing raises `SympifyError`; any other exception propagates to
      the caller. */
  function ValidateExpression(parse: string -> ParseOutcome, expr: string): (v: Validity)
    ensures v == Valid <==> parse(expr) == Parsed
    ensures v == Invalid <==> parse(expr).SympifyError?
    ensures v.Raised? <==> parse(expr).OtherError?
    ensures v.Raised? ==> v.message == parse(expr).message
  {
    match parse(expr)
    case Parsed => Valid
    case SympifyError(_) => Invalid
    case OtherError(m) => Raised(m)
  }
}
