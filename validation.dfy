/** The structural checks that run before any solving: the ordered side
    checks of `generate_single_equation_steps` and the per-equation checks of
    `generate_system_solution_steps`, with the error texts they produce. */
module Validation {
  import opened Text
  import opened Algebra

  const InvalidLeftPrefix := "\U{274C} Invalid left side: "
  const InvalidRightPrefix := "\U{274C} Invalid right side: "
  const SolvingErrorPrefix := "\U{26A0}\U{FE0F} Solving error: "
  const SystemErrorPrefix := "\U{26A0}\U{FE0F} System solution error: "
  const ValidationErrorsHeader := "\U{274C} Validation errors:"

  // ---------------------------------------------------------------------
  // Single equation
  // ---------------------------------------------------------------------

  /** The reply of `generate_single_equation_steps`: the left side is checked
      first and an invalid left side is reported without looking at the right
      side; an exception escaping the validator becomes a "Solving error"
      reply; only when both sides parse does solving start. */
  function SingleEquationSteps(lhs: string, rhs: string, engine: Engine): (reply: string)
    ensures engine.parse(lhs).SympifyError? ==> reply == InvalidLeftPrefix + lhs
    ensures engine.parse(lhs).OtherError? ==> reply == SolvingErrorPrefix + engine.parse(lhs).message
    ensures engine.parse(lhs) == Parsed && engine.parse(rhs).SympifyError? ==> reply == InvalidRightPrefix + rhs
    ensures engine.parse(lhs) == Parsed && engine.parse(rhs).OtherError? ==>
              reply == SolvingErrorPrefix + engine.parse(rhs).message
    ensures engine.parse(lhs) == Parsed && engine.parse(rhs) == Parsed ==> reply == engine.solveSingle(lhs, rhs)
  {
    match ValidateExpression(engine.parse, lhs)
    case Raised(m) => SolvingErrorPrefix + m
    case Invalid => InvalidLeftPrefix + lhs
    case Valid =>
      match ValidateExpression(engine.parse, rhs)
      case Raised(m) => SolvingErrorPrefix + m
      case Invalid => InvalidRightPrefix + rhs
      case Valid => engine.solveSingle(lhs, rhs)
  }

  /** Once the left side fails to parse, the right side plays no part in the
      reply, and the solver is never consulted. */
  lemma LeftSideDecidesFirst(lhs: string, rhs1: string, rhs2: string, engine: Engine,
                             solve: (string, string) -> string)
    requires engine.parse(lhs) != Parsed
    ensures SingleEquationSteps(lhs, rhs1, engine)
            == SingleEquationSteps(lhs, rhs2, engine.(solveSingle := solve))
  {
  }

  // ---------------------------------------------------------------------
  // System of two equations
  // ---------------------------------------------------------------------

  function MissingEquals(n: nat, eq: string): string {
    "Equation " + Decimal(n) + " missing '=': " + eq
  }

  function InvalidLeftIn(n: nat, lhs: string): string {
    "Invalid left side in equation " + Decimal(n) + ": " + lhs
  }

  function InvalidRightIn(n: nat, rhs: string): string {
    "Invalid right side in equation " + Decimal(n) + ": " + rhs
  }

  function EquationError(n: nat, message: string): string {
    "Equation " + Decimal(n) + " error: " + message
  }

  /** The state of the checking loop: the errors and equations collected so
      far, or the message of an exception that escaped it. */
  datatype Check = Checked(errors: seq<string>, equations: seq<Equation>) | Aborted(message: string)

  /** What checking the `n`-th fragment adds: a missing `=` is one error and
      skips the side checks; otherwise the fragment is cut at its first `=`,
      the left side and then the right side are validated, and both sides are
      parsed again to build the equation, a `SympifyError` there adding one
      more error. Re-parsing gives the outcome validation already saw, so
      only a `SympifyError` of a side can arise in that second step; when
      both sides parse, building the equation itself may still raise, a
      `SympifyError` adding one more error and any other exception escaping.
      A fragment yields its equation exactly when it records no error. */
  function CheckFragment(n: nat, eq: string, parse: string -> ParseOutcome, equate: (string, string) -> ParseOutcome): (c: Check)
    ensures c.Aborted? ==> '=' in eq
    ensures c.Checked? ==> |c.equations| <= 1 && (c.errors == [] <==> c.equations != [])
    ensures c.Checked? && c.errors == [] ==>
              '=' in eq && c.equations == [Equation(SplitFirst(eq, '=').0, SplitFirst(eq, '=').1)]
  {
    if '=' !in eq then Checked([MissingEquals(n, eq)], [])
    else CheckSides(n, SplitFirst(eq, '=').0, SplitFirst(eq, '=').1, parse, equate)
  }

  /** The checks of the two sides of the `n`-th fragment. When both sides
      parse, building the equation decides alone: it is kept, reported as an
      error, or its exception escapes. */
  function CheckSides(n: nat, lhs: string, rhs: string, parse: string -> ParseOutcome, equate: (string, string) -> ParseOutcome): (c: Check)
    ensures c.Checked? ==> |c.equations| <= 1 && (c.errors == [] <==> c.equations != [])
    ensures c.Checked? && c.errors == [] ==> c.equations == [Equation(lhs, rhs)]
    ensures parse(lhs) == Parsed && parse(rhs) == Parsed ==>
              (c == Checked([], [Equation(lhs, rhs)]) <==> equate(lhs, rhs) == Parsed)
    ensures parse(lhs) == Parsed && parse(rhs) == Parsed && equate(lhs, rhs).SympifyError? ==>
              c == Checked([EquationError(n, equate(lhs, rhs).message)], [])
    ensures parse(lhs) == Parsed && parse(rhs) == Parsed && equate(lhs, rhs).OtherError? ==>
              c == Aborted(equate(lhs, rhs).message)
  {
    var left := ValidateExpression(parse, lhs);
    var right := ValidateExpression(parse, rhs);
    if left.Raised? then Aborted(left.message)
    else if right.Raised? then Aborted(right.message)
    else
      var sideErrors := (if left == Invalid then [InvalidLeftIn(n, lhs)] else [])
                        + (if right == Invalid then [InvalidRightIn(n, rhs)] else []);
      if parse(lhs).SympifyError? then Checked(sideErrors + [EquationError(n, parse(lhs).message)], [])
      else if parse(rhs).SympifyError? then Checked(sideErrors + [EquationError(n, parse(rhs).message)], [])
      else
        // both sides parse here, so neither side recorded an error
        match equate(lhs, rhs)
        case Parsed => Checked([], [Equation(lhs, rhs)])
        case SympifyError(m) => Checked([EquationError(n, m)], [])
        case OtherError(m) => Aborted(m)
  }

  /** The checking loop over `fragments`, the `k`-th fragment (from 0)
      numbered `k + 1` in its messages. */
  function CheckFragments(fragments: seq<string>, parse: string -> ParseOutcome, equate: (string, string) -> ParseOutcome): Check
    decreases |fragments|
  {
    if fragments == [] then Checked([], [])
    else
      var n := |fragments|;
      match CheckFragments(fragments[..n - 1], parse, equate)
      case Aborted(m) => Aborted(m)
      case Checked(errors, equations) =>
        match CheckFragment(n, fragments[n - 1], parse, equate)
        case Aborted(m) => Aborted(m)
        case Checked(e, q) => Checked(errors + e, equations + q)
  }

  /** The reply of `generate_system_solution_steps`: an exception escaping
      the checks becomes a "System solution error" reply; any recorded error
      yields the "Validation errors" block, one error per line; otherwise the
      collected equations go to the solver. */
  function SystemSolutionSteps(eq1: string, eq2: string, engine: Engine): (reply: string)
    ensures '=' !in eq1 && '=' !in eq2 ==>
              reply == ValidationErrorsHeader + "\n" + MissingEquals(1, eq1) + "\n" + MissingEquals(2, eq2)
  {
    SystemChecksInOrder(eq1, eq2, engine.parse, engine.equate);
    var missing := [MissingEquals(1, eq1), MissingEquals(2, eq2)];
    JoinWithCons(ValidationErrorsHeader, missing, "\n");
    JoinWithCons(MissingEquals(1, eq1), [MissingEquals(2, eq2)], "\n");
    assert [MissingEquals(1, eq1)] + [MissingEquals(2, eq2)] == missing;
    match CheckFragments([eq1, eq2], engine.parse, engine.equate)
    case Aborted(m) => SystemErrorPrefix + m
    case Checked(errors, equations) =>
      if errors != [] then JoinWith([ValidationErrorsHeader] + errors, "\n")
      else engine.solveSystem(equations)
  }

  /** Once an exception escapes the checks of a prefix of the fragments, the
      loop is over: the later fragments are never looked at. */
  lemma {:induction false} AbortedStaysAborted(fragments: seq<string>, k: nat, parse: string -> ParseOutcome, equate: (string, string) -> ParseOutcome)
    requires k <= |fragments|
    requires CheckFragments(fragments[..k], parse, equate).Aborted?
    ensures CheckFragments(fragments, parse, equate) == CheckFragments(fragments[..k], parse, equate)
    decreases |fragments| - k
  {
    if k < |fragments| {
      var n := |fragments|;
      assert fragments[..n - 1][..k] == fragments[..k];
      AbortedStaysAborted(fragments[..n - 1], k, parse, equate);
    } else {
      assert fragments[..k] == fragments;
    }
  }

  /** The checks of the two equations in the order they run: equation 1's
      outcome comes first, an exception in it ends the loop whatever equation
      2 is, and otherwise the errors and equations of equation 1 precede those
      of equation 2. */
  lemma SystemChecksInOrder(eq1: string, eq2: string, parse: string -> ParseOutcome, equate: (string, string) -> ParseOutcome)
    ensures CheckFragment(1, eq1, parse, equate).Aborted? ==>
              CheckFragments([eq1, eq2], parse, equate) == CheckFragment(1, eq1, parse, equate)
    ensures CheckFragment(1, eq1, parse, equate).Checked? && CheckFragment(2, eq2, parse, equate).Aborted? ==>
              CheckFragments([eq1, eq2], parse, equate) == CheckFragment(2, eq2, parse, equate)
    ensures CheckFragment(1, eq1, parse, equate).Checked? && CheckFragment(2, eq2, parse, equate).Checked? ==>
              CheckFragments([eq1, eq2], parse, equate)
              == Checked(CheckFragment(1, eq1, parse, equate).errors + CheckFragment(2, eq2, parse, equate).errors,
                         CheckFragment(1, eq1, parse, equate).equations + CheckFragment(2, eq2, parse, equate).equations)
  {
    var fragments := [eq1, eq2];
    assert fragments[..1] == [eq1] && [eq1][..0] == [];
    var first := CheckFragment(1, eq1, parse, equate);
    if first.Checked? {
      assert [] + first.errors == first.errors && [] + first.equations == first.equations;
      assert CheckFragments([eq1], parse, equate) == first;
    } else {
      assert CheckFragments([eq1], parse, equate) == first;
    }
  }

  /** Within one equation the left side is reported before the right side,
      and a side that fails validation is reported a second time by the
      parse that builds the equation (the left side's message when both
      fail). */
  lemma BothSidesInvalid(n: nat, eq: string, parse: string -> ParseOutcome, equate: (string, string) -> ParseOutcome)
    requires '=' in eq
    requires parse(SplitFirst(eq, '=').0).SympifyError? && parse(SplitFirst(eq, '=').1).SympifyError?
    ensures CheckFragment(n, eq, parse, equate)
            == Checked([InvalidLeftIn(n, SplitFirst(eq, '=').0), InvalidRightIn(n, SplitFirst(eq, '=').1),
                        EquationError(n, parse(SplitFirst(eq, '=').0).message)], [])
  {
  }

  /** A fragment without `=` records exactly one error, whatever the parser
      would have said about its parts. */
  lemma MissingEqualsSkipsSideChecks(n: nat, eq: string, parse1: string -> ParseOutcome,
                                     equate1: (string, string) -> ParseOutcome,
                                     parse2: string -> ParseOutcome,
                                     equate2: (string, string) -> ParseOutcome)
    requires '=' !in eq
    ensures CheckFragment(n, eq, parse1, equate1) == CheckFragment(n, eq, parse2, equate2)
            == Checked([MissingEquals(n, eq)], [])
  {
  }

  /** The solver runs exactly when the checks record no error and raise
      nothing, and it then receives both equations, each cut at its first
      `=`. */
  lemma {:induction false} SolverSeesBothEquations(eq1: string, eq2: string, engine: Engine)
    requires CheckFragments([eq1, eq2], engine.parse, engine.equate).Checked?
    requires CheckFragments([eq1, eq2], engine.parse, engine.equate).errors == []
    ensures '=' in eq1 && '=' in eq2
    ensures SystemSolutionSteps(eq1, eq2, engine)
            == engine.solveSystem([Equation(SplitFirst(eq1, '=').0, SplitFirst(eq1, '=').1),
                                   Equation(SplitFirst(eq2, '=').0, SplitFirst(eq2, '=').1)])
  {
    SystemChecksInOrder(eq1, eq2, engine.parse, engine.equate);
    var first, second := CheckFragment(1, eq1, engine.parse, engine.equate), CheckFragment(2, eq2, engine.parse, engine.equate);
    assert first.Checked? && second.Checked?;
    var both := CheckFragments([eq1, eq2], engine.parse, engine.equate);
    assert both == Checked(first.errors + second.errors, first.equations + second.equations);
    assert |first.errors| + |second.errors| == |both.errors| == 0;
    assert first.equations == [Equation(SplitFirst(eq1, '=').0, SplitFirst(eq1, '=').1)];
    assert second.equations == [Equation(SplitFirst(eq2, '=').0, SplitFirst(eq2, '=').1)];
    assert SystemSolutionSteps(eq1, eq2, engine) == engine.solveSystem(first.equations + second.equations);
    assert first.equations + second.equations
           == [Equation(SplitFirst(eq1, '=').0, SplitFirst(eq1, '=').1),
               Equation(SplitFirst(eq2, '=').0, SplitFirst(eq2, '=').1)];
  }

  /** When every side of both equations parses and both equations can be
      built, the solver is reached. */
  lemma {:induction false} CleanSystemIsSolved(eq1: string, eq2: string, engine: Engine)
    requires '=' in eq1 && '=' in eq2
    requires engine.parse(SplitFirst(eq1, '=').0) == Parsed && engine.parse(SplitFirst(eq1, '=').1) == Parsed
    requires engine.parse(SplitFirst(eq2, '=').0) == Parsed && engine.parse(SplitFirst(eq2, '=').1) == Parsed
    requires engine.equate(SplitFirst(eq1, '=').0, SplitFirst(eq1, '=').1) == Parsed
    requires engine.equate(SplitFirst(eq2, '=').0, SplitFirst(eq2, '=').1) == Parsed
    ensures SystemSolutionSteps(eq1, eq2, engine)
            == engine.solveSystem([Equation(SplitFirst(eq1, '=').0, SplitFirst(eq1, '=').1),
                                   Equation(SplitFirst(eq2, '=').0, SplitFirst(eq2, '=').1)])
  {
    SystemChecksInOrder(eq1, eq2, engine.parse, engine.equate);
    SolverSeesBothEquations(eq1, eq2, engine);
  }

  /** Sides that parse are not enough: when equation 1 cannot be built from
      its parsed sides (a `SympifyError` from `Eq`) and equation 2 is clean,
      the reply is the "Validation errors" block with that one error. */
  lemma {:induction false} UnbuildableEquationReported(eq1: string, eq2: string, engine: Engine)
    requires '=' in eq1 && '=' in eq2
    requires engine.parse(SplitFirst(eq1, '=').0) == Parsed && engine.parse(SplitFirst(eq1, '=').1) == Parsed
    requires engine.parse(SplitFirst(eq2, '=').0) == Parsed && engine.parse(SplitFirst(eq2, '=').1) == Parsed
    requires engine.equate(SplitFirst(eq1, '=').0, SplitFirst(eq1, '=').1).SympifyError?
    requires engine.equate(SplitFirst(eq2, '=').0, SplitFirst(eq2, '=').1) == Parsed
    ensures SystemSolutionSteps(eq1, eq2, engine)
            == ValidationErrorsHeader + "\n"
               + EquationError(1, engine.equate(SplitFirst(eq1, '=').0, SplitFirst(eq1, '=').1).message)
  {
    SystemChecksInOrder(eq1, eq2, engine.parse, engine.equate);
    var error := EquationError(1, engine.equate(SplitFirst(eq1, '=').0, SplitFirst(eq1, '=').1).message);
    assert CheckFragments([eq1, eq2], engine.parse, engine.equate).errors == [error];
    JoinWithCons(ValidationErrorsHeader, [error], "\n");
  }

  /** Any recorded error replaces the solution by the "Validation errors"
      block: the header, then the errors one per line in the order the
      checks recorded them (equation 1's before equation 2's). The reply does
      not depend on the solver at all. */
  lemma ErrorsWithholdSolver(eq1: string, eq2: string, engine: Engine, solve: seq<Equation> -> string)
    requires CheckFragments([eq1, eq2], engine.parse, engine.equate).Checked?
    requires CheckFragments([eq1, eq2], engine.parse, engine.equate).errors != []
    ensures SystemSolutionSteps(eq1, eq2, engine)
            == ValidationErrorsHeader + "\n" + JoinWith(CheckFragments([eq1, eq2], engine.parse, engine.equate).errors, "\n")
    ensures CheckFragment(1, eq1, engine.parse, engine.equate).Checked? && CheckFragment(2, eq2, engine.parse, engine.equate).Checked?
    ensures CheckFragments([eq1, eq2], engine.parse, engine.equate).errors
            == CheckFragment(1, eq1, engine.parse, engine.equate).errors + CheckFragment(2, eq2, engine.parse, engine.equate).errors
    ensures SystemSolutionSteps(eq1, eq2, engine) == SystemSolutionSteps(eq1, eq2, engine.(solveSystem := solve))
    ensures |ValidationErrorsHeader| <= |SystemSolutionSteps(eq1, eq2, engine)|
    ensures SystemSolutionSteps(eq1, eq2, engine)[..|ValidationErrorsHeader|] == ValidationErrorsHeader
  {
    SystemChecksInOrder(eq1, eq2, engine.parse, engine.equate);
    var errors := CheckFragments([eq1, eq2], engine.parse, engine.equate).errors;
    assert JoinWith([ValidationErrorsHeader] + errors, "\n")
           == ValidationErrorsHeader + "\n" + JoinWith(errors, "\n");
  }

  /** An exception escaping the checks ends the whole reply as a "System
      solution error" carrying its message: equation 1's exception whatever
      equation 2 is, and otherwise equation 2's. */
  lemma {:induction false} ExceptionEndsSystem(eq1: string, eq2: string, engine: Engine)
    ensures CheckFragment(1, eq1, engine.parse, engine.equate).Aborted? ==>
              SystemSolutionSteps(eq1, eq2, engine)
              == SystemErrorPrefix + CheckFragment(1, eq1, engine.parse, engine.equate).message
    ensures CheckFragment(1, eq1, engine.parse, engine.equate).Checked? && CheckFragment(2, eq2, engine.parse, engine.equate).Aborted? ==>
              SystemSolutionSteps(eq1, eq2, engine)
              == SystemErrorPrefix + CheckFragment(2, eq2, engine.parse, engine.equate).message
  {
    SystemChecksInOrder(eq1, eq2, engine.parse, engine.equate);
  }

  /** One more round of the checking loop: the outcome of the next fragment
      is added to the outcome of the ones before it. */
  lemma ExtendChecks(fragments: seq<string>, i: nat, parse: string -> ParseOutcome, equate: (string, string) -> ParseOutcome,
                     errors: seq<string>, equations: seq<Equation>)
    requires i < |fragments|
    requires CheckFragments(fragments[..i], parse, equate) == Checked(errors, equations)
    ensures CheckFragment(i + 1, fragments[i], parse, equate).Checked? ==>
              CheckFragments(fragments[..i + 1], parse, equate)
              == Checked(errors + CheckFragment(i + 1, fragments[i], parse, equate).errors,
                         equations + CheckFragment(i + 1, fragments[i], parse, equate).equations)
    ensures CheckFragment(i + 1, fragments[i], parse, equate).Aborted? ==>
              CheckFragments(fragments, parse, equate) == CheckFragment(i + 1, fragments[i], parse, equate)
  {
    assert fragments[..i + 1][..i] == fragments[..i];
    if CheckFragment(i + 1, fragments[i], parse, equate).Aborted? {
      AbortedStaysAborted(fragments, i + 1, parse, equate);
    }
  }

  /** The body of the checking loop for the `n`-th fragment: appends its
      errors and its equation to the lists, or reports the message of an
      exception that escapes the checks. */
  method CheckEquation(n: nat, eq: string, parse: string -> ParseOutcome, equate: (string, string) -> ParseOutcome,
                       errors: seq<string>, equations: seq<Equation>)
    returns (errors': seq<string>, equations': seq<Equation>, escaped: Option<string>)
    ensures CheckFragment(n, eq, parse, equate).Checked? ==>
              escaped == None
              && errors' == errors + CheckFragment(n, eq, parse, equate).errors
              && equations' == equations + CheckFragment(n, eq, parse, equate).equations
    ensures CheckFragment(n, eq, parse, equate).Aborted? ==> escaped == Some(CheckFragment(n, eq, parse, equate).message)
  {
    if '=' !in eq {
      return errors + [MissingEquals(n, eq)], equations, None;
    }
    var (lhs, rhs) := SplitFirst(eq, '=');
    errors', equations', escaped := CheckEquationSides(n, lhs, rhs, parse, equate, errors, equations);
  }

  /** The checks of a fragment that holds an `=`, on its two sides. */
  method CheckEquationSides(n: nat, lhs: string, rhs: string, parse: string -> ParseOutcome, equate: (string, string) -> ParseOutcome,
                            errors: seq<string>, equations: seq<Equation>)
    returns (errors': seq<string>, equations': seq<Equation>, escaped: Option<string>)
    ensures CheckSides(n, lhs, rhs, parse, equate).Checked? ==>
              escaped == None
              && errors' == errors + CheckSides(n, lhs, rhs, parse, equate).errors
              && equations' == equations + CheckSides(n, lhs, rhs, parse, equate).equations
    ensures CheckSides(n, lhs, rhs, parse, equate).Aborted? ==> escaped == Some(CheckSides(n, lhs, rhs, parse, equate).message)
  {
    errors', equations', escaped := errors, equations, None;
    ghost var outcome := CheckSides(n, lhs, rhs, parse, equate);
    var left := ValidateExpression(parse, lhs);
    if left.Raised? {
      return errors', equations', Some(left.message);
    }
    if left == Invalid {
      errors' := errors' + [InvalidLeftIn(n, lhs)];
    }
    var right := ValidateExpression(parse, rhs);
    if right.Raised? {
      return errors', equations', Some(right.message);
    }
    if right == Invalid {
      errors' := errors' + [InvalidRightIn(n, rhs)];
    }
    ghost var sideErrors := errors'[|errors|..];
    assert errors' == errors + sideErrors;
    var parsedLeft := parse(lhs);
    if parsedLeft.SympifyError? {
      errors' := errors' + [EquationError(n, parsedLeft.message)];
      assert outcome.errors == sideErrors + [EquationError(n, parsedLeft.message)];
    } else {
      var parsedRight := parse(rhs);
      if parsedRight.SympifyError? {
        errors' := errors' + [EquationError(n, parsedRight.message)];
        assert outcome.errors == sideErrors + [EquationError(n, parsedRight.message)];
      } else {
        var built := equate(lhs, rhs);
        match built {
          case Parsed =>
            equations' := equations' + [Equation(lhs, rhs)];
            assert outcome == Checked(sideErrors, [Equation(lhs, rhs)]);
          case SympifyError(m) =>
            errors' := errors' + [EquationError(n, m)];
            assert outcome.errors == sideErrors + [EquationError(n, m)];
          case OtherError(m) =>
            escaped := Some(m);
        }
      }
    }
  }

  /** `generate_system_solution_steps`: the loop over the two fragments
      appends to `errors` and `equations`, leaving early when an exception
      escapes a check. */
  method GenerateSystemSolutionSteps(eq1: string, eq2: string, engine: Engine) returns (reply: string)
    ensures reply == SystemSolutionSteps(eq1, eq2, engine)
  {
    var errors: seq<string> := [];
    var equations: seq<Equation> := [];
    var fragments := [eq1, eq2];
    for i := 0 to |fragments|
      invariant CheckFragments(fragments[..i], engine.parse, engine.equate) == Checked(errors, equations)
    {
      ExtendChecks(fragments, i, engine.parse, engine.equate, errors, equations);
      var escaped;
      errors, equations, escaped := CheckEquation(i + 1, fragments[i], engine.parse, engine.equate, errors, equations);
      if escaped.Some? {
        return SystemErrorPrefix + escaped.value;
      }
    }
    assert fragments[..|fragments|] == fragments;
    if errors != [] {
      return JoinWith([ValidationErrorsHeader] + errors, "\n");
    }
    reply := engine.solveSystem(equations);
  }
}
