/** The dispatcher `handle_math_problem`: it picks the problem text, rejects
    empty input, normalises the text, routes it by its `&` and `=`
    separators to the system path, the single-equation path or expression
    evaluation, and cuts the reply to the chat message limit. */
module Dispatch {
  import opened Text
  import opened Algebra
  import Normalizer
  import Validation

  const EmptyInput := "\U{274C} Empty input received"
  const NotTwoEquations := "\U{274C} Please provide exactly two equations separated by 'and'"
  const NotOneEquals := "\U{274C} Invalid equation format - should contain exactly one '='"
  const InvalidExpressionSyntax := "\U{274C} Invalid expression syntax"
  const EvaluationHeader := "\U{1F522} **Expression Evaluation:**\n"
  const ExpressionErrorPrefix := "\U{274C} Expression error: "
  const CriticalErrorPrefix := "\U{26A0}\U{FE0F} Critical error: "

  /** The chat message limit the reply is cut to. */
  const MessageLimit := 4000

  // ---------------------------------------------------------------------
  // Choosing the problem text
  // ---------------------------------------------------------------------

  /** `text or update.message.text`: the text handed over by the image
      handler when it is non-empty, otherwise the chat message's text; a
      missing text stands for the empty one, which is rejected alike. */
  function Problem(text: Option<string>, messageText: Option<string>): (problem: string)
    ensures problem == [] <==>
      (text.None? || text.value == []) && (messageText.None? || messageText.value == [])
    ensures text.Some? && text.value != [] ==> problem == text.value
    ensures problem != [] && (text.None? || text.value == []) ==>
      messageText.Some? && problem == messageText.value
  {
    if text.Some? && text.value != [] then text.value
    else if messageText.Some? then messageText.value
    else []
  }

  // ---------------------------------------------------------------------
  // Routing the normalised text
  // ---------------------------------------------------------------------

  /** Where the normalised text goes: a system of two equations (the two
      stripped fragments around the `&`), too many `&`, a single equation
      (the two stripped sides of its `=`), too many `=`, or an expression. */
  datatype Route =
    | SystemRoute(eq1: string, eq2: string)
    | TooManyEquations
    | SingleRoute(lhs: string, rhs: string)
    | MalformedEquation
    | ExpressionRoute(expr: string)

  /** The branches of `handle_math_problem` on the normalised text. An `&`
      takes precedence over `=`; the text must split into exactly two
      fragments on `&`, or hold exactly one `=`. */
  function Classify(clean: string): (route: Route)
    ensures route.SystemRoute? <==> Count(clean, '&') == 1
    ensures route == TooManyEquations <==> Count(clean, '&') >= 2
    ensures route.SingleRoute? <==> '&' !in clean && Count(clean, '=') == 1
    ensures route == MalformedEquation <==> '&' !in clean && Count(clean, '=') >= 2
    ensures route.ExpressionRoute? <==> '&' !in clean && '=' !in clean
    ensures route.ExpressionRoute? ==> route.expr == clean
  {
    if '&' in clean then
      var parts := Split(clean, '&');
      if |parts| != 2 then TooManyEquations
      else SystemRoute(Strip(parts[0]), Strip(parts[1]))
    else if '=' in clean then
      if Count(clean, '=') != 1 then MalformedEquation
      else
        var halves := SplitFirst(clean, '=');
        SingleRoute(Strip(halves.0), Strip(halves.1))
    else ExpressionRoute(clean)
  }

  /** A text with one `&` hands the stripped text on either side of it to
      the system path. */
  lemma SystemFragments(a: string, b: string)
    requires '&' !in a && '&' !in b
    ensures Classify(a + "&" + b) == SystemRoute(Strip(a), Strip(b))
  {
    SplitOnce(a, b, '&');
  }

  /** A text with one `=` and no `&` hands its two stripped sides to the
      single-equation path. */
  lemma SingleSides(a: string, b: string)
    requires '&' !in a && '&' !in b && '=' !in a && '=' !in b
    ensures Classify(a + "=" + b) == SingleRoute(Strip(a), Strip(b))
  {
    SplitOnce(a, b, '=');
    var s := a + "=" + b;
    assert '&' !in s by {
      assert s == a + ("=" + b);
    }
  }

  /** Nothing but whitespace around the `&` is not rejected here: both
      fragments reach the system path empty. */
  lemma BlankFragmentsAccepted(a: string, b: string)
    requires AllSpace(a) && AllSpace(b)
    ensures Classify(a + "&" + b) == SystemRoute([], [])
  {
    assert '&' !in a && '&' !in b by {
      assert !IsSpace('&');
    }
    SystemFragments(a, b);
    BlankStripsToEmpty(a);
    BlankStripsToEmpty(b);
  }

  /** A text of whitespace only strips to the empty text. */
  lemma BlankStripsToEmpty(s: string)
    requires AllSpace(s)
    ensures Strip(s) == []
  {
  }

  /** The bare word `and` is a system of two empty equations, and is
      answered with both "missing '='" errors. */
  lemma LoneConnectorIsBlankSystem(raw: string, engine: Engine)
    requires raw == "and"
    ensures Respond(Some(raw), None, engine)
            == Truncate(Validation.ValidationErrorsHeader + "\n" + Validation.MissingEquals(1, [])
                        + "\n" + Validation.MissingEquals(2, []))
  {
    var e: string := [];
    assert Problem(Some(raw), None) == raw;
    LoneConnectorRoute(raw);
    assert Classify(Normalizer.Normalize(raw)) == SystemRoute(e, e);
    assert '=' !in e;
  }

  /** The bare word `and` takes the system route with two empty fragments. */
  lemma LoneConnectorRoute(raw: string)
    requires raw == "and"
    ensures Classify(Normalizer.Normalize(raw)) == SystemRoute([], [])
  {
    Normalizer.NormalizeLoneConnector(raw);
    LoneAmpersandRoute(Normalizer.Normalize(raw));
  }

  /** A lone `&` is a system of two empty fragments. */
  lemma LoneAmpersandRoute(clean: string)
    requires clean == "&"
    ensures Classify(clean) == SystemRoute([], [])
  {
    var e: string := [];
    BlankFragmentsAccepted(e, e);
    assert e + "&" + e == clean;
  }

  /** Without an `and` in the raw text, the route follows the raw text's own
      `&` and `=` counts: the normaliser neither adds nor removes them. */
  lemma RouteFollowsRawCounts(raw: string)
    requires Normalizer.HasNoAnd(raw)
    ensures Classify(Normalizer.Normalize(raw)).SystemRoute? <==> Count(raw, '&') == 1
    ensures Classify(Normalizer.Normalize(raw)) == TooManyEquations <==> Count(raw, '&') >= 2
    ensures Classify(Normalizer.Normalize(raw)).SingleRoute? <==> '&' !in raw && Count(raw, '=') == 1
    ensures Classify(Normalizer.Normalize(raw)) == MalformedEquation <==> '&' !in raw && Count(raw, '=') >= 2
    ensures Classify(Normalizer.Normalize(raw)).ExpressionRoute? <==> '&' !in raw && '=' !in raw
  {
    var clean := Normalizer.Normalize(raw);
    assert Count(clean, '&') == Count(raw, '&') by {
      Normalizer.NormalizeKeepsAmpersands(raw);
    }
    assert Count(clean, '=') == Count(raw, '=') by {
      Normalizer.NormalizeKeepsEquals(raw);
    }
    RouteByCounts(clean, raw);
  }

  /** Two texts with the same `&` and `=` counts take the same branch. */
  lemma RouteByCounts(clean: string, raw: string)
    requires Count(clean, '&') == Count(raw, '&') && Count(clean, '=') == Count(raw, '=')
    ensures Classify(clean).SystemRoute? <==> Count(raw, '&') == 1
    ensures Classify(clean) == TooManyEquations <==> Count(raw, '&') >= 2
    ensures Classify(clean).SingleRoute? <==> '&' !in raw && Count(raw, '=') == 1
    ensures Classify(clean) == MalformedEquation <==> '&' !in raw && Count(raw, '=') >= 2
    ensures Classify(clean).ExpressionRoute? <==> '&' !in raw && '=' !in raw
  {
  }

  // ---------------------------------------------------------------------
  // The reply
  // ---------------------------------------------------------------------

  /** `solution[:4000]`: the first 4000 characters, or all of a shorter
      reply. */
  function Truncate(s: string): (r: string)
    ensures |r| <= MessageLimit && |r| <= |s|
    ensures r == s[..|r|]
    ensures |s| <= MessageLimit ==> r == s
    ensures |s| > MessageLimit ==> |r| == MessageLimit
  {
    if |s| <= MessageLimit then s else s[..MessageLimit]
  }

  /** Evaluating an expression: an invalid one is rejected, the exception
      of a failed validation or simplification surfaces as a critical
      error, and a `SympifyError` while simplifying is reported. Only the
      evaluation and the reported error are cut to the limit. */
  function ExpressionReply(expr: string, engine: Engine): (reply: string)
    ensures engine.parse(expr).SympifyError? ==> reply == InvalidExpressionSyntax
    ensures engine.parse(expr).OtherError? ==> reply == CriticalErrorPrefix + engine.parse(expr).message
    ensures engine.parse(expr) == Parsed && engine.simplify(expr).Simplified? ==>
      reply == Truncate(EvaluationHeader + expr + " = " + engine.simplify(expr).printed)
    ensures engine.parse(expr) == Parsed && engine.simplify(expr).SimplifyFailed? ==>
      reply == Truncate(ExpressionErrorPrefix + engine.simplify(expr).message)
    ensures engine.parse(expr) == Parsed && engine.simplify(expr).SimplifyRaised? ==>
      reply == CriticalErrorPrefix + engine.simplify(expr).message
  {
    match ValidateExpression(engine.parse, expr)
    case Invalid => InvalidExpressionSyntax
    case Raised(m) => CriticalErrorPrefix + m
    case Valid =>
      match engine.simplify(expr)
      case Simplified(printed) => Truncate(EvaluationHeader + expr + " = " + printed)
      case SimplifyFailed(m) => Truncate(ExpressionErrorPrefix + m)
      case SimplifyRaised(m) => CriticalErrorPrefix + m
  }

  /** The reply `handle_math_problem` sends for a problem. Every reply fits
      the message limit except a critical error, whose text is the
      exception's and is sent whole. */
  function Respond(text: Option<string>, messageText: Option<string>, engine: Engine): (reply: string)
    ensures Problem(text, messageText) == [] ==> reply == EmptyInput
    ensures (Problem(text, messageText) != [] &&
             Count(Normalizer.Normalize(Problem(text, messageText)), '&') >= 2) ==> reply == NotTwoEquations
    ensures (Problem(text, messageText) != [] &&
             '&' !in Normalizer.Normalize(Problem(text, messageText)) &&
             Count(Normalizer.Normalize(Problem(text, messageText)), '=') >= 2) ==> reply == NotOneEquals
    ensures |reply| <= MessageLimit || CriticalErrorPrefix <= reply
  {
    var problem := Problem(text, messageText);
    if problem == [] then EmptyInput
    else
      match Classify(Normalizer.Normalize(problem))
      case SystemRoute(eq1, eq2) => Truncate(Validation.SystemSolutionSteps(eq1, eq2, engine))
      case TooManyEquations => NotTwoEquations
      case SingleRoute(lhs, rhs) => Truncate(Validation.SingleEquationSteps(lhs, rhs, engine))
      case MalformedEquation => NotOneEquals
      case ExpressionRoute(expr) => ExpressionReply(expr, engine)
  }

  /** A raw system of two equations joined by `&` reaches the system path
      with the stripped, normalised fragments, whatever they are. */
  lemma RawSystemRoutes(raw: string, engine: Engine)
    requires raw != [] && Normalizer.HasNoAnd(raw) && Count(raw, '&') == 1
    ensures Classify(Normalizer.Normalize(raw)).SystemRoute?
    ensures Respond(Some(raw), None, engine) ==
      Truncate(Validation.SystemSolutionSteps(
        Classify(Normalizer.Normalize(raw)).eq1, Classify(Normalizer.Normalize(raw)).eq2, engine))
  {
    RouteFollowsRawCounts(raw);
  }

  /** Two equations joined by a connector (`and` in any letter case, or
      `&`), neither holding a connector of its own, reach the system path,
      and the two fragments it is handed are the two sides, each
      normalised and stripped on its own. */
  lemma JoinedSystemRoutes(a: string, w: string, b: string, engine: Engine)
    requires Normalizer.HasNoAnd(a) && '&' !in a && Normalizer.HasNoAnd(b) && '&' !in b
    requires Normalizer.IsConnector(w)
    ensures Classify(Normalizer.Normalize(a + w + b))
            == SystemRoute(Strip(Normalizer.Normalize(a)), Strip(Normalizer.Normalize(b)))
    ensures Respond(Some(a + w + b), None, engine)
            == Truncate(Validation.SystemSolutionSteps(
                 Strip(Normalizer.Normalize(a)), Strip(Normalizer.Normalize(b)), engine))
  {
    var clean := Normalizer.Normalize(a + w + b);
    Normalizer.NormalizeJoinedCount(a, w, b);
    Normalizer.NormalizeJoinedSides(a, w, b);
    assert Classify(clean) == SystemRoute(Strip(Normalizer.Normalize(a)), Strip(Normalizer.Normalize(b)));
    assert Problem(Some(a + w + b), None) == a + w + b;
  }

  /** The bot's own example of a system, `2x+y=7 and x-y=2`, is solved as
      the system of `2*x+y=7` and `x-y=2`. */
  lemma AndExampleRoutes(engine: Engine)
    ensures Respond(Some("2x+y=7 and x-y=2"), None, engine)
            == Truncate(Validation.SystemSolutionSteps("2*x+y=7", "x-y=2", engine))
  {
    var a, w, b := "2x+y=7 ", "and", " x-y=2";
    assert a + w + b == "2x+y=7 and x-y=2";
    assert Normalizer.HasNoAnd(a) && Normalizer.HasNoAnd(b);
    JoinedSystemRoutes(a, w, b, engine);
    Normalizer.ExampleLeftSide(a);
    Normalizer.ExampleRightSide(b);
  }

  /** A raw single equation (one `=`, no `&`, no `and`) is answered by the
      single-equation path on the stripped, normalised sides. */
  lemma RawSingleRoutes(raw: string, engine: Engine)
    requires raw != [] && Normalizer.HasNoAnd(raw) && '&' !in raw && Count(raw, '=') == 1
    ensures Classify(Normalizer.Normalize(raw)).SingleRoute?
    ensures Respond(Some(raw), None, engine) ==
      Truncate(Validation.SingleEquationSteps(
        Classify(Normalizer.Normalize(raw)).lhs, Classify(Normalizer.Normalize(raw)).rhs, engine))
  {
    RouteFollowsRawCounts(raw);
  }

  /** A raw text with no `=`, no `&` and no `and` is evaluated as an
      expression, in its normalised form: rejected as invalid syntax when the
      validator says so. */
  lemma RawExpressionRoutes(raw: string, engine: Engine)
    requires raw != [] && Normalizer.HasNoAnd(raw) && '&' !in raw && '=' !in raw
    ensures Respond(Some(raw), None, engine) == ExpressionReply(Normalizer.Normalize(raw), engine)
    ensures engine.parse(Normalizer.Normalize(raw)).SympifyError? ==>
              Respond(Some(raw), None, engine) == InvalidExpressionSyntax
  {
    RouteFollowsRawCounts(raw);
  }

  /** `handle_math_problem`: the same steps, calling the normaliser and the
      system path in their imperative form. */
  method HandleMathProblem(text: Option<string>, messageText: Option<string>, engine: Engine)
    returns (reply: string)
    ensures reply == Respond(text, messageText, engine)
  {
    var problem := Problem(text, messageText);
    if problem == [] {
      return EmptyInput;
    }
    var clean := Normalizer.PreprocessInput(problem);
    var route := Classify(clean);
    match route {
      case SystemRoute(eq1, eq2) =>
        var solution := Validation.GenerateSystemSolutionSteps(eq1, eq2, engine);
        reply := Truncate(solution);
      case TooManyEquations =>
        reply := NotTwoEquations;
      case SingleRoute(lhs, rhs) =>
        reply := Truncate(Validation.SingleEquationSteps(lhs, rhs, engine));
      case MalformedEquation =>
        reply := NotOneEquals;
      case ExpressionRoute(expr) =>
        reply := ExpressionReply(expr, engine);
    }
  }
}
