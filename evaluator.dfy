/** The entry point `evalExpr`: tokenize, refuse an empty token list, parse
    one expression from the first token and refuse anything left over. */
module Evaluator {
  import opened Common
  import opened Numbers
  import opened Tokenizer
  import opened Parser

  /** What `evalExpr` does once the tokens are known. */
  function EvalTokens(t: seq<string>): (r: Result<real>)
    ensures r == Err(EmptyExpression) <==> |t| == 0
    ensures 0 < |t| && Expr(t, 0).Err? ==> r == Err(Expr(t, 0).error)
    ensures r.Ok? <==> Expr(t, 0).Ok? && Expr(t, 0).value.next == |t|
    ensures r.Ok? ==> r.value == Expr(t, 0).value.value
    ensures Expr(t, 0).Ok? && Expr(t, 0).value.next < |t| ==>
      r == Err(UnexpectedToken(t[Expr(t, 0).value.next]))
  {
    if |t| == 0 then Err(EmptyExpression)
    else
      match Expr(t, 0)
      case Err(e) => Err(e)
      case Ok(p) =>
        if p.next != |t| then Err(UnexpectedToken(t[p.next])) else Ok(p.value)
  }

  /** `evalExpr`: the value of an expression string, or why it has none. */
  function EvalExpr(expr: string): (r: Result<real>)
    ensures r == Err(EmptyExpression) <==> StripSpaces(expr) == []
  {
    match Lex(StripSpaces(expr), 0)
    case Err(e) => Err(e)
    case Ok(t) => EvalTokens(t)
  }

  /** `evalExpr` run on the imperative pieces: the tokenizing scan and the
      parsing loops. */
  method Evaluate(expr: string) returns (r: Result<real>)
    ensures r == EvalExpr(expr)
  {
    var tokens := Tokenize(expr);
    if tokens.Err? {
      return Err(tokens.error);
    }
    var t := tokens.value;
    if |t| == 0 {
      return Err(EmptyExpression);
    }
    var parsed := ParseAddSub(t, 0);
    if parsed.Err? {
      return Err(parsed.error);
    }
    if parsed.value.next != |t| {
      return Err(UnexpectedToken(t[parsed.value.next]));
    }
    return Ok(parsed.value.value);
  }
}
