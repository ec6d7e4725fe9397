/** Values shared by every part of the evaluator: the error classification,
    the result wrapper and the ASCII character classes. */
module Common {

  /** The ways an evaluation can fail. Each constructor carries what the
      corresponding error message of the calculator names. */
  datatype EvalError =
    | EmptyExpression                 // "empty expression"
    | InvalidCharacter(c: char)       // "invalid character in expression: 'c'"
    | UnexpectedEnd                   // "unexpected end of expression"
    | UnmatchedParenthesis            // "unmatched parenthesis"
    | InvalidToken(token: string)     // "invalid token: tok"
    | InvalidNumber(token: string)    // "invalid number: tok"
    | UnexpectedToken(token: string)  // "invalid syntax: unexpected token 'tok'"
    | IntegerDivideByZero             // runtime panic of `int(l) % int(r)` when int(r) == 0

  /** A value, or the error that stopped the computation. */
  datatype Result<T> = Ok(value: T) | Err(error: EvalError)

  /** An ASCII decimal digit. */
  predicate IsDigit(c: char) {
    '0' <= c <= '9'
  }

  /** One of the five binary operator characters. */
  function IsOperator(c: char): (b: bool)
    ensures b <==> c in "+-*/%"
  {
    c == '+' || c == '-' || c == '*' || c == '/' || c == '%'
  }

  /** A character that may appear in an expression once spaces are removed. */
  predicate IsLegal(c: char) {
    IsDigit(c) || c == '.' || IsOperator(c) || c == '(' || c == ')'
  }

  /** A character of a numeric literal proper. */
  predicate IsDigitOrDot(c: char) {
    IsDigit(c) || c == '.'
  }
}
