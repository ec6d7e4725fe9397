# Expression evaluator of the desktop calculator

The calculator in `main.go` turns the text typed on its keypad into a value
with `evalExpr`. That function has three stages:

- a tokenizer (`tokenizeAdvanced`) removes the spaces. It then splits the
  text into number tokens and one-character operator and parenthesis
  tokens. A `-` at the start, after `(` or after an operator is glued to
  the number that follows it.
- a recursive-descent parser/evaluator (`parseExpr`, `parseAddSub`,
  `parseMulDivMod`, `parseFactor`, `isNumber`) computes the value while it
  parses. `*`, `/` and `%` bind tighter than `+` and `-`. Operators of one
  level fold from left to right. A `-` token negates the factor after it.
- a final check refuses an empty token list and any tokens left over.

The model follows the code, module by module:

- `Common`: the error kinds (one per error message of the source, plus Go's
  integer-division panic), the `Result` wrapper and the ASCII character
  classes; `isOperator` (main.go:88-90) is the function `IsOperator`.
- `Numbers`: `isNumber`; `strconv.ParseFloat` on the strings `isNumber`
  accepts, read as exact decimals; Go's `int(x)` truncation and its
  integer `%`.
- `Tokenizer`: the reference definition `Lex`, which reads a number token as
  a maximal run of glued characters, and the method `Tokenize`, which is
  the source's scan with its pending-number buffer, proved equal to `Lex`.
- `Parser`: each grammar rule as a function returning the value and the
  index of the first unconsumed token. The two `for` loops are the
  tail-recursive `AddSubLoop` and `MulDivModLoop`. The methods
  `ParseAddSub` and `ParseMulDivMod` are those while loops, proved to
  compute the same results.
- `Evaluator`: `evalExpr` as a function (`EvalExpr`) and as a method on the
  imperative pieces (`Evaluate`).
- `Properties`: facts every successful evaluation obeys. The parser consumes
  balanced, operand-shaped token runs, so an evaluated string has as many
  `(` as `)`. Spaces do not matter. An integer written out evaluates back
  to itself.
- `Precedence`: left folding of each precedence level against an
  independent fold, precedence of `*`, `/` and `%` over `+` and `-`, the
  zero-divisor policy, the truncating `%` and the leading-operator errors.
- `Examples`: whole expressions evaluated from the characters to the value
  or the error.

Values are exact rationals (`real`). Go's `float64` rounding is not part of
the model.

Where the code and the calculator's design description differ, the model
follows the code:

- only the space character is removed; a tab or newline is an invalid
  character;
- the invalid-character error names the character but not its position;
- a stray `)` after a complete expression is reported as an unexpected
  leftover token, not as an unmatched parenthesis;
- a right operand of `%` strictly between -1 and 1, other than 0, passes
  the zero test on the float but truncates to the integer 0. Go then
  panics with an integer division by zero. The model reports that as the
  error `IntegerDivideByZero`.

## Model

| member | source | states |
|---|---|---|
| Common.IsOperator | main.go:88-90 | true exactly for the five operator characters + - * / % |
| Numbers.AllDigitsOrDots | main.go:198-203 | true exactly when every character is a digit or '.' |
| Numbers.IsNumber | main.go:191-204 | true exactly when the string is a non-empty run of digits and dots, or such a run after one leading '-' |
| Numbers.NumberEdges | main.go:191-204 | "", "-" and "--3" are not numbers; "." and "-." are numbers that ParseFloat refuses |
| Numbers.ParseUnsigned | main.go:182-185 | succeeds exactly when the digits-and-dots string has at most one '.' and at least one digit; the value is non-negative (its exact value: ParseWhole, ParseFraction) |
| Numbers.ParseNumber | main.go:182-185 | succeeds exactly when the unsigned part is well formed; a leading '-' gives a value <= 0, none gives a value >= 0 |
| Numbers.DigitsValueAppend | main.go:182-185 | the value of the digits a then b is a's value shifted left by the number of b's digits, plus b's value |
| Numbers.ParseWhole | main.go:182-185 | ParseFloat on a run of digits without '.' is the integer the digits denote |
| Numbers.ParseFraction | main.go:182-185 | ParseFloat on digits, '.', digits is the integer of all the digits over 10 to the number of digits after the '.' ("2.5" is 25/10) |
| Numbers.ParseNegative | main.go:182-185 | ParseFloat on "-x" fails exactly when it fails on "x", and otherwise is its negation |
| Numbers.DigitsValueOfFormatNat | main.go:182-185 | reading the decimal digits of n gives back n |
| Numbers.ParseFormatInt | main.go:181-186 | the decimal form of any integer is a number token and ParseFloat returns that integer |
| Numbers.Trunc | main.go:150 | `int(x)` truncates toward zero: the result lies within 1 of x on x's side of 0 |
| Numbers.TruncRem | main.go:150 | Go's `%`: a == q*b + r for the truncated quotient q, abs(r) < abs(b), and r has the dividend's sign |
| Tokenizer.StripSpaces | main.go:59 | no ' ' is left, nothing gets longer, and every other character keeps its count |
| Tokenizer.StripSpacesChar | main.go:59 | a lone space is removed and any other character is kept |
| Tokenizer.StripSpacesAppend | main.go:59 | removing the spaces of a + b is removing them from a and from b and joining the results, so the kept characters stay in order |
| Tokenizer.SpacelessUnchanged | main.go:59 | a string without ' ' is left as it is |
| Tokenizer.StripSpacesIdempotent | main.go:59 | removing the spaces twice is removing them once |
| Tokenizer.Glued | main.go:63-71 | a character joins the pending number when it is a digit or '.', or a '-' at the start, after '(' or after an operator; after any other legal character a '-' is a binary minus |
| Tokenizer.Lex | main.go:58-86 | the reference scan: maximal glued runs as number tokens, else one legal character as its own token, else InvalidCharacter naming an illegal character; it returns no tokens exactly at the end of the string |
| Tokenizer.RunEnd | main.go:63-71 | the end of the maximal run of characters the scan appends to the pending number |
| Tokenizer.LexToken | main.go:62-79 | the first token from i is a maximal glued run, or one legal character that is not glued |
| Tokenizer.LexWholeRun | main.go:62-85 | a non-empty string whose every character joins the pending number scans as one token, the whole string |
| Tokenizer.LexCharacters | main.go:62-81 | a stretch of legal characters with no two glued neighbours scans as one token per character, followed by what the rest scans to |
| Tokenizer.FlushRun | main.go:72-75 | flushing the pending number emits exactly the glued run since the last token |
| Tokenizer.EmitSingle | main.go:76-78 | an operator or parenthesis that is not glued becomes a one-character token |
| Tokenizer.Tokenize | main.go:58-86 | the scan with its pending-number buffer returns what `Lex` defines for the space-free string |
| Tokenizer.LexFailsExactlyOnIllegal | main.go:62-81 | tokenizing fails exactly when an illegal character occurs, and then names the first one |
| Tokenizer.MinusOnlyAfterMinus | main.go:67-71 | inside a glued run a '-' is preceded only by '-' |
| Tokenizer.GluedRunIsNumeral | main.go:63-71 | a glued run is a numeral: '-' signs first, then digits and dots |
| Tokenizer.LexTokensSpellInput | main.go:58-86 | on success the tokens concatenate back to the input, and each is a one-character symbol or a numeral |
| Tokenizer.ParenthesesOfToken | main.go:76-78 | a token holds a parenthesis only when it is that parenthesis |
| Tokenizer.ParenthesesSurviveLexing | main.go:58-86 | the '(' and ')' tokens are exactly the parentheses of the text they spell |
| Parser.Expr | main.go:93-95 | a successful parse consumes at least one token and stays inside the list |
| Parser.AddSub | main.go:97-120 | a successful parse consumes at least one token and stays inside the list |
| Parser.AddSubLoop | main.go:102-118 | the loop never moves backwards nor past the end |
| Parser.MulDivMod | main.go:122-156 | a successful parse consumes at least one token and stays inside the list |
| Parser.ApplyMulOp | main.go:137-152 | a zero right operand of '/' or '%' keeps the accumulator; it fails, with IntegerDivideByZero, exactly for '%' with a non-zero right operand that truncates to 0 |
| Parser.MulDivModLoop | main.go:127-154 | the loop never moves backwards nor past the end |
| Parser.Factor | main.go:158-189 | at the end of the tokens it fails with UnexpectedEnd; a success consumes at least one token |
| Parser.ParseMulDivMod | main.go:122-156 | the while loop returns exactly `MulDivMod` |
| Parser.ParseAddSub | main.go:97-120 | the while loop returns exactly `AddSub` |
| Evaluator.EvalTokens | main.go:44-54 | EmptyExpression exactly when there are no tokens; a parse error is passed through unchanged; success exactly when one expression covers every token, with its value; a leftover token is UnexpectedToken naming it |
| Evaluator.EvalExpr | main.go:39-55 | EmptyExpression exactly when the string holds nothing but spaces |
| Evaluator.Evaluate | main.go:39-55 | the scan and the parsing loops together compute `EvalExpr` |
| Properties.ExprConsumesOperand | main.go:93-95 | a successful parse consumes balanced tokens that start and end like an operand |
| Properties.AddSubConsumesOperand | main.go:97-120 | a successful parse consumes balanced tokens that start and end like an operand |
| Properties.AddSubLoopConsumesOperators | main.go:102-118 | the loop consumes balanced tokens and, if it consumes any, stops after an operand |
| Properties.MulDivModConsumesOperand | main.go:122-156 | a successful parse consumes balanced tokens that start and end like an operand |
| Properties.MulDivModLoopConsumesOperators | main.go:127-154 | the loop consumes balanced tokens and, if it consumes any, stops after an operand |
| Properties.FactorConsumesOperand | main.go:158-189 | a successful factor is a number, a negated factor or a parenthesised expression: balanced and operand-shaped |
| Properties.GroupFactor | main.go:163-172 | a successful factor that starts with '(' ends with the matching ')', has balanced tokens inside, and has the value of the non-empty expression inside |
| Properties.EvaluatedTokensFormOperand | main.go:44-54 | tokens that evaluate are non-empty, balanced, start like an operand and end like one |
| Properties.EvaluatedExpressionIsBalanced | main.go:39-55 | a string that evaluates holds as many '(' as ')' |
| Properties.SpacesAreIgnored | main.go:59 | a string evaluates as it does with its spaces removed |
| Properties.FormattedIntegerEvaluates | main.go:181-186 | an integer written in decimal is one token and evaluates back to that integer |
| Properties.OneLiteralEvaluates | main.go:44-54 | a lone number token that ParseFloat accepts evaluates to its value |
| Precedence.Combine | main.go:112-152 | the value after one operator step: '-' subtracts, '/' divides, and a zero right operand leaves the running value unchanged for every operator but '*'; '%' gives a whole number smaller in size than the truncated divisor, with the sign of the truncated dividend |
| Precedence.FoldLeftFirst | main.go:127-154 | folding the first operator and then the rest is the same left fold |
| Precedence.ApplyMulOpCombines | main.go:137-152 | when '%' does not panic, one step of `parseMulDivMod` is one step of the fold: '*' multiplies, '/' divides, '%' takes Go's remainder of the truncated operands, and a zero divisor keeps the accumulator |
| Precedence.FactorIsTerm | main.go:127-130 | a factor not followed by '*', '/' or '%' is a whole term |
| Precedence.TermIsExpr | main.go:102-106 | a term not followed by '+' or '-' is a whole expression |
| Precedence.LiteralTerm | main.go:122-156 | a number token not followed by '*', '/' or '%' is a whole term |
| Precedence.AddSubLoopLiteral | main.go:103-117 | '+' or '-' and a number token combine into the accumulator |
| Precedence.AddSubLoopTerm | main.go:103-117 | '+' or '-' and a term combine into the accumulator |
| Precedence.AddSubLoopFolds | main.go:102-118 | the loop over a '+'/'-' chain of numbers is the left fold of their values |
| Precedence.MulDivModLoopFolds | main.go:127-154 | the loop over a '*'/'/'/'%' chain of numbers is the left fold of their values, when no '%' meets a non-zero divisor that truncates to 0 |
| Precedence.SumFoldsLeft | main.go:97-120 | a whole chain of numbers joined by '+' and '-' evaluates to its left fold |
| Precedence.ProductFoldsLeft | main.go:122-156 | a whole chain of numbers joined by '*', '/' and '%' evaluates to its left fold ("7%4%2" is (7%4)%2), when no '%' panics |
| Precedence.LiteralProduct | main.go:122-156 | number, '*', '/' or '%', number is one term with the combined value, when '%' does not panic |
| Precedence.LiteralSum | main.go:97-120 | number, '+' or '-', number is one expression with the combined value |
| Precedence.ProductBindsTighterOnRight | main.go:97-156 | in a+b*c, a+b/c and a+b%c the right operation is applied first ("1+7%4" is 1+(7%4)), when '%' does not panic |
| Precedence.ProductBindsTighterOnLeft | main.go:97-156 | in a*b+c, a/b+c and a%b+c the left operation is applied first ("7%4-1" is (7%4)-1), when '%' does not panic |
| Precedence.ZeroDivisorKeepsLeft | main.go:140-151 | a '/' or '%' whose right operand evaluates to 0 keeps the accumulator and goes on after that operand |
| Precedence.ModuloTruncates | main.go:146-151 | '%' truncates both operands toward zero and takes Go's remainder |
| Precedence.FractionalModuloPanics | main.go:146-151 | a non-zero right operand of '%' strictly between -1 and 1 is an integer division by zero |
| Precedence.LeadingOperatorFails | main.go:181-188 | tokens starting with '+', '*', '/', '%' or ')' fail with InvalidToken naming that token |
| Precedence.StrayMinusFails | main.go:174-188 | a '-' token followed by neither a number nor '(' is InvalidToken |
| Examples.ProductFirst | main.go:39-55 | "2+2*3" is 8 |
| Examples.ParenthesesFirst | main.go:163-172 | "(2+2)*3" is 12 |
| Examples.NestedGroup | main.go:163-172 | "2*(3+4*2)" is 22 |
| Examples.MixedFold | main.go:97-156 | "((2+3)*2)-4/2" is 8 |
| Examples.SubtractionFolds | main.go:102-118 | "8-2-1" is 5 |
| Examples.LeadingMinus | main.go:67-71 | "-5+3" is -2 |
| Examples.NegatedGroup | main.go:174-180 | "-(2+3)*4" is -20 |
| Examples.DoubleNegation | main.go:174-180 | "-(-5)" is 5 |
| Examples.MinusAfterOperator | main.go:67-71 | "3--2" is 5 |
| Examples.ZeroDivisor | main.go:140-145 | "2/0" is 2 |
| Examples.ZeroDivisorGroup | main.go:140-145 | "(2+3)/(2-2)" is 5 |
| Examples.ModuloFollowsDividend | main.go:146-151 | "-7%2" is -1 |
| Examples.ModuloTruncatesOperands | main.go:146-151 | "7.9%2.5" is 1 |
| Examples.ModuloBindsTighter | main.go:97-156 | "1+7%4" is 4 |
| Examples.ModuloFolds | main.go:127-154 | "7%4%2" is 1 |
| Examples.FractionalModulo | main.go:146-151 | "5%0.5" is an integer division by zero |
| Examples.MissingOperand | main.go:159-161 | "2+" is UnexpectedEnd |
| Examples.LeadingOperator | main.go:188 | "*2+3" is InvalidToken("*") |
| Examples.DoubledOperator | main.go:188 | "2++3" is InvalidToken("+") |
| Examples.StrayClosing | main.go:51-53 | "2+3)" is UnexpectedToken(")") |
| Examples.UnclosedGroup | main.go:168-170 | "(2+3" is UnmatchedParenthesis |
| Examples.Letters | main.go:80 | "2+abc" is InvalidCharacter('a') |
| Examples.TabIsNotStripped | main.go:59 | "2\t+3" is InvalidCharacter('\t') |
| Examples.TwoDots | main.go:182-185 | "1..2" is InvalidNumber("1..2") |
| Examples.Empty | main.go:44-46 | "" is EmptyExpression |

## Left out

- The GUI: `borderedWhite`, `updateHistory` and `main` (the window, the
  buttons, key capture and the history list). The model starts at the
  expression string.
- `float64` arithmetic. Values are exact rationals, so rounding, infinities
  and NaN do not arise. `strconv.ParseFloat`'s range error for literals
  beyond `float64` is not modelled: such a literal parses to its exact
  value.
- `int(x)` on a float outside the range of `int`, which Go leaves
  implementation-defined. The model truncates without bound.
- `strconv.FormatFloat`, which the GUI applies to the result
  (main.go:253). Only its output for integral values (`FormatInt`) is
  modelled, for the round-trip lemma.
- Unicode. Characters are ASCII, and `unicode.IsDigit` is modelled as
  '0'..'9'. A non-ASCII decimal digit, which Go appends to a number token
  and ParseFloat then refuses, is an invalid character in the model.
  The source reads the previous character as a byte (`expr[i-1]`), the
  model as a character. The two never decide differently whether a '-' is
  glued: after a multi-byte character that byte is a UTF-8 continuation
  byte, which is neither '(' nor an operator.
- The index the parsing functions return with an error. `evalExpr` never
  reads it, so a failed parse carries only its error.
- The wording of the error messages. Each message is an `EvalError`
  constructor holding the values the message names.
- Parser.ApplyMulOp: its contract states the zero-divisor policy and when
  '%' fails, but not the value of each operation.
  Precedence.ApplyMulOpCombines and Precedence.ModuloTruncates state the
  value of each operation.
- Precedence.MulDivModLoopFolds: stated only where no '%' meets a non-zero
  divisor that truncates to 0. Go panics there; that case is
  Precedence.FractionalModuloPanics.
- Precedence.ProductFoldsLeft: stated only where no '%' meets a non-zero
  divisor that truncates to 0. Go panics there; that case is
  Precedence.FractionalModuloPanics.
- Precedence.LiteralProduct: stated only where no '%' meets a non-zero
  divisor that truncates to 0. Go panics there; that case is
  Precedence.FractionalModuloPanics.
- Precedence.ProductBindsTighterOnRight: stated only where no '%' meets a non-zero
  divisor that truncates to 0. Go panics there; that case is
  Precedence.FractionalModuloPanics.
- Precedence.ProductBindsTighterOnLeft: stated only where no '%' meets a non-zero
  divisor that truncates to 0. Go panics there; that case is
  Precedence.FractionalModuloPanics.
- Parser.AddSubLoop: its contract only bounds the index. Its value is
  stated by Precedence.AddSubLoopFolds, and what it consumes by
  Properties.AddSubLoopConsumesOperators.
- Parser.MulDivModLoop: its contract only bounds the index. Its value is
  stated by Precedence.MulDivModLoopFolds, and what it consumes by
  Properties.MulDivModLoopConsumesOperators.
- Evaluator.EvalExpr: its own contract states only when the result is
  EmptyExpression, in both directions. The Properties and Examples lemmas
  state the rest.
- The test file `main_test.go`. It calls methods (`setOperator`,
  `appendInput`, `calculate`, `continueFromHistory`) that main.go does not
  define. It also expects a "Div/0" result that `evalExpr` never produces.
  It says nothing about the evaluator.
