/** Expressions worked through from the characters to the value or the
    error: precedence, left folding, unary minus, the division-by-zero
    policy, the truncating remainder and each kind of error. Each `...Scan`
    lemma gives the token list the scan produces for its expression, and
    each `...Tokens` lemma evaluates that list. Every lemma takes its
    expression or token list as a parameter fixed by `requires s == ...`
    rather than writing the literal in its `ensures`, so that the verifier
    works on one named value instead of unfolding the string functions on
    each copy of the literal. */
module Examples {
  import opened Common
  import opened Numbers
  import opened Tokenizer
  import opened Parser
  import opened Evaluator
  import opened Precedence

  lemma ProductFirstTokens(t: seq<string>)
    requires t == ["2", "+", "2", "*", "3"]
    ensures EvalTokens(t) == Ok(8.0)
  {
    assert ValueOf("2") == 2.0 && ValueOf("3") == 3.0;
    ProductBindsTighterOnRight("2", '+', "2", '*', "3");
  }

  lemma ProductFirstScan(s: string)
    requires s == "2+2*3"
    ensures Lex(s, 0) == Ok(["2", "+", "2", "*", "3"])
  {
    LexCharacters(s, 0, 5, []);
    assert Characters(s, 0, 5) + [] == ["2", "+", "2", "*", "3"];
  }

  /** '*' binds tighter than '+'. */
  lemma ProductFirst(s: string)
    requires s == "2+2*3"
    ensures EvalExpr(s) == Ok(8.0)
  {
    SpacelessUnchanged(s);
    ProductFirstScan(s);
    ProductFirstTokens(["2", "+", "2", "*", "3"]);
  }

  /** The expression that starts at token 1 is 4.0 and stops before token 4. */
  lemma ParenthesesFirstInnerSum(t: seq<string>)
    requires t == ["(", "2", "+", "2", ")", "*", "3"]
    ensures Expr(t, 1) == Ok(Parsed(4.0, 4))
  {
    LiteralSum(t, 1);
  }

  /** The factor that starts at token 6 is 3.0 and stops before token 7. */
  lemma ParenthesesFirstMultiplier(t: seq<string>)
    requires t == ["(", "2", "+", "2", ")", "*", "3"]
    ensures Factor(t, 6) == Ok(Parsed(3.0, 7))
  {
  }

  lemma ParenthesesFirstTokens(t: seq<string>)
    requires t == ["(", "2", "+", "2", ")", "*", "3"]
    ensures EvalTokens(t) == Ok(12.0)
  {
    ParenthesesFirstInnerSum(t);
    ParenthesesFirstMultiplier(t);
    FactorParenthesis(t, 0, Expr(t, 1));
    MulDivModStart(t, 0, Factor(t, 0));
    MulDivModLoopStep(t, 4.0, 5, Factor(t, 6));
    MulDivModLoopStop(t, 12.0, 7);
    AddSubStart(t, 0, MulDivMod(t, 0));
    AddSubLoopStop(t, 12.0, 7);
  }

  lemma ParenthesesFirstScan(s: string)
    requires s == "(2+2)*3"
    ensures Lex(s, 0) == Ok(["(", "2", "+", "2", ")", "*", "3"])
  {
    LexCharacters(s, 0, 7, []);
    assert Characters(s, 0, 7) + [] == ["(", "2", "+", "2", ")", "*", "3"];
  }

  /** Parentheses override precedence. */
  lemma ParenthesesFirst(s: string)
    requires s == "(2+2)*3"
    ensures EvalExpr(s) == Ok(12.0)
  {
    SpacelessUnchanged(s);
    ParenthesesFirstScan(s);
    ParenthesesFirstTokens(["(", "2", "+", "2", ")", "*", "3"]);
  }

  /** The factor that starts at token 0 is 2.0 and stops before token 1. */
  lemma NestedGroupMultiplicand(t: seq<string>)
    requires t == ["2", "*", "(", "3", "+", "4", "*", "2", ")"]
    ensures Factor(t, 0) == Ok(Parsed(2.0, 1))
  {
  }

  /** The expression that starts at token 3 is 11.0 and stops before token 8. */
  lemma NestedGroupInnerSum(t: seq<string>)
    requires t == ["2", "*", "(", "3", "+", "4", "*", "2", ")"]
    ensures Expr(t, 3) == Ok(Parsed(11.0, 8))
  {
    LiteralTerm(t, 3);
    AddSubStart(t, 3, MulDivMod(t, 3));
    LiteralProduct(t, 5);
    AddSubLoopTerm(t, 3.0, 4);
    AddSubLoopStop(t, 11.0, 8);
  }

  lemma NestedGroupTokens(t: seq<string>)
    requires t == ["2", "*", "(", "3", "+", "4", "*", "2", ")"]
    ensures EvalTokens(t) == Ok(22.0)
  {
    NestedGroupMultiplicand(t);
    NestedGroupInnerSum(t);
    FactorParenthesis(t, 2, Expr(t, 3));
    MulDivModStart(t, 0, Factor(t, 0));
    MulDivModLoopStep(t, 2.0, 1, Factor(t, 2));
    MulDivModLoopStop(t, 22.0, 9);
    AddSubStart(t, 0, MulDivMod(t, 0));
    AddSubLoopStop(t, 22.0, 9);
  }

  lemma NestedGroupScan(s: string)
    requires s == "2*(3+4*2)"
    ensures Lex(s, 0) == Ok(["2", "*", "(", "3", "+", "4", "*", "2", ")"])
  {
    LexCharacters(s, 0, 9, []);
    assert Characters(s, 0, 9) + [] == ["2", "*", "(", "3", "+", "4", "*", "2", ")"];
  }

  /** A group inside a product. */
  lemma NestedGroup(s: string)
    requires s == "2*(3+4*2)"
    ensures EvalExpr(s) == Ok(22.0)
  {
    SpacelessUnchanged(s);
    NestedGroupScan(s);
    NestedGroupTokens(["2", "*", "(", "3", "+", "4", "*", "2", ")"]);
  }

  /** The expression that starts at token 2 is 5.0 and stops before token 5. */
  lemma MixedFoldInnerSum(t: seq<string>)
    requires t == ["(", "(", "2", "+", "3", ")", "*", "2", ")", "-", "4", "/", "2"]
    ensures Expr(t, 2) == Ok(Parsed(5.0, 5))
  {
    LiteralSum(t, 2);
  }

  /** The factor that starts at token 7 is 2.0 and stops before token 8. */
  lemma MixedFoldMultiplier(t: seq<string>)
    requires t == ["(", "(", "2", "+", "3", ")", "*", "2", ")", "-", "4", "/", "2"]
    ensures Factor(t, 7) == Ok(Parsed(2.0, 8))
  {
  }

  /** The term that starts at token 10 is 2.0 and stops before token 13. */
  lemma MixedFoldQuotient(t: seq<string>)
    requires t == ["(", "(", "2", "+", "3", ")", "*", "2", ")", "-", "4", "/", "2"]
    ensures MulDivMod(t, 10) == Ok(Parsed(2.0, 13))
  {
    LiteralProduct(t, 10);
  }

  /** (2+3)*2 inside the outer group. */
  lemma MixedFoldProduct(t: seq<string>)
    requires t == ["(", "(", "2", "+", "3", ")", "*", "2", ")", "-", "4", "/", "2"]
    ensures MulDivMod(t, 1) == Ok(Parsed(10.0, 8))
  {
    MixedFoldInnerSum(t);
    MixedFoldMultiplier(t);
    FactorParenthesis(t, 1, Expr(t, 2));
    assert Factor(t, 1) == Ok(Parsed(5.0, 6));
    MulDivModStart(t, 1, Factor(t, 1));
    MulDivModLoopStep(t, 5.0, 6, Factor(t, 7));
    assert MulDivModLoop(t, 5.0, 6) == MulDivModLoop(t, 10.0, 8);
    MulDivModLoopStop(t, 10.0, 8);
  }

  /** The outer group's contents evaluate to 10. */
  lemma MixedFoldGroup(t: seq<string>)
    requires t == ["(", "(", "2", "+", "3", ")", "*", "2", ")", "-", "4", "/", "2"]
    ensures Expr(t, 1) == Ok(Parsed(10.0, 8))
  {
    MixedFoldProduct(t);
    AddSubStart(t, 1, MulDivMod(t, 1));
    AddSubLoopStop(t, 10.0, 8);
  }

  /** The first term, the outer group, is 10. */
  lemma MixedFoldFirst(t: seq<string>)
    requires t == ["(", "(", "2", "+", "3", ")", "*", "2", ")", "-", "4", "/", "2"]
    ensures MulDivMod(t, 0) == Ok(Parsed(10.0, 9))
  {
    MixedFoldGroup(t);
    FactorParenthesis(t, 0, Expr(t, 1));
    MulDivModStart(t, 0, Factor(t, 0));
    MulDivModLoopStop(t, 10.0, 9);
  }

  lemma MixedFoldTokens(t: seq<string>)
    requires t == ["(", "(", "2", "+", "3", ")", "*", "2", ")", "-", "4", "/", "2"]
    ensures EvalTokens(t) == Ok(8.0)
  {
    MixedFoldFirst(t);
    MixedFoldQuotient(t);
    AddSubStart(t, 0, MulDivMod(t, 0));
    AddSubLoopStep(t, 10.0, 9, MulDivMod(t, 10));
    AddSubLoopStop(t, 8.0, 13);
  }

  lemma MixedFoldScan(s: string)
    requires s == "((2+3)*2)-4/2"
    ensures Lex(s, 0) == Ok(["(", "(", "2", "+", "3", ")", "*", "2", ")", "-", "4", "/", "2"])
  {
    LexCharacters(s, 0, 13, []);
    assert Characters(s, 0, 13) + [] == ["(", "(", "2", "+", "3", ")", "*", "2", ")", "-", "4", "/", "2"];
  }

  /** Groups, precedence and a left fold together. */
  lemma MixedFold(s: string)
    requires s == "((2+3)*2)-4/2"
    ensures EvalExpr(s) == Ok(8.0)
  {
    SpacelessUnchanged(s);
    MixedFoldScan(s);
    MixedFoldTokens(["(", "(", "2", "+", "3", ")", "*", "2", ")", "-", "4", "/", "2"]);
  }

  lemma SubtractionFoldsTokens(t: seq<string>)
    requires t == ["8", "-", "2", "-", "1"]
    ensures EvalTokens(t) == Ok(5.0)
  {
    LiteralTerm(t, 0);
    AddSubStart(t, 0, MulDivMod(t, 0));
    AddSubLoopLiteral(t, 8.0, 1);
    AddSubLoopLiteral(t, 6.0, 3);
    AddSubLoopStop(t, 5.0, 5);
  }

  lemma SubtractionFoldsScan(s: string)
    requires s == "8-2-1"
    ensures Lex(s, 0) == Ok(["8", "-", "2", "-", "1"])
  {
    LexCharacters(s, 0, 5, []);
    assert Characters(s, 0, 5) + [] == ["8", "-", "2", "-", "1"];
  }

  /** Equal precedence folds left to right: (8-2)-1. */
  lemma SubtractionFolds(s: string)
    requires s == "8-2-1"
    ensures EvalExpr(s) == Ok(5.0)
  {
    SpacelessUnchanged(s);
    SubtractionFoldsScan(s);
    SubtractionFoldsTokens(["8", "-", "2", "-", "1"]);
  }

  lemma LeadingMinusTokens(t: seq<string>)
    requires t == ["-5", "+", "3"]
    ensures EvalTokens(t) == Ok(-2.0)
  {
    assert ValueOf("-5") == -5.0 && ValueOf("3") == 3.0;
    LiteralSum(t, 0);
  }

  lemma LeadingMinusScan(s: string)
    requires s == "-5+3"
    ensures Lex(s, 0) == Ok(["-5", "+", "3"])
  {
    LexCharacters(s, 2, 4, []);
    assert Characters(s, 2, 4) + [] == ["+", "3"];
    assert Lex(s, 2) == Ok(["+", "3"]);
    LexToken(s, 0, 2);
    assert s[0..2] == [s[0], s[1]];
    assert [s[0..2]] + ["+", "3"] == ["-5", "+", "3"];
  }

  /** A '-' at the start is glued to the number. */
  lemma LeadingMinus(s: string)
    requires s == "-5+3"
    ensures EvalExpr(s) == Ok(-2.0)
  {
    SpacelessUnchanged(s);
    LeadingMinusScan(s);
    LeadingMinusTokens(["-5", "+", "3"]);
  }

  /** The expression that starts at token 2 is 5.0 and stops before token 5. */
  lemma NegatedGroupInnerSum(t: seq<string>)
    requires t == ["-", "(", "2", "+", "3", ")", "*", "4"]
    ensures Expr(t, 2) == Ok(Parsed(5.0, 5))
  {
    LiteralSum(t, 2);
  }

  /** The factor that starts at token 7 is 4.0 and stops before token 8. */
  lemma NegatedGroupMultiplier(t: seq<string>)
    requires t == ["-", "(", "2", "+", "3", ")", "*", "4"]
    ensures Factor(t, 7) == Ok(Parsed(4.0, 8))
  {
  }

  lemma NegatedGroupTokens(t: seq<string>)
    requires t == ["-", "(", "2", "+", "3", ")", "*", "4"]
    ensures EvalTokens(t) == Ok(-20.0)
  {
    NegatedGroupInnerSum(t);
    NegatedGroupMultiplier(t);
    FactorParenthesis(t, 1, Expr(t, 2));
    FactorNegation(t, 0, Factor(t, 1));
    MulDivModStart(t, 0, Factor(t, 0));
    MulDivModLoopStep(t, -5.0, 6, Factor(t, 7));
    MulDivModLoopStop(t, -20.0, 8);
    AddSubStart(t, 0, MulDivMod(t, 0));
    AddSubLoopStop(t, -20.0, 8);
  }

  lemma NegatedGroupScan(s: string)
    requires s == "-(2+3)*4"
    ensures Lex(s, 0) == Ok(["-", "(", "2", "+", "3", ")", "*", "4"])
  {
    LexCharacters(s, 0, 8, []);
    assert Characters(s, 0, 8) + [] == ["-", "(", "2", "+", "3", ")", "*", "4"];
  }

  /** A standalone '-' before '(' negates the group. */
  lemma NegatedGroup(s: string)
    requires s == "-(2+3)*4"
    ensures EvalExpr(s) == Ok(-20.0)
  {
    SpacelessUnchanged(s);
    NegatedGroupScan(s);
    NegatedGroupTokens(["-", "(", "2", "+", "3", ")", "*", "4"]);
  }

  lemma DoubleNegationTokens(t: seq<string>)
    requires t == ["-", "(", "-5", ")"]
    ensures EvalTokens(t) == Ok(5.0)
  {
    assert ValueOf("-5") == -5.0;
    LiteralFactor(t, 2);
    FactorIsTerm(t, 2);
    TermIsExpr(t, 2);
    FactorParenthesis(t, 1, Expr(t, 2));
    FactorNegation(t, 0, Factor(t, 1));
    FactorIsTerm(t, 0);
    TermIsExpr(t, 0);
  }

  lemma DoubleNegationScan(s: string)
    requires s == "-(-5)"
    ensures Lex(s, 0) == Ok(["-", "(", "-5", ")"])
  {
    LexCharacters(s, 4, 5, []);
    assert Characters(s, 4, 5) + [] == [")"];
    assert Lex(s, 4) == Ok([")"]);
    LexToken(s, 2, 4);
    assert s[2..4] == [s[2], s[3]];
    assert [s[2..4]] + [")"] == ["-5", ")"];
    assert Lex(s, 2) == Ok(["-5", ")"]);
    LexCharacters(s, 0, 2, ["-5", ")"]);
    assert Characters(s, 0, 2) + ["-5", ")"] == ["-", "(", "-5", ")"];
  }

  /** A negated group holding a negative number. */
  lemma DoubleNegation(s: string)
    requires s == "-(-5)"
    ensures EvalExpr(s) == Ok(5.0)
  {
    SpacelessUnchanged(s);
    DoubleNegationScan(s);
    DoubleNegationTokens(["-", "(", "-5", ")"]);
  }

  lemma MinusAfterOperatorTokens(t: seq<string>)
    requires t == ["3", "-", "-2"]
    ensures EvalTokens(t) == Ok(5.0)
  {
    assert ValueOf("3") == 3.0 && ValueOf("-2") == -2.0;
    LiteralSum(t, 0);
  }

  lemma MinusAfterOperatorScan(s: string)
    requires s == "3--2"
    ensures Lex(s, 0) == Ok(["3", "-", "-2"])
  {
    LexToken(s, 2, 4);
    assert s[2..4] == [s[2], s[3]];
    assert [s[2..4]] + [] == ["-2"];
    assert Lex(s, 2) == Ok(["-2"]);
    LexCharacters(s, 0, 2, ["-2"]);
    assert Characters(s, 0, 2) + ["-2"] == ["3", "-", "-2"];
  }

  /** A '-' after an operator is glued to the number. */
  lemma MinusAfterOperator(s: string)
    requires s == "3--2"
    ensures EvalExpr(s) == Ok(5.0)
  {
    SpacelessUnchanged(s);
    MinusAfterOperatorScan(s);
    MinusAfterOperatorTokens(["3", "-", "-2"]);
  }

  lemma ZeroDivisorTokens(t: seq<string>)
    requires t == ["2", "/", "0"]
    ensures EvalTokens(t) == Ok(2.0)
  {
    assert ValueOf("2") == 2.0 && ValueOf("0") == 0.0;
    LiteralProduct(t, 0);
    TermIsExpr(t, 0);
  }

  lemma ZeroDivisorScan(s: string)
    requires s == "2/0"
    ensures Lex(s, 0) == Ok(["2", "/", "0"])
  {
    LexCharacters(s, 0, 3, []);
    assert Characters(s, 0, 3) + [] == ["2", "/", "0"];
  }

  /** Division by zero leaves the left operand. */
  lemma ZeroDivisor(s: string)
    requires s == "2/0"
    ensures EvalExpr(s) == Ok(2.0)
  {
    SpacelessUnchanged(s);
    ZeroDivisorScan(s);
    ZeroDivisorTokens(["2", "/", "0"]);
  }

  /** The expression that starts at token 1 is 5.0 and stops before token 4. */
  lemma ZeroDivisorGroupDividend(t: seq<string>)
    requires t == ["(", "2", "+", "3", ")", "/", "(", "2", "-", "2", ")"]
    ensures Expr(t, 1) == Ok(Parsed(5.0, 4))
  {
    LiteralSum(t, 1);
  }

  /** The expression that starts at token 7 is 0.0 and stops before token 10. */
  lemma ZeroDivisorGroupZeroDivisor(t: seq<string>)
    requires t == ["(", "2", "+", "3", ")", "/", "(", "2", "-", "2", ")"]
    ensures Expr(t, 7) == Ok(Parsed(0.0, 10))
  {
    LiteralSum(t, 7);
  }

  lemma ZeroDivisorGroupTokens(t: seq<string>)
    requires t == ["(", "2", "+", "3", ")", "/", "(", "2", "-", "2", ")"]
    ensures EvalTokens(t) == Ok(5.0)
  {
    ZeroDivisorGroupDividend(t);
    ZeroDivisorGroupZeroDivisor(t);
    FactorParenthesis(t, 0, Expr(t, 1));
    FactorParenthesis(t, 6, Expr(t, 7));
    MulDivModStart(t, 0, Factor(t, 0));
    ZeroDivisorKeepsLeft(t, 5.0, 5);
    MulDivModLoopStop(t, 5.0, 11);
    AddSubStart(t, 0, MulDivMod(t, 0));
    AddSubLoopStop(t, 5.0, 11);
  }

  lemma ZeroDivisorGroupScan(s: string)
    requires s == "(2+3)/(2-2)"
    ensures Lex(s, 0) == Ok(["(", "2", "+", "3", ")", "/", "(", "2", "-", "2", ")"])
  {
    LexCharacters(s, 0, 11, []);
    assert Characters(s, 0, 11) + [] == ["(", "2", "+", "3", ")", "/", "(", "2", "-", "2", ")"];
  }

  /** A divisor group that evaluates to zero is skipped. */
  lemma ZeroDivisorGroup(s: string)
    requires s == "(2+3)/(2-2)"
    ensures EvalExpr(s) == Ok(5.0)
  {
    SpacelessUnchanged(s);
    ZeroDivisorGroupScan(s);
    ZeroDivisorGroupTokens(["(", "2", "+", "3", ")", "/", "(", "2", "-", "2", ")"]);
  }

  lemma ModuloFollowsDividendTokens(t: seq<string>)
    requires t == ["-7", "%", "2"]
    ensures EvalTokens(t) == Ok(-1.0)
  {
    assert ValueOf("-7") == -7.0 && ValueOf("2") == 2.0;
    LiteralFactor(t, 0);
    LiteralFactor(t, 2);
    MulDivModStart(t, 0, Factor(t, 0));
    assert Trunc(-7.0) == -7 && Trunc(2.0) == 2 && TruncRem(-7, 2) == -1;
    ModuloTruncates(t, -7.0, 1);
    MulDivModLoopStop(t, -1.0, 3);
    TermIsExpr(t, 0);
  }

  lemma ModuloFollowsDividendScan(s: string)
    requires s == "-7%2"
    ensures Lex(s, 0) == Ok(["-7", "%", "2"])
  {
    LexCharacters(s, 2, 4, []);
    assert Characters(s, 2, 4) + [] == ["%", "2"];
    assert Lex(s, 2) == Ok(["%", "2"]);
    LexToken(s, 0, 2);
    assert s[0..2] == [s[0], s[1]];
    assert [s[0..2]] + ["%", "2"] == ["-7", "%", "2"];
  }

  /** The remainder takes the sign of the left operand. */
  lemma ModuloFollowsDividend(s: string)
    requires s == "-7%2"
    ensures EvalExpr(s) == Ok(-1.0)
  {
    SpacelessUnchanged(s);
    ModuloFollowsDividendScan(s);
    ModuloFollowsDividendTokens(["-7", "%", "2"]);
  }

  /** The factor that starts at token 0 is 7.9 and stops before token 1. */
  lemma ModuloTruncatesOperandsDividend(t: seq<string>)
    requires t == ["7.9", "%", "2.5"]
    ensures Factor(t, 0) == Ok(Parsed(7.9, 1))
  {
  }

  /** The factor that starts at token 2 is 2.5 and stops before token 3. */
  lemma ModuloTruncatesOperandsDivisor(t: seq<string>)
    requires t == ["7.9", "%", "2.5"]
    ensures Factor(t, 2) == Ok(Parsed(2.5, 3))
  {
  }

  lemma ModuloTruncatesOperandsTokens(t: seq<string>)
    requires t == ["7.9", "%", "2.5"]
    ensures EvalTokens(t) == Ok(1.0)
  {
    ModuloTruncatesOperandsDividend(t);
    ModuloTruncatesOperandsDivisor(t);
    MulDivModStart(t, 0, Factor(t, 0));
    assert Trunc(7.9) == 7 && Trunc(2.5) == 2 && TruncRem(7, 2) == 1;
    ModuloTruncates(t, 7.9, 1);
    MulDivModLoopStop(t, 1.0, 3);
    AddSubStart(t, 0, MulDivMod(t, 0));
    AddSubLoopStop(t, 1.0, 3);
  }

  lemma ModuloTruncatesOperandsScan(s: string)
    requires s == "7.9%2.5"
    ensures Lex(s, 0) == Ok(["7.9", "%", "2.5"])
  {
    LexToken(s, 4, 7);
    assert s[4..7] == [s[4], s[5], s[6]];
    assert [s[4..7]] + [] == ["2.5"];
    assert Lex(s, 4) == Ok(["2.5"]);
    LexCharacters(s, 3, 4, ["2.5"]);
    assert Characters(s, 3, 4) + ["2.5"] == ["%", "2.5"];
    assert Lex(s, 3) == Ok(["%", "2.5"]);
    LexToken(s, 0, 3);
    assert s[0..3] == [s[0], s[1], s[2]];
    assert [s[0..3]] + ["%", "2.5"] == ["7.9", "%", "2.5"];
  }

  /** '%' truncates both operands first: 7 % 2. */
  lemma ModuloTruncatesOperands(s: string)
    requires s == "7.9%2.5"
    ensures EvalExpr(s) == Ok(1.0)
  {
    SpacelessUnchanged(s);
    ModuloTruncatesOperandsScan(s);
    ModuloTruncatesOperandsTokens(["7.9", "%", "2.5"]);
  }

  lemma ModuloBindsTighterTokens(t: seq<string>)
    requires t == ["1", "+", "7", "%", "4"]
    ensures EvalTokens(t) == Ok(4.0)
  {
    assert ValueOf("1") == 1.0 && ValueOf("7") == 7.0 && ValueOf("4") == 4.0;
    assert Trunc(7.0) == 7 && Trunc(4.0) == 4 && TruncRem(7, 4) == 3;
    ProductBindsTighterOnRight("1", '+', "7", '%', "4");
  }

  lemma ModuloBindsTighterScan(s: string)
    requires s == "1+7%4"
    ensures Lex(s, 0) == Ok(["1", "+", "7", "%", "4"])
  {
    LexCharacters(s, 0, 5, []);
    assert Characters(s, 0, 5) + [] == ["1", "+", "7", "%", "4"];
  }

  /** '%' binds as tightly as '*': 1 + (7 % 4). */
  lemma ModuloBindsTighter(s: string)
    requires s == "1+7%4"
    ensures EvalExpr(s) == Ok(4.0)
  {
    SpacelessUnchanged(s);
    ModuloBindsTighterScan(s);
    ModuloBindsTighterTokens(["1", "+", "7", "%", "4"]);
  }

  lemma ModuloFoldsTokens(t: seq<string>)
    requires t == ["7", "%", "4", "%", "2"]
    ensures EvalTokens(t) == Ok(1.0)
  {
    var ops, ts := "%%", ["4", "2"];
    assert ValueOf("7") == 7.0 && ValueOf("4") == 4.0 && ValueOf("2") == 2.0;
    var xs := Values(ts);
    assert xs == [4.0, 2.0];
    assert Trunc(4.0) == 4 && Trunc(2.0) == 2;
    assert t == ["7"] + OperatorTail(ops, ts) by {
      assert OperatorTail(ops[1..], ts[1..]) == ["%", "2"];
    }
    ProductFoldsLeft("7", ops, ts);
    assert FoldLeft(7.0, ops[..1], xs[..1]) == 3.0 by {
      assert ops[..1][..0] == [] && xs[..1][..0] == [];
      assert Trunc(7.0) == 7 && TruncRem(7, 4) == 3;
    }
    assert Trunc(3.0) == 3 && TruncRem(3, 2) == 1;
  }

  lemma ModuloFoldsScan(s: string)
    requires s == "7%4%2"
    ensures Lex(s, 0) == Ok(["7", "%", "4", "%", "2"])
  {
    LexCharacters(s, 0, 5, []);
    assert Characters(s, 0, 5) + [] == ["7", "%", "4", "%", "2"];
  }

  /** Remainders fold left to right: (7 % 4) % 2. */
  lemma ModuloFolds(s: string)
    requires s == "7%4%2"
    ensures EvalExpr(s) == Ok(1.0)
  {
    SpacelessUnchanged(s);
    ModuloFoldsScan(s);
    ModuloFoldsTokens(["7", "%", "4", "%", "2"]);
  }

  lemma FractionalModuloTokens(t: seq<string>)
    requires t == ["5", "%", "0.5"]
    ensures EvalTokens(t) == Err(IntegerDivideByZero)
  {
    assert ValueOf("5") == 5.0 && ValueOf("0.5") == 0.5;
    LiteralFactor(t, 0);
    LiteralFactor(t, 2);
    MulDivModStart(t, 0, Factor(t, 0));
    FractionalModuloPanics(t, 5.0, 1);
    AddSubStart(t, 0, MulDivMod(t, 0));
  }

  lemma FractionalModuloScan(s: string)
    requires s == "5%0.5"
    ensures Lex(s, 0) == Ok(["5", "%", "0.5"])
  {
    LexToken(s, 2, 5);
    assert s[2..5] == [s[2], s[3], s[4]];
    assert [s[2..5]] + [] == ["0.5"];
    assert Lex(s, 2) == Ok(["0.5"]);
    LexCharacters(s, 0, 2, ["0.5"]);
    assert Characters(s, 0, 2) + ["0.5"] == ["5", "%", "0.5"];
  }

  /** A divisor of '%' strictly between -1 and 1 is an integer division by zero. */
  lemma FractionalModulo(s: string)
    requires s == "5%0.5"
    ensures EvalExpr(s) == Err(IntegerDivideByZero)
  {
    SpacelessUnchanged(s);
    FractionalModuloScan(s);
    FractionalModuloTokens(["5", "%", "0.5"]);
  }

  lemma MissingOperandTokens(t: seq<string>)
    requires t == ["2", "+"]
    ensures EvalTokens(t) == Err(UnexpectedEnd)
  {
    assert ValueOf("2") == 2.0;
    LiteralTerm(t, 0);
    AddSubStart(t, 0, MulDivMod(t, 0));
    MulDivModStart(t, 2, Factor(t, 2));
    AddSubLoopStep(t, 2.0, 1, MulDivMod(t, 2));
  }

  lemma MissingOperandScan(s: string)
    requires s == "2+"
    ensures Lex(s, 0) == Ok(["2", "+"])
  {
    LexCharacters(s, 0, 2, []);
    assert Characters(s, 0, 2) + [] == ["2", "+"];
  }

  /** An operator with nothing after it. */
  lemma MissingOperand(s: string)
    requires s == "2+"
    ensures EvalExpr(s) == Err(UnexpectedEnd)
  {
    SpacelessUnchanged(s);
    MissingOperandScan(s);
    MissingOperandTokens(["2", "+"]);
  }

  lemma LeadingOperatorTokens(t: seq<string>)
    requires t == ["*", "2", "+", "3"]
    ensures EvalTokens(t) == Err(InvalidToken("*"))
  {
    LeadingOperatorFails(t);
  }

  lemma LeadingOperatorScan(s: string)
    requires s == "*2+3"
    ensures Lex(s, 0) == Ok(["*", "2", "+", "3"])
  {
    LexCharacters(s, 0, 4, []);
    assert Characters(s, 0, 4) + [] == ["*", "2", "+", "3"];
  }

  /** An expression cannot start with '*'. */
  lemma LeadingOperator(s: string)
    requires s == "*2+3"
    ensures EvalExpr(s) == Err(InvalidToken("*"))
  {
    SpacelessUnchanged(s);
    LeadingOperatorScan(s);
    LeadingOperatorTokens(["*", "2", "+", "3"]);
  }

  lemma DoubledOperatorTokens(t: seq<string>)
    requires t == ["2", "+", "+", "3"]
    ensures EvalTokens(t) == Err(InvalidToken("+"))
  {
    assert ValueOf("2") == 2.0;
    LiteralTerm(t, 0);
    AddSubStart(t, 0, MulDivMod(t, 0));
    assert !IsNumber(t[2]);
    FactorNumber(t, 2);
    MulDivModStart(t, 2, Factor(t, 2));
    AddSubLoopStep(t, 2.0, 1, MulDivMod(t, 2));
  }

  lemma DoubledOperatorScan(s: string)
    requires s == "2++3"
    ensures Lex(s, 0) == Ok(["2", "+", "+", "3"])
  {
    LexCharacters(s, 0, 4, []);
    assert Characters(s, 0, 4) + [] == ["2", "+", "+", "3"];
  }

  /** A second '+' is not a factor. */
  lemma DoubledOperator(s: string)
    requires s == "2++3"
    ensures EvalExpr(s) == Err(InvalidToken("+"))
  {
    SpacelessUnchanged(s);
    DoubledOperatorScan(s);
    DoubledOperatorTokens(["2", "+", "+", "3"]);
  }

  lemma StrayClosingTokens(t: seq<string>)
    requires t == ["2", "+", "3", ")"]
    ensures EvalTokens(t) == Err(UnexpectedToken(")"))
  {
    assert ValueOf("2") == 2.0 && ValueOf("3") == 3.0;
    LiteralSum(t, 0);
  }

  lemma StrayClosingScan(s: string)
    requires s == "2+3)"
    ensures Lex(s, 0) == Ok(["2", "+", "3", ")"])
  {
    LexCharacters(s, 0, 4, []);
    assert Characters(s, 0, 4) + [] == ["2", "+", "3", ")"];
  }

  /** A ')' without '(' is left over. */
  lemma StrayClosing(s: string)
    requires s == "2+3)"
    ensures EvalExpr(s) == Err(UnexpectedToken(")"))
  {
    SpacelessUnchanged(s);
    StrayClosingScan(s);
    StrayClosingTokens(["2", "+", "3", ")"]);
  }

  lemma UnclosedGroupTokens(t: seq<string>)
    requires t == ["(", "2", "+", "3"]
    ensures EvalTokens(t) == Err(UnmatchedParenthesis)
  {
    assert ValueOf("2") == 2.0 && ValueOf("3") == 3.0;
    LiteralSum(t, 1);
    FactorParenthesis(t, 0, Expr(t, 1));
    MulDivModStart(t, 0, Factor(t, 0));
    AddSubStart(t, 0, MulDivMod(t, 0));
  }

  lemma UnclosedGroupScan(s: string)
    requires s == "(2+3"
    ensures Lex(s, 0) == Ok(["(", "2", "+", "3"])
  {
    LexCharacters(s, 0, 4, []);
    assert Characters(s, 0, 4) + [] == ["(", "2", "+", "3"];
  }

  /** A '(' without ')'. */
  lemma UnclosedGroup(s: string)
    requires s == "(2+3"
    ensures EvalExpr(s) == Err(UnmatchedParenthesis)
  {
    SpacelessUnchanged(s);
    UnclosedGroupScan(s);
    UnclosedGroupTokens(["(", "2", "+", "3"]);
  }

  /** Letters are not part of the language. */
  lemma Letters(s: string)
    requires s == "2+abc"
    ensures EvalExpr(s) == Err(InvalidCharacter('a'))
  {
    SpacelessUnchanged(s);
    LexIllegal(s, 2);
    LexToken(s, 1, 2);
    LexToken(s, 0, 1);
    assert Lex(s, 0) == Err(InvalidCharacter(s[2]));
  }

  /** Only ' ' is removed: a tab is an invalid character. */
  lemma TabIsNotStripped(s: string)
    requires s == "2\t+3"
    ensures EvalExpr(s) == Err(InvalidCharacter('\t'))
  {
    SpacelessUnchanged(s);
    LexIllegal(s, 1);
    LexToken(s, 0, 1);
    assert Lex(s, 0) == Err(InvalidCharacter(s[1]));
  }

  lemma TwoDotsTokens(t: seq<string>)
    requires t == ["1..2"]
    ensures EvalTokens(t) == Err(InvalidNumber("1..2"))
  {
    assert !WellFormedDecimal(t[0]) by {
      assert t[0][1] == '.' && t[0][2] == '.';
    }
    FactorNumber(t, 0);
    MulDivModStart(t, 0, Factor(t, 0));
    AddSubStart(t, 0, MulDivMod(t, 0));
  }

  lemma TwoDotsScan(s: string)
    requires s == "1..2"
    ensures Lex(s, 0) == Ok(["1..2"])
  {
    LexToken(s, 0, 4);
    assert s[0..4] == [s[0], s[1], s[2], s[3]];
    assert [s[0..4]] + [] == ["1..2"];
  }

  /** A number token with two dots is refused by ParseFloat. */
  lemma TwoDots(s: string)
    requires s == "1..2"
    ensures EvalExpr(s) == Err(InvalidNumber("1..2"))
  {
    SpacelessUnchanged(s);
    TwoDotsScan(s);
    TwoDotsTokens(["1..2"]);
  }

  /** The empty expression. */
  lemma Empty(s: string)
    requires s == ""
    ensures EvalExpr(s) == Err(EmptyExpression)
  {
  }
}
