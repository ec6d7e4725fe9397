/** What the grammar guarantees about every successful parse, and the
    evaluation policies of the operators, stated for all inputs. */
module Properties {
  import opened Common
  import opened Numbers
  import opened Tokenizer
  import opened Parser
  import opened Evaluator
  import opened Precedence

  /** As many '(' tokens as ')' tokens in t[i..j]. */
  predicate Balanced(t: seq<string>, i: nat, j: nat)
    requires i <= j <= |t|
  {
    multiset(t[i..j])["("] == multiset(t[i..j])[")"]
  }

  /** A token an operand can start with. */
  predicate StartsOperand(tok: string) {
    IsSymbol(tok, '(') || IsSymbol(tok, '-') || IsNumber(tok)
  }

  /** A token an operand can end with. */
  predicate EndsOperand(tok: string) {
    IsSymbol(tok, ')') || IsNumber(tok)
  }

  /** The tokens t[i..j] a successful parse consumed: balanced parentheses,
      starting and ending like an operand. */
  predicate Operand(t: seq<string>, i: nat, j: nat)
    requires i < j <= |t|
  {
    Balanced(t, i, j) && StartsOperand(t[i]) && EndsOperand(t[j - 1])
  }

  /** t[i..k] is balanced and, unless empty, ends like an operand: what a
      parsing loop consumes after its first operand. */
  predicate ClosedRun(t: seq<string>, i: nat, k: nat) {
    i <= k <= |t| && Balanced(t, i, k) && (k > i ==> EndsOperand(t[k - 1]))
  }

  lemma BalancedJoin(t: seq<string>, i: nat, j: nat, k: nat)
    requires i <= j <= k <= |t|
    requires Balanced(t, i, j) && Balanced(t, j, k)
    ensures Balanced(t, i, k)
  {
    assert t[i..k] == t[i..j] + t[j..k];
  }

  /** A token that is neither parenthesis is balanced on its own. */
  lemma BalancedToken(t: seq<string>, i: nat)
    requires i < |t|
    requires t[i] != "(" && t[i] != ")"
    ensures Balanced(t, i, i + 1)
  {
    assert t[i..i + 1] == [t[i]];
  }

  lemma SymbolIsNotParenthesis(tok: string, c: char)
    requires IsSymbol(tok, c) && c != '(' && c != ')'
    ensures tok != "(" && tok != ")"
  {
    assert tok[0] == c;
  }

  /** An operator token, an operand and a balanced, operand-ending rest:
      one more turn of a parsing loop. */
  lemma OperatorThenOperand(t: seq<string>, i: nat, j: nat, k: nat, c: char)
    requires i + 1 < j <= k <= |t|
    requires IsSymbol(t[i], c) && c != '(' && c != ')'
    requires Operand(t, i + 1, j)
    requires ClosedRun(t, j, k)
    ensures ClosedRun(t, i, k) && k > i
  {
    SymbolIsNotParenthesis(t[i], c);
    BalancedToken(t, i);
    BalancedJoin(t, i, i + 1, j);
    BalancedJoin(t, i, j, k);
  }

  /** An operand followed by a balanced, operand-ending rest is an operand. */
  lemma OperandThenOperators(t: seq<string>, i: nat, j: nat, k: nat)
    requires i < j <= |t|
    requires Operand(t, i, j)
    requires ClosedRun(t, j, k)
    ensures Operand(t, i, k)
  {
    BalancedJoin(t, i, j, k);
  }

  /** '(' operand ')' is an operand. */
  lemma ParenthesisedOperand(t: seq<string>, i: nat, j: nat)
    requires i + 1 < j < |t|
    requires IsSymbol(t[i], '(') && IsSymbol(t[j], ')')
    requires Operand(t, i + 1, j)
    ensures Operand(t, i, j + 1)
  {
    assert t[i..j + 1] == [t[i]] + t[i + 1..j] + [t[j]];
    assert t[i] == "(" && t[j] == ")" by {
      assert t[i] == [t[i][0]] && t[j] == [t[j][0]];
    }
  }

  /** '-' operand is an operand. */
  lemma NegatedOperand(t: seq<string>, i: nat, j: nat)
    requires i + 1 < j <= |t|
    requires IsSymbol(t[i], '-')
    requires Operand(t, i + 1, j)
    ensures Operand(t, i, j)
  {
    SymbolIsNotParenthesis(t[i], '-');
    BalancedToken(t, i);
    BalancedJoin(t, i, i + 1, j);
  }

  /** A number token is an operand. */
  lemma NumberOperand(t: seq<string>, i: nat)
    requires i < |t| && IsNumber(t[i])
    ensures Operand(t, i, i + 1)
  {
    assert t[i] != "(" && t[i] != ")" by {
      assert !IsNumber("(") && !IsNumber(")");
    }
    BalancedToken(t, i);
  }

  /** Every successful `parseExpr` consumes an operand. */
  lemma {:induction false} ExprConsumesOperand(t: seq<string>, i: nat)
    requires Expr(t, i).Ok?
    ensures Operand(t, i, Expr(t, i).value.next)
    decreases |t| - i, 5
  {
    AddSubConsumesOperand(t, i);
  }

  lemma {:induction false} AddSubConsumesOperand(t: seq<string>, i: nat)
    requires AddSub(t, i).Ok?
    ensures Operand(t, i, AddSub(t, i).value.next)
    decreases |t| - i, 4
  {
    var first := MulDivMod(t, i);
    AddSubStart(t, i, first);
    MulDivModConsumesOperand(t, i);
    var j := first.value.next;
    AddSubLoopConsumesOperators(t, first.value.value, j);
    OperandThenOperators(t, i, j, AddSubLoop(t, first.value.value, j).value.next);
  }

  /** The loop of `parseAddSub` consumes balanced tokens and, when it
      consumes any, stops after an operand. */
  lemma {:induction false} AddSubLoopConsumesOperators(t: seq<string>, acc: real, i: nat)
    requires i <= |t|
    requires AddSubLoop(t, acc, i).Ok?
    ensures ClosedRun(t, i, AddSubLoop(t, acc, i).value.next)
    decreases |t| - i, 3
  {
    if i < |t| && (IsSymbol(t[i], '+') || IsSymbol(t[i], '-')) {
      var right := MulDivMod(t, i + 1);
      AddSubLoopStep(t, acc, i, right);
      MulDivModConsumesOperand(t, i + 1);
      var j := right.value.next;
      var acc' := if IsSymbol(t[i], '+') then acc + right.value.value else acc - right.value.value;
      AddSubLoopConsumesOperators(t, acc', j);
      OperatorThenOperand(t, i, j, AddSubLoop(t, acc', j).value.next, t[i][0]);
    } else {
      AddSubLoopStop(t, acc, i);
    }
  }

  lemma {:induction false} MulDivModConsumesOperand(t: seq<string>, i: nat)
    requires MulDivMod(t, i).Ok?
    ensures Operand(t, i, MulDivMod(t, i).value.next)
    decreases |t| - i, 2
  {
    var first := Factor(t, i);
    MulDivModStart(t, i, first);
    FactorConsumesOperand(t, i);
    var j := first.value.next;
    MulDivModLoopConsumesOperators(t, first.value.value, j);
    OperandThenOperators(t, i, j, MulDivModLoop(t, first.value.value, j).value.next);
  }

  /** The loop of `parseMulDivMod` consumes balanced tokens and, when it
      consumes any, stops after an operand. */
  lemma {:induction false} MulDivModLoopConsumesOperators(t: seq<string>, acc: real, i: nat)
    requires i <= |t|
    requires MulDivModLoop(t, acc, i).Ok?
    ensures ClosedRun(t, i, MulDivModLoop(t, acc, i).value.next)
    decreases |t| - i, 1
  {
    if i < |t| && (IsSymbol(t[i], '*') || IsSymbol(t[i], '/') || IsSymbol(t[i], '%')) {
      var right := Factor(t, i + 1);
      MulDivModLoopStep(t, acc, i, right);
      FactorConsumesOperand(t, i + 1);
      var j := right.value.next;
      var acc' := ApplyMulOp(t[i], acc, right.value.value).value;
      MulDivModLoopConsumesOperators(t, acc', j);
      OperatorThenOperand(t, i, j, MulDivModLoop(t, acc', j).value.next, t[i][0]);
    } else {
      MulDivModLoopStop(t, acc, i);
    }
  }

  lemma {:induction false} FactorConsumesOperand(t: seq<string>, i: nat)
    requires Factor(t, i).Ok?
    ensures Operand(t, i, Factor(t, i).value.next)
    decreases |t| - i, 0
  {
    if IsSymbol(t[i], '(') {
      var inner := Expr(t, i + 1);
      FactorParenthesis(t, i, inner);
      ExprConsumesOperand(t, i + 1);
      ParenthesisedOperand(t, i, inner.value.next);
      assert Factor(t, i).value.next == inner.value.next + 1;
    } else if IsSymbol(t[i], '-') && i + 1 < |t| && (IsNumber(t[i + 1]) || IsSymbol(t[i + 1], '(')) {
      var operand := Factor(t, i + 1);
      FactorNegation(t, i, operand);
      FactorConsumesOperand(t, i + 1);
      NegatedOperand(t, i, operand.value.next);
      assert Factor(t, i).value.next == operand.value.next;
    } else {
      FactorNumber(t, i);
      NumberOperand(t, i);
      assert Factor(t, i).value.next == i + 1;
    }
  }

  /** A factor that starts with '(' and succeeds is a group: a non-empty
      inner expression with the group's value, then the matching ')', with
      balanced parentheses in between. */
  lemma GroupFactor(t: seq<string>, i: nat)
    requires i < |t| && IsSymbol(t[i], '(') && Factor(t, i).Ok?
    ensures var n := Factor(t, i).value.next;
      i + 2 < n && IsSymbol(t[n - 1], ')') && Balanced(t, i + 1, n - 1) &&
      Expr(t, i + 1) == Ok(Parsed(Factor(t, i).value.value, n - 1))
  {
    var inner := Expr(t, i + 1);
    FactorParenthesis(t, i, inner);
    ExprConsumesOperand(t, i + 1);
  }

  /** A token list evaluates only if its parentheses balance and it starts
      and ends like an operand: "(2+3", "2+" and "*2+3" cannot. */
  lemma EvaluatedTokensFormOperand(t: seq<string>)
    requires EvalTokens(t).Ok?
    ensures |t| > 0 && Operand(t, 0, |t|)
  {
    ExprConsumesOperand(t, 0);
  }

  /** An expression string evaluates only if it holds as many '(' as ')'. */
  lemma EvaluatedExpressionIsBalanced(expr: string)
    requires EvalExpr(expr).Ok?
    ensures multiset(expr)['('] == multiset(expr)[')']
  {
    var s := StripSpaces(expr);
    var t := Lex(s, 0).value;
    EvaluatedTokensFormOperand(t);
    assert t[0..|t|] == t;
    LexTokensSpellInput(s, 0);
    assert s[0..] == s;
    ParenthesesSurviveLexing(t);
  }

  /** Spaces do not matter: an expression evaluates as it does with its
      spaces removed. */
  lemma SpacesAreIgnored(expr: string)
    ensures EvalExpr(expr) == EvalExpr(StripSpaces(expr))
  {
    StripSpacesIdempotent(expr);
    var s := StripSpaces(expr);
    assert Lex(StripSpaces(s), 0) == Lex(s, 0);
  }

  /** Round trip: an integer written out in decimal evaluates back to
      itself, as the bare number it is. */
  lemma FormattedIntegerEvaluates(n: int)
    ensures Lex(StripSpaces(FormatInt(n)), 0) == Ok([FormatInt(n)])
    ensures EvalExpr(FormatInt(n)) == Ok(n as real)
  {
    ParseFormatInt(n);
    FormatIntIsOneToken(n);
    OneLiteralEvaluates(FormatInt(n));
  }

  /** The decimal form of an integer is read as a single token. */
  lemma FormatIntIsOneToken(n: int)
    ensures Lex(StripSpaces(FormatInt(n)), 0) == Ok([FormatInt(n)])
  {
    var s := FormatInt(n);
    ParseFormatInt(n);
    assert forall k :: 0 <= k < |s| ==> Glued(s, k);
    SpacelessUnchanged(s);
    LexWholeRun(s);
  }

  /** A single number token that ParseFloat accepts evaluates to its
      value. */
  lemma OneLiteralEvaluates(s: string)
    requires Literal(s)
    ensures EvalTokens([s]) == Ok(ValueOf(s))
  {
    var t := [s];
    LiteralFactor(t, 0);
    FactorIsTerm(t, 0);
    TermIsExpr(t, 0);
  }
}
