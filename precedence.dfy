/** How the parser combines operands: operators of one precedence level
    fold strictly left to right into the running value, '*', '/' and '%'
    bind tighter than '+' and '-', a zero right operand of '/' or '%'
    leaves the left operand as it is, and '%' works on truncated operands.

    The reference for the folding is `FoldLeft`, defined independently of
    the parser over a list of operators and a list of values; a chain of
    number tokens joined by operators of one level is shown to evaluate to
    it. */
module Precedence {
  import opened Common
  import opened Numbers
  import opened Parser
  import opened Evaluator

  /** A number token that ParseFloat accepts. */
  predicate Literal(tok: string) {
    IsNumber(tok) && ParseNumber(tok).Some?
  }

  /** The value of a literal token. */
  function ValueOf(tok: string): real
    requires Literal(tok)
  {
    ParseNumber(tok).value
  }

  predicate AllLiterals(ts: seq<string>) {
    forall k :: 0 <= k < |ts| ==> Literal(ts[k])
  }

  /** The values of a list of literal tokens, in order. */
  function Values(ts: seq<string>): (vs: seq<real>)
    requires AllLiterals(ts)
    ensures |vs| == |ts|
    ensures forall k :: 0 <= k < |ts| ==> vs[k] == ValueOf(ts[k])
  {
    seq(|ts|, k requires 0 <= k < |ts| && AllLiterals(ts) => ValueOf(ts[k]))
  }

  /** The operators a fold knows: '+', '-', '*', '/' and '%'. */
  predicate FoldOp(op: char) {
    op == '+' || op == '-' || op == '*' || op == '/' || op == '%'
  }

  /** Whether op can take x as its right operand: a '%' whose non-zero
      operand truncates to 0 is an integer division by zero, which panics
      in Go. */
  predicate Defined(op: char, x: real) {
    op == '%' ==> x == 0.0 || Trunc(x) != 0
  }

  /** One operator applied to the running value; '/' and '%' by zero keep
      it, and '%' takes the truncating remainder of the truncated
      operands. */
  function Combine(op: char, acc: real, x: real): (r: real)
    requires FoldOp(op) && Defined(op, x)
    ensures x == 0.0 && op != '*' ==> r == acc
    ensures op == '-' ==> r + x == acc
    ensures op == '/' && x != 0.0 ==> r * x == acc
    ensures op == '%' && x != 0.0 ==> r == r.Floor as real && Abs(r.Floor) < Abs(Trunc(x))
    ensures op == '%' && x != 0.0 && Trunc(acc) >= 0 ==> r >= 0.0
    ensures op == '%' && x != 0.0 && Trunc(acc) <= 0 ==> r <= 0.0
  {
    if op == '+' then acc + x
    else if op == '-' then acc - x
    else if op == '*' then acc * x
    else if x == 0.0 then acc
    else if op == '/' then acc / x
    else TruncRem(Trunc(acc), Trunc(x)) as real
  }

  predicate AllOps(ops: seq<char>, additive: bool) {
    forall k :: 0 <= k < |ops| ==>
      if additive then ops[k] == '+' || ops[k] == '-'
      else ops[k] == '*' || ops[k] == '/' || ops[k] == '%'
  }

  /** Every operator of the list can take the value beside it. */
  predicate Foldable(ops: seq<char>, xs: seq<real>) {
    |ops| == |xs| && forall k :: 0 <= k < |ops| ==> FoldOp(ops[k]) && Defined(ops[k], xs[k])
  }

  /** ((x0 op[0] xs[0]) op[1] xs[1]) ...: the last operator is applied
      last. */
  function FoldLeft(x0: real, ops: seq<char>, xs: seq<real>): real
    requires Foldable(ops, xs)
  {
    if |ops| == 0 then x0
    else
      var n := |ops| - 1;
      Combine(ops[n], FoldLeft(x0, ops[..n], xs[..n]), xs[n])
  }

  /** Folding the first operator into the start value and then the rest
      is the same left fold. */
  lemma {:induction false} FoldLeftFirst(x0: real, ops: seq<char>, xs: seq<real>)
    requires 0 < |ops| && Foldable(ops, xs)
    ensures FoldLeft(Combine(ops[0], x0, xs[0]), ops[1..], xs[1..]) == FoldLeft(x0, ops, xs)
    decreases |ops|
  {
    var n := |ops| - 1;
    if n > 0 {
      FoldLeftFirst(x0, ops[..n], xs[..n]);
      assert ops[1..][..n - 1] == ops[..n][1..];
      assert xs[1..][..n - 1] == xs[..n][1..];
    }
  }

  /** One step of `parseMulDivMod` that does not panic is one step of the
      fold. */
  lemma ApplyMulOpCombines(op: string, acc: real, x: real)
    requires IsSymbol(op, '*') || IsSymbol(op, '/') || IsSymbol(op, '%')
    requires Defined(op[0], x)
    ensures ApplyMulOp(op, acc, x) == Ok(Combine(op[0], acc, x))
  {
  }

  /** The tokens op[0] ts[0] op[1] ts[1] ... that follow the first operand
      of a chain. */
  function OperatorTail(ops: seq<char>, ts: seq<string>): (r: seq<string>)
    requires |ops| == |ts|
    ensures |r| == 2 * |ops|
  {
    if |ops| == 0 then [] else [[ops[0]], ts[0]] + OperatorTail(ops[1..], ts[1..])
  }

  /** The first operator and operand of a tail, and the tail after them. */
  lemma OperatorTailFirst(t: seq<string>, i: nat, ops: seq<char>, ts: seq<string>)
    requires 0 < |ops| == |ts|
    requires i <= |t| && t[i..] == OperatorTail(ops, ts)
    ensures i + 2 <= |t| && t[i] == [ops[0]] && t[i + 1] == ts[0]
    ensures t[i + 2..] == OperatorTail(ops[1..], ts[1..])
    ensures |ops| > 1 ==> t[i + 2] == [ops[1]]
  {
    assert t[i..] == [[ops[0]], ts[0]] + OperatorTail(ops[1..], ts[1..]);
    assert t[i] == t[i..][0] && t[i + 1] == t[i..][1] && t[i + 2..] == t[i..][2..];
  }

  /** A number token is a factor of its own. */
  lemma LiteralFactor(t: seq<string>, i: nat)
    requires i < |t| && Literal(t[i])
    ensures Factor(t, i) == Ok(Parsed(ValueOf(t[i]), i + 1))
  {
    assert t[i][0] == '-' || IsDigitOrDot(t[i][0]);
    FactorNumber(t, i);
  }

  /** The `parseMulDivMod` loop stops at j: the tokens end there or the
      token there is not '*', '/' or '%'. */
  predicate EndsTerm(t: seq<string>, j: nat) {
    j >= |t| || !(IsSymbol(t[j], '*') || IsSymbol(t[j], '/') || IsSymbol(t[j], '%'))
  }

  /** Both loops stop at j. */
  predicate EndsSum(t: seq<string>, j: nat) {
    EndsTerm(t, j) && (j >= |t| || !(IsSymbol(t[j], '+') || IsSymbol(t[j], '-')))
  }

  /** A factor not followed by '*', '/' or '%' is a term of its own. */
  lemma FactorIsTerm(t: seq<string>, i: nat)
    requires Factor(t, i).Ok? && EndsTerm(t, Factor(t, i).value.next)
    ensures MulDivMod(t, i) == Factor(t, i)
  {
    var f := Factor(t, i);
    MulDivModStart(t, i, f);
    MulDivModLoopStop(t, f.value.value, f.value.next);
  }

  /** A term not followed by '+' or '-' is an expression of its own. */
  lemma TermIsExpr(t: seq<string>, i: nat)
    requires MulDivMod(t, i).Ok?
    requires var j := MulDivMod(t, i).value.next; j >= |t| || !(IsSymbol(t[j], '+') || IsSymbol(t[j], '-'))
    ensures Expr(t, i) == MulDivMod(t, i)
  {
    var m := MulDivMod(t, i);
    AddSubStart(t, i, m);
    AddSubLoopStop(t, m.value.value, m.value.next);
  }

  /** A number token not followed by '*', '/' or '%' is a term of its own. */
  lemma LiteralTerm(t: seq<string>, i: nat)
    requires i < |t| && Literal(t[i])
    requires EndsTerm(t, i + 1)
    ensures MulDivMod(t, i) == Ok(Parsed(ValueOf(t[i]), i + 1))
  {
    LiteralFactor(t, i);
    MulDivModStart(t, i, Factor(t, i));
    MulDivModLoopStop(t, ValueOf(t[i]), i + 1);
  }

  /** One turn of the `parseAddSub` loop over '+' or '-' and a number
      token. */
  lemma AddSubLoopLiteral(t: seq<string>, acc: real, i: nat)
    requires i + 1 < |t| && (IsSymbol(t[i], '+') || IsSymbol(t[i], '-')) && Literal(t[i + 1])
    requires EndsTerm(t, i + 2)
    ensures AddSubLoop(t, acc, i) == AddSubLoop(t, Combine(t[i][0], acc, ValueOf(t[i + 1])), i + 2)
  {
    LiteralTerm(t, i + 1);
    AddSubLoopTerm(t, acc, i);
  }

  /** One turn of the `parseAddSub` loop over '+' or '-' and a term that
      parses. */
  lemma AddSubLoopTerm(t: seq<string>, acc: real, i: nat)
    requires i + 1 < |t| && (IsSymbol(t[i], '+') || IsSymbol(t[i], '-'))
    requires MulDivMod(t, i + 1).Ok?
    ensures var right := MulDivMod(t, i + 1).value;
      AddSubLoop(t, acc, i) == AddSubLoop(t, Combine(t[i][0], acc, right.value), right.next)
  {
    var right := MulDivMod(t, i + 1);
    var v := right.value.value;
    var acc' := if IsSymbol(t[i], '+') then acc + v else acc - v;
    AddSubLoopTurn(t, acc, i, i + 1, right, acc');
    assert Combine(t[i][0], acc, v) == acc';
  }

  /** t[i..] is the tail `op[0] ts[0] op[1] ts[1] ...` of a chain of number
      tokens whose operators are all of one precedence level (`additive` or
      not) and can each take the value after them. */
  predicate Chain(t: seq<string>, i: nat, ops: seq<char>, ts: seq<string>, additive: bool) {
    |ops| == |ts| && AllOps(ops, additive) && AllLiterals(ts) && Foldable(ops, Values(ts)) &&
    i <= |t| && t[i..] == OperatorTail(ops, ts)
  }

  /** The first operator and number of a chain, the chain after them, and
      the fold over the chain as the fold over the rest from the first
      value combined in. */
  lemma ChainFirst(t: seq<string>, i: nat, ops: seq<char>, ts: seq<string>, additive: bool, acc: real)
    requires Chain(t, i, ops, ts, additive) && 0 < |ops|
    ensures Chain(t, i + 2, ops[1..], ts[1..], additive)
    ensures t[i] == [ops[0]] && t[i + 1] == ts[0] && Literal(ts[0]) && Defined(ops[0], ValueOf(ts[0]))
    ensures additive ==> (ops[0] == '+' || ops[0] == '-') && EndsTerm(t, i + 2)
    ensures !additive ==> ops[0] == '*' || ops[0] == '/' || ops[0] == '%'
    ensures FoldLeft(Combine(ops[0], acc, ValueOf(ts[0])), ops[1..], Values(ts[1..])) ==
      FoldLeft(acc, ops, Values(ts))
  {
    OperatorTailFirst(t, i, ops, ts);
    ValuesRest(ops, ts);
    assert AllOps(ops[1..], additive) by {
      forall k | 0 <= k < |ops| - 1 ensures ops[1..][k] == ops[k + 1] {
      }
    }
    assert |t| == i + 2 * |ops|;
    FoldLeftFirst(acc, ops, Values(ts));
  }

  /** The values after the first of a foldable list. */
  lemma ValuesRest(ops: seq<char>, ts: seq<string>)
    requires 0 < |ops| && AllLiterals(ts) && Foldable(ops, Values(ts))
    ensures AllLiterals(ts[1..]) && Values(ts[1..]) == Values(ts)[1..]
    ensures Foldable(ops[1..], Values(ts[1..]))
    ensures Values(ts)[0] == ValueOf(ts[0]) && Defined(ops[0], ValueOf(ts[0]))
  {
    assert AllLiterals(ts[1..]) by {
      forall k | 0 <= k < |ts| - 1 ensures Literal(ts[1..][k]) {
        assert ts[1..][k] == ts[k + 1];
      }
    }
    assert Values(ts[1..]) == Values(ts)[1..];
  }

  /** '+' and '-' take any right operand. */
  lemma AdditiveFoldable(ops: seq<char>, xs: seq<real>)
    requires |ops| == |xs| && AllOps(ops, true)
    ensures Foldable(ops, xs)
  {
    forall k | 0 <= k < |ops| ensures FoldOp(ops[k]) && Defined(ops[k], xs[k]) {
      assert ops[k] == '+' || ops[k] == '-';
    }
  }

  /** The `parseAddSub` loop over a chain of '+' and '-' and number tokens
      that reaches the end of the tokens folds them left to right. */
  lemma {:induction false} AddSubLoopFolds(t: seq<string>, acc: real, i: nat, ops: seq<char>, ts: seq<string>)
    requires Chain(t, i, ops, ts, true)
    ensures AddSubLoop(t, acc, i) == Ok(Parsed(FoldLeft(acc, ops, Values(ts)), |t|))
    decreases |ops|
  {
    if |ops| == 0 {
      AddSubLoopStop(t, acc, i);
    } else {
      ChainFirst(t, i, ops, ts, true, acc);
      AddSubLoopLiteral(t, acc, i);
      AddSubLoopFolds(t, Combine(ops[0], acc, ValueOf(ts[0])), i + 2, ops[1..], ts[1..]);
    }
  }

  /** The `parseMulDivMod` loop over a chain of '*', '/' and '%' and number
      tokens that reaches the end of the tokens folds them left to right,
      when no '%' meets a fractional operand. */
  lemma {:induction false} MulDivModLoopFolds(t: seq<string>, acc: real, i: nat, ops: seq<char>, ts: seq<string>)
    requires Chain(t, i, ops, ts, false)
    ensures MulDivModLoop(t, acc, i) == Ok(Parsed(FoldLeft(acc, ops, Values(ts)), |t|))
    decreases |ops|
  {
    if |ops| == 0 {
      MulDivModLoopStop(t, acc, i);
    } else {
      ChainFirst(t, i, ops, ts, false, acc);
      LiteralFactor(t, i + 1);
      MulDivModLoopStep(t, acc, i, Factor(t, i + 1));
      ApplyMulOpCombines(t[i], acc, ValueOf(ts[0]));
      MulDivModLoopFolds(t, Combine(ops[0], acc, ValueOf(ts[0])), i + 2, ops[1..], ts[1..]);
    }
  }

  /** A sum chain `a0 op[0] ts[0] op[1] ts[1] ...` of number tokens and
      '+'/'-' evaluates to the left fold of its values: "8-2-1" is
      (8-2)-1. */
  lemma SumFoldsLeft(a0: string, ops: seq<char>, ts: seq<string>)
    requires Literal(a0) && |ops| == |ts| && AllOps(ops, true) && AllLiterals(ts)
    ensures EvalTokens([a0] + OperatorTail(ops, ts)) == Ok(FoldLeft(ValueOf(a0), ops, Values(ts)))
  {
    var t := [a0] + OperatorTail(ops, ts);
    assert t[0] == a0 && t[1..] == OperatorTail(ops, ts);
    if |ops| > 0 {
      assert t[1] == [ops[0]];
    }
    LiteralTerm(t, 0);
    AddSubStart(t, 0, MulDivMod(t, 0));
    AdditiveFoldable(ops, Values(ts));
    AddSubLoopFolds(t, ValueOf(a0), 1, ops, ts);
  }

  /** A product chain of number tokens and '*', '/' and '%' evaluates to
      the left fold of its values: "8/2/2" is (8/2)/2, "7%4%2" is (7%4)%2,
      and a zero divisor is skipped. */
  lemma ProductFoldsLeft(a0: string, ops: seq<char>, ts: seq<string>)
    requires Literal(a0) && |ops| == |ts| && AllOps(ops, false) && AllLiterals(ts)
    requires Foldable(ops, Values(ts))
    ensures EvalTokens([a0] + OperatorTail(ops, ts)) == Ok(FoldLeft(ValueOf(a0), ops, Values(ts)))
  {
    var t := [a0] + OperatorTail(ops, ts);
    assert t[0] == a0 && t[1..] == OperatorTail(ops, ts);
    LiteralFactor(t, 0);
    MulDivModStart(t, 0, Factor(t, 0));
    MulDivModLoopFolds(t, ValueOf(a0), 1, ops, ts);
    var r := MulDivMod(t, 0);
    AddSubStart(t, 0, r);
    AddSubLoopStop(t, r.value.value, |t|);
  }

  /** A number token, '*', '/' or '%', and a number token, not followed by
      another '*', '/' or '%', form one term. */
  lemma LiteralProduct(t: seq<string>, i: nat)
    requires i + 2 < |t| && Literal(t[i]) && Literal(t[i + 2])
    requires IsSymbol(t[i + 1], '*') || IsSymbol(t[i + 1], '/') || IsSymbol(t[i + 1], '%')
    requires Defined(t[i + 1][0], ValueOf(t[i + 2]))
    requires EndsTerm(t, i + 3)
    ensures MulDivMod(t, i) == Ok(Parsed(Combine(t[i + 1][0], ValueOf(t[i]), ValueOf(t[i + 2])), i + 3))
  {
    LiteralFactor(t, i);
    LiteralFactor(t, i + 2);
    MulDivModStart(t, i, Factor(t, i));
    var x := Combine(t[i + 1][0], ValueOf(t[i]), ValueOf(t[i + 2]));
    ApplyMulOpCombines(t[i + 1], ValueOf(t[i]), ValueOf(t[i + 2]));
    MulDivModLoopStep(t, ValueOf(t[i]), i + 1, Factor(t, i + 2));
    MulDivModLoopStop(t, x, i + 3);
  }

  /** A number token, '+' or '-', and a number token, followed by the end
      or a token that is no operator, form one expression. */
  lemma LiteralSum(t: seq<string>, i: nat)
    requires i + 2 < |t| && Literal(t[i]) && Literal(t[i + 2])
    requires IsSymbol(t[i + 1], '+') || IsSymbol(t[i + 1], '-')
    requires EndsSum(t, i + 3)
    ensures Expr(t, i) == Ok(Parsed(Combine(t[i + 1][0], ValueOf(t[i]), ValueOf(t[i + 2])), i + 3))
  {
    LiteralTerm(t, i);
    AddSubStart(t, i, MulDivMod(t, i));
    AddSubLoopLiteral(t, ValueOf(t[i]), i + 1);
    AddSubLoopStop(t, Combine(t[i + 1][0], ValueOf(t[i]), ValueOf(t[i + 2])), i + 3);
  }

  /** Five tokens: number, '+' or '-', number, '*', '/' or '%', number. The
      product is one term, added to the first number. */
  lemma SumOfProduct(t: seq<string>)
    requires |t| == 5 && Literal(t[0]) && Literal(t[2]) && Literal(t[4])
    requires IsSymbol(t[1], '+') || IsSymbol(t[1], '-')
    requires IsSymbol(t[3], '*') || IsSymbol(t[3], '/') || IsSymbol(t[3], '%')
    requires Defined(t[3][0], ValueOf(t[4]))
    ensures Expr(t, 0) ==
      Ok(Parsed(Combine(t[1][0], ValueOf(t[0]), Combine(t[3][0], ValueOf(t[2]), ValueOf(t[4]))), 5))
  {
    LiteralTerm(t, 0);
    AddSubStart(t, 0, MulDivMod(t, 0));
    AddProduct(t, ValueOf(t[0]));
  }

  /** The `parseAddSub` loop at '+' or '-' followed by a product of two
      numbers that ends the tokens. */
  lemma AddProduct(t: seq<string>, acc: real)
    requires |t| == 5 && Literal(t[2]) && Literal(t[4])
    requires IsSymbol(t[1], '+') || IsSymbol(t[1], '-')
    requires IsSymbol(t[3], '*') || IsSymbol(t[3], '/') || IsSymbol(t[3], '%')
    requires Defined(t[3][0], ValueOf(t[4]))
    ensures AddSubLoop(t, acc, 1) ==
      Ok(Parsed(Combine(t[1][0], acc, Combine(t[3][0], ValueOf(t[2]), ValueOf(t[4]))), 5))
  {
    LiteralProduct(t, 2);
    AddSubLoopTerm(t, acc, 1);
    AddSubLoopStop(t, Combine(t[1][0], acc, Combine(t[3][0], ValueOf(t[2]), ValueOf(t[4]))), 5);
  }

  /** Five tokens: number, '*', '/' or '%', number, '+' or '-', number. The
      product is one term, and the last number is added to it. */
  lemma ProductThenSum(t: seq<string>)
    requires |t| == 5 && Literal(t[0]) && Literal(t[2]) && Literal(t[4])
    requires IsSymbol(t[1], '*') || IsSymbol(t[1], '/') || IsSymbol(t[1], '%')
    requires IsSymbol(t[3], '+') || IsSymbol(t[3], '-')
    requires Defined(t[1][0], ValueOf(t[2]))
    ensures Expr(t, 0) ==
      Ok(Parsed(Combine(t[3][0], Combine(t[1][0], ValueOf(t[0]), ValueOf(t[2])), ValueOf(t[4])), 5))
  {
    LiteralProduct(t, 0);
    var x := Combine(t[1][0], ValueOf(t[0]), ValueOf(t[2]));
    AddSubStart(t, 0, MulDivMod(t, 0));
    AddSubLoopLiteral(t, x, 3);
    AddSubLoopStop(t, Combine(t[3][0], x, ValueOf(t[4])), 5);
  }

  /** A '*', '/' or '%' after the second operand of '+' or '-' is applied
      first: "2+2*3" is 2+(2*3) and "1+7%4" is 1+(7%4). */
  lemma ProductBindsTighterOnRight(a: string, add: char, b: string, mul: char, c: string)
    requires Literal(a) && Literal(b) && Literal(c)
    requires (add == '+' || add == '-') && (mul == '*' || mul == '/' || mul == '%')
    requires Defined(mul, ValueOf(c))
    ensures EvalTokens([a, [add], b, [mul], c]) ==
      Ok(Combine(add, ValueOf(a), Combine(mul, ValueOf(b), ValueOf(c))))
  {
    var t := [a, [add], b, [mul], c];
    assert t[0] == a && t[1] == [add] && t[2] == b && t[3] == [mul] && t[4] == c;
    SumOfProduct(t);
  }

  /** A '*', '/' or '%' before '+' or '-' is applied first: "2*3+4" is
      (2*3)+4 and "7%4-1" is (7%4)-1. */
  lemma ProductBindsTighterOnLeft(a: string, mul: char, b: string, add: char, c: string)
    requires Literal(a) && Literal(b) && Literal(c)
    requires (add == '+' || add == '-') && (mul == '*' || mul == '/' || mul == '%')
    requires Defined(mul, ValueOf(b))
    ensures EvalTokens([a, [mul], b, [add], c]) ==
      Ok(Combine(add, Combine(mul, ValueOf(a), ValueOf(b)), ValueOf(c)))
  {
    var t := [a, [mul], b, [add], c];
    assert t[0] == a && t[1] == [mul] && t[2] == b && t[3] == [add] && t[4] == c;
    ProductThenSum(t);
  }

  /** A right operand of '/' or '%' that evaluates to 0 is skipped: the
      running value stays and the loop goes on after it, so "2/0" is 2 and
      "(2+3)/(2-2)" is 5. */
  lemma ZeroDivisorKeepsLeft(t: seq<string>, acc: real, i: nat)
    requires i < |t| && (IsSymbol(t[i], '/') || IsSymbol(t[i], '%'))
    requires Factor(t, i + 1).Ok? && Factor(t, i + 1).value.value == 0.0
    ensures MulDivModLoop(t, acc, i) == MulDivModLoop(t, acc, Factor(t, i + 1).value.next)
  {
    MulDivModLoopStep(t, acc, i, Factor(t, i + 1));
  }

  /** '%' truncates both operands toward zero and takes Go's remainder,
      whose sign follows the left operand: "7.9%2.5" is 7%2, "-7%2" is
      -1. */
  lemma ModuloTruncates(t: seq<string>, acc: real, i: nat)
    requires i < |t| && IsSymbol(t[i], '%')
    requires Factor(t, i + 1).Ok? && Trunc(Factor(t, i + 1).value.value) != 0
    ensures var y := Trunc(Factor(t, i + 1).value.value);
      MulDivModLoop(t, acc, i) == MulDivModLoop(t, TruncRem(Trunc(acc), y) as real, Factor(t, i + 1).value.next)
  {
    var right := Factor(t, i + 1);
    MulDivModLoopStep(t, acc, i, right);
    assert right.value.value != 0.0;
  }

  /** A non-zero right operand of '%' strictly between -1 and 1 passes the
      zero test on the float but truncates to the integer 0: the remainder
      is then an integer division by zero, which panics in Go. */
  lemma FractionalModuloPanics(t: seq<string>, acc: real, i: nat)
    requires i < |t| && IsSymbol(t[i], '%')
    requires Factor(t, i + 1).Ok?
    requires var y := Factor(t, i + 1).value.value; y != 0.0 && -1.0 < y < 1.0
    ensures MulDivModLoop(t, acc, i) == Err(IntegerDivideByZero)
  {
    var right := Factor(t, i + 1);
    MulDivModLoopStep(t, acc, i, right);
    assert Trunc(right.value.value) == 0;
  }

  /** An expression that starts with a binary operator other than '-', or
      with ')', fails on that token: "*2+3" cannot be evaluated. */
  lemma LeadingOperatorFails(t: seq<string>)
    requires 0 < |t|
    requires IsSymbol(t[0], '+') || IsSymbol(t[0], '*') || IsSymbol(t[0], '/') ||
      IsSymbol(t[0], '%') || IsSymbol(t[0], ')')
    ensures EvalTokens(t) == Err(InvalidToken(t[0]))
  {
    assert !IsNumber(t[0]);
    FactorNumber(t, 0);
    MulDivModStart(t, 0, Factor(t, 0));
    AddSubStart(t, 0, MulDivMod(t, 0));
  }

  /** A '-' token that is followed by neither a number nor '(' is not a
      factor: in "2*-+3" the '-' token fails. */
  lemma StrayMinusFails(t: seq<string>, i: nat)
    requires i < |t| && IsSymbol(t[i], '-')
    requires i + 1 == |t| || !(IsNumber(t[i + 1]) || IsSymbol(t[i + 1], '('))
    ensures Factor(t, i) == Err(InvalidToken(t[i]))
  {
    assert !IsNumber(t[i]);
    FactorNumber(t, i);
  }
}
