/** The recursive-descent parser and evaluator (`parseExpr`, `parseAddSub`,
    `parseMulDivMod`, `parseFactor`). Each rule takes the token list and a
    start index and returns the value it computed with the index of the
    first token it did not consume, or an error:

      Expr      := AddSub
      AddSub    := MulDivMod (('+' | '-') MulDivMod)*
      MulDivMod := Factor (('*' | '/' | '%') Factor)*
      Factor    := NUMBER | '(' Expr ')' | '-' Factor

    The rules are functions; the two `*` repetitions are the tail-recursive
    AddSubLoop and MulDivModLoop, which fold each operator into the running
    accumulator as soon as its right operand is parsed. The methods
    ParseAddSub and ParseMulDivMod are the source's while loops, proved to
    compute the same results. */
module Parser {
  import opened Common
  import opened Numbers

  /** A parsed value and the index of the first unconsumed token. */
  datatype Parsed = Parsed(value: real, next: nat)

  /** The token is the one-character string [c]. */
  predicate IsSymbol(tok: string, c: char)
  {
    |tok| == 1 && tok[0] == c
  }

  /** A successful parse from i consumed at least one token and stayed
      within the token list. */
  predicate Advances(r: Result<Parsed>, t: seq<string>, i: nat) {
    r.Ok? ==> i < r.value.next <= |t|
  }

  /** `parseExpr`. */
  function Expr(t: seq<string>, i: nat): (r: Result<Parsed>)
    ensures Advances(r, t, i)
    ensures r.Err? ==> !r.error.EmptyExpression?
    decreases |t| - i, 5
  {
    AddSub(t, i)
  }

  /** `parseAddSub`: one term, then the loop over '+' and '-'. */
  function AddSub(t: seq<string>, i: nat): (r: Result<Parsed>)
    ensures Advances(r, t, i)
    ensures r.Err? ==> !r.error.EmptyExpression?
    decreases |t| - i, 4
  {
    var first := MulDivMod(t, i);
    if first.Err? then first
    else AddSubLoop(t, first.value.value, first.value.next)
  }

  /** The loop of `parseAddSub` from index i with accumulator acc: while the
      next token is '+' or '-', parse a term and fold it in. */
  function AddSubLoop(t: seq<string>, acc: real, i: nat): (r: Result<Parsed>)
    requires i <= |t|
    ensures r.Ok? ==> i <= r.value.next <= |t|
    ensures r.Err? ==> !r.error.EmptyExpression?
    decreases |t| - i, 3
  {
    if i < |t| && (IsSymbol(t[i], '+') || IsSymbol(t[i], '-')) then
      var right := MulDivMod(t, i + 1);
      if right.Err? then right
      else
        var acc' := if IsSymbol(t[i], '+') then acc + right.value.value else acc - right.value.value;
        AddSubLoop(t, acc', right.value.next)
    else Ok(Parsed(acc, i))
  }

  /** `parseMulDivMod`: one factor, then the loop over '*', '/' and '%'. */
  function MulDivMod(t: seq<string>, i: nat): (r: Result<Parsed>)
    ensures Advances(r, t, i)
    ensures r.Err? ==> !r.error.EmptyExpression?
    decreases |t| - i, 2
  {
    var first := Factor(t, i);
    if first.Err? then first
    else MulDivModLoop(t, first.value.value, first.value.next)
  }

  /** One step of the `switch` in `parseMulDivMod`: combine the accumulator
      with the right operand of `op`. A zero right operand of '/' or '%'
      leaves the accumulator as it is; '%' works on both operands truncated
      toward zero, and a right operand that truncates to 0 without being 0
      is Go's integer division by zero. */
  function ApplyMulOp(op: string, acc: real, right: real): (r: Result<real>)
    requires IsSymbol(op, '*') || IsSymbol(op, '/') || IsSymbol(op, '%')
    ensures !IsSymbol(op, '*') && right == 0.0 ==> r == Ok(acc)
    ensures r.Err? <==> IsSymbol(op, '%') && right != 0.0 && Trunc(right) == 0
    ensures r.Err? ==> r.error == IntegerDivideByZero
  {
    if IsSymbol(op, '*') then Ok(acc * right)
    else if IsSymbol(op, '/') then
      if right == 0.0 then Ok(acc) else Ok(acc / right)
    else if right == 0.0 then Ok(acc)
    else if Trunc(right) == 0 then Err(IntegerDivideByZero)
    else Ok(TruncRem(Trunc(acc), Trunc(right)) as real)
  }

  /** The loop of `parseMulDivMod` from index i with accumulator acc. */
  function MulDivModLoop(t: seq<string>, acc: real, i: nat): (r: Result<Parsed>)
    requires i <= |t|
    ensures r.Ok? ==> i <= r.value.next <= |t|
    ensures r.Err? ==> !r.error.EmptyExpression?
    decreases |t| - i, 1
  {
    if i < |t| && (IsSymbol(t[i], '*') || IsSymbol(t[i], '/') || IsSymbol(t[i], '%')) then
      var right := Factor(t, i + 1);
      if right.Err? then right
      else
        match ApplyMulOp(t[i], acc, right.value.value)
        case Err(e) => Err(e)
        case Ok(acc') => MulDivModLoop(t, acc', right.value.next)
    else Ok(Parsed(acc, i))
  }

  /** `parseFactor`: a parenthesised expression, a '-' in front of a number
      or a '(', or a number. */
  function Factor(t: seq<string>, i: nat): (r: Result<Parsed>)
    ensures Advances(r, t, i)
    ensures i >= |t| ==> r == Err(UnexpectedEnd)
    ensures r.Err? ==> !r.error.EmptyExpression?
    decreases |t| - i, 0
  {
    if i >= |t| then Err(UnexpectedEnd)
    else if IsSymbol(t[i], '(') then
      var inner := Expr(t, i + 1);
      if inner.Err? then inner
      else if inner.value.next >= |t| || !IsSymbol(t[inner.value.next], ')') then Err(UnmatchedParenthesis)
      else Ok(Parsed(inner.value.value, inner.value.next + 1))
    else if IsSymbol(t[i], '-') && i + 1 < |t| && (IsNumber(t[i + 1]) || IsSymbol(t[i + 1], '(')) then
      var operand := Factor(t, i + 1);
      if operand.Err? then operand
      else Ok(Parsed(-operand.value.value, operand.value.next))
    else if IsNumber(t[i]) then
      match ParseNumber(t[i])
      case None => Err(InvalidNumber(t[i]))
      case Some(v) => Ok(Parsed(v, i + 1))
    else Err(InvalidToken(t[i]))
  }

  /** One turn of the `parseMulDivMod` loop, spelled out for the method:
      `right` is the factor after the operator at i. */
  lemma MulDivModLoopStep(t: seq<string>, acc: real, i: nat, right: Result<Parsed>)
    requires i < |t| && (IsSymbol(t[i], '*') || IsSymbol(t[i], '/') || IsSymbol(t[i], '%'))
    requires right == Factor(t, i + 1)
    ensures right.Err? ==> MulDivModLoop(t, acc, i) == right
    ensures right.Ok? && ApplyMulOp(t[i], acc, right.value.value).Err? ==>
      MulDivModLoop(t, acc, i) == Err(ApplyMulOp(t[i], acc, right.value.value).error)
    ensures right.Ok? && ApplyMulOp(t[i], acc, right.value.value).Ok? ==>
      MulDivModLoop(t, acc, i) ==
        MulDivModLoop(t, ApplyMulOp(t[i], acc, right.value.value).value, right.value.next)
  {
  }

  /** A turn of the `parseMulDivMod` loop that combines the factor `right`
      into the accumulator, stated with the new accumulator as a parameter. */
  lemma MulDivModLoopTurn(t: seq<string>, acc: real, i: nat, j: nat, right: Result<Parsed>, acc': real)
    requires i < |t| && (IsSymbol(t[i], '*') || IsSymbol(t[i], '/') || IsSymbol(t[i], '%'))
    requires j == i + 1 && right == Factor(t, j) && right.Ok?
    requires ApplyMulOp(t[i], acc, right.value.value) == Ok(acc')
    ensures MulDivModLoop(t, acc, i) == MulDivModLoop(t, acc', right.value.next)
  {
    MulDivModLoopStep(t, acc, i, right);
  }

  /** A turn of the `parseMulDivMod` loop that stops it with an error: the
      factor's, or the '%' panic. */
  lemma MulDivModLoopFails(t: seq<string>, acc: real, i: nat, j: nat, right: Result<Parsed>)
    requires i < |t| && (IsSymbol(t[i], '*') || IsSymbol(t[i], '/') || IsSymbol(t[i], '%'))
    requires j == i + 1 && right == Factor(t, j)
    requires right.Ok? ==> ApplyMulOp(t[i], acc, right.value.value).Err?
    ensures right.Err? ==> MulDivModLoop(t, acc, i) == right
    ensures right.Ok? ==> MulDivModLoop(t, acc, i) == Err(ApplyMulOp(t[i], acc, right.value.value).error)
  {
    MulDivModLoopStep(t, acc, i, right);
  }

  /** The first factor of `parseMulDivMod` and the state the loop starts in. */
  lemma MulDivModStart(t: seq<string>, i: nat, first: Result<Parsed>)
    requires first == Factor(t, i)
    ensures first.Err? ==> MulDivMod(t, i) == first
    ensures first.Ok? ==> MulDivMod(t, i) == MulDivModLoop(t, first.value.value, first.value.next)
  {
  }

  /** The `parseMulDivMod` loop stops at the end or at a token other than
      '*', '/' and '%'. */
  lemma MulDivModLoopStop(t: seq<string>, acc: real, i: nat)
    requires i <= |t|
    requires i == |t| || (!IsSymbol(t[i], '*') && !IsSymbol(t[i], '/') && !IsSymbol(t[i], '%'))
    ensures MulDivModLoop(t, acc, i) == Ok(Parsed(acc, i))
  {
  }

  /** `parseFactor` on '(': the inner expression, then a ')' is required. */
  lemma FactorParenthesis(t: seq<string>, i: nat, inner: Result<Parsed>)
    requires i < |t| && IsSymbol(t[i], '(')
    requires inner == Expr(t, i + 1)
    ensures inner.Err? ==> Factor(t, i) == inner
    ensures inner.Ok? && (inner.value.next >= |t| || !IsSymbol(t[inner.value.next], ')')) ==>
      Factor(t, i) == Err(UnmatchedParenthesis)
    ensures inner.Ok? && inner.value.next < |t| && IsSymbol(t[inner.value.next], ')') ==>
      Factor(t, i) == Ok(Parsed(inner.value.value, inner.value.next + 1))
  {
  }

  /** `parseFactor` on a '-' before a number or a '(': the negated factor. */
  lemma FactorNegation(t: seq<string>, i: nat, operand: Result<Parsed>)
    requires i + 1 < |t| && IsSymbol(t[i], '-') && (IsNumber(t[i + 1]) || IsSymbol(t[i + 1], '('))
    requires operand == Factor(t, i + 1)
    ensures operand.Err? ==> Factor(t, i) == operand
    ensures operand.Ok? ==> Factor(t, i) == Ok(Parsed(-operand.value.value, operand.value.next))
  {
  }

  /** `parseFactor` on anything else: a number token or an error. */
  lemma FactorNumber(t: seq<string>, i: nat)
    requires i < |t| && !IsSymbol(t[i], '(')
    requires !(IsSymbol(t[i], '-') && i + 1 < |t| && (IsNumber(t[i + 1]) || IsSymbol(t[i + 1], '(')))
    ensures !IsNumber(t[i]) ==> Factor(t, i) == Err(InvalidToken(t[i]))
    ensures IsNumber(t[i]) && ParseNumber(t[i]).None? ==> Factor(t, i) == Err(InvalidNumber(t[i]))
    ensures IsNumber(t[i]) && ParseNumber(t[i]).Some? ==> Factor(t, i) == Ok(Parsed(ParseNumber(t[i]).value, i + 1))
  {
  }

  /** `parseMulDivMod` as the source writes it: a while loop that updates
      the accumulator `res` and the cursor `idx`; its `switch` on the
      operator is ApplyMulOp. */
  method ParseMulDivMod(t: seq<string>, i: nat) returns (r: Result<Parsed>)
    ensures r == MulDivMod(t, i)
    ensures r.Ok? ==> i < r.value.next <= |t|
  {
    var first := Factor(t, i);
    MulDivModStart(t, i, first);
    if first.Err? {
      return first;
    }
    var res := first.value.value;
    var idx := first.value.next;
    ghost var goal := MulDivMod(t, i);
    while idx < |t|
      invariant i < idx <= |t|
      invariant MulDivModLoop(t, res, idx) == goal
      decreases |t| - idx
    {
      var tok := t[idx];
      if !IsSymbol(tok, '*') && !IsSymbol(tok, '/') && !IsSymbol(tok, '%') {
        break;
      }
      ghost var acc0, idx0 := res, idx;
      idx := idx + 1;
      var right := Factor(t, idx);
      if right.Err? {
        MulDivModLoopFails(t, acc0, idx0, idx, right);
        return right;
      }
      var step := ApplyMulOp(tok, res, right.value.value);
      if step.Err? {
        MulDivModLoopFails(t, acc0, idx0, idx, right);
        return Err(step.error);
      }
      MulDivModLoopTurn(t, acc0, idx0, idx, right, step.value);
      res := step.value;
      idx := right.value.next;
    }
    MulDivModLoopStop(t, res, idx);
    return Ok(Parsed(res, idx));
  }

  /** The first term of `parseAddSub` and the state the loop starts in. */
  lemma AddSubStart(t: seq<string>, i: nat, first: Result<Parsed>)
    requires first == MulDivMod(t, i)
    ensures first.Err? ==> AddSub(t, i) == first
    ensures first.Ok? ==> AddSub(t, i) == AddSubLoop(t, first.value.value, first.value.next)
  {
  }

  /** The `parseAddSub` loop stops at the end or at a token other than '+'
      and '-'. */
  lemma AddSubLoopStop(t: seq<string>, acc: real, i: nat)
    requires i <= |t|
    requires i == |t| || (!IsSymbol(t[i], '+') && !IsSymbol(t[i], '-'))
    ensures AddSubLoop(t, acc, i) == Ok(Parsed(acc, i))
  {
  }

  /** One turn of the `parseAddSub` loop, spelled out for the method: with
      `right` the term after the operator at i, either the loop fails with
      its error or it goes on from the updated accumulator. */
  lemma AddSubLoopStep(t: seq<string>, acc: real, i: nat, right: Result<Parsed>)
    requires i < |t| && (IsSymbol(t[i], '+') || IsSymbol(t[i], '-'))
    requires right == MulDivMod(t, i + 1)
    ensures right.Err? ==> AddSubLoop(t, acc, i) == right
    ensures right.Ok? ==>
      var acc' := if IsSymbol(t[i], '+') then acc + right.value.value else acc - right.value.value;
      AddSubLoop(t, acc, i) == AddSubLoop(t, acc', right.value.next)
  {
    if right.Err? {
      AddSubLoopFails(t, acc, i, i + 1, right);
    } else if IsSymbol(t[i], '+') {
      AddSubLoopAdds(t, acc, i, i + 1, right);
    } else {
      AddSubLoopSubtracts(t, acc, i, i + 1, right);
    }
  }

  /** A turn of the `parseAddSub` loop at a '+' adds the term `right`. */
  lemma AddSubLoopAdds(t: seq<string>, acc: real, i: nat, j: nat, right: Result<Parsed>)
    requires i < |t| && IsSymbol(t[i], '+')
    requires j == i + 1 && right == MulDivMod(t, j) && right.Ok?
    ensures AddSubLoop(t, acc, i) == AddSubLoop(t, acc + right.value.value, right.value.next)
  {
    assert AddSubLoop(t, acc, i) == AddSubLoop(t, acc + right.value.value, right.value.next);
  }

  /** A turn of the `parseAddSub` loop at a '-' subtracts the term `right`. */
  lemma AddSubLoopSubtracts(t: seq<string>, acc: real, i: nat, j: nat, right: Result<Parsed>)
    requires i < |t| && IsSymbol(t[i], '-')
    requires j == i + 1 && right == MulDivMod(t, j) && right.Ok?
    ensures AddSubLoop(t, acc, i) == AddSubLoop(t, acc - right.value.value, right.value.next)
  {
    assert AddSubLoop(t, acc, i) == AddSubLoop(t, acc - right.value.value, right.value.next);
  }

  /** A turn of the `parseAddSub` loop that adds or subtracts the term
      `right`, stated with the new accumulator as a parameter. */
  lemma AddSubLoopTurn(t: seq<string>, acc: real, i: nat, j: nat, right: Result<Parsed>, acc': real)
    requires i < |t| && (IsSymbol(t[i], '+') || IsSymbol(t[i], '-'))
    requires j == i + 1 && right == MulDivMod(t, j) && right.Ok?
    requires acc' == if IsSymbol(t[i], '+') then acc + right.value.value else acc - right.value.value
    ensures AddSubLoop(t, acc, i) == AddSubLoop(t, acc', right.value.next)
  {
    if IsSymbol(t[i], '+') {
      AddSubLoopAdds(t, acc, i, j, right);
    } else {
      AddSubLoopSubtracts(t, acc, i, j, right);
    }
  }

  /** A turn of the `parseAddSub` loop whose term fails stops it with that
      error. */
  lemma AddSubLoopFails(t: seq<string>, acc: real, i: nat, j: nat, right: Result<Parsed>)
    requires i < |t| && (IsSymbol(t[i], '+') || IsSymbol(t[i], '-'))
    requires j == i + 1 && right == MulDivMod(t, j) && right.Err?
    ensures AddSubLoop(t, acc, i) == right
  {
    assert AddSubLoop(t, acc, i) == right;
  }

  /** `parseAddSub` as the source writes it. */
  method ParseAddSub(t: seq<string>, i: nat) returns (r: Result<Parsed>)
    ensures r == AddSub(t, i)
    ensures r.Ok? ==> i < r.value.next <= |t|
  {
    var first := ParseMulDivMod(t, i);
    AddSubStart(t, i, first);
    if first.Err? {
      return first;
    }
    var res := first.value.value;
    var idx := first.value.next;
    ghost var goal := AddSub(t, i);
    while idx < |t|
      invariant i < idx <= |t|
      invariant AddSubLoop(t, res, idx) == goal
      decreases |t| - idx
    {
      var tok := t[idx];
      if !IsSymbol(tok, '+') && !IsSymbol(tok, '-') {
        break;
      }
      ghost var acc0, idx0 := res, idx;
      idx := idx + 1;
      var right := ParseMulDivMod(t, idx);
      if right.Err? {
        AddSubLoopFails(t, acc0, idx0, idx, right);
        return right;
      }
      if IsSymbol(tok, '+') {
        res := res + right.value.value;
      } else {
        res := res - right.value.value;
      }
      AddSubLoopTurn(t, acc0, idx0, idx, right, res);
      idx := right.value.next;
    }
    AddSubLoopStop(t, res, idx);
    return Ok(Parsed(res, idx));
  }
}
